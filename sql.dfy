/**
 * An abstract model of the items table and of the few SQL statements the
 * record store issues. Statements keep the structure the Go code builds
 * (column lists, "col = $n" clauses, argument lists); the SQL text itself is
 * not rendered. The rules follow PostgreSQL as driven by pgx: every
 * placeholder $1..$n must be referenced and no other (otherwise the
 * statement is rejected), `id` and `name` are unique, `name` and `price`
 * are NOT NULL, `descr` and `img` are nullable.
 */
module Sql {
  import opened Wrappers

  /** A statement argument as pgx sends it: an int, a string, or NULL (a nil pointer). */
  datatype Value = Int(i: int) | Str(s: string) | Null

  /** One row of the items table. */
  datatype Row = Row(id: int, name: string, descr: Option<string>, price: int, img: Option<string>)

  /** "col = $ph". */
  datatype Clause = Clause(col: string, ph: nat)

  /** The ORDER BY of a query. */
  datatype Order = ById | ByName

  datatype DbError =
    | BadStatement      // syntax error, unknown column or mismatched placeholders
    | NotNull           // NULL written to `id`, `name` or `price`
    | TypeMismatch      // a value of the wrong type for its column
    | UniqueViolation   // two rows would share an `id` or a `name`
    | Transient         // the connection or the server failed
    | NullScan          // a NULL column scanned into a Go string

  datatype Stmt =
    | InsertStmt(cols: seq<string>, vals: seq<nat>, args: seq<Value>)
    | UpdateStmt(sets: seq<Clause>, where: Clause, args: seq<Value>)
    | DeleteStmt(conds: seq<Clause>, args: seq<Value>)

  /** No two rows share an id or a name (the primary key and the unique name). */
  predicate Keyed(t: seq<Row>)
  {
    forall i, j :: 0 <= i < j < |t| ==> t[i].id != t[j].id && t[i].name != t[j].name
  }

  /** The placeholders referenced are exactly $1..$n for n arguments. */
  predicate Binds(phs: seq<nat>, nargs: nat)
  {
    InRange(phs, nargs) && (forall j :: 1 <= j <= nargs ==> j in phs)
  }

  /** Every placeholder referenced has an argument. */
  predicate InRange(phs: seq<nat>, nargs: nat)
  {
    forall k :: 0 <= k < |phs| ==> 1 <= phs[k] <= nargs
  }

  function Phs(cs: seq<Clause>): (r: seq<nat>)
    ensures |r| == |cs| && forall k :: 0 <= k < |cs| ==> r[k] == cs[k].ph
  {
    if cs == [] then [] else [cs[0].ph] + Phs(cs[1..])
  }

  function Cols(cs: seq<Clause>): (r: seq<string>)
    ensures |r| == |cs| && forall k :: 0 <= k < |cs| ==> r[k] == cs[k].col
  {
    if cs == [] then [] else [cs[0].col] + Cols(cs[1..])
  }

  predicate Distinct(cols: seq<string>)
  {
    forall i, j :: 0 <= i < j < |cols| ==> cols[i] != cols[j]
  }

  /** Store a value in one column of a row. */
  function Assign(r: Row, col: string, v: Value): Result<Row, DbError>
  {
    match col
    case "id" => (match v case Int(i) => Ok(r.(id := i)) case Null => Err(NotNull) case Str(_) => Err(TypeMismatch))
    case "name" => (match v case Str(s) => Ok(r.(name := s)) case Null => Err(NotNull) case Int(_) => Err(TypeMismatch))
    case "price" => (match v case Int(i) => Ok(r.(price := i)) case Null => Err(NotNull) case Str(_) => Err(TypeMismatch))
    case "descr" => (match v case Str(s) => Ok(r.(descr := Some(s))) case Null => Ok(r.(descr := None)) case Int(_) => Err(TypeMismatch))
    case "img" => (match v case Str(s) => Ok(r.(img := Some(s))) case Null => Ok(r.(img := None)) case Int(_) => Err(TypeMismatch))
    case _ => Err(BadStatement)
  }

  /** Store args[phs[k] - 1] in cols[k], left to right. */
  function AssignAll(r: Row, cols: seq<string>, phs: seq<nat>, args: seq<Value>): Result<Row, DbError>
    requires |cols| == |phs| && InRange(phs, |args|)
    decreases cols
  {
    if cols == [] then Ok(r)
    else
      match Assign(r, cols[0], args[phs[0] - 1])
      case Err(e) => Err(e)
      case Ok(r') => AssignAll(r', cols[1..], phs[1..], args)
  }

  /** Whether `r` satisfies "col = $ph" (only `id` and `name` are ever compared; NULL never equals). */
  predicate Holds(r: Row, c: Clause, args: seq<Value>)
    requires 1 <= c.ph <= |args|
  {
    match args[c.ph - 1]
    case Int(i) => c.col == "id" && r.id == i
    case Str(s) => c.col == "name" && r.name == s
    case Null => false
  }

  /** Whether `r` satisfies "c1 OR c2 OR ...". */
  predicate HoldsAny(r: Row, conds: seq<Clause>, args: seq<Value>)
    requires InRange(Phs(conds), |args|)
  {
    exists k :: 0 <= k < |conds| && Holds(r, conds[k], args)
  }

  /** The rows that satisfy the disjunction, in table order. */
  function Matching(t: seq<Row>, conds: seq<Clause>, args: seq<Value>): (m: seq<Row>)
    requires Binds(Phs(conds), |args|)
    ensures |m| <= |t|
    ensures forall r :: r in m <==> r in t && HoldsAny(r, conds, args)
  {
    if t == [] then []
    else (if HoldsAny(t[0], conds, args) then [t[0]] else []) + Matching(t[1..], conds, args)
  }

  /** The rows that do not satisfy the disjunction, in table order. */
  function NotMatching(t: seq<Row>, conds: seq<Clause>, args: seq<Value>): (m: seq<Row>)
    requires Binds(Phs(conds), |args|)
    ensures forall r :: r in m <==> r in t && !HoldsAny(r, conds, args)
  {
    if t == [] then []
    else (if HoldsAny(t[0], conds, args) then [] else [t[0]]) + NotMatching(t[1..], conds, args)
  }

  /** Apply the SET list to every row the WHERE condition selects. */
  function UpdateRows(t: seq<Row>, sets: seq<Clause>, where: Clause, args: seq<Value>): (r: Result<seq<Row>, DbError>)
    requires InRange(Phs(sets), |args|) && 1 <= where.ph <= |args|
    ensures r.Ok? ==> |r.value| == |t|
  {
    if t == [] then Ok([])
    else
      var head := if Holds(t[0], where, args) then AssignAll(t[0], Cols(sets), Phs(sets), args) else Ok(t[0]);
      match head
      case Err(e) => Err(e)
      case Ok(h) =>
        match UpdateRows(t[1..], sets, where, args)
        case Err(e) => Err(e)
        case Ok(rest) => Ok([h] + rest)
  }

  /** Store each (column, value) pair in turn, left to right. */
  function AssignEach(r: Row, ps: seq<(string, Value)>): Result<Row, DbError>
    decreases |ps|
  {
    if ps == [] then Ok(r)
    else
      match Assign(r, ps[0].0, ps[0].1)
      case Err(e) => Err(e)
      case Ok(r') => AssignEach(r', ps[1..])
  }

  /** A single pair is a single Assign. */
  lemma AssignEachOne(r: Row, c: string, v: Value)
    ensures AssignEach(r, [(c, v)]) == Assign(r, c, v)
  {
    assert [(c, v)][1..] == [];
  }

  /** The "col = $n" clauses of a list of (column, value) pairs, numbered from $1 on. */
  function Clauses(ps: seq<(string, Value)>): (cs: seq<Clause>)
    ensures |cs| == |ps| && forall k :: 0 <= k < |ps| ==> cs[k] == Clause(ps[k].0, k + 1)
  {
    seq(|ps|, k requires 0 <= k < |ps| => Clause(ps[k].0, k + 1))
  }

  /** The arguments of a list of (column, value) pairs, in the same order. */
  function Values(ps: seq<(string, Value)>): (vs: seq<Value>)
    ensures |vs| == |ps| && forall k :: 0 <= k < |ps| ==> vs[k] == ps[k].1
  {
    seq(|ps|, k requires 0 <= k < |ps| => ps[k].1)
  }

  /** Appending a pair adds one clause numbered one past the last, and its argument (the closures newArg and addArg). */
  lemma ClausesSnoc(ps: seq<(string, Value)>, col: string, v: Value)
    ensures Clauses(ps + [(col, v)]) == Clauses(ps) + [Clause(col, |ps| + 1)]
    ensures Cols(Clauses(ps + [(col, v)])) == Cols(Clauses(ps)) + [col]
    ensures Phs(Clauses(ps + [(col, v)])) == Phs(Clauses(ps)) + [|ps| + 1]
    ensures Values(ps + [(col, v)]) == Values(ps) + [v]
  {
    assert Clauses(ps + [(col, v)]) == Clauses(ps) + [Clause(col, |ps| + 1)];
  }

  /** A clause list and argument list kept in step with their pairs grow by one entry per appended pair. */
  lemma ClausesStep(ps: seq<(string, Value)>, sets: seq<Clause>, args: seq<Value>, col: string, v: Value)
    requires sets == Clauses(ps) && args == Values(ps)
    ensures sets + [Clause(col, |sets| + 1)] == Clauses(ps + [(col, v)])
    ensures args + [v] == Values(ps + [(col, v)])
  {
    ClausesSnoc(ps, col, v);
  }

  /** Columns listed in increasing rank: each appears at most once. */
  predicate Ranked(ps: seq<(string, Value)>, rank: string -> int)
  {
    forall i, j :: 0 <= i < j < |ps| ==> rank(ps[i].0) < rank(ps[j].0)
  }

  predicate RanksAbove(ps: seq<(string, Value)>, rank: string -> int, lo: int)
  {
    forall k :: 0 <= k < |ps| ==> rank(ps[k].0) > lo
  }

  /** Putting an optional pair for column `c` in front of higher-ranked pairs keeps the ranking. */
  lemma RankedCons(p: seq<(string, Value)>, rest: seq<(string, Value)>, c: string, rank: string -> int)
    requires |p| <= 1 && forall k :: 0 <= k < |p| ==> p[k].0 == c
    requires Ranked(rest, rank) && RanksAbove(rest, rank, rank(c))
    ensures Ranked(p + rest, rank) && RanksAbove(p + rest, rank, rank(c) - 1)
  {
    var ps := p + rest;
    forall i, j | 0 <= i < j < |ps| ensures rank(ps[i].0) < rank(ps[j].0) {
      if i < |p| {
        assert ps[j] == rest[j - |p|];
      } else {
        assert ps[i] == rest[i - |p|] && ps[j] == rest[j - |p|];
      }
    }
  }

  /** Ranked column lists name every column once. */
  lemma RankedDistinct(ps: seq<(string, Value)>, rank: string -> int)
    requires Ranked(ps, rank)
    ensures Distinct(Cols(Clauses(ps)))
  {
    var cols := Cols(Clauses(ps));
    forall i, j | 0 <= i < j < |cols| ensures cols[i] != cols[j] {
      assert cols[i] == ps[i].0 && cols[j] == ps[j].0;
    }
  }

  /** Resolving placeholders and then assigning is assigning the pairs they stand for. */
  lemma {:induction false} AssignAllEach(r: Row, cols: seq<string>, phs: seq<nat>, args: seq<Value>, ps: seq<(string, Value)>)
    requires |cols| == |phs| == |ps| && InRange(phs, |args|)
    requires forall k :: 0 <= k < |ps| ==> cols[k] == ps[k].0 && args[phs[k] - 1] == ps[k].1
    ensures AssignAll(r, cols, phs, args) == AssignEach(r, ps)
    decreases ps
  {
    if ps != [] {
      match Assign(r, cols[0], args[phs[0] - 1])
      case Err(_) =>
      case Ok(r') =>
        AssignAllEach(r', cols[1..], phs[1..], args, ps[1..]);
    }
  }

  lemma {:induction false} AssignEachAppend(r: Row, a: seq<(string, Value)>, b: seq<(string, Value)>)
    ensures AssignEach(r, a + b) ==
            match AssignEach(r, a)
            case Err(e) => Err(e)
            case Ok(r') => AssignEach(r', b)
    decreases a
  {
    if a == [] {
      assert a + b == b;
    } else {
      assert (a + b)[0] == a[0] && (a + b)[1..] == a[1..] + b;
      match Assign(r, a[0].0, a[0].1)
      case Err(_) =>
      case Ok(r') =>
        AssignEachAppend(r', a[1..], b);
    }
  }

  /** Pairs numbered from $1 bind $1..$n+1 once "WHERE ... = $n+1" is added. */
  lemma ClausesBind(ps: seq<(string, Value)>)
    ensures Binds(Phs(Clauses(ps)) + [|ps| + 1], |ps| + 1)
    ensures InRange(Phs(Clauses(ps)), |ps| + 1)
  {
    var phs := Phs(Clauses(ps)) + [|ps| + 1];
    forall j | 1 <= j <= |ps| + 1 ensures j in phs {
      assert phs[j - 1] == j;
    }
  }

  /** Pairs numbered from $1 bind exactly $1..$n (an INSERT's VALUES list). */
  lemma ClausesBindAll(ps: seq<(string, Value)>)
    ensures Binds(Phs(Clauses(ps)), |ps|)
  {
    var phs := Phs(Clauses(ps));
    forall j | 1 <= j <= |ps| ensures j in phs {
      assert phs[j - 1] == j;
    }
  }

  /** The numbered clauses, with the pairs' own values as arguments, assign exactly the pairs. */
  lemma ClausesAssignAll(ps: seq<(string, Value)>, r: Row)
    ensures AssignAll(r, Cols(Clauses(ps)), Phs(Clauses(ps)), Values(ps)) == AssignEach(r, ps)
  {
    var cs := Clauses(ps);
    var cols, phs, args := Cols(cs), Phs(cs), Values(ps);
    assert InRange(phs, |args|) && forall k :: 0 <= k < |ps| ==> cols[k] == ps[k].0 && args[phs[k] - 1] == ps[k].1 by {
      forall k | 0 <= k < |ps| ensures phs[k] == k + 1 && cols[k] == ps[k].0 {
        assert cs[k] == Clause(ps[k].0, k + 1);
      }
    }
    AssignAllEach(r, cols, phs, args, ps);
  }

  /** With "WHERE ... = $n+1" last, the numbered clauses assign exactly the pairs. */
  lemma ClausesAssign(ps: seq<(string, Value)>, w: Value, r: Row)
    ensures InRange(Phs(Clauses(ps)), |ps| + 1)
    ensures AssignAll(r, Cols(Clauses(ps)), Phs(Clauses(ps)), Values(ps) + [w]) == AssignEach(r, ps)
  {
    ClausesBind(ps);
    var args := Values(ps) + [w];
    var cols, phs := Cols(Clauses(ps)), Phs(Clauses(ps));
    forall k | 0 <= k < |ps| ensures cols[k] == ps[k].0 && args[phs[k] - 1] == ps[k].1 {
      assert phs[k] == Clauses(ps)[k].ph == k + 1;
      assert args[k] == Values(ps)[k];
    }
    AssignAllEach(r, cols, phs, args, ps);
  }

  /** UPDATE turns each row the WHERE condition selects into f(row), given that the SET list does so without error. */
  lemma {:induction false} UpdateRowsApply(t: seq<Row>, sets: seq<Clause>, where: Clause, args: seq<Value>, f: Row -> Row)
    requires InRange(Phs(sets), |args|) && 1 <= where.ph <= |args|
    requires forall r :: Holds(r, where, args) ==> AssignAll(r, Cols(sets), Phs(sets), args) == Ok(f(r))
    ensures UpdateRows(t, sets, where, args) ==
            Ok(seq(|t|, k requires 0 <= k < |t| => if Holds(t[k], where, args) then f(t[k]) else t[k]))
  {
    var u := seq(|t|, k requires 0 <= k < |t| => if Holds(t[k], where, args) then f(t[k]) else t[k]);
    if t == [] {
      assert u == [];
    } else {
      UpdateRowsApply(t[1..], sets, where, args, f);
      var u' := seq(|t[1..]|, k requires 0 <= k < |t[1..]| => if Holds(t[1..][k], where, args) then f(t[1..][k]) else t[1..][k]);
      var h := if Holds(t[0], where, args) then f(t[0]) else t[0];
      if Holds(t[0], where, args) {
        assert AssignAll(t[0], Cols(sets), Phs(sets), args) == Ok(f(t[0]));
      }
      assert UpdateRows(t, sets, where, args) == Ok([h] + u');
      assert u == [h] + u';
    }
  }

  /** Placeholder numbers a statement references. */
  function StmtPhs(s: Stmt): seq<nat>
  {
    match s
    case InsertStmt(_, vals, _) => vals
    case UpdateStmt(sets, where, _) => Phs(sets) + [where.ph]
    case DeleteStmt(conds, _) => Phs(conds)
  }

  /**
   * Execute an INSERT, UPDATE or DELETE on table `t`; `nextId` is the value
   * the id sequence hands out when an INSERT gives no id.
   */
  function Run(t: seq<Row>, s: Stmt, nextId: int): (r: Result<seq<Row>, DbError>)
    ensures r.Ok? ==> Keyed(r.value) || !Keyed(t)
  {
    match s
    case InsertStmt(cols, vals, args) =>
      if |cols| != |vals| || !Binds(vals, |args|) || !Distinct(cols) then Err(BadStatement)
      else if "name" !in cols || "price" !in cols then Err(NotNull)
      else
        (match AssignAll(Row(nextId, "", None, 0, None), cols, vals, args)
         case Err(e) => Err(e)
         case Ok(row) =>
           if exists x :: x in t && (x.id == row.id || x.name == row.name) then Err(UniqueViolation)
           else
             KeyedAppend(t, row);
             Ok(t + [row]))
    case UpdateStmt(sets, where, args) =>
      if sets == [] then Err(BadStatement)
      else if !Binds(Phs(sets) + [where.ph], |args|) || !Distinct(Cols(sets)) then Err(BadStatement)
      else
        assert 1 <= where.ph <= |args| && InRange(Phs(sets), |args|) by {
          assert (Phs(sets) + [where.ph])[|sets|] == where.ph;
          assert forall k :: 0 <= k < |sets| ==> (Phs(sets) + [where.ph])[k] == Phs(sets)[k];
        }
        (match UpdateRows(t, sets, where, args)
         case Err(e) => Err(e)
         case Ok(t') => if Keyed(t') then Ok(t') else Err(UniqueViolation))
    case DeleteStmt(conds, args) =>
      if conds == [] || !Binds(Phs(conds), |args|) then Err(BadStatement)
      else
        KeyedNotMatching(t, conds, args);
        Ok(NotMatching(t, conds, args))
  }

  lemma KeyedAppend(t: seq<Row>, row: Row)
    requires forall x :: x in t ==> x.id != row.id && x.name != row.name
    ensures Keyed(t) ==> Keyed(t + [row])
  {
    if Keyed(t) {
      forall i, j | 0 <= i < j < |t + [row]|
        ensures (t + [row])[i].id != (t + [row])[j].id && (t + [row])[i].name != (t + [row])[j].name
      {
        if j == |t| {
          assert (t + [row])[i] in t;
        }
      }
    }
  }

  lemma {:induction false} KeyedNotMatching(t: seq<Row>, conds: seq<Clause>, args: seq<Value>)
    requires Binds(Phs(conds), |args|)
    ensures Keyed(t) ==> Keyed(NotMatching(t, conds, args))
  {
    if t != [] && Keyed(t) {
      assert Keyed(t[1..]);
      KeyedNotMatching(t[1..], conds, args);
      var rest := NotMatching(t[1..], conds, args);
      if !HoldsAny(t[0], conds, args) {
        forall y | y in rest ensures y.id != t[0].id && y.name != t[0].name {
          var j :| 0 <= j < |t[1..]| && t[1..][j] == y;
          assert t[j + 1] == y;
        }
        KeyedCons(t[0], rest);
      }
    }
  }

  lemma KeyedCons(x: Row, s: seq<Row>)
    requires Keyed(s) && forall y :: y in s ==> y.id != x.id && y.name != x.name
    ensures Keyed([x] + s)
  {
    forall i, j | 0 <= i < j < |[x] + s|
      ensures ([x] + s)[i].id != ([x] + s)[j].id && ([x] + s)[i].name != ([x] + s)[j].name
    {
      if i == 0 {
        assert ([x] + s)[j] == s[j - 1];
        assert s[j - 1] in s;
      } else {
        assert ([x] + s)[i] == s[i - 1] && ([x] + s)[j] == s[j - 1];
      }
    }
  }

  /** The img column of each row, NULL as None. */
  function Imgs(m: seq<Row>): (r: seq<Option<string>>)
    ensures |r| == |m| && forall k :: 0 <= k < |m| ==> r[k] == m[k].img
  {
    if m == [] then [] else [m[0].img] + Imgs(m[1..])
  }

  /** "SELECT img FROM items WHERE c1 OR c2 ...". */
  function SelectImgs(t: seq<Row>, conds: seq<Clause>, args: seq<Value>): (r: Result<seq<Option<string>>, DbError>)
  {
    if conds == [] || !Binds(Phs(conds), |args|) then Err(BadStatement)
    else Ok(Imgs(Matching(t, conds, args)))
  }

  /**
   * "SELECT id, name, descr, price, img FROM items [WHERE c1 OR ...] ORDER BY ...";
   * no conditions means no WHERE clause.
   */
  function SelectRows(t: seq<Row>, conds: seq<Clause>, args: seq<Value>, ord: Order): (r: Result<seq<Row>, DbError>)
  {
    if !Binds(Phs(conds), |args|) then Err(BadStatement)
    else Ok(SortRows(if conds == [] then t else Matching(t, conds, args), ord))
  }

  /** Byte-wise lexicographic order on names (the "C" collation). */
  predicate StrLe(a: string, b: string)
    decreases |a|
  {
    a == [] || (b != [] && (a[0] < b[0] || (a[0] == b[0] && StrLe(a[1..], b[1..]))))
  }

  lemma {:induction false} StrLeTotal(a: string, b: string)
    ensures StrLe(a, b) || StrLe(b, a)
    decreases |a|
  {
    if a != [] && b != [] && a[0] == b[0] {
      StrLeTotal(a[1..], b[1..]);
    }
  }

  lemma {:induction false} StrLeTrans(a: string, b: string, c: string)
    requires StrLe(a, b) && StrLe(b, c)
    ensures StrLe(a, c)
    decreases |a|
  {
    if a != [] && a[0] == b[0] && b[0] == c[0] {
      StrLeTrans(a[1..], b[1..], c[1..]);
    }
  }

  /** The ORDER BY relation. */
  predicate Before(ord: Order, x: Row, y: Row)
  {
    match ord
    case ById => x.id <= y.id
    case ByName => StrLe(x.name, y.name)
  }

  lemma BeforeTotal(ord: Order, x: Row, y: Row)
    ensures Before(ord, x, y) || Before(ord, y, x)
  {
    if ord == ByName {
      StrLeTotal(x.name, y.name);
    }
  }

  lemma BeforeTrans(ord: Order, x: Row, y: Row, z: Row)
    requires Before(ord, x, y) && Before(ord, y, z)
    ensures Before(ord, x, z)
  {
    if ord == ByName {
      StrLeTrans(x.name, y.name, z.name);
    }
  }

  predicate Sorted(s: seq<Row>, ord: Order)
  {
    forall i, j :: 0 <= i < j < |s| ==> Before(ord, s[i], s[j])
  }

  function InsertSorted(x: Row, s: seq<Row>, ord: Order): (r: seq<Row>)
    ensures multiset(r) == multiset(s) + multiset{x}
  {
    if s == [] then [x]
    else if Before(ord, x, s[0]) then [x] + s
    else
      assert s == [s[0]] + s[1..];
      [s[0]] + InsertSorted(x, s[1..], ord)
  }

  /** Insertion sort by the ORDER BY relation. */
  function SortRows(s: seq<Row>, ord: Order): (r: seq<Row>)
    ensures multiset(r) == multiset(s)
  {
    if s == [] then []
    else
      assert s == [s[0]] + s[1..];
      InsertSorted(s[0], SortRows(s[1..], ord), ord)
  }

  lemma {:induction false} InsertSortedSorted(x: Row, s: seq<Row>, ord: Order)
    requires Sorted(s, ord)
    ensures Sorted(InsertSorted(x, s, ord), ord)
  {
    if s == [] {
    } else if Before(ord, x, s[0]) {
      var r := [x] + s;
      forall i, j | 0 <= i < j < |r| ensures Before(ord, r[i], r[j]) {
        if i == 0 && j > 1 {
          BeforeTrans(ord, x, s[0], s[j - 1]);
        }
      }
    } else {
      BeforeTotal(ord, x, s[0]);
      InsertSortedSorted(x, s[1..], ord);
      var rest := InsertSorted(x, s[1..], ord);
      var r := [s[0]] + rest;
      forall i, j | 0 <= i < j < |r| ensures Before(ord, r[i], r[j]) {
        if i == 0 {
          var y := rest[j - 1];
          assert y in multiset(rest);
          if y != x {
            assert y in multiset(s[1..]);
            var k :| 0 <= k < |s[1..]| && s[1..][k] == y;
            assert s[k + 1] == y;
          }
        }
      }
    }
  }

  lemma {:induction false} SortRowsSorted(s: seq<Row>, ord: Order)
    ensures Sorted(SortRows(s, ord), ord)
  {
    if s != [] {
      SortRowsSorted(s[1..], ord);
      InsertSortedSorted(s[0], SortRows(s[1..], ord), ord);
    }
  }
}
