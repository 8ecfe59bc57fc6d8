/**
 * The record store of item/util/util.go: Add, Del, Mod and Get against the
 * items table and the image directory. Each operation builds its statement
 * the way the Go code does (growing column, placeholder and argument lists)
 * and then steps through the external calls of Storage.Backend; the
 * contracts say which rows and which image files exist after each failure
 * point.
 */
module ItemStore {
  import opened Wrappers
  import opened Sql
  import opened Storage
  import Paths

  /** The Item record: a nil pointer is None; `hasReader` says whether Img.Reader is set. */
  datatype Item = Item(
    id: Option<int>,
    name: Option<string>,
    descr: Option<string>,
    price: Option<int>,
    imgName: Option<string>,
    hasReader: bool)

  datatype StoreError = CopyFailed | Db(e: DbError)

  /** A *string argument: nil is NULL. */
  function StrOrNull(o: Option<string>): Value
  {
    if o.Some? then Str(o.value) else Null
  }

  /** An *int argument: nil is NULL. */
  function IntOrNull(o: Option<int>): Value
  {
    if o.Some? then Int(o.value) else Null
  }

  /** The file paths of the images in a list of names. */
  function PathSet(o: Option<string>): set<string>
  {
    if o.Some? then {Paths.ImgPath(o.value)} else {}
  }

  // ---------------------------------------------------------------- Add

  /** The image Add stores: a generated name when a reader is given. */
  function AddedImage(it: Item, env: Env): Option<string>
    requires it.hasReader ==> it.imgName.Some?
  {
    if it.hasReader then Some(GeneratedName(env.stamp, it.imgName.value)) else None
  }

  /**
   * The (column, value) pairs Add inserts: name and price, then img when an
   * image was stored, then descr when one is given. `it.id` is not among them.
   */
  function AddPairs(it: Item, img: Option<string>): seq<(string, Value)>
  {
    [("name", StrOrNull(it.name)), ("price", IntOrNull(it.price))]
    + (if img.Some? then [("img", Str(img.value))] else [])
    + (if it.descr.Some? then [("descr", Str(it.descr.value))] else [])
  }

  /** "INSERT INTO items (cols) VALUES ($1, ..., $k)" with the pairs' values as arguments. */
  function AddStmt(it: Item, img: Option<string>): (s: Stmt)
    ensures s.InsertStmt? && |s.cols| == |s.vals| == |s.args| >= 2 && s.cols[..2] == ["name", "price"]
    ensures |s.cols| == 2 + (if img.Some? then 1 else 0) + (if it.descr.Some? then 1 else 0)
  {
    var ps := AddPairs(it, img);
    InsertStmt(Cols(Clauses(ps)), Phs(Clauses(ps)), Values(ps))
  }

  function AddRank(c: string): int
  {
    match c
    case "name" => 0
    case "price" => 1
    case "img" => 2
    case _ => 3
  }

  /** Add's statement names every column once, name and price among them, and its placeholders $1..$k match its arguments. */
  lemma AddStmtShape(it: Item, img: Option<string>)
    ensures var ps := AddPairs(it, img);
            var cols, vals := Cols(Clauses(ps)), Phs(Clauses(ps));
            |cols| == |vals| && Binds(vals, |Values(ps)|) && Distinct(cols) && "name" in cols && "price" in cols
  {
    var ps := AddPairs(it, img);
    var p0: seq<(string, Value)> := [("name", StrOrNull(it.name))];
    var p1: seq<(string, Value)> := [("price", IntOrNull(it.price))];
    var p2: seq<(string, Value)> := if img.Some? then [("img", Str(img.value))] else [];
    var p3: seq<(string, Value)> := if it.descr.Some? then [("descr", Str(it.descr.value))] else [];
    assert ps == p0 + (p1 + (p2 + p3));
    assert Ranked(p3, AddRank) && RanksAbove(p3, AddRank, 2);
    RankedCons(p2, p3, "img", AddRank);
    RankedCons(p1, p2 + p3, "price", AddRank);
    RankedCons(p0, p1 + (p2 + p3), "name", AddRank);
    RankedDistinct(ps, AddRank);
    ClausesBindAll(ps);
    var cols := Cols(Clauses(ps));
    assert cols[0] == "name" && cols[1] == "price";
  }

  /** Assigning Add's pairs to a fresh row: NOT NULL fails on a missing name or price, otherwise every column is set. */
  lemma AddAssigns(it: Item, img: Option<string>, nextId: int)
    ensures AssignEach(Row(nextId, "", None, 0, None), AddPairs(it, img)) ==
            if it.name.None? || it.price.None? then Err(NotNull)
            else Ok(Row(nextId, it.name.value, it.descr, it.price.value, img))
  {
    var base := Row(nextId, "", None, 0, None);
    var front: seq<(string, Value)> := [("name", StrOrNull(it.name)), ("price", IntOrNull(it.price))];
    var mid: seq<(string, Value)> := if img.Some? then [("img", Str(img.value))] else [];
    var back: seq<(string, Value)> := if it.descr.Some? then [("descr", Str(it.descr.value))] else [];
    assert AddPairs(it, img) == front + (mid + back);
    AssignEachAppend(base, front, mid + back);
    if it.name.Some? && it.price.Some? {
      var r0 := base.(name := it.name.value);
      var r1 := r0.(price := it.price.value);
      assert front[1..] == [("price", IntOrNull(it.price))];
      assert AssignEach(r0, front[1..]) == Ok(r1);
      assert AssignEach(base, front) == Ok(r1);
      AssignEachAppend(r1, mid, back);
      var r2 := r1.(img := img);
      assert AssignEach(r1, mid) == Ok(r2);
      assert AssignEach(r2, back) == Ok(r2.(descr := it.descr));
    }
  }

  /**
   * What the INSERT does: a missing name or price violates NOT NULL, a
   * clashing id or name violates uniqueness, and otherwise exactly one row
   * is added holding the given name, description, price and image, with the
   * id the sequence hands out.
   */
  lemma AddInserts(t: seq<Row>, it: Item, img: Option<string>, nextId: int)
    ensures Run(t, AddStmt(it, img), nextId) ==
            if it.name.None? || it.price.None? then Err(NotNull)
            else
              var row := Row(nextId, it.name.value, it.descr, it.price.value, img);
              if exists x :: x in t && (x.id == row.id || x.name == row.name) then Err(UniqueViolation)
              else Ok(t + [row])
  {
    var ps := AddPairs(it, img);
    var cols, vals, args := Cols(Clauses(ps)), Phs(Clauses(ps)), Values(ps);
    assert |cols| == |vals| && Binds(vals, |args|) && Distinct(cols) && "name" in cols && "price" in cols by {
      AddStmtShape(it, img);
    }
    var base := Row(nextId, "", None, 0, None);
    assert AssignAll(base, cols, vals, args) ==
           if it.name.None? || it.price.None? then Err(NotNull)
           else Ok(Row(nextId, it.name.value, it.descr, it.price.value, img)) by {
      ClausesAssignAll(ps, base);
      AddAssigns(it, img, nextId);
    }
    assert AddStmt(it, img) == InsertStmt(cols, vals, args);
  }

  /**
   * Add's column, placeholder and argument lists, grown the way the Go code
   * grows them: name and price, then img when an image was stored, then
   * descr when one is given, each numbered one past the last.
   */
  method AddLists(it: Item, img: Option<string>) returns (cols: seq<string>, vals: seq<nat>, args: seq<Value>)
    ensures InsertStmt(cols, vals, args) == AddStmt(it, img)
  {
    cols, vals, args := ["name", "price"], [1, 2], [StrOrNull(it.name), IntOrNull(it.price)];
    ghost var ps: seq<(string, Value)> := [("name", StrOrNull(it.name)), ("price", IntOrNull(it.price))];
    assert cols == Cols(Clauses(ps)) && vals == Phs(Clauses(ps)) && args == Values(ps);
    if img.Some? {
      ClausesSnoc(ps, "img", Str(img.value));
      ps := ps + [("img", Str(img.value))];
      cols := cols + ["img"];
      vals := vals + [|cols|];
      args := args + [Str(img.value)];
    }
    if it.descr.Some? {
      ClausesSnoc(ps, "descr", Str(it.descr.value));
      ps := ps + [("descr", Str(it.descr.value))];
      cols := cols + ["descr"];
      vals := vals + [|cols|];
      args := args + [Str(it.descr.value)];
    }
    assert ps == AddPairs(it, img);
  }

  /**
   * Add: copy the image (when a reader is given), then INSERT. A failed
   * copy issues no INSERT; a failed INSERT removes the image it copied.
   */
  method Add(b: Backend, it: Item, env: Env) returns (err: Option<StoreError>)
    requires b.Valid()
    requires it.hasReader ==> it.imgName.Some?
    modifies b
    ensures b.Valid()
    ensures it.hasReader && env.copy != Copied ==>
              err == Some(CopyFailed) && b.table == old(b.table) &&
              b.files == CopyEffect(old(b.files), Paths.ImgPath(AddedImage(it, env).value), env.copy)
    ensures !it.hasReader || env.copy == Copied ==>
              var r := if env.execFails then Err(Transient) else Run(old(b.table), AddStmt(it, AddedImage(it, env)), env.nextId);
              (r.Ok? ==> err == None && b.table == r.value && b.files == old(b.files) + PathSet(AddedImage(it, env))) &&
              (r.Err? ==> err == Some(Db(r.error)) && b.table == old(b.table) && b.files == old(b.files) - PathSet(AddedImage(it, env)))
    ensures Consistent(old(b.table), old(b.files)) && PathSet(AddedImage(it, env)) !! old(b.files) ==>
              Consistent(b.table, b.files)
  {
    var img: Option<string> := None;
    if it.hasReader {
      var name, ok := b.CopyImg(it.imgName.value, env.stamp, env.copy);
      if !ok {
        assert b.files == old(b.files) || b.files == old(b.files) - PathSet(AddedImage(it, env));
        if PathSet(AddedImage(it, env)) !! old(b.files) {
          assert b.files == old(b.files);
        }
        return Some(CopyFailed);
      }
      img := Some(name);
    }
    assert img == AddedImage(it, env);
    var cols, vals, args := AddLists(it, img);
    ghost var t0 := b.table;
    assert b.files == old(b.files) + PathSet(img);
    var e := b.Exec(InsertStmt(cols, vals, args), env.nextId, env.execFails);
    if e.Some? {
      if img.Some? {
        b.Remove(Paths.ImgPath(img.value));
      }
      err := Some(Db(e.value));
    } else {
      err := None;
    }
    if Consistent(t0, old(b.files)) && PathSet(img) !! old(b.files) {
      AddPreservesConsistency(t0, old(b.files), it, img, env.nextId, env.execFails);
    }
  }

  /** Add keeps rows and images consistent, provided the generated image name is not taken. */
  lemma AddPreservesConsistency(t: seq<Row>, f: set<string>, it: Item, img: Option<string>, nextId: int, execFails: bool)
    requires Consistent(t, f) && PathSet(img) !! f && img != Some("")
    ensures var r := if execFails then Err(Transient) else Run(t, AddStmt(it, img), nextId);
            (r.Ok? ==> Consistent(r.value, f + PathSet(img))) &&
            (r.Err? ==> Consistent(t, f - PathSet(img)))
  {
    assert f - PathSet(img) == f;
    if !execFails {
      AddInserts(t, it, img, nextId);
      if it.name.Some? && it.price.Some? {
        AddKeepsConsistent(t, f, f + PathSet(img), it, img, nextId);
      }
    }
  }

  lemma AddKeepsConsistent(t: seq<Row>, f: set<string>, f1: set<string>, it: Item, img: Option<string>, nextId: int)
    requires f1 == f + PathSet(img)
    requires Consistent(t, f) && PathSet(img) !! f && img != Some("")
    requires it.name.Some? && it.price.Some?
    ensures var row := Row(nextId, it.name.value, it.descr, it.price.value, img);
            Consistent(t + [row], f1)
  {
    if img.Some? {
      forall z | z in t && z.img.Some? ensures z.img != img {
        assert Paths.ImgPath(z.img.value) in f;
      }
    }
  }

  // ---------------------------------------------------------------- Del and Get

  /** Whether a row is one of those named by id or by name. */
  predicate Addressed(r: Row, ids: seq<int>, names: seq<string>)
  {
    r.id in ids || r.name in names
  }

  /** The addressed rows, in table order. */
  function Picked(t: seq<Row>, ids: seq<int>, names: seq<string>): (m: seq<Row>)
    ensures forall r :: r in m <==> r in t && Addressed(r, ids, names)
  {
    if t == [] then []
    else (if Addressed(t[0], ids, names) then [t[0]] else []) + Picked(t[1..], ids, names)
  }

  /** The rows that are not addressed, in table order. */
  function Remaining(t: seq<Row>, ids: seq<int>, names: seq<string>): (m: seq<Row>)
    ensures forall r :: r in m <==> r in t && !Addressed(r, ids, names)
  {
    if t == [] then []
    else (if Addressed(t[0], ids, names) then [] else [t[0]]) + Remaining(t[1..], ids, names)
  }

  /** The image files of the addressed rows that have an image. */
  function Doomed(t: seq<Row>, ids: seq<int>, names: seq<string>): set<string>
  {
    set r | r in t && Addressed(r, ids, names) && r.img.Some? :: Paths.ImgPath(r.img.value)
  }

  /**
   * The WHERE part Del and Get build: one "id = $k" per id, then one
   * "name = $k" per name, numbered consecutively and joined by OR. The
   * disjunction holds of exactly the addressed rows.
   */
  method WhereAnyOf(ids: seq<int>, names: seq<string>) returns (conds: seq<Clause>, args: seq<Value>)
    ensures |conds| == |ids| + |names|
    ensures Binds(Phs(conds), |args|)
    ensures forall r :: HoldsAny(r, conds, args) <==> Addressed(r, ids, names)
  {
    conds, args := [], [];
    for i := 0 to |ids|
      invariant |conds| == |args| == i
      invariant forall k :: 0 <= k < i ==> conds[k] == Clause("id", k + 1) && args[k] == Int(ids[k])
    {
      conds := conds + [Clause("id", |conds| + 1)];
      args := args + [Int(ids[i])];
    }
    for i := 0 to |names|
      invariant |conds| == |args| == |ids| + i
      invariant forall k :: 0 <= k < |ids| ==> conds[k] == Clause("id", k + 1) && args[k] == Int(ids[k])
      invariant forall k :: |ids| <= k < |ids| + i ==> conds[k] == Clause("name", k + 1) && args[k] == Str(names[k - |ids|])
    {
      conds := conds + [Clause("name", |conds| + 1)];
      args := args + [Str(names[i])];
    }
    AnyOfShape(conds, args, ids, names);
  }

  /** The clause list WhereAnyOf builds binds its arguments and holds of exactly the addressed rows. */
  lemma {:induction false} AnyOfShape(conds: seq<Clause>, args: seq<Value>, ids: seq<int>, names: seq<string>)
    requires |conds| == |args| == |ids| + |names|
    requires forall k :: 0 <= k < |ids| ==> conds[k] == Clause("id", k + 1) && args[k] == Int(ids[k])
    requires forall k :: |ids| <= k < |conds| ==> conds[k] == Clause("name", k + 1) && args[k] == Str(names[k - |ids|])
    ensures Binds(Phs(conds), |args|)
    ensures forall r :: HoldsAny(r, conds, args) <==> Addressed(r, ids, names)
  {
    forall j | 1 <= j <= |args| ensures j in Phs(conds) {
      assert Phs(conds)[j - 1] == j;
    }
    forall r ensures HoldsAny(r, conds, args) <==> Addressed(r, ids, names) {
      AnyOfHolds(r, conds, args, ids, names);
    }
  }

  lemma {:induction false} AnyOfHolds(r: Row, conds: seq<Clause>, args: seq<Value>, ids: seq<int>, names: seq<string>)
    requires |conds| == |args| == |ids| + |names|
    requires forall k :: 0 <= k < |ids| ==> conds[k] == Clause("id", k + 1) && args[k] == Int(ids[k])
    requires forall k :: |ids| <= k < |conds| ==> conds[k] == Clause("name", k + 1) && args[k] == Str(names[k - |ids|])
    ensures HoldsAny(r, conds, args) <==> Addressed(r, ids, names)
  {
    if Addressed(r, ids, names) {
      AddressedHolds(r, conds, args, ids, names);
    }
    if HoldsAny(r, conds, args) {
      var k :| 0 <= k < |conds| && Holds(r, conds[k], args);
      HoldsAddressed(r, conds, args, ids, names, k);
    }
  }

  lemma HoldsAddressed(r: Row, conds: seq<Clause>, args: seq<Value>, ids: seq<int>, names: seq<string>, k: int)
    requires |conds| == |args| == |ids| + |names|
    requires forall k :: 0 <= k < |ids| ==> conds[k] == Clause("id", k + 1) && args[k] == Int(ids[k])
    requires forall k :: |ids| <= k < |conds| ==> conds[k] == Clause("name", k + 1) && args[k] == Str(names[k - |ids|])
    requires 0 <= k < |conds| && 1 <= conds[k].ph <= |args| && Holds(r, conds[k], args)
    ensures Addressed(r, ids, names)
  {
    if k < |ids| {
      assert args[k] == Int(ids[k]);
      assert r.id == ids[k];
    } else {
      assert args[k] == Str(names[k - |ids|]);
      assert r.name == names[k - |ids|];
    }
  }

  lemma {:induction false} AddressedHolds(r: Row, conds: seq<Clause>, args: seq<Value>, ids: seq<int>, names: seq<string>)
    requires |conds| == |args| == |ids| + |names|
    requires forall k :: 0 <= k < |ids| ==> conds[k] == Clause("id", k + 1) && args[k] == Int(ids[k])
    requires forall k :: |ids| <= k < |conds| ==> conds[k] == Clause("name", k + 1) && args[k] == Str(names[k - |ids|])
    requires Addressed(r, ids, names)
    ensures exists k :: 0 <= k < |conds| && 1 <= conds[k].ph <= |args| && Holds(r, conds[k], args)
  {
    if r.id in ids {
      var k :| 0 <= k < |ids| && ids[k] == r.id;
      assert Holds(r, conds[k], args);
    } else {
      var k :| 0 <= k < |names| && names[k] == r.name;
      assert Holds(r, conds[|ids| + k], args);
    }
  }

  /** A disjunction that holds of exactly the addressed rows selects and deletes exactly them. */
  lemma {:induction false} MatchingAddressed(t: seq<Row>, conds: seq<Clause>, args: seq<Value>, ids: seq<int>, names: seq<string>)
    requires Binds(Phs(conds), |args|)
    requires forall r :: HoldsAny(r, conds, args) <==> Addressed(r, ids, names)
    ensures Matching(t, conds, args) == Picked(t, ids, names)
    ensures NotMatching(t, conds, args) == Remaining(t, ids, names)
  {
    if t != [] {
      MatchingAddressed(t[1..], conds, args, ids, names);
    }
  }

  /** The image paths of the non-NULL names, in order (Del's rows.Next loop). */
  function PathsOf(vs: seq<Option<string>>): (ps: seq<string>)
    ensures forall p :: p in ps <==> exists k :: 0 <= k < |vs| && vs[k].Some? && p == Paths.ImgPath(vs[k].value)
  {
    if vs == [] then []
    else
      var last := vs[|vs| - 1];
      assert forall k :: 0 <= k < |vs| - 1 ==> vs[..|vs| - 1][k] == vs[k];
      PathsOf(vs[..|vs| - 1]) + (if last.Some? then [Paths.ImgPath(last.value)] else [])
  }

  /** The set of paths in a list. */
  function Elems(s: seq<string>): set<string>
  {
    set p | p in s
  }

  lemma ElemsPrefix(s: seq<string>, i: nat)
    requires i < |s|
    ensures Elems(s[..i + 1]) == Elems(s[..i]) + {s[i]}
  {
    assert s[..i + 1] == s[..i] + [s[i]];
  }

  /** The rows.Next loop of Del: the path of every non-NULL image name, in order. */
  method CollectPaths(vs: seq<Option<string>>) returns (imgs: seq<string>)
    ensures imgs == PathsOf(vs)
  {
    imgs := [];
    for i := 0 to |vs|
      invariant imgs == PathsOf(vs[..i])
    {
      assert vs[..i + 1][..i] == vs[..i];
      if vs[i].Some? {
        imgs := imgs + [Paths.ImgPath(vs[i].value)];
      }
    }
    assert vs[..|vs|] == vs;
  }

  /** Remove every listed file. */
  method RemoveEach(b: Backend, paths: seq<string>)
    modifies b`files
    ensures b.files == old(b.files) - Elems(paths)
  {
    for i := 0 to |paths|
      invariant b.files == old(b.files) - Elems(paths[..i])
    {
      ElemsPrefix(paths, i);
      b.Remove(paths[i]);
    }
    assert paths[..|paths|] == paths;
  }

  /** The images Del collects are exactly those of the addressed rows. */
  lemma DoomedPaths(t: seq<Row>, ids: seq<int>, names: seq<string>)
    ensures Elems(PathsOf(Imgs(Picked(t, ids, names)))) == Doomed(t, ids, names)
  {
    var m := Picked(t, ids, names);
    var vs := Imgs(m);
    forall p | p in PathsOf(vs) ensures p in Doomed(t, ids, names) {
      var k :| 0 <= k < |vs| && vs[k].Some? && p == Paths.ImgPath(vs[k].value);
      assert m[k] in m;
    }
    forall p | p in Doomed(t, ids, names) ensures p in PathsOf(vs) {
      var r :| r in t && Addressed(r, ids, names) && r.img.Some? && p == Paths.ImgPath(r.img.value);
      var k :| 0 <= k < |m| && m[k] == r;
      assert vs[k] == r.img;
    }
  }

  /**
   * Deleting the addressed rows and their images keeps the table and the
   * image directory consistent: no remaining row loses its image.
   */
  lemma DelPreservesConsistency(t: seq<Row>, f: set<string>, ids: seq<int>, names: seq<string>)
    requires Consistent(t, f)
    ensures Consistent(Remaining(t, ids, names), f - Doomed(t, ids, names))
  {
  }

  /**
   * When the commit fails, Del still removes the images it collected, and
   * a row that keeps its image then references a removed file.
   */
  lemma DelCommitFailureLosesImages(t: seq<Row>, f: set<string>, ids: seq<int>, names: seq<string>, r: Row)
    requires r in t && Addressed(r, ids, names) && r.img.Some?
    ensures !Consistent(t, f - Doomed(t, ids, names))
  {
    assert Paths.ImgPath(r.img.value) in Doomed(t, ids, names);
  }

  /**
   * Del: nothing to address is a no-op; otherwise, in one transaction,
   * collect the addressed rows' images, DELETE them and commit; the
   * images are removed only after that, and even if the commit failed.
   */
  method Del(b: Backend, ids: seq<int>, names: seq<string>, env: Env) returns (err: Option<StoreError>)
    requires b.Valid()
    modifies b
    ensures b.Valid()
    ensures ids == [] && names == [] ==> err == None && b.table == old(b.table) && b.files == old(b.files)
    ensures (ids != [] || names != []) && (env.beginFails || env.queryFails || env.execFails) ==>
              err == Some(Db(Transient)) && b.table == old(b.table) && b.files == old(b.files)
    ensures (ids != [] || names != []) && !env.beginFails && !env.queryFails && !env.execFails ==>
              err == None &&
              b.table == (if env.commitFails then old(b.table) else Remaining(old(b.table), ids, names)) &&
              b.files == old(b.files) - Doomed(old(b.table), ids, names)
    ensures Consistent(old(b.table), old(b.files)) && !env.commitFails ==> Consistent(b.table, b.files)
  {
    if |ids| == 0 && |names| == 0 {
      return None;
    }
    var conds, args := WhereAnyOf(ids, names);
    if env.beginFails {
      return Some(Db(Transient));
    }
    var staged := b.table;
    MatchingAddressed(staged, conds, args, ids, names);
    var q := if env.queryFails then Err(Transient) else SelectImgs(staged, conds, args);
    if q.Err? {
      return Some(Db(q.error));
    }
    assert q.value == Imgs(Picked(staged, ids, names));
    var imgs := CollectPaths(q.value);
    assert Elems(imgs) == Doomed(staged, ids, names) by {
      DoomedPaths(staged, ids, names);
    }
    var d := if env.execFails then Err(Transient) else Run(staged, DeleteStmt(conds, args), env.nextId);
    if d.Err? {
      return Some(Db(d.error));
    }
    assert d.value == Remaining(staged, ids, names);
    b.Commit(d.value, env.commitFails);
    RemoveEach(b, imgs);
    if Consistent(old(b.table), old(b.files)) && !env.commitFails {
      DelPreservesConsistency(staged, old(b.files), ids, names);
    }
    return None;
  }

  /** A row as Get returns it: the NOT NULL columns set, a NULL descr or img left absent. */
  function ItemOf(r: Row): (it: Item)
    ensures it.id == Some(r.id) && it.name == Some(r.name) && it.price == Some(r.price)
    ensures it.descr == r.descr && it.imgName == r.img && !it.hasReader
  {
    Item(Some(r.id), Some(r.name), r.descr, Some(r.price), r.img, false)
  }

  /**
   * The rows Get lists: all of them when no ids or names are given,
   * otherwise the addressed ones; each exactly once, in ORDER BY order.
   */
  function Listing(t: seq<Row>, ids: seq<int>, names: seq<string>, ord: Order): (rows: seq<Row>)
    ensures Sorted(rows, ord)
    ensures multiset(rows) == multiset(if ids == [] && names == [] then t else Picked(t, ids, names))
  {
    var chosen := if ids == [] && names == [] then t else Picked(t, ids, names);
    SortRowsSorted(chosen, ord);
    SortRows(chosen, ord)
  }

  /**
   * Get: SELECT the addressed rows (no WHERE clause when there are none)
   * ordered by id or name, and scan each into an Item.
   */
  method Get(b: Backend, ids: seq<int>, names: seq<string>, ord: Order, env: Env) returns (items: seq<Item>, err: Option<StoreError>)
    ensures err.Some? <==> env.queryFails
    ensures err.None? ==>
              var rows := Listing(b.table, ids, names, ord);
              |items| == |rows| && forall k :: 0 <= k < |rows| ==> items[k] == ItemOf(rows[k])
  {
    var conds, args := WhereAnyOf(ids, names);
    var q := if env.queryFails then Err(Transient) else SelectRows(b.table, conds, args, ord);
    if q.Err? {
      return [], Some(Db(q.error));
    }
    assert q.value == Listing(b.table, ids, names, ord) by {
      MatchingAddressed(b.table, conds, args, ids, names);
      assert (conds == []) == (ids == [] && names == []);
    }
    items := ScanItems(q.value);
    err := None;
  }

  /** The rows.Next loop: scan each row into an Item, in order. */
  method ScanItems(rows: seq<Row>) returns (items: seq<Item>)
    ensures |items| == |rows| && forall k :: 0 <= k < |rows| ==> items[k] == ItemOf(rows[k])
  {
    items := [];
    for i := 0 to |rows|
      invariant |items| == i
      invariant forall k :: 0 <= k < i ==> items[k] == ItemOf(rows[k])
    {
      items := items + [ItemOf(rows[i])];
    }
  }

  // ---------------------------------------------------------------- Mod

  /** Mod's WHERE column and argument: the id when it is not negative, the name otherwise. */
  function Target(id: int, name: string): (string, Value)
  {
    if id >= 0 then ("id", Int(id)) else ("name", Str(name))
  }

  /** Whether Mod's WHERE condition selects the row. */
  predicate Addresses(r: Row, id: int, name: string)
  {
    if id >= 0 then r.id == id else r.name == name
  }

  /** Nothing to change: every field of the item is nil. */
  predicate NoChange(it: Item)
  {
    it.id.None? && it.name.None? && it.price.None? && it.imgName.None? && it.descr.None?
  }

  function IdPart(it: Item): seq<(string, Value)>
  {
    if it.id.Some? then [("id", Int(it.id.value))] else []
  }

  function NamePart(it: Item): seq<(string, Value)>
  {
    if it.name.Some? then [("name", Str(it.name.value))] else []
  }

  function PricePart(it: Item): seq<(string, Value)>
  {
    if it.price.Some? then [("price", Int(it.price.value))] else []
  }

  /** An empty image name clears the column; any other stores the newly copied image. */
  function ImgPart(it: Item, newImg: string): seq<(string, Value)>
  {
    match it.imgName
    case None => []
    case Some(n) => [("img", if n == "" then Null else Str(newImg))]
  }

  /** An empty description clears the column. */
  function DescrPart(it: Item): seq<(string, Value)>
  {
    match it.descr
    case None => []
    case Some(d) => [("descr", if d == "" then Null else Str(d))]
  }

  /** Mod's SET list: id, name, price, img, descr, each only when given. */
  function ModPairs(it: Item, newImg: string): seq<(string, Value)>
  {
    IdPart(it) + NamePart(it) + PricePart(it) + ImgPart(it, newImg) + DescrPart(it)
  }

  /** "UPDATE items SET ... WHERE <fld> = $n+1" for n SET clauses. */
  function ModWhere(id: int, name: string, it: Item, newImg: string): Clause
  {
    Clause(Target(id, name).0, |ModPairs(it, newImg)| + 1)
  }

  function ModStmt(id: int, name: string, it: Item, newImg: string): Stmt
  {
    var ps := ModPairs(it, newImg);
    UpdateStmt(Clauses(ps), ModWhere(id, name, it, newImg), Values(ps) + [Target(id, name).1])
  }

  /** A row after Mod's changes: each given field replaced, an empty img or descr cleared. */
  function Changed(r: Row, it: Item, newImg: string): Row
  {
    Row(it.id.GetOr(r.id),
        it.name.GetOr(r.name),
        match it.descr case None => r.descr case Some(d) => if d == "" then None else Some(d),
        it.price.GetOr(r.price),
        match it.imgName case None => r.img case Some(n) => if n == "" then None else Some(newImg))
  }

  /** The table with every addressed row changed and every other row as it was. */
  function Modified(t: seq<Row>, id: int, name: string, it: Item, newImg: string): (t': seq<Row>)
    ensures |t'| == |t|
  {
    seq(|t|, k requires 0 <= k < |t| => if Addresses(t[k], id, name) then Changed(t[k], it, newImg) else t[k])
  }

  lemma ModPairsNested(it: Item, newImg: string)
    ensures ModPairs(it, newImg) ==
            IdPart(it) + (NamePart(it) + (PricePart(it) + (ImgPart(it, newImg) + DescrPart(it))))
  {
    var a, b, c, d, e := IdPart(it), NamePart(it), PricePart(it), ImgPart(it, newImg), DescrPart(it);
    assert a + b + c + d + e == (a + b + c) + (d + e);
    assert (a + b + c) + (d + e) == (a + b) + (c + (d + e));
    assert (a + b) + (c + (d + e)) == a + (b + (c + (d + e)));
  }

  function ModRank(c: string): int
  {
    match c
    case "id" => 0
    case "name" => 1
    case "price" => 2
    case "img" => 3
    case _ => 4
  }

  /** The SET list names each column at most once, in the order id, name, price, img, descr. */
  lemma ModRanked(it: Item, newImg: string)
    ensures Ranked(ModPairs(it, newImg), ModRank)
    ensures Distinct(Cols(Clauses(ModPairs(it, newImg))))
  {
    var d := DescrPart(it);
    assert Ranked(d, ModRank) && RanksAbove(d, ModRank, 3);
    RankedCons(ImgPart(it, newImg), d, "img", ModRank);
    RankedCons(PricePart(it), ImgPart(it, newImg) + d, "price", ModRank);
    RankedCons(NamePart(it), PricePart(it) + (ImgPart(it, newImg) + d), "name", ModRank);
    RankedCons(IdPart(it), NamePart(it) + (PricePart(it) + (ImgPart(it, newImg) + d)), "id", ModRank);
    ModPairsNested(it, newImg);
    RankedDistinct(ModPairs(it, newImg), ModRank);
  }

  /** Assigning Mod's SET list never fails and yields the changed row. */
  lemma ModChanges(r: Row, it: Item, newImg: string)
    ensures AssignEach(r, ModPairs(it, newImg)) == Ok(Changed(r, it, newImg))
  {
    var r1 := r.(id := it.id.GetOr(r.id));
    var r2 := r1.(name := it.name.GetOr(r.name));
    var r3 := r2.(price := it.price.GetOr(r.price));
    var rest2 := PricePart(it) + (ImgPart(it, newImg) + DescrPart(it));
    var rest1 := NamePart(it) + rest2;
    ModPairsNested(it, newImg);
    AssignEachAppend(r, IdPart(it), rest1);
    if it.id.Some? { AssignEachOne(r, "id", Int(it.id.value)); }
    AssignEachAppend(r1, NamePart(it), rest2);
    if it.name.Some? { AssignEachOne(r1, "name", Str(it.name.value)); }
    AssignEachAppend(r2, PricePart(it), ImgPart(it, newImg) + DescrPart(it));
    if it.price.Some? { AssignEachOne(r2, "price", Int(it.price.value)); }
    ModChangesImage(r3, it, newImg);
    assert r3.(img := Changed(r, it, newImg).img, descr := Changed(r, it, newImg).descr) == Changed(r, it, newImg);
  }

  /** The img and descr clauses at the end of the SET list set (or clear) those two columns. */
  lemma ModChangesImage(r: Row, it: Item, newImg: string)
    ensures AssignEach(r, ImgPart(it, newImg) + DescrPart(it)) ==
            Ok(r.(img := Changed(r, it, newImg).img, descr := Changed(r, it, newImg).descr))
  {
    var r4 := r.(img := Changed(r, it, newImg).img);
    AssignEachAppend(r, ImgPart(it, newImg), DescrPart(it));
    if it.imgName.Some? { AssignEachOne(r, "img", ImgPart(it, newImg)[0].1); }
    if it.descr.Some? { AssignEachOne(r4, "descr", DescrPart(it)[0].1); }
  }

  /** The WHERE clause, numbered after the SET list, holds of exactly the addressed rows. */
  lemma WhereAddresses(r: Row, id: int, name: string, args: seq<Value>)
    requires |args| >= 1 && args[|args| - 1] == Target(id, name).1
    ensures Holds(r, Clause(Target(id, name).0, |args|), args) <==> Addresses(r, id, name)
  {
  }

  /**
   * What Mod's UPDATE does: with nothing to change it is a syntax error
   * (there is no guard against an empty SET list); otherwise every
   * addressed row is changed, unless that makes two rows share an id or a
   * name.
   */
  lemma ModRuns(t: seq<Row>, id: int, name: string, it: Item, newImg: string, nextId: int)
    ensures Run(t, ModStmt(id, name, it, newImg), nextId) ==
            if NoChange(it) then Err(BadStatement)
            else if Keyed(Modified(t, id, name, it, newImg)) then Ok(Modified(t, id, name, it, newImg))
            else Err(UniqueViolation)
  {
    var ps := ModPairs(it, newImg);
    var sets, where, args := Clauses(ps), ModWhere(id, name, it, newImg), Values(ps) + [Target(id, name).1];
    assert ps == [] <==> NoChange(it);
    if ps != [] {
      ClausesBind(ps);
      ModRanked(it, newImg);
      var f := (r: Row) => Changed(r, it, newImg);
      forall r | Holds(r, where, args) ensures AssignAll(r, Cols(sets), Phs(sets), args) == Ok(f(r)) {
        ClausesAssign(ps, Target(id, name).1, r);
        ModChanges(r, it, newImg);
      }
      UpdateRowsApply(t, sets, where, args, f);
      forall k | 0 <= k < |t| ensures Holds(t[k], where, args) <==> Addresses(t[k], id, name) {
        WhereAddresses(t[k], id, name, args);
      }
      assert seq(|t|, k requires 0 <= k < |t| => if Holds(t[k], where, args) then f(t[k]) else t[k])
          == Modified(t, id, name, it, newImg);
    }
  }

  /** The addressed rows, in table order. */
  function Selected(t: seq<Row>, id: int, name: string): (m: seq<Row>)
    ensures forall r :: r in m <==> r in t && Addresses(r, id, name)
  {
    if t == [] then []
    else (if Addresses(t[0], id, name) then [t[0]] else []) + Selected(t[1..], id, name)
  }

  /** "SELECT img FROM items WHERE <fld> = $1" with the WHERE argument alone selects the addressed rows. */
  lemma {:induction false} MatchingSelected(t: seq<Row>, id: int, name: string)
    ensures Binds(Phs([Clause(Target(id, name).0, 1)]), 1)
    ensures Matching(t, [Clause(Target(id, name).0, 1)], [Target(id, name).1]) == Selected(t, id, name)
  {
    var c, args := [Clause(Target(id, name).0, 1)], [Target(id, name).1];
    assert Phs(c) == [1];
    if t != [] {
      MatchingSelected(t[1..], id, name);
      assert HoldsAny(t[0], c, args) <==> Holds(t[0], c[0], args);
    }
  }

  lemma {:induction false} SelectedNone(t: seq<Row>, id: int, name: string)
    requires forall r :: r in t ==> !Addresses(r, id, name)
    ensures Selected(t, id, name) == []
  {
    if t != [] {
      assert t[0] in t;
      SelectedNone(t[1..], id, name);
    }
  }

  /** An id or a name picks out at most one row of a keyed table. */
  lemma {:induction false} SelectedUnique(t: seq<Row>, id: int, name: string, k: nat)
    requires Keyed(t) && k < |t| && Addresses(t[k], id, name)
    ensures Selected(t, id, name) == [t[k]]
  {
    if k == 0 {
      forall r | r in t[1..] ensures !Addresses(r, id, name) {
        var j :| 0 <= j < |t[1..]| && t[1..][j] == r;
        assert t[j + 1] == r;
      }
      SelectedNone(t[1..], id, name);
    } else {
      assert Keyed(t[1..]);
      SelectedUnique(t[1..], id, name, k - 1);
    }
  }

  /** The image of the addressed row, if there is one and it has an image. */
  function PriorImage(t: seq<Row>, id: int, name: string): Option<string>
  {
    var m := Selected(t, id, name);
    if m == [] then None else m[0].img
  }

  /**
   * QueryRow(...).Scan(&img) into a Go string: no row leaves img "" (the
   * ErrNoRows error is ignored), a NULL img is an error.
   */
  function ScanString(q: Result<seq<Option<string>>, DbError>): (string, Option<DbError>)
  {
    match q
    case Err(e) => ("", Some(e))
    case Ok(vs) => if vs == [] then ("", None) else if vs[0].None? then ("", Some(NullScan)) else (vs[0].value, None)
  }

  /** Scan(&img) into a *string: no row and NULL both read as no image. */
  function ScanNullable(q: Result<seq<Option<string>>, DbError>): Result<Option<string>, DbError>
  {
    match q
    case Err(e) => Err(e)
    case Ok(vs) => if vs == [] then Ok(None) else Ok(vs[0])
  }

  /**
   * Mod's SELECT of the old image reuses the WHERE clause numbered after
   * the SET list but passes only the WHERE argument. Whenever the image is
   * being changed or cleared the SET list holds the img clause, so the
   * placeholder is at least $2 with one argument and the statement is
   * rejected.
   */
  lemma ModSelectRejected(t: seq<Row>, id: int, name: string, it: Item, newImg: string)
    requires it.imgName.Some?
    ensures SelectImgs(t, [ModWhere(id, name, it, newImg)], [Target(id, name).1]) == Err(BadStatement)
  {
    assert |ImgPart(it, newImg)| == 1;
    assert |ModPairs(it, newImg)| >= 1;
    assert !(1 in Phs([ModWhere(id, name, it, newImg)]));
  }

  /**
   * Even with the placeholder corrected, scanning the old image into a Go
   * string fails for an item that has no image.
   */
  lemma ScanStringNull(t: seq<Row>, id: int, name: string, k: nat)
    requires Keyed(t) && k < |t| && Addresses(t[k], id, name) && t[k].img.None?
    ensures ScanString(SelectImgs(t, [Clause(Target(id, name).0, 1)], [Target(id, name).1])).1 == Some(NullScan)
  {
    MatchingSelected(t, id, name);
    SelectedUnique(t, id, name, k);
  }

  /** The corrected SELECT reads the addressed row's image, NULL and no row alike as no image. */
  lemma ScanNullablePrior(t: seq<Row>, id: int, name: string)
    ensures ScanNullable(SelectImgs(t, [Clause(Target(id, name).0, 1)], [Target(id, name).1])) == Ok(PriorImage(t, id, name))
  {
    MatchingSelected(t, id, name);
  }

  /**
   * The outcome of Mod's transaction when no file is involved: a failed
   * begin or UPDATE changes nothing; otherwise the UPDATE's rows are
   * committed, unless the commit fails.
   */
  ghost predicate UpdateOutcome(t0: seq<Row>, t: seq<Row>, err: Option<StoreError>, id: int, name: string, it: Item, newImg: string, env: Env)
  {
    var u := if env.execFails then Err(Transient) else Run(t0, ModStmt(id, name, it, newImg), env.nextId);
    if env.beginFails then err == Some(Db(Transient)) && t == t0
    else if u.Err? then err == Some(Db(u.error)) && t == t0
    else err == None && t == (if env.commitFails then t0 else u.value)
  }

  /** The closure rmImg: remove the recorded compensation path, if one was recorded. */
  method RmImg(b: Backend, path: string)
    modifies b`files
    ensures b.files == if path != "" then old(b.files) - {path} else old(b.files)
  {
    if path != "" {
      b.Remove(path);
    }
  }

  /** Remove the file of a named image; an empty name removes nothing. */
  method RemoveNamed(b: Backend, img: string)
    modifies b`files
    ensures b.files == if img != "" then old(b.files) - {Paths.ImgPath(img)} else old(b.files)
  {
    if img != "" {
      b.Remove(Paths.ImgPath(img));
    }
  }

  /** The path copyImg writes for Mod's new image. */
  function NewPath(it: Item, env: Env): string
    requires it.imgName.Some?
  {
    Paths.ImgPath(GeneratedName(env.stamp, it.imgName.value))
  }

  /**
   * Mod as written. It builds the SET list and the WHERE clause, copies a
   * new image before the transaction, reads the old image inside it, runs
   * the UPDATE, commits, and removes the old image. Its compensation path
   * is computed from the still-empty old name, so it names "img/" instead
   * of the new file.
   */
  method Mod(b: Backend, id: int, name: string, it: Item, env: Env) returns (err: Option<StoreError>)
    requires b.Valid()
    requires it.imgName.Some? && it.imgName.value != "" ==> it.hasReader
    modifies b
    ensures b.Valid()
    ensures it.imgName.None? ==>
              b.files == old(b.files) && UpdateOutcome(old(b.table), b.table, err, id, name, it, "", env)
    ensures it.imgName.Some? ==> err.Some? && b.table == old(b.table)
    ensures it.imgName == Some("") ==> b.files == old(b.files)
    ensures it.imgName.Some? && it.imgName.value != "" ==>
              b.files == if env.copy != Copied then CopyEffect(old(b.files), NewPath(it, env), env.copy)
                         else if env.beginFails then old(b.files) + {NewPath(it, env)}
                         else old(b.files) + {NewPath(it, env)} - {"img/"}
    ensures Consistent(old(b.table), old(b.files)) && it.imgName.Some? && it.imgName.value != "" && env.copy == Copied ==>
              b.files == old(b.files) + {NewPath(it, env)}
    ensures Consistent(old(b.table), old(b.files)) && NewPaths(it, env) !! old(b.files) ==> Consistent(b.table, b.files)
  {
    var img, newImg, newImgPath := "", "", "";
    // The SET list is built in memory only, so copying the image before
    // building it has the same effects as copying it between the price and
    // img clauses.
    if it.imgName.Some? && it.imgName.value != "" {
      var ok;
      newImg, ok := b.CopyImg(it.imgName.value, env.stamp, env.copy);
      if !ok {
        err := Some(CopyFailed);
        if Consistent(old(b.table), old(b.files)) && NewPaths(it, env) !! old(b.files) {
          WrittenOutcomeConsistent(old(b.table), old(b.files), b.table, b.files, err, id, name, it, env);
        }
        return;
      }
      // img is still "", so the compensation path is the image directory.
      newImgPath := Paths.ImgPath(img);
      assert newImgPath == "img/";
    }
    assert newImg == NewImage(it, env);
    ghost var f1 := b.files;
    assert it.imgName.Some? && it.imgName.value != "" ==> f1 == old(b.files) + {NewPath(it, env)};
    err := ModTxAsWritten(b, id, name, it, newImg, newImgPath, env);
    assert it.imgName.Some? && it.imgName.value != "" ==>
             b.files == if env.beginFails then f1 else f1 - {"img/"};
    if Consistent(old(b.table), old(b.files)) && NewPaths(it, env) !! old(b.files) {
      WrittenOutcomeConsistent(old(b.table), old(b.files), b.table, b.files, err, id, name, it, env);
    }
  }

  /**
   * The transaction of Mod as written, once the new image newImg is
   * written and the compensation path newPath recorded. The SELECT of the
   * old image numbers its placeholder after the SET list, so it always
   * fails and the transaction ends there, running rmImg.
   */
  method ModTxAsWritten(b: Backend, id: int, name: string, it: Item, newImg: string, newPath: string, env: Env)
    returns (err: Option<StoreError>)
    requires b.Valid()
    requires it.imgName.None? ==> newPath == ""
    modifies b
    ensures b.Valid()
    ensures it.imgName.None? ==>
              b.files == old(b.files) && UpdateOutcome(old(b.table), b.table, err, id, name, it, newImg, env)
    ensures it.imgName.Some? ==> err.Some? && b.table == old(b.table)
    ensures it.imgName.Some? ==>
              b.files == if env.beginFails || newPath == "" then old(b.files) else old(b.files) - {newPath}
  {
    var img := "";
    // newArg appends "fld = $k" with k one past the last clause, and its argument.
    var sets, args := Clauses(ModPairs(it, newImg)), Values(ModPairs(it, newImg));
    var where: Clause;
    var whereArg: Value;
    if id >= 0 {
      where, whereArg := Clause("id", |sets| + 1), Int(id);
    } else {
      where, whereArg := Clause("name", |sets| + 1), Str(name);
    }
    args := args + [whereArg];
    assert where == ModWhere(id, name, it, newImg) && whereArg == Target(id, name).1;
    assert UpdateStmt(sets, where, args) == ModStmt(id, name, it, newImg);

    if env.beginFails {
      return Some(Db(Transient));
    }
    var staged := b.table;
    if it.imgName.Some? {
      ModSelectRejected(staged, id, name, it, newImg);
      var q := if env.queryFails then Err(Transient) else SelectImgs(staged, [where], [whereArg]);
      var scanned := ScanString(q);
      var scanErr := scanned.1;
      img := scanned.0;
      if scanErr.Some? {
        RmImg(b, newPath);
        return Some(Db(scanErr.value));
      }
    }
    var u := if env.execFails then Err(Transient) else Run(staged, UpdateStmt(sets, where, args), env.nextId);
    if u.Err? {
      RmImg(b, newPath);
      return Some(Db(u.error));
    }
    b.Commit(u.value, env.commitFails);
    RemoveNamed(b, img);
    return None;
  }

  /**
   * Every outcome of Mod as written keeps consistency when the new image
   * name is fresh: without an image change it is an UPDATE's outcome; with
   * one the table is unchanged and the files lie between the old files and
   * the old files plus the new image.
   */
  lemma WrittenOutcomeConsistent(t0: seq<Row>, f0: set<string>, t: seq<Row>, f: set<string>, err: Option<StoreError>,
                                 id: int, name: string, it: Item, env: Env)
    requires Keyed(t0) && Consistent(t0, f0) && NewPaths(it, env) !! f0
    requires it.imgName.None? ==> f == f0 && UpdateOutcome(t0, t, err, id, name, it, "", env)
    requires it.imgName.Some? ==> t == t0 && f0 - NewPaths(it, env) <= f <= f0 + NewPaths(it, env)
    ensures Consistent(t, f)
  {
    if it.imgName.None? {
      ModRuns(t0, id, name, it, "", env.nextId);
      ModKeepsConsistent(t0, f0, id, name, it, "");
    } else {
      assert Paths.ImgPath("") !in NewPaths(it, env);
    }
  }

  // ------------------------------------------------ Mod, as evidently intended

  /** The image files Mod writes: the new image, when one is given (an empty name clears instead). */
  function NewPaths(it: Item, env: Env): set<string>
  {
    if it.imgName.Some? && it.imgName.value != "" then {NewPath(it, env)} else {}
  }

  /** The generated name of Mod's new image ("" when none is written). */
  function NewImage(it: Item, env: Env): string
  {
    if it.imgName.Some? && it.imgName.value != "" then GeneratedName(env.stamp, it.imgName.value) else ""
  }

  /** The image directory after a committed Mod that changes or clears the image: the new file added, the old one removed. */
  function FilesAfter(t: seq<Row>, f: set<string>, id: int, name: string, it: Item, newImg: string): set<string>
  {
    if it.imgName.None? then f
    else
      var added := if it.imgName.value != "" then {Paths.ImgPath(newImg)} else {};
      (f + added) - PathSet(PriorImage(t, id, name))
  }

  /**
   * The outcome of the corrected Mod when the image is changed or cleared.
   * A failed copy leaves only copyImg's effect; a failed begin leaves the
   * new file behind; a failed query or UPDATE removes it again; a
   * successful UPDATE commits and removes the old image.
   */
  ghost predicate ImageOutcome(t0: seq<Row>, f0: set<string>, t: seq<Row>, f: set<string>, err: Option<StoreError>,
                               id: int, name: string, it: Item, env: Env)
    requires it.imgName.Some?
  {
    var u := if env.execFails then Err(Transient) else Run(t0, ModStmt(id, name, it, NewImage(it, env)), env.nextId);
    if it.imgName.value != "" && env.copy != Copied then
      err == Some(CopyFailed) && t == t0 && f == CopyEffect(f0, NewPath(it, env), env.copy)
    else if env.beginFails then err == Some(Db(Transient)) && t == t0 && f == f0 + NewPaths(it, env)
    else if env.queryFails then err == Some(Db(Transient)) && t == t0 && f == f0 - NewPaths(it, env)
    else if u.Err? then err == Some(Db(u.error)) && t == t0 && f == f0 - NewPaths(it, env)
    else
      err == None && t == (if env.commitFails then t0 else u.value) &&
      f == FilesAfter(t0, f0, id, name, it, NewImage(it, env))
  }

  /**
   * In a keyed table the rows are pairwise different, so two different
   * positions never share an image in a consistent state.
   */
  lemma DistinctImages(t: seq<Row>, f: set<string>, i: nat, j: nat)
    requires Keyed(t) && Consistent(t, f) && i < |t| && j < |t| && i != j && t[i].img.Some?
    ensures t[i].img != t[j].img
  {
    assert t[i] != t[j] by {
      if i < j { assert t[i].id != t[j].id; } else { assert t[j].id != t[i].id; }
    }
  }

  /** Only the addressed position changes. */
  lemma ModifiedAt(t: seq<Row>, id: int, name: string, it: Item, newImg: string, k: nat)
    requires Keyed(t) && k < |t| && Addresses(t[k], id, name)
    ensures forall i :: 0 <= i < |t| && i != k ==> Modified(t, id, name, it, newImg)[i] == t[i]
    ensures Modified(t, id, name, it, newImg)[k] == Changed(t[k], it, newImg)
  {
    forall i | 0 <= i < |t| && i != k ensures !Addresses(t[i], id, name) {
      if i < k { assert t[i].id != t[k].id && t[i].name != t[k].name; }
      else { assert t[k].id != t[i].id && t[k].name != t[i].name; }
    }
  }

  /**
   * The saga's promise: a committed Mod, with the new image under a fresh
   * name, leaves every row's image in place and no two rows sharing one.
   */
  lemma ModKeepsConsistent(t: seq<Row>, f: set<string>, id: int, name: string, it: Item, newImg: string)
    requires Keyed(t) && Consistent(t, f)
    requires it.imgName.Some? && it.imgName.value != "" ==> Paths.ImgPath(newImg) !in f && newImg != ""
    ensures Consistent(Modified(t, id, name, it, newImg), FilesAfter(t, f, id, name, it, newImg))
  {
    var t' := Modified(t, id, name, it, newImg);
    var f' := FilesAfter(t, f, id, name, it, newImg);
    if forall k :: 0 <= k < |t| ==> !Addresses(t[k], id, name) {
      SelectedNone(t, id, name);
      assert t' == t;
      assert f <= f';
    } else {
      var k :| 0 <= k < |t| && Addresses(t[k], id, name);
      ModKeepsFiles(t, f, id, name, it, newImg, k);
      ModKeepsDistinct(t, f, id, name, it, newImg, k);
    }
  }

  /** When row k is the addressed one and the new image is fresh, every image the modified table references exists afterwards. */
  lemma ModKeepsFiles(t: seq<Row>, f: set<string>, id: int, name: string, it: Item, newImg: string, k: nat)
    requires Keyed(t) && Consistent(t, f) && k < |t| && Addresses(t[k], id, name)
    requires it.imgName.Some? && it.imgName.value != "" ==> Paths.ImgPath(newImg) !in f
    ensures var t' := Modified(t, id, name, it, newImg);
            forall i :: 0 <= i < |t'| && t'[i].img.Some? ==> Paths.ImgPath(t'[i].img.value) in FilesAfter(t, f, id, name, it, newImg)
  {
    var t' := Modified(t, id, name, it, newImg);
    var f' := FilesAfter(t, f, id, name, it, newImg);
    SelectedUnique(t, id, name, k);
    ModifiedAt(t, id, name, it, newImg, k);
    assert PriorImage(t, id, name) == t[k].img;
    forall i | 0 <= i < |t'| && t'[i].img.Some? ensures Paths.ImgPath(t'[i].img.value) in f' {
      if i != k {
        assert t[i] in t;
        if t[k].img.Some? {
          DistinctImages(t, f, k, i);
          Paths.ImgPathInjective(t[i].img.value, t[k].img.value);
        }
      } else if it.imgName.None? {
        assert t[k] in t;
      } else if t[k].img.Some? {
        assert t[k] in t;
        assert Paths.ImgPath(t[k].img.value) in f;
      }
    }
  }

  /** When row k is the addressed one and the new image is fresh, no two rows of the modified table share an image. */
  lemma ModKeepsDistinct(t: seq<Row>, f: set<string>, id: int, name: string, it: Item, newImg: string, k: nat)
    requires Keyed(t) && Consistent(t, f) && k < |t| && Addresses(t[k], id, name)
    requires it.imgName.Some? && it.imgName.value != "" ==> Paths.ImgPath(newImg) !in f
    ensures var t' := Modified(t, id, name, it, newImg);
            forall i, j :: 0 <= i < |t'| && 0 <= j < |t'| && i != j && t'[i].img.Some? ==> t'[i].img != t'[j].img
  {
    var t' := Modified(t, id, name, it, newImg);
    ModifiedAt(t, id, name, it, newImg, k);
    forall i, j | 0 <= i < |t'| && 0 <= j < |t'| && i != j && t'[i].img.Some? ensures t'[i].img != t'[j].img {
      if i != k && j != k {
        DistinctImages(t, f, i, j);
      } else if i == k {
        if it.imgName.None? {
          DistinctImages(t, f, k, j);
        } else if t[j].img.Some? {
          assert t[j] in t;
          assert Paths.ImgPath(t[j].img.value) in f;
        }
      } else {
        if it.imgName.None? || t[k].img.None? {
          if t[k].img.Some? {
            DistinctImages(t, f, k, i);
          }
        } else {
          assert t[i] in t;
          assert Paths.ImgPath(t[i].img.value) in f;
        }
      }
    }
  }

  /** The UPDATE inside Mod's transaction, given the oracles. */
  function ModRun(t: seq<Row>, id: int, name: string, it: Item, newImg: string, env: Env): Result<seq<Row>, DbError>
  {
    if env.execFails then Err(Transient) else Run(t, ModStmt(id, name, it, newImg), env.nextId)
  }

  /**
   * The transaction of the corrected Mod, once the new image newImg ("" for
   * none) is written and its compensation path newPath ("" for none) is
   * recorded: begin, read the old image when the image changes, UPDATE,
   * commit, remove the old image. A failure after begin removes newPath.
   */
  method ModTx(b: Backend, id: int, name: string, it: Item, newImg: string, newPath: string, env: Env)
    returns (err: Option<StoreError>)
    requires b.Valid()
    modifies b
    ensures b.Valid()
    ensures env.beginFails ==> err == Some(Db(Transient)) && b.table == old(b.table) && b.files == old(b.files)
    ensures !env.beginFails && it.imgName.Some? && env.queryFails ==>
              err == Some(Db(Transient)) && b.table == old(b.table) &&
              b.files == old(b.files) - (if newPath != "" then {newPath} else {})
    ensures !env.beginFails && (it.imgName.None? || !env.queryFails) &&
            ModRun(old(b.table), id, name, it, newImg, env).Err? ==>
              err == Some(Db(ModRun(old(b.table), id, name, it, newImg, env).error)) && b.table == old(b.table) &&
              b.files == old(b.files) - (if newPath != "" then {newPath} else {})
    ensures !env.beginFails && (it.imgName.None? || !env.queryFails) &&
            ModRun(old(b.table), id, name, it, newImg, env).Ok? ==>
              err == None &&
              b.table == (if env.commitFails then old(b.table) else ModRun(old(b.table), id, name, it, newImg, env).value) &&
              b.files == old(b.files) - (if it.imgName.Some? then PathSet(PriorImage(old(b.table), id, name)) else {})
  {
    var sets, args := Clauses(ModPairs(it, newImg)), Values(ModPairs(it, newImg));
    var where: Clause;
    var whereArg: Value;
    if id >= 0 {
      where, whereArg := Clause("id", |sets| + 1), Int(id);
    } else {
      where, whereArg := Clause("name", |sets| + 1), Str(name);
    }
    args := args + [whereArg];
    assert UpdateStmt(sets, where, args) == ModStmt(id, name, it, newImg);
    if env.beginFails {
      return Some(Db(Transient));
    }
    var staged := b.table;
    var img: Option<string> := None;
    if it.imgName.Some? {
      var q := if env.queryFails then Err(Transient) else SelectImgs(staged, [Clause(where.col, 1)], [whereArg]);
      ScanNullablePrior(staged, id, name);
      var scanned := ScanNullable(q);
      if scanned.Err? {
        RmImg(b, newPath);
        return Some(Db(scanned.error));
      }
      img := scanned.value;
    }
    var u := if env.execFails then Err(Transient) else Run(staged, UpdateStmt(sets, where, args), env.nextId);
    if u.Err? {
      RmImg(b, newPath);
      return Some(Db(u.error));
    }
    b.Commit(u.value, env.commitFails);
    if img.Some? {
      b.Remove(Paths.ImgPath(img.value));
    }
    return None;
  }

  /**
   * Mod as evidently intended: the old image is selected with the WHERE
   * argument as $1, a NULL old image reads as no image, and the
   * compensation removes the new image rather than "img/". Everything else
   * is as in Mod, including the ignored commit result.
   */
  method ModIntended(b: Backend, id: int, name: string, it: Item, env: Env) returns (err: Option<StoreError>)
    requires b.Valid()
    requires it.imgName.Some? && it.imgName.value != "" ==> it.hasReader
    modifies b
    ensures b.Valid()
    ensures it.imgName.None? ==>
              b.files == old(b.files) && UpdateOutcome(old(b.table), b.table, err, id, name, it, "", env)
    ensures it.imgName.Some? ==> ImageOutcome(old(b.table), old(b.files), b.table, b.files, err, id, name, it, env)
    ensures Consistent(old(b.table), old(b.files)) && NewPaths(it, env) !! old(b.files) && !env.commitFails ==>
              Consistent(b.table, b.files)
  {
    var newImg, newImgPath := "", "";
    // As in Mod, the copy is made before the in-memory SET list is built.
    if it.imgName.Some? && it.imgName.value != "" {
      var ok;
      newImg, ok := b.CopyImg(it.imgName.value, env.stamp, env.copy);
      if !ok {
        err := Some(CopyFailed);
        assert ImageOutcome(old(b.table), old(b.files), b.table, b.files, err, id, name, it, env);
        if Consistent(old(b.table), old(b.files)) && NewPaths(it, env) !! old(b.files) && !env.commitFails {
          OutcomeConsistent(old(b.table), old(b.files), b.table, b.files, err, id, name, it, env);
        }
        return;
      }
      newImgPath := Paths.ImgPath(newImg);
    }
    assert newImg == NewImage(it, env);
    assert (if newImgPath != "" then {newImgPath} else {}) == NewPaths(it, env);
    ghost var t0, f1 := b.table, b.files;
    assert f1 == old(b.files) + NewPaths(it, env);
    err := ModTx(b, id, name, it, newImg, newImgPath, env);
    TxOutcome(t0, old(b.files), f1, b.table, b.files, err, id, name, it, newImg, newImgPath, env);
    if Consistent(t0, old(b.files)) && NewPaths(it, env) !! old(b.files) && !env.commitFails {
      OutcomeConsistent(t0, old(b.files), b.table, b.files, err, id, name, it, env);
    }
  }

  /** What ModTx's outcome on the copied files f1 means for the corrected Mod as a whole, which started from f0. */
  lemma TxOutcome(t0: seq<Row>, f0: set<string>, f1: set<string>, t: seq<Row>, f: set<string>, err: Option<StoreError>,
                  id: int, name: string, it: Item, newImg: string, newPath: string, env: Env)
    requires !(it.imgName.Some? && it.imgName.value != "" && env.copy != Copied)
    requires newImg == NewImage(it, env) && (if newPath != "" then {newPath} else {}) == NewPaths(it, env)
    requires f1 == f0 + NewPaths(it, env)
    requires env.beginFails ==> err == Some(Db(Transient)) && t == t0 && f == f1
    requires !env.beginFails && it.imgName.Some? && env.queryFails ==>
               err == Some(Db(Transient)) && t == t0 && f == f1 - (if newPath != "" then {newPath} else {})
    requires !env.beginFails && (it.imgName.None? || !env.queryFails) && ModRun(t0, id, name, it, newImg, env).Err? ==>
               err == Some(Db(ModRun(t0, id, name, it, newImg, env).error)) && t == t0 &&
               f == f1 - (if newPath != "" then {newPath} else {})
    requires !env.beginFails && (it.imgName.None? || !env.queryFails) && ModRun(t0, id, name, it, newImg, env).Ok? ==>
               err == None && t == (if env.commitFails then t0 else ModRun(t0, id, name, it, newImg, env).value) &&
               f == f1 - (if it.imgName.Some? then PathSet(PriorImage(t0, id, name)) else {})
    ensures it.imgName.None? ==> f == f0 && UpdateOutcome(t0, t, err, id, name, it, "", env)
    ensures it.imgName.Some? ==> ImageOutcome(t0, f0, t, f, err, id, name, it, env)
  {
    assert it.imgName.None? ==> newImg == "" && NewPaths(it, env) == {};
  }

  /** Every outcome of the corrected Mod keeps consistency, for a fresh image name and a commit that succeeds. */
  lemma OutcomeConsistent(t0: seq<Row>, f0: set<string>, t: seq<Row>, f: set<string>, err: Option<StoreError>,
                          id: int, name: string, it: Item, env: Env)
    requires Keyed(t0) && Consistent(t0, f0) && NewPaths(it, env) !! f0 && !env.commitFails
    requires it.imgName.None? ==> f == f0 && UpdateOutcome(t0, t, err, id, name, it, "", env)
    requires it.imgName.Some? ==> ImageOutcome(t0, f0, t, f, err, id, name, it, env)
    ensures Consistent(t, f)
  {
    var newImg := NewImage(it, env);
    ModRuns(t0, id, name, it, newImg, env.nextId);
    ModKeepsConsistent(t0, f0, id, name, it, newImg);
  }
}
