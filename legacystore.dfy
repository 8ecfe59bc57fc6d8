/**
 * The older record store of util/util.go: ItemAdd, ItemMod and ItemDel.
 * They follow the same pattern as item/util (write the image file first,
 * then run SQL, and remove the new file when the SQL fails). The
 * differences: an item is addressed by a single text key, ItemAdd and
 * ItemMod run their statement without a transaction, ItemMod does nothing
 * when nothing changes, and ItemMod never removes the image it replaces.
 */
module LegacyStore {
  import opened Wrappers
  import opened Sql
  import opened Storage
  import Paths
  import Strconv
  import ItemStore

  /** util.Item: a nil Name, Descr or Price is None; `file` says whether Img.File is set. */
  datatype Item = Item(name: Option<string>, descr: Option<string>, price: Option<int>, imgName: string, file: bool)

  datatype LegacyError =
    | KeyOutOfRange     // the key is a number outside the int range
    | CopyFailed        // creating or writing the image file failed
    | Db(e: DbError)

  /** How a key addresses a row: by id or by name. */
  datatype Key = IdKey(id: int) | NameKey(name: string)

  /** The WHERE column and argument of a key. */
  function KeyArg(k: Key): (string, Value)
  {
    match k
    case IdKey(id) => ("id", Int(id))
    case NameKey(n) => ("name", Str(n))
  }

  predicate Picks(r: Row, k: Key)
  {
    match k
    case IdKey(id) => r.id == id
    case NameKey(n) => r.name == n
  }

  /**
   * The key of ItemMod and ItemDel: a number is an id, any other text a
   * name, and a number out of range an error. With `useName` the text is
   * always a name.
   */
  function ParseKey(item: string, useName: bool): (r: Result<Key, Strconv.NumError>)
    ensures useName ==> r == Ok(NameKey(item))
    ensures r.Ok? && r.value.IdKey? ==> Strconv.Atoi(item) == Ok(r.value.id)
    ensures r.Ok? && r.value.NameKey? ==> r.value.name == item && (useName || Strconv.Atoi(item) == Err(Strconv.ErrSyntax))
    ensures r.Err? <==> !useName && Strconv.Atoi(item) == Err(Strconv.ErrRange)
  {
    if useName then Ok(NameKey(item))
    else
      match Strconv.Atoi(item)
      case Ok(id) => Ok(IdKey(id))
      case Err(e) => if e.ErrSyntax? then Ok(NameKey(item)) else Err(e)
  }

  /** The decimal text of any id addresses that id, unless names are forced. */
  lemma ParseKeyItoa(n: Strconv.Int)
    ensures ParseKey(Strconv.Itoa(n), false) == Ok(IdKey(n))
  {
    Strconv.AtoiItoa(n);
  }

  /** "fld = $n" with the key's argument in place n holds of exactly the rows the key picks. */
  lemma HoldsPicks(r: Row, k: Key, args: seq<Value>)
    requires |args| >= 1 && args[|args| - 1] == KeyArg(k).1
    ensures Holds(r, Clause(KeyArg(k).0, |args|), args) <==> Picks(r, k)
  {
  }

  /** A key picks at most one row of a keyed table. */
  lemma PicksOne(t: seq<Row>, k: Key, i: nat, j: nat)
    requires Keyed(t) && i < |t| && j < |t| && i != j
    ensures !(Picks(t[i], k) && Picks(t[j], k))
  {
    if i < j {
      assert t[i].id != t[j].id && t[i].name != t[j].name;
    } else {
      assert t[j].id != t[i].id && t[j].name != t[i].name;
    }
  }

  // ---------------------------------------------------------------- ItemAdd

  /** ItemAdd inserts what item/util's Add inserts for an item with no id. */
  function AsStoreItem(i: Item): ItemStore.Item
  {
    ItemStore.Item(None, i.name, i.descr, i.price, if i.file then Some(i.imgName) else None, i.file)
  }

  /** The image ItemAdd and ItemMod store: a generated name when a file is given. */
  function StoredImage(i: Item, env: Env): Option<string>
  {
    if i.file then Some(GeneratedName(env.stamp, i.imgName)) else None
  }

  /** The path a given file is written to. */
  function NewPath(i: Item, env: Env): string
  {
    Paths.ImgPath(GeneratedName(env.stamp, i.imgName))
  }

  /** ItemAdd's INSERT: the statement item/util's Add builds for the same fields and no id. */
  function AddStmt(i: Item, env: Env): Stmt
  {
    ItemStore.AddStmt(AsStoreItem(i), StoredImage(i, env))
  }

  /**
   * What ItemAdd's INSERT does with a name and a price given: a clashing
   * id or name violates uniqueness, and otherwise exactly one row is added
   * holding the given fields, the stored image and the next id.
   */
  lemma AddInserts(t: seq<Row>, i: Item, env: Env)
    requires i.name.Some? && i.price.Some?
    ensures var row := Row(env.nextId, i.name.value, i.descr, i.price.value, StoredImage(i, env));
            Run(t, AddStmt(i, env), env.nextId) ==
            if exists x :: x in t && (x.id == row.id || x.name == row.name) then Err(UniqueViolation)
            else Ok(t + [row])
  {
    ItemStore.AddInserts(t, AsStoreItem(i), StoredImage(i, env), env.nextId);
  }

  /**
   * ItemAdd: write the image (when a file is given), then INSERT name,
   * price, img and descr, the last two only when present. The name and
   * price pointers are dereferenced, so they must be set. A failed write
   * issues no INSERT; a failed INSERT removes the image written.
   */
  method ItemAdd(b: Backend, i: Item, env: Env) returns (err: Option<LegacyError>)
    requires b.Valid()
    requires i.name.Some? && i.price.Some?
    modifies b
    ensures b.Valid()
    ensures i.file && env.copy != Copied ==>
              err == Some(CopyFailed) && b.table == old(b.table) &&
              b.files == CopyEffect(old(b.files), NewPath(i, env), env.copy)
    ensures !i.file || env.copy == Copied ==>
              var r := if env.execFails then Err(Transient) else Run(old(b.table), AddStmt(i, env), env.nextId);
              (r.Ok? ==> err == None && b.table == r.value && b.files == old(b.files) + ItemStore.PathSet(StoredImage(i, env))) &&
              (r.Err? ==> err == Some(Db(r.error)) && b.table == old(b.table) && b.files == old(b.files) - ItemStore.PathSet(StoredImage(i, env)))
    ensures Consistent(old(b.table), old(b.files)) && ItemStore.PathSet(StoredImage(i, env)) !! old(b.files) ==>
              Consistent(b.table, b.files)
  {
    var img, imgPath := "", "";
    // The column lists are built in memory only, so building them after
    // the copy has the same effects as appending the img column inside it.
    if i.file {
      var ok;
      img, ok := b.CopyImg(i.imgName, env.stamp, env.copy);
      if !ok {
        return Some(CopyFailed);
      }
      imgPath := Paths.ImgPath(img);
    }
    ghost var stored := StoredImage(i, env);
    assert (if i.file then Some(img) else None) == stored;
    // ItemAdd grows the same column, placeholder and argument lists as
    // item/util's Add: name and price, then img and descr when given.
    var cols, vals, args := ItemStore.AddLists(AsStoreItem(i), if i.file then Some(img) else None);
    ghost var t0 := b.table;
    assert i.file ==> imgPath == Paths.ImgPath(stored.value) && img != "";
    assert stored != Some("");
    err := ExecOrRemove(b, InsertStmt(cols, vals, args), img, imgPath, env);
    if Consistent(t0, old(b.files)) && ItemStore.PathSet(stored) !! old(b.files) {
      ItemStore.AddPreservesConsistency(t0, old(b.files), AsStoreItem(i), stored, env.nextId, env.execFails);
    }
  }

  /**
   * db.Exec of an autocommitted statement; when it fails, the image
   * written for it (if any) is removed and the error returned.
   */
  method ExecOrRemove(b: Backend, s: Stmt, img: string, imgPath: string, env: Env) returns (err: Option<LegacyError>)
    requires b.Valid()
    modifies b
    ensures b.Valid()
    ensures var r := if env.execFails then Err(Transient) else Run(old(b.table), s, env.nextId);
            (r.Ok? ==> err == None && b.table == r.value && b.files == old(b.files)) &&
            (r.Err? ==> err == Some(Db(r.error)) && b.table == old(b.table) &&
                        b.files == if img != "" then old(b.files) - {imgPath} else old(b.files))
  {
    var e := b.Exec(s, env.nextId, env.execFails);
    if e.Some? {
      if img != "" {
        b.Remove(imgPath);
      }
      return Some(Db(e.value));
    }
    return None;
  }

  // ---------------------------------------------------------------- ItemMod

  function ImgPart(i: Item, img: string): seq<(string, Value)>
  {
    if i.file then [("img", Str(img))] else []
  }

  function NamePart(i: Item): seq<(string, Value)>
  {
    if i.name.Some? then [("name", Str(i.name.value))] else []
  }

  function DescrPart(i: Item): seq<(string, Value)>
  {
    if i.descr.Some? then [("descr", Str(i.descr.value))] else []
  }

  function PricePart(i: Item): seq<(string, Value)>
  {
    if i.price.Some? then [("price", Int(i.price.value))] else []
  }

  /** ItemMod's SET list: img, name, descr, price, each only when given; an empty descr is stored as "". */
  function ModPairs(i: Item, img: string): seq<(string, Value)>
  {
    ImgPart(i, img) + NamePart(i) + DescrPart(i) + PricePart(i)
  }

  /** Whether ItemMod has nothing to change (and so runs no statement). */
  predicate NoChange(i: Item)
  {
    !i.file && i.name.None? && i.descr.None? && i.price.None?
  }

  /** "UPDATE items SET ... WHERE <fld> = $n+1" for n SET clauses. */
  function ModStmt(k: Key, i: Item, img: string): Stmt
  {
    var ps := ModPairs(i, img);
    UpdateStmt(Clauses(ps), Clause(KeyArg(k).0, |ps| + 1), Values(ps) + [KeyArg(k).1])
  }

  /** A row after ItemMod's changes: each given field replaced, the id kept. */
  function Changed(r: Row, i: Item, img: string): Row
  {
    Row(r.id,
        i.name.GetOr(r.name),
        if i.descr.Some? then i.descr else r.descr,
        i.price.GetOr(r.price),
        if i.file then Some(img) else r.img)
  }

  /** The table with every picked row changed and every other row as it was. */
  function Modified(t: seq<Row>, k: Key, i: Item, img: string): (t': seq<Row>)
    ensures |t'| == |t|
  {
    seq(|t|, j requires 0 <= j < |t| => if Picks(t[j], k) then Changed(t[j], i, img) else t[j])
  }

  function ModRank(c: string): int
  {
    match c
    case "img" => 0
    case "name" => 1
    case "descr" => 2
    case _ => 3
  }

  lemma ModPairsNested(i: Item, img: string)
    ensures ModPairs(i, img) == ImgPart(i, img) + (NamePart(i) + (DescrPart(i) + PricePart(i)))
  {
    var a, b, c, d := ImgPart(i, img), NamePart(i), DescrPart(i), PricePart(i);
    assert a + b + c + d == (a + b) + (c + d);
    assert (a + b) + (c + d) == a + (b + (c + d));
  }

  /** The SET list names each column at most once, in the order img, name, descr, price. */
  lemma ModRanked(i: Item, img: string)
    ensures Distinct(Cols(Clauses(ModPairs(i, img))))
  {
    var d := PricePart(i);
    assert Ranked(d, ModRank) && RanksAbove(d, ModRank, 2);
    RankedCons(DescrPart(i), d, "descr", ModRank);
    RankedCons(NamePart(i), DescrPart(i) + d, "name", ModRank);
    RankedCons(ImgPart(i, img), NamePart(i) + (DescrPart(i) + d), "img", ModRank);
    ModPairsNested(i, img);
    RankedDistinct(ModPairs(i, img), ModRank);
  }

  /** Assigning ItemMod's SET list never fails and yields the changed row. */
  lemma ModChanges(r: Row, i: Item, img: string)
    ensures AssignEach(r, ModPairs(i, img)) == Ok(Changed(r, i, img))
  {
    var a, b, c, d := ImgPart(i, img), NamePart(i), DescrPart(i), PricePart(i);
    var r1 := r.(img := if i.file then Some(img) else r.img);
    var r2 := r1.(name := i.name.GetOr(r.name));
    var r3 := r2.(descr := if i.descr.Some? then i.descr else r.descr);
    var r4 := r3.(price := i.price.GetOr(r.price));
    assert r4 == Changed(r, i, img);
    ModPairsNested(i, img);
    AssignEachAppend(r, a, b + (c + d));
    if i.file { AssignEachOne(r, "img", Str(img)); }
    AssignEachAppend(r1, b, c + d);
    if i.name.Some? { AssignEachOne(r1, "name", Str(i.name.value)); }
    AssignEachAppend(r2, c, d);
    if i.descr.Some? { AssignEachOne(r2, "descr", Str(i.descr.value)); }
    assert AssignEach(r3, d) == Ok(r4) by {
      if i.price.Some? { AssignEachOne(r3, "price", Int(i.price.value)); }
    }
  }

  /**
   * What ItemMod's UPDATE does when there is something to change: every
   * picked row is changed, unless that makes two rows share a name.
   */
  lemma ModRuns(t: seq<Row>, k: Key, i: Item, img: string, nextId: int)
    requires !NoChange(i)
    ensures Run(t, ModStmt(k, i, img), nextId) ==
            if Keyed(Modified(t, k, i, img)) then Ok(Modified(t, k, i, img)) else Err(UniqueViolation)
  {
    var ps := ModPairs(i, img);
    var sets, where, args := Clauses(ps), Clause(KeyArg(k).0, |ps| + 1), Values(ps) + [KeyArg(k).1];
    assert ps != [];
    ClausesBind(ps);
    ModRanked(i, img);
    var f := (r: Row) => Changed(r, i, img);
    forall r | Holds(r, where, args) ensures AssignAll(r, Cols(sets), Phs(sets), args) == Ok(f(r)) {
      ClausesAssign(ps, KeyArg(k).1, r);
      ModChanges(r, i, img);
    }
    UpdateRowsApply(t, sets, where, args, f);
    forall j | 0 <= j < |t| ensures Holds(t[j], where, args) <==> Picks(t[j], k) {
      HoldsPicks(t[j], k, args);
    }
    assert seq(|t|, j requires 0 <= j < |t| => if Holds(t[j], where, args) then f(t[j]) else t[j])
        == Modified(t, k, i, img);
  }

  /**
   * ItemMod keeps rows and images consistent when the new image's name is
   * fresh. The image it replaces stays on disk, which the rule allows.
   */
  lemma ModKeepsConsistent(t: seq<Row>, f: set<string>, k: Key, i: Item, img: string)
    requires Keyed(t) && Consistent(t, f)
    requires i.file ==> Paths.ImgPath(img) !in f && img != ""
    ensures Consistent(Modified(t, k, i, img), f + (if i.file then {Paths.ImgPath(img)} else {}))
  {
    var t' := Modified(t, k, i, img);
    var f' := f + (if i.file then {Paths.ImgPath(img)} else {});
    forall j | 0 <= j < |t'| && t'[j].img.Some? ensures Paths.ImgPath(t'[j].img.value) in f' {
      assert t[j] in t;
    }
    forall x, y | 0 <= x < |t'| && 0 <= y < |t'| && x != y && t'[x].img.Some? ensures t'[x].img != t'[y].img {
      assert t[x] in t && t[y] in t;
      assert t[x] != t[y] by {
        if x < y { assert t[x].id != t[y].id; } else { assert t[y].id != t[x].id; }
      }
      PicksOne(t, k, x, y);
      if i.file && Picks(t[x], k) && t[y].img.Some? {
        assert Paths.ImgPath(t[y].img.value) in f;
      } else if i.file && Picks(t[y], k) {
        assert Paths.ImgPath(t[x].img.value) in f;
      }
    }
  }

  /**
   * ItemMod's SET list and arguments: "img", "name", "descr", "price" when
   * given, each numbered one past the last clause.
   */
  method SetLists(i: Item, img: string) returns (sets: seq<Clause>, args: seq<Value>)
    ensures sets == Clauses(ModPairs(i, img)) && args == Values(ModPairs(i, img))
  {
    sets, args := [], [];
    ghost var ps: seq<(string, Value)> := [];
    if i.file {
      ClausesStep(ps, sets, args, "img", Str(img));
      ps := ps + [("img", Str(img))];
      sets := sets + [Clause("img", |sets| + 1)];
      args := args + [Str(img)];
    }
    if i.name.Some? {
      ClausesStep(ps, sets, args, "name", Str(i.name.value));
      ps := ps + [("name", Str(i.name.value))];
      sets := sets + [Clause("name", |sets| + 1)];
      args := args + [Str(i.name.value)];
    }
    if i.descr.Some? {
      ClausesStep(ps, sets, args, "descr", Str(i.descr.value));
      ps := ps + [("descr", Str(i.descr.value))];
      sets := sets + [Clause("descr", |sets| + 1)];
      args := args + [Str(i.descr.value)];
    }
    if i.price.Some? {
      ClausesStep(ps, sets, args, "price", Int(i.price.value));
      ps := ps + [("price", Int(i.price.value))];
      sets := sets + [Clause("price", |sets| + 1)];
      args := args + [Int(i.price.value)];
    }
    assert ps == ModPairs(i, img);
  }

  /**
   * ItemMod: parse the key, write the new image (when a file is given),
   * build the SET list, and run the UPDATE at once, outside a transaction.
   * Nothing to change means success with no statement run. A failed UPDATE
   * removes the new image; the image it replaces is never removed.
   */
  method ItemMod(b: Backend, item: string, i: Item, env: Env) returns (err: Option<LegacyError>)
    requires b.Valid()
    modifies b
    ensures b.Valid()
    ensures ParseKey(item, false).Err? ==> err == Some(KeyOutOfRange) && b.table == old(b.table) && b.files == old(b.files)
    ensures ParseKey(item, false).Ok? ==> ModOutcome(old(b.table), old(b.files), b.table, b.files, err, ParseKey(item, false).value, i, env)
    ensures b.files - {NewPath(i, env)} == old(b.files) - {NewPath(i, env)}
    ensures Consistent(old(b.table), old(b.files)) && NewPath(i, env) !in old(b.files) ==> Consistent(b.table, b.files)
  {
    var key := ParseKey(item, false);
    if key.Err? {
      return Some(KeyOutOfRange);
    }
    err := ModByKey(b, key.value, i, env);
    ModOutcomeFrame(old(b.table), old(b.files), b.table, b.files, err, key.value, i, env);
    if Consistent(old(b.table), old(b.files)) && NewPath(i, env) !in old(b.files) {
      ModOutcomeConsistent(old(b.table), old(b.files), b.table, b.files, err, key.value, i, env);
    }
  }

  /**
   * ItemMod's outcome for a parsed key: a failed write changes no row; with
   * nothing to change no statement runs; otherwise the UPDATE's outcome,
   * with the new image kept on success and removed on failure.
   */
  ghost predicate ModOutcome(t0: seq<Row>, f0: set<string>, t: seq<Row>, f: set<string>, err: Option<LegacyError>, k: Key, i: Item, env: Env)
  {
    var img := if i.file then GeneratedName(env.stamp, i.imgName) else "";
    var u := if env.execFails then Err(Transient) else Run(t0, ModStmt(k, i, img), env.nextId);
    if i.file && env.copy != Copied then err == Some(CopyFailed) && t == t0 && f == CopyEffect(f0, NewPath(i, env), env.copy)
    else if NoChange(i) then err == None && t == t0 && f == f0
    else if u.Ok? then err == None && t == u.value && f == f0 + ItemStore.PathSet(StoredImage(i, env))
    else err == Some(Db(u.error)) && t == t0 && f == f0 - ItemStore.PathSet(StoredImage(i, env))
  }

  /** ItemMod once the key is parsed: write the new image, then update unless there is nothing to change. */
  method ModByKey(b: Backend, k: Key, i: Item, env: Env) returns (err: Option<LegacyError>)
    requires b.Valid()
    modifies b
    ensures b.Valid()
    ensures ModOutcome(old(b.table), old(b.files), b.table, b.files, err, k, i, env)
  {
    var img, imgPath := "", "";
    // The SET list is built in memory only, so building it after the copy
    // has the same effects as appending the img clause inside it.
    if i.file {
      var ok;
      img, ok := b.CopyImg(i.imgName, env.stamp, env.copy);
      if !ok {
        assert NewPath(i, env) !in old(b.files) ==> b.files == old(b.files);
        return Some(CopyFailed);
      }
      imgPath := Paths.ImgPath(img);
    }
    ghost var t0, f1 := b.table, b.files;
    assert i.file ==> img == GeneratedName(env.stamp, i.imgName) && imgPath == NewPath(i, env);
    assert i.file ==> f1 == old(b.files) + {imgPath} && ItemStore.PathSet(StoredImage(i, env)) == {imgPath};
    assert !i.file ==> img == "" && f1 == old(b.files);
    err := UpdateUnlessEmpty(b, k, i, img, imgPath, env);
  }

  /** Whatever ItemMod's outcome, no file other than the new image's changes. */
  lemma ModOutcomeFrame(t0: seq<Row>, f0: set<string>, t: seq<Row>, f: set<string>, err: Option<LegacyError>, k: Key, i: Item, env: Env)
    requires ModOutcome(t0, f0, t, f, err, k, i, env)
    ensures f - {NewPath(i, env)} == f0 - {NewPath(i, env)}
  {
    assert ItemStore.PathSet(StoredImage(i, env)) <= {NewPath(i, env)};
  }

  /** ItemMod keeps rows and images consistent when the new image's name is fresh. */
  lemma ModOutcomeConsistent(t0: seq<Row>, f0: set<string>, t: seq<Row>, f: set<string>, err: Option<LegacyError>, k: Key, i: Item, env: Env)
    requires Keyed(t0) && Consistent(t0, f0) && NewPath(i, env) !in f0
    requires ModOutcome(t0, f0, t, f, err, k, i, env)
    ensures Consistent(t, f)
  {
    var img := if i.file then GeneratedName(env.stamp, i.imgName) else "";
    assert ItemStore.PathSet(StoredImage(i, env)) == if i.file then {Paths.ImgPath(img)} else {};
    if i.file && env.copy != Copied {
      assert t == t0 && f == f0;
    } else if NoChange(i) {
      assert t == t0 && f == f0;
    } else {
      ModPreservesConsistency(t0, f0, k, i, img, env.nextId, env.execFails);
    }
  }

  /**
   * The rest of ItemMod once the new image (img, "" for none) is written at
   * imgPath: build the SET list and, unless it is empty, run the UPDATE,
   * removing the new image when it fails.
   */
  method UpdateUnlessEmpty(b: Backend, k: Key, i: Item, img: string, imgPath: string, env: Env) returns (err: Option<LegacyError>)
    requires b.Valid()
    modifies b
    ensures b.Valid()
    ensures NoChange(i) ==> err == None && b.table == old(b.table) && b.files == old(b.files)
    ensures !NoChange(i) ==>
              var u := if env.execFails then Err(Transient) else Run(old(b.table), ModStmt(k, i, img), env.nextId);
              (u.Ok? ==> err == None && b.table == u.value && b.files == old(b.files)) &&
              (u.Err? ==> err == Some(Db(u.error)) && b.table == old(b.table) &&
                          b.files == if img != "" then old(b.files) - {imgPath} else old(b.files))
  {
    var sets, args := SetLists(i, img);
    assert |sets| == 0 <==> NoChange(i);
    if |sets| == 0 {
      return None;
    }
    args := args + [KeyArg(k).1];
    assert UpdateStmt(sets, Clause(KeyArg(k).0, |sets| + 1), args) == ModStmt(k, i, img);
    err := ExecOrRemove(b, UpdateStmt(sets, Clause(KeyArg(k).0, |sets| + 1), args), img, imgPath, env);
  }

  /** ItemMod's UPDATE, whether it succeeds or fails, keeps rows and images consistent when the new image's name is fresh. */
  lemma ModPreservesConsistency(t: seq<Row>, f: set<string>, k: Key, i: Item, img: string, nextId: int, execFails: bool)
    requires Keyed(t) && Consistent(t, f) && !NoChange(i)
    requires i.file ==> Paths.ImgPath(img) !in f && img != ""
    ensures var added := if i.file then {Paths.ImgPath(img)} else {};
            var u := if execFails then Err(Transient) else Run(t, ModStmt(k, i, img), nextId);
            (u.Ok? ==> Consistent(u.value, f + added)) && (u.Err? ==> Consistent(t, f - added))
  {
    var added := if i.file then {Paths.ImgPath(img)} else {};
    assert f - added == f;
    if !execFails {
      ModRuns(t, k, i, img, nextId);
      ModKeepsConsistent(t, f, k, i, img);
    }
  }

  // ---------------------------------------------------------------- ItemDel

  /** The rows a key picks, in table order. */
  function KeyRows(t: seq<Row>, k: Key): (m: seq<Row>)
    ensures forall r :: r in m <==> r in t && Picks(r, k)
  {
    if t == [] then []
    else (if Picks(t[0], k) then [t[0]] else []) + KeyRows(t[1..], k)
  }

  /** The rows a key does not pick, in table order. */
  function OtherRows(t: seq<Row>, k: Key): (m: seq<Row>)
    ensures forall r :: r in m <==> r in t && !Picks(r, k)
  {
    if t == [] then []
    else (if Picks(t[0], k) then [] else [t[0]]) + OtherRows(t[1..], k)
  }

  /** The image of the picked row, if there is one and it has an image. */
  function KeyImage(t: seq<Row>, k: Key): Option<string>
  {
    var m := KeyRows(t, k);
    if m == [] then None else m[0].img
  }

  /** "... WHERE <fld> = $1" with the key's argument selects the picked rows, and leaves the others. */
  lemma {:induction false} KeyMatching(t: seq<Row>, k: Key)
    ensures Binds(Phs([Clause(KeyArg(k).0, 1)]), 1)
    ensures Matching(t, [Clause(KeyArg(k).0, 1)], [KeyArg(k).1]) == KeyRows(t, k)
    ensures NotMatching(t, [Clause(KeyArg(k).0, 1)], [KeyArg(k).1]) == OtherRows(t, k)
  {
    var c, args := [Clause(KeyArg(k).0, 1)], [KeyArg(k).1];
    assert Phs(c) == [1];
    if t != [] {
      KeyMatching(t[1..], k);
      assert HoldsAny(t[0], c, args) <==> Holds(t[0], c[0], args);
    }
  }

  /** ItemDel's SELECT reads the picked row's image (NULL and no row alike as none), and its DELETE leaves the other rows. */
  lemma DelStatements(t: seq<Row>, k: Key, nextId: int)
    ensures ItemStore.ScanNullable(SelectImgs(t, [Clause(KeyArg(k).0, 1)], [KeyArg(k).1])) == Ok(KeyImage(t, k))
    ensures Run(t, DeleteStmt([Clause(KeyArg(k).0, 1)], [KeyArg(k).1]), nextId) == Ok(OtherRows(t, k))
  {
    KeyMatching(t, k);
  }

  /**
   * Deleting the picked row and then its image keeps rows and images
   * consistent: no remaining row shares the deleted image.
   */
  lemma DelKeepsConsistent(t: seq<Row>, f: set<string>, k: Key)
    requires Consistent(t, f)
    ensures Consistent(OtherRows(t, k), f - ItemStore.PathSet(KeyImage(t, k)))
  {
    var m := KeyRows(t, k);
    if m != [] && m[0].img.Some? {
      assert m[0] in m;
      forall r | r in OtherRows(t, k) && r.img.Some? ensures Paths.ImgPath(r.img.value) != Paths.ImgPath(m[0].img.value) {
        assert r != m[0];
        Paths.ImgPathInjective(r.img.value, m[0].img.value);
      }
    }
  }

  /**
   * ItemDel: parse the key (or take it as a name), then in a transaction
   * read the picked row's image and DELETE it; commit, ignoring the
   * result, and remove the image last. Every error before the commit
   * leaves the table and the files as they were.
   */
  method ItemDel(b: Backend, item: string, useName: bool, env: Env) returns (err: Option<LegacyError>)
    requires b.Valid()
    modifies b
    ensures b.Valid()
    ensures ParseKey(item, useName).Err? ==> err == Some(KeyOutOfRange) && b.table == old(b.table) && b.files == old(b.files)
    ensures ParseKey(item, useName).Ok? && (env.beginFails || env.queryFails || env.execFails) ==>
              err == Some(Db(Transient)) && b.table == old(b.table) && b.files == old(b.files)
    ensures ParseKey(item, useName).Ok? && !(env.beginFails || env.queryFails || env.execFails) ==>
              var k := ParseKey(item, useName).value;
              err == None &&
              b.table == (if env.commitFails then old(b.table) else OtherRows(old(b.table), k)) &&
              b.files == old(b.files) - ItemStore.PathSet(KeyImage(old(b.table), k))
    ensures Consistent(old(b.table), old(b.files)) && !env.commitFails ==> Consistent(b.table, b.files)
  {
    var key := ParseKey(item, useName);
    if key.Err? {
      return Some(KeyOutOfRange);
    }
    var fld, arg := KeyArg(key.value).0, KeyArg(key.value).1;
    if env.beginFails {
      return Some(Db(Transient));
    }
    var staged := b.table;
    DelStatements(staged, key.value, env.nextId);
    var q := if env.queryFails then Err(Transient) else SelectImgs(staged, [Clause(fld, 1)], [arg]);
    var scanned := ItemStore.ScanNullable(q);
    if scanned.Err? {
      return Some(Db(scanned.error));
    }
    var img := scanned.value;
    var u := if env.execFails then Err(Transient) else Run(staged, DeleteStmt([Clause(fld, 1)], [arg]), env.nextId);
    if u.Err? {
      return Some(Db(u.error));
    }
    b.Commit(u.value, env.commitFails);
    if img.Some? {
      b.Remove(Paths.ImgPath(img.value));
    }
    if Consistent(old(b.table), old(b.files)) {
      DelKeepsConsistent(old(b.table), old(b.files), key.value);
    }
    return None;
  }
}
