/**
 * The admin handlers of serve/serve.go that edit the menu: itemAdd,
 * itemMod and itemDel. Each reads the posted form, answers 400 for a
 * malformed request and 500 when the item store fails, and 200 otherwise.
 * The uploaded image arrives already vetted by formGetFile: no file, a
 * file it refused with a status, or a file with its client-side name.
 */
module Admin {
  import opened Wrappers
  import opened Sql
  import opened Storage
  import Strconv
  import Prices
  import Paths
  import ItemStore

  const StatusOK: int := 200
  const StatusBadRequest: int := 400
  const StatusInternalServerError: int := 500

  /** r.FormValue: the posted value of a field, "" when it was not posted. */
  function FormValue(form: map<string, string>, k: string): (v: string)
    ensures k !in form ==> v == ""
  {
    if k in form then form[k] else ""
  }

  /** What formGetFile yields for the "image" field. */
  datatype Upload = NoFile | Refused(status: int) | File(filename: string)

  /** The errors the handlers return besides those of the item store. */
  datatype HandlerError = NoName | BadId | InvalidPrice | BadFile | Store(e: ItemStore.StoreError)

  /** The image part of the item: the file's name, with a reader for its contents. */
  function WithUpload(it: ItemStore.Item, up: Upload): ItemStore.Item
  {
    if up.File? then it.(imgName := Some(up.filename), hasReader := true) else it
  }

  /** A non-empty descr field sets the description; an empty one leaves it unset. */
  function DescrField(form: map<string, string>): (d: Option<string>)
    ensures d.None? <==> FormValue(form, "descr") == ""
    ensures d.Some? ==> d.value == FormValue(form, "descr")
  {
    var descr := FormValue(form, "descr");
    if descr != "" then Some(descr) else None
  }

  /**
   * The item itemAdd builds from the form, or the status and error it
   * answers with: an empty name and an invalid price are bad requests, a
   * refused upload answers with the upload's own status.
   */
  function AddRequest(form: map<string, string>, up: Upload): (r: Result<ItemStore.Item, (int, HandlerError)>)
    ensures r.Err? <==> FormValue(form, "name") == "" || up.Refused? || Prices.Set(0, FormValue(form, "price")).1.Some?
    ensures FormValue(form, "name") == "" ==> r == Err((StatusBadRequest, NoName))
    ensures FormValue(form, "name") != "" && up.Refused? ==> r == Err((up.status, BadFile))
    ensures FormValue(form, "name") != "" && !up.Refused? && Prices.Set(0, FormValue(form, "price")).1.Some? ==>
              r == Err((StatusBadRequest, InvalidPrice))
    ensures r.Ok? ==>
              r.value.id.None? && r.value.name == Some(FormValue(form, "name")) &&
              r.value.price == Some(Prices.Set(0, FormValue(form, "price")).0 as int) &&
              r.value.descr == DescrField(form) &&
              (r.value.hasReader <==> up.File?) && (up.File? ==> r.value.imgName == Some(up.filename)) &&
              (!up.File? ==> r.value.imgName.None?)
  {
    var name := FormValue(form, "name");
    if name == "" then Err((StatusBadRequest, NoName))
    else if up.Refused? then Err((up.status, BadFile))
    else
      var (price, perr) := Prices.Set(0, FormValue(form, "price"));
      if perr.Some? then Err((StatusBadRequest, InvalidPrice))
      else Ok(WithUpload(ItemStore.Item(None, Some(name), DescrField(form), Some(price as int), None, false), up))
  }

  /** A price field in the form String renders is taken as that price. */
  lemma AddRequestPrice(form: map<string, string>, up: Upload, n: Strconv.Int)
    requires FormValue(form, "name") != "" && !up.Refused? && n >= 0
    requires FormValue(form, "price") == Prices.String(n)
    ensures AddRequest(form, up).Ok? && AddRequest(form, up).value.price == Some(n as int)
  {
    Prices.SetString(n, 0);
  }

  /** The store's own error, when the handler's error is one. */
  function StoreError(err: Option<HandlerError>): Option<ItemStore.StoreError>
  {
    if err.Some? && err.value.Store? then Some(err.value.e) else None
  }

  /** The statement Add runs and its outcome, given the oracles. */
  function AddOutcome(t: seq<Row>, it: ItemStore.Item, env: Env): Result<seq<Row>, DbError>
    requires it.hasReader ==> it.imgName.Some?
  {
    if env.execFails then Err(Transient)
    else Run(t, ItemStore.AddStmt(it, ItemStore.AddedImage(it, env)), env.nextId)
  }

  /**
   * itemAdd: validate the form, then add the item. A malformed request
   * changes nothing; a store failure is a 500 with the store's outcome.
   */
  method ItemAdd(b: Backend, form: map<string, string>, up: Upload, env: Env) returns (status: int, err: Option<HandlerError>)
    requires b.Valid()
    modifies b
    ensures b.Valid()
    ensures AddRequest(form, up).Err? ==>
              (status, err) == (AddRequest(form, up).error.0, Some(AddRequest(form, up).error.1)) &&
              b.table == old(b.table) && b.files == old(b.files)
    ensures AddRequest(form, up).Ok? ==>
              var it := AddRequest(form, up).value;
              var img := ItemStore.AddedImage(it, env);
              (it.hasReader && env.copy != Copied ==>
                 status == StatusInternalServerError && err == Some(Store(ItemStore.CopyFailed)) && b.table == old(b.table) &&
                 b.files == CopyEffect(old(b.files), Paths.ImgPath(img.value), env.copy)) &&
              (!it.hasReader || env.copy == Copied ==>
                 var r := AddOutcome(old(b.table), it, env);
                 (r.Ok? ==> status == StatusOK && err == None && b.table == r.value &&
                            b.files == old(b.files) + ItemStore.PathSet(img)) &&
                 (r.Err? ==> status == StatusInternalServerError && err == Some(Store(ItemStore.Db(r.error))) &&
                             b.table == old(b.table) && b.files == old(b.files) - ItemStore.PathSet(img)))
    ensures AddRequest(form, up).Ok? && Consistent(old(b.table), old(b.files)) &&
            ItemStore.PathSet(ItemStore.AddedImage(AddRequest(form, up).value, env)) !! old(b.files) ==>
              Consistent(b.table, b.files)
  {
    var req := AddRequest(form, up);
    if req.Err? {
      return req.error.0, Some(req.error.1);
    }
    var serr := ItemStore.Add(b, req.value, env);
    if serr.Some? {
      return StatusInternalServerError, Some(Store(serr.value));
    }
    return StatusOK, None;
  }

  /**
   * The id and changes itemMod builds from the form: the id must be a Go
   * int; an empty name, descr or price field leaves that column alone; an
   * invalid non-empty price is a bad request.
   */
  function ModRequest(form: map<string, string>, up: Upload): (r: Result<(int, ItemStore.Item), (int, HandlerError)>)
    ensures Strconv.Atoi(FormValue(form, "id")).Err? ==> r == Err((StatusBadRequest, BadId))
    ensures Strconv.Atoi(FormValue(form, "id")).Ok? && up.Refused? ==> r == Err((up.status, BadFile))
    ensures Strconv.Atoi(FormValue(form, "id")).Ok? && !up.Refused? &&
            FormValue(form, "price") != "" && Prices.Set(0, FormValue(form, "price")).1.Some? ==>
              r == Err((StatusBadRequest, InvalidPrice))
    ensures r.Err? <==>
              Strconv.Atoi(FormValue(form, "id")).Err? || up.Refused? ||
              (FormValue(form, "price") != "" && Prices.Set(0, FormValue(form, "price")).1.Some?)
    ensures r.Ok? ==>
              var (id, it) := r.value;
              Strconv.Atoi(FormValue(form, "id")) == Ok(id) &&
              (it.name.None? <==> FormValue(form, "name") == "") &&
              (it.price.None? <==> FormValue(form, "price") == "") &&
              (it.price.Some? ==> it.price.value == Prices.Set(0, FormValue(form, "price")).0 as int) &&
              it.descr == DescrField(form) && it.id.None? &&
              (it.imgName.Some? <==> up.File?) && (it.hasReader <==> up.File?) &&
              (up.File? ==> it.imgName == Some(up.filename))
  {
    match Strconv.Atoi(FormValue(form, "id"))
    case Err(_) => Err((StatusBadRequest, BadId))
    case Ok(id) =>
      var nameField := FormValue(form, "name");
      var name := if nameField != "" then Some(nameField) else None;
      if up.Refused? then Err((up.status, BadFile))
      else
        var priceField := FormValue(form, "price");
        var (price, perr) := Prices.Set(0, priceField);
        if priceField != "" && perr.Some? then Err((StatusBadRequest, InvalidPrice))
        else
          var it := ItemStore.Item(None, name, DescrField(form), if priceField != "" then Some(price as int) else None, None, false);
          Ok((id as int, WithUpload(it, up)))
  }

  /**
   * itemMod: validate the form, then modify the item with that id through
   * the item store's Mod as written. Without an upload that is the UPDATE;
   * with one, Mod always fails after copying the file, so the handler
   * answers 500, the table is left as it was and the new file stays
   * behind: the compensation names the image directory "img/", which is
   * not a file.
   */
  method ItemMod(b: Backend, form: map<string, string>, up: Upload, env: Env) returns (status: int, err: Option<HandlerError>)
    requires b.Valid()
    modifies b
    ensures b.Valid()
    ensures ModRequest(form, up).Err? ==>
              (status, err) == (ModRequest(form, up).error.0, Some(ModRequest(form, up).error.1)) &&
              b.table == old(b.table) && b.files == old(b.files)
    ensures ModRequest(form, up).Ok? ==>
              var (id, it) := ModRequest(form, up).value;
              (status == StatusOK <==> err.None?) && (err.Some? ==> status == StatusInternalServerError && err.value.Store?) &&
              (it.imgName.None? ==>
                 b.files == old(b.files) && ItemStore.UpdateOutcome(old(b.table), b.table, StoreError(err), id, "", it, "", env))
    ensures ModRequest(form, up).Ok? && up.File? ==>
              var it := ModRequest(form, up).value.1;
              status == StatusInternalServerError && b.table == old(b.table) &&
              b.files == if up.filename == "" then old(b.files)
                         else if env.copy != Copied then CopyEffect(old(b.files), ItemStore.NewPath(it, env), env.copy)
                         else if env.beginFails then old(b.files) + {ItemStore.NewPath(it, env)}
                         else old(b.files) + {ItemStore.NewPath(it, env)} - {"img/"}
    ensures ModRequest(form, up).Ok? && up.File? && up.filename != "" && env.copy == Copied &&
            Consistent(old(b.table), old(b.files)) ==>
              b.files == old(b.files) + {ItemStore.NewPath(ModRequest(form, up).value.1, env)}
    ensures ModRequest(form, up).Ok? && Consistent(old(b.table), old(b.files)) &&
            ItemStore.NewPaths(ModRequest(form, up).value.1, env) !! old(b.files) ==>
              Consistent(b.table, b.files)
  {
    var req := ModRequest(form, up);
    if req.Err? {
      return req.error.0, Some(req.error.1);
    }
    var (id, it) := req.value;
    var serr := ItemStore.Mod(b, id, "", it, env);
    if serr.Some? {
      return StatusInternalServerError, Some(Store(serr.value));
    }
    return StatusOK, None;
  }

  /**
   * itemMod with the corrected Mod of the item store: the handler as it
   * evidently was meant to behave.
   */
  method ItemModIntended(b: Backend, form: map<string, string>, up: Upload, env: Env) returns (status: int, err: Option<HandlerError>)
    requires b.Valid()
    modifies b
    ensures b.Valid()
    ensures ModRequest(form, up).Err? ==>
              (status, err) == (ModRequest(form, up).error.0, Some(ModRequest(form, up).error.1)) &&
              b.table == old(b.table) && b.files == old(b.files)
    ensures ModRequest(form, up).Ok? ==>
              var (id, it) := ModRequest(form, up).value;
              (status == StatusOK <==> err.None?) && (err.Some? ==> status == StatusInternalServerError && err.value.Store?) &&
              (it.imgName.None? ==>
                 b.files == old(b.files) && ItemStore.UpdateOutcome(old(b.table), b.table, StoreError(err), id, "", it, "", env)) &&
              (it.imgName.Some? ==>
                 ItemStore.ImageOutcome(old(b.table), old(b.files), b.table, b.files, StoreError(err), id, "", it, env))
    ensures ModRequest(form, up).Ok? && Consistent(old(b.table), old(b.files)) &&
            ItemStore.NewPaths(ModRequest(form, up).value.1, env) !! old(b.files) && !env.commitFails ==>
              Consistent(b.table, b.files)
  {
    var req := ModRequest(form, up);
    if req.Err? {
      return req.error.0, Some(req.error.1);
    }
    var (id, it) := req.value;
    var serr := ItemStore.ModIntended(b, id, "", it, env);
    if serr.Some? {
      return StatusInternalServerError, Some(Store(serr.value));
    }
    return StatusOK, None;
  }

  /**
   * itemDel: the id must be a Go int; the item with that id is deleted
   * together with its image.
   */
  method ItemDel(b: Backend, form: map<string, string>, env: Env) returns (status: int, err: Option<HandlerError>)
    requires b.Valid()
    modifies b
    ensures b.Valid()
    ensures Strconv.Atoi(FormValue(form, "id")).Err? ==>
              status == StatusBadRequest && err == Some(BadId) && b.table == old(b.table) && b.files == old(b.files)
    ensures Strconv.Atoi(FormValue(form, "id")).Ok? ==>
              var id := Strconv.Atoi(FormValue(form, "id")).value as int;
              (env.beginFails || env.queryFails || env.execFails ==>
                 status == StatusInternalServerError && err == Some(Store(ItemStore.Db(Transient))) &&
                 b.table == old(b.table) && b.files == old(b.files)) &&
              (!env.beginFails && !env.queryFails && !env.execFails ==>
                 status == StatusOK && err == None &&
                 b.table == (if env.commitFails then old(b.table) else ItemStore.Remaining(old(b.table), [id], [])) &&
                 b.files == old(b.files) - ItemStore.Doomed(old(b.table), [id], []))
    ensures Consistent(old(b.table), old(b.files)) && !env.commitFails ==> Consistent(b.table, b.files)
  {
    var id := Strconv.Atoi(FormValue(form, "id"));
    if id.Err? {
      return StatusBadRequest, Some(BadId);
    }
    var serr := ItemStore.Del(b, [id.value as int], [], env);
    if serr.Some? {
      return StatusInternalServerError, Some(Store(serr.value));
    }
    return StatusOK, None;
  }
}
