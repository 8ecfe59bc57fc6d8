/**
 * The storefront of serve/serve.go: stoi (intRE and strconv.Atoi), the
 * loop of handleRoot that turns posted form fields into order lines,
 * getItems (query rows mapped to the page's view items) and the checkout
 * loop that fills in quantities and totals, with a fixed delivery charge.
 */
module Storefront {
  import opened Wrappers
  import opened Sql
  import opened Storage
  import Strconv
  import Prices
  import Paths
  import ItemStore

  // ---------------------------------------------------------------- stoi

  predicate NonZeroDigit(c: char) { '1' <= c <= '9' }

  /** Whether intRE's second alternative, [1-9][0-9]*$, matches at position p. */
  predicate TailAt(s: string, p: nat)
    requires p < |s|
  {
    NonZeroDigit(s[p]) && Strconv.AllDigits(s[p + 1..])
  }

  /**
   * The leftmost match of [1-9][0-9]*$ in `s`: the suffix from the first
   * position where it matches, or "" when it matches nowhere.
   */
  function TailMatch(s: string): (m: string)
    ensures |m| <= |s| && m == s[|s| - |m|..]
    ensures m != "" ==> TailAt(s, |s| - |m|)
    ensures forall p :: 0 <= p < |s| - |m| ==> !TailAt(s, p)
  {
    if s == [] then ""
    else if TailAt(s, 0) then s
    else
      var m := TailMatch(s[1..]);
      assert forall p :: 1 <= p < |s| ==> (TailAt(s, p) <==> TailAt(s[1..], p - 1)) by {
        forall p | 1 <= p < |s| ensures s[p] == s[1..][p - 1] && s[p + 1..] == s[1..][p..] { }
      }
      m
  }

  /**
   * intRE.FindString: intRE is ^0|[1-9][0-9]*$, so a leading "0" matches
   * first; otherwise the leftmost tail match.
   */
  function IntMatch(s: string): (m: string)
    ensures |m| <= |s|
    ensures m == "" || m == "0" || (NonZeroDigit(m[0]) && Strconv.AllDigits(m))
    ensures m != "" ==> (m == "0" && s[0] == '0') || m == s[|s| - |m|..]
  {
    if s != [] && s[0] == '0' then "0" else TailMatch(s)
  }

  /** stoi: strconv.Atoi of what intRE finds ("" when it finds nothing, which Atoi refuses). */
  function Stoi(s: string): (r: Result<Strconv.Int, Strconv.NumError>)
    ensures r.Ok? ==> r.value >= 0
    ensures IntMatch(s) == "" ==> r == Err(Strconv.ErrSyntax)
  {
    Strconv.Atoi(IntMatch(s))
  }

  /** Any decimal text in canonical form (as strconv.Itoa writes a non-negative int) is read back. */
  lemma StoiItoa(n: Strconv.Int)
    requires n >= 0
    ensures Stoi(Strconv.Itoa(n)) == Ok(n)
  {
    Strconv.AtoiItoa(n);
    var d := Strconv.Itoa(n);
    if n >= 1 {
      assert TailAt(d, 0) by {
        assert d[1..] == d[1..];
        assert forall i :: 0 <= i < |d[1..]| ==> d[1..][i] == d[i + 1];
      }
    }
  }

  /** A sign before the digits is skipped, so a negative quantity reads as positive. */
  lemma StoiSignIgnored()
    ensures Stoi("-5") == Ok(5)
  {
    assert "-5"[1..] == "5" && "5"[1..] == [];
    assert TailAt("5", 0);
    assert TailMatch("5") == "5";
    assert !TailAt("-5", 0);
    assert IntMatch("-5") == "5";
    Strconv.AtoiDigits("5");
  }

  /** Any text before a final digit run is skipped. */
  lemma StoiPrefixIgnored()
    ensures Stoi("x7") == Ok(7)
  {
    assert "x7"[1..] == "7" && "7"[1..] == [];
    assert TailAt("7", 0);
    assert TailMatch("7") == "7";
    assert !TailAt("x7", 0);
    assert IntMatch("x7") == "7";
    Strconv.AtoiDigits("7");
  }

  /** A leading "0" is read as 0 whatever follows; a digit run not at the end is refused. */
  lemma StoiZeroExamples()
    ensures Stoi("07") == Ok(0)
    ensures Stoi("0abc") == Ok(0)
    ensures Stoi("12a") == Err(Strconv.ErrSyntax)
    ensures Stoi("") == Err(Strconv.ErrSyntax)
  {
    Strconv.AtoiDigits("0");
    assert !TailAt("12a", 0) && !TailAt("12a", 1) && !TailAt("12a", 2);
  }

  /** A canonical decimal: "0", or digits with no leading zero. */
  predicate Canonical(s: string)
  {
    s == "0" || (s != [] && NonZeroDigit(s[0]) && Strconv.AllDigits(s))
  }

  /** stoi as evidently intended: the whole text must match ^(0|[1-9][0-9]*)$. */
  function StoiIntended(s: string): (r: Result<Strconv.Int, Strconv.NumError>)
    ensures r.Ok? ==> Canonical(s) && r.value >= 0
  {
    if Canonical(s) then Strconv.Atoi(s) else Err(Strconv.ErrSyntax)
  }

  /** The intended stoi accepts exactly the texts strconv.Itoa writes for non-negative ints. */
  lemma StoiIntendedExact(s: string, n: Strconv.Int)
    ensures StoiIntended(s) == Ok(n) <==> n >= 0 && s == Strconv.Itoa(n)
  {
    if StoiIntended(s) == Ok(n) {
      StoiIntendedCanonical(s);
    }
    if n >= 0 && s == Strconv.Itoa(n) {
      StoiIntendedItoa(n);
    }
  }

  /** What the intended stoi accepts is the canonical text of the value it returns. */
  lemma StoiIntendedCanonical(s: string)
    requires StoiIntended(s).Ok?
    ensures s == Strconv.Itoa(StoiIntended(s).value)
  {
    Strconv.AtoiDigits(s);
    Strconv.DigitsValue(s);
  }

  /** The intended stoi reads back the canonical text of any non-negative int. */
  lemma StoiIntendedItoa(n: Strconv.Int)
    requires n >= 0
    ensures StoiIntended(Strconv.Itoa(n)) == Ok(n)
  {
    var s := Strconv.Digits(n);
    Strconv.AtoiItoa(n);
    assert Canonical(s);
  }

  /** Where the two differ: a negative quantity is read as positive, and a prefixed key as an id. */
  lemma StoiDiffers()
    ensures Stoi("-5") == Ok(5) && StoiIntended("-5") == Err(Strconv.ErrSyntax)
    ensures Stoi("x7") == Ok(7) && StoiIntended("x7") == Err(Strconv.ErrSyntax)
  {
    StoiSignIgnored();
    StoiPrefixIgnored();
  }

  // ---------------------------------------------------------------- the order form

  /** The customer fields the order form carries besides order lines. */
  datatype Customer = Customer(name: string, contact: string, address: string, comments: string)

  predicate Reserved(k: string)
  {
    k == "name" || k == "contact" || k == "address" || k == "comments"
  }

  /**
   * The order line a posted field makes: its key read as an item id and
   * its value as a quantity from 1 to 100; anything else is skipped.
   */
  function LineOf(k: string, v: string, parse: string -> Result<Strconv.Int, Strconv.NumError>): (l: Option<(int, int)>)
    ensures l.Some? <==> !Reserved(k) && parse(k).Ok? && parse(v).Ok? && 1 <= parse(v).value <= 100
    ensures l.Some? ==> l.value == (parse(k).value as int, parse(v).value as int)
  {
    if Reserved(k) then None
    else
      match parse(k)
      case Err(_) => None
      case Ok(id) =>
        match parse(v)
        case Err(_) => None
        case Ok(n) => if n <= 0 || n > 100 then None else Some((id as int, n as int))
  }

  /** The order lines of the posted fields, in iteration order. */
  function Lines(form: seq<(string, string)>, parse: string -> Result<Strconv.Int, Strconv.NumError>): (ls: seq<(int, int)>)
    ensures forall j :: 0 <= j < |ls| ==> 1 <= ls[j].1 <= 100
  {
    if form == [] then []
    else
      var last := form[|form| - 1];
      var l := LineOf(last.0, last.1, parse);
      Lines(form[..|form| - 1], parse) + (if l.Some? then [l.value] else [])
  }

  /** The ids of the order lines, in order (the `ids` slice). */
  function Ids(ls: seq<(int, int)>): (ids: seq<int>)
    ensures |ids| == |ls| && forall j :: 0 <= j < |ls| ==> ids[j] == ls[j].0
  {
    seq(|ls|, j requires 0 <= j < |ls| => ls[j].0)
  }

  /** The `ordered` map: each line sets its id's quantity, a later line for the same id overriding. */
  function Tally(ls: seq<(int, int)>): (m: map<int, int>)
    ensures forall j :: 0 <= j < |ls| ==> ls[j].0 in m
  {
    if ls == [] then map[] else Tally(ls[..|ls| - 1])[ls[|ls| - 1].0 := ls[|ls| - 1].1]
  }

  /**
   * The tally holds exactly the ordered ids, and each quantity is one the
   * lines posted for that id (the last one).
   */
  lemma {:induction false} TallyLines(ls: seq<(int, int)>)
    ensures Tally(ls).Keys == set j | 0 <= j < |ls| :: ls[j].0
    ensures forall id :: id in Tally(ls) ==> exists j :: 0 <= j < |ls| && ls[j] == (id, Tally(ls)[id])
  {
    if ls != [] {
      var pre := ls[..|ls| - 1];
      TallyLines(pre);
      forall id | id in Tally(ls) ensures exists j :: 0 <= j < |ls| && ls[j] == (id, Tally(ls)[id]) {
        if id != ls[|ls| - 1].0 {
          var j :| 0 <= j < |pre| && pre[j] == (id, Tally(pre)[id]);
          assert ls[j] == pre[j];
        }
      }
      assert (set j | 0 <= j < |ls| :: ls[j].0) == (set j | 0 <= j < |pre| :: pre[j].0) + {ls[|ls| - 1].0} by {
        forall j | 0 <= j < |pre| ensures pre[j] == ls[j] { }
      }
    }
  }

  /** Every ordered quantity is from 1 to 100. */
  lemma TallyBounds(form: seq<(string, string)>, parse: string -> Result<Strconv.Int, Strconv.NumError>)
    ensures forall id :: id in Tally(Lines(form, parse)) ==> 1 <= Tally(Lines(form, parse))[id] <= 100
  {
    var ls := Lines(form, parse);
    TallyLines(ls);
    forall id | id in Tally(ls) ensures 1 <= Tally(ls)[id] <= 100 {
      var j :| 0 <= j < |ls| && ls[j] == (id, Tally(ls)[id]);
    }
  }

  /**
   * The customer fields after the loop: each reserved key's value. The keys
   * of a posted form are distinct; on a sequence that repeats one, the last wins.
   */
  function CustomerOf(form: seq<(string, string)>): (c: Customer)
    ensures (forall j :: 0 <= j < |form| ==> !Reserved(form[j].0)) ==> c == Customer("", "", "", "")
  {
    if form == [] then Customer("", "", "", "")
    else Fill(CustomerOf(form[..|form| - 1]), form[|form| - 1].0, form[|form| - 1].1)
  }

  /** A reserved key sets its customer field; any other key leaves the customer alone. */
  function Fill(c: Customer, k: string, v: string): Customer
  {
    if k == "name" then c.(name := v)
    else if k == "contact" then c.(contact := v)
    else if k == "address" then c.(address := v)
    else if k == "comments" then c.(comments := v)
    else c
  }

  /** One more field: the customer is filled from it, and its order line, if any, is appended. */
  lemma CollectStep(form: seq<(string, string)>, i: nat, parse: string -> Result<Strconv.Int, Strconv.NumError>)
    requires i < |form|
    ensures CustomerOf(form[..i + 1]) == Fill(CustomerOf(form[..i]), form[i].0, form[i].1)
    ensures LineOf(form[i].0, form[i].1, parse).None? ==> Lines(form[..i + 1], parse) == Lines(form[..i], parse)
    ensures LineOf(form[i].0, form[i].1, parse).Some? ==>
              Lines(form[..i + 1], parse) == Lines(form[..i], parse) + [LineOf(form[i].0, form[i].1, parse).value]
  {
    assert form[..i + 1][..i] == form[..i] && form[..i + 1][i] == form[i];
  }

  /** Appending a line appends its id and records its quantity. */
  lemma AppendLine(ls: seq<(int, int)>, l: (int, int))
    ensures Ids(ls + [l]) == Ids(ls) + [l.0]
    ensures Tally(ls + [l]) == Tally(ls)[l.0 := l.1]
  {
    assert (ls + [l])[..|ls|] == ls;
  }

  /**
   * The loop of handleRoot over the posted fields: reserved keys fill the
   * customer fields, every other field that makes an order line appends
   * its id and records its quantity, and the rest are skipped without an
   * error. The fields come in the order the form map is iterated: each
   * key of r.PostForm once, paired with its first value, which is what
   * r.FormValue returns. The contract does not rely on the keys being
   * distinct. `parse` is the key and quantity reader.
   */
  method CollectOrder(form: seq<(string, string)>, parse: string -> Result<Strconv.Int, Strconv.NumError>)
    returns (customer: Customer, ids: seq<int>, ordered: map<int, int>)
    ensures customer == CustomerOf(form)
    ensures ids == Ids(Lines(form, parse))
    ensures ordered == Tally(Lines(form, parse))
  {
    customer, ids, ordered := Customer("", "", "", ""), [], map[];
    for i := 0 to |form|
      invariant customer == CustomerOf(form[..i])
      invariant ids == Ids(Lines(form[..i], parse))
      invariant ordered == Tally(Lines(form[..i], parse))
    {
      var (k, v) := form[i];
      CollectStep(form, i, parse);
      if k == "name" {
        customer := customer.(name := v);
        continue;
      } else if k == "contact" {
        customer := customer.(contact := v);
        continue;
      } else if k == "address" {
        customer := customer.(address := v);
        continue;
      } else if k == "comments" {
        customer := customer.(comments := v);
        continue;
      }
      var id := parse(k);
      if id.Err? {
        continue;
      }
      var n := parse(v);
      if n.Err? || n.value <= 0 || n.value > 100 {
        continue;
      }
      AppendLine(Lines(form[..i], parse), (id.value as int, n.value as int));
      ids := ids + [id.value as int];
      ordered := ordered[id.value as int := n.value as int];
    }
    assert form[..|form|] == form;
  }

  /** Fields that do not make order lines leave the order empty. */
  lemma NoLines(form: seq<(string, string)>, parse: string -> Result<Strconv.Int, Strconv.NumError>)
    requires forall j :: 0 <= j < |form| ==> LineOf(form[j].0, form[j].1, parse).None?
    ensures Lines(form, parse) == [] && Tally(Lines(form, parse)) == map[]
  {
    if form != [] {
      NoLines(form[..|form| - 1], parse);
    }
  }

  // ---------------------------------------------------------------- getItems

  /**
   * The page's price: the amount, and whether its text has been set. The
   * text is the amount as Price.String renders it once set, and "" before.
   */
  datatype PriceView = PriceView(num: Strconv.Int, rendered: bool)
  {
    function Str(): (s: string)
      ensures !rendered ==> s == ""
    {
      if rendered then Prices.String(num) else ""
    }
  }

  /** The page's item: Ord is the position in the listing; Num and Total are set at checkout. */
  datatype View = View(id: int, ord: int, name: string, descr: string, price: PriceView, img: string, num: int, total: PriceView)

  /** imgPath of serve: the URL path of a stored image, path.Clean("/" + util.ImgPath(base)). */
  function ImgURL(base: string): (u: string)
    ensures |u| >= 1 && u[0] == '/'
  {
    Paths.CleanRooted("/" + Paths.ImgPath(base))
  }

  /** A generated image name that is a single path element is served at "/img/<name>". */
  lemma ImgURLPlain(base: string)
    requires Paths.PlainName(base)
    ensures ImgURL(base) == "/img/" + base
  {
    Paths.CleanImgPath(base);
  }

  /** The database column holds Go ints. */
  predicate PricesFit(t: seq<Row>)
  {
    forall r :: r in t ==> Strconv.MinInt <= r.price <= Strconv.MaxInt
  }

  /** The view of the k-th listed item: NULL descr shown as "", an image as its URL, no image as "". */
  function ViewOf(it: ItemStore.Item, k: nat): (v: View)
    requires it.id.Some? && it.name.Some? && it.price.Some?
    requires Strconv.MinInt <= it.price.value <= Strconv.MaxInt
    ensures v.id == it.id.value && v.ord == k && v.name == it.name.value && v.price.num == it.price.value
    ensures v.descr == it.descr.GetOr("")
    ensures v.img == if it.imgName.Some? then ImgURL(it.imgName.value) else ""
    ensures v.price.rendered && v.num == 0 && v.total == PriceView(0, false)
  {
    View(it.id.value, k, it.name.value, it.descr.GetOr(""), PriceView(it.price.value, true),
         if it.imgName.Some? then ImgURL(it.imgName.value) else "", 0, PriceView(0, false))
  }

  /** The text of a listed price reads back as that price (a stored price is never negative). */
  lemma ViewPriceRoundTrip(it: ItemStore.Item, k: nat)
    requires it.id.Some? && it.name.Some? && it.price.Some?
    requires 0 <= it.price.value <= Strconv.MaxInt
    ensures Prices.Set(0, ViewOf(it, k).price.Str()) == (it.price.value, None)
  {
    Prices.SetString(it.price.value, 0);
  }

  /** A listed row is a row of the table, and an addressed one unless everything is listed. */
  lemma ListedRows(t: seq<Row>, ids: seq<int>, names: seq<string>, ord: Order)
    ensures forall r :: r in ItemStore.Listing(t, ids, names, ord) <==>
              r in t && ((ids == [] && names == []) || ItemStore.Addressed(r, ids, names))
  {
    var rows := ItemStore.Listing(t, ids, names, ord);
    forall r ensures r in rows <==> r in multiset(rows) { }
  }

  /** The items of the page: the listed rows, ordered by name, each as its view. */
  function PageItems(t: seq<Row>, ids: seq<int>, names: seq<string>): (vs: seq<View>)
    requires PricesFit(t)
    ensures |vs| == |ItemStore.Listing(t, ids, names, ByName)|
    ensures forall k :: 0 <= k < |vs| ==> vs[k].ord == k && vs[k].num == 0
    ensures forall i, j :: 0 <= i < j < |vs| ==> StrLe(vs[i].name, vs[j].name)
  {
    var rows := ItemStore.Listing(t, ids, names, ByName);
    ListedRows(t, ids, names, ByName);
    assert forall k :: 0 <= k < |rows| ==> rows[k] in t;
    seq(|rows|, k requires 0 <= k < |rows| => ViewOf(ItemStore.ItemOf(rows[k]), k))
  }

  /** The k-th item of the page is the view of the k-th listed row. */
  lemma PageItemsAt(t: seq<Row>, ids: seq<int>, names: seq<string>, k: nat)
    requires PricesFit(t) && k < |ItemStore.Listing(t, ids, names, ByName)|
    ensures var row := ItemStore.Listing(t, ids, names, ByName)[k];
            row in t && PageItems(t, ids, names)[k] == ViewOf(ItemStore.ItemOf(row), k)
  {
    ListedRows(t, ids, names, ByName);
    assert ItemStore.Listing(t, ids, names, ByName)[k] in ItemStore.Listing(t, ids, names, ByName);
  }

  /** Each item the page shows is an addressed item of the table (any item when none is addressed). */
  lemma PageItemsShown(t: seq<Row>, ids: seq<int>, names: seq<string>, k: nat)
    requires PricesFit(t) && k < |PageItems(t, ids, names)|
    ensures var v := PageItems(t, ids, names)[k];
            exists r :: r in t && ((ids == [] && names == []) || ItemStore.Addressed(r, ids, names)) &&
                        v == ViewOf(ItemStore.ItemOf(r), k)
  {
    var rows := ItemStore.Listing(t, ids, names, ByName);
    ListedRows(t, ids, names, ByName);
    assert rows[k] in rows;
  }

  /** Each addressed item of the table (every item when none is addressed) is on the page. */
  lemma PageItemsComplete(t: seq<Row>, ids: seq<int>, names: seq<string>, r: Row)
    requires PricesFit(t) && r in t && ((ids == [] && names == []) || ItemStore.Addressed(r, ids, names))
    ensures exists k :: 0 <= k < |PageItems(t, ids, names)| && PageItems(t, ids, names)[k] == ViewOf(ItemStore.ItemOf(r), k)
  {
    var rows := ItemStore.Listing(t, ids, names, ByName);
    ListedRows(t, ids, names, ByName);
    var k :| 0 <= k < |rows| && rows[k] == r;
    assert PageItems(t, ids, names)[k] == ViewOf(ItemStore.ItemOf(rows[k]), k);
  }

  /**
   * getItems: Get the addressed items ordered by name (all of them when
   * no ids or names are given) and map each to its view.
   */
  method GetItems(b: Backend, ids: seq<int>, names: seq<string>, env: Env) returns (items: seq<View>, err: Option<ItemStore.StoreError>)
    requires PricesFit(b.table)
    ensures err.Some? <==> env.queryFails
    ensures err.Some? ==> items == []
    ensures err.None? ==> items == PageItems(b.table, ids, names)
  {
    var dbItems;
    dbItems, err := ItemStore.Get(b, ids, names, ByName, env);
    if err.Some? {
      return [], err;
    }
    ghost var page := PageItems(b.table, ids, names);
    items := [];
    for i := 0 to |dbItems|
      invariant |items| == i
      invariant forall k :: 0 <= k < i ==> items[k] == page[k]
    {
      PageItemsAt(b.table, ids, names, i);
      items := items + [ViewOf(dbItems[i], i)];
    }
  }

  // ---------------------------------------------------------------- checkout

  /** The delivery charge, in minor units. */
  const Delivery: int := 500

  /** ordered[id]: a missing id reads as quantity 0. */
  function Qty(ordered: map<int, int>, id: int): int
  {
    if id in ordered then ordered[id] else 0
  }

  /** A line total: unit price times quantity, as a Go int product (wrapping). */
  function LineTotal(v: View, ordered: map<int, int>): (t: Strconv.Int)
    ensures v.id !in ordered ==> t == 0
    ensures Strconv.MinInt <= v.price.num * Qty(ordered, v.id) <= Strconv.MaxInt ==> t == v.price.num * Qty(ordered, v.id)
  {
    Strconv.Wrap(v.price.num * Qty(ordered, v.id))
  }

  /** An item after checkout: its quantity, and its line total with the total's text. */
  function Checked(v: View, ordered: map<int, int>): (c: View)
    ensures c.(num := v.num, total := v.total) == v
    ensures c.num == Qty(ordered, v.id) && c.total.rendered && c.total.num == LineTotal(v, ordered)
  {
    v.(num := Qty(ordered, v.id), total := PriceView(LineTotal(v, ordered), true))
  }

  /** The exact sum of the line totals. */
  function LineSum(vs: seq<View>, ordered: map<int, int>): int
  {
    if vs == [] then 0 else LineSum(vs[..|vs| - 1], ordered) + LineTotal(vs[|vs| - 1], ordered)
  }

  /** Items none of which was ordered add nothing to the total. */
  lemma {:induction false} UnorderedSum(vs: seq<View>, ordered: map<int, int>)
    requires forall k :: 0 <= k < |vs| ==> vs[k].id !in ordered
    ensures LineSum(vs, ordered) == 0
  {
    if vs != [] {
      UnorderedSum(vs[..|vs| - 1], ordered);
    }
  }

  /** One step of the running total. */
  lemma SumStep(vs: seq<View>, i: nat, ordered: map<int, int>, total: int)
    requires i < |vs| && total == Strconv.Wrap(LineSum(vs[..i], ordered))
    ensures Strconv.Wrap(total + LineTotal(vs[i], ordered)) == Strconv.Wrap(LineSum(vs[..i + 1], ordered))
  {
    assert vs[..i + 1][..i] == vs[..i];
    Strconv.WrapAdd(LineSum(vs[..i], ordered), LineTotal(vs[i], ordered));
  }

  /** The body of the checkout loop for item i: set its quantity and line total, and return the line total. */
  method CheckLine(items: array<View>, i: nat, ordered: map<int, int>) returns (line: Strconv.Int)
    requires i < items.Length
    modifies items
    ensures items[i] == Checked(old(items[i]), ordered)
    ensures forall k :: 0 <= k < items.Length && k != i ==> items[k] == old(items[k])
    ensures line == LineTotal(old(items[i]), ordered)
  {
    var p := items[i];
    var num := Qty(ordered, p.id);
    line := Strconv.Wrap(p.price.num * num);
    items[i] := p.(num := num, total := PriceView(line, true));
  }

  /**
   * The checkout loop: each item's quantity is what was ordered for its
   * id (0 when nothing was), its line total is price times quantity, and
   * the grand total is the sum of the line totals plus the delivery
   * charge, all in Go int arithmetic.
   */
  method Checkout(items: array<View>, ordered: map<int, int>) returns (total: PriceView)
    modifies items
    ensures forall k :: 0 <= k < items.Length ==> items[k] == Checked(old(items[k]), ordered)
    ensures total == PriceView(Strconv.Wrap(LineSum(old(items[..]), ordered) + Delivery), true)
  {
    var sum: Strconv.Int := 0;
    ghost var vs := items[..];
    for i := 0 to items.Length
      invariant forall k :: 0 <= k < i ==> items[k] == Checked(vs[k], ordered)
      invariant forall k :: i <= k < items.Length ==> items[k] == vs[k]
      invariant sum == Strconv.Wrap(LineSum(vs[..i], ordered))
    {
      var line := CheckLine(items, i, ordered);
      SumStep(vs, i, ordered, sum);
      sum := Strconv.Wrap(sum + line);
    }
    assert vs[..items.Length] == vs;
    total := AddDelivery(sum, vs, ordered);
  }

  /** After the loop: add the delivery charge to the running total and render it. */
  method AddDelivery(sum: Strconv.Int, ghost vs: seq<View>, ordered: map<int, int>) returns (total: PriceView)
    requires sum == Strconv.Wrap(LineSum(vs, ordered))
    ensures total == PriceView(Strconv.Wrap(LineSum(vs, ordered) + Delivery), true)
  {
    Strconv.WrapAdd(LineSum(vs, ordered), Delivery);
    total := PriceView(Strconv.Wrap(sum + Delivery), true);
  }

  /** Two items at 5.00 and 12.00, ordered 2 and 1: lines of 10.00 and 12.00, and 27.00 in all. */
  lemma CheckoutExample()
    ensures var a := View(1, 0, "a", "", PriceView(500, true), "", 0, PriceView(0, false));
            var b := View(2, 1, "b", "", PriceView(1200, true), "", 0, PriceView(0, false));
            var ordered := map[1 := 2, 2 := 1];
            LineTotal(a, ordered) == 1000 && LineTotal(b, ordered) == 1200 &&
            Strconv.Wrap(LineSum([a, b], ordered) + Delivery) == 2700
  {
    var a := View(1, 0, "a", "", PriceView(500, true), "", 0, PriceView(0, false));
    var b := View(2, 1, "b", "", PriceView(1200, true), "", 0, PriceView(0, false));
    var ordered := map[1 := 2, 2 := 1];
    assert LineTotal(a, ordered) == 1000;
    assert LineTotal(b, ordered) == 1200;
    assert [a, b][..1] == [a];
    assert [a][..0] == [];
    assert LineSum([a], ordered) == 1000;
    assert LineSum([a, b], ordered) == 2200;
  }

  // ---------------------------------------------------------------- handleRoot

  /** The page's items are the listed views, checked out with the ordered quantities when it is a checkout. */
  ghost predicate Shows(items: array<View>, page: seq<View>, ordered: map<int, int>, checkout: bool)
    reads items
  {
    items.Length == |page| &&
    forall k :: 0 <= k < |page| ==> items[k] == if checkout then Checked(page[k], ordered) else page[k]
  }

  /** The page's total: the wrapped sum of the line totals plus delivery at a checkout, unset otherwise. */
  function PageTotal(page: seq<View>, ordered: map<int, int>, checkout: bool): PriceView
  {
    if checkout then PriceView(Strconv.Wrap(LineSum(page, ordered) + Delivery), true) else PriceView(0, false)
  }

  /**
   * The listing and checkout half of handleRoot: list the ordered items
   * (every item when no id was ordered) and, for an order or a checkout,
   * fill in quantities and totals.
   */
  method ShowItems(b: Backend, ids: seq<int>, ordered: map<int, int>, checkout: bool, env: Env)
    returns (items: array<View>, total: PriceView, err: Option<ItemStore.StoreError>)
    requires PricesFit(b.table)
    ensures err.Some? <==> env.queryFails
    ensures err.None? ==> Shows(items, PageItems(b.table, ids, []), ordered, checkout)
    ensures err.None? ==> total == PageTotal(PageItems(b.table, ids, []), ordered, checkout)
  {
    var views;
    views, err := GetItems(b, ids, [], env);
    if err.Some? || !checkout {
      items := ToArray(views);
      total := PriceView(0, false);
    } else {
      items, total := CheckoutPage(views, ordered);
    }
  }

  /** The checkout of a listed page: its items as an array, checked out, and the page total. */
  method CheckoutPage(views: seq<View>, ordered: map<int, int>) returns (items: array<View>, total: PriceView)
    ensures fresh(items)
    ensures Shows(items, views, ordered, true) && total == PageTotal(views, ordered, true)
  {
    items := ToArray(views);
    total := Checkout(items, ordered);
  }

  /** The page's item slice, as a fresh array. */
  method ToArray(views: seq<View>) returns (items: array<View>)
    ensures fresh(items) && items[..] == views
  {
    items := new View[|views|];
    forall k | 0 <= k < |views| {
      items[k] := views[k];
    }
  }

  /** With nothing ordered, every listed item shows quantity 0 and the total is the delivery charge. */
  lemma EmptyOrder(page: seq<View>)
    ensures forall k :: 0 <= k < |page| ==> Checked(page[k], map[]).num == 0
    ensures Strconv.Wrap(LineSum(page, map[]) + Delivery) == 500
    ensures PriceView(Strconv.Wrap(LineSum(page, map[]) + Delivery), true).Str() == "5.00"
  {
    UnorderedSum(page, map[]);
    assert Strconv.Wrap(LineSum(page, map[]) + Delivery) == 500;
    Prices.StringExamples();
  }

  /** The outcome of handleRoot. */
  datatype RootStatus = Shown | BadAction | Internal

  /**
   * handleRoot after the form is read, with `parse` reading the keys and
   * quantities of the order form. A POST must carry the action "order" or
   * "checkout"; its fields are collected into order lines and the page is
   * checked out. Any other request lists every item without totals.
   * Sending an order to the chat is not modelled.
   */
  method RootPage(b: Backend, isPost: bool, action: string, form: seq<(string, string)>,
                  parse: string -> Result<Strconv.Int, Strconv.NumError>, env: Env)
    returns (status: RootStatus, customer: Customer, items: array<View>, total: PriceView)
    requires PricesFit(b.table)
    ensures isPost && action != "order" && action != "checkout" ==> status == BadAction
    ensures !(isPost && action != "order" && action != "checkout") ==>
              (status == Internal <==> env.queryFails)
    ensures status == Shown && isPost ==>
              var ls := Lines(form, parse);
              customer == CustomerOf(form) &&
              Shows(items, PageItems(b.table, Ids(ls), []), Tally(ls), true) &&
              total == PageTotal(PageItems(b.table, Ids(ls), []), Tally(ls), true)
    ensures status == Shown && !isPost ==>
              customer == Customer("", "", "", "") &&
              Shows(items, PageItems(b.table, [], []), map[], false) && total == PriceView(0, false)
  {
    customer := Customer("", "", "", "");
    items := new View[0];
    total := PriceView(0, false);
    if isPost && action != "order" && action != "checkout" {
      return BadAction, customer, items, total;
    }
    var err;
    if isPost {
      var ids, ordered;
      customer, ids, ordered := CollectOrder(form, parse);
      items, total, err := ShowItems(b, ids, ordered, true, env);
    } else {
      items, total, err := ShowItems(b, [], map[], false, env);
    }
    status := if err.Some? then Internal else Shown;
  }

  /** handleRoot as written: the order form is read with stoi. */
  method HandleRoot(b: Backend, isPost: bool, action: string, form: seq<(string, string)>, env: Env)
    returns (status: RootStatus, customer: Customer, items: array<View>, total: PriceView)
    requires PricesFit(b.table)
    ensures isPost && action != "order" && action != "checkout" ==> status == BadAction
    ensures !(isPost && action != "order" && action != "checkout") ==>
              (status == Internal <==> env.queryFails)
    ensures status == Shown && isPost ==>
              var ls := Lines(form, Stoi);
              customer == CustomerOf(form) &&
              Shows(items, PageItems(b.table, Ids(ls), []), Tally(ls), true) &&
              total == PageTotal(PageItems(b.table, Ids(ls), []), Tally(ls), true)
    ensures status == Shown && !isPost ==>
              customer == Customer("", "", "", "") &&
              Shows(items, PageItems(b.table, [], []), map[], false) && total == PriceView(0, false)
  {
    status, customer, items, total := RootPage(b, isPost, action, form, Stoi, env);
  }

  /** handleRoot with the corrected stoi: only canonical numerals make order lines. */
  method HandleRootIntended(b: Backend, isPost: bool, action: string, form: seq<(string, string)>, env: Env)
    returns (status: RootStatus, customer: Customer, items: array<View>, total: PriceView)
    requires PricesFit(b.table)
    ensures isPost && action != "order" && action != "checkout" ==> status == BadAction
    ensures !(isPost && action != "order" && action != "checkout") ==>
              (status == Internal <==> env.queryFails)
    ensures status == Shown && isPost ==>
              var ls := Lines(form, StoiIntended);
              customer == CustomerOf(form) &&
              Shows(items, PageItems(b.table, Ids(ls), []), Tally(ls), true) &&
              total == PageTotal(PageItems(b.table, Ids(ls), []), Tally(ls), true)
    ensures status == Shown && !isPost ==>
              customer == Customer("", "", "", "") &&
              Shows(items, PageItems(b.table, [], []), map[], false) && total == PriceView(0, false)
  {
    status, customer, items, total := RootPage(b, isPost, action, form, StoiIntended, env);
  }

  /**
   * Where the two readers part: a key "x7" posted with quantity "2" orders
   * item 7 as written, and nothing with the corrected reader.
   */
  lemma LinesDiffer()
    ensures Lines([("x7", "2")], Stoi) == [(7, 2)]
    ensures Lines([("x7", "2")], StoiIntended) == []
  {
    PrefixedLineRead();
    PrefixedLineSkipped();
    LinesSingle("x7", "2", Stoi);
    LinesSingle("x7", "2", StoiIntended);
  }

  lemma PrefixedLineRead()
    ensures LineOf("x7", "2", Stoi) == Some((7, 2))
  {
    StoiPrefixIgnored();
    StoiTwo();
    assert !Reserved("x7");
  }

  lemma StoiTwo()
    ensures Stoi("2") == Ok(2)
  {
    var two := Strconv.Itoa(2);
    assert two == "2";
    StoiItoa(2);
  }

  lemma PrefixedLineSkipped()
    ensures LineOf("x7", "2", StoiIntended) == None
  {
    StoiDiffers();
  }

  lemma LinesSingle(k: string, v: string, parse: string -> Result<Strconv.Int, Strconv.NumError>)
    ensures Lines([(k, v)], parse) == if LineOf(k, v, parse).Some? then [LineOf(k, v, parse).value] else []
  {
    assert [(k, v)][..0] == [];
  }
}
