/**
 * ParseItem of item/util: the command-line argument that addresses an
 * item, either "name:<name>" or a decimal id; anything else that is not a
 * number is taken as a name.
 */
module ItemKeys {
  import opened Wrappers
  import opened Strconv
  import Paths

  /** strings.Cut(s, ":"): the text before and after the first ':', and whether there was one. */
  function CutColon(s: string): (r: (string, string, bool))
    ensures r.2 <==> ':' in s
    ensures r.2 ==> s == r.0 + ":" + r.1 && ':' !in r.0
    ensures !r.2 ==> r == (s, "", false)
  {
    if ':' in s then
      var i := Paths.IndexOf(s, ':');
      assert s == s[..i] + ":" + s[i + 1..];
      (s[..i], s[i + 1..], true)
    else (s, "", false)
  }

  /**
   * ParseItem: (id, name, error). A name is reported with id -1 and an
   * id with the empty name; only an out-of-range number is an error.
   */
  function ParseItem(item: string): (r: (int, string, Option<NumError>))
    ensures r.2.Some? ==> r == (-1, "", Some(ErrRange)) && Atoi(item) == Err(ErrRange)
    ensures r.2.None? && r.1 == "" && r.0 != -1 ==> Atoi(item) == Ok(r.0)
  {
    var (pre, suf, ok) := CutColon(item);
    if ok && pre == "name" then (-1, suf, None)
    else
      match Atoi(item)
      case Ok(id) => (id, "", None)
      case Err(ErrSyntax) => (-1, item, None)
      case Err(ErrRange) => (-1, "", Some(ErrRange))
  }

  /** "name:X" always addresses the item named X, whatever X holds (even more colons or digits). */
  lemma ParseItemName(x: string)
    ensures ParseItem("name:" + x) == (-1, x, None)
  {
    var s := "name:" + x;
    assert s == "name" + ":" + x;
    Paths.IndexOfFirst("name", ':', x);
    assert s[..4] == "name" && s[5..] == x;
  }

  /** The decimal text of any id (as strconv.Itoa writes it) addresses that id. */
  lemma ParseItemId(n: Int)
    ensures ParseItem(Itoa(n)) == (n, "", None)
  {
    AtoiItoa(n);
    var d := Itoa(n);
    assert forall i :: 0 <= i < |d| ==> IsDigit(d[i]) || d[i] == '-';
    assert ':' !in d;
  }

  /** Every text Atoi accepts ("+5", "007", "-0" included) addresses the id Atoi reads. */
  lemma ParseItemNumber(s: string)
    requires Atoi(s).Ok?
    ensures ParseItem(s) == (Atoi(s).value, "", None)
  {
    var (pre, suf, ok) := CutColon(s);
    if ok && pre == "name" {
      NamePrefixNotNumber(s, suf);
    }
  }

  /** "+5", "007" and "-0" are ids, as Atoi reads them. */
  lemma ParseItemNumberExamples()
    ensures ParseItem("+5") == (5, "", None)
    ensures ParseItem("007") == (7, "", None)
  {
    assert "+5"[1..] == "5";
    AtoiDigits("5");
    ParseItemNumber("+5");
    AtoiDigits("007");
    assert Value("007") == 7 by {
      assert "007"[..2] == "00" && "00"[..1] == "0";
    }
    ParseItemNumber("007");
  }

  /** A text that is neither "name:…" nor a number (nor out of range) is taken whole as a name. */
  lemma ParseItemPlainName(s: string)
    requires !(CutColon(s).2 && CutColon(s).0 == "name") && Atoi(s) == Err(ErrSyntax)
    ensures ParseItem(s) == (-1, s, None)
  {
  }

  /** A number outside the int range is the one error, and nothing is addressed. */
  lemma ParseItemOutOfRange(s: string)
    requires Atoi(s) == Err(ErrRange)
    ensures ParseItem(s) == (-1, "", Some(ErrRange))
  {
    var (pre, suf, ok) := CutColon(s);
    if ok && pre == "name" {
      NamePrefixNotNumber(s, suf);
    }
  }

  /** A text starting "name:" is a syntax error to Atoi, never a range error. */
  lemma NamePrefixNotNumber(s: string, suf: string)
    requires s == "name" + ":" + suf
    ensures Atoi(s) == Err(ErrSyntax)
  {
    assert s[0] == 'n' && !IsDigit(s[0]);
    assert DigitRun(s) == 0;
    assert s[..0] == [];
  }

  lemma ParseItemIdExample()
    ensures ParseItem("42") == (42, "", None)
  {
    assert Value("42") == 42;
    AtoiDigits("42");
  }

  lemma ParseItemNameExamples()
    ensures ParseItem("bolt") == (-1, "bolt", None)
    ensures ParseItem("name:42") == (-1, "42", None)
  {
    assert !IsDigit('b');
    assert DigitRun("bolt") == 0;
    ParseItemName("42");
    assert "name:" + "42" == "name:42";
  }
}
