/**
 * Image paths: util.ImgPath, and the parts of Go's `path` package the
 * core relies on (path.Base for generated names, path.Clean for the
 * public image URL), over slash-separated strings.
 */
module Paths {

  /** util.ImgPath: where an image with the given generated name is stored. */
  function ImgPath(base: string): (p: string)
    ensures |p| == 4 + |base| && p[..4] == "img/" && p[4..] == base
  {
    "img/" + base
  }

  /** Distinct image names never share a stored path, so removing one image never removes another. */
  lemma ImgPathInjective(a: string, b: string)
    ensures ImgPath(a) == ImgPath(b) <==> a == b
  {
    if ImgPath(a) == ImgPath(b) {
      assert a == ImgPath(a)[4..] == ImgPath(b)[4..] == b;
    }
  }

  /** A non-empty name with no slash that is not a dot element: a single path element. */
  predicate PlainName(s: string)
  {
    s != "" && s != "." && s != ".." && '/' !in s
  }

  /** Position of the first `c` in `s`. */
  function IndexOf(s: string, c: char): (i: nat)
    requires c in s
    ensures i < |s| && s[i] == c && c !in s[..i]
  {
    if s[0] == c then 0
    else
      var i := 1 + IndexOf(s[1..], c);
      assert s[..i] == [s[0]] + s[1..][..i - 1];
      i
  }

  /** strings.Split(s, "/"). */
  function SplitSlash(s: string): (r: seq<string>)
    ensures |r| >= 1
    decreases |s|
  {
    if '/' !in s then [s]
    else
      var i := IndexOf(s, '/');
      [s[..i]] + SplitSlash(s[i + 1..])
  }

  /** strings.Join(elems, "/"). */
  function JoinSlash(elems: seq<string>): string
  {
    if elems == [] then ""
    else if |elems| == 1 then elems[0]
    else elems[0] + "/" + JoinSlash(elems[1..])
  }

  /**
   * The lexical rules of path.Clean on the elements of a rooted path:
   * empty and "." elements vanish, ".." removes the element before it and
   * is dropped at the root.
   */
  function Resolve(elems: seq<string>, kept: seq<string>): seq<string>
  {
    if elems == [] then kept
    else
      var e := elems[0];
      if e == "" || e == "." then Resolve(elems[1..], kept)
      else if e == ".." then Resolve(elems[1..], if kept == [] then [] else kept[..|kept| - 1])
      else Resolve(elems[1..], kept + [e])
  }

  /** path.Clean on a path that starts with "/". */
  function CleanRooted(p: string): (r: string)
    requires |p| >= 1 && p[0] == '/'
    ensures |r| >= 1 && r[0] == '/'
  {
    "/" + JoinSlash(Resolve(SplitSlash(p[1..]), []))
  }

  lemma {:induction false} IndexOfFirst(a: string, c: char, b: string)
    requires c !in a
    ensures c in a + [c] + b && IndexOf(a + [c] + b, c) == |a|
  {
    if a != [] {
      assert (a + [c] + b)[1..] == a[1..] + [c] + b;
      IndexOfFirst(a[1..], c, b);
    }
  }

  /** Splitting "<elem>/<rest>" where the element has no slash. */
  lemma SplitFirst(a: string, b: string)
    requires '/' !in a
    ensures SplitSlash(a + "/" + b) == [a] + SplitSlash(b)
  {
    IndexOfFirst(a, '/', b);
    var s := a + "/" + b;
    assert s[..|a|] == a && s[|a| + 1..] == b;
  }

  /** Resolve keeps plain elements and skips empty ones. */
  lemma ResolveStep(e: string, rest: seq<string>, kept: seq<string>)
    ensures PlainName(e) ==> Resolve([e] + rest, kept) == Resolve(rest, kept + [e])
    ensures e == "" ==> Resolve([e] + rest, kept) == Resolve(rest, kept)
  {
    assert ([e] + rest)[0] == e && ([e] + rest)[1..] == rest;
  }

  /** path.Clean leaves "/img/<name>" alone when the name is a single path element. */
  lemma CleanImgPath(base: string)
    requires PlainName(base)
    ensures CleanRooted("/" + ImgPath(base)) == "/img/" + base
  {
    var p := "/" + ImgPath(base);
    assert Resolve(SplitSlash(p[1..]), []) == ["img", base] by {
      assert p[1..] == ImgPath(base);
      SplitImgPath(base);
      ResolveImg(base);
    }
    assert JoinSlash(["img", base]) == "img/" + base;
  }

  lemma SplitImgPath(base: string)
    requires '/' !in base
    ensures SplitSlash(ImgPath(base)) == ["img", base]
  {
    assert ImgPath(base) == "img" + "/" + base;
    SplitFirst("img", base);
  }

  lemma ResolveImg(base: string)
    requires PlainName(base)
    ensures Resolve(["img", base], []) == ["img", base]
  {
    ResolveStep("img", [base], []);
    ResolveStep(base, [], ["img"]);
    assert ["img", base] == ["img"] + [base];
  }

  /** path.Clean of "/img/" with an empty name: the trailing slash is dropped. */
  lemma CleanEmptyName()
    ensures CleanRooted("/" + ImgPath("")) == "/img"
  {
    var p := "/" + ImgPath("");
    assert p[1..] == "img" + "/" + "";
    SplitFirst("img", "");
    assert SplitSlash(p[1..]) == ["img"] + [""];
    ResolveStep("img", [""], []);
    ResolveStep("", [], ["img"]);
    assert Resolve(["img"] + [""], []) == ["img"];
  }

  /** The suffix of `q` after its last slash (all of `q` if it has none). */
  function LastElem(q: string): (r: string)
    ensures '/' !in r
    ensures |r| <= |q| && r == q[|q| - |r|..]
    ensures |r| < |q| ==> q[|q| - |r| - 1] == '/'
    ensures q != [] && q[|q| - 1] != '/' ==> r != []
  {
    if q == [] || q[|q| - 1] == '/' then []
    else
      var pre := q[..|q| - 1];
      var r := LastElem(pre) + [q[|q| - 1]];
      assert pre[|pre| - (|r| - 1)..] + [q[|q| - 1]] == q[|q| - |r|..];
      r
  }

  function TrimTrailingSlashes(p: string): (q: string)
    ensures q == [] || q[|q| - 1] != '/'
  {
    if p != [] && p[|p| - 1] == '/' then TrimTrailingSlashes(p[..|p| - 1]) else p
  }

  /** What trimming removes: only trailing slashes. */
  lemma {:induction false} TrimmedPrefix(p: string)
    ensures var q := TrimTrailingSlashes(p);
            |q| <= |p| && q == p[..|q|] && forall i :: |q| <= i < |p| ==> p[i] == '/'
  {
    if p != [] && p[|p| - 1] == '/' {
      var pre := p[..|p| - 1];
      TrimmedPrefix(pre);
      var q := TrimTrailingSlashes(pre);
      assert pre[..|q|] == p[..|q|];
    }
  }

  /** path.Base: the last element of a path; "." for "" and "/" for a path of slashes only. */
  function Base(p: string): (r: string)
    ensures r != []
    ensures r == "/" || '/' !in r
    ensures p == "" ==> r == "."
  {
    if p == "" then "."
    else
      var q := TrimTrailingSlashes(p);
      if q == "" then "/" else LastElem(q)
  }

  /**
   * path.Base of a path that is not all slashes: the last element of the
   * path once its trailing slashes are removed, that is the slash-free
   * suffix that follows the last remaining '/'.
   */
  lemma BaseIsLastElement(p: string)
    ensures var q := TrimTrailingSlashes(p);
            q != "" ==> '/' !in Base(p) && |Base(p)| <= |q| && Base(p) == q[|q| - |Base(p)|..]
    ensures var q := TrimTrailingSlashes(p);
            q != "" && |Base(p)| < |q| ==> q[|q| - |Base(p)| - 1] == '/'
  {
    var q := TrimTrailingSlashes(p);
    if q != "" {
      var r := LastElem(q);
      assert Base(p) == r;
      assert '/' !in r && |r| <= |q| && r == q[|q| - |r|..];
      assert |r| < |q| ==> q[|q| - |r| - 1] == '/';
    }
  }

  /** A path of slashes only has the base "/". */
  lemma BaseOfSlashes(p: string)
    requires p != "" && forall i :: 0 <= i < |p| ==> p[i] == '/'
    ensures Base(p) == "/"
  {
    SlashesTrimToEmpty(p);
  }

  lemma {:induction false} SlashesTrimToEmpty(p: string)
    requires forall i :: 0 <= i < |p| ==> p[i] == '/'
    ensures TrimTrailingSlashes(p) == ""
  {
    if p != [] {
      var pre := p[..|p| - 1];
      assert forall i :: 0 <= i < |pre| ==> pre[i] == p[i];
      SlashesTrimToEmpty(pre);
    }
  }

  /** The base of a path whose last element is a plain name is that name, whatever directory precedes it. */
  lemma BaseOfPlain(dir: string, name: string)
    requires name != [] && '/' !in name
    requires dir == [] || dir[|dir| - 1] == '/'
    ensures Base(dir + name) == name
  {
    var p := dir + name;
    assert p[|p| - 1] == name[|name| - 1];
    assert TrimTrailingSlashes(p) == p;
    LastElemPlain(dir, name);
  }

  lemma {:induction false} LastElemPlain(dir: string, name: string)
    requires name != [] && '/' !in name
    requires dir == [] || dir[|dir| - 1] == '/'
    ensures LastElem(dir + name) == name
  {
    var q := dir + name;
    var init, last := name[..|name| - 1], name[|name| - 1];
    assert q[|q| - 1] == last;
    assert q[..|q| - 1] == dir + init;
    assert LastElem(q) == LastElem(dir + init) + [last];
    if init != [] {
      LastElemPlain(dir, init);
    } else {
      assert dir + init == dir;
      assert LastElem(dir) == [];
    }
    assert name == init + [last];
  }
}
