/**
 * The parts of Go's `path/filepath` that the recycler uses on Unix paths:
 * `Base`, `Ext` and `Join`.
 */
module GoPath {

  /** Drops every trailing '/'. */
  function TrimTrailingSlashes(p: string): (r: string)
    ensures |r| <= |p| && r == p[..|r|]
    ensures r == [] || r[|r| - 1] != '/'
    ensures forall i :: |r| <= i < |p| ==> p[i] == '/'
    decreases |p|
  {
    if p != [] && p[|p| - 1] == '/' then TrimTrailingSlashes(p[..|p| - 1]) else p
  }

  /** The characters after the last '/' of `p` (all of `p` when it has no '/'). */
  function LastElement(p: string): (r: string)
    ensures |r| <= |p| && r == p[|p| - |r|..]
    ensures '/' !in r
    ensures |r| < |p| ==> p[|p| - |r| - 1] == '/'
    decreases |p|
  {
    if p == [] || p[|p| - 1] == '/' then []
    else LastElement(p[..|p| - 1]) + [p[|p| - 1]]
  }

  /**
   * `filepath.Base`: the last element of the path after trailing slashes are
   * removed; "." for the empty path and "/" for a path of slashes only.
   */
  function Base(path: string): (r: string)
    ensures r != []
    ensures r == "/" || '/' !in r
    ensures path != [] && path[|path| - 1] != '/' ==> r == LastElement(path)
  {
    if path == [] then "."
    else
      var t := TrimTrailingSlashes(path);
      if t == [] then "/" else LastElement(t)
  }

  /** The index of the last `c` in `s`, or -1 when `s` holds no `c`. */
  function LastIndex(s: string, c: char): (r: int)
    ensures -1 <= r < |s|
    ensures r >= 0 ==> s[r] == c
    ensures forall j :: r < j < |s| ==> s[j] != c
    decreases |s|
  {
    if s == [] then -1
    else if s[|s| - 1] == c then |s| - 1
    else LastIndex(s[..|s| - 1], c)
  }

  /**
   * The suffix of one path element that starts at its last '.', or "" when it
   * has no '.'.
   */
  function ElementExt(e: string): (r: string)
    ensures |r| <= |e| && r == e[|e| - |r|..]
    ensures r == [] <==> '.' !in e
    ensures r != [] ==> r[0] == '.' && '.' !in r[1..]
  {
    var i := LastIndex(e, '.');
    if i < 0 then "" else e[i..]
  }

  /**
   * `filepath.Ext`: scanning back from the end of the path up to the last
   * '/', the suffix from the first '.' met, or "" when none is met.
   */
  function Ext(path: string): (r: string)
    ensures '/' !in r
    ensures r == [] <==> '.' !in LastElement(path)
    ensures r != [] ==> r[0] == '.' && '.' !in r[1..]
  {
    var le := LastElement(path);
    var r := ElementExt(le);
    SuffixOmits(le, r, '/');
    r
  }

  lemma SuffixOmits(s: string, t: string, c: char)
    requires |t| <= |s| && t == s[|s| - |t|..] && c !in s
    ensures c !in t
  {
  }

  lemma {:induction false} LastElementOfElement(e: string)
    requires '/' !in e
    ensures LastElement(e) == e
    decreases |e|
  {
    if e != [] {
      var init := e[..|e| - 1];
      assert '/' !in init by {
        forall i | 0 <= i < |init| ensures init[i] != '/' {
          assert init[i] == e[i];
        }
      }
      LastElementOfElement(init);
      assert e[|e| - 1] != '/';
      assert init + [e[|e| - 1]] == e;
    }
  }

  /** The extension depends only on the final element of the path. */
  lemma ExtOfLastElement(path: string)
    ensures Ext(LastElement(path)) == Ext(path)
  {
    LastElementOfElement(LastElement(path));
  }

  /** The extension of `stem.ext` is `.ext` when `ext` holds no '.'. */
  lemma ElementExtOfName(stem: string, ext: string)
    requires '.' !in ext
    ensures ElementExt(stem + "." + ext) == "." + ext
  {
    var e := stem + "." + ext;
    var i := LastIndex(e, '.');
    assert e[|stem|] == '.';
    assert e[|stem|..] == "." + ext;
  }

  /** A name `stem.ext` whose `ext` has no '.' has extension `.ext`, whatever dots `stem` holds. */
  lemma ExtOfName(stem: string, ext: string)
    requires '/' !in stem && '/' !in ext && '.' !in ext
    ensures Ext(stem + "." + ext) == "." + ext
  {
    LastElementOfElement(stem + "." + ext);
    ElementExtOfName(stem, ext);
  }

  /** A non-empty name without '/' is its own base name. */
  lemma BaseOfName(name: string)
    requires name != [] && '/' !in name
    ensures Base(name) == name
  {
    LastElementOfElement(name);
  }

  /**
   * `filepath.Join(dir, name)` for a clean `dir` and a one-element `name`;
   * the `Clean` step Go applies afterwards is not modelled.
   */
  function Join(dir: string, name: string): string
  {
    dir + "/" + name
  }

  lemma {:induction false} LastElementAfterSlash(dir: string, name: string)
    requires '/' !in name
    ensures LastElement(dir + "/" + name) == name
    decreases |name|
  {
    var p := dir + "/" + name;
    if name != [] {
      var init := name[..|name| - 1];
      assert p[..|p| - 1] == dir + "/" + init;
      LastElementAfterSlash(dir, init);
      assert init + [name[|name| - 1]] == name;
    }
  }

  /** The base name of `dir/name` is `name` for a non-empty name without '/'. */
  lemma BaseOfJoin(dir: string, name: string)
    requires name != [] && '/' !in name
    ensures Base(Join(dir, name)) == name
  {
    LastElementAfterSlash(dir, name);
  }
}
