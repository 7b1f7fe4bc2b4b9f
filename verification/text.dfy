/**
 * String and sequence helpers shared by the Go agent and the Python master:
 * filtering, splitting and joining on one separator character, substring
 * search, prefixes, whitespace trimming and ASCII lower-casing.
 */
module Text {

  /** Keeps the elements of `s` that satisfy `keep`, in their original order. */
  function Filter<T>(s: seq<T>, keep: T -> bool): (r: seq<T>)
    ensures |r| <= |s|
    ensures forall i :: 0 <= i < |r| ==> r[i] in s && keep(r[i])
    ensures forall i :: 0 <= i < |s| && keep(s[i]) ==> s[i] in r
    decreases |s|
  {
    if s == [] then []
    else
      var init, last := s[..|s| - 1], s[|s| - 1];
      assert s == init + [last];
      Filter(init, keep) + (if keep(last) then [last] else [])
  }

  lemma {:induction false} FilterAppend<T>(a: seq<T>, b: seq<T>, keep: T -> bool)
    ensures Filter(a + b, keep) == Filter(a, keep) + Filter(b, keep)
    decreases |b|
  {
    if b != [] {
      var init, last := b[..|b| - 1], b[|b| - 1];
      assert (a + b)[..|a + b| - 1] == a + init;
      FilterAppend(a, init, keep);
    } else {
      assert a + b == a;
    }
  }

  lemma {:induction false} FilterKeepsAll<T>(s: seq<T>, keep: T -> bool)
    requires forall i :: 0 <= i < |s| ==> keep(s[i])
    ensures Filter(s, keep) == s
    decreases |s|
  {
    if s != [] {
      var init, last := s[..|s| - 1], s[|s| - 1];
      assert forall i :: 0 <= i < |init| ==> keep(init[i]) by {
        forall i | 0 <= i < |init| ensures keep(init[i]) {
          assert init[i] == s[i];
        }
      }
      FilterKeepsAll(init, keep);
      assert Filter(s, keep) == Filter(init, keep) + [last];
      assert init + [last] == s;
    }
  }

  /** Filtering twice with the same test changes nothing the second time. */
  lemma FilterIdempotent<T>(s: seq<T>, keep: T -> bool)
    ensures Filter(Filter(s, keep), keep) == Filter(s, keep)
  {
    var r := Filter(s, keep);
    FilterKeepsAll(r, keep);
  }

  /** Go's `strings.Split(s, sep)` for a one-character separator: never empty. */
  function Split(s: string, sep: char): (r: seq<string>)
    ensures |r| >= 1
    ensures forall i :: 0 <= i < |r| ==> sep !in r[i]
    decreases |s|
  {
    if s == [] then [""]
    else
      var rest := Split(s[1..], sep);
      if s[0] == sep then [""] + rest
      else [[s[0]] + rest[0]] + rest[1..]
  }

  /** Go's `strings.Join` and Python's `sep.join` for a one-character separator. */
  function Join(parts: seq<string>, sep: char): string
    decreases |parts|
  {
    if parts == [] then ""
    else if |parts| == 1 then parts[0]
    else parts[0] + [sep] + Join(parts[1..], sep)
  }

  lemma JoinCons(c: char, x: string, y: seq<string>, sep: char)
    ensures Join([[c] + x] + y, sep) == [c] + Join([x] + y, sep)
  {
    if y != [] {
      assert ([[c] + x] + y)[1..] == y;
      assert ([x] + y)[1..] == y;
    }
  }

  /** Joining what was split restores the original text. */
  lemma {:induction false} JoinSplit(s: string, sep: char)
    ensures Join(Split(s, sep), sep) == s
    decreases |s|
  {
    if s != [] {
      var rest := Split(s[1..], sep);
      JoinSplit(s[1..], sep);
      if s[0] == sep {
        assert ([""] + rest)[1..] == rest;
      } else {
        assert [[s[0]] + rest[0]] + rest[1..] == [[s[0]] + rest[0]] + rest[1..];
        assert [rest[0]] + rest[1..] == rest;
        JoinCons(s[0], rest[0], rest[1..], sep);
      }
    }
  }

  lemma {:induction false} SplitNoSep(w: string, sep: char)
    requires sep !in w
    ensures Split(w, sep) == [w]
    decreases |w|
  {
    if w != [] {
      SplitNoSep(w[1..], sep);
      assert [w[0]] + w[1..] == w;
    }
  }

  lemma {:induction false} SplitAfterPart(w: string, t: string, sep: char)
    requires sep !in w
    ensures Split(w + [sep] + t, sep) == [w] + Split(t, sep)
    decreases |w|
  {
    if w == [] {
      assert w + [sep] + t == [sep] + t;
      assert ([sep] + t)[1..] == t;
    } else {
      var s := w + [sep] + t;
      assert s[0] == w[0] && s[1..] == w[1..] + [sep] + t;
      SplitAfterPart(w[1..], t, sep);
      assert [w[0]] + w[1..] == w;
    }
  }

  /** Splitting what was joined gives back the parts, when no part holds the separator. */
  lemma {:induction false} SplitJoin(parts: seq<string>, sep: char)
    requires |parts| >= 1
    requires forall i :: 0 <= i < |parts| ==> sep !in parts[i]
    ensures Split(Join(parts, sep), sep) == parts
    decreases |parts|
  {
    if |parts| == 1 {
      SplitNoSep(parts[0], sep);
    } else {
      SplitJoin(parts[1..], sep);
      SplitAfterPart(parts[0], Join(parts[1..], sep), sep);
      assert [parts[0]] + parts[1..] == parts;
    }
  }

  /** `sub` occurs in `s` starting at index `i`. */
  predicate OccursAt(s: string, sub: string, i: int)
  {
    0 <= i && i + |sub| <= |s| && s[i..i + |sub|] == sub
  }

  /** Go's `strings.Contains` and Python's `sub in s`. */
  predicate Contains(s: string, sub: string)
  {
    exists i | 0 <= i <= |s| - |sub| :: OccursAt(s, sub, i)
  }

  /** Go's `strings.HasPrefix` and Python's `str.startswith`. */
  predicate StartsWith(s: string, prefix: string)
  {
    |prefix| <= |s| && s[..|prefix|] == prefix
  }

  /** An occurrence in `a + [c] + b` that cannot straddle `c` lies in `a` or in `b`. */
  lemma OccurrenceAroundSeparator(a: string, c: char, b: string, sub: string, i: int)
    requires c !in sub
    requires OccursAt(a + [c] + b, sub, i)
    ensures Contains(a, sub) || Contains(b, sub)
  {
    var s := a + [c] + b;
    if i + |sub| <= |a| {
      assert s[i..i + |sub|] == a[i..i + |sub|];
      assert OccursAt(a, sub, i);
    } else if i > |a| {
      var k := i - |a| - 1;
      assert s[i..i + |sub|] == b[k..k + |sub|];
      assert OccursAt(b, sub, k);
    } else {
      CoveredCharInSub(s, sub, i, |a|);
      assert false;
    }
  }

  lemma CoveredCharInSub(s: string, sub: string, i: int, j: int)
    requires OccursAt(s, sub, i) && i <= j < i + |sub|
    ensures s[j] in sub
  {
    assert s[j] == s[i..i + |sub|][j - i];
  }

  /** An occurrence inside a slice of `s` is an occurrence in `s`. */
  lemma ContainsInSlice(s: string, t: string, off: int, sub: string)
    requires 0 <= off && off + |t| <= |s| && s[off..off + |t|] == t
    requires Contains(t, sub)
    ensures Contains(s, sub)
  {
    var k :| 0 <= k <= |t| - |sub| && OccursAt(t, sub, k);
    forall j | 0 <= j < |sub|
      ensures s[off + k + j] == sub[j]
    {
      assert sub[j] == t[k..k + |sub|][j] == t[k + j];
      assert t[k + j] == s[off..off + |t|][k + j];
    }
    assert s[off + k..off + k + |sub|] == sub;
    assert OccursAt(s, sub, off + k);
  }

  /** A part that holds `sub` makes the joined text hold it. */
  lemma {:induction false} JoinContainsPart(parts: seq<string>, sep: char, sub: string, i: int)
    requires 0 <= i < |parts| && Contains(parts[i], sub)
    ensures Contains(Join(parts, sep), sub)
    decreases |parts|
  {
    var s := Join(parts, sep);
    if |parts| == 1 {
    } else if i == 0 {
      assert s == parts[0] + ([sep] + Join(parts[1..], sep));
      assert s[0..|parts[0]|] == parts[0];
      ContainsInSlice(s, parts[0], 0, sub);
    } else {
      var rest := Join(parts[1..], sep);
      JoinContainsPart(parts[1..], sep, sub, i - 1);
      assert s == (parts[0] + [sep]) + rest;
      assert s[|parts[0]| + 1..|parts[0]| + 1 + |rest|] == rest;
      ContainsInSlice(s, rest, |parts[0]| + 1, sub);
    }
  }

  /** Joining parts free of `sub` cannot create `sub`, if the separator is not in `sub`. */
  lemma {:induction false} JoinAvoids(parts: seq<string>, sep: char, sub: string)
    requires sub != [] && sep !in sub
    requires forall i :: 0 <= i < |parts| ==> !Contains(parts[i], sub)
    ensures !Contains(Join(parts, sep), sub)
    decreases |parts|
  {
    if parts == [] {
      assert forall i :: !OccursAt("", sub, i);
    } else if |parts| > 1 {
      JoinAvoids(parts[1..], sep, sub);
      if Contains(Join(parts, sep), sub) {
        var i :| OccursAt(Join(parts, sep), sub, i);
        OccurrenceAroundSeparator(parts[0], sep, Join(parts[1..], sep), sub, i);
        assert false;
      }
    }
  }

  function TrimLeft(s: string, isSpace: char -> bool): (r: string)
    ensures |r| <= |s| && r == s[|s| - |r|..]
    ensures r == [] || !isSpace(r[0])
    decreases |s|
  {
    if s != [] && isSpace(s[0]) then TrimLeft(s[1..], isSpace) else s
  }

  function TrimRight(s: string, isSpace: char -> bool): (r: string)
    ensures |r| <= |s| && r == s[..|r|]
    ensures r == [] || !isSpace(r[|r| - 1])
    ensures s != [] && !isSpace(s[0]) ==> r != [] && r[0] == s[0]
    decreases |s|
  {
    if s != [] && isSpace(s[|s| - 1]) then TrimRight(s[..|s| - 1], isSpace) else s
  }

  /** Everything `TrimLeft` drops satisfies `isSpace`. */
  lemma {:induction false} TrimLeftDrops(s: string, isSpace: char -> bool)
    ensures forall j :: 0 <= j < |s| - |TrimLeft(s, isSpace)| ==> isSpace(s[j])
    decreases |s|
  {
    if s != [] && isSpace(s[0]) {
      TrimLeftDrops(s[1..], isSpace);
      forall j | 0 < j < |s| - |TrimLeft(s, isSpace)| ensures isSpace(s[j]) {
        assert s[j] == s[1..][j - 1];
      }
    }
  }

  /** Everything `TrimRight` drops satisfies `isSpace`. */
  lemma {:induction false} TrimRightDrops(s: string, isSpace: char -> bool)
    ensures forall j :: |TrimRight(s, isSpace)| <= j < |s| ==> isSpace(s[j])
    decreases |s|
  {
    if s != [] && isSpace(s[|s| - 1]) {
      TrimRightDrops(s[..|s| - 1], isSpace);
      forall j | |TrimRight(s, isSpace)| <= j < |s| - 1 ensures isSpace(s[j]) {
        assert s[j] == s[..|s| - 1][j];
      }
    }
  }

  /** `r` is `s[k..]` with a run of `isSpace` characters before it and after it. */
  predicate TrimmedSlice(s: string, r: string, k: int, isSpace: char -> bool)
  {
    0 <= k && k + |r| <= |s| && r == s[k..k + |r|] &&
    (forall j :: 0 <= j < k ==> isSpace(s[j])) && (forall j :: k + |r| <= j < |s| ==> isSpace(s[j]))
  }

  /** Trimming the left end, then the right end, leaves a slice of `s` between two runs of spaces. */
  lemma TrimBothDrops(s: string, isSpace: char -> bool)
    ensures TrimmedSlice(s, TrimRight(TrimLeft(s, isSpace), isSpace), |s| - |TrimLeft(s, isSpace)|, isSpace)
  {
    var left := TrimLeft(s, isSpace);
    TrimLeftDrops(s, isSpace);
    TrimRightDrops(left, isSpace);
    SliceBetweenRuns(s, left, TrimRight(left, isSpace), isSpace);
  }

  /** A prefix `r` of a suffix `left` of `s`, with runs of spaces dropped at both ends, is a trimmed slice of `s`. */
  lemma SliceBetweenRuns(s: string, left: string, r: string, isSpace: char -> bool)
    requires |left| <= |s| && left == s[|s| - |left|..]
    requires forall j :: 0 <= j < |s| - |left| ==> isSpace(s[j])
    requires |r| <= |left| && r == left[..|r|]
    requires forall j :: |r| <= j < |left| ==> isSpace(left[j])
    ensures TrimmedSlice(s, r, |s| - |left|, isSpace)
  {
    var k := |s| - |left|;
    assert r == s[k..k + |r|];
    forall j | k + |r| <= j < |s| ensures isSpace(s[j]) {
      assert s[j] == left[j - k];
    }
  }

  /**
   * Strips leading and trailing characters that satisfy `isSpace`: the
   * result is the slice of `s` left once a run of such characters is taken
   * off each end.
   */
  function Trim(s: string, isSpace: char -> bool): (r: string)
    ensures |r| <= |s|
    ensures r == [] || (!isSpace(r[0]) && !isSpace(r[|r| - 1]))
    ensures exists k :: TrimmedSlice(s, r, k, isSpace)
  {
    TrimBothDrops(s, isSpace);
    TrimRight(TrimLeft(s, isSpace), isSpace)
  }

  lemma TrimIdempotent(s: string, isSpace: char -> bool)
    ensures Trim(Trim(s, isSpace), isSpace) == Trim(s, isSpace)
  {
    var t := Trim(s, isSpace);
    assert TrimLeft(t, isSpace) == t;
    assert TrimRight(t, isSpace) == t;
  }

  /** Go's `unicode.IsSpace`, the test `strings.TrimSpace` applies. */
  predicate GoSpace(c: char)
  {
    c == ' ' || c == '\t' || c == '\n' || c == '\r' || c == '\U{B}' || c == '\U{C}'
    || c == '\U{85}' || c == '\U{A0}' || c == '\U{1680}' || '\U{2000}' <= c <= '\U{200A}'
    || c == '\U{2028}' || c == '\U{2029}' || c == '\U{202F}' || c == '\U{205F}' || c == '\U{3000}'
  }

  /** Python's `str.isspace` for one character, the test `str.strip()` applies. */
  predicate PySpace(c: char)
  {
    GoSpace(c) || '\U{1C}' <= c <= '\U{1F}'
  }

  /** Go's `strings.TrimSpace`. */
  function TrimSpace(s: string): string
  {
    Trim(s, GoSpace)
  }

  /** Python's `str.strip()` with no argument. */
  function Strip(s: string): string
  {
    Trim(s, PySpace)
  }

  function LowerChar(c: char): char
  {
    if 'A' <= c <= 'Z' then (c as int + 32) as char else c
  }

  /** `str.lower()` restricted to ASCII letters. */
  function Lower(s: string): (r: string)
    ensures |r| == |s|
    ensures forall i :: 0 <= i < |s| ==> r[i] == LowerChar(s[i])
  {
    seq(|s|, i requires 0 <= i < |s| => LowerChar(s[i]))
  }
}
