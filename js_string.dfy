/** The JavaScript string methods the library calls: `split` on a
    one-character separator, `padStart`, and `slice` with negative indices.
    `includes(c)` is `c in s` and `startsWith(c)` is `|s| > 0 && s[0] == c`. */
module JsString {

  /** Inverse of `Split`: the parts glued back together with the separator
      (JavaScript's `parts.join(sep)`). */
  function Join(parts: seq<string>, sep: char): string
    requires |parts| >= 1
  {
    if |parts| == 1 then parts[0] else parts[0] + [sep] + Join(parts[1..], sep)
  }

  ghost predicate SeparatorFree(parts: seq<string>, sep: char) {
    forall i :: 0 <= i < |parts| ==> sep !in parts[i]
  }

  /** `s.split(sep)`: always at least one segment, and exactly one, the
      whole text, when the separator does not occur.  `SplitSegments`
      proves that the segments are separator-free and join back to s. */
  function Split(s: string, sep: char): (parts: seq<string>)
    ensures |parts| >= 1
    ensures |parts| == 1 <==> sep !in s
    ensures sep !in s ==> parts == [s]
  {
    if |s| == 0 then
      [""]
    else
      var rest := Split(s[1..], sep);
      assert s == [s[0]] + s[1..];
      if s[0] == sep then
        [""] + rest
      else
        assert sep in s <==> sep in s[1..];
        [[s[0]] + rest[0]] + rest[1..]
  }

  /** The segments of `s.split(sep)` are the maximal separator-free pieces
      of s, in order: none holds the separator and joined back with it
      they give s. */
  lemma {:induction false} SplitSegments(s: string, sep: char)
    ensures SeparatorFree(Split(s, sep), sep)
    ensures Join(Split(s, sep), sep) == s
    decreases |s|
  {
    if |s| > 0 {
      var rest := Split(s[1..], sep);
      SplitSegments(s[1..], sep);
      assert s == [s[0]] + s[1..];
      var parts := Split(s, sep);
      if s[0] == sep {
        assert parts == [""] + rest;
        assert parts[1..] == rest;
      } else {
        assert parts == [[s[0]] + rest[0]] + rest[1..];
        JoinExtendFirst(s[0], rest, sep);
        assert sep !in [s[0]] + rest[0];
        forall i | 1 <= i < |parts| ensures sep !in parts[i] {
          assert parts[i] == rest[i];
        }
      }
    }
  }

  /** Putting c in front of the first part puts it in front of the join. */
  lemma JoinExtendFirst(c: char, parts: seq<string>, sep: char)
    requires |parts| >= 1
    ensures Join([[c] + parts[0]] + parts[1..], sep) == [c] + Join(parts, sep)
  {
    var ext := [[c] + parts[0]] + parts[1..];
    if |parts| > 1 {
      assert ext[1..] == parts[1..];
    }
  }

  /** A join contains the separator exactly when it glues two or more parts. */
  lemma JoinContainsSeparator(parts: seq<string>, sep: char)
    requires |parts| >= 1 && SeparatorFree(parts, sep)
    ensures sep in Join(parts, sep) <==> |parts| > 1
  {
    if |parts| > 1 {
      assert Join(parts, sep)[|parts[0]|] == sep;
    }
  }

  /** If the same text is the join of two separator-free lists, the lists
      are equal. */
  lemma {:induction false} JoinInjective(p: seq<string>, q: seq<string>, sep: char)
    requires |p| >= 1 && |q| >= 1
    requires SeparatorFree(p, sep) && SeparatorFree(q, sep)
    requires Join(p, sep) == Join(q, sep)
    ensures p == q
  {
    JoinContainsSeparator(p, sep);
    JoinContainsSeparator(q, sep);
    assert (|p| == 1) == (|q| == 1);
    if |p| > 1 {
      FirstSegment(p[0], Join(p[1..], sep), q[0], Join(q[1..], sep), sep);
      assert SeparatorFree(p[1..], sep) && SeparatorFree(q[1..], sep) by {
        forall i | 0 <= i < |p| - 1 ensures sep !in p[1..][i] { assert p[1..][i] == p[i + 1]; }
        forall i | 0 <= i < |q| - 1 ensures sep !in q[1..][i] { assert q[1..][i] == q[i + 1]; }
      }
      JoinInjective(p[1..], q[1..], sep);
      assert p == [p[0]] + p[1..] && q == [q[0]] + q[1..];
    }
  }

  /** Two texts that each begin with a separator-free segment followed by the
      separator agree on that segment and on what follows it. */
  lemma FirstSegment(a: string, x: string, b: string, y: string, sep: char)
    requires sep !in a && sep !in b
    requires a + [sep] + x == b + [sep] + y
    ensures a == b && x == y
  {
    var s := a + [sep] + x;
    assert forall i :: 0 <= i < |a| ==> s[i] == a[i];
    assert forall i :: 0 <= i < |b| ==> s[i] == b[i];
    assert s[|a|] == sep && s[|b|] == sep;
    assert |a| == |b|;
    assert a == s[..|a|] && b == s[..|b|];
    assert x == s[|a| + 1..] && y == s[|b| + 1..];
  }

  /** Splitting a join of separator-free segments gives the segments back. */
  lemma SplitJoin(parts: seq<string>, sep: char)
    requires |parts| >= 1 && SeparatorFree(parts, sep)
    ensures Split(Join(parts, sep), sep) == parts
  {
    SplitSegments(Join(parts, sep), sep);
    JoinInjective(Split(Join(parts, sep), sep), parts, sep);
  }

  /** Splitting after a leading separator-free segment. */
  lemma SplitAfterSegment(a: string, sep: char, rest: string)
    requires sep !in a
    ensures Split(a + [sep] + rest, sep) == [a] + Split(rest, sep)
  {
    var tail := Split(rest, sep);
    SplitSegments(rest, sep);
    var parts := [a] + tail;
    assert parts[1..] == tail;
    assert Join(parts, sep) == a + [sep] + rest;
    assert SeparatorFree(parts, sep) by {
      forall k | 0 <= k < |parts| ensures sep !in parts[k] {
        if k > 0 { assert parts[k] == tail[k - 1]; }
      }
    }
    SplitJoin(parts, sep);
  }

  /** `c` repeated k times. */
  function Repeat(c: char, k: nat): (r: string)
    ensures |r| == k && forall i :: 0 <= i < k ==> r[i] == c
  {
    seq(k, _ => c)
  }

  /** `s.padStart(n, c)`: s, preceded by enough copies of c to reach length n. */
  function PadStart(s: string, n: int, c: char): (r: string)
    ensures |r| == if n <= |s| then |s| else n
    ensures r[|r| - |s|..] == s
    ensures forall i :: 0 <= i < |r| - |s| ==> r[i] == c
  {
    if n <= |s| then s else Repeat(c, n - |s|) + s
  }

  /** How `slice` reads an index: negative counts from the end, and the
      result is clamped to [0, len]. */
  function SliceIndex(i: int, len: nat): (k: nat)
    ensures k <= len
    ensures 0 <= i <= len ==> k == i
    ensures i < 0 && 0 <= len + i ==> k == len + i
    ensures i > len ==> k == len
    ensures len + i < 0 ==> k == 0
  {
    if i < 0 then (if len + i < 0 then 0 else len + i) else if i > len then len else i
  }

  /** `s.slice(start, end)`: the characters from the clamped start up to
      the clamped end, none when the two cross. */
  function Slice(s: string, start: int, end: int): (r: string)
  {
    var from, to := SliceIndex(start, |s|), SliceIndex(end, |s|);
    if from < to then s[from..to] else []
  }

  /** `s.slice(start)`. */
  function SliceFrom(s: string, start: int): (r: string)
    ensures r == s[SliceIndex(start, |s|)..]
  {
    Slice(s, start, |s|)
  }

  /** `s.slice(0, -k)` and `s.slice(-k)` cut s before its last k characters. */
  lemma SliceFromEnd(s: string, k: nat)
    requires 0 < k <= |s|
    ensures Slice(s, 0, -(k as int)) == s[..|s| - k]
    ensures SliceFrom(s, -(k as int)) == s[|s| - k..]
  {
    assert SliceIndex(-(k as int), |s|) == |s| - k;
  }

  /** Putting '.' at position k of a text without one leaves exactly one. */
  lemma PointOnce(s: string, k: nat)
    requires k <= |s| && '.' !in s
    ensures |s[..k] + "." + s[k..]| == |s| + 1 && (s[..k] + "." + s[k..])[k] == '.'
    ensures forall i :: 0 <= i < |s| + 1 && i != k ==> (s[..k] + "." + s[k..])[i] != '.'
  {
    var r := s[..k] + "." + s[k..];
    forall i | 0 <= i < |s| + 1 && i != k ensures r[i] != '.' {
      if i < k { assert r[i] == s[i]; } else { assert r[i] == s[i - 1]; }
    }
  }
}
