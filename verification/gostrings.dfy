/**
 The two functions of Go's `strings` package the decoder relies on,
 `Index` and `SplitN`, for a one-character separator, with `Join` as the
 inverse that characterises `SplitN`. Go strings are byte strings; a
 `char` here stands for one byte.
 */
module GoStrings {

  /** Position of the first `c` in `s`, or -1 when `s` has none. */
  function Index(s: string, c: char): (i: int)
    ensures -1 <= i < |s|
    ensures i == -1 <==> c !in s
    ensures 0 <= i ==> s[i] == c && c !in s[..i]
    decreases |s|
  {
    if |s| == 0 then -1
    else if s[0] == c then 0
    else
      var j := Index(s[1..], c);
      assert s[1..] == s[..|s|][1..];
      if j < 0 then -1
      else
        assert s[..j + 1] == [s[0]] + s[1..][..j];
        j + 1
  }

  /** The parts of `parts`, separated by `c`. */
  function Join(parts: seq<string>, c: char): string
  {
    if |parts| == 0 then ""
    else if |parts| == 1 then parts[0]
    else parts[0] + [c] + Join(parts[1..], c)
  }

  /** What `SplitN(s, c, n)` promises of its result `parts`. */
  predicate SplitContract(s: string, c: char, n: int, parts: seq<string>) {
    && (n == 0 ==> parts == [])
    && (n != 0 ==> 1 <= |parts| && (n > 0 ==> |parts| <= n))
    && (n != 0 ==> Join(parts, c) == s)
    && (forall k :: 0 <= k < |parts| - 1 ==> c !in parts[k])
    && (n != 0 && (n < 0 || |parts| < n) ==> c !in parts[|parts| - 1])
  }

  /**
   `strings.SplitN(s, string(c), n)`: for n == 0 no parts at all; for n > 0
   at most n parts, the last one holding the unsplit remainder; for n < 0
   every part. The parts join back to `s`, no part but the last contains
   `c`, and the last contains none either unless the limit was reached.
   */
  function SplitN(s: string, c: char, n: int): (parts: seq<string>)
    ensures SplitContract(s, c, n, parts)
    decreases |s|
  {
    if n == 0 then []
    else
      var i := Index(s, c);
      if n == 1 || i < 0 then [s]
      else
        var rest := SplitN(s[i + 1..], c, if n < 0 then n else n - 1);
        SplitStep(s, c, n, i, rest);
        [s[..i]] + rest
  }

  /**
   One step of `SplitN`: the part before the first separator, in front of
   a correct split of what follows it, is a correct split of the whole.
   */
  lemma SplitStep(s: string, c: char, n: int, i: nat, rest: seq<string>)
    requires n != 0 && n != 1
    requires i < |s| && s[i] == c && c !in s[..i]
    requires SplitContract(s[i + 1..], c, if n < 0 then n else n - 1, rest)
    ensures SplitContract(s, c, n, [s[..i]] + rest)
  {
    var parts := [s[..i]] + rest;
    assert parts[1..] == rest;
    assert |parts| == |rest| + 1;
    assert parts[|parts| - 1] == rest[|rest| - 1];
    assert s == s[..i] + [c] + s[i + 1..];
    forall k | 0 <= k < |parts| - 1 ensures c !in parts[k] {
      if k > 0 {
        assert parts[k] == rest[k - 1];
      }
    }
  }

  /** Splitting at a first separator behind `a` yields `a` and the split of the rest. */
  lemma SplitNFirst(a: string, rest: string, c: char, n: int)
    requires c !in a
    requires n >= 2
    ensures SplitN(a + [c] + rest, c, n) == [a] + SplitN(rest, c, n - 1)
  {
    var s := a + [c] + rest;
    IndexFirst(a, rest, c);
    assert s[..|a|] == a;
    assert s[|a| + 1..] == rest;
  }

  /** `Index` finds the separator placed right after a part without one. */
  lemma {:induction false} IndexFirst(a: string, rest: string, c: char)
    requires c !in a
    ensures Index(a + [c] + rest, c) == |a|
    decreases |a|
  {
    var s := a + [c] + rest;
    if |a| > 0 {
      assert s[0] == a[0];
      assert s[1..] == a[1..] + [c] + rest;
      IndexFirst(a[1..], rest, c);
    }
  }
}
