/**
 * The two string primitives the line format rests on: Python's `str.strip()`
 * with no argument, and `str.split(sep)` with a one-character separator.
 */
module Text {

  /** The characters for which Python's `str.isspace()` holds. */
  predicate IsSpace(c: char)
  {
    || '\t' <= c <= '\r'
    || '\U{1c}' <= c <= ' '
    || c == '\U{85}' || c == '\U{a0}' || c == '\U{1680}'
    || '\U{2000}' <= c <= '\U{200a}'
    || c == '\U{2028}' || c == '\U{2029}' || c == '\U{202f}' || c == '\U{205f}' || c == '\U{3000}'
  }

  /** True when `s` neither starts nor ends with whitespace. */
  predicate Trimmed(s: string)
  {
    |s| == 0 || (!IsSpace(s[0]) && !IsSpace(s[|s| - 1]))
  }

  /** The first index at or after `i` that does not hold whitespace (`|s|` if there is none). */
  function SkipSpace(s: string, i: nat): (k: nat)
    requires i <= |s|
    ensures i <= k <= |s|
    ensures forall j :: i <= j < k ==> IsSpace(s[j])
    ensures k < |s| ==> !IsSpace(s[k])
    decreases |s| - i
  {
    if i == |s| || !IsSpace(s[i]) then i else SkipSpace(s, i + 1)
  }

  /** The end of `s[lo..e]` once its trailing whitespace is dropped. */
  function TrimEnd(s: string, lo: nat, e: nat): (k: nat)
    requires lo <= e <= |s|
    ensures lo <= k <= e
    ensures forall j :: k <= j < e ==> IsSpace(s[j])
    ensures k > lo ==> !IsSpace(s[k - 1])
    decreases e
  {
    if e == lo || !IsSpace(s[e - 1]) then e else TrimEnd(s, lo, e - 1)
  }

  /** How many whitespace characters `s.strip()` removes from the front of `s`. */
  function LeadingSpace(s: string): nat
  {
    SkipSpace(s, 0)
  }

  /**
   * Python's `s.strip()`: the slice of `s` left after removing the leading
   * and the trailing whitespace. Everything removed is whitespace, and what
   * remains neither starts nor ends with whitespace.
   */
  function Strip(s: string): (r: string)
    ensures Trimmed(r)
    ensures LeadingSpace(s) + |r| <= |s|
    ensures r == s[LeadingSpace(s)..LeadingSpace(s) + |r|]
    ensures forall i :: 0 <= i < LeadingSpace(s) ==> IsSpace(s[i])
    ensures forall i :: LeadingSpace(s) + |r| <= i < |s| ==> IsSpace(s[i])
  {
    var lo := SkipSpace(s, 0);
    var hi := TrimEnd(s, lo, |s|);
    s[lo..hi]
  }

  /** Stripping a string that has no surrounding whitespace gives it back. */
  lemma StripTrimmed(s: string)
    requires Trimmed(s)
    ensures Strip(s) == s
  {
  }

  /** How many times `d` occurs in `s`. */
  function Occurrences(s: string, d: char): nat
  {
    if |s| == 0 then 0 else (if s[0] == d then 1 else 0) + Occurrences(s[1..], d)
  }

  /**
   * Python's `s.split(d)`: the pieces between the occurrences of `d`, in
   * order; there is always one more piece than there are separators.
   */
  function Split(s: string, d: char): (fields: seq<string>)
    ensures |fields| == Occurrences(s, d) + 1
    ensures forall i :: 0 <= i < |fields| ==> d !in fields[i]
  {
    if |s| == 0 then [""]
    else
      var rest := Split(s[1..], d);
      if s[0] == d then [""] + rest
      else [[s[0]] + rest[0]] + rest[1..]
  }

  /** The inverse of `Split`: the fields glued back together with `d`. */
  function Join(fields: seq<string>, d: char): (s: string)
    requires |fields| >= 1
    ensures |fields| == 1 ==> s == fields[0]
    ensures |s| >= |fields| - 1
  {
    if |fields| == 1 then fields[0] else fields[0] + [d] + Join(fields[1..], d)
  }

  /** Splitting loses nothing: joining the fields rebuilds the string. */
  lemma {:induction false} JoinSplit(s: string, d: char)
    ensures Join(Split(s, d), d) == s
    decreases |s|
  {
    if |s| > 0 {
      JoinSplit(s[1..], d);
      var rest := Split(s[1..], d);
      var fs := Split(s, d);
      if s[0] != d {
        assert fs[0] == [s[0]] + rest[0];
        if |rest| == 1 {
          assert Join(fs, d) == [s[0]] + rest[0];
        } else {
          var tail := Join(rest[1..], d);
          assert fs[1..] == rest[1..];
          assert Join(fs, d) == ([s[0]] + rest[0]) + [d] + tail;
          assert Join(rest, d) == rest[0] + [d] + tail;
          assert ([s[0]] + rest[0]) + [d] + tail == [s[0]] + (rest[0] + [d] + tail);
        }
      } else {
        assert fs[1..] == rest;
        assert Join(fs, d) == "" + [d] + Join(rest, d);
      }
      assert s == [s[0]] + s[1..];
    }
  }

  /** A piece free of the separator, followed by the rest, splits at its end. */
  lemma {:induction false} SplitAfterPiece(a: string, d: char, t: string)
    requires d !in a
    ensures Split(a + t, d) == [a + Split(t, d)[0]] + Split(t, d)[1..]
    decreases |a|
  {
    if |a| > 0 {
      assert (a + t)[1..] == a[1..] + t;
      assert (a + t)[0] == a[0];
      SplitAfterPiece(a[1..], d, t);
      assert [a[0]] + (a[1..] + Split(t, d)[0]) == a + Split(t, d)[0];
    } else {
      assert a + t == t;
      assert Split(t, d) == [Split(t, d)[0]] + Split(t, d)[1..];
      assert a + Split(t, d)[0] == Split(t, d)[0];
    }
  }

  /** Joining separator-free fields and splitting again gives the fields back. */
  lemma {:induction false} SplitJoin(fields: seq<string>, d: char)
    requires |fields| >= 1
    requires forall i :: 0 <= i < |fields| ==> d !in fields[i]
    ensures Split(Join(fields, d), d) == fields
    decreases |fields|
  {
    if |fields| == 1 {
      SplitAfterPiece(fields[0], d, "");
      assert fields[0] + "" == fields[0];
    } else {
      var tail := Join(fields[1..], d);
      SplitJoin(fields[1..], d);
      assert Join(fields, d) == fields[0] + ([d] + tail);
      assert ([d] + tail)[1..] == tail;
      assert ([d] + tail)[0] == d;
      assert Split([d] + tail, d) == [""] + fields[1..];
      SplitAfterPiece(fields[0], d, [d] + tail);
      assert fields[0] + "" == fields[0];
      assert [fields[0]] + fields[1..] == fields;
    }
  }
}
