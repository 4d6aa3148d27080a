/**
 * The few java.lang.String operations the store relies on, over `seq<char>`:
 * splitting at a separator, joining path segments, `replace(char, char)` and
 * `replace(target, "")`.
 */
module Strings {

  /** `java.io.File.separator` on the platforms the store runs on. */
  const Sep: char := '/'

  /** Splits `s` at every `c`, keeping empty pieces: `a//b` gives `a`, the empty string and `b`. */
  function Split(s: string, c: char): (r: seq<string>)
    ensures |r| >= 1
    decreases |s|
  {
    if s == [] then [[]]
    else
      var rest := Split(s[1..], c);
      if s[0] == c then [[]] + rest
      else [[s[0]] + rest[0]] + rest[1..]
  }

  /** The path string of a segment sequence: the segments joined by the separator. */
  function Join(p: seq<string>): string
    decreases |p|
  {
    if |p| == 0 then []
    else if |p| == 1 then p[0]
    else p[0] + [Sep] + Join(p[1..])
  }

  /** `s.replace(from, to)` for single characters. */
  function ReplaceChar(s: string, from: char, to: char): (r: string)
    ensures |r| == |s|
    decreases |s|
  {
    if s == [] then []
    else [if s[0] == from then to else s[0]] + ReplaceChar(s[1..], from, to)
  }

  /** Whether `t` is a contiguous substring of `s` (the empty string occurs everywhere). */
  predicate Occurs(t: string, s: string)
    decreases |s|
  {
    if |s| < |t| then false
    else s[..|t|] == t || (s != [] && Occurs(t, s[1..]))
  }

  /**
   * `s.replace(t, "")`: deletes the non-overlapping occurrences of `t` found
   * scanning left to right. An empty `t` leaves `s` as it is.
   */
  function RemoveAll(s: string, t: string): (r: string)
    ensures |r| <= |s|
    ensures |t| == 1 ==> t[0] !in r
    decreases |s|
  {
    if t == [] || |s| < |t| then s
    else if s[..|t|] == t then RemoveAll(s[|t|..], t)
    else [s[0]] + RemoveAll(s[1..], t)
  }

  /** A string without the separator character is one piece. */
  lemma {:induction false} SplitWithout(s: string, c: char)
    requires c !in s
    ensures Split(s, c) == [s]
    decreases |s|
  {
    if s != [] {
      SplitWithout(s[1..], c);
      assert [s[0]] + s[1..] == s;
    }
  }

  /** Splitting distributes over a separator placed between two strings. */
  lemma {:induction false} SplitAppend(a: string, b: string, c: char)
    ensures Split(a + [c] + b, c) == Split(a, c) + Split(b, c)
    decreases |a|
  {
    var s := a + [c] + b;
    if a == [] {
      assert s[1..] == b;
    } else {
      assert s[1..] == a[1..] + [c] + b;
      SplitAppend(a[1..], b, c);
    }
  }

  /** Joining separator-free segments and splitting again gives the segments back. */
  lemma {:induction false} SplitJoin(p: seq<string>)
    requires |p| >= 1
    requires forall i | 0 <= i < |p| :: Sep !in p[i]
    ensures Split(Join(p), Sep) == p
    decreases |p|
  {
    SplitWithout(p[0], Sep);
    if |p| > 1 {
      SplitJoin(p[1..]);
      SplitAppend(p[0], Join(p[1..]), Sep);
      assert p == [p[0]] + p[1..];
    }
  }

  /** The path string of two non-empty segment sequences put together. */
  lemma {:induction false} JoinAppend(a: seq<string>, b: seq<string>)
    requires |a| >= 1 && |b| >= 1
    ensures Join(a + b) == Join(a) + [Sep] + Join(b)
    decreases |a|
  {
    if |a| > 1 {
      assert (a + b)[1..] == a[1..] + b;
      JoinAppend(a[1..], b);
    } else {
      assert (a + b)[1..] == b;
    }
  }

  /** Deleting a single character distributes over concatenation. */
  lemma {:induction false} RemoveCharAppend(a: string, b: string, c: char)
    ensures RemoveAll(a + b, [c]) == RemoveAll(a, [c]) + RemoveAll(b, [c])
    decreases |a|
  {
    if a != [] {
      assert (a + b)[1..] == a[1..] + b;
      RemoveCharAppend(a[1..], b, c);
    } else {
      assert a + b == b;
    }
  }

  /** A string in which `c` does not occur is left alone by deleting `c`. */
  lemma {:induction false} RemoveCharAbsent(s: string, c: char)
    requires c !in s
    ensures RemoveAll(s, [c]) == s
    decreases |s|
  {
    if s != [] {
      RemoveCharAbsent(s[1..], c);
      assert [s[0]] + s[1..] == s;
    }
  }

  /** A string in which `t` does not occur is left alone by `replace(t, "")`. */
  lemma {:induction false} RemoveAllAbsent(s: string, t: string)
    requires !Occurs(t, s)
    ensures RemoveAll(s, t) == s
    decreases |s|
  {
    if |s| >= |t| && s != [] {
      RemoveAllAbsent(s[1..], t);
      assert [s[0]] + s[1..] == s;
    }
  }

  /** Replacing `from` by a character the string lacks, then splitting at it, splits at `from`. */
  lemma {:induction false} SplitReplaceChar(s: string, from: char, to: char)
    requires to !in s
    ensures Split(ReplaceChar(s, from, to), to) == Split(s, from)
    decreases |s|
  {
    if s != [] {
      var r := ReplaceChar(s, from, to);
      assert r[1..] == ReplaceChar(s[1..], from, to);
      SplitReplaceChar(s[1..], from, to);
    }
  }
}
