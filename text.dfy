/**
 * The few Python string operations the two scripts rely on, over `string`
 * (a sequence of characters): `str.find`, `str.split(sep)` with an explicit
 * separator, `sep.join(parts)`, and text written as lines each followed by
 * a newline.
 */
module Text {
  import opened Wrappers

  /** The separator `d` occurs in `s` starting at index `j`. */
  predicate MatchAt(s: string, d: string, j: int) {
    0 <= j && j + |d| <= |s| && forall k :: 0 <= k < |d| ==> s[j + k] == d[k]
  }

  /** `s` contains no occurrence of `d` starting in `[lo, hi)`. */
  predicate NoMatchIn(s: string, d: string, lo: int, hi: int) {
    forall j :: lo <= j < hi ==> !MatchAt(s, d, j)
  }

  /** The lowest index at or after `from` where `d` occurs in `s` (Python's `s.find(d, from)`). */
  function FindFrom(s: string, d: string, from: nat): (r: Option<nat>)
    ensures r.Some? ==> from <= r.value && MatchAt(s, d, r.value) && NoMatchIn(s, d, from, r.value)
    ensures r.None? ==> NoMatchIn(s, d, from, |s| + 1)
    decreases |s| - from
  {
    if from + |d| > |s| then None
    else if MatchAt(s, d, from) then Some(from)
    else FindFrom(s, d, from + 1)
  }

  /** A match with none before it is the one `FindFrom` returns. */
  lemma FindFirst(s: string, d: string, from: nat, k: nat)
    requires from <= k && MatchAt(s, d, k) && NoMatchIn(s, d, from, k)
    ensures FindFrom(s, d, from) == Some(k)
  {
  }

  /** Matching in a suffix is matching in the whole string, shifted. */
  lemma MatchShift(s: string, d: string, off: nat, j: nat)
    requires off <= |s|
    ensures MatchAt(s[off..], d, j) <==> MatchAt(s, d, off + j)
  {
    if MatchAt(s, d, off + j) {
      forall k | 0 <= k < |d| ensures s[off..][j + k] == d[k] {
        assert s[off + j + k] == d[k];
      }
    }
  }

  /** A match inside a slice is a match in the whole string, shifted. */
  lemma MatchInSlice(s: string, d: string, lo: nat, hi: nat, j: nat)
    requires lo <= hi <= |s|
    ensures MatchAt(s[lo..hi], d, j) ==> MatchAt(s, d, lo + j)
  {
    if MatchAt(s[lo..hi], d, j) {
      forall k | 0 <= k < |d| ensures s[lo + j + k] == d[k] {
        assert s[lo..hi][j + k] == d[k];
      }
    }
  }

  /** A slice taken where `h` has no occurrence of `d` contains none. */
  lemma SliceFree(h: string, d: string, lo: nat, hi: nat)
    requires d != [] && lo <= hi <= |h| && NoMatchIn(h, d, lo, hi)
    ensures NoMatchIn(h[lo..hi], d, 0, hi - lo + 1)
  {
    forall j | 0 <= j < hi - lo + 1 ensures !MatchAt(h[lo..hi], d, j) {
      MatchInSlice(h, d, lo, hi, j);
    }
  }

  /** The text before a first match contains no match, up to its end. */
  lemma PrefixFree(s: string, d: string, i: nat)
    requires d != [] && i <= |s| && NoMatchIn(s, d, 0, i)
    ensures NoMatchIn(s[..i], d, 0, i + 1)
  {
    SliceFree(s, d, 0, i);
    assert s[0..i] == s[..i];
  }

  /** The text of a match is the separator. */
  lemma MatchText(s: string, d: string, j: nat)
    requires MatchAt(s, d, j)
    ensures s[j..j + |d|] == d
  {
    forall k | 0 <= k < |d| ensures s[j..j + |d|][k] == d[k] {
      assert s[j + k] == d[k];
    }
  }

  /** Python's `s.split(d)` for a non-empty separator `d`. */
  function Split(s: string, d: string): (parts: seq<string>)
    requires d != []
    ensures |parts| >= 1
    decreases |s|
  {
    match FindFrom(s, d, 0)
    case None => [s]
    case Some(i) => [s[..i]] + Split(s[i + |d|..], d)
  }

  /** A split with no occurrence of the separator is the whole string. */
  lemma SplitNone(s: string, d: string)
    requires d != [] && FindFrom(s, d, 0).None?
    ensures Split(s, d) == [s]
  {
  }

  /** A split cuts at the first occurrence of the separator and goes on after it. */
  lemma SplitAtFirst(s: string, d: string, i: nat)
    requires d != [] && FindFrom(s, d, 0) == Some(i)
    ensures Split(s, d) == [s[..i]] + Split(s[i + |d|..], d)
  {
  }

  /** Python's `sep.join(parts)`. */
  function Join(sep: string, parts: seq<string>): string
    decreases |parts|
  {
    if |parts| == 0 then []
    else if |parts| == 1 then parts[0]
    else parts[0] + sep + Join(sep, parts[1..])
  }

  /** Joining the pieces of a split with the same separator gives back the string. */
  lemma {:induction false} JoinSplit(s: string, d: string)
    requires d != []
    ensures Join(d, Split(s, d)) == s
    decreases |s|
  {
    var r := FindFrom(s, d, 0);
    if r.None? {
      SplitNone(s, d);
    } else {
      var i := r.value;
      var rest := s[i + |d|..];
      JoinSplit(rest, d);
      SplitAtFirst(s, d, i);
      JoinCons(d, s[..i], Split(rest, d));
      MatchText(s, d, i);
      Cut2(s, i, i + |d|);
    }
  }

  /** Joining a piece in front of a non-empty list puts one separator after it. */
  lemma JoinCons(sep: string, x: string, tail: seq<string>)
    requires |tail| >= 1
    ensures Join(sep, [x] + tail) == x + sep + Join(sep, tail)
  {
    assert ([x] + tail)[1..] == tail;
  }

  /** No piece of a split contains the separator. */
  lemma {:induction false} SplitPiecesFree(s: string, d: string, k: nat)
    requires d != [] && k < |Split(s, d)|
    ensures NoMatchIn(Split(s, d)[k], d, 0, |Split(s, d)[k]| + 1)
    decreases |s|
  {
    var r := FindFrom(s, d, 0);
    if r.Some? {
      var i := r.value;
      if k == 0 {
        PrefixFree(s, d, i);
      } else {
        SplitPiecesFree(s[i + |d|..], d, k - 1);
      }
    }
  }

  /** `s` with every `a` replaced by `b`. */
  function ReplaceChar(s: string, a: char, b: char): (r: string)
    ensures |r| == |s|
    decreases |s|
  {
    if |s| == 0 then [] else [if s[0] == a then b else s[0]] + ReplaceChar(s[1..], a, b)
  }

  /** Each character of the result is the one at the same index, replaced when it is `a`. */
  lemma {:induction false} ReplaceCharAt(s: string, a: char, b: char, k: nat)
    requires k < |s|
    ensures ReplaceChar(s, a, b)[k] == if s[k] == a then b else s[k]
    decreases |s|
  {
    if k > 0 {
      ReplaceCharAt(s[1..], a, b, k - 1);
    }
  }

  /** Replacing in a concatenation replaces in each part. */
  lemma {:induction false} ReplaceCharAppend(x: string, y: string, a: char, b: char)
    ensures ReplaceChar(x + y, a, b) == ReplaceChar(x, a, b) + ReplaceChar(y, a, b)
    decreases |x|
  {
    if |x| == 0 {
      assert x + y == y;
    } else {
      assert (x + y)[1..] == x[1..] + y;
      ReplaceCharAppend(x[1..], y, a, b);
    }
  }

  /** Text without `a` is left as it is. */
  lemma ReplaceCharFree(s: string, a: char, b: char)
    requires Free(s, a)
    ensures ReplaceChar(s, a, b) == s
  {
    forall k | 0 <= k < |s| ensures ReplaceChar(s, a, b)[k] == s[k] {
      ReplaceCharAt(s, a, b, k);
    }
  }

  /** A string with no one-character match of `[a]` is free of `a`. */
  lemma NoMatchFree(s: string, a: char, hi: nat)
    requires hi <= |s| && NoMatchIn(s, [a], 0, hi)
    ensures Free(s[..hi], a)
  {
    forall k | 0 <= k < hi ensures s[k] != a {
      assert !MatchAt(s, [a], k);
    }
  }

  /** `b.join(s.split(a))` for one-character `a` and `b` replaces every `a` by `b`. */
  lemma {:induction false} JoinSplitReplaces(s: string, a: char, b: char)
    ensures Join([b], Split(s, [a])) == ReplaceChar(s, a, b)
    decreases |s|
  {
    match FindFrom(s, [a], 0)
    case None =>
      SplitNone(s, [a]);
      NoMatchFree(s, a, |s|);
      assert s[..|s|] == s;
      ReplaceCharFree(s, a, b);
    case Some(i) =>
      var rest := s[i + 1..];
      var tail := Split(rest, [a]);
      SplitAtFirst(s, [a], i);
      JoinCons([b], s[..i], tail);
      JoinSplitReplaces(rest, a, b);
      NoMatchFree(s, a, i);
      assert s[i + 0] == [a][0];
      Around(s, i);
      ReplaceAround(s[..i], rest, a, b);
  }

  /** Replacing around an `a` with none before it: the text before is kept, the `a` becomes `b`, the rest is replaced. */
  lemma ReplaceAround(p: string, q: string, a: char, b: char)
    requires Free(p, a)
    ensures ReplaceChar(p + ([a] + q), a, b) == p + [b] + ReplaceChar(q, a, b)
  {
    ReplaceCharAppend(p, [a] + q, a, b);
    ReplaceCharFree(p, a, b);
    ReplaceCharAppend([a], q, a, b);
    ReplaceSingle(a, b);
    Assoc(p, [b], ReplaceChar(q, a, b));
  }

  /** A sequence cut at two points is the three pieces joined. */
  lemma Cut2<T>(s: seq<T>, i: nat, j: nat)
    requires i <= j <= |s|
    ensures s == s[..i] + s[i..j] + s[j..]
  {
  }

  /** A sequence cut at three points is the four pieces joined. */
  lemma Cut3<T>(s: seq<T>, i: nat, j: nat, k: nat)
    requires i <= j <= k <= |s|
    ensures s == s[..i] + s[i..j] + s[j..k] + s[k..]
  {
  }

  lemma Assoc<T>(x: seq<T>, y: seq<T>, z: seq<T>)
    ensures x + (y + z) == x + y + z
  {
  }

  lemma ReplaceSingle(a: char, b: char)
    ensures ReplaceChar([a], a, b) == [b]
  {
    assert [a][1..] == [];
    assert [b] + [] == [b];
  }

  /** A string is the text before index `i`, the character there, and the text after. */
  lemma Around<T>(s: seq<T>, i: nat)
    requires i < |s|
    ensures s == s[..i] + ([s[i]] + s[i + 1..])
  {
  }

  /** `c` does not occur in `s`. */
  predicate Free(s: string, c: char) {
    forall k :: 0 <= k < |s| ==> s[k] != c
  }

  /** The text of `lines`, each followed by a newline (one `write('%s\n' % l)` per line). */
  function Terminated(lines: seq<string>): string
    decreases |lines|
  {
    if |lines| == 0 then []
    else Terminated(lines[..|lines| - 1]) + lines[|lines| - 1] + "\n"
  }

  /** One more line written after `lines`. */
  lemma TerminatedSnoc(lines: seq<string>, l: string)
    ensures Terminated(lines + [l]) == Terminated(lines) + l + "\n"
  {
    assert (lines + [l])[..|lines|] == lines;
  }

  /** Writing two runs of lines one after the other writes their concatenation. */
  lemma {:induction false} TerminatedAppend(a: seq<string>, b: seq<string>)
    ensures Terminated(a + b) == Terminated(a) + Terminated(b)
    decreases |b|
  {
    if b == [] {
      assert a + b == a;
    } else {
      var b', last := b[..|b| - 1], b[|b| - 1];
      assert b == b' + [last];
      assert a + b == (a + b') + [last];
      calc {
        Terminated(a + b);
        { TerminatedSnoc(a + b', last); }
        Terminated(a + b') + last + "\n";
        { TerminatedAppend(a, b'); }
        Terminated(a) + Terminated(b') + last + "\n";
        Terminated(a) + (Terminated(b') + last + "\n");
        { TerminatedSnoc(b', last); }
        Terminated(a) + Terminated(b);
      }
    }
  }

  /** One line written in front of others. */
  lemma TerminatedCons(l: string, rest: seq<string>)
    ensures Terminated([l] + rest) == l + "\n" + Terminated(rest)
  {
    TerminatedAppend([l], rest);
    assert [l][..0] == [];
  }

  /** In a line followed by a newline and more text, the first newline is the one after the line. */
  lemma NewlineFirst(l: string, u: string)
    requires Free(l, '\n')
    ensures FindFrom(l + "\n" + u, "\n", 0) == Some(|l|)
    ensures (l + "\n" + u)[..|l|] == l && (l + "\n" + u)[|l| + 1..] == u
  {
    var t := l + "\n" + u;
    forall j | 0 <= j < |l| ensures !MatchAt(t, "\n", j) {
      assert t[j + 0] == l[j] != "\n"[0];
    }
    assert t[|l| + 0] == "\n"[0];
    FindFirst(t, "\n", 0, |l|);
  }

  /**
   * Reading back newline-terminated lines: splitting the text on newlines
   * gives the lines and one empty string after the last newline, so the text
   * has exactly `|lines|` lines.
   */
  lemma {:induction false} SplitTerminated(lines: seq<string>)
    requires forall k :: 0 <= k < |lines| ==> Free(lines[k], '\n')
    ensures Split(Terminated(lines), "\n") == lines + [""]
    decreases |lines|
  {
    if lines == [] {
      assert FindFrom("", "\n", 0).None?;
      SplitNone("", "\n");
    } else {
      var l, rest := lines[0], lines[1..];
      var u := Terminated(rest);
      assert lines == [l] + rest;
      TerminatedCons(l, rest);
      NewlineFirst(l, u);
      SplitAtFirst(l + "\n" + u, "\n", |l|);
      SplitTerminated(rest);
      assert lines + [""] == [l] + (rest + [""]);
    }
  }
}
