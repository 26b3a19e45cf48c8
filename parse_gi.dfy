/**
 * alnParseGI: extract the gi number from every alignment header
 * (`h.split(delim)[1]`) and write them one per line.
 */
module ParseGi {
  import opened Wrappers
  import opened Text

  /** The exceptions the extraction can raise; either one aborts the run before the output is opened. */
  datatype ExtractError =
    | EmptySeparator          // ValueError: Python refuses to split on ""
    | MissingField(header: string)  // IndexError: the header has no delimiter, so no field 1

  /** The `--delim` default. */
  const DefaultDelim: string := "_"

  /**
   * `h` is `a + d + g + rest` where the `d` after `a` starts at `i`, it is
   * the first occurrence of `d` in `h`, `g` holds no occurrence of `d`, and
   * `rest` is empty or begins with `d`: `g` is field 1 of `h` split on `d`.
   */
  ghost predicate Field1At(h: string, d: string, i: nat, g: string) {
    var e := i + |d| + |g|;
    && e <= |h|
    && MatchAt(h, d, i)
    && h[i + |d|..e] == g
    && NoMatchIn(h, d, 0, i)
    && NoMatchIn(h, d, i + |d|, e)
    && (e == |h| || MatchAt(h, d, e))
  }

  /** Field 1 of `h.split(d)`, or the exception Python raises. */
  function GiOf(h: string, d: string): (r: Result<string, ExtractError>)
    ensures d == [] <==> r == Err(EmptySeparator)
    ensures r.Err? ==> r == Err(EmptySeparator) || r == Err(MissingField(h))
  {
    if d == [] then Err(EmptySeparator)
    else
      var parts := Split(h, d);
      if |parts| < 2 then Err(MissingField(h)) else Ok(parts[1])
  }

  /** The text of `t` up to the first occurrence of `d`, or all of `t`. */
  function FirstPiece(t: string, d: string): string {
    match FindFrom(t, d, 0)
    case None => t
    case Some(j) => t[..j]
  }

  /** No delimiter: the split has one piece and field 1 is missing. */
  lemma GiOfNone(h: string, d: string)
    requires d != []
    ensures FindFrom(h, d, 0).None? ==> GiOf(h, d) == Err(MissingField(h))
  {
    if FindFrom(h, d, 0).None? {
      assert Split(h, d) == [h];
    }
  }

  /** A delimiter at `i`: field 1 is the first piece of the rest of the header. */
  lemma GiOfSome(h: string, d: string, i: nat)
    requires d != [] && FindFrom(h, d, 0) == Some(i)
    ensures GiOf(h, d) == Ok(FirstPiece(h[i + |d|..], d))
  {
    var t := h[i + |d|..];
    var tail := Split(t, d);
    assert Split(h, d) == [h[..i]] + tail;
    assert Split(h, d)[1] == tail[0];
    SplitHead(t, d);
  }

  /** With a non-empty delimiter, the extraction fails exactly when the header does not contain it. */
  lemma GiOfMissing(h: string, d: string)
    requires d != []
    ensures GiOf(h, d) == Err(MissingField(h)) <==> NoMatchIn(h, d, 0, |h| + 1)
  {
    GiOfNone(h, d);
    if FindFrom(h, d, 0).Some? {
      GiOfSome(h, d, FindFrom(h, d, 0).value);
    }
  }

  /** The first piece of a split is the text up to the first occurrence of the separator. */
  lemma SplitHead(t: string, d: string)
    requires d != []
    ensures Split(t, d)[0] == FirstPiece(t, d)
  {
  }

  /** The first piece runs up to the first occurrence of `d`, or to the end when there is none. */
  lemma FirstPieceBounds(t: string, d: string)
    ensures |FirstPiece(t, d)| <= |t| && FirstPiece(t, d) == t[..|FirstPiece(t, d)|]
    ensures NoMatchIn(t, d, 0, |FirstPiece(t, d)|)
    ensures |FirstPiece(t, d)| == |t| || MatchAt(t, d, |FirstPiece(t, d)|)
  {
  }

  /** A found gi sits between the first occurrence of the delimiter and the next one (or the end). */
  lemma GiOfField1(h: string, d: string) returns (i: nat)
    requires d != [] && GiOf(h, d).Ok?
    ensures Field1At(h, d, i, GiOf(h, d).value)
  {
    GiOfNone(h, d);
    i := FindFrom(h, d, 0).value;
    GiOfSome(h, d, i);
    FirstPieceField1(h, d, i);
  }

  /** The first piece after the first occurrence of the delimiter is in field-1 position. */
  lemma FirstPieceField1(h: string, d: string, i: nat)
    requires FindFrom(h, d, 0) == Some(i)
    ensures Field1At(h, d, i, FirstPiece(h[i + |d|..], d))
  {
    var t := h[i + |d|..];
    FirstPieceBounds(t, d);
    PieceField1(h, d, i, FirstPiece(t, d));
  }

  /** A piece of the suffix after the first occurrence of `d` that runs to the next one (or the end) is field 1. */
  lemma PieceField1(h: string, d: string, i: nat, g: string)
    requires i + |d| <= |h| && MatchAt(h, d, i) && NoMatchIn(h, d, 0, i)
    requires |g| <= |h| - i - |d| && g == h[i + |d|..][..|g|] && NoMatchIn(h[i + |d|..], d, 0, |g|)
    requires |g| == |h| - i - |d| || MatchAt(h[i + |d|..], d, |g|)
    ensures Field1At(h, d, i, g)
  {
    var off := i + |d|;
    var e := off + |g|;
    assert h[off..e] == g;
    assert NoMatchIn(h, d, off, e) by {
      NoMatchShifted(h, d, off, 0, |g|);
    }
    assert e == |h| || MatchAt(h, d, e) by {
      if e < |h| {
        MatchShift(h, d, off, |g|);
      }
    }
    Field1AtIntro(h, d, i, g);
  }

  /** The conjuncts of `Field1At`, one requirement each. */
  lemma Field1AtIntro(h: string, d: string, i: nat, g: string)
    requires i + |d| + |g| <= |h| && MatchAt(h, d, i) && NoMatchIn(h, d, 0, i)
    requires h[i + |d|..i + |d| + |g|] == g && NoMatchIn(h, d, i + |d|, i + |d| + |g|)
    requires i + |d| + |g| == |h| || MatchAt(h, d, i + |d| + |g|)
    ensures Field1At(h, d, i, g)
  {
  }

  /** A stretch of a suffix free of `d` is the same stretch of the whole string, shifted. */
  lemma NoMatchShifted(h: string, d: string, off: nat, lo: nat, hi: nat)
    requires off <= |h| && NoMatchIn(h[off..], d, lo, hi)
    ensures NoMatchIn(h, d, off + lo, off + hi)
  {
    forall j | off + lo <= j < off + hi ensures !MatchAt(h, d, j) {
      MatchShift(h, d, off, j - off);
    }
  }

  /** Conversely, text in that position is what the extraction returns. */
  lemma Field1GiOf(h: string, d: string, i: nat, g: string)
    requires d != [] && Field1At(h, d, i, g)
    ensures GiOf(h, d) == Ok(g)
  {
    FindFirst(h, d, 0, i);
    GiOfSome(h, d, i);
    Field1Suffix(h, d, i, g);
    PieceIsFirst(h[i + |d|..], d, g);
  }

  /** Seen from the suffix after the first occurrence of `d`, the text in field-1 position runs up to the next one. */
  lemma Field1Suffix(h: string, d: string, i: nat, g: string)
    requires Field1At(h, d, i, g)
    ensures |g| <= |h[i + |d|..]| && g == h[i + |d|..][..|g|]
    ensures NoMatchIn(h[i + |d|..], d, 0, |g|)
    ensures |g| == |h[i + |d|..]| || MatchAt(h[i + |d|..], d, |g|)
  {
    var off := i + |d|;
    var t := h[off..];
    assert g == t[..|g|];
    forall j | 0 <= j < |g| ensures !MatchAt(t, d, j) {
      MatchShift(h, d, off, j);
    }
    if |g| < |t| {
      MatchShift(h, d, off, |g|);
    }
  }

  /** A prefix of `t` that runs up to the first occurrence of `d` (or the end) is the first piece. */
  lemma PieceIsFirst(t: string, d: string, g: string)
    requires d != [] && |g| <= |t| && g == t[..|g|] && NoMatchIn(t, d, 0, |g|)
    requires |g| == |t| || MatchAt(t, d, |g|)
    ensures FirstPiece(t, d) == g
  {
    if |g| == |t| {
      assert g == t;
      assert NoMatchIn(t, d, 0, |t| + 1) by {
        forall j | |g| <= j ensures !MatchAt(t, d, j) { }
      }
      assert FindFrom(t, d, 0).None?;
    } else {
      FindFirst(t, d, 0, |g|);
    }
  }

  /** The gi is exactly the text between the first and the second occurrence of the delimiter (or the end). */
  lemma GiOfIsField1(h: string, d: string, g: string)
    requires d != []
    ensures GiOf(h, d) == Ok(g) <==> exists i: nat :: Field1At(h, d, i, g)
  {
    if GiOf(h, d) == Ok(g) {
      var i := GiOfField1(h, d);
    }
    if i: nat :| Field1At(h, d, i, g) {
      Field1GiOf(h, d, i, g);
    }
  }

  /** The gi never contains the delimiter, and the header splits around it as `a + d + gi + rest`. */
  lemma GiShape(h: string, d: string, g: string) returns (a: string, rest: string)
    requires d != [] && GiOf(h, d) == Ok(g)
    ensures h == a + d + g + rest
    ensures NoMatchIn(h, d, 0, |a|)
    ensures NoMatchIn(g, d, 0, |g| + 1)
    ensures rest == [] || MatchAt(rest, d, 0)
  {
    var i := GiOfField1(h, d);
    a, rest := Field1Shape(h, d, i, g);
  }

  /** The split of a header around the text in field-1 position. */
  lemma Field1Shape(h: string, d: string, i: nat, g: string) returns (a: string, rest: string)
    requires d != [] && Field1At(h, d, i, g)
    ensures h == a + d + g + rest
    ensures NoMatchIn(h, d, 0, |a|)
    ensures NoMatchIn(g, d, 0, |g| + 1)
    ensures rest == [] || MatchAt(rest, d, 0)
  {
    var e := i + |d| + |g|;
    a, rest := h[..i], h[e..];
    Field1Pieces(h, d, i, g);
    SliceFree(h, d, i + |d|, e);
    if e < |h| {
      MatchShift(h, d, e, 0);
    }
  }

  lemma Field1Pieces(h: string, d: string, i: nat, g: string)
    requires d != [] && Field1At(h, d, i, g)
    ensures h == h[..i] + d + g + h[i + |d| + |g|..]
  {
    Cut3(h, i, i + |d|, i + |d| + |g|);
    MatchText(h, d, i);
  }

  /**
   * `[h.split(d)[1] for h in headers]`: one gi per header, in header
   * order; the first header that has no field 1 raises and ends the run.
   */
  function ExtractGis(headers: seq<string>, d: string): (r: Result<seq<string>, ExtractError>)
    ensures r.Ok? <==> forall k :: 0 <= k < |headers| ==> GiOf(headers[k], d).Ok?
    ensures r.Ok? ==> |r.value| == |headers|
                      && forall k :: 0 <= k < |headers| ==> GiOf(headers[k], d) == Ok(r.value[k])
    ensures r.Err? ==> exists k :: 0 <= k < |headers| && GiOf(headers[k], d) == Err(r.error)
                                   && forall j :: 0 <= j < k ==> GiOf(headers[j], d).Ok?
    decreases |headers|
  {
    if |headers| == 0 then Ok([])
    else
      match GiOf(headers[0], d)
      case Err(e) => Err(e)
      case Ok(g) =>
        match ExtractGis(headers[1..], d)
        case Err(e) => Err(e)
        case Ok(gs) => Ok([g] + gs)
  }

  /** What the script writes to the output file: each gi followed by a newline. */
  function GiFile(gis: seq<string>): string {
    Terminated(gis)
  }

  /** The whole script: the output text, or the exception that stops it before the file is opened. */
  function ParseGi(headers: seq<string>, d: string): (r: Result<string, ExtractError>)
    ensures r.Ok? <==> ExtractGis(headers, d).Ok?
    ensures r.Err? ==> r.error == ExtractGis(headers, d).error
  {
    match ExtractGis(headers, d)
    case Err(e) => Err(e)
    case Ok(gis) => Ok(GiFile(gis))
  }

  /**
   * Read back line by line, the output holds exactly one line per header,
   * in order, each the gi of that header (when no gi contains a newline).
   */
  lemma {:induction false} GiFileLines(headers: seq<string>, d: string, gis: seq<string>)
    requires ExtractGis(headers, d) == Ok(gis)
    requires forall k :: 0 <= k < |gis| ==> Free(gis[k], '\n')
    ensures ParseGi(headers, d) == Ok(GiFile(gis))
    ensures Split(GiFile(gis), "\n") == gis + [""]
    ensures |gis| == |headers|
  {
    SplitTerminated(gis);
  }

  /** With the default delimiter, a Blast-style header yields the number between the first two underscores. */
  lemma DefaultDelimExample()
    ensures GiOf("seq1_123_x", DefaultDelim) == Ok("123")
  {
    var h := "seq1_123_x";
    forall j | 0 <= j < 4 ensures !MatchAt(h, "_", j) {
      assert h[j + 0] != "_"[0];
    }
    forall j | 5 <= j < 8 ensures !MatchAt(h, "_", j) {
      assert h[j + 0] != "_"[0];
    }
    assert h[4 + 0] == "_"[0] && h[8 + 0] == "_"[0] && h[5..8] == "123";
    Field1GiOf(h, "_", 4, "123");
  }

  /** A header without the delimiter stops the run: no output at all. */
  lemma MissingDelimiterAborts(headers: seq<string>, d: string, k: nat)
    requires d != [] && k < |headers| && NoMatchIn(headers[k], d, 0, |headers[k]| + 1)
    ensures ParseGi(headers, d).Err?
  {
    GiOfMissing(headers[k], d);
  }
}
