/**
 * annotateMSA, output: for each aligned sequence, a header line built from
 * the record at the same position, then the sequence line.
 */
module Merger {
  import opened Text
  import opened Fetcher

  /** The suffix used when the record at a position cannot be rendered. */
  const Unknown: string := "| unknown "

  /**
   * The header of sequence `i`: `hd[i]`, `|`, the scientific name, `|`
   * and the lineage with `;` turned into `,` when `records[i]` is a record
   * with both keys; otherwise the Python expression raises (`i` past the
   * end of `records`, the entry `''`, or a missing key) and `hd[i] + '| unknown '`
   * is written instead.
   */
  function Header(h: string, records: seq<Entry>, i: nat): string {
    if i < |records| && records[i].Rec? && Complete(records[i].rec) then Annotated(h, records[i].rec)
    else h + Unknown
  }

  /** The annotation a record gives: name and lineage with every `;` turned into `,`. */
  function Annotated(h: string, t: TaxRecord): string
    requires Complete(t)
  {
    h + "|" + t.scientificName.value + "|" + ReplaceChar(t.lineage.value, ';', ',')
  }

  /** The annotation is the script's `hd[i] + '|' + name + '|' + ','.join(lineage.split(';'))`. */
  lemma AnnotatedJoinsLineage(h: string, t: TaxRecord)
    requires Complete(t)
    ensures Annotated(h, t) == h + "|" + t.scientificName.value + "|" + Join(",", Split(t.lineage.value, ";"))
  {
    JoinSplitReplaces(t.lineage.value, ';', ',');
  }

  /** The header lines of sequences `from` onwards, in alignment order: `>` and the header. */
  function HeaderLines(hd: seq<string>, records: seq<Entry>, from: nat): (labels: seq<string>)
    requires from <= |hd|
    ensures |labels| == |hd| - from
    decreases |hd| - from
  {
    if from == |hd| then [] else [">" + Header(hd[from], records, from)] + HeaderLines(hd, records, from + 1)
  }

  lemma HeaderLinesHead(hd: seq<string>, records: seq<Entry>, from: nat)
    requires from < |hd|
    ensures HeaderLines(hd, records, from)[0] == ">" + Header(hd[from], records, from)
  {
  }

  lemma HeaderLinesTail(hd: seq<string>, records: seq<Entry>, from: nat, k: nat)
    requires from < |hd| && 0 < k < |hd| - from
    ensures HeaderLines(hd, records, from)[k] == HeaderLines(hd, records, from + 1)[k - 1]
  {
  }

  /** Header line `i` is `>` and the header of sequence `i`. */
  lemma {:induction false} HeaderLinesAt(hd: seq<string>, records: seq<Entry>, from: nat, i: nat)
    requires from <= i < |hd|
    ensures HeaderLines(hd, records, from)[i - from] == ">" + Header(hd[i], records, i)
    decreases i - from
  {
    if from < i {
      HeaderLinesAt(hd, records, from + 1, i);
      HeaderLinesTail(hd, records, from, i - from);
    } else {
      HeaderLinesHead(hd, records, from);
    }
  }

  /** The first `n` labels and sequences, interleaved: label, sequence, label, sequence, ... */
  function Interleave(labels: seq<string>, seqs: seq<string>, n: nat): (lines: seq<string>)
    requires n <= |labels| && n <= |seqs|
    ensures |lines| == 2 * n
  {
    if n == 0 then []
    else Interleave(labels, seqs, n - 1) + [labels[n - 1], seqs[n - 1]]
  }

  /** What the two writes per sequence leave in the file after the first `n` sequences. */
  function InterleavedText(labels: seq<string>, seqs: seq<string>, n: nat): string
    requires n <= |labels| && n <= |seqs|
  {
    if n == 0 then []
    else InterleavedText(labels, seqs, n - 1) + (labels[n - 1] + "\n") + (seqs[n - 1] + "\n")
  }

  /** Line `2i` is label `i` and line `2i + 1` is sequence `i`. */
  lemma {:induction false} InterleaveShape(labels: seq<string>, seqs: seq<string>, n: nat, i: nat)
    requires n <= |labels| && n <= |seqs| && i < n
    ensures Interleave(labels, seqs, n)[2 * i] == labels[i]
    ensures Interleave(labels, seqs, n)[2 * i + 1] == seqs[i]
  {
    var prev := Interleave(labels, seqs, n - 1);
    assert Interleave(labels, seqs, n) == prev + [labels[n - 1], seqs[n - 1]];
    if i < n - 1 {
      InterleaveShape(labels, seqs, n - 1, i);
      assert (prev + [labels[n - 1], seqs[n - 1]])[2 * i] == prev[2 * i];
      assert (prev + [labels[n - 1], seqs[n - 1]])[2 * i + 1] == prev[2 * i + 1];
    } else {
      assert |prev| == 2 * i;
    }
  }

  /** The file's text is the interleaved lines, each followed by a newline. */
  lemma {:induction false} InterleavedTextTerminated(labels: seq<string>, seqs: seq<string>, n: nat)
    requires n <= |labels| && n <= |seqs|
    ensures InterleavedText(labels, seqs, n) == Terminated(Interleave(labels, seqs, n))
  {
    if n > 0 {
      InterleavedTextTerminated(labels, seqs, n - 1);
      TerminatedPair(Interleave(labels, seqs, n - 1), labels[n - 1], seqs[n - 1]);
    }
  }

  /** The lines of the output file, two per sequence. */
  function OutputLines(hd: seq<string>, seqs: seq<string>, records: seq<Entry>): (lines: seq<string>)
    requires |seqs| == |hd|
    ensures |lines| == 2 * |seqs|
  {
    Interleave(HeaderLines(hd, records, 0), seqs, |seqs|)
  }

  /**
   * Exactly two lines per sequence, in sequence order: line `2i` is the
   * header of sequence `i` and line `2i + 1` is sequence `i` unchanged,
   * whatever `records` holds.
   */
  lemma OutputLinesShape(hd: seq<string>, seqs: seq<string>, records: seq<Entry>, i: nat)
    requires |seqs| == |hd| && i < |seqs|
    ensures OutputLines(hd, seqs, records)[2 * i] == ">" + Header(hd[i], records, i)
    ensures OutputLines(hd, seqs, records)[2 * i + 1] == seqs[i]
  {
    InterleaveShape(HeaderLines(hd, records, 0), seqs, |seqs|, i);
    HeaderLinesAt(hd, records, 0, i);
  }

  /** The text of the output file. */
  function OutputText(hd: seq<string>, seqs: seq<string>, records: seq<Entry>): string
    requires |seqs| == |hd|
  {
    InterleavedText(HeaderLines(hd, records, 0), seqs, |seqs|)
  }

  /** No header, sequence, name or lineage holds a newline. */
  ghost predicate NoNewlines(hd: seq<string>, seqs: seq<string>, records: seq<Entry>) {
    && (forall i :: 0 <= i < |hd| ==> Free(hd[i], '\n'))
    && (forall i :: 0 <= i < |seqs| ==> Free(seqs[i], '\n'))
    && (forall i :: 0 <= i < |records| && records[i].Rec? ==>
          (records[i].rec.scientificName.Some? ==> Free(records[i].rec.scientificName.value, '\n')) &&
          (records[i].rec.lineage.Some? ==> Free(records[i].rec.lineage.value, '\n')))
  }

  /** A header line holds a newline only if its parts do. */
  lemma HeaderLineFree(h: string, records: seq<Entry>, i: nat)
    requires Free(h, '\n')
    requires i < |records| && records[i].Rec? && Complete(records[i].rec) ==>
               Free(records[i].rec.scientificName.value, '\n') && Free(records[i].rec.lineage.value, '\n')
    ensures Free(">" + Header(h, records, i), '\n')
  {
    if i < |records| && records[i].Rec? && Complete(records[i].rec) {
      var l := records[i].rec.lineage.value;
      assert Free(ReplaceChar(l, ';', ','), '\n') by {
        forall c | 0 <= c < |l| ensures ReplaceChar(l, ';', ',')[c] != '\n' {
          ReplaceCharAt(l, ';', ',', c);
        }
      }
    }
  }

  /**
   * Read back line by line, the output is the header and sequence lines,
   * two per sequence, and nothing else.
   */
  lemma OutputReadsBack(hd: seq<string>, seqs: seq<string>, records: seq<Entry>)
    requires |seqs| == |hd| && NoNewlines(hd, seqs, records)
    ensures Split(OutputText(hd, seqs, records), "\n") == OutputLines(hd, seqs, records) + [""]
    ensures |Split(OutputText(hd, seqs, records), "\n")| == 2 * |seqs| + 1
  {
    var lines := OutputLines(hd, seqs, records);
    forall k | 0 <= k < |lines| ensures Free(lines[k], '\n') {
      var i := k / 2;
      OutputLinesShape(hd, seqs, records, i);
      if k % 2 == 0 {
        assert k == 2 * i;
        HeaderLineFree(hd[i], records, i);
      } else {
        assert k == 2 * i + 1;
      }
    }
    InterleavedTextTerminated(HeaderLines(hd, records, 0), seqs, |seqs|);
    SplitTerminated(lines);
  }

  /** Two more lines written after `before`. */
  lemma TerminatedPair(before: seq<string>, a: string, b: string)
    ensures Terminated(before + [a, b]) == Terminated(before) + (a + "\n") + (b + "\n")
  {
    TerminatedAppend(before, [a, b]);
    assert [a, b][..1] == [a];
    assert [a][..0] == [];
    assert Terminated([a]) == a + "\n";
    assert Terminated([a, b]) == a + "\n" + b + "\n";
  }

  /**
   * The `try`/`except` of the loop: the new header of sequence `i`, which the
   * loop writes after a `>`.
   */
  method NewHeader(hd: seq<string>, records: seq<Entry>, i: nat) returns (hdnew: string)
    requires i < |hd|
    ensures ">" + hdnew == HeaderLines(hd, records, 0)[i]
  {
    HeaderLinesAt(hd, records, 0, i);
    if i < |records| && records[i].Rec? && Complete(records[i].rec) {
      var t := records[i].rec;
      hdnew := hd[i] + "|" + t.scientificName.value + "|" + ReplaceChar(t.lineage.value, ';', ',');
    } else {
      hdnew := hd[i] + Unknown;
    }
  }

  /** The loop of the script: for each sequence, its header line, then the sequence line. */
  method Write(hd: seq<string>, seqs: seq<string>, records: seq<Entry>) returns (out: string)
    requires |seqs| == |hd|
    ensures out == OutputText(hd, seqs, records)
  {
    ghost var labels := HeaderLines(hd, records, 0);
    out := [];
    for i := 0 to |seqs|
      invariant out == InterleavedText(labels, seqs, i)
    {
      var hdnew := NewHeader(hd, records, i);
      out := out + (">" + hdnew + "\n");
      out := out + (seqs[i] + "\n");
    }
  }
}
