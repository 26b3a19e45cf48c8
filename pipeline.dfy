/**
 * annotateMSA, the NCBI branch end to end: batch the gi numbers, look up
 * taxonomy ids, fetch records, write the annotated alignment. The elink and
 * efetch services are parameters; the alignment is given as the parallel
 * lists `hd` and `seqs`.
 */
module Pipeline {
  import opened Wrappers
  import opened Text
  import opened Batching
  import opened Resolver
  import opened Fetcher
  import opened Merger

  /** `records` after the look-up and fetch loops, or the elink call that stopped the run. */
  function RunRecords(gi: seq<Gi>, elink: Elink, efetch: Efetch): Result<seq<Entry>, Abort> {
    var blocks := Blocks(gi, BlockSize);
    match Resolved(blocks, elink, |blocks|)
    case Err(e) => Err(e)
    case Ok(taxID) => Ok(Records(taxID, efetch, |taxID|))
  }

  /** The output file's text, or the elink call that stopped the run before the file was opened. */
  function NcbiRun(gi: seq<Gi>, hd: seq<string>, seqs: seq<string>, elink: Elink, efetch: Efetch): Result<string, Abort>
    requires |hd| == |seqs|
  {
    match RunRecords(gi, elink, efetch)
    case Err(e) => Err(e)
    case Ok(records) => Ok(OutputText(hd, seqs, records))
  }

  /** The script's NCBI branch, stage by stage. */
  method AnnotateNcbi(gi: seq<Gi>, hd: seq<string>, seqs: seq<string>, elink: Elink, efetch: Efetch)
    returns (r: Result<string, Abort>)
    requires |hd| == |seqs|
    ensures r == NcbiRun(gi, hd, seqs, elink, efetch)
  {
    var blocks := Blocks(gi, BlockSize);
    var taxID := Resolve(blocks, elink);
    if taxID.Err? {
      return Err(taxID.error);
    }
    var records := Fetch(taxID.value, efetch);
    var out := Write(hd, seqs, records);
    return Ok(out);
  }

  /** The run completes exactly when no elink call raises; failed entries and fetches never stop it. */
  lemma NcbiRunCompletes(gi: seq<Gi>, hd: seq<string>, seqs: seq<string>, elink: Elink, efetch: Efetch)
    requires |hd| == |seqs|
    ensures NcbiRun(gi, hd, seqs, elink, efetch).Ok? <==>
              forall x :: 0 <= x < |Blocks(gi, BlockSize)| ==> elink(x, Blocks(gi, BlockSize)[x]).LinkSets?
  {
    var blocks := Blocks(gi, BlockSize);
    ResolvedOkIff(blocks, elink, |blocks|);
  }

  /**
   * Whatever the services answer, a completed run writes two lines per
   * sequence in alignment order: a header line that begins with `>` and
   * the original header, then the sequence unchanged.
   */
  lemma EveryRecordWritten(gi: seq<Gi>, hd: seq<string>, seqs: seq<string>, elink: Elink, efetch: Efetch, i: nat)
    requires |hd| == |seqs| && i < |seqs| && RunRecords(gi, elink, efetch).Ok?
    ensures var lines := OutputLines(hd, seqs, RunRecords(gi, elink, efetch).value);
            && |lines[2 * i]| > |hd[i]|
            && lines[2 * i][..1 + |hd[i]|] == ">" + hd[i]
            && lines[2 * i + 1] == seqs[i]
  {
    var records := RunRecords(gi, elink, efetch).value;
    OutputLinesShape(hd, seqs, records, i);
  }

  /** Every elink reply has one entry per gi, and no fetched record lacks `ScientificName` or `Lineage`. */
  ghost predicate Aligned(gi: seq<Gi>, elink: Elink, efetch: Efetch) {
    var blocks := Blocks(gi, BlockSize);
    && OneEntryPerGi(blocks, elink, |blocks|)
    && Resolved(blocks, elink, |blocks|).Ok?
    && var taxID := Resolved(blocks, elink, |blocks|).value;
       forall k :: 0 <= k < |taxID| ==> !Incomplete(efetch(k, taxID[k]))
  }

  /** The header a fetch reply gives when the entry it leaves lands at its own position. */
  function Annotation(h: string, reply: FetchReply): string {
    Header(h, [Placed(reply)], 0)
  }

  /**
   * Under the two alignment hypotheses the positional merge is right: the
   * sequence sent as entry `j` of elink request `x` (position
   * `x * 200 + j`) is labelled from the record fetched for the taxonomy id
   * that reply gave for it, and a failed look-up or fetch there gives
   * ` unknown ` at that position only.
   */
  lemma AlignedHeader(gi: seq<Gi>, hd: seq<string>, seqs: seq<string>, elink: Elink, efetch: Efetch, x: nat, j: nat)
    requires |hd| == |seqs| && Aligned(gi, elink, efetch)
    requires x < |Blocks(gi, BlockSize)| && j < |Blocks(gi, BlockSize)[x]| && x * BlockSize + j < |seqs|
    ensures RunRecords(gi, elink, efetch).Ok?
    ensures x * BlockSize + j < |gi| && gi[x * BlockSize + j] == Blocks(gi, BlockSize)[x][j]
    ensures OutputLines(hd, seqs, RunRecords(gi, elink, efetch).value)[2 * (x * BlockSize + j)]
              == ">" + Annotation(hd[x * BlockSize + j],
                                  efetch(x * BlockSize + j, EntryId(elink(x, Blocks(gi, BlockSize)[x]).entries[j])))
  {
    var i := x * BlockSize + j;
    AlignedRecord(gi, elink, efetch, x, j);
    var records := RunRecords(gi, elink, efetch).value;
    PlacedLine(hd, seqs, records, i, efetch(i, EntryId(elink(x, Blocks(gi, BlockSize)[x]).entries[j])));
  }

  /** Under the two alignment hypotheses, position `x * 200 + j` of `records` is what was fetched for that gi. */
  lemma AlignedRecord(gi: seq<Gi>, elink: Elink, efetch: Efetch, x: nat, j: nat)
    requires Aligned(gi, elink, efetch)
    requires x < |Blocks(gi, BlockSize)| && j < |Blocks(gi, BlockSize)[x]|
    ensures RunRecords(gi, elink, efetch).Ok?
    ensures x * BlockSize + j < |gi| && gi[x * BlockSize + j] == Blocks(gi, BlockSize)[x][j]
    ensures x * BlockSize + j < |RunRecords(gi, elink, efetch).value|
    ensures RunRecords(gi, elink, efetch).value[x * BlockSize + j]
              == Placed(efetch(x * BlockSize + j, EntryId(elink(x, Blocks(gi, BlockSize)[x]).entries[j])))
  {
    ResolvedOnePerGi(gi, elink, x, j);
    FetchedInPlace(gi, elink, efetch, x * BlockSize + j);
  }

  /** Under the two alignment hypotheses, entry `i` of `records` is what taxonomy id `i` fetched. */
  lemma FetchedInPlace(gi: seq<Gi>, elink: Elink, efetch: Efetch, i: nat)
    requires Aligned(gi, elink, efetch)
    requires i < |Resolved(Blocks(gi, BlockSize), elink, |Blocks(gi, BlockSize)|).value|
    ensures RunRecords(gi, elink, efetch).Ok?
    ensures i < |RunRecords(gi, elink, efetch).value|
    ensures RunRecords(gi, elink, efetch).value[i]
              == Placed(efetch(i, Resolved(Blocks(gi, BlockSize), elink, |Blocks(gi, BlockSize)|).value[i]))
  {
    var taxID := Resolved(Blocks(gi, BlockSize), elink, |Blocks(gi, BlockSize)|).value;
    RecordsAligned(taxID, efetch, |taxID|, i);
    RunRecordsOk(gi, elink, efetch);
  }

  /** A completed look-up is followed by the fetch loop over all its ids. */
  lemma RunRecordsOk(gi: seq<Gi>, elink: Elink, efetch: Efetch)
    requires Resolved(Blocks(gi, BlockSize), elink, |Blocks(gi, BlockSize)|).Ok?
    ensures var taxID := Resolved(Blocks(gi, BlockSize), elink, |Blocks(gi, BlockSize)|).value;
            RunRecords(gi, elink, efetch) == Ok(Records(taxID, efetch, |taxID|))
  {
  }

  /** The header line of a sequence whose record landed at its own position. */
  lemma PlacedLine(hd: seq<string>, seqs: seq<string>, records: seq<Entry>, i: nat, reply: FetchReply)
    requires |hd| == |seqs| && i < |seqs| && i < |records| && records[i] == Placed(reply)
    ensures OutputLines(hd, seqs, records)[2 * i] == ">" + Annotation(hd[i], reply)
  {
    OutputLinesShape(hd, seqs, records, i);
    PlacedHeader(hd[i], records, i, reply);
  }

  /** A record that landed at its own position labels its sequence as `Annotation` says. */
  lemma PlacedHeader(h: string, records: seq<Entry>, i: nat, reply: FetchReply)
    requires i < |records| && records[i] == Placed(reply)
    ensures Header(h, records, i) == Annotation(h, reply)
  {
  }

  /** Sequences past the end of `records` (more sequences than records) are always labelled ` unknown `. */
  lemma SurplusSequencesUnknown(gi: seq<Gi>, hd: seq<string>, seqs: seq<string>, elink: Elink, efetch: Efetch, i: nat)
    requires |hd| == |seqs| && i < |seqs| && RunRecords(gi, elink, efetch).Ok?
    requires i >= |RunRecords(gi, elink, efetch).value|
    ensures OutputLines(hd, seqs, RunRecords(gi, elink, efetch).value)[2 * i] == ">" + hd[i] + Unknown
  {
    var records := RunRecords(gi, elink, efetch).value;
    OutputLinesShape(hd, seqs, records, i);
  }

  /** A run where gi 1's record lacks `Lineage`: gi 2's record is complete, yet sequence 2 is labelled unknown. */
  function LinkTwo(i: nat, block: seq<Gi>): LinkReply {
    LinkSets([Some("10"), Some("20")])
  }

  function FetchLineageMissing(i: nat, id: TaxId): FetchReply {
    if id == "10" then Fetched(TaxRecord(Some("A"), None))
    else Fetched(TaxRecord(Some("B"), Some("L")))
  }

  lemma IncompleteRecordMislabels()
    ensures FetchLineageMissing(1, "20") == Fetched(TaxRecord(Some("B"), Some("L")))
    ensures Complete(FetchLineageMissing(1, "20").rec)
    ensures NcbiRun([1, 2], ["a", "b"], ["X", "Y"], LinkTwo, FetchLineageMissing)
              == Ok((">" + ("a" + Unknown) + "\n") + ("X" + "\n") + (">" + ("b" + Unknown) + "\n") + ("Y" + "\n"))
  {
    var records := MislabelRecords();
    MislabelText(records);
  }

  lemma MislabelRecords() returns (records: seq<Entry>)
    ensures records == [Rec(TaxRecord(Some("A"), None)), Blank, Rec(TaxRecord(Some("B"), Some("L")))]
    ensures RunRecords([1, 2], LinkTwo, FetchLineageMissing) == Ok(records)
  {
    var gi: seq<Gi> := [1, 2];
    var blocks := Blocks(gi, BlockSize);
    assert |blocks| == 1 && blocks[0] == gi[0..Min(200, 2)];
    assert gi[0..2] == gi;
    var es := [Some("10"), Some("20")];
    var taxID := ["10", "20"];
    assert LinkTwo(0, blocks[0]) == LinkSets(es);
    assert EntryIds(es) == taxID by {
      assert |EntryIds(es)| == 2 && EntryIds(es)[0] == "10" && EntryIds(es)[1] == "20";
    }
    assert [] + EntryIds(es) == taxID;
    assert Resolved(blocks, LinkTwo, 1) == Ok(taxID);
    var recA := TaxRecord(Some("A"), None);
    var recB := TaxRecord(Some("B"), Some("L"));
    assert "20" != "10" by {
      assert "20"[0] != "10"[0];
    }
    assert FetchLineageMissing(0, taxID[0]) == Fetched(recA);
    assert FetchLineageMissing(1, taxID[1]) == Fetched(recB);
    assert Records(taxID, FetchLineageMissing, 1) == [Rec(recA), Blank];
    records := Records(taxID, FetchLineageMissing, 2);
  }

  lemma MislabelText(records: seq<Entry>)
    requires records == [Rec(TaxRecord(Some("A"), None)), Blank, Rec(TaxRecord(Some("B"), Some("L")))]
    ensures OutputText(["a", "b"], ["X", "Y"], records)
            == (">" + ("a" + Unknown) + "\n") + ("X" + "\n") + (">" + ("b" + Unknown) + "\n") + ("Y" + "\n")
  {
    var labels := HeaderLines(["a", "b"], records, 0);
    HeaderLinesAt(["a", "b"], records, 0, 0);
    HeaderLinesAt(["a", "b"], records, 0, 1);
    assert labels[0] == ">" + ("a" + Unknown);
    assert labels[1] == ">" + ("b" + Unknown);
    assert InterleavedText(labels, ["X", "Y"], 0) == [];
    assert InterleavedText(labels, ["X", "Y"], 1) == [] + (labels[0] + "\n") + ("X" + "\n");
    assert [] + (labels[0] + "\n") == labels[0] + "\n";
  }

  /**
   * A run where elink answers the block [1, 2] with gi 2's link set only:
   * sequence 1 is labelled with gi 2's taxonomy and sequence 2 is unknown.
   */
  function LinkShort(i: nat, block: seq<Gi>): LinkReply {
    LinkSets([Some("20")])
  }

  function FetchShort(i: nat, id: TaxId): FetchReply {
    if id == "20" then Fetched(TaxRecord(Some("B"), Some("L"))) else FetchFailed
  }

  lemma ShortReplyMislabels()
    ensures NcbiRun([1, 2], ["a", "b"], ["X", "Y"], LinkShort, FetchShort)
              == Ok((">" + ("a" + "|" + "B" + "|" + "L") + "\n") + ("X" + "\n")
                    + (">" + ("b" + Unknown) + "\n") + ("Y" + "\n"))
  {
    var records := ShortRecords();
    ShortText(records);
  }

  lemma ShortRecords() returns (records: seq<Entry>)
    ensures records == [Rec(TaxRecord(Some("B"), Some("L")))]
    ensures RunRecords([1, 2], LinkShort, FetchShort) == Ok(records)
  {
    var gi: seq<Gi> := [1, 2];
    var blocks := Blocks(gi, BlockSize);
    assert |blocks| == 1 && blocks[0] == gi[0..Min(200, 2)];
    var es := [Some("20")];
    var taxID := ["20"];
    assert EntryIds(es) == taxID by {
      assert |EntryIds(es)| == 1 && EntryIds(es)[0] == "20";
    }
    assert [] + EntryIds(es) == taxID;
    assert Resolved(blocks, LinkShort, 1) == Ok(taxID);
    var recB := TaxRecord(Some("B"), Some("L"));
    assert FetchShort(0, taxID[0]) == Fetched(recB);
    assert Records(taxID, FetchShort, 1) == [] + [Rec(recB)];
    records := Records(taxID, FetchShort, 1);
  }

  lemma ShortText(records: seq<Entry>)
    requires records == [Rec(TaxRecord(Some("B"), Some("L")))]
    ensures OutputText(["a", "b"], ["X", "Y"], records)
            == (">" + ("a" + "|" + "B" + "|" + "L") + "\n") + ("X" + "\n")
               + (">" + ("b" + Unknown) + "\n") + ("Y" + "\n")
  {
    var labels := HeaderLines(["a", "b"], records, 0);
    HeaderLinesAt(["a", "b"], records, 0, 0);
    HeaderLinesAt(["a", "b"], records, 0, 1);
    assert ReplaceChar("L", ';', ',') == "L";
    assert labels[0] == ">" + ("a" + "|" + "B" + "|" + "L");
    assert labels[1] == ">" + ("b" + Unknown);
    assert InterleavedText(labels, ["X", "Y"], 0) == [];
    assert InterleavedText(labels, ["X", "Y"], 1) == [] + (labels[0] + "\n") + ("X" + "\n");
    assert [] + (labels[0] + "\n") == labels[0] + "\n";
  }

  /**
   * Two Blast-style sequences with gi numbers 123 and 0: gi 123 resolves to
   * taxonomy id 9606 (Homo sapiens), and gi 0 is sent like any other
   * number, gets no link, and its empty key is fetched too.
   */
  function LinkHuman(i: nat, block: seq<Gi>): LinkReply {
    LinkSets([Some("9606"), None])
  }

  function FetchHuman(i: nat, id: TaxId): FetchReply {
    if id == "9606" then Fetched(TaxRecord(Some("Homo sapiens"), Some("Euk;Hom")))
    else FetchFailed
  }

  lemma ZeroGiExample() returns (lines: seq<string>)
    ensures RunRecords([123, 0], LinkHuman, FetchHuman).Ok?
    ensures lines == OutputLines(["seq1_123_x", "seq2_0_y"], ["AC", "GT"],
                                 RunRecords([123, 0], LinkHuman, FetchHuman).value)
    ensures lines[0] == ">" + ("seq1_123_x" + "|" + "Homo sapiens" + "|" + "Euk,Hom")
    ensures lines[1] == "AC"
    ensures lines[2] == ">" + ("seq2_0_y" + Unknown)
    ensures lines[3] == "GT"
  {
    var gi: seq<Gi> := [123, 0];
    var hd := ["seq1_123_x", "seq2_0_y"];
    var seqs := ["AC", "GT"];
    HumanAligned();
    var blocks := Blocks(gi, BlockSize);
    assert EntryId(LinkHuman(0, blocks[0]).entries[0]) == "9606";
    assert EntryId(LinkHuman(0, blocks[0]).entries[1]) == "";
    AlignedHeader(gi, hd, seqs, LinkHuman, FetchHuman, 0, 0);
    AlignedHeader(gi, hd, seqs, LinkHuman, FetchHuman, 0, 1);
    var records := RunRecords(gi, LinkHuman, FetchHuman).value;
    lines := OutputLines(hd, seqs, records);
    OutputLinesShape(hd, seqs, records, 0);
    OutputLinesShape(hd, seqs, records, 1);
    HumanAnnotation();
  }

  lemma HumanAnnotation()
    ensures Annotation("seq1_123_x", FetchHuman(0, "9606"))
            == "seq1_123_x" + "|" + "Homo sapiens" + "|" + "Euk,Hom"
    ensures Annotation("seq2_0_y", FetchHuman(1, "")) == "seq2_0_y" + Unknown
  {
    HumanLineage();
    var human := TaxRecord(Some("Homo sapiens"), Some("Euk;Hom"));
    assert FetchHuman(0, "9606") == Fetched(human);
    assert Annotation("seq1_123_x", Fetched(human))
           == "seq1_123_x" + "|" + "Homo sapiens" + "|" + "Euk,Hom";
    assert "" != "9606";
  }

  lemma HumanAligned()
    ensures Resolved(Blocks([123, 0], BlockSize), LinkHuman, 1) == Ok(["9606", ""])
    ensures |Blocks([123, 0], BlockSize)| == 1 && Blocks([123, 0], BlockSize)[0] == [123, 0]
    ensures Aligned([123, 0], LinkHuman, FetchHuman)
  {
    var gi: seq<Gi> := [123, 0];
    var blocks := Blocks(gi, BlockSize);
    assert |blocks| == 1 && blocks[0] == gi[0..Min(200, 2)];
    assert gi[0..2] == gi;
    var es := [Some("9606"), None];
    var taxID := ["9606", ""];
    assert EntryIds(es) == taxID by {
      assert |EntryIds(es)| == 2 && EntryIds(es)[0] == "9606" && EntryIds(es)[1] == "";
    }
    assert [] + EntryIds(es) == taxID;
    assert Resolved(blocks, LinkHuman, 1) == Ok(taxID);
    assert OneEntryPerGi(blocks, LinkHuman, 1);
    assert FetchHuman(0, taxID[0]).Fetched? && Complete(FetchHuman(0, taxID[0]).rec);
    assert FetchHuman(1, taxID[1]) == FetchFailed;
  }

  lemma HumanLineage()
    ensures ReplaceChar("Euk;Hom", ';', ',') == "Euk,Hom"
  {
    var a, b := "Euk", "Hom";
    assert "Euk;Hom" == (a + ";") + b;
    ReplaceCharAppend(a + ";", b, ';', ',');
    ReplaceCharAppend(a, ";", ';', ',');
    assert ReplaceChar(a, ';', ',') == a;
    assert ReplaceChar(";", ';', ',') == ",";
    assert ReplaceChar(b, ';', ',') == b;
    assert (a + ",") + b == "Euk,Hom";
  }
}
