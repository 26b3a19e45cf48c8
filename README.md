# pySCA alignment annotation, modelled in Dafny

This project models the two small pipelines in pySCA that attach taxonomy to a
multiple sequence alignment.

- `annotateMSA.py` (NCBI branch). It:
  - checks the options and picks an annotation backend;
  - cuts the gi list into blocks of 200;
  - looks up one taxonomy id per entry of each Entrez `elink` reply;
  - fetches one taxonomy record per id with `efetch`;
  - rewrites each alignment header from the record *at the same position*,
    falling back to `hd[i] + '| unknown '`;
  - writes `>header` and the sequence line for every sequence.
- `alnParseGI.py`. It:
  - takes field 1 of each header split on a delimiter;
  - writes the gi numbers one per line.

The Entrez services are parameters:

- `Resolver.Elink` is a function from (call number, block of gi numbers) to a reply;
- `Fetcher.Efetch` is a function from (call number, taxonomy id) to a reply.

Because the call number is an argument, every call may answer differently.
The loops of the script are methods: `Resolver.Resolve`, `Fetcher.Fetch` and
`Merger.Write`. Each is proved equal to a recursive specification function,
and the properties are proved about those functions. `Pipeline.AnnotateNcbi`
chains the stages.

The script's lists `taxID` and `records` are local to the script's main
block: each is created just before its loop (lines 120 and 137), appended to
as the loop runs, and `records` is read again by the output loop (lines
159-160). The model builds them as sequence values inside the
methods. The output file is the string the writes produce.

Main results:

- The batching loses, repeats and reorders nothing.
- `taxID` gets one id per reply entry.
- `records` gets one or two entries per id. It gets two when a fetched record
  lacks `Lineage` or `ScientificName`, because the append on line 143 runs
  before the prints that raise.
- The output has exactly two lines per sequence, in order, whatever
  `records` holds.
- The positional merge puts each sequence next to the record fetched for its
  own gi only under two hypotheses:
  - every `elink` reply has one entry per requested gi;
  - no fetched record is incomplete.
  `Pipeline.IncompleteRecordMislabels` shows a concrete run where one
  incomplete record mislabels the next, complete, one;
  `Pipeline.ShortReplyMislabels` shows one where a short elink reply gives
  a sequence the taxonomy of the next gi.
- The gi extracted by alnParseGI is exactly the text between the first and
  second delimiter. A header without the delimiter aborts the whole run.

Behaviour of the code worth noting:

- The `--giList` help text (annotateMSA.py lines 37-39 and 80-82) says a gi
  of `0` marks a sequence with no gi number. The code does not treat it
  specially: it is batched and sent to `elink` like any other number
  (`Pipeline.ZeroGiExample`).
- The elink reply is read by position, not matched to the requested gi, so
  a reply short of one entry moves every later id one place back
  (`Resolver.ShortReplyShiftsAt`, `Pipeline.ShortReplyMislabels`). An
  exception from `elink` or `Entrez.read` (line 123, outside any `try`)
  stops the run: `Resolver.Abort`.
- A record missing a field is appended, and an extra `''` follows it,
  which shifts every later record one place on (`Fetcher.IncompleteShifts`).
- The fallback header is `hd[i] + '| unknown '`, with a space after the bar
  and a trailing space (`Merger.Unknown`).

## Model

| member | source | states |
|---|---|---|
| Dispatch.Choose | pysca/annotateMSA.py:93-113 | exits iff `-a` is neither pfam nor ncbi (unknown method) or is ncbi without `--giList`; ncbi with a list runs NCBI with that list; for pfam an explicit db wins over the txt file, else the default db if it exists, else the default txt if it exists, else nothing (each case as an iff) |
| Dispatch.DiskIrrelevantWithPaths | pysca/annotateMSA.py:101-113 | the existence of the default files changes nothing unless the run is pfam with neither `-d` nor `-p` |
| Dispatch.UnknownMethodIgnoresRest | pysca/annotateMSA.py:93-95 | an unknown `-a` exits whatever the other options are |
| Batching.Blocks | pysca/annotateMSA.py:118 | the number of blocks is ceil(n / size) |
| Batching.FlattenBlocks | pysca/annotateMSA.py:118 | the blocks concatenated in order give back the gi list exactly |
| Batching.FlattenPrefix | pysca/annotateMSA.py:118 | the first m blocks concatenated are the first min(m * size, n) gi numbers |
| Batching.FlattenPrefixLength | pysca/annotateMSA.py:118 | the blocks before block x hold exactly x * size gi numbers |
| Batching.BlockSizes | pysca/annotateMSA.py:118 | every block is non-empty and at most size long; all but the last have exactly size; the last has the remainder |
| Batching.BlockElement | pysca/annotateMSA.py:118 | element j of block x is gi number x * size + j |
| Batching.NoBlocksIffEmpty | pysca/annotateMSA.py:118 | there are no blocks exactly when the gi list is empty |
| Batching.Example450 | pysca/annotateMSA.py:118 | 450 gi numbers give blocks of 200, 200 and 50 |
| Resolver.EntryId | pysca/annotateMSA.py:126-130 | an entry with a link gives its id, a missing path gives `''` |
| Resolver.EntryIds | pysca/annotateMSA.py:125-130 | one id per reply entry, in reply order |
| Resolver.Resolve | pysca/annotateMSA.py:120-130 | the loop's result is `Resolved` over all blocks: ids appended in block then reply order, or the call that raised |
| Resolver.ResolvedOkIff | pysca/annotateMSA.py:122-124 | the look-up completes iff no elink call raises |
| Resolver.ResolvedStaysAborted | pysca/annotateMSA.py:122-124 | after a raising call, later blocks change nothing: the run stays stopped at that call |
| Resolver.ResolvedLength | pysca/annotateMSA.py:120-130 | the length of `taxID` is the total number of reply entries |
| Resolver.ResolvedAlignedLength | pysca/annotateMSA.py:120-130 | with one entry per requested gi, the look-up completes with as many ids as gi numbers sent |
| Resolver.ShortReplyShortens | pysca/annotateMSA.py:120-130 | one reply short of entries, with none longer than its block, leaves `taxID` shorter than the gi list |
| Resolver.ShortReplyLength | pysca/annotateMSA.py:120-130 | with every reply exact except one that is one entry short, the look-up completes with one id fewer than the gi numbers sent |
| Resolver.ShortReplyShiftsAt | pysca/annotateMSA.py:120-130 | when block x's reply is one entry short and the others are exact, the id for entry j of a later block y sits one place before the position of the gi it was sent for |
| Resolver.ResolvedAt | pysca/annotateMSA.py:120-130 | with one entry per requested gi, the id for entry j of block x sits after all ids of the earlier blocks |
| Resolver.ResolvedCount | pysca/annotateMSA.py:118-130 | for the blocks of 200, one entry per requested gi gives exactly one id per gi |
| Resolver.ResolvedOnePerGi | pysca/annotateMSA.py:118-130 | for the blocks of 200, the id at position x * 200 + j, where gi x * 200 + j sits, is the id reply x gave for entry j |
| Fetcher.Appended | pysca/annotateMSA.py:139-148 | one pass appends `''` on failure, the record when it is complete, and the record then `''` when it lacks a field |
| Fetcher.Fetch | pysca/annotateMSA.py:137-148 | the loop's result is `Records` over all keys |
| Fetcher.RecordsLength | pysca/annotateMSA.py:137-148 | `len(records)` is the number of keys plus the number of incomplete records; it is at least `len(taxID)`, with equality iff no fetched record is incomplete |
| Fetcher.RecordsPrefix | pysca/annotateMSA.py:137-148 | later keys only append: earlier entries keep their positions |
| Fetcher.RecordsAligned | pysca/annotateMSA.py:137-148 | with no incomplete record, entry k is what key k fetched (the record, or `''` on failure) |
| Fetcher.IncompleteShifts | pysca/annotateMSA.py:143-148 | one incomplete record at key k puts the record at k and `''` at k + 1, and moves the entry of every later key j to j + 1 |
| Merger.AnnotatedJoinsLineage | pysca/annotateMSA.py:159-160 | the header built with every `;` replaced by `,` equals the script's expression: `hd[i]`, a bar, the name, a bar, and `','.join(lineage.split(';'))` |
| Merger.HeaderLinesAt | pysca/annotateMSA.py:158-165 | header line i is `>` followed by the header of sequence i |
| Merger.NewHeader | pysca/annotateMSA.py:158-163 | the `try`/`except` result is the header of sequence i: annotated when `records[i]` exists and is a complete record, else `hd[i]` followed by `Unknown` |
| Merger.Write | pysca/annotateMSA.py:157-166 | the written text is the header line and the sequence line of every sequence, each ended by a newline, in order |
| Merger.OutputLines | pysca/annotateMSA.py:157-166 | the output has two lines per sequence |
| Merger.OutputLinesShape | pysca/annotateMSA.py:157-166 | line 2i is `>` and the header of sequence i, and line 2i + 1 is sequence i unchanged, whatever `records` holds |
| Merger.InterleaveShape | pysca/annotateMSA.py:165-166 | the writes alternate: label i at line 2i, sequence i at line 2i + 1 |
| Merger.InterleavedTextTerminated | pysca/annotateMSA.py:165-166 | the written text is the interleaved lines, each followed by a newline |
| Merger.HeaderLineFree | pysca/annotateMSA.py:158-165 | a header line contains no newline when the header, name and lineage contain none |
| Merger.OutputReadsBack | pysca/annotateMSA.py:157-166 | split on newlines, the output is exactly the 2n header and sequence lines, then the empty text after the last newline |
| Pipeline.AnnotateNcbi | pysca/annotateMSA.py:114-166 | the NCBI branch, stage by stage, yields `NcbiRun`: the output text, or the elink call that stopped the run |
| Pipeline.NcbiRunCompletes | pysca/annotateMSA.py:120-166 | the run completes iff no elink call raises; failed entries and failed fetches never stop it |
| Pipeline.EveryRecordWritten | pysca/annotateMSA.py:157-166 | in a completed run, line 2i starts with `>` and `hd[i]` and line 2i + 1 is sequence i, whatever the services answered |
| Pipeline.AlignedHeader | pysca/annotateMSA.py:118-166 | under the two alignment hypotheses, the sequence at position x * 200 + j is labelled from the record fetched for the id that reply x gave for gi x * 200 + j |
| Pipeline.AlignedRecord | pysca/annotateMSA.py:118-148 | under the two hypotheses, `records[x * 200 + j]` is what was fetched for the id of gi x * 200 + j |
| Pipeline.FetchedInPlace | pysca/annotateMSA.py:137-148 | under the two hypotheses, `records[i]` is what `taxID[i]` fetched |
| Pipeline.PlacedLine | pysca/annotateMSA.py:158-165 | a record that landed at its own position gives line 2i as `>` and its annotation |
| Pipeline.PlacedHeader | pysca/annotateMSA.py:158-163 | a record at its own position gives the annotated header when it is complete and the unknown header otherwise |
| Pipeline.SurplusSequencesUnknown | pysca/annotateMSA.py:158-163 | a sequence past the end of `records` is always labelled `hd[i]` followed by `Unknown` |
| Pipeline.IncompleteRecordMislabels | pysca/annotateMSA.py:143-163 | gi 1's record lacks `Lineage`, so gi 2's complete record is at position 2 and both sequences are written as unknown |
| Pipeline.ShortReplyMislabels | pysca/annotateMSA.py:118-166 | elink answers block [1, 2] with gi 2's link set only: sequence 1 is written with gi 2's taxonomy and sequence 2 as unknown |
| Pipeline.ZeroGiExample | pysca/annotateMSA.py:117-166 | gi list [123, 0]: gi 0 is sent with 123, gets no link and its `''` key is fetched too; the first header is `seq1_123_x`, `Homo sapiens` and `Euk,Hom` joined by bars, the second is `seq2_0_y` followed by `Unknown` |
| Pipeline.HumanAligned | pysca/annotateMSA.py:118-148 | the run of the previous row meets the two alignment hypotheses |
| Pipeline.HumanLineage | pysca/annotateMSA.py:160 | the lineage `Euk;Hom` is rendered `Euk,Hom` |
| ParseGi.GiOf | pysca/alnParseGI.py:35 | an empty delimiter is a ValueError; otherwise the only failure is a missing field 1 |
| ParseGi.GiOfMissing | pysca/alnParseGI.py:35 | with a non-empty delimiter, the extraction raises IndexError iff the header does not contain the delimiter |
| ParseGi.GiOfIsField1 | pysca/alnParseGI.py:35 | the result is g iff g lies between the first occurrence of the delimiter and the second (or the end of the header) |
| ParseGi.GiOfField1 | pysca/alnParseGI.py:35 | a successful extraction is in field-1 position |
| ParseGi.Field1GiOf | pysca/alnParseGI.py:35 | text in field-1 position is what the extraction returns |
| ParseGi.GiShape | pysca/alnParseGI.py:35 | the header is `a + delim + gi + rest`, with no delimiter in `a` or in the gi, and `rest` empty or starting with the delimiter |
| ParseGi.ExtractGis | pysca/alnParseGI.py:35 | one gi per header in header order when every header has field 1; otherwise the error of the first header without one |
| ParseGi.ParseGi | pysca/alnParseGI.py:35-40 | the script produces output iff every header has field 1; otherwise it fails with that header's error and nothing is written |
| ParseGi.GiFileLines | pysca/alnParseGI.py:35-40 | split on newlines, the output is the gi numbers, one per header in header order, then the empty text after the last newline |
| ParseGi.MissingDelimiterAborts | pysca/alnParseGI.py:35-37 | a single header without the delimiter makes the whole run fail |
| ParseGi.DefaultDelimExample | pysca/alnParseGI.py:30-35 | with the default delimiter `_`, header `seq1_123_x` yields `123` |
| Text.FindFrom | pysca/alnParseGI.py:35 | the result is the first occurrence of the separator at or after the start, or none when it does not occur |
| Text.SplitPiecesFree | pysca/alnParseGI.py:35 | no piece of a split contains the separator |
| Text.JoinSplit | pysca/annotateMSA.py:160 | joining the pieces of a split with the same separator gives back the string |
| Text.JoinSplitReplaces | pysca/annotateMSA.py:160 | `','.join(s.split(';'))` is s with every `;` replaced by `,` |
| Text.ReplaceCharAt | pysca/annotateMSA.py:160 | each character of the result is the input character, replaced when it is the old one |
| Text.SplitTerminated | pysca/alnParseGI.py:38-39 | lines free of newlines, each written with a newline after it, read back as the same lines and a final empty text |

## Left out

- Argument parsing, reading the alignment and the gi file, and opening,
  writing and closing files are left out. The gi list is given as integers,
  so Python's `int()` parsing rules (whitespace, sign, underscores) are not
  modelled. The output is the text the writes would produce.
- `sys.exit` is modelled as the `Exit` action carrying its reason. The
  message text is left out.
- `sca.readAlg`, `sca.AnnotPfam` and `sca.AnnotPfamDB` live in scaTools,
  which is not part of this model.
  - The alignment is taken as the parallel lists `hd` and `seqs`, of equal
    length.
  - The Pfam backends are the `PfamDb`/`PfamTxt` actions, with the path
    passed or `None` for the configured default.
- `os.path.exists` on the two default Pfam files is two boolean inputs.
- The Entrez network calls, XML decoding and the `Entrez.email` setting are
  the `Elink`/`Efetch` parameters. Only the reply's shape is modelled:
  - the first link id per link set, or its absence;
  - the two record fields.
  An elink call that raises is `ElinkFailed`. A raise anywhere in
  `efetch`, `read`, `close` or `[0]` is `FetchFailed`.
- Field values that are not strings (concatenating one would raise during
  rendering) are not modelled. `ScientificName` and `Lineage` are optional
  strings.
- `time.process_time` and every `print` are left out. They are diagnostics
  only and do not change the lists or the output.
- An exception during the output loop other than the caught ones (for
  example a failing `f.write`) is not modelled.
- Python's `str.split` on an empty separator raises ValueError. This is
  modelled as `EmptySeparator` in alnParseGI; the only separator split on
  in annotateMSA is the constant `;` (line 160).
