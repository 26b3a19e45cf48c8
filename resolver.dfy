/**
 * annotateMSA, taxonomy-id look-up: one elink request per block of gi
 * numbers, one taxonomy id appended per entry of each reply.
 */
module Resolver {
  import opened Wrappers
  import opened Batching

  type Gi = int

  /** A taxonomy id as Entrez returns it; `""` stands for a failed entry. */
  type TaxId = string

  /**
   * What `Entrez.read(Entrez.elink(dbfrom="protein", db="taxonomy", id=block))`
   * gives back: either the call raises (outside any `try`, so the run stops),
   * or a list of link sets, each holding the first taxonomy id at
   * `["LinkSetDb"][0]["Link"][0]["Id"]` or `None` when that path is missing.
   */
  datatype LinkReply = ElinkFailed | LinkSets(entries: seq<Option<TaxId>>)

  /** The elink service: the reply to call number `i` for the given block. */
  type Elink = (nat, seq<Gi>) -> LinkReply

  /** The run stopped because the elink call for this block raised. */
  datatype Abort = ElinkAborted(block: nat)

  /** The id appended for one entry: its taxonomy id, or `""` when the path is missing. */
  function EntryId(e: Option<TaxId>): (id: TaxId)
    ensures e.Some? ==> id == e.value
    ensures e.None? ==> id == ""
  {
    e.GetOr("")
  }

  /** The ids appended for one reply, in reply order. */
  function EntryIds(es: seq<Option<TaxId>>): (ids: seq<TaxId>)
    ensures |ids| == |es|
    ensures forall k :: 0 <= k < |es| ==> ids[k] == EntryId(es[k])
  {
    seq(|es|, k requires 0 <= k < |es| => EntryId(es[k]))
  }

  /** `taxID` after the first `n` blocks, or the call that stopped the run. */
  function Resolved(blocks: seq<seq<Gi>>, elink: Elink, n: nat): Result<seq<TaxId>, Abort>
    requires n <= |blocks|
  {
    if n == 0 then Ok([])
    else
      match Resolved(blocks, elink, n - 1)
      case Err(e) => Err(e)
      case Ok(ids) =>
        match elink(n - 1, blocks[n - 1])
        case ElinkFailed => Err(ElinkAborted(n - 1))
        case LinkSets(es) => Ok(ids + EntryIds(es))
  }

  /** Once a call has failed the run stays stopped, at that call. */
  lemma {:induction false} ResolvedStaysAborted(blocks: seq<seq<Gi>>, elink: Elink, n: nat, m: nat)
    requires n <= m <= |blocks| && Resolved(blocks, elink, n).Err?
    ensures Resolved(blocks, elink, m) == Resolved(blocks, elink, n)
    decreases m - n
  {
    if n < m {
      ResolvedStaysAborted(blocks, elink, n, m - 1);
    }
  }

  /** The look-up completes exactly when no elink call raises. */
  lemma {:induction false} ResolvedOkIff(blocks: seq<seq<Gi>>, elink: Elink, n: nat)
    requires n <= |blocks|
    ensures Resolved(blocks, elink, n).Ok? <==> forall i :: 0 <= i < n ==> elink(i, blocks[i]).LinkSets?
  {
    if n > 0 {
      ResolvedOkIff(blocks, elink, n - 1);
    }
  }

  /** Number of entries in a reply; none when the call raised. */
  function ReplyLength(reply: LinkReply): nat {
    match reply
    case ElinkFailed => 0
    case LinkSets(es) => |es|
  }

  /** Total number of reply entries over the first `n` blocks. */
  function TotalEntries(blocks: seq<seq<Gi>>, elink: Elink, n: nat): nat
    requires n <= |blocks|
  {
    if n == 0 then 0 else TotalEntries(blocks, elink, n - 1) + ReplyLength(elink(n - 1, blocks[n - 1]))
  }

  /** One id per reply entry: the length of `taxID` is the total length of the replies. */
  lemma {:induction false} ResolvedLength(blocks: seq<seq<Gi>>, elink: Elink, n: nat)
    requires n <= |blocks| && Resolved(blocks, elink, n).Ok?
    ensures |Resolved(blocks, elink, n).value| == TotalEntries(blocks, elink, n)
  {
    if n > 0 {
      ResolvedLength(blocks, elink, n - 1);
    }
  }

  /** The first `n` replies each have one entry per requested gi. */
  ghost predicate OneEntryPerGi(blocks: seq<seq<Gi>>, elink: Elink, n: nat)
    requires n <= |blocks|
  {
    forall i :: 0 <= i < n ==>
      elink(i, blocks[i]).LinkSets? && |elink(i, blocks[i]).entries| == |blocks[i]|
  }

  /** When every reply has one entry per requested gi, the look-up completes with one id per gi sent. */
  lemma {:induction false} ResolvedAlignedLength(blocks: seq<seq<Gi>>, elink: Elink, n: nat)
    requires n <= |blocks| && OneEntryPerGi(blocks, elink, n)
    ensures Resolved(blocks, elink, n).Ok?
    ensures |Resolved(blocks, elink, n).value| == |Flatten(blocks[..n])|
  {
    if n > 0 {
      ResolvedAlignedLength(blocks, elink, n - 1);
      assert blocks[..n][..n - 1] == blocks[..n - 1];
    }
  }

  /**
   * When every reply has one entry per requested gi, the id for entry `j`
   * of block `x` sits where that gi sits once the blocks are joined: after
   * all the gi numbers of the earlier blocks.
   */
  lemma {:induction false} ResolvedAt(blocks: seq<seq<Gi>>, elink: Elink, n: nat, x: nat, j: nat)
    requires n <= |blocks| && OneEntryPerGi(blocks, elink, n)
    requires x < n && j < |blocks[x]|
    ensures Resolved(blocks, elink, n).Ok?
    ensures |Flatten(blocks[..x])| + j < |Resolved(blocks, elink, n).value|
    ensures Resolved(blocks, elink, n).value[|Flatten(blocks[..x])| + j]
              == EntryId(elink(x, blocks[x]).entries[j])
  {
    ResolvedStep(blocks, elink, n);
    var ids := Resolved(blocks, elink, n - 1).value;
    var es := elink(n - 1, blocks[n - 1]).entries;
    if x == n - 1 {
      assert (ids + EntryIds(es))[|ids| + j] == EntryIds(es)[j];
    } else {
      ResolvedAt(blocks, elink, n - 1, x, j);
      var k := |Flatten(blocks[..x])| + j;
      assert (ids + EntryIds(es))[k] == ids[k];
    }
  }

  /** One more aligned reply: its ids are appended after those of the blocks before it. */
  lemma ResolvedStep(blocks: seq<seq<Gi>>, elink: Elink, n: nat)
    requires 0 < n <= |blocks| && OneEntryPerGi(blocks, elink, n)
    ensures Resolved(blocks, elink, n - 1).Ok? && Resolved(blocks, elink, n).Ok?
    ensures |Resolved(blocks, elink, n - 1).value| == |Flatten(blocks[..n - 1])|
    ensures elink(n - 1, blocks[n - 1]).LinkSets? && |elink(n - 1, blocks[n - 1]).entries| == |blocks[n - 1]|
    ensures Resolved(blocks, elink, n).value
              == Resolved(blocks, elink, n - 1).value + EntryIds(elink(n - 1, blocks[n - 1]).entries)
  {
    ResolvedAlignedLength(blocks, elink, n - 1);
  }

  /**
   * The same for the blocks of 200 the script makes: with one entry per
   * requested gi, `taxID` has one id per gi, and the id at position
   * `x * 200 + j`, the position of the gi sent as entry `j` of request `x`,
   * is that entry's id.
   */
  lemma ResolvedOnePerGi(gi: seq<Gi>, elink: Elink, x: nat, j: nat)
    requires OneEntryPerGi(Blocks(gi, BlockSize), elink, |Blocks(gi, BlockSize)|)
    requires x < |Blocks(gi, BlockSize)| && j < |Blocks(gi, BlockSize)[x]|
    ensures Resolved(Blocks(gi, BlockSize), elink, |Blocks(gi, BlockSize)|).Ok?
    ensures |Resolved(Blocks(gi, BlockSize), elink, |Blocks(gi, BlockSize)|).value| == |gi|
    ensures x * BlockSize + j < |gi| && gi[x * BlockSize + j] == Blocks(gi, BlockSize)[x][j]
    ensures Resolved(Blocks(gi, BlockSize), elink, |Blocks(gi, BlockSize)|).value[x * BlockSize + j]
              == EntryId(elink(x, Blocks(gi, BlockSize)[x]).entries[j])
  {
    var bs := Blocks(gi, BlockSize);
    ResolvedCount(gi, elink);
    BlockElement(gi, BlockSize, x, j);
    FlattenPrefixLength(gi, BlockSize, x);
    ResolvedAt(bs, elink, |bs|, x, j);
  }

  /** With one entry per requested gi, `taxID` has one id per gi. */
  lemma ResolvedCount(gi: seq<Gi>, elink: Elink)
    requires OneEntryPerGi(Blocks(gi, BlockSize), elink, |Blocks(gi, BlockSize)|)
    ensures Resolved(Blocks(gi, BlockSize), elink, |Blocks(gi, BlockSize)|).Ok?
    ensures |Resolved(Blocks(gi, BlockSize), elink, |Blocks(gi, BlockSize)|).value| == |gi|
  {
    var bs := Blocks(gi, BlockSize);
    ResolvedAlignedLength(bs, elink, |bs|);
    FlattenBlocks(gi, BlockSize);
    assert bs[..|bs|] == bs;
  }

  /**
   * A reply that is short of entries, with no reply longer than its block,
   * leaves `taxID` shorter than the gi numbers sent.
   */
  lemma {:induction false} ShortReplyShortens(blocks: seq<seq<Gi>>, elink: Elink, n: nat, short: nat)
    requires n <= |blocks| && Resolved(blocks, elink, n).Ok?
    requires forall i :: 0 <= i < n ==> ReplyLength(elink(i, blocks[i])) <= |blocks[i]|
    requires short < n && ReplyLength(elink(short, blocks[short])) < |blocks[short]|
    ensures |Resolved(blocks, elink, n).value| < |Flatten(blocks[..n])|
  {
    ResolvedLength(blocks, elink, n);
    ShortReplyTotal(blocks, elink, n, short);
  }

  lemma {:induction false} ShortReplyTotal(blocks: seq<seq<Gi>>, elink: Elink, n: nat, short: nat)
    requires n <= |blocks|
    requires forall i :: 0 <= i < n ==> ReplyLength(elink(i, blocks[i])) <= |blocks[i]|
    requires short <= n
    ensures TotalEntries(blocks, elink, n) <= |Flatten(blocks[..n])|
    ensures short < n && ReplyLength(elink(short, blocks[short])) < |blocks[short]| ==>
              TotalEntries(blocks, elink, n) < |Flatten(blocks[..n])|
  {
    if n > 0 {
      assert blocks[..n][..n - 1] == blocks[..n - 1];
      ShortReplyTotal(blocks, elink, n - 1, if short == n then n - 1 else short);
    }
  }

  /**
   * The first `n` replies answer, block `x`'s reply is one entry short of its
   * block, and every other reply has one entry per requested gi.
   */
  ghost predicate OneShortAt(blocks: seq<seq<Gi>>, elink: Elink, n: nat, x: nat)
    requires n <= |blocks|
  {
    forall i :: 0 <= i < n ==>
      elink(i, blocks[i]).LinkSets? &&
      |elink(i, blocks[i]).entries| + (if i == x then 1 else 0) == |blocks[i]|
  }

  /** Once the short reply is in, `taxID` is one id short of the gi numbers sent. */
  lemma {:induction false} ShortReplyLength(blocks: seq<seq<Gi>>, elink: Elink, n: nat, x: nat)
    requires n <= |blocks| && OneShortAt(blocks, elink, n, x)
    ensures Resolved(blocks, elink, n).Ok?
    ensures |Resolved(blocks, elink, n).value| + (if x < n then 1 else 0) == |Flatten(blocks[..n])|
  {
    if n > 0 {
      ShortReplyLength(blocks, elink, n - 1, x);
      assert blocks[..n][..n - 1] == blocks[..n - 1];
    }
  }

  /** One more reply after the short one: its ids are appended after those of the blocks before it. */
  lemma ShortReplyStep(blocks: seq<seq<Gi>>, elink: Elink, n: nat, x: nat)
    requires 0 < n <= |blocks| && x < n - 1 && OneShortAt(blocks, elink, n, x)
    ensures Resolved(blocks, elink, n - 1).Ok? && Resolved(blocks, elink, n).Ok?
    ensures |Resolved(blocks, elink, n - 1).value| + 1 == |Flatten(blocks[..n - 1])|
    ensures elink(n - 1, blocks[n - 1]).LinkSets? && |elink(n - 1, blocks[n - 1]).entries| == |blocks[n - 1]|
    ensures Resolved(blocks, elink, n).value
              == Resolved(blocks, elink, n - 1).value + EntryIds(elink(n - 1, blocks[n - 1]).entries)
  {
    ShortReplyLength(blocks, elink, n - 1, x);
  }

  /**
   * Reading replies by position misplaces ids: when block `x`'s reply is
   * one entry short and every other reply is exact, the id for entry `j` of
   * a later block `y` lands one place before the position of the gi it was
   * sent for.
   */
  lemma {:induction false} ShortReplyShiftsAt(blocks: seq<seq<Gi>>, elink: Elink, n: nat, x: nat, y: nat, j: nat)
    requires n <= |blocks| && OneShortAt(blocks, elink, n, x)
    requires x < y < n && j < |blocks[y]|
    ensures Resolved(blocks, elink, n).Ok?
    ensures |Flatten(blocks[..y])| >= 1
    ensures |Flatten(blocks[..y])| - 1 + j < |Resolved(blocks, elink, n).value|
    ensures Resolved(blocks, elink, n).value[|Flatten(blocks[..y])| - 1 + j]
              == EntryId(elink(y, blocks[y]).entries[j])
  {
    ShortReplyStep(blocks, elink, n, x);
    var ids := Resolved(blocks, elink, n - 1).value;
    var es := elink(n - 1, blocks[n - 1]).entries;
    if y == n - 1 {
      assert (ids + EntryIds(es))[|ids| + j] == EntryIds(es)[j];
    } else {
      ShortReplyShiftsAt(blocks, elink, n - 1, x, y, j);
      var k := |Flatten(blocks[..y])| - 1 + j;
      assert (ids + EntryIds(es))[k] == ids[k];
    }
  }

  /** The loop of the script: one elink call per block, one `taxID.append` per reply entry. */
  method Resolve(blocks: seq<seq<Gi>>, elink: Elink) returns (r: Result<seq<TaxId>, Abort>)
    ensures r == Resolved(blocks, elink, |blocks|)
  {
    var taxID: seq<TaxId> := [];
    var i := 0;
    while i < |blocks|
      invariant i <= |blocks|
      invariant Resolved(blocks, elink, i) == Ok(taxID)
    {
      var reply := elink(i, blocks[i]);
      if reply.ElinkFailed? {
        ResolvedStaysAborted(blocks, elink, i + 1, |blocks|);
        return Err(ElinkAborted(i));
      }
      var x := 0;
      while x < |reply.entries|
        invariant x <= |reply.entries|
        invariant Resolved(blocks, elink, i).Ok?
        invariant taxID == Resolved(blocks, elink, i).value + EntryIds(reply.entries[..x])
      {
        match reply.entries[x] {
          case Some(id) => taxID := taxID + [id];
          case None => taxID := taxID + [""];
        }
        assert reply.entries[..x + 1] == reply.entries[..x] + [reply.entries[x]];
        x := x + 1;
      }
      assert reply.entries[..x] == reply.entries;
      i := i + 1;
    }
    return Ok(taxID);
  }
}
