/**
 * annotateMSA, taxonomy records: one efetch per taxonomy id, appending the
 * record, or `''` when anything in the `try` raises.
 */
module Fetcher {
  import opened Wrappers
  import opened Resolver

  /** The first element of an efetch reply, with the two keys the script reads. */
  datatype TaxRecord = TaxRecord(scientificName: Option<string>, lineage: Option<string>)

  /** An element of `records`: the string `''` or a fetched record. */
  datatype Entry = Blank | Rec(rec: TaxRecord)

  /**
   * What `efetch`, `read`, `close` and `[0]` give for one key: one of them
   * raises before the append, or the first record comes back.
   */
  datatype FetchReply = FetchFailed | Fetched(rec: TaxRecord)

  /** The efetch service: the reply to call number `i` for the given key. */
  type Efetch = (nat, TaxId) -> FetchReply

  /** The record has both `ScientificName` and `Lineage`, so the two prints after the append succeed. */
  predicate Complete(t: TaxRecord) {
    t.scientificName.Some? && t.lineage.Some?
  }

  /** A reply that makes the script append twice: the record, then `''` from the `except`. */
  predicate Incomplete(reply: FetchReply) {
    reply.Fetched? && !Complete(reply.rec)
  }

  /** What one pass of the loop appends to `records`. */
  function Appended(reply: FetchReply): (es: seq<Entry>)
    ensures 1 <= |es| <= 2
    ensures |es| == 2 <==> Incomplete(reply)
    ensures reply.FetchFailed? ==> es == [Blank]
    ensures reply.Fetched? ==> es[0] == Rec(reply.rec)
    ensures reply.Fetched? && Complete(reply.rec) ==> es == [Rec(reply.rec)]
    ensures Incomplete(reply) ==> es == [Rec(reply.rec), Blank]
  {
    match reply
    case FetchFailed => [Blank]
    case Fetched(t) => if Complete(t) then [Rec(t)] else [Rec(t), Blank]
  }

  /** `records` after the first `n` keys. */
  function Records(taxID: seq<TaxId>, efetch: Efetch, n: nat): seq<Entry>
    requires n <= |taxID|
  {
    if n == 0 then [] else Records(taxID, efetch, n - 1) + Appended(efetch(n - 1, taxID[n - 1]))
  }

  /** How many of the first `n` keys gave a record without `Lineage` or `ScientificName`. */
  function IncompleteCount(taxID: seq<TaxId>, efetch: Efetch, n: nat): nat
    requires n <= |taxID|
  {
    if n == 0 then 0
    else IncompleteCount(taxID, efetch, n - 1) + if Incomplete(efetch(n - 1, taxID[n - 1])) then 1 else 0
  }

  /**
   * Each key adds one entry, and one more for every incomplete record, so
   * `records` is never shorter than `taxID` and is exactly as long when no
   * fetched record is incomplete.
   */
  lemma {:induction false} RecordsLength(taxID: seq<TaxId>, efetch: Efetch, n: nat)
    requires n <= |taxID|
    ensures |Records(taxID, efetch, n)| == n + IncompleteCount(taxID, efetch, n)
    ensures |Records(taxID, efetch, n)| >= n
    ensures |Records(taxID, efetch, n)| == n <==>
              forall k :: 0 <= k < n ==> !Incomplete(efetch(k, taxID[k]))
  {
    if n > 0 {
      RecordsLength(taxID, efetch, n - 1);
    }
  }

  /** The entry a key leaves at its own position when nothing before it shifted the list. */
  function Placed(reply: FetchReply): Entry {
    match reply
    case FetchFailed => Blank
    case Fetched(t) => Rec(t)
  }

  /** With no incomplete record among the first `n` keys, entry `k` is what key `k` fetched. */
  lemma {:induction false} RecordsAligned(taxID: seq<TaxId>, efetch: Efetch, n: nat, k: nat)
    requires n <= |taxID| && k < n
    requires forall i :: 0 <= i < n ==> !Incomplete(efetch(i, taxID[i]))
    ensures |Records(taxID, efetch, n)| == n
    ensures Records(taxID, efetch, n)[k] == Placed(efetch(k, taxID[k]))
  {
    RecordsLength(taxID, efetch, n);
    RecordsLength(taxID, efetch, n - 1);
    if k < n - 1 {
      RecordsAligned(taxID, efetch, n - 1, k);
    }
  }

  /**
   * One incomplete record at key `k` (none before it) pushes every later
   * record one place on: position `k + 1` holds `''` and the record of key
   * `j > k` lands at position `j + 1`.
   */
  lemma {:induction false} IncompleteShifts(taxID: seq<TaxId>, efetch: Efetch, n: nat, k: nat, j: nat)
    requires n <= |taxID| && k < j < n
    requires Incomplete(efetch(k, taxID[k]))
    requires forall i :: 0 <= i < n && i != k ==> !Incomplete(efetch(i, taxID[i]))
    ensures |Records(taxID, efetch, n)| == n + 1
    ensures Records(taxID, efetch, n)[k] == Rec(efetch(k, taxID[k]).rec)
    ensures Records(taxID, efetch, n)[k + 1] == Blank
    ensures Records(taxID, efetch, n)[j + 1] == Placed(efetch(j, taxID[j]))
  {
    IncompleteCountOne(taxID, efetch, n, k);
    RecordsLength(taxID, efetch, n);
    IncompleteKept(taxID, efetch, n, k);
    ShiftedKept(taxID, efetch, n, k, j);
  }

  lemma IncompleteKept(taxID: seq<TaxId>, efetch: Efetch, n: nat, k: nat)
    requires k < n <= |taxID| && Incomplete(efetch(k, taxID[k]))
    requires forall i :: 0 <= i < k ==> !Incomplete(efetch(i, taxID[i]))
    ensures k + 1 < |Records(taxID, efetch, n)|
    ensures Records(taxID, efetch, n)[k] == Rec(efetch(k, taxID[k]).rec)
    ensures Records(taxID, efetch, n)[k + 1] == Blank
  {
    IncompleteEntries(taxID, efetch, k);
    RecordsPrefix(taxID, efetch, k + 1, n, k);
    RecordsPrefix(taxID, efetch, k + 1, n, k + 1);
  }

  lemma ShiftedKept(taxID: seq<TaxId>, efetch: Efetch, n: nat, k: nat, j: nat)
    requires k < j < n <= |taxID| && Incomplete(efetch(k, taxID[k]))
    requires forall i :: 0 <= i < n && i != k ==> !Incomplete(efetch(i, taxID[i]))
    ensures j + 1 < |Records(taxID, efetch, n)|
    ensures Records(taxID, efetch, n)[j + 1] == Placed(efetch(j, taxID[j]))
  {
    ShiftedEntry(taxID, efetch, k, j);
    RecordsPrefix(taxID, efetch, j + 1, n, j + 1);
  }

  /** Later keys only append: the entries already in `records` stay where they are. */
  lemma {:induction false} RecordsPrefix(taxID: seq<TaxId>, efetch: Efetch, m: nat, n: nat, p: nat)
    requires m <= n <= |taxID| && p < |Records(taxID, efetch, m)|
    ensures p < |Records(taxID, efetch, n)|
    ensures Records(taxID, efetch, n)[p] == Records(taxID, efetch, m)[p]
    decreases n - m
  {
    if m < n {
      RecordsPrefix(taxID, efetch, m, n - 1, p);
    }
  }

  /** Exactly one incomplete record among the first `n` keys. */
  lemma {:induction false} IncompleteCountOne(taxID: seq<TaxId>, efetch: Efetch, n: nat, k: nat)
    requires k < n <= |taxID| && Incomplete(efetch(k, taxID[k]))
    requires forall i :: 0 <= i < n && i != k ==> !Incomplete(efetch(i, taxID[i]))
    ensures IncompleteCount(taxID, efetch, n) == 1
  {
    if k < n - 1 {
      IncompleteCountOne(taxID, efetch, n - 1, k);
    } else {
      RecordsLength(taxID, efetch, k);
    }
  }

  /** The first incomplete record is appended at its own position, followed by `''`. */
  lemma IncompleteEntries(taxID: seq<TaxId>, efetch: Efetch, k: nat)
    requires k < |taxID| && Incomplete(efetch(k, taxID[k]))
    requires forall i :: 0 <= i < k ==> !Incomplete(efetch(i, taxID[i]))
    ensures |Records(taxID, efetch, k + 1)| == k + 2
    ensures Records(taxID, efetch, k + 1)[k] == Rec(efetch(k, taxID[k]).rec)
    ensures Records(taxID, efetch, k + 1)[k + 1] == Blank
  {
    RecordsLength(taxID, efetch, k);
  }

  /** After one incomplete record at `k`, the entry of a later key `j` lands at `j + 1`. */
  lemma ShiftedEntry(taxID: seq<TaxId>, efetch: Efetch, k: nat, j: nat)
    requires k < j < |taxID| && Incomplete(efetch(k, taxID[k]))
    requires forall i :: 0 <= i <= j && i != k ==> !Incomplete(efetch(i, taxID[i]))
    ensures |Records(taxID, efetch, j + 1)| == j + 2
    ensures Records(taxID, efetch, j + 1)[j + 1] == Placed(efetch(j, taxID[j]))
  {
    IncompleteCountOne(taxID, efetch, j, k);
    RecordsLength(taxID, efetch, j);
  }

  /** The loop of the script: one efetch per key, appending as the `try`/`except` does. */
  method Fetch(taxID: seq<TaxId>, efetch: Efetch) returns (records: seq<Entry>)
    ensures records == Records(taxID, efetch, |taxID|)
  {
    records := [];
    for i := 0 to |taxID|
      invariant records == Records(taxID, efetch, i)
    {
      var reply := efetch(i, taxID[i]);
      match reply {
        case FetchFailed =>
          records := records + [Blank];
        case Fetched(t) =>
          records := records + [Rec(t)];
          if t.lineage.None? || t.scientificName.None? {
            records := records + [Blank];
          }
      }
    }
  }
}
