/** The records, commands and replies of the key-value state machine. */
module KvTypes {
  import opened Order
  import opened Strings
  import opened Timestamps
  import opened Wrappers

  type Byte = x: int | 0 <= x < 256
  type Bytes = seq<Byte>

  // ------------------------------------------------------------- records

  /** Stored metadata; `expireAt` keeps the seconds-or-milliseconds form it was given in. */
  datatype KvMeta = KvMeta(expireAt: Option<u64>, proposedAtMs: Option<u64>) {
    function ExpiresAtMsOpt(): Option<u64> {
      match expireAt case Some(t) => Some(FlexibleToMillis(t)) case None => None
    }

    /** A record without expiry time expires at the end of time. */
    function ExpiresAtMs(): u64 {
      match ExpiresAtMsOpt() case Some(t) => t case None => U64_MAX
    }
  }

  /** Key of the expiry index. */
  datatype ExpireKey = ExpireKey(timeMs: u64, seqno: nat)

  /** A visible record with its sequence number. */
  datatype SeqV = SeqV(seqno: nat, meta: Option<KvMeta>, data: Bytes) {
    function ExpiresAtMsOpt(): Option<u64> {
      match meta case Some(m) => m.ExpiresAtMsOpt() case None => None
    }

    function IndexKey(): Option<ExpireKey> {
      match ExpiresAtMsOpt() case Some(t) => Some(ExpireKey(t, seqno)) case None => None
    }

    predicate ExpiredAt(now: u64) { ExpiresAtMsOpt().Some? && ExpiresAtMsOpt().value < now }
  }

  /** A stored record: live, or the mark a deletion leaves. */
  datatype SeqMarked = Normal(v: SeqV) | Tombstone(internalSeq: nat) {
    /** The sequence a condition compares against; zero for an absent record. */
    function Seqno(): nat { match this case Normal(v) => v.seqno case Tombstone(_) => 0 }

    function ToSeqV(): Option<SeqV> { match this case Normal(v) => Some(v) case Tombstone(_) => None }

    function IndexKey(): Option<ExpireKey> {
      match this case Normal(v) => v.IndexKey() case Tombstone(_) => None
    }
  }

  function SeqnoOf(v: Option<SeqV>): nat { match v case Some(x) => x.seqno case None => 0 }

  // ------------------------------------------------------------- commands

  datatype MatchSeq = Any | Exact(seqno: nat) | GE(seqno: nat) {
    predicate Matches(s: nat) {
      match this
      case Any => true
      case Exact(n) => s == n
      case GE(n) => s >= n
    }
  }

  datatype MetaSpec = MetaSpec(expireAt: Option<u64>, ttlMs: Option<u64>)

  datatype Operation = Update(data: Bytes) | Delete | AsIs

  datatype UpsertKV = UpsertKV(key: string, cond: MatchSeq, value: Operation, valueMeta: Option<MetaSpec>)

  function UpsertUpdate(key: string, data: Bytes): UpsertKV { UpsertKV(key, GE(0), Update(data), None) }

  function UpsertDelete(key: string): UpsertKV { UpsertKV(key, GE(1), Operation.Delete, None) }

  /** A time-to-live counts from the log time and overrides an absolute expiry. */
  function ResolveMetaSpec(spec: MetaSpec, now: u64): KvMeta {
    KvMeta(match spec.ttlMs case Some(ttl) => Some(SaturatingAdd(now, ttl)) case None => spec.expireAt, Some(now))
  }

  function ResolvedMeta(u: UpsertKV, now: u64): KvMeta {
    ResolveMetaSpec(match u.valueMeta case Some(spec) => spec case None => MetaSpec(None, None), now)
  }

  datatype CompareOperator = Eq | Ne | Lt | Le | Gt | Ge

  datatype Operand = SeqTarget(seqno: nat) | ValueTarget(data: Bytes) | KeysWithPrefix(count: nat)

  datatype Condition = Condition(key: string, target: Operand, op: CompareOperator)

  datatype Predicate = And(children: seq<Predicate>) | Or(children: seq<Predicate>) | Leaf(cond: Condition)

  datatype Payload = Payload(data: Bytes, expireAtMs: Option<u64>, ttlMs: Option<u64>) {
    function ToMetaSpec(): MetaSpec { MetaSpec(expireAtMs, ttlMs) }
  }

  datatype TxnOperation =
    | Get(key: string)
    | Put(key: string, matchSeq: Option<nat>, payload: Payload)
    | DeleteKey(key: string, matchSeq: Option<nat>)
    | DeleteByPrefix(prefix: string)
    | FetchIncreaseU64(key: string, matchSeq: Option<nat>, delta: int, floor: u64)
    | PutSequential(prefix: string, sequenceKey: string, payload: Payload)

  datatype Branch = Branch(guard: Predicate, operations: seq<TxnOperation>)

  datatype Transaction = Transaction(branches: seq<Branch>)

  // --------------------------------------------------------------- replies

  datatype TxnOpResponse =
    | GetResponse(key: string, value: Option<SeqV>)
    | PutResponse(key: string, prev: Option<SeqV>, current: Option<SeqV>)
    | DeleteResponse(key: string, success: bool, prev: Option<SeqV>)
    | DeleteByPrefixResponse(prefix: string, count: nat)
    | FetchIncreaseU64Response(key: string, beforeSeq: nat, before: u64, afterSeq: nat, after: u64)

  datatype KvTransactionReply = KvTransactionReply(executedBranch: Option<nat>, responses: seq<TxnOpResponse>)

  /** A change notification: the record of `key` before and after. */
  datatype Event = Event(key: string, prev: Option<SeqV>, result: Option<SeqV>)

  // ------------------------------------------------------- order of listings

  /** Expiry entries are listed by time, then sequence number. */
  function EntryRank(e: (ExpireKey, string)): seq<int> { [e.0.timeMs, e.0.seqno] + Codes(e.1) }

  predicate EntryLess(a: (ExpireKey, string), b: (ExpireKey, string)) { LexLess(EntryRank(a), EntryRank(b)) }

  lemma EntryLessIsTotal()
    ensures StrictTotalOrder(EntryLess)
  {
    LexIsStrictTotalOrder();
    forall a: (ExpireKey, string), b: (ExpireKey, string) | a != b ensures EntryLess(a, b) || EntryLess(b, a) {
      CodesInjective(a.1, b.1);
      var x, y := EntryRank(a), EntryRank(b);
      assert x[0] == a.0.timeMs && x[1] == a.0.seqno && x[2..] == Codes(a.1);
      assert y[0] == b.0.timeMs && y[1] == b.0.seqno && y[2..] == Codes(b.1);
    }
  }

  function SortedEntries(s: set<(ExpireKey, string)>): (r: seq<(ExpireKey, string)>)
    ensures StrictlySorted(r, EntryLess) && |r| == |s|
    ensures forall e :: e in r <==> e in s
  {
    EntryLessIsTotal();
    ToSorted(s, EntryLess)
  }
}
