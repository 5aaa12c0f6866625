/** An upsert sent as a transaction, and the transaction's reply read as the upsert's. */
module UpsertCompile {
  import opened BooleanExpressions
  import opened IndexInvariant
  import opened KvTypes
  import opened Machine
  import opened Refinement
  import opened Timestamps
  import opened Transactions
  import opened Wrappers

  function SeqCondition(key: string, expected: int, n: nat): TxnCondition {
    TxnCondition(key, expected, Some(SeqTarget(n)))
  }

  const EXPECT_EQ: int := 0
  const EXPECT_GE: int := 2

  function ConditionsOf(u: UpsertKV): seq<TxnCondition> {
    match u.cond
    case Any => []
    case Exact(n) => [SeqCondition(u.key, EXPECT_EQ, n)]
    case GE(n) => [SeqCondition(u.key, EXPECT_GE, n)]
  }

  /** An absolute expiry is sent in milliseconds. */
  function PutOf(u: UpsertKV): TxnOp
    requires u.value.Update?
  {
    var expireAt := match u.valueMeta
      case Some(MetaSpec(Some(t), _)) => Some(FlexibleToMillis(t))
      case _ => None;
    var ttlMs := match u.valueMeta case Some(spec) => spec.ttlMs case None => None;
    TxnOp(Some(PutRequest(u.key, u.value.data, true, expireAt, ttlMs, None)))
  }

  /** The transaction of an upsert: its condition guards the write; otherwise the record is read. */
  function FromUpsert(u: UpsertKV): TxnRequest
    requires !u.value.AsIs?
  {
    var op := match u.value
      case Update(_) => PutOf(u)
      case Delete => TxnOp(Some(DeleteRequest(u.key, true, None)));
    var conditions := ConditionsOf(u);
    TxnRequest([], conditions, [op], if conditions == [] then [] else [TxnOp(Some(GetRequest(u.key)))])
  }

  datatype Change = Change(prev: Option<SeqV>, result: Option<SeqV>)

  datatype InvalidReply = NoResponses | EmptyResponse | UnexpectedResponse

  /** The first response tells what the upsert did; a response may come without content. */
  function IntoUpsertReply(responses: seq<Option<TxnOpResponse>>): Result<Change, InvalidReply> {
    if responses == [] then Err(NoResponses)
    else
      match responses[0]
      case None => Err(EmptyResponse)
      case Some(PutResponse(_, prev, current)) => Ok(Change(prev, current))
      case Some(DeleteResponse(_, success, prev)) => Ok(Change(prev, if success then None else prev))
      case Some(GetResponse(_, value)) => Ok(Change(value, value))
      case Some(_) => Err(UnexpectedResponse)
  }

  function OnTheWire(responses: seq<TxnOpResponse>): seq<Option<TxnOpResponse>> {
    seq(|responses|, i requires 0 <= i < |responses| => Some(responses[i]))
  }

  /** The upsert run as a transaction, its reply decoded. */
  function ViaTransaction(st: Store, u: UpsertKV, now: u64): Outcome<Result<Change, InvalidReply>>
    requires !u.value.AsIs?
  {
    var req := FromUpsert(u);
    var out := ApplyTransaction(st, TransactionFrom(req), now);
    Outcome(out.st, IntoUpsertReply(OnTheWire(IntoTxnReply(out.reply, req).responses)), out.events)
  }

  // ------------------------------------- records up to the timestamp format

  function NormalMeta(m: KvMeta): KvMeta { m.(expireAt := m.ExpiresAtMsOpt()) }

  /** The record with its expiry in milliseconds. */
  function NormalRecord(v: SeqV): SeqV {
    v.(meta := match v.meta case Some(m) => Some(NormalMeta(m)) case None => None)
  }

  function NormalOption(v: Option<SeqV>): Option<SeqV> {
    match v case Some(x) => Some(NormalRecord(x)) case None => None
  }

  function NormalRecords(records: map<string, SeqV>): map<string, SeqV> {
    map k | k in records :: NormalRecord(records[k])
  }

  ghost predicate PositiveSeqnos(records: map<string, SeqV>) {
    forall k :: k in records ==> records[k].seqno >= 1
  }

  // ------------------------------------------------------------- proofs

  /** The transaction writes exactly when the upsert's condition matches, and reads otherwise. */
  lemma TransactionRuns(st: Store, u: UpsertKV, now: u64)
    requires !u.value.AsIs?
    ensures var t := ViaTransaction(st, u, now);
      if u.cond.Matches(SeqnoOf(Lookup(st, u.key))) then
        var w := ExecuteOp(st, OperationFrom(FromUpsert(u).ifThen[0]), now);
        t.st == w.st && t.reply == IntoUpsertReply([Some(w.reply)]) && t.events == w.events
      else
        t == Outcome(st, Ok(Change(Lookup(st, u.key), Lookup(st, u.key))), [])
  {
    var req := FromUpsert(u);
    FlatEqualsStaged(st, req, now);
    assert FirstOperation(st, req.operations, 0) == None;
    ConditionMatches(st, u);
    if u.cond.Matches(SeqnoOf(Lookup(st, u.key))) {
      SingleOperation(st, req.ifThen[0], now);
      assert req.ifThen == [req.ifThen[0]];
    } else {
      SingleOperation(st, TxnOp(Some(GetRequest(u.key))), now);
    }
  }

  lemma ConditionMatches(st: Store, u: UpsertKV)
    ensures AllMet(ConditionsOf(u), Truth(st)) == u.cond.Matches(SeqnoOf(Lookup(st, u.key)))
  {
    var cs := ConditionsOf(u);
    if cs != [] {
      assert cs == [cs[0]] && cs[0] in cs;
      assert AllMet(cs, Truth(st)) == EvalCondition(st, ConditionFrom(cs[0]));
    }
  }

  lemma {:induction false} SingleOperation(st: Store, op: TxnOp, now: u64)
    ensures var w := ExecuteOp(st, OperationFrom(op), now);
      ExecuteOps(st, OperationsFrom([op]), now) == Outcome(w.st, [w.reply], w.events)
    ensures forall r :: OnTheWire([r]) == [Some(r)]
  {
    var ops := OperationsFrom([op]);
    assert ops == [OperationFrom(op)] && ops[1..] == [];
    var w := ExecuteOp(st, ops[0], now);
    assert [w.reply] + [] == [w.reply] && w.events + [] == w.events;
  }

  /** Deleting through a transaction: a key that is absent is answered as unchanged. */
  lemma DeleteAgrees(r: ReferenceStore, u: UpsertKV, now: u64)
    requires u.value.Delete? && PositiveSeqnos(r.records)
    ensures var direct, via := UpsertKv(Reference(r), u, now), ViaTransaction(Reference(r), u, now);
      via == Outcome(direct.st, Ok(Change(direct.reply.0, direct.reply.1)), direct.events)
  {
    TransactionRuns(Reference(r), u, now);
    if u.cond.Matches(SeqnoOf(Lookup(Reference(r), u.key))) {
      DeleteRuns(r, u.key, now);
      DirectDelete(r, u, now);
    }
  }

  /** The store and the changes after a deletion that goes through. */
  function Removed(r: ReferenceStore, key: string): ReferenceStore { r.(records := r.records - {key}) }

  lemma DirectDelete(r: ReferenceStore, u: UpsertKV, now: u64)
    requires u.value.Delete? && u.cond.Matches(SeqnoOf(Lookup(Reference(r), u.key)))
    ensures var prev := Lookup(Reference(r), u.key);
      UpsertKv(Reference(r), u, now)
      == Outcome(Reference(Removed(r, u.key)), (prev, None), PushChange(u.key, prev, None))
  {
    assert u.key !in r.records ==> r.records - {u.key} == r.records;
  }

  lemma DeleteRuns(r: ReferenceStore, key: string, now: u64)
    requires PositiveSeqnos(r.records)
    ensures var prev := Lookup(Reference(r), key);
      ExecuteOp(Reference(r), DeleteKey(key, None), now)
      == Outcome(Reference(Removed(r, key)), DeleteResponse(key, prev.Some?, prev), PushChange(key, prev, None))
  {
    if key in r.records {
      DirectDelete(r, UpsertDelete(key), now);
    } else {
      assert r.records - {key} == r.records;
    }
  }

  /** An upsert whose condition does not match only reads, either way. */
  lemma UnmatchedAgrees(r: ReferenceStore, u: UpsertKV, now: u64)
    requires !u.value.AsIs? && !u.cond.Matches(SeqnoOf(Lookup(Reference(r), u.key)))
    ensures var direct, via := UpsertKv(Reference(r), u, now), ViaTransaction(Reference(r), u, now);
      via == Outcome(direct.st, Ok(Change(direct.reply.0, direct.reply.1)), direct.events)
  {
    TransactionRuns(Reference(r), u, now);
  }

  lemma DirectPut(r: ReferenceStore, u: UpsertKV, now: u64)
    requires u.value.Update? && u.cond.Matches(SeqnoOf(Lookup(Reference(r), u.key)))
    ensures var direct, a := UpsertKv(Reference(r), u, now), StoredBy(r, u.value.data, ResolvedMeta(u, now), now);
      direct.reply == (Lookup(Reference(r), u.key), a) && direct.st == Reference(AfterStore(r, u.key, a))
  {
  }

  /** A matched upsert of a value, sent as a transaction, stores what the metadata it sends resolves to. */
  lemma PutRuns(r: ReferenceStore, u: UpsertKV, now: u64)
    requires u.value.Update? && u.cond.Matches(SeqnoOf(Lookup(Reference(r), u.key)))
    ensures var via, b := ViaTransaction(Reference(r), u, now), StoredBy(r, u.value.data, SentMeta(u, now), now);
      && via.reply == Ok(Change(Lookup(Reference(r), u.key), b))
      && via.st == Reference(AfterStore(r, u.key, b))
  {
    TransactionRuns(Reference(r), u, now);
    var put := PutOf(u).request.value;
    var sent := UpsertKV(u.key, GE(0), u.value, Some(MetaSpec(put.expireAt, put.ttlMs)));
    DirectPut(r, sent, now);
  }

  /** The metadata the state machine resolves from the transaction. */
  function SentMeta(u: UpsertKV, now: u64): KvMeta
    requires u.value.Update?
  {
    var put := PutOf(u).request.value;
    ResolveMetaSpec(MetaSpec(put.expireAt, put.ttlMs), now)
  }

  /** The record a matched value write leaves, none if it is already expired. */
  function StoredBy(r: ReferenceStore, data: Bytes, meta: KvMeta, now: u64): Option<SeqV> {
    if meta.ExpiresAtMs() < now then None else Some(SeqV(r.sequence + 1, Some(meta), data))
  }

  function AfterStore(r: ReferenceStore, key: string, v: Option<SeqV>): ReferenceStore {
    ReferenceStore(match v case Some(x) => r.records[key := x] case None => r.records - {key}, r.sequence + 1)
  }

  lemma NormalAfter(r: ReferenceStore, key: string, a: Option<SeqV>, b: Option<SeqV>)
    requires NormalOption(a) == NormalOption(b)
    ensures NormalRecords(AfterStore(r, key, a).records) == NormalRecords(AfterStore(r, key, b).records)
  {
  }

  /** The upsert carries an absolute expiry, in seconds before March 1973, that the second
      conversion misreads, and that is not past even then. */
  predicate Misread(u: UpsertKV, now: u64) {
    && u.value.Update? && u.valueMeta.Some? && u.valueMeta.value.ttlMs.None?
    && u.valueMeta.value.expireAt.Some?
    && 0 < u.valueMeta.value.expireAt.value <= 100_000_000
    && now <= u.valueMeta.value.expireAt.value * 1_000_000
  }

  lemma MetaAgrees(u: UpsertKV, now: u64)
    requires u.value.Update?
    ensures var a, b := ResolvedMeta(u, now), SentMeta(u, now);
      (a.ExpiresAtMs() < now && b.ExpiresAtMs() < now) || NormalMeta(a) == NormalMeta(b) <==> !Misread(u, now)
    ensures NormalMeta(ResolvedMeta(u, now)) == NormalMeta(SentMeta(u, now)) ==>
      ResolvedMeta(u, now).ExpiresAtMs() == SentMeta(u, now).ExpiresAtMs()
  {
    if u.valueMeta.Some? && u.valueMeta.value.expireAt.Some? {
      FlexibleTwice(u.valueMeta.value.expireAt.value);
    }
  }

  /** Running an upsert as a transaction leaves the same records, gives the same previous and
      resulting record and takes the same sequence number, unless its condition matches and its
      expiry is misread; then the resulting record differs. Records are compared with their
      expiry in milliseconds. */
  lemma UpsertViaTransactionIff(r: ReferenceStore, u: UpsertKV, now: u64)
    requires !u.value.AsIs? && PositiveSeqnos(r.records)
    ensures var direct, via := UpsertKv(Reference(r), u, now), ViaTransaction(Reference(r), u, now);
      && via.st.Reference? && via.reply.Ok?
      && via.st.r.sequence == direct.st.r.sequence
      && via.reply.value.prev == direct.reply.0
      && ((&& NormalRecords(Records(via.st)) == NormalRecords(Records(direct.st))
           && NormalOption(via.reply.value.result) == NormalOption(direct.reply.1))
          <==> !(u.cond.Matches(SeqnoOf(Lookup(Reference(r), u.key))) && Misread(u, now)))
  {
    if u.value.Delete? {
      DeleteAgrees(r, u, now);
    } else {
      if !u.cond.Matches(SeqnoOf(Lookup(Reference(r), u.key))) {
        UnmatchedAgrees(r, u, now);
      } else {
        DirectPut(r, u, now);
        PutRuns(r, u, now);
        MetaAgrees(u, now);
        var a, b := StoredBy(r, u.value.data, ResolvedMeta(u, now), now),
                    StoredBy(r, u.value.data, SentMeta(u, now), now);
        StoredAgrees(r, u.value.data, ResolvedMeta(u, now), SentMeta(u, now), now);
        if NormalOption(a) == NormalOption(b) { NormalAfter(r, u.key, a, b); }
      }
    }
  }

  /** An expiry of 2,000,000 seconds in November 2023: the upsert deletes the record at once, the
      transaction stores it to expire in May 2033. */
  lemma MisreadExample()
    ensures var u := UpsertKV("k", Any, Update([]), Some(MetaSpec(Some(2_000_000), None)));
      var now, empty := 1_700_000_000_000, Reference(ReferenceStore(map[], 0));
      && UpsertKv(empty, u, now).reply.1 == None
      && ViaTransaction(empty, u, now).reply.Ok?
      && ViaTransaction(empty, u, now).reply.value.result
         == Some(SeqV(1, Some(KvMeta(Some(2_000_000_000), Some(now))), []))
  {
    var u := UpsertKV("k", Any, Update([]), Some(MetaSpec(Some(2_000_000), None)));
    DirectPut(ReferenceStore(map[], 0), u, 1_700_000_000_000);
    PutRuns(ReferenceStore(map[], 0), u, 1_700_000_000_000);
  }

  lemma StoredAgrees(r: ReferenceStore, data: Bytes, a: KvMeta, b: KvMeta, now: u64)
    requires NormalMeta(a) == NormalMeta(b) ==> a.ExpiresAtMs() == b.ExpiresAtMs()
    ensures NormalOption(StoredBy(r, data, a, now)) == NormalOption(StoredBy(r, data, b, now))
            <==> (a.ExpiresAtMs() < now && b.ExpiresAtMs() < now) || NormalMeta(a) == NormalMeta(b)
  {
  }

  /** The same on the indexed store of any reachable state. */
  lemma IndexedUpsertViaTransactionIff(s: IndexedStore, u: UpsertKV, now: u64)
    requires WellIndexed(s) && !u.value.AsIs?
    ensures var direct, via := UpsertKv(Indexed(s), u, now), ViaTransaction(Indexed(s), u, now);
      && via.st.Indexed? && via.reply.Ok?
      && WellIndexed(via.st.s) && via.st.s.sequence == direct.st.s.sequence
      && via.reply.value.prev == direct.reply.0
      && ((&& NormalRecords(Records(via.st)) == NormalRecords(Records(direct.st))
           && NormalOption(via.reply.value.result) == NormalOption(direct.reply.1))
          <==> !(u.cond.Matches(GetMarked(s, u.key).Seqno()) && Misread(u, now)))
  {
    UpsertTracks(Indexed(s), u, now);
    CmdTracks(Indexed(s), TxnCmd(TransactionFrom(FromUpsert(u))), now);
    LookupAgrees(Indexed(s), u.key);
    assert PositiveSeqnos(Visible(s)) by {
      forall k | k in Visible(s) ensures Visible(s)[k].seqno >= 1 { assert Live(s, k); }
    }
    UpsertViaTransactionIff(Abstract(s), u, now);
    assert SeqnoOf(Lookup(Indexed(s), u.key)) == GetMarked(s, u.key).Seqno();
  }
}
