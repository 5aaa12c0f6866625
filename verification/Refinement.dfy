/** The indexed store refines the reference store: whatever log is applied, both answer the same,
    publish the same changes and show the same records. */
module Refinement {
  import opened IndexInvariant
  import opened KvTypes
  import opened Machine
  import opened Timestamps
  import opened Wrappers

  /** Forget tombstones, the index and the cleanup start. */
  function Abstract(s: IndexedStore): ReferenceStore { ReferenceStore(Visible(s), s.sequence) }

  function AbstractStore(st: Store): Store {
    match st case Indexed(s) => Reference(Abstract(s)) case Reference(_) => st
  }

  /** No live record expires before the cleanup start, so reading the index from there on misses
      nothing. */
  ghost predicate CleanedUp(s: IndexedStore) {
    forall k :: Live(s, k) && s.user[k].IndexKey().Some? ==>
      s.cleanupStart <= s.user[k].IndexKey().value.timeMs
  }

  /** What a watcher knows after replaying change notifications. */
  function Replay(records: map<string, SeqV>, events: seq<Event>): map<string, SeqV>
    decreases |events|
  {
    if events == [] then records
    else
      var e := events[0];
      Replay(match e.result case Some(v) => records[e.key := v] case None => records - {e.key}, events[1..])
  }

  lemma {:induction false} ReplayConcat(records: map<string, SeqV>, a: seq<Event>, b: seq<Event>)
    ensures Replay(records, a + b) == Replay(Replay(records, a), b)
    decreases |a|
  {
    if a == [] {
      assert a + b == b;
    } else {
      var e := a[0];
      assert (a + b)[0] == e && (a + b)[1..] == a[1..] + b;
      ReplayConcat(match e.result case Some(v) => records[e.key := v] case None => records - {e.key}, a[1..], b);
    }
  }

  /** Metadata that leaves no record behind the cleanup start: it does not expire, is already
      expired, or expires at or after the start. */
  predicate SafeMeta(m: KvMeta, now: u64, start: u64) {
    m.ExpiresAtMsOpt().None? || m.ExpiresAtMs() < now || start <= m.ExpiresAtMs()
  }

  predicate SafeUpsert(u: UpsertKV, now: u64, start: u64) {
    u.value.Delete? || SafeMeta(ResolvedMeta(u, now), now, start)
  }

  predicate SafePayload(p: Payload, now: u64, start: u64) {
    SafeMeta(ResolveMetaSpec(p.ToMetaSpec(), now), now, start)
  }

  predicate SafeOp(op: TxnOperation, now: u64, start: u64) {
    match op
    case Put(_, _, payload) => SafePayload(payload, now, start)
    case PutSequential(_, _, payload) => SafePayload(payload, now, start)
    case _ => true
  }

  predicate SafeOps(ops: seq<TxnOperation>, now: u64, start: u64) {
    forall op :: op in ops ==> SafeOp(op, now, start)
  }

  predicate SafeCmd(cmd: Cmd, now: u64, start: u64) {
    match cmd
    case UpsertCmd(u) => SafeUpsert(u, now, start)
    case TxnCmd(txn) => forall b :: b in txn.branches ==> SafeOps(b.operations, now, start)
    case SystemCmd => true
  }

  /** A step of the indexed store does what the reference step does: same reply, same changes,
      corresponding stores. It keeps the index exact and, if it is safe, keeps the store cleaned up;
      its changes lead from the old records to the new ones. */
  ghost predicate Tracks<R>(st: Store, out: Outcome<R>, reference: Outcome<R>, safe: bool) {
    && st.Indexed? && out.st.Indexed?
    && reference == Outcome(AbstractStore(out.st), out.reply, out.events)
    && WellIndexed(out.st.s)
    && st.s.sequence <= out.st.s.sequence
    && out.st.s.cleanupStart == st.s.cleanupStart
    && (CleanedUp(st.s) && safe ==> CleanedUp(out.st.s))
    && Replay(Records(st), out.events) == Records(out.st)
  }

  // -------------------------------------------------------------- upserts

  /** The visible records after an upsert: one record stored, one removed, or no change. */
  lemma VisibleAfter(s: IndexedStore, u: UpsertKV, now: u64)
    ensures var a := UpsertIndexed(s, u, now);
      && a.st.Indexed?
      && a.prev == (if u.key in Visible(s) then Some(Visible(s)[u.key]) else None)
      && Visible(a.st.s) == match a.result
                            case Some(v) => Visible(s)[u.key := v]
                            case None => Visible(s) - {u.key}
  {
    PrimaryShape(s, u, now);
    var w := UpsertPrimaryIndex(s, u, now);
    var t := UpdateExpireIndex(w.s, u.key, w.prev, w.result);
    assert t.user == w.s.user;
    OneKeyChanged(s, t, u.key);
  }

  lemma OneKeyChanged(s: IndexedStore, t: IndexedStore, key: string)
    requires forall k :: k != key ==> (Live(t, k) <==> Live(s, k)) && (Live(s, k) ==> t.user[k] == s.user[k])
    ensures Visible(t) == match GetMarked(t, key).ToSeqV()
                          case Some(v) => Visible(s)[key := v]
                          case None => Visible(s) - {key}
  {
    assert forall k :: (k in Visible(t) <==> Live(t, k)) && (k in Visible(s) <==> Live(s, k));
  }

  /** What an upsert returns and does to the sequence number, in terms of the record it finds. */
  lemma UpsertResult(s: IndexedStore, u: UpsertKV, now: u64)
    ensures var a, b := UpsertIndexed(s, u, now), UpsertReference(Abstract(s), u, now);
      b.prev == a.prev && b.result == a.result && b.st.r.sequence == a.st.s.sequence
  {
  }

  /** An upsert on the indexed store means the reference upsert on the visible records. */
  lemma UpsertRefines(s: IndexedStore, u: UpsertKV, now: u64)
    ensures var a, b := UpsertIndexed(s, u, now), UpsertReference(Abstract(s), u, now);
      b == Upserted(AbstractStore(a.st), a.prev, a.result)
  {
    UpsertResult(s, u, now);
    VisibleAfter(s, u, now);
    ReferenceAfter(Abstract(s), u, now);
  }

  lemma ReferenceAfter(r: ReferenceStore, u: UpsertKV, now: u64)
    ensures var b := UpsertReference(r, u, now);
      && b.st.Reference?
      && b.st.r.records == match b.result
                           case Some(v) => r.records[u.key := v]
                           case None => r.records - {u.key}
  {
    if u.key in r.records {
      assert r.records[u.key := r.records[u.key]] == r.records;
    } else {
      assert r.records - {u.key} == r.records;
    }
  }

  /** The sequence number grows by one exactly when a value is written, expired or not. */
  lemma SequenceGrowth(s: IndexedStore, u: UpsertKV, now: u64)
    ensures UpsertIndexed(s, u, now).st.s.sequence
            == s.sequence + if u.cond.Matches(GetMarked(s, u.key).Seqno())
                               && (u.value.Update? || (u.value.AsIs? && Live(s, u.key))) then 1 else 0
  {
  }

  lemma ReplayUpsert(s: IndexedStore, u: UpsertKV, now: u64)
    ensures var a := UpsertIndexed(s, u, now);
      Replay(Visible(s), PushChange(u.key, a.prev, a.result)) == Visible(a.st.s)
  {
    VisibleAfter(s, u, now);
    var a := UpsertIndexed(s, u, now);
    if a.prev == a.result {
      assert u.key in Visible(s) ==> Visible(s)[u.key := Visible(s)[u.key]] == Visible(s);
      assert u.key !in Visible(s) ==> Visible(s) - {u.key} == Visible(s);
    } else {
      assert [Event(u.key, a.prev, a.result)][1..] == [];
    }
  }

  /** A record that was written was not expired when it was written. */
  lemma UpsertKeepsCleanedUp(s: IndexedStore, u: UpsertKV, now: u64)
    requires CleanedUp(s) && SafeUpsert(u, now, s.cleanupStart)
    ensures CleanedUp(UpsertIndexed(s, u, now).st.s)
  {
    PrimaryShape(s, u, now);
    var t := UpsertIndexed(s, u, now).st.s;
    forall k | Live(t, k) && t.user[k].IndexKey().Some?
      ensures t.cleanupStart <= t.user[k].IndexKey().value.timeMs
    {
      assert k != u.key ==> t.user[k] == s.user[k];
    }
  }

  lemma UpsertTracks(st: Store, u: UpsertKV, now: u64)
    requires st.Indexed? && WellIndexed(st.s)
    ensures Tracks(st, UpsertKv(st, u, now), UpsertKv(AbstractStore(st), u, now), SafeUpsert(u, now, st.s.cleanupStart))
  {
    UpsertKeepsIndex(st.s, u, now);
    UpsertRefines(st.s, u, now);
    PrimaryShape(st.s, u, now);
    ReplayUpsert(st.s, u, now);
    if CleanedUp(st.s) && SafeUpsert(u, now, st.s.cleanupStart) { UpsertKeepsCleanedUp(st.s, u, now); }
  }

  // ---------------------------------------------------------- transactions

  lemma LookupAgrees(st: Store, k: string)
    ensures Lookup(AbstractStore(st), k) == Lookup(st, k)
    ensures Records(AbstractStore(st)) == Records(st)
  {
  }

  /** A predicate sees only the truth of its conditions. */
  lemma {:induction false} EvalCongruence(p: Predicate, f: Condition -> bool, g: Condition -> bool)
    requires forall c :: f(c) == g(c)
    ensures Eval(p, f) == Eval(p, g)
  {
    match p
    case Leaf(_) =>
    case And(children) => forall q | q in children ensures Eval(q, f) == Eval(q, g) { EvalCongruence(q, f, g); }
    case Or(children) => forall q | q in children ensures Eval(q, f) == Eval(q, g) { EvalCongruence(q, f, g); }
  }

  lemma PredicateAgrees(st: Store, p: Predicate)
    ensures EvalPredicate(AbstractStore(st), p) == EvalPredicate(st, p)
  {
    forall c: Condition ensures EvalCondition(AbstractStore(st), c) == EvalCondition(st, c) {
      LookupAgrees(st, c.key);
    }
    EvalCongruence(p, Truth(AbstractStore(st)), Truth(st));
  }

  lemma {:induction false} FirstMatchAgrees(st: Store, branches: seq<Branch>)
    ensures FirstMatch(AbstractStore(st), branches) == FirstMatch(st, branches)
    decreases |branches|
  {
    if branches != [] {
      PredicateAgrees(st, branches[0].guard);
      FirstMatchAgrees(st, branches[1..]);
    }
  }

  /** Steps that track the reference compose. */
  lemma TracksCompose<A, B, C>(st: Store, first: Outcome<A>, firstRef: Outcome<A>,
                               rest: Outcome<B>, restRef: Outcome<B>,
                               both: Outcome<C>, bothRef: Outcome<C>, a: bool, b: bool)
    requires Tracks(st, first, firstRef, a) && Tracks(first.st, rest, restRef, b)
    requires both.st == rest.st && both.events == first.events + rest.events
    requires bothRef == Outcome(restRef.st, both.reply, firstRef.events + restRef.events)
    ensures Tracks(st, both, bothRef, a && b)
  {
    ReplayConcat(Records(st), first.events, rest.events);
  }

  lemma {:induction false} DeleteListedTracks(st: Store, keys: seq<string>, now: u64)
    requires st.Indexed? && WellIndexed(st.s)
    ensures Tracks(st, DeleteListed(st, keys, now), DeleteListed(AbstractStore(st), keys, now), true)
    decreases |keys|
  {
    if keys != [] {
      var u := UpsertDelete(keys[0]);
      var w, w' := UpsertKv(st, u, now), UpsertKv(AbstractStore(st), u, now);
      UpsertTracks(st, u, now);
      // publishing the same deletion twice leaves a watcher where it was
      var again := PushChange(keys[0], w.reply.0, w.reply.1);
      var twice := w.(events := w.events + again);
      ReplayConcat(Records(st), w.events, again);
      ReplayDeletionAgain(Records(st), again);
      DeleteListedTracks(w.st, keys[1..], now);
      TracksCompose(st, twice, w'.(events := twice.events),
                    DeleteListed(w.st, keys[1..], now), DeleteListed(w'.st, keys[1..], now),
                    DeleteListed(st, keys, now), DeleteListed(AbstractStore(st), keys, now), true, true);
    }
  }

  lemma {:induction false} ReplayDeletionAgain(records: map<string, SeqV>, events: seq<Event>)
    requires |events| <= 1
    ensures Replay(Replay(records, events), events) == Replay(records, events)
  {
    if events != [] {
      assert events[1..] == [];
    }
  }

  lemma FetchIncreaseTracks(st: Store, key: string, matchSeq: Option<nat>, delta: int, floor: u64, now: u64)
    requires st.Indexed? && WellIndexed(st.s)
    ensures Tracks(st, ExecuteFetchIncrease(st, key, matchSeq, delta, floor, now),
                   ExecuteFetchIncrease(AbstractStore(st), key, matchSeq, delta, floor, now), true)
  {
    LookupAgrees(st, key);
    var before := CounterOf(Lookup(st, key));
    var after := SaturatingAddSigned(if before < floor then floor else before, delta);
    UpsertTracks(st, UpsertUpdate(key, SequentialKeys.FormatJsonU64(after)), now);
  }

  lemma PutSequentialTracks(st: Store, prefix: string, sequenceKey: string, payload: Payload, now: u64)
    requires st.Indexed? && WellIndexed(st.s)
    ensures Tracks(st, ExecutePutSequential(st, prefix, sequenceKey, payload, now),
                   ExecutePutSequential(AbstractStore(st), prefix, sequenceKey, payload, now),
                   SafePayload(payload, now, st.s.cleanupStart))
  {
    FetchIncreaseTracks(st, sequenceKey, None, 1, 0, now);
    LookupAgrees(st, sequenceKey);
    var f, f' := ExecuteFetchIncrease(st, sequenceKey, None, 1, 0, now),
                 ExecuteFetchIncrease(AbstractStore(st), sequenceKey, None, 1, 0, now);
    var key := SequentialKeys.BuildKey(prefix, CounterOf(Lookup(st, sequenceKey)));
    var u := UpsertUpdate(key, payload.data).(valueMeta := Some(payload.ToMetaSpec()));
    UpsertTracks(f.st, u, now);
    TracksCompose(st, f, f', UpsertKv(f.st, u, now), UpsertKv(f'.st, u, now),
                  ExecutePutSequential(st, prefix, sequenceKey, payload, now),
                  ExecutePutSequential(AbstractStore(st), prefix, sequenceKey, payload, now),
                  true, SafePayload(payload, now, st.s.cleanupStart));
  }

  lemma PutTracks(st: Store, key: string, matchSeq: Option<nat>, payload: Payload, now: u64)
    requires st.Indexed? && WellIndexed(st.s)
    ensures var op := Put(key, matchSeq, payload);
      Tracks(st, ExecuteOp(st, op, now), ExecuteOp(AbstractStore(st), op, now), SafeOp(op, now, st.s.cleanupStart))
  {
    var cond := match matchSeq case Some(n) => Exact(n) case None => GE(0);
    UpsertTracks(st, UpsertKV(key, cond, Update(payload.data), Some(payload.ToMetaSpec())), now);
  }

  lemma DeleteTracks(st: Store, key: string, matchSeq: Option<nat>, now: u64)
    requires st.Indexed? && WellIndexed(st.s)
    ensures var op := DeleteKey(key, matchSeq);
      Tracks(st, ExecuteOp(st, op, now), ExecuteOp(AbstractStore(st), op, now), SafeOp(op, now, st.s.cleanupStart))
  {
    var cond := match matchSeq case Some(n) => Exact(n) case None => GE(1);
    UpsertTracks(st, UpsertDelete(key).(cond := cond), now);
  }

  lemma DeleteByPrefixTracks(st: Store, prefix: string, now: u64)
    requires st.Indexed? && WellIndexed(st.s)
    ensures var op := DeleteByPrefix(prefix);
      Tracks(st, ExecuteOp(st, op, now), ExecuteOp(AbstractStore(st), op, now), SafeOp(op, now, st.s.cleanupStart))
  {
    LookupAgrees(st, prefix);
    DeleteListedTracks(st, ListKv(st, prefix), now);
  }

  lemma GetTracks(st: Store, key: string, now: u64)
    requires st.Indexed? && WellIndexed(st.s)
    ensures var op := Get(key);
      Tracks(st, ExecuteOp(st, op, now), ExecuteOp(AbstractStore(st), op, now), SafeOp(op, now, st.s.cleanupStart))
  {
    LookupAgrees(st, key);
  }

  lemma IncreaseTracks(st: Store, key: string, matchSeq: Option<nat>, delta: int, floor: u64, now: u64)
    requires st.Indexed? && WellIndexed(st.s)
    ensures var op := FetchIncreaseU64(key, matchSeq, delta, floor);
      Tracks(st, ExecuteOp(st, op, now), ExecuteOp(AbstractStore(st), op, now), SafeOp(op, now, st.s.cleanupStart))
  {
    FetchIncreaseTracks(st, key, matchSeq, delta, floor, now);
  }

  lemma SequentialTracks(st: Store, prefix: string, sequenceKey: string, payload: Payload, now: u64)
    requires st.Indexed? && WellIndexed(st.s)
    ensures var op := PutSequential(prefix, sequenceKey, payload);
      Tracks(st, ExecuteOp(st, op, now), ExecuteOp(AbstractStore(st), op, now), SafeOp(op, now, st.s.cleanupStart))
  {
    var op := PutSequential(prefix, sequenceKey, payload);
    assert ExecuteOp(st, op, now) == ExecutePutSequential(st, prefix, sequenceKey, payload, now);
    assert ExecuteOp(AbstractStore(st), op, now)
        == ExecutePutSequential(AbstractStore(st), prefix, sequenceKey, payload, now);
    PutSequentialTracks(st, prefix, sequenceKey, payload, now);
  }

  lemma OpTracks(st: Store, op: TxnOperation, now: u64)
    requires st.Indexed? && WellIndexed(st.s)
    ensures Tracks(st, ExecuteOp(st, op, now), ExecuteOp(AbstractStore(st), op, now),
                   SafeOp(op, now, st.s.cleanupStart))
  {
    match op
    case Get(key) => GetTracks(st, key, now);
    case Put(key, matchSeq, payload) => PutTracks(st, key, matchSeq, payload, now);
    case DeleteKey(key, matchSeq) => DeleteTracks(st, key, matchSeq, now);
    case DeleteByPrefix(prefix) => DeleteByPrefixTracks(st, prefix, now);
    case FetchIncreaseU64(key, matchSeq, delta, floor) =>
      IncreaseTracks(st, key, matchSeq, delta, floor, now);
    case PutSequential(prefix, sequenceKey, payload) =>
      SequentialTracks(st, prefix, sequenceKey, payload, now);
  }

  lemma {:induction false} OpsTrack(st: Store, ops: seq<TxnOperation>, now: u64)
    requires st.Indexed? && WellIndexed(st.s)
    ensures Tracks(st, ExecuteOps(st, ops, now), ExecuteOps(AbstractStore(st), ops, now),
                   SafeOps(ops, now, st.s.cleanupStart))
    decreases |ops|
  {
    if ops != [] {
      var a, a' := ExecuteOp(st, ops[0], now), ExecuteOp(AbstractStore(st), ops[0], now);
      OpTracks(st, ops[0], now);
      OpsTrack(a.st, ops[1..], now);
      TracksCompose(st, a, a', ExecuteOps(a.st, ops[1..], now), ExecuteOps(a'.st, ops[1..], now),
                    ExecuteOps(st, ops, now), ExecuteOps(AbstractStore(st), ops, now),
                    SafeOp(ops[0], now, st.s.cleanupStart), SafeOps(ops[1..], now, st.s.cleanupStart));
    }
  }

  lemma CmdTracks(st: Store, cmd: Cmd, now: u64)
    requires st.Indexed? && WellIndexed(st.s)
    ensures Tracks(st, ApplyCmd(st, cmd, now), ApplyCmd(AbstractStore(st), cmd, now),
                   SafeCmd(cmd, now, st.s.cleanupStart))
  {
    match cmd
    case UpsertCmd(u) => UpsertTracks(st, u, now);
    case TxnCmd(txn) =>
      FirstMatchAgrees(st, txn.branches);
      match FirstMatch(st, txn.branches) {
        case Some(i) => OpsTrack(st, txn.branches[i].operations, now);
        case None =>
      }
    case SystemCmd =>
  }
}
