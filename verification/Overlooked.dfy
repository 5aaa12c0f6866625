/** What becomes of a record that lies behind the cleanup start. */
module Overlooked {
  import opened IndexInvariant
  import opened KvTypes
  import opened Listing
  import opened LogRefinement
  import opened Machine
  import opened PrefixBound
  import opened Refinement
  import opened Timestamps
  import opened Wrappers
  import SequentialKeys

  /** The record of `k` is visible and expires before the cleanup start. */
  predicate BehindStart(s: IndexedStore, k: string) {
    var v := Lookup(Indexed(s), k);
    v.Some? && v.value.IndexKey().Some? && v.value.IndexKey().value.timeMs < s.cleanupStart
  }

  // ------------------------------------------------ commands that spare a key

  /** The operation may write the key. */
  ghost predicate Touches(op: TxnOperation, k: string) {
    match op
    case Get(_) => false
    case Put(key, _, _) => key == k
    case DeleteKey(key, _) => key == k
    case DeleteByPrefix(prefix) => InListRange(prefix, k)
    case FetchIncreaseU64(key, _, _, _) => key == k
    case PutSequential(prefix, sequenceKey, _) =>
      sequenceKey == k || exists n: u64 :: SequentialKeys.BuildKey(prefix, n) == k
  }

  ghost predicate Spares(cmd: Cmd, k: string) {
    match cmd
    case UpsertCmd(u) => u.key != k
    case TxnCmd(txn) => forall b :: b in txn.branches ==> forall op :: op in b.operations ==> !Touches(op, k)
    case SystemCmd => true
  }

  lemma {:induction false} DeleteListedSpares(r: ReferenceStore, keys: seq<string>, now: u64, k: string)
    requires k !in keys
    ensures var st := DeleteListed(Reference(r), keys, now).st;
      st.Reference? && Lookup(st, k) == Lookup(Reference(r), k)
    decreases |keys|
  {
    if keys != [] {
      UpsertKeepsOthers(r, UpsertDelete(keys[0]), now, k);
      DeleteListedSpares(UpsertReference(r, UpsertDelete(keys[0]), now).st.r, keys[1..], now, k);
    }
  }

  lemma {:induction false} DeleteExpiredSpares(
    r: ReferenceStore, entries: seq<(ExpireKey, string)>, now: u64, k: string)
    requires forall i :: 0 <= i < |entries| ==> entries[i].1 != k
    ensures var st := DeleteExpired(Reference(r), entries, now).st;
      st.Reference? && Lookup(st, k) == Lookup(Reference(r), k)
    decreases |entries|
  {
    if entries != [] {
      UpsertKeepsOthers(r, UpsertDelete(entries[0].1), now, k);
      DeleteExpiredSpares(UpsertReference(r, UpsertDelete(entries[0].1), now).st.r, entries[1..], now, k);
    }
  }

  lemma FetchSpares(r: ReferenceStore, key: string, matchSeq: Option<nat>, delta: int, floor: u64, now: u64, k: string)
    requires key != k
    ensures var st := ExecuteFetchIncrease(Reference(r), key, matchSeq, delta, floor, now).st;
      st.Reference? && Lookup(st, k) == Lookup(Reference(r), k)
  {
    ReferenceFetchIncrease(r, key, matchSeq, delta, floor, now);
  }

  lemma SequentialSpares(
    r: ReferenceStore, prefix: string, sequenceKey: string, payload: Payload, now: u64, k: string)
    requires !Touches(PutSequential(prefix, sequenceKey, payload), k)
    ensures var st := ExecutePutSequential(Reference(r), prefix, sequenceKey, payload, now).st;
      st.Reference? && Lookup(st, k) == Lookup(Reference(r), k)
  {
    FetchSpares(r, sequenceKey, None, 1, 0, now, k);
    var f := ExecuteFetchIncrease(Reference(r), sequenceKey, None, 1, 0, now).st;
    var key := SequentialKeys.BuildKey(prefix, CounterOf(Lookup(Reference(r), sequenceKey)));
    UpsertKeepsOthers(f.r, UpsertUpdate(key, payload.data).(valueMeta := Some(payload.ToMetaSpec())), now, k);
  }

  lemma OpSpares(r: ReferenceStore, op: TxnOperation, now: u64, k: string)
    requires !Touches(op, k)
    ensures var st := ExecuteOp(Reference(r), op, now).st;
      st.Reference? && Lookup(st, k) == Lookup(Reference(r), k)
  {
    match op
    case Get(_) =>
    case Put(key, matchSeq, payload) =>
      var cond := match matchSeq case Some(n) => Exact(n) case None => GE(0);
      UpsertKeepsOthers(r, UpsertKV(key, cond, Update(payload.data), Some(payload.ToMetaSpec())), now, k);
    case DeleteKey(key, matchSeq) =>
      var cond := match matchSeq case Some(n) => Exact(n) case None => GE(1);
      UpsertKeepsOthers(r, UpsertDelete(key).(cond := cond), now, k);
    case DeleteByPrefix(prefix) => DeleteListedSpares(r, ListKv(Reference(r), prefix), now, k);
    case FetchIncreaseU64(key, matchSeq, delta, floor) => FetchSpares(r, key, matchSeq, delta, floor, now, k);
    case PutSequential(prefix, sequenceKey, payload) => SequentialSpares(r, prefix, sequenceKey, payload, now, k);
  }

  lemma {:induction false} OpsSpare(r: ReferenceStore, ops: seq<TxnOperation>, now: u64, k: string)
    requires forall op :: op in ops ==> !Touches(op, k)
    ensures var st := ExecuteOps(Reference(r), ops, now).st;
      st.Reference? && Lookup(st, k) == Lookup(Reference(r), k)
    decreases |ops|
  {
    if ops != [] {
      OpSpares(r, ops[0], now, k);
      OpsSpare(ExecuteOp(Reference(r), ops[0], now).st.r, ops[1..], now, k);
    }
  }

  /** A command that spares a key leaves its record as it is, on the indexed store too. */
  lemma CmdSpares(st: Store, cmd: Cmd, now: u64, k: string)
    requires st.Indexed? && WellIndexed(st.s) && Spares(cmd, k)
    ensures Lookup(ApplyCmd(st, cmd, now).st, k) == Lookup(st, k)
  {
    var r := Abstract(st.s);
    CmdTracks(st, cmd, now);
    LookupAgrees(st, k);
    LookupAgrees(ApplyCmd(st, cmd, now).st, k);
    match cmd
    case UpsertCmd(u) => UpsertKeepsOthers(r, u, now, k);
    case TxnCmd(txn) =>
      match FirstMatch(Reference(r), txn.branches) {
        case Some(i) => OpsSpare(r, txn.branches[i].operations, now, k);
        case None =>
      }
    case SystemCmd =>
  }

  // ------------------------------------------------------------ whole logs

  /** A cleanup not timed before the cleanup start passes by a record behind it. */
  lemma CleanPassesBy(s: IndexedStore, now: u64, k: string)
    requires WellIndexed(s) && BehindStart(s, k)
    ensures Lookup(CleanExpired(Indexed(s), now).st, k) == Lookup(Indexed(s), k)
  {
    if now > 0 {
      var t, expired := s.(cleanupStart := now), ListExpired(Indexed(s), now);
      StartMoved(s, now, k);
      NotListed(s, now, k);
      IndexedDeleteSpares(t, expired, now, k);
      assert CleanExpired(Indexed(s), now) == DeleteExpired(Indexed(t), expired, now);
    }
  }

  lemma StartMoved(s: IndexedStore, now: u64, k: string)
    requires WellIndexed(s)
    ensures WellIndexed(s.(cleanupStart := now)) && Lookup(Indexed(s.(cleanupStart := now)), k) == Lookup(Indexed(s), k)
  {
  }

  /** The window begins at the cleanup start, so it does not show a record behind it. */
  lemma NotListed(s: IndexedStore, now: u64, k: string)
    requires WellIndexed(s) && BehindStart(s, k)
    ensures var expired := ListExpired(Indexed(s), now); forall i :: 0 <= i < |expired| ==> expired[i].1 != k
  {
    var expired := ListExpired(Indexed(s), now);
    forall i | 0 <= i < |expired| ensures expired[i].1 != k {
      assert expired[i] in WindowEntries(s, now);
      assert Live(s, expired[i].1) && s.user[expired[i].1].IndexKey() == Some(expired[i].0);
    }
  }

  lemma {:induction false} IndexedDeleteSpares(s: IndexedStore, entries: seq<(ExpireKey, string)>, now: u64, k: string)
    requires WellIndexed(s) && forall i :: 0 <= i < |entries| ==> entries[i].1 != k
    ensures Lookup(DeleteExpired(Indexed(s), entries, now).st, k) == Lookup(Indexed(s), k)
  {
    DeleteExpiredTracks(Indexed(s), entries, now);
    DeleteExpiredSpares(Abstract(s), entries, now, k);
    LookupAgrees(Indexed(s), k);
    LookupAgrees(DeleteExpired(Indexed(s), entries, now).st, k);
  }

  /** No log time falls below the cleanup start it finds, and no command writes the key. */
  ghost predicate PassesBy(log: seq<Entry>, start: u64, k: string)
    decreases |log|
  {
    log == [] ||
    (&& (log[0].LogTime() == 0 || start <= log[0].LogTime())
     && (log[0].Command? ==> Spares(log[0].cmd, k))
     && PassesBy(log[1..], StartAfter(log[0], start), k))
  }

  lemma EntryPassesBy(s: IndexedStore, e: Entry, k: string)
    requires WellIndexed(s) && BehindStart(s, k)
    requires e.LogTime() == 0 || s.cleanupStart <= e.LogTime()
    requires e.Command? ==> Spares(e.cmd, k)
    ensures var st := ApplyEntry(Indexed(s), e).st;
      && st.Indexed? && WellIndexed(st.s) && st.s.cleanupStart == StartAfter(e, s.cleanupStart)
      && Lookup(st, k) == Lookup(Indexed(s), k)
  {
    var now := e.LogTime();
    var c := CleanExpired(Indexed(s), now).st;
    CleanKeepsIndex(s, now);
    CleanPassesBy(s, now, k);
    if e.Command? {
      CmdTracks(c, e.cmd, now);
      CmdSpares(c, e.cmd, now, k);
    }
  }

  /** A record behind the cleanup start stays, with its expiry passed, through every log whose times
      do not fall below that start and that does not write the key. A restart, or an entry timed
      earlier, lowers the start and lets the next cleanup find the record. */
  lemma {:induction false} BehindStartStays(s: IndexedStore, log: seq<Entry>, k: string)
    requires WellIndexed(s) && BehindStart(s, k) && PassesBy(log, s.cleanupStart, k)
    ensures var st := ApplyLog(Indexed(s), log).st;
      st.Indexed? && BehindStart(st.s, k) && Lookup(st, k) == Lookup(Indexed(s), k)
    decreases |log|
  {
    if log != [] {
      EntryPassesBy(s, log[0], k);
      BehindStartStays(ApplyEntry(Indexed(s), log[0]).st.s, log[1..], k);
    }
  }
}
