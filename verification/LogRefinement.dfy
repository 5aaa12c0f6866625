/** Whole runs: cleanup through the index window, log times that go backwards, restarts and
    installed snapshots. */
module LogRefinement {
  import opened IndexInvariant
  import opened KvTypes
  import opened Machine
  import opened Order
  import opened Refinement
  import opened Timestamps
  import opened Wrappers

  // ------------------------------------------------------------ the window

  /** In a cleaned-up store the index window holds what a full scan finds. */
  lemma WindowIsFullScan(s: IndexedStore, now: u64)
    requires WellIndexed(s) && CleanedUp(s)
    ensures WindowEntries(s, now) == FullScan(Visible(s), now)
  {
    var a, b, records := WindowEntries(s, now), FullScan(Visible(s), now), Visible(s);
    forall e | e in a ensures e in b {
      assert Live(s, e.1) && records[e.1].IndexKey() == Some(e.0);
    }
    forall e | e in b ensures e in a {
      assert Live(s, e.1) && s.user[e.1].IndexKey() == Some(e.0);
    }
  }

  /** Starting from the cleanup start misses no expired record, whatever the clock, exactly when
      no live record expires before it. */
  lemma WindowExactIff(s: IndexedStore)
    requires WellIndexed(s)
    ensures (forall now: u64 :: WindowEntries(s, now) == FullScan(Visible(s), now)) <==> CleanedUp(s)
  {
    if CleanedUp(s) {
      forall now: u64 ensures WindowEntries(s, now) == FullScan(Visible(s), now) { WindowIsFullScan(s, now); }
    } else {
      var k :| Live(s, k) && s.user[k].IndexKey().Some? && s.user[k].IndexKey().value.timeMs < s.cleanupStart;
      var ek := s.user[k].IndexKey().value;
      var now: u64 := ek.timeMs + 1;
      assert Visible(s)[k].ExpiredAt(now);
      assert (ek, k) in FullScan(Visible(s), now);
      assert (ek, k) !in WindowEntries(s, now);
    }
  }

  /** The cleanup list holds every live record that expired before `now`. */
  lemma CleanupListing(s: IndexedStore, now: u64)
    requires WellIndexed(s) && CleanedUp(s)
    ensures forall ek, k :: (ek, k) in ListExpired(Indexed(s), now) <==>
              k in Visible(s) && Visible(s)[k].IndexKey() == Some(ek) && ek.timeMs < now
  {
    WindowIsFullScan(s, now);
    var records := Visible(s);
    forall ek, k
      ensures (ek, k) in FullScan(records, now) <==>
              k in records && records[k].IndexKey() == Some(ek) && ek.timeMs < now
    {
      if k in records && records[k].IndexKey() == Some(ek) && ek.timeMs < now {
        assert records[k].ExpiredAt(now);
      }
    }
  }

  /** The cleanup list is ordered by expiry time and then by sequence number. */
  lemma CleanupOrder(s: IndexedStore, now: u64)
    ensures var l := ListExpired(Indexed(s), now);
      forall i, j :: 0 <= i < j < |l| ==>
        l[i].0.timeMs < l[j].0.timeMs || (l[i].0.timeMs == l[j].0.timeMs && l[i].0.seqno < l[j].0.seqno)
  {
    var l := ListExpired(Indexed(s), now);
    EntryLessIsTotal();
    forall i, j | 0 <= i < j < |l|
      ensures l[i].0.timeMs < l[j].0.timeMs || (l[i].0.timeMs == l[j].0.timeMs && l[i].0.seqno < l[j].0.seqno)
    {
      assert l[i] in l && l[j] in l;
      EntryOrder(l[i], l[j]);
    }
  }

  lemma EntryOrder(a: (ExpireKey, string), b: (ExpireKey, string))
    requires EntryLess(a, b)
    ensures a.0 == b.0 || a.0.timeMs < b.0.timeMs || (a.0.timeMs == b.0.timeMs && a.0.seqno < b.0.seqno)
  {
    var x, y := EntryRank(a), EntryRank(b);
    assert x[0] == a.0.timeMs && x[1..][0] == a.0.seqno && y[0] == b.0.timeMs && y[1..][0] == b.0.seqno;
    assert x[0] == y[0] ==> LexLess(x[1..], y[1..]);
    assert x[0] == y[0] && x[1] == y[1] ==> a.0 == b.0;
  }

  // --------------------------------------------------------------- cleanup

  function KeysOf(entries: seq<(ExpireKey, string)>): set<string> { set e | e in entries :: e.1 }

  lemma KeysOfCons(entries: seq<(ExpireKey, string)>)
    requires entries != []
    ensures KeysOf(entries) == {entries[0].1} + KeysOf(entries[1..])
  {
    assert entries == [entries[0]] + entries[1..];
    forall k | k in KeysOf(entries) ensures k in {entries[0].1} + KeysOf(entries[1..]) {
      var e :| e in entries && e.1 == k;
      assert e == entries[0] || e in entries[1..];
    }
  }

  /** Deleting a list of keys removes those records and leaves the others. */
  lemma {:induction false} DeleteExpiredEffect(st: Store, entries: seq<(ExpireKey, string)>, now: u64)
    requires st.Indexed? && WellIndexed(st.s)
    ensures Records(DeleteExpired(st, entries, now).st) == Records(st) - KeysOf(entries)
    decreases |entries|
  {
    if entries == [] {
      assert KeysOf(entries) == {};
    } else {
      var k := entries[0].1;
      var w := UpsertKv(st, UpsertDelete(k), now);
      DeleteOneEffect(st, k, now);
      UpsertTracks(st, UpsertDelete(k), now);
      DeleteExpiredEffect(w.st, entries[1..], now);
      KeysOfCons(entries);
      DropTwice(Records(st), k, KeysOf(entries[1..]));
    }
  }

  lemma DropTwice(m: map<string, SeqV>, k: string, ks: set<string>)
    ensures m - {k} - ks == m - ({k} + ks)
  {
  }

  lemma DeleteOneEffect(st: Store, k: string, now: u64)
    requires st.Indexed? && WellIndexed(st.s)
    ensures Records(UpsertKv(st, UpsertDelete(k), now).st) == Records(st) - {k}
  {
    UpsertRefines(st.s, UpsertDelete(k), now);
    assert k in Visible(st.s) ==> Live(st.s, k);
    assert k !in Visible(st.s) ==> Visible(st.s) - {k} == Visible(st.s);
  }

  lemma {:induction false} DeleteExpiredTracks(st: Store, entries: seq<(ExpireKey, string)>, now: u64)
    requires st.Indexed? && WellIndexed(st.s)
    ensures Tracks(st, DeleteExpired(st, entries, now), DeleteExpired(AbstractStore(st), entries, now), true)
    decreases |entries|
  {
    if entries != [] {
      var u := UpsertDelete(entries[0].1);
      var w, w' := UpsertKv(st, u, now), UpsertKv(AbstractStore(st), u, now);
      UpsertTracks(st, u, now);
      DeleteExpiredTracks(w.st, entries[1..], now);
      TracksCompose(st, w, w', DeleteExpired(w.st, entries[1..], now), DeleteExpired(w'.st, entries[1..], now),
                    DeleteExpired(st, entries, now), DeleteExpired(AbstractStore(st), entries, now), true, true);
    }
  }

  function ExpiredKeys(records: map<string, SeqV>, now: u64): set<string> {
    set k | k in records && records[k].ExpiredAt(now)
  }

  lemma KeysOfScan(records: map<string, SeqV>, now: u64)
    ensures KeysOf(SortedEntries(FullScan(records, now))) == ExpiredKeys(records, now)
  {
    var l := SortedEntries(FullScan(records, now));
    forall k | k in ExpiredKeys(records, now) ensures k in KeysOf(l) {
      assert (records[k].IndexKey().value, k) in FullScan(records, now);
      assert (records[k].IndexKey().value, k) in l;
    }
  }

  /** A cleanup removes exactly the records that expired before `now`. */
  lemma CleanEffect(s: IndexedStore, now: u64)
    requires WellIndexed(s) && CleanedUp(s) && now > 0
    ensures Records(CleanExpired(Indexed(s), now).st) == Visible(s) - ExpiredKeys(Visible(s), now)
  {
    var st := SetCleanupStart(Indexed(s), now);
    WindowIsFullScan(s, now);
    KeysOfScan(Visible(s), now);
    assert WellIndexed(st.s) && Visible(st.s) == Visible(s);
    DeleteExpiredEffect(st, ListExpired(Indexed(s), now), now);
  }

  /** A cleanup at a positive log time, later or earlier than the last one, agrees with the full
      scan. */
  lemma CleanTracks(s: IndexedStore, now: u64)
    requires WellIndexed(s) && CleanedUp(s) && now > 0
    ensures Tracks(Indexed(s.(cleanupStart := now)), CleanExpired(Indexed(s), now),
                   CleanExpired(Reference(Abstract(s)), now), true)
  {
    var st, expired := Indexed(s.(cleanupStart := now)), ListExpired(Indexed(s), now);
    assert WellIndexed(st.s) && AbstractStore(st) == Reference(Abstract(s)) by { assert Visible(st.s) == Visible(s); }
    assert CleanExpired(Reference(Abstract(s)), now) == DeleteExpired(AbstractStore(st), expired, now) by {
      WindowIsFullScan(s, now);
    }
    DeleteExpiredTracks(st, expired, now);
  }

  /** A cleanup leaves the store cleaned up to its log time. */
  lemma CleanLeavesCleanedUp(s: IndexedStore, now: u64)
    requires WellIndexed(s) && CleanedUp(s) && now > 0
    ensures var c := CleanExpired(Indexed(s), now);
      c.st.Indexed? && c.st.s.cleanupStart == now && CleanedUp(c.st.s)
  {
    CleanTracks(s, now);
    CleanEffect(s, now);
    var t := CleanExpired(Indexed(s), now).st.s;
    forall k | Live(t, k) && t.user[k].IndexKey().Some? ensures now <= t.user[k].IndexKey().value.timeMs {
      assert k in Visible(t) && Visible(t)[k] == t.user[k].v;
    }
  }

  // ------------------------------------------------------------------ logs

  /** Every command carries the time the leader proposed it at. */
  predicate Timed(e: Entry) { e.Command? ==> e.LogTime() > 0 }

  predicate AllTimed(log: seq<Entry>) { forall i :: 0 <= i < |log| ==> Timed(log[i]) }

  /** The cleanup start after an entry: the time of a timed command, otherwise unchanged. */
  function StartAfter(e: Entry, start: u64): u64 { if e.LogTime() > 0 then e.LogTime() else start }

  /** A command stores nothing that expires before the cleanup start it finds. A timed command finds
      its own time there, so it always is safe; what an untimed one stores must expire later. */
  predicate SafeEntry(e: Entry, start: u64) {
    e.Command? ==> SafeCmd(e.cmd, e.LogTime(), StartAfter(e, start))
  }

  predicate SafeLog(log: seq<Entry>, start: u64)
    decreases |log|
  {
    log == [] || (SafeEntry(log[0], start) && SafeLog(log[1..], StartAfter(log[0], start)))
  }

  lemma {:induction false} TimedIsSafe(log: seq<Entry>, start: u64)
    requires AllTimed(log)
    ensures SafeLog(log, start)
    decreases |log|
  {
    if log != [] {
      assert Timed(log[0]);
      assert forall i :: 0 <= i < |log[1..]| ==> log[1..][i] == log[i + 1];
      TimedIsSafe(log[1..], StartAfter(log[0], start));
    }
  }

  /** A cleanup at time zero does nothing; a later one moves the cleanup start and leaves the store
      cleaned up to it. */
  lemma CleanRefines(s: IndexedStore, now: u64)
    requires WellIndexed(s) && CleanedUp(s)
    ensures var c := CleanExpired(Indexed(s), now);
      && c.st.Indexed? && WellIndexed(c.st.s) && CleanedUp(c.st.s)
      && c.st.s.cleanupStart == (if now > 0 then now else s.cleanupStart)
      && CleanExpired(Reference(Abstract(s)), now) == Outcome(AbstractStore(c.st), (), c.events)
      && Replay(Visible(s), c.events) == Visible(c.st.s)
  {
    if now > 0 {
      CleanTracks(s, now);
      CleanLeavesCleanedUp(s, now);
      assert Records(Indexed(s.(cleanupStart := now))) == Visible(s);
    }
  }

  lemma EntryRefines(s: IndexedStore, e: Entry)
    requires WellIndexed(s) && CleanedUp(s) && SafeEntry(e, s.cleanupStart)
    ensures var a := ApplyEntry(Indexed(s), e);
      && a.st.Indexed? && WellIndexed(a.st.s) && CleanedUp(a.st.s)
      && a.st.s.cleanupStart == StartAfter(e, s.cleanupStart)
      && ApplyEntry(Reference(Abstract(s)), e) == Outcome(AbstractStore(a.st), a.reply, a.events)
      && Replay(Visible(s), a.events) == Visible(a.st.s)
  {
    var now := e.LogTime();
    var c := CleanExpired(Indexed(s), now);
    CleanRefines(s, now);
    if e.Command? {
      CmdTracks(c.st, e.cmd, now);
      ReplayConcat(Visible(s), c.events, ApplyCmd(c.st, e.cmd, now).events);
    } else {
      assert c.events + [] == c.events;
    }
  }

  /** For every safe log, so for every log of timed commands, with log times in any order, the
      indexed state machine gives the replies, publishes the changes and ends with the records of the
      reference machine that scans everything; its index stays exact, and replaying the changes
      rebuilds the records. */
  lemma {:induction false} LogRefines(s: IndexedStore, log: seq<Entry>)
    requires WellIndexed(s) && CleanedUp(s) && SafeLog(log, s.cleanupStart)
    ensures var a := ApplyLog(Indexed(s), log);
      && a.st.Indexed? && WellIndexed(a.st.s) && CleanedUp(a.st.s)
      && ApplyLog(Reference(Abstract(s)), log) == Outcome(AbstractStore(a.st), a.reply, a.events)
      && Replay(Visible(s), a.events) == Visible(a.st.s)
    decreases |log|
  {
    if log != [] {
      var first := ApplyEntry(Indexed(s), log[0]);
      EntryRefines(s, log[0]);
      LogRefines(first.st.s, log[1..]);
      var rest := ApplyLog(first.st, log[1..]);
      ReplayConcat(Visible(s), first.events, rest.events);
    }
  }

  /** The index is exact and sequence numbers are distinct after any log at all, timed or not. */
  lemma {:induction false} IndexExactInEveryRun(s: IndexedStore, log: seq<Entry>)
    requires WellIndexed(s)
    ensures var a := ApplyLog(Indexed(s), log); a.st.Indexed? && WellIndexed(a.st.s)
    ensures s.sequence <= ApplyLog(Indexed(s), log).st.s.sequence
    decreases |log|
  {
    if log != [] {
      EntryKeepsIndex(s, log[0]);
      IndexExactInEveryRun(ApplyEntry(Indexed(s), log[0]).st.s, log[1..]);
    }
  }

  lemma CleanKeepsIndex(s: IndexedStore, now: u64)
    requires WellIndexed(s)
    ensures var c := CleanExpired(Indexed(s), now);
      && c.st.Indexed? && WellIndexed(c.st.s) && s.sequence <= c.st.s.sequence
      && c.st.s.cleanupStart == if now > 0 then now else s.cleanupStart
  {
    if now > 0 {
      var st, expired := Indexed(s.(cleanupStart := now)), ListExpired(Indexed(s), now);
      assert WellIndexed(st.s);
      assert CleanExpired(Indexed(s), now) == DeleteExpired(st, expired, now);
      DeleteExpiredTracks(st, expired, now);
    }
  }

  lemma EntryKeepsIndex(s: IndexedStore, e: Entry)
    requires WellIndexed(s)
    ensures var a := ApplyEntry(Indexed(s), e);
      a.st.Indexed? && WellIndexed(a.st.s) && s.sequence <= a.st.s.sequence
  {
    CleanKeepsIndex(s, e.LogTime());
    if e.Command? { CmdTracks(CleanExpired(Indexed(s), e.LogTime()).st, e.cmd, e.LogTime()); }
  }

  lemma EmptyStoreIsGood()
    ensures WellIndexed(EMPTY) && CleanedUp(EMPTY) && Abstract(EMPTY) == ReferenceStore(map[], 0)
  {
    assert Visible(EMPTY) == map[];
  }

  // ------------------------------------------------- commands without time

  /** From a cleaned-up store an upsert leaves a record behind the cleanup start exactly when it
      stores a value whose expiry is not before its log time but before the cleanup start. For a
      timed command this cannot be: its cleanup has just moved the start to its log time. */
  lemma EscapesCleanupIff(s: IndexedStore, u: UpsertKV, now: u64)
    requires CleanedUp(s)
    ensures CleanedUp(UpsertIndexed(s, u, now).st.s) <==>
            !(&& u.cond.Matches(GetMarked(s, u.key).Seqno())
              && (u.value.Update? || (u.value.AsIs? && Live(s, u.key)))
              && now <= ResolvedMeta(u, now).ExpiresAtMs() < s.cleanupStart
              && ResolvedMeta(u, now).ExpiresAtMsOpt().Some?)
  {
    PrimaryShape(s, u, now);
    var t := UpsertIndexed(s, u, now).st.s;
    var meta := ResolvedMeta(u, now);
    if && u.cond.Matches(GetMarked(s, u.key).Seqno())
       && (u.value.Update? || (u.value.AsIs? && Live(s, u.key)))
       && now <= meta.ExpiresAtMs() < s.cleanupStart
       && meta.ExpiresAtMsOpt().Some?
    {
      assert Live(t, u.key) && t.user[u.key].IndexKey().value.timeMs == meta.ExpiresAtMs();
    } else {
      forall k | Live(t, k) && t.user[k].IndexKey().Some?
        ensures t.cleanupStart <= t.user[k].IndexKey().value.timeMs
      {
        assert k != u.key ==> t.user[k] == s.user[k];
      }
    }
  }

  const T0: u64 := 1_700_000_000_000

  function PutExpiring(key: string, expireAtMs: u64): Cmd {
    UpsertCmd(UpsertKV(key, Any, Update([]), Some(MetaSpec(Some(expireAtMs), None))))
  }

  /** A command whose log entry carries no time can store a record behind the cleanup start, where
      cleanups do not look: the log message that such records count as timed out does not describe
      what happens. */
  lemma UntimedCommandEscapes()
    ensures var st := ApplyLog(Indexed(EMPTY), [Command(Some(T0), SystemCmd),
                                                Command(None, PutExpiring("k", T0 - 1))]).st;
      st.Indexed? && !CleanedUp(st.s)
  {
    var first := ApplyEntry(Indexed(EMPTY), Command(Some(T0), SystemCmd));
    FirstTimedEntry(T0);
    var e2 := Command(None, PutExpiring("k", T0 - 1));
    ApplyOne(Indexed(EMPTY), Command(Some(T0), SystemCmd));
    ApplyTwo(Indexed(EMPTY), Command(Some(T0), SystemCmd), e2);
    EscapesCleanupIff(first.st.s, e2.cmd.u, 0);
  }

  lemma {:induction false} ApplyOne(st: Store, a: Entry)
    ensures ApplyLog(st, [a]).st == ApplyEntry(st, a).st
  {
    assert [a][1..] == [];
  }

  lemma {:induction false} ApplyTwo(st: Store, a: Entry, b: Entry)
    ensures ApplyLog(st, [a, b]).st == ApplyEntry(ApplyEntry(st, a).st, b).st
  {
    assert [a, b][1..] == [b];
    ApplyOne(ApplyEntry(st, a).st, b);
  }

  lemma FirstTimedEntry(now: u64)
    requires now > 0
    ensures ApplyEntry(Indexed(EMPTY), Command(Some(now), SystemCmd)).st == Indexed(EMPTY.(cleanupStart := now))
    ensures ListExpired(Indexed(EMPTY), now) == []
  {
    assert WindowEntries(EMPTY, now) == {};
  }

  // ------------------------------------------------------------- restarts

  /** What happens to a node: it applies an entry, or it restarts and forgets the cleanup start. */
  datatype NodeEvent = Applied(e: Entry) | Restarted

  function Entries(events: seq<NodeEvent>): seq<Entry>
    decreases |events|
  {
    if events == [] then []
    else if events[0].Applied? then [events[0].e] + Entries(events[1..])
    else Entries(events[1..])
  }

  function RunNode(s: IndexedStore, events: seq<NodeEvent>): Outcome<seq<Reply>>
    decreases |events|
  {
    if events == [] then Outcome(Indexed(s), [], [])
    else
      match events[0]
      case Applied(e) =>
        var first := ApplyEntry(Indexed(s), e);
        if first.st.Reference? then Outcome(first.st, [first.reply], first.events)
        else
          var rest := RunNode(first.st.s, events[1..]);
          Outcome(rest.st, [first.reply] + rest.reply, first.events + rest.events)
      case Restarted => RunNode(s.(cleanupStart := 0), events[1..])
  }

  /** Every command is safe for the cleanup start it finds, which a restart sets to zero. */
  predicate SafeEvents(events: seq<NodeEvent>, start: u64)
    decreases |events|
  {
    if events == [] then true
    else
      match events[0]
      case Applied(e) => SafeEntry(e, start) && SafeEvents(events[1..], StartAfter(e, start))
      case Restarted => SafeEvents(events[1..], 0)
  }

  /** Restarting a node at any points of a log changes no reply, no published change and no record,
      even when log times go backwards across a restart. */
  lemma {:induction false} RestartsAreInvisible(s: IndexedStore, events: seq<NodeEvent>)
    requires WellIndexed(s) && CleanedUp(s) && SafeEvents(events, s.cleanupStart)
    ensures var a := RunNode(s, events);
      && a.st.Indexed? && WellIndexed(a.st.s) && CleanedUp(a.st.s)
      && Outcome(AbstractStore(a.st), a.reply, a.events) == ApplyLog(Reference(Abstract(s)), Entries(events))
    decreases |events|
  {
    if events != [] {
      match events[0]
      case Applied(e) =>
        var log := Entries(events);
        assert log[0] == e && log[1..] == Entries(events[1..]);
        EntryRefines(s, e);
        RestartsAreInvisible(ApplyEntry(Indexed(s), e).st.s, events[1..]);
      case Restarted =>
        var t := s.(cleanupStart := 0);
        assert Visible(t) == Visible(s);
        assert WellIndexed(t) && CleanedUp(t);
        RestartsAreInvisible(t, events[1..]);
    }
  }

  // ------------------------------------------------------------ snapshots

  /** A follower takes records, index and sequence from the snapshot but keeps its own cleanup
      start. */
  function InstallSnapshot(follower: IndexedStore, snapshot: IndexedStore): IndexedStore {
    snapshot.(cleanupStart := follower.cleanupStart)
  }

  /** A node that installed a snapshot stays in agreement with the snapshot's node on every log
      exactly when no record of the snapshot expires before the node's own cleanup start. */
  lemma {:induction false} SnapshotAgreesIff(follower: IndexedStore, snapshot: IndexedStore)
    requires WellIndexed(snapshot) && CleanedUp(snapshot)
    ensures var f := InstallSnapshot(follower, snapshot);
      (forall log :: SafeLog(log, f.cleanupStart) && SafeLog(log, snapshot.cleanupStart) ==>
         var a, b := ApplyLog(Indexed(f), log), ApplyLog(Indexed(snapshot), log);
         AbstractStore(a.st) == AbstractStore(b.st) && a.reply == b.reply && a.events == b.events)
      <==> CleanedUp(f)
  {
    var f := InstallSnapshot(follower, snapshot);
    assert Visible(f) == Visible(snapshot);
    if CleanedUp(f) {
      forall log | SafeLog(log, f.cleanupStart) && SafeLog(log, snapshot.cleanupStart)
        ensures var a, b := ApplyLog(Indexed(f), log), ApplyLog(Indexed(snapshot), log);
          AbstractStore(a.st) == AbstractStore(b.st) && a.reply == b.reply && a.events == b.events
      {
        LogRefines(f, log);
        LogRefines(snapshot, log);
      }
    } else {
      var log := SnapshotDisagreement(f, snapshot);
      TimedIsSafe(log, f.cleanupStart);
      TimedIsSafe(log, snapshot.cleanupStart);
    }
  }

  /** The next entry timed just after the overlooked expiry separates the two nodes. */
  lemma SnapshotDisagreement(f: IndexedStore, snapshot: IndexedStore) returns (log: seq<Entry>)
    requires WellIndexed(snapshot) && CleanedUp(snapshot) && !CleanedUp(f)
    requires f == snapshot.(cleanupStart := f.cleanupStart)
    ensures AllTimed(log)
    ensures AbstractStore(ApplyLog(Indexed(f), log).st) != AbstractStore(ApplyLog(Indexed(snapshot), log).st)
  {
    var k :| Live(f, k) && f.user[k].IndexKey().Some? && f.user[k].IndexKey().value.timeMs < f.cleanupStart;
    var ek := f.user[k].IndexKey().value;
    var now: u64 := ek.timeMs + 1;
    var e := Command(Some(now), SystemCmd);
    log := [e];
    var a, b := ApplyEntry(Indexed(f), e).st, ApplyEntry(Indexed(snapshot), e).st;
    ApplyOne(Indexed(f), e);
    ApplyOne(Indexed(snapshot), e);
    assert Lookup(AbstractStore(a), k) != Lookup(AbstractStore(b), k) by {
      OverlookedRecordStays(f, now, k);
      ExpiredRecordGoes(snapshot, now, k);
      LookupAgrees(a, k);
      LookupAgrees(b, k);
    }
  }

  lemma OverlookedRecordStays(f: IndexedStore, now: u64, k: string)
    requires 0 < now <= f.cleanupStart && Live(f, k)
    ensures Lookup(ApplyEntry(Indexed(f), Command(Some(now), SystemCmd)).st, k).Some?
  {
    assert WindowEntries(f, now) == {};
    assert ListExpired(Indexed(f), now) == [];
  }

  lemma ExpiredRecordGoes(s: IndexedStore, now: u64, k: string)
    requires WellIndexed(s) && CleanedUp(s) && now > 0
    requires Live(s, k) && s.user[k].IndexKey().Some? && s.user[k].IndexKey().value.timeMs < now
    ensures Lookup(ApplyEntry(Indexed(s), Command(Some(now), SystemCmd)).st, k).None?
  {
    SystemEntry(Indexed(s), now);
    assert k in ExpiredKeys(Visible(s), now);
    CleanEffect(s, now);
    CleanKeepsIndex(s, now);
    LookupIsRecord(CleanExpired(Indexed(s), now).st, k);
  }

  lemma SystemEntry(st: Store, now: u64)
    ensures ApplyEntry(st, Command(Some(now), SystemCmd)).st == CleanExpired(st, now).st
  {
  }

  lemma LookupIsRecord(st: Store, k: string)
    ensures Lookup(st, k) == if k in Records(st) then Some(Records(st)[k]) else None
  {
  }

  /** The situation arises from two logged writes: a node that applied only the first, later-timed
      one installs a snapshot that holds a record of the second, earlier-timed one. */
  lemma TimeRevertAcrossSnapshot()
    ensures var later := Command(Some(T0 + 180_000), SystemCmd);
      var earlier := Command(Some(T0 + 60_000), PutExpiring("k", T0 + 120_000));
      var follower := ApplyLog(Indexed(EMPTY), [later]).st;
      var leader := ApplyLog(Indexed(EMPTY), [later, earlier]).st;
      && follower.Indexed? && leader.Indexed?
      && WellIndexed(leader.s) && CleanedUp(leader.s)
      && !CleanedUp(InstallSnapshot(follower.s, leader.s))
  {
    var later := Command(Some(T0 + 180_000), SystemCmd);
    var earlier := Command(Some(T0 + 60_000), PutExpiring("k", T0 + 120_000));
    ApplyOne(Indexed(EMPTY), later);
    ApplyTwo(Indexed(EMPTY), later, earlier);
    FirstTimedEntry(T0 + 180_000);
    EmptyStoreIsGood();
    TimedIsSafe([later, earlier], 0);
    LogRefines(EMPTY, [later, earlier]);
    EarlierWrite();
  }

  lemma EarlierWrite()
    ensures var s := EMPTY.(cleanupStart := T0 + 180_000);
      var leader := ApplyEntry(Indexed(s), Command(Some(T0 + 60_000), PutExpiring("k", T0 + 120_000))).st;
      && leader.Indexed? && Live(leader.s, "k")
      && leader.s.user["k"].IndexKey() == Some(ExpireKey(T0 + 120_000, 1))
  {
    var s, now := EMPTY.(cleanupStart := T0 + 180_000), T0 + 60_000;
    assert WindowEntries(s, now) == {};
    assert ListExpired(Indexed(s), now) == [];
    var leader := ApplyEntry(Indexed(s), Command(Some(now), PutExpiring("k", T0 + 120_000))).st;
    assert leader == UpsertIndexed(s.(cleanupStart := now), PutExpiring("k", T0 + 120_000).u, now).st;
  }
}
