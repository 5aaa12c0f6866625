/** What listing, counting and deleting by prefix mean, and the keys a sequence generates. */
module Listing {
  import opened IndexInvariant
  import opened KvTypes
  import opened LogRefinement
  import opened Machine
  import opened PrefixBound
  import opened Refinement
  import opened SequentialKeys
  import opened Strings
  import opened Timestamps
  import opened Wrappers

  function Members(keys: seq<string>): set<string> { set k | k in keys }

  /** The keys of the live records under a prefix. */
  function KeysUnder(st: Store, prefix: string): set<string> { set k | k in Records(st) && prefix <= k }

  /** The range of the prefix has no right bound, and a live key sorts after all that start with it. */
  predicate Overreaches(st: Store, prefix: string) {
    EndsBeforeSurrogates(prefix) && exists k :: k in Records(st) && !(prefix <= k) && StrLess(prefix, k)
  }

  lemma ListedKeys(st: Store, prefix: string)
    ensures KeysUnder(st, prefix) <= Members(ListKv(st, prefix))
    ensures |Members(ListKv(st, prefix))| == |ListKv(st, prefix)|
  {
    forall k | k in KeysUnder(st, prefix) ensures k in ListKv(st, prefix) { PrefixInRange(prefix, k); }
    assert Members(ListKv(st, prefix)) == (set k | k in Records(st) && InListRange(prefix, k));
  }

  /** Listing by prefix returns exactly the live records under the prefix, unless it overreaches. */
  lemma ListKvExactIff(st: Store, prefix: string)
    ensures Members(ListKv(st, prefix)) == KeysUnder(st, prefix) <==> !Overreaches(st, prefix)
  {
    ListedKeys(st, prefix);
    if Overreaches(st, prefix) {
      var k :| k in Records(st) && !(prefix <= k) && StrLess(prefix, k);
      BeyondInRange(prefix, k);
      assert k in Members(ListKv(st, prefix)) && k !in KeysUnder(st, prefix);
    } else {
      forall k | k in ListKv(st, prefix) ensures k in KeysUnder(st, prefix) {
        RangeOrBeyond(prefix, k);
      }
    }
  }

  /** Stopping the count one above the operand never changes the outcome: a condition compares the
      number of keys listed. It is the number of live records under the prefix, for all operators
      and operands, exactly when listing does not overreach. */
  lemma PrefixConditionExact(st: Store, prefix: string, op: CompareOperator, n: nat)
    ensures EvalCondition(st, Condition(prefix, KeysWithPrefix(n), op)) == CompareInt(|ListKv(st, prefix)|, op, n)
    ensures !Overreaches(st, prefix) <==> |ListKv(st, prefix)| == |KeysUnder(st, prefix)|
  {
    ListedKeys(st, prefix);
    ListKvExactIff(st, prefix);
    SameSize(KeysUnder(st, prefix), Members(ListKv(st, prefix)));
  }

  lemma SameSize(a: set<string>, b: set<string>)
    requires a <= b
    ensures |a| == |b| <==> a == b
  {
    assert b == a + (b - a);
    assert |b| == |a| + |b - a|;
  }

  // ------------------------------------------------------ delete by prefix

  lemma DeleteKeepsIndex(st: Store, k: string, now: u64)
    requires st.Indexed? && WellIndexed(st.s)
    ensures var w := UpsertKv(st, UpsertDelete(k), now); w.st.Indexed? && WellIndexed(w.st.s)
  {
    UpsertTracks(st, UpsertDelete(k), now);
  }

  lemma {:induction false} DeleteListedEffect(st: Store, keys: seq<string>, now: u64)
    requires st.Indexed? && WellIndexed(st.s)
    ensures Records(DeleteListed(st, keys, now).st) == Records(st) - Members(keys)
    decreases |keys|
  {
    if keys != [] {
      var w := UpsertKv(st, UpsertDelete(keys[0]), now);
      DeleteOneEffect(st, keys[0], now);
      DeleteKeepsIndex(st, keys[0], now);
      DeleteListedEffect(w.st, keys[1..], now);
      assert Members(keys) == {keys[0]} + Members(keys[1..]) by { assert keys == [keys[0]] + keys[1..]; }
      DropTwice(Records(st), keys[0], Members(keys[1..]));
    }
  }

  /** Delete-by-prefix removes the keys listed and answers how many. It removes the records under
      the prefix and keeps all others exactly when listing does not overreach. Every deletion is
      published twice in a row, in key order. */
  lemma DeleteByPrefixExactIff(st: Store, prefix: string, now: u64)
    requires st.Indexed? && WellIndexed(st.s)
    ensures var out := ExecuteOp(st, DeleteByPrefix(prefix), now);
      && out.reply == DeleteByPrefixResponse(prefix, |ListKv(st, prefix)|)
      && Records(out.st) == Records(st) - Members(ListKv(st, prefix))
      && out.events == TwiceDeleted(Records(st), ListKv(st, prefix))
      && (Records(out.st) == Records(st) - KeysUnder(st, prefix) <==> !Overreaches(st, prefix))
  {
    PrefixOperation(st, prefix, now);
    var records, listed, under := Records(st), Members(ListKv(st, prefix)), KeysUnder(st, prefix);
    DeleteListedEffect(st, ListKv(st, prefix), now);
    ListedKeys(st, prefix);
    ListKvExactIff(st, prefix);
    SortedDistinct(ListKv(st, prefix));
    DeletionsAnnouncedTwice(st, ListKv(st, prefix), now);
    DropsDiffer(records, under, listed);
  }

  lemma {:induction false} PrefixOperation(st: Store, prefix: string, now: u64)
    ensures var d := DeleteListed(st, ListKv(st, prefix), now);
      ExecuteOp(st, DeleteByPrefix(prefix), now)
      == Outcome(d.st, DeleteByPrefixResponse(prefix, |ListKv(st, prefix)|), d.events)
  {
  }

  lemma DropsDiffer(m: map<string, SeqV>, a: set<string>, b: set<string>)
    requires a <= b <= m.Keys
    ensures m - a == m - b <==> a == b
  {
    assert (m - a).Keys == m.Keys - a && (m - b).Keys == m.Keys - b;
    assert b == a + ((m.Keys - a) - (m.Keys - b));
  }

  /** The deletions of the records under `keys`, each published twice. */
  function TwiceDeleted(records: map<string, SeqV>, keys: seq<string>): seq<Event>
    requires forall k :: k in keys ==> k in records
  {
    if keys == [] then []
    else
      var e := Event(keys[0], Some(records[keys[0]]), None);
      [e, e] + TwiceDeleted(records, keys[1..])
  }

  lemma {:induction false} DeletionsAnnouncedTwice(st: Store, keys: seq<string>, now: u64)
    requires st.Indexed? && WellIndexed(st.s)
    requires forall k :: k in keys ==> k in Records(st)
    requires Distinct(keys)
    ensures DeleteListed(st, keys, now).events == TwiceDeleted(Records(st), keys)
    decreases |keys|
  {
    if keys != [] {
      var w, rest := UpsertKv(st, UpsertDelete(keys[0]), now), keys[1..];
      DeleteOneEffect(st, keys[0], now);
      DeleteKeepsIndex(st, keys[0], now);
      DeleteAnnounced(st, keys[0], now);
      RestStays(Records(st), keys);
      DeletionsAnnouncedTwice(w.st, rest, now);
      SameDeletions(Records(w.st), Records(st), rest);
    }
  }

  lemma RestStays(records: map<string, SeqV>, keys: seq<string>)
    requires keys != [] && Distinct(keys) && forall k :: k in keys ==> k in records
    ensures Distinct(keys[1..])
    ensures forall k :: k in keys[1..] ==>
      k in records && k in records - {keys[0]} && (records - {keys[0]})[k] == records[k]
  {
    forall k | k in keys[1..] ensures k in records && k != keys[0] {
      var i :| 0 <= i < |keys[1..]| && keys[1..][i] == k;
      assert k == keys[i + 1] && k in keys;
    }
  }

  lemma {:induction false} SameDeletions(a: map<string, SeqV>, b: map<string, SeqV>, keys: seq<string>)
    requires forall k :: k in keys ==> k in a && k in b && a[k] == b[k]
    ensures TwiceDeleted(a, keys) == TwiceDeleted(b, keys)
  {
    if keys != [] { SameDeletions(a, b, keys[1..]); }
  }

  lemma DeleteAnnounced(st: Store, k: string, now: u64)
    requires st.Indexed? && WellIndexed(st.s) && k in Records(st)
    ensures var w, e := UpsertKv(st, UpsertDelete(k), now), Event(k, Some(Records(st)[k]), None);
      w.events + PushChange(k, w.reply.0, w.reply.1) == [e, e]
  {
    assert Live(st.s, k);
  }

  // ----------------------------------------------------- sequential puts

  lemma UpsertKeepsOthers(r: ReferenceStore, u: UpsertKV, now: u64, k: string)
    requires k != u.key
    ensures Lookup(UpsertReference(r, u, now).st, k) == Lookup(Reference(r), k)
  {
  }

  function Clamped(n: int): u64 { if n < 0 then 0 else if n > U64_MAX then U64_MAX else n }

  function SequenceOf(st: Store): nat {
    match st case Indexed(s) => s.sequence case Reference(r) => r.sequence
  }

  /** A counter update whose sequence number does not match changes nothing and answers what it
      found. Otherwise the counter is raised to the floor, then moved by the delta within 64 bits,
      and reads so afterwards; no other record changes. */
  ghost predicate FetchIncreased(st: Store, key: string, matchSeq: Option<nat>, delta: int, floor: u64,
                                 out: Outcome<TxnOpResponse>)
  {
    var found := Lookup(st, key);
    && out.reply.FetchIncreaseU64Response?
    && out.reply.before == CounterOf(found) && out.reply.beforeSeq == SeqnoOf(found)
    && (matchSeq in {None, Some(SeqnoOf(found))} ==>
          && out.reply.after == Clamped(delta + if CounterOf(found) < floor then floor else CounterOf(found))
          && out.reply.afterSeq == SequenceOf(out.st) == SequenceOf(st) + 1
          && CounterOf(Lookup(out.st, key)) == out.reply.after && SeqnoOf(Lookup(out.st, key)) == out.reply.afterSeq
          && forall k :: k != key ==> Lookup(out.st, k) == Lookup(st, k))
    && (matchSeq !in {None, Some(SeqnoOf(found))} ==>
          && out.reply.after == CounterOf(found) && out.reply.afterSeq == SeqnoOf(found)
          && out.st == st && out.events == [])
  }

  lemma ReferenceFetchIncrease(
    r: ReferenceStore, key: string, matchSeq: Option<nat>, delta: int, floor: u64, now: u64)
    ensures var out := ExecuteFetchIncrease(Reference(r), key, matchSeq, delta, floor, now);
      out.st.Reference? && FetchIncreased(Reference(r), key, matchSeq, delta, floor, out)
  {
    var found := Lookup(Reference(r), key);
    if matchSeq in {None, Some(SeqnoOf(found))} {
      var after := Clamped(delta + if CounterOf(found) < floor then floor else CounterOf(found));
      FetchMatched(r, key, matchSeq, delta, floor, now);
      CounterWritten(r, key, after, now);
    } else {
      FetchUnmatched(Reference(r), key, matchSeq, delta, floor, now);
    }
  }

  lemma FetchMatched(r: ReferenceStore, key: string, matchSeq: Option<nat>, delta: int, floor: u64, now: u64)
    requires matchSeq in {None, Some(SeqnoOf(Lookup(Reference(r), key)))}
    ensures var found := Lookup(Reference(r), key);
      var after := Clamped(delta + if CounterOf(found) < floor then floor else CounterOf(found));
      var w := UpsertReference(r, UpsertUpdate(key, FormatJsonU64(after)), now);
      var out := ExecuteFetchIncrease(Reference(r), key, matchSeq, delta, floor, now);
      && out.st == w.st
      && out.reply == FetchIncreaseU64Response(key, SeqnoOf(found), CounterOf(found), SeqnoOf(w.result), after)
  {
  }

  /** On every store: the reference store and the indexed store of every reachable state. */
  lemma FetchIncreaseMeaning(st: Store, key: string, matchSeq: Option<nat>, delta: int, floor: u64, now: u64)
    requires st.Indexed? ==> WellIndexed(st.s)
    ensures FetchIncreased(st, key, matchSeq, delta, floor,
                           ExecuteFetchIncrease(st, key, matchSeq, delta, floor, now))
  {
    match st
    case Reference(r) => ReferenceFetchIncrease(r, key, matchSeq, delta, floor, now);
    case Indexed(s) =>
      var out := ExecuteFetchIncrease(st, key, matchSeq, delta, floor, now);
      ReferenceFetchIncrease(Abstract(s), key, matchSeq, delta, floor, now);
      FetchIncreaseTracks(st, key, matchSeq, delta, floor, now);
      if matchSeq !in {None, Some(SeqnoOf(Lookup(st, key)))} {
        FetchUnmatched(st, key, matchSeq, delta, floor, now);
      }
      FetchIncreasedTransfers(st, key, matchSeq, delta, floor, out);
  }

  lemma FetchUnmatched(st: Store, key: string, matchSeq: Option<nat>, delta: int, floor: u64, now: u64)
    requires matchSeq !in {None, Some(SeqnoOf(Lookup(st, key)))}
    ensures var n, m := SeqnoOf(Lookup(st, key)), CounterOf(Lookup(st, key));
      ExecuteFetchIncrease(st, key, matchSeq, delta, floor, now)
      == Outcome(st, FetchIncreaseU64Response(key, n, m, n, m), [])
  {
  }

  lemma FetchIncreasedTransfers(
    st: Store, key: string, matchSeq: Option<nat>, delta: int, floor: u64, out: Outcome<TxnOpResponse>)
    requires FetchIncreased(AbstractStore(st), key, matchSeq, delta, floor, out.(st := AbstractStore(out.st)))
    requires matchSeq !in {None, Some(SeqnoOf(Lookup(st, key)))} ==> out.st == st
    ensures FetchIncreased(st, key, matchSeq, delta, floor, out)
  {
    forall k ensures Lookup(AbstractStore(st), k) == Lookup(st, k)
                     && Lookup(AbstractStore(out.st), k) == Lookup(out.st, k)
    {
      LookupAgrees(st, k);
      LookupAgrees(out.st, k);
    }
  }

  /** A counter without expiry reads one more after it was increased by one. */
  lemma CounterIncreased(r: ReferenceStore, key: string, now: u64)
    ensures var n := CounterOf(Lookup(Reference(r), key));
      var out := ExecuteFetchIncrease(Reference(r), key, None, 1, 0, now);
      out.st.Reference? && CounterOf(Lookup(out.st, key)) == SaturatingAdd(n, 1)
  {
    ReferenceFetchIncrease(r, key, None, 1, 0, now);
  }

  lemma CounterWritten(r: ReferenceStore, key: string, n: u64, now: u64)
    ensures var w := UpsertReference(r, UpsertUpdate(key, FormatJsonU64(n)), now);
      && w.st.Reference? && CounterOf(Lookup(w.st, key)) == n
      && SeqnoOf(w.result) == SeqnoOf(Lookup(w.st, key)) == SequenceOf(w.st) == r.sequence + 1
      && forall k :: k != key ==> Lookup(w.st, k) == Lookup(Reference(r), k)
  {
    var w := UpsertReference(r, UpsertUpdate(key, FormatJsonU64(n)), now);
    assert Lookup(w.st, key).Some? && Lookup(w.st, key).value.data == FormatJsonU64(n);
    JsonU64RoundTrip(n);
  }

  /** The counter that a put leaves if it writes under the counter's own key. */
  function CounterWrittenOver(payload: Payload, now: u64): u64 {
    if ResolveMetaSpec(payload.ToMetaSpec(), now).ExpiresAtMs() < now then 0 else ParseJsonU64(payload.data)
  }

  /** One sequential put reads the counter, answers with the key of the number it read, and advances
      the counter; if that key is the counter's own, the payload replaces the counter instead. */
  predicate PutInSequence(st: Store, prefix: string, sequenceKey: string, payload: Payload, now: u64,
                          out: Outcome<TxnOpResponse>)
  {
    var n := CounterOf(Lookup(st, sequenceKey));
    && out.reply.PutResponse? && out.reply.key == BuildKey(prefix, n)
    && CounterOf(Lookup(out.st, sequenceKey))
       == if sequenceKey == BuildKey(prefix, n) then CounterWrittenOver(payload, now) else SaturatingAdd(n, 1)
  }

  /** On every store, the index exact. */
  lemma PutSequentialStep(st: Store, prefix: string, sequenceKey: string, payload: Payload, now: u64)
    requires st.Indexed? ==> WellIndexed(st.s)
    ensures var out := ExecutePutSequential(st, prefix, sequenceKey, payload, now);
      && PutInSequence(st, prefix, sequenceKey, payload, now, out)
      && (out.st.Indexed? ==> WellIndexed(out.st.s))
  {
    match st
    case Reference(r) => ReferencePutSequential(r, prefix, sequenceKey, payload, now);
    case Indexed(s) =>
      var out := ExecutePutSequential(st, prefix, sequenceKey, payload, now);
      ReferencePutSequential(Abstract(s), prefix, sequenceKey, payload, now);
      PutSequentialTracks(st, prefix, sequenceKey, payload, now);
      LookupAgrees(st, sequenceKey);
      LookupAgrees(out.st, sequenceKey);
  }

  lemma ReferencePutSequential(r: ReferenceStore, prefix: string, sequenceKey: string, payload: Payload, now: u64)
    ensures var out := ExecutePutSequential(Reference(r), prefix, sequenceKey, payload, now);
      out.st.Reference? && PutInSequence(Reference(r), prefix, sequenceKey, payload, now, out)
  {
    var n := CounterOf(Lookup(Reference(r), sequenceKey));
    CounterIncreased(r, sequenceKey, now);
    var f := ExecuteFetchIncrease(Reference(r), sequenceKey, None, 1, 0, now);
    var u := UpsertUpdate(BuildKey(prefix, n), payload.data).(valueMeta := Some(payload.ToMetaSpec()));
    if sequenceKey == BuildKey(prefix, n) {
      PayloadWritten(f.st.r, sequenceKey, payload, now);
    } else {
      UpsertKeepsOthers(f.st.r, u, now, sequenceKey);
    }
  }

  lemma PayloadWritten(r: ReferenceStore, key: string, payload: Payload, now: u64)
    ensures var u := UpsertUpdate(key, payload.data).(valueMeta := Some(payload.ToMetaSpec()));
      var st := UpsertReference(r, u, now).st;
      st.Reference? && CounterOf(Lookup(st, key)) == CounterWrittenOver(payload, now)
  {
    var u := UpsertUpdate(key, payload.data).(valueMeta := Some(payload.ToMetaSpec()));
    var meta := ResolveMetaSpec(payload.ToMetaSpec(), now);
    assert ResolvedMeta(u, now) == meta;
    assert Lookup(UpsertReference(r, u, now).st, key)
        == if meta.ExpiresAtMs() < now then None else Some(SeqV(r.sequence + 1, Some(meta), payload.data));
  }

  /** The keys that a run of sequential puts answers with. */
  function PutKeys(st: Store, prefix: string, sequenceKey: string, payloads: seq<Payload>, now: u64)
    : (keys: seq<string>)
    ensures |keys| == |payloads|
    decreases |payloads|
  {
    if payloads == [] then []
    else
      var out := ExecutePutSequential(st, prefix, sequenceKey, payloads[0], now);
      [out.reply.key] + PutKeys(out.st, prefix, sequenceKey, payloads[1..], now)
  }

  /** The key of the `i`-th number from `n` on; the last number repeats. */
  function KeyFrom(prefix: string, n: u64, i: nat): string { BuildKey(prefix, Clamped(n + i)) }

  /** None of the first `i` keys is the counter's own. */
  predicate CounterSpared(prefix: string, sequenceKey: string, n: u64, i: nat) {
    forall j :: 0 <= j < i ==> KeyFrom(prefix, n, j) != sequenceKey
  }

  /** The keys are those of consecutive numbers until the counter saturates, however the payloads
      expire, up to and including a key that is the counter's own; `PutSequentialStep` says how the
      counter continues then. By `SequentialKeyOrder` they are distinct and sort in the order in
      which they were put. */
  lemma {:induction false} SequentialPutsConsecutive(
    st: Store, prefix: string, sequenceKey: string, payloads: seq<Payload>, now: u64, i: nat)
    requires i < |payloads| && (st.Indexed? ==> WellIndexed(st.s))
    ensures var n := CounterOf(Lookup(st, sequenceKey));
      CounterSpared(prefix, sequenceKey, n, i) ==>
      PutKeys(st, prefix, sequenceKey, payloads, now)[i] == KeyFrom(prefix, n, i)
    decreases |payloads|
  {
    var n := CounterOf(Lookup(st, sequenceKey));
    PutSequentialStep(st, prefix, sequenceKey, payloads[0], now);
    if i > 0 && CounterSpared(prefix, sequenceKey, n, i) {
      var next := ExecutePutSequential(st, prefix, sequenceKey, payloads[0], now).st;
      SparedNext(prefix, sequenceKey, n, i);
      SequentialPutsConsecutive(next, prefix, sequenceKey, payloads[1..], now, i - 1);
    }
  }

  lemma SparedNext(prefix: string, sequenceKey: string, n: u64, i: nat)
    requires i > 0 && CounterSpared(prefix, sequenceKey, n, i)
    ensures BuildKey(prefix, n) != sequenceKey && CounterSpared(prefix, sequenceKey, SaturatingAdd(n, 1), i - 1)
    ensures KeyFrom(prefix, SaturatingAdd(n, 1), i - 1) == KeyFrom(prefix, n, i)
  {
    assert KeyFrom(prefix, n, 0) == BuildKey(prefix, n);
    forall j: nat ensures KeyFrom(prefix, SaturatingAdd(n, 1), j) == KeyFrom(prefix, n, j + 1) {
      assert Clamped(SaturatingAdd(n, 1) + j) == Clamped(n + (j + 1));
    }
  }
}
