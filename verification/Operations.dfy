/** What the conditions and operations of the state machine mean, said on what a reader of the store
    sees before and after: the record under each key, the sequence number, and the changes published.
    Everything here holds of the reference store and of every well-indexed store. */
module Operations {
  import opened IndexInvariant
  import opened KvTypes
  import opened Listing
  import opened Machine
  import opened Order
  import opened PrefixBound
  import opened Refinement
  import opened Timestamps
  import opened Wrappers
  import BooleanExpressions
  import SequentialKeys

  ghost predicate Sound(st: Store) { st.Indexed? ==> WellIndexed(st.s) }

  // ------------------------------------------------------------ conditions

  /** At the first place where they differ `a` is smaller or has ended. */
  ghost predicate Precedes(a: Bytes, b: Bytes) {
    exists i: nat :: DiffersBelow(a, b, i)
  }

  predicate DiffersBelow(a: Bytes, b: Bytes, i: nat) {
    && i <= |a| && i < |b| && (forall j :: 0 <= j < i ==> a[j] == b[j])
    && (i == |a| || a[i] < b[i])
  }

  lemma {:induction false} LexIsPrecedes(a: Bytes, b: Bytes)
    ensures LexLess(a, b) <==> Precedes(a, b)
  {
    if b == [] {
    } else if a == [] {
      assert DiffersBelow(a, b, 0);
    } else if a[0] != b[0] {
      assert a[0] < b[0] ==> DiffersBelow(a, b, 0);
    } else {
      LexIsPrecedes(a[1..], b[1..]);
      forall i: nat ensures DiffersBelow(a[1..], b[1..], i) <==> DiffersBelow(a, b, i + 1) {
        FirstByteDropped(a, b, i);
      }
      assert forall i: nat :: DiffersBelow(a, b, i) ==> i > 0 && DiffersBelow(a[1..], b[1..], i - 1);
    }
  }

  lemma FirstByteDropped(a: Bytes, b: Bytes, i: nat)
    requires a != [] && b != [] && a[0] == b[0]
    ensures DiffersBelow(a[1..], b[1..], i) <==> DiffersBelow(a, b, i + 1)
  {
    if DiffersBelow(a[1..], b[1..], i) {
      forall j | 0 <= j < i + 1 ensures a[j] == b[j] { assert j > 0 ==> a[1..][j - 1] == b[1..][j - 1]; }
    }
  }

  /** How the number found compares with the operand. */
  predicate NumberCondition(found: nat, op: CompareOperator, operand: nat) {
    && (op == Eq ==> found == operand) && (op == Ne ==> found != operand)
    && (op == Lt ==> found < operand) && (op == Le ==> found <= operand)
    && (op == Gt ==> found > operand) && (op == Ge ==> found >= operand)
  }

  /** How the bytes found compare with the operand. */
  ghost predicate BytesCondition(found: Bytes, op: CompareOperator, operand: Bytes) {
    && (op == Eq ==> found == operand) && (op == Ne ==> found != operand)
    && (op == Lt ==> Precedes(found, operand)) && (op == Le ==> found == operand || Precedes(found, operand))
    && (op == Gt ==> Precedes(operand, found)) && (op == Ge ==> found == operand || Precedes(operand, found))
  }

  /** A sequence condition compares the sequence number of the visible record, zero without one, on
      the left; a value condition its bytes, and fails without one; a prefix condition the number of
      keys listed. */
  lemma ConditionMeaning(st: Store, key: string, op: CompareOperator)
    ensures forall n :: EvalCondition(st, Condition(key, SeqTarget(n), op)) <==>
              NumberCondition(if Lookup(st, key).Some? then Lookup(st, key).value.seqno else 0, op, n)
    ensures forall data :: EvalCondition(st, Condition(key, ValueTarget(data), op)) <==>
              Lookup(st, key).Some? && BytesCondition(Lookup(st, key).value.data, op, data)
    ensures forall n :: EvalCondition(st, Condition(key, KeysWithPrefix(n), op)) <==>
              NumberCondition(|ListKv(st, key)|, op, n)
  {
    forall data: Bytes, found: Bytes ensures LexLess(found, data) <==> Precedes(found, data) {
      LexIsPrecedes(found, data);
    }
  }

  /** The comparison by its number on the wire; an unknown number asks for equality. */
  predicate WireNumber(found: nat, expected: int, operand: nat) {
    match expected
    case 1 => found > operand
    case 2 => found >= operand
    case 3 => found < operand
    case 4 => found <= operand
    case 5 => found != operand
    case _ => found == operand
  }

  ghost predicate WireBytes(found: Bytes, expected: int, operand: Bytes) {
    match expected
    case 1 => Precedes(operand, found)
    case 2 => found == operand || Precedes(operand, found)
    case 3 => Precedes(found, operand)
    case 4 => found == operand || Precedes(found, operand)
    case 5 => found != operand
    case _ => found == operand
  }

  /** A condition as sent, evaluated; one without operand never holds. */
  lemma WireConditionMeaning(st: Store, c: BooleanExpressions.TxnCondition)
    ensures EvalCondition(st, BooleanExpressions.ConditionFrom(c)) <==>
              match c.target
              case None => false
              case Some(SeqTarget(n)) => WireNumber(SeqnoOf(Lookup(st, c.key)), c.expected, n)
              case Some(ValueTarget(data)) =>
                Lookup(st, c.key).Some? && WireBytes(Lookup(st, c.key).value.data, c.expected, data)
              case Some(KeysWithPrefix(n)) => WireNumber(|ListKv(st, c.key)|, c.expected, n)
  {
    var op := BooleanExpressions.CompareFrom(c.expected);
    ConditionMeaning(st, c.key, op);
    ConditionMeaning(st, c.key, Lt);
    match c.target
    case None =>
    case Some(SeqTarget(n)) => WireNumbers(SeqnoOf(Lookup(st, c.key)), c.expected, n);
    case Some(ValueTarget(data)) =>
      if Lookup(st, c.key).Some? { WireByteStrings(Lookup(st, c.key).value.data, c.expected, data); }
    case Some(KeysWithPrefix(n)) => WireNumbers(|ListKv(st, c.key)|, c.expected, n);
  }

  lemma WireNumbers(found: nat, expected: int, operand: nat)
    ensures NumberCondition(found, BooleanExpressions.CompareFrom(expected), operand)
            <==> WireNumber(found, expected, operand)
  {
  }

  lemma WireByteStrings(found: Bytes, expected: int, operand: Bytes)
    ensures BytesCondition(found, BooleanExpressions.CompareFrom(expected), operand)
            <==> WireBytes(found, expected, operand)
  {
  }

  // --------------------------------------------------------------- upserts

  /** The expiry a write gives its record: a time-to-live counts from the log time, capped at 64 bits,
      and overrides an absolute expiry; without either there is none. */
  function ExpiryGiven(expireAt: Option<u64>, ttlMs: Option<u64>, now: u64): Option<u64> {
    match ttlMs
    case Some(ttl) => Some(if now + ttl > U64_MAX then U64_MAX else now + ttl)
    case None => expireAt
  }

  /** The expiry, in milliseconds if above `100_000_000_000` and otherwise in seconds, is past. */
  predicate Past(expiry: Option<u64>, now: u64) {
    expiry.Some? && (if expiry.value > 100_000_000_000 then expiry.value else expiry.value * 1000) < now
  }

  /** The record a value write leaves, none if it is already expired. */
  function Stored(seqno: nat, expiry: Option<u64>, now: u64, data: Bytes): Option<SeqV> {
    if Past(expiry, now) then None else Some(SeqV(seqno, Some(KvMeta(expiry, Some(now))), data))
  }

  function Published(key: string, found: Option<SeqV>, result: Option<SeqV>): seq<Event> {
    if found == result then [] else [Event(key, found, result)]
  }

  /** One key has a new record, all others keep theirs. */
  ghost predicate OnlyChanges(st: Store, after: Store, key: string, result: Option<SeqV>) {
    Lookup(after, key) == result && forall k :: k != key ==> Lookup(after, k) == Lookup(st, k)
  }

  predicate Matched(cond: MatchSeq, found: Option<SeqV>) {
    var seqno := if found.Some? then found.value.seqno else 0;
    (cond.Exact? ==> seqno == cond.seqno) && (cond.GE? ==> seqno >= cond.seqno)
  }

  /** An upsert whose condition does not match changes nothing. Otherwise an update stores its value
      under the next sequence number with the expiry given, or removes the record if that is past;
      a deletion removes the record; a change of metadata alone rewrites the record found. */
  ghost predicate UpsertMeans(st: Store, u: UpsertKV, now: u64, out: Outcome<(Option<SeqV>, Option<SeqV>)>) {
    var found := Lookup(st, u.key);
    var expiry := match u.valueMeta case Some(m) => ExpiryGiven(m.expireAt, m.ttlMs, now) case None => None;
    var value := match u.value
      case Update(data) => Some(data)
      case Delete => None
      case AsIs => if found.Some? then Some(found.value.data) else None;
    var result := if !Matched(u.cond, found) then found
                  else if value.Some? then Stored(SequenceOf(st) + 1, expiry, now, value.value) else None;
    && out.reply == (found, result)
    && OnlyChanges(st, out.st, u.key, result)
    && SequenceOf(out.st) == SequenceOf(st) + (if Matched(u.cond, found) && value.Some? then 1 else 0)
    && out.events == Published(u.key, found, result)
  }

  lemma ReferenceUpsertMeaning(r: ReferenceStore, u: UpsertKV, now: u64)
    ensures UpsertMeans(Reference(r), u, now, UpsertKv(Reference(r), u, now))
  {
    assert u.cond.Matches(SeqnoOf(Lookup(Reference(r), u.key))) <==> Matched(u.cond, Lookup(Reference(r), u.key));
  }

  lemma SameForReaders(st: Store)
    ensures SequenceOf(AbstractStore(st)) == SequenceOf(st)
    ensures forall k :: Lookup(AbstractStore(st), k) == Lookup(st, k)
  {
    forall k ensures Lookup(AbstractStore(st), k) == Lookup(st, k) { LookupAgrees(st, k); }
  }

  lemma UpsertMeaning(st: Store, u: UpsertKV, now: u64)
    requires Sound(st)
    ensures var out := UpsertKv(st, u, now); UpsertMeans(st, u, now, out) && Sound(out.st)
  {
    match st
    case Reference(r) =>
      ReferenceUpsertMeaning(r, u, now);
    case Indexed(s) =>
      var out := UpsertKv(st, u, now);
      UpsertTracks(st, u, now);
      ReferenceUpsertMeaning(Abstract(s), u, now);
      SameForReaders(st);
      SameForReaders(out.st);
  }

  /** An upsert command answers the record before and the record after. */
  lemma UpsertCommandMeaning(st: Store, u: UpsertKV, now: u64)
    requires Sound(st)
    ensures var out := ApplyCmd(st, UpsertCmd(u), now);
      && out.reply.KvChange?
      && UpsertMeans(st, u, now, Outcome(out.st, (out.reply.prev, out.reply.result), out.events))
      && out.reply.result == Lookup(out.st, u.key)
  {
    UpsertMeaning(st, u, now);
  }

  // ------------------------------------------------------------ operations

  ghost predicate PutMeans(st: Store, key: string, matchSeq: Option<nat>, payload: Payload, now: u64,
                           out: Outcome<TxnOpResponse>)
  {
    var found := Lookup(st, key);
    var matched := matchSeq.None? || matchSeq.value == if found.Some? then found.value.seqno else 0;
    var stored := Stored(SequenceOf(st) + 1, ExpiryGiven(payload.expireAtMs, payload.ttlMs, now), now, payload.data);
    var result := if matched then stored else found;
    && out.reply == PutResponse(key, found, result)
    && OnlyChanges(st, out.st, key, result)
    && SequenceOf(out.st) == SequenceOf(st) + (if matched then 1 else 0)
    && out.events == Published(key, found, result)
    && (!matched ==> out.st == st)
  }

  /** Without a sequence number to match, a record is deleted if there is one. */
  ghost predicate DeleteMeans(st: Store, key: string, matchSeq: Option<nat>, out: Outcome<TxnOpResponse>) {
    var found := Lookup(st, key);
    var seqno := if found.Some? then found.value.seqno else 0;
    var matched := if matchSeq.Some? then matchSeq.value == seqno else seqno >= 1;
    var result := if matched then None else found;
    && out.reply == DeleteResponse(key, found.Some? && matched, found)
    && OnlyChanges(st, out.st, key, result)
    && SequenceOf(out.st) == SequenceOf(st)
    && out.events == Published(key, found, result)
  }

  /** The record a counter update writes; counters do not expire. */
  function CounterRecord(seqno: nat, n: u64, now: u64): Option<SeqV> {
    Some(SeqV(seqno, Some(KvMeta(None, Some(now))), SequentialKeys.FormatJsonU64(n)))
  }

  ghost predicate FetchMeans(st: Store, key: string, matchSeq: Option<nat>, delta: int, floor: u64, now: u64,
                             out: Outcome<TxnOpResponse>)
  {
    var found := Lookup(st, key);
    && FetchIncreased(st, key, matchSeq, delta, floor, out)
    && out.reply.key == key
    && (matchSeq in {None, Some(if found.Some? then found.value.seqno else 0)} ==>
          var result := CounterRecord(SequenceOf(st) + 1, out.reply.after, now);
          OnlyChanges(st, out.st, key, result) && out.events == Published(key, found, result))
  }

  /** The counter is read and advanced; the payload is put under the key of the number read, which may
      be the counter's own. */
  ghost predicate SequentialMeans(st: Store, prefix: string, sequenceKey: string, payload: Payload, now: u64,
                                  out: Outcome<TxnOpResponse>)
  {
    var n := CounterOf(Lookup(st, sequenceKey));
    var key := SequentialKeys.BuildKey(prefix, n);
    var counter := CounterRecord(SequenceOf(st) + 1, if n < U64_MAX then n + 1 else n, now);
    var found := if key == sequenceKey then counter else Lookup(st, key);
    var result := Stored(SequenceOf(st) + 2, ExpiryGiven(payload.expireAtMs, payload.ttlMs, now), now, payload.data);
    && out.reply == PutResponse(key, found, result)
    && Lookup(out.st, key) == result
    && (key != sequenceKey ==> Lookup(out.st, sequenceKey) == counter)
    && (forall k :: k != key && k != sequenceKey ==> Lookup(out.st, k) == Lookup(st, k))
    && SequenceOf(out.st) == SequenceOf(st) + 2
    && out.events == Published(sequenceKey, Lookup(st, sequenceKey), counter) + Published(key, found, result)
  }

  /** Every operation of a transaction. */
  ghost predicate OperationMeans(st: Store, op: TxnOperation, now: u64, out: Outcome<TxnOpResponse>) {
    match op
    case Get(key) => out == Outcome(st, GetResponse(key, Lookup(st, key)), [])
    case Put(key, matchSeq, payload) => PutMeans(st, key, matchSeq, payload, now, out)
    case DeleteKey(key, matchSeq) => DeleteMeans(st, key, matchSeq, out)
    case DeleteByPrefix(prefix) =>
      && out.reply == DeleteByPrefixResponse(prefix, |ListKv(st, prefix)|)
      && forall k :: Lookup(out.st, k) == if k in ListKv(st, prefix) then None else Lookup(st, k)
    case FetchIncreaseU64(key, matchSeq, delta, floor) => FetchMeans(st, key, matchSeq, delta, floor, now, out)
    case PutSequential(prefix, sequenceKey, payload) => SequentialMeans(st, prefix, sequenceKey, payload, now, out)
  }

  lemma PutMeaning(st: Store, key: string, matchSeq: Option<nat>, payload: Payload, now: u64)
    requires Sound(st)
    ensures PutMeans(st, key, matchSeq, payload, now, ExecutePut(st, key, matchSeq, payload, now))
  {
    var cond := match matchSeq case Some(n) => Exact(n) case None => GE(0);
    var u := UpsertKV(key, cond, Update(payload.data), Some(MetaSpec(payload.expireAtMs, payload.ttlMs)));
    UpsertMeaning(st, u, now);
    if !Matched(cond, Lookup(st, key)) { UnmatchedChangesNothing(st, u, now); }
  }

  lemma UnmatchedChangesNothing(st: Store, u: UpsertKV, now: u64)
    requires !Matched(u.cond, Lookup(st, u.key))
    ensures UpsertKv(st, u, now).st == st
  {
  }

  lemma DeleteMeaning(st: Store, key: string, matchSeq: Option<nat>, now: u64)
    requires Sound(st)
    ensures DeleteMeans(st, key, matchSeq, ExecuteDelete(st, key, matchSeq, now))
  {
    var cond := match matchSeq case Some(n) => Exact(n) case None => GE(1);
    UpsertMeaning(st, UpsertKV(key, cond, Delete, None), now);
  }

  lemma FetchMeaning(st: Store, key: string, matchSeq: Option<nat>, delta: int, floor: u64, now: u64)
    requires Sound(st)
    ensures var out := ExecuteFetchIncrease(st, key, matchSeq, delta, floor, now);
      FetchMeans(st, key, matchSeq, delta, floor, now, out) && Sound(out.st)
  {
    FetchIncreaseMeaning(st, key, matchSeq, delta, floor, now);
    var n := CounterOf(Lookup(st, key));
    var after := SaturatingAddSigned(if n < floor then floor else n, delta);
    UpsertMeaning(st, UpsertKV(key, GE(0), Update(SequentialKeys.FormatJsonU64(after)), None), now);
  }

  lemma SequentialMeaning(st: Store, prefix: string, sequenceKey: string, payload: Payload, now: u64)
    requires Sound(st)
    ensures SequentialMeans(st, prefix, sequenceKey, payload, now,
                            ExecutePutSequential(st, prefix, sequenceKey, payload, now))
  {
    var n := CounterOf(Lookup(st, sequenceKey));
    var key := SequentialKeys.BuildKey(prefix, n);
    var f := ExecuteFetchIncrease(st, sequenceKey, None, 1, 0, now);
    CounterDrawn(st, sequenceKey, now);
    PayloadPut(f.st, key, payload, now);
    SequentialParts(st, prefix, sequenceKey, payload, now);
  }

  lemma SequentialParts(st: Store, prefix: string, sequenceKey: string, payload: Payload, now: u64)
    ensures var key := SequentialKeys.BuildKey(prefix, CounterOf(Lookup(st, sequenceKey)));
      var f := ExecuteFetchIncrease(st, sequenceKey, None, 1, 0, now);
      var spec := MetaSpec(payload.expireAtMs, payload.ttlMs);
      var w := UpsertKv(f.st, UpsertKV(key, GE(0), Update(payload.data), Some(spec)), now);
      ExecutePutSequential(st, prefix, sequenceKey, payload, now)
      == Outcome(w.st, PutResponse(key, w.reply.0, w.reply.1), f.events + w.events)
  {
  }

  lemma CounterDrawn(st: Store, sequenceKey: string, now: u64)
    requires Sound(st)
    ensures var n := CounterOf(Lookup(st, sequenceKey));
      var counter := CounterRecord(SequenceOf(st) + 1, if n < U64_MAX then n + 1 else n, now);
      var f := ExecuteFetchIncrease(st, sequenceKey, None, 1, 0, now);
      && Sound(f.st) && SequenceOf(f.st) == SequenceOf(st) + 1
      && OnlyChanges(st, f.st, sequenceKey, counter)
      && f.events == Published(sequenceKey, Lookup(st, sequenceKey), counter)
  {
    FetchMeaning(st, sequenceKey, None, 1, 0, now);
  }

  lemma PayloadPut(st: Store, key: string, payload: Payload, now: u64)
    requires Sound(st)
    ensures var spec := MetaSpec(payload.expireAtMs, payload.ttlMs);
      var w := UpsertKv(st, UpsertKV(key, GE(0), Update(payload.data), Some(spec)), now);
      var result := Stored(SequenceOf(st) + 1, ExpiryGiven(payload.expireAtMs, payload.ttlMs, now), now, payload.data);
      && w.reply == (Lookup(st, key), result) && OnlyChanges(st, w.st, key, result)
      && SequenceOf(w.st) == SequenceOf(st) + 1 && w.events == Published(key, Lookup(st, key), result)
  {
    var meta := Some(MetaSpec(payload.expireAtMs, payload.ttlMs));
    UpsertMeaning(st, UpsertKV(key, GE(0), Update(payload.data), meta), now);
  }

  lemma {:induction false} DeleteListedMeaning(st: Store, keys: seq<string>, now: u64)
    requires Sound(st) && forall k :: Lookup(st, k).Some? ==> Lookup(st, k).value.seqno >= 1
    ensures forall k :: Lookup(DeleteListed(st, keys, now).st, k) == if k in keys then None else Lookup(st, k)
    decreases |keys|
  {
    if keys != [] {
      var w := UpsertKv(st, UpsertKV(keys[0], GE(1), Delete, None), now);
      UpsertMeaning(st, UpsertKV(keys[0], GE(1), Delete, None), now);
      DeleteListedMeaning(w.st, keys[1..], now);
      assert keys == [keys[0]] + keys[1..];
    }
  }

  lemma SoundSeqnos(st: Store)
    requires st.Indexed? && Sound(st)
    ensures forall k :: Lookup(st, k).Some? ==> Lookup(st, k).value.seqno >= 1
  {
    forall k | Lookup(st, k).Some? ensures Lookup(st, k).value.seqno >= 1 { assert Live(st.s, k); }
  }

  /** Every operation means what `OperationMeans` says; records of a reference store need positive
      sequence numbers for deletion by prefix, as those of every well-indexed store have. */
  lemma OperationMeaning(st: Store, op: TxnOperation, now: u64)
    requires Sound(st)
    requires op.DeleteByPrefix? && st.Reference? ==>
      forall k :: Lookup(st, k).Some? ==> Lookup(st, k).value.seqno >= 1
    ensures OperationMeans(st, op, now, ExecuteOp(st, op, now))
  {
    match op
    case Get(_) =>
    case Put(key, matchSeq, payload) => PutMeaning(st, key, matchSeq, payload, now);
    case DeleteKey(key, matchSeq) => DeleteMeaning(st, key, matchSeq, now);
    case DeleteByPrefix(prefix) =>
      if st.Indexed? { SoundSeqnos(st); }
      DeleteListedMeaning(st, ListKv(st, prefix), now);
    case FetchIncreaseU64(key, matchSeq, delta, floor) => FetchMeaning(st, key, matchSeq, delta, floor, now);
    case PutSequential(prefix, sequenceKey, payload) => SequentialMeaning(st, prefix, sequenceKey, payload, now);
  }

  /** What the indexed store keeps of a key. Only a value write makes it known. A record that is
      removed, or a value that is expired when written, leaves a mark with the sequence number reached. */
  lemma DeletionMarks(s: IndexedStore, u: UpsertKV, now: u64)
    ensures var t := UpsertIndexed(s, u, now).st.s;
      && (u.key in t.user <==> u.key in s.user || t.sequence > s.sequence)
      && (Lookup(Indexed(t), u.key).None? && (Lookup(Indexed(s), u.key).Some? || t.sequence > s.sequence) ==>
            u.key in t.user && t.user[u.key] == Tombstone(t.sequence))
  {
  }

  // ---------------------------------------------------- sequences of steps

  /** One more step: its answer and its changes come after those before it. */
  function Then<R>(before: Outcome<seq<R>>, step: Outcome<R>): Outcome<seq<R>> {
    Outcome(step.st, before.reply + [step.reply], before.events + step.events)
  }

  function After<R>(first: Outcome<R>, rest: Outcome<seq<R>>): Outcome<seq<R>> {
    Outcome(rest.st, [first.reply] + rest.reply, first.events + rest.events)
  }

  lemma AfterThen<R>(first: Outcome<R>, between: Outcome<seq<R>>, step: Outcome<R>)
    ensures After(first, Then(between, step)) == Then(After(first, between), step)
  {
    assert [first.reply] + (between.reply + [step.reply]) == [first.reply] + between.reply + [step.reply];
    assert first.events + (between.events + step.events) == first.events + between.events + step.events;
  }

  lemma OnlyStep<R>(st: Store, step: Outcome<R>)
    ensures After(step, Outcome(step.st, [], [])) == Then(Outcome(st, [], []), step)
  {
    assert [step.reply] + [] == [] + [step.reply] && step.events + [] == [] + step.events;
  }

  /** Operations run one after another, each on the store the ones before it left. */
  lemma {:induction false} OperationsInOrder(st: Store, ops: seq<TxnOperation>, op: TxnOperation, now: u64)
    ensures ExecuteOps(st, [], now) == Outcome(st, [], [])
    ensures var before := ExecuteOps(st, ops, now);
      ExecuteOps(st, ops + [op], now) == Then(before, ExecuteOp(before.st, op, now))
    decreases |ops|
  {
    OperationsCons(st, ops + [op], now);
    if ops == [] {
      assert (ops + [op])[1..] == [];
      OnlyStep(st, ExecuteOp(st, op, now));
    } else {
      var first := ExecuteOp(st, ops[0], now);
      var between := ExecuteOps(first.st, ops[1..], now);
      OperationsCons(st, ops, now);
      assert (ops + [op])[1..] == ops[1..] + [op];
      OperationsInOrder(first.st, ops[1..], op, now);
      AfterThen(first, between, ExecuteOp(between.st, op, now));
    }
  }

  lemma {:induction false} OperationsCons(st: Store, ops: seq<TxnOperation>, now: u64)
    requires ops != []
    ensures var first := ExecuteOp(st, ops[0], now);
      ExecuteOps(st, ops, now) == After(first, ExecuteOps(first.st, ops[1..], now))
  {
  }

  /** A transaction runs the operations of the first branch whose guard holds and answers its place;
      if no guard holds nothing happens. */
  lemma {:induction false} TransactionMeaning(st: Store, txn: Transaction, now: u64, i: nat)
    requires i < |txn.branches|
    ensures var out, run := ApplyCmd(st, TxnCmd(txn), now), ExecuteOps(st, txn.branches[i].operations, now);
      EvalPredicate(st, txn.branches[i].guard) &&
      (forall j :: 0 <= j < i ==> !EvalPredicate(st, txn.branches[j].guard)) ==>
        out == Outcome(run.st, KvTxn(KvTransactionReply(Some(i), run.reply)), run.events)
    ensures (forall j :: 0 <= j < |txn.branches| ==> !EvalPredicate(st, txn.branches[j].guard)) ==>
      ApplyCmd(st, TxnCmd(txn), now) == Outcome(st, KvTxn(KvTransactionReply(None, [])), [])
  {
    FirstMatchIff(st, txn.branches, i);
    if FirstMatch(st, txn.branches).Some? { FirstMatchIff(st, txn.branches, FirstMatch(st, txn.branches).value); }
  }

  lemma {:induction false} FirstMatchIff(st: Store, branches: seq<Branch>, i: nat)
    requires i < |branches|
    ensures FirstMatch(st, branches) == Some(i) <==>
              && EvalPredicate(st, branches[i].guard)
              && forall j :: 0 <= j < i ==> !EvalPredicate(st, branches[j].guard)
    decreases |branches|
  {
    if i > 0 {
      FirstMatchIff(st, branches[1..], i - 1);
      assert forall j :: 0 <= j < i - 1 ==> branches[1..][j] == branches[j + 1];
      assert forall j :: 0 < j < i ==> branches[j] == branches[1..][j - 1];
    }
  }

  /** So do the entries of a log. */
  lemma {:induction false} EntriesInOrder(st: Store, log: seq<Entry>, e: Entry)
    ensures ApplyLog(st, []) == Outcome(st, [], [])
    ensures var before := ApplyLog(st, log); ApplyLog(st, log + [e]) == Then(before, ApplyEntry(before.st, e))
    decreases |log|
  {
    EntriesCons(st, log + [e]);
    if log == [] {
      assert (log + [e])[1..] == [];
      OnlyStep(st, ApplyEntry(st, e));
    } else {
      var first := ApplyEntry(st, log[0]);
      var between := ApplyLog(first.st, log[1..]);
      EntriesCons(st, log);
      assert (log + [e])[1..] == log[1..] + [e];
      EntriesInOrder(first.st, log[1..], e);
      AfterThen(first, between, ApplyEntry(between.st, e));
    }
  }

  lemma {:induction false} EntriesCons(st: Store, log: seq<Entry>)
    requires log != []
    ensures var first := ApplyEntry(st, log[0]);
      ApplyLog(st, log) == After(first, ApplyLog(first.st, log[1..]))
  {
  }
}
