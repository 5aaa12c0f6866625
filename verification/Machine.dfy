/** The state machine that applies committed log entries, as functions on its state.

    Two stores implement the same interface. `Indexed` is the one the program keeps: records and
    tombstones, a secondary index by expiry time, and a cleanup start before which the index is no
    longer read. `Reference` is what it stands for: the visible records and nothing else, cleaned
    by a full scan. Transactions and log entries are executed by the same functions on both. */
module Machine {
  import opened KvTypes
  import opened Order
  import opened PrefixBound
  import opened Strings
  import opened Timestamps
  import opened Wrappers
  import SequentialKeys

  datatype IndexedStore = IndexedStore(
    user: map<string, SeqMarked>,
    expire: map<ExpireKey, Option<string>>,
    sequence: nat,
    cleanupStart: u64)

  datatype ReferenceStore = ReferenceStore(records: map<string, SeqV>, sequence: nat)

  datatype Store = Indexed(s: IndexedStore) | Reference(r: ReferenceStore)

  const EMPTY: IndexedStore := IndexedStore(map[], map[], 0, 0)

  // ------------------------------------------------- the indexed store

  function GetMarked(s: IndexedStore, k: string): SeqMarked {
    if k in s.user then s.user[k] else Tombstone(0)
  }

  /** The store after a write, with the record before and after it. */
  datatype Written = Written(s: IndexedStore, prev: SeqMarked, result: SeqMarked)

  /** A value write takes the next sequence number; a deletion leaves a tombstone with the
      current one, and does nothing to a key that was never written. */
  function FetchAndSet(s: IndexedStore, k: string, v: Option<(KvMeta, Bytes)>): Written {
    var prev := GetMarked(s, k);
    match v
    case Some((meta, data)) =>
      var n := s.sequence + 1;
      var rec := Normal(SeqV(n, Some(meta), data));
      Written(s.(user := s.user[k := rec], sequence := n), prev, rec)
    case None =>
      if k in s.user
      then Written(s.(user := s.user[k := Tombstone(s.sequence)]), prev, Tombstone(s.sequence))
      else Written(s, prev, prev)
  }

  /** Replace the metadata of a live record and keep its value. */
  function UpdateMeta(s: IndexedStore, k: string, meta: KvMeta): Written {
    match GetMarked(s, k)
    case Normal(v) => FetchAndSet(s, k, Some((meta, v.data)))
    case Tombstone(n) => Written(s, Tombstone(n), Tombstone(n))
  }

  /** Check the condition, write, and delete at once what is already expired. */
  function UpsertPrimaryIndex(s: IndexedStore, u: UpsertKV, now: u64): Written {
    var meta := ResolvedMeta(u, now);
    var prev := GetMarked(s, u.key);
    if !u.cond.Matches(prev.Seqno()) then Written(s, prev, prev)
    else
      var w := match u.value
        case Update(data) => FetchAndSet(s, u.key, Some((meta, data)))
        case Delete => FetchAndSet(s, u.key, None)
        case AsIs => UpdateMeta(s, u.key, meta);
      if meta.ExpiresAtMs() < now
      then w.(s := FetchAndSet(w.s, u.key, None).s, result := FetchAndSet(w.s, u.key, None).result)
      else w
  }

  /** Drop the index entry of the replaced record and add the one of its successor. */
  function UpdateExpireIndex(s: IndexedStore, k: string, removed: SeqMarked, added: SeqMarked): IndexedStore {
    if removed == added then s
    else
      var e := match removed.IndexKey() case Some(ek) => s.expire[ek := None] case None => s.expire;
      s.(expire := match added.IndexKey() case Some(ek) => e[ek := Some(k)] case None => e)
  }

  /** The live index entries from the cleanup start up to `now`, exclusive. */
  function WindowEntries(s: IndexedStore, now: u64): set<(ExpireKey, string)> {
    set ek | ek in s.expire && s.expire[ek].Some? && s.cleanupStart <= ek.timeMs < now
      :: (ek, s.expire[ek].value)
  }

  /** The live records of the indexed store. */
  function Visible(s: IndexedStore): map<string, SeqV> {
    map k | k in s.user && s.user[k].Normal? :: s.user[k].v
  }

  // --------------------------------------------------- the store interface

  /** The store after an upsert, with the visible record before and after it. */
  datatype Upserted = Upserted(st: Store, prev: Option<SeqV>, result: Option<SeqV>)

  function Lookup(st: Store, k: string): Option<SeqV> {
    match st
    case Indexed(s) => GetMarked(s, k).ToSeqV()
    case Reference(r) => if k in r.records then Some(r.records[k]) else None
  }

  function UpsertIndexed(s: IndexedStore, u: UpsertKV, now: u64): Upserted {
    var w := UpsertPrimaryIndex(s, u, now);
    Upserted(Indexed(UpdateExpireIndex(w.s, u.key, w.prev, w.result)), w.prev.ToSeqV(), w.result.ToSeqV())
  }

  /** What an upsert means for the visible records. */
  function UpsertReference(r: ReferenceStore, u: UpsertKV, now: u64): Upserted {
    var prev := Lookup(Reference(r), u.key);
    var meta := ResolvedMeta(u, now);
    if !u.cond.Matches(SeqnoOf(prev)) then Upserted(Reference(r), prev, prev)
    else if u.value.Delete? || (u.value.AsIs? && prev.None?)
    then Upserted(Reference(r.(records := r.records - {u.key})), prev, None)
    else
      var n := r.sequence + 1;
      var data := if u.value.Update? then u.value.data else prev.value.data;
      if meta.ExpiresAtMs() < now
      then Upserted(Reference(ReferenceStore(r.records - {u.key}, n)), prev, None)
      else
        var rec := SeqV(n, Some(meta), data);
        Upserted(Reference(ReferenceStore(r.records[u.key := rec], n)), prev, Some(rec))
  }

  function Upsert(st: Store, u: UpsertKV, now: u64): Upserted {
    match st
    case Indexed(s) => UpsertIndexed(s, u, now)
    case Reference(r) => UpsertReference(r, u, now)
  }

  function Records(st: Store): map<string, SeqV> {
    match st
    case Indexed(s) => Visible(s)
    case Reference(r) => r.records
  }

  /** `list_kv`: the live records in the key range of the prefix, in key order. */
  function ListKv(st: Store, prefix: string): seq<string> {
    SortedKeys(set k | k in Records(st) && InListRange(prefix, k))
  }

  /** The records a scan of every record finds expired. */
  function FullScan(records: map<string, SeqV>, now: u64): set<(ExpireKey, string)> {
    set k | k in records && records[k].ExpiredAt(now) :: (records[k].IndexKey().value, k)
  }

  /** What a cleanup at `now` deletes, in order: read off the index, or found by a full scan. */
  function ListExpired(st: Store, now: u64): seq<(ExpireKey, string)> {
    match st
    case Indexed(s) => SortedEntries(WindowEntries(s, now))
    case Reference(r) => SortedEntries(FullScan(r.records, now))
  }

  // ---------------------------------------------------------- conditions

  predicate CompareInt(a: int, op: CompareOperator, b: int) {
    match op
    case Eq => a == b
    case Ne => a != b
    case Lt => a < b
    case Le => a <= b
    case Gt => a > b
    case Ge => a >= b
  }

  predicate CompareBytes(a: Bytes, op: CompareOperator, b: Bytes) {
    match op
    case Eq => a == b
    case Ne => a != b
    case Lt => LexLess(a, b)
    case Le => a == b || LexLess(a, b)
    case Gt => LexLess(b, a)
    case Ge => a == b || LexLess(b, a)
  }

  /** Counting keys stops one above the number compared against. */
  function CountUpTo(keys: seq<string>, limit: nat): nat {
    if |keys| <= limit then |keys| else limit
  }

  predicate EvalCondition(st: Store, c: Condition) {
    var v := Lookup(st, c.key);
    match c.target
    case SeqTarget(n) => CompareInt(SeqnoOf(v), c.op, n)
    case ValueTarget(data) => v.Some? && CompareBytes(v.value.data, c.op, data)
    case KeysWithPrefix(n) => CompareInt(CountUpTo(ListKv(st, c.key), n + 1), c.op, n)
  }

  /** A predicate under a truth assignment to its conditions; an empty OR is true. */
  predicate Eval(p: Predicate, truth: Condition -> bool) {
    match p
    case And(children) => forall q :: q in children ==> Eval(q, truth)
    case Or(children) => children == [] || exists q :: q in children && Eval(q, truth)
    case Leaf(c) => truth(c)
  }

  function Truth(st: Store): Condition -> bool { c => EvalCondition(st, c) }

  predicate EvalPredicate(st: Store, p: Predicate) { Eval(p, Truth(st)) }

  // ---------------------------------------------------------- operations

  /** The outcome of a step: the new store, what is answered, and the changes to publish. */
  datatype Outcome<R> = Outcome(st: Store, reply: R, events: seq<Event>)

  /** Only a change is published. */
  function PushChange(key: string, prev: Option<SeqV>, result: Option<SeqV>): seq<Event> {
    if prev == result then [] else [Event(key, prev, result)]
  }

  /** An upsert as the applier performs it: both indexes, then the notification. */
  function UpsertKv(st: Store, u: UpsertKV, now: u64): Outcome<(Option<SeqV>, Option<SeqV>)> {
    var w := Upsert(st, u, now);
    Outcome(w.st, (w.prev, w.result), PushChange(u.key, w.prev, w.result))
  }

  function ExecutePut(st: Store, key: string, matchSeq: Option<nat>, payload: Payload, now: u64)
    : Outcome<TxnOpResponse>
  {
    var cond := match matchSeq case Some(n) => Exact(n) case None => GE(0);
    var w := UpsertKv(st, UpsertKV(key, cond, Update(payload.data), Some(payload.ToMetaSpec())), now);
    Outcome(w.st, PutResponse(key, w.reply.0, w.reply.1), w.events)
  }

  function ExecuteDelete(st: Store, key: string, matchSeq: Option<nat>, now: u64): Outcome<TxnOpResponse> {
    var cond := match matchSeq case Some(n) => Exact(n) case None => GE(1);
    var w := UpsertKv(st, UpsertDelete(key).(cond := cond), now);
    Outcome(w.st, DeleteResponse(key, w.reply.0.Some? && w.reply.1.None?, w.reply.0), w.events)
  }

  /** Delete listed keys one by one; every deletion is published by the upsert and once more here. */
  function DeleteListed(st: Store, keys: seq<string>, now: u64): Outcome<()>
    decreases |keys|
  {
    if keys == [] then Outcome(st, (), [])
    else
      var w := UpsertKv(st, UpsertDelete(keys[0]), now);
      var rest := DeleteListed(w.st, keys[1..], now);
      Outcome(rest.st, (), w.events + PushChange(keys[0], w.reply.0, w.reply.1) + rest.events)
  }

  function ExecuteDeleteByPrefix(st: Store, prefix: string, now: u64): Outcome<TxnOpResponse> {
    var keys := ListKv(st, prefix);
    var d := DeleteListed(st, keys, now);
    Outcome(d.st, DeleteByPrefixResponse(prefix, |keys|), d.events)
  }

  /** The counter a record holds, as JSON; anything else counts as zero. */
  function CounterOf(v: Option<SeqV>): u64 {
    match v
    case Some(rec) => SequentialKeys.ParseJsonU64(rec.data)
    case None => 0
  }

  function ExecuteFetchIncrease(
    st: Store, key: string, matchSeq: Option<nat>, delta: int, floor: u64, now: u64): Outcome<TxnOpResponse>
  {
    var rec := Lookup(st, key);
    var beforeSeq, before := SeqnoOf(rec), CounterOf(rec);
    if matchSeq.Some? && matchSeq.value != beforeSeq
    then Outcome(st, FetchIncreaseU64Response(key, beforeSeq, before, beforeSeq, before), [])
    else
      var after := SaturatingAddSigned(if before < floor then floor else before, delta);
      var w := UpsertKv(st, UpsertUpdate(key, SequentialKeys.FormatJsonU64(after)), now);
      Outcome(w.st, FetchIncreaseU64Response(key, beforeSeq, before, SeqnoOf(w.reply.1), after), w.events)
  }

  function ExecutePutSequential(st: Store, prefix: string, sequenceKey: string, payload: Payload, now: u64)
    : (out: Outcome<TxnOpResponse>)
    ensures out.reply.PutResponse?
  {
    var fetched := ExecuteFetchIncrease(st, sequenceKey, None, 1, 0, now);
    var key := SequentialKeys.BuildKey(prefix, CounterOf(Lookup(st, sequenceKey)));
    var w := UpsertKv(fetched.st,
                      UpsertUpdate(key, payload.data).(valueMeta := Some(payload.ToMetaSpec())), now);
    Outcome(w.st, PutResponse(key, w.reply.0, w.reply.1), fetched.events + w.events)
  }

  function ExecuteOp(st: Store, op: TxnOperation, now: u64): Outcome<TxnOpResponse> {
    match op
    case Get(key) => Outcome(st, GetResponse(key, Lookup(st, key)), [])
    case Put(key, matchSeq, payload) => ExecutePut(st, key, matchSeq, payload, now)
    case DeleteKey(key, matchSeq) => ExecuteDelete(st, key, matchSeq, now)
    case DeleteByPrefix(prefix) => ExecuteDeleteByPrefix(st, prefix, now)
    case FetchIncreaseU64(key, matchSeq, delta, floor) =>
      ExecuteFetchIncrease(st, key, matchSeq, delta, floor, now)
    case PutSequential(prefix, sequenceKey, payload) =>
      ExecutePutSequential(st, prefix, sequenceKey, payload, now)
  }

  function ExecuteOps(st: Store, ops: seq<TxnOperation>, now: u64): Outcome<seq<TxnOpResponse>>
    decreases |ops|
  {
    if ops == [] then Outcome(st, [], [])
    else
      var first := ExecuteOp(st, ops[0], now);
      var rest := ExecuteOps(first.st, ops[1..], now);
      Outcome(rest.st, [first.reply] + rest.reply, first.events + rest.events)
  }

  /** The position of the first branch whose guard holds. */
  function FirstMatch(st: Store, branches: seq<Branch>): (i: Option<nat>)
    ensures i.Some? ==> i.value < |branches|
    decreases |branches|
  {
    if branches == [] then None
    else if EvalPredicate(st, branches[0].guard) then Some(0)
    else match FirstMatch(st, branches[1..]) case Some(i) => Some(i + 1) case None => None
  }

  /** The first branch whose guard holds is executed, and only that one. */
  function ApplyTransaction(st: Store, txn: Transaction, now: u64): Outcome<KvTransactionReply> {
    match FirstMatch(st, txn.branches)
    case Some(i) =>
      var out := ExecuteOps(st, txn.branches[i].operations, now);
      Outcome(out.st, KvTransactionReply(Some(i), out.reply), out.events)
    case None => Outcome(st, KvTransactionReply(None, []), [])
  }

  // ---------------------------------------------------------- log entries

  datatype Cmd =
    | UpsertCmd(u: UpsertKV)
    | TxnCmd(txn: Transaction)
    | SystemCmd  // node and feature commands, which leave the records alone

  /** A log entry; blank and membership entries carry no command and no time. */
  datatype Entry = Command(timeMs: Option<u64>, cmd: Cmd) | Blank | Membership {
    function LogTime(): u64 {
      match this case Command(Some(t), _) => t case _ => 0
    }
  }

  datatype Reply = NoReply | KvChange(prev: Option<SeqV>, result: Option<SeqV>) | KvTxn(reply: KvTransactionReply)

  function DeleteExpired(st: Store, entries: seq<(ExpireKey, string)>, now: u64): Outcome<()>
    decreases |entries|
  {
    if entries == [] then Outcome(st, (), [])
    else
      var w := UpsertKv(st, UpsertDelete(entries[0].1), now);
      var rest := DeleteExpired(w.st, entries[1..], now);
      Outcome(rest.st, (), w.events + rest.events)
  }

  function SetCleanupStart(st: Store, now: u64): Store {
    match st
    case Indexed(s) => Indexed(s.(cleanupStart := now))
    case Reference(_) => st
  }

  /** List what has expired, move the cleanup start, delete what was listed. An entry without a
      time cleans nothing. */
  function CleanExpired(st: Store, now: u64): Outcome<()> {
    if now == 0 then Outcome(st, (), [])
    else DeleteExpired(SetCleanupStart(st, now), ListExpired(st, now), now)
  }

  function ApplyCmd(st: Store, cmd: Cmd, now: u64): Outcome<Reply> {
    match cmd
    case UpsertCmd(u) =>
      var w := UpsertKv(st, u, now);
      Outcome(w.st, KvChange(w.reply.0, w.reply.1), w.events)
    case TxnCmd(txn) =>
      var t := ApplyTransaction(st, txn, now);
      Outcome(t.st, KvTxn(t.reply), t.events)
    case SystemCmd => Outcome(st, NoReply, [])
  }

  function ApplyEntry(st: Store, e: Entry): Outcome<Reply> {
    var now := e.LogTime();
    var c := CleanExpired(st, now);
    var a := match e
      case Command(_, cmd) => ApplyCmd(c.st, cmd, now)
      case Blank => Outcome(c.st, NoReply, [])
      case Membership => Outcome(c.st, NoReply, []);
    Outcome(a.st, a.reply, c.events + a.events)
  }

  /** Apply a log from the left, collecting replies and changes. */
  function ApplyLog(st: Store, log: seq<Entry>): Outcome<seq<Reply>>
    decreases |log|
  {
    if log == [] then Outcome(st, [], [])
    else
      var first := ApplyEntry(st, log[0]);
      var rest := ApplyLog(first.st, log[1..]);
      Outcome(rest.st, [first.reply] + rest.reply, first.events + rest.events)
  }
}
