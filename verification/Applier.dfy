/** The applier as it runs: fields updated in place, step by step, proved against the functions
    of module Machine. */
module Applier {
  import opened KvTypes
  import opened Machine
  import opened Timestamps
  import opened Wrappers

  /** The sequence counter of the state machine. */
  class SysData {
    var sequence: nat

    constructor ()
      ensures sequence == 0
    {
      sequence := 0;
    }

    method NextSeq() returns (n: nat)
      modifies this`sequence
      ensures n == sequence == old(sequence) + 1
    {
      sequence := sequence + 1;
      n := sequence;
    }
  }

  class Applier {
    const sys: SysData
    var userMap: map<string, SeqMarked>
    var expireMap: map<ExpireKey, Option<string>>
    var cleanupStart: u64
    var changes: seq<Event>

    constructor ()
      ensures View() == EMPTY && changes == [] && fresh(sys)
    {
      sys := new SysData();
      userMap, expireMap, cleanupStart, changes := map[], map[], 0, [];
    }

    /** The state as a value. */
    function View(): IndexedStore
      reads this, sys
    {
      IndexedStore(userMap, expireMap, sys.sequence, cleanupStart)
    }

    function Current(): Store
      reads this, sys
    {
      Indexed(View())
    }

    method FetchAndSet(k: string, v: Option<(KvMeta, Bytes)>) returns (prev: SeqMarked, result: SeqMarked)
      modifies this`userMap, sys
      ensures Written(View(), prev, result) == Machine.FetchAndSet(old(View()), k, v)
    {
      prev := if k in userMap then userMap[k] else Tombstone(0);
      match v
      case Some((meta, data)) =>
        var n := sys.NextSeq();
        result := SeqMarked.Normal(SeqV(n, Some(meta), data));
        userMap := userMap[k := result];
      case None =>
        result := prev;
        if k in userMap {
          result := Tombstone(sys.sequence);
          userMap := userMap[k := result];
        }
    }

    method UpsertKvPrimaryIndex(u: UpsertKV, now: u64) returns (prev: SeqMarked, result: SeqMarked)
      modifies this`userMap, sys
      ensures Written(View(), prev, result) == UpsertPrimaryIndex(old(View()), u, now)
    {
      var meta := ResolvedMeta(u, now);
      prev := if u.key in userMap then userMap[u.key] else Tombstone(0);
      result := prev;
      if !u.cond.Matches(prev.Seqno()) {
        return;
      }
      match u.value {
        case Update(data) => prev, result := FetchAndSet(u.key, Some((meta, data)));
        case Delete => prev, result := FetchAndSet(u.key, None);
        case AsIs =>
          if prev.Normal? {
            prev, result := FetchAndSet(u.key, Some((meta, prev.v.data)));
          }
      }
      if meta.ExpiresAtMs() < now {
        var _, r := FetchAndSet(u.key, None);
        result := r;
      }
    }

    method RepairExpireIndex(k: string, removed: SeqMarked, added: SeqMarked)
      modifies this`expireMap
      ensures View() == UpdateExpireIndex(old(View()), k, removed, added)
    {
      if removed == added {
        return;
      }
      match removed.IndexKey() {
        case Some(ek) => expireMap := expireMap[ek := None];
        case None =>
      }
      match added.IndexKey() {
        case Some(ek) => expireMap := expireMap[ek := Some(k)];
        case None =>
      }
    }

    method PushChangeOf(key: string, prev: Option<SeqV>, result: Option<SeqV>)
      modifies this`changes
      ensures changes == old(changes) + PushChange(key, prev, result)
    {
      if prev == result {
        return;
      }
      changes := changes + [Event(key, prev, result)];
    }

    method UpsertBoth(u: UpsertKV, now: u64) returns (prev: Option<SeqV>, result: Option<SeqV>)
      modifies this, sys
      ensures var out := UpsertKv(old(Current()), u, now);
        && Current() == out.st && (prev, result) == out.reply && changes == old(changes) + out.events
    {
      var p, r := UpsertKvPrimaryIndex(u, now);
      RepairExpireIndex(u.key, p, r);
      prev, result := p.ToSeqV(), r.ToSeqV();
      PushChangeOf(u.key, prev, result);
    }

    /** List, move the cleanup start, then delete what was listed one by one. */
    method CleanExpiredKvs(now: u64)
      modifies this, sys
      ensures var out := CleanExpired(old(Current()), now);
        Current() == out.st && changes == old(changes) + out.events
    {
      if now == 0 {
        return;
      }
      var toClean := ListExpired(Current(), now);
      cleanupStart := now;
      ghost var goal := DeleteExpired(Current(), toClean, now);
      ghost var done := [];
      assert toClean[0..] == toClean;
      for i := 0 to |toClean|
        invariant changes == old(changes) + done
        invariant var rest := DeleteExpired(Current(), toClean[i..], now);
          goal.st == rest.st && goal.events == done + rest.events
      {
        ghost var w := UpsertKv(Current(), UpsertDelete(toClean[i].1), now);
        DeleteExpiredStep(Current(), toClean, i, now, done);
        Assoc(old(changes), done, w.events);
        var _, _ := UpsertBoth(UpsertDelete(toClean[i].1), now);
        done := done + w.events;
      }
    }

    /** Children are tried in order until one decides. */
    method EvalGuard(p: Predicate) returns (b: bool)
      ensures b == EvalPredicate(Current(), p)
      decreases p
    {
      match p
      case Leaf(c) => b := EvalCondition(Current(), c);
      case And(children) =>
        var i := 0;
        while i < |children|
          invariant 0 <= i <= |children|
          invariant forall q :: q in children[..i] ==> EvalPredicate(Current(), q)
        {
          var c := EvalGuard(children[i]);
          if !c {
            assert children[i] in children;
            return false;
          }
          assert children[..i + 1] == children[..i] + [children[i]];
          i := i + 1;
        }
        assert children[..i] == children;
        b := true;
      case Or(children) =>
        var i := 0;
        while i < |children|
          invariant 0 <= i <= |children|
          invariant forall q :: q in children[..i] ==> !EvalPredicate(Current(), q)
        {
          var c := EvalGuard(children[i]);
          if c {
            assert children[i] in children;
            return true;
          }
          assert children[..i + 1] == children[..i] + [children[i]];
          i := i + 1;
        }
        assert children[..i] == children;
        b := |children| == 0;
    }

    /** Delete one listed key; the deletion is published by the upsert and once more here. */
    method DeleteOneListed(key: string, now: u64)
      modifies this, sys
      ensures var w := UpsertKv(old(Current()), UpsertDelete(key), now);
        Current() == w.st && changes == old(changes) + (w.events + PushChange(key, w.reply.0, w.reply.1))
    {
      ghost var w := UpsertKv(Current(), UpsertDelete(key), now);
      var prev, result := UpsertBoth(UpsertDelete(key), now);
      PushChangeOf(key, prev, result);
      Assoc(old(changes), w.events, PushChange(key, prev, result));
    }

    method DeleteKeys(keys: seq<string>, now: u64) returns (count: nat)
      modifies this, sys
      ensures var out := DeleteListed(old(Current()), keys, now);
        Current() == out.st && changes == old(changes) + out.events
      ensures count == |keys|
    {
      ghost var st := Current();
      ghost var goal := DeleteListed(st, keys, now);
      ghost var done := [];
      count := 0;
      assert keys[0..] == keys;
      while count < |keys|
        invariant 0 <= count <= |keys| && st == Current() && changes == old(changes) + done
        invariant var rest := DeleteListed(st, keys[count..], now);
          goal.st == rest.st && goal.events == done + rest.events
      {
        ghost var w := UpsertKv(st, UpsertDelete(keys[count]), now);
        ghost var pushed := w.events + PushChange(keys[count], w.reply.0, w.reply.1);
        DeleteListedStep(st, keys, count, now, done);
        Assoc(old(changes), done, pushed);
        DeleteOneListed(keys[count], now);
        st, done, count := w.st, done + pushed, count + 1;
      }
    }

    method DeletePrefix(prefix: string, now: u64) returns (resp: TxnOpResponse)
      modifies this, sys
      ensures var out := ExecuteOp(old(Current()), DeleteByPrefix(prefix), now);
        Current() == out.st && resp == out.reply && changes == old(changes) + out.events
    {
      var count := DeleteKeys(ListKv(Current(), prefix), now);
      resp := DeleteByPrefixResponse(prefix, count);
    }

    method FetchIncrease(key: string, matchSeq: Option<nat>, delta: int, floor: u64, now: u64)
      returns (resp: TxnOpResponse)
      modifies this, sys
      ensures var out := ExecuteFetchIncrease(old(Current()), key, matchSeq, delta, floor, now);
        Current() == out.st && resp == out.reply && changes == old(changes) + out.events
    {
      var rec := Lookup(Current(), key);
      var beforeSeq, before := SeqnoOf(rec), CounterOf(rec);
      if matchSeq.Some? && matchSeq.value != beforeSeq {
        return FetchIncreaseU64Response(key, beforeSeq, before, beforeSeq, before);
      }
      var after := SaturatingAddSigned(if before < floor then floor else before, delta);
      var _, result := UpsertBoth(UpsertUpdate(key, SequentialKeys.FormatJsonU64(after)), now);
      resp := FetchIncreaseU64Response(key, beforeSeq, before, SeqnoOf(result), after);
    }

    method Put(key: string, matchSeq: Option<nat>, payload: Payload, now: u64) returns (resp: TxnOpResponse)
      modifies this, sys
      ensures var out := ExecuteOp(old(Current()), TxnOperation.Put(key, matchSeq, payload), now);
        Current() == out.st && resp == out.reply && changes == old(changes) + out.events
    {
      var u := UpsertUpdate(key, payload.data).(valueMeta := Some(payload.ToMetaSpec()));
      if matchSeq.Some? {
        u := u.(cond := Exact(matchSeq.value));
      }
      var prev, result := UpsertBoth(u, now);
      resp := PutResponse(key, prev, result);
    }

    method DeleteRecord(key: string, matchSeq: Option<nat>, now: u64) returns (resp: TxnOpResponse)
      modifies this, sys
      ensures var out := ExecuteOp(old(Current()), DeleteKey(key, matchSeq), now);
        Current() == out.st && resp == out.reply && changes == old(changes) + out.events
    {
      var u := UpsertDelete(key);
      if matchSeq.Some? {
        u := u.(cond := Exact(matchSeq.value));
      }
      var prev, result := UpsertBoth(u, now);
      resp := DeleteResponse(key, prev.Some? && result.None?, prev);
    }

    /** Take the next number of the sequence, then write under the key it gives. */
    method PutInSequence(prefix: string, sequenceKey: string, payload: Payload, now: u64)
      returns (resp: TxnOpResponse)
      modifies this, sys
      ensures var out := ExecuteOp(old(Current()), PutSequential(prefix, sequenceKey, payload), now);
        Current() == out.st && resp == out.reply && changes == old(changes) + out.events
    {
      assert ExecuteOp(Current(), PutSequential(prefix, sequenceKey, payload), now)
          == ExecutePutSequential(Current(), prefix, sequenceKey, payload, now);
      var fetched := FetchIncrease(sequenceKey, None, 1, 0, now);
      var key := SequentialKeys.BuildKey(prefix, fetched.before);
      var prev, result := UpsertBoth(
        UpsertUpdate(key, payload.data).(valueMeta := Some(payload.ToMetaSpec())), now);
      resp := PutResponse(key, prev, result);
    }

    method Execute(op: TxnOperation, now: u64) returns (resp: TxnOpResponse)
      modifies this, sys
      ensures var out := ExecuteOp(old(Current()), op, now);
        Current() == out.st && resp == out.reply && changes == old(changes) + out.events
    {
      match op
      case Get(key) => resp := GetResponse(key, Lookup(Current(), key));
      case Put(key, matchSeq, payload) => resp := Put(key, matchSeq, payload, now);
      case DeleteKey(key, matchSeq) => resp := DeleteRecord(key, matchSeq, now);
      case DeleteByPrefix(prefix) => resp := DeletePrefix(prefix, now);
      case FetchIncreaseU64(key, matchSeq, delta, floor) =>
        resp := FetchIncrease(key, matchSeq, delta, floor, now);
      case PutSequential(prefix, sequenceKey, payload) =>
        resp := PutInSequence(prefix, sequenceKey, payload, now);
    }

    method ExecuteAll(ops: seq<TxnOperation>, now: u64) returns (responses: seq<TxnOpResponse>)
      modifies this, sys
      ensures var out := ExecuteOps(old(Current()), ops, now);
        Current() == out.st && responses == out.reply && changes == old(changes) + out.events
    {
      responses := [];
      ghost var goal := ExecuteOps(Current(), ops, now);
      ghost var done := [];
      assert ops[0..] == ops;
      for i := 0 to |ops|
        invariant changes == old(changes) + done
        invariant var rest := ExecuteOps(Current(), ops[i..], now);
          goal.st == rest.st && goal.reply == responses + rest.reply && goal.events == done + rest.events
      {
        ExecuteOpsStep(Current(), ops, i, now, responses, done);
        ghost var w := ExecuteOp(Current(), ops[i], now);
        var r := Execute(ops[i], now);
        Assoc(old(changes), done, w.events);
        responses, done := responses + [r], done + w.events;
      }
    }

    /** Guards are tried in order; the first that holds has its operations executed. */
    method ApplyKvTransaction(txn: Transaction, now: u64) returns (reply: KvTransactionReply)
      modifies this, sys
      ensures var out := ApplyTransaction(old(Current()), txn, now);
        Current() == out.st && reply == out.reply && changes == old(changes) + out.events
    {
      ghost var st := Current();
      assert txn.branches[0..] == txn.branches;
      for i := 0 to |txn.branches|
        invariant Current() == st && changes == old(changes)
        invariant FirstMatch(st, txn.branches) == Shifted(FirstMatch(st, txn.branches[i..]), i)
      {
        FirstMatchStep(st, txn.branches, i);
        var matched := EvalGuard(txn.branches[i].guard);
        if matched {
          var responses := ExecuteAll(txn.branches[i].operations, now);
          return KvTransactionReply(Some(i), responses);
        }
      }
      assert FirstMatch(st, txn.branches) == None;
      reply := KvTransactionReply(None, []);
    }

    method ApplyCommand(cmd: Cmd, now: u64) returns (reply: Reply)
      modifies this, sys
      ensures var out := ApplyCmd(old(Current()), cmd, now);
        Current() == out.st && reply == out.reply && changes == old(changes) + out.events
    {
      match cmd
      case UpsertCmd(u) =>
        var prev, result := UpsertBoth(u, now);
        reply := KvChange(prev, result);
      case TxnCmd(txn) =>
        var r := ApplyKvTransaction(txn, now);
        reply := KvTxn(r);
      case SystemCmd =>
        reply := NoReply;
    }

    /** Apply one log entry and publish the changes it made. */
    method Apply(e: Entry) returns (reply: Reply, published: seq<Event>)
      requires changes == []
      modifies this, sys
      ensures ApplyEntry(old(Current()), e) == Outcome(Current(), reply, published)
      ensures changes == []
    {
      var now := e.LogTime();
      ghost var cleaned := CleanExpired(Current(), now);
      CleanExpiredKvs(now);
      assert changes == cleaned.events;
      if e.Command? {
        ghost var done := ApplyCmd(cleaned.st, e.cmd, now);
        reply := ApplyCommand(e.cmd, now);
        assert changes == cleaned.events + done.events;
      } else {
        reply := NoReply;
        assert changes == cleaned.events + [];
      }
      published := changes;
      changes := [];
    }
  }

  // One turn of each loop, as one unfolding of the function it computes.

  lemma {:induction false} DeleteExpiredStep(
    st: Store, entries: seq<(ExpireKey, string)>, i: nat, now: u64, done: seq<Event>)
    requires i < |entries|
    ensures var w := UpsertKv(st, UpsertDelete(entries[i].1), now);
      var here, next := DeleteExpired(st, entries[i..], now), DeleteExpired(w.st, entries[i + 1..], now);
      here.st == next.st && done + here.events == done + w.events + next.events
  {
    assert entries[i..][1..] == entries[i + 1..];
  }

  function Shifted(i: Option<nat>, d: nat): Option<nat> {
    match i case Some(j) => Some(j + d) case None => None
  }

  lemma {:induction false} FirstMatchStep(st: Store, branches: seq<Branch>, i: nat)
    requires i < |branches|
    ensures Shifted(FirstMatch(st, branches[i..]), i)
            == if EvalPredicate(st, branches[i].guard) then Some(i)
               else Shifted(FirstMatch(st, branches[i + 1..]), i + 1)
  {
    assert branches[i..][1..] == branches[i + 1..];
  }

  lemma {:induction false} DeleteListedStep(st: Store, keys: seq<string>, i: nat, now: u64, done: seq<Event>)
    requires i < |keys|
    ensures var w := UpsertKv(st, UpsertDelete(keys[i]), now);
      var here, next := DeleteListed(st, keys[i..], now), DeleteListed(w.st, keys[i + 1..], now);
      && here.st == next.st
      && done + here.events == done + (w.events + PushChange(keys[i], w.reply.0, w.reply.1)) + next.events
  {
    assert keys[i..][1..] == keys[i + 1..];
  }

  lemma {:induction false} ExecuteOpsStep(
    st: Store, ops: seq<TxnOperation>, i: nat, now: u64, responses: seq<TxnOpResponse>, done: seq<Event>)
    requires i < |ops|
    ensures var w := ExecuteOp(st, ops[i], now);
      var here, next := ExecuteOps(st, ops[i..], now), ExecuteOps(w.st, ops[i + 1..], now);
      && here.st == next.st
      && responses + here.reply == responses + [w.reply] + next.reply
      && done + here.events == done + w.events + next.events
  {
    assert ops[i..][1..] == ops[i + 1..];
    var w := ExecuteOp(st, ops[i], now);
    var next := ExecuteOps(w.st, ops[i + 1..], now);
    assert ExecuteOps(st, ops[i..], now) == Outcome(next.st, [w.reply] + next.reply, w.events + next.events);
    Assoc(responses, [w.reply], next.reply);
    Assoc(done, w.events, next.events);
  }

  lemma Assoc<T>(a: seq<T>, b: seq<T>, c: seq<T>)
    ensures a + (b + c) == a + b + c
  {
  }
}
