/** Requests as clients send them, compiled to transactions of the state machine and back. */
module Transactions {
  import opened BooleanExpressions
  import opened KvTypes
  import opened Machine
  import opened Positional
  import opened SequentialKeys
  import opened Timestamps
  import opened Wrappers

  // ------------------------------------------------------------ requests

  datatype Request =
    | GetRequest(key: string)
    | PutRequest(key: string, data: Bytes, prevValue: bool,
                 expireAt: Option<u64>, ttlMs: Option<u64>, matchSeq: Option<nat>)
    | DeleteRequest(key: string, prevValue: bool, matchSeq: Option<nat>)
    | DeleteByPrefixRequest(prefix: string)
    | FetchIncreaseRequest(key: string, matchSeq: Option<nat>, delta: int, maxValue: u64)
    | PutSequentialRequest(prefix: string, sequenceKey: string, data: Bytes,
                           expiresAtMs: Option<u64>, ttlMs: Option<u64>)

  datatype TxnOp = TxnOp(request: Option<Request>)

  datatype ConditionalOperation = ConditionalOperation(guard: Option<BooleanExpression>, operations: seq<TxnOp>)

  /** The older request form: guarded operations, then one if-then, then an optional else. */
  datatype TxnRequest = TxnRequest(
    operations: seq<ConditionalOperation>,
    condition: seq<TxnCondition>,
    ifThen: seq<TxnOp>,
    elseThen: seq<TxnOp>)

  datatype TxnReply = TxnReply(success: bool, responses: seq<TxnOpResponse>, executionPath: string)

  /** An operation without request reads the empty key. */
  function OperationFrom(op: TxnOp): TxnOperation {
    match op.request
    case Some(GetRequest(key)) => Get(key)
    case Some(PutRequest(key, data, _, expireAt, ttlMs, matchSeq)) => Put(key, matchSeq, Payload(data, expireAt, ttlMs))
    case Some(DeleteRequest(key, _, matchSeq)) => DeleteKey(key, matchSeq)
    case Some(DeleteByPrefixRequest(prefix)) => DeleteByPrefix(prefix)
    case Some(FetchIncreaseRequest(key, matchSeq, delta, maxValue)) => FetchIncreaseU64(key, matchSeq, delta, maxValue)
    case Some(PutSequentialRequest(prefix, sequenceKey, data, expiresAtMs, ttlMs)) =>
      PutSequential(prefix, sequenceKey, Payload(data, expiresAtMs, ttlMs))
    case None => Get("")
  }

  /** The request an operation is sent as. */
  function OperationTo(op: TxnOperation): TxnOp {
    TxnOp(Some(match op
               case Get(key) => GetRequest(key)
               case Put(key, matchSeq, p) => PutRequest(key, p.data, true, p.expireAtMs, p.ttlMs, matchSeq)
               case DeleteKey(key, matchSeq) => DeleteRequest(key, true, matchSeq)
               case DeleteByPrefix(prefix) => DeleteByPrefixRequest(prefix)
               case FetchIncreaseU64(key, matchSeq, delta, floor) => FetchIncreaseRequest(key, matchSeq, delta, floor)
               case PutSequential(prefix, sequenceKey, p) =>
                 PutSequentialRequest(prefix, sequenceKey, p.data, p.expireAtMs, p.ttlMs)))
  }

  /** An operation sent as a request is read back; a request is sent again as it was, except for the
      wish to see the previous value, which is always expressed; without a request the empty key is read. */
  lemma OperationRoundTrip(op: TxnOperation, req: TxnOp)
    ensures OperationFrom(OperationTo(op)) == op
    ensures req.request.None? ==> OperationFrom(req) == Get("")
    ensures req.request.Some? ==>
      OperationTo(OperationFrom(req)).request.value ==
        match req.request.value
        case PutRequest(key, data, _, expireAt, ttlMs, matchSeq) =>
          PutRequest(key, data, true, expireAt, ttlMs, matchSeq)
        case DeleteRequest(key, _, matchSeq) => DeleteRequest(key, true, matchSeq)
        case other => other
  {
  }

  function OperationsFrom(ops: seq<TxnOp>): seq<TxnOperation> {
    seq(|ops|, i requires 0 <= i < |ops| => OperationFrom(ops[i]))
  }

  function BranchFrom(co: ConditionalOperation): Branch {
    Branch(match co.guard case Some(e) => PredicateFrom(e) case None => And([]), OperationsFrom(co.operations))
  }

  function BranchesFrom(cos: seq<ConditionalOperation>): (bs: seq<Branch>)
    ensures |bs| == |cos| && forall i :: 0 <= i < |cos| ==> bs[i] == BranchFrom(cos[i])
  {
    seq(|cos|, i requires 0 <= i < |cos| => BranchFrom(cos[i]))
  }

  /** The branches after the guarded operations. */
  function IfThenElseBranches(req: TxnRequest): seq<Branch> {
    [Branch(And(Leaves(req.condition)), OperationsFrom(req.ifThen))]
    + if req.elseThen == [] then [] else [Branch(And([]), OperationsFrom(req.elseThen))]
  }

  /** The flat branch list of an older request. */
  function TransactionFrom(req: TxnRequest): Transaction {
    Transaction(BranchesFrom(req.operations) + IfThenElseBranches(req))
  }

  // -------------------------------------------------------------- replies

  function DecimalString(n: nat): string {
    var d := Decimal(n);
    seq(|d|, i requires 0 <= i < |d| => DigitChar(d[i]))
  }

  function OperationPath(i: nat): string { "operation:" + DecimalString(i) }

  /** The older reply, from the position of the branch that was executed. */
  function IntoTxnReply(r: KvTransactionReply, req: TxnRequest): TxnReply {
    var n := |req.operations|;
    match r.executedBranch
    case None => TxnReply(false, r.responses, "else")
    case Some(i) =>
      if i < n then TxnReply(true, r.responses, OperationPath(i))
      else if i == n then TxnReply(true, r.responses, "then")
      else TxnReply(false, r.responses, "else")
  }

  /** `executed_branch_index`: the number after "operation:", if the path has that form. */
  function ExecutedBranchIndex(path: string): Result<Option<nat>, string> {
    if "operation:" <= path then
      var tail := path[10..];
      var digits := if "+" <= tail then tail[1..] else tail;
      if && digits != "" && (forall i :: 0 <= i < |digits| ==> IsDigit(digits[i] as int))
         && ParseSeqNumber(digits) <= U64_MAX
      then Ok(Some(ParseSeqNumber(digits))) else Err(path)
    else Ok(None)
  }

  lemma {:induction false} UngroupDigits(d: seq<nat>, s: string)
    requires |s| == |d| && forall i :: 0 <= i < |d| ==> d[i] < 10 && s[i] == DigitChar(d[i])
    ensures Ungrouped(s) == d
  {
    if d != [] { UngroupDigits(d[1..], s[1..]); }
  }

  lemma DecimalStringParses(n: nat)
    ensures var s := DecimalString(n);
      && s != "" && (forall j :: 0 <= j < |s| ==> IsDigit(s[j] as int)) && !("+" <= s)
      && ParseSeqNumber(s) == n
  {
    var s := DecimalString(n);
    assert s[0] == DigitChar(Decimal(n)[0]);
    UngroupDigits(Decimal(n), s);
    ValueOfDecimal(n);
  }

  /** The path of an operation branch names it, with or without a plus sign, and is malformed without
      a number; the other two paths name none. */
  lemma BranchIndexRoundTrip(i: u64)
    ensures ExecutedBranchIndex(OperationPath(i)) == Ok(Some(i))
    ensures ExecutedBranchIndex("operation:+" + DecimalString(i)) == Ok(Some(i))
    ensures ExecutedBranchIndex("operation:").Err? && ExecutedBranchIndex("operation:+").Err?
    ensures ExecutedBranchIndex("then") == Ok(None) && ExecutedBranchIndex("else") == Ok(None)
  {
    DecimalStringParses(i);
    assert ("operation:+" + DecimalString(i))[10..] == "+" + DecimalString(i);
    assert ("+" + DecimalString(i))[1..] == DecimalString(i);
    assert "operation:"[10..] == "" && "operation:+"[10..] == "+" && "+"[1..] == "";
    assert "operation:" <= "operation:+" && "operation:" <= "operation:+" + DecimalString(i);
    assert OperationPath(i)[10..] == DecimalString(i);
    assert "operation:" <= OperationPath(i);
    assert "then"[0] != "operation:"[0] && "else"[0] != "operation:"[0];
  }

  // ------------------------------------------------- staged semantics

  predicate GuardHolds(st: Store, guard: Option<BooleanExpression>) {
    guard.None? || Holds(guard.value, Truth(st))
  }

  /** The first guarded operation whose guard holds, from position `i` on. */
  function FirstOperation(st: Store, cos: seq<ConditionalOperation>, i: nat): (r: Option<nat>)
    requires i <= |cos|
    ensures r.Some? ==> i <= r.value < |cos|
    decreases |cos| - i
  {
    if i == |cos| then None else if GuardHolds(st, cos[i].guard) then Some(i) else FirstOperation(st, cos, i + 1)
  }

  /** What an older request means: guarded operations in order; failing those, the if-then when
      all its conditions hold, otherwise the else part, which may be empty. */
  function Staged(st: Store, req: TxnRequest, now: u64): Outcome<TxnReply> {
    match FirstOperation(st, req.operations, 0)
    case Some(i) =>
      var out := ExecuteOps(st, OperationsFrom(req.operations[i].operations), now);
      Outcome(out.st, TxnReply(true, out.reply, OperationPath(i)), out.events)
    case None =>
      if AllMet(req.condition, Truth(st)) then
        var out := ExecuteOps(st, OperationsFrom(req.ifThen), now);
        Outcome(out.st, TxnReply(true, out.reply, "then"), out.events)
      else
        var out := ExecuteOps(st, OperationsFrom(req.elseThen), now);
        Outcome(out.st, TxnReply(false, out.reply, "else"), out.events)
  }

  lemma BranchGuard(st: Store, co: ConditionalOperation)
    ensures EvalPredicate(st, BranchFrom(co).guard) == GuardHolds(st, co.guard)
  {
    if co.guard.Some? { PredicateFromMeaning(co.guard.value, Truth(st)); }
  }

  lemma {:induction false} FirstMatchFrom(st: Store, bs: seq<Branch>, i: nat)
    requires i < |bs|
    ensures FirstMatch(st, bs[i..]) ==
      if EvalPredicate(st, bs[i].guard) then Some(0)
      else match FirstMatch(st, bs[i + 1..]) case Some(j) => Some(j + 1) case None => None
  {
    assert bs[i..][0] == bs[i] && bs[i..][1..] == bs[i + 1..];
  }

  lemma {:induction false} BranchStep(st: Store, req: TxnRequest, i: nat)
    requires i < |req.operations|
    ensures var bs := TransactionFrom(req).branches;
      FirstMatch(st, bs[i..]) ==
      if GuardHolds(st, req.operations[i].guard) then Some(0)
      else match FirstMatch(st, bs[i + 1..]) case Some(j) => Some(j + 1) case None => None
  {
    var bs := TransactionFrom(req).branches;
    BranchGuard(st, req.operations[i]);
    FirstMatchFrom(st, bs, i);
    assert bs[i] == BranchFrom(req.operations[i]);
  }

  /** The branch chosen, counted from branch `i` on: the first operation whose guard holds, then the
      if-then, then the else. */
  function FirstBranch(st: Store, req: TxnRequest, i: nat): Option<nat>
    requires i <= |req.operations|
  {
    match FirstOperation(st, req.operations, i)
    case Some(j) => Some(j - i)
    case None =>
      if AllMet(req.condition, Truth(st)) then Some(|req.operations| - i)
      else if req.elseThen != [] then Some(|req.operations| - i + 1) else None
  }

  lemma {:induction false} NextBranch(st: Store, req: TxnRequest, i: nat)
    requires i < |req.operations|
    ensures FirstBranch(st, req, i) ==
      if GuardHolds(st, req.operations[i].guard) then Some(0)
      else match FirstBranch(st, req, i + 1) case Some(j) => Some(j + 1) case None => None
  {
  }

  lemma {:induction false} FirstMatchOfBranches(st: Store, req: TxnRequest, i: nat)
    requires i <= |req.operations|
    ensures FirstMatch(st, TransactionFrom(req).branches[i..]) == FirstBranch(st, req, i)
    decreases |req.operations| - i
  {
    if i < |req.operations| {
      FirstMatchOfBranches(st, req, i + 1);
      BranchStep(st, req, i);
      NextBranch(st, req, i);
    } else {
      LastBranches(st, req);
    }
  }

  lemma {:induction false} LastBranches(st: Store, req: TxnRequest)
    ensures FirstMatch(st, TransactionFrom(req).branches[|req.operations|..])
            == if AllMet(req.condition, Truth(st)) then Some(0) else if req.elseThen != [] then Some(1) else None
  {
    IfThenElse(st, req);
    assert TransactionFrom(req).branches[|req.operations|..] == IfThenElseBranches(req);
  }

  lemma {:induction false} IfThenElse(st: Store, req: TxnRequest)
    ensures FirstMatch(st, IfThenElseBranches(req))
            == if AllMet(req.condition, Truth(st)) then Some(0) else if req.elseThen != [] then Some(1) else None
  {
    LeavesMeaning(req.condition, Truth(st));
    var bs := IfThenElseBranches(req);
    assert EvalPredicate(st, bs[0].guard) == AllTrue(Leaves(req.condition), Truth(st));
    if req.elseThen == [] {
      assert bs[1..] == [];
    } else {
      assert bs[1..][0].guard == And([]);
    }
  }

  /** Executing the flat branch list and converting the reply gives exactly what the staged
      request means: store, success flag, path, responses and published changes. */
  lemma FlatEqualsStaged(st: Store, req: TxnRequest, now: u64)
    ensures var flat := ApplyTransaction(st, TransactionFrom(req), now);
      Outcome(flat.st, IntoTxnReply(flat.reply, req), flat.events) == Staged(st, req, now)
  {
    var bs, n := TransactionFrom(req).branches, |req.operations|;
    FirstMatchOfBranches(st, req, 0);
    assert bs[0..] == bs;
    match FirstOperation(st, req.operations, 0) {
      case Some(i) => assert bs[i] == BranchFrom(req.operations[i]);
      case None =>
        assert bs[n] == Branch(And(Leaves(req.condition)), OperationsFrom(req.ifThen));
        if req.elseThen == [] {
          assert OperationsFrom([]) == [];
        } else {
          assert bs[n + 1] == Branch(And([]), OperationsFrom(req.elseThen));
        }
    }
  }
}
