/** The condition trees that clients build, and the predicates the state machine evaluates. */
module BooleanExpressions {
  import opened KvTypes
  import opened Machine
  import opened Wrappers

  /** A condition as sent: the comparison is a number, the operand may be missing. */
  datatype TxnCondition = TxnCondition(key: string, expected: int, target: Option<Operand>)

  const OP_AND: int := 0
  const OP_OR: int := 1

  /** `operator` is a number on the wire; anything but OR is read as AND. */
  datatype BooleanExpression = BooleanExpression(
    operator: int, subExpressions: seq<BooleanExpression>, conditions: seq<TxnCondition>)

  function CompareFrom(expected: int): CompareOperator {
    match expected
    case 1 => Gt
    case 2 => Ge
    case 3 => Lt
    case 4 => Le
    case 5 => Ne
    case _ => Eq
  }

  /** A condition without operand becomes one that never holds: a sequence number below zero. */
  function ConditionFrom(c: TxnCondition): Condition {
    match c.target
    case Some(t) => Condition(c.key, t, CompareFrom(c.expected))
    case None => Condition(c.key, SeqTarget(0), Lt)
  }

  /** Sub-expressions first, then conditions; a single child stands for itself. */
  function PredicateFrom(e: BooleanExpression): Predicate {
    Node(e.operator, PredicatesFrom(e.subExpressions) + Leaves(e.conditions))
  }

  function Node(operator: int, children: seq<Predicate>): Predicate {
    if |children| == 1 then children[0] else if operator == OP_OR then Or(children) else And(children)
  }

  function PredicatesFrom(es: seq<BooleanExpression>): (ps: seq<Predicate>)
    ensures |ps| == |es|
  {
    if es == [] then [] else [PredicateFrom(es[0])] + PredicatesFrom(es[1..])
  }

  function Leaves(cs: seq<TxnCondition>): (ps: seq<Predicate>)
    ensures |ps| == |cs| && forall i :: 0 <= i < |cs| ==> ps[i] == Leaf(ConditionFrom(cs[i]))
  {
    seq(|cs|, i requires 0 <= i < |cs| => Leaf(ConditionFrom(cs[i])))
  }

  // ----------------------------------------------------------- meaning

  predicate SomeTrue(ps: seq<Predicate>, truth: Condition -> bool) { exists q :: q in ps && Eval(q, truth) }

  predicate AllTrue(ps: seq<Predicate>, truth: Condition -> bool) { forall q :: q in ps ==> Eval(q, truth) }

  predicate SomeMet(cs: seq<TxnCondition>, truth: Condition -> bool) {
    exists c :: c in cs && truth(ConditionFrom(c))
  }

  predicate AllMet(cs: seq<TxnCondition>, truth: Condition -> bool) {
    forall c :: c in cs ==> truth(ConditionFrom(c))
  }

  /** What an expression says: all, or at least one, of its parts hold; without parts it holds. */
  predicate Holds(e: BooleanExpression, truth: Condition -> bool)
    decreases e, 1
  {
    if e.operator == 1
    then IsEmpty(e) || SomeHolds(e.subExpressions, truth) || SomeMet(e.conditions, truth)
    else AllHold(e.subExpressions, truth) && AllMet(e.conditions, truth)
  }

  predicate SomeHolds(es: seq<BooleanExpression>, truth: Condition -> bool)
    decreases es, 0
  {
    es != [] && (Holds(es[0], truth) || SomeHolds(es[1..], truth))
  }

  predicate AllHold(es: seq<BooleanExpression>, truth: Condition -> bool)
    decreases es, 0
  {
    es == [] || (Holds(es[0], truth) && AllHold(es[1..], truth))
  }

  predicate IsEmpty(e: BooleanExpression) { e.subExpressions == [] && e.conditions == [] }

  lemma ConcatTrue(a: seq<Predicate>, b: seq<Predicate>, truth: Condition -> bool)
    ensures SomeTrue(a + b, truth) == (SomeTrue(a, truth) || SomeTrue(b, truth))
    ensures AllTrue(a + b, truth) == (AllTrue(a, truth) && AllTrue(b, truth))
  {
    assert forall q :: q in a + b <==> q in a || q in b;
  }

  lemma {:induction false} SingleTrue(p: Predicate, truth: Condition -> bool)
    ensures SomeTrue([p], truth) == AllTrue([p], truth) == Eval(p, truth)
  {
    assert p in [p];
  }

  /** Converting an expression to a predicate keeps its meaning, single children included. */
  lemma {:induction false} PredicateFromMeaning(e: BooleanExpression, truth: Condition -> bool)
    ensures Eval(PredicateFrom(e), truth) == Holds(e, truth)
    decreases e, 1
  {
    var subs, leaves := PredicatesFrom(e.subExpressions), Leaves(e.conditions);
    PredicatesFromMeaning(e.subExpressions, truth);
    LeavesMeaning(e.conditions, truth);
    ConcatTrue(subs, leaves, truth);
    NodeMeaning(e.operator, subs + leaves, truth);
  }

  lemma NodeMeaning(operator: int, children: seq<Predicate>, truth: Condition -> bool)
    ensures Eval(Node(operator, children), truth)
            == if operator == OP_OR then children == [] || SomeTrue(children, truth) else AllTrue(children, truth)
  {
    if |children| == 1 {
      SingleTrue(children[0], truth);
      assert children == [children[0]];
    }
  }

  lemma {:induction false} PredicatesFromMeaning(es: seq<BooleanExpression>, truth: Condition -> bool)
    ensures SomeTrue(PredicatesFrom(es), truth) == SomeHolds(es, truth)
    ensures AllTrue(PredicatesFrom(es), truth) == AllHold(es, truth)
    decreases es, 0
  {
    if es != [] {
      PredicateFromMeaning(es[0], truth);
      PredicatesFromMeaning(es[1..], truth);
      SingleTrue(PredicateFrom(es[0]), truth);
      ConcatTrue([PredicateFrom(es[0])], PredicatesFrom(es[1..]), truth);
    }
  }

  lemma LeavesMeaning(cs: seq<TxnCondition>, truth: Condition -> bool)
    ensures SomeTrue(Leaves(cs), truth) == SomeMet(cs, truth)
    ensures AllTrue(Leaves(cs), truth) == AllMet(cs, truth)
  {
    forall c | c in cs ensures Leaf(ConditionFrom(c)) in Leaves(cs) {
      var i :| 0 <= i < |cs| && cs[i] == c;
      assert Leaves(cs)[i] == Leaf(ConditionFrom(c));
    }
    forall q | q in Leaves(cs) ensures exists c :: c in cs && q == Leaf(ConditionFrom(c)) {
      var i :| 0 <= i < |cs| && Leaves(cs)[i] == q;
      assert cs[i] in cs;
    }
  }

  // --------------------------------------------------- back to expressions

  function CompareTo(op: CompareOperator): int {
    match op
    case Eq => 0
    case Gt => 1
    case Ge => 2
    case Lt => 3
    case Le => 4
    case Ne => 5
  }

  function ConditionTo(c: Condition): TxnCondition { TxnCondition(c.key, CompareTo(c.op), Some(c.target)) }

  /** Leaves become conditions, everything else sub-expressions. */
  function ExpressionFrom(p: Predicate): BooleanExpression {
    match p
    case And(children) => BooleanExpression(OP_AND, SubExpressions(children), LeafConditions(children))
    case Or(children) => BooleanExpression(OP_OR, SubExpressions(children), LeafConditions(children))
    case Leaf(c) => BooleanExpression(OP_AND, [], [ConditionTo(c)])
  }

  function SubExpressions(ps: seq<Predicate>): seq<BooleanExpression> {
    if ps == [] then []
    else (if ps[0].Leaf? then [] else [ExpressionFrom(ps[0])]) + SubExpressions(ps[1..])
  }

  function LeafConditions(ps: seq<Predicate>): seq<TxnCondition> {
    if ps == [] then []
    else (if ps[0].Leaf? then [ConditionTo(ps[0].cond)] else []) + LeafConditions(ps[1..])
  }

  /** A predicate sent out as an expression and read back means the same, although its children
      come back regrouped. */
  lemma {:induction false} ExpressionRoundTrip(p: Predicate, truth: Condition -> bool)
    ensures Eval(PredicateFrom(ExpressionFrom(p)), truth) == Eval(p, truth)
  {
    ExpressionFromMeaning(p, truth);
    PredicateFromMeaning(ExpressionFrom(p), truth);
  }

  lemma {:induction false} ExpressionFromMeaning(p: Predicate, truth: Condition -> bool)
    ensures Holds(ExpressionFrom(p), truth) == Eval(p, truth)
    decreases p, 1
  {
    match p
    case Leaf(c) =>
      assert ConditionFrom(ConditionTo(c)) == c;
    case And(children) => ChildrenMeaning(children, truth);
    case Or(children) => ChildrenMeaning(children, truth);
  }

  lemma {:induction false} ChildrenMeaning(ps: seq<Predicate>, truth: Condition -> bool)
    ensures SomeTrue(ps, truth)
            == (SomeHolds(SubExpressions(ps), truth) || SomeMet(LeafConditions(ps), truth))
    ensures AllTrue(ps, truth) == (AllHold(SubExpressions(ps), truth) && AllMet(LeafConditions(ps), truth))
    ensures ps == [] <==> SubExpressions(ps) == [] && LeafConditions(ps) == []
    decreases ps, 0
  {
    if ps != [] {
      ChildrenMeaning(ps[1..], truth);
      assert ps == [ps[0]] + ps[1..];
      ConcatTrue([ps[0]], ps[1..], truth);
      SingleTrue(ps[0], truth);
      if ps[0].Leaf? {
        FirstLeaf(ps, truth);
      } else {
        ExpressionFromMeaning(ps[0], truth);
        FirstSubExpression(ps, truth);
      }
    }
  }

  lemma {:induction false} FirstLeaf(ps: seq<Predicate>, truth: Condition -> bool)
    requires ps != [] && ps[0].Leaf?
    ensures SubExpressions(ps) == SubExpressions(ps[1..]) && LeafConditions(ps) != []
    ensures SomeMet(LeafConditions(ps), truth) == (Eval(ps[0], truth) || SomeMet(LeafConditions(ps[1..]), truth))
    ensures AllMet(LeafConditions(ps), truth) == (Eval(ps[0], truth) && AllMet(LeafConditions(ps[1..]), truth))
  {
    var c := ps[0].cond;
    assert ConditionFrom(ConditionTo(c)) == c;
    assert forall d :: d in LeafConditions(ps) <==> d == ConditionTo(c) || d in LeafConditions(ps[1..]);
  }

  lemma {:induction false} FirstSubExpression(ps: seq<Predicate>, truth: Condition -> bool)
    requires ps != [] && !ps[0].Leaf?
    ensures LeafConditions(ps) == LeafConditions(ps[1..]) && SubExpressions(ps) != []
    ensures SomeHolds(SubExpressions(ps), truth)
            == (Holds(ExpressionFrom(ps[0]), truth) || SomeHolds(SubExpressions(ps[1..]), truth))
    ensures AllHold(SubExpressions(ps), truth)
            == (Holds(ExpressionFrom(ps[0]), truth) && AllHold(SubExpressions(ps[1..]), truth))
  {
    var es := SubExpressions(ps);
    assert es[0] == ExpressionFrom(ps[0]) && es[1..] == SubExpressions(ps[1..]);
  }

  // ------------------------------------------------------- building by calls

  /** `and`, `or` with a condition: extend a node of the same kind, wrap one of the other kind. */
  function MergeConditions(e: BooleanExpression, op: int, cs: seq<TxnCondition>): BooleanExpression {
    if e.operator == op then e.(conditions := e.conditions + cs) else BooleanExpression(op, [e], cs)
  }

  /** `and`, `or`, `and_many`, `or_many` with expressions. */
  function MergeExpressions(e: BooleanExpression, op: int, es: seq<BooleanExpression>): BooleanExpression {
    if e.operator == op then e.(subExpressions := e.subExpressions + es)
    else BooleanExpression(op, [e] + es, [])
  }

  predicate Combine(op: int, first: bool, some: bool, all: bool) {
    if op == OP_OR then first || some else first && all
  }

  lemma {:induction false} HoldsConcat(a: seq<BooleanExpression>, b: seq<BooleanExpression>, truth: Condition -> bool)
    ensures SomeHolds(a + b, truth) == (SomeHolds(a, truth) || SomeHolds(b, truth))
    ensures AllHold(a + b, truth) == (AllHold(a, truth) && AllHold(b, truth))
  {
    if a == [] {
      assert a + b == b;
    } else {
      assert (a + b)[1..] == a[1..] + b;
      HoldsConcat(a[1..], b, truth);
    }
  }

  lemma MetConcat(a: seq<TxnCondition>, b: seq<TxnCondition>, truth: Condition -> bool)
    ensures SomeMet(a + b, truth) == (SomeMet(a, truth) || SomeMet(b, truth))
    ensures AllMet(a + b, truth) == (AllMet(a, truth) && AllMet(b, truth))
  {
    assert forall c :: c in a + b <==> c in a || c in b;
  }

  /** Merging conditions means combining truth values, except that an empty OR, which holds,
      stops holding when the conditions added to it do not. */
  lemma {:induction false} MergeConditionsIff(
    e: BooleanExpression, op: int, cs: seq<TxnCondition>, truth: Condition -> bool)
    requires op == OP_AND || op == OP_OR
    ensures Holds(MergeConditions(e, op, cs), truth)
            == Combine(op, Holds(e, truth), SomeMet(cs, truth), AllMet(cs, truth))
            <==> !(op == OP_OR && e.operator == OP_OR && IsEmpty(e) && cs != [] && !SomeMet(cs, truth))
  {
    MetConcat(e.conditions, cs, truth);
    assert [e][1..] == [];
    assert !SomeHolds([], truth) && AllHold([], truth);
    assert SomeHolds([e], truth) == Holds(e, truth) == AllHold([e], truth);
  }

  /** For conditions the caller can tell before the call: only extending an empty OR by OR fails,
      and it always does for some values of the conditions. */
  lemma {:induction false} MergeConditionsAlwaysIff(e: BooleanExpression, op: int, cs: seq<TxnCondition>)
    requires op == OP_AND || op == OP_OR
    ensures (forall truth: Condition -> bool :: Holds(MergeConditions(e, op, cs), truth)
               == Combine(op, Holds(e, truth), SomeMet(cs, truth), AllMet(cs, truth)))
            <==> !(op == OP_OR && e.operator == OP_OR && IsEmpty(e) && cs != [])
  {
    var none: Condition -> bool := _ => false;
    MergeConditionsIff(e, op, cs, none);
    assert !SomeMet(cs, none);
    if !(op == OP_OR && e.operator == OP_OR && IsEmpty(e) && cs != []) {
      forall truth: Condition -> bool ensures Holds(MergeConditions(e, op, cs), truth)
        == Combine(op, Holds(e, truth), SomeMet(cs, truth), AllMet(cs, truth))
      {
        MergeConditionsIff(e, op, cs, truth);
      }
    }
  }

  lemma {:induction false} MergeExpressionsIff(
    e: BooleanExpression, op: int, es: seq<BooleanExpression>, truth: Condition -> bool)
    requires op == OP_AND || op == OP_OR
    ensures Holds(MergeExpressions(e, op, es), truth)
            == Combine(op, Holds(e, truth), SomeHolds(es, truth), AllHold(es, truth))
            <==> !(op == OP_OR && e.operator == OP_OR && IsEmpty(e) && es != [] && !SomeHolds(es, truth))
  {
    HoldsConcat(e.subExpressions, es, truth);
    assert ([e] + es)[1..] == es;
    assert !SomeMet([], truth) && AllMet([], truth);
  }

  /** A program of builder calls. */
  datatype Call =
    | Base(op: int, conditions: seq<TxnCondition>)
    | MergeCondition(self: Call, op: int, cond: TxnCondition)
    | MergeMany(self: Call, op: int, others: seq<Call>)

  /** The flattened expression the calls build. */
  function Build(c: Call): BooleanExpression {
    match c
    case Base(op, cs) => BooleanExpression(op, [], cs)
    case MergeCondition(self, op, cond) => MergeConditions(Build(self), op, [cond])
    case MergeMany(self, op, others) => MergeExpressions(Build(self), op, BuildAll(others))
  }

  function BuildAll(cs: seq<Call>): (es: seq<BooleanExpression>)
    ensures |es| == |cs|
  {
    if cs == [] then [] else [Build(cs[0])] + BuildAll(cs[1..])
  }

  /** What the calls say, read as nested boolean operators. */
  predicate Naive(c: Call, truth: Condition -> bool)
    decreases c, 1
  {
    match c
    case Base(op, cs) => if op == OP_OR then cs == [] || SomeMet(cs, truth) else AllMet(cs, truth)
    case MergeCondition(self, op, cond) =>
      var t := truth(ConditionFrom(cond));
      Combine(op, Naive(self, truth), t, t)
    case MergeMany(self, op, others) =>
      Combine(op, Naive(self, truth), SomeNaive(others, truth), AllNaive(others, truth))
  }

  predicate SomeNaive(cs: seq<Call>, truth: Condition -> bool)
    decreases cs, 0
  {
    cs != [] && (Naive(cs[0], truth) || SomeNaive(cs[1..], truth))
  }

  predicate AllNaive(cs: seq<Call>, truth: Condition -> bool)
    decreases cs, 0
  {
    cs == [] || (Naive(cs[0], truth) && AllNaive(cs[1..], truth))
  }

  /** The calls use AND and OR only and never extend an empty OR by OR. */
  predicate Sensible(c: Call)
    decreases c, 1
  {
    && (c.op == OP_AND || c.op == OP_OR)
    && match c
       case Base(_, _) => true
       case MergeCondition(self, op, _) =>
         Sensible(self) && !(op == OP_OR && Build(self).operator == OP_OR && IsEmpty(Build(self)))
       case MergeMany(self, op, others) =>
         && Sensible(self) && AllSensible(others)
         && !(op == OP_OR && Build(self).operator == OP_OR && IsEmpty(Build(self)) && others != [])
  }

  predicate AllSensible(cs: seq<Call>)
    decreases cs, 0
  {
    cs == [] || (Sensible(cs[0]) && AllSensible(cs[1..]))
  }

  /** However deep the calls nest, the flattened expression means what the nested one says. */
  lemma {:induction false} FlatteningKeepsMeaning(c: Call, truth: Condition -> bool)
    requires Sensible(c)
    ensures Holds(Build(c), truth) == Naive(c, truth)
    decreases c, 1
  {
    match c
    case Base(op, cs) =>
      assert !SomeHolds([], truth) && AllHold([], truth);
    case MergeCondition(self, op, cond) =>
      FlatteningKeepsMeaning(self, truth);
      MergeConditionsIff(Build(self), op, [cond], truth);
      assert cond in [cond];
    case MergeMany(self, op, others) =>
      FlatteningKeepsMeaning(self, truth);
      FlatteningAll(others, truth);
      MergeExpressionsIff(Build(self), op, BuildAll(others), truth);
  }

  lemma {:induction false} FlatteningAll(cs: seq<Call>, truth: Condition -> bool)
    requires AllSensible(cs)
    ensures SomeHolds(BuildAll(cs), truth) == SomeNaive(cs, truth)
    ensures AllHold(BuildAll(cs), truth) == AllNaive(cs, truth)
    decreases cs, 0
  {
    if cs != [] {
      FlatteningKeepsMeaning(cs[0], truth);
      FlatteningAll(cs[1..], truth);
      assert BuildAll(cs)[1..] == BuildAll(cs[1..]);
    }
  }

  /** Starting from an OR over nothing, adding a condition by OR loses the truth it started with. */
  lemma EmptyOrLosesMeaning(cond: TxnCondition)
    ensures var c := MergeCondition(Base(OP_OR, []), OP_OR, cond);
      Naive(c, _ => false) && !Holds(Build(c), _ => false)
  {
    var never: Condition -> bool := _ => false;
    assert Build(Base(OP_OR, [])) == BooleanExpression(OP_OR, [], []);
    MergeConditionsIff(Build(Base(OP_OR, [])), OP_OR, [cond], never);
    assert cond in [cond];
  }
}
