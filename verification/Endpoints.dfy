/** The endpoints a client knows, the one it uses, and how failures move it on. */
module Endpoints {
  import opened Order
  import opened Strings
  import opened Wrappers

  /** `nodes` are the keys of the member map in ascending order, so they form a circle. */
  datatype State = State(current: Option<string>, nodes: seq<string>) {
    /** The current endpoint is absent or a member, and no member occurs twice. */
    ghost predicate Valid() {
      (current.Some? ==> current.value in nodes) && Distinct(nodes)
    }
  }

  /** The position of a member. */
  ghost function Position(nodes: seq<string>, c: string): (i: nat)
    requires c in nodes
    ensures i < |nodes| && nodes[i] == c
  {
    var i :| 0 <= i < |nodes| && nodes[i] == c;
    i
  }

  /** The position `k` steps after `start` around a circle of `n`, for `k` up to `n`. */
  function Turn(start: nat, k: nat, n: nat): nat {
    if start + k < n then start + k else start + k - n
  }

  /** The member after `c` in cyclic order. */
  ghost function NextOf(nodes: seq<string>, c: string): (d: string)
    requires c in nodes
    ensures d in nodes
  {
    nodes[Turn(Position(nodes, c), 1, |nodes|)]
  }

  /** Move to the next member; `None` where the program panics: the current endpoint is not a
      member, or there is no member. */
  ghost function Chosen(s: State): Option<State> {
    match s.current
    case Some(c) => if c in s.nodes then Some(s.(current := Some(NextOf(s.nodes, c)))) else None
    case None => if s.nodes != [] then Some(s.(current := Some(s.nodes[0]))) else None
  }

  ghost function CurrentOrChosen(s: State): Option<State> {
    if s.current.Some? then Some(s) else Chosen(s)
  }

  /** Report a failing endpoint, or a failure without naming one: move on if it is still current. */
  ghost function Rotated(s: State, failing: Option<string>): Option<State> {
    if failing.Some? && s.current != failing then Some(s) else Chosen(s)
  }

  /** Replace the members; a current endpoint that is gone is forgotten. */
  function Replaced(s: State, list: seq<string>): State {
    State(if s.current.Some? && s.current.value in list then s.current else None, MapKeys(list))
  }

  function MapKeys(list: seq<string>): (keys: seq<string>)
    ensures StrictlySorted(keys, StrLess)
    ensures forall k :: k in keys <==> k in list
  {
    SortedKeys(set k | k in list)
  }

  function NonEmpty(list: seq<string>): nat {
    if list == [] then 0 else NonEmpty(list[..|list| - 1]) + if list[|list| - 1] == "" then 0 else 1
  }

  /** A fetched member list is installed only if a majority of its endpoints is not empty. */
  function Synced(s: State, list: seq<string>): State {
    if NonEmpty(list) < |list| / 2 + 1 then s else Replaced(s, list)
  }

  /** A fetched list is installed if and only if more than half of its entries are not empty. Then its
      distinct entries are the members, and the current endpoint stays exactly if it is one of them. */
  lemma SyncedMeaning(s: State, list: seq<string>)
    ensures var t := Synced(s, list);
      if 2 * |FilledPlaces(list)| > |list| then
        && StrictlySorted(t.nodes, StrLess) && (forall c :: c in t.nodes <==> c in list)
        && t.current == (if s.current.Some? && s.current.value in list then s.current else None)
      else t == s
  {
    NonEmptyCounts(list);
  }

  /** The positions of the entries that are not empty. */
  function FilledPlaces(list: seq<string>): set<int> { set i | 0 <= i < |list| && list[i] != "" }

  lemma {:induction false} NonEmptyCounts(list: seq<string>)
    ensures NonEmpty(list) == |FilledPlaces(list)|
  {
    if list != [] {
      NonEmptyCounts(list[..|list| - 1]);
      LastPlace(list);
    }
  }

  lemma LastPlace(list: seq<string>)
    requires list != []
    ensures var init := FilledPlaces(list[..|list| - 1]);
      && |list| - 1 !in init
      && FilledPlaces(list) == if list[|list| - 1] == "" then init else init + {|list| - 1}
  {
    var init := list[..|list| - 1];
    assert forall i :: 0 <= i < |init| ==> init[i] == list[i];
  }

  /** The successor of a member is the least member above it, or the least of all if there is none. */
  lemma NextOfMeaning(nodes: seq<string>, c: string)
    requires StrictlySorted(nodes, StrLess) && c in nodes
    ensures var d := NextOf(nodes, c);
      if exists e :: e in nodes && StrLess(c, e) then
        StrLess(c, d) && forall e :: e in nodes && StrLess(c, e) ==> e == d || StrLess(d, e)
      else forall e :: e in nodes ==> e == d || StrLess(d, e)
  {
    StrLessIsTotal();
    SortedDistinct(nodes);
    var i := Position(nodes, c);
    forall e | e in nodes ensures StrLess(c, e) <==> Position(nodes, e) > i {
      var j := Position(nodes, e);
      assert j > i ==> StrLess(nodes[i], nodes[j]);
      assert j < i ==> StrLess(nodes[j], nodes[i]);
    }
    if i + 1 < |nodes| {
      assert nodes[i + 1] in nodes && StrLess(nodes[i], nodes[i + 1]);
    }
  }

  lemma TurnIsModular(i: nat, n: nat)
    requires i < n
    ensures (i + 1) % n == Turn(i, 1, n)
  {
  }

  class Endpoints {
    var current: Option<string>
    var nodes: seq<string>

    constructor (list: seq<string>)
      ensures View() == State(None, MapKeys(list)) && View().Valid()
    {
      current, nodes := None, MapKeys(list);
      SortedDistinct(MapKeys(list));
    }

    function View(): State
      reads this
    {
      State(current, nodes)
    }

    method ChooseNext() returns (c: string)
      requires Distinct(nodes) && Chosen(View()).Some?
      modifies this`current
      ensures current == Some(c) && Some(View()) == Chosen(old(View()))
    {
      if current.Some? {
        var index := 0;
        while nodes[index] != current.value
          invariant index <= Position(nodes, current.value)
          decreases |nodes| - index
        {
          index := index + 1;
        }
        TurnIsModular(index, |nodes|);
        c := nodes[(index + 1) % |nodes|];
      } else {
        c := nodes[0];
      }
      current := Some(c);
    }

    method CurrentOrNext() returns (c: string)
      requires Distinct(nodes) && CurrentOrChosen(View()).Some?
      modifies this`current
      ensures current == Some(c) && Some(View()) == CurrentOrChosen(old(View()))
    {
      if current.None? {
        var _ := ChooseNext();
      }
      c := current.value;
    }

    /** Returns the previous endpoint; refuses one that is not a member. */
    method SetCurrent(c: Option<string>) returns (r: Result<Option<string>, string>)
      modifies this`current
      ensures c.Some? && c.value !in nodes ==> r.Err? && current == old(current)
      ensures c.None? || c.value in nodes ==> r == Ok(old(current)) && current == c
      ensures Step(old(View()), SetLeader(c)) == Some(View())
    {
      if c.Some? && c.value !in nodes {
        return Err(c.value);
      }
      r := Ok(current);
      current := c;
    }

    method ReplaceNodes(list: seq<string>)
      modifies this
      ensures View() == Replaced(old(View()), list)
    {
      nodes := MapKeys(list);
      if current.Some? && current.value !in nodes {
        current := None;
      }
    }

    method SetEndpoints(list: seq<string>)
      modifies this
      ensures View() == Synced(old(View()), list)
    {
      if NonEmpty(list) < |list| / 2 + 1 {
        return;
      }
      ReplaceNodes(list);
    }

    method RotateFailing(failing: Option<string>)
      requires Distinct(nodes) && Rotated(View(), failing).Some?
      modifies this`current
      ensures Some(View()) == Rotated(old(View()), failing)
    {
      if failing.Some? && current != failing {
        return;
      }
      var _ := ChooseNext();
    }

    /** Try the current endpoint once; move on if it fails. */
    method Attempt(connects: string -> bool) returns (addr: string, ok: bool)
      requires Distinct(nodes) && CurrentOrChosen(View()).Some?
      requires Rotated(CurrentOrChosen(View()).value, CurrentOrChosen(View()).value.current).Some?
      modifies this`current
      ensures var t := CurrentOrChosen(old(View())).value;
              && t.current == Some(addr) && ok == connects(addr)
              && Some(View()) == if ok then Some(t) else Rotated(t, Some(addr))
    {
      addr := CurrentOrNext();
      ok := connects(addr);
      if !ok {
        RotateFailing(Some(addr));
      }
    }

    /** Try as many times as there are nodes; whether attempt `i` on an endpoint connects is
        arbitrary. Endpoints are tried in cyclic order from the current one, none twice; only when
        each of them has been tried and failed does the connection fail. */
    method GetEstablishedClient(connects: (nat, string) -> bool) returns (client: Option<string>, tried: seq<string>)
      requires View().Valid()
      modifies this`current
      ensures View().Valid() && Round(old(View()), connects, tried, client)
      ensures client.Some? ==> current == client
    {
      tried := [];
      ghost var s, t := View(), View();
      for i := 0 to |nodes|
        invariant |tried| == i && t == View() && t.nodes == s.nodes
        invariant AtTurn(t, tried, StartOf(s)) && AllFail(connects, tried)
      {
        AttemptTurns(t, tried, StartOf(s));
        var addr, ok := Attempt(x => connects(i, x));
        AttemptEnds(s, connects, tried, addr);
        tried := tried + [addr];
        if ok {
          return Some(addr), tried;
        }
        t := View();
      }
      RoundFails(s, connects, tried);
      client := None;
    }
  }

  // ------------------------------------------------------------------ one round of attempts

  /** No endpoint twice, each one followed by its successor. */
  ghost predicate Cyclic(nodes: seq<string>, tried: seq<string>) {
    && Distinct(tried)
    && (forall i :: 0 <= i < |tried| ==> tried[i] in nodes)
    && (forall i :: 0 <= i < |tried| - 1 ==> tried[i + 1] == NextOf(nodes, tried[i]))
  }

  predicate AllFail(connects: (nat, string) -> bool, tried: seq<string>) {
    forall i :: 0 <= i < |tried| ==> !connects(i, tried[i])
  }

  /** What one round of attempts achieves: it starts at the current endpoint or the first; every
      attempt but a last successful one fails; it fails only after trying every member. */
  ghost predicate Round(s: State, connects: (nat, string) -> bool, tried: seq<string>, client: Option<string>) {
    && Cyclic(s.nodes, tried)
    && (tried != [] ==> s.nodes != [] && tried[0] == if s.current.Some? then s.current.value else s.nodes[0])
    && match client
       case Some(c) =>
         var last := |tried| - 1;
         last >= 0 && c == tried[last] && connects(last, c) && AllFail(connects, tried[..last])
       case None => AllFail(connects, tried) && forall c :: c in s.nodes <==> c in tried
  }

  /** The endpoints tried so far, by position. */
  predicate InTurn(nodes: seq<string>, tried: seq<string>, start: nat) {
    && |tried| <= |nodes| && (nodes != [] ==> start < |nodes|)
    && forall k :: 0 <= k < |tried| ==> tried[k] == nodes[Turn(start, k, |nodes|)]
  }

  /** The next endpoint to try is the current one, or the first if there is none yet. */
  ghost predicate AtTurn(s: State, tried: seq<string>, start: nat) {
    && InTurn(s.nodes, tried, start) && s.Valid()
    && match s.current
       case Some(c) => c == s.nodes[Turn(start, |tried|, |s.nodes|)]
       case None => tried == [] && start == 0
  }

  ghost function StartOf(s: State): nat
    requires s.Valid()
  {
    if s.current.Some? then Position(s.nodes, s.current.value) else 0
  }

  /** One rotation is one turn. */
  lemma RotationTurns(nodes: seq<string>, start: nat, i: nat)
    requires start < |nodes| && i < |nodes| && Distinct(nodes)
    ensures NextOf(nodes, nodes[Turn(start, i, |nodes|)]) == nodes[Turn(start, i + 1, |nodes|)]
  {
    assert Position(nodes, nodes[Turn(start, i, |nodes|)]) == Turn(start, i, |nodes|);
  }

  /** A failed attempt keeps the turn. */
  lemma AttemptTurns(s: State, tried: seq<string>, start: nat)
    requires AtTurn(s, tried, start) && |tried| < |s.nodes|
    ensures CurrentOrChosen(s).Some?
    ensures var t := CurrentOrChosen(s).value;
            && t.Valid() && t.current.Some? && InTurn(s.nodes, tried + [t.current.value], start)
            && Rotated(t, t.current).Some? && AtTurn(Rotated(t, t.current).value, tried + [t.current.value], start)
  {
    RotationTurns(s.nodes, start, |tried|);
  }

  lemma TriedInOrder(nodes: seq<string>, tried: seq<string>, start: nat)
    requires InTurn(nodes, tried, start) && Distinct(nodes)
    ensures Cyclic(nodes, tried)
    ensures tried != [] ==> tried[0] == nodes[start]
  {
    forall i | 0 <= i < |tried| - 1 ensures tried[i + 1] == NextOf(nodes, tried[i]) {
      RotationTurns(nodes, start, i);
    }
  }

  lemma AllTried(nodes: seq<string>, tried: seq<string>, start: nat)
    requires InTurn(nodes, tried, start) && |tried| == |nodes|
    ensures forall c :: c in nodes <==> c in tried
  {
    forall c | c in nodes ensures c in tried {
      var j := Position(nodes, c);
      var k := if start <= j then j - start else j + |nodes| - start;
      assert Turn(start, k, |nodes|) == j && tried[k] == c;
    }
  }

  lemma AttemptEnds(s: State, connects: (nat, string) -> bool, tried: seq<string>, addr: string)
    requires s.Valid() && InTurn(s.nodes, tried + [addr], StartOf(s)) && AllFail(connects, tried)
    ensures connects(|tried|, addr) ==> Round(s, connects, tried + [addr], Some(addr))
    ensures !connects(|tried|, addr) ==> AllFail(connects, tried + [addr])
  {
    TriedInOrder(s.nodes, tried + [addr], StartOf(s));
    assert (tried + [addr])[..|tried|] == tried;
  }

  lemma RoundFails(s: State, connects: (nat, string) -> bool, tried: seq<string>)
    requires s.Valid() && InTurn(s.nodes, tried, StartOf(s)) && |tried| == |s.nodes|
    requires AllFail(connects, tried)
    ensures Round(s, connects, tried, None)
  {
    TriedInOrder(s.nodes, tried, StartOf(s));
    AllTried(s.nodes, tried, StartOf(s));
  }

  // ------------------------------------------------------------------ runs

  /** What the threads of a client do to the shared endpoints, each under the lock. */
  datatype Action =
    | Connect
    | Report(failing: Option<string>)
    | SetLeader(leader: Option<string>)
    | Sync(list: seq<string>)

  ghost function Step(s: State, a: Action): Option<State> {
    match a
    case Connect => CurrentOrChosen(s)
    case Report(failing) => Rotated(s, failing)
    case SetLeader(leader) => Some(if leader.None? || leader.value in s.nodes then s.(current := leader) else s)
    case Sync(list) => Some(Synced(s, list))
  }

  ghost function Run(s: State, actions: seq<Action>): Option<State>
    decreases |actions|
  {
    if actions == [] then Some(s)
    else
      var t := Step(s, actions[0]);
      if t.None? then None else Run(t.value, actions[1..])
  }

  /** No interleaving panics: the current endpoint never leaves the member list and the list never
      becomes empty, whatever lists are fetched. */
  lemma {:induction false} RunsNeverPanic(s: State, actions: seq<Action>)
    requires s.Valid() && s.nodes != []
    ensures Run(s, actions).Some?
    ensures Run(s, actions).value.Valid() && Run(s, actions).value.nodes != []
    decreases |actions|
  {
    if actions != [] {
      StepKeepsValid(s, actions[0]);
      RunsNeverPanic(Step(s, actions[0]).value, actions[1..]);
    }
  }

  lemma StepKeepsValid(s: State, a: Action)
    requires s.Valid() && s.nodes != []
    ensures Step(s, a).Some? && Step(s, a).value.Valid() && Step(s, a).value.nodes != []
  {
    if a.Sync? && a.list != [] {
      assert a.list[0] in MapKeys(a.list);
      SortedDistinct(MapKeys(a.list));
    }
  }

  /** The reports of several threads, one after the other. */
  ghost function ReportAll(s: State, reports: seq<string>): Option<State> {
    Run(s, seq(|reports|, i requires 0 <= i < |reports| => Report(Some(reports[i]))))
  }

  lemma ReportFirst(s: State, reports: seq<string>)
    requires reports != []
    ensures ReportAll(s, reports) ==
            var t := Rotated(s, Some(reports[0]));
            if t.None? then None else ReportAll(t.value, reports[1..])
  {
    var f := seq(|reports|, i requires 0 <= i < |reports| => Report(Some(reports[i])));
    var tail := reports[1..];
    assert f[1..] == seq(|tail|, i requires 0 <= i < |tail| => Report(Some(tail[i])));
  }

  /** A report moves the client exactly if it names the endpoint in use or none at all. */
  lemma ReportMoves(s: State, failing: Option<string>)
    requires s.Valid() && |s.nodes| >= 2 && s.current.Some?
    ensures Rotated(s, failing).Some?
    ensures Rotated(s, failing).value.current != s.current <==> failing == None || failing == s.current
  {
    NextDiffers(s.nodes, s.current.value);
  }

  lemma NextDiffers(nodes: seq<string>, c: string)
    requires Distinct(nodes) && |nodes| >= 2 && c in nodes
    ensures NextOf(nodes, c) != c
  {
    var i := Position(nodes, c);
    var j := Turn(i, 1, |nodes|);
    assert nodes[j] != nodes[i];
  }

  /** With two or more nodes, any number of reports about the current endpoint, mixed with stale
      reports about others, rotates once: to its successor, as long as that one is not reported. */
  lemma {:induction false} ReportsRotateOnce(s: State, c: string, reports: seq<string>)
    requires s.Valid() && |s.nodes| >= 2 && s.current == Some(c)
    requires NextOf(s.nodes, c) !in reports
    ensures NextOf(s.nodes, c) != c
    ensures ReportAll(s, reports) == Some(s.(current := Some(if c in reports then NextOf(s.nodes, c) else c)))
    decreases |reports|
  {
    if reports != [] {
      assert reports == [reports[0]] + reports[1..];
      ReportFirst(s, reports);
      if reports[0] == c {
        StaleReports(s.(current := Some(NextOf(s.nodes, c))), reports[1..]);
      } else {
        ReportsRotateOnce(s, c, reports[1..]);
      }
    }
  }

  lemma {:induction false} StaleReports(s: State, reports: seq<string>)
    requires s.current.Some? && s.current.value !in reports
    ensures ReportAll(s, reports) == Some(s)
    decreases |reports|
  {
    if reports != [] {
      ReportFirst(s, reports);
      StaleReports(s, reports[1..]);
    }
  }
}
