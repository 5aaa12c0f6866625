/** Which versions can work together, computed from the histories of their features. */
module FeatureSpans {
  import opened Versions
  import opened Wrappers

  type Feature = nat

  /** The lifetime `[since, until)` of a feature on one side. */
  datatype Span = Span(since: Version, until: Version, optionalSince: Option<Version>) {
    predicate ActiveAt(v: Version) { since.AtMost(v) && v.Less(until) }

    /** An optional-only feature is recorded as required from the end of time on. */
    predicate NeverRequired() { since == MAX }

    predicate WellFormed() {
      && (since.Less(until) || since == until == MAX)
      && (since == MIN ==> until == MAX)
      && (optionalSince.Some? ==> optionalSince.value.AtMost(since))
    }
  }

  function FreshSpan(): Span { Span(MIN, MAX, None) }

  /** The feature history of one side. */
  class History {
    var spans: map<Feature, Span>

    constructor ()
      ensures spans == map[]
    {
      spans := map[];
    }

    function SpanOf(f: Feature): Span
      reads this
    {
      if f in spans then spans[f] else FreshSpan()
    }

    predicate Valid()
      reads this
    {
      forall f :: f in spans ==> spans[f].WellFormed()
    }

    /** Record that `f` is required from `version` on; promotes an optional feature. */
    method Add(f: Feature, version: Version)
      requires Valid()
      requires SpanOf(f).since == MIN || SpanOf(f).since == MAX
      requires SpanOf(f).until == MAX
      requires SpanOf(f).optionalSince.Some? ==> SpanOf(f).optionalSince.value.AtMost(version)
      modifies this
      ensures Valid() && spans == old(spans)[f := old(SpanOf(f)).(since := version)]
    {
      var span := if f in spans then spans[f] else FreshSpan();
      span := span.(since := version);
      spans := spans[f := span];
    }

    /** Record that `f` is used from `version` on where the peer has it. */
    method AddOptional(f: Feature, version: Version)
      requires Valid() && SpanOf(f).since == MIN && SpanOf(f).optionalSince.None?
      modifies this
      ensures Valid() && spans == old(spans)[f := Span(MAX, MAX, Some(version))]
    {
      var span := if f in spans then spans[f] else FreshSpan();
      span := span.(since := MAX, optionalSince := Some(version));
      spans := spans[f := span];
    }

    /** Record that `f` is gone from `version` on. */
    method Remove(f: Feature, version: Version)
      requires Valid() && SpanOf(f).since != MIN && SpanOf(f).until == MAX && SpanOf(f).since.Less(version)
      modifies this
      ensures Valid() && spans == old(spans)[f := old(SpanOf(f)).(until := version)]
    {
      var span := if f in spans then spans[f] else FreshSpan();
      span := span.(until := version);
      spans := spans[f := span];
    }
  }

  /** Both histories, each with an entry for every feature. */
  datatype Spec = Spec(all: seq<Feature>, server: map<Feature, Span>, client: map<Feature, Span>) {
    predicate Complete() { forall f :: f in all ==> f in server && f in client }

    ghost predicate WellFormed() {
      Complete() && forall f :: f in all ==> server[f].WellFormed() && client[f].WellFormed()
    }
  }

  /** Two histories that cover all features form a spec the range theorems apply to. */
  method BuildSpec(all: seq<Feature>, server: History, client: History) returns (s: Spec)
    requires server.Valid() && client.Valid()
    requires forall f :: f in all ==> f in server.spans && f in client.spans
    ensures s == Spec(all, server.spans, client.spans) && s.WellFormed()
  {
    s := Spec(all, server.spans, client.spans);
  }

  datatype Range = Range(lo: Version, hi: Version) {
    predicate Has(v: Version) { lo.AtMost(v) && v.Less(hi) }
  }

  /** The providing span of every feature the client uses, intersected. */
  function ServerRange(s: Spec, n: nat, clientVersion: Version): Range
    requires s.Complete() && n <= |s.all|
  {
    if n == 0 then Range(MIN, MAX)
    else
      var f, r := s.all[n - 1], ServerRange(s, n - 1, clientVersion);
      if s.client[f].ActiveAt(clientVersion)
      then Range(Later(r.lo, s.server[f].since), Earlier(r.hi, s.server[f].until)) else r
  }

  /** Keep below the use of features not yet provided, and above the use of features gone. */
  function ClientRange(s: Spec, n: nat, serverVersion: Version): Range
    requires s.Complete() && n <= |s.all|
  {
    if n == 0 then Range(MIN, MAX)
    else
      var f, r := s.all[n - 1], ClientRange(s, n - 1, serverVersion);
      var c, sv := s.client[f], s.server[f];
      if c.NeverRequired() then r
      else if serverVersion.Less(sv.since) then r.(hi := Earlier(r.hi, c.since))
      else if sv.until.AtMost(serverVersion) then r.(lo := Later(r.lo, c.until))
      else r
  }

  method CompatibleServerRange(s: Spec, clientVersion: Version) returns (r: Range)
    requires s.Complete()
    ensures r == ServerRange(s, |s.all|, clientVersion)
  {
    var lo, hi := MIN, MAX;
    for i := 0 to |s.all|
      invariant Range(lo, hi) == ServerRange(s, i, clientVersion)
    {
      var f := s.all[i];
      if s.client[f].ActiveAt(clientVersion) {
        lo := Later(lo, s.server[f].since);
        hi := Earlier(hi, s.server[f].until);
      }
    }
    r := Range(lo, hi);
  }

  method CompatibleClientRange(s: Spec, serverVersion: Version) returns (r: Range)
    requires s.Complete()
    ensures r == ClientRange(s, |s.all|, serverVersion)
  {
    var lo, hi := MIN, MAX;
    for i := 0 to |s.all|
      invariant Range(lo, hi) == ClientRange(s, i, serverVersion)
    {
      var f := s.all[i];
      if s.client[f].NeverRequired() {
        continue;
      }
      if serverVersion.Less(s.server[f].since) {
        hi := Earlier(hi, s.client[f].since);
      } else if s.server[f].until.AtMost(serverVersion) {
        lo := Later(lo, s.client[f].until);
      }
    }
    r := Range(lo, hi);
  }

  function PeerRange(s: Spec, v: Version): Range
    requires s.Complete()
  {
    var a, b := ServerRange(s, |s.all|, v), ClientRange(s, |s.all|, v);
    Range(Later(a.lo, b.lo), Earlier(a.hi, b.hi))
  }

  // -------------------------------------------------------------- meaning

  /** A server serves a client if it provides every feature the client uses. */
  predicate Serves(s: Spec, n: nat, client: Version, server: Version)
    requires s.Complete() && n <= |s.all|
  {
    forall i :: 0 <= i < n && s.client[s.all[i]].ActiveAt(client) ==> s.server[s.all[i]].ActiveAt(server)
  }

  /** The client lies on the far side of a feature the server lacks: it has already given up what
      the server does not provide yet, or does not use yet what the server no longer provides. */
  predicate FarSide(s: Spec, f: Feature, client: Version, server: Version)
    requires f in s.server && f in s.client
  {
    var c, sv := s.client[f], s.server[f];
    && !c.NeverRequired()
    && ((server.Less(sv.since) && c.until.AtMost(client))
        || (!server.Less(sv.since) && sv.until.AtMost(server) && client.Less(c.since)))
  }

  predicate NoFarSide(s: Spec, n: nat, client: Version, server: Version)
    requires s.Complete() && n <= |s.all|
  {
    forall i :: 0 <= i < n ==> !FarSide(s, s.all[i], client, server)
  }

  /** The server range is exact: below the end of time it holds the servers that serve the client. */
  lemma {:induction false} ServerRangeExact(s: Spec, n: nat, client: Version, server: Version)
    requires s.Complete() && n <= |s.all| && server.Less(MAX)
    ensures ServerRange(s, n, client).Has(server) <==> Serves(s, n, client, server)
  {
    if n > 0 {
      ServerRangeExact(s, n - 1, client, server);
      var f := s.all[n - 1];
      assert Serves(s, n, client, server) <==>
             Serves(s, n - 1, client, server) && (s.client[f].ActiveAt(client) ==> s.server[f].ActiveAt(server));
    }
  }

  /** The client range holds the clients that are served, except those on the far side of a feature
      the server lacks: a client in it never uses what the server does not provide. */
  lemma {:induction false} ClientRangeIff(s: Spec, n: nat, client: Version, server: Version)
    requires s.WellFormed() && n <= |s.all| && client.Less(MAX)
    ensures ClientRange(s, n, server).Has(client) <==>
            Serves(s, n, client, server) && NoFarSide(s, n, client, server)
  {
    if n > 0 {
      ClientRangeIff(s, n - 1, client, server);
      var f := s.all[n - 1];
      assert f in s.all;
      assert Serves(s, n, client, server) <==>
             Serves(s, n - 1, client, server) && (s.client[f].ActiveAt(client) ==> s.server[f].ActiveAt(server));
      assert NoFarSide(s, n, client, server) <==>
             NoFarSide(s, n - 1, client, server) && !FarSide(s, f, client, server);
      OneFeature(s, f, client, server, ClientRange(s, n - 1, server));
    }
  }

  lemma OneFeature(s: Spec, f: Feature, client: Version, server: Version, r: Range)
    requires f in s.server && f in s.client && s.client[f].WellFormed() && client.Less(MAX)
    ensures var c, sv := s.client[f], s.server[f];
      var r' := if c.NeverRequired() then r
                else if server.Less(sv.since) then r.(hi := Earlier(r.hi, c.since))
                else if sv.until.AtMost(server) then r.(lo := Later(r.lo, c.until))
                else r;
      r'.Has(client) <==>
      r.Has(client) && (c.ActiveAt(client) ==> sv.ActiveAt(server)) && !FarSide(s, f, client, server)
  {
  }

  // ----------------------------------------------------------- peer ranges

  /** A peer is in range when each serves the other and it is on the far side of nothing the node
      lacks. */
  lemma PeerRangeIff(s: Spec, node: Version, peer: Version)
    requires s.WellFormed() && peer.Less(MAX)
    ensures var n := |s.all|;
      PeerRange(s, node).Has(peer) <==>
      Serves(s, n, node, peer) && Serves(s, n, peer, node) && NoFarSide(s, n, peer, node)
  {
    ServerRangeExact(s, |s.all|, node, peer);
    ClientRangeIff(s, |s.all|, peer, node);
  }

  lemma SymmetryByFarSides(s: Spec, u: Version, v: Version)
    requires s.WellFormed() && u.Less(MAX) && v.Less(MAX)
    ensures var n := |s.all|;
      (PeerRange(s, v).Has(u) <==> PeerRange(s, u).Has(v))
      <==> (Serves(s, n, u, v) && Serves(s, n, v, u) ==> (NoFarSide(s, n, u, v) <==> NoFarSide(s, n, v, u)))
  {
    PeerRangeIff(s, v, u);
    PeerRangeIff(s, u, v);
  }

  /** A condition on the spans of one feature: it is never required; or clients give it up only
      where no server provides it any longer, and, if it is ever removed from servers, start using
      it no later than servers provide it. It holds of every feature without removals and of every
      feature whose two spans are equal. */
  predicate Balanced(client: Span, server: Span) {
    || client.NeverRequired()
    || (&& (client.until == MAX || server.since == MIN || server.until.AtMost(client.until))
        && (server.until == MAX || client.since.AtMost(server.since)))
  }

  /** Two versions that serve each other are on the same far sides of a balanced feature. */
  lemma BalancedFarSides(s: Spec, f: Feature, u: Version, v: Version)
    requires f in s.server && f in s.client && s.server[f].WellFormed() && s.client[f].WellFormed()
    requires Balanced(s.client[f], s.server[f]) && u.Less(MAX) && v.Less(MAX)
    requires s.client[f].ActiveAt(u) ==> s.server[f].ActiveAt(v)
    requires s.client[f].ActiveAt(v) ==> s.server[f].ActiveAt(u)
    ensures FarSide(s, f, u, v) <==> FarSide(s, f, v, u)
  {
  }

  /** If every feature is balanced, peers agree on each other. */
  lemma BalancedIsSymmetric(s: Spec, u: Version, v: Version)
    requires s.WellFormed() && u.Less(MAX) && v.Less(MAX)
    requires forall f :: f in s.all ==> Balanced(s.client[f], s.server[f])
    ensures PeerRange(s, v).Has(u) <==> PeerRange(s, u).Has(v)
  {
    var n := |s.all|;
    SymmetryByFarSides(s, u, v);
    if Serves(s, n, u, v) && Serves(s, n, v, u) {
      forall i | 0 <= i < n ensures FarSide(s, s.all[i], u, v) <==> FarSide(s, s.all[i], v, u) {
        assert s.all[i] in s.all;
        BalancedFarSides(s, s.all[i], u, v);
      }
    }
  }

  /** Two versions on which a feature that is not balanced makes peers disagree. */
  function Disagreeing(client: Span, server: Span): (Version, Version) {
    if client.until != MAX && server.since != MIN && client.until.Less(server.until) then (client.until, MIN)
    else (server.since, if client.until == MAX then Later(server.until, client.since)
                        else Later(server.until, client.until))
  }

  lemma UnbalancedFarSides(s: Spec, f: Feature)
    requires f in s.server && f in s.client && s.server[f].WellFormed() && s.client[f].WellFormed()
    requires !Balanced(s.client[f], s.server[f])
    ensures var (u, v) := Disagreeing(s.client[f], s.server[f]);
      && u.Less(MAX) && v.Less(MAX)
      && (s.client[f].ActiveAt(u) ==> s.server[f].ActiveAt(v))
      && (s.client[f].ActiveAt(v) ==> s.server[f].ActiveAt(u))
      && FarSide(s, f, u, v) && !FarSide(s, f, v, u)
  {
  }

  ghost predicate Symmetric(s: Spec)
    requires s.Complete()
  {
    forall u: Version, v: Version :: u.Less(MAX) && v.Less(MAX) ==>
      (PeerRange(s, v).Has(u) <==> PeerRange(s, u).Has(v))
  }

  /** A selection of the features of a history. */
  ghost predicate Selects(s: Spec, some: seq<Feature>) { forall f :: f in some ==> f in s.all }

  /** Peers agree on each other over a history, whichever of its features are looked at, if and only
      if every feature is balanced. */
  lemma SymmetryIff(s: Spec)
    requires s.WellFormed()
    ensures (forall some :: Selects(s, some) ==> Symmetric(s.(all := some)))
            <==> forall f :: f in s.all ==> Balanced(s.client[f], s.server[f])
  {
    if forall f :: f in s.all ==> Balanced(s.client[f], s.server[f]) {
      forall some | Selects(s, some) ensures Symmetric(s.(all := some)) {
        forall u: Version, v: Version | u.Less(MAX) && v.Less(MAX)
          ensures PeerRange(s.(all := some), v).Has(u) <==> PeerRange(s.(all := some), u).Has(v)
        {
          BalancedIsSymmetric(s.(all := some), u, v);
        }
      }
    } else {
      var f :| f in s.all && !Balanced(s.client[f], s.server[f]);
      assert Selects(s, [f]);
      OneFeatureSymmetryIff(s.(all := [f]), f);
    }
  }

  /** Peers agree on each other over a history of one feature if and only if it is balanced. */
  lemma OneFeatureSymmetryIff(s: Spec, f: Feature)
    requires s.WellFormed() && s.all == [f]
    ensures Symmetric(s) <==> Balanced(s.client[f], s.server[f])
  {
    assert f in s.all && s.all[0] == f;
    if Balanced(s.client[f], s.server[f]) {
      forall u: Version, v: Version | u.Less(MAX) && v.Less(MAX)
        ensures PeerRange(s, v).Has(u) <==> PeerRange(s, u).Has(v)
      {
        BalancedIsSymmetric(s, u, v);
      }
    } else {
      var (u, v) := Disagreeing(s.client[f], s.server[f]);
      UnbalancedFarSides(s, f);
      SymmetryByFarSides(s, u, v);
    }
  }

  ghost predicate NoRemovals(s: Spec)
    requires s.Complete()
  {
    forall f :: f in s.all ==> s.server[f].until == MAX && s.client[f].until == MAX
  }

  /** Without removals peers agree on each other, because server and client range are dual. */
  lemma {:induction false} SymmetricWithoutRemovals(s: Spec, u: Version, v: Version)
    requires s.WellFormed() && NoRemovals(s) && u.Less(MAX) && v.Less(MAX)
    ensures ServerRange(s, |s.all|, v).Has(u) <==> ClientRange(s, |s.all|, u).Has(v)
    ensures PeerRange(s, v).Has(u) <==> PeerRange(s, u).Has(v)
  {
    NobodyOnFarSide(s, u, v);
    NobodyOnFarSide(s, v, u);
    ServerRangeExact(s, |s.all|, v, u);
    ClientRangeIff(s, |s.all|, v, u);
    SymmetryByFarSides(s, u, v);
  }

  lemma NobodyOnFarSide(s: Spec, client: Version, server: Version)
    requires s.WellFormed() && NoRemovals(s) && client.Less(MAX) && server.Less(MAX)
    ensures NoFarSide(s, |s.all|, client, server)
  {
    forall i | 0 <= i < |s.all| ensures !FarSide(s, s.all[i], client, server) { assert s.all[i] in s.all; }
  }

  /** With a removal the relation need not be symmetric: a version that provides a feature without
      using it yet, and one after the feature is gone. */
  lemma RemovalBreaksSymmetry()
    ensures var s := Spec([0], map[0 := Span(Version(1, 0, 0), Version(3, 0, 0), None)],
                          map[0 := Span(Version(2, 0, 0), Version(2, 5, 0), None)]);
      s.WellFormed() && PeerRange(s, Version(1, 5, 0)).Has(Version(3, 5, 0))
      && !PeerRange(s, Version(3, 5, 0)).Has(Version(1, 5, 0))
  {
    var s := Spec([0], map[0 := Span(Version(1, 0, 0), Version(3, 0, 0), None)],
                  map[0 := Span(Version(2, 0, 0), Version(2, 5, 0), None)]);
    assert s.all[0] == 0;
    assert ServerRange(s, 1, Version(1, 5, 0)) == Range(MIN, MAX) == ClientRange(s, 1, Version(1, 5, 0));
    assert ClientRange(s, 1, Version(3, 5, 0)) == Range(Version(2, 5, 0), MAX);
  }

  // ----------------------------------------------------- optional features

  /** The features some client version requires. */
  function Required(s: Spec, n: nat): seq<Feature>
    requires s.Complete() && n <= |s.all|
  {
    if n == 0 then []
    else Required(s, n - 1) + if s.client[s.all[n - 1]].since == MAX then [] else [s.all[n - 1]]
  }

  /** Features that are only ever optional change neither range. */
  lemma {:induction false} OptionalNeverShrinks(s: Spec, n: nat, v: Version, required: Spec)
    requires s.Complete() && n <= |s.all| && v.Less(MAX)
    requires required == s.(all := Required(s, n))
    ensures required.Complete()
    ensures ServerRange(required, |required.all|, v) == ServerRange(s, n, v)
    ensures ClientRange(required, |required.all|, v) == ClientRange(s, n, v)
    decreases n
  {
    if n > 0 {
      var smaller := s.(all := Required(s, n - 1));
      OptionalNeverShrinks(s, n - 1, v, smaller);
      assert s.all[n - 1] in s.all;
      if !s.client[s.all[n - 1]].NeverRequired() {
        RangeOfPrefix(required, smaller, |smaller.all|, v);
      } else {
        assert required.all == smaller.all;
      }
    }
  }

  lemma {:induction false} RangeOfPrefix(s: Spec, t: Spec, n: nat, v: Version)
    requires s.Complete() && t.Complete() && n <= |t.all| <= |s.all|
    requires t.all == s.all[..|t.all|] && t.server == s.server && t.client == s.client
    ensures ServerRange(s, n, v) == ServerRange(t, n, v) && ClientRange(s, n, v) == ClientRange(t, n, v)
  {
    if n > 0 { RangeOfPrefix(s, t, n - 1, v); }
  }
}
