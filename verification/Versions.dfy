/** Version numbers, their encoding as one integer, and the handshake test on it. */
module Versions {
  import opened Timestamps

  datatype Version = Version(major: u64, minor: u64, patch: u64) {
    predicate Less(b: Version) {
      major < b.major || (major == b.major && (minor < b.minor || (minor == b.minor && patch < b.patch)))
    }

    predicate AtMost(b: Version) { this == b || Less(b) }
  }

  const MIN := Version(0, 0, 0)
  const MAX := Version(U64_MAX, U64_MAX, U64_MAX)

  function Later(a: Version, b: Version): Version { if a.Less(b) then b else a }

  function Earlier(a: Version, b: Version): Version { if a.Less(b) then a else b }

  /** The digits before they are cut to 64 bits. */
  function Weight(v: Version): nat { v.major * 1_000_000 + v.minor * 1_000 + v.patch }

  function ToDigit(v: Version): u64 { Weight(v) % (U64_MAX + 1) }

  function FromDigit(u: u64): Version { Version(u / 1_000_000, u / 1_000 % 1_000, u % 1_000) }

  /** The versions whose parts do not run into each other or out of the 64 bits. */
  predicate Encodable(v: Version) { v.minor < 1000 && v.patch < 1000 && Weight(v) <= U64_MAX }

  lemma DivideTwice(u: nat)
    ensures u / 1_000_000 == u / 1_000 / 1_000
  {
  }

  lemma WeightOfNumber(u: u64)
    ensures Encodable(FromDigit(u)) && Weight(FromDigit(u)) == u
  {
    DivideTwice(u);
    var a := u / 1_000;
    assert u == a * 1_000 + u % 1_000;
    assert a == a / 1_000 * 1_000 + a % 1_000;
  }

  lemma DigitIsWeight(v: Version)
    requires Encodable(v)
    ensures ToDigit(v) == Weight(v)
  {
    SmallModulo(Weight(v), U64_MAX + 1);
  }

  lemma SmallModulo(n: nat, m: nat)
    requires n < m
    ensures n % m == n
  {
  }

  /** Every number is the digit of the version it decodes to. */
  lemma DigitOfNumber(u: u64)
    ensures Encodable(FromDigit(u)) && ToDigit(FromDigit(u)) == u
  {
    WeightOfNumber(u);
    DigitIsWeight(FromDigit(u));
  }

  /** Encodable versions compare as their weights do. */
  lemma WeightOrder(a: Version, b: Version)
    requires Encodable(a) && Encodable(b)
    ensures a.Less(b) <==> Weight(a) < Weight(b)
    ensures a == b <==> Weight(a) == Weight(b)
  {
  }

  /** Decoding undoes encoding for exactly the encodable versions. */
  lemma DigitRoundTripIff(v: Version)
    ensures FromDigit(ToDigit(v)) == v <==> Encodable(v)
  {
    WeightOfNumber(ToDigit(v));
    if Encodable(v) {
      DigitIsWeight(v);
      WeightOrder(v, FromDigit(ToDigit(v)));
    }
  }

  /** Encodable versions compare as their digits do. */
  lemma DigitOrder(a: Version, b: Version)
    requires Encodable(a) && Encodable(b)
    ensures a.Less(b) <==> ToDigit(a) < ToDigit(b)
  {
    DigitIsWeight(a);
    DigitIsWeight(b);
    WeightOrder(a, b);
  }

  datatype HandshakeOutcome = Accepted | Rejected | Panicked

  /** What the client does with a server version; it asserts that the version is not zero. */
  function Tested(server: Version, required: Version): HandshakeOutcome {
    if server == MIN then Panicked else Compared(server, required)
  }

  function Compared(server: Version, required: Version): HandshakeOutcome {
    if server.Less(required) then Rejected else Accepted
  }

  /** The client's test on the number a server answers with. */
  function Handshake(protocolVersion: u64, required: Version): HandshakeOutcome {
    if protocolVersion == 0 then Panicked else Compared(FromDigit(protocolVersion), required)
  }

  lemma HandshakeTestsNumber(protocolVersion: u64, required: Version)
    ensures Handshake(protocolVersion, required) == Tested(FromDigit(protocolVersion), required)
  {
    ZeroDigit(protocolVersion);
  }

  lemma ZeroDigit(u: u64)
    ensures FromDigit(u) == MIN <==> u == 0
  {
    WeightOfNumber(u);
    WeightZero(FromDigit(u));
  }

  lemma WeightZero(v: Version)
    ensures Weight(v) == 0 <==> v == MIN
  {
  }

  /** Clients can tell two versions apart. */
  lemma TestsDiffer(a: Version, b: Version)
    ensures (forall required :: Tested(a, required) == Tested(b, required)) <==> a == b
  {
    assert a.Less(b) ==> Tested(a, b) != Tested(b, b);
    assert b.Less(a) ==> Tested(a, a) != Tested(b, a);
  }

  /** The handshake panics exactly on zero. For a server whose version is encodable and not zero it
      accepts exactly the clients that require at most that version and refuses exactly the others;
      for any other version some client is answered otherwise. */
  lemma HandshakeExactIff(server: Version)
    ensures forall u: u64, required :: Handshake(u, required) == Panicked <==> u == 0
    ensures Encodable(server) <==> forall required: Version ::
              && (Handshake(ToDigit(server), required) == Accepted <==> server != MIN && required.AtMost(server))
              && (Handshake(ToDigit(server), required) == Rejected <==> server != MIN && server.Less(required))
  {
    var digit := ToDigit(server);
    forall required ensures Handshake(digit, required) == Tested(FromDigit(digit), required) {
      HandshakeTestsNumber(digit, required);
    }
    TestsDiffer(FromDigit(digit), server);
    DigitRoundTripIff(server);
    forall required: Version
      ensures Tested(server, required) == Accepted <==> server != MIN && required.AtMost(server)
      ensures Tested(server, required) == Rejected <==> server != MIN && server.Less(required)
    {
    }
  }
}
