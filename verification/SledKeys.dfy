/** Keys of the on-disk tree: typed keys in ordered bytes, one prefix byte per key space. */
module SledKeys {
  import opened KvTypes
  import opened Order
  import opened Positional
  import opened Strings
  import opened Timestamps
  import opened Wrappers
  import Utf8

  /** Numbers and expiry keys are big-endian, strings are UTF-8, enumerated keys are one byte. */
  datatype Key = NumberKey(n: u64) | StringKey(s: string) | TimeKey(timeMs: u64, seqno: u64) | TagKey(tag: Byte)

  datatype Kind = Number | Text | Time | Tag

  function KindOf(k: Key): Kind {
    match k
    case NumberKey(_) => Number
    case StringKey(_) => Text
    case TimeKey(_, _) => Time
    case TagKey(_) => Tag
  }

  /** The order of keys of one kind. */
  predicate KeyLess(a: Key, b: Key)
    requires KindOf(a) == KindOf(b)
  {
    match a
    case NumberKey(n) => n < b.n
    case StringKey(s) => StrLess(s, b.s)
    case TimeKey(t, n) => t < b.timeMs || (t == b.timeMs && n < b.seqno)
    case TagKey(t) => t < b.tag
  }

  // ------------------------------------------------------------- encoding

  const U64_BYTES: nat := 8

  function BigEndian(n: u64): (b: Bytes)
    ensures |b| == U64_BYTES
  {
    Digits(n, Octets, U64_BYTES)
  }

  /** `BigEndian::write_u64` into a buffer that has room, from the last byte to the first. */
  method WriteU64(buf: array<Byte>, offset: nat, n: u64)
    requires offset + U64_BYTES <= buf.Length
    modifies buf
    ensures buf[..] == old(buf[..offset]) + BigEndian(n) + old(buf[offset + U64_BYTES..])
  {
    var rest: nat := n;
    var i := U64_BYTES;
    while i > 0
      invariant 0 <= i <= U64_BYTES && rest <= U64_MAX
      invariant Digits(rest, Octets, i) + buf[offset + i..offset + U64_BYTES] == BigEndian(n)
      invariant buf[..offset] == old(buf[..offset])
      invariant buf[offset + U64_BYTES..] == old(buf[offset + U64_BYTES..])
    {
      i := i - 1;
      ghost var tail := buf[offset + i + 1..offset + U64_BYTES];
      buf[offset + i] := rest % 256;
      assert buf[offset + i..offset + U64_BYTES] == [rest % 256] + tail;
      rest := rest / 256;
    }
    assert buf[..] == buf[..offset] + buf[offset..offset + U64_BYTES] + buf[offset + U64_BYTES..];
  }

  function EncodeKey(k: Key): Bytes {
    match k
    case NumberKey(n) => BigEndian(n)
    case StringKey(s) => Utf8.Encode(s)
    case TimeKey(t, n) => BigEndian(t) + BigEndian(n)
    case TagKey(t) => [t]
  }

  /** Serializing an expiry key in place: time, then sequence number. */
  method SerializeTimeKey(timeMs: u64, seqno: u64) returns (b: Bytes)
    ensures b == EncodeKey(TimeKey(timeMs, seqno))
  {
    var buf := new Byte[2 * U64_BYTES](_ => 0);
    WriteU64(buf, 0, timeMs);
    WriteU64(buf, U64_BYTES, seqno);
    b := buf[..];
    assert b[..U64_BYTES] == BigEndian(timeMs);
  }

  datatype DecodeError = TooShort | NotUtf8 | UnknownTag | WrongPrefix

  function ReadU64(b: Bytes): Result<u64, DecodeError> {
    if |b| < U64_BYTES then Err(TooShort) else Ok(ReadEight(b[..U64_BYTES]))
  }

  function ReadEight(b: Bytes): u64
    requires |b| == U64_BYTES
  {
    DigitsOfValue(b, Octets);
    EightBytes();
    Value(b, Octets)
  }

  lemma EightBytes()
    ensures Pow(Octets, U64_BYTES) == U64_MAX + 1
  {
    assert Pow(Octets, 4) == 0x1_0000_0000;
    assert Pow(Octets, 8) == 0x1_0000_0000_0000_0000;
  }

  /** Read a key of a kind; a tag is valid up to `maxTag`. */
  function DecodeKey(kind: Kind, maxTag: Byte, b: Bytes): Result<Key, DecodeError> {
    match kind
    case Number => (match ReadU64(b) case Ok(n) => Ok(NumberKey(n)) case Err(e) => Err(e))
    case Text => (match Utf8.Decode(b) case Some(s) => Ok(StringKey(s)) case None => Err(NotUtf8))
    case Time =>
      if |b| < 2 * U64_BYTES then Err(TooShort)
      else Ok(TimeKey(ReadEight(b[..U64_BYTES]), ReadEight(b[U64_BYTES..2 * U64_BYTES])))
    case Tag =>
      if b == [] then Err(TooShort) else if 1 <= b[0] <= maxTag then Ok(TagKey(b[0])) else Err(UnknownTag)
  }

  lemma ReadWritten(n: u64)
    ensures ReadEight(BigEndian(n)) == n
  {
    EightBytes();
    ValueOfDigits(n, Octets, U64_BYTES);
  }

  /** Reading an encoded key gives the key. */
  lemma DecodeEncodeKey(k: Key, maxTag: Byte)
    requires k.TagKey? ==> 1 <= k.tag <= maxTag
    ensures DecodeKey(KindOf(k), maxTag, EncodeKey(k)) == Ok(k)
  {
    match k
    case NumberKey(n) =>
      ReadWritten(n);
      assert BigEndian(n)[..U64_BYTES] == BigEndian(n);
    case StringKey(s) => Utf8.DecodeEncode(s);
    case TimeKey(t, n) =>
      ReadWritten(t);
      ReadWritten(n);
      var b := BigEndian(t) + BigEndian(n);
      assert b[..U64_BYTES] == BigEndian(t) && b[U64_BYTES..2 * U64_BYTES] == BigEndian(n);
    case TagKey(_) =>
  }

  lemma WriteRead(b: Bytes)
    requires |b| == U64_BYTES
    ensures BigEndian(ReadEight(b)) == b
  {
    DigitsOfValue(b, Octets);
  }

  /** All bytes: they are read as a key exactly if they are its text, or begin with its number, its
      time and number or its tag. */
  lemma DecodeExact(kind: Kind, maxTag: Byte, b: Bytes, k: Key)
    ensures DecodeKey(kind, maxTag, b) == Ok(k) <==>
              && KindOf(k) == kind && (k.TagKey? ==> 1 <= k.tag <= maxTag)
              && (if kind.Text? then EncodeKey(k) == b else EncodeKey(k) <= b)
  {
    match k
    case NumberKey(n) =>
      ReadWritten(n);
      if |b| >= U64_BYTES {
        WriteRead(b[..U64_BYTES]);
        assert BigEndian(n) <= b <==> b[..U64_BYTES] == BigEndian(n);
      }
    case StringKey(s) =>
      Utf8.DecodeEncode(s);
      if Utf8.Decode(b).Some? { Utf8.EncodeDecode(b); }
    case TimeKey(t, n) =>
      ReadWritten(t);
      ReadWritten(n);
      if |b| >= 2 * U64_BYTES { TwoNumbers(b, t, n); }
    case TagKey(_) =>
  }

  lemma TwoNumbers(b: Bytes, t: u64, n: u64)
    requires |b| >= 2 * U64_BYTES
    ensures BigEndian(t) + BigEndian(n) <= b
            <==> ReadEight(b[..U64_BYTES]) == t && ReadEight(b[U64_BYTES..2 * U64_BYTES]) == n
  {
    ReadWritten(t);
    ReadWritten(n);
    WriteRead(b[..U64_BYTES]);
    WriteRead(b[U64_BYTES..2 * U64_BYTES]);
    assert b[..2 * U64_BYTES] == b[..U64_BYTES] + b[U64_BYTES..2 * U64_BYTES];
    if BigEndian(t) + BigEndian(n) <= b {
      assert b[..U64_BYTES] == (BigEndian(t) + BigEndian(n))[..U64_BYTES];
      assert b[U64_BYTES..2 * U64_BYTES] == (BigEndian(t) + BigEndian(n))[U64_BYTES..];
    }
  }

  /** Keys of one kind compare as their encodings do. */
  lemma EncodeKeyOrder(a: Key, b: Key)
    requires KindOf(a) == KindOf(b)
    ensures LexLess(EncodeKey(a), EncodeKey(b)) == KeyLess(a, b)
    ensures EncodeKey(a) == EncodeKey(b) <==> a == b
  {
    EightBytes();
    match a
    case NumberKey(n) => DigitsOrder(n, b.n, Octets, U64_BYTES);
    case StringKey(s) =>
      Utf8.EncodeOrder(s, b.s);
      Utf8.DecodeEncode(s);
      Utf8.DecodeEncode(b.s);
    case TimeKey(t, n) =>
      DigitsOrder(t, b.timeMs, Octets, U64_BYTES);
      DigitsOrder(n, b.seqno, Octets, U64_BYTES);
      LexHeads(BigEndian(t), BigEndian(b.timeMs), BigEndian(n), BigEndian(b.seqno));
      var x, y := EncodeKey(a), EncodeKey(b);
      assert x[..U64_BYTES] == BigEndian(t) && x[U64_BYTES..] == BigEndian(n);
      assert y[..U64_BYTES] == BigEndian(b.timeMs) && y[U64_BYTES..] == BigEndian(b.seqno);
    case TagKey(t) =>
      assert [t][1..] == [] && [b.tag][1..] == [];
  }

  // ------------------------------------------------------------ key spaces

  datatype KeySpace =
    | Logs | Nodes | StateMachineMeta | RaftStateKV | Expire | GenericKV | Sequences | DataHeader | LogMeta
  {
    function Prefix(): (p: Byte)
      ensures p < 255
    {
      match this
      case Logs => 1
      case Nodes => 2
      case StateMachineMeta => 3
      case RaftStateKV => 4
      case Expire => 5
      case GenericKV => 6
      case Sequences => 7
      case DataHeader => 11
      case LogMeta => 13
    }

    function KeyKind(): Kind {
      match this
      case Logs => Number
      case Nodes => Number
      case StateMachineMeta => Tag
      case RaftStateKV => Tag
      case Expire => Time
      case GenericKV => Text
      case Sequences => Text
      case DataHeader => Text
      case LogMeta => Tag
    }

    function MaxTag(): Byte {
      match this
      case StateMachineMeta => 3
      case RaftStateKV => 4
      case LogMeta => 1
      case _ => 0
    }

    predicate Holds(k: Key) {
      KindOf(k) == KeyKind() && (k.TagKey? ==> 1 <= k.tag <= MaxTag())
    }
  }

  function SerializeKey(ks: KeySpace, k: Key): Bytes { [ks.Prefix()] + EncodeKey(k) }

  function DeserializeKey(ks: KeySpace, b: Bytes): Result<Key, DecodeError>
    requires b != []
  {
    if b[0] != ks.Prefix() then Err(WrongPrefix) else DecodeKey(ks.KeyKind(), ks.MaxTag(), b[1..])
  }

  /** A key is read back in its own space and refused in every other. */
  lemma KeySpaceRoundTrip(ks: KeySpace, k: Key, other: KeySpace)
    requires ks.Holds(k)
    ensures DeserializeKey(other, SerializeKey(ks, k)) == if other == ks then Ok(k) else Err(WrongPrefix)
  {
    assert SerializeKey(ks, k)[1..] == EncodeKey(k);
    DecodeEncodeKey(k, ks.MaxTag());
  }

  lemma {:induction false} ZeroBytes(width: nat)
    ensures Digits(0, Octets, width) == seq(width, _ => 0)
  {
    if width > 0 { ZeroBytes(width - 1); }
  }

  lemma SmallNumber(n: Byte)
    ensures BigEndian(n) == [0, 0, 0, 0, 0, 0, 0, n]
  {
    ZeroBytes(U64_BYTES - 1);
    assert BigEndian(n) == Digits(0, Octets, U64_BYTES - 1) + [n];
  }

  /** The bytes on disk of the numbered spaces, by example: a prefix byte for the space, then every
      number in eight bytes from the most significant on. */
  lemma OnDiskNumbers(n: Byte, m: Byte)
    ensures SerializeKey(Logs, NumberKey(n)) == [1, 0, 0, 0, 0, 0, 0, 0, n] && Logs.Holds(NumberKey(n))
    ensures SerializeKey(Nodes, NumberKey(n)) == [2, 0, 0, 0, 0, 0, 0, 0, n] && Nodes.Holds(NumberKey(n))
    ensures SerializeKey(Expire, TimeKey(n, m)) == [5, 0, 0, 0, 0, 0, 0, 0, n, 0, 0, 0, 0, 0, 0, 0, m]
    ensures Expire.Holds(TimeKey(n, m))
  {
    SmallNumber(n);
    SmallNumber(m);
  }

  /** The bytes on disk of the other spaces: strings as they are, enumerated keys as one byte. */
  lemma OnDiskStrings(tag: Byte)
    ensures SerializeKey(GenericKV, StringKey("a")) == [6, 97] && GenericKV.Holds(StringKey("a"))
    ensures SerializeKey(Sequences, StringKey("a")) == [7, 97] && Sequences.Holds(StringKey("a"))
    ensures SerializeKey(DataHeader, StringKey("a")) == [11, 97] && DataHeader.Holds(StringKey("a"))
    ensures SerializeKey(StateMachineMeta, TagKey(tag)) == [3, tag]
    ensures SerializeKey(RaftStateKV, TagKey(tag)) == [4, tag]
    ensures SerializeKey(LogMeta, TagKey(tag)) == [13, tag]
    ensures StateMachineMeta.Holds(TagKey(tag)) <==> 1 <= tag <= 3
    ensures RaftStateKV.Holds(TagKey(tag)) <==> 1 <= tag <= 4
    ensures LogMeta.Holds(TagKey(tag)) <==> tag == 1
  {
    assert Utf8.Encode("a") == [97] by { assert "a"[1..] == []; }
  }

  /** The spaces of the state machine, in the order in which a stored key is tried against them. */
  const SM_ENTRY_SPACES: seq<KeySpace> := [DataHeader, Nodes, StateMachineMeta, Expire, GenericKV, Sequences]

  const RAFT_STORE_ENTRY_SPACES: seq<KeySpace> :=
    [DataHeader, Logs, Nodes, StateMachineMeta, RaftStateKV, Expire, GenericKV, Sequences, LogMeta]

  /** The first space whose prefix the bytes carry decides how the rest is read. */
  function Dispatch(spaces: seq<KeySpace>, b: Bytes): Option<(KeySpace, Result<Key, DecodeError>)>
    requires b != []
  {
    if spaces == [] then None
    else if spaces[0].Prefix() == b[0]
    then Some((spaces[0], DecodeKey(spaces[0].KeyKind(), spaces[0].MaxTag(), b[1..])))
    else Dispatch(spaces[1..], b)
  }

  /** Dispatch on the prefix finds the space a key was written to, whatever the order of trial. */
  lemma {:induction false} DispatchFinds(spaces: seq<KeySpace>, ks: KeySpace, k: Key)
    requires ks.Holds(k)
    ensures Dispatch(spaces, SerializeKey(ks, k)) == if ks in spaces then Some((ks, Ok(k))) else None
  {
    if spaces != [] {
      if spaces[0] == ks {
        assert SerializeKey(ks, k)[1..] == EncodeKey(k);
        DecodeEncodeKey(k, ks.MaxTag());
      } else {
        assert ks in spaces <==> ks in spaces[1..];
        DispatchFinds(spaces[1..], ks, k);
      }
    }
  }

  /** A raft store entry is read back from every space, a state machine entry from all but the
      three spaces of the log and the raft state. */
  lemma EntryDispatch(ks: KeySpace, k: Key)
    requires ks.Holds(k)
    ensures Dispatch(RAFT_STORE_ENTRY_SPACES, SerializeKey(ks, k)) == Some((ks, Ok(k)))
    ensures Dispatch(SM_ENTRY_SPACES, SerializeKey(ks, k))
            == if ks in {Logs, LogMeta, RaftStateKV} then None else Some((ks, Ok(k)))
  {
    DispatchFinds(RAFT_STORE_ENTRY_SPACES, ks, k);
    DispatchFinds(SM_ENTRY_SPACES, ks, k);
    assert RAFT_STORE_ENTRY_SPACES ==
      [DataHeader, Logs, Nodes, StateMachineMeta, RaftStateKV, Expire, GenericKV, Sequences, LogMeta];
    assert SM_ENTRY_SPACES == [DataHeader, Nodes, StateMachineMeta, Expire, GenericKV, Sequences];
  }

  // ---------------------------------------------------------------- ranges

  datatype Bound<T> = Included(v: T) | Excluded(v: T) | Unbounded

  predicate AboveBytes(b: Bytes, lo: Bound<Bytes>) {
    match lo
    case Included(v) => v == b || LexLess(v, b)
    case Excluded(v) => LexLess(v, b)
    case Unbounded => true
  }

  predicate BelowBytes(b: Bytes, hi: Bound<Bytes>) {
    match hi
    case Included(v) => v == b || LexLess(b, v)
    case Excluded(v) => LexLess(b, v)
    case Unbounded => true
  }

  predicate AboveKey(k: Key, lo: Bound<Key>)
    requires !lo.Unbounded? ==> KindOf(lo.v) == KindOf(k)
  {
    match lo
    case Included(v) => v == k || KeyLess(v, k)
    case Excluded(v) => KeyLess(v, k)
    case Unbounded => true
  }

  predicate BelowKey(k: Key, hi: Bound<Key>)
    requires !hi.Unbounded? ==> KindOf(hi.v) == KindOf(k)
  {
    match hi
    case Included(v) => v == k || KeyLess(k, v)
    case Excluded(v) => KeyLess(k, v)
    case Unbounded => true
  }

  /** An open end becomes the end of the key space: its prefix, or the prefix after it. */
  function SerializeBound(ks: KeySpace, bound: Bound<Key>, left: bool): Bound<Bytes> {
    match bound
    case Included(k) => Included(SerializeKey(ks, k))
    case Excluded(k) => Excluded(SerializeKey(ks, k))
    case Unbounded => if left then Included([ks.Prefix()]) else Excluded([ks.Prefix() + 1])
  }

  lemma {:induction false} PrefixDecides(p: Byte, a: Bytes, q: Byte, b: Bytes)
    ensures LexLess([p] + a, [q] + b) == (p < q || (p == q && LexLess(a, b)))
  {
    assert ([p] + a)[1..] == a && ([q] + b)[1..] == b;
  }

  lemma LowerBoundExact(ks: KeySpace, lo: Bound<Key>, other: KeySpace, k: Key)
    requires other.Holds(k) && (!lo.Unbounded? ==> ks.Holds(lo.v))
    ensures AboveBytes(SerializeKey(other, k), SerializeBound(ks, lo, true))
            <==> ks.Prefix() < other.Prefix() || (ks == other && AboveKey(k, lo))
  {
    match lo
    case Unbounded =>
      assert [ks.Prefix()] + [] == [ks.Prefix()];
      PrefixDecides(ks.Prefix(), [], other.Prefix(), EncodeKey(k));
    case _ =>
      PrefixDecides(ks.Prefix(), EncodeKey(lo.v), other.Prefix(), EncodeKey(k));
      if ks == other {
        EncodeKeyOrder(lo.v, k);
        SameSpace(ks, lo.v, k);
      }
  }

  lemma UpperBoundExact(ks: KeySpace, hi: Bound<Key>, other: KeySpace, k: Key)
    requires other.Holds(k) && (!hi.Unbounded? ==> ks.Holds(hi.v))
    ensures BelowBytes(SerializeKey(other, k), SerializeBound(ks, hi, false))
            <==> other.Prefix() < ks.Prefix() || (ks == other && BelowKey(k, hi))
  {
    match hi
    case Unbounded =>
      assert [ks.Prefix() + 1] + [] == [ks.Prefix() + 1];
      PrefixDecides(other.Prefix(), EncodeKey(k), ks.Prefix() + 1, []);
    case _ =>
      PrefixDecides(other.Prefix(), EncodeKey(k), ks.Prefix(), EncodeKey(hi.v));
      if ks == other {
        EncodeKeyOrder(k, hi.v);
        SameSpace(ks, hi.v, k);
      }
  }

  lemma SameSpace(ks: KeySpace, a: Key, b: Key)
    requires KindOf(a) == KindOf(b)
    ensures SerializeKey(ks, a) == SerializeKey(ks, b) <==> a == b
  {
    EncodeKeyOrder(a, b);
    assert SerializeKey(ks, a)[1..] == EncodeKey(a) && SerializeKey(ks, b)[1..] == EncodeKey(b);
  }

  /** A stored key of any space lies in the byte range of a key range exactly when it belongs to
      that space and its key is in the range. */
  lemma RangeExact(ks: KeySpace, lo: Bound<Key>, hi: Bound<Key>, other: KeySpace, k: Key)
    requires other.Holds(k)
    requires (!lo.Unbounded? ==> ks.Holds(lo.v)) && (!hi.Unbounded? ==> ks.Holds(hi.v))
    ensures AboveBytes(SerializeKey(other, k), SerializeBound(ks, lo, true))
            && BelowBytes(SerializeKey(other, k), SerializeBound(ks, hi, false))
            <==> other == ks && AboveKey(k, lo) && BelowKey(k, hi)
  {
    LowerBoundExact(ks, lo, other, k);
    UpperBoundExact(ks, hi, other, k);
  }
}
