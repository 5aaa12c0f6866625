/** UTF-8 as the byte form of string keys: it keeps the order of strings and can be read back. */
module Utf8 {
  import opened KvTypes
  import opened Order
  import opened Strings
  import opened Wrappers

  function EncodeChar(c: char): (b: Bytes)
    ensures 1 <= |b| <= 4
  {
    var n := c as int;
    if n < 0x80 then [n]
    else if n < 0x800 then [0xC0 + n / 0x40, 0x80 + n % 0x40]
    else if n < 0x10000 then [0xE0 + n / 0x1000, 0x80 + n / 0x40 % 0x40, 0x80 + n % 0x40]
    else [0xF0 + n / 0x40000, 0x80 + n / 0x1000 % 0x40, 0x80 + n / 0x40 % 0x40, 0x80 + n % 0x40]
  }

  function Encode(s: string): Bytes {
    if s == [] then [] else EncodeChar(s[0]) + Encode(s[1..])
  }

  predicate IsContinuation(b: Byte) { 0x80 <= b < 0xC0 }

  function Join2(a: int, b: int): int { a * 0x40 + b }

  function Join3(a: int, b: int, c: int): int { Join2(a, b) * 0x40 + c }

  function Join4(a: int, b: int, c: int, d: int): int { Join3(a, b, c) * 0x40 + d }

  /** The first character of valid UTF-8 and its length: no overlong forms, no surrogates, nothing
      above U+10FFFF. */
  function DecodeChar(b: Bytes): (r: Option<(char, nat)>)
    ensures r.Some? ==> 1 <= r.value.1 <= |b|
  {
    if b == [] then None
    else if b[0] < 0x80 then Some((b[0] as char, 1))
    else if 0xC0 <= b[0] < 0xE0 && |b| >= 2 && IsContinuation(b[1]) then
      var n := Join2(b[0] - 0xC0, b[1] - 0x80);
      if n >= 0x80 then Some((n as char, 2)) else None
    else if 0xE0 <= b[0] < 0xF0 && |b| >= 3 && IsContinuation(b[1]) && IsContinuation(b[2]) then
      var n := Join3(b[0] - 0xE0, b[1] - 0x80, b[2] - 0x80);
      if n >= 0x800 && !(0xD800 <= n < 0xE000) then Some((n as char, 3)) else None
    else if 0xF0 <= b[0] < 0xF8 && |b| >= 4 && IsContinuation(b[1]) && IsContinuation(b[2]) && IsContinuation(b[3]) then
      var n := Join4(b[0] - 0xF0, b[1] - 0x80, b[2] - 0x80, b[3] - 0x80);
      if 0x10000 <= n < 0x110000 then Some((n as char, 4)) else None
    else None
  }

  function Decode(b: Bytes): Option<string>
    decreases |b|
  {
    if b == [] then Some([])
    else
      match DecodeChar(b)
      case None => None
      case Some((c, n)) => match Decode(b[n..]) case Some(s) => Some([c] + s) case None => None
  }

  // ------------------------------------------------------------ round trip

  lemma DecodeEncodeChar(c: char, tail: Bytes)
    ensures DecodeChar(EncodeChar(c) + tail) == Some((c, |EncodeChar(c)|))
  {
    var n, b := c as int, EncodeChar(c) + tail;
    if n < 0x80 {
    } else if n < 0x800 {
      assert n == n / 0x40 * 0x40 + n % 0x40;
    } else if n < 0x10000 {
      SplitThree(n);
    } else {
      SplitFour(n);
    }
  }

  lemma SplitThree(n: nat)
    ensures n == n / 0x1000 * 0x1000 + n / 0x40 % 0x40 * 0x40 + n % 0x40
  {
  }

  lemma SplitFour(n: nat)
    ensures n == n / 0x40000 * 0x40000 + n / 0x1000 % 0x40 * 0x1000 + n / 0x40 % 0x40 * 0x40 + n % 0x40
  {
    var m := n / 0x40;
    assert n == m * 0x40 + n % 0x40;
    SplitThree(m);
    assert m / 0x40 == n / 0x1000 && m / 0x1000 == n / 0x40000;
  }

  /** Six-bit groups are recovered from the number they form. */
  lemma SplitJoin(a: nat, b: nat, c: nat, d: nat)
    requires b < 0x40 && c < 0x40 && d < 0x40
    ensures Join2(a, b) / 0x40 == a && Join2(a, b) % 0x40 == b
    ensures Join3(a, b, c) / 0x1000 == a && Join3(a, b, c) / 0x40 % 0x40 == b && Join3(a, b, c) % 0x40 == c
    ensures var n := Join4(a, b, c, d);
      n / 0x40000 == a && n / 0x1000 % 0x40 == b && n / 0x40 % 0x40 == c && n % 0x40 == d
  {
    var m, n := Join3(a, b, c), Join4(a, b, c, d);
    assert m / 0x40 == Join2(a, b);
    assert n / 0x40 == m;
    assert n / 0x1000 == Join2(a, b);
  }

  lemma EncodeDecodeChar(b: Bytes)
    requires DecodeChar(b).Some?
    ensures var (c, n) := DecodeChar(b).value; EncodeChar(c) == b[..n]
  {
    var n := DecodeChar(b).value.1;
    if n == 2 {
      SplitJoin(b[0] - 0xC0, b[1] - 0x80, 0, 0);
    } else if n == 3 {
      SplitJoin(b[0] - 0xE0, b[1] - 0x80, b[2] - 0x80, 0);
      assert b[..3] == [b[0], b[1], b[2]];
    } else if n == 4 {
      SplitJoin(b[0] - 0xF0, b[1] - 0x80, b[2] - 0x80, b[3] - 0x80);
      assert b[..4] == [b[0], b[1], b[2], b[3]];
    }
  }

  /** Reading an encoded string gives the string. */
  lemma {:induction false} DecodeEncode(s: string)
    ensures Decode(Encode(s)) == Some(s)
  {
    if s != [] {
      var e, tail := EncodeChar(s[0]), Encode(s[1..]);
      DecodeEncodeChar(s[0], tail);
      assert (e + tail)[|e|..] == tail;
      DecodeEncode(s[1..]);
      assert s == [s[0]] + s[1..];
    }
  }

  /** Bytes that can be read are the encoding of what is read. */
  lemma {:induction false} EncodeDecode(b: Bytes)
    requires Decode(b).Some?
    ensures Encode(Decode(b).value) == b
    decreases |b|
  {
    if b != [] {
      var c, n := FirstDecoded(b);
      EncodeDecode(b[n..]);
      EncodeFirst(c, Decode(b[n..]).value);
      assert b == b[..n] + b[n..];
    }
  }

  lemma FirstDecoded(b: Bytes) returns (c: char, n: nat)
    requires b != [] && Decode(b).Some?
    ensures 1 <= n <= |b| && EncodeChar(c) == b[..n]
    ensures Decode(b[n..]).Some? && Decode(b).value == [c] + Decode(b[n..]).value
  {
    c, n := DecodeChar(b).value.0, DecodeChar(b).value.1;
    EncodeDecodeChar(b);
  }

  lemma {:induction false} EncodeFirst(c: char, s: string)
    ensures Encode([c] + s) == EncodeChar(c) + Encode(s)
  {
    assert ([c] + s)[1..] == s;
  }

  // ----------------------------------------------------------------- order

  /** Encodings of two characters differ at a position both have, in the order of the characters. */
  lemma CharDifference(c: char, d: char) returns (i: nat)
    requires c as int < d as int
    ensures i < |EncodeChar(c)| && i < |EncodeChar(d)|
    ensures EncodeChar(c)[..i] == EncodeChar(d)[..i] && EncodeChar(c)[i] < EncodeChar(d)[i]
  {
    var x, y := EncodeChar(c), EncodeChar(d);
    var m, n := c as int, d as int;
    i := 0;
    if |x| == |y| {
      if |x| == 3 {
        SplitThree(m);
        SplitThree(n);
      } else if |x| == 4 {
        SplitFour(m);
        SplitFour(n);
      }
      if x[0] == y[0] {
        i := 1;
        if x[1] == y[1] {
          i := 2;
          if x[2] == y[2] { i := 3; }
        }
      }
    }
  }

  /** Strings compare as their encodings do. */
  lemma {:induction false} EncodeOrder(a: string, b: string)
    ensures LexLess(Encode(a), Encode(b)) == StrLess(a, b)
  {
    if a != [] && b != [] {
      var x, y := EncodeChar(a[0]), EncodeChar(b[0]);
      var s, t := Encode(a[1..]), Encode(b[1..]);
      assert Codes(a)[1..] == Codes(a[1..]) && Codes(b)[1..] == Codes(b[1..]);
      if a[0] == b[0] {
        LexCommonPrefix(x, s, t);
        EncodeOrder(a[1..], b[1..]);
      } else if a[0] as int < b[0] as int {
        var i := CharDifference(a[0], b[0]);
        assert (x + s)[..i] == x[..i] && (y + t)[..i] == y[..i];
        LexAtFirstDifference(x + s, y + t, i);
      } else {
        var i := CharDifference(b[0], a[0]);
        assert (x + s)[..i] == x[..i] && (y + t)[..i] == y[..i];
        LexAtFirstDifference(x + s, y + t, i);
      }
    }
  }
}
