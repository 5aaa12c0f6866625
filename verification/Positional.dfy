/** Positional notation in radix ten and 256: big-endian digits of fixed width (byte encodings,
    zero-padded decimals) and the shortest decimal form. */
module Positional {
  import opened Order

  datatype Radix = Ten | Octets {
    function Size(): (n: nat) ensures n >= 2 { match this case Ten => 10 case Octets => 256 }

    function Times(n: nat): (m: nat)
      ensures m >= n
    {
      match this case Ten => n * 10 case Octets => n * 256
    }

    function Quotient(n: nat): (q: nat)
      ensures q <= n
    {
      match this case Ten => n / 10 case Octets => n / 256
    }

    function Remainder(n: nat): (m: nat)
      ensures m < Size()
    {
      match this case Ten => n % 10 case Octets => n % 256
    }
  }

  /** `radix` to the power of `e`. */
  function Pow(radix: Radix, e: nat): nat {
    if e == 0 then 1 else radix.Times(Pow(radix, e - 1))
  }

  /** The `width` least significant digits of `n`, most significant first. */
  function Digits(n: nat, radix: Radix, width: nat): (d: seq<nat>)
    ensures |d| == width && forall i :: 0 <= i < width ==> d[i] < radix.Size()
  {
    if width == 0 then [] else Digits(radix.Quotient(n), radix, width - 1) + [radix.Remainder(n)]
  }

  /** The number a digit sequence denotes. */
  function Value(d: seq<nat>, radix: Radix): nat {
    if d == [] then 0 else radix.Times(Value(d[..|d| - 1], radix)) + d[|d| - 1]
  }

  /** The shortest decimal digits of `n`: no leading zero except for zero itself. */
  function Decimal(n: nat): (d: seq<nat>)
    ensures d != [] && (|d| > 1 ==> d[0] != 0)
    ensures forall i :: 0 <= i < |d| ==> d[i] < 10
  {
    if n < 10 then [n] else Decimal(n / 10) + [n % 10]
  }

  /** Division with remainder inverts multiplication and addition, and orders as the parts do. */
  lemma Division(radix: Radix, a: nat, b: nat, q: nat, r: nat)
    requires r < radix.Size()
    ensures a == radix.Times(radix.Quotient(a)) + radix.Remainder(a)
    ensures radix.Quotient(radix.Times(q) + r) == q && radix.Remainder(radix.Times(q) + r) == r
    ensures a < radix.Times(q) ==> radix.Quotient(a) < q
    ensures a < b <==> radix.Quotient(a) < radix.Quotient(b)
                       || (radix.Quotient(a) == radix.Quotient(b) && radix.Remainder(a) < radix.Remainder(b))
  {
  }

  /** Reading back the digits written gives the number. */
  lemma {:induction false} ValueOfDigits(n: nat, radix: Radix, width: nat)
    requires n < Pow(radix, width)
    ensures Value(Digits(n, radix, width), radix) == n
  {
    if width > 0 {
      Division(radix, n, n, Pow(radix, width - 1), 0);
      ValueOfDigits(radix.Quotient(n), radix, width - 1);
      var d := Digits(n, radix, width);
      assert d[..|d| - 1] == Digits(radix.Quotient(n), radix, width - 1);
    }
  }

  /** Writing the number read gives back the digits. */
  lemma {:induction false} DigitsOfValue(d: seq<nat>, radix: Radix)
    requires forall i :: 0 <= i < |d| ==> d[i] < radix.Size()
    ensures Value(d, radix) < Pow(radix, |d|)
    ensures Digits(Value(d, radix), radix, |d|) == d
  {
    if d != [] {
      var init, last := d[..|d| - 1], d[|d| - 1];
      DigitsOfValue(init, radix);
      Division(radix, 0, 0, Value(init, radix), last);
      assert d == init + [last];
    }
  }

  /** Fixed-width digits compare lexicographically as the numbers compare. */
  lemma {:induction false} DigitsOrder(a: nat, b: nat, radix: Radix, width: nat)
    requires a < Pow(radix, width) && b < Pow(radix, width)
    ensures LexLess(Digits(a, radix, width), Digits(b, radix, width)) == (a < b)
    ensures Digits(a, radix, width) == Digits(b, radix, width) <==> a == b
  {
    if width > 0 {
      var qa, qb := radix.Quotient(a), radix.Quotient(b);
      Division(radix, a, b, Pow(radix, width - 1), 0);
      Division(radix, b, a, Pow(radix, width - 1), 0);
      DigitsOrder(qa, qb, radix, width - 1);
      LastDigitOrder(Digits(qa, radix, width - 1), Digits(qb, radix, width - 1),
                     radix.Remainder(a), radix.Remainder(b));
    }
  }

  lemma {:induction false} LastDigitOrder(x: seq<nat>, y: seq<nat>, c: nat, d: nat)
    requires |x| == |y|
    ensures LexLess(x + [c], y + [d]) == (LexLess(x, y) || (x == y && c < d))
    ensures x + [c] == y + [d] <==> x == y && c == d
  {
    LexHeads(x, y, [c], [d]);
    assert LexLess([c], [d]) == (c < d);
    assert (x + [c])[..|x|] == x && (y + [d])[..|y|] == y;
    assert (x + [c])[|x|] == c && (y + [d])[|y|] == d;
  }

  /** Digits without a leading zero are the shortest form of the number they denote. */
  lemma {:induction false} DecimalOfValue(d: seq<nat>)
    requires d != [] && (|d| > 1 ==> d[0] != 0) && forall i :: 0 <= i < |d| ==> d[i] < 10
    ensures Decimal(Value(d, Ten)) == d && (d[0] != 0 ==> Value(d, Ten) > 0)
  {
    var init, last := d[..|d| - 1], d[|d| - 1];
    assert d == init + [last];
    if init != [] {
      DecimalOfValue(init);
      DecimalGrows(Value(init, Ten), last);
    } else {
      assert Value(init, Ten) == 0;
    }
  }

  lemma DecimalGrows(n: nat, digit: nat)
    requires n > 0 && digit < 10
    ensures Decimal(n * 10 + digit) == Decimal(n) + [digit] && Ten.Times(n) == n * 10
  {
    assert (n * 10 + digit) / 10 == n && (n * 10 + digit) % 10 == digit;
  }

  lemma {:induction false} ValueOfDecimal(n: nat)
    ensures Value(Decimal(n), Ten) == n
  {
    if n < 10 {
      assert [n][..0] == [];
      assert Value([n], Ten) == Ten.Times(Value([], Ten)) + n;
    } else {
      ValueOfDecimal(n / 10);
      var d := Decimal(n);
      assert d[..|d| - 1] == Decimal(n / 10);
    }
  }
}
