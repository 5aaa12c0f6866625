/** Counters stored as JSON numbers and the sorted keys generated from them. */
module SequentialKeys {
  import opened KvTypes
  import opened Positional
  import opened Order
  import opened Strings
  import opened Timestamps

  // ------------------------------------------------------ JSON counters

  const ZERO := '0' as int

  predicate IsSpace(b: int) { b == 0x20 || b == 0x0A || b == 0x0D || b == 0x09 }

  predicate IsDigit(b: int) { ZERO <= b < ZERO + 10 }

  function TrimLeft(b: Bytes): Bytes {
    if b != [] && IsSpace(b[0]) then TrimLeft(b[1..]) else b
  }

  function TrimRight(b: Bytes): Bytes {
    if b != [] && IsSpace(b[|b| - 1]) then TrimRight(b[..|b| - 1]) else b
  }

  predicate IsJsonInteger(b: Bytes) {
    && b != []
    && (forall i :: 0 <= i < |b| ==> IsDigit(b[i]))
    && (|b| > 1 ==> b[0] != ZERO)
  }

  function DigitValues(b: Bytes): (d: seq<nat>)
    requires forall i :: 0 <= i < |b| ==> IsDigit(b[i])
  {
    seq(|b|, i requires 0 <= i < |b| => DigitValue(b[i]))
  }

  function DigitValue(b: int): nat
    requires IsDigit(b)
  {
    b - ZERO
  }

  /** A JSON number that fits in 64 bits, optionally surrounded by blanks; zero otherwise. */
  function ParseJsonU64(b: Bytes): u64 {
    var t := TrimRight(TrimLeft(b));
    if IsJsonInteger(t) && Value(DigitValues(t), Ten) <= U64_MAX then Value(DigitValues(t), Ten) else 0
  }

  function FormatJsonU64(n: u64): Bytes {
    seq(|Decimal(n)|, i requires 0 <= i < |Decimal(n)| => Decimal(n)[i] + ZERO)
  }

  /** A counter written is read back. */
  lemma JsonU64RoundTrip(n: u64)
    ensures ParseJsonU64(FormatJsonU64(n)) == n
  {
    var b := FormatJsonU64(n);
    assert b[0] == Decimal(n)[0] + ZERO && b[|b| - 1] == Decimal(n)[|b| - 1] + ZERO;
    assert TrimLeft(b) == b && TrimRight(b) == b;
    assert forall i :: 0 <= i < |b| ==> IsDigit(b[i]);
    assert DigitValues(b) == Decimal(n);
    ValueOfDecimal(n);
  }

  predicate Blanks(b: Bytes) { forall i :: 0 <= i < |b| ==> b[i] in {0x20, 0x0A, 0x0D, 0x09} }

  /** A positive number is read exactly from its shortest decimal form between blanks; everything else
      reads as zero. */
  lemma JsonU64Meaning(b: Bytes, n: u64)
    requires n > 0
    ensures ParseJsonU64(b) == n
            <==> exists x: Bytes, y: Bytes :: Blanks(x) && Blanks(y) && b == x + FormatJsonU64(n) + y
  {
    if ParseJsonU64(b) == n {
      var x, y := Trimmed(b);
      var t := TrimRight(TrimLeft(b));
      DecimalOfValue(DigitValues(t));
      assert t == FormatJsonU64(n);
    }
    if x: Bytes, y: Bytes :| Blanks(x) && Blanks(y) && b == x + FormatJsonU64(n) + y {
      TrimPadded(x, FormatJsonU64(n), y);
      JsonU64RoundTrip(n);
    }
  }

  /** What trimming removes is blank. */
  lemma Trimmed(b: Bytes) returns (x: Bytes, y: Bytes)
    ensures Blanks(x) && Blanks(y) && b == x + TrimRight(TrimLeft(b)) + y
  {
    x := TrimmedLeft(b);
    y := TrimmedRight(TrimLeft(b));
  }

  lemma {:induction false} TrimmedLeft(b: Bytes) returns (x: Bytes)
    ensures Blanks(x) && b == x + TrimLeft(b)
  {
    x := [];
    if b != [] && IsSpace(b[0]) {
      var rest := TrimmedLeft(b[1..]);
      x := [b[0]] + rest;
    }
  }

  lemma {:induction false} TrimmedRight(b: Bytes) returns (y: Bytes)
    ensures Blanks(y) && b == TrimRight(b) + y
  {
    y := [];
    if b != [] && IsSpace(b[|b| - 1]) {
      var rest := TrimmedRight(b[..|b| - 1]);
      y := rest + [b[|b| - 1]];
    }
  }

  lemma {:induction false} TrimPadded(x: Bytes, t: Bytes, y: Bytes)
    requires Blanks(x) && Blanks(y) && t != [] && IsDigit(t[0]) && IsDigit(t[|t| - 1])
    ensures TrimRight(TrimLeft(x + t + y)) == t
  {
    assert x + t + y == x + (t + y);
    TrimLeftPadded(x, t + y);
    TrimRightPadded(t, y);
  }

  lemma {:induction false} TrimLeftPadded(x: Bytes, t: Bytes)
    requires Blanks(x) && t != [] && IsDigit(t[0])
    ensures TrimLeft(x + t) == t
  {
    if x == [] {
      assert x + t == t;
    } else {
      assert (x + t)[1..] == x[1..] + t;
      TrimLeftPadded(x[1..], t);
    }
  }

  lemma {:induction false} TrimRightPadded(t: Bytes, y: Bytes)
    requires Blanks(y) && t != [] && IsDigit(t[|t| - 1])
    ensures TrimRight(t + y) == t
  {
    if y == [] {
      assert t + y == t;
    } else {
      assert (t + y)[..|t + y| - 1] == t + y[..|y| - 1];
      TrimRightPadded(t, y[..|y| - 1]);
    }
  }

  // ------------------------------------------------- sequential keys

  function DigitChar(d: nat): char
    requires d < 10
  {
    (d + ZERO) as char
  }

  /** A separator stands before every third digit but the first; `i` digits precede. */
  function Separator(i: nat): string { if i > 0 && i % 3 == 0 then "_" else "" }

  /** Digits with a separator, possibly empty, before each. */
  function Grouped(d: seq<nat>, separator: nat -> string, i: nat): string
    requires forall j :: 0 <= j < |d| ==> d[j] < 10
  {
    if d == [] then "" else separator(i) + [DigitChar(d[0])] + Grouped(d[1..], separator, i + 1)
  }

  const SEQ_DIGITS: nat := 21

  /** Twenty-one decimal digits in groups of three. */
  function FormatSeqNumber(n: u64): string { Grouped(Digits(n, Ten, SEQ_DIGITS), Separator, 0) }

  function BuildKey(prefix: string, n: u64): string { prefix + FormatSeqNumber(n) }

  /** The fold that pushes separators and digits onto a growing string. */
  method GroupByFolding(d: seq<nat>) returns (acc: string)
    requires forall j :: 0 <= j < |d| ==> d[j] < 10
    ensures acc == Grouped(d, Separator, 0)
  {
    acc := "";
    assert d[0..] == d;
    for i := 0 to |d|
      invariant acc + Grouped(d[i..], Separator, i) == Grouped(d, Separator, 0)
    {
      GroupedFirst(acc, d, Separator, i);
      var separated := acc;
      if i > 0 && i % 3 == 0 { separated := separated + "_"; }
      assert separated == acc + Separator(i);
      acc := separated + [DigitChar(d[i])];
    }
  }

  lemma GroupedFirst(acc: string, d: seq<nat>, separator: nat -> string, i: nat)
    requires forall j :: 0 <= j < |d| ==> d[j] < 10
    requires i < |d|
    ensures acc + Grouped(d[i..], separator, i)
            == acc + separator(i) + [DigitChar(d[i])] + Grouped(d[i + 1..], separator, i + 1)
  {
    assert d[i..][1..] == d[i + 1..];
  }

  /** The number of a sequential key: its digits without the separators. */
  function Ungrouped(s: string): seq<nat> {
    if s == "" then []
    else if IsDigit(s[0] as int) then [DigitValue(s[0] as int)] + Ungrouped(s[1..])
    else Ungrouped(s[1..])
  }

  function ParseSeqNumber(s: string): nat { Value(Ungrouped(s), Ten) }

  lemma {:induction false} UngroupGrouped(d: seq<nat>, separator: nat -> string, i: nat)
    requires forall j :: 0 <= j < |d| ==> d[j] < 10
    requires forall j :: separator(j) in {"", "_"}
    ensures Ungrouped(Grouped(d, separator, i)) == d
  {
    if d != [] {
      UngroupGrouped(d[1..], separator, i + 1);
      var sep, tail := separator(i), [DigitChar(d[0])] + Grouped(d[1..], separator, i + 1);
      assert tail[1..] == Grouped(d[1..], separator, i + 1);
      assert Ungrouped(tail) == d;
      assert Grouped(d, separator, i) == sep + tail;
      assert sep == "_" ==> (sep + tail)[1..] == tail;
      assert sep == "" ==> sep + tail == tail;
    }
  }

  /** Separators stand at the same places in all numbers, so they never decide a comparison. */
  lemma {:induction false} GroupedOrder(a: seq<nat>, b: seq<nat>, separator: nat -> string, i: nat)
    requires |a| == |b|
    requires forall j :: 0 <= j < |a| ==> a[j] < 10 && b[j] < 10
    ensures StrLess(Grouped(a, separator, i), Grouped(b, separator, i)) == LexLess(a, b)
  {
    if a != [] {
      var x, y := Grouped(a[1..], separator, i + 1), Grouped(b[1..], separator, i + 1);
      GroupedOrder(a[1..], b[1..], separator, i + 1);
      GroupedCons(a, separator, i);
      GroupedCons(b, separator, i);
      FirstDigitOrder(separator(i), a[0], x, b[0], y);
    }
  }

  lemma GroupedCons(d: seq<nat>, separator: nat -> string, i: nat)
    requires d != [] && forall j :: 0 <= j < |d| ==> d[j] < 10
    ensures Grouped(d, separator, i) == separator(i) + ([DigitChar(d[0])] + Grouped(d[1..], separator, i + 1))
  {
  }

  lemma FirstDigitOrder(sep: string, c: nat, x: string, d: nat, y: string)
    requires c < 10 && d < 10
    ensures StrLess(sep + ([DigitChar(c)] + x), sep + ([DigitChar(d)] + y))
            == if c == d then StrLess(x, y) else c < d
  {
    StrCommonPrefix(sep, [DigitChar(c)] + x, [DigitChar(d)] + y);
    StrHeads(DigitChar(c), x, DigitChar(d), y);
  }

  function SeparatorsIn(n: nat): nat { if n == 0 then 0 else (n - 1) / 3 }

  lemma SeparatorCount(i: nat)
    ensures |Separator(i)| == SeparatorsIn(i + 1) - SeparatorsIn(i)
  {
  }

  lemma {:induction false} GroupedLength(d: seq<nat>, i: nat)
    requires forall j :: 0 <= j < |d| ==> d[j] < 10
    ensures |Grouped(d, Separator, i)| == |d| + SeparatorsIn(i + |d|) - SeparatorsIn(i)
  {
    if d != [] {
      SeparatorCount(i);
      GroupedLength(d[1..], i + 1);
    }
  }

  lemma WidthHoldsU64()
    ensures U64_MAX < Pow(Ten, SEQ_DIGITS)
  {
    assert Pow(Ten, 7) == 10_000_000;
    assert Pow(Ten, 14) == 100_000_000_000_000;
    assert Pow(Ten, 21) == 1_000_000_000_000_000_000_000;
  }

  lemma FormatOrder(n: u64, m: u64)
    ensures StrLess(FormatSeqNumber(n), FormatSeqNumber(m)) <==> n < m
  {
    WidthHoldsU64();
    GroupedOrder(Digits(n, Ten, SEQ_DIGITS), Digits(m, Ten, SEQ_DIGITS), Separator, 0);
    DigitsOrder(n, m, Ten, SEQ_DIGITS);
  }

  lemma FormatRoundTrip(n: u64)
    ensures |FormatSeqNumber(n)| == 27 && ParseSeqNumber(FormatSeqNumber(n)) == n
  {
    WidthHoldsU64();
    GroupedLength(Digits(n, Ten, SEQ_DIGITS), 0);
    UngroupGrouped(Digits(n, Ten, SEQ_DIGITS), Separator, 0);
    ValueOfDigits(n, Ten, SEQ_DIGITS);
  }

  /** The character at place `p` of digits grouped from place `i` on: every fourth, counted from the
      start of a group, separates. */
  lemma {:induction false} GroupedForm(d: seq<nat>, i: nat, p: nat)
    requires forall j :: 0 <= j < |d| ==> d[j] < 10
    requires p < |Grouped(d, Separator, i)|
    ensures var c, q := Grouped(d, Separator, i)[p], p + i + SeparatorsIn(i);
      if q % 4 == 3 then c == '_' else '0' <= c <= '9'
  {
    SeparatorCount(i);
    var w := |Separator(i)| + 1;
    if p >= w { GroupedForm(d[1..], i + 1, p - w); }
  }

  /** Groups of three decimal digits, with underscores between them. */
  lemma FormatForm(n: u64)
    ensures var s := FormatSeqNumber(n);
      |s| == 27 && forall p :: 0 <= p < 27 ==> if p % 4 == 3 then s[p] == '_' else '0' <= s[p] <= '9'
  {
    GroupedLength(Digits(n, Ten, SEQ_DIGITS), 0);
    forall p | 0 <= p < 27
      ensures var c := FormatSeqNumber(n)[p]; if p % 4 == 3 then c == '_' else '0' <= c <= '9'
    {
      GroupedForm(Digits(n, Ten, SEQ_DIGITS), 0, p);
    }
  }

  /** Keys generated under one prefix have one length, sort as their numbers do, and give the
      number back. */
  lemma SequentialKeyOrder(prefix: string, n: u64, m: u64)
    ensures |BuildKey(prefix, n)| == |prefix| + 27
    ensures StrLess(BuildKey(prefix, n), BuildKey(prefix, m)) <==> n < m
    ensures BuildKey(prefix, n) == BuildKey(prefix, m) <==> n == m
    ensures ParseSeqNumber(BuildKey(prefix, n)[|prefix|..]) == n
  {
    FormatOrder(n, m);
    FormatRoundTrip(n);
    FormatRoundTrip(m);
    StrCommonPrefix(prefix, FormatSeqNumber(n), FormatSeqNumber(m));
    assert BuildKey(prefix, n)[|prefix|..] == FormatSeqNumber(n);
    assert BuildKey(prefix, m)[|prefix|..] == FormatSeqNumber(m);
  }
}
