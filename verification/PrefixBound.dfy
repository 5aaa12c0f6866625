/** Listing keys by prefix: the half-open key range that `list_kv` reads. */
module PrefixBound {
  import opened Order
  import opened Strings
  import opened Wrappers

  const MAX_CHAR: char := '\U{10FFFF}'
  const BEFORE_SURROGATES: char := '\U{D7FF}'

  /** `char::from_u32(c + 1)`: the surrogate range is no character. */
  function NextChar(c: char): (r: Option<char>)
    requires c != MAX_CHAR
    ensures r.Some? ==> r.value as int == c as int + 1
    ensures r.None? <==> c == BEFORE_SURROGATES
  {
    if c == BEFORE_SURROGATES then None else Some((c as int + 1) as char)
  }

  /** Raise the last character that can be raised and drop what follows it. */
  function PrefixRightBound(p: string): Option<string> {
    if p == [] then None
    else
      var init, last := p[..|p| - 1], p[|p| - 1];
      if last == MAX_CHAR then PrefixRightBound(init)
      else match NextChar(last)
           case Some(c) => Some(init + [c])
           case None => None
  }

  /** The loop that scans backwards, raises one character in place and truncates. */
  method ScanRightBound(p: string) returns (r: Option<string>)
    ensures r == PrefixRightBound(p)
  {
    var chars := new char[|p|](i requires 0 <= i < |p| => p[i]);
    var i := |p|;
    assert p[..i] == p;
    while i > 0
      invariant 0 <= i <= |p| && chars[..] == p
      invariant PrefixRightBound(p) == PrefixRightBound(p[..i])
    {
      i := i - 1;
      assert p[..i + 1][..i] == p[..i];
      if chars[i] != MAX_CHAR {
        var next := NextChar(chars[i]);
        if next.Some? {
          chars[i] := next.value;
          assert chars[..i + 1] == p[..i] + [next.value];
          return Some(chars[..i + 1]);
        } else {
          return None;
        }
      }
    }
    return None;
  }

  /** `k` lies in the range read for prefix `p`: `p..right`, or `p..` without a right bound. */
  predicate InListRange(p: string, k: string) {
    && !StrLess(k, p)
    && (PrefixRightBound(p).Some? ==> StrLess(k, PrefixRightBound(p).value))
  }

  /** The last character of `p` that is not U+10FFFF is U+D7FF, so it has no successor. */
  predicate EndsBeforeSurrogates(p: string) {
    p != [] && (p[|p| - 1] == BEFORE_SURROGATES ||
                (p[|p| - 1] == MAX_CHAR && EndsBeforeSurrogates(p[..|p| - 1])))
  }

  /** The range of an unexceptional prefix holds exactly the keys that start with it. */
  lemma {:induction false} RangeIsPrefix(p: string, k: string)
    requires !EndsBeforeSurrogates(p)
    ensures InListRange(p, k) <==> p <= k
  {
    if p != [] {
      var init, last := p[..|p| - 1], p[|p| - 1];
      assert p == init + [last];
      if last == MAX_CHAR {
        RangeIsPrefix(init, k);
        ExtendByMax(init, k);
      } else {
        SuccessorRange(init, last, (last as int + 1) as char, k);
      }
    } else {
      assert Codes(p) == [];
    }
  }

  lemma StartsWithTail(p: string, k: string)
    requires p <= k
    ensures k == p + k[|p|..]
  {
  }

  lemma SingleChar(t: string, c: char)
    ensures StrLess(t, [c]) == (t == [] || (t[0] as int) < (c as int))
  {
    var x, y := Codes(t), Codes([c]);
    assert y == [c as int] && y[1..] == [];
    assert t != [] ==> !LexLess(x[1..], y[1..]);
  }

  /** Between `p` and `p` with its last character raised lie exactly the extensions of `p`. */
  lemma SuccessorRange(init: string, c: char, d: char, k: string)
    requires d as int == c as int + 1
    ensures !StrLess(k, init + [c]) && StrLess(k, init + [d]) <==> init + [c] <= k
  {
    if init <= k {
      var t := k[|init|..];
      StartsWithTail(init, k);
      StrCommonPrefix(init, t, [c]);
      StrCommonPrefix(init, t, [d]);
      SingleChar(t, c);
      SingleChar(t, d);
      assert t != [] ==> (init + [c] <= k <==> t[0] == c);
    } else {
      OutsideBoth(init, [c], [d], k);
    }
  }

  /** A string that does not start with `init` is on the same side of all its extensions. */
  lemma OutsideBoth(init: string, x: string, y: string, k: string)
    requires !(init <= k)
    ensures StrLess(k, init + x) == StrLess(k, init + y)
  {
    CodesConcat(init, x);
    CodesConcat(init, y);
    CodesPrefix(init, k);
    LexOutside(Codes(init), Codes(x), Codes(y), Codes(k));
  }

  /** Adding U+10FFFF to a prefix keeps the right bound and raises the left one just enough. */
  lemma ExtendByMax(init: string, k: string)
    requires InListRange(init, k) <==> init <= k
    ensures InListRange(init + [MAX_CHAR], k) <==> init + [MAX_CHAR] <= k
  {
    var p := init + [MAX_CHAR];
    assert p[..|p| - 1] == init;
    assert PrefixRightBound(p) == PrefixRightBound(init);
    if init <= k {
      var t := k[|init|..];
      StartsWithTail(init, k);
      StrCommonPrefix(init, t, [MAX_CHAR]);
      SingleChar(t, MAX_CHAR);
      assert t != [] ==> (p <= k <==> t[0] == MAX_CHAR);
    } else {
      OutsideBoth(init, [MAX_CHAR], [], k);
      assert init + [] == init;
    }
  }

  /** Some key outside the prefix is read when the prefix ends before the surrogates. */
  lemma {:induction false} RangeTooWide(p: string) returns (k: string)
    requires EndsBeforeSurrogates(p)
    ensures PrefixRightBound(p) == None
    ensures !(p <= k) && StrLess(p, k) && InListRange(p, k)
  {
    var init, last := p[..|p| - 1], p[|p| - 1];
    assert p == init + [last];
    StrLessIsTotal();
    if last == MAX_CHAR {
      k := RangeTooWide(init);
      OutsideBoth'(init, [last], k);
    } else {
      k := init + ['\U{E000}'];
      StrCommonPrefix(init, [last], ['\U{E000}']);
      assert Codes([last])[0] < Codes(['\U{E000}'])[0];
      assert k[|init|] != last;
    }
  }

  /** A string above `init` that does not start with it is above every extension of `init`. */
  lemma OutsideBoth'(init: string, x: string, k: string)
    requires !(init <= k) && StrLess(init, k)
    ensures StrLess(init + x, k) && !(init + x <= k)
  {
    StrLessIsTotal();
    OutsideBoth(init, x, [], k);
    assert init + [] == init;
    assert init <= init + x;
  }

  lemma {:induction false} UnboundedIff(p: string)
    ensures EndsBeforeSurrogates(p) ==> PrefixRightBound(p) == None
  {
    if p != [] { UnboundedIff(p[..|p| - 1]); }
  }

  /** A key that starts with the prefix is read, whatever the prefix. */
  lemma PrefixInRange(p: string, k: string)
    requires p <= k
    ensures InListRange(p, k)
  {
    if EndsBeforeSurrogates(p) {
      UnboundedIff(p);
      StartsWithTail(p, k);
      StrCommonPrefix(p, k[|p|..], []);
      assert p + [] == p && Codes([]) == [];
    } else {
      RangeIsPrefix(p, k);
    }
  }

  /** Without a right bound everything after the prefix is read. */
  lemma {:induction false} BeyondInRange(p: string, k: string)
    requires EndsBeforeSurrogates(p) && StrLess(p, k)
    ensures InListRange(p, k)
  {
    UnboundedIff(p);
    StrLessIsTotal();
  }

  lemma {:induction false} RangeOrBeyond(p: string, k: string)
    requires InListRange(p, k)
    ensures p <= k || (EndsBeforeSurrogates(p) && StrLess(p, k))
  {
    StrLessIsTotal();
    if !EndsBeforeSurrogates(p) { RangeIsPrefix(p, k); }
  }

  /** Listing by prefix is exact for precisely the prefixes that do not end before the
      surrogates: `list_kv`, the prefix condition and delete-by-prefix all rest on this. */
  lemma {:induction false} RangeExactIff(p: string)
    ensures (forall k :: InListRange(p, k) <==> p <= k) <==> !EndsBeforeSurrogates(p)
  {
    if EndsBeforeSurrogates(p) {
      var k := RangeTooWide(p);
      assert InListRange(p, k) && !(p <= k);
    } else {
      forall k ensures InListRange(p, k) <==> p <= k { RangeIsPrefix(p, k); }
    }
  }
}
