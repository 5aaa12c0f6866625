/** Strings of Unicode scalar values and the order in which user keys are stored. */
module Strings {
  import opened Order

  /** The code points of a string. */
  function Codes(s: string): (c: seq<int>)
    ensures |c| == |s| && forall i :: 0 <= i < |s| ==> c[i] == s[i] as int
  {
    seq(|s|, i requires 0 <= i < |s| => s[i] as int)
  }

  /** Rust's `str` order; `Utf8.EncodeOrder` shows it is also the order of the encoded bytes. */
  predicate StrLess(a: string, b: string) { LexLess(Codes(a), Codes(b)) }

  lemma CodesConcat(a: string, b: string)
    ensures Codes(a + b) == Codes(a) + Codes(b)
  {
  }

  lemma CodesInjective(a: string, b: string)
    ensures Codes(a) == Codes(b) <==> a == b
  {
    if Codes(a) == Codes(b) {
      assert |a| == |b|;
      forall i | 0 <= i < |a| ensures a[i] == b[i] { assert Codes(a)[i] == Codes(b)[i]; }
    }
  }

  lemma CodesPrefix(a: string, b: string)
    ensures Codes(a) <= Codes(b) <==> a <= b
  {
    if |a| <= |b| {
      CodesInjective(a, b[..|a|]);
      assert Codes(b)[..|a|] == Codes(b[..|a|]);
    }
  }

  lemma StrLessIsTotal()
    ensures StrictTotalOrder(StrLess)
  {
    LexIsStrictTotalOrder();
    forall a: string, b: string | a != b ensures StrLess(a, b) || StrLess(b, a) {
      CodesInjective(a, b);
    }
  }

  /** The keys of a set in ascending order. */
  function SortedKeys(s: set<string>): (r: seq<string>)
    ensures StrictlySorted(r, StrLess) && |r| == |s|
    ensures forall k :: k in r <==> k in s
  {
    StrLessIsTotal();
    ToSorted(s, StrLess)
  }

  predicate Distinct(s: seq<string>) {
    forall i, j :: 0 <= i < j < |s| ==> s[i] != s[j]
  }

  lemma SortedDistinct(keys: seq<string>)
    requires StrictlySorted(keys, StrLess)
    ensures Distinct(keys)
  {
    StrLessIsTotal();
    forall i, j | 0 <= i < j < |keys| ensures keys[i] != keys[j] { assert StrLess(keys[i], keys[j]); }
  }

  lemma StrHeads(c: char, x: string, d: char, y: string)
    ensures StrLess([c] + x, [d] + y) == if c == d then StrLess(x, y) else (c as int) < d as int
  {
    assert Codes([c] + x)[1..] == Codes(x) && Codes([d] + y)[1..] == Codes(y);
  }

  lemma StrCommonPrefix(p: string, a: string, b: string)
    ensures StrLess(p + a, p + b) == StrLess(a, b)
  {
    CodesConcat(p, a);
    CodesConcat(p, b);
    LexCommonPrefix(Codes(p), Codes(a), Codes(b));
  }
}
