/** Lexicographic order, the order of Rust's `Vec<u8>`, `String` and derived tuples,
    and sorted listings of finite sets, the order in which a B-tree map is iterated. */
module Order {

  ghost predicate StrictTotalOrder<T(!new)>(less: (T, T) -> bool) {
    && (forall x :: !less(x, x))
    && (forall x, y, z :: less(x, y) && less(y, z) ==> less(x, z))
    && (forall x, y :: x != y ==> less(x, y) || less(y, x))
  }

  predicate StrictlySorted<T>(s: seq<T>, less: (T, T) -> bool) {
    forall i, j :: 0 <= i < j < |s| ==> less(s[i], s[j])
  }

  // ---------------------------------------------------------------- listings

  lemma LeastExists<T(!new)>(s: set<T>, less: (T, T) -> bool)
    requires s != {} && StrictTotalOrder(less)
    ensures exists x :: x in s && forall y :: y in s && y != x ==> less(x, y)
  {
    var x :| x in s;
    if s == {x} {
    } else {
      var rest := s - {x};
      LeastExists(rest, less);
      var m :| m in rest && forall y :: y in rest && y != m ==> less(m, y);
      var l := if less(x, m) then x else m;
      assert x != m && (less(x, m) || less(m, x));
      forall y | y in s && y != l ensures less(l, y) {
        assert y == x || y in rest;
      }
    }
  }

  /** The elements of `s` in ascending order. */
  function ToSorted<T(!new, ==)>(s: set<T>, less: (T, T) -> bool): (r: seq<T>)
    requires StrictTotalOrder(less)
    ensures StrictlySorted(r, less)
    ensures forall x :: x in r <==> x in s
    ensures |r| == |s|
  {
    if s == {} then []
    else
      LeastExists(s, less);
      var x :| x in s && forall y :: y in s && y != x ==> less(x, y);
      var rest := ToSorted(s - {x}, less);
      [x] + rest
  }

  // ---------------------------------------------------- lexicographic order

  /** `a` comes strictly before `b` in lexicographic order. */
  predicate LexLess(a: seq<int>, b: seq<int>) {
    if b == [] then false
    else if a == [] then true
    else if a[0] != b[0] then a[0] < b[0]
    else LexLess(a[1..], b[1..])
  }

  lemma {:induction false} LexIrreflexive(a: seq<int>)
    ensures !LexLess(a, a)
  {
    if a != [] { LexIrreflexive(a[1..]); }
  }

  lemma {:induction false} LexTransitive(a: seq<int>, b: seq<int>, c: seq<int>)
    requires LexLess(a, b) && LexLess(b, c)
    ensures LexLess(a, c)
  {
    if a != [] && a[0] == b[0] == c[0] { LexTransitive(a[1..], b[1..], c[1..]); }
  }

  lemma {:induction false} LexTotal(a: seq<int>, b: seq<int>)
    requires a != b
    ensures LexLess(a, b) || LexLess(b, a)
  {
    if a != [] && b != [] && a[0] == b[0] {
      assert a == [a[0]] + a[1..] && b == [b[0]] + b[1..];
      LexTotal(a[1..], b[1..]);
    }
  }

  lemma LexIsStrictTotalOrder()
    ensures StrictTotalOrder(LexLess)
  {
    forall x: seq<int> ensures !LexLess(x, x) { LexIrreflexive(x); }
    forall x, y, z | LexLess(x, y) && LexLess(y, z) ensures LexLess(x, z) { LexTransitive(x, y, z); }
    forall x: seq<int>, y | x != y ensures LexLess(x, y) || LexLess(y, x) { LexTotal(x, y); }
  }

  /** A common prefix plays no part in a comparison. */
  lemma {:induction false} LexCommonPrefix(p: seq<int>, a: seq<int>, b: seq<int>)
    ensures LexLess(p + a, p + b) == LexLess(a, b)
  {
    if p == [] {
      assert p + a == a && p + b == b;
    } else {
      assert (p + a)[1..] == p[1..] + a && (p + b)[1..] == p[1..] + b;
      LexCommonPrefix(p[1..], a, b);
    }
  }

  /** Two sequences that differ at position `i` compare as they do there. */
  lemma {:induction false} LexAtFirstDifference(a: seq<int>, b: seq<int>, i: nat)
    requires i < |a| && i < |b| && a[..i] == b[..i] && a[i] != b[i]
    ensures LexLess(a, b) == (a[i] < b[i])
  {
    assert a == a[..i] + a[i..] && b == b[..i] + b[i..];
    LexCommonPrefix(a[..i], a[i..], b[i..]);
  }

  /** Comparing concatenations whose heads have the same length: heads first, then tails. */
  lemma {:induction false} LexHeads(a: seq<int>, b: seq<int>, x: seq<int>, y: seq<int>)
    requires |a| == |b|
    ensures LexLess(a + x, b + y) == (LexLess(a, b) || (a == b && LexLess(x, y)))
  {
    if a == [] {
      assert a + x == x && b + y == y;
    } else {
      assert (a + x)[1..] == a[1..] + x && (b + y)[1..] == b[1..] + y;
      assert a == [a[0]] + a[1..] && b == [b[0]] + b[1..];
      LexHeads(a[1..], b[1..], x, y);
    }
  }

  /** A sequence that does not start with `p` is on the same side of all extensions of `p`. */
  lemma {:induction false} LexOutside(p: seq<int>, x: seq<int>, y: seq<int>, k: seq<int>)
    requires !(p <= k)
    ensures LexLess(k, p + x) == LexLess(k, p + y)
  {
    if k != [] && p[0] == k[0] {
      assert (p + x)[1..] == p[1..] + x && (p + y)[1..] == p[1..] + y;
      assert p == [p[0]] + p[1..] && k == [k[0]] + k[1..];
      LexOutside(p[1..], x, y, k[1..]);
    }
  }
}
