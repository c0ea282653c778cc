/** Triangular probing, the bucket order that khash searches in.

    A probe that starts at bucket h % n and advances by 1, 2, 3, ... buckets reaches, after k steps,
    bucket (h + k * (k + 1) / 2) % n.  For a power of two n the first n probes are a permutation of
    the buckets, and the start is met again only after 2n - 1 steps.  These two facts bound every
    probe loop of the table. */
module Probing {

  ghost predicate PowerOfTwo(n: nat)
    decreases n
  {
    n == 1 || (n > 1 && n % 2 == 0 && PowerOfTwo(n / 2))
  }

  function Triangle(k: nat): nat {
    k * (k + 1) / 2
  }

  /** The bucket reached after k steps from hash value h. */
  function Probe(h: nat, k: nat, n: nat): (b: nat)
    requires n > 0
    ensures b < n
  {
    (h + Triangle(k)) % n
  }

  lemma TriangleStep(k: nat)
    ensures 2 * Triangle(k) == k * (k + 1)
    ensures Triangle(k + 1) == Triangle(k) + k + 1
  {
    assert (k + 1) * (k + 2) == k * (k + 1) + 2 * (k + 1);
    Even(k);
    Even(k + 1);
  }

  lemma {:induction false} Even(k: nat)
    ensures k * (k + 1) % 2 == 0
  {
    if k > 0 {
      Even(k - 1);
      assert k * (k + 1) == (k - 1) * k + 2 * k;
    }
  }

  /** Adding the next step to a reduced position reduces to the next probe. */
  lemma ProbeStep(h: nat, k: nat, n: nat)
    requires n > 0
    ensures Probe(h, k + 1, n) == (Probe(h, k, n) + (k + 1)) % n
  {
    TriangleStep(k);
    ModAdd(h + Triangle(k), k + 1, n);
  }

  lemma ModAdd(a: nat, b: nat, n: nat)
    requires n > 0
    ensures (a + b) % n == (a % n + b) % n
  {
    var q := a / n;
    assert a == q * n + a % n;
    ModMultiple(a % n + b, q, n);
    assert a + b == a % n + b + q * n;
  }

  lemma {:induction false} ModMultiple(a: nat, q: nat, n: nat)
    requires n > 0
    ensures (a + q * n) % n == a % n
    decreases q
  {
    if q > 0 {
      ModMultiple(a, q - 1, n);
      assert a + q * n == (a + (q - 1) * n) + n;
      ModOnce(a + (q - 1) * n, n);
    } else {
      assert q * n == 0;
    }
  }

  lemma ModOnce(a: nat, n: nat)
    requires n > 0
    ensures (a + n) % n == a % n
  {
    var q := a / n;
    assert a + n == (q + 1) * n + a % n;
    ModUnique(a + n, q + 1, a % n, n);
  }

  lemma ScaleBound(d: int, n: int)
    requires n > 0
    ensures d >= 1 ==> d * n >= n
    ensures d <= -1 ==> d * n <= -n
  {
  }

  lemma OddProduct(a: nat, b: nat)
    requires a % 2 == 1 && b % 2 == 1
    ensures a * b % 2 == 1
  {
    var x, y := a / 2, b / 2;
    assert a * b == (2 * x + 1) * (2 * y + 1) == 2 * (2 * x * y + x + y) + 1;
  }

  lemma ModUnique(a: int, q: int, r: int, n: int)
    requires n > 0
    requires a == q * n + r && 0 <= r < n
    ensures a / n == q && a % n == r
  {
    var d := a / n - q;
    assert d * n == (a / n) * n - q * n;
    assert a == (a / n) * n + a % n;
    assert d * n == r - a % n;
    ScaleBound(d, n);
  }

  /** Equal remainders differ by a multiple. */
  lemma SameRemainder(a: nat, b: nat, n: nat) returns (q: int)
    requires n > 0 && a % n == b % n && a <= b
    ensures b - a == q * n && q >= 0
  {
    q := b / n - a / n;
    assert a == (a / n) * n + a % n;
    assert b == (b / n) * n + b % n;
    assert q * n == (b / n) * n - (a / n) * n;
    ScaleBound(q, n);
  }

  /** A power of two that divides a product with an odd factor divides the other factor. */
  lemma {:induction false} OddFactor(n: nat, a: nat, b: nat, q: nat) returns (r: nat)
    requires PowerOfTwo(n)
    requires a % 2 == 1
    requires a * b == q * n
    ensures b == r * n
    decreases n
  {
    if n == 1 {
      r := b;
    } else {
      var m := n / 2;
      assert n == 2 * m;
      assert a * b == 2 * (q * m);
      if b % 2 == 1 {
        OddProduct(a, b);
        assert false;
      }
      var c := b / 2;
      assert b == 2 * c;
      assert 2 * (a * c) == a * b;
      assert a * c == q * m;
      r := OddFactor(m, a, c, q);
      assert b == r * n;
    }
  }

  lemma MultipleAtLeast(x: nat, r: nat, n: nat)
    requires x == r * n && x > 0
    ensures x >= n
  {
    ScaleBound(r, n);
  }

  lemma TriangleGap(i: nat, d: nat) returns (ti: nat, tj: nat, s: nat)
    ensures ti == Triangle(i) && tj == Triangle(i + d)
    ensures s == 2 * i + d + 1
    ensures d * s == 2 * (tj - ti)
  {
    TriangleStep(i);
    TriangleStep(i + d);
    ti, tj, s := Triangle(i), Triangle(i + d), 2 * i + d + 1;
    assert (i + d) * (i + d + 1) - i * (i + 1) == d * s;
  }

  /** Neither factor of an odd-even product below its size can absorb 2n. */
  lemma NoCommonMultiple(n: nat, d: nat, s: nat, q: nat)
    requires PowerOfTwo(n)
    requires 0 < d < n && 0 < s < n
    requires d % 2 != s % 2
    ensures d * s != q * n
  {
    if d * s == q * n {
      if d % 2 == 1 {
        var r := OddFactor(n, d, s, q);
        MultipleAtLeast(s, r, n);
      } else {
        assert s * d == q * n;
        var r := OddFactor(n, s, d, q);
        MultipleAtLeast(d, r, n);
      }
    }
  }

  /** Two distinct steps below n meet distinct buckets. */
  lemma ProbeInjective(h: nat, i: nat, j: nat, n: nat)
    requires PowerOfTwo(n) && n > 0
    requires i < j < n
    ensures Probe(h, i, n) != Probe(h, j, n)
  {
    hide PowerOfTwo, Triangle;
    if Probe(h, i, n) == Probe(h, j, n) {
      var ti, tj, s := TriangleGap(i, j - i);
      GapImpossible(h, ti, tj, j - i, s, n);
    }
  }

  lemma GapImpossible(h: nat, ti: nat, tj: nat, d: nat, s: nat, n: nat)
    requires PowerOfTwo(n)
    requires 0 < d < n && 0 < s < 2 * n && d % 2 != s % 2
    requires d * s == 2 * (tj - ti)
    ensures (h + ti) % n != (h + tj) % n
  {
    if (h + ti) % n == (h + tj) % n {
      assert d * s > 0;
      var q := SameRemainder(h + ti, h + tj, n);
      assert q * (2 * n) == 2 * (q * n);
      Doubling(n);
      NoCommonMultiple(2 * n, d, s, q);
      assert false;
    }
  }

  lemma Doubling(n: nat)
    requires PowerOfTwo(n)
    ensures PowerOfTwo(2 * n)
  {
    assert 2 * n / 2 == n;
  }

  /** The start is met again for the first time after 2n - 1 steps. */
  lemma ReturnsAtEnd(h: nat, k: nat, n: nat)
    requires PowerOfTwo(n) && n > 0 && k > 0
    requires Probe(h, k, n) == Probe(h, 0, n)
    ensures k >= 2 * n - 1
  {
    TriangleStep(k);
    var q := SameRemainder(h + Triangle(0), h + Triangle(k), n);
    var m := 2 * n;
    assert Triangle(k) == q * n;
    assert k * (k + 1) == q * m;
    Doubling(n);
    if k % 2 == 1 {
      var r := OddFactor(m, k, k + 1, q);
      MultipleAtLeast(k + 1, r, m);
    } else {
      assert (k + 1) * k == q * m;
      var r := OddFactor(m, k + 1, k, q);
      MultipleAtLeast(k, r, m);
    }
  }

  /** The start is indeed met again after 2n - 1 steps. */
  lemma ReturnsThen(h: nat, n: nat)
    requires n > 0
    ensures Probe(h, 2 * n - 1, n) == Probe(h, 0, n)
  {
    TriangleStep(2 * n - 1);
    var t := Triangle(2 * n - 1);
    assert 2 * t == (2 * n - 1) * (2 * n);
    assert (2 * n - 1) * (2 * n) == 2 * ((2 * n - 1) * n);
    assert t == (2 * n - 1) * n;
    ModMultiple(h, 2 * n - 1, n);
  }

  /** Pigeonhole: k distinct numbers below n need k <= n, and k == n numbers are all of them. */
  lemma {:induction false} BoundedSet(s: set<nat>, n: nat)
    requires forall x :: x in s ==> x < n
    ensures |s| <= n
    ensures |s| == n ==> forall x: nat :: x < n ==> x in s
    decreases n
  {
    if n == 0 {
      assert s == {};
    } else {
      var t := s - {n - 1};
      BoundedSet(t, n - 1);
      if n - 1 in s {
        assert |t| == |s| - 1;
        if |s| == n {
          forall x: nat | x < n ensures x in s {
            if x < n - 1 {
              assert x in t;
            }
          }
        }
      } else {
        assert t == s;
      }
    }
  }

  ghost function Visited(h: nat, k: nat, n: nat): (s: set<nat>)
    requires n > 0
    ensures forall b :: b in s <==> exists i: nat :: i < k && Probe(h, i, n) == b
  {
    set i: nat | i < k :: Probe(h, i, n)
  }

  lemma VisitedGrows(h: nat, k: nat, n: nat)
    requires n > 0
    ensures Visited(h, k + 1, n) == Visited(h, k, n) + {Probe(h, k, n)}
  {
    forall b | b in Visited(h, k + 1, n) ensures b in Visited(h, k, n) + {Probe(h, k, n)} {
      var i: nat :| i < k + 1 && Probe(h, i, n) == b;
    }
    assert Probe(h, k, n) in Visited(h, k + 1, n);
  }

  lemma VisitedNew(h: nat, k: nat, n: nat)
    requires PowerOfTwo(n) && n > 0 && k < n
    ensures Probe(h, k, n) !in Visited(h, k, n)
  {
    hide Probe, PowerOfTwo;
    forall i: nat | i < k ensures Probe(h, i, n) != Probe(h, k, n) {
      ProbeInjective(h, i, k, n);
    }
  }

  lemma {:induction false} VisitedSize(h: nat, k: nat, n: nat)
    requires PowerOfTwo(n) && n > 0 && k <= n
    ensures |Visited(h, k, n)| == k
  {
    if k == 0 {
      assert Visited(h, 0, n) == {};
    } else {
      hide Probe, PowerOfTwo, Visited;
      VisitedSize(h, k - 1, n);
      VisitedGrows(h, k - 1, n);
      VisitedNew(h, k - 1, n);
    }
  }

  /** The first n probes meet every bucket exactly once. */
  lemma ProbesCoverTable(h: nat, n: nat, b: nat)
    requires PowerOfTwo(n) && b < n
    ensures exists k: nat :: k < n && Probe(h, k, n) == b
    ensures forall i: nat, j: nat :: i < n && j < n && Probe(h, i, n) == b && Probe(h, j, n) == b ==> i == j
  {
    VisitedSize(h, n, n);
    BoundedSet(Visited(h, n, n), n);
    assert b in Visited(h, n, n);
    forall i: nat, j: nat | i < j < n ensures Probe(h, i, n) != Probe(h, j, n) {
      ProbeInjective(h, i, j, n);
    }
  }
}
