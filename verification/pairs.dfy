/**
 * The order in which HandleCollisions in game/world.go visits the pairs of
 * bodies: for a = 0 .. n-2 and, inside, b = a+1 .. n-1, the pair (a, b).
 * The lemmas about prefixes of that order are what the loops of
 * HandleCollisions need to know where they are.
 */
module PairOrder {
  /** The pairs (a, b) with a < b < n for one a, b increasing. */
  function Row(a: nat, n: nat): (ps: seq<(nat, nat)>)
    requires a < n
    ensures |ps| == n - a - 1
    ensures forall k :: 0 <= k < |ps| ==> ps[k] == (a, a + 1 + k)
  {
    seq(n - a - 1, k requires 0 <= k < n - a - 1 => (a, a + 1 + k))
  }

  /** The rows for a = 0 .. m-1, one after another. */
  function PairsUpTo(m: nat, n: nat): seq<(nat, nat)>
    requires m <= n
  {
    if m == 0 then [] else PairsUpTo(m - 1, n) + Row(m - 1, n)
  }

  /** The order in which HandleCollisions visits the pairs of n bodies. */
  function Pairs(n: nat): seq<(nat, nat)>
  {
    PairsUpTo(n, n)
  }

  /** Lexicographic order on index pairs. */
  predicate Before(p: (nat, nat), q: (nat, nat))
  {
    p.0 < q.0 || (p.0 == q.0 && p.1 < q.1)
  }

  /** The rows before m hold exactly the pairs a < b < n with a < m, in increasing order. */
  lemma {:induction false} PairsUpToContents(m: nat, n: nat)
    requires m <= n
    ensures forall a: nat, b: nat :: (a, b) in PairsUpTo(m, n) <==> a < m && a < b < n
    ensures forall i, j :: 0 <= i < j < |PairsUpTo(m, n)| ==> Before(PairsUpTo(m, n)[i], PairsUpTo(m, n)[j])
  {
    if m > 0 {
      PairsUpToContents(m - 1, n);
      var prev := PairsUpTo(m - 1, n);
      var row := Row(m - 1, n);
      assert PairsUpTo(m, n) == prev + row;
      forall a: nat, b: nat
        ensures (a, b) in PairsUpTo(m, n) <==> a < m && a < b < n
      {
        if a == m - 1 && a < b < n {
          assert row[b - a - 1] == (a, b);
        }
      }
      forall i, j | 0 <= i < j < |PairsUpTo(m, n)|
        ensures Before(PairsUpTo(m, n)[i], PairsUpTo(m, n)[j])
      {
        if i < |prev| && j >= |prev| {
          assert prev[i] in prev;
        }
      }
    }
  }

  /**
   * Pairs(n) visits every pair a < b < n and nothing else, in strictly
   * increasing lexicographic order (so each pair exactly once), and there
   * are n(n-1)/2 of them.
   */
  lemma PairsOrder(n: nat)
    ensures forall a: nat, b: nat :: (a, b) in Pairs(n) <==> a < b < n
    ensures forall i, j :: 0 <= i < j < |Pairs(n)| ==> Before(Pairs(n)[i], Pairs(n)[j])
    ensures 2 * |Pairs(n)| == n * (n - 1)
  {
    PairsUpToContents(n, n);
    PairsCount(n, n);
  }

  lemma {:induction false} PairsCount(m: nat, n: nat)
    requires m <= n
    ensures 2 * |PairsUpTo(m, n)| == m * (2 * n - m - 1)
  {
    if m > 0 {
      PairsCount(m - 1, n);
      assert 2 * |PairsUpTo(m, n)| == (m - 1) * (2 * n - m) + 2 * (n - m);
    }
  }

  /** Fewer than two bodies: no pair is visited. */
  lemma NoPairsBelowTwo(n: nat)
    requires n < 2
    ensures Pairs(n) == []
  {
    if n == 1 {
      assert Pairs(1) == PairsUpTo(0, 1) + Row(0, 1);
    }
  }

  /** Extending the visited part of row a by one pair appends that pair. */
  lemma RowPrefixStep(a: nat, n: nat, b: nat)
    requires a < b < n
    ensures PairsUpTo(a, n) + Row(a, n)[..b + 1 - a - 1] == (PairsUpTo(a, n) + Row(a, n)[..b - a - 1]) + [(a, b)]
  {
    assert Row(a, n)[..b - a] == Row(a, n)[..b - a - 1] + [(a, b)];
  }

  /** The rows after the last non-empty one add nothing. */
  lemma LastRowEmpty(a: nat, n: nat)
    requires a <= n && (a == n - 1 || n == 0)
    ensures PairsUpTo(a, n) == Pairs(n)
  {
    if n > 0 {
      assert PairsUpTo(n, n) == PairsUpTo(n - 1, n) + Row(n - 1, n);
    }
  }

  /** The calls up to and including (a, b) are a prefix of all the calls. */
  lemma NextIsPrefix(n: nat, a: nat, b: nat)
    requires a < b < n
    ensures var next := PairsUpTo(a, n) + Row(a, n)[..b - a - 1] + [(a, b)];
            |next| <= |Pairs(n)| && next == Pairs(n)[..|next|]
  {
    PrefixOfPairs(a, n);
    PairsUpToStep(a, n);
    RowAt(a, n, b);
    ExtendedPrefix(PairsUpTo(a, n), Row(a, n), PairsUpTo(a + 1, n), Pairs(n), b - a - 1, (a, b));
  }

  /** The rows up to and including row a are a prefix of all the pairs. */
  lemma PrefixOfPairs(a: nat, n: nat)
    requires a < n
    ensures |PairsUpTo(a + 1, n)| <= |Pairs(n)| && PairsUpTo(a + 1, n) == Pairs(n)[..|PairsUpTo(a + 1, n)|]
  {
    PairsUpToPrefix(a + 1, n, n);
  }

  /** Row a holds (a, b) at position b - a - 1. */
  lemma RowAt(a: nat, n: nat, b: nat)
    requires a < b < n
    ensures Row(a, n)[b - a - 1] == (a, b)
  {
  }

  /** One more row is that row appended. */
  lemma PairsUpToStep(a: nat, n: nat)
    requires a < n
    ensures PairsUpTo(a + 1, n) == PairsUpTo(a, n) + Row(a, n)
  {
  }

  /**
   * When done + row is a prefix of all, so is done followed by the first
   * k + 1 elements of row.
   */
  lemma ExtendedPrefix(done: seq<(nat, nat)>, row: seq<(nat, nat)>, upto: seq<(nat, nat)>, all: seq<(nat, nat)>, k: nat, x: (nat, nat))
    requires k < |row|
    requires row[k] == x
    requires upto == done + row
    requires |upto| <= |all|
    requires upto == all[..|upto|]
    ensures var next := done + row[..k] + [x];
            |next| <= |all| && next == all[..|next|]
  {
    var next := done + row[..k] + [x];
    assert next == upto[..|next|];
  }

  lemma RowStart(a: nat, n: nat)
    requires a < n
    ensures PairsUpTo(a, n) + Row(a, n)[..a + 1 - a - 1] == PairsUpTo(a, n)
  {
    assert Row(a, n)[..0] == [];
  }

  lemma RowDone(a: nat, n: nat)
    requires a < n
    ensures PairsUpTo(a, n) + Row(a, n)[..n - a - 1] == PairsUpTo(a + 1, n)
  {
    assert Row(a, n)[..n - a - 1] == Row(a, n);
  }

  /** Earlier row lists are prefixes of later ones. */
  lemma {:induction false} PairsUpToPrefix(m: nat, m': nat, n: nat)
    requires m <= m' <= n
    ensures |PairsUpTo(m, n)| <= |PairsUpTo(m', n)|
    ensures PairsUpTo(m, n) == PairsUpTo(m', n)[..|PairsUpTo(m, n)|]
    decreases m' - m
  {
    if m < m' {
      PairsUpToPrefix(m, m' - 1, n);
      assert PairsUpTo(m', n) == PairsUpTo(m' - 1, n) + Row(m' - 1, n);
    }
  }
}
