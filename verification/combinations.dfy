/** k-subsets of {0, ..., n-1}, written as strictly increasing index
    sequences ("lex" in the programs), their lexicographic successor as the
    three programs compute it, and the enumeration that repeated successors
    walk through. */
module Combinations {
  import opened Results

  /** lex lists a subset of {lo, ..., n-1} in increasing order. */
  predicate IsSubset(lex: seq<int>, lo: int, n: int)
  {
    && (forall i :: 0 <= i < |lex| ==> lo <= lex[i] < n)
    && (forall i, j :: 0 <= i < j < |lex| ==> lex[i] < lex[j])
  }

  /** lex lists a subset of {0, ..., n-1} in increasing order. */
  predicate IsComb(lex: seq<int>, n: int)
  {
    IsSubset(lex, 0, n)
  }

  /** The consecutive values from, from + 1, ..., from + len - 1. */
  function Run(from: int, len: nat): (r: seq<int>)
    ensures |r| == len && forall i :: 0 <= i < len ==> r[i] == from + i
  {
    seq(len, i => from + i)
  }

  /** The lexicographically first k-subset {0, ..., k-1}. */
  function First(k: nat): seq<int>
  {
    Run(0, k)
  }

  /** The lexicographically last k-subset {n-k, ..., n-1}. */
  function Last(n: int, k: nat): seq<int>
  {
    Run(n - k, k)
  }

  /** The backward search of the successor: the rightmost position p below
      end whose value is not yet its maximum n - k + p, or -1 if there is none. */
  function Pivot(lex: seq<int>, n: int, end: int): (p: int)
    requires 0 <= end <= |lex|
    ensures -1 <= p < end
    decreases end
  {
    if end == 0 then -1
    else if lex[end - 1] != n - |lex| + end - 1 then end - 1
    else Pivot(lex, n, end - 1)
  }

  /** Every position after the pivot holds its maximum, the pivot does not. */
  lemma {:induction false} PivotIsRightmost(lex: seq<int>, n: int, end: int)
    requires 0 <= end <= |lex|
    ensures var p := Pivot(lex, n, end);
            && (forall q :: p < q < end ==> lex[q] == n - |lex| + q)
            && (p >= 0 ==> lex[p] != n - |lex| + p)
    decreases end
  {
    if end > 0 && lex[end - 1] == n - |lex| + end - 1 {
      PivotIsRightmost(lex, n, end - 1);
    }
  }

  /** The successor step of the programs' `combination`/`next_combination`:
      raise the pivot by one and refill the positions after it with the
      consecutive values that follow; no successor when there is no pivot. */
  function Successor(lex: seq<int>, n: int): (r: Option<seq<int>>)
    ensures r.Some? ==> |r.value| == |lex|
  {
    var p := Pivot(lex, n, |lex|);
    if p < 0 then None
    else Some(lex[..p] + Run(lex[p] + 1, |lex| - p))
  }

  /** There is no successor exactly when lex is the last subset. */
  lemma SuccessorEnds(lex: seq<int>, n: int)
    ensures Successor(lex, n).None? <==> lex == Last(n, |lex|)
  {
    var p := Pivot(lex, n, |lex|);
    PivotIsRightmost(lex, n, |lex|);
    if p < 0 {
      assert lex == Last(n, |lex|);
    } else {
      assert lex[p] != Last(n, |lex|)[p];
    }
  }

  /** y comes after x in lexicographic order. */
  ghost predicate LexBefore(x: seq<int>, y: seq<int>)
  {
    |x| == |y| && exists p :: 0 <= p < |x| && x[..p] == y[..p] && x[p] < y[p]
  }

  /** In an increasing sequence, values grow at least as fast as positions. */
  lemma {:induction false} Spread(lex: seq<int>, n: int, i: nat, j: nat)
    requires IsComb(lex, n) && i <= j < |lex|
    ensures lex[j] - lex[i] >= j - i
    decreases j - i
  {
    if i < j {
      Spread(lex, n, i, j - 1);
    }
  }

  /** The successor of a subset is again a subset of the same size, and
      comes after it in lexicographic order. */
  lemma SuccessorValid(lex: seq<int>, n: int)
    requires IsComb(lex, n) && Successor(lex, n).Some?
    ensures IsComb(Successor(lex, n).value, n)
    ensures LexBefore(lex, Successor(lex, n).value)
  {
    var k := |lex|;
    var p := Pivot(lex, n, k);
    PivotIsRightmost(lex, n, k);
    var r := Successor(lex, n).value;
    Spread(lex, n, p, k - 1);
    assert lex[p] < n - k + p;
    assert forall i :: 0 <= i < p ==> r[i] == lex[i];
    assert forall i :: p <= i < k ==> r[i] == lex[p] + 1 + (i - p);
    assert r[..p] == lex[..p];
  }

  // ---------------------------------------------------------------------
  // The enumeration

  function Binomial(n: nat, k: nat): nat
  {
    if k == 0 then 1
    else if n == 0 then 0
    else Binomial(n - 1, k - 1) + Binomial(n - 1, k)
  }

  lemma {:induction false} BinomialEmpty(n: nat, k: nat)
    requires k > n
    ensures Binomial(n, k) == 0
  {
    if n > 0 {
      BinomialEmpty(n - 1, k - 1);
      BinomialEmpty(n - 1, k);
    }
  }

  lemma {:induction false} BinomialPositive(n: nat, k: nat)
    requires k <= n
    ensures Binomial(n, k) > 0
  {
    if k > 0 {
      BinomialPositive(n - 1, k - 1);
    }
  }

  /** The i-th k-subset of {lo, ..., n-1} in lexicographic order: the
      Binomial(n - lo - 1, k - 1) subsets holding lo come first, then those
      that do not. */
  function Comb(lo: nat, n: nat, k: nat, i: nat): seq<int>
    requires lo <= n && i < Binomial(n - lo, k)
    decreases n - lo
  {
    if k == 0 then []
    else if i < Binomial(n - lo - 1, k - 1) then [lo] + Comb(lo + 1, n, k - 1, i)
    else Comb(lo + 1, n, k, i - Binomial(n - lo - 1, k - 1))
  }

  /** The i-th k-subset of {0, ..., n-1} in lexicographic order. */
  function NthComb(n: nat, k: nat, i: nat): seq<int>
    requires i < Binomial(n, k)
  {
    Comb(0, n, k, i)
  }

  /** The position of a subset of {lo, ..., n-1} in the enumeration. */
  function Rank(lo: nat, n: nat, c: seq<int>): (i: nat)
    requires lo <= n && IsSubset(c, lo, n)
    ensures i < Binomial(n - lo, |c|)
    decreases n - lo
  {
    if c == [] then 0
    else
      assert lo < n by { assert lo <= c[0] < n; }
      if c[0] == lo then
        assert IsSubset(c[1..], lo + 1, n) by {
          forall i | 0 <= i < |c| - 1 ensures lo + 1 <= c[1..][i] {
            assert c[0] < c[i + 1];
          }
        }
        Rank(lo + 1, n, c[1..])
      else
        Binomial(n - lo - 1, |c| - 1) + Rank(lo + 1, n, c)
  }

  /** Each element of the enumeration is a k-subset of {lo, ..., n-1}. */
  lemma {:induction false} CombValid(lo: nat, n: nat, k: nat, i: nat)
    requires lo <= n && i < Binomial(n - lo, k)
    ensures |Comb(lo, n, k, i)| == k && IsSubset(Comb(lo, n, k, i), lo, n)
    decreases n - lo
  {
    if k > 0 {
      var m := Binomial(n - lo - 1, k - 1);
      if i < m {
        CombValid(lo + 1, n, k - 1, i);
      } else {
        CombValid(lo + 1, n, k, i - m);
      }
    }
  }

  /** Ranking undoes unranking, so no subset is listed twice. */
  lemma {:induction false} RankComb(lo: nat, n: nat, k: nat, i: nat)
    requires lo <= n && i < Binomial(n - lo, k)
    ensures IsSubset(Comb(lo, n, k, i), lo, n) && Rank(lo, n, Comb(lo, n, k, i)) == i
    decreases n - lo
  {
    CombValid(lo, n, k, i);
    if k > 0 {
      var m := Binomial(n - lo - 1, k - 1);
      if i < m {
        RankComb(lo + 1, n, k - 1, i);
        assert ([lo] + Comb(lo + 1, n, k - 1, i))[1..] == Comb(lo + 1, n, k - 1, i);
      } else {
        RankComb(lo + 1, n, k, i - m);
        CombValid(lo + 1, n, k, i - m);
      }
    }
  }

  /** Unranking undoes ranking, so every subset is listed. */
  lemma {:induction false} CombRank(lo: nat, n: nat, c: seq<int>)
    requires lo <= n && IsSubset(c, lo, n)
    ensures Comb(lo, n, |c|, Rank(lo, n, c)) == c
    decreases n - lo
  {
    if c != [] {
      assert lo < n by { assert lo <= c[0] < n; }
      if c[0] == lo {
        assert IsSubset(c[1..], lo + 1, n) by {
          forall i | 0 <= i < |c| - 1 ensures lo + 1 <= c[1..][i] {
            assert c[0] < c[i + 1];
          }
        }
        CombRank(lo + 1, n, c[1..]);
        assert [lo] + c[1..] == c;
      } else {
        CombRank(lo + 1, n, c);
      }
    }
  }

  /** The enumeration of {lo, ..., n-1} starts at {lo, ..., lo + k - 1}. */
  lemma {:induction false} CombFirst(lo: nat, n: nat, k: nat)
    requires lo + k <= n
    ensures Binomial(n - lo, k) > 0 && Comb(lo, n, k, 0) == Run(lo, k)
    decreases n - lo
  {
    BinomialPositive(n - lo, k);
    if k > 0 {
      CombFirst(lo + 1, n, k - 1);
      BinomialPositive(n - lo - 1, k - 1);
      assert [lo] + Run(lo + 1, k - 1) == Run(lo, k);
    }
  }

  /** The enumeration of {lo, ..., n-1} ends at {n-k, ..., n-1}. */
  lemma {:induction false} CombLast(lo: nat, n: nat, k: nat)
    requires lo + k <= n
    ensures Binomial(n - lo, k) > 0 && Comb(lo, n, k, Binomial(n - lo, k) - 1) == Last(n, k)
    decreases n - lo
  {
    BinomialPositive(n - lo, k);
    if k > 0 {
      if lo + k < n {
        BinomialPositive(n - lo - 1, k);
        CombLast(lo + 1, n, k);
      } else {
        BinomialEmpty(n - lo - 1, k);
        CombLast(lo + 1, n, k - 1);
        assert [lo] + Last(n, k - 1) == Last(n, k);
      }
    }
  }

  /** Putting a smaller value x in front moves the pivot one place right; with
      no pivot in c, the new pivot is x itself unless x is at its maximum. */
  lemma {:induction false} PivotPrepend(x: int, c: seq<int>, n: int, end: nat)
    requires end <= |c|
    ensures var p := Pivot(c, n, end);
            Pivot([x] + c, n, end + 1) ==
              if p >= 0 then p + 1 else if x != n - (|c| + 1) then 0 else -1
    decreases end
  {
    if end > 0 {
      PivotPrepend(x, c, n, end - 1);
    }
  }

  /** When c has a successor, [x] + c has the one that keeps x. */
  lemma SuccessorPrependSome(x: int, c: seq<int>, n: int)
    requires Successor(c, n).Some?
    ensures Successor([x] + c, n) == Some([x] + Successor(c, n).value)
  {
    PivotPrepend(x, c, n, |c|);
    var p := Pivot(c, n, |c|);
    var lex := [x] + c;
    assert lex[..p + 1] + Run(lex[p + 1] + 1, |lex| - (p + 1)) == [x] + (c[..p] + Run(c[p] + 1, |c| - p));
  }

  /** When c is the last subset, [x] + c is followed by the run starting
      just above x, unless x too is at its maximum. */
  lemma SuccessorPrependNone(x: int, c: seq<int>, n: int)
    requires Successor(c, n).None?
    ensures Successor([x] + c, n) == if x == n - (|c| + 1) then None else Some(Run(x + 1, |c| + 1))
  {
    PivotPrepend(x, c, n, |c|);
    var lex := [x] + c;
    if x != n - (|c| + 1) {
      assert lex[..0] + Run(lex[0] + 1, |lex|) == Run(x + 1, |c| + 1);
    }
  }

  /** The successor step walks through the enumeration one element at a
      time and stops after the last one. */
  lemma {:induction false} SuccessorWalks(lo: nat, n: nat, k: nat, j: nat)
    requires lo <= n && j < Binomial(n - lo, k)
    ensures Successor(Comb(lo, n, k, j), n) ==
            if j + 1 < Binomial(n - lo, k) then Some(Comb(lo, n, k, j + 1)) else None
    decreases n - lo
  {
    if k > 0 {
      var m := Binomial(n - lo - 1, k - 1);
      if j < m {
        SuccessorWalks(lo + 1, n, k - 1, j);
        if j + 1 < m {
          SuccessorPrependSome(lo, Comb(lo + 1, n, k - 1, j), n);
        } else {
          WalkAcross(lo, n, k, j);
        }
      } else {
        SuccessorWalks(lo + 1, n, k, j - m);
      }
    }
  }

  /** The step from the last subset holding lo to the first one without it,
      or the end when every subset holds lo. */
  lemma WalkAcross(lo: nat, n: nat, k: nat, j: nat)
    requires lo < n && k > 0 && j + 1 == Binomial(n - lo - 1, k - 1)
    requires Successor(Comb(lo + 1, n, k - 1, j), n).None?
    ensures Successor(Comb(lo, n, k, j), n) ==
            if j + 1 < Binomial(n - lo, k) then Some(Comb(lo, n, k, j + 1)) else None
  {
    var c := Comb(lo + 1, n, k - 1, j);
    assert |c| == k - 1 by { CombValid(lo + 1, n, k - 1, j); }
    SuccessorPrependNone(lo, c, n);
    if lo + k < n {
      CombFirst(lo + 1, n, k);
      assert Comb(lo, n, k, j + 1) == Run(lo + 1, k);
    } else {
      assert lo + k == n by { if lo + k > n { BinomialEmpty(n - lo - 1, k - 1); } }
      BinomialEmpty(n - lo - 1, k);
    }
  }

  /** The enumeration of k-subsets of {0, ..., n-1}: every entry is a
      k-subset, and no subset is listed twice. */
  lemma NthCombDistinct(n: nat, k: nat, i: nat, j: nat)
    requires i < Binomial(n, k) && j < Binomial(n, k) && i != j
    ensures IsComb(NthComb(n, k, i), n) && |NthComb(n, k, i)| == k
    ensures NthComb(n, k, i) != NthComb(n, k, j)
  {
    CombValid(0, n, k, i);
    RankComb(0, n, k, i);
    RankComb(0, n, k, j);
  }

  /** Every k-subset of {0, ..., n-1} is listed, at its rank. */
  lemma NthCombComplete(n: nat, lex: seq<int>)
    requires IsComb(lex, n)
    ensures Rank(0, n, lex) < Binomial(n, |lex|) && NthComb(n, |lex|, Rank(0, n, lex)) == lex
  {
    CombRank(0, n, lex);
  }
}
