/** The coefficient walk shared by the three programs: for one choice of
    alpha-spin singly occupied orbitals, a single pass over the orbitals
    accumulates a phase, an integer fraction (the squared coefficient of the
    determinant) and the determinant's string over '0', 'a', 'b', '2'. The
    fraction is reduced after every orbital. */
module Coefficients {
  import opened Results
  import opened Fractions
  import opened Steps
  import opened Combinations

  /** How the fraction is reduced after each orbital: the C and JS `simplify`
      (a zero numerator is left alone), Rust's `Fraction::simplify` (a zero
      numerator gives 0/0), or not at all (the exact products, the reference
      the reduced walks are compared with). */
  datatype Reduction = KeepZero | ZeroOverZero | Exact

  function Reduce(rule: Reduction, f: Frac): Frac
  {
    match rule
    case KeepZero => Reduced(f)
    case ZeroOverZero => Simplified(f)
    case Exact => f
  }

  /** The running variables of one pass: phase, frac, i_somo, i_alpha,
      i_beta and the determinant built so far. */
  datatype Walker = Walker(phase: int, frac: Frac, iSomo: nat, iAlpha: nat, iBeta: nat, det: seq<char>)

  /** The state at the start of every pass. */
  const Start := Walker(1, Frac(1, 1), 0, 0, 0, [])

  /** The spin eigenvalue vector of a subset: 1 at the chosen singly occupied
      orbitals, -1 at the others. */
  function Eigv(lex: seq<int>, nSomo: nat): (e: seq<int>)
    ensures |e| == nSomo
  {
    seq(nSomo, s => if s in lex then 1 else -1)
  }

  /** Whether the s-th singly occupied orbital carries an alpha electron. */
  predicate IsAlpha(eigv: seq<int>, s: nat)
  {
    s < |eigv| && eigv[s] == 1
  }

  /** `b % 2` is nonzero in C, Rust and JS (truncating remainder). */
  predicate Odd(b: int)
  {
    Rem(b, 2) != 0
  }

  /** The factor the numerator is multiplied by at an orbital. */
  function NomFactor(x: Step, r: Row, alpha: bool, iAlpha: int, iBeta: int): int
  {
    match x
    case Up => if alpha then r.a + r.b - iBeta else r.a + r.b - iAlpha
    case Down => if alpha then iBeta - r.a + 1 else iAlpha - r.a + 1
    case _ => 1
  }

  /** The factor the denominator is multiplied by at an orbital. */
  function DenomFactor(x: Step, r: Row): int
  {
    match x
    case Up => r.b
    case Down => r.b + 2
    case _ => 1
  }

  /** Whether the phase changes sign at an orbital. */
  predicate Flips(x: Step, r: Row, alpha: bool)
  {
    match x
    case Down => if alpha then !Odd(r.b) else Odd(r.b)
    case Double => Odd(r.b)
    case _ => false
  }

  /** The determinant's character for an orbital. */
  function DetChar(x: Step, alpha: bool): char
  {
    match x
    case Empty => '0'
    case Double => '2'
    case _ => if alpha then 'a' else 'b'
  }

  /** The fraction of an orbital before it is reduced: the numerator and
      the denominator times their factors. */
  function Scaled(w: Walker, x: Step, r: Row, alpha: bool): Frac
  {
    Frac(w.frac.nom * NomFactor(x, r, alpha, w.iAlpha, w.iBeta), w.frac.denom * DenomFactor(x, r))
  }

  /** One orbital of the pass: update phase, fraction, counters and
      determinant, then reduce the fraction. */
  function Advance(w: Walker, x: Step, r: Row, alpha: bool, rule: Reduction): Walker
  {
    Walker(
      if Flips(x, r, alpha) then -w.phase else w.phase,
      Reduce(rule, Scaled(w, x, r, alpha)),
      if IsSomo(x) then w.iSomo + 1 else w.iSomo,
      if x.Double? || (IsSomo(x) && alpha) then w.iAlpha + 1 else w.iAlpha,
      if x.Double? || (IsSomo(x) && !alpha) then w.iBeta + 1 else w.iBeta,
      w.det + [DetChar(x, alpha)])
  }

  /** The pass over the first m orbitals. */
  function WalkPrefix(st: seq<Step>, eigv: seq<int>, rule: Reduction, m: nat): Walker
    requires m <= |st|
  {
    if m == 0 then Start
    else
      var w := WalkPrefix(st, eigv, rule, m - 1);
      Advance(w, st[m - 1], RowAt(st, m - 1), IsAlpha(eigv, w.iSomo), rule)
  }

  /** The pass over all orbitals. */
  function Walk(st: seq<Step>, eigv: seq<int>, rule: Reduction): Walker
  {
    WalkPrefix(st, eigv, rule, |st|)
  }

  /** One output line: phase, numerator, denominator, determinant. */
  datatype Line = Line(phase: int, nom: int, denom: int, det: seq<char>)

  /** The line a pass emits: only a nonzero numerator is printed. */
  function LineOf(st: seq<Step>, eigv: seq<int>, rule: Reduction): Option<Line>
  {
    var w := Walk(st, eigv, rule);
    if w.frac.nom != 0 then Some(Line(w.phase, w.frac.nom, w.frac.denom, w.det)) else None
  }

  function Emit(o: Option<Line>): seq<Line>
  {
    match o
    case None => []
    case Some(l) => [l]
  }

  /** The lines emitted for the first j subsets of the enumeration of
      k alpha orbitals among nSomo. */
  function Lines(st: seq<Step>, nSomo: nat, k: nat, rule: Reduction, j: nat): seq<Line>
    requires j <= Binomial(nSomo, k)
  {
    if j == 0 then []
    else Lines(st, nSomo, k, rule, j - 1) + Emit(SubsetLine(st, nSomo, k, rule, j - 1))
  }

  /** All lines of the expansion. */
  function Expansion(st: seq<Step>, nSomo: nat, k: nat, rule: Reduction): seq<Line>
  {
    Lines(st, nSomo, k, rule, Binomial(nSomo, k))
  }

  // ---------------------------------------------------------------------
  // Counters, phase and determinant

  /** Number of alpha orbitals among the first s singly occupied ones. */
  function AlphaCount(eigv: seq<int>, s: nat): (c: nat)
    ensures c <= s
  {
    if s == 0 then 0 else AlphaCount(eigv, s - 1) + (if IsAlpha(eigv, s - 1) then 1 else 0)
  }

  /** What one orbital does to the counters, the phase and the determinant. */
  lemma AdvanceShape(w: Walker, x: Step, r: Row, alpha: bool, rule: Reduction)
    ensures var w' := Advance(w, x, r, alpha, rule);
            && w'.iSomo == w.iSomo + (if IsSomo(x) then 1 else 0)
            && w'.iAlpha == w.iAlpha + (if x.Double? || (IsSomo(x) && alpha) then 1 else 0)
            && w'.iBeta == w.iBeta + (if x.Double? || (IsSomo(x) && !alpha) then 1 else 0)
            && w'.det == w.det + [DetChar(x, alpha)]
            && (w'.phase == w.phase || w'.phase == -w.phase)
  {
  }

  /** After m orbitals, i_somo counts the singly occupied ones, the
      determinant has one character per orbital and the phase is +1 or -1. */
  lemma {:induction false} WalkShape(st: seq<Step>, eigv: seq<int>, rule: Reduction, m: nat)
    requires m <= |st|
    ensures var w := WalkPrefix(st, eigv, rule, m);
            && w.iSomo == SomosBefore(st, m)
            && |w.det| == m
            && (w.phase == 1 || w.phase == -1)
  {
    if m > 0 {
      WalkShape(st, eigv, rule, m - 1);
      var w := WalkPrefix(st, eigv, rule, m - 1);
      AdvanceShape(w, st[m - 1], RowAt(st, m - 1), IsAlpha(eigv, w.iSomo), rule);
    }
  }

  /** After m orbitals, i_alpha counts the alpha orbitals among the singly
      occupied ones plus the doubly occupied ones, and i_beta the beta ones
      plus the doubly occupied ones. */
  lemma {:induction false} WalkCounts(st: seq<Step>, eigv: seq<int>, rule: Reduction, m: nat)
    requires m <= |st|
    ensures var w := WalkPrefix(st, eigv, rule, m);
            && w.iAlpha == AlphaCount(eigv, w.iSomo) + Count(st, Double, m)
            && w.iBeta == w.iSomo - AlphaCount(eigv, w.iSomo) + Count(st, Double, m)
  {
    if m > 0 {
      WalkCounts(st, eigv, rule, m - 1);
      var w := WalkPrefix(st, eigv, rule, m - 1);
      CountsStep(w, st[m - 1], RowAt(st, m - 1), eigv, rule, Count(st, Double, m - 1));
    }
  }

  /** One orbital keeps the counts of WalkCounts, with d doubly occupied
      orbitals seen so far. */
  lemma CountsStep(w: Walker, x: Step, r: Row, eigv: seq<int>, rule: Reduction, d: nat)
    requires w.iAlpha == AlphaCount(eigv, w.iSomo) + d
    requires w.iBeta == w.iSomo - AlphaCount(eigv, w.iSomo) + d
    ensures var w', d' := Advance(w, x, r, IsAlpha(eigv, w.iSomo), rule), d + (if x.Double? then 1 else 0);
            && w'.iAlpha == AlphaCount(eigv, w'.iSomo) + d'
            && w'.iBeta == w'.iSomo - AlphaCount(eigv, w'.iSomo) + d'
  {
    AdvanceShape(w, x, r, IsAlpha(eigv, w.iSomo), rule);
  }

  /** The determinant: '0' and '2' for empty and doubly occupied orbitals,
      and for a singly occupied orbital 'a' or 'b' as the eigenvalue vector
      says for its position among the singly occupied ones. */
  lemma {:induction false} WalkDet(st: seq<Step>, eigv: seq<int>, rule: Reduction, m: nat, i: nat)
    requires i < m <= |st|
    ensures |WalkPrefix(st, eigv, rule, m).det| == m
    ensures WalkPrefix(st, eigv, rule, m).det[i] == DetChar(st[i], IsAlpha(eigv, SomosBefore(st, i)))
  {
    WalkDetOf(st, eigv, rule, m);
    DetOfAt(st, eigv, m, i);
  }

  /** The determinant of the first m orbitals written out character by
      character, without the fraction: a reference definition. */
  function DetOf(st: seq<Step>, eigv: seq<int>, m: nat): (d: seq<char>)
    requires m <= |st|
    ensures |d| == m
  {
    if m == 0 then [] else DetOf(st, eigv, m - 1) + [DetChar(st[m - 1], IsAlpha(eigv, SomosBefore(st, m - 1)))]
  }

  lemma {:induction false} DetOfAt(st: seq<Step>, eigv: seq<int>, m: nat, i: nat)
    requires i < m <= |st|
    ensures DetOf(st, eigv, m)[i] == DetChar(st[i], IsAlpha(eigv, SomosBefore(st, i)))
  {
    if i < m - 1 {
      DetOfAt(st, eigv, m - 1, i);
    }
  }

  /** The pass writes the reference determinant, whatever the reduction. */
  lemma {:induction false} WalkDetOf(st: seq<Step>, eigv: seq<int>, rule: Reduction, m: nat)
    requires m <= |st|
    ensures WalkPrefix(st, eigv, rule, m).det == DetOf(st, eigv, m)
  {
    if m > 0 {
      WalkDetOf(st, eigv, rule, m - 1);
      DetGrows(st, eigv, rule, m);
    }
  }

  /** Each orbital appends one character to the determinant of the prefix. */
  lemma DetGrows(st: seq<Step>, eigv: seq<int>, rule: Reduction, m: nat)
    requires 0 < m <= |st|
    ensures WalkPrefix(st, eigv, rule, m).det
            == WalkPrefix(st, eigv, rule, m - 1).det + [DetChar(st[m - 1], IsAlpha(eigv, SomosBefore(st, m - 1)))]
  {
    WalkShape(st, eigv, rule, m - 1);
  }

  /** Two eigenvalue vectors that differ only at x, where only the second
      is alpha, differ by one in their alpha counts past x. */
  lemma {:induction false} AlphaCountPoint(e1: seq<int>, e2: seq<int>, x: nat, s: nat)
    requires |e1| == |e2| && x < |e1| && s <= |e1|
    requires forall t :: 0 <= t < |e1| && t != x ==> e1[t] == e2[t]
    requires e1[x] != 1 && e2[x] == 1
    ensures AlphaCount(e2, s) == AlphaCount(e1, s) + (if x < s then 1 else 0)
  {
    if s > 0 {
      AlphaCountPoint(e1, e2, x, s - 1);
    }
  }

  lemma {:induction false} AlphaCountNone(n: nat, s: nat)
    requires s <= n
    ensures AlphaCount(Eigv([], n), s) == 0
  {
    if s > 0 {
      AlphaCountNone(n, s - 1);
    }
  }

  /** The eigenvalue vector of a k-subset has exactly k alpha orbitals. */
  lemma {:induction false} EigvAlphaCount(lex: seq<int>, n: nat)
    requires IsComb(lex, n)
    ensures AlphaCount(Eigv(lex, n), n) == |lex|
  {
    if lex == [] {
      AlphaCountNone(n, n);
    } else {
      var init, x := lex[..|lex| - 1], lex[|lex| - 1];
      assert IsComb(init, n);
      EigvAlphaCount(init, n);
      forall t | 0 <= t < |init| ensures init[t] != x {
        assert init[t] == lex[t] < lex[|lex| - 1];
      }
      assert lex == init + [x];
      forall t | 0 <= t < n && t != x ensures Eigv(init, n)[t] == Eigv(lex, n)[t] {
        assert (t in lex) == (t in init);
      }
      AlphaCountPoint(Eigv(init, n), Eigv(lex, n), x, n);
    }
  }

  /** At the end of a pass over a k-subset of the singly occupied orbitals,
      i_somo is n_somo, i_alpha is k + n_domo and i_beta is
      n_somo - k + n_domo. */
  lemma FinalCounts(st: seq<Step>, lex: seq<int>, rule: Reduction)
    requires IsComb(lex, SomoCount(st))
    ensures var w := Walk(st, Eigv(lex, SomoCount(st)), rule);
            && w.iSomo == SomoCount(st)
            && w.iAlpha == |lex| + DomoCount(st)
            && w.iBeta == SomoCount(st) - |lex| + DomoCount(st)
  {
    WalkShape(st, Eigv(lex, SomoCount(st)), rule, |st|);
    WalkCounts(st, Eigv(lex, SomoCount(st)), rule, |st|);
    EigvAlphaCount(lex, SomoCount(st));
  }

  /** How many times ch occurs in s. */
  function CharCount(s: seq<char>, ch: char): (n: nat)
    ensures n <= |s|
  {
    if s == [] then 0 else CharCount(s[..|s| - 1], ch) + (if s[|s| - 1] == ch then 1 else 0)
  }

  /** The determinant after m orbitals has one 'a' per alpha and one 'b' per
      beta singly occupied orbital seen so far. */
  lemma {:induction false} WalkAlphas(st: seq<Step>, eigv: seq<int>, rule: Reduction, m: nat)
    requires m <= |st|
    ensures var w := WalkPrefix(st, eigv, rule, m);
            && CharCount(w.det, 'a') == AlphaCount(eigv, w.iSomo)
            && CharCount(w.det, 'b') == w.iSomo - AlphaCount(eigv, w.iSomo)
  {
    if m > 0 {
      WalkAlphas(st, eigv, rule, m - 1);
      var w := WalkPrefix(st, eigv, rule, m - 1);
      AlphasStep(w, st[m - 1], RowAt(st, m - 1), eigv, rule);
    }
  }

  /** One orbital keeps the 'a' and 'b' counts of WalkAlphas. */
  lemma AlphasStep(w: Walker, x: Step, r: Row, eigv: seq<int>, rule: Reduction)
    requires CharCount(w.det, 'a') == AlphaCount(eigv, w.iSomo)
    requires CharCount(w.det, 'b') == w.iSomo - AlphaCount(eigv, w.iSomo)
    ensures var w' := Advance(w, x, r, IsAlpha(eigv, w.iSomo), rule);
            && CharCount(w'.det, 'a') == AlphaCount(eigv, w'.iSomo)
            && CharCount(w'.det, 'b') == w'.iSomo - AlphaCount(eigv, w'.iSomo)
  {
    var alpha := IsAlpha(eigv, w.iSomo);
    AdvanceShape(w, x, r, alpha, rule);
    var ch := DetChar(x, alpha);
    CharCountAppend(w.det, ch, 'a');
    CharCountAppend(w.det, ch, 'b');
  }

  lemma CharCountAppend(s: seq<char>, c: char, ch: char)
    ensures CharCount(s + [c], ch) == CharCount(s, ch) + (if c == ch then 1 else 0)
  {
    assert (s + [c])[..|s|] == s;
  }

  // ---------------------------------------------------------------------
  // The fraction

  lemma MulCross(a: int, b: int, c: int, d: int, p: int, q: int)
    requires a * d == c * b
    ensures (a * p) * (d * q) == (c * p) * (b * q)
  {
    calc {
      (a * p) * (d * q);
      (a * d) * (p * q);
      (c * b) * (p * q);
      (c * p) * (b * q);
    }
  }

  lemma MulZero(a: int, p: int)
    ensures a * p == 0 <==> a == 0 || p == 0
  {
    if a != 0 && p != 0 {
      AbsMulGe(a, p);
    }
  }

  /** Reducing keeps the value: r.nom * e.denom == e.nom * r.denom whenever
      f.nom * e.denom == e.nom * f.denom. */
  lemma ReduceKeepsCross(rule: Reduction, f: Frac, e: Frac)
    requires f.nom * e.denom == e.nom * f.denom
    requires f.nom == 0 <==> e.nom == 0
    ensures Reduce(rule, f).nom * e.denom == e.nom * Reduce(rule, f).denom
    ensures Reduce(rule, f).nom == 0 <==> f.nom == 0
  {
    var r := Reduce(rule, f);
    if rule != Exact && f.nom != 0 {
      var g := ReductionFactor(f);
      assert r == Reduced(f);
      ReducedScales(f);
      MulAssoc(g, r.nom, e.denom);
      MulAssoc(g, r.denom, e.nom);
      assert g * (r.nom * e.denom) == g * (e.nom * r.denom);
      Cancel(g, r.nom * e.denom, e.nom * r.denom);
    }
  }

  /** A reduced pass and the exact pass agree on everything but the
      fraction, and their fractions have the same value: a zero numerator in
      one is a zero numerator in the other, and the cross products agree. */
  lemma {:induction false} ReductionKeepsValue(st: seq<Step>, eigv: seq<int>, rule: Reduction, m: nat)
    requires m <= |st|
    ensures var w, e := WalkPrefix(st, eigv, rule, m), WalkPrefix(st, eigv, Exact, m);
            && w.(frac := e.frac) == e
            && (w.frac.nom == 0 <==> e.frac.nom == 0)
            && w.frac.nom * e.frac.denom == e.frac.nom * w.frac.denom
  {
    if m > 0 {
      ReductionKeepsValue(st, eigv, rule, m - 1);
      var w, e := WalkPrefix(st, eigv, rule, m - 1), WalkPrefix(st, eigv, Exact, m - 1);
      ValueStep(w, e, st[m - 1], RowAt(st, m - 1), IsAlpha(eigv, w.iSomo), rule);
    }
  }

  /** One orbital keeps the agreement of ReductionKeepsValue. */
  lemma ValueStep(w: Walker, e: Walker, x: Step, r: Row, alpha: bool, rule: Reduction)
    requires w.(frac := e.frac) == e
    requires w.frac.nom == 0 <==> e.frac.nom == 0
    requires w.frac.nom * e.frac.denom == e.frac.nom * w.frac.denom
    ensures var w', e' := Advance(w, x, r, alpha, rule), Advance(e, x, r, alpha, Exact);
            && w'.(frac := e'.frac) == e'
            && (w'.frac.nom == 0 <==> e'.frac.nom == 0)
            && w'.frac.nom * e'.frac.denom == e'.frac.nom * w'.frac.denom
  {
    var p, q := NomFactor(x, r, alpha, w.iAlpha, w.iBeta), DenomFactor(x, r);
    var f := Frac(w.frac.nom * p, w.frac.denom * q);
    var f' := Frac(e.frac.nom * p, e.frac.denom * q);
    MulCross(w.frac.nom, w.frac.denom, e.frac.nom, e.frac.denom, p, q);
    MulZero(w.frac.nom, p);
    MulZero(e.frac.nom, p);
    ReduceKeepsCross(rule, f, f');
  }

  /** The exact denominator is never zero while every b so far is
      non-negative: a 'u' multiplies by b >= 1, a 'd' by b + 2 >= 2. */
  lemma {:induction false} ExactDenomNonzero(st: seq<Step>, eigv: seq<int>, m: nat)
    requires m <= |st|
    requires forall t :: 0 <= t < m ==> RowAt(st, t).b >= 0
    ensures WalkPrefix(st, eigv, Exact, m).frac.denom != 0
  {
    if m > 0 {
      ExactDenomNonzero(st, eigv, m - 1);
      var d := WalkPrefix(st, eigv, Exact, m - 1).frac.denom;
      var q := DenomFactor(st[m - 1], RowAt(st, m - 1));
      assert q >= 1 by {
        if m - 1 > 0 {
          assert RowAt(st, m - 2).b >= 0;
        }
      }
      MulZero(d, q);
    }
  }

  /** Under the C and JS reduction the denominator stays nonzero whenever
      the exact one does. */
  lemma {:induction false} KeepZeroDenomNonzero(st: seq<Step>, eigv: seq<int>, m: nat)
    requires m <= |st|
    requires WalkPrefix(st, eigv, Exact, m).frac.denom != 0
    ensures WalkPrefix(st, eigv, KeepZero, m).frac.denom != 0
  {
    if m > 0 {
      var w, e := WalkPrefix(st, eigv, KeepZero, m - 1), WalkPrefix(st, eigv, Exact, m - 1);
      var q := DenomFactor(st[m - 1], RowAt(st, m - 1));
      MulZero(e.frac.denom, q);
      KeepZeroDenomNonzero(st, eigv, m - 1);
      MulZero(w.frac.denom, q);
    }
  }

  /** The two reductions of the programs give the same pass except for the
      denominator of a zero numerator: the C and JS reduction keeps it, the
      Rust one makes it 0. */
  lemma {:induction false} ReductionsAgree(st: seq<Step>, eigv: seq<int>, m: nat)
    requires m <= |st|
    ensures var w1, w2 := WalkPrefix(st, eigv, KeepZero, m), WalkPrefix(st, eigv, ZeroOverZero, m);
            && w1.(frac := w2.frac) == w2
            && w1.frac.nom == w2.frac.nom
            && (w1.frac.nom != 0 ==> w1.frac.denom == w2.frac.denom)
  {
    if m > 0 {
      ReductionsAgree(st, eigv, m - 1);
      var w1, w2 := WalkPrefix(st, eigv, KeepZero, m - 1), WalkPrefix(st, eigv, ZeroOverZero, m - 1);
      var x, r := st[m - 1], RowAt(st, m - 1);
      var p := NomFactor(x, r, IsAlpha(eigv, w1.iSomo), w1.iAlpha, w1.iBeta);
      MulZero(w1.frac.nom, p);
    }
  }

  /** Hence both reductions emit the same lines. */
  lemma LinesAgree(st: seq<Step>, nSomo: nat, k: nat, j: nat)
    requires j <= Binomial(nSomo, k)
    ensures Lines(st, nSomo, k, KeepZero, j) == Lines(st, nSomo, k, ZeroOverZero, j)
  {
    if j > 0 {
      LinesAgree(st, nSomo, k, j - 1);
      ReductionsAgree(st, Eigv(NthComb(nSomo, k, j - 1), nSomo), |st|);
    }
  }

  /** The whole expansion: the lines of the C and JS reduction are those
      of the Rust reduction. */
  lemma ExpansionsAgree(st: seq<Step>, nSomo: nat, k: nat)
    ensures Expansion(st, nSomo, k, KeepZero) == Expansion(st, nSomo, k, ZeroOverZero)
  {
    LinesAgree(st, nSomo, k, Binomial(nSomo, k));
  }

  /** With no alpha electron among the singly occupied orbitals there is
      one subset, the empty one, and at most one line: that of the all-beta
      eigenvalue vector. */
  lemma NoAlphaExpansion(st: seq<Step>, nSomo: nat, rule: Reduction)
    ensures Expansion(st, nSomo, 0, rule) == Emit(LineOf(st, Eigv([], nSomo), rule))
    ensures forall s :: 0 <= s < nSomo ==> Eigv([], nSomo)[s] == -1
  {
    assert Binomial(nSomo, 0) == 1;
    assert NthComb(nSomo, 0, 0) == [];
    assert Lines(st, nSomo, 0, rule, 1) == Emit(SubsetLine(st, nSomo, 0, rule, 0));
  }

  // ---------------------------------------------------------------------
  // The printed lines

  /** A printed line has a nonzero numerator, a phase of +1 or -1, and one
      determinant character per orbital: '0' and '2' for the empty and
      doubly occupied orbitals, 'a' or 'b' for a singly occupied one as the
      eigenvalue vector says for its position among the singly occupied
      orbitals. */
  lemma LineOfShape(st: seq<Step>, eigv: seq<int>, rule: Reduction)
    ensures LineOf(st, eigv, rule).Some? <==> Walk(st, eigv, rule).frac.nom != 0
    ensures LineOf(st, eigv, rule).Some? ==>
              var l := LineOf(st, eigv, rule).value;
              && l.nom != 0 && (l.phase == 1 || l.phase == -1) && |l.det| == |st|
              && forall i :: 0 <= i < |st| ==> l.det[i] == DetChar(st[i], IsAlpha(eigv, SomosBefore(st, i)))
  {
    WalkShape(st, eigv, rule, |st|);
    forall i | 0 <= i < |st|
      ensures Walk(st, eigv, rule).det[i] == DetChar(st[i], IsAlpha(eigv, SomosBefore(st, i)))
    {
      WalkDet(st, eigv, rule, |st|, i);
    }
  }

  /** The line of the i-th subset of the enumeration, if it prints one. */
  function SubsetLine(st: seq<Step>, nSomo: nat, k: nat, rule: Reduction, i: nat): Option<Line>
    requires i < Binomial(nSomo, k)
  {
    LineOf(st, Eigv(NthComb(nSomo, k, i), nSomo), rule)
  }

  /** The candidate lines of the first j subsets, one per subset. */
  function Candidates(st: seq<Step>, nSomo: nat, k: nat, rule: Reduction, j: nat): (cs: seq<Option<Line>>)
    requires j <= Binomial(nSomo, k)
    ensures |cs| == j
  {
    if j == 0 then [] else Candidates(st, nSomo, k, rule, j - 1) + [SubsetLine(st, nSomo, k, rule, j - 1)]
  }

  lemma {:induction false} CandidatesAt(st: seq<Step>, nSomo: nat, k: nat, rule: Reduction, j: nat, i: nat)
    requires i < j <= Binomial(nSomo, k)
    ensures Candidates(st, nSomo, k, rule, j)[i] == SubsetLine(st, nSomo, k, rule, i)
  {
    if i < j - 1 {
      CandidatesAt(st, nSomo, k, rule, j - 1, i);
    }
  }

  /** The present candidates, in order. */
  function Present(cs: seq<Option<Line>>): seq<Line>
  {
    if cs == [] then [] else Present(cs[..|cs| - 1]) + Emit(cs[|cs| - 1])
  }

  /** The positions of the present candidates. */
  function Positions(cs: seq<Option<Line>>): seq<nat>
  {
    if cs == [] then [] else Positions(cs[..|cs| - 1]) + (if cs[|cs| - 1].Some? then [|cs| - 1] else [])
  }

  /** The lines are the present candidates. */
  lemma {:induction false} LinesPresent(st: seq<Step>, nSomo: nat, k: nat, rule: Reduction, j: nat)
    requires j <= Binomial(nSomo, k)
    ensures Lines(st, nSomo, k, rule, j) == Present(Candidates(st, nSomo, k, rule, j))
  {
    if j > 0 {
      LinesPresent(st, nSomo, k, rule, j - 1);
      var cs := Candidates(st, nSomo, k, rule, j);
      assert cs[..j - 1] == Candidates(st, nSomo, k, rule, j - 1);
    }
  }

  /** Present line p is the candidate at position p, and the positions
      strictly increase: at most one line per candidate. */
  lemma {:induction false} PresentSound(cs: seq<Option<Line>>)
    ensures var ls, ps := Present(cs), Positions(cs);
            && |ps| == |ls| <= |cs|
            && (forall p :: 0 <= p < |ps| ==> ps[p] < |cs| && cs[ps[p]] == Some(ls[p]))
            && (forall p, q :: 0 <= p < q < |ps| ==> ps[p] < ps[q])
  {
    if cs != [] {
      var init := cs[..|cs| - 1];
      PresentSound(init);
      var o := cs[|cs| - 1];
      if o.Some? {
        assert Emit(o) == [o.value];
      }
      forall p | 0 <= p < |Positions(init)|
        ensures cs[Positions(init)[p]] == init[Positions(init)[p]]
      {
      }
    }
  }

  /** Every present candidate is a line. */
  lemma {:induction false} PresentComplete(cs: seq<Option<Line>>)
    ensures forall i :: 0 <= i < |cs| && cs[i].Some? ==> cs[i].value in Present(cs)
  {
    if cs != [] {
      var init := cs[..|cs| - 1];
      PresentComplete(init);
      var o := cs[|cs| - 1];
      forall i | 0 <= i < |cs| && cs[i].Some?
        ensures cs[i].value in Present(init) + Emit(o)
      {
        if i < |cs| - 1 {
          assert cs[i] == init[i];
        } else {
          assert Emit(o) == [o.value];
        }
      }
    }
  }

  /** The lines of the first j subsets are the lines of those subsets whose
      pass ends with a nonzero numerator, in enumeration order: line p comes
      from the subset at position Positions[p], the positions strictly
      increase, and each subset whose pass prints gives its line. */
  lemma LinesExactly(st: seq<Step>, nSomo: nat, k: nat, rule: Reduction, j: nat)
    requires j <= Binomial(nSomo, k)
    ensures var ls, ps := Lines(st, nSomo, k, rule, j), Positions(Candidates(st, nSomo, k, rule, j));
            && |ps| == |ls| <= j
            && (forall p :: 0 <= p < |ps| ==> ps[p] < j && SubsetLine(st, nSomo, k, rule, ps[p]) == Some(ls[p]))
            && (forall p, q :: 0 <= p < q < |ps| ==> ps[p] < ps[q])
            && (forall i :: 0 <= i < j && SubsetLine(st, nSomo, k, rule, i).Some? ==> SubsetLine(st, nSomo, k, rule, i).value in ls)
  {
    var cs := Candidates(st, nSomo, k, rule, j);
    LinesPresent(st, nSomo, k, rule, j);
    PresentSound(cs);
    PresentComplete(cs);
    forall i | 0 <= i < j
      ensures cs[i] == SubsetLine(st, nSomo, k, rule, i)
    {
      CandidatesAt(st, nSomo, k, rule, j, i);
    }
  }

  /** The shape of a printed line of a step vector st with k alpha
      orbitals: a nonzero numerator, a phase of +1 or -1 and one character
      per orbital, '0' exactly at the empty orbitals, '2' exactly at the
      doubly occupied ones, k times 'a' and n_somo - k times 'b'. */
  ghost predicate Shaped(st: seq<Step>, k: nat, l: Line)
  {
    && l.nom != 0 && (l.phase == 1 || l.phase == -1) && |l.det| == |st|
    && CharCount(l.det, 'a') == k && CharCount(l.det, 'b') == SomoCount(st) - k
    && (forall p :: 0 <= p < |st| ==> (l.det[p] == '0' <==> st[p].Empty?) && (l.det[p] == '2' <==> st[p].Double?))
  }

  /** The line of a subset of k alpha orbitals, when printed, is shaped. */
  lemma SubsetLineShape(st: seq<Step>, k: nat, rule: Reduction, i: nat)
    requires i < Binomial(SomoCount(st), k)
    requires SubsetLine(st, SomoCount(st), k, rule, i).Some?
    ensures Shaped(st, k, SubsetLine(st, SomoCount(st), k, rule, i).value)
  {
    CombValid(0, SomoCount(st), k, i);
    CombLineShape(st, NthComb(SomoCount(st), k, i), rule);
  }

  lemma CombLineShape(st: seq<Step>, lex: seq<int>, rule: Reduction)
    requires IsComb(lex, SomoCount(st))
    requires LineOf(st, Eigv(lex, SomoCount(st)), rule).Some?
    ensures Shaped(st, |lex|, LineOf(st, Eigv(lex, SomoCount(st)), rule).value)
  {
    var n := SomoCount(st);
    var eigv := Eigv(lex, n);
    var w := Walk(st, eigv, rule);
    var l := LineOf(st, eigv, rule).value;
    assert l == Line(w.phase, w.frac.nom, w.frac.denom, w.det);
    LineOfShape(st, eigv, rule);
    FinalCounts(st, lex, rule);
    WalkAlphas(st, eigv, rule, |st|);
    EigvAlphaCount(lex, n);
    assert CharCount(l.det, 'a') == |lex|;
    forall p | 0 <= p < |st|
      ensures (l.det[p] == '0' <==> st[p].Empty?) && (l.det[p] == '2' <==> st[p].Double?)
    {
      assert l.det[p] == DetChar(st[p], IsAlpha(eigv, SomosBefore(st, p)));
    }
  }

  /** Every line of the expansion under the C and JS reduction is shaped
      and, when every b is non-negative, has a nonzero denominator. */
  lemma ExpansionShape(st: seq<Step>, k: nat)
    ensures forall l :: l in Expansion(st, SomoCount(st), k, KeepZero) ==>
              Shaped(st, k, l) && (SpinNonNegative(st) ==> l.denom != 0)
  {
    var n := SomoCount(st);
    var j := Binomial(n, k);
    LinesExactly(st, n, k, KeepZero, j);
    var ls, ps := Lines(st, n, k, KeepZero, j), Positions(Candidates(st, n, k, KeepZero, j));
    forall q | 0 <= q < |ls|
      ensures Shaped(st, k, ls[q]) && (SpinNonNegative(st) ==> ls[q].denom != 0)
    {
      var i := ps[q];
      SubsetLineShape(st, k, KeepZero, i);
      if SpinNonNegative(st) {
        var eigv := Eigv(NthComb(n, k, i), n);
        ExactDenomNonzero(st, eigv, |st|);
        KeepZeroDenomNonzero(st, eigv, |st|);
      }
    }
  }

  // ---------------------------------------------------------------------
  // A zero numerator

  /** Once the numerator is zero it stays zero, under every reduction. */
  lemma {:induction false} ZeroStays(st: seq<Step>, eigv: seq<int>, rule: Reduction, m: nat, m': nat)
    requires m <= m' <= |st| && WalkPrefix(st, eigv, rule, m).frac.nom == 0
    ensures WalkPrefix(st, eigv, rule, m').frac.nom == 0
    decreases m' - m
  {
    if m < m' {
      ZeroStays(st, eigv, rule, m, m' - 1);
    }
  }

  /** A step vector that starts with 'd' has a zero coefficient for every
      subset: the first orbital multiplies the numerator by
      i_beta - a + 1 or i_alpha - a + 1, both 0 - 1 + 1. */
  lemma LeadingDownSilent(st: seq<Step>, eigv: seq<int>, rule: Reduction)
    requires |st| >= 1 && st[0] == Down
    ensures LineOf(st, eigv, rule) == None
  {
    var r, alpha := RowAt(st, 0), IsAlpha(eigv, 0);
    assert r == Row(1, -1, 1);
    assert NomFactor(Down, r, alpha, 0, 0) == 0;
    assert WalkPrefix(st, eigv, rule, 1) == Advance(Start, Down, r, alpha, rule);
    assert WalkPrefix(st, eigv, rule, 1).frac.nom == 0;
    ZeroStays(st, eigv, rule, 1, |st|);
  }

  /** Hence a step vector that starts with 'd' prints no line for any of
      the first j subsets. */
  lemma {:induction false} SilentLines(st: seq<Step>, n: nat, k: nat, rule: Reduction, j: nat)
    requires |st| >= 1 && st[0] == Down && j <= Binomial(n, k)
    ensures Lines(st, n, k, rule, j) == []
  {
    if j > 0 {
      SilentLines(st, n, k, rule, j - 1);
      LeadingDownSilent(st, Eigv(NthComb(n, k, j - 1), n), rule);
    }
  }
}
