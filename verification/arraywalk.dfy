/** The code that the C and JS programs write statement for statement the
    same way over integer arrays: filling the Paldus table from the csf
    array, the subset record with its successor step `combination` (C) or
    `next_combination` (JS), setting up the spin eigenvalue vector of a
    subset, the coefficient pass over the orbitals, and the do-while loop
    over the subsets. Each is proved to compute the corresponding function
    of Combinations and Coefficients. */
module ArrayWalk {
  import opened Results
  import opened Fractions
  import opened Steps
  import opened Combinations
  import opened Coefficients

  /** The csf array holds the step numbers of st. */
  ghost predicate Coded(csf: array<int>, st: seq<Step>)
    reads csf
  {
    csf.Length == |st| && forall i :: 0 <= i < |st| ==> csf[i] == Code(st[i])
  }

  /** The store of the decoding switch, `csf[iorb] = step number of ch`
      for the symbol ch, after the first iorb steps st have been stored. */
  method StoreCode(csf: array<int>, iorb: nat, ch: char, ghost st: seq<Step>)
    requires IsSymbol(ch) && iorb == |st| < csf.Length && csf[..iorb] == Codes(st)
    modifies csf
    ensures csf[..iorb + 1] == Codes(st + [StepOf(ch).value])
  {
    ghost var x := StepOf(ch).value;
    var code := if ch == '0' then 0 else if ch == 'u' then 1 else if ch == 'd' then 2 else 3;
    assert code == Code(x);
    csf[iorb] := code;
    assert csf[..iorb + 1] == csf[..iorb] + [code];
  }

  /** The arrays a, b and c hold the Paldus table of st. */
  ghost predicate Tabled(a: array<int>, b: array<int>, c: array<int>, st: seq<Step>)
    reads a, b, c
  {
    && a.Length == |st| && b.Length == |st| && c.Length == |st|
    && forall i :: 0 <= i < |st| ==> Row(a[i], b[i], c[i]) == RowAt(st, i)
  }

  /** The arrays of a pass over st: the csf array and the Paldus table, a
      spin eigenvalue vector with one entry per singly occupied orbital, the
      fraction and the determinant, the vector and the fraction being apart
      from the arrays the pass reads them with. */
  ghost predicate Workspace(csf: array<int>, a: array<int>, b: array<int>, c: array<int>,
                            eigv: array<int>, frac: array<int>, det: array<char>, st: seq<Step>)
    reads csf, a, b, c
  {
    && Coded(csf, st) && Tabled(a, b, c, st)
    && eigv.Length == SomoCount(st) && det.Length == |st| && frac.Length == 2
    && eigv !in {a, b, c, csf} && frac !in {a, b, c, csf, eigv}
  }

  /** One increment of the table, applied in place at row i as the
      programs' switch on the step number does. */
  method BumpRow(csf: array<int>, a: array<int>, b: array<int>, c: array<int>, i: int, ghost st: seq<Step>)
    requires Coded(csf, st) && 0 <= i < |st|
    requires a.Length == |st| && b.Length == |st| && c.Length == |st|
    requires a != b && b != c && a != c
    modifies a, b, c
    ensures Row(a[i], b[i], c[i]) == Bump(old(Row(a[i], b[i], c[i])), st[i])
    ensures forall j :: 0 <= j < |st| && j != i ==> a[j] == old(a[j]) && b[j] == old(b[j]) && c[j] == old(c[j])
  {
    assert csf[i] == Code(st[i]);
    if csf[i] == 0 {
      c[i] := c[i] + 1;
    } else if csf[i] == 1 {
      b[i] := b[i] + 1;
    } else if csf[i] == 2 {
      a[i] := a[i] + 1;
      b[i] := b[i] - 1;
      c[i] := c[i] + 1;
    } else if csf[i] == 3 {
      a[i] := a[i] + 1;
    }
  }

  /** The Paldus table: row 0 is the zero row bumped by the first step, and
      every later row is a copy of the row before it bumped by its step. An
      empty csf gives empty arrays (the JS program's writes to index 0 of an
      empty typed array do nothing). */
  method PaldusTable(csf: array<int>, ghost st: seq<Step>) returns (a: array<int>, b: array<int>, c: array<int>)
    requires Coded(csf, st)
    ensures fresh(a) && fresh(b) && fresh(c)
    ensures Tabled(a, b, c, st)
  {
    var n := csf.Length;
    a := new int[n];
    b := new int[n];
    c := new int[n];
    if n == 0 {
      return;
    }
    a[0], b[0], c[0] := 0, 0, 0;
    BumpRow(csf, a, b, c, 0, st);
    var i := 1;
    while i < n
      invariant 1 <= i <= n
      invariant forall j :: 0 <= j < i ==> Row(a[j], b[j], c[j]) == RowAt(st, j)
    {
      a[i], b[i], c[i] := a[i - 1], b[i - 1], c[i - 1];
      BumpRow(csf, a, b, c, i, st);
      i := i + 1;
    }
  }

  /** The spin eigenvalue vector: -1 everywhere, then 1 at every index the
      subset lists. */
  method FillEigv(eigv: array<int>, lex: array<int>)
    requires eigv != lex
    requires forall i :: 0 <= i < lex.Length ==> 0 <= lex[i] < eigv.Length
    modifies eigv
    ensures eigv[..] == Eigv(lex[..], eigv.Length)
  {
    var i := 0;
    while i < eigv.Length
      invariant 0 <= i <= eigv.Length
      invariant forall s :: 0 <= s < i ==> eigv[s] == -1
    {
      eigv[i] := -1;
      i := i + 1;
    }
    i := 0;
    while i < lex.Length
      invariant 0 <= i <= lex.Length
      invariant forall s :: 0 <= s < eigv.Length ==> eigv[s] == if s in lex[..i] then 1 else -1
    {
      assert lex[..i + 1] == lex[..i] + [lex[i]];
      eigv[lex[i]] := 1;
      i := i + 1;
    }
    assert lex[..i] == lex[..];
  }

  /** One orbital of the pass, in place: the step's branch updates the
      phase, the fraction, the counters and the determinant, and the
      fraction is then reduced. The orbital has step x and Paldus row r, and
      alpha says whether the spin eigenvalue vector holds 1 at i_somo. */
  method Step(csf: array<int>, a: array<int>, b: array<int>, eigv: array<int>, frac: array<int>, det: array<char>,
              i: int, phase: int, iSomo: nat, iAlpha: nat, iBeta: nat, ghost x: Step, ghost r: Row, ghost alpha: bool)
    returns (phase': int, iSomo': nat, iAlpha': nat, iBeta': nat)
    requires 0 <= i < csf.Length == a.Length == b.Length == det.Length
    requires csf[i] == Code(x) && a[i] == r.a && b[i] == r.b
    requires IsSomo(x) ==> iSomo < eigv.Length && alpha == (eigv[iSomo] == 1)
    requires frac.Length == 2 && frac !in {a, b, csf, eigv}
    modifies frac, det
    ensures var w := Walker(phase, Frac(old(frac[0]), old(frac[1])), iSomo, iAlpha, iBeta, old(det[..i]));
            Walker(phase', Frac(frac[0], frac[1]), iSomo', iAlpha', iBeta', det[..i + 1]) == Advance(w, x, r, alpha, KeepZero)
    ensures forall j :: 0 <= j < det.Length && j != i ==> det[j] == old(det[j])
  {
    ghost var f := Frac(frac[0] * NomFactor(x, r, alpha, iAlpha, iBeta), frac[1] * DenomFactor(x, r));
    phase', iSomo', iAlpha', iBeta' := phase, iSomo, iAlpha, iBeta;
    if csf[i] == 0 {
      det[i] := '0';
    } else if csf[i] == 1 {
      var up := eigv[iSomo'] == 1;
      iSomo' := iSomo' + 1;
      if up {
        det[i] := 'a';
        frac[0] := frac[0] * (a[i] + b[i] - iBeta');
        iAlpha' := iAlpha' + 1;
      } else {
        det[i] := 'b';
        frac[0] := frac[0] * (a[i] + b[i] - iAlpha');
        iBeta' := iBeta' + 1;
      }
      frac[1] := frac[1] * b[i];
    } else if csf[i] == 2 {
      var up := eigv[iSomo'] == 1;
      iSomo' := iSomo' + 1;
      if up {
        det[i] := 'a';
        frac[0] := frac[0] * (iBeta' - a[i] + 1);
        iAlpha' := iAlpha' + 1;
        if Rem(b[i], 2) == 0 { phase' := -phase'; }
      } else {
        det[i] := 'b';
        frac[0] := frac[0] * (iAlpha' - a[i] + 1);
        iBeta' := iBeta' + 1;
        if Rem(b[i], 2) != 0 { phase' := -phase'; }
      }
      frac[1] := frac[1] * (b[i] + 2);
    } else {
      det[i] := '2';
      if Rem(b[i], 2) != 0 { phase' := -phase'; }
      iAlpha' := iAlpha' + 1;
      iBeta' := iBeta' + 1;
    }
    assert Frac(frac[0], frac[1]) == f;
    assert det[..i + 1] == old(det[..i]) + [DetChar(x, alpha)];
    var _ := Simplify(frac);
  }

  /** The coefficient pass for one subset: starting from phase 1, fraction
      1/1 and zero counters, every orbital is stepped in turn. The result is
      the pass of Coefficients under the C and JS reduction. */
  method WalkPass(csf: array<int>, a: array<int>, b: array<int>, eigv: array<int>, frac: array<int>, det: array<char>,
                  ghost st: seq<Step>, ghost c: array<int>)
    returns (phase: int, iSomo: nat, iAlpha: nat, iBeta: nat)
    requires Workspace(csf, a, b, c, eigv, frac, det, st)
    modifies frac, det
    ensures Walker(phase, Frac(frac[0], frac[1]), iSomo, iAlpha, iBeta, det[..]) == Walk(st, eigv[..], KeepZero)
  {
    ghost var e := eigv[..];
    phase := 1;
    frac[0], frac[1] := 1, 1;
    iSomo, iAlpha, iBeta := 0, 0, 0;
    var i := 0;
    while i < csf.Length
      invariant 0 <= i <= csf.Length
      invariant Walker(phase, Frac(frac[0], frac[1]), iSomo, iAlpha, iBeta, det[..i]) == WalkPrefix(st, e, KeepZero, i)
    {
      WalkShape(st, e, KeepZero, i);
      ghost var x, r := st[i], RowAt(st, i);
      assert csf[i] == Code(x) && Row(a[i], b[i], c[i]) == r;
      if IsSomo(x) {
        SomoBefore(st, i);
        assert eigv[iSomo] == e[iSomo];
      }
      phase, iSomo, iAlpha, iBeta := Step(csf, a, b, eigv, frac, det, i, phase, iSomo, iAlpha, iBeta, x, r, IsAlpha(e, iSomo));
      i := i + 1;
    }
    assert det[..i] == det[..];
  }

  // ---------------------------------------------------------------------
  // The subsets

  /** `struct kCn` of the C program and the `comb_alpha` object of the JS
      program: the set size n, the subset size k and the k entries of the
      subset lex, which the successor step updates in place. */
  class KCn {
    const n: nat
    const k: nat
    const lex: array<int>

    constructor (n: nat, k: nat)
      ensures this.n == n && this.k == k && lex.Length == k && fresh(lex)
    {
      this.n, this.k := n, k;
      lex := new int[k];
    }
  }

  /** `combination` / `next_combination`: search backward for the
      rightmost entry below its maximum n - k + ptr; if there is one, raise
      it and refill the entries after it with the consecutive values that
      follow, and return true (1 in C); otherwise return false and leave lex
      alone. */
  method Combination(comb: KCn) returns (found: bool)
    requires comb.lex.Length == comb.k
    modifies comb.lex
    ensures Successor(old(comb.lex[..]), comb.n).Some? ==> found && comb.lex[..] == Successor(old(comb.lex[..]), comb.n).value
    ensures Successor(old(comb.lex[..]), comb.n).None? ==> !found && comb.lex[..] == old(comb.lex[..])
  {
    var lex, n, k := comb.lex, comb.n, comb.k;
    var ptr := k - 1;
    while ptr >= 0 && lex[ptr] == n - k + ptr
      invariant -1 <= ptr < k
      invariant Pivot(lex[..], n, k) == Pivot(lex[..], n, ptr + 1)
    {
      ptr := ptr - 1;
    }
    if ptr >= 0 {
      ghost var l := lex[..];
      lex[ptr] := lex[ptr] + 1;
      var i := 1;
      while i < k - ptr
        invariant 1 <= i <= k - ptr
        invariant lex[..ptr] == l[..ptr]
        invariant forall q :: ptr <= q < ptr + i ==> lex[q] == l[ptr] + 1 + (q - ptr)
      {
        lex[ptr + i] := lex[ptr] + i;
        i := i + 1;
      }
      assert lex[..] == l[..ptr] + Run(l[ptr] + 1, k - ptr);
      return true;
    } else {
      return false;
    }
  }

  /** The set-up of the first subset: lex[q] = q for every q < k. */
  method FirstSubset(comb: KCn)
    requires comb.lex.Length == comb.k
    modifies comb.lex
    ensures comb.lex[..] == Run(0, comb.k)
  {
    var i := 0;
    while i < comb.k
      invariant 0 <= i <= comb.k
      invariant forall q :: 0 <= q < i ==> comb.lex[q] == q
    {
      comb.lex[i] := i;
      i := i + 1;
    }
  }

  /** The body of the do-while loop for one subset: set up spin_eigv, make
      the pass and print a line when the numerator is nonzero. */
  method Visit(csf: array<int>, a: array<int>, b: array<int>, lex: array<int>, eigv: array<int>, frac: array<int>,
               det: array<char>, ghost st: seq<Step>, ghost c: array<int>)
    returns (line: Option<Line>)
    requires Workspace(csf, a, b, c, eigv, frac, det, st)
    requires IsComb(lex[..], eigv.Length) && lex !in {eigv, frac}
    modifies eigv, frac, det
    ensures line == LineOf(st, Eigv(lex[..], eigv.Length), KeepZero)
  {
    FillEigv(eigv, lex);
    var phase, iSomo, iAlpha, iBeta := WalkPass(csf, a, b, eigv, frac, det, st, c);
    if frac[0] != 0 {
      line := Some(Line(phase, frac[0], frac[1], det[..]));
    } else {
      line := None;
    }
  }

  /** The loop condition on the j-th subset of the enumeration: the
      successor step moves to subset j + 1, or reports that j was the last. */
  method NextSubset(comb: KCn, ghost j: nat) returns (more: bool)
    requires comb.lex.Length == comb.k && j < Binomial(comb.n, comb.k) && comb.lex[..] == NthComb(comb.n, comb.k, j)
    modifies comb.lex
    ensures more <==> j + 1 < Binomial(comb.n, comb.k)
    ensures more ==> comb.lex[..] == NthComb(comb.n, comb.k, j + 1)
  {
    SuccessorWalks(0, comb.n, comb.k, j);
    more := Combination(comb);
  }

  /** One round of the do-while loop on the j-th subset: the lines so far
      get the subset's line, if printed, and the successor step tells
      whether it moved on to subset j + 1. */
  method Round(csf: array<int>, a: array<int>, b: array<int>, comb: KCn, eigv: array<int>, frac: array<int>,
               det: array<char>, ghost st: seq<Step>, ghost c: array<int>, lines: seq<Line>, ghost j: nat)
    returns (lines': seq<Line>, more: bool)
    requires Workspace(csf, a, b, c, eigv, frac, det, st) && comb.lex !in {a, b, c, csf, eigv, frac}
    requires comb.n == eigv.Length && comb.lex.Length == comb.k
    requires j < Binomial(comb.n, comb.k) && comb.lex[..] == NthComb(comb.n, comb.k, j)
    requires lines == Lines(st, comb.n, comb.k, KeepZero, j)
    modifies comb.lex, eigv, frac, det
    ensures lines' == Lines(st, comb.n, comb.k, KeepZero, j + 1)
    ensures more <==> j + 1 < Binomial(comb.n, comb.k)
    ensures more ==> comb.lex[..] == NthComb(comb.n, comb.k, j + 1)
  {
    CombValid(0, comb.n, comb.k, j);
    var line := Visit(csf, a, b, comb.lex, eigv, frac, det, st, c);
    lines' := lines + Emit(line);
    more := NextSubset(comb, j);
  }

  /** The do-while loop over the subsets: visit the current subset and go
      on while the successor step finds one. */
  method Enumerate(csf: array<int>, a: array<int>, b: array<int>, comb: KCn, eigv: array<int>, frac: array<int>,
                   det: array<char>, ghost st: seq<Step>, ghost c: array<int>)
    returns (lines: seq<Line>)
    requires Workspace(csf, a, b, c, eigv, frac, det, st) && comb.lex !in {a, b, c, csf, eigv, frac}
    requires comb.n == eigv.Length && comb.lex.Length == comb.k <= comb.n && comb.lex[..] == Run(0, comb.k)
    modifies comb.lex, eigv, frac, det
    ensures lines == Expansion(st, comb.n, comb.k, KeepZero)
  {
    var n, k := comb.n, comb.k;
    CombFirst(0, n, k);
    lines := [];
    ghost var j := 0;
    var more := true;
    while more
      invariant Workspace(csf, a, b, c, eigv, frac, det, st)
      invariant 0 <= j <= Binomial(n, k)
      invariant more ==> j < Binomial(n, k) && comb.lex[..] == NthComb(n, k, j)
      invariant !more ==> j == Binomial(n, k)
      invariant lines == Lines(st, n, k, KeepZero, j)
      decreases Binomial(n, k) - j
    {
      lines, more := Round(csf, a, b, comb, eigv, frac, det, st, c, lines, j);
      j := j + 1;
    }
  }

  /** The determinant loop with its work arrays: det, the subset record
      comb_alpha, spin_eigv and the fraction, for n_alpha <= n_somo. */
  method Expand(csf: array<int>, a: array<int>, b: array<int>, nSomo: nat, nAlpha: nat,
                ghost st: seq<Step>, ghost c: array<int>)
    returns (lines: seq<Line>)
    requires Coded(csf, st) && Tabled(a, b, c, st)
    requires nSomo == SomoCount(st) && nAlpha <= nSomo
    ensures lines == Expansion(st, nSomo, nAlpha, KeepZero)
  {
    var det := new char[csf.Length];
    var comb := new KCn(nSomo, nAlpha);
    var eigv := new int[nSomo];
    var frac := new int[2];
    FirstSubset(comb);
    lines := Enumerate(csf, a, b, comb, eigv, frac, det, st, c);
  }
}
