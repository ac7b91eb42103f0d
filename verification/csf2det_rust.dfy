/** The Rust program: `csf2det(stepvec, twoms)` first prints the Ms line,
    then decodes the step vector while it builds the Paldus table (every
    character must be a step symbol, a space included), rejects an Ms that
    does not exist for the spin, and prints one line per determinant with a
    nonzero coefficient, the coefficient written by `impl Display for
    Fraction`. It has no check of the ordering of 'u' and 'd'. */
module CsfRust {
  import opened Results
  import opened Fractions
  import opened Steps
  import opened Combinations
  import opened Coefficients
  import CsfC

  // ---------------------------------------------------------------------
  // Writing a fraction

  /** What `impl Display for Fraction` writes: the numerator alone, or
      numerator/denominator. */
  datatype Shown = Whole(n: int) | Ratio(nom: int, denom: int)

  /** s stands for the value of f (cross-multiplied, so that f may have any
      nonzero denominator). */
  predicate Denotes(s: Shown, f: Frac)
  {
    match s
    case Whole(n) => n * f.denom == f.nom
    case Ratio(p, q) => q != 0 && p * f.denom == f.nom * q
  }

  /** The numerator alone when it is zero or the denominator is one,
      otherwise both. What is written stands for the fraction whenever its
      denominator is nonzero. */
  function Display(f: Frac): (s: Shown)
    ensures f.denom != 0 ==> Denotes(s, f)
  {
    if f.nom == 0 || f.denom == 1 then Whole(f.nom) else Ratio(f.nom, f.denom)
  }

  /** The Ms of the first printed line: `Fraction { nom: twoms, denom: 2 }`
      simplified and written. */
  function MsShown(twoms: int): Shown
  {
    Display(Simplified(Frac(twoms, 2)))
  }

  /** The Ms line stands for twoms/2; it is a whole number exactly when
      twoms is even; an odd twoms is written over 2 when it is positive and
      over -2 when it is negative (the gcd of Euclid's algorithm with a
      truncating remainder is -1 there). */
  lemma MsShownValue(twoms: int)
    ensures Denotes(MsShown(twoms), Frac(twoms, 2))
    ensures MsShown(twoms).Whole? <==> twoms % 2 == 0
    ensures MsShown(twoms).Ratio? ==> MsShown(twoms) == if twoms < 0 then Ratio(-twoms, -2) else Ratio(twoms, 2)
  {
    RemEven(twoms);
    if twoms != 0 {
      var r := Rem(twoms, 2);
      QuotRem(twoms, 2);
      if r == 0 {
        assert Gcd(twoms, 2) == 2;
        QuotExact(twoms, 2, Quot(twoms, 2));
      } else if r == 1 {
        assert Gcd(twoms, 2) == Gcd(2, 1) == Gcd(1, 0) == 1;
        QuotExact(twoms, 1, twoms);
      } else {
        assert r == -1;
        assert Gcd(twoms, 2) == Gcd(2, -1) == Gcd(-1, 0) == -1;
        QuotExact(twoms, -1, -twoms);
        QuotExact(2, -1, -2);
      }
    }
  }

  /** A negative odd twoms puts the sign in the denominator: twoms = -1 is
      written "1/-2". */
  lemma MsMinusOneHalf()
    ensures MsShown(-1) == Ratio(1, -2)
  {
    MsShownValue(-1);
  }

  /** Writing a fraction with the sign moved to the numerator. */
  function DisplaySigned(f: Frac): (s: Shown)
    ensures f.denom != 0 ==> Denotes(s, f)
    ensures s.Ratio? ==> s.denom >= 0
  {
    if f.denom < 0 then
      assert f.nom * -1 == -f.nom;
      Display(Frac(-f.nom, -f.denom))
    else Display(f)
  }

  /** The Ms line as evidently intended: twoms/2 with a positive denominator. */
  function MsShownSigned(twoms: int): Shown
  {
    DisplaySigned(Simplified(Frac(twoms, 2)))
  }

  /** It stands for twoms/2, is whole exactly for an even twoms, and
      otherwise is twoms over 2. */
  lemma MsShownSignedValue(twoms: int)
    ensures Denotes(MsShownSigned(twoms), Frac(twoms, 2))
    ensures MsShownSigned(twoms).Whole? <==> twoms % 2 == 0
    ensures MsShownSigned(twoms).Ratio? ==> MsShownSigned(twoms) == Ratio(twoms, 2)
  {
    MsShownValue(twoms);
  }

  // ---------------------------------------------------------------------
  // The program as a function of its arguments

  /** Why the Rust program returns Err. */
  datatype Failure =
    | InvalidStep(step: char)
    | NoSuchMs(twoms: int, spin: int)

  /** One printed determinant line: sign, coefficient as written, determinant. */
  datatype Printed = Printed(sign: char, coef: Shown, det: seq<char>)

  /** What a successful call prints after the Ms line: the electron and
      orbital counts and the determinant lines (and then it returns
      `Ok("done!")`). */
  datatype Report = Report(electrons: int, orbitals: nat, lines: seq<Printed>)

  /** A call: the Ms line, which is printed whatever follows, and the outcome. */
  datatype Call = Call(ms: Shown, outcome: Result<Report, Failure>)

  /** How a determinant line is printed: '+' for a positive phase, '-'
      otherwise, then the fraction as written. */
  function Render(l: Line): Printed
  {
    Printed(if l.phase > 0 then '+' else '-', Display(Frac(l.nom, l.denom)), l.det)
  }

  function Rendered(ls: seq<Line>): (ps: seq<Printed>)
    ensures |ps| == |ls| && forall i {:trigger ps[i]} :: 0 <= i < |ls| ==> ps[i] == Render(ls[i])
  {
    seq(|ls|, i requires 0 <= i < |ls| => Render(ls[i]))
  }

  /** The Rust program as a function of its two arguments, with the Ms line
      as it is written (1/-2 for twoms = -1, see MsMinusOneHalf). An empty
      step vector makes it panic on `a[n_mo - 1]`. */
  function CsfToDets(stepvec: string, twoms: int): Call
    requires |stepvec| >= 1
  {
    Call(MsShown(twoms),
        match DecodeStrict(stepvec)
        case Err(ch) => Err(InvalidStep(ch))
        case Ok(st) => Checked(st, twoms))
  }

  /** Whatever the step vector, twoms = -1 prints the Ms line as 1/-2. */
  lemma MsLineAsWritten(stepvec: string)
    requires |stepvec| >= 1
    ensures CsfToDets(stepvec, -1).ms == Ratio(1, -2)
  {
    MsMinusOneHalf();
  }

  /** What the Rust program does once the step vector st is decoded: the
      single Ms check and the expansion under its reduction. */
  function Checked(st: seq<Step>, twoms: int): Result<Report, Failure>
    requires |st| >= 1
  {
    var last := RowAt(st, |st| - 1);
    if Abs(twoms) > last.b || Rem(last.b + twoms, 2) != 0 then Err(NoSuchMs(twoms, last.b))
    else
      CsfC.MsValid(st, twoms);
      var n := SomoCount(st);
      Ok(Report(2 * last.a + last.b, |st|, Rendered(Expansion(st, n, CsfC.NAlpha(n, twoms), ZeroOverZero))))
  }

  /** The program fails on a step exactly when the string holds a character
      other than the four symbols (a space is one), and it names the first
      such character. */
  lemma StepRejected(stepvec: string, twoms: int)
    requires |stepvec| >= 1
    ensures var out := CsfToDets(stepvec, twoms).outcome;
            && (out.Err? && out.error.InvalidStep? <==> exists i :: 0 <= i < |stepvec| && !IsSymbol(stepvec[i]))
            && (out.Err? && out.error.InvalidStep? ==>
                  exists i :: 0 <= i < |stepvec| && stepvec[i] == out.error.step && !IsSymbol(stepvec[i])
                              && forall j :: 0 <= j < i ==> IsSymbol(stepvec[j]))
  {
    DecodeStrictValid(stepvec);
  }

  /** A decoded step vector is accepted exactly when twoms lies between
      -spin and spin and has the parity of the spin b[n_mo - 1]; this also
      rejects every twoms when the spin is negative. */
  lemma MsAccepted(st: seq<Step>, twoms: int)
    requires |st| >= 1
    ensures var spin := RowAt(st, |st| - 1).b;
            Checked(st, twoms).Ok? <==> -spin <= twoms <= spin && (spin + twoms) % 2 == 0
  {
    var spin := RowAt(st, |st| - 1).b;
    assert Checked(st, twoms).Ok? <==> Abs(twoms) <= spin && Rem(spin + twoms, 2) == 0;
    RemEven(spin + twoms);
  }

  /** On a step vector with a valid ordering the Rust and C programs agree:
      the same counts and the same lines (printed in the Rust way), and an
      Ms refused by one of the two C checks is refused by the single Rust
      check. */
  lemma AgreesWithC(st: seq<Step>, twoms: int)
    requires |st| >= 1 && SpinNonNegative(st)
    ensures CsfC.Checked(st, twoms).Ok? <==> Checked(st, twoms).Ok?
    ensures CsfC.Checked(st, twoms).Ok? ==>
              var rep := CsfC.Checked(st, twoms).value;
              Checked(st, twoms).value == Report(rep.electrons, rep.orbitals, Rendered(rep.lines))
    ensures CsfC.Checked(st, twoms).Err? ==> Checked(st, twoms) == Err(NoSuchMs(twoms, RowAt(st, |st| - 1).b))
  {
    CsfC.MsAccepted(st, twoms);
    MsAccepted(st, twoms);
    if CsfC.Checked(st, twoms).Ok? {
      AcceptedAlike(st, twoms);
      SameReport(CsfC.Checked(st, twoms).value, Checked(st, twoms).value);
    }
  }

  /** On an Ms both programs accept, the reports agree field by field. */
  lemma AcceptedAlike(st: seq<Step>, twoms: int)
    requires |st| >= 1 && SpinNonNegative(st) && CsfC.Checked(st, twoms).Ok?
    ensures Checked(st, twoms).Ok?
    ensures Checked(st, twoms).value.electrons == CsfC.Checked(st, twoms).value.electrons
    ensures Checked(st, twoms).value.orbitals == CsfC.Checked(st, twoms).value.orbitals
    ensures Checked(st, twoms).value.lines == Rendered(CsfC.Checked(st, twoms).value.lines)
  {
    CsfC.MsValid(st, twoms);
    var n := SomoCount(st);
    ExpansionsAgree(st, n, CsfC.NAlpha(n, twoms));
  }

  /** Two reports with the same counts, one with the C lines and one with
      those lines rendered, are what AgreesWithC states. */
  lemma SameReport(c: CsfC.Report, r: Report)
    requires r.electrons == c.electrons && r.orbitals == c.orbitals && r.lines == Rendered(c.lines)
    ensures r == Report(c.electrons, c.orbitals, Rendered(c.lines))
  { }

  /** A step vector without spaces is decoded alike by both programs: an
      illegal character of the C program is the Rust program's invalid step. */
  lemma DecodingAgreesWithC(stepvec: string, twoms: int)
    requires |stepvec| >= 1 && forall i :: 0 <= i < |stepvec| ==> stepvec[i] != ' '
    ensures |WithoutSpaces(stepvec)| >= 1
    ensures CsfC.CsfToDets(stepvec, twoms).Err? && CsfC.CsfToDets(stepvec, twoms).error.IllegalCharacter?
            <==> CsfToDets(stepvec, twoms).outcome.Err? && CsfToDets(stepvec, twoms).outcome.error.InvalidStep?
    ensures CsfC.CsfToDets(stepvec, twoms).Err? && CsfC.CsfToDets(stepvec, twoms).error.IllegalCharacter? ==>
              CsfToDets(stepvec, twoms).outcome == Err(InvalidStep(CsfC.CsfToDets(stepvec, twoms).error.ch))
  {
    WithoutSpacesIdle(stepvec);
    SkippingSpacesIsStrictWithout(stepvec);
    var d := DecodeStrict(stepvec);
    assert DecodeSkippingSpaces(stepvec) == d;
    var outcome := CsfToDets(stepvec, twoms).outcome;
    match d
    case Err(ch) =>
      assert CsfC.CsfToDets(stepvec, twoms) == Err(CsfC.IllegalCharacter(ch));
      assert outcome == Err(InvalidStep(ch));
    case Ok(st) =>
      assert CsfC.CsfToDets(stepvec, twoms) == CsfC.Checked(st, twoms);
      assert outcome == Checked(st, twoms);
  }

  /** The Rust program has no ordering check: a step vector that starts
      with 'd' (b = -1 at the first orbital) is refused by the C program,
      while the Rust program, when its Ms check passes, prints no line at
      all; "du" with twoms = 0 passes it. */
  lemma OrderingUnchecked(st: seq<Step>, twoms: int)
    requires |st| >= 1 && st[0] == Down
    ensures CsfC.Checked(st, twoms) == Err(CsfC.InvalidOrdering)
    ensures Checked(st, twoms).Ok? ==> Checked(st, twoms).value.lines == []
    ensures st == [Down, Up] && twoms == 0 ==> Checked(st, twoms).Ok?
  {
    assert RowAt(st, 0).b == -1;
    var last := RowAt(st, |st| - 1);
    if Abs(twoms) <= last.b && Rem(last.b + twoms, 2) == 0 {
      CsfC.MsValid(st, twoms);
      var n := SomoCount(st);
      var k := CsfC.NAlpha(n, twoms);
      SilentLines(st, n, k, ZeroOverZero, Binomial(n, k));
    }
    if st == [Down, Up] {
      assert RowAt(st, 1).b == 0;
    }
  }

  /** A space is an invalid step for the Rust program, while the C program
      skips it: "u d" with twoms = 0 is refused here. */
  lemma SpaceRejected()
    ensures CsfToDets("u d", 0).outcome == Err(InvalidStep(' '))
  {
    DecodeStrictValid("u d");
    assert !IsSymbol(' ');
  }

  // ---------------------------------------------------------------------
  // The imperative program

  /** `struct Combination`: the set size n, the subset size k and the
      subset lex, which `next_combination` updates in place. */
  class Combination {
    var n: nat
    var k: nat
    var lex: seq<int>

    constructor (n: nat, k: nat, lex: seq<int>)
      ensures this.n == n && this.k == k && this.lex == lex
    {
      this.n, this.k, this.lex := n, k, lex;
    }
  }

  /** Positions from ptr on refilled with the run that starts at
      l[ptr] + 1 make the successor's vector. */
  lemma Refilled(lex: seq<int>, l: seq<int>, ptr: nat)
    requires ptr < |l| == |lex| && lex[..ptr] == l[..ptr]
    requires forall q :: ptr <= q < |l| ==> lex[q] == l[ptr] + 1 + (q - ptr)
    ensures lex == l[..ptr] + Run(l[ptr] + 1, |l| - ptr)
  {
    assert forall q :: 0 <= q < ptr ==> lex[q] == lex[..ptr][q];
  }

  /** `next_combination`: false at once for k = 0; otherwise search
      backward for the rightmost entry below its maximum n - k + ptr,
      returning false when even entry 0 is at its maximum; raise it, refill
      the entries after it with the consecutive values that follow, and
      return true. `n - k` is unsigned, so k <= n is demanded. */
  method NextCombination(c: Combination) returns (more: bool)
    requires |c.lex| == c.k <= c.n
    modifies c
    ensures c.n == old(c.n) && c.k == old(c.k)
    ensures more <==> Successor(old(c.lex), c.n).Some?
    ensures c.lex == if more then Successor(old(c.lex), c.n).value else old(c.lex)
  {
    var n, k := c.n, c.k;
    if k == 0 {
      return false;
    }
    var ptr := k - 1;
    while c.lex[ptr] == n - k + ptr
      invariant 0 <= ptr < k
      decreases ptr
      invariant Pivot(c.lex, n, k) == Pivot(c.lex, n, ptr + 1)
    {
      if ptr == 0 {
        assert Pivot(c.lex, n, k) == -1;
        return false;
      }
      ptr := ptr - 1;
    }
    ghost var l := c.lex;
    assert Pivot(l, n, k) == ptr;
    c.lex := c.lex[ptr := c.lex[ptr] + 1];
    var i := 1;
    while i < k - ptr
      invariant 1 <= i <= k - ptr && |c.lex| == k
      invariant c.n == n && c.k == k
      invariant c.lex[..ptr] == l[..ptr]
      invariant forall q :: ptr <= q < ptr + i ==> c.lex[q] == l[ptr] + 1 + (q - ptr)
    {
      c.lex := c.lex[ptr + i := c.lex[ptr] + i];
      i := i + 1;
    }
    Refilled(c.lex, l, ptr);
    assert Successor(l, n) == Some(l[..ptr] + Run(l[ptr] + 1, k - ptr));
    return true;
  }

  /** The vectors a, b and c hold the Paldus table of st. */
  ghost predicate Tabled(a: seq<int>, b: seq<int>, c: seq<int>, st: seq<Step>)
  {
    && |a| == |st| && |b| == |st| && |c| == |st|
    && forall i :: 0 <= i < |st| ==> Row(a[i], b[i], c[i]) == RowAt(st, i)
  }

  /** Appending a step keeps the earlier rows and adds the bumped last one. */
  lemma RowsAppend(a: seq<int>, b: seq<int>, c: seq<int>, st: seq<Step>, x: Step, r: Row)
    requires Tabled(a, b, c, st)
    requires r == Bump(if st == [] then Row(0, 0, 0) else RowAt(st, |st| - 1), x)
    ensures Tabled(a + [r.a], b + [r.b], c + [r.c], st + [x])
  {
    var st' := st + [x];
    assert st'[..|st|] == st;
    forall i | 0 <= i < |st|
      ensures RowAt(st', i) == RowAt(st, i)
    {
      RowAtPrefix(st', |st|, i);
    }
  }

  /** The branch on the step character of one orbital: the increments of
      the row copied from the orbital before and of n_somo; any other
      character than the four step symbols is invalid. */
  method Increment(step: char, ai: int, bi: int, ci: int, nSomo: nat)
    returns (ai': int, bi': int, ci': int, nSomo': nat, valid: bool)
    ensures valid <==> IsSymbol(step)
    ensures valid ==> Row(ai', bi', ci') == Bump(Row(ai, bi, ci), StepOf(step).value)
    ensures valid ==> nSomo' == nSomo + if IsSomo(StepOf(step).value) then 1 else 0
  {
    ai', bi', ci', nSomo', valid := ai, bi, ci, nSomo, true;
    if step == '0' {
      ci' := ci + 1;
    } else if step == 'u' {
      nSomo' := nSomo + 1;
      bi' := bi + 1;
    } else if step == 'd' {
      nSomo' := nSomo + 1;
      ai', bi', ci' := ai + 1, bi - 1, ci + 1;
    } else if step == '2' {
      ai' := ai + 1;
    } else {
      valid := false;
    }
  }

  /** Orbital |a| of the first loop: push the row of the orbital before
      (zeros for the first orbital) with the increments of the step. */
  method PushRow(a: seq<int>, b: seq<int>, c: seq<int>, nSomo: nat, step: char, ghost st: seq<Step>)
    returns (a': seq<int>, b': seq<int>, c': seq<int>, nSomo': nat, valid: bool)
    requires Tabled(a, b, c, st) && nSomo == SomoCount(st)
    ensures valid <==> IsSymbol(step)
    ensures valid ==> Tabled(a', b', c', st + [StepOf(step).value])
    ensures valid ==> nSomo' == SomoCount(st + [StepOf(step).value])
  {
    var i := |a|;
    var ai, bi, ci := 0, 0, 0;
    if i > 0 {
      ai, bi, ci := a[i - 1], b[i - 1], c[i - 1];
    }
    ai, bi, ci, nSomo', valid := Increment(step, ai, bi, ci, nSomo);
    a', b', c' := a + [ai], b + [bi], c + [ci];
    if valid {
      ghost var x := StepOf(step).value;
      RowsAppend(a, b, c, st, x, Row(ai, bi, ci));
      OccupationAppend(st, x);
    }
  }

  /** The first loop: the row of each orbital is the row before it (zeros
      before the first) with the step's increments, n_somo counts 'u' and
      'd', and the first character that is not a step symbol is returned
      as the error. */
  method Tableau(stepvec: string) returns (a: seq<int>, b: seq<int>, c: seq<int>, nSomo: nat, bad: Option<char>)
    ensures match DecodeStrict(stepvec)
            case Err(ch) => bad == Some(ch)
            case Ok(st) => bad == None && Tabled(a, b, c, st) && nSomo == SomoCount(st)
  {
    a, b, c := [], [], [];
    nSomo := 0;
    ghost var st: seq<Step> := [];
    var i := 0;
    while i < |stepvec|
      invariant 0 <= i <= |stepvec| && |st| == i
      invariant DecodeStrict(stepvec[..i]) == Ok(st)
      invariant Tabled(a, b, c, st) && nSomo == SomoCount(st)
    {
      var step := stepvec[i];
      DecodeStrictNext(stepvec, i, st);
      var valid;
      a, b, c, nSomo, valid := PushRow(a, b, c, nSomo, step, st);
      if !valid {
        DecodeStrictStops(stepvec, i);
        return a, b, c, nSomo, Some(step);
      }
      st := st + [StepOf(step).value];
      i := i + 1;
    }
    assert stepvec[..i] == stepvec;
    bad := None;
  }

  /** `spin_eigv`: -1 for every singly occupied orbital, then 1 at each
      index of the subset. */
  method SpinEigv(lex: seq<int>, nSomo: nat) returns (eigv: seq<int>)
    requires forall i :: 0 <= i < |lex| ==> 0 <= lex[i] < nSomo
    ensures eigv == Eigv(lex, nSomo)
  {
    eigv := seq(nSomo, _ => -1);
    var i := 0;
    while i < |lex|
      invariant 0 <= i <= |lex| && |eigv| == nSomo
      invariant forall s :: 0 <= s < nSomo ==> eigv[s] == if s in lex[..i] then 1 else -1
    {
      assert lex[..i + 1] == lex[..i] + [lex[i]];
      eigv := eigv[lex[i] := 1];
      i := i + 1;
    }
    assert lex[..i] == lex;
  }

  /** One orbital of the determinant loop: the branch on the step
      character, then `frac = frac.simplify()`. The orbital's row is r, with
      a[i] = r.a and b[i] = r.b. */
  method Orbital(step: char, ai: int, bi: int, spinEigv: seq<int>, phase: int, frac: Frac,
                 iSomo: nat, iAlpha: nat, iBeta: nat, det: string, ghost r: Row)
    returns (phase': int, frac': Frac, iSomo': nat, iAlpha': nat, iBeta': nat, det': string)
    requires IsSymbol(step) && r.a == ai && r.b == bi
    requires IsSomo(StepOf(step).value) ==> iSomo < |spinEigv|
    ensures Walker(phase', frac', iSomo', iAlpha', iBeta', det') ==
            Advance(Walker(phase, frac, iSomo, iAlpha, iBeta, det), StepOf(step).value, r, IsAlpha(spinEigv, iSomo), ZeroOverZero)
  {
    phase', frac', iSomo', iAlpha', iBeta', det' := phase, frac, iSomo, iAlpha, iBeta, det;
    if step == '0' {
      det' := det' + ['0'];
    } else if step == 'u' {
      if spinEigv[iSomo'] == 1 {
        det' := det' + ['a'];
        frac' := frac'.(nom := frac'.nom * (ai + bi - iBeta'));
        iAlpha' := iAlpha' + 1;
      } else {
        det' := det' + ['b'];
        frac' := frac'.(nom := frac'.nom * (ai + bi - iAlpha'));
        iBeta' := iBeta' + 1;
      }
      frac' := frac'.(denom := frac'.denom * bi);
      iSomo' := iSomo' + 1;
    } else if step == 'd' {
      if spinEigv[iSomo'] == 1 {
        det' := det' + ['a'];
        frac' := frac'.(nom := frac'.nom * (iBeta' - ai + 1));
        iAlpha' := iAlpha' + 1;
        if Rem(bi, 2) == 0 {
          phase' := -phase';
        }
      } else {
        det' := det' + ['b'];
        frac' := frac'.(nom := frac'.nom * (iAlpha' - ai + 1));
        iBeta' := iBeta' + 1;
        if Rem(bi, 2) != 0 {
          phase' := -phase';
        }
      }
      frac' := frac'.(denom := frac'.denom * (bi + 2));
      iSomo' := iSomo' + 1;
    } else if step == '2' {
      det' := det' + ['2'];
      if Rem(bi, 2) != 0 {
        phase' := -phase';
      }
      iAlpha' := iAlpha' + 1;
      iBeta' := iBeta' + 1;
    }
    frac' := Simplified(frac');
  }

  /** The pass over the characters of the step vector for one subset,
      starting from phase 1, fraction 1/1 and zero counters. */
  method Determinant(stepvec: string, a: seq<int>, b: seq<int>, spinEigv: seq<int>, ghost st: seq<Step>, ghost c: seq<int>)
    returns (phase: int, frac: Frac, det: string)
    requires DecodeStrict(stepvec) == Ok(st) && Tabled(a, b, c, st) && |spinEigv| == SomoCount(st)
    ensures var w := Walk(st, spinEigv, ZeroOverZero);
            phase == w.phase && frac == w.frac && det == w.det
  {
    DecodeStrictValid(stepvec);
    phase, frac := 1, Frac(1, 1);
    var iSomo, iAlpha, iBeta := 0, 0, 0;
    det := [];
    var i := 0;
    while i < |stepvec|
      invariant 0 <= i <= |stepvec|
      invariant Walker(phase, frac, iSomo, iAlpha, iBeta, det) == WalkPrefix(st, spinEigv, ZeroOverZero, i)
    {
      WalkShape(st, spinEigv, ZeroOverZero, i);
      if IsSomo(st[i]) {
        SomoBefore(st, i);
      }
      phase, frac, iSomo, iAlpha, iBeta, det :=
        Orbital(stepvec[i], a[i], b[i], spinEigv, phase, frac, iSomo, iAlpha, iBeta, det, RowAt(st, i));
      i := i + 1;
    }
  }

  /** The printing after a pass: a line with the sign of the phase, the
      displayed fraction and the determinant, when the numerator is
      nonzero. */
  method Print(phase: int, frac: Frac, det: string) returns (line: seq<Printed>)
    ensures line == Rendered(Emit(if frac.nom != 0 then Some(Line(phase, frac.nom, frac.denom, det)) else None))
  {
    if frac.nom != 0 {
      var sign := if phase > 0 then '+' else '-';
      line := [Printed(sign, Display(frac), det)];
      assert Rendered([Line(phase, frac.nom, frac.denom, det)]) == line;
    } else {
      line := [];
    }
  }

  /** The body of the loop over subsets for the j-th subset: set up
      spin_eigv, make the pass and print a line when the numerator is
      nonzero. */
  method Visit(stepvec: string, a: seq<int>, b: seq<int>, lex: seq<int>, nSomo: nat, nAlpha: nat,
               ghost st: seq<Step>, ghost c: seq<int>, ghost j: nat)
    returns (line: seq<Printed>)
    requires DecodeStrict(stepvec) == Ok(st) && Tabled(a, b, c, st) && nSomo == SomoCount(st)
    requires j < Binomial(nSomo, nAlpha) && lex == NthComb(nSomo, nAlpha, j)
    ensures line == Rendered(Emit(SubsetLine(st, nSomo, nAlpha, ZeroOverZero, j)))
  {
    CombValid(0, nSomo, nAlpha, j);
    var spinEigv := SpinEigv(lex, nSomo);
    var phase, frac, det := Determinant(stepvec, a, b, spinEigv, st, c);
    assert SubsetLine(st, nSomo, nAlpha, ZeroOverZero, j) == LineOf(st, spinEigv, ZeroOverZero);
    line := Print(phase, frac, det);
  }

  /** Rendering line by line. */
  lemma RenderedAppend(xs: seq<Line>, ys: seq<Line>)
    ensures Rendered(xs + ys) == Rendered(xs) + Rendered(ys)
  {
  }

  /** One round of the loop on the j-th subset: its line, if printed, and
      whether `next_combination` moved on to subset j + 1. */
  method Round(stepvec: string, a: seq<int>, b: seq<int>, comb: Combination, n: nat, k: nat,
               ghost st: seq<Step>, ghost c: seq<int>, ghost j: nat)
    returns (line: seq<Printed>, more: bool)
    requires DecodeStrict(stepvec) == Ok(st) && Tabled(a, b, c, st) && n == SomoCount(st)
    requires comb.n == n && comb.k == k <= n && j < Binomial(n, k) && comb.lex == NthComb(n, k, j)
    modifies comb
    ensures comb.n == n && comb.k == k
    ensures line == Rendered(Emit(SubsetLine(st, n, k, ZeroOverZero, j)))
    ensures more <==> j + 1 < Binomial(n, k)
    ensures more ==> comb.lex == NthComb(n, k, j + 1)
  {
    CombValid(0, n, k, j);
    SuccessorWalks(0, n, k, j);
    ghost var next := Successor(comb.lex, n);
    assert next == if j + 1 < Binomial(n, k) then Some(NthComb(n, k, j + 1)) else None;
    line := Visit(stepvec, a, b, comb.lex, n, k, st, c, j);
    more := NextCombination(comb);
  }

  /** The loop over subsets: visit the current subset, and stop when
      `next_combination` finds no successor. */
  method Determinants(stepvec: string, a: seq<int>, b: seq<int>, nSomo: nat, nAlpha: nat,
                      ghost st: seq<Step>, ghost c: seq<int>)
    returns (lines: seq<Printed>)
    requires DecodeStrict(stepvec) == Ok(st) && Tabled(a, b, c, st)
    requires nSomo == SomoCount(st) && nAlpha <= nSomo
    ensures lines == Rendered(Expansion(st, nSomo, nAlpha, ZeroOverZero))
  {
    var comb := new Combination(nSomo, nAlpha, Run(0, nAlpha));
    CombFirst(0, nSomo, nAlpha);
    lines := [];
    ghost var j := 0;
    while true
      invariant j < Binomial(nSomo, nAlpha)
      invariant comb.n == nSomo && comb.k == nAlpha && comb.lex == NthComb(nSomo, nAlpha, j)
      invariant lines == Rendered(Lines(st, nSomo, nAlpha, ZeroOverZero, j))
      decreases Binomial(nSomo, nAlpha) - j
    {
      var line, more := Round(stepvec, a, b, comb, nSomo, nAlpha, st, c, j);
      RenderedAppend(Lines(st, nSomo, nAlpha, ZeroOverZero, j), Emit(SubsetLine(st, nSomo, nAlpha, ZeroOverZero, j)));
      lines := lines + line;
      j := j + 1;
      if !more {
        return;
      }
    }
  }

  /** The part of `csf2det` after the first loop: the Ms check and the
      determinant loop. */
  method Analyse(stepvec: string, a: seq<int>, b: seq<int>, nSomo: nat, twoms: int, ghost st: seq<Step>, ghost c: seq<int>)
    returns (out: Result<Report, Failure>)
    requires |st| >= 1 && DecodeStrict(stepvec) == Ok(st) && Tabled(a, b, c, st) && nSomo == SomoCount(st)
    ensures out == Checked(st, twoms)
  {
    var nMo := |stepvec|;
    assert Row(a[nMo - 1], b[nMo - 1], c[nMo - 1]) == RowAt(st, |st| - 1);
    var nE := 2 * a[nMo - 1] + b[nMo - 1];
    var spin := b[nMo - 1];
    if Abs(twoms) > spin || Rem(spin + twoms, 2) != 0 {
      return Err(NoSuchMs(twoms, spin));
    }
    CsfC.MsValid(st, twoms);
    var nAlpha := CsfC.NAlpha(nSomo, twoms);
    var lines := Determinants(stepvec, a, b, nSomo, nAlpha, st, c);
    return Ok(Report(nE, nMo, lines));
  }

  /** `csf2det`: the Ms line, the table and its check, and the determinant
      loop. */
  method Csf2Det(stepvec: string, twoms: int) returns (call: Call)
    requires |stepvec| >= 1
    ensures call == CsfToDets(stepvec, twoms)
  {
    var ms := Display(Simplified(Frac(twoms, 2)));
    var a, b, c, nSomo, bad := Tableau(stepvec);
    if bad.Some? {
      return Call(ms, Err(InvalidStep(bad.value)));
    }
    var out := Analyse(stepvec, a, b, nSomo, twoms, DecodeStrict(stepvec).value, c);
    return Call(ms, out);
  }
}
