/** Small step vectors worked through by hand: the decoding, the checks and
    every pass of the coefficient walk of the C program, down to the lines
    it prints. */
module Scenarios {
  import opened Results
  import opened Fractions
  import opened Steps
  import opened Combinations
  import opened Coefficients
  import CsfC
  import CsfJs

  /** A string written from steps holds no space, and both decoders give
      the steps back. */
  lemma DecodesTo(st: seq<Step>)
    ensures WithoutSpaces(Encode(st)) == Encode(st)
    ensures DecodeSkippingSpaces(Encode(st)) == Ok(st)
    ensures DecodeStrict(Encode(st)) == Ok(st)
  {
    var s := Encode(st);
    DecodeEncode(st);
    forall i | 0 <= i < |s|
      ensures s[i] != ' '
    {
      assert s[i] == Symbol(st[i]);
    }
    WithoutSpacesIdle(s);
    SkippingSpacesIsStrictWithout(s);
  }

  /** 1/1 and 1/2 are in lowest terms. */
  lemma LowestTerms()
    ensures Reduced(Frac(1, 1)) == Frac(1, 1)
    ensures Reduced(Frac(1, 2)) == Frac(1, 2)
  {
    assert Gcd(1, 1) == 1 by { assert Gcd(1, 0) == 1; }
    assert Gcd(1, 2) == 1 by {
      assert Rem(1, 2) == 1 && Rem(2, 1) == 0;
      assert Gcd(2, 1) == Gcd(1, 0) == 1;
    }
  }

  // ---------------------------------------------------------------------
  // The passes

  /** "2": the pass leaves 1/1 and the phase alone (b = 0 is even). */
  lemma DoublePass()
    ensures Expansion([Double], 0, 0, KeepZero) == [Line(1, 1, 1, "2")]
  {
    var e := Eigv([], 0);
    assert RowAt([Double], 0) == Row(1, 0, 0);
    assert Rem(0, 2) == 0;
    LowestTerms();
    assert Walk([Double], e, KeepZero) == Walker(1, Frac(1, 1), 0, 1, 1, "2");
    NoAlphaExpansion([Double], 0, KeepZero);
  }

  /** "u" with its one electron alpha: the numerator a + b - i_beta = 1,
      the denominator b = 1. */
  lemma UpAlphaPass()
    ensures Expansion([Up], 1, 1, KeepZero) == [Line(1, 1, 1, "a")]
  {
    var e := Eigv([0], 1);
    assert IsAlpha(e, 0);
    assert RowAt([Up], 0) == Row(0, 1, 0);
    LowestTerms();
    assert Walk([Up], e, KeepZero) == Walker(1, Frac(1, 1), 1, 1, 0, "a");
    assert Binomial(1, 1) == 1 by { assert Binomial(0, 0) == 1 && Binomial(0, 1) == 0; }
    assert NthComb(1, 1, 0) == [0];
    assert Lines([Up], 1, 1, KeepZero, 1) == Emit(SubsetLine([Up], 1, 1, KeepZero, 0));
  }

  /** "u" with its one electron beta: the numerator a + b - i_alpha = 1,
      the denominator b = 1. */
  lemma UpBetaPass()
    ensures Expansion([Up], 1, 0, KeepZero) == [Line(1, 1, 1, "b")]
  {
    var r := Row(0, 1, 0);
    var e := Eigv([], 1);
    assert RowAt([Up], 0) == r;
    assert WalkPrefix([Up], e, KeepZero, 0) == Start;
    assert !IsAlpha(e, 0);
    assert Scaled(Start, Up, r, false) == Frac(1, 1);
    LowestTerms();
    assert Walk([Up], e, KeepZero) == Walker(1, Frac(1, 1), 1, 0, 1, "b");
    NoAlphaExpansion([Up], 1, KeepZero);
  }

  /** The two subsets {0} and {1} of one alpha among two. */
  lemma OneOfTwo()
    ensures Binomial(2, 1) == 2 && NthComb(2, 1, 0) == [0] && NthComb(2, 1, 1) == [1]
  {
    assert Binomial(1, 0) == 1;
    assert Binomial(1, 1) == 1 by { assert Binomial(0, 0) == 1 && Binomial(0, 1) == 0; }
    assert Comb(1, 2, 1, 0) == [1] by { assert Binomial(0, 0) == 1; }
  }

  /** A pass over two orbitals is two steps from the start. */
  lemma TwoSteps(st: seq<Step>, e: seq<int>, rule: Reduction)
    requires |st| == 2
    ensures var w := Advance(Start, st[0], RowAt(st, 0), IsAlpha(e, 0), rule);
            Walk(st, e, rule) == Advance(w, st[1], RowAt(st, 1), IsAlpha(e, w.iSomo), rule)
  {
    assert WalkPrefix(st, e, rule, 0) == Start;
    assert WalkPrefix(st, e, rule, 1) == Advance(Start, st[0], RowAt(st, 0), IsAlpha(e, 0), rule);
  }

  /** The first step of a pass that opens with 'u': a factor 1/1, and the
      electron's letter. */
  lemma FirstUp(alpha: bool)
    ensures Advance(Start, Up, Row(0, 1, 0), alpha, KeepZero)
            == Walker(1, Frac(1, 1), 1, if alpha then 1 else 0, if alpha then 0 else 1, [if alpha then 'a' else 'b'])
  {
    LowestTerms();
    assert Start.det + [DetChar(Up, alpha)] == [if alpha then 'a' else 'b'];
  }

  /** The second step of "uu", for the other spin than the first: (a + b -
      i)/b = 1/2 with no sign change. */
  lemma UpAfterUp(alpha: bool)
    ensures Advance(Advance(Start, Up, Row(0, 1, 0), alpha, KeepZero), Up, Row(0, 2, 0), !alpha, KeepZero)
            == Walker(1, Frac(1, 2), 2, 1, 1, if alpha then "ab" else "ba")
  {
    FirstUp(alpha);
    LowestTerms();
    assert [if alpha then 'a' else 'b'] + [DetChar(Up, !alpha)] == if alpha then "ab" else "ba";
  }

  /** The second step of "ud", for the other spin than the first: (i - a +
      1)/(b + 2) = 1/2, with a sign change when that electron is alpha. */
  lemma DownAfterUp(alpha: bool)
    ensures Advance(Advance(Start, Up, Row(0, 1, 0), alpha, KeepZero), Down, Row(1, 0, 1), !alpha, KeepZero)
            == Walker(if alpha then 1 else -1, Frac(1, 2), 2, 1, 1, if alpha then "ab" else "ba")
  {
    FirstUp(alpha);
    LowestTerms();
    assert Rem(0, 2) == 0;
    assert [if alpha then 'a' else 'b'] + [DetChar(Down, !alpha)] == if alpha then "ab" else "ba";
  }

  /** "uu" with the first electron alpha: 1/1 after the first orbital, then
      (a + b - i_alpha)/b = 1/2. */
  lemma UpUpAlphaBeta(st: seq<Step>)
    requires |st| == 2 && st[0] == Up && st[1] == Up
    ensures LineOf(st, Eigv([0], 2), KeepZero) == Some(Line(1, 1, 2, "ab"))
  {
    var e := Eigv([0], 2);
    assert IsAlpha(e, 0) && !IsAlpha(e, 1);
    PairTable(st, Up);
    TwoSteps(st, e, KeepZero);
    UpAfterUp(true);
  }

  /** "uu" with the second electron alpha: (a + b - i_beta)/b = 1/2 at the
      second orbital. */
  lemma UpUpBetaAlpha(st: seq<Step>)
    requires |st| == 2 && st[0] == Up && st[1] == Up
    ensures LineOf(st, Eigv([1], 2), KeepZero) == Some(Line(1, 1, 2, "ba"))
  {
    var e := Eigv([1], 2);
    assert !IsAlpha(e, 0) && IsAlpha(e, 1);
    PairTable(st, Up);
    TwoSteps(st, e, KeepZero);
    UpAfterUp(false);
  }

  /** "ud" with the first electron alpha: (i_alpha - a + 1)/(b + 2) = 1/2
      at 'd', and no sign change for the beta electron at an even b. */
  lemma UpDownAlphaBeta(st: seq<Step>)
    requires |st| == 2 && st[0] == Up && st[1] == Down
    ensures LineOf(st, Eigv([0], 2), KeepZero) == Some(Line(1, 1, 2, "ab"))
  {
    var e := Eigv([0], 2);
    assert IsAlpha(e, 0) && !IsAlpha(e, 1);
    PairTable(st, Down);
    TwoSteps(st, e, KeepZero);
    DownAfterUp(true);
  }

  /** "ud" with the second electron alpha: (i_beta - a + 1)/(b + 2) = 1/2
      at 'd', and a sign change for the alpha electron at an even b. */
  lemma UpDownBetaAlpha(st: seq<Step>)
    requires |st| == 2 && st[0] == Up && st[1] == Down
    ensures LineOf(st, Eigv([1], 2), KeepZero) == Some(Line(-1, 1, 2, "ba"))
  {
    var e := Eigv([1], 2);
    assert !IsAlpha(e, 0) && IsAlpha(e, 1);
    PairTable(st, Down);
    TwoSteps(st, e, KeepZero);
    DownAfterUp(false);
  }

  /** The expansion of a two-orbital step vector with one alpha electron:
      the line of subset {0}, then that of subset {1}. */
  lemma TwoLines(st: seq<Step>)
    ensures Expansion(st, 2, 1, KeepZero) == Emit(LineOf(st, Eigv([0], 2), KeepZero)) + Emit(LineOf(st, Eigv([1], 2), KeepZero))
  {
    OneOfTwo();
    assert Lines(st, 2, 1, KeepZero, 1) == Emit(SubsetLine(st, 2, 1, KeepZero, 0));
  }

  // ---------------------------------------------------------------------
  // The program's results

  /** A successful call that prints the given header counts and lines. */
  predicate Prints(r: Result<CsfC.Report, CsfC.Failure>, electrons: int, orbitals: nat, lines: seq<Line>)
  {
    r.Ok? && r.value.electrons == electrons && r.value.orbitals == orbitals && r.value.lines == lines
  }

  /** A step vector with a valid ordering and an allowed twoms gets the
      counts of the last row and the expansion with n_alpha alpha electrons. */
  lemma Accepted(st: seq<Step>, twoms: int)
    requires |st| >= 1
    requires SpinNonNegative(st)
    requires Abs(twoms) <= RowAt(st, |st| - 1).b
    requires Rem(RowAt(st, |st| - 1).b + twoms, 2) == 0
    ensures 0 <= CsfC.NAlpha(SomoCount(st), twoms) <= SomoCount(st)
    ensures Prints(CsfC.Checked(st, twoms), 2 * RowAt(st, |st| - 1).a + RowAt(st, |st| - 1).b, |st|,
                   Expansion(st, SomoCount(st), CsfC.NAlpha(SomoCount(st), twoms), KeepZero))
  {
    CsfC.MsValid(st, twoms);
    var n := SomoCount(st);
    var k := CsfC.NAlpha(n, twoms);
    assert CsfC.Checked(st, twoms).Ok?;
    assert CsfC.Checked(st, twoms).value.lines == Expansion(st, n, k, KeepZero);
  }

  // The checks of the small step vectors name their steps one by one, so
  // that the verifier does not unfold every function on a literal.

  /** The Paldus row and the counts of "2". */
  lemma DoubleTable(st: seq<Step>)
    requires |st| == 1 && st[0] == Double
    ensures RowAt(st, 0) == Row(1, 0, 0) && SomoCount(st) == 0 && SpinNonNegative(st)
  {
    assert RowAt(st, 0) == Row(1, 0, 0);
    assert Count(st, Up, 1) == 0 && Count(st, Down, 1) == 0;
  }

  /** The Paldus row and the counts of "u". */
  lemma UpTable(st: seq<Step>)
    requires |st| == 1 && st[0] == Up
    ensures RowAt(st, 0) == Row(0, 1, 0) && SomoCount(st) == 1 && SpinNonNegative(st)
  {
    assert RowAt(st, 0) == Row(0, 1, 0);
    assert Count(st, Up, 1) == 1 && Count(st, Down, 1) == 0;
  }

  /** The Paldus rows and the counts of "u" followed by a second open shell. */
  lemma PairTable(st: seq<Step>, x: Step)
    requires |st| == 2 && st[0] == Up && st[1] == x && IsSomo(x)
    ensures RowAt(st, 0) == Row(0, 1, 0)
    ensures RowAt(st, 1) == if x == Up then Row(0, 2, 0) else Row(1, 0, 1)
    ensures SomoCount(st) == 2 && SpinNonNegative(st)
  {
    assert RowAt(st, 0) == Row(0, 1, 0);
    assert RowAt(st, 1) == Bump(Row(0, 1, 0), x);
    assert Count(st, Up, 1) == 1 && Count(st, Down, 1) == 0;
    assert Count(st, Up, 2) + Count(st, Down, 2) == 2;
  }

  /** The expansion of "2" with no alpha electron in an open shell. */
  lemma DoubleLines(st: seq<Step>)
    requires |st| == 1 && st[0] == Double
    ensures Expansion(st, 0, 0, KeepZero) == [Line(1, 1, 1, "2")]
  {
    assert st == [Double];
    DoublePass();
  }

  /** The expansions of "u" with its electron alpha and beta. */
  lemma UpLines(st: seq<Step>)
    requires |st| == 1 && st[0] == Up
    ensures Expansion(st, 1, 1, KeepZero) == [Line(1, 1, 1, "a")]
    ensures Expansion(st, 1, 0, KeepZero) == [Line(1, 1, 1, "b")]
  {
    assert st == [Up];
    UpAlphaPass();
    UpBetaPass();
  }

  /** The expansion of "uu" with one alpha electron. */
  lemma UpUpLines(st: seq<Step>)
    requires |st| == 2 && st[0] == Up && st[1] == Up
    ensures Expansion(st, 2, 1, KeepZero) == [Line(1, 1, 2, "ab"), Line(1, 1, 2, "ba")]
  {
    var first, second := Line(1, 1, 2, "ab"), Line(1, 1, 2, "ba");
    TwoLines(st);
    assert LineOf(st, Eigv([0], 2), KeepZero) == Some(first) by {
      UpUpAlphaBeta(st);
    }
    assert LineOf(st, Eigv([1], 2), KeepZero) == Some(second) by {
      UpUpBetaAlpha(st);
    }
    assert Emit(Some(first)) + Emit(Some(second)) == [first, second];
  }

  /** The expansion of "ud" with one alpha electron. */
  lemma UpDownLines(st: seq<Step>)
    requires |st| == 2 && st[0] == Up && st[1] == Down
    ensures Expansion(st, 2, 1, KeepZero) == [Line(1, 1, 2, "ab"), Line(-1, 1, 2, "ba")]
  {
    var first, second := Line(1, 1, 2, "ab"), Line(-1, 1, 2, "ba");
    TwoLines(st);
    assert LineOf(st, Eigv([0], 2), KeepZero) == Some(first) by {
      UpDownAlphaBeta(st);
    }
    assert LineOf(st, Eigv([1], 2), KeepZero) == Some(second) by {
      UpDownBetaAlpha(st);
    }
    assert Emit(Some(first)) + Emit(Some(second)) == [first, second];
  }

  /** The sum of the printed fractions nom/denom, the squared coefficients,
      over the product of their denominators. */
  function Total(ls: seq<Line>): Frac
  {
    if |ls| == 0 then Frac(0, 1)
    else
      var t := Total(ls[1..]);
      Frac(ls[0].nom * t.denom + t.nom * ls[0].denom, ls[0].denom * t.denom)
  }

  /** Two open shells coupled to a triplet or a singlet, Ms = 0: the
      squared coefficients of the two printed lines add up to 1. */
  lemma PairNormalised(st: seq<Step>)
    requires |st| == 2 && st[0] == Up && IsSomo(st[1])
    ensures Total(Expansion(st, 2, 1, KeepZero)).nom == Total(Expansion(st, 2, 1, KeepZero)).denom != 0
  {
    var ls := Expansion(st, 2, 1, KeepZero);
    if st[1] == Up {
      UpUpLines(st);
    } else {
      UpDownLines(st);
    }
    assert ls[1..] == [ls[1]];
    assert Total(ls[1..]) == Frac(1, 2);
  }

  /** n_alpha for one open shell with twoms = +-1, and for two with twoms = 0. */
  lemma SmallAlphaCounts()
    ensures CsfC.NAlpha(1, 1) == 1 && CsfC.NAlpha(1, -1) == 0 && CsfC.NAlpha(2, 0) == 1
  {
  }

  lemma DoubleChecked(st: seq<Step>)
    requires |st| == 1 && st[0] == Double
    ensures Prints(CsfC.Checked(st, 0), 2, 1, [Line(1, 1, 1, "2")])
  {
    DoubleTable(st);
    DoubleLines(st);
    Accepted(st, 0);
  }

  lemma UpChecked(st: seq<Step>)
    requires |st| == 1 && st[0] == Up
    ensures Prints(CsfC.Checked(st, 1), 1, 1, [Line(1, 1, 1, "a")])
    ensures Prints(CsfC.Checked(st, -1), 1, 1, [Line(1, 1, 1, "b")])
  {
    UpTable(st);
    SmallAlphaCounts();
    UpLines(st);
    Accepted(st, 1);
    Accepted(st, -1);
  }

  lemma UpUpChecked(st: seq<Step>)
    requires |st| == 2 && st[0] == Up && st[1] == Up
    ensures Prints(CsfC.Checked(st, 0), 2, 2, [Line(1, 1, 2, "ab"), Line(1, 1, 2, "ba")])
    ensures CsfC.Checked(st, 3) == Err(CsfC.MsTooLarge(2))
  {
    PairTable(st, Up);
    SmallAlphaCounts();
    UpUpLines(st);
    Accepted(st, 0);
  }

  lemma UpDownChecked(st: seq<Step>)
    requires |st| == 2 && st[0] == Up && st[1] == Down
    ensures Prints(CsfC.Checked(st, 0), 2, 2, [Line(1, 1, 2, "ab"), Line(-1, 1, 2, "ba")])
  {
    PairTable(st, Down);
    SmallAlphaCounts();
    UpDownLines(st);
    Accepted(st, 0);
  }

  /** A string spelling st calls the check of st. */
  lemma SpelledCall(s: string, st: seq<Step>, twoms: int)
    requires |s| == |st| >= 1 && forall i :: 0 <= i < |st| ==> s[i] == Symbol(st[i])
    ensures DecodeStrict(s) == Ok(st)
    ensures |WithoutSpaces(s)| >= 1
    ensures CsfC.CsfToDets(s, twoms) == CsfC.Checked(st, twoms)
  {
    assert Encode(st) == s;
    DecodesTo(st);
  }

  lemma DoubleCall(s: string, st: seq<Step>)
    requires |s| == |st| == 1 && s[0] == '2' && st[0] == Double
    ensures Prints(CsfC.CsfToDets(s, 0), 2, 1, [Line(1, 1, 1, "2")])
  {
    SpelledCall(s, st, 0);
    DoubleChecked(st);
  }

  lemma UpCall(s: string, st: seq<Step>)
    requires |s| == |st| == 1 && s[0] == 'u' && st[0] == Up
    ensures Prints(CsfC.CsfToDets(s, 1), 1, 1, [Line(1, 1, 1, "a")])
    ensures Prints(CsfC.CsfToDets(s, -1), 1, 1, [Line(1, 1, 1, "b")])
  {
    SpelledCall(s, st, 1);
    SpelledCall(s, st, -1);
    UpChecked(st);
  }

  lemma UpUpCall(s: string, st: seq<Step>)
    requires |s| == |st| == 2 && s[0] == s[1] == 'u' && st[0] == st[1] == Up
    ensures Prints(CsfC.CsfToDets(s, 0), 2, 2, [Line(1, 1, 2, "ab"), Line(1, 1, 2, "ba")])
    ensures CsfC.CsfToDets(s, 3) == Err(CsfC.MsTooLarge(2))
  {
    SpelledCall(s, st, 0);
    SpelledCall(s, st, 3);
    UpUpChecked(st);
  }

  lemma UpDownCall(s: string, st: seq<Step>)
    requires |s| == |st| == 2 && s[0] == 'u' && s[1] == 'd' && st[0] == Up && st[1] == Down
    ensures Prints(CsfC.CsfToDets(s, 0), 2, 2, [Line(1, 1, 2, "ab"), Line(-1, 1, 2, "ba")])
  {
    SpelledCall(s, st, 0);
    UpDownChecked(st);
  }

  /** "2" with twoms = 0: two electrons in one orbital, the one determinant
      "2" with coefficient +1/1. */
  lemma DoubleScenario()
    ensures |WithoutSpaces("2")| >= 1
    ensures Prints(CsfC.CsfToDets("2", 0), 2, 1, [Line(1, 1, 1, "2")])
  {
    SpelledCall("2", [Double], 0);
    DoubleCall("2", [Double]);
  }

  /** "u" with twoms = 1 gives +1/1 "a"; with twoms = -1, +1/1 "b". */
  lemma UpScenario()
    ensures |WithoutSpaces("u")| >= 1
    ensures Prints(CsfC.CsfToDets("u", 1), 1, 1, [Line(1, 1, 1, "a")])
    ensures Prints(CsfC.CsfToDets("u", -1), 1, 1, [Line(1, 1, 1, "b")])
  {
    SpelledCall("u", [Up], 1);
    UpCall("u", [Up]);
  }

  /** "uu" with twoms = 0: the triplet's Ms = 0 component, +1/2 "ab" and
      +1/2 "ba"; twoms = 3 exceeds the spin 2. */
  lemma UpUpScenario()
    ensures |WithoutSpaces("uu")| >= 1
    ensures Prints(CsfC.CsfToDets("uu", 0), 2, 2, [Line(1, 1, 2, "ab"), Line(1, 1, 2, "ba")])
    ensures CsfC.CsfToDets("uu", 3) == Err(CsfC.MsTooLarge(2))
  {
    SpelledCall("uu", [Up, Up], 0);
    UpUpCall("uu", [Up, Up]);
  }

  /** "ud" with twoms = 0: the open-shell singlet, +1/2 "ab" and -1/2 "ba". */
  lemma UpDownScenario()
    ensures |WithoutSpaces("ud")| >= 1
    ensures Prints(CsfC.CsfToDets("ud", 0), 2, 2, [Line(1, 1, 2, "ab"), Line(-1, 1, 2, "ba")])
  {
    SpelledCall("ud", [Up, Down], 0);
    UpDownCall("ud", [Up, Down]);
  }

  /** "2x" is refused for its character 'x', whatever twoms. */
  lemma IllegalScenario(twoms: int)
    ensures |WithoutSpaces("2x")| == 2
    ensures CsfC.CsfToDets("2x", twoms) == Err(CsfC.IllegalCharacter('x'))
  {
    WithoutSpacesIdle("2x");
    assert Encode([Double]) == "2" == "2x"[..1] by { assert Encode([Double])[0] == '2'; }
    DecodesTo([Double]);
    DecodeSkippingStops("2x", 1);
  }

  // ---------------------------------------------------------------------
  // The same step vector in the JavaScript program

  /** "u" with twoms = -1 or 0: n_alpha = floor((1 + twoms) / 2) = 0, so the
      JS program prints the beta determinant, while the C program refuses
      twoms = 0 for its parity. */
  lemma UpUnchecked(s: string, st: seq<Step>, twoms: int)
    requires |s| == |st| == 1 && s[0] == 'u' && st[0] == Up && -1 <= twoms <= 0
    ensures CsfJs.Returns(s, twoms)
    ensures CsfJs.Prints(CsfJs.CsfToDets(s, twoms), Some(1), 1, [Line(1, 1, 1, "b")])
    ensures |WithoutSpaces(s)| >= 1
    ensures twoms == 0 ==> CsfC.CsfToDets(s, twoms) == Err(CsfC.MsWrongParity(1))
  {
    UpJs(s, st, twoms);
    SpelledCall(s, st, twoms);
    if twoms == 0 {
      UpTable(st);
      assert CsfC.Checked(st, twoms) == Err(CsfC.MsWrongParity(1));
    }
  }

  /** The JS half of UpUnchecked: n_alpha = 0 selects the beta line. */
  lemma UpJs(s: string, st: seq<Step>, twoms: int)
    requires |s| == |st| == 1 && s[0] == 'u' && st[0] == Up && -1 <= twoms <= 0
    ensures CsfJs.Returns(s, twoms)
    ensures CsfJs.Prints(CsfJs.CsfToDets(s, twoms), Some(1), 1, [Line(1, 1, 1, "b")])
  {
    assert s == Encode(st);
    DecodesTo(st);
    UpTable(st);
    UpLines(st);
    assert CsfJs.NAlpha(SomoCount(st), twoms) == 0;
    CsfJs.DecodedAccepted(s, st, twoms);
    assert CsfJs.Electrons(st) == Some(1);
  }

  /** "u", a spin-1/2 doublet, with twoms = -1 or 0: the JS program prints
      the beta determinant with coefficient 1/1 for both, and for Ms = 0,
      which the C program refuses for its parity, as well. */
  lemma ParityUnchecked(twoms: int)
    requires -1 <= twoms <= 0
    ensures CsfJs.Returns("u", twoms) && CsfJs.Prints(CsfJs.CsfToDets("u", twoms), Some(1), 1, [Line(1, 1, 1, "b")])
    ensures |WithoutSpaces("u")| >= 1
    ensures twoms == 0 ==> CsfC.CsfToDets("u", twoms) == Err(CsfC.MsWrongParity(1))
  {
    UpUnchecked("u", [Up], twoms);
  }
}
