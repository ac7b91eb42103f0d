/** The JavaScript program: `csf2det(stepvector, twoms)` decodes the step
    vector (every character must be a step symbol, or it throws), builds
    the Paldus table, and prints one line per determinant with a nonzero
    coefficient. It checks neither the ordering of 'u' and 'd' nor Ms: it
    computes n_alpha = floor((n_somo + twoms) / 2) and walks the
    n_alpha-subsets of the singly occupied orbitals with
    `next_combination`, whose statements are those of the C `combination`. */
module CsfJs {
  import opened Results
  import opened Fractions
  import opened Steps
  import opened Combinations
  import opened Coefficients
  import opened ArrayWalk
  import CsfC

  /** Why the JS program throws: an `Error` for a character that is not a
      step symbol, or the `RangeError` of `new Int32Array(n_alpha)` for a
      negative n_alpha. */
  datatype Failure =
    | InvalidStepvector(ch: char)
    | InvalidArrayLength(length: int)

  /** What a call prints: the electron count of the header (`NaN`, here
      None, for the empty step vector, whose table has no last row), the
      orbital count and the determinant lines. */
  datatype Report = Report(electrons: Option<int>, orbitals: nat, lines: seq<Line>)

  /** n_alpha = Math.floor((n_somo + twoms) / 2): the largest integer whose
      double does not exceed the sum. */
  function NAlpha(nSomo: int, twoms: int): (k: int)
    ensures 2 * k <= nSomo + twoms <= 2 * k + 1
  {
    (nSomo + twoms) / 2
  }

  /** n_alpha is at most n_somo exactly when twoms is at most n_somo + 1. */
  lemma SubsetSizeBound(nSomo: nat, twoms: int)
    ensures NAlpha(nSomo, twoms) <= nSomo <==> twoms <= nSomo + 1
  {
  }

  /** The walk over the subsets ends only when n_alpha <= n_somo: with more
      entries than positions (k > n, all entries non-negative) the pivot
      search never runs off the front, and every successor again has only
      non-negative entries, so `next_combination` returns true forever on
      unbounded integers. */
  lemma EndlessPastN(lex: seq<int>, n: nat)
    requires |lex| > n && forall i :: 0 <= i < |lex| ==> lex[i] >= 0
    ensures Successor(lex, n).Some?
    ensures forall i :: 0 <= i < |lex| ==> Successor(lex, n).value[i] >= 0
  {
    SuccessorEnds(lex, n);
    assert Last(n, |lex|)[0] < 0 <= lex[0];
    var p := Pivot(lex, n, |lex|);
    var s := Successor(lex, n).value;
    assert s == lex[..p] + Run(lex[p] + 1, |lex| - p);
    forall i | 0 <= i < |lex|
      ensures s[i] >= 0
    {
      if i >= p {
        assert s[i] == lex[p] + 1 + (i - p);
      }
    }
  }

  /** The calls that return: a step vector that decodes must have
      n_alpha <= n_somo. */
  predicate Returns(stepvector: string, twoms: int)
  {
    DecodeStrict(stepvector).Ok? ==>
      NAlpha(SomoCount(DecodeStrict(stepvector).value), twoms) <= SomoCount(DecodeStrict(stepvector).value)
  }

  /** The header's electron count, 2 a[n_mo - 1] + b[n_mo - 1]. */
  function Electrons(st: seq<Step>): Option<int>
  {
    if |st| == 0 then None
    else Some(2 * RowAt(st, |st| - 1).a + RowAt(st, |st| - 1).b)
  }

  /** The JS program as a function of its two arguments. */
  function CsfToDets(stepvector: string, twoms: int): Result<Report, Failure>
    requires Returns(stepvector, twoms)
  {
    match DecodeStrict(stepvector)
    case Err(ch) => Err(InvalidStepvector(ch))
    case Ok(st) => Expanded(st, twoms)
  }

  /** What the JS program does once the step vector st is decoded. */
  function Expanded(st: seq<Step>, twoms: int): Result<Report, Failure>
    requires NAlpha(SomoCount(st), twoms) <= SomoCount(st)
  {
    var k := NAlpha(SomoCount(st), twoms);
    if k < 0 then Err(InvalidArrayLength(k))
    else Ok(Report(Electrons(st), |st|, Expansion(st, SomoCount(st), k, KeepZero)))
  }

  /** The program throws for a character exactly when the string holds a
      character that is not a step symbol ('u', 'd', '0', '2'; a space too),
      and it names the first one. */
  lemma StepvectorRejected(stepvector: string, twoms: int)
    requires Returns(stepvector, twoms)
    ensures var out := CsfToDets(stepvector, twoms);
            && (out.Err? && out.error.InvalidStepvector? <==> exists i :: 0 <= i < |stepvector| && !IsSymbol(stepvector[i]))
            && (out.Err? && out.error.InvalidStepvector? ==>
                  exists i :: 0 <= i < |stepvector| && stepvector[i] == out.error.ch && !IsSymbol(stepvector[i])
                              && forall j :: 0 <= j < i ==> IsSymbol(stepvector[j]))
  {
    DecodeStrictValid(stepvector);
  }

  /** A decoded step vector is refused exactly when twoms < -n_somo, with
      the negative length floor((n_somo + twoms) / 2); every other twoms
      within the bound prints, whatever the spin of the table. */
  lemma LengthRejected(st: seq<Step>, twoms: int)
    requires NAlpha(SomoCount(st), twoms) <= SomoCount(st)
    ensures Expanded(st, twoms).Err? <==> SomoCount(st) + twoms < 0
    ensures Expanded(st, twoms).Err? ==>
              Expanded(st, twoms).error.length < 0 && 2 * Expanded(st, twoms).error.length <= SomoCount(st) + twoms
  {
  }

  /** Where the C program accepts a step vector, the JS program prints the
      same header and the same lines. */
  lemma AgreesWithC(st: seq<Step>, twoms: int)
    requires |st| >= 1 && CsfC.Checked(st, twoms).Ok?
    ensures NAlpha(SomoCount(st), twoms) <= SomoCount(st)
    ensures var rep := CsfC.Checked(st, twoms).value;
            Expanded(st, twoms) == Ok(Report(Some(rep.electrons), rep.orbitals, rep.lines))
  {
    var last := RowAt(st, |st| - 1);
    CsfC.MsValid(st, twoms);
    var n := SomoCount(st);
    assert 2 * CsfC.NAlpha(n, twoms) == n + twoms;
    assert NAlpha(n, twoms) == CsfC.NAlpha(n, twoms);
  }

  /** A decoded step vector that starts with 'd' (b = -1 at the first
      orbital, refused by the C program) prints the header and no line. */
  lemma OrderingUnchecked(st: seq<Step>, twoms: int)
    requires |st| >= 1 && st[0] == Down && NAlpha(SomoCount(st), twoms) <= SomoCount(st)
    ensures CsfC.Checked(st, twoms) == Err(CsfC.InvalidOrdering)
    ensures Expanded(st, twoms).Ok? ==> Expanded(st, twoms).value.lines == []
  {
    assert RowAt(st, 0).b == -1;
    var n := SomoCount(st);
    var k := NAlpha(n, twoms);
    if k >= 0 {
      SilentLines(st, n, k, KeepZero, Binomial(n, k));
    }
  }

  /** A successful call that prints the given header counts and lines. */
  predicate Prints(r: Result<Report, Failure>, electrons: Option<int>, orbitals: nat, lines: seq<Line>)
  {
    r.Ok? && r.value.electrons == electrons && r.value.orbitals == orbitals && r.value.lines == lines
  }

  /** A subset size between 0 and n_somo prints the header and the
      expansion with n_alpha alpha electrons. */
  lemma SubsetSizeAccepted(st: seq<Step>, twoms: int)
    requires 0 <= NAlpha(SomoCount(st), twoms) <= SomoCount(st)
    ensures Prints(Expanded(st, twoms), Electrons(st), |st|, Expansion(st, SomoCount(st), NAlpha(SomoCount(st), twoms), KeepZero))
  {
  }

  /** A negative subset size is the length the program refuses. */
  lemma SubsetSizeRefused(st: seq<Step>, twoms: int)
    requires NAlpha(SomoCount(st), twoms) < 0
    ensures Expanded(st, twoms) == Err(InvalidArrayLength(NAlpha(SomoCount(st), twoms)))
  {
  }

  /** The empty string decodes to no steps, with no open shell and no
      electron count. */
  lemma EmptyDecoded(s: string, st: seq<Step>)
    requires |s| == 0 && |st| == 0
    ensures DecodeStrict(s) == Ok(st) && SomoCount(st) == 0 && Electrons(st) == None
  {
  }

  /** With no open shell, n_alpha is 0 for twoms = 0 or 1 and negative
      for a negative twoms. */
  lemma EmptySubsetSize(st: seq<Step>, twoms: int)
    requires |st| == 0 && twoms <= 1
    ensures SomoCount(st) == 0
    ensures 0 <= twoms ==> NAlpha(SomoCount(st), twoms) == 0
    ensures twoms < 0 ==> NAlpha(SomoCount(st), twoms) < 0
  {
    EmptyDecoded([], st);
  }

  /** The empty step vector returns for every twoms up to 1. */
  lemma EmptyReturns(s: string, st: seq<Step>, twoms: int)
    requires |s| == 0 && |st| == 0 && twoms <= 1
    ensures Returns(s, twoms)
  {
    EmptyDecoded(s, st);
    EmptySubsetSize(st, twoms);
  }

  /** A string that decodes to st with a subset size between 0 and
      n_somo returns, and prints the expansion of st. */
  lemma DecodedAccepted(s: string, st: seq<Step>, twoms: int)
    requires DecodeStrict(s) == Ok(st) && 0 <= NAlpha(SomoCount(st), twoms) <= SomoCount(st)
    ensures Returns(s, twoms)
    ensures Prints(CsfToDets(s, twoms), Electrons(st), |st|, Expansion(st, SomoCount(st), NAlpha(SomoCount(st), twoms), KeepZero))
  {
    SubsetSizeAccepted(st, twoms);
  }

  /** The empty step vector with a negative twoms: the subset array gets
      the negative length floor(twoms / 2). */
  lemma EmptyRefused(stepvector: string, twoms: int)
    requires |stepvector| == 0 && twoms < 0
    ensures Returns(stepvector, twoms)
    ensures CsfToDets(stepvector, twoms) == Err(InvalidArrayLength(NAlpha(0, twoms)))
  {
    var st: seq<Step> :| |st| == 0;
    EmptyReturns(stepvector, st, twoms);
    EmptyDecoded(stepvector, st);
    EmptySubsetSize(st, twoms);
    SubsetSizeRefused(st, twoms);
  }

  // ---------------------------------------------------------------------
  // The imperative program

  /** The decoding loop: store the step number of every character while
      counting n_somo and n_domo; the first character that is not a step
      symbol throws. */
  method Decode(stepvector: string) returns (csf: array<int>, nSomo: nat, bad: Option<char>)
    ensures fresh(csf)
    ensures match DecodeStrict(stepvector)
            case Err(ch) => bad == Some(ch)
            case Ok(st) => bad == None && Coded(csf, st) && nSomo == SomoCount(st)
  {
    var nMo := |stepvector|;
    csf := new int[nMo];
    nSomo := 0;
    var nDomo := 0;
    ghost var st: seq<Step> := [];
    var i := 0;
    while i < nMo
      invariant 0 <= i <= nMo && i == |st|
      invariant DecodeStrict(stepvector[..i]) == Ok(st)
      invariant csf[..i] == Codes(st)
      invariant nSomo == SomoCount(st)
    {
      var ch := stepvector[i];
      DecodeStrictNext(stepvector, i, st);
      if ch == '0' || ch == 'u' || ch == 'd' || ch == '2' {
        ghost var x := StepOf(ch).value;
        StoreCode(csf, i, ch, st);
        if ch == 'u' || ch == 'd' {
          nSomo := nSomo + 1;
        } else if ch == '2' {
          nDomo := nDomo + 1;
        }
        OccupationAppend(st, x);
        st := st + [x];
      } else {
        DecodeStrictStops(stepvector, i);
        bad := Some(ch);
        return;
      }
      i := i + 1;
    }
    assert stepvector[..i] == stepvector;
    assert csf[..] == csf[..i];
    bad := None;
  }

  /** The part of `csf2det` after the decoding: the Paldus table, the
      header, n_alpha and its subset array, and the do-while loop. */
  method Analyse(csf: array<int>, nSomo: nat, twoms: int, ghost st: seq<Step>) returns (out: Result<Report, Failure>)
    requires Coded(csf, st) && nSomo == SomoCount(st) && NAlpha(nSomo, twoms) <= nSomo
    ensures out == Expanded(st, twoms)
  {
    var nMo := csf.Length;
    var a, b, c := PaldusTable(csf, st);
    var nE: Option<int> := None;
    if nMo > 0 {
      assert Row(a[nMo - 1], b[nMo - 1], c[nMo - 1]) == RowAt(st, nMo - 1);
      nE := Some(2 * a[nMo - 1] + b[nMo - 1]);
    }
    assert nE == Electrons(st);
    var nAlpha := (nSomo + twoms) / 2;
    assert nAlpha == NAlpha(SomoCount(st), twoms);
    if nAlpha < 0 {
      return Err(InvalidArrayLength(nAlpha));
    }
    var lines := Expand(csf, a, b, nSomo, nAlpha, st, c);
    return Ok(Report(nE, nMo, lines));
  }

  /** `csf2det`: throws on the first failure, or prints the report. */
  method Csf2Det(stepvector: string, twoms: int) returns (out: Result<Report, Failure>)
    requires Returns(stepvector, twoms)
    ensures out == CsfToDets(stepvector, twoms)
  {
    var csf, nSomo, bad := Decode(stepvector);
    if bad.Some? {
      return Err(InvalidStepvector(bad.value));
    }
    out := Analyse(csf, nSomo, twoms, DecodeStrict(stepvector).value);
  }
}
