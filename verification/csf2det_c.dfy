/** The C program: `csf2det(stepvec, twoms)` decodes the step vector
    (skipping spaces), builds the Paldus table, rejects an invalid ordering
    of 'u' and 'd' and an impossible Ms, and then prints one line per
    determinant with a nonzero coefficient, walking the n_alpha-subsets of
    the singly occupied orbitals with `combination`. */
module CsfC {
  import opened Results
  import opened Fractions
  import opened Steps
  import opened Combinations
  import opened Coefficients
  import opened ArrayWalk

  /** Why the C program returns 1. */
  datatype Failure =
    | IllegalCharacter(ch: char)
    | InvalidOrdering
    | MsTooLarge(spin: int)
    | MsWrongParity(spin: int)

  /** What a successful call prints: the electron and orbital counts of the
      header and the determinant lines. */
  datatype Report = Report(electrons: int, orbitals: nat, lines: seq<Line>)

  /** n_alpha = (n_somo + twoms) / 2 with C's truncating division: half the
      sum, rounded toward zero. */
  function NAlpha(nSomo: int, twoms: int): int
  {
    var m := nSomo + twoms;
    if m < 0 then -((-m) / 2) else m / 2
  }

  /** n_alpha is half the sum rounded toward zero: it never overshoots the
      sum's half on either side of zero. */
  lemma NAlphaTruncates(nSomo: int, twoms: int)
    ensures nSomo + twoms >= 0 ==> 2 * NAlpha(nSomo, twoms) <= nSomo + twoms <= 2 * NAlpha(nSomo, twoms) + 1
    ensures nSomo + twoms < 0 ==> 2 * NAlpha(nSomo, twoms) - 1 <= nSomo + twoms <= 2 * NAlpha(nSomo, twoms)
  {
  }

  /** Once |twoms| is at most the spin and has its parity, n_alpha is a
      subset size: 0 <= n_alpha <= n_somo, and the division is exact. */
  lemma MsValid(st: seq<Step>, twoms: int)
    requires |st| >= 1
    requires Abs(twoms) <= RowAt(st, |st| - 1).b
    requires Rem(RowAt(st, |st| - 1).b + twoms, 2) == 0
    ensures 0 <= NAlpha(SomoCount(st), twoms) <= SomoCount(st)
    ensures 2 * NAlpha(SomoCount(st), twoms) == SomoCount(st) + twoms
  {
    var n, spin := SomoCount(st), RowAt(st, |st| - 1).b;
    LastRow(st);
    var h := (n - spin) / 2 + (spin + twoms) / 2;
    assert n + twoms == 2 * h;
  }

  /** The C program as a function of its two arguments. */
  function CsfToDets(stepvec: string, twoms: int): Result<Report, Failure>
    requires |WithoutSpaces(stepvec)| >= 1
  {
    match DecodeSkippingSpaces(stepvec)
    case Err(ch) => Err(IllegalCharacter(ch))
    case Ok(st) => Checked(st, twoms)
  }

  /** What the C program does once the step vector st is decoded: the
      ordering check, the two Ms checks, and the expansion. */
  function Checked(st: seq<Step>, twoms: int): Result<Report, Failure>
    requires |st| >= 1
  {
    var last := RowAt(st, |st| - 1);
    if !SpinNonNegative(st) then Err(InvalidOrdering)
    else if Abs(twoms) > last.b then Err(MsTooLarge(last.b))
    else if Rem(last.b + twoms, 2) != 0 then Err(MsWrongParity(last.b))
    else
      MsValid(st, twoms);
      Ok(Report(2 * last.a + last.b, |st|, Expansion(st, SomoCount(st), NAlpha(SomoCount(st), twoms), KeepZero)))
  }

  /** Spaces make no difference: the result is that of the string with its
      spaces removed. */
  lemma SpacesIgnored(stepvec: string, twoms: int)
    requires |WithoutSpaces(stepvec)| >= 1
    ensures |WithoutSpaces(WithoutSpaces(stepvec))| >= 1
    ensures CsfToDets(stepvec, twoms) == CsfToDets(WithoutSpaces(stepvec), twoms)
  {
    var t := WithoutSpaces(stepvec);
    WithoutSpacesIdle(t);
    SkippingSpacesIsStrictWithout(stepvec);
    SkippingSpacesIsStrictWithout(t);
  }

  /** The program fails on an illegal character exactly when the string
      holds a character that is neither a space nor a step symbol, and it
      names the first such character. */
  lemma IllegalCharacterRejected(stepvec: string, twoms: int)
    requires |WithoutSpaces(stepvec)| >= 1
    ensures CsfToDets(stepvec, twoms).Err? && CsfToDets(stepvec, twoms).error.IllegalCharacter?
            <==> exists i :: 0 <= i < |stepvec| && stepvec[i] != ' ' && !IsSymbol(stepvec[i])
    ensures CsfToDets(stepvec, twoms).Err? && CsfToDets(stepvec, twoms).error.IllegalCharacter? ==>
              exists i :: 0 <= i < |stepvec| && stepvec[i] == CsfToDets(stepvec, twoms).error.ch
                          && stepvec[i] != ' ' && !IsSymbol(stepvec[i])
                          && forall j :: 0 <= j < i ==> stepvec[j] == ' ' || IsSymbol(stepvec[j])
  {
    DecodeSkippingValid(stepvec);
  }

  /** A step vector that decodes is rejected for its ordering exactly when
      some b of the Paldus table is negative. */
  lemma OrderingRejected(st: seq<Step>, twoms: int)
    requires |st| >= 1
    ensures Checked(st, twoms) == Err(InvalidOrdering) <==> exists i :: 0 <= i < |st| && RowAt(st, i).b < 0
  {
    if !SpinNonNegative(st) {
      var i :| 0 <= i < |st| && !(RowAt(st, i).b >= 0);
      assert RowAt(st, i).b < 0;
      assert exists j :: 0 <= j < |st| && RowAt(st, j).b < 0;
      assert Checked(st, twoms) == Err(InvalidOrdering);
    } else {
      assert Checked(st, twoms) != Err(InvalidOrdering);
    }
  }

  /** A step vector with a valid ordering is accepted exactly when twoms
      lies between -spin and spin for the spin b[n_mo - 1], with the parity
      of the spin. */
  lemma MsAccepted(st: seq<Step>, twoms: int)
    requires |st| >= 1 && SpinNonNegative(st)
    ensures var spin := RowAt(st, |st| - 1).b;
            Checked(st, twoms).Ok? <==> -spin <= twoms <= spin && (spin + twoms) % 2 == 0
  {
    RemEven(RowAt(st, |st| - 1).b + twoms);
  }

  /** What an accepted step vector prints: n_mo orbitals, n_somo + 2 n_domo
      electrons, and lines of n_alpha alpha orbitals, 2 n_alpha = n_somo +
      twoms, each with a nonzero numerator over a nonzero denominator, a
      phase of +1 or -1 and one character per orbital ('0' and '2' exactly at
      the empty and doubly occupied orbitals, n_alpha times 'a',
      n_somo - n_alpha times 'b'). */
  lemma AcceptedReport(st: seq<Step>, twoms: int)
    requires |st| >= 1 && Checked(st, twoms).Ok?
    ensures var rep, k := Checked(st, twoms).value, NAlpha(SomoCount(st), twoms);
            && rep.orbitals == |st|
            && rep.electrons == SomoCount(st) + 2 * DomoCount(st)
            && 0 <= k <= SomoCount(st) && 2 * k == SomoCount(st) + twoms
            && forall l :: l in rep.lines ==> Shaped(st, k, l) && l.denom != 0
  {
    MsValid(st, twoms);
    LastRow(st);
    ExpansionShape(st, NAlpha(SomoCount(st), twoms));
  }

  // ---------------------------------------------------------------------
  // The imperative program

  /** The first decoding loop: n_mo counts the non-space characters. */
  method CountOrbitals(stepvec: string) returns (nMo: nat)
    ensures nMo == |WithoutSpaces(stepvec)|
  {
    nMo := 0;
    var i := 0;
    while i < |stepvec|
      invariant 0 <= i <= |stepvec|
      invariant nMo == |WithoutSpaces(stepvec[..i])|
    {
      assert stepvec[..i + 1][..i] == stepvec[..i];
      if stepvec[i] != ' ' {
        nMo := nMo + 1;
      }
      i := i + 1;
    }
    assert stepvec[..i] == stepvec;
  }

  /** One symbol of the decoding loop: the prefix through it decodes to one
      more step, which still fits in the csf array, and the symbol adds one
      to n_somo ('u', 'd') or to n_domo ('2'). */
  lemma SymbolDecoded(stepvec: string, i: nat, st: seq<Step>, nMo: nat)
    requires i < |stepvec| && DecodeSkippingSpaces(stepvec[..i]) == Ok(st)
    requires StepOf(stepvec[i]).Some? && nMo == |WithoutSpaces(stepvec)|
    ensures var ch, x := stepvec[i], StepOf(stepvec[i]).value;
            && DecodeSkippingSpaces(stepvec[..i + 1]) == Ok(st + [x])
            && |st| < nMo
            && SomoCount(st + [x]) == SomoCount(st) + (if ch == 'u' || ch == 'd' then 1 else 0)
            && DomoCount(st + [x]) == DomoCount(st) + (if ch == '2' then 1 else 0)
  {
    var x := StepOf(stepvec[i]).value;
    DecodeSkippingNext(stepvec, i, st);
    WithoutSpacesPrefix(stepvec, i + 1);
    OccupationAppend(st, x);
  }

  /** The decoding loops: count the orbitals, allocate the csf array, and
      store the step number of every symbol while counting n_somo and
      n_domo; the first illegal character stops the decoding. */
  method Decode(stepvec: string) returns (csf: array<int>, nSomo: nat, nDomo: nat, bad: Option<char>)
    ensures fresh(csf)
    ensures match DecodeSkippingSpaces(stepvec)
            case Err(ch) => bad == Some(ch)
            case Ok(st) => bad == None && Coded(csf, st) && nSomo == SomoCount(st) && nDomo == DomoCount(st)
  {
    var nMo := CountOrbitals(stepvec);
    csf := new int[nMo];
    var iorb := 0;
    nSomo, nDomo := 0, 0;
    ghost var st: seq<Step> := [];
    var i := 0;
    while i < |stepvec|
      invariant 0 <= i <= |stepvec|
      invariant DecodeSkippingSpaces(stepvec[..i]) == Ok(st)
      invariant iorb == |st| <= nMo
      invariant csf[..iorb] == Codes(st)
      invariant nSomo == SomoCount(st) && nDomo == DomoCount(st)
    {
      var ch := stepvec[i];
      if ch == ' ' {
        DecodeSkippingNext(stepvec, i, st);
      } else if ch == '0' || ch == 'u' || ch == 'd' || ch == '2' {
        ghost var x := StepOf(ch).value;
        SymbolDecoded(stepvec, i, st, nMo);
        StoreCode(csf, iorb, ch, st);
        iorb := iorb + 1;
        if ch == 'u' || ch == 'd' {
          nSomo := nSomo + 1;
        } else if ch == '2' {
          nDomo := nDomo + 1;
        }
        st := st + [x];
      } else {
        DecodeSkippingStops(stepvec, i);
        bad := Some(ch);
        return;
      }
      i := i + 1;
    }
    assert stepvec[..i] == stepvec;
    assert csf[..] == csf[..iorb];
    bad := None;
  }

  /** The loop over the b array: the first negative entry is an invalid
      ordering of 'u' and 'd'. */
  method OrderingValid(b: array<int>, ghost st: seq<Step>, ghost a: array<int>, ghost c: array<int>) returns (ok: bool)
    requires Tabled(a, b, c, st)
    ensures ok <==> SpinNonNegative(st)
  {
    var i := 0;
    while i < b.Length
      invariant 0 <= i <= b.Length
      invariant forall j :: 0 <= j < i ==> RowAt(st, j).b >= 0
    {
      if b[i] < 0 {
        assert RowAt(st, i).b < 0;
        return false;
      }
      i := i + 1;
    }
    return true;
  }

  /** The part of `csf2det` after the decoding: the Paldus table, the
      checks, and the determinant loop. */
  method Analyse(csf: array<int>, nSomo: nat, twoms: int, ghost st: seq<Step>) returns (out: Result<Report, Failure>)
    requires |st| >= 1 && Coded(csf, st) && nSomo == SomoCount(st)
    ensures out == Checked(st, twoms)
  {
    var nMo := csf.Length;
    var a, b, c := PaldusTable(csf, st);
    var ordered := OrderingValid(b, st, a, c);
    if !ordered {
      return Err(InvalidOrdering);
    }
    ghost var last := RowAt(st, |st| - 1);
    assert Row(a[nMo - 1], b[nMo - 1], c[nMo - 1]) == last;
    var nE := 2 * a[nMo - 1] + b[nMo - 1];
    var spin := b[nMo - 1];
    if Abs(twoms) > spin {
      return Err(MsTooLarge(spin));
    }
    if Rem(spin + twoms, 2) != 0 {
      return Err(MsWrongParity(spin));
    }
    MsValid(st, twoms);
    var nAlpha := NAlpha(nSomo, twoms);
    var lines := Expand(csf, a, b, nSomo, nAlpha, st, c);
    return Ok(Report(nE, nMo, lines));
  }

  /** `csf2det`: returns 0 and prints the report, or returns 1 on the first
      failed check. */
  method Csf2Det(stepvec: string, twoms: int) returns (rc: int, out: Result<Report, Failure>)
    requires |WithoutSpaces(stepvec)| >= 1
    ensures out == CsfToDets(stepvec, twoms)
    ensures rc == if out.Ok? then 0 else 1
  {
    var csf, nSomo, nDomo, bad := Decode(stepvec);
    if bad.Some? {
      return 1, Err(IllegalCharacter(bad.value));
    }
    out := Analyse(csf, nSomo, twoms, DecodeSkippingSpaces(stepvec).value);
    rc := if out.Ok? then 0 else 1;
  }
}
