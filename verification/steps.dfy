/** Step vectors of the Graphical Unitary Group Approach and their Paldus
    table. A step vector has one symbol per molecular orbital: '0'
    (unoccupied), 'u' (singly occupied, coupled up), 'd' (singly occupied,
    coupled down) or '2' (doubly occupied); the programs store them as the
    Shavitt step numbers 0, 1, 2, 3. */
module Steps {
  import opened Results

  datatype Step = Empty | Up | Down | Double

  /** The Shavitt step number the programs store for a step. */
  function Code(x: Step): (n: int)
    ensures 0 <= n <= 3
    ensures x.Empty? <==> n == 0
    ensures x.Up? <==> n == 1
    ensures x.Down? <==> n == 2
    ensures x.Double? <==> n == 3
  {
    match x
    case Empty => 0
    case Up => 1
    case Down => 2
    case Double => 3
  }

  /** The input character of a step. */
  function Symbol(x: Step): char
  {
    match x
    case Empty => '0'
    case Up => 'u'
    case Down => 'd'
    case Double => '2'
  }

  /** The four characters of a step vector. */
  predicate IsSymbol(ch: char)
  {
    ch == '0' || ch == 'u' || ch == 'd' || ch == '2'
  }

  /** The step a character stands for; the four symbols are the only valid ones. */
  function StepOf(ch: char): (r: Option<Step>)
    ensures r.Some? <==> IsSymbol(ch)
    ensures r.Some? ==> Symbol(r.value) == ch
  {
    if ch == '0' then Some(Empty)
    else if ch == 'u' then Some(Up)
    else if ch == 'd' then Some(Down)
    else if ch == '2' then Some(Double)
    else None
  }

  lemma SymbolRoundTrip(x: Step)
    ensures StepOf(Symbol(x)) == Some(x)
  {
  }

  /** The step numbers of a whole step vector, as the programs' csf array holds them. */
  function Codes(st: seq<Step>): (cs: seq<int>)
    ensures |cs| == |st| && forall i :: 0 <= i < |st| ==> cs[i] == Code(st[i])
  {
    seq(|st|, i requires 0 <= i < |st| => Code(st[i]))
  }

  predicate IsSomo(x: Step)
  {
    x.Up? || x.Down?
  }

  /** How many times x occurs among the first m steps of st. */
  function Count(st: seq<Step>, x: Step, m: nat): (n: nat)
    requires m <= |st|
    ensures n <= m
  {
    if m == 0 then 0 else Count(st, x, m - 1) + (if st[m - 1] == x then 1 else 0)
  }

  /** Number of singly occupied orbitals among the first m. */
  function SomosBefore(st: seq<Step>, m: nat): nat
    requires m <= |st|
  {
    Count(st, Up, m) + Count(st, Down, m)
  }

  /** Number of singly occupied orbitals (n_somo). */
  function SomoCount(st: seq<Step>): nat
  {
    SomosBefore(st, |st|)
  }

  /** Number of doubly occupied orbitals (n_domo). */
  function DomoCount(st: seq<Step>): nat
  {
    Count(st, Double, |st|)
  }

  /** Counting the first m steps only looks at those steps. */
  lemma {:induction false} CountAgree(s1: seq<Step>, s2: seq<Step>, x: Step, m: nat)
    requires m <= |s1| && m <= |s2| && s1[..m] == s2[..m]
    ensures Count(s1, x, m) == Count(s2, x, m)
  {
    if m > 0 {
      assert s1[m - 1] == s1[..m][m - 1];
      assert s1[..m - 1] == s1[..m][..m - 1];
      assert s2[..m - 1] == s2[..m][..m - 1];
      CountAgree(s1, s2, x, m - 1);
    }
  }

  /** Appending one step adds one to its own count. */
  lemma CountAppend(st: seq<Step>, y: Step, x: Step)
    ensures Count(st + [y], x, |st| + 1) == Count(st, x, |st|) + (if y == x then 1 else 0)
  {
    assert (st + [y])[..|st|] == st[..|st|];
    CountAgree(st + [y], st, x, |st|);
  }

  /** Appending one step: n_somo grows by one for 'u' and 'd', n_domo for '2'. */
  lemma OccupationAppend(st: seq<Step>, x: Step)
    ensures SomoCount(st + [x]) == SomoCount(st) + (if IsSomo(x) then 1 else 0)
    ensures DomoCount(st + [x]) == DomoCount(st) + (if x.Double? then 1 else 0)
  {
    CountAppend(st, x, Up);
    CountAppend(st, x, Down);
    CountAppend(st, x, Double);
  }

  /** A singly occupied orbital at i has fewer than n_somo singly occupied
      orbitals before it. */
  lemma SomoBefore(st: seq<Step>, i: nat)
    requires i < |st| && IsSomo(st[i])
    ensures SomosBefore(st, i) < SomoCount(st)
  {
    CountMonotone(st, Up, i + 1, |st|);
    CountMonotone(st, Down, i + 1, |st|);
  }

  lemma {:induction false} CountsAddUp(st: seq<Step>, m: nat)
    requires m <= |st|
    ensures Count(st, Empty, m) + Count(st, Up, m) + Count(st, Down, m) + Count(st, Double, m) == m
  {
    if m > 0 {
      CountsAddUp(st, m - 1);
    }
  }

  lemma {:induction false} CountMonotone(st: seq<Step>, x: Step, i: nat, m: nat)
    requires i <= m <= |st|
    ensures Count(st, x, i) <= Count(st, x, m)
    decreases m - i
  {
    if i < m {
      CountMonotone(st, x, i, m - 1);
    }
  }

  // ---------------------------------------------------------------------
  // Decoding

  /** The input string with its spaces removed. */
  function WithoutSpaces(s: string): (t: string)
    ensures |t| <= |s|
    ensures forall i :: 0 <= i < |t| ==> t[i] != ' '
  {
    if s == [] then []
    else WithoutSpaces(s[..|s| - 1]) + (if s[|s| - 1] == ' ' then [] else [s[|s| - 1]])
  }

  /** A string without spaces is left as it is. */
  lemma {:induction false} WithoutSpacesIdle(s: string)
    requires forall i :: 0 <= i < |s| ==> s[i] != ' '
    ensures WithoutSpaces(s) == s
  {
    if s != [] {
      WithoutSpacesIdle(s[..|s| - 1]);
    }
  }

  /** Removing spaces from a prefix leaves at most as much as from the whole string. */
  lemma {:induction false} WithoutSpacesPrefix(s: string, i: nat)
    requires i <= |s|
    ensures |WithoutSpaces(s[..i])| <= |WithoutSpaces(s)|
    decreases |s| - i
  {
    if i < |s| {
      WithoutSpacesPrefix(s, i + 1);
      assert s[..i + 1][..i] == s[..i];
    } else {
      assert s[..i] == s;
    }
  }

  /** Decoding in the C program: spaces are skipped, the four symbols give
      their steps, and the first other character is the error. */
  function DecodeSkippingSpaces(s: string): (r: Result<seq<Step>, char>)
    ensures r.Ok? ==> |r.value| == |WithoutSpaces(s)|
  {
    if s == [] then Ok([])
    else
      var ch := s[|s| - 1];
      match DecodeSkippingSpaces(s[..|s| - 1])
      case Err(c) => Err(c)
      case Ok(st) =>
        if ch == ' ' then Ok(st)
        else match StepOf(ch)
          case Some(x) => Ok(st + [x])
          case None => Err(ch)
  }

  /** The C decoding succeeds exactly when every character is a space or
      one of the four symbols; otherwise its error is the first character
      that is neither. */
  lemma {:induction false} DecodeSkippingValid(s: string)
    ensures DecodeSkippingSpaces(s).Ok? <==> forall i :: 0 <= i < |s| ==> s[i] == ' ' || IsSymbol(s[i])
    ensures DecodeSkippingSpaces(s).Err? ==>
              exists i :: 0 <= i < |s| && s[i] == DecodeSkippingSpaces(s).error && s[i] != ' ' && !IsSymbol(s[i])
                          && forall j :: 0 <= j < i ==> s[j] == ' ' || IsSymbol(s[j])
  {
    if s != [] {
      DecodeSkippingValid(s[..|s| - 1]);
      assert forall j :: 0 <= j < |s| - 1 ==> s[..|s| - 1][j] == s[j];
    }
  }

  /** Decoding one more character of a prefix whose decoding succeeded. */
  lemma DecodeSkippingNext(s: string, i: nat, st: seq<Step>)
    requires i < |s| && DecodeSkippingSpaces(s[..i]) == Ok(st)
    ensures DecodeSkippingSpaces(s[..i + 1]) ==
              if s[i] == ' ' then Ok(st)
              else match StepOf(s[i]) case Some(x) => Ok(st + [x]) case None => Err(s[i])
  {
    assert s[..i + 1][..i] == s[..i];
  }

  /** A prefix that decodes, followed by an illegal character, makes that
      character the error of the whole string. */
  lemma DecodeSkippingStops(s: string, i: nat)
    requires i < |s| && DecodeSkippingSpaces(s[..i]).Ok? && s[i] != ' ' && !IsSymbol(s[i])
    ensures DecodeSkippingSpaces(s) == Err(s[i])
  {
    DecodeSkippingValid(s[..i]);
    DecodeSkippingValid(s);
    assert forall j :: 0 <= j < i ==> s[j] == s[..i][j];
  }

  /** Decoding in the Rust and JS programs: every character must be one of
      the four symbols (a space is an error), and the first other character
      is the error. */
  function DecodeStrict(s: string): (r: Result<seq<Step>, char>)
    ensures r.Ok? ==> |r.value| == |s|
  {
    if s == [] then Ok([])
    else
      var ch := s[|s| - 1];
      match DecodeStrict(s[..|s| - 1])
      case Err(c) => Err(c)
      case Ok(st) =>
        match StepOf(ch)
        case Some(x) => Ok(st + [x])
        case None => Err(ch)
  }

  /** The strict decoding succeeds exactly when every character is one of
      the four symbols, and then decodes each of them; otherwise its error
      is the first other character. */
  lemma {:induction false} DecodeStrictValid(s: string)
    ensures DecodeStrict(s).Ok? <==> forall i :: 0 <= i < |s| ==> IsSymbol(s[i])
    ensures DecodeStrict(s).Ok? ==> forall i :: 0 <= i < |s| ==> StepOf(s[i]) == Some(DecodeStrict(s).value[i])
    ensures DecodeStrict(s).Err? ==>
              exists i :: 0 <= i < |s| && s[i] == DecodeStrict(s).error && !IsSymbol(s[i])
                          && forall j :: 0 <= j < i ==> IsSymbol(s[j])
  {
    if s != [] {
      DecodeStrictValid(s[..|s| - 1]);
      assert forall j :: 0 <= j < |s| - 1 ==> s[..|s| - 1][j] == s[j];
    }
  }

  /** Decoding one more character of a prefix whose decoding succeeded. */
  lemma DecodeStrictNext(s: string, i: nat, st: seq<Step>)
    requires i < |s| && DecodeStrict(s[..i]) == Ok(st)
    ensures DecodeStrict(s[..i + 1]) == match StepOf(s[i]) case Some(x) => Ok(st + [x]) case None => Err(s[i])
  {
    assert s[..i + 1][..i] == s[..i];
  }

  /** A prefix that decodes, followed by an illegal character, makes that
      character the error of the whole string. */
  lemma DecodeStrictStops(s: string, i: nat)
    requires i < |s| && DecodeStrict(s[..i]).Ok? && !IsSymbol(s[i])
    ensures DecodeStrict(s) == Err(s[i])
  {
    DecodeStrictValid(s[..i]);
    DecodeStrictValid(s);
    assert forall j :: 0 <= j < i ==> s[j] == s[..i][j];
  }

  /** The step vector written back as text. */
  function Encode(st: seq<Step>): (s: string)
    ensures |s| == |st| && forall i :: 0 <= i < |st| ==> s[i] == Symbol(st[i])
  {
    if st == [] then [] else Encode(st[..|st| - 1]) + [Symbol(st[|st| - 1])]
  }

  lemma {:induction false} DecodeEncode(st: seq<Step>)
    ensures DecodeStrict(Encode(st)) == Ok(st)
  {
    if st != [] {
      var init := st[..|st| - 1];
      DecodeEncode(init);
      var x := st[|st| - 1];
      assert st == init + [x];
      var s := Encode(st);
      assert s == Encode(init) + [Symbol(x)];
      assert s[..|s| - 1] == Encode(init);
      SymbolRoundTrip(x);
    }
  }

  lemma EncodeDecode(s: string)
    requires DecodeStrict(s).Ok?
    ensures Encode(DecodeStrict(s).value) == s
  {
    DecodeStrictValid(s);
  }

  /** Skipping spaces is decoding the string with its spaces removed. */
  lemma {:induction false} SkippingSpacesIsStrictWithout(s: string)
    ensures DecodeSkippingSpaces(s) == DecodeStrict(WithoutSpaces(s))
  {
    if s != [] {
      var init := s[..|s| - 1];
      SkippingSpacesIsStrictWithout(init);
      var ch := s[|s| - 1];
      var w := WithoutSpaces(init);
      assert s[..|s| - 1] == init;
      if ch != ' ' {
        assert WithoutSpaces(s) == w + [ch];
        assert (w + [ch])[..|w|] == w;
        assert DecodeStrict(w + [ch]) == match DecodeStrict(w)
          case Err(c) => Err(c)
          case Ok(st) => (match StepOf(ch) case Some(x) => Ok(st + [x]) case None => Err(ch));
      } else {
        assert WithoutSpaces(s) == w;
      }
    }
  }

  // ---------------------------------------------------------------------
  // The Paldus table

  /** One row (a, b, c) of the Paldus table. */
  datatype Row = Row(a: int, b: int, c: int)

  /** The row after orbital x, from the row before it: '0' adds one to c,
      'u' one to b, 'd' one to a and c and takes one from b, '2' adds one to a. */
  function Bump(r: Row, x: Step): (r': Row)
    ensures r'.a + r'.b + r'.c == r.a + r.b + r.c + 1
    ensures r'.a >= r.a && r'.c >= r.c
  {
    match x
    case Empty => r.(c := r.c + 1)
    case Up => r.(b := r.b + 1)
    case Down => Row(r.a + 1, r.b - 1, r.c + 1)
    case Double => r.(a := r.a + 1)
  }

  /** Row i of the Paldus table: row i - 1 (zeros before the first orbital)
      bumped by step i. */
  function RowAt(st: seq<Step>, i: nat): Row
    requires i < |st|
  {
    Bump(if i == 0 then Row(0, 0, 0) else RowAt(st, i - 1), st[i])
  }

  /** Row i only depends on the steps up to i. */
  lemma {:induction false} RowAtPrefix(st: seq<Step>, n: nat, i: nat)
    requires i < n <= |st|
    ensures RowAt(st[..n], i) == RowAt(st, i)
  {
    if i > 0 {
      RowAtPrefix(st, n, i - 1);
    }
  }

  /** Closed form of the table: the counters count the steps up to and
      including orbital i. */
  lemma {:induction false} RowCounts(st: seq<Step>, i: nat)
    requires i < |st|
    ensures RowAt(st, i) == Row(Count(st, Down, i + 1) + Count(st, Double, i + 1),
                                Count(st, Up, i + 1) - Count(st, Down, i + 1),
                                Count(st, Empty, i + 1) + Count(st, Down, i + 1))
  {
    if i > 0 {
      RowCounts(st, i - 1);
    }
  }

  /** Every row of the table sums to the number of orbitals so far. */
  lemma {:induction false} RowSum(st: seq<Step>, i: nat)
    requires i < |st|
    ensures RowAt(st, i).a + RowAt(st, i).b + RowAt(st, i).c == i + 1
  {
    if i > 0 {
      RowSum(st, i - 1);
    }
  }

  /** a and c never decrease along the table. */
  lemma {:induction false} RowMonotone(st: seq<Step>, i: nat, j: nat)
    requires i <= j < |st|
    ensures RowAt(st, i).a <= RowAt(st, j).a && RowAt(st, i).c <= RowAt(st, j).c
    decreases j - i
  {
    if i < j {
      RowMonotone(st, i, j - 1);
    }
  }

  /** The last row: b is the total spin (in units of 1/2), which is at most
      the number of singly occupied orbitals and has its parity, and
      2a + b is the number of electrons. */
  lemma LastRow(st: seq<Step>)
    requires |st| >= 1
    ensures var r := RowAt(st, |st| - 1);
            && r.b <= SomoCount(st)
            && (SomoCount(st) - r.b) % 2 == 0
            && 2 * r.a + r.b == SomoCount(st) + 2 * DomoCount(st)
  {
    RowCounts(st, |st| - 1);
    var d := Count(st, Down, |st|);
    assert SomoCount(st) - RowAt(st, |st| - 1).b == 2 * d;
    assert (2 * d) % 2 == 0;
  }

  /** All b counters are non-negative: the C program's test for a valid
      ordering of 'u' and 'd'. */
  predicate SpinNonNegative(st: seq<Step>)
  {
    forall i :: 0 <= i < |st| ==> RowAt(st, i).b >= 0
  }
}
