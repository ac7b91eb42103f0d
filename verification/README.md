# csf2det in Dafny

csf2det expands a configuration state function (CSF) into Slater
determinants. The CSF is given as a step vector of the graphical unitary
group approach. It has one character per molecular orbital: `0` empty,
`u` and `d` singly occupied and coupled up or down, `2` doubly occupied.
The programs also take twice the Ms value, `twoms`.

The program builds the Paldus table (the counters a, b and c per orbital)
and checks the input. It then walks the subsets of n_alpha alpha electrons
among the n_somo singly occupied orbitals, in lexicographic order. For each
subset, one pass over the orbitals multiplies a phase and a fraction. The
fraction is the squared coefficient. The pass also writes the determinant
as a string over `0 a b 2`. Every determinant with a nonzero coefficient is
printed as `+/- nom/denom |det|`.

The repository does this three times:

- a C program (`csf2det.c`);
- a JavaScript program (`csf2det.js`);
- a Rust program (`csf2det_cargo/src/main.rs`).

The three differ in their checks, in the spaces they accept and in how they
print. The model has shared modules and one module per program:

- `Results`: the Result and Option datatypes.
- `Fractions`: truncating division, `gcd`, and the two `simplify` variants.
  - The C/JS `simplify` works in place on a two-element array.
  - The Rust `Fraction::simplify` returns a value and turns 0 into 0/0.
- `Steps`: the step characters, the two decoders, the Paldus rows, and the
  occupation counts.
  - The C decoder skips spaces; the JS and Rust decoders take every
    character as a step.
- `Combinations`: `combination`/`next_combination` as a successor function
  on k-subsets of {0..n-1}, and its enumeration `NthComb`.
  - The enumeration is proved to be a bijection with `0 .. C(n, k) - 1`
    and to be what the successor walks through.
- `Coefficients`: the spin eigenvalue vector, the pass over the orbitals,
  the line of one subset, and the expansion over all subsets.
  - `Reduction` chooses between the C/JS reduction, the Rust reduction and
    the exact products.
- `ArrayWalk`: the shared imperative C/JS part over arrays.
  - It covers the Paldus table, `spin_eigv`, the pass, and the `kCn`
    struct with `combination` and the do-while loop over subsets.
  - Each method is proved against the functions of `Coefficients`.
- `CsfC`, `CsfJs`, `CsfRust`: the three `csf2det` functions.
  - Each has a functional reference (`CsfToDets`) and the imperative
    `Csf2Det` proved equal to it.
  - Each has lemmas on which inputs are accepted and what is printed.
  - Lemmas compare the programs with each other.
  - The Rust module has its own imperative code on vectors: the
    `Combination` class and `next_combination`, the tableau loop, and the
    determinant loop.
- `Scenarios`: small step vectors (`2`, `u`, `uu`, `ud`, `2x`) worked
  through to the exact lines the C program prints, and `u` in the
  JavaScript program, which skips the Ms checks.

## Model

| member | source | states |
|---|---|---|
| Fractions.Abs | csf2det.c:203 | `abs` gives the argument or its negation, never negative |
| Fractions.Rem | csf2det.c:214 | C's `%`: the remainder is smaller than the divisor in magnitude and takes the sign of the dividend |
| Fractions.QuotRem | csf2det.c:333-341 | truncating division and `%` satisfy a == b * (a / b) + a % b |
| Fractions.RemEven | csf2det.c:214 | the C parity test `(spin + twoms) % 2` is zero exactly when the sum is even, also for negative sums |
| Fractions.QuotExact | csf2det.c:337-339 | dividing an exact multiple d * p by d gives p back |
| Fractions.Gcd | csf2det.c:327-331 | `gcd` is zero exactly when both arguments are zero |
| Fractions.GcdDivides | csf2det.c:327-331 | `gcd(a, b)` divides a and b |
| Fractions.GcdQuotients | csf2det.c:327-331 | when the gcd is nonzero, both arguments are the gcd times their quotients by it |
| Fractions.GcdGreatest | csf2det.c:327-331 | every common divisor of a and b divides `gcd(a, b)` |
| Fractions.ReductionFactor | csf2det.c:333-341 | the divisor `simplify` uses is never zero |
| Fractions.Reduced | csf2det.c:333-341 | `simplify` leaves a zero numerator alone, keeps a numerator nonzero, and keeps a nonzero denominator nonzero |
| Fractions.ReducedScales | csf2det.c:333-341 | the old fraction is the divisor times the simplified one, so the value is unchanged |
| Fractions.ReducedIsLowest | csf2det.c:333-341 | for a nonzero numerator the simplified fraction is in lowest terms (its numerator and denominator have gcd +-1) |
| Fractions.Simplified | csf2det_cargo/src/main.rs:39-49 | Rust's `simplify` agrees with the C one on a nonzero numerator and gives a zero denominator for a zero numerator |
| Fractions.Simplify | csf2det.c:333-341 | the in-place `simplify`: the array holds the reduced fraction, the result is 0 exactly for a zero numerator and is otherwise the divisor used |
| Steps.Code | csf2det.c:144-157 | reference numbering: the step numbers 0..3 stand for `0`, `u`, `d`, `2` one to one |
| Steps.StepOf | csf2det.c:144-157 | a character decodes exactly when it is one of `0 u d 2`, and it decodes to the step with that symbol |
| Steps.SymbolRoundTrip | csf2det.c:144-157 | decoding the symbol of a step gives the step back |
| Steps.Codes | csf2det.c:147-150 | reference definition the decoding loops are proved against: the csf array of a step vector holds each step's number at its position |
| Steps.Count | csf2det.c:159-184 | a step count over the first m orbitals is at most m |
| Steps.CountAgree | csf2det.c:159-184 | step counts depend only on the orbitals counted |
| Steps.CountAppend | csf2det.c:159-184 | appending a step adds one to its own count and leaves the others |
| Steps.OccupationAppend | csf2det.c:147-150 | appending `u`/`d` adds one to n_somo, `2` one to n_domo |
| Steps.SomoBefore | csf2det.c:265-306 | a singly occupied orbital's index among the singly occupied ones is below n_somo, so `spin_eigv[i_somo]` is in range |
| Steps.CountsAddUp | csf2det.c:159-184 | every orbital has exactly one of the four steps |
| Steps.CountMonotone | csf2det.c:159-184 | step counts grow with the prefix |
| Steps.WithoutSpaces | csf2det.c:131-135 | removing the spaces gives a string no longer than the input and free of spaces |
| Steps.WithoutSpacesIdle | csf2det.c:131-135 | a string without spaces is unchanged |
| Steps.WithoutSpacesPrefix | csf2det.c:131-135 | the non-space count of a prefix is at most n_mo, so the csf array is never overrun |
| Steps.DecodeSkippingSpaces | csf2det.c:144-157 | the C decoder, when it succeeds, gives one step per non-space character |
| Steps.DecodeSkippingValid | csf2det.c:144-157 | the C decoding succeeds exactly when every character is a space or a step symbol; otherwise it names the first other character |
| Steps.DecodeSkippingNext | csf2det.c:144-157 | one more character: a space changes nothing, a symbol appends its step, anything else fails with that character |
| Steps.DecodeSkippingStops | csf2det.c:152-155 | the first illegal character decides the result of the whole string |
| Steps.DecodeStrict | csf2det.js:38-47 | the JS/Rust decoder, when it succeeds, gives one step per character |
| Steps.DecodeStrictValid | csf2det.js:38-47 | it succeeds exactly when every character is a step symbol, step i is the decoding of character i, and otherwise it names the first other character |
| Steps.DecodeStrictNext | csf2det.js:38-47 | one more character appends its step or fails with that character |
| Steps.DecodeStrictStops | csf2det.js:44-45 | the first invalid character decides the result of the whole string |
| Steps.Encode | csf2det.js:38-47 | writing a step vector gives one symbol per step |
| Steps.DecodeEncode | csf2det.js:38-47 | decoding a written step vector gives it back |
| Steps.EncodeDecode | csf2det.js:38-47 | writing a decoded string gives the string back |
| Steps.SkippingSpacesIsStrictWithout | csf2det.c:131-157 | the C decoding of a string is the strict decoding of the string with its spaces removed |
| Steps.Bump | csf2det.c:159-184 | one orbital adds 1 to a + b + c and never decreases a or c |
| Steps.RowAt | csf2det.c:159-184 | definition: row i is row i-1 (zeros before the first orbital) bumped by step i; its closed form and bounds are Steps.RowCounts, Steps.RowSum, Steps.LastRow |
| Steps.RowAtPrefix | csf2det.c:159-184 | the Paldus row of an orbital depends only on the orbitals up to it |
| Steps.RowCounts | csf2det.c:159-184 | counted over orbitals 0..i, a is the number of `d` and `2`, b the excess of `u` over `d`, c the number of `0` and `d` |
| Steps.RowSum | csf2det.c:159-184 | a + b + c of row i is i + 1 |
| Steps.RowMonotone | csf2det.c:159-184 | a and c never decrease along the table |
| Steps.LastRow | csf2det.c:196-199 | the total spin b[n_mo-1] is at most n_somo with its parity, and 2a + b is n_somo + 2 n_domo, the electron count |
| Combinations.Run | csf2det.c:251-252 | reference definition of a run of consecutive values: the first subset 0, 1, ..., k-1 and the refilled tail of `combination` |
| Combinations.Pivot | csf2det.c:346-347 | the backward search stops at -1 or at a position before the end |
| Combinations.PivotIsRightmost | csf2det.c:346-347 | the search finds the rightmost position whose entry is below its maximum n - k + ptr |
| Combinations.Successor | csf2det.c:343-356 | `combination` keeps the subset size |
| Combinations.SuccessorEnds | csf2det.c:343-356 | `combination` reports no further subset exactly at the last subset n-k, ..., n-1 |
| Combinations.Spread | csf2det.c:343-356 | entries of a strictly increasing subset differ at least by their distance |
| Combinations.SuccessorValid | csf2det.c:343-356 | the successor of a k-subset of {0..n-1} is one again and comes strictly later in lexicographic order |
| Combinations.BinomialEmpty | csf2det.c:221-252 | there is no k-subset of an n-set when k > n |
| Combinations.BinomialPositive | csf2det.c:221-252 | there is at least one k-subset when k <= n |
| Combinations.Binomial | csf2det.c:254-318 | definition by Pascal's rule: the number of k-subsets of an n-set, which is the number of rounds of the loop; zero exactly when k > n (Combinations.BinomialEmpty, Combinations.BinomialPositive) |
| Combinations.Rank | csf2det.c:343-356 | the rank of a subset is below C(n - lo, k) |
| Combinations.CombValid | csf2det.c:343-356 | the i-th subset is a k-subset of {lo..n-1} |
| Combinations.RankComb | csf2det.c:343-356 | ranking the i-th subset gives i |
| Combinations.CombRank | csf2det.c:343-356 | the subset at a subset's rank is that subset |
| Combinations.CombFirst | csf2det.c:251-252 | subset 0 is lo, lo+1, ..., the start of the do-while loop |
| Combinations.CombLast | csf2det.c:343-356 | the last subset is the one `combination` stops at |
| Combinations.NthComb | csf2det.c:254-318 | definition: the subset the loop visits in round i, the i-th k-subset of {0..n-1} in lexicographic order; that it is a k-subset listed in increasing order is Combinations.CombValid, that the rounds differ and miss none is Combinations.NthCombDistinct and Combinations.NthCombComplete |
| Combinations.PivotPrepend | csf2det.c:346-347 | the search on a subset with a leading entry finds the same position, shifted, unless it runs off the front |
| Combinations.SuccessorPrependSome | csf2det.c:343-356 | when the tail has a successor, the leading entry is kept |
| Combinations.SuccessorPrependNone | csf2det.c:348-350 | when the tail is at its end, the leading entry is increased and the tail restarts right after it, or there is no successor |
| Combinations.SuccessorWalks | csf2det.c:254-318 | `combination` takes subset j to subset j + 1 and stops after the last one |
| Combinations.WalkAcross | csf2det.c:343-356 | the step from the last subset with a given leading entry to the first with the next one |
| Combinations.NthCombDistinct | csf2det.c:254-318 | the do-while loop visits C(n, k) pairwise different k-subsets |
| Combinations.NthCombComplete | csf2det.c:254-318 | every k-subset of {0..n-1} is visited, at its rank |
| Coefficients.Eigv | csf2det.c:256-258 | `spin_eigv` has one entry per singly occupied orbital |
| Coefficients.NomFactor | csf2det.c:272-297 | definition: the numerator factor of an orbital: a + b - i_beta (u alpha), a + b - i_alpha (u beta), i_beta - a + 1 (d alpha), i_alpha - a + 1 (d beta), 1 for `0` and `2` |
| Coefficients.DenomFactor | csf2det.c:282-296 | definition: the denominator factor of an orbital: b for `u`, b + 2 for `d`, 1 otherwise |
| Coefficients.Flips | csf2det.c:289-300 | definition: the phase changes sign for `d` alpha at an even b, `d` beta at an odd b, and `2` at an odd b |
| Coefficients.Advance | csf2det.c:267-305 | definition: one orbital of the pass; Coefficients.AdvanceShape states what it does to counters, phase and determinant |
| Coefficients.WalkPrefix | csf2det.c:260-306 | definition: the pass over the first m orbitals from phase 1, fraction 1/1 and zero counters; its invariants are Coefficients.WalkShape, Coefficients.WalkCounts, Coefficients.WalkDet, Coefficients.WalkAlphas |
| Coefficients.Walk | csf2det.c:260-306 | definition: the pass over all orbitals; Coefficients.FinalCounts and Coefficients.ReductionKeepsValue state its result |
| Coefficients.LineOf | csf2det.c:307-317 | definition: the line printed for a pass, when its numerator is nonzero; Coefficients.LineOfShape states its shape |
| Coefficients.Lines | csf2det.c:254-318 | definition: the lines printed for the first j subsets; Coefficients.LinesExactly states which they are |
| Coefficients.Expansion | csf2det.c:254-318 | definition: the lines printed for all C(n_somo, n_alpha) subsets; Coefficients.ExpansionShape and Coefficients.LinesExactly state them |
| Coefficients.AlphaCount | csf2det.c:256-258 | the alpha orbitals among the first s are at most s |
| Coefficients.AdvanceShape | csf2det.c:265-306 | one orbital adds one character to the determinant, updates i_somo, i_alpha, i_beta by its occupation, and changes the phase at most by sign |
| Coefficients.WalkShape | csf2det.c:265-306 | after m orbitals i_somo counts the singly occupied ones, the determinant has m characters and the phase is +-1 |
| Coefficients.WalkCounts | csf2det.c:265-306 | i_alpha and i_beta count the alpha/beta singly occupied orbitals plus the doubly occupied ones so far |
| Coefficients.CountsStep | csf2det.c:265-306 | one orbital keeps the i_alpha/i_beta counting invariant |
| Coefficients.WalkDet | csf2det.c:265-306 | determinant character i is `0` or `2` for an empty or double orbital, and `a` or `b` by the orbital's entry in `spin_eigv` |
| Coefficients.DetOf | csf2det.c:265-306 | definition: the determinant of the first m orbitals as a reference independent of the fraction, one character per orbital; Coefficients.DetOfAt states its characters |
| Coefficients.DetOfAt | csf2det.c:265-306 | character i of the reference determinant is the one for orbital i's occupation and its entry in `spin_eigv` |
| Coefficients.WalkDetOf | csf2det.c:265-306 | the pass writes exactly the reference determinant, under every reduction |
| Coefficients.DetGrows | csf2det.c:265-306 | each orbital appends exactly one character, the one for its occupation and spin, after those already written |
| Coefficients.AlphaCountPoint | csf2det.c:256-258 | setting one more entry of `spin_eigv` to 1 adds one alpha orbital behind it |
| Coefficients.AlphaCountNone | csf2det.c:256 | before any entry is set, there is no alpha orbital |
| Coefficients.EigvAlphaCount | csf2det.c:256-258 | the vector of a k-subset has exactly k alpha orbitals |
| Coefficients.FinalCounts | csf2det.c:265-306 | after a pass over a k-subset, i_somo = n_somo, i_alpha = k + n_domo, i_beta = n_somo - k + n_domo |
| Coefficients.CharCount | csf2det.c:307-317 | a character count is at most the length |
| Coefficients.WalkAlphas | csf2det.c:265-306 | the determinant so far has as many `a` as alpha orbitals passed, and `b` for the rest of the singly occupied ones |
| Coefficients.AlphasStep | csf2det.c:265-306 | one orbital keeps the `a`/`b` counting invariant |
| Coefficients.ReduceKeepsCross | csf2det.c:305 | a reduction keeps the value of the fraction (cross products) and whether it is zero |
| Coefficients.ReductionKeepsValue | csf2det.c:265-306 | reducing after every orbital changes nothing but the representation: the value equals the exact product, it is zero at the same time, and all else is identical |
| Coefficients.ValueStep | csf2det.c:265-306 | one orbital keeps that agreement with the exact walk |
| Coefficients.ExactDenomNonzero | csf2det.c:265-306 | with every b non-negative (a valid ordering), the exact denominators b+1 and b+2 never vanish |
| Coefficients.KeepZeroDenomNonzero | csf2det.c:333-341 | the C/JS reduction keeps a nonzero denominator |
| Coefficients.ReductionsAgree | csf2det_cargo/src/main.rs:173-217 | the Rust walk (0 becomes 0/0) has the same phase, counters, determinant and numerator as the C/JS walk |
| Coefficients.LinesAgree | csf2det_cargo/src/main.rs:155-228 | the C/JS and Rust loops print the same lines for the first j subsets |
| Coefficients.ExpansionsAgree | csf2det_cargo/src/main.rs:155-228 | the C/JS and Rust expansions are the same list of lines |
| Coefficients.NoAlphaExpansion | csf2det.c:251-258 | with n_alpha = 0 the loop runs once, with every singly occupied orbital beta |
| Coefficients.LineOfShape | csf2det.c:307-317 | a line is printed exactly when the numerator is nonzero; it has phase +-1 and the determinant's characters |
| Coefficients.Candidates | csf2det.c:254-318 | the loop considers one candidate line per subset visited |
| Coefficients.CandidatesAt | csf2det.c:254-318 | candidate i is the line of subset i |
| Coefficients.LinesPresent | csf2det.c:307-317 | the printed lines are the candidates with a nonzero coefficient, in order |
| Coefficients.PresentSound | csf2det.c:307-317 | each printed line comes from its own candidate, at strictly increasing positions |
| Coefficients.PresentComplete | csf2det.c:307-317 | every candidate with a nonzero coefficient is printed |
| Coefficients.LinesExactly | csf2det.c:254-318 | the lines of the first j subsets are exactly the nonzero lines of those subsets, in subset order, once each |
| Coefficients.SubsetLineShape | csf2det.c:254-318 | the line of a k-subset has k `a`, n_somo - k `b`, `0`/`2` exactly at empty/double orbitals, a nonzero numerator and phase +-1 |
| Coefficients.CombLineShape | csf2det.c:265-317 | the same for the line of any k-subset given by its elements |
| Coefficients.ExpansionShape | csf2det.c:254-318 | every printed line is shaped so; with a valid ordering its denominator is nonzero |
| Coefficients.ZeroStays | csf2det.c:265-306 | once the numerator is zero it stays zero |
| Coefficients.LeadingDownSilent | csf2det.c:265-306 | a step vector starting with `d` gives a zero coefficient for every subset |
| Coefficients.SilentLines | csf2det.c:254-318 | such a step vector prints no line |
| ArrayWalk.StoreCode | csf2det.c:147-150 | storing a symbol's number at `csf[iorb]` extends the coded prefix by its step |
| ArrayWalk.BumpRow | csf2det.c:165-183 | one orbital's switch adds the increments of its step to a[i], b[i], c[i] and leaves all other entries alone |
| ArrayWalk.PaldusTable | csf2det.c:159-184 | the three arrays hold the Paldus table of the step vector |
| ArrayWalk.FillEigv | csf2det.c:256-258 | `spin_eigv` holds 1 at the subset's orbitals and -1 elsewhere |
| ArrayWalk.Step | csf2det.c:267-305 | one orbital of the pass on the arrays does what the functional walk does |
| ArrayWalk.WalkPass | csf2det.c:260-306 | the pass leaves phase, frac, counters and det equal to the functional walk with the C/JS reduction |
| ArrayWalk.KCn.constructor | csf2det.c:110-114 | a `kCn` with the given n and k and a fresh `lex` array of length k |
| ArrayWalk.Combination | csf2det.c:343-356 | `combination` returns 1 and writes the successor subset, or returns 0 and leaves `lex` alone at the last subset |
| ArrayWalk.FirstSubset | csf2det.c:251-252 | `lex` is set to 0, 1, ..., k-1 |
| ArrayWalk.Visit | csf2det.c:255-317 | one round prints the line of the current subset, if any |
| ArrayWalk.NextSubset | csf2det.c:318 | the loop test moves from subset j to subset j + 1 and is false after the last one |
| ArrayWalk.Round | csf2det.c:254-318 | one round extends the printed lines by those of subset j |
| ArrayWalk.Enumerate | csf2det.c:254-318 | the do-while loop prints the expansion over all C(n_somo, n_alpha) subsets |
| ArrayWalk.Expand | csf2det.c:225-318 | from the allocation to the end of the loop, the printed lines are the expansion |
| CsfC.MsValid | csf2det.c:201-221 | once both Ms checks pass, n_alpha lies between 0 and n_somo and the division by 2 is exact |
| CsfC.NAlpha | csf2det.c:221 | definition: n_alpha = (n_somo + twoms) / 2 with truncating division |
| CsfC.NAlphaTruncates | csf2det.c:221 | n_alpha is half of n_somo + twoms rounded toward zero, below the half for a positive sum and above it for a negative one |
| CsfC.CsfToDets | csf2det.c:125-325 | definition: the C program as a function: the first illegal character, or the checks and the expansion; CsfC.IllegalCharacterRejected and CsfC.SpacesIgnored state its decoding |
| CsfC.Checked | csf2det.c:159-318 | definition: the ordering check, the two Ms checks in source order, and the report; CsfC.OrderingRejected, CsfC.MsAccepted and CsfC.AcceptedReport state its outcomes |
| CsfC.SpacesIgnored | csf2det.c:131-157 | spaces make no difference to the result |
| CsfC.IllegalCharacterRejected | csf2det.c:144-157 | the program fails on a character exactly when the string holds one that is neither a space nor a step, and it names the first |
| CsfC.OrderingRejected | csf2det.c:186-194 | an ordering error is reported exactly when some b is negative |
| CsfC.MsAccepted | csf2det.c:201-218 | with a valid ordering the call succeeds exactly when -spin <= twoms <= spin with the parity of the spin |
| CsfC.AcceptedReport | csf2det.c:196-317 | an accepted call prints n_mo orbitals, n_somo + 2 n_domo electrons and lines of the right shape with nonzero denominators |
| CsfC.CountOrbitals | csf2det.c:131-135 | n_mo counts the non-space characters |
| CsfC.Decode | csf2det.c:131-157 | the decoding loops fill `csf` with the step numbers and count n_somo and n_domo, or stop at the first illegal character |
| CsfC.OrderingValid | csf2det.c:186-194 | the ordering loop succeeds exactly when every b is non-negative |
| CsfC.Analyse | csf2det.c:159-318 | the code after the decoding computes the checked result of the decoded steps |
| CsfC.Csf2Det | csf2det.c:125-325 | `csf2det` computes the functional result and returns 0 exactly when it succeeds |
| CsfRust.Display | csf2det_cargo/src/main.rs:52-60 | what `Display` writes stands for the fraction's value |
| CsfRust.MsShownValue | csf2det_cargo/src/main.rs:93-97 | the Ms line stands for twoms/2, is whole exactly for even twoms, and otherwise is twoms/2 for positive twoms but -twoms/-2 for negative twoms |
| CsfRust.MsMinusOneHalf | csf2det_cargo/src/main.rs:93-97 | twoms = -1 prints the Ms as 1/-2 |
| CsfRust.DisplaySigned | csf2det_cargo/src/main.rs:52-60 | the corrected display stands for the same value with a non-negative denominator |
| CsfRust.MsShownSignedValue | csf2det_cargo/src/main.rs:93-97 | the corrected Ms line stands for twoms/2 and shows twoms/2 with the sign on top |
| CsfRust.MsShown | csf2det_cargo/src/main.rs:93-97 | definition: the Ms line is `Display` of the simplified twoms/2; CsfRust.MsShownValue states what it shows |
| CsfRust.MsLineAsWritten | csf2det_cargo/src/main.rs:92-97 | the program model prints the Ms line of twoms = -1 as `1/-2`, whatever the step vector |
| CsfRust.Rendered | csf2det_cargo/src/main.rs:219-222 | reference definition the determinant loop is proved against: one printed line per determinant line, in order |
| CsfRust.CsfToDets | csf2det_cargo/src/main.rs:92-232 | definition: the Rust program as a function: the Ms line as written, then the first invalid step, or the check and the expansion; CsfRust.StepRejected and CsfRust.MsLineAsWritten state its parts |
| CsfRust.Checked | csf2det_cargo/src/main.rs:134-228 | definition: the single Ms check and the printed lines with Rust's reduction; CsfRust.MsAccepted and CsfRust.AgreesWithC state its outcomes |
| CsfRust.StepRejected | csf2det_cargo/src/main.rs:102-132 | the program fails on a step exactly when the string holds a non-symbol character, and names the first |
| CsfRust.MsAccepted | csf2det_cargo/src/main.rs:134-143 | the call succeeds exactly when -spin <= twoms <= spin with the parity of the spin, and no ordering check is made |
| CsfRust.AgreesWithC | csf2det_cargo/src/main.rs:134-228 | with a valid ordering, the Rust and C programs accept the same twoms and print the same counts and lines; a refusal carries twoms and the spin |
| CsfRust.AcceptedAlike | csf2det_cargo/src/main.rs:134-228 | where the C program accepts twoms, the Rust program accepts it too, with the same electron and orbital counts and the C lines printed the Rust way |
| CsfRust.DecodingAgreesWithC | csf2det_cargo/src/main.rs:102-132 | on a string without spaces both programs refuse the same first character |
| CsfRust.OrderingUnchecked | csf2det_cargo/src/main.rs:134-143 | a step vector starting with `d` is refused by C; Rust accepts `du` with twoms = 0 and prints no line |
| CsfRust.SpaceRejected | csf2det_cargo/src/main.rs:102-132 | `u d` fails on the space in Rust |
| CsfRust.Combination.constructor | csf2det_cargo/src/main.rs:149-153 | a combination with the given n, k and subset |
| CsfRust.NextCombination | csf2det_cargo/src/main.rs:70-86 | `next_combination` returns true exactly when there is a successor and then writes it; otherwise `lex` is unchanged, also for k = 0 |
| CsfRust.RowsAppend | csf2det_cargo/src/main.rs:102-132 | pushing the bumped last row extends the table by one orbital |
| CsfRust.Increment | csf2det_cargo/src/main.rs:117-131 | the step match adds the step's increments and counts a singly occupied orbital, or fails on any other character |
| CsfRust.PushRow | csf2det_cargo/src/main.rs:102-132 | one orbital of the first loop extends the table, or fails |
| CsfRust.Tableau | csf2det_cargo/src/main.rs:102-132 | the first loop builds the Paldus table and n_somo of the decoded step vector, or stops at the first invalid character |
| CsfRust.SpinEigv | csf2det_cargo/src/main.rs:167-171 | `spin_eigv` is 1 at the subset's orbitals and -1 elsewhere |
| CsfRust.Orbital | csf2det_cargo/src/main.rs:175-216 | one orbital of the determinant pass does what the functional walk does, with Rust's reduction |
| CsfRust.Determinant | csf2det_cargo/src/main.rs:173-217 | the pass gives the functional walk with Rust's reduction |
| CsfRust.Print | csf2det_cargo/src/main.rs:219-222 | a line is printed exactly for a nonzero numerator, with the sign of the phase |
| CsfRust.Visit | csf2det_cargo/src/main.rs:156-222 | one round prints the line of subset j, if any |
| CsfRust.RenderedAppend | csf2det_cargo/src/main.rs:219-222 | printing line by line distributes over concatenation |
| CsfRust.Round | csf2det_cargo/src/main.rs:155-228 | one round prints subset j's line and moves to subset j + 1, or stops after the last |
| CsfRust.Determinants | csf2det_cargo/src/main.rs:155-228 | the loop prints the expansion with Rust's reduction |
| CsfRust.Analyse | csf2det_cargo/src/main.rs:134-231 | the code after the first loop computes the checked result |
| CsfRust.Csf2Det | csf2det_cargo/src/main.rs:92-232 | `csf2det` prints the Ms line as written (`1/-2` for twoms = -1) and computes the functional result |
| CsfJs.SubsetSizeBound | csf2det.js:79 | n_alpha is at most n_somo exactly when twoms <= n_somo + 1 |
| CsfJs.NAlpha | csf2det.js:79 | `Math.floor`: n_alpha is the largest integer whose double is at most n_somo + twoms |
| CsfJs.CsfToDets | csf2det.js:30-166 | definition: the JS program as a function: the first invalid character, or the expansion; CsfJs.StepvectorRejected states its decoding |
| CsfJs.Expanded | csf2det.js:49-166 | definition: the array-length refusal for a negative n_alpha, or the header and the expansion; CsfJs.LengthRejected, CsfJs.SubsetSizeAccepted and CsfJs.AgreesWithC state its outcomes |
| CsfJs.EndlessPastN | csf2det.js:17-28 | with more than n entries, `next_combination` always finds a successor, so the loop never ends |
| CsfJs.StepvectorRejected | csf2det.js:36-47 | the program throws for a character exactly when the string holds a non-symbol (a space included), and names the first |
| CsfJs.LengthRejected | csf2det.js:79-85 | a decoded step vector is refused for the array length exactly when twoms < -n_somo |
| CsfJs.AgreesWithC | csf2det.js:49-166 | where C accepts a step vector, JS prints the same counts and lines |
| CsfJs.OrderingUnchecked | csf2det.js:49-72 | a step vector starting with `d`, refused by C, prints no line in JS |
| CsfJs.SubsetSizeAccepted | csf2det.js:74-166 | a subset size between 0 and n_somo prints the header and the expansion |
| CsfJs.SubsetSizeRefused | csf2det.js:81-85 | a negative subset size is the array length refused |
| CsfJs.EmptyDecoded | csf2det.js:32-47 | the empty string decodes to no steps, with no electron count |
| CsfJs.EmptySubsetSize | csf2det.js:79 | without open shells n_alpha is 0 for twoms = 0 or 1 and negative for negative twoms |
| CsfJs.EmptyReturns | csf2det.js:79-101 | the empty step vector returns for every twoms up to 1 |
| CsfJs.DecodedAccepted | csf2det.js:30-166 | a string that decodes with a subset size between 0 and n_somo returns and prints its expansion |
| CsfJs.EmptyRefused | csf2det.js:81-85 | the empty step vector with negative twoms is refused for the length floor(twoms / 2) |
| CsfJs.Decode | csf2det.js:32-47 | the decoding loop fills `csf` with the step numbers and counts n_somo, or stops at the first invalid character |
| CsfJs.Analyse | csf2det.js:49-166 | the code after the decoding computes the expanded result |
| CsfJs.Csf2Det | csf2det.js:30-166 | `csf2det` computes the functional result |
| Scenarios.DecodesTo | csf2det.js:38-47 | a written step vector holds no space and both decoders give it back |
| Scenarios.LowestTerms | csf2det.c:333-341 | 1/1 and 1/2 are in lowest terms |
| Scenarios.DoublePass | csf2det.c:265-317 | `2` gives the line +1/1 `2` |
| Scenarios.UpAlphaPass | csf2det.c:265-317 | `u` with its electron alpha gives +1/1 `a` |
| Scenarios.UpBetaPass | csf2det.c:265-317 | `u` with its electron beta gives +1/1 `b` |
| Scenarios.OneOfTwo | csf2det.c:343-356 | the subsets of one among two are {0} then {1} |
| Scenarios.UpUpAlphaBeta | csf2det.c:265-317 | `uu`, first electron alpha: +1/2 `ab` |
| Scenarios.UpUpBetaAlpha | csf2det.c:265-317 | `uu`, second electron alpha: +1/2 `ba` |
| Scenarios.UpDownAlphaBeta | csf2det.c:265-317 | `ud`, first electron alpha: +1/2 `ab` |
| Scenarios.UpDownBetaAlpha | csf2det.c:265-317 | `ud`, second electron alpha: -1/2 `ba` |
| Scenarios.TwoLines | csf2det.c:254-318 | two open shells with one alpha electron give the line of {0}, then that of {1} |
| Scenarios.Accepted | csf2det.c:196-318 | an accepted step vector prints the counts of the last row and the expansion with n_alpha alpha electrons |
| Scenarios.DoubleTable | csf2det.c:159-184 | the Paldus row of `2` is (1, 0, 0) |
| Scenarios.UpTable | csf2det.c:159-184 | the Paldus row of `u` is (0, 1, 0) |
| Scenarios.PairTable | csf2det.c:159-184 | the Paldus rows of `uu` and `ud` |
| Scenarios.DoubleLines | csf2det.c:254-318 | the expansion of `2` |
| Scenarios.UpLines | csf2det.c:254-318 | the expansions of `u` with its electron alpha and beta |
| Scenarios.UpUpLines | csf2det.c:254-318 | the expansion of `uu` with one alpha electron: +1/2 `ab`, +1/2 `ba` |
| Scenarios.UpDownLines | csf2det.c:254-318 | the expansion of `ud` with one alpha electron: +1/2 `ab`, -1/2 `ba` |
| Scenarios.PairNormalised | csf2det.c:254-318 | for `uu` and `ud` with one alpha electron, the printed fractions, the squared coefficients, add up to 1 |
| Scenarios.SmallAlphaCounts | csf2det.c:221 | n_alpha for one open shell with twoms = +-1 and two with twoms = 0 |
| Scenarios.DoubleChecked | csf2det.c:186-318 | `2` with twoms = 0 prints 2 electrons, 1 orbital, +1/1 `2` |
| Scenarios.UpChecked | csf2det.c:186-318 | `u` with twoms = 1 prints `a`, with twoms = -1 prints `b` |
| Scenarios.UpUpChecked | csf2det.c:186-318 | `uu` with twoms = 0 prints 2 electrons, 2 orbitals, +1/2 `ab` and +1/2 `ba`; twoms = 3 exceeds the spin 2 |
| Scenarios.UpDownChecked | csf2det.c:186-318 | `ud` with twoms = 0 prints +1/2 `ab` and -1/2 `ba` |
| Scenarios.SpelledCall | csf2det.c:131-157 | a string spelling a step vector is decoded to it and checked |
| Scenarios.DoubleCall | csf2det.c:125-325 | the call on a string `2` |
| Scenarios.UpCall | csf2det.c:125-325 | the calls on a string `u` |
| Scenarios.UpUpCall | csf2det.c:125-325 | the calls on a string `uu` |
| Scenarios.UpDownCall | csf2det.c:125-325 | the call on a string `ud` |
| Scenarios.DoubleScenario | csf2det.c:125-325 | `csf2det("2", 0)` prints 2 electrons in 1 orbital and +1/1 `2` |
| Scenarios.UpScenario | csf2det.c:125-325 | `csf2det("u", +-1)` prints +1/1 `a` or +1/1 `b` |
| Scenarios.UpUpScenario | csf2det.c:125-325 | `csf2det("uu", 0)` prints the triplet's Ms = 0 component, +1/2 `ab` and +1/2 `ba`; twoms = 3 is refused |
| Scenarios.UpDownScenario | csf2det.c:125-325 | `csf2det("ud", 0)` prints the open-shell singlet, +1/2 `ab` and -1/2 `ba` |
| Scenarios.IllegalScenario | csf2det.c:144-157 | `csf2det("2x", twoms)` fails on `x` |
| Scenarios.UpUnchecked | csf2det.js:74-166 | `u` with twoms = -1 or 0 prints one line +1/1 `b` in JS; C refuses twoms = 0 for its parity |
| Scenarios.ParityUnchecked | csf2det.js:74-166 | the same for the literal string `u` with twoms = -1 or 0 |

## Left out

- The command-line front ends are not modelled: the C `main` with argtable (csf2det.c:42-108) and the Rust `main` with structopt (csf2det_cargo/src/main.rs:10-17). They only parse the two arguments and print the result or the error.
- The JavaScript demo call `csf2det('22ud0ud02', 0)` (csf2det.js:168) is not modelled.
- Printing is modelled as the data printed, not as text:
  - C and JS: the header counts and, per line, the phase, numerator, denominator and determinant.
  - Rust: the `Shown` form of each fraction and the sign character.
  - The text of the error messages, the `"done!"` string Rust returns and the C/JS header text are left out.
- Integers are unbounded. The C `int`, the Rust `i32`/`usize` and the JS double arithmetic are not modelled at their widths.
  - Overflow of the fraction products in long step vectors is left out.
  - A Rust `usize` underflow or overflow panic is left out.
  - JS `/=` on doubles is exact here because the gcd divides both parts.
- `malloc`/`free` and out-of-memory are left out.
- The unused return value of `simplify` is computed by `Fractions.Simplify` but not used by the walks.
- The unused JS variables `i_domo` and `spin` are left out.
- The Rust program counts the step vector's length in bytes and decodes it by characters. The model uses characters. The two agree on ASCII input, and any other character is refused anyway.
- CsfC.Csf2Det: requires at least one non-space character. On an all-space or empty string the C code reads `a[n_mo - 1]` of an empty array, which is undefined behaviour.
- CsfRust.Csf2Det: requires a non-empty string. On an empty string the index `n_mo - 1` underflows `usize` and the program panics.
- CsfJs.Csf2Det: requires `Returns`, that is n_alpha <= n_somo for a string that decodes. Otherwise the do-while loop never ends (`CsfJs.EndlessPastN`), because `next_combination` always finds a successor when k > n.
- CsfJs.DecodedAccepted: for the empty step vector with twoms = 0 or 1 it states the result only as the expansion of no steps. The single line `+ 1/1 ||` that this amounts to is not derived literally.
- The normalisation of the printed coefficients (their squares summing to 1 over all lines) is not proved in general. It is proved only for `uu` and `ud` (Scenarios.PairNormalised). For `2` and `u` it can be read off the single line +1/1.

## Findings

| source | as written | input that shows it | evidently intended | confidence | as-written member | corrected member |
|---|---|---|---|---|---|---|
| csf2det_cargo/src/main.rs:93-97 | the Ms line prints `Fraction { nom: twoms, denom: 2 }` after `simplify`; for a negative odd twoms the recursive `gcd` of twoms and 2 is -1, so the sign moves to the denominator | twoms = -1 prints the Ms as `1/-2` | `-1/2`, with the sign on the numerator | not executed | CsfRust.MsMinusOneHalf | CsfRust.MsShownSignedValue |
