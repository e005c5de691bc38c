/** `generate_padding` and the padding-count policy of the range endpoint.
    The random draws are inputs: `random.choice` is a function `choice` that
    gives, for padding line i and character position j, an index into the
    alphabet; `random.randint(lo, hi)` is drawn by the caller inside the
    bounds PaddingBounds gives. Only the bounds of the draws are modelled,
    not their distribution. */
module Padding {
  import opened Text
  import Prefix

  /** The alphabet the synthetic suffixes are drawn from. */
  const Alphabet := "ABCDEF1234567890"

  const SuffixLength := 35

  /** Responses whose real line count is at most this are padded up into
      [PaddedMinimum, PaddedMaximum]. */
  const PaddedMinimum := 800
  const PaddedMaximum := 1000

  /** At most this many synthetic lines are added to a larger response. */
  const ExtraMaximum := 200

  /** A source of random.choice draws: index choice(i, j) picks character j
      of synthetic line i. */
  ghost predicate IsChoiceSource(choice: (nat, nat) -> nat) {
    forall i: nat, j: nat :: choice(i, j) < |Alphabet|
  }

  /** The shape of a synthetic line: 35 characters of the alphabet, then ":0". */
  predicate IsSyntheticLine(line: string) {
    && |line| == SuffixLength + 2
    && (forall j :: 0 <= j < SuffixLength ==> line[j] in Alphabet)
    && line[SuffixLength..] == ":0"
  }

  /** Synthetic line i. */
  function PaddingLine(choice: (nat, nat) -> nat, i: nat): (line: string)
    requires IsChoiceSource(choice)
    ensures IsSyntheticLine(line)
  {
    var suffix := seq(SuffixLength, j requires 0 <= j < SuffixLength => Alphabet[choice(i, j)]);
    assert (suffix + ":0")[SuffixLength..] == ":0";
    suffix + ":0"
  }

  /** generate_padding(count): count synthetic lines, line i drawn with the
      choices for index i. */
  function GeneratePadding(count: nat, choice: (nat, nat) -> nat): (lines: seq<string>)
    requires IsChoiceSource(choice)
    ensures |lines| == count
    ensures forall i :: 0 <= i < count ==> IsSyntheticLine(lines[i])
  {
    seq(count, i requires 0 <= i < count => PaddingLine(choice, i))
  }

  /** The choices that would have drawn the given lines. */
  function ChoicesOf(lines: seq<string>): (choice: (nat, nat) -> nat)
    ensures IsChoiceSource(choice)
  {
    (i: nat, j: nat) =>
      if i < |lines| && j < |lines[i]| && lines[i][j] in Alphabet
      then IndexOf(Alphabet, lines[i][j])
      else 0
  }

  /** Every sequence of synthetic lines is one generate_padding can produce:
      reading the draws back off the lines and generating again reproduces
      them. */
  lemma {:induction false} GeneratePaddingCoversAll(lines: seq<string>)
    requires forall i :: 0 <= i < |lines| ==> IsSyntheticLine(lines[i])
    ensures GeneratePadding(|lines|, ChoicesOf(lines)) == lines
  {
    var choice := ChoicesOf(lines);
    var gen := GeneratePadding(|lines|, choice);
    forall i | 0 <= i < |lines| ensures gen[i] == lines[i] {
      var line := lines[i];
      assert IsSyntheticLine(line);
      forall j | 0 <= j < |line| ensures gen[i][j] == line[j] {
        if j < SuffixLength {
          assert line[j] in Alphabet;
          assert gen[i][j] == Alphabet[choice(i, j)];
        } else {
          assert line[j] == line[SuffixLength..][j - SuffixLength];
          assert gen[i][j] == ":0"[j - SuffixLength];
        }
      }
    }
  }

  /** The alphabet holds exactly the sixteen upper-case hexadecimal digits. */
  lemma AlphabetIsUpperHex(c: char)
    ensures c in Alphabet <==> Prefix.IsHexChar(c) && UpperChar(c) == c
  {
    if Prefix.IsHexChar(c) && UpperChar(c) == c {
      var k := if c <= '9' then c as int - '1' as int + 6 else c as int - 'A' as int;
      if c == '0' {
        assert Alphabet[15] == c;
      } else {
        assert Alphabet[k] == c;
      }
    }
  }

  /** The synthetic suffixes are upper-case hexadecimal, and a synthetic
      line holds no line break. */
  lemma SyntheticLineShape(line: string)
    requires IsSyntheticLine(line)
    ensures Prefix.IsHexString(line[..SuffixLength])
    ensures forall j :: 0 <= j < SuffixLength ==> UpperChar(line[j]) == line[j]
    ensures '\n' !in line
  {
    forall j | 0 <= j < |line|
      ensures line[j] != '\n'
      ensures j < SuffixLength ==> Prefix.IsHexChar(line[j]) && UpperChar(line[j]) == line[j]
    {
      if j < SuffixLength {
        var k := IndexOf(Alphabet, line[j]);
        assert Alphabet[k] == line[j];
      } else {
        assert line[j] == line[SuffixLength..][j - SuffixLength];
      }
    }
  }

  // ---------------------------------------------------------------------------
  // The padding-count policy

  /** The bounds of the random.randint draw that sets the number of synthetic
      lines for n real lines. */
  function PaddingBounds(n: nat): (b: (nat, nat))
    ensures b.0 <= b.1
    ensures n <= PaddedMinimum ==> n + b.0 == PaddedMinimum && n + b.1 == PaddedMaximum
    ensures n > PaddedMinimum ==> b.0 == 0 && b.1 == ExtraMaximum
  {
    if n <= PaddedMinimum then (PaddedMinimum - n, PaddedMaximum - n) else (0, ExtraMaximum)
  }

  /** Whether the policy logs a warning for n real lines. */
  predicate WarnsFor(n: nat) {
    n > PaddedMinimum
  }

  /** c is a padding count the randint draw can give for n real lines. */
  ghost predicate IsDraw(n: nat, c: int) {
    var b := PaddingBounds(n);
    b.0 <= c <= b.1
  }

  /** t is a response size (in lines) the policy can give for n real lines. */
  ghost predicate IsPossibleTotal(n: nat, t: int) {
    exists c :: IsDraw(n, c) && n + c == t
  }

  /** Up to 800 real lines, the possible response sizes are exactly
      [800, 1000], whatever the real count. */
  lemma PossibleTotalsUpToMinimum(n: nat, t: int)
    requires n <= PaddedMinimum
    ensures IsPossibleTotal(n, t) <==> PaddedMinimum <= t <= PaddedMaximum
  {
    if PaddedMinimum <= t <= PaddedMaximum {
      assert IsDraw(n, t - n);
    }
  }

  /** Above 800 real lines, the possible response sizes are exactly
      [n, n + 200]. */
  lemma PossibleTotalsAboveMinimum(n: nat, t: int)
    requires n > PaddedMinimum
    ensures IsPossibleTotal(n, t) <==> n <= t <= n + ExtraMaximum
  {
    if n <= t <= n + ExtraMaximum {
      assert IsDraw(n, t - n);
    }
  }

  /** The privacy property: for two real counts of at most 800, every
      response size one can produce the other can too, so the size does not
      tell them apart. */
  lemma SizeHidesCountUpToMinimum(n1: nat, n2: nat, t: int)
    requires n1 <= PaddedMinimum && n2 <= PaddedMinimum
    ensures IsPossibleTotal(n1, t) <==> IsPossibleTotal(n2, t)
  {
    PossibleTotalsUpToMinimum(n1, t);
    PossibleTotalsUpToMinimum(n2, t);
  }
}
