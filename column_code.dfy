/** Spreadsheet column letters: the bijective base-26 numeral of a 0-based column index
    (`index_to_column_code`). */
module ColumnCode {

  predicate IsLetter(c: char) { 'A' <= c <= 'Z' }

  predicate AllLetters(s: string) { forall i :: 0 <= i < |s| ==> IsLetter(s[i]) }

  function Letter(d: nat): (c: char)
    requires d < 26
    ensures IsLetter(c) && LetterValue(c) == d
  {
    (('A' as int) + d) as char
  }

  function LetterValue(c: char): (d: nat)
    requires IsLetter(c)
    ensures d < 26
  {
    (c as int) - ('A' as int)
  }

  /** The letter code of column `n`: the last letter is `n % 26`, and what precedes it is the
      code of `n / 26 - 1`, so that 26 is "AA" and not "BA". */
  function Code(n: nat): (s: string)
    ensures |s| > 0 && AllLetters(s)
    decreases n
  {
    if n < 26 then [Letter(n)] else Code(n / 26 - 1) + [Letter(n % 26)]
  }

  /** The value a letter code stands for, reading A = 1, ..., Z = 26 in each position. */
  function Ordinal(s: string): (v: nat)
    requires AllLetters(s)
    ensures s != [] ==> v >= 1
  {
    if s == [] then 0 else Ordinal(s[..|s| - 1]) * 26 + LetterValue(s[|s| - 1]) + 1
  }

  /** `index_to_column_code`: prepends one letter per round, then stops once the remaining
      value is a single letter. */
  method IndexToColumnCode(index: nat) returns (code: string)
    ensures code == Code(index)
  {
    code := [];
    var n := index;
    while true
      invariant Code(index) == Code(n) + code
      decreases n
    {
      code := [Letter(n % 26)] + code;
      if n < 26 {
        break;
      }
      n := n / 26 - 1;
    }
  }

  /** Decoding the code of column `n` gives `n` back. */
  lemma {:induction false} OrdinalOfCode(n: nat)
    ensures Ordinal(Code(n)) == n + 1
    decreases n
  {
    if n >= 26 {
      var s := Code(n);
      OrdinalOfCode(n / 26 - 1);
      assert s[..|s| - 1] == Code(n / 26 - 1);
    }
  }

  /** Every non-empty run of capital letters is the code of exactly one column: the one it
      decodes to. Together with OrdinalOfCode, the encoding is a bijection between the
      naturals and the non-empty letter strings. */
  lemma {:induction false} CodeOfOrdinal(s: string)
    requires s != [] && AllLetters(s)
    ensures Code(Ordinal(s) - 1) == s
    decreases |s|
  {
    var p, c := s[..|s| - 1], s[|s| - 1];
    var v := LetterValue(c);
    if p == [] {
      assert s == [c];
    } else {
      CodeOfOrdinal(p);
      var n := Ordinal(s) - 1;
      assert n == Ordinal(p) * 26 + v;
      assert n / 26 == Ordinal(p) && n % 26 == v;
      assert s == p + [c];
    }
  }

  /** Distinct columns get distinct codes. */
  lemma CodeInjective(m: nat, n: nat)
    requires Code(m) == Code(n)
    ensures m == n
  {
    OrdinalOfCode(m);
    OrdinalOfCode(n);
  }

  /** The boundary cases: the last one-letter, the first two-letter, the last two-letter and
      the first three-letter codes. */
  lemma CodeExamples()
    ensures Code(0) == "A" && Code(25) == "Z"
    ensures Code(26) == "AA" && Code(27) == "AB"
    ensures Code(701) == "ZZ" && Code(702) == "AAA"
  {
  }
}
