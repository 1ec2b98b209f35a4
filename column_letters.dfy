/** Spreadsheet column addresses: the bijective base-26 names A, B, ..., Z, AA, AB, ... of zero-based column indexes. */
module ColumnLetters {

  predicate IsLetter(c: char) {
    'A' <= c <= 'Z'
  }

  /** A column name: one or more upper-case letters. */
  predicate IsColumnName(s: string) {
    s != [] && forall k :: 0 <= k < |s| ==> IsLetter(s[k])
  }

  /** The bijective base-26 numeral of a 1-based column number `d`; 0 has the empty numeral. */
  function Letters(d: nat): (r: string)
    ensures d == 0 <==> r == []
  {
    if d == 0 then ""
    else
      var m := (d - 1) % 26;
      Letters((d - m) / 26) + [(65 + m) as char]
  }

  /** Every character of a numeral is a letter A..Z. */
  lemma {:induction false} LettersAreLetters(d: nat)
    ensures forall k :: 0 <= k < |Letters(d)| ==> IsLetter(Letters(d)[k])
  {
    if d > 0 {
      var m := (d - 1) % 26;
      LettersAreLetters((d - m) / 26);
    }
  }

  /** The name of the column with zero-based index `index`. */
  function ColumnName(index: nat): (r: string)
    ensures IsColumnName(r)
  {
    LettersAreLetters(index + 1);
    Letters(index + 1)
  }

  /** The 1-based column number a string of letters denotes (each letter A..Z a digit 1..26). */
  function LetterValue(s: string): int {
    if s == [] then 0 else LetterValue(s[..|s| - 1]) * 26 + (s[|s| - 1] as int - 64)
  }

  /** The zero-based index a column name denotes: the inverse of ColumnName. */
  function LetterToIndex(s: string): int {
    LetterValue(s) - 1
  }

  lemma {:induction false} ValueOfLetters(d: nat)
    ensures LetterValue(Letters(d)) == d
  {
    if d > 0 {
      var m := (d - 1) % 26;
      var q := (d - 1) / 26;
      assert d - 1 == 26 * q + m;
      assert (d - m) / 26 == q;
      ValueOfLetters(q);
      var r := Letters(d);
      assert r[..|r| - 1] == Letters(q);
    }
  }

  lemma {:induction false} LettersOfValue(s: string)
    requires forall k :: 0 <= k < |s| ==> IsLetter(s[k])
    ensures LetterValue(s) >= 0 && Letters(LetterValue(s)) == s
  {
    if s != [] {
      var init, last := s[..|s| - 1], s[|s| - 1];
      LettersOfValue(init);
      var v := LetterValue(init);
      var c := last as int - 64;
      assert 1 <= c <= 26;
      LettersStep(v * 26 + c, v, c - 1);
      assert ((65 + (c - 1)) as char) == last;
      assert s == init + [last];
    }
  }

  /** Reading a column name back gives the index it was made from. */
  lemma LetterToIndexOfColumnName(index: nat)
    ensures LetterToIndex(ColumnName(index)) == index
  {
    ValueOfLetters(index + 1);
  }

  /** Every column name is the name of exactly the index it denotes. */
  lemma ColumnNameOfLetterToIndex(s: string)
    requires IsColumnName(s)
    ensures LetterToIndex(s) >= 0 && ColumnName(LetterToIndex(s)) == s
  {
    LettersOfValue(s);
  }

  /** Distinct indexes have distinct names. */
  lemma ColumnNameInjective(i: nat, j: nat)
    requires ColumnName(i) == ColumnName(j)
    ensures i == j
  {
    LetterToIndexOfColumnName(i);
    LetterToIndexOfColumnName(j);
  }

  /** One unfolding of Letters, with the digit and the quotient given explicitly. */
  lemma LettersStep(d: nat, q: nat, m: nat)
    requires d == 26 * q + m + 1 && m < 26
    ensures Letters(d) == Letters(q) + [(65 + m) as char]
  {
    assert (d - 1) % 26 == m;
    assert (d - m) / 26 == q;
  }

  /** Peeling the last letter off the numeral of `d` onto the front of `suffix` keeps the whole numeral:
      `letter` is the last digit of `d`, and `q` the number that the remaining letters denote. */
  lemma LettersPeel(d: nat, m: int, q: int, letter: char, suffix: string)
    requires d > 0 && m == (d - 1) % 26 && q == (d - m) / 26 && letter == (65 + m) as char
    ensures 0 <= q < d
    ensures Letters(q) + ([letter] + suffix) == Letters(d) + suffix
  {
    assert Letters(d) == Letters(q) + [letter];
    assert Letters(q) + ([letter] + suffix) == (Letters(q) + [letter]) + suffix;
  }

  /** The boundary cases of the naming scheme. */
  lemma ColumnNameExamples()
    ensures ColumnName(0) == "A" && ColumnName(25) == "Z"
    ensures ColumnName(26) == "AA" && ColumnName(701) == "ZZ" && ColumnName(702) == "AAA"
  {
    assert Letters(1) == "A" by { LettersStep(1, 0, 0); }
    assert Letters(26) == "Z" by { LettersStep(26, 0, 25); }
    assert Letters(27) == "AA" by { LettersStep(27, 1, 0); }
    assert Letters(702) == "ZZ" by { LettersStep(702, 26, 25); }
    assert Letters(703) == "AAA" by { LettersStep(703, 27, 0); }
  }

  /** `columnIndexToLetter`: peels off one letter per iteration, least significant first. */
  method ColumnIndexToLetter(index: nat) returns (columnName: string)
    ensures columnName == ColumnName(index)
  {
    var dividend: nat := index + 1;
    columnName := "";
    ghost var target := ColumnName(index);
    while dividend > 0
      invariant Letters(dividend) + columnName == target
      decreases dividend
    {
      var modulo := (dividend - 1) % 26;
      var letter := (65 + modulo) as char;
      var next := (dividend - modulo) / 26;
      LettersPeel(dividend, modulo, next, letter, columnName);
      columnName := [letter] + columnName;
      dividend := next;
    }
  }
}
