/**
  Table cells as the table extractor hands them over, and Python's `str()`
  of each kind: text stays as it is, integers print in decimal and an empty
  cell (pandas' NaN) prints as "nan".
 */
module Cells {
  import opened Strings

  datatype Cell = Text(text: string) | Number(n: int) | Missing

  predicate IsDigit(c: char)
  {
    '0' <= c <= '9'
  }

  function DigitChar(d: int): (c: char)
    requires 0 <= d < 10
    ensures IsDigit(c) && c as int - '0' as int == d
  {
    ('0' as int + d) as char
  }

  /** The decimal digits of `n`, most significant first, without leading zeros. */
  function Decimal(n: nat): (s: string)
    ensures |s| > 0
    ensures forall k :: 0 <= k < |s| ==> IsDigit(s[k])
    ensures |s| > 1 ==> s[0] != '0'
    decreases n
  {
    if n < 10 then [DigitChar(n)] else Decimal(n / 10) + [DigitChar(n % 10)]
  }

  /** The number a string of decimal digits denotes. */
  function DecimalValue(s: string): int
    requires forall k :: 0 <= k < |s| ==> IsDigit(s[k])
  {
    if s == [] then 0
    else DecimalValue(s[..|s| - 1]) * 10 + (s[|s| - 1] as int - '0' as int)
  }

  /** Reading back the digits `Decimal` prints gives the number printed. */
  lemma {:induction false} DecimalRoundTrip(n: nat)
    ensures DecimalValue(Decimal(n)) == n
    decreases n
  {
    var s := Decimal(n);
    if n >= 10 {
      DecimalRoundTrip(n / 10);
      assert s[..|s| - 1] == Decimal(n / 10);
    } else {
      assert s[..|s| - 1] == [];
    }
  }

  /**
    Python `str(cell)`: a text cell as it is, an integer as decimal digits with
    a leading '-' exactly when it is negative, an empty (NaN) cell as "nan".
   */
  function CellStr(c: Cell): (s: string)
    ensures c.Text? ==> s == c.text
    ensures c.Missing? ==> s == "nan"
    ensures c.Number? ==> |s| > 0 && (s[0] == '-' <==> c.n < 0)
  {
    match c
    case Text(t) => t
    case Number(n) => if n < 0 then "-" + Decimal(-n) else Decimal(n)
    case Missing => "nan"
  }

  /** Python `int(s)` on the strings `str()` prints for integers. */
  function ParseInt(s: string): int
    requires s != [] && s[0] == '-' ==> forall k :: 1 <= k < |s| ==> IsDigit(s[k])
    requires s == [] || s[0] != '-' ==> forall k :: 0 <= k < |s| ==> IsDigit(s[k])
  {
    if s != [] && s[0] == '-' then -DecimalValue(s[1..]) else DecimalValue(s)
  }

  /** An integer cell's string form is a decimal numeral that reads back as the same integer. */
  lemma NumberStrRoundTrip(n: int)
    ensures var s := CellStr(Number(n));
      && s != []
      && (forall k :: 0 <= k < |s| ==> IsDigit(s[k]) || (k == 0 && s[k] == '-'))
      && ParseInt(s) == n
  {
    var s := CellStr(Number(n));
    if n < 0 {
      DecimalRoundTrip(-n);
      assert s[1..] == Decimal(-n);
    } else {
      DecimalRoundTrip(n);
    }
  }

  /**
    Only a text cell can mention a word of four or more characters that starts
    with neither a digit nor '-': the string forms of numbers ("-" and digits)
    and of missing cells ("nan") never contain one.
   */
  lemma OnlyTextMentions(c: Cell, word: string)
    requires |word| >= 4 && !IsDigit(word[0]) && word[0] != '-'
    ensures Contains(CellStr(c), word) ==> c.Text?
  {
    match c
    case Text(_) =>
    case Number(n) =>
      NumberStrRoundTrip(n);
      NotContainsFirstChar(CellStr(c), word);
    case Missing =>
  }
}
