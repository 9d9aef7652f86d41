/**
 * The React keys the sheet gives its rows and cells: the template strings
 * `row${i}` and `cell${i}:${j}`. A non-negative integer interpolated into a
 * template string is written in decimal without leading zeros; the only
 * property the renderer relies on is that keys are unique.
 */
module Keys {
  import opened Wrappers

  predicate IsDigit(c: char) {
    '0' <= c <= '9'
  }

  predicate AllDigits(s: string) {
    forall k :: 0 <= k < |s| ==> IsDigit(s[k])
  }

  function Digit(d: nat): (c: char)
    requires d < 10
    ensures IsDigit(c)
  {
    ('0' as int + d) as char
  }

  function DigitValue(c: char): (d: nat)
    requires IsDigit(c)
    ensures d < 10 && Digit(d) == c
  {
    c as int - '0' as int
  }

  /** The decimal text of `n`, most significant digit first. */
  function Decimal(n: nat): (s: string)
    ensures |s| >= 1 && AllDigits(s)
    ensures n >= 10 ==> s[0] != '0'
    decreases n
  {
    if n < 10 then [Digit(n)] else Decimal(n / 10) + [Digit(n % 10)]
  }

  /** Reads a string of decimal digits back as a number. */
  function ParseDecimal(s: string): (n: nat)
    requires AllDigits(s)
    decreases |s|
  {
    if |s| == 0 then 0 else 10 * ParseDecimal(s[..|s| - 1]) + DigitValue(s[|s| - 1])
  }

  lemma {:induction false} ParseDecimalInvertsDecimal(n: nat)
    ensures ParseDecimal(Decimal(n)) == n
    decreases n
  {
    if n >= 10 {
      var s := Decimal(n);
      assert s[..|s| - 1] == Decimal(n / 10);
      ParseDecimalInvertsDecimal(n / 10);
    }
  }

  /** Different numbers are written differently. */
  lemma DecimalInjective(m: nat, n: nat)
    ensures Decimal(m) == Decimal(n) <==> m == n
  {
    if Decimal(m) == Decimal(n) {
      ParseDecimalInvertsDecimal(m);
      ParseDecimalInvertsDecimal(n);
    }
  }

  /** The position of the first ':' in `s`, or `|s|` when there is none. */
  function FirstColon(s: string): (k: nat)
    ensures k <= |s|
  {
    if |s| == 0 || s[0] == ':' then 0 else 1 + FirstColon(s[1..])
  }

  /** Behind a run of digits, the first ':' is the one that follows them. */
  lemma {:induction false} FirstColonAfterDigits(a: string, b: string)
    requires AllDigits(a)
    ensures FirstColon(a + ":" + b) == |a|
    decreases |a|
  {
    if |a| > 0 {
      assert (a + ":" + b)[1..] == a[1..] + ":" + b;
      FirstColonAfterDigits(a[1..], b);
    }
  }

  /** The row index a key of the form `row<digits>` names, if it has that form. */
  function ParseRowKey(s: string): (r: Option<nat>) {
    if |s| > 3 && s[..3] == "row" && AllDigits(s[3..]) then Some(ParseDecimal(s[3..])) else None
  }

  /** The coordinate a key of the form `cell<digits>:<digits>` names, if it has that form. */
  function ParseCellKey(s: string): (r: Option<(nat, nat)>) {
    if |s| > 4 && s[..4] == "cell" then
      var t := s[4..];
      var k := FirstColon(t);
      if k < |t| && AllDigits(t[..k]) && AllDigits(t[k + 1..])
      then Some((ParseDecimal(t[..k]), ParseDecimal(t[k + 1..])))
      else None
    else None
  }

  /** `row${i}` */
  function RowKey(i: nat): (r: string)
    ensures |r| > 3 && r[..3] == "row"
  {
    "row" + Decimal(i)
  }

  /** `cell${i}:${j}` */
  function CellKey(i: nat, j: nat): (r: string)
    ensures |r| > 5 && r[..4] == "cell"
  {
    "cell" + Decimal(i) + ":" + Decimal(j)
  }

  /** A row key reads back as the index it was made from. */
  lemma RowKeyReadsBack(i: nat)
    ensures ParseRowKey(RowKey(i)) == Some(i)
  {
    var r := RowKey(i);
    assert r[3..] == Decimal(i);
    ParseDecimalInvertsDecimal(i);
  }

  /** A cell key reads back as the coordinate it was made from. */
  lemma CellKeyReadsBack(i: nat, j: nat)
    ensures ParseCellKey(CellKey(i, j)) == Some((i, j))
  {
    var r := CellKey(i, j);
    var t := Decimal(i) + ":" + Decimal(j);
    assert r[4..] == t;
    FirstColonAfterDigits(Decimal(i), Decimal(j));
    assert t[..|Decimal(i)|] == Decimal(i) && t[|Decimal(i)| + 1..] == Decimal(j);
    ParseDecimalInvertsDecimal(i);
    ParseDecimalInvertsDecimal(j);
  }

  lemma RowKeyInjective(i: nat, i': nat)
    ensures RowKey(i) == RowKey(i') <==> i == i'
  {
    RowKeyReadsBack(i);
    RowKeyReadsBack(i');
  }

  lemma CellKeyInjective(i: nat, j: nat, i': nat, j': nat)
    ensures CellKey(i, j) == CellKey(i', j') <==> i == i' && j == j'
  {
    CellKeyReadsBack(i, j);
    CellKeyReadsBack(i', j');
  }
}
