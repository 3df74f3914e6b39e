/** Excel A1 cell references as 3.py builds them: openpyxl's
    get_column_letter for the column (bijective base 26: A..Z, AA..ZZ, AAA..)
    followed by the decimal row number. */
module CellRefs {
  import opened Basics

  /** The widest column get_column_letter accepts ("ZZZ"); beyond it it
      raises ValueError. */
  const MaxColumn: nat := 18278

  predicate IsLetter(c: char) { 'A' <= c <= 'Z' }

  predicate IsDigit(c: char) { '0' <= c <= '9' }

  predicate AllLetters(s: string) { forall i | 0 <= i < |s| :: IsLetter(s[i]) }

  predicate AllDigits(s: string) { forall i | 0 <= i < |s| :: IsDigit(s[i]) }

  /** The letters of column n (1-based), most significant first. */
  function ColumnLetters(n: nat): (s: string)
    requires n >= 1
    ensures |s| >= 1 && AllLetters(s)
    decreases n
  {
    var q := (n - 1) / 26;
    (if q == 0 then "" else ColumnLetters(q)) + [('A' as int + (n - 1) % 26) as char]
  }

  /** The column number a string of letters denotes; the partner of ColumnLetters. */
  function ColumnNumber(s: string): nat
    requires AllLetters(s)
  {
    if |s| == 0 then 0
    else 26 * ColumnNumber(s[..|s| - 1]) + (s[|s| - 1] as int - 'A' as int + 1)
  }

  lemma {:induction false} ColumnNumberOfLetters(n: nat)
    requires n >= 1
    ensures ColumnNumber(ColumnLetters(n)) == n
    decreases n
  {
    var q := (n - 1) / 26;
    var d := (n - 1) % 26;
    assert n == 26 * q + d + 1;
    var s := ColumnLetters(n);
    var prefix := if q == 0 then "" else ColumnLetters(q);
    assert s[..|s| - 1] == prefix;
    assert s[|s| - 1] as int - 'A' as int == d;
    if q > 0 {
      ColumnNumberOfLetters(q);
    }
    assert ColumnNumber(s) == 26 * ColumnNumber(prefix) + d + 1;
  }

  /** Every non-empty string of capital letters names exactly one column:
      the encoding is onto as well as one-to-one. */
  lemma {:induction false} LettersOfColumnNumber(s: string)
    requires |s| >= 1 && AllLetters(s)
    ensures ColumnNumber(s) >= 1
    ensures ColumnLetters(ColumnNumber(s)) == s
    decreases |s|
  {
    var prefix := s[..|s| - 1];
    var m := ColumnNumber(prefix);
    var v := s[|s| - 1] as int - 'A' as int;
    var n := 26 * m + v + 1;
    assert ColumnNumber(s) == n;
    ColumnLettersSnoc(m, v);
    if |prefix| > 0 {
      LettersOfColumnNumber(prefix);
    }
    assert s == prefix + [s[|s| - 1]];
  }

  /** The last letter of column 26 * m + v + 1 is the v-th letter, after the
      letters of column m. */
  lemma ColumnLettersSnoc(m: nat, v: nat)
    requires v < 26
    ensures ColumnLetters(26 * m + v + 1)
         == (if m == 0 then "" else ColumnLetters(m)) + [('A' as int + v) as char]
  {
    DivMod26(m, v);
  }

  lemma DivMod26(m: nat, v: nat)
    requires v < 26
    ensures (26 * m + v) / 26 == m && (26 * m + v) % 26 == v
  {
  }

  lemma ColumnLettersInjective(m: nat, n: nat)
    requires m >= 1 && n >= 1
    ensures ColumnLetters(m) == ColumnLetters(n) <==> m == n
  {
    ColumnNumberOfLetters(m);
    ColumnNumberOfLetters(n);
  }

  lemma ColumnLetterExamples()
    ensures ColumnLetters(1) == "A"
    ensures ColumnLetters(26) == "Z"
    ensures ColumnLetters(27) == "AA"
    ensures ColumnLetters(702) == "ZZ"
    ensures ColumnLetters(703) == "AAA"
    ensures ColumnLetters(MaxColumn) == "ZZZ"
  {
    assert ColumnLetters(27) == ColumnLetters(1) + "A";
    assert ColumnLetters(702) == ColumnLetters(26) + "Z";
    assert ColumnLetters(703) == ColumnLetters(27) + "A";
    assert ColumnLetters(MaxColumn) == ColumnLetters(702) + "Z";
  }

  /** get_column_letter: defined exactly on 1..MaxColumn (openpyxl raises
      elsewhere), and then at most three capital letters that read back as
      the column given. */
  function GetColumnLetter(n: int): (r: Option<string>)
    ensures r.Some? <==> 1 <= n <= MaxColumn
    ensures r.Some? ==> |r.value| <= 3 && AllLetters(r.value) && ColumnNumber(r.value) == n
  {
    if 1 <= n <= MaxColumn then
      ShortLetters(n);
      ColumnNumberOfLetters(n);
      Some(ColumnLetters(n))
    else None
  }

  lemma ShortLetters(n: nat)
    requires 1 <= n <= MaxColumn
    ensures |ColumnLetters(n)| <= 3
  {
    var q := (n - 1) / 26;
    assert q <= 702;
    if q > 0 {
      var q2 := (q - 1) / 26;
      assert q2 <= 26;
      if q2 > 0 {
        assert (q2 - 1) / 26 == 0;
        assert |ColumnLetters(q2)| == 1;
      }
      assert |ColumnLetters(q)| <= 2;
    }
  }

  /** The largest column k letters can name: Z, ZZ, ZZZ, ... */
  function LargestColumn(k: nat): nat
  {
    if k == 0 then 0 else 26 * LargestColumn(k - 1) + 26
  }

  lemma {:induction false} ColumnNumberBound(s: string)
    requires AllLetters(s)
    ensures ColumnNumber(s) <= LargestColumn(|s|)
    decreases |s|
  {
    if |s| > 0 {
      ColumnNumberBound(s[..|s| - 1]);
    }
  }

  /** get_column_letter is onto the strings of one to three capital letters:
      each is what it returns for exactly the column the string reads as. */
  lemma GetColumnLetterOnto(s: string)
    requires 1 <= |s| <= 3 && AllLetters(s)
    ensures GetColumnLetter(ColumnNumber(s)) == Some(s)
  {
    ColumnNumberBound(s);
    assert LargestColumn(3) == MaxColumn;
    LettersOfColumnNumber(s);
  }

  /** str(n): the decimal digits of n without leading zeros. */
  function Decimal(n: nat): (s: string)
    ensures |s| >= 1 && AllDigits(s)
    ensures s[0] == '0' ==> n == 0
    decreases n
  {
    (if n < 10 then "" else Decimal(n / 10)) + [('0' as int + n % 10) as char]
  }

  /** The value of a string of decimal digits; the partner of Decimal. */
  function DigitsValue(s: string): nat
    requires AllDigits(s)
  {
    if |s| == 0 then 0
    else 10 * DigitsValue(s[..|s| - 1]) + (s[|s| - 1] as int - '0' as int)
  }

  lemma {:induction false} DecimalRoundTrip(n: nat)
    ensures DigitsValue(Decimal(n)) == n
    decreases n
  {
    var q := n / 10;
    var d := n % 10;
    Euclid10(n);
    var prefix := if n < 10 then "" else Decimal(q);
    var c := ('0' as int + d) as char;
    assert Decimal(n) == prefix + [c];
    DigitsValueSnoc(prefix, c);
    if n >= 10 {
      DecimalRoundTrip(q);
    }
  }

  /** Appending a digit multiplies the value by ten and adds the digit. */
  lemma DigitsValueSnoc(prefix: string, c: char)
    requires AllDigits(prefix) && IsDigit(c)
    ensures AllDigits(prefix + [c])
    ensures DigitsValue(prefix + [c]) == 10 * DigitsValue(prefix) + (c as int - '0' as int)
  {
    assert (prefix + [c])[..|prefix|] == prefix;
  }

  lemma Euclid10(n: nat)
    ensures n == 10 * (n / 10) + n % 10 && n % 10 < 10
  {
  }

  /** The reference f"{col_letter}{row_num}" for a 1-based row and column. */
  function CellRef(row: nat, col: nat): (ref: string)
    requires row >= 1 && col >= 1
  {
    ColumnLetters(col) + Decimal(row)
  }

  /** The length of the run of capital letters that starts `s`. */
  function LeadingLetters(s: string): (k: nat)
    ensures k <= |s| && AllLetters(s[..k])
    ensures k < |s| ==> !IsLetter(s[k])
  {
    if |s| > 0 && IsLetter(s[0]) then
      var k := 1 + LeadingLetters(s[1..]);
      assert s[..k] == [s[0]] + s[1..][..k - 1];
      k
    else 0
  }

  /** Reads a reference back as (row, column): letters, then digits. */
  function ParseCellRef(s: string): Option<(nat, nat)>
  {
    var k := LeadingLetters(s);
    if k == 0 || k == |s| || !AllDigits(s[k..]) then None
    else Some((DigitsValue(s[k..]), ColumnNumber(s[..k])))
  }

  /** Parsing a built reference gives back its row and column. */
  lemma ParseCellRefRoundTrip(row: nat, col: nat)
    requires row >= 1 && col >= 1
    ensures ParseCellRef(CellRef(row, col)) == Some((row, col))
  {
    var letters := ColumnLetters(col);
    var digits := Decimal(row);
    var ref := CellRef(row, col);
    var k := LeadingLetters(ref);
    assert ref[..|letters|] == letters && ref[|letters|..] == digits;
    assert k == |letters|;
    DecimalRoundTrip(row);
    ColumnNumberOfLetters(col);
  }

  /** Distinct cells get distinct references. */
  lemma CellRefInjective(r1: nat, c1: nat, r2: nat, c2: nat)
    requires r1 >= 1 && c1 >= 1 && r2 >= 1 && c2 >= 1
    ensures CellRef(r1, c1) == CellRef(r2, c2) <==> r1 == r2 && c1 == c2
  {
    ParseCellRefRoundTrip(r1, c1);
    ParseCellRefRoundTrip(r2, c2);
  }
}
