/** Decimal and boolean text: what fmt.Sprintf writes for the scalars of a tree and what the
    strconv parsers read back. */
module Decimal {
  import opened Strings

  datatype Parsed<+T> = Parsed(value: T) | Failed

  const MIN_INT32: int := -0x8000_0000
  const MAX_INT32: int := 0x7FFF_FFFF
  const MIN_INT64: int := -0x8000_0000_0000_0000
  const MAX_INT64: int := 0x7FFF_FFFF_FFFF_FFFF

  type Int32 = n: int | MIN_INT32 <= n <= MAX_INT32
  type Int64 = n: int | MIN_INT64 <= n <= MAX_INT64

  // ---------------------------------------------------------------- digits

  function DigitChar(d: nat): char
    requires d < 10
  {
    "0123456789"[d]
  }

  predicate IsDigit(c: char) {
    '0' <= c <= '9'
  }

  predicate AllDigits(s: string) {
    forall i | 0 <= i < |s| :: IsDigit(s[i])
  }

  function DigitValue(c: char): nat
    requires IsDigit(c)
  {
    c as int - '0' as int
  }

  function Digits(n: nat): (s: string)
    ensures s != "" && AllDigits(s)
  {
    if n < 10 then [DigitChar(n)] else Digits(n / 10) + [DigitChar(n % 10)]
  }

  /** The number that a string of digits denotes. */
  function ValueOf(s: string): nat
    requires AllDigits(s)
  {
    if s == "" then 0 else ValueOf(s[..|s| - 1]) * 10 + DigitValue(s[|s| - 1])
  }

  lemma {:induction false} ValueOfDigits(n: nat)
    ensures ValueOf(Digits(n)) == n
  {
    if n >= 10 {
      ValueOfDigits(n / 10);
      assert Digits(n)[..|Digits(n)| - 1] == Digits(n / 10);
    }
  }

  // ---------------------------------------------------------------- signed numbers

  /** fmt.Sprintf("%v", n) */
  function Text(n: int): string {
    if n < 0 then "-" + Digits(-n) else Digits(n)
  }

  /** The base 10 grammar of strconv: an optional sign and at least one digit. */
  function Unbounded(s: string): Parsed<int> {
    var signed := s != "" && (s[0] == '-' || s[0] == '+');
    var magnitude := if signed then s[1..] else s;
    if magnitude == "" || !AllDigits(magnitude) then Failed
    else if signed && s[0] == '-' then Parsed(0 - ValueOf(magnitude))
    else Parsed(ValueOf(magnitude))
  }

  lemma UnboundedOfText(n: int)
    ensures Unbounded(Text(n)) == Parsed(n)
  {
    var m := if n < 0 then -n else n;
    ValueOfDigits(m);
    assert IsDigit(Digits(m)[0]);
    if n < 0 {
      assert Text(n)[1..] == Digits(m);
    }
  }

  /** Digits without a leading zero, other than "0" itself. */
  predicate IsDecimal(s: string) {
    s != "" && AllDigits(s) && (s[0] == '0' ==> s == "0")
  }

  /** A minus sign for negative numbers, no plus sign, and no leading zeros. */
  predicate IsCanonical(s: string, negative: bool) {
    if negative then s != "" && s[0] == '-' && IsDecimal(s[1..]) && s[1..] != "0" else IsDecimal(s)
  }

  lemma {:induction false} DigitsAreDecimal(n: nat)
    ensures IsDecimal(Digits(n)) && (Digits(n) == "0" <==> n == 0)
  {
    if n >= 10 {
      DigitsAreDecimal(n / 10);
      assert Digits(n)[0] == Digits(n / 10)[0];
    }
  }

  lemma LongDecimalIsTen(s: string)
    requires IsDecimal(s) && |s| > 1
    ensures IsDecimal(s[..|s| - 1]) && ValueOf(s[..|s| - 1]) > 0
  {
    DecimalIsPositive(s[..|s| - 1]);
  }

  lemma {:induction false} DecimalIsPositive(s: string)
    requires IsDecimal(s) && s != "0"
    ensures ValueOf(s) > 0
  {
    if |s| > 1 {
      DecimalIsPositive(s[..|s| - 1]);
    } else {
      assert s == [s[0]] && s[..0] == "";
    }
  }

  /** A number has one text without leading zeros. */
  lemma {:induction false} DecimalIsUnique(a: string, b: string)
    requires IsDecimal(a) && IsDecimal(b) && ValueOf(a) == ValueOf(b)
    ensures a == b
  {
    var n, m := |a| - 1, |b| - 1;
    assert a == a[..n] + [a[n]] && b == b[..m] + [b[m]];
    if n > 0 { LongDecimalIsTen(a); }
    if m > 0 { LongDecimalIsTen(b); }
    if n > 0 && m > 0 {
      DecimalIsUnique(a[..n], b[..m]);
    } else {
      assert n == 0 ==> ValueOf(a[..n]) == 0;
      assert m == 0 ==> ValueOf(b[..m]) == 0;
    }
  }

  /** The text that is put for a number is the only canonical one that is read as the number. */
  lemma TextIsTheCanonical(n: int, s: string)
    ensures s == Text(n) <==> IsCanonical(s, n < 0) && Unbounded(s) == Parsed(n)
  {
    var m := if n < 0 then -n else n;
    UnboundedOfText(n);
    DigitsAreDecimal(m);
    ValueOfDigits(m);
    if n < 0 {
      assert Text(n)[1..] == Digits(m);
    }
    if IsCanonical(s, n < 0) && Unbounded(s) == Parsed(n) {
      if n < 0 {
        DecimalIsUnique(s[1..], Digits(m));
        assert s == "-" + s[1..];
      } else {
        assert IsDigit(s[0]);
        DecimalIsUnique(s, Digits(m));
      }
    }
  }

  /** What the parser takes: digits, with or without a sign. */
  lemma SignedDigits(s: string)
    requires s != "" && AllDigits(s)
    ensures Unbounded(s) == Parsed(ValueOf(s)) && Unbounded("+" + s) == Parsed(ValueOf(s))
    ensures Unbounded("-" + s).Parsed? && Unbounded("-" + s).value == 0 - ValueOf(s)
  {
    assert IsDigit(s[0]);
    assert ("+" + s)[1..] == s;
    assert ("-" + s)[1..] == s;
  }

  /** It takes nothing else. */
  lemma OnlySignedDigits(s: string)
    requires Unbounded(s).Parsed?
    ensures s != "" && (AllDigits(s) || ((s[0] == '+' || s[0] == '-') && s[1..] != "" && AllDigits(s[1..])))
  {
  }

  /** strconv.ParseInt(s, 10, 32) */
  function ParseInt32(s: string): Parsed<Int32> {
    match Unbounded(s)
    case Parsed(n) => if MIN_INT32 <= n <= MAX_INT32 then Parsed(n) else Failed
    case Failed => Failed
  }

  /** strconv.Atoi on a 64-bit platform */
  function ParseInt64(s: string): Parsed<Int64> {
    match Unbounded(s)
    case Parsed(n) => if MIN_INT64 <= n <= MAX_INT64 then Parsed(n) else Failed
    case Failed => Failed
  }

  /** The number strconv.Atoi hands out when its error is ignored: 0 on malformed text and the
      nearest representable number when the text is out of range. */
  function AtoiIgnoringError(s: string): Int64 {
    match Unbounded(s)
    case Failed => 0
    case Parsed(n) => if n < MIN_INT64 then MIN_INT64 else if n > MAX_INT64 then MAX_INT64 else n
  }

  function Distance(a: int, b: int): nat { if a < b then b - a else a - b }

  /** Whatever other number there is, it is no nearer to what the text says. */
  lemma AtoiIsNearest(s: string, other: Int64)
    ensures Unbounded(s).Parsed? ==>
      Distance(AtoiIgnoringError(s), Unbounded(s).value) <= Distance(other, Unbounded(s).value)
    ensures Unbounded(s).Failed? ==> AtoiIgnoringError(s) == 0
  {
  }

  /** Parsing to a type gives the number that the text says, if the type has it. */
  lemma ParsedIsInRange(s: string, n: int)
    ensures (exists k: Int32 :: ParseInt32(s) == Parsed(k) && k == n) <==>
      Unbounded(s) == Parsed(n) && -0x8000_0000 <= n < 0x8000_0000
    ensures (exists k: Int64 :: ParseInt64(s) == Parsed(k) && k == n) <==>
      Unbounded(s) == Parsed(n) && -0x8000_0000_0000_0000 <= n < 0x8000_0000_0000_0000
  {
  }

  // ---------------------------------------------------------------- booleans

  function BoolText(b: bool): string {
    if b then "true" else "false"
  }

  /** strconv.ParseBool */
  function ParseBool(s: string): Parsed<bool> {
    if s in ["1", "t", "T", "TRUE", "true", "True"] then Parsed(true)
    else if s in ["0", "f", "F", "FALSE", "false", "False"] then Parsed(false)
    else Failed
  }

  // ---------------------------------------------------------------- slice indices

  function ZeroPad(s: string): (padded: string)
    requires AllDigits(s)
    ensures |padded| >= |s| && AllDigits(padded)
    decreases 4 - |s|
  {
    if |s| < 4 then ZeroPad("0" + s) else s
  }

  /** fmt.Sprintf("%04d", i) */
  function Index(i: nat): (s: string)
    ensures s != "" && AllDigits(s)
  {
    ZeroPad(Digits(i))
  }

  lemma {:induction false} ValueOfLeadingZero(s: string)
    requires AllDigits(s)
    ensures AllDigits("0" + s) && ValueOf("0" + s) == ValueOf(s)
  {
    if s == "" {
      assert ("0" + s)[..0] == "";
    } else {
      ValueOfLeadingZero(s[..|s| - 1]);
      assert ("0" + s)[..|s|] == "0" + s[..|s| - 1];
    }
  }

  lemma {:induction false} ValueOfZeroPad(s: string)
    requires AllDigits(s)
    ensures ValueOf(ZeroPad(s)) == ValueOf(s)
    decreases 4 - |s|
  {
    if |s| < 4 {
      ValueOfLeadingZero(s);
      ValueOfZeroPad("0" + s);
    }
  }

  lemma ValueOfIndex(i: nat)
    ensures ValueOf(Index(i)) == i
  {
    ValueOfDigits(i);
    ValueOfZeroPad(Digits(i));
  }

  lemma IndexInjective(i: nat, j: nat)
    requires Index(i) == Index(j)
    ensures i == j
  {
    ValueOfIndex(i);
    ValueOfIndex(j);
  }

  lemma IndexIsInjective()
    ensures forall i: nat, j: nat | Index(i) == Index(j) :: i == j
  {
    forall i: nat, j: nat | Index(i) == Index(j)
      ensures i == j
    {
      IndexInjective(i, j);
    }
  }

  /** The elements of a sequence under their index texts. */
  function Numbered<T>(s: seq<T>): (m: map<string, T>)
    ensures forall i: nat | i < |s| :: Index(i) in m && m[Index(i)] == s[i]
    ensures forall k | k in m :: exists i: nat :: i < |s| && k == Index(i)
  {
    IndexIsInjective();
    if s == [] then map[] else Numbered(s[..|s| - 1])[Index(|s| - 1) := s[|s| - 1]]
  }

  /** A slice index read back by ListMap. */
  lemma AtoiOfIndex(i: nat)
    requires i <= MAX_INT64
    ensures AtoiIgnoringError(Index(i)) == i
  {
    ValueOfIndex(i);
    assert IsDigit(Index(i)[0]);
  }

  // ---------------------------------------------------------------- index order

  lemma TenTimes(v: nat, d: nat, v': nat, d': nat)
    requires d < 10 && d' < 10 && v * 10 + d == v' * 10 + d'
    ensures v == v' && d == d'
  {
  }

  lemma SameDigit(c: char, c': char)
    requires IsDigit(c) && IsDigit(c') && DigitValue(c) == DigitValue(c')
    ensures c == c'
  {
  }

  lemma {:induction false} SameLengthSameValue(a: string, b: string)
    requires |a| == |b| && AllDigits(a) && AllDigits(b) && ValueOf(a) == ValueOf(b)
    ensures a == b
  {
    if a != "" {
      var n := |a| - 1;
      TenTimes(ValueOf(a[..n]), DigitValue(a[n]), ValueOf(b[..n]), DigitValue(b[n]));
      SameLengthSameValue(a[..n], b[..n]);
      SameDigit(a[n], b[n]);
      assert a == a[..n] + [a[n]];
      assert b == b[..n] + [b[n]];
    }
  }

  /** On digit strings of one length, text order is numeric order. */
  lemma {:induction false} TextOrderIsNumericOrder(a: string, b: string)
    requires |a| == |b| && AllDigits(a) && AllDigits(b) && ValueOf(a) < ValueOf(b)
    ensures Less(a, b)
  {
    var n := |a| - 1;
    assert a == a[..n] + [a[n]] && b == b[..n] + [b[n]];
    if ValueOf(a[..n]) < ValueOf(b[..n]) {
      TextOrderIsNumericOrder(a[..n], b[..n]);
      LessByHead(a[..n], b[..n], [a[n]], [b[n]]);
    } else {
      SameLengthSameValue(a[..n], b[..n]);
      LessAfterPrefix(a[..n], [a[n]], [b[n]]);
    }
  }

  lemma IndexHasFourDigits(i: nat)
    requires i < 10000
    ensures |Index(i)| == 4
  {
    if i >= 10 {
      if i >= 100 {
        assert |Digits(i / 100)| <= 2;
      }
    }
    assert |Digits(i)| <= 4;
    ZeroPadLength(Digits(i));
  }

  lemma {:induction false} ZeroPadLength(s: string)
    requires AllDigits(s) && |s| <= 4
    ensures |ZeroPad(s)| == 4
    decreases 4 - |s|
  {
    if |s| < 4 {
      ZeroPadLength("0" + s);
    }
  }

  /** The text of an index: four digits with leading zeros, and as many as it takes from 10000 on. */
  lemma IndexIsPadded(i: nat, s: string)
    ensures s == Index(i) <==>
      AllDigits(s) && ValueOf(s) == i && if i < 10000 then |s| == 4 else IsDecimal(s)
  {
    ValueOfIndex(i);
    DigitsAreDecimal(i);
    if i < 10000 {
      IndexHasFourDigits(i);
      if AllDigits(s) && ValueOf(s) == i && |s| == 4 {
        SameLengthSameValue(s, Index(i));
      }
    } else {
      ManyDigits(i);
      if IsDecimal(s) && ValueOf(s) == i {
        DecimalIsUnique(s, Index(i));
      }
    }
  }

  lemma ManyDigits(i: nat)
    requires i >= 10000
    ensures Index(i) == Digits(i)
  {
    assert |Digits(i / 10 / 10 / 10)| >= 1;
    assert |Digits(i / 10 / 10)| >= 2;
    assert |Digits(i / 10)| >= 3;
  }

  /** Below 10000 the listing order of slice elements is their numeric order, whatever follows the index. */
  lemma IndexOrder(i: nat, j: nat, x: string, y: string)
    requires i < j < 10000
    ensures Less(Index(i) + x, Index(j) + y)
  {
    ValueOfIndex(i);
    ValueOfIndex(j);
    IndexHasFourDigits(i);
    IndexHasFourDigits(j);
    TextOrderIsNumericOrder(Index(i), Index(j));
    LessByHead(Index(i), Index(j), x, y);
  }

  /** The four digits end at 9999: element 10000 is listed before element 1001. */
  lemma IndexOrderBreaks(x: string, y: string)
    ensures Less(Index(10000) + x, Index(1001) + y)
  {
    assert Digits(1) == "1" && Digits(10) == "10" && Digits(100) == "100";
    assert Digits(1000) == "1000" && Digits(1001) == "1001";
    assert Index(10000) == "10000" && Index(1001) == "1001";
    assert "10000" + x == "1000" + ("0" + x);
    assert "1000" == "100" + "0" && "1001" == "100" + "1";
    LessAfterPrefix("100", "0", "1");
    LessByHead("1000", "1001", "0" + x, y);
  }
}
