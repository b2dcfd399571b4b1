/**
 * PHP's type juggling, as far as the engine relies on it: the `(int)`, `(bool)`,
 * `(string)`, `(array)`, `(float)` and `(object)` casts, `empty()`, `is_scalar`,
 * `is_numeric`, the conversion of a value used as an array key, and reading,
 * writing and unsetting a column of a row.
 */
module PhpCasts {
  import opened PhpArrays

  // ---------------------------------------------------------------------------
  // Decimal integers and strings
  // ---------------------------------------------------------------------------

  predicate IsDigit(c: char) {
    '0' <= c <= '9'
  }

  function DigitChar(d: nat): char
    requires d < 10
  {
    "0123456789"[d]
  }

  function DigitValue(c: char): nat
    requires IsDigit(c)
  {
    (c as int - '0' as int) as nat
  }

  /** Decimal rendering of a natural number, without leading zeros. */
  function NatToStr(n: nat): (s: string)
    ensures |s| > 0
    ensures forall i :: 0 <= i < |s| ==> IsDigit(s[i])
    decreases n
  {
    if n < 10 then [DigitChar(n)] else NatToStr(n / 10) + [DigitChar(n % 10)]
  }

  /** Value of a run of decimal digits. */
  function DigitsValue(s: string): nat
    requires forall i :: 0 <= i < |s| ==> IsDigit(s[i])
  {
    if s == [] then 0 else DigitsValue(s[..|s| - 1]) * 10 + DigitValue(s[|s| - 1])
  }

  /** `(string)$i` for an integer. */
  function IntToStr(i: int): (s: string)
    ensures |s| > 0
  {
    if i < 0 then "-" + NatToStr(-i) else NatToStr(i)
  }

  /** PHP's whitespace for numeric strings and for `\s`: space, \t, \n, \r, \v, \f. */
  predicate IsSpace(c: char) {
    c == ' ' || c == '\t' || c == '\n' || c == '\r' || c == '\U{B}' || c == '\U{C}'
  }

  /** First position at or after `i` that is not whitespace. */
  function SkipSpace(s: string, i: nat): (j: nat)
    requires i <= |s|
    ensures i <= j <= |s|
    ensures forall q :: i <= q < j ==> IsSpace(s[q])
    ensures j < |s| ==> !IsSpace(s[j])
    decreases |s| - i
  {
    if i < |s| && IsSpace(s[i]) then SkipSpace(s, i + 1) else i
  }

  /** First position at or after `i` that is not a digit. */
  function SkipDigits(s: string, i: nat): (j: nat)
    requires i <= |s|
    ensures i <= j <= |s|
    ensures forall q :: i <= q < j ==> IsDigit(s[q])
    ensures j < |s| ==> !IsDigit(s[j])
    decreases |s| - i
  {
    if i < |s| && IsDigit(s[i]) then SkipDigits(s, i + 1) else i
  }

  /** `b` to the power `n`. */
  function Pow(b: nat, n: nat): nat {
    if n == 0 then 1 else b * Pow(b, n - 1)
  }

  /** The largest and the smallest integer of a 64-bit PHP. */
  const IntMax: int := 0x7FFF_FFFF_FFFF_FFFF
  const IntMin: int := -0x8000_0000_0000_0000

  /** 2^128. */
  const Two128: nat := 0x1_0000_0000_0000_0000_0000_0000_0000_0000

  /** The smallest magnitude a double rounds to infinity: DBL_MAX plus half its last step,
      (2^54 - 1) * 2^970. */
  const DoubleOverflow: nat :=
    0x3F_FFFF_FFFF_FFFF * 0x400 * 0x1_0000_0000_0000_0000
    * Two128 * Two128 * Two128 * Two128 * Two128 * Two128 * Two128

  /** A decimal number `-mantissa * 10^scale` (when `neg`) or `mantissa * 10^scale`. */
  datatype Decimal = Decimal(neg: bool, mantissa: nat, scale: int)

  /** The exponent that follows a mantissa ending at `i`: `e` or `E`, an optional sign and
      at least one digit; 0 when there is none. */
  function Exponent(s: string, i: nat): int
    requires i <= |s|
  {
    if i < |s| && (s[i] == 'e' || s[i] == 'E') then
      var j := if i + 1 < |s| && (s[i + 1] == '+' || s[i + 1] == '-') then i + 2 else i + 1;
      var k := SkipDigits(s, j);
      var e: int := DigitsValue(s[j..k]);
      if k == j then 0 else if s[i + 1] == '-' then -e else e
    else 0
  }

  /** The number a string starts with, after whitespace, as PHP's numeric-string scan reads
      it: an optional sign, digits with an optional fraction (or a fraction alone) and an
      optional exponent.  `None` when no digit comes before or just after the dot. */
  function LeadingDecimal(s: string): Option<Decimal> {
    var a := SkipSpace(s, 0);
    var b := if a < |s| && (s[a] == '-' || s[a] == '+') then a + 1 else a;
    var c := SkipDigits(s, b);
    var d := if c < |s| && s[c] == '.' then c + 1 else c;
    var f := SkipDigits(s, d);
    if c == b && f == d then None
    else
      var mantissa := DigitsValue(s[b..c]) * Pow(10, f - d) + DigitsValue(s[d..f]);
      Some(Decimal(a < |s| && s[a] == '-', mantissa, Exponent(s, f) - (f - d)))
  }

  /** `(int)` of a number read from a string: 0 when a double cannot hold it (PHP reads it
      as infinity), otherwise truncated toward zero and held to the integer range. */
  function DecimalToInt(x: Decimal): (r: int)
    ensures IntMin <= r <= IntMax
  {
    var huge := if x.scale >= 0 then x.mantissa * Pow(10, x.scale) >= DoubleOverflow
                else x.mantissa >= DoubleOverflow * Pow(10, -x.scale);
    if huge then 0
    else
      var t := if x.scale >= 0 then x.mantissa * Pow(10, x.scale) else x.mantissa / Pow(10, -x.scale);
      var v := if x.neg then -t else t;
      if v > IntMax then IntMax else if v < IntMin then IntMin else v
  }

  /** `(int)$s` for a string: the number it starts with, as `DecimalToInt` converts it;
      0 when it starts with none. */
  function StrToInt(s: string): (r: int)
    ensures IntMin <= r <= IntMax
  {
    match LeadingDecimal(s)
    case None => 0
    case Some(x) => DecimalToInt(x)
  }

  lemma {:induction false} NatRoundTrip(n: nat)
    ensures DigitsValue(NatToStr(n)) == n
    decreases n
  {
    if n >= 10 {
      NatRoundTrip(n / 10);
      var s := NatToStr(n);
      assert s[..|s| - 1] == NatToStr(n / 10);
    }
  }

  /** A double holds every integer magnitude up to 2^63. */
  lemma OverflowAboveInts()
    ensures DoubleOverflow > IntMax + 1
  {
  }

  /** A whole number below the double overflow converts to itself, held to the integer
      range. */
  lemma WholeDecimalToInt(neg: bool, n: nat)
    requires n < DoubleOverflow
    ensures var v: int := if neg then -(n as int) else n;
            DecimalToInt(Decimal(neg, n, 0)) == if v > IntMax then IntMax else if v < IntMin then IntMin else v
  {
    assert Pow(10, 0) == 1;
  }

  /** A string of digits, after an optional minus sign, is read as that whole number. */
  lemma LeadingWhole(s: string, neg: bool)
    requires (if neg then 1 else 0) < |s|
    requires neg ==> s[0] == '-'
    requires forall q :: (if neg then 1 else 0) <= q < |s| ==> IsDigit(s[q])
    ensures LeadingDecimal(s) == Some(Decimal(neg, DigitsValue(s[(if neg then 1 else 0)..]), 0))
  {
    var b := if neg then 1 else 0;
    assert !IsSpace(s[0]) && s[0] != '+';
    assert SkipSpace(s, 0) == 0;
    assert SkipDigits(s, b) == |s|;
    assert SkipDigits(s, |s|) == |s|;
    assert Exponent(s, |s|) == 0;
    assert s[b..|s|] == s[b..];
    assert DigitsValue(s[|s|..|s|]) == 0;
    assert Pow(10, 0) == 1;
  }

  /** The rendering of an integer is read back as a whole number with its sign. */
  lemma IntToStrDecimal(i: int)
    ensures var n: nat := if i < 0 then -i else i;
            LeadingDecimal(IntToStr(i)) == Some(Decimal(i < 0, n, 0))
  {
    var s := IntToStr(i);
    var n: nat := if i < 0 then -i else i;
    var d := NatToStr(n);
    var b := if i < 0 then 1 else 0;
    assert s == (if i < 0 then "-" else "") + d;
    assert s[b..] == d;
    assert forall q :: b <= q < |s| ==> IsDigit(s[q]) by {
      forall q | b <= q < |s| ensures IsDigit(s[q]) { assert s[q] == d[q - b]; }
    }
    LeadingWhole(s, i < 0);
    NatRoundTrip(n);
  }

  /** `(int)(string)$i == $i` for every PHP integer. */
  lemma IntRoundTrip(i: int)
    requires IntMin <= i <= IntMax
    ensures StrToInt(IntToStr(i)) == i
  {
    IntToStrDecimal(i);
    OverflowAboveInts();
    WholeDecimalToInt(i < 0, if i < 0 then -i else i);
  }

  /** A run of digits for a number beyond the integer range, such as an unsigned 64-bit
      `18446744073709551615`, gives PHP_INT_MAX; one a double cannot hold gives 0. */
  lemma StrToIntSaturates(n: nat)
    requires n > IntMax
    ensures n < DoubleOverflow ==> StrToInt(NatToStr(n)) == IntMax
    ensures n >= DoubleOverflow ==> StrToInt(NatToStr(n)) == 0
  {
    IntToStrDecimal(n);
    assert IntToStr(n) == NatToStr(n);
    if n < DoubleOverflow {
      WholeDecimalToInt(false, n);
    } else {
      assert Pow(10, 0) == 1;
    }
  }

  /** The exponent counts: `(int)"1e3"` is 1000. */
  lemma StrToIntExponent()
    ensures StrToInt("1e3") == 1000
  {
  }

  /** The fraction counts before the exponent: `(int)"1.5e3"` is 1500. */
  lemma StrToIntFraction()
    ensures StrToInt("1.5e3") == 1500
  {
    FractionScan();
    SmallDecimalToInt(false, 15, 2);
  }

  lemma FractionScan()
    ensures LeadingDecimal("1.5e3") == Some(Decimal(false, 15, 2))
  {
    var s := "1.5e3";
    assert SkipSpace(s, 0) == 0;
    assert SkipDigits(s, 0) == 1 && s[1] == '.';
    assert SkipDigits(s, 2) == 3;
    assert s[0..1] == "1" && s[2..3] == "5";
    assert DigitsValue("1") == 1 && DigitsValue("5") == 5;
    assert SkipDigits(s, 4) == 5 && s[4..5] == "3" && DigitsValue("3") == 3;
    assert Exponent(s, 3) == 3;
    assert Pow(10, 1) == 10;
  }

  /** A small number with a non-negative scale converts to its value. */
  lemma SmallDecimalToInt(neg: bool, m: nat, scale: nat)
    requires scale <= 3 && m < 1000
    ensures var v: int := m * Pow(10, scale);
            DecimalToInt(Decimal(neg, m, scale)) == if neg then -v else v
  {
    assert Pow(10, 3) == 1000;
    assert Pow(10, scale) <= 1000;
    assert m * Pow(10, scale) < 1000 * 1000;
  }

  /** Surrounding text is ignored and the value is truncated toward zero:
      `(int)" -2.9kg"` is -2. */
  lemma StrToIntTruncates()
    ensures StrToInt(" -2.9kg") == -2
  {
    var s := " -2.9kg";
    assert SkipSpace(s, 1) == 1;
    assert SkipSpace(s, 0) == 1;
    assert SkipDigits(s, 2) == 3 && s[3] == '.';
    assert SkipDigits(s, 4) == 5;
    assert s[2..3] == "2" && s[4..5] == "9";
    assert DigitsValue("2") == 2 && DigitsValue("9") == 9;
    assert Exponent(s, 5) == 0;
    assert Pow(10, 1) == 10;
    assert LeadingDecimal(s) == Some(Decimal(true, 29, -1));
  }

  /** Where the scan `is_numeric` makes over a string stands: in the leading
      whitespace, after a sign, in the integer digits, after a lone dot, in the
      fraction, after the exponent mark, after its sign, in its digits, or in the
      trailing whitespace. */
  datatype NumScan = Lead | Signed | IntPart | DotOnly | FracPart | ExpMark | ExpSigned | ExpPart | Trail

  function NumStep(st: NumScan, c: char): Option<NumScan> {
    match st
    case Lead =>
      if IsSpace(c) then Some(Lead)
      else if c == '+' || c == '-' then Some(Signed)
      else if IsDigit(c) then Some(IntPart)
      else if c == '.' then Some(DotOnly)
      else None
    case Signed =>
      if IsDigit(c) then Some(IntPart) else if c == '.' then Some(DotOnly) else None
    case IntPart =>
      if IsDigit(c) then Some(IntPart)
      else if c == '.' then Some(FracPart)
      else if c == 'e' || c == 'E' then Some(ExpMark)
      else if IsSpace(c) then Some(Trail)
      else None
    case DotOnly =>
      if IsDigit(c) then Some(FracPart) else None
    case FracPart =>
      if IsDigit(c) then Some(FracPart)
      else if c == 'e' || c == 'E' then Some(ExpMark)
      else if IsSpace(c) then Some(Trail)
      else None
    case ExpMark =>
      if c == '+' || c == '-' then Some(ExpSigned) else if IsDigit(c) then Some(ExpPart) else None
    case ExpSigned =>
      if IsDigit(c) then Some(ExpPart) else None
    case ExpPart =>
      if IsDigit(c) then Some(ExpPart) else if IsSpace(c) then Some(Trail) else None
    case Trail =>
      if IsSpace(c) then Some(Trail) else None
  }

  /** The scan from position `i` in state `st` ends in a complete number. */
  predicate ScanNumeric(s: string, i: nat, st: NumScan)
    requires i <= |s|
    decreases |s| - i
  {
    if i == |s| then st == IntPart || st == FracPart || st == ExpPart || st == Trail
    else
      match NumStep(st, s[i])
      case None => false
      case Some(next) => ScanNumeric(s, i + 1, next)
  }

  /** `is_numeric($s)` for a string: optional surrounding whitespace, an optional sign,
      digits with an optional fraction (or a fraction alone) and an optional exponent. */
  predicate IsNumericStr(s: string) {
    ScanNumeric(s, 0, Lead)
  }

  /** `is_numeric($v)`. */
  predicate IsNumeric(v: Value) {
    match v
    case VInt(_) => true
    case VFloat(_) => true
    case VStr(s) => IsNumericStr(s)
    case _ => false
  }

  // ---------------------------------------------------------------------------
  // Casts
  // ---------------------------------------------------------------------------

  /** `(bool)$v`; a float is judged by the value it came from. */
  function ToBool(v: Value): bool {
    match v
    case VNull => false
    case VBool(b) => b
    case VInt(i) => i != 0
    case VStr(s) => s != "" && s != "0"
    case VFloat(f) => ToBool(f)
    case VObject(_) => true
    case VArr(e) => |e| > 0
  }

  /** `empty($v)`: true exactly for the values that cast to `false`. */
  predicate IsEmpty(v: Value) {
    !ToBool(v)
  }

  /** `empty($s)` for a string: "" and "0". */
  predicate IsEmptyString(s: string) {
    s == "" || s == "0"
  }

  /** `(int)$v`; a float is judged by the value it came from, an object gives 1. */
  function ToInt(v: Value): int {
    match v
    case VNull => 0
    case VBool(b) => if b then 1 else 0
    case VInt(i) => i
    case VStr(s) => StrToInt(s)
    case VFloat(f) => ToInt(f)
    case VObject(_) => 1
    case VArr(e) => if |e| > 0 then 1 else 0
  }

  /** `(string)$v`; `None` where PHP throws (an object without __toString). */
  function ToStr(v: Value): Option<string> {
    match v
    case VNull => Some("")
    case VBool(b) => Some(if b then "1" else "")
    case VInt(i) => Some(IntToStr(i))
    case VStr(s) => Some(s)
    case VFloat(f) => ToStr(f)
    case VObject(_) => None
    case VArr(_) => Some("Array")
  }

  /** `(float)$v`: an opaque float tag. */
  function ToFloat(v: Value): Value {
    if v.VFloat? then v else VFloat(v)
  }

  /** `(object)$v`: an opaque stdClass tag. */
  function ToObject(v: Value): Value {
    if v.VObject? then v else VObject(v)
  }

  /** `(array)$v`: arrays unchanged, null gives `[]`, a scalar `$x` gives `[0 => $x]`,
      an object made by `(object)` gives back its properties. */
  function ToArray(v: Value): Entries {
    match v
    case VArr(e) => e
    case VNull => []
    case VObject(f) =>
      (match f
       case VArr(e) => e
       case VNull => []
       case _ => [(StrKey("scalar"), f)])
    case _ => [(IntKey(0), v)]
  }

  /** `is_scalar($v)`: int, float, string and bool; null is not scalar. */
  predicate IsScalar(v: Value) {
    v.VBool? || v.VInt? || v.VStr? || v.VFloat?
  }

  /** The key PHP uses for `$a[$v]`; `None` where PHP throws "Illegal offset type". */
  function KeyOf(v: Value): Option<Key> {
    match v
    case VInt(i) => Some(IntKey(i))
    case VStr(s) => Some(StrKey(s))
    case VBool(b) => Some(IntKey(if b then 1 else 0))
    case VNull => Some(StrKey(""))
    case VFloat(_) => Some(IntKey(ToInt(v)))
    case VObject(_) => None
    case VArr(_) => None
  }

  /** A key read back as a value, as `foreach ($a as $key => ...)` gives it. */
  function KeyValue(k: Key): Value {
    match k
    case IntKey(i) => VInt(i)
    case StrKey(s) => VStr(s)
  }

  /** `(string)$key`. */
  function KeyString(k: Key): string {
    match k
    case IntKey(i) => IntToStr(i)
    case StrKey(s) => s
  }

  // ---------------------------------------------------------------------------
  // Columns of a row
  // ---------------------------------------------------------------------------

  /** `$row[$column]` as a read: null (with a warning) when the column is missing or
      the row is not an array. */
  function Column(row: Value, column: Key): Value {
    match row
    case VArr(e) => Get(e, column).GetOr(VNull)
    case _ => VNull
  }

  /** Whether `$row` has the column, as `array_column` decides. */
  predicate HasColumn(row: Value, column: Key) {
    row.VArr? && HasKey(row.entries, column)
  }

  /** The values `array_column($rows, $column)` collects: the column of every row that
      is an array holding it, in row order. */
  function ColumnValues(rows: Entries, column: Key): (vs: seq<Value>)
    ensures |vs| <= |rows|
    ensures |vs| == |rows| <==> forall i :: 0 <= i < |rows| ==> HasColumn(rows[i].1, column)
    ensures forall v :: v in vs <==> exists i :: 0 <= i < |rows| && HasColumn(rows[i].1, column) && Column(rows[i].1, column) == v
  {
    if rows == [] then []
    else
      var rest := ColumnValues(rows[1..], column);
      assert forall i :: 1 <= i < |rows| ==> rows[i] == rows[1..][i - 1];
      if HasColumn(rows[0].1, column) then [Column(rows[0].1, column)] + rest else rest
  }

  /** When every row holds the column, `array_column` gives each row's value in turn. */
  lemma {:induction false} ColumnValuesAll(rows: Entries, column: Key)
    requires forall i :: 0 <= i < |rows| ==> HasColumn(rows[i].1, column)
    ensures forall i :: 0 <= i < |rows| ==> ColumnValues(rows, column)[i] == Column(rows[i].1, column)
  {
    if rows != [] {
      assert forall i :: 1 <= i < |rows| ==> rows[i] == rows[1..][i - 1];
      ColumnValuesAll(rows[1..], column);
    }
  }

  /** `array_column($rows, $column)`: those values keyed 0..n-1. */
  function ArrayColumn(rows: Entries, column: Key): (r: Entries)
    ensures IsList(r) && ValuesOf(r) == ColumnValues(rows, column)
  {
    ListOf(ColumnValues(rows, column))
  }

  /** The array that `$row[$k] = ...` writes into: an array as it is; null and false
      are silently turned into `[]`; any other scalar makes PHP throw. */
  function WriteBase(row: Value): Option<Entries> {
    match row
    case VArr(e) => Some(e)
    case VNull => Some([])
    case VBool(b) => if b then None else Some([])
    case _ => None
  }

  /** `unset($row[$column])`: removes the column from an array, does nothing to null
      and false, and throws on any other scalar. */
  function UnsetColumn(row: Value, column: Key): (r: Option<Value>)
    ensures row.VArr? ==> r.Some? && r.value.VArr? && !HasKey(r.value.entries, column)
    ensures row.VArr? ==> forall p :: p in r.value.entries <==> p in row.entries && p.0 != column
    ensures !row.VArr? ==> (r.Some? <==> row == VNull || row == VBool(false))
  {
    match row
    case VArr(e) =>
      RemoveMembers(e, column);
      assert forall p :: p in Remove(e, column) ==> p.0 != column;
      Some(VArr(Remove(e, column)))
    case VNull => Some(VNull)
    case VBool(b) => if b then None else Some(row)
    case _ => None
  }

  /** ASCII lower-casing, as `strtolower` does. */
  function AsciiLower(s: string): (r: string)
    ensures |r| == |s|
  {
    seq(|s|, i requires 0 <= i < |s| =>
      if 'A' <= s[i] <= 'Z' then (s[i] as int - 'A' as int + 'a' as int) as char else s[i])
  }
}
