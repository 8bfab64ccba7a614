/** JavaScript values as they appear in the cells of a table row, with the
    handful of language operations the table helpers rely on: property lookup,
    truthiness, `||`, `String(...)` and `toLowerCase()`. */
module Values {

  datatype Option<+T> = None | Some(value: T)

  /** A cell value. Numbers are restricted to integers. */
  datatype Value = Str(s: string) | Num(n: int) | Bool(b: bool) | Null | Undefined

  /** `row.values`: an object from column id to cell value. */
  type Row = map<string, Value>

  /** A row as the grid library hands it out: its id, the original record and
      `values`, the record seen through the column accessors. */
  datatype TableRow = TableRow(id: string, original: Row, values: Row)

  /** `row.values[id]`: `undefined` exactly when the property is missing or
      holds `undefined`; otherwise the stored value. */
  function Cell(row: Row, id: string): (v: Value)
    ensures v == Undefined <==> id !in row || row[id] == Undefined
    ensures v != Undefined ==> row[id] == v
  {
    if id in row then row[id] else Undefined
  }

  /** The values JavaScript treats as false. */
  const FalsyValues: set<Value> := {Str(""), Num(0), Bool(false), Null, Undefined}

  /** JavaScript truthiness (`ToBoolean`): every value except the five falsy ones. */
  function Truthy(v: Value): (t: bool)
    ensures t <==> v !in FalsyValues
  {
    match v
    case Str(s) => s != ""
    case Num(n) => n != 0
    case Bool(b) => b
    case Null => false
    case Undefined => false
  }

  /** JavaScript `a || b`: one of the two operands, truthy exactly when one of
      them is; the left one whenever it is truthy and the right one otherwise. */
  function Or(a: Value, b: Value): (r: Value)
    ensures r == a || r == b
    ensures Truthy(r) <==> Truthy(a) || Truthy(b)
    ensures Truthy(a) ==> r == a
    ensures !Truthy(a) ==> r == b
  {
    if Truthy(a) then a else b
  }

  predicate IsDigit(c: char)
  {
    '0' <= c <= '9'
  }

  predicate IsDecimal(s: string)
  {
    |s| > 0 && forall i :: 0 <= i < |s| ==> IsDigit(s[i])
  }

  /** The number a string of decimal digits denotes, most significant digit first. */
  function DecimalValue(s: string): nat
    requires IsDecimal(s)
  {
    var last := s[|s| - 1] as int - '0' as int;
    if |s| == 1 then last else 10 * DecimalValue(s[..|s| - 1]) + last
  }

  function DigitChar(d: nat): (c: char)
    requires d < 10
  {
    ('0' as int + d) as char
  }

  /** Decimal rendering of a non-negative integer: digits only, no leading
      zero, and reading the digits back gives the number. */
  function NatToDecimal(n: nat): (s: string)
    ensures IsDecimal(s)
    ensures DecimalValue(s) == n
    ensures s[0] == '0' ==> s == "0"
    decreases n
  {
    if n < 10 then [DigitChar(n)]
    else
      var p := NatToDecimal(n / 10);
      assert (p + [DigitChar(n % 10)])[..|p|] == p;
      p + [DigitChar(n % 10)]
  }

  /** JavaScript `String(v)`. A string is itself; an integer is its decimal
      digits without leading zeros, after a minus sign when negative, and
      reads back as the number; the other values are their keywords. */
  function ToStr(v: Value): (r: string)
    ensures v.Str? ==> r == v.s
    ensures v.Num? && v.n >= 0 ==> IsDecimal(r) && DecimalValue(r) == v.n && (r[0] != '0' || r == "0")
    ensures v.Num? && v.n < 0 ==>
              |r| > 1 && r[0] == '-' && IsDecimal(r[1..]) && DecimalValue(r[1..]) == -v.n && r[1] != '0'
    ensures v.Bool? ==> r == (if v.b then "true" else "false")
    ensures v == Null ==> r == "null"
    ensures v == Undefined ==> r == "undefined"
  {
    match v
    case Str(s) => s
    case Num(n) =>
      if n < 0 then
        var d := NatToDecimal(-n);
        assert ("-" + d)[1..] == d;
        "-" + d
      else NatToDecimal(n)
    case Bool(b) => if b then "true" else "false"
    case Null => "null"
    case Undefined => "undefined"
  }

  /** `toLowerCase()` on one character; only the ASCII letters A-Z are mapped. */
  function LowerChar(c: char): char
  {
    if 'A' <= c <= 'Z' then (c as int + 32) as char else c
  }

  /** `toLowerCase()` on a string: character by character, length preserved. */
  function Lower(s: string): (r: string)
    ensures |r| == |s|
    ensures forall i :: 0 <= i < |s| ==> r[i] == LowerChar(s[i])
  {
    if s == [] then [] else [LowerChar(s[0])] + Lower(s[1..])
  }

  /** The character-by-character `Lower` of this model keeps prefixes: if `b`
      is a prefix of `a`, then `Lower(b)` is a prefix of `Lower(a)`. */
  lemma LowerKeepsPrefix(b: string, a: string)
    requires b <= a
    ensures Lower(b) <= Lower(a)
  {
  }
}
