/**
 * The cell values a decoded CSV row holds, the rows themselves, and the two
 * coercions the table comparator applies to a cell: `Number(v)` and `String(v)`.
 */
module JsValues {
  import JsText

  /** A JavaScript number as the comparator sees it: a whole number or NaN. */
  datatype JsNumber = Finite(value: int) | NaN

  /** `x - y` on numbers: NaN as soon as either operand is NaN. */
  function Sub(x: JsNumber, y: JsNumber): (r: JsNumber)
    ensures r.Finite? <==> x.Finite? && y.Finite?
    ensures r.Finite? ==> r.value + y.value == x.value
  {
    if x.Finite? && y.Finite? then Finite(x.value - y.value) else NaN
  }

  /** How Array.prototype.sort reads a comparator's result: its sign, with NaN
      read as +0, as ECMA-262 prescribes for the comparator's return value. */
  function SortOrder(r: JsNumber): (o: int)
    ensures -1 <= o <= 1
    ensures o < 0 <==> r.Finite? && r.value < 0
    ensures o > 0 <==> r.Finite? && r.value > 0
  {
    match r
    case NaN => 0
    case Finite(v) => if v < 0 then -1 else if v > 0 then 1 else 0
  }

  /** A cell value. `Undefined` is what indexing a row by a missing column gives;
      `BoxedNum` is a `Number` object (`new Number(n)`), which JSON decoding never
      builds. */
  datatype Value =
    | Undefined
    | Null
    | Bool(b: bool)
    | Num(n: int)
    | Str(s: string)
    | BoxedNum(n: int)

  /** A value that `JSON.parse` can produce. */
  predicate IsJson(v: Value) {
    !v.Undefined? && !v.BoxedNum?
  }

  /** A row object: its fields in the order `Object.keys` lists them. */
  datatype Row = Row(fields: seq<(string, Value)>)

  /** A row that decoded JSON can give: every stored value is a JSON value. */
  predicate IsJsonRow(row: Row) {
    forall i :: 0 <= i < |row.fields| ==> IsJson(row.fields[i].1)
  }

  /** `Object.keys(row)`: the field names, in order. */
  function Keys(row: Row): (ks: seq<string>)
    ensures |ks| == |row.fields|
    ensures forall i :: 0 <= i < |ks| ==> ks[i] == row.fields[i].0
  {
    FieldNames(row.fields)
  }

  function FieldNames(fields: seq<(string, Value)>): (ks: seq<string>)
    ensures |ks| == |fields|
    ensures forall i :: 0 <= i < |ks| ==> ks[i] == fields[i].0
  {
    if |fields| == 0 then [] else [fields[0].0] + FieldNames(fields[1..])
  }

  /** `row[key]`: the value stored under `key`, or `Undefined` when the row has
      no such field. */
  function Get(row: Row, key: string): (v: Value)
    ensures key !in Keys(row) ==> v == Undefined
    ensures key in Keys(row) ==> (key, v) in row.fields
  {
    Lookup(row.fields, key)
  }

  function Lookup(fields: seq<(string, Value)>, key: string): (v: Value)
    ensures key !in FieldNames(fields) ==> v == Undefined
    ensures key in FieldNames(fields) ==> (key, v) in fields
  {
    if |fields| == 0 then Undefined
    else if fields[0].0 == key then fields[0].1
    else
      assert FieldNames(fields) == [fields[0].0] + FieldNames(fields[1..]);
      Lookup(fields[1..], key)
  }

  /** What a value becomes on its way through `res.json` and `response.json()`:
      `JSON.stringify` writes a `Number` object as its number. */
  function TransportValue(v: Value): (w: Value)
    ensures IsJson(v) ==> w == v
    ensures !v.Undefined? ==> IsJson(w)
    ensures v.BoxedNum? ==> w == Num(v.n)
  {
    if v.BoxedNum? then Num(v.n) else v
  }

  /** A row after the JSON round trip: fields holding `undefined` are dropped
      (`JSON.stringify` omits them); every other field arrives under its name with
      its transported value. `TransportFieldsConcat` adds that the order is kept. */
  function TransportRow(row: Row): (r: Row)
    ensures IsJsonRow(r)
    ensures IsJsonRow(row) ==> r == row
    ensures |r.fields| <= |row.fields|
    ensures forall x :: x in r.fields <==>
      exists i :: 0 <= i < |row.fields| && !row.fields[i].1.Undefined? &&
        x == (row.fields[i].0, TransportValue(row.fields[i].1))
  {
    Row(TransportFields(row.fields))
  }

  function TransportFields(fields: seq<(string, Value)>): (r: seq<(string, Value)>)
    ensures forall i :: 0 <= i < |r| ==> IsJson(r[i].1)
    ensures (forall i :: 0 <= i < |fields| ==> IsJson(fields[i].1)) ==> r == fields
    ensures |r| <= |fields|
    ensures forall x :: x in r <==>
      exists i :: 0 <= i < |fields| && !fields[i].1.Undefined? &&
        x == (fields[i].0, TransportValue(fields[i].1))
  {
    if |fields| == 0 then []
    else
      var rest := TransportFields(fields[1..]);
      assert forall x :: x in rest <==>
        exists i :: 1 <= i < |fields| && !fields[i].1.Undefined? &&
          x == (fields[i].0, TransportValue(fields[i].1)) by {
        forall x ensures x in rest ==>
          exists i :: 1 <= i < |fields| && !fields[i].1.Undefined? &&
            x == (fields[i].0, TransportValue(fields[i].1)) {
          if x in rest {
            var j :| 0 <= j < |fields[1..]| && !fields[1..][j].1.Undefined? &&
              x == (fields[1..][j].0, TransportValue(fields[1..][j].1));
            assert fields[j + 1] == fields[1..][j];
          }
        }
        forall i | 1 <= i < |fields| && !fields[i].1.Undefined?
          ensures (fields[i].0, TransportValue(fields[i].1)) in rest {
          assert fields[1..][i - 1] == fields[i];
        }
      }
      if fields[0].1.Undefined? then rest
      else [(fields[0].0, TransportValue(fields[0].1))] + rest
  }

  /** Transporting a concatenation transports each part: the JSON round trip keeps
      the order of the fields it keeps. */
  lemma {:induction false} TransportFieldsConcat(a: seq<(string, Value)>, b: seq<(string, Value)>)
    ensures TransportFields(a + b) == TransportFields(a) + TransportFields(b)
  {
    if |a| == 0 {
      assert a + b == b;
    } else {
      assert (a + b)[0] == a[0];
      assert (a + b)[1..] == a[1..] + b;
      TransportFieldsConcat(a[1..], b);
    }
  }

  /** An array of rows after the JSON round trip: row by row, same order. */
  function TransportRows(rows: seq<Row>): (r: seq<Row>)
    ensures |r| == |rows|
    ensures forall i :: 0 <= i < |r| ==> r[i] == TransportRow(rows[i])
    ensures (forall i :: 0 <= i < |rows| ==> IsJsonRow(rows[i])) ==> r == rows
  {
    seq(|rows|, i requires 0 <= i < |rows| => TransportRow(rows[i]))
  }

  /** `Number(v)`. Parsing a string is left to `parseNumber`; the other cases are
      as ECMA-262 defines them (null is 0, booleans are 0 and 1, undefined is NaN,
      a Number object gives its primitive value). */
  function ToNumber(v: Value, parseNumber: string -> JsNumber): (r: JsNumber)
    ensures r.NaN? ==> v.Undefined? || v.Str?
    ensures v.Undefined? ==> r.NaN?
    ensures v.Null? ==> r == Finite(0)
    ensures v.Bool? ==> r == Finite(if v.b then 1 else 0)
    ensures v.Num? || v.BoxedNum? ==> r == Finite(v.n)
  {
    match v
    case Undefined => NaN
    case Null => Finite(0)
    case Bool(b) => Finite(if b then 1 else 0)
    case Num(n) => Finite(n)
    case Str(s) => parseNumber(s)
    case BoxedNum(n) => Finite(n)
  }

  /** The exact decimal text of a whole number, with a leading "-" exactly when it
      is negative. This is `String(n)` for |n| below 2^53, where JavaScript is
      guaranteed to write exact digits; larger magnitudes are not written this way
      (see README.md, "Left out"). */
  function IntText(n: int): (r: string)
    ensures |r| >= 1 && IsDigitOrMinus(r[0])
    ensures r[0] == '-' <==> n < 0
    ensures forall i :: 1 <= i < |r| ==> JsText.IsDigit(r[i])
  {
    if n >= 0 then JsText.Decimal(n) else "-" + JsText.Decimal(-n)
  }

  predicate IsDigitOrMinus(c: char) { c == '-' || JsText.IsDigit(c) }

  /** Reading the text of an integer back gives the integer: the digits after an
      optional "-" are its magnitude. */
  lemma IntTextRoundTrip(n: int)
    ensures n >= 0 ==> JsText.DigitsValue(IntText(n)) == n
    ensures n < 0 ==> JsText.DigitsValue(IntText(n)[1..]) == -n
  {
    if n >= 0 {
      JsText.DecimalRoundTrip(n);
    } else {
      assert IntText(n)[1..] == JsText.Decimal(-n);
      JsText.DecimalRoundTrip(-n);
    }
  }

  /** `String(v)`. A missing cell reads as the text "undefined", which only the
      string "undefined" shares with it. */
  function ToText(v: Value): (r: string)
    ensures v.Undefined? ==> r == "undefined"
    ensures r == "undefined" ==> v.Undefined? || v == Str("undefined")
  {
    match v
    case Undefined => "undefined"
    case Null => "null"
    case Bool(b) => if b then "true" else "false"
    case Num(n) => IntText(n)
    case Str(s) => s
    case BoxedNum(n) => IntText(n)
  }
}

/** The response values the three request handlers produce. */
module Http {
  /** A response body: a plain-text message (`res.send`) or a JSON value (`res.json`). */
  datatype Body<T> = Text(message: string) | Json(value: T)

  datatype Response<T> = Response(status: int, body: Body<T>)

  /** `response.ok` on the client: a status in the 200 range. None of the
      server's error statuses is ok. */
  predicate IsOk(status: int): (ok: bool)
    ensures ok ==> status != 400 && status != 404 && status != 500
  {
    200 <= status <= 299
  }
}
