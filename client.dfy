/**
 * The client (src/client/App.tsx): how a stored name is shown, how a column is
 * classified, how the sort comparator is built, and how a fetched dataset
 * becomes the selected file.
 */
module Client {
  import opened JsText
  import opened JsValues
  import opened Http

  // ---------------------------------------------------------------------------
  // Stored names as the file list shows them

  /** `getFileName`: the stored name split at every hyphen, the first piece
      dropped and the rest joined with `join()`'s default separator ",". No
      hyphen survives into the display name. */
  function GetFileName(fileName: string): (r: string)
    ensures '-' !in r
  {
    Join(Split(fileName, '-')[1..], ",")
  }

  /** The text `getTimeString` hands to `Number`: the first piece of the split,
      which is the longest hyphen-free prefix of the name. */
  function TimestampText(fileName: string): (r: string)
    ensures '-' !in r
    ensures |r| <= |fileName| && r == fileName[..|r|]
    ensures |r| == |fileName| || fileName[|r|] == '-'
  {
    Split(fileName, '-')[0]
  }

  /** The text before the first hyphen is determined by the three properties
      `TimestampText` promises: no other string has them. */
  lemma TimestampTextUnique(fileName: string, p: string)
    requires '-' !in p
    requires |p| <= |fileName| && p == fileName[..|p|]
    requires |p| == |fileName| || fileName[|p|] == '-'
    ensures p == TimestampText(fileName)
  {
  }

  /** A name without a hyphen shows as the empty name: the split has one piece
      and dropping it leaves nothing to join. */
  lemma GetFileNameWithoutHyphen(fileName: string)
    requires '-' !in fileName
    ensures GetFileName(fileName) == ""
  {
    SplitWithoutSeparator(fileName, '-');
  }

  /** For a name with a hyphen, the shown name is everything after the first
      hyphen with each further hyphen turned into a comma. */
  lemma GetFileNameAfterFirstHyphen(fileName: string)
    requires '-' in fileName
    ensures |TimestampText(fileName)| < |fileName|
    ensures GetFileName(fileName)
         == ReplaceChar(fileName[|TimestampText(fileName)| + 1..], '-', ',')
  {
    SplitTail(fileName, '-');
    JoinSplitReplaces(fileName[|TimestampText(fileName)| + 1..], '-', ',');
  }

  /** The display name with `join("-")`: what the file list shows once the
      separator is given (see Findings in README.md). It is exactly the text
      after the first hyphen, and nothing for a name without a hyphen. */
  function GetFileNameIntended(fileName: string): (r: string)
    ensures '-' !in fileName ==> r == ""
    ensures '-' in fileName ==>
      |TimestampText(fileName)| < |fileName| &&
      r == fileName[|TimestampText(fileName)| + 1..]
  {
    if '-' in fileName then
      SplitTail(fileName, '-');
      JoinSplitRoundTrip(fileName[|TimestampText(fileName)| + 1..], '-');
      Join(Split(fileName, '-')[1..], "-")
    else
      SplitWithoutSeparator(fileName, '-');
      Join(Split(fileName, '-')[1..], "-")
  }

  // ---------------------------------------------------------------------------
  // Column classification

  /** `columnIsNumeric`: whether the first row's value in the column is a
      `Number` object; false for an empty dataset and for a column the first
      row lacks. */
  function ColumnIsNumeric(data: seq<Row>, colName: string): (r: bool)
    ensures r ==> |data| > 0 && colName in Keys(data[0])
  {
    |data| > 0 && Get(data[0], colName).BoxedNum?
  }

  /** An empty dataset has no numeric column, and only the first row's value in
      the column decides the classification. */
  lemma ColumnIsNumericFirstRowOnly(data: seq<Row>, other: seq<Row>, colName: string)
    ensures ColumnIsNumeric([], colName) == false
    ensures |data| > 0 && |other| > 0 && Get(data[0], colName) == Get(other[0], colName)
            ==> ColumnIsNumeric(data, colName) == ColumnIsNumeric(other, colName)
  {
  }

  /** On rows decoded from JSON the classification is always false: a decoded
      cell is never a `Number` object. */
  lemma ColumnIsNumericNeverOnJson(data: seq<Row>, colName: string)
    requires forall i :: 0 <= i < |data| ==> IsJsonRow(data[i])
    ensures !ColumnIsNumeric(data, colName)
  {
    if |data| > 0 && colName in Keys(data[0]) {
      var v := Get(data[0], colName);
      var i :| 0 <= i < |data[0].fields| && data[0].fields[i] == (colName, v);
      assert IsJson(data[0].fields[i].1);
    }
  }

  /** The classification the name `columnIsNumeric` asks for: the first row's
      value in the column coerces to a number that is not NaN (see Findings in
      README.md).
      A JSON number in the first row makes the column numeric; a column the first
      row lacks, or an empty dataset, makes it text. */
  function ColumnIsNumericIntended(data: seq<Row>, colName: string, parseNumber: string -> JsNumber): (r: bool)
    ensures r ==> |data| > 0
    ensures |data| > 0 && Get(data[0], colName).Num? ==> r
    ensures |data| > 0 && colName !in Keys(data[0]) ==> !r
  {
    |data| > 0 && ToNumber(Get(data[0], colName), parseNumber).Finite?
  }

  /** The first row alone decides the intended classification too: a dataset whose
      first value is "5" and whose second is "abc" is numeric. */
  lemma ColumnIsNumericIntendedExample(parseNumber: string -> JsNumber)
    requires parseNumber("5") == Finite(5) && parseNumber("abc") == NaN
    ensures ColumnIsNumericIntended([Row([("x", Str("5"))]), Row([("x", Str("abc"))])], "x", parseNumber)
  {
    assert Get(Row([("x", Str("5"))]), "x") == Str("5");
  }

  /** As written, the same JSON number column is classified as text, where the
      intended classification calls it numeric. */
  lemma ColumnIsNumericMissesJsonNumbers(parseNumber: string -> JsNumber)
    ensures !ColumnIsNumeric([Row([("x", Num(5))])], "x")
    ensures ColumnIsNumericIntended([Row([("x", Num(5))])], "x", parseNumber)
  {
    assert Get(Row([("x", Num(5))]), "x") == Num(5);
  }

  // ---------------------------------------------------------------------------
  // The sort comparator

  /** The base comparison of two cells: numeric subtraction of `Number(x)` and
      `Number(y)`, or the locale comparison of `String(x)` and `String(y)`.
      A text comparison is never NaN; a numeric one is NaN exactly when one of
      the cells is not a number. */
  function CellCompare(isNumeric: bool, parseNumber: string -> JsNumber,
                       localeCompare: (string, string) -> int, x: Value, y: Value): (r: JsNumber)
    ensures !isNumeric ==> r.Finite?
    ensures isNumeric ==> (r.NaN? <==> ToNumber(x, parseNumber).NaN? || ToNumber(y, parseNumber).NaN?)
  {
    if isNumeric then Sub(ToNumber(x, parseNumber), ToNumber(y, parseNumber))
    else Finite(localeCompare(ToText(x), ToText(y)))
  }

  /** `getComparator`: picks the base comparison on the column, then for the
      descending direction swaps the operands (it does not negate the result).
      The result depends only on the two rows' values in that column. */
  function GetComparator(colName: string, isNumeric: bool, ascending: bool,
                         parseNumber: string -> JsNumber,
                         localeCompare: (string, string) -> int): (cmp: (Row, Row) -> JsNumber)
    ensures ascending ==> forall a, b ::
      cmp(a, b) == CellCompare(isNumeric, parseNumber, localeCompare, Get(a, colName), Get(b, colName))
    ensures !ascending ==> forall a, b ::
      cmp(a, b) == CellCompare(isNumeric, parseNumber, localeCompare, Get(b, colName), Get(a, colName))
  {
    var cmpType: (Row, Row) -> JsNumber :=
      if isNumeric then
        (a: Row, b: Row) => Sub(ToNumber(Get(a, colName), parseNumber), ToNumber(Get(b, colName), parseNumber))
      else
        (a: Row, b: Row) => Finite(localeCompare(ToText(Get(a, colName)), ToText(Get(b, colName))));
    if ascending then cmpType
    else (a: Row, b: Row) => cmpType(b, a)
  }

  /** The descending comparator is the ascending one with its operands swapped. */
  lemma DescendingSwapsOperands(colName: string, isNumeric: bool, parseNumber: string -> JsNumber,
                                localeCompare: (string, string) -> int, a: Row, b: Row)
    ensures GetComparator(colName, isNumeric, false, parseNumber, localeCompare)(a, b)
         == GetComparator(colName, isNumeric, true, parseNumber, localeCompare)(b, a)
  {
  }

  /** Rows that agree in the column compare alike, whatever else they hold. */
  lemma ComparatorReadsOnlyColumn(colName: string, isNumeric: bool, ascending: bool,
                                  parseNumber: string -> JsNumber,
                                  localeCompare: (string, string) -> int)
    ensures var cmp := GetComparator(colName, isNumeric, ascending, parseNumber, localeCompare);
      forall a, b, a', b' ::
        Get(a, colName) == Get(a', colName) && Get(b, colName) == Get(b', colName)
        ==> cmp(a, b) == cmp(a', b')
  {
  }

  /** A comparator whose verdict on (a, b) is the opposite of its verdict on (b, a),
      as the sort reads verdicts. */
  ghost predicate Antisymmetric(cmp: (Row, Row) -> JsNumber) {
    forall a, b :: SortOrder(cmp(a, b)) == -SortOrder(cmp(b, a))
  }

  /** A locale comparison whose sign flips when its operands are swapped. */
  ghost predicate SignFlips(localeCompare: (string, string) -> int) {
    forall x, y :: SortOrder(Finite(localeCompare(x, y))) == -SortOrder(Finite(localeCompare(y, x)))
  }

  /** If the ascending comparator is antisymmetric, the descending one is too, and
      it reverses every verdict of the ascending one. */
  lemma DescendingReversesAscending(colName: string, isNumeric: bool, parseNumber: string -> JsNumber,
                                    localeCompare: (string, string) -> int)
    requires Antisymmetric(GetComparator(colName, isNumeric, true, parseNumber, localeCompare))
    ensures Antisymmetric(GetComparator(colName, isNumeric, false, parseNumber, localeCompare))
    ensures forall a, b ::
      SortOrder(GetComparator(colName, isNumeric, false, parseNumber, localeCompare)(a, b))
      == -SortOrder(GetComparator(colName, isNumeric, true, parseNumber, localeCompare)(a, b))
  {
    var asc := GetComparator(colName, isNumeric, true, parseNumber, localeCompare);
    var desc := GetComparator(colName, isNumeric, false, parseNumber, localeCompare);
    forall a, b ensures SortOrder(desc(a, b)) == -SortOrder(asc(a, b)) {
      assert desc(a, b) == asc(b, a);
    }
  }

  /** The numeric comparator is antisymmetric in either direction: a finite
      difference changes sign when the operands swap, and a NaN reads as a tie
      both ways. */
  lemma NumericComparatorAntisymmetric(colName: string, ascending: bool, parseNumber: string -> JsNumber,
                                       localeCompare: (string, string) -> int)
    ensures Antisymmetric(GetComparator(colName, true, ascending, parseNumber, localeCompare))
  {
  }

  /** The text comparator is antisymmetric if the locale comparison's sign flips. */
  lemma TextComparatorAntisymmetric(colName: string, ascending: bool, parseNumber: string -> JsNumber,
                                    localeCompare: (string, string) -> int)
    requires SignFlips(localeCompare)
    ensures Antisymmetric(GetComparator(colName, false, ascending, parseNumber, localeCompare))
  {
    var cmp := GetComparator(colName, false, ascending, parseNumber, localeCompare);
    forall a, b ensures SortOrder(cmp(a, b)) == -SortOrder(cmp(b, a)) {
      var x, y := ToText(Get(a, colName)), ToText(Get(b, colName));
      assert SortOrder(Finite(localeCompare(x, y))) == -SortOrder(Finite(localeCompare(y, x)));
    }
  }

  /** On rows whose column holds numbers, the numeric comparator's "not after"
      verdict is transitive in either direction. */
  lemma NumericComparatorTransitiveOnNumbers(colName: string, ascending: bool,
                                             parseNumber: string -> JsNumber,
                                             localeCompare: (string, string) -> int,
                                             a: Row, b: Row, c: Row)
    requires ToNumber(Get(a, colName), parseNumber).Finite?
    requires ToNumber(Get(b, colName), parseNumber).Finite?
    requires ToNumber(Get(c, colName), parseNumber).Finite?
    ensures var cmp := GetComparator(colName, true, ascending, parseNumber, localeCompare);
      SortOrder(cmp(a, b)) <= 0 && SortOrder(cmp(b, c)) <= 0 ==> SortOrder(cmp(a, c)) <= 0
  {
  }

  /** A cell that is not a number breaks the order the sort relies on: it ties
      with 1 and with 2, while 1 sorts before 2. */
  lemma NaNCellBreaksTransitivity(parseNumber: string -> JsNumber, localeCompare: (string, string) -> int)
    ensures var cmp := GetComparator("x", true, true, parseNumber, localeCompare);
      var one, missing, two := Row([("x", Num(1))]), Row([]), Row([("x", Num(2))]);
      SortOrder(cmp(one, missing)) == 0 && SortOrder(cmp(missing, two)) == 0
      && SortOrder(cmp(one, two)) < 0
  {
    assert Get(Row([("x", Num(1))]), "x") == Num(1);
    assert Get(Row([("x", Num(2))]), "x") == Num(2);
    assert Get(Row([]), "x") == Undefined;
  }

  // ---------------------------------------------------------------------------
  // Selecting a file

  /** The selected file: its column names and its rows. */
  datatype SelectedFile = SelectedFile(colNames: seq<string>, data: seq<Row>)

  /** What fetching a file's data gave: the request failed, or a response came. */
  datatype DataFetch = FetchFailed | Received(response: Response<seq<Row>>)

  /** Whether `onFileChange` replaces the selection: an ok response whose body
      decodes to a non-empty array of rows. A text body is not JSON, so decoding it
      fails. */
  predicate Accepted(fetched: DataFetch): (ok: bool)
    ensures ok ==> fetched.Received? && fetched.response.body.Json? && |fetched.response.body.value| > 0
    ensures ok ==> fetched.response.status != 400 && fetched.response.status != 404 && fetched.response.status != 500
  {
    && fetched.Received?
    && IsOk(fetched.response.status)
    && fetched.response.body.Json?
    && |fetched.response.body.value| > 0
  }

  /** `onFileChange`: every failure (no response, a status outside the 200 range,
      a body that is not JSON, an empty array) is caught and keeps the previous
      selection; otherwise the column names are the keys of the first row and the
      rows are kept as they came. */
  function OnFileChange(prev: SelectedFile, fetched: DataFetch): (r: SelectedFile)
    ensures !Accepted(fetched) ==> r == prev
    ensures Accepted(fetched) ==>
      var rows := fetched.response.body.value;
      r.colNames == Keys(rows[0]) && r.data == rows
  {
    match fetched
    case FetchFailed => prev
    case Received(response) =>
      if !IsOk(response.status) then prev
      else match response.body
        case Text(_) => prev
        case Json(fileJson) =>
          if |fileJson| == 0 then prev
          else SelectedFile(Keys(fileJson[0]), fileJson)
  }

  /** After an accepted selection every column name is a field of the first row,
      and every field of the first row is a column. */
  lemma SelectionColumnsAreFirstRowFields(prev: SelectedFile, fetched: DataFetch)
    requires Accepted(fetched)
    ensures var r := OnFileChange(prev, fetched);
      |r.data| > 0 &&
      (forall c :: c in r.colNames <==> exists i :: 0 <= i < |r.data[0].fields| && r.data[0].fields[i].0 == c)
  {
    var r := OnFileChange(prev, fetched);
    var ks := Keys(r.data[0]);
    forall c ensures c in ks <==> exists i :: 0 <= i < |r.data[0].fields| && r.data[0].fields[i].0 == c {
      if c in ks {
        var i :| 0 <= i < |ks| && ks[i] == c;
        assert r.data[0].fields[i].0 == c;
      }
      if exists i :: 0 <= i < |r.data[0].fields| && r.data[0].fields[i].0 == c {
        var i :| 0 <= i < |r.data[0].fields| && r.data[0].fields[i].0 == c;
        assert ks[i] == c;
      }
    }
  }
}
