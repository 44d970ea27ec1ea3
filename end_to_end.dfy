/**
 * What the client makes of what the server produces: the stored-name scheme read
 * back by the file list, and the file-data response read by the file selection.
 */
module EndToEnd {
  import opened JsText
  import opened JsValues
  import opened Http
  import Server
  import Client

  /** The time text the file list reads from a stored name is the decimal upload
      time, and reading it as a number gives the upload time back. */
  lemma TimestampOfStoredName(now: nat, originalName: string)
    ensures Client.TimestampText(Server.StoredName(now, originalName)) == Decimal(now)
    ensures DigitsValue(Client.TimestampText(Server.StoredName(now, originalName))) == now
  {
    DecimalRoundTrip(now);
  }

  /** If `Number` on a digit string gives the number `DigitsValue` reads whenever
      that number is below 2^53 (where a double holds every whole number), the
      number `getTimeString` parses from a stored name is the upload time, for any
      time a JavaScript `Date` can hold (at most 8.64e15 ms). */
  lemma TimestampNumberOfStoredName(now: nat, originalName: string, parseNumber: string -> JsNumber)
    requires now <= 8640000000000000
    requires forall s: string :: (forall i :: 0 <= i < |s| ==> IsDigit(s[i])) && DigitsValue(s) < 9007199254740992 ==>
      parseNumber(s) == Finite(DigitsValue(s))
    ensures parseNumber(Client.TimestampText(Server.StoredName(now, originalName))) == Finite(now)
  {
    DecimalRoundTrip(now);
  }

  /** The display name of a stored name is the original name with every hyphen
      turned into a comma. */
  lemma DisplayNameOfStoredName(now: nat, originalName: string)
    ensures Client.GetFileName(Server.StoredName(now, originalName)) == ReplaceChar(originalName, '-', ',')
  {
    var s := Server.StoredName(now, originalName);
    var stamp := Client.TimestampText(s);
    assert stamp == Decimal(now);
    assert s[|stamp|] == '-';
    Client.GetFileNameAfterFirstHyphen(s);
    assert s[|stamp| + 1..] == originalName;
  }

  /** The display name gives the original name back exactly when the original
      name has no hyphen. */
  lemma DisplayNameRoundTripIff(now: nat, originalName: string)
    ensures Client.GetFileName(Server.StoredName(now, originalName)) == originalName <==> '-' !in originalName
  {
    DisplayNameOfStoredName(now, originalName);
    ReplaceCharIdentityIff(originalName, '-', ',');
  }

  /** A hyphen inside the original name is listed as a comma: "my-data.csv"
      is listed as "my,data.csv", which is not the name that was uploaded. */
  lemma HyphenatedNameListedWithComma(now: nat, before: string, after: string)
    requires '-' !in before && '-' !in after
    ensures Client.GetFileName(Server.StoredName(now, before + "-" + after)) == before + "," + after
    ensures Client.GetFileName(Server.StoredName(now, before + "-" + after)) != before + "-" + after
  {
    DisplayNameOfStoredName(now, before + "-" + after);
    ReplaceCharSingle(before, '-', ',', after);
    assert (before + "," + after)[|before|] == ',';
  }

  /** With `join("-")` the display name of a stored name is always the original
      name. */
  lemma IntendedDisplayNameRoundTrip(now: nat, originalName: string)
    ensures Client.GetFileNameIntended(Server.StoredName(now, originalName)) == originalName
  {
    var s := Server.StoredName(now, originalName);
    assert s[|Decimal(now)|] == '-';
    assert s[|Decimal(now)| + 1..] == originalName;
  }

  /** What the client's `response.json()` sees of a response the server sent with
      `res.json`: the rows after the JSON round trip. */
  function Delivered(response: Response<seq<Row>>): (r: Response<seq<Row>>)
    ensures r.status == response.status
    ensures response.body.Text? ==> r.body == response.body
    ensures response.body.Json? ==> r.body == Json(TransportRows(response.body.value))
  {
    match response.body
    case Text(_) => response
    case Json(rows) => Response(response.status, Json(TransportRows(rows)))
  }

  /** Selecting a file through the file-data route: a missing or unreadable file
      leaves the previous selection; decoded rows, as the JSON round trip delivers
      them, become the selection unless there are none. */
  lemma SelectThroughFileData(prev: Client.SelectedFile, lookup: Server.FileLookup)
    ensures var r := Client.OnFileChange(prev, Client.Received(Delivered(Server.FileDataResponse(lookup))));
      if lookup.Decoded? && |lookup.rows| > 0
      then r.colNames == Keys(TransportRow(lookup.rows[0])) && r.data == TransportRows(lookup.rows)
      else r == prev
  {
  }

  /** Rows decoded from JSON survive the round trip unchanged, so the selection
      holds exactly the decoded rows, and its columns are the first row's keys. */
  lemma SelectThroughFileDataJsonRows(prev: Client.SelectedFile, rows: seq<Row>)
    requires |rows| > 0 && forall i :: 0 <= i < |rows| ==> IsJsonRow(rows[i])
    ensures var r := Client.OnFileChange(prev, Client.Received(Delivered(Server.FileDataResponse(Server.Decoded(rows)))));
      r.colNames == Keys(rows[0]) && r.data == rows
  {
  }

  /** A field holding `undefined` does not reach the client: a first row
      `{a: undefined}` gives no columns at all. */
  lemma UndefinedCellDroppedInTransit(prev: Client.SelectedFile)
    ensures Client.OnFileChange(prev, Client.Received(Delivered(Server.FileDataResponse(
      Server.Decoded([Row([("a", Undefined)])]))))).colNames == []
  {
    assert TransportRow(Row([("a", Undefined)])) == Row([]);
  }

  /** A file the server does not know (404) leaves the previous selection in place. */
  lemma UnknownFileKeepsSelection(prev: Client.SelectedFile)
    ensures Client.OnFileChange(prev, Client.Received(Delivered(Server.FileDataResponse(Server.NotAccessible)))) == prev
  {
  }
}
