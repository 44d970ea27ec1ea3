/** Option, as the request handlers see optional request parts. */
module Wrappers {
  datatype Option<+T> = None | Some(value: T)
}

/**
 * The server (src/server/main.ts): the name under which an upload is stored and
 * the status decisions of the three request handlers, taken over the outcomes of
 * the file-system calls they make.
 */
module Server {
  import opened Wrappers
  import opened JsText
  import opened JsValues
  import opened Http

  /** The stored name the upload storage gives a file received at time `now`
      (milliseconds since the epoch): the decimal time, a hyphen, the original
      name. It ends with the original name and the time text is exactly the part
      before its first hyphen. */
  function StoredName(now: nat, originalName: string): (r: string)
    ensures |r| == |Decimal(now)| + 1 + |originalName|
    ensures r[|r| - |originalName|..] == originalName
    ensures Split(r, '-')[0] == Decimal(now)
  {
    var stamp := Decimal(now);
    DecimalHasNoHyphen(now);
    SplitAtFirst(stamp, '-', originalName);
    stamp + "-" + originalName
  }

  /** Two uploads get the same stored name exactly when they share both the
      time and the original name; nothing else prevents a collision. */
  lemma StoredNameInjective(t1: nat, o1: string, t2: nat, o2: string)
    ensures StoredName(t1, o1) == StoredName(t2, o2) <==> t1 == t2 && o1 == o2
  {
    if StoredName(t1, o1) == StoredName(t2, o2) {
      DecimalInjective(t1, t2);
      var s := StoredName(t1, o1);
      assert s[|Decimal(t1)| + 1..] == o1;
      assert s[|Decimal(t2)| + 1..] == o2;
    }
  }

  /** An uploaded file as the upload middleware describes it. */
  datatype UploadedFile = UploadedFile(originalName: string)

  /** POST /api/upload: 400 with a reason when the request carried no file part,
      otherwise a success message with the default status 200. */
  function UploadResponse(file: Option<UploadedFile>): (r: Response<()>)
    ensures IsOk(r.status) <==> file.Some?
    ensures file.None? ==> r == Response(400, Text("No file uploaded"))
    ensures file.Some? ==> r == Response(200, Text("File uploaded successfully"))
  {
    if file.None? then Response(400, Text("No file uploaded"))
    else Response(200, Text("File uploaded successfully"))
  }

  /** What reading the upload directory gave. */
  datatype DirListing = ReadDirFailed | Entries(files: seq<string>)

  /** GET /api/getFileNames: 500 when the directory cannot be read; otherwise the
      entries, unchanged and in the order the directory read gave them. */
  function FileNamesResponse(listing: DirListing): (r: Response<seq<string>>)
    ensures IsOk(r.status) <==> listing.Entries?
    ensures listing.ReadDirFailed? ==> r == Response(500, Text("Error reading files"))
    ensures listing.Entries? ==> r.body == Json(listing.files)
  {
    match listing
    case ReadDirFailed => Response(500, Text("Error reading files"))
    case Entries(files) => Response(200, Json(files))
  }

  /** What looking up a stored file gave: the access check failed, the read
      failed, or the contents read and decoded into rows. */
  datatype FileLookup = NotAccessible | ReadFailed | Decoded(rows: seq<Row>)

  /** GET /api/getFileData/:fileName: 404 when the file is not accessible, 500
      when it cannot be read, otherwise the decoded rows in their order. */
  function FileDataResponse(lookup: FileLookup): (r: Response<seq<Row>>)
    ensures IsOk(r.status) <==> lookup.Decoded?
    ensures r.status == 404 <==> lookup.NotAccessible?
    ensures r.status == 500 <==> lookup.ReadFailed?
    ensures lookup.NotAccessible? ==> r.body == Text("File not found")
    ensures lookup.ReadFailed? ==> r.body == Text("Error reading file")
    ensures lookup.Decoded? ==> r.body == Json(lookup.rows)
  {
    match lookup
    case NotAccessible => Response(404, Text("File not found"))
    case ReadFailed => Response(500, Text("Error reading file"))
    case Decoded(rows) => Response(200, Json(rows))
  }
}
