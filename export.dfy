/** Resolving a template to its file (`getTemplateFile`,
    client/src/lib/templateManager.ts, lines 126-146): fetch a built-in's
    URL, decode a custom template's data URL locally, or fail. */
module Export {
  import opened Wrappers
  import opened Registry
  import opened Base64
  import TemplateManager

  // ---------------------------------------------------------------------------
  // `String.prototype.split` on one separator character
  // ---------------------------------------------------------------------------

  /** The pieces of `s` between occurrences of `sep`; there is always at
      least one, and none contains `sep`. */
  function Split(s: string, sep: char): (parts: seq<string>)
    ensures |parts| >= 1
    ensures forall k :: 0 <= k < |parts| ==> sep !in parts[k]
    decreases |s|
  {
    if s == [] then [""]
    else if s[0] == sep then [""] + Split(s[1..], sep)
    else
      var rest := Split(s[1..], sep);
      [[s[0]] + rest[0]] + rest[1..]
  }

  /** The pieces joined back with the separator. */
  function Join(parts: seq<string>, sep: char): string
    requires |parts| >= 1
    decreases |parts|
  {
    if |parts| == 1 then parts[0] else parts[0] + [sep] + Join(parts[1..], sep)
  }

  /** Splitting loses nothing: joining the pieces gives the text back. */
  lemma {:induction false} JoinSplit(s: string, sep: char)
    ensures Join(Split(s, sep), sep) == s
    decreases |s|
  {
    if s != [] {
      JoinSplit(s[1..], sep);
      var rest := Split(s[1..], sep);
      if s[0] != sep {
        var parts := [[s[0]] + rest[0]] + rest[1..];
        assert parts[1..] == rest[1..];
        if |rest| > 1 {
          assert Join(rest, sep) == rest[0] + [sep] + Join(rest[1..], sep);
        }
      } else {
        assert ([""] + rest)[1..] == rest;
      }
    }
  }

  /** Text without the separator is one piece. */
  lemma {:induction false} SplitNoSeparator(s: string, sep: char)
    requires sep !in s
    ensures Split(s, sep) == [s]
    decreases |s|
  {
    if s != [] {
      SplitNoSeparator(s[1..], sep);
      assert [s[0]] + s[1..] == s;
    }
  }

  /** Splitting at a first separator: the text before it is the first piece. */
  lemma {:induction false} SplitAtFirst(a: string, sep: char, b: string)
    requires sep !in a
    ensures Split(a + [sep] + b, sep) == [a] + Split(b, sep)
    decreases |a|
  {
    if a == [] {
      assert a + [sep] + b == [sep] + b;
      assert ([sep] + b)[1..] == b;
    } else {
      assert (a + [sep] + b)[1..] == a[1..] + [sep] + b;
      SplitAtFirst(a[1..], sep, b);
      assert [a[0]] + a[1..] == a;
    }
  }

  /** The first piece is the longest separator-free prefix: it is followed
      by a separator or by the end of the text. */
  lemma {:induction false} SplitHead(s: string, sep: char)
    ensures var p := Split(s, sep)[0];
      |p| <= |s| && s[..|p|] == p && (|p| == |s| || s[|p|] == sep)
    decreases |s|
  {
    if s != [] && s[0] != sep {
      SplitHead(s[1..], sep);
    }
  }

  /** `i` is the index of the first `c` in `s`. */
  predicate FirstIndexOf(s: string, c: char, i: int) {
    0 <= i < |s| && s[i] == c && c !in s[..i]
  }

  /** `piece` is the run of comma-free text of `s` starting at `start`, up to
      the next comma or the end. */
  predicate CommaFreeRunAt(s: string, start: int, piece: string) {
    0 <= start && start + |piece| <= |s| && s[start..start + |piece|] == piece && ',' !in piece
    && (start + |piece| == |s| || s[start + |piece|] == ',')
  }

  /** The second piece of a comma split is the run after the first comma. */
  lemma SecondPiece(s: string)
    ensures ',' !in s ==> |Split(s, ',')| == 1
    ensures forall i :: FirstIndexOf(s, ',', i) ==>
      |Split(s, ',')| > 1 && CommaFreeRunAt(s, i + 1, Split(s, ',')[1])
  {
    if ',' !in s {
      SplitNoSeparator(s, ',');
    }
    forall i | FirstIndexOf(s, ',', i)
      ensures |Split(s, ',')| > 1 && CommaFreeRunAt(s, i + 1, Split(s, ',')[1])
    {
      var a, b := s[..i], s[i + 1..];
      assert s == a + [','] + b;
      SplitAtFirst(a, ',', b);
      SplitHead(b, ',');
      var p := Split(b, ',')[0];
      assert s[i + 1..i + 1 + |p|] == b[..|p|];
    }
  }

  // ---------------------------------------------------------------------------
  // Decoding a data URL
  // ---------------------------------------------------------------------------

  /** `fileData.split(',')[1]`: the text between the first and the second
      comma. With no comma the index is out of range, the value is
      `undefined`, and `atob` receives it converted to the string "undefined". */
  function Base64Field(fileData: string): (field: string)
    ensures ',' !in fileData ==> field == "undefined"
    ensures forall i :: FirstIndexOf(fileData, ',', i) ==> CommaFreeRunAt(fileData, i + 1, field)
  {
    SecondPiece(fileData);
    var parts := Split(fileData, ',');
    if |parts| > 1 then parts[1] else "undefined"
  }

  /** The character codes of a string. */
  function CharCodes(s: string): (codes: seq<int>)
    ensures |codes| == |s|
    ensures forall k :: 0 <= k < |s| ==> codes[k] == s[k] as int
  {
    seq(|s|, i requires 0 <= i < |s| => s[i] as int)
  }

  /** `new Uint8Array(numbers)`: every number taken modulo 256. */
  function Uint8Array(numbers: seq<int>): (bytes: seq<Byte>)
    ensures |bytes| == |numbers|
    ensures forall k :: 0 <= k < |numbers| && 0 <= numbers[k] < 256 ==> bytes[k] == numbers[k]
  {
    seq(|numbers|, i requires 0 <= i < |numbers| => numbers[i] % 256)
  }

  /** The bytes a data URL decodes to, or `None` where `atob` throws: the
      round trip through character codes loses nothing, so these are exactly
      the base64-decoded bytes of the field after the first comma. */
  function DecodeFileData(fileData: string): (r: Option<seq<Byte>>)
    ensures r == ForgivingDecode(Base64Field(fileData))
  {
    match Atob(Base64Field(fileData))
    case None => None
    case Some(byteCharacters) =>
      var bytes := ForgivingDecode(Base64Field(fileData)).value;
      assert Uint8Array(CharCodes(byteCharacters)) == bytes;
      Some(Uint8Array(CharCodes(byteCharacters)))
  }

  /** The data URL of `bytes` with content type `mime`: the form the
      browser's file reader is assumed to produce. A reader that yields a
      data URL without a comma falls under `MissingCommaFails` instead. */
  function DataUrl(mime: string, bytes: seq<Byte>): string {
    "data:" + mime + ";base64," + Encode(bytes)
  }

  /** Round trip: for a comma-free content type, decoding the data URL of
      any bytes (the empty sequence included) gives back exactly those bytes. */
  lemma DataUrlRoundTrip(mime: string, bytes: seq<Byte>)
    requires ',' !in mime
    ensures DecodeFileData(DataUrl(mime, bytes)) == Some(bytes)
  {
    var head := "data:" + mime + ";base64";
    assert ',' !in head;
    assert DataUrl(mime, bytes) == head + [','] + Encode(bytes);
    SplitAtFirst(head, ',', Encode(bytes));
    SplitNoSeparator(Encode(bytes), ',');
    assert Base64Field(DataUrl(mime, bytes)) == Encode(bytes);
    AtobEncode(bytes);
    var codes := CharCodes(BinaryString(bytes));
    assert Uint8Array(codes) == bytes;
  }

  /** A data URL needs its comma: without one the decode always fails. */
  lemma MissingCommaFails(fileData: string)
    requires ',' !in fileData
    ensures DecodeFileData(fileData) == None
  {
    SplitNoSeparator(fileData, ',');
    UndefinedRejected();
  }

  // ---------------------------------------------------------------------------
  // The resolver
  // ---------------------------------------------------------------------------

  /** What `fetch` answered for a URL: its `ok` flag, its body and the
      content type its blob carries. */
  datatype Response = Response(ok: bool, body: seq<Byte>, contentType: string)

  /** The resolved file: its bytes and its content type. */
  datatype Blob = Blob(bytes: seq<Byte>, mime: string)

  datatype ExportError =
    | FailedToFetch       // "Failed to fetch template file"
    | InvalidCharacter    // `atob` rejected the data
    | NotAvailable        // "Template file not available"

  /** Where a template's file comes from. */
  datatype Source = FetchFrom(url: string) | DecodeLocal(fileData: string) | Unavailable

  /** The branch `getTemplateFile` takes, in priority order: a built-in's
      non-empty file URL first, then non-empty file data, else nothing. A
      custom template is never fetched. */
  function SelectSource(t: Template): (r: Source)
    ensures t.isBuiltIn && Truthy(t.fileUrl) ==> r == FetchFrom(t.fileUrl.value)
    ensures r.FetchFrom? ==> t.isBuiltIn && t.fileUrl == Some(r.url) && r.url != ""
    ensures r.DecodeLocal? ==> t.fileData == Some(r.fileData) && r.fileData != ""
    ensures r.Unavailable? <==> !Truthy(t.fileData) && !(t.isBuiltIn && Truthy(t.fileUrl))
  {
    if t.isBuiltIn && Truthy(t.fileUrl) then FetchFrom(t.fileUrl.value)
    else if Truthy(t.fileData) then DecodeLocal(t.fileData.value)
    else Unavailable
  }

  /** The outcome of `getTemplateFile` when the network answers `fetch(url)`
      for `url`. */
  function ExportedFile(t: Template, fetch: string -> Response): (r: Result<Blob, ExportError>)
    ensures r == Err(NotAvailable) <==> SelectSource(t).Unavailable?
    ensures r == Err(FailedToFetch) ==> t.isBuiltIn && Truthy(t.fileUrl) && !fetch(t.fileUrl.value).ok
    ensures r == Err(InvalidCharacter) ==> SelectSource(t).DecodeLocal?
    ensures !t.isBuiltIn && r.Ok? ==> r.value.mime == SpreadsheetMime
  {
    match SelectSource(t)
    case FetchFrom(url) =>
      var response := fetch(url);
      if !response.ok then Err(FailedToFetch) else Ok(Blob(response.body, response.contentType))
    case DecodeLocal(fileData) =>
      (match DecodeFileData(fileData)
       case None => Err(InvalidCharacter)
       case Some(bytes) => Ok(Blob(bytes, SpreadsheetMime)))
    case Unavailable => Err(NotAvailable)
  }

  /** The loop of lines 136-140: each character code copied into a fresh
      array one index at a time, then the array made a `Uint8Array`. */
  method ToByteArray(byteCharacters: string) returns (byteArray: seq<Byte>)
    ensures byteArray == Uint8Array(CharCodes(byteCharacters))
  {
    var byteNumbers := new int[|byteCharacters|];
    for i := 0 to |byteCharacters|
      invariant forall k :: 0 <= k < i ==> byteNumbers[k] == byteCharacters[k] as int
    {
      byteNumbers[i] := byteCharacters[i] as int;
    }
    assert byteNumbers[..] == CharCodes(byteCharacters);
    byteArray := Uint8Array(byteNumbers[..]);
  }

  /** `getTemplateFile`, decoding custom file data through `ToByteArray`. */
  method GetTemplateFile(t: Template, fetch: string -> Response) returns (r: Result<Blob, ExportError>)
    ensures r == ExportedFile(t, fetch)
  {
    if t.isBuiltIn && Truthy(t.fileUrl) {
      var response := fetch(t.fileUrl.value);
      if !response.ok {
        return Err(FailedToFetch);
      }
      return Ok(Blob(response.body, response.contentType));
    } else if Truthy(t.fileData) {
      var base64Data := Base64Field(t.fileData.value);
      var decoded := Atob(base64Data);
      if decoded.None? {
        return Err(InvalidCharacter);
      }
      var byteArray := ToByteArray(decoded.value);
      return Ok(Blob(byteArray, SpreadsheetMime));
    }
    return Err(NotAvailable);
  }

  // ---------------------------------------------------------------------------
  // Properties of the resolver
  // ---------------------------------------------------------------------------

  /** A custom template is never fetched: its outcome does not depend on the
      network at all. */
  lemma CustomNeverFetched(t: Template, fetch1: string -> Response, fetch2: string -> Response)
    requires !t.isBuiltIn
    ensures !SelectSource(t).FetchFrom?
    ensures ExportedFile(t, fetch1) == ExportedFile(t, fetch2)
  {
  }

  /** A template with neither a file URL nor file data always fails as not
      available; so does a custom template without file data. */
  lemma NothingToResolve(t: Template, fetch: string -> Response)
    requires !Truthy(t.fileData)
    requires !Truthy(t.fileUrl) || !t.isBuiltIn
    ensures ExportedFile(t, fetch) == Err(NotAvailable)
  {
  }

  /** A built-in resolves to exactly what its URL serves, or fails when the
      response is not ok; its file URL wins over any file data. */
  lemma BuiltInResolvesToResource(k: nat, fetch: string -> Response)
    requires k < |BuiltIns|
    ensures var response := fetch(BuiltIns[k].fileUrl.value);
      ExportedFile(BuiltIns[k], fetch)
        == if response.ok then Ok(Blob(response.body, response.contentType)) else Err(FailedToFetch)
  {
  }

  /** Upload, then export: a template ingested from the data URL of some
      bytes resolves to exactly those bytes, labelled as a spreadsheet. */
  lemma IngestThenExport(fileName: string, mime: string, bytes: seq<Byte>, timestamp: nat,
                         fetch: string -> Response)
    requires ',' !in mime
    ensures ExportedFile(TemplateManager.IngestedRecord(fileName, DataUrl(mime, bytes), timestamp), fetch)
      == Ok(Blob(bytes, SpreadsheetMime))
  {
    var url := DataUrl(mime, bytes);
    assert url != "" by {
      assert url[0] == 'd';
    }
    DataUrlRoundTrip(mime, bytes);
  }
}
