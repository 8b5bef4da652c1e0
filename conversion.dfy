/**
 * What `handleConvert` makes of the service's reply once the request is
 * made: the converted data for display and the artifact behind the download
 * link, or the message that ends up in `serverError`. The reply itself is an
 * input: the network is not modelled.
 */
module Conversion {
  import opened Wrappers
  import opened JsStrings
  import opened Json
  import opened CsvRows
  import opened Formats
  import opened Validation

  const ConversionFailed: string := "Conversion failed"
  const ConnectFailed: string := "Failed to connect to server. Please try again."
  const Completed: string := "Conversion completed successfully!"

  /**
   * The service's answer: `fetch` rejected (a network failure, with the
   * message of the error), or a response with its `ok` flag, its text, and
   * what `response.json()` makes of that text.
   */
  datatype Reply = NetworkError(message: string) | Response(ok: bool, text: string, body: ParseOutcome)

  /** What `convertedData` holds: the `data` member of the JSON reply (None when absent), or the parsed CSV rows. */
  datatype Converted = JsonData(data: Option<JsonValue>) | CsvData(rows: seq<Row>)

  /** The contents of the Blob behind `downloadUrl`: `data` serialised as JSON with two-space indentation, or the CSV text as received. */
  datatype Artifact = JsonArtifact(data: Option<JsonValue>) | CsvArtifact(text: string)

  /** The Blob's MIME type. */
  function MimeType(a: Artifact): string
  {
    match a
    case JsonArtifact(_) => "application/json"
    case CsvArtifact(_) => "text/csv"
  }

  /** The message of the TypeError thrown when a member of `null` is read (V8's wording). */
  function NullReadMessage(member: string): string
  {
    "Cannot read properties of null (reading '" + member + "')"
  }

  /** The message the catch block stores: the error's message, or a generic connection message when that is empty. */
  function CaughtMessage(message: string): (m: string)
    ensures m != ""
    ensures message != "" ==> m == message
    ensures message == "" ==> m == ConnectFailed
  {
    if message == "" then ConnectFailed else message
  }

  /**
   * The message of the error thrown for a response that is not ok: the
   * body's `error` string, or "Conversion failed" when the body has no
   * non-empty `error` string; a body that is not JSON, or is `null`, throws
   * on its own.
   */
  function ServiceErrorMessage(body: ParseOutcome): (m: string)
    ensures body.ParseError? ==> m == body.message
    ensures body.Parsed? && body.value.JObject? && "error" in body.value.fields
      && body.value.fields["error"].JString? && body.value.fields["error"].s != ""
      ==> m == body.value.fields["error"].s
    ensures body.Parsed? && body.value.JObject? && "error" !in body.value.fields ==> m == ConversionFailed
    ensures body.Parsed? && !body.value.JNull?
      && !(Member(body.value, "error").Some? && Member(body.value, "error").value.JString?
           && Member(body.value, "error").value.s != "")
      ==> m == ConversionFailed
    ensures body == Parsed(JNull) ==> m == NullReadMessage("error")
  {
    match body
    case ParseError(message) => message
    case Parsed(v) =>
      if v.JNull? then NullReadMessage("error")
      else match Member(v, "error")
        case Some(JString(s)) => if s != "" then s else ConversionFailed
        case _ => ConversionFailed
  }

  /** The json-to-csv branch: every line after the first, zipped with the first line's fields. */
  function CsvResponseRows(text: string): seq<Row>
  {
    var lines := Split(text, '\n');
    RowsOf(Split(lines[0], ','), lines[1..])
  }

  /** The outcome of a request for a file of the given name. */
  function Outcome(name: string, reply: Reply): Result<(Converted, Artifact), string>
  {
    match reply
    case NetworkError(message) => Failure(CaughtMessage(message))
    case Response(ok, text, body) =>
      if !ok then Failure(CaughtMessage(ServiceErrorMessage(body)))
      else if SourceFormat(name) == Csv then
        match body
        case ParseError(message) => Failure(CaughtMessage(message))
        case Parsed(v) =>
          if v.JNull? then Failure(NullReadMessage("data"))
          else Success((JsonData(Member(v, "data")), JsonArtifact(Member(v, "data"))))
      else Success((CsvData(CsvResponseRows(text)), CsvArtifact(text)))
  }

  /** The converted data and the artifact come from the same branch: both JSON, or both CSV. */
  predicate Matches(c: Converted, a: Artifact)
  {
    c.JsonData? <==> a.JsonArtifact?
  }

  /**
   * A successful conversion of a `.csv` file yields JSON, of any other name
   * CSV, and the download name's extension agrees with the artifact's MIME
   * type; every failure carries a non-empty message.
   */
  lemma OutcomeFormats(name: string, reply: Reply)
    ensures Outcome(name, reply).Success? ==>
      var (converted, artifact) := Outcome(name, reply).value;
      && Matches(converted, artifact)
      && (artifact.JsonArtifact? <==> EndsWith(name, ".csv"))
      && (MimeType(artifact) == "application/json" <==> DownloadName(name) == "converted.json")
      && (MimeType(artifact) == "text/csv" <==> DownloadName(name) == "converted.csv")
    ensures Outcome(name, reply).Failure? ==> Outcome(name, reply).error != ""
  {
  }

  /** A response that is not ok always fails, with the service's `error` string when it gives one. */
  lemma NotOkFails(name: string, text: string, body: ParseOutcome)
    ensures Outcome(name, Response(false, text, body)).Failure?
    ensures body.Parsed? && body.value.JObject? && "error" in body.value.fields
      && body.value.fields["error"].JString? && body.value.fields["error"].s != ""
      ==> Outcome(name, Response(false, text, body)).error == body.value.fields["error"].s
    ensures body.Parsed? && body.value.JObject? && "error" !in body.value.fields
      ==> Outcome(name, Response(false, text, body)).error == ConversionFailed
  {
  }

  /**
   * The CSV text the service returns is read whole: one row per line after
   * the header line, no ten-row cap, and no error when there is no data line.
   */
  lemma {:induction false} CsvResponseOfLines(header: string, data: seq<string>)
    requires '\n' !in header
    requires forall i :: 0 <= i < |data| ==> '\n' !in data[i]
    ensures CsvResponseRows(Join([header] + data, '\n')) == RowsOf(Split(header, ','), data)
  {
    var lines := [header] + data;
    forall i | 0 <= i < |lines| ensures '\n' !in lines[i] {
      if i > 0 { assert lines[i] == data[i - 1]; }
    }
    SplitJoin(lines, '\n');
  }

  /** The response has one row per newline in the text. */
  lemma CsvResponseSize(text: string)
    ensures |CsvResponseRows(text)| == Count(text, '\n')
  {
  }

  /**
   * A CSV text that ends with a newline, as a CSV writer's output usually
   * does, gets a last row whose every value is the empty string.
   */
  lemma TrailingNewlineRow(header: string, data: seq<string>)
    requires '\n' !in header
    requires forall i :: 0 <= i < |data| ==> '\n' !in data[i]
    ensures var rows := CsvResponseRows(Join([header] + data + [""], '\n'));
      |rows| == |data| + 1 && forall key :: key in rows[|data|] ==> rows[|data|][key] == ""
  {
    assert [header] + data + [""] == [header] + (data + [""]);
    CsvResponseOfLines(header, data + [""]);
    EmptyLineRow(Split(header, ','));
  }

  /**
   * The input preview and the response parser build the same rows: a CSV
   * text the validator accepts previews as the first ten rows the response
   * parser would give, and a text it refuses gives the response parser no
   * rows at all.
   */
  lemma PreviewIsResponsePrefix(content: string)
    ensures CsvPreview(content).Success? ==>
      CsvPreview(content).value == CsvResponseRows(content)[..Min(PreviewLines, Count(content, '\n'))]
    ensures CsvPreview(content).Failure? <==> CsvResponseRows(content) == []
  {
    var lines := Split(content, '\n');
    var headers := Split(lines[0], ',');
    var all := RowsOf(headers, lines[1..]);
    assert CsvResponseRows(content) == all;
    if |lines| >= 2 {
      var n := Min(PreviewLines + 1, |lines|);
      var preview := RowsOf(headers, lines[1..n]);
      assert CsvPreview(content) == Success(preview);
      assert |preview| == n - 1 <= |all|;
      assert forall i :: 0 <= i < n - 1 ==> preview[i] == all[i];
      assert preview == all[..n - 1];
    }
  }
}
