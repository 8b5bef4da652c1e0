/**
 * `validateFile`'s verdict: what the FileReader's `onload` callback decides
 * about the file content before any request is made. CSV content is split
 * into lines and the first ten data lines become the preview; JSON content
 * must parse to a non-empty array, which becomes the preview whole.
 */
module Validation {
  import opened Wrappers
  import opened JsStrings
  import opened Json
  import opened CsvRows
  import opened Formats

  const CsvTooShort: string := "CSV must have headers and at least one row"
  const NotAnArray: string := "JSON must be an array of objects"
  const EmptyArray: string := "JSON array is empty"

  /** How many data lines the CSV preview keeps: lines 1 to 10. */
  const PreviewLines: nat := 10

  function Min(a: nat, b: nat): nat
  {
    if a <= b then a else b
  }

  /** The file, as the `onload` callback sees it: its name, its text, and what `JSON.parse` makes of the text. */
  datatype SelectedFile = SelectedFile(name: string, text: string, parsed: ParseOutcome)

  /** The preview a successful validation stores in `previewData`. */
  datatype Preview = JsonItems(items: seq<JsonValue>) | CsvPreviewRows(rows: seq<Row>)

  /** The CSV branch of `validateFile`. */
  function CsvPreview(content: string): Result<seq<Row>, string>
  {
    var lines := Split(content, '\n');
    if |lines| < 2 then Failure(CsvTooShort)
    else Success(RowsOf(Split(lines[0], ','), lines[1..Min(PreviewLines + 1, |lines|)]))
  }

  /**
   * The JSON branch of `validateFile`: a parse error is passed on, a value
   * that is not an array and an empty array are refused, and any other array
   * is the preview in full. The elements are not inspected.
   */
  function JsonPreview(parsed: ParseOutcome): (r: Result<seq<JsonValue>, string>)
    ensures r.Success? <==> parsed.Parsed? && IsArray(parsed.value) && |parsed.value.items| > 0
    ensures r.Success? ==> r.value == parsed.value.items
    ensures parsed.ParseError? ==> r == Failure(parsed.message)
    ensures parsed.Parsed? && !IsArray(parsed.value) ==> r == Failure(NotAnArray)
    ensures parsed == Parsed(JArray([])) ==> r == Failure(EmptyArray)
  {
    match parsed
    case ParseError(message) => Failure(message)
    case Parsed(value) =>
      if !IsArray(value) then Failure(NotAnArray)
      else if |value.items| == 0 then Failure(EmptyArray)
      else Success(value.items)
  }

  /** The verdict of `validateFile` for a file: the preview, or the message of the error thrown. */
  function Validate(f: SelectedFile): Result<Preview, string>
  {
    if ValidationFormat(f.name) == Json then
      match JsonPreview(f.parsed)
      case Success(items) => Success(JsonItems(items))
      case Failure(e) => Failure(e)
    else
      match CsvPreview(f.text)
      case Success(rows) => Success(CsvPreviewRows(rows))
      case Failure(e) => Failure(e)
  }

  /**
   * CSV content is refused, with the message "CSV must have headers and at
   * least one row", exactly when it holds no newline; a header line followed
   * by a newline is accepted.
   */
  lemma CsvRejectedIffNoNewline(content: string)
    ensures CsvPreview(content).Failure? <==> '\n' !in content
    ensures CsvPreview(content).Failure? ==> CsvPreview(content).error == CsvTooShort
  {
  }

  /**
   * For content made of a header line and data lines joined by newlines, the
   * preview holds the rows of the first ten data lines, in file order, each
   * zipped with the fields of the header line.
   */
  lemma {:induction false} CsvPreviewOfLines(header: string, data: seq<string>)
    requires |data| >= 1
    requires '\n' !in header
    requires forall i :: 0 <= i < |data| ==> '\n' !in data[i]
    ensures CsvPreview(Join([header] + data, '\n'))
      == Success(RowsOf(Split(header, ','), data[..Min(PreviewLines, |data|)]))
  {
    var lines := [header] + data;
    forall i | 0 <= i < |lines| ensures '\n' !in lines[i] {
      if i > 0 { assert lines[i] == data[i - 1]; }
    }
    SplitJoin(lines, '\n');
    assert lines[1..Min(PreviewLines + 1, |lines|)] == data[..Min(PreviewLines, |data|)];
  }

  /** The preview never holds more than ten rows, and holds one per newline up to that. */
  lemma CsvPreviewSize(content: string)
    requires CsvPreview(content).Success?
    ensures |CsvPreview(content).value| == Min(PreviewLines, Count(content, '\n'))
  {
  }

  /**
   * A header line with a trailing newline and nothing else is accepted, with
   * a single preview row whose every value is the empty string.
   */
  lemma HeaderWithTrailingNewline(header: string)
    requires '\n' !in header
    ensures CsvPreview(header + "\n").Success?
    ensures |CsvPreview(header + "\n").value| == 1
    ensures forall key :: key in CsvPreview(header + "\n").value[0] ==> CsvPreview(header + "\n").value[0][key] == ""
  {
    assert Join([header] + [""], '\n') == header + "\n";
    CsvPreviewOfLines(header, [""]);
    EmptyLineRow(Split(header, ','));
  }

  /** A JSON array is accepted whatever its elements are, objects or not. */
  lemma JsonElementsNotChecked(name: string, text: string, items: seq<JsonValue>)
    requires EndsWith(name, ".json")
    requires |items| > 0
    ensures Validate(SelectedFile(name, text, Parsed(JArray(items)))) == Success(JsonItems(items))
  {
  }

  /**
   * The suffix test picks the branch: only a `.json` name gets a JSON
   * preview, and its verdict ignores the text; any other name is judged on
   * its text alone, refused exactly when the text holds no newline.
   */
  lemma ValidateFollowsSuffix(f: SelectedFile, otherText: string, otherParse: ParseOutcome)
    ensures Validate(f).Success? ==> (Validate(f).value.JsonItems? <==> EndsWith(f.name, ".json"))
    ensures EndsWith(f.name, ".json") ==> Validate(f) == Validate(f.(text := otherText))
    ensures !EndsWith(f.name, ".json") ==> Validate(f) == Validate(f.(parsed := otherParse))
    ensures !EndsWith(f.name, ".json") ==> (Validate(f).Failure? <==> '\n' !in f.text)
    ensures !EndsWith(f.name, ".json") && Validate(f).Failure? ==> Validate(f).error == CsvTooShort
  {
    CsvRejectedIffNoNewline(f.text);
  }

  /**
   * A file named `data.csv` holding `a,b\n1,2\n3,4` is valid, with the
   * two-row preview `[{a: "1", b: "2"}, {a: "3", b: "4"}]`.
   */
  lemma CsvEndToEndExample(parsed: ParseOutcome)
    ensures Validate(SelectedFile("data.csv", "a,b\n1,2\n3,4", parsed))
      == Success(CsvPreviewRows([map["a" := "1", "b" := "2"], map["a" := "3", "b" := "4"]]))
  {
    var content := "a,b\n1,2\n3,4";
    assert ValidationFormat("data.csv") == Csv by {
      assert "data.csv"[3..] != ".json";
    }
    ExamplePreview();
  }

  lemma ExamplePreview()
    ensures CsvPreview("a,b\n1,2\n3,4") == Success([map["a" := "1", "b" := "2"], map["a" := "3", "b" := "4"]])
  {
    var data := ["1,2", "3,4"];
    assert CsvPreview("a,b\n1,2\n3,4") == Success(RowsOf(Split("a,b", ','), data)) by {
      assert ["a,b"] + data == ["a,b", "1,2", "3,4"];
      ExampleLines();
      CsvPreviewOfLines("a,b", data);
      assert data[..Min(PreviewLines, |data|)] == data;
    }
    ExampleRows();
  }

  lemma ExampleRows()
    ensures RowsOf(Split("a,b", ','), ["1,2", "3,4"]) == [map["a" := "1", "b" := "2"], map["a" := "3", "b" := "4"]]
  {
    var rows := RowsOf(Split("a,b", ','), ["1,2", "3,4"]);
    assert rows[0] == map["a" := "1", "b" := "2"] by {
      PairRow('a', 'b', '1', '2');
    }
    assert rows[1] == map["a" := "3", "b" := "4"] by {
      PairRow('a', 'b', '3', '4');
    }
    assert |rows| == 2 && rows == [rows[0], rows[1]];
  }

  lemma ExampleLines()
    ensures Join(["a,b", "1,2", "3,4"], '\n') == "a,b\n1,2\n3,4"
  {
    var lines := ["a,b", "1,2", "3,4"];
    assert lines[1..][1..] == ["3,4"];
    assert Join(lines[1..], '\n') == "1,2" + "\n" + "3,4";
  }

  /** The row of a two-field line under a two-field header, for one-character names and fields. */
  lemma PairRow(h1: char, h2: char, v1: char, v2: char)
    requires h1 != h2 && !IsWhiteSpace(h1) && !IsWhiteSpace(h2) && !IsWhiteSpace(v1) && !IsWhiteSpace(v2)
    requires h1 != ',' && h2 != ',' && v1 != ',' && v2 != ','
    ensures LineRow(Split([h1, ',', h2], ','), [v1, ',', v2]) == map[[h1] := [v1], [h2] := [v2]]
  {
    SplitNoSeparator([h2], ',');
    SplitAppend([h1], [h2], ',');
    assert [h1, ',', h2] == [h1] + [','] + [h2];
    SplitNoSeparator([v2], ',');
    SplitAppend([v1], [v2], ',');
    assert [v1, ',', v2] == [v1] + [','] + [v2];
    var headers, values := [[h1], [h2]], [[v1], [v2]];
    assert Split([h1, ',', h2], ',') == headers;
    assert Split([v1, ',', v2], ',') == values;
    SingleTrim(h1);
    SingleTrim(h2);
    SingleTrim(v1);
    SingleTrim(v2);
    assert |ProtoKey| == 9;
    assert FieldAt(values, 0) == [v1] && FieldAt(values, 1) == [v2];
    assert RowUpTo(headers, values, 1) == map[[h1] := [v1]];
    assert RowUpTo(headers, values, 2) == map[[h1] := [v1]][[h2] := [v2]];
  }

  lemma SingleTrim(c: char)
    requires !IsWhiteSpace(c)
    ensures Trim([c]) == [c]
  {
    assert TrimStart([c]) == [c];
    assert TrimEnd([c]) == [c];
  }
}
