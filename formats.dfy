/**
 * Format dispatch by file-name suffix. App.jsx decides the format twice, with
 * two different tests: validation asks whether the name ends in `.json`,
 * while the endpoint and the download name ask whether it ends in `.csv`.
 */
module Formats {
  import opened JsStrings

  datatype Format = Csv | Json

  /** The format `validateFile` checks the content against: `.json` is JSON, anything else CSV. */
  function ValidationFormat(name: string): (f: Format)
    ensures f == Json <==> EndsWith(name, ".json")
  {
    if EndsWith(name, ".json") then Json else Csv
  }

  /** The format `handleConvert` and `handleDownload` take the file to be in: `.csv` is CSV, anything else JSON. */
  function SourceFormat(name: string): (f: Format)
    ensures f == Csv <==> EndsWith(name, ".csv")
  {
    if EndsWith(name, ".csv") then Csv else Json
  }

  /** No name ends in both suffixes. */
  lemma SuffixesExclusive(name: string)
    ensures !(EndsWith(name, ".json") && EndsWith(name, ".csv"))
  {
    if EndsWith(name, ".json") {
      assert name[|name| - 1] == ".json"[4] == 'n';
      assert ".csv"[3] == 'v';
    }
  }

  /**
   * The two tests agree exactly on the names that end in `.json` or `.csv`;
   * every other name is validated as CSV but converted as JSON.
   */
  lemma FormatsAgreeIff(name: string)
    ensures ValidationFormat(name) == SourceFormat(name) <==> EndsWith(name, ".json") || EndsWith(name, ".csv")
    ensures !EndsWith(name, ".json") && !EndsWith(name, ".csv") ==>
      ValidationFormat(name) == Csv && SourceFormat(name) == Json
  {
    SuffixesExclusive(name);
  }

  /** `x.txt` is validated as CSV and sent to the json-to-csv endpoint; so is `report.CSV`, the match being case-sensitive. */
  lemma MismatchExamples()
    ensures ValidationFormat("x.txt") == Csv && SourceFormat("x.txt") == Json
    ensures ValidationFormat("report.CSV") == Csv && SourceFormat("report.CSV") == Json
  {
    assert "x.txt"[1..] != ".json" && "x.txt"[1..] != ".csv";
    assert "report.CSV"[5..] != ".json" && "report.CSV"[6..] != ".csv";
  }

  datatype Endpoint = CsvToJson | JsonToCsv

  /** The conversion endpoint chosen for a file name. */
  function EndpointFor(name: string): (e: Endpoint)
    ensures e == CsvToJson <==> EndsWith(name, ".csv")
  {
    if SourceFormat(name) == Csv then CsvToJson else JsonToCsv
  }

  /** `converted.json` for a `.csv` file, `converted.csv` for any other name. */
  function DownloadName(name: string): (d: string)
    ensures d == "converted.json" <==> EndsWith(name, ".csv")
    ensures d == "converted.csv" <==> !EndsWith(name, ".csv")
  {
    "converted." + (if EndsWith(name, ".csv") then "json" else "csv")
  }
}
