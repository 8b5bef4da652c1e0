/**
 * The CSV row builder of App.jsx, used both for the input preview and for
 * the text the json-to-csv service returns: a line is split on commas and
 * its fields are zipped by position with the fields of the header line,
 * folding left over the headers into one object whose keys are the trimmed
 * header names and whose values are the trimmed fields.
 */
module CsvRows {
  import opened JsStrings

  /** A parsed row: the plain JavaScript object the reduce builds, as a map. */
  type Row = map<string, string>

  /**
   * The one key a plain object silently refuses: assigning a string to
   * `obj["__proto__"]` goes to the prototype setter, which ignores it.
   */
  const ProtoKey: string := "__proto__"

  /** The trimmed field at a position, or the empty string past the end of the line. */
  function FieldAt(values: seq<string>, index: nat): string
  {
    if index < |values| then Trim(values[index]) else ""
  }

  /** One step of the fold: store a value under a key of the object. */
  function Assign(obj: Row, key: string, value: string): Row
  {
    if key == ProtoKey then obj else obj[key := value]
  }

  /** The accumulator after the reduce has visited the first `n` headers. */
  function RowUpTo(headers: seq<string>, values: seq<string>, n: nat): Row
    requires n <= |headers|
  {
    if n == 0 then map[] else Assign(RowUpTo(headers, values, n - 1), Trim(headers[n - 1]), FieldAt(values, n - 1))
  }

  /** The object built for the fields `values` of one line, starting from an empty object. */
  function BuildRow(headers: seq<string>, values: seq<string>): Row
  {
    RowUpTo(headers, values, |headers|)
  }

  /** The row built from one line of text under the given header line. */
  function LineRow(headers: seq<string>, line: string): Row
  {
    BuildRow(headers, Split(line, ','))
  }

  /** One row per line, in order. */
  function RowsOf(headers: seq<string>, lines: seq<string>): (rows: seq<Row>)
    ensures |rows| == |lines|
    ensures forall i :: 0 <= i < |lines| ==> rows[i] == LineRow(headers, lines[i])
  {
    seq(|lines|, i requires 0 <= i < |lines| => LineRow(headers, lines[i]))
  }

  /** A header is kept under its trimmed name unless that name is `__proto__`. */
  predicate KeyOf(headers: seq<string>, i: int, key: string)
  {
    0 <= i < |headers| && Trim(headers[i]) == key && key != ProtoKey
  }

  /** No header after position `i` trims to the same name as header `i`. */
  predicate LastWithName(headers: seq<string>, i: nat, n: nat)
    requires i < n <= |headers|
  {
    forall j :: i < j < n ==> Trim(headers[j]) != Trim(headers[i])
  }

  /** The keys of the reduce's accumulator after `n` headers. */
  lemma {:induction false} RowUpToKeys(headers: seq<string>, values: seq<string>, n: nat, key: string)
    requires n <= |headers|
    ensures key in RowUpTo(headers, values, n) <==> exists i :: 0 <= i < n && KeyOf(headers, i, key)
  {
    if n > 0 {
      RowUpToKeys(headers, values, n - 1, key);
      if key in RowUpTo(headers, values, n) && key !in RowUpTo(headers, values, n - 1) {
        assert KeyOf(headers, n - 1, key);
      }
    }
  }

  /**
   * A row has exactly one key per distinct trimmed header name (bar
   * `__proto__`), and no other key.
   */
  lemma RowKeys(headers: seq<string>, values: seq<string>, key: string)
    ensures key in BuildRow(headers, values) <==> exists i :: KeyOf(headers, i, key)
  {
    RowUpToKeys(headers, values, |headers|, key);
  }

  /** The value under a header name is the field of the last header with that name. */
  lemma {:induction false} RowUpToValue(headers: seq<string>, values: seq<string>, n: nat, i: nat)
    requires i < n <= |headers|
    requires Trim(headers[i]) != ProtoKey
    requires LastWithName(headers, i, n)
    ensures Trim(headers[i]) in RowUpTo(headers, values, n)
    ensures RowUpTo(headers, values, n)[Trim(headers[i])] == FieldAt(values, i)
  {
    if i < n - 1 {
      RowUpToValue(headers, values, n - 1, i);
    }
  }

  /**
   * Each header name maps to the trimmed field at the position of the last
   * header with that name, or to `''` when the line is too short: the last
   * assignment wins.
   */
  lemma RowValue(headers: seq<string>, values: seq<string>, i: nat)
    requires i < |headers|
    requires Trim(headers[i]) != ProtoKey
    requires LastWithName(headers, i, |headers|)
    ensures Trim(headers[i]) in BuildRow(headers, values)
    ensures BuildRow(headers, values)[Trim(headers[i])] == if i < |values| then Trim(values[i]) else ""
  {
    RowUpToValue(headers, values, |headers|, i);
  }

  /** Header names that stay apart after trimming, none of them `__proto__`. */
  predicate DistinctNames(headers: seq<string>)
  {
    && (forall i, j :: 0 <= i < j < |headers| ==> Trim(headers[i]) != Trim(headers[j]))
    && (forall i :: 0 <= i < |headers| ==> Trim(headers[i]) != ProtoKey)
  }

  /** With distinct header names the row is the positional zip of headers and fields, padded with `''`. */
  lemma RowZip(headers: seq<string>, values: seq<string>)
    requires DistinctNames(headers)
    ensures |BuildRow(headers, values).Keys| == |headers|
    ensures forall i :: 0 <= i < |headers| ==>
      Trim(headers[i]) in BuildRow(headers, values) && BuildRow(headers, values)[Trim(headers[i])] == FieldAt(values, i)
  {
    forall i | 0 <= i < |headers|
      ensures Trim(headers[i]) in BuildRow(headers, values) && BuildRow(headers, values)[Trim(headers[i])] == FieldAt(values, i)
    {
      RowValue(headers, values, i);
    }
    DistinctKeyCount(headers, values, |headers|);
  }

  lemma {:induction false} DistinctKeyCount(headers: seq<string>, values: seq<string>, n: nat)
    requires n <= |headers|
    requires DistinctNames(headers)
    ensures |RowUpTo(headers, values, n).Keys| == n
  {
    if n > 0 {
      DistinctKeyCount(headers, values, n - 1);
      var key := Trim(headers[n - 1]);
      RowUpToKeys(headers, values, n - 1, key);
      assert key !in RowUpTo(headers, values, n - 1);
      assert RowUpTo(headers, values, n).Keys == RowUpTo(headers, values, n - 1).Keys + {key};
    }
  }

  /** Only the first `|headers|` trimmed fields matter: extra fields are dropped, missing ones are `''`. */
  lemma {:induction false} RowDependsOnFields(headers: seq<string>, values: seq<string>, others: seq<string>, n: nat)
    requires n <= |headers|
    requires forall i :: 0 <= i < n ==> FieldAt(values, i) == FieldAt(others, i)
    ensures RowUpTo(headers, values, n) == RowUpTo(headers, others, n)
  {
    if n > 0 {
      RowDependsOnFields(headers, values, others, n - 1);
    }
  }

  /** Fields beyond the header count are dropped. */
  lemma ExtraFieldsDropped(headers: seq<string>, values: seq<string>)
    requires |values| >= |headers|
    ensures BuildRow(headers, values) == BuildRow(headers, values[..|headers|])
  {
    RowDependsOnFields(headers, values, values[..|headers|], |headers|);
  }

  /** A short line reads as if it were padded with empty fields. */
  lemma MissingFieldsEmpty(headers: seq<string>, values: seq<string>, padding: seq<string>)
    requires forall i :: 0 <= i < |padding| ==> padding[i] == ""
    ensures BuildRow(headers, values) == BuildRow(headers, values + padding)
  {
    forall i | 0 <= i < |headers|
      ensures FieldAt(values, i) == FieldAt(values + padding, i)
    {
      if |values| <= i < |values| + |padding| {
        assert (values + padding)[i] == "";
      }
    }
    RowDependsOnFields(headers, values, values + padding, |headers|);
  }

  /** An empty line (such as the one after a trailing newline) gives a row whose every value is `''`. */
  lemma EmptyLineRow(headers: seq<string>)
    ensures forall key :: key in LineRow(headers, "") ==> LineRow(headers, "")[key] == ""
  {
    assert Split("", ',') == [""];
    assert Trim("") == "";
    forall key | key in LineRow(headers, "")
      ensures LineRow(headers, "")[key] == ""
    {
      EmptyFieldsValues(headers, [""], |headers|, key);
    }
  }

  lemma {:induction false} EmptyFieldsValues(headers: seq<string>, values: seq<string>, n: nat, key: string)
    requires n <= |headers|
    requires forall i :: 0 <= i < |values| ==> Trim(values[i]) == ""
    requires key in RowUpTo(headers, values, n)
    ensures RowUpTo(headers, values, n)[key] == ""
  {
    if key != Trim(headers[n - 1]) || key == ProtoKey {
      EmptyFieldsValues(headers, values, n - 1, key);
    }
  }

  /** Given headers `name,age` and the line `Alice`, the row is `{name: "Alice", age: ""}`. */
  lemma ShortLineExample()
    ensures LineRow(["name", "age"], "Alice") == map["name" := "Alice", "age" := ""]
  {
    assert Split("Alice", ',') == ["Alice"] by {
      SplitNoSeparator("Alice", ',');
    }
    var headers, values := ["name", "age"], ["Alice"];
    assert Trim("name") == "name" && Trim("age") == "age" && Trim("Alice") == "Alice";
    assert RowUpTo(headers, values, 1) == map["name" := "Alice"];
    assert RowUpTo(headers, values, 2) == map["name" := "Alice"]["age" := ""];
  }
}
