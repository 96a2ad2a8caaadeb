/**
  `parseCsv`: turns the uploaded text into store records. The payload is
  trimmed and cut into lines at `\n`; the first line names the columns, every
  other line is a candidate record. A missing required column fails the whole
  parse; a malformed line is only dropped.

  `parseFloat` is a parameter, `parseNum`: `None` stands for NaN, `Some(x)` for
  any other number it returns.
 */
module CsvParser {
  import opened Wrappers
  import opened Text
  import opened Types

  const StoreIdColumn := "store-id"
  const NameColumn := "store-name"
  const TypeColumn := "store-type"
  const LatitudeColumn := "store-latitude"
  const LongitudeColumn := "store-longitude"
  const WorkingHoursColumn := "working_hours"

  /** The message of the error thrown when a required column is missing. */
  const SchemaMessage := "CSV must contain store-id, store-name, store-type, store-latitude, store-longitude, and working_hours columns."

  /** Column positions resolved from the header, and the header's number of cells. */
  datatype Columns = Columns(
    storeId: nat, name: nat, storeType: nat,
    latitude: nat, longitude: nat, workingHours: nat,
    width: nat)
  {
    predicate WellFormed() {
      storeId < width && name < width && storeType < width
      && latitude < width && longitude < width && workingHours < width
    }
  }

  /** The payload's lines: the trimmed text cut at every `\n`. */
  function Lines(csvData: string): (lines: seq<string>)
    ensures |lines| >= 1
    ensures forall k :: 0 <= k < |lines| ==> '\n' !in lines[k]
    ensures Join(lines, '\n') == Trim(csvData)
  {
    Split(Trim(csvData), '\n')
  }

  function TrimAll(cells: seq<string>): (r: seq<string>)
    ensures |r| == |cells|
    ensures forall k :: 0 <= k < |cells| ==> r[k] == Trim(cells[k])
  {
    seq(|cells|, i requires 0 <= i < |cells| => Trim(cells[i]))
  }

  /**
    The column names: the first line cut at every comma, each cell trimmed.
    By `Trim`'s contract no cell starts or ends with whitespace.
   */
  function HeaderCells(csvData: string): (cells: seq<string>)
    ensures |cells| == |Split(Lines(csvData)[0], ',')| >= 1
    ensures forall k :: 0 <= k < |cells| ==> cells[k] == Trim(Split(Lines(csvData)[0], ',')[k])
  {
    TrimAll(Split(Lines(csvData)[0], ','))
  }

  /** No header cell starts or ends with whitespace. */
  lemma HeaderCellsTrimmed(csvData: string, k: nat)
    requires k < |HeaderCells(csvData)|
    ensures var cell := HeaderCells(csvData)[k];
      cell == [] || (!IsWhitespace(cell[0]) && !IsWhitespace(cell[|cell| - 1]))
  {
    assert HeaderCells(csvData)[k] == Trim(Split(Lines(csvData)[0], ',')[k]);
  }

  /** `i` is the position where `name` first occurs in `header`. */
  predicate IsFirstIndex(header: seq<string>, name: string, i: nat) {
    i < |header| && header[i] == name && forall j :: 0 <= j < i ==> header[j] != name
  }

  predicate HasRequiredColumns(header: seq<string>) {
    StoreIdColumn in header && NameColumn in header && TypeColumn in header
    && LatitudeColumn in header && LongitudeColumn in header && WorkingHoursColumn in header
  }

  /**
    Resolves the six required columns by exact name: fails exactly when one is
    missing, and otherwise gives the first position of each and the header's width.
   */
  function ResolveColumns(header: seq<string>): (r: Option<Columns>)
    ensures r.None? <==> !HasRequiredColumns(header)
    ensures r.Some? ==> r.value.WellFormed() && r.value.width == |header|
    ensures r.Some? ==>
      IsFirstIndex(header, StoreIdColumn, r.value.storeId)
      && IsFirstIndex(header, NameColumn, r.value.name)
      && IsFirstIndex(header, TypeColumn, r.value.storeType)
      && IsFirstIndex(header, LatitudeColumn, r.value.latitude)
      && IsFirstIndex(header, LongitudeColumn, r.value.longitude)
      && IsFirstIndex(header, WorkingHoursColumn, r.value.workingHours)
  {
    var storeIdIndex := IndexOf(header, StoreIdColumn);
    var nameIndex := IndexOf(header, NameColumn);
    var typeIndex := IndexOf(header, TypeColumn);
    var latitudeIndex := IndexOf(header, LatitudeColumn);
    var longitudeIndex := IndexOf(header, LongitudeColumn);
    var workingHoursIndex := IndexOf(header, WorkingHoursColumn);
    if storeIdIndex == -1 || nameIndex == -1 || typeIndex == -1
       || latitudeIndex == -1 || longitudeIndex == -1 || workingHoursIndex == -1
    then None
    else Some(Columns(storeIdIndex, nameIndex, typeIndex,
                      latitudeIndex, longitudeIndex, workingHoursIndex, |header|))
  }

  /**
    The store type of a raw field: `supermarket` and `express` exactly when the
    trimmed, lower-cased field is that word, `default` for anything else; never
    `dark store`.
   */
  function NormaliseType(field: string): (t: StoreType)
    ensures t == Supermarket <==> ToLower(Trim(field)) == "supermarket"
    ensures t == Express <==> ToLower(Trim(field)) == "express"
    ensures t == Default <==> ToLower(Trim(field)) != "supermarket" && ToLower(Trim(field)) != "express"
    ensures t != DarkStore
  {
    var v := ToLower(Trim(field));
    if v == "supermarket" then Supermarket
    else if v == "express" then Express
    else Default
  }

  /** The case of the type field does not matter. */
  lemma NormaliseTypeIgnoresCase(a: string, b: string)
    requires ToLower(a) == ToLower(b)
    ensures NormaliseType(a) == NormaliseType(b)
  {
    TrimToLower(a);
    TrimToLower(b);
  }

  /**
    The type rule without lower-casing: `supermarket` or `express` exactly
    when the trimmed field spells that word in any ASCII case.
   */
  lemma NormaliseTypeSpelling(field: string)
    ensures NormaliseType(field) == Supermarket <==> CaselessSpelling(Trim(field), "supermarket")
    ensures NormaliseType(field) == Express <==> CaselessSpelling(Trim(field), "express")
  {
    ToLowerMatchesWord(Trim(field), "supermarket");
    ToLowerMatchesWord(Trim(field), "express");
  }

  /** Whitespace around the type field does not matter. */
  lemma NormaliseTypeIgnoresPadding(a: string)
    ensures NormaliseType(Trim(a)) == NormaliseType(a)
  {
    TrimIdempotent(a);
  }

  /** A line gives no record: its field count differs from the header's, or a coordinate is NaN. */
  predicate Rejects(cols: Columns, parseNum: string -> Option<real>, line: string)
    requires cols.WellFormed()
  {
    var values := Split(line, ',');
    |values| != cols.width
    || parseNum(values[cols.latitude]).None? || parseNum(values[cols.longitude]).None?
  }

  /**
    `store` is the record for `line`: the line has the header's field count,
    the strings are the trimmed fields at the resolved columns, the type is
    normalised, the coordinates are the parsed (non-NaN) numbers, and there is
    no cluster yet. This is `ParseLine` in relational form, field by field;
    `ParseLineAgrees` ties the two together.
   */
  predicate Describes(cols: Columns, parseNum: string -> Option<real>, line: string, store: Store)
    requires cols.WellFormed()
  {
    var values := Split(line, ',');
    |values| == cols.width
    && store.storeId == Trim(values[cols.storeId])
    && store.name == Trim(values[cols.name])
    && store.storeType == NormaliseType(values[cols.storeType])
    && parseNum(values[cols.latitude]) == Some(store.latitude)
    && parseNum(values[cols.longitude]) == Some(store.longitude)
    && store.clusterId == None
    && store.workingHours == Trim(values[cols.workingHours])
  }

  /** One data line, as the callback of `map` in `parseCsv` handles it. */
  function ParseLine(cols: Columns, parseNum: string -> Option<real>, line: string): (r: Option<Store>)
    requires cols.WellFormed()
    ensures r.Some? ==> |Split(line, ',')| == cols.width
    ensures r.Some? ==> r.value.clusterId == None && r.value.storeType != DarkStore
  {
    var values := Split(line, ',');
    if |values| != cols.width then None
    else
      var latitude := parseNum(values[cols.latitude]);
      var longitude := parseNum(values[cols.longitude]);
      if latitude.None? || longitude.None? then None
      else Some(Store(
        Trim(values[cols.storeId]),
        Trim(values[cols.name]),
        NormaliseType(values[cols.storeType]),
        latitude.value,
        longitude.value,
        None,
        Trim(values[cols.workingHours])))
  }

  /**
    `xs.map(f).filter(v => v !== null)`: the values `f` gives, in the order of
    the elements that give one.
   */
  function FilterMap<T, U>(f: T -> Option<U>, xs: seq<T>): (r: seq<U>)
    ensures |r| <= |xs|
    ensures (forall i :: 0 <= i < |xs| ==> f(xs[i]).Some?) ==> |r| == |xs|
    ensures (forall i :: 0 <= i < |xs| ==> f(xs[i]).None?) ==> r == []
    decreases |xs|
  {
    if |xs| == 0 then []
    else
      var front := FilterMap(f, xs[..|xs| - 1]);
      match f(xs[|xs| - 1])
      case None => front
      case Some(v) => front + [v]
  }

  /**
    `out` is an order-preserving selection of what `f` gives on `xs`: `kept`
    lists, in increasing order, the positions whose values make up `out`, and
    `f` gives nothing at every other position.
   */
  ghost predicate IsSelection<T, U>(f: T -> Option<U>, xs: seq<T>, out: seq<U>, kept: seq<nat>) {
    |kept| == |out|
    && (forall k :: 0 <= k < |kept| ==> kept[k] < |xs|)
    && (forall k, l :: 0 <= k < l < |kept| ==> kept[k] < kept[l])
    && (forall k :: 0 <= k < |kept| ==> f(xs[kept[k]]) == Some(out[k]))
    && (forall i :: 0 <= i < |xs| && i !in kept ==> f(xs[i]).None?)
  }

  lemma {:induction false} FilterMapSelection<T, U>(f: T -> Option<U>, xs: seq<T>)
    ensures exists kept :: IsSelection(f, xs, FilterMap(f, xs), kept)
    decreases |xs|
  {
    if |xs| == 0 {
      var none: seq<nat> := [];
      assert IsSelection(f, xs, FilterMap(f, xs), none);
    } else {
      var n := |xs| - 1;
      FilterMapSelection(f, xs[..n]);
      var kept: seq<nat> :| IsSelection(f, xs[..n], FilterMap(f, xs[..n]), kept);
      match f(xs[n])
      case None =>
        SelectionSkip(f, xs, FilterMap(f, xs[..n]), kept);
        assert IsSelection(f, xs, FilterMap(f, xs), kept);
      case Some(v) =>
        SelectionTake(f, xs, FilterMap(f, xs[..n]), kept, v);
        assert IsSelection(f, xs, FilterMap(f, xs), kept + [n]);
    }
  }

  /** A selection of a prefix stays one when the next element gives nothing. */
  lemma SelectionSkip<T, U>(f: T -> Option<U>, xs: seq<T>, out: seq<U>, kept: seq<nat>)
    requires |xs| > 0 && IsSelection(f, xs[..|xs| - 1], out, kept)
    requires f(xs[|xs| - 1]).None?
    ensures IsSelection(f, xs, out, kept)
  {
    var n := |xs| - 1;
    forall k | 0 <= k < |kept|
      ensures f(xs[kept[k]]) == Some(out[k])
    {
      assert xs[kept[k]] == xs[..n][kept[k]];
    }
    forall i | 0 <= i < |xs| && i !in kept
      ensures f(xs[i]).None?
    {
      if i < n {
        assert xs[i] == xs[..n][i];
      }
    }
  }

  /** A selection of a prefix grows by the next element's value when it gives one. */
  lemma SelectionTake<T, U>(f: T -> Option<U>, xs: seq<T>, out: seq<U>, kept: seq<nat>, v: U)
    requires |xs| > 0 && IsSelection(f, xs[..|xs| - 1], out, kept)
    requires f(xs[|xs| - 1]) == Some(v)
    ensures IsSelection(f, xs, out + [v], kept + [|xs| - 1])
  {
    var n := |xs| - 1;
    var kept' := kept + [n];
    var out' := out + [v];
    forall k | 0 <= k < |kept'|
      ensures kept'[k] < |xs| && f(xs[kept'[k]]) == Some(out'[k])
    {
      if k < |kept| {
        assert kept'[k] == kept[k] && out'[k] == out[k];
        assert xs[kept[k]] == xs[..n][kept[k]];
      }
    }
    forall k, l | 0 <= k < l < |kept'|
      ensures kept'[k] < kept'[l]
    {
      if l < |kept| {
        assert kept'[k] == kept[k] && kept'[l] == kept[l];
      } else {
        assert kept'[k] == kept[k] && kept[k] < n;
      }
    }
    forall i | 0 <= i < |xs| && i !in kept'
      ensures f(xs[i]).None?
    {
      assert i != n && i !in kept;
      assert xs[i] == xs[..n][i];
    }
  }

  /** The callback handed to `map`. */
  function LineParser(cols: Columns, parseNum: string -> Option<real>): string -> Option<Store>
    requires cols.WellFormed()
  {
    line => ParseLine(cols, parseNum, line)
  }

  /**
    `parseCsv`. Fewer than two lines give no records; otherwise a header
    without one of the six required columns is an error carrying
    `SchemaMessage`, and a header with all of them gives the records of the
    data lines.
   */
  function ParseCsv(csvData: string, parseNum: string -> Option<real>): (r: Result<seq<Store>, string>)
    ensures r.Err? ==> r.error == SchemaMessage
    ensures r.Ok? ==> |r.value| <= |Lines(csvData)| - 1
  {
    var lines := Lines(csvData);
    if |lines| < 2 then Ok([])
    else
      match ResolveColumns(HeaderCells(csvData))
      case None => Err(SchemaMessage)
      case Some(cols) => Ok(FilterMap(LineParser(cols, parseNum), lines[1..]))
  }

  /** A payload that is a single line after trimming (no `\n`) gives no records and no error. */
  lemma ShortPayloadYieldsNoRecords(csvData: string, parseNum: string -> Option<real>)
    requires '\n' !in Trim(csvData)
    ensures ParseCsv(csvData, parseNum) == Ok([])
  {
    SplitSingle(Trim(csvData), '\n');
  }

  /**
    Once there is a data line, parsing fails exactly when a required column is
    missing from the trimmed header cells; the data lines play no part.
   */
  lemma MissingColumnIsSchemaError(csvData: string, parseNum: string -> Option<real>)
    requires '\n' in Trim(csvData)
    ensures ParseCsv(csvData, parseNum).Err? <==> !HasRequiredColumns(HeaderCells(csvData))
  {
    SplitSingle(Trim(csvData), '\n');
  }

  /** `ParseLine` gives a record exactly for the lines not rejected, and that record describes its line. */
  lemma ParseLineAgrees(cols: Columns, parseNum: string -> Option<real>, line: string)
    requires cols.WellFormed()
    ensures ParseLine(cols, parseNum, line).None? <==> Rejects(cols, parseNum, line)
    ensures ParseLine(cols, parseNum, line).Some? ==>
      Describes(cols, parseNum, line, ParseLine(cols, parseNum, line).value)
  {
  }

  /**
    `IsSelection` for the callback `LineParser(cols, parseNum)`, with its
    results spelled out: `kept` lists, in increasing order, the positions of
    the lines that gave the records, each record describes its line, and every
    other line is rejected.
   */
  ghost predicate IsRecordSelection(cols: Columns, parseNum: string -> Option<real>, rows: seq<string>,
                                    out: seq<Store>, kept: seq<nat>)
    requires cols.WellFormed()
  {
    |kept| == |out|
    && (forall k :: 0 <= k < |kept| ==> kept[k] < |rows|)
    && (forall k, l :: 0 <= k < l < |kept| ==> kept[k] < kept[l])
    && (forall k :: 0 <= k < |kept| ==> Describes(cols, parseNum, rows[kept[k]], out[k]))
    && (forall i :: 0 <= i < |rows| && i !in kept ==> Rejects(cols, parseNum, rows[i]))
  }

  /** A selection made by the line callback is a selection of described and rejected lines. */
  lemma RecordSelection(cols: Columns, parseNum: string -> Option<real>, rows: seq<string>,
                        out: seq<Store>, kept: seq<nat>)
    requires cols.WellFormed()
    requires IsSelection(LineParser(cols, parseNum), rows, out, kept)
    ensures IsRecordSelection(cols, parseNum, rows, out, kept)
  {
    forall k | 0 <= k < |kept|
      ensures Describes(cols, parseNum, rows[kept[k]], out[k])
    {
      ParseLineAgrees(cols, parseNum, rows[kept[k]]);
    }
    forall i | 0 <= i < |rows| && i !in kept
      ensures Rejects(cols, parseNum, rows[i])
    {
      ParseLineAgrees(cols, parseNum, rows[i]);
    }
  }

  /**
    The records of a successful parse are an order-preserving selection of the
    data lines (all lines but the first), described field by field through the
    first header positions of the required columns; all other data lines are
    malformed or have a NaN coordinate.
   */
  lemma ParseCsvSelectsDataLines(csvData: string, parseNum: string -> Option<real>)
    requires '\n' in Trim(csvData)
    requires HasRequiredColumns(HeaderCells(csvData))
    ensures ParseCsv(csvData, parseNum).Ok?
    ensures var cols := ResolveColumns(HeaderCells(csvData)).value;
      exists kept :: IsRecordSelection(cols, parseNum, Lines(csvData)[1..], ParseCsv(csvData, parseNum).value, kept)
  {
    var cols := ResolveColumns(HeaderCells(csvData)).value;
    var rows := Lines(csvData)[1..];
    var f := LineParser(cols, parseNum);
    assert ParseCsv(csvData, parseNum) == Ok(FilterMap(f, rows)) by {
      SplitSingle(Trim(csvData), '\n');
    }
    FilterMapSelection(f, rows);
    var kept: seq<nat> :| IsSelection(f, rows, FilterMap(f, rows), kept);
    RecordSelection(cols, parseNum, rows, FilterMap(f, rows), kept);
  }

  /**
    Parsed records come out without a cluster and never with the type
    `dark store`.
   */
  lemma ParsedRecordsAreUnclustered(csvData: string, parseNum: string -> Option<real>)
    requires ParseCsv(csvData, parseNum).Ok?
    ensures forall k :: 0 <= k < |ParseCsv(csvData, parseNum).value| ==>
      ParseCsv(csvData, parseNum).value[k].clusterId == None
      && ParseCsv(csvData, parseNum).value[k].storeType != DarkStore
  {
    SplitSingle(Trim(csvData), '\n');
    if '\n' in Trim(csvData) {
      ParseCsvSelectsDataLines(csvData, parseNum);
      var cols := ResolveColumns(HeaderCells(csvData)).value;
      var out := ParseCsv(csvData, parseNum).value;
      var kept: seq<nat> :| IsRecordSelection(cols, parseNum, Lines(csvData)[1..], out, kept);
      forall k | 0 <= k < |out|
        ensures out[k].clusterId == None && out[k].storeType != DarkStore
      {
        assert Describes(cols, parseNum, Lines(csvData)[1..][kept[k]], out[k]);
      }
    }
  }
}
