/** The body of load_csv: each CSV row, as csv.DictReader hands it over, becomes
    one record, with measurement, year and text columns coerced and missing
    values normalised. Opening and splitting the file are not modelled: the
    rows arrive already split, or the file is reported as not found. */
module Loader {
  import opened Text
  import opened Records

  /** A DictReader row: (header, cell) pairs in header order. The header is
      None for the extra cells of an over-long row, and the cell is None for
      the missing cells of a short one. */
  type Row = seq<(Option<string>, Option<string>)>

  /** A row is a dict, so no header occurs twice in it. */
  ghost predicate UniqueKeys(row: Row) {
    forall i, j :: 0 <= i < j < |row| ==> row[i].0 != row[j].0
  }

  /** Python's float() and int() on cell text; None is the ValueError they raise. */
  datatype Parsers = Parsers(toFloat: string -> Option<real>, toInt: string -> Option<int>)

  /** The ValueError of a cell that float() or int() rejects. */
  datatype LoadError = ParseError(column: string, text: string)

  datatype Result<T> = Ok(value: T) | Err(error: LoadError)

  /** What opening the file gives: FileNotFoundError, or its rows. */
  datatype Source = NotFound(path: string) | Opened(rows: seq<Row>)

  /** Columns whose header is '' (a spreadsheet's index column) or None are skipped. */
  predicate Kept(key: Option<string>) {
    key.Some? && key.value != ""
  }

  /** The missing test for measurements and year:
      not (value and value.strip() and value.strip().upper() != 'NA'). */
  predicate NumberMissing(v: Option<string>) {
    v.None? || v.value == "" || Strip(v.value) == "" || Upper(Strip(v.value)) == "NA"
  }

  /** The missing test for text columns: not (value and value.strip().upper() != 'NA').
      Unlike NumberMissing it does not treat whitespace-only text as missing. */
  predicate TextMissing(v: Option<string>) {
    v.None? || v.value == "" || Upper(Strip(v.value)) == "NA"
  }

  /** The value one cell is stored as under a kept column. */
  function CoerceCell(key: string, v: Option<string>, parse: Parsers): Result<Value> {
    if key in MeasurementColumns then
      if NumberMissing(v) then Ok(Null)
      else match parse.toFloat(v.value)
        case Some(x) => Ok(Float(x))
        case None => Err(ParseError(key, v.value))
    else if key == YearColumn then
      if NumberMissing(v) then Ok(Null)
      else match parse.toInt(v.value)
        case Some(n) => Ok(Int(n))
        case None => Err(ParseError(key, v.value))
    else if TextMissing(v) then Ok(Str(""))
    else Ok(Str(v.value))
  }

  /** The headers a row's record has. */
  ghost function KeptKeys(row: Row): set<string> {
    set i | 0 <= i < |row| && Kept(row[i].0) :: row[i].0.value
  }

  /** Every kept cell of the row coerces without a ValueError. */
  ghost predicate Convertible(row: Row, parse: Parsers) {
    forall i :: 0 <= i < |row| && Kept(row[i].0) ==> CoerceCell(row[i].0.value, row[i].1, parse).Ok?
  }

  /** rec is the record of row: exactly its kept headers, each holding its coerced cell. */
  ghost predicate Converted(row: Row, parse: Parsers, rec: Record) {
    && rec.Keys == KeptKeys(row)
    && forall i :: 0 <= i < |row| && Kept(row[i].0) ==>
         CoerceCell(row[i].0.value, row[i].1, parse) == Ok(rec[row[i].0.value])
  }

  /** e is the error of the first kept cell of the row that does not coerce. */
  ghost predicate FailsWith(row: Row, parse: Parsers, e: LoadError) {
    exists i :: 0 <= i < |row| && Kept(row[i].0)
      && CoerceCell(row[i].0.value, row[i].1, parse) == Err(e)
      && forall j :: 0 <= j < i && Kept(row[j].0) ==> CoerceCell(row[j].0.value, row[j].1, parse).Ok?
  }

  /** One more cell adds its header to the record's headers exactly when it is kept. */
  lemma KeptKeysSnoc(row: Row, i: nat)
    requires i < |row|
    ensures KeptKeys(row[..i + 1]) == KeptKeys(row[..i]) + (if Kept(row[i].0) then {row[i].0.value} else {})
  {
    assert forall j :: 0 <= j < i ==> row[..i + 1][j] == row[..i][j];
  }

  /** The loop over row.items() building one penguin dict. */
  method ConvertRow(row: Row, parse: Parsers) returns (r: Result<Record>)
    requires UniqueKeys(row)
    ensures r.Ok? <==> Convertible(row, parse)
    ensures r.Ok? ==> Converted(row, parse, r.value)
    ensures r.Err? ==> FailsWith(row, parse, r.error)
  {
    var penguin: Record := map[];
    var i := 0;
    while i < |row|
      invariant 0 <= i <= |row|
      invariant penguin.Keys == KeptKeys(row[..i])
      invariant forall j :: 0 <= j < i && Kept(row[j].0) ==>
                  CoerceCell(row[j].0.value, row[j].1, parse) == Ok(penguin[row[j].0.value])
    {
      var (key, value) := row[i];
      if Kept(key) {
        var cell := CoerceCell(key.value, value, parse);
        if cell.Err? {
          return Err(cell.error);
        }
        penguin := penguin[key.value := cell.value];
      }
      KeptKeysSnoc(row, i);
      i := i + 1;
    }
    assert row[..i] == row;
    r := Ok(penguin);
  }

  /** load_csv: one record per row, in row order; a missing file gives no
      records, and a cell that float() or int() rejects aborts the load. */
  method LoadCsv(source: Source, parse: Parsers) returns (r: Result<seq<Record>>)
    requires source.Opened? ==> forall i :: 0 <= i < |source.rows| ==> UniqueKeys(source.rows[i])
    ensures source.NotFound? ==> r == Ok([])
    ensures source.Opened? ==>
      (r.Ok? <==> forall i :: 0 <= i < |source.rows| ==> Convertible(source.rows[i], parse))
    ensures source.Opened? && r.Ok? ==>
      && |r.value| == |source.rows|
      && forall i :: 0 <= i < |source.rows| ==> Converted(source.rows[i], parse, r.value[i])
    ensures source.Opened? && r.Err? ==>
      exists i :: 0 <= i < |source.rows| && FailsWith(source.rows[i], parse, r.error)
        && forall j :: 0 <= j < i ==> Convertible(source.rows[j], parse)
  {
    if source.NotFound? {
      return Ok([]);
    }
    var rows := source.rows;
    var penguins: seq<Record> := [];
    var i := 0;
    while i < |rows|
      invariant 0 <= i <= |rows|
      invariant |penguins| == i
      invariant forall j :: 0 <= j < i ==> Convertible(rows[j], parse)
      invariant forall j :: 0 <= j < i ==> Converted(rows[j], parse, penguins[j])
    {
      var penguin := ConvertRow(rows[i], parse);
      if penguin.Err? {
        assert FailsWith(rows[i], parse, penguin.error);
        return Err(penguin.error);
      }
      assert Converted(rows[i], parse, penguin.value);
      penguins := penguins + [penguin.value];
      assert forall j :: 0 <= j < i + 1 ==> Converted(rows[j], parse, penguins[j]) by {
        forall j | 0 <= j < i + 1 ensures Converted(rows[j], parse, penguins[j]) {
          if j < i {
            assert penguins[j] == penguins[..i][j];
          }
        }
      }
      i := i + 1;
    }
    r := Ok(penguins);
  }

  /** A loaded record holds text under every text column, float or None under
      every measurement column and int or None under year. */
  lemma ConvertedIsWellTyped(row: Row, parse: Parsers, rec: Record)
    requires Converted(row, parse, rec)
    ensures WellTyped(rec)
  {
    forall k | k in rec
      ensures if k in MeasurementColumns then rec[k].Float? || rec[k].Null?
              else if k == YearColumn then rec[k].Int? || rec[k].Null?
              else rec[k].Str?
    {
      var i :| 0 <= i < |row| && Kept(row[i].0) && row[i].0.value == k;
      assert CoerceCell(k, row[i].1, parse) == Ok(rec[k]);
    }
  }

  /** A measurement or year cell is stored as None exactly when it is absent,
      whitespace only, or some spelling of NA once stripped. */
  lemma NumberMissingIff(key: string, v: Option<string>, parse: Parsers)
    requires key in MeasurementColumns || key == YearColumn
    ensures CoerceCell(key, v, parse) == Ok(Null) <==>
              v.None? || AllSpace(v.value) || IsNASpelling(Strip(v.value))
  {
    if v.Some? {
      StripEmptyIff(v.value);
      UpperIsNA(Strip(v.value));
    }
  }

  /** A present measurement is whatever float() makes of the unstripped cell,
      and a cell float() rejects is a ParseError naming its column and text. */
  lemma MeasurementParsed(key: string, text: string, parse: Parsers)
    requires key in MeasurementColumns
    requires !AllSpace(text) && !IsNASpelling(Strip(text))
    ensures parse.toFloat(text).Some? ==> CoerceCell(key, Some(text), parse) == Ok(Float(parse.toFloat(text).value))
    ensures parse.toFloat(text).None? ==> CoerceCell(key, Some(text), parse) == Err(ParseError(key, text))
  {
    NumberMissingIff(key, Some(text), parse);
  }

  /** A present year is whatever int() makes of the unstripped cell. */
  lemma YearParsed(text: string, parse: Parsers)
    requires !AllSpace(text) && !IsNASpelling(Strip(text))
    ensures parse.toInt(text).Some? ==> CoerceCell(YearColumn, Some(text), parse) == Ok(Int(parse.toInt(text).value))
    ensures parse.toInt(text).None? ==> CoerceCell(YearColumn, Some(text), parse) == Err(ParseError(YearColumn, text))
  {
    NumberMissingIff(YearColumn, Some(text), parse);
  }

  /** A text cell never fails; it is stored as "" exactly when it is absent,
      empty or some spelling of NA once stripped, and verbatim otherwise. */
  lemma TextCell(key: string, v: Option<string>, parse: Parsers)
    requires key !in MeasurementColumns && key != YearColumn
    ensures CoerceCell(key, v, parse).Ok?
    ensures CoerceCell(key, v, parse).value ==
              if v.None? || v.value == "" || IsNASpelling(Strip(v.value)) then Str("") else Str(v.value)
  {
    if v.Some? {
      UpperIsNA(Strip(v.value));
    }
  }

  /** Whitespace-only text is kept as it is, spaces and all (only the
      measurement and year columns treat it as missing). */
  lemma BlankTextKept(key: string, text: string, parse: Parsers)
    requires key !in MeasurementColumns && key != YearColumn
    requires text != "" && AllSpace(text)
    ensures CoerceCell(key, Some(text), parse) == Ok(Str(text))
  {
    StripEmptyIff(text);
  }
}
