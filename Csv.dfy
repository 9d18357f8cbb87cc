/**
 * The table model of the CSV editor in src/pages/Index.jsx: the naive
 * parser in the `reader.onload` callback and the text built in
 * `handleDownload`. Lines are split on '\n' and fields on ',' with no
 * quoting of any kind.
 */
module Csv {
  import opened Wrappers
  import opened Text

  /**
   * A parsed row is a plain JavaScript object keyed by header name.
   * `None` is a property holding `undefined`.
   */
  type Row = map<string, Option<string>>

  /** The component's `headers` and `data` state. */
  datatype Table = Table(headers: seq<string>, rows: seq<Row>)

  /** `values[index]`: `undefined` past the end of the array. */
  function Field(values: seq<string>, i: nat): Option<string>
  {
    if i < |values| then Some(values[i]) else None
  }

  /** Position `i` holds the last occurrence of its header name. */
  predicate IsLastOccurrence(hs: seq<string>, i: nat)
    requires i < |hs|
  {
    forall j :: i < j < |hs| ==> hs[j] != hs[i]
  }

  /** No header name repeats. */
  predicate Distinct(hs: seq<string>)
  {
    forall i, j :: 0 <= i < j < |hs| ==> hs[i] != hs[j]
  }

  /** The last position at which `h` occurs in `hs`. */
  function LastIndexOf(hs: seq<string>, h: string): (k: nat)
    requires h in hs
    ensures k < |hs| && hs[k] == h
    ensures IsLastOccurrence(hs, k)
  {
    if hs[|hs| - 1] == h then |hs| - 1 else LastIndexOf(hs[..|hs| - 1], h)
  }

  /**
   * The object the row-building `reduce` produces from one line's fields,
   * stated declaratively: every header is a key, and since later writes
   * win, it holds the field at the header's last position.
   */
  function RowOf(hs: seq<string>, values: seq<string>): Row
  {
    map h | h in hs :: Field(values, LastIndexOf(hs, h))
  }

  /** The parser: the `reader.onload` body. */
  function Parse(text: string): (t: Table)
    ensures |t.headers| >= 1
    ensures |t.rows| == Occurrences(text, '\n')
  {
    var lines := Split(text, '\n');
    var hs := Split(lines[0], ',');
    Table(hs, ParseRows(hs, lines[1..]))
  }

  /** `rows.slice(1).map(...)`: one row per remaining line, in order. */
  function ParseRows(hs: seq<string>, lines: seq<string>): (rows: seq<Row>)
    ensures |rows| == |lines|
  {
    if lines == [] then [] else [RowOf(hs, Split(lines[0], ','))] + ParseRows(hs, lines[1..])
  }

  /** How `Array.prototype.join` renders a value: `undefined` as "". */
  function Render(c: Option<string>): string
  {
    match c
    case Some(s) => s
    case None => ""
  }

  /** `row[header]`: `undefined` when the row has no such key. */
  function Lookup(row: Row, h: string): Option<string>
  {
    if h in row then row[h] else None
  }

  /** `headers.map(header => row[header])`, rendered for `join`. */
  function Cells(hs: seq<string>, row: Row): seq<string>
  {
    seq(|hs|, i requires 0 <= i < |hs| => Render(Lookup(row, hs[i])))
  }

  /** The header line followed by one line per row, before the final join. */
  function Lines(t: Table): (lines: seq<string>)
    ensures |lines| == |t.rows| + 1
  {
    [Join(t.headers, ',')] + RowLines(t.headers, t.rows)
  }

  /** `data.map(row => headers.map(header => row[header]).join(','))`. */
  function RowLines(hs: seq<string>, rows: seq<Row>): (lines: seq<string>)
    ensures |lines| == |rows|
  {
    if rows == [] then [] else [Join(Cells(hs, rows[0]), ',')] + RowLines(hs, rows[1..])
  }

  /** The serializer: the `csv` expression of `handleDownload`. */
  function Serialize(t: Table): string
  {
    Join(Lines(t), '\n')
  }

  /** Neither delimiter occurs in `s`. */
  predicate Clean(s: string)
  {
    ',' !in s && '\n' !in s
  }

  /** No header and no cell that the serializer writes contains a delimiter. */
  predicate CleanTable(t: Table)
  {
    && (forall i :: 0 <= i < |t.headers| ==> Clean(t.headers[i]))
    && (forall r, i :: 0 <= r < |t.rows| && 0 <= i < |t.headers| ==> Clean(Render(Lookup(t.rows[r], t.headers[i]))))
  }

  /** What a row becomes after a serialize/parse trip: its header columns, with `undefined` read back as "". */
  function Normalize(hs: seq<string>, row: Row): Row
  {
    map h | h in hs :: Some(Render(Lookup(row, h)))
  }

  // ---------------------------------------------------------------------
  // The row-building reduce

  /** The keys of a built row are exactly the header names. */
  lemma RowOfKeys(hs: seq<string>, values: seq<string>)
    ensures forall i :: 0 <= i < |hs| ==> hs[i] in RowOf(hs, values)
    ensures forall h :: h in RowOf(hs, values) ==> h in hs
  {
  }

  /** At the last position of a header name, the row holds that position's field, or `undefined` past the line's end. */
  lemma RowOfAt(hs: seq<string>, values: seq<string>, i: nat)
    requires i < |hs| && IsLastOccurrence(hs, i)
    ensures hs[i] in RowOf(hs, values)
    ensures RowOf(hs, values)[hs[i]] == (if i < |values| then Some(values[i]) else None)
  {
  }

  /** Fields past the number of headers are ignored. */
  lemma RowOfIgnoresExtraFields(hs: seq<string>, values: seq<string>, extra: seq<string>)
    requires |hs| <= |values|
    ensures RowOf(hs, values + extra) == RowOf(hs, values)
  {
    forall h | h in hs
      ensures RowOf(hs, values + extra)[h] == RowOf(hs, values)[h]
    {
      var k := LastIndexOf(hs, h);
      assert (values + extra)[k] == values[k];
    }
  }

  /** One more step of the reduce: the next header is (over)written with its field. */
  lemma RowOfExtend(hs: seq<string>, values: seq<string>, i: nat)
    requires i < |hs|
    ensures RowOf(hs[..i + 1], values) == RowOf(hs[..i], values)[hs[i] := Field(values, i)]
  {
    var longer, shorter := hs[..i + 1], hs[..i];
    assert longer == shorter + [hs[i]];
    var a, b := RowOf(longer, values), RowOf(shorter, values)[hs[i] := Field(values, i)];
    assert a.Keys == b.Keys by {
      forall h ensures h in a <==> h in b {
        assert h in longer <==> h in shorter || h == hs[i];
      }
    }
    forall h | h in a
      ensures a[h] == b[h]
    {
      var k := LastIndexOf(longer, h);
      if h == hs[i] {
        assert k == i;
      } else {
        assert h in shorter;
        var k' := LastIndexOf(shorter, h);
        assert longer[k'] == h;
        assert k == k';
      }
    }
  }

  // ---------------------------------------------------------------------
  // The parser

  /** The headers are the comma-split of the text before the first newline. */
  lemma ParseHeaders(text: string, k: nat)
    requires k <= |text| && '\n' !in text[..k]
    requires k == |text| || text[k] == '\n'
    ensures Parse(text).headers == Split(text[..k], ',')
  {
    SplitFirst(text, '\n', k);
  }

  /**
   * Row `r` comes from line `r + 1`: at the last position of a header name
   * it holds that line's field, or `undefined` when the line is too short.
   */
  lemma ParseField(text: string, r: nat, i: nat)
    requires r < |Parse(text).rows| && i < |Parse(text).headers|
    requires IsLastOccurrence(Parse(text).headers, i)
    ensures var fields, row := Split(Split(text, '\n')[r + 1], ','), Parse(text).rows[r];
            && Parse(text).headers[i] in row
            && row[Parse(text).headers[i]] == (if i < |fields| then Some(fields[i]) else None)
  {
    var lines := Split(text, '\n');
    var fields := Split(lines[r + 1], ',');
    ParsedRow(text, r);
    RowOfAt(Parse(text).headers, fields, i);
  }

  /** Empty input gives one header with the empty name and no rows. */
  lemma ParseEmpty()
    ensures Parse("") == Table([""], [])
  {
    assert Split("", ',') == [""];
  }

  /** Every parsed row has exactly the headers as its keys. */
  lemma ParseRowKeys(text: string, r: nat)
    requires r < |Parse(text).rows|
    ensures forall i :: 0 <= i < |Parse(text).headers| ==> Parse(text).headers[i] in Parse(text).rows[r]
    ensures forall h :: h in Parse(text).rows[r] ==> h in Parse(text).headers
  {
    ParsedRow(text, r);
    RowOfKeys(Parse(text).headers, Split(Split(text, '\n')[r + 1], ','));
  }

  /** Row `r` is the reduce applied to the fields of line `r + 1`. */
  lemma ParsedRow(text: string, r: nat)
    requires r < |Parse(text).rows|
    ensures Parse(text).rows[r] == RowOf(Parse(text).headers, Split(Split(text, '\n')[r + 1], ','))
  {
    var lines := Split(text, '\n');
    ParseRowsAt(Parse(text).headers, lines[1..], r);
  }

  /** The `map` keeps the lines' order: element `r` comes from line `r`. */
  lemma {:induction false} ParseRowsAt(hs: seq<string>, lines: seq<string>, r: nat)
    requires r < |lines|
    ensures ParseRows(hs, lines)[r] == RowOf(hs, Split(lines[r], ','))
  {
    if r > 0 {
      ParseRowsAt(hs, lines[1..], r - 1);
    }
  }

  /**
   * A trailing newline adds one more row, built from the single empty
   * field after it: the first header maps to "" unless its name occurs
   * again later; every header whose last position is not 0 is `undefined`.
   */
  lemma ParseTrailingNewline(text: string)
    ensures var t, t' := Parse(text), Parse(text + "\n");
            && t'.headers == t.headers
            && |t'.rows| == |t.rows| + 1
            && t'.rows[..|t.rows|] == t.rows
            && forall i :: 0 <= i < |t.headers| && IsLastOccurrence(t.headers, i) ==>
                 t.headers[i] in t'.rows[|t.rows|] &&
                 t'.rows[|t.rows|][t.headers[i]] == (if i == 0 then Some("") else None)
  {
    var t, t' := Parse(text), Parse(text + "\n");
    var lines := Split(text, '\n');
    assert text + "\n" == text + ['\n'] + "";
    SplitAround(text, "", '\n');
    assert Split("", '\n') == [""];
    var lines' := Split(text + "\n", '\n');
    assert lines' == lines + [""];
    assert lines'[0] == lines[0];
    assert lines'[1..] == lines[1..] + [""];
    ParseRowsSnoc(t.headers, lines[1..], "");
    assert Split("", ',') == [""];
    forall i | 0 <= i < |t.headers| && IsLastOccurrence(t.headers, i)
      ensures t.headers[i] in t'.rows[|t.rows|]
      ensures t'.rows[|t.rows|][t.headers[i]] == (if i == 0 then Some("") else None)
    {
      RowOfAt(t.headers, [""], i);
    }
  }

  /** One more line at the end adds one more row at the end. */
  lemma {:induction false} ParseRowsSnoc(hs: seq<string>, lines: seq<string>, line: string)
    ensures ParseRows(hs, lines + [line]) == ParseRows(hs, lines) + [RowOf(hs, Split(line, ','))]
  {
    if lines != [] {
      assert (lines + [line])[1..] == lines[1..] + [line];
      ParseRowsSnoc(hs, lines[1..], line);
    } else {
      assert lines + [line] == [line];
    }
  }

  // ---------------------------------------------------------------------
  // The serializer

  /** Line `r + 1` of the output is row `r`'s cells joined by ','. */
  lemma {:induction false} RowLinesAt(hs: seq<string>, rows: seq<Row>, r: nat)
    requires r < |rows|
    ensures RowLines(hs, rows)[r] == Join(Cells(hs, rows[r]), ',')
  {
    if r > 0 {
      RowLinesAt(hs, rows[1..], r - 1);
    }
  }

  /** No line the serializer writes contains '\n' when the table is clean. */
  lemma LinesClean(t: Table)
    requires CleanTable(t)
    ensures forall k :: 0 <= k < |Lines(t)| ==> '\n' !in Lines(t)[k]
  {
    forall k | 0 <= k < |Lines(t)|
      ensures '\n' !in Lines(t)[k]
    {
      if k == 0 {
        JoinAvoids(t.headers, ',', '\n');
      } else {
        assert Lines(t)[k] == RowLines(t.headers, t.rows)[k - 1];
        RowLinesAt(t.headers, t.rows, k - 1);
        JoinAvoids(Cells(t.headers, t.rows[k - 1]), ',', '\n');
      }
    }
  }

  /**
   * The output has one line per row plus the header line; the header line
   * is the headers joined by ','; and field `i` of line `r + 1` is row `r`'s
   * value under header `i`, with `undefined` written as "".
   */
  lemma SerializeFields(t: Table, r: nat, i: nat)
    requires CleanTable(t)
    requires r < |t.rows| && i < |t.headers|
    ensures var lines := Split(Serialize(t), '\n');
            && |lines| == |t.rows| + 1
            && lines[0] == Join(t.headers, ',')
            && |Split(lines[r + 1], ',')| == |t.headers|
            && Split(lines[r + 1], ',')[i] == Render(Lookup(t.rows[r], t.headers[i]))
  {
    LinesClean(t);
    SplitJoin(Lines(t), '\n');
    RowLinesAt(t.headers, t.rows, r);
    var cells := Cells(t.headers, t.rows[r]);
    SplitJoin(cells, ',');
  }

  /** Keys that are not headers never reach the output. */
  lemma SerializeIgnoresOtherKeys(hs: seq<string>, rows: seq<Row>, rows': seq<Row>)
    requires |rows| == |rows'|
    requires forall r, h :: 0 <= r < |rows| && h in hs ==> Lookup(rows[r], h) == Lookup(rows'[r], h)
    ensures Serialize(Table(hs, rows)) == Serialize(Table(hs, rows'))
  {
    forall r | 0 <= r < |rows|
      ensures RowLines(hs, rows)[r] == RowLines(hs, rows')[r]
    {
      forall i | 0 <= i < |hs|
        ensures Lookup(rows[r], hs[i]) == Lookup(rows'[r], hs[i])
      {
        assert hs[i] in hs;
      }
      assert Cells(hs, rows[r]) == Cells(hs, rows'[r]);
      RowLinesAt(hs, rows, r);
      RowLinesAt(hs, rows', r);
    }
    assert RowLines(hs, rows) == RowLines(hs, rows');
  }

  // ---------------------------------------------------------------------
  // Round trips

  /** Building a row from the cells the serializer writes gives the row cut to its header keys. */
  lemma RowOfCells(hs: seq<string>, row: Row)
    ensures RowOf(hs, Cells(hs, row)) == Normalize(hs, row)
  {
  }

  /**
   * Parsing serialized text gives back the same headers and the same rows
   * in the same order, each cut down to its header columns with
   * `undefined` read back as "", whenever there is a header and no header
   * or cell holds ',' or '\n'. Repeated header names do no harm: a row
   * holds one value per name and the serializer writes it at every position.
   */
  lemma {:induction false} ParseSerialize(t: Table)
    requires |t.headers| >= 1 && CleanTable(t)
    ensures Parse(Serialize(t)) ==
            Table(t.headers, seq(|t.rows|, r requires 0 <= r < |t.rows| => Normalize(t.headers, t.rows[r])))
  {
    LinesClean(t);
    SplitJoin(Lines(t), '\n');
    var lines := Split(Serialize(t), '\n');
    assert lines == Lines(t);
    SplitJoin(t.headers, ',');
    var p := Parse(Serialize(t));
    assert p.headers == t.headers;
    forall r | 0 <= r < |t.rows|
      ensures p.rows[r] == Normalize(t.headers, t.rows[r])
    {
      var cells := Cells(t.headers, t.rows[r]);
      SplitJoin(cells, ',');
      RowLinesAt(t.headers, t.rows, r);
      assert lines[r + 1] == Join(cells, ',');
      ParsedRow(Serialize(t), r);
      RowOfCells(t.headers, t.rows[r]);
    }
  }

  /** A table whose rows have exactly the header keys, all defined. */
  predicate Complete(t: Table)
  {
    forall r :: 0 <= r < |t.rows| ==>
      && (forall h :: h in t.headers ==> h in t.rows[r])
      && (forall h :: h in t.rows[r] ==> h in t.headers && t.rows[r][h].Some?)
  }

  /** For a complete, delimiter-free table with a header, serializing and parsing is the identity. */
  lemma RoundTrip(t: Table)
    requires |t.headers| >= 1 && CleanTable(t) && Complete(t)
    ensures Parse(Serialize(t)) == t
  {
    ParseSerialize(t);
    forall r | 0 <= r < |t.rows|
      ensures Normalize(t.headers, t.rows[r]) == t.rows[r]
    {
      var row := t.rows[r];
      assert Normalize(t.headers, row).Keys == row.Keys;
    }
  }

  /**
   * Serializing parsed text reproduces the text exactly when the headers
   * are distinct and every later line has exactly one field per header.
   */
  lemma SerializeParse(text: string)
    requires var lines := Split(text, '\n');
             var hs := Split(lines[0], ',');
             Distinct(hs) && forall k :: 1 <= k < |lines| ==> |Split(lines[k], ',')| == |hs|
    ensures Serialize(Parse(text)) == text
  {
    var t := Parse(text);
    var lines := Split(text, '\n');
    assert |Lines(t)| == |lines|;
    JoinSplit(lines[0], ',');
    assert Lines(t)[0] == lines[0];
    forall k | 1 <= k < |lines|
      ensures Lines(t)[k] == lines[k]
    {
      SerializedLine(text, k);
    }
    assert Lines(t) == lines;
    JoinSplit(text, '\n');
  }

  /** A parsed line with one field per distinct header is written back unchanged. */
  lemma SerializedLine(text: string, k: nat)
    requires 1 <= k < |Split(text, '\n')|
    requires Distinct(Parse(text).headers)
    requires |Split(Split(text, '\n')[k], ',')| == |Parse(text).headers|
    ensures Lines(Parse(text))[k] == Split(text, '\n')[k]
  {
    var t := Parse(text);
    ParsedRow(text, k - 1);
    RowLinesAt(t.headers, t.rows, k - 1);
    LineOfRowOf(t.headers, Split(text, '\n')[k]);
  }

  /** A line with one field per distinct header, parsed into a row and serialized, is itself. */
  lemma LineOfRowOf(hs: seq<string>, line: string)
    requires Distinct(hs) && |Split(line, ',')| == |hs|
    ensures Join(Cells(hs, RowOf(hs, Split(line, ','))), ',') == line
  {
    CellsOfRowOf(hs, Split(line, ','));
    JoinSplit(line, ',');
  }

  /** With distinct headers and one field per header, the serializer writes the line's fields back in order. */
  lemma CellsOfRowOf(hs: seq<string>, fields: seq<string>)
    requires Distinct(hs) && |fields| == |hs|
    ensures Cells(hs, RowOf(hs, fields)) == fields
  {
    forall i | 0 <= i < |hs|
      ensures Cells(hs, RowOf(hs, fields))[i] == fields[i]
    {
      RowOfAt(hs, fields, i);
    }
  }
}
