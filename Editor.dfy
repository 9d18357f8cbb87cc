/**
 * The `CSVEditor` component's state and event handlers: `headers` and
 * `data` become fields of a class, and each handler a method that
 * replaces them as the corresponding `setHeaders`/`setData` calls do.
 */
module Editor {
  import opened Wrappers
  import opened Text
  import opened Csv

  /**
   * The `headers.reduce` that builds one row object from a line's fields,
   * assigning one key per header in order: it builds exactly `RowOf`.
   */
  method BuildRow(hs: seq<string>, values: seq<string>) returns (row: Row)
    ensures row == RowOf(hs, values)
  {
    row := map[];
    var i := 0;
    while i < |hs|
      invariant 0 <= i <= |hs|
      invariant row == RowOf(hs[..i], values)
    {
      RowOfExtend(hs, values, i);
      row := row[hs[i] := Field(values, i)];
      i := i + 1;
    }
    assert hs[..i] == hs;
  }

  /** Every header is a key of the row (its value may be `undefined`). */
  predicate Covers(hs: seq<string>, row: Row)
  {
    forall h :: h in hs ==> h in row
  }

  class CsvEditor {
    var headers: seq<string>
    var data: seq<Row>

    /** Every row has a key for every header. */
    predicate Valid()
      reads this
    {
      forall r :: 0 <= r < |data| ==> Covers(headers, data[r])
    }

    /** The initial state: both `useState([])`. */
    constructor ()
      ensures Valid()
      ensures headers == [] && data == []
    {
      headers := [];
      data := [];
    }

    /** `reader.onload` with the file's text already read: the state becomes the parse of `text`. */
    method Load(text: string)
      modifies this
      ensures Valid()
      ensures Table(headers, data) == Parse(text)
    {
      var lines := Split(text, '\n');
      var hs := Split(lines[0], ',');
      var rows: seq<Row> := [];
      var k := 1;
      while k < |lines|
        invariant 1 <= k <= |lines|
        invariant |rows| == k - 1
        invariant forall r :: 0 <= r < k - 1 ==> rows[r] == RowOf(hs, Split(lines[r + 1], ','))
      {
        var row := BuildRow(hs, Split(lines[k], ','));
        rows := rows + [row];
        assert rows[k - 1] == RowOf(hs, Split(lines[k], ','));
        k := k + 1;
      }
      forall r | 0 <= r < |rows|
        ensures rows[r] == ParseRows(hs, lines[1..])[r]
      {
        ParseRowsAt(hs, lines[1..], r);
      }
      headers, data := hs, rows;
      assert Table(headers, data) == Parse(text);
      forall r | 0 <= r < |data|
        ensures Covers(headers, data[r])
      {
        ParseRowKeys(text, r);
      }
    }

    /**
     * `handleEdit(index, header, value)`. An index that names no row makes
     * `newData[index]` undefined and the assignment throws before `setData`:
     * `ok` is false and nothing changes. Otherwise that one cell is set and
     * every other cell and row stays as it was.
     */
    method Edit(index: int, header: string, value: string) returns (ok: bool)
      requires Valid()
      modifies this
      ensures Valid()
      ensures ok <==> 0 <= index < |old(data)|
      ensures headers == old(headers) && |data| == |old(data)|
      ensures ok ==> data[index] == old(data)[index][header := Some(value)]
      ensures forall r :: 0 <= r < |data| && r != index ==> data[r] == old(data)[r]
      ensures header !in headers ==> Serialize(Table(headers, data)) == old(Serialize(Table(headers, data)))
    {
      if !(0 <= index < |data|) {
        return false;
      }
      var newData := data;
      newData := newData[index := newData[index][header := Some(value)]];
      if header !in headers {
        SerializeIgnoresOtherKeys(headers, data, newData);
      }
      data := newData;
      ok := true;
    }

    /** `handleAddRow`: one more row, at the end, mapping every header to "". */
    method AddRow()
      requires Valid()
      modifies this
      ensures Valid()
      ensures headers == old(headers)
      ensures |data| == |old(data)| + 1 && data[..|old(data)|] == old(data)
      ensures forall h :: h in data[|old(data)|] <==> h in headers
      ensures forall h :: h in data[|old(data)|] ==> data[|old(data)|][h] == Some("")
    {
      var newRow: Row := map[];
      var i := 0;
      while i < |headers|
        invariant 0 <= i <= |headers|
        invariant forall h :: h in newRow <==> h in headers[..i]
        invariant forall h :: h in newRow ==> newRow[h] == Some("")
      {
        assert headers[..i + 1] == headers[..i] + [headers[i]];
        newRow := newRow[headers[i] := Some("")];
        i := i + 1;
      }
      assert headers[..i] == headers;
      data := data + [newRow];
    }

    /**
     * `handleDeleteRow(index)`: keeps the rows whose position is not
     * `index`, in order. An index that names no row changes nothing.
     */
    method DeleteRow(index: int)
      requires Valid()
      modifies this
      ensures Valid()
      ensures headers == old(headers)
      ensures 0 <= index < |old(data)| ==> data == old(data)[..index] + old(data)[index + 1..]
      ensures 0 <= index < |old(data)| ==>
                && |data| == |old(data)| - 1
                && forall j :: 0 <= j < |data| ==> data[j] == old(data)[if j < index then j else j + 1]
      ensures !(0 <= index < |old(data)|) ==> data == old(data)
    {
      var kept: seq<Row> := [];
      var i := 0;
      while i < |data|
        invariant 0 <= i <= |data|
        invariant !(0 <= index < i) ==> kept == data[..i]
        invariant 0 <= index < i ==> kept == data[..index] + data[index + 1..i]
        invariant forall r :: 0 <= r < |kept| ==> Covers(headers, kept[r])
      {
        if i != index {
          assert data[..i + 1] == data[..i] + [data[i]];
          assert 0 <= index < i ==> data[index + 1..i + 1] == data[index + 1..i] + [data[i]];
          kept := kept + [data[i]];
        }
        i := i + 1;
      }
      assert data[..i] == data;
      ghost var before := data;
      data := kept;
      if 0 <= index < |before| {
        forall j | 0 <= j < |data|
          ensures data[j] == before[if j < index then j else j + 1]
        {
        }
      }
    }

    /**
     * The text `handleDownload` hands to the download sink. Loaded back, a
     * delimiter-free table gives the same headers and each row cut to its
     * header columns with `undefined` read as ""; a table whose rows hold
     * exactly the headers, all defined, comes back unchanged.
     */
    method Download() returns (csv: string)
      ensures csv == Serialize(Table(headers, data))
      ensures |headers| >= 1 && CleanTable(Table(headers, data)) ==>
                && Parse(csv).headers == headers
                && |Parse(csv).rows| == |data|
                && forall r :: 0 <= r < |data| ==> Parse(csv).rows[r] == Normalize(headers, data[r])
      ensures |headers| >= 1 && CleanTable(Table(headers, data)) && Complete(Table(headers, data)) ==>
                Parse(csv) == Table(headers, data)
    {
      csv := Serialize(Table(headers, data));
      if |headers| >= 1 && CleanTable(Table(headers, data)) {
        ParseSerialize(Table(headers, data));
        if Complete(Table(headers, data)) {
          RoundTrip(Table(headers, data));
        }
      }
    }
  }
}
