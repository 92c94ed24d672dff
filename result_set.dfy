/**
 * The query result set `ds_result_set` (lib/datastruct/ds_result_set.c),
 * the older form of the record set: records are lists of C strings, lines
 * are built in `calloc`ed `char` buffers with `strcat` and `sprintf`, and
 * the text report is one buffer of `line_length * (num_records + 4) + 1`
 * bytes written one line per `line_length` bytes.
 *
 * A record is modelled by the strings its list holds, so the list of
 * records holds values; the cursor each record's own list carries is not
 * modelled.
 */
module ResultSets {
  import opened Wrappers
  import opened CStrings
  import opened CBuffers
  import opened Lists
  import opened TableFormat
  import RecordSets

  class ResultSet {
    const numFields: nat
    /** `field_lengths`: the longest field seen so far in each column. */
    const widths: array<nat>
    /** The header record, `NULL` until one is set. */
    var headers: Option<seq<CString>>
    /** The records, owned by the list (`ds_list_destructor` frees them). */
    const records: List<seq<CString>>
    /** Every row whose fields were measured, in order: each header record set and each record added. */
    ghost var Seen: seq<seq<CString>>
    ghost var Repr: set<object>

    ghost predicate Valid()
      reads this, Repr
    {
      Repr == {this, widths, records} &&
      0 < numFields && widths.Length == numFields &&
      records.Valid() && records.freeOnDelete && records.hasDestructor &&
      AllFit(widths[..], records.items) &&
      (headers.Some? ==> Fits(widths[..], headers.value))
    }

    /** The widths are exactly the longest field lengths over every row measured so far. */
    ghost predicate Measured()
      reads this, widths
    {
      (forall r :: r in Seen ==> |r| == widths.Length) &&
      (headers.Some? ==> headers.value in Seen) &&
      Tracks(widths[..], Seen)
    }

    /**
     * `ds_result_set_create`: no records, no headers and every column zero
     * wide. The source asserts `num_fields > 0`.
     */
    constructor Create(numFields: nat)
      requires 0 < numFields
      ensures Valid() && Measured() && fresh(Repr)
      ensures this.numFields == numFields && headers == None && records.items == []
      ensures widths[..] == seq(numFields, _ => 0)
    {
      this.numFields := numFields;
      headers := None;
      var list := new List<seq<CString>>.Create(true, true);
      records := list;
      var ws := new nat[numFields](_ => 0);
      widths := ws;
      Seen := [];
      Repr := {this, ws, list};
      new;
      TracksNothing(numFields);
    }

    /** `ds_result_set_destroy`: the list hands every record to its destructor, tail first. */
    method Destroy()
      requires Valid()
      modifies records
      ensures records.items == []
      ensures records.Released == old(records.Released) + ReleasesFromTail(true, true, old(records.items))
    {
      records.Destroy();
    }

    /**
     * `ds_result_set_add_record`: appends `r` and widens each column to the
     * length of its field when that is longer; returns the list of records.
     * The source asserts that `r` has `num_fields` fields.
     */
    method AddRecord(r: seq<CString>) returns (list: List<seq<CString>>)
      requires Valid() && |r| == numFields
      modifies Repr
      ensures Valid() && Repr == old(Repr) && list == records
      ensures old(Measured()) ==> Measured()
      ensures records.items == old(records.items) + [r] && headers == old(headers)
      ensures Seen == old(Seen) + [r]
      ensures Widened(old(widths[..]), widths[..], r)
    {
      records.Append(r);
      UpdateFieldLengths(r);
      WidenedFits(old(widths[..]), widths[..], r, old(records.items));
      if old(Measured()) {
        TracksAppend(old(widths[..]), widths[..], Seen, r);
      }
      Seen := Seen + [r];
      list := records;
    }

    /** `ds_result_set_num_fields`. */
    method NumFields() returns (n: nat)
      requires Valid()
      ensures n == numFields == widths.Length
    {
      n := numFields;
    }

    /** `ds_result_set_num_records`. */
    method NumRecords() returns (n: nat)
      requires Valid()
      ensures n == |records.items|
    {
      n := records.Length();
    }

    /**
     * `ds_result_set_set_headers`: makes `h` the header record and widens
     * the columns to fit it. The source asserts that `h` has `num_fields`
     * fields.
     */
    method SetHeaders(h: seq<CString>)
      requires Valid() && |h| == numFields
      modifies Repr
      ensures Valid() && Repr == old(Repr)
      ensures old(Measured()) ==> Measured()
      ensures headers == Some(h) && records.items == old(records.items) && records.cursor == old(records.cursor)
      ensures Seen == old(Seen) + [h]
      ensures Widened(old(widths[..]), widths[..], h)
    {
      headers := Some(h);
      UpdateFieldLengths(h);
      WidenedFits(old(widths[..]), widths[..], h, records.items);
      if old(Measured()) {
        TracksAppend(old(widths[..]), widths[..], Seen, h);
      }
      Seen := Seen + [h];
    }

    /** `ds_result_set_seek_start`: the next record returned is the first. */
    method SeekStart()
      requires Valid()
      modifies records
      ensures Valid() && records.items == old(records.items)
      ensures records.cursor == if records.items == [] then None else Some(0)
    {
      records.SeekStart();
    }

    /** `ds_result_set_seek_end`: the next record returned is the last. */
    method SeekEnd()
      requires Valid()
      modifies records
      ensures Valid() && records.items == old(records.items)
      ensures records.cursor == if records.items == [] then None else Some(|records.items| - 1)
    {
      records.SeekEnd();
    }

    /** `ds_result_set_get_next_data`: the current record, moving forward; `NULL` past the last. */
    method GetNextData() returns (r: Option<seq<CString>>)
      requires Valid()
      modifies records
      ensures Valid() && records.items == old(records.items)
      ensures old(records.cursor).None? ==> r == None && records.cursor == None
      ensures old(records.cursor).Some? ==>
                r == Some(records.items[old(records.cursor).value]) &&
                records.cursor == (if old(records.cursor).value + 1 < |records.items|
                                   then Some(old(records.cursor).value + 1) else None)
    {
      r := records.GetNext();
    }

    /** `ds_result_set_get_prev_data`: the current record, moving back; `NULL` past the first. */
    method GetPrevData() returns (r: Option<seq<CString>>)
      requires Valid()
      modifies records
      ensures Valid() && records.items == old(records.items)
      ensures old(records.cursor).None? ==> r == None && records.cursor == None
      ensures old(records.cursor).Some? ==>
                r == Some(records.items[old(records.cursor).value]) &&
                records.cursor == (if old(records.cursor).value > 0
                                   then Some(old(records.cursor).value - 1) else None)
    {
      r := records.GetPrev();
    }

    // ------------------------------------------------------------ insert queries

    /**
     * `ds_result_set_get_next_insert_query`: for the next record, the query
     * `INSERT INTO table (headers) VALUES (values)` in a buffer of
     * `sizeof basic_query + strlen(table) + strlen(headers) + strlen(values)`
     * bytes, or `NULL` past the last record. The header names are joined
     * unquoted and the values quoted; the source dereferences the header
     * list, so a record can be turned into a query only once headers are
     * set.
     */
    method GetNextInsertQuery(table: CString) returns (q: array?<char>)
      requires Valid() && LineSize(widths[..]) < WORD
      requires records.cursor.Some? ==> headers.Some?
      modifies records
      ensures Valid() && records.items == old(records.items)
      ensures old(records.cursor).None? ==> q == null && records.cursor == None
      ensures old(records.cursor).Some? ==>
                q != null && fresh(q) &&
                HoldsCString(q, InsertQuery(table, CsLine(headers.value, false),
                                            CsLine(records.items[old(records.cursor).value], true))) &&
                records.cursor == (if old(records.cursor).value + 1 < |records.items|
                                   then Some(old(records.cursor).value + 1) else None)
    {
      var record := GetNextData();
      if record.None? {
        return null;
      }
      var hs := CsLineFromRecord(headers.value, false);
      var vs := CsLineFromRecord(record.value, true);
      q := FormatInsertQuery(table, hs, vs, CsLine(headers.value, false), CsLine(record.value, true));
    }

    /**
     * `ds_result_set_get_cs_line_from_record`: the fields of `r` joined by
     * commas, each in single quotes when `squote` is set, written with
     * `sprintf` at an advancing pointer into a `calloc`ed buffer of the
     * total field length plus three bytes per field. The buffer is large
     * enough whenever the fields fit their columns.
     */
    method CsLineFromRecord(r: seq<CString>, squote: bool) returns (line: array<char>)
      requires 0 < numFields == widths.Length && Fits(widths[..], r) && LineSize(widths[..]) < WORD
      ensures fresh(line) && line.Length == Sum(widths[..]) + 3 * numFields
      ensures HoldsCString(line, CsLine(r, squote))
    {
      ghost var w := widths[..];
      var lineLen := TotalFieldLength();
      ModAddStep(Sum(w), numFields * 3);
      lineLen := (lineLen + numFields * 3) % WORD;
      line := new char[lineLen](_ => '\0');
      AddCsFields(line, w, r, squote);
    }

    // ------------------------------------------------------------ report

    /**
     * `ds_result_set_update_field_lengths`: walks the fields of `r` and
     * widens each column to fit its field. The walk visits exactly
     * `num_fields` fields, as the source asserts.
     */
    method UpdateFieldLengths(r: seq<CString>)
      requires widths.Length == numFields == |r|
      modifies widths
      ensures Widened(old(widths[..]), widths[..], r)
    {
      var idx := 0;
      while idx < |r|
        invariant idx <= |r|
        invariant forall k :: 0 <= k < idx ==>
                    widths[k] == if old(widths[k]) < |r[k]| then |r[k]| else old(widths[k])
        invariant forall k :: idx <= k < numFields ==> widths[k] == old(widths[k])
      {
        var length := |r[idx]|;
        if widths[idx] < length {
          widths[idx] := length;
        }
        idx := idx + 1;
      }
      assert idx == numFields;
    }

    /** `ds_result_set_get_total_field_length`: the sum of the widths, in `size_t`. */
    method TotalFieldLength() returns (total: nat)
      requires widths.Length == numFields
      ensures total == Sum(widths[..]) % WORD
    {
      ghost var w := widths[..];
      total := 0;
      for i := 0 to numFields
        invariant total == Sum(w[..i]) % WORD
      {
        SumStepMod(w, i);
        total := (total + widths[i]) % WORD;
      }
      assert w[..numFields] == w;
    }

    /**
     * `ds_result_set_get_record_line_length`: the NUL, the closing
     * separator, and per column the field, a separator and two spaces of
     * padding, in `size_t`.
     */
    method RecordLineLength() returns (size: nat)
      requires widths.Length == numFields
      ensures size == LineSize(widths[..]) % WORD
    {
      var total := TotalFieldLength();
      ModAddStep(Sum(widths[..]), 2 + numFields * 3);
      size := (1 + 1 + total + numFields * 3) % WORD;
    }

    /**
     * `ds_result_set_get_separator_line`: a `calloc`ed line buffer holding
     * `+` and `width + 2` dashes per column and a closing `+`.
     */
    method SeparatorLine() returns (line: array<char>)
      requires widths.Length == numFields && LineSize(widths[..]) < WORD
      ensures fresh(line) && line.Length == LineSize(widths[..])
      ensures HoldsCString(line, TableFormat.SeparatorLine(widths[..]))
    {
      ghost var w := widths[..];
      var lineSize := RecordLineLength();
      line := new char[lineSize](_ => '\0');
      var bufIdx := RecordSets.WriteRule(line, widths[..]);
      SeparatorLength(w);
      line[bufIdx] := '+';
      assert line[..lineSize - 1] == TableFormat.SeparatorLine(w);
    }

    /**
     * `ds_result_set_get_line_from_record`: each cell `"| %-*s "` and the
     * closing `|` concatenated onto a `calloc`ed line buffer, which they
     * fill up to its NUL when the fields fit their columns.
     */
    method LineFromRecord(r: seq<CString>) returns (line: array<char>)
      requires widths.Length == numFields && Fits(widths[..], r) && LineSize(widths[..]) < WORD
      ensures fresh(line) && line.Length == LineSize(widths[..])
      ensures HoldsCString(line, RecordLine(widths[..], r))
    {
      ghost var w := widths[..];
      var lineSize := RecordLineLength();
      line := new char[lineSize](_ => '\0');
      AddCells(line, widths[..], r);
      CellsLength(w, r);
      StrCat(line, Cells(w, r), "|");
    }

    /** `ds_result_set_get_headers_line`: the headers' line, or `NULL` without headers. */
    method HeadersLine() returns (line: array?<char>)
      requires Valid() && LineSize(widths[..]) < WORD
      ensures headers.None? ==> line == null
      ensures headers.Some? ==> line != null && fresh(line) && line.Length == LineSize(widths[..]) &&
                                HoldsCString(line, RecordLine(widths[..], headers.value))
    {
      if headers.None? {
        return null;
      }
      line := LineFromRecord(headers.value);
    }

    /** `ds_result_set_get_next_line`: the line of the next record, or `NULL` past the last. */
    method NextLine() returns (line: array?<char>)
      requires Valid() && LineSize(widths[..]) < WORD
      modifies records
      ensures Valid() && records.items == old(records.items)
      ensures old(records.cursor).None? ==> line == null && records.cursor == None
      ensures old(records.cursor).Some? ==>
                line != null && fresh(line) &&
                HoldsCString(line, RecordLine(widths[..], records.items[old(records.cursor).value])) &&
                records.cursor == (if old(records.cursor).value + 1 < |records.items|
                                   then Some(old(records.cursor).value + 1) else None)
    {
      var r := records.GetNext();
      if r.None? {
        return null;
      }
      line := LineFromRecord(r.value);
    }

    /**
     * `ds_result_set_get_text_report`: a buffer of
     * `line_length * (num_records + 4) + 1` bytes holding the separator, the
     * header line and a second separator when there are headers, one line
     * per record, and a closing separator, each followed by a newline.
     * Every line is written `line_length` bytes after the previous one, and
     * the buffer has room for all of them and the NUL. The buffer size must
     * not wrap around in `size_t`.
     */
    method GetTextReport() returns (report: array<char>)
      requires Valid()
      requires Times(LineSize(widths[..]), |records.items| + 4) + 1 < WORD
      modifies records
      ensures Valid() && records.items == old(records.items) && records.cursor == None
      ensures fresh(report) && report.Length == Times(LineSize(widths[..]), |records.items| + 4) + 1
      ensures HoldsCString(report, TextReport(widths[..], headers, records.items))
    {
      ghost var w, rows := widths[..], records.items;
      FixedReportRoom(LineSize(w), headers, rows);
      var lineLength := RecordLineLength();
      assert lineLength == LineSize(w);
      var numRecords := records.Length();
      var totalRows := numRecords + 3 + 1;
      var repPtr;
      report, repPtr := NewReport(lineLength, totalRows);
      repPtr := AddBodyAndClose(report, repPtr, lineLength);
    }

    /**
     * The report buffer of `ds_result_set_get_text_report`,
     * `line_length * total_rows + 1` bytes, with the lines above the records
     * written into it.
     */
    method NewReport(lineLength: nat, totalRows: nat) returns (report: array<char>, repPtr: nat)
      requires Valid() && lineLength == LineSize(widths[..]) < WORD
      requires Times(lineLength, HeadRows(headers)) < Times(lineLength, totalRows) + 1
      ensures fresh(report) && report.Length == Times(lineLength, totalRows) + 1
      ensures HoldsCString(report, Head(widths[..], headers))
      ensures repPtr == |Head(widths[..], headers)| == Times(lineLength, HeadRows(headers))
    {
      var reportSize := ReportSize(lineLength, totalRows);
      report := new char[reportSize](_ => '\0');
      repPtr := StartReport(report, lineLength);
    }

    /**
     * The rest of `ds_result_set_get_text_report`, once the lines above the
     * records are written: from the first record, each record's line, then
     * the closing separator.
     */
    method AddBodyAndClose(report: array<char>, start: nat, lineLength: nat) returns (repPtr: nat)
      requires Valid() && lineLength == LineSize(widths[..]) < WORD
      requires HoldsCString(report, Head(widths[..], headers)) && start == |Head(widths[..], headers)|
      requires start + Times(lineLength, |records.items| + 1) < report.Length
      modifies records, report
      ensures Valid() && records.items == old(records.items) && records.cursor == None
      ensures HoldsCString(report, TextReport(widths[..], headers, records.items))
    {
      ghost var w, rows := widths[..], records.items;
      SeekStart();
      TimesMono(lineLength, |rows|, |rows| + 1);
      repPtr := AddRecordLines(report, start, lineLength, Head(w, headers));
      repPtr := AddClosingLine(report, repPtr, lineLength, Head(w, headers) + Body(w, rows));
    }

    /** `line_length * total_rows + 1`, the size of the report buffer. */
    static method ReportSize(lineLength: nat, totalRows: nat) returns (size: nat)
      ensures size == Times(lineLength, totalRows) + 1
    {
      TimesIsProduct(lineLength, totalRows);
      size := lineLength * totalRows + 1;
    }

    /** The last line of `ds_result_set_get_text_report`: a separator and a newline. */
    method AddClosingLine(report: array<char>, start: nat, lineLength: nat, ghost text: string)
      returns (repPtr: nat)
      requires widths.Length == numFields && lineLength == LineSize(widths[..]) < WORD
      requires HoldsCString(report, text) && start == |text| && start + lineLength < report.Length
      modifies report
      ensures HoldsCString(report, text + TableFormat.SeparatorLine(widths[..]) + "\n")
      ensures repPtr == start + lineLength
    {
      var line := SeparatorLine();
      SeparatorLength(widths[..]);
      repPtr := AddLineToReport(report, start, line, text, TableFormat.SeparatorLine(widths[..]), lineLength);
    }

    /**
     * The lines of `ds_result_set_get_text_report` above the records: the
     * separator, and the header line and another separator when there are
     * headers, from the start of the report.
     */
    method StartReport(report: array<char>, lineLength: nat) returns (repPtr: nat)
      requires Valid() && lineLength == LineSize(widths[..]) < WORD
      requires Times(lineLength, HeadRows(headers)) < report.Length
      modifies report
      ensures HoldsCString(report, Head(widths[..], headers))
      ensures repPtr == |Head(widths[..], headers)| == Times(lineLength, HeadRows(headers))
    {
      ghost var w := widths[..];
      ghost var sep := TableFormat.SeparatorLine(w);
      SeparatorLength(w);
      var line := SeparatorLine();
      repPtr := AddLineToReport(report, 0, line, [], sep, lineLength);
      assert [] + sep + "\n" == sep + "\n";
      assert Times(lineLength, 1) == lineLength;
      assert Times(lineLength, 3) == Times(lineLength, 2) + lineLength == lineLength + lineLength + lineLength;
      if headers.Some? {
        TableFormat.RecordLineLength(w, headers.value);
        repPtr := AddHeaderLines(report, repPtr, lineLength, sep + "\n");
      }
    }

    /**
     * The header part of `ds_result_set_get_text_report`: the headers' line
     * and a separator, each followed by a newline, at the report pointer.
     */
    method AddHeaderLines(report: array<char>, start: nat, lineLength: nat, ghost text: string)
      returns (repPtr: nat)
      requires Valid() && headers.Some? && lineLength == LineSize(widths[..]) < WORD
      requires HoldsCString(report, text) && start == |text| && start + lineLength + lineLength < report.Length
      modifies report
      ensures HoldsCString(report, text + (RecordLine(widths[..], headers.value) + "\n" +
                                           (TableFormat.SeparatorLine(widths[..]) + "\n")))
      ensures repPtr == start + lineLength + lineLength
    {
      ghost var w := widths[..];
      ghost var sep := TableFormat.SeparatorLine(w);
      SeparatorLength(w);
      TableFormat.RecordLineLength(w, headers.value);
      var hl := HeadersLine();
      repPtr := AddLineToReport(report, start, hl, text, RecordLine(w, headers.value), lineLength);
      var line := SeparatorLine();
      repPtr := AddLineToReport(report, repPtr, line, text + RecordLine(w, headers.value) + "\n", sep, lineLength);
      assert text + RecordLine(w, headers.value) + "\n" + sep + "\n"
          == text + (RecordLine(w, headers.value) + "\n" + (sep + "\n"));
    }

    /**
     * The loop of `ds_result_set_get_text_report`: from the first record,
     * writes each record's line at the report pointer, advancing it by one
     * line length per line.
     */
    method AddRecordLines(report: array<char>, start: nat, lineLength: nat, ghost head: string)
      returns (repPtr: nat)
      requires Valid() && records.cursor == if records.items == [] then None else Some(0)
      requires lineLength == LineSize(widths[..]) < WORD
      requires HoldsCString(report, head) && start == |head|
      requires start + Times(lineLength, |records.items|) < report.Length
      modifies records, report
      ensures Valid() && records.items == old(records.items) && records.cursor == None
      ensures HoldsCString(report, head + Body(widths[..], records.items))
      ensures repPtr == start + Times(lineLength, |records.items|) == |head + Body(widths[..], records.items)|
    {
      ghost var w, rows := widths[..], records.items;
      ghost var k := 0;
      repPtr := start;
      var added := true;
      while added
        invariant Valid() && records.items == rows && widths[..] == w
        invariant k <= |rows| && (!added ==> k == |rows|)
        invariant records.cursor == if k < |rows| then Some(k) else None
        invariant HoldsCString(report, head + Body(w, rows[..k]))
        invariant repPtr == start + Times(lineLength, k) == |head + Body(w, rows[..k])|
        decreases |rows| - k + (if added then 1 else 0)
      {
        if k < |rows| {
          TimesMono(lineLength, k + 1, |rows|);
        }
        added, repPtr := AddNextLine(report, repPtr, lineLength, head, w, rows, k);
        if added {
          k := k + 1;
        }
      }
      assert rows[..k] == rows;
    }

    /**
     * One turn of that loop: `ds_result_set_get_next_line`, and when it
     * returns a line, `add_line_to_report`. Reports whether there was a
     * record left.
     */
    method AddNextLine(report: array<char>, repPtr: nat, lineLength: nat,
                       ghost head: string, ghost w: seq<nat>, ghost rows: seq<seq<CString>>, ghost k: nat)
      returns (added: bool, next: nat)
      requires Valid() && widths[..] == w && records.items == rows && k <= |rows|
      requires records.cursor == if k < |rows| then Some(k) else None
      requires lineLength == LineSize(w) < WORD
      requires HoldsCString(report, head + Body(w, rows[..k])) && repPtr == |head + Body(w, rows[..k])|
      requires k < |rows| ==> repPtr + lineLength < report.Length
      modifies records, report
      ensures Valid() && records.items == rows
      ensures added <==> k < |rows|
      ensures !added ==> records.cursor == None && next == repPtr && HoldsCString(report, head + Body(w, rows[..k]))
      ensures added ==>
                records.cursor == (if k + 1 < |rows| then Some(k + 1) else None) &&
                HoldsCString(report, head + Body(w, rows[..k + 1])) &&
                next == repPtr + lineLength == |head + Body(w, rows[..k + 1])|
    {
      var line := NextLine();
      if line == null {
        return false, repPtr;
      }
      TableFormat.RecordLineLength(w, rows[k]);
      next := AddLineToReport(report, repPtr, line, head + Body(w, rows[..k]), RecordLine(w, rows[k]), lineLength);
      BodyStep(head, w, rows, k);
      added := true;
    }
  }

  /**
   * The formatting step of `ds_result_set_get_next_insert_query`: a buffer
   * of `sizeof basic_query` (32, its NUL included) plus the lengths of the
   * table name and of the two lines, into which `sprintf` writes the query.
   * The 25 bytes of the format around the three strings always leave room.
   */
  method FormatInsertQuery(table: CString, hs: array<char>, vs: array<char>, ghost h: string, ghost v: string)
    returns (line: array<char>)
    requires HoldsCString(hs, h) && HoldsCString(vs, v)
    ensures fresh(line) && line.Length == 32 + |table| + |h| + |v|
    ensures HoldsCString(line, InsertQuery(table, h, v))
  {
    var basicQuerySize := 32;
    var hsLen := StrLen(hs, h);
    var vsLen := StrLen(vs, v);
    var queryLen := basicQuerySize + |table| + hsLen + vsLen;
    line := new char[queryLen];
    var query := InsertQuery(table, hs[..hsLen], vs[..vsLen]);
    AppendCString(line, 0, [], query);
  }

  /**
   * The loop of `ds_result_set_get_line_from_record`: `strcat`s the cell
   * `"| %-*s "` of each field onto the empty line buffer.
   */
  method AddCells(line: array<char>, widths: seq<nat>, r: seq<CString>)
    requires Fits(widths, r) && line.Length == LineSize(widths) && line[0] == '\0'
    modifies line
    ensures HoldsCString(line, Cells(widths, r))
  {
    assert HoldsCString(line, Cells(widths[..0], r[..0]));
    for idx := 0 to |widths|
      invariant HoldsCString(line, Cells(widths[..idx], r[..idx]))
    {
      CellsStep(widths, r, idx);
      var buffer := Cell(widths[idx], r[idx]);
      StrCat(line, Cells(widths[..idx], r[..idx]), buffer);
    }
    assert widths[..|widths|] == widths && r[..|widths|] == r;
  }

  /**
   * The loop of `ds_result_set_get_cs_line_from_record`: `sprintf`s a
   * comma (except before the first field), the field and the quotes at the
   * line pointer, advancing the pointer past them.
   */
  method AddCsFields(line: array<char>, ghost widths: seq<nat>, r: seq<CString>, squote: bool)
    requires Fits(widths, r) && widths != [] && line.Length == Sum(widths) + 3 * |widths| && line[0] == '\0'
    modifies line
    ensures HoldsCString(line, CsLine(r, squote))
  {
    var linePtr := 0;
    assert HoldsCString(line, CsLine(r[..0], squote));
    for i := 0 to |r|
      invariant linePtr == |CsLine(r[..i], squote)|
      invariant HoldsCString(line, CsLine(r[..i], squote))
    {
      CsStep(widths, r, squote, i);
      var comma := if i == 0 then "" else ",";
      var quote := if squote then "'" else "";
      AppendCString(line, linePtr, CsLine(r[..i], squote), comma + quote + r[i] + quote);
      linePtr := linePtr + |r[i]| + (if i == 0 then 0 else 1) + (if squote then 2 else 0);
    }
    assert r[..|r|] == r;
  }

  /**
   * `add_line_to_report`: `sprintf(report, "%s\n", line)` at the report
   * pointer, and the pointer advanced by one line length. The report then
   * holds what it held before the pointer, the line and a newline.
   */
  method AddLineToReport(report: array<char>, repPtr: nat, line: array<char>, ghost text: string,
                         ghost s: string, lineLen: nat)
    returns (next: nat)
    requires report != line && HoldsCString(line, s)
    requires repPtr + |s| + 1 < report.Length && report[..repPtr] == text && '\0' !in text
    modifies report
    ensures HoldsCString(report, text + s + "\n")
    ensures next == repPtr + lineLen
  {
    var n := StrLen(line, s);
    AppendCString(report, repPtr, text, line[..n] + "\n");
    assert text + (s + "\n") == text + s + "\n";
    next := repPtr + lineLen;
  }
}
