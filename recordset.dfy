/**
 * The record set `ds_recordset` (lib/datastruct/ds_recordset.c): a list of
 * records of `numFields` string fields, optional header names, a type per
 * field, and the length of the longest field seen in each column, kept so
 * that the text report can pad every column to one width.
 *
 * A record is modelled by the strings its fields hold, so the list holds
 * values; every field of a record that reaches the set is taken to be set.
 */
module RecordSets {
  import opened Wrappers
  import opened CStrings
  import opened TextBuffers
  import opened Lists
  import opened TableFormat

  class RecordSet {
    const numFields: nat
    /** `field_lengths`: the longest field seen so far in each column. */
    const widths: array<nat>
    const types: array<FieldType>
    var headers: Option<seq<CString>>
    /** The records, owned by the list (`ds_record_destructor` frees them). */
    const records: List<seq<CString>>
    /** Every row whose fields were measured: each header record set and each record added, in order. */
    ghost var Seen: seq<seq<CString>>
    ghost var Repr: set<object>

    ghost predicate Valid()
      reads this, Repr
    {
      Repr == {this, widths, types, records} &&
      0 < numFields && widths.Length == numFields && types.Length == numFields &&
      records.Valid() && records.freeOnDelete && records.hasDestructor &&
      AllFit(widths[..], records.items) &&
      (headers.Some? ==> Fits(widths[..], headers.value))
    }

    /**
     * The widths are exactly the longest field lengths over every row
     * measured so far: `update_field_lengths` has been applied to each
     * header record and each record added, in order.
     */
    ghost predicate Measured()
      reads this, widths
    {
      (forall r :: r in Seen ==> |r| == widths.Length) &&
      (headers.Some? ==> headers.value in Seen) &&
      Tracks(widths[..], Seen)
    }

    /**
     * `ds_recordset_create`: no records, no headers, every column zero wide
     * and of type `DS_FIELD_STRING`. The source asserts `numFields > 0`.
     */
    constructor Create(numFields: nat)
      requires 0 < numFields
      ensures Valid() && Measured() && fresh(Repr)
      ensures this.numFields == numFields && headers == None && records.items == []
      ensures widths[..] == seq(numFields, _ => 0)
      ensures types[..] == seq(numFields, _ => StringField)
    {
      var ts := new FieldType[numFields];
      for i := 0 to numFields
        invariant forall k :: 0 <= k < i ==> ts[k] == StringField
      {
        ts[i] := StringField;
      }
      types := ts;
      this.numFields := numFields;
      headers := None;
      var list := new List<seq<CString>>.Create(true, true);
      records := list;
      var ws := new nat[numFields](_ => 0);
      widths := ws;
      Seen := [];
      Repr := {this, ws, ts, list};
      new;
      TracksNothing(numFields);
    }

    /**
     * `ds_recordset_destroy`: the list hands every record to its destructor,
     * tail first; the headers are destroyed too.
     */
    method Destroy()
      requires Valid()
      modifies records
      ensures records.items == []
      ensures records.Released == old(records.Released) + ReleasesFromTail(true, true, old(records.items))
    {
      records.Destroy();
    }

    /**
     * `ds_recordset_add_record`: appends `r` and widens each column to the
     * length of its field when that is longer. The source asserts that `r`
     * has `numFields` fields.
     */
    method AddRecord(r: seq<CString>) returns (added: seq<CString>)
      requires Valid() && |r| == numFields
      modifies Repr
      ensures Valid() && Repr == old(Repr) && added == r
      ensures old(Measured()) ==> Measured()
      ensures records.items == old(records.items) + [r] && headers == old(headers)
      ensures Seen == old(Seen) + [r] && types[..] == old(types[..])
      ensures Widened(old(widths[..]), widths[..], r)
    {
      records.Append(r);
      UpdateFieldLengths(r);
      WidenedFits(old(widths[..]), widths[..], r, old(records.items));
      if old(Measured()) {
        TracksAppend(old(widths[..]), widths[..], Seen, r);
      }
      Seen := Seen + [r];
      added := r;
    }

    /** `ds_recordset_num_fields`. */
    method NumFields() returns (n: nat)
      requires Valid()
      ensures n == numFields == widths.Length
    {
      n := numFields;
    }

    /** `ds_recordset_num_records`. */
    method NumRecords() returns (n: nat)
      requires Valid()
      ensures n == |records.items|
    {
      n := records.Length();
    }

    /**
     * `ds_recordset_set_headers`: makes `h` the header record and widens the
     * columns to fit it. The widths of earlier headers stay: they are never
     * narrowed.
     */
    method SetHeaders(h: seq<CString>)
      requires Valid() && |h| == numFields
      modifies Repr
      ensures Valid() && Repr == old(Repr)
      ensures old(Measured()) ==> Measured()
      ensures headers == Some(h) && records.items == old(records.items) && records.cursor == old(records.cursor)
      ensures Seen == old(Seen) + [h] && types[..] == old(types[..])
      ensures Widened(old(widths[..]), widths[..], h)
    {
      headers := Some(h);
      UpdateFieldLengths(h);
      WidenedFits(old(widths[..]), widths[..], h, records.items);
      if old(Measured()) {
        TracksAppend(old(widths[..]), widths[..], Seen, h);
      }
      Seen := Seen + [h];
    }

    /**
     * `ds_recordset_set_type`, with the bound it evidently means: the source
     * asserts `index <= num_fields`, which lets `index == num_fields` write
     * one past the end of the types array (see `SetTypeGuard`).
     */
    method SetType(index: nat, t: FieldType)
      requires Valid() && index < numFields
      modifies types
      ensures Valid()
      ensures types[..] == old(types[..])[index := t]
    {
      types[index] := t;
    }

    /** `ds_recordset_seek_start`: the next record returned is the first. */
    method SeekStart()
      requires Valid()
      modifies records
      ensures Valid() && records.items == old(records.items)
      ensures records.cursor == if records.items == [] then None else Some(0)
    {
      records.SeekStart();
    }

    /** `ds_recordset_next_record`: the current record, advancing; `NULL` past the last. */
    method NextRecord() returns (r: Option<seq<CString>>)
      requires Valid()
      modifies records
      ensures Valid() && records.items == old(records.items)
      ensures old(records.cursor).None? ==> r == None && records.cursor == None
      ensures old(records.cursor).Some? ==>
                r == Some(records.items[old(records.cursor).value]) &&
                records.cursor == (if old(records.cursor).value + 1 < |records.items|
                                   then Some(old(records.cursor).value + 1) else None)
    {
      r := records.GetNext();
    }

    /**
     * `ds_recordset_get_next_insert_query`: for the next record, the query
     * `INSERT INTO table (headers) VALUES (values)`, or `NULL` past the last
     * record. The two helpers that render the header names and the values
     * (`ds_record_make_delim_string`, `ds_record_make_values_string`) are
     * not part of this model and are parameters.
     */
    method GetNextInsertQuery(table: string,
                              delimString: (Option<seq<CString>>, char) -> string,
                              valuesString: (seq<CString>, seq<FieldType>) -> string)
      returns (q: Option<string>)
      requires Valid()
      modifies records
      ensures Valid() && records.items == old(records.items)
      ensures old(records.cursor).None? ==> q == None && records.cursor == None
      ensures old(records.cursor).Some? ==>
                var r := records.items[old(records.cursor).value];
                q == Some(InsertQuery(table, delimString(headers, ','), valuesString(r, types[..])))
    {
      var r := NextRecord();
      if r.None? {
        return None;
      }
      var columns := delimString(headers, ',');
      var values := valuesString(r.value, types[..]);
      q := Some(InsertQuery(table, columns, values));
    }

    // ------------------------------------------------------------ report

    /** `ds_recordset_update_field_lengths`: widens each column to fit its field in `r`. */
    method UpdateFieldLengths(r: seq<CString>)
      requires widths.Length == numFields == |r|
      modifies widths
      ensures Widened(old(widths[..]), widths[..], r)
    {
      for i := 0 to numFields
        invariant forall k :: 0 <= k < i ==>
                    widths[k] == if old(widths[k]) < |r[k]| then |r[k]| else old(widths[k])
        invariant forall k :: i <= k < numFields ==> widths[k] == old(widths[k])
      {
        var length := |r[i]|;
        if widths[i] < length {
          widths[i] := length;
        }
      }
    }

    /** `ds_recordset_get_total_field_length`: the sum of the widths, in `size_t`. */
    method TotalFieldLength() returns (total: nat)
      requires widths.Length == numFields
      ensures total == Sum(widths[..]) % WORD
    {
      ghost var w := widths[..];
      total := 0;
      for i := 0 to numFields
        invariant total == Sum(w[..i]) % WORD
      {
        SumStepMod(w, i);
        total := (total + widths[i]) % WORD;
      }
      assert w[..numFields] == w;
    }

    /** `ds_recordset_get_record_line_length`: the size of a line buffer, in `size_t`. */
    method RecordLineLength() returns (size: nat)
      requires widths.Length == numFields
      ensures size == LineSize(widths[..]) % WORD
    {
      var total := TotalFieldLength();
      ModAddStep(Sum(widths[..]), 2 + numFields * 3);
      size := (1 + 1 + total + numFields * 3) % WORD;
    }

    /**
     * `ds_recordset_get_separator_line`: a zeroed block of one line size
     * filled with `+` and dashes up to its last byte and adopted as the
     * string. The block must be large enough: the source writes
     * `LineSize - 1` bytes into it.
     */
    method SeparatorLine() returns (line: TextBuffer)
      requires widths.Length == numFields && LineSize(widths[..]) < WORD
      ensures fresh(line.Repr) && line.Valid()
      ensures line.Content == TableFormat.SeparatorLine(widths[..])
      ensures line.capacity == LineSize(widths[..])
    {
      ghost var w := widths[..];
      var lineSize := RecordLineLength();
      var buf := new char[lineSize](_ => '\0');
      var bufIdx := WriteRule(buf, widths[..]);
      SeparatorLength(w);
      buf[bufIdx] := '+';
      assert buf[..lineSize - 1] == TableFormat.SeparatorLine(w);
      line := new TextBuffer.CreateDirect(buf, lineSize);
    }

    /**
     * `ds_recordset_get_line_from_record`: an empty string onto which each
     * cell `"| %-*s "` and the closing `|` are concatenated. Each cell is at
     * least three bytes, so each concatenation must grow the buffer and so
     * takes effect.
     */
    method LineFromRecord(r: seq<CString>) returns (line: TextBuffer)
      requires widths.Length == numFields && Fits(widths[..], r) && LineSize(widths[..]) < WORD
      ensures fresh(line.Repr) && line.Valid()
      ensures line.Content == RecordLine(widths[..], r)
      ensures line.capacity == |line.Content| + 1
    {
      ghost var w := widths[..];
      line := new TextBuffer.Create("");
      for i := 0 to numFields
        invariant fresh(line.Repr) && line.Valid()
        invariant line.Content == Cells(w[..i], r[..i])
        invariant line.capacity == |line.Content| + 1
      {
        CellsStep(w, r, i);
        var cell := Cell(widths[i], r[i]);
        var _ := line.ConcatCstr(cell);
      }
      assert w[..numFields] == w && r[..numFields] == r;
      CellsLength(w, r);
      var _ := line.ConcatCstr("|");
    }

    /** `ds_recordset_get_headers_line`: the headers' line, or `NULL` without headers. */
    method HeadersLine() returns (line: TextBuffer?)
      requires Valid() && LineSize(widths[..]) < WORD
      ensures headers.None? ==> line == null
      ensures headers.Some? ==> line != null && fresh(line.Repr) && line.Valid() &&
                                line.Content == RecordLine(widths[..], headers.value)
    {
      if headers.None? {
        return null;
      }
      line := LineFromRecord(headers.value);
    }

    /** `ds_recordset_get_next_line`: the line of the next record, or `NULL` past the last. */
    method NextLine() returns (line: TextBuffer?)
      requires Valid() && LineSize(widths[..]) < WORD
      modifies records
      ensures Valid() && records.items == old(records.items)
      ensures old(records.cursor).None? ==> line == null && records.cursor == None
      ensures old(records.cursor).Some? ==>
                line != null && fresh(line.Repr) && line.Valid() &&
                line.Content == RecordLine(widths[..], records.items[old(records.cursor).value]) &&
                records.cursor == (if old(records.cursor).value + 1 < |records.items|
                                   then Some(old(records.cursor).value + 1) else None)
    {
      var r := records.GetNext();
      if r.None? {
        return null;
      }
      line := LineFromRecord(r.value);
    }

    /**
     * `ds_recordset_get_text_report`: the separator, the header line and a
     * second separator when there are headers, one line per record, and a
     * closing separator, each followed by a newline. The report and its NUL
     * must fit in a `size_t`.
     */
    method GetTextReport() returns (report: TextBuffer)
      requires Valid()
      requires LineSize(widths[..]) * ReportRows(headers, records.items) < SIZE_MAX
      modifies records
      ensures Valid() && records.items == old(records.items) && records.cursor == None
      ensures fresh(report.Repr) && report.Valid()
      ensures report.Content == TextReport(widths[..], headers, records.items)
    {
      ReportRoom(LineSize(widths[..]), headers, records.items);
      report := StartReport();
      AddBodyAndClose(report);
    }

    /**
     * The rest of `ds_recordset_get_text_report`, once the lines above the
     * records are in the report: from the first record, each record's line,
     * then the closing separator.
     */
    method AddBodyAndClose(report: TextBuffer)
      requires Valid() && report.Valid() && report.Repr !! Repr && report.capacity == |report.Content| + 1
      requires report.Content == Head(widths[..], headers)
      requires |report.Content| + Times(LineSize(widths[..]), |records.items| + 1) < SIZE_MAX
      modifies records, report.Repr
      ensures Valid() && records.items == old(records.items) && records.cursor == None
      ensures report.Valid() && fresh(report.Repr - old(report.Repr))
      ensures report.Content == TextReport(widths[..], headers, records.items)
    {
      ghost var w, rows := widths[..], records.items;
      SeekStart();
      AddRecordLines(report);
      var line := SeparatorLine();
      AddLineToReport(report, line);
    }

    /**
     * The lines of `ds_recordset_get_text_report` above the records, on a
     * fresh empty report: the separator, and the header line and another
     * separator when there are headers.
     */
    method StartReport() returns (report: TextBuffer)
      requires Valid()
      requires Times(LineSize(widths[..]), ReportRows(headers, records.items)) < SIZE_MAX
      ensures fresh(report.Repr) && report.Valid() && report.capacity == |report.Content| + 1
      ensures report.Content == Head(widths[..], headers)
      ensures |report.Content| == Times(LineSize(widths[..]), HeadRows(headers))
    {
      ghost var w := widths[..];
      ghost var size := LineSize(w);
      TimesMono(size, HeadRows(headers), ReportRows(headers, records.items));
      TimesMono(size, 1, HeadRows(headers));
      SeparatorLength(w);
      report := new TextBuffer.Create("");
      var line := SeparatorLine();
      AddLineToReport(report, line);
      assert report.Content == TableFormat.SeparatorLine(w) + "\n" by {
        assert [] + line.Content + "\n" == line.Content + "\n";
      }
      if headers.Some? {
        AddHeaderLines(report, w);
      }
    }

    /**
     * The header part of `ds_recordset_get_text_report`: the headers' line
     * and a separator, each followed by a newline.
     */
    method AddHeaderLines(report: TextBuffer, ghost w: seq<nat>)
      requires Valid() && headers.Some? && widths[..] == w
      requires report.Valid() && report.Repr !! Repr && report.capacity == |report.Content| + 1
      requires |report.Content| + LineSize(w) + LineSize(w) < SIZE_MAX
      modifies report.Repr
      ensures report.Valid() && fresh(report.Repr - old(report.Repr)) && report.capacity == |report.Content| + 1
      ensures report.Content == old(report.Content) + (RecordLine(w, headers.value) + "\n" +
                                                      (TableFormat.SeparatorLine(w) + "\n"))
      ensures |report.Content| == |old(report.Content)| + LineSize(w) + LineSize(w)
    {
      SeparatorLength(w);
      TableFormat.RecordLineLength(w, headers.value);
      var hl := HeadersLine();
      AddLineToReport(report, hl);
      var line := SeparatorLine();
      AddLineToReport(report, line);
    }

    /**
     * The loop of `ds_recordset_get_text_report`: from the first record,
     * adds each record's line to the report, which has room for them and
     * one more line.
     */
    method AddRecordLines(report: TextBuffer)
      requires Valid() && records.cursor == if records.items == [] then None else Some(0)
      requires report.Valid() && report.Repr !! Repr && report.capacity == |report.Content| + 1
      requires |report.Content| + Times(LineSize(widths[..]), |records.items| + 1) < SIZE_MAX
      modifies records, report.Repr
      ensures Valid() && records.items == old(records.items) && records.cursor == None
      ensures report.Valid() && fresh(report.Repr - old(report.Repr)) && report.capacity == |report.Content| + 1
      ensures report.Content == old(report.Content) + Body(widths[..], records.items)
      ensures |report.Content| == |old(report.Content)| + Times(LineSize(widths[..]), |records.items|)
    {
      ghost var w, rows := widths[..], records.items;
      ghost var k := 0;
      assert Walking(report, old(report.Content), w, rows, k);
      var added := true;
      while added
        invariant Walking(report, old(report.Content), w, rows, k)
        invariant !added ==> k == |rows|
        invariant fresh(report.Repr - old(report.Repr))
        decreases |rows| - k + (if added then 1 else 0)
      {
        added := AddNextLine(report, old(report.Content), w, rows, k);
        if added {
          k := k + 1;
        }
      }
      assert rows[..k] == rows;
    }

    /**
     * The state of the report loop after `k` records: the cursor is on
     * record `k`, and the report holds `head` and the lines of the records
     * before it, one line size each.
     */
    ghost predicate Walking(report: TextBuffer, head: string, w: seq<nat>, rows: seq<seq<CString>>, k: nat)
      reads this, Repr, report, report.Repr
    {
      Valid() && widths[..] == w && records.items == rows && k <= |rows| &&
      records.cursor == (if k < |rows| then Some(k) else None) &&
      report.Valid() && report.Repr !! Repr && report.capacity == |report.Content| + 1 &&
      report.Content == head + Body(w, rows[..k]) &&
      |report.Content| == |head| + Times(LineSize(w), k)
    }

    /**
     * One turn of that loop: `ds_recordset_get_next_line`, and when it
     * returns a line, `add_line_to_report`. Reports whether there was a
     * record left.
     */
    method AddNextLine(report: TextBuffer, ghost head: string, ghost w: seq<nat>, ghost rows: seq<seq<CString>>,
                       ghost k: nat)
      returns (added: bool)
      requires Walking(report, head, w, rows, k)
      requires |head| + Times(LineSize(w), |rows| + 1) < SIZE_MAX
      modifies records, report.Repr
      ensures added <==> k < |rows|
      ensures Walking(report, head, w, rows, if added then k + 1 else k)
      ensures fresh(report.Repr - old(report.Repr))
    {
      TimesMono(LineSize(w), k + 1, |rows| + 1);
      var line := NextLine();
      if line == null {
        return false;
      }
      TableFormat.RecordLineLength(w, rows[k]);
      AddLineToReport(report, line);
      BodyStep(head, w, rows, k);
      added := true;
    }
  }

  /**
   * The bound `ds_recordset_set_type` asserts before writing `types[index]`,
   * as written: it admits every index of the types array, and exactly one
   * index that is not.
   */
  predicate SetTypeGuard(index: nat, numFields: nat): (ok: bool)
    ensures index < numFields ==> ok
    ensures ok && numFields <= index ==> index == numFields
  {
    index <= numFields
  }

  /**
   * The asserted bound admits `index == numFields`, which is not an index
   * of the `numFields` slots of the types array: the write lands one past
   * its end. `RecordSet.SetType` requires `index < numFields` instead.
   */
  lemma SetTypeGuardAdmitsPastEnd(numFields: nat)
    ensures exists index: nat :: SetTypeGuard(index, numFields) && !(index < numFields)
  {
    assert SetTypeGuard(numFields, numFields);
  }

  /**
   * `add_line_to_report`: appends `line` and a newline. On a report whose
   * block has no spare byte, both concatenations must grow the block and so
   * take effect, and the block is again left without a spare byte.
   */
  method AddLineToReport(report: TextBuffer, line: TextBuffer)
    requires report.Valid() && line.Valid() && report.Repr !! line.Repr
    requires report.capacity == |report.Content| + 1
    requires |report.Content| + |line.Content| + 1 < SIZE_MAX
    modifies report.Repr
    ensures report.Valid() && fresh(report.Repr - old(report.Repr))
    ensures report.Content == old(report.Content) + line.Content + "\n"
    ensures report.capacity == |report.Content| + 1
  {
    var _ := report.Concat(line);
    var _ := report.ConcatCstr("\n");
  }

  /**
   * The loop of `ds_recordset_get_separator_line`: writes `+` and
   * `width + 2` dashes per column into a zeroed line buffer, returning the
   * index just past them.
   */
  method WriteRule(buf: array<char>, widths: seq<nat>) returns (bufIdx: nat)
    requires buf.Length == LineSize(widths) && forall k :: 0 <= k < buf.Length ==> buf[k] == '\0'
    modifies buf
    ensures bufIdx == |Rule(widths)| < buf.Length
    ensures buf[..bufIdx] == Rule(widths)
    ensures forall k :: bufIdx <= k < buf.Length ==> buf[k] == '\0'
  {
    bufIdx := 0;
    for fld := 0 to |widths|
      invariant bufIdx == |Rule(widths[..fld])| < buf.Length
      invariant buf[..bufIdx] == Rule(widths[..fld])
      invariant forall k :: bufIdx <= k < buf.Length ==> buf[k] == '\0'
    {
      RuleStep(widths, fld);
      bufIdx := WriteColumnRule(buf, bufIdx, widths[fld] + 2);
    }
    assert widths[..|widths|] == widths;
  }

  /** One column of that loop: a `+` at `from`, then `n` dashes. */
  method WriteColumnRule(buf: array<char>, from: nat, n: nat) returns (next: nat)
    requires from + 1 + n <= buf.Length
    modifies buf
    ensures next == from + 1 + n
    ensures buf[..next] == old(buf[..from]) + "+" + Dashes(n)
    ensures forall k :: next <= k < buf.Length ==> buf[k] == old(buf[k])
  {
    buf[from] := '+';
    assert buf[..from + 1] == old(buf[..from]) + "+";
    FillDashes(buf, from + 1, n);
    next := from + 1 + n;
    assert buf[..next] == buf[..from + 1] + buf[from + 1..next];
  }

  /** Writes `n` dashes into `buf` from position `from`, leaving the rest as it was. */
  method FillDashes(buf: array<char>, from: nat, n: nat)
    requires from + n <= buf.Length
    modifies buf
    ensures buf[..from] == old(buf[..from])
    ensures buf[from..from + n] == Dashes(n)
    ensures forall k :: from + n <= k < buf.Length ==> buf[k] == old(buf[k])
  {
    for i := 0 to n
      invariant buf[..from] == old(buf[..from])
      invariant buf[from..from + i] == Dashes(i)
      invariant forall k :: from + i <= k < buf.Length ==> buf[k] == old(buf[k])
    {
      buf[from + i] := '-';
      assert Dashes(i + 1) == Dashes(i) + "-";
    }
  }
}
