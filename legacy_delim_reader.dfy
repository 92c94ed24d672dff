/**
 * The older `:`-delimited reader of lib/delim_file_read/delim_file_read.c.
 * Each line is read with `fgets` into a buffer of `MAX_BUFFER_SIZE` bytes,
 * loses at most one trailing newline, and is split at every delimiter into
 * an owning list of fields. The first line names the fields; every later
 * line is a row, and one row of another number of fields fails the read.
 *
 * A file is `None` when it cannot be opened, and otherwise the sequence of
 * what successive `fgets` calls deliver.
 */
module LegacyDelimReader {
  import opened Wrappers
  import opened CStrings
  import opened CBuffers
  import opened Lists
  import opened ResultSets
  import ConfigLines
  import DelimReader

  /** `MAX_BUFFER_SIZE`: the size of the line buffer and of the field buffer. */
  const MAX_BUFFER_SIZE: nat := 1024

  /** The delimiter `delim_file_read` passes for every line. */
  const DELIM: char := ':'

  // ---------------------------------------------------------------- fields

  /** Where the field starting at `p` ends: the first delimiter or the end of the line from `p` on. */
  function FieldEnd(s: string, delim: char, p: nat): (e: nat)
    requires p <= |s|
    ensures p <= e <= |s| && delim !in s[p..e] && (e == |s| || s[e] == delim)
    decreases |s| - p
  {
    if p == |s| || s[p] == delim then p
    else
      var e := FieldEnd(s, delim, p + 1);
      assert s[p..e] == [s[p]] + s[p + 1..e];
      e
  }

  /** A delimiter, or the end of the line, with no delimiter before it is where `FieldEnd` stops. */
  lemma FieldEndUnique(s: string, delim: char, p: nat, e: nat)
    requires p <= e <= |s| && delim !in s[p..e] && (e == |s| || s[e] == delim)
    ensures FieldEnd(s, delim, p) == e
  {
  }

  /**
   * Where the walk resumes after the field starting at `p`: past the
   * delimiter that ends it, or at the end of the line.
   */
  function NextFieldStart(s: string, delim: char, p: nat): (q: nat)
    requires p <= |s|
    ensures p <= q <= |s| && (p < |s| ==> p < q)
    ensures q < |s| ==> p < q && s[q - 1] == delim
  {
    var e := FieldEnd(s, delim, p);
    if e < |s| then e + 1 else e
  }

  /**
   * The fields of a line from position `p` on: the runs between delimiters,
   * in order, empty ones included. The end of the line ends the last
   * field, so a delimiter just before it opens none.
   */
  function FieldsFrom(s: string, delim: char, p: nat): (fs: seq<string>)
    requires p <= |s|
    decreases |s| - p
  {
    if p == |s| then []
    else [s[p..FieldEnd(s, delim, p)]] + FieldsFrom(s, delim, NextFieldStart(s, delim, p))
  }

  /** The fields `delim_file_line_read` splits a line into. */
  function Fields(s: string, delim: char): seq<string> {
    FieldsFrom(s, delim, 0)
  }

  /** The fields glued back together with one delimiter between neighbours. */
  function Join(fs: seq<string>, delim: char): string
  {
    if fs == [] then []
    else if |fs| == 1 then fs[0]
    else fs[0] + [delim] + Join(fs[1..], delim)
  }

  /** One unfolding of `FieldsFrom`: the field at `p`, then the fields after it. */
  lemma FieldsFromStep(s: string, delim: char, p: nat)
    requires p < |s|
    ensures FieldsFrom(s, delim, p) == [s[p..FieldEnd(s, delim, p)]] + FieldsFrom(s, delim, NextFieldStart(s, delim, p))
  {
  }

  /** One unfolding of `Join` at its first field. */
  lemma JoinCons(f: string, fs: seq<string>, delim: char)
    ensures Join([f] + fs, delim) == if fs == [] then f else f + [delim] + Join(fs, delim)
  {
    if fs != [] {
      assert ([f] + fs)[1..] == fs;
    }
  }

  /** No field holds the delimiter. */
  lemma {:induction false} FieldsHaveNoDelimiter(s: string, delim: char, p: nat)
    requires p <= |s|
    ensures forall f :: f in FieldsFrom(s, delim, p) ==> delim !in f
    decreases |s| - p
  {
    if p < |s| {
      FieldsHaveNoDelimiter(s, delim, NextFieldStart(s, delim, p));
    }
  }

  /** The delimiter that ends the line, when one does and fields remain from `p` on. */
  function Trail(s: string, delim: char, p: nat): (t: string)
    ensures t == [] || t == [delim]
  {
    if p < |s| && s[|s| - 1] == delim then [delim] else []
  }

  /**
   * Splitting loses nothing: joining the fields from `p` on gives back the
   * rest of the line, less the delimiter that ends it, if one does.
   */
  lemma {:induction false} FieldsJoin(s: string, delim: char, p: nat)
    requires p <= |s|
    ensures Join(FieldsFrom(s, delim, p), delim) + Trail(s, delim, p) == s[p..]
    decreases |s| - p
  {
    if p < |s| {
      var e := FieldEnd(s, delim, p);
      var q := NextFieldStart(s, delim, p);
      var rest := FieldsFrom(s, delim, q);
      FieldsFromStep(s, delim, p);
      if e == |s| {
        JoinCons(s[p..e], rest, delim);
        assert s[|s| - 1] in s[p..e];
        assert s[p..] == s[p..e];
      } else if q == |s| {
        JoinCons(s[p..e], rest, delim);
        assert s[p..] == s[p..e] + [delim];
      } else {
        FieldsJoin(s, delim, q);
        FieldsJoinMiddle(s, delim, p, e, q);
      }
    }
  }

  /** The step of `FieldsJoin` past a field that a delimiter ends, with more of the line after it. */
  lemma FieldsJoinMiddle(s: string, delim: char, p: nat, e: nat, q: nat)
    requires p <= e && q == e + 1 < |s| && s[e] == delim
    requires FieldsFrom(s, delim, p) == [s[p..e]] + FieldsFrom(s, delim, q)
    requires Join(FieldsFrom(s, delim, q), delim) + Trail(s, delim, q) == s[q..]
    ensures Join(FieldsFrom(s, delim, p), delim) + Trail(s, delim, p) == s[p..]
  {
    FieldsFromStep(s, delim, q);
    JoinAfterDelimiter(s[p..e], FieldsFrom(s, delim, q), s[q..], Trail(s, delim, q), delim);
    assert s[p..] == s[p..e] + [delim] + s[q..];
  }

  /** A field, a delimiter, and then more fields that join to `r` (before `t`). */
  lemma JoinAfterDelimiter(f: string, rest: seq<string>, r: string, t: string, delim: char)
    requires rest != [] && Join(rest, delim) + t == r
    ensures Join([f] + rest, delim) + t == f + [delim] + r
  {
    JoinCons(f, rest, delim);
  }

  /** The fields of a line's tail do not depend on what comes before it. */
  lemma {:induction false} FieldsFromShift(a: string, b: string, delim: char, p: nat)
    requires p <= |b|
    ensures FieldsFrom(a + b, delim, |a| + p) == FieldsFrom(b, delim, p)
    decreases |b| - p
  {
    if p < |b| {
      var s: string := a + b;
      var r := |a| + p;
      var e := FieldEnd(b, delim, p);
      var q := NextFieldStart(b, delim, p);
      assert s[r..|a| + e] == b[p..e];
      FieldEndUnique(s, delim, r, |a| + e);
      assert NextFieldStart(s, delim, r) == |a| + q;
      FieldsFromStep(s, delim, r);
      FieldsFromShift(a, b, delim, q);
    }
  }

  /**
   * The converse of `FieldsJoin`: fields free of the delimiter, the last
   * one not empty, are exactly what their join splits into.
   */
  lemma {:induction false} JoinFields(fs: seq<string>, delim: char)
    requires fs != [] && fs[|fs| - 1] != []
    requires forall f :: f in fs ==> delim !in f
    ensures Fields(Join(fs, delim), delim) == fs
    decreases |fs|
  {
    var s: string := Join(fs, delim);
    assert fs[0] in fs;
    FieldsFromStep(s, delim, 0);
    if |fs| == 1 {
      assert s[0..|s|] == s;
      FieldEndUnique(s, delim, 0, |s|);
    } else {
      var rest := fs[1..];
      assert fs == [fs[0]] + rest;
      JoinCons(fs[0], rest, delim);
      var a: string := fs[0] + [delim];
      var j: string := Join(rest, delim);
      assert s == a + j;
      assert s[0..|fs[0]|] == fs[0];
      FieldEndUnique(s, delim, 0, |fs[0]|);
      FieldsFromShift(a, j, delim, 0);
      assert rest[|rest| - 1] == fs[|fs| - 1];
      JoinFields(rest, delim);
    }
  }

  /** An empty line has no field. */
  lemma EmptyLine(delim: char)
    ensures Fields([], delim) == []
  {
  }

  /** A single delimiter ending a non-empty line adds no empty field. */
  lemma TrailingDelimiter(s: string, delim: char)
    requires s != [] && s[|s| - 1] != delim
    ensures Fields(s + [delim], delim) == Fields(s, delim)
  {
    TrailingDelimiterFrom(s, delim, 0);
  }

  lemma {:induction false} TrailingDelimiterFrom(s: string, delim: char, p: nat)
    requires p < |s| && s[|s| - 1] != delim
    ensures FieldsFrom(s + [delim], delim, p) == FieldsFrom(s, delim, p)
    decreases |s| - p
  {
    var t: string := s + [delim];
    var e := FieldEnd(s, delim, p);
    assert t[p..e] == s[p..e];
    FieldEndUnique(t, delim, p, e);
    if e < |s| {
      TrailingDelimiterFrom(s, delim, e + 1);
    } else {
      assert FieldsFrom(t, delim, e + 1) == [];
    }
  }

  /** Two delimiters in a row enclose an empty field. */
  lemma AdjacentDelimiters(a: string, b: string, delim: char)
    requires delim !in a
    ensures Fields(a + [delim, delim] + b, delim) == [a, []] + Fields(b, delim)
  {
    var s: string := a + [delim, delim] + b;
    assert s[0..|a|] == a;
    FieldEndUnique(s, delim, 0, |a|);
    assert FieldsFrom(s, delim, 0) == [a] + FieldsFrom(s, delim, |a| + 1);
    FieldEndUnique(s, delim, |a| + 1, |a| + 1);
    assert FieldsFrom(s, delim, |a| + 1) == [[]] + FieldsFrom(s, delim, |a| + 2);
    FieldsFromShift(a + [delim, delim], b, delim, 0);
  }

  /** The line `fgets` delivered, at most one trailing newline removed. */
  function LineOf(chunk: CString): (s: CString)
    ensures chunk == s || chunk == s + ['\n']
  {
    if |chunk| > 0 && chunk[|chunk| - 1] == '\n' then
      assert chunk == chunk[..|chunk| - 1] + ['\n'];
      chunk[..|chunk| - 1]
    else chunk
  }

  /** The fields `delim_file_line_read` makes of a chunk. */
  function LineFields(chunk: CString, delim: char): seq<string> {
    Fields(LineOf(chunk), delim)
  }

  // ---------------------------------------------------------------- field walk

  /**
   * Where the source's walk resumes after the field starting at `p`: one
   * byte past the field's end, whether that end is a delimiter or the
   * terminator.
   */
  function NextFieldStartAsWritten(s: string, delim: char, p: nat): (q: nat)
    requires p <= |s|
    ensures q == FieldEnd(s, delim, p) + 1
  {
    FieldEnd(s, delim, p) + 1
  }

  /**
   * After a last field that the terminator ends, the source's walk tests
   * the byte after the terminator. When `fgets` delivered a newline, that
   * is the NUL it wrote (index `|chunk|`); otherwise it is index
   * `|chunk| + 1`, a byte `fgets` did not write, and past the buffer when
   * the chunk filled it. `NextFieldStart` stays on the terminator.
   */
  lemma LastFieldOverrun(chunk: CString, delim: char, p: nat)
    requires p < |LineOf(chunk)| && delim !in LineOf(chunk)[p..]
    ensures chunk[|chunk| - 1] == '\n' ==> NextFieldStartAsWritten(LineOf(chunk), delim, p) == |chunk|
    ensures chunk[|chunk| - 1] != '\n' ==> NextFieldStartAsWritten(LineOf(chunk), delim, p) == |chunk| + 1
    ensures NextFieldStart(LineOf(chunk), delim, p) == |LineOf(chunk)|
  {
  }

  /**
   * The field loop of `delim_file_line_read`: `buffer` holds the line `s`.
   * Each field is copied into `field` up to the next delimiter or the
   * terminator, duplicated and appended to `row`. The walk steps over a
   * delimiter and stops at the terminator, as `NextFieldStart` does.
   */
  method SplitFields(buffer: array<char>, ghost s: CString, delim: char, field: array<char>, row: List<CString>)
    requires HoldsCString(buffer, s) && buffer.Length <= field.Length && buffer != field
    requires row.Valid() && row.items == []
    modifies field, row
    ensures row.Valid() && row.items == Fields(s, delim)
    ensures row.cursor == old(row.cursor) && row.Released == old(row.Released)
  {
    var p := 0;
    while buffer[p] != '\0'
      invariant p <= |s| && HoldsCString(buffer, s)
      invariant row.Valid() && row.cursor == old(row.cursor) && row.Released == old(row.Released)
      invariant row.items + FieldsFrom(s, delim, p) == Fields(s, delim)
      decreases |s| - p
    {
      p := NextField(buffer, s, delim, field, row, p);
    }
  }

  /**
   * One turn of the field loop: copy the field at `p`, append a copy of it
   * to `row`, and step over the delimiter that ends it, if one does.
   */
  method NextField(buffer: array<char>, ghost s: CString, delim: char, field: array<char>, row: List<CString>, p: nat)
    returns (q: nat)
    requires HoldsCString(buffer, s) && buffer.Length <= field.Length && buffer != field && p < |s|
    requires row.Valid()
    modifies field, row
    ensures row.Valid() && row.cursor == old(row.cursor) && row.Released == old(row.Released)
    ensures q == NextFieldStart(s, delim, p)
    ensures row.items + FieldsFrom(s, delim, q) == old(row.items) + FieldsFrom(s, delim, p)
  {
    var e := CopyField(buffer, s, delim, field, p);
    q := e;
    if buffer[q] != '\0' {
      q := q + 1;
    }
    var newField := ReadCString(field, s[p..e]);
    row.Append(newField);
    FieldsFromStep(s, delim, p);
  }

  /**
   * The inner loop of the field walk: copies the bytes of `buffer` from `p`
   * up to the next delimiter or the terminator into `field`, and ends there.
   */
  method CopyField(buffer: array<char>, ghost s: CString, delim: char, field: array<char>, p: nat)
    returns (e: nat)
    requires HoldsCString(buffer, s) && buffer.Length <= field.Length && buffer != field && p <= |s|
    modifies field
    ensures e == FieldEnd(s, delim, p)
    ensures HoldsCString(field, s[p..e])
  {
    e := p;
    var f := 0;
    while buffer[e] != '\0' && buffer[e] != delim
      invariant p <= e <= |s| && f == e - p
      invariant field[..f] == s[p..e] && delim !in s[p..e]
      decreases |s| - e
    {
      field[f] := buffer[e];
      assert field[..f + 1] == field[..f] + [s[e]];
      assert s[p..e + 1] == s[p..e] + [s[e]];
      f := f + 1;
      e := e + 1;
    }
    field[f] := '\0';
    FieldEndUnique(s, delim, p, e);
  }

  /**
   * `delim_file_line_read` on chunk `k` of the file: `NULL` at the end of
   * the file; otherwise a new list that frees its fields, holding the
   * fields of the line.
   */
  method LineRead(lines: seq<CString>, k: nat, delim: char) returns (row: List?<CString>)
    requires ConfigLines.Chunks(lines) && k <= |lines|
    ensures row == null <==> k == |lines|
    ensures row != null ==>
              fresh(row) && row.Valid() && row.items == LineFields(lines[k], delim) &&
              row.freeOnDelete && !row.hasDestructor && row.cursor == None && row.Released == []
  {
    if k == |lines| {
      return null;
    }
    var chunk := lines[k];
    var buffer := new char[MAX_BUFFER_SIZE];
    WriteCString(buffer, 0, chunk);
    assert HoldsCString(buffer, chunk) by {
      assert buffer[..|chunk|] == buffer[0..|chunk|];
    }
    row := new List<CString>.Create(true, false);
    var buflen := StrLen(buffer, chunk);
    if buflen > 0 && buffer[buflen - 1] == '\n' {
      buffer[buflen - 1] := '\0';
      assert buffer[..buflen - 1] == chunk[..buflen - 1];
    }
    ghost var s := LineOf(chunk);
    assert HoldsCString(buffer, s);
    var field := new char[MAX_BUFFER_SIZE](_ => '\0');
    SplitFields(buffer, s, delim, field, row);
  }

  // ---------------------------------------------------------------- the file

  /** The rows the lines make, in order. */
  function RowsOf(lines: seq<CString>): (rows: seq<seq<string>>)
    ensures |rows| == |lines|
    ensures forall i :: 0 <= i < |lines| ==> rows[i] == LineFields(lines[i], DELIM)
  {
    seq(|lines|, i requires 0 <= i < |lines| => LineFields(lines[i], DELIM))
  }

  /** One more line adds its fields as the last row. */
  lemma RowsOfSnoc(lines: seq<CString>, chunk: CString)
    ensures RowsOf(lines + [chunk]) == RowsOf(lines) + [LineFields(chunk, DELIM)]
  {
    var xs, ys := RowsOf(lines + [chunk]), RowsOf(lines) + [LineFields(chunk, DELIM)];
    assert forall i :: 0 <= i < |xs| ==> xs[i] == ys[i] by {
      forall i | 0 <= i < |xs|
        ensures xs[i] == ys[i]
      {
        assert (lines + [chunk])[i] == if i < |lines| then lines[i] else chunk;
      }
    }
  }

  /**
   * What `delim_file_read` asserts of an opened file: a first line, whose
   * fields the record set needs to be at least one.
   */
  predicate HeadOk(lines: seq<CString>) {
    lines != [] && LineFields(lines[0], DELIM) != []
  }

  /**
   * `delim_file_read`: `NULL` when the file cannot be opened. Otherwise the
   * first line's fields are the headers and every later line is a row, in
   * file order. The result is `NULL` exactly when some row, an empty line
   * included, has another number of fields than the headers.
   */
  method DelimRead(file: Option<seq<CString>>) returns (result: ResultSet?)
    requires file.Some? ==> ConfigLines.Chunks(file.value) && HeadOk(file.value)
    ensures file.None? ==> result == null
    ensures file.Some? ==>
              var headers := LineFields(file.value[0], DELIM);
              var rows := RowsOf(file.value[1..]);
              (result == null <==> !DelimReader.Uniform(rows, |headers|)) &&
              (result != null ==>
                 fresh(result.Repr) && result.Valid() &&
                 result.headers == Some(headers) && result.records.items == rows)
  {
    if file.None? {
      return null;
    }
    var lines := file.value;
    var headers := LineRead(lines, 0, DELIM);
    var numFields := headers.Length();
    result := new ResultSet.Create(numFields);
    result.SetHeaders(headers.items);
    var mismatch := ReadRows(result, lines);
    if mismatch {
      result.Destroy();
      return null;
    }
  }

  /**
   * The row loop of `delim_file_read`: each line after the first is read and
   * added while it has `numFields` fields; `mismatch` reports the first one
   * that does not.
   */
  method ReadRows(rs: ResultSet, lines: seq<CString>) returns (mismatch: bool)
    requires rs.Valid() && rs.records.items == [] && ConfigLines.Chunks(lines) && lines != []
    modifies rs.Repr
    ensures rs.Valid() && rs.Repr == old(rs.Repr) && rs.headers == old(rs.headers)
    ensures var rows := RowsOf(lines[1..]);
            (mismatch <==> !DelimReader.Uniform(rows, rs.numFields)) &&
            (!mismatch ==> rs.records.items == rows)
  {
    var pos := 1;
    var row := LineRead(lines, pos, DELIM);
    assert lines[1..1] == [];
    while row != null
      invariant Loaded(rs, lines, pos) && rs.Repr == old(rs.Repr) && rs.headers == old(rs.headers)
      invariant row == null <==> pos == |lines|
      invariant row != null ==> fresh(row) && row.items == LineFields(lines[pos], DELIM)
      decreases |lines| - pos
    {
      var n := row.Length();
      if n != rs.numFields {
        assert RowsOf(lines[1..])[pos - 1] == row.items;
        return true;
      }
      AddRow(rs, lines, pos, row.items);
      pos := pos + 1;
      row := LineRead(lines, pos, DELIM);
    }
    assert lines[1..pos] == lines[1..];
    return false;
  }

  /** The state of the row loop before line `pos`: the rows so far, all of the headers' arity. */
  ghost predicate Loaded(rs: ResultSet, lines: seq<CString>, pos: nat)
    reads rs, rs.Repr
  {
    rs.Valid() && 1 <= pos <= |lines| &&
    rs.records.items == RowsOf(lines[1..pos]) && DelimReader.Uniform(rs.records.items, rs.numFields)
  }

  /** The loop's `ds_result_set_add_record` of the row read from line `pos`. */
  method AddRow(rs: ResultSet, lines: seq<CString>, pos: nat, row: seq<CString>)
    requires Loaded(rs, lines, pos) && pos < |lines| && row == LineFields(lines[pos], DELIM) && |row| == rs.numFields
    modifies rs.Repr
    ensures Loaded(rs, lines, pos + 1) && rs.Repr == old(rs.Repr) && rs.headers == old(rs.headers)
  {
    var _ := rs.AddRecord(row);
    assert lines[1..pos + 1] == lines[1..pos] + [lines[pos]];
    RowsOfSnoc(lines[1..pos], lines[pos]);
  }
}
