/**
 * The delimited-file reader of lib/file_ops/delim_file_read.c: it reads
 * lines with `ds_str_getline`, drops their leading whitespace, skips empty
 * lines and `#` comments, and splits each remaining line into a record. The
 * first record names the fields and the second gives their types. Every
 * later record becomes a row of a record set.
 *
 * A file is `None` when it cannot be opened, and otherwise the sequence of
 * what `fgets` delivers. `ds_record_tokenize` is only declared in the
 * source, so the splitting is the parameter `tokenize`. Its result is taken
 * as the record's field strings.
 */
module DelimReader {
  import opened Wrappers
  import opened CStrings
  import opened TextBuffers
  import opened TableFormat
  import opened RecordSets

  /** `MAX_LINE_SIZE`: the block size passed to `ds_str_getline`. */
  const MAX_LINE_SIZE: nat := 1024

  /** What `fgets` can deliver into a block of `MAX_LINE_SIZE` bytes. */
  predicate FitLines(lines: seq<CString>) {
    forall i :: 0 <= i < |lines| ==> |lines[i]| < MAX_LINE_SIZE
  }

  /** The text `get_next_record` keeps of a chunk: newline stripped, then leading whitespace. */
  function LineText(chunk: CString): (t: string) {
    TrimLeading(StripNewline(chunk))
  }

  /** A chunk that `get_next_record` does not skip: not empty, and no `#` first. */
  predicate Significant(chunk: CString) {
    var t := LineText(chunk);
    t != [] && t[0] != '#'
  }

  /** The record text of a chunk, or `None` when `get_next_record` skips it. */
  function Keep(chunk: CString): (t: Option<string>)
    ensures t.Some? <==> Significant(chunk)
    ensures t.Some? ==> t.value == LineText(chunk)
  {
    if Significant(chunk) then Some(LineText(chunk)) else None
  }

  /**
   * The texts `keep` keeps of some chunks, in order. The reader's lemmas
   * below hold for any `keep`, so they never look inside `Keep`.
   */
  function Kept(keep: CString -> Option<string>, lines: seq<CString>): seq<string>
    decreases |lines|
  {
    if lines == [] then []
    else
      var t := keep(lines[|lines| - 1]);
      Kept(keep, lines[..|lines| - 1]) + (if t.Some? then [t.value] else [])
  }

  /** The text of the chunks that are not skipped, in file order: the records' lines. */
  function SignificantLines(lines: seq<CString>): seq<string> {
    Kept(Keep, lines)
  }

  /** Reading one more chunk. */
  lemma KeptStep(keep: CString -> Option<string>, lines: seq<CString>, j: nat)
    requires j < |lines|
    ensures Kept(keep, lines[..j + 1]) ==
            Kept(keep, lines[..j]) + (if keep(lines[j]).Some? then [keep(lines[j]).value] else [])
  {
    assert lines[..j + 1][..j] == lines[..j];
  }

  /** The chunks read so far give a prefix of the texts of the whole file. */
  lemma {:induction false} KeptPrefix(keep: CString -> Option<string>, lines: seq<CString>, k: nat)
    requires k <= |lines|
    ensures Kept(keep, lines[..k]) <= Kept(keep, lines)
    decreases |lines| - k
  {
    if k < |lines| {
      KeptStep(keep, lines, k);
      KeptPrefix(keep, lines, k + 1);
    } else {
      assert lines[..k] == lines;
    }
  }

  /** The records read so far are a prefix of those of the whole file. */
  lemma SignificantPrefix(lines: seq<CString>, k: nat)
    requires k <= |lines|
    ensures SignificantLines(lines[..k]) <= SignificantLines(lines)
  {
    KeptPrefix(Keep, lines, k);
  }

  /** Every record line kept is non-empty and is not a comment, whatever its indentation was. */
  lemma {:induction false} SignificantLinesKept(lines: seq<CString>)
    ensures forall t :: t in SignificantLines(lines) ==> t != [] && t[0] != '#' && !IsSpace(t[0])
    decreases |lines|
  {
    if lines != [] {
      SignificantLinesKept(lines[..|lines| - 1]);
      var s := StripNewline(lines[|lines| - 1]);
      LeadingSpacesRun(s);
    }
  }

  /** The records `tokenize` makes of some lines, in order. */
  function Rows(tokenize: (string, char) -> seq<CString>, delim: char, ts: seq<string>): (rs: seq<seq<CString>>)
    ensures |rs| == |ts|
    decreases |ts|
  {
    if ts == [] then [] else Rows(tokenize, delim, ts[..|ts| - 1]) + [tokenize(ts[|ts| - 1], delim)]
  }

  /** One more line gives one more row. */
  lemma RowsStep(tokenize: (string, char) -> seq<CString>, delim: char, ts: seq<string>, t: string)
    ensures Rows(tokenize, delim, ts + [t]) == Rows(tokenize, delim, ts) + [tokenize(t, delim)]
  {
    assert (ts + [t])[..|ts|] == ts;
  }

  /** Row `i` is the record of line `i`. */
  lemma {:induction false} RowsAt(tokenize: (string, char) -> seq<CString>, delim: char, ts: seq<string>, i: nat)
    requires i < |ts|
    ensures Rows(tokenize, delim, ts)[i] == tokenize(ts[i], delim)
    decreases |ts|
  {
    if i < |ts| - 1 {
      RowsAt(tokenize, delim, ts[..|ts| - 1], i);
    }
  }

  /** Every row has `n` fields. */
  predicate Uniform(rows: seq<seq<string>>, n: nat) {
    forall i :: 0 <= i < |rows| ==> |rows[i]| == n
  }

  /**
   * The type a type tag names; `ds_str_compare_cstr` is taken as an
   * equality test. An unknown tag gives `DS_FIELD_STRING`.
   */
  function TypeOf(tag: CString): (t: FieldType)
    ensures t == IntField <==> tag == "integer"
    ensures t == DoubleField <==> tag == "double"
    ensures t == BooleanField <==> tag == "boolean"
    ensures t == StringField <==> tag != "integer" && tag != "double" && tag != "boolean"
  {
    if tag == "string" then StringField
    else if tag == "integer" then IntField
    else if tag == "double" then DoubleField
    else if tag == "boolean" then BooleanField
    else StringField
  }

  /** The types a record of tags names, field by field. */
  function TypesOf(tags: seq<CString>): (ts: seq<FieldType>)
    ensures |ts| == |tags| && forall i :: 0 <= i < |tags| ==> ts[i] == TypeOf(tags[i])
  {
    seq(|tags|, i requires 0 <= i < |tags| => TypeOf(tags[i]))
  }

  /**
   * The index of the first chunk from `k` on that `keep` does not skip, or
   * `|lines|` when it skips every one of them.
   */
  function NextKept(keep: CString -> Option<string>, lines: seq<CString>, k: nat): (j: nat)
    requires k <= |lines|
    ensures k <= j <= |lines|
    ensures j < |lines| ==> keep(lines[j]).Some?
    decreases |lines| - k
  {
    if k == |lines| || keep(lines[k]).Some? then k else NextKept(keep, lines, k + 1)
  }

  /**
   * Skipping to the next chunk that is kept adds nothing to the texts read;
   * reading that chunk adds its text.
   */
  lemma {:induction false} NextKeptLines(keep: CString -> Option<string>, lines: seq<CString>, k: nat)
    requires k <= |lines|
    ensures var j := NextKept(keep, lines, k);
            Kept(keep, lines[..j]) == Kept(keep, lines[..k]) &&
            (j < |lines| ==> Kept(keep, lines[..j + 1]) == Kept(keep, lines[..k]) + [keep(lines[j]).value])
    decreases |lines| - k
  {
    var j := NextKept(keep, lines, k);
    if k < |lines| && keep(lines[k]).None? {
      KeptStep(keep, lines, k);
      NextKeptLines(keep, lines, k + 1);
    }
    if j < |lines| {
      KeptStep(keep, lines, j);
    }
  }

  /**
   * `get_next_record` from chunk `k` on: it reads and skips chunks until
   * one is significant, and splits that one. At the end of the file it
   * gives `NULL`. `next` is where the file is left.
   */
  method GetNextRecord(lines: seq<CString>, k: nat, tokenize: (string, char) -> seq<CString>, delim: char)
    returns (rec: Option<seq<CString>>, next: nat)
    requires k <= |lines| && FitLines(lines)
    ensures k <= next <= |lines|
    ensures rec.None? ==> next == |lines| && SignificantLines(lines[..next]) == SignificantLines(lines[..k])
    ensures rec.Some? ==>
              k < next &&
              SignificantLines(lines[..next]) == SignificantLines(lines[..k]) + [LineText(lines[next - 1])] &&
              rec.value == tokenize(LineText(lines[next - 1]), delim)
  {
    var kept;
    kept, next := SkipToRecord(lines, k);
    if kept.Some? {
      SkippedToRecord(Keep, lines, k, kept.value.value, next);
      rec := Some(tokenize(kept.value.value, delim));
    } else {
      SkippedToEnd(Keep, lines, k, next);
      rec := None;
    }
  }

  /**
   * Where a skip loop started at chunk `k` stands after reading up to chunk
   * `next`: `kept` is `None` at the end of the file, and otherwise what
   * `keep` gives of the last chunk read, which is `None` when that chunk
   * was skipped too.
   */
  ghost predicate Skipping(keep: CString -> Option<string>, lines: seq<CString>, k: nat,
                           kept: Option<Option<string>>, next: nat) {
    k <= next <= |lines| &&
    match kept
    case None => next == |lines| == NextKept(keep, lines, k)
    case Some(t) =>
      k < next && t == keep(lines[next - 1]) &&
      (if t.None? then NextKept(keep, lines, k) == NextKept(keep, lines, next)
       else NextKept(keep, lines, k) == next - 1)
  }

  /**
   * The skip loop of `get_next_record`: `ds_str_getline` and
   * `ds_str_trim_leading` until a chunk is significant (`kept` is then the
   * text kept of it) or the file ends (`kept` is `None`).
   */
  method SkipToRecord(lines: seq<CString>, k: nat) returns (kept: Option<Option<string>>, next: nat)
    requires k <= |lines| && FitLines(lines)
    ensures Skipping(Keep, lines, k, kept, next) && !(kept.Some? && kept.value.None?)
  {
    var line := new TextBuffer.Create("");
    kept, next := NextChunk(line, lines, k, k);
    while kept.Some? && kept.value.None?
      invariant line.Valid() && fresh(line.Repr) && Skipping(Keep, lines, k, kept, next)
      decreases |lines| - next, kept.Some?
    {
      kept, next := NextChunk(line, lines, k, next);
    }
  }

  /** A skip loop that has read the whole file has added no text. */
  lemma SkippedToEnd(keep: CString -> Option<string>, lines: seq<CString>, k: nat, next: nat)
    requires Skipping(keep, lines, k, None, next)
    ensures next == |lines| && Kept(keep, lines[..next]) == Kept(keep, lines[..k])
  {
    NextKeptLines(keep, lines, k);
  }

  /** A skip loop stops just past the chunk that gives the next text. */
  lemma SkippedToRecord(keep: CString -> Option<string>, lines: seq<CString>, k: nat, t: string, next: nat)
    requires Skipping(keep, lines, k, Some(Some(t)), next)
    ensures k < next && keep(lines[next - 1]) == Some(t)
    ensures Kept(keep, lines[..next]) == Kept(keep, lines[..k]) + [t]
  {
    NextKeptLines(keep, lines, k);
  }

  /** Reading chunk `next` in a skip loop. */
  lemma SkipStep(keep: CString -> Option<string>, lines: seq<CString>, k: nat, next: nat)
    requires k <= next < |lines| && NextKept(keep, lines, k) == NextKept(keep, lines, next)
    ensures Skipping(keep, lines, k, Some(keep(lines[next])), next + 1)
  {
  }

  /**
   * One read of the skip loop at chunk `next`, where every chunk since `k`
   * has been skipped: `None` at the end of the file, otherwise what
   * `get_next_record` keeps of the chunk read.
   */
  method NextChunk(line: TextBuffer, lines: seq<CString>, ghost k: nat, next: nat)
    returns (kept: Option<Option<string>>, next': nat)
    requires line.Valid() && k <= next <= |lines| && FitLines(lines)
    requires NextKept(Keep, lines, k) == NextKept(Keep, lines, next)
    modifies line, line.Repr
    ensures line.Valid() && fresh(line.Repr - old(line.Repr))
    ensures Skipping(Keep, lines, k, kept, next')
    ensures kept.Some? <==> next < |lines|
    ensures next' == if kept.Some? then next + 1 else next
  {
    var success := ReadLine(line, lines, next);
    next' := next;
    kept := None;
    if success {
      var skip := Skippable(line);
      var s := line.Cstr();
      next' := next + 1;
      kept := Some(if skip then None else Some(s));
      assert kept.value == Keep(lines[next]);
      SkipStep(Keep, lines, k, next);
    }
  }

  /**
   * `ds_str_getline` of chunk `k` (failing at the end of the file) and
   * `ds_str_trim_leading` of the buffer.
   */
  method ReadLine(line: TextBuffer, lines: seq<CString>, k: nat) returns (success: bool)
    requires line.Valid() && k <= |lines| && FitLines(lines)
    modifies line, line.Repr
    ensures line.Valid() && fresh(line.Repr - old(line.Repr))
    ensures success <==> k < |lines|
    ensures success ==> line.Content == LineText(lines[k])
    ensures success ==> (Significant(lines[k]) <==> line.Content != [] && line.Content[0] != '#')
  {
    success := line.Getline(MAX_LINE_SIZE, if k < |lines| then Some(lines[k]) else None);
    line.TrimLeading();
  }

  /** The skip test of `get_next_record`: an empty line, or `#` at index 0. */
  method Skippable(line: TextBuffer) returns (skip: bool)
    requires line.Valid()
    ensures skip <==> line.Content == [] || line.Content[0] == '#'
  {
    skip := line.IsEmpty();
    if !skip {
      var first := line.CharAtIndex(0);
      skip := first == '#';
    }
  }

  /**
   * The assertions `delim_file_read` makes on an opened file: a header
   * record and a type record, of the same number of fields, which the
   * record set needs to be positive.
   */
  predicate HeadOk(tokenize: (string, char) -> seq<CString>, delim: char, sig: seq<string>) {
    2 <= |sig| && 0 < |tokenize(sig[0], delim)| == |tokenize(sig[1], delim)|
  }

  /**
   * `delim_file_read`: `NULL` when the file cannot be opened. Otherwise the
   * first significant line names the fields and the second gives their
   * types. Every later significant line is a row, in file order. The result
   * is `NULL` exactly when some row has a different number of fields than
   * the headers.
   */
  method DelimRead(file: Option<seq<CString>>, delim: char, tokenize: (string, char) -> seq<CString>)
    returns (result: RecordSet?)
    requires file.Some? ==> FitLines(file.value) && HeadOk(tokenize, delim, SignificantLines(file.value))
    ensures file.None? ==> result == null
    ensures file.Some? ==>
              var sig := SignificantLines(file.value);
              var rows := Rows(tokenize, delim, sig[2..]);
              (result == null <==> !Uniform(rows, |tokenize(sig[0], delim)|)) &&
              (result != null ==>
                 fresh(result.Repr) && result.Valid() &&
                 result.headers == Some(tokenize(sig[0], delim)) &&
                 result.types[..] == TypesOf(tokenize(sig[1], delim)) &&
                 result.records.items == rows)
  {
    if file.None? {
      return null;
    }
    var headers, types, k := ReadHead(file.value, tokenize, delim);
    result := new RecordSet.Create(|headers|);
    result.SetHeaders(headers);
    SetTypes(result, types);
    var mismatch := ReadRows(result, file.value, k, tokenize, delim);
    if mismatch {
      result.Destroy();
      return null;
    }
  }

  /** The header and type records, which the source asserts are there. */
  method ReadHead(lines: seq<CString>, tokenize: (string, char) -> seq<CString>, delim: char)
    returns (headers: seq<CString>, types: seq<CString>, k: nat)
    requires FitLines(lines) && HeadOk(tokenize, delim, SignificantLines(lines))
    ensures k <= |lines| && SignificantLines(lines[..k]) == SignificantLines(lines)[..2]
    ensures headers == tokenize(SignificantLines(lines)[0], delim)
    ensures types == tokenize(SignificantLines(lines)[1], delim)
  {
    ghost var sig := SignificantLines(lines);
    assert lines[..|lines|] == lines;
    var h, k1 := GetNextRecord(lines, 0, tokenize, delim);
    assert SignificantLines(lines[..0]) == [] by {
      assert lines[..0] == [];
    }
    assert h.Some?;
    SignificantPrefix(lines, k1);
    assert SignificantLines(lines[..k1]) == [sig[0]];
    var t, k2 := GetNextRecord(lines, k1, tokenize, delim);
    assert t.Some?;
    SignificantPrefix(lines, k2);
    headers, types, k := h.value, t.value, k2;
  }

  /** The loop over the type record: each field's tag sets that field's type. */
  method SetTypes(rs: RecordSet, tags: seq<CString>)
    requires rs.Valid() && |tags| == rs.numFields
    modifies rs.types
    ensures rs.Valid() && rs.types[..] == TypesOf(tags)
  {
    for i := 0 to |tags|
      invariant rs.Valid()
      invariant forall j :: 0 <= j < i ==> rs.types[j] == TypeOf(tags[j])
    {
      rs.SetType(i, TypeOf(tags[i]));
    }
  }

  /** The rows read once chunks up to `pos` are read: the lines after the first two. */
  function RowsUpTo(tokenize: (string, char) -> seq<CString>, delim: char, lines: seq<CString>, pos: nat): seq<seq<CString>>
    requires pos <= |lines| && 2 <= |SignificantLines(lines[..pos])|
  {
    Rows(tokenize, delim, SignificantLines(lines[..pos])[2..])
  }

  /**
   * The state of the row loop at chunk `pos`: the rows read so far are
   * the records of the set, and all have the headers' arity.
   */
  ghost predicate Loaded(rs: RecordSet, lines: seq<CString>, pos: nat, tokenize: (string, char) -> seq<CString>, delim: char)
    reads rs, rs.Repr
  {
    rs.Valid() && pos <= |lines| && FitLines(lines) &&
    2 <= |SignificantLines(lines[..pos])| && SignificantLines(lines[..pos]) <= SignificantLines(lines) &&
    rs.records.items == RowsUpTo(tokenize, delim, lines, pos) && Uniform(rs.records.items, rs.numFields)
  }

  /**
   * The row loop of `delim_file_read` from chunk `k` on, where the header and
   * type records have been read: each row is added while it has `numFields`
   * fields. `mismatch` reports the first row that does not.
   */
  method ReadRows(rs: RecordSet, lines: seq<CString>, k: nat, tokenize: (string, char) -> seq<CString>, delim: char)
    returns (mismatch: bool)
    requires rs.Valid() && rs.records.items == [] && k <= |lines| && FitLines(lines)
    requires |SignificantLines(lines[..k])| == 2 && SignificantLines(lines[..k]) <= SignificantLines(lines)
    modifies rs.Repr
    ensures rs.Valid() && rs.Repr == old(rs.Repr)
    ensures rs.headers == old(rs.headers) && rs.types[..] == old(rs.types[..])
    ensures var rows := Rows(tokenize, delim, SignificantLines(lines)[2..]);
            (mismatch <==> !Uniform(rows, rs.numFields)) && (!mismatch ==> rs.records.items == rows)
  {
    var pos := k;
    mismatch := false;
    var more := true;
    assert SignificantLines(lines[..k])[2..] == [];
    while more
      invariant rs.Repr == old(rs.Repr) && rs.headers == old(rs.headers) && rs.types[..] == old(rs.types[..])
      invariant !mismatch ==> Loaded(rs, lines, pos, tokenize, delim)
      invariant !more && !mismatch ==> pos == |lines|
      invariant mismatch ==> !more && rs.Valid() && pos <= |lines| && 2 <= |SignificantLines(lines[..pos])|
      invariant mismatch ==> SignificantLines(lines[..pos]) <= SignificantLines(lines)
      invariant mismatch ==> !Uniform(RowsUpTo(tokenize, delim, lines, pos), rs.numFields)
      decreases |lines| - pos, more
    {
      more, mismatch, pos := AddNextRow(rs, lines, pos, tokenize, delim);
    }
    if mismatch {
      RowsPrefixUniform(tokenize, delim, SignificantLines(lines[..pos])[2..], SignificantLines(lines)[2..], rs.numFields);
    } else {
      assert lines[..pos] == lines;
    }
  }

  /** One turn of the row loop: read a record, and add it unless its arity is wrong. */
  method AddNextRow(rs: RecordSet, lines: seq<CString>, pos: nat, tokenize: (string, char) -> seq<CString>, delim: char)
    returns (more: bool, mismatch: bool, next: nat)
    requires Loaded(rs, lines, pos, tokenize, delim)
    modifies rs.Repr
    ensures rs.Repr == old(rs.Repr) && rs.headers == old(rs.headers) && rs.types[..] == old(rs.types[..])
    ensures pos <= next && (more ==> pos < next)
    ensures !mismatch ==> Loaded(rs, lines, next, tokenize, delim)
    ensures !more && !mismatch ==> next == |lines|
    ensures mismatch ==> !more && rs.Valid() && next <= |lines| && 2 <= |SignificantLines(lines[..next])|
    ensures mismatch ==> SignificantLines(lines[..next]) <= SignificantLines(lines)
    ensures mismatch ==> !Uniform(RowsUpTo(tokenize, delim, lines, next), rs.numFields)
  {
    var row;
    row, next := GetNextRecord(lines, pos, tokenize, delim);
    mismatch := false;
    if row.None? {
      more := false;
      return;
    }
    more := true;
    ghost var before := SignificantLines(lines[..pos]);
    SignificantPrefix(lines, next);
    assert SignificantLines(lines[..next])[2..] == before[2..] + [LineText(lines[next - 1])];
    RowsStep(tokenize, delim, before[2..], LineText(lines[next - 1]));
    if |row.value| != rs.numFields {
      mismatch := true;
      more := false;
      assert RowsUpTo(tokenize, delim, lines, next)[|before| - 2] == row.value;
    } else {
      var _ := rs.AddRecord(row.value);
    }
  }

  /** A row of the wrong arity among the first rows is one among all of them. */
  lemma RowsPrefixUniform(tokenize: (string, char) -> seq<CString>, delim: char,
                          ts: seq<string>, us: seq<string>, n: nat)
    requires ts <= us && !Uniform(Rows(tokenize, delim, ts), n)
    ensures !Uniform(Rows(tokenize, delim, us), n)
  {
    var i :| 0 <= i < |ts| && |Rows(tokenize, delim, ts)[i]| != n;
    RowsAt(tokenize, delim, ts, i);
    RowsAt(tokenize, delim, us, i);
  }
}
