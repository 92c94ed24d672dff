/**
 * The text-table layout shared by the record set (ds_recordset.c) and the
 * result set (ds_result_set.c): column widths kept as the longest field
 * seen per column, separator lines of `+` and `-`, record lines of
 * left-justified cells, and the report that stacks them one per line.
 * Both files compute these with the same loops; this module states what
 * the loops produce and proves the layout facts both rely on.
 */
module TableFormat {
  import opened Wrappers
  import opened CStrings

  /** `enum ds_field_types`. */
  datatype FieldType = StringField | IntField | BooleanField | DoubleField

  function Dashes(n: nat): (s: string)
    ensures |s| == n && forall k :: 0 <= k < n ==> s[k] == '-'
  {
    seq(n, _ => '-')
  }

  function Spaces(n: nat): (s: string)
    ensures |s| == n && forall k :: 0 <= k < n ==> s[k] == ' '
  {
    seq(n, _ => ' ')
  }

  /** The sum of the column widths. */
  function Sum(ws: seq<nat>): nat
    decreases |ws|
  {
    if ws == [] then 0 else Sum(ws[..|ws| - 1]) + ws[|ws| - 1]
  }

  /**
   * `record_line_length`: the size of a buffer for one table line, its NUL
   * included: one byte for the NUL, one for the closing border, and for each
   * column its width plus a border and two padding spaces.
   */
  function LineSize(widths: seq<nat>): nat {
    1 + 1 + Sum(widths) + |widths| * 3
  }

  /** `"| %-*s "`: a cell, the field left-justified in `width` columns; a longer field is not cut. */
  function Cell(width: nat, field: string): (c: string)
    ensures |field| <= width ==> |c| == width + 3
    ensures '\0' !in field ==> '\0' !in c
  {
    "| " + field + Spaces(if |field| < width then width - |field| else 0) + " "
  }

  /**
   * The cells of a row, left to right. Only rows with one field per column
   * are ever laid out; the function is total so that it needs no proof of
   * that where it is used.
   */
  function Cells(widths: seq<nat>, row: seq<string>): string
    decreases |widths|
  {
    if widths == [] || row == [] then ""
    else Cells(widths[..|widths| - 1], row[..|row| - 1]) + Cell(widths[|widths| - 1], row[|row| - 1])
  }

  /** A record line: the cells and a closing `|`. */
  function RecordLine(widths: seq<nat>, row: seq<string>): string
  {
    Cells(widths, row) + "|"
  }

  /** `+` and `width + 2` dashes per column. */
  function Rule(widths: seq<nat>): (r: string)
    ensures '\0' !in r
    decreases |widths|
  {
    if widths == [] then ""
    else Rule(widths[..|widths| - 1]) + "+" + Dashes(widths[|widths| - 1] + 2)
  }

  /** A separator line: the rule and a closing `+`. */
  function SeparatorLine(widths: seq<nat>): string {
    Rule(widths) + "+"
  }

  /** Every field of `row` fits its column. */
  predicate Fits(widths: seq<nat>, row: seq<string>) {
    |row| == |widths| && forall i :: 0 <= i < |row| ==> |row[i]| <= widths[i]
  }

  /** Every row fits. */
  predicate AllFit(widths: seq<nat>, rows: seq<seq<string>>)
    ensures AllFit(widths, rows) ==> forall k :: 0 <= k < |rows| ==> |rows[k]| == |widths|
  {
    forall k :: 0 <= k < |rows| ==> Fits(widths, rows[k])
  }

  /** The record lines of `rows`, each followed by a newline. */
  function Body(widths: seq<nat>, rows: seq<seq<string>>): string
    decreases |rows|
  {
    if rows == [] then ""
    else Body(widths, rows[..|rows| - 1]) + RecordLine(widths, rows[|rows| - 1]) + "\n"
  }

  /**
   * `get_text_report`: a separator, the header line and another separator
   * when there are headers, one line per record, and a closing separator;
   * every line ends with a newline.
   */
  function TextReport(widths: seq<nat>, headers: Option<seq<string>>, rows: seq<seq<string>>): string
  {
    Head(widths, headers) + Body(widths, rows) + SeparatorLine(widths) + "\n"
  }

  /** The lines above the records: a separator, then the header line and a second separator when there are headers. */
  function Head(widths: seq<nat>, headers: Option<seq<string>>): string
  {
    var sep := SeparatorLine(widths) + "\n";
    sep + (if headers.Some? then RecordLine(widths, headers.value) + "\n" + sep else "")
  }

  /** The number of lines above the records. */
  function HeadRows(headers: Option<seq<string>>): nat {
    if headers.Some? then 3 else 1
  }

  /** The number of lines of a report. */
  function ReportRows(headers: Option<seq<string>>, rows: seq<seq<string>>): nat {
    HeadRows(headers) + |rows| + 1
  }

  // ------------------------------------------------------------ line widths

  /** A separator line fills a line buffer up to its NUL. */
  lemma {:induction false} SeparatorLength(widths: seq<nat>)
    ensures |SeparatorLine(widths)| == LineSize(widths) - 1
  {
    RuleLength(widths);
  }

  lemma {:induction false} RuleLength(widths: seq<nat>)
    ensures |Rule(widths)| == Sum(widths) + 3 * |widths|
    decreases |widths|
  {
    if widths != [] {
      RuleLength(widths[..|widths| - 1]);
    }
  }

  /** A record line whose fields fit their columns is exactly as long as a separator line. */
  lemma RecordLineLength(widths: seq<nat>, row: seq<string>)
    requires Fits(widths, row)
    ensures |RecordLine(widths, row)| == LineSize(widths) - 1
  {
    CellsLength(widths, row);
  }

  lemma {:induction false} CellsLength(widths: seq<nat>, row: seq<string>)
    requires Fits(widths, row)
    ensures |Cells(widths, row)| == Sum(widths) + 3 * |widths|
    decreases |widths|
  {
    if widths != [] {
      CellsLength(widths[..|widths| - 1], row[..|row| - 1]);
    }
  }

  /**
   * When every row fits, the report is a rectangle of lines, each as long as
   * a line buffer once its NUL becomes the newline.
   */
  lemma ReportLength(widths: seq<nat>, headers: Option<seq<string>>, rows: seq<seq<string>>)
    requires headers.Some? ==> Fits(widths, headers.value)
    requires AllFit(widths, rows)
    ensures |TextReport(widths, headers, rows)| == LineSize(widths) * ReportRows(headers, rows)
  {
    var size := LineSize(widths);
    SeparatorLength(widths);
    BodyLength(widths, rows);
    if headers.Some? {
      RecordLineLength(widths, headers.value);
      assert size * (|rows| + 4) == size * |rows| + 4 * size;
    } else {
      assert size * (|rows| + 2) == size * |rows| + 2 * size;
    }
  }

  lemma {:induction false} BodyLength(widths: seq<nat>, rows: seq<seq<string>>)
    requires AllFit(widths, rows)
    ensures |Body(widths, rows)| == LineSize(widths) * |rows|
    decreases |rows|
  {
    if rows != [] {
      var n := |rows|;
      var front, last := rows[..n - 1], rows[n - 1];
      assert AllFit(widths, front);
      BodyLength(widths, front);
      RecordLineLength(widths, last);
      assert |Body(widths, rows)| == |Body(widths, front)| + LineSize(widths);
      MulStep(LineSize(widths), n);
    }
  }

  /** One more row: its line and a newline extend the body. */
  lemma BodyStep(prefix: string, widths: seq<nat>, rows: seq<seq<string>>, k: nat)
    requires k < |rows|
    ensures prefix + Body(widths, rows[..k]) + RecordLine(widths, rows[k]) + "\n" == prefix + Body(widths, rows[..k + 1])
  {
    assert rows[..k + 1][..k] == rows[..k];
  }

  lemma MulStep(a: nat, n: nat)
    requires 0 < n
    ensures a * (n - 1) + a == a * n
  {
  }

  lemma MulMono(a: nat, m: nat, n: nat)
    requires m <= n
    ensures a * m <= a * n
  {
  }

  /** A prefix of the widths sums to no more than all of them; one more column adds its width. */
  lemma {:induction false} SumPrefix(ws: seq<nat>, j: nat)
    requires j < |ws|
    ensures Sum(ws[..j + 1]) == Sum(ws[..j]) + ws[j]
    ensures Sum(ws[..j + 1]) <= Sum(ws)
    decreases |ws|
  {
    assert ws[..j + 1][..j] == ws[..j];
    if j + 1 < |ws| {
      var front := ws[..|ws| - 1];
      assert front[..j + 1] == ws[..j + 1] && front[..j] == ws[..j];
      SumPrefix(front, j);
    } else {
      assert ws[..j + 1] == ws;
    }
  }

  /** One more column: its cell extends the cells of the columns before it, and the line still fits. */
  lemma CellsStep(widths: seq<nat>, row: seq<string>, i: nat)
    requires Fits(widths, row) && i < |widths|
    ensures Fits(widths[..i], row[..i])
    ensures Cells(widths[..i + 1], row[..i + 1]) == Cells(widths[..i], row[..i]) + Cell(widths[i], row[i])
    ensures |Cells(widths[..i], row[..i])| + |Cell(widths[i], row[i])| + 1 < LineSize(widths)
  {
    assert widths[..i + 1][..i] == widths[..i] && row[..i + 1][..i] == row[..i];
    CellsLength(widths[..i], row[..i]);
    SumPrefix(widths, i);
  }

  /** One more column: its `+` and dashes extend the rule, which still leaves room for the closing `+`. */
  lemma RuleStep(widths: seq<nat>, i: nat)
    requires i < |widths|
    ensures Rule(widths[..i + 1]) == Rule(widths[..i]) + "+" + Dashes(widths[i] + 2)
    ensures |Rule(widths[..i])| == Sum(widths[..i]) + 3 * i
    ensures |Rule(widths[..i + 1])| + 1 < LineSize(widths)
  {
    assert widths[..i + 1][..i] == widths[..i];
    RuleLength(widths[..i]);
    RuleLength(widths[..i + 1]);
    SumPrefix(widths, i);
  }

  /** The sum of the widths kept modulo `2^64` after one more column. */
  lemma SumStepMod(ws: seq<nat>, i: nat)
    requires i < |ws|
    ensures (Sum(ws[..i]) % WORD + ws[i]) % WORD == Sum(ws[..i + 1]) % WORD
  {
    SumPrefix(ws, i);
    ModAddStep(Sum(ws[..i]), ws[i]);
  }

  /** Adding `b` to a sum kept modulo `WORD` is the sum of `a + b` modulo `WORD`. */
  lemma ModAddStep(a: nat, b: nat)
    ensures (a % WORD + b) % WORD == (a + b) % WORD
  {
    var q := a / WORD;
    assert a == q * WORD + a % WORD;
    assert a + b == q * WORD + (a % WORD + b);
  }

  /**
   * `n` lines of `size` bytes, counted line by line: the report builders
   * track their length with it so that their proofs need no nonlinear
   * arithmetic.
   */
  function Times(size: nat, n: nat): nat {
    if n == 0 then 0 else Times(size, n - 1) + size
  }

  lemma {:induction false} TimesIsProduct(size: nat, n: nat)
    ensures Times(size, n) == size * n
  {
    if n > 0 {
      TimesIsProduct(size, n - 1);
      MulStep(size, n);
    }
  }

  /**
   * A report whose size fits below `SIZE_MAX` has room, counted line by
   * line, for the lines above the records, the records and the closing
   * separator.
   */
  lemma ReportRoom(size: nat, headers: Option<seq<string>>, rows: seq<seq<string>>)
    requires size * ReportRows(headers, rows) < SIZE_MAX
    ensures Times(size, ReportRows(headers, rows)) < SIZE_MAX
    ensures Times(size, HeadRows(headers)) + Times(size, |rows| + 1) == Times(size, ReportRows(headers, rows))
  {
    TimesIsProduct(size, ReportRows(headers, rows));
    TimesAdd(size, HeadRows(headers), |rows| + 1);
  }

  /**
   * The buffer of `ds_result_set_get_text_report`, `size * (n + 4) + 1`
   * bytes for `n` records (`Times(size, n + 4) + 1`), has room for every line of the report and the
   * closing NUL, with or without headers.
   */
  lemma FixedReportRoom(size: nat, headers: Option<seq<string>>, rows: seq<seq<string>>)
    ensures Times(size, HeadRows(headers)) + Times(size, |rows| + 1) <= Times(size, |rows| + 4)
    ensures size <= Times(size, |rows| + 4)
  {
    TimesAdd(size, HeadRows(headers), |rows| + 1);
    TimesMono(size, ReportRows(headers, rows), |rows| + 4);
    TimesMono(size, 1, |rows| + 4);
  }

  lemma {:induction false} TimesAdd(size: nat, m: nat, n: nat)
    ensures Times(size, m) + Times(size, n) == Times(size, m + n)
    decreases n
  {
    if n > 0 {
      TimesAdd(size, m, n - 1);
    }
  }

  lemma {:induction false} TimesMono(size: nat, m: nat, n: nat)
    requires m <= n
    ensures Times(size, m) <= Times(size, n)
    decreases n
  {
    if m < n {
      TimesMono(size, m, n - 1);
    }
  }

  // ------------------------------------------------------------ column widths

  /** The length of the longest field in column `i` over `rows` (0 for no rows). */
  function ColumnMax(rows: seq<seq<string>>, i: nat): (m: nat)
    ensures forall r :: r in rows && i < |r| ==> |r[i]| <= m
    ensures m == 0 || exists r :: r in rows && i < |r| && |r[i]| == m
    decreases |rows|
  {
    if rows == [] then 0
    else
      var front := rows[..|rows| - 1];
      var last := rows[|rows| - 1];
      var m := ColumnMax(front, i);
      assert forall r :: r in rows <==> r in front || r == last;
      if i < |last| && m < |last[i]| then |last[i]| else m
  }

  /**
   * `ws` holds the widths `update_field_lengths` has built after seeing
   * `rows`, starting from zeros: each column as wide as its longest field.
   */
  ghost predicate Tracks(ws: seq<nat>, rows: seq<seq<string>>) {
    forall i :: 0 <= i < |ws| ==> ws[i] == ColumnMax(rows, i)
  }

  /** Zero widths track no rows. */
  lemma TracksNothing(n: nat)
    ensures Tracks(seq(n, _ => 0), [])
  {
  }

  /**
   * Seeing one more row and raising each width to that row's field length
   * when it is longer keeps the widths tracking the rows seen.
   */
  lemma TracksAppend(ws: seq<nat>, ws': seq<nat>, rows: seq<seq<string>>, row: seq<string>)
    requires Tracks(ws, rows) && Widened(ws, ws', row)
    ensures Tracks(ws', rows + [row])
  {
    assert (rows + [row])[..|rows|] == rows;
  }

  /** `ws'` is `ws` with each column widened to the length of its field in `row` when that is longer. */
  predicate Widened(ws: seq<nat>, ws': seq<nat>, row: seq<string>) {
    |ws'| == |ws| == |row| &&
    forall i :: 0 <= i < |ws| ==> ws'[i] == if ws[i] < |row[i]| then |row[i]| else ws[i]
  }

  /** Widening keeps every row that fitted fitting, and makes the new row fit. */
  lemma WidenedFits(ws: seq<nat>, ws': seq<nat>, row: seq<string>, rows: seq<seq<string>>)
    requires Widened(ws, ws', row) && AllFit(ws, rows)
    ensures AllFit(ws', rows + [row])
    ensures forall r :: Fits(ws, r) ==> Fits(ws', r)
  {
    assert forall k :: 0 <= k < |rows| ==> (rows + [row])[k] == rows[k];
  }

  /** Every row seen fits widths that track the rows: each column is wide enough for all of its fields. */
  lemma SeenRowsFit(ws: seq<nat>, rows: seq<seq<string>>, r: seq<string>)
    requires Tracks(ws, rows) && r in rows && |r| == |ws|
    ensures Fits(ws, r)
  {
  }

  // ------------------------------------------------------------ comma-separated lines

  /**
   * `get_cs_line_from_record`: the fields joined by commas, each between
   * single quotes when `squote` is set.
   */
  function CsLine(row: seq<string>, squote: bool): string
    decreases |row|
  {
    if row == [] then ""
    else
      var q := if squote then "'" else "";
      CsLine(row[..|row| - 1], squote) + (if |row| == 1 then "" else ",") + q + row[|row| - 1] + q
  }

  /**
   * The `calloc`ed buffer of `Sum(widths) + 3 * n` bytes holds a
   * comma-separated line and its NUL whenever the fields fit their columns.
   */
  lemma CsLineFits(widths: seq<nat>, row: seq<string>, squote: bool)
    requires Fits(widths, row) && row != []
    ensures |CsLine(row, squote)| < Sum(widths) + 3 * |widths|
  {
    CsLineLength(widths, row, squote);
  }

  lemma {:induction false} CsLineLength(widths: seq<nat>, row: seq<string>, squote: bool)
    requires Fits(widths, row)
    ensures |CsLine(row, squote)| + (if row == [] then 0 else 1) <= Sum(widths) + 3 * |widths|
    decreases |row|
  {
    if row != [] {
      CsLineLength(widths[..|widths| - 1], row[..|row| - 1], squote);
    }
  }

  /**
   * One more field of a comma-separated line: a comma unless it is the
   * first, and the field between quotes when `squote` is set. The longer
   * line still fits the buffer.
   */
  lemma CsStep(widths: seq<nat>, row: seq<string>, squote: bool, i: nat)
    requires Fits(widths, row) && i < |row|
    ensures var q := if squote then "'" else "";
            CsLine(row[..i + 1], squote) == CsLine(row[..i], squote) + ((if i == 0 then "" else ",") + q + row[i] + q)
    ensures |CsLine(row[..i + 1], squote)| < Sum(widths) + 3 * |widths|
  {
    assert row[..i + 1][..i] == row[..i];
    assert Fits(widths[..i + 1], row[..i + 1]);
    CsLineFits(widths[..i + 1], row[..i + 1], squote);
    SumPrefix(widths, i);
  }

  /** `"INSERT INTO %s (%s) VALUES (%s)"`. */
  function InsertQuery(table: string, columns: string, values: string): (q: string)
    ensures |q| == 25 + |table| + |columns| + |values|
  {
    "INSERT INTO " + table + " (" + columns + ") VALUES (" + values + ")"
  }
}
