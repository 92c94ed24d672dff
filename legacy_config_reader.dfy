/**
 * The older configuration reader: lib/config_file_read/config_file_read.c
 * over `ds_map`, and its copy config_file_read/config_file_read.c over
 * `map`, which differs only in the names of the map functions. Each line
 * goes into a fixed `char` buffer, is trimmed as a whole, and is then
 * copied byte by byte into zeroed `key` and `value` buffers around its
 * first `=`.
 *
 * `trim` comes from string_functions, which is not part of this model. It
 * is taken to remove leading and trailing `isspace` bytes, as `Trim` does.
 */
module LegacyConfigReader {
  import opened Wrappers
  import opened CStrings
  import opened CBuffers
  import opened HashMaps
  import opened ConfigLines

  /**
   * How the older reader treats an already trimmed line. It skips the empty
   * line and a line that starts with `#`. A line without `=`, or whose first
   * `=` is its last byte, leaves `value` empty and is rejected. Otherwise the
   * key is the text before the first `=` and the value the text after it,
   * both trimmed again.
   */
  function ClassifyTrimmed(t: CString): LineKind {
    if t == [] || t[0] == '#' then Skip
    else
      var i := IndexOf(t, '=');
      if i < 0 || i == |t| - 1 then Bad
      else Pair(Entry(Trim(t[..i]), Trim(t[i + 1..])))
  }

  /**
   * The three cases of `ClassifyTrimmed`: skipped exactly when empty or a
   * comment; rejected exactly when no `=` comes before the last byte; and
   * otherwise split at the first `=`, which has at least one byte after it.
   */
  lemma ClassifyTrimmedCases(t: CString)
    ensures ClassifyTrimmed(t) == Skip <==> t == [] || t[0] == '#'
    ensures ClassifyTrimmed(t) == Bad <==> t != [] && t[0] != '#' && '=' !in t[..|t| - 1]
    ensures ClassifyTrimmed(t).Pair? ==>
              exists i :: 0 <= i < |t| - 1 && t[i] == '=' && '=' !in t[..i] &&
                          ClassifyTrimmed(t).entry == Entry(Trim(t[..i]), Trim(t[i + 1..]))
  {
    if t != [] && t[0] != '#' {
      var i := IndexOf(t, '=');
      if i < 0 {
        assert forall c :: c in t[..|t| - 1] ==> c in t;
      } else if i == |t| - 1 {
        assert t[..|t| - 1] == t[..i];
      } else {
        assert t[..|t| - 1][i] == '=';
      }
    }
  }

  /** What the read loop makes of one `fgets` chunk: the whole chunk is trimmed first. */
  function Classify(chunk: CString): LineKind {
    ClassifyTrimmed(Trim(chunk))
  }

  /** Blank lines are skipped, as the file's header comment says. */
  lemma BlankLineSkipped(chunk: CString)
    requires forall k :: 0 <= k < |chunk| ==> IsSpace(chunk[k])
    ensures Classify(chunk) == Skip
  {
    TrimEmptyIffAllSpace(chunk);
  }

  /** A comment is skipped however far it is indented. */
  lemma IndentedCommentSkipped(blanks: CString, comment: CString)
    requires forall k :: 0 <= k < |blanks| ==> IsSpace(blanks[k])
    requires comment != [] && comment[0] == '#'
    ensures Classify(blanks + comment) == Skip
  {
    var s := blanks + comment;
    var a, b := TrimSlice(s);
    assert s[|blanks|] == '#';
    if a < |blanks| {
      assert IsSpace(s[a]);
    } else if a > |blanks| {
      assert IsSpace(s[|blanks|]);
    }
  }

  /**
   * Every entry this reader inserts has a non-empty value: a line whose
   * value would be empty or blank makes the file malformed instead.
   */
  lemma ValuesNonEmpty(chunk: CString)
    requires Classify(chunk).Pair?
    ensures Classify(chunk).entry.value != []
  {
    var t := Trim(chunk);
    TrimIsTrimmed(chunk);
    var i := IndexOf(t, '=');
    var rest := t[i + 1..];
    assert rest[|rest| - 1] == t[|t| - 1];
    TrimEmptyIffAllSpace(rest);
  }

  /** A line that ends with its first `=` is rejected, whatever key it names. */
  lemma EmptyValueIsMalformed(key: CString)
    requires Trimmed(key + ['=']) && key != [] && key[0] != '#' && '=' !in key
    ensures Classify(key + ['=']) == Bad
  {
    TrimOfTrimmed(key + ['=']);
    assert (key + ['='])[..|key|] == key;
  }

  /** Trimming never lengthens a line, so the trimmed chunk fits the line buffer. */
  lemma TrimShorter(s: string)
    ensures |Trim(s)| <= |s|
  {
    var a, b := TrimSlice(s);
  }

  /**
   * The per-line part of the loop body, from the trimmed line in `buffer`:
   * the skip test, the copy of the key up to the first `=` or the end, the
   * copy of the value after that `=`, and the empty-value test. The copies
   * taken of `key` and `value` for the insertion are trimmed as the source
   * trims them in place.
   */
  method ParseLine(buffer: array<char>, ghost t: CString) returns (kind: LineKind)
    requires buffer.Length == MAX_BUFFER_SIZE && HoldsCString(buffer, t)
    ensures kind == ClassifyTrimmed(t)
  {
    if buffer[0] == '#' || buffer[0] == '\0' {
      return Skip;
    }
    var key := new char[MAX_BUFFER_SIZE](_ => '\0');
    var value := new char[MAX_BUFFER_SIZE](_ => '\0');
    var bufIdx := CopyKey(buffer, t, key);
    var sep := buffer[bufIdx];
    bufIdx := bufIdx + 1;
    if sep == '=' {
      IndexOfUnique(t, '=', bufIdx - 1);
      CopyValue(buffer, t, bufIdx, value);
    } else {
      assert IndexOf(t, '=') == -1;
    }
    if value[0] == '\0' {
      return Bad;
    }
    var k := ReadCString(key, t[..bufIdx - 1]);
    var v := ReadCString(value, t[bufIdx..]);
    kind := Pair(Entry(Trim(k), Trim(v)));
  }

  /**
   * The key loop: copies the bytes before the first `=` (all of `t` when it
   * has none) into the zeroed `key`, and returns the index it stopped at.
   */
  method CopyKey(buffer: array<char>, ghost t: CString, key: array<char>) returns (bufIdx: nat)
    requires HoldsCString(buffer, t) && key.Length == buffer.Length && key != buffer
    requires forall k :: 0 <= k < key.Length ==> key[k] == '\0'
    modifies key
    ensures bufIdx <= |t| && '=' !in t[..bufIdx] && (bufIdx == |t| || t[bufIdx] == '=')
    ensures HoldsCString(key, t[..bufIdx])
  {
    bufIdx := 0;
    while buffer[bufIdx] != '\0' && buffer[bufIdx] != '='
      invariant bufIdx <= |t| && '=' !in t[..bufIdx]
      invariant key[..bufIdx] == t[..bufIdx]
      invariant forall k :: bufIdx <= k < key.Length ==> key[k] == '\0'
      decreases |t| - bufIdx
    {
      key[bufIdx] := buffer[bufIdx];
      assert t[..bufIdx + 1] == t[..bufIdx] + [t[bufIdx]];
      bufIdx := bufIdx + 1;
    }
  }

  /**
   * The value loop: copies the bytes from `from` to the end of the line
   * into the zeroed `value`.
   */
  method CopyValue(buffer: array<char>, ghost t: CString, from: nat, value: array<char>)
    requires HoldsCString(buffer, t) && from <= |t| && value.Length == buffer.Length && value != buffer
    requires forall k :: 0 <= k < value.Length ==> value[k] == '\0'
    modifies value
    ensures HoldsCString(value, t[from..])
  {
    var bufIdx := from;
    var valIdx := 0;
    while buffer[bufIdx] != '\0'
      invariant from <= bufIdx <= |t| && valIdx == bufIdx - from
      invariant value[..valIdx] == t[from..bufIdx]
      invariant forall k :: valIdx <= k < value.Length ==> value[k] == '\0'
      decreases |t| - bufIdx
    {
      value[valIdx] := buffer[bufIdx];
      assert t[from..bufIdx + 1] == t[from..bufIdx] + [t[bufIdx]];
      valIdx := valIdx + 1;
      bufIdx := bufIdx + 1;
    }
    assert t[from..bufIdx] == t[from..];
  }

  /**
   * The file-scope state of the older reader: `config_map`, which is
   * `NULL` before the first read and after `config_file_free`.
   */
  class LegacyConfig {
    var configMap: ChainedMap?
    ghost var Repr: set<object>

    ghost predicate Valid()
      reads this, Repr
    {
      this in Repr &&
      (configMap != null ==>
         configMap in Repr && configMap.Repr <= Repr && this !in configMap.Repr &&
         configMap.Valid() && configMap.hashSize == CONFIG_MAP_SIZE)
    }

    /** The static initialiser: no map yet. */
    constructor Create()
      ensures Valid() && fresh(Repr) && configMap == null
    {
      configMap := null;
      Repr := {this};
    }

    /**
     * `config_file_read`: `NO_FILE`, with nothing changed, when the file
     * cannot be opened. Otherwise a new map replaces the old one (which is
     * not freed) and the chunks are read in order. At the first malformed
     * chunk the map is freed and forgotten; when no chunk is malformed the
     * map holds exactly the entries of the file.
     */
    method ReadFile(file: Option<seq<CString>>) returns (status: Status)
      requires Valid() && (file.Some? ==> Chunks(file.value))
      modifies this
      ensures Valid() && fresh(Repr - old(Repr))
      ensures file.None? ==> status == NoFile && configMap == old(configMap)
      ensures file.Some? ==> status == Scan(Classify, file.value).status
      ensures file.Some? && status == Ok ==>
                configMap != null && fresh(configMap) &&
                configMap.Inserted == Scan(Classify, file.value).entries
      ensures file.Some? && status == Malformed ==> configMap == null
    {
      if file.None? {
        return NoFile;
      }
      var m := new ChainedMap.Init(CONFIG_MAP_SIZE);
      configMap := m;
      Repr := Repr + m.Repr;
      status := ReadChunks(m, file.value);
      if status == Malformed {
        var _ := Free();
      }
    }

    /** `config_file_value`: the value first inserted under the key, or `NULL` without a map. */
    method Value(key: CString) returns (r: Option<CString>)
      requires Valid()
      ensures configMap == null ==> r == None
      ensures configMap != null ==> r == Lookup(configMap.Inserted, key)
    {
      if configMap == null {
        return None;
      }
      r := configMap.GetValue(key);
    }

    /**
     * `config_file_free`: destroys the map, if there is one, and forgets
     * it. `freed` lists the entries freed.
     */
    method Free() returns (freed: seq<Entry>)
      requires Valid()
      modifies this
      ensures Valid() && configMap == null && Repr == old(Repr)
      ensures old(configMap) != null ==> multiset(freed) == multiset(old(configMap.Inserted))
      ensures old(configMap) == null ==> freed == []
    {
      freed := [];
      if configMap != null {
        freed := configMap.Destroy();
        configMap := null;
      }
    }
  }

  /**
   * The `fgets` loop of `config_file_read` over an open file, up to the end
   * of the file or the first malformed line, with one line buffer reused.
   */
  method ReadChunks(m: ChainedMap, lines: seq<CString>) returns (status: Status)
    requires m.Valid() && 0 < m.hashSize && Chunks(lines)
    modifies m, m.chains
    ensures m.Valid() && m.Repr == old(m.Repr)
    ensures status == Scan(Classify, lines).status
    ensures m.Inserted == old(m.Inserted) + Scan(Classify, lines).entries
  {
    status := Ok;
    var buffer := new char[MAX_BUFFER_SIZE];
    var k := 0;
    var more := true;
    while more
      invariant k <= |lines| && buffer.Length == MAX_BUFFER_SIZE && fresh(buffer)
      invariant m.Valid() && m.Repr == old(m.Repr)
      invariant status == Scan(Classify, lines[..k]).status
      invariant m.Inserted == old(m.Inserted) + Scan(Classify, lines[..k]).entries
      invariant more ==> status == Ok
      invariant !more && status == Ok ==> k == |lines|
      decreases |lines| - k, more
    {
      if k == |lines| {
        more := false;
      } else {
        var malformed := ReadChunk(m, buffer, lines, k, old(m.Inserted));
        k := k + 1;
        if malformed {
          status := Malformed;
          more := false;
        }
      }
    }
    if status == Malformed {
      ScanStops(Classify, lines, k);
    } else {
      assert lines[..k] == lines;
    }
  }

  /**
   * One turn of that loop for chunk `k`: `fgets` and `trim` leave the
   * trimmed chunk in the buffer; it is then parsed, and its entry inserted.
   */
  method ReadChunk(m: ChainedMap, buffer: array<char>, lines: seq<CString>, k: nat, ghost base: seq<Entry>)
    returns (malformed: bool)
    requires m.Valid() && 0 < m.hashSize && Chunks(lines) && k < |lines|
    requires buffer.Length == MAX_BUFFER_SIZE && buffer !in m.Repr
    requires Scan(Classify, lines[..k]).status == Ok
    requires m.Inserted == base + Scan(Classify, lines[..k]).entries
    modifies m, m.chains, buffer
    ensures m.Valid() && m.Repr == old(m.Repr)
    ensures malformed <==> Scan(Classify, lines[..k + 1]).status == Malformed
    ensures m.Inserted == base + Scan(Classify, lines[..k + 1]).entries
  {
    ScanStep(Classify, lines, k);
    ScanStepAfter(Classify, lines, k, base);
    var t := Trim(lines[k]);
    TrimShorter(lines[k]);
    WriteCString(buffer, 0, t);
    assert buffer[..|t|] == buffer[0..|t|];
    var kind := ParseLine(buffer, t);
    malformed := kind == Bad;
    if kind.Pair? {
      m.Insert(kind.entry.key, kind.entry.value);
    }
  }
}
