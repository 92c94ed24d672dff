/**
 * The configuration reader of lib/file_ops/config_file_read.c: `key = value`
 * lines read with `ds_str_getline` into the file-scope map `config_map`, a
 * chained map of `ds_str` keys and values.
 *
 * A file is `None` when it cannot be opened, and otherwise the sequence of
 * what `fgets` delivers.
 */
module ConfigReader {
  import opened Wrappers
  import opened CStrings
  import opened TextBuffers
  import opened HashMaps
  import opened ConfigLines

  /**
   * How `config_file_read` treats a line once `ds_str_getline` has stripped
   * its newline. It skips the empty line and a `#` in the first byte, with
   * no trimming before that test. Any other line must hold an `=`. The key
   * is the text before the first `=`, and the value is all the text after
   * it, which may be empty or hold more `=`. Both are trimmed.
   */
  function Classify(line: CString): (k: LineKind)
    ensures k == Skip <==> line == [] || line[0] == '#'
    ensures k == Bad <==> line != [] && line[0] != '#' && '=' !in line
    ensures k.Pair? ==>
              exists i :: 0 <= i < |line| && line[i] == '=' && '=' !in line[..i] &&
                          k.entry == Entry(Trim(line[..i]), Trim(line[i + 1..]))
  {
    if line == [] || line[0] == '#' then Skip
    else if '=' !in line then Bad
    else
      var i := IndexOf(line, '=');
      Pair(Entry(Trim(line[..i]), Trim(line[i + 1..])))
  }

  /** What the read loop makes of one `fgets` chunk: at most one trailing newline goes first. */
  function ChunkKind(chunk: CString): LineKind {
    Classify(StripNewline(chunk))
  }

  /**
   * A line of blanks is not skipped: it holds no `=`, so it makes the file
   * malformed, although the file's header comment says blank lines are
   * ignored.
   */
  lemma BlankLineIsMalformed(line: CString)
    requires line != [] && forall k :: 0 <= k < |line| ==> IsSpace(line[k])
    ensures Classify(line) == Bad
  {
    assert line[0] != '#';
  }

  /**
   * An indented comment is not skipped either: without an `=` it makes the
   * file malformed, and with one it is read as an entry.
   */
  lemma IndentedCommentIsRead(line: CString)
    requires line != [] && line[0] == ' '
    ensures Classify(line) != Skip
  {
  }

  /**
   * The file-scope state of the reader: `config_map`, which is `NULL`
   * until `config_init` and after `config_free`.
   */
  class ConfigStore {
    var configMap: ChainedMap?
    ghost var Repr: set<object>

    ghost predicate Valid()
      reads this, Repr
    {
      this in Repr &&
      (configMap != null ==>
         configMap in Repr && configMap.Repr <= Repr && this !in configMap.Repr &&
         configMap.Valid() && configMap.hashSize == CONFIG_MAP_SIZE)
    }

    /** The static initialiser: no map yet. */
    constructor Create()
      ensures Valid() && fresh(Repr) && configMap == null
    {
      configMap := null;
      Repr := {this};
    }

    /** `config_init`: a new empty map of `CONFIG_MAP_SIZE` chains. An earlier map is not freed. */
    method Init() returns (ok: bool)
      requires Valid()
      modifies this
      ensures Valid() && fresh(Repr - old(Repr))
      ensures ok && configMap != null && configMap.Inserted == []
    {
      configMap := new ChainedMap.Init(CONFIG_MAP_SIZE);
      Repr := Repr + configMap.Repr;
      ok := true;
    }

    /**
     * `config_file_read`: `NO_FILE` when the file cannot be opened.
     * Otherwise every chunk is read in order into the map, up to the first
     * malformed one, and the status is that of `Scan`. Inserting needs the
     * map of `config_init`.
     */
    method ReadFile(file: Option<seq<CString>>) returns (status: Status)
      requires Valid() && (file.Some? ==> configMap != null && Chunks(file.value))
      modifies Repr - {this}
      ensures Valid() && configMap == old(configMap) && Repr == old(Repr)
      ensures file.None? ==> status == NoFile && (configMap != null ==> configMap.Inserted == old(configMap.Inserted))
      ensures file.Some? ==>
                status == Scan(ChunkKind, file.value).status &&
                configMap.Inserted == old(configMap.Inserted) + Scan(ChunkKind, file.value).entries
    {
      if file.None? {
        return NoFile;
      }
      status := ReadLines(configMap, file.value);
    }

    /** `config_value_get`: the value first inserted under the key, or `NULL` without a map. */
    method ValueGet(key: TextBuffer) returns (r: Option<CString>)
      requires Valid() && key.Valid()
      ensures configMap == null ==> r == None
      ensures configMap != null ==> r == Lookup(configMap.Inserted, key.Content)
    {
      if configMap == null {
        return None;
      }
      r := configMap.GetValueStr(key);
    }

    /**
     * `config_value_get_cstr`: the same lookup with the key given as a C
     * string, copied into a temporary text buffer.
     */
    method ValueGetCstr(key: CString) returns (r: Option<CString>)
      requires Valid() && |key| + 1 < WORD
      ensures configMap == null ==> r == None
      ensures configMap != null ==> r == Lookup(configMap.Inserted, key)
    {
      if configMap == null {
        return None;
      }
      var skey := new TextBuffer.Create(key);
      r := configMap.GetValueStr(skey);
    }

    /** `config_value_set`: inserts a copy of the pair; an earlier value of the key still wins. */
    method ValueSet(key: TextBuffer, value: TextBuffer)
      requires Valid() && configMap != null && key.Valid() && value.Valid()
      modifies Repr - {this}
      ensures Valid() && configMap == old(configMap) && Repr == old(Repr)
      ensures configMap.Inserted == old(configMap.Inserted) + [Entry(key.Content, value.Content)]
    {
      configMap.InsertStr(key, value);
    }

    /**
     * `config_free`: frees every entry of the map, if there is one, and
     * forgets it. `freed` lists the entries freed.
     */
    method Free() returns (freed: seq<Entry>)
      requires Valid()
      modifies this
      ensures Valid() && configMap == null
      ensures old(configMap) != null ==> multiset(freed) == multiset(old(configMap.Inserted))
      ensures old(configMap) == null ==> freed == []
    {
      freed := [];
      if configMap != null {
        freed := configMap.Destroy();
        configMap := null;
      }
    }
  }

  /**
   * The loop of `config_file_read` over an open file: a line per
   * `ds_str_getline` into one reused text buffer, until the end of the file
   * or the first malformed line.
   */
  method ReadLines(m: ChainedMap, lines: seq<CString>) returns (status: Status)
    requires m.Valid() && 0 < m.hashSize && Chunks(lines)
    modifies m, m.chains
    ensures m.Valid() && m.Repr == old(m.Repr)
    ensures status == Scan(ChunkKind, lines).status
    ensures m.Inserted == old(m.Inserted) + Scan(ChunkKind, lines).entries
  {
    status := Ok;
    var buffer := new TextBuffer.Create("");
    var k := 0;
    var more := true;
    while more
      invariant k <= |lines|
      invariant buffer.Valid() && fresh(buffer.Repr)
      invariant m.Valid() && m.Repr == old(m.Repr)
      invariant status == Scan(ChunkKind, lines[..k]).status
      invariant m.Inserted == old(m.Inserted) + Scan(ChunkKind, lines[..k]).entries
      invariant more ==> status == Ok
      invariant !more && status == Ok ==> k == |lines|
      decreases |lines| - k, more
    {
      var got, malformed := ReadOneLine(m, buffer, lines, k, old(m.Inserted));
      if !got {
        more := false;
      } else {
        k := k + 1;
        if malformed {
          status := Malformed;
          more := false;
        }
      }
    }
    if status == Malformed {
      ScanStops(ChunkKind, lines, k);
    } else {
      assert lines[..k] == lines;
    }
  }

  /**
   * One turn of that loop: `ds_str_getline`, which fails at the end of the
   * file, and then the handling of the line read.
   */
  method ReadOneLine(m: ChainedMap, buffer: TextBuffer, lines: seq<CString>, k: nat, ghost base: seq<Entry>)
    returns (got: bool, malformed: bool)
    requires m.Valid() && 0 < m.hashSize && Chunks(lines) && k <= |lines|
    requires buffer.Valid() && buffer.Repr !! m.Repr
    requires Scan(ChunkKind, lines[..k]).status == Ok
    requires m.Inserted == base + Scan(ChunkKind, lines[..k]).entries
    modifies m, m.chains, buffer
    ensures buffer.Valid() && fresh(buffer.Repr - old(buffer.Repr))
    ensures m.Valid() && m.Repr == old(m.Repr)
    ensures got <==> k < |lines|
    ensures !got ==> m.Inserted == old(m.Inserted)
    ensures got ==> (malformed <==> Scan(ChunkKind, lines[..k + 1]).status == Malformed)
    ensures got ==> m.Inserted == base + Scan(ChunkKind, lines[..k + 1]).entries
  {
    got := buffer.Getline(MAX_BUFFER_SIZE, if k < |lines| then Some(lines[k]) else None);
    malformed := false;
    if got {
      malformed := HandleChunk(m, buffer, lines, k, base);
    }
  }

  /** The line read is chunk `k` of the file: its handling takes `Scan` one chunk further. */
  method HandleChunk(m: ChainedMap, buffer: TextBuffer, ghost lines: seq<CString>, ghost k: nat,
                     ghost base: seq<Entry>)
    returns (malformed: bool)
    requires m.Valid() && 0 < m.hashSize && k < |lines|
    requires buffer.Valid() && buffer.Content == StripNewline(lines[k])
    requires Scan(ChunkKind, lines[..k]).status == Ok
    requires m.Inserted == base + Scan(ChunkKind, lines[..k]).entries
    modifies m, m.chains
    ensures m.Valid() && m.Repr == old(m.Repr)
    ensures malformed <==> Scan(ChunkKind, lines[..k + 1]).status == Malformed
    ensures m.Inserted == base + Scan(ChunkKind, lines[..k + 1]).entries
  {
    ScanStep(ChunkKind, lines, k);
    ScanStepAfter(ChunkKind, lines, k, base);
    assert ChunkKind(lines[k]) == Classify(buffer.Content);
    malformed := HandleLine(m, buffer);
  }

  /**
   * The body of that loop for one line: skip it, report it malformed, or
   * split it at the first `=`, trim both parts and insert them.
   */
  method HandleLine(m: ChainedMap, buffer: TextBuffer) returns (malformed: bool)
    requires m.Valid() && 0 < m.hashSize && buffer.Valid()
    modifies m, m.chains
    ensures m.Valid() && m.Repr == old(m.Repr)
    ensures malformed <==> Classify(buffer.Content) == Bad
    ensures m.Inserted == old(m.Inserted) + Added(Classify(buffer.Content))
  {
    ghost var line := buffer.Content;
    var empty := buffer.IsEmpty();
    if empty {
      return false;
    }
    var first := buffer.CharAtIndex(0);
    if first == '#' {
      return false;
    }
    var key, value := buffer.Split('=');
    if key == null || value == null {
      return true;
    }
    InsertTrimmed(m, key, value, line);
    malformed := false;
  }

  /** The parts of a line split at its first `=`, trimmed, make the line's entry. */
  lemma ClassifySplit(line: CString, key: CString, value: CString)
    requires line == key + ['='] + value && '=' !in key && line[0] != '#'
    ensures Classify(line) == Pair(Entry(Trim(key), Trim(value)))
  {
    IndexOfUnique(line, '=', |key|);
    assert line[..|key|] == key;
    assert line[|key| + 1..] == value;
  }

  /** The end of that body: both parts trimmed in place, then inserted. */
  method InsertTrimmed(m: ChainedMap, key: TextBuffer, value: TextBuffer, ghost line: CString)
    requires m.Valid() && 0 < m.hashSize && key.Valid() && value.Valid()
    requires key.Repr !! m.Repr && value.Repr !! m.Repr && key.Repr !! value.Repr
    requires line == key.Content + ['='] + value.Content && '=' !in key.Content && line[0] != '#'
    modifies m, m.chains, key.Repr, value.Repr
    ensures m.Valid() && m.Repr == old(m.Repr)
    ensures m.Inserted == old(m.Inserted) + Added(Classify(line))
  {
    ClassifySplit(line, key.Content, value.Content);
    ghost var added := [Entry(Trim(key.Content), Trim(value.Content))];
    assert Added(Classify(line)) == added;
    TrimBoth(key, value);
    m.InsertStr(key, value);
  }

  /** `ds_str_trim` on the key, then on the value. */
  method TrimBoth(key: TextBuffer, value: TextBuffer)
    requires key.Valid() && value.Valid() && key.Repr !! value.Repr
    modifies key.Repr, value.Repr
    ensures key.Valid() && value.Valid() && key.Repr == old(key.Repr) && value.Repr == old(value.Repr)
    ensures key.Content == Trim(old(key.Content)) && value.Content == Trim(old(value.Content))
  {
    key.Trim();
    value.Trim();
  }
}
