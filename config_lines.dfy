/**
 * What the `key = value` configuration readers make of a file. The file is
 * the sequence of what successive `fgets` calls deliver (a line, or the
 * first 1023 bytes of a longer one). Each chunk is skipped, rejected, or
 * yields one key/value entry. Reading stops at the first rejected chunk,
 * and the entries of the chunks before it stay inserted. The revisions of
 * the reader differ only in how they classify a chunk.
 */
module ConfigLines {
  import opened CStrings
  import opened Wrappers
  import opened HashMaps

  /** `CONFIG_FILE_OK`, `CONFIG_FILE_NO_FILE` and `CONFIG_FILE_MALFORMED_FILE`. */
  datatype Status = Ok | NoFile | Malformed

  /** What a reader makes of one chunk. */
  datatype LineKind = Skip | Bad | Pair(entry: Entry)

  /** The status of a read and the entries it inserted, oldest first. */
  datatype Outcome = Outcome(status: Status, entries: seq<Entry>)

  /** `MAX_BUFFER_SIZE`: the size of the buffer each line is read into. */
  const MAX_BUFFER_SIZE: nat := 1024

  /** `CONFIG_MAP_SIZE`: the number of chains of the configuration map. */
  const CONFIG_MAP_SIZE: nat := 100

  /** What `fgets` can deliver into the buffer: room for the bytes and a NUL. */
  predicate Chunks(lines: seq<CString>) {
    forall i :: 0 <= i < |lines| ==> |lines[i]| < MAX_BUFFER_SIZE
  }

  /**
   * The read loop over `lines` as a fold from the first chunk: skipped
   * chunks change nothing, the first rejected chunk ends the read as
   * malformed, and every other chunk adds its entry.
   */
  function Scan(classify: CString -> LineKind, lines: seq<CString>): (o: Outcome)
    ensures o.status != NoFile
    decreases |lines|
  {
    if lines == [] then Outcome(Ok, [])
    else
      var before := Scan(classify, lines[..|lines| - 1]);
      if before.status == Malformed then before
      else match classify(lines[|lines| - 1])
        case Skip => before
        case Bad => Outcome(Malformed, before.entries)
        case Pair(e) => Outcome(Ok, before.entries + [e])
  }

  /** The entries a chunk of this kind inserts. */
  function Added(kind: LineKind): seq<Entry> {
    if kind.Pair? then [kind.entry] else []
  }

  /** One more chunk read, as the loop takes it. */
  lemma ScanStep(classify: CString -> LineKind, lines: seq<CString>, k: nat)
    requires k < |lines| && Scan(classify, lines[..k]).status == Ok
    ensures Scan(classify, lines[..k + 1]).status == if classify(lines[k]) == Bad then Malformed else Ok
    ensures Scan(classify, lines[..k + 1]).entries == Scan(classify, lines[..k]).entries + Added(classify(lines[k]))
  {
    assert lines[..k + 1][..k] == lines[..k];
  }

  /** The same step after the entries `base` that were in the map before the read. */
  lemma ScanStepAfter(classify: CString -> LineKind, lines: seq<CString>, k: nat, base: seq<Entry>)
    requires k < |lines| && Scan(classify, lines[..k]).status == Ok
    ensures base + Scan(classify, lines[..k + 1]).entries ==
            base + Scan(classify, lines[..k]).entries + Added(classify(lines[k]))
  {
    ScanStep(classify, lines, k);
  }

  /** Once a prefix of the file is malformed, the chunks after it are not read. */
  lemma {:induction false} ScanStops(classify: CString -> LineKind, lines: seq<CString>, k: nat)
    requires k <= |lines| && Scan(classify, lines[..k]).status == Malformed
    ensures Scan(classify, lines) == Scan(classify, lines[..k])
    decreases |lines| - k
  {
    if k < |lines| {
      assert lines[..k + 1][..k] == lines[..k];
      ScanStops(classify, lines, k + 1);
    } else {
      assert lines[..k] == lines;
    }
  }

  /** The read succeeds exactly when no chunk is rejected. */
  lemma {:induction false} ScanOkIffNoBad(classify: CString -> LineKind, lines: seq<CString>)
    ensures Scan(classify, lines).status == Ok <==> forall i :: 0 <= i < |lines| ==> classify(lines[i]) != Bad
    decreases |lines|
  {
    if lines != [] {
      var front := lines[..|lines| - 1];
      ScanOkIffNoBad(classify, front);
      assert forall i :: 0 <= i < |front| ==> front[i] == lines[i];
    }
  }

  /**
   * The first rejected chunk ends the read as malformed, with exactly the
   * entries of the chunks before it.
   */
  lemma StopsAtFirstBad(classify: CString -> LineKind, lines: seq<CString>, j: nat)
    requires j < |lines| && classify(lines[j]) == Bad && NoBadBefore(classify, lines, j)
    ensures Scan(classify, lines) == Outcome(Malformed, Scan(classify, lines[..j]).entries)
  {
    NoBadScanOk(classify, lines, j);
    ScanStep(classify, lines, j);
    ScanStops(classify, lines, j + 1);
  }

  /** Chunks are read in file order: a prefix of the file inserts a prefix of the entries. */
  lemma {:induction false} ScanPrefix(classify: CString -> LineKind, lines: seq<CString>, k: nat)
    requires k <= |lines|
    ensures Scan(classify, lines[..k]).entries <= Scan(classify, lines).entries
    decreases |lines| - k
  {
    if k < |lines| {
      assert lines[..k + 1][..k] == lines[..k];
      ScanPrefix(classify, lines, k + 1);
    } else {
      assert lines[..k] == lines;
    }
  }

  /** Every inserted entry is the entry of some chunk of the file. */
  lemma {:induction false} ScanEntriesFromChunks(classify: CString -> LineKind, lines: seq<CString>)
    ensures forall e :: e in Scan(classify, lines).entries ==>
              exists i :: 0 <= i < |lines| && classify(lines[i]) == Pair(e)
    decreases |lines|
  {
    if lines != [] {
      var front := lines[..|lines| - 1];
      ScanEntriesFromChunks(classify, front);
      assert forall i :: 0 <= i < |front| ==> front[i] == lines[i];
    }
  }

  /** No chunk before `j` is rejected. */
  predicate NoBadBefore(classify: CString -> LineKind, lines: seq<CString>, j: nat)
    requires j <= |lines|
  {
    forall i :: 0 <= i < j ==> classify(lines[i]) != Bad
  }

  /** Chunk `j` gives an entry whose key no chunk before it gives. */
  predicate NewKeyAt(classify: CString -> LineKind, lines: seq<CString>, j: nat)
    requires j < |lines|
  {
    classify(lines[j]).Pair? &&
    forall i :: 0 <= i < j && classify(lines[i]).Pair? ==>
      classify(lines[i]).entry.key != classify(lines[j]).entry.key
  }

  /**
   * With first-match lookup, the first chunk that gives a key decides its
   * value: a later chunk with the same key does not replace it.
   */
  lemma FirstPairWins(classify: CString -> LineKind, lines: seq<CString>, j: nat)
    requires j < |lines| && NoBadBefore(classify, lines, j) && NewKeyAt(classify, lines, j)
    ensures Lookup(Scan(classify, lines).entries, classify(lines[j]).entry.key) ==
            Some(classify(lines[j]).entry.value)
  {
    var e := classify(lines[j]).entry;
    FirstPairUpTo(classify, lines, j);
    LookupAfterPrefix(classify, lines, j + 1, e.key, e.value);
  }

  /** A key the chunks before `k` map keeps its value once the rest of the file is read. */
  lemma LookupAfterPrefix(classify: CString -> LineKind, lines: seq<CString>, k: nat, key: CString, value: CString)
    requires k <= |lines| && Lookup(Scan(classify, lines[..k]).entries, key) == Some(value)
    ensures Lookup(Scan(classify, lines).entries, key) == Some(value)
  {
    var upTo := Scan(classify, lines[..k]).entries;
    ScanPrefix(classify, lines, k);
    var all := Scan(classify, lines).entries;
    assert all == upTo + all[|upTo|..];
    LookupExtend(upTo, all[|upTo|..], key);
  }

  /** The same, for the file read up to and including that chunk. */
  lemma FirstPairUpTo(classify: CString -> LineKind, lines: seq<CString>, j: nat)
    requires j < |lines| && NoBadBefore(classify, lines, j) && NewKeyAt(classify, lines, j)
    ensures Lookup(Scan(classify, lines[..j + 1]).entries, classify(lines[j]).entry.key) ==
            Some(classify(lines[j]).entry.value)
  {
    var e := classify(lines[j]).entry;
    NoEarlierKey(classify, lines, j);
    NoBadScanOk(classify, lines, j);
    ScanStep(classify, lines, j);
    InsertNewKey(Scan(classify, lines[..j]).entries, e.key, e.value, e.key);
  }

  /** No rejected chunk before `j`: the read of the chunks before `j` succeeds. */
  lemma NoBadScanOk(classify: CString -> LineKind, lines: seq<CString>, j: nat)
    requires j <= |lines| && NoBadBefore(classify, lines, j)
    ensures Scan(classify, lines[..j]).status == Ok
  {
    ScanOkIffNoBad(classify, lines[..j]);
    assert forall i :: 0 <= i < j ==> lines[..j][i] == lines[i];
  }

  /** The chunks before `j` that give no entry under chunk `j`'s key leave that key unmapped. */
  lemma NoEarlierKey(classify: CString -> LineKind, lines: seq<CString>, j: nat)
    requires j < |lines| && NewKeyAt(classify, lines, j)
    ensures Lookup(Scan(classify, lines[..j]).entries, classify(lines[j]).entry.key).None?
  {
    var key := classify(lines[j]).entry.key;
    ScanEntriesFromChunks(classify, lines[..j]);
    forall x | x in Scan(classify, lines[..j]).entries
      ensures x.key != key
    {
      var i :| 0 <= i < j && classify(lines[..j][i]) == Pair(x);
      assert lines[..j][i] == lines[i];
    }
  }
}
