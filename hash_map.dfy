/**
 * The separately chained string hash maps: `ds_map`
 * (lib/datastruct/ds_map.c, keys and values passed as C strings), its
 * verbatim copy `map` (lib/datastruct/map.c), and `ds_map_str`
 * (lib/datastruct/ds_map_str.c, keys and values passed as `ds_str`). All
 * three keep an array of `hash_size` chains, pick a chain by the djb2 hash
 * of the key modulo `hash_size`, append new nodes at the chain's tail and
 * never replace an existing node, so a lookup finds the FIRST value
 * inserted under a key.
 *
 * A chain is modelled as the sequence of its nodes' (key, value) copies.
 * The specification is the sequence of all insertions, in order: each
 * chain is that history filtered by bucket, and a lookup agrees with a
 * plain first-match search of the history.
 */
module HashMaps {
  import opened Wrappers
  import opened CStrings
  import opened TextBuffers

  /** A node's key and value. */
  datatype Entry = Entry(key: CString, value: CString)

  /** The chain a key hashes to: `hash(key) % hash_size`. */
  function Bucket(key: string, hashSize: nat): (b: nat)
    requires 0 < hashSize
    ensures b < hashSize
  {
    Djb2Bounded(key);
    Djb2(key) % hashSize
  }

  /** The entries of `xs` that hash to chain `b`, in insertion order. */
  function ChainOf(xs: seq<Entry>, b: nat, hashSize: nat): (c: seq<Entry>)
    requires 0 < hashSize
    ensures |c| <= |xs|
    decreases |xs|
  {
    if xs == [] then []
    else
      var e := xs[|xs| - 1];
      ChainOf(xs[..|xs| - 1], b, hashSize) + (if Bucket(e.key, hashSize) == b then [e] else [])
  }

  /** The value first inserted under `key`, or `None`: what a map lookup promises. */
  function Lookup(xs: seq<Entry>, key: string): (r: Option<CString>)
    ensures r.Some? <==> exists e :: e in xs && e.key == key
    ensures r.Some? ==> Entry(key, r.value) in xs
    decreases |xs|
  {
    if xs == [] then None
    else
      var e := xs[|xs| - 1];
      var earlier := Lookup(xs[..|xs| - 1], key);
      assert forall x :: x in xs <==> x in xs[..|xs| - 1] || x == e;
      if earlier.Some? then earlier
      else if e.key == key then Some(e.value)
      else None
  }

  /** A search from the front that meets `key` first at position `i` returns that value. */
  lemma {:induction false} LookupFirstMatch(xs: seq<Entry>, key: string, i: nat)
    requires i < |xs| && xs[i].key == key
    requires forall j :: 0 <= j < i ==> xs[j].key != key
    ensures Lookup(xs, key) == Some(xs[i].value)
    decreases |xs|
  {
    if i < |xs| - 1 {
      LookupFirstMatch(xs[..|xs| - 1], key, i);
    } else {
      LookupNoMatch(xs[..i], key);
    }
  }

  /** A search from the front that never meets `key` finds nothing. */
  lemma LookupNoMatch(xs: seq<Entry>, key: string)
    requires forall j :: 0 <= j < |xs| ==> xs[j].key != key
    ensures Lookup(xs, key) == None
  {
  }

  /**
   * Looking only in the key's own chain loses nothing: the first match in
   * that chain is the first match in the whole history.
   */
  lemma {:induction false} ChainLookup(xs: seq<Entry>, key: string, hashSize: nat)
    requires 0 < hashSize
    ensures Lookup(ChainOf(xs, Bucket(key, hashSize), hashSize), key) == Lookup(xs, key)
    decreases |xs|
  {
    if xs != [] {
      var b := Bucket(key, hashSize);
      var e := xs[|xs| - 1];
      var front := xs[..|xs| - 1];
      ChainLookup(front, key, hashSize);
      var c := ChainOf(front, b, hashSize);
      if Bucket(e.key, hashSize) == b {
        assert ChainOf(xs, b, hashSize) == c + [e];
        assert (c + [e])[..|c|] == c;
      } else {
        assert ChainOf(xs, b, hashSize) == c;
        assert e.key != key;
      }
    }
  }

  /** Appending one entry extends exactly the chain it hashes to. */
  lemma ChainOfAppend(xs: seq<Entry>, e: Entry, b: nat, hashSize: nat)
    requires 0 < hashSize
    ensures ChainOf(xs + [e], b, hashSize)
            == ChainOf(xs, b, hashSize) + (if Bucket(e.key, hashSize) == b then [e] else [])
  {
    assert (xs + [e])[..|xs + [e]| - 1] == xs;
  }

  /** Inserting under a key that is already present changes no lookup result. */
  lemma InsertDoesNotReplace(xs: seq<Entry>, k: CString, v: CString, key: string)
    requires Lookup(xs, k).Some?
    ensures Lookup(xs + [Entry(k, v)], key) == Lookup(xs, key)
  {
    assert (xs + [Entry(k, v)])[..|xs|] == xs;
  }

  /** Inserting under a new key makes it map to the inserted value, and changes nothing else. */
  lemma InsertNewKey(xs: seq<Entry>, k: CString, v: CString, key: string)
    requires Lookup(xs, k).None?
    ensures Lookup(xs + [Entry(k, v)], key) == if key == k then Some(v) else Lookup(xs, key)
  {
    assert (xs + [Entry(k, v)])[..|xs|] == xs;
  }

  /** Later insertions never change a lookup that already succeeds. */
  lemma {:induction false} LookupExtend(xs: seq<Entry>, ys: seq<Entry>, key: string)
    requires Lookup(xs, key).Some?
    ensures Lookup(xs + ys, key) == Lookup(xs, key)
    decreases |ys|
  {
    if ys == [] {
      assert xs + ys == xs;
    } else {
      var front := ys[..|ys| - 1];
      LookupExtend(xs, front, key);
      assert (xs + ys)[..|xs + ys| - 1] == xs + front;
    }
  }

  /** The chains `0 .. hi-1` of the history, laid end to end in bucket order. */
  function ChainsBelow(xs: seq<Entry>, hi: nat, hashSize: nat): seq<Entry>
    requires 0 < hashSize && hi <= hashSize
  {
    if hi == 0 then [] else ChainsBelow(xs, hi - 1, hashSize) + ChainOf(xs, hi - 1, hashSize)
  }

  /** One more insertion adds its entry to the chains below `hi` exactly when its bucket is there. */
  lemma {:induction false} ChainsBelowAppend(xs: seq<Entry>, e: Entry, hi: nat, hashSize: nat)
    requires 0 < hashSize && hi <= hashSize
    ensures multiset(ChainsBelow(xs + [e], hi, hashSize))
            == multiset(ChainsBelow(xs, hi, hashSize)) +
               (if Bucket(e.key, hashSize) < hi then multiset{e} else multiset{})
  {
    if 0 < hi {
      ChainOfAppend(xs, e, hi - 1, hashSize);
      ChainsBelowAppend(xs, e, hi - 1, hashSize);
      AddAtBucket(ChainsBelow(xs, hi - 1, hashSize), ChainsBelow(xs + [e], hi - 1, hashSize),
                  ChainOf(xs, hi - 1, hashSize), ChainOf(xs + [e], hi - 1, hashSize),
                  e, hi - 1, Bucket(e.key, hashSize));
    }
  }

  /** The counting step of `ChainsBelowAppend`, separated from the definitions. */
  lemma AddAtBucket(r: seq<Entry>, r': seq<Entry>, a: seq<Entry>, a': seq<Entry>, e: Entry, top: nat, be: nat)
    requires multiset(r') == multiset(r) + (if be < top then multiset{e} else multiset{})
    requires a' == a + (if be == top then [e] else [])
    ensures multiset(r' + a') == multiset(r + a) + (if be < top + 1 then multiset{e} else multiset{})
  {
  }

  /** Every entry lies in exactly one chain: the chains together hold the history, no more, no less. */
  lemma {:induction false} ChainsPartition(xs: seq<Entry>, hashSize: nat)
    requires 0 < hashSize
    ensures multiset(ChainsBelow(xs, hashSize, hashSize)) == multiset(xs)
    decreases |xs|
  {
    if xs == [] {
      ChainsEmpty(hashSize, hashSize);
    } else {
      var front := xs[..|xs| - 1];
      ChainsPartition(front, hashSize);
      ChainsBelowAppend(front, xs[|xs| - 1], hashSize, hashSize);
      assert front + [xs[|xs| - 1]] == xs;
    }
  }

  /** An empty history has empty chains. */
  lemma {:induction false} ChainsEmpty(hi: nat, hashSize: nat)
    requires 0 < hashSize && hi <= hashSize
    ensures ChainsBelow([], hi, hashSize) == []
  {
    if 0 < hi {
      ChainsEmpty(hi - 1, hashSize);
    }
  }

  /**
   * `djb2hash` of ds_map.c and map.c: Dan Bernstein's hash, one byte of
   * the C string per iteration.
   */
  method Djb2Hash(s: CString) returns (h: nat)
    ensures h == Djb2(s)
  {
    h := 5381;
    var i := 0;
    while i < |s|
      invariant 0 <= i <= |s|
      invariant h == Djb2(s[..i])
    {
      Djb2Extend(s, i);
      h := Djb2Step(h, s[i]);
      i := i + 1;
    }
    assert s[..i] == s;
  }

  class ChainedMap {
    const hashSize: nat
    /** `lists`: chain `b` holds the entries of the nodes reachable from `lists[b]`. */
    const chains: array<seq<Entry>>
    /** Every insertion so far, oldest first. */
    ghost var Inserted: seq<Entry>
    ghost var Repr: set<object>

    ghost predicate Valid()
      reads this, Repr
    {
      Repr == {this, chains} && chains.Length == hashSize &&
      (0 < hashSize ==> forall b :: 0 <= b < hashSize ==> chains[b] == ChainOf(Inserted, b, hashSize))
    }

    /** `ds_map_init` / `map_init` / `ds_map_str_init`: `hash_size` empty chains. */
    constructor Init(hashSize: nat)
      ensures Valid() && fresh(Repr)
      ensures this.hashSize == hashSize && Inserted == []
    {
      this.hashSize := hashSize;
      chains := new seq<Entry>[hashSize];
      Inserted := [];
      new;
      for idx := 0 to hashSize
        invariant Inserted == []
        invariant forall b :: 0 <= b < idx ==> chains[b] == []
      {
        chains[idx] := [];
      }
      Repr := {this, chains};
    }

    /**
     * `ds_map_get_value` / `map_get_value`: the value of the first node in
     * the key's chain whose key equals `key`, or `NULL`.
     */
    method GetValue(key: CString) returns (r: Option<CString>)
      requires Valid() && 0 < hashSize
      ensures r == Lookup(Inserted, key)
    {
      var hash := Djb2Hash(key);
      r := FindInChain(hash % hashSize, key);
    }

    /** The walk along one chain shared by the lookups. */
    method FindInChain(b: nat, key: CString) returns (r: Option<CString>)
      requires Valid() && 0 < hashSize && b == Bucket(key, hashSize)
      ensures r == Lookup(Inserted, key)
    {
      var chain := chains[b];
      var i := 0;
      while i < |chain|
        invariant 0 <= i <= |chain|
        invariant forall j :: 0 <= j < i ==> chain[j].key != key
      {
        if chain[i].key == key {
          LookupFirstMatch(chain, key, i);
          ChainLookup(Inserted, key, hashSize);
          return Some(chain[i].value);
        }
        i := i + 1;
      }
      LookupNoMatch(chain, key);
      ChainLookup(Inserted, key, hashSize);
      r := None;
    }

    /**
     * `ds_map_insert` / `map_insert`: walks to the tail of the key's chain
     * and links a node holding copies of `key` and `value` after it.
     */
    method Insert(key: CString, value: CString)
      requires Valid() && 0 < hashSize
      modifies chains, this
      ensures Valid() && Repr == old(Repr)
      ensures Inserted == old(Inserted) + [Entry(key, value)]
    {
      var hash := Djb2Hash(key);
      AppendToChain(hash % hashSize, Entry(key, value));
    }

    /** Links a new node after the tail of chain `b`. */
    method AppendToChain(b: nat, e: Entry)
      requires Valid() && 0 < hashSize && b == Bucket(e.key, hashSize)
      modifies chains, this
      ensures Valid() && Repr == old(Repr)
      ensures Inserted == old(Inserted) + [e]
    {
      var chain := chains[b];
      if chain != [] {
        var tail := 0;
        while tail + 1 < |chain|
          invariant tail < |chain|
          decreases |chain| - tail
        {
          tail := tail + 1;
        }
      }
      chains[b] := chain + [e];
      forall c | 0 <= c < hashSize
        ensures ChainOf(Inserted + [e], c, hashSize) == ChainOf(Inserted, c, hashSize) + (if c == b then [e] else [])
      {
        ChainOfAppend(Inserted, e, c, hashSize);
      }
      Inserted := Inserted + [e];
    }

    /** `ds_map_str_get_value`: the lookup with the key held in a text buffer. */
    method GetValueStr(key: TextBuffer) returns (r: Option<CString>)
      requires Valid() && key.Valid() && 0 < hashSize
      ensures r == Lookup(Inserted, key.Content)
    {
      var hash := key.Hash();
      var k := key.Cstr();
      r := FindInChain(hash % hashSize, k);
    }

    /** `ds_map_str_insert`: the insertion with key and value held in text buffers. */
    method InsertStr(key: TextBuffer, value: TextBuffer)
      requires Valid() && key.Valid() && value.Valid() && 0 < hashSize
      modifies chains, this
      ensures Valid() && Repr == old(Repr)
      ensures Inserted == old(Inserted) + [Entry(key.Content, value.Content)]
    {
      var hash := key.Hash();
      var k := key.Cstr();
      var v := value.Cstr();
      AppendToChain(hash % hashSize, Entry(k, v));
    }

    /**
     * `ds_map_destroy` / `map_destroy` / `ds_map_str_destroy`: frees every
     * node, chain by chain. `freed` lists the freed nodes in that order;
     * every inserted node is freed exactly once.
     */
    method Destroy() returns (freed: seq<Entry>)
      requires Valid()
      ensures 0 < hashSize ==> multiset(freed) == multiset(Inserted)
      ensures hashSize == 0 ==> freed == []
    {
      freed := FreeChains(chains, Inserted);
      if 0 < hashSize {
        ChainsPartition(Inserted, hashSize);
      }
    }
  }

  /** The chain-by-chain walk of the destroy functions over the bucket array. */
  method FreeChains(chains: array<seq<Entry>>, ghost xs: seq<Entry>) returns (freed: seq<Entry>)
    requires forall b :: 0 <= b < chains.Length ==> chains[b] == ChainOf(xs, b, chains.Length)
    ensures 0 < chains.Length ==> freed == ChainsBelow(xs, chains.Length, chains.Length)
    ensures chains.Length == 0 ==> freed == []
  {
    freed := [];
    for idx := 0 to chains.Length
      invariant 0 < chains.Length ==> freed == ChainsBelow(xs, idx, chains.Length)
      invariant chains.Length == 0 ==> freed == []
    {
      freed := FreeChain(freed, chains[idx]);
    }
  }

  /** Frees one chain node by node, from its head: the freed list grows by the chain. */
  method FreeChain(freed: seq<Entry>, chain: seq<Entry>) returns (r: seq<Entry>)
    ensures r == freed + chain
  {
    r := freed;
    var node := 0;
    while node < |chain|
      invariant node <= |chain|
      invariant r == freed + chain[..node]
    {
      r := r + [chain[node]];
      node := node + 1;
    }
    assert chain[..node] == chain;
  }
}
