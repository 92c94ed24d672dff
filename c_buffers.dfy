/**
 * C strings held in `char` arrays, as the older result set
 * (lib/datastruct/ds_result_set.c) builds its lines and its report: a
 * buffer holds a string when the string's bytes are followed by a NUL.
 * `strlen`, `strcat` and the writes `sprintf` makes are methods over such
 * buffers.
 */
module CBuffers {
  import opened CStrings

  /** `buf` holds the C string `s`: its bytes from index 0, then a NUL. */
  ghost predicate HoldsCString(buf: array<char>, s: string)
    reads buf
  {
    '\0' !in s && |s| < buf.Length && buf[..|s|] == s && buf[|s|] == '\0'
  }

  /** `strlen`: counts the bytes before the first NUL. */
  method StrLen(buf: array<char>, ghost s: string) returns (n: nat)
    requires HoldsCString(buf, s)
    ensures n == |s|
  {
    n := 0;
    while buf[n] != '\0'
      invariant n <= |s|
      decreases |s| - n
    {
      n := n + 1;
    }
  }

  /**
   * A `sprintf` of `text` at `from`: the bytes of `text` and a NUL. Bytes
   * before `from` and past the NUL keep their values.
   */
  method WriteCString(buf: array<char>, from: nat, text: string)
    requires from + |text| < buf.Length
    modifies buf
    ensures buf[..from] == old(buf[..from])
    ensures buf[from..from + |text|] == text && buf[from + |text|] == '\0'
    ensures forall k :: from + |text| < k < buf.Length ==> buf[k] == old(buf[k])
  {
    for i := 0 to |text|
      invariant buf[..from] == old(buf[..from])
      invariant buf[from..from + i] == text[..i]
      invariant forall k :: from + i <= k < buf.Length ==> buf[k] == old(buf[k])
    {
      buf[from + i] := text[i];
      assert buf[from..from + i + 1] == buf[from..from + i] + [text[i]];
    }
    buf[from + |text|] := '\0';
    assert text[..|text|] == text;
  }

  /**
   * `sprintf` of `text` just past a held string `s`: the buffer then holds
   * `s + text`.
   */
  method AppendCString(buf: array<char>, from: nat, ghost s: string, text: string)
    requires from + |text| < buf.Length && buf[..from] == s && '\0' !in s && '\0' !in text
    modifies buf
    ensures HoldsCString(buf, s + text)
  {
    WriteCString(buf, from, text);
    assert buf[..from + |text|] == buf[..from] + buf[from..from + |text|];
  }

  /**
   * `strcat`: finds the NUL that ends the held string `s` and writes `src`
   * and a new NUL from there. The buffer must have room for both.
   */
  method StrCat(dst: array<char>, ghost s: string, src: string)
    requires HoldsCString(dst, s) && '\0' !in src && |s| + |src| < dst.Length
    modifies dst
    ensures HoldsCString(dst, s + src)
  {
    var n := StrLen(dst, s);
    AppendCString(dst, n, s, src);
  }

  /**
   * The copy a map insertion makes of a key or value held in a buffer:
   * the bytes up to the first NUL.
   */
  method ReadCString(buf: array<char>, ghost s: string) returns (r: CString)
    requires HoldsCString(buf, s)
    ensures r == s
  {
    r := [];
    var i := 0;
    while buf[i] != '\0'
      invariant i <= |s| && r == s[..i]
      decreases |s| - i
    {
      r := r + [buf[i]];
      i := i + 1;
    }
    assert s[..i] == s;
  }
}
