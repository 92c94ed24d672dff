/**
 * Pure specifications of the C string operations that the text buffer
 * (`ds_str`), the hash maps and the readers rely on: C strings, whitespace,
 * the djb2 hash, first-occurrence search, comparison and trimming.
 *
 * A Dafny `char` stands for one byte of a C string; the model assumes that
 * every character's code is below 256.
 */
module CStrings {

  /** 2^64: `size_t` and `unsigned long` are 64 bits wide. */
  const WORD: int := 0x1_0000_0000_0000_0000

  /** The largest `size_t` value. */
  const SIZE_MAX: int := WORD - 1

  /** A C string: its bytes up to, and not including, the terminating NUL. */
  type CString = s: string | '\0' !in s

  /** `isspace` in the "C" locale: space, tab, newline, vertical tab, form feed, carriage return. */
  predicate IsSpace(c: char) {
    c == ' ' || 9 <= c as int <= 13
  }

  /** `a - b` computed on `size_t`: wraps around modulo 2^64. */
  function SizeSub(a: nat, b: nat): (r: nat)
    requires a < WORD && b < WORD
    ensures r < WORD
    ensures b <= a ==> r == a - b
    ensures a < b ==> r == WORD - (b - a)
  {
    (a - b) % WORD
  }

  // ---------------------------------------------------------------- djb2

  /**
   * The value `int c = *p` takes for a byte of a C string: `char` is signed,
   * so bytes 0x80..0xFF become negative.
   */
  function SignedByte(c: char): (v: int)
    ensures -128 <= v < 128
  {
    var b := (c as int) % 256;
    if b < 128 then b else b - 256
  }

  /** One djb2 step on an `unsigned long`: `((h << 5) + h) + c`, modulo 2^64. */
  function Djb2Step(h: int, c: char): (r: nat)
    ensures r < WORD
  {
    (h * 33 + SignedByte(c)) % WORD
  }

  /** Resumes djb2 from the hash value `h` over the bytes of `s`. */
  function Djb2From(h: int, s: string): (r: int)
    decreases |s|
  {
    if s == [] then h else Djb2Step(Djb2From(h, s[..|s| - 1]), s[|s| - 1])
  }

  /** Dan Bernstein's djb2 hash of a C string: 5381, then `h * 33 + c` per byte. */
  function Djb2(s: string): (h: int)
  {
    Djb2From(5381, s)
  }

  /** Every djb2 value fits in an `unsigned long`. */
  lemma {:induction false} Djb2Bounded(s: string)
    ensures 0 <= Djb2(s) < WORD
  {
    if s != [] {
      assert Djb2(s) == Djb2Step(Djb2From(5381, s[..|s| - 1]), s[|s| - 1]);
    } else {
      assert Djb2(s) == 5381;
    }
  }

  /**
   * djb2 is a left fold: the hash of `s + t` is obtained by resuming from the
   * hash of `s`. This is what lets the loops hash one byte at a time.
   */
  lemma {:induction false} Djb2Concat(s: string, t: string)
    ensures Djb2(s + t) == Djb2From(Djb2(s), t)
    decreases |t|
  {
    if t == [] {
      assert s + t == s;
    } else {
      var t' := t[..|t| - 1];
      assert (s + t)[..|s + t| - 1] == s + t';
      assert (s + t)[|s + t| - 1] == t[|t| - 1];
      Djb2Concat(s, t');
    }
  }

  /** Hashing a prefix one more byte long is one more djb2 step. */
  lemma Djb2Extend(s: string, i: nat)
    requires i < |s|
    ensures Djb2(s[..i + 1]) == Djb2Step(Djb2(s[..i]), s[i])
  {
    assert s[..i + 1][..i] == s[..i];
  }

  // ---------------------------------------------------------------- search

  /**
   * `strchr` as `ds_str_strchr` computes it: the index of the first
   * occurrence of `c` in `s`, or -1 when there is none.
   */
  function IndexOf(s: string, c: char): (i: int)
    ensures -1 <= i < |s|
    ensures i == -1 <==> c !in s
    ensures 0 <= i ==> s[i] == c && c !in s[..i]
    decreases |s|
  {
    if s == [] then -1
    else if s[0] == c then 0
    else
      var j := IndexOf(s[1..], c);
      assert s[1..][..if j < 0 then 0 else j] == s[1..if j < 0 then 1 else j + 1];
      if j < 0 then -1 else j + 1
  }

  /** A position holding `c` with no `c` before it is the one `IndexOf` finds. */
  lemma IndexOfUnique(s: string, c: char, i: nat)
    requires i < |s| && s[i] == c && c !in s[..i]
    ensures IndexOf(s, c) == i
  {
    var j := IndexOf(s, c);
    // `c` occurs in `s[..j + 1]` exactly at `j`, so `i` cannot lie before `j`.
    assert s[i] in s[..j + 1] <==> i <= j;
  }

  // ---------------------------------------------------------------- compare

  /**
   * `strcmp` on two C strings: negative, zero or positive as `a` sorts
   * before, equal to or after `b`, byte by byte.
   */
  function Compare(a: string, b: string): (r: int)
    ensures -1 <= r <= 1
    ensures r == 0 <==> a == b
    decreases |a|
  {
    if a == [] && b == [] then 0
    else if a == [] then -1
    else if b == [] then 1
    else if a[0] < b[0] then -1
    else if b[0] < a[0] then 1
    else
      var r := Compare(a[1..], b[1..]);
      assert r == 0 ==> a == [a[0]] + a[1..] && b == [b[0]] + b[1..];
      r
  }

  /** Swapping the operands of `strcmp` flips the sign of the result. */
  lemma {:induction false} CompareAntisymmetric(a: string, b: string)
    ensures Compare(a, b) == -Compare(b, a)
    decreases |a|
  {
    if a != [] && b != [] && a[0] == b[0] {
      CompareAntisymmetric(a[1..], b[1..]);
    }
  }

  /**
   * `a` sorts before `b` byte by byte: it is a proper prefix of `b`, or the
   * first byte where they differ is smaller in `a`.
   */
  ghost predicate SortsBefore(a: string, b: string) {
    (|a| < |b| && a == b[..|a|]) ||
    exists i :: 0 <= i < |a| && i < |b| && a[..i] == b[..i] && a[i] < b[i]
  }

  /** `strcmp` is negative exactly when `a` sorts before `b`, and positive exactly when `b` sorts before `a`. */
  lemma {:induction false} CompareOrder(a: string, b: string)
    ensures Compare(a, b) == -1 <==> SortsBefore(a, b)
    ensures Compare(a, b) == 1 <==> SortsBefore(b, a)
    decreases |a|
  {
    CompareAntisymmetric(a, b);
    if a != [] && b != [] && a[0] == b[0] {
      CompareOrder(a[1..], b[1..]);
      SortsBeforeTail(a, b);
      SortsBeforeTail(b, a);
    } else if a != [] && b != [] && a[0] < b[0] {
      assert a[..0] == b[..0];
    } else if a != [] && b != [] && b[0] < a[0] {
      assert a[..0] == b[..0];
    }
  }

  /** Sorting before is decided past a common first byte. */
  lemma SortsBeforeTail(a: string, b: string)
    requires a != [] && b != [] && a[0] == b[0]
    ensures SortsBefore(a, b) <==> SortsBefore(a[1..], b[1..])
  {
    if |a| < |b| && a == b[..|a|] {
      assert a[1..] == b[1..][..|a| - 1];
    }
    if |a| - 1 < |b| - 1 && a[1..] == b[1..][..|a| - 1] {
      assert a == [a[0]] + a[1..] && b[..|a|] == [b[0]] + b[1..][..|a| - 1];
    }
    if i :| 0 <= i < |a| && i < |b| && a[..i] == b[..i] && a[i] < b[i] {
      assert i != 0;
      assert a[1..][..i - 1] == a[1..i] && b[1..][..i - 1] == b[1..i];
      assert a[1..][i - 1] == a[i] && b[1..][i - 1] == b[i];
    }
    if j :| 0 <= j < |a| - 1 && j < |b| - 1 && a[1..][..j] == b[1..][..j] && a[1..][j] < b[1..][j] {
      assert a[..j + 1] == [a[0]] + a[1..][..j] && b[..j + 1] == [b[0]] + b[1..][..j];
      assert a[j + 1] < b[j + 1];
    }
  }

  // ---------------------------------------------------------------- trimming

  /** The length of the maximal run of whitespace at the start of `s`. */
  function LeadingSpaces(s: string): (n: nat)
    ensures n <= |s|
    decreases |s|
  {
    if s != [] && IsSpace(s[0]) then 1 + LeadingSpaces(s[1..]) else 0
  }

  /** The leading run is all whitespace and is maximal. */
  lemma {:induction false} LeadingSpacesRun(s: string)
    ensures forall k :: 0 <= k < LeadingSpaces(s) ==> IsSpace(s[k])
    ensures LeadingSpaces(s) == |s| || !IsSpace(s[LeadingSpaces(s)])
    decreases |s|
  {
    if s != [] && IsSpace(s[0]) {
      LeadingSpacesRun(s[1..]);
      assert forall k :: 1 <= k < |s| ==> s[k] == s[1..][k - 1];
    }
  }

  /** The length of the maximal run of whitespace at the end of `s`. */
  function TrailingSpaces(s: string): (n: nat)
    ensures n <= |s|
    decreases |s|
  {
    if s != [] && IsSpace(s[|s| - 1]) then 1 + TrailingSpaces(s[..|s| - 1]) else 0
  }

  /** The trailing run is all whitespace and is maximal. */
  lemma {:induction false} TrailingSpacesRun(s: string)
    ensures forall k :: |s| - TrailingSpaces(s) <= k < |s| ==> IsSpace(s[k])
    ensures TrailingSpaces(s) == |s| || !IsSpace(s[|s| - 1 - TrailingSpaces(s)])
    decreases |s|
  {
    if s != [] && IsSpace(s[|s| - 1]) {
      TrailingSpacesRun(s[..|s| - 1]);
    }
  }

  /** `ds_str_trim_leading`: `s` without its leading whitespace. */
  function TrimLeading(s: string): string {
    s[LeadingSpaces(s)..]
  }

  /** `ds_str_trim_trailing`: `s` without its trailing whitespace. */
  function TrimTrailing(s: string): string {
    s[..|s| - TrailingSpaces(s)]
  }

  /** `ds_str_trim`: trailing whitespace is removed first, then leading whitespace. */
  function Trim(s: string): string {
    TrimLeading(TrimTrailing(s))
  }

  /** A string with no whitespace at either end. */
  predicate Trimmed(s: string) {
    s == [] || (!IsSpace(s[0]) && !IsSpace(s[|s| - 1]))
  }

  /** The count of leading spaces is the only one with the properties `LeadingSpaces` ensures. */
  lemma {:induction false} LeadingSpacesUnique(s: string, n: nat)
    requires n <= |s|
    requires forall k :: 0 <= k < n ==> IsSpace(s[k])
    requires n == |s| || !IsSpace(s[n])
    ensures LeadingSpaces(s) == n
    decreases n
  {
    if n > 0 {
      assert IsSpace(s[0]);
      LeadingSpacesUnique(s[1..], n - 1);
    }
  }

  /** The count of trailing spaces is unique in the same way. */
  lemma {:induction false} TrailingSpacesUnique(s: string, n: nat)
    requires n <= |s|
    requires forall k :: |s| - n <= k < |s| ==> IsSpace(s[k])
    requires n == |s| || !IsSpace(s[|s| - 1 - n])
    ensures TrailingSpaces(s) == n
    decreases n
  {
    if n > 0 {
      assert IsSpace(s[|s| - 1]);
      TrailingSpacesUnique(s[..|s| - 1], n - 1);
    }
  }

  /**
   * Trimming keeps one contiguous slice `s[a..b]` and everything outside it
   * is whitespace.
   */
  lemma TrimSlice(s: string) returns (a: nat, b: nat)
    ensures a <= b <= |s|
    ensures Trim(s) == s[a..b]
    ensures forall k :: 0 <= k < a ==> IsSpace(s[k])
    ensures forall k :: b <= k < |s| ==> IsSpace(s[k])
    ensures a < b ==> !IsSpace(s[a]) && !IsSpace(s[b - 1])
  {
    var t := TrimTrailing(s);
    b := |s| - TrailingSpaces(s);
    a := LeadingSpaces(t);
    TrailingSpacesRun(s);
    LeadingSpacesRun(t);
    assert t == s[..b];
    assert forall k :: 0 <= k < a ==> t[k] == s[k];
  }

  /** The result of trimming has no whitespace at either end. */
  lemma TrimIsTrimmed(s: string)
    ensures Trimmed(Trim(s))
  {
    var a, b := TrimSlice(s);
  }

  /** Trimming a string that is already trimmed changes nothing. */
  lemma TrimOfTrimmed(s: string)
    requires Trimmed(s)
    ensures Trim(s) == s
  {
    if s != [] {
      TrailingSpacesUnique(s, 0);
      assert TrimTrailing(s) == s;
      LeadingSpacesUnique(s, 0);
    } else {
      assert TrimTrailing(s) == s;
    }
  }

  /** `trim` is idempotent. */
  lemma TrimIdempotent(s: string)
    ensures Trim(Trim(s)) == Trim(s)
  {
    TrimIsTrimmed(s);
    TrimOfTrimmed(Trim(s));
  }

  /** Whitespace-only strings, and only they, trim to the empty string. */
  lemma TrimEmptyIffAllSpace(s: string)
    ensures Trim(s) == [] <==> forall k :: 0 <= k < |s| ==> IsSpace(s[k])
  {
    var a, b := TrimSlice(s);
    if Trim(s) == [] {
      assert a == b;
    }
  }

  // ---------------------------------------------------------------- lines

  /** `fgets` keeps the newline; `ds_str_getline` strips at most one trailing '\n'. */
  function StripNewline(s: string): (r: string)
    ensures |s| - 1 <= |r| <= |s|
  {
    if |s| > 0 && s[|s| - 1] == '\n' then s[..|s| - 1] else s
  }

  /**
   * Stripping removes one '\n' and nothing else, and only when the line ends
   * with one, so a line whose own text ends in '\n' keeps it.
   */
  lemma StripNewlineAtMostOne(s: string)
    ensures StripNewline(s) == s || s == StripNewline(s) + ['\n']
    ensures StripNewline(s) == s <==> s == [] || s[|s| - 1] != '\n'
    ensures StripNewline(s + ['\n', '\n']) == s + ['\n']
  {
    var t := s + ['\n', '\n'];
    assert t[..|t| - 1] == s + ['\n'];
    if StripNewline(s) != s {
      assert s == s[..|s| - 1] + ['\n'];
    }
  }
}
