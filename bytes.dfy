// Byte sequences, the first-occurrence search the server uses to cut the
// request path, and the UTF-8 well-formedness test behind `str::from_utf8`.

module Bytes {

  /** One octet as Rust's `u8`. */
  type byte = b: int | 0 <= b < 0x100

  const SPACE: byte := 0x20  // ' '
  const SLASH: byte := 0x2F  // '/'
  const DOT: byte := 0x2E    // '.'
  const CR: byte := 0x0D     // '\r'
  const LF: byte := 0x0A     // '\n'

  /** `s.iter().position(|&c| c == b).unwrap_or(s.len())`: the index of the
      first occurrence of `b`, or the length when `b` does not occur. */
  function FirstIndex(s: seq<byte>, b: byte): (r: nat)
    ensures r <= |s|
    ensures forall k :: 0 <= k < r ==> s[k] != b
    ensures r < |s| ==> s[r] == b
  {
    if s == [] then 0
    else if s[0] == b then 0
    else 1 + FirstIndex(s[1..], b)
  }

  /** The three properties of FirstIndex determine it. */
  lemma FirstIndexUnique(s: seq<byte>, b: byte, r: nat)
    requires r <= |s|
    requires forall k :: 0 <= k < r ==> s[k] != b
    requires r < |s| ==> s[r] == b
    ensures FirstIndex(s, b) == r
  {
  }

  /** Searching a concatenation finds the first part's occurrence if it has
      one, and otherwise searches the second part. */
  lemma FirstIndexConcat(s: seq<byte>, w: seq<byte>, b: byte)
    ensures FirstIndex(s + w, b) ==
      if FirstIndex(s, b) < |s| then FirstIndex(s, b) else |s| + FirstIndex(w, b)
  {
    var f := FirstIndex(s, b);
    if f < |s| {
      FirstIndexUnique(s + w, b, f);
    } else {
      var g := FirstIndex(w, b);
      forall k | 0 <= k < |s| + g ensures (s + w)[k] != b {
        if k >= |s| {
          assert (s + w)[k] == w[k - |s|];
        }
      }
      FirstIndexUnique(s + w, b, |s| + g);
    }
  }

  /** FirstIndex finds `b` exactly when `b` occurs. */
  lemma FirstIndexFinds(s: seq<byte>, b: byte)
    ensures FirstIndex(s, b) < |s| <==> b in s
  {
  }
}

module Utf8 {
  import opened Bytes

  predicate IsContinuation(b: byte) { 0x80 <= b < 0xC0 }

  /** The length of the well-formed UTF-8 scalar at the start of `s`, or 0
      when `s` does not start with one. The byte ranges are those of table
      3-7 of the Unicode Standard, which `str::from_utf8` enforces: no
      overlong forms, no surrogates, nothing above U+10FFFF. */
  function CharWidth(s: seq<byte>): (n: nat)
    ensures n <= |s| && n <= 4
    ensures n > 0 ==> (n == 1 <==> s[0] < 0x80)
    ensures forall k :: 1 <= k < n ==> IsContinuation(s[k])
  {
    if |s| == 0 then 0
    else if s[0] < 0x80 then 1
    else if 0xC2 <= s[0] <= 0xDF then
      if |s| >= 2 && IsContinuation(s[1]) then 2 else 0
    else if s[0] == 0xE0 then
      if |s| >= 3 && 0xA0 <= s[1] <= 0xBF && IsContinuation(s[2]) then 3 else 0
    else if 0xE1 <= s[0] <= 0xEC || 0xEE <= s[0] <= 0xEF then
      if |s| >= 3 && IsContinuation(s[1]) && IsContinuation(s[2]) then 3 else 0
    else if s[0] == 0xED then
      if |s| >= 3 && 0x80 <= s[1] <= 0x9F && IsContinuation(s[2]) then 3 else 0
    else if s[0] == 0xF0 then
      if |s| >= 4 && 0x90 <= s[1] <= 0xBF && IsContinuation(s[2]) && IsContinuation(s[3]) then 4 else 0
    else if 0xF1 <= s[0] <= 0xF3 then
      if |s| >= 4 && IsContinuation(s[1]) && IsContinuation(s[2]) && IsContinuation(s[3]) then 4 else 0
    else if s[0] == 0xF4 then
      if |s| >= 4 && 0x80 <= s[1] <= 0x8F && IsContinuation(s[2]) && IsContinuation(s[3]) then 4 else 0
    else 0
  }

  /** `str::from_utf8(s).is_ok()`: `s` is a sequence of well-formed scalars. */
  predicate ValidUtf8(s: seq<byte>)
    decreases |s|
  {
    s == [] || (CharWidth(s) > 0 && ValidUtf8(s[CharWidth(s)..]))
  }

  /** The width of the first scalar depends only on its own bytes. */
  lemma CharWidthPrefix(s: seq<byte>, m: nat)
    requires CharWidth(s) > 0 && CharWidth(s) <= m <= |s|
    ensures CharWidth(s[..m]) == CharWidth(s)
  {
  }

  /** Plain ASCII text is valid UTF-8. */
  lemma {:induction false} AsciiIsUtf8(s: seq<byte>)
    requires forall k :: 0 <= k < |s| ==> s[k] < 0x80
    ensures ValidUtf8(s)
  {
    if s != [] {
      assert CharWidth(s) == 1;
      AsciiIsUtf8(s[1..]);
    }
  }

  /** Cutting valid UTF-8 just before an ASCII byte (a space, say) leaves
      valid UTF-8: an ASCII byte is never inside a multi-byte scalar. */
  lemma {:induction false} PrefixBeforeAscii(s: seq<byte>, k: nat)
    requires ValidUtf8(s)
    requires k <= |s|
    requires k < |s| ==> s[k] < 0x80
    ensures ValidUtf8(s[..k])
  {
    if k == |s| {
      assert s[..k] == s;
    } else if k > 0 {
      var n := CharWidth(s);
      assert n > 0;
      assert !IsContinuation(s[k]);
      assert n <= k;
      CharWidthPrefix(s, k);
      var rest := s[n..];
      assert s[..k][n..] == rest[..k - n];
      assert rest[k - n] == s[k];
      PrefixBeforeAscii(rest, k - n);
    }
  }
}
