/** Octets as they travel through the codec, bits of octets, and text as the source's `str`. */
module Bytes {

  /** One element of a Python `bytes`/`bytearray`: an integer in 0..255. */
  type Byte = b: int | 0 <= b < 256

  /** Number of occurrences of `b` in `s`. */
  function Count(s: seq<Byte>, b: Byte): (n: nat)
    ensures n <= |s|
  {
    if s == [] then 0 else (if s[0] == b then 1 else 0) + Count(s[1..], b)
  }

  function Pow2(k: nat): (p: nat)
    ensures p >= 1
  {
    if k == 0 then 1 else 2 * Pow2(k - 1)
  }

  /** Bit `k` of `x` (bit 0 the least significant), as `(x >> k) & 1`. */
  predicate Bit(x: nat, k: nat)
  {
    (x / Pow2(k)) % 2 == 1
  }

  /**
   * Python's `|` on non-negative integers, one bit position at a time. The result
   * covers both operands, is at most their sum, and has bit 0 set when either has.
   */
  function BitOr(a: nat, b: nat): (r: nat)
    ensures a <= r && b <= r && r <= a + b
    ensures r % 2 == 1 <==> a % 2 == 1 || b % 2 == 1
    decreases a
  {
    if a == 0 then b
    else if b == 0 then a
    else
      var h, bit := BitOr(a / 2, b / 2), if a % 2 == 1 || b % 2 == 1 then 1 else 0;
      assert a == 2 * (a / 2) + a % 2 && b == 2 * (b / 2) + b % 2;
      assert (2 * h + bit) % 2 == bit;
      2 * h + bit
  }

  /**
   * OR-ing a value below 2^k with a multiple of 2^k adds them: the two have no bit
   * in common.
   */
  lemma {:induction false} BitOrDisjoint(x: nat, c: nat, k: nat)
    requires x < Pow2(k)
    ensures BitOr(x, c * Pow2(k)) == x + c * Pow2(k)
  {
    if k > 0 && x != 0 && c != 0 {
      var p := Pow2(k - 1);
      assert c * Pow2(k) == 2 * (c * p);
      assert (c * Pow2(k)) / 2 == c * p;
      BitOrDisjoint(x / 2, c, k - 1);
    }
  }

  /** OR-ing an even number with 1 sets its bit 0. */
  lemma BitOrOne(y: nat)
    requires y % 2 == 0
    ensures BitOr(y, 1) == y + 1
  {
    if y != 0 {
      assert BitOr(y / 2, 0) == y / 2;
    }
  }

  /**
   * Every character of `s` is a 7-bit ASCII code point (what `str.encode("ascii")`
   * accepts); equivalently, no character of `s` is at or above 128.
   */
  predicate IsAscii(s: string)
    ensures IsAscii(s) <==> (forall c :: c in s ==> c as int < 128)
  {
    assert forall i :: 0 <= i < |s| ==> s[i] in s;
    forall i :: 0 <= i < |s| ==> s[i] as int < 128
  }

  /** The bytes of `str.encode("ascii")` for a string that has them: one octet per character, same code. */
  function AsciiBytes(s: string): (r: seq<Byte>)
    requires IsAscii(s)
    ensures |r| == |s|
    ensures forall i :: 0 <= i < |s| ==> r[i] == s[i] as int && r[i] < 0x80
  {
    seq(|s|, i requires 0 <= i < |s| => s[i] as int)
  }

  /** Decodes octets as text, one character per octet (the inverse of AsciiBytes). */
  function Chars(s: seq<Byte>): (r: string)
    ensures |r| == |s|
    ensures forall i :: 0 <= i < |s| ==> r[i] as int == s[i]
  {
    seq(|s|, i requires 0 <= i < |s| => s[i] as char)
  }

  /** ASCII text survives encoding to bytes and decoding back. */
  lemma CharsAsciiBytes(s: string)
    requires IsAscii(s)
    ensures Chars(AsciiBytes(s)) == s
  {
    var r := Chars(AsciiBytes(s));
    assert |r| == |s|;
    forall i | 0 <= i < |s| ensures r[i] == s[i] {
      assert r[i] as int == s[i] as int;
    }
  }
}
