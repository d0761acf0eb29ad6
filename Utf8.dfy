/**
 * Well-formed UTF-8, the check `String::from_utf8` and `str::from_utf8`
 * perform, following the byte grammar of section 4 of RFC 3629.
 */
module Utf8 {
  import opened Bytes

  /** A continuation byte, 10xxxxxx. */
  predicate IsTail(b: byte) {
    0x80 <= b <= 0xBF
  }

  predicate IsAscii(b: byte) {
    b < 0x80
  }

  /**
   * The number of bytes of the well-formed character that starts s,
   * or 0 when s does not start with one (RFC 3629 section 4: UTF8-1 to
   * UTF8-4, which exclude overlong forms, surrogates and code points
   * above U+10FFFF).
   */
  function FirstCharWidth(s: Bytes): (w: nat)
    ensures w <= 4 && w <= |s|
    ensures |s| > 0 && IsAscii(s[0]) ==> w == 1
    ensures w == 1 ==> IsAscii(s[0])
    ensures w > 0 ==> !IsTail(s[0])
    ensures forall k :: 1 <= k < w ==> IsTail(s[k])
  {
    if |s| == 0 then 0
    else if s[0] <= 0x7F then 1
    else if 0xC2 <= s[0] <= 0xDF then
      if |s| >= 2 && IsTail(s[1]) then 2 else 0
    else if s[0] == 0xE0 then
      if |s| >= 3 && 0xA0 <= s[1] <= 0xBF && IsTail(s[2]) then 3 else 0
    else if 0xE1 <= s[0] <= 0xEC || 0xEE <= s[0] <= 0xEF then
      if |s| >= 3 && IsTail(s[1]) && IsTail(s[2]) then 3 else 0
    else if s[0] == 0xED then
      if |s| >= 3 && 0x80 <= s[1] <= 0x9F && IsTail(s[2]) then 3 else 0
    else if s[0] == 0xF0 then
      if |s| >= 4 && 0x90 <= s[1] <= 0xBF && IsTail(s[2]) && IsTail(s[3]) then 4 else 0
    else if 0xF1 <= s[0] <= 0xF3 then
      if |s| >= 4 && IsTail(s[1]) && IsTail(s[2]) && IsTail(s[3]) then 4 else 0
    else if s[0] == 0xF4 then
      if |s| >= 4 && 0x80 <= s[1] <= 0x8F && IsTail(s[2]) && IsTail(s[3]) then 4 else 0
    else 0
  }

  /** s is a sequence of well-formed UTF-8 characters. */
  predicate ValidUtf8(s: Bytes)
    decreases |s|
  {
    s == [] || (FirstCharWidth(s) > 0 && ValidUtf8(s[FirstCharWidth(s)..]))
  }

  /** The width of a character depends only on its own bytes. */
  lemma SameFirstChar(s: Bytes, t: Bytes)
    requires FirstCharWidth(s) > 0
    requires |t| >= FirstCharWidth(s) && t[..FirstCharWidth(s)] == s[..FirstCharWidth(s)]
    ensures FirstCharWidth(t) == FirstCharWidth(s)
  {
    var w := FirstCharWidth(s);
    assert forall k :: 0 <= k < w ==> t[k] == s[k] by {
      forall k | 0 <= k < w ensures t[k] == s[k] {
        assert t[..w][k] == s[..w][k];
      }
    }
  }

  /** Every ASCII byte string is valid UTF-8 (in particular zero padding). */
  lemma {:induction false} AsciiIsValid(s: Bytes)
    requires forall i :: 0 <= i < |s| ==> IsAscii(s[i])
    ensures ValidUtf8(s)
    decreases |s|
  {
    if s != [] {
      AsciiIsValid(s[1..]);
    }
  }

  /** Zero padding of any length is valid UTF-8: U+0000 is a character. */
  lemma ZerosAreValid(n: nat)
    ensures ValidUtf8(Zeros(n))
  {
    AsciiIsValid(Zeros(n));
  }

  /** Concatenating two valid strings gives a valid string. */
  lemma {:induction false} ConcatValid(a: Bytes, b: Bytes)
    requires ValidUtf8(a) && ValidUtf8(b)
    ensures ValidUtf8(a + b)
    decreases |a|
  {
    if a == [] {
      assert a + b == b;
    } else {
      var w := FirstCharWidth(a);
      assert (a + b)[..w] == a[..w];
      SameFirstChar(a, a + b);
      assert (a + b)[w..] == a[w..] + b;
      ConcatValid(a[w..], b);
    }
  }

  /**
   * Cutting a valid string just before an ASCII byte (or at its end)
   * leaves a valid string: an ASCII byte never sits inside a character.
   */
  lemma {:induction false} PrefixBeforeAsciiValid(s: Bytes, i: nat)
    requires ValidUtf8(s) && i <= |s|
    requires i == |s| || IsAscii(s[i])
    ensures ValidUtf8(s[..i])
    decreases |s|
  {
    if i == |s| {
      assert s[..i] == s;
    } else if i > 0 {
      var w := FirstCharWidth(s);
      assert w <= i;
      assert s[..i][..w] == s[..w];
      SameFirstChar(s, s[..i]);
      assert s[..i][w..] == s[w..][..i - w];
      PrefixBeforeAsciiValid(s[w..], i - w);
    }
  }

  /** Dropping a leading ASCII byte from a valid string keeps it valid. */
  lemma DropAsciiValid(s: Bytes)
    requires ValidUtf8(s) && |s| > 0 && IsAscii(s[0])
    ensures ValidUtf8(s[1..])
  {
  }

  /**
   * If both s and its first i bytes are valid, position i starts a
   * character of s, so s[i] is not a continuation byte.
   */
  lemma {:induction false} ValidPrefixEndsAtBoundary(s: Bytes, i: nat)
    requires ValidUtf8(s) && i < |s| && ValidUtf8(s[..i])
    ensures !IsTail(s[i])
    decreases i
  {
    if i > 0 {
      var p := s[..i];
      var w := FirstCharWidth(p);
      assert p[..w] == s[..w];
      SameFirstChar(p, s);
      assert s[w..][..i - w] == p[w..];
      ValidPrefixEndsAtBoundary(s[w..], i - w);
    }
  }
}
