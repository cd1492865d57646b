/**
  UTF-8 as defined in section 4 of RFC 3629: which byte strings are well formed, the longest
  well-formed prefix of a byte string (what Rust's `Utf8Error::valid_up_to` reports), decoding
  to Unicode scalar values and, as its inverse, encoding.
 */
module Utf8 {
  import opened Bytes

  /** A Unicode scalar value: a code point that is not a surrogate. */
  predicate IsScalar(c: int) {
    0 <= c <= 0x10FFFF && !(0xD800 <= c <= 0xDFFF)
  }

  /** UTF8-tail = %x80-BF */
  predicate IsTail(b: uint8) {
    0x80 <= b <= 0xBF
  }

  /** Number of bytes of the character a lead byte starts, or 0 when no character starts with it. */
  function SequenceLength(lead: uint8): (n: nat)
    ensures n <= 4
  {
    if lead <= 0x7F then 1
    else if 0xC2 <= lead <= 0xDF then 2
    else if 0xE0 <= lead <= 0xEF then 3
    else if 0xF0 <= lead <= 0xF4 then 4
    else 0
  }

  /** Smallest second byte the grammar admits after a multi-byte lead. */
  function SecondLow(lead: uint8): uint8 {
    if lead == 0xE0 then 0xA0 else if lead == 0xF0 then 0x90 else 0x80
  }

  /** Largest second byte the grammar admits after a multi-byte lead. */
  function SecondHigh(lead: uint8): uint8 {
    if lead == 0xED then 0x9F else if lead == 0xF4 then 0x8F else 0xBF
  }

  /** Length of the well-formed character at the start of `s`, or 0 when `s` does not start with one. */
  function CharLength(s: seq<uint8>): (n: nat)
    ensures n <= 4 && n <= |s|
    ensures n > 0 ==> n == SequenceLength(s[0])
    ensures s != [] && s[0] <= 0x7F ==> n == 1
  {
    if s == [] then 0
    else
      var n := SequenceLength(s[0]);
      if n == 0 || |s| < n then 0
      else if n == 1 then 1
      else if SecondLow(s[0]) <= s[1] <= SecondHigh(s[0]) && forall j | 2 <= j < n :: IsTail(s[j]) then n
      else 0
  }

  /** UTF8-octets = *( UTF8-char ) */
  predicate WellFormed(s: seq<uint8>)
    decreases |s|
  {
    s == [] || (CharLength(s) > 0 && WellFormed(s[CharLength(s)..]))
  }

  /** Length of the longest well-formed prefix of `s`. */
  function ValidUpTo(s: seq<uint8>): (k: nat)
    ensures k <= |s|
    ensures k > 0 <==> CharLength(s) > 0
    decreases |s|
  {
    var n := CharLength(s);
    if n == 0 then 0 else n + ValidUpTo(s[n..])
  }

  /** Whether a character starts at the front of `s` depends only on the bytes it would occupy. */
  lemma CharLengthExtend(s: seq<uint8>, t: seq<uint8>)
    requires CharLength(s) > 0
    requires CharLength(s) <= |t| && t[..CharLength(s)] == s[..CharLength(s)]
    ensures CharLength(t) == CharLength(s)
  {
    var n := CharLength(s);
    assert t[0] == t[..n][0] == s[0];
    if n > 1 {
      assert t[1] == t[..n][1];
      forall j | 2 <= j < n ensures t[j] == s[j] {
        assert t[j] == t[..n][j];
      }
    }
  }

  /** The prefix `ValidUpTo` measures is well formed. */
  lemma {:induction false} ValidUpToIsWellFormed(s: seq<uint8>)
    ensures WellFormed(s[..ValidUpTo(s)])
    decreases |s|
  {
    var n := CharLength(s);
    if n > 0 {
      var v := ValidUpTo(s);
      ValidUpToIsWellFormed(s[n..]);
      CharLengthExtend(s, s[..v]);
      assert s[..v][n..] == s[n..][..ValidUpTo(s[n..])];
    }
  }

  /** No well-formed prefix is longer than the one `ValidUpTo` measures. */
  lemma {:induction false} WellFormedPrefixBound(s: seq<uint8>, k: nat)
    requires k <= |s| && WellFormed(s[..k])
    ensures k <= ValidUpTo(s)
    decreases |s|
  {
    if k > 0 {
      var m := CharLength(s[..k]);
      CharLengthExtend(s[..k], s);
      assert s[..k][m..] == s[m..][..k - m];
      WellFormedPrefixBound(s[m..], k - m);
    }
  }

  /** `ValidUpTo(s)` is the length of the longest well-formed prefix of `s`. */
  lemma LongestValidPrefix(s: seq<uint8>)
    ensures WellFormed(s[..ValidUpTo(s)])
    ensures forall k | ValidUpTo(s) < k <= |s| :: !WellFormed(s[..k])
  {
    ValidUpToIsWellFormed(s);
    forall k | ValidUpTo(s) < k <= |s| ensures !WellFormed(s[..k]) {
      if WellFormed(s[..k]) {
        WellFormedPrefixBound(s, k);
      }
    }
  }

  /** A string is well formed exactly when its longest well-formed prefix is all of it. */
  lemma WellFormedIffValidUpToAll(s: seq<uint8>)
    ensures WellFormed(s) <==> ValidUpTo(s) == |s|
  {
    LongestValidPrefix(s);
    assert s[..|s|] == s;
  }

  /** A well-formed prefix is skipped whole: the longest valid prefix of `p + x` is `p` followed by that of `x`. */
  lemma {:induction false} ValidUpToAppend(p: seq<uint8>, x: seq<uint8>)
    requires WellFormed(p)
    ensures ValidUpTo(p + x) == |p| + ValidUpTo(x)
    decreases |p|
  {
    if p == [] {
      assert p + x == x;
    } else {
      var n := CharLength(p);
      CharLengthExtend(p, p + x);
      assert (p + x)[n..] == p[n..] + x;
      ValidUpToAppend(p[n..], x);
    }
  }

  /** Concatenating well-formed strings gives a well-formed string. */
  lemma WellFormedAppend(p: seq<uint8>, q: seq<uint8>)
    requires WellFormed(p) && WellFormed(q)
    ensures WellFormed(p + q)
  {
    WellFormedIffValidUpToAll(q);
    ValidUpToAppend(p, q);
    WellFormedIffValidUpToAll(p + q);
  }

  /** The scalar value a well-formed character encodes (the bit patterns of section 3 of RFC 3629). */
  function CharValue(s: seq<uint8>): (c: int)
    requires CharLength(s) > 0
    ensures IsScalar(c)
  {
    var n := CharLength(s);
    var b0: int := s[0];
    if n == 1 then b0
    else
      var b1: int := s[1];
      if n == 2 then (b0 - 0xC0) * 0x40 + (b1 - 0x80)
      else
        var b2: int := s[2];
        if n == 3 then (b0 - 0xE0) * 0x1000 + (b1 - 0x80) * 0x40 + (b2 - 0x80)
        else
          var b3: int := s[3];
          (b0 - 0xF0) * 0x40000 + (b1 - 0x80) * 0x1000 + (b2 - 0x80) * 0x40 + (b3 - 0x80)
  }

  /** The scalar values of a well-formed string, in order. */
  function Decode(s: seq<uint8>): (cs: seq<int>)
    requires WellFormed(s)
    ensures forall c | c in cs :: IsScalar(c)
    ensures |cs| <= |s|
    decreases |s|
  {
    if s == [] then [] else [CharValue(s)] + Decode(s[CharLength(s)..])
  }

  /** The value of a character depends only on the bytes it occupies. */
  lemma CharValueExtend(s: seq<uint8>, t: seq<uint8>)
    requires CharLength(s) > 0
    requires CharLength(s) <= |t| && t[..CharLength(s)] == s[..CharLength(s)]
    ensures CharLength(t) == CharLength(s) && CharValue(t) == CharValue(s)
  {
    CharLengthExtend(s, t);
    forall j | 0 <= j < CharLength(s) ensures t[j] == s[j] {
      assert t[j] == t[..CharLength(s)][j];
    }
  }

  /** The shortest UTF-8 form of a scalar value. */
  function EncodeScalar(c: int): (bs: seq<uint8>)
    requires IsScalar(c)
    ensures 1 <= |bs| <= 4
  {
    if c < 0x80 then [c]
    else if c < 0x800 then [0xC0 + c / 0x40, 0x80 + c % 0x40]
    else if c < 0x1_0000 then [0xE0 + c / 0x1000, 0x80 + (c / 0x40) % 0x40, 0x80 + c % 0x40]
    else [0xF0 + c / 0x40000, 0x80 + (c / 0x1000) % 0x40, 0x80 + (c / 0x40) % 0x40, 0x80 + c % 0x40]
  }

  function Encode(cs: seq<int>): (bs: seq<uint8>)
    requires forall c | c in cs :: IsScalar(c)
  {
    if cs == [] then [] else EncodeScalar(cs[0]) + Encode(cs[1..])
  }

  lemma {:induction false} EncodeAppend(cs: seq<int>, ds: seq<int>)
    requires forall c | c in cs :: IsScalar(c)
    requires forall c | c in ds :: IsScalar(c)
    ensures Encode(cs + ds) == Encode(cs) + Encode(ds)
  {
    if cs == [] {
      assert cs + ds == ds;
    } else {
      assert (cs + ds)[0] == cs[0] && (cs + ds)[1..] == cs[1..] + ds;
      EncodeAppend(cs[1..], ds);
    }
  }

  /** The encoding of one scalar value is one well-formed character that decodes back to it. */
  lemma EncodeScalarIsChar(c: int)
    requires IsScalar(c)
    ensures CharLength(EncodeScalar(c)) == |EncodeScalar(c)|
    ensures CharValue(EncodeScalar(c)) == c
  {
    if c < 0x80 {
    } else if c < 0x800 {
      assert 2 <= c / 0x40 < 0x20;
    } else if c < 0x1_0000 {
      EncodeThreeBytes(c);
    } else {
      EncodeFourBytes(c);
    }
  }

  lemma EncodeThreeBytes(c: int)
    requires IsScalar(c) && 0x800 <= c < 0x1_0000
    ensures CharLength(EncodeScalar(c)) == 3 && CharValue(EncodeScalar(c)) == c
  {
    var bs := EncodeScalar(c);
    var q0, q1, r := c / 0x1000, (c / 0x40) % 0x40, c % 0x40;
    assert c / 0x40 == q0 * 0x40 + q1;
    assert c == q0 * 0x1000 + q1 * 0x40 + r;
    assert q0 == 0 ==> q1 >= 0x20;
    assert q0 == 0xD ==> q1 < 0x20;
    assert bs == [0xE0 + q0, 0x80 + q1, 0x80 + r];
  }

  lemma EncodeFourBytes(c: int)
    requires IsScalar(c) && 0x1_0000 <= c
    ensures CharLength(EncodeScalar(c)) == 4 && CharValue(EncodeScalar(c)) == c
  {
    var bs := EncodeScalar(c);
    var q0, q1, q2, r := c / 0x40000, (c / 0x1000) % 0x40, (c / 0x40) % 0x40, c % 0x40;
    assert c / 0x1000 == q0 * 0x40 + q1;
    assert c / 0x40 == (c / 0x1000) * 0x40 + q2;
    assert c == q0 * 0x40000 + q1 * 0x1000 + q2 * 0x40 + r;
    assert q0 == 0 ==> q1 >= 0x10;
    assert q0 <= 4 && (q0 == 4 ==> q1 < 0x10);
    assert bs == [0xF0 + q0, 0x80 + q1, 0x80 + q2, 0x80 + r];
  }

  /** Encoding then decoding gives back the scalar values, and the encoding is well formed. */
  lemma {:induction false} DecodeEncode(cs: seq<int>)
    requires forall c | c in cs :: IsScalar(c)
    ensures WellFormed(Encode(cs)) && Decode(Encode(cs)) == cs
  {
    if cs != [] {
      var head := EncodeScalar(cs[0]);
      EncodeScalarIsChar(cs[0]);
      DecodeEncode(cs[1..]);
      var s := Encode(cs);
      assert s == head + Encode(cs[1..]);
      CharLengthExtend(head, s);
      assert s[|head|..] == Encode(cs[1..]);
      assert s[..|head|] == head;
      assert CharValue(s) == CharValue(head);
    }
  }

  /** Decoding then encoding gives back the bytes: a well-formed string has no other spelling. */
  lemma {:induction false} EncodeDecode(s: seq<uint8>)
    requires WellFormed(s)
    ensures Encode(Decode(s)) == s
    decreases |s|
  {
    if s != [] {
      var n := CharLength(s);
      EncodeCharValue(s);
      EncodeDecode(s[n..]);
      assert Decode(s) == [CharValue(s)] + Decode(s[n..]);
      assert Decode(s)[1..] == Decode(s[n..]);
      assert Encode(Decode(s)) == EncodeScalar(CharValue(s)) + Encode(Decode(s[n..]));
      assert s == s[..n] + s[n..];
    }
  }

  /** Re-encoding the value of a character gives back the bytes it occupies. */
  lemma EncodeCharValue(s: seq<uint8>)
    requires CharLength(s) > 0
    ensures EncodeScalar(CharValue(s)) == s[..CharLength(s)]
  {
    var n := CharLength(s);
    if n == 2 {
      EncodeTwoByteValue(s);
    } else if n == 3 {
      EncodeThreeByteValue(s);
    } else if n == 4 {
      EncodeFourByteValue(s);
    }
  }

  lemma EncodeTwoByteValue(s: seq<uint8>)
    requires CharLength(s) == 2
    ensures EncodeScalar(CharValue(s)) == s[..2]
  {
    var c := CharValue(s);
    var b0, b1: int := s[0], s[1];
    assert c == (b0 - 0xC0) * 0x40 + (b1 - 0x80);
    assert c / 0x40 == b0 - 0xC0 && c % 0x40 == b1 - 0x80;
  }

  lemma EncodeThreeByteValue(s: seq<uint8>)
    requires CharLength(s) == 3
    ensures EncodeScalar(CharValue(s)) == s[..3]
  {
    var c := CharValue(s);
    var b0, b1, b2: int := s[0], s[1], s[2];
    assert c == (b0 - 0xE0) * 0x1000 + (b1 - 0x80) * 0x40 + (b2 - 0x80);
    assert c / 0x1000 == b0 - 0xE0;
    assert c / 0x40 == (b0 - 0xE0) * 0x40 + (b1 - 0x80);
    assert c % 0x40 == b2 - 0x80;
  }

  lemma EncodeFourByteValue(s: seq<uint8>)
    requires CharLength(s) == 4
    ensures EncodeScalar(CharValue(s)) == s[..4]
  {
    var c := CharValue(s);
    var b0, b1, b2, b3: int := s[0], s[1], s[2], s[3];
    assert c == (b0 - 0xF0) * 0x40000 + (b1 - 0x80) * 0x1000 + (b2 - 0x80) * 0x40 + (b3 - 0x80);
    assert c / 0x40000 == b0 - 0xF0;
    assert c / 0x1000 == (b0 - 0xF0) * 0x40 + (b1 - 0x80);
    assert c / 0x40 == ((b0 - 0xF0) * 0x40 + (b1 - 0x80)) * 0x40 + (b2 - 0x80);
    assert c % 0x40 == b3 - 0x80;
  }

  /** Decoding distributes over concatenation of well-formed strings. */
  lemma DecodeAppend(p: seq<uint8>, q: seq<uint8>)
    requires WellFormed(p) && WellFormed(q)
    ensures WellFormed(p + q) && Decode(p + q) == Decode(p) + Decode(q)
  {
    var cs, ds := Decode(p), Decode(q);
    EncodeDecode(p);
    EncodeDecode(q);
    EncodeAppend(cs, ds);
    DecodeEncode(cs + ds);
  }
}
