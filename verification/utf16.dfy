/**
  UTF-16 as defined in section 2.1 of RFC 2781: a scalar value below U+10000 is one 16-bit unit,
  any other is a surrogate pair. Decoding is the inverse and rejects unpaired surrogates.
 */
module Utf16 {
  import opened Bytes
  import opened Wrappers
  import Utf8

  predicate IsHighSurrogate(w: uint16) {
    0xD800 <= w <= 0xDBFF
  }

  predicate IsLowSurrogate(w: uint16) {
    0xDC00 <= w <= 0xDFFF
  }

  /** Units a scalar value takes: one below U+10000, two (a surrogate pair) otherwise. */
  function UnitCount(c: int): nat {
    if c < 0x1_0000 then 1 else 2
  }

  /** The scalar value a surrogate pair stands for. */
  function PairValue(high: uint16, low: uint16): int {
    0x1_0000 + (high as int - 0xD800) * 0x400 + (low as int - 0xDC00)
  }

  function EncodeScalar(c: int): (ws: seq<uint16>)
    requires Utf8.IsScalar(c)
    ensures |ws| == UnitCount(c)
    ensures |ws| == 1 ==> ws[0] == c && !IsHighSurrogate(ws[0]) && !IsLowSurrogate(ws[0])
    ensures |ws| == 2 ==> IsHighSurrogate(ws[0]) && IsLowSurrogate(ws[1])
                          && c == PairValue(ws[0], ws[1])
  {
    if c < 0x1_0000 then [c]
    else
      var u := c - 0x1_0000;
      [0xD800 + u / 0x400, 0xDC00 + u % 0x400]
  }

  function Encode(cs: seq<int>): (ws: seq<uint16>)
    requires forall c | c in cs :: Utf8.IsScalar(c)
  {
    if cs == [] then [] else EncodeScalar(cs[0]) + Encode(cs[1..])
  }

  /** The scalar values a sequence of units spells, or None when it holds an unpaired surrogate. */
  function Decode(ws: seq<uint16>): (r: Option<seq<int>>)
    ensures r.Some? ==> forall c | c in r.value :: Utf8.IsScalar(c)
    decreases |ws|
  {
    if ws == [] then Some([])
    else if !IsHighSurrogate(ws[0]) && !IsLowSurrogate(ws[0]) then
      match Decode(ws[1..])
      case None => None
      case Some(rest) => Some([ws[0] as int] + rest)
    else if IsHighSurrogate(ws[0]) && |ws| >= 2 && IsLowSurrogate(ws[1]) then
      match Decode(ws[2..])
      case None => None
      case Some(rest) => Some([PairValue(ws[0], ws[1])] + rest)
    else None
  }

  /** Encoding distributes over concatenation. */
  lemma {:induction false} EncodeAppend(cs: seq<int>, ds: seq<int>)
    requires forall c | c in cs :: Utf8.IsScalar(c)
    requires forall c | c in ds :: Utf8.IsScalar(c)
    ensures Encode(cs + ds) == Encode(cs) + Encode(ds)
  {
    if cs == [] {
      assert cs + ds == ds;
    } else {
      assert (cs + ds)[1..] == cs[1..] + ds;
      EncodeAppend(cs[1..], ds);
    }
  }

  /** Decoding inverts encoding. */
  lemma {:induction false} DecodeEncode(cs: seq<int>)
    requires forall c | c in cs :: Utf8.IsScalar(c)
    ensures Decode(Encode(cs)) == Some(cs)
  {
    if cs != [] {
      var head := EncodeScalar(cs[0]);
      var ws := Encode(cs);
      DecodeEncode(cs[1..]);
      assert ws[|head|..] == Encode(cs[1..]);
      assert ws[0] == head[0];
      assert cs == [cs[0]] + cs[1..];
      if |head| == 2 {
        assert ws[1] == head[1];
        assert ws[2..] == Encode(cs[1..]);
        assert Decode(ws) == Some([PairValue(ws[0], ws[1])] + cs[1..]);
      } else {
        assert ws[1..] == Encode(cs[1..]);
        assert Decode(ws) == Some([ws[0] as int] + cs[1..]);
      }
    }
  }

  /** How many of the values lie above U+FFFF and so need a surrogate pair. */
  function Supplementary(cs: seq<int>): (n: nat)
    ensures n <= |cs|
    ensures n == 0 <==> forall c | c in cs :: c < 0x1_0000
  {
    if cs == [] then 0
    else
      assert forall c | c in cs :: c == cs[0] || c in cs[1..];
      assert cs[0] in cs && forall c | c in cs[1..] :: c in cs;
      (if cs[0] < 0x1_0000 then 0 else 1) + Supplementary(cs[1..])
  }

  /** The number of units is the number of scalar values plus one per value above U+FFFF. */
  lemma {:induction false} EncodeLength(cs: seq<int>)
    requires forall c | c in cs :: Utf8.IsScalar(c)
    ensures |Encode(cs)| == |cs| + Supplementary(cs)
    ensures |cs| <= |Encode(cs)| <= 2 * |cs|
    ensures (forall c | c in cs :: c < 0x1_0000) ==> |Encode(cs)| == |cs|
  {
    if cs != [] {
      assert forall c | c in cs[1..] :: c in cs;
      EncodeLength(cs[1..]);
    }
  }
}
