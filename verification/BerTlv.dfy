/** BER tag-length-value records with definite lengths (section 8.1.3 of X.690). */
module BerTlv {
  import opened Arith
  import opened Bytes
  import opened Wrappers

  datatype Tlv = Tlv(tag: Byte, value: seq<Byte>, raw: seq<Byte>)

  /** The shortest big-endian form of a length; empty for 0. */
  function LengthBytes(l: nat): (lb: seq<Byte>)
    ensures Val(lb) == l
    ensures |lb| == 0 <==> l == 0
  {
    if l == 0 then [] else
      var hi := LengthBytes(l / 256);
      ValSnoc(hi, l % 256);
      hi + [l % 256]
  }

  /** The length octets and the value after the tag, or none when the 7-bit count is exceeded. */
  function Header(l: nat): seq<Byte>
    requires |LengthBytes(l)| < 128
  {
    if l < 0x80 then [l] else [0x80 + |LengthBytes(l)|] + LengthBytes(l)
  }

  /** A Go slice is shorter than 2^63, so a length has at most 8 octets. */
  const MAX_LEN: nat := 0x8000_0000_0000_0000

  function Encode(tag: Byte, value: seq<Byte>): seq<Byte>
    requires |value| < MAX_LEN
  {
    LengthFits(|value|);
    [tag] + Header(|value|) + value
  }

  lemma {:induction false} LengthSize(l: nat, n: nat)
    ensures |LengthBytes(l)| <= n <==> l < Pow2(8 * n)
    decreases n
  {
    if n == 0 {
    } else {
      Pow2Byte(n);
      LengthSize(l / 256, n - 1);
    }
  }

  lemma LengthFits(l: nat)
    requires l < MAX_LEN
    ensures |LengthBytes(l)| <= 8
  {
    Pow2Values();
    Pow2Add(32, 32);
    LengthSize(l, 8);
  }

  /** tlvEncode. */
  method TlvEncode(tag: Byte, value: seq<Byte>) returns (out: seq<Byte>)
    requires |value| < MAX_LEN
    ensures out == Encode(tag, value)
  {
    var l := |value|;
    LengthFits(l);
    if l < 0x80 {
      out := [tag, l];
    } else {
      var lb := LengthOctets(l);
      out := [tag, 0x80 + |lb|] + lb;
      assert out == [tag] + Header(l);
    }
    out := out + value;
  }

  /** The loop that prepends the low octet of the length until nothing is left. */
  method LengthOctets(l: nat) returns (lb: seq<Byte>)
    ensures lb == LengthBytes(l)
  {
    lb := [];
    var x := l;
    while x > 0
      invariant LengthBytes(x) + lb == LengthBytes(l)
    {
      ghost var hi := LengthBytes(x / 256);
      assert (hi + [x % 256]) + lb == hi + ([x % 256] + lb);
      lb := [x % 256] + lb;
      x := x / 256;
    }
  }

  /** tlv, as a value. */
  function Decode(b: seq<Byte>): Option<Tlv> {
    if |b| < 2 then None
    else if b[1] < 0x80 then Cut(b, 2, b[1])
    else
      var n := b[1] - 0x80;
      if n == 0 || n > 4 || |b| < 2 + n then None else Cut(b, 2 + n, Val(b[2..2 + n]))
  }

  function Cut(b: seq<Byte>, hdr: nat, l: nat): Option<Tlv>
    requires 1 <= hdr <= |b|
  {
    if |b| < hdr + l then None else Some(Tlv(b[0], b[hdr..hdr + l], b[..hdr + l]))
  }

  /** tlv. */
  method TlvDecode(b: seq<Byte>) returns (r: Option<Tlv>)
    ensures r == Decode(b)
  {
    if |b| < 2 {
      return None;
    }
    var l: nat := b[1];
    var hdr := 2;
    if l >= 0x80 {
      var n := l - 0x80;
      if n == 0 || n > 4 || |b| < 2 + n {
        return None;
      }
      l := 0;
      for i := 0 to n
        invariant l == Val(b[2..2 + i])
      {
        assert b[2..2 + (i + 1)] == b[2..2 + i] + [b[2 + i]];
        ValSnoc(b[2..2 + i], b[2 + i]);
        l := l * 256 + b[2 + i];
      }
      hdr := 2 + n;
    }
    if |b| < hdr + l {
      return None;
    }
    r := Some(Tlv(b[0], b[hdr..hdr + l], b[..hdr + l]));
  }

  /** Where the pieces of an encoded record sit in front of `rest`. */
  lemma Layout(tag: Byte, h: seq<Byte>, value: seq<Byte>, rest: seq<Byte>)
    requires h != []
    ensures var b := ([tag] + h + value) + rest;
            var hdr := 1 + |h|;
            && b[0] == tag && b[1] == h[0] && b[2..hdr] == h[1..]
            && b[hdr..hdr + |value|] == value && b[..hdr + |value|] == [tag] + h + value
  {
    var b := ([tag] + h + value) + rest;
    assert b == [tag] + (h + (value + rest));
    assert b[1..1 + |h|] == h;
  }

  lemma LongRoundTrip(tag: Byte, value: seq<Byte>, rest: seq<Byte>)
    requires 0x80 <= |value| < MAX_LEN
    ensures Decode(Encode(tag, value) + rest) ==
            if |LengthBytes(|value|)| <= 4 then Some(Tlv(tag, value, Encode(tag, value))) else None
  {
    var l := |value|;
    LengthFits(l);
    Layout(tag, Header(l), value, rest);
    assert Header(l)[1..] == LengthBytes(l);
  }

  /**
   Decoding an encoded record gives back tag, value and the exact bytes, whatever follows it,
   exactly when the value is shorter than 2^32 bytes; a longer one is refused.
   */
  lemma RoundTrip(tag: Byte, value: seq<Byte>, rest: seq<Byte>)
    requires |value| < MAX_LEN
    ensures Decode(Encode(tag, value) + rest) ==
            if |value| < 0x1_0000_0000 then Some(Tlv(tag, value, Encode(tag, value))) else None
  {
    if |value| < 0x80 {
      LengthFits(|value|);
      Layout(tag, Header(|value|), value, rest);
    } else {
      Pow2Values();
      LengthSize(|value|, 4);
      LongRoundTrip(tag, value, rest);
    }
  }

  /** The value of a decoded record is shorter than 2^32 and its length fits the octets it came with. */
  lemma DecodedLength(b: seq<Byte>)
    requires Decode(b).Some?
    ensures var t := Decode(b).value;
            && |t.value| < 0x1_0000_0000
            && (|t.value| < 0x80 || |LengthBytes(|t.value|)| + 2 + |t.value| <= |t.raw|)
  {
    if b[1] >= 0x80 {
      var n, l := b[1] - 0x80, |Decode(b).value.value|;
      ValBound(b[2..2 + n]);
      LengthSize(l, n);
      assert l < 0x1_0000_0000 by {
        Pow2Mono(8 * n, 32);
        Pow2Values();
      }
    }
  }

  /** A decoded record is a prefix of its input, and lengths with leading zero octets are normalised away. */
  lemma Reencode(b: seq<Byte>)
    requires |b| < MAX_LEN && Decode(b).Some?
    ensures var t := Decode(b).value;
            && t.raw <= b && t.raw != [] && t.value == t.raw[|t.raw| - |t.value|..]
            && |t.value| < 0x1_0000_0000
            && Decode(Encode(t.tag, t.value)) == Some(Tlv(t.tag, t.value, Encode(t.tag, t.value)))
            && |Encode(t.tag, t.value)| <= |t.raw|
  {
    var t := Decode(b).value;
    DecodedIsPrefix(b);
    DecodedLength(b);
    EncodedSize(t.tag, t.value);
    EncodingDecodes(t.tag, t.value);
  }

  lemma DecodedIsPrefix(b: seq<Byte>)
    requires Decode(b).Some?
    ensures var t := Decode(b).value;
            && t.raw <= b && t.raw != [] && 2 + |t.value| <= |t.raw| && t.value == t.raw[|t.raw| - |t.value|..]
  {
    var t := Decode(b).value;
    var hdr, l := |t.raw| - |t.value|, |t.value|;
    assert b[..hdr + l][hdr..] == b[hdr..hdr + l];
  }

  lemma EncodingDecodes(tag: Byte, value: seq<Byte>)
    requires |value| < 0x1_0000_0000
    ensures Decode(Encode(tag, value)) == Some(Tlv(tag, value, Encode(tag, value)))
  {
    RoundTrip(tag, value, []);
    assert Encode(tag, value) + [] == Encode(tag, value);
  }

  lemma EncodedSize(tag: Byte, value: seq<Byte>)
    requires |value| < MAX_LEN
    ensures |Encode(tag, value)| == |value| + if |value| < 0x80 then 2 else 2 + |LengthBytes(|value|)|
  {
    LengthFits(|value|);
  }

  /** The octets spell the length `l`: one below 128, or a count of one to four and that many, leading zeros allowed. */
  ghost predicate Spells(h: seq<Byte>, l: nat) {
    || (l < 0x80 && h == [l])
    || (2 <= |h| <= 5 && h[0] == 0x80 + (|h| - 1) && Val(h[1..]) == l)
  }

  /** The record is at the front of `b`: its tag, octets that spell the length of its value, and the value. */
  ghost predicate Fronts(b: seq<Byte>, t: Tlv, h: seq<Byte>) {
    Spells(h, |t.value|) && t.raw == [t.tag] + h + t.value && t.raw <= b
  }

  lemma FrontDecodes(b: seq<Byte>, t: Tlv, h: seq<Byte>)
    requires Fronts(b, t, h)
    ensures Decode(b) == Some(t)
  {
    var rest := b[|t.raw|..];
    assert b == ([t.tag] + h + t.value) + rest;
    Layout(t.tag, h, t.value, rest);
  }

  lemma DecodedFronts(b: seq<Byte>) returns (h: seq<Byte>)
    requires Decode(b).Some?
    ensures Fronts(b, Decode(b).value, h)
  {
    var t := Decode(b).value;
    var hdr := |t.raw| - |t.value|;
    h := b[1..hdr];
    assert t.raw == b[..|t.raw|];
    assert t.raw == [b[0]] + b[1..hdr] + b[hdr..|t.raw|];
    assert b[1] >= 0x80 ==> h[1..] == b[2..hdr];
  }

  /** Decoding finds a record exactly when one is at the front, minimal or not, and then it is that record. */
  lemma DecodeExactly(b: seq<Byte>, t: Tlv)
    ensures Decode(b) == Some(t) <==> exists h :: Fronts(b, t, h)
  {
    if Decode(b) == Some(t) { var h := DecodedFronts(b); }
    if h :| Fronts(b, t, h) { FrontDecodes(b, t, h); }
  }
}
