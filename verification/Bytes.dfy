/** Big-endian byte strings, their value, and the in-place odometer that steps them. */
module Bytes {
  import opened Arith

  type Byte = x: nat | x < 256

  function Val(s: seq<Byte>): nat {
    if s == [] then 0 else Val(s[..|s| - 1]) * 256 + s[|s| - 1]
  }

  /** The `n` low-order bytes of `v`. */
  function ToBytes(v: nat, n: nat): (s: seq<Byte>)
    ensures |s| == n
  {
    if n == 0 then [] else ToBytes(v / 256, n - 1) + [v % 256]
  }

  lemma ValSnoc(s: seq<Byte>, x: Byte)
    ensures Val(s + [x]) == Val(s) * 256 + x
  {
    assert (s + [x])[..|s|] == s;
  }

  lemma Pow2Shift(h: nat)
    requires h >= 8
    ensures Pow2(h) == 256 * Pow2(h - 8)
  {
    assert Pow2(h) == 4 * Pow2(h - 2);
    assert Pow2(h - 2) == 4 * Pow2(h - 4);
    assert Pow2(h - 4) == 4 * Pow2(h - 6);
    assert Pow2(h - 6) == 4 * Pow2(h - 8);
  }

  lemma Pow2Byte(n: nat)
    requires n > 0
    ensures Pow2(8 * n) == 256 * Pow2(8 * (n - 1))
  {
    Pow2Shift(8 * n);
  }

  lemma {:induction false} ValBound(s: seq<Byte>)
    ensures Val(s) < Pow2(8 * |s|)
  {
    if s == [] {
    } else {
      ValBound(s[..|s| - 1]);
      Pow2Byte(|s|);
    }
  }

  lemma {:induction false} ValOfToBytes(v: nat, n: nat)
    requires v < Pow2(8 * n)
    ensures Val(ToBytes(v, n)) == v
  {
    if n == 0 {
    } else {
      Pow2Byte(n);
      ValOfToBytes(v / 256, n - 1);
      ValSnoc(ToBytes(v / 256, n - 1), v % 256);
    }
  }

  /** The byte string after one step of the odometer. */
  function Inc(s: seq<Byte>): (r: seq<Byte>)
    ensures |r| == |s|
  {
    if s == [] then []
    else
      var init, last := s[..|s| - 1], s[|s| - 1];
      if last < 255 then init + [last + 1] else Inc(init) + [0]
  }

  /** One step adds 1 modulo 256^n: it wraps from the all-ones string to zero. */
  lemma {:induction false} IncVal(s: seq<Byte>)
    ensures Val(Inc(s)) == if Val(s) + 1 == Pow2(8 * |s|) then 0 else Val(s) + 1
  {
    if s == [] {
    } else {
      var init, last := s[..|s| - 1], s[|s| - 1];
      Pow2Byte(|s|);
      ValBound(init);
      if last < 255 {
        ValSnoc(init, last + 1);
      } else {
        IncVal(init);
        ValSnoc(Inc(init), 0);
      }
    }
  }

  /** Carry so far: everything right of `j` was 255 and is 0, everything else is untouched. */
  ghost predicate Carried(was: seq<Byte>, now: seq<Byte>, j: int) {
    && -1 <= j < |was| == |now|
    && now[..j + 1] == was[..j + 1]
    && Inc(was) == Inc(was[..j + 1]) + now[j + 1..]
  }

  lemma CarryStep(was: seq<Byte>, now: seq<Byte>, j: nat)
    requires Carried(was, now, j)
    ensures now[j] == 255 ==> Carried(was, now[j := 0], j - 1)
    ensures now[j] < 255 ==> Inc(was) == now[j := now[j] + 1]
  {
    var head := was[..j + 1];
    assert head[..j] == was[..j] && head[j] == was[j] == now[j];
    if now[j] == 255 {
      assert Inc(head) == Inc(was[..j]) + [0];
      assert now[j := 0][j..] == [0] + now[j + 1..];
    } else {
      assert Inc(head) == was[..j] + [now[j] + 1];
      assert now[j := now[j] + 1] == now[..j] + [now[j] + 1] + now[j + 1..];
      assert now[..j] == now[..j + 1][..j] == was[..j];
    }
  }

  /** incIP: advance the address held in `ip`, carrying leftwards until a byte does not wrap. */
  method IncIP(ip: array<Byte>)
    modifies ip
    ensures ip[..] == Inc(old(ip[..]))
  {
    ghost var was := ip[..];
    var j := ip.Length - 1;
    assert was[..j + 1] == was && ip[..][j + 1..] == [];
    while j >= 0
      invariant Carried(was, ip[..], j)
    {
      ghost var now := ip[..];
      CarryStep(was, now, j);
      var b := if ip[j] == 255 then 0 else ip[j] + 1;  // ip[j]++ on a byte
      ip[j] := b;
      assert ip[..] == now[j := b];
      if ip[j] > 0 {
        return;
      }
      j := j - 1;
    }
    assert was[..0] == [] && ip[..][0..] == ip[..];
  }

  /** Zero bits of byte `i` in a mask of `prefix` leading ones. */
  function FreeBits(prefix: nat, i: nat): (z: nat)
    ensures z <= 8
  {
    if prefix >= 8 * i + 8 then 0 else if prefix <= 8 * i then 8 else 8 * i + 8 - prefix
  }

  /** `b | ^m` for a mask byte with `z` trailing zero bits. */
  function OrFree(b: Byte, z: nat): Byte
    requires z <= 8
  {
    Pow2Mono(z, 8);
    Pow2Values();
    OrFreeBound(b, z);
    b - b % Pow2(z) + Pow2(z) - 1
  }

  lemma OrFreeBound(b: Byte, z: nat)
    requires z <= 8
    ensures 0 <= b - b % Pow2(z) && b - b % Pow2(z) + Pow2(z) <= 256
  {
    assert Pow2(8) == 256 by { Pow2Values(); }
    assert Aligned(256, z) by { Pow2Aligned(8, z); }
    assert Aligned(b - b % Pow2(z), z) by { TruncAligned(b, z); }
    AlignedGap(b - b % Pow2(z), 256, z);
  }

  function LastBytes(s: seq<Byte>, prefix: nat): (r: seq<Byte>)
    ensures |r| == |s|
  {
    if s == [] then []
    else LastBytes(s[..|s| - 1], prefix) + [OrFree(s[|s| - 1], FreeBits(prefix, |s| - 1))]
  }

  /** With every byte fully masked nothing is or-ed in. */
  lemma {:induction false} LastBytesFull(s: seq<Byte>, prefix: nat)
    requires prefix >= 8 * |s|
    ensures LastBytes(s, prefix) == s
  {
    if s == [] {
    } else {
      LastBytesFull(s[..|s| - 1], prefix);
    }
  }

  lemma ByteSplit(hi: nat, x: Byte)
    ensures (hi * 256 + x) / 256 == hi && (hi * 256 + x) % 256 == x
  {
  }

  lemma AlignedByteHigh(hi: nat, x: Byte, h: nat)
    requires Aligned(hi * 256 + x, h) && h >= 8
    ensures x == 0 && Aligned(hi, h - 8)
  {
    ByteSplit(hi, x);
    AlignedShift(hi * 256 + x, h);
  }

  lemma AlignedByteLow(hi: nat, x: Byte, h: nat)
    requires Aligned(hi * 256 + x, h) && h <= 8
    ensures x % Pow2(h) == 0
  {
    Pow2Values();
    Pow2Aligned(8, h);
    AlignedScale(256, h, hi);
    AlignedSum(hi * 256 + x, 256 * hi, h);
    assert (hi * 256 + x) - 256 * hi == x;
    AlignedMod(x, h);
  }

  lemma LastSnoc(init: seq<Byte>, x: Byte, prefix: nat)
    ensures Val(LastBytes(init + [x], prefix)) == Val(LastBytes(init, prefix)) * 256 + OrFree(x, FreeBits(prefix, |init|))
  {
    assert (init + [x])[..|init|] == init;
    ValSnoc(LastBytes(init, prefix), OrFree(x, FreeBits(prefix, |init|)));
  }

  lemma OrFreeAll()
    ensures OrFree(0, 8) == 255
  {
    Pow2Values();
  }

  lemma OrFreeAligned(x: Byte, z: nat)
    requires z <= 8 && x % Pow2(z) == 0
    ensures OrFree(x, z) == x + Pow2(z) - 1
  {
  }

  /** The last byte is wholly host bits: it becomes 255 below a moved prefix. */
  lemma LastValHigh(init: seq<Byte>, prefix: nat, h: nat)
    requires h >= 8 && h == 8 * (|init| + 1) - prefix
    requires Val(LastBytes(init, prefix)) == Val(init) + Pow2(h - 8) - 1
    ensures Val(LastBytes(init + [0], prefix)) == Val(init) * 256 + Pow2(h) - 1
  {
    LastSnoc(init, 0, prefix);
    OrFreeAll();
    Pow2Shift(h);
  }

  /** The last byte is the only one with host bits. */
  lemma LastValLow(init: seq<Byte>, x: Byte, prefix: nat, h: nat)
    requires 0 <= h < 8 && h == 8 * (|init| + 1) - prefix && x % Pow2(h) == 0
    ensures Val(LastBytes(init + [x], prefix)) == Val(init) * 256 + x + Pow2(h) - 1
  {
    LastBytesFull(init, prefix);
    LastSnoc(init, x, prefix);
    assert FreeBits(prefix, |init|) == h;
    OrFreeAligned(x, h);
  }

  /** Or-ing in the complement of the mask moves an aligned base to the top of its block. */
  lemma {:induction false} LastVal(s: seq<Byte>, prefix: nat)
    requires prefix <= 8 * |s| && Aligned(Val(s), 8 * |s| - prefix)
    ensures Val(LastBytes(s, prefix)) == Val(s) + Pow2(8 * |s| - prefix) - 1
  {
    if s == [] {
    } else {
      var init, x, h := s[..|s| - 1], s[|s| - 1], 8 * |s| - prefix;
      assert s == init + [x];
      if h >= 8 {
        AlignedByteHigh(Val(init), x, h);
        LastVal(init, prefix);
        LastValHigh(init, prefix, h);
      } else {
        AlignedByteLow(Val(init), x, h);
        LastValLow(init, x, prefix, h);
      }
    }
  }

  /** The loop of lastAddress: or the complement of the mask into each byte, in place. */
  method FillHostBits(last: array<Byte>, prefix: nat)
    modifies last
    ensures last[..] == LastBytes(old(last[..]), prefix)
  {
    ghost var was := last[..];
    var i := 0;
    while i < last.Length
      invariant i <= last.Length
      invariant last[..i] == LastBytes(was[..i], prefix)
      invariant last[i..] == was[i..]
    {
      assert was[..i + 1][..i] == was[..i];
      last[i] := OrFree(last[i], FreeBits(prefix, i));
      i := i + 1;
    }
    assert was[..i] == was && last[..i] == last[..];
  }

  /** A fresh array holding `s`. */
  method Copy(s: seq<Byte>) returns (a: array<Byte>)
    ensures fresh(a) && a[..] == s
  {
    a := new Byte[|s|](i requires 0 <= i < |s| => s[i]);
  }
}
