/** Which pieces a peer has, as flags and as the bytes of a message. */
module Bitfield {
  import opened Basics

  /** Bit k of a byte, the most significant first. */
  predicate Bit(c: byte, k: nat)
    requires k < 8
    decreases 8 - k
  {
    if k == 7 then c % 2 == 1 else Bit(c / 2, k + 1)
  }

  /** The flags in a bitfield message: one bit a piece, and spare bits, of which there are at most
      seven, are zero. */
  function Bits(length: nat, s: seq<byte>): (r: Option<seq<bool>>)
    ensures r.Some? ==> |r.value| == length
  {
    var extra := |s| * 8 - length;
    var t := seq(|s| * 8, i requires 0 <= i < |s| * 8 => Bit(s[i / 8], i % 8));
    if extra < 0 || extra >= 8 || exists i :: length <= i < |t| && t[i] then None else Some(t[..length])
  }

  /** The number that has these bits. */
  function Octet(b: seq<bool>): (c: nat)
    ensures c < Span(|b|)
  {
    if b == [] then 0 else 2 * Octet(b[..|b| - 1]) + if b[|b| - 1] then 1 else 0
  }

  function Span(n: nat): nat { if n == 0 then 1 else 2 * Span(n - 1) }

  function OctetByte(b: seq<bool>): byte
    requires |b| == 8
  {
    Bytes8();
    Octet(b)
  }

  lemma Bytes8()
    ensures Span(8) == 256
  {
    assert Span(4) == 16;
  }

  /** tostring of the bitfield that we send. */
  function ToString(flags: seq<bool>): seq<byte> {
    seq((|flags| + 7) / 8, j requires 0 <= j < (|flags| + 7) / 8 => OctetByte(Eight(flags, j)))
  }

  predicate Flag(flags: seq<bool>, i: nat) { i < |flags| && flags[i] }

  /** The flags of byte j, continued with zeros. */
  function Eight(flags: seq<bool>, j: nat): seq<bool> {
    seq(8, k requires 0 <= k < 8 => Flag(flags, 8 * j + k))
  }

  ghost predicate Spells(c: byte, b: seq<bool>)
    requires |b| <= 8
  {
    forall k: nat :: 8 - |b| <= k < 8 ==> Bit(c, k) == b[k + |b| - 8]
  }

  /** A number of at most eight bits is given by them. */
  lemma {:induction false} OctetBits(c: byte, b: seq<bool>)
    requires |b| <= 8 && c < Span(|b|)
    ensures c == Octet(b) <==> Spells(c, b)
  {
    if b != [] {
      var n := |b| - 1;
      OctetBits(c / 2, b[..n]);
      hide Span, Octet;
      assert forall k: nat :: k < 7 ==> Bit(c, k) == Bit(c / 2, k + 1);
      if Spells(c, b) {
        forall k: nat | 8 - n <= k < 8 ensures Bit(c / 2, k) == b[..n][k + n - 8] {
          assert Bit(c, k - 1) == b[k - 1 + |b| - 8];
        }
      }
      if Spells(c / 2, b[..n]) && (c % 2 == 1) == b[n] {
        forall k: nat | 8 - |b| <= k < 8 ensures Bit(c, k) == b[k + |b| - 8] {
          if k < 7 { assert Bit(c / 2, k + 1) == b[..n][k + 1 + n - 8]; }
        }
      }
      assert Spells(c, b) <==> Spells(c / 2, b[..n]) && (c % 2 == 1) == b[n] by {
        if Spells(c, b) { assert Bit(c, 7) == b[n]; }
      }
    }
    OctetStep(c, b);
  }

  lemma OctetStep(c: byte, b: seq<bool>)
    requires |b| <= 8 && c < Span(|b|)
    ensures c == Octet(b) <==> (b == [] || (c / 2 == Octet(b[..|b| - 1]) && (c % 2 == 1) == b[|b| - 1]))
  {
  }

  /** Byte j of the message carries the flags that belong there. */
  ghost predicate ByteIs(c: byte, flags: seq<bool>, j: nat) {
    forall k: nat :: k < 8 ==> Bit(c, k) == Flag(flags, 8 * j + k)
  }

  lemma ByteFlags(c: byte, flags: seq<bool>, j: nat)
    ensures c == OctetByte(Eight(flags, j)) <==> ByteIs(c, flags, j)
  {
    Bytes8();
    var b := Eight(flags, j);
    OctetBits(c, b);
    hide Octet, Bit, Span, Flag;
    if Spells(c, b) {
      forall k: nat | k < 8 ensures Bit(c, k) == Flag(flags, 8 * j + k) { assert b[k] == Flag(flags, 8 * j + k); }
    }
    if ByteIs(c, flags, j) {
      forall k: nat | 8 - |b| <= k < 8 ensures Bit(c, k) == b[k + |b| - 8] { assert b[k] == Flag(flags, 8 * j + k); }
    }
  }

  lemma BitsMeans(length: nat, s: seq<byte>, flags: seq<bool>)
    ensures Bits(length, s) == Some(flags) <==>
              |flags| == length && |s| == (length + 7) / 8 && forall i :: 0 <= i < |s| * 8 ==> Bit(s[i / 8], i % 8) == Flag(flags, i)
  {
    hide Bit;
    var t := seq(|s| * 8, i requires 0 <= i < |s| * 8 => Bit(s[i / 8], i % 8));
    if |flags| == length && |s| == (length + 7) / 8 {
      if Bits(length, s) == Some(flags) {
        assert t[..length] == flags;
        forall i | 0 <= i < |s| * 8 ensures Bit(s[i / 8], i % 8) == Flag(flags, i) {
          assert i < length ==> t[i] == t[..length][i];
          assert t[i] == Bit(s[i / 8], i % 8);
        }
      }
      if forall i :: 0 <= i < |s| * 8 ==> Bit(s[i / 8], i % 8) == Flag(flags, i) {
        assert t[..length] == flags;
      }
    }
  }

  /** A bitfield message is accepted with certain flags exactly if it is the one that tostring makes of them. */
  lemma FlagsBack(length: nat, s: seq<byte>, flags: seq<bool>)
    ensures Bits(length, s) == Some(flags) <==> |flags| == length && s == ToString(flags)
  {
    BitsMeans(length, s, flags);
    hide OctetByte, Bit, Bits, Flag, Eight, ByteIs;
    if |flags| == length && |s| == (length + 7) / 8 {
      forall j | 0 <= j < |s| ensures s[j] == ToString(flags)[j] <==> ByteIs(s[j], flags, j) {
        ByteFlags(s[j], flags, j);
      }
      EachBit(s, flags);
      assert s == ToString(flags) <==> forall j :: 0 <= j < |s| ==> s[j] == ToString(flags)[j];
    }
  }

  /** Flag by flag or byte by byte. */
  lemma EachBit(s: seq<byte>, flags: seq<bool>)
    requires |s| == (|flags| + 7) / 8
    ensures (forall i :: 0 <= i < |s| * 8 ==> Bit(s[i / 8], i % 8) == Flag(flags, i))
       <==> forall j :: 0 <= j < |s| ==> ByteIs(s[j], flags, j)
  {
    hide Bit, Flag;
    if forall i :: 0 <= i < |s| * 8 ==> Bit(s[i / 8], i % 8) == Flag(flags, i) {
      forall j, k: nat | 0 <= j < |s| && k < 8 ensures Bit(s[j], k) == Flag(flags, 8 * j + k) {
        var i := 8 * j + k;
        assert i / 8 == j && i % 8 == k;
      }
    }
  }

  /** The first flag of a byte is worth 128, the last one 1. */
  lemma {:induction false} BitWorth(c: byte, k: nat)
    requires k < 8
    ensures Bit(c, k) <==> c / [128, 64, 32, 16, 8, 4, 2, 1][k] % 2 == 1
    decreases 8 - k
  {
    if k < 7 {
      BitWorth(c / 2, k + 1);
      assert c / 2 / 64 == c / 128 && c / 2 / 32 == c / 64 && c / 2 / 16 == c / 32 && c / 2 / 8 == c / 16;
      assert c / 2 / 4 == c / 8 && c / 2 / 2 == c / 4 && c / 2 / 1 == c / 2;
    }
  }

  /** Where the flag of piece i lies in the bytes. */
  lemma FlagLies(flags: seq<bool>, i: nat)
    requires i < |flags|
    ensures |ToString(flags)| == (|flags| + 7) / 8
    ensures flags[i] <==> ToString(flags)[i / 8] / [128, 64, 32, 16, 8, 4, 2, 1][i % 8] % 2 == 1
  {
    var s := ToString(flags);
    FlagsBack(|flags|, s, flags);
    BitsMeans(|flags|, s, flags);
    BitWorth(s[i / 8], i % 8);
    hide ToString, Bit, Bits;
    assert Bit(s[i / 8], i % 8) == Flag(flags, i);
  }
}
