/**
 * The VarInt format of the Minecraft protocol, as mcstatusc.c reads it:
 * each byte carries seven data bits (`b & 0x7f`) and a continuation flag
 * (`b & 0x80`); the groups are little-endian, the first byte holding the
 * lowest seven bits.
 */
module VarInt {
  import opened Wrappers

  /** A byte of the buffer, by its unsigned value. */
  type Byte = x: int | 0 <= x < 256

  /** The continuation flag `b & 0x80`: more bytes of the same VarInt follow. */
  predicate Continues(b: Byte) {
    b >= 128
  }

  /** The seven data bits `b & 0x7f` of one byte. */
  function Group(b: Byte): nat {
    b % 128
  }

  /**
   * The two masks of the C code, on an 8-bit value, are the arithmetic that
   * `Group` and `Continues` use.
   */
  lemma MasksAreArithmetic(b: bv8)
    ensures (b & 0x7f) as int == b as int % 128
    ensures (b & 0x80 != 0) <==> b as int >= 128
  {
  }

  /** `1 << 7k`: the weight of the k-th group. */
  function Pow128(k: nat): (r: nat)
    ensures r >= 1
  {
    if k == 0 then 1 else 128 * Pow128(k - 1)
  }

  /**
   * How many bytes the VarInt at the head of `s` occupies: every byte up to
   * and including the first one whose continuation flag is clear. None when
   * `s` ends before such a byte.
   */
  function Size(s: seq<Byte>): (r: Option<nat>)
    ensures r.Some? ==> 1 <= r.value <= |s| && !Continues(s[r.value - 1])
    ensures r.Some? ==> forall k | 0 <= k < r.value - 1 :: Continues(s[k])
    ensures r.None? <==> forall k | 0 <= k < |s| :: Continues(s[k])
  {
    if s == [] then None
    else if !Continues(s[0]) then Some(1)
    else match Size(s[1..])
      case None => None
      case Some(n) => Some(n + 1)
  }

  /** The number the groups of `s` spell: the sum over k of `Group(s[k]) << 7k`. */
  function Value(s: seq<Byte>): (r: nat)
    ensures r < Pow128(|s|)
  {
    if s == [] then 0 else Group(s[0]) + 128 * Value(s[1..])
  }

  /** Adding one more byte adds its group at the next weight. */
  lemma {:induction false} ValueSnoc(s: seq<Byte>, b: Byte)
    ensures Value(s + [b]) == Value(s) + Group(b) * Pow128(|s|)
  {
    if s == [] {
      assert (s + [b])[1..] == [];
    } else {
      assert (s + [b])[1..] == s[1..] + [b];
      ValueSnoc(s[1..], b);
      ShiftGroup(Group(s[0]), Value(s[1..]), Group(b), Pow128(|s| - 1));
    }
  }

  /** The arithmetic step of ValueSnoc, kept apart from the byte masks. */
  lemma ShiftGroup(h: nat, v: nat, g: nat, p: nat)
    ensures h + 128 * (v + g * p) == (h + 128 * v) + g * (128 * p)
  {
  }

  /** A byte below 0x80 is a complete VarInt of one byte, worth itself. */
  lemma SingleByte(b: Byte, rest: seq<Byte>)
    requires b < 0x80
    ensures Size([b] + rest) == Some(1)
    ensures Value([b]) == b
  {
    assert ([b] + rest)[0] == b;
  }

  /** Where the VarInt ends depends only on the continuation flags. */
  lemma {:induction false} SizeOnlyReadsFlags(s: seq<Byte>, t: seq<Byte>)
    requires |s| == |t|
    requires forall k | 0 <= k < |s| :: Continues(s[k]) == Continues(t[k])
    ensures Size(s) == Size(t)
  {
    if s != [] && Continues(s[0]) {
      SizeOnlyReadsFlags(s[1..], t[1..]);
    }
  }

  /** The shortest encoding of `v`, as the request bytes are written. */
  function Encode(v: nat): (r: seq<Byte>)
    ensures 1 <= |r|
  {
    if v < 128 then [v] else [v % 128 + 128] + Encode(v / 128)
  }

  /** Decoding an encoding, whatever follows it, gives back the value and the length. */
  lemma {:induction false} DecodeEncode(v: nat, rest: seq<Byte>)
    ensures Size(Encode(v) + rest) == Some(|Encode(v)|)
    ensures Value(Encode(v)) == v
  {
    var e := Encode(v);
    if v >= 128 {
      var q := v / 128;
      DecodeEncode(q, rest);
      assert (e + rest)[1..] == Encode(q) + rest;
      assert e[1..] == Encode(q);
      SplitGroup(v);
    }
  }

  /** The first byte of a long encoding carries `v % 128` and the flag. */
  lemma SplitGroup(v: nat)
    ensures Group(v % 128 + 128) == v % 128 && Continues(v % 128 + 128)
    ensures v % 128 + 128 * (v / 128) == v
  {
  }
}
