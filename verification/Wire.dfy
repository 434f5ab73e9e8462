/** The protocol buffers wire format as values: what each primitive looks like as
    bytes, and what a decoder must read back from the front of a byte sequence. */
module Wire {
  import opened Bits

  type byte = b: int | 0 <= b < 256

  const TWO31 := 0x8000_0000
  const TWO32 := 0x1_0000_0000
  const TWO63 := 0x8000_0000_0000_0000
  const TWO64 := 0x1_0000_0000_0000_0000

  type uint32 = n: int | 0 <= n < TWO32
  type uint64 = n: int | 0 <= n < TWO64

  /** What is read from the front of a stream, and what is left behind it. */
  datatype Parsed<+T> = Ok(value: T, rest: seq<byte>) | Fail

  const WT_VARINT := 0
  const WT_64BIT := 1
  const WT_STRING := 2
  const WT_32BIT := 5

  // ---------------------------------------------------------------- varints

  /** Base 128 varint: seven bits a byte, lowest group first, the high bit set on
      every byte but the last. */
  function VarintBytes(v: nat): (s: seq<byte>)
    ensures |s| > 0
  {
    if v < 128 then [v] else [128 + v % 128] + VarintBytes(v / 128)
  }

  /** Length of the varint at the front of s; 0 when s ends inside it. */
  function VarintLen(s: seq<byte>): (n: nat)
    ensures n <= |s|
    ensures n > 0 ==> s[n - 1] < 128 && forall i | 0 <= i < n - 1 :: s[i] >= 128
    ensures n == 0 ==> forall i | 0 <= i < |s| :: s[i] >= 128
  {
    if s == [] then 0
    else if s[0] < 128 then 1
    else
      var n := VarintLen(s[1..]);
      if n == 0 then 0 else n + 1
  }

  /** The number written by the seven-bit groups of s, lowest first. */
  function VarintValue(s: seq<byte>): nat {
    if s == [] then 0 else s[0] % 128 + 128 * VarintValue(s[1..])
  }

  /** A 64-bit varint: at most ten bytes, and bits above the 64th are dropped. */
  function DecodeVarint(s: seq<byte>): (p: Parsed<uint64>)
    ensures p.Ok? ==> |p.rest| < |s|
  {
    var n := VarintLen(s);
    if n == 0 || n > 10 then Fail else Ok(VarintValue(s[..n]) % TWO64, s[n..])
  }

  /** The bytes after the first of a 32-bit varint, of which `result` has been read.
      From bit 32 on only zero groups are accepted, or the sign extension of a
      negative number; `bitpos` is an 8-bit counter and wraps around. */
  function Varint32Tail(s: seq<byte>, bitpos: nat, result: uint32): (p: Parsed<uint32>)
    ensures p.Ok? ==> |p.rest| < |s|
  {
    if s == [] then Fail
    else
      var b := s[0];
      var signExtension := if bitpos < 63 then 0xFF else 0x01;
      if bitpos >= 32 && b % 128 != 0 && (result < TWO31 || b != signExtension) then Fail
      else
        var result' := if bitpos >= 32 then result else OrShifted32(result, b % 128, bitpos);
        var bitpos' := (bitpos + 7) % 256;
        if b >= 128 then Varint32Tail(s[1..], bitpos', result')
        else if bitpos' == 35 && b / 16 % 8 != 0 then Fail
        else Ok(result', s[1..])
  }

  /** `result | (uint32_t) group << bitpos` */
  function OrShifted32(result: uint32, group: nat, bitpos: nat): uint32 {
    var shifted := group * Pow2(bitpos) % TWO32;
    OrStays32(result, shifted);
    BitOr(result, shifted)
  }

  lemma {:induction false} OrStays32(a: uint32, b: uint32)
    ensures BitOr(a, b) < TWO32
  {
    Words();
    OrStaysBelow(a, b, 32);
  }

  function DecodeVarint32(s: seq<byte>): (p: Parsed<uint32>)
    ensures p.Ok? ==> |p.rest| < |s|
  {
    if s == [] then Fail
    else if s[0] < 128 then Ok(s[0], s[1..])
    else Varint32Tail(s[1..], 7, s[0] % 128)
  }

  // ------------------------------------------------- other scalars and framing

  /** Zigzag: 0, -1, 1, -2, ... become 0, 1, 2, 3, ... */
  function Zigzag(n: int): nat {
    if n < 0 then -2 * n - 1 else 2 * n
  }

  function Unzigzag(u: nat): int {
    if u % 2 == 1 then -(u / 2) - 1 else u / 2
  }

  function LittleEndian(v: nat, n: nat): (s: seq<byte>)
    ensures |s| == n
  {
    if n == 0 then [] else [v % 256] + LittleEndian(v / 256, n - 1)
  }

  function FromLittleEndian(s: seq<byte>): nat {
    if s == [] then 0 else s[0] + 256 * FromLittleEndian(s[1..])
  }

  /** Exactly n bytes. */
  function Take(s: seq<byte>, n: nat): Parsed<seq<byte>> {
    if |s| < n then Fail else Ok(s[..n], s[n..])
  }

  /** A length-delimited payload. */
  function Delimited(s: seq<byte>): (p: Parsed<seq<byte>>)
    ensures p.Ok? ==> |p.value| + |p.rest| < |s|
  {
    match DecodeVarint32(s)
    case Fail => Fail
    case Ok(n, rest) => Take(rest, n)
  }

  function TagBytes(wireType: nat, number: nat): seq<byte> {
    VarintBytes(number * 8 + wireType)
  }

  /** The payload of an unknown field is passed over according to its wire type. */
  function SkipField(wireType: nat, s: seq<byte>): Parsed<seq<byte>> {
    if wireType == WT_VARINT then
      var n := VarintLen(s);
      if n == 0 then Fail else Ok(s[..n], s[n..])
    else if wireType == WT_64BIT then Take(s, 8)
    else if wireType == WT_STRING then Delimited(s)
    else if wireType == WT_32BIT then Take(s, 4)
    else Fail
  }

  // ------------------------------------------------------- words and powers

  lemma {:induction false} Words()
    ensures Pow2(7) == 128 && Pow2(14) == 0x4000 && Pow2(21) == 0x20_0000 && Pow2(28) == 0x1000_0000
    ensures Pow2(31) == TWO31 && Pow2(32) == TWO32 && Pow2(63) == TWO63 && Pow2(64) == TWO64
    ensures Pow2(35) == 8 * TWO32
  {
    Pow2Adds(7, 7); Pow2Adds(14, 7); Pow2Adds(21, 7); Pow2Adds(28, 3); Pow2Adds(28, 7);
    Pow2Adds(31, 1); Pow2Adds(32, 31); Pow2Adds(32, 32);
  }

  // --------------------------------------------------- facts about reading

  lemma {:induction false} Varint32TailConsumes(s: seq<byte>, bitpos: nat, result: uint32)
    ensures var p := Varint32Tail(s, bitpos, result);
            p.Ok? ==> 0 < VarintLen(s) && p.rest == s[VarintLen(s)..]
    decreases |s|
  {
    var p := Varint32Tail(s, bitpos, result);
    if p.Ok? && s[0] >= 128 {
      var result' := if bitpos >= 32 then result else OrShifted32(result, s[0] % 128, bitpos);
      Varint32TailConsumes(s[1..], (bitpos + 7) % 256, result');
    }
  }

  /** A successful read of a 32-bit varint consumes exactly the bytes up to the first
      one without a continuation bit. */
  lemma {:induction false} Varint32Consumes(s: seq<byte>)
    ensures var p := DecodeVarint32(s);
            p.Ok? ==> 0 < VarintLen(s) && p.rest == s[VarintLen(s)..]
  {
    if s != [] && s[0] >= 128 { Varint32TailConsumes(s[1..], 7, s[0] % 128); }
  }

  lemma {:induction false} VarintLenExtends(s: seq<byte>, t: seq<byte>)
    requires VarintLen(s) > 0
    ensures VarintLen(s + t) == VarintLen(s)
  {
    assert (s + t)[0] == s[0];
    if s[0] >= 128 {
      assert (s + t)[1..] == s[1..] + t;
      VarintLenExtends(s[1..], t);
    }
  }

  lemma {:induction false} Varint32TailExtends(s: seq<byte>, t: seq<byte>, bitpos: nat, result: uint32)
    ensures var p := Varint32Tail(s, bitpos, result);
            p.Ok? ==> Varint32Tail(s + t, bitpos, result) == Ok(p.value, p.rest + t)
    decreases |s|
  {
    if s != [] {
      assert (s + t)[0] == s[0];
      assert (s + t)[1..] == s[1..] + t;
      if s[0] >= 128 {
        var result' := if bitpos >= 32 then result else OrShifted32(result, s[0] % 128, bitpos);
        Varint32TailExtends(s[1..], t, (bitpos + 7) % 256, result');
      }
    }
  }

  /** No reader looks beyond what it consumes: bytes appended to the stream stay
      unread behind it. */
  lemma {:induction false} ReadersExtend(s: seq<byte>, t: seq<byte>, n: nat)
    ensures DecodeVarint(s).Ok? ==> DecodeVarint(s + t) == Ok(DecodeVarint(s).value, DecodeVarint(s).rest + t)
    ensures DecodeVarint32(s).Ok? ==> DecodeVarint32(s + t) == Ok(DecodeVarint32(s).value, DecodeVarint32(s).rest + t)
    ensures Take(s, n).Ok? ==> Take(s + t, n) == Ok(Take(s, n).value, Take(s, n).rest + t)
  {
    if VarintLen(s) > 0 {
      VarintLenExtends(s, t);
      assert (s + t)[..VarintLen(s)] == s[..VarintLen(s)];
      assert (s + t)[VarintLen(s)..] == s[VarintLen(s)..] + t;
    }
    if s != [] {
      assert (s + t)[0] == s[0];
      assert (s + t)[1..] == s[1..] + t;
      if s[0] >= 128 { Varint32TailExtends(s[1..], t, 7, s[0] % 128); }
    }
    if n <= |s| {
      assert (s + t)[..n] == s[..n];
      assert (s + t)[n..] == s[n..] + t;
    }
  }

  lemma {:induction false} DelimitedExtends(s: seq<byte>, t: seq<byte>)
    requires Delimited(s).Ok?
    ensures Delimited(s + t) == Ok(Delimited(s).value, Delimited(s).rest + t)
  {
    ReadersExtend(s, t, 0);
    ReadersExtend(DecodeVarint32(s).rest, t, DecodeVarint32(s).value);
  }

  lemma {:induction false} SkipExtends(wireType: nat, s: seq<byte>, t: seq<byte>)
    requires SkipField(wireType, s).Ok?
    ensures SkipField(wireType, s + t) == Ok(SkipField(wireType, s).value, SkipField(wireType, s).rest + t)
  {
    if wireType == WT_VARINT {
      VarintLenExtends(s, t);
      var n := VarintLen(s);
      assert (s + t)[..n] == s[..n];
      assert (s + t)[n..] == s[n..] + t;
    } else if wireType == WT_STRING {
      DelimitedExtends(s, t);
    } else {
      ReadersExtend(s, t, if wireType == WT_64BIT then 8 else 4);
    }
  }

  // ------------------------------------------------------ varint round trips

  lemma {:induction false} VarintShape(v: nat, t: seq<byte>)
    ensures VarintLen(VarintBytes(v) + t) == |VarintBytes(v)|
    ensures VarintValue(VarintBytes(v)) == v
  {
    var s := VarintBytes(v) + t;
    assert s[0] == VarintBytes(v)[0];
    if v >= 128 {
      assert s[1..] == VarintBytes(v / 128) + t;
      VarintShape(v / 128, t);
      assert VarintBytes(v)[1..] == VarintBytes(v / 128);
      calc {
        VarintValue(VarintBytes(v));
        (128 + v % 128) % 128 + 128 * (v / 128);
        v;
      }
    }
  }

  lemma {:induction false} VarintLength(v: nat, n: nat)
    requires n > 0 && v < Pow2(7 * n)
    ensures |VarintBytes(v)| <= n
    decreases n
  {
    if v >= 128 {
      if n == 1 { Words(); assert false; }
      Pow2Adds(7, 7 * (n - 1));
      Words();
      assert v / 128 < Pow2(7 * (n - 1));
      VarintLength(v / 128, n - 1);
    }
  }

  /** The ten-byte buffer of the encoder is large enough for every 64-bit value. */
  lemma {:induction false} VarintFitsBuffer(v: uint64)
    ensures |VarintBytes(v)| <= 10
  {
    Words();
    Pow2Adds(64, 6);
    assert Pow2(7 * 10) == Pow2(64) * Pow2(6);
    assert v < Pow2(7 * 10);
    VarintLength(v, 10);
  }

  /** Decoding an encoded 64-bit value gives it back, consuming exactly its bytes
      whatever follows. */
  lemma {:induction false} VarintRoundTrip(v: uint64, t: seq<byte>)
    ensures DecodeVarint(VarintBytes(v) + t) == Ok(v, t)
  {
    var e := VarintBytes(v);
    assert |e| <= 10 by { VarintFitsBuffer(v); }
    VarintShape(v, t);
    var s := e + t;
    assert s[..|e|] == e && s[|e|..] == t;
  }

  /** No encoding is a proper prefix of another. */
  lemma {:induction false} VarintPrefixFree(a: nat, b: nat)
    requires VarintBytes(a) <= VarintBytes(b)
    ensures a == b
  {
    var t := VarintBytes(b)[|VarintBytes(a)|..];
    assert VarintBytes(b) == VarintBytes(a) + t;
    VarintShape(a, t);
    VarintShape(b, []);
    assert VarintBytes(b) + [] == VarintBytes(b);
    assert t == [];
    assert VarintBytes(a) == VarintBytes(b);
    VarintShape(a, []);
  }

  lemma {:induction false} ZigzagRoundTrip(n: int)
    requires -TWO63 <= n < TWO63
    ensures 0 <= Zigzag(n) < TWO64 && Unzigzag(Zigzag(n)) == n
  {}

  lemma {:induction false} LittleEndianRoundTrip(v: nat, n: nat)
    requires v < Pow2(8 * n)
    ensures FromLittleEndian(LittleEndian(v, n)) == v
  {
    if n != 0 {
      Pow2Adds(8, 8 * (n - 1));
      assert Pow2(8) == 256;
      LittleEndianRoundTrip(v / 256, n - 1);
      assert LittleEndian(v, n)[1..] == LittleEndian(v / 256, n - 1);
    }
  }

  lemma {:induction false} LittleEndianReads(v: nat, n: nat, t: seq<byte>)
    requires v < Pow2(8 * n)
    ensures Take(LittleEndian(v, n) + t, n) == Ok(LittleEndian(v, n), t)
    ensures FromLittleEndian(LittleEndian(v, n)) == v
  {
    LittleEndianRoundTrip(v, n);
    var s := LittleEndian(v, n);
    assert (s + t)[..n] == s && (s + t)[n..] == t;
  }
}
