/** The 32-bit varint decoder against the 64-bit one and against the encoder. */
module Varint32 {
  import opened Bits
  import opened Wire

  /** The weight of the k-th seven-bit group, for the groups that reach 32 bits. */
  function Unit(k: nat): nat
    requires 1 <= k <= 5
  {
    if k == 1 then 0x80
    else if k == 2 then 0x4000
    else if k == 3 then 0x20_0000
    else if k == 4 then 0x1000_0000
    else 8 * TWO32
  }

  lemma {:induction false} Remainder(total: nat, low: nat, high: nat)
    requires total == low + high * TWO32 && low < TWO32
    ensures total % TWO32 == low
  {}

  lemma {:induction false} OrBelow(result: nat, group: nat, bitpos: nat, unit: nat, low: nat, high: nat)
    requires Pow2(bitpos) == unit && result < unit && result < TWO32
    requires low * unit < TWO32 && group * unit == low * unit + high * TWO32
    ensures OrShifted32(result, group, bitpos) == result + low * unit
  {
    Remainder(group * unit, low * unit, high);
    OrIsAddition(result, low, bitpos);
  }

  /** Or-ing the k-th seven-bit group of a number into the groups below it, in 32 bits. */
  lemma {:induction false} OrGroup(result: uint32, group: nat, k: nat)
    requires 1 <= k <= 4 && group < 128 && result < Unit(k)
    ensures OrShifted32(result, group, 7 * k)
         == if k == 4 then result + group % 16 * 0x1000_0000 else result + group * Unit(k)
  {
    if k == 1 {
      assert Pow2(7) == 0x80;
      OrBelow(result, group, 7, 0x80, group, 0);
    } else if k == 2 {
      assert Pow2(14) == 0x4000 by { Words(); }
      OrBelow(result, group, 14, 0x4000, group, 0);
    } else if k == 3 {
      assert Pow2(21) == 0x20_0000 by { Words(); }
      OrBelow(result, group, 21, 0x20_0000, group, 0);
    } else {
      assert Pow2(28) == 0x1000_0000 by { Words(); }
      OrBelow(result, group, 28, 0x1000_0000, group % 16, group / 16);
    }
  }

  /** One byte of the tail that still reaches the 32 bits. */
  lemma {:induction false} Step(s: seq<byte>, k: nat, result: uint32)
    requires s != [] && 1 <= k <= 4 && result < Unit(k)
    ensures var g := s[0] % 128;
            var result' := result + (if k == 4 then g % 16 else g) * Unit(k);
            && result' < Unit(k + 1)
            && result' < TWO32
            && Varint32Tail(s, 7 * k, result)
               == if s[0] >= 128 then Varint32Tail(s[1..], 7 * (k + 1), result')
                  else if k == 4 && g >= 16 then Fail
                  else Ok(result', s[1..])
  {
    OrGroup(result, s[0] % 128, k);
    TopBits(s[0]);
    assert (7 * k + 7) % 256 == 7 * (k + 1);
  }

  lemma {:induction false} TopBits(b: byte)
    ensures b < 128 ==> b % 128 == b && (b / 16 % 8 != 0 <==> b >= 16)
  {}

  lemma {:induction false} NextGroup(value: nat, k: nat, group: nat, above: nat)
    requires 1 <= k < 4 && value == group + 128 * above
    ensures value * Unit(k) == group * Unit(k) + above * Unit(k + 1)
  {}

  /** Of the fifth group only the low four bits fit 32, and nothing above it does. */
  lemma {:induction false} LastGroup(result: nat, value: nat, group: nat, above: nat)
    requires result < 0x1000_0000 && value == group + 128 * above
    ensures (result + value * 0x1000_0000) % TWO32 == result + group % 16 * 0x1000_0000
  {
    Remainder(result + value * 0x1000_0000, result + group % 16 * 0x1000_0000, group / 16 + 8 * above);
  }

  lemma {:induction false} Small(k: nat, result: nat, group: nat)
    requires 1 <= k <= 4 && result < Unit(k) && group < 128
    ensures k < 4 ==> (result + group * Unit(k)) % TWO32 == result + group * Unit(k)
  {}

  /** From the 35th bit on the number read so far no longer changes. */
  lemma {:induction false} HighGroupsVanish(s: seq<byte>, k: nat, result: uint32)
    requires 5 <= k && k + VarintLen(s) <= 10 && Varint32Tail(s, 7 * k, result).Ok?
    ensures Varint32Tail(s, 7 * k, result).value == result
    decreases |s|
  {
    if s[0] >= 128 {
      Varint32TailConsumes(s, 7 * k, result);
      HighGroupsVanish(s[1..], k + 1, result);
    }
  }

  /** From the fifth byte on. */
  lemma {:induction false} LastGroupAgrees(s: seq<byte>, result: uint32)
    requires 4 + VarintLen(s) <= 10 && result < Unit(4) && Varint32Tail(s, 28, result).Ok?
    ensures Varint32Tail(s, 28, result).value == (result + VarintValue(s[..VarintLen(s)]) * Unit(4)) % TWO32
  {
    var n, g := VarintLen(s), s[0] % 128;
    Varint32TailConsumes(s, 28, result);
    assert s[..n][0] == s[0];
    Step(s, 4, result);
    LastGroup(result, VarintValue(s[..n]), g, VarintValue(s[..n][1..]));
    if s[0] >= 128 {
      assert s[1..][..n - 1] == s[..n][1..];
      HighGroupsVanish(s[1..], 5, result + g % 16 * Unit(4));
    }
  }

  /** The number a 32-bit decoder finds is that of the groups read, modulo 2^32, as long
      as these are no more than the ten a 64-bit decoder accepts. */
  lemma {:induction false} TailAgrees(s: seq<byte>, k: nat, result: uint32)
    requires 1 <= k <= 4 && k + VarintLen(s) <= 10 && result < Unit(k)
    requires Varint32Tail(s, 7 * k, result).Ok?
    ensures Varint32Tail(s, 7 * k, result).value
         == (result + VarintValue(s[..VarintLen(s)]) * Unit(k)) % TWO32
    decreases |s|
  {
    if k == 4 {
      LastGroupAgrees(s, result);
    } else {
      var n, g := VarintLen(s), s[0] % 128;
      Varint32TailConsumes(s, 7 * k, result);
      assert s[..n][0] == s[0];
      var above := VarintValue(s[..n][1..]);
      var unit := Unit(k);
      Step(s, k, result);
      NextGroup(VarintValue(s[..n]), k, g, above);
      if s[0] >= 128 {
        assert s[1..][..n - 1] == s[..n][1..];
        TailAgrees(s[1..], k + 1, result + g * unit);
      } else {
        assert s[..n][1..] == [] && above == 0;
        Small(k, result, g);
      }
    }
  }

  lemma {:induction false} LowWord(value: nat)
    ensures value % TWO64 % TWO32 == value % TWO32
  {
    Remainder(value, value % TWO64 % TWO32, value % TWO64 / TWO32 + value / TWO64 * TWO32);
  }

  /** The first group, and the tail above it. */
  lemma {:induction false} LongAgrees(s: seq<byte>)
    requires s != [] && s[0] >= 128 && VarintLen(s) <= 10 && DecodeVarint32(s).Ok?
    ensures DecodeVarint32(s).value == VarintValue(s[..VarintLen(s)]) % TWO32
  {
    var n := VarintLen(s);
    Varint32Consumes(s);
    var all := s[..n];
    assert all[0] == s[0] && s[1..][..n - 1] == all[1..];
    TailAgrees(s[1..], 1, s[0] % 128);
  }

  /** When both decoders accept an input they consume the same bytes and agree modulo
      2^32. */
  lemma {:induction false} DecodersAgree(s: seq<byte>)
    requires DecodeVarint(s).Ok? && DecodeVarint32(s).Ok?
    ensures DecodeVarint32(s).rest == DecodeVarint(s).rest
    ensures DecodeVarint32(s).value == DecodeVarint(s).value % TWO32
  {
    var n := VarintLen(s);
    Varint32Consumes(s);
    LowWord(VarintValue(s[..n]));
    if s[0] >= 128 {
      LongAgrees(s);
    } else {
      assert s[..n] == [s[0]];
      assert VarintValue([s[0]]) == s[0] % 128 + 128 * VarintValue([]);
    }
  }

  /** Whether w, the groups of a 64-bit number from the k-th on (k >= 5), is all zeros
      or all ones group by group and ends with the top bit of the 64. */
  predicate SignGroups(w: nat, k: nat)
    requires 5 <= k <= 9
    decreases 9 - k
  {
    if k == 9 then w == 1
    else w >= 128 && (w % 128 == 0 || w % 128 == 127) && SignGroups(w / 128, k + 1)
  }

  /** What the 32-bit decoder makes of the number whose low word is `low` and whose
      bits above it are `high`: it is accepted when nothing is above the low word, and
      taken for a negative number when bit 31 is set, bit 63 is set, and each group of
      bits 35-41, 42-48, 49-55 and 56-62 is all zeros or all ones. Bits 32-34 are not
      looked at. */
  predicate Accepted(low: uint32, high: nat) {
    high == 0 || (low >= TWO31 && SignGroups(high / 8, 5))
  }

  function Verdict(low: uint32, high: nat, t: seq<byte>): Parsed<uint32> {
    if Accepted(low, high) then Ok(low, t) else Fail
  }

  /** Above every group from the k-th on, in 64 bits. */
  function Above(k: nat): nat
    requires 5 <= k <= 9
  {
    if k == 5 then 0x2000_0000
    else if k == 6 then 0x40_0000
    else if k == 7 then 0x8000
    else if k == 8 then 0x100
    else 2
  }

  lemma {:induction false} HighTail(w: nat, k: nat, result: uint32, t: seq<byte>)
    requires 5 <= k <= 9 && 0 < w < Above(k)
    ensures Varint32Tail(VarintBytes(w) + t, 7 * k, result)
         == if result >= TWO31 && SignGroups(w, k) then Ok(result, t) else Fail
    decreases 9 - k
  {
    var s := VarintBytes(w) + t;
    assert s[0] == VarintBytes(w)[0];
    if w >= 128 {
      assert s[1..] == VarintBytes(w / 128) + t;
      HighTail(w / 128, k + 1, result, t);
    } else {
      assert s[1..] == t;
    }
  }

  lemma {:induction false} Digits(fit: nat, over: nat, above: nat)
    requires fit < 16 && over < 8
    ensures var g := fit + 16 * over;
            && g % 16 == fit && g % 128 == g && (128 + g) % 128 == g
            && (g + 128 * above) % 128 == g && (g + 128 * above) / 128 == above
  {}

  /** Four bits of the fifth group still fit the low word. */
  lemma {:induction false} FifthGroup(k: nat, fit: nat, over: nat, above: nat, result: uint32, t: seq<byte>)
    requires k == 4 && fit < 16 && over < 8 && 0 < fit + over + above && above < 0x2000_0000 && result < 0x1000_0000
    ensures Varint32Tail(VarintBytes(fit + 16 * over + 128 * above) + t, 7 * k, result)
         == Verdict(result + fit * 0x1000_0000, over + 8 * above, t)
  {
    var g := fit + 16 * over;
    var w := g + 128 * above;
    var s := VarintBytes(w) + t;
    var result' := result + fit * 0x1000_0000;
    Digits(fit, over, above);
    assert s[0] == VarintBytes(w)[0];
    Step(s, k, result);
    if above > 0 {
      assert s[1..] == VarintBytes(above) + t;
      HighTail(above, k + 1, result', t);
      HighVerdict(result', over, above, t);
    } else {
      assert s[1..] == t;
    }
  }

  lemma {:induction false} HighVerdict(low: uint32, bits: nat, above: nat, t: seq<byte>)
    requires bits < 8 && 0 < above
    ensures Verdict(low, bits + 8 * above, t) == if low >= TWO31 && SignGroups(above, 5) then Ok(low, t) else Fail
  {
    assert (bits + 8 * above) / 8 == above;
  }

  lemma {:induction false} FifthParts(w: nat)
    ensures var fit, over, above := w % 128 % 16, w % 128 / 16, w / 128;
            fit < 16 && over < 8 && w == fit + 16 * over + 128 * above
  {}

  /** The fifth group is the last one that the low word takes bits from. */
  lemma {:induction false} FifthTail(low: uint32, high: uint32, w: nat, result: uint32, t: seq<byte>)
    requires 0 < w && result < 0x1000_0000 && result + w * 0x1000_0000 == low + high * TWO32
    ensures Varint32Tail(VarintBytes(w) + t, 28, result) == Verdict(low, high, t)
  {
    var fit, over, above := w % 128 % 16, w % 128 / 16, w / 128;
    FifthParts(w);
    LastWord(low, high, fit, over, above, result);
    FifthGroup(4, fit, over, above, result, t);
  }

  lemma {:induction false} LowTail(low: uint32, high: uint32, w: nat, k: nat, result: uint32, t: seq<byte>)
    requires 1 <= k <= 4 && 0 < w && result < Unit(k)
    requires result + w * Unit(k) == low + high * TWO32
    ensures Varint32Tail(VarintBytes(w) + t, 7 * k, result) == Verdict(low, high, t)
    decreases 4 - k, 1
  {
    var g, above := w % 128, w / 128;
    if k == 4 {
      FifthTail(low, high, w, result, t);
    } else {
      NextGroup(w, k, g, above);
      MiddleGroup(low, high, k, g, above, result, t);
    }
  }

  lemma {:induction false} MiddleGroup(low: uint32, high: uint32, k: nat, g: nat, above: nat, result: uint32,
                                       t: seq<byte>)
    requires 1 <= k < 4 && g < 128 && 0 < g + above && result < Unit(k)
    requires result + g * Unit(k) + above * Unit(k + 1) == low + high * TWO32
    ensures Varint32Tail(VarintBytes(g + 128 * above) + t, 7 * k, result) == Verdict(low, high, t)
    decreases 4 - k, 0
  {
    var w := g + 128 * above;
    var s := VarintBytes(w) + t;
    assert w % 128 == g && w / 128 == above;
    assert s[0] == VarintBytes(w)[0] && s[0] % 128 == g;
    Step(s, k, result);
    var result' := result + g * Unit(k);
    if above > 0 {
      assert s[1..] == VarintBytes(above) + t;
      LowTail(low, high, above, k + 1, result', t);
    } else {
      assert s[1..] == t;
      assert result' < Unit(4) && high == 0;
    }
  }

  lemma {:induction false} LastWord(low: uint32, high: uint32, fit: nat, over: nat, above: nat, result: nat)
    requires fit < 16 && over < 8 && result < 0x1000_0000
    requires result + (fit + 16 * over + 128 * above) * 0x1000_0000 == low + high * TWO32
    ensures low == result + fit * 0x1000_0000 && high == over + 8 * above && above < 0x2000_0000
  {}

  lemma {:induction false} CanonicalWords(v: nat, low: uint32, high: uint32, t: seq<byte>)
    requires v == low + high * TWO32
    ensures DecodeVarint32(VarintBytes(v) + t) == Verdict(low, high, t)
  {
    var s := VarintBytes(v) + t;
    assert s[0] == VarintBytes(v)[0];
    if v < 128 {
      assert s[1..] == t;
      assert high == 0;
    } else {
      var w, g := v / 128, v % 128;
      assert s[1..] == VarintBytes(w) + t;
      assert s[0] % 128 == g;
      assert g + w * Unit(1) == v;
      LowTail(low, high, w, 1, g, t);
    }
  }

  /** The exact set of encoded 64-bit values the 32-bit decoder accepts, and what it
      makes of them. */
  lemma {:induction false} Canonical(v: uint64, t: seq<byte>)
    ensures DecodeVarint32(VarintBytes(v) + t)
         == if Accepted(v % TWO32, v / TWO32) then Ok(v % TWO32, t) else Fail
  {
    CanonicalWords(v, v % TWO32, v / TWO32, t);
  }

  /** Accepted: every value below 2^32, and every negative 32-bit number extended to 64
      bits. Rejected: every value from 2^32 up to 2^63. */
  lemma {:induction false} AcceptedRanges(v: uint64, t: seq<byte>)
    ensures v < TWO32 ==> DecodeVarint32(VarintBytes(v) + t) == Ok(v, t)
    ensures v >= TWO64 - TWO31 ==> DecodeVarint32(VarintBytes(v) + t) == Ok(v - (TWO64 - TWO32), t)
    ensures TWO32 <= v < TWO63 ==> DecodeVarint32(VarintBytes(v) + t).Fail?
  {
    Canonical(v, t);
    var low, high := v % TWO32, v / TWO32;
    assert v == low + high * TWO32;
    if v >= TWO64 - TWO31 {
      assert high == TWO32 - 1;
      assert high / 8 == 0x1FFF_FFFF;
      assert SignGroups(0x1FFF_FFFF / 0x1000_0000, 9);
    }
  }

  /** A number that is taken for a negative one although its upper word is not all ones. */
  const HALF_EXTENDED: uint64 := 0x8000_0000_8000_0000

  lemma {:induction false} AcceptsHalfExtended(t: seq<byte>)
    ensures TWO32 <= HALF_EXTENDED < TWO64 - TWO31
    ensures DecodeVarint32(VarintBytes(HALF_EXTENDED) + t) == Ok(0x8000_0000, t)
  {
    Canonical(HALF_EXTENDED, t);
    assert SignGroups(0x80, 8) && SignGroups(0x4000, 7) && SignGroups(0x20_0000, 6);
  }

  lemma {:induction false} Varint32RoundTrip(v: uint32, t: seq<byte>)
    ensures DecodeVarint32(VarintBytes(v) + t) == Ok(v, t)
  {
    AcceptedRanges(v, t);
  }
}
