/** Memory input streams, and the decoders of the wire format's primitives on them. */
module InputStream {
  import opened Bits
  import opened Wire

  class IStream {
    const buf: array<byte>
    /** The cursor: where in the buffer the next byte is. */
    var state: nat
    var bytesLeft: nat

    ghost predicate Valid()
      reads this
    {
      state + bytesLeft <= buf.Length
    }

    /** What is still to be read. */
    ghost function Contents(): (s: seq<byte>)
      requires Valid()
      reads this, buf
      ensures |s| == bytesLeft
    {
      buf[state..state + bytesLeft]
    }

    /** Where the stream ends; reading moves the cursor towards it. */
    ghost function End(): nat
      reads this
    {
      state + bytesLeft
    }

    /** Nothing but `rest` is left, and the stream still ends where it did. */
    ghost predicate LeftWith(rest: seq<byte>, end: nat)
      reads this, buf
    {
      Valid() && Contents() == rest && End() == end
    }

    /** What is left of the stream is the rest behind a payload that ends at `end`. */
    ghost predicate LeftBehind(end: nat, rest: seq<byte>, total: nat)
      reads this, buf
    {
      end + bytesLeft == total <= buf.Length && buf[end..total] == rest
    }

    constructor (buf: array<byte>, state: nat, bytesLeft: nat)
      requires state + bytesLeft <= buf.Length
      ensures this.buf == buf && this.state == state && this.bytesLeft == bytesLeft && Valid()
    {
      this.buf, this.state, this.bytesLeft := buf, state, bytesLeft;
    }

    /** Copies count bytes out of the buffer, or passes over them when dst is null. */
    method BufRead(dst: array?<byte>, count: nat)
      requires Valid() && count <= bytesLeft && dst != buf && (dst != null ==> count <= dst.Length)
      modifies this`state, dst
      ensures state == old(state) + count
      ensures dst != null ==> dst[..count] == old(buf[state..state + count]) && dst[count..] == old(dst[count..])
    {
      var source := state;
      state := state + count;
      if dst != null {
        for i := 0 to count
          invariant state == source + count
          invariant dst[..i] == buf[source..source + i]
          invariant dst[count..] == old(dst[count..])
          invariant buf[..] == old(buf[..])
        {
          dst[i] := buf[source + i];
        }
      }
    }

    method Read(dst: array?<byte>, count: nat) returns (ok: bool)
      requires Valid() && dst != buf && (dst != null ==> count <= dst.Length)
      modifies this, dst
      ensures Valid() && End() == old(End())
      ensures ok == Take(old(Contents()), count).Ok?
      ensures !ok ==> state == old(state) && (dst != null ==> dst[..] == old(dst[..]))
      ensures ok ==> Contents() == Take(old(Contents()), count).rest
      ensures ok && dst != null ==>
                dst[..count] == Take(old(Contents()), count).value && dst[count..] == old(dst[count..])
    {
      if count == 0 { return true; }
      if bytesLeft < count { return false; }
      Sliced(buf, state, count, state + bytesLeft);
      BufRead(dst, count);
      bytesLeft := bytesLeft - count;
      return true;
    }

    method ReadByte() returns (ok: bool, b: byte)
      requires Valid()
      modifies this
      ensures Valid() && End() == old(End())
      ensures ok == (old(Contents()) != [])
      ensures ok ==> b == old(Contents())[0] && Contents() == old(Contents())[1..]
      ensures !ok ==> state == old(state)
    {
      if bytesLeft == 0 { return false, 0; }
      b := buf[state];
      state := state + 1;
      bytesLeft := bytesLeft - 1;
      ok := true;
    }

    // ---------------------------------------------------------------- varints

    /** Reads a 32-bit varint; eof is set when there was not even a first byte. */
    method DecodeVarint32Eof() returns (ok: bool, dest: uint32, eof: bool)
      requires Valid()
      modifies this
      ensures Valid() && End() == old(End())
      ensures var p := Wire.DecodeVarint32(old(Contents()));
              ok == p.Ok? && (ok ==> dest == p.value && Contents() == p.rest)
      ensures eof == (old(Contents()) == [])
    {
      dest := 0;
      var b;
      ok, b := ReadByte();
      eof := !ok && bytesLeft == 0;
      if !ok { return; }
      var result: uint32 := b % 128;
      if b >= 128 {
        var bitpos := 7;
        ghost var p := Varint32Tail(Contents(), bitpos, result);
        while b >= 128
          invariant Valid() && End() == old(End())
          invariant 0 <= bitpos < 256
          invariant b >= 128 ==> p == Varint32Tail(Contents(), bitpos, result)
          invariant b < 128 ==> p == if bitpos == 35 && b / 16 % 8 != 0 then Fail else Ok(result, Contents())
          decreases b >= 128, bytesLeft
        {
          ok, b := ReadByte();
          if !ok { return; }
          if bitpos >= 32 {
            var signExtension := if bitpos < 63 then 0xFF else 0x01;
            if b % 128 != 0 && (result < TWO31 || b != signExtension) { ok := false; return; }
          } else {
            result := OrShifted32(result, b % 128, bitpos);
          }
          bitpos := (bitpos + 7) % 256;
        }
        if bitpos == 35 && b / 16 % 8 != 0 { ok := false; return; }
      }
      dest := result;
    }

    method DecodeVarint32() returns (ok: bool, dest: uint32)
      requires Valid()
      modifies this
      ensures Valid() && End() == old(End())
      ensures var p := Wire.DecodeVarint32(old(Contents()));
              ok == p.Ok? && (ok ==> dest == p.value && Contents() == p.rest)
    {
      var eof;
      ok, dest, eof := DecodeVarint32Eof();
    }

    method DecodeVarint() returns (ok: bool, dest: uint64)
      requires Valid()
      modifies this
      ensures Valid() && End() == old(End())
      ensures var p := Wire.DecodeVarint(old(Contents()));
              ok == p.Ok? && (ok ==> dest == p.value && Contents() == p.rest)
    {
      dest := 0;
      ghost var s := Contents();
      ghost var k := 0;
      var bitpos, result: uint64, b: byte := 0, 0, 128;
      while b >= 128
        invariant Valid() && End() == old(End())
        invariant k <= 10 && bitpos == 7 * k && k <= |s| && Contents() == s[k..]
        invariant forall i | 0 <= i < k - 1 :: s[i] >= 128
        invariant k == 0 ==> b >= 128
        invariant k > 0 ==> b == s[k - 1]
        invariant result == VarintValue(s[..k]) % TWO64
        decreases 10 - k
      {
        if bitpos >= 64 {
          LongerThan(s, k);
          return false, 0;
        }
        ok, b := ReadByte();
        if !ok {
          EndsInside(s);
          return;
        }
        Advanced(s, k);
        OrNextGroup(s[..k], b);
        result := OrShifted64(result, b % 128, bitpos);
        bitpos := bitpos + 7;
        k := k + 1;
      }
      EndsAt(s, k);
      return true, result;
    }

    method SkipVarint() returns (ok: bool)
      requires Valid()
      modifies this
      ensures Valid() && End() == old(End())
      ensures var p := Wire.SkipField(WT_VARINT, old(Contents()));
              ok == p.Ok? && (ok ==> Contents() == p.rest)
    {
      ghost var s := Contents();
      ghost var k := 0;
      var tmp := new byte[1];
      tmp[0] := 128;
      while tmp[0] >= 128
        invariant Valid() && End() == old(End()) && fresh(tmp) && tmp.Length == 1
        invariant k <= |s| && Contents() == s[k..] && buf[..] == old(buf[..])
        invariant forall i | 0 <= i < k - 1 :: s[i] >= 128
        invariant k == 0 ==> tmp[0] >= 128
        invariant k > 0 ==> tmp[0] == s[k - 1]
        decreases |s| - k, tmp[0] >= 128
      {
        ok := Read(tmp, 1);
        if !ok {
          EndsInside(s);
          return;
        }
        assert tmp[0] == tmp[..1][0];
        Advanced(s, k);
        k := k + 1;
      }
      EndsAt(s, k);
      return true;
    }

    // ---------------------------------------------------- strings and records

    method SkipString() returns (ok: bool)
      requires Valid()
      modifies this
      ensures Valid() && End() == old(End())
      ensures var p := Wire.SkipField(WT_STRING, old(Contents()));
              ok == p.Ok? && (ok ==> Contents() == p.rest)
    {
      var length;
      ok, length := DecodeVarint32();
      if !ok { return; }
      ok := Read(null, length);
    }

    method SkipField(wireType: nat) returns (ok: bool)
      requires Valid()
      modifies this
      ensures Valid() && End() == old(End())
      ensures var p := Wire.SkipField(wireType, old(Contents()));
              ok == p.Ok? && (ok ==> Contents() == p.rest)
    {
      if wireType == WT_VARINT { ok := SkipVarint(); }
      else if wireType == WT_64BIT { ok := Read(null, 8); }
      else if wireType == WT_STRING { ok := SkipString(); }
      else if wireType == WT_32BIT { ok := Read(null, 4); }
      else { ok := false; }
    }

    /** Reads a field key. At the end of the message ok is false and eof true: either the
        stream is used up or a zero key was read. */
    method DecodeTag() returns (ok: bool, wireType: nat, tag: nat, eof: bool)
      requires Valid()
      modifies this
      ensures Valid() && End() == old(End())
      ensures var p := Wire.DecodeVarint32(old(Contents()));
              && ok == (p.Ok? && p.value != 0)
              && (ok ==> tag == p.value / 8 && wireType == p.value % 8)
              && (p.Ok? ==> Contents() == p.rest && eof == (p.value == 0))
              && (p.Fail? ==> eof == (old(Contents()) == []))
    {
      wireType, tag := 0, 0;
      var temp;
      ok, temp, eof := DecodeVarint32Eof();
      if !ok { return; }
      if temp == 0 {
        eof, ok := true, false;
        return;
      }
      tag, wireType := temp / 8, temp % 8;
    }

    /** Sets apart a length-delimited payload as a stream of its own. The parent stays in
        front of it until the payload is closed. */
    method MakeStringSubstream() returns (ok: bool, sub: IStream)
      requires Valid()
      modifies this
      ensures Valid() && End() <= old(End()) && sub.Valid() && fresh(sub) && sub.buf == buf
      ensures var p := Delimited(old(Contents()));
              && ok == p.Ok?
              && (ok ==> sub.Contents() == p.value && LeftBehind(sub.End(), p.rest, old(End())))
    {
      var size;
      ok, size := DecodeVarint32();
      sub := new IStream(buf, state, bytesLeft);
      if !ok { return; }
      if sub.bytesLeft < size { ok := false; return; }
      Sliced(buf, state, size, state + bytesLeft);
      sub.bytesLeft := size;
      bytesLeft := bytesLeft - size;
    }

    /** Passes over what is left of the payload and moves the parent behind it, however
        much of it has been read. */
    method CloseStringSubstream(sub: IStream, ghost rest: seq<byte>, ghost total: nat) returns (ok: bool)
      requires sub != this && sub.Valid() && sub.buf == buf
      modifies this, sub
      ensures ok && state == old(sub.End()) && bytesLeft == old(bytesLeft)
      ensures sub.End() == old(sub.End())
      ensures old(LeftBehind(sub.End(), rest, total)) ==> LeftWith(rest, total)
    {
      if sub.bytesLeft > 0 {
        ok := sub.Read(null, sub.bytesLeft);
        if !ok { return false; }
      }
      state := sub.state;
      return true;
    }
  }

  // ------------------------------------------------- facts about varint groups

  lemma {:induction false} Sliced(a: array<byte>, lo: nat, n: nat, hi: nat)
    requires lo + n <= hi <= a.Length
    ensures a[lo..hi][..n] == a[lo..lo + n] && a[lo..hi][n..] == a[lo + n..hi]
  {}

  /** One more byte of s has been read. */
  lemma {:induction false} Advanced(s: seq<byte>, k: nat)
    requires k < |s|
    ensures s[k..][0] == s[k] && s[k..][1..] == s[k + 1..]
    ensures Take(s[k..], 1) == Ok([s[k]], s[k + 1..])
    ensures s[..k] + [s[k]] == s[..k + 1]
  {
    assert s[k..][..1] == [s[k]];
  }

  /** `result | (uint64_t) group << bitpos` */
  function OrShifted64(result: uint64, group: nat, bitpos: nat): uint64 {
    var shifted := group * Pow2(bitpos) % TWO64;
    OrStays64(result, shifted);
    BitOr(result, shifted)
  }

  lemma {:induction false} OrStays64(a: uint64, b: uint64)
    ensures BitOr(a, b) < TWO64
  {
    Words();
    OrStaysBelow(a, b, 64);
  }

  lemma {:induction false} ValueBound(p: seq<byte>)
    ensures VarintValue(p) < Pow2(7 * |p|)
  {
    if p != [] {
      ValueBound(p[1..]);
      Pow2Adds(7, 7 * |p[1..]|);
      assert Pow2(7) == 128;
    }
  }

  lemma {:induction false} ValueAppends(p: seq<byte>, b: byte)
    ensures VarintValue(p + [b]) == VarintValue(p) + b % 128 * Pow2(7 * |p|)
  {
    if p == [] {
      assert p + [b] == [b];
      assert [b][1..] == [];
    } else {
      assert (p + [b])[1..] == p[1..] + [b];
      ValueAppends(p[1..], b);
      Pow2Adds(7, 7 * |p[1..]|);
      assert Pow2(7) == 128;
      Scaled(b % 128, Pow2(7 * |p[1..]|));
    }
  }

  lemma {:induction false} Scaled(g: nat, p: nat)
    ensures 128 * (g * p) == g * (128 * p)
  {}

  /** Each byte is or-ed in above those read before, as far as it fits 64 bits. */
  lemma {:induction false} OrNextGroup(p: seq<byte>, b: byte)
    requires |p| <= 9
    ensures OrShifted64(VarintValue(p) % TWO64, b % 128, 7 * |p|) == VarintValue(p + [b]) % TWO64
  {
    var k, v, g := |p|, VarintValue(p), b % 128;
    ValueBound(p);
    ValueAppends(p, b);
    var low := if k == 9 then g % 2 else g;
    FitsBelow(k, v, g, low);
    OrIsAddition(v, low, 7 * k);
  }

  lemma {:induction false} FitsBelow(k: nat, v: nat, g: nat, low: nat)
    requires k <= 9 && g < 128 && v < Pow2(7 * k) && low == if k == 9 then g % 2 else g
    ensures v % TWO64 == v && g * Pow2(7 * k) % TWO64 == low * Pow2(7 * k)
    ensures (v + g * Pow2(7 * k)) % TWO64 == v + low * Pow2(7 * k)
  {
    var unit := Pow2(7 * k);
    if k == 9 {
      assert unit == TWO63 by { Words(); }
      TopBit(v, g);
    } else {
      assert 128 * unit <= TWO63 by {
        Words();
        Pow2Adds(7 * k, 7);
        Pow2Adds(7 * k + 7, 56 - 7 * k);
        AtLeast(Pow2(7 * k + 7), Pow2(56 - 7 * k));
      }
      GroupFits(v, g, unit);
    }
  }

  lemma {:induction false} AtLeast(a: nat, b: nat)
    requires b >= 1
    ensures a <= a * b
  {}

  lemma {:induction false} TopBit(v: nat, g: nat)
    requires v < TWO63
    ensures v % TWO64 == v && g * TWO63 % TWO64 == g % 2 * TWO63
    ensures (v + g * TWO63) % TWO64 == v + g % 2 * TWO63
  {
    Remainder64(v, v, 0);
    Remainder64(g * TWO63, g % 2 * TWO63, g / 2);
    Remainder64(v + g * TWO63, v + g % 2 * TWO63, g / 2);
  }

  lemma {:induction false} AtMost(g: nat, h: nat, unit: nat)
    requires g <= h
    ensures 0 <= g * unit <= h * unit
  {
    assert h * unit == g * unit + (h - g) * unit;
  }

  lemma {:induction false} GroupFits(v: nat, g: nat, unit: nat)
    requires v < unit && g < 128 && 128 * unit <= TWO63
    ensures v % TWO64 == v && g * unit % TWO64 == g * unit && (v + g * unit) % TWO64 == v + g * unit
  {
    AtMost(g, 127, unit);
    Remainder64(v, v, 0);
    Remainder64(g * unit, g * unit, 0);
    Remainder64(v + g * unit, v + g * unit, 0);
  }

  lemma {:induction false} Remainder64(total: nat, low: nat, high: nat)
    requires total == low + high * TWO64 && low < TWO64
    ensures total % TWO64 == low
  {}

  lemma {:induction false} EndsAt(s: seq<byte>, k: nat)
    requires 0 < k <= |s| && s[k - 1] < 128 && forall i | 0 <= i < k - 1 :: s[i] >= 128
    ensures VarintLen(s) == k
  {}

  lemma {:induction false} EndsInside(s: seq<byte>)
    requires forall i | 0 <= i < |s| :: s[i] >= 128
    ensures VarintLen(s) == 0
  {}

  lemma {:induction false} LongerThan(s: seq<byte>, k: nat)
    requires k <= |s| && forall i | 0 <= i < k :: s[i] >= 128
    ensures VarintLen(s) == 0 || VarintLen(s) > k
  {}
}
