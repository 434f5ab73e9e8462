/** Output streams, which write into a buffer or only count, and the encoders of the wire
    format's primitives on them. */
module OutputStream {
  import opened Bits
  import opened Wire
  import opened Wrappers
  import opened Descriptor
  import opened Encoding

  // ------------------------------------------------- what it means to emit bytes

  /** A stream at one moment: its cursor, its counters and the memory it writes to. */
  datatype Output = Output(sizing: bool, state: nat, maxSize: nat, written: nat, mem: seq<byte>) {
    predicate Valid() {
      !sizing ==> written <= maxSize < TWO64 && Limit() <= |mem|
    }

    /** Where the last byte it may write ends. */
    function Limit(): int { state + maxSize - written }
  }

  /** Between a and b the bytes e were to be emitted. A sizing stream counts them. Another
      stream succeeds exactly when they fit, and then holds them from its cursor on with
      all other memory as it was; otherwise at most the memory up to its limit has been
      written to. None stands for an error whatever the room. */
  predicate Emitted(a: Output, b: Output, ok: bool, e: Option<seq<byte>>)
    requires a.Valid()
  {
    && b.Valid() && b.sizing == a.sizing && b.maxSize == a.maxSize
    && ok == (e.Some? && (a.sizing || a.written + |e.value| <= a.maxSize))
    && (ok ==> b.written == a.written + |e.value|)
    && (if a.sizing then b.state == a.state && b.mem == a.mem
        else
          && |b.mem| == |a.mem| && b.Limit() == a.Limit() && a.state <= b.state
          && b.mem[..a.state] == a.mem[..a.state] && b.mem[a.Limit()..] == a.mem[a.Limit()..]
          && (ok ==> b.mem[a.state..b.state] == e.value && b.mem[b.state..] == a.mem[b.state..]))
  }

  lemma {:induction false} EmitsNothing(a: Output)
    requires a.Valid()
    ensures Emitted(a, a, true, Some([]))
  {}

  /** What is emitted behind x comes behind it. */
  lemma {:induction false} Composes(a: Output, b: Output, c: Output, x: seq<byte>, ok: bool, y: Option<seq<byte>>)
    requires a.Valid() && Emitted(a, b, true, Some(x)) && Emitted(b, c, ok, y)
    ensures Emitted(a, c, ok, Joined(Some(x), y))
  {
    if !a.sizing {
      SliceOfEqual(b.mem, c.mem, a.state, b.state);
      TailOfEqual(a.mem, b.mem, b.state, c.state);
      TailOfEqual(b.mem, c.mem, a.Limit(), a.Limit());
      if ok { SplitSlice(c.mem, a.state, b.state, c.state); }
    }
  }

  lemma {:induction false} SliceOfEqual(s: seq<byte>, t: seq<byte>, i: nat, j: nat)
    requires i <= j <= |s| == |t| && s[..j] == t[..j]
    ensures s[..i] == t[..i] && s[i..j] == t[i..j]
  {
    assert s[..i] == s[..j][..i];
    assert s[i..j] == s[..j][i..];
  }

  lemma {:induction false} TailOfEqual(s: seq<byte>, t: seq<byte>, i: nat, j: nat)
    requires i <= |s| == |t| && s[i..] == t[i..]
    ensures i <= j <= |s| ==> s[j..] == t[j..]
  {
    if i <= j <= |s| { assert s[j..] == s[i..][j - i..]; }
  }

  lemma {:induction false} SplitSlice(s: seq<byte>, i: nat, j: nat, k: nat)
    requires i <= j <= k <= |s|
    ensures s[i..j] + s[j..k] == s[i..k]
  {}

  /** What comes behind an error does not matter. */
  lemma {:induction false} FailsEarly(a: Output, b: Output, x: Option<seq<byte>>, y: Option<seq<byte>>)
    requires a.Valid() && Emitted(a, b, false, x)
    ensures Emitted(a, b, false, Joined(x, y))
  {}

  // ------------------------------------------------------------------ the stream

  class OStream {
    /** null makes a sizing stream. */
    const buf: array?<byte>
    var state: nat
    var maxSize: nat
    var bytesWritten: nat

    ghost function Now(): Output
      reads this, buf
    {
      Output(buf == null, state, maxSize, bytesWritten, if buf == null then [] else buf[..])
    }

    ghost predicate Valid()
      reads this, buf
    {
      Now().Valid()
    }

    constructor (buf: array<byte>, state: nat, maxSize: nat)
      requires state + maxSize <= buf.Length && maxSize < TWO64
      ensures Valid() && this.buf == buf && this.state == state && this.maxSize == maxSize && bytesWritten == 0
    {
      this.buf, this.state, this.maxSize, this.bytesWritten := buf, state, maxSize, 0;
    }

    constructor Sizing()
      ensures Valid() && buf == null && bytesWritten == 0
    {
      buf, state, maxSize, bytesWritten := null, 0, 0, 0;
    }

    method BufWrite(src: seq<byte>)
      requires buf != null && state + |src| <= buf.Length
      modifies this`state, buf
      ensures state == old(state) + |src|
      ensures buf[..] == old(buf[..state]) + src + old(buf[state + |src|..])
    {
      var dest := state;
      state := state + |src|;
      for i := 0 to |src|
        invariant state == dest + |src|
        invariant forall j | 0 <= j < buf.Length ::
                    buf[j] == if dest <= j < dest + i then src[j - dest] else old(buf[j])
      {
        buf[dest + i] := src[i];
      }
    }

    /** Writes count bytes; a sizing stream need not be given any. The sum of counters is that
        of 64-bit words. */
    method Write(src: Option<seq<byte>>, count: nat) returns (ok: bool)
      requires Valid() && count < TWO64
      requires src.Some? ==> |src.value| == count
      requires src.None? ==> buf == null
      modifies this, buf
      ensures Valid()
      ensures forall e: seq<byte> | src == Some(e) || (src.None? && |e| == count) ::
                Emitted(old(Now()), Now(), ok, Some(e))
    {
      if count > 0 && buf != null {
        var sum := (bytesWritten + count) % TWO64;
        RefusesOverflow(bytesWritten, count, maxSize);
        if sum < bytesWritten || sum > maxSize { return false; }
        Placed(buf[..], state, src.value);
        BufWrite(src.value);
      }
      bytesWritten := bytesWritten + count;
      return true;
    }

    // ---------------------------------------------------------------- varints

    method EncodeVarint(value: uint64) returns (ok: bool)
      requires Valid()
      modifies this, buf
      ensures Valid() && Emitted(old(Now()), Now(), ok, Some(VarintBytes(value)))
    {
      if value <= 0x7F {
        ok := Write(Some([value]), 1);
        return;
      }
      var buffer := new byte[10];
      var i := FillGroups(value, buffer);
      ok := Write(Some(buffer[..i]), i);
    }

    /** The encoder of negative numbers where pb_uint64_t has only 32 bits: the 32 ones of
        the sign extension are shifted in from above, as many at a time as there is room
        for. */
    method EncodeNegativeVarint(value: uint32) returns (ok: bool)
      requires Valid() && value >= TWO31
      modifies this, buf
      ensures Valid() && Emitted(old(Now()), Now(), ok, Some(VarintBytes(value + (TWO64 - TWO32))))
    {
      var buffer := new byte[10];
      var i := FillNegative(value, buffer);
      ok := Write(Some(buffer[..i]), i);
    }

    method EncodeSvarint(value: int) returns (ok: bool)
      requires Valid() && -TWO63 <= value < TWO63
      modifies this, buf
      ensures Valid() && Emitted(old(Now()), Now(), ok, Some(VarintBytes(Zigzag(value))))
    {
      var zigzagged: uint64;
      if value < 0 {
        zigzagged := TWO64 - 1 - (ToUnsigned64(value) * 2) % TWO64;
      } else {
        zigzagged := ToUnsigned64(value) * 2;
      }
      if value < 0 { Shifted(value); }
      ok := EncodeVarint(zigzagged);
    }

    // ------------------------------------------------------------- fixed words

    method EncodeFixed32(val: uint32) returns (ok: bool)
      requires Valid()
      modifies this, buf
      ensures Valid() && Emitted(old(Now()), Now(), ok, Some(LittleEndian(val, 4)))
    {
      var bytes := new byte[4];
      bytes[0] := val % 256;
      bytes[1] := val / 0x100 % 256;
      bytes[2] := val / 0x1_0000 % 256;
      bytes[3] := val / 0x100_0000 % 256;
      FourBytes(val, bytes[..]);
      ok := Write(Some(bytes[..]), 4);
    }

    method EncodeFixed64(val: uint64) returns (ok: bool)
      requires Valid()
      modifies this, buf
      ensures Valid() && Emitted(old(Now()), Now(), ok, Some(LittleEndian(val, 8)))
    {
      var bytes := new byte[8];
      bytes[0] := val % 256;
      bytes[1] := val / 0x100 % 256;
      bytes[2] := val / 0x1_0000 % 256;
      bytes[3] := val / 0x100_0000 % 256;
      bytes[4] := val / 0x1_0000_0000 % 256;
      bytes[5] := val / 0x100_0000_0000 % 256;
      bytes[6] := val / 0x1_0000_0000_0000 % 256;
      bytes[7] := val / 0x100_0000_0000_0000 % 256;
      EightBytes(val, bytes[..]);
      ok := Write(Some(bytes[..]), 8);
    }

    // ---------------------------------------------------------- keys and strings

    method EncodeTag(wireType: nat, fieldNumber: uint32) returns (ok: bool)
      requires Valid() && wireType < 8
      modifies this, buf
      ensures Valid() && Emitted(old(Now()), Now(), ok, Some(TagBytes(wireType, fieldNumber)))
    {
      OrIsAddition(wireType, fieldNumber, 3);
      assert Pow2(3) == 8;
      ok := EncodeVarint(BitOr(wireType, fieldNumber * 8));
    }

    method EncodeTagForField(f: Field) returns (ok: bool)
      requires Valid()
      modifies this, buf
      ensures Valid() && Emitted(old(Now()), Now(), ok, Some(FieldKey(f)))
    {
      var wireType;
      match f.ltype {
        case Bool | Varint | Uvarint | Svarint => wireType := WT_VARINT;
        case Fixed32 => wireType := WT_32BIT;
        case Fixed64 => wireType := WT_64BIT;
        case Bytes | String | Submessage(_) | FixedLengthBytes => wireType := WT_STRING;
      }
      ok := EncodeTag(wireType, f.tag);
    }

    method EncodeString(bytes: seq<byte>) returns (ok: bool)
      requires Valid() && |bytes| < TWO64
      modifies this, buf
      ensures Valid() && Emitted(old(Now()), Now(), ok, Prefixed(bytes))
    {
      ghost var start := Now();
      ok := EncodeVarint(|bytes|);
      ghost var middle := Now();
      if !ok {
        FailsEarly(start, middle, Some(VarintBytes(|bytes|)), Some(bytes));
        return;
      }
      ok := Write(Some(bytes), |bytes|);
      Composes(start, middle, Now(), VarintBytes(|bytes|), ok, Some(bytes));
    }
  }

  // ------------------------------------------------------- filling the buffer

  /** Seven bits a turn, each with a continuation bit; the last one is taken back. */
  method FillGroups(value: uint64, buffer: array<byte>) returns (i: nat)
    requires value > 0 && buffer.Length == 10
    modifies buffer
    ensures i <= 10 && buffer[..i] == VarintBytes(value)
  {
    var left: nat := value;
    i := 0;
    ghost var bytes := VarintBytes(value);
    VarintFitsBuffer(value);
    assert bytes == buffer[..0] + bytes;
    while left > 0
      invariant i <= 10
      invariant Filling(bytes, buffer[..i], left)
      decreases left
    {
      NextByte(bytes, buffer[..i], left);
      Put(buffer, i, left % 128 + 128);
      left := left / 128;
      i := i + 1;
    }
    Terminate(buffer, i);
  }

  /** The 32 ones of the sign extension come in from above, as many at a time as there is
      room for. */
  method FillNegative(value: uint32, buffer: array<byte>) returns (i: nat)
    requires value >= TWO31 && buffer.Length == 10
    modifies buffer
    ensures i <= 10 && buffer[..i] == VarintBytes(value + (TWO64 - TWO32))
  {
    var left: nat, compensation: nat := value, 32;
    i := 0;
    ghost var wide: nat := value + (TWO64 - TWO32);
    ghost var bytes := VarintBytes(wide);
    VarintFitsBuffer(wide);
    assert bytes == buffer[..0] + bytes;
    AllOnes(value);
    while left > 0
      invariant i <= 10
      invariant Extends(wide, left, compensation)
      invariant Filling(bytes, buffer[..i], wide)
      decreases wide
    {
      NextByte(bytes, buffer[..i], wide);
      left, compensation := NextGroup(wide, left, compensation, buffer, i);
      wide := wide / 128;
      i := i + 1;
    }
    Terminate(buffer, i);
  }

  /** The 32-bit word and the ones still to come in above it make up the wide one. */
  ghost predicate Extends(wide: nat, left: nat, compensation: nat) {
    && compensation in {32, 25, 18, 11, 4, 0}
    && left < TWO32 && (compensation > 0 ==> left >= 0x200_0000)
    && wide == left + TWO32 * Ones(compensation)
  }

  lemma {:induction false} AllOnes(value: nat)
    requires TWO31 <= value < TWO32
    ensures Extends(value + (TWO64 - TWO32), value, 32)
  {
    assert Ones(32) == TWO32 - 1 by { Words(); }
  }

  method NextGroup(ghost wide: nat, value: nat, compensation: nat, buffer: array<byte>, i: nat)
    returns (value': nat, compensation': nat)
    requires Extends(wide, value, compensation) && i < buffer.Length
    modifies buffer
    ensures buffer[..i + 1] == old(buffer[..i]) + [wide % 128 + 128]
    ensures Extends(wide / 128, value', compensation')
  {
    Compensated(wide, value, compensation);
    Put(buffer, i, value % 128 + 128);
    value', compensation' := value / 128, compensation;
    if compensation > 0 {
      var bits := if compensation > 7 then 7 else compensation;
      value' := SetIncoming(value', bits);
      compensation' := compensation - bits;
    }
  }

  /** `value ^= (0xFF >> (8 - bits)) << 25` */
  function SetIncoming(value: nat, bits: nat): nat
    requires bits <= 7
  {
    var incoming: nat := 0xFF / Pow2(8 - bits);
    BitXor(value, incoming * Pow2(25))
  }

  method Put(buffer: array<byte>, i: nat, b: byte)
    requires i < buffer.Length
    modifies buffer
    ensures buffer[..i + 1] == old(buffer[..i]) + [b]
  {
    buffer[i] := b;
  }

  /** `buffer[i - 1] &= 0x7F` */
  method Terminate(buffer: array<byte>, i: nat)
    requires 0 < i <= buffer.Length && buffer[i - 1] >= 128
    modifies buffer
    ensures buffer[..i] == old(buffer[..i - 1]) + [old(buffer[i - 1]) - 128]
  {
    buffer[i - 1] := buffer[i - 1] % 128;
  }

  // --------------------------------------------------------- facts about buffers

  /** The test of the wrapped sum refuses exactly what does not fit. */
  lemma {:induction false} RefusesOverflow(written: nat, count: nat, maxSize: nat)
    requires written <= maxSize < TWO64 && count < TWO64
    ensures var sum := (written + count) % TWO64;
            sum < written || sum > maxSize <==> written + count > maxSize
  {}

  /** Memory around freshly written bytes. */
  lemma {:induction false} Placed(mem: seq<byte>, at: nat, src: seq<byte>)
    requires at + |src| <= |mem|
    ensures var r := mem[..at] + src + mem[at + |src|..];
            && |r| == |mem| && r[..at] == mem[..at] && r[at..at + |src|] == src
            && forall i | at + |src| <= i <= |mem| :: r[i..] == mem[i..]
  {}

  /** The bytes of a varint with the continuation bit still set on the last one. */
  predicate Unterminated(groups: seq<byte>, s: seq<byte>) {
    groups != [] && groups[|groups| - 1] >= 128 && s == groups[..|groups| - 1] + [groups[|groups| - 1] - 128]
  }

  /** The groups of a varint so far, and what is left of the number. */
  predicate Filling(s: seq<byte>, groups: seq<byte>, left: nat) {
    if left > 0 then s == groups + VarintBytes(left) else Unterminated(groups, s)
  }

  lemma {:induction false} NextByte(s: seq<byte>, groups: seq<byte>, left: nat)
    requires left > 0 && Filling(s, groups, left)
    ensures |groups| < |s|
    ensures Filling(s, groups + [left % 128 + 128], left / 128)
  {
    if left < 128 {
      var next := groups + [left % 128 + 128];
      assert next[..|next| - 1] == groups;
    }
  }

  lemma {:induction false} Shifted(value: int)
    requires -TWO63 <= value < 0
    ensures (ToUnsigned64(value) * 2) % TWO64 == 2 * value + TWO64
  {
    assert ToUnsigned64(value) == value + TWO64;
  }

  /** `bits` ones. */
  function Ones(bits: nat): nat { Pow2(bits) - 1 }

  /** Shifting the word right by seven and setting the bits that come in from above. */
  lemma {:induction false} Compensated(wide: nat, left: nat, compensation: nat)
    requires Extends(wide, left, compensation)
    ensures left % 128 == wide % 128
    ensures compensation == 0 ==> Extends(wide / 128, left / 128, 0)
    ensures compensation > 0 ==>
              var bits := if compensation > 7 then 7 else compensation;
              Extends(wide / 128, SetIncoming(left / 128, bits), compensation - bits)
  {
    Words();
    if compensation == 0 {
      assert Ones(0) == 0;
    } else {
      var bits := if compensation > 7 then 7 else compensation;
      var ones := if bits == 7 then 127 else 15;
      assert Pow2(25) == 0x200_0000 by { Pow2Adds(21, 4); assert Pow2(4) == 16; }
      assert 0xFF / Pow2(8 - bits) == ones by { SevenOrFour(bits); }
      OnesSplit(compensation, bits, ones);
      ShiftedDown(wide, left, ones, Ones(compensation - bits));
      XorIsAddition(left / 128, ones, 25);
    }
  }

  lemma {:induction false} SevenOrFour(bits: nat)
    requires bits == 7 || bits == 4
    ensures 0xFF / Pow2(8 - bits) == if bits == 7 then 127 else 15
  {
    assert Pow2(1) == 2;
    assert Pow2(4) == 16;
  }

  lemma {:induction false} OnesSplit(compensation: nat, bits: nat, ones: nat)
    requires 0 < bits <= compensation && ones == Ones(bits)
    ensures Ones(compensation) == ones + (ones + 1) * Ones(compensation - bits)
  {
    Pow2Adds(bits, compensation - bits);
    AllButOne(Pow2(bits), Pow2(compensation - bits));
  }

  lemma {:induction false} AllButOne(a: nat, b: nat)
    requires a >= 1 && b >= 1
    ensures a * b - 1 == (a - 1) + a * (b - 1)
  {}

  lemma {:induction false} ShiftedDown(wide: nat, left: nat, ones: nat, others: nat)
    requires left < TWO32 && (ones == 127 || (ones == 15 && others == 0))
    requires wide == left + TWO32 * (ones + (ones + 1) * others)
    ensures wide / 128 == left / 128 + 0x200_0000 * ones + TWO32 * others
    ensures wide % 128 == left % 128
  {
    assert wide == left + 128 * (0x200_0000 * ones + 0x200_0000 * (ones + 1) * others);
  }

  lemma {:induction false} FourBytes(val: nat, s: seq<byte>)
    requires |s| == 4
    requires s[0] == val % 256 && s[1] == val / 0x100 % 256 && s[2] == val / 0x1_0000 % 256
          && s[3] == val / 0x100_0000 % 256
    ensures s == LittleEndian(val, 4)
  {
    var a := val / 0x100;
    var b := a / 0x100;
    var c := b / 0x100;
    assert b == val / 0x1_0000 && c == val / 0x100_0000;
    assert LittleEndian(c, 1) == [c % 256] + LittleEndian(c / 256, 0);
    assert LittleEndian(b, 2) == [b % 256] + LittleEndian(c, 1);
    assert LittleEndian(a, 3) == [a % 256] + LittleEndian(b, 2);
  }

  lemma {:induction false} EightBytes(val: nat, s: seq<byte>)
    requires |s| == 8
    requires s[0] == val % 256 && s[1] == val / 0x100 % 256 && s[2] == val / 0x1_0000 % 256
          && s[3] == val / 0x100_0000 % 256
    requires s[4] == val / 0x1_0000_0000 % 256 && s[5] == val / 0x100_0000_0000 % 256
    requires s[6] == val / 0x1_0000_0000_0000 % 256 && s[7] == val / 0x100_0000_0000_0000 % 256
    ensures s == LittleEndian(val, 8)
  {
    var high := val / 0x1_0000_0000;
    assert high / 0x100 == val / 0x100_0000_0000 && high / 0x1_0000 == val / 0x1_0000_0000_0000;
    assert high / 0x100_0000 == val / 0x100_0000_0000_0000;
    FourBytes(val, s[..4]);
    FourBytes(high, s[4..]);
    FourAndFour(val);
    assert s == s[..4] + s[4..];
  }

  lemma {:induction false} FourAndFour(val: nat)
    ensures LittleEndian(val, 8) == LittleEndian(val, 4) + LittleEndian(val / 0x1_0000_0000, 4)
  {
    var a := val / 0x100;
    var b := a / 0x100;
    var c := b / 0x100;
    var d := c / 0x100;
    assert d == val / 0x1_0000_0000;
    Longer(c, 0);
    Longer(b, 1);
    Longer(a, 2);
    Longer(val, 3);
  }

  lemma {:induction false} Longer(v: nat, n: nat)
    ensures LittleEndian(v, n + 1) == [v % 256] + LittleEndian(v / 256, n)
    ensures LittleEndian(v, n + 5) == [v % 256] + LittleEndian(v / 256, n + 4)
  {}
}
