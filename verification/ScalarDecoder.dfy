/** The decoders of values that are not submessages. */
module ScalarDecoder {
  import opened Bits
  import opened Wire
  import opened Descriptor
  import opened Decoding
  import opened InputStream

  // ------------------------------------------------------------------ casts

  /** Conversion to a signed type of `modulus` values: two's complement wraps around. */
  function CastSigned(n: int, modulus: nat): int
    requires modulus > 0
  {
    var low := n % modulus;
    if low < modulus / 2 then low else low - modulus
  }

  /** The cast to the field's size loses nothing exactly when the number fits it. */
  lemma {:induction false} CastKeeps(n: int, modulus: nat)
    requires modulus == 0x100 || modulus == 0x1_0000 || modulus == TWO32
    ensures CastSigned(n, modulus) == n <==> -(modulus / 2) <= n < modulus / 2
    ensures n % modulus == n <==> 0 <= n < modulus
  {
    if modulus == 0x100 {
    } else if modulus == 0x1_0000 {
    } else {
    }
  }

  /** Whether a number survives the cast to a signed field of the given size. */
  method StoreSigned(value: int, dataSize: nat) returns (ok: bool)
    requires -TWO63 <= value < TWO63
    ensures ok <==> InSigned(value, dataSize)
  {
    var clamped;
    if dataSize == 8 { clamped := value; }
    else if dataSize == 4 { CastKeeps(value, TWO32); clamped := CastSigned(value, TWO32); }
    else if dataSize == 2 { CastKeeps(value, 0x1_0000); clamped := CastSigned(value, 0x1_0000); }
    else if dataSize == 1 { CastKeeps(value, 0x100); clamped := CastSigned(value, 0x100); }
    else { return false; }
    ok := clamped == value;
  }

  method StoreUnsigned(value: uint64, dataSize: nat) returns (ok: bool)
    ensures ok <==> InUnsigned(value, dataSize)
  {
    var clamped;
    if dataSize == 8 { clamped := value; }
    else if dataSize == 4 { CastKeeps(value, TWO32); clamped := value % TWO32; }
    else if dataSize == 2 { CastKeeps(value, 0x1_0000); clamped := value % 0x1_0000; }
    else if dataSize == 1 { CastKeeps(value, 0x100); clamped := value % 0x100; }
    else { return false; }
    ok := clamped == value;
  }

  // -------------------------------------------------------- bytes to words

  lemma {:induction false} LittleEndianBound(s: seq<byte>)
    ensures FromLittleEndian(s) < Pow2(8 * |s|)
  {
    if s != [] {
      LittleEndianBound(s[1..]);
      Pow2Adds(8, 8 * |s[1..]|);
      assert Pow2(8) == 256;
    }
  }

  lemma {:induction false} LittleEndianAppends(s: seq<byte>, b: byte)
    ensures FromLittleEndian(s + [b]) == FromLittleEndian(s) + b * Pow2(8 * |s|)
  {
    if s == [] {
      assert s + [b] == [b];
      assert [b][1..] == [];
    } else {
      assert (s + [b])[1..] == s[1..] + [b];
      LittleEndianAppends(s[1..], b);
      Pow2Adds(8, 8 * |s[1..]|);
      assert Pow2(8) == 256;
      assert 256 * (b * Pow2(8 * |s[1..]|)) == b * (256 * Pow2(8 * |s[1..]|));
    }
  }

  /** `word | b << 8 * k` */
  function OrByte(word: nat, b: byte, k: nat): nat { BitOr(word, b * Pow2(8 * k)) }

  /** Or-ing in byte k, shifted to its place, above the k bytes below it. */
  lemma {:induction false} OrByteAdds(s: seq<byte>, k: nat)
    requires k < |s|
    ensures OrByte(FromLittleEndian(s[..k]), s[k], k) == FromLittleEndian(s[..k + 1])
  {
    LittleEndianBound(s[..k]);
    LittleEndianAppends(s[..k], s[k]);
    assert s[..k] + [s[k]] == s[..k + 1];
    OrIsAddition(FromLittleEndian(s[..k]), s[k], 8 * k);
  }

  lemma {:induction false} FirstByte(s: seq<byte>)
    requires |s| > 0
    ensures FromLittleEndian(s[..1]) == s[0]
  {
    assert s[..1][1..] == [];
  }

  lemma {:induction false} Assembled32(b: seq<byte>)
    requires |b| >= 4
    ensures OrByte(OrByte(OrByte(b[0], b[1], 1), b[2], 2), b[3], 3) == FromLittleEndian(b[..4])
  {
    FirstByte(b);
    OrByteAdds(b, 1);
    OrByteAdds(b, 2);
    OrByteAdds(b, 3);
  }

  lemma {:induction false} Assembled64(b: seq<byte>, low: nat)
    requires |b| == 8 && low == FromLittleEndian(b[..4])
    ensures OrByte(OrByte(OrByte(OrByte(low, b[4], 4), b[5], 5), b[6], 6), b[7], 7) == FromLittleEndian(b)
  {
    OrByteAdds(b, 4);
    OrByteAdds(b, 5);
    OrByteAdds(b, 6);
    OrByteAdds(b, 7);
    assert b[..8] == b;
  }

  method DecodeFixed32(stream: IStream) returns (ok: bool, value: nat)
    requires stream.Valid()
    modifies stream
    ensures stream.Valid() && stream.End() == old(stream.End())
    ensures var p := DecodeFixed(old(stream.Contents()), 4);
            ok == p.Ok? && (ok ==> Num(value) == p.value && stream.LeftWith(p.rest, old(stream.End())))
  {
    value := 0;
    var bytes := new byte[4];
    ok := stream.Read(bytes, 4);
    if !ok { return; }
    assert bytes[..] == bytes[..4];
    Assembled32(bytes[..]);
    value := OrByte(OrByte(OrByte(bytes[0], bytes[1], 1), bytes[2], 2), bytes[3], 3);
  }

  method DecodeFixed64(stream: IStream) returns (ok: bool, value: nat)
    requires stream.Valid()
    modifies stream
    ensures stream.Valid() && stream.End() == old(stream.End())
    ensures var p := DecodeFixed(old(stream.Contents()), 8);
            ok == p.Ok? && (ok ==> Num(value) == p.value && stream.LeftWith(p.rest, old(stream.End())))
  {
    value := 0;
    var bytes := new byte[8];
    ok := stream.Read(bytes, 8);
    if !ok { return; }
    assert bytes[..] == bytes[..8];
    Assembled32(bytes[..]);
    var low := OrByte(OrByte(OrByte(bytes[0], bytes[1], 1), bytes[2], 2), bytes[3], 3);
    Assembled64(bytes[..], low);
    value := OrByte(OrByte(OrByte(OrByte(low, bytes[4], 4), bytes[5], 5), bytes[6], 6), bytes[7], 7);
  }

  // --------------------------------------------------------------- integers

  method DecodeSvarint(stream: IStream) returns (ok: bool, dest: int)
    requires stream.Valid()
    modifies stream
    ensures stream.Valid() && stream.End() == old(stream.End())
    ensures var p := Wire.DecodeVarint(old(stream.Contents()));
            ok == p.Ok? && (ok ==> dest == Unzigzag(p.value) && stream.LeftWith(p.rest, old(stream.End())))
  {
    dest := 0;
    var value;
    ok, value := stream.DecodeVarint();
    if !ok { return; }
    // Casting the complement of a word below 2^63 to int64_t subtracts it from -1.
    if value % 2 == 1 { dest := ToSigned64(TWO64 - 1 - value / 2); } else { dest := ToSigned64(value / 2); }
  }

  method DecBool(stream: IStream) returns (ok: bool, v: Value)
    requires stream.Valid()
    modifies stream
    ensures stream.Valid() && stream.End() == old(stream.End())
    ensures var p := Wire.DecodeVarint32(old(stream.Contents()));
            && ok == p.Ok?
            && (ok ==> v == Num(if p.value != 0 then 1 else 0) && stream.LeftWith(p.rest, old(stream.End())))
  {
    v := Num(0);
    var value;
    ok, value := stream.DecodeVarint32();
    if !ok { return; }
    v := Num(if value != 0 then 1 else 0);
  }

  method DecVarint(stream: IStream, f: Field) returns (ok: bool, v: Value)
    requires stream.Valid() && f.ltype.Varint?
    modifies stream
    ensures stream.Valid() && stream.End() == old(stream.End())
    ensures var p := DecodeScalar(f, old(stream.Contents()));
            ok == p.Ok? && (ok ==> v == p.value && stream.LeftWith(p.rest, old(stream.End())))
  {
    v := Num(0);
    var value;
    ok, value := stream.DecodeVarint();
    if !ok { return; }
    var svalue := if f.dataSize == 8 then ToSigned64(value) else ToSigned32(value);
    ok := StoreSigned(svalue, f.dataSize);
    if !ok { return; }
    v := Num(svalue);
  }

  method DecUvarint(stream: IStream, f: Field) returns (ok: bool, v: Value)
    requires stream.Valid() && f.ltype.Uvarint?
    modifies stream
    ensures stream.Valid() && stream.End() == old(stream.End())
    ensures var p := DecodeScalar(f, old(stream.Contents()));
            ok == p.Ok? && (ok ==> v == p.value && stream.LeftWith(p.rest, old(stream.End())))
  {
    v := Num(0);
    var value;
    ok, value := stream.DecodeVarint();
    if !ok { return; }
    ok := StoreUnsigned(value, f.dataSize);
    if !ok { return; }
    v := Num(value);
  }

  method DecSvarint(stream: IStream, f: Field) returns (ok: bool, v: Value)
    requires stream.Valid() && f.ltype.Svarint?
    modifies stream
    ensures stream.Valid() && stream.End() == old(stream.End())
    ensures var p := DecodeScalar(f, old(stream.Contents()));
            ok == p.Ok? && (ok ==> v == p.value && stream.LeftWith(p.rest, old(stream.End())))
  {
    v := Num(0);
    var value;
    ok, value := DecodeSvarint(stream);
    if !ok { return; }
    ok := StoreSigned(value, f.dataSize);
    if !ok { return; }
    v := Num(value);
  }

  // ------------------------------------------------------- bytes and strings

  method DecBytes(stream: IStream, f: Field) returns (ok: bool, v: Value)
    requires stream.Valid() && f.ltype.Bytes?
    modifies stream
    ensures stream.Valid() && stream.End() == old(stream.End())
    ensures var p := DecodeScalar(f, old(stream.Contents()));
            ok == p.Ok? && (ok ==> v == p.value && stream.LeftWith(p.rest, old(stream.End())))
  {
    v := Blob([]);
    var size;
    ok, size := stream.DecodeVarint32();
    if !ok { return; }
    var allocSize: nat := size + BYTES_HEADER;
    if allocSize > f.dataSize { return false, v; }
    var dest := new byte[f.dataSize - BYTES_HEADER];
    ok := stream.Read(dest, size);
    v := Blob(dest[..size]);
  }

  function WithTerminator(size: uint32): uint32 { if size == TWO32 - 1 then 0 else size + 1 }

  method DecString(stream: IStream, f: Field) returns (ok: bool, v: Value)
    requires stream.Valid() && f.ltype.String?
    modifies stream
    ensures stream.Valid() && stream.End() == old(stream.End())
    ensures var p := DecodeScalar(f, old(stream.Contents()));
            ok == p.Ok? && (ok ==> v == p.value && stream.LeftWith(p.rest, old(stream.End())))
  {
    v := Blob([]);
    var size;
    ok, size := stream.DecodeVarint32();
    if !ok { return; }
    // A terminator is added, in 32 bits.
    var allocSize := WithTerminator(size);
    if allocSize < size { return false, v; }
    if allocSize > f.dataSize { return false, v; }
    var dest := new byte[f.dataSize];
    ok := ReadTerminated(stream, dest, size);
    v := Blob(dest[..size]);
  }

  method ReadTerminated(stream: IStream, dest: array<byte>, size: nat) returns (ok: bool)
    requires stream.Valid() && dest != stream.buf && size < dest.Length
    modifies stream, dest
    ensures stream.Valid() && stream.End() == old(stream.End()) && dest[size] == 0
    ensures var p := Take(old(stream.Contents()), size);
            ok == p.Ok? && (ok ==> dest[..size] == p.value && stream.LeftWith(p.rest, old(stream.End())))
  {
    ok := stream.Read(dest, size);
    ghost var text := dest[..size];
    dest[size] := 0;
    assert dest[..size] == text;
  }

  method DecFixedLengthBytes(stream: IStream, f: Field) returns (ok: bool, v: Value)
    requires stream.Valid() && f.ltype.FixedLengthBytes?
    modifies stream
    ensures stream.Valid() && stream.End() == old(stream.End())
    ensures var p := DecodeScalar(f, old(stream.Contents()));
            ok == p.Ok? && (ok ==> v == p.value && stream.LeftWith(p.rest, old(stream.End())))
  {
    v := Blob([]);
    var size;
    ok, size := stream.DecodeVarint32();
    if !ok { return; }
    if size == 0 { return true, Blob(seq(f.dataSize, _ => 0)); }
    if size != f.dataSize { return false, v; }
    var dest := new byte[f.dataSize];
    ok := stream.Read(dest, f.dataSize);
    v := Blob(dest[..size]);
  }

  /** The decoder of a value is chosen by the type of its field. */
  method DecScalar(stream: IStream, f: Field) returns (ok: bool, v: Value)
    requires stream.Valid() && !f.ltype.Submessage?
    modifies stream
    ensures stream.Valid() && stream.End() == old(stream.End())
    ensures var p := DecodeScalar(f, old(stream.Contents()));
            ok == p.Ok? && (ok ==> v == p.value && stream.LeftWith(p.rest, old(stream.End())))
  {
    match f.ltype
    case Bool => ok, v := DecBool(stream);
    case Varint => ok, v := DecVarint(stream, f);
    case Uvarint => ok, v := DecUvarint(stream, f);
    case Svarint => ok, v := DecSvarint(stream, f);
    case Fixed32 =>
      var value;
      ok, value := DecodeFixed32(stream);
      v := Num(value);
    case Fixed64 =>
      var value;
      ok, value := DecodeFixed64(stream);
      v := Num(value);
    case Bytes => ok, v := DecBytes(stream, f);
    case String => ok, v := DecString(stream, f);
    case FixedLengthBytes => ok, v := DecFixedLengthBytes(stream, f);
  }
}
