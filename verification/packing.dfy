/** Bit packing, the loop at the end of `createCompressedFile`, and bit
    unpacking, `IterableBitArray`. Both put the first bit of each byte in its
    most significant position. Bytes are bv8; Java holds them as signed
    bytes and its iterator shifts the promoted int arithmetically, which
    leaves the same bit at position 0 for every shift from 0 to 7, so the
    unsigned reading below yields the same bits. */
module Packing {
  import opened Base

  /** The byte `1 << i`. */
  function Mask(i: nat): (m: Byte)
    requires i < 8
  {
    match i
    case 0 => 0x01
    case 1 => 0x02
    case 2 => 0x04
    case 3 => 0x08
    case 4 => 0x10
    case 5 => 0x20
    case 6 => 0x40
    case _ => 0x80
  }

  /** Bit i (0 = least significant) of x: `(x >> i & 1) == 1`. */
  function BitOf(x: Byte, i: nat): bool
    requires i < 8
  {
    x & Mask(i) != 0
  }

  /** The byte whose bits, most significant first, are `b` followed by
      zeros. */
  function ByteBits(b: Bits): Byte
    requires |b| <= 8
  {
    if b == [] then 0
    else
      var n := |b| - 1;
      ByteBits(b[..n]) | (if b[n] then Mask(7 - n) else 0)
  }

  lemma SetBit(x: Byte, p: nat, i: nat)
    requires p < 8 && i < 8
    ensures BitOf(x | Mask(p), i) == (BitOf(x, i) || i == p)
  {
  }

  lemma ZeroBits(i: nat)
    requires i < 8
    ensures !BitOf(0, i)
  {
  }

  /** Bit 7 - j of `ByteBits(b)` is b[j], and the positions after b are 0. */
  lemma {:induction false} ByteBitsSpec(b: Bits, j: nat)
    requires |b| <= 8 && j < 8
    ensures BitOf(ByteBits(b), 7 - j) == (j < |b| && b[j])
  {
    if b == [] {
      ZeroBits(7 - j);
    } else {
      var n := |b| - 1;
      ByteBitsSpec(b[..n], j);
      ByteBitsLast(b, 7 - j);
      if j < n {
        assert b[..n][j] == b[j];
      }
    }
  }

  /** Bit i of the byte of b is bit i of the byte of all but b's last
      bit, or that last bit when i is its position. */
  lemma ByteBitsLast(b: Bits, i: nat)
    requires 0 < |b| <= 8 && i < 8
    ensures BitOf(ByteBits(b), i) == (BitOf(ByteBits(b[..|b| - 1]), i) || (b[|b| - 1] && i == 8 - |b|))
  {
    var x := ByteBits(b[..|b| - 1]);
    if b[|b| - 1] {
      SetBit(x, 8 - |b|, i);
    } else {
      assert x | 0 == x;
    }
  }

  lemma ByteBitsSnoc(b: Bits, x: bool)
    requires |b| < 8
    ensures ByteBits(b + [x]) == ByteBits(b) | (if x then Mask(7 - |b|) else 0)
  {
    assert (b + [x])[..|b|] == b;
  }

  /** Bytes that hold, byte by byte, the bits most significant first, with
      zeros after the last bit. */
  predicate PacksBits(bits: Bits, out: seq<Byte>) {
    |out| == |bits| / 8 + 1 &&
    (forall j | 0 <= j < |bits| / 8 :: out[j] == ByteBits(bits[8 * j..8 * j + 8])) &&
    out[|bits| / 8] == ByteBits(bits[8 * (|bits| / 8)..])
  }

  /** Bit by bit, the bytes of `PacksBits` hold the bits and then zeros. */
  lemma PacksBitsSpec(bits: Bits, out: seq<Byte>, k: nat)
    requires PacksBits(bits, out) && k < 8 * |out|
    ensures BitOf(out[k / 8], 7 - k % 8) == (k < |bits| && bits[k])
  {
    var j, i, n := k / 8, k % 8, |bits| / 8;
    assert k == 8 * j + i && i < 8 && j <= n;
    if j < n {
      PackedWhole(bits, out, k, j, i);
    } else {
      PackedLast(bits, out, k, i);
    }
  }

  /** `PacksBitsSpec` for a bit in one of the whole bytes. */
  lemma PackedWhole(bits: Bits, out: seq<Byte>, k: nat, j: nat, i: nat)
    requires PacksBits(bits, out) && k < 8 * |out|
    requires k == 8 * j + i && i < 8 && j < |bits| / 8 && j == k / 8 && i == k % 8
    ensures BitOf(out[k / 8], 7 - k % 8) == (k < |bits| && bits[k])
  {
    var b := bits[8 * j..8 * j + 8];
    assert out[j] == ByteBits(b);
    ByteBitsSpec(b, i);
    assert k < |bits| && b[i] == bits[k];
  }

  /** `PacksBitsSpec` for a bit in the last byte, partial or zero. */
  lemma PackedLast(bits: Bits, out: seq<Byte>, k: nat, i: nat)
    requires PacksBits(bits, out) && k < 8 * |out|
    requires k == 8 * (|bits| / 8) + i && i < 8 && k / 8 == |bits| / 8 && i == k % 8
    ensures BitOf(out[k / 8], 7 - k % 8) == (k < |bits| && bits[k])
  {
    var n := |bits| / 8;
    var b := bits[8 * n..];
    ByteBitsSpec(b, i);
    assert i < |b| <==> k < |bits|;
    assert i < |b| ==> b[i] == bits[k];
  }

  /** The packing loop: each '1' sets bit `bitIndex - 1` of `data`, every
      eighth bit `put`s `data` into a `ByteBuffer` of `len / 8 + 1` zeroed
      bytes, and a last partial byte is `put` only when it is not zero. The
      whole backing array is written, so its length is always len / 8 + 1,
      with a zero byte at the end when len is a multiple of 8. The buffer
      never overflows: the partial byte is only put when len is not a
      multiple of 8. */
  method Pack(bits: Bits) returns (out: seq<Byte>)
    ensures PacksBits(bits, out)
  {
    var buffer := seq(|bits| / 8 + 1, _ => 0 as bv8);
    var pos: nat := 0;
    var data: Byte := 0;
    var bitIndex: nat := 8;
    var k: nat := 0;
    while k < |bits|
      invariant k <= |bits| && PackState(bits, k, pos, bitIndex, data, buffer)
    {
      pos, bitIndex, data, buffer := PackBit(bits, k, pos, bitIndex, data, buffer);
      k := k + 1;
    }
    SplitPosition(pos, 8 - bitIndex);
    if data != 0 {
      buffer := buffer[pos := data];
    }
    assert bits[8 * pos..k] == bits[8 * pos..];
    out := buffer;
  }

  /** The packing loop's state after k bits: `pos` whole bytes are in the
      buffer, the rest of which is still zero, and `data` holds the bits
      since, with `bitIndex` the number of its bits still free. */
  predicate PackState(bits: Bits, k: nat, pos: nat, bitIndex: nat, data: Byte, buffer: seq<Byte>) {
    k <= |bits| && |buffer| == |bits| / 8 + 1 &&
    1 <= bitIndex <= 8 && k == 8 * pos + (8 - bitIndex) && pos <= |bits| / 8 &&
    data == ByteBits(bits[8 * pos..k]) &&
    (forall j | 0 <= j < pos :: buffer[j] == ByteBits(bits[8 * j..8 * j + 8])) &&
    (forall j | pos <= j < |buffer| :: buffer[j] == 0)
  }

  /** One turn of the packing loop, for bit k. */
  method PackBit(bits: Bits, k: nat, pos: nat, bitIndex: nat, data: Byte, buffer: seq<Byte>)
    returns (pos': nat, bitIndex': nat, data': Byte, buffer': seq<Byte>)
    requires k < |bits| && PackState(bits, k, pos, bitIndex, data, buffer)
    ensures PackState(bits, k + 1, pos', bitIndex', data', buffer')
  {
    data' := data;
    if bits[k] {
      data' := data | Mask(bitIndex - 1);
    }
    DataStep(bits[8 * pos..k], bits[k], data, bitIndex);
    assert bits[8 * pos..k + 1] == bits[8 * pos..k] + [bits[k]];
    bitIndex' := bitIndex - 1;
    pos', buffer' := pos, buffer;
    if bitIndex' == 0 {
      DivBound(pos + 1, |bits|);
      buffer' := buffer[pos := data'];
      BufferStep(bits, buffer, pos, data', buffer');
      pos' := pos + 1;
      bitIndex' := 8;
      data' := 0;
    }
  }

  /** Setting bit `bitIndex - 1` for a '1' appends it to the partial byte. */
  lemma DataStep(done: Bits, x: bool, data: Byte, bitIndex: nat)
    requires 1 <= bitIndex <= 8 && |done| == 8 - bitIndex && data == ByteBits(done)
    ensures ByteBits(done + [x]) == if x then data | Mask(bitIndex - 1) else data
  {
    ByteBitsSnoc(done, x);
    if !x {
      assert data | 0 == data;
    }
  }

  /** Putting a full byte at `pos` extends the packed prefix by one. */
  lemma BufferStep(bits: Bits, buffer: seq<Byte>, pos: nat, data: Byte, buffer': seq<Byte>)
    requires 8 * pos + 8 <= |bits| && pos < |buffer| && buffer' == buffer[pos := data]
    requires data == ByteBits(bits[8 * pos..8 * pos + 8])
    requires forall j | 0 <= j < pos :: buffer[j] == ByteBits(bits[8 * j..8 * j + 8])
    requires forall j | pos <= j < |buffer| :: buffer[j] == 0
    ensures forall j | 0 <= j < pos + 1 :: buffer'[j] == ByteBits(bits[8 * j..8 * j + 8])
    ensures forall j | pos + 1 <= j < |buffer'| :: buffer'[j] == 0
  {
  }

  // ------------------------------------------------------------ unpacking

  /** The state of the anonymous iterator `IterableBitArray.iterator()`
      returns: the wrapped array and the two cursors. */
  datatype BitIterator = BitIterator(bytes: seq<Byte>, arrayIndex: nat, bitIndex: nat)

  /** Number of bits the iterator has yielded. */
  function Position(it: BitIterator): nat {
    8 * it.arrayIndex + it.bitIndex
  }

  /** The cursors a reachable iterator keeps: within the array, and at
      bit 0 once past its last byte. */
  predicate Valid(it: BitIterator) {
    it.bitIndex < 8 && (it.arrayIndex < |it.bytes| || (it.arrayIndex == |it.bytes| && it.bitIndex == 0))
  }

  /** `iterator()`: a fresh iterator at the first bit of the array. */
  function Iterator(bytes: seq<Byte>): (it: BitIterator)
    ensures Valid(it) && Position(it) == 0 && it.bytes == bytes
  {
    BitIterator(bytes, 0, 0)
  }

  /** Bit k of the array, counting from the most significant bit of its
      first byte. */
  function BitAt(bytes: seq<Byte>, k: nat): bool
    requires k < 8 * |bytes|
  {
    BitOf(bytes[k / 8], 7 - k % 8)
  }

  predicate HasNext(it: BitIterator) {
    it.arrayIndex < |it.bytes| && it.bitIndex < 8
  }

  /** `next()`: throws when no bit is left; otherwise yields bit
      7 - bitIndex of the current byte and moves one bit on, to the next
      byte after the eighth. The array is never changed. */
  function Next(it: BitIterator): (r: Result<(bool, BitIterator)>)
    requires Valid(it)
    ensures r.Thrown? <==> !HasNext(it)
    ensures r.Thrown? ==> r.error == NoSuchElement
    ensures r.Ok? ==> Valid(r.value.1) && r.value.1.bytes == it.bytes
    ensures r.Ok? ==> Position(r.value.1) == Position(it) + 1
    ensures r.Ok? ==> it.arrayIndex < |it.bytes| && r.value.0 == BitOf(it.bytes[it.arrayIndex], 7 - it.bitIndex)
  {
    if !HasNext(it) then Thrown(NoSuchElement)
    else
      var bit := BitOf(it.bytes[it.arrayIndex], 7 - it.bitIndex);
      var b := it.bitIndex + 1;
      if b == 8 then Ok((bit, BitIterator(it.bytes, it.arrayIndex + 1, 0)))
      else Ok((bit, BitIterator(it.bytes, it.arrayIndex, b)))
  }

  /** `remove()`: not supported. */
  function RemoveBit(it: BitIterator): (r: Result<()>)
    ensures r.Thrown? && r.error == UnsupportedOperation
  {
    Thrown(UnsupportedOperation)
  }

  /** The bits a for-each loop draws from the iterator until `hasNext` is
      false. */
  function Drain(it: BitIterator): Bits
    requires Valid(it)
    decreases |it.bytes| - it.arrayIndex, 8 - it.bitIndex
  {
    if !HasNext(it) then []
    else
      var (bit, it') := Next(it).value;
      [bit] + Drain(it')
  }

  /** An iterator at position P yields the 8 * |bytes| - P remaining
      bits. */
  lemma {:induction false} DrainLength(it: BitIterator)
    requires Valid(it)
    ensures |Drain(it)| == 8 * |it.bytes| - Position(it)
    decreases |it.bytes| - it.arrayIndex, 8 - it.bitIndex
  {
    if HasNext(it) {
      DrainLength(Next(it).value.1);
    }
  }

  /** The j-th bit an iterator at position P yields is bit k = P + j of the
      array: bit 7 - k % 8 of byte k / 8. */
  lemma {:induction false} DrainAt(it: BitIterator, j: nat, k: nat)
    requires Valid(it) && j < |Drain(it)| && k == Position(it) + j
    ensures k < 8 * |it.bytes|
    ensures Drain(it)[j] == BitAt(it.bytes, k)
    decreases |it.bytes| - it.arrayIndex, 8 - it.bitIndex
  {
    DrainLength(it);
    if j > 0 {
      var it' := DrainRest(it);
      DrainAt(it', j - 1, k);
      DrainLater(it, it', j, k);
    } else {
      DrainFirst(it, k);
    }
  }

  /** The first bit an iterator yields is the bit at its position. */
  lemma DrainFirst(it: BitIterator, k: nat)
    requires Valid(it) && 0 < |Drain(it)| && k == Position(it)
    ensures k < 8 * |it.bytes| && Drain(it)[0] == BitAt(it.bytes, k)
  {
    var bit, it' := DrainHead(it);
  }

  /** Bit j is bit j - 1 of what the moved iterator yields. */
  lemma DrainLater(it: BitIterator, it': BitIterator, j: nat, k: nat)
    requires Valid(it) && 0 < j < |Drain(it)| && Valid(it') && it'.bytes == it.bytes
    requires Drain(it)[1..] == Drain(it') && k < 8 * |it'.bytes| && Drain(it')[j - 1] == BitAt(it'.bytes, k)
    ensures k < 8 * |it.bytes| && Drain(it)[j] == BitAt(it.bytes, k)
  {
    assert Drain(it)[j] == Drain(it)[1..][j - 1];
  }

  /** After the first bit, an iterator yields what the moved iterator does. */
  lemma DrainRest(it: BitIterator) returns (it': BitIterator)
    requires Valid(it) && HasNext(it)
    ensures Valid(it') && it'.bytes == it.bytes && Position(it') == Position(it) + 1
    ensures |Drain(it)| > 0 && Drain(it)[1..] == Drain(it')
  {
    it' := Next(it).value.1;
  }

  /** A for-each loop's first bit, and the iterator it goes on with. */
  lemma DrainHead(it: BitIterator) returns (bit: bool, it': BitIterator)
    requires Valid(it) && HasNext(it)
    ensures Valid(it') && it'.bytes == it.bytes && Position(it') == Position(it) + 1
    ensures Position(it) < 8 * |it.bytes| && bit == BitAt(it.bytes, Position(it))
    ensures Drain(it) == [bit] + Drain(it')
  {
    bit, it' := Next(it).value.0, Next(it).value.1;
    NextAt(it);
  }

  /** The bit `next()` yields is the array's bit at the iterator's
      position: bit 7 - k % 8 of byte k / 8 for position k. */
  lemma NextAt(it: BitIterator)
    requires Valid(it) && HasNext(it)
    ensures Position(it) < 8 * |it.bytes| && Next(it).value.0 == BitAt(it.bytes, Position(it))
  {
    SplitPosition(it.arrayIndex, it.bitIndex);
  }

  lemma DivBound(m: nat, n: nat)
    requires 8 * m <= n
    ensures m <= n / 8
  {
  }

  /** Position 8 * a + b, for b < 8, is bit b of byte a. */
  lemma SplitPosition(a: nat, b: nat)
    requires b < 8
    ensures (8 * a + b) / 8 == a && (8 * a + b) % 8 == b
  {
  }

  /** Everything an `IterableBitArray` over `bytes` yields. */
  function Unpack(bytes: seq<Byte>): Bits {
    Drain(Iterator(bytes))
  }

  /** The iterator yields exactly 8 bits per byte, byte by byte, most
      significant bit first. */
  lemma UnpackSpec(bytes: seq<Byte>)
    ensures |Unpack(bytes)| == 8 * |bytes|
    ensures forall k | 0 <= k < 8 * |bytes| :: Unpack(bytes)[k] == BitOf(bytes[k / 8], 7 - k % 8)
  {
    DrainLength(Iterator(bytes));
    forall k | 0 <= k < 8 * |bytes|
      ensures Unpack(bytes)[k] == BitOf(bytes[k / 8], 7 - k % 8)
    {
      DrainAt(Iterator(bytes), k, k);
      assert Unpack(bytes)[k] == BitAt(bytes, k);
    }
  }

  /** Unpacking the packed bytes gives back the bits, followed by the zero
      padding up to the byte boundary (a whole zero byte when the length is
      a multiple of 8). */
  lemma PackUnpack(bits: Bits, out: seq<Byte>)
    requires PacksBits(bits, out)
    ensures Unpack(out) == bits + Zeros(8 * |out| - |bits|)
  {
    UnpackSpec(out);
    var z := Zeros(8 * |out| - |bits|);
    assert |Unpack(out)| == |bits + z|;
    forall k | 0 <= k < |Unpack(out)|
      ensures Unpack(out)[k] == (bits + z)[k]
    {
      PacksBitsSpec(bits, out, k);
    }
  }
}
