/**
 * `bitvec_to_string` and `string_to_bitvec`: a bit vector stored as bytes.
 * The first byte holds the number of bits in the last, partially filled
 * byte (0 when the length is a multiple of 8); bit i of the vector is bit
 * i mod 8 (counted from the least significant end) of data byte i / 8.
 */
module BitPack {
  import opened Wrappers
  import opened HuffmanTree

  /** The byte with only bit k set, `1 << k`. */
  function Mask(k: nat): bv8
    requires k < 8
  {
    match k
    case 0 => 0x01
    case 1 => 0x02
    case 2 => 0x04
    case 3 => 0x08
    case 4 => 0x10
    case 5 => 0x20
    case 6 => 0x40
    case _ => 0x80
  }

  /** Bit k of a byte, counted from the least significant end. */
  function Bit(b: bv8, k: nat): bool
    requires k < 8
  {
    b & Mask(k) != 0
  }

  /** The mask is the shift `bitvec_to_string` writes. */
  lemma ShiftIsMask(k: nat)
    requires k < 8
    ensures (1 as bv8) << k == Mask(k)
  {
  }

  /** Bit k is what `string_to_bitvec` reads as `(byte >> k) & 1`. */
  lemma ShiftReadsBit(b: bv8, k: nat)
    requires k < 8
    ensures ((b >> k) & 1 == 1) == Bit(b, k)
  {
  }

  /** The byte `bitvec_to_string` assembles from up to eight bits: bit k is bs[k], the rest 0. */
  function ByteOf(bs: seq<bool>): bv8
    requires |bs| <= 8
  {
    if bs == [] then 0
    else ByteOf(bs[..|bs| - 1]) | (if bs[|bs| - 1] then Mask(|bs| - 1) else 0)
  }

  /** Setting bit m of a byte changes bit m only. */
  lemma SetBit(x: bv8, m: nat, k: nat)
    requires m < 8 && k < 8
    ensures Bit(x | Mask(m), k) == (k == m || Bit(x, k))
  {
  }

  lemma ZeroBits(k: nat)
    requires k < 8
    ensures !Bit(0, k)
  {
  }

  /** The assembled byte holds bs[k] at bit k and 0 above the given bits. */
  lemma {:induction false} ByteOfBits(bs: seq<bool>, k: nat)
    requires |bs| <= 8 && k < 8
    ensures Bit(ByteOf(bs), k) == (k < |bs| && bs[k])
    decreases |bs|
  {
    if bs == [] {
      ZeroBits(k);
    } else {
      var n := |bs| - 1;
      ByteOfBits(bs[..n], k);
      if bs[n] {
        SetBit(ByteOf(bs[..n]), n, k);
      } else {
        assert ByteOf(bs) == ByteOf(bs[..n]);
      }
    }
  }

  /** The number of data bytes: one per eight bits, plus one for a partial byte. */
  function DataBytes(n: nat): nat
  {
    n / 8 + (if n % 8 != 0 then 1 else 0)
  }

  /** The bits that data byte j holds: bits 8j to 8j + 7, fewer in a last partial byte. */
  function Group(bits: Code, j: nat): (g: Code)
    ensures |g| <= 8
  {
    if 8 * j + 8 <= |bits| then bits[8 * j..8 * j + 8]
    else if 8 * j <= |bits| then bits[8 * j..]
    else []
  }

  /** The header byte for n hanging bits, `static_cast<char>(n)`. */
  function Header(n: nat): bv8
    requires n < 8
  {
    match n
    case 0 => 0
    case 1 => 1
    case 2 => 2
    case 3 => 3
    case 4 => 4
    case 5 => 5
    case 6 => 6
    case _ => 7
  }

  /** The header byte converts back to the count, and to a byte the count converts to the header. */
  lemma HeaderValue(n: nat)
    requires n < 8
    ensures Header(n) as nat == n && n as bv8 == Header(n)
  {
  }

  /** The header and the first m data bytes of the packed form. */
  function Packed(bits: Code, m: nat): (p: seq<bv8>)
    ensures |p| == 1 + m && p[0] == Header(|bits| % 8)
  {
    [Header(|bits| % 8)] + seq(m, j requires 0 <= j < m => ByteOf(Group(bits, j)))
  }

  /** Byte 1 + j of the packed form is the byte of group j. */
  lemma PackedData(bits: Code, m: nat, j: nat)
    requires j < m
    ensures Packed(bits, m)[1 + j] == ByteOf(Group(bits, j))
  {
  }

  /** The packed form: the count of hanging bits, then the data bytes. */
  function Pack(bits: Code): (packed: seq<bv8>)
    ensures |packed| == 1 + DataBytes(|bits|) && packed[0] as nat == |bits| % 8
  {
    HeaderValue(|bits| % 8);
    Packed(bits, DataBytes(|bits|))
  }

  /** The eight bits of every data byte, byte after byte, least significant first. */
  function ByteBits(bytes: seq<bv8>): Code
  {
    seq(8 * |bytes|, i requires 0 <= i < 8 * |bytes| => Bit(bytes[i / 8], i % 8))
  }

  /**
   * What `string_to_bitvec` returns. An empty string and a single non-zero
   * byte fail the source's assertions (None); a single zero byte is the
   * empty vector; otherwise every bit of the data bytes, less the 8 - n
   * padding bits of the last byte when the first byte n is not 0.
   */
  function Unpack(packed: seq<bv8>): Option<Code>
    requires |packed| >= 2 ==> packed[0] <= 8
  {
    if |packed| == 0 then None
    else if |packed| == 1 then (if packed[0] == 0 then Some([]) else None)
    else
      var all := ByteBits(packed[1..]);
      var n := packed[0] as nat;
      Some(if n != 0 then all[..|all| - (8 - n)] else all)
  }

  /** Bit i of the vector is bit i mod 8 of data byte i / 8; the bits past its end are 0. */
  lemma PackedBit(bits: Code, i: nat)
    requires i < 8 * DataBytes(|bits|)
    ensures Bit(Pack(bits)[1 + i / 8], i % 8) == (i < |bits| && bits[i])
  {
    var j, k := i / 8, i % 8;
    assert 8 * j + k == i;
    assert j < DataBytes(|bits|);
    PackedData(bits, DataBytes(|bits|), j);
    ByteOfBits(Group(bits, j), k);
  }

  /** Every bit of the packed form: the vector's bits, then zero padding. */
  lemma PackedBits(bits: Code)
    ensures ByteBits(Pack(bits)[1..]) == bits + seq(8 * DataBytes(|bits|) - |bits|, _ => false)
  {
    var packed := Pack(bits);
    var data := packed[1..];
    var all := ByteBits(data);
    var padded := bits + seq(8 * DataBytes(|bits|) - |bits|, _ => false);
    assert |all| == |padded|;
    forall i | 0 <= i < |all| ensures all[i] == padded[i] {
      DataBit(bits, data, i);
    }
  }

  /** Bit i of the data bytes of a packed vector is bit i of the vector, or padding. */
  lemma DataBit(bits: Code, data: seq<bv8>, i: nat)
    requires data == Pack(bits)[1..] && i < 8 * |data|
    ensures ByteBits(data)[i] == (i < |bits| && bits[i])
  {
    assert ByteBits(data)[i] == Bit(data[i / 8], i % 8);
    assert data[i / 8] == Pack(bits)[1 + i / 8];
    PackedBit(bits, i);
  }

  /** Unpacking the packed form of any vector gives the vector back. */
  lemma PackRoundTrip(bits: Code)
    ensures Unpack(Pack(bits)) == Some(bits)
  {
    var packed := Pack(bits);
    var n := |bits| % 8;
    DivMod8(|bits| / 8, n);
    if |packed| == 1 {
      assert |bits| == 0;
      HeaderValue(n);
    } else {
      PackedBits(bits);
      var all := ByteBits(packed[1..]);
      var pad := seq(8 * DataBytes(|bits|) - |bits|, _ => false);
      assert all == bits + pad;
      if n != 0 {
        assert |all| - (8 - n) == |bits|;
        assert all[..|bits|] == bits;
      } else {
        assert pad == [];
        assert all == bits;
      }
    }
  }

  /** The empty vector packs to the single byte 0. */
  lemma PackEmpty()
    ensures Pack([]) == [0]
  {
    HeaderValue(0);
  }

  /**
   * Unpacking fails exactly on the empty string and on a single non-zero
   * byte; otherwise the vector has eight bits per data byte, less the
   * padding of the last byte when the header is not 0.
   */
  lemma UnpackLength(packed: seq<bv8>)
    requires |packed| >= 2 ==> packed[0] <= 8
    ensures Unpack(packed).None? <==> |packed| == 0 || (|packed| == 1 && packed[0] != 0)
    ensures |packed| == 1 && packed[0] == 0 ==> Unpack(packed) == Some([])
    ensures |packed| >= 2 ==>
              |Unpack(packed).value| ==
              8 * (|packed| - 1) - (if packed[0] != 0 then 8 - packed[0] as nat else 0)
  {
  }

  /** Bit i of an unpacked vector is bit i mod 8 of data byte i / 8. */
  lemma UnpackBit(packed: seq<bv8>, i: nat)
    requires |packed| >= 2 && packed[0] <= 8
    requires i < 8 * (|packed| - 1) - (if packed[0] != 0 then 8 - packed[0] as nat else 0)
    ensures i < |Unpack(packed).value| && Unpack(packed).value[i] == Bit(packed[1 + i / 8], i % 8)
  {
    var data := packed[1..];
    var all := ByteBits(data);
    var n := packed[0] as nat;
    assert |all| == 8 * |data|;
    if n != 0 {
      assert Unpack(packed).value == all[..|all| - (8 - n)];
    } else {
      assert Unpack(packed).value == all;
    }
    DivMod8(i / 8, i % 8);
    assert all[i] == Bit(data[i / 8], i % 8);
    assert data[i / 8] == packed[1 + i / 8];
  }

  /** Arithmetic on offsets within a byte: the quotient and the remainder by 8. */
  lemma DivMod8(m: nat, r: nat)
    requires r < 8
    ensures (8 * m + r) / 8 == m && (8 * m + r) % 8 == r
  {
  }

  /** Adding bit i, at offset i - lo, to the byte of bits lo .. i - 1. */
  lemma ByteStep(bitvec: Code, lo: nat, i: nat)
    requires lo <= i < |bitvec| && i - lo < 8
    ensures ByteOf(bitvec[lo..i + 1]) ==
            ByteOf(bitvec[lo..i]) | (if bitvec[i] then Mask(i - lo) else 0)
  {
    var g := bitvec[lo..i + 1];
    assert g[..|g| - 1] == bitvec[lo..i];
  }

  /** A full or final group starting at 8m is data byte m. */
  lemma GroupAt(bitvec: Code, m: nat, hi: nat)
    requires 8 * m < hi <= |bitvec| && hi - 8 * m <= 8
    requires hi - 8 * m == 8 || hi == |bitvec|
    ensures m < DataBytes(|bitvec|) && Group(bitvec, m) == bitvec[8 * m..hi]
  {
    if hi - 8 * m < 8 {
      DivMod8(m, hi - 8 * m);
    } else {
      assert |bitvec| / 8 >= m + 1;
    }
  }

  /**
   * The state of `bitvec_to_string` before bit i: the header and one
   * finished byte per group of eight bits before lo = 8 * (|result| - 1),
   * and in `byte` the bits lo .. i - 1 of the group being filled.
   */
  ghost predicate PackState(bitvec: Code, i: nat, lo: nat, result: seq<bv8>, byte: bv8)
  {
    lo <= i <= |bitvec| && i - lo < 8 && |result| >= 1 && lo == 8 * (|result| - 1) &&
    result == Packed(bitvec, |result| - 1) && byte == ByteOf(bitvec[lo..i])
  }

  /** The packed form grows by one data byte at a time. */
  lemma PackedNext(bits: Code, m: nat)
    ensures Packed(bits, m + 1) == Packed(bits, m) + [ByteOf(Group(bits, m))]
  {
    var p, q := Packed(bits, m + 1), Packed(bits, m) + [ByteOf(Group(bits, m))];
    forall j | 0 <= j < |p| ensures p[j] == q[j] {
      if 0 < j <= m {
        PackedData(bits, m + 1, j - 1);
        if j < m {
          PackedData(bits, m, j - 1);
        }
      }
    }
  }

  /** Before the first bit: the header alone and an empty byte. */
  lemma PackStart(bitvec: Code)
    ensures PackState(bitvec, 0, 0, [Header(|bitvec| % 8)], 0)
  {
    assert [Header(|bitvec| % 8)] == Packed(bitvec, 0);
    assert bitvec[0..0] == [];
  }

  /** The bit at offset i mod 8 joins the byte. */
  lemma PackFill(bitvec: Code, i: nat, lo: nat, result: seq<bv8>, byte: bv8)
    requires PackState(bitvec, i, lo, result, byte) && i < |bitvec| && i % 8 != 7
    ensures PackState(bitvec, i + 1, lo, result, byte | (if bitvec[i] then Mask(i % 8) else 0))
  {
    DivMod8(|result| - 1, i - lo);
    assert i % 8 == i - lo;
    ByteStep(bitvec, lo, i);
  }

  /** Bit i at offset 7 completes the byte of group m, which starts at lo = 8m. */
  lemma FullByte(bitvec: Code, i: nat, lo: nat, m: nat, byte: bv8)
    requires lo == 8 * m && i == lo + 7 && i < |bitvec| && byte == ByteOf(bitvec[lo..i])
    ensures byte | (if bitvec[i] then Mask(7) else 0) == ByteOf(Group(bitvec, m))
  {
    ByteStep(bitvec, lo, i);
    GroupAt(bitvec, m, i + 1);
  }

  /** Offset 7 completes the byte: it is written out and a new one is started. */
  lemma PackEmit(bitvec: Code, i: nat, lo: nat, result: seq<bv8>, byte: bv8)
    requires PackState(bitvec, i, lo, result, byte) && i < |bitvec| && i % 8 == 7
    ensures PackState(bitvec, i + 1, i + 1, result + [byte | (if bitvec[i] then Mask(i % 8) else 0)], 0)
  {
    var m := |result| - 1;
    DivMod8(m, i - lo);
    FullByte(bitvec, i, lo, m, byte);
    PackedNext(bitvec, m);
    assert bitvec[i + 1..i + 1] == [];
  }

  /** After the last bit, writing a started byte completes the packed form. */
  lemma PackEnd(bitvec: Code, lo: nat, result: seq<bv8>, byte: bv8)
    requires PackState(bitvec, |bitvec|, lo, result, byte)
    ensures (if |bitvec| % 8 != 0 then result + [byte] else result) == Pack(bitvec)
  {
    DivMod8(|result| - 1, |bitvec| - lo);
    if |bitvec| % 8 != 0 {
      GroupAt(bitvec, |result| - 1, |bitvec|);
    }
  }

  /** One turn of the loop of `bitvec_to_string` keeps its state. */
  lemma PackStep(bitvec: Code, i: nat, lo0: nat, result0: seq<bv8>, byte0: bv8,
                 lo: nat, result: seq<bv8>, byte: bv8)
    requires PackState(bitvec, i, lo0, result0, byte0) && i < |bitvec|
    requires var b := byte0 | (if bitvec[i] then Mask(i % 8) else 0);
             if i % 8 == 7 then lo == i + 1 && result == result0 + [b] && byte == 0
             else lo == lo0 && result == result0 && byte == b
    ensures PackState(bitvec, i + 1, lo, result, byte)
  {
    if i % 8 == 7 {
      PackEmit(bitvec, i, lo0, result0, byte0);
    } else {
      PackFill(bitvec, i, lo0, result0, byte0);
    }
  }

  /**
   * `bitvec_to_string`: write the count of hanging bits, then OR each bit
   * into a byte at offset i mod 8, emitting the byte after offset 7 and a
   * last partial byte when one was started.
   */
  method BitvecToString(bitvec: Code) returns (result: seq<bv8>)
    ensures result == Pack(bitvec)
  {
    var nbits := |bitvec| % 8;
    result := [Header(nbits)];
    var byte: bv8 := 0;
    ghost var lo: nat := 0;
    PackStart(bitvec);
    for i := 0 to |bitvec|
      invariant PackState(bitvec, i, lo, result, byte)
    {
      ghost var lo0, result0, byte0 := lo, result, byte;
      var boff := i % 8;
      byte := byte | (if bitvec[i] then Mask(boff) else 0);
      if boff == 7 {
        result := result + [byte];
        byte := 0;
        lo := i + 1;
      }
      PackStep(bitvec, i, lo0, result0, byte0, lo, result, byte);
    }
    PackEnd(bitvec, lo, result, byte);
    if nbits != 0 {
      result := result + [byte];
    }
  }

  /**
   * `string_to_bitvec`: push the eight bits of every data byte, least
   * significant first, then pop the padding of the last byte.
   */
  method StringToBitvec(packed: seq<bv8>) returns (result: Option<Code>)
    requires |packed| >= 2 ==> packed[0] <= 8
    ensures result == Unpack(packed)
  {
    if |packed| == 0 {
      return None;
    }
    if |packed| == 1 {
      if packed[0] != 0 {
        return None;
      }
      return Some([]);
    }
    var nbits := packed[0] as nat;
    var bits: Code := [];
    for m := 1 to |packed|
      invariant |bits| == 8 * (m - 1)
      invariant forall i :: 0 <= i < |bits| ==> bits[i] == Bit(packed[1 + i / 8], i % 8)
    {
      for k := 0 to 8
        invariant |bits| == 8 * (m - 1) + k
        invariant forall i :: 0 <= i < |bits| ==> bits[i] == Bit(packed[1 + i / 8], i % 8)
      {
        bits := bits + [Bit(packed[m], k)];
      }
    }
    ghost var all := bits;
    assert all == ByteBits(packed[1..]);
    if nbits != 0 {
      for i := 0 to 8 - nbits
        invariant bits == all[..|all| - i]
      {
        bits := bits[..|bits| - 1];
      }
    }
    result := Some(bits);
  }
}
