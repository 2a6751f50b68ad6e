/**
 * Frame assembly for the DHT11 single-wire protocol: the 40 entries of the
 * bit buffer are packed into five bytes, eight entries per byte, the first
 * entry of each group being the most significant bit.
 */
module Frame {

  /** One assembled byte of the frame. */
  type Byte = x: int | 0 <= x < 256

  /** Number of bytes in a frame: humidity integer and fraction, temperature integer and fraction, checksum. */
  const FrameBytes := 5

  /** Number of buffer entries sampled per frame. */
  const FrameBits := 40

  /** 2 raised to the power n. */
  function Pow2(n: nat): (r: nat)
    ensures r >= 1
  {
    if n == 0 then 1 else 2 * Pow2(n - 1)
  }

  /** Every entry is a bit value, 0 or 1. */
  predicate IsBits(s: seq<int>)
  {
    forall k :: 0 <= k < |s| ==> s[k] == 0 || s[k] == 1
  }

  /**
   * The value of a group of buffer entries read most significant first:
   * the entry at position j adds 2^(|bits| - 1 - j) exactly when it is 1,
   * and any other entry adds nothing.
   */
  function PackMsb(bits: seq<int>): (r: nat)
    ensures r < Pow2(|bits|)
  {
    if bits == [] then 0
    else (if bits[0] == 1 then Pow2(|bits| - 1) else 0) + PackMsb(bits[1..])
  }

  /** The n low bits of b, most significant first (what the sensor sends for b). */
  function ToBitsMsb(b: nat, n: nat): (bits: seq<int>)
    ensures |bits| == n && IsBits(bits)
  {
    if n == 0 then [] else ToBitsMsb(b / 2, n - 1) + [b % 2]
  }

  /** The bit sequence a sensor transmits for a run of bytes, each byte most significant bit first. */
  function Encode(bytes: seq<Byte>): (bits: seq<int>)
    ensures |bits| == 8 * |bytes| && IsBits(bits)
  {
    if bytes == [] then [] else ToBitsMsb(bytes[0], 8) + Encode(bytes[1..])
  }

  /** The five bytes packed from a 40-entry buffer: byte i is the group of entries 8i .. 8i+7. */
  function Assemble(buffer: seq<int>): (data: seq<Byte>)
    requires |buffer| == FrameBits
    ensures |data| == FrameBytes
  {
    seq(FrameBytes, i requires 0 <= i < FrameBytes => PackMsb(buffer[8 * i .. 8 * i + 8]))
  }

  /** Appending one entry doubles the value and adds that entry's bit. */
  lemma {:induction false} PackMsbAppend(s: seq<int>, x: int)
    ensures PackMsb(s + [x]) == 2 * PackMsb(s) + (if x == 1 then 1 else 0)
  {
    if s == [] {
      assert [x][1..] == [];
    } else {
      assert (s + [x])[1..] == s[1..] + [x];
      PackMsbAppend(s[1..], x);
    }
  }

  /** A byte assembled from an all-zero group is zero. */
  lemma {:induction false} PackMsbZeros(s: seq<int>)
    requires forall k :: 0 <= k < |s| ==> s[k] == 0
    ensures PackMsb(s) == 0
  {
    if s != [] {
      PackMsbZeros(s[1..]);
    }
  }

  /** A group of all ones packs to the largest value that fits. */
  lemma {:induction false} PackMsbOnes(s: seq<int>)
    requires forall k :: 0 <= k < |s| ==> s[k] == 1
    ensures PackMsb(s) == Pow2(|s|) - 1
  {
    if s != [] {
      PackMsbOnes(s[1..]);
    }
  }

  /** Packing the bits of a number that fits gives the number back. */
  lemma {:induction false} PackToBits(b: nat, n: nat)
    requires b < Pow2(n)
    ensures PackMsb(ToBitsMsb(b, n)) == b
  {
    if n > 0 {
      PackToBits(b / 2, n - 1);
      PackMsbAppend(ToBitsMsb(b / 2, n - 1), b % 2);
    }
  }

  /** Unpacking the value of a group of bits gives the group back. */
  lemma {:induction false} ToBitsPack(bits: seq<int>)
    requires IsBits(bits)
    ensures ToBitsMsb(PackMsb(bits), |bits|) == bits
  {
    if bits != [] {
      var init, last := bits[..|bits| - 1], bits[|bits| - 1];
      assert bits == init + [last];
      PackMsbAppend(init, last);
      ToBitsPack(init);
    }
  }

  /** Group i of the encoded bits is the encoding of byte i. */
  lemma {:induction false} EncodeGroup(bytes: seq<Byte>, i: nat)
    requires i < |bytes|
    ensures Encode(bytes)[8 * i .. 8 * i + 8] == ToBitsMsb(bytes[i], 8)
  {
    if i > 0 {
      EncodeGroup(bytes[1..], i - 1);
      assert Encode(bytes)[8 * i .. 8 * i + 8] == Encode(bytes[1..])[8 * (i - 1) .. 8 * (i - 1) + 8];
    }
  }

  /** Assembling what the sensor sends for five bytes yields those five bytes. */
  lemma AssembleEncode(bytes: seq<Byte>)
    requires |bytes| == FrameBytes
    ensures Assemble(Encode(bytes)) == bytes
  {
    forall i | 0 <= i < FrameBytes
      ensures Assemble(Encode(bytes))[i] == bytes[i]
    {
      EncodeGroup(bytes, i);
      PackToBits(bytes[i], 8);
    }
  }

  /** A buffer of bit values is exactly the encoding of the bytes assembled from it. */
  lemma EncodeAssemble(buffer: seq<int>)
    requires |buffer| == FrameBits && IsBits(buffer)
    ensures Encode(Assemble(buffer)) == buffer
  {
    forall k | 0 <= k < FrameBits
      ensures Encode(Assemble(buffer))[k] == buffer[k]
    {
      EncodeAssembleAt(buffer, k);
    }
  }

  /** Entry k of the re-encoded frame is entry k of the buffer. */
  lemma EncodeAssembleAt(buffer: seq<int>, k: nat)
    requires |buffer| == FrameBits && IsBits(buffer) && k < FrameBits
    ensures Encode(Assemble(buffer))[k] == buffer[k]
  {
    var data := Assemble(buffer);
    var i := k / 8;
    var group := buffer[8 * i .. 8 * i + 8];
    EncodeGroup(data, i);
    ToBitsPack(group);
    assert Encode(data)[k] == Encode(data)[8 * i .. 8 * i + 8][k - 8 * i];
    assert buffer[k] == group[k - 8 * i];
  }

  /** Unfolding the value of a suffix by one entry. */
  lemma PackMsbFrom(s: seq<int>, j: nat)
    requires j < |s|
    ensures PackMsb(s[j..]) == (if s[j] == 1 then Pow2(|s| - 1 - j) else 0) + PackMsb(s[j + 1..])
  {
  }

  /** MSB-first order: a leading 1 is worth 128, a trailing 1 is worth 1. */
  lemma BitOrder()
    ensures PackMsb([1, 0, 0, 0, 0, 0, 0, 0]) == 128
    ensures PackMsb([0, 0, 0, 0, 0, 0, 0, 1]) == 1
  {
  }

  /**
   * Byte assembly as the driver does it: a five-entry array starts at zero
   * and, for each group i and each position j in it, gains 2^(7 - j) when
   * buffer[8i + j] is 1.
   */
  method AssembleFrame(buffer: array<int>) returns (data: seq<Byte>)
    requires buffer.Length == FrameBits
    ensures data == Assemble(buffer[..])
  {
    ghost var want := Assemble(buffer[..]);
    var d := new int[FrameBytes](_ => 0);
    for i := 0 to FrameBytes
      invariant forall k :: 0 <= k < FrameBytes ==> d[k] == if k < i then want[k] else 0
    {
      AddGroup(buffer, d, i);
    }
    assert d[..] == want;
    data := d[..];
  }

  /** The inner loop for group i: d[i] gains 2^(7 - j) for every entry 8i + j that is 1. */
  method AddGroup(buffer: array<int>, d: array<int>, i: nat)
    requires buffer.Length == FrameBits && d.Length == FrameBytes && i < FrameBytes
    requires buffer != d
    modifies d
    ensures d[i] == old(d[i]) + PackMsb(buffer[8 * i .. 8 * i + 8])
    ensures forall k :: 0 <= k < FrameBytes && k != i ==> d[k] == old(d[k])
  {
    ghost var group := buffer[8 * i .. 8 * i + 8];
    for j := 0 to 8
      invariant d[i] + PackMsb(group[j..]) == old(d[i]) + PackMsb(group)
      invariant forall k :: 0 <= k < FrameBytes && k != i ==> d[k] == old(d[k])
    {
      PackMsbFrom(group, j);
      if buffer[8 * i + j] == 1 {
        d[i] := d[i] + Pow2(7 - j);
      }
    }
    assert group[8..] == [];
  }
}
