/**
 * Single-precision floats as the program stores and ships them. A float is
 * identified by its IEEE-754 bit pattern; `struct.pack("=f", x)` writes that
 * pattern as four bytes in native order, which is little-endian on the hosts
 * the renderer targets. Rounding a scene number (a double) to single
 * precision happens before the values enter this model.
 */
module Float32 {

  type Byte = bv8

  /** An IEEE-754 binary32 value, by its bit pattern. */
  datatype F32 = F32(bits: bv32)

  /** A three-component float vector (`emission`, `position`, `albedo`, ...). */
  datatype Vec3f = Vec3f(x: F32, y: F32, z: F32)

  /** 1.0f, the bit pattern of the module default `MAX_CURVATURE`. */
  const One: F32 := F32(0x3F80_0000)

  /** The four bytes `struct.pack("=f", x)` produces, least significant first. */
  function Encode4(x: F32): (r: seq<Byte>)
    ensures |r| == 4
  {
    [(x.bits & 0xFF) as Byte, ((x.bits >> 8) & 0xFF) as Byte,
     ((x.bits >> 16) & 0xFF) as Byte, ((x.bits >> 24) & 0xFF) as Byte]
  }

  /** The float that four little-endian bytes hold (`np.frombuffer(..., float32)`). */
  function Decode4(b: seq<Byte>): F32
    requires |b| == 4
  {
    F32((b[0] as bv32) | ((b[1] as bv32) << 8) | ((b[2] as bv32) << 16) | ((b[3] as bv32) << 24))
  }

  /** Reading back what was packed gives the same float. */
  lemma DecodeEncode(x: F32)
    ensures Decode4(Encode4(x)) == x
  {
  }

  /** Every four bytes are the encoding of exactly the float they decode to. */
  lemma EncodeDecode(b: seq<Byte>)
    requires |b| == 4
    ensures Encode4(Decode4(b)) == b
  {
  }

  /** The floats, four little-endian bytes each. */
  function EncodeAll(vals: seq<F32>): (r: seq<Byte>)
    ensures |r| == 4 * |vals|
  {
    if vals == [] then [] else Encode4(vals[0]) + EncodeAll(vals[1..])
  }

  /** Value `k` of a float run is encoded at bytes `[4 k, 4 k + 4)`. */
  lemma {:induction false} EncodeAllAt(vals: seq<F32>, k: nat)
    requires k < |vals|
    ensures EncodeAll(vals)[4 * k..4 * k + 4] == Encode4(vals[k])
  {
    var r := EncodeAll(vals);
    assert r == Encode4(vals[0]) + EncodeAll(vals[1..]);
    if k > 0 {
      EncodeAllAt(vals[1..], k - 1);
      assert r[4 * k..4 * k + 4] == EncodeAll(vals[1..])[4 * (k - 1)..4 * (k - 1) + 4];
    }
  }

  /** `np.frombuffer(buf, dtype=np.float32)`: one float per four bytes, in order. */
  function DecodeAll(buf: seq<Byte>): (r: seq<F32>)
    requires |buf| % 4 == 0
    ensures 4 * |r| == |buf|
  {
    if buf == [] then [] else [Decode4(buf[..4])] + DecodeAll(buf[4..])
  }

  /** Decoding what was encoded gives the floats back. */
  lemma {:induction false} DecodeAllEncodeAll(vals: seq<F32>)
    ensures DecodeAll(EncodeAll(vals)) == vals
  {
    if vals != [] {
      var b := EncodeAll(vals);
      assert b[..4] == Encode4(vals[0]) && b[4..] == EncodeAll(vals[1..]);
      DecodeEncode(vals[0]);
      DecodeAllEncodeAll(vals[1..]);
    }
  }

  /** Every buffer of whole floats is the encoding of the floats it decodes to. */
  lemma {:induction false} EncodeAllDecodeAll(buf: seq<Byte>)
    requires |buf| % 4 == 0
    ensures EncodeAll(DecodeAll(buf)) == buf
  {
    if buf != [] {
      var r := DecodeAll(buf);
      assert r[0] == Decode4(buf[..4]) && r[1..] == DecodeAll(buf[4..]);
      EncodeDecode(buf[..4]);
      EncodeAllDecodeAll(buf[4..]);
      assert buf == buf[..4] + buf[4..];
    }
  }
}
