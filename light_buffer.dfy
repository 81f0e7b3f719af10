/**
 * The point-light and direction-light uniform buffers of the shading pass
 * (src/main.py:96-117). Every light is packed with the `struct` format
 * "=3f4x3f4x" into a 32-byte record: its emission, four zero bytes, its
 * position (or direction), four zero bytes. That is the std140 layout of a
 * block member `struct { vec3; vec3; }`, where a vec3 starts on a 16-byte
 * boundary (section 7.6.2.2 of the OpenGL 4.5 Core Profile specification).
 * The records go one after another into a zeroed byte buffer that always
 * has room for at least one record.
 */
module LightBuffer {
  import opened Common
  import opened Float32

  /** One item of a `struct` format: `nf` is `n` floats, `nx` is `n` pad bytes. */
  datatype FormatItem = Floats(count: nat) | Pad(count: nat)

  /** "=3f4x3f4x". */
  const LightFormat: seq<FormatItem> := [Floats(3), Pad(4), Floats(3), Pad(4)]

  /** The size of a record: `struct.calcsize("=3f4x3f4x")`. */
  const RecordSize: nat := 32

  /** Bytes one item takes with "=" (standard sizes, no implicit alignment). */
  function ItemSize(item: FormatItem): nat {
    match item
    case Floats(n) => 4 * n
    case Pad(n) => n
  }

  /** `struct.calcsize`: the items' sizes added up. */
  function CalcSize(fmt: seq<FormatItem>): nat {
    if fmt == [] then 0 else ItemSize(fmt[0]) + CalcSize(fmt[1..])
  }

  /** How many values `struct.pack` takes for the format. */
  function FloatCount(fmt: seq<FormatItem>): nat {
    if fmt == [] then 0
    else (match fmt[0] case Floats(n) => n case Pad(_) => 0) + FloatCount(fmt[1..])
  }

  /** Byte offset at which item `k` of the format starts. */
  function Offset(fmt: seq<FormatItem>, k: nat): nat
    requires k <= |fmt|
  {
    CalcSize(fmt[..k])
  }

  /** `n` zero bytes. */
  function Zeros(n: nat): (r: seq<Byte>)
    ensures |r| == n
    ensures forall p :: 0 <= p < n ==> r[p] == 0
  {
    seq(n, _ => 0)
  }

  /** `struct.pack(fmt, *vals)`: floats encoded in order, pad items as zero bytes. */
  function Pack(fmt: seq<FormatItem>, vals: seq<F32>): (r: seq<Byte>)
    requires |vals| == FloatCount(fmt)
    ensures |r| == CalcSize(fmt)
  {
    if fmt == [] then []
    else match fmt[0]
      case Floats(n) => EncodeAll(vals[..n]) + Pack(fmt[1..], vals[n..])
      case Pad(n) => Zeros(n) + Pack(fmt[1..], vals)
  }

  /**
   * The light format is the std140 layout of two vec3 members: 32 bytes in
   * all, the vec3s at offsets 0 and 16 (multiples of their 16-byte
   * alignment), each followed by four bytes of padding, and six floats.
   */
  lemma LightFormatIsStd140()
    ensures CalcSize(LightFormat) == RecordSize && RecordSize % 16 == 0
    ensures FloatCount(LightFormat) == 6
    ensures Offset(LightFormat, 0) == 0 && Offset(LightFormat, 1) == 12
    ensures Offset(LightFormat, 2) == 16 && Offset(LightFormat, 3) == 28
  {
    assert LightFormat[..0] == [];
    assert LightFormat[..1] == [Floats(3)];
    assert LightFormat[..2] == [Floats(3), Pad(4)];
    assert LightFormat[..3] == [Floats(3), Pad(4), Floats(3)];
    assert CalcSize([Floats(3)]) == 12;
    assert CalcSize([Pad(4)]) == 4;
    assert CalcSize([Floats(3), Pad(4)]) == 16;
    assert CalcSize([Pad(4), Floats(3), Pad(4)]) == 20;
    assert FloatCount([Pad(4)]) == 0;
    assert FloatCount([Floats(3), Pad(4)]) == 3;
  }

  /**
   * A light as the scene file gives it: the `emission` list and the
   * `position` (point lights) or `direction` (direction lights) list.
   */
  datatype Light = Light(emission: seq<F32>, vector: seq<F32>)

  /** `struct.pack` accepts the light only when the two lists hold six values together. */
  predicate Packable(l: Light) {
    |l.emission| + |l.vector| == FloatCount(LightFormat)
  }

  predicate AllPackable(lights: seq<Light>) {
    forall i :: 0 <= i < |lights| ==> Packable(lights[i])
  }

  /** The record of one light. */
  function Record(l: Light): (r: seq<Byte>)
    requires Packable(l)
    ensures |r| == RecordSize
  {
    LightFormatIsStd140();
    Pack(LightFormat, l.emission + l.vector)
  }

  /**
   * Byte layout of a record: the first three values in bytes 0-11, zero
   * bytes 12-15, the last three values in bytes 16-27, zero bytes 28-31.
   * With three emission and three position values, the emission fills the
   * first vec3 slot and the position the second.
   */
  lemma RecordLayout(l: Light)
    requires Packable(l)
    ensures var v, r := l.emission + l.vector, Record(l);
            && |r| == RecordSize
            && r[..12] == EncodeAll(v[..3]) && r[12..16] == Zeros(4)
            && r[16..28] == EncodeAll(v[3..]) && r[28..] == Zeros(4)
  {
    var v := l.emission + l.vector;
    var w := v[3..];
    assert FloatCount([Floats(3), Pad(4)]) == 3 && FloatCount([Pad(4)]) == 0;
    assert LightFormat[1..] == [Pad(4), Floats(3), Pad(4)];
    assert [Pad(4), Floats(3), Pad(4)][1..] == [Floats(3), Pad(4)];
    assert [Floats(3), Pad(4)][1..] == [Pad(4)] && [Pad(4)][1..] == [];
    assert w[..3] == w && w[3..] == [];
    calc {
      Record(l);
      EncodeAll(v[..3]) + Pack([Pad(4), Floats(3), Pad(4)], w);
      EncodeAll(v[..3]) + (Zeros(4) + Pack([Floats(3), Pad(4)], w));
      EncodeAll(v[..3]) + (Zeros(4) + (EncodeAll(w) + Pack([Pad(4)], [])));
      EncodeAll(v[..3]) + (Zeros(4) + (EncodeAll(w) + Zeros(4)));
    }
  }

  /** The float at byte offset `off` of a buffer. */
  function FloatAt(buf: seq<Byte>, off: nat): F32
    requires off + 4 <= |buf|
  {
    Decode4(buf[off..off + 4])
  }

  /** The six values a record holds, read back from its float slots. */
  function UnpackRecord(rec: seq<Byte>): (vals: seq<F32>)
    requires |rec| == RecordSize
    ensures |vals| == 6
  {
    [FloatAt(rec, 0), FloatAt(rec, 4), FloatAt(rec, 8), FloatAt(rec, 16), FloatAt(rec, 20), FloatAt(rec, 24)]
  }

  /** A float of a run encoded at byte `lo` reads back from its own slot. */
  lemma SlotInRun(r: seq<Byte>, lo: nat, vals: seq<F32>, k: nat)
    requires lo + 4 * |vals| <= |r| && r[lo..lo + 4 * |vals|] == EncodeAll(vals) && k < |vals|
    ensures FloatAt(r, lo + 4 * k) == vals[k]
  {
    EncodeAllAt(vals, k);
    var run := r[lo..lo + 4 * |vals|];
    forall p | 0 <= p < 4
      ensures r[lo + 4 * k + p] == Encode4(vals[k])[p]
    {
      assert r[lo + 4 * k + p] == run[4 * k + p];
    }
    assert r[lo + 4 * k..lo + 4 * k + 4] == Encode4(vals[k]);
    DecodeEncode(vals[k]);
  }

  /** Reading a record back gives the light's values in order: packing loses nothing. */
  lemma UnpackRecordRecord(l: Light)
    requires Packable(l)
    ensures |Record(l)| == RecordSize
    ensures UnpackRecord(Record(l)) == l.emission + l.vector
  {
    RecordLayout(l);
    var v := l.emission + l.vector;
    var r := Record(l);
    assert r[0..12] == r[..12];
    SlotInRun(r, 0, v[..3], 0);
    SlotInRun(r, 0, v[..3], 1);
    SlotInRun(r, 0, v[..3], 2);
    SlotInRun(r, 16, v[3..], 0);
    SlotInRun(r, 16, v[3..], 1);
    SlotInRun(r, 16, v[3..], 2);
  }

  /** The records of the lights, one after another. */
  function Records(lights: seq<Light>): (r: seq<Byte>)
    requires AllPackable(lights)
    ensures |r| == RecordSize * |lights|
  {
    if lights == [] then [] else Records(lights[..|lights| - 1]) + Record(lights[|lights| - 1])
  }

  /** The buffer length: room for `max(n, 1)` records. */
  function BufferSize(n: nat): nat {
    (if n > 1 then n else 1) * RecordSize
  }

  /** The whole buffer: the records, then zeros up to the buffer length. */
  function Packed(lights: seq<Light>): (buf: seq<Byte>)
    requires AllPackable(lights)
    ensures |buf| == BufferSize(|lights|)
  {
    Records(lights) + Zeros(BufferSize(|lights|) - RecordSize * |lights|)
  }

  /** The buffer holds `max(n, 1)` records; with no lights it is one record of zeros. */
  lemma PackedSize(lights: seq<Light>)
    requires AllPackable(lights)
    ensures |Packed(lights)| == BufferSize(|lights|) && BufferSize(|lights|) >= RecordSize
    ensures |lights| == 0 ==> Packed(lights) == Zeros(RecordSize)
  {
  }

  /** Record `i` occupies bytes `[32 i, 32 i + 32)` of the buffer. */
  lemma {:induction false} PackedRecord(lights: seq<Light>, i: nat)
    requires AllPackable(lights) && i < |lights|
    ensures RecordSize * i + RecordSize <= |Packed(lights)|
    ensures Packed(lights)[RecordSize * i..RecordSize * i + RecordSize] == Record(lights[i])
  {
    RecordsRecord(lights, i);
    var r := Records(lights);
    assert Packed(lights)[RecordSize * i..RecordSize * i + RecordSize] == r[RecordSize * i..RecordSize * i + RecordSize];
  }

  lemma {:induction false} RecordsRecord(lights: seq<Light>, i: nat)
    requires AllPackable(lights) && i < |lights|
    ensures RecordSize * i + RecordSize <= |Records(lights)|
    ensures Records(lights)[RecordSize * i..RecordSize * i + RecordSize] == Record(lights[i])
  {
    var n := |lights|;
    var init := lights[..n - 1];
    assert AllPackable(init);
    var r := Records(lights);
    assert r == Records(init) + Record(lights[n - 1]);
    if i < n - 1 {
      RecordsRecord(init, i);
      assert r[RecordSize * i..RecordSize * i + RecordSize] == Records(init)[RecordSize * i..RecordSize * i + RecordSize];
    } else {
      assert r[RecordSize * i..] == Record(lights[n - 1]);
    }
  }

  /** The values of light `i`, read back from the buffer. */
  lemma PackedRoundTrip(lights: seq<Light>, i: nat)
    requires AllPackable(lights) && i < |lights|
    ensures RecordSize * i + RecordSize <= |Packed(lights)|
    ensures UnpackRecord(Packed(lights)[RecordSize * i..RecordSize * i + RecordSize]) == lights[i].emission + lights[i].vector
  {
    PackedRecord(lights, i);
    UnpackRecordRecord(lights[i]);
  }

  /**
   * The slice assignment `view[off:off + len(bytes)] = bytes`: those bytes
   * are replaced and no other byte changes.
   */
  method WriteAt(buf: array<Byte>, off: nat, bytes: seq<Byte>)
    requires off + |bytes| <= buf.Length
    modifies buf
    ensures buf[..] == old(buf[..off]) + bytes + old(buf[off + |bytes|..])
  {
    for k := 0 to |bytes|
      invariant forall p :: 0 <= p < off ==> buf[p] == old(buf[p])
      invariant forall p :: 0 <= p < k ==> buf[off + p] == bytes[p]
      invariant forall p :: off + k <= p < buf.Length ==> buf[p] == old(buf[p])
    {
      buf[off + k] := bytes[k];
    }
    assert buf[..] == old(buf[..off]) + bytes + old(buf[off + |bytes|..]);
  }

  /**
   * One of the two packing loops: a zeroed buffer of `max(n, 1)` records,
   * record `i` written at offset `32 i`. A light whose lists do not hold six
   * values together makes `struct.pack` raise, and no buffer comes out.
   */
  method PackLights(lights: seq<Light>) returns (result: Option<array<Byte>>)
    ensures result.Some? <==> AllPackable(lights)
    ensures result.Some? ==> fresh(result.value) && result.value[..] == Packed(lights)
  {
    var buf := new Byte[BufferSize(|lights|)](_ => 0);
    for i := 0 to |lights|
      invariant AllPackable(lights[..i])
      invariant buf[..RecordSize * i] == Records(lights[..i])
      invariant forall p :: RecordSize * i <= p < buf.Length ==> buf[p] == 0
    {
      if !Packable(lights[i]) {
        return None;
      }
      assert lights[..i + 1][..i] == lights[..i];
      ghost var before := buf[..];
      WriteAt(buf, RecordSize * i, Record(lights[i]));
      assert buf[..RecordSize * i + RecordSize] == before[..RecordSize * i] + Record(lights[i]);
    }
    assert lights[..|lights|] == lights;
    assert buf[..] == Packed(lights) by {
      var packed := Packed(lights);
      forall p | 0 <= p < buf.Length
        ensures buf[p] == packed[p]
      {
        if p < RecordSize * |lights| {
          assert buf[p] == buf[..RecordSize * |lights|][p];
        }
      }
    }
    return Some(buf);
  }
}
