/**
 * The patch overlay of a search result (`ThumbnailBox.drawPatches`): a
 * little-endian payload holding an `int` count, a `double` distance, and
 * `count` records of four `int`s, each record stroked as a rectangle.
 *
 *   offset 0        count   int32
 *   offset 4        distance float64 (kept as raw bits, never used)
 *   offset 12 + 16i x0, y0, x1, y1 of record i, int32 each
 */
module Patches {
  import opened Wrappers
  import opened Binary
  import opened Graphics

  const HeaderSize: nat := 12
  const RecordSize: nat := 16

  /** One record: the corners (x0, y0) and (x1, y1). */
  datatype Quad = Quad(x0: int32, y0: int32, x1: int32, y1: int32)

  /** A decoded payload; `quads` holds max(count, 0) records. */
  datatype PatchSet = PatchSet(count: int32, distance: bits64, quads: seq<Quad>)

  /** The outcome of decoding: the patches, or the `BufferUnderflowException` of a short payload. */
  datatype Decoding = Decoded(patches: PatchSet) | BufferUnderflow

  /** The records a run of reads yields, and whether it read all it was asked for. */
  datatype RecordScan = RecordScan(quads: seq<Quad>, complete: bool)

  /** The number of iterations of `for (int i = 0; i < count; i++)`. */
  function Max0(count: int32): nat
  {
    if count < 0 then 0 else count as nat
  }

  function QuadAt(b: seq<byte>, off: nat): Quad
    requires off + RecordSize <= |b|
  {
    Quad(Int32At(b, off), Int32At(b, off + 4), Int32At(b, off + 8), Int32At(b, off + 12))
  }

  /**
   * Reads up to `k` records from `pos` on, one after another, as the loop of
   * `drawPatches` does, and stops at the first record the buffer cannot
   * supply whole.
   */
  function ScanRecords(b: seq<byte>, pos: nat, k: nat): RecordScan
    decreases k
  {
    if k == 0 then RecordScan([], true)
    else if |b| < pos + RecordSize then RecordScan([], false)
    else
      var rest := ScanRecords(b, pos + RecordSize, k - 1);
      RecordScan([QuadAt(b, pos)] + rest.quads, rest.complete)
  }

  /** The `n` records stored back to back from `pos` on. */
  function QuadsAt(b: seq<byte>, pos: nat, n: nat): (qs: seq<Quad>)
    requires pos + RecordSize * n <= |b|
    ensures |qs| == n
  {
    seq(n, i requires 0 <= i < n => QuadAt(b, pos + RecordSize * i))
  }

  /**
   * How many whole records a scan of `k` records from `pos` finds: all `k`,
   * or else as many as fit before the end of the payload.
   */
  function WholeRecords(b: seq<byte>, pos: nat, k: nat): (n: nat)
    decreases k
    ensures n <= k
    ensures pos <= |b| ==> pos + RecordSize * n <= |b|
    ensures n < k ==> |b| < pos + RecordSize * (n + 1)
  {
    if k == 0 || |b| < pos + RecordSize then 0 else 1 + WholeRecords(b, pos + RecordSize, k - 1)
  }

  lemma QuadsAtCons(b: seq<byte>, pos: nat, n: nat)
    requires 0 < n && pos + RecordSize * n <= |b|
    ensures QuadsAt(b, pos, n) == [QuadAt(b, pos)] + QuadsAt(b, pos + RecordSize, n - 1)
  {
    var tail := QuadsAt(b, pos + RecordSize, n - 1);
    forall i | 0 <= i < n - 1
      ensures tail[i] == QuadAt(b, pos + RecordSize * (i + 1))
    {
    }
  }

  /** A scan yields the records at their fixed offsets, as many as fit, and is complete iff all `k` fit. */
  lemma {:induction false} ScanRecordsClosedForm(b: seq<byte>, pos: nat, k: nat)
    requires pos <= |b|
    decreases k
    ensures pos + RecordSize * WholeRecords(b, pos, k) <= |b|
    ensures ScanRecords(b, pos, k)
         == RecordScan(QuadsAt(b, pos, WholeRecords(b, pos, k)), WholeRecords(b, pos, k) == k)
  {
    if k > 0 && pos + RecordSize <= |b| {
      ScanRecordsClosedForm(b, pos + RecordSize, k - 1);
      QuadsAtCons(b, pos, WholeRecords(b, pos, k));
    }
  }

  /** The specification of `drawPatches` as a decoder. */
  function DecodePatches(b: seq<byte>): Decoding
  {
    if |b| < HeaderSize then BufferUnderflow
    else
      var count := Int32At(b, 0);
      var scan := ScanRecords(b, HeaderSize, Max0(count));
      if scan.complete then Decoded(PatchSet(count, Bits64At(b, 4), scan.quads))
      else BufferUnderflow
  }

  /**
   * The records whose rectangles `drawPatches` strokes before it returns or
   * throws: it draws each record as soon as it has read it.
   */
  function DrawnQuads(b: seq<byte>): (qs: seq<Quad>)
    ensures DecodePatches(b).Decoded? ==> qs == DecodePatches(b).patches.quads
  {
    if |b| < HeaderSize then [] else ScanRecords(b, HeaderSize, Max0(Int32At(b, 0))).quads
  }

  /** The length of the prefix that decoding reads: the header and max(count, 0) records. */
  function RequiredLength(b: seq<byte>): nat
  {
    if |b| < 4 then HeaderSize else HeaderSize + RecordSize * Max0(Int32At(b, 0))
  }

  /** `new Rectangle(x0, y0, x1 - x0, y1 - y0)` with Java's wrapping `int` subtraction. */
  function ToRect(q: Quad): (r: Rect)
    ensures r.x == q.x0 && r.y == q.y0
    ensures Wrap32(r.x as int + r.width as int) == q.x1
    ensures Wrap32(r.y as int + r.height as int) == q.y1
    ensures -0x8000_0000 <= q.x1 as int - q.x0 as int < 0x8000_0000 ==> r.width as int == q.x1 as int - q.x0 as int
    ensures -0x8000_0000 <= q.y1 as int - q.y0 as int < 0x8000_0000 ==> r.height as int == q.y1 as int - q.y0 as int
  {
    var w := Wrap32(q.x1 as int - q.x0 as int);
    var h := Wrap32(q.y1 as int - q.y0 as int);
    Wrap32Congruent(q.x0 as int + w as int, q.x1 as int);
    Wrap32Congruent(q.y0 as int + h as int, q.y1 as int);
    Rect(q.x0, q.y0, w, h)
  }

  lemma Wrap32Congruent(x: int, y: int)
    requires (x - y) % TwoTo32 == 0
    ensures Wrap32(x) == Wrap32(y)
  {
    assert x % TwoTo32 == y % TwoTo32;
  }

  function RectsOf(qs: seq<Quad>): (rs: seq<Rect>)
    ensures |rs| == |qs|
  {
    seq(|qs|, i requires 0 <= i < |qs| => ToRect(qs[i]))
  }

  // ---------------------------------------------------------------------
  // Properties of the format

  /** Decoding succeeds exactly when the payload holds the header and all max(count, 0) records. */
  lemma DecodeSucceedsIff(b: seq<byte>)
    ensures DecodePatches(b).Decoded? <==> RequiredLength(b) <= |b|
  {
    if HeaderSize <= |b| {
      ScanRecordsClosedForm(b, HeaderSize, Max0(Int32At(b, 0)));
    }
  }

  /** Where each decoded field sits in the payload. */
  lemma DecodeLayout(b: seq<byte>)
    requires DecodePatches(b).Decoded?
    ensures RequiredLength(b) <= |b|
    ensures var p := DecodePatches(b).patches;
      && p.count == Int32At(b, 0)
      && p.distance == Bits64At(b, 4)
      && |p.quads| == Max0(p.count)
      && forall i :: 0 <= i < |p.quads| ==>
           p.quads[i] == Quad(Int32At(b, 12 + 16 * i), Int32At(b, 16 + 16 * i),
                              Int32At(b, 20 + 16 * i), Int32At(b, 24 + 16 * i))
  {
    ScanRecordsClosedForm(b, HeaderSize, Max0(Int32At(b, 0)));
  }

  /** With count <= 0 only the 12-byte header is read and nothing is drawn. */
  lemma NonPositiveCountDrawsNothing(b: seq<byte>)
    requires HeaderSize <= |b| && Int32At(b, 0) <= 0
    ensures RequiredLength(b) == HeaderSize
    ensures DecodePatches(b) == Decoded(PatchSet(Int32At(b, 0), Bits64At(b, 4), []))
    ensures DrawnQuads(b) == []
  {
  }

  /** On underflow the records already drawn are exactly the whole records the payload holds. */
  lemma UnderflowDrawsWholeRecords(b: seq<byte>)
    requires DecodePatches(b).BufferUnderflow?
    ensures |b| < RequiredLength(b)
    ensures |DrawnQuads(b)| == if |b| < HeaderSize then 0 else (|b| - HeaderSize) / RecordSize
    ensures HeaderSize + RecordSize * |DrawnQuads(b)| <= |b| || DrawnQuads(b) == []
    ensures forall i :: 0 <= i < |DrawnQuads(b)| ==>
              HeaderSize + RecordSize * i + RecordSize <= |b| &&
              DrawnQuads(b)[i] == QuadAt(b, HeaderSize + RecordSize * i)
  {
    DecodeSucceedsIff(b);
    if HeaderSize <= |b| {
      var k := Max0(Int32At(b, 0));
      ScanRecordsClosedForm(b, HeaderSize, k);
      var n := WholeRecords(b, HeaderSize, k);
      assert n < k;
      RecordsQuotient(|b| - HeaderSize, n);
    }
  }

  lemma RecordsQuotient(a: nat, n: nat)
    requires RecordSize * n <= a < RecordSize * (n + 1)
    ensures a / RecordSize == n
  {
  }

  lemma QuadAtOfPrefix(b: seq<byte>, extra: seq<byte>, off: nat)
    requires off + RecordSize <= |b|
    ensures QuadAt(b + extra, off) == QuadAt(b, off)
  {
    var c := b + extra;
    assert c[off..off + 4] == b[off..off + 4];
    assert c[off + 4..off + 8] == b[off + 4..off + 8];
    assert c[off + 8..off + 12] == b[off + 8..off + 12];
    assert c[off + 12..off + 16] == b[off + 12..off + 16];
  }

  lemma {:induction false} ScanRecordsOfPrefix(b: seq<byte>, extra: seq<byte>, pos: nat, k: nat)
    requires ScanRecords(b, pos, k).complete
    decreases k
    ensures ScanRecords(b + extra, pos, k) == ScanRecords(b, pos, k)
  {
    if k > 0 {
      QuadAtOfPrefix(b, extra, pos);
      ScanRecordsOfPrefix(b, extra, pos + RecordSize, k - 1);
    }
  }

  /** Bytes past the required length are never read. */
  lemma DecodeIgnoresTrailing(b: seq<byte>, extra: seq<byte>)
    requires DecodePatches(b).Decoded?
    ensures DecodePatches(b + extra) == DecodePatches(b)
  {
    var c := b + extra;
    assert c[0..4] == b[0..4] && c[4..12] == b[4..12];
    ScanRecordsOfPrefix(b, extra, HeaderSize, Max0(Int32At(b, 0)));
  }

  // ---------------------------------------------------------------------
  // The matching little-endian writer and the round trips

  function EncodeQuad(q: Quad): (s: seq<byte>)
    ensures |s| == RecordSize
  {
    EncodeInt32(q.x0) + EncodeInt32(q.y0) + EncodeInt32(q.x1) + EncodeInt32(q.y1)
  }

  function EncodeQuads(qs: seq<Quad>): (s: seq<byte>)
    ensures |s| == RecordSize * |qs|
  {
    if qs == [] then [] else EncodeQuad(qs[0]) + EncodeQuads(qs[1..])
  }

  /** A patch set the format can carry: max(count, 0) records. */
  predicate WellFormed(p: PatchSet)
  {
    |p.quads| == Max0(p.count)
  }

  function EncodePatches(p: PatchSet): (s: seq<byte>)
    ensures |s| == HeaderSize + RecordSize * |p.quads|
  {
    EncodeInt32(p.count) + EncodeBits64(p.distance) + EncodeQuads(p.quads)
  }

  lemma SliceOfSlice(b: seq<byte>, lo: nat, hi: nat, i: nat, j: nat)
    requires lo <= hi <= |b| && i <= j <= hi - lo
    ensures b[lo..hi][i..j] == b[lo + i..lo + j]
  {
    forall t | 0 <= t < j - i
      ensures b[lo..hi][i..j][t] == b[lo + i..lo + j][t]
    {
    }
  }

  lemma QuadAtEncoded(b: seq<byte>, off: nat, q: Quad)
    requires off + RecordSize <= |b| && b[off..off + RecordSize] == EncodeQuad(q)
    ensures QuadAt(b, off) == q
  {
    var e0, e1, e2, e3 := EncodeInt32(q.x0), EncodeInt32(q.y0), EncodeInt32(q.x1), EncodeInt32(q.y1);
    var e := e0 + e1 + e2 + e3;
    assert e[0..4] == e0 && e[4..8] == e1 && e[8..12] == e2 && e[12..16] == e3;
    SliceOfSlice(b, off, off + RecordSize, 0, 4);
    SliceOfSlice(b, off, off + RecordSize, 4, 8);
    SliceOfSlice(b, off, off + RecordSize, 8, 12);
    SliceOfSlice(b, off, off + RecordSize, 12, 16);
    Int32AtEncoded(b, off, q.x0);
    Int32AtEncoded(b, off + 4, q.y0);
    Int32AtEncoded(b, off + 8, q.x1);
    Int32AtEncoded(b, off + 12, q.y1);
  }

  lemma EncodedQuadAt(b: seq<byte>, off: nat)
    requires off + RecordSize <= |b|
    ensures EncodeQuad(QuadAt(b, off)) == b[off..off + RecordSize]
  {
    EncodedInt32At(b, off);
    EncodedInt32At(b, off + 4);
    EncodedInt32At(b, off + 8);
    EncodedInt32At(b, off + 12);
    assert b[off..off + RecordSize]
        == b[off..off + 4] + b[off + 4..off + 8] + b[off + 8..off + 12] + b[off + 12..off + 16];
  }

  /** The two halves of a concatenation, read back by slicing. */
  lemma SliceHalves(x: seq<byte>, y: seq<byte>)
    ensures (x + y)[..|x|] == x && (x + y)[|x|..] == y
  {
  }

  lemma SliceMiddle(a: seq<byte>, x: seq<byte>, c: seq<byte>)
    ensures (a + x + c)[|a|..|a| + |x|] == x
  {
  }

  lemma {:induction false} ScanEncodedRecords(b: seq<byte>, pos: nat, qs: seq<Quad>)
    requires pos + RecordSize * |qs| <= |b| && b[pos..pos + RecordSize * |qs|] == EncodeQuads(qs)
    decreases |qs|
    ensures ScanRecords(b, pos, |qs|) == RecordScan(qs, true)
  {
    if qs != [] {
      var n := |qs|;
      var x, y := EncodeQuad(qs[0]), EncodeQuads(qs[1..]);
      assert EncodeQuads(qs) == x + y;
      SliceHalves(x, y);
      SliceOfSlice(b, pos, pos + RecordSize * n, 0, RecordSize);
      SliceOfSlice(b, pos, pos + RecordSize * n, RecordSize, RecordSize * n);
      QuadAtEncoded(b, pos, qs[0]);
      ScanEncodedRecords(b, pos + RecordSize, qs[1..]);
      assert [qs[0]] + qs[1..] == qs;
    }
  }

  lemma {:induction false} EncodeScannedRecords(b: seq<byte>, pos: nat, k: nat)
    requires pos <= |b| && ScanRecords(b, pos, k).complete
    decreases k
    ensures pos + RecordSize * k <= |b|
    ensures EncodeQuads(ScanRecords(b, pos, k).quads) == b[pos..pos + RecordSize * k]
  {
    if k > 0 {
      EncodeScannedRecords(b, pos + RecordSize, k - 1);
      EncodedQuadAt(b, pos);
      var qs := ScanRecords(b, pos, k).quads;
      assert qs[1..] == ScanRecords(b, pos + RecordSize, k - 1).quads;
      assert b[pos..pos + RecordSize * k]
          == b[pos..pos + RecordSize] + b[pos + RecordSize..pos + RecordSize * k];
    }
  }

  /** Writing a patch set with the matching writer and decoding it gives it back, whatever follows. */
  lemma DecodeEncode(p: PatchSet, extra: seq<byte>)
    requires WellFormed(p)
    ensures DecodePatches(EncodePatches(p) + extra) == Decoded(p)
  {
    var header := EncodeInt32(p.count) + EncodeBits64(p.distance);
    var b := EncodePatches(p) + extra;
    assert b == header + EncodeQuads(p.quads) + extra;
    assert b[0..4] == EncodeInt32(p.count);
    assert b[4..12] == EncodeBits64(p.distance);
    Int32AtEncoded(b, 0, p.count);
    Bits64AtEncoded(b, 4, p.distance);
    SliceMiddle(header, EncodeQuads(p.quads), extra);
    ScanEncodedRecords(b, HeaderSize, p.quads);
  }

  /** Decoding and writing back reproduces exactly the prefix that decoding read. */
  lemma EncodeDecode(b: seq<byte>)
    requires DecodePatches(b).Decoded?
    ensures RequiredLength(b) <= |b|
    ensures WellFormed(DecodePatches(b).patches)
    ensures EncodePatches(DecodePatches(b).patches) == b[..RequiredLength(b)]
  {
    DecodeSucceedsIff(b);
    var k := Max0(Int32At(b, 0));
    var p := DecodePatches(b).patches;
    ScanRecordsClosedForm(b, HeaderSize, k);
    assert p.quads == ScanRecords(b, HeaderSize, k).quads;
    EncodeScannedRecords(b, HeaderSize, k);
    EncodedInt32At(b, 0);
    EncodedBits64At(b, 4);
    HeaderThenRecords(b, HeaderSize + RecordSize * k);
  }

  lemma HeaderThenRecords(b: seq<byte>, n: nat)
    requires HeaderSize <= n <= |b|
    ensures b[..n] == b[0..4] + b[4..12] + b[12..n]
  {
    forall t | 0 <= t < n
      ensures b[..n][t] == (b[0..4] + b[4..12] + b[12..n])[t]
    {
    }
  }

  /** The payload {count 2, distance 3.5, records (0,0,10,10) and (5,5,15,20)}. */
  lemma TwoRecordExample()
    ensures var p := PatchSet(2, 0x400C_0000_0000_0000, [Quad(0, 0, 10, 10), Quad(5, 5, 15, 20)]);
      DecodePatches(EncodePatches(p)) == Decoded(p)
  {
    var p := PatchSet(2, 0x400C_0000_0000_0000, [Quad(0, 0, 10, 10), Quad(5, 5, 15, 20)]);
    DecodeEncode(p, []);
    assert EncodePatches(p) + [] == EncodePatches(p);
  }

  /** The two records of that payload are stroked as a 10x10 and a 10x15 rectangle. */
  lemma TwoRecordOutlines()
    ensures RectsOf([Quad(0, 0, 10, 10), Quad(5, 5, 15, 20)]) == [Rect(0, 0, 10, 10), Rect(5, 5, 10, 15)]
  {
    var r0, r1 := ToRect(Quad(0, 0, 10, 10)), ToRect(Quad(5, 5, 15, 20));
    assert r0.width as int == 10 && r0.height as int == 10;
    assert r1.width as int == 10 && r1.height as int == 15;
  }

  // ---------------------------------------------------------------------
  // The imperative decoder

  /** `ByteBuffer.wrap(bytes)` with little-endian order: a read cursor over the bytes. */
  class ByteBuffer {
    const data: seq<byte>
    var position: nat

    constructor Wrap(bytes: seq<byte>)
      ensures data == bytes && position == 0
    {
      data := bytes;
      position := 0;
    }

    /** `getInt()`; `None` is the `BufferUnderflowException`, which leaves the position alone. */
    method GetInt() returns (v: Option<int32>)
      modifies this
      ensures old(position) + 4 <= |data| ==> v == Some(Int32At(data, old(position))) && position == old(position) + 4
      ensures |data| < old(position) + 4 ==> v == None && position == old(position)
    {
      if position + 4 <= |data| {
        v := Some(Int32At(data, position));
        position := position + 4;
      } else {
        v := None;
      }
    }

    /** `getDouble()`, delivering the raw bits of the value. */
    method GetDouble() returns (v: Option<bits64>)
      modifies this
      ensures old(position) + 8 <= |data| ==> v == Some(Bits64At(data, old(position))) && position == old(position) + 8
      ensures |data| < old(position) + 8 ==> v == None && position == old(position)
    {
      if position + 8 <= |data| {
        v := Some(Bits64At(data, position));
        position := position + 8;
      } else {
        v := None;
      }
    }
  }

  /** Once the header is read: what is drawn is the whole records, and decoding succeeds iff all `count` are there. */
  lemma DrawnQuadsClosedForm(b: seq<byte>)
    requires HeaderSize <= |b|
    ensures var n := WholeRecords(b, HeaderSize, Max0(Int32At(b, 0)));
      && HeaderSize + RecordSize * n <= |b|
      && DrawnQuads(b) == QuadsAt(b, HeaderSize, n)
      && (DecodePatches(b).Decoded? <==> n == Max0(Int32At(b, 0)))
  {
    ScanRecordsClosedForm(b, HeaderSize, Max0(Int32At(b, 0)));
  }

  /** The four `getInt` calls of one record; `None` when one of them underflows. */
  method ReadRecord(bb: ByteBuffer) returns (q: Option<Quad>)
    modifies bb
    ensures old(bb.position) + RecordSize <= |bb.data| ==>
              q == Some(QuadAt(bb.data, old(bb.position))) && bb.position == old(bb.position) + RecordSize
    ensures |bb.data| < old(bb.position) + RecordSize ==> q == None
  {
    var x0 := bb.GetInt();
    if x0.None? {
      return None;
    }
    var y0 := bb.GetInt();
    if y0.None? {
      return None;
    }
    var x1 := bb.GetInt();
    if x1.None? {
      return None;
    }
    var y1 := bb.GetInt();
    if y1.None? {
      return None;
    }
    q := Some(Quad(x0.value, y0.value, x1.value, y1.value));
  }

  lemma QuadsAtSnoc(b: seq<byte>, pos: nat, i: nat)
    requires pos + RecordSize * (i + 1) <= |b|
    ensures QuadsAt(b, pos, i + 1) == QuadsAt(b, pos, i) + [QuadAt(b, pos + RecordSize * i)]
  {
  }

  lemma RectsOfSnoc(qs: seq<Quad>, q: Quad)
    ensures RectsOf(qs + [q]) == RectsOf(qs) + [ToRect(q)]
  {
  }

  /**
   * The `for` loop of `drawPatches`: reads `count` records from just after
   * the header, stroking each one's rectangle as soon as it is read, until a
   * read underflows.
   */
  method DrawRecords(g: Canvas, bb: ByteBuffer, count: int32) returns (ok: bool)
    requires bb.position == HeaderSize <= |bb.data|
    modifies g, bb
    ensures HeaderSize + RecordSize * WholeRecords(bb.data, HeaderSize, Max0(count)) <= |bb.data|
    ensures ok <==> WholeRecords(bb.data, HeaderSize, Max0(count)) == Max0(count)
    ensures g.image == old(g.image).(outlines := old(g.image).outlines + RectsOf(QuadsAt(bb.data, HeaderSize, WholeRecords(bb.data, HeaderSize, Max0(count)))))
  {
    ghost var n := WholeRecords(bb.data, HeaderSize, Max0(count));
    ghost var drawn: seq<Quad> := [];
    var i := 0;
    while i < count as int
      invariant 0 <= i <= n
      invariant bb.position == HeaderSize + RecordSize * i
      invariant drawn == QuadsAt(bb.data, HeaderSize, i)
      invariant g.image == old(g.image).(outlines := old(g.image).outlines + RectsOf(drawn))
    {
      var q := ReadRecord(bb);
      if q.None? {
        return false;
      }
      QuadsAtSnoc(bb.data, HeaderSize, i);
      RectsOfSnoc(drawn, q.value);
      drawn := drawn + [q.value];
      g.Draw(ToRect(q.value));
      i := i + 1;
    }
    return true;
  }

  /**
   * `drawPatches(g, patches)`: reads the header, then the records. `ok` is
   * false when a read underflows; the rectangles stroked before that stay on
   * the canvas.
   */
  method DrawPatches(g: Canvas, patches: seq<byte>) returns (ok: bool)
    modifies g
    ensures ok <==> DecodePatches(patches).Decoded?
    ensures g.image == old(g.image).(outlines := old(g.image).outlines + RectsOf(DrawnQuads(patches)))
  {
    var bb := new ByteBuffer.Wrap(patches);
    var count := bb.GetInt();
    if count.None? {
      return false;
    }
    var distance := bb.GetDouble();
    if distance.None? {
      return false;
    }
    ok := DrawRecords(g, bb, count.value);
    DrawnQuadsClosedForm(patches);
  }
}
