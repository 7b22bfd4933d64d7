/** The binary VMD file (vmd_loader.h, `saveVmd` and `loadVmd`): the mask byte, the vertex
    count and the index count as little-endian u32, then the vertex floats and the indices,
    four bytes each, with no padding. */
module VmdBinary {
  import opened VmdData

  /** Mask byte plus the two counts. */
  const HEADER_SIZE: nat := 9

  /** A u32 as four little-endian bytes (the pointer cast of the source on a little-endian
      machine). */
  function LE32(x: U32): (b: seq<Byte>)
    ensures |b| == 4
  {
    [x % 256, (x / 0x100) % 256, (x / 0x1_0000) % 256, x / 0x100_0000]
  }

  /** The u32 stored little-endian in four bytes. */
  function U32Of(b: seq<Byte>): (x: U32)
    requires |b| == 4
    ensures x % 256 == b[0] && x / 0x100_0000 == b[3]
  {
    b[0] as int + 0x100 * b[1] as int + 0x1_0000 * b[2] as int + 0x100_0000 * b[3] as int
  }

  lemma {:induction false} U32OfLE32(x: U32)
    ensures U32Of(LE32(x)) == x
  {
    var b := LE32(x);
    var q1 := x / 0x100;
    var q2 := q1 / 0x100;
    assert x == b[0] + 0x100 * q1;
    assert q1 == b[1] + 0x100 * q2;
    assert q2 == b[2] as int + 0x100 * b[3] as int;
    assert x / 0x1_0000 == q2;
    assert x / 0x100_0000 == q2 / 0x100;
  }

  lemma {:induction false} LE32U32Of(b: seq<Byte>)
    requires |b| == 4
    ensures LE32(U32Of(b)) == b
  {
    var x := U32Of(b);
    var q2: int := b[2] as int + 0x100 * b[3] as int;
    var q1: int := b[1] as int + 0x100 * q2;
    assert x == b[0] as int + 0x100 * q1;
    assert x % 256 == b[0] && x / 0x100 == q1;
    assert q1 % 256 == b[1] && q1 / 0x100 == q2;
    assert x / 0x1_0000 == q2;
    assert x / 0x100_0000 == q2 / 0x100;
  }

  /** The u32 at byte offset `off`. */
  function U32At(data: seq<Byte>, off: nat): U32
    requires off + 4 <= |data|
  {
    U32Of(data[off..off + 4])
  }

  /** Each 32-bit value in turn as four little-endian bytes (`fwrite` of a buffer). */
  function Words(ws: seq<U32>): (b: seq<Byte>)
    ensures |b| == 4 * |ws|
  {
    if ws == [] then [] else LE32(ws[0]) + Words(ws[1..])
  }

  /** The `n` 32-bit values stored from byte offset `off` (`memcpy` into a buffer). */
  function WordsAt(data: seq<Byte>, off: nat, n: nat): (ws: seq<U32>)
    requires off + 4 * n <= |data|
    ensures |ws| == n
  {
    seq(n, i requires 0 <= i < n => U32At(data, off + 4 * i))
  }

  /** Reading back bytes written by `Words` gives the values written. */
  lemma {:induction false} WordsAtWords(data: seq<Byte>, off: nat, ws: seq<U32>)
    requires off + 4 * |ws| <= |data|
    requires data[off..off + 4 * |ws|] == Words(ws)
    ensures WordsAt(data, off, |ws|) == ws
    decreases |ws|
  {
    if ws != [] {
      var rest := ws[1..];
      assert data[off..off + 4] == LE32(ws[0]) by {
        assert data[off..off + 4] == data[off..off + 4 * |ws|][..4];
      }
      U32OfLE32(ws[0]);
      assert data[off + 4..off + 4 + 4 * |rest|] == Words(rest) by {
        assert data[off + 4..off + 4 + 4 * |rest|] == data[off..off + 4 * |ws|][4..];
      }
      WordsAtWords(data, off + 4, rest);
      var got := WordsAt(data, off, |ws|);
      forall i | 0 <= i < |ws| ensures got[i] == ws[i] {
        if i > 0 {
          assert got[i] == WordsAt(data, off + 4, |rest|)[i - 1];
        }
      }
    }
  }

  /** Writing back values read by `WordsAt` gives the bytes read. */
  lemma {:induction false} WordsWordsAt(data: seq<Byte>, off: nat, n: nat)
    requires off + 4 * n <= |data|
    ensures Words(WordsAt(data, off, n)) == data[off..off + 4 * n]
    decreases n
  {
    if n > 0 {
      var ws := WordsAt(data, off, n);
      var rest := WordsAt(data, off + 4, n - 1);
      assert ws[1..] == rest;
      WordsWordsAt(data, off + 4, n - 1);
      LE32U32Of(data[off..off + 4]);
      assert data[off..off + 4 * n] == data[off..off + 4] + data[off + 4..off + 4 + 4 * (n - 1)];
    }
  }

  /** The bytes `saveVmd` writes for a mesh. */
  function SaveVmd(m: Mesh): (bytes: seq<Byte>)
    requires WellFormed(m)
    ensures |bytes| == HEADER_SIZE + m.vertexCount * VertexSize(m.mask) + m.indexCount * 4
    ensures bytes[0] == m.mask
  {
    assert 4 * |m.vertices| == m.vertexCount * VertexSize(m.mask);
    [m.mask] + LE32(m.vertexCount) + LE32(m.indexCount) + Words(m.vertices) + Words(m.indices)
  }

  /** What `loadVmd` makes of a byte buffer: the header fields, a length check against
      the size they announce, then the two blocks. */
  function DecodeVmd(data: seq<Byte>): (r: Result<Mesh>)
    ensures r.Ok? ==> WellFormed(r.value)
    ensures r.Ok? ==> |data| == HEADER_SIZE + r.value.vertexCount * VertexSize(r.value.mask)
                                + r.value.indexCount * 4
    ensures |data| < HEADER_SIZE ==> r == Err(HeaderTruncated)
    ensures |data| >= HEADER_SIZE ==>
      (r.Ok? <==> |data| == HEADER_SIZE + U32At(data, 1) * VertexSize(data[0]) + U32At(data, 5) * 4)
  {
    if |data| < HEADER_SIZE then Err(HeaderTruncated)
    else
      var mask := data[0];
      var vertexCount := U32At(data, 1);
      var indexCount := U32At(data, 5);
      var floats := vertexCount * VertexComponents(mask);
      assert vertexCount * VertexSize(mask) == 4 * floats;
      if HEADER_SIZE + 4 * floats + 4 * indexCount != |data| then Err(SizeMismatch)
      else
        Ok(Mesh(mask, vertexCount, indexCount,
                WordsAt(data, HEADER_SIZE, floats),
                WordsAt(data, HEADER_SIZE + 4 * floats, indexCount)))
  }

  /** `loadVmd`: reads the header through a cursor, rejects a length that differs from
      the announced one before allocating anything, then copies the vertex block and
      the index block into fresh buffers. */
  method LoadVmd(data: seq<Byte>) returns (r: Result<Mesh>)
    ensures r == DecodeVmd(data)
  {
    if |data| < HEADER_SIZE {
      return Err(HeaderTruncated);
    }
    var mask := data[0];
    var offset := 1;
    var vertexCount := U32At(data, offset);
    offset := offset + 4;
    var indexCount := U32At(data, offset);
    offset := offset + 4;

    var vertSize := VertexSize(mask);
    if offset + vertexCount * vertSize + indexCount * 4 != |data| {
      return Err(SizeMismatch);
    }

    var floats := vertexCount * VertexComponents(mask);
    assert vertexCount * vertSize == 4 * floats;
    var vertices := CopyWords(data, offset, floats);
    offset := offset + vertexCount * vertSize;
    var indices := CopyWords(data, offset, indexCount);
    r := Ok(Mesh(mask, vertexCount, indexCount, vertices[..], indices[..]));
  }

  /** The `memcpy` of `n` 32-bit values from byte offset `off` into a fresh buffer. */
  method CopyWords(data: seq<Byte>, off: nat, n: nat) returns (buf: array<U32>)
    requires off + 4 * n <= |data|
    ensures fresh(buf)
    ensures buf[..] == WordsAt(data, off, n)
  {
    buf := new U32[n];
    var i := 0;
    while i < n
      invariant i <= n
      invariant forall q :: 0 <= q < i ==> buf[q] == U32At(data, off + 4 * q)
    {
      buf[i] := U32At(data, off + 4 * i);
      i := i + 1;
    }
  }

  /** Decoding an encoded mesh gives the mesh back: mask, counts, every vertex float and
      every index. */
  lemma LoadSaveRoundTrip(m: Mesh)
    requires WellFormed(m)
    ensures DecodeVmd(SaveVmd(m)) == Ok(m)
  {
    var d := SaveVmd(m);
    assert d[1..5] == LE32(m.vertexCount);
    assert d[5..9] == LE32(m.indexCount);
    U32OfLE32(m.vertexCount);
    U32OfLE32(m.indexCount);
    BlocksOfSaved(m);
  }

  /** The two blocks of an encoded mesh read back as its vertices and its indices. */
  lemma BlocksOfSaved(m: Mesh)
    requires WellFormed(m)
    ensures var d, off := SaveVmd(m), HEADER_SIZE + 4 * |m.vertices|;
      && WordsAt(d, HEADER_SIZE, |m.vertices|) == m.vertices
      && WordsAt(d, off, |m.indices|) == m.indices
  {
    var d := SaveVmd(m);
    var vb := Words(m.vertices);
    assert d[HEADER_SIZE..HEADER_SIZE + 4 * |m.vertices|] == vb;
    WordsAtWords(d, HEADER_SIZE, m.vertices);
    assert d[HEADER_SIZE + |vb|..HEADER_SIZE + |vb| + 4 * |m.indices|] == Words(m.indices);
    WordsAtWords(d, HEADER_SIZE + |vb|, m.indices);
  }

  /** Every buffer `loadVmd` accepts is exactly the encoding of what it decodes to:
      decoding loses nothing and accepts no byte beyond the announced blocks. */
  lemma SaveLoadRoundTrip(data: seq<Byte>)
    requires DecodeVmd(data).Ok?
    ensures SaveVmd(DecodeVmd(data).value) == data
  {
    var m := DecodeVmd(data).value;
    var vbytes := 4 * |m.vertices|;
    var header, vblock, iblock := data[..HEADER_SIZE], data[HEADER_SIZE..HEADER_SIZE + vbytes],
                                  data[HEADER_SIZE + vbytes..];
    HeaderOfDecoded(data);
    BlocksOfDecoded(data);
    assert data == header + vblock + iblock;
  }

  /** The vertex block and the index block of an accepted buffer are the encodings of
      the decoded vertices and indices. */
  lemma BlocksOfDecoded(data: seq<Byte>)
    requires DecodeVmd(data).Ok?
    ensures var m := DecodeVmd(data).value;
      HEADER_SIZE + 4 * |m.vertices| <= |data| &&
      Words(m.vertices) == data[HEADER_SIZE..HEADER_SIZE + 4 * |m.vertices|] &&
      Words(m.indices) == data[HEADER_SIZE + 4 * |m.vertices|..]
  {
    var m := DecodeVmd(data).value;
    var off := HEADER_SIZE + 4 * |m.vertices|;
    VertexBlockOfDecoded(data);
    WordsWordsAt(data, off, |m.indices|);
    assert data[off..off + 4 * |m.indices|] == data[off..];
  }

  /** The vertex block of an accepted buffer is the encoding of the decoded vertices. */
  lemma VertexBlockOfDecoded(data: seq<Byte>)
    requires DecodeVmd(data).Ok?
    ensures var m := DecodeVmd(data).value;
      HEADER_SIZE + 4 * |m.vertices| <= |data| &&
      Words(m.vertices) == data[HEADER_SIZE..HEADER_SIZE + 4 * |m.vertices|] &&
      m.indices == WordsAt(data, HEADER_SIZE + 4 * |m.vertices|, |m.indices|)
  {
    var m := DecodeVmd(data).value;
    assert m.vertices == WordsAt(data, HEADER_SIZE, |m.vertices|);
    WordsWordsAt(data, HEADER_SIZE, |m.vertices|);
  }

  /** The header of an accepted buffer is the encoding of the decoded mask and counts. */
  lemma HeaderOfDecoded(data: seq<Byte>)
    requires DecodeVmd(data).Ok?
    ensures var m := DecodeVmd(data).value;
      data[..HEADER_SIZE] == [m.mask] + LE32(m.vertexCount) + LE32(m.indexCount)
  {
    LE32U32Of(data[1..5]);
    LE32U32Of(data[5..9]);
    assert data[..HEADER_SIZE] == [data[0]] + data[1..5] + data[5..9];
  }

  /** The strict length check: a valid file with its last byte cut off, or with one byte
      appended, is rejected. */
  lemma RejectsOffByOneLength(m: Mesh, extra: Byte)
    requires WellFormed(m)
    ensures DecodeVmd(SaveVmd(m)[..|SaveVmd(m)| - 1]).Err?
    ensures DecodeVmd(SaveVmd(m) + [extra]).Err?
  {
    var d := SaveVmd(m);
    LoadSaveRoundTrip(m);
    var shorter, longer := d[..|d| - 1], d + [extra];
    if |shorter| >= HEADER_SIZE {
      assert shorter[..HEADER_SIZE] == d[..HEADER_SIZE];
      assert shorter[1..5] == d[1..5] && shorter[5..9] == d[5..9];
    }
    assert longer[1..5] == d[1..5] && longer[5..9] == d[5..9];
  }
}
