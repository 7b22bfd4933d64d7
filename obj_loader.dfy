/** The OBJ to VMD conversion of `loadObj` (main.c): the parser's separately indexed
    attribute streams become one interleaved vertex buffer and one flat index buffer,
    with each distinct face-corner key stored once. */
module ObjLoader {
  import opened VmdData

  /** A face corner's position, normal and texture-coordinate indices, as the u32 values
      the converter compares and stores. */
  datatype Key = Key(v: U32, vn: U32, vt: U32)

  /** What the converter reads from the parser's output: the flat attribute arrays
      (3 floats per position and per normal, 2 per texture coordinate), the corner keys
      of all faces, and the number of corners of each face. */
  datatype Attrib = Attrib(
    vertices: seq<Float32>,
    normals: seq<Float32>,
    texcoords: seq<Float32>,
    faces: seq<Key>,
    faceNumVerts: seq<nat>)

  /** The first shape of the file: its first face and its number of faces. */
  datatype Shape = Shape(faceOffset: nat, length: nat)

  /** The parser runs with triangulation on: every face of the shape has three corners,
      and the keys of the shape's corners are all present. */
  predicate Triangulated(a: Attrib, shape: Shape) {
    && shape.faceOffset + shape.length <= |a.faceNumVerts|
    && 3 * shape.length <= |a.faces|
    && forall f :: shape.faceOffset <= f < shape.faceOffset + shape.length ==> a.faceNumVerts[f] == 3
  }

  /** The corner keys the loop visits, in order. */
  function Corners(a: Attrib, shape: Shape): (ks: seq<Key>)
    requires Triangulated(a, shape)
    ensures |ks| == 3 * shape.length
  {
    a.faces[..3 * shape.length]
  }

  /** The mask of the converted mesh: a normal when the file has normals, a texture
      coordinate when it has texture coordinates, never a color. */
  function ObjMask(a: Attrib): (mask: Byte)
    ensures HasNormal(mask) <==> |a.normals| > 0
    ensures HasTexcoord(mask) <==> |a.texcoords| > 0
    ensures !HasColor(mask)
  {
    var m := if |a.normals| > 0 then SetBit(0, NORMAL_BIT) else 0;
    if |a.texcoords| > 0 then SetBit(m, TEXCOORD_BIT) else m
  }

  /** C's unary minus on a binary32 value: it flips the sign bit and keeps the other 31
      bits. */
  function Neg(x: Float32): (r: Float32)
    ensures r != x && r % 0x8000_0000 == x % 0x8000_0000
  {
    (x + 0x8000_0000) % TWO_32
  }

  /** The attribute arrays hold every value the record of `key` reads. */
  predicate InRange(a: Attrib, mask: Byte, key: Key) {
    && 3 * key.v + 2 < |a.vertices|
    && (HasNormal(mask) ==> 3 * key.vn + 2 < |a.normals|)
    && (HasTexcoord(mask) ==> 2 * key.vt + 1 < |a.texcoords|)
  }

  /** The vertex record appended for a new key: the position, then the normal when the
      mask has one, then the texture coordinate when the mask has one. */
  function Record(a: Attrib, mask: Byte, key: Key, oneMinus: Float32 -> Float32): (rec: seq<Float32>)
    requires InRange(a, mask, key) && !HasColor(mask)
    ensures |rec| == VertexComponents(mask)
  {
    PositionOf(a, key)
      + (if HasNormal(mask) then NormalOf(a, key) else [])
      + (if HasTexcoord(mask) then TexcoordOf(a, key, oneMinus) else [])
  }

  /** The position of a record: the file's (x, y, z) as (-x, z, y). */
  function PositionOf(a: Attrib, key: Key): (p: seq<Float32>)
    requires 3 * key.v + 2 < |a.vertices|
    ensures |p| == 3
  {
    [Neg(a.vertices[3 * key.v]), a.vertices[3 * key.v + 2], a.vertices[3 * key.v + 1]]
  }

  /** The normal of a record, remapped like the position. */
  function NormalOf(a: Attrib, key: Key): (n: seq<Float32>)
    requires 3 * key.vn + 2 < |a.normals|
    ensures |n| == 3
  {
    [Neg(a.normals[3 * key.vn]), a.normals[3 * key.vn + 2], a.normals[3 * key.vn + 1]]
  }

  /** The texture coordinate of a record: (u, v) as (u, 1 - v); `oneMinus` is the float
      subtraction 1.0f - v. */
  function TexcoordOf(a: Attrib, key: Key, oneMinus: Float32 -> Float32): (t: seq<Float32>)
    requires 2 * key.vt + 1 < |a.texcoords|
    ensures |t| == 2
  {
    [a.texcoords[2 * key.vt], oneMinus(a.texcoords[2 * key.vt + 1])]
  }

  predicate AllInRange(a: Attrib, mask: Byte, keys: seq<Key>) {
    forall k :: k in keys ==> InRange(a, mask, k)
  }

  /** The vertex buffer holding the records of `keys`, one after the other. */
  function Layout(a: Attrib, mask: Byte, keys: seq<Key>, oneMinus: Float32 -> Float32): (fs: seq<Float32>)
    requires AllInRange(a, mask, keys) && !HasColor(mask)
    ensures |fs| == Span(|keys|, VertexComponents(mask))
  {
    if keys == [] then []
    else
      var n := |keys| - 1;
      Layout(a, mask, keys[..n], oneMinus) + Record(a, mask, keys[n], oneMinus)
  }

  /** The record of the key stored at position `q` fills floats `Span(q, c)` up to
      `Span(q + 1, c)` of the layout, for `c` floats per record. */
  lemma {:induction false} LayoutAt(a: Attrib, mask: Byte, keys: seq<Key>, oneMinus: Float32 -> Float32, q: nat)
    requires AllInRange(a, mask, keys) && !HasColor(mask)
    requires q < |keys|
    ensures Span(q + 1, VertexComponents(mask)) <= Span(|keys|, VertexComponents(mask))
    ensures Layout(a, mask, keys, oneMinus)[Span(q, VertexComponents(mask))..Span(q + 1, VertexComponents(mask))]
            == Record(a, mask, keys[q], oneMinus)
    decreases |keys|
  {
    var c := VertexComponents(mask);
    var n := |keys| - 1;
    var prefix := Layout(a, mask, keys[..n], oneMinus);
    var rec := Record(a, mask, keys[n], oneMinus);
    assert Layout(a, mask, keys, oneMinus) == prefix + rec;
    if q < n {
      assert (prefix + rec)[Span(q, c)..Span(q + 1, c)] == Record(a, mask, keys[q], oneMinus) by {
        LayoutAt(a, mask, keys[..n], oneMinus, q);
        assert keys[..n][q] == keys[q];
        SliceOfConcat(prefix, rec, Span(q, c), Span(q + 1, c));
      }
      SpanMono(q + 1, n, c);
    } else {
      assert (prefix + rec)[Span(q, c)..Span(q + 1, c)] == rec by {
        SliceOfConcat(prefix, rec, Span(q, c), Span(q + 1, c));
      }
    }
  }

  /** `s` with the floats from `offset` on replaced by `part`. */
  function Splice(s: seq<Float32>, offset: nat, part: seq<Float32>): (r: seq<Float32>)
    requires offset + |part| <= |s|
    ensures |r| == |s|
  {
    s[..offset] + part + s[offset + |part|..]
  }

  /** Two writes side by side are one write of both parts. */
  lemma SpliceTwice(s: seq<Float32>, offset: nat, p1: seq<Float32>, p2: seq<Float32>)
    requires offset + |p1| + |p2| <= |s|
    ensures Splice(Splice(s, offset, p1), offset + |p1|, p2) == Splice(s, offset, p1 + p2)
  {
    var t := Splice(s, offset, p1);
    assert t[..offset + |p1|] == s[..offset] + p1;
    assert t[offset + |p1| + |p2|..] == s[offset + |p1| + |p2|..];
  }

  /** A buffer that agrees with `before` outside `part`'s place at `offset` and holds
      `part` there. */
  lemma Spliced(before: seq<Float32>, after: seq<Float32>, offset: nat, part: seq<Float32>)
    requires |after| == |before| && offset + |part| <= |before|
    requires forall q :: 0 <= q < |after| && (q < offset || offset + |part| <= q) ==> after[q] == before[q]
    requires forall q :: 0 <= q < |part| ==> after[offset + q] == part[q]
    ensures after == Splice(before, offset, part)
  {
  }

  lemma SliceOfConcat(p: seq<Float32>, r: seq<Float32>, x: nat, y: nat)
    requires x <= y <= |p| + |r|
    ensures y <= |p| ==> (p + r)[x..y] == p[x..y]
    ensures x == |p| && y == |p| + |r| ==> (p + r)[x..y] == r
  {
  }

  /** The number of floats in `n` records of `c` floats each, summed record by record. */
  function Span(n: nat, c: nat): nat {
    if n == 0 then 0 else Span(n - 1, c) + c
  }

  lemma {:induction false} SpanIsProduct(n: nat, c: nat)
    ensures Span(n, c) == n * c
  {
    if n > 0 {
      SpanIsProduct(n - 1, c);
      assert n * c == (n - 1) * c + c;
    }
  }

  lemma {:induction false} SpanMono(q: nat, n: nat, c: nat)
    requires q <= n
    ensures Span(q, c) <= Span(n, c)
    decreases n
  {
    if q < n {
      SpanMono(q, n - 1, c);
    }
  }

  // ---------------------------------------------------------------------------
  // The reference deduplication: an exact interning of keys, with no shortcut.

  /** The stored keys, and for each visited corner the index of its stored key. */
  datatype Interning = Interning(stored: seq<Key>, refs: seq<nat>)

  /** Position of `key` in `s`. */
  function IndexOf(s: seq<Key>, key: Key): (i: nat)
    requires key in s
    ensures i < |s| && s[i] == key
  {
    if s[0] == key then 0 else 1 + IndexOf(s[1..], key)
  }

  predicate Distinct(s: seq<Key>) {
    forall i, j :: 0 <= i < j < |s| ==> s[i] != s[j]
  }

  /** Exact interning of a key stream: a key seen for the first time is stored after the
      earlier ones, a key seen before refers to its stored copy. */
  function Intern(keys: seq<Key>): (r: Interning)
    ensures |r.refs| == |keys| && |r.stored| <= |keys|
    decreases |keys|
  {
    if keys == [] then Interning([], [])
    else
      var n := |keys| - 1;
      var prev := Intern(keys[..n]);
      var key := keys[n];
      if key in prev.stored then Interning(prev.stored, prev.refs + [IndexOf(prev.stored, key)])
      else Interning(prev.stored + [key], prev.refs + [|prev.stored|])
  }

  /** Every corner refers to a stored copy of its key, the stored keys are pairwise
      distinct, and a key is stored exactly when it occurs in the stream. */
  lemma InternSpec(keys: seq<Key>)
    ensures var r := Intern(keys);
      && (forall i :: 0 <= i < |keys| ==> r.refs[i] < |r.stored| && r.stored[r.refs[i]] == keys[i])
      && Distinct(r.stored)
      && (forall k :: k in r.stored <==> k in keys)
  {
    InternRefs(keys);
    InternDistinct(keys);
    InternMembers(keys);
  }

  lemma {:induction false} InternRefs(keys: seq<Key>)
    ensures var r := Intern(keys);
      forall i :: 0 <= i < |keys| ==> r.refs[i] < |r.stored| && r.stored[r.refs[i]] == keys[i]
    decreases |keys|
  {
    if keys != [] {
      var n := |keys| - 1;
      InternRefs(keys[..n]);
      var prev, r := Intern(keys[..n]), Intern(keys);
      assert r.refs[..n] == prev.refs && r.stored[..|prev.stored|] == prev.stored;
      forall i | 0 <= i < |keys|
        ensures r.refs[i] < |r.stored| && r.stored[r.refs[i]] == keys[i]
      {
        if i < n {
          assert keys[..n][i] == keys[i] && r.refs[i] == prev.refs[i];
        }
      }
    }
  }

  lemma {:induction false} InternDistinct(keys: seq<Key>)
    ensures Distinct(Intern(keys).stored)
    decreases |keys|
  {
    if keys != [] {
      var n := |keys| - 1;
      InternDistinct(keys[..n]);
    }
  }

  lemma {:induction false} InternMembers(keys: seq<Key>)
    ensures forall k :: k in Intern(keys).stored <==> k in keys
    decreases |keys|
  {
    if keys != [] {
      var n := |keys| - 1;
      InternMembers(keys[..n]);
      assert keys == keys[..n] + [keys[n]];
    }
  }

  /** The number of stored keys is the number of distinct keys in the stream. */
  lemma InternCountsDistinct(keys: seq<Key>)
    ensures |Intern(keys).stored| == |set k | k in keys|
  {
    var s := Intern(keys).stored;
    InternSpec(keys);
    assert (set k | k in keys) == (set k | k in s);
    DistinctCard(s);
  }

  lemma {:induction false} DistinctCard(s: seq<Key>)
    requires Distinct(s)
    ensures |set k | k in s| == |s|
    decreases |s|
  {
    if s != [] {
      var n := |s| - 1;
      DistinctCard(s[..n]);
      assert (set k | k in s) == (set k | k in s[..n]) + {s[n]};
      assert s[n] !in s[..n];
    }
  }

  // ---------------------------------------------------------------------------
  // The running maximum that lets the loop skip the backward scan.

  predicate Dominated(key: Key, bound: Key) {
    key.v <= bound.v && key.vn <= bound.vn && key.vt <= bound.vt
  }

  function Max(x: U32, y: U32): U32 { if x < y then y else x }

  /** Componentwise maximum of (0, 0, 0) and the keys of `s`. */
  function MaxKey(s: seq<Key>): Key
    decreases |s|
  {
    if s == [] then Key(0, 0, 0)
    else
      var n := |s| - 1;
      var prev := MaxKey(s[..n]);
      Key(Max(prev.v, s[n].v), Max(prev.vn, s[n].vn), Max(prev.vt, s[n].vt))
  }

  /** The maximum dominates every key of `s`, and each of its components is 0 or the
      component of some key of `s`. */
  lemma {:induction false} MaxKeyBounds(s: seq<Key>)
    ensures var m := MaxKey(s);
      && (forall q :: 0 <= q < |s| ==> Dominated(s[q], m))
      && (m.v == 0 || exists q :: 0 <= q < |s| && s[q].v == m.v)
      && (m.vn == 0 || exists q :: 0 <= q < |s| && s[q].vn == m.vn)
      && (m.vt == 0 || exists q :: 0 <= q < |s| && s[q].vt == m.vt)
    decreases |s|
  {
    if s != [] {
      var n := |s| - 1;
      MaxKeyBounds(s[..n]);
      assert s == s[..n] + [s[n]];
      var prev, m := MaxKey(s[..n]), MaxKey(s);
      forall q | 0 <= q < |s| ensures Dominated(s[q], m) {
        if q < n {
          assert s[..n][q] == s[q];
        }
      }
      if prev.v != 0 && m.v == prev.v {
        var q :| 0 <= q < n && s[..n][q].v == prev.v;
        assert s[q].v == m.v;
      }
      if prev.vn != 0 && m.vn == prev.vn {
        var q :| 0 <= q < n && s[..n][q].vn == prev.vn;
        assert s[q].vn == m.vn;
      }
      if prev.vt != 0 && m.vt == prev.vt {
        var q :| 0 <= q < n && s[..n][q].vt == prev.vt;
        assert s[q].vt == m.vt;
      }
    }
  }

  /** The shortcut is safe: a key not dominated by the running maximum is not stored. */
  lemma SkipIsSafe(stored: seq<Key>, key: Key)
    requires !Dominated(key, MaxKey(stored))
    ensures key !in stored
  {
    MaxKeyBounds(stored);
  }

  // ---------------------------------------------------------------------------
  // One more key at the end of the stream.

  lemma InternSnoc(keys: seq<Key>, key: Key)
    ensures var prev := Intern(keys);
      Intern(keys + [key]) ==
        if key in prev.stored then Interning(prev.stored, prev.refs + [IndexOf(prev.stored, key)])
        else Interning(prev.stored + [key], prev.refs + [|prev.stored|])
  {
    assert (keys + [key])[..|keys|] == keys;
  }

  lemma MaxKeySnoc(s: seq<Key>, key: Key)
    ensures var m := MaxKey(s);
      MaxKey(s + [key]) == Key(Max(m.v, key.v), Max(m.vn, key.vn), Max(m.vt, key.vt))
  {
    assert (s + [key])[..|s|] == s;
  }

  lemma LayoutSnoc(a: Attrib, mask: Byte, keys: seq<Key>, key: Key, oneMinus: Float32 -> Float32)
    requires AllInRange(a, mask, keys) && InRange(a, mask, key) && !HasColor(mask)
    ensures AllInRange(a, mask, keys + [key])
    ensures Layout(a, mask, keys + [key], oneMinus) == Layout(a, mask, keys, oneMinus) + Record(a, mask, key, oneMinus)
  {
    assert (keys + [key])[..|keys|] == keys;
  }

  // ---------------------------------------------------------------------------
  // The loop of the converter, one corner at a time.

  /** What the loop has built after some corners: the stored keys (`objVerts`), the
      index of each corner, the vertex floats written so far, and the running maximum. */
  datatype LoopState = LoopState(stored: seq<Key>, refs: seq<nat>, verts: seq<Float32>, max: Key)

  /** Position of the last copy of `key` in `s`: where the backward scan stops. */
  function LastIndexOf(s: seq<Key>, key: Key): (i: nat)
    requires key in s
    ensures i < |s| && s[i] == key
    ensures forall j :: i < j < |s| ==> s[j] != key
  {
    var n := |s| - 1;
    if s[n] == key then n
    else
      assert s == s[..n] + [s[n]];
      LastIndexOf(s[..n], key)
  }

  /** The maximum after the componentwise raises by `v`. */
  function Raise(m: Key, v: Key): (r: Key)
    ensures Dominated(m, r) && Dominated(v, r)
    ensures Dominated(v, m) ==> r == m
  {
    Key(Max(m.v, v.v), Max(m.vn, v.vn), Max(m.vt, v.vt))
  }

  /** One corner `v` of the loop: when `v` is dominated by the running maximum, the scan
      for a stored copy, otherwise the raise of the maximum; when no copy is found, the
      new record and the new stored key. The record of a new key must lie inside the
      attribute arrays. */
  function Visit(a: Attrib, mask: Byte, oneMinus: Float32 -> Float32, st: LoopState, v: Key): (r: Result<LoopState>)
    requires !HasColor(mask)
    ensures r.Err? ==> !InRange(a, mask, v)
    ensures r.Ok? ==> |r.value.refs| == |st.refs| + 1 && |st.stored| <= |r.value.stored| <= |st.stored| + 1
    ensures r.Ok? ==> r.value.refs[|st.refs|] < |r.value.stored| && r.value.stored[r.value.refs[|st.refs|]] == v
    ensures r.Ok? ==> Dominated(v, r.value.max)
  {
    if Dominated(v, st.max) && v in st.stored then
      Ok(st.(refs := st.refs + [LastIndexOf(st.stored, v)]))
    else if !InRange(a, mask, v) then
      Err(AttributeIndexOutOfRange)
    else
      var max := if Dominated(v, st.max) then st.max else Raise(st.max, v);
      Ok(LoopState(st.stored + [v], st.refs + [|st.stored|], st.verts + Record(a, mask, v, oneMinus), max))
  }

  /** The loop from corner `from` up to corner `n` of `keys`, starting in `st` and
      stopping at the first corner whose record would read outside the attribute arrays. */
  function Walk(a: Attrib, mask: Byte, oneMinus: Float32 -> Float32, st: Result<LoopState>, keys: seq<Key>,
                from: nat, n: nat): (r: Result<LoopState>)
    requires !HasColor(mask) && from <= n <= |keys|
    decreases n - from
  {
    if from == n || st.Err? then st
    else Walk(a, mask, oneMinus, Visit(a, mask, oneMinus, st.value, keys[from]), keys, from + 1, n)
  }

  /** The loop over the first `n` corner keys of `keys`. */
  function Run(a: Attrib, mask: Byte, oneMinus: Float32 -> Float32, keys: seq<Key>, n: nat): (r: Result<LoopState>)
    requires !HasColor(mask) && n <= |keys|
    ensures r.Ok? ==> |r.value.refs| == n
  {
    WalkLength(a, mask, oneMinus, Ok(LoopState([], [], [], Key(0, 0, 0))), keys, 0, n);
    Walk(a, mask, oneMinus, Ok(LoopState([], [], [], Key(0, 0, 0))), keys, 0, n)
  }

  /** Each corner walked adds one index. */
  lemma {:induction false} WalkLength(a: Attrib, mask: Byte, oneMinus: Float32 -> Float32, st: Result<LoopState>,
                                      keys: seq<Key>, from: nat, n: nat)
    requires !HasColor(mask) && from <= n <= |keys|
    ensures var r := Walk(a, mask, oneMinus, st, keys, from, n);
      r.Ok? ==> st.Ok? && |r.value.refs| == |st.value.refs| + (n - from)
    decreases n - from
  {
    if from < n && st.Ok? {
      WalkLength(a, mask, oneMinus, Visit(a, mask, oneMinus, st.value, keys[from]), keys, from + 1, n);
    }
  }

  /** One more corner is one more `Visit`, unless the loop has already failed. */
  lemma {:induction false} WalkSnoc(a: Attrib, mask: Byte, oneMinus: Float32 -> Float32, st: Result<LoopState>,
                                    keys: seq<Key>, from: nat, n: nat)
    requires !HasColor(mask) && from <= n < |keys|
    ensures var prev := Walk(a, mask, oneMinus, st, keys, from, n);
      Walk(a, mask, oneMinus, st, keys, from, n + 1)
        == if prev.Err? then prev else Visit(a, mask, oneMinus, prev.value, keys[n])
    decreases n - from
  {
    if from < n && st.Ok? {
      WalkSnoc(a, mask, oneMinus, Visit(a, mask, oneMinus, st.value, keys[from]), keys, from + 1, n);
    }
  }

  /** `Run` one corner further. */
  lemma RunStep(a: Attrib, mask: Byte, oneMinus: Float32 -> Float32, keys: seq<Key>, n: nat)
    requires !HasColor(mask) && n < |keys|
    ensures var prev := Run(a, mask, oneMinus, keys, n);
      Run(a, mask, oneMinus, keys, n + 1) == if prev.Err? then prev else Visit(a, mask, oneMinus, prev.value, keys[n])
  {
    WalkSnoc(a, mask, oneMinus, Ok(LoopState([], [], [], Key(0, 0, 0))), keys, 0, n);
  }

  /** Once a corner fails, the whole loop fails. */
  lemma {:induction false} RunErrSticky(a: Attrib, mask: Byte, oneMinus: Float32 -> Float32, keys: seq<Key>,
                                        done: nat, n: nat)
    requires !HasColor(mask) && done <= n <= |keys|
    requires Run(a, mask, oneMinus, keys, done).Err?
    ensures Run(a, mask, oneMinus, keys, n).Err?
    decreases n
  {
    if done < n {
      RunErrSticky(a, mask, oneMinus, keys, done, n - 1);
      RunStep(a, mask, oneMinus, keys, n - 1);
    }
  }

  /** In a sequence of distinct keys, the backward and the forward search agree. */
  lemma LastIndexOfDistinct(s: seq<Key>, key: Key)
    requires Distinct(s) && key in s
    ensures LastIndexOf(s, key) == IndexOf(s, key)
  {
  }

  /** The loop state is the reference state of the keys `keys`: their interning, the
      records of the stored keys in order, and the componentwise maximum of the stored
      keys. */
  ghost predicate IsReference(a: Attrib, mask: Byte, oneMinus: Float32 -> Float32, keys: seq<Key>, st: LoopState)
    requires !HasColor(mask)
  {
    && st.stored == Intern(keys).stored
    && st.refs == Intern(keys).refs
    && AllInRange(a, mask, st.stored)
    && st.verts == Layout(a, mask, st.stored, oneMinus)
    && st.max == MaxKey(st.stored)
  }

  /** The loop computes the reference conversion: it fails exactly when some corner's
      record would read outside the attribute arrays, and otherwise stores exactly the
      interned keys, gives every corner the index of its interned key, writes the records
      of the stored keys in order, and keeps the componentwise maximum of the stored keys.
      In particular the maximum shortcut never skips a stored key. */
  lemma {:induction false} RunIsReference(a: Attrib, mask: Byte, oneMinus: Float32 -> Float32, keys: seq<Key>, n: nat)
    requires !HasColor(mask) && n <= |keys|
    ensures Run(a, mask, oneMinus, keys, n).Ok? <==> AllInRange(a, mask, keys[..n])
    ensures Run(a, mask, oneMinus, keys, n).Ok? ==>
      IsReference(a, mask, oneMinus, keys[..n], Run(a, mask, oneMinus, keys, n).value)
    decreases n
  {
    if n > 0 {
      var init, v := keys[..n - 1], keys[n - 1];
      assert keys[..n] == init + [v];
      RunIsReference(a, mask, oneMinus, keys, n - 1);
      RunStep(a, mask, oneMinus, keys, n - 1);
      if Run(a, mask, oneMinus, keys, n - 1).Ok? {
        VisitIsReference(a, mask, oneMinus, init, Run(a, mask, oneMinus, keys, n - 1).value, v);
      }
    }
  }

  /** `RunIsReference` for one more corner `v`, given the loop state `st` after `init`. */
  lemma VisitIsReference(a: Attrib, mask: Byte, oneMinus: Float32 -> Float32, init: seq<Key>, st: LoopState, v: Key)
    requires !HasColor(mask)
    requires AllInRange(a, mask, init) && IsReference(a, mask, oneMinus, init, st)
    ensures var r := Visit(a, mask, oneMinus, st, v);
      && (r.Ok? <==> InRange(a, mask, v))
      && (r.Ok? ==> IsReference(a, mask, oneMinus, init + [v], r.value))
  {
    InternSnoc(init, v);
    InternSpec(init);
    if Dominated(v, st.max) && v in st.stored {
      LastIndexOfDistinct(st.stored, v);
    } else {
      if !Dominated(v, st.max) {
        SkipIsSafe(st.stored, v);
      }
      if InRange(a, mask, v) {
        LayoutSnoc(a, mask, st.stored, v, oneMinus);
        MaxKeySnoc(st.stored, v);
      }
    }
  }

  /** The loop's buffers hold the loop state `st` after `done` corners, with `c` floats
      per record. */
  ghost predicate Holds(st: LoopState, c: nat, objVerts: seq<Key>, indices: seq<U32>, vertices: seq<Float32>,
                        vertexCount: nat, done: nat, max: Key)
  {
    && vertexCount <= done <= |indices|
    && vertexCount <= |objVerts|
    && Span(vertexCount, c) <= |vertices|
    && st == LoopState(objVerts[..vertexCount], indices[..done], vertices[..Span(vertexCount, c)], max)
  }

  // ---------------------------------------------------------------------------
  // The converter.

  /** The mesh `loadObj` builds: the records of the distinct corner keys in order of first
      appearance, and for each corner the index of its record. */
  function ObjMesh(a: Attrib, shape: Shape, oneMinus: Float32 -> Float32): (m: Mesh)
    requires Triangulated(a, shape) && 3 * shape.length < TWO_32
    requires AllInRange(a, ObjMask(a), Corners(a, shape))
    ensures WellFormed(m) && m.mask == ObjMask(a)
    ensures m.indexCount == 3 * shape.length && m.vertexCount <= m.indexCount
  {
    var mask := ObjMask(a);
    var interned := Intern(Corners(a, shape));
    InternSpec(Corners(a, shape));
    SpanIsProduct(|interned.stored|, VertexComponents(mask));
    Mesh(mask, |interned.stored|, |interned.refs|,
         Layout(a, mask, interned.stored, oneMinus), interned.refs)
  }

  /** The converted mesh is well formed. It has one index per corner of the shape, at
      most one record per corner and at most one per slot of the upper-bound buffers, and
      exactly one record per distinct corner key. */
  lemma ObjMeshCounts(a: Attrib, shape: Shape, oneMinus: Float32 -> Float32)
    requires Triangulated(a, shape) && 3 * shape.length < TWO_32
    requires AllInRange(a, ObjMask(a), Corners(a, shape))
    ensures var m := ObjMesh(a, shape, oneMinus);
      && WellFormed(m)
      && m.indexCount == 3 * shape.length
      && m.vertexCount <= m.indexCount <= |a.faces|
      && m.vertexCount == |set k | k in Corners(a, shape)|
  {
    var m := ObjMesh(a, shape, oneMinus);
    SpanIsProduct(m.vertexCount, VertexComponents(m.mask));
    InternCountsDistinct(Corners(a, shape));
  }

  /** Every index of the converted mesh names a record, and that record is the record of
      the corner's own key: position, then normal and texture coordinate as the mask says. */
  lemma ObjMeshIndices(a: Attrib, shape: Shape, oneMinus: Float32 -> Float32, i: nat)
    requires Triangulated(a, shape) && 3 * shape.length < TWO_32
    requires AllInRange(a, ObjMask(a), Corners(a, shape))
    requires i < 3 * shape.length
    ensures var m := ObjMesh(a, shape, oneMinus);
      var c := VertexComponents(m.mask);
      && m.indices[i] < m.vertexCount
      && (m.indices[i] + 1) * c <= |m.vertices|
      && m.vertices[m.indices[i] * c..(m.indices[i] + 1) * c] == Record(a, m.mask, a.faces[i], oneMinus)
  {
    var corners := Corners(a, shape);
    var mask := ObjMask(a);
    var c := VertexComponents(mask);
    var interned := Intern(corners);
    InternedRecord(a, mask, corners, oneMinus, i);
    var k := interned.refs[i];
    var layout := Layout(a, mask, interned.stored, oneMinus);
    SpanIsProduct(k, c);
    SpanIsProduct(k + 1, c);
    var m := ObjMesh(a, shape, oneMinus);
    assert m.indices == interned.refs && m.vertices == layout && m.vertexCount == |interned.stored|;
  }

  /** The stored copy of corner `i` of `keys` holds the record of that corner's key. */
  lemma InternedRecord(a: Attrib, mask: Byte, keys: seq<Key>, oneMinus: Float32 -> Float32, i: nat)
    requires AllInRange(a, mask, keys) && !HasColor(mask) && i < |keys|
    ensures var r := Intern(keys);
      var c := VertexComponents(mask);
      && r.refs[i] < |r.stored|
      && AllInRange(a, mask, r.stored)
      && Span(r.refs[i] + 1, c) <= Span(|r.stored|, c)
      && Layout(a, mask, r.stored, oneMinus)[Span(r.refs[i], c)..Span(r.refs[i] + 1, c)] == Record(a, mask, keys[i], oneMinus)
  {
    var r := Intern(keys);
    InternRefs(keys);
    InternMembers(keys);
    assert AllInRange(a, mask, r.stored);
    var k := r.refs[i];
    assert r.stored[k] == keys[i];
    LayoutAt(a, mask, r.stored, oneMinus, k);
  }

  /** The loop over all corners of the first shape fails exactly when some corner's
      record would read outside the attribute arrays, and otherwise ends with the stored
      keys, records and indices of `ObjMesh`. */
  lemma RunMesh(a: Attrib, shape: Shape, oneMinus: Float32 -> Float32)
    requires Triangulated(a, shape) && 3 * shape.length < TWO_32
    ensures var corners := Corners(a, shape);
      var r := Run(a, ObjMask(a), oneMinus, corners, |corners|);
      && (r.Ok? <==> AllInRange(a, ObjMask(a), corners))
      && (r.Ok? ==>
            var m := ObjMesh(a, shape, oneMinus);
            m.mask == ObjMask(a) && m.vertexCount == |r.value.stored| && m.indexCount == |r.value.refs|
            && m.vertices == r.value.verts && m.indices == r.value.refs)
  {
    var corners := Corners(a, shape);
    assert corners[..|corners|] == corners;
    RunIsReference(a, ObjMask(a), oneMinus, corners, |corners|);
  }

  /** `loadObj` after the parser: for each face of the first shape, the corners of the
      face (`ConvertFace`). An attribute index outside its array, which the source does not
      check, is an error here, and so is a corner count that does not fit the u32 counters. */
  method LoadObj(a: Attrib, shape: Shape, oneMinus: Float32 -> Float32) returns (r: Result<Mesh>)
    requires Triangulated(a, shape)
    ensures r.Ok? <==> 3 * shape.length < TWO_32 && AllInRange(a, ObjMask(a), Corners(a, shape))
    ensures r.Ok? ==> r.value == ObjMesh(a, shape, oneMinus)
  {
    if 3 * shape.length >= TWO_32 {
      return Err(CountOverflow);
    }
    var mask := ObjMask(a);
    var vertFloats := VertexComponents(mask);
    ghost var corners := Corners(a, shape);
    var numFaces := |a.faces|;

    // Upper-bound buffers: one record and one index per corner of the file.
    var vertices := new Float32[numFaces * vertFloats];
    var indices := new U32[numFaces];
    var objVerts := new Key[numFaces];
    SpanIsProduct(numFaces, vertFloats);

    var vertexCount: nat := 0;
    var indexCount: nat := 0;
    var max := Key(0, 0, 0);
    ghost var st := LoopState([], [], [], max);
    assert objVerts[..0] == [] && indices[..0] == [] && vertices[..0] == [];

    var i := 0;
    while i < shape.length
      invariant i <= shape.length && indexCount == 3 * i
      invariant Run(a, mask, oneMinus, corners, indexCount) == Ok(st)
      invariant Holds(st, VertexComponents(mask), objVerts[..], indices[..], vertices[..], vertexCount, indexCount, max)
    {
      assert a.faceNumVerts[i + shape.faceOffset] == 3;
      assert corners[3 * i] == a.faces[3 * i] && corners[3 * i + 1] == a.faces[3 * i + 1];
      assert corners[3 * i + 2] == a.faces[3 * i + 2];
      var ok;
      ok, vertexCount, max, indexCount, st := ConvertFace(a, mask, oneMinus, shape, i, objVerts, indices, vertices,
                                                          vertexCount, max, indexCount, corners, st);
      if !ok {
        RunMesh(a, shape, oneMinus);
        return Err(AttributeIndexOutOfRange);
      }
      i := i + 1;
    }
    RunMesh(a, shape, oneMinus);
    SpanIsProduct(vertexCount, vertFloats);
    r := Ok(Mesh(mask, vertexCount, indexCount, vertices[..vertexCount * vertFloats], indices[..indexCount]));
  }

  /** The buffers of the conversion: distinct, one slot per corner of the file, and
      room for one record per slot. */
  predicate Buffers(mask: Byte, corners: seq<Key>, objVerts: array<Key>, indices: array<U32>, vertices: array<Float32>) {
    && !HasColor(mask)
    && |corners| < TWO_32
    && indices != vertices
    && objVerts.Length == indices.Length
    && |corners| <= indices.Length
    && vertices.Length == Span(objVerts.Length, VertexComponents(mask))
  }

  /** The inner loop of `loadObj`: the three corners of face `i`. `ok` is false when the
      record of a new key would read outside the attribute arrays; then the whole
      conversion fails. */
  method ConvertFace(a: Attrib, mask: Byte, oneMinus: Float32 -> Float32, shape: Shape, i: nat,
                     objVerts: array<Key>, indices: array<U32>, vertices: array<Float32>,
                     vertexCount: nat, max: Key, indexCount: nat, ghost corners: seq<Key>, ghost st: LoopState)
    returns (ok: bool, vertexCount': nat, max': Key, indexCount': nat, ghost st': LoopState)
    requires i + shape.faceOffset < |a.faceNumVerts| && a.faceNumVerts[i + shape.faceOffset] == 3
    requires 3 * i + 3 <= |corners| <= |a.faces|
    requires corners[3 * i] == a.faces[3 * i] && corners[3 * i + 1] == a.faces[3 * i + 1]
    requires corners[3 * i + 2] == a.faces[3 * i + 2]
    requires indexCount == 3 * i && Buffers(mask, corners, objVerts, indices, vertices)
    requires Run(a, mask, oneMinus, corners, indexCount) == Ok(st)
    requires Holds(st, VertexComponents(mask), objVerts[..], indices[..], vertices[..], vertexCount, indexCount, max)
    modifies objVerts, indices, vertices
    ensures !ok ==> Run(a, mask, oneMinus, corners, |corners|).Err?
    ensures ok ==> indexCount' == indexCount + 3
    ensures ok ==> Run(a, mask, oneMinus, corners, indexCount') == Ok(st')
    ensures ok ==> Holds(st', VertexComponents(mask), objVerts[..], indices[..], vertices[..], vertexCount', indexCount', max')
  {
    vertexCount', max', indexCount', st' := vertexCount, max, indexCount, st;
    var j := 0;
    while j < a.faceNumVerts[i + shape.faceOffset]
      invariant j <= 3 && indexCount' == 3 * i + j
      invariant Run(a, mask, oneMinus, corners, indexCount') == Ok(st')
      invariant Holds(st', VertexComponents(mask), objVerts[..], indices[..], vertices[..], vertexCount', indexCount', max')
    {
      var vertIdx := 3 * i + j;
      assert vertIdx == indexCount';
      ok, vertexCount', max', st' := ConvertCorner(a, mask, oneMinus, a.faces[vertIdx], vertIdx, objVerts, indices,
                                                   vertices, vertexCount', max', corners, st');
      if !ok {
        return;
      }
      indexCount' := indexCount' + 1;
      j := j + 1;
    }
    ok := true;
  }

  /** One pass of the inner loop of `loadObj`: corner `vertIdx` of the first shape, with
      key `v`, advances the loop (`Run`) by one corner. */
  method ConvertCorner(a: Attrib, mask: Byte, oneMinus: Float32 -> Float32, v: Key, vertIdx: nat,
                       objVerts: array<Key>, indices: array<U32>, vertices: array<Float32>,
                       vertexCount: nat, max: Key, ghost corners: seq<Key>, ghost st: LoopState)
    returns (ok: bool, vertexCount': nat, max': Key, ghost st': LoopState)
    requires Buffers(mask, corners, objVerts, indices, vertices)
    requires vertIdx < |corners| && corners[vertIdx] == v
    requires Run(a, mask, oneMinus, corners, vertIdx) == Ok(st)
    requires Holds(st, VertexComponents(mask), objVerts[..], indices[..], vertices[..], vertexCount, vertIdx, max)
    modifies objVerts, indices, vertices
    ensures !ok ==> Run(a, mask, oneMinus, corners, |corners|).Err?
    ensures ok ==> Run(a, mask, oneMinus, corners, vertIdx + 1) == Ok(st')
    ensures ok ==> Holds(st', VertexComponents(mask), objVerts[..], indices[..], vertices[..], vertexCount', vertIdx + 1, max')
  {
    RunStep(a, mask, oneMinus, corners, vertIdx);
    ok, vertexCount', max' := InternCorner(a, mask, v, vertIdx, objVerts, vertexCount,
                                           indices, vertices, max, oneMinus, st);
    if !ok {
      RunErrSticky(a, mask, oneMinus, corners, vertIdx + 1, |corners|);
      st' := st;
    } else {
      st' := Visit(a, mask, oneMinus, st, v).value;
    }
  }

  /** The work of the loop for corner `vertIdx` with key `v` (`Visit`): the backward scan
      for an equal stored key, run only when `v` is dominated by the running maximum, and
      otherwise the raise of the maximum; then, if no equal key was found, the new record
      and the new key (`AppendKey`). `ok` is false when the new record would read outside
      the attribute arrays. */
  method InternCorner(a: Attrib, mask: Byte, v: Key, vertIdx: nat,
                      objVerts: array<Key>, vertexCount: nat, indices: array<U32>,
                      vertices: array<Float32>, max: Key, oneMinus: Float32 -> Float32,
                      ghost st: LoopState)
    returns (ok: bool, vertexCount': nat, max': Key)
    requires !HasColor(mask) && indices != vertices
    requires vertIdx < indices.Length && vertIdx < objVerts.Length && vertIdx < TWO_32
    requires vertices.Length == Span(objVerts.Length, VertexComponents(mask))
    requires Holds(st, VertexComponents(mask), objVerts[..], indices[..], vertices[..], vertexCount, vertIdx, max)
    modifies objVerts, indices, vertices
    ensures ok <==> Visit(a, mask, oneMinus, st, v).Ok?
    ensures ok ==> Holds(Visit(a, mask, oneMinus, st, v).value, VertexComponents(mask),
                         objVerts[..], indices[..], vertices[..], vertexCount', vertIdx + 1, max')
  {
    max' := max;
    if Dominated(v, max) {
      var found := ReuseStored(mask, v, vertIdx, objVerts, vertexCount, indices, vertices, max, st);
      if found {
        return true, vertexCount, max;
      }
    } else {
      if v.v > max'.v { max' := max'.(v := v.v); }
      if v.vn > max'.vn { max' := max'.(vn := v.vn); }
      if v.vt > max'.vt { max' := max'.(vt := v.vt); }
      assert max' == Raise(max, v);
    }

    if !InRange(a, mask, v) {
      return false, vertexCount, max;
    }
    AppendKey(a, mask, v, vertIdx, objVerts, vertexCount, indices, vertices, oneMinus, max', st);
    return true, vertexCount + 1, max';
  }

  /** The backward scan for a stored copy of `v`; when there is one, the corner's index
      is the slot of its last copy. */
  method ReuseStored(mask: Byte, v: Key, vertIdx: nat, objVerts: array<Key>, vertexCount: nat,
                     indices: array<U32>, vertices: array<Float32>, max: Key, ghost st: LoopState)
    returns (found: bool)
    requires indices != vertices && vertIdx < indices.Length && vertIdx < TWO_32
    requires Holds(st, VertexComponents(mask), objVerts[..], indices[..], vertices[..], vertexCount, vertIdx, max)
    modifies indices
    ensures found <==> v in st.stored
    ensures found ==> Holds(st.(refs := st.refs + [LastIndexOf(st.stored, v)]), VertexComponents(mask),
                            objVerts[..], indices[..], vertices[..], vertexCount, vertIdx + 1, max)
    ensures !found ==> indices[..] == old(indices[..])
  {
    var k;
    found, k := FindStored(objVerts, vertexCount, v);
    if found {
      indices[vertIdx] := k;
      assert indices[..vertIdx + 1] == st.refs + [k];
    }
  }

  /** A key not stored yet: its record at float `vertexCount * VertexComponents(mask)`,
      the key at slot `vertexCount`, and the corner's index `vertexCount`. */
  method AppendKey(a: Attrib, mask: Byte, v: Key, vertIdx: nat,
                   objVerts: array<Key>, vertexCount: nat, indices: array<U32>,
                   vertices: array<Float32>, oneMinus: Float32 -> Float32, max: Key, ghost st: LoopState)
    requires !HasColor(mask) && indices != vertices && InRange(a, mask, v)
    requires vertIdx < indices.Length && vertIdx < objVerts.Length && vertIdx < TWO_32
    requires vertices.Length == Span(objVerts.Length, VertexComponents(mask))
    requires Holds(st, VertexComponents(mask), objVerts[..], indices[..], vertices[..], vertexCount, vertIdx, st.max)
    modifies objVerts, indices, vertices
    ensures Holds(LoopState(st.stored + [v], st.refs + [vertexCount], st.verts + Record(a, mask, v, oneMinus), max),
                  VertexComponents(mask), objVerts[..], indices[..], vertices[..], vertexCount + 1, vertIdx + 1, max)
  {
    var c := VertexComponents(mask);
    var offset := vertexCount * c;
    SpanIsProduct(vertexCount, c);
    SpanMono(vertexCount + 1, objVerts.Length, c);
    ghost var before := vertices[..];
    WriteRecord(vertices, offset, a, mask, v, oneMinus);
    assert vertices[..offset + c] == st.verts + Record(a, mask, v, oneMinus) by {
      assert vertices[..offset + c] == before[..offset] + Record(a, mask, v, oneMinus);
    }
    objVerts[vertexCount] := v;
    assert objVerts[..vertexCount + 1] == st.stored + [v];
    indices[vertIdx] := vertexCount;
    assert indices[..vertIdx + 1] == st.refs + [vertexCount];
  }

  /** The backward scan over the stored keys for one equal to `key`; it stops at the last
      copy. */
  method FindStored(objVerts: array<Key>, count: nat, key: Key) returns (found: bool, k: nat)
    requires count <= objVerts.Length
    ensures found <==> key in objVerts[..count]
    ensures found ==> k == LastIndexOf(objVerts[..count], key)
  {
    k := count;
    while k > 0
      invariant k <= count
      invariant forall q :: k <= q < count ==> objVerts[q] != key
    {
      if objVerts[k - 1] == key {
        assert objVerts[..count][k - 1] == key;
        return true, k - 1;
      }
      k := k - 1;
    }
    return false, 0;
  }

  /** Writes the record of `key` at float `offset`, part by part, leaving the rest of the
      buffer alone. */
  method WriteRecord(vertices: array<Float32>, offset: nat, a: Attrib, mask: Byte, key: Key,
                     oneMinus: Float32 -> Float32)
    requires InRange(a, mask, key) && !HasColor(mask)
    requires offset + VertexComponents(mask) <= vertices.Length
    modifies vertices
    ensures vertices[..] == Splice(old(vertices[..]), offset, Record(a, mask, key, oneMinus))
  {
    ghost var before := vertices[..];
    var off := offset;
    WritePosition(vertices, off, a, key);
    off := off + 3;
    ghost var written := PositionOf(a, key);

    if HasNormal(mask) {
      WriteNormal(vertices, off, a, key);
      SpliceTwice(before, offset, written, NormalOf(a, key));
      written := written + NormalOf(a, key);
      off := off + 3;
    }
    assert vertices[..] == Splice(before, offset, written) && off == offset + |written|;

    if HasTexcoord(mask) {
      WriteTexcoord(vertices, off, a, key, oneMinus);
      SpliceTwice(before, offset, written, TexcoordOf(a, key, oneMinus));
      written := written + TexcoordOf(a, key, oneMinus);
    }
    assert written == Record(a, mask, key, oneMinus);
  }

  /** The three position floats of a record. */
  method WritePosition(vertices: array<Float32>, offset: nat, a: Attrib, key: Key)
    requires 3 * key.v + 2 < |a.vertices| && offset + 3 <= vertices.Length
    modifies vertices
    ensures vertices[..] == Splice(old(vertices[..]), offset, PositionOf(a, key))
  {
    vertices[offset + 0] := Neg(a.vertices[3 * key.v + 0]);
    vertices[offset + 1] := a.vertices[3 * key.v + 2];
    vertices[offset + 2] := a.vertices[3 * key.v + 1];
    Spliced(old(vertices[..]), vertices[..], offset, PositionOf(a, key));
  }

  /** The three normal floats of a record. */
  method WriteNormal(vertices: array<Float32>, offset: nat, a: Attrib, key: Key)
    requires 3 * key.vn + 2 < |a.normals| && offset + 3 <= vertices.Length
    modifies vertices
    ensures vertices[..] == Splice(old(vertices[..]), offset, NormalOf(a, key))
  {
    vertices[offset + 0] := Neg(a.normals[3 * key.vn + 0]);
    vertices[offset + 1] := a.normals[3 * key.vn + 2];
    vertices[offset + 2] := a.normals[3 * key.vn + 1];
    Spliced(old(vertices[..]), vertices[..], offset, NormalOf(a, key));
  }

  /** The two texture-coordinate floats of a record. */
  method WriteTexcoord(vertices: array<Float32>, offset: nat, a: Attrib, key: Key,
                       oneMinus: Float32 -> Float32)
    requires 2 * key.vt + 1 < |a.texcoords| && offset + 2 <= vertices.Length
    modifies vertices
    ensures vertices[..] == Splice(old(vertices[..]), offset, TexcoordOf(a, key, oneMinus))
  {
    vertices[offset + 0] := a.texcoords[2 * key.vt + 0];
    vertices[offset + 1] := oneMinus(a.texcoords[2 * key.vt + 1]);
    Spliced(old(vertices[..]), vertices[..], offset, TexcoordOf(a, key, oneMinus));
  }
}
