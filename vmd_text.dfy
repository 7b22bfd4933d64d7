/** The text VMD format (vmd_loader.h, `loadVmdt`): a flag line of `n`, `c`, `t` characters,
    one line per vertex up to an empty line, then the index lines, three indices each. The
    numbers are read by `strtof` and `strtoul` from the start of each block. */
module VmdText {
  import opened VmdData

  const LF: Byte := 10
  const CHAR_N: Byte := 'n' as int
  const CHAR_C: Byte := 'c' as int
  const CHAR_T: Byte := 't' as int

  /** `isspace` in the C locale: space, tab, newline, vertical tab, form feed, return. */
  predicate IsSpace(b: Byte) { b == 32 || 9 <= b <= 13 }

  predicate IsDigit(b: Byte) { '0' as int <= b <= '9' as int }

  /** Number of bytes `b` in `s`. */
  function Occurrences(s: seq<Byte>, b: Byte): nat
    decreases |s|
  {
    if s == [] then 0 else Occurrences(s[..|s| - 1], b) + (if s[|s| - 1] == b then 1 else 0)
  }

  // ---------------------------------------------------------------------------
  // The flag line.

  /** The mask after one character of the flag line: `n`, `c` and `t` set the normal,
      color and texture coordinate bits, any other character leaves the mask alone. */
  function Flag(mask: Byte, b: Byte): Byte {
    if b == CHAR_N then SetBit(mask, NORMAL_BIT)
    else if b == CHAR_C then SetBit(mask, COLOR_BIT)
    else if b == CHAR_T then SetBit(mask, TEXCOORD_BIT)
    else mask
  }

  /** The mask after the flag line `line`, starting from `mask`: no flag already set is
      cleared, and the bits above the three flags are kept. */
  function FlagMask(mask: Byte, line: seq<Byte>): (r: Byte)
    ensures HasNormal(mask) ==> HasNormal(r)
    ensures HasColor(mask) ==> HasColor(r)
    ensures HasTexcoord(mask) ==> HasTexcoord(r)
    ensures r / 8 == mask / 8
    decreases |line|
  {
    if line == [] then mask else Flag(FlagMask(mask, line[..|line| - 1]), line[|line| - 1])
  }

  /** A bit is set after the flag line exactly when it was set before or its letter occurs
      in the line; the bits above the three flags are never touched. */
  lemma {:induction false} FlagMaskSpec(mask: Byte, line: seq<Byte>)
    ensures var r := FlagMask(mask, line);
      && (HasNormal(r) <==> HasNormal(mask) || CHAR_N in line)
      && (HasColor(r) <==> HasColor(mask) || CHAR_C in line)
      && (HasTexcoord(r) <==> HasTexcoord(mask) || CHAR_T in line)
      && r / 8 == mask / 8
    decreases |line|
  {
    if line != [] {
      var init := line[..|line| - 1];
      FlagMaskSpec(mask, init);
      assert line == init + [line[|line| - 1]];
    }
  }

  // ---------------------------------------------------------------------------
  // Line structure.

  /** `memchr` for a newline from byte `from` on. */
  function NextNewline(data: seq<Byte>, from: nat): (r: Option<nat>)
    requires from <= |data|
    ensures r.Some? ==> from <= r.value < |data| && data[r.value] == LF
    ensures r.Some? ==> forall q :: from <= q < r.value ==> data[q] != LF
    ensures r.None? ==> forall q :: from <= q < |data| ==> data[q] != LF
    decreases |data| - from
  {
    if from == |data| then None
    else if data[from] == LF then Some(from)
    else NextNewline(data, from + 1)
  }

  /** The vertex lines from byte `p` on: their number and the position of the newline that
      forms the empty separator line. The source reads past the end of the buffer when the
      separator is missing and follows a null pointer when a line has no newline; both are
      errors here. */
  function VertexLines(data: seq<Byte>, p: nat): (r: Result<(nat, nat)>)
    requires p <= |data|
    ensures r.Ok? ==> p <= r.value.1 < |data|
    decreases |data| - p
  {
    if p == |data| then Err(MissingSeparator)
    else if data[p] == LF then Ok((0, p))
    else
      match NextNewline(data, p)
      case None => Err(UnterminatedVertexLine)
      case Some(q) =>
        var rest := VertexLines(data, q + 1);
        if rest.Err? then rest else Ok((rest.value.0 + 1, rest.value.1))
  }

  /** A line of `data` starts at `q` when `q` is `p` or follows a newline. */
  predicate LineStart(data: seq<Byte>, p: nat, q: nat)
    requires p <= q <= |data|
  {
    q == p || data[q - 1] == LF
  }

  /** The vertex block runs from `p` to the first empty line: the separator is a newline at
      the start of a line and no earlier line is empty. */
  lemma {:induction false} VertexLinesSeparator(data: seq<Byte>, p: nat)
    requires p <= |data| && VertexLines(data, p).Ok?
    ensures var sep := VertexLines(data, p).value.1;
      && p <= sep < |data| && data[sep] == LF && LineStart(data, p, sep)
      && (forall q :: p <= q < sep && LineStart(data, p, q) ==> data[q] != LF)
    decreases |data| - p
  {
    if data[p] != LF {
      var q := NextNewline(data, p).value;
      VertexLinesSeparator(data, q + 1);
      var sep := VertexLines(data, p).value.1;
      forall r | p <= r < sep && LineStart(data, p, r) ensures data[r] != LF {
        if q + 1 < r {
          assert LineStart(data, q + 1, r);
        }
      }
    }
  }

  /** The vertex lines are counted successfully exactly when the buffer has an empty line
      from `p` on. */
  lemma {:induction false} VertexLinesAccepts(data: seq<Byte>, p: nat)
    requires p <= |data|
    ensures VertexLines(data, p).Ok? <==> exists s :: p <= s < |data| && LineStart(data, p, s) && data[s] == LF
    decreases |data| - p
  {
    if VertexLines(data, p).Ok? {
      VertexLinesSeparator(data, p);
    } else if s :| p <= s < |data| && LineStart(data, p, s) && data[s] == LF {
      assert data[p] != LF;
      assert NextNewline(data, p).Some? by {
        assert p < s && data[s - 1] == LF;
      }
      var q := NextNewline(data, p).value;
      assert q < s;
      assert LineStart(data, q + 1, s);
      VertexLinesAccepts(data, q + 1);
      assert false;
    }
  }

  /** The number of vertex lines is the number of newlines before the separator. */
  lemma {:induction false} VertexLinesCount(data: seq<Byte>, p: nat)
    requires p <= |data| && VertexLines(data, p).Ok?
    ensures var (count, sep) := VertexLines(data, p).value;
      count == Occurrences(data[p..sep], LF)
    decreases |data| - p
  {
    if data[p] != LF {
      var q := NextNewline(data, p).value;
      VertexLinesCount(data, q + 1);
      OccurrencesSplit(data, p, q + 1, VertexLines(data, p).value.1);
      OccurrencesNone(data, p, q);
    } else {
      assert data[p..p] == [];
    }
  }

  /** The index lines from byte `p` on: their number and where the count stops. The loop
      goes on while at least two bytes remain, so a single last byte is never a line; a
      longer last line without newline makes the source follow a null pointer. */
  function IndexLines(data: seq<Byte>, p: nat): (r: Result<(nat, nat)>)
    requires p <= |data|
    ensures r.Ok? ==> p <= r.value.1 <= |data|
    decreases |data| - p
  {
    if p + 1 >= |data| then Ok((0, p))
    else
      match NextNewline(data, p)
      case None => Err(UnterminatedIndexLine)
      case Some(q) =>
        var rest := IndexLines(data, q + 1);
        if rest.Err? then rest else Ok((rest.value.0 + 1, rest.value.1))
  }

  /** The count of index lines is the number of newlines in the counted part, which ends
      at a newline and leaves at most the last byte of the buffer. */
  lemma {:induction false} IndexLinesCount(data: seq<Byte>, p: nat)
    requires p <= |data| && IndexLines(data, p).Ok?
    ensures var (count, end) := IndexLines(data, p).value;
      && |data| <= end + 1 && LineStart(data, p, end)
      && count == Occurrences(data[p..end], LF)
    decreases |data| - p
  {
    if p + 1 < |data| {
      var q := NextNewline(data, p).value;
      IndexLinesCount(data, q + 1);
      OccurrencesSplit(data, p, q + 1, IndexLines(data, p).value.1);
      OccurrencesNone(data, p, q);
    } else {
      assert data[p..p] == [];
    }
  }

  /** The count of index lines fails exactly when the last line, which has no newline,
      has two bytes or more. */
  lemma {:induction false} IndexLinesFail(data: seq<Byte>, p: nat)
    requires p <= |data|
    ensures IndexLines(data, p).Err? <==>
      exists s :: p <= s && s + 1 < |data| && LineStart(data, p, s) && forall q :: s <= q < |data| ==> data[q] != LF
    decreases |data| - p
  {
    if p + 1 < |data| {
      var nl := NextNewline(data, p);
      if nl.None? {
        assert LineStart(data, p, p);
      } else {
        var q := nl.value;
        IndexLinesFail(data, q + 1);
        if IndexLines(data, p).Err? {
          var s :| q + 1 <= s && s + 1 < |data| && LineStart(data, q + 1, s) && forall r :: s <= r < |data| ==> data[r] != LF;
          assert LineStart(data, p, s);
        } else {
          forall s | p <= s && s + 1 < |data| && LineStart(data, p, s)
            ensures exists r :: s <= r < |data| && data[r] == LF
          {
            if s <= q {
              assert data[q] == LF;
            } else {
              assert LineStart(data, q + 1, s);
            }
          }
        }
      }
    }
  }

  /** Counting splits at a middle position. */
  lemma OccurrencesSplit(data: seq<Byte>, p: nat, m: nat, e: nat)
    requires p <= m <= e <= |data|
    ensures Occurrences(data[p..e], LF) == Occurrences(data[p..m], LF) + Occurrences(data[m..e], LF)
    decreases e
  {
    if m < e {
      OccurrencesSplit(data, p, m, e - 1);
      assert data[p..e][..e - p - 1] == data[p..e - 1];
      assert data[m..e][..e - m - 1] == data[m..e - 1];
    } else {
      assert data[m..e] == [];
    }
  }

  /** A line of `q - p` bytes ending with its newline at `q` counts one. */
  lemma OccurrencesNone(data: seq<Byte>, p: nat, q: nat)
    requires p <= q < |data| && data[q] == LF
    requires forall r :: p <= r < q ==> data[r] != LF
    ensures Occurrences(data[p..q + 1], LF) == 1
    decreases q - p
  {
    assert data[p..q + 1][..q - p] == data[p..q];
    NoOccurrences(data[p..q]);
  }

  lemma {:induction false} NoOccurrences(s: seq<Byte>)
    requires forall r :: 0 <= r < |s| ==> s[r] != LF
    ensures Occurrences(s, LF) == 0
    decreases |s|
  {
    if s != [] {
      NoOccurrences(s[..|s| - 1]);
    }
  }

  // ---------------------------------------------------------------------------
  // Number scanning: `strtof` and `strtoul` with base 10 over the buffer, which the model
  // treats as ending at its last byte.

  /** The first position at or after `p` that is not white space. */
  function SkipSpace(data: seq<Byte>, p: nat): (q: nat)
    requires p <= |data|
    ensures p <= q <= |data| && (q == |data| || !IsSpace(data[q]))
    ensures forall r :: p <= r < q ==> IsSpace(data[r])
    decreases |data| - p
  {
    if p < |data| && IsSpace(data[p]) then SkipSpace(data, p + 1) else p
  }

  /** The first position at or after `p` that is not a decimal digit. */
  function SkipDigits(data: seq<Byte>, p: nat): (q: nat)
    requires p <= |data|
    ensures p <= q <= |data| && (q == |data| || !IsDigit(data[q]))
    ensures forall r :: p <= r < q ==> IsDigit(data[r])
    decreases |data| - p
  {
    if p < |data| && IsDigit(data[p]) then SkipDigits(data, p + 1) else p
  }

  /** Position after an optional `+` or `-` at `p`. */
  function SkipSign(data: seq<Byte>, p: nat): (q: nat)
    requires p <= |data|
    ensures p <= q <= p + 1 && q <= |data|
  {
    if p < |data| && (data[p] == '+' as int || data[p] == '-' as int) then p + 1 else p
  }

  /** The end of the decimal floating-point number that starts at `p` after its sign:
      digits with an optional fraction, at least one digit in all, then an exponent when
      one with digits follows; `p` itself when there is no number. */
  function FloatEnd(data: seq<Byte>, p: nat): (q: nat)
    requires p <= |data|
    ensures p <= q <= |data|
  {
    var d := SkipDigits(data, p);
    var f := if d < |data| && data[d] == '.' as int then SkipDigits(data, d + 1) else d;
    var digits := (d - p) + (if f > d then f - d - 1 else 0);
    if digits == 0 then p
    else if f < |data| && (data[f] == 'e' as int || data[f] == 'E' as int) then
      var e1 := SkipSign(data, f + 1);
      var e2 := SkipDigits(data, e1);
      if e2 > e1 then e2 else f
    else f
  }

  /** `strtof(data + p, &end)`: the value and the new cursor. The conversion of the number
      text to the nearest binary32 value is the parameter `toFloat`; when there is no
      number the value is +0.0 and the cursor stays at `p`. */
  function ScanFloat(data: seq<Byte>, p: nat, toFloat: seq<Byte> -> Float32): (r: (Float32, nat))
    requires p <= |data|
    ensures p <= r.1 <= |data|
    ensures r.1 == p ==> r.0 == 0
  {
    var s := SkipSpace(data, p);
    var t := SkipSign(data, s);
    var e := FloatEnd(data, t);
    if e == t then (0, p) else (toFloat(data[s..e]), e)
  }

  /** A run of digits ended by a byte that cannot continue a number is read whole. */
  lemma ScanFloatDigits(data: seq<Byte>, p: nat, q: nat, toFloat: seq<Byte> -> Float32)
    requires p < q <= |data|
    requires forall r :: p <= r < q ==> IsDigit(data[r])
    requires q == |data| || IsSpace(data[q])
    ensures ScanFloat(data, p, toFloat) == (toFloat(data[p..q]), q)
  {
    assert SkipDigits(data, p) == q by { DigitsRun(data, p, q); }
  }

  lemma {:induction false} DigitsRun(data: seq<Byte>, p: nat, q: nat)
    requires p <= q <= |data|
    requires forall r :: p <= r < q ==> IsDigit(data[r])
    requires q == |data| || !IsDigit(data[q])
    ensures SkipDigits(data, p) == q
    decreases q - p
  {
    if p < q {
      DigitsRun(data, p + 1, q);
    }
  }

  /** `ULONG_MAX + 1` for a 64-bit `unsigned long`. */
  const TWO_64: int := 0x1_0000_0000_0000_0000

  /** The value of a string of decimal digits. */
  function DigitsValue(ds: seq<Byte>): nat
    requires forall r :: 0 <= r < |ds| ==> IsDigit(ds[r])
    decreases |ds|
  {
    if ds == [] then 0
    else
      assert IsDigit(ds[|ds| - 1]);
      10 * DigitsValue(ds[..|ds| - 1]) + (ds[|ds| - 1] - '0' as int)
  }

  /** `strtoul(data + p, &end, 10)` stored into a `uint32_t`: white space, an optional sign,
      decimal digits; a value above `ULONG_MAX` gives `ULONG_MAX` whatever the sign,
      otherwise a minus sign negates modulo 2^64, and the store keeps the low 32 bits.
      Without digits the value is 0 and the cursor stays at `p`. */
  function ScanUnsigned(data: seq<Byte>, p: nat): (r: (U32, nat))
    requires p <= |data|
    ensures p <= r.1 <= |data|
    ensures r.1 == p ==> r.0 == 0
  {
    var s := SkipSpace(data, p);
    var t := SkipSign(data, s);
    var d := SkipDigits(data, t);
    if d == t then (0, p)
    else
      var v := DigitsValue(data[t..d]);
      var negative := t > s && data[s] == '-' as int;
      var value := if v >= TWO_64 then TWO_64 - 1 else if negative then (TWO_64 - v) % TWO_64 else v;
      (value % TWO_32, d)
  }

  /** The decimal text of `x`, without leading zeros. */
  function Decimal(x: nat): (ds: seq<Byte>)
    ensures |ds| > 0 && forall r :: 0 <= r < |ds| ==> IsDigit(ds[r])
  {
    if x < 10 then ['0' as int + x] else Decimal(x / 10) + ['0' as int + x % 10]
  }

  /** Reading the decimal text of a number gives the number. */
  lemma {:induction false} DigitsValueDecimal(x: nat)
    ensures DigitsValue(Decimal(x)) == x
  {
    if x >= 10 {
      DigitsValueDecimal(x / 10);
      assert Decimal(x)[..|Decimal(x)| - 1] == Decimal(x / 10);
    }
  }

  /** `strtoul` reads back an index written in decimal and stops right after it. */
  lemma ScanUnsignedDecimal(x: U32, rest: seq<Byte>)
    requires rest == [] || !IsDigit(rest[0])
    ensures ScanUnsigned(Decimal(x) + rest, 0) == (x, |Decimal(x)|)
  {
    var data := Decimal(x) + rest;
    var n := |Decimal(x)|;
    assert SkipSpace(data, 0) == 0;
    assert SkipSign(data, 0) == 0;
    DigitsRun(data, 0, n);
    assert data[0..n] == Decimal(x);
    DigitsValueDecimal(x);
  }

  /** `n` successive `strtof` calls from `p`: the values and the final cursor. */
  function ScanFloats(data: seq<Byte>, p: nat, n: nat, toFloat: seq<Byte> -> Float32): (r: (seq<Float32>, nat))
    requires p <= |data|
    ensures |r.0| == n && p <= r.1 <= |data|
  {
    if n == 0 then ([], p)
    else
      var prev := ScanFloats(data, p, n - 1, toFloat);
      var next := ScanFloat(data, prev.1, toFloat);
      (prev.0 + [next.0], next.1)
  }

  /** `n` successive `strtoul` calls from `p`: the values and the final cursor. */
  function ScanIndices(data: seq<Byte>, p: nat, n: nat): (r: (seq<U32>, nat))
    requires p <= |data|
    ensures |r.0| == n && p <= r.1 <= |data|
  {
    if n == 0 then ([], p)
    else
      var prev := ScanIndices(data, p, n - 1);
      var next := ScanUnsigned(data, prev.1);
      (prev.0 + [next.0], next.1)
  }

  // ---------------------------------------------------------------------------
  // The decoder.

  /** What `loadVmdt` makes of a buffer, starting from the mask `mask0` it finds in the
      model (the source ORs flags into it without clearing it first). */
  function DecodeVmdt(data: seq<Byte>, mask0: Byte, toFloat: seq<Byte> -> Float32): (r: Result<Mesh>)
    ensures r.Ok? ==> WellFormed(r.value) && r.value.indexCount % 3 == 0
    ensures NextNewline(data, 0).None? ==> r == Err(NoFlagLine)
  {
    match NextNewline(data, 0)
    case None => Err(NoFlagLine)
    case Some(endl) => DecodeVertexBlock(data, endl, FlagMask(mask0, data[..endl]), toFloat)
  }

  /** The part of `loadVmdt` after the flag line, which ends with the newline at `endl`:
      the vertex lines and their numbers, then the index block. */
  function DecodeVertexBlock(data: seq<Byte>, endl: nat, mask: Byte, toFloat: seq<Byte> -> Float32): (r: Result<Mesh>)
    requires endl < |data|
    ensures r.Ok? ==> WellFormed(r.value) && r.value.indexCount % 3 == 0 && r.value.mask == mask
  {
    var vertexLines := VertexLines(data, endl + 1);
    if vertexLines.Err? then Err(vertexLines.error)
    else
      var (vertexCount, sep) := vertexLines.value;
      if vertexCount >= TWO_32 then Err(CountOverflow)
      else
        var vertices := ScanFloats(data, endl + 1, vertexCount * VertexComponents(mask), toFloat).0;
        DecodeIndexBlock(data, sep, mask, vertexCount, vertices)
  }

  /** The index block after the separator newline at `sep`: the index lines, and the
      indices read from the separator on. */
  function DecodeIndexBlock(data: seq<Byte>, sep: nat, mask: Byte, vertexCount: U32, vertices: seq<Float32>)
    : (r: Result<Mesh>)
    requires sep < |data|
    ensures r.Ok? ==> r.value.mask == mask && r.value.vertexCount == vertexCount && r.value.vertices == vertices
    ensures r.Ok? ==> |r.value.indices| == r.value.indexCount && r.value.indexCount % 3 == 0
  {
    var indexLines := IndexLines(data, sep + 1);
    if indexLines.Err? then Err(indexLines.error)
    else
      var indexCount := 3 * indexLines.value.0;
      if indexCount >= TWO_32 then Err(CountOverflow)
      else Ok(Mesh(mask, vertexCount, indexCount, vertices, ScanIndices(data, sep, indexCount).0))
  }

  /** An accepted text buffer: the flag line is everything before the first newline and
      its letters, and only they, add mask bits; the rest of the buffer is decoded with
      that mask. */
  lemma DecodedFlagLine(data: seq<Byte>, mask0: Byte, toFloat: seq<Byte> -> Float32)
    requires DecodeVmdt(data, mask0, toFloat).Ok?
    ensures NextNewline(data, 0).Some?
    ensures var m := DecodeVmdt(data, mask0, toFloat).value;
      var endl := NextNewline(data, 0).value;
      && LF !in data[..endl]
      && (HasNormal(m.mask) <==> HasNormal(mask0) || CHAR_N in data[..endl])
      && (HasColor(m.mask) <==> HasColor(mask0) || CHAR_C in data[..endl])
      && (HasTexcoord(m.mask) <==> HasTexcoord(mask0) || CHAR_T in data[..endl])
      && m.mask / 8 == mask0 / 8
      && DecodeVertexBlock(data, endl, m.mask, toFloat) == Ok(m)
  {
    var endl := NextNewline(data, 0).value;
    FlagMaskSpec(mask0, data[..endl]);
  }

  /** An accepted vertex block: the vertex count is the number of lines up to the first
      empty line, exactly count times components numbers are read from the start of the
      block, and the index block follows the separator. */
  lemma DecodedVertexBlock(data: seq<Byte>, endl: nat, mask: Byte, toFloat: seq<Byte> -> Float32)
    requires endl < |data| && DecodeVertexBlock(data, endl, mask, toFloat).Ok?
    ensures VertexLines(data, endl + 1).Ok?
    ensures var m := DecodeVertexBlock(data, endl, mask, toFloat).value;
      var sep := VertexLines(data, endl + 1).value.1;
      && endl < sep < |data| && data[sep] == LF && LineStart(data, endl + 1, sep)
      && (forall q :: endl < q < sep && LineStart(data, endl + 1, q) ==> data[q] != LF)
      && m.vertexCount == Occurrences(data[endl + 1..sep], LF)
      && m.vertices == ScanFloats(data, endl + 1, m.vertexCount * VertexComponents(mask), toFloat).0
      && DecodeIndexBlock(data, sep, mask, m.vertexCount, m.vertices) == Ok(m)
  {
    VertexLinesSeparator(data, endl + 1);
    VertexLinesCount(data, endl + 1);
  }

  /** An accepted index block: the index count is three times the number of lines after
      the separator, at most the last byte of the buffer is left out, and exactly that
      many indices are read from the separator on. */
  lemma DecodedIndexBlock(data: seq<Byte>, sep: nat, mask: Byte, vertexCount: U32, vertices: seq<Float32>)
    requires sep < |data| && DecodeIndexBlock(data, sep, mask, vertexCount, vertices).Ok?
    ensures IndexLines(data, sep + 1).Ok?
    ensures var m := DecodeIndexBlock(data, sep, mask, vertexCount, vertices).value;
      var end := IndexLines(data, sep + 1).value.1;
      && sep < end <= |data| <= end + 1
      && m.indexCount == 3 * Occurrences(data[sep + 1..end], LF)
      && m.indices == ScanIndices(data, sep, m.indexCount).0
  {
    IndexLinesCount(data, sep + 1);
  }

  /** `loadVmdt`: the flag line, then the two blocks. */
  method LoadVmdt(data: seq<Byte>, mask0: Byte, toFloat: seq<Byte> -> Float32) returns (r: Result<Mesh>)
    ensures r == DecodeVmdt(data, mask0, toFloat)
  {
    var found, endl := FindNewline(data, 0);
    if !found {
      return Err(NoFlagLine);
    }
    var mask := ReadFlags(data, endl, mask0);
    r := LoadVertexBlock(data, endl, mask, toFloat);
  }

  /** The vertex lines are counted, then the vertex buffer is filled from the start of the
      vertex block. */
  method LoadVertexBlock(data: seq<Byte>, endl: nat, mask: Byte, toFloat: seq<Byte> -> Float32) returns (r: Result<Mesh>)
    requires endl < |data|
    ensures r == DecodeVertexBlock(data, endl, mask, toFloat)
  {
    var vertexLines := CountVertexLines(data, endl + 1);
    if vertexLines.Err? {
      return Err(vertexLines.error);
    }
    var (vertexCount, sep) := vertexLines.value;
    if vertexCount >= TWO_32 {
      return Err(CountOverflow);
    }
    var vertices, _ := ReadFloats(data, endl + 1, vertexCount * VertexComponents(mask), toFloat);
    r := LoadIndexBlock(data, sep, mask, vertexCount, vertices[..]);
  }

  /** The index lines are counted from after the separator, then the index buffer is
      filled from the separator on. */
  method LoadIndexBlock(data: seq<Byte>, sep: nat, mask: Byte, vertexCount: U32, vertices: seq<Float32>)
    returns (r: Result<Mesh>)
    requires sep < |data|
    ensures r == DecodeIndexBlock(data, sep, mask, vertexCount, vertices)
  {
    var indexLines := CountIndexLines(data, sep + 1);
    if indexLines.Err? {
      return Err(indexLines.error);
    }
    var indexCount := 3 * indexLines.value.0;
    if indexCount >= TWO_32 {
      return Err(CountOverflow);
    }
    var indices, _ := ReadIndices(data, sep, indexCount);
    r := Ok(Mesh(mask, vertexCount, indexCount, vertices, indices[..]));
  }

  /** `memchr(data + from, '\n', |data| - from)`. */
  method FindNewline(data: seq<Byte>, from: nat) returns (found: bool, q: nat)
    requires from <= |data|
    ensures found <==> NextNewline(data, from).Some?
    ensures found ==> q == NextNewline(data, from).value
  {
    q := from;
    while q < |data| && data[q] != LF
      invariant from <= q <= |data|
      invariant NextNewline(data, from) == NextNewline(data, q)
      decreases |data| - q
    {
      q := q + 1;
    }
    found := q < |data|;
  }

  /** The loop over the flag line `data[..endl]`. */
  method ReadFlags(data: seq<Byte>, endl: nat, mask0: Byte) returns (mask: Byte)
    requires endl <= |data|
    ensures mask == FlagMask(mask0, data[..endl])
  {
    mask := mask0;
    for i := 0 to endl
      invariant mask == FlagMask(mask0, data[..i])
    {
      assert data[..i + 1][..i] == data[..i];
      if data[i] == CHAR_N {
        mask := SetBit(mask, NORMAL_BIT);
      } else if data[i] == CHAR_C {
        mask := SetBit(mask, COLOR_BIT);
      } else if data[i] == CHAR_T {
        mask := SetBit(mask, TEXCOORD_BIT);
      }
    }
  }

  /** `n` more lines in front of the result of a count. */
  function AddLines(r: Result<(nat, nat)>, n: nat): Result<(nat, nat)> {
    if r.Err? then r else Ok((r.value.0 + n, r.value.1))
  }

  /** The loop that counts the vertex lines from `start` up to the empty line. */
  method CountVertexLines(data: seq<Byte>, start: nat) returns (r: Result<(nat, nat)>)
    requires start <= |data|
    ensures r == VertexLines(data, start)
  {
    var p := start;
    var count := 0;
    while p == |data| || data[p] != LF
      invariant p <= |data|
      invariant VertexLines(data, start) == AddLines(VertexLines(data, p), count)
      decreases |data| - p
    {
      if p == |data| {
        return Err(MissingSeparator);
      }
      var found, q := FindNewline(data, p);
      if !found {
        return Err(UnterminatedVertexLine);
      }
      p := q + 1;
      count := count + 1;
    }
    r := Ok((count, p));
  }

  /** The loop that counts the index lines from `start` on. */
  method CountIndexLines(data: seq<Byte>, start: nat) returns (r: Result<(nat, nat)>)
    requires start <= |data|
    ensures r == IndexLines(data, start)
  {
    var p := start;
    var count := 0;
    while p + 1 < |data|
      invariant p <= |data|
      invariant IndexLines(data, start) == AddLines(IndexLines(data, p), count)
      decreases |data| - p
    {
      var found, q := FindNewline(data, p);
      if !found {
        return Err(UnterminatedIndexLine);
      }
      p := q + 1;
      count := count + 1;
    }
    r := Ok((count, p));
  }

  /** The loop of `strtof` calls that fills the vertex buffer. */
  method ReadFloats(data: seq<Byte>, start: nat, n: nat, toFloat: seq<Byte> -> Float32)
    returns (vertices: array<Float32>, next: nat)
    requires start <= |data|
    ensures fresh(vertices)
    ensures (vertices[..], next) == ScanFloats(data, start, n, toFloat)
  {
    vertices := new Float32[n];
    next := start;
    for i := 0 to n
      invariant next <= |data|
      invariant vertices[..i] == ScanFloats(data, start, i, toFloat).0 && next == ScanFloats(data, start, i, toFloat).1
    {
      var step := ScanFloat(data, next, toFloat);
      vertices[i] := step.0;
      assert vertices[..i + 1] == vertices[..i] + [step.0];
      next := step.1;
    }
    assert vertices[..] == vertices[..n];
  }

  /** The loop of `strtoul` calls that fills the index buffer. */
  method ReadIndices(data: seq<Byte>, start: nat, n: nat) returns (indices: array<U32>, next: nat)
    requires start <= |data|
    ensures fresh(indices)
    ensures (indices[..], next) == ScanIndices(data, start, n)
  {
    indices := new U32[n];
    next := start;
    for i := 0 to n
      invariant next <= |data|
      invariant indices[..i] == ScanIndices(data, start, i).0 && next == ScanIndices(data, start, i).1
    {
      var step := ScanUnsigned(data, next);
      indices[i] := step.0;
      assert indices[..i + 1] == indices[..i] + [step.0];
      next := step.1;
    }
    assert indices[..] == indices[..n];
  }
}
