/** The VMD mesh record and its attribute mask (vmd_loader.h): the shared data model
    of the binary codec, the text codec and the OBJ converter. */
module VmdData {

  const TWO_32: int := 0x1_0000_0000

  /** One byte of a file. */
  type Byte = x: int | 0 <= x < 256

  /** A `uint32_t`. */
  type U32 = x: int | 0 <= x < 0x1_0000_0000

  /** A binary32 `float`, held as its bit pattern. The model does no floating-point
      arithmetic: the codecs only move these 32-bit values around. */
  type Float32 = U32

  /** Mask bits of `vertexMask`: a record carries a normal, a color, a texture coordinate. */
  const NORMAL_BIT: Byte := 1
  const COLOR_BIT: Byte := 2
  const TEXCOORD_BIT: Byte := 4

  predicate HasNormal(mask: Byte) { mask % 2 == 1 }
  predicate HasColor(mask: Byte) { (mask / 2) % 2 == 1 }
  predicate HasTexcoord(mask: Byte) { (mask / 4) % 2 == 1 }

  /** Number of floats in one vertex record: 3 for the position, then 3 for a normal,
      3 for a color and 2 for a texture coordinate, each only when its bit is set. */
  function VertexComponents(mask: Byte): (n: nat)
    ensures 3 <= n <= 11
    ensures n % 3 == 0 <==> !HasTexcoord(mask)
  {
    3 + (if HasNormal(mask) then 3 else 0)
      + (if HasColor(mask) then 3 else 0)
      + (if HasTexcoord(mask) then 2 else 0)
  }

  /** Size in bytes of one vertex record. */
  function VertexSize(mask: Byte): (n: nat)
    ensures 12 <= n <= 44 && n % 4 == 0
  {
    VertexComponents(mask) * 4
  }

  /** Only the three low bits of the mask decide the record layout. */
  lemma ComponentsIgnoreHighBits(m1: Byte, m2: Byte)
    requires m1 % 8 == m2 % 8
    ensures VertexComponents(m1) == VertexComponents(m2)
  {
    LowBits(m1);
    LowBits(m2);
  }

  /** The flag tests read the three low bits of the byte. */
  lemma LowBits(m: Byte)
    ensures HasNormal(m) <==> m % 8 in {1, 3, 5, 7}
    ensures HasColor(m) <==> m % 8 in {2, 3, 6, 7}
    ensures HasTexcoord(m) <==> m % 8 in {4, 5, 6, 7}
  {
    var h, l := m / 8, m % 8;
    assert m == 8 * h + l;
    assert m / 2 == 4 * h + l / 2;
    assert m / 4 == 2 * h + l / 4;
  }

  /** The mask with bit `bit` set, as `mask |= bit` computes it for a one-bit flag. */
  function SetBit(mask: Byte, bit: Byte): (r: Byte)
    requires bit == NORMAL_BIT || bit == COLOR_BIT || bit == TEXCOORD_BIT
    ensures HasNormal(r) <==> HasNormal(mask) || bit == NORMAL_BIT
    ensures HasColor(r) <==> HasColor(mask) || bit == COLOR_BIT
    ensures HasTexcoord(r) <==> HasTexcoord(mask) || bit == TEXCOORD_BIT
    ensures r / 8 == mask / 8
  {
    LowBits(mask);
    var r := if (mask / bit) % 2 == 1 then mask else mask + bit;
    LowBits(r);
    r
  }

  /** `VmdData`: attribute mask, the two counts, the interleaved vertex buffer and the
      index buffer. */
  datatype Mesh = Mesh(
    mask: Byte,
    vertexCount: U32,
    indexCount: U32,
    vertices: seq<Float32>,
    indices: seq<U32>)

  /** The buffers hold exactly the number of floats and indices the counts announce. */
  predicate WellFormed(m: Mesh) {
    && |m.vertices| == m.vertexCount * VertexComponents(m.mask)
    && |m.indices| == m.indexCount
  }

  /** The failures of the codecs and the converter. The source either exits, returns
      early or has undefined behaviour in these cases. */
  datatype Error =
    | HeaderTruncated
    | SizeMismatch
    | NoFlagLine
    | MissingSeparator
    | UnterminatedVertexLine
    | UnterminatedIndexLine
    | CountOverflow
    | AttributeIndexOutOfRange

  datatype Result<T> = Ok(value: T) | Err(error: Error)

  datatype Option<T> = None | Some(value: T)
}
