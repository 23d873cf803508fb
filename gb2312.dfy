/** The GB2312 side of gb2312utf8table.c: `encodeGB2312`, which builds the two
    bytes of a (block, position) code. */
module Gb2312 {

  /** An `unsigned char` of a GB2312 code. These bytes only take part in integer
      addition and comparison, so they are integers 0..255. */
  newtype Byte = x: int | 0 <= x < 256

  /** GB2312_SIZE: a code is two bytes. */
  const Gb2312Size: nat := 2
  /** GB2312_OFFSET: each byte is 0xA0 plus a number in 1..94. */
  const Gb2312Offset: int := 0xA0
  /** Blocks and positions are numbered 1..94. */
  const BlockSize: int := 94

  /** A block or position number that the numbering scheme defines. */
  predicate InGrid(n: int) {
    1 <= n <= BlockSize
  }

  /** The byte a C `unsigned char` receives from the `int` `n + GB2312_OFFSET`:
      the value modulo 256. */
  function OffsetByte(n: int): (b: Byte)
    ensures (n + Gb2312Offset - b as int) % 256 == 0
    ensures 0 <= n + Gb2312Offset < 256 ==> b as int == n + Gb2312Offset
  {
    ((n + Gb2312Offset) % 256) as Byte
  }

  /** The two bytes `encodeGB2312(block, pos, gb)` stores. */
  function Code(block: int, pos: int): (gb: seq<Byte>)
    ensures |gb| == Gb2312Size
  {
    [OffsetByte(block), OffsetByte(pos)]
  }

  /** `encodeGB2312`: writes the code of (block, pos) into the caller's buffer. */
  method EncodeGb2312(block: int, pos: int, gb: array<Byte>)
    requires gb.Length == Gb2312Size
    modifies gb
    ensures gb[..] == Code(block, pos)
  {
    gb[0] := OffsetByte(block);
    gb[1] := OffsetByte(pos);
  }

  /** The number a code byte stands for: the inverse of the offset. */
  function Number(b: Byte): int {
    b as int - Gb2312Offset
  }

  /** A byte that stands for a number in 1..94. */
  predicate IsCodeByte(b: Byte) {
    0xA1 <= b <= 0xFE
  }

  /** For numbers in the grid no wrap-around happens: the byte is `0xA0 + n`
      exactly, lies in 0xA1..0xFE and gives `n` back. */
  lemma OffsetByteInGrid(n: int)
    requires InGrid(n)
    ensures OffsetByte(n) as int == n + Gb2312Offset
    ensures IsCodeByte(OffsetByte(n))
    ensures Number(OffsetByte(n)) == n
  {
  }

  /** Every code byte is the offset byte of its own number. */
  lemma CodeByteNumber(b: Byte)
    requires IsCodeByte(b)
    ensures InGrid(Number(b)) && OffsetByte(Number(b)) == b
  {
  }

  /** Codes of grid pairs are `[block + 0xA0, pos + 0xA0]`, both bytes in 0xA1..0xFE,
      and `Number` recovers the pair. */
  lemma {:induction false} CodeInGrid(block: int, pos: int)
    requires InGrid(block) && InGrid(pos)
    ensures var gb := Code(block, pos);
      gb[0] as int == block + Gb2312Offset && gb[1] as int == pos + Gb2312Offset
      && IsCodeByte(gb[0]) && IsCodeByte(gb[1])
      && Number(gb[0]) == block && Number(gb[1]) == pos
  {
    OffsetByteInGrid(block);
    OffsetByteInGrid(pos);
  }

  /** Every two bytes in 0xA1..0xFE are the code of exactly the grid pair their
      numbers name. */
  lemma {:induction false} CodeOfNumbers(gb: seq<Byte>)
    requires |gb| == Gb2312Size && IsCodeByte(gb[0]) && IsCodeByte(gb[1])
    ensures InGrid(Number(gb[0])) && InGrid(Number(gb[1]))
    ensures Code(Number(gb[0]), Number(gb[1])) == gb
  {
    CodeByteNumber(gb[0]);
    CodeByteNumber(gb[1]);
  }

  /** On the grid the encoding is injective. */
  lemma {:induction false} CodeInjective(b1: int, p1: int, b2: int, p2: int)
    requires InGrid(b1) && InGrid(p1) && InGrid(b2) && InGrid(p2)
    requires Code(b1, p1) == Code(b2, p2)
    ensures b1 == b2 && p1 == p2
  {
    CodeInGrid(b1, p1);
    CodeInGrid(b2, p2);
  }

  /** Outside the grid the `unsigned char` store wraps: block 257 and block 1
      get the same first byte. */
  lemma CodeWraps(block: int, pos: int)
    ensures Code(block + 256, pos) == Code(block, pos)
  {
    var x := block + Gb2312Offset;
    assert (x + 256) % 256 == x % 256 by {
      assert x + 256 == (x / 256 + 1) * 256 + x % 256;
    }
  }

  /** The first character of block 16 is 0xB0A1. */
  lemma FirstOfBlock16()
    ensures Code(16, 1) == [0xB0, 0xA1]
  {
  }

  /** The enumeration order of (block, position) pairs: by block, then by position. */
  predicate Precedes(p: (int, int), q: (int, int)) {
    p.0 < q.0 || (p.0 == q.0 && p.1 < q.1)
  }

  /** The order of two-byte codes read as 16-bit numbers, first byte high. */
  predicate CodePrecedes(g: seq<Byte>, h: seq<Byte>) {
    |g| == Gb2312Size && |h| == Gb2312Size
    && g[0] as int * 256 + g[1] as int < h[0] as int * 256 + h[1] as int
  }

  /** On the grid, the codes are in the same order as the pairs. */
  lemma {:induction false} CodeOrder(p: (int, int), q: (int, int))
    requires InGrid(p.0) && InGrid(p.1) && InGrid(q.0) && InGrid(q.1)
    ensures Precedes(p, q) <==> CodePrecedes(Code(p.0, p.1), Code(q.0, q.1))
  {
    CodeInGrid(p.0, p.1);
    CodeInGrid(q.0, q.1);
  }
}
