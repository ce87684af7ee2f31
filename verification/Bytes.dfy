/** Bytes, and the numbers they spell with the low byte first. */
module Bytes {
  type Byte = b: int | 0 <= b < 256 witness 0

  function LittleEndian(b: seq<Byte>, at: nat, width: nat): nat
    requires at + width <= |b|
    decreases width
  {
    if width == 0 then 0 else b[at] + 0x100 * LittleEndian(b, at + 1, width - 1)
  }

  lemma LittleEndianIs(b: seq<Byte>, at: nat)
    ensures at + 4 <= |b| ==>
              var c: seq<int> := b;
              LittleEndian(b, at, 4) == c[at] + 0x100 * c[at + 1] + 0x1_0000 * c[at + 2] + 0x100_0000 * c[at + 3]
    ensures at + 8 <= |b| ==>
              var c: seq<int> := b;
              LittleEndian(b, at, 8)
              == c[at] + 0x100 * c[at + 1] + 0x1_0000 * c[at + 2] + 0x100_0000 * c[at + 3]
                 + 0x1_0000_0000 * c[at + 4] + 0x100_0000_0000 * c[at + 5]
                 + 0x1_0000_0000_0000 * c[at + 6] + 0x100_0000_0000_0000 * c[at + 7]
  {
    if at + 4 <= |b| {
      assert LittleEndian(b, at + 2, 2) == b[at + 2] + 0x100 * LittleEndian(b, at + 3, 1);
      assert LittleEndian(b, at + 1, 3) == b[at + 1] + 0x100 * LittleEndian(b, at + 2, 2);
    }
    if at + 8 <= |b| {
      assert LittleEndian(b, at + 6, 2) == b[at + 6] + 0x100 * LittleEndian(b, at + 7, 1);
      assert LittleEndian(b, at + 5, 3) == b[at + 5] + 0x100 * LittleEndian(b, at + 6, 2);
      assert LittleEndian(b, at + 4, 4) == b[at + 4] + 0x100 * LittleEndian(b, at + 5, 3);
      assert LittleEndian(b, at + 3, 5) == b[at + 3] + 0x100 * LittleEndian(b, at + 4, 4);
      assert LittleEndian(b, at + 2, 6) == b[at + 2] + 0x100 * LittleEndian(b, at + 3, 5);
      assert LittleEndian(b, at + 1, 7) == b[at + 1] + 0x100 * LittleEndian(b, at + 2, 6);
    }
  }
}
