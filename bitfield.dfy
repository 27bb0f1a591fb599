/** Width-aware field arithmetic on one 32-bit register word.
    A field of `width` bits starting at bit `off` (bit 0 is the least significant bit)
    is read by shifting right and masking, and written by clearing the field with the
    inverted mask and OR-ing in the new value, as chapter 5 of the BCM2711 ARM
    Peripherals manual lays the per-pin fields out from bit 0 upwards. */
module BitField {

  /** The low `width` bits set. */
  function Mask(width: bv32): (m: bv32)
    requires 1 <= width <= 3
    ensures m == 1 || m == 3 || m == 7
    ensures m as int + 1 == if width == 1 then 2 else if width == 2 then 4 else 8
  {
    ((1 as bv32) << width) - 1
  }

  /** A field position is well formed when it lies entirely inside the word. */
  predicate InWord(off: bv32, width: bv32) {
    1 <= width <= 3 && off < 32 && off + width <= 32
  }

  /** Two fields of the same width that share no bit. */
  predicate Apart(off: bv32, off2: bv32, width: bv32) {
    off + width <= off2 || off2 + width <= off
  }

  /** The getter's read: shift right by `off`, keep the low `width` bits. */
  function Extract(w: bv32, off: bv32, width: bv32): (v: bv32)
    requires InWord(off, width)
    ensures v <= Mask(width)
  {
    (w >> off) & Mask(width)
  }

  /** The read-modify-write setter: clear the field, OR in `v` shifted into place. */
  function Insert(w: bv32, off: bv32, width: bv32, v: bv32): (r: bv32)
    requires InWord(off, width) && v <= Mask(width)
    ensures r & !(Mask(width) << off) == w & !(Mask(width) << off)
  {
    (w & !(Mask(width) << off)) | (v << off)
  }

  /** The word written to a write-1-to-act register: only bit `off` set. */
  function SingleBit(off: bv32): (b: bv32)
    requires off < 32
    ensures b != 0
  {
    (1 as bv32) << off
  }

  lemma ExtractInsertSame(w: bv32, off: bv32, width: bv32, v: bv32)
    requires InWord(off, width) && v <= Mask(width)
    ensures Extract(Insert(w, off, width, v), off, width) == v
  {}

  lemma ExtractMasked(x: bv32, off: bv32, width: bv32)
    requires InWord(off, width)
    ensures Extract(x, off, width) == (x & (Mask(width) << off)) >> off
  {}

  lemma MasksDisjoint(off: bv32, off2: bv32, width: bv32)
    requires InWord(off, width) && InWord(off2, width) && Apart(off, off2, width)
    ensures (Mask(width) << off) & (Mask(width) << off2) == 0
  {}

  lemma ShiftedWithinMask(v: bv32, off: bv32, width: bv32)
    requires InWord(off, width) && v <= Mask(width)
    ensures (v << off) & !(Mask(width) << off) == 0
  {}

  /** Writing one field leaves every field that shares no bit with it unchanged. */
  lemma ExtractInsertOther(w: bv32, off: bv32, off2: bv32, width: bv32, v: bv32)
    requires InWord(off, width) && InWord(off2, width) && Apart(off, off2, width)
    requires v <= Mask(width)
    ensures Extract(Insert(w, off, width, v), off2, width) == Extract(w, off2, width)
  {
    var m2 := Mask(width) << off2;
    MasksDisjoint(off, off2, width);
    ShiftedWithinMask(v, off, width);
    ExtractMasked(w, off2, width);
    ExtractMasked(Insert(w, off, width, v), off2, width);
    assert Insert(w, off, width, v) & m2 == w & m2;
  }

  /** The second write to a field wins. */
  lemma InsertInsert(w: bv32, off: bv32, width: bv32, a: bv32, b: bv32)
    requires InWord(off, width) && a <= Mask(width) && b <= Mask(width)
    ensures Insert(Insert(w, off, width, a), off, width, b) == Insert(w, off, width, b)
  {}

  /** Writing back the value just read changes nothing. */
  lemma InsertExtract(w: bv32, off: bv32, width: bv32)
    requires InWord(off, width)
    ensures Insert(w, off, width, Extract(w, off, width)) == w
  {
    SplitJoin(w, Mask(width) << off);
  }

  /** A word is the union of its bits outside and inside any mask. */
  lemma SplitJoin(w: bv32, m: bv32)
    ensures (w & !m) | (w & m) == w
  {}

  /** Clearing the bits set in `v` leaves none of them set and every other bit as it was. */
  lemma ClearBits(w: bv32, v: bv32)
    ensures (w & !v) & v == 0 && (w & !v) & !v == w & !v
  {}

  /** Clearing one bit keeps every other single-bit field of the word. */
  lemma ClearOtherBit(x: bv32, y: bv32, a: bv32, b: bv32)
    requires a < 32 && b < 32 && a != b && y == x & !SingleBit(a)
    ensures Extract(y, b, 1) == Extract(x, b, 1)
  {
    ExtractClearBit(x, a, b);
  }

  /** A single-bit word reads 1 at its own bit and 0 at every other bit. */
  lemma ExtractSingleBit(off: bv32, off2: bv32)
    requires off < 32 && off2 < 32
    ensures Extract(SingleBit(off), off2, 1) == if off == off2 then 1 else 0
  {}

  /** Write-1-to-clear: AND-ing with the complement of a single-bit word clears that
      bit and keeps every other bit. */
  lemma ExtractClearBit(w: bv32, off: bv32, off2: bv32)
    requires off < 32 && off2 < 32
    ensures Extract(w & !SingleBit(off), off2, 1) == if off == off2 then 0 else Extract(w, off2, 1)
  {}
}
