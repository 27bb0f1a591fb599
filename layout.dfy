/** The GPIO register block of the BCM2711 (Raspberry Pi 4): the header's constants,
    the twelve register kinds with their byte offsets and per-pin field widths, and
    the field descriptor that locates one pin's field inside the block. */
module Layout {
  import opened BitField

  const PIN_COUNT := 58

  // Codes stored in the 3-bit function-select field (not in numeric order:
  // the alternate-function encoding is fixed by the hardware).
  const INPUT: bv32 := 0
  const OUTPUT: bv32 := 1
  const ALTERNATE_FUNCTION_0: bv32 := 4
  const ALTERNATE_FUNCTION_1: bv32 := 5
  const ALTERNATE_FUNCTION_2: bv32 := 6
  const ALTERNATE_FUNCTION_3: bv32 := 7
  const ALTERNATE_FUNCTION_4: bv32 := 3
  const ALTERNATE_FUNCTION_5: bv32 := 2

  // Return values.
  const NO_ACCESS := -13
  const SUCCESS := 0
  const EVENT_OCCURED := 1
  const NO_EVENT := 0

  // Pin levels.
  const LOW := 0
  const HIGH := 1

  // Codes stored in the 2-bit pull-up/pull-down field.
  const NONE: bv32 := 0
  const UP: bv32 := 1
  const DOWN: bv32 := 2

  /** The register kinds, named as the hardware names them. */
  datatype Register =
    | GPFSEL  // function select
    | GPSET   // set pin output high, write 1 to act
    | GPCLR   // clear pin output (low), write 1 to act
    | GPLEV   // pin level, read only
    | GPEDS   // event detect status, write 1 to clear
    | GPREN   // rising edge detect enable
    | GPFEN   // falling edge detect enable
    | GPHEN   // high detect enable
    | GPLEN   // low detect enable
    | GPAREN  // asynchronous rising edge detect enable
    | GPAFEN  // asynchronous falling edge detect enable
    | GPPULL  // pull-up/pull-down control

  /** Byte offset of the register kind's first word from the base address. */
  function Offset(r: Register): (o: nat)
    ensures o % 4 == 0 && o <= 0xE4
  {
    match r
    case GPFSEL => 0x00
    case GPSET => 0x1C
    case GPCLR => 0x28
    case GPLEV => 0x34
    case GPEDS => 0x40
    case GPREN => 0x4C
    case GPFEN => 0x58
    case GPHEN => 0x64
    case GPLEN => 0x70
    case GPAREN => 0x7C
    case GPAFEN => 0x88
    case GPPULL => 0xE4
  }

  /** Bits per pin: 3 for the eight function codes, 2 for the three pull states, 1 otherwise. */
  function Width(r: Register): (w: bv32)
    ensures 1 <= w <= 3
  {
    match r
    case GPFSEL => 3
    case GPPULL => 2
    case _ => 1
  }

  /** The detect-enable registers, the only single-bit kinds written by read-modify-write. */
  predicate IsDetect(r: Register) {
    r in {GPREN, GPFEN, GPHEN, GPLEN, GPAREN, GPAFEN}
  }

  /** The write-1-to-act registers: a store acts on the bits written as 1 only. */
  predicate IsWriteToAct(r: Register) {
    r in {GPSET, GPCLR, GPEDS}
  }

  /** Index of the register kind's first word in the block of 32-bit words. */
  function BankStart(r: Register): nat {
    Offset(r) / 4
  }

  /** Number of consecutive words the register kind occupies on the chip: six
      function-select words (GPFSEL0-5), four pull-control words
      (GPIO_PUP_PDN_CNTRL_REG0-3) and two words for every single-bit kind. */
  function BankWords(r: Register): nat {
    match r
    case GPFSEL => 6
    case GPPULL => 4
    case _ => 2
  }

  /** The block covers every word from offset 0x00 up to the last pull-control word. */
  const BLOCK_WORDS := BankStart(GPPULL) + BankWords(GPPULL)

  /** The 32-bit machine representation of a pin number. */
  function ToWord(n: nat): (b: bv32)
    requires n < 64
    ensures b as int == n
  {
    if n == 0 then 0 else ToWord(n - 1) + 1
  }

  /** Distinct valid pin numbers have distinct machine words, both below 58. */
  lemma DistinctPinWords(p: nat, q: nat)
    requires p < PIN_COUNT && q < PIN_COUNT && p != q
    ensures ToWord(p) < 58 && ToWord(q) < 58 && ToWord(p) != ToWord(q)
  {
    var a, b := ToWord(p), ToWord(q);
    assert a as int < 58 && b as int < 58 && a as int != b as int;
  }

  /** Where one pin's field lives: its word in the block, its lowest bit, its width. */
  datatype Field = Field(word: nat, bit: bv32, width: bv32)

  /** The field descriptor: with w the register's width and fields_per_word = 32 / w,
      the pin's field is in word pin / fields_per_word of the register's bank, at bit
      (pin % fields_per_word) * w. Every valid pin lands inside its own register's
      bank, and the field never straddles two words. */
  function Locate(r: Register, pin: nat): (f: Field)
    requires pin < PIN_COUNT
    ensures BankStart(r) <= f.word < BankStart(r) + BankWords(r)
    ensures f.word < BLOCK_WORDS
    ensures f.width == Width(r) && InWord(f.bit, f.width)
  {
    var p := ToWord(pin);
    Field(BankStart(r) + SlotWord(p, Width(r)), SlotBit(p, Width(r)), Width(r))
  }

  /** Which word of its bank holds the field of the pin whose number is `p`. */
  function SlotWord(p: bv32, w: bv32): (k: nat)
    requires p < 58 && 1 <= w <= 3
    ensures k < if w == 3 then 6 else if w == 2 then 4 else 2
  {
    SlotBounds(p, w);
    (if w == 3 then p / 10 else if w == 2 then p / 16 else p / 32) as int
  }

  /** The lowest bit of that field inside its word. */
  function SlotBit(p: bv32, w: bv32): (b: bv32)
    requires p < 58 && 1 <= w <= 3
    ensures InWord(b, w)
  {
    SlotBounds(p, w);
    if w == 3 then (p % 10) * 3 else if w == 2 then (p % 16) * 2 else p % 32
  }

  /** With 10, 16 or 32 fields per word, the 58 pins need 6, 4 or 2 words, and a
      field ends at bit 30, 32 or 32 at the latest. */
  lemma SlotBounds(p: bv32, w: bv32)
    requires p < 58 && 1 <= w <= 3
    ensures (p / (32 / w)) as int < (if w == 3 then 6 else if w == 2 then 4 else 2)
    ensures (p % (32 / w)) * w + w <= 32
  {
    if w == 1 {
      assert 32 / w == 32;
    } else if w == 2 {
      assert 32 / w == 16;
    } else {
      assert 32 / w == 10;
    }
  }

  lemma DivMod32(p: bv32)
    requires p < 58
    ensures SlotWord(p, 1) == p as int / 32 && SlotBit(p, 1) as int == p as int % 32
  {
    assert 32 / (1 as bv32) == 32;
  }

  lemma DivMod16(p: bv32)
    requires p < 58
    ensures SlotWord(p, 2) == p as int / 16 && SlotBit(p, 2) as int == (p as int % 16) * 2
  {
    assert 32 / (2 as bv32) == 16;
  }

  lemma DivMod10(p: bv32)
    requires p < 58
    ensures SlotWord(p, 3) == p as int / 10 && SlotBit(p, 3) as int == (p as int % 10) * 3
  {
    assert 32 / (3 as bv32) == 10;
  }

  /** The same descriptor, stated in plain integer arithmetic on the pin number. */
  lemma LocateArithmetic(r: Register, pin: nat)
    requires pin < PIN_COUNT
    ensures var perWord := (32 / Width(r)) as int;
            && Locate(r, pin).word == Offset(r) / 4 + pin / perWord
            && Locate(r, pin).bit as int == (pin % perWord) * Width(r) as int
  {
    var p := ToWord(pin);
    assert p < 58;
    if Width(r) == 1 {
      assert (32 / Width(r)) as int == 32 && Width(r) as int == 1;
      DivMod32(p);
    } else if Width(r) == 2 {
      assert (32 / Width(r)) as int == 16 && Width(r) as int == 2;
      DivMod16(p);
    } else {
      assert (32 / Width(r)) as int == 10 && Width(r) as int == 3;
      DivMod10(p);
    }
  }

  /** No two register kinds share a word: the banks are disjoint. */
  lemma BanksDisjoint(r1: Register, r2: Register, p: nat, q: nat)
    requires r1 != r2 && p < PIN_COUNT && q < PIN_COUNT
    ensures Locate(r1, p).word != Locate(r2, q).word
  {
  }

  /** Two different pins of one register kind never share a bit. */
  lemma PinsDisjoint(r: Register, p: nat, q: nat)
    requires p < PIN_COUNT && q < PIN_COUNT && p != q
    ensures Locate(r, p).word != Locate(r, q).word
            || Apart(Locate(r, p).bit, Locate(r, q).bit, Width(r))
  {
    var a, b := ToWord(p), ToWord(q);
    DistinctPinWords(p, q);
    var w := Width(r);
    SlotsApart(a, b, w);
    var fp, fq := Locate(r, p), Locate(r, q);
    assert fp.word == BankStart(r) + SlotWord(a, w) && fp.bit == SlotBit(a, w);
    assert fq.word == BankStart(r) + SlotWord(b, w) && fq.bit == SlotBit(b, w);
  }

  lemma SlotsApart(a: bv32, b: bv32, w: bv32)
    requires a < 58 && b < 58 && a != b && 1 <= w <= 3
    ensures SlotWord(a, w) != SlotWord(b, w) || Apart(SlotBit(a, w), SlotBit(b, w), w)
  {
    if w == 1 {
      SlotsApart1(a, b);
    } else if w == 2 {
      SlotsApart2(a, b);
    } else {
      SlotsApart3(a, b);
    }
  }

  lemma SlotsApart1(a: bv32, b: bv32)
    requires a < 58 && b < 58 && a != b
    ensures SlotWord(a, 1) != SlotWord(b, 1) || Apart(SlotBit(a, 1), SlotBit(b, 1), 1)
  {
    assert 32 / (1 as bv32) == 32;
    if SlotWord(a, 1) == SlotWord(b, 1) {
      assert a / 32 == b / 32;
      assert SlotBit(a, 1) == (a % 32) * 1 && SlotBit(b, 1) == (b % 32) * 1;
    }
  }

  lemma SlotsApart2(a: bv32, b: bv32)
    requires a < 58 && b < 58 && a != b
    ensures SlotWord(a, 2) != SlotWord(b, 2) || Apart(SlotBit(a, 2), SlotBit(b, 2), 2)
  {
    assert 32 / (2 as bv32) == 16;
    if SlotWord(a, 2) == SlotWord(b, 2) {
      assert a / 16 == b / 16;
      assert SlotBit(a, 2) == (a % 16) * 2 && SlotBit(b, 2) == (b % 16) * 2;
    }
  }

  lemma SlotsApart3(a: bv32, b: bv32)
    requires a < 58 && b < 58 && a != b
    ensures SlotWord(a, 3) != SlotWord(b, 3) || Apart(SlotBit(a, 3), SlotBit(b, 3), 3)
  {
    assert 32 / (3 as bv32) == 10;
    if SlotWord(a, 3) == SlotWord(b, 3) {
      assert a / 10 == b / 10;
      assert SlotBit(a, 3) == (a % 10) * 3 && SlotBit(b, 3) == (b % 10) * 3;
    }
  }
}
