/** The register block as a value: a sequence of 32-bit words, the per-pin field read
    from it, and the two kinds of write the engine performs on it (read-modify-write of
    one field, and a blind store of a single-bit word to a write-1-to-act register).
    The class in module Gpio is proved against these functions. */
module RegisterFile {
  import opened BitField
  import opened Layout

  /** A block state holds exactly the words from offset 0x00 to the last pull word. */
  predicate Block(s: seq<bv32>) {
    |s| == BLOCK_WORDS
  }

  /** The value of one pin's field of register `r`, as every getter reads it. */
  function FieldValue(s: seq<bv32>, r: Register, pin: nat): (v: bv32)
    requires Block(s) && pin < PIN_COUNT
    ensures v <= Mask(Width(r))
  {
    var f := Locate(r, pin);
    Extract(s[f.word], f.bit, f.width)
  }

  /** The block after a read-modify-write of one pin's field of register `r`: only the
      word holding that field can differ. */
  function WithField(s: seq<bv32>, r: Register, pin: nat, v: bv32): (t: seq<bv32>)
    requires Block(s) && pin < PIN_COUNT && v <= Mask(Width(r))
    ensures Block(t)
    ensures forall i :: 0 <= i < |s| && i != Locate(r, pin).word ==> t[i] == s[i]
  {
    var f := Locate(r, pin);
    s[f.word := Insert(s[f.word], f.bit, f.width, v)]
  }

  /** The words of the event detect status register, which the hardware clears where
      a 1 is written and leaves alone where a 0 is written. */
  predicate ClearsOnWrite(i: nat) {
    BankStart(GPEDS) <= i < BankStart(GPEDS) + BankWords(GPEDS)
  }

  /** What a register word holds after word `v` is stored at index `i` over `prior`:
      an event-status word loses the bits written as 1 and keeps the others; any
      other word takes the value stored. */
  function AfterStore(prior: bv32, i: nat, v: bv32): bv32 {
    if ClearsOnWrite(i) then prior & !v else v
  }

  /** A store to an event-status word leaves none of the bits written as 1 set and every
      other bit as it was; a store to any other word leaves exactly the value stored. */
  lemma AfterStoreSemantics(prior: bv32, i: nat, v: bv32)
    ensures ClearsOnWrite(i) ==> AfterStore(prior, i, v) & v == 0
    ensures ClearsOnWrite(i) ==> AfterStore(prior, i, v) & !v == prior & !v
    ensures !ClearsOnWrite(i) ==> AfterStore(prior, i, v) == v
  {
    if ClearsOnWrite(i) {
      ClearBits(prior, v);
    }
  }

  /** The block after storing word `v` at index `i`. */
  function StoreWord(s: seq<bv32>, i: nat, v: bv32): (t: seq<bv32>)
    requires i < |s|
    ensures |t| == |s|
  {
    s[i := AfterStore(s[i], i, v)]
  }

  /** The block after a write-1-to-act access: the single-bit word of the pin is stored
      into register `r`'s word, with no read beforehand. */
  function Strobe(s: seq<bv32>, r: Register, pin: nat): (t: seq<bv32>)
    requires Block(s) && pin < PIN_COUNT && IsWriteToAct(r)
    ensures Block(t)
    ensures forall i :: 0 <= i < |s| && i != Locate(r, pin).word ==> t[i] == s[i]
  {
    var f := Locate(r, pin);
    StoreWord(s, f.word, SingleBit(f.bit))
  }

  /** Between two block states, no field changed except pin `pin`'s field of register `r`. */
  ghost predicate OnlyFieldChanged(before: seq<bv32>, after: seq<bv32>, r: Register, pin: nat)
    requires Block(before) && Block(after) && pin < PIN_COUNT
  {
    forall r2: Register, q: nat :: q < PIN_COUNT && (r2 != r || q != pin) ==>
      FieldValue(after, r2, q) == FieldValue(before, r2, q)
  }

  /** Between two block states, no field of any register but `r` changed. */
  ghost predicate OnlyRegisterChanged(before: seq<bv32>, after: seq<bv32>, r: Register)
    requires Block(before) && Block(after)
  {
    forall r2: Register, q: nat :: q < PIN_COUNT && r2 != r ==>
      FieldValue(after, r2, q) == FieldValue(before, r2, q)
  }

  /** Only the event status register has write-1-to-clear words. */
  lemma ClearsOnWriteExactly(r: Register, pin: nat)
    requires pin < PIN_COUNT
    ensures ClearsOnWrite(Locate(r, pin).word) <==> r == GPEDS
  {
  }

  /** A field reads back the value just written to it. */
  lemma ReadBack(s: seq<bv32>, r: Register, pin: nat, v: bv32)
    requires Block(s) && pin < PIN_COUNT && v <= Mask(Width(r))
    ensures FieldValue(WithField(s, r, pin, v), r, pin) == v
  {
    var f := Locate(r, pin);
    ExtractInsertSame(s[f.word], f.bit, f.width, v);
  }

  /** Writing one pin's field changes no other field: not another pin's field of the
      same register, and no field of another register. */
  lemma WithFieldFrame(s: seq<bv32>, r: Register, pin: nat, v: bv32, r2: Register, q: nat)
    requires Block(s) && pin < PIN_COUNT && v <= Mask(Width(r)) && q < PIN_COUNT
    requires r2 != r || q != pin
    ensures FieldValue(WithField(s, r, pin, v), r2, q) == FieldValue(s, r2, q)
  {
    var f, g := Locate(r, pin), Locate(r2, q);
    if r2 != r {
      BanksDisjoint(r, r2, pin, q);
    } else {
      PinsDisjoint(r, pin, q);
      if g.word == f.word {
        ExtractInsertOther(s[f.word], f.bit, g.bit, f.width, v);
      }
    }
  }

  /** Of two writes to the same field, the second wins. */
  lemma WithFieldLastWins(s: seq<bv32>, r: Register, pin: nat, a: bv32, b: bv32)
    requires Block(s) && pin < PIN_COUNT && a <= Mask(Width(r)) && b <= Mask(Width(r))
    ensures WithField(WithField(s, r, pin, a), r, pin, b) == WithField(s, r, pin, b)
  {
    var f := Locate(r, pin);
    InsertInsert(s[f.word], f.bit, f.width, a, b);
  }

  /** Writing a field and then writing back its former value restores the whole block:
      enabling a detect bit that was clear and disabling it again changes nothing. */
  lemma WithFieldRestores(s: seq<bv32>, r: Register, pin: nat, v: bv32)
    requires Block(s) && pin < PIN_COUNT && v <= Mask(Width(r))
    ensures WithField(WithField(s, r, pin, v), r, pin, FieldValue(s, r, pin)) == s
  {
    var f := Locate(r, pin);
    InsertInsert(s[f.word], f.bit, f.width, v, FieldValue(s, r, pin));
    InsertExtract(s[f.word], f.bit, f.width);
  }

  /** After a store to the set or clear register, the pin's word holds exactly the pin's
      bit: the pin's field reads 1 and every other pin sharing that word reads 0. */
  lemma StrobeSingleBit(s: seq<bv32>, r: Register, pin: nat, q: nat)
    requires Block(s) && pin < PIN_COUNT && q < PIN_COUNT && r in {GPSET, GPCLR}
    requires Locate(r, q).word == Locate(r, pin).word
    ensures Strobe(s, r, pin)[Locate(r, pin).word] == SingleBit(Locate(r, pin).bit)
    ensures FieldValue(Strobe(s, r, pin), r, q) == if q == pin then 1 else 0
  {
    var f, g := Locate(r, pin), Locate(r, q);
    ClearsOnWriteExactly(r, pin);
    ExtractSingleBit(f.bit, g.bit);
    if q != pin {
      PinsDisjoint(r, pin, q);
    }
  }

  /** A write-1-to-act store changes no field of any other register. */
  lemma StrobeFrame(s: seq<bv32>, r: Register, pin: nat, r2: Register, q: nat)
    requires Block(s) && pin < PIN_COUNT && q < PIN_COUNT && IsWriteToAct(r) && r2 != r
    ensures FieldValue(Strobe(s, r, pin), r2, q) == FieldValue(s, r2, q)
  {
    BanksDisjoint(r, r2, pin, q);
  }

  /** Storing the same word twice leaves a register as storing it once: the second
      store writes the value already there, or clears bits already clear. */
  lemma AfterStoreTwice(x: bv32, i: nat, v: bv32)
    ensures AfterStore(AfterStore(x, i, v), i, v) == AfterStore(x, i, v)
  {
  }

  /** Clearing an event clears the pin's status bit and no other pin's. */
  lemma ClearEventOnlyThatBit(s: seq<bv32>, pin: nat, q: nat)
    requires Block(s) && pin < PIN_COUNT && q < PIN_COUNT
    ensures FieldValue(Strobe(s, GPEDS, pin), GPEDS, q)
            == if q == pin then 0 else FieldValue(s, GPEDS, q)
  {
    if q == pin {
      ClearEventClears(s, pin);
    } else {
      ClearEventKeeps(s, pin, q);
    }
  }

  lemma ClearEventClears(s: seq<bv32>, pin: nat)
    requires Block(s) && pin < PIN_COUNT
    ensures FieldValue(Strobe(s, GPEDS, pin), GPEDS, pin) == 0
  {
    var f := Locate(GPEDS, pin);
    assert ClearsOnWrite(f.word);
    ExtractClearBit(s[f.word], f.bit, f.bit);
  }

  lemma ClearEventKeeps(s: seq<bv32>, pin: nat, q: nat)
    requires Block(s) && pin < PIN_COUNT && q < PIN_COUNT && q != pin
    ensures FieldValue(Strobe(s, GPEDS, pin), GPEDS, q) == FieldValue(s, GPEDS, q)
  {
    var f, g := Locate(GPEDS, pin), Locate(GPEDS, q);
    if g.word == f.word {
      SharedWordDistinctBits(GPEDS, pin, q);
      ClearEventKeepsSharedWord(s[f.word], f.word, f.bit, g.bit);
    }
  }

  /** Two pins whose single-bit fields share a word sit at different bits. */
  lemma SharedWordDistinctBits(r: Register, p: nat, q: nat)
    requires p < PIN_COUNT && q < PIN_COUNT && p != q && Width(r) == 1
    requires Locate(r, p).word == Locate(r, q).word
    ensures Locate(r, p).bit != Locate(r, q).bit
  {
    PinsDisjoint(r, p, q);
  }

  lemma ClearEventKeepsSharedWord(x: bv32, i: nat, a: bv32, b: bv32)
    requires ClearsOnWrite(i) && a < 32 && b < 32 && a != b
    ensures Extract(AfterStore(x, i, SingleBit(a)), b, 1) == Extract(x, b, 1)
  {
    ClearOtherBit(x, AfterStore(x, i, SingleBit(a)), a, b);
  }

  /** Repeating a write-1-to-act store leaves the block as one store left it: driving a
      pin high twice is driving it high once, and clearing an event twice is clearing it once. */
  lemma StrobeIdempotent(s: seq<bv32>, r: Register, pin: nat)
    requires Block(s) && pin < PIN_COUNT && IsWriteToAct(r)
    ensures Strobe(Strobe(s, r, pin), r, pin) == Strobe(s, r, pin)
  {
    var f := Locate(r, pin);
    AfterStoreTwice(s[f.word], f.word, SingleBit(f.bit));
  }

  /** A read-modify-write of one field changes that field to the value written and
      no other field of the block. */
  lemma WithFieldOnlyChanges(s: seq<bv32>, r: Register, pin: nat, v: bv32)
    requires Block(s) && pin < PIN_COUNT && v <= Mask(Width(r))
    ensures FieldValue(WithField(s, r, pin, v), r, pin) == v
    ensures OnlyFieldChanged(s, WithField(s, r, pin, v), r, pin)
  {
    ReadBack(s, r, pin, v);
    forall r2: Register, q: nat | q < PIN_COUNT && (r2 != r || q != pin)
      ensures FieldValue(WithField(s, r, pin, v), r2, q) == FieldValue(s, r2, q)
    {
      WithFieldFrame(s, r, pin, v, r2, q);
    }
  }

  /** A write-1-to-act store changes no field of another register; a store to the
      event status register changes no field but the pin's own status bit, which it clears. */
  lemma StrobeOnlyChanges(s: seq<bv32>, r: Register, pin: nat)
    requires Block(s) && pin < PIN_COUNT && IsWriteToAct(r)
    ensures OnlyRegisterChanged(s, Strobe(s, r, pin), r)
    ensures r == GPEDS ==> FieldValue(Strobe(s, r, pin), r, pin) == 0
    ensures r == GPEDS ==> OnlyFieldChanged(s, Strobe(s, r, pin), r, pin)
  {
    forall r2: Register, q: nat | q < PIN_COUNT && r2 != r
      ensures FieldValue(Strobe(s, r, pin), r2, q) == FieldValue(s, r2, q)
    {
      StrobeFrame(s, r, pin, r2, q);
    }
    if r == GPEDS {
      ClearEventClears(s, pin);
      forall q: nat | q < PIN_COUNT && q != pin
        ensures FieldValue(Strobe(s, r, pin), r, q) == FieldValue(s, r, q)
      {
        ClearEventKeeps(s, pin, q);
      }
    }
  }
}
