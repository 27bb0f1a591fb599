/** The per-pin operations of the GPIO library over the mapped register window.
    `GpioBlock` owns the window as an array of 32-bit words; every operation is a load
    and/or a store of one word, recorded in the ghost access trace `Trace`, so that the
    contracts can say not only what the block holds afterwards but also which words
    were read and written, and in what order. */
module Gpio {
  import opened BitField
  import opened Layout
  import opened RegisterFile

  /** One access to the register window: a 32-bit load, or a 32-bit store of `value`. */
  datatype Access = Load(word: nat) | Store(word: nat, value: bv32)

  /** The eight functions a pin can be given through its function-select field. */
  datatype PinFunction = Input | Output | Alt0 | Alt1 | Alt2 | Alt3 | Alt4 | Alt5

  /** The hardware's 3-bit code for each pin function. */
  function FunctionCode(f: PinFunction): (c: bv32)
    ensures c <= Mask(3)
  {
    match f
    case Input => INPUT
    case Output => OUTPUT
    case Alt0 => ALTERNATE_FUNCTION_0
    case Alt1 => ALTERNATE_FUNCTION_1
    case Alt2 => ALTERNATE_FUNCTION_2
    case Alt3 => ALTERNATE_FUNCTION_3
    case Alt4 => ALTERNATE_FUNCTION_4
    case Alt5 => ALTERNATE_FUNCTION_5
  }

  /** The pin function a 3-bit function-select code stands for. */
  function DecodeFunction(c: bv32): (f: PinFunction)
    requires c <= Mask(3)
  {
    if c == INPUT then Input
    else if c == OUTPUT then Output
    else if c == ALTERNATE_FUNCTION_0 then Alt0
    else if c == ALTERNATE_FUNCTION_1 then Alt1
    else if c == ALTERNATE_FUNCTION_2 then Alt2
    else if c == ALTERNATE_FUNCTION_3 then Alt3
    else if c == ALTERNATE_FUNCTION_4 then Alt4
    else Alt5
  }

  /** Every function's code decodes back to that function: no two functions share a code. */
  lemma DecodeFunctionCode(f: PinFunction)
    ensures DecodeFunction(FunctionCode(f)) == f
  {
  }

  /** Every 3-bit code is the code of the function it decodes to: the table uses all eight. */
  lemma FunctionCodeDecode(c: bv32)
    requires c <= Mask(3)
    ensures FunctionCode(DecodeFunction(c)) == c
  {
  }

  /** The registers the engine writes by read-modify-write of one field. */
  predicate IsReadModifyWrite(r: Register) {
    r == GPFSEL || r == GPPULL || IsDetect(r)
  }

  /** The accesses of a read-modify-write of pin `pin`'s field of `r` over block `s`:
      one load of the word holding the field, then one store of that word back with the
      field replaced by `v` and every other bit as loaded. */
  function FieldWriteAccesses(s: seq<bv32>, r: Register, pin: nat, v: bv32): (a: seq<Access>)
    requires Block(s) && pin < PIN_COUNT && v <= Mask(Width(r))
    ensures |a| == 2 && a[0].Load? && a[1].Store?
    ensures a[0].word == a[1].word == Locate(r, pin).word
    ensures Extract(a[1].value, Locate(r, pin).bit, Width(r)) == v
  {
    var f := Locate(r, pin);
    ExtractInsertSame(s[f.word], f.bit, f.width, v);
    [Load(f.word), Store(f.word, Insert(s[f.word], f.bit, f.width, v))]
  }

  /** The mapped register window and the accesses made to it since it was mapped. */
  class GpioBlock {
    const words: array<bv32>
    ghost var Trace: seq<Access>

    ghost predicate Valid() {
      words.Length == BLOCK_WORDS
    }

    /** A window whose words hold `initial` when it is mapped. */
    constructor (initial: seq<bv32>)
      requires Block(initial)
      ensures Valid() && fresh(words)
      ensures words[..] == initial && Trace == []
    {
      words := new bv32[|initial|](i requires 0 <= i < |initial| => initial[i]);
      Trace := [];
    }

    /** A 32-bit load of word `i`. */
    method LoadWord(i: nat) returns (v: bv32)
      requires Valid() && i < BLOCK_WORDS
      modifies this
      ensures v == words[i]
      ensures Trace == old(Trace) + [Load(i)]
    {
      v := words[i];
      Trace := Trace + [Load(i)];
    }

    /** A 32-bit store of `v` to word `i`; the register reacts as AfterStore says. */
    method StoreWordAt(i: nat, v: bv32)
      requires Valid() && i < BLOCK_WORDS
      modifies this, words
      ensures words[..] == StoreWord(old(words[..]), i, v)
      ensures Trace == old(Trace) + [Store(i, v)]
    {
      words[i] := AfterStore(words[i], i, v);
      Trace := Trace + [Store(i, v)];
    }

    /** The getter: one load of the word holding the pin's field, then shift and mask. */
    method ReadField(r: Register, pin: nat) returns (v: int)
      requires Valid() && pin < PIN_COUNT
      modifies this
      ensures v == FieldValue(words[..], r, pin) as int
      ensures 0 <= v <= Mask(Width(r)) as int
      ensures Trace == old(Trace) + [Load(Locate(r, pin).word)]
    {
      var f := Locate(r, pin);
      var w := LoadWord(f.word);
      v := Extract(w, f.bit, f.width) as int;
    }

    /** The field setter: load the word, clear the field, OR in `v`, store the word back. */
    method WriteField(r: Register, pin: nat, v: bv32)
      requires Valid() && pin < PIN_COUNT && IsReadModifyWrite(r) && v <= Mask(Width(r))
      modifies this, words
      ensures words[..] == WithField(old(words[..]), r, pin, v)
      ensures FieldValue(words[..], r, pin) == v
      ensures OnlyFieldChanged(old(words[..]), words[..], r, pin)
      ensures Trace == old(Trace) + FieldWriteAccesses(old(words[..]), r, pin, v)
    {
      var f := Locate(r, pin);
      ClearsOnWriteExactly(r, pin);
      var w := LoadWord(f.word);
      StoreWordAt(f.word, Insert(w, f.bit, f.width, v));
      WithFieldOnlyChanges(old(words[..]), r, pin, v);
    }

    /** The write-1-to-act access: one store of the pin's single-bit word, no load. */
    method WriteBit(r: Register, pin: nat)
      requires Valid() && pin < PIN_COUNT && IsWriteToAct(r)
      modifies this, words
      ensures words[..] == Strobe(old(words[..]), r, pin)
      ensures OnlyRegisterChanged(old(words[..]), words[..], r)
      ensures Trace == old(Trace) + [Store(Locate(r, pin).word, SingleBit(Locate(r, pin).bit))]
    {
      var f := Locate(r, pin);
      StoreWordAt(f.word, SingleBit(f.bit));
      StrobeOnlyChanges(old(words[..]), r, pin);
    }

    /** Gives the pin function `fn`: the pin's 3-bit GPFSEL field reads back its code. */
    method SetFunction(pin: nat, fn: PinFunction)
      requires Valid() && pin < PIN_COUNT
      modifies this, words
      ensures words[..] == WithField(old(words[..]), GPFSEL, pin, FunctionCode(fn))
      ensures FieldValue(words[..], GPFSEL, pin) == FunctionCode(fn)
      ensures DecodeFunction(FieldValue(words[..], GPFSEL, pin)) == fn
      ensures OnlyFieldChanged(old(words[..]), words[..], GPFSEL, pin)
      ensures Trace == old(Trace) + FieldWriteAccesses(old(words[..]), GPFSEL, pin, FunctionCode(fn))
    {
      WriteField(GPFSEL, pin, FunctionCode(fn));
      DecodeFunctionCode(fn);
    }

    method Input(pin: nat)
      requires Valid() && pin < PIN_COUNT
      modifies this, words
      ensures words[..] == WithField(old(words[..]), GPFSEL, pin, INPUT)
      ensures FieldValue(words[..], GPFSEL, pin) == INPUT
      ensures OnlyFieldChanged(old(words[..]), words[..], GPFSEL, pin)
      ensures Trace == old(Trace) + FieldWriteAccesses(old(words[..]), GPFSEL, pin, INPUT)
    {
      SetFunction(pin, PinFunction.Input);
    }

    method Output(pin: nat)
      requires Valid() && pin < PIN_COUNT
      modifies this, words
      ensures words[..] == WithField(old(words[..]), GPFSEL, pin, OUTPUT)
      ensures FieldValue(words[..], GPFSEL, pin) == OUTPUT
      ensures OnlyFieldChanged(old(words[..]), words[..], GPFSEL, pin)
      ensures Trace == old(Trace) + FieldWriteAccesses(old(words[..]), GPFSEL, pin, OUTPUT)
    {
      SetFunction(pin, PinFunction.Output);
    }

    method Alt0(pin: nat)
      requires Valid() && pin < PIN_COUNT
      modifies this, words
      ensures words[..] == WithField(old(words[..]), GPFSEL, pin, ALTERNATE_FUNCTION_0)
      ensures FieldValue(words[..], GPFSEL, pin) == ALTERNATE_FUNCTION_0
      ensures OnlyFieldChanged(old(words[..]), words[..], GPFSEL, pin)
      ensures Trace == old(Trace) + FieldWriteAccesses(old(words[..]), GPFSEL, pin, ALTERNATE_FUNCTION_0)
    {
      SetFunction(pin, PinFunction.Alt0);
    }

    method Alt1(pin: nat)
      requires Valid() && pin < PIN_COUNT
      modifies this, words
      ensures words[..] == WithField(old(words[..]), GPFSEL, pin, ALTERNATE_FUNCTION_1)
      ensures FieldValue(words[..], GPFSEL, pin) == ALTERNATE_FUNCTION_1
      ensures OnlyFieldChanged(old(words[..]), words[..], GPFSEL, pin)
      ensures Trace == old(Trace) + FieldWriteAccesses(old(words[..]), GPFSEL, pin, ALTERNATE_FUNCTION_1)
    {
      SetFunction(pin, PinFunction.Alt1);
    }

    method Alt2(pin: nat)
      requires Valid() && pin < PIN_COUNT
      modifies this, words
      ensures words[..] == WithField(old(words[..]), GPFSEL, pin, ALTERNATE_FUNCTION_2)
      ensures FieldValue(words[..], GPFSEL, pin) == ALTERNATE_FUNCTION_2
      ensures OnlyFieldChanged(old(words[..]), words[..], GPFSEL, pin)
      ensures Trace == old(Trace) + FieldWriteAccesses(old(words[..]), GPFSEL, pin, ALTERNATE_FUNCTION_2)
    {
      SetFunction(pin, PinFunction.Alt2);
    }

    method Alt3(pin: nat)
      requires Valid() && pin < PIN_COUNT
      modifies this, words
      ensures words[..] == WithField(old(words[..]), GPFSEL, pin, ALTERNATE_FUNCTION_3)
      ensures FieldValue(words[..], GPFSEL, pin) == ALTERNATE_FUNCTION_3
      ensures OnlyFieldChanged(old(words[..]), words[..], GPFSEL, pin)
      ensures Trace == old(Trace) + FieldWriteAccesses(old(words[..]), GPFSEL, pin, ALTERNATE_FUNCTION_3)
    {
      SetFunction(pin, PinFunction.Alt3);
    }

    method Alt4(pin: nat)
      requires Valid() && pin < PIN_COUNT
      modifies this, words
      ensures words[..] == WithField(old(words[..]), GPFSEL, pin, ALTERNATE_FUNCTION_4)
      ensures FieldValue(words[..], GPFSEL, pin) == ALTERNATE_FUNCTION_4
      ensures OnlyFieldChanged(old(words[..]), words[..], GPFSEL, pin)
      ensures Trace == old(Trace) + FieldWriteAccesses(old(words[..]), GPFSEL, pin, ALTERNATE_FUNCTION_4)
    {
      SetFunction(pin, PinFunction.Alt4);
    }

    method Alt5(pin: nat)
      requires Valid() && pin < PIN_COUNT
      modifies this, words
      ensures words[..] == WithField(old(words[..]), GPFSEL, pin, ALTERNATE_FUNCTION_5)
      ensures FieldValue(words[..], GPFSEL, pin) == ALTERNATE_FUNCTION_5
      ensures OnlyFieldChanged(old(words[..]), words[..], GPFSEL, pin)
      ensures Trace == old(Trace) + FieldWriteAccesses(old(words[..]), GPFSEL, pin, ALTERNATE_FUNCTION_5)
    {
      SetFunction(pin, PinFunction.Alt5);
    }

    /** Drives the pin low: one store of the pin's bit to GPCLR, without reading it. */
    method Low(pin: nat)
      requires Valid() && pin < PIN_COUNT
      modifies this, words
      ensures words[..] == Strobe(old(words[..]), GPCLR, pin)
      ensures OnlyRegisterChanged(old(words[..]), words[..], GPCLR)
      ensures Trace == old(Trace) + [Store(Locate(GPCLR, pin).word, SingleBit(Locate(GPCLR, pin).bit))]
    {
      WriteBit(GPCLR, pin);
    }

    /** Drives the pin high: one store of the pin's bit to GPSET, without reading it. */
    method High(pin: nat)
      requires Valid() && pin < PIN_COUNT
      modifies this, words
      ensures words[..] == Strobe(old(words[..]), GPSET, pin)
      ensures OnlyRegisterChanged(old(words[..]), words[..], GPSET)
      ensures Trace == old(Trace) + [Store(Locate(GPSET, pin).word, SingleBit(Locate(GPSET, pin).bit))]
    {
      WriteBit(GPSET, pin);
    }

    /** The pin's function code, 0 to 7, read from GPFSEL. */
    method Function(pin: nat) returns (code: int)
      requires Valid() && pin < PIN_COUNT
      modifies this
      ensures code == FieldValue(words[..], GPFSEL, pin) as int && 0 <= code < 8
      ensures Trace == old(Trace) + [Load(Locate(GPFSEL, pin).word)]
    {
      code := ReadField(GPFSEL, pin);
    }

    /** The pin's level, LOW or HIGH, read from GPLEV. */
    method Level(pin: nat) returns (level: int)
      requires Valid() && pin < PIN_COUNT
      modifies this
      ensures level == FieldValue(words[..], GPLEV, pin) as int
      ensures level == LOW || level == HIGH
      ensures Trace == old(Trace) + [Load(Locate(GPLEV, pin).word)]
    {
      level := ReadField(GPLEV, pin);
    }

    /** Whether a detect-enable bit is set (1) or clear (0). */
    method DetectEnabled(r: Register, pin: nat) returns (enabled: int)
      requires Valid() && pin < PIN_COUNT && IsDetect(r)
      modifies this
      ensures enabled == FieldValue(words[..], r, pin) as int
      ensures enabled == 0 || enabled == 1
      ensures Trace == old(Trace) + [Load(Locate(r, pin).word)]
    {
      enabled := ReadField(r, pin);
    }

    method RisingEdgeDetect(pin: nat) returns (enabled: int)
      requires Valid() && pin < PIN_COUNT
      modifies this
      ensures enabled == FieldValue(words[..], GPREN, pin) as int
      ensures Trace == old(Trace) + [Load(Locate(GPREN, pin).word)]
    {
      enabled := DetectEnabled(GPREN, pin);
    }

    method FallingEdgeDetect(pin: nat) returns (enabled: int)
      requires Valid() && pin < PIN_COUNT
      modifies this
      ensures enabled == FieldValue(words[..], GPFEN, pin) as int
      ensures Trace == old(Trace) + [Load(Locate(GPFEN, pin).word)]
    {
      enabled := DetectEnabled(GPFEN, pin);
    }

    method HighDetect(pin: nat) returns (enabled: int)
      requires Valid() && pin < PIN_COUNT
      modifies this
      ensures enabled == FieldValue(words[..], GPHEN, pin) as int
      ensures Trace == old(Trace) + [Load(Locate(GPHEN, pin).word)]
    {
      enabled := DetectEnabled(GPHEN, pin);
    }

    method LowDetect(pin: nat) returns (enabled: int)
      requires Valid() && pin < PIN_COUNT
      modifies this
      ensures enabled == FieldValue(words[..], GPLEN, pin) as int
      ensures Trace == old(Trace) + [Load(Locate(GPLEN, pin).word)]
    {
      enabled := DetectEnabled(GPLEN, pin);
    }

    method AsyncRisingEdgeDetect(pin: nat) returns (enabled: int)
      requires Valid() && pin < PIN_COUNT
      modifies this
      ensures enabled == FieldValue(words[..], GPAREN, pin) as int
      ensures Trace == old(Trace) + [Load(Locate(GPAREN, pin).word)]
    {
      enabled := DetectEnabled(GPAREN, pin);
    }

    method AsyncFallingEdgeDetect(pin: nat) returns (enabled: int)
      requires Valid() && pin < PIN_COUNT
      modifies this
      ensures enabled == FieldValue(words[..], GPAFEN, pin) as int
      ensures Trace == old(Trace) + [Load(Locate(GPAFEN, pin).word)]
    {
      enabled := DetectEnabled(GPAFEN, pin);
    }

    /** The pin's pull setting read from its 2-bit GPPULL field: NONE, UP, DOWN, or 3. */
    method PullDirection(pin: nat) returns (direction: int)
      requires Valid() && pin < PIN_COUNT
      modifies this
      ensures direction == FieldValue(words[..], GPPULL, pin) as int && 0 <= direction < 4
      ensures Trace == old(Trace) + [Load(Locate(GPPULL, pin).word)]
    {
      direction := ReadField(GPPULL, pin);
    }

    method PullUp(pin: nat)
      requires Valid() && pin < PIN_COUNT
      modifies this, words
      ensures words[..] == WithField(old(words[..]), GPPULL, pin, UP)
      ensures FieldValue(words[..], GPPULL, pin) == UP
      ensures OnlyFieldChanged(old(words[..]), words[..], GPPULL, pin)
      ensures Trace == old(Trace) + FieldWriteAccesses(old(words[..]), GPPULL, pin, UP)
    {
      WriteField(GPPULL, pin, UP);
    }

    method PullDown(pin: nat)
      requires Valid() && pin < PIN_COUNT
      modifies this, words
      ensures words[..] == WithField(old(words[..]), GPPULL, pin, DOWN)
      ensures FieldValue(words[..], GPPULL, pin) == DOWN
      ensures OnlyFieldChanged(old(words[..]), words[..], GPPULL, pin)
      ensures Trace == old(Trace) + FieldWriteAccesses(old(words[..]), GPPULL, pin, DOWN)
    {
      WriteField(GPPULL, pin, DOWN);
    }

    method NoPull(pin: nat)
      requires Valid() && pin < PIN_COUNT
      modifies this, words
      ensures words[..] == WithField(old(words[..]), GPPULL, pin, NONE)
      ensures FieldValue(words[..], GPPULL, pin) == NONE
      ensures OnlyFieldChanged(old(words[..]), words[..], GPPULL, pin)
      ensures Trace == old(Trace) + FieldWriteAccesses(old(words[..]), GPPULL, pin, NONE)
    {
      WriteField(GPPULL, pin, NONE);
    }

    /** EVENT_OCCURED if the pin's GPEDS bit is set, NO_EVENT otherwise; one load, no store. */
    method Event(pin: nat) returns (e: int)
      requires Valid() && pin < PIN_COUNT
      modifies this
      ensures e == if FieldValue(words[..], GPEDS, pin) == 1 then EVENT_OCCURED else NO_EVENT
      ensures Trace == old(Trace) + [Load(Locate(GPEDS, pin).word)]
    {
      e := ReadField(GPEDS, pin);
    }

    /** Clears the pin's event: one store of the pin's bit to GPEDS, without reading it. */
    method ClearEvent(pin: nat)
      requires Valid() && pin < PIN_COUNT
      modifies this, words
      ensures words[..] == Strobe(old(words[..]), GPEDS, pin)
      ensures FieldValue(words[..], GPEDS, pin) == 0
      ensures OnlyFieldChanged(old(words[..]), words[..], GPEDS, pin)
      ensures Trace == old(Trace) + [Store(Locate(GPEDS, pin).word, SingleBit(Locate(GPEDS, pin).bit))]
    {
      WriteBit(GPEDS, pin);
      StrobeOnlyChanges(old(words[..]), GPEDS, pin);
    }

    /** Reports the pin's event and, if there was one, clears it straight away: the
        same result, block and accesses as Event followed, on EVENT_OCCURED, by ClearEvent. */
    method GetEventAndClear(pin: nat) returns (e: int)
      requires Valid() && pin < PIN_COUNT
      modifies this, words
      ensures e == if FieldValue(old(words[..]), GPEDS, pin) == 1 then EVENT_OCCURED else NO_EVENT
      ensures words[..] == if e == EVENT_OCCURED then Strobe(old(words[..]), GPEDS, pin) else old(words[..])
      ensures FieldValue(words[..], GPEDS, pin) == 0
      ensures var f := Locate(GPEDS, pin);
              Trace == old(Trace) + [Load(f.word)] + if e == EVENT_OCCURED then [Store(f.word, SingleBit(f.bit))] else []
    {
      var f := Locate(GPEDS, pin);
      var w := LoadWord(f.word);
      var bit := Extract(w, f.bit, 1);
      if bit == 1 {
        StoreWordAt(f.word, SingleBit(f.bit));
        ClearEventClears(old(words[..]), pin);
      }
      e := bit as int;
    }

    /** Sets (on) or clears (off) the pin's bit in a detect-enable register by
        read-modify-write. */
    method SetDetect(r: Register, pin: nat, on: bool)
      requires Valid() && pin < PIN_COUNT && IsDetect(r)
      modifies this, words
      ensures words[..] == WithField(old(words[..]), r, pin, if on then 1 else 0)
      ensures FieldValue(words[..], r, pin) == if on then 1 else 0
      ensures OnlyFieldChanged(old(words[..]), words[..], r, pin)
      ensures Trace == old(Trace) + FieldWriteAccesses(old(words[..]), r, pin, if on then 1 else 0)
    {
      WriteField(r, pin, if on then 1 else 0);
    }

    method EnableRisingEdgeDetect(pin: nat)
      requires Valid() && pin < PIN_COUNT
      modifies this, words
      ensures words[..] == WithField(old(words[..]), GPREN, pin, 1)
      ensures FieldValue(words[..], GPREN, pin) == 1
      ensures OnlyFieldChanged(old(words[..]), words[..], GPREN, pin)
      ensures Trace == old(Trace) + FieldWriteAccesses(old(words[..]), GPREN, pin, 1)
    {
      SetDetect(GPREN, pin, true);
    }

    method EnableFallingEdgeDetect(pin: nat)
      requires Valid() && pin < PIN_COUNT
      modifies this, words
      ensures words[..] == WithField(old(words[..]), GPFEN, pin, 1)
      ensures FieldValue(words[..], GPFEN, pin) == 1
      ensures OnlyFieldChanged(old(words[..]), words[..], GPFEN, pin)
      ensures Trace == old(Trace) + FieldWriteAccesses(old(words[..]), GPFEN, pin, 1)
    {
      SetDetect(GPFEN, pin, true);
    }

    method EnableHighDetect(pin: nat)
      requires Valid() && pin < PIN_COUNT
      modifies this, words
      ensures words[..] == WithField(old(words[..]), GPHEN, pin, 1)
      ensures FieldValue(words[..], GPHEN, pin) == 1
      ensures OnlyFieldChanged(old(words[..]), words[..], GPHEN, pin)
      ensures Trace == old(Trace) + FieldWriteAccesses(old(words[..]), GPHEN, pin, 1)
    {
      SetDetect(GPHEN, pin, true);
    }

    method EnableLowDetect(pin: nat)
      requires Valid() && pin < PIN_COUNT
      modifies this, words
      ensures words[..] == WithField(old(words[..]), GPLEN, pin, 1)
      ensures FieldValue(words[..], GPLEN, pin) == 1
      ensures OnlyFieldChanged(old(words[..]), words[..], GPLEN, pin)
      ensures Trace == old(Trace) + FieldWriteAccesses(old(words[..]), GPLEN, pin, 1)
    {
      SetDetect(GPLEN, pin, true);
    }

    method EnableAsyncRisingEdgeDetect(pin: nat)
      requires Valid() && pin < PIN_COUNT
      modifies this, words
      ensures words[..] == WithField(old(words[..]), GPAREN, pin, 1)
      ensures FieldValue(words[..], GPAREN, pin) == 1
      ensures OnlyFieldChanged(old(words[..]), words[..], GPAREN, pin)
      ensures Trace == old(Trace) + FieldWriteAccesses(old(words[..]), GPAREN, pin, 1)
    {
      SetDetect(GPAREN, pin, true);
    }

    method EnableAsyncFallingEdgeDetect(pin: nat)
      requires Valid() && pin < PIN_COUNT
      modifies this, words
      ensures words[..] == WithField(old(words[..]), GPAFEN, pin, 1)
      ensures FieldValue(words[..], GPAFEN, pin) == 1
      ensures OnlyFieldChanged(old(words[..]), words[..], GPAFEN, pin)
      ensures Trace == old(Trace) + FieldWriteAccesses(old(words[..]), GPAFEN, pin, 1)
    {
      SetDetect(GPAFEN, pin, true);
    }

    method DisableRisingEdgeDetect(pin: nat)
      requires Valid() && pin < PIN_COUNT
      modifies this, words
      ensures words[..] == WithField(old(words[..]), GPREN, pin, 0)
      ensures FieldValue(words[..], GPREN, pin) == 0
      ensures OnlyFieldChanged(old(words[..]), words[..], GPREN, pin)
      ensures Trace == old(Trace) + FieldWriteAccesses(old(words[..]), GPREN, pin, 0)
    {
      SetDetect(GPREN, pin, false);
    }

    method DisableFallingEdgeDetect(pin: nat)
      requires Valid() && pin < PIN_COUNT
      modifies this, words
      ensures words[..] == WithField(old(words[..]), GPFEN, pin, 0)
      ensures FieldValue(words[..], GPFEN, pin) == 0
      ensures OnlyFieldChanged(old(words[..]), words[..], GPFEN, pin)
      ensures Trace == old(Trace) + FieldWriteAccesses(old(words[..]), GPFEN, pin, 0)
    {
      SetDetect(GPFEN, pin, false);
    }

    method DisableHighDetect(pin: nat)
      requires Valid() && pin < PIN_COUNT
      modifies this, words
      ensures words[..] == WithField(old(words[..]), GPHEN, pin, 0)
      ensures FieldValue(words[..], GPHEN, pin) == 0
      ensures OnlyFieldChanged(old(words[..]), words[..], GPHEN, pin)
      ensures Trace == old(Trace) + FieldWriteAccesses(old(words[..]), GPHEN, pin, 0)
    {
      SetDetect(GPHEN, pin, false);
    }

    method DisableLowDetect(pin: nat)
      requires Valid() && pin < PIN_COUNT
      modifies this, words
      ensures words[..] == WithField(old(words[..]), GPLEN, pin, 0)
      ensures FieldValue(words[..], GPLEN, pin) == 0
      ensures OnlyFieldChanged(old(words[..]), words[..], GPLEN, pin)
      ensures Trace == old(Trace) + FieldWriteAccesses(old(words[..]), GPLEN, pin, 0)
    {
      SetDetect(GPLEN, pin, false);
    }

    method DisableAsyncRisingEdgeDetect(pin: nat)
      requires Valid() && pin < PIN_COUNT
      modifies this, words
      ensures words[..] == WithField(old(words[..]), GPAREN, pin, 0)
      ensures FieldValue(words[..], GPAREN, pin) == 0
      ensures OnlyFieldChanged(old(words[..]), words[..], GPAREN, pin)
      ensures Trace == old(Trace) + FieldWriteAccesses(old(words[..]), GPAREN, pin, 0)
    {
      SetDetect(GPAREN, pin, false);
    }

    method DisableAsyncFallingEdgeDetect(pin: nat)
      requires Valid() && pin < PIN_COUNT
      modifies this, words
      ensures words[..] == WithField(old(words[..]), GPAFEN, pin, 0)
      ensures FieldValue(words[..], GPAFEN, pin) == 0
      ensures OnlyFieldChanged(old(words[..]), words[..], GPAFEN, pin)
      ensures Trace == old(Trace) + FieldWriteAccesses(old(words[..]), GPAFEN, pin, 0)
    {
      SetDetect(GPAFEN, pin, false);
    }
  }

  /** Maps the GPIO device. `permitted` says whether the caller may read and write the
      device file, and `hardware` is what the registers hold at that moment. */
  method InitGpio(permitted: bool, hardware: seq<bv32>) returns (status: int, block: GpioBlock?)
    requires Block(hardware)
    ensures status == if permitted then SUCCESS else NO_ACCESS
    ensures block != null <==> status == SUCCESS
    ensures block != null ==> fresh(block) && fresh(block.words) && block.Valid()
    ensures block != null ==> block.words[..] == hardware && block.Trace == []
  {
    if !permitted {
      return NO_ACCESS, null;
    }
    block := new GpioBlock(hardware);
    status := SUCCESS;
  }

  /** Sets up a window over an in-process buffer holding `buffer`, with no device needed. */
  method TestInit(buffer: seq<bv32>) returns (status: int, block: GpioBlock)
    requires Block(buffer)
    ensures status == SUCCESS
    ensures fresh(block) && fresh(block.words) && block.Valid()
    ensures block.words[..] == buffer && block.Trace == []
  {
    block := new GpioBlock(buffer);
    status := SUCCESS;
  }

  /** GetEventAndClear on one window and the documented sequence "e := Event(pin); if
      e == EVENT_OCCURED then ClearEvent(pin)" on an identical window end with the same
      result, the same words and the same accesses. */
  method GetEventAndClearAgrees(a: GpioBlock, b: GpioBlock, pin: nat) returns (e1: int, e2: int)
    requires a.Valid() && b.Valid() && pin < PIN_COUNT
    requires a != b && a.words != b.words
    requires a.words[..] == b.words[..] && a.Trace == b.Trace
    modifies a, a.words, b, b.words
    ensures e1 == e2
    ensures a.words[..] == b.words[..] && a.Trace == b.Trace
  {
    e1 := a.GetEventAndClear(pin);
    e2 := b.Event(pin);
    if e2 == EVENT_OCCURED {
      b.ClearEvent(pin);
    }
  }
}
