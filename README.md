# GPIO register-field engine for the BCM2711 (Raspberry Pi 4)

This project models the core of a small GPIO library for the Raspberry Pi 4. The library
maps the GPIO register block into the process and exposes one call per pin operation:
- choosing a pin's function (`input`, `output`, `alt0`..`alt5`);
- driving it `high` or `low`;
- reading its function, level, pull setting and detect enables;
- setting its pull-up/pull-down resistor;
- reading and clearing its event-detect status bit;
- enabling and disabling its six kinds of edge/level detection.

Every operation turns a (register kind, pin) pair into one field of one 32-bit register
word. For a register whose per-pin field is `w` bits wide (3 for GPFSEL, 2 for GPPULL,
1 for the rest), `fields_per_word = 32 / w`. The pin's field is in word
`pin / fields_per_word` of that register's bank, starting at bit
`(pin % fields_per_word) * w`. This follows the register layout of chapter 5 (General
Purpose I/O) of the BCM2711 ARM Peripherals manual: fields are packed from bit 0 upward,
and the pull-control words are GPIO_PUP_PDN_CNTRL_REG0-3 at 0xE4-0xF0. Function, pull and
detect-enable setters do a read-modify-write of the field. `high`, `low` and
`clear_event` do a single store of a word whose only set bit is the pin's bit, with no
load first.

The model has four modules:
- `BitField` (bitfield.dfy): the field read (shift right, mask) and the field write (clear
  with the inverted mask, OR in the value) on a `bv32` word, with their algebra.
- `Layout` (layout.dfy): the header's constants, the twelve register kinds with their
  byte offsets and widths, and the field descriptor `Locate`. Its lemmas show that every
  valid pin lands inside its own register's bank, that banks never overlap, and that two
  pins never share a bit.
- `RegisterFile` (register_file.dfy): the block as a value (`seq<bv32>`, 61 words from
  offset 0x00 to 0xF0), the field value every getter reads, and the two kinds of write.
  It also holds the lemmas for read-back, frame, last-write-wins, restore, single-bit
  stores, idempotence and write-1-to-clear.
- `Gpio` (gpio.dfy): the class `GpioBlock`, which owns the mapped window as an
  `array<bv32>` and has one method per declared operation. Each method is proved against
  the `RegisterFile` functions. A ghost access trace records every 32-bit load and store,
  so the contracts also state which words are read and written, and in what order. The
  module also has the two mapping entry points.

Store semantics. A store to a GPEDS word clears the bits written as 1 and keeps the
others; the header marks GPEDS "Read/Write 1 bit to clear". A store to any other word,
GPSET and GPCLR included, replaces it. Both kinds of window (the mapped device and the
in-process test buffer) follow these rules. No operation ever stores to GPLEV, so the
level register is whatever the hardware put there.

## Model

| member | source | states |
|---|---|---|
| `BitField.Extract` | gpio.h:104-115 | a value read from a `w`-bit field never exceeds `2^w - 1` |
| `BitField.Insert` | gpio.h:85-95 | a field setter's word keeps every bit outside the field as it was |
| `BitField.ExtractInsertSame` | gpio.h:85-95 | a field read right after it was written with `v` gives `v` |
| `BitField.ExtractInsertOther` | gpio.h:85-95 | writing one field leaves every field of the same width that shares no bit with it unchanged |
| `BitField.InsertInsert` | gpio.h:117-122 | of two writes to one field the second wins, whatever the first wrote |
| `BitField.InsertExtract` | gpio.h:158-174 | writing back the value just read from a field leaves the word unchanged |
| `BitField.ExtractSingleBit` | gpio.h:6-7 | the word stored by a write-1-to-act access reads 1 at the pin's bit and 0 at every other bit |
| `BitField.ExtractClearBit` | gpio.h:9 | write-1-to-clear clears the bit written as 1 and keeps every other bit |
| `Layout.ToWord` | gpio.h:88-174 | the `int pin` argument as a 32-bit word represents the same number; a conversion helper the descriptor arithmetic uses, not a property of the engine |
| `Layout.Offset` | gpio.h:5-16 | every register kind's byte offset is word-aligned and no later than GPPULL at 0xE4; the twelve values are the header's |
| `Layout.Width` | gpio.h:21-44 | every per-pin field is 1 to 3 bits wide: 3 bits hold the eight function codes, 2 bits the pull codes, 1 bit the rest |
| `Layout.Locate` | gpio.h:5-19 | for every pin below PIN_COUNT, the field lies in the register's own bank (6 words for GPFSEL, 4 for GPPULL, 2 otherwise), inside the 61-word block, and entirely inside one word |
| `Layout.LocateArithmetic` | gpio.h:5-16 | the descriptor is word `offset/4 + pin / (32/w)` and bit `(pin % (32/w)) * w` in integer arithmetic |
| `Layout.BanksDisjoint` | gpio.h:5-16 | fields of two different register kinds never share a word, so GPFSEL's six words end before GPSET at 0x1C |
| `Layout.PinsDisjoint` | gpio.h:19 | two different pins of one register kind are in different words or share no bit |
| `RegisterFile.FieldValue` | gpio.h:104-115 | a getter's value fits the register's field width: below 8 for GPFSEL, below 4 for GPPULL, 0 or 1 otherwise |
| `RegisterFile.WithField` | gpio.h:85-95 | a read-modify-write of a pin's field changes no word except the one holding that field |
| `RegisterFile.AfterStoreSemantics` | gpio.h:5-16 | what a register word holds after a store (`AfterStore`, which has no ensures of its own): on GPEDS, no bit written as 1 is set and every other bit is kept; on every other register, exactly the value stored |
| `RegisterFile.Strobe` | gpio.h:97-101 | a write-1-to-act access (high, low, clear_event) changes no word except the one holding the pin's bit |
| `RegisterFile.ClearsOnWriteExactly` | gpio.h:9 | a pin's field is in a write-1-to-clear word exactly when the register is GPEDS |
| `RegisterFile.ReadBack` | gpio.h:85-95 | after a pin's field of any register is written with `v`, the getter for that pin and register returns `v` |
| `RegisterFile.WithFieldFrame` | gpio.h:85-95 | writing a pin's field changes no other pin's field of that register and no field of any other register |
| `RegisterFile.WithFieldLastWins` | gpio.h:117-122 | setting a field twice leaves the block as setting it once to the second value, e.g. pull_up then pull_down is pull_down |
| `RegisterFile.WithFieldRestores` | gpio.h:158-174 | writing a field and then writing back its former value restores the whole block, so enabling a clear detect bit and disabling it again changes nothing |
| `RegisterFile.StrobeSingleBit` | gpio.h:97-101 | after high or low, the pin's GPSET/GPCLR word holds exactly the pin's bit: the pin reads 1 and every other pin of that word reads 0 |
| `RegisterFile.StrobeFrame` | gpio.h:97-101 | a write-1-to-act store changes no field of any other register |
| `RegisterFile.AfterStoreTwice` | gpio.h:6-9 | storing the same word twice leaves a register as storing it once |
| `RegisterFile.ClearEventOnlyThatBit` | gpio.h:130-133 | clear_event makes the pin's GPEDS bit 0 and keeps every other pin's GPEDS bit |
| `RegisterFile.StrobeIdempotent` | gpio.h:97-101 | calling high (or low, or clear_event) twice leaves the same block as calling it once |
| `RegisterFile.WithFieldOnlyChanges` | gpio.h:117-122 | after a field write the field holds the new value and no other field of the block changed |
| `RegisterFile.StrobeOnlyChanges` | gpio.h:130-133 | a write-1-to-act store changes no other register's field; on GPEDS it clears the pin's bit and changes no other field |
| `Gpio.FunctionCode` | gpio.h:21-29 | every pin function has a code that fits the 3-bit field |
| `Gpio.DecodeFunctionCode` | gpio.h:21-29 | no two of the eight functions share a code (INPUT 0, OUTPUT 1, ALT0 4, ALT1 5, ALT2 6, ALT3 7, ALT4 3, ALT5 2) |
| `Gpio.FunctionCodeDecode` | gpio.h:21-29 | each of the eight 3-bit codes is the code of some pin function |
| `Gpio.FieldWriteAccesses` | gpio.h:85-95 | a field setter makes exactly two accesses, a load and then a store of the same word, the pin's, and the stored word holds the new value in the pin's field |
| `Gpio.GpioBlock.constructor` | gpio.h:59-62 | a newly mapped window holds the given words and has seen no access |
| `Gpio.GpioBlock.StoreWordAt` | gpio.h:5-16 | a 32-bit store replaces the word, except on GPEDS, where it clears the bits written as 1 |
| `Gpio.GpioBlock.ReadField` | gpio.h:104-115 | a getter does exactly one load, of the word holding the pin's field, and returns that field's value |
| `Gpio.GpioBlock.WriteField` | gpio.h:85-95 | a field setter does one load and one store of the pin's word, the field reads back the value written, and no other field changes |
| `Gpio.GpioBlock.WriteBit` | gpio.h:97-101 | a write-1-to-act access does exactly one store, of the pin's single-bit word, with no load, and changes no other register |
| `Gpio.GpioBlock.SetFunction` | gpio.h:85-95 | the pin's GPFSEL field holds the function's code and decodes back to that function; nothing else changes |
| `Gpio.GpioBlock.Input` | gpio.h:88 | the pin's GPFSEL field reads INPUT (0); no other field changes |
| `Gpio.GpioBlock.Output` | gpio.h:89 | the pin's GPFSEL field reads OUTPUT (1); no other field changes |
| `Gpio.GpioBlock.Alt0` | gpio.h:90 | the pin's GPFSEL field reads 4; no other field changes |
| `Gpio.GpioBlock.Alt1` | gpio.h:91 | the pin's GPFSEL field reads 5; no other field changes |
| `Gpio.GpioBlock.Alt2` | gpio.h:92 | the pin's GPFSEL field reads 6; no other field changes |
| `Gpio.GpioBlock.Alt3` | gpio.h:93 | the pin's GPFSEL field reads 7; no other field changes |
| `Gpio.GpioBlock.Alt4` | gpio.h:94 | the pin's GPFSEL field reads 3; no other field changes |
| `Gpio.GpioBlock.Alt5` | gpio.h:95 | the pin's GPFSEL field reads 2; no other field changes |
| `Gpio.GpioBlock.Low` | gpio.h:100 | one store of the pin's bit to its GPCLR word, no load; no other register's field changes |
| `Gpio.GpioBlock.High` | gpio.h:101 | one store of the pin's bit to its GPSET word, no load; no other register's field changes |
| `Gpio.GpioBlock.Function` | gpio.h:107 | returns the pin's function code, 0 to 7, after one load of its GPFSEL word |
| `Gpio.GpioBlock.Level` | gpio.h:108 | returns LOW or HIGH, the pin's GPLEV bit, after one load |
| `Gpio.GpioBlock.DetectEnabled` | gpio.h:109-114 | returns 0 or 1, the pin's bit in the given detect-enable register |
| `Gpio.GpioBlock.RisingEdgeDetect` | gpio.h:109 | returns the pin's GPREN bit after one load |
| `Gpio.GpioBlock.FallingEdgeDetect` | gpio.h:110 | returns the pin's GPFEN bit after one load |
| `Gpio.GpioBlock.HighDetect` | gpio.h:111 | returns the pin's GPHEN bit after one load |
| `Gpio.GpioBlock.LowDetect` | gpio.h:112 | returns the pin's GPLEN bit after one load |
| `Gpio.GpioBlock.AsyncRisingEdgeDetect` | gpio.h:113 | returns the pin's GPAREN bit after one load |
| `Gpio.GpioBlock.AsyncFallingEdgeDetect` | gpio.h:114 | returns the pin's GPAFEN bit after one load |
| `Gpio.GpioBlock.PullDirection` | gpio.h:115 | returns the pin's 2-bit GPPULL field, 0 to 3, after one load |
| `Gpio.GpioBlock.PullUp` | gpio.h:120 | the pin's GPPULL field reads UP (1); no other field changes |
| `Gpio.GpioBlock.PullDown` | gpio.h:121 | the pin's GPPULL field reads DOWN (2); no other field changes |
| `Gpio.GpioBlock.NoPull` | gpio.h:122 | the pin's GPPULL field reads NONE (0); no other field changes |
| `Gpio.GpioBlock.Event` | gpio.h:124-128 | returns EVENT_OCCURED when the pin's GPEDS bit is 1 and NO_EVENT otherwise, with one load and no store, so the block is unchanged |
| `Gpio.GpioBlock.ClearEvent` | gpio.h:130-133 | one store of the pin's bit to GPEDS, no load; the pin's status bit is 0 afterwards and no other field changes |
| `Gpio.GpioBlock.GetEventAndClear` | gpio.h:135-146 | returns what event returns; stores the pin's bit to GPEDS only when there was an event, so the bit is 0 afterwards and the block is untouched when there was none |
| `Gpio.GpioBlock.SetDetect` | gpio.h:149-174 | sets or clears exactly the pin's bit in one detect-enable register; no other field changes |
| `Gpio.GpioBlock.EnableRisingEdgeDetect` | gpio.h:158 | the pin's GPREN bit reads 1; no other field changes |
| `Gpio.GpioBlock.EnableFallingEdgeDetect` | gpio.h:159 | the pin's GPFEN bit reads 1; no other field changes |
| `Gpio.GpioBlock.EnableHighDetect` | gpio.h:160 | the pin's GPHEN bit reads 1; no other field changes |
| `Gpio.GpioBlock.EnableLowDetect` | gpio.h:161 | the pin's GPLEN bit reads 1; no other field changes |
| `Gpio.GpioBlock.EnableAsyncRisingEdgeDetect` | gpio.h:162 | the pin's GPAREN bit reads 1; no other field changes |
| `Gpio.GpioBlock.EnableAsyncFallingEdgeDetect` | gpio.h:163 | the pin's GPAFEN bit reads 1; no other field changes |
| `Gpio.GpioBlock.DisableRisingEdgeDetect` | gpio.h:169 | the pin's GPREN bit reads 0; no other field changes |
| `Gpio.GpioBlock.DisableFallingEdgeDetect` | gpio.h:170 | the pin's GPFEN bit reads 0; no other field changes |
| `Gpio.GpioBlock.DisableHighDetect` | gpio.h:171 | the pin's GPHEN bit reads 0; no other field changes |
| `Gpio.GpioBlock.DisableLowDetect` | gpio.h:172 | the pin's GPLEN bit reads 0; no other field changes |
| `Gpio.GpioBlock.DisableAsyncRisingEdgeDetect` | gpio.h:173 | the pin's GPAREN bit reads 0; no other field changes |
| `Gpio.GpioBlock.DisableAsyncFallingEdgeDetect` | gpio.h:174 | the pin's GPAFEN bit reads 0; no other field changes |
| `Gpio.InitGpio` | gpio.h:47-57 | returns SUCCESS (0) with a fresh window onto the registers when the caller has access to the device, and NO_ACCESS (-13) with no window otherwise |
| `Gpio.TestInit` | gpio.h:59-62 | always returns SUCCESS with a fresh window over an in-process buffer |
| `Gpio.GetEventAndClearAgrees` | gpio.h:139-144 | on identical windows, get_event_and_clear and the sequence "e = event(pin); if e == EVENT_OCCURED, clear_event(pin)" give the same result, the same words and the same accesses |

## Left out

- `close_gpio` (gpio.h:65-68) and `gpio_base` (gpio.h:71-75) are not modelled. They unmap the device and report its virtual address, which is operating-system state. The header also does not say what `close_gpio` returns.
- Opening and mapping `/dev/gpiomem` is not modelled. Whether the caller may access it is the parameter `permitted` of `InitGpio`. Failures of `init_gpio` other than a missing permission are not modelled, because the header names only SUCCESS and NO_ACCESS.
- The register contents at mapping time are a parameter (`hardware`, `buffer`). So is the initial state of the test buffer, which the header does not describe.
- Hardware reactions are not modelled. GPLEV does not follow `high`/`low` (on the chip it does, for an output pin). GPEDS is not set by real edges or levels. The interrupt lines that an enabled detect register can trigger are left out too. GPLEV is never written, so it stays whatever the block held.
- GPSET and GPCLR keep the last word stored. On the chip they read as 0 and act on the output latch instead.
- Gpio.TestInit: the test window uses the chip's GPEDS write-1-to-clear behaviour, not that of a plain buffer. In a plain buffer, `clear_event` would store the pin's bit and zero the other bits of that word, so a later `event` would report an event. The SUCCESS result is also an assumption: the header gives `test_init` an `int` result but does not say what it returns.
- Pin numbers outside 0..PIN_COUNT-1 are a precondition, not behaviour: the header leaves them to the caller. The C `int` pin is a `nat`, so negative pins are excluded by its type.
- Pull code 3 cannot be written: only `pull_up`, `pull_down` and `no_pull` exist. `PullDirection` still returns 3 if the hardware holds it.
- The ARM64 calling convention, memory barriers, and concurrent access to the window from several threads are not modelled.
