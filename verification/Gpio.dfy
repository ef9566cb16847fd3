/** The pin configuration of task04/c_gpio.c: 3-bit function fields and 2-bit pull fields packed
    into 32-bit registers.  The registers are an array; `short_wait` does nothing to them.  The order
    of the writes is kept, since the older chips act on it. */
module Gpio {

  const REGISTERS := 1024          // BLOCK_SIZE bytes
  const PINS: bv32 := 54
  const FSEL_OFFSET := 0
  const PULLUPDN_OFFSET := 37
  const PULLUPDNCLK_OFFSET := 38
  const PULLUPDN_OFFSET_2711_0 := 57
  const PULLUPDN_OFFSET_2711_3 := 60
  const INPUT := 1
  const OUTPUT := 0
  const PUD_OFF := 0
  const PUD_DOWN := 1
  const PUD_UP := 2

  /** What register 60 reads on the chips before the 2711, where it is unused. */
  const UNUSED: bv32 := 0x6770696f

  type Registers = r: seq<bv32> | |r| == REGISTERS witness seq(REGISTERS, _ => 0)

  /** A pin number, as the C code computes with it. */
  type Pin = g: bv32 | g < PINS

  /** The register of a pin's function field, ten pins to a register. */
  function FunctionRegister(gpio: Pin): nat {
    if gpio < 10 then 0 else if gpio < 20 then 1 else if gpio < 30 then 2
    else if gpio < 40 then 3 else if gpio < 50 then 4 else 5
  }

  function FunctionShift(gpio: Pin): bv32 {
    (gpio % 10) * 3
  }

  /** The register of a pin's pull field on a 2711, sixteen pins to a register. */
  function PullRegister(gpio: Pin): nat {
    if gpio < 16 then 57 else if gpio < 32 then 58 else if gpio < 48 then 59 else 60
  }

  function PullShift(gpio: Pin): bv32 {
    (gpio & 0xf) << 1
  }

  /** The clock register of a pin on the older chips. */
  function ClockRegister(gpio: Pin): nat {
    if gpio < 32 then 38 else 39
  }

  /** The registers as the code computes them. */
  lemma RegistersOfPin(gpio: Pin)
    ensures FSEL_OFFSET + (gpio / 10) as int == FunctionRegister(gpio)
    ensures PULLUPDN_OFFSET_2711_0 + (gpio >> 4) as int == PullRegister(gpio)
    ensures PULLUPDNCLK_OFFSET + (gpio / 32) as int == ClockRegister(gpio)
  {
  }

  /** The encoding of a pull in the register. */
  function PullBits(pud: int): bv32 {
    if pud == PUD_UP then 1 else if pud == PUD_DOWN then 2 else 0
  }

  function DirectionBits(direction: int): bv32 {
    if direction == OUTPUT then 1 else 0
  }

  predicate Is2711(regs: Registers) {
    regs[PULLUPDN_OFFSET_2711_3] != UNUSED
  }

  /** The function field of a pin. */
  function FunctionOf(regs: Registers, gpio: Pin): bv32
  {
    (regs[FunctionRegister(gpio)] >> FunctionShift(gpio)) & 7
  }

  /** The pull field of a pin. */
  function PullOf(regs: Registers, gpio: Pin): bv32
  {
    (regs[PullRegister(gpio)] >> PullShift(gpio)) & 3
  }

  function WithPull(word: bv32, shift: bv32, pull: bv32): bv32
    requires shift < 32
  {
    (word & !(3 << shift)) | (pull << shift)
  }

  function WithFunction(word: bv32, shift: bv32, f: bv32): bv32
    requires shift < 32
  {
    (word & !(7 << shift)) | (f << shift)
  }

  /** The registers with the pull field of a pin set. */
  function PullSet(regs: Registers, gpio: Pin, pud: int): Registers
  {
    var reg := PullRegister(gpio);
    regs[reg := WithPull(regs[reg], PullShift(gpio), PullBits(pud))]
  }

  function Cleared(word: bv32): bv32 {
    word & !3
  }

  /** The legacy method leaves its control word and its clock register cleared. */
  function LegacyPullSet(regs: Registers, gpio: Pin): Registers
  {
    regs[PULLUPDN_OFFSET := Cleared(regs[PULLUPDN_OFFSET])][ClockRegister(gpio) := 0]
  }

  /** The registers after `set_pullupdn`. */
  function AfterSetPull(regs: Registers, gpio: Pin, pud: int): Registers
  {
    if Is2711(regs) then PullSet(regs, gpio, pud) else LegacyPullSet(regs, gpio)
  }

  datatype Call = Call(gpio: Pin, direction: int, pud: int)

  /** The registers after `setup_gpio`. */
  function AfterSetup(regs: Registers, c: Call): Registers
  {
    var r := AfterSetPull(regs, c.gpio, c.pud);
    var reg := FunctionRegister(c.gpio);
    r[reg := WithFunction(r[reg], FunctionShift(c.gpio), DirectionBits(c.direction))]
  }

  // ----- The registers, bit by bit -----

  /** Bits `2 * (gpio % 16)` and the next of register `57 + gpio / 16`. */
  function PullBitsAt(regs: Registers, gpio: Pin): bv32 {
    RegistersOfPin(gpio);
    (regs[57 + (gpio / 16) as int] >> (2 * (gpio % 16))) & 3
  }

  /** Bits `3 * (gpio % 10)` and the next two of register `gpio / 10`. */
  function FunctionBitsAt(regs: Registers, gpio: Pin): bv32 {
    RegistersOfPin(gpio);
    (regs[(gpio / 10) as int] >> (3 * (gpio % 10))) & 7
  }

  /** What the legacy method writes, one after the other: the control word to register 37, the bit of
      the pin to register 38 or 39, and both again without. */
  function LegacyWrites(control: bv32, gpio: Pin, pud: int): seq<(nat, bv32)> {
    var clock := 38 + (gpio / 32) as int;
    [(37, ControlWord(control, pud)), (clock, 1 << (gpio % 32)), (37, control & 0xFFFFFFFC), (clock, 0)]
  }

  /** 1 for down, 2 for up, 0 for anything else, in the lowest two bits. */
  function ControlWord(control: bv32, pud: int): bv32 {
    if pud == 1 then (control & 0xFFFFFFFC) | 1
    else if pud == 2 then (control & 0xFFFFFFFC) | 2
    else control & 0xFFFFFFFC
  }

  class Chip {
    const gpioMap: array<bv32>
    ghost var writes: seq<(nat, bv32)>  // the register and the word of every store so far

    constructor (memory: array<bv32>)
      requires memory.Length == REGISTERS
      ensures gpioMap == memory && writes == []
    {
      gpioMap := memory;
      writes := [];
    }

    /** A store to one register. */
    method Store(reg: nat, word: bv32)
      requires gpioMap.Length == REGISTERS && reg < REGISTERS
      modifies this`writes, gpioMap
      ensures gpioMap[..] == old(gpioMap[..])[reg := word] && writes == old(writes) + [(reg, word)]
    {
      gpioMap[reg] := word;
      writes := writes + [(reg, word)];
    }

    /** `set_pullupdn`.  On a 2711 the two bits of the pin become 1 for up, 2 for down and 0 for
        anything else, in one write; on the older chips the control word is written, then the clock
        bit of the pin, and then both are cleared. */
    method SetPullUpDn(gpio: Pin, pud: int)
      requires gpioMap.Length == REGISTERS
      modifies this`writes, gpioMap
      ensures gpioMap[..] == AfterSetPull(old(gpioMap[..]), gpio, pud)
      ensures old(gpioMap[60]) != 0x6770696f ==>
                && PullBitsAt(gpioMap[..], gpio) == (if pud == 2 then 1 else if pud == 1 then 2 else 0)
                && |writes| == |old(writes)| + 1 && old(writes) <= writes
      ensures old(gpioMap[60]) == 0x6770696f ==>
                writes == old(writes) + LegacyWrites(old(gpioMap[37]), gpio, pud)
    {
      ghost var regs := gpioMap[..];
      assert regs[60] == gpioMap[60];
      if Is2711(regs) {
        PullWritten(regs, gpio, pud);
      }
      var is2711 := gpioMap[PULLUPDN_OFFSET_2711_3] != UNUSED;
      assert is2711 == Is2711(gpioMap[..]);
      if is2711 {
        SetPullField(gpio, pud);
      } else {
        SetLegacyPull(gpio, pud);
      }
    }

    /** Lines 224-244, for the 2711. */
    method SetPullField(gpio: Pin, pud: int)
      requires gpioMap.Length == REGISTERS
      modifies this`writes, gpioMap
      ensures gpioMap[..] == PullSet(old(gpioMap[..]), gpio, pud)
      ensures |writes| == |old(writes)| + 1 && old(writes) <= writes
    {
      ghost var regs := gpioMap[..];
      RegistersOfPin(gpio);
      var pullreg := PULLUPDN_OFFSET_2711_0 + (gpio >> 4) as int;
      var pullshift := PullShift(gpio);
      var pull: bv32 := 0;
      if pud == PUD_OFF {
        pull := 0;
      } else if pud == PUD_UP {
        pull := 1;
      } else if pud == PUD_DOWN {
        pull := 2;
      }
      assert pull == PullBits(pud);
      var word := gpioMap[pullreg];
      assert word == regs[pullreg];
      Store(pullreg, WithPull(word, pullshift, pull));
    }

    /** Lines 247-263, for the older chips. */
    method SetLegacyPull(gpio: Pin, pud: int)
      requires gpioMap.Length == REGISTERS
      modifies this`writes, gpioMap
      ensures gpioMap[..] == LegacyPullSet(old(gpioMap[..]), gpio)
      ensures writes == old(writes) + LegacyWrites(old(gpioMap[37]), gpio, pud)
    {
      RegistersOfPin(gpio);
      var clkOffset := PULLUPDNCLK_OFFSET + (gpio / 32) as int;
      var word := gpioMap[PULLUPDN_OFFSET];
      assert word == gpioMap[..][PULLUPDN_OFFSET];
      var control := LegacyWord(word, pud);
      StoreLegacy(clkOffset, control, 1 << (gpio % 32));
      LegacyWritesAre(word, gpio, pud, control, clkOffset);
    }

    /** The four writes of lines 250-263. */
    method StoreLegacy(clkOffset: nat, control: bv32, bit: bv32)
      requires gpioMap.Length == REGISTERS && clkOffset in {38, 39}
      modifies this`writes, gpioMap
      ensures gpioMap[..] == old(gpioMap[..])[PULLUPDN_OFFSET := Cleared(control)][clkOffset := 0]
      ensures writes == old(writes) + [(37, control), (clkOffset, bit), (37, Cleared(control)), (clkOffset, 0)]
    {
      ghost var regs := gpioMap[..];
      Store(PULLUPDN_OFFSET, control);
      Store(clkOffset, bit);
      assert gpioMap[..][PULLUPDN_OFFSET] == control;
      var off := Cleared(gpioMap[PULLUPDN_OFFSET]);
      Store(PULLUPDN_OFFSET, off);
      Store(clkOffset, 0);
      Overwritten(regs, PULLUPDN_OFFSET, clkOffset, control, bit, off, 0);
    }

    /** The control word that lines 250-258 write. */
    method LegacyWord(word: bv32, pud: int) returns (w: bv32)
      ensures Cleared(w) == Cleared(word) && w == ControlWord(word, pud)
    {
      if pud == PUD_DOWN {
        ClearedDown(word);
        return Cleared(word) | 1;
      } else if pud == PUD_UP {
        ClearedUp(word);
        return Cleared(word) | 2;
      } else {
        ClearedOff(word);
        return Cleared(word);
      }
    }

    /** `get_pullupdn`. */
    method GetPullUpDn(gpio: Pin) returns (bits: bv32)
      requires gpioMap.Length == REGISTERS
      ensures bits == if gpioMap[60] != 0x6770696f then PullBitsAt(gpioMap[..], gpio) else 0
    {
      FieldsArePlaced(gpioMap[..], gpio);

      var is2711 := gpioMap[PULLUPDN_OFFSET_2711_3] != UNUSED;
      if !is2711 {
        return 0;
      }
      RegistersOfPin(gpio);
      var pullreg := PULLUPDN_OFFSET_2711_0 + (gpio >> 4) as int;
      var pullshift := PullShift(gpio);
      bits := gpioMap[pullreg] & (3 << pullshift);
      bits := bits >> pullshift;
      MaskThenShift(gpioMap[pullreg], pullshift);
    }

    /** `setup_gpio`. */
    method SetupGpio(c: Call)
      requires gpioMap.Length == REGISTERS
      modifies this`writes, gpioMap
      ensures gpioMap[..] == AfterSetup(old(gpioMap[..]), c)
      ensures FunctionBitsAt(gpioMap[..], c.gpio) == if c.direction == 0 then 1 else 0
      ensures old(gpioMap[60]) != 0x6770696f ==>
                PullBitsAt(gpioMap[..], c.gpio) == if c.pud == 2 then 1 else if c.pud == 1 then 2 else 0
    {
      ghost var regs := gpioMap[..];
      assert regs[60] == gpioMap[60];
      DirectionWritten(regs, c);
      if Is2711(regs) {
        PullSetUp(regs, c);
      }
      RegistersOfPin(c.gpio);
      var offset := FSEL_OFFSET + (c.gpio / 10) as int;
      var shift := FunctionShift(c.gpio);
      SetPullUpDn(c.gpio, c.pud);
      if c.direction == OUTPUT {
        Store(offset, WithFunction(gpioMap[offset], shift, 1));
      } else {
        // the field is only cleared, which is to put 0 there
        Store(offset, WithFunction(gpioMap[offset], shift, 0));
      }
    }

    /** `gpio_function`. */
    method GpioFunction(gpio: Pin) returns (value: bv32)
      requires gpioMap.Length == REGISTERS
      ensures value == FunctionBitsAt(gpioMap[..], gpio) < 8
    {
      FieldsArePlaced(gpioMap[..], gpio);

      RegistersOfPin(gpio);
      var offset := FSEL_OFFSET + (gpio / 10) as int;
      var shift := FunctionShift(gpio);
      value := gpioMap[offset];
      value := value >> shift;
      value := value & 7;
    }

    /** Any sequence of set-ups, from registers that cannot come to look like an older chip: every
        pin then has its last direction and its last pull, or what it had before. */
    method SetupAll(calls: seq<Call>)
      requires gpioMap.Length == REGISTERS && StaysOn2711(gpioMap[..])
      modifies this`writes, gpioMap
      ensures gpioMap[..] == AfterAll(old(gpioMap[..]), calls)
      ensures Is2711(gpioMap[..])
      ensures forall g: Pin ::
                && FunctionBitsAt(gpioMap[..], g) == LastFunction(calls, g, FunctionBitsAt(old(gpioMap[..]), g))
                && PullBitsAt(gpioMap[..], g) == LastPull(calls, g, PullBitsAt(old(gpioMap[..]), g))
    {
      for k := 0 to |calls|
        invariant gpioMap[..] == AfterAll(old(gpioMap[..]), calls[..k])
      {
        SetupGpio(calls[k]);
        assert calls[..k + 1][..k] == calls[..k];
      }
      assert calls[..|calls|] == calls;
      forall g: Pin
        ensures FunctionBitsAt(gpioMap[..], g) == LastFunction(calls, g, FunctionBitsAt(old(gpioMap[..]), g))
        ensures PullBitsAt(gpioMap[..], g) == LastPull(calls, g, PullBitsAt(old(gpioMap[..]), g))
      {
        LastBits(old(gpioMap[..]), calls, g);
      }
      StaysAlways(old(gpioMap[..]), calls);
    }
  }

  lemma Overwritten<T>(s: seq<T>, i: nat, j: nat, a: T, b: T, c: T, d: T)
    requires i < |s| && j < |s|
    ensures s[i := a][j := b][i := c][j := d] == s[i := c][j := d]
  {
  }

  lemma MaskThenShift(x: bv32, s: bv32)
    requires s in {0, 2, 4, 6, 8, 10, 12, 14, 16, 18, 20, 22, 24, 26, 28, 30}
    ensures (x & (3 << s)) >> s == (x >> s) & 3
  {
  }

  lemma ClearedDown(word: bv32)
    ensures Cleared(Cleared(word) | 1) == Cleared(word) && Cleared(word) | 1 == (word & 0xFFFFFFFC) | 1
  {
  }

  lemma ClearedUp(word: bv32)
    ensures Cleared(Cleared(word) | 2) == Cleared(word) && Cleared(word) | 2 == (word & 0xFFFFFFFC) | 2
  {
  }

  lemma ClearedOff(word: bv32)
    ensures Cleared(Cleared(word)) == Cleared(word) == word & 0xFFFFFFFC
  {
  }

  lemma LegacyWritesAre(word: bv32, gpio: Pin, pud: int, control: bv32, clock: nat)
    requires clock == ClockRegister(gpio) && control == ControlWord(word, pud) && Cleared(control) == Cleared(word)
    ensures [(37, control), (clock, 1 << (gpio % 32)), (37, Cleared(control)), (clock, 0)] == LegacyWrites(word, gpio, pud)
  {
    RegistersOfPin(gpio);
    ClearedOff(word);
  }

  // ----- The registers refine a map from pins to configurations -----

  /** Where the fields of a pin are. */
  lemma FieldsArePlaced(regs: Registers, gpio: Pin)
    ensures PullOf(regs, gpio) == PullBitsAt(regs, gpio)
    ensures FunctionOf(regs, gpio) == FunctionBitsAt(regs, gpio)
  {
    RegistersOfPin(gpio);
    ShiftsOfPin(gpio);
  }

  lemma ShiftsOfPin(gpio: Pin)
    ensures PullShift(gpio) == 2 * (gpio % 16) < 32 && FunctionShift(gpio) == 3 * (gpio % 10) < 32
    ensures gpio >> 4 == gpio / 16
  {
  }

  /** On a 2711 the two bits of the pin are 1 after a call with pud 2, up, they are 2 after one with
      pud 1, down, and 0 after any other. */
  lemma PullWritten(regs: Registers, gpio: Pin, pud: int)
    requires regs[60] != 0x6770696f
    ensures PullBitsAt(AfterSetPull(regs, gpio, pud), gpio) == if pud == 2 then 1 else if pud == 1 then 2 else 0
  {
  }

  /** The other bits of that register stay, and so do the other registers. */
  lemma PullElsewhere(regs: Registers, gpio: Pin, pud: int)
    requires regs[60] != 0x6770696f
    ensures var r, k, field := AfterSetPull(regs, gpio, pud), 57 + (gpio / 16) as int, 3 << (2 * (gpio % 16));
            && k <= 60 && r[k] & !field == regs[k] & !field
            && forall j :: 0 <= j < 1024 && j != k ==> r[j] == regs[j]
  {
    RegistersOfPin(gpio);
    ShiftsOfPin(gpio);
    OtherBits(regs[PullRegister(gpio)], PullShift(gpio), PullBits(pud));
  }

  lemma OtherBits(word: bv32, s: bv32, pull: bv32)
    requires s in {0, 2, 4, 6, 8, 10, 12, 14, 16, 18, 20, 22, 24, 26, 28, 30} && pull < 4
    ensures WithPull(word, s, pull) & !(3 << s) == word & !(3 << s)
  {
  }

  /** The three bits of the pin are 1 after a call with direction 0, output, and 0 after any other. */
  lemma DirectionWritten(regs: Registers, c: Call)
    ensures FunctionBitsAt(AfterSetup(regs, c), c.gpio) == if c.direction == 0 then 1 else 0
  {
    FieldsArePlaced(AfterSetup(regs, c), c.gpio);
    SetupFunction(regs, c, c.gpio);
  }

  lemma PullSetUp(regs: Registers, c: Call)
    requires regs[60] != 0x6770696f
    ensures PullBitsAt(AfterSetup(regs, c), c.gpio) == if c.pud == 2 then 1 else if c.pud == 1 then 2 else 0
  {
    FieldsArePlaced(AfterSetup(regs, c), c.gpio);
    SetupPull(regs, c, c.gpio);
  }

  /** Two pins with the same pull register and shift are the same. */
  lemma PullFieldsApart(g: Pin, h: Pin)
    ensures PullShift(g) in {0, 2, 4, 6, 8, 10, 12, 14, 16, 18, 20, 22, 24, 26, 28, 30}
    ensures PullRegister(g) == PullRegister(h) && PullShift(g) == PullShift(h) ==> g == h
  {
  }

  lemma FunctionFieldsApart(g: Pin, h: Pin)
    ensures FunctionShift(g) in {0, 3, 6, 9, 12, 15, 18, 21, 24, 27}
    ensures FunctionRegister(g) == FunctionRegister(h) && FunctionShift(g) == FunctionShift(h) ==> g == h
  {
  }

  /** Setting one 2-bit field of a word leaves the others alone. */
  lemma PullField(word: bv32, s: bv32, t: bv32, pull: bv32)
    requires s in {0, 2, 4, 6, 8, 10, 12, 14, 16, 18, 20, 22, 24, 26, 28, 30}
    requires t in {0, 2, 4, 6, 8, 10, 12, 14, 16, 18, 20, 22, 24, 26, 28, 30} && pull < 4
    ensures (WithPull(word, s, pull) >> t) & 3 == if s == t then pull else (word >> t) & 3
  {
  }

  /** Setting one 3-bit field of a word leaves the others alone. */
  lemma FunctionField(word: bv32, s: bv32, t: bv32, f: bv32)
    requires s in {0, 3, 6, 9, 12, 15, 18, 21, 24, 27} && t in {0, 3, 6, 9, 12, 15, 18, 21, 24, 27} && f < 8
    ensures (WithFunction(word, s, f) >> t) & 7 == if s == t then f else (word >> t) & 7
  {
  }

  /** The function registers and the pull registers are different ones. */
  lemma SetupRegister(regs: Registers, c: Call, k: nat)
    requires k < REGISTERS
    ensures Is2711(regs) && 6 <= k ==>
              AfterSetup(regs, c)[k]
              == if k == PullRegister(c.gpio) then WithPull(regs[k], PullShift(c.gpio), PullBits(c.pud)) else regs[k]
    ensures k < 6 ==>
              AfterSetup(regs, c)[k]
              == if k == FunctionRegister(c.gpio) then WithFunction(regs[k], FunctionShift(c.gpio), DirectionBits(c.direction))
                 else regs[k]
  {
    if Is2711(regs) {
      assert AfterSetPull(regs, c.gpio, c.pud) == PullSet(regs, c.gpio, c.pud);
    } else {
      assert AfterSetPull(regs, c.gpio, c.pud) == LegacyPullSet(regs, c.gpio);
    }
  }

  /** `setup_gpio` sets the direction of its pin, whatever the chip, and of no other. */
  lemma SetupFunction(regs: Registers, c: Call, g: Pin)
    ensures FunctionOf(AfterSetup(regs, c), g)
         == if g == c.gpio then DirectionBits(c.direction) else FunctionOf(regs, g)
  {
    SetupRegister(regs, c, FunctionRegister(g));
    FunctionFrom(regs, AfterSetup(regs, c), c.gpio, DirectionBits(c.direction), g);
  }

  lemma FunctionFrom(regs: Registers, r: Registers, h: Pin, f: bv32, g: Pin)
    requires f < 8
    requires var k := FunctionRegister(g);
             r[k] == if k == FunctionRegister(h) then WithFunction(regs[k], FunctionShift(h), f) else regs[k]
    ensures FunctionOf(r, g) == if g == h then f else FunctionOf(regs, g)
  {
    if FunctionRegister(g) == FunctionRegister(h) {
      FunctionInWord(regs[FunctionRegister(g)], h, g, f);
    }
  }

  lemma FunctionInWord(word: bv32, h: Pin, g: Pin, f: bv32)
    requires FunctionRegister(h) == FunctionRegister(g) && f < 8
    ensures (WithFunction(word, FunctionShift(h), f) >> FunctionShift(g)) & 7
         == if g == h then f else (word >> FunctionShift(g)) & 7
  {
    FunctionFieldsApart(g, h);
    FunctionFieldsApart(h, g);
    FunctionField(word, FunctionShift(h), FunctionShift(g), f);
  }

  /** On a 2711 it sets the pull of its pin and of no other, though pins 48 to 53 share register
      60 with the chip test. */
  lemma SetupPull(regs: Registers, c: Call, g: Pin)
    requires Is2711(regs)
    ensures PullOf(AfterSetup(regs, c), g) == if g == c.gpio then PullBits(c.pud) else PullOf(regs, g)
  {
    SetupRegister(regs, c, PullRegister(g));
    PullFrom(regs, AfterSetup(regs, c), c.gpio, PullBits(c.pud), g);
  }

  lemma PullFrom(regs: Registers, r: Registers, h: Pin, pull: bv32, g: Pin)
    requires pull < 4
    requires var k := PullRegister(g);
             r[k] == if k == PullRegister(h) then WithPull(regs[k], PullShift(h), pull) else regs[k]
    ensures PullOf(r, g) == if g == h then pull else PullOf(regs, g)
  {
    if PullRegister(g) == PullRegister(h) {
      PullInWord(regs[PullRegister(g)], h, g, pull);
    }
  }

  lemma PullInWord(word: bv32, h: Pin, g: Pin, pull: bv32)
    requires PullRegister(h) == PullRegister(g) && pull < 4
    ensures (WithPull(word, PullShift(h), pull) >> PullShift(g)) & 3
         == if g == h then pull else (word >> PullShift(g)) & 3
  {
    PullFieldsApart(g, h);
    PullFieldsApart(h, g);
    PullField(word, PullShift(h), PullShift(g), pull);
  }

  ghost function AfterAll(regs: Registers, calls: seq<Call>): Registers {
    if calls == [] then regs
    else AfterSetup(AfterAll(regs, calls[..|calls| - 1]), calls[|calls| - 1])
  }

  function LastFunction(calls: seq<Call>, g: Pin, initial: bv32): bv32 {
    if calls == [] then initial
    else
      var c := calls[|calls| - 1];
      if c.gpio == g then (if c.direction == 0 then 1 else 0) else LastFunction(calls[..|calls| - 1], g, initial)
  }

  function LastPull(calls: seq<Call>, g: Pin, initial: bv32): bv32 {
    if calls == [] then initial
    else
      var c := calls[|calls| - 1];
      if c.gpio == g then (if c.pud == 2 then 1 else if c.pud == 1 then 2 else 0) else LastPull(calls[..|calls| - 1], g, initial)
  }

  // ----- The chip test -----

  /** The bits of register 60 that no pull setting can bring to the value tested for: those behind
      the pin fields, and the fields of pins 48 and 49, where the value has a 3. */
  const FIXED: bv32 := 0xFFFFF00F

  predicate StaysOn2711(regs: Registers) {
    regs[PULLUPDN_OFFSET_2711_3] & FIXED != UNUSED & FIXED
  }

  lemma WordStays(x: bv32, shift: bv32, pull: bv32)
    requires shift in {0, 2, 4, 6, 8, 10} && pull < 3 && x & FIXED != UNUSED & FIXED
    ensures WithPull(x, shift, pull) & FIXED != UNUSED & FIXED
  {
  }

  lemma LastPullShifts(gpio: Pin)
    requires 48 <= gpio
    ensures PullShift(gpio) in {0, 2, 4, 6, 8, 10}
  {
  }

  lemma SetupStays(regs: Registers, c: Call)
    requires StaysOn2711(regs)
    ensures StaysOn2711(AfterSetup(regs, c)) && Is2711(regs)
  {
    if 48 <= c.gpio {
      PulledStays(regs, AfterSetup(regs, c), c);
    } else {
      OtherPinStays(regs, AfterSetup(regs, c), c);
    }
  }

  /** Register 60 after a set-up of a pin with its pull there. */
  lemma PulledStays(regs: Registers, r: Registers, c: Call)
    requires StaysOn2711(regs) && 48 <= c.gpio && r == AfterSetup(regs, c)
    ensures StaysOn2711(r)
  {
    var s, p := ShiftAndPull(regs, r, c);
    WordStays(regs[PULLUPDN_OFFSET_2711_3], s, p);
  }

  lemma ShiftAndPull(regs: Registers, r: Registers, c: Call) returns (s: bv32, p: bv32)
    requires Is2711(regs) && 48 <= c.gpio && r == AfterSetup(regs, c)
    ensures s in {0, 2, 4, 6, 8, 10} && p < 3
    ensures r[PULLUPDN_OFFSET_2711_3] == WithPull(regs[PULLUPDN_OFFSET_2711_3], s, p)
  {
    s, p := PullShift(c.gpio), PullBits(c.pud);
    SetupRegister(regs, c, PULLUPDN_OFFSET_2711_3);
    LastPullShifts(c.gpio);
  }

  lemma OtherPinStays(regs: Registers, r: Registers, c: Call)
    requires StaysOn2711(regs) && c.gpio < 48 && r == AfterSetup(regs, c)
    ensures StaysOn2711(r)
  {
    SetupRegister(regs, c, PULLUPDN_OFFSET_2711_3);
    assert r[PULLUPDN_OFFSET_2711_3] == regs[PULLUPDN_OFFSET_2711_3];
  }

  lemma {:induction false} StaysAlways(regs: Registers, calls: seq<Call>)
    requires StaysOn2711(regs)
    ensures StaysOn2711(AfterAll(regs, calls)) && Is2711(AfterAll(regs, calls))
    decreases |calls|
  {
    if calls != [] {
      var init, c := calls[..|calls| - 1], calls[|calls| - 1];
      StaysAlways(regs, init);
      SetupStays(AfterAll(regs, init), c);
    }
  }

  /** After any sequence of set-ups each pin has its last direction and its last pull. */
  lemma {:induction false} LastCallWins(regs: Registers, calls: seq<Call>, g: Pin)
    requires StaysOn2711(regs)
    ensures FunctionOf(AfterAll(regs, calls), g) == LastFunction(calls, g, FunctionOf(regs, g))
    ensures PullOf(AfterAll(regs, calls), g) == LastPull(calls, g, PullOf(regs, g))
    decreases |calls|
  {
    if calls != [] {
      var init, c := calls[..|calls| - 1], calls[|calls| - 1];
      LastCallWins(regs, init, g);
      StaysAlways(regs, init);
      SetupFunction(AfterAll(regs, init), c, g);
      SetupPull(AfterAll(regs, init), c, g);
    }
  }

  /** The same, about the bits. */
  lemma LastBits(regs: Registers, calls: seq<Call>, g: Pin)
    requires StaysOn2711(regs)
    ensures FunctionBitsAt(AfterAll(regs, calls), g) == LastFunction(calls, g, FunctionBitsAt(regs, g))
    ensures PullBitsAt(AfterAll(regs, calls), g) == LastPull(calls, g, PullBitsAt(regs, g))
  {
    LastCallWins(regs, calls, g);
    FieldsArePlaced(regs, g);
    FieldsArePlaced(AfterAll(regs, calls), g);
  }

  lemma FourPulls(x: bv32)
    requires x & FIXED == UNUSED & FIXED
    ensures WithPull(WithPull(WithPull(WithPull(x, 4, 2), 6, 1), 8, 1), 10, 2) == UNUSED
  {
  }

  lemma OneMore(regs: Registers, calls: seq<Call>, c: Call)
    ensures AfterAll(regs, calls + [c]) == AfterSetup(AfterAll(regs, calls), c)
  {
    assert (calls + [c])[..|calls|] == calls;
  }

  /** Pulling pins 50 to 53 down, up, up and down completes the value, if the rest of it is there. */
  lemma CanLoseThePath(regs: Registers) returns (calls: seq<Call>)
    requires !StaysOn2711(regs)
    ensures !Is2711(AfterAll(regs, calls))
  {
    var x := regs[PULLUPDN_OFFSET_2711_3];
    FourPulls(x);
    calls := [];
    var next := [Call(50, INPUT, PUD_DOWN), Call(51, INPUT, PUD_UP), Call(52, INPUT, PUD_UP), Call(53, INPUT, PUD_DOWN)];
    var r := regs;
    if !Is2711(r) { return; }
    OneMore(regs, calls, next[0]);
    calls, r := calls + [next[0]], AfterSetup(r, next[0]);
    assert r[PULLUPDN_OFFSET_2711_3] == WithPull(x, 4, 2);
    if !Is2711(r) { return; }
    OneMore(regs, calls, next[1]);
    calls, r := calls + [next[1]], AfterSetup(r, next[1]);
    assert r[PULLUPDN_OFFSET_2711_3] == WithPull(WithPull(x, 4, 2), 6, 1);
    if !Is2711(r) { return; }
    OneMore(regs, calls, next[2]);
    calls, r := calls + [next[2]], AfterSetup(r, next[2]);
    assert r[PULLUPDN_OFFSET_2711_3] == WithPull(WithPull(WithPull(x, 4, 2), 6, 1), 8, 1);
    if !Is2711(r) { return; }
    OneMore(regs, calls, next[3]);
    calls, r := calls + [next[3]], AfterSetup(r, next[3]);
    assert r[PULLUPDN_OFFSET_2711_3] == UNUSED;
  }

  /** The chip test stays positive over every sequence of set-ups exactly when the fixed bits of
      register 60 differ from the value tested for - if pin 48's field is not 3, say. */
  lemma PathIsKeptExactly(regs: Registers)
    ensures (forall calls :: Is2711(AfterAll(regs, calls))) <==> StaysOn2711(regs)
    ensures PullOf(regs, 48) != 3 ==> StaysOn2711(regs)
  {
    if StaysOn2711(regs) {
      forall calls
        ensures Is2711(AfterAll(regs, calls))
      {
        StaysAlways(regs, calls);
      }
    } else {
      var calls := CanLoseThePath(regs);
    }
    Pin48(regs[PULLUPDN_OFFSET_2711_3]);
  }

  lemma Pin48(x: bv32)
    ensures (x >> 0) & 3 != 3 ==> x & FIXED != UNUSED & FIXED
  {
  }
}
