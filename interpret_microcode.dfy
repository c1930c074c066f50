/**
 * The machine (interpret-microcode.mjs): a program counter counting
 * bytes, three 16-bit registers kept as binary strings, the fields of the
 * fetched instruction byte, and a bit memory. `step` rejects unknown
 * codes, fetches the operand, runs the instruction and fetches the next
 * one. Every `throw` is a fault, and the state keeps whatever the source
 * had already changed when it threw.
 */
module InterpretMicrocode {
  import opened Results
  import opened ConvertBases
  import opened BitMemory
  import P = ParseAssembly
  import A = Assembler

  /** What `step` and `fetch` throw. */
  datatype Fault =
    | UnknownInstruction           // the code "1111"
    | UnknownRegister              // the register code "11"
    | UnknownMode                  // the mode code "11"
    | Halted                       // HLT
    | ImmediateStore               // STO with an immediate operand
    | MemoryFault(cause: MemoryError)  // a read or write past the end of memory
    | InvalidNumber                // `numberToString` of a result below -1 or of a quotient by 0

  /** The fields of a machine, with the memory's bits. */
  datatype State = State(
    pc: nat,
    registers: map<string, string>,
    instr: string,
    reg: string,
    addr: string,
    cells: seq<Bit>)

  /** The state after an operation, and what it threw, if anything. */
  datatype Outcome = Outcome(state: State, fault: Option<Fault>)

  /** A register's contents: sixteen binary digits. */
  predicate Word(t: string)
  {
    |t| == 16 && IsBinary(t)
  }

  /** A field of the fetched instruction: `n` binary digits. */
  predicate Field(t: string, n: nat)
  {
    |t| == n && IsBinary(t)
  }

  /** The registers "00", "01" and "10" hold words, and the instruction
      fields have the widths `fetch` reads. */
  predicate WellFormed(s: State)
  {
    s.registers.Keys == {"00", "01", "10"} &&
    (forall r :: r in s.registers ==> Word(s.registers[r])) &&
    Field(s.instr, 4) && Field(s.reg, 2) && Field(s.addr, 2)
  }

  const Zeros: string := "0000000000000000"

  /** A new machine: counter 0, zero registers, code "0000", register and
      mode "00", empty memory. */
  function Initial(): State
  {
    State(0, map["00" := Zeros, "01" := Zeros, "10" := Zeros], "0000", "00", "00", [])
  }

  /** `stringToNumber(t, 2)`. */
  function Num(t: string): nat
  {
    match StringToNumber(t, 2)
    case Some(n) => n
    case None => 0
  }

  /** The instruction the switch of `step` runs for a four-bit code. */
  function Operation(code: string): Option<P.InstructionKind>
  {
    if code == "0000" then Some(P.NoOperation)
    else if code == "0001" then Some(P.Halt)
    else if code == "0010" then Some(P.Jump)
    else if code == "0011" then Some(P.JumpIfZero)
    else if code == "0100" then Some(P.Load)
    else if code == "0101" then Some(P.Store)
    else if code == "0110" then Some(P.Add)
    else if code == "0111" then Some(P.Subtract)
    else if code == "1000" then Some(P.Multiply)
    else if code == "1001" then Some(P.Divide)
    else if code == "1010" then Some(P.And)
    else if code == "1011" then Some(P.Or)
    else if code == "1100" then Some(P.Not)
    else if code == "1101" then Some(P.EqualsZero)
    else if code == "1110" then Some(P.LessThanZero)
    else None
  }

  /** `s.slice(-n)` for n > 0: the last n characters, or all of them. */
  function TakeLast(s: string, n: nat): string
  {
    if |s| > n then s[|s| - n..] else s
  }

  /** `numberToString(n, 2).slice(-16).padStart(16, "0")`. */
  function RegisterText(n: int): Result<string, Fault>
  {
    if n < -1 then Err(InvalidNumber)
    else Ok(PadStart(TakeLast(if n == -1 then "" else ToDigits(n, 2), 16), 16, '0'))
  }

  // ---------------------------------------------------------------------
  // The operations as functions of the state
  // ---------------------------------------------------------------------

  /** `fetch()`: the code, register and mode of the byte at the counter,
      read one after another, each read able to throw. */
  function FetchSpec(s: State): Outcome
  {
    var at := s.pc * 8;
    match ReadText(s.cells, at + 0, 4)
    case Err(e) => Outcome(s, Some(MemoryFault(e)))
    case Ok(i) =>
      var s1 := s.(instr := i);
      match ReadText(s.cells, at + 4, 2)
      case Err(e) => Outcome(s1, Some(MemoryFault(e)))
      case Ok(r) =>
        var s2 := s1.(reg := r);
        match ReadText(s.cells, at + 6, 2)
        case Err(e) => Outcome(s2, Some(MemoryFault(e)))
        case Ok(a) => Outcome(s2.(addr := a), None)
  }

  /** The operand of `step` and the counter after it: the accumulator and
      one byte, or the two bytes after the instruction (immediate) or the
      word at the address they hold (direct) and three bytes. */
  function OperandSpec(s: State): (r: Result<(string, nat), Fault>)
    requires WellFormed(s)
    ensures r.Ok? ==> Word(r.value.0)
    ensures r.Ok? ==> r.value.1 == s.pc + if s.addr == "00" then 1 else 3
    ensures s.addr == "11" ==> r == Err(UnknownMode)
  {
    if s.addr == "00" then Ok((s.registers["00"], s.pc + 1))
    else if s.addr == "01" then
      match ReadText(s.cells, s.pc * 8 + 8, 2 * 8)
      case Err(e) => Err(MemoryFault(e))
      case Ok(value) => Ok((value, s.pc + 3))
    else if s.addr == "10" then
      match ReadNumber(s.cells, s.pc * 8 + 8, 16)
      case Err(e) => Err(MemoryFault(e))
      case Ok(address) =>
        match ReadText(s.cells, address * 8, 16)
        case Err(e) => Err(MemoryFault(e))
        case Ok(value) => Ok((value, s.pc + 3))
    else Err(UnknownMode)
  }

  /** The selected register set to the 16-bit form of n. */
  function SetSpec(t: State, n: int): Outcome
  {
    match RegisterText(n)
    case Err(f) => Outcome(t, Some(f))
    case Ok(w) => Outcome(t.(registers := t.registers[t.reg := w]), None)
  }

  /** STO on the state `t`, taking a direct operand's address word from
      the two bytes after byte `at`: into the accumulator, refused for an
      immediate operand, or written to memory at that address. With `at`
      the instruction's own byte this is the store the instruction means;
      `step` passes the moved counter instead (`WrittenStore`). */
  function StoreSpec(t: State, at: nat): Outcome
    requires t.reg in t.registers
  {
    if t.addr == "00" then Outcome(t.(registers := t.registers["00" := t.registers[t.reg]]), None)
    else if t.addr == "01" then Outcome(t, Some(ImmediateStore))
    else if t.addr == "10" then
      match ReadNumber(t.cells, at * 8 + 8, 16)
      case Err(e) => Outcome(t, Some(MemoryFault(e)))
      case Ok(address) =>
        match Write(t.cells, address * 8, TextBits(t.registers[t.reg]))
        case Err(e) => Outcome(t, Some(MemoryFault(e)))
        case Ok(cells) => Outcome(t.(cells := cells), None)
    else Outcome(t, None)
  }

  /** STO as `step` runs it: the address word is read at
      `programCounter*8 + 8` after the counter has already moved past the
      instruction, as if the instruction stood there. */
  function WrittenStore(t: State): Outcome
    requires t.reg in t.registers
  {
    StoreSpec(t, t.pc)
  }

  /** The instructions that set the selected register to a number. */
  predicate SetsRegister(kind: P.InstructionKind)
  {
    match kind
    case Add | Subtract | Multiply | Divide | And | Or | Not | EqualsZero | LessThanZero => true
    case _ => false
  }

  /** The number such an instruction computes from the selected register
      r and the operand `value` worth v (DIV by 0 throws before this). */
  function Computed(kind: P.InstructionKind, r: nat, v: nat, value: string): int
    requires Word(value)
  {
    match kind
    case Add => r + v
    case Subtract => r - v
    case Multiply => r * v
    case Divide => if v == 0 then 0 else r / v
    case And => if r == 1 && v == 1 then 1 else 0
    case Or => if r == 1 || v == 1 then 1 else 0
    case Not => if r == 1 then 0 else 1
    case EqualsZero => if v == 0 then 1 else 0
    case LessThanZero => if value[0] == '1' then 1 else 0
    case _ => 0
  }

  /** The switch of `step`, on the state whose counter has moved past the
      instruction, with the operand `value`. A code no case names does
      nothing. */
  function ExecuteSpec(t: State, value: string): Outcome
    requires t.reg in t.registers && Word(value)
  {
    var r := Num(t.registers[t.reg]);
    var v := Num(value);
    var kind := Operation(t.instr);
    if kind == Some(P.Halt) then Outcome(t, Some(Halted))
    else if kind == Some(P.Jump) then Outcome(t.(pc := v), None)
    else if kind == Some(P.JumpIfZero) then Outcome(if r == 0 then t.(pc := v) else t, None)
    else if kind == Some(P.Load) then Outcome(t.(registers := t.registers[t.reg := value]), None)
    else if kind == Some(P.Store) then WrittenStore(t)
    else if kind == Some(P.Divide) && v == 0 then Outcome(t, Some(InvalidNumber))
    else if kind.Some? && SetsRegister(kind.value) then SetSpec(t, Computed(kind.value, r, v, value))
    else Outcome(t, None)
  }

  /** `step()`: reject unknown codes, take the operand, run the
      instruction, and fetch the next one unless something threw. */
  function StepSpec(s: State): Outcome
    requires WellFormed(s)
  {
    if s.instr == "1111" then Outcome(s, Some(UnknownInstruction))
    else if s.reg == "11" then Outcome(s, Some(UnknownRegister))
    else if s.addr == "11" then Outcome(s, Some(UnknownMode))
    else
      match OperandSpec(s)
      case Err(f) => Outcome(s, Some(f))
      case Ok((value, next)) =>
        RegisterNamed(s);
        ThenFetch(ExecuteSpec(s.(pc := next), value))
  }

  /** The end of `step`: an outcome that raised something stands, and
      otherwise the next instruction is fetched. */
  function ThenFetch(o: Outcome): Outcome
  {
    if o.fault.Some? then o else FetchSpec(o.state)
  }

  // ---------------------------------------------------------------------
  // The machine object
  // ---------------------------------------------------------------------

  class Machine {
    var pc: nat
    var registers: map<string, string>
    var instr: string
    var reg: string
    var addr: string
    var memory: Memory

    /** The fields as a value. */
    function Current(): State
      reads this, memory
    {
      State(pc, registers, instr, reg, addr, memory.cells)
    }

    predicate Valid()
      reads this, memory
    {
      WellFormed(Current())
    }

    /** A new machine with an empty memory. */
    constructor ()
      ensures Current() == Initial() && fresh(memory)
      ensures Valid()
    {
      pc := 0;
      registers := map["00" := Zeros, "01" := Zeros, "10" := Zeros];
      instr := "0000";
      reg := "00";
      addr := "00";
      memory := new Memory();
    }

    /** `fetch()`. */
    method Fetch() returns (fault: Option<Fault>)
      modifies this
      ensures memory == old(memory)
      ensures Outcome(Current(), fault) == FetchSpec(old(Current()))
    {
      var i := memory.GetBitsAsString(pc * 8 + 0, 4);
      if i.Err? {
        return Some(MemoryFault(i.error));
      }
      instr := i.value;
      var r := memory.GetBitsAsString(pc * 8 + 4, 2);
      if r.Err? {
        return Some(MemoryFault(r.error));
      }
      reg := r.value;
      var a := memory.GetBitsAsString(pc * 8 + 6, 2);
      if a.Err? {
        return Some(MemoryFault(a.error));
      }
      addr := a.value;
      fault := None;
    }

    /** The operand part of `step()`. */
    method Operand() returns (r: Result<string, Fault>)
      requires Valid()
      modifies this
      ensures memory == old(memory)
      ensures var o := OperandSpec(old(Current()));
        (o.Err? ==> r == Err(o.error) && Current() == old(Current())) &&
        (o.Ok? ==> r == Ok(o.value.0) && Current() == old(Current()).(pc := o.value.1))
    {
      if addr == "00" {
        r := Ok(registers["00"]);
        pc := pc + 1;
      } else if addr == "01" {
        var value := memory.GetBitsAsString(pc * 8 + 8, 2 * 8);
        if value.Err? {
          return Err(MemoryFault(value.error));
        }
        r := Ok(value.value);
        pc := pc + 3;
      } else if addr == "10" {
        var address := memory.GetBitsAsNumber(pc * 8 + 8, 16);
        if address.Err? {
          return Err(MemoryFault(address.error));
        }
        var value := memory.GetBitsAsString(address.value * 8, 16);
        if value.Err? {
          return Err(MemoryFault(value.error));
        }
        r := Ok(value.value);
        pc := pc + 3;
      } else {
        r := Err(UnknownMode);
      }
    }

    /** `registers[reg] = numberToString(n, 2).slice(-16).padStart(16, "0")`. */
    method SetRegister(n: int) returns (fault: Option<Fault>)
      modifies this
      ensures memory == old(memory)
      ensures Outcome(Current(), fault) == SetSpec(old(Current()), n)
    {
      var digits := NumberToString(n, 2);
      if digits.Err? {
        return Some(InvalidNumber);
      }
      registers := registers[reg := PadStart(TakeLast(digits.value, 16), 16, '0')];
      fault := None;
    }

    /** The STO case of the switch: the address word is read after the
        counter, which has already moved past the instruction. */
    method Store() returns (fault: Option<Fault>)
      requires reg in registers && IsBinary(registers[reg])
      modifies this, memory
      ensures memory == old(memory)
      ensures Outcome(Current(), fault) == WrittenStore(old(Current()))
    {
      if addr == "00" {
        registers := registers["00" := registers[reg]];
        fault := None;
      } else if addr == "01" {
        fault := Some(ImmediateStore);
      } else if addr == "10" {
        var address := memory.GetBitsAsNumber(pc * 8 + 8, 16);
        if address.Err? {
          return Some(MemoryFault(address.error));
        }
        var written := memory.SetBitsFromString(address.value * 8, registers[reg]);
        if written.Err? {
          return Some(MemoryFault(written.error));
        }
        fault := None;
      } else {
        fault := None;
      }
    }

    /** The switch of `step()`. */
    method Execute(value: string) returns (fault: Option<Fault>)
      requires reg in registers && IsBinary(registers[reg]) && Word(value)
      modifies this, memory
      ensures memory == old(memory)
      ensures Outcome(Current(), fault) == ExecuteSpec(old(Current()), value)
    {
      var r := Num(registers[reg]);
      var v := Num(value);
      var kind := Operation(instr);
      if kind == Some(P.Halt) {
        fault := Some(Halted);
      } else if kind == Some(P.Jump) {
        pc := v;
        fault := None;
      } else if kind == Some(P.JumpIfZero) {
        if r == 0 {
          pc := v;
        }
        fault := None;
      } else if kind == Some(P.Load) {
        registers := registers[reg := value];
        fault := None;
      } else if kind == Some(P.Store) {
        fault := Store();
      } else if kind == Some(P.Divide) && v == 0 {
        fault := Some(InvalidNumber);
      } else if kind.Some? && SetsRegister(kind.value) {
        fault := Compute(kind.value, value);
      } else {
        fault := None;
      }
    }

    /** The cases of the switch that set the selected register to a number. */
    method Compute(kind: P.InstructionKind, value: string) returns (fault: Option<Fault>)
      requires reg in registers && Word(value)
      modifies this
      ensures memory == old(memory)
      ensures Outcome(Current(), fault) ==
        SetSpec(old(Current()), Computed(kind, Num(old(registers)[old(reg)]), Num(value), value))
    {
      var r: int := Num(registers[reg]);
      var v: int := Num(value);
      var n: int := match kind
        case Add => r + v
        case Subtract => r - v
        case Multiply => r * v
        case Divide => if v == 0 then 0 else r / v
        case And => if r == 1 && v == 1 then 1 else 0
        case Or => if r == 1 || v == 1 then 1 else 0
        case Not => if r == 1 then 0 else 1
        case EqualsZero => if v == 0 then 1 else 0
        case LessThanZero => if value[0] == '1' then 1 else 0
        case _ => 0;
      assert n == Computed(kind, r, v, value);
      fault := SetRegister(n);
    }

    /** `step()`. */
    method Step() returns (fault: Option<Fault>)
      requires Valid()
      modifies this, memory
      ensures memory == old(memory)
      ensures Outcome(Current(), fault) == StepSpec(old(Current()))
      ensures Valid()
    {
      StepKeepsWellFormed(Current());
      if instr == "1111" {
        return Some(UnknownInstruction);
      }
      if reg == "11" {
        return Some(UnknownRegister);
      }
      if addr == "11" {
        return Some(UnknownMode);
      }
      RegisterNamed(Current());
      var operand := Operand();
      if operand.Err? {
        return Some(operand.error);
      }
      fault := Execute(operand.value);
      if fault.None? {
        fault := Fetch();
      }
    }
  }

  // ---------------------------------------------------------------------
  // Properties
  // ---------------------------------------------------------------------

  /** A two-digit register code other than "11" names a register. */
  lemma RegisterNamed(s: State)
    requires WellFormed(s) && s.reg != "11"
    ensures s.reg in s.registers
  {
    var c := s.reg;
    assert c == [c[0], c[1]];
  }

  /** A new machine is well formed. */
  lemma InitialWellFormed()
    ensures WellFormed(Initial())
  {
  }

  lemma WordRange()
    ensures Pow(2, 15) == 32768 && Pow(2, 16) == 65536
  {
    assert Pow(2, 4) == 16 by {
      assert Pow(2, 1) == 2;
      assert Pow(2, 2) == 4;
      assert Pow(2, 3) == 8;
    }
    assert Pow(2, 8) == 256 by {
      assert Pow(2, 5) == 32;
      assert Pow(2, 6) == 64;
      assert Pow(2, 7) == 128;
    }
    assert Pow(2, 12) == 4096 by {
      assert Pow(2, 9) == 512;
      assert Pow(2, 10) == 1024;
      assert Pow(2, 11) == 2048;
    }
    assert Pow(2, 13) == 8192;
    assert Pow(2, 14) == 16384;
  }

  /** The bits of a string are the bits of its two parts. */
  lemma TextBitsSplit(d: string, k: nat)
    requires k <= |d|
    ensures TextBits(d) == TextBits(d[..k]) + TextBits(d[k..])
  {
    var lhs, rhs := TextBits(d), TextBits(d[..k]) + TextBits(d[k..]);
    forall i | 0 <= i < |d| ensures lhs[i] == rhs[i] {
      if i < k {
        assert d[..k][i] == d[i];
      } else {
        assert d[k..][i - k] == d[i];
      }
    }
  }

  /** A word reads as a number below 2^16, the value of its bits. */
  lemma WordValue(t: string)
    requires Word(t)
    ensures StringToNumber(t, 2) == Some(Num(t))
    ensures Num(t) == Positional(TextBits(t), 2)
    ensures Num(t) < 65536
  {
    BinaryStringIsNumber(t);
    BinaryTextValue(t, Num(t));
    PositionalBound(TextBits(t), 2);
    WordRange();
  }

  /** A binary string reads as the value of its bits. */
  lemma TextValue(t: string)
    requires IsBinary(t)
    ensures StringToNumber(t, 2) == Some(Positional(TextBits(t), 2))
  {
    BinaryStringIsNumber(t);
    BinaryTextValue(t, StringToNumber(t, 2).value);
  }

  /** A number of at most sixteen binary digits is below 2^16 and is all
      of what `slice(-16)` keeps. */
  lemma ShortDigits(n: nat)
    requires |ToDigits(n, 2)| <= 16
    ensures TakeLast(ToDigits(n, 2), 16) == ToDigits(n, 2)
    ensures StringToNumber(ToDigits(n, 2), 2) == Some(n % 65536)
  {
    ToDigitsRoundTrip(n, 2);
    PlacesMinimal(n, 2);
    PowMonotone(2, |ToDigits(n, 2)|, 16);
    WordRange();
    DivModUnique(0, n, 65536);
  }

  /** The parts of a binary string are binary. */
  lemma SuffixBinary(d: string, k: nat)
    requires IsBinary(d) && k <= |d|
    ensures IsBinary(d[k..]) && IsBinary(d[..k])
  {
    assert forall i :: 0 <= i < |d| - k ==> d[k..][i] == d[k + i];
    assert forall i :: 0 <= i < k ==> d[..k][i] == d[i];
  }

  /** A binary string's value split at k digits from the end. */
  lemma SplitValue(d: string, k: nat)
    requires IsBinary(d) && k <= |d|
    ensures Num(d) == Num(d[..|d| - k]) * Pow(2, k) + Num(d[|d| - k..])
  {
    var j := |d| - k;
    SuffixBinary(d, j);
    TextValue(d);
    TextValue(d[..j]);
    TextValue(d[j..]);
    TextBitsSplit(d, j);
    PositionalConcat(TextBits(d[..j]), TextBits(d[j..]), 2);
  }

  /** The last sixteen digits of a longer binary string are worth its
      value modulo 2^16. */
  lemma LastWord(d: string, n: nat)
    requires IsBinary(d) && |d| > 16 && StringToNumber(d, 2) == Some(n)
    ensures IsBinary(d[|d| - 16..])
    ensures StringToNumber(d[|d| - 16..], 2) == Some(n % 65536)
  {
    var w := d[|d| - 16..];
    SuffixBinary(d, |d| - 16);
    SplitValue(d, 16);
    WordValue(w);
    WordRange();
    var q, low := Num(d[..|d| - 16]), Num(w);
    assert n == q * 65536 + low;
    LowWord(n, q, low);
  }

  /** A number made of q whole words and a word `low` is `low` modulo 2^16. */
  lemma LowWord(n: int, q: int, low: int)
    requires n == q * 65536 + low && 0 <= low < 65536
    ensures n % 65536 == low
  {
    DivModUnique(q, low, 65536);
  }

  /** The last sixteen of more binary digits are worth the number modulo 2^16. */
  lemma LongDigits(n: nat)
    requires |ToDigits(n, 2)| > 16
    ensures IsBinary(TakeLast(ToDigits(n, 2), 16))
    ensures StringToNumber(TakeLast(ToDigits(n, 2), 16), 2) == Some(n % 65536)
  {
    var d := ToDigits(n, 2);
    A.DigitsBinary(n);
    ToDigitsRoundTrip(n, 2);
    LastWord(d, n);
  }

  /** What `slice(-16)` keeps of a number's digits is binary, at most
      sixteen long, and worth the number modulo 2^16. */
  lemma LastDigits(n: nat)
    ensures IsBinary(TakeLast(ToDigits(n, 2), 16)) && |TakeLast(ToDigits(n, 2), 16)| <= 16
    ensures StringToNumber(TakeLast(ToDigits(n, 2), 16), 2) == Some(n % 65536)
  {
    if |ToDigits(n, 2)| <= 16 {
      ShortDigits(n);
      A.DigitsBinary(n);
    } else {
      LongDigits(n);
    }
  }

  /** The 16-bit form of a result: below -1 `numberToString` throws; -1
      gives no digits and so the zero word; otherwise the word holds the
      result modulo 2^16. */
  lemma RegisterTextValue(n: int)
    ensures n < -1 ==> RegisterText(n) == Err(InvalidNumber)
    ensures n >= -1 ==> RegisterText(n).Ok? && Word(RegisterText(n).value)
    ensures n == -1 ==> Num(RegisterText(n).value) == 0
    ensures n >= 0 ==> Num(RegisterText(n).value) == n % 65536
  {
    if n >= -1 {
      var w := if n == -1 then "" else TakeLast(ToDigits(n, 2), 16);
      if n >= 0 {
        LastDigits(n);
      }
      assert IsBinary(w) && |w| <= 16;
      assert StringToNumber(w, 2) == Some(if n == -1 then 0 else n % 65536);
      var out := PadStart(w, 16, '0');
      assert RegisterText(n) == Ok(out);
      PadStartValue(w, 16, 2);
      PadBinary(w, 16);
    }
  }

  /** The three code checks come first, and a rejected step changes
      nothing. Only these checks raise these faults. */
  lemma StepRejects(s: State)
    requires WellFormed(s)
    ensures StepSpec(s).fault == Some(UnknownInstruction) <==> s.instr == "1111"
    ensures StepSpec(s).fault == Some(UnknownRegister) <==> s.instr != "1111" && s.reg == "11"
    ensures StepSpec(s).fault == Some(UnknownMode) <==> s.instr != "1111" && s.reg != "11" && s.addr == "11"
    ensures s.instr == "1111" || s.reg == "11" || s.addr == "11" ==> StepSpec(s).state == s
  {
    if s.instr != "1111" && s.reg != "11" && s.addr != "11" && OperandSpec(s).Ok? {
      RegisterNamed(s);
      var value, next := OperandSpec(s).value.0, OperandSpec(s).value.1;
      ExecuteFaults(s.(pc := next), value);
    }
  }

  /** The faults the switch can raise. */
  lemma ExecuteFaults(t: State, value: string)
    requires t.reg in t.registers && Word(value)
    ensures ExecuteSpec(t, value).fault.Some? ==>
      ExecuteSpec(t, value).fault.value in {Halted, ImmediateStore, InvalidNumber} ||
      ExecuteSpec(t, value).fault.value.MemoryFault?
  {
  }

  /** A step keeps the registers words and the fields at their widths. */
  lemma StepKeepsWellFormed(s: State)
    requires WellFormed(s)
    ensures WellFormed(StepSpec(s).state)
  {
    if s.instr != "1111" && s.reg != "11" && s.addr != "11" && OperandSpec(s).Ok? {
      RegisterNamed(s);
      var value, next := OperandSpec(s).value.0, OperandSpec(s).value.1;
      var t := s.(pc := next);
      ExecuteKeepsWellFormed(t, value);
      FetchKeepsWellFormed(ExecuteSpec(t, value).state);
    }
  }

  /** The switch stores only words in registers. */
  lemma ExecuteKeepsWellFormed(t: State, value: string)
    requires WellFormed(t) && t.reg in t.registers && Word(value)
    ensures WellFormed(ExecuteSpec(t, value).state)
  {
    if Operation(t.instr) == Some(P.Store) {
      ExecuteStores(t, value);
      StoreKeepsWellFormed(t, t.pc);
    } else {
      var o := ExecuteSpec(t, value).state;
      ExecuteTouches(t, value);
      ExecuteRegisters(t, value);
      if o.registers != t.registers {
        WellFormedSet(t, t.reg, o.registers[t.reg]);
      }
    }
  }

  /** Setting a register to a word keeps the state well formed. */
  lemma WellFormedSet(t: State, name: string, w: string)
    requires WellFormed(t) && name in t.registers && Word(w)
    ensures WellFormed(t.(registers := t.registers[name := w]))
  {
    assert t.registers[name := w].Keys == t.registers.Keys;
  }

  /** STO keeps the state well formed. */
  lemma StoreKeepsWellFormed(t: State, at: nat)
    requires WellFormed(t) && t.reg in t.registers
    ensures WellFormed(StoreSpec(t, at).state)
  {
    if t.addr == "00" {
      WellFormedSet(t, "00", t.registers[t.reg]);
    }
  }

  /** An instruction that sets a register sets it to what `Computed` says. */
  lemma SetsValue(t: State, value: string)
    requires t.reg in t.registers && Word(value)
    requires Operation(t.instr).Some? && SetsRegister(Operation(t.instr).value)
    requires !(Operation(t.instr) == Some(P.Divide) && Num(value) == 0)
    ensures ExecuteSpec(t, value) ==
      SetSpec(t, Computed(Operation(t.instr).value, Num(t.registers[t.reg]), Num(value), value))
  {
  }

  /** Setting a register to n >= -1 changes that register only, to a word
      worth n modulo 2^16 (0 for -1). */
  lemma SetValue(t: State, n: int)
    requires t.reg in t.registers && n >= -1
    ensures var o := SetSpec(t, n);
      o.fault.None? && RegisterText(n).Ok? &&
      o.state == t.(registers := t.registers[t.reg := RegisterText(n).value]) &&
      Word(RegisterText(n).value) &&
      Num(RegisterText(n).value) == if n == -1 then 0 else n % 65536
  {
    RegisterTextValue(n);
  }

  /** `fetch` writes fields of the widths it reads. */
  lemma FetchKeepsWellFormed(s: State)
    requires WellFormed(s)
    ensures WellFormed(FetchSpec(s).state)
  {
  }

  /** Only the jumps set the counter. */
  lemma ExecuteKeepsCounter(t: State, value: string)
    requires t.reg in t.registers && Word(value)
    requires Operation(t.instr) != Some(P.Jump) && Operation(t.instr) != Some(P.JumpIfZero)
    ensures ExecuteSpec(t, value).state.pc == t.pc
  {
  }

  /** Every instruction but a jump moves the counter past itself, one byte
      with the accumulator and three with an operand. */
  lemma StepAdvances(s: State)
    requires WellFormed(s)
    requires StepSpec(s).fault.None?
    requires Operation(s.instr) != Some(P.Jump) && Operation(s.instr) != Some(P.JumpIfZero)
    ensures StepSpec(s).state.pc == s.pc + if s.addr == "00" then 1 else 3
  {
    RegisterNamed(s);
    var value, next := OperandSpec(s).value.0, OperandSpec(s).value.1;
    ExecuteKeepsCounter(s.(pc := next), value);
  }

  /** A step that raises nothing has fetched the instruction found at the
      new counter. */
  lemma StepFetches(s: State)
    requires WellFormed(s)
    requires StepSpec(s).fault.None?
    ensures Fetched(StepSpec(s).state)
  {
    StepUnfolds(s);
    FetchReads(ExecuteSpec(s.(pc := OperandSpec(s).value.1), OperandSpec(s).value.0).state);
  }

  /** The fields of `s` are the ones stored at its counter. */
  predicate Fetched(s: State)
  {
    ReadText(s.cells, s.pc * 8, 4) == Ok(s.instr) &&
    ReadText(s.cells, s.pc * 8 + 4, 2) == Ok(s.reg) &&
    ReadText(s.cells, s.pc * 8 + 6, 2) == Ok(s.addr)
  }

  /** A step that raises nothing took its operand, ran the instruction
      without a fault and fetched the next one. */
  lemma StepUnfolds(s: State)
    requires WellFormed(s) && StepSpec(s).fault.None?
    ensures s.reg in s.registers && OperandSpec(s).Ok?
    ensures var t := s.(pc := OperandSpec(s).value.1);
      var o := ExecuteSpec(t, OperandSpec(s).value.0);
      o.fault.None? && StepSpec(s) == FetchSpec(o.state)
  {
    RegisterNamed(s);
  }

  /** A fetch that raises nothing keeps the counter and holds the fields
      read at it. */
  lemma FetchReads(s: State)
    requires FetchSpec(s).fault.None?
    ensures FetchSpec(s).state.pc == s.pc && FetchSpec(s).state.cells == s.cells
    ensures Fetched(FetchSpec(s).state)
  {
    assert s.pc * 8 + 0 == s.pc * 8;
  }

  /** JMP sets the counter to the operand; JMZ does so exactly when the
      selected register is zero, and otherwise leaves the state alone. */
  lemma Jumps(t: State, value: string)
    requires t.reg in t.registers && Word(value)
    ensures Operation(t.instr) == Some(P.Jump) ==>
      ExecuteSpec(t, value) == Outcome(t.(pc := Num(value)), None)
    ensures Operation(t.instr) == Some(P.JumpIfZero) && Num(t.registers[t.reg]) == 0 ==>
      ExecuteSpec(t, value) == Outcome(t.(pc := Num(value)), None)
    ensures Operation(t.instr) == Some(P.JumpIfZero) && Num(t.registers[t.reg]) != 0 ==>
      ExecuteSpec(t, value) == Outcome(t, None)
  {
  }

  /** Every instruction but STO leaves memory alone. */
  lemma ExecuteKeepsMemory(t: State, value: string)
    requires t.reg in t.registers && Word(value)
    ensures Operation(t.instr) != Some(P.Store) ==> ExecuteSpec(t, value).state.cells == t.cells
  {
    if Operation(t.instr) != Some(P.Store) {
      ExecuteTouches(t, value);
    }
  }

  /** An instruction sets the selected register at most, STO the
      accumulator at most, and the register names never change. */
  lemma ExecuteFrame(t: State, value: string, other: string)
    requires t.reg in t.registers && "00" in t.registers && Word(value)
    ensures Operation(t.instr) != Some(P.Store) && other != t.reg && other in t.registers ==>
      other in ExecuteSpec(t, value).state.registers &&
      ExecuteSpec(t, value).state.registers[other] == t.registers[other]
    ensures Operation(t.instr) == Some(P.Store) && other != "00" && other in t.registers ==>
      other in ExecuteSpec(t, value).state.registers &&
      ExecuteSpec(t, value).state.registers[other] == t.registers[other]
    ensures ExecuteSpec(t, value).state.registers.Keys == t.registers.Keys
  {
    if Operation(t.instr) == Some(P.Store) {
      StoreFrame(t, t.pc);
    } else {
      ExecuteRegisters(t, value);
    }
  }

  /** Apart from STO, an instruction leaves the registers alone or
      replaces the selected one by a word. */
  lemma ExecuteRegisters(t: State, value: string)
    requires t.reg in t.registers && Word(value) && Operation(t.instr) != Some(P.Store)
    ensures var r := ExecuteSpec(t, value).state.registers;
      r == t.registers || (t.reg in r && Word(r[t.reg]) && r == t.registers[t.reg := r[t.reg]])
  {
    var kind := Operation(t.instr);
    if kind.Some? && SetsRegister(kind.value) && !(kind == Some(P.Divide) && Num(value) == 0) {
      SetsValue(t, value);
      SetRegisters(t, Computed(kind.value, Num(t.registers[t.reg]), Num(value), value));
    } else if kind == Some(P.Load) {
      assert ExecuteSpec(t, value).state.registers == t.registers[t.reg := value];
    } else {
      assert ExecuteSpec(t, value).state.registers == t.registers;
    }
  }

  /** Setting the selected register leaves the registers alone or replaces
      that one by a word. */
  lemma SetRegisters(t: State, n: int)
    requires t.reg in t.registers
    ensures var r := SetSpec(t, n).state.registers;
      r == t.registers || (t.reg in r && Word(r[t.reg]) && r == t.registers[t.reg := r[t.reg]])
  {
    if n >= -1 {
      SetValue(t, n);
    } else {
      RegisterTextValue(n);
    }
  }

  /** The switch never changes the fetched instruction's fields. */
  lemma ExecuteKeepsFields(t: State, value: string)
    requires t.reg in t.registers && "00" in t.registers && Word(value)
    ensures ExecuteSpec(t, value).state.instr == t.instr
    ensures ExecuteSpec(t, value).state.reg == t.reg && ExecuteSpec(t, value).state.addr == t.addr
  {
    if Operation(t.instr) == Some(P.Store) {
      ExecuteStores(t, value);
      StoreFrame(t, t.pc);
    } else {
      ExecuteTouches(t, value);
    }
  }

  /** Apart from STO, an instruction changes the counter and the registers
      at most. */
  lemma ExecuteTouches(t: State, value: string)
    requires t.reg in t.registers && Word(value) && Operation(t.instr) != Some(P.Store)
    ensures var o := ExecuteSpec(t, value).state;
      o == t.(pc := o.pc, registers := o.registers)
  {
    var kind := Operation(t.instr);
    if kind.Some? && SetsRegister(kind.value) && !(kind == Some(P.Divide) && Num(value) == 0) {
      SetsValue(t, value);
    }
  }

  /** STO changes the accumulator and the memory at most. */
  lemma StoreFrame(t: State, at: nat)
    requires t.reg in t.registers && "00" in t.registers
    ensures var o := StoreSpec(t, at).state;
      o.registers.Keys == t.registers.Keys &&
      (forall other :: other in t.registers && other != "00" ==> o.registers[other] == t.registers[other]) &&
      o.pc == t.pc && o.instr == t.instr && o.reg == t.reg && o.addr == t.addr
  {
  }

  /** The selected register after an instruction that sets it. */
  function After(t: State, value: string): nat
    requires t.reg in t.registers && Word(value)
  {
    var o := ExecuteSpec(t, value).state;
    if t.reg in o.registers then Num(o.registers[t.reg]) else 0
  }

  /** An instruction that sets a register to a computed n >= -1 raises
      nothing and leaves the register worth n modulo 2^16 (0 for -1). */
  lemma SetResult(t: State, value: string)
    requires t.reg in t.registers && Word(value)
    requires Operation(t.instr).Some? && SetsRegister(Operation(t.instr).value)
    requires !(Operation(t.instr) == Some(P.Divide) && Num(value) == 0)
    requires Computed(Operation(t.instr).value, Num(t.registers[t.reg]), Num(value), value) >= -1
    ensures var n := Computed(Operation(t.instr).value, Num(t.registers[t.reg]), Num(value), value);
      ExecuteSpec(t, value).fault.None? && After(t, value) == if n == -1 then 0 else n % 65536
  {
    var n := Computed(Operation(t.instr).value, Num(t.registers[t.reg]), Num(value), value);
    SetsValue(t, value);
    SetValue(t, n);
  }

  /** ADD keeps the sum modulo 2^16. */
  lemma Adds(t: State, value: string)
    requires t.reg in t.registers && Word(value) && Operation(t.instr) == Some(P.Add)
    ensures ExecuteSpec(t, value).fault.None?
    ensures After(t, value) == (Num(t.registers[t.reg]) + Num(value)) % 65536
  {
    var r, v := Num(t.registers[t.reg]), Num(value);
    assert Computed(P.Add, r, v, value) == r + v;
    SetResult(t, value);
  }

  /** MUL keeps the product modulo 2^16. */
  lemma Multiplies(t: State, value: string)
    requires t.reg in t.registers && Word(value) && Operation(t.instr) == Some(P.Multiply)
    ensures ExecuteSpec(t, value).fault.None?
    ensures After(t, value) == (Num(t.registers[t.reg]) * Num(value)) % 65536
  {
    var r: int, v: int := Num(t.registers[t.reg]), Num(value);
    assert Computed(P.Multiply, r, v, value) == r * v;
    ProductNonNegative(r, v);
    SetResult(t, value);
  }

  /** A product of two naturals is not negative. */
  lemma ProductNonNegative(r: nat, v: nat)
    ensures r * v >= 0
  {
  }

  /** SUB gives the difference when it is not negative, 0 for -1, and
      throws, changing nothing, below -1. */
  lemma Subtracts(t: State, value: string)
    requires t.reg in t.registers && Word(t.registers[t.reg]) && Word(value)
    requires Operation(t.instr) == Some(P.Subtract)
    ensures var r, v := Num(t.registers[t.reg]), Num(value);
      (r >= v ==> ExecuteSpec(t, value).fault.None? && After(t, value) == r - v) &&
      (r == v - 1 ==> ExecuteSpec(t, value).fault.None? && After(t, value) == 0) &&
      (r < v - 1 ==> ExecuteSpec(t, value) == Outcome(t, Some(InvalidNumber)))
  {
    var r: int, v: int := Num(t.registers[t.reg]), Num(value);
    assert Computed(P.Subtract, r, v, value) == r - v;
    if r >= v - 1 {
      SetResult(t, value);
      WordValue(t.registers[t.reg]);
      if r >= v {
        SmallMod(r - v);
      }
    } else {
      SetsValue(t, value);
      RegisterTextValue(r - v);
    }
  }

  /** DIV gives the floored quotient, and throws, changing nothing, for a
      zero divisor. */
  lemma Divides(t: State, value: string)
    requires t.reg in t.registers && Word(t.registers[t.reg]) && Word(value)
    requires Operation(t.instr) == Some(P.Divide)
    ensures var r, v := Num(t.registers[t.reg]), Num(value);
      (v == 0 ==> ExecuteSpec(t, value) == Outcome(t, Some(InvalidNumber))) &&
      (v != 0 ==> ExecuteSpec(t, value).fault.None? && After(t, value) == r / v)
  {
    if Num(value) != 0 {
      Quotient(t, value);
    }
  }

  lemma Quotient(t: State, value: string)
    requires t.reg in t.registers && Word(t.registers[t.reg]) && Word(value)
    requires Operation(t.instr) == Some(P.Divide) && Num(value) != 0
    ensures ExecuteSpec(t, value).fault.None?
    ensures After(t, value) == Num(t.registers[t.reg]) / Num(value)
  {
    WordValue(t.registers[t.reg]);
    QuotientFits(Num(t.registers[t.reg]), Num(value));
    SetResult(t, value);
  }

  /** The quotient of a word by a positive number is a word. */
  lemma QuotientFits(r: nat, v: nat)
    requires r < 65536 && v > 0
    ensures 0 <= r / v < 65536 && (r / v) % 65536 == r / v
  {
    QuotientBound(r, v);
    SmallMod(r / v);
  }

  lemma SmallMod(x: int)
    requires 0 <= x < 65536
    ensures x % 65536 == x
  {
    DivModUnique(0, x, 65536);
  }

  lemma QuotientBound(r: nat, v: nat)
    requires v > 0
    ensures 0 <= r / v <= r
  {
    DivMod(r, v);
    MulMonotone(1, v, r / v);
  }

  /** AND, OR and NOT of the low bits as 0 or 1; CPZ is 1 exactly for a
      zero operand; CPL is 1 exactly when the operand's sign bit is set. */
  lemma Logic(t: State, value: string)
    requires t.reg in t.registers && Word(value)
    ensures var r, v := Num(t.registers[t.reg]), Num(value);
      Operation(t.instr) == Some(P.And) ==>
        ExecuteSpec(t, value).fault.None? && After(t, value) == if r == 1 && v == 1 then 1 else 0
    ensures var r, v := Num(t.registers[t.reg]), Num(value);
      Operation(t.instr) == Some(P.Or) ==>
        ExecuteSpec(t, value).fault.None? && After(t, value) == if r == 1 || v == 1 then 1 else 0
    ensures var r := Num(t.registers[t.reg]);
      Operation(t.instr) == Some(P.Not) ==>
        ExecuteSpec(t, value).fault.None? && After(t, value) == if r == 1 then 0 else 1
    ensures Operation(t.instr) == Some(P.EqualsZero) ==>
      ExecuteSpec(t, value).fault.None? && After(t, value) == if Num(value) == 0 then 1 else 0
    ensures Operation(t.instr) == Some(P.LessThanZero) ==>
      ExecuteSpec(t, value).fault.None? && After(t, value) == if Num(value) >= 32768 then 1 else 0
  {
    var kind := Operation(t.instr);
    if kind.Some? && kind.value in {P.And, P.Or, P.Not, P.EqualsZero, P.LessThanZero} {
      var n := Computed(kind.value, Num(t.registers[t.reg]), Num(value), value);
      assert n == 0 || n == 1;
      SetResult(t, value);
      DivModUnique(0, n, 65536);
      if kind == Some(P.LessThanZero) {
        SignBit(value);
      }
    }
  }

  /** The first digit of a word is set exactly when it is worth 2^15 or more. */
  lemma SignBit(value: string)
    requires Word(value)
    ensures value[0] == '1' <==> Num(value) >= 32768
  {
    WordValue(value);
    var bits := TextBits(value);
    var lo := bits[1..];
    assert bits == [bits[0]] + lo;
    PositionalConcat([bits[0]], lo, 2);
    PositionalBound(lo, 2);
    assert |lo| == 15;
    WordRange();
    assert Positional([bits[0]], 2) == bits[0] by {
      assert [bits[0]][..0] == [];
    }
  }

  /** HLT throws after the counter has moved past it, and changes nothing else. */
  lemma Halts(s: State)
    requires WellFormed(s) && Operation(s.instr) == Some(P.Halt) && s.reg != "11" && s.addr != "11"
    ensures OperandSpec(s).Ok? ==>
      StepSpec(s) == Outcome(s.(pc := s.pc + if s.addr == "00" then 1 else 3), Some(Halted))
    ensures OperandSpec(s).Err? ==> StepSpec(s) == Outcome(s, Some(OperandSpec(s).error))
  {
    assert s.instr == "0001";
  }

  /** LOD puts the operand in the selected register; STO with the
      accumulator copies the selected register into "00"; STO with an
      immediate operand throws. */
  lemma LoadAndCopy(t: State, value: string)
    requires t.reg in t.registers && Word(value)
    ensures Operation(t.instr) == Some(P.Load) ==>
      ExecuteSpec(t, value) == Outcome(t.(registers := t.registers[t.reg := value]), None)
    ensures Operation(t.instr) == Some(P.Store) && t.addr == "00" ==>
      ExecuteSpec(t, value) == Outcome(t.(registers := t.registers["00" := t.registers[t.reg]]), None)
    ensures Operation(t.instr) == Some(P.Store) && t.addr == "01" ==>
      ExecuteSpec(t, value) == Outcome(t, Some(ImmediateStore))
  {
  }

  // ---------------------------------------------------------------------
  // The machine and the assembler agree
  // ---------------------------------------------------------------------

  /** The code the assembler emits for an instruction is the one the
      machine runs as that instruction. */
  lemma OpcodesAgree(kind: P.InstructionKind)
    requires kind != P.Memory
    ensures Operation(A.OpcodeBits(kind)) == Some(kind)
  {
  }

  /** The code "1111", which the assembler never emits, runs nothing. */
  lemma UnknownCode()
    ensures Operation("1111") == None
  {
    assert "1111"[0] != "0000"[0];
    assert "1111"[0] != "0001"[0];
    assert "1111"[0] != "0010"[0];
    assert "1111"[0] != "0011"[0];
    assert "1111"[0] != "0100"[0];
    assert "1111"[0] != "0101"[0];
    assert "1111"[0] != "0110"[0];
    assert "1111"[0] != "0111"[0];
    assert "1111"[1] != "1000"[1];
    assert "1111"[1] != "1001"[1];
    assert "1111"[1] != "1010"[1];
    assert "1111"[1] != "1011"[1];
    assert "1111"[2] != "1100"[2];
    assert "1111"[2] != "1101"[2];
    assert "1111"[3] != "1110"[3];
  }

  /** The machine steps over as many bytes as the assembler emits for an
      instruction with a mode: one without an operand, three with one. */
  lemma SizesAgree(i: P.Instruction)
    requires i.kind != P.Memory
    requires i.argument.Some? ==> i.argument.value.mode.Some?
    ensures (if A.ModeBits(A.ArgumentMode(i)) == "00" then 1 else 3) == A.EncodedSize(i)
  {
  }

  /** Fetching the header the assembler emits for an instruction yields
      its code, register and mode, and the code runs that instruction. */
  lemma FetchDecodes(s: State, i: P.Instruction)
    requires i.kind != P.Memory
    requires s.pc * 8 + 8 <= |s.cells|
    requires s.cells[s.pc * 8 .. s.pc * 8 + 8] == TextBits(A.Header(i))
    ensures FetchSpec(s).fault.None?
    ensures FetchSpec(s).state.instr == A.OpcodeBits(i.kind)
    ensures FetchSpec(s).state.reg == A.RegisterBits(i.register)
    ensures FetchSpec(s).state.addr == A.ModeBits(A.ArgumentMode(i))
    ensures Operation(FetchSpec(s).state.instr) == Some(i.kind)
  {
    var h := A.Header(i);
    A.HeaderShape(i);
    var at := s.pc * 8;
    StoredField(s.cells, at, h, 0, 4);
    StoredField(s.cells, at, h, 4, 6);
    StoredField(s.cells, at, h, 6, 8);
    OpcodesAgree(i.kind);
  }

  /** Reading back a field of binary text stored at bit `at`. */
  lemma StoredField(cells: seq<Bit>, at: nat, h: string, i: nat, j: nat)
    requires IsBinary(h) && i <= j <= |h| && at + |h| <= |cells|
    requires cells[at .. at + |h|] == TextBits(h)
    ensures ReadText(cells, at + i, j - i) == Ok(h[i..j])
  {
    BitsTextRoundTrip([], h);
    assert Read(cells, at + i, j - i).value == TextBits(h)[i..j];
    FieldText(h, i, j);
  }

  /** Splitting a binary string into bits and joining a slice of them gives
      the slice of the string. */
  lemma FieldText(h: string, i: nat, j: nat)
    requires IsBinary(h) && i <= j <= |h|
    ensures BitsText(TextBits(h)[i..j]) == h[i..j]
  {
    assert TextBits(h)[i..j] == TextBits(h[i..j]);
    BitsTextRoundTrip([], h[i..j]);
  }

  // ---------------------------------------------------------------------
  // STO with a direct operand
  // ---------------------------------------------------------------------

  /** The store the instruction means, reading its address word from the
      two bytes after its own byte `at`, writes the selected register at
      that address, and reading the word there gives the register back. */
  lemma StoreLoads(t: State, at: nat)
    requires t.reg in t.registers && Word(t.registers[t.reg]) && t.addr == "10"
    requires StoreSpec(t, at).fault.None?
    ensures ReadNumber(t.cells, at * 8 + 8, 16).Ok?
    ensures var a := ReadNumber(t.cells, at * 8 + 8, 16).value;
      ReadText(StoreSpec(t, at).state.cells, a * 8, 16) == Ok(t.registers[t.reg])
  {
    var a := ReadNumber(t.cells, at * 8 + 8, 16).value;
    var w := t.registers[t.reg];
    ReadAfterWrite(t.cells, a * 8, TextBits(w));
    BitsTextRoundTrip([], w);
  }

  /** A step that runs `STO r, a` with a direct operand reads the address
      word from the two bytes after byte pc + 3, where the counter has
      moved, not from the instruction's own operand bytes after byte pc. */
  lemma StepStores(s: State)
    requires WellFormed(s) && s.instr == "0101" && s.reg != "11" && s.addr == "10"
    requires OperandSpec(s).Ok?
    ensures s.reg in s.registers
    ensures var t := s.(pc := s.pc + 3);
      StepSpec(s) == ThenFetch(WrittenStore(t)) &&
      WrittenStore(t) == StoreSpec(t, s.pc + 3)
  {
    RegisterNamed(s);
    StoreCode();
    StepRuns(s);
    assert OperandSpec(s).value.1 == s.pc + 3;
    ExecuteStores(s.(pc := s.pc + 3), OperandSpec(s).value.0);
  }

  /** Code 0101 is STO, and it is not the code `step` rejects. */
  lemma StoreCode()
    ensures Operation("0101") == Some(P.Store)
    ensures "0101" != "1111" && "10" != "11" && "10" != "00" && "10" != "01"
  {
    assert "0101"[0] != "1111"[0];
    assert "10"[1] != "11"[1];
    assert "10"[0] != "00"[0];
    assert "10"[0] != "01"[0];
  }

  /** A step past the checks and the operand runs the instruction, then
      fetches unless it raised something. */
  lemma StepRuns(s: State)
    requires WellFormed(s) && s.instr != "1111" && s.reg != "11" && s.addr != "11"
    requires OperandSpec(s).Ok?
    ensures s.reg in s.registers
    ensures StepSpec(s) == ThenFetch(ExecuteSpec(s.(pc := OperandSpec(s).value.1), OperandSpec(s).value.0))
  {
    RegisterNamed(s);
  }

  /** STO runs the store that reads its address word after the moved counter. */
  lemma ExecuteStores(t: State, value: string)
    requires t.reg in t.registers && Word(value) && Operation(t.instr) == Some(P.Store)
    ensures ExecuteSpec(t, value) == WrittenStore(t)
  {
  }

  /** As written, `STO r1, 3` at address 0 of a six-byte memory whose
      bytes 3 to 5 are zero reads its address from bytes 4 and 5, so it
      writes r1 over the instruction itself at byte 0 instead of at byte 3. */
  lemma StoreMisaddressed()
    ensures var s := StoreExample();
      var t := s.(pc := 3);
      WrittenStore(t).fault.None? &&
      Read(WrittenStore(t).state.cells, 0, 16) == Ok(TextBits(s.registers["01"])) &&
      Read(WrittenStore(t).state.cells, 24, 16) != Ok(TextBits(s.registers["01"])) &&
      Read(StoreSpec(t, 0).state.cells, 24, 16) == Ok(TextBits(s.registers["01"]))
  {
    var s := StoreExample();
    var t := s.(pc := 3);
    var one := TextBits(s.registers["01"]);
    ExampleStores(t);
    ReadAfterWrite(s.cells, 0, one);
    ReadAfterWrite(s.cells, 24, one);
    var after := Write(s.cells, 0, one).value;
    ExampleAddresses();
    assert after[39] == s.cells[39] == 0;
    assert one[15] == 1;
  }

  /** In the example, the store as written lands at byte 0 and the store
      of the instruction at byte 0 lands at byte 3. */
  lemma ExampleStores(t: State)
    requires t == StoreExample().(pc := 3)
    ensures |TextBits(t.registers["01"])| == 16
    ensures WrittenStore(t) == Outcome(t.(cells := Write(t.cells, 0, TextBits(t.registers["01"])).value), None)
    ensures StoreSpec(t, 0) == Outcome(t.(cells := Write(t.cells, 24, TextBits(t.registers["01"])).value), None)
  {
    ExampleAddresses();
    assert t.reg == "01" && t.addr == "10" && t.cells == ExampleCells();
    assert ReadNumber(t.cells, 3 * 8 + 8, 16) == Ok(0);
    assert ReadNumber(t.cells, 0 * 8 + 8, 16) == Ok(3);
  }

  /** The machine of the example: pc 0, r1 = 1, and the bytes
      0101 01 10, 0, 3, 0, 0, 0. */
  function StoreExample(): State
  {
    var r1 := "0000000000000001";
    State(0, map["00" := Zeros, "01" := r1, "10" := Zeros], "0101", "01", "10", ExampleCells())
  }

  function Zero(n: nat): seq<Bit>
  {
    seq(n, _ => 0)
  }

  function ExampleCells(): seq<Bit>
  {
    [0, 1, 0, 1, 0, 1, 1, 0] + Zero(14) + [1, 1] + Zero(24)
  }

  /** Bytes 1 and 2 of the example hold 3, bytes 4 and 5 hold 0. */
  lemma ExampleAddresses()
    ensures |ExampleCells()| == 48
    ensures ReadNumber(ExampleCells(), 8, 16) == Ok(3)
    ensures ReadNumber(ExampleCells(), 32, 16) == Ok(0)
    ensures forall i :: 24 <= i < 48 ==> ExampleCells()[i] == 0
  {
    ExampleThree();
    ExampleZeros();
  }

  lemma ExampleThree()
    ensures |ExampleCells()| == 48
    ensures ReadNumber(ExampleCells(), 8, 16) == Ok(3)
  {
    var cells := ExampleCells();
    assert Positional(cells[8..24], 2) == 3 by {
      var hi := Zero(14);
      assert cells[8..24] == hi + [1, 1];
      ZerosValue(hi, 2);
      PositionalConcat(hi, [1, 1], 2);
      assert Positional([1, 1], 2) == 3 by {
        assert [1, 1][..1] == [1];
        assert [1][..0] == [];
      }
    }
  }

  lemma ExampleZeros()
    ensures |ExampleCells()| == 48
    ensures ReadNumber(ExampleCells(), 32, 16) == Ok(0)
    ensures forall i :: 24 <= i < 48 ==> ExampleCells()[i] == 0
  {
    var cells := ExampleCells();
    assert cells[24..] == Zero(24);
    assert cells[32..48] == Zero(16);
    ZerosValue(Zero(16), 2);
  }
}
