/**
 * The assembler (assemble.mjs): every resolved instruction becomes a run
 * of binary digits (one byte for a bare header, three bytes when a 16-bit
 * operand follows, one byte for a `mem` datum), and the joined digits are
 * loaded as a memory.
 */
module Assembler {
  import opened Results
  import opened ConvertBases
  import opened BitMemory
  import P = ParseAssembly

  datatype AssembleError =
    | Syntax(cause: P.AssemblyError)  // the text does not parse
    | MissingValue                    // `undefined.toString(2)`: a datum or operand without a value

  // ---------------------------------------------------------------------
  // The code table
  // ---------------------------------------------------------------------

  /** The four-bit code of every instruction kind but `mem`. */
  function OpcodeBits(kind: P.InstructionKind): string
    requires kind != P.Memory
  {
    match kind
    case NoOperation => "0000"
    case Halt => "0001"
    case Jump => "0010"
    case JumpIfZero => "0011"
    case Load => "0100"
    case Store => "0101"
    case Add => "0110"
    case Subtract => "0111"
    case Multiply => "1000"
    case Divide => "1001"
    case And => "1010"
    case Or => "1011"
    case Not => "1100"
    case EqualsZero => "1101"
    case LessThanZero => "1110"
  }

  /** The two-bit code of a register, "00" when there is none. */
  function RegisterBits(r: Option<P.Register>): string
  {
    match r
    case None => "00"
    case Some(R0) => "00"
    case Some(R1) => "01"
    case Some(R2) => "10"
  }

  /** The two-bit code of an addressing mode, "00" when there is none. */
  function ModeBits(m: Option<P.Mode>): string
  {
    match m
    case None => "00"
    case Some(Accumulator) => "00"
    case Some(Immediate) => "01"
    case Some(Direct) => "10"
  }

  /** `instruction.argument?.mode`. */
  function ArgumentMode(i: P.Instruction): Option<P.Mode>
  {
    if i.argument.Some? then i.argument.value.mode else None
  }

  /** The first byte of an instruction: code, register, mode. */
  function Header(i: P.Instruction): string
    requires i.kind != P.Memory
  {
    OpcodeBits(i.kind) + RegisterBits(i.register) + ModeBits(ArgumentMode(i))
  }

  /** No operand follows when there is no argument or it is the accumulator. */
  predicate HeaderOnly(i: P.Instruction)
  {
    i.argument.None? || i.argument.value.mode == Some(P.Accumulator)
  }

  /** `value.toString(2).padStart(width, "0")`. */
  function Binary(value: nat, width: nat): string
  {
    PadStart(ToDigits(value, 2), width, '0')
  }

  /** The digits of one instruction. */
  function Encode(i: P.Instruction): Result<string, AssembleError>
  {
    if i.kind == P.Memory then
      if i.value.None? then Err(MissingValue) else Ok(Binary(i.value.value, 8))
    else if HeaderOnly(i) then Ok(Header(i))
    else if i.argument.value.value.None? then Err(MissingValue)
    else Ok(Header(i) + Binary(i.argument.value.value.value, 16))
  }

  /** `instructions.map(encode).join("")`: the first instruction that
      cannot be encoded throws, otherwise the digits are concatenated. */
  function EncodeAll(instrs: seq<P.Instruction>): Result<string, AssembleError>
  {
    if instrs == [] then Ok("")
    else
      match EncodeAll(instrs[..|instrs| - 1])
      case Err(e) => Err(e)
      case Ok(text) =>
        match Encode(instrs[|instrs| - 1])
        case Err(e) => Err(e)
        case Ok(digits) => Ok(text + digits)
  }

  /** `assemble(code)`: parse and resolve, encode, and load the digits as
      a base-2 memory dump. */
  method Assemble(code: string) returns (r: Result<Memory, AssembleError>)
    ensures var p := P.ParseProgram(code);
      p.failed || p.unparsed != [] ==> r == Err(Syntax(P.ParseFailure(p.unparsed)))
    ensures var p := P.ParseProgram(code);
      !p.failed && p.unparsed == [] ==>
        var e := EncodeAll(P.Resolved(P.ProgramRecords(p)));
        (e.Err? ==> r == Err(e.error)) &&
        (e.Ok? ==> r.Ok? && fresh(r.value) && r.value.cells == BytesToBits(DumpBytes(e.value, 2)))
  {
    var parsed := P.ParseAndResolve(code);
    if parsed.Err? {
      return Err(Syntax(parsed.error));
    }
    var text := EncodeAll(parsed.value);
    if text.Err? {
      return Err(text.error);
    }
    var m := Memory.FromString(text.value, 2);
    r := Ok(m);
  }

  // ---------------------------------------------------------------------
  // What an encoding looks like
  // ---------------------------------------------------------------------

  /** The digits of a number are binary. */
  lemma DigitsBinary(n: nat)
    ensures IsBinary(ToDigits(n, 2))
  {
    var s := ToDigits(n, 2);
    forall i | 0 <= i < |s| ensures s[i] == '0' || s[i] == '1' {
      assert s[i] in Alphabet(2);
    }
  }

  /** A padded number is binary, reads back as the number, and fills
      exactly `width` digits when it is below 2^width. */
  lemma BinaryExact(value: nat, width: nat)
    ensures IsBinary(Binary(value, width))
    ensures StringToNumber(Binary(value, width), 2) == Some(value)
    ensures 0 < width && value < Pow(2, width) ==> |Binary(value, width)| == width
  {
    var s := ToDigits(value, 2);
    DigitsBinary(value);
    PadBinary(s, width);
    ToDigitsRoundTrip(value, 2);
    PadStartValue(s, width, 2);
    if 0 < width && value < Pow(2, width) {
      PaddedLength(value, width);
    }
  }

  /** Distinct kinds have distinct four-bit codes, none of them "1111". */
  lemma OpcodesDistinct(a: P.InstructionKind, b: P.InstructionKind)
    requires a != P.Memory && b != P.Memory
    ensures |OpcodeBits(a)| == 4 && IsBinary(OpcodeBits(a))
    ensures OpcodeBits(a) != "1111"
    ensures OpcodeBits(a) == OpcodeBits(b) <==> a == b
  {
  }

  /** The header is one byte: code in bits 0-3, register in 4-5, mode in 6-7. */
  lemma HeaderShape(i: P.Instruction)
    requires i.kind != P.Memory
    ensures |Header(i)| == 8 && IsBinary(Header(i))
    ensures Header(i)[..4] == OpcodeBits(i.kind)
    ensures Header(i)[4..6] == RegisterBits(i.register)
    ensures Header(i)[6..8] == ModeBits(ArgumentMode(i))
  {
    OpcodesDistinct(i.kind, i.kind);
    var h := Header(i);
    assert |RegisterBits(i.register)| == 2 && |ModeBits(ArgumentMode(i))| == 2;
    forall k | 0 <= k < 8 ensures h[k] == '0' || h[k] == '1' {
      if k < 4 {
        assert h[k] == OpcodeBits(i.kind)[k];
      } else if k < 6 {
        assert h[k] == RegisterBits(i.register)[k - 4];
      } else {
        assert h[k] == ModeBits(ArgumentMode(i))[k - 6];
      }
    }
  }

  /** Encoding fails exactly when a datum or an operand has no value: a
      `mem` without one, or a label argument naming no label. */
  lemma EncodeFails(i: P.Instruction)
    ensures Encode(i).Err? <==>
      (i.kind == P.Memory && i.value.None?) ||
      (i.kind != P.Memory && !HeaderOnly(i) && i.argument.value.value.None?)
    ensures Encode(i).Err? ==> Encode(i) == Err(MissingValue)
  {
  }

  /** A `mem` datum below 256 is one byte holding its value. */
  lemma MemoryByte(i: P.Instruction)
    requires i.kind == P.Memory && i.value.Some? && i.value.value < 256
    ensures Encode(i).Ok?
    ensures |Encode(i).value| == 8 && IsBinary(Encode(i).value)
    ensures StringToNumber(Encode(i).value, 2) == Some(i.value.value)
  {
    assert Pow(2, 8) == 256;
    BinaryExact(i.value.value, 8);
  }

  /** An instruction without an operand is its header alone: one byte
      whose mode bits are "00". */
  lemma BareInstruction(i: P.Instruction)
    requires i.kind != P.Memory && HeaderOnly(i)
    ensures Encode(i) == Ok(Header(i))
    ensures |Encode(i).value| == 8 && Encode(i).value[6..8] == "00"
  {
    HeaderShape(i);
  }

  /** An instruction with an immediate or direct operand below 2^16 is
      three bytes: the header, then the operand in bits 8-23. */
  lemma OperandInstruction(i: P.Instruction)
    requires i.kind != P.Memory && !HeaderOnly(i)
    requires i.argument.value.mode.Some? && i.argument.value.value.Some?
    requires i.argument.value.value.value < Pow(2, 16)
    ensures Encode(i).Ok?
    ensures |Encode(i).value| == 24 && IsBinary(Encode(i).value)
    ensures Encode(i).value[..8] == Header(i)
    ensures Encode(i).value[6..8] != "00"
    ensures StringToNumber(Encode(i).value[8..], 2) == i.argument.value.value
  {
    var v := i.argument.value.value.value;
    var h, b := Header(i), Binary(v, 16);
    HeaderShape(i);
    BinaryExact(v, 16);
    assert Encode(i) == Ok(h + b);
    assert (h + b)[..8] == h && (h + b)[8..] == b;
    BinaryConcat(h, b);
    OperandMode(i.argument.value.mode.value);
  }

  /** A mode that reads an operand is not coded "00". */
  lemma OperandMode(m: P.Mode)
    requires m != P.Accumulator
    ensures ModeBits(Some(m)) != "00"
  {
    if m == P.Immediate {
      assert ModeBits(Some(m))[1] != "00"[1];
    } else {
      assert ModeBits(Some(m))[0] != "00"[0];
    }
  }

  // ---------------------------------------------------------------------
  // Whole programs
  // ---------------------------------------------------------------------

  /** A program encodes exactly when every instruction does. */
  lemma {:induction false} EncodeAllOk(instrs: seq<P.Instruction>)
    ensures EncodeAll(instrs).Ok? <==> forall k :: 0 <= k < |instrs| ==> Encode(instrs[k]).Ok?
  {
    if instrs != [] {
      var init := instrs[..|instrs| - 1];
      EncodeAllOk(init);
      assert forall k :: 0 <= k < |init| ==> init[k] == instrs[k];
    }
  }

  /** The digits of a whole program are the digits of its instructions. */
  lemma {:induction false} ProgramBinary(instrs: seq<P.Instruction>)
    requires EncodeAll(instrs).Ok?
    ensures IsBinary(EncodeAll(instrs).value)
  {
    if instrs != [] {
      var init := instrs[..|instrs| - 1];
      ProgramBinary(init);
      EncodeBinary(instrs[|instrs| - 1]);
      var t, d := EncodeAll(init).value, Encode(instrs[|instrs| - 1]).value;
      assert EncodeAll(instrs).value == t + d;
      BinaryConcat(t, d);
    }
  }

  /** Each instruction's encoding is binary. */
  lemma EncodeBinary(i: P.Instruction)
    requires Encode(i).Ok?
    ensures IsBinary(Encode(i).value)
  {
    if i.kind == P.Memory {
      BinaryExact(i.value.value, 8);
    } else {
      HeaderShape(i);
      if !HeaderOnly(i) {
        BinaryExact(i.argument.value.value.value, 16);
        BinaryConcat(Header(i), Binary(i.argument.value.value.value, 16));
      }
    }
  }

  /** The digits of a prefix of the program come first in the program's
      digits. */
  lemma {:induction false} EncodePrefix(instrs: seq<P.Instruction>, m: nat)
    requires m <= |instrs| && EncodeAll(instrs).Ok?
    ensures EncodeAll(instrs[..m]).Ok?
    ensures |EncodeAll(instrs[..m]).value| <= |EncodeAll(instrs).value|
    ensures EncodeAll(instrs).value[..|EncodeAll(instrs[..m]).value|] == EncodeAll(instrs[..m]).value
    decreases |instrs|
  {
    if m < |instrs| {
      var init := instrs[..|instrs| - 1];
      assert init[..m] == instrs[..m];
      EncodePrefix(init, m);
    } else {
      assert instrs[..m] == instrs;
    }
  }

  /** Instruction k's digits sit in the program's digits right after the
      digits of the instructions before it. */
  lemma Layout(instrs: seq<P.Instruction>, k: nat)
    requires k < |instrs| && EncodeAll(instrs).Ok?
    ensures EncodeAll(instrs[..k]).Ok? && Encode(instrs[k]).Ok?
    ensures var o, e := |EncodeAll(instrs[..k]).value|, Encode(instrs[k]).value;
      o + |e| <= |EncodeAll(instrs).value| && EncodeAll(instrs).value[o .. o + |e|] == e
  {
    EncodePrefix(instrs, k + 1);
    var pre := instrs[..k + 1];
    assert pre[..|pre| - 1] == instrs[..k];
    var t, e := EncodeAll(instrs[..k]).value, Encode(instrs[k]).value;
    assert EncodeAll(pre).value == t + e;
    var all := EncodeAll(instrs).value;
    assert all[..|t + e|] == t + e;
    assert all[|t| .. |t| + |e|] == (t + e)[|t|..];
  }

  /** The digits `fromString` collects from a binary text are its bits. */
  lemma BinaryTextDigits(text: string)
    requires IsBinary(text)
    ensures DigitsIn(text, 2) == TextBits(text)
  {
    BinaryStringIsNumber(text);
    BinaryDigitValues(text);
    DigitsInAll(text, 2);
  }

  /** A binary text's dump bytes are its bits in groups of eight. */
  lemma BinaryTextBytes(text: string)
    requires IsBinary(text)
    ensures DumpBytes(text, 2) == BitsToBytes(TextBits(text))
  {
    BinaryTextDigits(text);
    assert DigitsPerByte(2) == 8;
    var ds: seq<nat> := DigitsIn(text, 2);
    var bits: seq<Bit> := TextBits(text);
    GroupIsChunks(ds, 8);
    GroupIsChunks(bits, 8);
    ChunkValues(ds, bits);
  }

  /** Grouping the same digits as numbers or as bits gives the same bytes. */
  lemma {:induction false} ChunkValues(ds: seq<nat>, bits: seq<Bit>)
    requires ds == bits
    ensures Values(Chunks(ds, 8), 2) == Values(Chunks(bits, 8), 2)
    decreases |ds|
  {
    if |ds| > 8 {
      ChunkValues(ds[8..], bits[8..]);
      var a, b := Chunks(ds, 8), Chunks(bits, 8);
      assert a == [ds[..8]] + Chunks(ds[8..], 8);
      assert b == [bits[..8]] + Chunks(bits[8..], 8);
      assert Values(a, 2)[0] == Values(b, 2)[0];
      forall k | 1 <= k < |a| ensures Values(a, 2)[k] == Values(b, 2)[k] {
        assert Values(a, 2)[k] == Values(Chunks(ds[8..], 8), 2)[k - 1];
        assert Values(b, 2)[k] == Values(Chunks(bits[8..], 8), 2)[k - 1];
      }
    }
  }

  /** A program whose digits fill whole bytes loads as exactly those bits. */
  lemma AssembledBits(instrs: seq<P.Instruction>)
    requires EncodeAll(instrs).Ok?
    requires EncodeAll(instrs).value != [] && |EncodeAll(instrs).value| % 8 == 0
    ensures BytesToBits(DumpBytes(EncodeAll(instrs).value, 2)) == TextBits(EncodeAll(instrs).value)
  {
    var text := EncodeAll(instrs).value;
    ProgramBinary(instrs);
    BinaryTextBytes(text);
    BitsRoundTrip(TextBits(text));
  }

  // ---------------------------------------------------------------------
  // Where each instruction lands
  // ---------------------------------------------------------------------

  /** Every datum below 256 and every operand below 2^16. */
  predicate Fits(i: P.Instruction)
  {
    (i.kind == P.Memory && i.value.Some? ==> i.value.value < 256) &&
    (i.kind != P.Memory && i.argument.Some? && i.argument.value.value.Some? ==>
      i.argument.value.value.value < Pow(2, 16))
  }

  /** The bytes the encoder emits for an instruction: one for the raw
      datum of `mem` and for a header without operand, three for a header
      followed by a 16-bit operand. */
  function EncodedSize(i: P.Instruction): (n: nat)
    ensures n == 1 || n == 3
    ensures n == 3 <==> i.kind != P.Memory && !HeaderOnly(i)
  {
    if i.kind == P.Memory || HeaderOnly(i) then 1 else 3
  }

  /** The byte at which the encoding of instruction i starts: the sum of
      the bytes emitted before it. Addresses counted this way are the
      corrected form of the resolver's `P.AddressAt`. */
  function EncodedAddressAt(instrs: seq<P.Instruction>, i: nat): nat
    requires i <= |instrs|
  {
    if i == 0 then 0 else EncodedAddressAt(instrs, i - 1) + EncodedSize(instrs[i - 1])
  }

  /** An instruction the resolver sizes as the encoder does: no `mem`
      datum, an argument exactly on the kinds given three bytes, and never
      the accumulator as argument. */
  predicate SizedAlike(i: P.Instruction)
  {
    i.kind != P.Memory &&
    (P.Size(i.kind) == 3 <==> i.argument.Some?) &&
    (i.argument.Some? ==> i.argument.value.mode != Some(P.Accumulator))
  }

  /** For programs of such instructions the resolver's addresses are the
      bytes the encoder emits before each instruction. */
  lemma {:induction false} AddressesAgree(instrs: seq<P.Instruction>, k: nat)
    requires k <= |instrs|
    requires forall j :: 0 <= j < |instrs| ==> SizedAlike(instrs[j])
    ensures P.AddressAt(instrs, k) == EncodedAddressAt(instrs, k)
  {
    if k > 0 {
      AddressesAgree(instrs, k - 1);
    }
  }

  /** A fitting instruction's digits fill the bytes the encoder counts for it. */
  lemma EncodedLength(i: P.Instruction)
    requires Encode(i).Ok? && Fits(i)
    requires i.kind != P.Memory && !HeaderOnly(i) ==> i.argument.value.mode.Some?
    ensures |Encode(i).value| == 8 * EncodedSize(i)
  {
    if i.kind == P.Memory {
      MemoryByte(i);
    } else if HeaderOnly(i) {
      BareInstruction(i);
    } else {
      OperandInstruction(i);
    }
  }

  predicate AllFit(instrs: seq<P.Instruction>)
  {
    forall k :: 0 <= k < |instrs| ==>
      Fits(instrs[k]) && (instrs[k].kind != P.Memory && !HeaderOnly(instrs[k]) ==> instrs[k].argument.value.mode.Some?)
  }

  /** The digits before instruction k fill as many bytes as its encoded address. */
  lemma {:induction false} PrefixBytes(instrs: seq<P.Instruction>, k: nat)
    requires k <= |instrs| && AllFit(instrs) && EncodeAll(instrs[..k]).Ok?
    ensures |EncodeAll(instrs[..k]).value| == 8 * EncodedAddressAt(instrs, k)
  {
    if k > 0 {
      var pre := instrs[..k];
      assert pre[..|pre| - 1] == instrs[..k - 1];
      PrefixBytes(instrs, k - 1);
      EncodedLength(instrs[k - 1]);
    }
  }

  /** Instruction k's encoding occupies the bytes from its encoded address
      up to that address plus its encoded size: counting emitted bytes
      locates every instruction. */
  lemma EncodedAddressLocates(instrs: seq<P.Instruction>, k: nat)
    requires k < |instrs| && AllFit(instrs) && EncodeAll(instrs).Ok?
    ensures Encode(instrs[k]).Ok?
    ensures var a, n := EncodedAddressAt(instrs, k), EncodedSize(instrs[k]);
      8 * (a + n) <= |EncodeAll(instrs).value| &&
      EncodeAll(instrs).value[8 * a .. 8 * (a + n)] == Encode(instrs[k]).value
  {
    Layout(instrs, k);
    PrefixBytes(instrs, k);
    EncodedLength(instrs[k]);
  }

  /** For a program the resolver sizes right (no `mem` datum, no
      accumulator argument, an argument on every kind sized three), the
      address the resolver gives instruction k, times 8, is the bit offset
      of its encoding in the assembled digits, so a label names the byte
      where its instruction lands. */
  lemma ResolvedAddressLocates(instrs: seq<P.Instruction>, k: nat)
    requires k < |instrs|
    requires forall j :: 0 <= j < |instrs| ==> SizedAlike(instrs[j])
    requires AllFit(P.Resolved(instrs)) && EncodeAll(P.Resolved(instrs)).Ok?
    ensures P.Resolved(instrs)[k].address.Some? && Encode(P.Resolved(instrs)[k]).Ok?
    ensures var r := P.Resolved(instrs);
      var a, e := r[k].address.value, Encode(r[k]).value;
      8 * a + |e| <= |EncodeAll(r).value| && EncodeAll(r).value[8 * a .. 8 * a + |e|] == e
  {
    var r := P.Resolved(instrs);
    forall j | 0 <= j < |r|
      ensures SizedAlike(r[j])
    {
      P.ResolvedShape(instrs, j);
    }
    P.ResolvedShape(instrs, k);
    P.ResolvedAddresses(instrs, k);
    AddressesAgree(r, k);
    EncodedAddressLocates(r, k);
  }

  /** The resolver of the source reserves three bytes for an instruction
      with the accumulator as argument, which is encoded in one: after
      `add r1, r0` it gives the next instruction address 3 although its
      encoding starts at byte 1. */
  lemma AccumulatorMisplaced()
    ensures var add := P.Bare(P.Add).(register := Some(P.R1), argument := Some(P.AccumulatorArgument()));
      var instrs := [add, P.Bare(P.NoOperation)];
      P.AddressAt(instrs, 1) == 3 && EncodedAddressAt(instrs, 1) == 1 &&
      EncodeAll(instrs) == Ok("0110010000000000")
  {
    var add := P.Bare(P.Add).(register := Some(P.R1), argument := Some(P.AccumulatorArgument()));
    var instrs := [add, P.Bare(P.NoOperation)];
    var nop := P.Bare(P.NoOperation);
    assert nop.argument == None && nop.register == None && nop.kind == P.NoOperation;
    assert Header(add) == "01100100";
    assert Encode(add) == Ok("01100100");
    assert Header(nop) == "00000000";
    assert Encode(nop) == Ok("00000000");
    var none: seq<P.Instruction> := [];
    assert [add][..0] == none;
    assert EncodeAll(none) == Ok("");
    assert EncodeAll([add]) == Ok("" + "01100100");
    assert "" + "01100100" == "01100100";
    assert instrs[..|instrs| - 1] == [add];
    assert instrs[|instrs| - 1] == nop;
    assert EncodeAll(instrs[..|instrs| - 1]) == Ok("01100100");
    assert Encode(instrs[|instrs| - 1]) == Ok("00000000");
    assert EncodeAll(instrs) == Ok("01100100" + "00000000");
    assert "01100100" + "00000000" == "0110010000000000";
  }

  /** The resolver of the source reserves two bytes for a `mem` datum,
      which is encoded in one: after `mem 72` it gives the next
      instruction address 2 although its encoding starts at byte 1. */
  lemma MemoryMisplaced()
    ensures var datum := P.Bare(P.Memory).(value := Some(72));
      var instrs := [datum, P.Bare(P.NoOperation)];
      P.AddressAt(instrs, 1) == 2 && EncodedAddressAt(instrs, 1) == 1 &&
      |Encode(datum).value| == 8
  {
    var datum := P.Bare(P.Memory).(value := Some(72));
    var instrs := [datum, P.Bare(P.NoOperation)];
    assert P.AddressAt(instrs, 1) == P.Size(P.Memory) == 2;
    assert EncodedAddressAt(instrs, 1) == EncodedSize(datum) == 1;
    MemoryByte(datum);
  }

  /** A label argument naming no label gets no value, so its program does
      not assemble. */
  lemma UndefinedLabel(instrs: seq<P.Instruction>, k: nat)
    requires k < |instrs| && instrs[k].kind != P.Memory
    requires instrs[k].argument.Some? && instrs[k].argument.value.name.Some?
    requires forall j :: 0 <= j < |instrs| ==> !P.HasLabel(instrs[j], instrs[k].argument.value.name.value)
    ensures EncodeAll(P.Resolved(instrs)) == Err(MissingValue)
  {
    P.ResolvedShape(instrs, k);
    var r := P.Resolved(instrs);
    EncodeAllOk(r);
    assert Encode(r[k]) == Err(MissingValue);
    EncodeAllError(r);
  }

  /** The only error encoding raises is a missing value. */
  lemma {:induction false} EncodeAllError(instrs: seq<P.Instruction>)
    ensures EncodeAll(instrs).Err? ==> EncodeAll(instrs) == Err(MissingValue)
  {
    if instrs != [] {
      EncodeAllError(instrs[..|instrs| - 1]);
    }
  }
}
