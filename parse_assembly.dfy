/**
 * The assembly language (parse-assembly.mjs): a grammar built from the
 * parser combinators that turns source text into instruction records, and
 * the passes that give every instruction its byte address, collect the
 * label table and turn label arguments into direct addresses.
 */
module ParseAssembly {
  import opened Results
  import opened Parse
  import ConvertBases

  /** `constants.instructions`. */
  datatype InstructionKind =
    | Memory | NoOperation | Halt | Jump | JumpIfZero | Load | Store | Add | Subtract
    | Multiply | Divide | And | Or | Not | EqualsZero | LessThanZero

  /** `constants.registers`. */
  datatype Register = R0 | R1 | R2

  /** `constants.addressingModes`. */
  datatype Mode = Accumulator | Immediate | Direct

  /** An argument object: `{mode, value}` or, for a label, `{label}`; the
      resolver later adds `mode` and `value` to a label argument. */
  datatype Argument = Argument(mode: Option<Mode>, value: Option<nat>, name: Option<string>)

  /** An instruction object with its optional properties. */
  datatype Instruction = Instruction(
    kind: InstructionKind,
    register: Option<Register>,
    argument: Option<Argument>,
    value: Option<nat>,
    labels: Option<seq<string>>,
    address: Option<nat>)

  /** The grammar-specific values a parser can produce. */
  datatype Syntax =
    | Reg(reg: Register)
    | Arg(arg: Argument)
    | Kind(kind: InstructionKind)
    | Comment(comment: string)
    | Instr(instr: Instruction)

  datatype AssemblyError = ParseFailure(unparsed: string)

  /** An instruction object as the grammar first builds it. */
  function Bare(kind: InstructionKind): Instruction
  {
    Instruction(kind, None, None, None, None, None)
  }

  /** `parseInt` on a run of decimal digits. */
  function Decimal(t: string): nat
  {
    match ConvertBases.StringToNumber(t, 10)
    case Some(n) => n
    case None => 0
  }

  // ---------------------------------------------------------------------
  // Tokens
  // ---------------------------------------------------------------------

  function U(): Value<Syntax>
  {
    Undefined
  }

  /** `[p] + ps`, carrying what is known of every parser of the list. */
  function Also(p: Parser<Syntax>, ps: seq<Parser<Syntax>>): (r: seq<Parser<Syntax>>)
    requires Sound(p) && AllSound(ps)
    ensures r == [p] + ps
    ensures AllSound(r)
    ensures Consuming(p) && AllConsuming(ps) ==> AllConsuming(r)
  {
    assert forall i :: 1 <= i < |[p] + ps| ==> ([p] + ps)[i] == ps[i - 1];
    [p] + ps
  }

  /** `whitespace`: /\s+/. */
  function Whitespace(): (p: Parser<Syntax>)
    ensures Sound(p) && Consuming(p)
  {
    Match(Space, U())
  }

  /** `{comment: parsed.slice(1)}`. */
  function CommentValue(v: Value<Syntax>): Value<Syntax>
  {
    match v
    case Text(t) => Atom(Comment(if t == [] then [] else t[1..]))
    case _ => Undefined
  }

  /** `comment`: /;.+$/m, keeping the text after the semicolon. */
  function CommentToken(): (p: Parser<Syntax>)
    ensures Sound(p) && Consuming(p)
  {
    Mapped(Match(LineComment, U()), CommentValue)
  }

  /** `ignored`: one or more runs of whitespace or comments; the parsed
      value is undefined. */
  function Ignored(): (p: Parser<Syntax>)
    ensures Sound(p) && Consuming(p)
  {
    Mapped(Many(Either(Also(Whitespace(), Also(CommentToken(), [])))), _ => U())
  }

  /** `([, label]) => ({label})`. */
  function LabelValue(v: Value<Syntax>): Value<Syntax>
  {
    if v.List? && |v.items| == 2 && v.items[1].Text? then
      Atom(Arg(Argument(None, None, Some(v.items[1].text))))
    else Undefined
  }

  /** `label`: `@` followed by a word. */
  function LabelToken(): (p: Parser<Syntax>)
    ensures Sound(p) && Consuming(p)
  {
    Mapped(All(Also(Match(Literal("@"), U()), Also(Match(Word, U()), []))), LabelValue)
  }

  /** `register`: R0, R1 or R2 in any case. */
  function RegisterToken(): (p: Parser<Syntax>)
    ensures Sound(p) && Consuming(p)
  {
    Either(Also(Match(Keyword(["r0"]), Atom(Reg(R0))),
           Also(Match(Keyword(["r1"]), Atom(Reg(R1))),
           Also(Match(Keyword(["r2"]), Atom(Reg(R2))), []))))
  }

  /** The argument of the accumulator: `{mode: accumulator}`. */
  function AccumulatorArgument(): Argument
  {
    Argument(Some(Accumulator), None, None)
  }

  /** `([, value]) => ({mode: immediate, value: parseInt(value)})`. */
  function ImmediateValue(v: Value<Syntax>): Value<Syntax>
  {
    if v.List? && |v.items| == 2 && v.items[1].Text? then
      Atom(Arg(Argument(Some(Immediate), Some(Decimal(v.items[1].text)), None)))
    else Undefined
  }

  /** `value => ({mode: direct, value: parseInt(value)})`. */
  function DirectValue(v: Value<Syntax>): Value<Syntax>
  {
    if v.Text? then Atom(Arg(Argument(Some(Direct), Some(Decimal(v.text)), None))) else Undefined
  }

  function AccumulatorForm(): (p: Parser<Syntax>)
    ensures Sound(p) && Consuming(p)
  {
    Match(Keyword(["r0"]), Atom(Arg(AccumulatorArgument())))
  }

  function ImmediateForm(): (p: Parser<Syntax>)
    ensures Sound(p) && Consuming(p)
  {
    Mapped(All(Also(Match(Literal("#"), U()), Also(Match(Digits, U()), []))), ImmediateValue)
  }

  function DirectForm(): (p: Parser<Syntax>)
    ensures Sound(p) && Consuming(p)
  {
    Mapped(Match(Digits, U()), DirectValue)
  }

  /** The four argument forms in the order they are tried: the
      accumulator, an immediate `#n`, a direct address `n`, a label. */
  function ArgumentForms(): (ps: seq<Parser<Syntax>>)
    ensures AllSound(ps) && AllConsuming(ps)
  {
    Also(AccumulatorForm(), Also(ImmediateForm(), Also(DirectForm(), Also(LabelToken(), []))))
  }

  /** `argument`. */
  function ArgumentToken(): (p: Parser<Syntax>)
    ensures Sound(p) && Consuming(p)
  {
    Either(ArgumentForms())
  }

  // ---------------------------------------------------------------------
  // Instructions
  // ---------------------------------------------------------------------

  /** `nullaryInstruction`: /no(-?o)?p/i or /ha?lt/i. */
  function Nullary(): (p: Parser<Syntax>)
    ensures Sound(p) && Consuming(p)
  {
    Either(Also(Match(Keyword(["no-op", "noop", "nop"]), Atom(Instr(Bare(NoOperation)))),
           Also(Match(Keyword(["halt", "hlt"]), Atom(Instr(Bare(Halt)))), [])))
  }

  /** `([,, value]) => ({instruction: memory, value: parseInt(value)})`. */
  function MemoryValue(v: Value<Syntax>): Value<Syntax>
  {
    if v.List? && |v.items| == 3 && v.items[2].Text? then
      Atom(Instr(Instruction(Memory, None, None, Some(Decimal(v.items[2].text)), None, None)))
    else Undefined
  }

  /** `([,, argument]) => ({instruction: jump, argument})`. */
  function JumpValue(v: Value<Syntax>): Value<Syntax>
  {
    if v.List? && |v.items| == 3 && v.items[2].Atom? && v.items[2].atom.Arg? then
      Atom(Instr(Instruction(Jump, None, Some(v.items[2].atom.arg), None, None, None)))
    else Undefined
  }

  /** `([,, register]) => ({instruction: not, register})`. */
  function NotValue(v: Value<Syntax>): Value<Syntax>
  {
    if v.List? && |v.items| == 3 && v.items[2].Atom? && v.items[2].atom.Reg? then
      Atom(Instr(Instruction(Not, Some(v.items[2].atom.reg), None, None, None, None)))
    else Undefined
  }

  /** A mnemonic, a separator and the operands:
      `all(code, ignored, ...operands)` with its value mapped by `f`. */
  function Mnemonic(code: Parser<Syntax>, operands: seq<Parser<Syntax>>, f: Value<Syntax> -> Value<Syntax>): (p: Parser<Syntax>)
    requires Sound(code) && Consuming(code) && AllSound(operands)
    ensures Sound(p) && Consuming(p)
  {
    Mapped(All(Also(code, Also(Ignored(), operands))), f)
  }

  /** A mnemonic, a separator and one operand. */
  function Operation(code: Parser<Syntax>, operand: Parser<Syntax>, f: Value<Syntax> -> Value<Syntax>): (p: Parser<Syntax>)
    requires Sound(code) && Consuming(code) && Sound(operand)
    ensures Sound(p) && Consuming(p)
  {
    Mnemonic(code, Also(operand, []), f)
  }

  /** `mem n`. */
  function MemoryOperation(): (p: Parser<Syntax>)
    ensures Sound(p) && Consuming(p)
  {
    Operation(Match(Keyword(["memory", "mem"]), U()), Match(Digits, U()), MemoryValue)
  }

  /** `jmp argument`. */
  function JumpOperation(): (p: Parser<Syntax>)
    ensures Sound(p) && Consuming(p)
  {
    Operation(Match(Keyword(["jump", "jmp"]), U()), ArgumentToken(), JumpValue)
  }

  /** `not register`. */
  function NotOperation(): (p: Parser<Syntax>)
    ensures Sound(p) && Consuming(p)
  {
    Operation(Match(Keyword(["not"]), U()), RegisterToken(), NotValue)
  }

  /** `unaryInstruction`: `mem n`, `jmp argument` or `not register`. */
  function Unary(): (p: Parser<Syntax>)
    ensures Sound(p) && Consuming(p)
  {
    Either(Also(MemoryOperation(), Also(JumpOperation(), Also(NotOperation(), []))))
  }

  /** A mnemonic with two spellings that stands for `kind`. */
  function Spelled(first: string, second: string, kind: InstructionKind): (p: Parser<Syntax>)
    requires first != [] && second != []
    ensures Sound(p) && Consuming(p)
  {
    Mapped(Either(Also(Match(Keyword([first]), U()), Also(Match(Keyword([second]), U()), []))), _ => Atom(Kind(kind)))
  }

  /** A mnemonic with its spellings, longest first. */
  function Code(spellings: seq<string>, kind: InstructionKind): (p: Parser<Syntax>)
    requires forall i :: 0 <= i < |spellings| ==> spellings[i] != []
    ensures Sound(p) && Consuming(p)
  {
    Match(Keyword(spellings), Atom(Kind(kind)))
  }

  /** `binaryInstructionCode`, the mnemonics in the order they are tried. */
  function BinaryCodes(): (ps: seq<Parser<Syntax>>)
    ensures AllSound(ps) && AllConsuming(ps)
  {
    Also(Spelled("jmz", "jumpifzero", JumpIfZero),
    Also(Code(["load", "lod"], Load),
    Also(Code(["store", "stor", "sto"], Store),
    Also(Code(["add"], Add),
    Also(Code(["subtract", "sub"], Subtract),
    Also(Code(["multiply", "mul"], Multiply),
    Also(Code(["divide", "div"], Divide),
    Also(Code(["and"], And),
    Also(Code(["or"], Or),
    Also(Spelled("cpz", "equalszero", EqualsZero),
    Also(Spelled("cpl", "lessthanzero", LessThanZero), [])))))))))))
  }

  function BinaryCode(): (p: Parser<Syntax>)
    ensures Sound(p) && Consuming(p)
  {
    Either(BinaryCodes())
  }

  /** Between register and argument: an optional separator, a comma and an
      optional separator, or else a separator alone. */
  function Comma(): (p: Parser<Syntax>)
    ensures Sound(p)
  {
    Separated(Ignored())
  }

  /** `either(all(optional(ig), ",", optional(ig)), ig)`. */
  function Separated(ig: Parser<Syntax>): (p: Parser<Syntax>)
    requires Sound(ig)
    ensures Sound(p)
  {
    var comma := All(Also(Optional(ig), Also(Match(Literal(","), U()), Also(Optional(ig), []))));
    Either(Also(comma, Also(ig, [])))
  }

  /** `([instruction,, register,, argument]) => ({instruction, register, argument})`. */
  function BinaryValue(v: Value<Syntax>): Value<Syntax>
  {
    if v.List? && |v.items| == 5 && v.items[0].Atom? && v.items[0].atom.Kind? &&
       v.items[2].Atom? && v.items[2].atom.Reg? && v.items[4].Atom? && v.items[4].atom.Arg? then
      Atom(Instr(Instruction(v.items[0].atom.kind, Some(v.items[2].atom.reg), Some(v.items[4].atom.arg), None, None, None)))
    else Undefined
  }

  /** Register, comma or separator, and argument. */
  function BinaryOperands(): (ps: seq<Parser<Syntax>>)
    ensures AllSound(ps)
  {
    Also(RegisterToken(), Also(Comma(), Also(ArgumentToken(), [])))
  }

  /** `binaryInstruction`: mnemonic, separator, register, comma or
      separator, argument. */
  function Binary(): (p: Parser<Syntax>)
    ensures Sound(p) && Consuming(p)
  {
    Mnemonic(BinaryCode(), BinaryOperands(), BinaryValue)
  }

  /** The name of each `[{label}, undefined]` pair of a label run. */
  function LabelNames(pairs: seq<Value<Syntax>>): seq<string>
  {
    if pairs == [] then []
    else
      var p := pairs[0];
      var name :=
        if p.List? && |p.items| >= 1 && p.items[0].Atom? && p.items[0].atom.Arg? && p.items[0].atom.arg.name.Some?
        then p.items[0].atom.arg.name.value else "";
      [name] + LabelNames(pairs[1..])
  }

  /** `([labels, instruction]) => …`: when labels were parsed, the
      instruction gets their names. Each instruction is its own record
      here; see `SharedRecords` for the objects the source shares. */
  function WithLabels(v: Value<Syntax>): Value<Syntax>
  {
    if v.List? && |v.items| == 2 && v.items[1].Atom? && v.items[1].atom.Instr? then
      var i := v.items[1].atom.instr;
      if v.items[0].List? then Atom(Instr(i.(labels := Some(LabelNames(v.items[0].items)))))
      else Atom(Instr(i))
    else Undefined
  }

  /** The labels before an instruction: one or more `@name` each followed
      by a separator. */
  function LabelRun(): (p: Parser<Syntax>)
    ensures Sound(p) && Consuming(p)
  {
    Many(All(Also(LabelToken(), Also(Ignored(), []))))
  }

  /** A nullary, unary or binary instruction. */
  function InstructionBody(): (p: Parser<Syntax>)
    ensures Sound(p) && Consuming(p)
  {
    Either(Also(Nullary(), Also(Unary(), Also(Binary(), []))))
  }

  /** `instruction`: optional labels, then a nullary, unary or binary instruction. */
  function InstructionToken(): (p: Parser<Syntax>)
    ensures Sound(p)
  {
    Mapped(All(Also(Optional(LabelRun()), Also(InstructionBody(), []))), WithLabels)
  }

  /** `flat(depth)`: arrays nested up to `depth` deep are spliced in. */
  function Flat(vs: seq<Value<Syntax>>, depth: nat): seq<Value<Syntax>>
    decreases depth, |vs|
  {
    if vs == [] then []
    else
      (if vs[0].List? && depth > 0 then Flat(vs[0].items, depth - 1) else [vs[0]])
      + Flat(vs[1..], depth)
  }

  /** `filter(value => value !== undefined)`. */
  function Defined(vs: seq<Value<Syntax>>): (r: seq<Value<Syntax>>)
    ensures forall k :: 0 <= k < |r| ==> !r[k].Undefined?
  {
    if vs == [] then []
    else (if vs[0].Undefined? then [] else [vs[0]]) + Defined(vs[1..])
  }

  /** `parsed => parsed.flat(2).filter(value => value !== undefined)`. */
  function Flattened(v: Value<Syntax>): Value<Syntax>
  {
    if v.List? then List(Defined(Flat(v.items, 2))) else Undefined
  }

  /** A separator followed by an instruction. */
  function Line(): (p: Parser<Syntax>)
    ensures Sound(p) && Consuming(p)
  {
    All(Also(Ignored(), Also(InstructionToken(), [])))
  }

  /** `program`: optional separator, optional first instruction, then any
      number of separator-instruction pairs, optional trailing separator. */
  function Program(): (p: Parser<Syntax>)
    ensures Sound(p)
  {
    Mapped(All(Also(Optional(Ignored()), Also(Optional(InstructionToken()), Also(Optional(Many(Line())), Also(Optional(Ignored()), []))))), Flattened)
  }

  /** The instruction records of a list of parsed values. */
  function Records(vs: seq<Value<Syntax>>): seq<Instruction>
  {
    if vs == [] then []
    else (if vs[0].Atom? && vs[0].atom.Instr? then [vs[0].atom.instr] else []) + Records(vs[1..])
  }

  // ---------------------------------------------------------------------
  // What the grammar accepts
  // ---------------------------------------------------------------------

  /** `s` starts with a separator: whitespace, or `;` and at least one
      more character on the line. */
  predicate SeparatorAt(s: string)
  {
    (s != [] && InClass(s[0], SpaceClass)) || (|s| >= 2 && s[0] == ';' && InClass(s[1], LineClass))
  }

  /** `ignored` succeeds exactly when a separator comes first. */
  lemma IgnoredCases(t: string)
    ensures Ignored()(t).failed <==> !SeparatorAt(t)
    ensures Ignored()(t).failed ==> Ignored()(t) == Failure(t)
  {
    var w, c := Whitespace(), CommentToken();
    var alternatives := Also(w, Also(c, []));
    var e := Either(alternatives);
    assert alternatives == [w, c];
    assert Ignored()(t) == ManyFrom(e, t, []).MapParsed(_ => U());
    ManyShape(e, t, []);
    assert e(t) == EitherAt(alternatives, t);
    EitherFirst(alternatives, t);
    assert e(t).failed <==> w(t).failed && c(t).failed;
    MatchLengthMeaning(Space, t);
    assert w(t).failed <==> !(t != [] && InClass(t[0], SpaceClass));
    MatchLengthMeaning(LineComment, t);
    assert c(t) == MatchAt(LineComment, U(), t).MapParsed(CommentValue);
    assert c(t).failed <==> !(|t| >= 2 && t[0] == ';' && InClass(t[1], LineClass));
  }

  /** When the first parser of an `all` succeeds and the second fails, the
      `all` fails with the second one's result. */
  lemma SecondFails(ps: seq<Parser<Syntax>>, s: string)
    requires |ps| >= 2 && !ps[0](s).failed && ps[1](ps[0](s).unparsed).failed
    ensures AllFrom(ps, s, []) == ps[1](ps[0](s).unparsed)
  {
    var r := ps[0](s);
    assert AllFrom(ps, s, []) == AllFrom(ps[1..], r.unparsed, [r.parsed]);
    assert ps[1..][0] == ps[1];
  }

  /** An instruction needs a separator between its mnemonic and its
      operands: `jmp5` is not a jump, nor `addr1, 5` an addition. */
  lemma SeparatorRequired(code: Parser<Syntax>, operands: seq<Parser<Syntax>>, f: Value<Syntax> -> Value<Syntax>, s: string)
    requires Sound(code) && Consuming(code) && AllSound(operands)
    requires !code(s).failed && !SeparatorAt(code(s).unparsed)
    ensures Mnemonic(code, operands, f)(s).failed
  {
    var parts := Also(code, Also(Ignored(), operands));
    assert parts[0] == code && parts[1] == Ignored();
    assert Mnemonic(code, operands, f)(s) == All(parts)(s).MapParsed(f);
    assert All(parts)(s) == AllFrom(parts, s, []);
    IgnoredCases(code(s).unparsed);
    SecondFails(parts, s);
  }

  /** `either(all(optional(ig), ",", optional(ig)), ig)` fails exactly
      when `ig` fails and no comma comes first; after a comma it goes on
      past an optional `ig`. */
  lemma SeparatedCases(ig: Parser<Syntax>, t: string)
    requires Sound(ig)
    ensures Separated(ig)(t).failed <==> ig(t).failed && !(t != [] && t[0] == ',')
    ensures ig(t).failed && t != [] && t[0] == ',' ==>
      !Separated(ig)(t).failed && Separated(ig)(t).unparsed == Optional(ig)(t[1..]).unparsed
  {
    var sep := Match(Literal(","), U());
    var parts := Also(Optional(ig), Also(sep, Also(Optional(ig), [])));
    var comma := All(parts);
    var alternatives := Also(comma, Also(ig, []));
    assert alternatives == [comma, ig];
    assert Separated(ig)(t) == EitherAt(alternatives, t);
    assert alternatives[1..] == [ig] && [ig][1..] == [];
    assert EitherAt([ig], t) == if !ig(t).failed then ig(t) else EitherAt([], t);
    assert EitherAt(alternatives, t) == if !comma(t).failed then comma(t) else EitherAt([ig], t);
    if ig(t).failed {
      assert Optional(ig)(t) == ParseResult(false, Undefined, t);
      assert comma(t) == AllFrom(parts, t, []);
      var none: seq<Value<Syntax>> := [];
      assert none + [Undefined] == [Undefined];
      assert parts[0] == Optional(ig);
      assert AllFrom(parts, t, []) == AllFrom(parts[1..], t, [Undefined]);
      assert parts[1..][0] == sep;
      if t != [] && t[0] == ',' {
        assert t[..1] == ",";
        var rest := sep(t).unparsed;
        assert rest == t[1..];
        assert sep(t).parsed == Text(",");
        var one: seq<Value<Syntax>> := [Undefined];
        assert one + [Text(",")] == [Undefined, Text(",")];
        assert AllFrom(parts[1..], t, [Undefined]) == AllFrom(parts[2..], rest, [Undefined, Text(",")]);
        assert parts[2..][0] == Optional(ig);
        assert parts[2..][1..] == [];
        var last := Optional(ig)(rest);
        assert [Undefined, Text(",")] + [last.parsed] == [Undefined, Text(","), last.parsed];
        assert AllFrom(parts[2..], rest, [Undefined, Text(",")]) == AllFrom([], last.unparsed, [Undefined, Text(","), last.parsed]);
        assert !comma(t).failed;
      } else {
        assert sep(t).failed;
        assert AllFrom(parts[1..], t, [Undefined]) == sep(t);
        assert comma(t).failed;
      }
    }
  }

  /** Register and argument are divided by a comma, with separators
      around it allowed, or by a separator alone. */
  lemma CommaCases(t: string)
    ensures Comma()(t).failed <==> !SeparatorAt(t) && !(t != [] && t[0] == ',')
    ensures !SeparatorAt(t) && t != [] && t[0] == ',' ==>
      !Comma()(t).failed && Comma()(t).unparsed == Optional(Ignored())(t[1..]).unparsed
  {
    IgnoredCases(t);
    SeparatedCases(Ignored(), t);
  }

  /** The value of the digit run at the start of `s`. */
  function LeadingNumber(s: string): nat
  {
    Decimal(s[..RunLength(s, DigitClass)])
  }

  /** The four forms of an argument, tried in order: `R0` is the
      accumulator, `#n` an immediate value, `n` a direct address and
      `@name` a label; anything else is not an argument. */
  lemma ArgumentCases(s: string)
    ensures StartsWithFolded(s, "r0") ==>
      ArgumentToken()(s) == ParseResult(false, Atom(Arg(AccumulatorArgument())), s[2..])
    ensures |s| >= 2 && s[0] == '#' && InClass(s[1], DigitClass) ==>
      ArgumentToken()(s) == ParseResult(false, Atom(Arg(Argument(Some(Immediate), Some(LeadingNumber(s[1..])), None))),
        s[1..][RunLength(s[1..], DigitClass)..])
    ensures s != [] && InClass(s[0], DigitClass) ==>
      ArgumentToken()(s) == ParseResult(false, Atom(Arg(Argument(Some(Direct), Some(LeadingNumber(s)), None))),
        s[RunLength(s, DigitClass)..])
    ensures |s| >= 2 && s[0] == '@' && InClass(s[1], WordClass) ==>
      ArgumentToken()(s) == ParseResult(false, Atom(Arg(Argument(None, None, Some(s[1..][..RunLength(s[1..], WordClass)])))),
        s[1..][RunLength(s[1..], WordClass)..])
    ensures ArgumentToken()(s).failed <==>
      !StartsWithFolded(s, "r0") && !(|s| >= 2 && s[0] == '#' && InClass(s[1], DigitClass)) &&
      !(s != [] && InClass(s[0], DigitClass)) && !(|s| >= 2 && s[0] == '@' && InClass(s[1], WordClass))
  {
    var forms := ArgumentForms();
    assert forms == [AccumulatorForm(), ImmediateForm(), DirectForm(), LabelToken()];
    assert ArgumentToken()(s) == EitherAt(forms, s);
    FirstOfFour(AccumulatorForm(), ImmediateForm(), DirectForm(), LabelToken(), s);
    AccumulatorCase(s);
    ImmediateCase(s);
    DirectCase(s);
    LabelCase(s);
    if s != [] && (s[0] == '#' || s[0] == '@' || InClass(s[0], DigitClass)) {
      NotAccumulator(s);
    }
  }

  /** A token that starts with `#`, `@` or a digit is not `r0`. */
  lemma NotAccumulator(s: string)
    requires s != [] && (s[0] == '#' || s[0] == '@' || InClass(s[0], DigitClass))
    ensures !StartsWithFolded(s, "r0")
  {
    assert Lower(s[0]) == s[0] && Lower("r0"[0]) == 'r';
  }

  /** `either` of four parsers, spelled out. */
  lemma FirstOfFour(a: Parser<Syntax>, b: Parser<Syntax>, c: Parser<Syntax>, d: Parser<Syntax>, s: string)
    ensures EitherAt([a, b, c, d], s) ==
      if !a(s).failed then a(s) else if !b(s).failed then b(s)
      else if !c(s).failed then c(s) else if !d(s).failed then d(s) else Failure(s)
  {
    var ps := [a, b, c, d];
    assert ps[1..] == [b, c, d] && [b, c, d][1..] == [c, d] && [c, d][1..] == [d] && [d][1..] == [];
    assert EitherAt(ps, s) == if !a(s).failed then a(s) else EitherAt([b, c, d], s);
    assert EitherAt([b, c, d], s) == if !b(s).failed then b(s) else EitherAt([c, d], s);
    assert EitherAt([c, d], s) == if !c(s).failed then c(s) else EitherAt([d], s);
    assert EitherAt([d], s) == if !d(s).failed then d(s) else EitherAt([], s);
  }

  lemma AccumulatorCase(s: string)
    ensures AccumulatorForm()(s).failed <==> !StartsWithFolded(s, "r0")
    ensures StartsWithFolded(s, "r0") ==> AccumulatorForm()(s) == ParseResult(false, Atom(Arg(AccumulatorArgument())), s[2..])
  {
    assert AccumulatorForm()(s) == MatchAt(Keyword(["r0"]), Atom(Arg(AccumulatorArgument())), s);
    if StartsWithFolded(s, "r0") {
      assert FirstSpelling(["r0"], s) == Some(0);
    } else {
      assert FirstSpelling(["r0"], s).None?;
    }
  }

  lemma ImmediateCase(s: string)
    ensures ImmediateForm()(s).failed <==> !(|s| >= 2 && s[0] == '#' && InClass(s[1], DigitClass))
    ensures |s| >= 2 && s[0] == '#' && InClass(s[1], DigitClass) ==>
      ImmediateForm()(s) == ParseResult(false, Atom(Arg(Argument(Some(Immediate), Some(LeadingNumber(s[1..])), None))),
        s[1..][RunLength(s[1..], DigitClass)..])
  {
    var first, second := Match(Literal("#"), U()), Match(Digits, U());
    var parts := Also(first, Also(second, []));
    assert parts == [first, second];
    assert ImmediateForm()(s) == All(parts)(s).MapParsed(ImmediateValue);
    assert All(parts)(s) == AllFrom([first, second], s, []);
    MarkedRun("#", Digits, DigitClass, s);
  }

  lemma DirectCase(s: string)
    ensures DirectForm()(s).failed <==> !(s != [] && InClass(s[0], DigitClass))
    ensures s != [] && InClass(s[0], DigitClass) ==>
      DirectForm()(s) == ParseResult(false, Atom(Arg(Argument(Some(Direct), Some(LeadingNumber(s)), None))),
        s[RunLength(s, DigitClass)..])
  {
    assert DirectForm()(s) == MatchAt(Digits, U(), s).MapParsed(DirectValue);
    MatchLengthMeaning(Digits, s);
  }

  lemma LabelCase(s: string)
    ensures LabelToken()(s).failed <==> !(|s| >= 2 && s[0] == '@' && InClass(s[1], WordClass))
    ensures |s| >= 2 && s[0] == '@' && InClass(s[1], WordClass) ==>
      LabelToken()(s) == ParseResult(false, Atom(Arg(Argument(None, None, Some(s[1..][..RunLength(s[1..], WordClass)])))),
        s[1..][RunLength(s[1..], WordClass)..])
  {
    var first, second := Match(Literal("@"), U()), Match(Word, U());
    var parts := Also(first, Also(second, []));
    assert parts == [first, second];
    assert LabelToken()(s) == All(parts)(s).MapParsed(LabelValue);
    assert All(parts)(s) == AllFrom([first, second], s, []);
    MarkedRun("@", Word, WordClass, s);
  }

  /** A one-character mark followed by a run of a character class, as
      the immediate and label forms spell their argument. */
  lemma MarkedRun(mark: string, pat: Pattern, cls: CharClass, s: string)
    requires |mark| == 1
    requires (pat == Digits && cls == DigitClass) || (pat == Word && cls == WordClass)
    ensures AllFrom([Match(Literal(mark), U()), Match(pat, U())], s, []).failed <==>
      !(|s| >= 2 && s[0] == mark[0] && InClass(s[1], cls))
    ensures |s| >= 2 && s[0] == mark[0] && InClass(s[1], cls) ==>
      AllFrom([Match(Literal(mark), U()), Match(pat, U())], s, []) ==
        ParseResult(false, List([Text(mark), Text(s[1..][..RunLength(s[1..], cls)])]), s[1..][RunLength(s[1..], cls)..])
  {
    var first, second := Match(Literal(mark), U()), Match(pat, U());
    AllOfTwo(first, second, s);
    if |s| >= 1 && s[0] == mark[0] {
      assert s[..1] == mark;
      assert first(s) == ParseResult(false, Text(mark), s[1..]);
      var n := RunLength(s[1..], cls);
      assert MatchLength(pat, s[1..]) == if n > 0 then Some(n) else None;
    } else if s != [] {
      assert s[..1][0] != mark[0];
    }
  }

  // ---------------------------------------------------------------------
  // Addresses and labels
  // ---------------------------------------------------------------------

  /** The bytes the resolver reserves for an instruction, by its kind
      alone: one for `nop`, `halt` and `not`, two for `mem`, and three for
      every other kind, whatever its argument's mode. The encoder emits
      one byte for `mem` and for an accumulator argument; that byte count
      is `Assembler.EncodedSize`. */
  function Size(kind: InstructionKind): (n: nat)
    ensures 1 <= n <= 3
  {
    if kind == NoOperation || kind == Halt || kind == Not then 1
    else if kind == Memory then 2
    else 3
  }

  /** The address the resolver gives instruction i: the sum of the sizes
      of the instructions before it. */
  function AddressAt(instrs: seq<Instruction>, i: nat): nat
    requires i <= |instrs|
  {
    if i == 0 then 0 else AddressAt(instrs, i - 1) + Size(instrs[i - 1].kind)
  }

  /** Instruction i with its address filled in. */
  function WithAddress(instrs: seq<Instruction>, i: nat): Instruction
    requires i < |instrs|
  {
    instrs[i].(address := Some(AddressAt(instrs, i)))
  }

  /** Every label of `labels` mapped to `address`. */
  function Assign(table: map<string, nat>, labels: seq<string>, address: nat): map<string, nat>
    decreases |labels|
  {
    if labels == [] then table else Assign(table[labels[0] := address], labels[1..], address)
  }

  /** Assigning adds exactly the given labels, all at the one address. */
  lemma {:induction false} AssignMeaning(table: map<string, nat>, labels: seq<string>, address: nat, l: string)
    ensures l in Assign(table, labels, address) <==> l in table || l in labels
    ensures l in Assign(table, labels, address) ==>
      Assign(table, labels, address)[l] == if l in labels then address else table[l]
    decreases |labels|
  {
    if labels != [] {
      AssignMeaning(table[labels[0] := address], labels[1..], address, l);
      assert l in labels <==> l == labels[0] || l in labels[1..];
    }
  }

  /** The label table after the first n instructions. */
  function TableUpTo(instrs: seq<Instruction>, n: nat): map<string, nat>
    requires n <= |instrs|
  {
    if n == 0 then map[]
    else
      var i := instrs[n - 1];
      Assign(TableUpTo(instrs, n - 1), if i.labels.Some? then i.labels.value else [], AddressAt(instrs, n - 1))
  }

  function LabelTable(instrs: seq<Instruction>): map<string, nat>
  {
    TableUpTo(instrs, |instrs|)
  }

  predicate HasLabel(i: Instruction, l: string)
  {
    i.labels.Some? && l in i.labels.value
  }

  /** A label names the address of the last instruction that carries it,
      and only labels some instruction carries are in the table. */
  lemma LabelTableLast(instrs: seq<Instruction>, n: nat, l: string)
    requires n <= |instrs|
    ensures l in TableUpTo(instrs, n) <==> exists j :: 0 <= j < n && HasLabel(instrs[j], l)
    ensures l in TableUpTo(instrs, n) ==>
      exists j :: 0 <= j < n && HasLabel(instrs[j], l) && TableUpTo(instrs, n)[l] == AddressAt(instrs, j) &&
        forall k :: j < k < n ==> !HasLabel(instrs[k], l)
  {
    LabelTableDomain(instrs, n, l);
    LabelTableAddress(instrs, n, l);
  }

  /** Only labels some instruction carries are in the table, and all of them are. */
  lemma {:induction false} LabelTableDomain(instrs: seq<Instruction>, n: nat, l: string)
    requires n <= |instrs|
    ensures l in TableUpTo(instrs, n) <==> exists j :: 0 <= j < n && HasLabel(instrs[j], l)
    decreases n
  {
    if n > 0 {
      LabelTableDomain(instrs, n - 1, l);
      var i := instrs[n - 1];
      AssignMeaning(TableUpTo(instrs, n - 1), if i.labels.Some? then i.labels.value else [], AddressAt(instrs, n - 1), l);
      if !HasLabel(i, l) && exists j :: 0 <= j < n && HasLabel(instrs[j], l) {
        var j :| 0 <= j < n && HasLabel(instrs[j], l);
        assert j < n - 1;
      }
    }
  }

  /** A label in the table names the address of the last instruction that carries it. */
  lemma {:induction false} LabelTableAddress(instrs: seq<Instruction>, n: nat, l: string)
    requires n <= |instrs|
    ensures l in TableUpTo(instrs, n) ==>
      exists j :: 0 <= j < n && HasLabel(instrs[j], l) && TableUpTo(instrs, n)[l] == AddressAt(instrs, j) &&
        forall k :: j < k < n ==> !HasLabel(instrs[k], l)
    decreases n
  {
    if n > 0 {
      LabelTableAddress(instrs, n - 1, l);
      var i := instrs[n - 1];
      AssignMeaning(TableUpTo(instrs, n - 1), if i.labels.Some? then i.labels.value else [], AddressAt(instrs, n - 1), l);
      if HasLabel(i, l) {
        assert TableUpTo(instrs, n)[l] == AddressAt(instrs, n - 1);
      } else if l in TableUpTo(instrs, n - 1) {
        var j :| 0 <= j < n - 1 && HasLabel(instrs[j], l) && TableUpTo(instrs, n - 1)[l] == AddressAt(instrs, j) &&
          forall k :: j < k < n - 1 ==> !HasLabel(instrs[k], l);
        assert TableUpTo(instrs, n)[l] == AddressAt(instrs, j);
      }
    }
  }


  /** Addresses start at 0, grow by the size of the instruction before,
      and so strictly increase. */
  lemma AddressesIncrease(instrs: seq<Instruction>, i: nat, j: nat)
    requires i < j < |instrs|
    ensures AddressAt(instrs, 0) == 0
    ensures AddressAt(instrs, i + 1) == AddressAt(instrs, i) + Size(instrs[i].kind)
    ensures AddressAt(instrs, i) < AddressAt(instrs, j)
    decreases j
  {
    if i + 1 < j {
      AddressesIncrease(instrs, i, j - 1);
    }
  }

  /** A label argument made direct with the label's address, which stays
      absent when no instruction defines the label. */
  function RewriteArgument(a: Argument, table: map<string, nat>): Argument
  {
    if a.name.Some? then
      a.(mode := Some(Direct), value := if a.name.value in table then Some(table[a.name.value]) else None)
    else a
  }

  function Rewrite(i: Instruction, table: map<string, nat>): Instruction
  {
    if i.argument.Some? then i.(argument := Some(RewriteArgument(i.argument.value, table))) else i
  }

  /** The instructions after both passes: addresses filled in and label
      arguments rewritten. */
  function Resolved(instrs: seq<Instruction>): (r: seq<Instruction>)
    ensures |r| == |instrs|
  {
    var table := LabelTable(instrs);
    seq(|instrs|, i requires 0 <= i < |instrs| => Rewrite(WithAddress(instrs, i), table))
  }

  /** Resolution keeps every instruction in place and changes only its
      address and a label argument's mode and value. */
  lemma ResolvedShape(instrs: seq<Instruction>, i: nat)
    requires i < |instrs|
    ensures Resolved(instrs)[i].kind == instrs[i].kind
    ensures Resolved(instrs)[i].register == instrs[i].register
    ensures Resolved(instrs)[i].value == instrs[i].value
    ensures Resolved(instrs)[i].labels == instrs[i].labels
    ensures Resolved(instrs)[i].address == Some(AddressAt(instrs, i))
    ensures Resolved(instrs)[i].argument.Some? <==> instrs[i].argument.Some?
    ensures instrs[i].argument.Some? && instrs[i].argument.value.name.None? ==>
      Resolved(instrs)[i].argument == instrs[i].argument
    ensures instrs[i].argument.Some? && instrs[i].argument.value.name.Some? ==>
      var l := instrs[i].argument.value.name.value;
      var a := Resolved(instrs)[i].argument.value;
      a.mode == Some(Direct) && a.name == Some(l) &&
      (a.value.Some? <==> exists j :: 0 <= j < |instrs| && HasLabel(instrs[j], l))
  {
    if instrs[i].argument.Some? && instrs[i].argument.value.name.Some? {
      LabelTableLast(instrs, |instrs|, instrs[i].argument.value.name.value);
    }
  }

  /** Resolution keeps every kind, so the resolved program carries the
      addresses its own sizes give: resolving it again moves nothing. */
  lemma {:induction false} ResolvedAddresses(instrs: seq<Instruction>, k: nat)
    requires k <= |instrs|
    ensures AddressAt(Resolved(instrs), k) == AddressAt(instrs, k)
    ensures k < |instrs| ==> Resolved(instrs)[k].address == Some(AddressAt(Resolved(instrs), k))
  {
    if k > 0 {
      ResolvedAddresses(instrs, k - 1);
      ResolvedShape(instrs, k - 1);
    }
    if k < |instrs| {
      ResolvedShape(instrs, k);
    }
  }

  /** The table after one more instruction: its labels, if it has any,
      recorded at its address. */
  lemma TableStep(instrs: seq<Instruction>, i: nat, table: map<string, nat>, address: nat)
    requires i < |instrs| && table == TableUpTo(instrs, i) && address == AddressAt(instrs, i)
    ensures instrs[i].labels.Some? ==> TableUpTo(instrs, i + 1) == Assign(table, instrs[i].labels.value, address)
    ensures instrs[i].labels.None? ==> TableUpTo(instrs, i + 1) == table
  {
  }

  /** `labels.forEach(label => labelToAddress[label] = address)`. */
  method Record(table: map<string, nat>, labels: seq<string>, address: nat) returns (t: map<string, nat>)
    ensures t == Assign(table, labels, address)
  {
    t := table;
    var j := 0;
    while j < |labels|
      invariant 0 <= j <= |labels|
      invariant Assign(t, labels[j..], address) == Assign(table, labels, address)
    {
      assert labels[j..][1..] == labels[j + 1..];
      t := t[labels[j] := address];
      j := j + 1;
    }
  }

  /** The first `forEach` pass: each instruction's address is the
      previous instruction's address plus the size of that instruction's
      kind, and every label is recorded at the address of the instruction
      it precedes. */
  method Locate(instrs: array<Instruction>) returns (table: map<string, nat>)
    modifies instrs
    ensures table == LabelTable(old(instrs[..]))
    ensures forall k :: 0 <= k < instrs.Length ==> instrs[k] == WithAddress(old(instrs[..]), k)
  {
    ghost var original := instrs[..];
    table := map[];
    var i := 0;
    while i < instrs.Length
      invariant 0 <= i <= instrs.Length
      invariant forall k :: 0 <= k < i ==> instrs[k] == WithAddress(original, k)
      invariant forall k :: i <= k < instrs.Length ==> instrs[k] == original[k]
      invariant table == TableUpTo(original, i)
    {
      var current := instrs[i];
      var address: nat;
      if i == 0 {
        address := 0;
      } else {
        var previous := instrs[i - 1];
        assert previous == WithAddress(original, i - 1);
        assert previous.kind == original[i - 1].kind && previous.address == Some(AddressAt(original, i - 1));
        address := previous.address.value + Size(previous.kind);
      }
      assert current == original[i] && address == AddressAt(original, i);
      instrs[i] := current.(address := Some(address));
      assert instrs[i] == WithAddress(original, i);
      TableStep(original, i, table, address);
      if current.labels.Some? {
        table := Record(table, current.labels.value, address);
      }
      i := i + 1;
    }
  }

  /** The second `forEach` pass: a label argument becomes a direct one
      holding the label's address. */
  method Relabel(instrs: array<Instruction>, table: map<string, nat>)
    modifies instrs
    ensures forall k :: 0 <= k < instrs.Length ==> instrs[k] == Rewrite(old(instrs[k]), table)
  {
    ghost var addressed := instrs[..];
    var i := 0;
    while i < instrs.Length
      invariant 0 <= i <= instrs.Length
      invariant forall k :: 0 <= k < i ==> instrs[k] == Rewrite(addressed[k], table)
      invariant forall k :: i <= k < instrs.Length ==> instrs[k] == addressed[k]
    {
      var current := instrs[i];
      if current.argument.Some? && current.argument.value.name.Some? {
        var argument := current.argument.value;
        var value := if argument.name.value in table then Some(table[argument.name.value]) else None;
        instrs[i] := current.(argument := Some(argument.(mode := Some(Direct), value := value)));
      }
      i := i + 1;
    }
  }

  /** The two `forEach` passes over the instruction array. */
  method Resolve(instrs: array<Instruction>) returns (table: map<string, nat>)
    modifies instrs
    ensures table == LabelTable(old(instrs[..]))
    ensures instrs[..] == Resolved(old(instrs[..]))
  {
    ghost var original := instrs[..];
    table := Locate(instrs);
    Relabel(instrs, table);
    assert forall k :: 0 <= k < instrs.Length ==> instrs[k] == Resolved(original)[k];
  }

  /** The instruction records put in an array and resolved in place. */
  method ResolveAll(records: seq<Instruction>) returns (r: seq<Instruction>)
    ensures r == Resolved(records)
  {
    var instrs := new Instruction[|records|](k requires 0 <= k < |records| => records[k]);
    assert instrs[..] == records;
    var _ := Resolve(instrs);
    r := instrs[..];
  }

  /** The result of running the program grammar over the whole text. */
  function ParseProgram(input: string): ParseResult<Syntax>
  {
    Program()(input)
  }

  /** The instruction records of a successful parse. */
  function ProgramRecords(result: ParseResult<Syntax>): seq<Instruction>
  {
    if result.parsed.List? then Records(result.parsed.items) else []
  }

  /** The default export: parse the whole text, then resolve. Text the
      grammar does not accept, or leaves over, is an error. */
  method ParseAndResolve(input: string) returns (r: Result<seq<Instruction>, AssemblyError>)
    ensures var p := ParseProgram(input);
      p.failed || p.unparsed != [] ==> r == Err(ParseFailure(p.unparsed))
    ensures var p := ParseProgram(input);
      !p.failed && p.unparsed == [] ==> r == Ok(Resolved(ProgramRecords(p)))
  {
    var result := ParseProgram(input);
    if result.failed || |result.unparsed| > 0 {
      return Err(ParseFailure(result.unparsed));
    }
    var resolved := ResolveAll(ProgramRecords(result));
    r := Ok(resolved);
  }

  // ---------------------------------------------------------------------
  // The objects the source shares between instructions
  // ---------------------------------------------------------------------

  /** The source builds the value object of `nop` and of `halt` once, so
      every `nop` of a program is one object, and likewise every `halt`.
      Setting `labels` on one sets it on all of them: after parsing, each
      carries the labels of the last labelled occurrence. */
  function SharedLabels(instrs: seq<Instruction>, kind: InstructionKind): Option<seq<string>>
  {
    if instrs == [] then None
    else
      var last := instrs[|instrs| - 1];
      if last.kind == kind && last.labels.Some? then last.labels
      else SharedLabels(instrs[..|instrs| - 1], kind)
  }

  /** The records as the resolver sees them in the source. */
  function SharedRecords(instrs: seq<Instruction>): (r: seq<Instruction>)
    ensures |r| == |instrs|
  {
    seq(|instrs|, k requires 0 <= k < |instrs| =>
      var i := instrs[k];
      if i.kind == NoOperation || i.kind == Halt then i.(labels := SharedLabels(instrs, i.kind)) else i)
  }

  /** The label table the source computes. */
  function SharedLabelTable(instrs: seq<Instruction>): map<string, nat>
  {
    LabelTable(SharedRecords(instrs))
  }

  /** `@start nop`, `jmp @start`, `nop`: the source sends `start` to the
      second `nop` at address 4 instead of the first at address 0. */
  lemma SharedLabelMisplaced()
    ensures var instrs := [
      Bare(NoOperation).(labels := Some(["start"])),
      Bare(Jump).(argument := Some(Argument(None, None, Some("start")))),
      Bare(NoOperation)];
      "start" in LabelTable(instrs) && LabelTable(instrs)["start"] == 0 &&
      "start" in SharedLabelTable(instrs) && SharedLabelTable(instrs)["start"] == 4
  {
    var instrs := [
      Bare(NoOperation).(labels := Some(["start"])),
      Bare(Jump).(argument := Some(Argument(None, None, Some("start")))),
      Bare(NoOperation)];
    var first := Assign(map[], ["start"], 0);
    AssignMeaning(map[], ["start"], 0, "start");
    assert TableUpTo(instrs, 1) == first;
    assert TableUpTo(instrs, 3) == first;

    assert instrs[..2][..1] == [instrs[0]];
    assert SharedLabels([instrs[0]], NoOperation) == Some(["start"]);
    assert SharedLabels(instrs[..2], NoOperation) == Some(["start"]);
    assert SharedLabels(instrs, NoOperation) == Some(["start"]);
    var shared := SharedRecords(instrs);
    assert shared[0].labels == Some(["start"]) && shared[2].labels == Some(["start"]);
    assert shared[1] == instrs[1];
    assert TableUpTo(shared, 1) == first;
    assert TableUpTo(shared, 2) == first;
    assert AddressAt(shared, 2) == 4;
    AssignMeaning(first, ["start"], 4, "start");
    assert TableUpTo(shared, 3) == Assign(first, ["start"], 4);
  }

  /** Without labels on `nop` or `halt`, sharing changes nothing. */
  lemma SharedHarmless(instrs: seq<Instruction>)
    requires forall k :: 0 <= k < |instrs| ==> (instrs[k].kind == NoOperation || instrs[k].kind == Halt) ==> instrs[k].labels.None?
    ensures SharedRecords(instrs) == instrs
  {
    forall kind | kind == NoOperation || kind == Halt
      ensures SharedLabels(instrs, kind).None?
    {
      SharedLabelsNone(instrs, kind);
    }
  }

  lemma {:induction false} SharedLabelsNone(instrs: seq<Instruction>, kind: InstructionKind)
    requires forall k :: 0 <= k < |instrs| ==> instrs[k].kind == kind ==> instrs[k].labels.None?
    ensures SharedLabels(instrs, kind).None?
    decreases |instrs|
  {
    if instrs != [] {
      SharedLabelsNone(instrs[..|instrs| - 1], kind);
    }
  }
}
