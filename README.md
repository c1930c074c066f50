# A verified model of a small assembler and virtual machine

This project models, in Dafny, the toolchain of a small teaching computer
written in JavaScript. The pieces, leaf first:

- **Radix conversion** (`convert_bases.dfy`, module `ConvertBases`): digit
  strings in bases 2, 10 and 16 to numbers and back, and byte lists to numbers.
- **Bit memory** (`memory.dfy`, module `BitMemory`):
  - `bytesToBits` and `bitsToBytes`;
  - the class `Memory`, whose bit array `cells` is read and written with
    range checks, and which serialises to and from byte-per-line dumps.
- **Parser combinators** (`parse.dfy`, module `Parse`): `ParseResult` with
  `map`, `mapParsed` and `mapUnparsed`, and the combinators `match`,
  `optional`, `either`, `all` and `many`. `either`, `all` and `many` are
  loops in the source, and are written here as methods proved equal to
  recursive specifications.
- **Assembly grammar and resolution** (`parse_assembly.dfy`, module
  `ParseAssembly`): the grammar from whitespace and comments up to whole
  programs, and the two passes over the instruction array. The first gives
  every instruction its byte address and fills the label table. The second
  turns label arguments into direct ones.
- **Encoder** (`assemble.dfy`, module `Assembler`): a 4-bit code, a 2-bit
  register and a 2-bit mode per instruction, with a 16-bit operand for
  immediate and direct arguments and one raw byte for `mem`. The digits are
  loaded into a memory as a base-2 dump.
- **Interpreter** (`interpret_microcode.dfy`, module `InterpretMicrocode`):
  the class `Machine`, with the program counter, the registers "00", "01"
  and "10" held as 16-digit binary strings, the decoded fields `instr`, `reg`
  and `addr`, and a memory. `fetch` and `step` are methods proved equal to
  functions of the state, and the properties of each opcode are lemmas about
  those functions.
- **Gates and adders** (`logic_gates.dfy`, module `LogicGates`): truth-table
  gates, half and full adders, the ripple-carry adder (a loop) and the one's
  and two's complements.

`results.dfy` holds the `Option` and `Result` types. Every `throw` of the
source is an error value here. `numberToString` throws for numbers below -1
and for the non-finite quotient of a division by zero. The machine reports
both as `InvalidNumber`. For -1, `numberToString` returns the empty string,
so SUB giving -1 leaves the register zero.

The model keeps the source's behaviour in these places:

- a `step` acts on the fields cached by the previous `fetch`;
- the resolver sizes instructions by kind alone: two bytes for `mem` and three for an instruction with the accumulator as argument, though the encoder emits one byte for each;
- a direct STO reads its address word at `programCounter*8 + 8` after the operand fetch has moved the counter;
- `getBits` and `setBits` take the absolute value of their indices;
- `bitsToBytes([])` is `[0]`;
- `setBitsFromNumber` with a length shorter than the number's binary digits writes all the digits;
- a label defined twice names its last definition, not its first.

Four places where the source is evidently wrong are listed under
"## Findings". For each of them the model has:

- a member that reproduces the source as written, with a lemma showing the
  failure on a concrete input;
- a corrected definition with the intended property proved, kept beside
  the as-written one.

The resolver, the encoder's input and the machine follow the source as
written in the first three. For the fourth, the shared `nop` and `halt`
records, the resolver gives every instruction its own record (see
"## Left out").

## Model

| member | source | states |
|---|---|---|
| ConvertBases.Alphabet | convert-bases.mjs:4-12 | the alphabet of base b has b digits, and digit d is the d-th of 0-9A-F |
| ConvertBases.Upper | convert-bases.mjs:29 | an ASCII lower-case letter becomes its upper-case letter and every other character is kept; `toUpperCase` on other characters is left out |
| ConvertBases.DigitValue | convert-bases.mjs:15-24 | an upper-cased character has a value exactly when it is a digit of the base, and the value is that digit's index in the alphabet |
| ConvertBases.DigitValues | convert-bases.mjs:29-31 | a string maps to values exactly when every character is a digit, one value per character in order |
| ConvertBases.StringToNumber | convert-bases.mjs:27-35 | a number results exactly when every character, lower-case hex included, is a digit of the base, and the empty string is 0 |
| ConvertBases.PositionalIsPlaceSum | convert-bases.mjs:27-35 | the reversed reduce equals the sum of digit times base to the power of its place from the right |
| ConvertBases.DigitsOfMeaning | convert-bases.mjs:50-57 | the count-down loop yields the digit count's worth of digits, each below the base, together worth n |
| ConvertBases.NumberToString | convert-bases.mjs:38-65 | for n >= 0, the digits of n; the empty string for -1; an invalid-array-length error below -1 |
| ConvertBases.ToDigits | convert-bases.mjs:38-65 | at least one digit, every one from the base's alphabet, and "0" for 0 |
| ConvertBases.NoGlyph | convert-bases.mjs:58-64 | the digit -1 that `numberToString(-1)` computes has no glyph and renders as nothing |
| ConvertBases.ToDigitsRoundTrip | convert-bases.mjs:27-65 | reading the digits of n back in the same base gives n |
| ConvertBases.PlacesMinimal | convert-bases.mjs:42-48 | the digit count p is the least p >= 1 with n < base^p |
| ConvertBases.LeadingDigitNonZero | convert-bases.mjs:42-64 | the digits of a positive number have no leading zero |
| ConvertBases.DigitsOfUnique | convert-bases.mjs:50-57 | any digit sequence of that length, digits below the base and worth n, is the one the loop computes |
| ConvertBases.ConvertBases | convert-bases.mjs:67-74 | succeeds exactly when the input is a numeral of the input base, and its output read in the output base has the input's value |
| ConvertBases.PadStartValue | convert-bases.mjs:80-83 | padding a numeral on the left with zeros keeps its value |
| ConvertBases.PadStart | memory.mjs:8-9 | `padStart`: the string is kept at the end and only the fill character is added before it, up to the length |
| ConvertBases.ByteBits | convert-bases.mjs:79-84 | the bytes as padded binary digits, joined; the value and length are stated by `ByteBitsValue` |
| ConvertBases.ByteDigits | convert-bases.mjs:80-83 | a byte below 256 pads to exactly eight binary digits worth the byte |
| ConvertBases.ByteBitsValue | convert-bases.mjs:77-86 | the joined bytes are 8 digits per byte, worth the bytes read in base 256, big-endian |
| ConvertBases.BytesToNumber | convert-bases.mjs:77-86 | for bytes below 256, the bytes' big-endian base-256 value |
| BitMemory.BitsTextRoundTrip | memory.mjs:94-96 | splitting joined bits gives the bits back, and joining a split binary string gives the string back |
| BitMemory.BytesToBitsShape | memory.mjs:6-12 | k bytes give exactly 8k bits, and bits 8j to 8j+8 are worth byte j, most significant first |
| BitMemory.BytesToBits | memory.mjs:6-12 | the bits of every byte, flattened; shape and value are stated by `BytesToBitsShape` and `BytesRoundTrip` |
| BitMemory.BitsToBytes | memory.mjs:15-23 | bits grouped by eight and each group read as a binary number; stated by `NoBitsOneByte`, `BytesBelow256` and `BitsRoundTrip` |
| BitMemory.ByteAt | memory.mjs:6-12 | bits 8k to 8k+8 are the eight-digit binary form of byte k |
| BitMemory.GroupIsChunks | memory.mjs:15-23 | the reduce from `[[]]` that opens a group when the last one is full cuts the input into consecutive groups of the given size, the last possibly shorter |
| BitMemory.ChunksShape | memory.mjs:16-22 | the groups concatenate back to the input and none is longer than the size |
| BitMemory.ChunksExact | memory.mjs:16-22 | when the length is a positive multiple of the size, every group is full |
| BitMemory.ChunksOfFlatten | memory.mjs:16-22 | grouping a concatenation of full groups gives those groups back |
| BitMemory.BytesRoundTrip | memory.mjs:6-23 | `bitsToBytes(bytesToBits(bs))` is bs for every non-empty list of bytes |
| BitMemory.NoBitsOneByte | memory.mjs:15-23 | `bitsToBytes([])` is `[0]` |
| BitMemory.BytesBelow256 | memory.mjs:15-23 | every byte `bitsToBytes` produces is below 256 |
| BitMemory.BitsRoundTrip | memory.mjs:6-23 | `bytesToBits(bitsToBytes(bits))` is bits when bits is non-empty and a multiple of 8 long |
| BitMemory.DigitsPerByte | utils.mjs:20-21 | digits per byte is positive |
| BitMemory.DigitsPerByteMinimal | utils.mjs:20-21 | the fixed table gives the least d with 256 <= base^d |
| BitMemory.ByteLineExact | memory.mjs:60-63 | a byte's line has exactly digits-per-byte digits and reads back as the byte |
| BitMemory.DigitsIn | memory.mjs:34-37 | the lenient scan yields at most one value per character, each below the base |
| BitMemory.DigitsInAll | memory.mjs:34-37 | on a string whose every character is a digit of the base, the scan keeps every digit value in order |
| BitMemory.DigitsInConcat | memory.mjs:34-37 | the scan of a concatenation is the concatenation of the scans |
| BitMemory.DigitsInJoin | memory.mjs:34-37 | scanning newline-joined lines gives the lines' digit values in order |
| BitMemory.DumpRoundTrip | memory.mjs:28-65 | reading back the dump of a non-empty list of bytes, in any base, gives the bytes |
| BitMemory.Read | memory.mjs:67-75 | fails exactly when abs(start) + abs(length) passes the end, else gives the abs(length) bits from abs(start) |
| BitMemory.Write | memory.mjs:85-92 | fails exactly when the bits do not fit from abs(start), else keeps the length and replaces exactly the bits from abs(start) |
| BitMemory.ReadAfterWrite | memory.mjs:67-92 | reading the range just written gives the written bits |
| BitMemory.ReadDisjointWrite | memory.mjs:67-92 | a write leaves every read of a disjoint range unchanged |
| BitMemory.NumberBits | memory.mjs:98-104 | converting a number to padded bits fails exactly below -1 |
| BitMemory.NumberBitsExact | memory.mjs:98-104 | for 0 <= n < 2^len and len > 0, exactly len bits worth n |
| BitMemory.NumberRoundTrip | memory.mjs:81-104 | after writing n into len bits at start, reading len bits at start as a number gives n |
| BitMemory.ReadNumber | memory.mjs:81-83 | fails as `getBits` does, else is below 2^abs(length) and is `stringToNumber` of the joined bits |
| BitMemory.PaddedBinary | memory.mjs:98-104 | the padded conversion of n >= -1 is a binary string whose bits are n's padded bits |
| BitMemory.DumpReload | memory.mjs:28-65 | `fromString(m.toString(base), base)` holds m's bits when m is non-empty and a multiple of 8 bits long |
| BitMemory.Memory.constructor | memory.mjs:25-26 | a new memory holds no bits |
| BitMemory.Memory.FromString | memory.mjs:28-51 | a fresh memory holding the bits of the bytes read leniently from the dump |
| BitMemory.Memory.Lines | memory.mjs:53-65 | one line per byte of `bitsToBytes`, each digits-per-byte digits long and reading back as its byte |
| BitMemory.Memory.ToString | memory.mjs:53-65 | the lines of `Lines` joined by newlines; read back by `DumpReload` |
| BitMemory.Memory.GetBits | memory.mjs:67-75 | an out-of-bounds error exactly when abs(start) + abs(length) passes the end, else the slice at abs(start) |
| BitMemory.Memory.GetBitsAsString | memory.mjs:77-79 | fails as `getBits`, else a binary string of abs(length) digits whose bits are that slice |
| BitMemory.Memory.GetBitsAsNumber | memory.mjs:81-83 | fails as `getBits`, else the slice's base-2 value, below 2^abs(length) |
| BitMemory.Memory.SetBits | memory.mjs:85-92 | an error and no change exactly when the bits do not fit, else the cells after the splice |
| BitMemory.Memory.SetBitsFromString | memory.mjs:94-96 | as `setBits` with the string's digits |
| BitMemory.Memory.SetBitsFromNumber | memory.mjs:98-104 | an error and no change below -1 or out of bounds, else the cells with the padded bits of n spliced in |
| Parse.ParseResult.Map | parse.mjs:13-23 | a failed result is returned unchanged, and a successful one is what f builds from its parsed value and rest |
| Parse.ParseResult.MapParsed | parse.mjs:26-34 | a failed result is returned unchanged, and a successful one keeps its rest and gets f of its parsed value |
| Parse.ParseResult.MapUnparsed | parse.mjs:37-45 | a failed result is returned unchanged, and a successful one keeps its parsed value and gets f of its rest |
| Parse.FirstSpelling | parse.mjs:50-52 | the first spelling, in the order tried, that begins the input case-insensitively, and none when none does |
| Parse.MatchLengthMeaning | parse.mjs:50-52 | each recogniser matches at index 0 exactly when the input starts as its pattern requires, and then takes the longest run |
| Parse.MatchAt | parse.mjs:50-63 | fails with the input unparsed exactly when nothing matches at index 0, else leaves the input minus the match and gives the value or the matched text |
| Parse.Match | parse.mjs:50-63 | the rest is always a suffix of the input, and shorter on success for a pattern that cannot match empty |
| Parse.MatchSound | parse.mjs:59-62 | the rest of a match is a suffix of the input, and strictly shorter for a non-empty pattern |
| Parse.OptionalAt | parse.mjs:66-73 | never fails; the parser's result when it succeeds, else nothing parsed and the input left |
| Parse.Optional | parse.mjs:66-73 | the optional parser leaves a suffix of the input when its parser does |
| Parse.OptionalKeeps | parse.mjs:66-73 | the rest of an optional parse is a suffix of the input |
| Parse.Either | parse.mjs:76-87 | leaving a suffix, and consuming on success, carry over from the alternatives |
| Parse.EitherFirst | parse.mjs:76-87 | fails with the input exactly when every alternative fails, else is the result of the first alternative that succeeds |
| Parse.EitherKeeps | parse.mjs:76-87 | the rest is a suffix of the input, and shorter on success when every alternative consumes |
| Parse.RunEither | parse.mjs:76-87 | the loop over the alternatives returns the first success or the failure with the input |
| Parse.All | parse.mjs:90-107 | the sequence leaves a suffix of the input, and consumes when its first parser does |
| Parse.AllShape | parse.mjs:90-107 | on success one parsed value per parser, in order, after those already collected; on failure the failed result of one of the parsers, the first one's when it fails |
| Parse.AllOfTwo | parse.mjs:90-107 | two parsers in sequence: the first one's failure, else the second one's failure on the rest, else both values and the second one's rest |
| Parse.AllFromKeeps | parse.mjs:94-101 | threading the rest through sound parsers leaves a suffix of the input |
| Parse.AllKeeps | parse.mjs:90-107 | the rest of a sequence is a suffix of the input, and shorter when the first parser consumes |
| Parse.RunAll | parse.mjs:90-107 | the loop pushing each value and threading the rest returns the specified sequence result |
| Parse.Many | parse.mjs:110-135 | repetition of a consuming parser consumes on success and leaves a suffix of the input |
| Parse.ManyShape | parse.mjs:110-135 | fails with the input exactly when the first attempt fails; else a list starting with the first value, ending where the parser fails |
| Parse.ManyFromKeeps | parse.mjs:114-129 | the rest after repetition is a suffix of the input, and shorter on success |
| Parse.ManyUnparsedShorter | parse.mjs:114-129 | repetition never lengthens the rest |
| Parse.ManyKeeps | parse.mjs:110-135 | a successful repetition consumes input and leaves a suffix of it |
| Parse.RunMany | parse.mjs:110-135 | the loop that pushes until the first failure returns the specified repetition result |
| Parse.Mapped | parse.mjs:26-34 | mapping the parsed value keeps a parser's suffix and progress properties |
| Parse.MappedKeeps | parse.mjs:30-33 | mapping the parsed value keeps the rest of the input |
| ParseAssembly.Whitespace | parse-assembly.mjs:37-38 | the rest is a suffix of the input, shorter on success |
| ParseAssembly.CommentToken | parse-assembly.mjs:40-42 | the rest is a suffix of the input, shorter on success |
| ParseAssembly.Ignored | parse-assembly.mjs:44-51 | the rest is a suffix of the input, shorter on success |
| ParseAssembly.IgnoredCases | parse-assembly.mjs:44-51 | `ignored` fails, leaving the input, exactly when the input starts with neither whitespace nor a comment |
| ParseAssembly.LabelToken | parse-assembly.mjs:53-60 | the rest is a suffix of the input, shorter on success |
| ParseAssembly.LabelCase | parse-assembly.mjs:53-60 | a label parses exactly when "@" is followed by a word character, giving the longest word and the rest after it |
| ParseAssembly.RegisterToken | parse-assembly.mjs:62-67 | the rest is a suffix of the input, shorter on success |
| ParseAssembly.AccumulatorForm | parse-assembly.mjs:71-73 | the rest is a suffix of the input, shorter on success |
| ParseAssembly.AccumulatorCase | parse-assembly.mjs:71-73 | parses exactly when the input starts with r0 in either case, giving the accumulator argument |
| ParseAssembly.ImmediateForm | parse-assembly.mjs:75-82 | the rest is a suffix of the input, shorter on success |
| ParseAssembly.ImmediateCase | parse-assembly.mjs:75-82 | parses exactly when "#" is followed by a digit, giving an immediate argument worth the digit run |
| ParseAssembly.DirectForm | parse-assembly.mjs:84-88 | the rest is a suffix of the input, shorter on success |
| ParseAssembly.DirectCase | parse-assembly.mjs:84-88 | parses exactly when the input starts with a digit, giving a direct argument worth the digit run |
| ParseAssembly.ArgumentToken | parse-assembly.mjs:69-91 | the rest is a suffix of the input, shorter on success |
| ParseAssembly.ArgumentCases | parse-assembly.mjs:69-91 | an argument is tried as r0, then #digits, then digits, then @word, with the result of the first form that applies, and fails only when none applies |
| ParseAssembly.Nullary | parse-assembly.mjs:93-97 | the rest is a suffix of the input, shorter on success |
| ParseAssembly.MemoryOperation | parse-assembly.mjs:101-109 | the rest is a suffix of the input, shorter on success |
| ParseAssembly.JumpOperation | parse-assembly.mjs:111-119 | the rest is a suffix of the input, shorter on success |
| ParseAssembly.NotOperation | parse-assembly.mjs:121-129 | the rest is a suffix of the input, shorter on success |
| ParseAssembly.Unary | parse-assembly.mjs:99-130 | the rest is a suffix of the input, shorter on success |
| ParseAssembly.SeparatorRequired | parse-assembly.mjs:99-130 | a mnemonic not followed by whitespace or a comment fails, whatever follows |
| ParseAssembly.BinaryCodes | parse-assembly.mjs:132-160 | every code alternative leaves a suffix and consumes on success |
| ParseAssembly.BinaryCode | parse-assembly.mjs:132-160 | the rest is a suffix of the input, shorter on success |
| ParseAssembly.Comma | parse-assembly.mjs:168-175 | the rest of the separator is a suffix of the input |
| ParseAssembly.CommaCases | parse-assembly.mjs:168-175 | the separator fails exactly when the input starts with neither whitespace, a comment nor a comma; a bare comma is taken with the ignorable text after it |
| ParseAssembly.Separated | parse-assembly.mjs:168-175 | the optional-comma separator over any sound `ignored` leaves a suffix |
| ParseAssembly.SeparatedCases | parse-assembly.mjs:168-175 | the separator fails exactly when `ignored` fails and no comma follows; with a leading comma it takes the comma and optional ignorable text |
| ParseAssembly.Binary | parse-assembly.mjs:162-183 | the rest is a suffix of the input, shorter on success |
| ParseAssembly.LabelRun | parse-assembly.mjs:187-194 | the rest is a suffix of the input, shorter on success |
| ParseAssembly.InstructionBody | parse-assembly.mjs:195-199 | the rest is a suffix of the input, shorter on success |
| ParseAssembly.InstructionToken | parse-assembly.mjs:185-206 | the rest is a suffix of the input |
| ParseAssembly.Line | parse-assembly.mjs:215-218 | the rest is a suffix of the input, shorter on success |
| ParseAssembly.Defined | parse-assembly.mjs:224 | no undefined value survives the filter |
| ParseAssembly.Program | parse-assembly.mjs:209-225 | the rest is a suffix of the input |
| ParseAssembly.Size | parse-assembly.mjs:243-257 | the resolver sizes by kind alone, between one and three bytes: one for `nop`, `halt` and `not`, two for `mem`, three for every other kind whatever its argument's mode |
| ParseAssembly.AddressAt | parse-assembly.mjs:236-258 | 0 for the first instruction, then the previous address plus the size of the previous kind; stated by `AddressesIncrease` |
| ParseAssembly.AddressesIncrease | parse-assembly.mjs:236-258 | the first address is 0, each next one is the previous plus the size of the previous instruction's kind, and addresses strictly increase |
| ParseAssembly.AssignMeaning | parse-assembly.mjs:260-262 | recording labels adds exactly those labels, all at the one address, and keeps the other entries |
| ParseAssembly.TableUpTo | parse-assembly.mjs:236-262 | the table after n instructions, each label written at its instruction's address, later writes winning; stated by `LabelTableLast` |
| ParseAssembly.LabelTableLast | parse-assembly.mjs:260-262 | a label is in the table exactly when some instruction carries it, and it names the kind-sized address of the last one that does |
| ParseAssembly.ResolvedShape | parse-assembly.mjs:236-272 | resolution keeps each instruction in place, sets its address to the kind-sized `AddressAt`, and makes a label argument direct with a value exactly when the label is defined |
| ParseAssembly.RewriteArgument | parse-assembly.mjs:265-270 | a label argument becomes direct with the table's address, or with no value when the table lacks the label; stated by `ResolvedShape` |
| ParseAssembly.Resolved | parse-assembly.mjs:234-272 | both passes as a function of the records, one result per record; stated by `ResolvedShape` and `ResolvedAddresses` |
| ParseAssembly.ResolvedAddresses | parse-assembly.mjs:236-270 | resolution keeps every kind, so the resolved program carries the addresses its own sizes give |
| ParseAssembly.Record | parse-assembly.mjs:260-262 | the loop over an instruction's labels records each at its address |
| ParseAssembly.Locate | parse-assembly.mjs:236-263 | the first pass sets every instruction's address in place to the previous address plus the size of the previous kind, and returns the label table |
| ParseAssembly.Relabel | parse-assembly.mjs:265-270 | the second pass rewrites exactly the label arguments in place, to direct ones holding the table's address |
| ParseAssembly.Resolve | parse-assembly.mjs:234-272 | the two passes leave the array resolved with kind-sized addresses and return the label table |
| ParseAssembly.ResolveAll | parse-assembly.mjs:232-272 | resolving the parsed records gives the resolved program |
| ParseAssembly.ParseAndResolve | parse-assembly.mjs:227-272 | an error naming the rest when the program fails to parse or leaves text over, else the resolved records |
| ParseAssembly.SharedLabelMisplaced | parse-assembly.mjs:93-97 | with one shared `nop` object, `@start nop; jmp @start; nop` sends start to byte 4, while one record per instruction sends it to 0 |
| ParseAssembly.SharedHarmless | parse-assembly.mjs:201-206 | without labels on `nop` or `halt`, sharing the objects changes no record |
| Assembler.OpcodesDistinct | assemble.mjs:4-19 | every code is four binary digits, none is 1111, and two kinds share a code only if they are the same |
| Assembler.HeaderShape | assemble.mjs:37-40 | the header is eight binary digits: the code, then the register bits, then the mode bits |
| Assembler.Header | assemble.mjs:37-40 | code, register bits, then mode bits; stated by `HeaderShape` |
| Assembler.Encode | assemble.mjs:33-46 | the digits of one instruction, or the missing-value error; stated by `MemoryByte`, `BareInstruction`, `OperandInstruction` and `EncodeFails` |
| Assembler.BinaryExact | assemble.mjs:34-45 | the zero-padded binary form reads back as the value, and has exactly the width when the value fits |
| Assembler.EncodeFails | assemble.mjs:34-45 | encoding fails, as a missing value, exactly for a `mem` without value or an operand argument without value |
| Assembler.MemoryByte | assemble.mjs:34-35 | a `mem` datum below 256 becomes exactly eight binary digits worth the datum |
| Assembler.BareInstruction | assemble.mjs:37-43 | without an argument or with the accumulator, the output is the header alone, mode 00 |
| Assembler.OperandInstruction | assemble.mjs:44-45 | otherwise the output is 24 digits: the header, mode not 00, then the operand as 16 digits |
| Assembler.EncodeAllOk | assemble.mjs:30-47 | a program encodes exactly when each instruction does |
| Assembler.EncodeAll | assemble.mjs:30-47 | the instructions encoded in order and joined, or the first error; stated by `EncodeAllOk`, `EncodeAllError` and `Layout` |
| Assembler.EncodeAllError | assemble.mjs:30-47 | the only error of encoding a program is a missing value |
| Assembler.ProgramBinary | assemble.mjs:30-47 | the program's digits are all binary |
| Assembler.EncodePrefix | assemble.mjs:30-47 | the encoding of a prefix of the program is a prefix of the program's encoding |
| Assembler.Layout | assemble.mjs:30-47 | each instruction's digits follow those of the instructions before it |
| Assembler.EncodedSize | assemble.mjs:34-45 | the bytes the encoder emits: three exactly for an instruction other than `mem` with a non-accumulator argument, else one |
| Assembler.EncodedAddressAt | assemble.mjs:30-47 | the bytes emitted before instruction i, the corrected address of the first two "## Findings" rows; stated by `EncodedAddressLocates` |
| Assembler.AddressesAgree | parse-assembly.mjs:236-258 | for programs without `mem` data or accumulator arguments, the resolver's addresses are the bytes the encoder emits before each instruction |
| Assembler.EncodedLength | assemble.mjs:34-45 | a fitting instruction's digits fill eight times the bytes the encoder counts for it |
| Assembler.PrefixBytes | assemble.mjs:30-47 | the digits before an instruction fill eight times the bytes emitted before it |
| Assembler.EncodedAddressLocates | assemble.mjs:30-47 | instruction k's digits sit from bit 8 times its encoded address to 8 times that address plus its encoded size; this is the corrected addressing of the first two "## Findings" rows |
| Assembler.ResolvedAddressLocates | parse-assembly.mjs:236-258 | for a program without `mem` data or accumulator arguments, the address the resolver gives each instruction, times 8, is the bit offset of its encoding |
| Assembler.AccumulatorMisplaced | parse-assembly.mjs:243-255 | the resolver gives the instruction after `add r1, r0` address 3, but its encoding starts at byte 1 |
| Assembler.MemoryMisplaced | parse-assembly.mjs:243-255 | the resolver gives the instruction after `mem 72` address 2, but its encoding starts at byte 1 |
| Assembler.UndefinedLabel | assemble.mjs:44-45 | a program that names a label no instruction defines does not assemble |
| Assembler.BinaryTextBytes | memory.mjs:28-51 | reading a binary dump gives `bitsToBytes` of its digits |
| Assembler.AssembledBits | assemble.mjs:30-48 | loading the digits of a program whose length is a whole number of bytes gives exactly those digits as bits |
| Assembler.Assemble | assemble.mjs:30-48 | a syntax error when parsing fails or leaves text over, the encoding error when there is one, else a fresh memory holding the digits of the program resolved with kind-sized addresses |
| InterpretMicrocode.Machine.constructor | interpret-microcode.mjs:4-14 | counter 0, zero registers, fields 0000/00/00, a fresh empty memory, and a well-formed state |
| InterpretMicrocode.Machine.Fetch | interpret-microcode.mjs:16-20 | the three fields read at the counter, one after another, stopping at the first failed read |
| InterpretMicrocode.Machine.Operand | interpret-microcode.mjs:30-46 | the operand and the moved counter, or the fault with nothing changed |
| InterpretMicrocode.Machine.SetRegister | interpret-microcode.mjs:85-92 | the selected register set to the last 16 binary digits of n, or a fault below -1 |
| InterpretMicrocode.Machine.Store | interpret-microcode.mjs:71-81 | STO copies into the accumulator, refuses an immediate operand, or writes at the address read at `programCounter*8 + 8` after the counter has moved |
| InterpretMicrocode.Machine.Execute | interpret-microcode.mjs:48-190 | the switch's effect on the fields and memory, and what it throws |
| InterpretMicrocode.Machine.Compute | interpret-microcode.mjs:83-189 | the arithmetic and logic cases set the selected register to the computed number |
| InterpretMicrocode.Machine.Step | interpret-microcode.mjs:22-193 | the checks, the operand, the switch and the next fetch, keeping the machine well formed |
| InterpretMicrocode.OperandSpec | interpret-microcode.mjs:30-46 | a 16-digit word and the counter moved 1 byte with the accumulator and 3 otherwise; mode 11 is a fault |
| InterpretMicrocode.ExecuteSpec | interpret-microcode.mjs:48-190 | the switch on the moved state; stated opcode by opcode by `Jumps`, `LoadAndCopy`, `ExecuteStores` and `Adds` to `Logic` |
| InterpretMicrocode.StepSpec | interpret-microcode.mjs:22-193 | the checks, the operand, the switch and the fetch; stated by `StepRejects`, `StepAdvances`, `StepFetches` and `StepRuns` |
| InterpretMicrocode.StoreSpec | interpret-microcode.mjs:71-81 | STO reading a direct operand's address word after a given byte; stated by `StoreLoads` and `StoreFrame` |
| InterpretMicrocode.WrittenStore | interpret-microcode.mjs:77-79 | STO reading the address word after the moved counter, as `step` runs it; stated by `ExecuteStores` and `StoreMisaddressed` |
| InterpretMicrocode.InitialWellFormed | interpret-microcode.mjs:5-14 | a new machine has three word registers and fields of widths 4, 2 and 2 |
| InterpretMicrocode.LastDigits | interpret-microcode.mjs:85-92 | the last 16 digits of n are binary and worth n modulo 2^16 |
| InterpretMicrocode.RegisterText | interpret-microcode.mjs:85-92 | `numberToString(n, 2).slice(-16).padStart(16, "0")`; stated by `RegisterTextValue` |
| InterpretMicrocode.RegisterTextValue | interpret-microcode.mjs:85-92 | the register text is a fault below -1, zero for -1, and a word worth n modulo 2^16 otherwise |
| InterpretMicrocode.StepRejects | interpret-microcode.mjs:22-28 | code 1111, register 11 and mode 11 are rejected in that order and only by these checks, leaving the state unchanged |
| InterpretMicrocode.ExecuteFaults | interpret-microcode.mjs:48-190 | the switch can only halt, refuse an immediate store, reach an invalid number or fault in memory |
| InterpretMicrocode.StepKeepsWellFormed | interpret-microcode.mjs:22-193 | a step keeps the three registers words and the fields at their widths |
| InterpretMicrocode.ExecuteKeepsWellFormed | interpret-microcode.mjs:48-190 | the switch stores only 16-digit words in registers |
| InterpretMicrocode.SetValue | interpret-microcode.mjs:85-92 | setting n >= -1 changes only the selected register, to a word worth n modulo 2^16 (0 for -1) |
| InterpretMicrocode.FetchKeepsWellFormed | interpret-microcode.mjs:16-20 | fetch writes fields of the widths it reads |
| InterpretMicrocode.ExecuteKeepsCounter | interpret-microcode.mjs:48-190 | only the jumps set the counter |
| InterpretMicrocode.StepAdvances | interpret-microcode.mjs:22-193 | a step that is no jump and throws nothing moves the counter 1 or 3 bytes, by whether an operand follows |
| InterpretMicrocode.StepFetches | interpret-microcode.mjs:16-20 | a step that throws nothing ends holding the code, register and mode stored at its new counter |
| InterpretMicrocode.StepRuns | interpret-microcode.mjs:22-193 | a step past the three code checks and the operand read runs the instruction, then fetches unless it threw |
| InterpretMicrocode.Jumps | interpret-microcode.mjs:55-64 | JMP sets the counter to the operand; JMZ does so exactly when the selected register is zero and otherwise changes nothing |
| InterpretMicrocode.ExecuteKeepsMemory | interpret-microcode.mjs:48-190 | every instruction but STO leaves memory unchanged |
| InterpretMicrocode.ExecuteFrame | interpret-microcode.mjs:48-190 | an instruction changes the selected register at most, STO the accumulator at most, and the register names stay the same |
| InterpretMicrocode.ExecuteRegisters | interpret-microcode.mjs:48-190 | apart from STO, the registers are either untouched or only the selected one is replaced, by a 16-digit word |
| InterpretMicrocode.ExecuteTouches | interpret-microcode.mjs:48-190 | apart from STO, an instruction changes only the counter and the registers |
| InterpretMicrocode.ExecuteStores | interpret-microcode.mjs:71-81 | the switch runs code 0101 as the store that reads its address word after the moved counter |
| InterpretMicrocode.ExecuteKeepsFields | interpret-microcode.mjs:48-190 | the switch never changes the decoded fields |
| InterpretMicrocode.StoreFrame | interpret-microcode.mjs:71-81 | STO changes only the accumulator and the memory |
| InterpretMicrocode.SetResult | interpret-microcode.mjs:83-189 | a computed result n >= -1 leaves the selected register worth n modulo 2^16, 0 for -1 |
| InterpretMicrocode.Adds | interpret-microcode.mjs:83-93 | ADD leaves the sum modulo 2^16 |
| InterpretMicrocode.Subtracts | interpret-microcode.mjs:95-105 | SUB gives the difference when it is not negative, 0 when it is -1, and otherwise a fault that changes nothing |
| InterpretMicrocode.Multiplies | interpret-microcode.mjs:107-117 | MUL leaves the product modulo 2^16 |
| InterpretMicrocode.Divides | interpret-microcode.mjs:119-129 | DIV gives the floored quotient, and a fault that changes nothing for a zero divisor |
| InterpretMicrocode.Logic | interpret-microcode.mjs:131-189 | AND, OR and NOT test for the value 1; CPZ is 1 exactly for a zero operand; CPL is 1 exactly when the operand is at least 2^15 |
| InterpretMicrocode.SignBit | interpret-microcode.mjs:181-189 | a word's first digit is 1 exactly when it is worth 2^15 or more |
| InterpretMicrocode.Halts | interpret-microcode.mjs:52-53 | HLT faults after the counter has moved, changing nothing else |
| InterpretMicrocode.LoadAndCopy | interpret-microcode.mjs:66-81 | LOD puts the operand in the selected register; STO with the accumulator copies the register into "00"; STO with an immediate operand faults |
| InterpretMicrocode.OpcodesAgree | assemble.mjs:4-19 | the code the encoder emits for an instruction runs that instruction |
| InterpretMicrocode.UnknownCode | interpret-microcode.mjs:23-24 | the code 1111, which the encoder never emits, names no instruction |
| InterpretMicrocode.SizesAgree | interpret-microcode.mjs:30-46 | the machine steps over as many bytes as the instruction occupies |
| InterpretMicrocode.FetchDecodes | interpret-microcode.mjs:16-20 | fetching an encoded header yields its code, register and mode, and the code runs the instruction |
| InterpretMicrocode.StoreLoads | interpret-microcode.mjs:77-80 | a direct store that reads its address word after byte `at` and succeeds leaves the register's word at that address; at the moved counter this is the store as written, at the instruction's own byte it is the corrected store of "## Findings" |
| InterpretMicrocode.StepStores | interpret-microcode.mjs:45-81 | a step running a direct STO reads its address word after byte pc + 3, where the operand fetch has moved the counter, not after the instruction's own byte |
| InterpretMicrocode.StoreMisaddressed | interpret-microcode.mjs:77-80 | as written, `STO r1, 3` at byte 0 overwrites itself instead of bytes 3 and 4; the store the instruction means writes bytes 3 and 4 |
| LogicGates.Not | logic-gates.mjs:1-3 | not is 1 exactly for 0 |
| LogicGates.And | logic-gates.mjs:5-10 | and is 1 exactly when both inputs are |
| LogicGates.Or | logic-gates.mjs:12-17 | or is 1 exactly when either input is |
| LogicGates.Nand | logic-gates.mjs:19-22 | not of and; stated by `CompositeGates` |
| LogicGates.Nor | logic-gates.mjs:24-27 | not of or; stated by `CompositeGates` |
| LogicGates.Xor | logic-gates.mjs:29-33 | and of or and nand; stated by `CompositeGates` |
| LogicGates.Xnor | logic-gates.mjs:35-39 | or of and and nor; stated by `CompositeGates` |
| LogicGates.CompositeGates | logic-gates.mjs:19-39 | nand and nor negate and and or; xor is 1 exactly for different inputs; xnor exactly for equal ones |
| LogicGates.HalfAdder | logic-gates.mjs:41-44 | a + b is sum plus twice carry |
| LogicGates.FullAdder | logic-gates.mjs:46-53 | a + b + c is sum plus twice carry |
| LogicGates.Ripple | logic-gates.mjs:55-66 | the sum array after n positions, n + 1 bits long; its value is stated by `RippleValue` |
| LogicGates.RippleValue | logic-gates.mjs:55-66 | after n positions the sum's value is the value of the low n bits of a plus those of b |
| LogicGates.RippleCarryAdder | logic-gates.mjs:55-66 | the sum is one longer than the longer input and worth the inputs' sum |
| LogicGates.RippleCarryAdderValue | logic-gates.mjs:55-66 | the specified sum has that length and value |
| LogicGates.OnesComplement | logic-gates.mjs:68-69 | every bit flipped, length kept |
| LogicGates.OnesComplementValue | logic-gates.mjs:68-69 | a number plus its complement is 2^n - 1 |
| LogicGates.TwosComplement | logic-gates.mjs:71-75 | one's complement plus one, cut to the length; stated by `TwosComplementValue` |
| LogicGates.TwosComplementValue | logic-gates.mjs:71-75 | the length is kept and the value is (2^n - value) modulo 2^n |
| LogicGates.TwosComplementInvolution | logic-gates.mjs:71-75 | the two's complement of the two's complement has the original value |

## Left out

- The base64url branches of `Memory.fromString` and `toString` are not modelled. They call the platform's `btoa` and `atob`.
- `mapObject`, `invertObject` and `log` in utils.mjs are not modelled. `digitsPerByte` is the fixed table `DigitsPerByte`, whose minimality is proved, instead of a floating-point logarithm.
- The floating-point digit count of `numberToString` is not modelled. `ToDigits` uses the least digit count, as the source computes for every number whose logarithm rounds correctly.
- The JavaScript regular-expression engine behind `match` is not modelled. Each regular expression of the grammar is a recogniser `Pattern`: case-insensitive keyword spellings tried in the order the regular expression would try them, digit runs, word runs, whitespace runs and `;` comments to the end of the line.
- Exceptions are error values: `Result` in the libraries and a `Fault` in the machine's `Outcome`. The JavaScript error classes are not modelled. The text thrown by HLT is `Halted`. The `ReferenceError` of the undefined `rawInstruction` in the immediate-STO message is `ImmediateStore`.
- The machine has no loop that runs a program. The source has none either; it exposes `step`.
- Numbers are unbounded. JavaScript numbers above 2^53 lose precision in `stringToNumber` and in the arithmetic of `step`; that loss is not modelled.
- Parsed values are the generic `Value` datatype and the `Instruction` datatype. The source's object identities are not modelled in general. Each instruction gets its own record, and the sharing of the `nop` and `halt` objects is modelled on its own by `SharedRecords`.
- `disassemble` is not modelled: it is an empty function.
- `multiplyBitStrings` and `divideBitStrings` are not modelled. They call `addBitStrings`, `stringToNumber` and `numberToString`, none of which logic-gates.mjs defines or imports.
- ConvertBases.Upper: changes ASCII lower-case letters only, one character for one. JavaScript `toUpperCase` also maps other letters, some into several characters: U+FB00 'ﬀ' becomes "FF". That mapping is not modelled.
- ConvertBases.DigitValue: a character whose JavaScript upper-casing is a digit of the base only outside ASCII has no value here.
- ConvertBases.StringToNumber: gives nothing for text whose JavaScript upper-casing expands into a numeral. For example, `stringToNumber("ﬀ", 16)` is 255 in the source.
- ConvertBases.ConvertBases: the same non-ASCII upper-casing is lost, through `StringToNumber`.
- BitMemory.DigitsIn: drops characters whose JavaScript upper-casing is a digit only outside ASCII. The source's scan keeps the digits such a character expands to, so "ﬀ" in base 16 is the byte 0xFF there.
- BitMemory.Memory.FromString: reads such characters as nothing, through `DigitsIn`.
- ParseAssembly.RewriteArgument: the label table is a map, not a JavaScript object. In the source, a label named after an `Object.prototype` member that no instruction defines is found on the prototype. For example, `jmp @toString` gets the function `toString` as its value.
- ParseAssembly.TableUpTo: records every name. In the source, writing a number to the key `__proto__` of the object is ignored, so a label `@__proto__` is never recorded.
- Assembler.UndefinedLabel: holds for label names that are not `Object.prototype` members. The source assembles `jmp @toString`: the function's text filters down to no digits, and the program is the single header byte 00100010.
- Assembler.Assemble: rejects programs with prototype-named undefined labels, which the source assembles, as stated for `UndefinedLabel`.
- Parse.Many: requires a parser that consumes input on success, because `many` never ends on one that does not.
- Parse.RunMany: requires a consuming parser, for the same reason.
- BitMemory.Memory.SetBitsFromString: requires a binary string. The source maps any other character through `Number`, storing `NaN` or other numbers as cells.
- ParseAssembly.Whitespace: states only that the rest is a suffix and shorter on success. The recogniser itself is in the body.
- ParseAssembly.CommentToken: states only the suffix and progress property.
- ParseAssembly.RegisterToken: states only the suffix and progress property. The three spellings and their registers are in the body.
- ParseAssembly.Nullary: states only the suffix and progress property. The `nop` and `halt` spellings are in the body.
- ParseAssembly.MemoryOperation: states only the suffix and progress property.
- ParseAssembly.JumpOperation: states only the suffix and progress property.
- ParseAssembly.NotOperation: states only the suffix and progress property.
- ParseAssembly.Unary: states only the suffix and progress property. `SeparatorRequired` adds that a mnemonic needs a separator.
- ParseAssembly.BinaryCode: states only the suffix and progress property. The spellings of the eleven codes are in `BinaryCodes`.
- ParseAssembly.Binary: states only the suffix and progress property. The separator is described by `SeparatedCases` and `CommaCases`.
- ParseAssembly.LabelRun: states only the suffix and progress property.
- ParseAssembly.InstructionBody: states only the suffix and progress property.
- ParseAssembly.InstructionToken: states only that the rest is a suffix.
- ParseAssembly.Line: states only the suffix and progress property.
- ParseAssembly.Program: states only that the rest is a suffix. How the parsed list is flattened and filtered is in the body and in `Defined`.
- Assembler.ResolvedAddressLocates: requires that every datum is below 256 and every operand below 2^16, and that the program has no `mem` data or accumulator arguments. Larger values produce longer digit strings and shift everything after them. With `mem` data or accumulator arguments the resolver's addresses are not the encoding's, as the first two "## Findings" rows show.

## Findings

| source | as written | input that shows it | evidently intended | confidence | as-written member | corrected member |
|---|---|---|---|---|---|---|
| parse-assembly.mjs:243-255 | an instruction with the accumulator as argument is given three bytes, but it is encoded in one and the machine steps over one | `add r1, r0` then `nop`: the `nop` gets address 3 but is encoded at byte 1 | addresses count the bytes the encoder emits: one for an instruction without an operand word | not executed | Assembler.AccumulatorMisplaced | Assembler.EncodedAddressLocates |
| parse-assembly.mjs:250-253 | a `mem` datum is given two bytes, but it is encoded as one raw byte | `mem 72` then `nop`: the `nop` gets address 2 but is encoded at byte 1 | a `mem` datum occupies the one byte it is encoded in | not executed | Assembler.MemoryMisplaced | Assembler.EncodedAddressLocates |
| interpret-microcode.mjs:77-79 | a direct STO reads its address word at `programCounter*8 + 8` after the counter has already moved 3 bytes past the instruction | `STO r1, 3` at byte 0 of a six-byte memory with bytes 3 to 5 zero: r1 is written at byte 0, over the instruction | read the address from the instruction's own operand bytes, as the operand fetch does | not executed | InterpretMicrocode.StoreMisaddressed | InterpretMicrocode.StoreLoads |
| parse-assembly.mjs:93-97 | the result objects of `nop` and `halt` are created once, so setting `labels` on one occurrence sets it on all | `@start nop`, `jmp @start`, `nop`: start resolves to byte 4, the second `nop` | a label names the instruction it precedes | not executed | ParseAssembly.SharedLabelMisplaced | ParseAssembly.LabelTableLast |
