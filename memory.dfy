/**
 * The bit memory of the machine (memory.mjs): a sequence of bits that is
 * read and written by range-checked slices, and that serialises to and
 * from a dump of one byte per line in base 2, 10 or 16.
 */
module BitMemory {
  import opened Results
  import opened ConvertBases

  /** The errors a memory operation raises. */
  datatype MemoryError =
    | OutOfBounds                         // the slice reaches past the end of memory
    | Conversion(cause: ConversionError)  // `numberToString` threw

  // ---------------------------------------------------------------------
  // Bits as characters
  // ---------------------------------------------------------------------

  /** `Number(c)` on a binary digit character. */
  function CharBit(c: char): Bit
  {
    if c == '1' then 1 else 0
  }

  /** `bits.join("")`. */
  function BitsText(bits: seq<Bit>): (s: string)
    ensures |s| == |bits|
    ensures IsBinary(s)
  {
    seq(|bits|, i requires 0 <= i < |bits| => if bits[i] == 1 then '1' else '0')
  }

  /** `string.split("").map(Number)` on a binary digit string. */
  function TextBits(s: string): (bits: seq<Bit>)
    ensures |bits| == |s|
  {
    seq(|s|, i requires 0 <= i < |s| => CharBit(s[i]))
  }

  predicate IsBinary(s: string)
  {
    forall i :: 0 <= i < |s| ==> s[i] == '0' || s[i] == '1'
  }

  /** Padding a binary string with zeros keeps it binary. */
  lemma PadBinary(s: string, length: int)
    requires IsBinary(s)
    ensures IsBinary(PadStart(s, length, '0'))
  {
    if |s| < length {
      var z: string := seq(length - |s|, _ => '0');
      assert PadStart(s, length, '0') == z + s;
      BinaryConcat(z, s);
    }
  }

  /** Binary strings joined are binary. */
  lemma BinaryConcat(a: string, b: string)
    requires IsBinary(a) && IsBinary(b)
    ensures IsBinary(a + b)
  {
    forall k | 0 <= k < |a + b| ensures (a + b)[k] == '0' || (a + b)[k] == '1' {
      if k >= |a| {
        assert (a + b)[k] == b[k - |a|];
      }
    }
  }

  /** Joining bits and splitting them again gives the same bits, and a
      binary string survives the opposite trip. */
  lemma BitsTextRoundTrip(bits: seq<Bit>, s: string)
    ensures TextBits(BitsText(bits)) == bits
    ensures IsBinary(s) ==> BitsText(TextBits(s)) == s
  {
  }

  /** A string that reads as a binary number consists of binary digits,
      and its digit values are its bits. */
  lemma BinaryDigitValues(s: string)
    requires StringToNumber(s, 2).Some?
    ensures IsBinary(s)
    ensures DigitValues(s, 2) == Some(TextBits(s))
  {
    var ds := DigitValues(s, 2).value;
    forall i | 0 <= i < |s|
      ensures (s[i] == '0' || s[i] == '1') && ds[i] == TextBits(s)[i]
    {
      assert DigitValue(s[i], 2) == Some(ds[i]);
    }
    assert ds == TextBits(s);
  }

  /** Joined bits read in base 2 are the bits' positional value. */
  lemma BitsTextValue(bits: seq<Bit>)
    ensures StringToNumber(BitsText(bits), 2) == Some(Positional(bits, 2))
  {
    var s := BitsText(bits);
    forall i | 0 <= i < |s|
      ensures DigitValue(s[i], 2) == Some(bits[i])
    {
    }
    assert DigitValues(s, 2).value == bits;
  }

  /** Two digit sequences of one length and the same value are equal. */
  lemma {:induction false} PositionalInjective(a: seq<nat>, b: seq<nat>, base: Radix)
    requires |a| == |b|
    requires forall i :: 0 <= i < |a| ==> a[i] < base
    requires forall i :: 0 <= i < |b| ==> b[i] < base
    requires Positional(a, base) == Positional(b, base)
    ensures a == b
    decreases |a|
  {
    if a != [] {
      var n := |a| - 1;
      var pa, pb := Positional(a[..n], base), Positional(b[..n], base);
      DivModUnique(pa, a[n], base);
      DivModUnique(pb, b[n], base);
      PositionalInjective(a[..n], b[..n], base);
      assert a == a[..n] + [a[n]];
      assert b == b[..n] + [b[n]];
    }
  }

  /** Bit sequences of one length and the same binary value are equal. */
  lemma SameBits(a: seq<Bit>, b: seq<Bit>)
    requires |a| == |b| && Positional(a, 2) == Positional(b, 2)
    ensures a == b
  {
    PositionalInjective(a, b, 2);
  }

  // ---------------------------------------------------------------------
  // Flattening and grouping
  // ---------------------------------------------------------------------

  /** `flat()`: the pieces joined in order. */
  function Flatten<T>(pieces: seq<seq<T>>): seq<T>
  {
    if pieces == [] then [] else pieces[0] + Flatten(pieces[1..])
  }

  /** The reducer of `bitsToBytes` and `fromString`: start a new group when
      the last one holds `size` items, then append the item to the last group. */
  function GroupStep<T>(groups: seq<seq<T>>, x: T, size: nat): (r: seq<seq<T>>)
    requires groups != []
    ensures r != []
  {
    var last := groups[|groups| - 1];
    if |last| == size then groups + [[x]]
    else groups[..|groups| - 1] + [last + [x]]
  }

  /** `xs.reduce(GroupStep, groups)`. */
  function GroupFold<T>(groups: seq<seq<T>>, xs: seq<T>, size: nat): (r: seq<seq<T>>)
    requires groups != []
    ensures r != []
    decreases |xs|
  {
    if xs == [] then groups else GroupFold(GroupStep(groups, xs[0], size), xs[1..], size)
  }

  /** `xs.reduce(GroupStep, [[]])`. */
  function Group<T>(xs: seq<T>, size: nat): seq<seq<T>>
  {
    GroupFold([[]], xs, size)
  }

  /** The reference grouping: consecutive runs of `size` items, the last
      run possibly shorter; a single empty run for no items. */
  function Chunks<T>(xs: seq<T>, size: nat): (r: seq<seq<T>>)
    requires size > 0
    ensures r != []
    decreases |xs|
  {
    if |xs| <= size then [xs] else [xs[..size]] + Chunks(xs[size..], size)
  }

  /** The fold starting from an open group `g` groups `g + xs` into chunks. */
  lemma {:induction false} GroupFoldChunks<T>(gs: seq<seq<T>>, g: seq<T>, xs: seq<T>, size: nat)
    requires 0 < size && |g| <= size
    ensures GroupFold(gs + [g], xs, size) == gs + Chunks(g + xs, size)
    decreases |xs|
  {
    if xs == [] {
      assert g + xs == g;
    } else if |g| == size {
      GroupFoldChunks(gs + [g], [xs[0]], xs[1..], size);
      GroupFoldFull(gs, g, xs, size);
    } else {
      GroupFoldChunks(gs, g + [xs[0]], xs[1..], size);
      GroupFoldOpen(gs, g, xs, size);
    }
  }

  /** The step of `GroupFoldChunks` when the open group is full. */
  lemma GroupFoldFull<T>(gs: seq<seq<T>>, g: seq<T>, xs: seq<T>, size: nat)
    requires 0 < size && |g| == size && xs != []
    requires GroupFold((gs + [g]) + [[xs[0]]], xs[1..], size) == (gs + [g]) + Chunks([xs[0]] + xs[1..], size)
    ensures GroupFold(gs + [g], xs, size) == gs + Chunks(g + xs, size)
  {
    var x := xs[0];
    assert GroupStep(gs + [g], x, size) == (gs + [g]) + [[x]];
    assert [x] + xs[1..] == xs;
    assert (g + xs)[..size] == g;
    assert (g + xs)[size..] == xs;
  }

  /** The step of `GroupFoldChunks` when the open group has room. */
  lemma GroupFoldOpen<T>(gs: seq<seq<T>>, g: seq<T>, xs: seq<T>, size: nat)
    requires 0 < size && |g| < size && xs != []
    requires GroupFold(gs + [g + [xs[0]]], xs[1..], size) == gs + Chunks((g + [xs[0]]) + xs[1..], size)
    ensures GroupFold(gs + [g], xs, size) == gs + Chunks(g + xs, size)
  {
    var x := xs[0];
    assert (gs + [g])[..|gs|] == gs;
    assert GroupStep(gs + [g], x, size) == gs + [g + [x]];
    assert (g + [x]) + xs[1..] == g + xs;
  }


  /** The left fold of the source groups exactly like `Chunks`. */
  lemma GroupIsChunks<T>(xs: seq<T>, size: nat)
    requires size > 0
    ensures Group(xs, size) == Chunks(xs, size)
  {
    var none: seq<seq<T>> := [];
    var empty: seq<T> := [];
    GroupFoldChunks(none, empty, xs, size);
    assert none + [empty] == [[]];
    assert empty + xs == xs;
  }

  /** Chunks cut `xs` without losing or reordering anything, and no chunk
      holds more than `size` items. */
  lemma {:induction false} ChunksShape<T>(xs: seq<T>, size: nat)
    requires size > 0
    ensures Flatten(Chunks(xs, size)) == xs
    ensures forall k :: 0 <= k < |Chunks(xs, size)| ==> |Chunks(xs, size)[k]| <= size
    decreases |xs|
  {
    var cs := Chunks(xs, size);
    if |xs| <= size {
      assert cs == [xs];
      assert Flatten(cs) == xs + Flatten(cs[1..]);
      assert cs[1..] == [];
    } else {
      var rest := xs[size..];
      ChunksShape(rest, size);
      assert cs[1..] == Chunks(rest, size);
      assert xs == xs[..size] + rest;
    }
  }

  /** When `xs` holds a positive whole number of runs, every chunk is full. */
  lemma {:induction false} ChunksExact<T>(xs: seq<T>, size: nat, runs: nat)
    requires size > 0 && runs > 0 && |xs| == size * runs
    ensures forall k :: 0 <= k < |Chunks(xs, size)| ==> |Chunks(xs, size)[k]| == size
    decreases runs
  {
    if runs > 1 {
      MulStep(size, runs);
      ChunksExact(xs[size..], size, runs - 1);
      assert Chunks(xs, size)[1..] == Chunks(xs[size..], size);
    }
  }

  lemma MulStep(a: nat, b: nat)
    requires b > 0
    ensures a * b == a * (b - 1) + a
  {
  }

  /** Chunking pieces of exactly `size` items gives the pieces back. */
  lemma {:induction false} ChunksOfFlatten<T>(pieces: seq<seq<T>>, size: nat)
    requires size > 0 && pieces != []
    requires forall k :: 0 <= k < |pieces| ==> |pieces[k]| == size
    ensures Chunks(Flatten(pieces), size) == pieces
    decreases |pieces|
  {
    var rest := pieces[1..];
    var f := Flatten(pieces);
    assert f == pieces[0] + Flatten(rest);
    if rest == [] {
      assert f == pieces[0];
      assert pieces == [pieces[0]];
    } else {
      ChunksOfFlatten(rest, size);
      FlattenLength(rest, size);
      assert f[..size] == pieces[0];
      assert f[size..] == Flatten(rest);
      assert pieces == [pieces[0]] + rest;
    }
  }

  lemma {:induction false} FlattenLength<T>(pieces: seq<seq<T>>, size: nat)
    requires forall k :: 0 <= k < |pieces| ==> |pieces[k]| == size
    ensures |Flatten(pieces)| == size * |pieces|
    decreases |pieces|
  {
    if pieces != [] {
      FlattenLength(pieces[1..], size);
      MulStep(size, |pieces|);
    }
  }

  /** Piece k of equally long pieces sits at offset size * k of the flattening. */
  lemma {:induction false} FlattenSlice<T>(pieces: seq<seq<T>>, size: nat, k: nat)
    requires forall j :: 0 <= j < |pieces| ==> |pieces[j]| == size
    requires k < |pieces|
    ensures size * k + size <= |Flatten(pieces)|
    ensures Flatten(pieces)[size * k .. size * k + size] == pieces[k]
    decreases k
  {
    var f := Flatten(pieces);
    var rest := Flatten(pieces[1..]);
    assert f == pieces[0] + rest;
    FlattenLength(pieces, size);
    FlattenLength(pieces[1..], size);
    MulStep(size, |pieces|);
    if k > 0 {
      FlattenSlice(pieces[1..], size, k - 1);
      var o := size * (k - 1);
      MulStep(size, k);
      assert f[o + size .. o + size + size] == rest[o .. o + size];
    } else {
      assert f[0 .. size] == pieces[0];
    }
  }

  // ---------------------------------------------------------------------
  // Bytes and bits
  // ---------------------------------------------------------------------

  /** `numberToString(byte, 2).padStart(8, "0").split("").map(Number)`. */
  function ByteToBits(b: nat): seq<Bit>
  {
    TextBits(PadStart(ToDigits(b, 2), 8, '0'))
  }

  /** The bits of each byte, before `flatMap` joins them. */
  function BytesBits(bytes: seq<nat>): (pieces: seq<seq<Bit>>)
    ensures |pieces| == |bytes|
  {
    seq(|bytes|, k requires 0 <= k < |bytes| => ByteToBits(bytes[k]))
  }

  /** `bytesToBits`: every byte's bits, one byte after another. */
  function BytesToBits(bytes: seq<nat>): seq<Bit>
  {
    Flatten(BytesBits(bytes))
  }

  /** Every group read as a number in `base`, as `stringToNumber` reads
      the group's joined digits. */
  function Values(groups: seq<seq<nat>>, base: nat): (vs: seq<nat>)
    ensures |vs| == |groups|
  {
    seq(|groups|, k requires 0 <= k < |groups| => Positional(groups[k], base))
  }

  /** `bitsToBytes`: the bits in groups of eight, each read as a binary
      number. The reduce starts from one empty group, so no bits give the
      single byte 0. */
  function BitsToBytes(bits: seq<Bit>): seq<nat>
  {
    Values(Group(bits, 8), 2)
  }

  /** A byte becomes eight bits whose binary value is the byte. */
  lemma ByteBitsExact(b: nat)
    requires b < 256
    ensures |ByteToBits(b)| == 8
    ensures Positional(ByteToBits(b), 2) == b
  {
    ByteDigits(b);
    BinaryTextValue(PadStart(ToDigits(b, 2), 8, '0'), b);
  }

  lemma BytesBitsExact(bytes: seq<nat>)
    requires forall k :: 0 <= k < |bytes| ==> bytes[k] < 256
    ensures forall k :: 0 <= k < |bytes| ==>
      |BytesBits(bytes)[k]| == 8 && Positional(BytesBits(bytes)[k], 2) == bytes[k]
  {
    forall k | 0 <= k < |bytes|
      ensures |BytesBits(bytes)[k]| == 8 && Positional(BytesBits(bytes)[k], 2) == bytes[k]
    {
      ByteBitsExact(bytes[k]);
    }
  }

  /** `bytesToBits` maps k bytes to exactly 8k bits, and bits 8k..8k+7 are
      byte k, most significant bit first. */
  lemma BytesToBitsShape(bytes: seq<nat>)
    requires forall k :: 0 <= k < |bytes| ==> bytes[k] < 256
    ensures |BytesToBits(bytes)| == 8 * |bytes|
    ensures forall k :: 0 <= k < |bytes| ==>
      Positional(BytesToBits(bytes)[8 * k .. 8 * k + 8], 2) == bytes[k]
  {
    BytesBitsExact(bytes);
    FlattenLength(BytesBits(bytes), 8);
    forall k | 0 <= k < |bytes|
      ensures Positional(BytesToBits(bytes)[8 * k .. 8 * k + 8], 2) == bytes[k]
    {
      ByteAt(bytes, k);
    }
  }

  lemma ByteAt(bytes: seq<nat>, k: nat)
    requires forall j :: 0 <= j < |bytes| ==> bytes[j] < 256
    requires k < |bytes|
    ensures 8 * k + 8 <= |BytesToBits(bytes)|
    ensures BytesToBits(bytes)[8 * k .. 8 * k + 8] == ByteToBits(bytes[k])
    ensures Positional(BytesToBits(bytes)[8 * k .. 8 * k + 8], 2) == bytes[k]
  {
    BytesBitsExact(bytes);
    FlattenSlice(BytesBits(bytes), 8, k);
    ByteBitsExact(bytes[k]);
  }

  /** `bitsToBytes(bytesToBits(bs))` is `bs` for a non-empty list of bytes. */
  lemma BytesRoundTrip(bytes: seq<nat>)
    requires bytes != []
    requires forall k :: 0 <= k < |bytes| ==> bytes[k] < 256
    ensures BitsToBytes(BytesToBits(bytes)) == bytes
  {
    var pieces := BytesBits(bytes);
    BytesBitsExact(bytes);
    GroupIsChunks(BytesToBits(bytes), 8);
    ChunksOfFlatten(pieces, 8);
    assert Values(pieces, 2) == bytes;
  }

  /** No bits read back as the single byte 0. */
  lemma NoBitsOneByte()
    ensures BitsToBytes([]) == [0]
  {
    var empty: seq<Bit> := [];
    GroupIsChunks(empty, 8);
  }

  /** Every byte `bitsToBytes` produces fits in eight bits. */
  lemma BytesBelow256(bits: seq<Bit>)
    ensures forall k :: 0 <= k < |BitsToBytes(bits)| ==> BitsToBytes(bits)[k] < 256
  {
    GroupIsChunks(bits, 8);
    ChunksShape(bits, 8);
    var groups := Chunks(bits, 8);
    forall k | 0 <= k < |groups|
      ensures Positional(groups[k], 2) < 256
    {
      GroupBelow256(groups[k]);
    }
  }

  lemma GroupBelow256(g: seq<Bit>)
    requires |g| <= 8
    ensures Positional(g, 2) < 256
  {
    PositionalBound(g, 2);
    PowMonotone(2, |g|, 8);
    assert Pow(2, 8) == 256;
  }

  /** Bits whose length is a positive multiple of 8 survive `bitsToBytes`
      followed by `bytesToBits`. */
  lemma BitsRoundTrip(bits: seq<Bit>)
    requires bits != [] && |bits| % 8 == 0
    ensures BytesToBits(BitsToBytes(bits)) == bits
  {
    var groups := Chunks(bits, 8);
    GroupIsChunks(bits, 8);
    ChunksShape(bits, 8);
    ChunksExact(bits, 8, |bits| / 8);
    var bytes := BitsToBytes(bits);
    forall k | 0 <= k < |groups|
      ensures BytesBits(bytes)[k] == groups[k]
    {
      GroupReload(groups[k]);
    }
    assert BytesBits(bytes) == groups;
  }

  /** Eight bits read as a byte and expanded again are the same bits. */
  lemma GroupReload(g: seq<Bit>)
    requires |g| == 8
    ensures ByteToBits(Positional(g, 2)) == g
  {
    GroupBelow256(g);
    var b := Positional(g, 2);
    ByteBitsExact(b);
    SameBits(ByteToBits(b), g);
  }

  // ---------------------------------------------------------------------
  // Dumps
  // ---------------------------------------------------------------------

  /** `digitsPerByte(base)`: how many digits of `base` a byte needs. */
  function DigitsPerByte(base: Radix): (d: nat)
    ensures d > 0
  {
    if base == 2 then 8 else if base == 10 then 3 else 2
  }

  /** The digit count is the least one that holds every byte. */
  lemma DigitsPerByteMinimal(base: Radix)
    ensures 256 <= Pow(base, DigitsPerByte(base))
    ensures Pow(base, DigitsPerByte(base) - 1) < 256
  {
    if base == 2 {
      assert Pow(2, 7) == 128;
      assert Pow(2, 8) == 256;
    } else if base == 10 {
      assert Pow(10, 2) == 100;
      assert Pow(10, 3) == 1000;
    } else {
      assert Pow(16, 1) == 16;
      assert Pow(16, 2) == 256;
    }
  }

  /** `numberToString(byte, base).padStart(digitsPerByte(base), "0")`. */
  function ByteLine(b: nat, base: Radix): string
  {
    PadStart(ToDigits(b, base), DigitsPerByte(base), '0')
  }

  /** The line of every byte. */
  function ByteLines(bytes: seq<nat>, base: Radix): (lines: seq<string>)
    ensures |lines| == |bytes|
  {
    seq(|bytes|, k requires 0 <= k < |bytes| => ByteLine(bytes[k], base))
  }

  /** A byte's line has exactly `digitsPerByte(base)` digits and reads back as the byte. */
  lemma ByteLineExact(b: nat, base: Radix)
    requires b < 256
    ensures |ByteLine(b, base)| == DigitsPerByte(base)
    ensures StringToNumber(ByteLine(b, base), base) == Some(b)
  {
    var d := DigitsPerByte(base);
    PlacesMinimal(b, base);
    DigitsPerByteMinimal(base);
    if Places(b, base) > d {
      PowMonotone(base, d, Places(b, base) - 1);
    }
    ToDigitsRoundTrip(b, base);
    PadStartValue(ToDigits(b, base), d, base);
  }

  /** `lines.join("\n")`. */
  function JoinLines(lines: seq<string>): string
  {
    if lines == [] then ""
    else if |lines| == 1 then lines[0]
    else lines[0] + "\n" + JoinLines(lines[1..])
  }

  /** The digit values of the characters of `s` that are digits of `base`
      once upper-cased, in order; every other character is dropped. */
  function DigitsIn(s: string, base: Radix): (r: seq<nat>)
    ensures |r| <= |s|
    ensures forall k :: 0 <= k < |r| ==> r[k] < base
    decreases |s|
  {
    if s == [] then [] else CharDigits(s[0], base) + DigitsIn(s[1..], base)
  }

  /** The value of `c` as a one-digit sequence, or nothing. */
  function CharDigits(c: char, base: Radix): seq<nat>
  {
    match DigitValue(c, base) case Some(d) => [d] case None => []
  }

  /** The line of every byte of `bitsToBytes` has `digitsPerByte(base)`
      digits and reads back as its byte. */
  lemma ByteLinesExact(bytes: seq<nat>, base: Radix)
    requires forall k :: 0 <= k < |bytes| ==> bytes[k] < 256
    ensures forall k :: 0 <= k < |bytes| ==>
      |ByteLines(bytes, base)[k]| == DigitsPerByte(base) &&
      StringToNumber(ByteLines(bytes, base)[k], base) == Some(bytes[k])
  {
    forall k | 0 <= k < |bytes|
      ensures |ByteLines(bytes, base)[k]| == DigitsPerByte(base)
      ensures StringToNumber(ByteLines(bytes, base)[k], base) == Some(bytes[k])
    {
      ByteLineExact(bytes[k], base);
    }
  }

  /** The digits of every line. */
  function LineDigits(lines: seq<string>, base: Radix): (ds: seq<seq<nat>>)
    ensures |ds| == |lines|
  {
    seq(|lines|, k requires 0 <= k < |lines| => DigitsIn(lines[k], base))
  }

  /** The byte values of a dump: `fromString`'s non-base64 branch before
      `bytesToBits`. */
  function DumpBytes(text: string, base: Radix): seq<nat>
  {
    Values(Group(DigitsIn(text, base), DigitsPerByte(base)), base)
  }

  lemma {:induction false} DigitsInConcat(s: string, t: string, base: Radix)
    ensures DigitsIn(s + t, base) == DigitsIn(s, base) + DigitsIn(t, base)
    decreases |s|
  {
    if s != [] {
      DigitsInConcat(s[1..], t, base);
      assert (s + t)[1..] == s[1..] + t;
    } else {
      assert s + t == t;
    }
  }

  /** On a string of digits, DigitsIn keeps every digit. */
  lemma {:induction false} DigitsInAll(s: string, base: Radix)
    requires DigitValues(s, base).Some?
    ensures DigitsIn(s, base) == DigitValues(s, base).value
    decreases |s|
  {
    if s != [] {
      DigitsInAll(s[1..], base);
    }
  }

  /** The digits of joined lines are the lines' digits, one line after
      another: the separator is not a digit. */
  lemma {:induction false} DigitsInJoin(lines: seq<string>, base: Radix)
    ensures DigitsIn(JoinLines(lines), base) == Flatten(LineDigits(lines, base))
    decreases |lines|
  {
    if lines != [] {
      var rest := lines[1..];
      var ds := LineDigits(lines, base);
      DigitsInJoin(rest, base);
      assert ds[1..] == LineDigits(rest, base);
      assert Flatten(ds) == DigitsIn(lines[0], base) + Flatten(LineDigits(rest, base));
      if rest == [] {
        assert Flatten(LineDigits(rest, base)) == [];
      } else {
        DigitsInConcat(lines[0] + "\n", JoinLines(rest), base);
        DigitsInConcat(lines[0], "\n", base);
        NewlineNoDigit(base);
      }
    }
  }

  /** The line separator is not a digit of any base. */
  lemma NewlineNoDigit(base: Radix)
    ensures DigitsIn("\n", base) == []
  {
    assert "\n"[1..] == [];
  }

  /** Reading back a dump of bytes gives the bytes again. */
  lemma DumpRoundTrip(bytes: seq<nat>, base: Radix)
    requires bytes != []
    requires forall k :: 0 <= k < |bytes| ==> bytes[k] < 256
    ensures DumpBytes(JoinLines(ByteLines(bytes, base)), base) == bytes
  {
    var d := DigitsPerByte(base);
    var lines := ByteLines(bytes, base);
    var digits := LineDigits(lines, base);
    forall k | 0 <= k < |bytes|
      ensures |digits[k]| == d && Positional(digits[k], base) == bytes[k]
    {
      ByteLineExact(bytes[k], base);
      DigitsInAll(lines[k], base);
    }
    DigitsInJoin(lines, base);
    GroupIsChunks(Flatten(digits), d);
    ChunksOfFlatten(digits, d);
    assert Values(digits, base) == bytes;
  }

  // ---------------------------------------------------------------------
  // Range-checked slices
  // ---------------------------------------------------------------------

  function Abs(x: int): nat
  {
    if x < 0 then -x else x
  }

  /** `getBits(start, length)` on the contents `cells`. */
  function Read(cells: seq<Bit>, start: int, length: int): (r: Result<seq<Bit>, MemoryError>)
    ensures r.Err? <==> Abs(start) + Abs(length) > |cells|
    ensures r.Ok? ==> |r.value| == Abs(length)
    ensures r.Ok? ==> forall i :: 0 <= i < Abs(length) ==> r.value[i] == cells[Abs(start) + i]
  {
    var s, n := Abs(start), Abs(length);
    if s + n > |cells| then Err(OutOfBounds) else Ok(cells[s .. s + n])
  }

  /** `setBits(start, bits)` on the contents `cells`: the new contents. */
  function Write(cells: seq<Bit>, start: int, bits: seq<Bit>): (r: Result<seq<Bit>, MemoryError>)
    ensures r.Err? <==> Abs(start) + |bits| > |cells|
    ensures r.Ok? ==> |r.value| == |cells|
    ensures r.Ok? ==> forall i :: 0 <= i < |cells| ==>
      r.value[i] == if Abs(start) <= i < Abs(start) + |bits| then bits[i - Abs(start)] else cells[i]
  {
    var s := Abs(start);
    if s + |bits| > |cells| then Err(OutOfBounds)
    else Ok(cells[..s] + bits + cells[s + |bits|..])
  }

  /** After a successful write, reading the same range gives the written bits. */
  lemma ReadAfterWrite(cells: seq<Bit>, start: int, bits: seq<Bit>)
    requires Write(cells, start, bits).Ok?
    ensures Read(Write(cells, start, bits).value, start, |bits|) == Ok(bits)
  {
    var after := Write(cells, start, bits).value;
    assert Read(after, start, |bits|).value == bits;
  }

  /** A write leaves a read of a disjoint range unchanged. */
  lemma ReadDisjointWrite(cells: seq<Bit>, start: int, bits: seq<Bit>, from: int, length: int)
    requires Write(cells, start, bits).Ok?
    requires Abs(from) + Abs(length) <= Abs(start) || Abs(start) + |bits| <= Abs(from)
    ensures Read(Write(cells, start, bits).value, from, length) == Read(cells, from, length)
  {
    var after := Write(cells, start, bits).value;
    if Read(cells, from, length).Ok? {
      assert Read(after, from, length).value == Read(cells, from, length).value;
    }
  }

  /** `numberToString(number, 2).padStart(length, "0")` split into bits,
      for a number the conversion accepts. */
  function NumberBits(n: int, length: int): (r: Result<seq<Bit>, MemoryError>)
    ensures r.Err? <==> n < -1
  {
    if n < -1 then Err(Conversion(InvalidArrayLength))
    else if n == -1 then Ok(TextBits(PadStart("", length, '0')))
    else Ok(TextBits(PadStart(ToDigits(n, 2), length, '0')))
  }

  /** A number below 2^length becomes exactly `length` bits of its value,
      provided `length` is positive: 0 still yields the single digit "0". */
  lemma NumberBitsExact(n: nat, length: nat)
    requires length > 0 && n < Pow(2, length)
    ensures NumberBits(n, length).Ok?
    ensures |NumberBits(n, length).value| == length
    ensures Positional(NumberBits(n, length).value, 2) == n
  {
    var t := PadStart(ToDigits(n, 2), length, '0');
    assert NumberBits(n, length) == Ok(TextBits(t));
    PaddedLength(n, length);
    ToDigitsRoundTrip(n, 2);
    PadStartValue(ToDigits(n, 2), length, 2);
    BinaryTextValue(t, n);
  }

  /** A binary string worth `n` splits into bits worth `n`. */
  lemma BinaryTextValue(t: string, n: nat)
    requires StringToNumber(t, 2) == Some(n)
    ensures Positional(TextBits(t), 2) == n
  {
    BinaryDigitValues(t);
  }

  /** The binary digits of a number below 2^length fit in `length` places. */
  lemma PaddedLength(n: nat, length: nat)
    requires length > 0 && n < Pow(2, length)
    ensures |PadStart(ToDigits(n, 2), length, '0')| == length
  {
    PlacesMinimal(n, 2);
    if Places(n, 2) > length {
      PowMonotone(2, length, Places(n, 2) - 1);
    }
  }

  /** `setBitsFromNumber(s, len, n)` followed by `getBitsAsNumber(s, len)`
      gives n back when 0 <= n < 2^len and the range fits. */
  lemma NumberRoundTrip(cells: seq<Bit>, start: int, length: nat, n: nat)
    requires length > 0 && n < Pow(2, length)
    requires Abs(start) + length <= |cells|
    ensures Write(cells, start, NumberBits(n, length).value).Ok?
    ensures ReadNumber(Write(cells, start, NumberBits(n, length).value).value, start, length) == Ok(n)
  {
    NumberBitsExact(n, length);
    ReadAfterWrite(cells, start, NumberBits(n, length).value);
  }

  /** `getBitsAsNumber` on the contents `cells`: the slice read in base 2. */
  function ReadNumber(cells: seq<Bit>, start: int, length: int): (r: Result<nat, MemoryError>)
    ensures r.Err? <==> Read(cells, start, length).Err?
    ensures r.Ok? ==> r.value < Pow(2, Abs(length))
    ensures r.Ok? ==> StringToNumber(BitsText(Read(cells, start, length).value), 2) == Some(r.value)
  {
    match Read(cells, start, length)
    case Err(e) => Err(e)
    case Ok(bits) =>
      PositionalBound(bits, 2);
      BitsTextValue(bits);
      Ok(Positional(bits, 2))
  }

  /** `getBitsAsString` on the contents `cells`: the slice's bits joined. */
  function ReadText(cells: seq<Bit>, start: int, length: int): (r: Result<string, MemoryError>)
    ensures r.Err? <==> Abs(start) + Abs(length) > |cells|
    ensures r.Ok? ==> |r.value| == Abs(length) && IsBinary(r.value)
    ensures r.Ok? ==> TextBits(r.value) == cells[Abs(start) .. Abs(start) + Abs(length)]
  {
    match Read(cells, start, length)
    case Err(e) => Err(e)
    case Ok(bits) =>
      BitsTextRoundTrip(bits, "");
      Ok(BitsText(bits))
  }

  // ---------------------------------------------------------------------
  // The memory object
  // ---------------------------------------------------------------------

  /** `Memory`: the private bit array `#memory` as the field `cells`. */
  class Memory {
    var cells: seq<Bit>

    /** `new Memory()`: no bits at all. */
    constructor ()
      ensures cells == []
    {
      cells := [];
    }

    /** `Memory.fromString(text, {base})` without base64: the dump's digits
        are grouped `digitsPerByte(base)` at a time, each group read as a
        byte, and the bytes expanded to bits. */
    static method FromString(text: string, base: Radix) returns (m: Memory)
      ensures fresh(m)
      ensures m.cells == BytesToBits(DumpBytes(text, base))
    {
      m := new Memory();
      m.cells := BytesToBits(DumpBytes(text, base));
    }

    /** The lines of `toString({base})`: each byte of `bitsToBytes` padded
        to `digitsPerByte(base)` digits. */
    function Lines(base: Radix): (lines: seq<string>)
      reads this
      ensures |lines| == |BitsToBytes(cells)|
      ensures forall k :: 0 <= k < |lines| ==>
        |lines[k]| == DigitsPerByte(base) && StringToNumber(lines[k], base) == Some(BitsToBytes(cells)[k])
    {
      BytesBelow256(cells);
      ByteLinesExact(BitsToBytes(cells), base);
      ByteLines(BitsToBytes(cells), base)
    }

    /** `toString({base})` without base64: the lines joined with "\n". */
    function ToString(base: Radix): string
      reads this
    {
      JoinLines(Lines(base))
    }

    /** `getBits(start, length)`. */
    function GetBits(start: int, length: int): (r: Result<seq<Bit>, MemoryError>)
      reads this
      ensures r.Err? <==> Abs(start) + Abs(length) > |cells|
      ensures r.Err? ==> r.error == OutOfBounds
      ensures r.Ok? ==> r.value == cells[Abs(start) .. Abs(start) + Abs(length)]
    {
      Read(cells, start, length)
    }

    /** `getBitsAsString(start, length)`: the bits joined. */
    function GetBitsAsString(start: int, length: int): (r: Result<string, MemoryError>)
      reads this
      ensures r.Err? <==> Abs(start) + Abs(length) > |cells|
      ensures r.Ok? ==> |r.value| == Abs(length) && IsBinary(r.value)
      ensures r.Ok? ==> TextBits(r.value) == cells[Abs(start) .. Abs(start) + Abs(length)]
    {
      ReadText(cells, start, length)
    }

    /** `getBitsAsNumber(start, length)`. */
    function GetBitsAsNumber(start: int, length: int): (r: Result<nat, MemoryError>)
      reads this
      ensures r.Err? <==> Abs(start) + Abs(length) > |cells|
      ensures r.Ok? ==> r.value < Pow(2, Abs(length))
      ensures r.Ok? ==> r.value == Positional(cells[Abs(start) .. Abs(start) + Abs(length)], 2)
    {
      ReadNumber(cells, start, length)
    }

    /** `setBits(start, bits)`: splice the bits in at |start|, or throw
        without changing anything when they do not fit. */
    method SetBits(start: int, bits: seq<Bit>) returns (r: Result<(), MemoryError>)
      modifies this
      ensures r.Err? <==> Abs(start) + |bits| > |old(cells)|
      ensures r.Err? ==> r.error == OutOfBounds && cells == old(cells)
      ensures r.Ok? ==> cells == Write(old(cells), start, bits).value
    {
      var s := Abs(start);
      if s + |bits| > |cells| {
        return Err(OutOfBounds);
      }
      cells := cells[..s] + bits + cells[s + |bits|..];
      r := Ok(());
    }

    /** `setBitsFromString(start, string)` for a binary string. */
    method SetBitsFromString(start: int, text: string) returns (r: Result<(), MemoryError>)
      requires IsBinary(text)
      modifies this
      ensures r.Err? <==> Abs(start) + |text| > |old(cells)|
      ensures r.Err? ==> r.error == OutOfBounds && cells == old(cells)
      ensures r.Ok? ==> cells == Write(old(cells), start, TextBits(text)).value
    {
      r := SetBits(start, TextBits(text));
    }

    /** `setBitsFromNumber(start, length, number)`: `numberToString` throws
        below -1; otherwise the padded binary digits are written. */
    method SetBitsFromNumber(start: int, length: int, n: int) returns (r: Result<(), MemoryError>)
      modifies this
      ensures n < -1 ==> r == Err(Conversion(InvalidArrayLength))
      ensures r.Err? ==> cells == old(cells)
      ensures n >= -1 ==> (r.Ok? <==> Write(old(cells), start, NumberBits(n, length).value).Ok?)
      ensures r.Ok? ==> cells == Write(old(cells), start, NumberBits(n, length).value).value
    {
      var digits := NumberToString(n, 2);
      if digits.Err? {
        return Err(Conversion(digits.error));
      }
      var text := PadStart(digits.value, length, '0');
      PaddedBinary(n, length);
      r := SetBitsFromString(start, text);
    }
  }

  /** The padded conversion of a number is a binary string of its bits. */
  lemma PaddedBinary(n: int, length: int)
    requires n >= -1
    ensures IsBinary(PadStart(if n == -1 then "" else ToDigits(n, 2), length, '0'))
    ensures TextBits(PadStart(if n == -1 then "" else ToDigits(n, 2), length, '0')) == NumberBits(n, length).value
  {
    if n >= 0 {
      ToDigitsRoundTrip(n, 2);
      BinaryDigitValues(ToDigits(n, 2));
    }
  }

  /** `fromString(m.toString({base}), {base})` holds the same bits as m when
      m is non-empty and its length is a multiple of 8. */
  lemma DumpReload(m: Memory, base: Radix)
    requires m.cells != [] && |m.cells| % 8 == 0
    ensures BytesToBits(DumpBytes(m.ToString(base), base)) == m.cells
  {
    var bytes := BitsToBytes(m.cells);
    BytesBelow256(m.cells);
    assert bytes != [];
    DumpRoundTrip(bytes, base);
    BitsRoundTrip(m.cells);
  }
}
