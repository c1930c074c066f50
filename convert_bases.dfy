/**
 * Conversion between digit strings and integers in bases 2, 10 and 16
 * (convert-bases.mjs).
 *
 * A digit string is read big-endian: the value is the sum of
 * digit * base^place with places counted from the right. Writing a number
 * produces the shortest digit string (at least one digit).
 */
module ConvertBases {
  import opened Results

  /** A binary digit, as memory cells and registers hold it. */
  type Bit = b: nat | b < 2

  /** The bases that have an alphabet: the keys of `alphabets`. */
  type Radix = b: nat | b == 2 || b == 10 || b == 16 witness 2

  /** The error JavaScript raises when `numberToString` sizes its digit
      array with a count that is not a valid length (NaN or Infinity). */
  datatype ConversionError = InvalidArrayLength

  function Pow(b: nat, e: nat): nat
  {
    if e == 0 then 1 else b * Pow(b, e - 1)
  }

  /** The character that stands for digit value `d` in every alphabet. */
  function DigitChar(d: nat): char
    requires d < 16
  {
    if d < 10 then ('0' as int + d) as char else ('A' as int + d - 10) as char
  }

  /** `alphabets[base]`: the digits of `base` in order of value. */
  function Alphabet(base: Radix): (a: string)
    ensures |a| == base
    ensures forall d :: 0 <= d < base ==> a[d] == DigitChar(d)
  {
    if base == 2 then "01"
    else if base == 10 then "0123456789"
    else "0123456789ABCDEF"
  }

  /** `toUpperCase` restricted to ASCII: a lower-case ASCII letter becomes
      its upper-case letter, and every other character is kept. JavaScript
      also maps other letters, some into several characters ('ﬀ' becomes
      "FF"); that mapping is not part of this model. */
  function Upper(c: char): char
  {
    if 'a' <= c <= 'z' then (c as int - 32) as char else c
  }

  /** `invertedAlphabets[base][Upper(c)]`: the value of a digit, or nothing
      when the upper-cased character is not in the base's alphabet. */
  function DigitValue(c: char, base: Radix): (r: Option<nat>)
    ensures r.Some? ==> r.value < base && Alphabet(base)[r.value] == Upper(c)
    ensures r.None? ==> forall d :: 0 <= d < base ==> Alphabet(base)[d] != Upper(c)
  {
    var u := Upper(c);
    if '0' <= u <= '9' && u as int - '0' as int < base then Some(u as int - '0' as int)
    else if base == 16 && 'A' <= u <= 'F' then Some(u as int - 'A' as int + 10)
    else None
  }

  /** Big-endian positional value of a digit sequence. */
  function Positional(ds: seq<nat>, base: nat): nat
  {
    if ds == [] then 0 else Positional(ds[..|ds| - 1], base) * base + ds[|ds| - 1]
  }

  /** The digit values of every character of `s`, or nothing if one of them
      is not a digit (the lookup gives `undefined` and the sum NaN). */
  function DigitValues(s: string, base: Radix): (r: Option<seq<nat>>)
    ensures r.Some? <==> forall i :: 0 <= i < |s| ==> DigitValue(s[i], base).Some?
    ensures r.Some? ==> |r.value| == |s|
    ensures r.Some? ==> forall i :: 0 <= i < |s| ==> DigitValue(s[i], base) == Some(r.value[i])
  {
    if forall i :: 0 <= i < |s| ==> DigitValue(s[i], base).Some? then
      Some(seq(|s|, i requires 0 <= i < |s| => DigitValue(s[i], base).value))
    else
      None
  }

  /** `stringToNumber`: the positional value of `s` read in `base`, or
      nothing (NaN) when a character is not a digit of the base. */
  function StringToNumber(s: string, base: Radix): (r: Option<nat>)
    ensures r.Some? <==> forall i :: 0 <= i < |s| ==> DigitValue(s[i], base).Some?
    ensures s == [] ==> r == Some(0)
  {
    match DigitValues(s, base)
    case None => None
    case Some(ds) => Some(Positional(ds, base))
  }

  /** The number of digits `numberToString` emits for `n`: the least
      p >= 1 with n < base^p (see PlacesMinimal). */
  function Places(n: nat, base: Radix): nat
  {
    if n < base then 1 else 1 + Places(n / base, base)
  }

  /** The digit values of `n` in `base`, most significant first, with no
      leading zero. */
  function DigitsOf(n: nat, base: Radix): seq<nat>
  {
    if n < base then [n] else DigitsOf(n / base, base) + [n % base]
  }

  /** The loop of `numberToString` yields `Places(n)` digits, each below
      the base, together worth `n`. */
  lemma {:induction false} DigitsOfMeaning(n: nat, base: Radix)
    ensures |DigitsOf(n, base)| == Places(n, base)
    ensures forall i :: 0 <= i < |DigitsOf(n, base)| ==> DigitsOf(n, base)[i] < base
    ensures Positional(DigitsOf(n, base), base) == n
    decreases n
  {
    if n < base {
      SingleDigit(n, base);
    } else {
      DigitsOfMeaning(n / base, base);
      DigitsOfStep(DigitsOf(n / base, base), n, base);
    }
  }

  lemma SingleDigit(d: nat, base: nat)
    ensures Positional([d], base) == d
  {
    assert [d][..0] == [];
  }

  /** Appending the last digit of `n` to the digits of `n / base` gives
      the digits of `n`. */
  lemma DigitsOfStep(pre: seq<nat>, n: nat, base: Radix)
    requires n >= base
    requires |pre| == Places(n / base, base)
    requires forall i :: 0 <= i < |pre| ==> pre[i] < base
    requires Positional(pre, base) == n / base
    ensures |pre + [n % base]| == Places(n, base)
    ensures forall i :: 0 <= i < |pre + [n % base]| ==> (pre + [n % base])[i] < base
    ensures Positional(pre + [n % base], base) == n
  {
    var q, r := n / base, n % base;
    PositionalAppend(pre, r, base);
    DivMod(n, base);
    assert Positional(pre + [r], base) == q * base + r;
  }

  /** `digits.map(n => alphabets[base][n]).join("")`: a value outside the
      alphabet has no glyph (`undefined`) and joins as the empty string. */
  function Glyphs(ds: seq<int>, base: Radix): string
  {
    if ds == [] then ""
    else (if 0 <= ds[0] < base then [Alphabet(base)[ds[0]]] else "") + Glyphs(ds[1..], base)
  }

  /** The digit -1 of `numberToString(-1)` has no glyph. */
  lemma NoGlyph(base: Radix)
    ensures Glyphs([-1], base) == ""
  {
    assert [-1][1..] == [];
  }

  /** What `numberToString` yields for a non-negative integer. */
  function ToDigits(n: nat, base: Radix): (s: string)
    ensures |s| == Places(n, base) >= 1
    ensures forall i :: 0 <= i < |s| ==> s[i] in Alphabet(base)
    ensures n == 0 ==> s == "0"
  {
    DigitsOfMeaning(n, base);
    GlyphsInAlphabet(DigitsOf(n, base), base);
    Glyphs(DigitsOf(n, base), base)
  }

  /** `numberToString(number, base)`, the count-down loop that fills the
      `numbers` array place by place. For -1 the float digit count is 1
      (log of 0 is -Infinity) and the single digit -1 has no glyph, so the
      result is empty; below -1 the count is NaN and `Array` throws. */
  method NumberToString(n: int, base: Radix) returns (r: Result<string, ConversionError>)
    ensures n >= 0 ==> r == Ok(ToDigits(n, base))
    ensures n == -1 ==> r == Ok("")
    ensures n < -1 ==> r == Err(InvalidArrayLength)
  {
    if n < -1 {
      return Err(InvalidArrayLength);
    }
    var places: nat := if n == -1 then 1 else Places(n, base);
    if n >= 0 {
      PlacesMinimal(n, base);
    }
    var numbers := new int[places];
    var sum := n;
    var e := places - 1;
    ghost var done: seq<nat> := [];
    while e >= 0
      invariant -1 <= e < places
      invariant n >= 0 ==> |done| == places - 1 - e
      invariant n >= 0 ==> forall j :: e < j < places ==> numbers[j] == done[places - 1 - j]
      invariant n >= 0 ==> Accounts(n, done, sum, base, e + 1)
      invariant n >= 0 ==> forall k :: 0 <= k < |done| ==> done[k] < base
      invariant n == -1 ==> (e == 0 && sum == -1) || (e == -1 && numbers[0] == -1)
    {
      var p := Pow(base, e);
      var d := sum / p;
      numbers[e] := d;
      if n >= 0 {
        CountDownNext(n, done, sum, base, e);
        done := done + [d];
      }
      sum := sum - d * p;
      e := e - 1;
    }
    var digits := seq(places, k requires 0 <= k < places reads numbers => numbers[places - 1 - k]);
    if n >= 0 {
      assert digits == done;
      assert Pow(base, e + 1) == 1;
      assert 0 <= sum < Pow(base, e + 1);
      TimesOne(Positional(done, base), Pow(base, e + 1));
      DigitsOfUnique(done, n, base);
    } else {
      assert digits == [-1];
      NoGlyph(base);
    }
    r := Ok(Glyphs(digits, base));
  }

  /** The digits taken so far, followed by `places` more places holding
      `sum`, spell `n`. */
  ghost predicate Accounts(n: int, done: seq<nat>, sum: int, base: Radix, places: nat)
  {
    0 <= sum < Pow(base, places) && n == Positional(done, base) * Pow(base, places) + sum
  }

  /** One step of the countdown: the next digit is below the base, and the
      digits so far with the remainder still account for `n`. */
  lemma CountDownNext(n: int, done: seq<nat>, sum: int, base: Radix, e: nat)
    requires Accounts(n, done, sum, base, e + 1)
    ensures 0 <= sum / Pow(base, e) < base
    ensures Accounts(n, done + [sum / Pow(base, e)], sum - (sum / Pow(base, e)) * Pow(base, e), base, e)
  {
    var p := Pow(base, e);
    assert Pow(base, e + 1) == base * p;
    CountDownStep(n, Positional(done, base), sum, base, p);
    PositionalAppend(done, sum / p, base);
  }

  lemma TimesOne(x: int, y: int)
    requires y == 1
    ensures x * y == x
  {
  }

  /** `convertBases`: re-express a digit string of one base in another. A
      string with a non-digit reads as NaN, on which `numberToString` throws. */
  function ConvertBases(inputBase: Radix, outputBase: Radix, input: string): (r: Result<string, ConversionError>)
    ensures r.Ok? <==> StringToNumber(input, inputBase).Some?
    ensures r.Ok? ==> StringToNumber(r.value, outputBase) == StringToNumber(input, inputBase)
  {
    match StringToNumber(input, inputBase)
    case None => Err(InvalidArrayLength)
    case Some(n) =>
      ToDigitsRoundTrip(n, outputBase);
      Ok(ToDigits(n, outputBase))
  }

  /** `padStart(length, c)`: left-pad `s` with `c` up to `length` characters. */
  function PadStart(s: string, length: int, c: char): (r: string)
    ensures |r| == if |s| >= length then |s| else length
    ensures r[|r| - |s|..] == s
    ensures forall i :: 0 <= i < |r| - |s| ==> r[i] == c
  {
    if |s| >= length then s else seq(length - |s|, _ => c) + s
  }

  /** `numberToString(byte, 2).padStart(8, "0")` for each byte, joined. */
  function ByteBits(bytes: seq<nat>): string
  {
    if bytes == [] then ""
    else ByteBits(bytes[..|bytes| - 1]) + PadStart(ToDigits(bytes[|bytes| - 1], 2), 8, '0')
  }

  /** `bytesToNumber`: the bytes read as one big-endian base-256 number. */
  function BytesToNumber(bytes: seq<nat>): (r: nat)
    ensures (forall k :: 0 <= k < |bytes| ==> bytes[k] < 256) ==> r == Positional(bytes, 256)
  {
    ByteBitsBinary(bytes);
    ByteBitsValueWhenBytes(bytes);
    StringToNumber(ByteBits(bytes), 2).value
  }

  // ---------------------------------------------------------------------
  // Arithmetic facts the proofs below rely on

  lemma MulMonotone(a: int, b: int, c: int)
    requires a <= b && c >= 0
    ensures a * c <= b * c
  {
  }

  lemma MulCancelLt(a: int, b: int, c: int)
    requires c > 0 && a * c < b * c
    ensures a < b
  {
  }

  lemma MulSmall(x: int, c: int)
    requires c > 0 && -c < x * c < c
    ensures x == 0
  {
  }

  /** One step of the count-down: with `p` = base^e, the digit at place e
      is below the base and what remains of the sum is below `p`. */
  lemma CountDownStep(n: int, v: int, sum: int, base: nat, p: nat)
    requires p > 0 && base > 0
    requires 0 <= sum < base * p
    requires n == v * (base * p) + sum
    ensures 0 <= sum / p < base
    ensures 0 <= sum - (sum / p) * p < p
    ensures n == (v * base + sum / p) * p + (sum - (sum / p) * p)
  {
    var d := sum / p;
    assert sum == d * p + sum % p;
    MulCancelLt(d, base, p);
    assert v * (base * p) == (v * base) * p;
    assert (v * base + d) * p == (v * base) * p + d * p;
  }

  lemma DivModUnique(q: int, r: int, base: nat)
    requires base > 0 && 0 <= r < base
    ensures (q * base + r) / base == q && (q * base + r) % base == r
  {
    var n := q * base + r;
    var q' := n / base;
    assert n == q' * base + n % base;
    assert (q' - q) * base == r - n % base;
    MulSmall(q' - q, base);
  }

  lemma DivMod(n: nat, base: nat)
    requires base > 0
    ensures n == (n / base) * base + n % base
  {
  }

  // ---------------------------------------------------------------------
  // Properties

  lemma PositionalAppend(ds: seq<nat>, d: nat, base: nat)
    ensures Positional(ds + [d], base) == Positional(ds, base) * base + d
  {
    assert (ds + [d])[..|ds|] == ds;
  }

  /** The sum of digit * base^place over the places, most significant first. */
  ghost function PlaceSum(ds: seq<nat>, base: nat): nat
  {
    if ds == [] then 0 else ds[0] * Pow(base, |ds| - 1) + PlaceSum(ds[1..], base)
  }

  lemma ConcatStep(a: int, b: int, c: int, d: int, base: int)
    ensures (a * b + c) * base + d == a * (base * b) + (c * base + d)
  {
  }

  lemma {:induction false} PositionalConcat(s: seq<nat>, t: seq<nat>, base: nat)
    ensures Positional(s + t, base) == Positional(s, base) * Pow(base, |t|) + Positional(t, base)
    decreases |t|
  {
    if t == [] {
      assert s + t == s;
    } else {
      var t' := t[..|t| - 1];
      var d := t[|t| - 1];
      assert s + t == (s + t') + [d];
      assert t == t' + [d];
      PositionalAppend(s + t', d, base);
      PositionalAppend(t', d, base);
      PositionalConcat(s, t', base);
      ConcatStep(Positional(s, base), Pow(base, |t'|), Positional(t', base), d, base);
    }
  }

  /** stringToNumber sums digit * base^place (convert-bases.mjs:27-35). */
  lemma {:induction false} PositionalIsPlaceSum(ds: seq<nat>, base: nat)
    ensures Positional(ds, base) == PlaceSum(ds, base)
    decreases |ds|
  {
    if ds != [] {
      PositionalConcat([ds[0]], ds[1..], base);
      assert [ds[0]] + ds[1..] == ds;
      assert Positional([ds[0]], base) == ds[0] by {
        assert [ds[0]][..0] == [];
      }
      PositionalIsPlaceSum(ds[1..], base);
    }
  }

  lemma DigitValuesConcat(s: string, t: string, base: Radix)
    ensures DigitValues(s + t, base) ==
      match (DigitValues(s, base), DigitValues(t, base))
      case (Some(a), Some(b)) => Some(a + b)
      case _ => None
  {
    var st := s + t;
    if DigitValues(s, base).Some? && DigitValues(t, base).Some? {
      forall i | 0 <= i < |st| ensures DigitValue(st[i], base).Some? {
        if i >= |s| { assert st[i] == t[i - |s|]; }
      }
      assert DigitValues(st, base).value == DigitValues(s, base).value + DigitValues(t, base).value;
    } else if DigitValues(s, base).None? {
      var i :| 0 <= i < |s| && DigitValue(s[i], base).None?;
      assert st[i] == s[i];
    } else {
      var i :| 0 <= i < |t| && DigitValue(t[i], base).None?;
      assert st[|s| + i] == t[i];
    }
  }



  /** Each glyph of an alphabet reads back as its own position. */
  lemma AlphabetDigit(base: Radix, d: nat)
    requires d < base
    ensures DigitValue(Alphabet(base)[d], base) == Some(d)
  {
  }

  lemma {:induction false} GlyphsInAlphabet(ds: seq<nat>, base: Radix)
    requires forall i :: 0 <= i < |ds| ==> ds[i] < base
    ensures |Glyphs(ds, base)| == |ds|
    ensures forall i :: 0 <= i < |ds| ==> Glyphs(ds, base)[i] == Alphabet(base)[ds[i]]
  {
    if ds != [] {
      GlyphsInAlphabet(ds[1..], base);
    }
  }

  /** Glyphs of valid digit values read back as those values. */
  lemma GlyphsDigits(ds: seq<nat>, base: Radix)
    requires forall i :: 0 <= i < |ds| ==> ds[i] < base
    ensures DigitValues(Glyphs(ds, base), base) == Some(ds)
  {
    GlyphsInAlphabet(ds, base);
    var s := Glyphs(ds, base);
    forall i | 0 <= i < |s| ensures DigitValue(s[i], base) == Some(ds[i]) {
      AlphabetDigit(base, ds[i]);
    }
    assert DigitValues(s, base).value == ds;
  }

  /** Round trip: stringToNumber(numberToString(n, b), b) = n
      (convert-bases.mjs:27-65). */
  lemma ToDigitsRoundTrip(n: nat, base: Radix)
    ensures StringToNumber(ToDigits(n, base), base) == Some(n)
  {
    DigitsOfMeaning(n, base);
    GlyphsDigits(DigitsOf(n, base), base);
  }

  /** The digit count is the least p >= 1 with n < base^p
      (convert-bases.mjs:42-48). */
  lemma PlacesUpperStep(n: int, q: int, r: int, base: int, p: int)
    requires n == q * base + r && 0 <= r < base && q < p
    ensures n < base * p
  {
    MulMonotone(q + 1, p, base);
  }

  lemma PlacesLowerStep(n: int, q: int, r: int, base: int, p: int)
    requires n == q * base + r && 0 <= r && base >= 0 && p <= q
    ensures base * p <= n
  {
    MulMonotone(p, q, base);
  }

  lemma PlacesMinimal(n: nat, base: Radix)
    ensures n < Pow(base, Places(n, base))
    ensures Places(n, base) > 1 ==> Pow(base, Places(n, base) - 1) <= n
  {
    PlacesUpper(n, base);
    PlacesLower(n, base);
  }

  /** `places` base-`base` digits are enough for `n`. */
  lemma {:induction false} PlacesUpper(n: nat, base: Radix)
    ensures n < Pow(base, Places(n, base))
    decreases n
  {
    if n >= base {
      var q := n / base;
      var p := Places(q, base);
      PlacesUpper(q, base);
      DivMod(n, base);
      assert Pow(base, Places(n, base)) == base * Pow(base, p);
      PlacesUpperStep(n, q, n % base, base, Pow(base, p));
    }
  }

  /** No fewer than `places` base-`base` digits would do for `n`. */
  lemma {:induction false} PlacesLower(n: nat, base: Radix)
    ensures Places(n, base) > 1 ==> Pow(base, Places(n, base) - 1) <= n
    decreases n
  {
    if n >= base {
      var q := n / base;
      var p := Places(q, base);
      DivMod(n, base);
      assert Places(n, base) - 1 == p;
      if p > 1 {
        PlacesLower(q, base);
        assert Pow(base, p) == base * Pow(base, p - 1);
        PlacesLowerStep(n, q, n % base, base, Pow(base, p - 1));
      } else {
        assert Pow(base, p) == base;
      }
    }
  }


  lemma {:induction false} PositionalBound(ds: seq<nat>, base: Radix)
    requires forall i :: 0 <= i < |ds| ==> ds[i] < base
    ensures Positional(ds, base) < Pow(base, |ds|)
    decreases |ds|
  {
    if ds != [] {
      var pre := ds[..|ds| - 1];
      PositionalBound(pre, base);
      MulMonotone(Positional(pre, base) + 1, Pow(base, |pre|), base);
    }
  }

  /** A non-zero number has a non-zero leading digit (convert-bases.mjs:42-48). */
  lemma LeadingDigitNonZero(n: nat, base: Radix)
    requires n > 0
    ensures ToDigits(n, base)[0] != '0'
  {
    var ds := DigitsOf(n, base);
    DigitsOfMeaning(n, base);
    GlyphsInAlphabet(ds, base);
    LeadingValuePositive(n, base);
    assert Alphabet(base)[ds[0]] == DigitChar(ds[0]);
  }

  /** The most significant digit of a non-zero number is not zero. */
  lemma {:induction false} LeadingValuePositive(n: nat, base: Radix)
    requires n > 0
    ensures DigitsOf(n, base)[0] > 0
    decreases n
  {
    if n >= base {
      LeadingValuePositive(n / base, base);
    }
  }


  /** Digit strings of the minimal length are unique: the count-down loop
      builds exactly the digits of `DigitsOf`. */
  lemma {:induction false} DigitsOfUnique(ds: seq<nat>, n: nat, base: Radix)
    requires |ds| == Places(n, base)
    requires forall i :: 0 <= i < |ds| ==> ds[i] < base
    requires Positional(ds, base) == n
    ensures ds == DigitsOf(n, base)
    decreases n
  {
    var pre := ds[..|ds| - 1];
    var last := ds[|ds| - 1];
    assert ds == pre + [last];
    if n < base {
      assert pre == [];
    } else {
      var v := Positional(pre, base);
      assert n == v * base + last;
      DivModUnique(v, last, base);
      DigitsOfUnique(pre, n / base, base);
    }
  }

  /** Binary digit strings always have a value. */
  lemma BinaryStringIsNumber(s: string)
    requires forall i :: 0 <= i < |s| ==> s[i] == '0' || s[i] == '1'
    ensures StringToNumber(s, 2).Some?
  {
  }

  /** Leading zeros do not change the value of a digit string. */
  lemma PadStartValue(s: string, length: int, base: Radix)
    requires StringToNumber(s, base).Some?
    ensures StringToNumber(PadStart(s, length, '0'), base) == StringToNumber(s, base)
  {
    if |s| < length {
      var zeros := seq(length - |s|, _ => '0');
      assert PadStart(s, length, '0') == zeros + s;
      ZeroDigits(zeros, base);
      var dz := DigitValues(zeros, base).value;
      var ds := DigitValues(s, base).value;
      DigitValuesConcat(zeros, s, base);
      PositionalConcat(dz, ds, base);
      assert Positional(dz + ds, base) == Positional(ds, base);
    }
  }

  /** A run of '0' characters reads as zero digits, worth nothing. */
  lemma ZeroDigits(zeros: string, base: Radix)
    requires forall i :: 0 <= i < |zeros| ==> zeros[i] == '0'
    ensures DigitValues(zeros, base).Some? && Positional(DigitValues(zeros, base).value, base) == 0
  {
    assert forall i :: 0 <= i < |zeros| ==> DigitValue(zeros[i], base) == Some(0);
    ZerosValue(DigitValues(zeros, base).value, base);
  }


  lemma {:induction false} ZerosValue(ds: seq<nat>, base: Radix)
    requires forall i :: 0 <= i < |ds| ==> ds[i] == 0
    ensures Positional(ds, base) == 0
    decreases |ds|
  {
    if ds != [] {
      ZerosValue(ds[..|ds| - 1], base);
    }
  }

  lemma {:induction false} PowMonotone(b: nat, i: nat, j: nat)
    requires b >= 1 && i <= j
    ensures Pow(b, i) <= Pow(b, j)
    decreases j
  {
    if i < j {
      PowMonotone(b, i, j - 1);
      MulMonotone(1, b, Pow(b, j - 1));
    }
  }

  /** A byte padded to eight binary digits. */
  lemma ByteDigits(b: nat)
    requires b < 256
    ensures |PadStart(ToDigits(b, 2), 8, '0')| == 8
    ensures StringToNumber(PadStart(ToDigits(b, 2), 8, '0'), 2) == Some(b)
  {
    PlacesMinimal(b, 2);
    assert Pow(2, 8) == 256;
    if Places(b, 2) > 8 {
      PowMonotone(2, 8, Places(b, 2) - 1);
    }
    ToDigitsRoundTrip(b, 2);
    PadStartValue(ToDigits(b, 2), 8, 2);
  }

  /** One byte's padded binary digits read back as that byte, whatever its size. */
  lemma PaddedByteValue(b: nat)
    ensures StringToNumber(PadStart(ToDigits(b, 2), 8, '0'), 2) == Some(b)
  {
    ToDigitsRoundTrip(b, 2);
    PadStartValue(ToDigits(b, 2), 8, 2);
  }

  /** Every joined byte string is a binary digit string. */
  lemma {:induction false} ByteBitsBinary(bytes: seq<nat>)
    ensures StringToNumber(ByteBits(bytes), 2).Some?
    decreases |bytes|
  {
    if bytes != [] {
      var pre := bytes[..|bytes| - 1];
      var t := PadStart(ToDigits(bytes[|bytes| - 1], 2), 8, '0');
      ByteBitsBinary(pre);
      PaddedByteValue(bytes[|bytes| - 1]);
      assert ByteBits(bytes) == ByteBits(pre) + t;
      DigitValuesConcat(ByteBits(pre), t, 2);
    }
  }

  /** bytesToNumber of bytes in 0..255 is the sum of byte_k * 256^(len-1-k)
      (convert-bases.mjs:77-86). */
  lemma {:induction false} ByteBitsValue(bytes: seq<nat>)
    requires forall k :: 0 <= k < |bytes| ==> bytes[k] < 256
    ensures |ByteBits(bytes)| == 8 * |bytes|
    ensures StringToNumber(ByteBits(bytes), 2) == Some(Positional(bytes, 256))
    decreases |bytes|
  {
    if bytes != [] {
      var pre := bytes[..|bytes| - 1];
      var b := bytes[|bytes| - 1];
      ByteBitsValue(pre);
      ByteDigits(b);
      ByteBitsSnoc(bytes, ByteBits(pre), Positional(pre, 256));
    }
  }

  /** The step of ByteBitsValue: one more byte on the right. */
  lemma ByteBitsSnoc(bytes: seq<nat>, s: string, v: nat)
    requires bytes != []
    requires s == ByteBits(bytes[..|bytes| - 1]) && v == Positional(bytes[..|bytes| - 1], 256)
    requires StringToNumber(s, 2) == Some(v)
    requires |PadStart(ToDigits(bytes[|bytes| - 1], 2), 8, '0')| == 8
    requires StringToNumber(PadStart(ToDigits(bytes[|bytes| - 1], 2), 8, '0'), 2) == Some(bytes[|bytes| - 1])
    ensures ByteBits(bytes) == s + PadStart(ToDigits(bytes[|bytes| - 1], 2), 8, '0')
    ensures StringToNumber(ByteBits(bytes), 2) == Some(Positional(bytes, 256))
  {
    var t := PadStart(ToDigits(bytes[|bytes| - 1], 2), 8, '0');
    AppendByteString(s, v, t, bytes[|bytes| - 1]);
    SameValue(ByteBits(bytes), s + t, Positional(bytes, 256), v * 256 + bytes[|bytes| - 1]);
  }

  lemma SameValue(x: string, y: string, m: nat, n: nat)
    requires x == y && m == n && StringToNumber(y, 2) == Some(n)
    ensures StringToNumber(x, 2) == Some(m)
  {
  }

  /** Appending eight binary digits worth `b` multiplies by 256 and adds `b`. */
  lemma AppendByteString(s: string, v: nat, t: string, b: nat)
    requires StringToNumber(s, 2) == Some(v)
    requires |t| == 8 && StringToNumber(t, 2) == Some(b)
    ensures StringToNumber(s + t, 2) == Some(v * 256 + b)
  {
    DigitValuesConcat(s, t, 2);
    var ds, dt := DigitValues(s, 2).value, DigitValues(t, 2).value;
    assert Positional(ds, 2) == v && Positional(dt, 2) == b && |dt| == 8;
    assert DigitValues(s + t, 2) == Some(ds + dt);
    PositionalConcat(ds, dt, 2);
    assert Pow(2, 8) == 256;
    assert Positional(ds + dt, 2) == v * 256 + b;
  }

  lemma ByteBitsValueWhenBytes(bytes: seq<nat>)
    ensures (forall k :: 0 <= k < |bytes| ==> bytes[k] < 256) ==>
      StringToNumber(ByteBits(bytes), 2) == Some(Positional(bytes, 256))
  {
    if forall k :: 0 <= k < |bytes| ==> bytes[k] < 256 {
      ByteBitsValue(bytes);
    }
  }
}
