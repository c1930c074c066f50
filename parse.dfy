/**
 * Parser combinators over an immutable parse result (parse.mjs).
 *
 * A parser maps the unparsed input to a `ParseResult`: whether it failed,
 * what it parsed and what input is left. Parsed values are JavaScript
 * values of any shape; `Value<A>` models them as undefined, a matched
 * string, an array, or a value `A` of the grammar built on top.
 */
module Parse {
  import opened Results

  /** A parsed value: `undefined`, a matched string, an array of values,
      or a grammar-specific value. */
  datatype Value<A> = Undefined | Text(text: string) | List(items: seq<Value<A>>) | Atom(atom: A)

  /** `ParseResult`: `failed`, `parsed` and `unparsed`. */
  datatype ParseResult<A> = ParseResult(failed: bool, parsed: Value<A>, unparsed: string)
  {
    /** `map(f)`: a failed result is returned as it is; otherwise `f` sees
        the parsed value and the rest of the input and builds the result. */
    function Map(f: (Value<A>, string) -> ParseResult<A>): (r: ParseResult<A>)
      ensures failed ==> r == this
      ensures !failed ==> r == f(parsed, unparsed)
    {
      if failed then this else f(parsed, unparsed)
    }

    /** `mapParsed(f)`: transform the parsed value of a successful result. */
    function MapParsed(f: Value<A> -> Value<A>): (r: ParseResult<A>)
      ensures failed ==> r == this
      ensures !failed ==> !r.failed && r.unparsed == unparsed && r.parsed == f(parsed)
    {
      if failed then this else ParseResult(false, f(parsed), unparsed)
    }

    /** `mapUnparsed(f)`: transform the rest of the input of a successful result. */
    function MapUnparsed(f: string -> string): (r: ParseResult<A>)
      ensures failed ==> r == this
      ensures !failed ==> !r.failed && r.parsed == parsed && r.unparsed == f(unparsed)
    {
      if failed then this else ParseResult(false, parsed, f(unparsed))
    }
  }

  type Parser<A> = string -> ParseResult<A>

  /** A failed result that leaves `input` unparsed. */
  function Failure<A>(input: string): ParseResult<A>
  {
    ParseResult(true, Undefined, input)
  }

  // ---------------------------------------------------------------------
  // Suffixes, soundness and progress
  // ---------------------------------------------------------------------

  predicate IsSuffix(t: string, s: string)
  {
    |t| <= |s| && s[|s| - |t|..] == t
  }

  lemma SuffixTransitive(a: string, b: string, c: string)
    requires IsSuffix(a, b) && IsSuffix(b, c)
    ensures IsSuffix(a, c)
  {
    assert c[|c| - |a|..] == c[|c| - |b|..][|b| - |a|..];
  }

  /** A parser is sound when what it leaves unparsed, failed or not, is a
      suffix of its input. */
  ghost predicate Sound<A>(p: Parser<A>)
  {
    forall s :: SoundAt(p, s)
  }

  ghost predicate SoundAt<A>(p: Parser<A>, s: string)
  {
    IsSuffix(p(s).unparsed, s)
  }

  /** A parser makes progress when every success consumes input. */
  ghost predicate Consuming<A>(p: Parser<A>)
  {
    forall s :: ConsumingAt(p, s)
  }

  ghost predicate ConsumingAt<A>(p: Parser<A>, s: string)
  {
    !p(s).failed ==> |p(s).unparsed| < |s|
  }

  ghost predicate AllSound<A>(ps: seq<Parser<A>>)
  {
    forall i :: 0 <= i < |ps| ==> Sound(ps[i])
  }

  ghost predicate AllConsuming<A>(ps: seq<Parser<A>>)
  {
    forall i :: 0 <= i < |ps| ==> Consuming(ps[i])
  }

  // ---------------------------------------------------------------------
  // Patterns: the regular expressions the grammar matches with
  // ---------------------------------------------------------------------

  /** The regular expressions used with `match`. */
  datatype Pattern =
    | Literal(text: string)          // a string, matched exactly
    | Keyword(spellings: seq<string>) // an `/i` alternation, spellings in the order the engine tries them
    | Digits                         // /\d+/
    | Word                           // /\w+/
    | Space                          // /\s+/
    | LineComment                    // /;.+$/m

  /** The character classes `\d`, `\w`, `\s` and `.` (no line terminator). */
  datatype CharClass = DigitClass | WordClass | SpaceClass | LineClass

  predicate InClass(c: char, cls: CharClass)
  {
    match cls
    case DigitClass => '0' <= c <= '9'
    case WordClass => 'a' <= c <= 'z' || 'A' <= c <= 'Z' || '0' <= c <= '9' || c == '_'
    case SpaceClass =>
      c == '\t' || c == '\n' || c == '\U{000B}' || c == '\U{000C}' || c == '\r' || c == ' ' ||
      c == '\U{00A0}' || c == '\U{1680}' || '\U{2000}' <= c <= '\U{200A}' ||
      c == '\U{2028}' || c == '\U{2029}' || c == '\U{202F}' || c == '\U{205F}' ||
      c == '\U{3000}' || c == '\U{FEFF}'
    case LineClass => !(c == '\n' || c == '\r' || c == '\U{2028}' || c == '\U{2029}')
  }

  /** The length of the longest prefix of `s` in `cls` (a greedy `+` or `*`). */
  function RunLength(s: string, cls: CharClass): (n: nat)
    ensures n <= |s|
    ensures forall i :: 0 <= i < n ==> InClass(s[i], cls)
    ensures n < |s| ==> !InClass(s[n], cls)
  {
    if s == [] || !InClass(s[0], cls) then 0 else 1 + RunLength(s[1..], cls)
  }

  /** ASCII case folding, as the `/i` flag applies it to ASCII patterns. */
  function Lower(c: char): char
  {
    if 'A' <= c <= 'Z' then (c as int + 32) as char else c
  }

  /** `s` starts with `w`, ignoring ASCII case. */
  predicate StartsWithFolded(s: string, w: string)
  {
    |w| <= |s| && forall i :: 0 <= i < |w| ==> Lower(s[i]) == Lower(w[i])
  }

  /** The first spelling, in order, that starts `s`. */
  function FirstSpelling(spellings: seq<string>, s: string): (r: Option<nat>)
    ensures r.Some? ==> r.value < |spellings| && StartsWithFolded(s, spellings[r.value])
    ensures r.Some? ==> forall j :: 0 <= j < r.value ==> !StartsWithFolded(s, spellings[j])
    ensures r.None? ==> forall j :: 0 <= j < |spellings| ==> !StartsWithFolded(s, spellings[j])
  {
    if spellings == [] then None
    else if StartsWithFolded(s, spellings[0]) then Some(0)
    else match FirstSpelling(spellings[1..], s)
      case None => None
      case Some(j) => Some(j + 1)
  }

  /** The length of the match of `pat` at the start of `s`, if there is
      one. A match found further on does not count: `match` only accepts
      a match at index 0. */
  function MatchLength(pat: Pattern, s: string): (r: Option<nat>)
    ensures r.Some? ==> r.value <= |s|
  {
    match pat
    case Literal(t) => if |t| <= |s| && s[..|t|] == t then Some(|t|) else None
    case Keyword(spellings) =>
      (match FirstSpelling(spellings, s)
       case None => None
       case Some(i) => Some(|spellings[i]|))
    case Digits => var n := RunLength(s, DigitClass); if n > 0 then Some(n) else None
    case Word => var n := RunLength(s, WordClass); if n > 0 then Some(n) else None
    case Space => var n := RunLength(s, SpaceClass); if n > 0 then Some(n) else None
    case LineComment =>
      if s != [] && s[0] == ';' then
        var n := RunLength(s[1..], LineClass); if n > 0 then Some(1 + n) else None
      else None
  }

  /** A pattern that never matches the empty string. */
  predicate NonEmpty(pat: Pattern)
  {
    match pat
    case Literal(t) => t != []
    case Keyword(spellings) => forall i :: 0 <= i < |spellings| ==> spellings[i] != []
    case _ => true
  }

  /** What each pattern matches: a run pattern takes the longest run of at
      least one character of its class, a comment takes `;` and the rest of
      the line (at least one character), a keyword the first spelling that
      fits. */
  lemma MatchLengthMeaning(pat: Pattern, s: string)
    ensures pat.Digits? ==> (MatchLength(pat, s).Some? <==> s != [] && InClass(s[0], DigitClass))
    ensures pat.Space? ==> (MatchLength(pat, s).Some? <==> s != [] && InClass(s[0], SpaceClass))
    ensures pat.Word? ==> (MatchLength(pat, s).Some? <==> s != [] && InClass(s[0], WordClass))
    ensures (pat.Digits? || pat.Space? || pat.Word?) && MatchLength(pat, s).Some? ==>
      var n := MatchLength(pat, s).value;
      var cls := if pat.Digits? then DigitClass else if pat.Space? then SpaceClass else WordClass;
      (forall i :: 0 <= i < n ==> InClass(s[i], cls)) && (n < |s| ==> !InClass(s[n], cls))
    ensures pat.LineComment? ==> (MatchLength(pat, s).Some? <==>
      |s| >= 2 && s[0] == ';' && InClass(s[1], LineClass))
    ensures pat.LineComment? && MatchLength(pat, s).Some? ==>
      var n := MatchLength(pat, s).value;
      (forall i :: 1 <= i < n ==> InClass(s[i], LineClass)) && (n < |s| ==> !InClass(s[n], LineClass))
    ensures pat.Keyword? ==> (MatchLength(pat, s).Some? <==>
      exists j :: 0 <= j < |pat.spellings| && StartsWithFolded(s, pat.spellings[j]))
  {
    if pat.LineComment? && MatchLength(pat, s).Some? {
      var n := MatchLength(pat, s).value;
      var rest := s[1..];
      forall i | 1 <= i < n
        ensures InClass(s[i], LineClass)
      {
        assert s[i] == rest[i - 1];
      }
    }
    if pat.Keyword? && FirstSpelling(pat.spellings, s).Some? {
      var j := FirstSpelling(pat.spellings, s).value;
      assert StartsWithFolded(s, pat.spellings[j]);
    }
  }

  // ---------------------------------------------------------------------
  // The combinators
  // ---------------------------------------------------------------------

  /** `match(regex, value)` at the start of `s`: on success the parsed
      value is `value`, or the matched text when no value is given. */
  function MatchAt<A>(pat: Pattern, value: Value<A>, s: string): (r: ParseResult<A>)
    ensures r.failed <==> MatchLength(pat, s).None?
    ensures r.failed ==> r == Failure(s)
    ensures !r.failed ==> r.unparsed == s[MatchLength(pat, s).value..]
    ensures !r.failed ==> r.parsed == if value.Undefined? then Text(s[..MatchLength(pat, s).value]) else value
  {
    match MatchLength(pat, s)
    case None => Failure(s)
    case Some(n) => ParseResult(false, if value.Undefined? then Text(s[..n]) else value, s[n..])
  }

  /** `match(regex, value)`. */
  function Match<A>(pat: Pattern, value: Value<A>): (p: Parser<A>)
    ensures Sound(p)
    ensures NonEmpty(pat) ==> Consuming(p)
  {
    MatchSound(pat, value);
    s => MatchAt(pat, value, s)
  }

  lemma MatchSound<A>(pat: Pattern, value: Value<A>)
    ensures forall s :: IsSuffix(MatchAt(pat, value, s).unparsed, s)
    ensures NonEmpty(pat) ==> forall s :: !MatchAt(pat, value, s).failed ==> |MatchAt(pat, value, s).unparsed| < |s|
  {
    forall s | !MatchAt(pat, value, s).failed && NonEmpty(pat)
      ensures |MatchAt(pat, value, s).unparsed| < |s|
    {
      if pat.Keyword? {
        var i := FirstSpelling(pat.spellings, s).value;
        assert pat.spellings[i] != [];
      }
    }
  }

  /** `optional(p)`: never fails; on failure nothing is consumed and the
      parsed value is undefined. */
  function OptionalAt<A>(p: Parser<A>, s: string): (r: ParseResult<A>)
    ensures !r.failed
    ensures !p(s).failed ==> r == p(s)
    ensures p(s).failed ==> r == ParseResult(false, Undefined, s)
  {
    var r := p(s);
    if !r.failed then r else ParseResult(false, Undefined, s)
  }

  function Optional<A>(p: Parser<A>): (q: Parser<A>)
    ensures Sound(p) ==> Sound(q)
  {
    OptionalKeeps(p);
    s => OptionalAt(p, s)
  }

  lemma OptionalKeeps<A>(p: Parser<A>)
    ensures Sound(p) ==> forall s :: IsSuffix(OptionalAt(p, s).unparsed, s)
  {
    forall s | Sound(p) ensures IsSuffix(OptionalAt(p, s).unparsed, s) {
      assert SoundAt(p, s);
      if p(s).failed {
        assert s[|s| - |s|..] == s;
      }
    }
  }

  /** `either(...ps)` as the spec of its loop: the first success, in order. */
  function EitherAt<A>(ps: seq<Parser<A>>, s: string): ParseResult<A>
  {
    if ps == [] then Failure(s)
    else if !ps[0](s).failed then ps[0](s)
    else EitherAt(ps[1..], s)
  }

  function Either<A>(ps: seq<Parser<A>>): (p: Parser<A>)
    ensures AllSound(ps) ==> Sound(p)
    ensures AllConsuming(ps) ==> Consuming(p)
  {
    EitherKeeps(ps);
    s => EitherAt(ps, s)
  }

  /** `either` returns the result of the first parser that succeeds, and
      fails leaving the input untouched when none does. */
  lemma {:induction false} EitherFirst<A>(ps: seq<Parser<A>>, s: string)
    ensures EitherAt(ps, s).failed <==> forall i :: 0 <= i < |ps| ==> ps[i](s).failed
    ensures EitherAt(ps, s).failed ==> EitherAt(ps, s) == Failure(s)
    ensures !EitherAt(ps, s).failed ==>
      exists i :: 0 <= i < |ps| && EitherAt(ps, s) == ps[i](s) && (forall j :: 0 <= j < i ==> ps[j](s).failed)
    decreases |ps|
  {
    if ps != [] && ps[0](s).failed {
      EitherFirst(ps[1..], s);
      if !EitherAt(ps, s).failed {
        var i :| 0 <= i < |ps[1..]| && EitherAt(ps[1..], s) == ps[1..][i](s) &&
          forall j :: 0 <= j < i ==> ps[1..][j](s).failed;
        assert EitherAt(ps, s) == ps[i + 1](s);
        assert forall j :: 0 <= j < i + 1 ==> ps[j](s).failed by {
          forall j | 0 <= j < i + 1 ensures ps[j](s).failed {
            if j > 0 { assert ps[j] == ps[1..][j - 1]; }
          }
        }
      } else {
        forall i | 0 <= i < |ps| ensures ps[i](s).failed {
          if i > 0 { assert ps[i] == ps[1..][i - 1]; }
        }
      }
    } else if ps != [] {
      assert EitherAt(ps, s) == ps[0](s);
    }
  }

  lemma {:induction false} EitherKeeps<A>(ps: seq<Parser<A>>)
    ensures AllSound(ps) ==> forall s :: IsSuffix(EitherAt(ps, s).unparsed, s)
    ensures AllConsuming(ps) ==> forall s :: !EitherAt(ps, s).failed ==> |EitherAt(ps, s).unparsed| < |s|
  {
    forall s ensures AllSound(ps) ==> IsSuffix(EitherAt(ps, s).unparsed, s)
      ensures AllConsuming(ps) ==> !EitherAt(ps, s).failed ==> |EitherAt(ps, s).unparsed| < |s|
    {
      EitherFirst(ps, s);
      if !EitherAt(ps, s).failed {
        var i :| 0 <= i < |ps| && EitherAt(ps, s) == ps[i](s);
        if AllSound(ps) {
          assert SoundAt(ps[i], s);
        }
        if AllConsuming(ps) {
          assert ConsumingAt(ps[i], s);
        }
      } else {
        assert s[|s| - |s|..] == s;
      }
    }
  }

  /** The loop of `either`. */
  method RunEither<A>(ps: seq<Parser<A>>, input: string) returns (r: ParseResult<A>)
    ensures r == EitherAt(ps, input)
  {
    var k := 0;
    while k < |ps|
      invariant 0 <= k <= |ps|
      invariant EitherAt(ps[k..], input) == EitherAt(ps, input)
    {
      var result := ps[k](input);
      if !result.failed {
        return result;
      }
      assert ps[k..][1..] == ps[k + 1..];
      k := k + 1;
    }
    r := Failure(input);
  }

  /** `all(...ps)` as the spec of its loop: thread the rest of the input
      through the parsers, collecting what they parse after `acc`. */
  function AllFrom<A>(ps: seq<Parser<A>>, s: string, acc: seq<Value<A>>): ParseResult<A>
  {
    if ps == [] then ParseResult(false, List(acc), s)
    else
      var r := ps[0](s);
      if r.failed then r else AllFrom(ps[1..], r.unparsed, acc + [r.parsed])
  }

  function All<A>(ps: seq<Parser<A>>): (p: Parser<A>)
    ensures AllSound(ps) ==> Sound(p)
    ensures AllSound(ps) && ps != [] && Consuming(ps[0]) ==> Consuming(p)
  {
    AllKeeps(ps);
    s => AllFrom(ps, s, [])
  }

  /** `all` succeeds with one parsed value per parser, after those already
      collected, or returns the failed result of the parser that failed. */
  lemma {:induction false} AllShape<A>(ps: seq<Parser<A>>, s: string, acc: seq<Value<A>>)
    ensures !AllFrom(ps, s, acc).failed ==>
      AllFrom(ps, s, acc).parsed.List? &&
      |AllFrom(ps, s, acc).parsed.items| == |acc| + |ps| &&
      AllFrom(ps, s, acc).parsed.items[..|acc|] == acc
    ensures AllFrom(ps, s, acc).failed ==>
      exists i, t :: 0 <= i < |ps| && AllFrom(ps, s, acc) == ps[i](t)
    ensures ps != [] && ps[0](s).failed ==> AllFrom(ps, s, acc) == ps[0](s)
    ensures ps != [] && !AllFrom(ps, s, acc).failed ==> AllFrom(ps, s, acc).parsed.items[|acc|] == ps[0](s).parsed
    decreases |ps|
  {
    if ps != [] {
      var r := ps[0](s);
      if !r.failed {
        AllShape(ps[1..], r.unparsed, acc + [r.parsed]);
        if AllFrom(ps, s, acc).failed {
          var i, t :| 0 <= i < |ps[1..]| && AllFrom(ps[1..], r.unparsed, acc + [r.parsed]) == ps[1..][i](t);
          assert ps[1..][i] == ps[i + 1];
        } else {
          var items := AllFrom(ps, s, acc).parsed.items;
          assert items[..|acc| + 1] == acc + [r.parsed];
          assert items[..|acc|] == (acc + [r.parsed])[..|acc|];
        }
      }
    }
  }

  /** `all` of two parsers, spelled out. */
  lemma AllOfTwo<A>(p: Parser<A>, q: Parser<A>, s: string)
    ensures AllFrom([p, q], s, []) ==
      if p(s).failed then p(s)
      else if q(p(s).unparsed).failed then q(p(s).unparsed)
      else ParseResult(false, List([p(s).parsed, q(p(s).unparsed).parsed]), q(p(s).unparsed).unparsed)
  {
    var ps := [p, q];
    assert ps[0] == p && ps[1..] == [q];
    if !p(s).failed {
      var r := p(s);
      var none: seq<Value<A>> := [];
      assert none + [r.parsed] == [r.parsed];
      assert AllFrom(ps, s, []) == AllFrom([q], r.unparsed, [r.parsed]);
      assert [q][1..] == [];
      if !q(r.unparsed).failed {
        var t := q(r.unparsed);
        assert [r.parsed] + [t.parsed] == [r.parsed, t.parsed];
        assert AllFrom([q], r.unparsed, [r.parsed]) == AllFrom([], t.unparsed, [r.parsed, t.parsed]);
      }
    }
  }

  lemma {:induction false} AllFromKeeps<A>(ps: seq<Parser<A>>, s: string, acc: seq<Value<A>>)
    requires AllSound(ps)
    ensures IsSuffix(AllFrom(ps, s, acc).unparsed, s)
    ensures ps != [] && Consuming(ps[0]) && !AllFrom(ps, s, acc).failed ==> |AllFrom(ps, s, acc).unparsed| < |s|
    decreases |ps|
  {
    if ps != [] {
      var r := ps[0](s);
      assert Sound(ps[0]);
      assert SoundAt(ps[0], s);
      assert Consuming(ps[0]) ==> ConsumingAt(ps[0], s);
      if !r.failed {
        assert AllSound(ps[1..]) by {
          forall i | 0 <= i < |ps[1..]| ensures Sound(ps[1..][i]) {
            assert ps[1..][i] == ps[i + 1];
          }
        }
        AllFromKeeps(ps[1..], r.unparsed, acc + [r.parsed]);
        SuffixTransitive(AllFrom(ps, s, acc).unparsed, r.unparsed, s);
      }
    } else {
      assert s[|s| - |s|..] == s;
    }
  }

  lemma AllKeeps<A>(ps: seq<Parser<A>>)
    ensures AllSound(ps) ==> forall s :: IsSuffix(AllFrom(ps, s, []).unparsed, s)
    ensures AllSound(ps) && ps != [] && Consuming(ps[0]) ==>
      forall s :: !AllFrom(ps, s, []).failed ==> |AllFrom(ps, s, []).unparsed| < |s|
  {
    if AllSound(ps) {
      forall s ensures IsSuffix(AllFrom(ps, s, []).unparsed, s)
        ensures ps != [] && Consuming(ps[0]) && !AllFrom(ps, s, []).failed ==> |AllFrom(ps, s, []).unparsed| < |s|
      {
        AllFromKeeps(ps, s, []);
      }
    }
  }

  /** The loop of `all`. */
  method RunAll<A>(ps: seq<Parser<A>>, input: string) returns (r: ParseResult<A>)
    ensures r == AllFrom(ps, input, [])
  {
    var parsed: seq<Value<A>> := [];
    var unparsed := input;
    var k := 0;
    while k < |ps|
      invariant 0 <= k <= |ps|
      invariant AllFrom(ps[k..], unparsed, parsed) == AllFrom(ps, input, [])
    {
      var result := ps[k](unparsed);
      if result.failed {
        return result;
      }
      assert ps[k..][1..] == ps[k + 1..];
      parsed := parsed + [result.parsed];
      unparsed := result.unparsed;
      k := k + 1;
    }
    r := ParseResult(false, List(parsed), unparsed);
  }

  /** `many(p)` as the spec of its loop: apply `p` until it fails. The
      source loops for ever on a parser that succeeds without consuming;
      the model asks for a consuming parser. */
  function ManyFrom<A>(p: Parser<A>, s: string, acc: seq<Value<A>>): ParseResult<A>
    requires Consuming(p)
    decreases |s|
  {
    var r := p(s);
    assert ConsumingAt(p, s);
    if r.failed then
      (if acc == [] then Failure(s) else ParseResult(false, List(acc), s))
    else ManyFrom(p, r.unparsed, acc + [r.parsed])
  }

  function Many<A>(p: Parser<A>): (q: Parser<A>)
    requires Consuming(p)
    ensures Consuming(q)
    ensures Sound(p) ==> Sound(q)
  {
    ManyKeeps(p);
    s => ManyFrom(p, s, [])
  }

  /** `many` fails exactly when the first application fails; otherwise it
      returns the values of every successful application, the first one
      first, and stops where `p` fails. */
  lemma {:induction false} ManyShape<A>(p: Parser<A>, s: string, acc: seq<Value<A>>)
    requires Consuming(p)
    ensures ManyFrom(p, s, acc).failed <==> acc == [] && p(s).failed
    ensures ManyFrom(p, s, acc).failed ==> ManyFrom(p, s, acc) == Failure(s)
    ensures !ManyFrom(p, s, acc).failed ==>
      ManyFrom(p, s, acc).parsed.List? &&
      |ManyFrom(p, s, acc).parsed.items| >= |acc| &&
      ManyFrom(p, s, acc).parsed.items[..|acc|] == acc
    ensures !ManyFrom(p, s, acc).failed ==> p(ManyFrom(p, s, acc).unparsed).failed
    ensures !p(s).failed ==>
      (|ManyFrom(p, s, acc).parsed.items| > |acc| && ManyFrom(p, s, acc).parsed.items[|acc|] == p(s).parsed)
    decreases |s|
  {
    var r := p(s);
    assert ConsumingAt(p, s);
    if !r.failed {
      ManyShape(p, r.unparsed, acc + [r.parsed]);
      var items := ManyFrom(p, s, acc).parsed.items;
      assert items[..|acc| + 1] == acc + [r.parsed];
      assert items[..|acc|] == (acc + [r.parsed])[..|acc|];
    }
  }

  lemma {:induction false} ManyFromKeeps<A>(p: Parser<A>, s: string, acc: seq<Value<A>>)
    requires Consuming(p)
    ensures Sound(p) ==> IsSuffix(ManyFrom(p, s, acc).unparsed, s)
    ensures acc == [] && !ManyFrom(p, s, acc).failed ==> |ManyFrom(p, s, acc).unparsed| < |s|
    decreases |s|
  {
    var r := p(s);
    assert ConsumingAt(p, s);
    if !r.failed {
      ManyFromKeeps(p, r.unparsed, acc + [r.parsed]);
      if Sound(p) {
        assert SoundAt(p, s);
        SuffixTransitive(ManyFrom(p, s, acc).unparsed, r.unparsed, s);
      }
      ManyUnparsedShorter(p, r.unparsed, acc + [r.parsed]);
    } else {
      assert s[|s| - |s|..] == s;
    }
  }

  lemma {:induction false} ManyUnparsedShorter<A>(p: Parser<A>, s: string, acc: seq<Value<A>>)
    requires Consuming(p)
    ensures |ManyFrom(p, s, acc).unparsed| <= |s|
    decreases |s|
  {
    var r := p(s);
    assert ConsumingAt(p, s);
    if !r.failed {
      ManyUnparsedShorter(p, r.unparsed, acc + [r.parsed]);
    }
  }

  lemma ManyKeeps<A>(p: Parser<A>)
    requires Consuming(p)
    ensures forall s :: !ManyFrom(p, s, []).failed ==> |ManyFrom(p, s, []).unparsed| < |s|
    ensures Sound(p) ==> forall s :: IsSuffix(ManyFrom(p, s, []).unparsed, s)
  {
    forall s ensures !ManyFrom(p, s, []).failed ==> |ManyFrom(p, s, []).unparsed| < |s|
      ensures Sound(p) ==> IsSuffix(ManyFrom(p, s, []).unparsed, s)
    {
      ManyFromKeeps(p, s, []);
    }
  }

  /** The loop of `many`. */
  method RunMany<A>(p: Parser<A>, input: string) returns (r: ParseResult<A>)
    requires Consuming(p)
    ensures r == ManyFrom(p, input, [])
  {
    var parsed: seq<Value<A>> := [];
    var unparsed := input;
    while true
      invariant ManyFrom(p, unparsed, parsed) == ManyFrom(p, input, [])
      decreases |unparsed|
    {
      var result := p(unparsed);
      assert ConsumingAt(p, unparsed);
      if result.failed {
        if |parsed| > 0 {
          break;
        }
        return Failure(unparsed);
      }
      parsed := parsed + [result.parsed];
      unparsed := result.unparsed;
    }
    r := ParseResult(false, List(parsed), unparsed);
  }

  /** `input => p(input).mapParsed(f)`, the way the grammar post-processes
      a parser's value. */
  function Mapped<A>(p: Parser<A>, f: Value<A> -> Value<A>): (q: Parser<A>)
    ensures Sound(p) ==> Sound(q)
    ensures Consuming(p) ==> Consuming(q)
  {
    MappedKeeps(p, f);
    s => p(s).MapParsed(f)
  }

  lemma MappedKeeps<A>(p: Parser<A>, f: Value<A> -> Value<A>)
    ensures Sound(p) ==> forall s :: IsSuffix(p(s).MapParsed(f).unparsed, s)
    ensures Consuming(p) ==> forall s :: !p(s).MapParsed(f).failed ==> |p(s).MapParsed(f).unparsed| < |s|
  {
    forall s ensures Sound(p) ==> IsSuffix(p(s).MapParsed(f).unparsed, s)
      ensures Consuming(p) ==> !p(s).MapParsed(f).failed ==> |p(s).MapParsed(f).unparsed| < |s|
    {
      if Sound(p) {
        assert SoundAt(p, s);
      }
      if Consuming(p) {
        assert ConsumingAt(p, s);
      }
    }
  }
}
