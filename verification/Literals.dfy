/**
 Integer literals: reading the digits (src/comp/comp_value.cc, parse_numeric_value), splitting
 off the suffix (src/analyzer/types_literal.cc, classify_suffix) and the range check
 (int_literal_fits), tied to the patterns the evaluator stores.
 */
module Literals {
  import opened Machine
  import opened Lang
  import opened Patterns
  import opened Semantics

  const SUFFIXES: seq<string> :=
    ["isize", "usize", "i8", "i16", "i32", "i64", "u8", "u16", "u32", "u64", "f32", "f64"]

  // ----- digits ---------------------------------------------------------------------------------

  /** The value of a digit in any base; -1 for a character the parse passes over. */
  function DigitValue(c: char): (d: int)
    ensures -1 <= d <= 15
  {
    if IsDigit(c) then c as int - '0' as int
    else if 'a' <= c <= 'f' then c as int - 'a' as int + 10
    else if 'A' <= c <= 'F' then c as int - 'A' as int + 10
    else -1
  }

  /** The number the digits write, without a bound. */
  function Magnitude(base: nat, s: string): nat {
    if s == [] then 0
    else
      var front, d := Magnitude(base, s[..|s| - 1]), DigitValue(s[|s| - 1]);
      if d < 0 then front else front * base + d
  }

  lemma ProductOrder(a: nat, b: nat, base: nat)
    requires a <= b
    ensures a * base <= b * base
  {
  }

  lemma StepTest(value: nat, base: nat, d: nat)
    requires base > 0 && d < WORD
    ensures value > (WORD - 1 - d) / base <==> value * base + d >= WORD
  {
    var room := WORD - 1 - d;
    var r := room / base;
    Residue(room, base);
    if value <= r { ProductOrder(value, r, base); } else { ProductOrder(r + 1, value, base); }
    Distribute(r, 1, base);
    assert r * base <= room < r * base + base;
  }

  lemma StepWraps(m: nat, base: nat, d: nat)
    ensures (m % WORD * base + d) % WORD == (m * base + d) % WORD
  {
    var q, v := m / WORD, m % WORD;
    assert m == q * WORD + v;
    assert m * base == v * base + (q * base) * WORD;
    ModShift(v * base + d, q * base, WORD);
  }

  lemma StepGrows(m: nat, base: nat, d: nat)
    requires base > 0 && m >= WORD
    ensures m * base + d >= WORD
  {
    assert m * base >= m;
  }

  /** The loop wraps at 64 bits, and its flag rises exactly when the number does not fit them. */
  method ParseDigits(base: nat, s: string) returns (value: nat, overflow: bool)
    requires base > 0
    ensures value == Magnitude(base, s) % WORD
    ensures overflow <==> Magnitude(base, s) >= WORD
  {
    value, overflow := 0, false;
    var i := 0;
    while i < |s|
      invariant 0 <= i <= |s|
      invariant value == Magnitude(base, s[..i]) % WORD
      invariant overflow <==> Magnitude(base, s[..i]) >= WORD
    {
      ghost var m := Magnitude(base, s[..i]);
      assert s[..i + 1][..i] == s[..i];
      var d := DigitValue(s[i]);
      if d >= 0 {
        StepTest(value, base, d);
        StepWraps(m, base, d);
        if m >= WORD { StepGrows(m, base, d); }
        if value > (WORD - 1 - d) / base { overflow := true; }
        value := (value * base + d) % WORD;
      }
      i := i + 1;
    }
    assert s[..i] == s;
  }

  // ----- digits as they are written -----------------------------------------------------------------

  const LOWER: string := "0123456789abcdef"
  const UPPER: string := "0123456789ABCDEF"

  /** A digit's value is its place in either alphabet; any other character has none. */
  lemma DigitsAre(c: char)
    ensures forall d :: 0 <= d < 16 ==> DigitValue(LOWER[d]) == d && DigitValue(UPPER[d]) == d
    ensures DigitValue(c) < 0 <==> c !in LOWER && c !in UPPER
  {
    assert forall d :: 0 <= d < 16 ==> DigitValue(LOWER[d]) == d && DigitValue(UPPER[d]) == d;
    if IsDigit(c) {
      assert LOWER[c as int - '0' as int] == c;
    } else if 'a' <= c <= 'f' {
      assert LOWER[c as int - 'a' as int + 10] == c;
    } else if 'A' <= c <= 'F' {
      assert UPPER[c as int - 'A' as int + 10] == c;
    }
  }

  /** A number written in a base, in small or capital letters. */
  function Written(base: nat, capital: bool, n: nat): (s: string)
    requires 2 <= base <= 16
  {
    var d := (if capital then UPPER else LOWER)[n % base];
    if n < base then [d] else Written(base, capital, n / base) + [d]
  }

  lemma DigitAdded(base: nat, front: string, capital: bool, d: nat)
    requires d < 16
    ensures Magnitude(base, front + [(if capital then UPPER else LOWER)[d]]) == Magnitude(base, front) * base + d
  {
    DigitsAre('_');
    hide DigitValue;
    var s := front + [(if capital then UPPER else LOWER)[d]];
    assert s[..|s| - 1] == front;
  }

  lemma LastDigit(base: nat, n: nat, q: nat, d: nat)
    requires base >= 2 && q == n / base && d == n % base
    ensures n == q * base + d && d < base && (n < base ==> q == 0 && d == n) && (n >= base ==> q < n)
  {
    Residue(n, base);
    Distribute(0, q, base);
    var p := q * base;
    if q > 0 {
      ProductOrder(1, q, base);
      ProductOrder(2, base, q);
    }
  }

  lemma WrittenSplits(base: nat, capital: bool, n: nat, q: nat, d: nat)
    requires 2 <= base <= 16 && q == n / base && d == n % base && d < base
    ensures Written(base, capital, n) ==
      (if n < base then "" else Written(base, capital, q)) + [(if capital then UPPER else LOWER)[d]]
  {
  }

  /** The digits of a number mean that number. */
  lemma {:induction false} WrittenIsRead(base: nat, capital: bool, n: nat)
    requires 2 <= base <= 16
    ensures Magnitude(base, Written(base, capital, n)) == n
    decreases n
  {
    var q, d := n / base, n % base;
    LastDigit(base, n, q, d);
    WrittenSplits(base, capital, n, q, d);
    NoDigits(base);
    if n >= base { WrittenIsRead(base, capital, q); }
    hide Magnitude, Written;
    DigitAdded(base, if n < base then "" else Written(base, capital, q), capital, d);
  }

  lemma NoDigits(base: nat)
    ensures Magnitude(base, "") == 0
  {
  }

  /** An underscore among the digits means nothing. */
  lemma UnderscoreMeansNothing(base: nat, s: string)
    ensures Magnitude(base, s + "_") == Magnitude(base, s)
  {
    assert (s + "_")[..|s|] == s;
  }

  // ----- what the parse takes for suffix and prefix -------------------------------------------------

  predicate EndsWith(s: string, tail: string) { |s| > |tail| && s[|s| - |tail|..] == tail }

  /** The spelling with the first known suffix that ends it removed. */
  function Stripped(s: string, known: seq<string>): string {
    if known == [] then s
    else if EndsWith(s, known[0]) then s[..|s| - |known[0]|]
    else Stripped(s, known[1..])
  }

  function BaseMark(c: char): nat {
    if c == 'x' || c == 'X' then 16
    else if c == 'b' || c == 'B' then 2
    else if c == 'o' || c == 'O' then 8
    else 10
  }

  function BaseOf(s: string): (base: nat)
    ensures base > 0
  {
    if |s| > 2 && s[0] == '0' then BaseMark(s[1]) else 10
  }

  function Body(s: string): string { if BaseOf(s) == 10 then s else s[2..] }

  /** The number the parse reads out of a spelling. */
  function ReadAs(spelling: string): nat {
    var s := Stripped(spelling, SUFFIXES);
    Magnitude(BaseOf(s), Body(s))
  }

  method ParseNumericValue(spelling: string) returns (value: nat, overflow: bool)
    ensures value == ReadAs(spelling) % WORD
    ensures overflow <==> ReadAs(spelling) >= WORD
  {
    hide Magnitude;
    var s, i := spelling, 0;
    while i < |SUFFIXES| && !EndsWith(spelling, SUFFIXES[i])
      invariant 0 <= i <= |SUFFIXES|
      invariant Stripped(spelling, SUFFIXES[i..]) == Stripped(spelling, SUFFIXES)
    {
      assert SUFFIXES[i..][1..] == SUFFIXES[i + 1..];
      i := i + 1;
    }
    if i < |SUFFIXES| { s := spelling[..|spelling| - |SUFFIXES[i]|]; }
    value, overflow := ParseDigits(BaseOf(s), Body(s));
  }

  // ----- where the checker splits off the suffix ------------------------------------------------------

  predicate InBase(base: nat, c: char) {
    if IsDigit(c) then c as int - '0' as int < base else base == 16 && DigitValue(c) >= 0
  }

  /** The end of the digits: a decimal may carry a point, and an exponent that digits follow. */
  function ScanEnd(s: string, base: nat, at: nat): nat
    decreases |s| - at
  {
    if at >= |s| then at
    else if s[at] == '_' || InBase(base, s[at]) then ScanEnd(s, base, at + 1)
    else if base != 10 then at
    else if s[at] == '.' then ScanEnd(s, base, at + 1)
    else if s[at] == 'e' || s[at] == 'E' then
      var next := if at + 1 < |s| && (s[at + 1] == '+' || s[at + 1] == '-') then at + 2 else at + 1;
      if next >= |s| || !IsDigit(s[next]) then at else ScanEnd(s, base, next)
    else at
  }

  method DigitEnd(spelling: string) returns (end: nat)
    ensures end == ScanEnd(spelling, BaseOf(spelling), if BaseOf(spelling) == 10 then 0 else 2)
  {
    var base := BaseOf(spelling);
    end := if base == 10 then 0 else 2;
    ghost var start := end;
    while end < |spelling|
      invariant ScanEnd(spelling, base, end) == ScanEnd(spelling, base, start)
      decreases |spelling| - end
    {
      var c := spelling[end];
      if c == '_' || InBase(base, c) {
        end := end + 1;
      } else if base != 10 {
        break;
      } else if c == '.' {
        end := end + 1;
      } else if c == 'e' || c == 'E' {
        var next := end + 1;
        if next < |spelling| && (spelling[next] == '+' || spelling[next] == '-') { next := next + 1; }
        if next >= |spelling| || !IsDigit(spelling[next]) { break; }
        end := next;
      } else {
        break;
      }
    }
  }

  // ----- literals as they are written --------------------------------------------------------------------

  /** An integer literal: `mark` is the letter after the zero of a base other than ten. */
  datatype Numeral = Numeral(base: nat, mark: char, body: string, suffix: string)

  /** A hexadecimal literal has no float suffix: its letters would be digits. */
  ghost predicate WellFormed(l: Numeral) {
    && l.base in {2, 8, 10, 16} && l.body != []
    && (match l.base
        case 16 => l.mark == 'x' || l.mark == 'X'
        case 8 => l.mark == 'o' || l.mark == 'O'
        case 2 => l.mark == 'b' || l.mark == 'B'
        case _ => IsDigit(l.body[0]))
    && (forall i :: 0 <= i < |l.body| ==> l.body[i] == '_' || InBase(l.base, l.body[i]))
    && (l.suffix == "" || l.suffix in SUFFIXES)
    && (l.base == 16 ==> l.suffix != "f32" && l.suffix != "f64")
  }

  function Lead(l: Numeral): string { if l.base == 10 then "" else ['0', l.mark] }

  function Spell(l: Numeral): string { Lead(l) + l.body + l.suffix }

  predicate Tail(s: string, t: string) { |s| >= |t| && s[|s| - |t|..] == t }

  /** Hexadecimal digits that look like a float suffix. */
  predicate LooksFloat(l: Numeral) {
    l.base == 16 && l.suffix == "" && (Tail(l.body, "f32") || Tail(l.body, "f64"))
  }

  lemma SuffixLetters(t: string)
    requires t in SUFFIXES
    ensures |t| >= 2 && (t[0] == 'i' || t[0] == 'u' || t[0] == 'f')
    ensures t[0] == 'f' ==> t == "f32" || t == "f64"
  {
  }

  lemma BaseOfSpelling(l: Numeral)
    requires WellFormed(l)
    ensures BaseOf(Spell(l)) == l.base && BaseOf(Lead(l) + l.body) == l.base
  {
    if l.suffix != "" { SuffixLetters(l.suffix); }
    var s := Spell(l);
    if l.base == 10 {
      assert s[0] == l.body[0];
      if |s| > 2 {
        assert s[1] == if |l.body| > 1 then l.body[1] else l.suffix[0];
      }
      assert Lead(l) + l.body == l.body;
    } else {
      assert s[0] == '0' && s[1] == l.mark;
    }
  }

  lemma {:induction false} ScanDigits(s: string, base: nat, at: nat, end: nat)
    requires at <= end <= |s| && forall i :: at <= i < end ==> s[i] == '_' || InBase(base, s[i])
    ensures ScanEnd(s, base, at) == ScanEnd(s, base, end)
    decreases end - at
  {
    if at < end { ScanDigits(s, base, at + 1, end); }
  }

  /** The checker always splits a literal where its digits end. */
  lemma ClassifyReads(l: Numeral)
    requires WellFormed(l)
    ensures var s := Spell(l);
            var end := ScanEnd(s, BaseOf(s), if BaseOf(s) == 10 then 0 else 2);
      end <= |s| && s[..end] == Lead(l) + l.body && s[end..] == l.suffix
  {
    BaseOfSpelling(l);
    var s, start, end := Spell(l), |Lead(l)|, |Lead(l) + l.body|;
    assert s[..end] == Lead(l) + l.body;
    forall i | start <= i < end ensures s[i] == '_' || InBase(l.base, s[i]) { assert s[i] == l.body[i - start]; }
    ScanDigits(s, l.base, start, end);
    if l.suffix != "" {
      SuffixLetters(l.suffix);
      assert s[end] == l.suffix[0];
    }
  }

  // ----- literals with a point or an exponent --------------------------------------------------------------

  /** A decimal literal: digits, a point and more digits, an exponent of some digits with or without a sign. */
  datatype Floating = Floating(
    whole: string,
    fraction: Option<string>,
    exponent: Option<(char, string, string)>,
    suffix: string
  )

  predicate Digited(s: string) { forall i :: 0 <= i < |s| ==> s[i] == '_' || IsDigit(s[i]) }

  ghost predicate WellWritten(f: Floating) {
    && f.whole != "" && IsDigit(f.whole[0]) && Digited(f.whole)
    && (f.fraction.Some? ==> Digited(f.fraction.value))
    && (f.exponent.Some? ==>
          var (e, sign, digits) := f.exponent.value;
          && (e == 'e' || e == 'E') && (sign == "" || sign == "+" || sign == "-")
          && digits != "" && IsDigit(digits[0]) && Digited(digits))
    && (f.suffix == "" || f.suffix in SUFFIXES)
  }

  function Pointed(f: Floating): string { if f.fraction.Some? then "." + f.fraction.value else "" }

  function Raised(f: Floating): string {
    if f.exponent.Some? then [f.exponent.value.0] + f.exponent.value.1 + f.exponent.value.2 else ""
  }

  lemma {:induction false} ScanPast(before: string, digits: string, after: string)
    requires Digited(digits)
    ensures ScanEnd(before + digits + after, 10, |before|) == ScanEnd(before + digits + after, 10, |before + digits|)
  {
    var s := before + digits + after;
    forall i | |before| <= i < |before + digits| ensures s[i] == '_' || InBase(10, s[i]) {
      assert s[i] == digits[i - |before|];
    }
    ScanDigits(s, 10, |before|, |before + digits|);
  }

  lemma ScanPoint(before: string, f: Floating, after: string)
    requires WellWritten(f)
    ensures var s := before + Pointed(f) + after; ScanEnd(s, 10, |before|) == ScanEnd(s, 10, |before + Pointed(f)|)
  {
    if f.fraction.Some? {
      var s := before + Pointed(f) + after;
      assert s[|before|] == '.';
      assert before + "." + f.fraction.value + after == s;
      ScanPast(before + ".", f.fraction.value, after);
    }
  }

  lemma ScanExponent(before: string, f: Floating, after: string)
    requires WellWritten(f)
    ensures var s := before + Raised(f) + after; ScanEnd(s, 10, |before|) == ScanEnd(s, 10, |before + Raised(f)|)
  {
    if f.exponent.Some? {
      var (e, sign, digits) := f.exponent.value;
      var s, front := before + Raised(f) + after, before + [e] + sign;
      assert front + digits + after == s;
      assert s[|before|] == e && s[|front|] == digits[0];
      assert |sign| == 1 ==> s[|before| + 1] == sign[0];
      ScanPast(front, digits, after);
    }
  }

  lemma Regrouped(x: string, y: string, z: string, w: string)
    ensures "" + x + (y + z + w) == x + y + z + w
    ensures x + y + (z + w) == x + y + z + w
    ensures "" + x == x && (x + y + z + w)[|x + y + z|..] == w
  {
  }

  lemma ScanFloating(f: Floating)
    requires WellWritten(f)
    ensures var digits := f.whole + Pointed(f) + Raised(f); ScanEnd(digits + f.suffix, 10, 0) == |digits|
  {
    var x, y, z := f.whole, Pointed(f), Raised(f);
    ScanPast("", x, y + z + f.suffix);
    ScanPoint(x, f, z + f.suffix);
    ScanExponent(x + y, f, f.suffix);
    Regrouped(x, y, z, f.suffix);
    ScanSuffix(x + y + z + f.suffix, |x + y + z|, f.suffix);
    hide ScanEnd, Pointed, Raised, WellWritten;
  }

  lemma ScanStops(s: string, at: nat)
    requires at <= |s| && (at < |s| ==> s[at] == 'i' || s[at] == 'u' || s[at] == 'f')
    ensures ScanEnd(s, 10, at) == at
  {
  }

  lemma ScanSuffix(s: string, at: nat, suffix: string)
    requires at <= |s| && s[at..] == suffix && (suffix == "" || suffix in SUFFIXES)
    ensures ScanEnd(s, 10, at) == at
  {
    hide ScanEnd;
    if suffix != "" {
      SuffixLetters(suffix);
      assert s[at] == s[at..][0];
    }
    ScanStops(s, at);
  }

  /** The checker splits a decimal literal with a point or an exponent where its digits end, too. */
  lemma FloatingClassified(f: Floating)
    requires WellWritten(f)
    ensures var digits := f.whole + Pointed(f) + Raised(f);
            var s := digits + f.suffix;
      BaseOf(s) == 10 && ScanEnd(s, 10, 0) == |digits| && s[..|digits|] == digits && s[|digits|..] == f.suffix
  {
    ScanFloating(f);
    FloatingBase(f);
    hide ScanEnd, BaseOf, Pointed, Raised, WellWritten;
  }

  lemma FloatingBase(f: Floating)
    requires WellWritten(f)
    ensures BaseOf(f.whole + Pointed(f) + Raised(f) + f.suffix) == 10
  {
    var s := f.whole + Pointed(f) + Raised(f) + f.suffix;
    if f.suffix != "" { SuffixLetters(f.suffix); }
    assert s[0] == f.whole[0];
    if |s| > 2 {
      if |f.whole| > 1 { assert s[1] == f.whole[1]; }
      else if f.fraction.Some? { assert s[1] == '.'; }
      else if f.exponent.Some? { assert s[1] == f.exponent.value.0; }
      else { assert s[1] == f.suffix[0]; }
    }
  }

  /** An exponent needs a digit: without one its letter begins the suffix. */
  lemma NoExponent(f: Floating, rest: string)
    requires WellWritten(f) && rest != "" && (rest[0] == 'e' || rest[0] == 'E')
    requires |rest| > 1 ==> !IsDigit(rest[1])
    requires |rest| > 2 && (rest[1] == '+' || rest[1] == '-') ==> !IsDigit(rest[2])
    ensures var digits := f.whole + Pointed(f); ScanEnd(digits + rest, 10, 0) == |digits|
  {
    var digits := f.whole + Pointed(f);
    ScanPast("", f.whole, Pointed(f) + rest);
    ScanPoint(f.whole, f, rest);
    Regrouped("", f.whole, Pointed(f), rest);
    var s := digits + rest;
    assert "" + f.whole + (Pointed(f) + rest) == s && "" + f.whole == f.whole;
    assert s[|digits|..] == rest;
    NoExponentHere(s, |digits|, rest);
    hide ScanEnd, Pointed, WellWritten;
  }

  lemma NoExponentHere(s: string, at: nat, rest: string)
    requires at <= |s| && s[at..] == rest && rest != "" && (rest[0] == 'e' || rest[0] == 'E')
    requires |rest| > 1 ==> !IsDigit(rest[1])
    requires |rest| > 2 && (rest[1] == '+' || rest[1] == '-') ==> !IsDigit(rest[2])
    ensures ScanEnd(s, 10, at) == at
  {
    assert s[at] == rest[0] && (|rest| > 1 ==> s[at + 1] == rest[1]) && (|rest| > 2 ==> s[at + 2] == rest[2]);
  }

  /** The suffix of each type that has literals, beside `isize` and `usize`. */
  function SuffixOf(tag: Tag): string
    requires IsInteger(tag) || tag == F32 || tag == F64
  {
    match tag
    case I8 => "i8"
    case I16 => "i16"
    case I32 => "i32"
    case I64 => "i64"
    case U8 => "u8"
    case U16 => "u16"
    case U32 => "u32"
    case U64 => "u64"
    case F32 => "f32"
    case _ => "f64"
  }

  lemma SuffixListed(tag: Tag)
    requires IsInteger(tag) || tag == F32 || tag == F64
    ensures SuffixOf(tag) in SUFFIXES
  {
    assert SUFFIXES[2] == "i8" && SUFFIXES[3] == "i16" && SUFFIXES[4] == "i32" && SUFFIXES[5] == "i64";
    assert SUFFIXES[6] == "u8" && SUFFIXES[7] == "u16" && SUFFIXES[8] == "u32" && SUFFIXES[9] == "u64";
    assert SUFFIXES[10] == "f32" && SUFFIXES[11] == "f64";
  }

  lemma ListedSuffix(i: nat) returns (tag: Tag)
    requires 2 <= i < |SUFFIXES|
    ensures (IsInteger(tag) || tag == F32 || tag == F64) && SuffixOf(tag) == SUFFIXES[i]
  {
    tag := [I8, I16, I32, I64, U8, U16, U32, U64, F32, F64][i - 2];
  }

  /** The suffixes are those of the types and no others. */
  lemma SuffixesExactly(t: string)
    ensures t in SUFFIXES <==>
      || t == "isize" || t == "usize"
      || exists tag :: (IsInteger(tag) || tag == F32 || tag == F64) && SuffixOf(tag) == t
  {
    assert SUFFIXES[0] == "isize" && SUFFIXES[1] == "usize";
    hide SuffixOf, IsInteger;
    forall tag | IsInteger(tag) || tag == F32 || tag == F64 ensures SuffixOf(tag) in SUFFIXES { SuffixListed(tag); }
    if i :| 2 <= i < |SUFFIXES| && SUFFIXES[i] == t { var tag := ListedSuffix(i); }
  }

  // ----- where the parse splits it off --------------------------------------------------------------------

  lemma EndLetters(s: string, t: string)
    requires t in SUFFIXES && EndsWith(s, t)
    ensures s[|s| - 1] == t[|t| - 1] && s[|s| - 2] == t[|t| - 2] && s[|s| - |t|] == t[0]
    ensures |t| >= 3 ==> s[|s| - 3] == t[|t| - 3]
    ensures |t| >= 5 ==> s[|s| - 5] == t[|t| - 5]
  {
    SuffixLetters(t);
    var e := s[|s| - |t|..];
    assert e[|t| - 1] == s[|s| - 1] && e[|t| - 2] == s[|s| - 2] && e[0] == s[|s| - |t|];
    if |t| >= 3 { assert e[|t| - 3] == s[|s| - 3]; }
    if |t| >= 5 { assert e[|t| - 5] == s[|s| - 5]; }
  }

  /** No known suffix ends another, so a spelling ends in one at most. */
  lemma OneSuffix(s: string, a: string, b: string)
    requires a in SUFFIXES && b in SUFFIXES && EndsWith(s, a) && EndsWith(s, b)
    ensures a == b
  {
    EndLetters(s, a);
    EndLetters(s, b);
  }

  lemma {:induction false} StrippedOf(s: string, known: seq<string>, t: string)
    requires t in known && EndsWith(s, t) && forall k :: k in known && EndsWith(s, k) ==> k == t
    ensures Stripped(s, known) == s[..|s| - |t|]
  {
    if known[0] != t { StrippedOf(s, known[1..], t); }
  }

  lemma {:induction false} StrippedNone(s: string, known: seq<string>)
    requires forall k :: k in known ==> !EndsWith(s, k)
    ensures Stripped(s, known) == s
  {
    if known != [] { StrippedNone(s, known[1..]); }
  }

  lemma StripsTo(s: string, t: string)
    requires t in SUFFIXES && EndsWith(s, t)
    ensures Stripped(s, SUFFIXES) == s[..|s| - |t|]
  {
    hide EndsWith, Stripped;
    forall k | k in SUFFIXES && EndsWith(s, k) ensures k == t { OneSuffix(s, k, t); }
    StrippedOf(s, SUFFIXES, t);
  }

  /** No suffix begins with a letter that a prefix or a digit below sixteen can be, but `f`. */
  lemma SuffixBegins(l: Numeral, k: nat)
    requires WellFormed(l) && l.suffix == "" && k < |Spell(l)|
    requires Spell(l)[k] == 'i' || Spell(l)[k] == 'u' || Spell(l)[k] == 'f'
    ensures k >= |Lead(l)| && l.base == 16 && Spell(l)[k] == 'f'
  {
    var lead := |Lead(l)|;
    assert Spell(l) == Lead(l) + l.body;
    assert forall i :: 0 <= i < lead ==> Spell(l)[i] == Lead(l)[i];
    if k >= lead { assert Spell(l)[k] == l.body[k - lead]; }
  }

  /** A literal without a suffix ends like one only in hexadecimal, in `f32` or `f64`. */
  lemma EndsLikeSuffix(l: Numeral, t: string)
    requires WellFormed(l) && l.suffix == "" && t in SUFFIXES && EndsWith(Spell(l), t)
    ensures l.base == 16 && (t == "f32" || t == "f64") && Tail(l.body, t)
  {
    SuffixLetters(t);
    hide WellFormed;
    var s, lead := Spell(l), |Lead(l)|;
    var k := |s| - |t|;
    assert s[k] == s[k..][0] == t[0];
    SuffixBegins(l, k);
    assert s == Lead(l) + l.body;
    assert l.body[|l.body| - |t|..] == s[k..];
  }

  lemma OneMoreDigit(s: string, k: nat)
    requires k < |s| && DigitValue(s[k]) >= 0
    ensures Magnitude(16, s[..k + 1]) == Magnitude(16, s[..k]) * 16 + DigitValue(s[k])
  {
    assert s[..k + 1][..k] == s[..k];
  }

  lemma TailValue(body: string, t: string)
    requires (t == "f32" || t == "f64") && Tail(body, t)
    ensures Magnitude(16, body) == Magnitude(16, body[..|body| - 3]) * 4096 + if t == "f32" then 0xf32 else 0xf64
  {
    hide Magnitude;
    var n := |body|;
    assert t == body[n - 3..] && t[0] == body[n - 3] && t[1] == body[n - 2] && t[2] == body[n - 1];
    OneMoreDigit(body, n - 3);
    OneMoreDigit(body, n - 2);
    OneMoreDigit(body, n - 1);
    assert body[..n] == body;
  }

  /**
   The parse reads the number that is written, except that it takes the last three digits of a
   hexadecimal literal for a suffix when they spell one.
   */
  lemma ParseReadsExactly(l: Numeral)
    requires WellFormed(l)
    ensures ReadAs(Spell(l)) == Magnitude(l.base, l.body) <==> !LooksFloat(l)
  {
    hide Magnitude, Stripped, EndsWith, InBase;
    BaseOfSpelling(l);
    var s, whole := Spell(l), Lead(l) + l.body;
    assert l.base != 10 ==> whole[2..] == l.body;
    assert l.base == 10 ==> whole == l.body;
    if l.suffix != "" {
      SuffixEnds(l);
      StripsTo(s, l.suffix);
      assert s[..|s| - |l.suffix|] == whole;
    } else if !LooksFloat(l) {
      assert s == whole;
      forall k | k in SUFFIXES ensures !EndsWith(s, k) {
        if EndsWith(s, k) { EndsLikeSuffix(l, k); }
      }
      StrippedNone(s, SUFFIXES);
    } else {
      FloatTailLost(l, if Tail(l.body, "f32") then "f32" else "f64");
    }
  }

  lemma SuffixEnds(l: Numeral)
    requires WellFormed(l) && l.suffix != ""
    ensures EndsWith(Spell(l), l.suffix)
  {
  }

  lemma FloatTailLost(l: Numeral, t: string)
    requires WellFormed(l) && l.base == 16 && l.suffix == "" && (t == "f32" || t == "f64") && Tail(l.body, t)
    ensures ReadAs(Spell(l)) < Magnitude(16, l.body)
  {
    CutReads(l, |l.body| - 3);
    hide Magnitude, Stripped, InBase, WellFormed, BaseOf, Body, Spell;
    TailStripped(l, t);
    TailValue(l.body, t);
    var x := Magnitude(16, l.body[..|l.body| - 3]);
    assert ReadAs(Spell(l)) == x;
  }

  lemma TailStripped(l: Numeral, t: string)
    requires l.base == 16 && l.suffix == "" && (t == "f32" || t == "f64") && Tail(l.body, t)
    ensures Stripped(Spell(l), SUFFIXES) == Lead(l) + l.body[..|l.body| - 3]
  {
    hide Stripped;
    var s := Spell(l);
    assert s == Lead(l) + l.body;
    assert |t| == 3 && s[|s| - 3..] == l.body[|l.body| - 3..] == t;
    assert EndsWith(s, t);
    assert t in SUFFIXES by { assert SUFFIXES[10] == "f32" && SUFFIXES[11] == "f64"; }
    StripsTo(s, t);
    assert s[..|s| - 3] == Lead(l) + l.body[..|l.body| - 3];
  }

  /** The prefix and the first `n` digits read as those digits. */
  lemma CutReads(l: Numeral, n: nat)
    requires WellFormed(l) && l.base == 16 && l.suffix == "" && n <= |l.body|
    ensures var s := Lead(l) + l.body[..n]; Magnitude(BaseOf(s), Body(s)) == Magnitude(16, l.body[..n])
  {
    hide Magnitude, InBase;
    var rest := l.body[..n];
    if rest == "" {
      BareLead(l.mark);
      assert Lead(l) + rest == ['0', l.mark];
      NoDigits(16);
    } else {
      var cut := l.(body := rest);
      assert WellFormed(cut);
      BaseOfSpelling(cut);
      assert (Lead(l) + rest)[2..] == rest;
    }
  }

  /** A prefix with no digits is read as a decimal zero. */
  lemma BareLead(mark: char)
    requires BaseMark(mark) == 16
    ensures Magnitude(10, ['0', mark]) == 0
  {
    assert ['0', mark][..1] == ['0'] && ['0'][..0] == [];
    assert Magnitude(10, ['0']) == 0;
  }

  /** `0x1f32`: the checker sees no suffix, and the parse reads one. */
  lemma HexDigitsLost()
    ensures var l := Numeral(16, 'x', "1f32", "");
      WellFormed(l) && Spell(l) == "0x1f32" && LooksFloat(l) && ReadAs("0x1f32") == 1 && Magnitude(16, "1f32") == 0x1f32
  {
    hide Stripped;
    var l := Numeral(16, 'x', "1f32", "");
    assert l.body[1..] == "f32" && l.body[..1] == "1";
    assert Spell(l) == "0x1f32" && Lead(l) + "1" == "0x1";
    TailStripped(l, "f32");
    assert BaseOf("0x1") == 16 && "0x1"[2..] == "1";
    TailValue("1f32", "f32");
    assert "1"[..0] == "";
    assert Magnitude(16, "1") == Magnitude(16, "") * 16 + 1;
  }

  // ----- the range check ------------------------------------------------------------------------------------

  predicate IsInteger(tag: Tag) { tag in {I8, I16, I32, I64, U8, U16, U32, U64} }

  /** The check's table, over a magnitude that fits 64 bits. */
  predicate TableAdmits(tag: Tag, magnitude: nat, negative: bool) {
    match tag
    case U8 => magnitude <= if negative then 0 else 0xFF
    case U16 => magnitude <= if negative then 0 else 0xFFFF
    case U32 => magnitude <= if negative then 0 else 0xFFFF_FFFF
    case U64 => !negative || magnitude == 0
    case I8 => magnitude <= if negative then 0x80 else 0x7F
    case I16 => magnitude <= if negative then 0x8000 else 0x7FFF
    case I32 => magnitude <= if negative then 0x8000_0000 else 0x7FFF_FFFF
    case I64 => magnitude <= if negative then 0x8000_0000_0000_0000 else 0x7FFF_FFFF_FFFF_FFFF
    case _ => true
  }

  function Signed(magnitude: nat, negative: bool): int { if negative then -(magnitude as int) else magnitude }

  /** The check admits a literal exactly when the number, with its sign, is in the type's range. */
  method IntLiteralFits(spelling: string, tag: Tag, negative: bool) returns (fits: bool)
    ensures IsInteger(tag) ==> (fits <==> InRange(tag, Signed(ReadAs(spelling), negative)))
    ensures !IsInteger(tag) ==> (fits <==> ReadAs(spelling) < WORD)
  {
    hide ReadAs;
    var magnitude, overflow := ParseNumericValue(spelling);
    if overflow { return false; }
    fits := TableAdmits(tag, magnitude, negative);
  }

  /**
   What the evaluator makes of an admitted literal means the number written, once it is cut to
   its type's width; the pattern itself is that wide already, except a negative one's of a type
   narrower than 64 bits.
   */
  lemma LiteralKeepsItsValue(p: Package, c: Ctx, id: nat, spelling: string, negative: bool)
    requires var tag := TagOf(p, ExprType(p, c, id)); IsInteger(tag) && InRange(tag, Signed(ReadAs(spelling), negative))
    ensures var t := ExprType(p, c, id);
            var lit := IntLit(ReadAs(spelling) % WORD, negative);
            var value := Signed(ReadAs(spelling), negative);
      && Literally(p, c, id, lit) == Val(Typed(VInt(LiteralBits(lit)), t))
      && ValueOf(TagOf(p, t), LiteralBits(lit) % Modulus(TagOf(p, t))) == value
      && (LiteralBits(lit) == Encode(TagOf(p, t), value) <==> !negative || value == 0 || IntBytes(TagOf(p, t)) == 8)
  {
    hide ReadAs;
    var tag := TagOf(p, ExprType(p, c, id));
    StoredKeepsValue(tag, ReadAs(spelling), negative);
  }

  lemma StoredKeepsValue(tag: Tag, magnitude: nat, negative: bool)
    requires IsInteger(tag) && InRange(tag, Signed(magnitude, negative))
    ensures magnitude % WORD == magnitude
    ensures var bits := LiteralBits(IntLit(magnitude, negative)); var value := Signed(magnitude, negative);
      && ValueOf(tag, bits % Modulus(tag)) == value
      && (bits == Encode(tag, value) <==> !negative || magnitude == 0 || IntBytes(tag) == 8)
  {
    ModulusEven(tag);
    WrapThenMask(Modulus(tag), Signed(magnitude, negative));
    EncodeRoundTrip(Modulus(tag), IsSigned(tag), Signed(magnitude, negative));
  }
}
