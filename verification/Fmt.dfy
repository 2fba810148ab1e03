/**
 Format strings (src/analyzer/fmt.h, parse_format_string): the text between placeholders and
 the placeholders `{}`, `{:.N}` and `{:.Nf}`, with `{{` and `}}` for the braces themselves.
 Printing and parsing are inverse on the lists the parser can answer.
 */
module Fmt {
  import opened Machine
  import opened Lang

  const MAX_PRECISION: nat := 17
  const WORD32: nat := 0x1_0000_0000

  datatype Piece = Text(text: string) | Arg(index: nat, precision: Option<nat>, explicitFloat: bool)

  datatype FmtError = UnclosedBrace | UnmatchedBrace | Specifier

  datatype Template = Parsed(pieces: seq<Piece>, placeholders: nat) | Faulty(error: FmtError, pos: nat)

  // ----- numbers ----------------------------------------------------------------------------------

  predicate AllDigits(s: string) { forall i :: 0 <= i < |s| ==> IsDigit(s[i]) }

  function DigitRun(s: string): (n: nat)
    ensures n <= |s| && AllDigits(s[..n]) && (n < |s| ==> !IsDigit(s[n]))
  {
    if s == [] || !IsDigit(s[0]) then 0
    else
      var n := DigitRun(s[1..]);
      assert s[..n + 1] == [s[0]] + s[1..][..n];
      n + 1
  }

  /** The number a run of digits writes. */
  function Decimal(s: string): nat
    requires AllDigits(s)
  {
    if s == [] then 0 else Decimal(s[..|s| - 1]) * 10 + (s[|s| - 1] as int - '0' as int)
  }

  /** The precision the parser keeps of it: 32 bits. */
  function Precision(s: string): nat
    requires AllDigits(s)
  {
    Decimal(s) % WORD32
  }

  function Digits(n: nat): (s: string)
    ensures s != [] && AllDigits(s)
  {
    if n < 10 then [(n + '0' as int) as char] else Digits(n / 10) + [(n % 10 + '0' as int) as char]
  }

  lemma {:induction false} DecimalOfDigits(n: nat)
    ensures Decimal(Digits(n)) == n
  {
    if n < 10 {
      assert Digits(n)[..0] == [];
    } else {
      DecimalOfDigits(n / 10);
      assert Digits(n)[..|Digits(n)| - 1] == Digits(n / 10);
    }
  }

  lemma Wraps(value: nat, d: nat)
    ensures (value % WORD32 * 10 + d) % WORD32 == (value * 10 + d) % WORD32
  {
    var q, v := value / WORD32, value % WORD32;
    assert value == q * WORD32 + v;
    ModShift(v * 10 + d, q * 10, WORD32);
  }

  // ----- one token ----------------------------------------------------------------------------------

  datatype Token =
    | Char(c: char, length: nat)
    | Slot(precision: Option<nat>, explicitFloat: bool, length: nat)
    | Fault(error: FmtError)

  /** A placeholder with a specifier, `s` starting at its brace. */
  function LexSpecifier(s: string): Token {
    if |s| < 3 || s[1] != ':' || s[2] != '.' then Fault(Specifier)
    else
      var count := DigitRun(s[3..]);
      var j := 3 + count;
      var explicitFloat := count > 0 && j < |s| && s[j] == 'f';
      var close := if explicitFloat then j + 1 else j;
      if count == 0 || Precision(s[3..][..count]) > MAX_PRECISION then Fault(Specifier)
      else if close >= |s| || s[close] != '}' then Fault(Specifier)
      else Slot(Some(Precision(s[3..][..count])), explicitFloat, close + 1)
  }

  function Lex(s: string): (t: Token)
    requires s != []
    ensures t.Char? ==> 1 <= t.length <= |s|
    ensures t.Slot? ==> 1 <= t.length <= |s|
  {
    if s[0] == '{' then
      if |s| == 1 then Fault(UnclosedBrace)
      else if s[1] == '{' then Char('{', 2)
      else if s[1] == '}' then Slot(None, false, 2)
      else LexSpecifier(s)
    else if s[0] == '}' then
      if |s| > 1 && s[1] == '}' then Char('}', 2) else Fault(UnmatchedBrace)
    else Char(s[0], 1)
  }

  // ----- the whole string -----------------------------------------------------------------------------

  function Flushed(pieces: seq<Piece>, literal: string): seq<Piece> {
    if literal == "" then pieces else pieces + [Text(literal)]
  }

  /** The rest of a string, with the text and the pieces gathered so far. */
  function Parse(s: string, literal: string, pieces: seq<Piece>, count: nat, pos: nat): Template
    decreases |s|
  {
    if s == [] then Parsed(Flushed(pieces, literal), count)
    else
      match Lex(s)
      case Char(c, n) => Parse(s[n..], literal + [c], pieces, count, pos + n)
      case Slot(p, e, n) => Parse(s[n..], "", Flushed(pieces, literal) + [Arg(count, p, e)], count + 1, pos + n)
      case Fault(error) => Faulty(error, pos)
  }

  method ParseFormatString(bytes: string) returns (t: Template)
    ensures t == Parse(bytes, "", [], 0, 0)
  {
    hide Lex;
    var literal, pieces, count, i := "", [], 0, 0;
    while i < |bytes|
      invariant 0 <= i <= |bytes|
      invariant Parse(bytes[i..], literal, pieces, count, i) == Parse(bytes, "", [], 0, 0)
    {
      var token := LexAt(bytes, i);
      match token {
        case Char(c, n) =>
          assert bytes[i..][n..] == bytes[i + n..];
          literal, i := literal + [c], i + n;
        case Slot(p, e, n) =>
          assert bytes[i..][n..] == bytes[i + n..];
          if literal != "" { pieces, literal := pieces + [Text(literal)], ""; }
          pieces, count, i := pieces + [Arg(count, p, e)], count + 1, i + n;
        case Fault(error) =>
          return Faulty(error, i);
      }
    }
    if literal != "" { pieces := pieces + [Text(literal)]; }
    t := Parsed(pieces, count);
  }

  /** The branches of the loop's body, with the digits accumulated in 32 bits. */
  method LexAt(bytes: string, i: nat) returns (t: Token)
    requires i < |bytes|
    ensures t == Lex(bytes[i..])
  {
    var s := bytes[i..];
    if bytes[i] == '{' {
      if i + 1 >= |bytes| { return Fault(UnclosedBrace); }
      if bytes[i + 1] == '{' { return Char('{', 2); }
      if bytes[i + 1] != '}' {
        if bytes[i + 1] != ':' || i + 2 >= |bytes| || bytes[i + 2] != '.' { return Fault(Specifier); }
        ghost var run := DigitRun(s[3..]);
        var j, value, count := i + 3, 0, 0;
        while j < |bytes| && IsDigit(bytes[j])
          invariant j == i + 3 + count && 0 <= count <= run
          invariant value == Precision(s[3..][..count])
        {
          assert s[3..][count] == bytes[j];
          assert s[3..][..count + 1][..count] == s[3..][..count];
          Wraps(Decimal(s[3..][..count]), bytes[j] as int - '0' as int);
          value := (value * 10 + (bytes[j] as int - '0' as int)) % WORD32;
          count, j := count + 1, j + 1;
        }
        var explicitFloat := false;
        if count > 0 && j < |bytes| && bytes[j] == 'f' { explicitFloat, j := true, j + 1; }
        if count == 0 || value > MAX_PRECISION || j >= |bytes| || bytes[j] != '}' { return Fault(Specifier); }
        return Slot(Some(value), explicitFloat, j + 1 - i);
      }
      return Slot(None, false, 2);
    }
    if bytes[i] == '}' {
      if i + 1 < |bytes| && bytes[i + 1] == '}' { return Char('}', 2); }
      return Fault(UnmatchedBrace);
    }
    return Char(bytes[i], 1);
  }

  // ----- printing ------------------------------------------------------------------------------------

  function Escaped(text: string): string {
    if text == [] then ""
    else (if text[0] == '{' || text[0] == '}' then [text[0], text[0]] else [text[0]]) + Escaped(text[1..])
  }

  function PrintSlot(precision: Option<nat>, explicitFloat: bool): string {
    if precision.None? then "{}"
    else "{:." + Digits(precision.value) + (if explicitFloat then "f" else "") + "}"
  }

  function Print(pieces: seq<Piece>): string {
    if pieces == [] then ""
    else
      (match pieces[0]
       case Text(text) => Escaped(text)
       case Arg(_, precision, explicitFloat) => PrintSlot(precision, explicitFloat)) + Print(pieces[1..])
  }

  function Args(pieces: seq<Piece>): nat {
    if pieces == [] then 0 else (if pieces[0].Arg? then 1 else 0) + Args(pieces[1..])
  }

  /** No empty or adjacent text, arguments numbered in order, a precision of at most 17. */
  ghost predicate Canonical(pieces: seq<Piece>, from: nat)
    decreases pieces
  {
    pieces != [] ==>
      match pieces[0]
      case Text(text) => text != "" && (|pieces| > 1 ==> pieces[1].Arg?) && Canonical(pieces[1..], from)
      case Arg(index, precision, explicitFloat) =>
        && index == from && (precision.Some? ==> precision.value <= MAX_PRECISION)
        && (explicitFloat ==> precision.Some?)
        && Canonical(pieces[1..], from + 1)
  }

  lemma LexEscaped(c: char, rest: string)
    ensures var s := Escaped([c]) + rest; s != [] && Lex(s) == Char(c, |Escaped([c])|) && s[|Escaped([c])|..] == rest
  {
    assert [c][1..] == [] && Escaped([]) == [];
  }

  lemma {:induction false} DigitRunOf(ds: string, rest: string)
    requires AllDigits(ds) && (rest == [] || !IsDigit(rest[0]))
    ensures DigitRun(ds + rest) == |ds| && (ds + rest)[..|ds|] == ds
  {
    if ds == [] {
      assert ds + rest == rest;
    } else {
      assert (ds + rest)[1..] == ds[1..] + rest;
      DigitRunOf(ds[1..], rest);
    }
  }

  /** A specifier is read whatever follows it, and is accepted by what 32 bits keep of its digits. */
  lemma LexSpecified(ds: string, explicitFloat: bool, rest: string)
    requires ds != [] && AllDigits(ds)
    ensures var slot := "{:." + ds + (if explicitFloat then "f" else "") + "}";
            var s := slot + rest;
      && s[|slot|..] == rest
      && Lex(s) ==
         if Precision(ds) > MAX_PRECISION then Fault(Specifier)
         else Slot(Some(Precision(ds)), explicitFloat, |slot|)
  {
    hide Decimal;
    var tail := (if explicitFloat then "f}" else "}") + rest;
    var slot := "{:." + ds + (if explicitFloat then "f" else "") + "}";
    var s := slot + rest;
    assert s == "{:." + ds + tail;
    assert s[3..] == ds + tail;
    DigitRunOf(ds, tail);
    var j := 3 + |ds|;
    assert s[j] == tail[0] && s[j..] == tail;
    assert explicitFloat ==> s[j + 1] == tail[1];
  }

  lemma LexSlot(precision: Option<nat>, explicitFloat: bool, rest: string)
    requires (precision.Some? ==> precision.value <= MAX_PRECISION) && (explicitFloat ==> precision.Some?)
    ensures var slot := PrintSlot(precision, explicitFloat); var s := slot + rest;
      s != [] && Lex(s) == Slot(precision, explicitFloat, |slot|) && s[|slot|..] == rest
  {
    if precision.Some? {
      DecimalOfDigits(precision.value);
      LexSpecified(Digits(precision.value), explicitFloat, rest);
    }
  }

  lemma EscapedHead(text: string)
    requires text != []
    ensures Escaped(text) == Escaped([text[0]]) + Escaped(text[1..])
  {
    var one := [text[0]];
    assert one[1..] == [] && Escaped([]) == [];
  }

  lemma ParseChar(s: string, literal: string, pieces: seq<Piece>, count: nat, pos: nat)
    requires s != [] && Lex(s).Char?
    ensures var t := Lex(s);
      Parse(s, literal, pieces, count, pos) == Parse(s[t.length..], literal + [t.c], pieces, count, pos + t.length)
  {
    hide Lex;
  }

  lemma {:induction false} ParseText(
    text: string, rest: string, literal: string, pieces: seq<Piece>, count: nat, pos: nat
  )
    ensures Parse(Escaped(text) + rest, literal, pieces, count, pos) ==
      Parse(rest, literal + text, pieces, count, pos + |Escaped(text)|)
    decreases |text|
  {
    hide Lex, Parse;
    if text == [] {
      assert Escaped(text) + rest == rest && literal + text == literal;
    } else {
      var c, more := text[0], Escaped(text[1..]) + rest;
      EscapedHead(text);
      hide Escaped;
      assert Escaped(text) + rest == Escaped([c]) + more;
      LexEscaped(c, more);
      ParseChar(Escaped([c]) + more, literal, pieces, count, pos);
      ParseText(text[1..], rest, literal + [c], pieces, count, pos + |Escaped([c])|);
      assert literal + [c] + text[1..] == literal + text;
    }
  }

  lemma ParseEnd(literal: string, pieces: seq<Piece>, count: nat, pos: nat)
    ensures Parse("", literal, pieces, count, pos) == Parsed(Flushed(pieces, literal), count)
  {
  }

  lemma ParseSlot(s: string, literal: string, pieces: seq<Piece>, count: nat, pos: nat)
    requires s != [] && Lex(s).Slot?
    ensures var t := Lex(s);
      Parse(s, literal, pieces, count, pos)
        == Parse(s[t.length..], "", Flushed(pieces, literal) + [Arg(count, t.precision, t.explicitFloat)], count + 1,
          pos + t.length)
  {
    hide Lex;
  }

  lemma {:induction false} ParsePrinted(rest: seq<Piece>, literal: string, pieces: seq<Piece>, count: nat, pos: nat)
    requires Canonical(rest, count) && (literal != "" && rest != [] ==> rest[0].Arg?)
    ensures Parse(Print(rest), literal, pieces, count, pos) ==
      Parsed(Flushed(pieces, literal) + rest, count + Args(rest))
    decreases |rest|
  {
    hide Lex, PrintSlot, Parse, Escaped;
    if rest == [] {
      assert Flushed(pieces, literal) + rest == Flushed(pieces, literal);
      ParseEnd(literal, pieces, count, pos);
    } else {
      var more := Print(rest[1..]);
      if rest[0].Text? {
        ParseText(rest[0].text, more, literal, pieces, count, pos);
        ParsePrinted(rest[1..], rest[0].text, pieces, count, pos + |Escaped(rest[0].text)|);
        assert literal + rest[0].text == rest[0].text;
        assert pieces + [rest[0]] + rest[1..] == pieces + rest;
      } else {
        var slot := PrintSlot(rest[0].precision, rest[0].explicitFloat);
        LexSlot(rest[0].precision, rest[0].explicitFloat, more);
        ParseSlot(slot + more, literal, pieces, count, pos);
        var next := Flushed(pieces, literal) + [rest[0]];
        ParsePrinted(rest[1..], "", next, count + 1, pos + |slot|);
        assert next + rest[1..] == Flushed(pieces, literal) + rest;
      }
    }
  }

  /** Parsing what is printed from a canonical list gives the list back, and its placeholder count. */
  lemma RoundTrip(pieces: seq<Piece>)
    requires Canonical(pieces, 0)
    ensures Parse(Print(pieces), "", [], 0, 0) == Parsed(pieces, Args(pieces))
  {
    hide Parse, Print, Args, Canonical;
    ParsePrinted(pieces, "", [], 0, 0);
    assert [] + pieces == pieces;
  }

  /** Lists under construction: canonical, and ending in an argument if in anything. */
  ghost predicate Closed(pieces: seq<Piece>, count: nat) {
    Canonical(pieces, 0) && count == Args(pieces) && (pieces != [] ==> pieces[|pieces| - 1].Arg?)
  }

  lemma {:induction false} CanonicalMore(pieces: seq<Piece>, from: nat, last: Piece)
    requires Canonical(pieces, from)
    requires last.Text? ==> last.text != "" && (pieces != [] ==> pieces[|pieces| - 1].Arg?)
    requires last.Arg? ==> Canonical([last], from + Args(pieces))
    ensures Canonical(pieces + [last], from) && Args(pieces + [last]) == Args(pieces) + Args([last])
    decreases |pieces|
  {
    var all := pieces + [last];
    if pieces == [] {
      assert all == [last] && [last][1..] == [];
    } else {
      assert all[1..] == pieces[1..] + [last] && all[0] == pieces[0];
      CanonicalMore(pieces[1..], if pieces[0].Arg? then from + 1 else from, last);
    }
  }

  lemma OneArg(arg: Piece, from: nat)
    requires arg.Arg? && arg.index == from && (arg.precision.Some? ==> arg.precision.value <= MAX_PRECISION)
    requires arg.explicitFloat ==> arg.precision.Some?
    ensures Canonical([arg], from) && Args([arg]) == 1
  {
    var one := [arg];
    assert Args(one) == 1 + Args(one[1..]);
    assert one[1..] == [];
  }

  lemma LexSound(s: string)
    requires s != [] && Lex(s).Slot?
    ensures var t := Lex(s);
      (t.precision.Some? ==> t.precision.value <= MAX_PRECISION) && (t.explicitFloat ==> t.precision.Some?)
  {
  }

  lemma {:induction false} ParseCanonical(s: string, literal: string, pieces: seq<Piece>, count: nat, pos: nat)
    requires Closed(pieces, count)
    ensures var t := Parse(s, literal, pieces, count, pos);
      t.Parsed? ==> Canonical(t.pieces, 0) && t.placeholders == Args(t.pieces)
    decreases |s|
  {
    hide Lex;
    var flushed := Flushed(pieces, literal);
    if literal != "" {
      CanonicalMore(pieces, 0, Text(literal));
      assert Args([Text(literal)]) == 0 by { assert [Text(literal)][1..] == []; }
    }
    assert Canonical(flushed, 0) && Args(flushed) == count;
    if s != [] {
      var token := Lex(s);
      if token.Char? {
        ParseCanonical(s[token.length..], literal + [token.c], pieces, count, pos + token.length);
      } else if token.Slot? {
        LexSound(s);
        var arg := Arg(count, token.precision, token.explicitFloat);
        OneArg(arg, count);
        CanonicalMore(flushed, 0, arg);
        ParseCanonical(s[token.length..], "", flushed + [arg], count + 1, pos + token.length);
      }
    }
  }

  /** Every list the parser answers is canonical, so printing it and parsing again changes nothing. */
  lemma ParseYieldsCanonical(bytes: string)
    ensures var t := Parse(bytes, "", [], 0, 0);
      t.Parsed? ==>
        && Canonical(t.pieces, 0) && t.placeholders == Args(t.pieces)
        && Parse(Print(t.pieces), "", [], 0, 0) == t
  {
    ParseCanonical(bytes, "", [], 0, 0);
    var t := Parse(bytes, "", [], 0, 0);
    if t.Parsed? { RoundTrip(t.pieces); }
  }

  // ----- which strings are format strings ----------------------------------------------------------------

  /** A placeholder with a precision whose low 32 bits are at most 17, with or without an `f`. */
  ghost predicate Precise(w: string) {
    exists ds, explicitFloat ::
      ds != "" && AllDigits(ds) && Decimal(ds) % 0x1_0000_0000 <= 17 && w == Specified(ds, explicitFloat)
  }

  /** A character that is no brace, a doubled brace, or a placeholder. */
  ghost predicate Element(w: string) {
    || (|w| == 1 && w[0] != '{' && w[0] != '}')
    || w == "{{" || w == "}}" || w == "{}"
    || Precise(w)
  }

  ghost predicate Formatted(s: string)
    decreases |s|
  {
    s == "" || exists n :: 0 < n <= |s| && Element(s[..n]) && Formatted(s[n..])
  }

  lemma LexElement(s: string, n: nat)
    requires s != "" && 0 < n <= |s| && Element(s[..n])
    ensures match Lex(s) case Char(_, k) => k == n case Slot(_, _, k) => k == n case Fault(_) => false
  {
    hide Precise;
    var w := s[..n];
    assert s == w + s[n..];
    if Precise(w) {
      LexSpecifiedElement(w, s[n..]);
    } else {
      assert w[0] == s[0] && (n == 2 ==> w[1] == s[1]);
    }
  }

  lemma LexSpecifiedElement(w: string, rest: string)
    requires Precise(w)
    ensures w + rest != "" && Lex(w + rest).Slot? && Lex(w + rest).length == |w|
  {
    var ds, explicitFloat :|
      ds != "" && AllDigits(ds) && Decimal(ds) % WORD32 <= MAX_PRECISION && w == Specified(ds, explicitFloat);
    hide Lex, Decimal;
    LexSpecified(ds, explicitFloat, rest);
  }

  /** What the parser reads is an element, and where it reads nothing none begins. */
  lemma ElementRead(s: string)
    requires s != ""
    ensures match Lex(s)
      case Char(c, n) => Element(s[..n])
      case Slot(_, _, n) => Element(s[..n])
      case Fault(_) => forall n :: 0 < n <= |s| ==> !Element(s[..n])
  {
    var t := Lex(s);
    if t.Fault? {
      forall n | 0 < n <= |s| ensures !Element(s[..n]) {
        if Element(s[..n]) { LexElement(s, n); }
      }
    } else if t.Slot? && t.precision.Some? {
      SlotSpecified(s);
    } else if s[0] == '{' || s[0] == '}' {
      assert s[..2] == [s[0], s[1]];
    } else {
      assert s[..1] == [s[0]];
    }
  }

  lemma SlotSpecified(s: string)
    requires s != "" && Lex(s).Slot? && Lex(s).precision.Some?
    ensures Precise(s[..Lex(s).length])
  {
    var count := DigitRun(s[3..]);
    var ds, explicitFloat := s[3..][..count], Lex(s).explicitFloat;
    assert s[..3] == "{:.";
    var w := s[..Lex(s).length];
    assert w == s[..3] + ds + s[3 + count..Lex(s).length];
    assert s[3 + count..Lex(s).length] == if explicitFloat then "f}" else "}";
    assert w == Specified(ds, explicitFloat);
  }

  /** After an element the parser goes on with what follows it. */
  lemma GoesOn(s: string, literal: string, pieces: seq<Piece>, count: nat, pos: nat)
    returns (n: nat, literal': string, pieces': seq<Piece>, count': nat)
    requires s != "" && !Lex(s).Fault?
    ensures 0 < n <= |s| && Element(s[..n])
    ensures Parse(s, literal, pieces, count, pos) == Parse(s[n..], literal', pieces', count', pos + n)
  {
    hide Lex, Element;
    ElementRead(s);
    n, literal', pieces', count' := Lex(s).length, "", pieces, count;
    if Lex(s).Char? {
      literal' := literal + [Lex(s).c];
    } else {
      pieces', count' := Flushed(pieces, literal) + [Arg(count, Lex(s).precision, Lex(s).explicitFloat)], count + 1;
    }
  }

  /** A string is parsed exactly when it is made of such elements. */
  lemma {:induction false} ParsedExactly(s: string, literal: string, pieces: seq<Piece>, count: nat, pos: nat)
    ensures Parse(s, literal, pieces, count, pos).Parsed? <==> Formatted(s)
    decreases |s|
  {
    hide Lex, Element;
    if s != "" {
      ElementRead(s);
      if !Lex(s).Fault? {
        var n, literal', pieces', count' := GoesOn(s, literal, pieces, count, pos);
        forall k | 0 < k <= |s| && Element(s[..k]) ensures k == n {
          LexElement(s, k);
          LexElement(s, n);
        }
        ParsedExactly(s[n..], literal', pieces', count', pos + n);
      }
    }
  }

  /** Why no element begins here. */
  ghost predicate Unreadable(s: string, error: FmtError) {
    && s != "" && (forall n :: 0 < n <= |s| ==> !Element(s[..n]))
    && (error == UnmatchedBrace <==> s[0] == '}')
    && (error == UnclosedBrace <==> s == "{")
    && (error == FmtError.Specifier <==> |s| > 1 && s[0] == '{')
  }

  lemma FaultHere(s: string)
    requires s != "" && Lex(s).Fault?
    ensures Unreadable(s, Lex(s).error)
  {
    ElementRead(s);
    hide Element;
  }

  lemma FormattedMore(s: string, n: nat, k: nat)
    requires 0 < n <= k <= |s| && Element(s[..n]) && Formatted(s[n..][..k - n])
    ensures Formatted(s[..k])
  {
    hide Element;
    assert s[..k][..n] == s[..n] && s[..k][n..] == s[n..][..k - n];
  }

  /** A refusal is put where the elements end. */
  lemma {:induction false} FaultyWhere(s: string, literal: string, pieces: seq<Piece>, count: nat, pos: nat)
    ensures var t := Parse(s, literal, pieces, count, pos);
      t.Faulty? ==> pos <= t.pos < pos + |s| && Formatted(s[..t.pos - pos]) && Unreadable(s[t.pos - pos..], t.error)
    decreases |s|
  {
    hide Element, Lex, Unreadable, Formatted;
    if s != "" {
      if Lex(s).Fault? {
        FaultHere(s);
        NothingYet();
        assert s[..0] == "" && s[0..] == s;
      } else {
        var n, literal', pieces', count' := GoesOn(s, literal, pieces, count, pos);
        FaultyWhere(s[n..], literal', pieces', count', pos + n);
        var t := Parse(s, literal, pieces, count, pos);
        if t.Faulty? {
          FormattedMore(s, n, t.pos - pos);
          assert s[n..][t.pos - pos - n..] == s[t.pos - pos..];
        }
      }
    }
  }

  lemma NothingYet()
    ensures Formatted("")
  {
  }

  /** The parser accepts exactly the format strings, and says where and why it refuses any other. */
  lemma AcceptedExactly(bytes: string)
    ensures var t := Parse(bytes, "", [], 0, 0);
      && (t.Parsed? <==> Formatted(bytes))
      && (t.Faulty? ==>
            t.pos < |bytes| && Formatted(bytes[..t.pos]) && Unreadable(bytes[t.pos..], t.error))
  {
    hide Formatted, Unreadable, Parse;
    ParsedExactly(bytes, "", [], 0, 0);
    FaultyWhere(bytes, "", [], 0, 0);
  }

  // ----- the precision's width ---------------------------------------------------------------------------

  function Specified(ds: string, explicitFloat: bool): string { "{:." + ds + (if explicitFloat then "f" else "") + "}" }

  /**
   A precision is meant to be accepted up to 17. It is, except for the numbers at 2^32 and past
   whose low 32 bits are that small.
   */
  lemma PrecisionAcceptedExactly(ds: string, explicitFloat: bool)
    requires ds != [] && AllDigits(ds)
    ensures var t := Parse(Specified(ds, explicitFloat), "", [], 0, 0);
      && (t.Parsed? <==> Decimal(ds) % WORD32 <= MAX_PRECISION)
      && ((t.Parsed? <==> Decimal(ds) <= MAX_PRECISION) <==>
            Decimal(ds) < WORD32 || Decimal(ds) % WORD32 > MAX_PRECISION)
      && (t.Parsed? ==> t == Parsed([Arg(0, Some(Decimal(ds) % WORD32), explicitFloat)], 1))
  {
    hide Lex, Decimal;
    var s := Specified(ds, explicitFloat);
    LexSpecified(ds, explicitFloat, "");
    assert s + "" == s;
    assert [] + [Arg(0, Some(Precision(ds)), explicitFloat)] == [Arg(0, Some(Precision(ds)), explicitFloat)];
  }

  /** `{:.4294967296}` asks for four billion digits and is given none. */
  lemma HugePrecisionAccepted()
    ensures Parse(Specified(Digits(WORD32), false), "", [], 0, 0) == Parsed([Arg(0, Some(0), false)], 1)
  {
    hide Parse, Digits, Specified, Decimal;
    DecimalOfDigits(WORD32);
    PrecisionAcceptedExactly(Digits(WORD32), false);
  }
}
