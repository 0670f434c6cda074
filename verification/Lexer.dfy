/** The lexer: combinators as a grammar with a matching function, the string-literal grammar over them,
  * the separate pass that decodes escapes, and the token stream. */
module Lexer {

  type Byte = b: int | 0 <= b < 256

  // ---------------------------------------------------------------- combinators

  datatype Grammar =
    | One(pred: Byte -> bool)
    | Tag(text: seq<Byte>)
    | TakeWhile(pred: Byte -> bool)
    | TakeUntil(needle: seq<Byte>)
    | Seq(first: Grammar, second: Grammar)
    | Alt(first: Grammar, second: Grammar)
    | Opt(body: Grammar)
    | Many(body: Grammar)
    | Cut(body: Grammar)

  // Past the match, or where it failed; a fatal miss is not backtracked over.
  datatype Match = Past(next: nat) | Miss(at: nat, fatal: bool)

  function SkipWhile(pred: Byte -> bool, s: seq<Byte>, p: nat): (q: nat)
    requires p <= |s|
    ensures p <= q <= |s|
    ensures forall i :: p <= i < q ==> pred(s[i])
    ensures q < |s| ==> !pred(s[q])
    decreases |s| - p
  {
    if p < |s| && pred(s[p]) then SkipWhile(pred, s, p + 1) else p
  }

  predicate IsAt(text: seq<Byte>, s: seq<Byte>, p: nat)
  {
    p + |text| <= |s| && s[p..p + |text|] == text
  }

  /** The first place at or after p where the text stands; the end when it does not. */
  function Find(text: seq<Byte>, s: seq<Byte>, p: nat): (q: nat)
    requires p <= |s|
    ensures p <= q <= |s|
    ensures q < |s| ==> IsAt(text, s, q)
    ensures forall i :: p <= i < q ==> !IsAt(text, s, i)
    decreases |s| - p
  {
    if p == |s| || IsAt(text, s, p) then p else Find(text, s, p + 1)
  }

  /** What a parser makes of the input from p on. */
  function Run(g: Grammar, s: seq<Byte>, p: nat): (m: Match)
    requires p <= |s|
    ensures m.Past? ==> p <= m.next <= |s|
    ensures m.Miss? ==> p <= m.at <= |s|
    decreases g, |s| - p
  {
    match g
    case One(pred) => if p < |s| && pred(s[p]) then Past(p + 1) else Miss(p, false)
    case Tag(text) => if IsAt(text, s, p) then Past(p + |text|) else Miss(p, false)
    case TakeWhile(pred) => Past(SkipWhile(pred, s, p))
    case TakeUntil(needle) =>
      var q := Find(needle, s, p);
      if IsAt(needle, s, q) then Past(q) else Miss(|s|, false)
    case Seq(a, b) =>
      (match Run(a, s, p)
       case Miss(at, fatal) => Miss(at, fatal)
       case Past(q) => Run(b, s, q))
    case Alt(a, b) =>
      (match Run(a, s, p)
       case Past(q) => Past(q)
       case Miss(at, fatal) =>
         if fatal then Miss(at, true)
         else
           match Run(b, s, p)
           case Past(q) => Past(q)
           case Miss(at', fatal') => if fatal' || at < at' then Miss(at', fatal') else Miss(at, false))
    case Opt(a) =>
      (match Run(a, s, p)
       case Past(q) => Past(q)
       case Miss(at, fatal) => if fatal then Miss(at, true) else Past(p))
    case Many(a) =>
      (match Run(a, s, p)
       case Miss(at, fatal) => if fatal then Miss(at, true) else Past(p)
       case Past(q) => if q == p then Miss(p, false) else Run(g, s, q))
    case Cut(a) =>
      (match Run(a, s, p)
       case Past(q) => Past(q)
       case Miss(at, _) => Miss(at, true))
  }

  // ---------------------------------------------------------------- character classes

  const NEWLINE: Byte := 10
  const DOUBLE_QUOTE: Byte := 34
  const SINGLE_QUOTE: Byte := 39
  const BACKSLASH: Byte := 92

  predicate IsDecimal(c: Byte) { 48 <= c <= 57 }
  predicate IsOctal(c: Byte) { 48 <= c <= 55 }
  predicate IsHex(c: Byte) { IsDecimal(c) || 97 <= c <= 102 || 65 <= c <= 70 }

  /** a b f n r t v, the backslash, both quotes and the question mark. */
  predicate IsSimpleEscape(c: Byte)
  {
    c == 97 || c == 98 || c == 102 || c == 110 || c == 114 || c == 116 || c == 118
    || c == BACKSLASH || c == SINGLE_QUOTE || c == DOUBLE_QUOTE || c == 63
  }

  predicate IsPlain(quote: Byte, c: Byte) { c != quote && c != NEWLINE && c != 0 && c != BACKSLASH }

  // ---------------------------------------------------------------- the string grammar

  function Hex(): Grammar { One(IsHex) }
  function Octal(): Grammar { One(IsOctal) }
  function Slash(c: Byte): Grammar { Tag([BACKSLASH, c]) }

  function SimpleEscape(): Grammar { Seq(Tag([BACKSLASH]), One(IsSimpleEscape)) }
  function HexEscape(): Grammar { Seq(Alt(Slash(120), Slash(88)), Seq(Hex(), Opt(Hex()))) }
  function OctalEscape(): Grammar { Seq(Tag([BACKSLASH]), Seq(Octal(), Seq(Opt(Octal()), Opt(Octal())))) }

  /** Exactly n of one parser. */
  function Repeat(g: Grammar, n: nat): Grammar
    requires n > 0
  {
    if n == 1 then g else Seq(g, Repeat(g, n - 1))
  }

  function UnicodeEscape(): Grammar
  {
    Alt(Seq(Slash(117), Repeat(Hex(), 4)), Seq(Slash(85), Repeat(Hex(), 8)))
  }

  function Escape(): Grammar { Alt(SimpleEscape(), Alt(HexEscape(), Alt(OctalEscape(), UnicodeEscape()))) }

  function BodyChar(quote: Byte): Grammar { Alt(One((c: Byte) => IsPlain(quote, c)), Escape()) }

  /** Committed after the opening quote: a bad escape or a missing close is an error, not a backtrack. */
  function QuotedBy(quote: Byte): Grammar
  {
    Seq(Tag([quote]), Cut(Seq(Many(BodyChar(quote)), Tag([quote]))))
  }

  function StringLiteral(): Grammar { Alt(QuotedBy(DOUBLE_QUOTE), QuotedBy(SINGLE_QUOTE)) }

  // ---------------------------------------------------------------- where the grammar's escapes end

  /** How many of the bytes from p on satisfy the class, counting n at most. */
  function CountUpTo(pred: Byte -> bool, s: seq<Byte>, p: nat, n: nat): (k: nat)
    requires p <= |s|
    ensures k <= n && p + k <= |s|
    decreases n
  {
    if n > 0 && p < |s| && pred(s[p]) then 1 + CountUpTo(pred, s, p + 1, n - 1) else 0
  }

  /** The end of the escape that starts at p, by its second byte; 0 when there is none. */
  function EscapeEnd(s: seq<Byte>, p: nat): nat
    requires p <= |s|
  {
    if p + 2 > |s| || s[p] != BACKSLASH then 0
    else
      var e := s[p + 1];
      if IsSimpleEscape(e) then p + 2
      else if e == 120 || e == 88 then
        var k := CountUpTo(IsHex, s, p + 2, 2);
        if k == 0 then 0 else p + 2 + k
      else if IsOctal(e) then p + 1 + CountUpTo(IsOctal, s, p + 1, 3)
      else if e == 117 then if CountUpTo(IsHex, s, p + 2, 4) == 4 then p + 6 else 0
      else if e == 85 then if CountUpTo(IsHex, s, p + 2, 8) == 8 then p + 10 else 0
      else 0
  }

  lemma {:induction false} RepeatCounts(pred: Byte -> bool, s: seq<Byte>, p: nat, n: nat)
    requires p <= |s| && n > 0
    ensures var m := Run(Repeat(One(pred), n), s, p);
            if CountUpTo(pred, s, p, n) == n then m == Past(p + n) else m.Miss? && !m.fatal
    decreases n
  {
    if n == 1 {
      assert CountUpTo(pred, s, p, 1) == if p < |s| && pred(s[p]) then 1 + CountUpTo(pred, s, p + 1, 0) else 0;
    } else if p < |s| && pred(s[p]) {
      RepeatCounts(pred, s, p + 1, n - 1);
    }
  }

  lemma TagOne(c: Byte, s: seq<Byte>, p: nat)
    requires p <= |s|
    ensures Run(Tag([c]), s, p) == if p < |s| && s[p] == c then Past(p + 1) else Miss(p, false)
  {
    if p < |s| {
      assert s[p..p + 1] == [s[p]];
    }
  }

  lemma TagTwo(c: Byte, s: seq<Byte>, p: nat)
    requires p <= |s|
    ensures Run(Slash(c), s, p) == if p + 2 <= |s| && s[p] == BACKSLASH && s[p + 1] == c then Past(p + 2) else Miss(p, false)
  {
    if p + 2 <= |s| {
      assert s[p..p + 2] == [s[p], s[p + 1]];
    }
  }

  lemma SimpleIs(s: seq<Byte>, p: nat)
    requires p <= |s|
    ensures var m := Run(SimpleEscape(), s, p);
            if p + 2 <= |s| && s[p] == BACKSLASH && IsSimpleEscape(s[p + 1]) then m == Past(p + 2) else m.Miss? && !m.fatal
  {
    TagOne(BACKSLASH, s, p);
  }

  lemma HexIs(s: seq<Byte>, p: nat)
    requires p <= |s|
    ensures var m := Run(HexEscape(), s, p);
            if p + 2 <= |s| && s[p] == BACKSLASH && (s[p + 1] == 120 || s[p + 1] == 88) && CountUpTo(IsHex, s, p + 2, 2) > 0
            then m == Past(p + 2 + CountUpTo(IsHex, s, p + 2, 2)) else m.Miss? && !m.fatal
  {
    TagTwo(120, s, p);
    TagTwo(88, s, p);
    assert Run(Alt(Slash(120), Slash(88)), s, p)
        == if p + 2 <= |s| && s[p] == BACKSLASH && (s[p + 1] == 120 || s[p + 1] == 88) then Past(p + 2) else Miss(p, false);
    if p + 2 <= |s| {
      OneThenOptional(IsHex, s, p + 2);
    }
  }

  lemma OneThenOptional(pred: Byte -> bool, s: seq<Byte>, p: nat)
    requires p <= |s|
    ensures var m := Run(Seq(One(pred), Opt(One(pred))), s, p);
            if CountUpTo(pred, s, p, 2) > 0 then m == Past(p + CountUpTo(pred, s, p, 2)) else m.Miss? && !m.fatal
  {
    if p < |s| && pred(s[p]) {
      assert CountUpTo(pred, s, p + 1, 1)
          == if p + 1 < |s| && pred(s[p + 1]) then 1 + CountUpTo(pred, s, p + 2, 0) else 0;
      assert Run(Opt(One(pred)), s, p + 1) == if p + 1 < |s| && pred(s[p + 1]) then Past(p + 2) else Past(p + 1);
    }
  }

  lemma OctalIs(s: seq<Byte>, p: nat)
    requires p <= |s|
    ensures var m := Run(OctalEscape(), s, p);
            if p + 2 <= |s| && s[p] == BACKSLASH && IsOctal(s[p + 1])
            then m == Past(p + 1 + CountUpTo(IsOctal, s, p + 1, 3)) else m.Miss? && !m.fatal
  {
    TagOne(BACKSLASH, s, p);
    if p < |s| && s[p] == BACKSLASH && !(p + 1 < |s| && IsOctal(s[p + 1])) {
      assert Run(Octal(), s, p + 1) == Miss(p + 1, false);
      assert Run(Seq(Octal(), Seq(Opt(Octal()), Opt(Octal()))), s, p + 1) == Miss(p + 1, false);
    }
    if p + 2 <= |s| && s[p] == BACKSLASH && IsOctal(s[p + 1]) {
      var q := p + 2;
      assert CountUpTo(IsOctal, s, p + 1, 3) == 1 + CountUpTo(IsOctal, s, q, 2);
      TwoOptional(s, q);
      assert Run(Seq(Octal(), Seq(Opt(Octal()), Opt(Octal()))), s, p + 1) == Run(Seq(Opt(Octal()), Opt(Octal())), s, q);
    }
  }

  lemma TwoOptional(s: seq<Byte>, q: nat)
    requires q <= |s|
    ensures Run(Seq(Opt(Octal()), Opt(Octal())), s, q) == Past(q + CountUpTo(IsOctal, s, q, 2))
  {
    assert Run(Opt(Octal()), s, q) == if q < |s| && IsOctal(s[q]) then Past(q + 1) else Past(q);
    if q < |s| && IsOctal(s[q]) {
      assert Run(Opt(Octal()), s, q + 1) == if q + 1 < |s| && IsOctal(s[q + 1]) then Past(q + 2) else Past(q + 1);
      assert CountUpTo(IsOctal, s, q + 1, 1)
          == if q + 1 < |s| && IsOctal(s[q + 1]) then 1 + CountUpTo(IsOctal, s, q + 2, 0) else 0;
    }
  }

  /** A backslash, the letter c and n hexadecimal digits. */
  lemma DigitsAfter(c: Byte, n: nat, s: seq<Byte>, p: nat)
    requires p <= |s| && n > 0
    ensures var m := Run(Seq(Slash(c), Repeat(Hex(), n)), s, p);
            if p + 2 <= |s| && s[p] == BACKSLASH && s[p + 1] == c && CountUpTo(IsHex, s, p + 2, n) == n then m == Past(p + 2 + n)
            else m.Miss? && !m.fatal
  {
    hide Repeat, CountUpTo, IsHex;
    TagTwo(c, s, p);
    if p + 2 <= |s| {
      RepeatCounts(IsHex, s, p + 2, n);
    }
  }

  lemma UnicodeIs(s: seq<Byte>, p: nat)
    requires p <= |s|
    ensures var m := Run(UnicodeEscape(), s, p);
            if p + 2 <= |s| && s[p] == BACKSLASH && s[p + 1] == 117 && CountUpTo(IsHex, s, p + 2, 4) == 4 then m == Past(p + 6)
            else if p + 2 <= |s| && s[p] == BACKSLASH && s[p + 1] == 85 && CountUpTo(IsHex, s, p + 2, 8) == 8 then m == Past(p + 10)
            else m.Miss? && !m.fatal
  {
    var a, b := Seq(Slash(117), Repeat(Hex(), 4)), Seq(Slash(85), Repeat(Hex(), 8));
    assert UnicodeEscape() == Alt(a, b);
    hide Repeat, CountUpTo, IsHex, Run;
    DigitsAfter(117, 4, s, p);
    DigitsAfter(85, 8, s, p);
    AltIs(a, b, s, p);
  }

  /** The grammar's escapes end where their second byte and the digits after it say. */
  lemma EscapeIs(s: seq<Byte>, p: nat)
    requires p <= |s|
    ensures var m := Run(Escape(), s, p);
            if EscapeEnd(s, p) > 0 then m == Past(EscapeEnd(s, p)) else m.Miss? && !m.fatal
  {
    hide SimpleEscape, HexEscape, OctalEscape, UnicodeEscape, Run;
    SimpleIs(s, p);
    HexIs(s, p);
    OctalIs(s, p);
    UnicodeIs(s, p);
    AltIs(OctalEscape(), UnicodeEscape(), s, p);
    AltIs(HexEscape(), Alt(OctalEscape(), UnicodeEscape()), s, p);
    AltIs(SimpleEscape(), Alt(HexEscape(), Alt(OctalEscape(), UnicodeEscape())), s, p);
  }

  lemma AltIs(a: Grammar, b: Grammar, s: seq<Byte>, p: nat)
    requires p <= |s| && (Run(a, s, p).Miss? ==> !Run(a, s, p).fatal)
    ensures var m := Run(Alt(a, b), s, p);
            if Run(a, s, p).Past? then m == Run(a, s, p)
            else if Run(b, s, p).Past? then m == Run(b, s, p)
            else m.Miss? && (m.fatal <==> Run(b, s, p).fatal)
  {
  }

  // ---------------------------------------------------------------- the items of a string body

  /** The end of the body item at p: one plain byte, or an escape; 0 when there is none. */
  function ItemEnd(quote: Byte, s: seq<Byte>, p: nat): nat
    requires p <= |s|
  {
    if p < |s| && IsPlain(quote, s[p]) then p + 1 else EscapeEnd(s, p)
  }

  lemma ItemIs(quote: Byte, s: seq<Byte>, p: nat)
    requires p <= |s|
    ensures var m := Run(BodyChar(quote), s, p);
            if ItemEnd(quote, s, p) > 0 then m == Past(ItemEnd(quote, s, p)) else m.Miss? && !m.fatal
    ensures ItemEnd(quote, s, p) == 0 || p < ItemEnd(quote, s, p) <= |s|
  {
    EscapeIs(s, p);
    hide Escape, EscapeEnd, IsPlain;
    var plain := One((c: Byte) => IsPlain(quote, c));
    assert Run(plain, s, p) == if p < |s| && IsPlain(quote, s[p]) then Past(p + 1) else Miss(p, false);
    AltIs(plain, Escape(), s, p);
    EscapeMoves(s, p);
  }

  lemma EscapeMoves(s: seq<Byte>, p: nat)
    requires p <= |s|
    ensures EscapeEnd(s, p) == 0 || p + 2 <= EscapeEnd(s, p) <= |s|
  {
    if p + 2 <= |s| && IsOctal(s[p + 1]) {
      assert CountUpTo(IsOctal, s, p + 1, 3) == 1 + CountUpTo(IsOctal, s, p + 2, 2);
    }
  }

  /** From p, a boundary of the grammar, the items run exactly up to `close`. */
  ghost predicate InBody(quote: Byte, s: seq<Byte>, p: nat, close: nat)
  {
    p <= close <= |s| && Run(Many(BodyChar(quote)), s, p) == Past(close)
  }

  /** Inside the body there is an item at every boundary, and it does not pass the close. */
  lemma BodyStep(quote: Byte, s: seq<Byte>, p: nat, close: nat)
    requires InBody(quote, s, p, close) && p < close
    ensures p < ItemEnd(quote, s, p) <= close && InBody(quote, s, ItemEnd(quote, s, p), close)
  {
    hide BodyChar, ItemEnd;
    ItemIs(quote, s, p);
  }

  /** A quoted literal is a quote, items up to the close, and the quote again. */
  lemma QuotedIs(quote: Byte, s: seq<Byte>, p: nat)
    requires p <= |s| && Run(QuotedBy(quote), s, p).Past?
    ensures var q := Run(QuotedBy(quote), s, p).next;
            p + 2 <= q <= |s| && s[p] == quote && s[q - 1] == quote && InBody(quote, s, p + 1, q - 1)
  {
    hide BodyChar;
    TagOne(quote, s, p);
    var inner := Seq(Many(BodyChar(quote)), Tag([quote]));
    assert Run(QuotedBy(quote), s, p) == Run(Cut(inner), s, p + 1);
    assert Run(inner, s, p + 1).Past?;
    var close := Run(Many(BodyChar(quote)), s, p + 1).next;
    TagOne(quote, s, close);
  }

  // ---------------------------------------------------------------- UTF-8

  const MAX_CODE_POINT: nat := 0x10FFFF

  predicate IsSurrogate(cp: nat) { 0xD800 <= cp <= 0xDFFF }

  predicate IsScalarValue(cp: nat) { cp <= MAX_CODE_POINT && !IsSurrogate(cp) }

  /** The bytes appended for a code point: prefixes and six-bit groups, whose bits do not overlap. */
  function Utf8(cp: nat): seq<Byte>
    requires cp <= MAX_CODE_POINT
  {
    if cp <= 0x7F then [cp]
    else if cp <= 0x7FF then [0xC0 + cp / 64, 0x80 + cp % 64]
    else if cp <= 0xFFFF then [0xE0 + cp / 4096, 0x80 + cp / 64 % 64, 0x80 + cp % 64]
    else [0xF0 + cp / 262144, 0x80 + cp / 4096 % 64, 0x80 + cp / 64 % 64, 0x80 + cp % 64]
  }

  predicate IsTail(b: int) { 0x80 <= b <= 0xBF }

  /** The value bits of a lead byte and of one, two or three tails, most significant first. */
  function Two(lead: int, a: int): int { lead * 64 + (a - 0x80) }
  function Three(lead: int, a: int, b: int): int { lead * 4096 + (a - 0x80) * 64 + (b - 0x80) }
  function Four(lead: int, a: int, b: int, c: int): int
  {
    lead * 262144 + (a - 0x80) * 4096 + (b - 0x80) * 64 + (c - 0x80)
  }

  predicate IsTwo(b0: int, b1: int) { 0xC2 <= b0 <= 0xDF && IsTail(b1) }
  predicate IsThree(b0: int, b1: int, b2: int)
  {
    && 0xE0 <= b0 <= 0xEF && IsTail(b1) && IsTail(b2)
    && (b0 == 0xE0 ==> b1 >= 0xA0) && (b0 == 0xED ==> b1 <= 0x9F)
  }
  predicate IsFour(b0: int, b1: int, b2: int, b3: int)
  {
    && 0xF0 <= b0 <= 0xF4 && IsTail(b1) && IsTail(b2) && IsTail(b3)
    && (b0 == 0xF0 ==> b1 >= 0x90) && (b0 == 0xF4 ==> b1 <= 0x8F)
  }

  /** The code point a byte sequence stands for by the syntax in section 4 of RFC 3629, which shuts out
    * overlong forms and surrogates; -1 when it is not one character. */
  function Utf8Value(b: seq<Byte>): int
  {
    if |b| == 1 && b[0] <= 0x7F then b[0]
    else if |b| == 2 && IsTwo(b[0], b[1]) then Two(b[0] - 0xC0, b[1])
    else if |b| == 3 && IsThree(b[0], b[1], b[2]) then Three(b[0] - 0xE0, b[1], b[2])
    else if |b| == 4 && IsFour(b[0], b[1], b[2], b[3]) then Four(b[0] - 0xF0, b[1], b[2], b[3])
    else -1
  }

  lemma SixBitGroups(n: nat)
    ensures n == n / 64 * 64 + n % 64
    ensures n / 64 == n / 4096 * 64 + n / 64 % 64
    ensures n / 4096 == n / 262144 * 64 + n / 4096 % 64
  {
    Quotients(n, 64);
    Quotients(n, 4096);
  }

  lemma Quotients(n: nat, m: nat)
    requires m == 64 || m == 4096
    ensures n / m / 64 == n / (m * 64)
  {
  }

  /** Every scalar value is written as a byte sequence that stands for it. */
  lemma Utf8RoundTrip(cp: nat)
    requires IsScalarValue(cp)
    ensures Utf8Value(Utf8(cp)) == cp
  {
    SixBitGroups(cp);
    var a, b, c := cp / 64, cp / 4096, cp / 262144;
    var x, y, z := cp % 64, a % 64, b % 64;
    assert cp == a * 64 + x && a == b * 64 + y && b == c * 64 + z;
    if 0x7F < cp <= 0x7FF {
      RoundTripTwo(cp, a, x);
    } else if 0x7FF < cp <= 0xFFFF {
      RoundTripThree(cp, a, b, x, y);
    } else if 0xFFFF < cp {
      RoundTripFour(cp, a, b, c, x, y, z);
    }
  }

  lemma RoundTripTwo(cp: int, a: int, x: int)
    requires 0x7F < cp <= 0x7FF && cp == a * 64 + x && 0 <= x < 64
    ensures IsTwo(0xC0 + a, 0x80 + x) && Two(a, 0x80 + x) == cp
  {
  }

  lemma RoundTripThree(cp: int, a: int, b: int, x: int, y: int)
    requires 0x7FF < cp <= 0xFFFF && IsScalarValue(cp)
    requires cp == a * 64 + x && a == b * 64 + y && 0 <= x < 64 && 0 <= y < 64
    ensures IsThree(0xE0 + b, 0x80 + y, 0x80 + x) && Three(b, 0x80 + y, 0x80 + x) == cp
  {
  }

  lemma RoundTripFour(cp: int, a: int, b: int, c: int, x: int, y: int, z: int)
    requires 0xFFFF < cp <= MAX_CODE_POINT
    requires cp == a * 64 + x && a == b * 64 + y && b == c * 64 + z && 0 <= x < 64 && 0 <= y < 64 && 0 <= z < 64
    ensures IsFour(0xF0 + c, 0x80 + z, 0x80 + y, 0x80 + x) && Four(c, 0x80 + z, 0x80 + y, 0x80 + x) == cp
  {
  }

  /** And it is the only one: whatever stands for a character is what is written for it. */
  lemma Utf8IsUnique(b: seq<Byte>)
    requires Utf8Value(b) >= 0
    ensures IsScalarValue(Utf8Value(b)) && Utf8(Utf8Value(b)) == b
  {
    if |b| == 2 {
      UniqueTwo(b);
    } else if |b| == 3 {
      UniqueThree(b);
    } else if |b| == 4 {
      UniqueFour(b);
    }
  }

  lemma UniqueTwo(b: seq<Byte>)
    requires |b| == 2 && IsTwo(b[0], b[1])
    ensures var cp := Two(b[0] - 0xC0, b[1]); 0x7F < cp <= 0x7FF && Utf8(cp) == b
  {
    SplitsTwo(b[0] - 0xC0, b[1]);
  }

  lemma UniqueThree(b: seq<Byte>)
    requires |b| == 3 && IsThree(b[0], b[1], b[2])
    ensures var cp := Three(b[0] - 0xE0, b[1], b[2]); 0x7FF < cp <= 0xFFFF && IsScalarValue(cp) && Utf8(cp) == b
  {
    SplitsThree(b[0] - 0xE0, b[1], b[2]);
  }

  lemma UniqueFour(b: seq<Byte>)
    requires |b| == 4 && IsFour(b[0], b[1], b[2], b[3])
    ensures var cp := Four(b[0] - 0xF0, b[1], b[2], b[3]); 0xFFFF < cp <= MAX_CODE_POINT && Utf8(cp) == b
  {
    SplitsFour(b[0] - 0xF0, b[1], b[2], b[3]);
  }

  lemma Splits(n: nat, q: nat, r: nat)
    requires n == q * 64 + r && r < 64
    ensures n / 64 == q && n % 64 == r
  {
  }

  lemma SplitsTwo(lead: nat, a: nat)
    requires IsTwo(0xC0 + lead, a)
    ensures var cp := Two(lead, a); 0x7F < cp <= 0x7FF && cp / 64 == lead && cp % 64 == a - 0x80
  {
    Splits(Two(lead, a), lead, a - 0x80);
  }

  lemma SplitsThree(lead: nat, a: nat, b: nat)
    requires IsThree(0xE0 + lead, a, b)
    ensures var cp := Three(lead, a, b);
            && 0x7FF < cp <= 0xFFFF && IsScalarValue(cp)
            && cp / 4096 == lead && cp / 64 % 64 == a - 0x80 && cp % 64 == b - 0x80
  {
    var cp := Three(lead, a, b);
    Splits(cp, lead * 64 + (a - 0x80), b - 0x80);
    Splits(cp / 64, lead, a - 0x80);
    Quotients(cp, 64);
  }

  lemma SplitsFour(lead: nat, a: nat, b: nat, c: nat)
    requires IsFour(0xF0 + lead, a, b, c)
    ensures var cp := Four(lead, a, b, c);
            && 0xFFFF < cp <= MAX_CODE_POINT && cp / 262144 == lead
            && cp / 4096 % 64 == a - 0x80 && cp / 64 % 64 == b - 0x80 && cp % 64 == c - 0x80
  {
    var cp := Four(lead, a, b, c);
    Splits(cp, lead * 4096 + (a - 0x80) * 64 + (b - 0x80), c - 0x80);
    Splits(cp / 64, lead * 64 + (a - 0x80), b - 0x80);
    Splits(cp / 64 / 64, lead, a - 0x80);
    Quotients(cp, 64);
    Quotients(cp, 4096);
  }

  // ---------------------------------------------------------------- what a literal means

  function DigitValue(c: Byte): int
  {
    if IsDecimal(c) then c - 48 else if 97 <= c <= 102 then c - 97 + 10 else c - 65 + 10
  }

  /** The bytes from a to b read as digits. */
  function Number(base: nat, s: seq<Byte>, a: nat, b: nat): int
    requires a <= b <= |s|
    decreases b - a
  {
    if a == b then 0 else Number(base, s, a, b - 1) * base + DigitValue(s[b - 1])
  }

  function SimpleValue(c: Byte): Byte
  {
    if c == 97 then 7 else if c == 98 then 8 else if c == 102 then 12 else if c == 110 then 10
    else if c == 114 then 13 else if c == 116 then 9 else if c == 118 then 11 else c
  }

  datatype Item = Bytes(bytes: seq<Byte>) | OutOfRange | Surrogate

  function CodePoint(cp: int): Item
  {
    if cp < 0 || cp > MAX_CODE_POINT then OutOfRange else if IsSurrogate(cp) then Surrogate else Bytes(Utf8(cp))
  }

  /** The meaning of the item that the grammar recognises from i to j. */
  function ItemValue(s: seq<Byte>, i: nat, j: nat): Item
    requires i < j <= |s| && (s[i] == BACKSLASH ==> i + 2 <= j)
  {
    if s[i] != BACKSLASH then Bytes([s[i]])
    else if IsSimpleEscape(s[i + 1]) then Bytes([SimpleValue(s[i + 1])])
    else if s[i + 1] == 117 || s[i + 1] == 85 then CodePoint(Number(16, s, i + 2, j))
    else if s[i + 1] == 120 || s[i + 1] == 88 then Bytes([Number(16, s, i + 2, j) % 256])
    else Bytes([Number(8, s, i + 1, j) % 256])
  }

  datatype Decoded = Value(bytes: seq<Byte>) | BadEscape(offset: nat, what: Item)

  /** The bytes of the body from i to its close, item by item, after those already decoded. */
  ghost function BodyValue(quote: Byte, s: seq<Byte>, i: nat, close: nat, done: seq<Byte>): Decoded
    requires InBody(quote, s, i, close)
    decreases close - i
  {
    if i == close then Value(done)
    else
      BodyStep(quote, s, i, close);
      var j := ItemEnd(quote, s, i);
      EscapeMoves(s, i);
      match ItemValue(s, i, j)
      case Bytes(b) => BodyValue(quote, s, j, close, done + b)
      case bad => BadEscape(i, bad)
  }

  /** What was decoded before stands in front of the rest, and does not affect it. */
  lemma {:induction false} BodyAppends(quote: Byte, s: seq<Byte>, i: nat, close: nat, done: seq<Byte>, more: seq<Byte>)
    requires InBody(quote, s, i, close)
    ensures BodyValue(quote, s, i, close, done + more) ==
              match BodyValue(quote, s, i, close, more)
              case Value(b) => Value(done + b)
              case BadEscape(off, what) => BadEscape(off, what)
    decreases close - i
  {
    if i < close {
      BodyStep(quote, s, i, close);
      hide InBody, ItemValue, ItemEnd;
      var j := ItemEnd(quote, s, i);
      assert s[i] == BACKSLASH ==> i + 2 <= j by { ItemMoves(quote, s, i); }
      var item := ItemValue(s, i, j);
      if item.Bytes? {
        assert done + more + item.bytes == done + (more + item.bytes);
        BodyAppends(quote, s, j, close, done, more + item.bytes);
      }
    }
  }

  lemma ItemMoves(quote: Byte, s: seq<Byte>, i: nat)
    requires i < |s|
    ensures s[i] == BACKSLASH && ItemEnd(quote, s, i) > 0 ==> i + 2 <= ItemEnd(quote, s, i)
  {
    EscapeMoves(s, i);
  }

  // ---------------------------------------------------------------- the decoder

  /** Reads at most n digits of a class before `hi`. */
  method ReadDigits(hex: bool, n: nat, s: seq<Byte>, start: nat, hi: nat) returns (v: int, i: nat)
    requires start <= hi <= |s|
    ensures start <= i <= hi && v == Number(if hex then 16 else 8, s, start, i)
    ensures start + CountUpTo(if hex then IsHex else IsOctal, s, start, n) < hi ==>
              i == start + CountUpTo(if hex then IsHex else IsOctal, s, start, n)
  {
    var pred := if hex then IsHex else IsOctal;
    var base := if hex then 16 else 8;
    v, i := 0, start;
    var k := 0;
    while k < n && i < hi && pred(s[i])
      invariant 0 <= k <= n && start <= i <= hi && i == start + k
      invariant v == Number(base, s, start, i)
      invariant k + CountUpTo(pred, s, i, n - k) == CountUpTo(pred, s, start, n)
    {
      v := v * base + DigitValue(s[i]);
      i := i + 1;
      k := k + 1;
    }
  }

  /** Reads exactly n bytes as hexadecimal digits, which the grammar has checked. */
  method ReadUnicode(n: nat, s: seq<Byte>, start: nat, hi: nat) returns (r: Item, i: nat)
    requires start + n < hi <= |s|
    ensures i == start + n && r == CodePoint(Number(16, s, start, i))
  {
    var cp, k := 0, 0;
    i := start;
    while k < n && i < hi
      invariant 0 <= k <= n && i == start + k
      invariant cp == Number(16, s, start, i)
    {
      cp := cp * 16 + DigitValue(s[i]);
      i := i + 1;
      k := k + 1;
    }
    r := CodePoint(cp);
  }

  /** Decodes the escape at i, in a literal that ends at hi: stops at the grammar's own boundary. */
  method DecodeEscape(s: seq<Byte>, i: nat, hi: nat) returns (r: Item, j: nat)
    requires i < hi <= |s| && s[i] == BACKSLASH && i + 2 <= EscapeEnd(s, i) < hi
    ensures j == EscapeEnd(s, i) && r == ItemValue(s, i, j)
  {
    var e := s[i + 1];
    if IsSimpleEscape(e) {
      return Bytes([SimpleValue(e)]), i + 2;
    }
    if e == 117 || e == 85 {
      r, j := ReadUnicode(if e == 117 then 4 else 8, s, i + 2, hi);
    } else if e == 120 || e == 88 {
      var v;
      v, j := ReadDigits(true, 2, s, i + 2, hi);
      r := Bytes([v % 256]);
    } else {
      var v;
      v, j := ReadDigits(false, 3, s, i + 1, hi);
      r := Bytes([v % 256]);
    }
  }

  /** Decodes the literal from lo to hi onto `before`: the escapes split at the grammar's boundaries, and
    * the loop ends on the closing quote. */
  method DecodeString(s: seq<Byte>, lo: nat, hi: nat, before: seq<Byte>) returns (r: Decoded)
    requires lo + 2 <= hi <= |s| && InBody(s[lo], s, lo + 1, hi - 1)
    ensures r == BodyValue(s[lo], s, lo + 1, hi - 1, before)
  {
    hide InBody, BodyValue, ItemEnd, EscapeEnd, ItemValue;
    ghost var quote := s[lo];
    var close, i, out := hi - 1, lo + 1, before;
    while i < close
      invariant lo + 1 <= i <= close && InBody(quote, s, i, close)
      invariant BodyValue(quote, s, i, close, out) == BodyValue(quote, s, lo + 1, close, before)
    {
      NextItem(quote, s, i, close, out);
      if s[i] == BACKSLASH {
        var item, j := DecodeEscape(s, i, hi);
        if !item.Bytes? {
          return BadEscape(i, item);
        }
        out, i := out + item.bytes, j;
      } else {
        out, i := out + [s[i]], i + 1;
      }
    }
    BodyDone(quote, s, close, out);
    r := Value(out);
  }

  lemma BodyDone(quote: Byte, s: seq<Byte>, close: nat, out: seq<Byte>)
    requires InBody(quote, s, close, close)
    ensures BodyValue(quote, s, close, close, out) == Value(out)
  {
  }

  lemma NextItem(quote: Byte, s: seq<Byte>, i: nat, close: nat, out: seq<Byte>)
    requires InBody(quote, s, i, close) && i < close
    ensures s[i] != BACKSLASH ==>
              && InBody(quote, s, i + 1, close)
              && BodyValue(quote, s, i, close, out) == BodyValue(quote, s, i + 1, close, out + [s[i]])
    ensures s[i] == BACKSLASH ==>
              var j := EscapeEnd(s, i);
              && i + 2 <= j <= close && InBody(quote, s, j, close)
              && BodyValue(quote, s, i, close, out) ==
                 match ItemValue(s, i, j)
                 case Bytes(b) => BodyValue(quote, s, j, close, out + b)
                 case bad => BadEscape(i, bad)
  {
    hide InBody;
    BodyStep(quote, s, i, close);
    EscapeMoves(s, i);
  }

  // ---------------------------------------------------------------- raw tokens

  datatype Category = Whitespace | Comment | StringLit | Numeric | Ident | Symbol

  predicate IsWhitespace(c: Byte) { c == 32 || 9 <= c <= 13 }
  predicate IsLetter(c: Byte) { 97 <= c <= 122 || 65 <= c <= 90 || c == 95 }
  predicate IsLetterOrDigit(c: Byte) { IsLetter(c) || IsDecimal(c) }
  predicate IsExponent(c: Byte) { c == 101 || c == 69 }
  predicate IsSign(c: Byte) { c == 43 || c == 45 }
  predicate IsDot(c: Byte) { c == 46 }
  predicate InLine(c: Byte) { c != NEWLINE && c != 0 }

  /** One of ; , . : / = - + < > ( ) [ ] { } */
  predicate IsSymbol(c: Byte)
  {
    c == 59 || 44 <= c <= 47 || c == 58 || c == 61 || c == 43 || c == 60 || c == 62
    || c == 40 || c == 41 || c == 91 || c == 93 || c == 123 || c == 125
  }

  function NumericTail(): Grammar
  {
    Alt(One(IsDecimal), Alt(One(IsDot), Alt(Seq(One(IsExponent), Opt(One(IsSign))), One(IsLetter))))
  }

  function GrammarOf(c: Category): Grammar
  {
    match c
    case Whitespace => Seq(One(IsWhitespace), TakeWhile(IsWhitespace))
    case Comment =>
      Alt(Seq(Tag([47, 47]), TakeWhile(InLine)), Seq(Tag([47, 42]), Cut(Seq(TakeUntil([42, 47]), Tag([42, 47])))))
    case StringLit => StringLiteral()
    case Numeric => Seq(Opt(Tag([46])), Seq(One(IsDecimal), Many(NumericTail())))
    case Ident => Seq(One(IsLetter), TakeWhile(IsLetterOrDigit))
    case Symbol => One(IsSymbol)
  }

  const CATEGORIES: seq<Category> := [Whitespace, Comment, StringLit, Numeric, Ident, Symbol]

  datatype Raw = Got(cat: Category, next: nat) | Stuck(at: nat, fatal: bool)

  /** The first category that matches at p, from the k-th on; a committed failure stops the search. */
  function NextRaw(k: nat, s: seq<Byte>, p: nat): (r: Raw)
    requires k < |CATEGORIES| && p <= |s|
    ensures r.Got? ==> r.next <= |s| && Run(GrammarOf(r.cat), s, p) == Past(r.next)
    ensures r.Stuck? ==> p <= r.at <= |s|
    decreases |CATEGORIES| - k
  {
    match Run(GrammarOf(CATEGORIES[k]), s, p)
    case Past(q) => Got(CATEGORIES[k], q)
    case Miss(at, fatal) =>
      if fatal || k == |CATEGORIES| - 1 then Stuck(at, fatal)
      else
        match NextRaw(k + 1, s, p)
        case Got(c, q) => Got(c, q)
        case Stuck(at', fatal') => if fatal' || at < at' then Stuck(at', fatal') else Stuck(at, false)
  }

  /** Every category consumes something, so the stream always moves on. */
  lemma CategoryMoves(c: Category, s: seq<Byte>, p: nat)
    requires p <= |s| && Run(GrammarOf(c), s, p).Past?
    ensures Run(GrammarOf(c), s, p).next > p
  {
    hide BodyChar, NumericTail, SkipWhile, Find;
    match c
    case StringLit => StringIs(s, p);
    case Comment => CommentMoves(s, p);
    case Numeric => NumericMoves(s, p);
    case _ =>
  }

  lemma CommentMoves(s: seq<Byte>, p: nat)
    requires p <= |s| && Run(GrammarOf(Comment), s, p).Past?
    ensures Run(GrammarOf(Comment), s, p).next > p
  {
    hide SkipWhile, Find;
    var line, block := Seq(Tag([47, 47]), TakeWhile(InLine)), Seq(Tag([47, 42]), Cut(Seq(TakeUntil([42, 47]), Tag([42, 47]))));
    SeqMoves(Tag([47, 47]), TakeWhile(InLine), s, p);
    SeqMoves(Tag([47, 42]), Cut(Seq(TakeUntil([42, 47]), Tag([42, 47]))), s, p);
    assert Run(Alt(line, block), s, p).Past?;
  }

  /** A sequence whose first part consumes something does. */
  lemma SeqMoves(a: Grammar, b: Grammar, s: seq<Byte>, p: nat)
    requires p <= |s| && (Run(a, s, p).Past? ==> Run(a, s, p).next > p)
    ensures Run(Seq(a, b), s, p).Past? ==> Run(Seq(a, b), s, p).next > p
  {
  }

  lemma NumericMoves(s: seq<Byte>, p: nat)
    requires p <= |s| && Run(GrammarOf(Numeric), s, p).Past?
    ensures Run(GrammarOf(Numeric), s, p).next > p
  {
    hide NumericTail;
    var rest := Seq(One(IsDecimal), Many(NumericTail()));
    var q := Run(Opt(Tag([46])), s, p).next;
    assert Run(GrammarOf(Numeric), s, p) == Run(rest, s, q);
    SeqMoves(One(IsDecimal), Many(NumericTail()), s, q);
  }

  /** A string token is a quoted literal of the quote it starts with. */
  lemma StringIs(s: seq<Byte>, p: nat)
    requires p <= |s| && Run(StringLiteral(), s, p).Past?
    ensures var q := Run(StringLiteral(), s, p).next;
            p + 2 <= q <= |s| && s[q - 1] == s[p] && InBody(s[p], s, p + 1, q - 1)
  {
    hide QuotedBy, InBody;
    if Run(QuotedBy(DOUBLE_QUOTE), s, p).Past? {
      QuotedIs(DOUBLE_QUOTE, s, p);
    } else {
      assert Run(QuotedBy(SINGLE_QUOTE), s, p).Past?;
      QuotedIs(SINGLE_QUOTE, s, p);
    }
  }

  datatype RawToken = RawToken(cat: Category, lo: nat, hi: nat)

  /** Each token starts where the one before it ends, and is what its category recognises there. */
  ghost predicate Covers(s: seq<Byte>, start: nat, raws: seq<RawToken>, end: nat)
  {
    && start <= end <= |s|
    && (raws == [] ==> start == end)
    && (raws != [] ==> raws[0].lo == start && raws[|raws| - 1].hi == end)
    && (forall k, l :: 0 <= k && l == k + 1 && l < |raws| ==> raws[k].hi == raws[l].lo)
    && (forall k :: 0 <= k < |raws| ==> IsRaw(s, raws[k]))
  }

  ghost predicate IsRaw(s: seq<Byte>, r: RawToken)
  {
    r.lo < r.hi <= |s| && NextRaw(0, s, r.lo) == Got(r.cat, r.hi)
  }

  datatype Stream = Raws(raws: seq<RawToken>, rest: nat) | Committed(at: nat)

  /** The spans of the raw tokens, one after another. */
  function Spans(s: seq<Byte>, raws: seq<RawToken>): seq<Byte>
    requires forall k :: 0 <= k < |raws| ==> raws[k].lo <= raws[k].hi <= |s|
  {
    if raws == [] then [] else Spans(s, raws[..|raws| - 1]) + s[raws[|raws| - 1].lo..raws[|raws| - 1].hi]
  }

  /** The spans of the raw tokens concatenate to the text they cover. */
  lemma {:induction false} SpansConcatenate(s: seq<Byte>, start: nat, raws: seq<RawToken>, end: nat)
    requires Covers(s, start, raws, end)
    ensures forall k :: 0 <= k < |raws| ==> raws[k].lo <= raws[k].hi <= |s|
    ensures Spans(s, raws) == s[start..end]
    decreases |raws|
  {
    hide NextRaw;
    assert forall k :: 0 <= k < |raws| ==> IsRaw(s, raws[k]);
    if raws != [] {
      var n := |raws| - 1;
      if n > 0 {
        assert raws[n - 1].hi == raws[n].lo;
        CoversPrefix(s, start, raws, end);
        SpansConcatenate(s, start, raws[..n], raws[n].lo);
      }
      assert s[start..end] == s[start..raws[n].lo] + s[raws[n].lo..end];
    }
  }

  lemma CoversPrefix(s: seq<Byte>, start: nat, raws: seq<RawToken>, end: nat)
    requires Covers(s, start, raws, end) && |raws| > 1
    ensures start <= raws[|raws| - 1].lo && Covers(s, start, raws[..|raws| - 1], raws[|raws| - 1].lo)
  {
    hide NextRaw;
    var n := |raws| - 1;
    assert raws[n - 1].hi == raws[n].lo;
    assert IsRaw(s, raws[n]);
    RawsAscend(s, start, raws, end, 0, n);
  }

  /** Earlier raw tokens end before later ones start. */
  lemma {:induction false} RawsAscend(s: seq<Byte>, start: nat, raws: seq<RawToken>, end: nat, k: nat, l: nat)
    requires Covers(s, start, raws, end) && k < l < |raws|
    ensures raws[k].lo < raws[k].hi <= raws[l].lo < raws[l].hi
    decreases l
  {
    hide NextRaw;
    assert IsRaw(s, raws[k]) && IsRaw(s, raws[l]);
    assert raws[l - 1].hi == raws[l].lo;
    if k < l - 1 {
      RawsAscend(s, start, raws, end, k, l - 1);
    }
  }

  /** The raw tokens from p on, after those already found: the longest run, or a committed failure. */
  ghost function StreamFrom(s: seq<Byte>, p: nat, found: seq<RawToken>): Stream
    requires p <= |s|
    decreases |s| - p
  {
    match NextRaw(0, s, p)
    case Stuck(at, fatal) => if fatal then Committed(at) else Raws(found, p)
    case Got(cat, next) =>
      CategoryMoves(cat, s, p);
      StreamFrom(s, next, found + [RawToken(cat, p, next)])
  }

  /** Splits the input into raw tokens as far as some category matches. */
  method TokenStream(s: seq<Byte>, start: nat) returns (r: Stream)
    requires start <= |s|
    ensures r == StreamFrom(s, start, [])
    ensures r.Raws? ==> Covers(s, start, r.raws, r.rest) && NextRaw(0, s, r.rest).Stuck? && !NextRaw(0, s, r.rest).fatal
    ensures r.Committed? ==> start <= r.at <= |s|
  {
    hide NextRaw, GrammarOf;
    var raws, p: nat := [], start;
    while true
      invariant p <= |s| && Covers(s, start, raws, p)
      invariant StreamFrom(s, p, raws) == StreamFrom(s, start, [])
      decreases |s| - p
    {
      var next := NextRaw(0, s, p);
      if next.Stuck? {
        return if next.fatal then Committed(next.at) else Raws(raws, p);
      }
      CategoryMoves(next.cat, s, p);
      assert IsRaw(s, RawToken(next.cat, p, next.next));
      CoversMore(s, start, raws, p, RawToken(next.cat, p, next.next));
      raws := raws + [RawToken(next.cat, p, next.next)];
      p := next.next;
    }
  }

  lemma CoversMore(s: seq<Byte>, start: nat, raws: seq<RawToken>, p: nat, r: RawToken)
    requires Covers(s, start, raws, p) && IsRaw(s, r) && r.lo == p
    ensures Covers(s, start, raws + [r], r.hi)
  {
    hide IsRaw;
    assert r.lo < r.hi <= |s| by { IsRawMoves(s, r); }
  }

  lemma IsRawMoves(s: seq<Byte>, r: RawToken)
    requires IsRaw(s, r)
    ensures r.lo < r.hi <= |s|
  {
  }

  // ---------------------------------------------------------------- tokens

  function Digits1(pred: Byte -> bool): Grammar { Seq(One(pred), TakeWhile(pred)) }

  function Exponent(): Grammar { Seq(One(IsExponent), Seq(Opt(One(IsSign)), Digits1(IsDecimal))) }

  /** Hexadecimal, octal, zero or decimal. */
  function IntLiteral(): Grammar
  {
    Alt(Seq(Tag([48]), Seq(One((c: Byte) => c == 120 || c == 88), Digits1(IsHex))),
        Alt(Seq(Tag([48]), Digits1(IsOctal)),
            Alt(Tag([48]), Seq(One((c: Byte) => 49 <= c <= 57), TakeWhile(IsDecimal)))))
  }

  function FloatLiteral(): Grammar
  {
    Alt(Seq(Digits1(IsDecimal), Seq(Tag([46]), Seq(TakeWhile(IsDecimal), Opt(Exponent())))),
        Alt(Seq(Digits1(IsDecimal), Exponent()),
            Seq(Tag([46]), Seq(Digits1(IsDecimal), Opt(Exponent())))))
  }

  /** The greedy munch is a number only when one of the literal grammars takes all of it. */
  predicate IsNumber(text: seq<Byte>)
  {
    Run(IntLiteral(), text, 0) == Past(|text|) || Run(FloatLiteral(), text, 0) == Past(|text|)
  }

  const KEYWORDS: set<string> := {
    "syntax", "edition", "package", "import", "weak", "public", "option", "export", "local", "message",
    "enum", "service", "extend", "extensions", "rpc", "returns", "stream", "group", "oneof", "required",
    "optional", "repeated", "int32", "int64", "uint32", "uint64", "sint32", "sint64", "fixed32", "fixed64",
    "sfixed32", "sfixed64", "float", "double", "bool", "string", "bytes", "reserved", "map", "to", "max",
    "inf", "nan"
  }

  datatype TokenKind = Word | Keyword(text: string) | Int | Float | Str | Mark(c: Byte)

  function TextOf(b: seq<Byte>): string
  {
    seq(|b|, i requires 0 <= i < |b| => b[i] as char)
  }

  /** A word is a keyword when its text is one, a number an integer when the integer grammar takes all of it. */
  function KindOf(cat: Category, text: seq<Byte>): TokenKind
    requires text != []
  {
    match cat
    case StringLit => Str
    case Numeric => if Run(IntLiteral(), text, 0) == Past(|text|) then Int else Float
    case Symbol => Mark(text[0])
    case _ => if TextOf(text) in KEYWORDS then Keyword(TextOf(text)) else Word
  }

  // The category and kind of a token, its text as a span, and a string's decoded value.
  datatype Token = Token(cat: Category, kind: TokenKind, lo: nat, hi: nat, value: seq<Byte>)

  datatype LexError = BadNumber | BadEscapeAt(what: Item) | NulInComment | Unexpected | Unfinished

  datatype Lexed<T> = Ok(value: T) | Err(error: LexError, offset: nat)

  predicate IsTrivia(r: RawToken) { r.cat == Whitespace || r.cat == Comment }

  /** The index of the first NUL in the span, or its end. */
  method FindNul(s: seq<Byte>, lo: nat, hi: nat) returns (i: nat)
    requires lo <= hi <= |s|
    ensures lo <= i <= hi && (i < hi ==> s[i] == 0) && forall k :: lo <= k < i ==> s[k] != 0
  {
    i := lo;
    while i < hi && s[i] != 0
      invariant lo <= i <= hi && forall k :: lo <= k < i ==> s[k] != 0
    {
      i := i + 1;
    }
  }

  ghost predicate AllRaw(s: seq<Byte>, raws: seq<RawToken>)
  {
    forall k :: 0 <= k < |raws| ==> IsRaw(s, raws[k])
  }

  lemma LiteralIs(s: seq<Byte>, r: RawToken)
    requires IsRaw(s, r) && r.cat == StringLit
    ensures r.lo + 2 <= r.hi <= |s| && InBody(s[r.lo], s, r.lo + 1, r.hi - 1)
  {
    StringIs(s, r.lo);
  }

  /** A comment without NUL, a number that is one, a literal whose escapes name characters. */
  ghost predicate IsSound(s: seq<Byte>, r: RawToken)
    requires IsRaw(s, r)
  {
    match r.cat
    case Comment => forall k :: r.lo <= k < r.hi ==> s[k] != 0
    case Numeric => IsNumber(s[r.lo..r.hi])
    case StringLit =>
      LiteralIs(s, r);
      BodyValue(s[r.lo], s, r.lo + 1, r.hi - 1, []).Value?
    case _ => true
  }

  /** What is wrong with a raw token, and where: the first NUL of a comment, a number that is none at its start, or the first
    * escape of a literal that names no character. */
  ghost predicate IsFault(s: seq<Byte>, r: RawToken, e: LexError, off: nat)
    requires IsRaw(s, r)
  {
    match r.cat
    case Comment => r.lo <= off < r.hi <= |s| && s[off] == 0 && e == NulInComment && forall k :: r.lo <= k < off ==> s[k] != 0
    case Numeric => off == r.lo && e == BadNumber && !IsNumber(s[r.lo..r.hi])
    case StringLit =>
      LiteralIs(s, r);
      && e.BadEscapeAt? && BodyValue(s[r.lo], s, r.lo + 1, r.hi - 1, []) == BadEscape(off, e.what)
    case _ => false
  }

  /** Among the raw tokens from i on, the first that is not sound has this fault. */
  ghost predicate FirstFault(s: seq<Byte>, raws: seq<RawToken>, i: nat, e: LexError, off: nat)
    requires AllRaw(s, raws)
  {
    exists k :: i <= k < |raws| && IsFault(s, raws[k], e, off) && forall l :: i <= l < k ==> IsSound(s, raws[l])
  }

  lemma FaultIsUnsound(s: seq<Byte>, r: RawToken, e: LexError, off: nat)
    requires IsRaw(s, r) && IsFault(s, r, e, off)
    ensures !IsSound(s, r) && off <= |s|
  {
    hide InBody, IsNumber;
    IsRawMoves(s, r);
    if r.cat == StringLit {
      LiteralIs(s, r);
      BadEscapeInside(s[r.lo], s, r.lo + 1, r.hi - 1, []);
    }
  }

  lemma FaultShows(s: seq<Byte>, raws: seq<RawToken>, i: nat, k: nat, e: LexError, off: nat)
    requires AllRaw(s, raws) && i <= k < |raws| && IsFault(s, raws[k], e, off) && forall l :: i <= l < k ==> IsSound(s, raws[l])
    ensures FirstFault(s, raws, i, e, off) && off <= |s| && !IsSound(s, raws[k])
  {
    FaultIsUnsound(s, raws[k], e, off);
    hide IsFault, IsSound;
  }

  lemma EscapeFault(s: seq<Byte>, r: RawToken, done: seq<Byte>, off: nat, what: Item)
    requires IsRaw(s, r) && r.cat == StringLit && r.lo + 2 <= r.hi <= |s| && InBody(s[r.lo], s, r.lo + 1, r.hi - 1)
    requires BodyValue(s[r.lo], s, r.lo + 1, r.hi - 1, done) == BadEscape(off, what)
    ensures IsFault(s, r, BadEscapeAt(what), off)
  {
    hide InBody, BodyValue;
    BodyAppends(s[r.lo], s, r.lo + 1, r.hi - 1, done, []);
    assert done + [] == done;
  }

  lemma BodyVerdict(quote: Byte, s: seq<Byte>, i: nat, close: nat, done: seq<Byte>)
    requires InBody(quote, s, i, close)
    ensures BodyValue(quote, s, i, close, done).Value? <==> BodyValue(quote, s, i, close, []).Value?
  {
    hide InBody, BodyValue;
    BodyAppends(quote, s, i, close, done, []);
    assert done + [] == done;
  }

  lemma LiteralSound(s: seq<Byte>, r: RawToken, done: seq<Byte>)
    requires IsRaw(s, r) && r.cat == StringLit
    ensures r.lo + 2 <= r.hi <= |s| && InBody(s[r.lo], s, r.lo + 1, r.hi - 1)
    ensures BodyValue(s[r.lo], s, r.lo + 1, r.hi - 1, done).Value? <==> IsSound(s, r)
  {
    hide IsRaw, InBody, BodyValue;
    LiteralIs(s, r);
    BodyVerdict(s[r.lo], s, r.lo + 1, r.hi - 1, done);
  }

  /** The values of the literals among the raw tokens from a up to b, one after another. */
  ghost function RunValue(s: seq<Byte>, raws: seq<RawToken>, a: nat, b: nat): Decoded
    requires a <= b <= |raws| && AllRaw(s, raws)
    decreases b - a
  {
    if a == b then Value([])
    else
      match RunValue(s, raws, a, b - 1)
      case BadEscape(off, what) => BadEscape(off, what)
      case Value(done) =>
        var r := raws[b - 1];
        if r.cat != StringLit then Value(done)
        else
          LiteralIs(s, r);
          BodyValue(s[r.lo], s, r.lo + 1, r.hi - 1, done)
  }

  /** The token is the raw tokens from a to b: one alone, or a run of literals with trivia between. */
  ghost predicate IsToken(s: seq<Byte>, raws: seq<RawToken>, t: Token, a: nat, b: nat)
    requires AllRaw(s, raws)
  {
    && a <= b < |raws| && raws[a].cat != Whitespace && raws[a].cat != Comment
    && t.cat == raws[a].cat == raws[b].cat && t.lo == raws[a].lo && t.hi == raws[b].hi
    && (IsRawMoves(s, raws[a]); t.kind == KindOf(t.cat, s[raws[a].lo..raws[a].hi]))
    && (if t.cat == StringLit
        then (forall k :: a <= k <= b ==> raws[k].cat in {Whitespace, Comment, StringLit})
             && RunValue(s, raws, a, b + 1) == Value(t.value)
        else a == b && t.value == [])
  }

  datatype Span = Span(first: nat, last: nat)

  /** The tokens account for the raw tokens before i: each is a run of them, in order and apart, every
    * one that is not trivia belongs to a token, and no two string tokens are neighbours. */
  ghost predicate Accounts(s: seq<Byte>, raws: seq<RawToken>, ts: seq<Token>, spans: seq<Span>, i: nat)
    requires AllRaw(s, raws)
  {
    && |ts| == |spans| && i <= |raws|
    && (forall k :: 0 <= k < |ts| ==> IsToken(s, raws, ts[k], spans[k].first, spans[k].last) && spans[k].last < i)
    && (forall k, l :: 0 <= k < l < |ts| ==> spans[k].last < spans[l].first)
    && (forall r :: 0 <= r < i && raws[r].cat != Whitespace && raws[r].cat != Comment ==> InSome(spans, r))
    && (forall k, l :: 0 <= k && l == k + 1 && l < |ts| ==> ts[k].cat != StringLit || ts[l].cat != StringLit)
    && (|ts| > 0 && ts[|ts| - 1].cat == StringLit && i < |raws| ==> EndsRun(raws[i]))
  }

  /** Neither another literal nor trivia before one. */
  predicate EndsRun(r: RawToken) { r.cat != StringLit && !IsTrivia(r) }

  ghost predicate InSome(spans: seq<Span>, r: nat)
  {
    exists k :: 0 <= k < |spans| && spans[k].first <= r <= spans[k].last
  }

  /** Merges the run of literals that starts at i, and passes the trivia after it. */
  method AppendString(s: seq<Byte>, raws: seq<RawToken>, i: nat) returns (r: Lexed<Token>, j: nat, ghost last: nat)
    requires AllRaw(s, raws) && i < |raws| && raws[i].cat == StringLit
    ensures r.Err? ==> r.offset <= |s| && FirstFault(s, raws, i, r.error, r.offset) && exists k :: 0 <= k < |raws| && !IsSound(s, raws[k])
    ensures r.Ok? ==> j <= |raws| && forall k :: i <= k < j ==> IsSound(s, raws[k])
    ensures r.Ok? ==>
      && i <= last < j <= |raws| && IsToken(s, raws, r.value, i, last)
      && (forall k :: last < k < j ==> IsTrivia(raws[k]))
      && r.value.cat == StringLit && (j < |raws| ==> EndsRun(raws[j]))
  {
    hide IsRaw, InBody, BodyValue, IsSound, IsFault, FirstFault;
    j, last := i, i;
    var value, end := [], raws[i].lo;
    while true
      invariant i <= j < |raws| && raws[j].cat == StringLit
      invariant forall k :: i <= k <= j ==> IsTrivia(raws[k]) || raws[k].cat == StringLit
      invariant RunValue(s, raws, i, j) == Value(value)
      invariant forall k :: i <= k < j ==> IsSound(s, raws[k])
      decreases |raws| - j
    {
      LiteralSound(s, raws[j], value);
      var d := DecodeString(s, raws[j].lo, raws[j].hi, value);
      if d.BadEscape? {
        EscapeFault(s, raws[j], value, d.offset, d.what);
        FaultShows(s, raws, i, j, BadEscapeAt(d.what), d.offset);
        return Err(BadEscapeAt(d.what), d.offset), j, last;
      }
      value, end, last := d.bytes, raws[j].hi, j;
      j := j + 1;
      while j < |raws| && IsTrivia(raws[j])
        invariant last < j <= |raws|
        invariant forall k :: last < k < j ==> IsTrivia(raws[k])
        invariant RunValue(s, raws, i, j) == Value(value)
        invariant forall k :: i <= k < j ==> IsSound(s, raws[k])
      {
        TriviaSound(s, raws[j]);
        if raws[j].cat == Comment {
          var nul := FindNul(s, raws[j].lo, raws[j].hi);
          if nul < raws[j].hi {
            NulFault(s, raws[j], nul);
            FaultShows(s, raws, i, j, NulInComment, nul);
            return Err(NulInComment, nul), j, last;
          }
        }
        j := j + 1;
      }
      if j == |raws| || raws[j].cat != StringLit {
        TrivialTail(s, raws, i, last, j);
        return Ok(Token(StringLit, Str, raws[i].lo, end, value)), j, last;
      }
    }
  }

  lemma NulFault(s: seq<Byte>, r: RawToken, nul: nat)
    requires IsRaw(s, r) && r.cat == Comment && r.lo <= nul < r.hi <= |s| && s[nul] == 0
    requires forall k :: r.lo <= k < nul ==> s[k] != 0
    ensures IsFault(s, r, NulInComment, nul)
  {
  }

  lemma NumberFault(s: seq<Byte>, r: RawToken)
    requires IsRaw(s, r) && r.cat == Numeric && r.lo <= r.hi <= |s| && !IsNumber(s[r.lo..r.hi])
    ensures IsFault(s, r, BadNumber, r.lo)
  {
    hide IsNumber;
  }

  lemma TriviaSound(s: seq<Byte>, r: RawToken)
    requires IsRaw(s, r) && r.cat != StringLit
    ensures r.lo < r.hi <= |s|
    ensures r.cat == Comment ==> (IsSound(s, r) <==> forall k :: r.lo <= k < r.hi ==> s[k] != 0)
    ensures r.cat == Numeric ==> (IsSound(s, r) <==> IsNumber(s[r.lo..r.hi]))
    ensures r.cat != Comment && r.cat != Numeric ==> IsSound(s, r)
  {
    hide IsNumber;
  }

  lemma {:induction false} TrivialTail(s: seq<Byte>, raws: seq<RawToken>, a: nat, last: nat, j: nat)
    requires AllRaw(s, raws) && a <= last < j <= |raws| && forall k :: last < k < j ==> IsTrivia(raws[k])
    requires RunValue(s, raws, a, j).Value?
    ensures RunValue(s, raws, a, last + 1) == RunValue(s, raws, a, j)
    decreases j
  {
    hide IsRaw, InBody, BodyValue;
    if last + 1 < j {
      TrivialTail(s, raws, a, last, j - 1);
    }
  }

  lemma {:induction false} BadEscapeInside(quote: Byte, s: seq<Byte>, i: nat, close: nat, done: seq<Byte>)
    requires InBody(quote, s, i, close) && BodyValue(quote, s, i, close, done).BadEscape?
    ensures i <= BodyValue(quote, s, i, close, done).offset < close
    decreases close - i
  {
    BodyStep(quote, s, i, close);
    hide InBody, ItemValue, ItemEnd, EscapeEnd;
    var j := ItemEnd(quote, s, i);
    ItemMoves(quote, s, i);
    if ItemValue(s, i, j).Bytes? {
      BadEscapeInside(quote, s, j, close, done + ItemValue(s, i, j).bytes);
    }
  }

  /** Classifies and decodes the raw tokens; whitespace and comments leave no token. */
  method BuildTokens(s: seq<Byte>, raws: seq<RawToken>) returns (r: Lexed<seq<Token>>, ghost spans: seq<Span>)
    requires AllRaw(s, raws)
    ensures r.Err? ==> r.offset <= |s| && FirstFault(s, raws, 0, r.error, r.offset)
    ensures r.Ok? <==> forall k :: 0 <= k < |raws| ==> IsSound(s, raws[k])
    ensures r.Ok? ==> Accounts(s, raws, r.value, spans, |raws|)
  {
    hide IsRaw, IsToken, IsNumber, IsSound, KindOf, IsFault, FirstFault;
    var ts: seq<Token> := [];
    spans := [];
    var i := 0;
    while i < |raws|
      invariant i <= |raws| && Accounts(s, raws, ts, spans, i)
      invariant forall k :: 0 <= k < i ==> IsSound(s, raws[k])
      decreases |raws| - i
    {
      var rt := raws[i];
      if rt.cat != StringLit {
        TriviaSound(s, rt);
      }
      if rt.cat == StringLit {
        var t, j;
        ghost var last;
        t, j, last := AppendString(s, raws, i);
        if t.Err? {
          FaultFromStart(s, raws, i, t.error, t.offset);
          return Err(t.error, t.offset), spans;
        }
        AccountsMore(s, raws, ts, spans, i, t.value, last, j);
        ts, spans, i := ts + [t.value], spans + [Span(i, last)], j;
      } else if IsTrivia(rt) {
        if rt.cat == Comment {
          var nul := FindNul(s, rt.lo, rt.hi);
          if nul < rt.hi {
            NulFault(s, rt, nul);
            FaultShows(s, raws, 0, i, NulInComment, nul);
            return Err(NulInComment, nul), spans;
          }
        }
        AccountsTrivia(s, raws, ts, spans, i);
        i := i + 1;
      } else {
        if rt.cat == Numeric && !IsNumber(s[rt.lo..rt.hi]) {
          NumberFault(s, rt);
          FaultShows(s, raws, 0, i, BadNumber, rt.lo);
          return Err(BadNumber, rt.lo), spans;
        }
        var t := Token(rt.cat, KindOf(rt.cat, s[rt.lo..rt.hi]), rt.lo, rt.hi, []);
        assert IsToken(s, raws, t, i, i) by { LoneToken(s, raws, i); }
        AccountsMore(s, raws, ts, spans, i, t, i, i + 1);
        ts, spans, i := ts + [t], spans + [Span(i, i)], i + 1;
      }
    }
    r := Ok(ts);
  }

  lemma FaultFromStart(s: seq<Byte>, raws: seq<RawToken>, i: nat, e: LexError, off: nat)
    requires AllRaw(s, raws) && FirstFault(s, raws, i, e, off) && forall k :: 0 <= k < i <= |raws| ==> IsSound(s, raws[k])
    ensures FirstFault(s, raws, 0, e, off)
  {
    hide IsFault, IsSound, IsRaw;
    var k :| i <= k < |raws| && IsFault(s, raws[k], e, off) && forall l :: i <= l < k ==> IsSound(s, raws[l]);
    assert forall l :: 0 <= l < k ==> IsSound(s, raws[l]);
  }

  lemma LoneToken(s: seq<Byte>, raws: seq<RawToken>, i: nat)
    requires AllRaw(s, raws) && i < |raws| && !IsTrivia(raws[i]) && raws[i].cat != StringLit
    ensures raws[i].lo < raws[i].hi <= |s|
    ensures IsToken(s, raws, Token(raws[i].cat, KindOf(raws[i].cat, s[raws[i].lo..raws[i].hi]), raws[i].lo, raws[i].hi, []), i, i)
  {
  }

  lemma AccountsTrivia(s: seq<Byte>, raws: seq<RawToken>, ts: seq<Token>, spans: seq<Span>, i: nat)
    requires AllRaw(s, raws) && Accounts(s, raws, ts, spans, i) && i < |raws| && IsTrivia(raws[i])
    ensures Accounts(s, raws, ts, spans, i + 1)
  {
    hide IsRaw, IsToken;
  }

  lemma AccountsMore(s: seq<Byte>, raws: seq<RawToken>, ts: seq<Token>, spans: seq<Span>, i: nat, t: Token, last: nat, j: nat)
    requires AllRaw(s, raws) && Accounts(s, raws, ts, spans, i) && i <= last < j <= |raws|
    requires IsToken(s, raws, t, i, last) && t.cat == raws[i].cat
    requires forall k :: last < k < j ==> IsTrivia(raws[k])
    requires t.cat == StringLit && j < |raws| ==> EndsRun(raws[j])
    ensures Accounts(s, raws, ts + [t], spans + [Span(i, last)], j)
  {
    hide IsRaw, IsToken;
    var more := spans + [Span(i, last)];
    assert more[|spans|] == Span(i, last);
    forall r | 0 <= r < j && !IsTrivia(raws[r]) ensures InSome(more, r) {
      if r < i {
        assert InSome(spans, r);
        var k :| 0 <= k < |spans| && spans[k].first <= r <= spans[k].last;
        assert more[k] == spans[k];
      }
    }
  }

  /** Token texts are disjoint and in source order. */
  lemma TokensAscend(s: seq<Byte>, start: nat, raws: seq<RawToken>, ts: seq<Token>, spans: seq<Span>, k: nat, l: nat)
    requires Covers(s, start, raws, |s|) && AllRaw(s, raws)
    requires Accounts(s, raws, ts, spans, |raws|) && k < l < |ts|
    ensures start <= ts[k].lo < ts[k].hi <= ts[l].lo < ts[l].hi <= |s|
  {
    hide IsRaw;
    var a, b := spans[k], spans[l];
    RawsAscend(s, start, raws, |s|, a.last, b.first);
    FromStart(s, start, raws, |s|, a.first);
    FromStart(s, start, raws, |s|, b.last);
    if a.first < a.last {
      RawsAscend(s, start, raws, |s|, a.first, a.last);
    }
    if b.first < b.last {
      RawsAscend(s, start, raws, |s|, b.first, b.last);
    }
  }

  lemma FromStart(s: seq<Byte>, start: nat, raws: seq<RawToken>, end: nat, k: nat)
    requires Covers(s, start, raws, end) && k < |raws|
    ensures start <= raws[k].lo < raws[k].hi <= |s|
  {
    IsRawMoves(s, raws[k]);
    hide IsRaw;
    if k > 0 {
      RawsAscend(s, start, raws, end, 0, k);
    }
  }

  predicate HasBom(s: seq<Byte>) { |s| >= 3 && s[0] == 0xEF && s[1] == 0xBB && s[2] == 0xBF }

  function Start(s: seq<Byte>): nat { if HasBom(s) then 3 else 0 }

  ghost predicate AllSound(s: seq<Byte>, raws: seq<RawToken>)
  {
    forall k :: 0 <= k < |raws| ==> IsRaw(s, raws[k]) && IsSound(s, raws[k])
  }

  /** Lexes a whole source: on success the raw tokens cover everything after the byte order mark, and the
    * tokens account for all of them; an error is at a place in the source. */
  method Lex(s: seq<Byte>) returns (r: Lexed<seq<Token>>, ghost raws: seq<RawToken>, ghost spans: seq<Span>)
    ensures r.Err? ==> r.offset <= |s|
    ensures r.Err? ==>
              var stream := StreamFrom(s, Start(s), []);
              if stream.Committed? then r == Err(Unfinished, stream.at)
              else if AllSound(s, stream.raws) then r == Err(Unexpected, stream.rest)
              else AllRaw(s, stream.raws) && FirstFault(s, stream.raws, 0, r.error, r.offset)
    ensures r.Ok? <==>
              var stream := StreamFrom(s, Start(s), []);
              stream.Raws? && stream.rest == |s| && AllSound(s, stream.raws)
    ensures r.Ok? ==>
      && raws == StreamFrom(s, Start(s), []).raws
      && Covers(s, Start(s), raws, |s|) && AllRaw(s, raws) && Spans(s, raws) == s[Start(s)..]
      && Accounts(s, raws, r.value, spans, |raws|)
      && forall k, l :: 0 <= k < l < |r.value| ==> r.value[k].hi <= r.value[l].lo
  {
    hide Covers, Accounts, NextRaw, StreamFrom, IsSound, FirstFault;
    raws, spans := [], [];
    var stream := TokenStream(s, Start(s));
    if stream.Committed? {
      return Err(Unfinished, stream.at), raws, spans;
    }
    raws := stream.raws;
    assert AllRaw(s, raws) && stream.rest <= |s| by { CoversAll(s, Start(s), raws, stream.rest); }
    r, spans := BuildTokens(s, stream.raws);
    if r.Err? {
      return;
    }
    if stream.rest < |s| {
      return Err(Unexpected, stream.rest), raws, spans;
    }
    SpansConcatenate(s, Start(s), raws, |s|);
    forall k, l | 0 <= k < l < |r.value| ensures r.value[k].hi <= r.value[l].lo {
      TokensAscend(s, Start(s), raws, r.value, spans, k, l);
    }
  }

  lemma CoversAll(s: seq<Byte>, start: nat, raws: seq<RawToken>, end: nat)
    requires Covers(s, start, raws, end)
    ensures AllRaw(s, raws) && end <= |s|
  {
  }
}
