/** What the lexer's grammars recognise, said in characters, and literals written out by an independent quoting function. */
module Spelling {
  import Basics
  import opened Lexer

  /** The byte of an ASCII character. */
  function Ch(c: char): Byte
    requires c as int < 128
  {
    c as int
  }

  predicate Between(c: Byte, lo: char, hi: char) { lo as int <= c <= hi as int }

  predicate Digit(c: Byte) { Between(c, '0', '9') }
  predicate OctalDigit(c: Byte) { Between(c, '0', '7') }
  predicate HexDigit(c: Byte) { Digit(c) || Between(c, 'a', 'f') || Between(c, 'A', 'F') }
  predicate Letter(c: Byte) { Between(c, 'a', 'z') || Between(c, 'A', 'Z') || c == '_' as int }
  predicate Blank(c: Byte) { c as char in " \t\n\r" || c == 11 || c == 12 }

  // ---------------------------------------------------------------- words, blanks and symbols

  /** From p to q every byte is of the kind, and q is the end or not of it. */
  ghost predicate Stretch(kind: Byte -> bool, s: seq<Byte>, p: nat, q: nat)
  {
    p <= q <= |s| && (forall i :: p <= i < q ==> kind(s[i])) && (q < |s| ==> !kind(s[q]))
  }

  lemma SkipsStretch(kind: Byte -> bool, pred: Byte -> bool, s: seq<Byte>, p: nat)
    requires p <= |s| && forall c: Byte :: kind(c) == pred(c)
    ensures forall q: nat :: Stretch(kind, s, p, q) <==> q == SkipWhile(pred, s, p)
  {
    forall q: nat | Stretch(kind, s, p, q) ensures q == SkipWhile(pred, s, p) {
    }
  }

  predicate WordByte(c: Byte) { Letter(c) || Digit(c) }

  /** A word: a letter or underscore, then letters, underscores and digits as far as they go. */
  lemma IdentMeans(s: seq<Byte>, p: nat, q: nat)
    requires p <= |s|
    ensures Run(GrammarOf(Ident), s, p) == Past(q) <==> p < |s| && Letter(s[p]) && Stretch(WordByte, s, p + 1, q)
  {
    if p < |s| {
      SkipsStretch(WordByte, IsLetterOrDigit, s, p + 1);
      assert IsLetter(s[p]) <==> Letter(s[p]);
    }
  }

  lemma BlankIs(c: Byte)
    ensures IsWhitespace(c) <==> Blank(c)
  {
  }

  lemma WhitespaceMeans(s: seq<Byte>, p: nat, q: nat)
    requires p <= |s|
    ensures Run(GrammarOf(Whitespace), s, p) == Past(q) <==> p < |s| && Blank(s[p]) && Stretch(Blank, s, p + 1, q)
  {
    forall c: Byte ensures Blank(c) == IsWhitespace(c) {
      BlankIs(c);
    }
    hide Blank, IsWhitespace;
    if p < |s| {
      SkipsStretch(Blank, IsWhitespace, s, p + 1);
    }
  }

  lemma SymbolMeans(s: seq<Byte>, p: nat, q: nat)
    requires p <= |s|
    ensures Run(GrammarOf(Symbol), s, p) == Past(q) <==> p < |s| && s[p] as char in ";,.:/=-+<>()[]{}" && q == p + 1
  {
  }

  // ---------------------------------------------------------------- comments

  predicate StartsWith(s: seq<Byte>, p: nat, a: char, b: char) { p + 2 <= |s| && s[p] as char == a && s[p + 1] as char == b }

  predicate LineByte(c: Byte) { c != '\n' as int && c != 0 }

  /** A comment runs to the end of its line, or through the first closing mark. */
  lemma CommentMeans(s: seq<Byte>, p: nat, q: nat)
    requires p <= |s|
    ensures Run(GrammarOf(Comment), s, p) == Past(q) <==>
              || (StartsWith(s, p, '/', '/') && Stretch(LineByte, s, p + 2, q))
              || (StartsWith(s, p, '/', '*') && p + 4 <= q <= |s| && StartsWith(s, q - 2, '*', '/')
                  && forall i :: p + 2 <= i < q - 2 ==> !StartsWith(s, i, '*', '/'))
  {
    PairIs([47, 47], '/', '/', s, p);
    PairIs([47, 42], '/', '*', s, p);
    LineComment(s, p);
    BlockComment(s, p);
    hide Run, Find, SkipWhile, IsAt;
    AltOfTwo(s, p);
    if StartsWith(s, p, '/', '/') {
      SkipsStretch(LineByte, InLine, s, p + 2);
    }
    if StartsWith(s, p, '/', '*') {
      FindIs(s, p + 2, q);
    }
  }

  lemma AltOfTwo(s: seq<Byte>, p: nat)
    requires p <= |s|
    ensures var a, b := Seq(Tag([47, 47]), TakeWhile(InLine)), Seq(Tag([47, 42]), Cut(Seq(TakeUntil([42, 47]), Tag([42, 47]))));
            var m := Run(GrammarOf(Comment), s, p);
            (Run(a, s, p).Past? ==> m == Run(a, s, p))
            && (Run(a, s, p).Miss? && !Run(a, s, p).fatal && Run(b, s, p).Past? ==> m == Run(b, s, p))
            && (Run(a, s, p).Miss? && Run(b, s, p).Miss? ==> m.Miss?)
  {
    hide SkipWhile, Find;
    var a, b := Seq(Tag([47, 47]), TakeWhile(InLine)), Seq(Tag([47, 42]), Cut(Seq(TakeUntil([42, 47]), Tag([42, 47]))));
    assert GrammarOf(Comment) == Alt(a, b);
  }

  lemma PairIs(text: seq<Byte>, a: char, b: char, s: seq<Byte>, p: nat)
    requires |text| == 2 && text[0] as char == a && text[1] as char == b
    ensures IsAt(text, s, p) <==> StartsWith(s, p, a, b)
  {
    if p + 2 <= |s| {
      assert s[p..p + 2] == [s[p], s[p + 1]];
      assert text == [text[0], text[1]];
    }
  }

  lemma LineComment(s: seq<Byte>, p: nat)
    requires p <= |s|
    ensures var m := Run(Seq(Tag([47, 47]), TakeWhile(InLine)), s, p);
            if IsAt([47, 47], s, p) then m == Past(SkipWhile(InLine, s, p + 2)) else m == Miss(p, false)
  {
    hide SkipWhile;
  }

  lemma BlockComment(s: seq<Byte>, p: nat)
    requires p <= |s|
    ensures var m := Run(Seq(Tag([47, 42]), Cut(Seq(TakeUntil([42, 47]), Tag([42, 47])))), s, p);
            if !IsAt([47, 42], s, p) then m == Miss(p, false)
            else
              var e := Find([42, 47], s, p + 2);
              if IsAt([42, 47], s, e) then m == Past(e + 2) else m.Miss?
  {
    hide Find;
    var close := Seq(TakeUntil([42, 47]), Tag([42, 47]));
    if IsAt([47, 42], s, p) {
      var e := Find([42, 47], s, p + 2);
      assert Run(TakeUntil([42, 47]), s, p + 2) == if IsAt([42, 47], s, e) then Past(e) else Miss(|s|, false);
      assert IsAt([42, 47], s, e) ==> Run(Tag([42, 47]), s, e) == Past(e + 2);
      assert Run(close, s, p + 2) == if IsAt([42, 47], s, e) then Past(e + 2) else Miss(|s|, false);
      assert Run(Cut(close), s, p + 2) == if IsAt([42, 47], s, e) then Past(e + 2) else Miss(|s|, true);
    }
  }

  lemma FindIs(s: seq<Byte>, p: nat, q: nat)
    requires p <= |s|
    ensures var e := Find([42, 47], s, p);
            IsAt([42, 47], s, e) && q == e + 2 <==>
            p + 2 <= q <= |s| && StartsWith(s, q - 2, '*', '/') && forall i :: p <= i < q - 2 ==> !StartsWith(s, i, '*', '/')
  {
    var e := Find([42, 47], s, p);
    forall i ensures IsAt([42, 47], s, i) <==> StartsWith(s, i, '*', '/') {
      PairIs([42, 47], '*', '/', s, i);
    }
    hide IsAt, Find;
    if p + 2 <= q <= |s| && StartsWith(s, q - 2, '*', '/') && forall i :: p <= i < q - 2 ==> !StartsWith(s, i, '*', '/') {
      assert IsAt([42, 47], s, q - 2);
    }
  }

  // ---------------------------------------------------------------- numbers

  predicate Mark(c: Byte, a: char, b: char) { c as char == a || c as char == b }

  /** Where the greedy munch of a number ends: digits, dots, letters, and a sign right after an e or E. */
  function MunchEnd(s: seq<Byte>, p: nat): (q: nat)
    requires p <= |s|
    ensures p <= q <= |s|
    decreases |s| - p
  {
    if p == |s| then p
    else if Mark(s[p], 'e', 'E') then MunchEnd(s, if p + 1 < |s| && Mark(s[p + 1], '+', '-') then p + 2 else p + 1)
    else if Digit(s[p]) || Letter(s[p]) || s[p] as char == '.' then MunchEnd(s, p + 1)
    else p
  }

  lemma TailIs(s: seq<Byte>, p: nat)
    requires p <= |s|
    ensures var m := Run(NumericTail(), s, p);
            if p < |s| && Mark(s[p], 'e', 'E') then m == Past(if p + 1 < |s| && Mark(s[p + 1], '+', '-') then p + 2 else p + 1)
            else if p < |s| && (Digit(s[p]) || Letter(s[p]) || s[p] as char == '.') then m == Past(p + 1)
            else m.Miss? && !m.fatal
  {
    var exp := Seq(One(IsExponent), Opt(One(IsSign)));
    assert Run(exp, s, p) == if p < |s| && IsExponent(s[p]) then Run(Opt(One(IsSign)), s, p + 1) else Miss(p, false);
    AltIs(exp, One(IsLetter), s, p);
    AltIs(One(IsDot), Alt(exp, One(IsLetter)), s, p);
    AltIs(One(IsDecimal), Alt(One(IsDot), Alt(exp, One(IsLetter))), s, p);
  }

  lemma {:induction false} MunchIs(s: seq<Byte>, p: nat)
    requires p <= |s|
    ensures Run(Many(NumericTail()), s, p) == Past(MunchEnd(s, p))
    decreases |s| - p
  {
    hide NumericTail;
    TailIs(s, p);
    if p < |s| {
      if Mark(s[p], 'e', 'E') {
        MunchIs(s, if p + 1 < |s| && Mark(s[p + 1], '+', '-') then p + 2 else p + 1);
      } else if Digit(s[p]) || Letter(s[p]) || s[p] as char == '.' {
        MunchIs(s, p + 1);
      }
    }
  }

  /** A number's span: a digit, perhaps after a dot, and the munch. */
  lemma NumericMeans(s: seq<Byte>, p: nat, q: nat)
    requires p <= |s|
    ensures var d := if p < |s| && s[p] as char == '.' then p + 1 else p;
            Run(GrammarOf(Numeric), s, p) == Past(q) <==> d < |s| && Digit(s[d]) && q == MunchEnd(s, d + 1)
  {
    var d := if p < |s| && s[p] as char == '.' then p + 1 else p;
    TagOne(46, s, p);
    assert Run(Opt(Tag([46])), s, p) == Past(d);
    hide NumericTail, MunchEnd;
    if d < |s| {
      MunchIs(s, d + 1);
    }
    var rest := Seq(One(IsDecimal), Many(NumericTail()));
    assert Run(GrammarOf(Numeric), s, p) == Run(rest, s, d);
    assert Run(One(IsDecimal), s, d) == if d < |s| && Digit(s[d]) then Past(d + 1) else Miss(d, false);
    assert Run(rest, s, d) == if d < |s| && Digit(s[d]) then Past(MunchEnd(s, d + 1)) else Miss(d, false);
  }

  /** All the bytes from p on, and at least one, are of the kind. */
  ghost predicate AllFrom(kind: Byte -> bool, t: seq<Byte>, p: nat)
  {
    p < |t| && forall i :: p <= i < |t| ==> kind(t[i])
  }

  /** An integer: hexadecimal after 0x, octal after 0, zero, or decimal digits of which the first is not 0. */
  ghost predicate IsInteger(t: seq<Byte>)
  {
    || (StartsWithOne(t, '0') && |t| >= 3 && Mark(t[1], 'x', 'X') && AllFrom(HexDigit, t, 2))
    || (StartsWithOne(t, '0') && (|t| == 1 || AllFrom(OctalDigit, t, 1)))
    || (t != [] && Between(t[0], '1', '9') && forall i :: 0 < i < |t| ==> Digit(t[i]))
  }

  predicate StartsWithOne(t: seq<Byte>, c: char) { t != [] && t[0] as char == c }

  lemma Digits1Is(kind: Byte -> bool, pred: Byte -> bool, t: seq<Byte>, p: nat)
    requires p <= |t| && forall c: Byte :: kind(c) == pred(c)
    ensures var m := Run(Digits1(pred), t, p);
            if p < |t| && kind(t[p]) then m == Past(SkipWhile(pred, t, p)) && m.next > p else m == Miss(p, false)
    ensures Run(Digits1(pred), t, p) == Past(|t|) <==> AllFrom(kind, t, p)
  {
  }

  lemma IntegerMeans(t: seq<Byte>)
    ensures Run(IntLiteral(), t, 0) == Past(|t|) <==> IsInteger(t)
  {
    var hex := Seq(Tag([48]), Seq(One((c: Byte) => c == 120 || c == 88), Digits1(IsHex)));
    var octal := Seq(Tag([48]), Digits1(IsOctal));
    var decimal := Seq(One((c: Byte) => 49 <= c <= 57), TakeWhile(IsDecimal));
    TagOne(48, t, 0);
    HexIntIs(t);
    if t != [] {
      Digits1Is(OctalDigit, IsOctal, t, 1);
    }
    assert Run(octal, t, 0) == if StartsWithOne(t, '0') then Run(Digits1(IsOctal), t, 1) else Miss(0, false);
    assert Run(decimal, t, 0) == if t != [] && Between(t[0], '1', '9') then Past(SkipWhile(IsDecimal, t, 1)) else Miss(0, false);
    AltIs(Tag([48]), decimal, t, 0);
    AltIs(octal, Alt(Tag([48]), decimal), t, 0);
    AltIs(hex, Alt(octal, Alt(Tag([48]), decimal)), t, 0);
    assert forall c: Byte :: Digit(c) == IsDecimal(c);
    if t != [] {
      SkipsStretch(Digit, IsDecimal, t, 1);
      assert SkipWhile(IsDecimal, t, 1) == |t| <==> Stretch(Digit, t, 1, |t|);
    }
  }

  lemma HexIntIs(t: seq<Byte>)
    ensures var hex := Seq(Tag([48]), Seq(One((c: Byte) => c == 120 || c == 88), Digits1(IsHex)));
            var m := Run(hex, t, 0);
            && (m.Past? <==> StartsWithOne(t, '0') && |t| >= 3 && Mark(t[1], 'x', 'X') && HexDigit(t[2]))
            && (m.Miss? ==> !m.fatal)
            && (m == Past(|t|) <==> StartsWithOne(t, '0') && |t| >= 3 && Mark(t[1], 'x', 'X') && AllFrom(HexDigit, t, 2))
  {
    TagOne(48, t, 0);
    var x := One((c: Byte) => c == 120 || c == 88);
    if |t| >= 2 {
      Digits1Is(HexDigit, IsHex, t, 2);
    }
    if t != [] {
      assert Run(Seq(x, Digits1(IsHex)), t, 1)
          == if |t| >= 2 && Mark(t[1], 'x', 'X') then Run(Digits1(IsHex), t, 2) else Miss(1, false);
    }
  }

  /** An exponent that takes the rest: e or E, perhaps a sign, and digits. */
  ghost predicate ExponentFrom(t: seq<Byte>, i: nat)
  {
    && i < |t| && Mark(t[i], 'e', 'E')
    && AllFrom(Digit, t, if i + 1 < |t| && Mark(t[i + 1], '+', '-') then i + 2 else i + 1)
  }

  /** A fraction: digits and a dot, or a dot and digits, with more digits or an exponent after them; or digits with an
      exponent. */
  ghost predicate IsFraction(t: seq<Byte>)
  {
    exists a: nat :: Stretch(Digit, t, 0, a) && FractionFrom(t, a)
  }

  ghost predicate FractionFrom(t: seq<Byte>, a: nat)
    requires a <= |t|
  {
    (a > 0 && ExponentFrom(t, a)) || (a < |t| && t[a] as char == '.' && exists b: nat :: AfterPoint(t, a, b))
  }

  /** After the dot at a, digits up to b, at least one if none stood before it, and then the end or an exponent. */
  ghost predicate AfterPoint(t: seq<Byte>, a: nat, b: nat)
  {
    Stretch(Digit, t, a + 1, b) && (a > 0 || b > a + 1) && (b == |t| || ExponentFrom(t, b))
  }

  lemma ExponentIs(t: seq<Byte>, i: nat)
    requires i <= |t|
    ensures var m := Run(Exponent(), t, i);
            && (m == Past(|t|) <==> ExponentFrom(t, i)) && (m.Miss? ==> !m.fatal) && (m.Past? ==> m.next > i)
  {
    if i < |t| && Mark(t[i], 'e', 'E') {
      var j := if i + 1 < |t| && Mark(t[i + 1], '+', '-') then i + 2 else i + 1;
      assert Run(Opt(One(IsSign)), t, i + 1) == Past(j);
      Digits1Is(Digit, IsDecimal, t, j);
      assert Run(Seq(Opt(One(IsSign)), Digits1(IsDecimal)), t, i + 1) == Run(Digits1(IsDecimal), t, j);
    } else {
      assert Run(One(IsExponent), t, i) == Miss(i, false);
    }
  }

  lemma OptExponentIs(t: seq<Byte>, i: nat)
    requires i <= |t|
    ensures var m := Run(Opt(Exponent()), t, i);
            m.Past? && m.next >= i && (m == Past(|t|) <==> i == |t| || ExponentFrom(t, i))
  {
    hide Exponent, ExponentFrom;
    ExponentIs(t, i);
    NoExponentAtEnd(t);
  }

  lemma NoExponentAtEnd(t: seq<Byte>)
    ensures !ExponentFrom(t, |t|)
  {
  }

  function PointForm(): Grammar { Seq(Digits1(IsDecimal), Seq(Tag([46]), Seq(TakeWhile(IsDecimal), Opt(Exponent())))) }
  function WholeForm(): Grammar { Seq(Digits1(IsDecimal), Exponent()) }
  function BareForm(): Grammar { Seq(Tag([46]), Seq(Digits1(IsDecimal), Opt(Exponent()))) }

  /** The form takes all of the text exactly under this condition, and where it fails another may be tried. */
  ghost predicate Takes(g: Grammar, t: seq<Byte>, whole: bool)
  {
    (Run(g, t, 0) == Past(|t|) <==> whole) && (Run(g, t, 0).Miss? ==> !Run(g, t, 0).fatal)
  }

  predicate PointAt(t: seq<Byte>, a: nat) { a < |t| && t[a] as char == '.' }

  lemma PointFirst(t: seq<Byte>)
    ensures var a := SkipWhile(IsDecimal, t, 0);
            && (Run(PointForm(), t, 0).Past? <==> a > 0 && PointAt(t, a))
            && Takes(PointForm(), t, a > 0 && PointAt(t, a)
                                     && var b := SkipWhile(IsDecimal, t, a + 1); b == |t| || ExponentFrom(t, b))
  {
    var a := SkipWhile(IsDecimal, t, 0);
    hide Exponent, ExponentFrom;
    Digits1Is(Digit, IsDecimal, t, 0);
    TagOne(46, t, a);
    if a > 0 && PointAt(t, a) {
      var b := SkipWhile(IsDecimal, t, a + 1);
      OptExponentIs(t, b);
      assert Run(Seq(TakeWhile(IsDecimal), Opt(Exponent())), t, a + 1) == Run(Opt(Exponent()), t, b);
      assert Run(Seq(Tag([46]), Seq(TakeWhile(IsDecimal), Opt(Exponent()))), t, a) == Run(Opt(Exponent()), t, b);
    } else if a > 0 {
      assert Run(Seq(Tag([46]), Seq(TakeWhile(IsDecimal), Opt(Exponent()))), t, a) == Miss(a, false);
    }
  }

  lemma ExponentOnly(t: seq<Byte>)
    ensures var a := SkipWhile(IsDecimal, t, 0); Takes(WholeForm(), t, a > 0 && ExponentFrom(t, a))
    ensures Run(WholeForm(), t, 0).Past? ==> SkipWhile(IsDecimal, t, 0) > 0
  {
    var a := SkipWhile(IsDecimal, t, 0);
    hide Exponent, ExponentFrom;
    Digits1Is(Digit, IsDecimal, t, 0);
    ExponentIs(t, a);
  }

  lemma DigitsAfterPoint(t: seq<Byte>)
    ensures Takes(BareForm(), t, PointAt(t, 0) && var b := SkipWhile(IsDecimal, t, 1); b > 1 && (b == |t| || ExponentFrom(t, b)))
  {
    hide Exponent, ExponentFrom;
    TagOne(46, t, 0);
    if PointAt(t, 0) {
      var b := SkipWhile(IsDecimal, t, 1);
      Digits1Is(Digit, IsDecimal, t, 1);
      if b > 1 {
        OptExponentIs(t, b);
        assert Run(Digits1(IsDecimal), t, 1) == Past(b);
        assert Run(Seq(Digits1(IsDecimal), Opt(Exponent())), t, 1) == Run(Opt(Exponent()), t, b);
        assert Run(BareForm(), t, 0) == Run(Opt(Exponent()), t, b);
      } else {
        assert Run(Digits1(IsDecimal), t, 1) == Miss(1, false);
        assert Run(Seq(Digits1(IsDecimal), Opt(Exponent())), t, 1) == Miss(1, false);
      }
    }
  }

  lemma FractionIs(t: seq<Byte>)
    ensures var a := SkipWhile(IsDecimal, t, 0);
            IsFraction(t) <==>
              || (a > 0 && ExponentFrom(t, a))
              || (PointAt(t, a) && var b := SkipWhile(IsDecimal, t, a + 1); (a > 0 || b > a + 1) && (b == |t| || ExponentFrom(t, b)))
  {
    var a := SkipWhile(IsDecimal, t, 0);
    SkipsStretch(Digit, IsDecimal, t, 0);
    hide ExponentFrom, Stretch;
    assert Stretch(Digit, t, 0, a);
    if PointAt(t, a) {
      SkipsStretch(Digit, IsDecimal, t, a + 1);
      var b := SkipWhile(IsDecimal, t, a + 1);
      assert forall c: nat :: AfterPoint(t, a, c) ==> c == b;
      assert (exists c: nat :: AfterPoint(t, a, c)) <==> AfterPoint(t, a, b);
    }
    assert IsFraction(t) <==> FractionFrom(t, a);
  }

  lemma PointIsNoExponent(t: seq<Byte>, a: nat)
    requires PointAt(t, a)
    ensures !ExponentFrom(t, a)
  {
  }

  /** The three forms of a floating-point number, and nothing else. */
  lemma FractionMeans(t: seq<Byte>)
    ensures Run(FloatLiteral(), t, 0) == Past(|t|) <==> IsFraction(t)
  {
    var a := SkipWhile(IsDecimal, t, 0);
    PointFirst(t);
    ExponentOnly(t);
    DigitsAfterPoint(t);
    FractionIs(t);
    if PointAt(t, a) {
      PointIsNoExponent(t, a);
    }
    PointLeads(t, a);
    assert FloatLiteral() == Alt(PointForm(), Alt(WholeForm(), BareForm()));
    hide ExponentFrom, Run, IsFraction, PointForm, WholeForm, BareForm;
    AltIs(WholeForm(), BareForm(), t, 0);
    AltIs(PointForm(), Alt(WholeForm(), BareForm()), t, 0);
  }

  lemma PointLeads(t: seq<Byte>, a: nat)
    requires a == SkipWhile(IsDecimal, t, 0)
    ensures PointAt(t, 0) ==> a == 0
  {
  }

  /** A number token is an integer when it is written as one, and else must be a fraction. */
  lemma NumberMeans(t: seq<Byte>)
    requires t != []
    ensures IsNumber(t) <==> IsInteger(t) || IsFraction(t)
    ensures KindOf(Numeric, t) == if IsInteger(t) then Int else Float
  {
    hide IsInteger, IsFraction, Run, IntLiteral, FloatLiteral;
    IntegerMeans(t);
    FractionMeans(t);
  }

  // ---------------------------------------------------------------- which category wins

  lemma {:induction false} EarlierMissed(k: nat, s: seq<Byte>, p: nat, j: nat)
    requires k <= j < |CATEGORIES| && p <= |s| && NextRaw(k, s, p).Got? && NextRaw(k, s, p).cat == CATEGORIES[j]
    ensures forall i :: k <= i < j ==> Run(GrammarOf(CATEGORIES[i]), s, p).Miss? && !Run(GrammarOf(CATEGORIES[i]), s, p).fatal
    decreases |CATEGORIES| - k
  {
    hide Run, GrammarOf;
    if k < j {
      assert CATEGORIES[k] != CATEGORIES[j];
      EarlierMissed(k + 1, s, p, j);
    }
  }

  /** A slash is a symbol only where no comment starts, and a dot only where no number does. */
  lemma SymbolIsLast(s: seq<Byte>, p: nat)
    requires p <= |s| && NextRaw(0, s, p).Got? && NextRaw(0, s, p).cat == Symbol
    ensures Run(GrammarOf(Comment), s, p).Miss? && Run(GrammarOf(Numeric), s, p).Miss? && Run(GrammarOf(StringLit), s, p).Miss?
  {
    hide Run, GrammarOf;
    assert CATEGORIES[5] == Symbol && CATEGORIES[1] == Comment && CATEGORIES[2] == StringLit && CATEGORIES[3] == Numeric;
    EarlierMissed(0, s, p, 5);
  }

  // ---------------------------------------------------------------- literals written out

  /** A way to write an item of a literal: as it is, by a letter after a backslash, in three octal or two hexadecimal
    * digits, or as a code point in four or eight hexadecimal digits. */
  datatype Spelled =
    | AsIs(b: Byte)
    | Named(c: char)
    | InOctal(b: Byte)
    | InHex(b: Byte, upper: bool)
    | InUnicode(cp: nat, upper: bool)
    | InLongUnicode(cp: nat, upper: bool)

  /** The characters that have a letter, the quotes, the question mark and the backslash. */
  predicate HasName(c: char) { c in "abfnrtv\\'\"?" }

  function NamedByte(c: char): Byte
    requires HasName(c)
  {
    match c
    case 'a' => 7
    case 'b' => 8
    case 't' => 9
    case 'n' => 10
    case 'v' => 11
    case 'f' => 12
    case 'r' => 13
    case _ => Ch(c)
  }

  /** What the item stands for. */
  function Meaning(x: Spelled): seq<Byte>
    requires Writable(x)
  {
    match x
    case AsIs(b) => [b]
    case Named(c) => [NamedByte(c)]
    case InOctal(b) => [b]
    case InHex(b, _) => [b]
    case InUnicode(cp, _) => Utf8(cp)
    case InLongUnicode(cp, _) => Utf8(cp)
  }

  predicate Writable(x: Spelled)
  {
    match x
    case AsIs(b) => b != 0 && b as char !in "\n\\'\""
    case Named(c) => HasName(c)
    case InOctal(_) => true
    case InHex(_, _) => true
    case InUnicode(cp, _) => cp < 65536 && !(0xD800 <= cp < 0xE000)
    case InLongUnicode(cp, _) => cp < 0x110000 && !(0xD800 <= cp < 0xE000)
  }

  function HexChar(n: nat, upper: bool): Byte
    requires n < 16
  {
    if n < 10 then Ch('0') + n else if upper then Ch('A') + (n - 10) else Ch('a') + (n - 10)
  }

  /** n in k hexadecimal digits. */
  function HexChars(n: nat, k: nat, upper: bool): (r: seq<Byte>)
    ensures |r| == k
  {
    if k == 0 then [] else HexChars(n / 16, k - 1, upper) + [HexChar(n % 16, upper)]
  }

  function Written(x: Spelled): (r: seq<Byte>)
    requires Writable(x)
    ensures r != []
  {
    match x
    case AsIs(b) => [b]
    case Named(c) => [Ch('\\'), Ch(c)]
    case InOctal(b) => [Ch('\\'), Ch('0') + b / 64, Ch('0') + b / 8 % 8, Ch('0') + b % 8]
    case InHex(b, upper) => [Ch('\\'), Ch(if upper then 'X' else 'x'), HexChar(b / 16, upper), HexChar(b % 16, upper)]
    case InUnicode(cp, upper) => [Ch('\\'), Ch('u')] + HexChars(cp, 4, upper)
    case InLongUnicode(cp, upper) => [Ch('\\'), Ch('U')] + HexChars(cp, 8, upper)
  }

  /** The item stands at i. */
  predicate StandsAt(s: seq<Byte>, i: nat, x: Spelled)
    requires Writable(x)
  {
    i + |Written(x)| <= |s| && s[i..i + |Written(x)|] == Written(x)
  }

  lemma HexCharIs(n: nat, upper: bool)
    requires n < 16
    ensures IsHex(HexChar(n, upper)) && DigitValue(HexChar(n, upper)) == n
  {
  }

  /** k hexadecimal digits at a. */
  lemma {:induction false} HexCharsRead(s: seq<Byte>, a: nat, n: nat, k: nat, upper: bool)
    requires a + k <= |s| && s[a..a + k] == HexChars(n, k, upper)
    ensures forall i :: a <= i < a + k ==> IsHex(s[i])
    ensures Number(16, s, a, a + k) == n % Power16(k)
    decreases k
  {
    if k > 0 {
      assert s[a..a + k][..k - 1] == s[a..a + (k - 1)] == HexChars(n / 16, k - 1, upper);
      HexCharsRead(s, a, n / 16, k - 1, upper);
      assert s[a + k - 1] == s[a..a + k][k - 1] == HexChar(n % 16, upper);
      HexCharIs(n % 16, upper);
      DigitsBy16(n, Power16(k - 1));
    } else {
      assert n % 1 == 0;
    }
  }

  function Power16(k: nat): (r: nat)
    ensures r > 0
  {
    if k == 0 then 1 else 16 * Power16(k - 1)
  }

  lemma DigitsBy16(n: nat, m: nat)
    requires m > 0
    ensures n / 16 % m * 16 + n % 16 == n % (16 * m)
  {
    var q, r := n / 16 / m, n / 16 % m;
    assert n / 16 == q * m + r;
    assert n == 16 * (n / 16) + n % 16;
    assert n == q * (16 * m) + (16 * r + n % 16) by { assert 16 * (q * m + r) == q * (16 * m) + 16 * r; }
    Basics.Remainder(n, q, 16 * r + n % 16, 16 * m);
  }

  lemma {:induction false} AllCount(pred: Byte -> bool, s: seq<Byte>, p: nat, n: nat)
    requires p + n <= |s| && forall i :: p <= i < p + n ==> pred(s[i])
    ensures CountUpTo(pred, s, p, n) == n
    decreases n
  {
    if n > 0 {
      AllCount(pred, s, p + 1, n - 1);
    }
  }

  /** An escape that stands at i ends where it was written to end, and means what it was written for. */
  lemma EscapeReads(s: seq<Byte>, i: nat, x: Spelled)
    requires Writable(x) && !x.AsIs? && StandsAt(s, i, x)
    ensures |Written(x)| >= 2 && s[i] == BACKSLASH && EscapeEnd(s, i) == i + |Written(x)|
    ensures ItemValue(s, i, i + |Written(x)|) == Item.Bytes(Meaning(x))
  {
    StandsByByte(s, i, x);
    hide HexChar, HexChars, EscapeEnd, ItemValue, Utf8;
    match x
    case Named(c) => NamedReads(s, i, c);
    case InOctal(b) => OctalReads(s, i, b);
    case InHex(b, upper) => HexReads(s, i, b, upper);
    case InUnicode(cp, upper) => UnicodeReads(s, i, cp, upper, 4);
    case InLongUnicode(cp, upper) => UnicodeReads(s, i, cp, upper, 8);
  }

  lemma StandsByByte(s: seq<Byte>, i: nat, x: Spelled)
    requires Writable(x) && StandsAt(s, i, x)
    ensures forall k :: i <= k < i + |Written(x)| ==> s[k] == Written(x)[k - i]
  {
    forall k | i <= k < i + |Written(x)| ensures s[k] == Written(x)[k - i] {
      assert s[k] == s[i..i + |Written(x)|][k - i];
    }
  }

  lemma NamedReads(s: seq<Byte>, i: nat, c: char)
    requires HasName(c) && i + 2 <= |s| && s[i] == 92 && s[i + 1] == Ch(c)
    ensures EscapeEnd(s, i) == i + 2 && ItemValue(s, i, i + 2) == Item.Bytes([NamedByte(c)])
  {
    assert IsSimpleEscape(Ch(c)) && SimpleValue(Ch(c)) == NamedByte(c);
  }

  lemma OctalReads(s: seq<Byte>, i: nat, b: Byte)
    requires i + 4 <= |s| && s[i] == 92 && s[i + 1] == 48 + b / 64 && s[i + 2] == 48 + b / 8 % 8 && s[i + 3] == 48 + b % 8
    ensures EscapeEnd(s, i) == i + 4 && ItemValue(s, i, i + 4) == Item.Bytes([b])
  {
    AllCount(IsOctal, s, i + 1, 3);
    assert Number(8, s, i + 1, i + 1) == 0;
    assert Number(8, s, i + 1, i + 2) == b / 64;
    assert Number(8, s, i + 1, i + 3) == b / 64 * 8 + b / 8 % 8;
    assert Number(8, s, i + 1, i + 4) == (b / 64 * 8 + b / 8 % 8) * 8 + b % 8;
    assert (b / 64 * 8 + b / 8 % 8) * 8 + b % 8 == b;
  }

  lemma HexReads(s: seq<Byte>, i: nat, b: Byte, upper: bool)
    requires i + 4 <= |s| && s[i] == 92 && s[i + 1] == (if upper then 88 else 120)
    requires s[i + 2] == HexChar(b / 16, upper) && s[i + 3] == HexChar(b % 16, upper)
    ensures EscapeEnd(s, i) == i + 4 && ItemValue(s, i, i + 4) == Item.Bytes([b])
  {
    HexCharIs(b / 16, upper);
    HexCharIs(b % 16, upper);
    hide HexChar;
    AllCount(IsHex, s, i + 2, 2);
    assert Number(16, s, i + 2, i + 2) == 0;
    assert Number(16, s, i + 2, i + 3) == b / 16;
    assert Number(16, s, i + 2, i + 4) == b / 16 * 16 + b % 16;
  }

  lemma UnicodeReads(s: seq<Byte>, i: nat, cp: nat, upper: bool, k: nat)
    requires (k == 4 && cp < 65536) || (k == 8 && cp < 0x110000)
    requires !(0xD800 <= cp < 0xE000) && i + 2 + k <= |s| && s[i..i + 2 + k] == [92, if k == 4 then 117 else 85] + HexChars(cp, k, upper)
    ensures s[i] == 92 && EscapeEnd(s, i) == i + 2 + k && ItemValue(s, i, i + 2 + k) == Item.Bytes(Utf8(cp))
  {
    UnicodeNumber(s, i, cp, upper, k);
    hide HexChars, Number, Utf8, IsHex, CountUpTo;
    assert s[i] == s[i..i + 2 + k][0] && s[i + 1] == s[i..i + 2 + k][1];
  }

  lemma UnicodeNumber(s: seq<Byte>, i: nat, cp: nat, upper: bool, k: nat)
    requires (k == 4 && cp < 65536) || (k == 8 && cp < 0x110000)
    requires i + 2 + k <= |s| && s[i..i + 2 + k] == [92, if k == 4 then 117 else 85] + HexChars(cp, k, upper)
    ensures Number(16, s, i + 2, i + 2 + k) == cp && CountUpTo(IsHex, s, i + 2, k) == k
  {
    hide Number, IsHex, CountUpTo;
    assert s[i + 2..i + 2 + k] == s[i..i + 2 + k][2..] == HexChars(cp, k, upper);
    hide HexChars;
    HexCharsRead(s, i + 2, cp, k, upper);
    AllCount(IsHex, s, i + 2, k);
    assert Power16(4) == 65536 && Power16(8) == 65536 * Power16(4);
  }

  // ---------------------------------------------------------------- the round trip

  ghost predicate AllWritable(xs: seq<Spelled>) { forall k :: 0 <= k < |xs| ==> Writable(xs[k]) }

  function WrittenAll(xs: seq<Spelled>): seq<Byte>
    requires AllWritable(xs)
  {
    if xs == [] then [] else Written(xs[0]) + WrittenAll(xs[1..])
  }

  function MeaningAll(xs: seq<Spelled>): seq<Byte>
    requires AllWritable(xs)
  {
    if xs == [] then [] else Meaning(xs[0]) + MeaningAll(xs[1..])
  }

  /** An item that stands in a body is read as one item, with its meaning. */
  lemma ItemReads(quote: Byte, s: seq<Byte>, i: nat, x: Spelled)
    requires Writable(x) && StandsAt(s, i, x) && quote as char in "\"'"
    ensures i < |s| && ItemEnd(quote, s, i) == i + |Written(x)| && (s[i] == BACKSLASH ==> i + 2 <= i + |Written(x)|)
    ensures ItemValue(s, i, i + |Written(x)|) == Item.Bytes(Meaning(x))
  {
    if x.AsIs? {
      assert s[i] == s[i..i + 1][0] == x.b;
    } else {
      EscapeReads(s, i, x);
      hide EscapeEnd, ItemValue, Meaning, Written;
    }
  }

  lemma ItemPasses(quote: Byte, s: seq<Byte>, i: nat, close: nat)
    requires i < |s| && ItemEnd(quote, s, i) > i && InBody(quote, s, ItemEnd(quote, s, i), close)
    ensures ItemEnd(quote, s, i) <= |s| && InBody(quote, s, i, close)
  {
    hide BodyChar, ItemEnd;
    ItemIs(quote, s, i);
  }

  lemma CloseEnds(quote: Byte, s: seq<Byte>, close: nat)
    requires close < |s| && s[close] == quote && quote as char in "\"'"
    ensures InBody(quote, s, close, close)
  {
    ItemIs(quote, s, close);
    hide BodyChar;
  }

  /** From i on the items stand one after another up to the closing quote: they are the body, and mean what was written. */
  lemma {:induction false} BodyReads(quote: Byte, s: seq<Byte>, i: nat, xs: seq<Spelled>, done: seq<Byte>)
    requires AllWritable(xs) && quote as char in "\"'"
    requires var close := i + |WrittenAll(xs)|; close < |s| && s[close] == quote && s[i..close] == WrittenAll(xs)
    ensures var close := i + |WrittenAll(xs)|;
            InBody(quote, s, i, close) && BodyValue(quote, s, i, close, done) == Decoded.Value(done + MeaningAll(xs))
    decreases xs
  {
    hide Written, Meaning, InBody, ItemEnd, ItemValue, Writable;
    var close := i + |WrittenAll(xs)|;
    if xs == [] {
      CloseEnds(quote, s, close);
      assert done + [] == done;
    } else {
      var x, j := xs[0], i + |Written(xs[0])|;
      assert s[i..close][..|Written(x)|] == s[i..j] == Written(x);
      assert s[j..close] == s[i..close][|Written(x)|..] == WrittenAll(xs[1..]);
      ItemReads(quote, s, i, x);
      BodyReads(quote, s, j, xs[1..], done + Meaning(x));
      ItemPasses(quote, s, i, close);
      assert done + (Meaning(x) + MeaningAll(xs[1..])) == done + Meaning(x) + MeaningAll(xs[1..]);
    }
  }

  /** However its items are written, a literal in either quote is decoded to what was written. */
  method DecodeWritten(xs: seq<Spelled>, double: bool) returns (r: Decoded)
    requires AllWritable(xs)
    ensures r == Decoded.Value(MeaningAll(xs))
  {
    hide BodyValue, InBody;
    var quote: Byte := if double then Ch('"') else Ch('\'');
    var s := [quote] + WrittenAll(xs) + [quote];
    assert s[1..1 + |WrittenAll(xs)|] == WrittenAll(xs);
    BodyReads(quote, s, 1, xs, []);
    r := DecodeString(s, 0, |s|, []);
    assert [] + MeaningAll(xs) == MeaningAll(xs);
  }
}
