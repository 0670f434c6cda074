/** The width-adaptive dump writer: compact probes, grids and multi-line output of one document. */
module DumpWriter {
  import opened Basics

  // ---- documents and text --------------------------------------------------------------------

  /** A message prints all its fields; map and array loops may stop early once the writer has overflowed. */
  datatype Kind = Message | MapField | ArrayField

  datatype Doc = Atom(text: string) | Node(kind: Kind, items: Items)
  datatype Items = Nil | Cons(key: string, value: Doc, rest: Items)

  /** An output character, marked as content or as layout. */
  datatype Piece = Text(c: char) | Space(c: char)

  function T(s: string): (r: seq<Piece>)
    ensures |r| == |s|
  {
    seq(|s|, i requires 0 <= i < |s| => Text(s[i]))
  }

  /** The content that remains when layout whitespace is removed. */
  function Strip(ps: seq<Piece>): string {
    if ps == [] then "" else Strip(ps[..|ps| - 1]) + if ps[|ps| - 1].Text? then [ps[|ps| - 1].c] else ""
  }

  lemma {:induction false} StripConcat(a: seq<Piece>, b: seq<Piece>)
    ensures Strip(a + b) == Strip(a) + Strip(b)
  {
    if b == [] {
      assert a + b == a && Strip(a) + "" == Strip(a);
    } else {
      var b' := b[..|b| - 1];
      assert (a + b)[..|a + b| - 1] == a + b';
      StripConcat(a, b');
      var t := if b[|b| - 1].Text? then [b[|b| - 1].c] else "";
      assert (Strip(a) + Strip(b')) + t == Strip(a) + (Strip(b') + t);
    }
  }

  function Open(k: Kind): Piece { if k == ArrayField then Text('[') else Text('{') }

  function Close(k: Kind): Piece { if k == ArrayField then Text(']') else Text('}') }

  /** The `"key": ` before an entry of an object or a map; array entries have none. */
  function Label(k: Kind, key: string): seq<Piece> {
    if k == ArrayField then [] else [Text('"')] + T(key) + [Text('"'), Text(':'), Text(' ')]
  }

  function Sep(first: bool): seq<Piece> { if first then [] else [Text(','), Space(' ')] }

  /** The compact, single-line form. */
  function Compact(d: Doc): seq<Piece>
    decreases d
  {
    match d
    case Atom(text) => T(text)
    case Node(k, items) => [Open(k)] + CompactFrom(k, items, true) + [Close(k)]
  }

  function CompactFrom(k: Kind, items: Items, first: bool): seq<Piece>
    decreases items
  {
    match items
    case Nil => []
    case Cons(key, v, rest) => Sep(first) + Label(k, key) + Compact(v) + CompactFrom(k, rest, false)
  }

  /** What every layout of a document must contain. */
  function Content(d: Doc): string { Strip(Compact(d)) }

  function ContentFrom(k: Kind, items: Items, first: bool): string { Strip(CompactFrom(k, items, first)) }

  /** One cell per entry of an array. */
  function Cells(items: Items): seq<seq<Piece>> {
    match items
    case Nil => []
    case Cons(_, v, rest) => [Compact(v)] + Cells(rest)
  }

  function SizeDoc(d: Doc): nat {
    match d case Atom(_) => 1 case Node(_, items) => 1 + SizeItems(items)
  }

  function SizeItems(items: Items): nat {
    match items case Nil => 0 case Cons(_, v, rest) => 1 + SizeDoc(v) + SizeItems(rest)
  }

  // ---- the grid ------------------------------------------------------------------------------

  const INDENT_WIDTH: nat := 2
  const MAX_INDENT: nat := 1024
  const MIN_GRID_COLUMNS: nat := 2
  const MAX_GRID_CELLS: nat := 4096
  const MAX_GRID_BYTES: nat := 64 * 1024

  function Max(a: nat, b: nat): nat { if a < b then b else a }

  /** Widest of the first n cells that fall in column c of cols, with its comma. */
  function ColumnWidth(cells: seq<seq<Piece>>, n: nat, cols: nat, c: nat): nat
    requires n <= |cells| && cols >= 1
  {
    if n == 0 then 0 else
      var w := ColumnWidth(cells, n - 1, cols, c);
      if (n - 1) % cols == c then Max(w, |cells[n - 1]| + 1) else w
  }

  /** Where column c starts: the indent, then every earlier column with the space after it. */
  function ColumnStart(widths: seq<nat>, inner: nat, c: nat): nat
    requires c <= |widths|
  {
    if c == 0 then inner else ColumnStart(widths, inner, c - 1) + widths[c - 1] + 1
  }

  /** The column widths of the first n cells. */
  function Widths(cells: seq<seq<Piece>>, n: nat, cols: nat): (w: seq<nat>)
    requires n <= |cells| && cols >= 1
    ensures |w| == cols
  {
    seq(cols, c requires 0 <= c < cols => ColumnWidth(cells, n, cols, c))
  }

  /** The end of the last column, which is what the width has to hold. */
  function GridEnd(widths: seq<nat>, inner: nat): int { ColumnStart(widths, inner, |widths|) - 1 }

  predicate GridFits(cells: seq<seq<Piece>>, cols: nat, inner: nat, width: nat)
    requires cols >= 1
  {
    GridEnd(Widths(cells, |cells|, cols), inner) <= width
  }

  lemma {:induction false} ColumnHolds(cells: seq<seq<Piece>>, n: nat, cols: nat, i: nat)
    requires i < n <= |cells| && cols >= 1
    ensures |cells[i]| + 1 <= ColumnWidth(cells, n, cols, i % cols)
  {
    if i < n - 1 {
      ColumnHolds(cells, n - 1, cols, i);
    }
  }

  lemma {:induction false} StartAtLeast(widths: seq<nat>, inner: nat, c: nat)
    requires c <= |widths| && forall i :: 0 <= i < c ==> widths[i] >= 1
    ensures ColumnStart(widths, inner, c) >= inner + 2 * c
  {
    if c > 0 {
      StartAtLeast(widths, inner, c - 1);
    }
  }

  lemma {:induction false} StartMonotone(widths: seq<nat>, inner: nat, c: nat, d: nat)
    requires c <= d <= |widths|
    ensures ColumnStart(widths, inner, c) + (if c < d then widths[c] + 1 else 0) <= ColumnStart(widths, inner, d)
  {
    if c < d {
      StartMonotone(widths, inner, c, d - 1);
    }
  }

  /** No more columns fit than two characters each leave room for. */
  lemma TooManyColumns(cells: seq<seq<Piece>>, cols: nat, inner: nat)
    requires 1 <= cols <= |cells|
    ensures GridEnd(Widths(cells, |cells|, cols), inner) >= inner + 2 * cols - 1
  {
    var widths := Widths(cells, |cells|, cols);
    forall c | 0 <= c < cols ensures widths[c] >= 1 {
      assert c % cols == c;
      ColumnHolds(cells, |cells|, cols, c);
    }
    StartAtLeast(widths, inner, cols);
  }

  /** Where the text of cell i begins: at its column, or right-aligned in it with its comma. */
  function CellStart(cells: seq<seq<Piece>>, i: nat, widths: seq<nat>, numeric: bool, inner: nat): int
    requires i < |cells| && |widths| >= 1
  {
    var c := i % |widths|;
    ColumnStart(widths, inner, c) + if numeric then widths[c] - (|cells[i]| + 1) else 0
  }

  /** Where cell i ends, with its comma unless it is the last. */
  function CellEnd(cells: seq<seq<Piece>>, i: nat, widths: seq<nat>, numeric: bool, inner: nat): int
    requires i < |cells| && |widths| >= 1
  {
    CellStart(cells, i, widths, numeric, inner) + |cells[i]| + if i + 1 < |cells| then 1 else 0
  }

  /** Cells lie in their columns: within the width, and with at least one space after the one before. */
  lemma CellsInColumns(cells: seq<seq<Piece>>, i: nat, cols: nat, numeric: bool, inner: nat)
    requires i < |cells| && cols >= 1
    ensures var widths := Widths(cells, |cells|, cols);
            && ColumnStart(widths, inner, i % cols) <= CellStart(cells, i, widths, numeric, inner)
            && CellEnd(cells, i, widths, numeric, inner) <= GridEnd(widths, inner)
            && (i % cols != 0 ==> i >= 1 && CellEnd(cells, i - 1, widths, numeric, inner) < ColumnStart(widths, inner, i % cols))
            && inner <= ColumnStart(widths, inner, i % cols)
  {
    var widths := Widths(cells, |cells|, cols);
    var c := i % cols;
    ColumnHolds(cells, |cells|, cols, i);
    StartMonotone(widths, inner, c, cols);
    StartMonotone(widths, inner, 0, c);
    if c != 0 {
      PreviousColumn(i, cols);
      ColumnHolds(cells, |cells|, cols, i - 1);
      StartMonotone(widths, inner, c - 1, c);
    }
  }

  lemma PreviousColumn(i: nat, cols: nat)
    requires cols >= 1 && i % cols != 0
    ensures i >= 1 && (i - 1) % cols == i % cols - 1
  {
    var q, r := i / cols, i % cols;
    assert i - 1 == q * cols + (r - 1);
    Remainder(i - 1, q, r - 1, cols);
  }

  predicate NumericCell(s: seq<Piece>) {
    && s != [] && (s[0].c == '-' || '0' <= s[0].c <= '9')
    && forall i :: 0 <= i < |s| ==> s[i].c in "0123456789+-.eE"
  }

  function Spaces(n: nat): (r: seq<Piece>)
    ensures |r| == n
  {
    seq(n, _ => Space(' '))
  }

  function NewLine(indent: nat): seq<Piece> { [Space('\n')] + Spaces(INDENT_WIDTH * indent) }

  lemma {:induction false} StripSpaces(n: nat)
    ensures Strip(Spaces(n)) == ""
  {
    if n > 0 {
      StripSpaces(n - 1);
      assert Spaces(n)[..n - 1] == Spaces(n - 1);
    }
  }

  lemma StripNewLine(indent: nat)
    ensures Strip(NewLine(indent)) == ""
  {
    StripSpaces(INDENT_WIDTH * indent);
    StripConcat([Space('\n')], Spaces(INDENT_WIDTH * indent));
    assert [Space('\n')][..0] == [];
  }

  /** The content of cells set side by side. */
  function JoinFrom(cells: seq<seq<Piece>>, i: nat): string
    requires i <= |cells|
    decreases |cells| - i
  {
    if i == |cells| then "" else
      Strip(cells[i]) + (if i + 1 < |cells| then "," else "") + JoinFrom(cells, i + 1)
  }

  /** Column of the next character after ps: characters since the last line break. */
  function Col(ps: seq<Piece>): nat {
    if ps == [] then 0 else if ps[|ps| - 1].c == '\n' then 0 else Col(ps[..|ps| - 1]) + 1
  }

  predicate OneLine(ps: seq<Piece>) { forall i :: 0 <= i < |ps| ==> ps[i].c != '\n' }

  lemma {:induction false} ColAdds(a: seq<Piece>, b: seq<Piece>)
    requires OneLine(b)
    ensures Col(a + b) == Col(a) + |b|
  {
    if b == [] {
      assert a + b == a;
    } else {
      assert (a + b)[..|a + b| - 1] == a + b[..|b| - 1];
      ColAdds(a, b[..|b| - 1]);
    }
  }

  lemma ColAfterNewLine(a: seq<Piece>, indent: nat)
    ensures Col(a + NewLine(indent)) == INDENT_WIDTH * indent
  {
    assert a + NewLine(indent) == (a + [Space('\n')]) + Spaces(INDENT_WIDTH * indent);
    assert (a + [Space('\n')])[|a|].c == '\n';
    ColAdds(a + [Space('\n')], Spaces(INDENT_WIDTH * indent));
  }

  // ---- steps of the loops --------------------------------------------------------------------

  ghost predicate Collected(items: Items, rest: Items, first: bool, cells: seq<seq<Piece>>, buf: seq<Piece>) {
    if first then rest == items && cells == [] && buf == [] else items.Cons? && Cells(items) == (cells + [buf]) + Cells(rest)
  }

  lemma NextCell(items: Items, rest: Items, first: bool, cells: seq<seq<Piece>>, buf: seq<Piece>,
                 cells': seq<seq<Piece>>, buf': seq<Piece>)
    requires Collected(items, rest, first, cells, buf) && rest.Cons?
    requires cells' == (if first then cells else cells + [buf]) && buf' == Compact(rest.value)
    ensures Collected(items, rest.rest, false, cells', buf')
  {
    hide Compact;
    assert Cells(rest) == [buf'] + Cells(rest.rest);
    assert cells' + ([buf'] + Cells(rest.rest)) == (cells' + [buf']) + Cells(rest.rest);
  }

  lemma CellsDone(items: Items, first: bool, cells: seq<seq<Piece>>, buf: seq<Piece>)
    requires Collected(items, Nil, first, cells, buf)
    ensures if items.Nil? then cells == [] && buf == [] else cells + [buf] == Cells(items)
  {
    assert (cells + [buf]) + [] == cells + [buf];
  }

  lemma ProbeStep(buf: seq<Piece>, k: Kind, items: Items, first: bool, buf': seq<Piece>)
    requires items.Cons? && buf' == buf + (Sep(first) + Label(k, items.key) + Compact(items.value))
    ensures buf' + CompactFrom(k, items.rest, false) == buf + CompactFrom(k, items, first)
  {
    hide Compact, Label;
    PieceAssoc(buf, Sep(first) + Label(k, items.key) + Compact(items.value), CompactFrom(k, items.rest, false));
  }

  lemma ContentStep(out: seq<Piece>, k: Kind, items: Items, first: bool, out': seq<Piece>)
    requires items.Cons?
    requires Strip(out') == Strip(out) + (if first then "" else ",") + Strip(Label(k, items.key)) + Content(items.value)
    ensures Strip(out') + ContentFrom(k, items.rest, false) == Strip(out) + ContentFrom(k, items, first)
  {
    hide Strip, Content, ContentFrom, Label;
    NextContent(k, items, first);
    StringAssoc(Strip(out), if first then "" else ",", Strip(Label(k, items.key)), Content(items.value),
                ContentFrom(k, items.rest, false));
  }

  lemma BracketAssoc(x: string, y: string)
    ensures x + "[" + y + "]" == x + ("[" + y + "]")
  {
  }

  lemma TailIsLayout(indent: nat, any: bool)
    ensures Strip(if any then NewLine(indent) else []) == ""
  {
    StripNewLine(indent);
  }

  lemma NestedPieces(buf: seq<Piece>, k: Kind, items: Items)
    ensures (buf + [Open(k)]) + CompactFrom(k, items, true) + [Close(k)] == buf + Compact(Node(k, items))
  {
  }

  lemma NothingLeft(k: Kind, first: bool, buf: seq<Piece>, text: string)
    ensures buf + CompactFrom(k, Nil, first) == buf && text + ContentFrom(k, Nil, first) == text
  {
  }

  /** So many cells are closed, with so many characters in them and in the one being written. */
  ghost predicate InCells(items: Items, rest: Items, first: bool, closed: nat, bytes: nat) {
    if first then rest == items && closed == 0 && bytes == 0
    else items.Cons? && closed + 1 + |Cells(rest)| <= |Cells(items)| && bytes + Total(rest) <= Total(items)
  }

  lemma StartOfLines(k: Kind, items: Items, out: seq<Piece>, buf: seq<Piece>)
    ensures items.Nil? ==> Cells(items) == [] && Total(items) == 0
  {
  }

  /** What the next entry takes out of each measure of what is left. */
  lemma NextItem(k: Kind, items: Items, first: bool, width: nat, indent: nat, out: seq<Piece>)
    requires items.Cons?
    ensures Cells(items) == [Compact(items.value)] + Cells(items.rest)
    ensures Total(items) == |Compact(items.value)| + Total(items.rest)
    ensures NoEmptyItems(items) ==> NoEmptyText(items.value) && NoEmptyItems(items.rest)
    ensures |CompactFrom(k, items, first)|
         == |Sep(first) + Label(k, items.key) + Compact(items.value)| + |CompactFrom(k, items.rest, false)|
    ensures var line := (if first then [] else [Text(',')]) + NewLine(indent) + Label(k, items.key)
                        + Layout(items.value, width, INDENT_WIDTH * indent + (if k == Message then |items.key| + 4 else 0), indent);
            out + Lines(k, items, first, width, indent) == out + line + Lines(k, items.rest, false, width, indent)
  {
    hide Compact, Label, NewLine, Layout, NoEmptyText;
  }

  lemma EndOfLines(k: Kind, items: Items, rest: Items, first: bool, width: nat, indent: nat, out: seq<Piece>)
    ensures Lines(k, Nil, first, width, indent) == [] && CompactFrom(k, Nil, first) == [] && Total(Nil) == 0 && Cells(Nil) == []
    ensures out + [] == out
  {
  }

  lemma EmptyCannotGrid(items: Items, inner: nat, width: nat)
    ensures items.Nil? ==> !CanGrid(items, inner, width)
  {
  }

  lemma {:induction false} BestIsLargest(cells: seq<seq<Piece>>, from: nat, c: nat, inner: nat, width: nat)
    requires MIN_GRID_COLUMNS <= c <= from && GridFits(cells, c, inner, width)
    requires forall d :: c < d <= from ==> !GridFits(cells, d, inner, width)
    ensures BestColumns(cells, from, inner, width) == c
    decreases from
  {
    hide GridFits;
    if from > c {
      BestIsLargest(cells, from - 1, c, inner, width);
    }
  }

  lemma CellIs(before: seq<Piece>, lead: seq<Piece>, pad: nat, right: nat, cells: seq<seq<Piece>>, i: nat, widths: seq<nat>,
               numeric: bool, indent: nat, pos0: nat)
    requires i < |cells| && |widths| >= 1 && (lead == if i % |widths| == 0 then NewLine(indent) else [])
    requires i % |widths| != 0 ==> i > 0 && pos0 == CellEnd(cells, i - 1, widths, numeric, INDENT_WIDTH * indent)
    requires (if i % |widths| != 0 then pos0 else INDENT_WIDTH * indent) + pad + right
          == CellStart(cells, i, widths, numeric, INDENT_WIDTH * indent)
    ensures var comma := if i + 1 < |cells| then [Text(',')] else [];
            before + lead + Spaces(pad) + Spaces(right) + (cells[i] + comma) == before + CellPieces(cells, i, widths, numeric, indent)
  {
    hide NewLine, CellStart, CellEnd;
    assert Spaces(pad) + Spaces(right) == Spaces(pad + right);
    Regrouped(before, lead, Spaces(pad), Spaces(right), cells[i] + if i + 1 < |cells| then [Text(',')] else []);
  }

  lemma Regrouped(a: seq<Piece>, b: seq<Piece>, c: seq<Piece>, d: seq<Piece>, e: seq<Piece>)
    ensures a + b + c + d + e == a + (b + (c + d) + e)
  {
  }

  lemma GridNext(out: seq<Piece>, cells: seq<seq<Piece>>, i: nat, widths: seq<nat>, numeric: bool, indent: nat)
    requires i < |cells| && |widths| >= 1
    ensures out + GridText(cells, i, widths, numeric, indent) + CellPieces(cells, i, widths, numeric, indent)
         == out + GridText(cells, i + 1, widths, numeric, indent)
    ensures out + GridText(cells, 0, widths, numeric, indent) == out
  {
    hide CellPieces;
  }

  lemma ArrayLabel(key: string)
    ensures Label(ArrayField, key) == []
  {
  }

  lemma PieceAssoc(buf: seq<Piece>, a: seq<Piece>, b: seq<Piece>)
    ensures buf + (a + b) == (buf + a) + b
  {
  }

  lemma StringAssoc(x: string, a: string, b: string, c: string, d: string)
    ensures x + (a + b + c + d) == ((x + a) + b) + c + d
  {
  }

  lemma NextContent(k: Kind, items: Items, first: bool)
    requires items.Cons?
    ensures ContentFrom(k, items, first) == (if first then "" else ",") + Strip(Label(k, items.key)) + Content(items.value)
                                            + ContentFrom(k, items.rest, false)
  {
    hide Compact, Label;
    var a, b, c, d := Sep(first), Label(k, items.key), Compact(items.value), CompactFrom(k, items.rest, false);
    StripConcat(a + b + c, d);
    StripConcat(a + b, c);
    StripConcat(a, b);
    assert Strip(a) == if first then "" else "," by {
      assert [Text(','), Space(' ')][..1] == [Text(',')] && [Text(',')][..0] == [];
    }
  }

  lemma StripComma(first: bool)
    ensures Strip(if first then [] else [Text(',')]) == if first then "" else ","
  {
    assert [Text(',')][..0] == [];
  }

  /** Separator, line break and key of a multi-line entry add only the comma and the key. */
  lemma StripEntry(out: seq<Piece>, indent: nat, first: bool, k: Kind, key: string)
    ensures Strip(out + (if first then [] else [Text(',')]) + NewLine(indent) + Label(k, key))
         == (Strip(out) + (if first then "" else ",")) + Strip(Label(k, key))
  {
    hide Label, NewLine;
    var c := if first then [] else [Text(',')];
    StripConcat(out + c + NewLine(indent), Label(k, key));
    StripConcat(out + c, NewLine(indent));
    StripConcat(out, c);
    StripNewLine(indent);
    StripComma(first);
    assert Strip(out + c) + "" == Strip(out + c);
  }

  lemma StripBracket(p: Piece)
    requires p.Text?
    ensures Strip([p]) == [p.c]
  {
    assert [p][..0] == [];
  }

  lemma GroupContent(k: Kind, items: Items)
    ensures Content(Node(k, items)) == [Open(k).c] + ContentFrom(k, items, true) + [Close(k).c]
  {
    hide CompactFrom;
    StripConcat([Open(k)] + CompactFrom(k, items, true), [Close(k)]);
    StripConcat([Open(k)], CompactFrom(k, items, true));
    StripBracket(Open(k));
    StripBracket(Close(k));
  }

  /** Bracket, entries, layout and bracket are the content of the group. */
  lemma MultiLineContent(out0: seq<Piece>, k: Kind, items: Items, inside: seq<Piece>, layout: seq<Piece>)
    requires Strip(inside) == Strip(out0 + [Open(k)]) + ContentFrom(k, items, true) && Strip(layout) == ""
    ensures Strip(inside + layout + [Close(k)]) == Strip(out0) + Content(Node(k, items))
  {
    hide Content, ContentFrom;
    StripConcat(out0, [Open(k)]);
    StripBracket(Open(k));
    StripBracket(Close(k));
    StripConcat(inside + layout, [Close(k)]);
    StripConcat(inside, layout);
    GroupContent(k, items);
    assert Strip(inside) + "" == Strip(inside);
  }

  lemma ArrayContent(items: Items, first: bool)
    requires items.Cons?
    ensures ContentFrom(ArrayField, items, first)
         == (if first then "" else ",") + (Content(items.value) + ContentFrom(ArrayField, items.rest, false))
  {
    hide Content, ContentFrom;
    NextContent(ArrayField, items, first);
    StripLabelArray(items.key);
    var c := if first then "" else ",";
    assert c + Strip(Label(ArrayField, items.key)) == c;
  }

  /** Cells joined by commas are the entries' content. */
  lemma {:induction false} CellsContent(pre: seq<seq<Piece>>, items: Items)
    requires items.Cons?
    ensures JoinFrom(pre + Cells(items), |pre|) == ContentFrom(ArrayField, items, true)
    decreases items
  {
    hide Compact, CompactFrom, Strip, ContentFrom;
    var all, v := pre + Cells(items), Compact(items.value);
    assert all[|pre|] == v && |all| == |pre| + 1 + |Cells(items.rest)|;
    ArrayContent(items, true);
    if items.rest.Cons? {
      assert (pre + [v]) + Cells(items.rest) == all;
      CellsContent(pre + [v], items.rest);
      ArrayContent(items.rest, false);
      ArrayContent(items.rest, true);
      CommaJoin(Strip(v), JoinFrom(all, |pre| + 1));
    } else {
      NoContent();
    }
  }

  lemma CommaJoin(x: string, y: string)
    ensures (x + ",") + y == "" + (x + ("," + ("" + y)))
  {
  }

  lemma NoContent()
    ensures ContentFrom(ArrayField, Nil, false) == ""
  {
  }

  lemma StripLabelArray(key: string)
    ensures Strip(Label(ArrayField, key)) == ""
  {
  }

  // ---- the text of the compact form ----------------------------------------------------------

  function Plain(ps: seq<Piece>): string { seq(|ps|, i requires 0 <= i < |ps| => ps[i].c) }

  /** The document as a line of JSON. */
  function Json(d: Doc): string
    decreases d
  {
    match d
    case Atom(text) => text
    case Node(ArrayField, items) => "[" + JsonFrom(items, true, false) + "]"
    case Node(_, items) => "{" + JsonFrom(items, true, true) + "}"
  }

  function JsonFrom(items: Items, first: bool, named: bool): string
    decreases items
  {
    match items
    case Nil => ""
    case Cons(key, v, rest) =>
      (if first then "" else ", ") + (if named then "\"" + key + "\": " else "") + Json(v) + JsonFrom(rest, false, named)
  }

  lemma PlainJoin(a: seq<Piece>, b: seq<Piece>)
    ensures Plain(a + b) == Plain(a) + Plain(b)
  {
  }

  lemma PlainLabel(k: Kind, key: string, first: bool)
    ensures Plain(Label(k, key)) == if k == ArrayField then "" else "\"" + key + "\": "
    ensures Plain(Sep(first)) == if first then "" else ", "
  {
    if k != ArrayField {
      PlainJoin([Text('"')] + T(key), [Text('"'), Text(':'), Text(' ')]);
      PlainJoin([Text('"')], T(key));
      assert Plain(T(key)) == key;
      assert "\"" + key + "\": " == "\"" + key + ("\"" + ": ");
    }
  }

  /** The compact form is that line. */
  lemma {:induction false} CompactIsJson(d: Doc)
    ensures Plain(Compact(d)) == Json(d)
    decreases d
  {
    hide Plain;
    match d
    case Atom(text) => assert Plain(T(text)) == text by { PlainText(text); }
    case Node(k, items) =>
      EntriesAreJson(k, items, true);
      PlainJoin([Open(k)] + CompactFrom(k, items, true), [Close(k)]);
      PlainJoin([Open(k)], CompactFrom(k, items, true));
      PlainOne(Open(k));
      PlainOne(Close(k));
  }

  lemma PlainText(text: string)
    ensures Plain(T(text)) == text
  {
  }

  lemma PlainOne(p: Piece)
    ensures Plain([p]) == [p.c] && Plain([]) == ""
  {
  }

  lemma {:induction false} EntriesAreJson(k: Kind, items: Items, first: bool)
    ensures Plain(CompactFrom(k, items, first)) == JsonFrom(items, first, k != ArrayField)
    decreases items
  {
    hide Plain, Label, Sep;
    if items.Cons? {
      CompactIsJson(items.value);
      EntriesAreJson(k, items.rest, false);
      PlainLabel(k, items.key, first);
      var a, b, c, e := Sep(first), Label(k, items.key), Compact(items.value), CompactFrom(k, items.rest, false);
      PlainJoin(a + b + c, e);
      PlainJoin(a + b, c);
      PlainJoin(a, b);
    } else {
      PlainOne(Text(' '));
    }
  }

  /** The cells to be right-aligned: they start with a digit or a minus sign and have only characters of a number. */
  lemma NumericMeans(s: seq<Piece>)
    ensures NumericCell(s) <==> s != [] && s[0].c in "-0123456789" && forall i :: 0 <= i < |s| ==> s[i].c in "+-.0123456789Ee"
  {
  }

  // ---- the layout of a document --------------------------------------------------------------

  /** No scalar is written as nothing. */
  predicate NoEmptyText(d: Doc)
    decreases d
  {
    match d case Atom(text) => text != "" case Node(_, items) => NoEmptyItems(items)
  }

  predicate NoEmptyItems(items: Items)
    decreases items
  {
    items.Cons? ==> NoEmptyText(items.value) && NoEmptyItems(items.rest)
  }

  function Room(width: nat, column: nat): nat { if width > column then width - column else 0 }

  /** The characters of all the cells. */
  function Total(items: Items): nat {
    match items case Nil => 0 case Cons(_, v, rest) => |Compact(v)| + Total(rest)
  }

  /** The array is past the caps on what a grid may hold. */
  predicate TooBig(items: Items) { |Cells(items)| > 4096 || Total(items) > 65536 }

  /** No two columns or more fit. */
  ghost predicate NoneFits(cells: seq<seq<Piece>>, inner: nat, width: nat) {
    forall c :: MIN_GRID_COLUMNS <= c <= |cells| ==> !GridFits(cells, c, inner, width)
  }

  ghost predicate CanGrid(items: Items, inner: nat, width: nat) {
    !TooBig(items) && (forall i :: 0 <= i < |Cells(items)| ==> OneLine(Cells(items)[i])) && !NoneFits(Cells(items), inner, width)
  }

  /** The largest number of columns that fits, of c at most. */
  ghost function BestColumns(cells: seq<seq<Piece>>, c: nat, inner: nat, width: nat): (best: nat)
    ensures best >= 1
  {
    if c < MIN_GRID_COLUMNS then 1
    else if GridFits(cells, c, inner, width) then c else BestColumns(cells, c - 1, inner, width)
  }

  predicate AllNumeric(cells: seq<seq<Piece>>) { forall i :: 0 <= i < |cells| ==> NumericCell(cells[i]) }

  /** Cell i of a grid: a line break before the first of a row, spaces up to its start, its text and its comma. */
  function CellPieces(cells: seq<seq<Piece>>, i: nat, widths: seq<nat>, numeric: bool, indent: nat): seq<Piece>
    requires i < |cells| && |widths| >= 1
  {
    var inner := INDENT_WIDTH * indent;
    var from := if i % |widths| == 0 then inner else if i == 0 then 0 else CellEnd(cells, i - 1, widths, numeric, inner);
    var gap := CellStart(cells, i, widths, numeric, inner) - from;
    (if i % |widths| == 0 then NewLine(indent) else []) + Spaces(if gap < 0 then 0 else gap)
    + (cells[i] + if i + 1 < |cells| then [Text(',')] else [])
  }

  /** The first n cells. */
  function GridText(cells: seq<seq<Piece>>, n: nat, widths: seq<nat>, numeric: bool, indent: nat): seq<Piece>
    requires n <= |cells| && |widths| >= 1
  {
    if n == 0 then [] else GridText(cells, n - 1, widths, numeric, indent) + CellPieces(cells, n - 1, widths, numeric, indent)
  }

  function Grid(cells: seq<seq<Piece>>, cols: nat, indent: nat): seq<Piece>
    requires cols >= 1
  {
    [Text('[')] + GridText(cells, |cells|, Widths(cells, |cells|, cols), AllNumeric(cells), indent + 1)
    + NewLine(indent) + [Text(']')]
  }

  /** The text of a document that starts at a column: compact when that fits the rest of the line, else for an array a grid
      when there can be one, else one entry per line. */
  ghost function Layout(d: Doc, width: nat, column: nat, indent: nat): seq<Piece>
    decreases d
  {
    match d
    case Atom(text) => T(text)
    case Node(k, items) =>
      if |Compact(d)| <= Room(width, column) then Compact(d)
      else if k == ArrayField && CanGrid(items, INDENT_WIDTH * (indent + 1), width) then
        Grid(Cells(items), BestOf(Cells(items), INDENT_WIDTH * (indent + 1), width), indent)
      else
        [Open(k)] + Lines(k, items, true, width, indent + 1) + (if items.Cons? then NewLine(indent) else []) + [Close(k)]
  }

  ghost function BestOf(cells: seq<seq<Piece>>, inner: nat, width: nat): (c: nat)
    ensures c >= 1
  {
    BestColumns(cells, |cells|, inner, width)
  }

  /** The entries of a group, each on its own line. */
  ghost function Lines(k: Kind, items: Items, first: bool, width: nat, indent: nat): seq<Piece>
    decreases items
  {
    match items
    case Nil => []
    case Cons(key, v, rest) =>
      (if first then [] else [Text(',')]) + NewLine(indent) + Label(k, key)
      + Layout(v, width, INDENT_WIDTH * indent + (if k == Message then |key| + 4 else 0), indent)
      + Lines(k, rest, false, width, indent)
  }

  /** Where the next character goes: scalars are not counted, since a line break follows them. */
  ghost function ColumnAfter(d: Doc, width: nat, column: nat, indent: nat): nat {
    if d.Atom? then column
    else if |Compact(d)| <= Room(width, column) then column + |Compact(d)| else INDENT_WIDTH * indent + 1
  }

  // ---- the writer ----------------------------------------------------------------------------

  class Writer {
    var out: seq<Piece>
    var buf: seq<Piece>
    const width: nat
    var avail: nat
    var column: nat
    var indent: nat
    var compact: bool
    var collect: bool
    var collecting: bool
    var cells: seq<seq<Piece>>
    var cellBytes: nat

    constructor (width: nat, startIndent: nat)
      ensures !compact && !collect && !collecting && out == [] && this.width == width
      ensures indent == if startIndent < MAX_INDENT then startIndent else MAX_INDENT
    {
      out, buf, cells, cellBytes, avail := [], [], [], 0, 0;
      this.width := width;
      indent := if startIndent < MAX_INDENT then startIndent else MAX_INDENT;
      column := (if startIndent < MAX_INDENT then startIndent else MAX_INDENT) * INDENT_WIDTH;
      compact, collect, collecting := false, false, false;
    }

    /** Collection only happens inside a probe; cells are only closed while collecting. */
    ghost predicate Modes()
      reads this
    {
      (collect ==> collecting) && (collecting ==> compact)
    }

    predicate GridCapped()
      reads this
    {
      |cells| > MAX_GRID_CELLS || cellBytes + |buf| > MAX_GRID_BYTES
    }

    predicate Overflowed()
      reads this
    {
      if collecting then GridCapped() else compact && |buf| > avail
    }

    /** Write to the sink: the scratch buffer during a probe, the output otherwise. */
    method Put(ps: seq<Piece>)
      modifies this`out, this`buf
      ensures compact ==> buf == old(buf) + ps && out == old(out)
      ensures !compact ==> out == old(out) + ps && buf == old(buf)
    {
      if compact {
        buf := buf + ps;
      } else {
        out := out + ps;
      }
    }

    method PutNewLine()
      modifies this`out
      ensures out == old(out) + NewLine(indent)
    {
      out := out + NewLine(indent);
    }

    method Key(k: Kind, key: string)
      modifies this`out, this`buf, this`column
      ensures compact ==> buf == old(buf) + Label(k, key) && out == old(out) && column == old(column)
      ensures !compact ==> out == old(out) + Label(k, key) && buf == old(buf)
      ensures !compact ==> column == old(column) + if k == Message then |key| + 4 else 0
    {
      Put(Label(k, key));
      if !compact && k == Message {
        column := column + |key| + 4;
      }
    }

    method PushCell()
      modifies this`buf, this`cells, this`cellBytes
      ensures cells == old(cells) + [old(buf)] && buf == [] && cellBytes == old(cellBytes) + |old(buf)|
    {
      cellBytes := cellBytes + |buf|;
      cells := cells + [buf];
      buf := [];
    }

    method EntrySep(first: bool)
      requires Modes()
      modifies this`out, this`buf, this`column, this`cells, this`cellBytes
      ensures compact && collect ==> out == old(out)
      ensures compact && collect && first ==> buf == old(buf) && cells == old(cells) && cellBytes == old(cellBytes)
      ensures compact && collect && !first ==>
                cells == old(cells) + [old(buf)] && buf == [] && cellBytes == old(cellBytes) + |old(buf)|
      ensures compact && !collect ==> out == old(out) && buf == old(buf) + Sep(first)
      ensures !compact ==> out == old(out) + (if first then [] else [Text(',')]) + NewLine(indent) && buf == old(buf)
      ensures column == if compact then old(column) else INDENT_WIDTH * indent
      ensures !(compact && collect) ==> cells == old(cells) && cellBytes == old(cellBytes)
    {
      if compact {
        if collect {
          if !first {
            PushCell();
          }
          return;
        }
        Put(Sep(first));
        return;
      }
      if !first {
        Put([Text(',')]);
      }
      assert out == old(out) + if first then [] else [Text(',')];
      PutNewLine();
      column := indent * INDENT_WIDTH;
    }

    /** The switches are as they were; during a probe so is its budget. */
    twostate predicate SameMode()
      reads this
    {
      && compact == old(compact) && collect == old(collect) && collecting == old(collecting) && indent == old(indent)
      && (compact ==> avail == old(avail) && column == old(column))
    }

    /** A probe wrote ps to the buffer, or overflowed on the way: an overflow is never forgotten. */
    twostate predicate Probed(ps: seq<Piece>)
      reads this
    {
      && out == old(out) && cells == old(cells) && cellBytes == old(cellBytes)
      && old(buf) <= buf && |buf| <= |old(buf)| + |ps|
      && (Overflowed() || buf == old(buf) + ps)
    }

    method WriteValue(d: Doc)
      requires Modes()
      modifies this
      ensures SameMode()
      ensures compact ==> Probed(Compact(d))
      ensures compact && NoEmptyText(d) ==> |buf| > |old(buf)|
      ensures !compact ==> Strip(out) == Strip(old(out)) + Content(d)
      ensures !compact && NoEmptyText(d) ==> out == old(out) + Layout(d, width, old(column), indent)
                                             && column == ColumnAfter(d, width, old(column), indent)
      decreases SizeDoc(d), 0
    {
      match d
      case Atom(text) =>
        Put(T(text));
        if !compact {
          StripConcat(old(out), T(text));
        }
      case Node(k, items) =>
        WriteGroup(k, items);
    }

    /** One entry: separator, key, value, in whatever mode the writer is in. */
    method Entry(k: Kind, items: Items, first: bool)
      requires Modes() && items.Cons? && (collect ==> k == ArrayField && (first ==> buf == []))
      modifies this
      ensures SameMode()
      ensures compact && !collect ==> Probed(Sep(first) + Label(k, items.key) + Compact(items.value))
      ensures collect ==> out == old(out) && (old(GridCapped()) ==> GridCapped())
      ensures compact && !collect && NoEmptyText(items.value) ==> |buf| > |old(buf)|
      ensures collect ==>
                && cells == (if first then old(cells) else old(cells) + [old(buf)]) && |buf| <= |Compact(items.value)|
                && cellBytes == old(cellBytes) + if first then 0 else |old(buf)|
      ensures collect && !GridCapped() ==> buf == Compact(items.value)
      ensures !compact && NoEmptyText(items.value) ==>
                out == old(out) + ((if first then [] else [Text(',')]) + NewLine(indent) + Label(k, items.key)
                                   + Layout(items.value, width, INDENT_WIDTH * indent + (if k == Message then |items.key| + 4 else 0), indent))
      ensures !compact ==> Strip(out) == Strip(old(out)) + (if first then "" else ",") + Strip(Label(k, items.key)) + Content(items.value)
      decreases SizeItems(items), 0
    {
      hide Compact, Label, NewLine, Strip, Content, Layout, NoEmptyText;
      EntrySep(first);
      Key(k, items.key);
      if !compact {
        StripEntry(old(out), indent, first, k, items.key);
      }
      if collect {
        ArrayLabel(items.key);
        assert buf == [];
      }
      WriteValue(items.value);
    }

    /** The entries of an object, a map or an array. */
    method Body(k: Kind, items: Items)
      requires Modes()
      requires collect ==> k == ArrayField && cells == [] && buf == [] && cellBytes == 0
      modifies this
      ensures SameMode()
      ensures compact && !collect ==> Probed(CompactFrom(k, items, true))
      ensures collect ==> out == old(out)
      ensures collect ==> GridCapped() || (if items.Nil? then cells == [] && buf == [] else cells + [buf] == Cells(items))
      ensures collect && items.Cons? ==> |cells| + 1 <= |Cells(items)| && cellBytes + |buf| <= Total(items)
      ensures collect && !GridCapped() ==> cellBytes + |buf| == Total(items)
      ensures compact && !collect && items.Cons? && NoEmptyItems(items) ==> |buf| > |old(buf)|
      ensures !compact && NoEmptyItems(items) ==> out == old(out) + Lines(k, items, true, width, indent)
      ensures !compact ==> Strip(out) == Strip(old(out)) + ContentFrom(k, items, true)
      decreases SizeItems(items), 1
    {
      hide Compact, CompactFrom, Cells, Label, Strip, Content, ContentFrom, Total, Layout, Lines, NoEmptyText, NoEmptyItems;
      var rest, first := items, true;
      StartOfLines(k, items, out, buf);
      while rest.Cons?
        invariant SizeItems(rest) <= SizeItems(items) && SameMode() && Modes()
        invariant compact ==> out == old(out)
        invariant compact && !collect ==> cells == old(cells) && cellBytes == old(cellBytes) && old(buf) <= buf
        invariant compact && !collect ==> Overflowed() || old(buf) + CompactFrom(k, items, true) == buf + CompactFrom(k, rest, first)
        invariant collect ==> GridCapped() || Collected(items, rest, first, cells, buf)
        invariant collect && first ==> buf == []
        invariant !compact ==> Strip(old(out)) + ContentFrom(k, items, true) == Strip(out) + ContentFrom(k, rest, first)
        invariant compact && !collect ==> |buf| + |CompactFrom(k, rest, first)| <= |old(buf)| + |CompactFrom(k, items, true)|
        invariant collect ==> InCells(items, rest, first, |cells|, cellBytes + |buf|)
        invariant collect && !GridCapped() ==> cellBytes + |buf| + Total(rest) == Total(items)
        invariant NoEmptyItems(items) ==> NoEmptyItems(rest)
        invariant compact && !collect && NoEmptyItems(items) && !first ==> |buf| > |old(buf)|
        invariant first ==> rest == items
        invariant !compact && NoEmptyItems(items) ==>
                    out + Lines(k, rest, first, width, indent) == old(out) + Lines(k, items, true, width, indent)
        decreases SizeItems(rest)
      {
        ghost var out0, buf0, cells0 := out, buf, cells;
        NextItem(k, rest, first, width, indent, out);
        Entry(k, rest, first);
        if !compact {
          ContentStep(out0, k, rest, first, out);
        } else if collect {
          if !GridCapped() {
            NextCell(items, rest, first, cells0, buf0, cells, buf);
          }
        } else if !Overflowed() {
          ProbeStep(buf0, k, rest, first, buf);
        }
        rest, first := rest.rest, false;
        if k != Message && Overflowed() {
          break;
        }
      }
      NothingLeft(k, first, buf, Strip(out));
      EndOfLines(k, items, rest, first, width, indent, out);
      if collect && !GridCapped() {
        CellsDone(items, first, cells, buf);
      }
    }

    /** A group met during a probe goes straight to the buffer; its entries are not cells of the array collected. */
    method WriteNested(k: Kind, items: Items)
      requires Modes() && compact
      modifies this
      ensures SameMode() && Probed(Compact(Node(k, items))) && |buf| > |old(buf)|
      decreases SizeItems(items), 2
    {
      hide CompactFrom;
      var outer := collect;
      collect := false;
      Put([Open(k)]);
      Body(k, items);
      Put([Close(k)]);
      collect := outer;
      NestedPieces(old(buf), k, items);
    }

    /** The compact form in the scratch buffer, cut short once it is wider than the room on the line. */
    method Probe(k: Kind, items: Items) returns (s: seq<Piece>)
      requires Modes() && !compact
      modifies this
      ensures SameMode() && out == old(out) && column == old(column)
      ensures avail == Room(width, column)
      ensures |s| <= avail ==> s == Compact(Node(k, items))
      ensures |s| <= |Compact(Node(k, items))|
      ensures NoEmptyItems(items) ==> (|s| > 2 <==> items.Cons?)
      decreases SizeItems(items), 2
    {
      assert CompactFrom(k, Nil, true) == [];
      hide CompactFrom;
      avail := if width > column then width - column else 0;
      buf := [];
      compact := true;
      Put([Open(k)]);
      Body(k, items);
      Put([Close(k)]);
      compact := false;
      s := buf;
      NestedPieces([], k, items);
      assert [] + Compact(Node(k, items)) == Compact(Node(k, items));
    }

    method WriteMultiLine(k: Kind, items: Items, any: bool)
      requires Modes() && !compact
      modifies this
      ensures SameMode() && Strip(out) == Strip(old(out)) + Content(Node(k, items))
      ensures NoEmptyItems(items) ==>
                out == old(out) + ([Open(k)] + Lines(k, items, true, width, indent + 1) + (if any then NewLine(indent) else []) + [Close(k)])
      ensures column == INDENT_WIDTH * indent + 1
      decreases SizeItems(items), 2
    {
      hide Strip, ContentFrom, Content, NewLine, Lines;
      Put([Open(k)]);
      indent := indent + 1;
      Body(k, items);
      indent := indent - 1;
      ghost var inside := out;
      var tail := [];
      if any {
        PutNewLine();
        tail := NewLine(indent);
      }
      TailIsLayout(indent, any);
      assert out == inside + tail by {
        assert inside + [] == inside;
      }
      MultiLineContent(old(out), k, items, inside, tail);
      Put([Close(k)]);
      column := indent * INDENT_WIDTH + 1;
    }

    /** An object or array: compact if it fits, else for an array a grid, else one entry per line. */
    method WriteGroup(k: Kind, items: Items)
      requires Modes()
      modifies this
      ensures SameMode()
      ensures compact ==> Probed(Compact(Node(k, items))) && |buf| > |old(buf)|
      ensures !compact ==> Strip(out) == Strip(old(out)) + Content(Node(k, items))
      ensures !compact && |Compact(Node(k, items))| <= Room(width, old(column)) ==>
                out == old(out) + Compact(Node(k, items)) && column == old(column) + |Compact(Node(k, items))|
      ensures !compact && NoEmptyItems(items) ==>
                && out == old(out) + Layout(Node(k, items), width, old(column), indent)
                && column == ColumnAfter(Node(k, items), width, old(column), indent)
      ensures !compact && NoEmptyItems(items) && |Compact(Node(k, items))| > Room(width, old(column))
              && k == ArrayField && items.Cons? && CanGrid(items, INDENT_WIDTH * (indent + 1), width) ==>
                StandsAsGrid(out, |old(out)|, Cells(items), INDENT_WIDTH * (indent + 1), width)
      decreases SizeItems(items), 4
    {
      hide Strip, Compact, Lines, CanGrid, Grid, BestOf, Cells;
      if compact {
        WriteNested(k, items);
        return;
      }
      var s := Probe(k, items);
      if |s| <= avail {
        StripConcat(out, s);
        out := out + s;
        column := column + |s|;
        return;
      }
      var any := |s| > 2;
      var done := false;
      EmptyCannotGrid(items, INDENT_WIDTH * (indent + 1), width);
      if k == ArrayField && any {
        ghost var cols, at;
        done, cols, at := TryGrid(items);
      }
      if !done {
        WriteMultiLine(k, items, any);
      }
    }

    /** Run the entries with every boundary closing a cell. The cells are complete unless a cap was hit. */
    method CollectCells(items: Items)
      requires Modes() && !compact
      modifies this
      ensures SameMode() && out == old(out) && cells != []
      ensures GridCapped() || items.Nil? || cells == Cells(items)
      ensures items.Nil? && !GridCapped() ==> |cells| == 1
      ensures items.Cons? ==> (GridCapped() <==> TooBig(items))
      ensures column == old(column)
      decreases SizeItems(items), 2
    {
      hide Cells, Total;
      cells, cellBytes, buf := [], 0, [];
      compact, collect, collecting := true, true, true;
      Body(ArrayField, items);
      compact, collect, collecting := false, false, false;
      PushCell();
    }

    /** Collect the entries as cells and lay them out in as many aligned columns as fit. When that is not done, nothing
        is written: a cap was hit, a cell spans lines, or not even two columns fit. */
    method TryGrid(items: Items) returns (done: bool, ghost cols: nat, ghost at: seq<nat>)
      requires Modes() && !compact
      modifies this
      ensures SameMode()
      ensures done ==> Strip(out) == Strip(old(out)) + Content(Node(ArrayField, items))
      ensures done ==> IsGrid(out, |old(out)|, Cells(items), cols, at, INDENT_WIDTH * (indent + 1), width)
      ensures done && NoneEmpty(items) ==> Tidy(out, |old(out)|)
      ensures !done ==> out == old(out)
      ensures items.Cons? ==> (done <==> CanGrid(items, INDENT_WIDTH * (indent + 1), width))
      ensures items.Cons? && done ==>
                && out == old(out) + Grid(Cells(items), BestOf(Cells(items), INDENT_WIDTH * (indent + 1), width), indent)
                && column == INDENT_WIDTH * indent + 1
      ensures !done ==> column == old(column)
      decreases SizeItems(items), 3
    {
      hide Strip, Content, ContentFrom, Cells, GridFits, JoinFrom, CellPlaced, OneLine, NumericCell, Tidy, EndsInText, RowsWithin, GridEnd,
           TooBig, GridText, BestColumns;
      cols, at := 0, [];
      CollectCells(items);
      if GridCapped() {
        return false, cols, at;
      }
      var ok, count, numeric := ChooseColumns();
      ghost var inner := INDENT_WIDTH * (indent + 1);
      assert forall c :: c >= 1 ==> (ColumnsFit(c) <==> GridFits(cells, c, inner, width));
      if !ok {
        return false, cols, at;
      }
      ghost var all := cells;
      assert numeric == AllNumeric(all);
      assert forall c :: count < c <= |all| ==> !GridFits(all, c, inner, width);
      assert [] + Cells(items) == Cells(items);
      CellsContent([], items);
      GroupContent(ArrayField, items);
      BracketAssoc(Strip(out), ContentFrom(ArrayField, items, true));
      if items.Cons? {
        BestIsLargest(all, |all|, count, inner, width);
      }
      at := RenderGrid(count, numeric);
      cols := count;
      FitsWithin(out, |old(out)|, Cells(items), count, INDENT_WIDTH * (indent + 1), width);
      if NoneEmpty(items) {
        CellsEndInText(items);
      }
      return true, cols, at;
    }

    /** The cells fit the width in c columns, one level deeper than the array. */
    ghost predicate ColumnsFit(c: nat)
      requires c >= 1
      reads this
    {
      GridFits(cells, c, INDENT_WIDTH * (indent + 1), width)
    }

    /** The largest column count of at least two that fits, if no cell spans lines. */
    method ChooseColumns() returns (ok: bool, cols: nat, numeric: bool)
      requires cells != []
      ensures ok ==> 2 <= cols <= |cells| && ColumnsFit(cols)
      ensures ok ==> forall c :: cols < c <= |cells| ==> !ColumnsFit(c)
      ensures ok ==> forall i :: 0 <= i < |cells| ==> OneLine(cells[i])
      ensures !ok ==> || (exists i :: 0 <= i < |cells| && !OneLine(cells[i]))
                      || (forall c :: 2 <= c <= |cells| ==> !ColumnsFit(c))
      ensures ok ==> (numeric <==> forall i :: 0 <= i < |cells| ==> NumericCell(cells[i]))
    {
      ok, cols, numeric := false, 0, true;
      for i := 0 to |cells|
        invariant forall j :: 0 <= j < i ==> OneLine(cells[j])
        invariant numeric <==> forall j :: 0 <= j < i ==> NumericCell(cells[j])
      {
        if !OneLine(cells[i]) {
          return;
        }
        numeric := numeric && NumericCell(cells[i]);
      }
      var n := |cells|;
      var inner := INDENT_WIDTH * (indent + 1);
      cols := (if width > inner then width - inner + 1 else 0) / 2;
      cols := if cols < n then cols else n;
      forall c | cols < c <= n ensures !ColumnsFit(c) {
        TooManyColumns(cells, c, inner);
      }
      while cols >= MIN_GRID_COLUMNS
        invariant cols <= n
        invariant forall c :: Max(cols, 1) < c <= n ==> !ColumnsFit(c)
      {
        var widths := ComputeWidths(cols);
        var total := inner + (cols - 1);
        for c := 0 to cols
          invariant total == ColumnStart(widths, inner, c) + (cols - 1 - c)
        {
          total := total + widths[c];
        }
        if total <= width {
          break;
        }
        cols := cols - 1;
      }
      ok := cols >= MIN_GRID_COLUMNS;
    }

    method ComputeWidths(cols: nat) returns (widths: seq<nat>)
      requires cols >= 1
      ensures widths == Widths(cells, |cells|, cols)
    {
      widths := seq(cols, _ => 0);
      for i := 0 to |cells|
        invariant widths == Widths(cells, i, cols)
      {
        var c := i % cols;
        widths := widths[c := Max(widths[c], |cells[i]| + 1)];
      }
    }

    /** Rows of cols aligned cells. The i-th cell's text stands at index at[i] of the output, in the column the grid
        gives it. */
    method RenderGrid(cols: nat, numeric: bool) returns (ghost at: seq<nat>)
      requires !compact && cells != [] && cols >= 1 && forall i :: 0 <= i < |cells| ==> OneLine(cells[i])
      modifies this
      ensures SameMode() && old(out) <= out
      ensures Strip(out) == Strip(old(out)) + "[" + JoinFrom(old(cells), 0) + "]"
      ensures var widths := Widths(old(cells), |old(cells)|, cols);
              out == old(out) + [Text('[')] + GridText(old(cells), |old(cells)|, widths, numeric, indent + 1) + NewLine(indent) + [Text(']')]
      ensures column == INDENT_WIDTH * indent + 1
      ensures |at| == |old(cells)|
      ensures forall i :: 0 <= i < |at| ==> CellPlaced(out, at[i], old(cells), i, cols, numeric, INDENT_WIDTH * (indent + 1))
      ensures (forall i :: 0 <= i < |old(cells)| ==> EndsInText(old(cells)[i])) ==> Tidy(out, |old(out)|)
      ensures RowsWithin(out, |old(out)|, GridEnd(Widths(old(cells), |old(cells)|, cols), INDENT_WIDTH * (indent + 1)))
    {
      hide Strip, JoinFrom, CellPlaced, OneLine, CellEnd, Col, Widths, NewLine, Tidy, EndsInText, BreaksFirst, RowsWithin, GridEnd, Ruled, GridText, CellPieces;
      var widths := ComputeWidths(cols);
      var n := |cells|;
      ghost var all := cells;
      Put([Text('[')]);
      OpenContent(old(out));
      indent := indent + 1;
      ghost var inner := INDENT_WIDTH * indent;
      at := [];
      RuledStart(old(out), all, cols, numeric, inner);
      var pos := 0;
      ghost var start := out;
      GridNext(start, all, 0, widths, numeric, indent);
      for i := 0 to n
        invariant out == start + GridText(all, i, widths, numeric, indent)
        invariant cells == all && !compact && indent == old(indent) + 1 && old(out) <= out
        invariant collect == old(collect) && collecting == old(collecting)
        invariant (Strip(old(out)) + "[") + JoinFrom(all, 0) == Strip(out) + JoinFrom(all, i)
        invariant i > 0 ==> pos == Col(out) && pos == CellEnd(all, i - 1, widths, numeric, inner)
        invariant Ruled(out, |old(out)|, all, i, at, cols, numeric, inner)
      {
        ghost var out0 := out;
        ghost var here;
        pos, here := RenderCell(i, cols, widths, numeric, pos);
        GridNext(start, all, i, widths, numeric, indent);
        RuledNext(out0, out, |old(out)|, all, i, at, here, cols, numeric, inner);
        at := at + [here];
      }
      indent := indent - 1;
      ghost var out1 := out;
      PutNewLine();
      Put([Text(']')]);
      StripTail(out1, indent);
      JoinEnds(all, Strip(out1));
      RuledEnd(out1, |old(out)|, all, at, cols, numeric, inner, indent);
      column := indent * INDENT_WIDTH + 1;
      cells := [];
    }

    /** One cell: a line break before the first of a row, padding up to its column, right-alignment, text, comma. */
    method RenderCell(i: nat, cols: nat, widths: seq<nat>, numeric: bool, pos0: nat) returns (pos: nat, ghost here: nat)
      requires !compact && i < |cells| && cols >= 1 && widths == Widths(cells, |cells|, cols) && OneLine(cells[i])
      requires i > 0 ==> pos0 == Col(out) && pos0 == CellEnd(cells, i - 1, widths, numeric, INDENT_WIDTH * indent)
      modifies this`out, this`buf
      ensures old(out) <= out
      ensures Strip(out) + JoinFrom(cells, i + 1) == Strip(old(out)) + JoinFrom(cells, i)
      ensures pos == Col(out) && pos == CellEnd(cells, i, widths, numeric, INDENT_WIDTH * indent)
      ensures CellPlaced(out, here, cells, i, cols, numeric, INDENT_WIDTH * indent)
      ensures BreaksFirst(old(out), out) && (EndsInText(cells[i]) ==> EndsInText(out))
      ensures out == old(out) + CellPieces(cells, i, widths, numeric, indent)
    {
      hide Strip, JoinFrom, CellPlaced, OneLine, Col, Widths, NewLine, Spaces, CellStart, BreaksFirst, EndsInText, CellPieces;
      var lead, pad, right := Padding(i, cols, widths, numeric, pos0);
      pos := (if lead == [] then pos0 else INDENT_WIDTH * indent) + pad + right;
      var comma := if i + 1 < |cells| then [Text(',')] else [];
      ghost var before := out;
      ghost var padded := before + lead + Spaces(pad) + Spaces(right);
      Put(lead);
      Put(Spaces(pad));
      Put(Spaces(right));
      assert out == padded;
      here := |out|;
      Put(cells[i] + comma);
      pos := pos + |cells[i]| + |comma|;
      CellIs(before, lead, pad, right, cells, i, widths, numeric, indent, pos0);
      CommaOneLine(cells[i], i + 1 == |cells|);
      CellColumns(before, lead, pad, right, cells[i] + comma, indent);
      CellText(before, lead, pad, right, cells, i, indent);
      PlaceCell(out, padded, comma, cells, i, cols, numeric, INDENT_WIDTH * indent);
      OneBreak(before, lead, pad, right, cells[i], comma, indent);
      PrefixOf(before, lead, Spaces(pad), Spaces(right), cells[i] + comma);
    }

    /** The line break, the padding up to the column and the padding that right-aligns a number. */
    method Padding(i: nat, cols: nat, widths: seq<nat>, numeric: bool, pos0: nat)
      returns (lead: seq<Piece>, pad: nat, right: nat)
      requires i < |cells| && cols >= 1 && widths == Widths(cells, |cells|, cols)
      requires i > 0 ==> pos0 == CellEnd(cells, i - 1, widths, numeric, INDENT_WIDTH * indent)
      ensures if i % cols == 0 then lead == NewLine(indent) != [] else i > 0 && lead == []
      ensures (if lead == [] then pos0 else INDENT_WIDTH * indent) + pad + right
           == CellStart(cells, i, widths, numeric, INDENT_WIDTH * indent)
    {
      var inner := INDENT_WIDTH * indent;
      CellsInColumns(cells, i, cols, numeric, inner);
      hide Widths, CellEnd, ColumnStart;
      var col := i % cols;
      var pos := pos0;
      lead := [];
      if col == 0 {
        lead := NewLine(indent);
        pos := inner;
      }
      var start := StartOf(widths, inner, col);
      pad := start - pos;
      right := if numeric then widths[col] - (|cells[i]| + 1) else 0;
    }

    method StartOf(widths: seq<nat>, inner: nat, col: nat) returns (start: nat)
      requires col <= |widths|
      ensures start == ColumnStart(widths, inner, col)
    {
      start := inner;
      for k := 0 to col
        invariant start == ColumnStart(widths, inner, k)
      {
        start := start + (widths[k] + 1);
      }
    }
  }

  /** What the pieces of one cell add to the content: its text and its comma. */
  lemma CellText(before: seq<Piece>, lead: seq<Piece>, pad: nat, right: nat, cells: seq<seq<Piece>>, i: nat, indent: nat)
    requires i < |cells| && (lead == NewLine(indent) || lead == [])
    ensures var comma := if i + 1 < |cells| then [Text(',')] else [];
            var out := before + lead + Spaces(pad) + Spaces(right) + (cells[i] + comma);
            Strip(out) + JoinFrom(cells, i + 1) == Strip(before) + JoinFrom(cells, i)
  {
    var comma := if i + 1 < |cells| then [Text(',')] else [];
    var padded := before + lead + Spaces(pad) + Spaces(right);
    PaddingContent(before, lead, pad, right, indent);
    StripConcat(padded, cells[i] + comma);
    StripConcat(cells[i], comma);
    StripComma(i + 1 == |cells|);
    hide Strip, Spaces, NewLine;
    ThreeAssoc(Strip(before), Strip(cells[i]), Strip(comma), JoinFrom(cells, i + 1));
  }

  lemma ThreeAssoc(x: string, a: string, b: string, c: string)
    ensures (x + (a + b)) + c == x + (a + b + c)
  {
  }

  /** Where the pieces of one cell leave the column, before and after its text. */
  lemma CellColumns(before: seq<Piece>, lead: seq<Piece>, pad: nat, right: nat, text: seq<Piece>, indent: nat)
    requires OneLine(text) && (lead == NewLine(indent) || lead == [])
    ensures var padded := before + lead + Spaces(pad) + Spaces(right);
            && Col(padded) == (if lead == [] then Col(before) else INDENT_WIDTH * indent) + pad + right
            && Col(padded + text) == Col(padded) + |text|
  {
    var padded := before + lead + Spaces(pad) + Spaces(right);
    ColAdds(padded, text);
    SpacesOneLine(pad);
    SpacesOneLine(right);
    ColAdds(before + lead + Spaces(pad), Spaces(right));
    ColAdds(before + lead, Spaces(pad));
    hide Spaces, Col, OneLine;
    if lead == [] {
      assert before + [] == before;
    } else {
      ColAfterNewLine(before, indent);
    }
  }

  lemma PrefixOf(a: seq<Piece>, b: seq<Piece>, c: seq<Piece>, d: seq<Piece>, e: seq<Piece>)
    ensures a <= a + b + c + d + e
  {
  }

  lemma CommaOneLine(cell: seq<Piece>, last: bool)
    requires OneLine(cell)
    ensures OneLine(cell + if last then [] else [Text(',')])
  {
  }

  lemma PlaceCell(out: seq<Piece>, padded: seq<Piece>, comma: seq<Piece>, cells: seq<seq<Piece>>, i: nat, cols: nat,
                  numeric: bool, inner: nat)
    requires i < |cells| && cols >= 1 && out == padded + (cells[i] + comma)
    requires Col(padded) == CellStart(cells, i, Widths(cells, |cells|, cols), numeric, inner)
    ensures CellPlaced(out, |padded|, cells, i, cols, numeric, inner)
  {
    assert out[..|padded|] == padded && out[|padded|..|padded| + |cells[i]|] == cells[i];
  }

  lemma SpacesOneLine(n: nat)
    ensures OneLine(Spaces(n))
  {
  }

  lemma PaddingContent(before: seq<Piece>, lead: seq<Piece>, pad: nat, right: nat, indent: nat)
    requires lead == NewLine(indent) || lead == []
    ensures Strip(before + lead + Spaces(pad) + Spaces(right)) == Strip(before)
  {
    StripConcat(before + lead + Spaces(pad), Spaces(right));
    StripConcat(before + lead, Spaces(pad));
    StripConcat(before, lead);
    StripSpaces(pad);
    StripSpaces(right);
    StripNewLine(indent);
  }

  lemma OpenContent(out: seq<Piece>)
    ensures Strip(out + [Text('[')]) == Strip(out) + "["
  {
    StripConcat(out, [Text('[')]);
    StripBracket(Text('['));
  }

  lemma JoinEnds(cells: seq<seq<Piece>>, text: string)
    ensures text + JoinFrom(cells, |cells|) == text
  {
  }

  /** Cell i stands at index h of the output, on one line, within the grid, in its column. */
  ghost predicate CellPlaced(out: seq<Piece>, h: nat, cells: seq<seq<Piece>>, i: nat, cols: nat, numeric: bool, inner: nat)
    requires i < |cells| && cols >= 1
  {
    && h + |cells[i]| <= |out| && out[h..h + |cells[i]|] == cells[i]
    && Col(out[..h]) == CellStart(cells, i, Widths(cells, |cells|, cols), numeric, inner)
  }

  lemma PlacedStays(a: seq<Piece>, b: seq<Piece>, h: nat, cells: seq<seq<Piece>>, i: nat, cols: nat, numeric: bool, inner: nat)
    requires i < |cells| && cols >= 1 && a <= b && CellPlaced(a, h, cells, i, cols, numeric, inner)
    ensures CellPlaced(b, h, cells, i, cols, numeric, inner)
  {
    assert b[..h] == a[..h];
    assert b[h..h + |cells[i]|] == a[h..h + |cells[i]|];
  }

  lemma StripTail(out: seq<Piece>, indent: nat)
    ensures Strip(out + NewLine(indent) + [Text(']')]) == Strip(out) + "]"
  {
    StripConcat(out + NewLine(indent), [Text(']')]);
    StripConcat(out, NewLine(indent));
    StripNewLine(indent);
    StripBracket(Text(']'));
    assert Strip(out) + "" == Strip(out);
  }

  // ---- no trailing spaces --------------------------------------------------------------------

  /** The last piece is not layout. */
  ghost predicate EndsInText(ps: seq<Piece>) { ps != [] && ps[|ps| - 1].Text? }

  /** No line break after index `from` follows layout. */
  ghost predicate Tidy(out: seq<Piece>, from: nat) {
    forall k :: from < k < |out| && out[k].c == '\n' ==> out[k - 1].Text?
  }

  /** What b adds to a has no line break but, perhaps, as its first piece. */
  ghost predicate BreaksFirst(a: seq<Piece>, b: seq<Piece>) {
    a <= b && forall k :: |a| < k < |b| ==> b[k].c != '\n'
  }

  lemma OneBreak(before: seq<Piece>, lead: seq<Piece>, pad: nat, right: nat, cell: seq<Piece>, comma: seq<Piece>, indent: nat)
    requires (lead == [] || lead == NewLine(indent)) && OneLine(cell) && (comma == [] || comma == [Text(',')])
    ensures var out := before + lead + Spaces(pad) + Spaces(right) + (cell + comma);
            BreaksFirst(before, out) && (EndsInText(cell) ==> EndsInText(out))
  {
    var out := before + lead + Spaces(pad) + Spaces(right) + (cell + comma);
    var n := |before + lead + Spaces(pad) + Spaces(right)|;
    SpacesOneLine(pad);
    SpacesOneLine(right);
    SpacesOneLine(INDENT_WIDTH * indent);
    forall k | |before| < k < |out| ensures out[k].c != '\n' {
      if k < |before + lead| {
        assert out[k] == lead[k - |before|];
      } else if k < n {
        assert out[k] == (Spaces(pad) + Spaces(right))[k - |before + lead|];
      } else {
        assert out[k] == (cell + comma)[k - n];
      }
    }
    if EndsInText(cell) {
      assert out[|out| - 1] == (cell + comma)[|cell + comma| - 1];
    }
  }

  lemma TidyStays(a: seq<Piece>, b: seq<Piece>, from: nat)
    requires Tidy(a, from) && EndsInText(a) && BreaksFirst(a, b)
    ensures Tidy(b, from)
  {
    forall k | from < k < |b| && b[k].c == '\n' ensures b[k - 1].Text? {
      assert k <= |a|;
      assert b[k - 1] == a[k - 1];
      if k < |a| {
        assert a[k] == b[k];
      }
    }
  }

  lemma TidyEnds(out: seq<Piece>, indent: nat, from: nat)
    requires Tidy(out, from) && EndsInText(out)
    ensures Tidy(out + NewLine(indent) + [Text(']')], from)
  {
    var b := out + NewLine(indent) + [Text(']')];
    SpacesOneLine(INDENT_WIDTH * indent);
    forall k | |out| < k < |b| ensures b[k].c != '\n' {
      if k < |b| - 1 {
        assert b[k] == NewLine(indent)[k - |out|];
      }
    }
    TidyStays(out, b, from);
  }

  /** The line before every break, but for the one after the opening bracket at `from`, ends within the width. */
  ghost predicate RowsWithin(out: seq<Piece>, from: nat, width: int) {
    forall k :: from + 1 < k < |out| && out[k].c == '\n' ==> Col(out[..k]) <= width
  }

  lemma FitsWithin(out: seq<Piece>, from: nat, cells: seq<seq<Piece>>, cols: nat, inner: nat, width: nat)
    requires cols >= 1 && GridFits(cells, cols, inner, width)
    requires RowsWithin(out, from, GridEnd(Widths(cells, |cells|, cols), inner))
    ensures RowsWithin(out, from, width)
  {
  }

  lemma RowsStay(a: seq<Piece>, b: seq<Piece>, from: nat, width: int)
    requires RowsWithin(a, from, width) && BreaksFirst(a, b) && (|a| > from + 1 ==> Col(a) <= width)
    ensures RowsWithin(b, from, width)
  {
    hide Col;
    forall k | from + 1 < k < |b| && b[k].c == '\n' ensures Col(b[..k]) <= width {
      assert k <= |a|;
      assert b[..k] == a[..k];
      if k < |a| {
        assert a[k] == b[k];
      } else {
        assert a[..k] == a;
      }
    }
  }

  lemma RowsEnd(out: seq<Piece>, indent: nat, from: nat, width: int)
    requires RowsWithin(out, from, width) && Col(out) <= width
    ensures RowsWithin(out + NewLine(indent) + [Text(']')], from, width)
  {
    hide Col;
    var b := out + NewLine(indent) + [Text(']')];
    SpacesOneLine(INDENT_WIDTH * indent);
    forall k | |out| < k < |b| ensures b[k].c != '\n' {
      if k < |b| - 1 {
        assert b[k] == NewLine(indent)[k - |out|];
      }
    }
    RowsStay(out, b, from, width);
  }

  /** The grid so far: i cells at their places, the rows within its width, and no line ending in spaces. */
  ghost predicate Ruled(out: seq<Piece>, from: nat, cells: seq<seq<Piece>>, i: nat, at: seq<nat>, cols: nat, numeric: bool, inner: nat)
    requires cols >= 1 && i <= |cells|
  {
    && |at| == i && (i == 0 ==> |out| == from + 1)
    && (forall j :: 0 <= j < i ==> CellPlaced(out, at[j], cells, j, cols, numeric, inner))
    && RowsWithin(out, from, GridEnd(Widths(cells, |cells|, cols), inner))
    && ((forall j :: 0 <= j < |cells| ==> EndsInText(cells[j])) ==> Tidy(out, from) && EndsInText(out))
  }

  lemma RuledStart(out: seq<Piece>, cells: seq<seq<Piece>>, cols: nat, numeric: bool, inner: nat)
    requires cols >= 1
    ensures Ruled(out + [Text('[')], |out|, cells, 0, [], cols, numeric, inner)
  {
    hide Widths, GridEnd;
  }

  lemma RuledNext(a: seq<Piece>, b: seq<Piece>, from: nat, cells: seq<seq<Piece>>, i: nat, at: seq<nat>, here: nat,
                  cols: nat, numeric: bool, inner: nat)
    requires cols >= 1 && i < |cells| && Ruled(a, from, cells, i, at, cols, numeric, inner) && BreaksFirst(a, b)
    requires i > 0 ==> Col(a) == CellEnd(cells, i - 1, Widths(cells, |cells|, cols), numeric, inner)
    requires CellPlaced(b, here, cells, i, cols, numeric, inner) && (EndsInText(cells[i]) ==> EndsInText(b))
    ensures Ruled(b, from, cells, i + 1, at + [here], cols, numeric, inner)
  {
    hide CellPlaced, Col, Tidy, EndsInText, RowsWithin, GridEnd, CellEnd, Widths;
    assert a <= b by { BreaksExtend(a, b); }
    forall j | 0 <= j < i ensures CellPlaced(b, at[j], cells, j, cols, numeric, inner) {
      PlacedStays(a, b, at[j], cells, j, cols, numeric, inner);
    }
    hide BreaksFirst;
    if i > 0 {
      CellsInColumns(cells, i - 1, cols, numeric, inner);
    }
    RowsStay(a, b, from, GridEnd(Widths(cells, |cells|, cols), inner));
    if forall j :: 0 <= j < |cells| ==> EndsInText(cells[j]) {
      TidyStays(a, b, from);
    }
  }

  lemma BreaksExtend(a: seq<Piece>, b: seq<Piece>)
    requires BreaksFirst(a, b)
    ensures a <= b
  {
  }

  lemma RuledEnd(out: seq<Piece>, from: nat, cells: seq<seq<Piece>>, at: seq<nat>, cols: nat, numeric: bool, inner: nat, indent: nat)
    requires cols >= 1 && cells != [] && Ruled(out, from, cells, |cells|, at, cols, numeric, inner)
    requires Col(out) == CellEnd(cells, |cells| - 1, Widths(cells, |cells|, cols), numeric, inner)
    ensures var b := out + NewLine(indent) + [Text(']')];
            && |at| == |cells|
            && (forall j :: 0 <= j < |cells| ==> CellPlaced(b, at[j], cells, j, cols, numeric, inner))
            && RowsWithin(b, from, GridEnd(Widths(cells, |cells|, cols), inner))
            && ((forall j :: 0 <= j < |cells| ==> EndsInText(cells[j])) ==> Tidy(b, from))
  {
    hide CellPlaced, Col, Tidy, EndsInText, RowsWithin, GridEnd, CellEnd, Widths, NewLine;
    var b := out + NewLine(indent) + [Text(']')];
    CellsInColumns(cells, |cells| - 1, cols, numeric, inner);
    RowsEnd(out, indent, from, GridEnd(Widths(cells, |cells|, cols), inner));
    if forall j :: 0 <= j < |cells| ==> EndsInText(cells[j]) {
      TidyEnds(out, indent, from);
    }
    forall j | 0 <= j < |cells| ensures CellPlaced(b, at[j], cells, j, cols, numeric, inner) {
      PlacedStays(out, b, at[j], cells, j, cols, numeric, inner);
    }
  }

  /** No scalar among the entries is written as nothing. */
  predicate NoneEmpty(items: Items) {
    items.Cons? ==> (items.value.Atom? ==> items.value.text != "") && NoneEmpty(items.rest)
  }

  lemma CompactEndsInText(d: Doc)
    requires d.Atom? ==> d.text != ""
    ensures EndsInText(Compact(d))
  {
  }

  lemma {:induction false} CellsEndInText(items: Items)
    requires NoneEmpty(items)
    ensures forall i :: 0 <= i < |Cells(items)| ==> EndsInText(Cells(items)[i])
    decreases items
  {
    hide Compact, EndsInText;
    if items.Cons? {
      CompactEndsInText(items.value);
      CellsEndInText(items.rest);
    }
  }

  /** What is written from `from` on lays the cells out in the largest number of columns that fits, at least two: each
      cell's text stands at its place in its column, no row passes the width, and no line ends in spaces. */
  ghost predicate IsGrid(out: seq<Piece>, from: nat, cells: seq<seq<Piece>>, cols: nat, at: seq<nat>, inner: nat, width: nat) {
    && MIN_GRID_COLUMNS <= cols <= |cells| && GridFits(cells, cols, inner, width)
    && (forall c :: cols < c <= |cells| ==> !GridFits(cells, c, inner, width))
    && |at| == |cells|
    && (forall i :: 0 <= i < |at| ==> CellPlaced(out, at[i], cells, i, cols, AllNumeric(cells), inner))
    && RowsWithin(out, from, width)
    && ((forall i :: 0 <= i < |cells| ==> EndsInText(cells[i])) ==> Tidy(out, from))
  }

  ghost predicate StandsAsGrid(out: seq<Piece>, from: nat, cells: seq<seq<Piece>>, inner: nat, width: nat) {
    exists cols, at :: IsGrid(out, from, cells, cols, at, inner, width)
  }

  /** In a grid, cells of a column start or right-align at the same place of their lines, and between neighbours on a
      row there are the comma and at least one space. */
  lemma GridRows(out: seq<Piece>, from: nat, cells: seq<seq<Piece>>, cols: nat, at: seq<nat>, inner: nat, width: nat, i: nat, j: nat)
    requires IsGrid(out, from, cells, cols, at, inner, width) && i < |cells| && j < |cells|
    ensures at[i] <= |out| && at[j] <= |out|
    ensures i % cols == j % cols ==>
              if AllNumeric(cells)
              then Col(out[..at[i]]) + |cells[i]| == Col(out[..at[j]]) + |cells[j]|
              else Col(out[..at[i]]) == Col(out[..at[j]])
    ensures i % cols != 0 ==> i >= 1 && at[i - 1] <= |out| && Col(out[..at[i - 1]]) + |cells[i - 1]| + 2 <= Col(out[..at[i]])
  {
    hide Col, RowsWithin, Tidy, EndsInText, NumericCell, GridFits;
    CellsInColumns(cells, i, cols, AllNumeric(cells), inner);
    assert CellPlaced(out, at[i], cells, i, cols, AllNumeric(cells), inner);
    assert CellPlaced(out, at[j], cells, j, cols, AllNumeric(cells), inner);
    if i % cols != 0 {
      assert CellPlaced(out, at[i - 1], cells, i - 1, cols, AllNumeric(cells), inner);
    }
  }
}
