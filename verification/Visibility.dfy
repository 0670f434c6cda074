/** Type resolution: the symbol table with its duplicate check, the files whose symbols a file may
  * use, and the scope-by-scope lookup of a type name. */
module Visibility {
  import opened Basics

  datatype ImportKind = Standard | Public | Weak | OptionOnly

  // A path is canonical already.
  datatype Import = Import(path: string, kind: ImportKind)

  datatype Message = Message(fqn: string, nested: seq<Message>, enums: seq<string>)

  datatype File = File(imports: seq<Import>, messages: seq<Message>, enums: seq<string>)

  datatype SymbolKind = MessageSymbol | EnumSymbol

  datatype Symbol = Symbol(kind: SymbolKind, file: nat)

  // A definition of a type name, in the order the files are walked.
  datatype Definition = Definition(fqn: string, symbol: Symbol)

  // ---------------------------------------------------------------- what the definitions are

  function MessageDefinitions(m: Message, file: nat): seq<Definition>
    decreases m, 1
  {
    [Definition(m.fqn, Symbol(MessageSymbol, file))]
    + NestedDefinitions(m, |m.nested|, file)
    + EnumDefinitions(m.enums, file)
  }

  function NestedDefinitions(m: Message, count: nat, file: nat): seq<Definition>
    requires count <= |m.nested|
    decreases m, 0, count
  {
    if count == 0 then []
    else NestedDefinitions(m, count - 1, file) + MessageDefinitions(m.nested[count - 1], file)
  }

  function EnumDefinitions(enums: seq<string>, file: nat): seq<Definition>
  {
    seq(|enums|, i requires 0 <= i < |enums| => Definition(enums[i], Symbol(EnumSymbol, file)))
  }

  function TopDefinitions(messages: seq<Message>, file: nat): seq<Definition>
  {
    if messages == [] then []
    else TopDefinitions(messages[..|messages| - 1], file) + MessageDefinitions(messages[|messages| - 1], file)
  }

  function AllDefinitions(files: seq<File>): seq<Definition>
  {
    if files == [] then []
    else
      var last := |files| - 1;
      AllDefinitions(files[..last]) + TopDefinitions(files[last].messages, last) + EnumDefinitions(files[last].enums, last)
  }

  ghost predicate Distinct(ds: seq<Definition>)
  {
    forall i, j :: 0 <= i < j < |ds| ==> ds[i].fqn != ds[j].fqn
  }

  /** The table holds the definitions and nothing else. */
  ghost predicate IsTable(symbols: map<string, Symbol>, ds: seq<Definition>)
  {
    && (forall d :: d in ds ==> d.fqn in symbols && symbols[d.fqn] == d.symbol)
    && (forall n :: n in symbols ==> Definition(n, symbols[n]) in ds)
  }

  /** Names are distinct and tabulated, which is the state after each definition recorded. */
  ghost predicate Holds(symbols: map<string, Symbol>, ds: seq<Definition>)
  {
    Distinct(ds) && IsTable(symbols, ds)
  }

  lemma HoldsGrows(symbols: map<string, Symbol>, ds: seq<Definition>, d: Definition)
    requires Holds(symbols, ds) && d.fqn !in symbols
    ensures Holds(symbols[d.fqn := d.symbol], ds + [d])
  {
    var s := symbols[d.fqn := d.symbol];
    forall e | e in ds + [d] ensures e.fqn in s && s[e.fqn] == e.symbol {
      if e in ds {
        assert e.fqn in symbols;
      }
    }
    forall i, j | 0 <= i < j < |ds + [d]| ensures (ds + [d])[i].fqn != (ds + [d])[j].fqn {
      if j == |ds| {
        assert ds[i] in ds;
      }
    }
  }

  /** A name already in the table makes the definitions clash. */
  lemma ClashStarts(symbols: map<string, Symbol>, ds: seq<Definition>, d: Definition)
    requires Holds(symbols, ds) && d.fqn in symbols
    ensures !Distinct(ds + [d])
  {
    var e := Definition(d.fqn, symbols[d.fqn]);
    var i :| 0 <= i < |ds| && ds[i] == e;
    var all := ds + [d];
    assert all[i].fqn == all[|ds|].fqn;
  }

  /** Definitions that clash still do when more follow. */
  lemma ClashStays(ds: seq<Definition>, rest: seq<Definition>)
    requires !Distinct(ds)
    ensures !Distinct(ds + rest)
  {
    var i, j :| 0 <= i < j < |ds| && ds[i].fqn == ds[j].fqn;
    assert (ds + rest)[i].fqn == (ds + rest)[j].fqn;
  }

  class SymbolTable {
    var symbols: map<string, Symbol>

    constructor ()
      ensures symbols == map[]
    {
      symbols := map[];
    }

    /** Adds one definition to the table; false, with the table as it was, when the name is taken. */
    method Record(d: Definition, ghost before: seq<Definition>) returns (ok: bool)
      requires Holds(symbols, before)
      modifies this
      ensures ok <==> d.fqn !in old(symbols)
      ensures ok ==> Holds(symbols, before + [d])
      ensures !ok ==> symbols == old(symbols) && !Distinct(before + [d])
    {
      if d.fqn in symbols {
        ClashStarts(symbols, before, d);
        return false;
      }
      HoldsGrows(symbols, before, d);
      symbols := symbols[d.fqn := d.symbol];
      ok := true;
    }

    /** Records a message, its nested messages and then its enums. */
    method CollectMessage(m: Message, file: nat, ghost before: seq<Definition>) returns (ok: bool)
      requires Holds(symbols, before)
      modifies this
      ensures ok ==> Holds(symbols, before + MessageDefinitions(m, file))
      ensures !ok ==> !Distinct(before + MessageDefinitions(m, file))
      decreases m, 1
    {
      hide Holds, Distinct;
      ghost var own := [Definition(m.fqn, Symbol(MessageSymbol, file))];
      ghost var nested := NestedDefinitions(m, |m.nested|, file);
      ghost var enums := EnumDefinitions(m.enums, file);
      assert before + MessageDefinitions(m, file) == before + own + nested + enums;
      ok := Record(Definition(m.fqn, Symbol(MessageSymbol, file)), before);
      if !ok {
        ClashStays(before + own, nested);
        ClashStays(before + own + nested, enums);
        return;
      }
      ok := CollectNested(m, file, before + own);
      if !ok {
        ClashStays(before + own + nested, enums);
        return;
      }
      ok := CollectEnums(m.enums, file, before + own + nested);
    }

    method CollectNested(m: Message, file: nat, ghost before: seq<Definition>) returns (ok: bool)
      requires Holds(symbols, before)
      modifies this
      ensures ok ==> Holds(symbols, before + NestedDefinitions(m, |m.nested|, file))
      ensures !ok ==> !Distinct(before + NestedDefinitions(m, |m.nested|, file))
      decreases m, 0
    {
      hide Holds, Distinct, MessageDefinitions;
      var i := 0;
      assert before + NestedDefinitions(m, 0, file) == before;
      while i < |m.nested|
        invariant 0 <= i <= |m.nested|
        invariant Holds(symbols, before + NestedDefinitions(m, i, file))
      {
        ghost var done := NestedDefinitions(m, i, file);
        assert before + NestedDefinitions(m, i + 1, file) == before + done + MessageDefinitions(m.nested[i], file);
        ok := CollectMessage(m.nested[i], file, before + done);
        if !ok {
          NestedClash(m, i + 1, file, before);
          return;
        }
        i := i + 1;
      }
      ok := true;
    }

    /** Records the enums of one scope. */
    method CollectEnums(enums: seq<string>, file: nat, ghost before: seq<Definition>) returns (ok: bool)
      requires Holds(symbols, before)
      modifies this
      ensures ok ==> Holds(symbols, before + EnumDefinitions(enums, file))
      ensures !ok ==> !Distinct(before + EnumDefinitions(enums, file))
    {
      hide Holds, Distinct;
      ghost var all := EnumDefinitions(enums, file);
      var i := 0;
      assert before + all[..0] == before;
      while i < |enums|
        invariant 0 <= i <= |enums|
        invariant Holds(symbols, before + all[..i])
      {
        assert before + all[..i + 1] == before + all[..i] + [all[i]];
        ok := Record(Definition(enums[i], Symbol(EnumSymbol, file)), before + all[..i]);
        if !ok {
          ClashStays(before + all[..i + 1], all[i + 1..]);
          assert before + all == before + all[..i + 1] + all[i + 1..];
          return;
        }
        i := i + 1;
      }
      assert all[..|enums|] == all;
      ok := true;
    }

    method CollectTop(messages: seq<Message>, file: nat, ghost before: seq<Definition>) returns (ok: bool)
      requires Holds(symbols, before)
      modifies this
      ensures ok ==> Holds(symbols, before + TopDefinitions(messages, file))
      ensures !ok ==> !Distinct(before + TopDefinitions(messages, file))
    {
      hide Holds, Distinct, MessageDefinitions;
      var i := 0;
      assert before + TopDefinitions(messages[..0], file) == before;
      while i < |messages|
        invariant 0 <= i <= |messages|
        invariant Holds(symbols, before + TopDefinitions(messages[..i], file))
      {
        ghost var done := TopDefinitions(messages[..i], file);
        assert messages[..i + 1][..i] == messages[..i];
        assert before + TopDefinitions(messages[..i + 1], file) == before + done + MessageDefinitions(messages[i], file);
        ok := CollectMessage(messages[i], file, before + done);
        if !ok {
          TopClash(messages, i + 1, file, before);
          return;
        }
        i := i + 1;
      }
      assert messages[..|messages|] == messages;
      ok := true;
    }

    /** Records every type of every file: succeeds exactly when no name is defined twice, and then
      * the table is exactly the definitions. */
    method CollectSymbols(files: seq<File>) returns (ok: bool)
      requires symbols == map[]
      modifies this
      ensures ok <==> Distinct(AllDefinitions(files))
      ensures ok ==> IsTable(symbols, AllDefinitions(files))
    {
      hide Distinct, IsTable, TopDefinitions, EnumDefinitions;
      assert Holds(symbols, []) by { NothingHolds(); }
      var i := 0;
      while i < |files|
        invariant 0 <= i <= |files|
        invariant Holds(symbols, AllDefinitions(files[..i]))
      {
        ghost var done := AllDefinitions(files[..i]);
        ghost var top := TopDefinitions(files[i].messages, i);
        assert files[..i + 1][..i] == files[..i];
        assert AllDefinitions(files[..i + 1]) == done + top + EnumDefinitions(files[i].enums, i);
        ok := CollectTop(files[i].messages, i, done);
        if !ok {
          ClashStays(done + top, EnumDefinitions(files[i].enums, i));
        } else {
          ok := CollectEnums(files[i].enums, i, done + top);
        }
        if !ok {
          AllClash(files, i + 1);
          return;
        }
        i := i + 1;
      }
      assert files[..|files|] == files;
      ok := true;
    }
  }

  lemma NothingHolds()
    ensures Holds(map[], [])
  {
  }

  lemma {:induction false} NestedClash(m: Message, k: nat, file: nat, before: seq<Definition>)
    requires k <= |m.nested| && !Distinct(before + NestedDefinitions(m, k, file))
    ensures !Distinct(before + NestedDefinitions(m, |m.nested|, file))
    decreases |m.nested| - k
  {
    hide Distinct, MessageDefinitions;
    if k < |m.nested| {
      var next := MessageDefinitions(m.nested[k], file);
      ClashStays(before + NestedDefinitions(m, k, file), next);
      assert before + NestedDefinitions(m, k + 1, file) == before + NestedDefinitions(m, k, file) + next;
      NestedClash(m, k + 1, file, before);
    }
  }

  lemma {:induction false} TopClash(ms: seq<Message>, k: nat, file: nat, before: seq<Definition>)
    requires k <= |ms| && !Distinct(before + TopDefinitions(ms[..k], file))
    ensures !Distinct(before + TopDefinitions(ms, file))
    decreases |ms| - k
  {
    hide Distinct, MessageDefinitions;
    if k < |ms| {
      var next := MessageDefinitions(ms[k], file);
      ClashStays(before + TopDefinitions(ms[..k], file), next);
      assert ms[..k + 1][..k] == ms[..k];
      assert before + TopDefinitions(ms[..k + 1], file) == before + TopDefinitions(ms[..k], file) + next;
      TopClash(ms, k + 1, file, before);
    } else {
      assert ms[..k] == ms;
    }
  }

  lemma {:induction false} AllClash(files: seq<File>, k: nat)
    requires k <= |files| && !Distinct(AllDefinitions(files[..k]))
    ensures !Distinct(AllDefinitions(files))
    decreases |files| - k
  {
    hide Distinct, TopDefinitions, EnumDefinitions;
    if k < |files| {
      var top, enums := TopDefinitions(files[k].messages, k), EnumDefinitions(files[k].enums, k);
      ClashStays(AllDefinitions(files[..k]), top);
      ClashStays(AllDefinitions(files[..k]) + top, enums);
      assert files[..k + 1][..k] == files[..k];
      AllClash(files, k + 1);
    } else {
      assert files[..k] == files;
    }
  }

  // ---------------------------------------------------------------- visible files

  datatype FileSet = FileSet(files: seq<File>, index: map<string, nat>)

  ghost predicate Indexed(fs: FileSet)
  {
    forall p :: p in fs.index ==> fs.index[p] < |fs.files|
  }

  /** File `a` has an import of one of these kinds that the set resolves to file `b`. */
  ghost predicate Imports(fs: FileSet, a: nat, b: nat, kinds: set<ImportKind>)
  {
    && a < |fs.files|
    && exists i: Import :: i in fs.files[a].imports && i.kind in kinds && i.path in fs.index && fs.index[i.path] == b
  }

  ghost predicate PublicStep(fs: FileSet, p: seq<nat>, i: int)
    requires 0 < i < |p|
  {
    Imports(fs, p[i - 1], p[i], {Public})
  }

  ghost predicate PublicPath(fs: FileSet, p: seq<nat>)
  {
    |p| > 0 && forall i :: 0 < i < |p| ==> PublicStep(fs, p, i)
  }

  /** Reached from a non-option import of `f` over public imports only. */
  ghost predicate Via(fs: FileSet, f: nat, p: seq<nat>, v: nat)
  {
    PublicPath(fs, p) && p[|p| - 1] == v && Imports(fs, f, p[0], {Standard, Public, Weak})
  }

  /** What `f` may see: itself, its direct imports that are not option imports, and whatever those
    * pass on by public imports. */
  ghost predicate Sees(fs: FileSet, f: nat, v: nat)
  {
    v == f || exists p :: Via(fs, f, p, v)
  }

  lemma SeesDirect(fs: FileSet, f: nat, v: nat)
    requires Imports(fs, f, v, {Standard, Public, Weak})
    ensures Sees(fs, f, v)
  {
    assert Via(fs, f, [v], v);
  }

  lemma SeesPublic(fs: FileSet, f: nat, v: nat, w: nat)
    requires Sees(fs, f, v) && Imports(fs, v, w, {Public})
    ensures Sees(fs, f, w)
  {
    if v == f {
      SeesDirect(fs, f, w);
    } else {
      var p :| Via(fs, f, p, v);
      var q := p + [w];
      forall i | 0 < i < |q| ensures PublicStep(fs, q, i) {
        if i < |p| {
          assert PublicStep(fs, p, i);
        }
      }
      assert Via(fs, f, q, w);
    }
  }

  /** Every public import of `x` is in the set. */
  ghost predicate Passed(fs: FileSet, x: nat, visible: set<nat>)
  {
    forall w :: Imports(fs, x, w, {Public}) ==> w in visible
  }

  /** A set that holds the direct imports and passes on every public import holds all that is seen. */
  lemma {:induction false} ClosedSetIsAll(fs: FileSet, f: nat, visible: set<nat>, p: seq<nat>, v: nat)
    requires Via(fs, f, p, v)
    requires forall w :: Imports(fs, f, w, {Standard, Public, Weak}) ==> w in visible
    requires forall x :: x in visible ==> Passed(fs, x, visible)
    ensures v in visible
    decreases |p|
  {
    if |p| > 1 {
      var q := p[..|p| - 1];
      forall i | 0 < i < |q| ensures PublicStep(fs, q, i) {
        assert PublicStep(fs, p, i);
      }
      ClosedSetIsAll(fs, f, visible, q, q[|q| - 1]);
      assert PublicStep(fs, p, |p| - 1);
    }
  }

  ghost predicate Below(s: set<nat>, n: nat)
  {
    forall x :: x in s ==> x < n
  }

  lemma {:induction false} BelowIsSmall(s: set<nat>, n: nat)
    requires Below(s, n)
    ensures |s| <= n
  {
    if n == 0 {
      assert s == {};
    } else {
      BelowIsSmall(s - {n - 1}, n - 1);
      assert |s| <= |s - {n - 1}| + 1;
    }
  }

  /** One file's public imports join the set, and the new ones join the worklist. */
  method PushPublic(fs: FileSet, current: nat, visible0: set<nat>, stack0: seq<nat>)
    returns (visible: set<nat>, stack: seq<nat>)
    requires Indexed(fs) && current < |fs.files| && Below(visible0, |fs.files|)
    ensures Below(visible, |fs.files|) && visible0 <= visible && stack0 <= stack
    ensures Passed(fs, current, visible)
    ensures forall x :: x in visible <==> x in visible0 || x in stack[|stack0|..]
    ensures forall x :: x in stack[|stack0|..] ==> Imports(fs, current, x, {Public})
    ensures visible == visible0 ==> stack == stack0
  {
    visible, stack := visible0, stack0;
    var imports := fs.files[current].imports;
    var i := 0;
    while i < |imports|
      invariant 0 <= i <= |imports|
      invariant Below(visible, |fs.files|) && visible0 <= visible && stack0 <= stack
      invariant forall k :: 0 <= k < i && imports[k].kind == Public && imports[k].path in fs.index ==>
                  fs.index[imports[k].path] in visible
      invariant forall x :: x in visible <==> x in visible0 || x in stack[|stack0|..]
      invariant forall x :: x in stack[|stack0|..] ==> Imports(fs, current, x, {Public})
      invariant visible == visible0 ==> stack == stack0
    {
      if imports[i].kind == Public && imports[i].path in fs.index {
        var target := fs.index[imports[i].path];
        assert imports[i] in imports;
        assert Imports(fs, current, target, {Public});
        if target !in visible {
          visible := visible + {target};
          ghost var was := stack;
          stack := stack + [target];
          assert stack[|stack0|..] == was[|stack0|..] + [target];
        }
      }
      i := i + 1;
    }
    forall w | Imports(fs, current, w, {Public}) ensures w in visible {
      var im: Import :| im in imports && im.kind == Public && im.path in fs.index && fs.index[im.path] == w;
    }
  }

  /** Adds what `start` passes on by public imports, with a worklist that skips what the set holds. */
  method AddPublicClosure(fs: FileSet, f: nat, start: nat, visible0: set<nat>) returns (visible: set<nat>)
    requires Indexed(fs) && Below(visible0, |fs.files|) && start in visible0
    requires forall x :: x in visible0 ==> Sees(fs, f, x)
    ensures Below(visible, |fs.files|) && visible0 <= visible
    ensures forall x :: x in visible ==> Sees(fs, f, x)
    ensures forall x :: x in visible && (x !in visible0 || x == start) ==> Passed(fs, x, visible)
  {
    visible := visible0;
    var stack := [start];
    while stack != []
      invariant Below(visible, |fs.files|) && visible0 <= visible
      invariant forall x :: x in stack ==> x in visible
      invariant forall x :: x in visible ==> Sees(fs, f, x)
      invariant forall x :: x in visible && (x !in visible0 || x == start) && x !in stack ==> Passed(fs, x, visible)
      decreases |fs.files| - |visible|, |stack|
    {
      var current := stack[|stack| - 1];
      assert current in visible;
      ghost var todo, seen := stack, visible;
      stack := stack[..|stack| - 1];
      assert todo == stack + [current];
      ghost var kept := stack;
      visible, stack := PushPublic(fs, current, visible, stack);
      assert stack == kept + stack[|kept|..];
      BelowIsSmall(visible, |fs.files|);
      SubsetIsSmaller(seen, visible);
      forall x | x in visible ensures Sees(fs, f, x) {
        if x !in seen {
          SeesPublic(fs, f, current, x);
        }
      }
      forall x | x in visible && (x !in visible0 || x == start) && x !in stack ensures Passed(fs, x, visible) {
        if x != current {
          assert x in seen && x !in todo;
          assert Passed(fs, x, seen);
        }
      }
    }
  }

  /** The files visible to `f` are exactly what it sees, though the worklists share one set. */
  method VisibleFiles(fs: FileSet, f: nat) returns (visible: set<nat>)
    requires Indexed(fs) && f < |fs.files|
    ensures forall v :: v in visible <==> Sees(fs, f, v)
  {
    visible := {f};
    var imports := fs.files[f].imports;
    var i := 0;
    while i < |imports|
      invariant 0 <= i <= |imports|
      invariant Below(visible, |fs.files|) && f in visible
      invariant forall x :: x in visible ==> Sees(fs, f, x)
      invariant forall x :: x in visible ==> x == f || Passed(fs, x, visible)
      invariant forall k :: 0 <= k < i && imports[k].kind != OptionOnly && imports[k].path in fs.index ==>
                  fs.index[imports[k].path] in visible
    {
      if imports[i].kind != OptionOnly && imports[i].path in fs.index {
        var target := fs.index[imports[i].path];
        assert imports[i] in imports;
        assert Imports(fs, f, target, {Standard, Public, Weak});
        SeesDirect(fs, f, target);
        ghost var seen := visible;
        visible := visible + {target};
        visible := AddPublicClosure(fs, f, target, visible);
        forall x | x in visible ensures x == f || Passed(fs, x, visible) {
          if x in seen && x != f {
            assert Passed(fs, x, seen);
          }
        }
      }
      i := i + 1;
    }
    DirectImportsAreAll(fs, f, visible);
  }

  lemma DirectImportsAreAll(fs: FileSet, f: nat, visible: set<nat>)
    requires f < |fs.files| && f in visible
    requires forall i :: i in fs.files[f].imports && i.kind != OptionOnly && i.path in fs.index ==> fs.index[i.path] in visible
    requires forall x :: x in visible ==> x == f || Passed(fs, x, visible)
    ensures forall v :: Sees(fs, f, v) ==> v in visible
  {
    assert forall w :: Imports(fs, f, w, {Standard, Public, Weak}) ==> w in visible;
    assert forall w :: Imports(fs, f, w, {Public}) ==> Imports(fs, f, w, {Standard, Public, Weak});
    assert Passed(fs, f, visible);
    forall v | Sees(fs, f, v) ensures v in visible {
      if v != f {
        var p :| Via(fs, f, p, v);
        ClosedSetIsAll(fs, f, visible, p, v);
      }
    }
  }

  // ---------------------------------------------------------------- name lookup

  /** The scopes around a scope: itself, what is left of any of its dots, and the root. */
  ghost predicate Encloses(outer: string, scope: string)
  {
    outer <= scope && (|outer| == |scope| || outer == "" || scope[|outer|] == '.')
  }

  /** Strips the last dotted component; the result is the next scope outward, with none between. The root is its own
    * parent. */
  method ParentScope(scope: string) returns (parent: string)
    ensures Encloses(parent, scope) && (scope != "" ==> |parent| < |scope|)
    ensures forall c :: Encloses(c, scope) && |c| > |parent| ==> c == scope
    ensures forall c :: Encloses(c, parent) ==> Encloses(c, scope)
    ensures forall c :: Encloses(c, scope) && c != scope ==> Encloses(c, parent)
  {
    var i := |scope|;
    while i > 0 && scope[i - 1] != '.'
      invariant 0 <= i <= |scope|
      invariant forall k :: i <= k < |scope| ==> scope[k] != '.'
    {
      i := i - 1;
    }
    parent := if i == 0 then "" else scope[..i - 1];
    forall c | Encloses(c, scope) && c != scope ensures |c| <= |parent| && Encloses(c, parent) {
      if c != "" {
        assert scope[|c|] == '.';
        assert c == scope[..|c|];
        assert |c| <= |parent|;
        assert c == parent[..|c|];
        if |c| < |parent| {
          assert parent[|c|] == scope[|c|];
        }
      }
    }
    forall c | Encloses(c, parent) ensures Encloses(c, scope) {
      assert c == parent[..|c|] == scope[..|c|];
      if |c| < |parent| {
        assert parent[|c|] == scope[|c|];
      }
    }
  }

  predicate IsVisible(symbols: map<string, Symbol>, visible: set<nat>, fqn: string)
  {
    fqn in symbols && symbols[fqn].file in visible
  }

  predicate IsAbsolute(name: string)
  {
    name != "" && name[0] == '.'
  }

  function Candidate(scope: string, name: string): string
  {
    scope + "." + name
  }

  /** `scope` encloses, has a visible match, and no scope further in does. */
  ghost predicate Innermost(symbols: map<string, Symbol>, visible: set<nat>, name: string, from: string, scope: string)
  {
    && Encloses(scope, from) && IsVisible(symbols, visible, scope + "." + name)
    && forall c :: Encloses(c, from) && |c| > |scope| ==> !IsVisible(symbols, visible, c + "." + name)
  }

  /** Finds the match at the innermost enclosing scope, and fails exactly when no enclosing scope
    * has a visible match. An absolute name stands for itself alone. */
  method ResolveName(symbols: map<string, Symbol>, visible: set<nat>, name: string, scope: string)
    returns (r: Option<string>)
    ensures IsAbsolute(name) ==> r == if IsVisible(symbols, visible, name) then Some(name) else None
    ensures !IsAbsolute(name) && r.Some? ==>
              exists c :: Innermost(symbols, visible, name, scope, c) && r.value == c + "." + name
    ensures !IsAbsolute(name) ==>
              (r.None? <==> forall c :: Encloses(c, scope) ==> !IsVisible(symbols, visible, c + "." + name))
    ensures (name == "" || name[0] != '.') && scope + "." + name in symbols && symbols[scope + "." + name].file in visible ==>
              r == Some(scope + "." + name)
  {
    if IsAbsolute(name) {
      return if IsVisible(symbols, visible, name) then Some(name) else None;
    }
    var current := scope;
    assert Encloses(scope, scope);
    while true
      invariant Encloses(current, scope) && (current == scope || |current| < |scope|)
      invariant forall c :: Encloses(c, scope) && |c| > |current| ==> !IsVisible(symbols, visible, Candidate(c, name))
      invariant forall c :: Encloses(c, scope) && |c| <= |current| ==> Encloses(c, current)
      decreases |current|
    {
      if IsVisible(symbols, visible, Candidate(current, name)) {
        assert Innermost(symbols, visible, name, scope, current);
        return Some(Candidate(current, name));
      }
      assert forall c :: Encloses(c, scope) && |c| == |current| ==> c == current;
      if current == "" {
        return None;
      }
      current := ParentScope(current);
    }
  }

  // ---------------------------------------------------------------- a definition is found from its own scope

  /** The message itself, or one defined inside it. */
  ghost predicate IsInside(m: Message, sub: Message)
    decreases m
  {
    m == sub || exists i :: 0 <= i < |m.nested| && IsInside(m.nested[i], sub)
  }

  lemma {:induction false} NestedAreDefined(m: Message, count: nat, file: nat, i: nat)
    requires i < count <= |m.nested|
    ensures forall d :: d in MessageDefinitions(m.nested[i], file) ==> d in NestedDefinitions(m, count, file)
    decreases count
  {
    if i < count - 1 {
      NestedAreDefined(m, count - 1, file, i);
    }
  }

  lemma {:induction false} InsideIsDefined(m: Message, sub: Message, file: nat)
    requires IsInside(m, sub)
    ensures Definition(sub.fqn, Symbol(MessageSymbol, file)) in MessageDefinitions(m, file)
    ensures forall i :: 0 <= i < |sub.enums| ==> Definition(sub.enums[i], Symbol(EnumSymbol, file)) in MessageDefinitions(m, file)
    decreases m
  {
    if m != sub {
      var i :| 0 <= i < |m.nested| && IsInside(m.nested[i], sub);
      InsideIsDefined(m.nested[i], sub, file);
      NestedAreDefined(m, |m.nested|, file, i);
    } else {
      var enums := EnumDefinitions(m.enums, file);
      assert forall i :: 0 <= i < |m.enums| ==> enums[i] == Definition(m.enums[i], Symbol(EnumSymbol, file));
    }
  }

  lemma {:induction false} TopAreDefined(messages: seq<Message>, file: nat, k: nat)
    requires k < |messages|
    ensures forall d :: d in MessageDefinitions(messages[k], file) ==> d in TopDefinitions(messages, file)
    decreases |messages|
  {
    if k < |messages| - 1 {
      TopAreDefined(messages[..|messages| - 1], file, k);
    }
  }

  lemma {:induction false} AllAreDefined(files: seq<File>, f: nat)
    requires f < |files|
    ensures forall d :: d in TopDefinitions(files[f].messages, f) || d in EnumDefinitions(files[f].enums, f) ==> d in AllDefinitions(files)
    decreases |files|
  {
    if f < |files| - 1 {
      AllAreDefined(files[..|files| - 1], f);
    }
  }

  /** With the table of a file set, a message or enum defined directly in a message anywhere in a visible file, its name
    * being the message's and its own joined by a dot, is found by that name from inside the message. */
  lemma FoundFromItsScope(files: seq<File>, symbols: map<string, Symbol>, visible: set<nat>, f: nat, k: nat, m: Message, name: string)
    requires IsTable(symbols, AllDefinitions(files)) && f < |files| && f in visible && k < |files[f].messages|
    requires IsInside(files[f].messages[k], m)
    requires (exists i :: 0 <= i < |m.nested| && m.nested[i].fqn == m.fqn + "." + name) || m.fqn + "." + name in m.enums
    ensures Innermost(symbols, visible, name, m.fqn, m.fqn) && symbols[m.fqn + "." + name].file == f
  {
    var ds := AllDefinitions(files);
    AllAreDefined(files, f);
    TopAreDefined(files[f].messages, f, k);
    if m.fqn + "." + name in m.enums {
      InsideIsDefined(files[f].messages[k], m, f);
      var i :| 0 <= i < |m.enums| && m.enums[i] == m.fqn + "." + name;
      assert Definition(m.enums[i], Symbol(EnumSymbol, f)) in ds;
    } else {
      var i :| 0 <= i < |m.nested| && m.nested[i].fqn == m.fqn + "." + name;
      InsideNested(files[f].messages[k], m, i);
      InsideIsDefined(files[f].messages[k], m.nested[i], f);
      assert Definition(m.nested[i].fqn, Symbol(MessageSymbol, f)) in ds;
    }
    LongerDoesNotEnclose(m.fqn);
  }

  lemma LongerDoesNotEnclose(scope: string)
    ensures Encloses(scope, scope) && forall c :: Encloses(c, scope) ==> |c| <= |scope|
  {
  }

  lemma {:induction false} InsideNested(m: Message, sub: Message, i: nat)
    requires IsInside(m, sub) && i < |sub.nested|
    ensures IsInside(m, sub.nested[i])
    decreases m
  {
    if m != sub {
      var j :| 0 <= j < |m.nested| && IsInside(m.nested[j], sub);
      InsideNested(m.nested[j], sub, i);
    } else {
      assert IsInside(m.nested[i], sub.nested[i]);
    }
  }

  /** The innermost scope is unique, so the match is a function of the inputs. */
  lemma InnermostIsUnique(symbols: map<string, Symbol>, visible: set<nat>, name: string, from: string, a: string, b: string)
    requires Innermost(symbols, visible, name, from, a) && Innermost(symbols, visible, name, from, b)
    ensures a == b
  {
    assert |a| == |b|;
    assert a == from[..|a|] && b == from[..|b|];
  }
}
