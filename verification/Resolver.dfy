/** The import resolver: a recursive depth-first search over files, with a gray stack that detects
  * cycles, a cap on the length of an import chain, and a post-order list that is topological. */
module Resolver {
  import opened Basics

  const MAX_IMPORT_DEPTH: nat := 100

  // A canonical path, which is the identity of a file.
  datatype Name = Path(text: string)

  // What lexing and parsing make of a file's text: its canonical imports in order, or an error.
  datatype Text = Parses(imports: seq<Name>) | Malformed

  // An entry is read from the path it was given by; its text is absent when that cannot be read.
  datatype Entry = Entry(name: Name, text: Option<Text>)

  datatype Color = Gray | Black

  datatype Error =
    | EntryNotFound(entry: Name)
    | BadText(file: Name)
    | ImportNotFound(path: Name, importer: Name)
    | ImportCycle(cycle: seq<Name>)
    | TooDeep

  datatype Outcome =
    | Resolved(names: seq<Name>, files: seq<seq<Name>>, index: map<Name, nat>)
    | Failed(error: Error)

  // ---------------------------------------------------------------- paths and reachability

  type Graph = map<Name, seq<Name>>

  /** The i-th name of the path is imported by the one before it. */
  ghost predicate Step(g: Graph, p: seq<Name>, i: int)
    requires 0 < i < |p|
  {
    p[i - 1] in g && p[i] in g[p[i - 1]]
  }

  /** Each file of the path imports the next one. */
  ghost predicate IsPath(g: Graph, p: seq<Name>)
  {
    |p| > 0 && forall i :: 0 < i < |p| ==> Step(g, p, i)
  }

  /** A path that returns to where it started, over at least one import. */
  ghost predicate IsCycle(g: Graph, p: seq<Name>)
  {
    IsPath(g, p) && |p| >= 2 && p[0] == p[|p| - 1]
  }

  ghost predicate NoDuplicates(s: seq<Name>)
  {
    forall i, j :: 0 <= i < j < |s| ==> s[i] != s[j]
  }

  ghost predicate Leads(g: Graph, roots: set<Name>, p: seq<Name>, n: Name)
  {
    IsPath(g, p) && p[0] in roots && p[|p| - 1] == n
  }

  ghost predicate Reaches(g: Graph, roots: set<Name>, n: Name)
  {
    exists p :: Leads(g, roots, p, n)
  }

  ghost predicate Extends(g: Graph, h: Graph)
  {
    forall n :: n in g ==> n in h && h[n] == g[n]
  }

  lemma ReachesExtends(g: Graph, h: Graph, roots: set<Name>, n: Name)
    requires Extends(g, h) && Reaches(g, roots, n)
    ensures Reaches(h, roots, n)
  {
    var p :| Leads(g, roots, p, n);
    PathExtends(g, h, p);
    assert Leads(h, roots, p, n);
  }

  lemma ReachesNext(g: Graph, roots: set<Name>, n: Name, m: Name)
    requires Reaches(g, roots, n) && n in g && m in g[n]
    ensures Reaches(g, roots, m)
  {
    var p :| Leads(g, roots, p, n);
    PathGrows(g, p, m);
    assert Leads(g, roots, p + [m], m);
  }

  lemma PathGrows(g: Graph, p: seq<Name>, m: Name)
    requires IsPath(g, p) && p[|p| - 1] in g && m in g[p[|p| - 1]]
    ensures IsPath(g, p + [m])
  {
    forall i | 0 < i < |p + [m]| ensures Step(g, p + [m], i) {
      if i < |p| {
        assert Step(g, p, i);
      }
    }
  }

  lemma PathTail(g: Graph, p: seq<Name>, k: nat)
    requires IsPath(g, p) && k < |p|
    ensures IsPath(g, p[k..])
  {
    forall i | 0 < i < |p[k..]| ensures Step(g, p[k..], i) {
      assert Step(g, p, k + i);
    }
  }

  lemma PathHead(g: Graph, p: seq<Name>)
    requires IsPath(g, p) && |p| > 1
    ensures IsPath(g, p[..|p| - 1]) && Step(g, p, |p| - 1)
  {
    var q := p[..|p| - 1];
    forall i | 0 < i < |q| ensures Step(g, q, i) {
      assert Step(g, p, i);
    }
  }

  lemma PathExtends(g: Graph, h: Graph, p: seq<Name>)
    requires Extends(g, h) && IsPath(g, p)
    ensures IsPath(h, p)
  {
    forall i | 0 < i < |p| ensures Step(h, p, i) {
      assert Step(g, p, i);
    }
  }

  // ---------------------------------------------------------------- what an outcome means

  ghost function Roots(entries: seq<Entry>): set<Name>
  {
    set i | 0 <= i < |entries| :: entries[i].name
  }

  /** The text of a file is the one an entry was read from, or the one its import found. */
  ghost predicate IsText(entries: seq<Entry>, lib: map<Name, Text>, n: Name, t: Text)
  {
    (n in lib && lib[n] == t) || Entry(n, Some(t)) in entries
  }

  ghost predicate FromTexts(entries: seq<Entry>, lib: map<Name, Text>, g: Graph)
  {
    forall n :: n in g ==> IsText(entries, lib, n, Parses(g[n]))
  }

  /** Every import of the i-th name stands before it. */
  ghost predicate ImportsFirst(g: Graph, order: seq<Name>)
  {
    forall i :: 0 <= i < |order| ==> order[i] in g && forall m :: m in g[order[i]] ==> m in order[..i]
  }

  /** A successful run: each file once, imports first, and exactly the files the entries reach. */
  ghost predicate IsResolution(entries: seq<Entry>, lib: map<Name, Text>, g: Graph, order: seq<Name>)
  {
    && NoDuplicates(order)
    && ImportsFirst(g, order)
    && FromTexts(entries, lib, g)
    && (forall n :: n in order <==> n in g)
    && (forall n :: n in order <==> Reaches(g, Roots(entries), n))
  }

  /** A failed run: the error names a defect the inputs really have. */
  ghost predicate IsDefect(entries: seq<Entry>, lib: map<Name, Text>, g: Graph, e: Error)
  {
    && FromTexts(entries, lib, g)
    && match e
       case EntryNotFound(n) => Entry(n, None) in entries
       case BadText(n) => Reaches(g, Roots(entries), n) && IsText(entries, lib, n, Malformed)
       case ImportNotFound(m, n) =>
         Reaches(g, Roots(entries), n) && n in g && m in g[n] && m !in lib
       case ImportCycle(c) => IsCycle(g, c) && Reaches(g, Roots(entries), c[0])
       case TooDeep => exists p :: IsPath(g, p) && NoDuplicates(p) && |p| == 101
                                   && p[0] in Roots(entries)
  }

  // ---------------------------------------------------------------- consequences

  /** Along a path that starts in a topologically ordered list, every later file stands earlier. */
  lemma {:induction false} PathDescends(g: Graph, order: seq<Name>, p: seq<Name>, k: nat)
    requires ImportsFirst(g, order) && IsPath(g, p)
    requires k < |order| && order[k] == p[0]
    ensures exists j :: 0 <= j <= k && order[j] == p[|p| - 1] && (|p| > 1 ==> j < k)
    decreases |p|
  {
    if |p| > 1 {
      assert Step(g, p, 1);
      assert p[1] in order[..k];
      var j :| 0 <= j < k && order[j] == p[1];
      PathTail(g, p, 1);
      PathDescends(g, order, p[1..], j);
    }
  }

  /** A set of files that holds the roots and is closed under imports holds all they reach. */
  lemma {:induction false} ClosedHoldsReachable(g: Graph, order: seq<Name>, roots: set<Name>, n: Name)
    requires ImportsFirst(g, order) && (forall r :: r in roots ==> r in order)
    requires Reaches(g, roots, n)
    ensures n in order
  {
    var p :| Leads(g, roots, p, n);
    var k :| 0 <= k < |order| && order[k] == p[0];
    PathDescends(g, order, p, k);
  }

  /** No file of a resolution lies on an import cycle. */
  lemma ResolutionIsAcyclic(entries: seq<Entry>, lib: map<Name, Text>, g: Graph, order: seq<Name>, c: seq<Name>)
    requires IsResolution(entries, lib, g, order)
    ensures !IsCycle(g, c)
  {
    if IsCycle(g, c) {
      assert Step(g, c, 1);
      var k :| 0 <= k < |order| && order[k] == c[0];
      PathDescends(g, order, c, k);
    }
  }

  /** The texts found for one name never differ, so the inputs describe one import graph. */
  ghost predicate OneGraph(entries: seq<Entry>, lib: map<Name, Text>, whole: map<Name, Text>)
  {
    && (forall n :: n in lib ==> n in whole && whole[n] == lib[n])
    && (forall e :: e in entries && e.text.Some? ==> e.name in whole && whole[e.name] == e.text.value)
  }

  function Edges(whole: map<Name, Text>): Graph
  {
    map n | n in whole && whole[n].Parses? :: whole[n].imports
  }

  /** What the entries reach in the import graph of the inputs is what a resolution holds. */
  lemma {:induction false} ResolutionHoldsPath(
    entries: seq<Entry>, lib: map<Name, Text>, whole: map<Name, Text>, g: Graph, order: seq<Name>, p: seq<Name>)
    requires OneGraph(entries, lib, whole) && IsResolution(entries, lib, g, order)
    requires IsPath(Edges(whole), p) && p[0] in g
    ensures IsPath(g, p) && p[|p| - 1] in g
    decreases |p|
  {
    if |p| > 1 {
      var q, n, m := p[..|p| - 1], p[|p| - 2], p[|p| - 1];
      PathHead(Edges(whole), p);
      ResolutionHoldsPath(entries, lib, whole, g, order, q);
      assert n in g && m in Edges(whole)[n];
      assert IsText(entries, lib, n, Parses(g[n]));
      PathGrows(g, q, m);
      assert p == q + [m];
      var k :| 0 <= k < |order| && order[k] == n;
      assert m in order[..k];
    }
  }

  /** A run cannot succeed when the entries reach an import cycle, a missing import or a malformed
    * file: success means the whole reachable graph is sound. */
  lemma ResolutionMeansSound(
    entries: seq<Entry>, lib: map<Name, Text>, whole: map<Name, Text>, g: Graph, order: seq<Name>, p: seq<Name>)
    requires OneGraph(entries, lib, whole) && IsResolution(entries, lib, g, order)
    requires IsPath(Edges(whole), p) && p[0] in Roots(entries)
    ensures p[|p| - 1] in whole && whole[p[|p| - 1]].Parses?
    ensures forall c :: IsCycle(Edges(whole), c) ==> c[0] != p[|p| - 1]
  {
    assert Leads(g, Roots(entries), [p[0]], p[0]);
    assert p[0] in order;
    ResolutionHoldsPath(entries, lib, whole, g, order, p);
    var n := p[|p| - 1];
    assert IsText(entries, lib, n, Parses(g[n]));
    forall c | IsCycle(Edges(whole), c) ensures c[0] != n {
      if c[0] == n {
        ResolutionHoldsPath(entries, lib, whole, g, order, c);
        ResolutionIsAcyclic(entries, lib, g, order, c);
      }
    }
  }

  // ---------------------------------------------------------------- the resolver

  /** Gray files are the stack, black files the finished list. */
  ghost predicate Colored(color: map<Name, Color>, stack: seq<Name>, order: seq<Name>)
  {
    && (forall n :: n in stack <==> n in color && color[n] == Gray)
    && (forall n :: n in order <==> n in color && color[n] == Black)
    && NoDuplicates(stack) && NoDuplicates(order)
  }

  /** The stack is one import chain from an entry, within the depth cap. */
  ghost predicate IsChain(entries: seq<Entry>, g: Graph, stack: seq<Name>)
  {
    |stack| <= MAX_IMPORT_DEPTH && (|stack| > 0 ==> IsPath(g, stack) && stack[0] in Roots(entries))
  }

  /** What is parsed comes from the inputs and is reached, and what is finished is in order. */
  ghost predicate IsProgress(entries: seq<Entry>, lib: map<Name, Text>, g: Graph, order: seq<Name>)
  {
    && ImportsFirst(g, order)
    && FromTexts(entries, lib, g)
    && (forall n :: n in g ==> Reaches(g, Roots(entries), n))
  }

  lemma ColoredOpens(color: map<Name, Color>, stack: seq<Name>, order: seq<Name>, n: Name)
    requires Colored(color, stack, order) && n !in color
    ensures Colored(color[n := Gray], stack + [n], order)
  {
    forall m ensures m in stack + [n] <==> m in color[n := Gray] && color[n := Gray][m] == Gray {
      assert m in stack + [n] <==> m in stack || m == n;
    }
  }

  lemma ColoredCloses(color: map<Name, Color>, stack: seq<Name>, order: seq<Name>, n: Name)
    requires Colored(color, stack + [n], order)
    ensures Colored(color[n := Black], stack, order + [n])
  {
    forall m ensures m in stack <==> m in color[n := Black] && color[n := Black][m] == Gray {
      assert m in stack + [n] <==> m in stack || m == n;
      assert (stack + [n])[|stack|] == n;
      if m in stack {
        var i :| 0 <= i < |stack| && stack[i] == m;
        assert (stack + [n])[i] == m;
      }
    }
    assert (stack + [n])[|stack|] in stack + [n];
    assert n !in order;
    assert NoDuplicates(stack) by {
      forall i, j | 0 <= i < j < |stack| ensures stack[i] != stack[j] {
        assert (stack + [n])[i] != (stack + [n])[j];
      }
    }
  }

  lemma ChainOpens(entries: seq<Entry>, g: Graph, h: Graph, stack: seq<Name>, n: Name)
    requires IsChain(entries, g, stack) && |stack| < MAX_IMPORT_DEPTH && Extends(g, h)
    requires |stack| == 0 ==> n in Roots(entries)
    requires |stack| > 0 ==> stack[|stack| - 1] in g && n in g[stack[|stack| - 1]]
    ensures IsChain(entries, h, stack + [n])
  {
    if |stack| > 0 {
      PathExtends(g, h, stack);
      PathGrows(h, stack, n);
    }
  }

  lemma ChainCloses(entries: seq<Entry>, g: Graph, stack: seq<Name>)
    requires IsChain(entries, g, stack) && |stack| > 0
    ensures IsChain(entries, g, stack[..|stack| - 1])
  {
    if |stack| > 1 {
      PathHead(g, stack);
    }
  }

  lemma ProgressOpens(entries: seq<Entry>, lib: map<Name, Text>, g: Graph, order: seq<Name>, n: Name, imports: seq<Name>)
    requires IsProgress(entries, lib, g, order) && n !in g
    requires IsText(entries, lib, n, Parses(imports)) && Reaches(g, Roots(entries), n)
    ensures IsProgress(entries, lib, g[n := imports], order)
  {
    var h := g[n := imports];
    forall m | m in h ensures Reaches(h, Roots(entries), m) {
      ReachesExtends(g, h, Roots(entries), m);
    }
  }

  lemma ProgressCloses(entries: seq<Entry>, lib: map<Name, Text>, g: Graph, order: seq<Name>, n: Name)
    requires IsProgress(entries, lib, g, order) && n in g && forall m :: m in g[n] ==> m in order
    ensures IsProgress(entries, lib, g, order + [n])
  {
    var longer := order + [n];
    forall i | 0 <= i < |longer|
      ensures longer[i] in g && forall m :: m in g[longer[i]] ==> m in longer[..i]
    {
      assert longer[..i] == order[..i];
      assert order[..|order|] == order;
    }
  }

  lemma Closes(entries: seq<Entry>, lib: map<Name, Text>, color: map<Name, Color>, g: Graph, below: seq<Name>,
               order: seq<Name>, stack: seq<Name>, n: Name)
    requires |stack| > 0 && below == stack[..|stack| - 1] && stack[|stack| - 1] == n
    requires Colored(color, stack, order) && IsChain(entries, g, stack) && IsProgress(entries, lib, g, order)
    requires n in g && forall m :: m in g[n] ==> m in order
    ensures n in color
    ensures Colored(color[n := Black], below, order + [n]) && IsChain(entries, g, below)
    ensures IsProgress(entries, lib, g, order + [n])
  {
    assert n in stack;
    assert n in color;
    hide Colored, IsChain, IsProgress;
    assert stack == below + [n];
    ColoredCloses(color, below, order, n);
    ChainCloses(entries, g, stack);
    ProgressCloses(entries, lib, g, order, n);
  }

  class Resolver {
    const entries: seq<Entry>
    const lib: map<Name, Text>
    var color: map<Name, Color>
    var parsed: Graph
    var stack: seq<Name>
    var order: seq<Name>

    constructor (entries: seq<Entry>, lib: map<Name, Text>)
      ensures Valid() && stack == [] && order == [] && parsed == map[]
      ensures this.entries == entries && this.lib == lib
    {
      this.entries, this.lib := entries, lib;
      color, parsed, stack, order := map[], map[], [], [];
    }

    ghost predicate Valid()
      reads this
    {
      && color.Keys == parsed.Keys
      && Colored(color, stack, order)
      && IsChain(entries, parsed, stack)
      && IsProgress(entries, lib, parsed, order)
    }

    /** The next file to visit is a root, or an import of the file on top of the stack. */
    ghost predicate MayVisit(name: Name, text: Text)
      reads this
    {
      && name !in color
      && IsText(entries, lib, name, text)
      && (|stack| == 0 ==> name in Roots(entries))
      && (|stack| > 0 ==> stack[|stack| - 1] in parsed && name in parsed[stack[|stack| - 1]])
    }

    lemma VisitedIsReached(name: Name, text: Text)
      requires Valid() && MayVisit(name, text)
      ensures Reaches(parsed, Roots(entries), name)
    {
      if |stack| == 0 {
        assert Leads(parsed, Roots(entries), [name], name);
      } else {
        ReachesNext(parsed, Roots(entries), stack[|stack| - 1], name);
      }
    }

    /** Opening a file keeps the invariant: it goes gray, on top of the stack. */
    method Open(name: Name, imports: seq<Name>)
      requires Valid() && MayVisit(name, Parses(imports)) && |stack| < MAX_IMPORT_DEPTH
      modifies this
      ensures Valid() && stack == old(stack) + [name] && order == old(order)
      ensures parsed == old(parsed)[name := imports] && Extends(old(parsed), parsed)
    {
      hide Colored, IsChain, IsProgress, IsText, Reaches, Roots;
      VisitedIsReached(name, Parses(imports));
      ColoredOpens(color, stack, order, name);
      ChainOpens(entries, parsed, parsed[name := imports], stack, name);
      ProgressOpens(entries, lib, parsed, order, name, imports);
      color := color[name := Gray];
      stack := stack + [name];
      parsed := parsed[name := imports];
    }

    /** Closing the file on top of the stack, once all its imports are black. */
    method Close(name: Name)
      requires Valid() && |stack| > 0 && stack[|stack| - 1] == name
      requires name in parsed && forall m :: m in parsed[name] ==> m in order
      modifies this`color, this`stack, this`order
      ensures Valid() && stack == old(stack)[..|old(stack)| - 1] && order == old(order) + [name]
    {
      hide Colored, IsChain, IsProgress;
      var below := stack[..|stack| - 1];
      Closes(entries, lib, color, parsed, below, order, stack, name);
      color, stack, order := color[name := Black], below, order + [name];
    }

    /** The gray stack from the first place of `name` on, closed by `name` once more. */
    method RenderCycle(name: Name) returns (cycle: seq<Name>)
      requires Valid() && name in stack && name in parsed[stack[|stack| - 1]]
      ensures IsCycle(parsed, cycle) && cycle[0] == name && NoDuplicates(cycle[1..])
    {
      var start := 0;
      while stack[start] != name
        invariant 0 <= start < |stack| && name in stack[start..]
        decreases |stack| - start
      {
        start := start + 1;
      }
      cycle := stack[start..] + [name];
      PathTail(parsed, stack, start);
      PathGrows(parsed, stack[start..], name);
      forall i, j | 1 <= i < j < |cycle| ensures cycle[i] != cycle[j] {
        assert cycle[i] == stack[start + i];
        if j < |cycle| - 1 {
          assert cycle[j] == stack[start + j];
        }
      }
    }

    lemma SeenIsStackedOrDone(name: Name)
      requires Valid() && name in color
      ensures if color[name] == Gray then name in stack else name in order
    {
    }

    lemma DefectFound(e: Error)
      requires Valid()
      requires match e
        case EntryNotFound(n) => Entry(n, None) in entries
        case BadText(n) => MayVisit(n, Malformed)
        case ImportNotFound(m, n) => n in parsed && m in parsed[n] && m !in lib
        case ImportCycle(c) => IsCycle(parsed, c)
        case TooDeep => exists n, t :: MayVisit(n, t) && |stack| >= MAX_IMPORT_DEPTH
      ensures IsDefect(entries, lib, parsed, e)
    {
      match e
      case BadText(n) => VisitedIsReached(n, Malformed);
      case ImportCycle(c) => assert Step(parsed, c, 1);
      case TooDeep => var n, t :| MayVisit(n, t); DeepChain(n);
      case _ =>
    }

    lemma MayVisitImport(name: Name, path: Name)
      requires Valid() && |stack| > 0 && stack[|stack| - 1] == name && name in parsed
      requires path in parsed[name] && path !in color && path in lib
      ensures MayVisit(path, lib[path])
    {
    }

    /** Visits one unseen file: either it and all it imports are finished, with the stack as before,
      * or the error names a real defect. */
    method Visit(name: Name, text: Text) returns (error: Option<Error>)
      requires Valid() && MayVisit(name, text)
      modifies this
      ensures Extends(old(parsed), parsed)
      ensures error.None? ==> Valid() && stack == old(stack) && old(order) <= order && name in order
      ensures error.Some? ==> IsDefect(entries, lib, parsed, error.value)
      decreases MAX_IMPORT_DEPTH - |stack|, 0
    {
      hide Valid, MayVisit, IsDefect;
      if |stack| >= MAX_IMPORT_DEPTH {
        DefectFound(TooDeep);
        return Some(TooDeep);
      }
      if text.Malformed? {
        DefectFound(BadText(name));
        return Some(BadText(name));
      }
      Open(name, text.imports);
      error := VisitImports(name, text.imports);
      if error.None? {
        Close(name);
      }
    }

    /** Visits the imports of the file on top of the stack, in order. */
    method VisitImports(name: Name, imports: seq<Name>) returns (error: Option<Error>)
      requires Valid() && |stack| > 0 && stack[|stack| - 1] == name
      requires name in parsed && parsed[name] == imports
      modifies this
      ensures Extends(old(parsed), parsed)
      ensures error.None? ==>
        && Valid() && stack == old(stack) && old(order) <= order
        && forall k :: 0 <= k < |imports| ==> imports[k] in order
      ensures error.Some? ==> IsDefect(entries, lib, parsed, error.value)
      decreases MAX_IMPORT_DEPTH - |stack|, 1
    {
      hide Valid, MayVisit, IsDefect;
      var i := 0;
      while i < |imports|
        invariant 0 <= i <= |imports|
        invariant Valid() && stack == old(stack) && old(order) <= order
        invariant Extends(old(parsed), parsed)
        invariant forall k :: 0 <= k < i ==> imports[k] in order
      {
        var path := imports[i];
        if path in color {
          SeenIsStackedOrDone(path);
          if color[path] == Gray {
            var cycle := RenderCycle(path);
            DefectFound(ImportCycle(cycle));
            return Some(ImportCycle(cycle));
          }
        } else if path !in lib {
          DefectFound(ImportNotFound(path, name));
          return Some(ImportNotFound(path, name));
        } else {
          MayVisitImport(name, path);
          error := Visit(path, lib[path]);
          if error.Some? {
            return error;
          }
        }
        i := i + 1;
      }
      error := None;
    }

    lemma DeepChain(name: Name)
      requires Valid() && |stack| == MAX_IMPORT_DEPTH && name !in color
      requires name in parsed[stack[|stack| - 1]]
      ensures IsDefect(entries, lib, parsed, TooDeep)
    {
      var p := stack + [name];
      PathGrows(parsed, stack, name);
      forall i, j | 0 <= i < j < |p| ensures p[i] != p[j] {
        assert p[i] in stack;
      }
    }

    /** Visits the entries in argument order; one that is already parsed is passed over. */
    method VisitEntries() returns (error: Option<Error>)
      requires Valid() && stack == []
      modifies this
      ensures error.None? ==> IsResolution(entries, lib, parsed, order)
      ensures error.Some? ==> IsDefect(entries, lib, parsed, error.value)
    {
      hide Valid, MayVisit, IsDefect, IsResolution;
      var k := 0;
      while k < |entries|
        invariant 0 <= k <= |entries|
        invariant Valid() && stack == []
        invariant forall j :: 0 <= j < k ==> entries[j].name in order
      {
        var entry := entries[k];
        if entry.name in parsed {
          ParsedIsDone(entry.name);
        } else if entry.text.None? {
          DefectFound(EntryNotFound(entry.name));
          return Some(EntryNotFound(entry.name));
        } else {
          MayVisitEntry(k);
          error := Visit(entry.name, entry.text.value);
          if error.Some? {
            return error;
          }
        }
        k := k + 1;
      }
      AllReached();
      error := None;
    }

    lemma ParsedIsDone(name: Name)
      requires Valid() && stack == [] && name in parsed
      ensures name in order
    {
      SeenIsStackedOrDone(name);
    }

    lemma MayVisitEntry(k: nat)
      requires Valid() && stack == [] && k < |entries| && entries[k].text.Some? && entries[k].name !in parsed
      ensures MayVisit(entries[k].name, entries[k].text.value)
    {
    }

    /** Resolves every entry into one list of files, with the place of each in it. */
    method Run() returns (r: Outcome)
      requires Valid() && stack == []
      modifies this
      ensures r.Resolved? ==>
        && IsResolution(entries, lib, parsed, r.names)
        && |r.files| == |r.names|
        && (forall i :: 0 <= i < |r.names| ==> r.files[i] == parsed[r.names[i]])
        && (forall n :: n in r.index <==> n in r.names)
        && (forall i :: 0 <= i < |r.names| ==> r.index[r.names[i]] == i)
      ensures r.Failed? ==> IsDefect(entries, lib, parsed, r.error)
    {
      hide Valid, IsDefect;
      var error := VisitEntries();
      if error.Some? {
        return Failed(error.value);
      }
      var files, index := [], map[];
      var i := 0;
      while i < |order|
        invariant 0 <= i <= |order| && |files| == i
        invariant forall j :: 0 <= j < i ==> files[j] == parsed[order[j]]
        invariant forall n :: n in index <==> n in order[..i]
        invariant forall j :: 0 <= j < i ==> order[j] in index && index[order[j]] == j
      {
        index := index[order[i] := i];
        files := files + [parsed[order[i]]];
        i := i + 1;
      }
      assert order[..|order|] == order;
      r := Resolved(order, files, index);
    }

    lemma AllReached()
      requires Valid() && stack == []
      requires forall j :: 0 <= j < |entries| ==> entries[j].name in order
      ensures IsResolution(entries, lib, parsed, order)
    {
      forall n | Reaches(parsed, Roots(entries), n) ensures n in order {
        ClosedHoldsReachable(parsed, order, Roots(entries), n);
      }
      forall n | n in order ensures Reaches(parsed, Roots(entries), n) {
        assert n in parsed;
      }
    }
  }
}
