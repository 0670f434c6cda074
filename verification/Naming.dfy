/** C++ names for proto types: package components first, then literal spellings, then the names that
  * must be escaped, each escalated with `_` until it is free in its namespace. */
module Naming {
  import opened Basics

  // A top-level enum or message, and a file with its package components; enums come before messages.
  datatype Decl = Decl(fqn: string, raw: string)

  datatype File = File(package: seq<string>, decls: seq<Decl>)

  // A C++ namespace, as its components, and a name in one.
  type Scope = seq<string>

  datatype Id = Id(scope: Scope, text: string)

  datatype Claimant = Claimant(fqn: string, raw: string, scope: Scope)

  // ---------------------------------------------------------------- escaping

  /** Generator prefixes, and the keywords, member names and macros of the reserved set. */
  predicate IsReserved(reserved: set<string>, name: string)
  {
    "rp_" <= name || "RP_" <= name || name in reserved
  }

  function Sanitize(reserved: set<string>, name: string): string
  {
    if IsReserved(reserved, name) then name + "_" else name
  }

  function NamespaceOf(reserved: set<string>, package: seq<string>): (r: Scope)
    ensures |r| == |package|
  {
    if package == [] then []
    else NamespaceOf(reserved, package[..|package| - 1]) + [Sanitize(reserved, package[|package| - 1])]
  }

  // ---------------------------------------------------------------- escalation

  ghost function AtLeast(taken: set<Id>, n: nat): set<Id>
  {
    set t | t in taken && |t.text| >= n
  }

  lemma AtLeastShrinks(taken: set<Id>, id: Id)
    requires id in taken
    ensures |AtLeast(taken, |id.text| + 1)| < |AtLeast(taken, |id.text|)|
  {
    var more, fewer := AtLeast(taken, |id.text|), AtLeast(taken, |id.text| + 1);
    assert id in more && fewer <= more - {id};
    assert more == (more - {id}) + {id};
    SubsetIsSmaller(fewer, more - {id});
  }

  /** `name` with underscores appended. */
  ghost predicate Escalates(name: string, text: string)
  {
    name <= text && forall i :: |name| <= i < |text| ==> text[i] == '_'
  }

  /** The first free escalation of a name: it is free, and every shorter one is taken. */
  ghost predicate IsFirstFree(taken: set<Id>, scope: Scope, name: string, text: string)
  {
    && Escalates(name, text) && Id(scope, text) !in taken
    && forall n :: |name| <= n < |text| ==> Id(scope, text[..n]) in taken
  }

  ghost function FirstFree(taken: set<Id>, scope: Scope, name: string): (text: string)
    ensures IsFirstFree(taken, scope, name, text)
    decreases |AtLeast(taken, |name|)|
  {
    if Id(scope, name) !in taken then name
    else
      AtLeastShrinks(taken, Id(scope, name));
      var text := FirstFree(taken, scope, name + "_");
      FreeAfter(taken, scope, name, text);
      text
  }

  lemma FreeAfter(taken: set<Id>, scope: Scope, name: string, text: string)
    requires Id(scope, name) in taken && IsFirstFree(taken, scope, name + "_", text)
    ensures IsFirstFree(taken, scope, name, text)
  {
    assert text[|name|] == (name + "_")[|name|];
    forall n | |name| <= n < |text| ensures Id(scope, text[..n]) in taken {
      if n == |name| {
        assert text[..n] == name;
      }
    }
  }

  /** The escalation loop; it ends because every failed try is one more taken name of its length. */
  method Escalate(taken: set<Id>, scope: Scope, name: string) returns (text: string)
    ensures text == FirstFree(taken, scope, name)
  {
    text := name;
    while Id(scope, text) in taken
      invariant FirstFree(taken, scope, text) == FirstFree(taken, scope, name)
      decreases |AtLeast(taken, |text|)|
    {
      AtLeastShrinks(taken, Id(scope, text));
      text := text + "_";
    }
  }

  // ---------------------------------------------------------------- package components

  /** Each component of a package, as a name in its parent's namespace. */
  ghost function ComponentIds(reserved: set<string>, package: seq<string>): set<Id>
  {
    set k | 0 <= k < |package| :: Id(NamespaceOf(reserved, package[..k]), Sanitize(reserved, package[k]))
  }

  method ClaimPackageComponents(reserved: set<string>, package: seq<string>, before: set<Id>) returns (taken: set<Id>)
    ensures taken == before + ComponentIds(reserved, package)
  {
    taken := before;
    var parent: Scope := [];
    var k := 0;
    while k < |package|
      invariant 0 <= k <= |package|
      invariant parent == NamespaceOf(reserved, package[..k])
      invariant taken == before + ComponentIds(reserved, package[..k])
    {
      ghost var was, head := taken, package[..k + 1];
      var id := Sanitize(reserved, package[k]);
      taken := taken + {Id(parent, id)};
      assert head[..k] == package[..k];
      ComponentsGrow(reserved, package, k);
      parent := parent + [id];
      k := k + 1;
    }
    assert package[..|package|] == package;
  }

  lemma ComponentsGrow(reserved: set<string>, package: seq<string>, k: nat)
    requires k < |package|
    ensures ComponentIds(reserved, package[..k + 1])
         == ComponentIds(reserved, package[..k]) + {Id(NamespaceOf(reserved, package[..k]), Sanitize(reserved, package[k]))}
  {
    var head, longer := package[..k], package[..k + 1];
    forall j | 0 <= j < k ensures longer[..j] == head[..j] && longer[j] == head[j] {
    }
    assert longer[..k] == head && longer[k] == package[k];
    forall id | id in ComponentIds(reserved, head) ensures id in ComponentIds(reserved, longer) {
      var j :| 0 <= j < k && id == Id(NamespaceOf(reserved, head[..j]), Sanitize(reserved, head[j]));
      assert longer[..j] == head[..j];
    }
    forall id | id in ComponentIds(reserved, longer)
      ensures id in ComponentIds(reserved, head) || id == Id(NamespaceOf(reserved, head), Sanitize(reserved, package[k]))
    {
      var j :| 0 <= j < k + 1 && id == Id(NamespaceOf(reserved, longer[..j]), Sanitize(reserved, longer[j]));
      if j < k {
        assert longer[..j] == head[..j];
      }
    }
  }

  ghost function AllComponents(reserved: set<string>, files: seq<File>): set<Id>
  {
    if files == [] then {}
    else AllComponents(reserved, files[..|files| - 1]) + ComponentIds(reserved, files[|files| - 1].package)
  }

  lemma {:induction false} ComponentsAre(reserved: set<string>, files: seq<File>, id: Id)
    ensures id in AllComponents(reserved, files) <==> exists f :: f in files && id in ComponentIds(reserved, f.package)
  {
    if files != [] {
      var n := |files| - 1;
      assert files == files[..n] + [files[n]];
      ComponentsAre(reserved, files[..n], id);
    }
  }

  // ---------------------------------------------------------------- the order of claimants

  /** Lexicographic order of byte strings. */
  predicate Less(a: string, b: string)
  {
    b != [] && (a == [] || a[0] < b[0] || (a[0] == b[0] && Less(a[1..], b[1..])))
  }

  lemma {:induction false} LessIsTotal(a: string, b: string)
    ensures Less(a, b) || Less(b, a) || a == b
    ensures !(Less(a, b) && Less(b, a)) && (a == b ==> !Less(a, b))
  {
    if a != [] && b != [] {
      LessIsTotal(a[1..], b[1..]);
      assert a == [a[0]] + a[1..] && b == [b[0]] + b[1..];
    }
  }

  lemma {:induction false} LessIsTransitive(a: string, b: string, c: string)
    requires Less(a, b) && Less(b, c)
    ensures Less(a, c)
  {
    if a != [] && a[0] == b[0] && b[0] == c[0] {
      LessIsTransitive(a[1..], b[1..], c[1..]);
    }
  }

  function Insert(c: Claimant, cs: seq<Claimant>): (r: seq<Claimant>)
    ensures forall x :: x in r <==> x in cs || x == c
  {
    if cs == [] then [c]
    else if Less(cs[0].fqn, c.fqn) then
      assert cs == [cs[0]] + cs[1..];
      [cs[0]] + Insert(c, cs[1..])
    else [c] + cs
  }

  function SortByFqn(cs: seq<Claimant>): (r: seq<Claimant>)
    ensures forall x :: x in r <==> x in cs
  {
    if cs == [] then [] else
      assert cs == [cs[0]] + cs[1..];
      Insert(cs[0], SortByFqn(cs[1..]))
  }

  ghost predicate Ascending(cs: seq<Claimant>)
  {
    forall i, j :: 0 <= i < j < |cs| ==> Less(cs[i].fqn, cs[j].fqn)
  }

  ghost predicate DistinctFqns(cs: seq<Claimant>)
  {
    forall i, j :: 0 <= i < j < |cs| ==> cs[i].fqn != cs[j].fqn
  }

  lemma {:induction false} InsertAscends(c: Claimant, cs: seq<Claimant>)
    requires Ascending(cs) && forall x :: x in cs ==> x.fqn != c.fqn
    ensures Ascending(Insert(c, cs))
  {
    hide Less;
    if cs != [] {
      LessIsTotal(cs[0].fqn, c.fqn);
      if Less(cs[0].fqn, c.fqn) {
        InsertAscends(c, cs[1..]);
        var r := Insert(c, cs[1..]);
        forall j | 0 <= j < |r| ensures Less(cs[0].fqn, r[j].fqn) {
          assert r[j] in r;
        }
      } else {
        forall j | 0 <= j < |cs| ensures Less(c.fqn, cs[j].fqn) {
          if j > 0 {
            LessIsTransitive(c.fqn, cs[0].fqn, cs[j].fqn);
          }
        }
      }
    }
  }

  lemma {:induction false} SortAscends(cs: seq<Claimant>)
    requires DistinctFqns(cs)
    ensures Ascending(SortByFqn(cs))
  {
    if cs != [] {
      assert DistinctFqns(cs[1..]);
      SortAscends(cs[1..]);
      forall x | x in SortByFqn(cs[1..]) ensures x.fqn != cs[0].fqn {
        var j :| 0 <= j < |cs[1..]| && cs[1..][j] == x;
        assert x == cs[j + 1];
      }
      InsertAscends(cs[0], SortByFqn(cs[1..]));
    }
  }

  /** An ascending list is determined by its elements. */
  lemma {:induction false} AscendingIsUnique(a: seq<Claimant>, b: seq<Claimant>)
    requires Ascending(a) && Ascending(b) && forall x :: x in a <==> x in b
    ensures a == b
  {
    hide Less;
    if a != [] { assert a[0] in b; }
    if b != [] { assert b[0] in a; }
    if a != [] && b != [] {
      FirstIsLeast(a, b);
      FirstIsLeast(b, a);
      LessIsTotal(a[0].fqn, b[0].fqn);
      assert a[0] == b[0];
      forall x ensures x in a[1..] <==> x in b[1..] {
        TailElements(a, x);
        TailElements(b, x);
      }
      AscendingIsUnique(a[1..], b[1..]);
      assert a == [a[0]] + a[1..] && b == [b[0]] + b[1..];
    }
  }

  lemma FirstIsLeast(a: seq<Claimant>, b: seq<Claimant>)
    requires Ascending(a) && a != [] && b != [] && b[0] in a
    ensures a[0] == b[0] || Less(a[0].fqn, b[0].fqn)
  {
    hide Less;
    var i :| 0 <= i < |a| && a[i] == b[0];
  }

  lemma TailElements(a: seq<Claimant>, x: Claimant)
    requires Ascending(a) && a != []
    ensures x in a[1..] <==> x in a && x != a[0]
  {
    hide Less;
    assert a == [a[0]] + a[1..];
    if x in a[1..] {
      var i :| 0 <= i < |a[1..]| && a[1..][i] == x;
      assert a[i + 1] == x;
      LessIsTotal(a[0].fqn, x.fqn);
    }
  }

  // ---------------------------------------------------------------- claiming

  /** The names in use, and the name each type has been given, by its fully qualified proto name. */
  datatype Claims = Claims(taken: set<Id>, given: map<string, Id>)

  function Give(s: Claims, c: Claimant, text: string): Claims
  {
    Claims(s.taken + {Id(c.scope, text)}, s.given[c.fqn := Id(c.scope, text)])
  }

  /** Literal spellings are kept where they are free. */
  function KeepLiterals(s: Claims, cs: seq<Claimant>): Claims
  {
    if cs == [] then s
    else
      var before := KeepLiterals(s, cs[..|cs| - 1]);
      var c := cs[|cs| - 1];
      if Id(c.scope, c.raw) in before.taken then before else Give(before, c, c.raw)
  }

  /** The literals whose spelling was not free. */
  function Blocked(s: Claims, cs: seq<Claimant>): seq<Claimant>
  {
    if cs == [] then []
    else
      var before := KeepLiterals(s, cs[..|cs| - 1]);
      var c := cs[|cs| - 1];
      Blocked(s, cs[..|cs| - 1]) + if Id(c.scope, c.raw) in before.taken then [c] else []
  }

  ghost function GiveFree(reserved: set<string>, s: Claims, cs: seq<Claimant>): Claims
  {
    if cs == [] then s
    else
      var before := GiveFree(reserved, s, cs[..|cs| - 1]);
      var c := cs[|cs| - 1];
      Give(before, c, FirstFree(before.taken, c.scope, Sanitize(reserved, c.raw)))
  }

  predicate IsLiteral(reserved: set<string>, c: Claimant) { !IsReserved(reserved, c.raw) }

  function ClaimantsOf(reserved: set<string>, f: File): seq<Claimant>
  {
    seq(|f.decls|, i requires 0 <= i < |f.decls| => Claimant(f.decls[i].fqn, f.decls[i].raw, NamespaceOf(reserved, f.package)))
  }

  function AllClaimants(reserved: set<string>, files: seq<File>): seq<Claimant>
  {
    if files == [] then []
    else AllClaimants(reserved, files[..|files| - 1]) + ClaimantsOf(reserved, files[|files| - 1])
  }

  function Select(reserved: set<string>, cs: seq<Claimant>, literal: bool): (r: seq<Claimant>)
    ensures forall c :: c in r <==> c in cs && IsLiteral(reserved, c) == literal
  {
    if cs == [] then []
    else
      var n := |cs| - 1;
      assert cs == cs[..n] + [cs[n]];
      Select(reserved, cs[..n], literal) + if IsLiteral(reserved, cs[n]) == literal then [cs[n]] else []
  }

  /** The four groups one after another: components, literals, blocked literals, escapes. */
  ghost function Assigned(reserved: set<string>, taken: set<Id>, literals: seq<Claimant>, escapes: seq<Claimant>): Claims
  {
    var start := Claims(taken, map[]);
    GiveFree(reserved, GiveFree(reserved, KeepLiterals(start, literals), Blocked(start, literals)), escapes)
  }

  ghost function AssignedIn(reserved: set<string>, files: seq<File>): Claims
  {
    var cs := AllClaimants(reserved, files);
    Assigned(reserved, AllComponents(reserved, files),
             SortByFqn(Select(reserved, cs, true)), SortByFqn(Select(reserved, cs, false)))
  }

  // ---------------------------------------------------------------- ids never collide

  /** Names given are in use, in no package component's place, and no two types share one. */
  ghost predicate Apart(components: set<Id>, s: Claims)
  {
    && components <= s.taken
    && (forall n :: n in s.given ==> s.given[n] in s.taken && s.given[n] !in components)
    && (forall n, m :: n in s.given && m in s.given && n != m ==> s.given[n] != s.given[m])
  }

  lemma GiveKeepsApart(components: set<Id>, s: Claims, c: Claimant, text: string)
    requires Apart(components, s) && Id(c.scope, text) !in s.taken
    ensures Apart(components, Give(s, c, text))
  {
  }

  lemma {:induction false} LiteralsKeepApart(components: set<Id>, s: Claims, cs: seq<Claimant>)
    requires Apart(components, s)
    ensures Apart(components, KeepLiterals(s, cs))
  {
    hide Apart;
    if cs != [] {
      LiteralsKeepApart(components, s, cs[..|cs| - 1]);
      var before, c := KeepLiterals(s, cs[..|cs| - 1]), cs[|cs| - 1];
      if Id(c.scope, c.raw) !in before.taken {
        GiveKeepsApart(components, before, c, c.raw);
      }
    }
  }

  lemma {:induction false} FreeKeepsApart(reserved: set<string>, components: set<Id>, s: Claims, cs: seq<Claimant>)
    requires Apart(components, s)
    ensures Apart(components, GiveFree(reserved, s, cs))
  {
    hide Apart;
    if cs != [] {
      FreeKeepsApart(reserved, components, s, cs[..|cs| - 1]);
      var before, c := GiveFree(reserved, s, cs[..|cs| - 1]), cs[|cs| - 1];
      GiveKeepsApart(components, before, c, FirstFree(before.taken, c.scope, Sanitize(reserved, c.raw)));
    }
  }

  /** In every namespace the ids are pairwise distinct, and distinct from every child package. */
  lemma IdsAreApart(reserved: set<string>, files: seq<File>)
    ensures Apart(AllComponents(reserved, files), AssignedIn(reserved, files))
  {
    var components, cs := AllComponents(reserved, files), AllClaimants(reserved, files);
    var start, literals := Claims(components, map[]), SortByFqn(Select(reserved, cs, true));
    assert Apart(components, start);
    hide Apart;
    LiteralsKeepApart(components, start, literals);
    FreeKeepsApart(reserved, components, KeepLiterals(start, literals), Blocked(start, literals));
    FreeKeepsApart(reserved, components,
                   GiveFree(reserved, KeepLiterals(start, literals), Blocked(start, literals)),
                   SortByFqn(Select(reserved, cs, false)));
  }

  // ---------------------------------------------------------------- every type is named after itself

  /** The type has an id in its own namespace: its sanitized name, perhaps escalated. */
  ghost predicate NamedAfter(reserved: set<string>, s: Claims, c: Claimant)
  {
    && c.fqn in s.given && s.given[c.fqn].scope == c.scope
    && Escalates(Sanitize(reserved, c.raw), s.given[c.fqn].text)
  }

  lemma {:induction false} FreeNames(reserved: set<string>, s: Claims, cs: seq<Claimant>, c: Claimant)
    requires c in cs && DistinctFqns(cs)
    ensures NamedAfter(reserved, GiveFree(reserved, s, cs), c)
  {
    var n := |cs| - 1;
    if c != cs[n] {
      assert cs == cs[..n] + [cs[n]];
      assert c.fqn != cs[n].fqn by {
        var i :| 0 <= i < |cs| && cs[i] == c;
      }
      FreeNames(reserved, s, cs[..n], c);
    }
  }

  lemma {:induction false} FreeLeaves(reserved: set<string>, s: Claims, cs: seq<Claimant>, fqn: string)
    requires fqn in s.given && forall c :: c in cs ==> c.fqn != fqn
    ensures fqn in GiveFree(reserved, s, cs).given && GiveFree(reserved, s, cs).given[fqn] == s.given[fqn]
  {
    if cs != [] {
      var n := |cs| - 1;
      assert cs == cs[..n] + [cs[n]];
      FreeLeaves(reserved, s, cs[..n], fqn);
    }
  }

  /** A literal is either kept as it is spelled, or blocked. */
  lemma {:induction false} KeptOrBlocked(s: Claims, cs: seq<Claimant>, c: Claimant)
    requires c in cs && DistinctFqns(cs)
    ensures c in Blocked(s, cs) ||
            (c.fqn in KeepLiterals(s, cs).given && KeepLiterals(s, cs).given[c.fqn] == Id(c.scope, c.raw))
  {
    var n := |cs| - 1;
    if c != cs[n] {
      assert cs == cs[..n] + [cs[n]];
      assert c.fqn != cs[n].fqn by {
        var i :| 0 <= i < |cs| && cs[i] == c;
      }
      KeptOrBlocked(s, cs[..n], c);
    }
  }

  lemma {:induction false} BlockedAre(s: Claims, cs: seq<Claimant>)
    requires DistinctFqns(cs)
    ensures DistinctFqns(Blocked(s, cs)) && forall c :: c in Blocked(s, cs) ==> c in cs
  {
    if cs != [] {
      var n := |cs| - 1;
      BlockedAre(s, cs[..n]);
      assert cs == cs[..n] + [cs[n]];
      var b := Blocked(s, cs[..n]);
      forall i | 0 <= i < |b| ensures b[i].fqn != cs[n].fqn {
        assert b[i] in cs[..n];
      }
    }
  }

  /** A literal is blocked only by a name already in use, or by an equal literal before it. */
  lemma {:induction false} BlockedMeansTaken(s: Claims, cs: seq<Claimant>, c: Claimant)
    requires c in Blocked(s, cs) && Id(c.scope, c.raw) !in s.taken
    requires DistinctFqns(cs)
    ensures exists d :: d in cs && d != c && d.scope == c.scope && d.raw == c.raw
  {
    var n := |cs| - 1;
    assert cs == cs[..n] + [cs[n]];
    BlockedAre(s, cs);
    BlockedAre(s, cs[..n]);
    if c in Blocked(s, cs[..n]) {
      BlockedMeansTaken(s, cs[..n], c);
    } else {
      var d := TakenByLiteral(s, cs[..n], Id(c.scope, c.raw));
      assert d != c by {
        var i :| 0 <= i < n && cs[i] == d;
      }
    }
  }

  lemma {:induction false} TakenByLiteral(s: Claims, cs: seq<Claimant>, id: Id) returns (d: Claimant)
    requires id in KeepLiterals(s, cs).taken && id !in s.taken
    ensures d in cs && Id(d.scope, d.raw) == id
  {
    var n := |cs| - 1;
    assert cs == cs[..n] + [cs[n]];
    if id in KeepLiterals(s, cs[..n]).taken {
      d := TakenByLiteral(s, cs[..n], id);
    } else {
      d := cs[n];
    }
  }

  lemma AscendingIsDistinct(cs: seq<Claimant>)
    requires Ascending(cs)
    ensures DistinctFqns(cs)
  {
    forall i, j | 0 <= i < j < |cs| ensures cs[i].fqn != cs[j].fqn {
      LessIsTotal(cs[i].fqn, cs[j].fqn);
    }
  }

  /** Every type gets an id made from its own name. A name that needs no escape and meets neither a
    * package component nor an equal literal is kept exactly as it is spelled. */
  lemma EveryTypeIsNamed(reserved: set<string>, taken: set<Id>, literals: seq<Claimant>, escapes: seq<Claimant>, c: Claimant)
    requires Ascending(literals) && Ascending(escapes) && (c in literals || c in escapes)
    requires forall l, e :: l in literals && e in escapes ==> l.fqn != e.fqn
    requires forall l :: l in literals ==> IsLiteral(reserved, l)
    ensures NamedAfter(reserved, Assigned(reserved, taken, literals, escapes), c)
    ensures c in literals && Id(c.scope, c.raw) !in taken
            && (forall d :: d in literals && d != c ==> !(d.scope == c.scope && d.raw == c.raw)) ==>
              Assigned(reserved, taken, literals, escapes).given[c.fqn] == Id(c.scope, c.raw)
  {
    AscendingIsDistinct(literals);
    AscendingIsDistinct(escapes);
    var start := Claims(taken, map[]);
    var kept, blocked := KeepLiterals(start, literals), Blocked(start, literals);
    var middle := GiveFree(reserved, kept, blocked);
    BlockedAre(start, literals);
    if c in escapes {
      FreeNames(reserved, middle, escapes, c);
    } else {
      KeptOrBlocked(start, literals, c);
      if c in blocked {
        FreeNames(reserved, kept, blocked, c);
        FreeLeaves(reserved, middle, escapes, c.fqn);
        if Id(c.scope, c.raw) !in taken {
          BlockedMeansTaken(start, literals, c);
        }
      } else {
        NotInBlocked(literals, blocked, c);
        FreeLeaves(reserved, kept, blocked, c.fqn);
        FreeLeaves(reserved, middle, escapes, c.fqn);
      }
    }
  }

  lemma NotInBlocked(literals: seq<Claimant>, blocked: seq<Claimant>, c: Claimant)
    requires DistinctFqns(literals) && c in literals && c !in blocked && forall b :: b in blocked ==> b in literals
    ensures forall b :: b in blocked ==> b.fqn != c.fqn
  {
    forall b | b in blocked ensures b.fqn != c.fqn {
      var i :| 0 <= i < |literals| && literals[i] == b;
      var j :| 0 <= j < |literals| && literals[j] == c;
    }
  }

  // ---------------------------------------------------------------- ids and reserved names

  /** A name of the generator's own, by its prefix, or one of the reserved words. */
  predicate Forbidden(reserved: set<string>, name: string)
  {
    || (|name| >= 3 && (name[..3] == "rp_" || name[..3] == "RP_"))
    || name in reserved
  }

  /** The id is no forbidden name, or it ends in an underscore, which none of the generator's own names does. */
  predicate Safe(reserved: set<string>, text: string)
  {
    Forbidden(reserved, text) ==> text != "" && text[|text| - 1] == '_'
  }

  lemma ForbiddenIsReserved(reserved: set<string>, name: string)
    ensures Forbidden(reserved, name) <==> IsReserved(reserved, name)
  {
    if "rp_" <= name || "RP_" <= name {
      assert name[..3] == "rp_" || name[..3] == "RP_";
    }
  }

  /** A forbidden name, of a type, a member or a package component, takes one underscore, and any other none. */
  lemma SanitizeMeans(reserved: set<string>, name: string)
    ensures Sanitize(reserved, name) == if Forbidden(reserved, name) then name + "_" else name
    ensures Safe(reserved, Sanitize(reserved, name))
  {
    ForbiddenIsReserved(reserved, name);
  }

  /** Whatever is made from a name by escaping and escalating it is safe. */
  lemma EscalatedIsSafe(reserved: set<string>, raw: string, text: string)
    requires Escalates(Sanitize(reserved, raw), text)
    ensures Safe(reserved, text)
  {
    ForbiddenIsReserved(reserved, raw);
    if |text| == |Sanitize(reserved, raw)| {
      assert text == Sanitize(reserved, raw);
    }
  }

  // ---------------------------------------------------------------- the order of files does not matter

  lemma {:induction false} ClaimantsWithout(reserved: set<string>, files: seq<File>, k: nat)
    requires k < |files|
    ensures multiset(AllClaimants(reserved, files))
         == multiset(AllClaimants(reserved, files[..k] + files[k + 1..])) + multiset(ClaimantsOf(reserved, files[k]))
    decreases |files|
  {
    hide ClaimantsOf, AllClaimants;
    var n := |files| - 1;
    var rest := files[..k] + files[k + 1..];
    LastFile(reserved, files);
    if k == n {
      assert rest == files[..n];
    } else {
      ClaimantsWithout(reserved, files[..n], k);
      LastFile(reserved, rest);
      assert rest[..|rest| - 1] == files[..n][..k] + files[..n][k + 1..];
      assert rest[|rest| - 1] == files[n] && files[..n][k] == files[k];
    }
  }

  lemma LastFile(reserved: set<string>, files: seq<File>)
    requires files != []
    ensures multiset(AllClaimants(reserved, files))
         == multiset(AllClaimants(reserved, files[..|files| - 1])) + multiset(ClaimantsOf(reserved, files[|files| - 1]))
  {
    hide ClaimantsOf;
  }

  lemma {:induction false} ClaimantsPermute(reserved: set<string>, files: seq<File>, other: seq<File>)
    requires multiset(files) == multiset(other)
    ensures multiset(AllClaimants(reserved, files)) == multiset(AllClaimants(reserved, other))
    decreases |files|
  {
    hide ClaimantsOf;
    if files == [] {
      assert |multiset(other)| == 0;
    } else {
      var n := |files| - 1;
      var f := files[n];
      assert f in multiset(other);
      var k :| 0 <= k < |other| && other[k] == f;
      var rest := other[..k] + other[k + 1..];
      assert files == files[..n] + [f];
      assert other == other[..k] + [f] + other[k + 1..];
      assert multiset(files[..n]) == multiset(files) - multiset{f} == multiset(rest);
      ClaimantsPermute(reserved, files[..n], rest);
      ClaimantsWithout(reserved, other, k);
    }
  }

  lemma DistinctPermutes(a: seq<Claimant>, b: seq<Claimant>)
    requires multiset(a) == multiset(b) && DistinctFqns(a)
    ensures DistinctFqns(b)
  {
    forall i, j | 0 <= i < j < |b| ensures b[i].fqn != b[j].fqn {
      assert b[i] in multiset(a) && b[j] in multiset(a);
      var p :| 0 <= p < |a| && a[p] == b[i];
      var q :| 0 <= q < |a| && a[q] == b[j];
      if p == q {
        OccursTwice(b, i, j);
        assert forall x, y :: 0 <= x < y < |a| ==> a[x] != a[y];
        OccursOnce(a, p);
      }
    }
  }

  lemma OccursTwice(b: seq<Claimant>, i: nat, j: nat)
    requires i < j < |b| && b[i] == b[j]
    ensures multiset(b)[b[i]] >= 2
  {
    assert b == b[..i] + [b[i]] + b[i + 1..j] + [b[j]] + b[j + 1..];
  }

  lemma ComponentsPermute(reserved: set<string>, files: seq<File>, other: seq<File>)
    requires multiset(files) == multiset(other)
    ensures AllComponents(reserved, files) == AllComponents(reserved, other)
  {
    forall id ensures id in AllComponents(reserved, files) <==> id in AllComponents(reserved, other) {
      ComponentsAre(reserved, files, id);
      ComponentsAre(reserved, other, id);
      assert forall f :: f in files <==> f in multiset(files);
      assert forall f :: f in other <==> f in multiset(other);
    }
  }

  lemma {:induction false} SelectIsDistinct(reserved: set<string>, cs: seq<Claimant>, literal: bool)
    requires DistinctFqns(cs)
    ensures DistinctFqns(Select(reserved, cs, literal))
  {
    hide IsLiteral;
    if cs != [] {
      var n := |cs| - 1;
      SelectIsDistinct(reserved, cs[..n], literal);
      var r := Select(reserved, cs[..n], literal);
      forall i | 0 <= i < |r| ensures r[i].fqn != cs[n].fqn {
        assert r[i] in cs[..n];
      }
    }
  }

  lemma SortedSelectPermutes(reserved: set<string>, a: seq<Claimant>, b: seq<Claimant>, literal: bool)
    requires multiset(a) == multiset(b) && DistinctFqns(a) && DistinctFqns(b)
    ensures SortByFqn(Select(reserved, a, literal)) == SortByFqn(Select(reserved, b, literal))
  {
    SelectIsDistinct(reserved, a, literal);
    SelectIsDistinct(reserved, b, literal);
    var x, y := SortByFqn(Select(reserved, a, literal)), SortByFqn(Select(reserved, b, literal));
    SortAscends(Select(reserved, a, literal));
    SortAscends(Select(reserved, b, literal));
    forall c ensures c in x <==> c in y {
      assert c in a <==> c in multiset(a);
      assert c in b <==> c in multiset(b);
    }
    AscendingIsUnique(x, y);
  }

  /** With unique fully qualified names, the whole assignment is the same for any order of the files. */
  lemma FileOrderIsIrrelevant(reserved: set<string>, files: seq<File>, other: seq<File>)
    requires multiset(files) == multiset(other) && DistinctFqns(AllClaimants(reserved, files))
    ensures AssignedIn(reserved, files) == AssignedIn(reserved, other)
  {
    hide Assigned, Select, SortByFqn;
    var a, b := AllClaimants(reserved, files), AllClaimants(reserved, other);
    ClaimantsPermute(reserved, files, other);
    DistinctPermutes(a, b);
    ComponentsPermute(reserved, files, other);
    SortedSelectPermutes(reserved, a, b, true);
    SortedSelectPermutes(reserved, a, b, false);
  }

  // ---------------------------------------------------------------- the pass itself

  method Keep(start: Claims, literals: seq<Claimant>) returns (s: Claims, blocked: seq<Claimant>)
    ensures s == KeepLiterals(start, literals) && blocked == Blocked(start, literals)
  {
    s, blocked := start, [];
    var i := 0;
    while i < |literals|
      invariant 0 <= i <= |literals|
      invariant s == KeepLiterals(start, literals[..i]) && blocked == Blocked(start, literals[..i])
    {
      assert literals[..i + 1][..i] == literals[..i];
      var c := literals[i];
      if Id(c.scope, c.raw) in s.taken {
        blocked := blocked + [c];
      } else {
        s := Give(s, c, c.raw);
      }
      i := i + 1;
    }
    assert literals[..|literals|] == literals;
  }

  method GiveAll(reserved: set<string>, start: Claims, group: seq<Claimant>) returns (s: Claims)
    ensures s == GiveFree(reserved, start, group)
  {
    s := start;
    var i := 0;
    while i < |group|
      invariant 0 <= i <= |group|
      invariant s == GiveFree(reserved, start, group[..i])
    {
      assert group[..i + 1][..i] == group[..i];
      var text := Escalate(s.taken, group[i].scope, Sanitize(reserved, group[i].raw));
      s := Give(s, group[i], text);
      i := i + 1;
    }
    assert group[..|group|] == group;
  }

  /** Claims every namespace-scope name of the file set, in the four groups. */
  method ClaimToplevelIds(reserved: set<string>, files: seq<File>) returns (given: map<string, Id>)
    requires DistinctFqns(AllClaimants(reserved, files))
    ensures given == AssignedIn(reserved, files).given
    ensures forall n, m :: n in given && m in given && n != m ==> given[n] != given[m]
    ensures forall n :: n in given ==> given[n] !in AllComponents(reserved, files)
    ensures forall c :: c in AllClaimants(reserved, files) ==> NamedAfter(reserved, Claims({}, given), c)
    ensures forall c :: c in AllClaimants(reserved, files) ==> c.fqn in given && Safe(reserved, given[c.fqn].text)
    ensures forall c :: c in AllClaimants(reserved, files) && !Forbidden(reserved, c.raw)
                        && Id(c.scope, c.raw) !in AllComponents(reserved, files) && Unrivalled(reserved, files, c) ==>
              c.fqn in given && given[c.fqn] == Id(c.scope, c.raw)
  {
    hide ClaimantsOf, ComponentIds, NamedAfter, Forbidden, Safe, Unrivalled;
    var taken := {};
    var claimants: seq<Claimant> := [];
    var i := 0;
    while i < |files|
      invariant 0 <= i <= |files|
      invariant taken == AllComponents(reserved, files[..i])
      invariant claimants == AllClaimants(reserved, files[..i])
    {
      assert files[..i + 1][..i] == files[..i];
      taken := ClaimPackageComponents(reserved, files[i].package, taken);
      claimants := claimants + ClaimantsOf(reserved, files[i]);
      i := i + 1;
    }
    assert files[..|files|] == files;
    var literals := SortByFqn(Select(reserved, claimants, true));
    var escapes := SortByFqn(Select(reserved, claimants, false));
    var kept, blocked := Keep(Claims(taken, map[]), literals);
    var middle := GiveAll(reserved, kept, blocked);
    var end := GiveAll(reserved, middle, escapes);
    given := end.given;
    IdsAreApart(reserved, files);
    AllAreNamed(reserved, files);
    forall c | c in AllClaimants(reserved, files) ensures c.fqn in given && Safe(reserved, given[c.fqn].text) {
      NamedIsSafe(reserved, Claims({}, given), c);
    }
    KeptAsSpelled(reserved, files);
  }

  lemma NamedIsSafe(reserved: set<string>, s: Claims, c: Claimant)
    requires NamedAfter(reserved, s, c)
    ensures c.fqn in s.given && Safe(reserved, s.given[c.fqn].text)
  {
    EscalatedIsSafe(reserved, c.raw, s.given[c.fqn].text);
  }

  /** No other type of the same namespace is spelled the same. */
  ghost predicate Unrivalled(reserved: set<string>, files: seq<File>, c: Claimant)
  {
    forall d :: d in AllClaimants(reserved, files) && d != c ==> !(d.scope == c.scope && d.raw == c.raw)
  }

  /** A name that is not forbidden, names no child package and has no rival is kept exactly. */
  lemma KeptAsSpelled(reserved: set<string>, files: seq<File>)
    requires DistinctFqns(AllClaimants(reserved, files))
    ensures forall c :: c in AllClaimants(reserved, files) && !Forbidden(reserved, c.raw)
                        && Id(c.scope, c.raw) !in AllComponents(reserved, files) && Unrivalled(reserved, files, c) ==>
              c.fqn in AssignedIn(reserved, files).given && AssignedIn(reserved, files).given[c.fqn] == Id(c.scope, c.raw)
  {
    hide Forbidden;
    var cs := AllClaimants(reserved, files);
    var literals, escapes := Select(reserved, cs, true), Select(reserved, cs, false);
    SelectIsDistinct(reserved, cs, true);
    SelectIsDistinct(reserved, cs, false);
    SortAscends(literals);
    SortAscends(escapes);
    forall l, e | l in literals && e in escapes ensures l.fqn != e.fqn {
      var i :| 0 <= i < |cs| && cs[i] == l;
      var j :| 0 <= j < |cs| && cs[j] == e;
    }
    forall c | c in cs && !Forbidden(reserved, c.raw) && Id(c.scope, c.raw) !in AllComponents(reserved, files)
               && Unrivalled(reserved, files, c)
      ensures c.fqn in AssignedIn(reserved, files).given && AssignedIn(reserved, files).given[c.fqn] == Id(c.scope, c.raw)
    {
      ForbiddenIsReserved(reserved, c.raw);
      EveryTypeIsNamed(reserved, AllComponents(reserved, files), SortByFqn(literals), SortByFqn(escapes), c);
    }
  }

  lemma AllAreNamed(reserved: set<string>, files: seq<File>)
    requires DistinctFqns(AllClaimants(reserved, files))
    ensures forall c :: c in AllClaimants(reserved, files) ==>
              NamedAfter(reserved, Claims({}, AssignedIn(reserved, files).given), c)
  {
    var cs := AllClaimants(reserved, files);
    var literals, escapes := Select(reserved, cs, true), Select(reserved, cs, false);
    SelectIsDistinct(reserved, cs, true);
    SelectIsDistinct(reserved, cs, false);
    SortAscends(literals);
    SortAscends(escapes);
    forall l, e | l in literals && e in escapes ensures l.fqn != e.fqn {
      var i :| 0 <= i < |cs| && cs[i] == l;
      var j :| 0 <= j < |cs| && cs[j] == e;
    }
    forall c | c in cs ensures NamedAfter(reserved, Claims({}, AssignedIn(reserved, files).given), c) {
      EveryTypeIsNamed(reserved, AllComponents(reserved, files), SortByFqn(literals), SortByFqn(escapes), c);
    }
  }

  // ---------------------------------------------------------------- members of a class

  // A message's members in the order they are named: enums, nested messages, then fields, oneofs with
  // their fields, and maps.
  datatype Message = Message(name: string, enums: seq<string>, nested: seq<Message>, others: seq<string>)

  // The ids given: the class's own, and its members'.
  datatype Named = Named(id: string, enums: seq<string>, nested: seq<Named>, others: seq<string>)

  function NestedIds(nested: seq<Named>): (r: seq<string>)
    ensures |r| == |nested| && forall i :: 0 <= i < |r| ==> r[i] == nested[i].id
  {
    seq(|nested|, i requires 0 <= i < |nested| => nested[i].id)
  }

  function NestedNames(nested: seq<Message>): (r: seq<string>)
    ensures |r| == |nested| && forall i :: 0 <= i < |r| ==> r[i] == nested[i].name
  {
    seq(|nested|, i requires 0 <= i < |nested| => nested[i].name)
  }

  ghost predicate AllDistinct(ids: seq<string>)
  {
    forall i, j :: 0 <= i < j < |ids| ==> ids[i] != ids[j]
  }

  ghost predicate AllEscalate(reserved: set<string>, names: seq<string>, ids: seq<string>)
  {
    |names| == |ids| && forall i :: 0 <= i < |ids| ==> Escalates(Sanitize(reserved, names[i]), ids[i])
  }

  predicate AllSafe(reserved: set<string>, ids: seq<string>)
  {
    forall i :: 0 <= i < |ids| ==> Safe(reserved, ids[i])
  }

  /** In this class and every class inside it, no two members share an id, none has the id of its class,
    * none is a reserved name, and each id is made from the member's own name. */
  ghost predicate Unambiguous(reserved: set<string>, m: Message, n: Named)
    decreases m
  {
    && AllDistinct([n.id] + n.enums + NestedIds(n.nested) + n.others)
    && AllEscalate(reserved, m.enums, n.enums) && AllEscalate(reserved, m.others, n.others)
    && AllEscalate(reserved, NestedNames(m.nested), NestedIds(n.nested))
    && AllSafe(reserved, n.enums) && AllSafe(reserved, n.others) && AllSafe(reserved, NestedIds(n.nested))
    && forall k :: 0 <= k < |m.nested| ==> Unambiguous(reserved, m.nested[k], n.nested[k])
  }

  /** Names the members of a class whose own id is settled, then those of each nested class. */
  method IndexMessage(reserved: set<string>, m: Message, id: string) returns (n: Named)
    ensures n.id == id && Unambiguous(reserved, m, n)
    decreases m
  {
    hide Safe, Forbidden, Escalates, Sanitize;
    var enums, taken := AssignIds(reserved, {id}, m.enums);
    var nestedIds, taken' := AssignIds(reserved, taken, NestedNames(m.nested));
    var others, _ := AssignIds(reserved, taken', m.others);
    var nested: seq<Named> := [];
    while |nested| < |m.nested|
      invariant |nested| <= |m.nested|
      invariant forall k :: 0 <= k < |nested| ==>
                  nested[k].id == nestedIds[k] && Unambiguous(reserved, m.nested[k], nested[k])
    {
      var child := IndexMessage(reserved, m.nested[|nested|], nestedIds[|nested|]);
      nested := nested + [child];
    }
    n := Named(id, enums, nested, others);
    assert NestedIds(nested) == nestedIds;
    JoinDistinct(id, enums, nestedIds, others);
  }

  lemma JoinDistinct(id: string, a: seq<string>, b: seq<string>, c: seq<string>)
    requires AllDistinct(a) && AllDistinct(b) && AllDistinct(c)
    requires forall i :: 0 <= i < |a| ==> a[i] != id
    requires forall i :: 0 <= i < |b| ==> b[i] != id && b[i] !in a
    requires forall i :: 0 <= i < |c| ==> c[i] != id && c[i] !in a && c[i] !in b
    ensures AllDistinct([id] + a + b + c)
  {
    var ab := a + b;
    assert AllDistinct(ab);
    assert AllDistinct(ab + c);
    assert [id] + a + b + c == [id] + (ab + c);
  }

  lemma FreeIsKept(reserved: set<string>, all: set<string>, name: string, id: string)
    requires id == FirstFree(set t | t in all :: Id([], t), [], Sanitize(reserved, name)) && !Forbidden(reserved, name)
    ensures name !in all ==> id == name
  {
    ForbiddenIsReserved(reserved, name);
    assert name !in all ==> Id([], name) !in set t | t in all :: Id([], t);
  }

  /** The ids given so far: made from the names, new, distinct, safe, and kept as spelled where they can be. */
  ghost predicate Assigning(reserved: set<string>, taken: set<string>, names: seq<string>, ids: seq<string>, all: set<string>)
  {
    && |ids| <= |names| && (forall i :: 0 <= i < |ids| ==> Escalates(Sanitize(reserved, names[i]), ids[i]))
    && AllSafe(reserved, ids) && AllDistinct(ids)
    && (forall i :: 0 <= i < |ids| ==> ids[i] !in taken)
    && (forall i :: 0 <= i < |ids| && !Forbidden(reserved, names[i]) && names[i] !in taken && names[i] !in ids[..i] ==>
          ids[i] == names[i])
    && all == taken + (set i | 0 <= i < |ids| :: ids[i])
  }

  lemma OneMoreId(reserved: set<string>, taken: set<string>, names: seq<string>, ids: seq<string>, all: set<string>, id: string)
    requires Assigning(reserved, taken, names, ids, all) && |ids| < |names|
    requires Escalates(Sanitize(reserved, names[|ids|]), id) && Safe(reserved, id) && id !in all
    requires !Forbidden(reserved, names[|ids|]) && names[|ids|] !in all ==> id == names[|ids|]
    ensures Assigning(reserved, taken, names, ids + [id], all + {id})
  {
    hide Safe, Forbidden, Escalates, Sanitize;
    var k, more := |ids|, ids + [id];
    assert forall i :: 0 <= i < k ==> more[i] == ids[i] && more[..i] == ids[..i];
    assert more[..k] == ids;
    assert forall x :: x in ids ==> x in all;
    forall i | 0 <= i < |more| && !Forbidden(reserved, names[i]) && names[i] !in taken && names[i] !in more[..i]
      ensures more[i] == names[i]
    {
      if i == k {
        assert names[k] !in all;
      }
    }
    assert (set i | 0 <= i < |more| :: more[i]) == (set i | 0 <= i < |ids| :: ids[i]) + {id} by {
      assert more[k] == id;
      forall i | 0 <= i < k ensures ids[i] == more[i] {
      }
    }
  }

  /** Each id is the member's sanitized name, perhaps escalated, and new; a name that is free and not forbidden is kept. */
  method AssignIds(reserved: set<string>, taken: set<string>, names: seq<string>) returns (ids: seq<string>, all: set<string>)
    ensures AllEscalate(reserved, names, ids) && AllDistinct(ids) && AllSafe(reserved, ids)
    ensures forall i :: 0 <= i < |ids| ==> ids[i] !in taken
    ensures forall i :: 0 <= i < |ids| && !Forbidden(reserved, names[i]) && names[i] !in taken && names[i] !in ids[..i] ==>
              ids[i] == names[i]
    ensures all == taken + set i | 0 <= i < |ids| :: ids[i]
  {
    hide Safe, Forbidden, Escalates, Sanitize;
    ids, all := [], taken;
    while |ids| < |names|
      invariant Assigning(reserved, taken, names, ids, all)
    {
      hide Assigning;
      var id := Escalate(set t | t in all :: Id([], t), [], Sanitize(reserved, names[|ids|]));
      NewId(reserved, all, names[|ids|], id);
      OneMoreId(reserved, taken, names, ids, all, id);
      ids := ids + [id];
      all := all + {id};
    }
  }

  lemma NewId(reserved: set<string>, all: set<string>, name: string, id: string)
    requires id == FirstFree(set t | t in all :: Id([], t), [], Sanitize(reserved, name))
    ensures id !in all && Escalates(Sanitize(reserved, name), id) && Safe(reserved, id)
    ensures !Forbidden(reserved, name) && name !in all ==> id == name
  {
    assert Id([], id) !in set t | t in all :: Id([], t);
    EscalatedIsSafe(reserved, name, id);
    if !Forbidden(reserved, name) {
      FreeIsKept(reserved, all, name, id);
    }
  }
}
