/** The flatten budget: an iterative post-order walk that breaks every cycle of inlining and bounds its cost. */
module Flatten {
  import opened Basics

  /** targets[u]: the messages whose decoders message u would inline, in member order, repeats kept. */
  type Graph = seq<seq<nat>>

  ghost predicate IsGraph(g: Graph) {
    forall u, k :: 0 <= u < |g| && 0 <= k < |g[u]| ==> g[u][k] < |g|
  }

  // ---- costs ---------------------------------------------------------------------------------

  /** Saturating addition. */
  function AddCost(cost: nat, more: nat): nat
    requires cost <= SIZE_MAX && more <= SIZE_MAX
  {
    if cost > SIZE_MAX - more then SIZE_MAX else cost + more
  }

  function Sum(ts: seq<nat>, noinline: seq<bool>, cost: seq<nat>): nat
    requires |noinline| == |cost| && forall k :: 0 <= k < |ts| ==> ts[k] < |cost|
  {
    if ts == [] then 0 else
      var last := ts[|ts| - 1];
      Sum(ts[..|ts| - 1], noinline, cost) + if noinline[last] then 0 else cost[last]
  }

  function Min(a: nat, b: nat): nat { if a < b then a else b }

  /** Own arms plus everything still inlined, saturating. */
  function CostOf(own: nat, ts: seq<nat>, noinline: seq<bool>, cost: seq<nat>): nat
    requires |noinline| == |cost| && forall k :: 0 <= k < |ts| ==> ts[k] < |cost|
  {
    Min(SIZE_MAX, own + Sum(ts, noinline, cost))
  }

  predicate InlinesAny(ts: seq<nat>, noinline: seq<bool>)
    requires forall k :: 0 <= k < |ts| ==> ts[k] < |noinline|
  {
    exists k :: 0 <= k < |ts| && !noinline[ts[k]]
  }

  // ---- the state of the walk -----------------------------------------------------------------

  datatype Visit = Unvisited | InProgress | Settled

  datatype Frame = Frame(node: nat, settle: bool)

  ghost predicate IsPath(g: Graph, p: seq<nat>) {
    && |p| >= 1
    && (forall i :: 0 <= i < |p| ==> p[i] < |g|)
    && (forall i :: 0 <= i < |p| - 1 ==> p[i + 1] in g[p[i]])
  }

  ghost predicate Reach(g: Graph, a: nat, b: nat) {
    exists p :: IsPath(g, p) && p[0] == a && p[|p| - 1] == b
  }

  ghost predicate OnCycle(g: Graph, a: nat) {
    exists p :: IsPath(g, p) && |p| >= 2 && p[0] == a && p[|p| - 1] == a
  }

  ghost predicate StackShape(n: nat, seen: seq<Visit>, stack: seq<Frame>) {
    && |seen| == n
    && (forall i :: 0 <= i < |stack| ==> stack[i].node < n)
    && (forall i :: 0 <= i < |stack| && stack[i].settle ==> seen[stack[i].node] == InProgress)
    && (forall i, j :: 0 <= i < j < |stack| && stack[i].settle && stack[j].settle ==> stack[i].node != stack[j].node)
    && (forall u :: 0 <= u < n && seen[u] == InProgress ==> Frame(u, true) in stack)
  }

  /** A pending visit of a message in progress lies below that message's settle frame. */
  ghost predicate Pending(seen: seq<Visit>, stack: seq<Frame>)
    requires forall i :: 0 <= i < |stack| ==> stack[i].node < |seen|
  {
    forall i :: 0 <= i < |stack| && !stack[i].settle && seen[stack[i].node] == InProgress ==>
      Above(stack, i, stack[i].node)
  }

  /** Some frame above position i is for message t. */
  ghost predicate Above(stack: seq<Frame>, i: int, t: nat) {
    exists j :: i < j < |stack| && 0 <= j && stack[j].node == t
  }

  /** What a message in progress still has to account for is marked, settled, or above its settle frame. */
  ghost predicate Covered(g: Graph, seen: seq<Visit>, stack: seq<Frame>, noinline: seq<bool>)
    requires IsGraph(g) && |seen| == |noinline| == |g|
    requires forall i :: 0 <= i < |stack| ==> stack[i].node < |g|
  {
    forall i, t :: 0 <= i < |stack| && stack[i].settle && t in g[stack[i].node] ==>
      noinline[t] || seen[t] == Settled || Above(stack, i, t)
  }

  /** Every frame is reachable from every message in progress below it. */
  ghost predicate Chained(g: Graph, stack: seq<Frame>) {
    forall i, j :: 0 <= i < j < |stack| && stack[i].settle ==> Reach(g, stack[i].node, stack[j].node)
  }

  /** order lists the settled messages once each, every unmarked target before its message. */
  ghost predicate Ordered(g: Graph, seen: seq<Visit>, noinline: seq<bool>, order: seq<nat>)
    requires IsGraph(g) && |seen| == |noinline| == |g|
  {
    && (forall k :: 0 <= k < |order| ==> order[k] < |g| && seen[order[k]] == Settled)
    && (forall u :: 0 <= u < |g| && seen[u] == Settled ==> u in order)
    && (forall k, m :: 0 <= k < m < |order| ==> order[k] != order[m])
    && (forall k, t :: 0 <= k < |order| && t in g[order[k]] ==> noinline[t] || t in order[..k])
  }

  /** Costs and marks of the settled messages are final. */
  ghost predicate Priced(g: Graph, own: seq<nat>, budget: nat, noinline: seq<bool>, cost: seq<nat>,
                         back: set<nat>, order: seq<nat>)
    requires IsGraph(g) && |own| == |cost| == |noinline| == |g|
    requires forall k :: 0 <= k < |order| ==> order[k] < |g|
  {
    && (forall b :: b in back ==> b < |g| && noinline[b] && OnCycle(g, b))
    && (forall u :: 0 <= u < |g| && u !in order && noinline[u] ==> u in back)
    && (forall k :: 0 <= k < |order| ==>
          var u := order[k];
          && cost[u] == CostOf(own[u], g[u], noinline, cost)
          && (noinline[u] <==> u in back || (cost[u] > budget && InlinesAny(g[u], noinline))))
  }

  // ---- what each step keeps ------------------------------------------------------------------

  lemma ReachSelf(g: Graph, a: nat)
    requires a < |g|
    ensures Reach(g, a, a)
  {
    assert IsPath(g, [a]);
  }

  lemma ReachStep(g: Graph, a: nat, b: nat, c: nat)
    requires Reach(g, a, b) && b < |g| && c in g[b] && c < |g|
    ensures Reach(g, a, c)
    ensures a == c ==> OnCycle(g, a)
  {
    var p :| IsPath(g, p) && p[0] == a && p[|p| - 1] == b;
    var q := p + [c];
    assert IsPath(g, q) && q[0] == a && q[|q| - 1] == c;
  }

  /** A sum and a verdict depend only on the marks of the targets and the costs of the unmarked ones. */
  lemma {:induction false} SumSame(ts: seq<nat>, m: seq<bool>, c: seq<nat>, m': seq<bool>, c': seq<nat>)
    requires |m| == |c| == |m'| == |c'| && forall k :: 0 <= k < |ts| ==> ts[k] < |c|
    requires forall k :: 0 <= k < |ts| ==> m[ts[k]] == m'[ts[k]] && (m[ts[k]] || c[ts[k]] == c'[ts[k]])
    ensures Sum(ts, m, c) == Sum(ts, m', c')
    ensures InlinesAny(ts, m) == InlinesAny(ts, m')
  {
    if ts != [] {
      SumSame(ts[..|ts| - 1], m, c, m', c');
    }
  }

  /** Everything the walk keeps between two steps. */
  ghost predicate Walk(g: Graph, seen: seq<Visit>, stack: seq<Frame>, noinline: seq<bool>) {
    && IsGraph(g) && |seen| == |noinline| == |g|
    && StackShape(|g|, seen, stack) && Pending(seen, stack) && Covered(g, seen, stack, noinline) && Chained(g, stack)
  }

  /** The frames pushed and the marks set by expanding targets ts. */
  ghost predicate Expanded(ts: seq<nat>, seen: seq<Visit>, ext: seq<Frame>, noinline: seq<bool>, noinline': seq<bool>)
    requires |seen| == |noinline| == |noinline'|
    requires forall k :: 0 <= k < |ts| ==> ts[k] < |seen|
  {
    && (forall f :: f in ext ==> !f.settle && f.node in ts && f.node < |seen| && seen[f.node] == Unvisited)
    && (forall t :: t in ts && seen[t] == Unvisited ==> Frame(t, false) in ext)
    && (forall t :: 0 <= t < |seen| ==> (noinline'[t] <==> noinline[t] || (t in ts && seen[t] == InProgress)))
  }

  /** One visit: the top frame's message goes in progress, its settle frame and its expansion are pushed. */
  ghost predicate VisitStep(g: Graph, seen: seq<Visit>, stack: seq<Frame>, noinline: seq<bool>,
                            seen': seq<Visit>, stack': seq<Frame>, noinline': seq<bool>, ext: seq<Frame>)
  {
    && Walk(g, seen, stack, noinline) && |stack| > 0 && |noinline'| == |g|
    && var u := stack[|stack| - 1].node;
       && !stack[|stack| - 1].settle && seen[u] == Unvisited
       && seen' == seen[u := InProgress]
       && stack' == stack[..|stack| - 1] + [Frame(u, true)] + ext
       && Expanded(g[u], seen', ext, noinline, noinline')
  }

  lemma VisitKeepsAbove(g: Graph, seen: seq<Visit>, stack: seq<Frame>, noinline: seq<bool>,
                        seen': seq<Visit>, stack': seq<Frame>, noinline': seq<bool>, ext: seq<Frame>, i: nat, t: nat)
    requires VisitStep(g, seen, stack, noinline, seen', stack', noinline', ext)
    requires i < |stack| - 1 && Above(stack, i, t)
    ensures Above(stack', i, t)
  {
    var j :| i < j < |stack| && 0 <= j && stack[j].node == t;
    assert stack'[j].node == t;
  }

  lemma VisitFrames(g: Graph, seen: seq<Visit>, stack: seq<Frame>, noinline: seq<bool>,
                    seen': seq<Visit>, stack': seq<Frame>, noinline': seq<bool>, ext: seq<Frame>)
    requires VisitStep(g, seen, stack, noinline, seen', stack', noinline', ext)
    ensures var last := |stack| - 1;
            && |stack'| == |stack| + |ext|
            && (forall i :: 0 <= i < last ==> stack'[i] == stack[i])
            && stack'[last] == Frame(stack[last].node, true)
            && (forall i :: last < i < |stack'| ==> stack'[i] in ext && stack'[i] == ext[i - last - 1])
            && (forall i :: last < i < |stack'| ==> !stack'[i].settle && stack'[i].node < |g| && seen'[stack'[i].node] == Unvisited
                                                    && stack'[i].node in g[stack[last].node])
  {
  }

  lemma VisitShape(g: Graph, seen: seq<Visit>, stack: seq<Frame>, noinline: seq<bool>,
                   seen': seq<Visit>, stack': seq<Frame>, noinline': seq<bool>, ext: seq<Frame>)
    requires VisitStep(g, seen, stack, noinline, seen', stack', noinline', ext)
    ensures StackShape(|g|, seen', stack')
  {
    VisitFrames(g, seen, stack, noinline, seen', stack', noinline', ext);
    hide Pending, Covered, Chained, Expanded;
    var last := |stack| - 1;
    forall v | 0 <= v < |g| && seen'[v] == InProgress ensures Frame(v, true) in stack' {
      if v == stack[last].node {
        assert stack'[last] == Frame(v, true);
      } else {
        var i :| 0 <= i < |stack| && stack[i] == Frame(v, true);
        assert stack'[i] == Frame(v, true);
      }
    }
  }

  lemma VisitPending(g: Graph, seen: seq<Visit>, stack: seq<Frame>, noinline: seq<bool>,
                     seen': seq<Visit>, stack': seq<Frame>, noinline': seq<bool>, ext: seq<Frame>)
    requires VisitStep(g, seen, stack, noinline, seen', stack', noinline', ext) && StackShape(|g|, seen', stack')
    ensures Pending(seen', stack')
  {
    VisitFrames(g, seen, stack, noinline, seen', stack', noinline', ext);
    hide Covered, Chained, Expanded;
    var last := |stack| - 1;
    forall i | 0 <= i < |stack'| && !stack'[i].settle && seen'[stack'[i].node] == InProgress
      ensures Above(stack', i, stack'[i].node)
    {
      if stack'[i].node == stack[last].node {
        assert stack'[last].node == stack'[i].node;
      } else {
        VisitKeepsAbove(g, seen, stack, noinline, seen', stack', noinline', ext, i, stack'[i].node);
      }
    }
  }

  lemma VisitCovered(g: Graph, seen: seq<Visit>, stack: seq<Frame>, noinline: seq<bool>,
                     seen': seq<Visit>, stack': seq<Frame>, noinline': seq<bool>, ext: seq<Frame>)
    requires VisitStep(g, seen, stack, noinline, seen', stack', noinline', ext) && StackShape(|g|, seen', stack')
    ensures Covered(g, seen', stack', noinline')
  {
    VisitFrames(g, seen, stack, noinline, seen', stack', noinline', ext);
    hide Chained, Pending;
    var last := |stack| - 1;
    forall i, t | 0 <= i < |stack'| && stack'[i].settle && t in g[stack'[i].node]
      ensures noinline'[t] || seen'[t] == Settled || Above(stack', i, t)
    {
      if i == last {
        if seen'[t] == Unvisited {
          var k :| 0 <= k < |ext| && ext[k] == Frame(t, false);
          assert stack'[last + 1 + k].node == t;
        }
      } else if !noinline[t] && seen[t] != Settled {
        VisitKeepsAbove(g, seen, stack, noinline, seen', stack', noinline', ext, i, t);
      }
    }
  }

  lemma VisitChained(g: Graph, seen: seq<Visit>, stack: seq<Frame>, noinline: seq<bool>,
                     seen': seq<Visit>, stack': seq<Frame>, noinline': seq<bool>, ext: seq<Frame>)
    requires VisitStep(g, seen, stack, noinline, seen', stack', noinline', ext)
    ensures Chained(g, stack')
  {
    VisitFrames(g, seen, stack, noinline, seen', stack', noinline', ext);
    hide Covered, Pending, Expanded, Reach;
    var last := |stack| - 1;
    var u := stack[last].node;
    forall i, j | 0 <= i < j < |stack'| && stack'[i].settle
      ensures Reach(g, stack'[i].node, stack'[j].node)
    {
      if j > last {
        ReachSelf(g, u);
        ReachStep(g, stack'[i].node, u, stack'[j].node);
      }
    }
  }

  lemma Visits(g: Graph, seen: seq<Visit>, stack: seq<Frame>, noinline: seq<bool>,
               seen': seq<Visit>, stack': seq<Frame>, noinline': seq<bool>, ext: seq<Frame>)
    requires VisitStep(g, seen, stack, noinline, seen', stack', noinline', ext)
    ensures Walk(g, seen', stack', noinline')
  {
    VisitShape(g, seen, stack, noinline, seen', stack', noinline', ext);
    VisitPending(g, seen, stack, noinline, seen', stack', noinline', ext);
    VisitCovered(g, seen, stack, noinline, seen', stack', noinline', ext);
    VisitChained(g, seen, stack, noinline, seen', stack', noinline', ext);
    hide StackShape, Pending, Covered, Chained, Expanded;
  }

  /** Popping the top frame when its message is settled, or settles with this pop. */
  ghost predicate PopStep(g: Graph, seen: seq<Visit>, stack: seq<Frame>, noinline: seq<bool>,
                          seen': seq<Visit>, stack': seq<Frame>, noinline': seq<bool>)
  {
    && Walk(g, seen, stack, noinline) && |stack| > 0 && |noinline'| == |g|
    && (stack[|stack| - 1].settle || seen[stack[|stack| - 1].node] == Settled)
    && seen' == seen[stack[|stack| - 1].node := Settled] && stack' == stack[..|stack| - 1]
    && (forall t :: 0 <= t < |g| && noinline[t] ==> noinline'[t])
  }

  lemma PopAbove(stack: seq<Frame>, i: nat, t: nat)
    requires |stack| > 0 && i < |stack| - 1 && Above(stack, i, t)
    ensures t == stack[|stack| - 1].node || Above(stack[..|stack| - 1], i, t)
  {
    var j :| i < j < |stack| && 0 <= j && stack[j].node == t;
    if j < |stack| - 1 {
      assert stack[..|stack| - 1][j].node == t;
    }
  }

  lemma Pops(g: Graph, seen: seq<Visit>, stack: seq<Frame>, noinline: seq<bool>,
             seen': seq<Visit>, stack': seq<Frame>, noinline': seq<bool>)
    requires PopStep(g, seen, stack, noinline, seen', stack', noinline')
    ensures Walk(g, seen', stack', noinline')
  {
    hide Above, Reach;
    forall i, t | 0 <= i < |stack'| && Above(stack, i, t) ensures t == stack[|stack| - 1].node || Above(stack', i, t) {
      PopAbove(stack, i, t);
    }
    forall v | 0 <= v < |g| && seen'[v] == InProgress ensures Frame(v, true) in stack' {
      var i :| 0 <= i < |stack| && stack[i] == Frame(v, true);
      assert stack'[i] == Frame(v, true);
    }
  }

  lemma TopFrame(g: Graph, seen: seq<Visit>, stack: seq<Frame>, noinline: seq<bool>)
    requires Walk(g, seen, stack, noinline) && |stack| > 0
    ensures var f := stack[|stack| - 1]; f.node < |g| && (if f.settle then seen[f.node] == InProgress else seen[f.node] != InProgress)
  {
    hide Covered, Chained;
  }

  lemma WalkStarts(g: Graph, seen: seq<Visit>, root: nat, noinline: seq<bool>)
    requires IsGraph(g) && |seen| == |noinline| == |g| && root < |g|
    requires forall u :: 0 <= u < |g| ==> seen[u] != InProgress
    ensures Walk(g, seen, [Frame(root, false)], noinline)
  {
  }

  lemma WalkEnds(g: Graph, seen: seq<Visit>, noinline: seq<bool>)
    requires Walk(g, seen, [], noinline)
    ensures forall u :: 0 <= u < |g| ==> seen[u] != InProgress
  {
  }

  /** Settling the top message: its targets are marked or settled already, so its cost and verdict are final. */
  lemma SettlesOrder(g: Graph, seen: seq<Visit>, stack: seq<Frame>, noinline: seq<bool>, noinline': seq<bool>, order: seq<nat>)
    requires IsGraph(g) && |seen| == |noinline| == |noinline'| == |g| && |stack| > 0
    requires StackShape(|g|, seen, stack) && Covered(g, seen, stack, noinline) && Ordered(g, seen, noinline, order)
    requires stack[|stack| - 1].settle
    requires forall t :: 0 <= t < |g| && noinline[t] ==> noinline'[t]
    ensures var u := stack[|stack| - 1].node; Ordered(g, seen[u := Settled], noinline', order + [u]) && u !in order
  {
    var last := |stack| - 1;
    var u := stack[last].node;
    var order' := order + [u];
    assert forall k :: 0 <= k < |order| ==> seen[order[k]] != InProgress;
    forall k, t | 0 <= k < |order'| && t in g[order'[k]] ensures noinline'[t] || t in order'[..k] {
      if k < |order| {
        assert order'[..k] == order[..k] && order'[k] == order[k];
      } else {
        assert order'[..k] == order;
        assert !Above(stack, last, t);
      }
    }
  }

  lemma SettlesPrice(g: Graph, own: seq<nat>, budget: nat, seen: seq<Visit>, noinline: seq<bool>, cost: seq<nat>,
                     back: set<nat>, order: seq<nat>, u: nat, noinline': seq<bool>, cost': seq<nat>)
    requires IsGraph(g) && |own| == |seen| == |noinline| == |cost| == |g| && u < |g| && u !in order
    requires Ordered(g, seen, noinline, order) && Priced(g, own, budget, noinline, cost, back, order)
    requires forall t :: t in g[u] ==> noinline[t] || t in order
    requires cost' == cost[u := CostOf(own[u], g[u], noinline, cost)]
    requires noinline' == noinline[u := noinline[u] || (cost'[u] > budget && InlinesAny(g[u], noinline))]
    ensures Priced(g, own, budget, noinline', cost', back, order + [u])
  {
    var order' := order + [u];
    SumSame(g[u], noinline, cost, noinline', cost');
    forall k | 0 <= k < |order'|
      ensures var v := order'[k];
              && cost'[v] == CostOf(own[v], g[v], noinline', cost')
              && (noinline'[v] <==> v in back || (cost'[v] > budget && InlinesAny(g[v], noinline')))
    {
      if k < |order| {
        var v := order[k];
        forall i | 0 <= i < |g[v]|
          ensures noinline[g[v][i]] == noinline'[g[v][i]] && (noinline[g[v][i]] || cost[g[v][i]] == cost'[g[v][i]])
        {
          assert g[v][i] in g[v];
        }
        SumSame(g[v], noinline, cost, noinline', cost');
      }
    }
  }

  /** Between two steps the settled messages are ordered and priced for good. */
  ghost predicate Final(g: Graph, own: seq<nat>, budget: nat, seen: seq<Visit>, noinline: seq<bool>, cost: seq<nat>,
                        back: set<nat>, order: seq<nat>)
  {
    && IsGraph(g) && |own| == |seen| == |noinline| == |cost| == |g|
    && Ordered(g, seen, noinline, order)
    && Priced(g, own, budget, noinline, cost, back, order)
  }

  /** A back edge marks a message in progress, which therefore lies on a cycle; nothing settled changes. */
  lemma VisitKeepsFinal(g: Graph, own: seq<nat>, budget: nat, seen: seq<Visit>, stack: seq<Frame>, noinline: seq<bool>,
                        cost: seq<nat>, back: set<nat>, order: seq<nat>,
                        seen': seq<Visit>, stack': seq<Frame>, noinline': seq<bool>, ext: seq<Frame>) returns (back': set<nat>)
    requires VisitStep(g, seen, stack, noinline, seen', stack', noinline', ext)
    requires Final(g, own, budget, seen, noinline, cost, back, order)
    ensures Final(g, own, budget, seen', noinline', cost, back', order)
  {
    var last := |stack| - 1;
    var u := stack[last].node;
    back' := back + set t | t in g[u] && seen'[t] == InProgress;
    forall b | b in back' ensures b < |g| && noinline'[b] && OnCycle(g, b) {
      if b !in back {
        MarkedOnCycle(g, seen, stack, noinline, seen', stack', noinline', ext, b);
      }
    }
    forall k, t | 0 <= k < |order| && t in g[order[k]] ensures noinline[t] == noinline'[t] {
      if !noinline[t] {
        assert t in order[..k];
        assert t in order;
      }
    }
    forall k | 0 <= k < |order|
      ensures var v := order[k];
              && cost[v] == CostOf(own[v], g[v], noinline', cost)
              && (noinline'[v] <==> v in back' || (cost[v] > budget && InlinesAny(g[v], noinline')))
    {
      var v := order[k];
      assert seen'[v] == Settled;
      assert forall i :: 0 <= i < |g[v]| ==> g[v][i] in g[v];
      SumSame(g[v], noinline, cost, noinline', cost);
    }
  }

  lemma MarkedOnCycle(g: Graph, seen: seq<Visit>, stack: seq<Frame>, noinline: seq<bool>,
                      seen': seq<Visit>, stack': seq<Frame>, noinline': seq<bool>, ext: seq<Frame>, t: nat)
    requires VisitStep(g, seen, stack, noinline, seen', stack', noinline', ext)
    requires t in g[stack[|stack| - 1].node] && t < |g| && seen'[t] == InProgress
    ensures noinline'[t] && OnCycle(g, t)
  {
    hide Pending, Covered, Reach, OnCycle;
    var u := stack[|stack| - 1].node;
    ReachSelf(g, u);
    if t != u {
      var i :| 0 <= i < |stack| && stack[i] == Frame(t, true);
      assert Reach(g, t, u);
    }
    ReachStep(g, t, u, t);
  }

  lemma SettleKeepsFinal(g: Graph, own: seq<nat>, budget: nat, seen: seq<Visit>, stack: seq<Frame>, noinline: seq<bool>,
                         cost: seq<nat>, back: set<nat>, order: seq<nat>, noinline': seq<bool>, cost': seq<nat>)
    requires Walk(g, seen, stack, noinline) && Final(g, own, budget, seen, noinline, cost, back, order)
    requires |stack| > 0 && stack[|stack| - 1].settle
    requires SettledNow(g, own, budget, noinline, cost, stack[|stack| - 1].node, noinline', cost')
    ensures var u := stack[|stack| - 1].node;
            Final(g, own, budget, seen[u := Settled], noinline', cost', back, order + [u])
  {
    var u := stack[|stack| - 1].node;
    SettlesOrder(g, seen, stack, noinline, noinline', order);
    TopCovered(g, seen, stack, noinline, order);
    SettlesPrice(g, own, budget, seen, noinline, cost, back, order, u, noinline', cost');
    hide Ordered, Priced, StackShape, Pending, Covered, Chained;
  }

  lemma TopCovered(g: Graph, seen: seq<Visit>, stack: seq<Frame>, noinline: seq<bool>, order: seq<nat>)
    requires Walk(g, seen, stack, noinline) && Ordered(g, seen, noinline, order)
    requires |stack| > 0 && stack[|stack| - 1].settle
    ensures forall t :: t in g[stack[|stack| - 1].node] ==> noinline[t] || t in order
  {
    forall t | t in g[stack[|stack| - 1].node] ensures noinline[t] || t in order {
      assert !Above(stack, |stack| - 1, t);
    }
  }

  /** The settle function: cost from what is still inlined, then the verdict. */
  ghost predicate SettledNow(g: Graph, own: seq<nat>, budget: nat, noinline: seq<bool>, cost: seq<nat>, u: nat,
                             noinline': seq<bool>, cost': seq<nat>)
    requires IsGraph(g) && |own| == |noinline| == |cost| == |g| && u < |g|
  {
    && cost' == cost[u := CostOf(own[u], g[u], noinline, cost)]
    && noinline' == noinline[u := noinline[u] || (cost'[u] > budget && InlinesAny(g[u], noinline))]
  }

  // ---- the pass ------------------------------------------------------------------------------

  class LayoutSet {
    const targets: Graph
    const own: seq<nat>
    var noinline: seq<bool>
    var cost: seq<nat>

    ghost predicate Valid()
      reads this
    {
      && IsGraph(targets) && |own| == |noinline| == |cost| == |targets|
      && (forall u :: 0 <= u < |own| ==> own[u] <= SIZE_MAX && cost[u] <= SIZE_MAX)
    }

    /** A planned set: nothing marked yet, no cost computed. */
    constructor (targets: Graph, own: seq<nat>)
      requires IsGraph(targets) && |own| == |targets| && forall u :: 0 <= u < |own| ==> own[u] <= SIZE_MAX
      ensures Valid() && this.targets == targets && this.own == own
      ensures forall u :: 0 <= u < |targets| ==> !noinline[u]
    {
      this.targets, this.own := targets, own;
      noinline, cost := seq(|targets|, _ => false), seq(|targets|, _ => 0);
    }

    method Settle(index: nat, budget: nat)
      requires Valid() && index < |targets|
      modifies this
      ensures Valid() && SettledNow(targets, own, budget, old(noinline), old(cost), index, noinline, cost)
    {
      var sum := own[index];
      var inlinesAny := false;
      var ts := targets[index];
      for k := 0 to |ts|
        invariant sum == Min(SIZE_MAX, own[index] + Sum(ts[..k], noinline, cost))
        invariant inlinesAny <==> InlinesAny(ts[..k], noinline)
        invariant noinline == old(noinline) && cost == old(cost)
      {
        assert ts[..k + 1][..k] == ts[..k];
        assert InlinesAny(ts[..k + 1], noinline) <==> InlinesAny(ts[..k], noinline) || !noinline[ts[k]] by {
          InlinesMore(ts, k, noinline);
        }
        if !noinline[ts[k]] {
          sum := AddCost(sum, cost[ts[k]]);
          inlinesAny := true;
        }
      }
      assert ts[..|ts|] == ts;
      cost := cost[index := sum];
      if sum > budget && inlinesAny {
        noinline := noinline[index := true];
      }
    }

    method Expand(index: nat, seen: seq<Visit>, stack: seq<Frame>) returns (stack': seq<Frame>)
      requires Valid() && index < |targets| && |seen| == |targets|
      modifies this
      ensures Valid() && cost == old(cost)
      ensures stack <= stack' && Expanded(targets[index], seen, stack'[|stack|..], old(noinline), noinline)
    {
      stack' := stack;
      var ts := targets[index];
      for k := 0 to |ts|
        invariant Valid() && cost == old(cost) && stack <= stack'
        invariant Expanded(ts[..k], seen, stack'[|stack|..], old(noinline), noinline)
      {
        var t := ts[k];
        assert ts[..k + 1] == ts[..k] + [t];
        if seen[t] == InProgress {
          noinline := noinline[t := true];
        } else if seen[t] == Unvisited {
          assert (stack' + [Frame(t, false)])[|stack|..] == stack'[|stack|..] + [Frame(t, false)];
          stack' := stack' + [Frame(t, false)];
        }
      }
      assert ts[..|ts|] == ts;
    }

    /** Walk everything reachable from root that is not settled yet. */
    method WalkFrom(root: nat, seen0: seq<Visit>, budget: nat, ghost order0: seq<nat>, ghost back0: set<nat>)
      returns (seen: seq<Visit>, ghost order: seq<nat>, ghost back: set<nat>)
      requires Valid() && root < |targets| && |seen0| == |targets| && seen0[root] == Unvisited
      requires forall u :: 0 <= u < |targets| ==> seen0[u] != InProgress
      requires Final(targets, own, budget, seen0, noinline, cost, back0, order0)
      modifies this
      ensures Valid() && |seen| == |targets| && seen[root] == Settled
      ensures forall u :: 0 <= u < |targets| ==> seen[u] != InProgress && (seen0[u] == Settled ==> seen[u] == Settled)
      ensures Final(targets, own, budget, seen, noinline, cost, back, order)
    {
      hide Ordered, Priced, StackShape, Pending, Covered, Chained, CostOf, InlinesAny;
      seen, order, back := seen0, order0, back0;
      var stack := [Frame(root, false)];
      WalkStarts(targets, seen, root, noinline);
      while stack != []
        invariant Valid() && Walk(targets, seen, stack, noinline)
        invariant Final(targets, own, budget, seen, noinline, cost, back, order)
        invariant forall u :: 0 <= u < |targets| && seen0[u] == Settled ==> seen[u] == Settled
        invariant seen[root] == Unvisited ==> stack == [Frame(root, false)]
        decreases Fresh(seen), |stack|
      {
        var frame := stack[|stack| - 1];
        var rest := stack[..|stack| - 1];
        ghost var before, marks, costs := seen, noinline, cost;
        TopFrame(targets, seen, stack, noinline);
        if frame.settle {
          Settle(frame.node, budget);
          seen := seen[frame.node := Settled];
          SettleKeepsFinal(targets, own, budget, before, stack, marks, costs, back, order, noinline, cost);
          Pops(targets, before, stack, marks, seen, rest, noinline);
          FreshKept(before, frame.node);
          order := order + [frame.node];
          stack := rest;
        } else if seen[frame.node] == Unvisited {
          seen := seen[frame.node := InProgress];
          FreshShrinks(before, frame.node);
          var withSettle := rest + [Frame(frame.node, true)];
          var grown := Expand(frame.node, seen, withSettle);
          ghost var ext := grown[|withSettle|..];
          assert grown == rest + [Frame(frame.node, true)] + ext;
          Visits(targets, before, stack, marks, seen, grown, noinline, ext);
          back := VisitKeepsFinal(targets, own, budget, before, stack, marks, cost, back, order, seen, grown, noinline, ext);
          stack := grown;
        } else {
          assert seen[frame.node := Settled] == seen;
          Pops(targets, before, stack, marks, seen, rest, noinline);
          stack := rest;
        }
      }
      WalkEnds(targets, seen, noinline);
    }

    method ApplyFlattenBudget(budget: nat) returns (ghost order: seq<nat>, ghost back: set<nat>)
      requires Valid() && forall u :: 0 <= u < |targets| ==> !noinline[u]
      modifies this
      ensures Valid()
      ensures budget == 0 ==> noinline == old(noinline) && cost == old(cost)
      ensures budget > 0 ==> Finished(targets, own, budget, noinline, cost, back, order)
    {
      order, back := [], {};
      if budget == 0 {
        return;
      }
      var n := |targets|;
      var seen := seq(n, _ => Unvisited);
      assert Final(targets, own, budget, seen, noinline, cost, back, order);
      hide Final;
      for root := 0 to n
        invariant Valid() && |seen| == n
        invariant Final(targets, own, budget, seen, noinline, cost, back, order)
        invariant forall u :: 0 <= u < n ==> seen[u] != InProgress && (u < root ==> seen[u] == Settled)
      {
        if seen[root] == Unvisited {
          seen, order, back := WalkFrom(root, seen, budget, order, back);
        }
      }
      assert seen == seq(n, _ => Settled);
    }
  }

  /** The messages not yet visited. */
  ghost function Fresh(seen: seq<Visit>): set<nat> {
    set u: nat | u < |seen| && seen[u] == Unvisited
  }

  lemma FreshShrinks(seen: seq<Visit>, u: nat)
    requires u < |seen| && seen[u] == Unvisited
    ensures Fresh(seen[u := InProgress]) < Fresh(seen)
  {
    assert u in Fresh(seen) && u !in Fresh(seen[u := InProgress]);
  }

  lemma FreshKept(seen: seq<Visit>, u: nat)
    requires u < |seen| && seen[u] == InProgress
    ensures Fresh(seen[u := Settled]) == Fresh(seen)
  {
  }

  lemma InlinesMore(ts: seq<nat>, k: nat, noinline: seq<bool>)
    requires k < |ts| && forall i :: 0 <= i < |ts| ==> ts[i] < |noinline|
    ensures InlinesAny(ts[..k + 1], noinline) <==> InlinesAny(ts[..k], noinline) || !noinline[ts[k]]
  {
    assert ts[..k + 1] == ts[..k] + [ts[k]];
    if !noinline[ts[k]] {
      assert !noinline[ts[..k + 1][k]];
    }
    if InlinesAny(ts[..k], noinline) {
      var i :| 0 <= i < k && !noinline[ts[..k][i]];
      assert !noinline[ts[..k + 1][i]];
    }
  }

  /** The outcome: order lists every message exactly once, in the order it was settled. */
  ghost predicate Finished(g: Graph, own: seq<nat>, budget: nat, noinline: seq<bool>, cost: seq<nat>,
                           back: set<nat>, order: seq<nat>)
  {
    Final(g, own, budget, seq(|g|, _ => Settled), noinline, cost, back, order)
  }

  // ---- what the outcome means ----------------------------------------------------------------

  lemma {:induction false} PathDescends(g: Graph, noinline: seq<bool>, order: seq<nat>, p: seq<nat>, k: nat, m: nat)
    requires IsGraph(g) && |noinline| == |g| && Ordered(g, seq(|g|, _ => Settled), noinline, order)
    requires IsPath(g, p) && |p| >= 2 && forall i :: 1 <= i < |p| ==> !noinline[p[i]]
    requires k < |order| && m < |order| && order[k] == p[0] && order[m] == p[|p| - 1]
    ensures m < k
    decreases |p|
  {
    assert p[1] in g[order[k]];
    var j :| 0 <= j < k && order[..k][j] == p[1];
    if |p| > 2 {
      assert IsPath(g, p[1..]) by {
        forall i | 0 <= i < |p[1..]| - 1 ensures p[1..][i + 1] in g[p[1..][i]] {
          assert p[i + 2] in g[p[i + 1]];
        }
      }
      PathDescends(g, noinline, order, p[1..], j, m);
    }
  }

  /** No cycle of inlining survives: every cycle of messages has a marked one. */
  lemma NoUnmarkedCycle(g: Graph, own: seq<nat>, budget: nat, noinline: seq<bool>, cost: seq<nat>,
                        back: set<nat>, order: seq<nat>, p: seq<nat>)
    requires Finished(g, own, budget, noinline, cost, back, order)
    requires IsPath(g, p) && |p| >= 2 && p[0] == p[|p| - 1]
    ensures exists i :: 1 <= i < |p| && noinline[p[i]]
  {
    if forall i :: 1 <= i < |p| ==> !noinline[p[i]] {
      assert p[0] in order;
      var k :| 0 <= k < |order| && order[k] == p[0];
      PathDescends(g, noinline, order, p, k, k);
    }
  }

  /** Every message is settled exactly once, its final cost is its own arms plus the final costs of what it still
      inlines, and it is left unmarked only within the budget or when it inlines nothing. A message on no cycle is
      marked exactly when it is over budget and inlines something. */
  lemma FinalCosts(g: Graph, own: seq<nat>, budget: nat, noinline: seq<bool>, cost: seq<nat>,
                   back: set<nat>, order: seq<nat>, u: nat)
    requires Finished(g, own, budget, noinline, cost, back, order) && u < |g|
    ensures multiset(order)[u] == 1
    ensures cost[u] == Min(SIZE_MAX, own[u] + Sum(g[u], noinline, cost))
    ensures !noinline[u] ==> cost[u] <= budget || !InlinesAny(g[u], noinline)
    ensures !OnCycle(g, u) ==> (noinline[u] <==> cost[u] > budget && InlinesAny(g[u], noinline))
  {
    hide OnCycle, Sum, InlinesAny;
    assert u in order;
    var k :| 0 <= k < |order| && order[k] == u;
    assert cost[order[k]] == CostOf(own[order[k]], g[order[k]], noinline, cost);
    hide Priced, Covered, Pending, Chained;
    OccursOnce(order, k);
  }
}
