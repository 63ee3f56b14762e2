/** Finite graphs of symbols: a ranking that falls along every edge exists exactly if there is no cycle. */
module Ranks {
  import opened Exprs

  /** The successors of every node; symbols that are no nodes have none. */
  type Edges = map<Symbol, set<Symbol>>

  predicate Edge(es: Edges, s: Symbol, t: Symbol) {
    s in es && t in es[s]
  }

  ghost predicate Walk(es: Edges, p: seq<Symbol>) {
    forall i :: 0 < i < |p| ==> Edge(es, p[i - 1], p[i])
  }

  ghost predicate Loop(es: Edges, p: seq<Symbol>) {
    p != [] && Walk(es, p) && Edge(es, p[|p| - 1], p[0])
  }

  /** The node after `i` on a loop. */
  function After(p: seq<Symbol>, i: nat): Symbol
    requires i < |p|
  {
    if i + 1 < |p| then p[i + 1] else p[0]
  }

  ghost predicate Falls(es: Edges, rank: Symbol -> nat) {
    forall s, t :: Edge(es, s, t) ==> rank(t) < rank(s)
  }

  lemma {:induction false} FallsAlong(es: Edges, rank: Symbol -> nat, p: seq<Symbol>, i: nat)
    requires Falls(es, rank) && Walk(es, p) && i < |p|
    ensures rank(p[i]) + i <= rank(p[0])
  {
    if i > 0 {
      FallsAlong(es, rank, p, i - 1);
      assert Edge(es, p[i - 1], p[i]);
    }
  }

  lemma RankedHasNoLoop(es: Edges, rank: Symbol -> nat)
    requires Falls(es, rank)
    ensures !exists p :: Loop(es, p)
  {
    forall p | Loop(es, p) ensures false {
      FallsAlong(es, rank, p, |p| - 1);
    }
  }

  /** A sequence without repetition is no longer than a set that holds it. */
  lemma {:induction false} Pigeonhole(p: seq<Symbol>, ss: set<Symbol>)
    requires forall i :: 0 <= i < |p| ==> p[i] in ss
    requires forall i, j :: 0 <= i < j < |p| ==> p[i] != p[j]
    ensures |p| <= |ss|
  {
    if p != [] {
      var last := p[|p| - 1];
      Pigeonhole(p[..|p| - 1], ss - {last});
    }
  }

  ghost predicate LeadsOn(es: Edges, s: Symbol) {
    exists t :: t in es && Edge(es, s, t)
  }

  /** If every node leads to a node, one can walk on forever. */
  lemma {:induction false} LongWalk(es: Edges, n: nat) returns (p: seq<Symbol>)
    requires es != map[] && forall s :: s in es ==> LeadsOn(es, s)
    ensures |p| == n + 1 && Walk(es, p) && forall i :: 0 <= i < |p| ==> p[i] in es
  {
    hide Edge, Walk, LeadsOn;
    if n == 0 {
      var s :| s in es;
      p := [s];
      OneStep(es, s);
    } else {
      var q := LongWalk(es, n - 1);
      var t := Next(es, q[n - 1]);
      Extend(es, q, t);
      p := q + [t];
    }
  }

  lemma Next(es: Edges, s: Symbol) returns (t: Symbol)
    requires LeadsOn(es, s)
    ensures t in es && Edge(es, s, t)
  {
    t :| t in es && Edge(es, s, t);
  }

  lemma OneStep(es: Edges, s: Symbol)
    ensures Walk(es, [s])
  {
  }

  lemma Extend(es: Edges, q: seq<Symbol>, t: Symbol)
    requires q != [] && Walk(es, q) && Edge(es, q[|q| - 1], t)
    ensures Walk(es, q + [t])
  {
    hide Edge;
  }

  /** A walk that comes back to a node contains a loop. */
  lemma LoopOfReturn(es: Edges, p: seq<Symbol>, i: nat, j: nat)
    requires Walk(es, p) && i < j < |p| && p[i] == p[j]
    ensures Loop(es, p[i..j])
  {
    hide Edge;
    var q := p[i..j];
    forall k | 0 < k < |q| ensures Edge(es, q[k - 1], q[k]) {
      assert Edge(es, p[i + k - 1], p[i + k]);
    }
    assert Edge(es, p[j - 1], p[j]);
  }

  /** Without a loop some node leads to no node. */
  lemma Sink(es: Edges) returns (s: Symbol)
    requires es != map[] && !exists p :: Loop(es, p)
    ensures s in es && !LeadsOn(es, s)
  {
    hide Edge, Loop, Walk, LeadsOn;
    if forall s :: s in es ==> LeadsOn(es, s) {
      var p := LongWalk(es, |es.Keys|);
      if forall i, j :: 0 <= i < j < |p| ==> p[i] != p[j] {
        Pigeonhole(p, es.Keys);
      } else {
        var i, j :| 0 <= i < j < |p| && p[i] == p[j];
        LoopOfReturn(es, p, i, j);
      }
    }
    s :| s in es && !LeadsOn(es, s);
  }

  lemma LoopOfRest(es: Edges, s: Symbol, p: seq<Symbol>)
    requires Loop(es - {s}, p)
    ensures Loop(es, p)
  {
    assert forall x, y :: Edge(es - {s}, x, y) ==> Edge(es, x, y);
  }

  /** The ranking of a graph without loops: a node that leads to no node comes first, then the rest. */
  lemma {:induction false} Ranking(es: Edges) returns (rank: Symbol -> nat)
    requires !exists p :: Loop(es, p)
    ensures Falls(es, rank) && forall s :: s in es <==> rank(s) > 0
    decreases |es.Keys|
  {
    if es == map[] {
      rank := s => 0;
    } else {
      var s := Sink(es);
      var rest := es - {s};
      forall p | Loop(rest, p) ensures Loop(es, p) {
        LoopOfRest(es, s, p);
      }
      assert rest.Keys == es.Keys - {s};
      var below := Ranking(rest);
      rank := x => if x in rest then below(x) + 1 else if x == s then 1 else 0;
      forall x, y | Edge(es, x, y) ensures rank(y) < rank(x) {
        assert x != s ==> Edge(rest, x, y);
        assert x == s && y in es ==> LeadsOn(es, s);
      }
    }
  }

  lemma RankingExact(es: Edges)
    ensures (exists rank :: Falls(es, rank)) <==> !exists p :: Loop(es, p)
  {
    hide Falls, Loop;
    if !exists p :: Loop(es, p) {
      var rank := Ranking(es);
    }
    forall rank | Falls(es, rank) ensures !exists p :: Loop(es, p) {
      RankedHasNoLoop(es, rank);
    }
  }
}
