/**
 * The greedy search of `score`: each round tries every (unmapped rule, unused node)
 * pair, keeps the pairs of maximal trial score, breaks ties by local connectivity,
 * commits the winner and stops as soon as a commit fails to raise the score.
 */
module Greedy {
  import opened Basics
  import opened Frames
  import opened Engine

  /** Rule set and parse are loader-shaped, the rule set is non-empty and the mapping names existing entries. */
  predicate Ctx(P: Problem, m: seq<Pair>) {
    AllWellFormed(P.rules) && AllWellFormed(P.parse) && InRange(P, m) && |P.rules| > 0
  }

  predicate PairInRange(P: Problem, p: Pair) {
    p.0 < |P.rules| && p.1 < |P.parse|
  }

  lemma AppendInRange(P: Problem, m: seq<Pair>, p: Pair)
    requires InRange(P, m) && PairInRange(P, p)
    ensures InRange(P, m + [p])
  {
  }

  /** Every index in `s` is below `bound`. */
  predicate Below(s: seq<nat>, bound: nat) {
    forall i :: 0 <= i < |s| ==> s[i] < bound
  }

  /** A normalised score is never negative. */
  lemma MapScoreNonneg(P: Problem, m: seq<Pair>)
    requires Ctx(P, m)
    ensures MapScore(P, m) >= 0.0
  {
    CardPositive(P.rules);
    var a := Intersection(P, m) as real;
    var c := Card(P.rules) as real;
    assert a / c >= 0.0;
  }

  /** The trial of the search's inner loops: `map[rule] = tnode; score_wrt_map(...)`. */
  function Trial(P: Problem, m: seq<Pair>, p: Pair): real
    requires Ctx(P, m) && PairInRange(P, p)
  {
    assert InRange(P, m + [p]);
    MapScore(P, m + [p])
  }

  // ---------------------------------------------------------------------------
  // Candidate collection

  /** The trial score as a total function (0 outside the rule set and the parse). */
  function TrialFn(P: Problem, m: seq<Pair>): Pair -> real {
    p => if Ctx(P, m) && PairInRange(P, p) then Trial(P, m, p) else 0.0
  }

  ghost predicate Nonneg(f: Pair -> real) {
    forall p :: f(p) >= 0.0
  }

  lemma TrialFnNonneg(P: Problem, m: seq<Pair>)
    ensures Nonneg(TrialFn(P, m))
  {
    forall p ensures TrialFn(P, m)(p) >= 0.0 {
      if Ctx(P, m) && PairInRange(P, p) {
        assert InRange(P, m + [p]);
        MapScoreNonneg(P, m + [p]);
      }
    }
  }

  /** The running maximum `max` and the list `candidates` of the search's inner loops. */
  datatype Scan = Scan(best: real, cands: seq<Pair>)

  /**
   * One inner-loop step: a strictly better trial restarts the list with the pair, and a
   * trial equal to the (possibly just raised) maximum appends the pair, so a new best
   * pair is listed twice.
   */
  function Visit(s: Scan, p: Pair, v: real): Scan {
    var s1 := if v > s.best then Scan(v, [p]) else s;
    if v == s1.best then Scan(s1.best, s1.cands + [p]) else s1
  }

  /** The inner loop over the unused nodes for one rule. */
  function ScanRow(f: Pair -> real, s: Scan, r: nat, nodes: seq<nat>): Scan {
    if nodes == [] then s
    else
      var n := nodes[|nodes| - 1];
      Visit(ScanRow(f, s, r, nodes[..|nodes| - 1]), (r, n), f((r, n)))
  }

  /** Both inner loops: rules outside, nodes inside. */
  function ScanAll(f: Pair -> real, s: Scan, rules: seq<nat>, nodes: seq<nat>): Scan {
    if rules == [] then s
    else ScanRow(f, ScanAll(f, s, rules[..|rules| - 1], nodes), rules[|rules| - 1], nodes)
  }

  /**
   * What the scan has established about the set `V` of pairs visited so far: the best
   * trial is their maximum (0 before any visit), and the candidates are exactly the
   * visited pairs that reach it.
   */
  ghost predicate Summary(f: Pair -> real, s: Scan, V: set<Pair>) {
    s.best >= 0.0 &&
    (V == {} ==> s.best == 0.0) &&
    (V != {} ==> s.cands != []) &&
    (forall i :: 0 <= i < |s.cands| ==> s.cands[i] in V) &&
    (forall p :: p in V ==> f(p) <= s.best) &&
    (forall p :: p in V ==> (f(p) == s.best <==> p in s.cands))
  }

  lemma VisitSummary(f: Pair -> real, s: Scan, V: set<Pair>, p: Pair)
    requires f(p) >= 0.0 && Summary(f, s, V)
    ensures Summary(f, Visit(s, p, f(p)), V + {p})
  {
  }

  function Row(r: nat, nodes: seq<nat>): set<Pair> {
    set n | n in nodes :: (r, n)
  }

  function Grid(rules: seq<nat>, nodes: seq<nat>): set<Pair> {
    set r, n | r in rules && n in nodes :: (r, n)
  }

  lemma {:induction false} ScanRowSummary(f: Pair -> real, s: Scan, V: set<Pair>, r: nat, nodes: seq<nat>)
    requires Nonneg(f) && Summary(f, s, V)
    ensures Summary(f, ScanRow(f, s, r, nodes), V + Row(r, nodes))
  {
    if nodes != [] {
      var init := nodes[..|nodes| - 1];
      var n := nodes[|nodes| - 1];
      ScanRowSummary(f, s, V, r, init);
      VisitSummary(f, ScanRow(f, s, r, init), V + Row(r, init), (r, n));
      assert nodes == init + [n];
      assert V + Row(r, init) + {(r, n)} == V + Row(r, nodes);
    } else {
      assert V + Row(r, nodes) == V;
    }
  }

  lemma GridSnoc(rules: seq<nat>, r: nat, nodes: seq<nat>)
    ensures Grid(rules + [r], nodes) == Grid(rules, nodes) + Row(r, nodes)
  {
    assert forall x :: x in rules + [r] <==> x in rules || x == r;
  }

  lemma {:induction false} ScanAllSummary(f: Pair -> real, s: Scan, V: set<Pair>, rules: seq<nat>, nodes: seq<nat>)
    requires Nonneg(f) && Summary(f, s, V)
    ensures Summary(f, ScanAll(f, s, rules, nodes), V + Grid(rules, nodes))
  {
    if rules != [] {
      var init := rules[..|rules| - 1];
      var r := rules[|rules| - 1];
      ScanAllSummary(f, s, V, init, nodes);
      ScanRowSummary(f, ScanAll(f, s, init, nodes), V + Grid(init, nodes), r, nodes);
      GridSnoc(init, r, nodes);
      assert rules == init + [r];
    } else {
      assert V + Grid(rules, nodes) == V;
    }
  }

  // ---------------------------------------------------------------------------
  // Connectivity tie-break

  /** Rule roles whose key the node also has ("potential outgoing edges"). */
  function Outgoing(ruleKvs: seq<KV>, nodeKvs: seq<KV>): nat {
    if ruleKvs == [] then 0
    else Outgoing(ruleKvs[..|ruleKvs| - 1], nodeKvs) + (if Get(nodeKvs, ruleKvs[|ruleKvs| - 1].0).Some? then 1 else 0)
  }

  /** Roles of one rule whose value equals `id` (relaxed) and whose key the node has. */
  function IncomingFrom(eq: (Element, Element) -> bool, kvs: seq<KV>, id: Element, nodeKvs: seq<KV>): nat {
    if kvs == [] then 0
    else
      var (k, v) := kvs[|kvs| - 1];
      IncomingFrom(eq, kvs[..|kvs| - 1], id, nodeKvs) + (if eq(v, id) && Get(nodeKvs, k).Some? then 1 else 0)
  }

  /** "Potential incoming edges", summed over every rule of the rule set. */
  function Incoming(eq: (Element, Element) -> bool, rs: seq<Node>, id: Element, nodeKvs: seq<KV>): nat {
    if rs == [] then 0
    else Incoming(eq, rs[..|rs| - 1], id, nodeKvs) + IncomingFrom(eq, rs[|rs| - 1].kvpairs, id, nodeKvs)
  }

  /** The connectivity of a candidate pair. */
  function Conn(P: Problem, p: Pair): nat
    requires AllWellFormed(P.rules) && PairInRange(P, p)
  {
    Outgoing(P.rules[p.0].kvpairs, P.parse[p.1].kvpairs) +
    Incoming(P.eq, P.rules, Identity(P.rules[p.0]), P.parse[p.1].kvpairs)
  }

  /** The candidate's score of the tie-break loop, with its loop over the rule set. */
  method Connectivity(P: Problem, p: Pair) returns (c: nat)
    requires AllWellFormed(P.rules) && PairInRange(P, p)
    ensures c == Conn(P, p)
  {
    var rule := P.rules[p.0];
    var tnode := P.parse[p.1];
    var ruleNode := Identity(rule);
    c := Outgoing(rule.kvpairs, tnode.kvpairs);
    var rest := 0;
    for i := 0 to |P.rules|
      invariant rest == Incoming(P.eq, P.rules[..i], ruleNode, tnode.kvpairs)
    {
      assert P.rules[..i + 1][..i] == P.rules[..i];
      rest := rest + IncomingFrom(P.eq, P.rules[i].kvpairs, ruleNode, tnode.kvpairs);
    }
    assert P.rules[..|P.rules|] == P.rules;
    c := c + rest;
  }

  /** Index of the candidate the tie-break loop keeps: `>=` lets a later equal one replace it. */
  function PickIndex(P: Problem, cands: seq<Pair>): (k: nat)
    requires AllWellFormed(P.rules) && |cands| > 0
    requires forall i :: 0 <= i < |cands| ==> PairInRange(P, cands[i])
    ensures k < |cands|
  {
    if |cands| == 1 then 0
    else
      var k := PickIndex(P, cands[..|cands| - 1]);
      if Conn(P, cands[|cands| - 1]) >= Conn(P, cands[k]) then |cands| - 1 else k
  }

  /** The kept candidate has maximal connectivity, and it is the last candidate that has it. */
  lemma {:induction false} PickFacts(P: Problem, cands: seq<Pair>)
    requires AllWellFormed(P.rules) && |cands| > 0
    requires forall i :: 0 <= i < |cands| ==> PairInRange(P, cands[i])
    ensures forall j :: 0 <= j < |cands| ==> Conn(P, cands[j]) <= Conn(P, cands[PickIndex(P, cands)])
    ensures forall j :: PickIndex(P, cands) < j < |cands| ==> Conn(P, cands[j]) < Conn(P, cands[PickIndex(P, cands)])
  {
    if |cands| > 1 {
      var init, last := cands[..|cands| - 1], |cands| - 1;
      PickFacts(P, init);
      var k, p := PickIndex(P, init), PickIndex(P, cands);
      var ck, cl := Conn(P, init[k]), Conn(P, cands[last]);
      assert p == if cl >= ck then last else k;
      assert init[k] == cands[k];
      forall j | 0 <= j < |cands|
        ensures Conn(P, cands[j]) <= Conn(P, cands[p])
      {
        if j < last {
          assert init[j] == cands[j];
        }
      }
      forall j | p < j < |cands|
        ensures Conn(P, cands[j]) < Conn(P, cands[p])
      {
        if j < last {
          assert init[j] == cands[j];
        }
      }
    }
  }

  /**
   * The pair one round of `score` commits: its trial score is the maximum over all
   * (unmapped rule, unused node) pairs, and among the pairs reaching that maximum it
   * has the highest connectivity.
   */
  function Choose(P: Problem, m: seq<Pair>, rp: seq<nat>, np: seq<nat>): (p: Pair)
    requires Ctx(P, m) && rp != [] && np != []
    requires Below(rp, |P.rules|) && Below(np, |P.parse|)
    ensures p.0 in rp && p.1 in np
    ensures forall r, n :: r in rp && n in np ==> Trial(P, m, (r, n)) <= Trial(P, m, p)
    ensures forall r, n :: r in rp && n in np && Trial(P, m, (r, n)) == Trial(P, m, p) ==> Conn(P, (r, n)) <= Conn(P, p)
  {
    var f := TrialFn(P, m);
    var s := ScanAll(f, Scan(0.0, []), rp, np);
    TrialFnNonneg(P, m);
    ChooseFacts(P, f, rp, np, s);
    var p := s.cands[PickIndex(P, s.cands)];
    assert forall r, n :: r in rp && n in np ==> f((r, n)) == Trial(P, m, (r, n));
    p
  }

  /** A pair that beats every other grid pair, on trial score or else on connectivity, is the one committed. */
  lemma ChooseWinner(P: Problem, m: seq<Pair>, rp: seq<nat>, np: seq<nat>, w: Pair)
    requires Ctx(P, m) && rp != [] && np != []
    requires Below(rp, |P.rules|) && Below(np, |P.parse|)
    requires w.0 in rp && w.1 in np
    requires forall r, n :: r in rp && n in np && (r, n) != w ==>
      Trial(P, m, (r, n)) < Trial(P, m, w) || (Trial(P, m, (r, n)) == Trial(P, m, w) && Conn(P, (r, n)) < Conn(P, w))
    ensures Choose(P, m, rp, np) == w
  {
  }

  /** After a full scan of the grid, the candidates are exactly the grid pairs of maximal value. */
  lemma GridMax(f: Pair -> real, s: Scan, rp: seq<nat>, np: seq<nat>)
    requires Nonneg(f) && s == ScanAll(f, Scan(0.0, []), rp, np) && rp != [] && np != []
    ensures s.cands != []
    ensures forall i :: 0 <= i < |s.cands| ==> s.cands[i].0 in rp && s.cands[i].1 in np && f(s.cands[i]) == s.best
    ensures forall r, n :: r in rp && n in np ==> f((r, n)) <= s.best
    ensures forall r, n :: r in rp && n in np && f((r, n)) == s.best ==> (r, n) in s.cands
  {
    ScanAllSummary(f, Scan(0.0, []), {}, rp, np);
    var G := Grid(rp, np);
    assert {} + G == G;
    assert (rp[0], np[0]) in G;
    forall r, n | r in rp && n in np ensures (r, n) in G { }
  }

  /** The scan's candidates lie in the pools, and the one the tie-break keeps satisfies `Choose`'s contract. */
  lemma ChooseFacts(P: Problem, f: Pair -> real, rp: seq<nat>, np: seq<nat>, s: Scan)
    requires AllWellFormed(P.rules) && rp != [] && np != []
    requires Below(rp, |P.rules|) && Below(np, |P.parse|)
    requires Nonneg(f) && s == ScanAll(f, Scan(0.0, []), rp, np)
    ensures s.cands != [] && forall i :: 0 <= i < |s.cands| ==> PairInRange(P, s.cands[i])
    ensures var p := s.cands[PickIndex(P, s.cands)];
      p.0 in rp && p.1 in np &&
      (forall r, n :: r in rp && n in np ==> f((r, n)) <= f(p)) &&
      (forall r, n :: r in rp && n in np && f((r, n)) == f(p) ==> Conn(P, (r, n)) <= Conn(P, p))
  {
    GridMax(f, s, rp, np);
    assert forall i :: 0 <= i < |s.cands| ==> PairInRange(P, s.cands[i]);
    var k := PickIndex(P, s.cands);
    PickFacts(P, s.cands);
    var p := s.cands[k];
    assert f(p) == s.best;
    forall r, n | r in rp && n in np && f((r, n)) == f(p)
      ensures Conn(P, (r, n)) <= Conn(P, p)
    {
      assert (r, n) in s.cands;
      var j :| 0 <= j < |s.cands| && s.cands[j] == (r, n);
    }
  }

  // ---------------------------------------------------------------------------
  // The search loop

  /** Node `n` is already the image of some rule. */
  predicate Used(m: seq<Pair>, n: nat) {
    exists i :: 0 <= i < |m| && m[i].1 == n
  }

  /** The variables of `score`'s outer loop: `map`, `unmapped_rules`, `unmapped_tnodes`, `current_score`. */
  datatype State = State(mapping: seq<Pair>, rulePool: seq<nat>, nodePool: seq<nat>, current: real)

  /**
   * The loop invariant of `score`: the mapping is injective, the pools hold exactly
   * the unmapped rules and the unused nodes, each once, and `current_score` is the
   * score of the mapping.
   */
  ghost predicate Inv(P: Problem, st: State) {
    ValidProblem(P) && ValidMapping(P, st.mapping) &&
    Distinct(st.rulePool) && Distinct(st.nodePool) &&
    Below(st.rulePool, |P.rules|) && Below(st.nodePool, |P.parse|) &&
    (forall r: nat :: r < |P.rules| ==> (r in st.rulePool <==> NodeOf(st.mapping, r).None?)) &&
    (forall n: nat :: n < |P.parse| ==> (n in st.nodePool <==> !Used(st.mapping, n))) &&
    |st.mapping| + |st.rulePool| == |P.rules| &&
    |st.mapping| + |st.nodePool| == |P.parse| &&
    st.current >= 0.0 &&
    (|P.rules| > 0 ==> st.current == MapScore(P, st.mapping)) &&
    (|P.rules| == 0 ==> st.current == 0.0)
  }

  /** How `score` ends: with the full mapping, early with a bare score, or with `ValueError`. */
  datatype Outcome = Finished(mapping: seq<Pair>, score: real) | StoppedEarly(mapping: seq<Pair>, score: real) | OutOfNodes

  /** The state before the first round: nothing mapped, every rule and node in its pool, score 0. */
  function Init(P: Problem): (st: State)
    requires ValidProblem(P)
    ensures Inv(P, st)
  {
    var st := State([], Range(|P.rules|), Range(|P.parse|), 0.0);
    InitInv(P, st);
    st
  }

  lemma InitInv(P: Problem, st: State)
    requires ValidProblem(P) && st == State([], Range(|P.rules|), Range(|P.parse|), 0.0)
    ensures Inv(P, st)
  {
    forall r: nat | r < |P.rules| ensures r in st.rulePool {
      assert st.rulePool[r] == r;
    }
    forall n: nat | n < |P.parse| ensures n in st.nodePool {
      assert st.nodePool[n] == n;
    }
    if |P.rules| > 0 {
      assert PrefixLen(P, []) == 0;
      assert MappedRuleSet(P, []) == [];
      CardPositive(P.rules);
    }
  }

  /** Removing a pool entry keeps the pool free of repetitions and within bounds. */
  lemma PoolRemove(pool: seq<nat>, x: nat, bound: nat)
    requires Distinct(pool) && Below(pool, bound)
    ensures Distinct(RemoveFirst(pool, x)) && Below(RemoveFirst(pool, x), bound)
    ensures forall y :: y in RemoveFirst(pool, x) <==> y in pool && y != x
  {
    RemoveFirstDistinct(pool, x);
    var r := RemoveFirst(pool, x);
    forall i | 0 <= i < |r| ensures r[i] < bound {
      assert r[i] in r;
      var k :| 0 <= k < |pool| && pool[k] == r[i];
    }
  }

  /** Appending a pair whose rule is unmapped and whose node is unused keeps the mapping injective. */
  lemma AppendValid(P: Problem, m: seq<Pair>, p: Pair)
    requires ValidMapping(P, m) && PairInRange(P, p)
    requires NodeOf(m, p.0).None? && !Used(m, p.1)
    ensures ValidMapping(P, m + [p])
    ensures forall n: nat :: Used(m + [p], n) <==> Used(m, n) || n == p.1
  {
    var m' := m + [p];
    forall i, j | 0 <= i < j < |m'| ensures m'[i].0 != m'[j].0 && m'[i].1 != m'[j].1 {
      if j == |m| {
        assert m'[i] == m[i];
      }
    }
    forall n: nat ensures Used(m', n) <==> Used(m, n) || n == p.1 {
      if Used(m', n) && n != p.1 {
        var i :| 0 <= i < |m'| && m'[i].1 == n;
        assert m[i].1 == n;
      }
      if Used(m, n) {
        var i :| 0 <= i < |m| && m[i].1 == n;
        assert m'[i].1 == n;
      }
      assert m'[|m|].1 == p.1;
    }
  }

  /** Committing a pair drawn from the pools with a better score keeps the invariant. */
  lemma CommitKeepsInv(P: Problem, st: State, p: Pair)
    requires Inv(P, st) && p.0 in st.rulePool && p.1 in st.nodePool
    requires InRange(P, st.mapping + [p]) && |P.rules| > 0
    requires MapScore(P, st.mapping + [p]) > st.current
    ensures Inv(P, State(st.mapping + [p], RemoveFirst(st.rulePool, p.0), RemoveFirst(st.nodePool, p.1), MapScore(P, st.mapping + [p])))
  {
    var m, m' := st.mapping, st.mapping + [p];
    PoolRemove(st.rulePool, p.0, |P.rules|);
    PoolRemove(st.nodePool, p.1, |P.parse|);
    AppendValid(P, m, p);
    forall r: nat | r < |P.rules| ensures r in RemoveFirst(st.rulePool, p.0) <==> NodeOf(m', r).None? {
      NodeOfAppend(m, p, r);
    }
  }

  /**
   * The outer loop of `score`: while rules remain, fail when no node remains, choose the
   * best pair, stop early (keeping the old score) when committing it does not raise
   * the score, otherwise commit it and take both out of their pools.
   */
  function Run(P: Problem, st: State): Outcome
    requires Inv(P, st)
    decreases |st.rulePool|
  {
    if st.rulePool == [] then Finished(st.mapping, st.current)
    else if st.nodePool == [] then OutOfNodes
    else
      assert st.rulePool[0] < |P.rules|;
      var p := Choose(P, st.mapping, st.rulePool, st.nodePool);
      var next := st.mapping + [p];
      assert PairInRange(P, p);
      AppendInRange(P, st.mapping, p);
      var score := MapScore(P, next);
      if st.current >= score then StoppedEarly(st.mapping, st.current)
      else
        CommitKeepsInv(P, st, p);
        Run(P, State(next, RemoveFirst(st.rulePool, p.0), RemoveFirst(st.nodePool, p.1), score))
  }

  /** A round whose chosen pair raises the score commits it and continues from the new state. */
  lemma RunCommits(P: Problem, st: State, p: Pair)
    requires Inv(P, st) && st.rulePool != [] && st.nodePool != [] && |P.rules| > 0
    requires p == Choose(P, st.mapping, st.rulePool, st.nodePool)
    requires MapScore(P, st.mapping + [p]) > st.current
    ensures Inv(P, State(st.mapping + [p], RemoveFirst(st.rulePool, p.0), RemoveFirst(st.nodePool, p.1), MapScore(P, st.mapping + [p])))
    ensures Run(P, st) == Run(P, State(st.mapping + [p], RemoveFirst(st.rulePool, p.0), RemoveFirst(st.nodePool, p.1), MapScore(P, st.mapping + [p])))
  {
    assert PairInRange(P, p);
    AppendInRange(P, st.mapping, p);
    CommitKeepsInv(P, st, p);
  }

  // ---------------------------------------------------------------------------
  // What the search guarantees

  /** What the `k`-th commit added to the score. */
  function Gain(P: Problem, m: seq<Pair>, k: nat): real
    requires Ctx(P, m) && k < |m|
  {
    assert InRange(P, m[..k]) && InRange(P, m[..k + 1]);
    MapScore(P, m[..k + 1]) - MapScore(P, m[..k])
  }

  /**
   * A returned mapping: injective, an extension of the starting one, no longer than
   * either side, scored by `score_wrt_map`, and built by commits that each raised
   * the score.
   */
  ghost predicate Sound(P: Problem, m0: seq<Pair>, m: seq<Pair>, score: real)
    requires AllWellFormed(P.rules) && AllWellFormed(P.parse)
  {
    ValidMapping(P, m) && m0 <= m && |m| <= |P.rules| && |m| <= |P.parse| &&
    (|P.rules| == 0 ==> m == [] && score == 0.0) &&
    (|P.rules| > 0 ==> score == MapScore(P, m) && Improving(P, m, |m0|))
  }

  /** Every commit from position `from` on raised the score. */
  ghost predicate Improving(P: Problem, m: seq<Pair>, from: nat)
    requires Ctx(P, m)
  {
    forall k :: from <= k < |m| ==> Gain(P, m, k) > 0.0
  }

  /** No pair of an unmapped rule and an unused node would raise the score above `score`. */
  ghost predicate LocallyMaximal(P: Problem, m: seq<Pair>, score: real)
    requires Ctx(P, m)
  {
    forall r: nat, n: nat :: r < |P.rules| && n < |P.parse| && NodeOf(m, r).None? && !Used(m, n) ==>
      Trial(P, m, (r, n)) <= score
  }

  /**
   * The outcomes of the search: it fails only when the parse has fewer nodes than the
   * rule set has rules; a finished search maps every rule; an early stop leaves a
   * mapping that no single further pair improves.
   */
  lemma {:induction false} RunFacts(P: Problem, st: State)
    requires Inv(P, st)
    ensures Run(P, st).OutOfNodes? ==> |P.parse| < |P.rules|
    ensures !Run(P, st).OutOfNodes? ==> Sound(P, st.mapping, Run(P, st).mapping, Run(P, st).score)
    ensures Run(P, st).Finished? ==> |Run(P, st).mapping| == |P.rules|
    ensures Run(P, st).StoppedEarly? ==>
      |Run(P, st).mapping| < |P.rules| && |Run(P, st).mapping| < |P.parse| &&
      LocallyMaximal(P, Run(P, st).mapping, Run(P, st).score)
    decreases |st.rulePool|
  {
    var m := st.mapping;
    if st.rulePool == [] {
      assert Run(P, st) == Finished(m, st.current);
      if |P.rules| == 0 {
        assert m == [];
      }
    } else if st.nodePool == [] {
      assert Run(P, st) == OutOfNodes;
    } else {
      assert st.rulePool[0] < |P.rules|;
      var p := Choose(P, m, st.rulePool, st.nodePool);
      assert InRange(P, m + [p]);
      if st.current >= MapScore(P, m + [p]) {
        assert Run(P, st) == StoppedEarly(m, st.current);
        StopFacts(P, st, p);
      } else {
        CommitKeepsInv(P, st, p);
        var st' := State(m + [p], RemoveFirst(st.rulePool, p.0), RemoveFirst(st.nodePool, p.1), MapScore(P, m + [p]));
        RunFacts(P, st');
        assert Run(P, st) == Run(P, st');
        if !Run(P, st').OutOfNodes? {
          CommitGain(P, m, p, Run(P, st').mapping, Run(P, st').score);
        }
      }
    }
  }

  /** An early stop: the chosen pair is the best there is, so no pair beats the current score. */
  lemma StopFacts(P: Problem, st: State, p: Pair)
    requires Inv(P, st) && st.rulePool != [] && st.nodePool != [] && |P.rules| > 0
    requires p == Choose(P, st.mapping, st.rulePool, st.nodePool)
    requires Trial(P, st.mapping, p) <= st.current
    ensures |st.mapping| < |P.rules| && |st.mapping| < |P.parse|
    ensures LocallyMaximal(P, st.mapping, st.current)
  {
    var m := st.mapping;
    forall r: nat, n: nat | r < |P.rules| && n < |P.parse| && NodeOf(m, r).None? && !Used(m, n)
      ensures Trial(P, m, (r, n)) <= st.current
    {
      assert r in st.rulePool && n in st.nodePool;
    }
  }

  /** The commit of `p` is the first step of the rest of the run, and it raised the score. */
  lemma CommitGain(P: Problem, m: seq<Pair>, p: Pair, m': seq<Pair>, score: real)
    requires AllWellFormed(P.rules) && AllWellFormed(P.parse) && |P.rules| > 0
    requires InRange(P, m) && InRange(P, m + [p]) && MapScore(P, m + [p]) > MapScore(P, m)
    requires Sound(P, m + [p], m', score)
    ensures Sound(P, m, m', score)
  {
    FirstGain(P, m, p, m');
    ImprovingStep(P, m', |m|);
  }

  /** The gain recorded at position `|m|` of an extension of `m + [p]` is the step from `m` to `m + [p]`. */
  lemma FirstGain(P: Problem, m: seq<Pair>, p: Pair, m': seq<Pair>)
    requires AllWellFormed(P.rules) && AllWellFormed(P.parse) && |P.rules| > 0
    requires InRange(P, m) && InRange(P, m + [p]) && MapScore(P, m + [p]) > MapScore(P, m)
    requires m + [p] <= m' && InRange(P, m')
    ensures Gain(P, m', |m|) > 0.0
  {
    assert m'[..|m| + 1] == m + [p];
    assert m'[..|m|] == m;
  }

  lemma ImprovingStep(P: Problem, m: seq<Pair>, k: nat)
    requires Ctx(P, m) && k < |m| && Improving(P, m, k + 1) && Gain(P, m, k) > 0.0
    ensures Improving(P, m, k)
  {
  }

  /** The nested loops of one round: the running maximum and the candidate list. */
  method CollectCandidates(P: Problem, mapping: seq<Pair>, unmappedRules: seq<nat>, unmappedTnodes: seq<nat>)
      returns (max: real, candidates: seq<Pair>)
    requires ValidProblem(P) && Ctx(P, mapping)
    requires Below(unmappedRules, |P.rules|) && Below(unmappedTnodes, |P.parse|)
    ensures Scan(max, candidates) == ScanAll(TrialFn(P, mapping), Scan(0.0, []), unmappedRules, unmappedTnodes)
  {
    var f := TrialFn(P, mapping);
    max := 0.0;
    candidates := [];
    for i := 0 to |unmappedRules|
      invariant Scan(max, candidates) == ScanAll(f, Scan(0.0, []), unmappedRules[..i], unmappedTnodes)
    {
      var rule := unmappedRules[i];
      ghost var before := Scan(max, candidates);
      for j := 0 to |unmappedTnodes|
        invariant Scan(max, candidates) == ScanRow(f, before, rule, unmappedTnodes[..j])
      {
        var tnode := unmappedTnodes[j];
        assert PairInRange(P, (rule, tnode));
        AppendInRange(P, mapping, (rule, tnode));
        var sc := ScoreWrtMap(P, mapping + [(rule, tnode)]);
        assert sc == f((rule, tnode));
        ghost var next := Visit(Scan(max, candidates), (rule, tnode), sc);
        assert ScanRow(f, before, rule, unmappedTnodes[..j + 1]) == next by {
          assert unmappedTnodes[..j + 1][..j] == unmappedTnodes[..j];
        }
        if sc > max {
          max := sc;
          candidates := [(rule, tnode)];
        }
        if sc == max {
          candidates := candidates + [(rule, tnode)];
        }
        assert Scan(max, candidates) == next;
      }
      assert unmappedTnodes[..|unmappedTnodes|] == unmappedTnodes;
      assert ScanAll(f, Scan(0.0, []), unmappedRules[..i + 1], unmappedTnodes) == ScanRow(f, before, rule, unmappedTnodes) by {
        assert unmappedRules[..i + 1][..i] == unmappedRules[..i];
      }
    }
    assert unmappedRules[..|unmappedRules|] == unmappedRules;
  }

  /** The tie-break loop: the last candidate of maximal connectivity. */
  method BreakTie(P: Problem, candidates: seq<Pair>) returns (newMap: Pair)
    requires AllWellFormed(P.rules) && |candidates| > 0
    requires forall i :: 0 <= i < |candidates| ==> PairInRange(P, candidates[i])
    ensures newMap == candidates[PickIndex(P, candidates)]
  {
    newMap := candidates[0];
    var maxCand := 0;
    for i := 0 to |candidates|
      invariant i > 0 ==> newMap == candidates[PickIndex(P, candidates[..i])] && maxCand == Conn(P, newMap)
      invariant i == 0 ==> maxCand == 0
    {
      var candScore := Connectivity(P, candidates[i]);
      assert candidates[..i + 1][..i] == candidates[..i];
      if candScore >= maxCand {
        maxCand := candScore;
        newMap := candidates[i];
      }
    }
    assert candidates[..|candidates|] == candidates;
  }

  /**
   * `score`'s search loop as the source writes it: nested scans collecting the
   * candidates, the connectivity tie-break, the commit and the early return.
   */
  method Search(P: Problem) returns (out: Outcome)
    requires ValidProblem(P)
    ensures out == Run(P, Init(P))
  {
    var mapping: seq<Pair> := [];
    var currentScore := 0.0;
    var unmappedTnodes: seq<nat> := Range(|P.parse|);
    var unmappedRules: seq<nat> := Range(|P.rules|);
    while unmappedRules != []
      invariant Inv(P, State(mapping, unmappedRules, unmappedTnodes, currentScore))
      invariant Run(P, State(mapping, unmappedRules, unmappedTnodes, currentScore)) == Run(P, Init(P))
      decreases |unmappedRules|
    {
      if unmappedTnodes == [] {
        return OutOfNodes;
      }
      assert unmappedRules[0] < |P.rules|;
      var max, candidates := CollectCandidates(P, mapping, unmappedRules, unmappedTnodes);
      TrialFnNonneg(P, mapping);
      ChooseFacts(P, TrialFn(P, mapping), unmappedRules, unmappedTnodes, Scan(max, candidates));
      var newMap := BreakTie(P, candidates);
      assert newMap == Choose(P, mapping, unmappedRules, unmappedTnodes);
      AppendInRange(P, mapping, newMap);
      var newScore := ScoreWrtMap(P, mapping + [newMap]);
      if currentScore >= newScore {
        return StoppedEarly(mapping, currentScore);
      }
      CommitKeepsInv(P, State(mapping, unmappedRules, unmappedTnodes, currentScore), newMap);
      unmappedRules := RemoveFirst(unmappedRules, newMap.0);
      unmappedTnodes := RemoveFirst(unmappedTnodes, newMap.1);
      mapping := mapping + [newMap];
      currentScore := newScore;
    }
    return Finished(mapping, currentScore);
  }
}
