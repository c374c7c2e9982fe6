/**
 * The matching engine shared by the TripsIM copy and the older IM copy of the
 * matcher: identity-propagating translation of the rule set (`element_mapping`),
 * the normalised score of a mapping (`score_wrt_map`) and the greedy search
 * (`score`). The element equality and the per-node scorer differ between the
 * copies, so they are parameters of the problem.
 */
module Engine {
  import opened Basics
  import opened Frames

  /** One mapping entry: (index of a rule in the rule set, index of a node in the parse). */
  type Pair = (nat, nat)

  /**
   * A matching problem: the node scorer (`Rule.score`), the element equality used by
   * `in` and `==`, the rule set and the parse.
   */
  datatype Problem = Problem(
    sc: (Node, Node) -> nat,
    eq: (Element, Element) -> bool,
    rules: seq<Node>,
    parse: seq<Node>)

  /**
   * What the engine relies on: loader-shaped nodes on both sides and an equality that
   * holds between an element and itself (every copy's `__eq__` does).
   */
  ghost predicate ValidProblem(P: Problem) {
    AllWellFormed(P.rules) && AllWellFormed(P.parse) && forall e :: P.eq(e, e)
  }

  /** Every entry names an existing rule and an existing node. */
  predicate InRange(P: Problem, m: seq<Pair>) {
    forall i :: 0 <= i < |m| ==> m[i].0 < |P.rules| && m[i].1 < |P.parse|
  }

  /** An injective partial mapping from rules to nodes. */
  predicate ValidMapping(P: Problem, m: seq<Pair>) {
    InRange(P, m) &&
    forall i, j :: 0 <= i < j < |m| ==> m[i].0 != m[j].0 && m[i].1 != m[j].1
  }

  /**
   * `map[rule]`: the node the mapping gives rule `r`, if any (first entry for `r`).
   * This is `Frames.Get` on a dictionary keyed by rule positions instead of elements.
   */
  function NodeOf(m: seq<Pair>, r: nat): (n: Option<nat>)
    ensures n.None? <==> forall i :: 0 <= i < |m| ==> m[i].0 != r
    ensures n.Some? ==> exists i :: 0 <= i < |m| && m[i] == (r, n.value)
  {
    if m == [] then None
    else if m[0].0 == r then Some(m[0].1)
    else
      var n := NodeOf(m[1..], r);
      assert forall i :: 1 <= i < |m| ==> m[i] == m[1..][i - 1];
      n
  }

  /** In an injective mapping, the node found for the rule of an entry is that entry's node. */
  lemma {:induction false} NodeOfAt(m: seq<Pair>, i: nat)
    requires i < |m|
    requires forall a, b :: 0 <= a < b < |m| ==> m[a].0 != m[b].0
    ensures NodeOf(m, m[i].0) == Some(m[i].1)
  {
    if i > 0 {
      assert m[1..][i - 1] == m[i];
      NodeOfAt(m[1..], i - 1);
    }
  }

  /** Adding an entry for a rule that had none maps that rule and changes no other rule. */
  lemma {:induction false} NodeOfAppend(m: seq<Pair>, p: Pair, r: nat)
    requires NodeOf(m, p.0).None?
    ensures NodeOf(m + [p], r) == if r == p.0 then Some(p.1) else NodeOf(m, r)
  {
    if m != [] {
      assert (m + [p])[1..] == m[1..] + [p];
      if m[0].0 != r {
        NodeOfAppend(m[1..], p, r);
      }
    }
  }

  // ---------------------------------------------------------------------------
  // `element_mapping`

  /**
   * The element map of `element_mapping`, after its first loop has visited the first
   * `k` rules: identity of each mapped rule to the identity of its node; a later rule
   * with the same identity overwrites an earlier one.
   */
  function EMap(P: Problem, m: seq<Pair>, k: nat): map<Element, Element>
    requires AllWellFormed(P.rules) && AllWellFormed(P.parse) && InRange(P, m) && k <= |P.rules|
  {
    if k == 0 then map[]
    else
      var prev := EMap(P, m, k - 1);
      match NodeOf(m, k - 1)
      case None => prev
      case Some(n) => prev[Identity(P.rules[k - 1]) := Identity(P.parse[n])]
  }

  /** Some rule before `k` is mapped and has identity `e`. */
  ghost predicate MappedId(P: Problem, m: seq<Pair>, k: nat, e: Element)
    requires AllWellFormed(P.rules) && k <= |P.rules|
  {
    exists i :: 0 <= i < k && NodeOf(m, i).Some? && Identity(P.rules[i]) == e
  }

  /** The keys of the element map are exactly the identities of mapped rules. */
  lemma {:induction false} EMapKeys(P: Problem, m: seq<Pair>, k: nat, e: Element)
    requires AllWellFormed(P.rules) && AllWellFormed(P.parse) && InRange(P, m) && k <= |P.rules|
    ensures e in EMap(P, m, k) <==> MappedId(P, m, k, e)
  {
    if k > 0 {
      EMapKeys(P, m, k - 1, e);
      EMapKeyStep(P, m, k, e);
      MappedStep(P, m, k, e);
    }
  }

  /** The first loop adds `e` as a key exactly when rule `k - 1` is mapped and has identity `e`. */
  lemma EMapKeyStep(P: Problem, m: seq<Pair>, k: nat, e: Element)
    requires AllWellFormed(P.rules) && AllWellFormed(P.parse) && InRange(P, m) && 0 < k <= |P.rules|
    ensures e in EMap(P, m, k) <==> e in EMap(P, m, k - 1) || (NodeOf(m, k - 1).Some? && Identity(P.rules[k - 1]) == e)
  {
    EMapStep(P, m, k);
  }

  /** Rules before `k` with identity `e`: those before `k - 1`, and rule `k - 1` if it qualifies. */
  lemma MappedStep(P: Problem, m: seq<Pair>, k: nat, e: Element)
    requires AllWellFormed(P.rules) && 0 < k <= |P.rules|
    ensures MappedId(P, m, k, e) <==> MappedId(P, m, k - 1, e) || (NodeOf(m, k - 1).Some? && Identity(P.rules[k - 1]) == e)
  {
    if NodeOf(m, k - 1).Some? && Identity(P.rules[k - 1]) == e {
      assert MappedId(P, m, k, e);
    } else if i :| 0 <= i < k && NodeOf(m, i).Some? && Identity(P.rules[i]) == e {
      assert i < k - 1;
    }
  }

  /** The first loop's step for rule `k - 1`: a mapped rule stores its identity's image. */
  lemma EMapStep(P: Problem, m: seq<Pair>, k: nat)
    requires AllWellFormed(P.rules) && AllWellFormed(P.parse) && InRange(P, m) && 0 < k <= |P.rules|
    ensures NodeOf(m, k - 1).None? ==> EMap(P, m, k) == EMap(P, m, k - 1)
    ensures NodeOf(m, k - 1).Some? ==>
      EMap(P, m, k) == EMap(P, m, k - 1)[Identity(P.rules[k - 1]) := Identity(P.parse[NodeOf(m, k - 1).value])]
  {
  }

  /** Rule `i` is mapped, has identity `e`, and no later mapped rule before `k` has that identity. */
  predicate LastMapped(P: Problem, m: seq<Pair>, k: nat, e: Element, i: nat)
    requires AllWellFormed(P.rules) && k <= |P.rules|
  {
    i < k && NodeOf(m, i).Some? && Identity(P.rules[i]) == e &&
    forall j :: i < j < k && NodeOf(m, j).Some? ==> Identity(P.rules[j]) != e
  }

  /**
   * Each key carries the node identity of the LAST mapped rule (in rule-set order)
   * with that identity.
   */
  lemma {:induction false} EMapValue(P: Problem, m: seq<Pair>, k: nat, e: Element)
    requires AllWellFormed(P.rules) && AllWellFormed(P.parse) && InRange(P, m) && k <= |P.rules|
    requires e in EMap(P, m, k)
    ensures exists i :: LastMapped(P, m, k, e, i) && EMap(P, m, k)[e] == Identity(P.parse[NodeOf(m, i).value])
  {
    EMapStep(P, m, k);
    var prev, cur := EMap(P, m, k - 1), EMap(P, m, k);
    var n := NodeOf(m, k - 1);
    if n.Some? && Identity(P.rules[k - 1]) == e {
      assert LastMapped(P, m, k, e, k - 1) && cur[e] == Identity(P.parse[n.value]);
    } else {
      assert e in prev && cur[e] == prev[e];
      EMapValue(P, m, k - 1, e);
      var i: nat :| LastMapped(P, m, k - 1, e, i) && prev[e] == Identity(P.parse[NodeOf(m, i).value]);
      LastMappedExtend(P, m, k, e, i);
    }
  }

  /** A rule that is unmapped or has another identity does not displace the last mapped rule. */
  lemma LastMappedExtend(P: Problem, m: seq<Pair>, k: nat, e: Element, i: nat)
    requires AllWellFormed(P.rules) && 0 < k <= |P.rules| && LastMapped(P, m, k - 1, e, i)
    requires NodeOf(m, k - 1).Some? ==> Identity(P.rules[k - 1]) != e
    ensures LastMapped(P, m, k, e, i)
  {
  }

  /** Whether some rule's identity carries the same string as `e` (`element_to_rule` finds a rule). */
  predicate Governed(P: Problem, e: Element)
    requires AllWellFormed(P.rules)
  {
    FirstGoverning(P.rules, e).Some?
  }

  /**
   * What `element_mapping` stores for one rule value: Terms and Variables that no rule
   * governs are kept as they are; a governed Variable is replaced through the element
   * map, and dropped (None) when the map has no entry for it.
   */
  function TranslateOne(P: Problem, E: map<Element, Element>, e: Element): (r: Option<Element>)
    requires AllWellFormed(P.rules)
    ensures e.Term? || !Governed(P, e) ==> r == Some(e)
    ensures e.Variable? && Governed(P, e) ==> r == (if e in E then Some(E[e]) else None)
  {
    if e.Term? || !Governed(P, e) then Some(e)
    else if e in E then Some(E[e])
    else None
  }

  /**
   * `element_mapping`'s replacement rule on the element map of the mapping itself: a
   * Variable that names some rule is replaced by the node identity of the last mapped
   * rule with that identity, and dropped when no mapped rule has it; Terms and
   * Variables that name no rule are kept.
   */
  lemma TranslateMapped(P: Problem, m: seq<Pair>, e: Element)
    requires AllWellFormed(P.rules) && AllWellFormed(P.parse) && InRange(P, m)
    ensures e.Term? || !Governed(P, e) ==> TranslateOne(P, EMap(P, m, |P.rules|), e) == Some(e)
    ensures e.Variable? && Governed(P, e) && MappedId(P, m, |P.rules|, e) ==>
      exists i :: LastMapped(P, m, |P.rules|, e, i) &&
        TranslateOne(P, EMap(P, m, |P.rules|), e) == Some(Identity(P.parse[NodeOf(m, i).value]))
    ensures e.Variable? && Governed(P, e) && !MappedId(P, m, |P.rules|, e) ==>
      TranslateOne(P, EMap(P, m, |P.rules|), e) == None
  {
    var E := EMap(P, m, |P.rules|);
    EMapKeys(P, m, |P.rules|, e);
    if e in E {
      EMapValue(P, m, |P.rules|, e);
    }
  }

  /** The translated positionals, in order, with dropped values left out. */
  function TranslateElems(P: Problem, E: map<Element, Element>, es: seq<Element>): (r: seq<Element>)
    requires AllWellFormed(P.rules)
    ensures |r| <= |es|
  {
    if es == [] then []
    else
      var init := TranslateElems(P, E, es[..|es| - 1]);
      match TranslateOne(P, E, es[|es| - 1])
      case Some(x) => init + [x]
      case None => init
  }

  /** The translated roles, in dictionary order, with dropped values left out. */
  function TranslateKvs(P: Problem, E: map<Element, Element>, kvs: seq<KV>): (r: seq<KV>)
    requires AllWellFormed(P.rules)
    ensures |r| <= |kvs|
  {
    if kvs == [] then []
    else
      var init := TranslateKvs(P, E, kvs[..|kvs| - 1]);
      var (k, v) := kvs[|kvs| - 1];
      match TranslateOne(P, E, v)
      case Some(x) => init + [(k, x)]
      case None => init
  }

  /** The fresh `Rule(positionals=[], kvpairs={})` that `element_mapping` fills for one rule. */
  function Translate(P: Problem, E: map<Element, Element>, r: Node): (t: Node)
    requires AllWellFormed(P.rules)
    ensures Size(t) <= Size(r)
  {
    Node(TranslateElems(P, E, r.positionals), TranslateKvs(P, E, r.kvpairs), [])
  }

  /** Index of the first rule the mapping leaves unmapped (the `break` of `element_mapping`). */
  function PrefixFrom(m: seq<Pair>, n: nat, i: nat): (k: nat)
    requires i <= n
    ensures i <= k <= n
    ensures forall j :: i <= j < k ==> NodeOf(m, j).Some?
    ensures k < n ==> NodeOf(m, k).None?
    decreases n - i
  {
    if i == n || NodeOf(m, i).None? then i else PrefixFrom(m, n, i + 1)
  }

  /** The number of rules that `element_mapping` translates: all rules before the first unmapped one. */
  function PrefixLen(P: Problem, m: seq<Pair>): (k: nat)
    ensures k <= |P.rules|
    ensures forall j :: 0 <= j < k ==> NodeOf(m, j).Some?
    ensures k < |P.rules| ==> NodeOf(m, k).None?
  {
    PrefixFrom(m, |P.rules|, 0)
  }

  /** The first `k` rules, translated under the element map `E`. */
  function TranslatePrefix(P: Problem, E: map<Element, Element>, k: nat): (ts: seq<Node>)
    requires AllWellFormed(P.rules) && k <= |P.rules|
    ensures |ts| == k
  {
    if k == 0 then [] else TranslatePrefix(P, E, k - 1) + [Translate(P, E, P.rules[k - 1])]
  }

  /** `element_mapping(map, rule_set)`: the translated rule set; entry i stands for rule i. */
  function MappedRuleSet(P: Problem, m: seq<Pair>): seq<Node>
    requires AllWellFormed(P.rules) && AllWellFormed(P.parse) && InRange(P, m)
  {
    TranslatePrefix(P, EMap(P, m, |P.rules|), PrefixLen(P, m))
  }

  /** The first inner loop of `element_mapping`: the rule's positionals. */
  method TranslatePositionals(P: Problem, E: map<Element, Element>, i: nat) returns (positionals: seq<Element>)
    requires ValidProblem(P) && i < |P.rules|
    ensures positionals == TranslateElems(P, E, P.rules[i].positionals)
  {
    var ps := P.rules[i].positionals;
    positionals := [];
    for j := 0 to |ps|
      invariant positionals == TranslateElems(P, E, ps[..j])
    {
      var pos := ps[j];
      assert ps[..j + 1][..j] == ps[..j];
      TranslateStep(P, E, i, pos);
      var owner := ElementToRule(P.eq, pos, P.rules);
      if pos.Term? || owner.value.None? {
        positionals := positionals + [pos];
      } else if pos in E {
        positionals := positionals + [E[pos]];
      }
    }
    assert ps[..|ps|] == ps;
  }

  /** A value of rule `i` is translated according to what `element_to_rule` finds for it. */
  lemma TranslateStep(P: Problem, E: map<Element, Element>, i: nat, v: Element)
    requires ValidProblem(P) && i < |P.rules| && Occurs(P.rules[i], v)
    ensures ElementToRule(P.eq, v, P.rules).Ok?
    ensures TranslateOne(P, E, v) ==
      if v.Term? || ElementToRule(P.eq, v, P.rules).value.None? then Some(v)
      else if v in E then Some(E[v]) else None
  {
    ElementToRuleSpec(P.eq, v, P.rules, i);
  }

  /** One round of the roles loop: the `j`-th role of rule `i` is kept, rewritten or dropped. */
  lemma RoleStep(P: Problem, E: map<Element, Element>, i: nat, j: nat)
    requires ValidProblem(P) && i < |P.rules| && j < |P.rules[i].kvpairs|
    ensures ElementToRule(P.eq, P.rules[i].kvpairs[j].1, P.rules).Ok?
    ensures var kvs := P.rules[i].kvpairs; var k, v := kvs[j].0, kvs[j].1;
      (v.Term? || ElementToRule(P.eq, v, P.rules).value.None?) ==>
        TranslateKvs(P, E, kvs[..j + 1]) == TranslateKvs(P, E, kvs[..j]) + [(k, v)]
    ensures var kvs := P.rules[i].kvpairs; var k, v := kvs[j].0, kvs[j].1;
      (v.Variable? && ElementToRule(P.eq, v, P.rules).value.Some? && v in E) ==>
        TranslateKvs(P, E, kvs[..j + 1]) == TranslateKvs(P, E, kvs[..j]) + [(k, E[v])]
    ensures var kvs := P.rules[i].kvpairs; var v := kvs[j].1;
      (v.Variable? && ElementToRule(P.eq, v, P.rules).value.Some? && v !in E) ==>
        TranslateKvs(P, E, kvs[..j + 1]) == TranslateKvs(P, E, kvs[..j])
  {
    var kvs := P.rules[i].kvpairs;
    assert kvs[..j + 1][..j] == kvs[..j];
    assert kvs[j].1 == Values(kvs)[j];
    TranslateStep(P, E, i, kvs[j].1);
  }

  /** The second inner loop of `element_mapping`: the rule's roles, in dictionary order. */
  method TranslateRoles(P: Problem, E: map<Element, Element>, i: nat) returns (kvpairs: seq<KV>)
    requires ValidProblem(P) && i < |P.rules|
    ensures kvpairs == TranslateKvs(P, E, P.rules[i].kvpairs)
  {
    var kvs := P.rules[i].kvpairs;
    kvpairs := [];
    for j := 0 to |kvs|
      invariant kvpairs == TranslateKvs(P, E, kvs[..j])
    {
      RoleStep(P, E, i, j);
      var k, v := kvs[j].0, kvs[j].1;
      var owner := ElementToRule(P.eq, v, P.rules);
      ghost var next := TranslateKvs(P, E, kvs[..j + 1]);
      if v.Term? || owner.value.None? {
        kvpairs := kvpairs + [(k, v)];
        assert kvpairs == next;
      } else if v in E {
        kvpairs := kvpairs + [(k, E[v])];
        assert kvpairs == next;
      } else {
        assert kvpairs == next;
      }
    }
    assert kvs[..|kvs|] == kvs;
  }

  /**
   * `element_mapping`: first builds the element map from the mapped rules, then
   * translates the rules in order and stops at the first unmapped one.
   */
  method ElementMapping(P: Problem, m: seq<Pair>) returns (mapped: seq<Node>)
    requires ValidProblem(P) && InRange(P, m)
    ensures mapped == MappedRuleSet(P, m)
  {
    var E: map<Element, Element> := map[];
    for k := 0 to |P.rules|
      invariant E == EMap(P, m, k)
    {
      EMapStep(P, m, k + 1);
      var n := NodeOf(m, k);
      if n.Some? {
        E := E[Identity(P.rules[k]) := Identity(P.parse[n.value])];
      }
    }
    assert E == EMap(P, m, |P.rules|);
    ghost var len := PrefixLen(P, m);
    mapped := [];
    var i := 0;
    while i < |P.rules|
      invariant i <= len
      invariant mapped == TranslatePrefix(P, E, i)
    {
      if NodeOf(m, i).None? {
        break;
      }
      var positionals := TranslatePositionals(P, E, i);
      var kvpairs := TranslateRoles(P, E, i);
      assert TranslatePrefix(P, E, i + 1) == TranslatePrefix(P, E, i) + [Node(positionals, kvpairs, [])];
      mapped := mapped + [Node(positionals, kvpairs, [])];
      i := i + 1;
    }
    assert i == len;
  }

  // ---------------------------------------------------------------------------
  // `score_wrt_map`

  /** Summed node scores of the first `k` translated rules against the nodes the mapping gives them. */
  function Inter(P: Problem, m: seq<Pair>, ts: seq<Node>, k: nat): nat
    requires InRange(P, m) && k <= |ts| && k <= PrefixLen(P, m)
  {
    if k == 0 then 0
    else Inter(P, m, ts, k - 1) + P.sc(ts[k - 1], P.parse[NodeOf(m, k - 1).value])
  }

  /** The numerator of `score_wrt_map`: summed scores of the translated mapped rules. */
  function Intersection(P: Problem, m: seq<Pair>): nat
    requires AllWellFormed(P.rules) && AllWellFormed(P.parse) && InRange(P, m)
  {
    var ts := MappedRuleSet(P, m);
    Inter(P, m, ts, |ts|)
  }

  /** `score_wrt_map`: the intersection divided by the cardinality of the rule set. */
  function MapScore(P: Problem, m: seq<Pair>): (s: real)
    requires AllWellFormed(P.rules) && AllWellFormed(P.parse) && InRange(P, m) && |P.rules| > 0
    ensures 0.0 <= s
  {
    CardPositive(P.rules);
    Intersection(P, m) as real / Card(P.rules) as real
  }

  /** `score_wrt_map` as the source computes it: translate, then sum the node scores in a loop. */
  method ScoreWrtMap(P: Problem, m: seq<Pair>) returns (score: real)
    requires ValidProblem(P) && InRange(P, m) && |P.rules| > 0
    ensures score == MapScore(P, m)
  {
    var intersection := 0;
    var mapped := ElementMapping(P, m);
    for i := 0 to |mapped|
      invariant intersection == Inter(P, m, mapped, i)
    {
      var n := NodeOf(m, i);
      if n.Some? {
        intersection := intersection + P.sc(mapped[i], P.parse[n.value]);
      }
    }
    var card := Cardinality(P.rules);
    CardPositive(P.rules);
    score := intersection as real / card as real;
  }

  /** A node scorer never credits a rule with more than its own number of slots. */
  ghost predicate Bounded(sc: (Node, Node) -> nat) {
    forall t, n :: sc(t, n) <= Size(t)
  }

  lemma {:induction false} TranslatePrefixAt(P: Problem, E: map<Element, Element>, k: nat, i: nat)
    requires AllWellFormed(P.rules) && i < k <= |P.rules|
    ensures TranslatePrefix(P, E, k)[i] == Translate(P, E, P.rules[i])
  {
    if i < k - 1 {
      TranslatePrefixAt(P, E, k - 1, i);
    }
  }

  lemma InterBound(P: Problem, m: seq<Pair>, k: nat)
    requires AllWellFormed(P.rules) && AllWellFormed(P.parse) && InRange(P, m) && Bounded(P.sc)
    requires k <= PrefixLen(P, m)
    ensures Inter(P, m, MappedRuleSet(P, m), k) <= Card(P.rules[..k])
  {
    var ts, E := MappedRuleSet(P, m), EMap(P, m, |P.rules|);
    forall j | 0 <= j < k
      ensures Size(ts[j]) <= Size(P.rules[j])
    {
      TranslatePrefixAt(P, E, PrefixLen(P, m), j);
    }
    InterBoundFor(P, m, ts, k);
  }

  /** Node scores bounded by translated sizes, themselves bounded by rule sizes, sum to at most the cardinality. */
  lemma {:induction false} InterBoundFor(P: Problem, m: seq<Pair>, ts: seq<Node>, k: nat)
    requires InRange(P, m) && Bounded(P.sc) && k <= |ts| && k <= PrefixLen(P, m)
    requires forall j :: 0 <= j < k ==> Size(ts[j]) <= Size(P.rules[j])
    ensures Inter(P, m, ts, k) <= Card(P.rules[..k])
  {
    if k > 0 {
      InterBoundFor(P, m, ts, k - 1);
      var n := P.parse[NodeOf(m, k - 1).value];
      assert P.sc(ts[k - 1], n) <= Size(ts[k - 1]);
      assert P.rules[..k][..k - 1] == P.rules[..k - 1];
    }
  }

  /** With a bounded node scorer, every mapping scores between 0 and 1. */
  lemma MapScoreBounds(P: Problem, m: seq<Pair>)
    requires AllWellFormed(P.rules) && AllWellFormed(P.parse) && InRange(P, m) && |P.rules| > 0
    requires Bounded(P.sc)
    ensures 0.0 <= MapScore(P, m) <= 1.0
  {
    var k := PrefixLen(P, m);
    InterBound(P, m, k);
    CardPrefix(P.rules, k);
    CardPositive(P.rules);
    RatioBounds(Intersection(P, m), Card(P.rules));
  }

  lemma RatioBounds(a: nat, c: nat)
    requires 0 < c && a <= c
    ensures 0.0 <= a as real / c as real <= 1.0
  {
  }

  // ---------------------------------------------------------------------------
  // A rule set scored against itself

  /** Rule `i` to node `i`, for each of the first `n` rules. */
  function IdentityMapping(n: nat): (m: seq<Pair>)
    ensures |m| == n && forall i :: 0 <= i < n ==> m[i] == (i, i)
  {
    seq(n, i requires 0 <= i < n => (i, i))
  }

  /** Every value of every rule carries the constructor its `?` prefix calls for, as the loaders build it. */
  predicate PrintableRules(rs: seq<Node>) {
    forall i :: 0 <= i < |rs| ==>
      (forall j :: 0 <= j < |rs[i].positionals| ==> Printable(rs[i].positionals[j])) &&
      (forall j :: 0 <= j < |rs[i].kvpairs| ==> Printable(rs[i].kvpairs[j].1))
  }

  /** The node scorer gives a node whose slots are those of a rule full marks against that rule. */
  ghost predicate SelfScoring(P: Problem) {
    forall t: Node, n: Node :: n in P.rules && t.positionals == n.positionals && t.kvpairs == n.kvpairs ==>
      P.sc(t, n) == Size(n)
  }

  /** Two printable elements with the same string are the same element. */
  lemma PrintableSame(a: Element, b: Element)
    requires Printable(a) && Printable(b) && IdName(a) == IdName(b)
    ensures a == b
  {
    GetElementRoundTrip(a);
    GetElementRoundTrip(b);
  }

  /** Under the identity mapping of a rule set onto itself, every printable value translates to itself. */
  lemma IdentityTranslateOne(P: Problem, e: Element)
    requires AllWellFormed(P.rules) && P.parse == P.rules && PrintableRules(P.rules) && Printable(e)
    ensures TranslateOne(P, EMap(P, IdentityMapping(|P.rules|), |P.rules|), e) == Some(e)
  {
    var n := |P.rules|;
    var m := IdentityMapping(n);
    if e.Variable? && Governed(P, e) {
      var j := FirstGoverning(P.rules, e).value;
      assert Printable(P.rules[j].positionals[1]);
      PrintableSame(Identity(P.rules[j]), e);
      NodeOfAt(m, j);
      assert MappedId(P, m, n, e);
      EMapKeys(P, m, n, e);
      EMapValue(P, m, n, e);
      var i :| LastMapped(P, m, n, e, i) && EMap(P, m, n)[e] == Identity(P.parse[NodeOf(m, i).value]);
      NodeOfAt(m, i);
    }
  }

  lemma {:induction false} IdentityTranslateElems(P: Problem, E: map<Element, Element>, es: seq<Element>)
    requires AllWellFormed(P.rules) && P.parse == P.rules && PrintableRules(P.rules)
    requires E == EMap(P, IdentityMapping(|P.rules|), |P.rules|)
    requires forall j :: 0 <= j < |es| ==> Printable(es[j])
    ensures TranslateElems(P, E, es) == es
  {
    if es != [] {
      IdentityTranslateElems(P, E, es[..|es| - 1]);
      IdentityTranslateOne(P, es[|es| - 1]);
      assert es[..|es| - 1] + [es[|es| - 1]] == es;
    }
  }

  lemma {:induction false} IdentityTranslateKvs(P: Problem, E: map<Element, Element>, kvs: seq<KV>)
    requires AllWellFormed(P.rules) && P.parse == P.rules && PrintableRules(P.rules)
    requires E == EMap(P, IdentityMapping(|P.rules|), |P.rules|)
    requires forall j :: 0 <= j < |kvs| ==> Printable(kvs[j].1)
    ensures TranslateKvs(P, E, kvs) == kvs
  {
    if kvs != [] {
      IdentityTranslateKvs(P, E, kvs[..|kvs| - 1]);
      IdentityTranslateOne(P, kvs[|kvs| - 1].1);
      assert kvs[..|kvs| - 1] + [kvs[|kvs| - 1]] == kvs;
    }
  }

  /** The identity mapping maps every rule, so `element_mapping` translates the whole rule set. */
  lemma IdentityPrefix(P: Problem)
    ensures PrefixLen(P, IdentityMapping(|P.rules|)) == |P.rules|
  {
    var m := IdentityMapping(|P.rules|);
    var k := PrefixLen(P, m);
    if k < |P.rules| {
      NodeOfAt(m, k);
    }
  }

  /** The identity mapping translates every rule to its own slots. */
  lemma IdentityTranslate(P: Problem, i: nat)
    requires AllWellFormed(P.rules) && P.parse == P.rules && PrintableRules(P.rules) && i < |P.rules|
    requires PrefixLen(P, IdentityMapping(|P.rules|)) == |P.rules|
    ensures var t := MappedRuleSet(P, IdentityMapping(|P.rules|))[i];
      t.positionals == P.rules[i].positionals && t.kvpairs == P.rules[i].kvpairs
  {
    var n := |P.rules|;
    var m := IdentityMapping(n);
    var E := EMap(P, m, n);
    TranslatePrefixAt(P, E, n, i);
    IdentityTranslateElems(P, E, P.rules[i].positionals);
    IdentityTranslateKvs(P, E, P.rules[i].kvpairs);
  }

  lemma {:induction false} IdentityInter(P: Problem, k: nat)
    requires AllWellFormed(P.rules) && P.parse == P.rules && PrintableRules(P.rules) && SelfScoring(P)
    requires k <= |P.rules| && PrefixLen(P, IdentityMapping(|P.rules|)) == |P.rules|
    ensures Inter(P, IdentityMapping(|P.rules|), MappedRuleSet(P, IdentityMapping(|P.rules|)), k) == Card(P.rules[..k])
  {
    if k > 0 {
      var m := IdentityMapping(|P.rules|);
      var ts := MappedRuleSet(P, m);
      IdentityInter(P, k - 1);
      NodeOfAt(m, k - 1);
      IdentityTranslate(P, k - 1);
      var r := P.rules[k - 1];
      assert r in P.rules;
      assert P.sc(ts[k - 1], P.parse[NodeOf(m, k - 1).value]) == Size(r);
      assert Inter(P, m, ts, k) == Inter(P, m, ts, k - 1) + Size(r);
      assert P.rules[..k][..k - 1] == P.rules[..k - 1];
      assert Card(P.rules[..k]) == Card(P.rules[..k - 1]) + Size(r);
    }
  }

  /**
   * What the greedy search promises for a rule set matched against itself: the identity
   * mapping is a one-to-one mapping of every rule, and it scores 1.
   */
  lemma IdentityMapScore(P: Problem)
    requires AllWellFormed(P.rules) && P.parse == P.rules && |P.rules| > 0
    requires PrintableRules(P.rules) && SelfScoring(P)
    ensures ValidMapping(P, IdentityMapping(|P.rules|))
    ensures MapScore(P, IdentityMapping(|P.rules|)) == 1.0
  {
    var n := |P.rules|;
    var m := IdentityMapping(n);
    IdentityPrefix(P);
    IdentityInter(P, n);
    assert P.rules[..n] == P.rules;
    assert Intersection(P, m) == Card(P.rules);
    CardPositive(P.rules);
    SelfRatio(Card(P.rules));
  }

  lemma SelfRatio(c: nat)
    requires c > 0
    ensures c as real / c as real == 1.0
  {
  }
}
