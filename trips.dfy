/**
 * The current matcher (`TripsIM/matcher.py`): the ontology-aware element
 * equivalence, the per-node scorer, the full `score` with binding extraction, the
 * variable list and the grading of rule sets.
 */
module TripsMatcher {
  import opened Basics
  import opened Frames
  import opened Engine
  import opened Greedy

  // ---------------------------------------------------------------------------
  // Element equivalence

  /**
   * The ontology as the matcher sees it: `lookup` maps a lower-cased symbol to its
   * ontology type, if it has one, and `below(t, u)` is the type order `t < u`.
   */
  datatype Ontology = Ontology(lookup: string -> Option<nat>, below: (nat, nat) -> bool)

  function LowerChar(c: char): char {
    if 'A' <= c <= 'Z' then (c as int + 32) as char else c
  }

  /** `str.lower()` on ASCII letters. */
  function Lower(s: string): (r: string)
    ensures |r| == |s| && forall i :: 0 <= i < |s| ==> r[i] == LowerChar(s[i])
  {
    seq(|s|, i requires 0 <= i < |s| => LowerChar(s[i]))
  }

  /** Speech-act and frame indicators match any other symbol. */
  const Indicators: seq<string> := ["speechact", "f", "pro", "pro-set"]

  /** `Term.__eq__` between two Terms. */
  predicate TermEquiv(ont: Ontology, a: string, b: string)
    ensures Lower(a) == Lower(b) ==> TermEquiv(ont, a, b)
  {
    var x, y := Lower(a), Lower(b);
    if x in Indicators || y in Indicators then true
    else
      match (ont.lookup(x), ont.lookup(y))
      case (Some(t1), Some(t2)) => t1 == t2 || ont.below(t1, t2) || ont.below(t2, t1)
      case _ => x == y
  }

  /** `Variable.__eq__` and `Term.__eq__`: the relaxed equality behind `==`, `in` and `remove`. */
  predicate Equiv(ont: Ontology, x: Element, y: Element)
    ensures x == y ==> Equiv(ont, x, y)
    ensures x.Variable? != y.Variable? ==> Equiv(ont, x, y)
  {
    match (x, y)
    case (Variable(a), Variable(b)) => Lower(a) == Lower(b)
    case (Term(a), Term(b)) => TermEquiv(ont, a, b)
    case _ => true
  }

  function Eq(ont: Ontology): (Element, Element) -> bool {
    (x, y) => Equiv(ont, x, y)
  }

  /** The equivalence is symmetric, so the order CPython compares in does not matter. */
  lemma EquivSymmetric(ont: Ontology, x: Element, y: Element)
    ensures Equiv(ont, x, y) == Equiv(ont, y, x)
  {
  }

  /** Every element is equivalent to itself. */
  lemma EquivReflexive(ont: Ontology, x: Element)
    ensures Equiv(ont, x, x)
  {
  }

  /** Two Variables are equivalent exactly when their names agree ignoring case. */
  lemma VariableEquiv(ont: Ontology, a: string, b: string)
    ensures Equiv(ont, Variable(a), Variable(b)) <==> Lower(a) == Lower(b)
    ensures Lower(a) == Lower(b) ==> forall c :: Equiv(ont, Variable(a), Variable(c)) == Equiv(ont, Variable(b), Variable(c))
  {
  }

  /** Two Terms with an indicator on either side are equivalent; otherwise the ontology or the spelling decides. */
  lemma TermEquivCases(ont: Ontology, a: string, b: string)
    ensures Lower(a) in Indicators ==> Equiv(ont, Term(a), Term(b))
    ensures Lower(a) !in Indicators && Lower(b) !in Indicators && (ont.lookup(Lower(a)).None? || ont.lookup(Lower(b)).None?) ==>
      (Equiv(ont, Term(a), Term(b)) <==> Lower(a) == Lower(b))
    ensures Lower(a) !in Indicators && Lower(b) !in Indicators && ont.lookup(Lower(a)).Some? && ont.lookup(Lower(b)).Some? ==>
      (Equiv(ont, Term(a), Term(b)) <==>
        var t1, t2 := ont.lookup(Lower(a)).value, ont.lookup(Lower(b)).value;
        t1 == t2 || ont.below(t1, t2) || ont.below(t2, t1))
  {
  }

  // ---------------------------------------------------------------------------
  // Positional scorer (`Rule._score_positionals`)

  /** `x in pool` / `pool.remove(x)`: the first position holding an element equal to `x`. */
  function FindFirst(eq: (Element, Element) -> bool, x: Element, pool: seq<Element>): (r: Option<nat>)
    ensures r.Some? ==> r.value < |pool| && eq(pool[r.value], x)
    ensures r.Some? ==> forall j :: 0 <= j < r.value ==> !eq(pool[j], x)
    ensures r.None? <==> forall j :: 0 <= j < |pool| ==> !eq(pool[j], x)
  {
    if pool == [] then None
    else if eq(pool[0], x) then Some(0)
    else
      match FindFirst(eq, x, pool[1..])
      case None => None
      case Some(j) => Some(j + 1)
  }

  function RemoveAt(s: seq<Element>, j: nat): (r: seq<Element>)
    requires j < |s|
    ensures |r| == |s| - 1
  {
    s[..j] + s[j + 1..]
  }

  /** The number of rule positionals that find a not yet consumed equivalent node positional. */
  function PosScore(eq: (Element, Element) -> bool, rule: seq<Element>, pool: seq<Element>): (r: nat)
    ensures r <= |rule| && r <= |pool|
  {
    if rule == [] then 0
    else
      match FindFirst(eq, rule[0], pool)
      case Some(j) => 1 + PosScore(eq, rule[1..], RemoveAt(pool, j))
      case None => PosScore(eq, rule[1..], pool)
  }

  /** The node positionals no rule positional consumed. */
  function Leftover(eq: (Element, Element) -> bool, rule: seq<Element>, pool: seq<Element>): seq<Element> {
    if rule == [] then pool
    else
      match FindFirst(eq, rule[0], pool)
      case Some(j) => Leftover(eq, rule[1..], RemoveAt(pool, j))
      case None => Leftover(eq, rule[1..], pool)
  }

  lemma RemoveAtMultiset(s: seq<Element>, j: nat)
    requires j < |s|
    ensures multiset(RemoveAt(s, j)) + multiset{s[j]} == multiset(s)
  {
    assert s == s[..j] + [s[j]] + s[j + 1..];
  }

  /**
   * Each node positional is consumed at most once: the score plus what is left equals
   * the node's positionals, what is left is a sub-multiset of them, and the score is
   * bounded by both list lengths.
   */
  lemma {:induction false} PosScoreBounds(eq: (Element, Element) -> bool, rule: seq<Element>, pool: seq<Element>)
    ensures PosScore(eq, rule, pool) + |Leftover(eq, rule, pool)| == |pool|
    ensures multiset(Leftover(eq, rule, pool)) <= multiset(pool)
    ensures PosScore(eq, rule, pool) <= |rule| && PosScore(eq, rule, pool) <= |pool|
  {
    if rule != [] {
      match FindFirst(eq, rule[0], pool)
      case Some(j) =>
        PosScoreBounds(eq, rule[1..], RemoveAt(pool, j));
        RemoveAtMultiset(pool, j);
      case None =>
        PosScoreBounds(eq, rule[1..], pool);
    }
  }

  /** The score is zero exactly when no rule positional is equivalent to any node positional. */
  lemma {:induction false} PosScoreZero(eq: (Element, Element) -> bool, rule: seq<Element>, pool: seq<Element>)
    ensures PosScore(eq, rule, pool) == 0 <==> forall i, j :: 0 <= i < |rule| && 0 <= j < |pool| ==> !eq(pool[j], rule[i])
  {
    if rule != [] {
      match FindFirst(eq, rule[0], pool)
      case Some(j) =>
      case None =>
        PosScoreZero(eq, rule[1..], pool);
        assert forall i :: 1 <= i < |rule| ==> rule[i] == rule[1..][i - 1];
    }
  }

  /** A list of positionals scored against itself matches every slot when the equality is reflexive. */
  lemma {:induction false} PosScoreSelf(eq: (Element, Element) -> bool, s: seq<Element>)
    requires forall e :: eq(e, e)
    ensures PosScore(eq, s, s) == |s|
  {
    if s != [] {
      assert FindFirst(eq, s[0], s) == Some(0);
      assert RemoveAt(s, 0) == s[1..];
      PosScoreSelf(eq, s[1..]);
    }
  }

  /** `_score_positionals`: walks the rule's positionals, removing each match from a copy of the node's list. */
  method ScorePositionals(eq: (Element, Element) -> bool, rule: Node, tnode: Node) returns (sum: nat)
    ensures sum == PosScore(eq, rule.positionals, tnode.positionals)
  {
    sum := 0;
    var pos := tnode.positionals;
    var ps := rule.positionals;
    for i := 0 to |ps|
      invariant sum + PosScore(eq, ps[i..], pos) == PosScore(eq, ps, tnode.positionals)
    {
      var p := ps[i];
      assert ps[i..][1..] == ps[i + 1..];
      var j := FindFirst(eq, p, pos);
      if j.Some? {
        pos := RemoveAt(pos, j.value);
        sum := sum + 1;
      }
    }
  }

  // ---------------------------------------------------------------------------
  // Node scorer (`Rule.score`) and the problem it defines

  /** `Rule.score`: matched positionals plus matched roles. */
  function NodeScore(ont: Ontology, rule: Node, tnode: Node): nat {
    PosScore(Eq(ont), rule.positionals, tnode.positionals) + KvScore(Eq(ont), rule.kvpairs, tnode.kvpairs)
  }

  method RuleScore(ont: Ontology, rule: Node, tnode: Node) returns (s: nat)
    ensures s == NodeScore(ont, rule, tnode)
  {
    var p := ScorePositionals(Eq(ont), rule, tnode);
    var kv := ScoreKvpairs(Eq(ont), rule, tnode);
    s := p + kv;
  }

  /** A rule never scores more than its own slots against any node. */
  lemma NodeScoreBounded(ont: Ontology)
    ensures Bounded((t, n) => NodeScore(ont, t, n))
  {
    forall t: Node, n: Node ensures NodeScore(ont, t, n) <= Size(t) {
      PosScoreBounds(Eq(ont), t.positionals, n.positionals);
      KvScoreBound(Eq(ont), t.kvpairs, n.kvpairs);
    }
  }

  /** A node scored against itself gets full marks. */
  lemma NodeScoreSelf(ont: Ontology, n: Node)
    requires UniqueKeys(n.kvpairs)
    ensures NodeScore(ont, n, n) == Size(n)
  {
    var eq := Eq(ont);
    forall e ensures eq(e, e) {
      EquivReflexive(ont, e);
    }
    PosScoreSelf(eq, n.positionals);
    KvScoreBound(eq, n.kvpairs, n.kvpairs);
    forall i | 0 <= i < |n.kvpairs| ensures KvHit(eq, n.kvpairs[i], n.kvpairs) {
      GetAt(n.kvpairs, i);
    }
  }

  /** The engine instance `score(rule_set, tparse)` runs on. */
  function TripsProblem(ont: Ontology, rules: seq<Node>, parse: seq<Node>): Problem {
    Problem((t, n) => NodeScore(ont, t, n), Eq(ont), rules, parse)
  }

  lemma TripsValid(ont: Ontology, rules: seq<Node>, parse: seq<Node>)
    requires AllWellFormed(rules) && AllWellFormed(parse)
    ensures ValidProblem(TripsProblem(ont, rules, parse)) && Bounded(TripsProblem(ont, rules, parse).sc)
  {
    forall e ensures Eq(ont)(e, e) {
      EquivReflexive(ont, e);
    }
    NodeScoreBounded(ont);
  }

  // ---------------------------------------------------------------------------
  // Binding extraction (`var_to_node`)

  /** The writes `var2term[v] = tnode.kvpairs[k]` of one mapped pair's roles, for keys the node has. */
  function RoleWrites(kvs: seq<KV>, nodeKvs: seq<KV>): seq<KV> {
    if kvs == [] then []
    else
      var (k, v) := kvs[|kvs| - 1];
      RoleWrites(kvs[..|kvs| - 1], nodeKvs) + (match Get(nodeKvs, k) case Some(w) => [(v, w)] case None => [])
  }

  /** Every write of `var_to_node`'s first loop, in order: per mapped pair the identities, then the roles. */
  function Writes(P: Problem, m: seq<Pair>): seq<KV>
    requires AllWellFormed(P.rules) && AllWellFormed(P.parse) && InRange(P, m)
  {
    if m == [] then []
    else
      var (r, n) := m[|m| - 1];
      assert InRange(P, m[..|m| - 1]);
      Writes(P, m[..|m| - 1]) + [(Identity(P.rules[r]), Identity(P.parse[n]))] + RoleWrites(P.rules[r].kvpairs, P.parse[n].kvpairs)
  }

  /** `var2term` of a mapping. */
  function Var2Term(P: Problem, m: seq<Pair>): seq<KV>
    requires AllWellFormed(P.rules) && AllWellFormed(P.parse) && InRange(P, m)
  {
    Assign([], Writes(P, m))
  }

  /** `map.keys()`: the mapped rules in commit order. */
  function MappedRules(P: Problem, m: seq<Pair>): (rs: seq<Node>)
    requires InRange(P, m)
    ensures |rs| == |m| && forall i :: 0 <= i < |m| ==> rs[i] == P.rules[m[i].0]
  {
    seq(|m|, i requires 0 <= i < |m| => P.rules[m[i].0])
  }

  /** One entry of `var2node`: the variable and the index of its rule in the rule set, if any. */
  type NodeBinding = (Element, Option<nat>)

  /** `var2node`: `element_to_rule` over the mapped rules for every key of `var2term`, in order. */
  function Var2Node(P: Problem, m: seq<Pair>, t: seq<KV>): (r: Result<seq<NodeBinding>, MatchError>)
    requires AllWellFormed(P.rules) && InRange(P, m)
    ensures r.Ok? ==> |r.value| == |t| && forall i :: 0 <= i < |t| ==> r.value[i].0 == t[i].0
  {
    if t == [] then Ok([])
    else
      match Var2Node(P, m, t[..|t| - 1])
      case Err(e) => Err(e)
      case Ok(acc) =>
        var x := t[|t| - 1].0;
        match ElementToRule(P.eq, x, MappedRules(P, m))
        case Err(e) => Err(e)
        case Ok(r) => Ok(acc + [(x, if r.Some? then Some(m[r.value].0) else None)])
  }

  lemma {:induction false} Var2NodeErr(P: Problem, m: seq<Pair>, t: seq<KV>, k: nat)
    requires AllWellFormed(P.rules) && InRange(P, m) && k <= |t|
    requires Var2Node(P, m, t[..k]).Err?
    ensures Var2Node(P, m, t) == Var2Node(P, m, t[..k])
    decreases |t| - k
  {
    if k < |t| {
      assert t[..k + 1][..k] == t[..k];
      Var2NodeErr(P, m, t, k + 1);
    } else {
      assert t[..k] == t;
    }
  }

  /** Some mapped rule mentions `x` as its identity or a role value. */
  ghost predicate MentionedBy(P: Problem, m: seq<Pair>, x: Element)
    requires InRange(P, m)
  {
    exists j :: 0 <= j < |m| && Occurs(P.rules[m[j].0], x)
  }

  /** Some mapped rule's identity spells `x`. */
  ghost predicate GovernedBy(P: Problem, m: seq<Pair>, x: Element)
    requires AllWellFormed(P.rules) && InRange(P, m)
  {
    exists j :: 0 <= j < |m| && IdName(Identity(P.rules[m[j].0])) == IdName(x)
  }

  /** What `element_to_rule` over the mapped rules answers for one mentioned key. */
  lemma LookupMapped(P: Problem, m: seq<Pair>, x: Element)
    requires ValidProblem(P) && InRange(P, m) && MentionedBy(P, m, x)
    ensures ElementToRule(P.eq, x, MappedRules(P, m)).Ok?
    ensures ElementToRule(P.eq, x, MappedRules(P, m)).value.Some? <==> GovernedBy(P, m, x)
  {
    var rs := MappedRules(P, m);
    var j :| 0 <= j < |m| && Occurs(P.rules[m[j].0], x);
    ElementToRuleSpec(P.eq, x, rs, j);
    if GovernedBy(P, m, x) {
      var k :| 0 <= k < |m| && IdName(Identity(P.rules[m[k].0])) == IdName(x);
      assert IdName(Identity(rs[k])) == IdName(x);
    }
  }

  /**
   * When every key is mentioned by some mapped rule, `var2node` does not raise: it has
   * one entry per key, and an entry names a rule exactly when some mapped rule's
   * identity spells the key.
   */
  lemma {:induction false} Var2NodeOk(P: Problem, m: seq<Pair>, t: seq<KV>)
    requires ValidProblem(P) && InRange(P, m)
    requires forall i :: 0 <= i < |t| ==> MentionedBy(P, m, t[i].0)
    ensures Var2Node(P, m, t).Ok?
    ensures var out := Var2Node(P, m, t).value;
      |out| == |t| &&
      forall i :: 0 <= i < |t| ==> out[i].0 == t[i].0 && (out[i].1.Some? <==> GovernedBy(P, m, t[i].0))
  {
    if t != [] {
      var init := t[..|t| - 1];
      assert forall i :: 0 <= i < |init| ==> init[i] == t[i];
      Var2NodeOk(P, m, init);
      Var2NodeSnoc(P, m, t);
      var acc, out := Var2Node(P, m, init).value, Var2Node(P, m, t).value;
      forall i | 0 <= i < |t| ensures out[i].0 == t[i].0 && (out[i].1.Some? <==> GovernedBy(P, m, t[i].0)) {
        if i < |acc| {
          assert out[i] == out[..|acc|][i] == acc[i];
          assert init[i] == t[i];
        } else {
          assert i == |acc| && t[i] == t[|t| - 1];
        }
      }
    }
  }

  /** One more key: its binding is appended, naming a rule exactly when the key is governed. */
  lemma Var2NodeSnoc(P: Problem, m: seq<Pair>, t: seq<KV>)
    requires ValidProblem(P) && InRange(P, m) && t != []
    requires MentionedBy(P, m, t[|t| - 1].0)
    requires Var2Node(P, m, t[..|t| - 1]).Ok?
    ensures Var2Node(P, m, t).Ok?
    ensures var acc, out := Var2Node(P, m, t[..|t| - 1]).value, Var2Node(P, m, t).value;
      out[..|acc|] == acc && |out| == |acc| + 1 && out[|acc|].0 == t[|t| - 1].0 &&
      (out[|acc|].1.Some? <==> GovernedBy(P, m, t[|t| - 1].0))
  {
    LookupMapped(P, m, t[|t| - 1].0);
  }

  lemma {:induction false} RoleWritesFrom(kvs: seq<KV>, nodeKvs: seq<KV>)
    ensures forall i :: 0 <= i < |RoleWrites(kvs, nodeKvs)| ==> RoleWrites(kvs, nodeKvs)[i].0 in Values(kvs)
  {
    if kvs != [] {
      var init := kvs[..|kvs| - 1];
      RoleWritesFrom(init, nodeKvs);
      forall i | 0 <= i < |init| ensures Values(init)[i] in Values(kvs) {
        assert Values(init)[i] == Values(kvs)[i];
      }
      assert kvs[|kvs| - 1].1 == Values(kvs)[|kvs| - 1];
    }
  }

  /** Every variable `var_to_node` writes is the identity or a role value of some mapped rule. */
  lemma {:induction false} WritesOccur(P: Problem, m: seq<Pair>)
    requires AllWellFormed(P.rules) && AllWellFormed(P.parse) && InRange(P, m)
    ensures forall i :: 0 <= i < |Writes(P, m)| ==> MentionedBy(P, m, Writes(P, m)[i].0)
  {
    if m != [] {
      var init := m[..|m| - 1];
      var (r, n) := m[|m| - 1];
      WritesOccur(P, init);
      RoleWritesFrom(P.rules[r].kvpairs, P.parse[n].kvpairs);
      var a: seq<KV> := Writes(P, init);
      var b: seq<KV> := [(Identity(P.rules[r]), Identity(P.parse[n]))] + RoleWrites(P.rules[r].kvpairs, P.parse[n].kvpairs);
      assert Writes(P, m) == a + b;
      forall i | 0 <= i < |a + b| ensures MentionedBy(P, m, (a + b)[i].0) {
        if i < |a| {
          var j :| 0 <= j < |init| && Occurs(P.rules[init[j].0], a[i].0);
          assert init[j] == m[j];
        } else {
          assert Occurs(P.rules[m[|m| - 1].0], (a + b)[i].0);
        }
      }
    }
  }

  /** Every mapped pair writes its rule's identity to its node's identity. */
  lemma {:induction false} WritesIdentities(P: Problem, m: seq<Pair>)
    requires AllWellFormed(P.rules) && AllWellFormed(P.parse) && InRange(P, m)
    ensures forall k :: 0 <= k < |m| ==> (Identity(P.rules[m[k].0]), Identity(P.parse[m[k].1])) in Writes(P, m)
  {
    if m != [] {
      var init := m[..|m| - 1];
      var (r, n) := m[|m| - 1];
      WritesIdentities(P, init);
      var a: seq<KV> := Writes(P, init);
      var b: seq<KV> := [(Identity(P.rules[r]), Identity(P.parse[n]))] + RoleWrites(P.rules[r].kvpairs, P.parse[n].kvpairs);
      assert Writes(P, m) == a + b;
      forall k | 0 <= k < |m| ensures (Identity(P.rules[m[k].0]), Identity(P.parse[m[k].1])) in a + b {
        if k < |init| {
          assert init[k] == m[k];
        } else {
          assert b[0] == (Identity(P.rules[m[k].0]), Identity(P.parse[m[k].1]));
        }
      }
    }
  }

  /** `var2term` holds the last value written under each key, and every mapped rule's identity is bound. */
  lemma Var2TermFacts(P: Problem, m: seq<Pair>)
    requires AllWellFormed(P.rules) && AllWellFormed(P.parse) && InRange(P, m)
    ensures UniqueKeys(Var2Term(P, m))
    ensures forall x :: Get(Var2Term(P, m), x) == LastWrite(Writes(P, m), x)
    ensures forall k :: 0 <= k < |m| ==> Get(Var2Term(P, m), Identity(P.rules[m[k].0])).Some?
  {
    var ws := Writes(P, m);
    var t := Var2Term(P, m);
    forall x ensures Get(t, x) == LastWrite(ws, x) {
      AssignLast(ws, x);
    }
    AssignLast(ws, Term(""));
    WritesIdentities(P, m);
    forall k | 0 <= k < |m| ensures Get(t, Identity(P.rules[m[k].0])).Some? {
      var x := Identity(P.rules[m[k].0]);
      assert ws[IndexOf(ws, (x, Identity(P.parse[m[k].1])))].0 == x;
      LastWriteSpec(ws, x);
    }
  }

  function IndexOf(ws: seq<KV>, w: KV): (i: nat)
    requires w in ws
    ensures i < |ws| && ws[i] == w
  {
    if ws[0] == w then 0 else 1 + IndexOf(ws[1..], w)
  }

  /** Every key of `var2term` is mentioned by a mapped rule. */
  lemma Var2TermMentioned(P: Problem, m: seq<Pair>)
    requires AllWellFormed(P.rules) && AllWellFormed(P.parse) && InRange(P, m)
    ensures forall i :: 0 <= i < |Var2Term(P, m)| ==> MentionedBy(P, m, Var2Term(P, m)[i].0)
  {
    var ws := Writes(P, m);
    var t := Var2Term(P, m);
    AssignLast(ws, Term(""));
    WritesOccur(P, m);
    forall i | 0 <= i < |t| ensures MentionedBy(P, m, t[i].0) {
      GetAt(t, i);
      AssignLast(ws, t[i].0);
      LastWriteSpec(ws, t[i].0);
      var w :| 0 <= w < |ws| && ws[w].0 == t[i].0;
    }
  }

  /**
   * `var_to_node` never raises on a mapping: `var2node` has one entry per key of
   * `var2term`, naming a rule exactly when some mapped rule's identity spells the key.
   */
  lemma VarToNodeFacts(P: Problem, m: seq<Pair>)
    requires ValidProblem(P) && InRange(P, m)
    ensures Var2Node(P, m, Var2Term(P, m)).Ok?
    ensures var t, out := Var2Term(P, m), Var2Node(P, m, Var2Term(P, m)).value;
      |out| == |t| &&
      forall i :: 0 <= i < |t| ==> out[i].0 == t[i].0 && (out[i].1.Some? <==> GovernedBy(P, m, t[i].0))
  {
    Var2TermMentioned(P, m);
    Var2NodeOk(P, m, Var2Term(P, m));
  }

  /** The role loop of `var_to_node` for one mapped pair. */
  method WriteRoles(d: seq<KV>, rule: Node, tnode: Node) returns (var2term: seq<KV>)
    ensures var2term == Assign(d, RoleWrites(rule.kvpairs, tnode.kvpairs))
  {
    var2term := d;
    var kvs := rule.kvpairs;
    for j := 0 to |kvs|
      invariant var2term == Assign(d, RoleWrites(kvs[..j], tnode.kvpairs))
    {
      assert kvs[..j + 1][..j] == kvs[..j];
      var (k, v) := kvs[j];
      var w := Get(tnode.kvpairs, k);
      ghost var prev := RoleWrites(kvs[..j], tnode.kvpairs);
      assert RoleWrites(kvs[..j + 1], tnode.kvpairs) == prev + (match w case Some(u) => [(v, u)] case None => []);
      if w.Some? {
        var e := (v, w.value);
        assert (prev + [e])[..|prev|] == prev;
        var2term := Put(var2term, v, w.value);
      } else {
        assert prev + [] == prev;
      }
    }
    assert kvs[..|kvs|] == kvs;
  }

  /** The first loop of `var_to_node`. */
  method BuildVar2Term(P: Problem, m: seq<Pair>) returns (var2term: seq<KV>)
    requires AllWellFormed(P.rules) && AllWellFormed(P.parse) && InRange(P, m)
    ensures var2term == Var2Term(P, m)
  {
    var2term := [];
    for i := 0 to |m|
      invariant var2term == Assign([], Writes(P, m[..i]))
    {
      assert m[..i + 1][..i] == m[..i];
      var (r, n) := m[i];
      var rule, tnode := P.rules[r], P.parse[n];
      ghost var before := Writes(P, m[..i]);
      ghost var id: seq<KV> := [(Identity(rule), Identity(tnode))];
      var2term := Put(var2term, Identity(rule), Identity(tnode));
      assert var2term == Assign(Assign([], before), id);
      var2term := WriteRoles(var2term, rule, tnode);
      AssignAppend([], before, id);
      AssignAppend([], before + id, RoleWrites(rule.kvpairs, tnode.kvpairs));
      assert Writes(P, m[..i + 1]) == before + id + RoleWrites(rule.kvpairs, tnode.kvpairs);
    }
    assert m[..|m|] == m;
  }

  /** The second loop of `var_to_node`, stopping at the first `element_to_rule` error. */
  method BuildVar2Node(P: Problem, m: seq<Pair>, var2term: seq<KV>) returns (var2node: Result<seq<NodeBinding>, MatchError>)
    requires AllWellFormed(P.rules) && InRange(P, m)
    ensures var2node == Var2Node(P, m, var2term)
  {
    var keys := MappedRules(P, m);
    var acc: seq<NodeBinding> := [];
    for i := 0 to |var2term|
      invariant Var2Node(P, m, var2term[..i]) == Ok(acc)
    {
      assert var2term[..i + 1][..i] == var2term[..i];
      var k := var2term[i].0;
      var r := FindRule(P.eq, k, keys);
      if r.Err? {
        Var2NodeErr(P, m, var2term, i + 1);
        return Err(r.error);
      }
      acc := acc + [(k, if r.value.Some? then Some(m[r.value.value].0) else None)];
    }
    assert var2term[..|var2term|] == var2term;
    var2node := Ok(acc);
  }

  // ---------------------------------------------------------------------------
  // `score`

  /** What `score` returns: the triple after a full mapping, or the bare score after an early stop. */
  datatype ScoreResult = Completed(score: real, var2term: seq<KV>, var2node: seq<NodeBinding>) | EarlyStop(score: real)

  /** `score(rule_set, tparse)`: the greedy search, then the bindings of the final mapping. */
  function ScoreSpec(ont: Ontology, rules: seq<Node>, parse: seq<Node>): Result<ScoreResult, MatchError>
    requires AllWellFormed(rules) && AllWellFormed(parse)
  {
    TripsValid(ont, rules, parse);
    var P := TripsProblem(ont, rules, parse);
    RunFacts(P, Init(P));
    match Run(P, Init(P))
    case OutOfNodes => Err(NotEnoughTnodes)
    case StoppedEarly(_, s) => Ok(EarlyStop(s))
    case Finished(m, s) =>
      match Var2Node(P, m, Var2Term(P, m))
      case Err(e) => Err(e)
      case Ok(v) => Ok(Completed(s, Var2Term(P, m), v))
  }

  method Score(ont: Ontology, ruleSet: seq<Node>, tparse: seq<Node>) returns (r: Result<ScoreResult, MatchError>)
    requires AllWellFormed(ruleSet) && AllWellFormed(tparse)
    ensures r == ScoreSpec(ont, ruleSet, tparse)
  {
    TripsValid(ont, ruleSet, tparse);
    var P := TripsProblem(ont, ruleSet, tparse);
    RunFacts(P, Init(P));
    var out := Search(P);
    match out
    case OutOfNodes =>
      return Err(NotEnoughTnodes);
    case StoppedEarly(_, s) =>
      return Ok(EarlyStop(s));
    case Finished(m, s) =>
      var var2term := BuildVar2Term(P, m);
      var var2node := BuildVar2Node(P, m, var2term);
      if var2node.Err? {
        return Err(var2node.error);
      }
      return Ok(Completed(s, var2term, var2node.value));
  }

  /**
   * What `score` promises: it raises only for lack of parse nodes, every score lies
   * in [0, 1], a completed search maps every rule injectively and reports that
   * mapping's score and bindings, and an early stop reports the score of a mapping
   * that no single further pair improves.
   */
  lemma ScoreFacts(ont: Ontology, rules: seq<Node>, parse: seq<Node>)
    requires AllWellFormed(rules) && AllWellFormed(parse)
    ensures var r := ScoreSpec(ont, rules, parse);
      (r.Err? ==> r.error == NotEnoughTnodes && |parse| < |rules|) &&
      (|parse| >= |rules| ==> r.Ok?) &&
      (r.Ok? ==> 0.0 <= r.value.score <= 1.0)
    ensures var r, P := ScoreSpec(ont, rules, parse), TripsProblem(ont, rules, parse);
      r.Ok? && r.value.Completed? && |rules| > 0 ==>
        exists m :: ValidMapping(P, m) && |m| == |rules| && r.value.score == MapScore(P, m) && r.value.var2term == Var2Term(P, m)
    ensures var r, P := ScoreSpec(ont, rules, parse), TripsProblem(ont, rules, parse);
      r.Ok? && r.value.EarlyStop? ==>
        exists m :: Ctx(P, m) && ValidMapping(P, m) && |m| < |rules| && r.value.score == MapScore(P, m) && LocallyMaximal(P, m, r.value.score)
  {
    TripsValid(ont, rules, parse);
    var P := TripsProblem(ont, rules, parse);
    RunFacts(P, Init(P));
    var out := Run(P, Init(P));
    if !out.OutOfNodes? {
      if |rules| > 0 {
        MapScoreBounds(P, out.mapping);
      }
      if out.Finished? {
        VarToNodeFacts(P, out.mapping);
      }
    }
  }

  // ---------------------------------------------------------------------------
  // `get_var_list`

  /** `x in l` with the relaxed equality. */
  predicate Listed(ont: Ontology, x: Element, l: seq<Element>) {
    exists i :: 0 <= i < |l| && Equiv(ont, l[i], x)
  }

  /** No two entries of `l` are equal under the relaxed equality. */
  predicate NoRepeats(ont: Ontology, l: seq<Element>) {
    forall i, j :: 0 <= i < j < |l| ==> !Equiv(ont, l[i], l[j])
  }

  /** Some rule has `x` among its positionals or role values. */
  predicate InRules(rules: seq<Node>, x: Element) {
    exists k :: 0 <= k < |rules| && Occurs(rules[k], x)
  }

  /**
   * The comprehension `[p for p in es if isinstance(p, Variable) and p not in l]` as
   * written: `l` is not extended while the comprehension runs, so a variable that
   * occurs twice in `es` is kept twice.
   */
  function FreshVarsAsWritten(ont: Ontology, es: seq<Element>, l: seq<Element>): seq<Element> {
    if es == [] then []
    else
      var x := es[|es| - 1];
      FreshVarsAsWritten(ont, es[..|es| - 1], l) + (if x.Variable? && !Listed(ont, x, l) then [x] else [])
  }

  /** `get_var_list` as written. */
  function VarListAsWritten(ont: Ontology, rules: seq<Node>): seq<Element> {
    if rules == [] then []
    else
      var r := rules[|rules| - 1];
      var l := VarListAsWritten(ont, rules[..|rules| - 1]);
      var l1 := l + FreshVarsAsWritten(ont, r.positionals, l);
      l1 + FreshVarsAsWritten(ont, Values(r.kvpairs), l1)
  }

  /** A rule that names the same variable twice in its positionals puts it in the list twice. */
  lemma VarListAsWrittenRepeats(ont: Ontology)
    ensures VarListAsWritten(ont, [Node([Term("F"), Variable("?y"), Variable("?y")], [], [])]) == [Variable("?y"), Variable("?y")]
    ensures !NoRepeats(ont, [Variable("?y"), Variable("?y")])
  {
    var y := Variable("?y");
    var r := Node([Term("F"), y, y], [], []);
    var ps := r.positionals;
    assert [r][..0] == [];
    assert ps[..2] == [Term("F"), y] && ps[..2][..1] == [Term("F")] && [Term("F")][..0] == [];
    assert FreshVarsAsWritten(ont, [Term("F")], []) == [];
    assert FreshVarsAsWritten(ont, ps[..2], []) == [y];
    assert FreshVarsAsWritten(ont, ps, []) == [y, y];
    assert Values(r.kvpairs) == [];
    assert FreshVarsAsWritten(ont, Values(r.kvpairs), [y, y]) == [];
    assert VarListAsWritten(ont, [r][..0]) == [];
    assert VarListAsWritten(ont, [r]) == [y, y];
    assert [y, y][0] == y && [y, y][1] == y && Equiv(ont, y, y);
  }

  /**
   * The evidently intended comprehension: each variable of `es`, in order, is
   * appended unless an equal one is already listed, counting those appended so far.
   */
  function AddVars(ont: Ontology, es: seq<Element>, l: seq<Element>): (r: seq<Element>)
    ensures |l| <= |r| && r[..|l|] == l
    ensures forall i :: |l| <= i < |r| ==> r[i].Variable? && r[i] in es
  {
    if es == [] then l
    else
      var x := es[|es| - 1];
      var r := AddVars(ont, es[..|es| - 1], l);
      if x.Variable? && !Listed(ont, x, r) then r + [x] else r
  }

  /** `get_var_list` with the corrected comprehension. */
  function VarList(ont: Ontology, rules: seq<Node>): seq<Element> {
    if rules == [] then []
    else
      var r := rules[|rules| - 1];
      AddVars(ont, Values(r.kvpairs), AddVars(ont, r.positionals, VarList(ont, rules[..|rules| - 1])))
  }

  method AddFresh(ont: Ontology, es: seq<Element>, l: seq<Element>) returns (r: seq<Element>)
    ensures r == AddVars(ont, es, l)
  {
    r := l;
    for i := 0 to |es|
      invariant r == AddVars(ont, es[..i], l)
    {
      assert es[..i + 1][..i] == es[..i];
      var p := es[i];
      if p.Variable? && !(exists j :: 0 <= j < |r| && Equiv(ont, r[j], p)) {
        r := r + [p];
      }
    }
    assert es[..|es|] == es;
  }

  method GetVarList(ont: Ontology, ruleSet: seq<Node>) returns (l: seq<Element>)
    ensures l == VarList(ont, ruleSet)
  {
    l := [];
    for i := 0 to |ruleSet|
      invariant l == VarList(ont, ruleSet[..i])
    {
      assert ruleSet[..i + 1][..i] == ruleSet[..i];
      l := AddFresh(ont, ruleSet[i].positionals, l);
      l := AddFresh(ont, Values(ruleSet[i].kvpairs), l);
    }
    assert ruleSet[..|ruleSet|] == ruleSet;
  }

  lemma ListedMono(ont: Ontology, x: Element, a: seq<Element>, b: seq<Element>)
    requires Listed(ont, x, a) && |a| <= |b| && b[..|a|] == a
    ensures Listed(ont, x, b)
  {
    var i :| 0 <= i < |a| && Equiv(ont, a[i], x);
    assert b[i] == a[i];
  }

  lemma {:induction false} AddVarsComplete(ont: Ontology, es: seq<Element>, l: seq<Element>, x: Element)
    requires x in es && x.Variable?
    ensures Listed(ont, x, AddVars(ont, es, l))
  {
    var init := es[..|es| - 1];
    var r := AddVars(ont, init, l);
    if x != es[|es| - 1] {
      assert x in init;
      AddVarsComplete(ont, init, l, x);
      ListedMono(ont, x, r, AddVars(ont, es, l));
    } else if Listed(ont, x, r) {
      ListedMono(ont, x, r, AddVars(ont, es, l));
    } else {
      assert AddVars(ont, es, l)[|r|] == x;
      assert Equiv(ont, x, x);
    }
  }

  lemma {:induction false} AddVarsNoRepeats(ont: Ontology, es: seq<Element>, l: seq<Element>)
    requires NoRepeats(ont, l)
    ensures NoRepeats(ont, AddVars(ont, es, l))
  {
    if es != [] {
      var x := es[|es| - 1];
      var r := AddVars(ont, es[..|es| - 1], l);
      AddVarsNoRepeats(ont, es[..|es| - 1], l);
      if x.Variable? && !Listed(ont, x, r) {
        var out := r + [x];
        forall i, j | 0 <= i < j < |out| ensures !Equiv(ont, out[i], out[j]) {
          if j < |r| {
            assert out[i] == r[i] && out[j] == r[j];
          } else {
            assert out[i] == r[i] && out[j] == x;
          }
        }
      }
    }
  }

  lemma InRulesSnoc(rules: seq<Node>, x: Element)
    requires rules != []
    ensures InRules(rules, x) <==> InRules(rules[..|rules| - 1], x) || Occurs(rules[|rules| - 1], x)
  {
    var init := rules[..|rules| - 1];
    if InRules(init, x) {
      var k :| 0 <= k < |init| && Occurs(init[k], x);
      assert rules[k] == init[k];
    }
    if InRules(rules, x) {
      var k :| 0 <= k < |rules| && Occurs(rules[k], x);
      if k < |init| {
        assert init[k] == rules[k];
      }
    }
  }

  /** Every listed element is a variable of the rule set, and no variable is listed twice. */
  lemma {:induction false} VarListSound(ont: Ontology, rules: seq<Node>)
    ensures forall i :: 0 <= i < |VarList(ont, rules)| ==> VarList(ont, rules)[i].Variable? && InRules(rules, VarList(ont, rules)[i])
    ensures NoRepeats(ont, VarList(ont, rules))
  {
    if rules != [] {
      var init := rules[..|rules| - 1];
      var r := rules[|rules| - 1];
      VarListSound(ont, init);
      var l := VarList(ont, init);
      var l1 := AddVars(ont, r.positionals, l);
      var out := AddVars(ont, Values(r.kvpairs), l1);
      AddVarsNoRepeats(ont, r.positionals, l);
      AddVarsNoRepeats(ont, Values(r.kvpairs), l1);
      forall i | 0 <= i < |out| ensures out[i].Variable? && InRules(rules, out[i]) {
        InRulesSnoc(rules, out[i]);
        if i < |l| {
          assert out[i] == l1[i] == l[i];
        } else if i < |l1| {
          assert out[i] == l1[i];
        }
      }
    }
  }

  /** Every variable of the rule set is equal, under the relaxed equality, to a listed one. */
  lemma {:induction false} VarListComplete(ont: Ontology, rules: seq<Node>, x: Element)
    requires x.Variable? && InRules(rules, x)
    ensures Listed(ont, x, VarList(ont, rules))
  {
    var init := rules[..|rules| - 1];
    var r := rules[|rules| - 1];
    var l := VarList(ont, init);
    var l1 := AddVars(ont, r.positionals, l);
    var out := AddVars(ont, Values(r.kvpairs), l1);
    InRulesSnoc(rules, x);
    if InRules(init, x) {
      VarListComplete(ont, init, x);
      ListedMono(ont, x, l, l1);
      ListedMono(ont, x, l1, out);
    } else if x in r.positionals {
      AddVarsComplete(ont, r.positionals, l, x);
      ListedMono(ont, x, l1, out);
    } else {
      AddVarsComplete(ont, Values(r.kvpairs), l1, x);
    }
  }

  // ---------------------------------------------------------------------------
  // `grade_rules`, the argmax part

  /** The best rule set seen so far: its position, its score, and its variable bindings. */
  datatype Best = Best(index: Option<nat>, max: real, bindings: seq<KV>)

  /** `s[1]` of a completed result; an early stop carries no bindings. */
  function Bindings(r: ScoreResult): seq<KV> {
    match r
    case Completed(_, t, _) => t
    case EarlyStop(_) => []
  }

  /**
   * The argmax over the results of `score`, one per rule set, in order: a result
   * replaces the best only with a strictly larger score, starting from 0. The first
   * failing `score` aborts the whole grading.
   */
  function GradeFrom(results: seq<Result<ScoreResult, MatchError>>): (r: Result<Best, MatchError>)
    ensures r.Ok? && r.value.index.Some? ==>
      r.value.index.value < |results| && results[r.value.index.value].Ok? &&
      r.value.max == results[r.value.index.value].value.score
    ensures r.Ok? && r.value.index.None? ==> r.value.max == 0.0
  {
    if results == [] then Ok(Best(None, 0.0, []))
    else
      match GradeFrom(results[..|results| - 1])
      case Err(e) => Err(e)
      case Ok(b) =>
        match results[|results| - 1]
        case Err(e) => Err(e)
        case Ok(r) => Ok(if r.score > b.max then Best(Some(|results| - 1), r.score, Bindings(r)) else b)
  }

  /**
   * `grade_rules` as written reads `s[0]` and `s[1]`, which fail with a TypeError
   * when `score` stopped early and returned a bare number.
   */
  function GradeFromAsWritten(results: seq<Result<ScoreResult, MatchError>>): (r: Result<Best, MatchError>)
    ensures r.Ok? ==> forall i :: 0 <= i < |results| ==> results[i].Ok? && results[i].value.Completed?
  {
    if results == [] then Ok(Best(None, 0.0, []))
    else
      match GradeFromAsWritten(results[..|results| - 1])
      case Err(e) => Err(e)
      case Ok(b) =>
        match results[|results| - 1]
        case Err(e) => Err(e)
        case Ok(EarlyStop(_)) => Err(TypeError)
        case Ok(r) => Ok(if r.score > b.max then Best(Some(|results| - 1), r.score, Bindings(r)) else b)
  }

  /** One rule set whose search stopped early is enough to make `grade_rules` as written fail. */
  lemma GradeAsWrittenFails()
    ensures GradeFromAsWritten([Ok(EarlyStop(0.5))]) == Err(TypeError)
    ensures GradeFrom([Ok(EarlyStop(0.5))]) == Ok(Best(Some(0), 0.5, []))
  {
    var rs: seq<Result<ScoreResult, MatchError>> := [Ok(EarlyStop(0.5))];
    assert rs[..0] == [];
  }

  /** Whenever every search completes, `grade_rules` as written and the corrected grading agree. */
  lemma {:induction false} GradeAgrees(results: seq<Result<ScoreResult, MatchError>>)
    requires forall i :: 0 <= i < |results| && results[i].Ok? ==> results[i].value.Completed?
    ensures GradeFromAsWritten(results) == GradeFrom(results)
  {
    if results != [] {
      GradeAgrees(results[..|results| - 1]);
    }
  }

  /** Every score read in `results`. */
  predicate AllOk(results: seq<Result<ScoreResult, MatchError>>) {
    forall i :: 0 <= i < |results| ==> results[i].Ok?
  }

  /**
   * The grading fails exactly when some `score` fails, with the first such error;
   * otherwise it picks nothing when no score is positive, and else the first rule
   * set with the largest score, reporting that score and its bindings.
   */
  lemma {:induction false} GradeFacts(results: seq<Result<ScoreResult, MatchError>>)
    ensures GradeFrom(results).Ok? <==> AllOk(results)
    ensures GradeFrom(results).Err? ==>
      exists i :: 0 <= i < |results| && results[i].Err? && GradeFrom(results).error == results[i].error && AllOk(results[..i])
    ensures GradeFrom(results).Ok? && GradeFrom(results).value.index.None? ==>
      GradeFrom(results).value.max == 0.0 && forall i :: 0 <= i < |results| ==> results[i].value.score <= 0.0
    ensures GradeFrom(results).Ok? && GradeFrom(results).value.index.Some? ==>
      var b := GradeFrom(results).value;
      var k := b.index.value;
      k < |results| && 0.0 < b.max == results[k].value.score && b.bindings == Bindings(results[k].value) &&
      (forall i :: 0 <= i < |results| ==> results[i].value.score <= b.max) &&
      (forall i :: 0 <= i < k ==> results[i].value.score < b.max)
  {
    if results != [] {
      var init := results[..|results| - 1];
      var last := results[|results| - 1];
      GradeFacts(init);
      assert forall i :: 0 <= i < |init| ==> init[i] == results[i];
      if GradeFrom(init).Err? {
        var i :| 0 <= i < |init| && init[i].Err? && GradeFrom(init).error == init[i].error && AllOk(init[..i]);
        assert init[..i] == results[..i];
      } else if last.Err? {
        assert results[..|results| - 1] == init;
      }
    }
  }

  /** `score(-, parse)` as a partial function of the rule set. */
  function ScoreAgainst(ont: Ontology, parse: seq<Node>): seq<Node> --> Result<ScoreResult, MatchError> {
    rules requires AllWellFormed(rules) && AllWellFormed(parse) => ScoreSpec(ont, rules, parse)
  }

  /** The result of `score` for each rule set, in order. */
  function ScoreAll(score: seq<Node> --> Result<ScoreResult, MatchError>, sets: seq<seq<Node>>): (rs: seq<Result<ScoreResult, MatchError>>)
    requires forall i :: 0 <= i < |sets| ==> score.requires(sets[i])
    ensures |rs| == |sets|
  {
    if sets == [] then []
    else ScoreAll(score, sets[..|sets| - 1]) + [score(sets[|sets| - 1])]
  }

  /** Scoring a prefix of the rule sets gives the prefix of the results. */
  lemma {:induction false} ScoreAllPrefix(score: seq<Node> --> Result<ScoreResult, MatchError>, sets: seq<seq<Node>>, k: nat)
    requires k <= |sets| && forall i :: 0 <= i < |sets| ==> score.requires(sets[i])
    ensures ScoreAll(score, sets)[..k] == ScoreAll(score, sets[..k])
    decreases |sets|
  {
    if k < |sets| {
      var init := sets[..|sets| - 1];
      assert init[..k] == sets[..k];
      ScoreAllPrefix(score, init, k);
      assert ScoreAll(score, sets)[..k] == ScoreAll(score, init)[..k];
    } else {
      assert sets[..k] == sets;
    }
  }

  /** `score(rules, parse)` as seen by `grade_rules`. */
  method ScoreWith(ont: Ontology, parse: seq<Node>, rules: seq<Node>) returns (s: Result<ScoreResult, MatchError>)
    requires AllWellFormed(rules) && AllWellFormed(parse)
    ensures s == ScoreAgainst(ont, parse)(rules)
  {
    s := Score(ont, rules, parse);
  }

  /** `grade_rules(rs, parse)` without its console output. */
  method GradeRules(ont: Ontology, sets: seq<seq<Node>>, parse: seq<Node>) returns (r: Result<Best, MatchError>)
    requires forall i :: 0 <= i < |sets| ==> AllWellFormed(sets[i])
    requires AllWellFormed(parse)
    ensures r == GradeFrom(ScoreAll(ScoreAgainst(ont, parse), sets))
  {
    var f := ScoreAgainst(ont, parse);
    assert Total: forall j :: 0 <= j < |sets| ==> f.requires(sets[j]);
    var best := Best(None, 0.0, []);
    for i := 0 to |sets|
      invariant GradeFrom(ScoreAll(f, sets[..i])) == Ok(best)
    {
      var s := ScoreWith(ont, parse, sets[i]);
      GradeStep(f, sets, i, best, s);
      if s.Err? {
        GradeErrorAll(f, sets, i);
        return Err(s.error);
      }
      if s.value.score > best.max {
        best := Best(Some(i), s.value.score, Bindings(s.value));
      }
    }
    assert sets[..|sets|] == sets;
    r := Ok(best);
  }

  /** One round of the grading loop: the result of `score` for the next rule set updates the best or fails. */
  lemma GradeStep(f: seq<Node> --> Result<ScoreResult, MatchError>, sets: seq<seq<Node>>, i: nat, best: Best, s: Result<ScoreResult, MatchError>)
    requires i < |sets| && forall j :: 0 <= j < |sets| ==> f.requires(sets[j])
    requires GradeFrom(ScoreAll(f, sets[..i])) == Ok(best) && s == f(sets[i])
    ensures GradeFrom(ScoreAll(f, sets[..i + 1])) ==
      match s
      case Err(e) => Err(e)
      case Ok(v) => Ok(if v.score > best.max then Best(Some(i), v.score, Bindings(v)) else best)
  {
    var pre := ScoreAll(f, sets[..i + 1]);
    assert sets[..i + 1][..i] == sets[..i];
    assert pre[..i] == ScoreAll(f, sets[..i]);
  }

  /** A failure on the first `i + 1` rule sets is the failure of the whole grading. */
  lemma GradeErrorAll(f: seq<Node> --> Result<ScoreResult, MatchError>, sets: seq<seq<Node>>, i: nat)
    requires i < |sets| && forall j :: 0 <= j < |sets| ==> f.requires(sets[j])
    requires GradeFrom(ScoreAll(f, sets[..i + 1])).Err?
    ensures GradeFrom(ScoreAll(f, sets)) == GradeFrom(ScoreAll(f, sets[..i + 1]))
  {
    ScoreAllPrefix(f, sets, i + 1);
    GradeStopsAtError(ScoreAll(f, sets), i + 1);
  }

  /** Once the grading has failed on the first `k` results, later results do not change the error. */
  lemma {:induction false} GradeStopsAtError(all: seq<Result<ScoreResult, MatchError>>, k: nat)
    requires k <= |all| && GradeFrom(all[..k]).Err?
    ensures GradeFrom(all) == GradeFrom(all[..k])
    decreases |all|
  {
    if |all| > k {
      var init := all[..|all| - 1];
      assert init[..k] == all[..k];
      GradeStopsAtError(init, k);
    } else {
      assert all[..k] == all;
    }
  }

  // ---------------------------------------------------------------------------
  // `TripsNode.__eq__` and the removal of the chosen node from the pool

  /** `t != u` for `t, u in zip(...)`: only the pairs up to the shorter list are compared. */
  predicate ZipEquiv(ont: Ontology, a: seq<Element>, b: seq<Element>) {
    forall i :: 0 <= i < |a| && i < |b| ==> Equiv(ont, a[i], b[i])
  }

  /** List `==` on elements: same length and pairwise equal. */
  predicate ListEquiv(ont: Ontology, a: seq<Element>, b: seq<Element>) {
    |a| == |b| && forall i :: 0 <= i < |a| ==> Equiv(ont, a[i], b[i])
  }

  /** The role `(k, v)` is present in `other` with an equal value. */
  predicate KvAgrees(ont: Ontology, kv: KV, other: seq<KV>) {
    Get(other, kv.0).Some? && Equiv(ont, Get(other, kv.0).value, kv.1)
  }

  /** The loop over `self.kvpairs.items()`: `other.kvpairs[x]` raises for a missing key. */
  function KvsEq(ont: Ontology, kvs: seq<KV>, other: seq<KV>): (r: Result<bool, MatchError>)
    ensures r.Err? ==> r.error.KeyError? && Get(other, r.error.key).None?
  {
    if kvs == [] then Ok(true)
    else
      match Get(other, kvs[0].0)
      case None => Err(KeyError(kvs[0].0))
      case Some(w) => if !Equiv(ont, w, kvs[0].1) then Ok(false) else KvsEq(ont, kvs[1..], other)
  }

  /** `TripsNode.__eq__`. */
  function NodeEq(ont: Ontology, a: Node, b: Node): (r: Result<bool, MatchError>)
    ensures r == Ok(true) ==>
      ZipEquiv(ont, a.positionals, b.positionals) && ListEquiv(ont, a.typeWord, b.typeWord) && |a.kvpairs| == |b.kvpairs|
    ensures r.Err? ==> |a.kvpairs| == |b.kvpairs| && r.error.KeyError? && Get(b.kvpairs, r.error.key).None?
  {
    if !ZipEquiv(ont, a.positionals, b.positionals) then Ok(false)
    else if !ListEquiv(ont, a.typeWord, b.typeWord) then Ok(false)
    else if |a.kvpairs| != |b.kvpairs| then Ok(false)
    else KvsEq(ont, a.kvpairs, b.kvpairs)
  }

  /** The role loop accepts exactly when every role agrees, and raises only for a missing key. */
  lemma {:induction false} KvsEqSpec(ont: Ontology, kvs: seq<KV>, other: seq<KV>)
    ensures KvsEq(ont, kvs, other) == Ok(true) <==> forall i :: 0 <= i < |kvs| ==> KvAgrees(ont, kvs[i], other)
    ensures KvsEq(ont, kvs, other).Err? ==>
      exists i :: 0 <= i < |kvs| && Get(other, kvs[i].0).None? && KvsEq(ont, kvs, other).error == KeyError(kvs[i].0)
  {
    if kvs != [] {
      KvsEqSpec(ont, kvs[1..], other);
      assert forall i :: 1 <= i < |kvs| ==> kvs[i] == kvs[1..][i - 1];
      if KvsEq(ont, kvs, other).Err? && Get(other, kvs[0].0).Some? {
        var i :| 0 <= i < |kvs[1..]| && Get(other, kvs[1..][i].0).None? && KvsEq(ont, kvs[1..], other).error == KeyError(kvs[1..][i].0);
        assert kvs[i + 1] == kvs[1..][i];
      }
    }
  }

  /** Two nodes compare equal exactly when the zipped positionals, the type words and the roles agree. */
  lemma NodeEqSpec(ont: Ontology, a: Node, b: Node)
    ensures NodeEq(ont, a, b) == Ok(true) <==>
      ZipEquiv(ont, a.positionals, b.positionals) && ListEquiv(ont, a.typeWord, b.typeWord) &&
      |a.kvpairs| == |b.kvpairs| && forall i :: 0 <= i < |a.kvpairs| ==> KvAgrees(ont, a.kvpairs[i], b.kvpairs)
    ensures NodeEq(ont, a, b).Err? ==> exists i :: 0 <= i < |a.kvpairs| && Get(b.kvpairs, a.kvpairs[i].0).None?
  {
    KvsEqSpec(ont, a.kvpairs, b.kvpairs);
  }

  /** A node with distinct role keys equals itself. */
  lemma NodeEqReflexive(ont: Ontology, a: Node)
    requires UniqueKeys(a.kvpairs)
    ensures NodeEq(ont, a, a) == Ok(true)
  {
    forall i | 0 <= i < |a.positionals| ensures Equiv(ont, a.positionals[i], a.positionals[i]) {
      EquivReflexive(ont, a.positionals[i]);
    }
    forall i | 0 <= i < |a.typeWord| ensures Equiv(ont, a.typeWord[i], a.typeWord[i]) {
      EquivReflexive(ont, a.typeWord[i]);
    }
    forall i | 0 <= i < |a.kvpairs| ensures KvAgrees(ont, a.kvpairs[i], a.kvpairs) {
      GetAt(a.kvpairs, i);
      EquivReflexive(ont, a.kvpairs[i].1);
    }
    NodeEqSpec(ont, a, a);
  }

  /**
   * `unmapped_tnodes.remove(node)` as written: the pool holds positions of parse nodes;
   * a pool entry is taken when it is the node itself or compares equal to it with
   * `TripsNode.__eq__`, whichever comes first.
   */
  function RemoveNodeAsWritten(ont: Ontology, parse: seq<Node>, pool: seq<nat>, target: nat): (r: Result<seq<nat>, MatchError>)
    requires Below(pool, |parse|) && target < |parse| && target in pool
    ensures r.Ok? ==> |r.value| + 1 == |pool|
    ensures r.Err? ==> r.error.KeyError? && Get(parse[target].kvpairs, r.error.key).None?
  {
    if pool[0] == target then Ok(pool[1..])
    else
      match NodeEq(ont, parse[pool[0]], parse[target])
      case Err(e) => Err(e)
      case Ok(true) => Ok(pool[1..])
      case Ok(false) =>
        match RemoveNodeAsWritten(ont, parse, pool[1..], target)
        case Err(e) => Err(e)
        case Ok(rest) => Ok([pool[0]] + rest)
  }

  /**
   * A parse node whose positionals extend another's compares equal to it, so removing
   * the later node takes the earlier one out instead, and the chosen node stays
   * available to be mapped a second time.
   */
  lemma RemovalTakesWrongNode(ont: Ontology)
    ensures var parse := [Node([Term("F"), Term("X")], [], []), Node([Term("F"), Term("X"), Term("Y")], [], [])];
      RemoveNodeAsWritten(ont, parse, [0, 1], 1) == Ok([1]) && RemoveFirst([0, 1], 1) == [0]
  {
    var parse := [Node([Term("F"), Term("X")], [], []), Node([Term("F"), Term("X"), Term("Y")], [], [])];
    EquivReflexive(ont, Term("F"));
    EquivReflexive(ont, Term("X"));
    assert ZipEquiv(ont, parse[0].positionals, parse[1].positionals);
    assert NodeEq(ont, parse[0], parse[1]) == Ok(true);
    assert [0, 1][1..] == [1];
  }

  /**
   * A pool entry with the same number of roles but a different role key makes the
   * comparison look the key up in the chosen node, and `remove` raises KeyError.
   */
  lemma RemovalRaisesKeyError(ont: Ontology)
    ensures var parse := [Node([Term("F")], [(Term("A"), Term("X"))], []), Node([Term("F")], [(Term("B"), Term("X"))], [])];
      RemoveNodeAsWritten(ont, parse, [0, 1], 1) == Err(KeyError(Term("A"))) && RemoveFirst([0, 1], 1) == [0]
  {
    var parse := [Node([Term("F")], [(Term("A"), Term("X"))], []), Node([Term("F")], [(Term("B"), Term("X"))], [])];
    EquivReflexive(ont, Term("F"));
    assert ZipEquiv(ont, parse[0].positionals, parse[1].positionals);
    assert Get(parse[1].kvpairs, Term("A")).None?;
    assert NodeEq(ont, parse[0], parse[1]) == Err(KeyError(Term("A")));
  }

  // ---------------------------------------------------------------------------
  // A rule set matched against itself

  /** `Rule.score` gives a rule's own slots full marks against the rule. */
  lemma TripsSelfScoring(ont: Ontology, rules: seq<Node>)
    requires AllWellFormed(rules)
    ensures SelfScoring(TripsProblem(ont, rules, rules))
  {
    forall t: Node, n: Node | n in rules && t.positionals == n.positionals && t.kvpairs == n.kvpairs
      ensures NodeScore(ont, t, n) == Size(n)
    {
      var i :| 0 <= i < |rules| && rules[i] == n;
      NodeScoreSelf(ont, n);
    }
  }

  /**
   * The promise of `score`'s documentation, for the best mapping: a loaded rule set
   * matched against itself has a one-to-one mapping of all its rules that scores 1.
   */
  lemma SelfScoreIdentity(ont: Ontology, rules: seq<Node>)
    requires AllWellFormed(rules) && |rules| > 0 && PrintableRules(rules)
    ensures ValidMapping(TripsProblem(ont, rules, rules), IdentityMapping(|rules|))
    ensures MapScore(TripsProblem(ont, rules, rules), IdentityMapping(|rules|)) == 1.0
  {
    TripsSelfScoring(ont, rules);
    IdentityMapScore(TripsProblem(ont, rules, rules));
  }

  /** The rule set `(F ?x) (F ?y :A ?x :B ?x)`. */
  const SelfRules := [
    Node([Term("F"), Variable("?x")], [], []),
    Node([Term("F"), Variable("?y")], [(Term("A"), Variable("?x")), (Term("B"), Variable("?x"))], [])]

  /** The instance `score(R, R)` runs on, under any ontology. */
  function SelfProblem(ont: Ontology): Problem {
    TripsProblem(ont, SelfRules, SelfRules)
  }

  /** The rule set is well formed, has 6 slots, and `?x`, `?y` are the identities of rules 0 and 1. */
  lemma SelfFacts()
    ensures AllWellFormed(SelfRules) && Card(SelfRules) == 6
    ensures FirstGoverning(SelfRules, Variable("?x")) == Some(0)
    ensures FirstGoverning(SelfRules, Variable("?y")) == Some(1)
  {
    assert SelfRules[..1] == [SelfRules[0]];
    assert [SelfRules[0]][..0] == [];
  }

  /** Both rules of this rule set enter the element map. */
  lemma SelfPrefix(ont: Ontology, m: seq<Pair>)
    requires InRange(SelfProblem(ont), m)
    ensures NodeOf(m, 0).None? ==> PrefixLen(SelfProblem(ont), m) == 0
    ensures NodeOf(m, 0).Some? && NodeOf(m, 1).None? ==> PrefixLen(SelfProblem(ont), m) == 1
    ensures NodeOf(m, 0).Some? && NodeOf(m, 1).Some? ==> PrefixLen(SelfProblem(ont), m) == 2
  {
  }

  /** The element map of a two-pair mapping sends each rule identity to the identity of its node. */
  lemma SelfEMap(ont: Ontology, m: seq<Pair>)
    requires InRange(SelfProblem(ont), m) && NodeOf(m, 0).Some?
    ensures NodeOf(m, 1).None? ==>
      EMap(SelfProblem(ont), m, 2) == map[Variable("?x") := Identity(SelfRules[NodeOf(m, 0).value])]
    ensures NodeOf(m, 1).Some? ==>
      EMap(SelfProblem(ont), m, 2) == map[Variable("?x") := Identity(SelfRules[NodeOf(m, 0).value]),
                                     Variable("?y") := Identity(SelfRules[NodeOf(m, 1).value])]
  {
    SelfFacts();
    EMapStep(SelfProblem(ont), m, 1);
    EMapStep(SelfProblem(ont), m, 2);
  }

  /** The Variables of the rule set are told apart by `Variable.__eq__`. */
  lemma SelfVariables(ont: Ontology)
    ensures Equiv(ont, Variable("?x"), Variable("?x")) && Equiv(ont, Variable("?y"), Variable("?y"))
    ensures !Equiv(ont, Variable("?x"), Variable("?y")) && !Equiv(ont, Variable("?y"), Variable("?x"))
    ensures Equiv(ont, Term("F"), Term("F"))
  {
    assert Lower("?x")[1] == 'x';
    assert Lower("?y")[1] == 'y';
    assert Lower("F") == "f";
  }

  /** `element_mapping` on rule 0: its identity is replaced through the element map. */
  lemma SelfTranslateFirst(ont: Ontology, E: map<Element, Element>)
    requires Variable("?x") in E
    ensures Translate(SelfProblem(ont), E, SelfRules[0]) == Node([Term("F"), E[Variable("?x")]], [], [])
  {
    SelfFacts();
    var P := SelfProblem(ont);
    assert Governed(P, Variable("?x"));
    assert [Term("F"), Variable("?x")][..1] == [Term("F")] && [Term("F")][..0] == [];
    assert TranslateElems(P, E, [Term("F")]) == [Term("F")];
  }

  /** `element_mapping` on rule 1: its identity and both role values are replaced. */
  lemma SelfTranslateSecond(ont: Ontology, E: map<Element, Element>)
    requires Variable("?x") in E && Variable("?y") in E
    ensures Translate(SelfProblem(ont), E, SelfRules[1]) ==
      Node([Term("F"), E[Variable("?y")]], [(Term("A"), E[Variable("?x")]), (Term("B"), E[Variable("?x")])], [])
  {
    SelfFacts();
    var P := SelfProblem(ont);
    assert Governed(P, Variable("?x")) && Governed(P, Variable("?y"));
    var x := E[Variable("?x")];
    var kvs := [(Term("A"), Variable("?x")), (Term("B"), Variable("?x"))];
    assert [Term("F"), Variable("?y")][..1] == [Term("F")] && [Term("F")][..0] == [];
    assert TranslateElems(P, E, [Term("F")]) == [Term("F")];
    assert kvs[..1] == [kvs[0]] && [kvs[0]][..0] == [];
    assert TranslateKvs(P, E, [kvs[0]]) == [(Term("A"), x)];
  }

  /** Both positionals of a translated rule match a node with the same frame word and an equal identity. */
  lemma SelfPosScores(ont: Ontology)
    ensures PosScore(Eq(ont), [Term("F"), Variable("?x")], [Term("F"), Variable("?x")]) == 2
    ensures PosScore(Eq(ont), [Term("F"), Variable("?y")], [Term("F"), Variable("?y")]) == 2
  {
    var eq := Eq(ont);
    SelfVariables(ont);
    var F, x, y := Term("F"), Variable("?x"), Variable("?y");
    assert FindFirst(eq, F, [F, x]) == Some(0) && FindFirst(eq, F, [F, y]) == Some(0);
    assert RemoveAt([F, x], 0) == [x] && RemoveAt([F, y], 0) == [y];
    assert PosScore(eq, [x], [x]) == 1 && PosScore(eq, [y], [y]) == 1;
  }

  /** The roles of rule 1 score nothing against a node without roles, and both against rule 1 itself. */
  lemma SelfKvScores(ont: Ontology)
    ensures KvScore(Eq(ont), [(Term("A"), Variable("?y")), (Term("B"), Variable("?y"))], []) == 0
    ensures KvScore(Eq(ont), [(Term("A"), Variable("?x")), (Term("B"), Variable("?x"))], [(Term("A"), Variable("?x")), (Term("B"), Variable("?x"))]) == 2
  {
    var eq := Eq(ont);
    SelfVariables(ont);
    var x, y := Variable("?x"), Variable("?y");
    var kx := [(Term("A"), x), (Term("B"), x)];
    var ky := [(Term("A"), y), (Term("B"), y)];
    assert kx[..1] == [kx[0]] && [kx[0]][..0] == [] && ky[..1] == [ky[0]] && [ky[0]][..0] == [];
    assert KvScore(eq, [ky[0]], []) == 0;
    assert Get(kx, Term("A")) == Some(x) && Get(kx, Term("B")) == Some(x);
  }

  /** `Rule.score` of each translated rule against each node of the set. */
  lemma SelfNodeScores(ont: Ontology)
    ensures NodeScore(ont, Node([Term("F"), Variable("?x")], [], []), SelfRules[0]) == 2
    ensures NodeScore(ont, Node([Term("F"), Variable("?y")], [], []), SelfRules[1]) == 2
    ensures NodeScore(ont, Node([Term("F"), Variable("?x")], [(Term("A"), Variable("?y")), (Term("B"), Variable("?y"))], []), SelfRules[0]) == 2
    ensures NodeScore(ont, Node([Term("F"), Variable("?y")], [(Term("A"), Variable("?x")), (Term("B"), Variable("?x"))], []), SelfRules[1]) == 4
  {
    SelfPosScores(ont);
    SelfKvScores(ont);
  }

  /** The connectivity of each first-round pair: node 1 is pointed at twice, node 0 never. */
  lemma SelfConn(ont: Ontology)
    ensures Conn(SelfProblem(ont), (0, 0)) == 0 && Conn(SelfProblem(ont), (0, 1)) == 2
  {
    SelfFacts();
    SelfVariables(ont);
    var x := Variable("?x");
    var kx := [(Term("A"), x), (Term("B"), x)];
    assert kx[..1] == [kx[0]] && [kx[0]][..0] == [];
    assert Get(kx, Term("A")) == Some(x) && Get(kx, Term("B")) == Some(x);
    assert IncomingFrom(Eq(ont), [kx[0]], x, kx) == 1;
    assert IncomingFrom(Eq(ont), kx, x, kx) == 2;
    assert IncomingFrom(Eq(ont), [kx[0]], x, []) == 0;
    assert IncomingFrom(Eq(ont), kx, x, []) == 0;
    assert SelfRules[..1] == [SelfRules[0]] && [SelfRules[0]][..0] == [];
    assert Incoming(Eq(ont), [SelfRules[0]], x, []) == 0;
    assert Incoming(Eq(ont), [SelfRules[0]], x, kx) == 0;
    assert Incoming(Eq(ont), SelfRules, x, []) == 0;
    assert Incoming(Eq(ont), SelfRules, x, kx) == 2;
  }

  /** `score_wrt_map` on this rule set: the translated mapped prefix scored against its nodes, over 6. */
  lemma SelfInter(ont: Ontology, m: seq<Pair>)
    requires InRange(SelfProblem(ont), m)
    ensures MapScore(SelfProblem(ont), m) == Intersection(SelfProblem(ont), m) as real / 6.0
    ensures NodeOf(m, 0).None? ==> Intersection(SelfProblem(ont), m) == 0
    ensures NodeOf(m, 0).Some? && NodeOf(m, 1).None? ==>
      var E := EMap(SelfProblem(ont), m, 2);
      Intersection(SelfProblem(ont), m) == NodeScore(ont, Translate(SelfProblem(ont), E, SelfRules[0]), SelfRules[NodeOf(m, 0).value])
    ensures NodeOf(m, 0).Some? && NodeOf(m, 1).Some? ==>
      var E := EMap(SelfProblem(ont), m, 2);
      Intersection(SelfProblem(ont), m) ==
        NodeScore(ont, Translate(SelfProblem(ont), E, SelfRules[0]), SelfRules[NodeOf(m, 0).value]) +
        NodeScore(ont, Translate(SelfProblem(ont), E, SelfRules[1]), SelfRules[NodeOf(m, 1).value])
  {
    SelfFacts();
    SelfPrefix(ont, m);
    var P := SelfProblem(ont);
    var E := EMap(P, m, 2);
    var ts := MappedRuleSet(P, m);
    if NodeOf(m, 0).Some? {
      TranslatePrefixAt(P, E, PrefixLen(P, m), 0);
      var s0 := NodeScore(ont, ts[0], SelfRules[NodeOf(m, 0).value]);
      assert Inter(P, m, ts, 1) == s0;
      if NodeOf(m, 1).Some? {
        TranslatePrefixAt(P, E, 2, 1);
        assert Inter(P, m, ts, 2) == s0 + NodeScore(ont, ts[1], SelfRules[NodeOf(m, 1).value]);
      }
    }
  }

  /** Rule 0 alone, mapped to either node, scores 2 of the 6 slots. */
  lemma SelfScoreFirst(ont: Ontology, n: nat)
    requires n < 2
    ensures MapScore(SelfProblem(ont), [(0, n)]) == 2.0 / 6.0
  {
    var m := [(0, n)];
    var id := Identity(SelfRules[n]);
    assert NodeOf(m, 0) == Some(n) && NodeOf(m, 1).None?;
    SelfInter(ont, m);
    SelfEMap(ont, m);
    SelfTranslateFirst(ont, map[Variable("?x") := id]);
    SelfNodeScores(ont);
  }

  /** Rule 1 alone scores nothing: `element_mapping` stops at the unmapped rule 0. */
  lemma SelfScoreSecond(ont: Ontology, n: nat)
    requires n < 2
    ensures MapScore(SelfProblem(ont), [(1, n)]) == 0.0
  {
    assert NodeOf([(1, n)], 0).None?;
    SelfInter(ont, [(1, n)]);
  }

  /** The mapping the search ends with scores 4 of the 6 slots. */
  lemma SelfScoreCrossed(ont: Ontology)
    ensures MapScore(SelfProblem(ont), [(0, 1), (1, 0)]) == 4.0 / 6.0
  {
    var m := [(0, 1), (1, 0)];
    assert NodeOf(m, 0) == Some(1) && NodeOf(m, 1) == Some(0);
    SelfInter(ont, m);
    SelfCrossedIntersection(ont);
  }

  /**
   * Under the crossed mapping each translated rule matches its node on both positionals,
   * and the two roles of rule 1 find nothing in node 0, which has no roles: 4 of 6.
   */
  lemma SelfCrossedIntersection(ont: Ontology)
    ensures InRange(SelfProblem(ont), [(0, 1), (1, 0)])
    ensures Intersection(SelfProblem(ont), [(0, 1), (1, 0)]) == 4
  {
    var m := [(0, 1), (1, 0)];
    var x, y := Variable("?x"), Variable("?y");
    var E := map[x := y, y := x];
    assert NodeOf(m, 0) == Some(1) && NodeOf(m, 1) == Some(0);
    SelfCrossedMap(ont);
    SelfInter(ont, m);
    SelfTranslateFirst(ont, E);
    SelfTranslateSecond(ont, E);
    SelfNodeScores(ont);
  }

  /** The crossed mapping swaps the two rule identities. */
  lemma SelfCrossedMap(ont: Ontology)
    ensures InRange(SelfProblem(ont), [(0, 1), (1, 0)])
    ensures EMap(SelfProblem(ont), [(0, 1), (1, 0)], 2) == map[Variable("?x") := Variable("?y"), Variable("?y") := Variable("?x")]
  {
    var m := [(0, 1), (1, 0)];
    assert NodeOf(m, 0) == Some(1) && NodeOf(m, 1) == Some(0);
    SelfEMap(ont, m);
  }

  /** The identity mapping scores all 6 slots. */
  lemma SelfScoreDiagonal(ont: Ontology)
    ensures MapScore(SelfProblem(ont), [(0, 0), (1, 1)]) == 1.0
  {
    var m := [(0, 0), (1, 1)];
    assert NodeOf(m, 0) == Some(0) && NodeOf(m, 1) == Some(1);
    SelfInter(ont, m);
    SelfDiagonalIntersection(ont);
  }

  /** Under the identity mapping every slot of both rules matches: 6 of 6. */
  lemma SelfDiagonalIntersection(ont: Ontology)
    ensures InRange(SelfProblem(ont), [(0, 0), (1, 1)])
    ensures Intersection(SelfProblem(ont), [(0, 0), (1, 1)]) == 6
  {
    var m := [(0, 0), (1, 1)];
    var x, y := Variable("?x"), Variable("?y");
    var E := map[x := x, y := y];
    assert NodeOf(m, 0) == Some(0) && NodeOf(m, 1) == Some(1);
    SelfDiagonalMap(ont);
    SelfInter(ont, m);
    SelfTranslateFirst(ont, E);
    SelfTranslateSecond(ont, E);
    SelfNodeScores(ont);
  }

  /** The identity mapping sends each rule identity to itself. */
  lemma SelfDiagonalMap(ont: Ontology)
    ensures InRange(SelfProblem(ont), [(0, 0), (1, 1)])
    ensures EMap(SelfProblem(ont), [(0, 0), (1, 1)], 2) == map[Variable("?x") := Variable("?x"), Variable("?y") := Variable("?y")]
  {
    var m := [(0, 0), (1, 1)];
    assert NodeOf(m, 0) == Some(0) && NodeOf(m, 1) == Some(1);
    SelfEMap(ont, m);
  }

  /** Facts about the literal pools and mappings of the two rounds below. */
  lemma SelfLiterals()
    ensures RemoveFirst([0, 1], 0) == [1] && RemoveFirst([0, 1], 1) == [0]
    ensures RemoveFirst([1], 1) == [] && RemoveFirst([0], 0) == []
    ensures [] + [(0, 1)] == [(0, 1)] && [(0, 1)] + [(1, 0)] == [(0, 1), (1, 0)]
  {
    assert [(0, 1)] + [(1, 0)] == [(0, 1), (1, 0)];
  }

  /**
   * `score(R, R)` as written falls short of 1: the first round ties (rule 0, node 0)
   * and (rule 0, node 1) at 2/6, the connectivity tie-break prefers node 1 (two roles
   * of rule 1 point at `?x`), and the second round can only pair rule 1 with node 0,
   * which ends the search at 4/6, while the identity mapping scores 1.
   */
  lemma SelfMatchAsWritten(ont: Ontology)
    ensures AllWellFormed(SelfRules)
    ensures ScoreSpec(ont, SelfRules, SelfRules).Ok? && ScoreSpec(ont, SelfRules, SelfRules).value.score == 4.0 / 6.0
  {
    SelfInRange(ont);
    SelfFacts();
    SelfRun(ont);
    VarToNodeFacts(SelfProblem(ont), [(0, 1), (1, 0)]);
  }

  /** Both mappings of this rule set considered here stay within the rule and node counts. */
  lemma SelfInRange(ont: Ontology)
    ensures ValidProblem(SelfProblem(ont))
    ensures InRange(SelfProblem(ont), [(0, 0), (1, 1)]) && InRange(SelfProblem(ont), [(0, 1), (1, 0)])
  {
    TripsValid(ont, SelfRules, SelfRules);
  }

  /** The search on this rule set: two rounds, ending with the crossed mapping at 4/6. */
  lemma SelfRun(ont: Ontology)
    ensures ValidProblem(SelfProblem(ont))
    ensures Run(SelfProblem(ont), Init(SelfProblem(ont))) == Finished([(0, 1), (1, 0)], 4.0 / 6.0)
  {
    var st2 := State([(0, 1)], [1], [0], 2.0 / 6.0);
    SelfFirstRound(ont);
    SelfSecondRound(ont, st2);
  }

  /** Round one of `score` on this rule set commits (rule 0, node 1) and reaches 2/6. */
  lemma SelfFirstRound(ont: Ontology)
    ensures ValidProblem(SelfProblem(ont)) && Inv(SelfProblem(ont), State([(0, 1)], [1], [0], 2.0 / 6.0))
    ensures Run(SelfProblem(ont), Init(SelfProblem(ont))) == Run(SelfProblem(ont), State([(0, 1)], [1], [0], 2.0 / 6.0))
  {
    var P := SelfProblem(ont);
    SelfFacts();
    TripsValid(ont, SelfRules, SelfRules);
    SelfScoreFirst(ont, 1);
    var st := Init(P);
    assert st.rulePool == [0, 1] && st.nodePool == [0, 1];
    SelfRoundOne(ont);
    SelfLiterals();
    RunCommits(P, st, (0, 1));
  }

  /** Round two commits (rule 1, node 0), reaching 4/6, and the rule pool is empty. */
  lemma SelfSecondRound(ont: Ontology, st: State)
    requires st == State([(0, 1)], [1], [0], 2.0 / 6.0) && Inv(SelfProblem(ont), st)
    ensures Run(SelfProblem(ont), st) == Finished([(0, 1), (1, 0)], 4.0 / 6.0)
  {
    var P := SelfProblem(ont);
    SelfScoreCrossed(ont);
    SelfRoundTwo(ont);
    SelfLiterals();
    RunCommits(P, st, (1, 0));
  }

  /** The first round commits (rule 0, node 1): a tie at the top, won on connectivity. */
  lemma SelfRoundOne(ont: Ontology)
    ensures Ctx(SelfProblem(ont), []) && Choose(SelfProblem(ont), [], [0, 1], [0, 1]) == (0, 1)
  {
    SelfTrials(ont);
    ChooseWinner(SelfProblem(ont), [], [0, 1], [0, 1], (0, 1));
  }

  /** Every other pair of the first round loses to (rule 0, node 1), on trial score or on connectivity. */
  lemma SelfTrials(ont: Ontology)
    ensures Ctx(SelfProblem(ont), [])
    ensures forall r, n :: r in [0, 1] && n in [0, 1] && (r, n) != (0, 1) ==>
      Trial(SelfProblem(ont), [], (r, n)) < Trial(SelfProblem(ont), [], (0, 1)) ||
      (Trial(SelfProblem(ont), [], (r, n)) == Trial(SelfProblem(ont), [], (0, 1)) && Conn(SelfProblem(ont), (r, n)) < Conn(SelfProblem(ont), (0, 1)))
  {
    var P := SelfProblem(ont);
    SelfFacts();
    SelfConn(ont);
    SelfTrial(ont, 0, 1);
    forall r, n | r in [0, 1] && n in [0, 1] && (r, n) != (0, 1)
      ensures Trial(P, [], (r, n)) < Trial(P, [], (0, 1)) ||
        (Trial(P, [], (r, n)) == Trial(P, [], (0, 1)) && Conn(P, (r, n)) < Conn(P, (0, 1)))
    {
      SelfTrial(ont, r, n);
    }
  }

  /** The trial score of one pair in the first round. */
  lemma SelfTrial(ont: Ontology, r: nat, n: nat)
    requires r < 2 && n < 2
    ensures Ctx(SelfProblem(ont), [])
    ensures Trial(SelfProblem(ont), [], (r, n)) == if r == 0 then 2.0 / 6.0 else 0.0
  {
    SelfFacts();
    assert [] + [(r, n)] == [(r, n)];
    if r == 0 {
      SelfScoreFirst(ont, n);
    } else {
      SelfScoreSecond(ont, n);
    }
  }

  /** The second round has one pair left. */
  lemma SelfRoundTwo(ont: Ontology)
    ensures Ctx(SelfProblem(ont), [(0, 1)]) && Choose(SelfProblem(ont), [(0, 1)], [1], [0]) == (1, 0)
  {
    SelfFacts();
  }
}
