/**
 * The data model shared by the three copies of the matcher: elements, frame nodes
 * (a parse node and a rule have the same shape), role dictionaries, the token
 * classifier, the cardinality of a rule set, the key/value scorer and the
 * element-to-rule lookup.
 */
module Frames {
  import opened Basics

  /** A template variable (`?x`) or a concrete symbol. */
  datatype Element = Variable(name: string) | Term(value: string)

  /** One role of a node: key (always a Term in loaded data) and value. */
  type KV = (Element, Element)

  /**
   * A frame node or rule. `kvpairs` is a Python dict kept in insertion order; a dict
   * key matches only the same constructor with the same string (keys hash by their
   * printed form), so key lookups below use plain equality.
   */
  datatype Node = Node(positionals: seq<Element>, kvpairs: seq<KV>, typeWord: seq<Element>)

  /** The exceptions the matcher can raise. */
  datatype MatchError =
    | NotEnoughTnodes
    | ElementNotInRuleSet(element: Element)
    | NotEnoughValues
    | IndexError
    | KeyError(key: Element)
    | TypeError

  /** The string an element carries (`name` of a Variable, `value` of a Term). */
  function IdName(e: Element): string {
    match e
    case Variable(n) => n
    case Term(v) => v
  }

  /** `get_element`: a token is a Variable exactly when it starts with `?`. */
  function GetElement(tok: string): (e: Element)
    requires |tok| > 0
    ensures e.Variable? <==> tok[0] == '?'
    ensures IdName(e) == tok
  {
    if tok[0] == '?' then Variable(tok) else Term(tok)
  }

  /** An element whose string is a token that classifies back to the same constructor. */
  predicate Printable(e: Element) {
    |IdName(e)| > 0 && (e.Variable? <==> IdName(e)[0] == '?')
  }

  /** Printing an element and classifying the token again gives the element back. */
  lemma GetElementRoundTrip(e: Element)
    requires Printable(e)
    ensures GetElement(IdName(e)) == e
  {
  }

  // ---------------------------------------------------------------------------
  // Role dictionaries

  predicate UniqueKeys(kvs: seq<KV>) {
    forall i, j :: 0 <= i < j < |kvs| ==> kvs[i].0 != kvs[j].0
  }

  /**
   * `d.get(k)`: the value stored under key `k`, if any. `Engine.NodeOf` is the same
   * first-entry lookup on the rule-to-node mapping, whose keys are rule positions.
   */
  function Get(kvs: seq<KV>, k: Element): (r: Option<Element>)
    ensures r.None? <==> forall i :: 0 <= i < |kvs| ==> kvs[i].0 != k
    ensures r.Some? ==> exists i :: 0 <= i < |kvs| && kvs[i] == (k, r.value)
  {
    if kvs == [] then None
    else if kvs[0].0 == k then Some(kvs[0].1)
    else
      var r := Get(kvs[1..], k);
      assert forall i :: 1 <= i < |kvs| ==> kvs[i] == kvs[1..][i - 1];
      r
  }

  /** In a dictionary, the value found for the key of an entry is that entry's value. */
  lemma {:induction false} GetAt(kvs: seq<KV>, i: nat)
    requires UniqueKeys(kvs) && i < |kvs|
    ensures Get(kvs, kvs[i].0) == Some(kvs[i].1)
  {
    if i > 0 {
      assert kvs[0].0 != kvs[i].0;
      assert kvs[1..][i - 1] == kvs[i];
      GetAt(kvs[1..], i - 1);
    }
  }

  /** `d[k] = v`: replaces the value of an existing key in place, or appends a new entry. */
  function Put(kvs: seq<KV>, k: Element, v: Element): (r: seq<KV>)
    ensures Get(r, k) == Some(v)
    ensures |r| == if Get(kvs, k).Some? then |kvs| else |kvs| + 1
  {
    if kvs == [] then [(k, v)]
    else if kvs[0].0 == k then [(k, v)] + kvs[1..]
    else [kvs[0]] + Put(kvs[1..], k, v)
  }

  /** Storing under `k` leaves every other key's value as it was. */
  lemma {:induction false} PutOther(kvs: seq<KV>, k: Element, v: Element, k': Element)
    requires k' != k
    ensures Get(Put(kvs, k, v), k') == Get(kvs, k')
  {
    if kvs != [] && kvs[0].0 != k {
      PutOther(kvs[1..], k, v, k');
    }
  }

  /** Storing into a dictionary gives a dictionary. */
  lemma {:induction false} PutUnique(kvs: seq<KV>, k: Element, v: Element)
    requires UniqueKeys(kvs)
    ensures UniqueKeys(Put(kvs, k, v))
  {
    if kvs != [] && kvs[0].0 != k {
      var tail := kvs[1..];
      assert UniqueKeys(tail) by {
        forall i, j | 0 <= i < j < |tail| ensures tail[i].0 != tail[j].0 {
          assert tail[i] == kvs[i + 1] && tail[j] == kvs[j + 1];
        }
      }
      PutUnique(tail, k, v);
      var rest := Put(tail, k, v);
      assert Get(tail, kvs[0].0).None? by {
        forall i | 0 <= i < |tail| ensures tail[i].0 != kvs[0].0 {
          assert tail[i] == kvs[i + 1];
        }
      }
      PutOther(tail, k, v, kvs[0].0);
      var r := [kvs[0]] + rest;
      forall i, j | 0 <= i < j < |r| ensures r[i].0 != r[j].0 {
        assert r[j] == rest[j - 1];
        if i > 0 {
          assert r[i] == rest[i - 1];
        }
      }
    } else if kvs != [] {
      var r := Put(kvs, k, v);
      forall i, j | 0 <= i < j < |r| ensures r[i].0 != r[j].0 {
        assert r[j] == kvs[j];
        if i > 0 {
          assert r[i] == kvs[i];
        }
      }
    }
  }

  /** Replaying writes into a dictionary. */
  function Assign(d: seq<KV>, ws: seq<KV>): seq<KV> {
    if ws == [] then d else Put(Assign(d, ws[..|ws| - 1]), ws[|ws| - 1].0, ws[|ws| - 1].1)
  }

  /** The value of the last write under `x`: the reference meaning of "later writes win". */
  function LastWrite(ws: seq<KV>, x: Element): Option<Element> {
    if ws == [] then None
    else if ws[|ws| - 1].0 == x then Some(ws[|ws| - 1].1)
    else LastWrite(ws[..|ws| - 1], x)
  }

  /** No write to `x` gives nothing; otherwise the value comes from a write after which `x` is not written again. */
  lemma {:induction false} LastWriteSpec(ws: seq<KV>, x: Element)
    ensures LastWrite(ws, x).None? <==> forall i :: 0 <= i < |ws| ==> ws[i].0 != x
    ensures LastWrite(ws, x).Some? ==>
      exists i :: 0 <= i < |ws| && ws[i] == (x, LastWrite(ws, x).value) && forall j :: i < j < |ws| ==> ws[j].0 != x
  {
    if ws != [] && ws[|ws| - 1].0 != x {
      var init := ws[..|ws| - 1];
      LastWriteSpec(init, x);
      assert LastWrite(ws, x) == LastWrite(init, x);
      if LastWrite(init, x).Some? {
        var i :| 0 <= i < |init| && init[i] == (x, LastWrite(init, x).value) && forall j :: i < j < |init| ==> init[j].0 != x;
        assert ws[i] == init[i];
        forall j | i < j < |ws|
          ensures ws[j].0 != x
        {
          if j < |init| {
            assert ws[j] == init[j];
          }
        }
      } else {
        forall i | 0 <= i < |ws|
          ensures ws[i].0 != x
        {
          if i < |init| {
            assert ws[i] == init[i];
          }
        }
      }
    }
  }

  lemma {:induction false} AssignAppend(d: seq<KV>, a: seq<KV>, b: seq<KV>)
    ensures Assign(d, a + b) == Assign(Assign(d, a), b)
  {
    if b != [] {
      assert (a + b)[..|a + b| - 1] == a + b[..|b| - 1];
      AssignAppend(d, a, b[..|b| - 1]);
    } else {
      assert a + b == a;
    }
  }

  /** The dictionary built by the writes holds, under each key, the last value written to it. */
  lemma {:induction false} AssignLast(ws: seq<KV>, x: Element)
    ensures Get(Assign([], ws), x) == LastWrite(ws, x)
    ensures UniqueKeys(Assign([], ws))
  {
    if ws != [] {
      var init := ws[..|ws| - 1];
      var (k, v) := ws[|ws| - 1];
      AssignLast(init, x);
      PutUnique(Assign([], init), k, v);
      if k != x {
        PutOther(Assign([], init), k, v, x);
      }
    }
  }

  function Values(kvs: seq<KV>): (r: seq<Element>)
    ensures |r| == |kvs| && forall i :: 0 <= i < |kvs| ==> r[i] == kvs[i].1
  {
    if kvs == [] then [] else [kvs[0].1] + Values(kvs[1..])
  }

  // ---------------------------------------------------------------------------
  // Nodes and rule sets

  /**
   * What the loaders guarantee of every node: an indicator slot and an identity slot,
   * and a role dictionary (distinct keys).
   */
  predicate WellFormed(n: Node) {
    |n.positionals| >= 2 && UniqueKeys(n.kvpairs)
  }

  predicate AllWellFormed(ns: seq<Node>) {
    forall i :: 0 <= i < |ns| ==> WellFormed(ns[i])
  }

  /** `rule_to_element`: the identity slot of a node. */
  function Identity(n: Node): Element
    requires |n.positionals| >= 2
  {
    n.positionals[1]
  }

  /** Number of positional slots and role pairs of one node. */
  function Size(n: Node): nat {
    |n.positionals| + |n.kvpairs|
  }

  /** The slots of a rule set, summed rule by rule in list order. */
  function Card(rs: seq<Node>): (c: nat)
    ensures forall i :: 0 <= i < |rs| ==> Size(rs[i]) <= c
  {
    if rs == [] then 0 else Card(rs[..|rs| - 1]) + Size(rs[|rs| - 1])
  }

  /** Cardinality is additive over concatenation of rule sets. */
  lemma {:induction false} CardAppend(a: seq<Node>, b: seq<Node>)
    ensures Card(a + b) == Card(a) + Card(b)
  {
    if b != [] {
      assert (a + b)[..|a + b| - 1] == a + b[..|b| - 1];
      CardAppend(a, b[..|b| - 1]);
    } else {
      assert a + b == a;
    }
  }

  /** Each node of a rule set contributes at most the whole cardinality; a prefix contributes its own part. */
  lemma {:induction false} CardPrefix(rs: seq<Node>, k: nat)
    requires k <= |rs|
    ensures Card(rs[..k]) <= Card(rs)
  {
    assert rs == rs[..k] + rs[k..];
    CardAppend(rs[..k], rs[k..]);
  }

  /** A non-empty rule set of well-formed rules has a positive cardinality (at least two per rule). */
  lemma {:induction false} CardPositive(rs: seq<Node>)
    requires AllWellFormed(rs)
    ensures Card(rs) >= 2 * |rs|
  {
    if rs != [] {
      CardPositive(rs[..|rs| - 1]);
    }
  }

  /** `cardinality`: counts every positional and every role pair of every rule, rule by rule. */
  method Cardinality(rs: seq<Node>) returns (card: nat)
    ensures card == Card(rs)
  {
    card := 0;
    for i := 0 to |rs|
      invariant card == Card(rs[..i])
    {
      assert rs[..i + 1][..i] == rs[..i];
      card := card + |rs[i].positionals|;
      card := card + |rs[i].kvpairs|;
    }
    assert rs[..|rs|] == rs;
  }

  // ---------------------------------------------------------------------------
  // Key/value scorer (`Rule._score_kvpairs`, the same code in all three copies)

  /** A rule role is matched when the node has the same key and the values are equivalent. */
  predicate KvHit(eq: (Element, Element) -> bool, kv: KV, target: seq<KV>) {
    Get(target, kv.0).Some? && eq(kv.1, Get(target, kv.0).value)
  }

  /** Number of rule roles matched by the node, counted in the rule's dictionary order. */
  function KvScore(eq: (Element, Element) -> bool, kvs: seq<KV>, target: seq<KV>): (r: nat)
    ensures r <= |kvs|
  {
    if kvs == [] then 0
    else KvScore(eq, kvs[..|kvs| - 1], target) + (if KvHit(eq, kvs[|kvs| - 1], target) then 1 else 0)
  }

  /** The role score never exceeds the number of rule roles, and reaches it exactly when every role is matched. */
  lemma {:induction false} KvScoreBound(eq: (Element, Element) -> bool, kvs: seq<KV>, target: seq<KV>)
    ensures KvScore(eq, kvs, target) <= |kvs|
    ensures KvScore(eq, kvs, target) == |kvs| <==> forall i :: 0 <= i < |kvs| ==> KvHit(eq, kvs[i], target)
  {
    if kvs != [] {
      var init := kvs[..|kvs| - 1];
      KvScoreBound(eq, init, target);
      assert forall i :: 0 <= i < |init| ==> init[i] == kvs[i];
    }
  }

  /** `_score_kvpairs`: a counting loop over the rule's roles. */
  method ScoreKvpairs(eq: (Element, Element) -> bool, rule: Node, node: Node) returns (count: nat)
    ensures count == KvScore(eq, rule.kvpairs, node.kvpairs)
  {
    count := 0;
    var kvs := rule.kvpairs;
    for i := 0 to |kvs|
      invariant count == KvScore(eq, kvs[..i], node.kvpairs)
    {
      assert kvs[..i + 1][..i] == kvs[..i];
      var (k, v) := kvs[i];
      var w := Get(node.kvpairs, k);
      if w.Some? && eq(v, w.value) {
        count := count + 1;
      }
    }
    assert kvs[..|kvs|] == kvs;
  }

  // ---------------------------------------------------------------------------
  // `element_to_rule`

  /** Index of the first rule whose identity carries the same string as `e`. */
  function FirstGoverning(rs: seq<Node>, e: Element): (r: Option<nat>)
    requires forall i :: 0 <= i < |rs| ==> |rs[i].positionals| >= 2
    ensures r.Some? ==> r.value < |rs| && IdName(Identity(rs[r.value])) == IdName(e)
    ensures r.Some? ==> forall j :: 0 <= j < r.value ==> IdName(Identity(rs[j])) != IdName(e)
    ensures r.None? <==> forall j :: 0 <= j < |rs| ==> IdName(Identity(rs[j])) != IdName(e)
  {
    if rs == [] then None
    else if IdName(Identity(rs[0])) == IdName(e) then Some(0)
    else
      match FirstGoverning(rs[1..], e)
      case None => None
      case Some(j) => Some(j + 1)
  }

  /** `e in rule.positionals or e in rule.kvpairs.values()`, with the relaxed equality. */
  predicate Mentions(eq: (Element, Element) -> bool, n: Node, e: Element) {
    (exists j :: 0 <= j < |n.positionals| && eq(n.positionals[j], e)) ||
    (exists j :: 0 <= j < |n.kvpairs| && eq(n.kvpairs[j].1, e))
  }

  /**
   * `element_to_rule`: the first rule whose identity has e's string (`Some(index)`);
   * otherwise `None` when some rule mentions e; otherwise the ValueError.
   */
  function ElementToRule(eq: (Element, Element) -> bool, e: Element, rs: seq<Node>): (r: Result<Option<nat>, MatchError>)
    requires forall i :: 0 <= i < |rs| ==> |rs[i].positionals| >= 2
    ensures r.Ok? && r.value.Some? ==> r.value.value < |rs| && IdName(Identity(rs[r.value.value])) == IdName(e)
    ensures r.Err? ==> r.error == ElementNotInRuleSet(e)
  {
    match FirstGoverning(rs, e)
    case Some(i) => Ok(Some(i))
    case None =>
      if exists i :: 0 <= i < |rs| && Mentions(eq, rs[i], e) then Ok(None)
      else Err(ElementNotInRuleSet(e))
  }

  /** An element occurs literally in node `n`, as a positional or as a role value. */
  predicate Occurs(n: Node, e: Element) {
    e in n.positionals || e in Values(n.kvpairs)
  }

  /**
   * The lookup answers exactly as the identity names dictate, and it never raises for
   * an element that occurs in the rule set when the equality is reflexive on it.
   */
  lemma ElementToRuleSpec(eq: (Element, Element) -> bool, e: Element, rs: seq<Node>, i: nat)
    requires forall k :: 0 <= k < |rs| ==> |rs[k].positionals| >= 2
    requires i < |rs| && Occurs(rs[i], e) && eq(e, e)
    ensures ElementToRule(eq, e, rs).Ok?
    ensures ElementToRule(eq, e, rs).value.Some? <==> exists k :: 0 <= k < |rs| && IdName(Identity(rs[k])) == IdName(e)
  {
    if FirstGoverning(rs, e).None? {
      if e in rs[i].positionals {
        var j :| 0 <= j < |rs[i].positionals| && rs[i].positionals[j] == e;
        assert Mentions(eq, rs[i], e);
      } else {
        var j :| 0 <= j < |rs[i].kvpairs| && Values(rs[i].kvpairs)[j] == e;
        assert Mentions(eq, rs[i], e);
      }
    }
  }

  /** `element_to_rule` with its two loops: first over identities, then over mentions. */
  method FindRule(eq: (Element, Element) -> bool, e: Element, rs: seq<Node>) returns (r: Result<Option<nat>, MatchError>)
    requires forall i :: 0 <= i < |rs| ==> |rs[i].positionals| >= 2
    ensures r == ElementToRule(eq, e, rs)
  {
    var name2 := IdName(e);
    for i := 0 to |rs|
      invariant forall j :: 0 <= j < i ==> IdName(Identity(rs[j])) != name2
    {
      if IdName(Identity(rs[i])) == name2 {
        return Ok(Some(i));
      }
    }
    for i := 0 to |rs|
      invariant forall j :: 0 <= j < i ==> !Mentions(eq, rs[j], e)
    {
      if Mentions(eq, rs[i], e) {
        return Ok(None);
      }
    }
    return Err(ElementNotInRuleSet(e));
  }
}
