/**
 * The first PyIM matcher: exact (ontology-free) element equality, index-aligned
 * positional scoring, role scoring by dictionary lookup, and a `load_list` that pops
 * tokens from the end of the list without reversing it first.
 */
module PyimMatcher {
  import opened Basics
  import opened Frames
  import ImMatcher

  // ---------------------------------------------------------------------------
  // Element equality
  // ---------------------------------------------------------------------------

  /**
   * `Variable.__eq__` and `Term.__eq__`: two variables by exact name, two terms by
   * exact value, and a variable matches any term in either order.
   */
  predicate Equiv(x: Element, y: Element)
    ensures x.Variable? == y.Variable? ==> (Equiv(x, y) <==> x == y)
  {
    match (x, y)
    case (Variable(a), Variable(b)) => a == b
    case (Term(a), Term(b)) => a == b
    case _ => true
  }

  function Eq(): (Element, Element) -> bool {
    (x, y) => Equiv(x, y)
  }

  /** The equality is symmetric and reflexive; on two variables or two terms it is plain equality. */
  lemma EquivFacts(x: Element, y: Element)
    ensures Equiv(x, y) == Equiv(y, x) && Equiv(x, x)
    ensures x.Variable? == y.Variable? ==> (Equiv(x, y) <==> x == y)
  {
  }

  // ---------------------------------------------------------------------------
  // Scoring
  // ---------------------------------------------------------------------------

  function Min(a: nat, b: nat): nat {
    if a <= b then a else b
  }

  /** `_score_positionals`: the sum over `zip` of the rule's and the node's positionals of `r == t`. */
  function PosScore(rp: seq<Element>, np: seq<Element>): (r: nat)
    ensures r <= Min(|rp|, |np|)
    decreases |rp|
  {
    var n := Min(|rp|, |np|);
    if n == 0 then 0
    else PosScore(rp[..n - 1], np[..n - 1]) + (if Equiv(rp[n - 1], np[n - 1]) then 1 else 0)
  }

  /** The aligned positions at which the rule's positional matches the node's. */
  function Hits(rp: seq<Element>, np: seq<Element>): set<nat> {
    set i: nat | i < Min(|rp|, |np|) && Equiv(rp[i], np[i])
  }

  /** Dropping the last aligned position drops at most that position from the hits. */
  lemma HitsStep(rp: seq<Element>, np: seq<Element>)
    requires Min(|rp|, |np|) > 0
    ensures var n := Min(|rp|, |np|);
      var rest := Hits(rp[..n - 1], np[..n - 1]);
      n - 1 !in rest &&
      Hits(rp, np) == rest + (if Equiv(rp[n - 1], np[n - 1]) then {n - 1} else {})
  {
    var n := Min(|rp|, |np|);
    var rq, nq := rp[..n - 1], np[..n - 1];
    var last := if Equiv(rp[n - 1], np[n - 1]) then {n - 1} else {};
    forall i: nat
      ensures i in Hits(rp, np) <==> i in Hits(rq, nq) || i in last
    {
      if i < n - 1 {
        assert rq[i] == rp[i] && nq[i] == np[i];
      }
    }
  }

  /** The positional score counts exactly the aligned positions that match. */
  lemma {:induction false} PosScoreHits(rp: seq<Element>, np: seq<Element>)
    ensures PosScore(rp, np) == |Hits(rp, np)|
    decreases |rp|
  {
    var n := Min(|rp|, |np|);
    if n > 0 {
      var rq, nq := rp[..n - 1], np[..n - 1];
      PosScoreHits(rq, nq);
      HitsStep(rp, np);
      var last: set<nat> := if Equiv(rp[n - 1], np[n - 1]) then {n - 1} else {};
      assert |Hits(rp, np)| == |Hits(rq, nq)| + |last|;
    }
  }

  /**
   * The positional score is at most the shorter length and reaches it exactly when
   * every aligned position matches.
   */
  lemma {:induction false} PosScoreBounds(rp: seq<Element>, np: seq<Element>)
    ensures PosScore(rp, np) <= Min(|rp|, |np|)
    ensures PosScore(rp, np) == Min(|rp|, |np|) <==> forall i :: 0 <= i < Min(|rp|, |np|) ==> Equiv(rp[i], np[i])
    decreases |rp|
  {
    var n := Min(|rp|, |np|);
    if n > 0 {
      var rq, nq := rp[..n - 1], np[..n - 1];
      PosScoreBounds(rq, nq);
      assert forall i :: 0 <= i < n - 1 ==> rq[i] == rp[i] && nq[i] == np[i];
    }
  }

  /** The positional score does not depend on which side is the rule. */
  lemma {:induction false} PosScoreSymmetric(rp: seq<Element>, np: seq<Element>)
    ensures PosScore(rp, np) == PosScore(np, rp)
    decreases |rp|
  {
    var n := Min(|rp|, |np|);
    if n > 0 {
      PosScoreSymmetric(rp[..n - 1], np[..n - 1]);
      EquivFacts(rp[n - 1], np[n - 1]);
    }
  }

  /** A node's positionals match themselves at every position. */
  lemma PosScoreSelf(p: seq<Element>)
    ensures PosScore(p, p) == |p|
  {
    PosScoreBounds(p, p);
    forall i | 0 <= i < |p|
      ensures Equiv(p[i], p[i])
    {
      EquivFacts(p[i], p[i]);
    }
  }

  /** `Rule.score`: the positional count plus the role count (roles looked up by exact key). */
  function NodeScore(rule: Node, node: Node): nat {
    PosScore(rule.positionals, node.positionals) + KvScore(Eq(), rule.kvpairs, node.kvpairs)
  }

  /** `Rule.score`, with `_score_kvpairs` as its counting loop. */
  method RuleScore(rule: Node, node: Node) returns (s: nat)
    ensures s == NodeScore(rule, node)
  {
    var p := PosScore(rule.positionals, node.positionals);
    var kv := ScoreKvpairs(Eq(), rule, node);
    s := p + kv;
  }

  /**
   * A rule scores at most its aligned positionals plus its roles, and a node with
   * distinct role names scores its full size against itself.
   */
  lemma NodeScoreFacts(rule: Node, node: Node)
    ensures NodeScore(rule, node) <= Min(|rule.positionals|, |node.positionals|) + |rule.kvpairs|
    ensures UniqueKeys(rule.kvpairs) ==> NodeScore(rule, rule) == Size(rule)
  {
    PosScoreBounds(rule.positionals, node.positionals);
    KvScoreBound(Eq(), rule.kvpairs, node.kvpairs);
    if UniqueKeys(rule.kvpairs) {
      PosScoreSelf(rule.positionals);
      KvScoreBound(Eq(), rule.kvpairs, rule.kvpairs);
      forall i | 0 <= i < |rule.kvpairs|
        ensures KvHit(Eq(), rule.kvpairs[i], rule.kvpairs)
      {
        GetAt(rule.kvpairs, i);
        EquivFacts(rule.kvpairs[i].1, rule.kvpairs[i].1);
      }
    }
  }

  // ---------------------------------------------------------------------------
  // load_list, as written
  // ---------------------------------------------------------------------------

  /** `values.replace('(', '').replace(')', '')`: every parenthesis is deleted. */
  function Unparen(s: string): (r: string)
    ensures |r| <= |s|
    ensures forall c :: c in r ==> c in s && c != '(' && c != ')'
  {
    if s == [] then []
    else
      var c := s[|s| - 1];
      Unparen(s[..|s| - 1]) + (if c == '(' || c == ')' then [] else [c])
  }

  /** Deleting parentheses works piecewise. */
  lemma {:induction false} UnparenAppend(a: string, b: string)
    ensures Unparen(a + b) == Unparen(a) + Unparen(b)
    decreases |b|
  {
    if b == [] {
      assert a + b == a;
    } else {
      var b' := b[..|b| - 1];
      var last := b[|b| - 1];
      assert (a + b)[..|a + b| - 1] == a + b' && (a + b)[|a + b| - 1] == last;
      UnparenAppend(a, b');
      var tail := if last == '(' || last == ')' then [] else [last];
      assert Unparen(a + b) == (Unparen(a) + Unparen(b')) + tail;
    }
  }

  /** Text without parentheses is left unchanged. */
  lemma {:induction false} UnparenClean(s: string)
    requires forall c :: c in s ==> c != '(' && c != ')'
    ensures Unparen(s) == s
  {
    if s != [] {
      var s' := s[..|s| - 1];
      var last := s[|s| - 1];
      assert last in s;
      forall c | c in s'
        ensures c in s
      {
        var x :| 0 <= x < |s'| && s'[x] == c;
        assert s[x] == c;
      }
      UnparenClean(s');
      assert s == s' + [s[|s| - 1]];
    }
  }

  /**
   * The result of the as-written loader once `pos` and `kv` are collected and the
   * `i`-th popped token is next: each role token pops its value, stores it under the
   * role and also appends it to the positionals.
   */
  function Finish(pos: seq<Element>, kv: seq<KV>, popped: seq<string>, i: nat): Result<(seq<Element>, seq<KV>), MatchError>
    requires ImMatcher.Tokens(popped)
  {
    match ImMatcher.KeyWrites(popped, i)
    case Err(e) => Err(e)
    case Ok(ws) => Ok((pos + Values(ws), Assign(kv, ws)))
  }

  /**
   * What `load_list` computes on a token list: tokens are popped from the end, so they
   * are read in reverse order; those before the first role token read are positionals.
   */
  function LoadSpec(tokens: seq<string>): Result<(seq<Element>, seq<KV>), MatchError>
    requires ImMatcher.Tokens(tokens)
  {
    ReversedAt(tokens);
    LoadPopped(Reversed(tokens))
  }

  /** The as-written loader's result on the tokens in the order they are popped. */
  function LoadPopped(popped: seq<string>): Result<(seq<Element>, seq<KV>), MatchError>
    requires ImMatcher.Tokens(popped)
  {
    var k := ImMatcher.FirstKey(popped, 0);
    Finish(ImMatcher.Classify(popped[..k]), [], popped, k)
  }

  /** One step of the role phase of the as-written loader. */
  lemma KeyStep(pos: seq<Element>, kv: seq<KV>, ts: seq<string>, i: nat)
    requires ImMatcher.Tokens(ts) && i < |ts|
    ensures !ImMatcher.IsKey(ts[i]) ==> Finish(pos, kv, ts, i) == Finish(pos, kv, ts, i + 1)
    ensures ImMatcher.IsKey(ts[i]) && i + 1 == |ts| ==> Finish(pos, kv, ts, i) == Err(NotEnoughValues)
    ensures ImMatcher.IsKey(ts[i]) && i + 1 < |ts| ==>
      var v := GetElement(ts[i + 1]);
      Finish(pos, kv, ts, i) == Finish(pos + [v], Put(kv, GetElement(ts[i]), v), ts, i + 2)
  {
    if ImMatcher.IsKey(ts[i]) && i + 1 < |ts| && ImMatcher.KeyWrites(ts, i + 2).Ok? {
      var w := (GetElement(ts[i]), GetElement(ts[i + 1]));
      var ws := ImMatcher.KeyWrites(ts, i + 2).value;
      ImMatcher.AssignCons(kv, w, ws);
      assert Values([w] + ws) == [w.1] + Values(ws);
      assert pos + ([w.1] + Values(ws)) == (pos + [w.1]) + Values(ws);
    }
  }

  /** With every token read, the loader returns what it has collected. */
  lemma FinishEnd(pos: seq<Element>, kv: seq<KV>, ts: seq<string>)
    requires ImMatcher.Tokens(ts)
    ensures Finish(pos, kv, ts, |ts|) == Ok((pos, kv))
  {
    assert Values([]) == [] && pos + [] == pos;
  }

  /**
   * `load_list`: pop tokens off the end under a `state` flag; returns `(positionals, kvpair)`.
   * The token list still to pop is `tokens[..n]`, so `pop()` reads `tokens[n - 1]`.
   */
  method LoadList(tokens: seq<string>) returns (r: Result<(seq<Element>, seq<KV>), MatchError>)
    requires ImMatcher.Tokens(tokens)
    ensures r == LoadSpec(tokens)
  {
    var positionals: seq<Element> := [];
    var kvpair: seq<KV> := [];
    var n := |tokens|;
    var state := 0;
    ghost var popped := Reversed(tokens);
    ghost var k := ImMatcher.FirstKey(popped, 0);
    ghost var i := 0;
    assert ImMatcher.Tokens(popped) by { ReversedAt(tokens); }
    ghost var goal := LoadPopped(popped);
    assert LoadSpec(tokens) == goal;
    while n > 0
      invariant i + n == |tokens|
      invariant state == 0 || state == 1
      invariant state == 0 ==> i <= k && positionals == ImMatcher.Classify(popped[..i]) && kvpair == []
      invariant state == 1 ==> goal == Finish(positionals, kvpair, popped, i)
    {
      var t := tokens[n - 1];
      ghost var j := i;
      ReversedIndex(tokens, j, n - 1);
      assert t == popped[j] && |t| > 0;
      n, i := n - 1, i + 1;
      if state == 0 {
        if t[0] == ':' {
          assert j == k;
          assert goal == Finish(positionals, kvpair, popped, j);
          state := 1;
        } else {
          ImMatcher.ClassifyStep(popped, j);
          positionals := positionals + [GetElement(t)];
        }
      }
      if state == 1 {
        if t[0] == ':' {
          assert ImMatcher.IsKey(popped[j]);
          if n == 0 {
            KeyStep(positionals, kvpair, popped, j);
            return Err(NotEnoughValues);
          }
          var value := tokens[n - 1];
          ReversedIndex(tokens, j + 1, n - 1);
          assert value == popped[j + 1];
          KeyStep(positionals, kvpair, popped, j);
          n, i := n - 1, i + 1;
          kvpair := Put(kvpair, GetElement(t), GetElement(value));
          positionals := positionals + [GetElement(value)];
        } else {
          KeyStep(positionals, kvpair, popped, j);
        }
      }
    }
    if state == 0 {
      assert popped[..i] == popped;
    }
    FinishEnd(positionals, kvpair, popped);
    return Ok((positionals, kvpair));
  }

  /** The dictionary built from a list of role writes has distinct names and only written values. */
  lemma AssignValues(ws: seq<KV>)
    ensures UniqueKeys(Assign([], ws))
    ensures forall j :: 0 <= j < |Assign([], ws)| ==> Assign([], ws)[j].1 in Values(ws)
  {
    var kvs := Assign([], ws);
    AssignLast(ws, Term(""));
    forall j | 0 <= j < |kvs|
      ensures kvs[j].1 in Values(ws)
    {
      GetAt(kvs, j);
      AssignLast(ws, kvs[j].0);
      LastWriteSpec(ws, kvs[j].0);
      var w :| 0 <= w < |ws| && ws[w] == (kvs[j].0, kvs[j].1) && forall l :: w < l < |ws| ==> ws[l].0 != kvs[j].0;
      assert Values(ws)[w] == kvs[j].1;
    }
  }

  /** `LoadFacts` over the tokens in popping order. */
  lemma LoadPoppedFacts(popped: seq<string>)
    requires ImMatcher.Tokens(popped)
    ensures var k := ImMatcher.FirstKey(popped, 0);
      LoadPopped(popped).Ok? ==>
        var (pos, kvs) := LoadPopped(popped).value;
        k <= |pos| && (forall j :: 0 <= j < k ==> pos[j] == GetElement(popped[j])) &&
        UniqueKeys(kvs) && forall j :: 0 <= j < |kvs| ==> kvs[j].1 in pos
    ensures LoadPopped(popped).Err? ==>
      LoadPopped(popped).error == NotEnoughValues && ImMatcher.IsKey(popped[|popped| - 1])
  {
    var k := ImMatcher.FirstKey(popped, 0);
    if ImMatcher.KeyWrites(popped, k).Err? {
      ImMatcher.KeyWritesErr(popped, k);
    } else {
      var ws := ImMatcher.KeyWrites(popped, k).value;
      var pre := ImMatcher.Classify(popped[..k]);
      var pos := pre + Values(ws);
      assert LoadPopped(popped) == Ok((pos, Assign([], ws)));
      forall j | 0 <= j < k
        ensures pos[j] == GetElement(popped[j])
      {
        assert popped[..k][j] == popped[j];
      }
      AssignValues(ws);
      assert forall v :: v in Values(ws) ==> v in pos;
    }
  }

  /**
   * What the as-written loader builds: the positionals start with the tokens after the
   * last role token, last token first; every stored role value is also a positional;
   * role names are distinct; and it fails only when the very first token is a role
   * token left without a value.
   */
  lemma LoadFacts(tokens: seq<string>)
    requires ImMatcher.Tokens(tokens)
    ensures var k := ImMatcher.FirstKey(Reversed(tokens), 0);
      LoadSpec(tokens).Ok? ==>
        var (pos, kvs) := LoadSpec(tokens).value;
        k <= |pos| && (forall j :: 0 <= j < k ==> pos[j] == GetElement(tokens[|tokens| - 1 - j])) &&
        UniqueKeys(kvs) && forall j :: 0 <= j < |kvs| ==> kvs[j].1 in pos
    ensures LoadSpec(tokens).Err? ==> LoadSpec(tokens).error == NotEnoughValues && ImMatcher.IsKey(tokens[0])
  {
    ReversedAt(tokens);
    assert LoadSpec(tokens) == LoadPopped(Reversed(tokens));
    LoadPoppedFacts(Reversed(tokens));
  }

  /** The tokens of `F ?x :A ?y` in the order `pop()` yields them, and the role walk over them. */
  lemma PoppedExample()
    ensures Reversed(["F", "?x", ":A", "?y"]) == ["?y", ":A", "?x", "F"]
    ensures ImMatcher.Tokens(["?y", ":A", "?x", "F"])
    ensures ImMatcher.FirstKey(["?y", ":A", "?x", "F"], 0) == 1
    ensures ImMatcher.KeyWrites(["?y", ":A", "?x", "F"], 1) == Ok([(Term(":A"), Variable("?x"))])
  {
    ReversedAt(["F", "?x", ":A", "?y"]);
    var popped := ["?y", ":A", "?x", "F"];
    assert ImMatcher.IsKey(popped[1]) && !ImMatcher.IsKey(popped[0]) && !ImMatcher.IsKey(popped[3]);
    assert GetElement(":A") == Term(":A") && GetElement("?x") == Variable("?x");
    assert ImMatcher.KeyWrites(popped, 3) == Ok([]);
    assert [(Term(":A"), Variable("?x"))] + [] == [(Term(":A"), Variable("?x"))];
  }

  /** The as-written loader on `F ?x :A ?y`. */
  lemma AsWrittenExample()
    ensures LoadSpec(["F", "?x", ":A", "?y"]) == Ok(([Variable("?y"), Variable("?x")], [(Term(":A"), Variable("?x"))]))
  {
    PoppedExample();
    var popped := ["?y", ":A", "?x", "F"];
    var wa := (Term(":A"), Variable("?x"));
    assert popped[..1] == ["?y"];
    assert ImMatcher.Classify(["?y"]) == [Variable("?y")];
    assert Values([wa]) == [Variable("?x")];
    assert Assign([], [wa]) == [wa];
    assert [Variable("?y")] + [Variable("?x")] == [Variable("?y"), Variable("?x")];
  }

  /** The loader that reverses the tokens first, on `F ?x :A ?y`. */
  lemma CorrectedExample()
    ensures ImMatcher.LoadSpec(["F", "?x", ":A", "?y"]) == Ok(Node([Term("F"), Variable("?x")], [(Term(":A"), Variable("?y"))], []))
  {
    var ts := ["F", "?x", ":A", "?y"];
    assert GetElement(":A") == Term(":A") && GetElement("?x") == Variable("?x") && GetElement("?y") == Variable("?y");
    assert GetElement("F") == Term("F");
    assert ImMatcher.FirstKey(ts, 0) == 2 by {
      assert !ImMatcher.IsKey(ts[0]) && !ImMatcher.IsKey(ts[1]) && ImMatcher.IsKey(ts[2]);
    }
    var wb := (Term(":A"), Variable("?y"));
    assert ImMatcher.KeyWrites(ts, 4) == Ok([]);
    assert ImMatcher.KeyWrites(ts, 2) == Ok([wb] + []);
    assert [wb] + [] == [wb];
    assert ts[..2] == ["F", "?x"];
    assert ImMatcher.Classify(["F", "?x"]) == [Term("F"), Variable("?x")];
    assert Assign([], [wb]) == [wb];
  }

  /**
   * Reading from the end scrambles a rule: for `F ?x :A ?y` the as-written loader
   * returns positionals `?y ?x` and the role `:A ?x` (dropping `F`), while the loader
   * that reverses the tokens first returns positionals `F ?x` and the role `:A ?y`.
   */
  lemma LoadAsWrittenReorders()
    ensures LoadSpec(["F", "?x", ":A", "?y"]) == Ok(([Variable("?y"), Variable("?x")], [(Term(":A"), Variable("?x"))]))
    ensures ImMatcher.LoadSpec(["F", "?x", ":A", "?y"]) == Ok(Node([Term("F"), Variable("?x")], [(Term(":A"), Variable("?y"))], []))
  {
    AsWrittenExample();
    CorrectedExample();
  }
}
