/**
 * The older copy of the matcher (`IM/PyIM/matcher.py`): case-sensitive element
 * equality with an ancestor relation on term values, a positional scorer that
 * matches the rule's positionals as an ordered subsequence of the node's, the
 * token-stack rule loader, and a search that reports only the score. The rule
 * rewrite, the normalised score and the greedy search are the shared Engine and
 * Greedy modules instantiated with this copy's equality and scorer.
 */
module ImMatcher {
  import opened Basics
  import opened Frames
  import opened Engine
  import opened Greedy

  // ---------------------------------------------------------------------------
  // Element equality

  /** `ont.isAncestor(a, b)` on term values: `a` is an ancestor of `b`. */
  type Ancestry = (string, string) -> bool

  /**
   * `Variable.__eq__` and `Term.__eq__`, with the ancestor test read as a relation on
   * term values: variables by exact name, terms by value or ancestry, and a variable
   * equals any term.
   */
  predicate Equiv(anc: Ancestry, x: Element, y: Element)
    ensures x == y ==> Equiv(anc, x, y)
  {
    match (x, y)
    case (Variable(a), Variable(b)) => a == b
    case (Term(a), Term(b)) => a == b || anc(b, a) || anc(a, b)
    case _ => true
  }

  function Eq(anc: Ancestry): (Element, Element) -> bool {
    (x, y) => Equiv(anc, x, y)
  }

  lemma EquivSymmetric(anc: Ancestry, x: Element, y: Element)
    ensures Equiv(anc, x, y) == Equiv(anc, y, x)
  {
  }

  lemma EquivReflexive(anc: Ancestry, x: Element)
    ensures Equiv(anc, x, x)
  {
  }

  /**
   * `Term.__eq__` as written: the ancestor test is handed the `Term` objects, and the
   * ontology dictionary is keyed by strings, so looking up `self` fails as soon as
   * the two values differ.
   */
  function TermEqAsWritten(a: string, b: string): Result<bool, MatchError> {
    if a == b then Ok(true) else Err(KeyError(Term(a)))
  }

  /** Two different term values, one an ancestor of the other: intended equal, but the code raises. */
  lemma TermEqAsWrittenFails(anc: Ancestry, a: string, b: string)
    requires a != b && anc(a, b)
    ensures TermEqAsWritten(a, b) == Err(KeyError(Term(a)))
    ensures Equiv(anc, Term(a), Term(b))
  {
  }

  /** Where no lookup is needed (equal values), the code as written agrees with the intended equality. */
  lemma TermEqAgrees(anc: Ancestry, a: string, b: string)
    ensures TermEqAsWritten(a, b).Ok? <==> a == b
    ensures TermEqAsWritten(a, b).Ok? ==> TermEqAsWritten(a, b).value == Equiv(anc, Term(a), Term(b))
  {
  }

  // ---------------------------------------------------------------------------
  // `_score_positionals`: an in-order greedy match

  /** `ns.index(x, last)`: the first position from `last` on holding an element equal to `x`. */
  function FindFrom(anc: Ancestry, x: Element, ns: seq<Element>, last: nat): (r: Option<nat>)
    ensures r.Some? ==> last <= r.value < |ns| && Equiv(anc, ns[r.value], x)
    ensures r.Some? ==> forall j :: last <= j < r.value ==> !Equiv(anc, ns[j], x)
    ensures r.None? <==> forall j :: last <= j < |ns| ==> !Equiv(anc, ns[j], x)
    decreases |ns| - last
  {
    if last >= |ns| then None
    else if Equiv(anc, ns[last], x) then Some(last)
    else FindFrom(anc, x, ns, last + 1)
  }

  /**
   * The pairs (rule position, node position) the scorer matches, starting at rule
   * position `i` with the node cursor at `last`.
   */
  function Matches(anc: Ancestry, ps: seq<Element>, ns: seq<Element>, i: nat, last: nat): (r: seq<(nat, nat)>)
    ensures i <= |ps| ==> |r| <= |ps| - i
    decreases |ps| - i
  {
    if i >= |ps| then []
    else
      match FindFrom(anc, ps[i], ns, last)
      case None => Matches(anc, ps, ns, i + 1, last)
      case Some(j) => [(i, j)] + Matches(anc, ps, ns, i + 1, j + 1)
  }

  function PosScore(anc: Ancestry, ps: seq<Element>, ns: seq<Element>): (r: nat)
    ensures r <= |ps|
  {
    |Matches(anc, ps, ns, 0, 0)|
  }

  /**
   * Every matched pair holds equal elements, and the pairs advance strictly in both
   * lists, so no node positional is used twice and the count is at most both lengths.
   */
  lemma {:induction false} MatchesSpec(anc: Ancestry, ps: seq<Element>, ns: seq<Element>, i: nat, last: nat)
    requires i <= |ps| && last <= |ns|
    ensures var M := Matches(anc, ps, ns, i, last);
      forall k :: 0 <= k < |M| ==> i <= M[k].0 < |ps| && last <= M[k].1 < |ns| && Equiv(anc, ns[M[k].1], ps[M[k].0])
    ensures var M := Matches(anc, ps, ns, i, last);
      forall k, l :: 0 <= k < l < |M| ==> M[k].0 < M[l].0 && M[k].1 < M[l].1
    ensures |Matches(anc, ps, ns, i, last)| <= |ps| - i
    ensures |Matches(anc, ps, ns, i, last)| <= |ns| - last
    decreases |ps| - i
  {
    if i < |ps| {
      match FindFrom(anc, ps[i], ns, last)
      case None =>
        MatchesSpec(anc, ps, ns, i + 1, last);
      case Some(j) =>
        MatchesSpec(anc, ps, ns, i + 1, j + 1);
        var rest := Matches(anc, ps, ns, i + 1, j + 1);
        assert Matches(anc, ps, ns, i, last) == [(i, j)] + rest;
        ConsMatched(anc, ps, ns, i, last, j, rest);
    }
  }

  /** A match at `(i, j)` followed by matches further on in both lists keeps both properties of `MatchesSpec`. */
  lemma ConsMatched(anc: Ancestry, ps: seq<Element>, ns: seq<Element>, i: nat, last: nat, j: nat, rest: seq<(nat, nat)>)
    requires i < |ps| && last <= j < |ns| && Equiv(anc, ns[j], ps[i])
    requires forall k :: 0 <= k < |rest| ==>
      i + 1 <= rest[k].0 < |ps| && j + 1 <= rest[k].1 < |ns| && Equiv(anc, ns[rest[k].1], ps[rest[k].0])
    requires forall k, l :: 0 <= k < l < |rest| ==> rest[k].0 < rest[l].0 && rest[k].1 < rest[l].1
    ensures var M := [(i, j)] + rest;
      forall k :: 0 <= k < |M| ==> i <= M[k].0 < |ps| && last <= M[k].1 < |ns| && Equiv(anc, ns[M[k].1], ps[M[k].0])
    ensures var M := [(i, j)] + rest;
      forall k, l :: 0 <= k < l < |M| ==> M[k].0 < M[l].0 && M[k].1 < M[l].1
  {
    var M := [(i, j)] + rest;
    assert forall k :: 1 <= k < |M| ==> M[k] == rest[k - 1];
  }

  /** The positional score is at most the number of positionals of the rule and of the node. */
  lemma PosScoreBounds(anc: Ancestry, ps: seq<Element>, ns: seq<Element>)
    ensures PosScore(anc, ps, ns) <= |ps| && PosScore(anc, ps, ns) <= |ns|
  {
    MatchesSpec(anc, ps, ns, 0, 0);
  }

  /** Against its own positionals, every positional of a rule is matched at its own position. */
  lemma {:induction false} MatchesSelf(anc: Ancestry, ps: seq<Element>, i: nat, last: nat)
    requires i <= |ps| && last <= i
    ensures |Matches(anc, ps, ps, i, last)| == |ps| - i
    decreases |ps| - i
  {
    if i < |ps| {
      EquivReflexive(anc, ps[i]);
      var j := FindFrom(anc, ps[i], ps, last).value;
      MatchesSelf(anc, ps, i + 1, j + 1);
    }
  }

  /** `list.index(x, last)`. */
  method IndexFrom(anc: Ancestry, x: Element, ns: seq<Element>, last: nat) returns (j: nat)
    requires FindFrom(anc, x, ns, last).Some?
    ensures j == FindFrom(anc, x, ns, last).value
  {
    j := last;
    while !Equiv(anc, ns[j], x)
      invariant last <= j <= FindFrom(anc, x, ns, last).value
      decreases |ns| - j
    {
      j := j + 1;
    }
  }

  /** `Rule._score_positionals`: the loop with the `last` cursor. */
  method ScorePositionals(anc: Ancestry, rule: Node, tnode: Node) returns (sum: nat)
    ensures sum == PosScore(anc, rule.positionals, tnode.positionals)
  {
    var ps, ns := rule.positionals, tnode.positionals;
    var last: nat := 0;
    sum := 0;
    for i := 0 to |ps|
      invariant last <= |ns|
      invariant sum + |Matches(anc, ps, ns, i, last)| == PosScore(anc, ps, ns)
    {
      var item := ps[i];
      if exists k :: last <= k < |ns| && Equiv(anc, ns[k], item) {
        var j := IndexFrom(anc, item, ns, last);
        last := j + 1;
        sum := sum + 1;
      }
    }
  }

  // ---------------------------------------------------------------------------
  // `Rule.score` and the problem it defines

  /** `Rule.score`: matched positionals plus matched roles. */
  function NodeScore(anc: Ancestry, rule: Node, tnode: Node): nat {
    PosScore(anc, rule.positionals, tnode.positionals) + KvScore(Eq(anc), rule.kvpairs, tnode.kvpairs)
  }

  method RuleScore(anc: Ancestry, rule: Node, tnode: Node) returns (s: nat)
    ensures s == NodeScore(anc, rule, tnode)
  {
    var p := ScorePositionals(anc, rule, tnode);
    var kv := ScoreKvpairs(Eq(anc), rule, tnode);
    s := p + kv;
  }

  /** A rule never scores more than its own slots against any node. */
  lemma NodeScoreBounded(anc: Ancestry)
    ensures Bounded((t, n) => NodeScore(anc, t, n))
  {
    forall t: Node, n: Node ensures NodeScore(anc, t, n) <= Size(t) {
      PosScoreBounds(anc, t.positionals, n.positionals);
      KvScoreBound(Eq(anc), t.kvpairs, n.kvpairs);
    }
  }

  /** A node scored against itself gets full marks. */
  lemma NodeScoreSelf(anc: Ancestry, n: Node)
    requires UniqueKeys(n.kvpairs)
    ensures NodeScore(anc, n, n) == Size(n)
  {
    MatchesSelf(anc, n.positionals, 0, 0);
    KvScoreBound(Eq(anc), n.kvpairs, n.kvpairs);
    forall i | 0 <= i < |n.kvpairs| ensures KvHit(Eq(anc), n.kvpairs[i], n.kvpairs) {
      GetAt(n.kvpairs, i);
      EquivReflexive(anc, n.kvpairs[i].1);
    }
  }

  /** The engine instance `score(rule_set, tparse)` runs on. */
  function ImProblem(anc: Ancestry, rules: seq<Node>, parse: seq<Node>): Problem {
    Problem((t, n) => NodeScore(anc, t, n), Eq(anc), rules, parse)
  }

  lemma ImValid(anc: Ancestry, rules: seq<Node>, parse: seq<Node>)
    requires AllWellFormed(rules) && AllWellFormed(parse)
    ensures ValidProblem(ImProblem(anc, rules, parse)) && Bounded(ImProblem(anc, rules, parse).sc)
  {
    forall e ensures Eq(anc)(e, e) {
      EquivReflexive(anc, e);
    }
    NodeScoreBounded(anc);
  }

  // ---------------------------------------------------------------------------
  // `score`

  /**
   * `score(rule_set, tparse)`: the greedy search, reporting only the score. With no
   * parse node left for the remaining rules the candidate list is empty and
   * `new_map[0]` raises an IndexError.
   */
  function ScoreSpec(anc: Ancestry, rules: seq<Node>, parse: seq<Node>): Result<real, MatchError>
    requires AllWellFormed(rules) && AllWellFormed(parse)
  {
    ImValid(anc, rules, parse);
    var P := ImProblem(anc, rules, parse);
    match Run(P, Init(P))
    case OutOfNodes => Err(IndexError)
    case StoppedEarly(_, s) => Ok(s)
    case Finished(_, s) => Ok(s)
  }

  method Score(anc: Ancestry, ruleSet: seq<Node>, tparse: seq<Node>) returns (r: Result<real, MatchError>)
    requires AllWellFormed(ruleSet) && AllWellFormed(tparse)
    ensures r == ScoreSpec(anc, ruleSet, tparse)
  {
    ImValid(anc, ruleSet, tparse);
    var P := ImProblem(anc, ruleSet, tparse);
    var out := Search(P);
    match out
    case OutOfNodes =>
      return Err(IndexError);
    case StoppedEarly(_, s) =>
      return Ok(s);
    case Finished(_, s) =>
      return Ok(s);
  }

  /**
   * What `score` promises: it raises only when the parse has fewer nodes than the rule
   * set has rules, and otherwise reports a score in [0, 1] that is the normalised
   * score of an injective mapping which either maps every rule or cannot be improved
   * by one more pair.
   */
  lemma ScoreFacts(anc: Ancestry, rules: seq<Node>, parse: seq<Node>)
    requires AllWellFormed(rules) && AllWellFormed(parse)
    ensures var r := ScoreSpec(anc, rules, parse);
      (r.Err? ==> r.error == IndexError && |parse| < |rules|) &&
      (|parse| >= |rules| ==> r.Ok?) &&
      (r.Ok? ==> 0.0 <= r.value <= 1.0)
    ensures var r, P := ScoreSpec(anc, rules, parse), ImProblem(anc, rules, parse);
      r.Ok? && |rules| > 0 ==>
        exists m :: Ctx(P, m) && ValidMapping(P, m) && r.value == MapScore(P, m) &&
          (|m| == |rules| || LocallyMaximal(P, m, r.value))
  {
    ImValid(anc, rules, parse);
    var P := ImProblem(anc, rules, parse);
    RunFacts(P, Init(P));
    var out := Run(P, Init(P));
    if !out.OutOfNodes? && |rules| > 0 {
      MapScoreBounds(P, out.mapping);
    }
  }

  // ---------------------------------------------------------------------------
  // `rip_parens`

  /** `s.replace(c, d)` for single characters. */
  function Replace(s: string, c: char, d: char): (r: string)
    ensures |r| == |s|
    ensures forall i :: 0 <= i < |s| ==> r[i] == if s[i] == c then d else s[i]
  {
    if s == [] then []
    else Replace(s[..|s| - 1], c, d) + [if s[|s| - 1] == c then d else s[|s| - 1]]
  }

  /** `rip_parens`: every parenthesis becomes a space; all else, and the length, stays. */
  function RipParens(s: string): (r: string)
    ensures |r| == |s|
    ensures forall i :: 0 <= i < |s| ==> r[i] == if s[i] == '(' || s[i] == ')' then ' ' else s[i]
  {
    Replace(Replace(s, '(', ' '), ')', ' ')
  }

  /** The result holds no parenthesis, so ripping twice changes nothing more. */
  lemma RipParensIdempotent(s: string)
    ensures forall i :: 0 <= i < |RipParens(s)| ==> RipParens(s)[i] != '(' && RipParens(s)[i] != ')'
    ensures RipParens(RipParens(s)) == RipParens(s)
  {
  }

  // ---------------------------------------------------------------------------
  // `load_list`: the token-stack state machine

  /** A token naming a role (`:KEY`). */
  predicate IsKey(t: string) {
    |t| > 0 && t[0] == ':'
  }

  /** What `split()` hands the loader: no empty token. */
  predicate Tokens(ts: seq<string>) {
    forall j :: 0 <= j < |ts| ==> |ts[j]| > 0
  }

  /** `get_element` over a list of tokens. */
  function Classify(ts: seq<string>): (es: seq<Element>)
    requires Tokens(ts)
    ensures |es| == |ts|
    ensures forall j :: 0 <= j < |ts| ==> es[j] == GetElement(ts[j])
  {
    if ts == [] then []
    else Classify(ts[..|ts| - 1]) + [GetElement(ts[|ts| - 1])]
  }

  /** Reading one more positional token extends the classified prefix by its element. */
  lemma ClassifyStep(ts: seq<string>, i: nat)
    requires Tokens(ts) && i < |ts|
    ensures Classify(ts[..i + 1]) == Classify(ts[..i]) + [GetElement(ts[i])]
  {
    assert ts[..i + 1][..i] == ts[..i];
  }

  /** The position of the first role token at or after `i`, or the end. */
  function FirstKey(ts: seq<string>, i: nat): (k: nat)
    requires i <= |ts|
    ensures i <= k <= |ts|
    ensures forall j :: i <= j < k ==> !IsKey(ts[j])
    ensures k < |ts| ==> IsKey(ts[k])
    decreases |ts| - i
  {
    if i == |ts| || IsKey(ts[i]) then i else FirstKey(ts, i + 1)
  }

  /**
   * The role writes once the loader has met a role token, from position `i`: a role
   * token takes the next token as its value, any other token is skipped, and a role
   * token with nothing after it is an error.
   */
  function KeyWrites(ts: seq<string>, i: nat): Result<seq<KV>, MatchError>
    requires Tokens(ts)
    decreases |ts| - i
  {
    if i >= |ts| then Ok([])
    else if IsKey(ts[i]) then
      if i + 1 == |ts| then Err(NotEnoughValues)
      else
        match KeyWrites(ts, i + 2)
        case Err(e) => Err(e)
        case Ok(ws) => Ok([(GetElement(ts[i]), GetElement(ts[i + 1]))] + ws)
    else KeyWrites(ts, i + 1)
  }

  /** The loader's result once the positionals `pos` and roles `kv` are collected and position `i` is next. */
  function Finish(pos: seq<Element>, kv: seq<KV>, ts: seq<string>, i: nat): Result<Node, MatchError>
    requires Tokens(ts)
  {
    match KeyWrites(ts, i)
    case Err(e) => Err(e)
    case Ok(ws) => Ok(Node(pos, Assign(kv, ws), []))
  }

  /** `load_list(values)` on the tokens of `values.strip().split()`. */
  function LoadSpec(ts: seq<string>): Result<Node, MatchError>
    requires Tokens(ts)
  {
    Finish(Classify(ts[..FirstKey(ts, 0)]), [], ts, FirstKey(ts, 0))
  }

  lemma {:induction false} AssignCons(kv: seq<KV>, w: KV, ws: seq<KV>)
    ensures Assign(kv, [w] + ws) == Assign(Put(kv, w.0, w.1), ws)
  {
    AssignAppend(kv, [w], ws);
    assert [w][..0] == [];
  }

  /** One step of the role phase: skip a non-role token, fail on a trailing role token, or store a pair. */
  lemma KeyStep(pos: seq<Element>, kv: seq<KV>, ts: seq<string>, i: nat)
    requires Tokens(ts) && i < |ts|
    ensures !IsKey(ts[i]) ==> Finish(pos, kv, ts, i) == Finish(pos, kv, ts, i + 1)
    ensures IsKey(ts[i]) && i + 1 == |ts| ==> Finish(pos, kv, ts, i) == Err(NotEnoughValues)
    ensures IsKey(ts[i]) && i + 1 < |ts| ==>
      Finish(pos, kv, ts, i) == Finish(pos, Put(kv, GetElement(ts[i]), GetElement(ts[i + 1])), ts, i + 2)
  {
    if IsKey(ts[i]) && i + 1 < |ts| && KeyWrites(ts, i + 2).Ok? {
      AssignCons(kv, (GetElement(ts[i]), GetElement(ts[i + 1])), KeyWrites(ts, i + 2).value);
    }
  }

  /** With every token read, the loader returns the node it has collected. */
  lemma FinishEnd(pos: seq<Element>, kv: seq<KV>, ts: seq<string>)
    requires Tokens(ts)
    ensures Finish(pos, kv, ts, |ts|) == Ok(Node(pos, kv, []))
  {
    assert KeyWrites(ts, |ts|) == Ok([]);
  }

  /**
   * The loader's loop read as a recursion on the next position `i`: in state 0 a
   * positional is collected or the first role token switches to state 1; in state 1
   * a role token takes the next token as its value and any other token is skipped.
   */
  function LoadFrom(ts: seq<string>, i: nat, state: nat, pos: seq<Element>, kv: seq<KV>): Result<Node, MatchError>
    requires Tokens(ts) && i <= |ts|
    decreases |ts| - i
  {
    if i == |ts| then Ok(Node(pos, kv, []))
    else if state == 0 && !IsKey(ts[i]) then LoadFrom(ts, i + 1, 0, pos + [GetElement(ts[i])], kv)
    else if !IsKey(ts[i]) then LoadFrom(ts, i + 1, 1, pos, kv)
    else if i + 1 == |ts| then Err(NotEnoughValues)
    else LoadFrom(ts, i + 2, 1, pos, Put(kv, GetElement(ts[i]), GetElement(ts[i + 1])))
  }

  /** In the role phase the loop computes `Finish`. */
  lemma {:induction false} LoadFromRoles(ts: seq<string>, i: nat, pos: seq<Element>, kv: seq<KV>)
    requires Tokens(ts) && i <= |ts|
    ensures LoadFrom(ts, i, 1, pos, kv) == Finish(pos, kv, ts, i)
    decreases |ts| - i
  {
    if i == |ts| {
      FinishEnd(pos, kv, ts);
    } else {
      KeyStep(pos, kv, ts, i);
      if !IsKey(ts[i]) {
        LoadFromRoles(ts, i + 1, pos, kv);
      } else if i + 1 < |ts| {
        LoadFromRoles(ts, i + 2, pos, Put(kv, GetElement(ts[i]), GetElement(ts[i + 1])));
      }
    }
  }

  /** Before the first role token the loop collects exactly the classified prefix. */
  lemma {:induction false} LoadFromPositionals(ts: seq<string>, i: nat)
    requires Tokens(ts) && i <= FirstKey(ts, 0)
    ensures LoadFrom(ts, i, 0, Classify(ts[..i]), []) == LoadSpec(ts)
    decreases |ts| - i
  {
    var k := FirstKey(ts, 0);
    var pos := Classify(ts[..i]);
    if i < k {
      assert !IsKey(ts[i]);
      ClassifyStep(ts, i);
      LoadFromPositionals(ts, i + 1);
    } else {
      assert LoadSpec(ts) == Finish(pos, [], ts, i);
      if i < |ts| {
        assert IsKey(ts[i]);
        KeyStep(pos, [], ts, i);
        if i + 1 < |ts| {
          LoadFromRoles(ts, i + 2, pos, Put([], GetElement(ts[i]), GetElement(ts[i + 1])));
        }
      } else {
        FinishEnd(pos, [], ts);
      }
    }
  }

  /** The loop reading of the loader agrees with its description by phases. */
  lemma LoadFromSpec(ts: seq<string>)
    requires Tokens(ts)
    ensures LoadFrom(ts, 0, 0, [], []) == LoadSpec(ts)
  {
    assert ts[..0] == [];
    LoadFromPositionals(ts, 0);
  }

  /** `load_list`: the token list is reversed and popped, so tokens are read front to back. */
  method LoadList(tokens: seq<string>) returns (r: Result<Node, MatchError>)
    requires Tokens(tokens)
    ensures r == LoadSpec(tokens)
  {
    var positionals: seq<Element> := [];
    var kvpair: seq<KV> := [];
    var state := 0;
    var i := 0;
    ghost var goal := LoadFrom(tokens, 0, 0, [], []);
    while i < |tokens|
      invariant i <= |tokens| && (state == 0 || state == 1)
      invariant goal == LoadFrom(tokens, i, state, positionals, kvpair)
      decreases |tokens| - i
    {
      var t := tokens[i];
      assert |t| > 0;
      i := i + 1;
      if state == 0 {
        if t[0] == ':' {
          state := 1;
        } else {
          positionals := positionals + [GetElement(t)];
        }
      }
      if state == 1 {
        if t[0] == ':' {
          if i == |tokens| {
            LoadFromSpec(tokens);
            return Err(NotEnoughValues);
          }
          var value := tokens[i];
          i := i + 1;
          kvpair := Put(kvpair, GetElement(t), GetElement(value));
        }
      }
    }
    LoadFromSpec(tokens);
    return Ok(Node(positionals, kvpair, []));
  }

  /** Token `p` is a role token, followed by a value, and together they make `kv`. */
  predicate RolePair(ts: seq<string>, p: nat, kv: KV)
    requires Tokens(ts)
  {
    p + 1 < |ts| && IsKey(ts[p]) && kv == (GetElement(ts[p]), GetElement(ts[p + 1]))
  }

  /** Some role token at or after `i`, with its successor, makes `kv`. */
  ghost predicate FromRoleTokens(ts: seq<string>, i: nat, kv: KV)
    requires Tokens(ts)
  {
    exists p: nat :: i <= p && RolePair(ts, p, kv)
  }

  /** Each role write pairs a role token with the token right after it. */
  lemma {:induction false} KeyWritesShape(ts: seq<string>, i: nat)
    requires Tokens(ts) && KeyWrites(ts, i).Ok?
    ensures var ws := KeyWrites(ts, i).value;
      forall w :: 0 <= w < |ws| ==> FromRoleTokens(ts, i, ws[w])
    decreases |ts| - i
  {
    if i < |ts| {
      var ws := KeyWrites(ts, i).value;
      if IsKey(ts[i]) {
        KeyWritesShape(ts, i + 2);
        var rest := KeyWrites(ts, i + 2).value;
        assert ws == [(GetElement(ts[i]), GetElement(ts[i + 1]))] + rest;
        forall w | 0 <= w < |ws|
          ensures FromRoleTokens(ts, i, ws[w])
        {
          if w == 0 {
            assert RolePair(ts, i, ws[0]);
          } else {
            assert ws[w] == rest[w - 1];
            var p: nat :| i + 2 <= p && RolePair(ts, p, rest[w - 1]);
            assert i <= p;
          }
        }
      } else {
        KeyWritesShape(ts, i + 1);
        assert ws == KeyWrites(ts, i + 1).value;
        forall w | 0 <= w < |ws|
          ensures FromRoleTokens(ts, i, ws[w])
        {
          var p: nat :| i + 1 <= p && RolePair(ts, p, ws[w]);
          assert i <= p;
        }
      }
    }
  }

  /** The walk fails only on a role token that is the very last token. */
  lemma {:induction false} KeyWritesErr(ts: seq<string>, i: nat)
    requires Tokens(ts) && KeyWrites(ts, i).Err?
    ensures KeyWrites(ts, i).error == NotEnoughValues
    ensures |ts| > 0 && IsKey(ts[|ts| - 1])
    decreases |ts| - i
  {
    if IsKey(ts[i]) && i + 1 < |ts| {
      KeyWritesErr(ts, i + 2);
    } else if !IsKey(ts[i]) {
      KeyWritesErr(ts, i + 1);
    }
  }

  /**
   * What `load_list` builds: the tokens before the first role token become the
   * positionals, in order; every role is a role token paired with the token after it
   * (other tokens after the first role token are dropped); and the only failure is a
   * role token with no value after it.
   */
  lemma LoadFacts(ts: seq<string>)
    requires Tokens(ts)
    ensures var k := FirstKey(ts, 0);
      LoadSpec(ts).Ok? ==>
        var n := LoadSpec(ts).value;
        |n.positionals| == k && (forall j :: 0 <= j < k ==> !IsKey(ts[j]) && n.positionals[j] == GetElement(ts[j])) &&
        (k < |ts| ==> IsKey(ts[k])) && UniqueKeys(n.kvpairs) &&
        forall j :: 0 <= j < |n.kvpairs| ==> FromRoleTokens(ts, k, n.kvpairs[j])
    ensures LoadSpec(ts).Err? ==> LoadSpec(ts).error == NotEnoughValues && |ts| > 0 && IsKey(ts[|ts| - 1])
  {
    var k := FirstKey(ts, 0);
    if KeyWrites(ts, k).Err? {
      KeyWritesErr(ts, k);
    } else {
      var ws := KeyWrites(ts, k).value;
      KeyWritesShape(ts, k);
      var kvs := Assign([], ws);
      AssignLast(ws, Term(""));
      var pos := Classify(ts[..k]);
      assert LoadSpec(ts) == Ok(Node(pos, kvs, []));
      forall j | 0 <= j < k
        ensures pos[j] == GetElement(ts[j])
      {
        assert ts[..k][j] == ts[j];
      }
      forall j | 0 <= j < |kvs|
        ensures FromRoleTokens(ts, k, kvs[j])
      {
        GetAt(kvs, j);
        AssignLast(ws, kvs[j].0);
        LastWriteSpec(ws, kvs[j].0);
        var w :| 0 <= w < |ws| && ws[w] == (kvs[j].0, kvs[j].1) && forall l :: w < l < |ws| ==> ws[l].0 != kvs[j].0;
        assert kvs[j] == ws[w];
      }
    }
  }

  /** Without role tokens every token is a positional and there are no roles. */
  lemma {:induction false} LoadNoKeys(ts: seq<string>)
    requires Tokens(ts) && forall j :: 0 <= j < |ts| ==> !IsKey(ts[j])
    ensures LoadSpec(ts) == Ok(Node(Classify(ts), [], []))
  {
    assert FirstKey(ts, 0) == |ts|;
    assert ts[..|ts|] == ts;
    assert KeyWrites(ts, |ts|) == Ok([]);
    assert Assign([], []) == [];
  }
}
