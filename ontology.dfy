/**
 * The word hierarchy of the ontology tools: every word has at most one parent, each
 * word's ancestor list is precomputed by walking parent links up to a root, and the
 * `isAncestor`, `isChild` and `distance` queries read those lists.
 */
module OntologyTools {
  import opened Basics

  /** The ontology by word: the word's parent, or `None` for a root (`"parent": []`). */
  type Ontology = map<string, Option<string>>

  /** Every parent named in the ontology is itself an entry. */
  predicate Closed(ont: Ontology) {
    forall w :: w in ont && ont[w].Some? ==> ont[w].value in ont
  }

  /** The parent walk from `w`, allowed at most `fuel` parent steps; `None` when it is not at a root by then. */
  function ChainFrom(ont: Ontology, w: string, fuel: nat): Option<seq<string>>
    requires Closed(ont) && w in ont
    decreases fuel
  {
    if ont[w].None? then Some([w])
    else if fuel == 0 then None
    else match ChainFrom(ont, ont[w].value, fuel - 1)
      case None => None
      case Some(c) => Some([w] + c)
  }

  /**
   * The ontology is closed and every parent walk reaches a root within as many steps
   * as there are words, that is, the parent links have no cycle.
   */
  predicate Valid(ont: Ontology) {
    Closed(ont) && forall w :: w in ont ==> ChainFrom(ont, w, |ont|).Some?
  }

  /** The ancestor list of `w`: `w` itself, then its parent, its parent's parent, up to a root. */
  function Chain(ont: Ontology, w: string): (c: seq<string>)
    requires Valid(ont) && w in ont
    ensures |c| > 0 && c[0] == w
  {
    ChainFromShape(ont, w, |ont|);
    ChainFrom(ont, w, |ont|).value
  }

  /** A walk that reaches a root: starts at `w`, follows one parent link per step, stops at a root. */
  lemma {:induction false} ChainFromShape(ont: Ontology, w: string, fuel: nat)
    requires Closed(ont) && w in ont && ChainFrom(ont, w, fuel).Some?
    ensures var c := ChainFrom(ont, w, fuel).value;
      0 < |c| <= fuel + 1 && c[0] == w && (forall i :: 0 <= i < |c| ==> c[i] in ont) &&
      (forall i :: 0 <= i < |c| - 1 ==> ont[c[i]] == Some(c[i + 1])) &&
      ont[c[|c| - 1]].None?
    decreases fuel
  {
    if ont[w].Some? {
      ChainFromShape(ont, ont[w].value, fuel - 1);
      var c := ChainFrom(ont, w, fuel).value;
      var d := ChainFrom(ont, ont[w].value, fuel - 1).value;
      assert c == [w] + d;
      assert forall i :: 1 <= i < |c| ==> c[i] == d[i - 1];
    }
  }

  /** More fuel than a walk needs does not change it. */
  lemma {:induction false} ChainFromFuel(ont: Ontology, w: string, f1: nat, f2: nat)
    requires Closed(ont) && w in ont && ChainFrom(ont, w, f1).Some? && f1 <= f2
    ensures ChainFrom(ont, w, f2) == ChainFrom(ont, w, f1)
    decreases f1
  {
    if ont[w].Some? {
      ChainFromFuel(ont, ont[w].value, f1 - 1, f2 - 1);
    }
  }

  /** The walk from the `i`-th word of a walk is the rest of that walk. */
  lemma {:induction false} ChainFromSuffix(ont: Ontology, w: string, fuel: nat, i: nat)
    requires Closed(ont) && w in ont && ChainFrom(ont, w, fuel).Some?
    requires i < |ChainFrom(ont, w, fuel).value|
    ensures var c := ChainFrom(ont, w, fuel).value;
      i <= fuel && c[i] in ont && ChainFrom(ont, c[i], fuel - i) == Some(c[i..])
    decreases i
  {
    ChainFromShape(ont, w, fuel);
    var c := ChainFrom(ont, w, fuel).value;
    if i > 0 {
      var d := ChainFrom(ont, ont[w].value, fuel - 1).value;
      assert c == [w] + d;
      ChainFromSuffix(ont, ont[w].value, fuel - 1, i - 1);
      assert c[i] == d[i - 1] && c[i..] == d[i - 1..];
    }
  }

  /** The ancestor list of an ancestor of `w` is the tail of `w`'s list from that ancestor on. */
  lemma ChainSuffix(ont: Ontology, w: string, i: nat)
    requires Valid(ont) && w in ont && i < |Chain(ont, w)|
    ensures Chain(ont, w)[i] in ont && Chain(ont, Chain(ont, w)[i]) == Chain(ont, w)[i..]
  {
    ChainFromSuffix(ont, w, |ont|, i);
    var x := Chain(ont, w)[i];
    ChainFromFuel(ont, x, |ont| - i, |ont|);
  }

  /**
   * What the precomputed lists are: a list starts at its word, each next entry is the
   * previous one's parent, it ends at a root, and no word repeats in it.
   */
  lemma ChainFacts(ont: Ontology, w: string)
    requires Valid(ont) && w in ont
    ensures var c := Chain(ont, w);
      c[0] == w && (forall i :: 0 <= i < |c| ==> c[i] in ont) &&
      (forall i :: 0 <= i < |c| - 1 ==> ont[c[i]] == Some(c[i + 1])) &&
      ont[c[|c| - 1]].None? && Distinct(c)
  {
    ChainFromShape(ont, w, |ont|);
    var c := Chain(ont, w);
    forall i, j | 0 <= i < j < |c|
      ensures c[i] != c[j]
    {
      ChainSuffix(ont, w, i);
      ChainSuffix(ont, w, j);
      assert |c[i..]| != |c[j..]|;
    }
  }

  /**
   * The loop in `loadont` that stores each word's ancestor list: for every word it
   * starts a list with the word and appends parents until it reaches a root.
   */
  method PrecomputeAncestors(ont: Ontology) returns (ancestors: map<string, seq<string>>)
    requires Valid(ont)
    ensures ancestors.Keys == ont.Keys
    ensures forall w :: w in ont ==> ancestors[w] == Chain(ont, w)
  {
    ancestors := map[];
    var todo := ont.Keys;
    while todo != {}
      invariant todo <= ont.Keys
      invariant ancestors.Keys == ont.Keys - todo
      invariant forall w :: w in ancestors ==> ancestors[w] == Chain(ont, w)
      decreases |todo|
    {
      var word :| word in todo;
      var list := [word];
      var child := word;
      ghost var fuel: nat := |ont|;
      ghost var before: seq<string> := [];
      while ont[child].Some?
        invariant child in ont && ChainFrom(ont, child, fuel).Some?
        invariant list == before + [child]
        invariant before + ChainFrom(ont, child, fuel).value == Chain(ont, word)
        decreases fuel
      {
        var parent := ont[child].value;
        ghost var rest := ChainFrom(ont, parent, fuel - 1).value;
        assert ChainFrom(ont, child, fuel).value == [child] + rest;
        assert before + ([child] + rest) == (before + [child]) + rest;
        before := list;
        list := list + [parent];
        child := parent;
        fuel := fuel - 1;
      }
      ancestors := ancestors[word := list];
      todo := todo - {word};
    }
  }

  /** Is `a` an ancestor of `b`? Membership of `a` in `b`'s list, so every word is its own ancestor. */
  predicate IsAncestor(ont: Ontology, a: string, b: string)
    requires Valid(ont) && b in ont
  {
    a in Chain(ont, b)
  }

  /** Is `a` a child (descendant) of `b`? */
  predicate IsChild(ont: Ontology, a: string, b: string)
    requires Valid(ont) && a in ont
    ensures a == b ==> IsChild(ont, a, b)
  {
    IsAncestor(ont, b, a)
  }

  /**
   * Ancestry is the reflexive-transitive closure of the parent link and a partial
   * order: every word is its own ancestor, a parent is an ancestor (and the word its
   * child), ancestry is transitive, and two words that are each other's ancestor are
   * the same word.
   */
  lemma AncestorOrder(ont: Ontology, a: string, b: string, c: string)
    requires Valid(ont) && a in ont && b in ont && c in ont
    ensures IsAncestor(ont, a, a)
    ensures ont[a] == Some(b) ==> IsAncestor(ont, b, a) && IsChild(ont, a, b)
    ensures IsAncestor(ont, a, b) && IsAncestor(ont, b, c) ==> IsAncestor(ont, a, c)
    ensures IsAncestor(ont, a, b) && IsAncestor(ont, b, a) ==> a == b
  {
    if ont[a] == Some(b) {
      ParentOnChain(ont, a, b);
    }
    if IsAncestor(ont, a, b) && IsAncestor(ont, b, c) {
      ChainTransitive(ont, a, b, c);
    }
    if IsAncestor(ont, a, b) && IsAncestor(ont, b, a) {
      ChainAntisymmetric(ont, a, b);
    }
  }

  /** A word's parent is second on its ancestor list. */
  lemma ParentOnChain(ont: Ontology, a: string, b: string)
    requires Valid(ont) && a in ont && ont[a] == Some(b)
    ensures b in Chain(ont, a)
  {
    ChainFacts(ont, a);
    assert Chain(ont, a)[1] == b;
  }

  /** An ancestor of an ancestor of `c` is on `c`'s list. */
  lemma ChainTransitive(ont: Ontology, a: string, b: string, c: string)
    requires Valid(ont) && b in ont && c in ont
    requires a in Chain(ont, b) && b in Chain(ont, c)
    ensures a in Chain(ont, c)
  {
    var j :| 0 <= j < |Chain(ont, c)| && Chain(ont, c)[j] == b;
    ChainSuffix(ont, c, j);
    assert a in Chain(ont, c)[j..];
  }

  /** Two words on each other's lists are the same word. */
  lemma ChainAntisymmetric(ont: Ontology, a: string, b: string)
    requires Valid(ont) && a in ont && b in ont
    requires a in Chain(ont, b) && b in Chain(ont, a)
    ensures a == b
  {
    var i :| 0 <= i < |Chain(ont, b)| && Chain(ont, b)[i] == a;
    var j :| 0 <= j < |Chain(ont, a)| && Chain(ont, a)[j] == b;
    ChainSuffix(ont, b, i);
    ChainSuffix(ont, a, j);
    assert |Chain(ont, a)| == |Chain(ont, b)| - i;
    assert |Chain(ont, b)| == |Chain(ont, a)| - j;
  }

  /** Python's `list.index`: the position of the first occurrence of `x`. */
  function Position(s: seq<string>, x: string): (i: nat)
    requires x in s
    ensures i < |s| && s[i] == x && x !in s[..i]
  {
    if s[0] == x then 0 else 1 + Position(s[1..], x)
  }

  /** Length of the longest common prefix of `x` and `y`. */
  function CommonPrefix(x: seq<string>, y: seq<string>): (n: nat)
    ensures n <= |x| && n <= |y| && x[..n] == y[..n]
    ensures n == |x| || n == |y| || x[n] != y[n]
  {
    if x == [] || y == [] || x[0] != y[0] then 0
    else
      var n := 1 + CommonPrefix(x[1..], y[1..]);
      assert x[..n] == [x[0]] + x[1..][..n - 1] && y[..n] == [y[0]] + y[1..][..n - 1];
      n
  }

  /** The common prefix length is the only length with those two properties. */
  lemma CommonPrefixUnique(x: seq<string>, y: seq<string>, n: nat)
    requires n <= |x| && n <= |y| && x[..n] == y[..n]
    requires n == |x| || n == |y| || x[n] != y[n]
    ensures n == CommonPrefix(x, y) && n == CommonPrefix(y, x)
  {
    var m := CommonPrefix(x, y);
    var k := CommonPrefix(y, x);
    PrefixAgrees(x, y, n);
    PrefixAgrees(x, y, m);
    PrefixAgrees(y, x, k);
  }

  lemma PrefixAgrees(x: seq<string>, y: seq<string>, n: nat)
    requires n <= |x| && n <= |y| && x[..n] == y[..n]
    ensures forall k :: 0 <= k < n ==> x[k] == y[k]
  {
    forall k | 0 <= k < n
      ensures x[k] == y[k]
    {
      assert x[..n][k] == y[..n][k];
    }
  }

  /** `a` and `b` lie in the same tree: their ancestor lists end at the same root. */
  predicate SameRoot(ont: Ontology, a: string, b: string)
    requires Valid(ont) && a in ont && b in ont
  {
    var ca, cb := Chain(ont, a), Chain(ont, b);
    ca[|ca| - 1] == cb[|cb| - 1]
  }

  /** How many words the two root-first lists share: the length of their common prefix. */
  function LcaDepth(ont: Ontology, a: string, b: string): (n: nat)
    requires Valid(ont) && a in ont && b in ont && SameRoot(ont, a, b)
    ensures 0 < n <= |Chain(ont, a)| && n <= |Chain(ont, b)|
  {
    var ra, rb := Reversed(Chain(ont, a)), Reversed(Chain(ont, b));
    ReversedAt(Chain(ont, a));
    ReversedAt(Chain(ont, b));
    assert ra[0] == rb[0];
    CommonPrefix(ra, rb)
  }

  /**
   * The lowest common ancestor as `distance` finds it: the last entry of the common
   * prefix of the two root-first lists, which sits equally far from the root in both.
   */
  function Lca(ont: Ontology, a: string, b: string): (l: string)
    requires Valid(ont) && a in ont && b in ont && SameRoot(ont, a, b)
    ensures var ca, cb, n := Chain(ont, a), Chain(ont, b), LcaDepth(ont, a, b);
      l in ont && l == ca[|ca| - n] && l == cb[|cb| - n]
  {
    ChainFacts(ont, a);
    var ca, cb := Chain(ont, a), Chain(ont, b);
    var ra, rb := Reversed(ca), Reversed(cb);
    ReversedAt(ca);
    ReversedAt(cb);
    var n := CommonPrefix(ra, rb);
    PrefixAgrees(ra, rb, n);
    assert ra[n - 1] == ca[|ca| - n];
    assert rb[n - 1] == cb[|cb| - n];
    ra[n - 1]
  }

  /** The lowest common ancestor is a common ancestor and does not depend on the order of `a` and `b`. */
  lemma LcaSymmetric(ont: Ontology, a: string, b: string)
    requires Valid(ont) && a in ont && b in ont && SameRoot(ont, a, b)
    ensures IsAncestor(ont, Lca(ont, a, b), a) && IsAncestor(ont, Lca(ont, a, b), b)
    ensures SameRoot(ont, b, a) && Lca(ont, b, a) == Lca(ont, a, b)
  {
    var ra, rb := Reversed(Chain(ont, a)), Reversed(Chain(ont, b));
    CommonPrefixUnique(ra, rb, CommonPrefix(ra, rb));
  }

  /** Every common ancestor of `a` and `b` is an ancestor of their lowest common ancestor. */
  lemma LcaLowest(ont: Ontology, a: string, b: string, c: string)
    requires Valid(ont) && a in ont && b in ont && SameRoot(ont, a, b)
    requires IsAncestor(ont, c, a) && IsAncestor(ont, c, b)
    ensures IsAncestor(ont, c, Lca(ont, a, b))
  {
    LcaLowestChains(ont, a, b, c);
  }

  /** `LcaLowest` on the ancestor lists themselves. */
  lemma LcaLowestChains(ont: Ontology, a: string, b: string, c: string)
    requires Valid(ont) && a in ont && b in ont && SameRoot(ont, a, b)
    requires c in Chain(ont, a) && c in Chain(ont, b)
    ensures c in Chain(ont, Lca(ont, a, b))
  {
    var ca, cb := Chain(ont, a), Chain(ont, b);
    var i :| 0 <= i < |ca| && ca[i] == c;
    var j :| 0 <= j < |cb| && cb[j] == c;
    ChainSuffix(ont, a, i);
    ChainSuffix(ont, b, j);
    assert ca[i..] == Chain(ont, c) == cb[j..];
    SharedSuffix(ca, cb, i, j);
    var k := |ca| - LcaDepth(ont, a, b);
    assert k <= i;
    ChainSuffix(ont, a, k);
    assert Chain(ont, Lca(ont, a, b)) == ca[k..];
    assert ca[k..][i - k] == c;
  }

  /** A tail that two lists share ends no deeper than their common root-first prefix. */
  lemma SharedSuffix(x: seq<string>, y: seq<string>, i: nat, j: nat)
    requires i <= |x| && j <= |y| && x[i..] == y[j..]
    ensures |x| - i <= CommonPrefix(Reversed(x), Reversed(y))
  {
    var m := |x| - i;
    assert x[|x| - m..] == x[i..] && y[|y| - m..] == y[j..];
    SharedTail(x, y, m);
  }

  /** Lists with the same last `m` entries have root-first forms that share their first `m` entries. */
  lemma SharedTail(x: seq<string>, y: seq<string>, m: nat)
    requires m <= |x| && m <= |y| && x[|x| - m..] == y[|y| - m..]
    ensures m <= CommonPrefix(Reversed(x), Reversed(y))
  {
    var rx, ry := Reversed(x), Reversed(y);
    ReversedAt(x);
    ReversedAt(y);
    var tx, ty := x[|x| - m..], y[|y| - m..];
    forall k | 0 <= k < m
      ensures rx[k] == ry[k]
    {
      assert x[|x| - 1 - k] == tx[m - 1 - k];
      assert y[|y| - 1 - k] == ty[m - 1 - k];
    }
    var n := CommonPrefix(rx, ry);
    PrefixAgrees(rx, ry, n);
  }

  /**
   * What `distance` returns: 0 for the same word; the position of one word in the
   * other's ancestor list when one is an ancestor of the other; otherwise the sum of
   * both words' positions of their lowest common ancestor.
   */
  function DistanceSpec(ont: Ontology, a: string, b: string): (d: nat)
    requires Valid(ont) && a in ont && b in ont && SameRoot(ont, a, b)
    ensures d == 0 <==> a == b
  {
    if a == b then 0
    else if a in Chain(ont, b) then Position(Chain(ont, b), a)
    else if b in Chain(ont, a) then Position(Chain(ont, a), b)
    else
      var l := Lca(ont, a, b);
      Position(Chain(ont, a), l) + Position(Chain(ont, b), l)
  }

  /**
   * `distance(a, b)`: the two index cases, else the prefix scan over the root-first
   * lists for the lowest common ancestor and the two recursive distances to it. The
   * scan assumes a shared root. Without one it picks `a` itself as the common ancestor,
   * so `distance(a, b)` calls `distance(b, a)`, which in turn calls `distance(a, b)`,
   * until the interpreter's recursion limit raises RecursionError.
   */
  method Distance(ont: Ontology, a: string, b: string) returns (d: nat)
    requires Valid(ont) && a in ont && b in ont && SameRoot(ont, a, b)
    ensures d == DistanceSpec(ont, a, b)
    decreases if a == b || a in Chain(ont, b) || b in Chain(ont, a) then 0 else 1
  {
    var chainA, chainB := Chain(ont, a), Chain(ont, b);
    if a == b {
      return 0;
    }
    if a in chainB {
      return Position(chainB, a);
    }
    if b in chainA {
      return Position(chainA, b);
    }
    var ra, rb := Reversed(chainA), Reversed(chainB);
    var i := 0;
    while i < |ra| && i < |rb| && ra[i] == rb[i]
      invariant i <= |ra| && i <= |rb| && ra[..i] == rb[..i]
    {
      assert ra[..i + 1] == ra[..i] + [ra[i]] && rb[..i + 1] == rb[..i] + [rb[i]];
      i := i + 1;
    }
    CommonPrefixUnique(ra, rb, i);
    var lca := ra[i - 1];
    assert lca == Lca(ont, a, b);
    DistanceStep(ont, a, b);
    var da := Distance(ont, a, lca);
    var db := Distance(ont, b, lca);
    d := da + db;
  }

  /** In the common-ancestor case the lowest common ancestor is an ancestor of both words but neither word. */
  lemma DistanceStep(ont: Ontology, a: string, b: string)
    requires Valid(ont) && a in ont && b in ont && SameRoot(ont, a, b)
    requires a !in Chain(ont, b) && b !in Chain(ont, a)
    ensures var l := Lca(ont, a, b);
      l in ont && SameRoot(ont, a, l) && SameRoot(ont, b, l) && l in Chain(ont, a) && l in Chain(ont, b) &&
      a != l && b != l && a !in Chain(ont, l) && b !in Chain(ont, l)
  {
    var ca, cb, n := Chain(ont, a), Chain(ont, b), LcaDepth(ont, a, b);
    ChainSuffix(ont, a, |ca| - n);
    ChainSuffix(ont, b, |cb| - n);
    assert forall x :: x in cb[|cb| - n..] ==> x in cb;
    assert forall x :: x in ca[|ca| - n..] ==> x in ca;
  }

  /**
   * `distance` is 0 exactly for a word and itself, and it is symmetric; when one word
   * is an ancestor of the other it counts the parent steps between them.
   */
  lemma DistanceFacts(ont: Ontology, a: string, b: string)
    requires Valid(ont) && a in ont && b in ont && SameRoot(ont, a, b)
    ensures DistanceSpec(ont, a, b) == 0 <==> a == b
    ensures SameRoot(ont, b, a) && DistanceSpec(ont, b, a) == DistanceSpec(ont, a, b)
    ensures IsAncestor(ont, a, b) ==> Chain(ont, b)[DistanceSpec(ont, a, b)] == a
  {
    LcaSymmetric(ont, a, b);
    ChainFacts(ont, a);
    ChainFacts(ont, b);
    if a != b && a !in Chain(ont, b) && b !in Chain(ont, a) {
      var l := Lca(ont, a, b);
      assert l != a;
    }
    if a in Chain(ont, b) && b in Chain(ont, a) {
      AncestorOrder(ont, a, b, b);
    }
  }
}
