# Rule-set matcher and ontology tools, modelled in Dafny

The repository scores a parse (a list of TRIPS nodes) against a rule set (a list of
rules of the same shape). A node has positional elements and key/value role pairs;
an element is either a `Variable` (`?x`) or a `Term`. The matcher greedily builds a
one-to-one mapping from rules to nodes. In each round it tries every unmapped
(rule, node) pair. It rewrites the rule set under the trial mapping and scores it
against the mapped nodes, normalised by the rule set's cardinality. Among the pairs
with the best score it keeps the one with the most potential role edges. It stops
early when the kept pair does not raise the score. Three copies of the matcher
exist:

- `TripsIM/matcher.py`: case-insensitive equality with an ontology on terms, a
  multiset positional score, variable bindings, rule grading and node equality.
- `IM/PyIM/matcher.py`: exact-name equality with an ancestor test on terms, an
  ordered-subsequence positional score, and the token-stack rule loader.
- `PyIM/PyIM/matcher.py`: exact equality, a zipped positional score, and a second
  token-stack loader.

`PyIM/PyIM/ontologytools.py` precomputes each word's ancestor list, and from it
derives ancestry and the distance between two words through their lowest common
ancestor.

The project is organised as follows:

- `basics.dfy` (module `Basics`): option and result types, list helpers.
- `frames.dfy` (module `Frames`): elements, nodes and dictionaries as association
  lists, `get_element`, `cardinality`, the role score and `element_to_rule`. These
  are shared by all copies.
- `engine.dfy` (module `Engine`): `element_mapping` and `score_wrt_map`. They are
  generic over the element equality and the node scorer, because the TripsIM and
  IM copies share this code line for line (`element_mapping` at IM/PyIM/matcher.py:277-308,
  `score_wrt_map` at IM/PyIM/matcher.py:162-176). The table below cites the TripsIM lines.
- `greedy.dfy` (module `Greedy`): the search loop of `score`, shared in the same way
  (IM/PyIM/matcher.py:190-229).
- `trips.dfy`, `im.dfy`, `pyim.dfy` (modules `TripsMatcher`, `ImMatcher`,
  `PyimMatcher`): each copy's equality, positional score, loader and entry points.
- `ontology.dfy` (module `OntologyTools`): the ancestor lists, ancestry and `distance`.

Rules and nodes are referred to by their index in the rule set and the parse. A
mapping is a list of (rule, node) index pairs in the order they were committed. That
order is also the insertion order of the Python dictionary, which matters for
`var_to_node`. Dictionary keys are compared exactly, as Python's hash on `repr`
does. Dictionary values are compared with the relaxed `__eq__` of each copy.
Scores are exact rationals (`real`).

## Model

| member | source | states |
|---|---|---|
| Basics.RemoveFirst | TripsIM/matcher.py:305-306 | `list.remove`: one entry fewer when `x` is present, the list unchanged otherwise, and nothing new appears |
| Basics.RemoveFirstDistinct | TripsIM/matcher.py:305-306 | on a pool without repeats, removal keeps it repeat-free and removes exactly `x` |
| Basics.Range | TripsIM/matcher.py:267-268 | the initial pools list every rule and node index once, in order |
| Basics.Reversed | IM/PyIM/matcher.py:136 | `tokens.reverse()` keeps the length |
| Basics.ReversedAt | IM/PyIM/matcher.py:136-139 | entry `i` of the reversed list is entry `i` from the end, so popping a reversed list reads front to back |
| Frames.GetElement | TripsIM/matcher.py:147-150 | a token becomes a Variable exactly when it starts with `?`, and the element keeps the token's text |
| Frames.GetElementRoundTrip | TripsIM/matcher.py:147-150 | re-classifying the text of a well-formed element gives the element back |
| Frames.Get | TripsIM/matcher.py:467-468 | dictionary lookup: no value exactly when no entry has the key, else the value of an entry with that key |
| Frames.GetAt | TripsIM/matcher.py:136 | in a dictionary the lookup of an entry's key gives that entry's value |
| Frames.Put | TripsIM/matcher.py:468 | after `d[k] = v` the key holds `v`; the size grows only for a new key |
| Frames.PutOther | TripsIM/matcher.py:468 | storing under one key leaves every other key's value unchanged |
| Frames.PutUnique | TripsIM/matcher.py:468 | storing keeps the keys distinct |
| Frames.LastWriteSpec | TripsIM/matcher.py:464-468 | the last write to a key is absent exactly when the key is never written, and otherwise is a write that no later write to the key follows |
| Frames.AssignAppend | TripsIM/matcher.py:464-468 | performing two batches of writes equals performing them one after the other |
| Frames.AssignLast | TripsIM/matcher.py:464-468 | the dictionary built by a run of writes holds each key's last written value and has distinct keys |
| Frames.Values | TripsIM/matcher.py:347 | `kvpairs.values()` lists the entries' values in order |
| Frames.CardAppend | TripsIM/matcher.py:313-323 | cardinality adds up over concatenated rule sets |
| Frames.Card | TripsIM/matcher.py:313-323 | the cardinality of a rule set, rule by rule; every rule's slots are counted in it |
| Frames.CardPrefix | TripsIM/matcher.py:313-323 | a prefix of a rule set has no larger cardinality |
| Frames.CardPositive | TripsIM/matcher.py:313-323 | well-formed rules contribute at least two each, so the normaliser is positive for a non-empty rule set |
| Frames.Cardinality | TripsIM/matcher.py:313-323 | the counting loop returns the number of positionals plus roles over all rules |
| Frames.KvScoreBound | TripsIM/matcher.py:133-138 | the role score is at most the number of rule roles, with equality exactly when every role finds its key with an equal value in the node |
| Frames.KvScore | TripsIM/matcher.py:133-138 | the role score counts the rule's roles present in the node with an equal value, and is at most the number of rule roles |
| Frames.ScoreKvpairs | TripsIM/matcher.py:133-138 | the counting loop returns that role score |
| Frames.FirstGoverning | TripsIM/matcher.py:339-345 | the first rule whose identity slot spells the element, or none exactly when no rule's does |
| Frames.ElementToRule | TripsIM/matcher.py:326-349 | a found rule has the element's spelling in its identity slot; the only error is "element not in rule set" for that element |
| Frames.ElementToRuleSpec | TripsIM/matcher.py:326-349 | for an element occurring in the rule set the lookup never raises, and it names a rule exactly when some identity slot spells the element |
| Frames.FindRule | TripsIM/matcher.py:326-349 | the two loops of `element_to_rule` compute that lookup |
| Engine.NodeOf | TripsIM/matcher.py:370-371 | `map[rule]`: absent exactly when no entry has the rule, else a node paired with it |
| Engine.NodeOfAt | TripsIM/matcher.py:370-371 | in an injective mapping, looking up an entry's rule gives that entry's node |
| Engine.NodeOfAppend | TripsIM/matcher.py:277 | adding a pair for an unmapped rule maps that rule and no other |
| Engine.EMap | TripsIM/matcher.py:365-371 | the element map over the first `k` rules: each mapped rule's identity is sent to its node's identity, a later rule overwriting an earlier one with the same identity (keys and values are stated by `Engine.EMapKeys` and `Engine.EMapValue`) |
| Engine.EMapKeys | TripsIM/matcher.py:369-371 | the element map's keys are exactly the identity slots of mapped rules |
| Engine.EMapValue | TripsIM/matcher.py:369-371 | each key maps to the node identity of the last mapped rule, in rule-set order, with that identity |
| Engine.TranslateMapped | TripsIM/matcher.py:368-385 | on the element map of the mapping, Terms and Variables naming no rule are kept; a Variable naming a rule is replaced by the node identity of the last mapped rule with that identity, and dropped when no mapped rule has it |
| Engine.TranslateElems | TripsIM/matcher.py:377-385 | translated positionals are never more than the originals |
| Engine.TranslateKvs | TripsIM/matcher.py:386-393 | translated roles are never more than the originals |
| Engine.Translate | TripsIM/matcher.py:376-394 | a translated rule is no larger than the rule |
| Engine.PrefixFrom | TripsIM/matcher.py:373-375 | the scan stops at the first unmapped rule, every earlier rule being mapped |
| Engine.PrefixLen | TripsIM/matcher.py:373-375 | the rules translated are exactly those before the first unmapped rule (`break`) |
| Engine.TranslatePrefix | TripsIM/matcher.py:373-395 | one translated rule per translated rule-set entry |
| Engine.TranslatePositionals | TripsIM/matcher.py:377-385 | the positional loop computes the translated positionals |
| Engine.TranslateStep | TripsIM/matcher.py:382-385 | a value occurring in its rule never makes `element_to_rule` raise, and is kept, rewritten or dropped as that lookup decides |
| Engine.RoleStep | TripsIM/matcher.py:386-393 | one round of the role loop keeps, rewrites or drops the role |
| Engine.TranslateRoles | TripsIM/matcher.py:386-393 | the role loop computes the translated roles in dictionary order |
| Engine.ElementMapping | TripsIM/matcher.py:356-396 | `element_mapping` returns the mapped rule set |
| Engine.ScoreWrtMap | TripsIM/matcher.py:236-251 | `score_wrt_map` returns the sum of node scores of the translated rules against their nodes, over the cardinality |
| Engine.MapScore | TripsIM/matcher.py:236-251 | the score of a mapping, the intersection over the cardinality, is never negative (the upper bound 1 is `Engine.MapScoreBounds`) |
| Engine.InterBound | TripsIM/matcher.py:244-248 | with a scorer bounded by rule size, the intersection never exceeds the cardinality of the translated rules |
| Engine.MapScoreBounds | TripsIM/matcher.py:236-251 | every mapping scores between 0 and 1 |
| Engine.IdentityMapScore | TripsIM/matcher.py:260 | a rule set scored against itself, with a scorer that gives each rule full marks against itself and printable values, has the identity mapping as a valid one-to-one mapping, and its score is 1 |
| Greedy.MapScoreNonneg | TripsIM/matcher.py:250 | a normalised score is never negative |
| Greedy.TrialFnNonneg | TripsIM/matcher.py:277-279 | every trial score is non-negative |
| Greedy.VisitSummary | TripsIM/matcher.py:281-285 | one candidate step keeps the running maximum over the pairs seen, with exactly the pairs reaching it listed |
| Greedy.ScanRowSummary | TripsIM/matcher.py:276-285 | the node loop for one rule keeps that summary |
| Greedy.ScanAllSummary | TripsIM/matcher.py:275-285 | the nested loops keep it over the whole grid |
| Greedy.GridMax | TripsIM/matcher.py:275-285 | after the scan the candidates are exactly the pool pairs of maximal trial score, and there is at least one |
| Greedy.Connectivity | TripsIM/matcher.py:289-295 | the candidate score loop counts outgoing plus incoming potential edges |
| Greedy.Conn | TripsIM/matcher.py:289-295 | the connectivity of a candidate: the rule's roles present in the node plus, over the rule set, the roles naming the rule's identity whose key the node has (its loop is `Greedy.Connectivity`) |
| Greedy.PickIndex | TripsIM/matcher.py:287-298 | the tie-break keeps an existing candidate |
| Greedy.PickFacts | TripsIM/matcher.py:287-298 | the kept candidate has maximal connectivity and is the last one that has it (`>=`) |
| Greedy.Choose | TripsIM/matcher.py:270-298 | the chosen pair comes from the pools, has the best trial score of all pool pairs, and among those the highest connectivity |
| Greedy.ChooseFacts | TripsIM/matcher.py:275-298 | the scan plus tie-break meets that description |
| Greedy.ChooseWinner | TripsIM/matcher.py:275-298 | a pair in the pools that beats every other pair on trial score, or ties on it and has larger connectivity, is the pair a round commits |
| Greedy.Init | TripsIM/matcher.py:265-268 | the starting state satisfies the search invariant |
| Greedy.InitInv | TripsIM/matcher.py:265-268 | empty mapping, full pools and score 0 satisfy the invariant |
| Greedy.PoolRemove | TripsIM/matcher.py:305-306 | removing the chosen entry keeps a pool repeat-free and in range, and removes exactly that entry |
| Greedy.AppendValid | TripsIM/matcher.py:300 | committing an unmapped rule to an unused node keeps the mapping one-to-one |
| Greedy.CommitKeepsInv | TripsIM/matcher.py:300-307 | an improving commit keeps the invariant: one-to-one mapping, pools equal to the unmapped rules and unused nodes, current score equal to the mapping's score |
| Greedy.RunCommits | TripsIM/matcher.py:300-307 | when the chosen pair raises the score, the round commits it, drops it from both pools and the search continues from that state |
| Greedy.Run | TripsIM/matcher.py:269-307 | the search as a function of its state: finished when the rule pool is empty, out of nodes when only the node pool is, otherwise one round (its outcomes are stated by `Greedy.RunFacts`, `Greedy.StopFacts` and `Greedy.CommitGain`) |
| Greedy.RunFacts | TripsIM/matcher.py:269-307 | running out of nodes happens only with fewer nodes than rules; otherwise every step raised the score; a finished search maps every rule; an early stop leaves a mapping no single further pair improves |
| Greedy.StopFacts | TripsIM/matcher.py:302-304 | when the best pair does not raise the score, no pool pair does |
| Greedy.CommitGain | TripsIM/matcher.py:302-307 | an improving commit followed by an improving run is an improving run |
| Greedy.FirstGain | TripsIM/matcher.py:307 | the gain recorded for the commit step is positive |
| Greedy.ImprovingStep | TripsIM/matcher.py:302-307 | improving from step `k + 1` on, plus a positive gain at `k`, is improving from `k` on |
| Greedy.CollectCandidates | TripsIM/matcher.py:275-285 | the nested loops compute the scan of the whole grid |
| Greedy.BreakTie | TripsIM/matcher.py:287-298 | the tie-break loop returns the picked candidate |
| Greedy.Search | TripsIM/matcher.py:265-307 | the search loop computes the greedy run from the initial state |
| TripsMatcher.Lower | TripsIM/matcher.py:66 | `lower()` keeps the length and lowercases each letter |
| TripsMatcher.TermEquiv | TripsIM/matcher.py:83-97 | `Term.__eq__` between two terms: indicators match anything, ontology types match when equal or one is below the other, otherwise the lowercase values; two terms equal ignoring case always match |
| TripsMatcher.Equiv | TripsIM/matcher.py:64-100 | the relaxed element equality: every element equals itself, and a Variable equals any Term in either order |
| TripsMatcher.EquivSymmetric | TripsIM/matcher.py:64-100 | the relaxed equality is symmetric |
| TripsMatcher.EquivReflexive | TripsIM/matcher.py:64-100 | every element equals itself |
| TripsMatcher.VariableEquiv | TripsIM/matcher.py:64-66 | two Variables are equal exactly when their names agree ignoring case, and equal names behave alike |
| TripsMatcher.TermEquivCases | TripsIM/matcher.py:83-97 | an indicator term equals every term; if either term is unknown to the ontology, lowercase spelling decides; otherwise the same type or a subtype either way |
| TripsMatcher.FindFirst | TripsIM/matcher.py:128-129 | `p in pos` finds the first equal entry, and none exactly when nothing is equal |
| TripsMatcher.RemoveAt | TripsIM/matcher.py:129 | `pos.remove(p)` removes one entry |
| TripsMatcher.RemoveAtMultiset | TripsIM/matcher.py:129 | the removed entry plus the rest is the original multiset |
| TripsMatcher.PosScore | TripsIM/matcher.py:120-131 | the positional score consumes one node positional per rule positional it matches, so it is at most the number of rule positionals and of node positionals |
| TripsMatcher.PosScoreBounds | TripsIM/matcher.py:120-131 | score plus leftover is the node's positional count, the leftover is a sub-multiset of the node's positionals, and the score is at most either length |
| TripsMatcher.PosScoreZero | TripsIM/matcher.py:120-131 | the score is 0 exactly when no rule positional equals any node positional |
| TripsMatcher.PosScoreSelf | TripsIM/matcher.py:120-131 | positionals scored against themselves match every slot |
| TripsMatcher.ScorePositionals | TripsIM/matcher.py:120-131 | the copy-and-remove loop computes that score |
| TripsMatcher.RuleScore | TripsIM/matcher.py:140-144 | `Rule.score` adds the positional and role scores |
| TripsMatcher.NodeScoreBounded | TripsIM/matcher.py:140-144 | a rule never scores more than its own size |
| TripsMatcher.NodeScoreSelf | TripsIM/matcher.py:133-144 | a node with distinct role keys scores its full size against itself |
| TripsMatcher.TripsValid | TripsIM/matcher.py:140-144 | the TripsIM equality and scorer satisfy the search's assumptions: reflexive equality and a scorer bounded by rule size |
| TripsMatcher.MappedRules | TripsIM/matcher.py:470 | `map.keys()` lists the mapped rules in commit order |
| TripsMatcher.Var2NodeErr | TripsIM/matcher.py:469-470 | once a lookup in the second loop raises, the loop's result is that error |
| TripsMatcher.LookupMapped | TripsIM/matcher.py:470 | for a key mentioned by a mapped rule, `element_to_rule` over the mapped rules never raises and names a rule exactly when a mapped identity spells the key |
| TripsMatcher.Var2NodeOk | TripsIM/matcher.py:469-470 | over keys mentioned by mapped rules, the second loop succeeds with one entry per key, naming a rule exactly when the key is governed |
| TripsMatcher.Var2NodeSnoc | TripsIM/matcher.py:469-470 | one more key appends exactly its binding |
| TripsMatcher.Var2Node | TripsIM/matcher.py:469-470 | `var2node` built key by key: when it succeeds it has one entry per key of `var2term`, in the same order |
| TripsMatcher.RoleWritesFrom | TripsIM/matcher.py:466-468 | every role write is keyed by a value of the rule's roles |
| TripsMatcher.WritesOccur | TripsIM/matcher.py:464-468 | every variable written is the identity or a role value of a mapped rule |
| TripsMatcher.WritesIdentities | TripsIM/matcher.py:465 | every mapped pair writes its rule's identity to its node's identity |
| TripsMatcher.Var2Term | TripsIM/matcher.py:464-468 | `var2term` as the dictionary after all its writes in order (what it holds is stated by `TripsMatcher.Var2TermFacts`) |
| TripsMatcher.Var2TermFacts | TripsIM/matcher.py:464-468 | `var2term` has distinct keys, holds each key's last written value, and binds every mapped rule's identity |
| TripsMatcher.Var2TermMentioned | TripsIM/matcher.py:464-468 | every key of `var2term` is mentioned by a mapped rule |
| TripsMatcher.VarToNodeFacts | TripsIM/matcher.py:452-472 | `var_to_node` never raises on a mapping; `var2node` has one entry per `var2term` key, naming a rule exactly when a mapped identity spells it |
| TripsMatcher.WriteRoles | TripsIM/matcher.py:466-468 | the role loop performs the role writes of one pair |
| TripsMatcher.BuildVar2Term | TripsIM/matcher.py:464-468 | the first loop of `var_to_node` builds `var2term` |
| TripsMatcher.BuildVar2Node | TripsIM/matcher.py:469-470 | the second loop builds `var2node` or stops at the first error |
| TripsMatcher.Score | TripsIM/matcher.py:254-310 | `score` computes the greedy search followed by the bindings |
| TripsMatcher.ScoreFacts | TripsIM/matcher.py:254-310 | fails only with fewer nodes than rules; the score is in [0, 1]; a completed search reports the score and `var2term` of a one-to-one mapping of every rule; an early stop reports the score of a mapping no single further pair improves |
| TripsMatcher.VarListAsWrittenRepeats | TripsIM/matcher.py:447-448 | the comprehension as written lists a variable twice when a rule repeats it |
| TripsMatcher.VarListAsWritten | TripsIM/matcher.py:439-449 | `get_var_list` as written, testing `p not in l` against the list before the rule's comprehension (its repeat is shown by `TripsMatcher.VarListAsWrittenRepeats`) |
| TripsMatcher.AddVars | TripsIM/matcher.py:447-448 | the corrected comprehension only appends variables drawn from the list |
| TripsMatcher.AddFresh | TripsIM/matcher.py:447 | its loop computes the corrected comprehension |
| TripsMatcher.GetVarList | TripsIM/matcher.py:439-449 | `get_var_list` with the corrected comprehension |
| TripsMatcher.AddVarsComplete | TripsIM/matcher.py:447-448 | every variable offered ends up equal to a listed one |
| TripsMatcher.AddVarsNoRepeats | TripsIM/matcher.py:447-448 | appending keeps the list free of equal pairs |
| TripsMatcher.VarListSound | TripsIM/matcher.py:439-449 | every listed element is a variable of the rule set, and none is listed twice |
| TripsMatcher.VarListComplete | TripsIM/matcher.py:439-449 | every variable of the rule set equals a listed one |
| TripsMatcher.GradeAsWrittenFails | TripsIM/matcher.py:431-432 | one rule set whose search stops early makes `grade_rules` as written raise TypeError, while the corrected one picks it |
| TripsMatcher.GradeFromAsWritten | TripsIM/matcher.py:425-435 | `grade_rules` as written succeeds only when every `score` succeeded and completed its search |
| TripsMatcher.GradeFrom | TripsIM/matcher.py:425-435 | the argmax over the scores in order: a best index is a rule set whose `score` succeeded with exactly the best score, and with no best index the best score is 0 |
| TripsMatcher.GradeAgrees | TripsIM/matcher.py:428-435 | when every search completes, `grade_rules` as written and the corrected grading agree |
| TripsMatcher.GradeFacts | TripsIM/matcher.py:425-435 | grading fails exactly when some search fails, with the first failure's error; with no positive score it picks nothing; else it picks the first rule set of maximal score with that score and its bindings |
| TripsMatcher.ScoreAll | TripsIM/matcher.py:428-431 | one result per rule set |
| TripsMatcher.ScoreWith | TripsIM/matcher.py:431 | `score(r, parse)` as `grade_rules` calls it |
| TripsMatcher.GradeRules | TripsIM/matcher.py:420-437 | the grading loop computes the corrected grading of the results of `score` |
| TripsMatcher.GradeStep | TripsIM/matcher.py:431-435 | one round either propagates the error or replaces the best on a strictly larger score |
| TripsMatcher.GradeErrorAll | TripsIM/matcher.py:431 | an exception on a prefix of the rule sets is the outcome of the whole grading |
| TripsMatcher.GradeStopsAtError | TripsIM/matcher.py:431 | later results do not change an error already raised |
| TripsMatcher.KvsEqSpec | TripsIM/matcher.py:44-46 | the role loop of `TripsNode.__eq__` accepts exactly when every role agrees, and raises only KeyError for a role missing from the other node |
| TripsMatcher.KvsEq | TripsIM/matcher.py:44-46 | the role loop of `TripsNode.__eq__` fails only with KeyError, for a key the other node does not have |
| TripsMatcher.NodeEqSpec | TripsIM/matcher.py:34-47 | two nodes are equal exactly when zipped positionals, type words and role counts and values agree |
| TripsMatcher.NodeEq | TripsIM/matcher.py:34-47 | `TripsNode.__eq__` answers true only when the zipped positionals and the type words agree and the role counts are equal, and fails only with KeyError for a role key the other node lacks |
| TripsMatcher.NodeEqReflexive | TripsIM/matcher.py:34-47 | a node with distinct role keys equals itself |
| TripsMatcher.RemovalTakesWrongNode | TripsIM/matcher.py:306 | removing the second of two nodes that compare equal under `__eq__` removes the first instead |
| TripsMatcher.RemoveNodeAsWritten | TripsIM/matcher.py:305-306 | `list.remove` as written takes out exactly one pool entry, the first that is the node or compares equal to it, and fails only with KeyError for a role key the chosen node lacks |
| TripsMatcher.RemovalRaisesKeyError | TripsIM/matcher.py:45 | nodes `F :A X` and `F :B X`: removing the second compares the first with it, looks `A` up in the second and raises KeyError |
| TripsMatcher.TripsSelfScoring | TripsIM/matcher.py:120-144 | `Rule.score` gives every rule of a set its full size against a node with the same positionals and roles |
| TripsMatcher.SelfScoreIdentity | TripsIM/matcher.py:260 | for every non-empty well-formed rule set whose elements are tokens as `get_element` reads them, scored against itself under any ontology, the identity mapping is a valid one-to-one mapping and scores 1 |
| TripsMatcher.SelfScoreDiagonal | TripsIM/matcher.py:236-251 | on the rule set `(F ?x) (F ?y :A ?x :B ?x)` the identity mapping scores 6 of 6 |
| TripsMatcher.SelfMatchAsWritten | TripsIM/matcher.py:254-310 | `score` of the rule set `(F ?x) (F ?y :A ?x :B ?x)` against itself completes with 4/6, not 1 |
| ImMatcher.EquivSymmetric | IM/PyIM/matcher.py:43-67 | the equality is symmetric |
| ImMatcher.EquivReflexive | IM/PyIM/matcher.py:43-67 | every element equals itself |
| ImMatcher.Equiv | IM/PyIM/matcher.py:43-67 | variables by exact name, terms by value or ancestry in either direction, a variable equals any term; every element equals itself |
| ImMatcher.TermEqAsWrittenFails | IM/PyIM/matcher.py:62-64 | two different terms, one an ancestor of the other, are meant to be equal, but the code as written raises KeyError |
| ImMatcher.TermEqAgrees | IM/PyIM/matcher.py:62-64 | the code as written succeeds exactly on equal values, and then agrees with the intended equality |
| ImMatcher.TermEqAsWritten | IM/PyIM/matcher.py:62-64 | `Term.__eq__` as written: equal values give true, any other pair of values raises KeyError from the ontology lookup (shown by `ImMatcher.TermEqAsWrittenFails`) |
| ImMatcher.FindFrom | IM/PyIM/matcher.py:93-94 | `index(item, last)`: the first equal entry from `last` on, and none exactly when there is none |
| ImMatcher.Matches | IM/PyIM/matcher.py:87-97 | the matched (rule, node) positions from rule position `i` on, at most one per remaining rule positional |
| ImMatcher.PosScore | IM/PyIM/matcher.py:83-97 | the positional score is the number of matches, at most the number of rule positionals |
| ImMatcher.MatchesSpec | IM/PyIM/matcher.py:83-97 | every matched pair holds equal elements; the pairs advance strictly in both lists; the count is at most either length |
| ImMatcher.PosScoreBounds | IM/PyIM/matcher.py:83-97 | the positional score is at most either length |
| ImMatcher.MatchesSelf | IM/PyIM/matcher.py:83-97 | against its own positionals every rule positional is matched |
| ImMatcher.IndexFrom | IM/PyIM/matcher.py:94 | `list.index` returns the first equal position from `last` |
| ImMatcher.ScorePositionals | IM/PyIM/matcher.py:83-97 | the cursor loop computes the ordered-match count |
| ImMatcher.RuleScore | IM/PyIM/matcher.py:106-109 | `Rule.score` adds the positional and role scores |
| ImMatcher.NodeScoreBounded | IM/PyIM/matcher.py:106-109 | a rule never scores more than its own size |
| ImMatcher.NodeScoreSelf | IM/PyIM/matcher.py:99-109 | a node with distinct role keys scores its full size against itself |
| ImMatcher.ImValid | IM/PyIM/matcher.py:106-109 | the IM equality and scorer satisfy the search's assumptions |
| ImMatcher.Score | IM/PyIM/matcher.py:179-230 | `score` computes the greedy search |
| ImMatcher.ScoreFacts | IM/PyIM/matcher.py:179-230 | fails (IndexError) only with fewer nodes than rules; the score is in [0, 1] and is that of a one-to-one mapping that maps every rule or that no single further pair improves |
| ImMatcher.Replace | IM/PyIM/matcher.py:159 | `replace` keeps the length and substitutes exactly the given character |
| ImMatcher.RipParens | IM/PyIM/matcher.py:154-159 | every parenthesis becomes a space and everything else stays |
| ImMatcher.RipParensIdempotent | IM/PyIM/matcher.py:154-159 | the result has no parentheses, so ripping again changes nothing |
| ImMatcher.Classify | IM/PyIM/matcher.py:144 | each token is classified by `get_element`, in order |
| ImMatcher.ClassifyStep | IM/PyIM/matcher.py:140-144 | reading one more positional token appends its element |
| ImMatcher.FirstKey | IM/PyIM/matcher.py:140-142 | the first role token (`:`), with none before it |
| ImMatcher.KeyStep | IM/PyIM/matcher.py:145-150 | in the role phase a non-role token is skipped, a trailing role token fails, and a role token stores the next token as its value |
| ImMatcher.FinishEnd | IM/PyIM/matcher.py:151 | with every token read the loader returns the node collected |
| ImMatcher.LoadList | IM/PyIM/matcher.py:132-151 | the reverse-and-pop loop reads the tokens front to back |
| ImMatcher.LoadFromSpec | IM/PyIM/matcher.py:138-151 | the loop with its `state` flag computes the loader's result by phases: positionals up to the first role token, then role pairs |
| ImMatcher.LoadFromRoles | IM/PyIM/matcher.py:145-150 | once in state 1 the loop produces the roles read from the rest of the tokens |
| ImMatcher.KeyWritesShape | IM/PyIM/matcher.py:145-150 | every role write pairs a role token with the token after it |
| ImMatcher.KeyWritesErr | IM/PyIM/matcher.py:147-148 | the role walk fails only on a role token that is the last token |
| ImMatcher.LoadFacts | IM/PyIM/matcher.py:132-151 | the positionals are the tokens before the first role token, in order; the roles have distinct keys and each pairs a role token with its successor; the only failure is "Not enough values" for a trailing role token |
| ImMatcher.LoadNoKeys | IM/PyIM/matcher.py:138-144 | without role tokens every token is a positional and there are no roles |
| PyimMatcher.EquivFacts | PyIM/PyIM/matcher.py:39-62 | the equality is symmetric and reflexive, and within one kind it is plain equality |
| PyimMatcher.Equiv | PyIM/PyIM/matcher.py:39-62 | on two variables or two terms the equality is plain equality; a variable equals any term |
| PyimMatcher.PosScore | PyIM/PyIM/matcher.py:69-70 | the zipped positional score is at most the length of the shorter list |
| PyimMatcher.PosScoreHits | PyIM/PyIM/matcher.py:69-70 | the zipped sum counts exactly the aligned positions that match |
| PyimMatcher.PosScoreBounds | PyIM/PyIM/matcher.py:69-70 | the score is at most the shorter length, and reaches it exactly when every aligned position matches |
| PyimMatcher.PosScoreSymmetric | PyIM/PyIM/matcher.py:69-70 | the score does not depend on which side is the rule |
| PyimMatcher.PosScoreSelf | PyIM/PyIM/matcher.py:69-70 | positionals match themselves at every position |
| PyimMatcher.RuleScore | PyIM/PyIM/matcher.py:72-87 | `Rule.score` adds the zipped positional score and the role count |
| PyimMatcher.NodeScoreFacts | PyIM/PyIM/matcher.py:80-87 | a rule scores at most its aligned positionals plus its roles, and a node with distinct role keys scores its full size against itself |
| PyimMatcher.Unparen | PyIM/PyIM/matcher.py:97 | deleting parentheses never lengthens the text and leaves only non-parenthesis characters of the input |
| PyimMatcher.UnparenAppend | PyIM/PyIM/matcher.py:97 | deletion works piecewise over concatenation |
| PyimMatcher.UnparenClean | PyIM/PyIM/matcher.py:97 | text without parentheses is unchanged |
| PyimMatcher.KeyStep | PyIM/PyIM/matcher.py:106-112 | in the role phase a role token stores the next popped token as its value and also appends it to the positionals |
| PyimMatcher.FinishEnd | PyIM/PyIM/matcher.py:113 | with the stack empty the loader returns the pair collected |
| PyimMatcher.LoadList | PyIM/PyIM/matcher.py:94-113 | the pop loop computes the loader read from the end of the token list |
| PyimMatcher.AssignValues | PyIM/PyIM/matcher.py:111 | the role dictionary has distinct keys and only written values |
| PyimMatcher.LoadPoppedFacts | PyIM/PyIM/matcher.py:99-113 | over the popping order, the positionals start with the tokens before the first role token, the roles have distinct keys with values among the positionals, and the only failure is a trailing role token |
| PyimMatcher.LoadFacts | PyIM/PyIM/matcher.py:94-113 | the positionals start with the LAST tokens in reverse order; every role value is also a positional; role keys are distinct; the loader fails only when the first token is a role token |
| PyimMatcher.PoppedExample | PyIM/PyIM/matcher.py:100 | `pop()` yields `F ?x :A ?y` as `?y :A ?x F` |
| PyimMatcher.AsWrittenExample | PyIM/PyIM/matcher.py:94-113 | on `F ?x :A ?y` the loader returns positionals `?y ?x` and role `:A ?x` |
| PyimMatcher.CorrectedExample | PyIM/PyIM/matcher.py:94-113 | the loader that reverses first returns positionals `F ?x` and role `:A ?y` |
| PyimMatcher.LoadAsWrittenReorders | PyIM/PyIM/matcher.py:99-113 | the two loaders disagree on `F ?x :A ?y` |
| OntologyTools.Chain | PyIM/PyIM/ontologytools.py:12-17 | a word's ancestor list starts with the word |
| OntologyTools.ChainFromShape | PyIM/PyIM/ontologytools.py:15-17 | a finished walk starts at the word, follows one parent link per step, and ends at a root |
| OntologyTools.ChainFromFuel | PyIM/PyIM/ontologytools.py:15-17 | more steps than a walk needs do not change it |
| OntologyTools.ChainFromSuffix | PyIM/PyIM/ontologytools.py:15-17 | the walk from any entry of a walk is the rest of that walk |
| OntologyTools.ChainSuffix | PyIM/PyIM/ontologytools.py:12-18 | an ancestor's list is the tail of the word's list from that ancestor on |
| OntologyTools.ChainFacts | PyIM/PyIM/ontologytools.py:11-18 | a list starts at its word, each next entry is the previous one's parent, it ends at a root, and no word repeats |
| OntologyTools.PrecomputeAncestors | PyIM/PyIM/ontologytools.py:11-18 | the loop stores, for exactly the ontology's words, each word's ancestor list |
| OntologyTools.AncestorOrder | PyIM/PyIM/ontologytools.py:23-28 | ancestry is reflexive, transitive and antisymmetric; a parent is an ancestor, and the word its child |
| OntologyTools.ParentOnChain | PyIM/PyIM/ontologytools.py:12-17 | a word's parent is on the word's ancestor list |
| OntologyTools.ChainTransitive | PyIM/PyIM/ontologytools.py:23-24 | a word on the list of a word on `c`'s list is on `c`'s list |
| OntologyTools.ChainAntisymmetric | PyIM/PyIM/ontologytools.py:23-24 | two words each on the other's ancestor list are the same word |
| OntologyTools.IsChild | PyIM/PyIM/ontologytools.py:27-28 | `isChild(a, b)` is `isAncestor(b, a)`, and every word is its own child |
| OntologyTools.IsAncestor | PyIM/PyIM/ontologytools.py:23-24 | `isAncestor(a, b)` tests membership of `a` in `b`'s ancestor list; it has no contract of its own, and `OntologyTools.AncestorOrder` states that the relation is reflexive, transitive and antisymmetric and contains each parent link |
| OntologyTools.Position | PyIM/PyIM/ontologytools.py:36 | `list.index` gives the first occurrence |
| OntologyTools.CommonPrefix | PyIM/PyIM/ontologytools.py:42-44 | the scan stops at the end of the agreeing prefix |
| OntologyTools.CommonPrefixUnique | PyIM/PyIM/ontologytools.py:42-44 | that stopping point is unique and symmetric |
| OntologyTools.LcaDepth | PyIM/PyIM/ontologytools.py:42-45 | with a shared root the scan advances at least once, so `i - 1` is an index |
| OntologyTools.Lca | PyIM/PyIM/ontologytools.py:40-45 | the chosen ancestor sits equally far from the root in both lists |
| OntologyTools.LcaSymmetric | PyIM/PyIM/ontologytools.py:40-45 | it is an ancestor of both words and does not depend on their order |
| OntologyTools.LcaLowest | PyIM/PyIM/ontologytools.py:39-45 | every common ancestor is an ancestor of it |
| OntologyTools.LcaLowestChains | PyIM/PyIM/ontologytools.py:39-45 | a word on both ancestor lists is on the lowest common ancestor's own list |
| OntologyTools.SharedSuffix | PyIM/PyIM/ontologytools.py:40-44 | a shared tail of the lists lies within the common root-first prefix |
| OntologyTools.SharedTail | PyIM/PyIM/ontologytools.py:40-44 | lists with equal last entries share that many root-first entries |
| OntologyTools.Distance | PyIM/PyIM/ontologytools.py:31-47 | `distance` computes the specification: 0 for equal words, the position in the other's list for an ancestor, else the two distances to the lowest common ancestor |
| OntologyTools.DistanceSpec | PyIM/PyIM/ontologytools.py:31-47 | the distance between two words with a common root: 0 exactly when they are the same word |
| OntologyTools.DistanceStep | PyIM/PyIM/ontologytools.py:45-47 | in the common-ancestor case the lowest common ancestor is neither word and an ancestor of both, so each recursive call takes an ancestor branch |
| OntologyTools.DistanceFacts | PyIM/PyIM/ontologytools.py:31-47 | the distance is 0 exactly for a word and itself, is symmetric, and for an ancestor counts its parent steps |

## Left out

- The ontology object `pytrips` loads at import time (TripsIM/matcher.py:19) is a parameter. It maps a lowercase word to an optional type and orders types by a subtype relation. `logging` calls have no effect on results.
- The IM copy's `ontologytools` module is not part of this model. `ImMatcher` takes the ancestor test as a parameter (a relation on term values).
- The regex- and file-based readers are not modelled: `format_rule`, `json_to_lisp`, `load_list_set` in both copies, `parse_rule_set`, and TripsIM's own `load_list`. The model's loaders start from the token list that `strip().split()` would give.
- `loadont`'s JSON reading is not modelled: the ontology is a map from word to parent. `Argument`, `getArguments` and `test` in ontologytools.py are unused helpers and are left out.
- Console output (`print` in `grade_rules` and in the IM `score`) is left out.
- Hashing by `repr` is modelled as exact equality of dictionary keys.
- Floating-point division is modelled as exact rational division, so ties between scores are exact.
- `str.lower()` is modelled on ASCII letters only.
- The IM copy's docstring claim that a rule set scored against itself gets 1 (IM/PyIM/matcher.py:185) is neither proved nor refuted for that copy. For the TripsIM copy the claim is refuted under "## Findings". For the IM copy the model proves that the score is in [0, 1], that a node scores its full size against itself, and that the greedy result is locally maximal.
- Frames.ElementToRule: requires rules of at least two positionals (`rule.positionals[1]`); the IndexError on shorter rules is not modelled.
- TripsMatcher.Score: requires rules and nodes with at least two positionals and distinct role keys. Shorter rules raise IndexError in `rule_to_element` in the source, and that is not modelled.
- TripsMatcher.Score: takes the chosen node out of the node pool by its position (`Greedy.PoolRemove`). The source's `unmapped_tnodes.remove` (TripsIM/matcher.py:306) compares with the relaxed `TripsNode.__eq__` instead. It can take out an earlier node that compares equal, which leaves the chosen node in the pool and lets it be mapped twice. It can also raise KeyError from `other.kvpairs[x]` (TripsIM/matcher.py:45). Neither outcome is part of `TripsMatcher.Score`; both are shown on `TripsMatcher.RemoveNodeAsWritten` under "## Findings".
- TripsMatcher.BuildVar2Node: takes the mapping as a typed sequence of pairs. The ValueError that `var_to_node` raises for an argument that is not a dict (TripsIM/matcher.py:462-463) cannot occur in the model.
- ImMatcher.Score: requires rules and nodes with at least two positionals and distinct role keys, for the same reason.
- OntologyTools.PrecomputeAncestors: requires every parent to be a word of the ontology and the parent links to be acyclic. A missing parent raises KeyError in the source and a cycle never ends; neither is modelled.
- OntologyTools.Distance: requires both words to be in the ontology and to share a root. An unknown word raises KeyError at `ont[a]` (PyIM/PyIM/ontologytools.py:32) in the source. Without a shared root, the scan stops at once and `ancestorsA[-1]` is `a` itself. Then `distance(a, b)` calls `distance(b, a)`, which calls `distance(a, b)` again, until Python raises RecursionError. Neither error is modelled.
- OntologyTools.AncestorOrder: requires words of the ontology; an unknown word raises KeyError in `isAncestor` in the source.

## Findings

| source | as written | input that shows it | evidently intended | confidence | as-written member | corrected member |
|---|---|---|---|---|---|---|
| TripsIM/matcher.py:447-448 | `p not in l` tests the list as it was before the comprehension, so a variable repeated within one rule is added twice | rule `F ?y ?y` gives `[?y, ?y]` | each variable listed once | high, not executed | TripsMatcher.VarListAsWrittenRepeats | TripsMatcher.AddVars |
| TripsIM/matcher.py:431-432 | `score` returns a bare number when it stops early, and `s[0]` on it raises TypeError | one rule set whose search stops early at 0.5 | compare the score whether or not the search completed | high, not executed | TripsMatcher.GradeAsWrittenFails | TripsMatcher.GradeFacts |
| TripsIM/matcher.py:305-306 | `list.remove` compares with the relaxed `TripsNode.__eq__`, which zips positionals and so ignores extra ones, and looks each role key up in the other node | nodes `F X` and `F X Y`: removing the second removes the first. Nodes `F :A X` and `F :B X`: removing the second raises KeyError `A` | remove the chosen node itself | high, not executed | TripsMatcher.RemoveNodeAsWritten | Greedy.PoolRemove |
| TripsIM/matcher.py:260 | the greedy search keeps the first best pair, breaks ties by connectivity, and never revisits a choice | rules `(F ?x) (F ?y :A ?x :B ?x)` scored against themselves: round one ties at 2/6, the tie-break takes node 1, and the search ends at 4/6 | a rule set scored against itself gets 1, as the identity mapping does | high, not executed | TripsMatcher.SelfMatchAsWritten | TripsMatcher.SelfScoreIdentity |
| IM/PyIM/matcher.py:64 | `ont.isAncestor(other, self)` receives `Term` objects, and the ontology is keyed by strings, so it raises KeyError whenever the values differ (assuming the IM ontology module behaves like PyIM/PyIM/ontologytools.py:23-24) | terms `a` and `b`, `a` an ancestor of `b` | compare term values by ancestry | medium, not executed | ImMatcher.TermEqAsWrittenFails | ImMatcher.EquivSymmetric |
| PyIM/PyIM/matcher.py:97-100 | the tokens are popped from the end without first reversing them, and each role value is also appended to the positionals | `F ?x :A ?y` gives positionals `?y ?x` and role `:A ?x` | read front to back, as IM/PyIM/matcher.py:136 does | high, not executed | PyimMatcher.LoadAsWrittenReorders | ImMatcher.LoadFacts |
