# libmatch: a verified model of its rule matchers

`libmatch` matches 64-bit keys against ternary rules `(value, mask, priority)`, where a set mask
bit is a wildcard. It has two matchers: a table scanned for its first matching rule, and a binary
trie built from prefix rules. The trie is the fast one and has to agree with the table. The
repository also carries two small structures written against Boost.Hana's concepts, a monad of
searchable sets and a monad of rose trees, whose laws the library cannot check.

This project models the three and proves what they are for.

## How the model is laid out

| file | content |
|---|---|
| `Words.dfy` | `uint64_t` as naturals below 2^64 with bits, shifts, `\|`, `&`, `~`, `mylog2` |
| `Rules.dfy` | rules, the two matching tests, the root path of a key and of a prefix rule |
| `Expansion.dfy` | `get_new_num` and the rewriting of a rule as prefix rules |
| `KeyExpansion.dfy` | `convert_rule`: the rewriting of a rule as single keys, with its `int` shifts |
| `PrefixTree.dfy` | a trie as a map from root paths to priorities; growing a path; the best rule on a path |
| `PriorityTrie.dfy` | `insert_prefix_rule_priority` and `expand_rule` on that map, under any node budget |
| `SkippingTrie.dfy` | the trie against a reference that skips nothing; order of arrival |
| `LongestPrefix.dfy` | longest prefix against best priority, with the exact conditions |
| `Counters.dfy` | exactly when a node budget is hit, read off the rules, and when `count` is the number of rules |
| `LinearTable.dfy` | the first-match table, as a class |
| `Refinement.dfy` | exactly when the trie answers as the table does, and the inputs where it does not |
| `ExactTrie.dfy` | single keys: insertion, pruning delete, runs, `insert_rule` |
| `MixedTrie.dfy` | one trie used in both modes, against two separate ones |
| `KeyPriorities.dfy` | which priority a single key gets from `insert_rule_value` and `insert_rule` |
| `Trie.dfy` | the pointer structure and its methods, as classes proved against the specifications above |
| `Client.dfy` | callers: one fills both matchers and compares their answers, two fill one matcher, one uses both modes of a trie |
| `Sequences.dfy` | mapping over and joining sequences |
| `InfiniteSet.dfy` | searchable sets |
| `RoseTree.dfy` | rose trees |

The trie's classes keep a ghost map `nodes` from root paths to node objects and a ghost `tree` with
the priorities they store; `Valid()` ties the child pointers to `nodes` and the counters to its
size. Every method's effect is stated as a function of the old state, and the theorems are about
those functions and about runs of them from the freshly constructed state `FRESH`.

The file's static `threshold` (the node budget) is a constant of each trie with an arbitrary value,
and its static node tally `debug` is a field. Priorities are natural numbers; 0 means "no rule", as
in `is_rule_node`. `count` wraps at 2^32 as `uint32_t` does.

## What the code does that its comments do not say

- `threshold` is never assigned in the files of `libmatch`, so it stays 0; with a budget of 0 or 1
  no prefix rule is ever stored, and every lookup of every run misses if and only if the budget is
  0 or 1 (`NoBudgetNoRules`, `NoBudgetExact`). The budget a run needs is the number of prefixes of
  the paths of those offered rules that no earlier, better one outdoes (`NeededBudgetExact`).
- The comment above `LPM1_search_rule` doubts whether best priority and longest prefix agree. On a
  trie they agree on every key if and only if no rule that is the last on some key's path has a
  better one above it (`AgreementExact`). Stored priorities stay non-increasing with depth through
  a run if and only if every stored rule finds nothing worse below its path (`RunSinkingExact`),
  which arrival in non-decreasing priority guarantees (`SortedRunIsGuarded`). Two suffix rules
  disagree exactly when the second is better and strictly shorter on the first one's path
  (`TwoRulesExact`, with its inputs in `UnsortedArrivalBreaks`).
- `node_count` is described as the number of nodes, but `remove` never lowers it. It is the number
  of nodes exactly until a deletion removes a key (`NodeCountExact`).
- `count` is described as the number of rules. Short of wrapping it is that number if and only if,
  for single keys, no operation ever named a live key (`CountExact`), and, for prefix rules, no rule
  was stored over another one (`RunCountExact`); otherwise it is too high. Whenever it wraps, the
  inserted key gets priority 0 and is not found (`InsertFound`).
- `expand_rule` only ORs bits in. Its cover is exact if and only if the value has no bit at an
  expanded position (`ExactDisjointCover`); rules normalised by the linear table always qualify.
- `convert_rule` and `insert_rule` shift the `int` 1. Where those shifts are defined, the keys are
  right if and only if there are at most 30 wildcards and bit 31 is not one, unless the value's
  upper half is all ones (`ConvertExact`).
- A rule offered with priority 0 erases the rule stored at its path. A key below keeps its answer if
  and only if nothing was stored there or its path holds another rule at least as good
  (`ZeroPriorityLookup`), which is why the lookup theorems ask for positive priorities.
- A rule with more than 15 expanded wildcards is dropped without a report, and a budget failure
  leaves a rule half expanded. A hit is still always an agreeing rule's priority and never better
  than the table's (`HitsAreReal`, `TrieNeverBeatsTable`), but such runs may miss: a blown-up
  rule alone misses on all its keys (`BlownUpMisses`), and a rule whose first prefix rule uses the
  budget up misses on all its keys outside that one (`HalfExpandedMisses`). Under any budget the trie answers a key as the table
  does if and only if every agreeing rule is answered by a recorded one at least as good
  (`RefinementExact`). When the budget was not hit that is a condition on the rules alone: every
  agreeing rule is outdone or matched by one whose expansion reaches the key
  (`TrieRefinesLinearTable`).
- Nothing stops a caller from using both modes on one trie, and no comment says what happens. The
  answers stay those of two separate tries for all keys that the other mode does not name
  (`ModesApart`, `OneTrieServesAsTwo`).
- The table answers the first inserted agreeing rule, not the best one, when rules do not arrive in
  order of priority (`FirstArrivalWins`).
- A single key's priority is the number of its insertion, and `insert_rule` inserts the largest key
  of a rule first, so larger keys get the better priorities (`ExpandedPriorities`); the last
  insertion of a key decides (`LastInsertionWins`).
- `LPM1_search_rule` never fills in the action of its result.
- Nothing forces a searchable set to obey the search law: `UnlawfulSearch` is one that does not. A
  caller has no check for it other than building sets with the operations, all of which keep it.

## Model

| member | source | states |
|---|---|---|
| Refinement.TrieRefinesLinearTable | libmatch/basic_trie.cpp:234-355 | end to end: for sorted positive priorities and a budget that holds the reference trie (or was never hit), the trie answers a key as the linear table's first match does, misses included, if and only if every agreeing rule is outdone or matched by a rule with at most 15 expanded wildcards whose stray value bits the key carries; when no rule has more wildcards or stray bits, it does so for every key |
| Refinement.RefinementExact | libmatch/basic_trie.cpp:234-355 | under any budget, for sorted positive priorities, the trie answers a key as the table does if and only if every agreeing rule is answered by a recorded expanded rule at least as good |
| Refinement.CutOffAtFifteen | libmatch/basic_trie.cpp:284-316 | with b the lowest clear mask bit: a normalised rule alone, its budget not hit, is found on every agreeing key when at most 15 mask bits above b are set, and on none from 16 on |
| Refinement.BlownUpMisses | libmatch/basic_trie.cpp:313-316 | the input: a rule with more than 15 expanded wildcards alone misses in the trie and hits in the table on every key that agrees with it |
| Refinement.HalfExpandedMisses | libmatch/basic_trie.cpp:345-348 | the input: a budget used up by the first of a rule's prefix rules leaves exactly that one recorded, and every other key of the rule misses in the trie and hits in the table |
| Refinement.SingleRuleExact | libmatch/basic_trie.cpp:313-348 | for a single rule and any budget the two matchers agree on every key if and only if the rule has at most 15 expanded wildcards, no value bit is set at one of them, and the budget was not hit |
| Refinement.NormalisedRunsRefine | libmatch/linear_arbitrary.cpp:44-79 | the end-to-end agreement, under either budget condition, for rules that the table's insertion has normalised |
| Refinement.TrieNeverBeatsTable | libmatch/linear_arbitrary.cpp:65-79 | for sorted positive priorities and any budget, blown-up rules and stray value bits included, a hit of the trie is an agreeing rule's priority, and the table has a hit at least as good |
| Client.BuildAndSearch | libmatch/linear_arbitrary.cpp:44-79 | filling both matchers with raw rules of sorted positive priorities through their own methods and searching both: unless the budget was hit, the priorities are equal if and only if every agreeing rule is outdone or matched by an agreeing one with at most 15 expanded wildcards; the budget is hit exactly when it is below the needed nodes; and the trie never answers better |
| Client.FillTable | libmatch/linear_arbitrary.cpp:44-79 | for any order of arrival the table's own methods answer the first inserted rule that agrees with the key, at the position after the distinct entries before it, or a miss |
| Client.FillKeys | libmatch/basic_trie.cpp:163-188 | on a trie filled by `insert_rule` alone, short of the count wrapping, `LPM1_search_rule` answers the number of the key's last insertion and `search_rule` whether some rule generates it |
| Client.ServeCalls | libmatch/basic_trie.cpp:139-553 | playing `expand_rule`, `insert_rule_value` and `delete_rule` in any order on one trie: a key no single-key call named gets the best recorded rule, and a key that is no whole recorded rule is found exactly when it is live (short of the count wrapping) |
| Refinement.TableAnswersBest | libmatch/linear_arbitrary.cpp:44-79 | a table filled in non-decreasing priority answers the smallest priority of all agreeing rules, although it drops duplicates |
| PriorityTrie.LookupMatchesRecordedRules | libmatch/basic_trie.cpp:284-355 | in every state `expand_rule` can reach, with any budget and any mix of blown-up, half-expanded and complete rules, a lookup is the smallest priority among the recorded expanded rules that agree with the key, and the node counter is the number of nodes and within the budget |
| PriorityTrie.LookupMatchesRules | libmatch/basic_trie.cpp:284-355 | a run that never hit its budget, on rules without stray value bits, answers the best priority among the original rules that did not blow up, in any order of arrival |
| PriorityTrie.LookupMatchesReaching | libmatch/basic_trie.cpp:284-355 | a run that never hit its budget answers, stray value bits included, the best priority among the original rules whose expansion reaches the key, in any order of arrival |
| PriorityTrie.RunInvariant | libmatch/basic_trie.cpp:284-355 | every run keeps the trie well formed and its lookups equal to the recorded table's |
| PriorityTrie.RunBudget | libmatch/basic_trie.cpp:252-256 | no run ever holds more than max(budget, 1) nodes |
| PriorityTrie.NoBudgetNoRules | libmatch/basic_trie.cpp:19 | with a budget of at most one node the trie stays a bare root and every lookup misses |
| Counters.NoBudgetExact | libmatch/basic_trie.cpp:19 | every lookup of every run misses if and only if the budget is at most one node |
| Counters.SuffixRuleFound | libmatch/basic_trie.cpp:251-256 | a rule with a mask of trailing ones, alone, is found if and only if the budget holds its path and the root |
| PriorityTrie.OfferAccounting | libmatch/basic_trie.cpp:247-268 | one insertion raises the counter by the nodes it creates, a skipped one creates none, and a failed one has used the budget up |
| PriorityTrie.OfferLookup | libmatch/basic_trie.cpp:247-281 | one insertion, whether stored, skipped or failed, changes each lookup exactly as adding the rule to a priority search would, and a failed one changes none |
| PriorityTrie.SkippedIsHarmless | libmatch/basic_trie.cpp:262-268 | a rule skipped because of a better one on its path could not have improved any lookup below it |
| PriorityTrie.OfferAllTable | libmatch/basic_trie.cpp:345-349 | the rules recorded by one expansion are the first ones offered, all of them exactly when the budget was not hit |
| PriorityTrie.RecordedFrom | libmatch/basic_trie.cpp:341-349 | every recorded rule carries the priority and action of an inserted rule that did not blow up, and matches only keys that rule reaches |
| PriorityTrie.FitsMeaning | libmatch/basic_trie.cpp:286-316 | a rule is expanded if and only if its mask has a clear bit and at most 15 set bits above the lowest one |
| PriorityTrie.ZeroPriorityLookup | libmatch/basic_trie.cpp:263-277 | an offer of priority 0 leaves a key's answer unchanged if and only if the key is not below the path, nothing was stored there, or another rule on the key's path is at least as good |
| PriorityTrie.HitsAreReal | libmatch/basic_trie.cpp:284-355 | under any budget, with rules blown up, half expanded or carrying stray value bits, a hit is the priority of an agreeing original rule and never better than the best one |
| Counters.RunBudgetExact | libmatch/basic_trie.cpp:252-256 | a run fails if and only if its budget is below the final node count of the same run with ample budget (a bare root needs none), and otherwise reaches the identical state |
| Counters.ReferenceBudgetSuffices | libmatch/basic_trie.cpp:252-256 | an ample budget exists: the size of the reference trie |
| Counters.NeededBudgetExact | libmatch/basic_trie.cpp:247-268 | read off the rules: a run hits its budget if and only if it is below the number of prefixes, root included, of the offered paths that no earlier offered rule outdoes (no rules need none), and otherwise creates exactly those nodes |
| Counters.NeededMeaning | libmatch/basic_trie.cpp:262-268 | for sorted rules those are the prefixes of the paths that no rule of the list outdoes |
| Counters.SkippedIffOutdone | libmatch/basic_trie.cpp:262-268 | in every reachable state a rule is skipped if and only if a recorded one with a better priority lies on its path |
| Counters.RunCountExact | libmatch/basic_trie.cpp:276-277 | in prefix mode `count` is at least the number of stored rules, and equal to it if and only if no rule was stored over another |
| PriorityTrie.FailedWalk | libmatch/basic_trie.cpp:252-256 | a walk that runs out of budget leaves exactly the grown part of its path behind |
| PriorityTrie.BestPriorityTransfer | libmatch/basic_trie.cpp:443-473 | the answer depends only on which priorities agreeing rules offer |
| SkippingTrie.SkippingIsFree | libmatch/basic_trie.cpp:247-278 | against a trie storing every offered rule: the nodes are a subset for every order and budget, a budget that holds the reference is never hit, and unfailed runs answer every lookup alike |
| SkippingTrie.OrderIsIrrelevant | libmatch/basic_trie.cpp:361-366 | permuting the rules never changes a lookup of unfailed runs |
| LongestPrefix.AgreementExact | libmatch/basic_trie.cpp:432-473 | longest prefix and best priority agree on every key if and only if no rule that is the last on some key's path has a better rule above it |
| LongestPrefix.StoredSinkingExact | libmatch/basic_trie.cpp:361-366 | storing a rule keeps priorities from increasing with depth if and only if nothing worse is stored below its path |
| LongestPrefix.RunSinkingExact | libmatch/basic_trie.cpp:361-366 | through whole runs, under any budget and in any order, that holds after every insertion if and only if every stored rule met that guard, and then longest prefix and best priority agree |
| LongestPrefix.SortedRunIsGuarded | libmatch/basic_trie.cpp:361-366 | arrival in non-decreasing priority meets that guard at every insertion, under any budget |
| LongestPrefix.LongestPrefixIsBest | libmatch/basic_trie.cpp:432-473 | with rules in non-decreasing priority the deepest rule on a key's path is the best one, in every reachable state |
| LongestPrefix.TwoRulesExact | libmatch/basic_trie.cpp:432-473 | two suffix rules given to `expand_rule` make the two lookups agree on every key if and only if the second is not both better and strictly shorter on the first one's path |
| LongestPrefix.UnsortedArrivalBreaks | libmatch/basic_trie.cpp:432-473 | the inputs: for any value, a longer rule and then a shorter, better one on its path make the two lookups differ on that value |
| SkippingTrie.ReferenceNodes | libmatch/basic_trie.cpp:247-278 | the reference trie's nodes are exactly the prefixes of the offered rules' paths |
| SkippingTrie.ReferenceLookup | libmatch/basic_trie.cpp:443-473 | the reference trie's lookup is the best priority among the rules on the key's path |
| PrefixTree.BestStopsAtDepth | libmatch/basic_trie.cpp:466-469 | stopping at the first missing child loses no stored rule |
| PrefixTree.GrowSize | libmatch/basic_trie.cpp:251-259 | walking down creates exactly the missing nodes |
| Expansion.ExactDisjointCover | libmatch/basic_trie.cpp:284-345 | the generated prefix rules cover each key of the rule exactly once and no other key, if and only if no value bit is set at an expanded position |
| Expansion.ExpansionSound | libmatch/basic_trie.cpp:324-341 | a key that agrees with a generated prefix rule agrees with the rule, and carries its stray value bits |
| Expansion.ExpansionComplete | libmatch/basic_trie.cpp:324-341 | each key that agrees with the rule and carries its stray value bits agrees with some generated prefix rule |
| Expansion.ExpansionOrder | libmatch/basic_trie.cpp:324-341 | the i-th prefix rule takes exactly the rule's keys that spell i, lowest bit first, at the expanded positions |
| Expansion.ExpandedPath | libmatch/basic_trie.cpp:241-243 | `mylog2(mask + 1)` recovers the suffix length, so an expanded rule's path is a prefix of exactly the agreeing keys' paths |
| Expansion.AllOnesBlowsUp | libmatch/basic_trie.cpp:286-316 | the all-ones mask counts 63 wildcards, so it always takes the blow-up exit |
| Expansion.ScanMask | libmatch/basic_trie.cpp:195-222 | the two scanning loops find the lowest clear bit and the wildcards above it |
| Expansion.FirstClearMeaning | libmatch/basic_trie.cpp:286-297 | the boundary is the lowest clear mask bit, and 0 on the all-ones mask |
| Expansion.ScatterCounter | libmatch/basic_trie.cpp:326-340 | the inner loop ORs in the weights the counter selects |
| Expansion.ExpandCounter | libmatch/basic_trie.cpp:326-343 | one iteration builds the prefix rule for its counter value |
| Rules.PathPrefixMeansAgrees | libmatch/basic_trie.cpp:236-249 | a prefix rule's path is a prefix of a key's path exactly when the key agrees with the rule |
| Rules.MatchesMeaning | libmatch/linear_arbitrary.cpp:69 | the table's test holds exactly for normalised rules that agree with the key |
| Rules.NormaliseMeaning | libmatch/linear_arbitrary.cpp:49-50 | normalising keeps the meaning of a rule and fixes normalised ones |
| Words.MyLog2 | libmatch/basic_trie.cpp:27-36 | the exponent of the largest power of two not above the value, which is its highest set bit; UINT_MAX on 0 |
| Words.Log2OfPow2 | libmatch/basic_trie.cpp:27-36 | the logarithm undoes a shift of 1 |
| LinearTable.LinearTable.InsertRule | libmatch/linear_arbitrary.cpp:44-62 | leaves the table as it is when some entry has the normalised value and mask, and otherwise appends the normalised rule, whatever its priority; keeps entries normalised and distinct, and hands the normalised rule back |
| LinearTable.LinearTable.SearchRule | libmatch/linear_arbitrary.cpp:65-79 | reports the first matching entry and its position, or a miss with the table size |
| LinearTable.LinearTable.DeleteRule | libmatch/linear_arbitrary.cpp:82-97 | the loop that erases while iterating removes exactly the entry with the normalised value and mask, wherever it is, and keeps the rest in order |
| LinearTable.FirstArrivalWins | libmatch/linear_arbitrary.cpp:44-79 | in any order of arrival a key gets the priority and action of the first inserted rule that agrees with it, at the position after the distinct entries inserted before |
| LinearTable.NoArrivalMisses | libmatch/linear_arbitrary.cpp:44-79 | a key that agrees with no inserted rule misses, after as many attempts as there are distinct entries |
| LinearTable.SearchAfterDelete | libmatch/linear_arbitrary.cpp:65-97 | after a deletion a search finds the first old match that was not deleted |
| LinearTable.MissAfterDelete | libmatch/linear_arbitrary.cpp:65-97 | a search whose matches were all deleted misses |
| LinearTable.FirstMatchUnique | libmatch/linear_arbitrary.cpp:65-79 | the first-match outcome is unique |
| KeyExpansion.ConvertExact | libmatch/basic_trie.cpp:40-64 | the list holds exactly the keys agreeing with the rule, if and only if the rule is safe for `int` shifts |
| KeyExpansion.ConvertOrdered | libmatch/basic_trie.cpp:40-64 | on safe rules the list has 2^wildcards keys, strictly decreasing from base\|mask to base |
| KeyExpansion.ConvertList | libmatch/basic_trie.cpp:40-64 | on every rule whose shifts are defined the list has 2^wildcards keys (none for 31 wildcards), strictly decreasing, and exactly the generated ones, sign extension included |
| KeyExpansion.ConvertRule | libmatch/basic_trie.cpp:40-64 | appends the specified list, which is empty when the loop bound is negative |
| KeyExpansion.KeyForCounter | libmatch/basic_trie.cpp:54-60 | the inner loop ORs in the weights of the clear counter bits, sign extension included |
| KeyExpansion.SignExtendedBit | libmatch/basic_trie.cpp:58 | `1 << 31` converted to 64 bits carries the bits 31 to 63 |
| ExactTrie.RunIsExact | libmatch/basic_trie.cpp:139-159 | any run with fewer than 2^32 inserts and any number of deletes keeps the trie free of dead branches and `search_rule` equal to membership in the plain set of live keys |
| ExactTrie.ExactKeyRefinement | libmatch/basic_trie.cpp:163-188 | after any `insert_rule` calls on safe rules `search_rule` succeeds exactly when the linear table's test does for some inserted rule |
| ExactTrie.InsertDeleteRoundTrip | libmatch/basic_trie.cpp:519-553 | deleting a key just inserted restores the identical tree, whatever priority it was stored with |
| ExactTrie.CountExact | libmatch/basic_trie.cpp:139-159 | `count` is at least the number of live keys, and equal to it if and only if no operation named a key that was live at that moment |
| KeyPriorities.RunPriorities | libmatch/basic_trie.cpp:139-159 | after any run with fewer than 2^32 inserts `LPM1_search_rule` answers the number of the insertion a key is live from, and 0 when it is not live |
| KeyPriorities.ExpandedPriorities | libmatch/basic_trie.cpp:163-188 | short of wrapping, `insert_rule` gives each generated key the old count plus its rank from the top, and leaves every other entry alone |
| KeyPriorities.EndPriorities | libmatch/basic_trie.cpp:175-186 | on safe rules base\|mask gets the old count plus 1 and base the old count plus 2^wildcards |
| KeyPriorities.LastInsertionWins | libmatch/basic_trie.cpp:163-188 | on a trie filled by `insert_rule` alone a lookup answers the number of the key's last insertion, 0 when no rule generates it |
| ExactTrie.DeleteAbsent | libmatch/basic_trie.cpp:519-553 | deleting an absent key changes nothing |
| ExactTrie.DeleteCanonical | libmatch/basic_trie.cpp:519-553 | pruning delete keeps "every node but the root has a rule at or below it" and removes exactly the key's rule |
| ExactTrie.DeleteRules | libmatch/basic_trie.cpp:519-553 | on any trie no rule node but the key's own is freed or changed |
| ExactTrie.DeleteNodes | libmatch/basic_trie.cpp:519-553 | on any trie a deletion frees exactly the nodes on the key's path, the root aside, with no other rule and no node off the path at or below them |
| ExactTrie.DeleteFound | libmatch/basic_trie.cpp:492-553 | after a delete the key is not found and every other key is answered as before |
| ExactTrie.CanonicalUnique | libmatch/basic_trie.cpp:519-544 | a trie without dead branches is determined by its rules |
| ExactTrie.InsertCanonical | libmatch/basic_trie.cpp:139-159 | inserting keeps the trie free of dead branches and adds exactly one rule |
| ExactTrie.InsertFound | libmatch/basic_trie.cpp:139-159 | the inserted key is found if and only if the 32-bit count did not wrap to 0; other keys are unaffected |
| ExactTrie.NodeCountExact | libmatch/basic_trie.cpp:519-544 | the node counter equals the number of nodes if and only if no deletion has removed a key, and is otherwise too high |
| ExactTrie.PruneStep | libmatch/basic_trie.cpp:533-540 | the decision to free the next node up is right |
| MixedTrie.ModesApart | libmatch/basic_trie.cpp:139-553 | for any interleaving of `expand_rule`, `insert_rule_value` and `delete_rule` under any budget: keys that no single-key call named get the best recorded rule; keys that are no whole recorded rule get the better of that and their own entry, and `search_rule` answers membership in the live keys |
| MixedTrie.OneTrieServesAsTwo | libmatch/basic_trie.cpp:139-553 | when no budget is hit those answers are the ones of a trie that saw only the prefix rules and of a trie that saw only the single keys |
| Tries.Trie.constructor | libmatch/basic_trie.hpp:164-171 | a fresh trie is a bare root with zero counters |
| Tries.Trie.AddChild | libmatch/basic_trie.cpp:67-87 | a new node hangs below its parent with priority 0, and both node counters rise by one |
| Tries.Trie.InsertRuleValue | libmatch/basic_trie.cpp:139-159 | in place: the specified insertion of a key |
| Tries.Trie.InsertRule | libmatch/basic_trie.cpp:163-188 | in place: short of wrapping each generated key gets the old count plus its rank from the top, every other entry is kept, and the count rises by the number of keys |
| Tries.Trie.SearchRule | libmatch/basic_trie.cpp:492-509 | true exactly when the key's node exists and carries a rule |
| Tries.Trie.GetNewNum | libmatch/basic_trie.cpp:193-226 | the number of wildcards above the trailing ones |
| Tries.Trie.InsertPrefixRulePriority | libmatch/basic_trie.cpp:234-281 | in place: stored, skipped or failed as specified, returning 1 exactly on the budget failure |
| Tries.Trie.ExpandRule | libmatch/basic_trie.cpp:284-355 | in place: the specified expansion, stopping at the first budget failure; nothing happens for the all-ones mask or more than 15 set bits above the lowest clear one, and otherwise 2^n rules are recorded unless the budget is hit |
| Tries.Trie.LPM1SearchRule | libmatch/basic_trie.cpp:443-488 | the best priority on the key's path, no action, and the number of nodes visited |
| Tries.Trie.Remove | libmatch/basic_trie.cpp:519-544 | in place: frees the key's dead branch up to the current node, and says whether that node may go too |
| Tries.Trie.DeleteRule | libmatch/basic_trie.cpp:547-553 | in place: the specified pruning delete, the root kept |
| Tries.Trie.FreeChild | libmatch/basic_trie.cpp:535-537 | unlinking frees one leaf, and neither counter is lowered |
| Tries.Trie.DeleteTrie | libmatch/basic_trie.cpp:117-136 | frees every node below r exactly once, in the listed order, visits no freed node, and lowers `debug` by their number |
| Tries.Trie.ChildrenFirst | libmatch/basic_trie.cpp:117-136 | that order lists each node below r once, and never a node before one below it |
| Tries.Trie.WholeTrie | libmatch/basic_trie.cpp:117-136 | from the root that number is the node counter less what `remove` freed |
| InfiniteSets.FlattenLawful | boost-hana/example/misc/infinite_set.cpp:104-114 | flattening lawful sets is lawful, with the members of the members |
| InfiniteSets.TransformLawful | boost-hana/example/misc/infinite_set.cpp:73-81 | mapping keeps the search law, with the image as members |
| InfiniteSets.ApLawful | boost-hana/example/misc/infinite_set.cpp:93-99 | `ap` keeps the search law, with all f(x) as members |
| InfiniteSets.UnionLawful | boost-hana/example/misc/infinite_set.cpp:52-57 | `union_` keeps the search law, with the union as members |
| InfiniteSets.SingletonLawful | boost-hana/example/misc/infinite_set.cpp:38-41 | one member, found |
| InfiniteSets.DoubletonLawful | boost-hana/example/misc/infinite_set.cpp:43-48 | two members, found |
| InfiniteSets.DoubletonFinds | boost-hana/example/misc/infinite_set.cpp:43-48 | the first member is answered when it will do, otherwise the second |
| InfiniteSets.UnionFinds | boost-hana/example/misc/infinite_set.cpp:52-57 | a union answers what the left set finds if it has a satisfying member, and otherwise what the right set finds |
| InfiniteSets.TransformFinds | boost-hana/example/misc/infinite_set.cpp:73-81 | a mapped set answers the image of the member the set itself finds |
| InfiniteSets.FlattenFinds | boost-hana/example/misc/infinite_set.cpp:104-114 | the outer set chooses an inner set that has an answer, and that one chooses the member |
| InfiniteSets.ApFinds | boost-hana/example/misc/infinite_set.cpp:93-99 | the set of functions chooses one whose image has an answer, and the argument set chooses for it |
| InfiniteSets.FirstInMeaning | boost-hana/example/misc/infinite_set.cpp:119-126 | a list is searched from the front: the first element that will do, the last one when none does |
| InfiniteSets.DoubletonList | boost-hana/example/misc/infinite_set.cpp:38-48 | a singleton and a doubleton search their one and two elements in order |
| InfiniteSets.TransformList | boost-hana/example/misc/infinite_set.cpp:73-81 | mapping a set that searches a list searches the mapped list |
| InfiniteSets.FlattenList | boost-hana/example/misc/infinite_set.cpp:104-114 | flattening searches the inner lists joined in the order of the outer one |
| InfiniteSets.UnionList | boost-hana/example/misc/infinite_set.cpp:52-57 | a union searches the left list and then the right one |
| InfiniteSets.ApList | boost-hana/example/misc/infinite_set.cpp:93-99 | `ap` searches, function by function in order, the mapped arguments |
| InfiniteSets.ListMembers | boost-hana/example/misc/infinite_set.cpp:119-134 | a set that searches a list is lawful with the list's elements as members |
| InfiniteSets.FindIfExact | boost-hana/example/misc/infinite_set.cpp:119-126 | `find_if` answers a satisfying member exactly when there is one |
| InfiniteSets.EqualExact | boost-hana/example/misc/infinite_set.cpp:62-67 | `equal` decides having the same members |
| InfiniteSets.IsSubsetExact | boost-hana/include/boost/hana/is_subset.hpp:61-68 | `is_subset` decides inclusion |
| InfiniteSets.FlattenAssociative | boost-hana/example/misc/infinite_set.cpp:104-114 | flattening is associative up to `equal` |
| InfiniteSets.ChainAssociative | boost-hana/test/_include/laws/monad.hpp:85-90 | chaining is associative up to `equal` |
| InfiniteSets.FlattenLift | boost-hana/example/misc/infinite_set.cpp:86-114 | left unit up to `equal` |
| InfiniteSets.FlattenTransformLift | boost-hana/example/misc/infinite_set.cpp:86-114 | right unit up to `equal` |
| InfiniteSets.UnlawfulSearch | boost-hana/example/misc/infinite_set.cpp:128-134 | without the law `any_of` can miss a member |
| RoseTrees.FlattenAssociative | boost-hana/example/misc/tree.cpp:98-110 | collapsing three levels of trees from outside or from inside gives the same tree |
| RoseTrees.FlattenLift | boost-hana/example/misc/tree.cpp:70-110 | left unit |
| RoseTrees.FlattenTransformLift | boost-hana/example/misc/tree.cpp:54-110 | right unit |
| RoseTrees.FlattenNatural | boost-hana/example/misc/tree.cpp:54-110 | mapping and flattening commute |
| RoseTrees.ChainAssociative | boost-hana/test/_include/laws/monad.hpp:85-90 | chaining is associative |
| RoseTrees.ChainUnits | boost-hana/test/_include/laws/monad.hpp:75-83 | both unit laws of chaining |
| RoseTrees.ApIsMonadic | boost-hana/example/misc/tree.cpp:77-110 | `ap` is flatten of the nested transform |
| RoseTrees.ApCompositionLaw | boost-hana/example/misc/tree.cpp:77-93 | applicative composition |
| RoseTrees.ApInterchange | boost-hana/example/misc/tree.cpp:77-93 | applicative interchange |
| RoseTrees.ApLift | boost-hana/example/misc/tree.cpp:70-93 | applying a lone function is mapping it, which includes the homomorphism law |
| RoseTrees.ApIdentity | boost-hana/example/misc/tree.cpp:77-93 | applicative identity |
| RoseTrees.TransformCompose | boost-hana/example/misc/tree.cpp:54-65 | functor composition |
| RoseTrees.TransformIdentity | boost-hana/example/misc/tree.cpp:54-65 | functor identity |
| RoseTrees.EqualMeansSame | boost-hana/example/misc/tree.cpp:40-49 | `equal` is equality of trees |
| RoseTrees.FoldIsPreorder | boost-hana/example/misc/tree.cpp:115-124 | the fold is a left fold over the preorder listing |
| RoseTrees.FoldTransform | boost-hana/example/misc/tree.cpp:54-124 | folding a mapped tree is folding with the mapped step |
| RoseTrees.FoldFlatten | boost-hana/example/misc/tree.cpp:98-124 | folding a flattened tree runs the inner folds in turn |
| RoseTrees.PreorderFlatten | boost-hana/example/misc/tree.cpp:98-110 | flattening keeps every value, listed inner tree by inner tree in the outer preorder |
| RoseTrees.PreorderAp | boost-hana/example/misc/tree.cpp:77-93 | `ap` lists the arguments mapped by each function in turn |
| RoseTrees.OutlineInjective | boost-hana/example/misc/tree.cpp:21-36 | the preorder listing with depths determines the tree |
| RoseTrees.OutlineFlatten | boost-hana/example/misc/tree.cpp:98-110 | the shape of a flattened tree: for each outer node in preorder the inner tree's listing, its depths raised by the outer node's |
| RoseTrees.OutlineAp | boost-hana/example/misc/tree.cpp:77-93 | the shape of an application: for each function in preorder, at depth d, the argument listing with the function applied and the depths raised by d |
| RoseTrees.OutlineTransform | boost-hana/example/misc/tree.cpp:54-65 | mapping changes the values and keeps every depth |
| RoseTrees.OutlineValues | boost-hana/example/misc/tree.cpp:115-124 | without the depths it is the listing the fold follows |

## Left out

- `LPM_search_rule` (libmatch/basic_trie.cpp:402-430): it reports a hit on any child without a rule, so it computes no longest-prefix match.
- `insert_prefix_rule` (libmatch/basic_trie.cpp:371-397): the priority version without priorities, budget and counter.
- `expand_count` (libmatch/basic_trie.cpp:350): it sums running table sizes and is read nowhere.
- `trie_node::action` (libmatch/basic_trie.cpp:278): written on insertion and read by no function here.
- The `blowup` flag, `new_num1`, `attempt`, the timing code, and failing memory allocation: reporting only.
- `resetRule`, `tot_expand_rule`, `prefix_search_rule`, `detect_wildcard_mask`, `removeChildren`: a plain reset, and functions with no definition in the repository.
- `libmatch/basic_hot_tree.cpp`: a constructor only.
- `linearTable::count` (libmatch/linear_arbitrary.hpp:60): set once and read nowhere.
- Tries.Trie.InsertPrefixRulePriority: the all-ones mask is excluded, because the source then shifts by -1; `expand_rule` never passes it.
- Tries.Trie.InsertRule: excludes exactly the masks for which the source executes a shift of an `int` by 32 or more, which is undefined: 32 or more wildcards, or at most 30 with one above bit 31.
- KeyExpansion.ConvertRule: the same masks are excluded, for the same reason.
- ExactTrie.ExactKeyRefinement: asks for fewer than 2^32 keys in all, because one whose count wraps to 0 is lost; `InsertFound` says exactly which.
- Tries.Trie.DeleteTrie: memory is not reclaimed in the model; a ghost set records what was freed.
- MixedTrie.ModesApart: says nothing about a key that was both named by a single-key call and recorded as a whole-key prefix rule, where the two modes share one entry.
- Wrap-around of the 64-bit node counters: a trie cannot hold 2^64 nodes.
- Several tries sharing the static `debug` and `threshold`: each trie has its own.
- C++ value categories, tag dispatch and compile-time evaluation in the Hana examples; predicates and mapped functions are total.
