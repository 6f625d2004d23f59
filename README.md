# casbin policy store, modelled in Dafny

This project models the in-memory policy store of casbin's `model/policy.go`.

The model is a map from section name (`"p"` for permissions, `"g"` for groupings) to a map from rule type (`ptype`) to an `Assertion`. An `Assertion` has the following parts:

- the declared field names, `Tokens`;
- the field-name-to-column map, `FieldIndexMap`;
- the ordered rule list, `Policy`;
- the index `PolicyMap`, which maps each rule's key to the rule's position.

A rule's key is its fields joined with `","`.

Every operation first looks up the store of (section, rule type) and fails with the lookup's error when there is none.

## Modules

- `RuleKeys` (rule_keys.dfy) holds rules and their keys.
  - `Key` is Go's `strings.Join` with `","`. It is injective only on well-formed rules: at least one field, and no field containing the separator.
  - The index invariant `Indexed(Policy, PolicyMap)` says two things. Every rule's key maps to its position. The map holds no other entry.
  - The module also holds the intermediate index states of the shifting loops.
- `Strconv` (strconv.dfy) is `strconv.Atoi` for a 64-bit `int`: an optional sign, decimal digits, and the value range.
- `Selection` (selection.dfy) holds order-preserving selection (`Keep`), the field filter (`Matches`, `MatchRule`), and removal by key set (`Without`).
- `Priority` (priority.dfy) is the backward scan of the priority insertion and its position `InsertPos`. It also holds the ordering lemmas. The integer parser is a parameter here, and the store passes `Atoi`.
- `Batch` (batch.dfy) holds reference definitions of the batch operations as folds over the input. `AddAll` and `RemoveAll` return the new list and the affected rules. `SwapRemove` is the single removal.
- `Updates` (updates.dfy) holds the intermediate states of the batch update and of its rollback.
- `Assertions` (assertion.dfy) is the `Assertion` class. Its methods carry the source's loops and in-place updates, each proved against the reference definitions.
- `Policy` (policy.dfy) is the model map and the lookup. Each model-level operation delegates to the store.
- `Scenarios` (scenarios.dfy) holds short concrete scenarios whose results follow from the contracts.

The index invariant is the class predicate `Assertion.Valid()`. Given `Valid()`, the rule list determines the map (`RuleKeys.IndexedUnique`). So the mutators state the new list and `Valid()`, and that fixes the new map.

Three behaviours of the code are easy to get wrong, and the model states them as the code has them:

- **Single removal.** `RemovePolicy` swaps the last rule into the gap (`Batch.SwapRemove`), so it does not keep the order. The batch removal shifts the later rules down and keeps it (`Batch.RemoveAll`).
- **Priority order.** The backward scan of the priority insertion stops at any rule whose priority does not parse. So a non-numeric priority is a barrier, and the numeric priorities around it can end up out of order. `Priority.UnparsedBarrier` gives an input. The guarantee that does hold is `Priority.InsertKeepsOrder`: inserting into a list where every priority parses and the order is sorted keeps it sorted.
- **Batch update rollback.** For any batch, the update loop is the fold `Updates.Run`. After a failure, the list is `Updates.Restored` of the state where the loop stopped: each recorded slot holds the old rule of the last pair recorded there. The list and the index are exactly as before when the batch is safe (`Updates.BatchUpdateSafe`). Its conditions, and why each is there:
  - At least as many new rules as old ones. This is the model's precondition; see "Left out".
  - The stored rules and the old rules are well formed. Otherwise two different rules can share a key (`RuleKeys.KeyCollision`), and the rollback writes back the old rule, not the stored one. For example, take store `[["a,b"]]` and the call `UpdatePolicies([["a","b"], ["x"]], [["n"], ["y"]])`. The slot ends up holding `["a","b"]`.
  - No new key is already stored. Otherwise the new key's entry overwrites another rule's entry, and the rollback then deletes it.
  - No old key equals a new key. Otherwise a slot can be recorded twice and restored to an intermediate rule. Take store `[a]` and the call `UpdatePolicies([a, a2, x], [a2, a3, x2])` with `x` not stored. Slot 0 goes from `a` to `a2` to `a3`, and the rollback writes back `a2`, not `a` (`Scenarios.ChainedScenario` on the class, `Scenarios.ChainedModelScenario` through the model map).
  - The old keys are pairwise distinct, and so are the new keys. The proof of the success case uses these to give each recorded slot one pair and each new key one slot. They are not known to be needed for the rollback.

  Outside these conditions, the rollback need not restore the store. The model still states the list after a failure, but not the index, which depends on the order in which the rollback visits the record.

## Model

| member | source | states |
|---|---|---|
| RuleKeys.KeyInjective | model/policy.go:198-205 | on rules with at least one field and no field containing ",", two rules have the same lookup key exactly when they are equal |
| RuleKeys.KeyCollision | model/policy.go:203 | without that condition, different rules share a key: ["a,b"] and ["a","b"] |
| RuleKeys.IndexedKeys | model/policy.go:228-229 | when the index invariant holds, the stored keys are pairwise distinct and the map's keys are the keys of the stored rules |
| RuleKeys.IndexedSize | model/policy.go:228-229 | when the index invariant holds, the map has exactly as many entries as there are rules |
| RuleKeys.IndexedUnique | model/policy.go:228-229 | the rule list determines its index: two maps that index the same list are equal |
| RuleKeys.DuplicateBreaksIndex | model/policy.go:223-228 | a list holding two rules with one key has no valid index, which is what adding a duplicate rule produces |
| RuleKeys.IndexedMembership | model/policy.go:198-205 | a key-map lookup finds a key exactly when some stored rule has it, and for well-formed rules exactly when the rule itself is stored |
| RuleKeys.AppendIndexed | model/policy.go:228-229 | appending a rule whose key is absent, and mapping its key to the last position, keeps the index invariant |
| RuleKeys.ReplaceIndexed | model/policy.go:316-319 | writing a rule into a slot and re-keying the slot keeps the index invariant when the new key is absent or equals the old one |
| RuleKeys.SpliceShifted | model/policy.go:382-386 | after cutting slot i out and deleting its key, every rule before i is still indexed correctly and every later rule's entry is one too high |
| RuleKeys.ShiftUp | model/policy.go:387-389 | re-keying the rule at position i to i moves the re-indexed boundary of the shifting loop one step |
| RuleKeys.ShiftedWithDown | model/policy.go:238-244 | adding one to the entry of the rule moved up by the insertion loop keeps the loop's index relation |
| RuleKeys.ShiftedWithInsert | model/policy.go:246-247 | when the insertion loop stops at i, writing the rule into slot i and keying it to i gives the index of the list with the rule inserted at i |
| Strconv.Atoi | model/policy.go:236 | parsing succeeds only on a non-empty string, and the value lies in the 64-bit int range; a string without a leading "-" gives a value of at least 0 |
| Strconv.AtoiSamples | model/policy.go:236 | "20" and "10" parse to 20 and 10; "-7" and "+3" parse to -7 and 3; "", "x" and "-" do not parse |
| Strconv.AtoiDigit | model/policy.go:239 | a single decimal digit parses to its value |
| Selection.KeepMembership | model/policy.go:153-165 | a rule is selected exactly when it is in the list and passes the test |
| Selection.KeepConcat | model/policy.go:153-165 | selection distributes over concatenation, so it never reorders rules |
| Selection.KeepPartition | model/policy.go:403-418 | what the filter keeps and what it removes together make up the whole list, as a multiset and by length |
| Selection.KeepDistinct | model/policy.go:403-418 | selecting from a list with distinct keys keeps the keys distinct and adds no key |
| Selection.KeepFull | model/policy.go:421-424 | a selection as long as its input is the input, which is why the code compares lengths |
| Selection.MatchRule | model/policy.go:154-161 | the comparison loop with its early break returns true exactly when every non-empty filter value equals the field it names, "" matching anything |
| Selection.WithoutKeys | model/policy.go:372-392 | removing by a key set keeps exactly the stored rules whose key is not in the set |
| Selection.WithoutSplice | model/policy.go:385 | with distinct keys, cutting slot i out of the list is the same as removing that rule's key |
| Selection.WithoutWithout | model/policy.go:378-389 | removing by one key set and then another is removing by their union |
| Priority.InsertPos | model/policy.go:236-245 | where the backward scan stops: every rule from there on has a priority that parses and is strictly above the new one; the rule just before does not |
| Priority.ScanResult | model/policy.go:236-245 | the position at which the loop's break leaves the scan is InsertPos |
| Priority.PriorityInsert | model/policy.go:223-251 | adding a rule adds exactly that rule: a multiset with one more copy, and the same members plus the rule |
| Priority.InsertPlacement | model/policy.go:235-248 | when the new rule's priority parses, the rule goes in at the scan's stop; the rules after it are strictly higher and the rule before it is not |
| Priority.InsertHasColumn | model/policy.go:233-238 | when every rule has the priority column, the insertion can read every column it needs and the new list still has the column everywhere |
| Priority.InsertKeepsOrder | model/policy.go:233-248 | inserting a rule with a parseable priority into a list sorted by parseable priorities keeps the list sorted |
| Priority.UnparsedBarrier | model/policy.go:238-241 | [3, x] plus 2 becomes [3, x, 2]: a non-numeric priority stops the scan, and the numeric priorities end up out of order |
| Batch.AddAll | model/policy.go:266-277 | the batch add as a fold over the input rules keeps the priority column that every stored and input rule has |
| Batch.AddAllStored | model/policy.go:260-279 | after the batch add, the stored keys are the old ones plus those of the input |
| Batch.AddAllAffected | model/policy.go:266-273 | the reported rules are input rules, and their keys are exactly the input's keys that were not stored; the new list is the old one plus the reported rules, as a multiset |
| Batch.AddAllDistinct | model/policy.go:266-273 | the reported rules have distinct keys, so an input rule repeated in the batch is added once, and a list with distinct keys keeps them |
| Batch.AddAllKeepsOrder | model/policy.go:260-279 | over a sorted list and input rules whose priorities all parse, the batch add keeps the list sorted |
| Batch.RemoveAll | model/policy.go:378-390 | the batch removal as a fold over the input rules never makes the list longer |
| Batch.RemoveAllSurvivors | model/policy.go:372-392 | after the batch remove, the list is the old list without every rule whose key an input rule has, in the old order |
| Batch.RemoveAllAffected | model/policy.go:377-383 | the reported rules are input rules with distinct keys, and their keys are exactly the input keys that were stored |
| Batch.AddAllStep | model/policy.go:266-273 | one more input rule of the batch add is skipped when its key is already stored and otherwise inserted by priority and reported |
| Batch.RemoveAllCount | model/policy.go:377-389 | with distinct stored keys, the survivors and the removed rules are together exactly as many as the old rules |
| Batch.RemoveAllReport | model/policy.go:366-369 | something is reported exactly when some input key was stored; with distinct keys, the survivors and the reported rules together are as long as the old list |
| Batch.SwapRemove | model/policy.go:292-299 | the single removal drops exactly one copy of the removed rule; other slots are unchanged, and the last rule moves into the vacated slot |
| Batch.SwapRemoveIndexed | model/policy.go:292-300 | moving the last rule into the vacated slot, re-keying it, truncating, and deleting the removed key keeps the index invariant |
| Updates.UpdatedFound | model/policy.go:355-359 | one pair of a safe batch update keeps the invariant of the update loop: indexed, old keys replaced by new, and modified slots recorded |
| Updates.UpdatedDone | model/policy.go:347-362 | a safe batch update that finds every old rule ends indexed, with each old rule's slot holding its new rule and every other slot unchanged |
| Updates.Run | model/policy.go:345-361 | the update loop over the first n pairs of any batch keeps the list's length and every index entry in range, and records only slots of the list, with pair numbers below n |
| Updates.ReachesPrefix | model/policy.go:345-351 | a loop that gets past n pairs gets past every shorter prefix |
| Updates.ReachesMissing | model/policy.go:347-351 | an old rule missing from the index at its turn stops the loop before the end |
| Updates.RestoreDone | model/policy.go:331-341 | once every recorded slot is restored, the list and the index are the ones from before the update |
| Assertions.RemoveDuplicates | model/policy.go:443 | no value twice, and the same values as the input |
| Assertions.Assertion.PriorityColumn | model/policy.go:230-234 | the list is ordered only in section "p" and only when a priority field is declared; the column is that field's |
| Assertions.Assertion.AddPolicy | model/policy.go:223-251 | the new list is PriorityInsert of the old one, and the rule's key is indexed; when the old state was indexed and the key was new, the new state is indexed |
| Assertions.Assertion.ShiftIntoPlace | model/policy.go:236-248 | the shifting loop puts the appended rule at InsertPos of the list before it, adding one to each moved rule's entry, and ends indexed when it started from an indexed list |
| Assertions.Assertion.Append | model/policy.go:228-229 | the rule goes to the end and its key to the last slot; an indexed store with a new key stays indexed |
| Assertions.Assertion.ShiftBack | model/policy.go:237-245 | the backward loop stops exactly at InsertPos, with the slot there free and every rule after it moved up by one |
| Assertions.Assertion.ShiftOne | model/policy.go:243-244 | one step of the loop moves the rule before the free slot into it and adds one to its index entry |
| Assertions.Assertion.HasPolicy | model/policy.go:203-204 | the lookup is key membership in the index; on an indexed store, whether some stored rule has the rule's key |
| Assertions.Assertion.HasPolicyMembership | model/policy.go:198-205 | on an indexed store of well-formed rules, the lookup says whether the rule itself is stored |
| Assertions.Assertion.AddPoliciesWithAffected | model/policy.go:260-279 | the loop computes AddAll: each rule not yet stored is inserted by priority and reported, in input order; the store stays indexed |
| Assertions.Assertion.RemovePolicy | model/policy.go:283-303 | true exactly when the key was stored; in that case the list is SwapRemove at the key's slot, otherwise nothing changes; the store stays indexed and the key is gone |
| Assertions.Assertion.RemovePoliciesWithAffected | model/policy.go:372-392 | the loop with its inner re-keying loop computes RemoveAll: stored input rules are removed in order and reported; the store stays indexed |
| Assertions.Assertion.RemoveShifting | model/policy.go:382-386 | one removal of the batch: the list loses exactly the rule with that key, in order, and the re-keyed store is indexed |
| Assertions.Assertion.GetFilteredPolicy | model/policy.go:146-168 | the result is the stored rules the filter matches, in stored order |
| Assertions.Assertion.RemoveFilteredPolicy | model/policy.go:395-428 | the reported rules are the matching ones and the list keeps the others, both in order; true exactly when something was removed; the rebuilt index is valid when the old keys were distinct |
| Assertions.Assertion.SplitByFilter | model/policy.go:403-418 | the loop splits the list into the unmatched rules and the matched ones, both in order, and indexes the unmatched ones when the keys are distinct |
| Assertions.Assertion.UpdatePolicy | model/policy.go:306-322 | true exactly when the old key was stored; then the new rule is in the old slot and the map moves the slot to the new key; indexed again when the new key is the old one or was absent |
| Assertions.Assertion.Clear | model/policy.go:124-134 | the store is empty and indexed |
| Assertions.Assertion.UpdatePolicies | model/policy.go:325-363 | for any batch: true exactly when the loop finds every old rule in turn, and then the list and index are those of Updates.Run; false when some old rule is missing at its turn, and then the list is the rollback of the state at that point. For a safe batch: true exactly when every old rule was stored; false leaves list and index as they were; true leaves the store indexed, each old rule's slot holding its new rule and the other slots unchanged |
| Assertions.Assertion.ApplyPairs | model/policy.go:345-361 | the update loop goes pair by pair, in the way Updates.Run says, and stops at the first old rule missing from the index, or gets through all of them |
| Assertions.Assertion.ApplyPair | model/policy.go:355-359 | one pair writes the new rule into the old rule's slot, moves the slot from the old key to the new one and records it; for a safe batch the loop invariant is kept |
| Assertions.Assertion.Rollback | model/policy.go:331-341 | in whatever order the record is visited, each recorded slot ends up holding its pair's old rule and every other slot is unchanged; when ready to restore, the list and index end up as they were before the update |
| Assertions.Assertion.GetValuesForFieldInPolicy | model/policy.go:431-446 | the column's values over the stored rules, each exactly once |
| Policy.GetPolicy | model/policy.go:137-143 | the lookup error when (sec, ptype) has no store, otherwise the stored list |
| Policy.HasPolicy | model/policy.go:198-205 | the lookup error exactly when (sec, ptype) has no store; otherwise whether the rule's key is in the index, which on an indexed store is whether a stored rule has that key |
| Policy.HasPolicyEx | model/policy.go:171-195 | the checked lookup succeeds exactly when the store exists and the arity fits: exact in "p", at least the declared count in "g", unchecked elsewhere; it then answers as the plain lookup; a misfit reports the expected and actual sizes |
| Policy.HasPolicyMeaning | model/policy.go:198-205 | on an indexed store of well-formed rules, the lookup answers whether the rule is stored |
| Policy.HasPolicies | model/policy.go:208-220 | no rules gives false without a lookup; otherwise the lookup error, or whether any rule's key is stored |
| Policy.GetFilteredPolicy | model/policy.go:146-168 | the lookup error, or the matching stored rules in order |
| Policy.GetValuesForFieldInPolicy | model/policy.go:431-446 | the lookup error, or the column's values without duplicates |
| Policy.AddPolicy | model/policy.go:223-251 | the lookup error, or the store's priority insertion |
| Policy.AddPoliciesWithAffected | model/policy.go:260-279 | the lookup error, or AddAll's new list and affected rules, with the store still indexed |
| Policy.AddPolicies | model/policy.go:254-257 | the lookup error, or AddAll's new list |
| Policy.RemovePolicy | model/policy.go:283-303 | the lookup error, or whether the key was stored, with the swap removal when it was |
| Policy.RemovePoliciesWithAffected | model/policy.go:372-392 | the lookup error, or RemoveAll's survivors and removed rules |
| Policy.RemovePolicies | model/policy.go:366-369 | the lookup error, or whether some input key was stored; the survivors are the rules whose key no input rule has |
| Policy.RemoveFilteredPolicy | model/policy.go:395-428 | the lookup error, or the filtered removal with its flag and removed rules |
| Policy.UpdatePolicy | model/policy.go:306-322 | the lookup error, or the single update: true exactly when the old key was stored; then the new rule takes the old slot and the slot moves from the old key to the new one in the index; false changes nothing |
| Policy.UpdatePolicies | model/policy.go:325-363 | the lookup error, or the batch update: the list keeps its length, and the result is true exactly when the loop finds every old rule in turn; for any batch, true leaves the list and index of Updates.Run, and false leaves the list that the rollback makes of the state where the loop stopped (Updates.Restored); on a safe batch, false changes nothing, and true leaves the store indexed, each old rule's slot holding its new rule and the other slots unchanged |
| Policy.ClearPolicy | model/policy.go:124-134 | every store of sections "p" and "g" is empty and indexed |
| Scenarios.PriorityScenario | model/policy.go:223-251 | adding (alice, data, read, 20) and then (bob, data, write, 10) stores bob first |
| Scenarios.AffectedScenario | model/policy.go:260-279 | a batch add of a stored rule and a new one reports only the new one and stores each once |
| Scenarios.AtomicityScenario | model/policy.go:325-363 | with a, b, c stored, replacing a, b, x where x is absent fails and leaves a, b, c |
| Scenarios.ChainedRun | model/policy.go:345-361 | with only a stored, the update loop over a, a2, x and a2, a3, x2 moves slot 0 to a2 and then a3, recording the second pair, and stops at x; that batch is not safe |
| Scenarios.ChainedRollback | model/policy.go:331-341 | the rollback of that state writes a2, the old rule of the pair recorded last, back into slot 0 |
| Scenarios.ChainedScenario | model/policy.go:325-363 | that call fails and leaves a2 where a was: the rollback does not restore the store |
| Scenarios.ChainedModelScenario | model/policy.go:325-363 | the same call made through the model map also fails and leaves a2 where a was |
| Scenarios.FilterScenario | model/policy.go:395-428 | removing the two rules that match "write" from four leaves the other two in order, indexed 0 and 1 |
| Scenarios.BarrierDigits | model/policy.go:238 | Atoi meets the parser assumptions of Priority.UnparsedBarrier, so the barrier occurs with the store's own parser |

## Left out

- The role-link operations (`BuildIncrementalRoleLinks`, `BuildRoleLinks` and their conditional variants, model/policy.go:38-90) are left out. They drive role managers, which are outside this model.
- `PrintPolicy` (model/policy.go:93-121) is left out, because it only logs.
- `GetValuesForFieldInPolicyAllTypes` and `GetValuesForFieldInPolicyAllTypesByName` (model/policy.go:448-485) are left out.
- `GetAssertion` lives in model/model.go, which is not part of this model. It is modelled as the two lookup failures (missing section, missing rule type), and error messages are reduced to the `Policy.Error` datatype.
- The `Assertion` type comes from model/assertion.go, which is not part of this model. It is modelled with the four fields the store uses.
- Assertions.RemoveDuplicates: the repository's duplicate-removal helper in util is not part of this model. Only its promise is stated: the same values, each once. The order it leaves is not stated.
- Strconv.Atoi: only the outcome and the value are modelled, not Go's error values. `Priority` takes the parser as a parameter.
- Panics on a missing column or an index out of range become preconditions, such as `Insertable`, `HasColumn`, `MatchSafe` and the field-index bound.
- Valid() as a precondition: most mutators require the index invariant as their class invariant. The code itself needs only that the mapped positions are in range. AddPolicy does not require it, because adding a duplicate rule breaks it (`RuleKeys.DuplicateBreaksIndex`).
- Assertions.Assertion.AddPoliciesWithAffected: it requires every stored rule and every input rule to have the priority column. Go only reads the columns that the scan reaches.
- Assertions.Assertion.AddPolicy: when the rule's key is already stored, the new index is not stated.
- Assertions.Assertion.UpdatePolicy: when the new key belongs to another stored rule, the new list and map are stated, but the store is no longer indexed. The code does not guard against this.
- Assertions.Assertion.UpdatePolicies: it requires at least as many new rules as old ones. The code reads `newRules` only for an old rule it has found, so it panics only when a found old rule has no partner. A call such as `UpdatePolicies([x], [])` with `x` not stored returns false in Go, but it is outside the model. The same precondition is on Policy.UpdatePolicies.
- Assertions.Assertion.UpdatePolicies: after a failed batch that is not safe, the index is not stated, only the list. The index depends on the order in which the rollback visits the record.
- Policy.UpdatePolicies: after a failed batch that is not safe, the index is not stated either, for the same reason.
- Assertions.Assertion.RemoveFilteredPolicy: when the stored keys are not distinct, the rebuilt index is not stated.
- Assertions.Assertion.SplitByFilter: the new index is built in a local map and stored once the loop ends, where the code clears the field first and fills it in place; nothing reads it in between, so the final state is the same.
- Go map iteration order is unspecified. The rollback and `ClearPolicy` visit entries in an arbitrary order, picked with `:|`.
- The live rule slices that Go returns to callers are not modelled: rules are values here. Concurrency is left out too.
