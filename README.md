# Skip list key-value store, modelled in Dafny

This project models the skip list engine in `skiplist.hpp`. It covers:

- the `Node` entry with its key, its value and its tower of forward links;
- the `SkipList` class with its header sentinel, its current level and its element count;
- `InsertElement`, which rejects a duplicate key, draws a level, raises the current level, splices the new node in and counts it;
- `SearchElement`;
- `GetElementCount`;
- the level draw `GetRandomLevel`.

The list is a class whose fields the operations update in place. Nodes live in an arena of handles. Node `n` has key `keys[n]`, value `vals[n]` and tower `next[n]`. Handle 0 is the header, and `Null` (-1) is a null link. Keys are integers.

The class invariant is `Towers.WellFormed`. It says that every slot `next[n][i]` holds the first node of level `i` after `n` in key order (or `Null`). It also says that keys are distinct, and that every real node has between 1 and `currentLevel + 1` slots while the header has `maxLevel`. From this invariant the model proves the following:

- following the links of any level visits exactly the nodes of that level, in strictly increasing key order;
- every key on level `i > 0` is also on level `i - 1`;
- the element count is the number of level-0 nodes;
- a search answers exactly for the abstract map `Contents()`;
- a successful insert adds exactly `key ↦ value` to the map, puts the key on exactly the levels `0 .. random_level`, and sets the current level to `max(old, random_level)`;
- a duplicate insert returns false and changes nothing.

`rand()` is replaced by a caller-supplied sequence `flips` of the outcomes of `rand() % 2 != 0`.

The tower indexing follows the evidently intended design rather than the code as written; see "## Findings". In the model, the drawn level `d` (1 .. `maxLevel`) becomes the top level `random_level = d - 1`, and the new tower has `d` slots.

## Model

| member | source | states |
|---|---|---|
| Skiplist.Node.constructor | skiplist.hpp:14-17 | a node keeps its key and value, and its tower has `level` slots, all null |
| Skiplist.Node.GetKey | skiplist.hpp:21 | returns the key the constructor stored |
| Skiplist.Node.GetValue | skiplist.hpp:22 | returns the value last stored by the constructor or SetValue |
| Skiplist.Node.SetValue | skiplist.hpp:23 | the value is replaced and the tower is untouched |
| Skiplist.SkipList.constructor | skiplist.hpp:64-73 | an empty list: level 0, count 0, a header of `maxLevel` null slots, empty contents, the invariant holds |
| Skiplist.SkipList.GetElementCount | skiplist.hpp:47 | the count equals the number of keys in the map and the length of the level-0 walk |
| Skiplist.SkipList.WalkLevel | skiplist.hpp:112-115 | the inner walk stops on the predecessor of key on level i, whose successor is null or has a key of at least key |
| Skiplist.SkipList.FindPredecessors | skiplist.hpp:104-117 | the descending sweep records in update[i] the predecessor of key on every level 0 .. currentLevel |
| Skiplist.SkipList.SearchElement | skiplist.hpp:171-188 | found exactly when key is in the map; on a hit the value is key's value, on a miss the caller's variable is left as it was |
| Skiplist.SkipList.GetRandomLevel | skiplist.hpp:196-203 | the result is one plus the number of leading heads, capped at maxLevel |
| Skiplist.SkipList.ExtendWithHeader | skiplist.hpp:130-133 | above the current level the header is the predecessor, and update is extended with it up to random_level |
| Skiplist.SkipList.SpliceNewNode | skiplist.hpp:138-145 | a node with key and value is appended, the links become exactly `Spliced` of the old ones, and the count grows by one |
| Skiplist.SkipList.LinkAbsent | skiplist.hpp:137-145 | splicing a fresh key behind its predecessors keeps the invariant, adds key ↦ value to the map and adds key to exactly levels 0 .. random_level |
| Skiplist.SkipList.InsertAbsent | skiplist.hpp:127-146 | after the draw, the current level becomes max(old, random_level), the map gains key ↦ value, the count grows by one, and key joins exactly the drawn levels |
| Skiplist.SkipList.InsertElement | skiplist.hpp:101-149 | returns true exactly when key was absent; a duplicate changes nothing; otherwise the effects of InsertAbsent; the invariant holds afterwards |
| Levels.LeadingHeads | skiplist.hpp:197-200 | the count of leading true flips: all flips before it are true and the one at it (if any) is false |
| Levels.LeadingHeadsIsCount | skiplist.hpp:197-200 | a run of heads ended by a tail or by the end of the flips has the length LeadingHeads returns |
| Levels.DrawnLevelBounds | skiplist.hpp:196-203 | the drawn level lies in 1 .. maxLevel |
| Levels.AsWrittenSpliceOverruns | skiplist.hpp:138-142 | with the tower sized and indexed by the drawn level as written, the splice writes out of bounds for every draw |
| Levels.AsWrittenTopDrawOverrunsHeader | skiplist.hpp:130-142 | when every flip is heads the drawn level is maxLevel, and the splice as written then writes slot maxLevel of update and of the maxLevel-slot header |
| Levels.CorrectedSpliceInBounds | skiplist.hpp:138-142 | with top level d - 1 and a tower of d slots, every draw stays in bounds |
| Towers.Spliced | skiplist.hpp:140-143 | the links after the splice: the new node has h slots, and every other tower keeps its length |
| Towers.StopIsPredecessor | skiplist.hpp:112-116 | a walk that stops at a null link or at a key of at least key has found key's predecessor on that level |
| Towers.RaiseCurrentLevel | skiplist.hpp:134 | raising the current level below maxLevel keeps the invariant |
| Towers.HeaderIsPredecessorAboveTop | skiplist.hpp:131-133 | on a level above the current one the header is the predecessor of any key |
| Towers.PredecessorDecidesMembership | skiplist.hpp:120-125 | key is in the map exactly when the level-0 successor of its predecessor carries key, and that node then holds key's value |
| Towers.SpliceNewNodeLink | skiplist.hpp:141 | each slot of the new node links to the next node of its level after the new key |
| Towers.SplicePredecessorLink | skiplist.hpp:142 | each predecessor's slot links to the new node, which is the next node after it |
| Towers.SpliceOtherLink | skiplist.hpp:140-143 | every slot the splice does not touch still links to the next node of its level |
| Towers.SplicePreservesWellFormed | skiplist.hpp:137-143 | splicing a fresh key behind its predecessors keeps the invariant |
| Towers.SpliceLevels | skiplist.hpp:140-143 | the splice adds the new key to levels 0 .. h-1 and to no other level |
| Towers.AfterStep | skiplist.hpp:112-114 | the nodes after n on a level are n's successor and the nodes after it, all with larger keys |
| Towers.ChainEnumerates | skiplist.hpp:112-114 | following a level's links visits exactly the nodes of that level after the start, each once, in strictly increasing key order |
| Towers.LevelKeysEnumerateLevel | skiplist.hpp:111-115 | each level's walk from the header is strictly increasing and holds exactly that level's keys; level 0 holds every node |
| Towers.LevelSublist | skiplist.hpp:140-143 | every key on level i > 0 is on level i - 1 |
| Towers.LevelZeroIsDomain | skiplist.hpp:120-123 | the keys on level 0 are exactly the keys of the map |
| Towers.AbstractionAppend | skiplist.hpp:138 | appending a node with a fresh key adds exactly key ↦ value to the map, and the keys stay distinct |
| Towers.AbstractionSize | skiplist.hpp:145 | the map has one entry per real node, which is what element_count_ counts |
| Towers.InsertSplice | skiplist.hpp:127-146 | raising the level and splicing a fresh key keeps the invariant, adds exactly key ↦ value, and adds key to exactly levels 0 .. h-1 |
| Scenarios.NodeOperation | basic_function_test.cc:5-11 | a node built with 1 and "abc" reports them, and after SetValue("aaa") reports "aaa" |
| Scenarios.InsertThenSearch | skiplist.hpp:44-45 | a key inserted into a list without it is then found with the inserted value |
| Scenarios.InsertTwice | skiplist.hpp:40-44 | a second insert of the same key returns false and the first value stays |
| Scenarios.Session | skiplist.hpp:44-47 | on a list of height 6: insert 1 succeeds with count 1, 2 is absent, 1 is found with "abc", a second insert of 1 fails, the count stays 1 and 1 is still found with "abc" |

## Left out

- The mutex (skiplist.hpp:60, 102): the model is sequential, so locking is not modelled.
- `rand()`: it is replaced by the `flips` parameter. The geometric distribution of levels is not modelled.
- DeleteElement (skiplist.hpp:46) is declared but has no definition, so there is nothing to model.
- The destructors and memory management (skiplist.hpp:18, 75-79): they are not modelled. As written, `~SkipList` frees only the header and the other nodes leak.
- Keys are `int` rather than any type with `<` and `==`.
- Values need a default (`V(0)`), which stands in for the default-constructed `V v` of the header.
- Nodes in the list are arena handles, not `Node` objects. Aliasing of node pointers is captured only through handles. `Skiplist.Node` models the entry class on its own, as the node test uses it.
- Skiplist.SkipList.InsertElement: it does not reproduce the out-of-bounds writes of the code as written (see "## Findings"). It uses the intended indexing instead.
- The header's key and value are arbitrary, like the default-constructed ones in the source. They are never compared or returned.
- Skiplist.SkipList.constructor: it requires `maxLevel >= 1`, but skiplist.hpp:64-73 accepts any int. With a negative value, the header allocation at skiplist.hpp:15 fails. With zero, the first insert or search reads `header_->levels_[0]` out of bounds (skiplist.hpp:112, 176). The model does not capture either failure.
- `element_count_`, `current_level_` and GetRandomLevel's `k` are 32-bit `int` in the source, but the model uses unbounded integers. Overflow of the count, or of `k` after more than 2^31 heads, is not modelled.

## Findings

| source | as written | input that shows it | evidently intended | confidence | as-written member | corrected member |
|---|---|---|---|---|---|---|
| skiplist.hpp:138-142 | `CreateNode(key, value, random_level)` allocates `random_level` slots (skiplist.hpp:15), but the loop writes `levels_[0 .. random_level]`. When `random_level == max_level_`, it also writes `update[max_level_]` and `header_->levels_[max_level_]`, and raises `current_level_` to `max_level_`, so the next sweep reads `header_->levels_[max_level_]` (skiplist.hpp:111-112) | any insert of a fresh key, e.g. the first `rand()` odd and the second even: `random_level` is 2, the tower has 2 slots, and slot 2 is written; with `max_level_` odd results in a row, `random_level` is `max_level_`, and slot `max_level_` of `update` and of the header is written too (Levels.AsWrittenTopDrawOverrunsHeader) | the top level is one below the drawn level, so the tower has `random_level + 1` slots and `random_level <= max_level_ - 1` | not executed | Levels.AsWrittenSpliceOverruns | Levels.CorrectedSpliceInBounds |
