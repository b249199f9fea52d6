/**
 * The skip list engine of skiplist.hpp: the Node entry with its accessors, the
 * level draw, and the SkipList class with InsertElement, SearchElement and
 * GetElementCount.
 *
 * Keys are integers (the source is a template over any key type with `<` and
 * `==`); values are of any type V with a default value, which the header holds.
 * The list keeps its nodes in an arena of handles (see module Towers): the key,
 * value and tower of node n are keys[n], vals[n] and next[n], handle 0 is
 * header_, and a tower slot holding Null is a null pointer.
 *
 * Indexing. As written, GetRandomLevel returns a level in [1, max_level_]
 * (skiplist.hpp:196-203), CreateNode(key, value, random_level) allocates a tower
 * of random_level slots (skiplist.hpp:15, 138), and the splice loop writes the
 * slots 0 .. random_level (skiplist.hpp:140-142): one past the end of the new
 * tower, and, when random_level == max_level_, past the end of update and of the
 * header's tower too (skiplist.hpp:131-132, 142); the next sweep then starts by
 * reading header_->levels_[max_level_] (skiplist.hpp:111-112). This model uses the
 * evidently intended indexing instead: the drawn level d is turned into the top
 * level random_level = d - 1, so 0 <= random_level <= maxLevel - 1, the new tower
 * has random_level + 1 slots, and currentLevel <= maxLevel - 1 is part of the
 * class invariant. Module Levels states the discrepancy and the corrected bound.
 */
module Skiplist {
  import opened Towers
  import opened Levels

  /** A key-value entry and its tower of forward links (slot i: the successor on level i). */
  class Node<V> {
    const key: int
    var value: V
    var levels: seq<int>

    /** A node of the given height: every slot of its tower starts null. */
    constructor (key: int, value: V, level: nat)
      ensures this.key == key && this.value == value
      ensures levels == seq(level, _ => Null)
    {
      this.key := key;
      this.value := value;
      this.levels := seq(level, _ => Null);
    }

    /** The key the node was built with. */
    function GetKey(): (k: int)
      ensures k == key
    {
      key
    }

    /** The value last stored, by the constructor or by SetValue. */
    function GetValue(): (v: V)
      reads this
      ensures v == value
    {
      value
    }

    /** Replaces the value; the key and the tower stay as they are. */
    method SetValue(value: V)
      modifies this
      ensures this.value == value && levels == old(levels)
    {
      this.value := value;
    }
  }

  class SkipList<V(0)> {
    /** The capacity of every tower, fixed at construction. */
    const maxLevel: int
    /** The highest level in use. */
    var currentLevel: int
    var elementCount: int
    /** The node arena: node n has key keys[n], value vals[n] and tower next[n]; node 0 is the header. */
    var keys: seq<int>
    var vals: seq<V>
    var next: seq<seq<int>>

    ghost predicate Valid()
      reads this
    {
      WellFormed(keys, next, maxLevel, currentLevel) &&
      |vals| == |keys| && elementCount == |keys| - 1
    }

    /** The key-value pairs the list holds. */
    ghost function Contents(): map<int, V>
      reads this
      requires Valid()
    {
      Abstraction(keys, vals)
    }

    /** The keys of the nodes on level i, in the order level i's links visit them. */
    ghost function LevelKeysAt(i: int): seq<int>
      reads this
      requires Valid()
    {
      LevelKeys(keys, next, i)
    }

    /** The set of keys on level i. */
    ghost function KeysAt(i: int): set<int>
      reads this
      requires Valid()
    {
      LevelKeySet(keys, next, i)
    }

    /** An empty list: a header whose maxLevel slots are all null, level 0, no element. */
    constructor (maxLevel: int)
      requires maxLevel >= 1
      ensures Valid() && this.maxLevel == maxLevel
      ensures currentLevel == 0 && elementCount == 0
      ensures next == [seq(maxLevel, _ => Null)]
      ensures Contents() == map[]
    {
      this.maxLevel := maxLevel;
      currentLevel := 0;
      elementCount := 0;
      var k: int := *;
      var v: V := *;
      keys := [k];
      vals := [v];
      next := [seq(maxLevel, _ => Null)];
    }

    function GetElementCount(): (count: int)
      reads this
      requires Valid()
      ensures count == |Contents()|
      ensures count == |LevelKeysAt(0)|
    {
      AbstractionSize(keys, vals);
      LevelKeysEnumerateLevel(keys, next, maxLevel, currentLevel, 0);
      elementCount
    }

    /**
     * Advance along level i from start while the next key is below key: the inner
     * loop of the descending sweep. It stops on key's predecessor on level i.
     */
    method WalkLevel(start: int, i: int, key: int) returns (current: int)
      requires Valid()
      requires 0 <= start < |next| && 0 <= i < |next[start]| && (start == Header || keys[start] < key)
      ensures IsPredecessor(keys, next, current, i, key)
      ensures next[current][i] == Null || keys[next[current][i]] >= key
    {
      current := start;
      while next[current][i] != Null && keys[next[current][i]] < key
        invariant 0 <= current < |next| && i < |next[current]|
        invariant current == Header || keys[current] < key
        decreases if current == Header then 1 else 0, key - keys[current]
      {
        assert IsSuccessor(keys, next, current, i, next[current][i]);
        current := next[current][i];
      }
      assert IsSuccessor(keys, next, current, i, next[current][i]);
      StopIsPredecessor(keys, next, maxLevel, currentLevel, current, i, key);
    }

    /**
     * The descending sweep of InsertElement: from currentLevel down to 0, record in
     * update[i] the last node of level i whose key is below key (or the header).
     */
    method FindPredecessors(key: int) returns (update: seq<int>)
      requires Valid()
      ensures |update| == currentLevel + 1
      ensures forall i :: 0 <= i < |update| ==> IsPredecessor(keys, next, update[i], i, key)
    {
      var current := Header;
      update := seq(currentLevel + 1, _ => Null);
      var i := currentLevel;
      while i >= 0
        invariant -1 <= i <= currentLevel && |update| == currentLevel + 1
        invariant 0 <= current < |next| && i < |next[current]|
        invariant current == Header || keys[current] < key
        invariant forall j :: i < j <= currentLevel ==> IsPredecessor(keys, next, update[j], j, key)
      {
        current := WalkLevel(current, i, key);
        update := update[i := current];
        i := i - 1;
      }
    }

    /**
     * Looks key up. On a hit, value is the stored value; on a miss it is value0, the
     * caller's variable left as it was.
     */
    method SearchElement(key: int, value0: V) returns (found: bool, value: V)
      requires Valid()
      ensures found <==> key in Contents()
      ensures found ==> value == Contents()[key]
      ensures !found ==> value == value0
    {
      var current := Header;
      var i := currentLevel;
      while i >= 0
        invariant -1 <= i <= currentLevel
        invariant 0 <= current < |next| && i < |next[current]|
        invariant current == Header || keys[current] < key
        invariant i < currentLevel ==> IsPredecessor(keys, next, current, i + 1, key)
      {
        current := WalkLevel(current, i, key);
        i := i - 1;
      }
      PredecessorDecidesMembership(keys, vals, next, maxLevel, currentLevel, current, key);
      current := next[current][0];
      if current != Null && keys[current] == key {
        found, value := true, vals[current];
      } else {
        found, value := false, value0;
      }
    }

    /** The level draw of the source, with the outcomes of rand() % 2 != 0 supplied as flips. */
    method GetRandomLevel(flips: seq<bool>) returns (k: int)
      ensures k == DrawnLevel(flips, maxLevel)
    {
      k := 1;
      var t := 0;
      while t < |flips| && flips[t]
        invariant 0 <= t <= |flips| && k == t + 1
        invariant forall s :: 0 <= s < t ==> flips[s]
      {
        k := k + 1;
        t := t + 1;
      }
      LeadingHeadsIsCount(flips, t);
      k := if k < maxLevel then k else maxLevel;
    }

    /**
     * CreateNode, the splice loop and the count update of InsertElement: append a
     * node of height randomLevel + 1 and, on every level i up to randomLevel, link
     * it between update[i] and update[i]'s successor. What the splice does to the
     * levels and the contents is proved about Spliced in module Towers.
     */
    method SpliceNewNode(key: int, value: V, update: seq<int>, randomLevel: int)
      requires |vals| == |keys| == |next|
      requires 0 <= randomLevel < |update|
      requires forall j :: 0 <= j <= randomLevel ==> 0 <= update[j] < |next| && j < |next[update[j]]|
      modifies this
      ensures keys == old(keys) + [key] && vals == old(vals) + [value]
      ensures next == Spliced(old(next), update, randomLevel + 1)
      ensures elementCount == old(elementCount) + 1 && currentLevel == old(currentLevel)
    {
      ghost var next0 := next;
      var newNode := |keys|;
      keys := keys + [key];
      vals := vals + [value];
      next := next + [seq(randomLevel + 1, _ => Null)];
      var i := 0;
      while i <= randomLevel
        invariant 0 <= i <= randomLevel + 1
        invariant keys == old(keys) + [key] && vals == old(vals) + [value]
        invariant elementCount == old(elementCount) && currentLevel == old(currentLevel)
        invariant |next| == |next0| + 1 && |next[newNode]| == randomLevel + 1
        invariant forall n :: 0 <= n < |next0| ==> |next[n]| == |next0[n]|
        invariant forall n, j :: 0 <= n < |next0| && 0 <= j < |next0[n]| ==>
          next[n][j] == if j < i && update[j] == n then newNode else next0[n][j]
        invariant forall j :: 0 <= j <= randomLevel ==>
          next[newNode][j] == if j < i then next0[update[j]][j] else Null
      {
        next := next[newNode := next[newNode][i := next[update[i]][i]]];
        next := next[update[i] := next[update[i]][i := newNode]];
        i := i + 1;
      }
      SplicedBySlots(next0, next, update, randomLevel + 1);
      elementCount := elementCount + 1;
    }

    /**
     * The raising step of InsertElement: when the new node reaches above the current
     * level, the header is the predecessor on every level from currentLevel + 1 up
     * to randomLevel, and update is extended with it.
     */
    method ExtendWithHeader(key: int, update: seq<int>, randomLevel: int) returns (update': seq<int>)
      requires Valid()
      requires currentLevel < randomLevel < maxLevel && |update| == currentLevel + 1
      requires forall j :: 0 <= j < |update| ==> IsPredecessor(keys, next, update[j], j, key)
      ensures |update'| == randomLevel + 1 && update'[..|update|] == update
      ensures forall j :: |update| <= j < |update'| ==> update'[j] == Header
      ensures forall j :: 0 <= j < |update'| ==> IsPredecessor(keys, next, update'[j], j, key)
    {
      update' := update;
      var i := currentLevel + 1;
      while i < randomLevel + 1
        invariant currentLevel + 1 <= i <= randomLevel + 1 && |update'| == i
        invariant update'[..|update|] == update
        invariant forall j :: |update| <= j < i ==> update'[j] == Header
        invariant forall j :: 0 <= j < i ==> IsPredecessor(keys, next, update'[j], j, key)
      {
        HeaderIsPredecessorAboveTop(keys, next, maxLevel, currentLevel, i, key);
        update' := update' + [Header];
        i := i + 1;
      }
    }

    /**
     * The splice of a fresh key behind its predecessors on the levels 0 .. randomLevel,
     * with what it does to the list: the invariant is kept, the contents gain
     * key with value, and key joins exactly those levels.
     */
    method LinkAbsent(key: int, value: V, update: seq<int>, randomLevel: int)
      requires Valid() && key !in Contents()
      requires 0 <= randomLevel <= currentLevel && randomLevel < |update|
      requires forall j :: 0 <= j <= randomLevel ==> IsPredecessor(keys, next, update[j], j, key)
      modifies this
      ensures Valid()
      ensures Contents() == old(Contents())[key := value]
      ensures elementCount == old(elementCount) + 1 && currentLevel == old(currentLevel)
      ensures forall i :: KeysAt(i) == if 0 <= i <= randomLevel then old(KeysAt(i)) + {key} else old(KeysAt(i))
    {
      ghost var keys0, vals0, next0 := keys, vals, next;
      SpliceNewNode(key, value, update, randomLevel);
      InsertSplice(keys0, vals0, next0, maxLevel, currentLevel, currentLevel, update, randomLevel + 1, key, value,
                   keys, vals, next);
    }

    /**
     * InsertElement once the sweep has found key absent: draw the level, raise the
     * current level if the new node reaches above it, splice the node in and count it.
     */
    method InsertAbsent(key: int, value: V, update: seq<int>, flips: seq<bool>)
      requires Valid() && key !in Contents()
      requires |update| == currentLevel + 1
      requires forall j :: 0 <= j < |update| ==> IsPredecessor(keys, next, update[j], j, key)
      modifies this
      ensures Valid()
      ensures Contents() == old(Contents())[key := value]
      ensures elementCount == old(elementCount) + 1
      ensures currentLevel == Max(old(currentLevel), DrawnLevel(flips, maxLevel) - 1)
      ensures forall i :: 0 <= i < maxLevel ==>
        KeysAt(i) == if i < DrawnLevel(flips, maxLevel) then old(KeysAt(i)) + {key} else old(KeysAt(i))
    {
      var drawn := GetRandomLevel(flips);
      CorrectedSpliceInBounds(flips, maxLevel);
      var randomLevel := drawn - 1;
      var levels := update;
      if randomLevel > currentLevel {
        levels := ExtendWithHeader(key, update, randomLevel);
        RaiseCurrentLevel(keys, next, maxLevel, currentLevel, randomLevel);
        currentLevel := randomLevel;
      }
      LinkAbsent(key, value, levels, randomLevel);
    }

    /**
     * Inserts key with value unless key is already present. The level of the new
     * node comes from GetRandomLevel(flips), turned into a top level as explained
     * at the head of this module.
     */
    method InsertElement(key: int, value: V, flips: seq<bool>) returns (inserted: bool)
      requires Valid()
      modifies this
      ensures Valid()
      ensures inserted <==> key !in old(Contents())
      ensures !inserted ==> unchanged(this)
      ensures inserted ==> Contents() == old(Contents())[key := value]
      ensures inserted ==> elementCount == old(elementCount) + 1
      ensures inserted ==> currentLevel == Max(old(currentLevel), DrawnLevel(flips, maxLevel) - 1)
      ensures inserted ==> forall i :: 0 <= i < maxLevel ==>
        KeysAt(i) == if i < DrawnLevel(flips, maxLevel) then old(KeysAt(i)) + {key} else old(KeysAt(i))
    {
      var update := FindPredecessors(key);
      PredecessorDecidesMembership(keys, vals, next, maxLevel, currentLevel, update[0], key);
      var candidate := next[update[0]][0];
      if candidate != Null && keys[candidate] == key {
        return false;
      }
      InsertAbsent(key, value, update, flips);
      return true;
    }
  }
}
