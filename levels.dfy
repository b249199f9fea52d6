/**
 * The level draw of skiplist.hpp (GetRandomLevel) and the tower indexing that
 * uses it. rand() is replaced by a sequence of coin flips supplied by the caller:
 * flips[t] is the outcome of the t-th `rand() % 2 != 0`. A run of flips that ends
 * before a false one stops the draw as a false flip would.
 */
module Levels {

  function Max(a: int, b: int): int
  {
    if a < b then b else a
  }

  /** The number of leading true flips: how often the draw went one level up before stopping. */
  function LeadingHeads(flips: seq<bool>): (c: nat)
    ensures c <= |flips|
    ensures forall s :: 0 <= s < c ==> flips[s]
    ensures c < |flips| ==> !flips[c]
  {
    if flips == [] || !flips[0] then 0 else 1 + LeadingHeads(flips[1..])
  }

  /** The level GetRandomLevel returns: one plus the leading heads, capped at maxLevel. */
  function DrawnLevel(flips: seq<bool>, maxLevel: int): int
  {
    var k := 1 + LeadingHeads(flips);
    if k < maxLevel then k else maxLevel
  }

  /** A position t that ends a run of heads at a tail (or at the end) is the number of leading heads. */
  lemma LeadingHeadsIsCount(flips: seq<bool>, t: int)
    requires 0 <= t <= |flips|
    requires forall s :: 0 <= s < t ==> flips[s]
    requires t < |flips| ==> !flips[t]
    ensures LeadingHeads(flips) == t
  {
  }

  /** With maxLevel at least 1, the drawn level lies in [1, maxLevel]. */
  lemma DrawnLevelBounds(flips: seq<bool>, maxLevel: int)
    requires maxLevel >= 1
    ensures 1 <= DrawnLevel(flips, maxLevel) <= maxLevel
  {
  }

  /**
   * The splice loop of InsertElement writes the slots 0 .. top of the new node's
   * tower, of update and of the header's tower (skiplist.hpp:140-142). The new
   * tower has towerSize slots (skiplist.hpp:138 with skiplist.hpp:15); update and
   * the header's tower have maxLevel (skiplist.hpp:107, 72). The writes stay in
   * bounds exactly when top is a slot of all three.
   */
  predicate SpliceInBounds(top: int, towerSize: int, maxLevel: int)
  {
    0 <= top && top < towerSize && top < maxLevel
  }

  /**
   * As written, the drawn level d is both the top slot the loop writes and the
   * size of the new tower: whatever the draw, slot d is written one past the end.
   */
  lemma AsWrittenSpliceOverruns(flips: seq<bool>, maxLevel: int)
    requires maxLevel >= 1
    ensures var d := DrawnLevel(flips, maxLevel); !SpliceInBounds(d, d, maxLevel)
  {
  }

  /**
   * As written, a draw of max_level_ also overruns update and the header's tower:
   * with every flip heads the drawn level is maxLevel, and the loop writes slot
   * maxLevel of the maxLevel-slot header and of update (skiplist.hpp:132, 142).
   */
  lemma AsWrittenTopDrawOverrunsHeader(maxLevel: int)
    requires maxLevel >= 1
    ensures var d := DrawnLevel(seq(maxLevel, _ => true), maxLevel);
      d == maxLevel && !SpliceInBounds(d, maxLevel + 1, maxLevel)
  {
    var flips := seq(maxLevel, _ => true);
    LeadingHeadsIsCount(flips, maxLevel);
  }

  /**
   * With the intended indexing the top level is random_level = d - 1 and the new
   * tower has d = random_level + 1 slots: every draw stays in bounds.
   */
  lemma CorrectedSpliceInBounds(flips: seq<bool>, maxLevel: int)
    requires maxLevel >= 1
    ensures var d := DrawnLevel(flips, maxLevel); SpliceInBounds(d - 1, d, maxLevel)
  {
    DrawnLevelBounds(flips, maxLevel);
  }
}
