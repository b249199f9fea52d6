/**
 * Clients of the skip list: the node check of basic_function_test.cc and small
 * runs of the list whose outcomes follow from the contracts of module Skiplist.
 */
module Scenarios {
  import opened Skiplist

  /** A node built with key 1 and value "abc" reports them, and SetValue replaces the value. */
  method NodeOperation() returns (key: int, before: string, after: string)
    ensures key == 1 && before == "abc" && after == "aaa"
  {
    var node := new Node<string>(1, "abc", 2);
    key := node.GetKey();
    before := node.GetValue();
    node.SetValue("aaa");
    after := node.GetValue();
  }

  /** A key inserted into a list that lacks it is found afterwards with the inserted value. */
  method InsertThenSearch<V(0)>(list: SkipList<V>, key: int, value: V, value0: V, flips: seq<bool>)
      returns (inserted: bool, found: bool, result: V)
    requires list.Valid() && key !in list.Contents()
    modifies list
    ensures inserted && found && result == value
  {
    inserted := list.InsertElement(key, value, flips);
    found, result := list.SearchElement(key, value0);
  }

  /** Inserting a key that is present is refused and leaves the stored value in place. */
  method InsertTwice<V(0)>(list: SkipList<V>, key: int, first: V, second: V, value0: V, flips: seq<bool>)
      returns (again: bool, result: V)
    requires list.Valid() && key !in list.Contents()
    modifies list
    ensures !again && result == first
  {
    var inserted := list.InsertElement(key, first, flips);
    again := list.InsertElement(key, second, flips);
    var found;
    found, result := list.SearchElement(key, value0);
  }

  /**
   * A list of height 6: inserting 1 ↦ "abc" succeeds and counts one element, 2 is
   * not found, 1 is found with "abc", and inserting 1 ↦ "xyz" is refused, after
   * which 1 is still found with "abc".
   */
  method Session() returns (first: bool, countAfterFirst: int, found2: bool, found1: bool, value1: string,
                            second: bool, countAfterSecond: int, stillFound: bool, stillValue: string)
    ensures first && countAfterFirst == 1
    ensures !found2
    ensures found1 && value1 == "abc"
    ensures !second && countAfterSecond == 1
    ensures stillFound && stillValue == "abc"
  {
    var list := new SkipList<string>(6);
    first := list.InsertElement(1, "abc", [true, false]);
    countAfterFirst := list.GetElementCount();
    var ignored;
    found2, ignored := list.SearchElement(2, "");
    found1, value1 := list.SearchElement(1, "");
    second := list.InsertElement(1, "xyz", [true, true, true]);
    countAfterSecond := list.GetElementCount();
    stillFound, stillValue := list.SearchElement(1, "");
  }
}
