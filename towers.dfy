/**
 * The pointer structure of the skip list in skiplist.hpp, seen as values.
 *
 * Nodes live in an arena and are named by their handle (an index): handle 0 is
 * the header sentinel, handles 1.. are the real nodes in allocation order, and
 * Null (-1) is the null pointer. `keys[n]` is node n's key and `next[n]` its
 * tower: `next[n][i]` is node n's successor on level i, and `|next[n]|` is the
 * number of levels n takes part in. The header's key is never compared.
 *
 * The structural invariant is WellFormed: every slot holds exactly the node that
 * follows its owner on that level, ordered by key. From it the lemmas below derive
 * what the source relies on: following the links of a level visits every node of
 * that level in strictly increasing key order, level i's keys are among level
 * i-1's, and splicing a new node behind the predecessors found by the descending
 * sweep keeps the invariant.
 */
module Towers {

  /** The null pointer in a tower slot. */
  const Null := -1
  /** Handle of the header sentinel. */
  const Header := 0

  /** Node n lies before node m in key order; the header lies before every node. */
  predicate Precedes(keys: seq<int>, n: int, m: int)
    requires 0 <= n < |keys| && 0 <= m < |keys|
  {
    n == Header || keys[n] < keys[m]
  }

  /** Real node m takes part in level i. */
  predicate OnLevel(next: seq<seq<int>>, m: int, i: int)
  {
    1 <= m < |next| && 0 <= i < |next[m]|
  }

  /**
   * s is what slot i of node n must hold: the first node of level i after n in key
   * order, or Null when no node of level i comes after n.
   */
  ghost predicate IsSuccessor(keys: seq<int>, next: seq<seq<int>>, n: int, i: int, s: int)
    requires |keys| == |next| && 0 <= n < |next|
  {
    if s == Null then
      forall m {:trigger OnLevel(next, m, i)} :: OnLevel(next, m, i) ==> !Precedes(keys, n, m)
    else
      OnLevel(next, s, i) && Precedes(keys, n, s) &&
      forall m {:trigger OnLevel(next, m, i)} :: OnLevel(next, m, i) && Precedes(keys, n, m) ==> keys[s] <= keys[m]
  }

  /** No two real nodes share a key. */
  predicate DistinctKeys(keys: seq<int>)
  {
    forall m, m' :: 1 <= m < m' < |keys| ==> keys[m] != keys[m']
  }

  /**
   * The skip list invariant: the header's tower has maxLevel slots, every real
   * node's tower has between 1 and currentLevel + 1 slots (so currentLevel is at
   * least the top level in use and below maxLevel), keys are distinct, and every
   * slot of every tower links to the next node of its level in key order.
   */
  ghost predicate WellFormed(keys: seq<int>, next: seq<seq<int>>, maxLevel: int, currentLevel: int)
  {
    |keys| == |next| >= 1 &&
    0 <= currentLevel < maxLevel && |next[Header]| == maxLevel &&
    (forall m :: 1 <= m < |next| ==> 1 <= |next[m]| <= currentLevel + 1) &&
    DistinctKeys(keys) &&
    forall n, i :: 0 <= n < |next| && 0 <= i < |next[n]| ==> IsSuccessor(keys, next, n, i, next[n][i])
  }

  /**
   * u is the predecessor of key on level i, as the descending sweep records it in
   * update[i]: u is on level i, u is the header or a node whose key is below key,
   * and no node of level i after u has a key below key.
   */
  ghost predicate IsPredecessor(keys: seq<int>, next: seq<seq<int>>, u: int, i: int, key: int)
    requires |keys| == |next|
  {
    0 <= u < |next| && 0 <= i < |next[u]| && (u == Header || keys[u] < key) &&
    forall m {:trigger OnLevel(next, m, i)} :: OnLevel(next, m, i) && keys[m] < key ==> !Precedes(keys, u, m)
  }

  /** The abstract content of the list: every real node's key mapped to its value. */
  ghost function Abstraction<V>(keys: seq<int>, vals: seq<V>): map<int, V>
    requires |keys| == |vals| && DistinctKeys(keys)
  {
    map m | 1 <= m < |keys| :: keys[m] := vals[m]
  }

  /** The keys of the real nodes on level i. */
  ghost function LevelKeySet(keys: seq<int>, next: seq<seq<int>>, i: int): set<int>
    requires |keys| == |next|
  {
    set m | 1 <= m < |next| && 0 <= i < |next[m]| :: keys[m]
  }

  /** The real nodes of level i that come after node n. */
  ghost function After(keys: seq<int>, next: seq<seq<int>>, n: int, i: int): set<int>
    requires |keys| == |next| && 0 <= n < |next|
  {
    set m | 1 <= m < |next| && 0 <= i < |next[m]| && Precedes(keys, n, m)
  }

  /**
   * The nodes visited by following level i's links from node n, at most fuel of
   * them; the walk stops at a null (or dangling) link.
   */
  ghost function Chain(next: seq<seq<int>>, n: int, i: int, fuel: nat): (c: seq<int>)
    ensures |c| <= fuel
    ensures forall p :: 0 <= p < |c| ==> 0 <= c[p] < |next|
    decreases fuel
  {
    if fuel == 0 || !(0 <= n < |next|) || !(0 <= i < |next[n]|) || !(0 <= next[n][i] < |next|) then []
    else [next[n][i]] + Chain(next, next[n][i], i, fuel - 1)
  }

  /** The keys met walking level i from the header, in walking order. */
  ghost function LevelKeys(keys: seq<int>, next: seq<seq<int>>, i: int): seq<int>
    requires |keys| == |next|
  {
    var c := Chain(next, Header, i, |next|);
    seq(|c|, p requires 0 <= p < |c| => keys[c[p]])
  }

  predicate StrictlyIncreasing(s: seq<int>)
  {
    forall p, q :: 0 <= p < q < |s| ==> s[p] < s[q]
  }

  /**
   * The next pointers after splicing a new node of height h (allocated as handle
   * |next|) behind update[j] on every level j < h: the new node's slot j takes
   * update[j]'s old successor and update[j]'s slot j points to the new node.
   */
  function Spliced(next: seq<seq<int>>, update: seq<int>, h: int): (r: seq<seq<int>>)
    requires 0 <= h <= |update|
    requires forall j :: 0 <= j < h ==> 0 <= update[j] < |next| && j < |next[update[j]]|
    ensures |r| == |next| + 1 && |r[|next|]| == h
    ensures forall n :: 0 <= n < |next| ==> |r[n]| == |next[n]|
  {
    seq(|next| + 1, n requires 0 <= n <= |next| =>
      if n == |next| then seq(h, j requires 0 <= j < h => next[update[j]][j])
      else seq(|next[n]|, j requires 0 <= j < |next[n]| => if j < h && update[j] == n then |next| else next[n][j]))
  }

  /** Spliced is determined slot by slot: the pointers a splice loop leaves behind equal it. */
  lemma SplicedBySlots(next: seq<seq<int>>, r: seq<seq<int>>, update: seq<int>, h: int)
    requires 0 <= h <= |update|
    requires forall j :: 0 <= j < h ==> 0 <= update[j] < |next| && j < |next[update[j]]|
    requires |r| == |next| + 1 && |r[|next|]| == h
    requires forall n :: 0 <= n < |next| ==> |r[n]| == |next[n]|
    requires forall n, j :: 0 <= n < |next| && 0 <= j < |next[n]| ==>
      r[n][j] == if j < h && update[j] == n then |next| else next[n][j]
    requires forall j :: 0 <= j < h ==> r[|next|][j] == next[update[j]][j]
    ensures r == Spliced(next, update, h)
  {
    var sp := Spliced(next, update, h);
    forall n | 0 <= n < |r| ensures r[n] == sp[n] {
      assert |r[n]| == |sp[n]|;
      forall j | 0 <= j < |r[n]| ensures r[n][j] == sp[n][j] {
        if n == |next| {
          assert r[n][j] == next[update[j]][j];
        } else {
          assert r[n][j] == if j < h && update[j] == n then |next| else next[n][j];
        }
      }
    }
  }

  // ---------------------------------------------------------------------------
  // The sweep

  /**
   * A walk on level i that starts on a node before key and stops at a slot that is
   * null or holds a key at least key has found key's predecessor on that level.
   */
  lemma StopIsPredecessor(keys: seq<int>, next: seq<seq<int>>, maxLevel: int, currentLevel: int,
                          u: int, i: int, key: int)
    requires WellFormed(keys, next, maxLevel, currentLevel)
    requires 0 <= u < |next| && 0 <= i < |next[u]| && (u == Header || keys[u] < key)
    requires next[u][i] == Null || (0 <= next[u][i] < |keys| && keys[next[u][i]] >= key)
    ensures IsPredecessor(keys, next, u, i, key)
  {
    var s := next[u][i];
    assert IsSuccessor(keys, next, u, i, s);
    forall m | OnLevel(next, m, i) && Precedes(keys, u, m)
      ensures keys[m] >= key
    {
      if s != Null {
        assert keys[s] <= keys[m];
      }
    }
  }

  /** currentLevel is only an upper bound on the levels in use: raising it below maxLevel keeps the invariant. */
  lemma RaiseCurrentLevel(keys: seq<int>, next: seq<seq<int>>, maxLevel: int, currentLevel: int, raised: int)
    requires WellFormed(keys, next, maxLevel, currentLevel)
    requires currentLevel <= raised < maxLevel
    ensures WellFormed(keys, next, maxLevel, raised)
  {
  }

  /** Above the current level nothing but the header is present, so the header is the predecessor there. */
  lemma HeaderIsPredecessorAboveTop(keys: seq<int>, next: seq<seq<int>>, maxLevel: int, currentLevel: int,
                                    i: int, key: int)
    requires WellFormed(keys, next, maxLevel, currentLevel)
    requires currentLevel < i < maxLevel
    ensures IsPredecessor(keys, next, Header, i, key)
  {
    forall m | 1 <= m < |next| ensures |next[m]| <= i {
      assert |next[m]| <= currentLevel + 1;
    }
  }

  /**
   * The predecessor of key on level 0 decides membership: key is in the list exactly
   * when the predecessor's level-0 successor carries key, and then it holds key's value.
   */
  lemma PredecessorDecidesMembership<V>(keys: seq<int>, vals: seq<V>, next: seq<seq<int>>,
                                        maxLevel: int, currentLevel: int, u: int, key: int)
    requires WellFormed(keys, next, maxLevel, currentLevel) && |vals| == |keys|
    requires IsPredecessor(keys, next, u, 0, key)
    ensures var s := next[u][0];
      (key in Abstraction(keys, vals) <==> s != Null && keys[s] == key) &&
      (s != Null && keys[s] == key ==> Abstraction(keys, vals)[key] == vals[s])
  {
    var s := next[u][0];
    var a := Abstraction(keys, vals);
    assert IsSuccessor(keys, next, u, 0, s);
    if s != Null {
      assert keys[s] in a && a[keys[s]] == vals[s];
    }
    if key in a {
      var m :| 1 <= m < |keys| && keys[m] == key;
      assert OnLevel(next, m, 0) && Precedes(keys, u, m);
      assert s != Null;
      assert keys[s] <= key;
      assert !(keys[s] < key);
    }
  }

  // ---------------------------------------------------------------------------
  // Splicing a new node

  lemma SpliceNewNodeLink(keys: seq<int>, next: seq<seq<int>>, maxLevel: int, currentLevel: int,
                          update: seq<int>, h: int, key: int, j: int)
    requires WellFormed(keys, next, maxLevel, currentLevel)
    requires 1 <= h <= currentLevel + 1 && h <= |update|
    requires forall j :: 0 <= j < h ==> IsPredecessor(keys, next, update[j], j, key)
    requires forall j :: 0 <= j < h ==> 0 <= update[j] < |next| && j < |next[update[j]]|
    requires forall m :: 1 <= m < |keys| ==> keys[m] != key
    requires 0 <= j < h
    ensures IsSuccessor(keys + [key], Spliced(next, update, h), |next|, j, next[update[j]][j])
  {
    var keys', r, N := keys + [key], Spliced(next, update, h), |next|;
    var u := update[j];
    var s := next[u][j];
    assert IsPredecessor(keys, next, u, j, key);
    assert IsSuccessor(keys, next, u, j, s);
    if s == Null {
      forall m | OnLevel(r, m, j) ensures !Precedes(keys', N, m) {
        if m < N {
          assert OnLevel(next, m, j);
        }
      }
    } else {
      assert OnLevel(next, s, j) && Precedes(keys, u, s);
      assert keys[s] != key && !(keys[s] < key);
      assert OnLevel(r, s, j);
      forall m | OnLevel(r, m, j) && Precedes(keys', N, m) ensures keys'[s] <= keys'[m] {
        assert m != N;
        assert OnLevel(next, m, j) && Precedes(keys, u, m);
      }
    }
  }

  lemma SplicePredecessorLink(keys: seq<int>, next: seq<seq<int>>, maxLevel: int, currentLevel: int,
                              update: seq<int>, h: int, key: int, j: int)
    requires WellFormed(keys, next, maxLevel, currentLevel)
    requires 1 <= h <= currentLevel + 1 && h <= |update|
    requires forall j :: 0 <= j < h ==> IsPredecessor(keys, next, update[j], j, key)
    requires forall j :: 0 <= j < h ==> 0 <= update[j] < |next| && j < |next[update[j]]|
    requires 0 <= j < h
    ensures IsSuccessor(keys + [key], Spliced(next, update, h), update[j], j, |next|)
  {
    var keys', r, N := keys + [key], Spliced(next, update, h), |next|;
    var u := update[j];
    assert IsPredecessor(keys, next, u, j, key);
    assert OnLevel(r, N, j);
    forall m | OnLevel(r, m, j) && Precedes(keys', u, m) ensures keys'[N] <= keys'[m] {
      if m < N {
        assert OnLevel(next, m, j);
      }
    }
  }

  lemma SpliceOtherLink(keys: seq<int>, next: seq<seq<int>>, maxLevel: int, currentLevel: int,
                        update: seq<int>, h: int, key: int, n: int, j: int)
    requires WellFormed(keys, next, maxLevel, currentLevel)
    requires 1 <= h <= currentLevel + 1 && h <= |update|
    requires forall j :: 0 <= j < h ==> IsPredecessor(keys, next, update[j], j, key)
    requires forall j :: 0 <= j < h ==> 0 <= update[j] < |next| && j < |next[update[j]]|
    requires forall m :: 1 <= m < |keys| ==> keys[m] != key
    requires 0 <= n < |next| && 0 <= j < |next[n]| && !(j < h && update[j] == n)
    ensures IsSuccessor(keys + [key], Spliced(next, update, h), n, j, next[n][j])
  {
    var keys', r, N := keys + [key], Spliced(next, update, h), |next|;
    var s := next[n][j];
    assert IsSuccessor(keys, next, n, j, s);
    if j < h && Precedes(keys', n, N) {
      // the new node lies after n on level j, so n's successor must lie before it
      var u := update[j];
      assert IsPredecessor(keys, next, u, j, key);
      if n == Header {
        assert u != Header;
        assert OnLevel(next, u, j) && Precedes(keys, n, u);
      } else {
        assert OnLevel(next, n, j) && keys[n] < key;
        assert !Precedes(keys, u, n);
        assert keys[n] != keys[u];
        assert OnLevel(next, u, j) && Precedes(keys, n, u);
      }
      assert s != Null && keys[s] < key;
      assert OnLevel(r, s, j);
      forall m | OnLevel(r, m, j) && Precedes(keys', n, m) ensures keys'[s] <= keys'[m] {
        if m < N {
          assert OnLevel(next, m, j) && Precedes(keys, n, m);
        }
      }
    } else {
      // the new node is not on level j after n: n's successor is unchanged
      if s == Null {
        forall m | OnLevel(r, m, j) ensures !Precedes(keys', n, m) {
          if m < N {
            assert OnLevel(next, m, j);
          }
        }
      } else {
        assert OnLevel(r, s, j);
        forall m | OnLevel(r, m, j) && Precedes(keys', n, m) ensures keys'[s] <= keys'[m] {
          if m < N {
            assert OnLevel(next, m, j) && Precedes(keys, n, m);
          }
        }
      }
    }
  }

  /**
   * Splicing a new node with a fresh key behind the predecessors of its key, on the
   * levels 0 .. h-1 (h at most currentLevel + 1), keeps the skip list invariant.
   */
  lemma SplicePreservesWellFormed(keys: seq<int>, next: seq<seq<int>>, maxLevel: int, currentLevel: int,
                                  update: seq<int>, h: int, key: int)
    requires WellFormed(keys, next, maxLevel, currentLevel)
    requires 1 <= h <= currentLevel + 1 && h <= |update|
    requires forall j :: 0 <= j < h ==> IsPredecessor(keys, next, update[j], j, key)
    requires forall j :: 0 <= j < h ==> 0 <= update[j] < |next| && j < |next[update[j]]|
    requires forall m :: 1 <= m < |keys| ==> keys[m] != key
    ensures WellFormed(keys + [key], Spliced(next, update, h), maxLevel, currentLevel)
  {
    var keys', r, N := keys + [key], Spliced(next, update, h), |next|;
    forall n, j | 0 <= n < |r| && 0 <= j < |r[n]|
      ensures IsSuccessor(keys', r, n, j, r[n][j])
    {
      if n == N {
        SpliceNewNodeLink(keys, next, maxLevel, currentLevel, update, h, key, j);
      } else if j < h && update[j] == n {
        SplicePredecessorLink(keys, next, maxLevel, currentLevel, update, h, key, j);
      } else {
        SpliceOtherLink(keys, next, maxLevel, currentLevel, update, h, key, n, j);
      }
    }
    assert DistinctKeys(keys');
  }

  /** Splicing a new node of height h adds its key to levels 0 .. h-1 and to no other level. */
  lemma SpliceLevels(keys: seq<int>, next: seq<seq<int>>, update: seq<int>, h: int, key: int, i: int)
    requires |keys| == |next| && 0 <= h <= |update|
    requires forall j :: 0 <= j < h ==> 0 <= update[j] < |next| && j < |next[update[j]]|
    ensures LevelKeySet(keys + [key], Spliced(next, update, h), i) ==
            if 0 <= i < h then LevelKeySet(keys, next, i) + {key} else LevelKeySet(keys, next, i)
  {
    var keys', r, N := keys + [key], Spliced(next, update, h), |next|;
    var before, after := LevelKeySet(keys, next, i), LevelKeySet(keys', r, i);
    forall k | k in after
      ensures k in before || (0 <= i < h && k == key)
    {
      var m :| 1 <= m < |r| && 0 <= i < |r[m]| && keys'[m] == k;
      if m < N {
        assert keys[m] == k && |r[m]| == |next[m]|;
      } else {
        assert i < |r[N]| == h && keys'[N] == key;
      }
    }
    forall k | k in before ensures k in after {
      var m :| 1 <= m < |next| && 0 <= i < |next[m]| && keys[m] == k;
      assert keys'[m] == k && |r[m]| == |next[m]|;
    }
    if 0 <= i < h {
      assert keys'[N] == key && i < |r[N]|;
      assert after == before + {key};
    } else {
      assert after == before;
    }
  }

  // ---------------------------------------------------------------------------
  // Walking a level

  lemma {:induction false} BoundedSetSize(s: set<int>, hi: int)
    requires hi >= 1
    requires forall m :: m in s ==> 1 <= m < hi
    ensures |s| <= hi - 1
    decreases hi
  {
    if hi > 1 {
      var rest := s - {hi - 1};
      BoundedSetSize(rest, hi - 1);
      assert s <= rest + {hi - 1};
    } else {
      assert forall m :: m !in s;
    }
  }

  lemma {:induction false} FullSetSize(s: set<int>, hi: int)
    requires hi >= 1
    requires forall m :: 1 <= m < hi ==> m in s
    ensures |s| >= hi - 1
    decreases hi
  {
    if hi > 1 {
      FullSetSize(s - {hi - 1}, hi - 1);
    }
  }

  /** The level-i nodes after n are n's successor and the level-i nodes after it. */
  lemma AfterStep(keys: seq<int>, next: seq<seq<int>>, maxLevel: int, currentLevel: int, n: int, i: int)
    requires WellFormed(keys, next, maxLevel, currentLevel)
    requires 0 <= n < |next| && 0 <= i < |next[n]|
    ensures next[n][i] == Null ==> After(keys, next, n, i) == {}
    ensures next[n][i] != Null ==>
      0 <= next[n][i] < |next| && i < |next[next[n][i]]| &&
      After(keys, next, n, i) == After(keys, next, next[n][i], i) + {next[n][i]} &&
      next[n][i] !in After(keys, next, next[n][i], i) &&
      forall m :: m in After(keys, next, next[n][i], i) ==> keys[next[n][i]] < keys[m]
  {
    var s := next[n][i];
    var a := After(keys, next, n, i);
    assert IsSuccessor(keys, next, n, i, s);
    if s == Null {
      forall m | m in a ensures false {
        assert OnLevel(next, m, i);
      }
    } else {
      var b := After(keys, next, s, i);
      forall m | m in a && m != s ensures m in b {
        assert OnLevel(next, m, i);
        assert keys[s] <= keys[m] && keys[s] != keys[m];
      }
    }
  }

  /**
   * Following level i's links from node n with enough fuel visits exactly the nodes
   * of level i after n, each once, in strictly increasing key order.
   */
  lemma {:induction false} ChainEnumerates(keys: seq<int>, next: seq<seq<int>>, maxLevel: int, currentLevel: int,
                                           n: int, i: int, fuel: nat)
    requires WellFormed(keys, next, maxLevel, currentLevel)
    requires 0 <= n < |next| && 0 <= i < |next[n]|
    requires |After(keys, next, n, i)| <= fuel
    ensures var c := Chain(next, n, i, fuel);
      |c| == |After(keys, next, n, i)| &&
      (forall m :: m in c <==> m in After(keys, next, n, i)) &&
      (forall p, q :: 0 <= p < q < |c| ==> keys[c[p]] < keys[c[q]])
    decreases fuel
  {
    AfterStep(keys, next, maxLevel, currentLevel, n, i);
    var s := next[n][i];
    if s != Null {
      var b := After(keys, next, s, i);
      ChainEnumerates(keys, next, maxLevel, currentLevel, s, i, fuel - 1);
      var tail := Chain(next, s, i, fuel - 1);
      var c := Chain(next, n, i, fuel);
      assert c == [s] + tail;
      forall p, q | 0 <= p < q < |c| ensures keys[c[p]] < keys[c[q]] {
        if p == 0 {
          assert c[q] == tail[q - 1] && tail[q - 1] in b;
        } else {
          assert c[p] == tail[p - 1] && c[q] == tail[q - 1];
        }
      }
    }
  }

  /**
   * Walking level i from the header meets the keys of exactly the nodes on level i,
   * in strictly increasing order; on level 0 that is every node.
   */
  lemma LevelKeysEnumerateLevel(keys: seq<int>, next: seq<seq<int>>, maxLevel: int, currentLevel: int, i: int)
    requires WellFormed(keys, next, maxLevel, currentLevel)
    requires 0 <= i < maxLevel
    ensures StrictlyIncreasing(LevelKeys(keys, next, i))
    ensures forall k :: k in LevelKeys(keys, next, i) <==> k in LevelKeySet(keys, next, i)
    ensures i == 0 ==> |LevelKeys(keys, next, i)| == |keys| - 1
  {
    var a := After(keys, next, Header, i);
    BoundedSetSize(a, |next|);
    ChainEnumerates(keys, next, maxLevel, currentLevel, Header, i, |next|);
    var c := Chain(next, Header, i, |next|);
    var lk := LevelKeys(keys, next, i);
    forall k | k in lk ensures k in LevelKeySet(keys, next, i) {
      var p :| 0 <= p < |lk| && lk[p] == k;
      assert c[p] in a;
    }
    forall k | k in LevelKeySet(keys, next, i) ensures k in lk {
      var m :| 1 <= m < |next| && 0 <= i < |next[m]| && keys[m] == k;
      assert m in a;
      var p :| 0 <= p < |c| && c[p] == m;
      assert lk[p] == k;
    }
    if i == 0 {
      FullSetSize(a, |next|);
    }
  }

  /** Every key on level i > 0 is also on level i - 1. */
  lemma LevelSublist(keys: seq<int>, next: seq<seq<int>>, maxLevel: int, currentLevel: int, i: int)
    requires WellFormed(keys, next, maxLevel, currentLevel)
    requires 0 < i < maxLevel
    ensures forall k :: k in LevelKeys(keys, next, i) ==> k in LevelKeys(keys, next, i - 1)
  {
    LevelKeysEnumerateLevel(keys, next, maxLevel, currentLevel, i);
    LevelKeysEnumerateLevel(keys, next, maxLevel, currentLevel, i - 1);
    assert LevelKeySet(keys, next, i) <= LevelKeySet(keys, next, i - 1);
  }

  // ---------------------------------------------------------------------------
  // The abstract map

  /** Level 0 holds exactly the keys of the abstract map. */
  lemma LevelZeroIsDomain<V>(keys: seq<int>, vals: seq<V>, next: seq<seq<int>>, maxLevel: int, currentLevel: int)
    requires WellFormed(keys, next, maxLevel, currentLevel) && |vals| == |keys|
    ensures LevelKeySet(keys, next, 0) == Abstraction(keys, vals).Keys
  {
  }

  /** Allocating a node with a fresh key adds exactly that key, with its value, to the abstract map. */
  lemma AbstractionAppend<V>(keys: seq<int>, vals: seq<V>, key: int, value: V)
    requires |keys| == |vals| >= 1 && DistinctKeys(keys)
    requires forall m :: 1 <= m < |keys| ==> keys[m] != key
    ensures DistinctKeys(keys + [key])
    ensures Abstraction(keys + [key], vals + [value]) == Abstraction(keys, vals)[key := value]
  {
    var a, a' := Abstraction(keys, vals), Abstraction(keys + [key], vals + [value]);
    assert a'.Keys == a.Keys + {key} by {
      forall k | k in a' ensures k in a || k == key {
        var m :| 1 <= m < |keys| + 1 && (keys + [key])[m] == k;
        if m < |keys| { assert keys[m] == k; }
      }
      forall k | k in a ensures k in a' {
        var m :| 1 <= m < |keys| && keys[m] == k;
        assert (keys + [key])[m] == k;
      }
      assert (keys + [key])[|keys|] == key;
    }
    forall k | k in a' ensures a'[k] == a[key := value][k] {
      var m :| 1 <= m < |keys| + 1 && (keys + [key])[m] == k;
    }
  }

  /** The abstract map has one entry per real node. */
  lemma {:induction false} AbstractionSize<V>(keys: seq<int>, vals: seq<V>)
    requires |keys| == |vals| >= 1 && DistinctKeys(keys)
    ensures |Abstraction(keys, vals)| == |keys| - 1
    decreases |keys|
  {
    var n := |keys| - 1;
    if n == 0 {
      assert Abstraction(keys, vals) == map[];
    } else {
      AbstractionSize(keys[..n], vals[..n]);
      AbstractionAppend(keys[..n], vals[..n], keys[n], vals[n]);
      assert keys == keys[..n] + [keys[n]] && vals == vals[..n] + [vals[n]];
    }
  }

  // ---------------------------------------------------------------------------
  // Insertion as a whole

  /**
   * What InsertElement does to the structure once it has the predecessors of a
   * fresh key: after raising the current level to raised and splicing a node of
   * height h, the invariant holds again, the abstract map gains exactly key with
   * value, and key joins exactly the levels 0 .. h-1.
   */
  lemma InsertSplice<V>(keys: seq<int>, vals: seq<V>, next: seq<seq<int>>, maxLevel: int, currentLevel: int,
                        raised: int, update: seq<int>, h: int, key: int, value: V,
                        keys': seq<int>, vals': seq<V>, next': seq<seq<int>>)
    requires WellFormed(keys, next, maxLevel, currentLevel) && |vals| == |keys|
    requires currentLevel <= raised < maxLevel && 1 <= h <= raised + 1 && h <= |update|
    requires forall j :: 0 <= j < h ==> IsPredecessor(keys, next, update[j], j, key)
    requires key !in Abstraction(keys, vals)
    requires forall j :: 0 <= j < h ==> 0 <= update[j] < |next| && j < |next[update[j]]|
    requires keys' == keys + [key] && vals' == vals + [value] && next' == Spliced(next, update, h)
    ensures WellFormed(keys', next', maxLevel, raised) && |vals'| == |keys'|
    ensures Abstraction(keys', vals') == Abstraction(keys, vals)[key := value]
    ensures forall i :: LevelKeySet(keys', next', i) ==
                       if 0 <= i < h then LevelKeySet(keys, next, i) + {key} else LevelKeySet(keys, next, i)
  {
    assert forall m :: 1 <= m < |keys| ==> keys[m] != key by {
      forall m | 1 <= m < |keys| ensures keys[m] != key {
        assert keys[m] in Abstraction(keys, vals);
      }
    }
    RaiseCurrentLevel(keys, next, maxLevel, currentLevel, raised);
    SplicePreservesWellFormed(keys, next, maxLevel, raised, update, h, key);
    AbstractionAppend(keys, vals, key, value);
    forall i {
      SpliceLevels(keys, next, update, h, key, i);
    }
  }
}
