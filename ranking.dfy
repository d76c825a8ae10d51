/**
 * Python's `list.sort(key=..., reverse=True)` and the slice `xs[:limit]`,
 * shared by the rule list (sorted by confidence, then support) and the
 * recommendation lists (sorted by score).
 *
 * The sort is a stable insertion sort: a descending sort that keeps the
 * original order of elements whose keys are equal, as Python's sort does
 * with `reverse=True`.
 */
module Ranking {

  /** A sort key compared lexicographically. */
  datatype Key = Key(primary: real, secondary: real)

  predicate KeyLess(a: Key, b: Key)
  {
    a.primary < b.primary || (a.primary == b.primary && a.secondary < b.secondary)
  }

  /** Non-increasing by key: no element is followed by a strictly larger one. */
  predicate SortedDesc<T>(s: seq<T>, key: T -> Key)
  {
    forall i, j :: 0 <= i < j < |s| ==> !KeyLess(key(s[i]), key(s[j]))
  }

  /** Place `x` after every element whose key is at least its own. */
  function InsertDesc<T>(x: T, s: seq<T>, key: T -> Key): seq<T>
  {
    if s == [] then [x]
    else if KeyLess(key(s[0]), key(x)) then [x] + s
    else [s[0]] + InsertDesc(x, s[1..], key)
  }

  /** The stable descending sort. */
  function SortDesc<T>(s: seq<T>, key: T -> Key): seq<T>
  {
    if s == [] then []
    else InsertDesc(s[|s| - 1], SortDesc(s[..|s| - 1], key), key)
  }

  /** The elements of `s` with key `k`, in their order in `s`. */
  function WithKey<T>(s: seq<T>, key: T -> Key, k: Key): seq<T>
  {
    if s == [] then []
    else WithKey(s[..|s| - 1], key, k) + (if key(s[|s| - 1]) == k then [s[|s| - 1]] else [])
  }

  lemma {:induction false} WithKeyConcat<T>(a: seq<T>, b: seq<T>, key: T -> Key, k: Key)
    ensures WithKey(a + b, key, k) == WithKey(a, key, k) + WithKey(b, key, k)
    decreases |b|
  {
    if b != [] {
      var b' := b[..|b| - 1];
      assert (a + b)[..|a + b| - 1] == a + b';
      WithKeyConcat(a, b', key, k);
    } else {
      assert a + b == a;
    }
  }

  lemma WithKeySingleton<T>(x: T, key: T -> Key, k: Key)
    ensures WithKey([x], key, k) == if key(x) == k then [x] else []
  {
    assert [x][..0] == [];
  }

  lemma {:induction false} InsertDescElements<T>(x: T, s: seq<T>, key: T -> Key)
    ensures multiset(InsertDesc(x, s, key)) == multiset(s) + multiset{x}
    decreases |s|
  {
    if s != [] && !KeyLess(key(s[0]), key(x)) {
      InsertDescElements(x, s[1..], key);
      assert s == [s[0]] + s[1..];
    }
  }

  lemma SortedDescTail<T>(s: seq<T>, key: T -> Key)
    requires s != [] && SortedDesc(s, key)
    ensures SortedDesc(s[1..], key)
  {
    forall i, j | 0 <= i < j < |s[1..]| ensures !KeyLess(key(s[1..][i]), key(s[1..][j])) {
      assert s[1..][i] == s[i + 1] && s[1..][j] == s[j + 1];
    }
  }

  lemma {:induction false} InsertDescSorted<T>(x: T, s: seq<T>, key: T -> Key)
    requires SortedDesc(s, key)
    ensures SortedDesc(InsertDesc(x, s, key), key)
    decreases |s|
  {
    var r := InsertDesc(x, s, key);
    if s == [] {
    } else if KeyLess(key(s[0]), key(x)) {
      PrependSorted(x, s, key);
    } else {
      var t := InsertDesc(x, s[1..], key);
      SortedDescTail(s, key);
      InsertDescSorted(x, s[1..], key);
      InsertDescElements(x, s[1..], key);
      assert r == [s[0]] + t;
      // s[0] dominates every element of t: those of s[1..] by sortedness, and x by the guard
      forall m | 0 <= m < |t| ensures !KeyLess(key(s[0]), key(t[m])) {
        assert t[m] in multiset(t);
        assert t[m] in multiset(s[1..]) || t[m] == x;
        if t[m] != x {
          var q :| 0 <= q < |s[1..]| && s[1..][q] == t[m];
          assert s[q + 1] == t[m];
        }
      }
      forall i, j | 0 <= i < j < |r| ensures !KeyLess(key(r[i]), key(r[j])) {
        if i == 0 {
          assert r[j] == t[j - 1];
        } else {
          assert r[i] == t[i - 1] && r[j] == t[j - 1];
        }
      }
    }
  }

  /** An element strictly above the head of a sorted sequence can go in front. */
  lemma PrependSorted<T>(x: T, s: seq<T>, key: T -> Key)
    requires s != [] && SortedDesc(s, key) && KeyLess(key(s[0]), key(x))
    ensures SortedDesc([x] + s, key)
  {
    var r := [x] + s;
    forall i, j | 0 <= i < j < |r| ensures !KeyLess(key(r[i]), key(r[j])) {
      if i == 0 {
        assert r[j] == s[j - 1];
        assert j == 1 || !KeyLess(key(s[0]), key(s[j - 1]));
      } else {
        assert r[i] == s[i - 1] && r[j] == s[j - 1];
      }
    }
  }

  lemma {:induction false} InsertDescStable<T>(x: T, s: seq<T>, key: T -> Key, k: Key)
    requires SortedDesc(s, key)
    ensures WithKey(InsertDesc(x, s, key), key, k)
      == WithKey(s, key, k) + (if key(x) == k then [x] else [])
    decreases |s|
  {
    var r := InsertDesc(x, s, key);
    if s == [] {
      WithKeySingleton(x, key, k);
    } else if KeyLess(key(s[0]), key(x)) {
      assert r == [x] + s;
      WithKeyConcat([x], s, key, k);
      WithKeySingleton(x, key, k);
      if key(x) == k {
        // every element of s is strictly below x, so none of them has key k
        forall i | 0 <= i < |s| ensures KeyLess(key(s[i]), k) {
          assert i == 0 || !KeyLess(key(s[0]), key(s[i]));
        }
        WithKeyNone(s, key, k, x);
      }
    } else {
      var t := InsertDesc(x, s[1..], key);
      SortedDescTail(s, key);
      InsertDescStable(x, s[1..], key, k);
      assert r == [s[0]] + t;
      assert s == [s[0]] + s[1..];
      WithKeyConcat([s[0]], t, key, k);
      WithKeyConcat([s[0]], s[1..], key, k);
    }
  }

  /** No element of a sequence that lies strictly below `x` has `x`'s key. */
  lemma {:induction false} WithKeyNone<T>(s: seq<T>, key: T -> Key, k: Key, x: T)
    requires key(x) == k
    requires forall i :: 0 <= i < |s| ==> KeyLess(key(s[i]), k)
    ensures WithKey(s, key, k) == []
    decreases |s|
  {
    if s != [] {
      assert KeyLess(key(s[|s| - 1]), k);
      WithKeyNone(s[..|s| - 1], key, k, x);
    }
  }

  /**
   * The sort is correct: the result is non-increasing by key, a permutation
   * of its input, and stable (for every key, the elements with that key keep
   * their input order).
   */
  lemma {:induction false} SortDescFacts<T>(s: seq<T>, key: T -> Key)
    ensures SortedDesc(SortDesc(s, key), key)
    ensures multiset(SortDesc(s, key)) == multiset(s)
    ensures forall k :: WithKey(SortDesc(s, key), key, k) == WithKey(s, key, k)
    ensures |SortDesc(s, key)| == |s|
  {
    if s != [] {
      var init := s[..|s| - 1];
      SortDescFacts(init, key);
      InsertDescSorted(s[|s| - 1], SortDesc(init, key), key);
      InsertDescElements(s[|s| - 1], SortDesc(init, key), key);
      forall k ensures WithKey(SortDesc(s, key), key, k) == WithKey(s, key, k) {
        InsertDescStable(s[|s| - 1], SortDesc(init, key), key, k);
      }
      assert s == init + [s[|s| - 1]];
      assert multiset(s) == multiset(init) + multiset{s[|s| - 1]};
      assert |multiset(SortDesc(s, key))| == |multiset(s)|;
    }
  }

  /** Python's `s[:limit]`: a negative limit counts from the end. */
  function TakePy<T>(s: seq<T>, limit: int): (r: seq<T>)
    ensures limit >= 0 ==> |r| == if limit < |s| then limit else |s|
    ensures limit < 0 ==> |r| == if |s| + limit > 0 then |s| + limit else 0
    ensures r == s[..|r|]
  {
    if limit >= 0 then (if limit < |s| then s[..limit] else s)
    else if |s| + limit > 0 then s[..|s| + limit]
    else []
  }

  /** A prefix of a non-increasing sequence is non-increasing. */
  lemma TakePySorted<T>(s: seq<T>, limit: int, key: T -> Key)
    requires SortedDesc(s, key)
    ensures SortedDesc(TakePy(s, limit), key)
  {
    var r := TakePy(s, limit);
    forall i, j | 0 <= i < j < |r| ensures !KeyLess(key(r[i]), key(r[j])) {
      assert r[i] == s[i] && r[j] == s[j];
    }
  }
}
