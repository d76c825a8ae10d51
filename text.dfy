/**
 * String and sequence helpers that mirror the Python built-ins the
 * recommendation engine relies on: substring tests (`p in s`), prefix tests
 * (`s.startswith(p)`), `str.replace`, ASCII `str.lower`, `str(n)` for
 * natural numbers, `", ".join(...)`, and `sorted(...)` on a set of strings
 * (code-point lexicographic order).
 */
module Text {

  /** The set of elements of a sequence (Python's `set(xs)`). */
  function Elems<T>(xs: seq<T>): set<T>
  {
    set x | x in xs
  }

  predicate NoDuplicates<T(==)>(xs: seq<T>)
  {
    forall i, j :: 0 <= i < j < |xs| ==> xs[i] != xs[j]
  }

  lemma {:induction false} NoDuplicatesCard<T>(xs: seq<T>)
    requires NoDuplicates(xs)
    ensures |Elems(xs)| == |xs|
  {
    if xs != [] {
      var init := xs[..|xs| - 1];
      assert NoDuplicates(init);
      NoDuplicatesCard(init);
      assert xs == init + [xs[|xs| - 1]];
      assert xs[|xs| - 1] !in init;
      assert Elems(xs) == Elems(init) + {xs[|xs| - 1]};
    }
  }

  /** Joining two duplicate-free lists with no common element gives a duplicate-free list. */
  lemma JoinDistinct<T>(a: seq<T>, b: seq<T>)
    requires NoDuplicates(a) && NoDuplicates(b) && Elems(a) !! Elems(b)
    ensures NoDuplicates(a + b) && Elems(a + b) == Elems(a) + Elems(b)
  {
    var ab := a + b;
    forall i, j | 0 <= i < j < |ab| ensures ab[i] != ab[j] {
      if i < |a| && j >= |a| {
        assert ab[i] in Elems(a) && ab[j] == b[j - |a|] && ab[j] in Elems(b);
      } else if j < |a| {
        assert ab[i] == a[i] && ab[j] == a[j];
      } else {
        assert ab[i] == b[i - |a|] && ab[j] == b[j - |a|];
      }
    }
    assert Elems(ab) == Elems(a) + Elems(b);
  }

  /** In a duplicate-free list every element occurs at most once. */
  lemma {:induction false} NoDuplicatesCount<T>(xs: seq<T>)
    requires NoDuplicates(xs)
    ensures forall x :: multiset(xs)[x] <= 1
  {
    if xs != [] {
      var init := xs[..|xs| - 1];
      assert NoDuplicates(init);
      NoDuplicatesCount(init);
      assert xs == init + [xs[|xs| - 1]];
      assert xs[|xs| - 1] !in init;
    }
  }

  /** An element found at two positions occurs at least twice. */
  lemma CountTwoPositions<T>(xs: seq<T>, i: nat, j: nat)
    requires i < j < |xs|
    ensures xs[i] == xs[j] ==> multiset(xs)[xs[i]] >= 2
  {
    assert xs == xs[..j] + [xs[j]] + xs[j + 1..];
    assert xs[i] == xs[..j][i];
  }

  /** A permutation of a duplicate-free list is duplicate-free. */
  lemma NoDuplicatesPermuted<T>(a: seq<T>, b: seq<T>)
    requires multiset(a) == multiset(b) && NoDuplicates(a)
    ensures NoDuplicates(b)
  {
    NoDuplicatesCount(a);
    forall i, j | 0 <= i < j < |b| ensures b[i] != b[j] {
      CountTwoPositions(b, i, j);
    }
  }

  /** `list(s)`: the elements of a set in some order (hash order in Python), each once. */
  method ListOf<T>(s: set<T>) returns (xs: seq<T>)
    ensures Elems(xs) == s && NoDuplicates(xs)
  {
    xs := [];
    var rest := s;
    while rest != {}
      invariant rest <= s
      invariant Elems(xs) == s - rest && NoDuplicates(xs)
    {
      var a :| a in rest;
      assert a !in xs;
      assert Elems(xs + [a]) == Elems(xs) + {a};
      xs := xs + [a];
      rest := rest - {a};
    }
  }

  // ---------------------------------------------------------------------
  // Prefix and substring tests

  /** `s.startswith(p)` */
  predicate IsPrefix(p: string, s: string)
  {
    |p| <= |s| && s[..|p|] == p
  }

  /** `p in s` for strings: p occurs in s as a contiguous substring. */
  predicate Contains(s: string, p: string)
    decreases |s|
  {
    IsPrefix(p, s) || (s != [] && Contains(s[1..], p))
  }

  /** An occurrence at a known offset is enough for `Contains`. */
  lemma {:induction false} ContainsAt(s: string, p: string, i: nat)
    requires i + |p| <= |s| && s[i..i + |p|] == p
    ensures Contains(s, p)
    decreases i
  {
    if i > 0 {
      assert s[1..][i - 1..i - 1 + |p|] == s[i..i + |p|];
      ContainsAt(s[1..], p, i - 1);
    }
  }

  /** Every character of an occurring pattern occurs in the string. */
  lemma {:induction false} ContainsChar(s: string, p: string, c: char)
    requires Contains(s, p) && c in p
    ensures c in s
    decreases |s|
  {
    if IsPrefix(p, s) {
      var k :| 0 <= k < |p| && p[k] == c;
      assert s[k] == c;
    } else {
      ContainsChar(s[1..], p, c);
      var k :| 0 <= k < |s[1..]| && s[1..][k] == c;
      assert s[k + 1] == c;
    }
  }

  /** A pattern longer than the string never occurs in it. */
  lemma {:induction false} ContainsLength(s: string, p: string)
    requires Contains(s, p)
    ensures |p| <= |s|
    decreases |s|
  {
    if !IsPrefix(p, s) {
      ContainsLength(s[1..], p);
    }
  }

  // ---------------------------------------------------------------------
  // str.replace and str.lower

  /**
   * Python's `s.replace(p, r)`: every non-overlapping occurrence of `p`,
   * scanning left to right, is replaced by `r`. An empty pattern inserts `r`
   * before every character and at the end, as Python does.
   */
  function ReplaceAll(s: string, p: string, r: string): string
    decreases |s|
  {
    if p == [] then
      (if s == [] then r else r + [s[0]] + ReplaceAll(s[1..], p, r))
    else if |s| < |p| then s
    else if s[..|p|] == p then r + ReplaceAll(s[|p|..], p, r)
    else [s[0]] + ReplaceAll(s[1..], p, r)
  }

  /** Replacing one character by another is a pointwise character map. */
  lemma {:induction false} ReplaceCharAt(s: string, a: char, b: char)
    ensures |ReplaceAll(s, [a], [b])| == |s|
    ensures forall i :: 0 <= i < |s| ==>
      ReplaceAll(s, [a], [b])[i] == (if s[i] == a then b else s[i])
    decreases |s|
  {
    if s != [] {
      ReplaceCharAt(s[1..], a, b);
      var t := ReplaceAll(s[1..], [a], [b]);
      assert ReplaceAll(s, [a], [b]) == [if s[0] == a then b else s[0]] + t;
    }
  }

  /** After replacing a character by a different one, none of it is left. */
  lemma ReplaceCharRemoves(s: string, a: char, b: char)
    requires a != b
    ensures a !in ReplaceAll(s, [a], [b])
  {
    ReplaceCharAt(s, a, b);
  }

  /** A replacement that introduces no `c` into a string without `c` leaves none. */
  lemma {:induction false} ReplaceKeepsAbsent(s: string, p: string, r: string, c: char)
    requires c !in s && c !in r
    ensures c !in ReplaceAll(s, p, r)
    decreases |s|
  {
    if p == [] {
      if s != [] { ReplaceKeepsAbsent(s[1..], p, r, c); }
    } else if |s| < |p| {
    } else if s[..|p|] == p {
      ReplaceKeepsAbsent(s[|p|..], p, r, c);
    } else {
      ReplaceKeepsAbsent(s[1..], p, r, c);
    }
  }

  /** Python's `str.lower` on one character, restricted to ASCII letters. */
  function LowerChar(c: char): char
  {
    if 'A' <= c <= 'Z' then (c as int + 32) as char else c
  }

  function ToLower(s: string): (r: string)
    ensures |r| == |s|
    ensures forall i :: 0 <= i < |s| ==> r[i] == LowerChar(s[i])
  {
    seq(|s|, i requires 0 <= i < |s| => LowerChar(s[i]))
  }

  predicate IsAsciiLetter(c: char)
  {
    'A' <= c <= 'Z' || 'a' <= c <= 'z'
  }

  /** Lower-casing leaves no upper-case ASCII letter and keeps every non-letter. */
  lemma ToLowerFacts(s: string)
    ensures forall i :: 0 <= i < |s| ==> !('A' <= ToLower(s)[i] <= 'Z')
    ensures forall c :: !IsAsciiLetter(c) ==> (c in ToLower(s) <==> c in s)
  {
    var r := ToLower(s);
    forall c | !IsAsciiLetter(c)
      ensures c in r <==> c in s
    {
      if c in s {
        var i :| 0 <= i < |s| && s[i] == c;
        assert r[i] == c;
      }
      if c in r {
        var i :| 0 <= i < |r| && r[i] == c;
        assert s[i] == c;
      }
    }
  }

  // ---------------------------------------------------------------------
  // str(n) and ", ".join(xs)

  function DigitChar(d: nat): (c: char)
    requires d < 10
    ensures '0' <= c <= '9'
  {
    ('0' as int + d) as char
  }

  /** Python's `str(n)` for a natural number: decimal, no leading zeros. */
  function NatToDecimal(n: nat): (r: string)
    ensures |r| >= 1
    ensures forall i :: 0 <= i < |r| ==> '0' <= r[i] <= '9'
    ensures |r| > 1 ==> r[0] != '0'
  {
    if n < 10 then [DigitChar(n)] else NatToDecimal(n / 10) + [DigitChar(n % 10)]
  }

  /** Python's `sep.join(xs)`. */
  function Join(sep: string, xs: seq<string>): string
  {
    if xs == [] then ""
    else if |xs| == 1 then xs[0]
    else xs[0] + sep + Join(sep, xs[1..])
  }

  // ---------------------------------------------------------------------
  // Code-point lexicographic order on strings (Python's `<` on str)

  predicate Below(a: string, b: string)
    decreases |a|
  {
    if a == [] then b != []
    else b != [] && (a[0] < b[0] || (a[0] == b[0] && Below(a[1..], b[1..])))
  }

  lemma {:induction false} BelowIrreflexive(a: string)
    ensures !Below(a, a)
    decreases |a|
  {
    if a != [] { BelowIrreflexive(a[1..]); }
  }

  lemma {:induction false} BelowTransitive(a: string, b: string, c: string)
    requires Below(a, b) && Below(b, c)
    ensures Below(a, c)
    decreases |a|
  {
    if a != [] && a[0] == b[0] && b[0] == c[0] {
      BelowTransitive(a[1..], b[1..], c[1..]);
    }
  }

  lemma {:induction false} BelowTotal(a: string, b: string)
    ensures a == b || Below(a, b) || Below(b, a)
    decreases |a|
  {
    if a != [] && b != [] && a[0] == b[0] {
      BelowTotal(a[1..], b[1..]);
      if a[1..] == b[1..] {
        assert a == [a[0]] + a[1..] && b == [b[0]] + b[1..];
      }
    }
  }

  predicate StrictlySorted(xs: seq<string>)
  {
    forall i, j :: 0 <= i < j < |xs| ==> Below(xs[i], xs[j])
  }

  /** Every non-empty finite set of strings has a least element. */
  lemma {:induction false} LeastExists(s: set<string>)
    requires s != {}
    ensures exists m :: IsLeast(m, s)
    decreases |s|
  {
    var y :| y in s;
    var rest := s - {y};
    if rest == {} {
      assert s == rest + {y};
      assert IsLeast(y, s);
    } else {
      LeastExists(rest);
      var m :| IsLeast(m, rest);
      BelowTotal(m, y);
      if Below(m, y) {
        forall x | x in s && x != m ensures Below(m, x) {
          if x != y { assert x in rest; }
        }
        assert IsLeast(m, s);
      } else {
        forall x | x in s && x != y ensures Below(y, x) {
          assert x in rest;
          if x != m { BelowTransitive(y, m, x); }
        }
        assert IsLeast(y, s);
      }
    }
  }

  /** The least element of a non-empty set of strings. */
  function Least(s: set<string>): (m: string)
    requires s != {}
    ensures IsLeast(m, s)
  {
    LeastExists(s);
    LeastUnique(s);
    var m :| IsLeast(m, s);
    m
  }

  predicate IsLeast(m: string, s: set<string>)
  {
    m in s && forall x :: x in s && x != m ==> Below(m, x)
  }

  lemma LeastUnique(s: set<string>)
    ensures forall m1, m2 :: IsLeast(m1, s) && IsLeast(m2, s) ==> m1 == m2
  {
    forall m1, m2 | IsLeast(m1, s) && IsLeast(m2, s) ensures m1 == m2 {
      if m1 != m2 {
        BelowTransitive(m1, m2, m1);
        BelowIrreflexive(m1);
      }
    }
  }

  /** Python's `sorted(s)` for a set of strings. */
  function Sorted(s: set<string>): (r: seq<string>)
    ensures StrictlySorted(r)
    ensures Elems(r) == s
    ensures |r| == |s|
    decreases |s|
  {
    if s == {} then []
    else
      var m := Least(s);
      var tail := Sorted(s - {m});
      PrependLeast(m, tail, s);
      [m] + tail
  }

  lemma PrependLeast(m: string, tail: seq<string>, s: set<string>)
    requires IsLeast(m, s)
    requires StrictlySorted(tail) && Elems(tail) == s - {m} && |tail| == |s - {m}|
    ensures StrictlySorted([m] + tail) && Elems([m] + tail) == s && |[m] + tail| == |s|
  {
    var r := [m] + tail;
    forall i, j | 0 <= i < j < |r| ensures Below(r[i], r[j]) {
      if i == 0 {
        assert r[j] == tail[j - 1] && tail[j - 1] in Elems(tail);
      } else {
        assert r[i] == tail[i - 1] && r[j] == tail[j - 1];
      }
    }
    assert Elems(r) == {m} + Elems(tail);
  }

  /** The sorted list of a set has no repeated element. */
  lemma SortedNoDuplicates(s: set<string>)
    ensures NoDuplicates(Sorted(s))
  {
    var r := Sorted(s);
    forall i, j | 0 <= i < j < |r| ensures r[i] != r[j] {
      if r[i] == r[j] { BelowIrreflexive(r[i]); }
    }
  }

  // ---------------------------------------------------------------------
  // itertools.combinations

  /** `[[x] + c for c in cs]` */
  function PrependAll<T>(x: T, cs: seq<seq<T>>): (r: seq<seq<T>>)
    ensures |r| == |cs| && forall i :: 0 <= i < |cs| ==> r[i] == [x] + cs[i]
  {
    seq(|cs|, i requires 0 <= i < |cs| => [x] + cs[i])
  }

  /**
   * `itertools.combinations(xs, r)`: the `r`-element selections of `xs`, each
   * in the order of `xs`, listed in lexicographic order of positions.
   */
  function Combinations<T>(xs: seq<T>, r: nat): seq<seq<T>>
    decreases |xs|
  {
    if r == 0 then [[]]
    else if xs == [] then []
    else PrependAll(xs[0], Combinations(xs[1..], r - 1)) + Combinations(xs[1..], r)
  }

  /** Each combination has `r` distinct elements, all taken from `xs`. */
  lemma {:induction false} CombinationsSound<T>(xs: seq<T>, r: nat)
    requires NoDuplicates(xs)
    ensures forall i :: 0 <= i < |Combinations(xs, r)| ==>
      var c := Combinations(xs, r)[i]; |c| == r && NoDuplicates(c) && Elems(c) <= Elems(xs)
    decreases |xs|
  {
    if r != 0 && xs != [] {
      var tail := xs[1..];
      assert NoDuplicates(tail);
      CombinationsSound(tail, r - 1);
      CombinationsSound(tail, r);
      var front := PrependAll(xs[0], Combinations(tail, r - 1));
      var cs := Combinations(xs, r);
      assert Elems(tail) <= Elems(xs);
      assert xs[0] !in Elems(tail);
      forall i | 0 <= i < |cs|
        ensures |cs[i]| == r && NoDuplicates(cs[i]) && Elems(cs[i]) <= Elems(xs)
      {
        if i < |front| {
          var c := Combinations(tail, r - 1)[i];
          assert cs[i] == [xs[0]] + c;
          assert xs[0] !in Elems(c);
          JoinDistinct([xs[0]], c);
        } else {
          assert cs[i] == Combinations(tail, r)[i - |front|];
        }
      }
    }
  }

  /** Every `r`-element subset of the elements of `xs` is listed. */
  lemma {:induction false} CombinationsComplete<T>(xs: seq<T>, a: set<T>) returns (i: nat)
    requires NoDuplicates(xs) && a <= Elems(xs)
    ensures i < |Combinations(xs, |a|)| && Elems(Combinations(xs, |a|)[i]) == a
    decreases |xs|
  {
    if |a| == 0 {
      i := 0;
      assert Elems<T>([]) == {};
    } else {
      ElemsCons(xs);
      var tail := xs[1..];
      if xs[0] in a {
        var b := a - {xs[0]};
        var k := CombinationsComplete(tail, b);
        i := CombinationsWithHead(xs, a, b, k);
      } else {
        var k := CombinationsComplete(tail, a);
        i := CombinationsBack(xs, |a|, k);
      }
    }
  }

  /** A non-empty duplicate-free sequence is its head and a tail without it. */
  lemma ElemsCons<T>(xs: seq<T>)
    requires xs != [] && NoDuplicates(xs)
    ensures NoDuplicates(xs[1..]) && xs[0] !in Elems(xs[1..])
    ensures Elems(xs) == {xs[0]} + Elems(xs[1..])
  {
    assert xs == [xs[0]] + xs[1..];
  }

  /** A subset holding the head is found among the combinations that start with it. */
  lemma CombinationsWithHead<T>(xs: seq<T>, a: set<T>, b: set<T>, k: nat) returns (i: nat)
    requires xs != [] && xs[0] in a && b == a - {xs[0]}
    requires k < |Combinations(xs[1..], |b|)| && Elems(Combinations(xs[1..], |b|)[k]) == b
    ensures i < |Combinations(xs, |a|)| && Elems(Combinations(xs, |a|)[i]) == a
  {
    var r: nat := |b|;
    assert a == b + {xs[0]} && xs[0] !in b;
    assert |a| == r + 1;
    i := CombinationsFront(xs, r + 1, k);
  }

  /** The `k`-th combination of the tail with one fewer element, led by the head. */
  lemma CombinationsFront<T>(xs: seq<T>, r: nat, k: nat) returns (i: nat)
    requires xs != [] && r > 0 && k < |Combinations(xs[1..], r - 1)|
    ensures i < |Combinations(xs, r)|
    ensures Elems(Combinations(xs, r)[i]) == {xs[0]} + Elems(Combinations(xs[1..], r - 1)[k])
  {
    var front := PrependAll(xs[0], Combinations(xs[1..], r - 1));
    assert Combinations(xs, r) == front + Combinations(xs[1..], r);
    i := k;
    assert Combinations(xs, r)[i] == [xs[0]] + Combinations(xs[1..], r - 1)[k];
    assert Elems([xs[0]] + Combinations(xs[1..], r - 1)[k])
      == {xs[0]} + Elems(Combinations(xs[1..], r - 1)[k]);
  }

  /** The `k`-th combination of the tail of the same size, which leaves the head out. */
  lemma CombinationsBack<T>(xs: seq<T>, r: nat, k: nat) returns (i: nat)
    requires xs != [] && r > 0 && k < |Combinations(xs[1..], r)|
    ensures i < |Combinations(xs, r)|
    ensures Combinations(xs, r)[i] == Combinations(xs[1..], r)[k]
  {
    var front := PrependAll(xs[0], Combinations(xs[1..], r - 1));
    assert Combinations(xs, r) == front + Combinations(xs[1..], r);
    i := |front| + k;
  }

  /** No two combinations have the same elements. */
  lemma {:induction false} CombinationsDistinct<T>(xs: seq<T>, r: nat)
    requires NoDuplicates(xs)
    ensures forall i, j :: 0 <= i < j < |Combinations(xs, r)| ==>
      Elems(Combinations(xs, r)[i]) != Elems(Combinations(xs, r)[j])
    decreases |xs|
  {
    if r != 0 && xs != [] {
      var tail := xs[1..];
      assert NoDuplicates(tail);
      CombinationsDistinct(tail, r - 1);
      CombinationsDistinct(tail, r);
      CombinationsSound(tail, r - 1);
      CombinationsSound(tail, r);
      var x := xs[0];
      assert x !in Elems(tail);
      var front := Combinations(tail, r - 1);
      var back := Combinations(tail, r);
      var cs := Combinations(xs, r);
      assert cs == PrependAll(x, front) + back;
      forall i, j | 0 <= i < j < |cs| ensures Elems(cs[i]) != Elems(cs[j]) {
        if j < |front| {
          assert cs[i] == [x] + front[i] && cs[j] == [x] + front[j];
          assert Elems(cs[i]) == {x} + Elems(front[i]) && Elems(cs[j]) == {x} + Elems(front[j]);
          assert Elems(cs[i]) - {x} == Elems(front[i]);
          assert Elems(cs[j]) - {x} == Elems(front[j]);
        } else if i < |front| {
          assert cs[i] == [x] + front[i] && cs[j] == back[j - |front|];
          assert x in Elems(cs[i]);
          assert x !in Elems(cs[j]);
        } else {
          assert cs[i] == back[i - |front|] && cs[j] == back[j - |front|];
        }
      }
    }
  }
}
