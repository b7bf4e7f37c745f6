/** The two generators the engine enumerates with, in the order Python's
    `itertools.product` and `itertools.permutations` produce their tuples. */
module Combinatorics {

  /** `x` put in front of every tail. */
  function Prepend<T>(x: T, tails: seq<seq<T>>): (r: seq<seq<T>>)
    ensures |r| == |tails|
    ensures forall k :: 0 <= k < |r| ==> r[k] == [x] + tails[k]
  {
    seq(|tails|, k requires 0 <= k < |tails| => [x] + tails[k])
  }

  lemma PrependMembership<T>(x: T, tails: seq<seq<T>>, c: seq<T>)
    ensures c in Prepend(x, tails) <==> |c| > 0 && c[0] == x && c[1..] in tails
  {
    var r := Prepend(x, tails);
    if c in r {
      var k :| 0 <= k < |r| && r[k] == c;
      assert c[1..] == tails[k];
    }
    if |c| > 0 && c[0] == x && c[1..] in tails {
      var k :| 0 <= k < |tails| && tails[k] == c[1..];
      assert r[k] == c;
    }
  }

  lemma PeelFactor(a: nat, b: nat)
    requires a > 0
    ensures a * b == b + (a - 1) * b
  {
  }

  lemma ScaleProduct(n: int, a: int, b: int, f: int)
    requires a * b == f
    ensures (n * a) * b == n * f
  {
  }

  /** Every head in front of every tail, heads outermost. */
  function Expand<T>(heads: seq<T>, tails: seq<seq<T>>): (r: seq<seq<T>>)
    ensures |r| == |heads| * |tails|
  {
    if |heads| == 0 then []
    else
      var rest := Expand(heads[1..], tails);
      PeelFactor(|heads|, |tails|);
      Prepend(heads[0], tails) + rest
  }

  lemma {:induction false} ExpandMembership<T>(heads: seq<T>, tails: seq<seq<T>>, c: seq<T>)
    ensures c in Expand(heads, tails) <==> |c| > 0 && c[0] in heads && c[1..] in tails
  {
    if |heads| > 0 {
      ExpandMembership(heads[1..], tails, c);
      PrependMembership(heads[0], tails, c);
      assert c in Expand(heads, tails) <==> c in Prepend(heads[0], tails) || c in Expand(heads[1..], tails);
      assert |c| > 0 ==> (c[0] in heads <==> c[0] == heads[0] || c[0] in heads[1..]) by {
        if |c| > 0 && c[0] in heads {
          var k :| 0 <= k < |heads| && heads[k] == c[0];
          if k > 0 { assert heads[1..][k - 1] == c[0]; }
        }
      }
    }
  }

  /** Product of the lengths of the lists. */
  function LengthProduct<T>(lists: seq<seq<T>>): nat {
    if |lists| == 0 then 1 else |lists[0]| * LengthProduct(lists[1..])
  }

  /** The Cartesian product of the lists, first list outermost. */
  function Product<T>(lists: seq<seq<T>>): (r: seq<seq<T>>)
    ensures |r| == LengthProduct(lists)
  {
    if |lists| == 0 then [[]] else Expand(lists[0], Product(lists[1..]))
  }

  /** `c` picks one element of every list, position by position. */
  predicate Picks<T(==)>(c: seq<T>, lists: seq<seq<T>>) {
    |c| == |lists| && forall i :: 0 <= i < |c| ==> c[i] in lists[i]
  }

  /** The product holds exactly the sequences that pick one element from each
      list, in list order. */
  lemma {:induction false} ProductMembership<T>(lists: seq<seq<T>>, c: seq<T>)
    ensures c in Product(lists) <==> Picks(c, lists)
  {
    if |lists| == 0 {
    } else {
      ExpandMembership(lists[0], Product(lists[1..]), c);
      if |c| > 0 {
        ProductMembership(lists[1..], c[1..]);
        assert Picks(c, lists) <==> c[0] in lists[0] && Picks(c[1..], lists[1..]) by {
          if Picks(c, lists) {
            forall i | 0 <= i < |c[1..]| ensures c[1..][i] in lists[1..][i] {
              assert c[i + 1] in lists[i + 1];
            }
          }
          if c[0] in lists[0] && Picks(c[1..], lists[1..]) {
            forall i | 0 <= i < |c| ensures c[i] in lists[i] {
              if i > 0 { assert c[1..][i - 1] in lists[1..][i - 1]; }
            }
          }
        }
      }
    }
  }

  /** The first element of every list, in list order. */
  function Heads<T>(lists: seq<seq<T>>): seq<T>
    requires forall m :: 0 <= m < |lists| ==> |lists[m]| > 0
  {
    seq(|lists|, m requires 0 <= m < |lists| => lists[m][0])
  }

  /** When no list is empty the product starts with the sequence of first
      elements, the leftmost choice from every list. */
  lemma {:induction false} ProductHead<T>(lists: seq<seq<T>>)
    requires forall m :: 0 <= m < |lists| ==> |lists[m]| > 0
    ensures |Product(lists)| > 0 && Product(lists)[0] == Heads(lists)
  {
    if |lists| > 0 {
      var tails := Product(lists[1..]);
      ProductHead(lists[1..]);
      assert |tails| > 0 && tails[0] == Heads(lists[1..]);
      assert Prepend(lists[0][0], tails)[0] == [lists[0][0]] + tails[0];
      assert Product(lists)[0] == [lists[0][0]] + tails[0];
      assert Heads(lists) == [lists[0][0]] + Heads(lists[1..]);
    }
  }

  /** With no lists the product is the single empty combination; a list with
      no elements empties the product. */
  lemma {:induction false} ProductDegenerateCases<T>(lists: seq<seq<T>>)
    ensures |lists| == 0 ==> Product(lists) == [[]]
    ensures (exists i :: 0 <= i < |lists| && |lists[i]| == 0) ==> Product(lists) == []
  {
    if |lists| > 0 && exists i :: 0 <= i < |lists| && |lists[i]| == 0 {
      var i :| 0 <= i < |lists| && |lists[i]| == 0;
      if i > 0 {
        assert |lists[1..][i - 1]| == 0;
        ProductDegenerateCases(lists[1..]);
      }
    }
  }

  /** n * (n-1) * ... * (n-r+1): the number of ordered selections of r out
      of n. */
  function Falling(n: nat, r: nat): nat {
    if r == 0 then 1 else if n == 0 then 0 else n * Falling(n - 1, r - 1)
  }

  function Factorial(n: nat): nat {
    if n == 0 then 1 else n * Factorial(n - 1)
  }

  /** The falling factorial is n!/(n-r)!. */
  lemma {:induction false} FallingIsFactorialQuotient(n: nat, r: nat)
    requires r <= n
    ensures Falling(n, r) * Factorial(n - r) == Factorial(n)
  {
    if r > 0 {
      FallingIsFactorialQuotient(n - 1, r - 1);
      var a, b := Falling(n - 1, r - 1), Factorial(n - r);
      assert Falling(n, r) == n * a;
      assert Factorial(n) == n * Factorial(n - 1);
      ScaleProduct(n, a, b, Factorial(n - 1));
    }
  }

  /** The falling factorial is positive while r does not exceed n. */
  lemma {:induction false} FallingPositive(n: nat, r: nat)
    requires r <= n
    ensures Falling(n, r) > 0
  {
    if r > 0 {
      FallingPositive(n - 1, r - 1);
    }
  }

  /** `xs` without its element at position i. */
  function RemoveAt<T>(xs: seq<T>, i: nat): (r: seq<T>)
    requires i < |xs|
    ensures |r| == |xs| - 1
    ensures multiset(r) == multiset(xs) - multiset{xs[i]}
  {
    assert xs == xs[..i] + [xs[i]] + xs[i + 1..];
    xs[..i] + xs[i + 1..]
  }

  /** The ordered selections of `r` positions of `xs`, lexicographic in the
      positions chosen. */
  function Perms<T>(xs: seq<T>, r: nat): (ps: seq<seq<T>>)
    ensures |ps| == Falling(|xs|, r)
    decreases r, 1, 0
  {
    if r == 0 then [[]] else PermsFrom(xs, r, 0)
  }

  /** The selections whose first position is `k` or later. */
  function PermsFrom<T>(xs: seq<T>, r: nat, k: nat): (ps: seq<seq<T>>)
    requires 0 < r && k <= |xs|
    ensures 0 < |xs| ==> |ps| == (|xs| - k) * Falling(|xs| - 1, r - 1)
    ensures |xs| == 0 ==> |ps| == 0
    decreases r, 0, |xs| - k
  {
    if k == |xs| then []
    else
      var f := Falling(|xs| - 1, r - 1);
      var rest := PermsFrom(xs, r, k + 1);
      var here := Prepend(xs[k], Perms(RemoveAt(xs, k), r - 1));
      assert |here| == f;
      assert |rest| == (|xs| - k - 1) * f;
      PeelFactor(|xs| - k, f);
      here + rest
  }

  /** `p` starts with the element at position i of `xs` and continues with
      a selection from the remaining elements. */
  ghost predicate ChosenFirst<T>(xs: seq<T>, i: int, p: seq<T>) {
    && 0 <= i < |xs|
    && 0 < |p|
    && xs[i] == p[0]
    && multiset(p[1..]) <= multiset(RemoveAt(xs, i))
  }

  lemma ChosenFirstIsSelection<T>(xs: seq<T>, i: int, p: seq<T>)
    ensures ChosenFirst(xs, i, p) ==> multiset(p) <= multiset(xs)
    ensures 0 < |p| && multiset(p) <= multiset(xs) ==> exists j :: ChosenFirst(xs, j, p)
  {
    if 0 < |p| {
      assert p == [p[0]] + p[1..];
      assert multiset(p) == multiset{p[0]} + multiset(p[1..]);
      if ChosenFirst(xs, i, p) {
        assert multiset(RemoveAt(xs, i)) == multiset(xs) - multiset{xs[i]};
        assert xs[i] in multiset(xs);
      }
      if multiset(p) <= multiset(xs) {
        assert p[0] in multiset(p);
        assert p[0] in multiset(xs);
        var j :| 0 <= j < |xs| && xs[j] == p[0];
        assert multiset(RemoveAt(xs, j)) == multiset(xs) - multiset{xs[j]};
        assert ChosenFirst(xs, j, p);
      }
    }
  }

  lemma {:induction false} PermsMembership<T>(xs: seq<T>, r: nat, p: seq<T>)
    ensures p in Perms(xs, r) <==> |p| == r && multiset(p) <= multiset(xs)
    decreases r, 1, 0
  {
    if r == 0 {
      if |p| == 0 {
        assert p == [];
      }
    } else {
      PermsFromMembership(xs, r, 0, p);
      if p in Perms(xs, r) {
        var i :| 0 <= i < |xs| && ChosenFirst(xs, i, p);
        ChosenFirstIsSelection(xs, i, p);
      }
      if |p| == r && multiset(p) <= multiset(xs) {
        ChosenFirstIsSelection(xs, 0, p);
      }
    }
  }

  lemma {:induction false} PermsFromMembership<T>(xs: seq<T>, r: nat, k: nat, p: seq<T>)
    requires 0 < r && k <= |xs|
    ensures p in PermsFrom(xs, r, k) <==> |p| == r && exists i :: k <= i < |xs| && ChosenFirst(xs, i, p)
    decreases r, 0, |xs| - k
  {
    if k < |xs| {
      var here := Prepend(xs[k], Perms(RemoveAt(xs, k), r - 1));
      var rest := PermsFrom(xs, r, k + 1);
      assert PermsFrom(xs, r, k) == here + rest;
      PermsFromMembership(xs, r, k + 1, p);
      PermsHeadMembership(xs, r, k, p);
      if |p| == r && exists i :: k <= i < |xs| && ChosenFirst(xs, i, p) {
        var i :| k <= i < |xs| && ChosenFirst(xs, i, p);
        if i > k {
          assert p in rest;
        }
      }
    }
  }

  /** The selections that start with position k. */
  lemma PermsHeadMembership<T>(xs: seq<T>, r: nat, k: nat, p: seq<T>)
    requires 0 < r && k < |xs|
    ensures p in Prepend(xs[k], Perms(RemoveAt(xs, k), r - 1)) <==> |p| == r && ChosenFirst(xs, k, p)
    decreases r, 0, 0
  {
    PrependMembership(xs[k], Perms(RemoveAt(xs, k), r - 1), p);
    if 0 < |p| {
      PermsMembership(RemoveAt(xs, k), r - 1, p[1..]);
    }
  }

  /** No element of `xs` occurs twice. */
  predicate Distinct<T(==)>(xs: seq<T>) {
    forall a, b :: 0 <= a < b < |xs| ==> xs[a] != xs[b]
  }

  lemma {:induction false} DistinctMultiplicity<T>(xs: seq<T>, x: T)
    requires Distinct(xs)
    ensures multiset(xs)[x] <= 1
  {
    if |xs| > 0 {
      assert xs == [xs[0]] + xs[1..];
      assert Distinct(xs[1..]) by {
        forall a, b | 0 <= a < b < |xs[1..]| ensures xs[1..][a] != xs[1..][b] {
          assert xs[a + 1] != xs[b + 1];
        }
      }
      DistinctMultiplicity(xs[1..], x);
      if x == xs[0] {
        assert x !in xs[1..] by {
          forall b | 0 <= b < |xs[1..]| ensures xs[1..][b] != x {
            assert xs[0] != xs[b + 1];
          }
        }
      }
    }
  }

  lemma RepeatMultiplicity<T>(p: seq<T>, a: nat, b: nat)
    requires a < b < |p| && p[a] == p[b]
    ensures multiset(p)[p[a]] >= 2
  {
    assert p == p[..b] + [p[b]] + p[b + 1..];
    assert p[..b][a] == p[a];
    assert p[a] in multiset(p[..b]);
  }

  /** A selection of a duplicate-free sequence has no duplicates. */
  lemma SelectionOfDistinctIsDistinct<T>(xs: seq<T>, p: seq<T>)
    requires Distinct(xs) && multiset(p) <= multiset(xs)
    ensures Distinct(p)
  {
    forall a, b | 0 <= a < b < |p| ensures p[a] != p[b] {
      if p[a] == p[b] {
        RepeatMultiplicity(p, a, b);
        DistinctMultiplicity(xs, p[a]);
        assert false;
      }
    }
  }

  /** A selection draws every element from `xs`. */
  lemma SelectionDrawsFrom<T>(xs: seq<T>, p: seq<T>)
    requires multiset(p) <= multiset(xs)
    ensures forall j :: 0 <= j < |p| ==> p[j] in xs
  {
    forall j | 0 <= j < |p| ensures p[j] in xs {
      assert p[j] in multiset(p);
    }
  }

  /** The permutations of length r of a duplicate-free sequence: each has r
      distinct entries drawn from it, every such sequence is one of them, and
      there are n!/(n-r)! of them. */
  lemma PermutationsOfDistinct<T>(xs: seq<T>, r: nat, p: seq<T>)
    requires Distinct(xs) && r <= |xs|
    ensures p in Perms(xs, r) ==> |p| == r && Distinct(p) && forall j :: 0 <= j < |p| ==> p[j] in xs
    ensures |p| == r && Distinct(p) && (forall j :: 0 <= j < |p| ==> p[j] in xs) ==> p in Perms(xs, r)
    ensures |Perms(xs, r)| * Factorial(|xs| - r) == Factorial(|xs|)
  {
    PermsMembership(xs, r, p);
    if p in Perms(xs, r) {
      SelectionOfDistinctIsDistinct(xs, p);
      SelectionDrawsFrom(xs, p);
    }
    if |p| == r && Distinct(p) && (forall j :: 0 <= j < |p| ==> p[j] in xs) {
      DistinctSubsetMultiset(p, xs);
    }
    FallingIsFactorialQuotient(|xs|, r);
  }

  /** A duplicate-free sequence whose elements all occur in `xs` is a
      sub-multiset of `xs`. */
  lemma DistinctSubsetMultiset<T>(p: seq<T>, xs: seq<T>)
    requires Distinct(p) && forall j :: 0 <= j < |p| ==> p[j] in xs
    ensures multiset(p) <= multiset(xs)
  {
    forall x ensures multiset(p)[x] <= multiset(xs)[x] {
      DistinctMultiplicity(p, x);
      if x in multiset(p) {
        assert x in p;
        var j :| 0 <= j < |p| && p[j] == x;
        assert x in xs;
      }
    }
  }
}
