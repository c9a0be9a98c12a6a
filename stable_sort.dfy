/** Python's `list.sort(key=key_fn, reverse=desc)`: a stable sort. It is modelled on positions:
    the sorted list is the original list read in the order SortOrder gives, the one order of the
    positions 0..n-1 in which a position comes first when its key sorts first (last, for
    reverse=True) and tied keys keep their original order. */
module StableSort {
  import opened Text
  import opened Lists

  /** The value a key function returns: a string (title, author, created_at) or an int (year). */
  datatype SortKey = Str(s: string) | Num(n: int)

  /** Python's `<` on two keys. One key function serves a whole sort, so a string is never compared
      with an int; such a pair is ordered int first only so that the relation is total. */
  predicate KeyLess(a: SortKey, b: SortKey)
  {
    match (a, b)
    case (Str(x), Str(y)) => StrLess(x, y)
    case (Num(x), Num(y)) => x < y
    case (Num(_), Str(_)) => true
    case (Str(_), Num(_)) => false
  }

  lemma KeyLessIrreflexive(a: SortKey)
    ensures !KeyLess(a, a)
  {
    if a.Str? {
      StrLessIrreflexive(a.s);
    }
  }

  lemma KeyLessTransitive(a: SortKey, b: SortKey, c: SortKey)
    requires KeyLess(a, b) && KeyLess(b, c)
    ensures KeyLess(a, c)
  {
    if a.Str? && b.Str? && c.Str? {
      StrLessTransitive(a.s, b.s, c.s);
    }
  }

  lemma KeyLessTotal(a: SortKey, b: SortKey)
    requires a != b
    ensures KeyLess(a, b) || KeyLess(b, a)
  {
    if a.Str? && b.Str? {
      StrLessTotal(a.s, b.s);
    }
  }

  /** Position i comes before position j in the sorted list. */
  predicate Before(keys: seq<SortKey>, desc: bool, i: nat, j: nat)
  {
    && i < |keys| && j < |keys|
    && if keys[i] == keys[j] then i < j
       else if desc then KeyLess(keys[j], keys[i])
       else KeyLess(keys[i], keys[j])
  }

  lemma BeforeAsymmetric(keys: seq<SortKey>, desc: bool, i: nat, j: nat)
    requires Before(keys, desc, i, j)
    ensures !Before(keys, desc, j, i)
  {
    if keys[i] != keys[j] && Before(keys, desc, j, i) {
      if desc {
        KeyLessTransitive(keys[j], keys[i], keys[j]);
        KeyLessIrreflexive(keys[j]);
      } else {
        KeyLessTransitive(keys[i], keys[j], keys[i]);
        KeyLessIrreflexive(keys[i]);
      }
    }
  }

  lemma BeforeTotal(keys: seq<SortKey>, desc: bool, i: nat, j: nat)
    requires i < |keys| && j < |keys| && i != j
    ensures Before(keys, desc, i, j) || Before(keys, desc, j, i)
  {
    if keys[i] != keys[j] {
      KeyLessTotal(keys[i], keys[j]);
    }
  }

  lemma BeforeTransitive(keys: seq<SortKey>, desc: bool, i: nat, j: nat, k: nat)
    requires Before(keys, desc, i, j) && Before(keys, desc, j, k)
    ensures Before(keys, desc, i, k)
  {
    var a, b, c := keys[i], keys[j], keys[k];
    if a != b && b != c {
      if desc {
        KeyLessTransitive(c, b, a);
        if a == c {
          KeyLessIrreflexive(a);
        }
      } else {
        KeyLessTransitive(a, b, c);
        if a == c {
          KeyLessIrreflexive(a);
        }
      }
    }
  }

  /** p lists positions of keys, each pair in the order Before demands. */
  predicate Ordered(keys: seq<SortKey>, desc: bool, p: seq<nat>)
  {
    && (forall a :: 0 <= a < |p| ==> p[a] < |keys|)
    && (forall a, b :: 0 <= a < b < |p| ==> Before(keys, desc, p[a], p[b]))
  }

  /** How many leading entries of s come before x. */
  function InsertPos(keys: seq<SortKey>, desc: bool, x: nat, s: seq<nat>): (k: nat)
    ensures k <= |s|
    ensures forall a :: 0 <= a < k ==> !Before(keys, desc, x, s[a])
    ensures k < |s| ==> Before(keys, desc, x, s[k])
  {
    if s == [] || Before(keys, desc, x, s[0]) then 0 else 1 + InsertPos(keys, desc, x, s[1..])
  }

  /** s with x put in front of the first entry it comes before. */
  function Insert(keys: seq<SortKey>, desc: bool, x: nat, s: seq<nat>): (r: seq<nat>)
    ensures multiset(r) == multiset(s) + multiset{x}
  {
    var k := InsertPos(keys, desc, x, s);
    assert s == s[..k] + s[k..];
    s[..k] + [x] + s[k..]
  }

  /** The entries of s with x spliced in at k, by index. */
  lemma Splice<T>(s: seq<T>, k: nat, x: T)
    requires k <= |s|
    ensures var r := s[..k] + [x] + s[k..];
      && |r| == |s| + 1 && r[k] == x
      && (forall a :: 0 <= a < k ==> r[a] == s[a])
      && (forall a :: k < a < |r| ==> r[a] == s[a - 1])
  { }

  lemma InsertOrdered(keys: seq<SortKey>, desc: bool, x: nat, s: seq<nat>)
    requires Ordered(keys, desc, s) && x < |keys| && x !in s
    ensures Ordered(keys, desc, Insert(keys, desc, x, s))
  {
    var k := InsertPos(keys, desc, x, s);
    var r := Insert(keys, desc, x, s);
    Splice(s, k, x);
    forall a | 0 <= a < k
      ensures Before(keys, desc, s[a], x)
    {
      BeforeTotal(keys, desc, s[a], x);
    }
    forall a | k < a < |s|
      ensures Before(keys, desc, x, s[a])
    {
      BeforeTransitive(keys, desc, x, s[k], s[a]);
    }
    forall a, b | 0 <= a < b < |r|
      ensures Before(keys, desc, r[a], r[b])
    {
      var i := if a < k then a else a - 1;
      var j := if b < k then b else b - 1;
      if b == k {
        assert r[a] == s[a] && r[b] == x;
      } else if a == k {
        assert r[a] == x && r[b] == s[j];
      } else {
        assert r[a] == s[i] && r[b] == s[j] && i < j;
      }
    }
  }

  /** Insertion sort of the positions ps. */
  function SortPositions(keys: seq<SortKey>, desc: bool, ps: seq<nat>): (r: seq<nat>)
    ensures multiset(r) == multiset(ps)
  {
    if ps == [] then []
    else
      assert ps == [ps[0]] + ps[1..];
      Insert(keys, desc, ps[0], SortPositions(keys, desc, ps[1..]))
  }

  lemma {:induction false} SortPositionsOrdered(keys: seq<SortKey>, desc: bool, ps: seq<nat>)
    requires Distinct(ps) && forall a :: 0 <= a < |ps| ==> ps[a] < |keys|
    ensures Ordered(keys, desc, SortPositions(keys, desc, ps))
  {
    if ps != [] {
      var rest := SortPositions(keys, desc, ps[1..]);
      SortPositionsOrdered(keys, desc, ps[1..]);
      assert ps == [ps[0]] + ps[1..];
      assert ps[0] !in multiset(ps[1..]);
      assert ps[0] !in rest by {
        assert multiset(rest) == multiset(ps[1..]);
      }
      InsertOrdered(keys, desc, ps[0], rest);
    }
  }

  /** The positions 0..n-1 in their original order. */
  function Range(n: nat): (r: seq<nat>)
    ensures |r| == n && forall a :: 0 <= a < n ==> r[a] == a
  {
    seq(n, a => a)
  }

  /** The order in which list.sort leaves the positions of a list with these keys: a
      permutation of 0..n-1, every pair in the order Before demands. */
  function SortOrder(keys: seq<SortKey>, desc: bool): (p: seq<nat>)
    ensures multiset(p) == multiset(Range(|keys|))
    ensures |p| == |keys|
    ensures Ordered(keys, desc, p)
  {
    SortPositionsOrdered(keys, desc, Range(|keys|));
    SortPositions(keys, desc, Range(|keys|))
  }

  /** The items at the positions p, in the order of p. */
  function Arrange<T>(items: seq<T>, p: seq<nat>): (r: seq<T>)
    requires forall a :: 0 <= a < |p| ==> p[a] < |items|
    ensures |r| == |p| && forall a :: 0 <= a < |p| ==> r[a] == items[p[a]]
  {
    seq(|p|, a requires 0 <= a < |p| => items[p[a]])
  }

  /** Every entry of a permutation of p is an entry of p. */
  lemma PermutationBound(p: seq<nat>, q: seq<nat>, n: nat)
    requires multiset(p) == multiset(q)
    requires forall a :: 0 <= a < |p| ==> p[a] < n
    ensures forall a :: 0 <= a < |q| ==> q[a] < n
  {
    forall a | 0 <= a < |q|
      ensures q[a] < n
    {
      assert q[a] in multiset(q);
      assert q[a] in p;
    }
  }

  lemma ArrangeAppend<T>(items: seq<T>, p: seq<nat>, q: seq<nat>)
    requires forall a :: 0 <= a < |p| ==> p[a] < |items|
    requires forall a :: 0 <= a < |q| ==> q[a] < |items|
    ensures Arrange(items, p + q) == Arrange(items, p) + Arrange(items, q)
  {
  }

  /** A sequence is its part before i, its element at i and its part after i. */
  lemma Around<T>(s: seq<T>, i: nat)
    requires i < |s|
    ensures s == s[..i] + [s[i]] + s[i + 1..]
    ensures i == 0 ==> s == [s[0]] + s[1..]
  {
  }

  /** Taking the same value out of two permutations leaves two permutations. */
  lemma RemoveFromBoth(p: seq<nat>, q: seq<nat>, i: nat)
    requires multiset(p) == multiset(q) && p != [] && i < |q| && q[i] == p[0]
    ensures multiset(p[1..]) == multiset(q[..i] + q[i + 1..])
  {
    var x, left, right := p[0], q[..i], q[i + 1..];
    Around(q, i);
    Around(p, 0);
    assert multiset(q) == multiset(left) + multiset{x} + multiset(right) by {
      assert q == left + [x] + right;
    }
    assert multiset(p) == multiset{x} + multiset(p[1..]) by {
      assert p == [x] + p[1..];
    }
    assert multiset(p[1..]) == multiset(p) - multiset{x};
    assert multiset(left) + multiset(right) == multiset(q) - multiset{x};
    assert multiset(left + right) == multiset(left) + multiset(right);
  }

  predicate Bounded(p: seq<nat>, n: nat)
  {
    forall a :: 0 <= a < |p| ==> p[a] < n
  }

  /** Moving one position from the front into the middle does not change the multiset. */
  lemma ArrangeMove<T>(items: seq<T>, x: nat, rest: seq<nat>, left: seq<nat>, right: seq<nat>)
    requires x < |items| && Bounded(rest, |items|) && Bounded(left, |items|) && Bounded(right, |items|)
    requires multiset(Arrange(items, rest)) == multiset(Arrange(items, left + right))
    ensures multiset(Arrange(items, [x] + rest)) == multiset(Arrange(items, left + [x] + right))
  {
    var ax, al, ar, ap := Arrange(items, [x]), Arrange(items, left), Arrange(items, right), Arrange(items, rest);
    ArrangeAppend(items, [x], rest);
    ArrangeAppend(items, left, [x]);
    ArrangeAppend(items, left + [x], right);
    ArrangeAppend(items, left, right);
    calc {
      multiset(Arrange(items, [x] + rest));
      multiset(ax + ap);
      multiset(ax) + multiset(ap);
      multiset(ax) + multiset(al + ar);
      multiset(al + ax + ar);
      multiset(Arrange(items, left + [x] + right));
    }
  }

  /** Arranging by two permutations of the same positions gives the same multiset of items. */
  lemma {:induction false} ArrangePermutation<T>(items: seq<T>, p: seq<nat>, q: seq<nat>)
    requires multiset(p) == multiset(q)
    requires Bounded(p, |items|)
    ensures Bounded(q, |items|)
    ensures multiset(Arrange(items, p)) == multiset(Arrange(items, q))
  {
    PermutationBound(p, q, |items|);
    if p == [] {
      assert q == [];
    } else {
      var x := p[0];
      assert x in q by {
        assert x in multiset(q);
      }
      var i :| 0 <= i < |q| && q[i] == x;
      var left, right, rest := q[..i], q[i + 1..], p[1..];
      RemoveFromBoth(p, q, i);
      assert Bounded(rest, |items|);
      assert Bounded(left + right, |items|);
      ArrangePermutation(items, rest, left + right);
      ArrangeMove(items, x, rest, left, right);
      Around(q, i);
      Around(p, 0);
    }
  }

  /** items.sort(key=..., reverse=desc), keys[i] being the key of items[i]. */
  function SortBy<T>(items: seq<T>, keys: seq<SortKey>, desc: bool): (r: seq<T>)
    requires |keys| == |items|
    ensures |r| == |items|
  {
    Arrange(items, SortOrder(keys, desc))
  }

  /** The sorted list is a permutation of the list. */
  lemma SortByPermutation<T>(items: seq<T>, keys: seq<SortKey>, desc: bool)
    requires |keys| == |items|
    ensures multiset(SortBy(items, keys, desc)) == multiset(items)
  {
    var p := SortOrder(keys, desc);
    ArrangePermutation(items, p, Range(|items|));
    assert Arrange(items, Range(|items|)) == items;
  }

  /** The keys of the sorted list ascend (descend for reverse=True), and items whose keys tie keep
      the relative order they had: p[a] is where the a-th sorted item stood. */
  lemma SortByOrderedAndStable<T>(items: seq<T>, keys: seq<SortKey>, desc: bool, a: nat, b: nat)
    requires |keys| == |items| && a < b < |items|
    ensures var p := SortOrder(keys, desc);
            && SortBy(items, keys, desc)[a] == items[p[a]]
            && SortBy(items, keys, desc)[b] == items[p[b]]
            && (if desc then !KeyLess(keys[p[a]], keys[p[b]]) else !KeyLess(keys[p[b]], keys[p[a]]))
            && (keys[p[a]] == keys[p[b]] ==> p[a] < p[b])
  {
    var p := SortOrder(keys, desc);
    assert Before(keys, desc, p[a], p[b]);
    BeforeAsymmetric(keys, desc, p[a], p[b]);
    if keys[p[a]] == keys[p[b]] {
      KeyLessIrreflexive(keys[p[a]]);
    }
  }
}
