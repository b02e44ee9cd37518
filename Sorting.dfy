/** The insertion sort of ordenarMochila (FreeFire.c) as functions on
    sequences: what one pass of the outer loop does to the sorted prefix,
    what the whole sort produces and how many comparisons it makes, and the
    properties the sort promises (ordered, a permutation, stable, a bounded
    and exactly known number of comparisons). */
module Sorting {
  import opened Items

  /** Every adjacent pair is in order: non-decreasing by name or kind,
      non-increasing by priority. */
  predicate SortedBy(s: seq<Item>, c: int) {
    forall k :: 0 <= k < |s| - 1 ==> Compare(s[k], s[k + 1], c) <= 0
  }

  /** Sorted by priority means priorities never increase from one item to
      the next. */
  lemma SortedByPriorityMeans(s: seq<Item>)
    ensures SortedBy(s, ByPriority) <==> forall k :: 0 <= k < |s| - 1 ==> s[k].priority >= s[k + 1].priority
  {
    if SortedBy(s, ByPriority) {
      forall k | 0 <= k < |s| - 1 ensures s[k].priority >= s[k + 1].priority {
        assert Compare(s[k], s[k + 1], ByPriority) <= 0;
      }
    }
  }

  /** Sorted by name means each name equals or lexicographically precedes
      the next one. */
  lemma SortedByNameMeans(s: seq<Item>)
    ensures SortedBy(s, ByName) <==>
      forall k :: 0 <= k < |s| - 1 ==> s[k].name == s[k + 1].name || LexLess(s[k].name, s[k + 1].name)
  {
    forall k | 0 <= k < |s| - 1
      ensures Compare(s[k], s[k + 1], ByName) <= 0 <==> s[k].name == s[k + 1].name || LexLess(s[k].name, s[k + 1].name)
    {
      CompareIsLexicographic(s[k], s[k + 1]);
    }
  }

  /** One pass of the outer loop: `key` enters at the right end of the
      sorted prefix `t` and moves left past every item comparing greater. */
  function InsertBack(t: seq<Item>, key: Item, c: int): (r: seq<Item>)
    ensures |r| == |t| + 1
  {
    if t == [] then [key]
    else if Compare(t[|t| - 1], key, c) > 0 then
      InsertBack(t[..|t| - 1], key, c) + [t[|t| - 1]]
    else t + [key]
  }

  /** Comparator evaluations made by that pass: one per shifted item, plus
      the one that stopped the scan when it did not run off the left end. */
  function InsertCost(t: seq<Item>, key: Item, c: int): (r: nat)
    ensures r <= |t|
    ensures t != [] ==> r >= 1
  {
    if t == [] then 0
    else if Compare(t[|t| - 1], key, c) > 0 then 1 + InsertCost(t[..|t| - 1], key, c)
    else 1
  }

  /** The result of sorting `s`: each item in turn inserted into the sorted
      prefix before it. */
  function InsertionSort(s: seq<Item>, c: int): (r: seq<Item>)
    ensures |r| == |s|
  {
    if s == [] then []
    else InsertBack(InsertionSort(s[..|s| - 1], c), s[|s| - 1], c)
  }

  /** The comparison counter reported after sorting `s`. */
  function SortComparisons(s: seq<Item>, c: int): (r: nat)
  {
    if s == [] then 0
    else SortComparisons(s[..|s| - 1], c) + InsertCost(InsertionSort(s[..|s| - 1], c), s[|s| - 1], c)
  }

  /** Sorting one more item of `s` is one more pass over the sorted prefix. */
  lemma SortPrefixStep(s: seq<Item>, i: nat, c: int)
    requires i < |s|
    ensures InsertionSort(s[..i + 1], c) == InsertBack(InsertionSort(s[..i], c), s[i], c)
    ensures SortComparisons(s[..i + 1], c) == SortComparisons(s[..i], c) + InsertCost(InsertionSort(s[..i], c), s[i], c)
  {
    assert s[..i + 1][..i] == s[..i];
  }

  /** Sorting `p` followed by `l` is sorting `p`, then one pass for `l`. */
  lemma InsertionSortSnoc(p: seq<Item>, l: Item, c: int)
    ensures InsertionSort(p + [l], c) == InsertBack(InsertionSort(p, c), l, c)
  {
    assert (p + [l])[..|p|] == p;
  }

  /** A pass neither loses nor duplicates an item. */
  lemma {:induction false} InsertBackPermutes(t: seq<Item>, key: Item, c: int)
    ensures multiset(InsertBack(t, key, c)) == multiset(t) + multiset{key}
  {
    if t != [] && Compare(t[|t| - 1], key, c) > 0 {
      var t', l := t[..|t| - 1], t[|t| - 1];
      InsertBackPermutes(t', key, c);
      assert InsertBack(t, key, c) == InsertBack(t', key, c) + [l];
      assert t == t' + [l];
      assert multiset(t) == multiset(t') + multiset{l};
    }
  }

  /** ordenarMochila only reorders: the result is a permutation of the input. */
  lemma {:induction false} InsertionSortPermutes(s: seq<Item>, c: int)
    ensures multiset(InsertionSort(s, c)) == multiset(s)
  {
    if s != [] {
      var p, l := s[..|s| - 1], s[|s| - 1];
      assert s == p + [l];
      InsertionSortSnoc(p, l, c);
      InsertionSortPermutes(p, c);
      InsertBackPermutes(InsertionSort(p, c), l, c);
    }
  }

  /** The pass as the in-place loop performs it: when the items of `t` from
      index `m` on all compare greater than `key` and the one before `m` (if
      any) does not, `key` lands at index `m` and the rest move up by one. */
  lemma {:induction false} InsertBackAt(t: seq<Item>, key: Item, c: int, m: nat)
    requires m <= |t|
    requires forall k :: m <= k < |t| ==> Compare(t[k], key, c) > 0
    requires m > 0 ==> Compare(t[m - 1], key, c) <= 0
    ensures InsertBack(t, key, c) == t[..m] + [key] + t[m..]
  {
    if m < |t| {
      var t' := t[..|t| - 1];
      var l := t[|t| - 1];
      assert InsertBack(t, key, c) == InsertBack(t', key, c) + [l] by {
        assert Compare(l, key, c) > 0;
      }
      InsertBackAt(t', key, c, m);
      assert t'[..m] == t[..m];
      assert t'[m..] + [l] == t[m..];
    } else if t != [] {
      assert t[..m] == t && t[m..] == [];
    }
  }

  /** Under the same conditions the pass costs one comparison per shifted
      item plus one for the item at `m - 1`, if there is one. */
  lemma {:induction false} InsertCostAt(t: seq<Item>, key: Item, c: int, m: nat)
    requires m <= |t|
    requires forall k :: m <= k < |t| ==> Compare(t[k], key, c) > 0
    requires m > 0 ==> Compare(t[m - 1], key, c) <= 0
    ensures InsertCost(t, key, c) == |t| - m + (if m > 0 then 1 else 0)
  {
    if m < |t| {
      var t' := t[..|t| - 1];
      assert InsertCost(t, key, c) == 1 + InsertCost(t', key, c) by {
        assert Compare(t[|t| - 1], key, c) > 0;
      }
      InsertCostAt(t', key, c, m);
    }
  }

  /** The last item of a pass's result is the key or the prefix's last item. */
  lemma InsertBackLast(t: seq<Item>, key: Item, c: int)
    ensures var r := InsertBack(t, key, c);
      r[|r| - 1] == key || (t != [] && r[|r| - 1] == t[|t| - 1])
  {
  }

  /** A pass keeps a sorted prefix sorted. */
  lemma {:induction false} InsertBackSorted(t: seq<Item>, key: Item, c: int)
    requires SortedBy(t, c)
    ensures SortedBy(InsertBack(t, key, c), c)
  {
    if t != [] && Compare(t[|t| - 1], key, c) > 0 {
      var t' := t[..|t| - 1];
      var l := t[|t| - 1];
      SortedDropLast(t, c);
      InsertBackSorted(t', key, c);
      var r' := InsertBack(t', key, c);
      InsertBackLast(t', key, c);
      if r'[|r'| - 1] == key {
        CompareAntisymmetric(l, key, c);
      } else {
        assert Compare(t[|t| - 2], t[|t| - 1], c) <= 0;
      }
      var r := r' + [l];
      forall k | 0 <= k < |r| - 1 ensures Compare(r[k], r[k + 1], c) <= 0 {
        if k < |r'| - 1 {
          assert r[k] == r'[k] && r[k + 1] == r'[k + 1];
        }
      }
    }
  }

  /** After ordenarMochila every adjacent pair is in order. */
  lemma {:induction false} InsertionSortSorted(s: seq<Item>, c: int)
    ensures SortedBy(InsertionSort(s, c), c)
  {
    if s != [] {
      InsertionSortSorted(s[..|s| - 1], c);
      InsertBackSorted(InsertionSort(s[..|s| - 1], c), s[|s| - 1], c);
    }
  }

  /** One link of the chain from `k` to `l` in a sorted sequence. */
  lemma {:induction false} SortedAt(s: seq<Item>, c: int, k: nat, l: nat)
    requires SortedBy(s, c) && k < l < |s|
    ensures Compare(s[k], s[l], c) <= 0
  {
    if l > k + 1 {
      SortedAt(s, c, k, l - 1);
      CompareTransitive(s[k], s[l - 1], s[l], c);
    }
  }

  /** Adjacent order gives order of every pair: each item goes no later than
      every item after it. */
  lemma SortedPairwise(s: seq<Item>, c: int)
    requires SortedBy(s, c)
    ensures forall k, l :: 0 <= k < l < |s| ==> Compare(s[k], s[l], c) <= 0
  {
    forall k, l | 0 <= k < l < |s| ensures Compare(s[k], s[l], c) <= 0 {
      SortedAt(s, c, k, l);
    }
  }

  /** The items of `s` that tie with `x` under the criterion, in their order
      in `s`. */
  function Equivalents(s: seq<Item>, x: Item, c: int): (r: seq<Item>)
    ensures |r| <= |s|
  {
    if s == [] then []
    else Equivalents(s[..|s| - 1], x, c) + (if Compare(s[|s| - 1], x, c) == 0 then [s[|s| - 1]] else [])
  }

  /** The tie class of a one-item sequence. */
  function Tie(y: Item, x: Item, c: int): (r: seq<Item>) {
    if Compare(y, x, c) == 0 then [y] else []
  }

  /** Appending one item to `s` appends it to its tie class. */
  lemma EquivalentsSnoc(s: seq<Item>, y: Item, x: Item, c: int)
    ensures Equivalents(s + [y], x, c) == Equivalents(s, x, c) + Tie(y, x, c)
  {
    assert (s + [y])[..|s|] == s;
  }

  /** A pass appends the key to the key's tie class and leaves every other
      tie class as it was. */
  lemma {:induction false} InsertBackEquivalents(t: seq<Item>, key: Item, x: Item, c: int)
    ensures Equivalents(InsertBack(t, key, c), x, c) == Equivalents(t, x, c) + Tie(key, x, c)
  {
    if t == [] {
      EquivalentsSnoc([], key, x, c);
      assert [] + [key] == [key];
    } else if Compare(t[|t| - 1], key, c) > 0 {
      var t' := t[..|t| - 1];
      var l := t[|t| - 1];
      var r' := InsertBack(t', key, c);
      assert InsertBack(t, key, c) == r' + [l];
      InsertBackEquivalents(t', key, x, c);
      EquivalentsSnoc(r', l, x, c);
      EquivalentsSnoc(t', l, x, c);
      assert t' + [l] == t;
      assert Tie(key, x, c) == [] || Tie(l, x, c) == [] by {
        CompareTiesOneClass(l, key, x, c);
      }
    } else {
      assert InsertBack(t, key, c) == t + [key];
      EquivalentsSnoc(t, key, x, c);
    }
  }

  /** ordenarMochila is stable: for every item `x`, the items tying with `x`
      come out in the order they went in. */
  lemma {:induction false} InsertionSortStable(s: seq<Item>, x: Item, c: int)
    ensures Equivalents(InsertionSort(s, c), x, c) == Equivalents(s, x, c)
  {
    if s != [] {
      var p := s[..|s| - 1];
      InsertionSortStable(p, x, c);
      InsertBackEquivalents(InsertionSort(p, c), s[|s| - 1], x, c);
    }
  }

  lemma TriangleStep(m: nat)
    ensures m * (m - 1) + 2 * m == (m + 1) * m
  {
  }

  /** The comparison counter is at least n - 1 and at most n(n - 1)/2. */
  lemma {:induction false} SortComparisonsBounds(s: seq<Item>, c: int)
    ensures s != [] ==> |s| - 1 <= SortComparisons(s, c)
    ensures 2 * SortComparisons(s, c) <= |s| * (|s| - 1)
  {
    if s != [] {
      var p := s[..|s| - 1];
      SortComparisonsBounds(p, c);
      TriangleStep(|p|);
    }
  }

  /** Dropping the last item keeps a sequence sorted. */
  lemma SortedDropLast(s: seq<Item>, c: int)
    requires SortedBy(s, c) && s != []
    ensures SortedBy(s[..|s| - 1], c)
  {
    var p := s[..|s| - 1];
    forall k | 0 <= k < |p| - 1 ensures Compare(p[k], p[k + 1], c) <= 0 {
      assert p[k] == s[k] && p[k + 1] == s[k + 1];
    }
  }

  /** Sorting input already in order changes nothing and costs exactly one
      comparison per item after the first. */
  lemma {:induction false} SortedInputUnchanged(s: seq<Item>, c: int)
    requires SortedBy(s, c)
    ensures InsertionSort(s, c) == s
    ensures SortComparisons(s, c) == if s == [] then 0 else |s| - 1
  {
    if s != [] {
      var p, l := s[..|s| - 1], s[|s| - 1];
      SortedDropLast(s, c);
      SortedInputUnchanged(p, c);
      assert InsertionSort(s, c) == InsertBack(p, l, c);
      assert SortComparisons(s, c) == SortComparisons(p, c) + InsertCost(p, l, c);
      if p != [] {
        assert Compare(p[|p| - 1], l, c) <= 0 by {
          assert p[|p| - 1] == s[|s| - 2];
        }
      }
      assert p + [l] == s;
    }
  }

  /** Sorting twice by the same criterion gives the order of sorting once,
      and the second sort makes exactly n - 1 comparisons. */
  lemma SortIdempotent(s: seq<Item>, c: int)
    ensures InsertionSort(InsertionSort(s, c), c) == InsertionSort(s, c)
    ensures SortComparisons(InsertionSort(s, c), c) == if s == [] then 0 else |s| - 1
  {
    InsertionSortSorted(s, c);
    SortedInputUnchanged(InsertionSort(s, c), c);
  }

  /** Sorting Medkit, Rope, Ammo by name gives Ammo, Medkit, Rope after three
      comparator evaluations: one for Rope against Medkit, two while Ammo
      moves to slot 0, and none charged for reaching the left end. */
  lemma NameSortExample()
    ensures var medkit, rope, ammo := Item("Medkit", "Heal", 2, 5), Item("Rope", "Tool", 1, 3), Item("Ammo", "Weapon", 40, 4);
      InsertionSort([medkit, rope, ammo], ByName) == [ammo, medkit, rope] &&
      SortComparisons([medkit, rope, ammo], ByName) == 3
  {
    var medkit, rope, ammo := Item("Medkit", "Heal", 2, 5), Item("Rope", "Tool", 1, 3), Item("Ammo", "Weapon", 40, 4);
    var s := [medkit, rope, ammo];
    assert StrCmp("Medkit", "Rope") < 0 && StrCmp("Rope", "Ammo") > 0 && StrCmp("Medkit", "Ammo") > 0 by {
      assert "Medkit"[0] == 'M' && "Rope"[0] == 'R' && "Ammo"[0] == 'A';
    }
    assert [medkit][..0] == [] && [medkit, rope][..1] == [medkit];
    assert s[..2] == [medkit, rope] && s[2] == ammo;
    assert InsertionSort([medkit], ByName) == [medkit] && SortComparisons([medkit], ByName) == 0;
    assert InsertBack([medkit], rope, ByName) == [medkit, rope] && InsertCost([medkit], rope, ByName) == 1;
    assert InsertionSort([medkit, rope], ByName) == [medkit, rope];
    assert SortComparisons([medkit, rope], ByName) == 1;
    assert InsertBack([medkit], ammo, ByName) == [ammo, medkit] && InsertCost([medkit], ammo, ByName) == 1;
    assert InsertBack([medkit, rope], ammo, ByName) == [ammo, medkit, rope];
    assert InsertCost([medkit, rope], ammo, ByName) == 2;
  }
}
