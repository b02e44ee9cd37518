/** The backpack itself (the `mochila` array and its item count in
    FreeFire.c): insertion at the end, removal of the first item with a given
    name, sequential and binary search by name, and the in-place insertion
    sort with its comparison counter. */
module Store {
  import opened Items
  import opened Sorting

  /** What a lookup or a removal reports. The source prints these outcomes;
      `Found` carries the slot of the item it shows or removes. */
  datatype SearchResult = Found(index: nat) | NotFound | EmptyBackpack | NotSortedByName

  /** The slot of the first item of `s` named `name`, or |s| when no item has
      that name. */
  function FirstMatch(s: seq<Item>, name: string): (r: nat)
    ensures r <= |s|
    ensures r < |s| ==> s[r].name == name
    ensures forall k :: 0 <= k < r ==> s[k].name != name
  {
    if s == [] then 0
    else if s[0].name == name then 0
    else 1 + FirstMatch(s[1..], name)
  }

  /** FirstMatch is characterised by its contract: the slot that holds the
      name, or |s|, with no match before it, is the only such slot. */
  lemma {:induction false} FirstMatchAt(s: seq<Item>, name: string, i: nat)
    requires i <= |s|
    requires i < |s| ==> s[i].name == name
    requires forall k :: 0 <= k < i ==> s[k].name != name
    ensures FirstMatch(s, name) == i
  {
    if s != [] && s[0].name != name {
      FirstMatchAt(s[1..], name, i - 1);
    }
  }

  /** Taking the item at `i` out of `s` loses exactly that item: one fewer
      item, and the same multiset once it is put back. */
  lemma RemovedAtDropsOne(s: seq<Item>, i: nat)
    requires i < |s|
    ensures |s[..i] + s[i + 1..]| == |s| - 1
    ensures multiset(s[..i] + s[i + 1..]) + multiset{s[i]} == multiset(s)
  {
    assert s == s[..i] + [s[i]] + s[i + 1..];
  }

  /** Every item of `s` is well formed. */
  ghost predicate WellFormedAll(s: seq<Item>) {
    forall k :: 0 <= k < |s| ==> WellFormed(s[k])
  }

  /** The stored items of a well-formed sequence stay well formed under any
      reordering. */
  lemma PermutationKeepsWellFormed(a: seq<Item>, b: seq<Item>)
    requires multiset(a) == multiset(b)
    requires WellFormedAll(a)
    ensures WellFormedAll(b)
  {
    forall k | 0 <= k < |b| ensures WellFormed(b[k]) {
      assert b[k] in multiset(b);
      var j :| 0 <= j < |a| && a[j] == b[k];
    }
  }

  /** Moving every item after slot `i` down one slot takes the item at `i`
      out of the first `n` slots and keeps the others in order. */
  lemma ShiftedRemovesAt(before: seq<Item>, after: seq<Item>, i: nat, n: nat)
    requires i < n <= |before| && |after| == |before|
    requires forall k :: 0 <= k < i ==> after[k] == before[k]
    requires forall k :: i <= k < n - 1 ==> after[k] == before[k + 1]
    ensures after[..n - 1] == before[..n][..i] + before[..n][i + 1..]
    ensures WellFormedAll(before[..n]) ==> WellFormedAll(after[..n - 1])
  {
    var rest := before[..n][..i] + before[..n][i + 1..];
    forall k | 0 <= k < n - 1 ensures after[k] == rest[k] {
      if k < i {
        assert rest[k] == before[k];
      } else {
        assert rest[k] == before[k + 1];
      }
    }
  }

  /** Items before slot `m` in place, the key at `m` and the rest one slot up
      make the first |t|+1 slots the key inserted into `t` at `m`. */
  lemma PlacedAt(a: seq<Item>, t: seq<Item>, key: Item, m: nat)
    requires m <= |t| < |a|
    requires forall k :: 0 <= k < m ==> a[k] == t[k]
    requires a[m] == key
    requires forall k :: m < k <= |t| ==> a[k] == t[k - 1]
    ensures a[..|t| + 1] == t[..m] + [key] + t[m..]
  {
    var r := t[..m] + [key] + t[m..];
    forall k | 0 <= k <= |t| ensures a[k] == r[k] {
      if k < m {
        assert r[k] == t[k];
      } else if k > m {
        assert r[k] == t[k - 1];
      }
    }
  }

  /** One pass of the outer loop on the array contents `before`: once the
      scan has stopped at `j` with the items after it moved up one slot,
      writing the key into slot j+1 gives the pass's insertion, and the
      comparisons made are the pass's cost. */
  lemma PassResult(before: seq<Item>, mid: seq<Item>, i: nat, j: int, c: int)
    requires 1 <= i < |before| == |mid| && -1 <= j < i
    requires forall k :: 0 <= k <= j ==> mid[k] == before[k]
    requires forall k :: j < k < i ==> mid[k + 1] == before[k] && Compare(before[k], before[i], c) > 0
    requires j >= 0 ==> Compare(before[j], before[i], c) <= 0
    ensures mid[j + 1 := before[i]][..i + 1] == InsertBack(before[..i], before[i], c)
    ensures (if j >= 0 then i - j else i) == InsertCost(before[..i], before[i], c)
  {
    var t, key, m := before[..i], before[i], j + 1;
    assert forall k :: m <= k < |t| ==> t[k] == before[k];
    InsertBackAt(t, key, c, m);
    InsertCostAt(t, key, c, m);
    PlacedAt(mid[m := key], t, key, m);
  }

  class Backpack {
    /** The fixed-size item array (mochila[MAX_ITENS]). */
    const items: array<Item>
    /** How many leading slots hold items (numItens). */
    var total: nat

    ghost predicate Valid()
      reads this, items
    {
      items.Length == MaxItems && total <= MaxItems && WellFormedAll(items[..total])
    }

    /** The items in the backpack, in slot order. */
    ghost function Contents(): seq<Item>
      reads this, items
      requires Valid()
    {
      items[..total]
    }

    /** The empty backpack the program starts with. */
    constructor ()
      ensures Valid() && fresh(items) && Contents() == []
    {
      items := new Item[MaxItems];
      total := 0;
    }

    /** adicionarItem: when the backpack is full nothing changes; otherwise
        `x` goes into the first free slot and the count grows by one. */
    method Add(x: Item) returns (added: bool)
      requires Valid() && WellFormed(x)
      modifies this, items
      ensures Valid()
      ensures added <==> old(total) < MaxItems
      ensures Contents() == if added then old(Contents()) + [x] else old(Contents())
      ensures added ==> items[old(total)] == x
      ensures forall k :: 0 <= k < items.Length && k != old(total) ==> items[k] == old(items[k])
      ensures !added ==> items[..] == old(items[..])
    {
      if total >= MaxItems {
        return false;
      }
      items[total] := x;
      total := total + 1;
      return true;
    }

    /** removerItem: on an empty backpack, or when no item has the name,
        nothing changes; otherwise the first item with that name is taken out
        and the items after it move down one slot, keeping their order. The
        slots from the old last one on keep what they held. */
    method Remove(name: string) returns (r: SearchResult)
      requires Valid()
      modifies this, items
      ensures Valid()
      ensures old(total) == 0 <==> r == EmptyBackpack
      ensures r.Found? <==> old(total) > 0 && FirstMatch(old(Contents()), name) < old(total)
      ensures r.Found? ==> r.index == FirstMatch(old(Contents()), name)
      ensures r.NotFound? <==> old(total) > 0 && FirstMatch(old(Contents()), name) == old(total)
      ensures r.Found? ==> Contents() == old(Contents())[..r.index] + old(Contents())[r.index + 1..]
      ensures !r.Found? ==> total == old(total) && items[..] == old(items[..])
      ensures forall k :: 0 <= k < items.Length && old(total) <= k + 1 ==> items[k] == old(items[k])
    {
      if total == 0 {
        return EmptyBackpack;
      }
      var found := -1;
      for i := 0 to total
        invariant found == -1
        invariant forall k :: 0 <= k < i ==> items[k].name != name
      {
        if items[i].name == name {
          found := i;
          break;
        }
      }
      ghost var before := items[..];
      ghost var n := total;
      if found == -1 {
        FirstMatchAt(before[..n], name, n);
        return NotFound;
      }
      FirstMatchAt(before[..n], name, found);
      assert before[..n] == old(Contents());
      ShiftDown(found, total);
      ghost var after := items[..];
      ShiftedRemovesAt(before, after, found, n);
      total := total - 1;
      assert Contents() == after[..n - 1];
      return Found(found);
    }

    /** The shifting loop of removerItem: every item in slots i+1..n-1 moves
        down one slot, overwriting slot i; slot n-1 keeps its old item. */
    method ShiftDown(i: nat, n: nat)
      requires i < n <= items.Length
      modifies items
      ensures forall k :: 0 <= k < i ==> items[k] == old(items[k])
      ensures forall k :: i <= k < n - 1 ==> items[k] == old(items[k + 1])
      ensures forall k :: n - 1 <= k < items.Length ==> items[k] == old(items[k])
    {
      var j := i;
      while j < n - 1
        invariant i <= j < n
        invariant forall k :: 0 <= k < items.Length ==> items[k] == if i <= k < j then old(items[k + 1]) else old(items[k])
      {
        items[j] := items[j + 1];
        j := j + 1;
      }
    }

    /** buscarItem: an empty backpack is reported as such; otherwise the
        first slot holding an item with the name, or not found. */
    method Find(name: string) returns (r: SearchResult)
      requires Valid()
      ensures total == 0 <==> r == EmptyBackpack
      ensures r.Found? <==> total > 0 && FirstMatch(Contents(), name) < total
      ensures r.Found? ==> r.index == FirstMatch(Contents(), name)
      ensures r.NotFound? <==> total > 0 && FirstMatch(Contents(), name) == total
    {
      if total == 0 {
        return EmptyBackpack;
      }
      var found := false;
      r := NotFound;
      for i := 0 to total
        invariant !found && r == NotFound
        invariant forall k :: 0 <= k < i ==> items[k].name != name
      {
        if items[i].name == name {
          r := Found(i);
          found := true;
          break;
        }
      }
      FirstMatchAt(Contents(), name, if r.Found? then r.index else total);
    }

    /** ordenarMochila: sorts the occupied slots in place by the criterion and
        returns the comparison counter, which it resets itself. The result is
        the functional insertion sort of the old contents, so it is ordered,
        a permutation and stable (see Sorting). */
    method Sort(c: int) returns (comparisons: nat)
      requires Valid()
      modifies items
      ensures Valid()
      ensures Contents() == InsertionSort(old(Contents()), c)
      ensures comparisons == SortComparisons(old(Contents()), c)
      ensures forall k :: total <= k < items.Length ==> items[k] == old(items[k])
    {
      comparisons := 0;
      ghost var orig := items[..];
      var i := 1;
      while i < total
        invariant 1 <= i <= items.Length && (i <= total || i == 1)
        invariant items[..i] == InsertionSort(orig[..i], c)
        invariant comparisons == SortComparisons(orig[..i], c)
        invariant forall k :: i <= k < items.Length ==> items[k] == orig[k]
        invariant forall k :: total <= k < items.Length ==> items[k] == orig[k]
      {
        SortPrefixStep(orig, i, c);
        var cost := InsertPass(i, c);
        comparisons := comparisons + cost;
        i := i + 1;
      }
      assert orig[..total] == old(Contents());
      if total == 0 {
        assert orig[..0] == [];
        assert SortComparisons(orig[..1], c) == 0;
      } else {
        assert i == total;
      }
      assert comparisons == SortComparisons(orig[..total], c);
      assert WellFormedAll(orig[..total]);
      InsertionSortPermutes(orig[..total], c);
      PermutationKeepsWellFormed(orig[..total], items[..total]);
    }

    /** One round of ordenarMochila's outer loop: the item in slot `i` is
        held as the key while the items before it that compare greater move
        up one slot; the key then fills the gap. Every comparator evaluation
        is counted: one per moved item, and one more when the scan stopped at
        an item that does not compare greater rather than at slot 0. */
    method InsertPass(i: nat, c: int) returns (cost: nat)
      requires 1 <= i < items.Length
      modifies items
      ensures items[..i + 1] == InsertBack(old(items[..i]), old(items[i]), c)
      ensures cost == InsertCost(old(items[..i]), old(items[i]), c)
      ensures forall k :: i < k < items.Length ==> items[k] == old(items[k])
    {
      ghost var before := items[..];
      var key := items[i];
      var j;
      j, cost := ShiftGreater(i, key, c);
      ghost var mid := items[..];
      PassResult(before, mid, i, j, c);
      if j >= 0 {
        cost := cost + 1;
      }
      items[j + 1] := key;
      assert items[..] == mid[j + 1 := key];
      assert before[..i] == old(items[..i]);
    }

    /** The inner loop of ordenarMochila: scanning down from slot i-1, every
        item that compares greater than the key moves up one slot, one counted
        comparison each. The scan stops at slot -1 or at the first item that
        does not compare greater, whose slot is returned. */
    method ShiftGreater(i: nat, key: Item, c: int) returns (j: int, moved: nat)
      requires 1 <= i < items.Length
      modifies items
      ensures -1 <= j < i && moved == i - 1 - j
      ensures j >= 0 ==> Compare(old(items[j]), key, c) <= 0
      ensures forall k :: 0 <= k <= j ==> items[k] == old(items[k])
      ensures items[j + 1] == old(items[j + 1])
      ensures forall k :: j < k < i ==> items[k + 1] == old(items[k]) && Compare(old(items[k]), key, c) > 0
      ensures forall k :: i < k < items.Length ==> items[k] == old(items[k])
    {
      moved := 0;
      j := i - 1;
      while j >= 0 && Compare(items[j], key, c) > 0
        invariant -1 <= j < i && moved == i - 1 - j
        invariant forall k :: 0 <= k < items.Length ==> items[k] == if j + 1 < k <= i then old(items[k - 1]) else old(items[k])
        invariant forall k :: j < k < i ==> Compare(old(items[k]), key, c) > 0
        decreases j
      {
        moved := moved + 1;
        items[j + 1] := items[j];
        j := j - 1;
      }
    }

    /** buscaBinaria: an empty backpack is reported first, then a backpack not
        known to be sorted by name; otherwise interval halving over the
        occupied slots. A reported slot always holds the name; when the
        contents really are sorted by name, "not found" means no slot does. */
    method BinarySearch(name: string, sortedByName: bool) returns (r: SearchResult)
      requires Valid()
      ensures total == 0 <==> r == EmptyBackpack
      ensures r == NotSortedByName <==> total > 0 && !sortedByName
      ensures r.Found? ==> r.index < total && items[r.index].name == name
      ensures r.NotFound? && SortedBy(Contents(), ByName) ==>
        forall k :: 0 <= k < total ==> items[k].name != name
    {
      if total == 0 {
        return EmptyBackpack;
      }
      if !sortedByName {
        return NotSortedByName;
      }
      ghost var sorted := SortedBy(Contents(), ByName);
      if sorted {
        SortedPairwise(Contents(), ByName);
      }
      var low, high := 0, total - 1;
      r := NotFound;
      while low <= high
        invariant r == NotFound
        invariant 0 <= low <= total && -1 <= high < total && low <= high + 1
        invariant sorted ==> forall k :: 0 <= k < low ==> items[k].name != name
        invariant sorted ==> forall k :: high < k < total ==> items[k].name != name
        decreases high - low
      {
        var mid := (low + high) / 2;
        var cmp := StrCmp(items[mid].name, name);
        if cmp == 0 {
          r := Found(mid);
          break;
        } else if cmp < 0 {
          if sorted {
            forall k | 0 <= k <= mid ensures items[k].name != name {
              if k < mid {
                assert Compare(Contents()[k], Contents()[mid], ByName) <= 0;
                StrCmpAntisymmetric(items[k].name, items[mid].name);
              }
            }
          }
          low := mid + 1;
        } else {
          if sorted {
            forall k | mid <= k < total ensures items[k].name != name {
              if k > mid {
                assert Compare(Contents()[mid], Contents()[k], ByName) <= 0;
              }
            }
          }
          high := mid - 1;
        }
      }
    }
  }
}
