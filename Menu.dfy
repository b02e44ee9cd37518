/** The state the menu loop of `main` (FreeFire.c) keeps between choices: the
    backpack and the flag `ordenadaPorNome`, which claims the backpack is in
    name order and is the only gate of binary search. Each method is one menu
    choice with its console prompts replaced by parameters and its messages
    by results. The object invariant is that the flag never lies. */
module Menu {
  import opened Items
  import opened Sorting
  import opened Store

  /** What choosing "sort" reports: the comparison counter after a sort, an
      empty backpack, or a criterion code outside 1..3. */
  datatype SortOutcome = Sorted(comparisons: nat) | NothingToSort | InvalidCriterion

  class Session {
    const pack: Backpack
    /** ordenadaPorNome */
    var sortedByName: bool

    ghost predicate Valid()
      reads this, pack, pack.items
    {
      pack.Valid() && (sortedByName ==> SortedBy(pack.Contents(), ByName))
    }

    /** Program start: an empty backpack, not known to be sorted. */
    constructor ()
      ensures Valid() && fresh(pack) && fresh(pack.items)
      ensures pack.Contents() == [] && !sortedByName
    {
      pack := new Backpack();
      sortedByName := false;
    }

    /** Choice 1: add an item, then drop the flag, whether or not the item
        fit. */
    method ChooseAdd(x: Item) returns (added: bool)
      requires Valid() && WellFormed(x)
      modifies this, pack, pack.items
      ensures Valid() && !sortedByName
      ensures added <==> old(pack.total) < MaxItems
      ensures pack.Contents() == if added then old(pack.Contents()) + [x] else old(pack.Contents())
    {
      added := pack.Add(x);
      sortedByName := false;
    }

    /** Choice 2: remove the first item with the name, then drop the flag,
        whether or not anything was removed. */
    method ChooseRemove(name: string) returns (r: SearchResult)
      requires Valid()
      modifies this, pack, pack.items
      ensures Valid() && !sortedByName
      ensures old(pack.total) == 0 <==> r == EmptyBackpack
      ensures r.Found? <==> old(pack.total) > 0 && FirstMatch(old(pack.Contents()), name) < old(pack.total)
      ensures r.NotFound? <==> old(pack.total) > 0 && FirstMatch(old(pack.Contents()), name) == old(pack.total)
      ensures r.Found? ==> r.index == FirstMatch(old(pack.Contents()), name)
      ensures r.Found? ==> pack.Contents() == old(pack.Contents())[..r.index] + old(pack.Contents())[r.index + 1..]
      ensures !r.Found? ==> pack.Contents() == old(pack.Contents())
    {
      r := pack.Remove(name);
      sortedByName := false;
    }

    /** Choice 5: on an empty backpack or an invalid criterion nothing
        changes, the flag included; otherwise the backpack is sorted and the
        flag becomes "the criterion was the name". */
    method ChooseSort(c: int) returns (r: SortOutcome)
      requires Valid()
      modifies this, pack.items
      ensures Valid()
      ensures old(pack.total) == 0 ==> r == NothingToSort
      ensures old(pack.total) > 0 && !IsCriterion(c) ==> r == InvalidCriterion
      ensures !r.Sorted? ==> pack.Contents() == old(pack.Contents()) && sortedByName == old(sortedByName)
      ensures r.Sorted? <==> old(pack.total) > 0 && IsCriterion(c)
      ensures r.Sorted? ==> pack.Contents() == InsertionSort(old(pack.Contents()), c)
      ensures r.Sorted? ==> r.comparisons == SortComparisons(old(pack.Contents()), c)
      ensures r.Sorted? ==> sortedByName == (c == ByName)
    {
      if pack.total == 0 {
        return NothingToSort;
      }
      if !IsCriterion(c) {
        return InvalidCriterion;
      }
      var comparisons := pack.Sort(c);
      InsertionSortSorted(old(pack.Contents()), c);
      sortedByName := c == ByName;
      return Sorted(comparisons);
    }

    /** Choice 6: binary search gated by the flag. Because the flag never
        lies, a "not found" from here is always right. */
    method ChooseBinarySearch(name: string) returns (r: SearchResult)
      requires Valid()
      ensures pack.total == 0 <==> r == EmptyBackpack
      ensures r == NotSortedByName <==> pack.total > 0 && !sortedByName
      ensures r.Found? ==> r.index < pack.total && pack.items[r.index].name == name
      ensures r.NotFound? ==> forall k :: 0 <= k < pack.total ==> pack.items[k].name != name
    {
      r := pack.BinarySearch(name, sortedByName);
    }
  }

  /** A session as a caller sees it: three items added and sorted by name,
      which takes three comparisons and sets the flag. */
  method ExampleSession()
  {
    var medkit, rope, ammo := Item("Medkit", "Heal", 2, 5), Item("Rope", "Tool", 1, 3), Item("Ammo", "Weapon", 40, 4);
    var session := new Session();
    var added := session.ChooseAdd(medkit);
    added := session.ChooseAdd(rope);
    added := session.ChooseAdd(ammo);
    assert session.pack.Contents() == [medkit, rope, ammo];
    var sorted := session.ChooseSort(ByName);
    NameSortExample();
    assert sorted == Sorted(3);
    assert session.pack.Contents() == [ammo, medkit, rope];
    assert session.sortedByName;
    SearchExample(session);
  }

  /** Binary searches on the sorted session above: "Rope" is found in the
      last slot, "Knife" is reported missing. */
  method SearchExample(session: Session)
    requires session.Valid() && session.sortedByName
    requires session.pack.Contents() == [Item("Ammo", "Weapon", 40, 4), Item("Medkit", "Heal", 2, 5), Item("Rope", "Tool", 1, 3)]
  {
    var r := session.ChooseBinarySearch("Rope");
    assert session.pack.items[2].name == "Rope";
    assert r.Found?;
    assert session.pack.items[0].name[0] == 'A' && session.pack.items[1].name[0] == 'M';
    assert r.index == 2;
    r := session.ChooseBinarySearch("Knife");
    assert "Knife"[0] == 'K' && session.pack.items[2].name[0] == 'R';
    assert r == NotFound;
  }

  /** Filling the backpack: the eleventh item is refused, and after one
      removal there is room again. */
  method CapacityExample()
  {
    var session := new Session();
    var x := Item("Bandage", "Heal", 1, 2);
    for i := 0 to MaxItems
      invariant session.Valid() && fresh(session.pack) && fresh(session.pack.items)
      invariant session.pack.total == i
      invariant session.pack.Contents() == seq(i, _ => x)
    {
      var added := session.ChooseAdd(x);
    }
    var added := session.ChooseAdd(x);
    assert !added && session.pack.total == MaxItems;
    var removed := session.ChooseRemove("Bandage");
    assert session.pack.Contents()[0].name == "Bandage";
    assert removed == Found(0);
    added := session.ChooseAdd(x);
    assert added;
  }
}
