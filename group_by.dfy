/**
 * The incremental group-by operator over an observable, ordered source, with
 * the key selector `p => p.Value1`.  The operator keeps the source it has
 * seen and its published list of groups, and updates the groups in place on
 * each change notification: an addition, an insertion at an index, a removal
 * at an index, or a change of one item's key property.
 */
module GroupBy {
  import opened Grouping
  import opened FirstOccurrence

  class GroupByOperation<T(==)> {
    /** The items of the observed collection, in collection order. */
    var source: seq<Item<T>>
    /** The published groups, in enumeration order. */
    var groups: seq<Group<T>>

    /** The groups partition the source by key. */
    ghost predicate Valid()
      reads this
    {
      Consistent(source, groups)
    }

    /** The groups are listed in order of their keys' first occurrence, as a from-scratch build lists them. */
    ghost predicate InOrder()
      reads this
    {
      GroupKeys(groups) == FirstKeys(source)
    }

    /** Groups an initial collection by feeding its items in, front to back. */
    constructor (s: seq<Item<T>>)
      ensures Valid() && InOrder()
      ensures source == s && groups == Build(s)
    {
      source := [];
      groups := [];
      new;
      var n := 0;
      while n < |s|
        invariant n <= |s|
        invariant Valid() && InOrder() && source == s[..n]
      {
        assert s[..n + 1] == s[..n] + [s[n]];
        Add(s[n]);
        n := n + 1;
      }
      assert s[..|s|] == s;
      ConsistentAgreesWithBuild(source, groups);
    }

    /** The index of the group of key k, or |groups| when k has no group. */
    method FindGroup(k: T) returns (j: nat)
      ensures j <= |groups|
      ensures j == |groups| <==> k !in GroupKeys(groups)
      ensures j < |groups| ==> j == IndexOf(GroupKeys(groups), k)
    {
      j := 0;
      while j < |groups| && groups[j].key != k
        invariant j <= |groups|
        invariant forall q :: 0 <= q < j ==> groups[q].key != k
      {
        j := j + 1;
      }
      if j < |groups| {
        var ks := GroupKeys(groups);
        assert ks[j] == k;
        var r := IndexOf(ks, k);
        assert ks[r] == groups[r].key;
      }
    }

    /** The number of items of key k before source index i: where index i falls in k's member list. */
    method MemberOffset(i: nat, k: T) returns (p: nat)
      requires i <= |source|
      ensures p == |Members(source[..i], k)|
    {
      p := 0;
      var n := 0;
      while n < i
        invariant n <= i
        invariant p == |Members(source[..n], k)|
      {
        assert source[..n + 1][..n] == source[..n];
        if KeyOf(source[n]) == k {
          p := p + 1;
        }
        n := n + 1;
      }
    }

    /** The source index of the first item of key k, or |source| when there is none. */
    method FirstIndexOf(k: T) returns (f: nat)
      ensures f == First(source, k)
    {
      f := 0;
      assert source[0..] == source;
      while f < |source| && KeyOf(source[f]) != k
        invariant f <= |source|
        invariant First(source, k) == f + First(source[f..], k)
      {
        assert source[f..][1..] == source[f + 1..];
        f := f + 1;
      }
    }

    /**
     * Where a group opened by an item entering at source index i goes: after
     * every group whose key occurs before i, and before the first one that
     * does not.
     */
    method FreshGroupPosition(i: nat) returns (p: nat)
      ensures p == Placement(GroupKeys(groups), source, i)
    {
      ghost var ks := GroupKeys(groups);
      p := 0;
      assert ks[0..] == ks;
      while p < |groups|
        invariant p <= |groups|
        invariant Placement(ks, source, i) == p + Placement(ks[p..], source, i)
      {
        var f := FirstIndexOf(groups[p].key);
        assert ks[p..][0] == groups[p].key;
        if f >= i {
          break;
        }
        assert ks[p..][1..] == ks[p + 1..];
        p := p + 1;
      }
    }

    /**
     * Item x enters the source at index i and the groups are updated as
     * InsertGroups says, a group opened for a fresh key going to list
     * position p.
     */
    method Place(i: nat, x: Item<T>, p: nat)
      requires Valid() && i <= |source| && p <= |groups|
      modifies this
      ensures Valid()
      ensures source == old(source)[..i] + [x] + old(source)[i..]
      ensures groups == InsertGroups(old(source), old(groups), i, x, p)
    {
      InsertGroupsConsistent(source, groups, i, x, p);
      var k := KeyOf(x);
      var j := FindGroup(k);
      if j < |groups| {
        var o := MemberOffset(i, k);
        var m := groups[j].members;
        MembersInsertAt(source, i, x, k);
        groups := groups[j := Group(k, m[..o] + [x] + m[o..])];
      } else {
        groups := groups[..p] + [Group(k, [x])] + groups[p..];
      }
      source := source[..i] + [x] + source[i..];
    }

    /**
     * Item x is inserted at source index i.  A fresh key's group goes to its
     * placement by first occurrence, so first-occurrence order is kept unless
     * x moves an existing key's first occurrence earlier.
     */
    method InsertAt(i: nat, x: Item<T>)
      requires Valid() && i <= |source|
      modifies this
      ensures Valid()
      ensures source == old(source)[..i] + [x] + old(source)[i..]
      ensures groups == InsertGroups(old(source), old(groups), i, x, Placement(old(GroupKeys(groups)), old(source), i))
      ensures old(InOrder()) && (KeyOf(x) !in old(GroupKeys(groups)) || First(old(source), KeyOf(x)) < i) ==> InOrder()
    {
      ghost var s0, g0 := source, groups;
      ghost var ordered := InOrder();
      var p := FreshGroupPosition(i);
      Place(i, x, p);
      if ordered && (KeyOf(x) !in GroupKeys(g0) || First(s0, KeyOf(x)) < i) {
        ConsistentKeys(s0, g0);
        InsertGroupsKeys(s0, g0, i, x, p);
        InsertKeepsFirstOrder(s0, i, x);
      }
    }

    /**
     * Item x is appended to the source: it joins its key's group at the end,
     * or opens a group at the end of the list, exactly as a step of the
     * from-scratch build does.
     */
    method Add(x: Item<T>)
      requires Valid()
      modifies this
      ensures Valid()
      ensures source == old(source) + [x]
      ensures groups == AppendedGroups(old(groups), x) == AddToGroups(old(groups), x)
      ensures old(InOrder()) ==> InOrder()
    {
      ghost var s0, g0 := source, groups;
      ConsistentKeys(s0, g0);
      PlacementAtEnd(GroupKeys(g0), s0);
      FirstPresent(s0, KeyOf(x));
      InsertAtEnd(s0, g0, x);
      AddToGroupsSpec(g0, x);
      InsertAt(|source|, x);
    }

    /**
     * The item at source index i is removed and the groups are updated as
     * RemoveGroups says.  First-occurrence order is kept unless the removed
     * item was the first occurrence of a key that survives.
     */
    method RemoveAt(i: nat)
      requires Valid() && i < |source|
      modifies this
      ensures Valid()
      ensures source == old(source)[..i] + old(source)[i + 1..]
      ensures groups == RemoveGroups(old(source), old(groups), i)
      ensures var k := KeyOf(old(source)[i]);
        old(InOrder()) && (k !in KeySet(source) || First(old(source), k) < i) ==> InOrder()
    {
      ghost var s0, g0 := source, groups;
      ghost var ordered := InOrder();
      RemoveGroupsConsistent(source, groups, i);
      var k := KeyOf(source[i]);
      var j := FindGroup(k);
      var m := groups[j].members;
      if |m| == 1 {
        groups := groups[..j] + groups[j + 1..];
      } else {
        var o := MemberOffset(i, k);
        MembersRemoveAt(source, i, k);
        groups := groups[j := Group(k, m[..o] + m[o + 1..])];
      }
      source := source[..i] + source[i + 1..];
      if ordered && (k !in KeySet(source) || First(s0, k) < i) {
        RemoveGroupsOrder(s0, g0, i);
      }
    }

    /**
     * The key property of the item at source index i becomes k and the groups
     * are updated as RekeyGroups says: the item leaves its old group and joins
     * the group of k, a fresh k's group opening at the end of the list.
     */
    method SetKey(i: nat, k: T)
      requires Valid() && i < |source|
      modifies this
      ensures Valid()
      ensures source == Rekeyed(old(source), i, k)
      ensures groups == RekeyGroups(old(source), old(groups), i, k)
    {
      ghost var s0, g0 := source, groups;
      RekeyGroupsConsistent(source, groups, i, k);
      var x := source[i];
      if KeyOf(x) != k {
        RemoveAt(i);
        Place(i, Item(k, x.value2), |groups|);
        assert source == Rekeyed(s0, i, k) by {
          assert (s0[..i] + s0[i + 1..])[..i] == s0[..i];
          assert (s0[..i] + s0[i + 1..])[i..] == s0[i + 1..];
        }
      } else {
        assert Rekeyed(s0, i, k) == s0;
      }
    }
  }
}
