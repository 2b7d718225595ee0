/**
 * The from-scratch meaning of a group-by over an ordered source: which items a
 * key selects, the order in which keys first appear, the one-pass grouping
 * algorithm, and the consistency relation between a source and a group list
 * that the incremental operator has to maintain.
 */
module Grouping {

  /** An element of the observed collection: a notification object with the fields Value1 and Value2. */
  datatype Item<T> = Item(value1: T, value2: T)

  /** The key selector `p => p.Value1`. */
  function KeyOf<T>(x: Item<T>): T
  {
    x.value1
  }

  /** One output group: its key and its member items. */
  datatype Group<T> = Group(key: T, members: seq<Item<T>>)

  /** The keys of a group list, in group order. */
  function GroupKeys<T>(gs: seq<Group<T>>): seq<T>
  {
    seq(|gs|, j requires 0 <= j < |gs| => gs[j].key)
  }

  function SeqSet<T(==)>(ks: seq<T>): set<T>
  {
    set k | k in ks
  }

  /** The set of keys present in a source. */
  function KeySet<T(==)>(s: seq<Item<T>>): set<T>
  {
    set x | x in s :: KeyOf(x)
  }

  predicate Distinct<T(==)>(ks: seq<T>)
  {
    forall a, b :: 0 <= a < b < |ks| ==> ks[a] != ks[b]
  }

  /** The position of the first occurrence of k in ks. */
  function IndexOf<T(==)>(ks: seq<T>, k: T): (j: nat)
    requires k in ks
    ensures j < |ks| && ks[j] == k
    ensures forall q :: 0 <= q < j ==> ks[q] != k
  {
    if ks[0] == k then 0 else 1 + IndexOf(ks[1..], k)
  }

  lemma {:induction false} IndexOfDistinct<T>(ks: seq<T>, j: nat)
    requires Distinct(ks) && j < |ks|
    ensures IndexOf(ks, ks[j]) == j
  {
  }

  /** The items of s whose key is k, in source order. */
  function Members<T(==)>(s: seq<Item<T>>, k: T): (m: seq<Item<T>>)
    ensures |m| <= |s|
  {
    if s == [] then []
    else Members(s[..|s| - 1], k) + (if KeyOf(s[|s| - 1]) == k then [s[|s| - 1]] else [])
  }

  /** The distinct keys of s, in order of first occurrence. */
  function FirstKeys<T(==)>(s: seq<Item<T>>): seq<T>
  {
    if s == [] then []
    else
      var ks := FirstKeys(s[..|s| - 1]);
      if KeyOf(s[|s| - 1]) in ks then ks else ks + [KeyOf(s[|s| - 1])]
  }

  /**
   * One step of the initial build: x joins the group of its key, or opens a
   * new group at the end of the list.
   */
  function AddToGroups<T(==)>(gs: seq<Group<T>>, x: Item<T>): seq<Group<T>>
  {
    if gs == [] then [Group(KeyOf(x), [x])]
    else if gs[0].key == KeyOf(x) then [gs[0].(members := gs[0].members + [x])] + gs[1..]
    else [gs[0]] + AddToGroups(gs[1..], x)
  }

  /** The from-scratch grouping: one pass over the source, front to back. */
  function Build<T(==)>(s: seq<Item<T>>): seq<Group<T>>
  {
    if s == [] then [] else AddToGroups(Build(s[..|s| - 1]), s[|s| - 1])
  }

  /**
   * gs is a correct grouping of s: keys are distinct, each group holds exactly
   * the source items of its key in source order, no group is empty, and every
   * source item's key has a group.
   */
  ghost predicate Consistent<T>(s: seq<Item<T>>, gs: seq<Group<T>>)
  {
    && Distinct(GroupKeys(gs))
    && (forall j :: 0 <= j < |gs| ==> gs[j].members == Members(s, gs[j].key))
    && (forall j :: 0 <= j < |gs| ==> gs[j].members != [])
    && (forall i :: 0 <= i < |s| ==> KeyOf(s[i]) in GroupKeys(gs))
  }

  function SizeSum<T>(gs: seq<Group<T>>): nat
  {
    if gs == [] then 0 else |gs[0].members| + SizeSum(gs[1..])
  }

  function CountOver<T(==)>(ks: seq<T>, s: seq<Item<T>>): nat
  {
    if ks == [] then 0 else |Members(s, ks[0])| + CountOver(ks[1..], s)
  }

  // ---------------------------------------------------------------------------
  // Members under the source mutations

  lemma {:induction false} MembersConcat<T>(a: seq<Item<T>>, b: seq<Item<T>>, k: T)
    ensures Members(a + b, k) == Members(a, k) + Members(b, k)
    decreases |b|
  {
    if b == [] {
      assert a + b == a;
    } else {
      var b' := b[..|b| - 1];
      assert (a + b)[..|a + b| - 1] == a + b';
      MembersConcat(a, b', k);
    }
  }

  lemma {:induction false} MembersSingleton<T>(x: Item<T>, k: T)
    ensures Members([x], k) == if KeyOf(x) == k then [x] else []
  {
    assert [x][..0] == [];
  }

  /** Inserting x at source index i inserts it into its key's member list at offset p. */
  lemma {:induction false} MembersInsertAt<T>(s: seq<Item<T>>, i: nat, x: Item<T>, k: T)
    requires i <= |s|
    ensures var m := Members(s, k); var p := |Members(s[..i], k)|;
      && p <= |m|
      && Members(s[..i] + [x] + s[i..], k) == if KeyOf(x) == k then m[..p] + [x] + m[p..] else m
  {
    assert s == s[..i] + s[i..];
    MembersConcat(s[..i], s[i..], k);
    MembersConcat(s[..i] + [x], s[i..], k);
    MembersConcat(s[..i], [x], k);
    MembersSingleton(x, k);
  }

  /** Removing source index i removes that item from its key's member list at offset p. */
  lemma {:induction false} MembersRemoveAt<T>(s: seq<Item<T>>, i: nat, k: T)
    requires i < |s|
    ensures var m := Members(s, k); var p := |Members(s[..i], k)|;
      && (KeyOf(s[i]) == k ==> p < |m| && m[p] == s[i] && Members(s[..i] + s[i + 1..], k) == m[..p] + m[p + 1..])
      && (KeyOf(s[i]) != k ==> Members(s[..i] + s[i + 1..], k) == m)
  {
    var a, y, b := s[..i], s[i], s[i + 1..];
    assert s == a + [y] + b;
    MembersAround(a, y, b, k);
  }

  /** MembersRemoveAt for a source given as a + [y] + b. */
  lemma {:induction false} MembersAround<T>(a: seq<Item<T>>, y: Item<T>, b: seq<Item<T>>, k: T)
    ensures var m := Members(a + [y] + b, k); var p := |Members(a, k)|;
      && (KeyOf(y) == k ==> p < |m| && m[p] == y && Members(a + b, k) == m[..p] + m[p + 1..])
      && (KeyOf(y) != k ==> Members(a + b, k) == m)
  {
    var ma, mb := Members(a, k), Members(b, k);
    assert Members(a + [y] + b, k) == ma + Members([y], k) + mb by {
      MembersConcat(a + [y], b, k);
      MembersConcat(a, [y], k);
    }
    assert Members(a + b, k) == ma + mb by {
      MembersConcat(a, b, k);
    }
    MembersSingleton(y, k);
    if KeyOf(y) == k {
      SplitAround(ma, y, mb);
    } else {
      assert ma + [] + mb == ma + mb;
    }
  }

  /** The element after a prefix a of a + [y] + b is y, and dropping it leaves a + b. */
  lemma {:induction false} SplitAround<X>(a: seq<X>, y: X, b: seq<X>)
    ensures var m := a + [y] + b; |a| < |m| && m[|a|] == y && m[..|a|] + m[|a| + 1..] == a + b
  {
    var m := a + [y] + b;
    assert m[..|a|] == a && m[|a| + 1..] == b;
  }

  /**
   * Rekeying the item at index i to y moves exactly one member: the old key's
   * group shrinks by one, the new key's group grows by one, all others keep
   * their size.
   */
  lemma {:induction false} RekeyMovesOneMember<T>(s: seq<Item<T>>, i: nat, y: Item<T>, k: T)
    requires i < |s|
    ensures |Members(s[i := y], k)|
      == |Members(s, k)| - (if KeyOf(s[i]) == k then 1 else 0) + (if KeyOf(y) == k then 1 else 0)
  {
    var r := s[..i] + s[i + 1..];
    MembersRemoveAt(s, i, k);
    UpdateSplit(s, i, y);
    MembersInsertAt(r, i, y, k);
  }

  /** Updating index i is taking the element out and putting y back at i. */
  lemma {:induction false} UpdateSplit<X>(s: seq<X>, i: nat, y: X)
    requires i < |s|
    ensures var r := s[..i] + s[i + 1..]; r[..i] == s[..i] && r[i..] == s[i + 1..] && s[i := y] == r[..i] + [y] + r[i..]
  {
  }

  /** x is a member of key k's list exactly when it is a source item with key k. */
  lemma {:induction false} MembersHas<T>(s: seq<Item<T>>, k: T, x: Item<T>)
    ensures x in Members(s, k) <==> x in s && KeyOf(x) == k
    decreases |s|
  {
    if s != [] {
      var p := s[..|s| - 1];
      assert s == p + [s[|s| - 1]];
      MembersHas(p, k, x);
    }
  }

  lemma {:induction false} MembersEmpty<T>(s: seq<Item<T>>, k: T)
    ensures Members(s, k) == [] <==> k !in KeySet(s)
  {
    var m := Members(s, k);
    if m != [] {
      assert m[0] in m;
      MembersHas(s, k, m[0]);
    }
    if k in KeySet(s) {
      var x :| x in s && KeyOf(x) == k;
      MembersHas(s, k, x);
    }
  }

  // ---------------------------------------------------------------------------
  // What a consistent grouping promises

  /** The group keys are exactly the keys present in the source. */
  lemma {:induction false} ConsistentKeys<T>(s: seq<Item<T>>, gs: seq<Group<T>>)
    requires Consistent(s, gs)
    ensures SeqSet(GroupKeys(gs)) == KeySet(s)
  {
    forall k | k in KeySet(s) ensures k in SeqSet(GroupKeys(gs)) {
      var x :| x in s && KeyOf(x) == k;
      var i :| 0 <= i < |s| && s[i] == x;
      assert KeyOf(s[i]) in GroupKeys(gs);
    }
    forall k | k in SeqSet(GroupKeys(gs)) ensures k in KeySet(s) {
      var j :| 0 <= j < |gs| && GroupKeys(gs)[j] == k;
      MembersEmpty(s, gs[j].key);
    }
  }

  /**
   * Every source item lies in exactly one group, and that group's key is the
   * item's key.
   */
  lemma {:induction false} ConsistentPartition<T>(s: seq<Item<T>>, gs: seq<Group<T>>)
    requires Consistent(s, gs)
    ensures forall i, j :: 0 <= i < |s| && 0 <= j < |gs| ==> (s[i] in gs[j].members <==> gs[j].key == KeyOf(s[i]))
    ensures forall i :: 0 <= i < |s| ==> exists j :: 0 <= j < |gs| && s[i] in gs[j].members
    ensures forall i, j, j' ::
      0 <= i < |s| && 0 <= j < |gs| && 0 <= j' < |gs| && s[i] in gs[j].members && s[i] in gs[j'].members
      ==> j == j'
  {
    forall i, j | 0 <= i < |s| && 0 <= j < |gs|
      ensures s[i] in gs[j].members <==> gs[j].key == KeyOf(s[i])
    {
      MembersHas(s, gs[j].key, s[i]);
    }
    forall i | 0 <= i < |s| ensures exists j :: 0 <= j < |gs| && s[i] in gs[j].members {
      var j := IndexOf(GroupKeys(gs), KeyOf(s[i]));
      MembersHas(s, gs[j].key, s[i]);
    }
    forall i, j, j' | 0 <= i < |s| && 0 <= j < |gs| && 0 <= j' < |gs| &&
      s[i] in gs[j].members && s[i] in gs[j'].members
      ensures j == j'
    {
      MembersHas(s, gs[j].key, s[i]);
      MembersHas(s, gs[j'].key, s[i]);
      assert GroupKeys(gs)[j] == GroupKeys(gs)[j'];
    }
  }

  lemma {:induction false} CountOverSnoc<T>(ks: seq<T>, s: seq<Item<T>>, x: Item<T>)
    requires Distinct(ks)
    ensures CountOver(ks, s + [x]) == CountOver(ks, s) + (if KeyOf(x) in ks then 1 else 0)
    decreases |ks|
  {
    if ks != [] {
      MembersConcat(s, [x], ks[0]);
      MembersSingleton(x, ks[0]);
      assert KeyOf(x) in ks <==> KeyOf(x) == ks[0] || KeyOf(x) in ks[1..];
      CountOverSnoc(ks[1..], s, x);
    }
  }

  lemma {:induction false} CountOverCovers<T>(ks: seq<T>, s: seq<Item<T>>)
    requires Distinct(ks)
    requires forall i :: 0 <= i < |s| ==> KeyOf(s[i]) in ks
    ensures CountOver(ks, s) == |s|
    decreases |s|, |ks|
  {
    if s == [] {
      if ks != [] {
        CountOverCovers(ks[1..], s);
      }
    } else {
      var p := s[..|s| - 1];
      assert s == p + [s[|s| - 1]];
      CountOverSnoc(ks, p, s[|s| - 1]);
      assert KeyOf(s[|s| - 1]) in ks;
      CountOverCovers(ks, p);
    }
  }

  lemma {:induction false} SizeSumIsCountOver<T>(s: seq<Item<T>>, gs: seq<Group<T>>)
    requires forall j :: 0 <= j < |gs| ==> gs[j].members == Members(s, gs[j].key)
    ensures SizeSum(gs) == CountOver(GroupKeys(gs), s)
    decreases |gs|
  {
    if gs != [] {
      assert GroupKeys(gs)[1..] == GroupKeys(gs[1..]);
      SizeSumIsCountOver(s, gs[1..]);
    }
  }

  lemma {:induction false} DistinctCard<T>(ks: seq<T>)
    requires Distinct(ks)
    ensures |SeqSet(ks)| == |ks|
    decreases |ks|
  {
    if ks != [] {
      assert SeqSet(ks) == {ks[0]} + SeqSet(ks[1..]);
      assert ks[0] !in SeqSet(ks[1..]);
      DistinctCard(ks[1..]);
    }
  }

  /**
   * Cardinality: the group sizes sum to the source count, and there are as
   * many groups as distinct keys in the source.
   */
  lemma {:induction false} ConsistentSizes<T>(s: seq<Item<T>>, gs: seq<Group<T>>)
    requires Consistent(s, gs)
    ensures SizeSum(gs) == |s|
    ensures |gs| == |KeySet(s)|
  {
    SizeSumIsCountOver(s, gs);
    CountOverCovers(GroupKeys(gs), s);
    ConsistentKeys(s, gs);
    DistinctCard(GroupKeys(gs));
  }

  /** A consistent grouping is determined by its key order. */
  lemma {:induction false} ConsistentUnique<T>(s: seq<Item<T>>, gs: seq<Group<T>>, hs: seq<Group<T>>)
    requires Consistent(s, gs) && Consistent(s, hs)
    requires GroupKeys(gs) == GroupKeys(hs)
    ensures gs == hs
  {
    assert |gs| == |GroupKeys(gs)| == |GroupKeys(hs)| == |hs|;
    forall j | 0 <= j < |gs| ensures gs[j] == hs[j] {
      assert GroupKeys(gs)[j] == GroupKeys(hs)[j];
    }
  }

  /**
   * A build step keeps the existing groups in place: x is appended to the
   * group of its key, or a one-member group for it is appended at the end.
   */
  lemma {:induction false} AddToGroupsSpec<T>(gs: seq<Group<T>>, x: Item<T>)
    ensures AddToGroups(gs, x) == AppendedGroups(gs, x)
    decreases |gs|
  {
    if gs != [] {
      var k, ks := KeyOf(x), GroupKeys(gs);
      GroupKeysTail(gs);
      if gs[0].key != k {
        AddToGroupsSpec(gs[1..], x);
        if k in ks {
          var j' := IndexOf(ks[1..], k);
          var g := Group(k, gs[1..][j'].members + [x]);
          assert IndexOf(ks, k) == j' + 1;
          assert [gs[0]] + gs[1..][j' := g] == gs[j' + 1 := g];
        } else {
          assert [gs[0]] + (gs[1..] + [Group(k, [x])]) == gs + [Group(k, [x])];
        }
      }
    }
  }

  /** The build step's result stated directly: x joins its key's group at the end, or opens a group at the end. */
  function AppendedGroups<T(==)>(gs: seq<Group<T>>, x: Item<T>): seq<Group<T>>
  {
    var k := KeyOf(x);
    if k in GroupKeys(gs) then
      var j := IndexOf(GroupKeys(gs), k);
      gs[j := Group(k, gs[j].members + [x])]
    else gs + [Group(k, [x])]
  }

  lemma {:induction false} GroupKeysTail<T>(gs: seq<Group<T>>)
    requires gs != []
    ensures GroupKeys(gs) == [gs[0].key] + GroupKeys(gs[1..])
  {
  }

  /**
   * A build step grows only the group of x's key, by one, and otherwise adds
   * exactly one one-member group at the end; every other group keeps its key,
   * position and size.
   */
  lemma {:induction false} AppendGrowsOneGroup<T>(gs: seq<Group<T>>, x: Item<T>)
    requires Distinct(GroupKeys(gs))
    ensures var r, k := AppendedGroups(gs, x), KeyOf(x);
      && |r| == (if k in GroupKeys(gs) then |gs| else |gs| + 1)
      && (forall q :: 0 <= q < |gs| ==> r[q].key == gs[q].key)
      && (forall q :: 0 <= q < |gs| ==> |r[q].members| == |gs[q].members| + if gs[q].key == k then 1 else 0)
      && (k !in GroupKeys(gs) ==> r[|gs|] == Group(k, [x]))
  {
    var k, ks := KeyOf(x), GroupKeys(gs);
    if k in ks {
      var j := IndexOf(ks, k);
      forall q | 0 <= q < |gs| && q != j ensures gs[q].key != k {
        assert ks[q] != ks[j];
      }
    } else {
      forall q | 0 <= q < |gs| ensures gs[q].key != k {
        assert ks[q] == gs[q].key;
      }
    }
  }

  /** Appending x to the source and taking one build step keeps a grouping consistent. */
  lemma {:induction false} AddToGroupsConsistent<T>(p: seq<Item<T>>, gs: seq<Group<T>>, x: Item<T>)
    requires Consistent(p, gs)
    ensures Consistent(p + [x], AddToGroups(gs, x))
    ensures GroupKeys(AddToGroups(gs, x)) == if KeyOf(x) in GroupKeys(gs) then GroupKeys(gs) else GroupKeys(gs) + [KeyOf(x)]
  {
    AddToGroupsSpec(gs, x);
    InsertAtEnd(p, gs, x);
    InsertGroupsConsistent(p, gs, |p|, x, |gs|);
    InsertGroupsKeys(p, gs, |p|, x, |gs|);
    var ks := GroupKeys(gs);
    assert ks[..|gs|] == ks && ks[|gs|..] == [];
  }

  /** Inserting at the end of the source, with a fresh group going to the end of the list, is a build step. */
  lemma {:induction false} InsertAtEnd<T>(p: seq<Item<T>>, gs: seq<Group<T>>, x: Item<T>)
    requires Consistent(p, gs)
    ensures p[..|p|] + [x] + p[|p|..] == p + [x]
    ensures InsertGroups(p, gs, |p|, x, |gs|) == AppendedGroups(gs, x)
  {
    var k, ks := KeyOf(x), GroupKeys(gs);
    assert p[..|p|] == p && p[|p|..] == [];
    if k in ks {
      var j := IndexOf(ks, k);
      var m := gs[j].members;
      assert m == Members(p, ks[j]) == Members(p[..|p|], k);
      assert m[..|m|] + [x] + m[|m|..] == m + [x];
    } else {
      assert gs[..|gs|] == gs && gs[|gs|..] == [];
    }
  }

  lemma {:induction false} KeySetInsertAt<T>(s: seq<Item<T>>, i: nat, x: Item<T>)
    requires i <= |s|
    ensures KeySet(s[..i] + [x] + s[i..]) == KeySet(s) + {KeyOf(x)}
  {
    var t := s[..i] + [x] + s[i..];
    assert s == s[..i] + s[i..];
    assert forall y :: y in t <==> y in s || y == x;
  }

  lemma {:induction false} KeySetRemoveAt<T>(s: seq<Item<T>>, i: nat)
    requires i < |s|
    ensures var t := s[..i] + s[i + 1..];
      KeySet(t) == if KeyOf(s[i]) in KeySet(t) then KeySet(s) else KeySet(s) - {KeyOf(s[i])}
  {
    var t := s[..i] + s[i + 1..];
    assert s == s[..i] + [s[i]] + s[i + 1..];
    assert forall y :: y in s <==> y in t || y == s[i];
  }

  lemma {:induction false} DropDistinct<T>(ks: seq<T>, j: nat)
    requires j < |ks|
    requires Distinct(ks)
    ensures ks[j] !in ks[..j] + ks[j + 1..]
    ensures SeqSet(ks[..j] + ks[j + 1..]) == SeqSet(ks) - {ks[j]}
    ensures Distinct(ks[..j] + ks[j + 1..])
  {
    var nk := ks[..j] + ks[j + 1..];
    assert forall q :: 0 <= q < |nk| ==> nk[q] == if q < j then ks[q] else ks[q + 1];
    assert ks == ks[..j] + [ks[j]] + ks[j + 1..];
  }

  lemma {:induction false} DropKeepsOthers<T>(ks: seq<T>, j: nat, k: T)
    requires j < |ks| && ks[j] != k
    ensures k in ks[..j] + ks[j + 1..] <==> k in ks
  {
    assert ks == ks[..j] + [ks[j]] + ks[j + 1..];
  }

  /** Every item's key is listed exactly when the key set is covered by the list. */
  lemma {:induction false} CoveredKeys<T>(s: seq<Item<T>>, ks: seq<T>)
    ensures (forall i :: 0 <= i < |s| ==> KeyOf(s[i]) in ks) <==> KeySet(s) <= SeqSet(ks)
  {
    if forall i :: 0 <= i < |s| ==> KeyOf(s[i]) in ks {
      forall k | k in KeySet(s) ensures k in SeqSet(ks) {
        var x :| x in s && KeyOf(x) == k;
        var i :| 0 <= i < |s| && s[i] == x;
      }
    }
    if KeySet(s) <= SeqSet(ks) {
      forall i | 0 <= i < |s| ensures KeyOf(s[i]) in ks {
        assert KeyOf(s[i]) in KeySet(s);
      }
    }
  }

  lemma {:induction false} InsertedDistinct<T>(ks: seq<T>, p: nat, k: T)
    requires Distinct(ks) && p <= |ks| && k !in ks
    ensures Distinct(ks[..p] + [k] + ks[p..])
    ensures SeqSet(ks[..p] + [k] + ks[p..]) == SeqSet(ks) + {k}
  {
    var nk := ks[..p] + [k] + ks[p..];
    assert forall q :: 0 <= q < |nk| && q != p ==> nk[q] == if q < p then ks[q] else ks[q - 1];
    assert ks == ks[..p] + ks[p..];
  }

  lemma {:induction false} SeqSetInsert<T>(ks: seq<T>, p: nat, k: T)
    requires p <= |ks|
    ensures SeqSet(ks[..p] + [k] + ks[p..]) == SeqSet(ks) + {k}
  {
    assert ks == ks[..p] + ks[p..];
  }

  /** Positions in a + [y] + b after inserting y at p: earlier ones stay, later ones shift up by one. */
  lemma {:induction false} InsertedAt<X>(a: seq<X>, p: nat, y: X)
    requires p <= |a|
    ensures var h := a[..p] + [y] + a[p..];
      && |h| == |a| + 1 && h[p] == y
      && (forall q :: 0 <= q < p ==> h[q] == a[q])
      && (forall q :: p < q < |h| ==> h[q] == a[q - 1])
  {
  }

  /** Positions after dropping index j: earlier ones stay, later ones shift down by one. */
  lemma {:induction false} DroppedAt<X>(a: seq<X>, j: nat)
    requires j < |a|
    ensures var h := a[..j] + a[j + 1..];
      && |h| == |a| - 1
      && (forall q :: 0 <= q < j ==> h[q] == a[q])
      && (forall q :: j <= q < |h| ==> h[q] == a[q + 1])
  {
  }

  lemma {:induction false} GroupKeysInsert<T>(gs: seq<Group<T>>, p: nat, g: Group<T>)
    requires p <= |gs|
    ensures GroupKeys(gs[..p] + [g] + gs[p..]) == GroupKeys(gs)[..p] + [g.key] + GroupKeys(gs)[p..]
  {
  }

  lemma {:induction false} GroupKeysDrop<T>(gs: seq<Group<T>>, j: nat)
    requires j < |gs|
    ensures GroupKeys(gs[..j] + gs[j + 1..]) == GroupKeys(gs)[..j] + GroupKeys(gs)[j + 1..]
  {
  }

  lemma {:induction false} GroupKeysUpdate<T>(gs: seq<Group<T>>, j: nat, g: Group<T>)
    requires j < |gs| && g.key == gs[j].key
    ensures GroupKeys(gs[j := g]) == GroupKeys(gs)
  {
  }

  // ---------------------------------------------------------------------------
  // The four incremental steps of the operator, on values

  /** An item entering at index i with a key that has a group joins that group at offset p. */
  lemma {:induction false} InsertJoinsGroup<T>(s: seq<Item<T>>, gs: seq<Group<T>>, i: nat, x: Item<T>, j: nat)
    requires Consistent(s, gs)
    requires i <= |s| && j < |gs| && gs[j].key == KeyOf(x)
    ensures var m := gs[j].members; var p := |Members(s[..i], KeyOf(x))|;
      && p <= |m|
      && Consistent(s[..i] + [x] + s[i..], gs[j := Group(KeyOf(x), m[..p] + [x] + m[p..])])
  {
    var t := s[..i] + [x] + s[i..];
    var k := KeyOf(x);
    var m := gs[j].members;
    var p := |Members(s[..i], k)|;
    MembersInsertAt(s, i, x, k);
    var hs := gs[j := Group(k, m[..p] + [x] + m[p..])];
    GroupKeysUpdate(gs, j, Group(k, m[..p] + [x] + m[p..]));
    forall q | 0 <= q < |hs| ensures hs[q].members == Members(t, hs[q].key) && hs[q].members != [] {
      MembersInsertAt(s, i, x, hs[q].key);
      if q != j {
        assert GroupKeys(gs)[q] != GroupKeys(gs)[j];
      }
    }
    assert k == GroupKeys(gs)[j];
    CoveredKeys(s, GroupKeys(gs));
    KeySetInsertAt(s, i, x);
    CoveredKeys(t, GroupKeys(hs));
  }

  /** An item entering at index i with a fresh key opens a one-member group at list position p. */
  lemma {:induction false} InsertOpensGroup<T>(s: seq<Item<T>>, gs: seq<Group<T>>, i: nat, x: Item<T>, p: nat)
    requires Consistent(s, gs)
    requires i <= |s| && p <= |gs| && KeyOf(x) !in GroupKeys(gs)
    ensures Consistent(s[..i] + [x] + s[i..], gs[..p] + [Group(KeyOf(x), [x])] + gs[p..])
  {
    var t := s[..i] + [x] + s[i..];
    var k := KeyOf(x);
    var hs := gs[..p] + [Group(k, [x])] + gs[p..];
    var ks := GroupKeys(gs);
    GroupKeysInsert(gs, p, Group(k, [x]));
    InsertedDistinct(ks, p, k);
    ConsistentKeys(s, gs);
    MembersEmpty(s, k);
    InsertedAt(gs, p, Group(k, [x]));
    forall q | 0 <= q < |hs| ensures hs[q].members == Members(t, hs[q].key) && hs[q].members != [] {
      MembersInsertAt(s, i, x, hs[q].key);
      if q != p {
        var q' := if q < p then q else q - 1;
        assert ks[q'] == gs[q'].key;
      }
    }
    KeySetInsertAt(s, i, x);
    CoveredKeys(t, GroupKeys(hs));
  }

  /** An item leaving index i from a group with other members leaves that group at offset p. */
  lemma {:induction false} RemoveLeavesGroup<T>(s: seq<Item<T>>, gs: seq<Group<T>>, i: nat, j: nat)
    requires Consistent(s, gs)
    requires i < |s| && j < |gs| && gs[j].key == KeyOf(s[i]) && |gs[j].members| > 1
    ensures var m := gs[j].members; var p := |Members(s[..i], KeyOf(s[i]))|;
      && p < |m|
      && Consistent(s[..i] + s[i + 1..], gs[j := Group(KeyOf(s[i]), m[..p] + m[p + 1..])])
    ensures KeyOf(s[i]) in KeySet(s[..i] + s[i + 1..])
  {
    var t := s[..i] + s[i + 1..];
    var k := KeyOf(s[i]);
    var m := gs[j].members;
    var p := |Members(s[..i], k)|;
    MembersRemoveAt(s, i, k);
    var hs := gs[j := Group(k, m[..p] + m[p + 1..])];
    GroupKeysUpdate(gs, j, Group(k, m[..p] + m[p + 1..]));
    forall q | 0 <= q < |hs| ensures hs[q].members == Members(t, hs[q].key) && hs[q].members != [] {
      MembersRemoveAt(s, i, hs[q].key);
      if q != j {
        assert GroupKeys(gs)[q] != GroupKeys(gs)[j];
      }
    }
    CoveredKeys(s, GroupKeys(gs));
    KeySetRemoveAt(s, i);
    CoveredKeys(t, GroupKeys(hs));
    MembersEmpty(t, k);
  }

  /** The last item of a key leaving index i closes that key's group; the others keep their order. */
  lemma {:induction false} RemoveClosesGroup<T>(s: seq<Item<T>>, gs: seq<Group<T>>, i: nat, j: nat)
    requires Consistent(s, gs)
    requires i < |s| && j < |gs| && gs[j].key == KeyOf(s[i]) && |gs[j].members| == 1
    ensures KeyOf(s[i]) !in KeySet(s[..i] + s[i + 1..])
    ensures Consistent(s[..i] + s[i + 1..], gs[..j] + gs[j + 1..])
  {
    var t := s[..i] + s[i + 1..];
    var k := KeyOf(s[i]);
    var hs := gs[..j] + gs[j + 1..];
    var ks := GroupKeys(gs);
    assert ks[j] == k;
    assert k !in KeySet(t) by {
      assert gs[j].members == Members(s, ks[j]);
      LastMember(s, i);
    }
    assert Distinct(GroupKeys(hs)) by {
      GroupKeysDrop(gs, j);
      DropDistinct(ks, j);
    }
    assert forall q :: 0 <= q < |hs| ==> hs[q].members == Members(t, hs[q].key) && hs[q].members != [] by {
      DroppedAt(gs, j);
      forall q | 0 <= q < |hs| ensures hs[q].members == Members(t, hs[q].key) && hs[q].members != [] {
        var q' := if q < j then q else q + 1;
        assert ks[q'] == gs[q'].key && ks[q'] != ks[j];
        MembersRemoveAt(s, i, gs[q'].key);
      }
    }
    assert forall q :: 0 <= q < |t| ==> KeyOf(t[q]) in GroupKeys(hs) by {
      GroupKeysDrop(gs, j);
      DropDistinct(ks, j);
      ConsistentKeys(s, gs);
      KeySetRemoveAt(s, i);
      CoveredKeys(t, GroupKeys(hs));
    }
  }

  // ---------------------------------------------------------------------------
  // The operator's steps as functions of the source and the group list

  /**
   * The group list after x enters the source at index i: x joins its key's
   * group at the offset its source position gives, or a fresh key opens a
   * one-member group at list position p.
   */
  function InsertGroups<T(==)>(s: seq<Item<T>>, gs: seq<Group<T>>, i: nat, x: Item<T>, p: nat): seq<Group<T>>
    requires Consistent(s, gs) && i <= |s| && p <= |gs|
  {
    var k := KeyOf(x);
    if k in GroupKeys(gs) then
      var j := IndexOf(GroupKeys(gs), k);
      var m := gs[j].members;
      var o := |Members(s[..i], k)|;
      MembersInsertAt(s, i, x, k);
      gs[j := Group(k, m[..o] + [x] + m[o..])]
    else gs[..p] + [Group(k, [x])] + gs[p..]
  }

  /**
   * The group list after the item at source index i leaves the source: it
   * leaves its group, and a group left empty is dropped from the list.
   */
  function RemoveGroups<T(==)>(s: seq<Item<T>>, gs: seq<Group<T>>, i: nat): seq<Group<T>>
    requires Consistent(s, gs) && i < |s|
  {
    var k := KeyOf(s[i]);
    var j := IndexOf(GroupKeys(gs), k);
    var m := gs[j].members;
    var o := |Members(s[..i], k)|;
    MembersRemoveAt(s, i, k);
    if |m| == 1 then gs[..j] + gs[j + 1..] else gs[j := Group(k, m[..o] + m[o + 1..])]
  }

  /** The item at index i after its key property becomes k. */
  function Rekeyed<T>(s: seq<Item<T>>, i: nat, k: T): seq<Item<T>>
    requires i < |s|
  {
    s[i := Item(k, s[i].value2)]
  }

  /**
   * The group list after the key of the item at source index i becomes k:
   * unchanged when the key is unchanged; otherwise the item leaves its old
   * group and joins the group of k, a fresh k opening its group at the end.
   */
  function RekeyGroups<T(==)>(s: seq<Item<T>>, gs: seq<Group<T>>, i: nat, k: T): seq<Group<T>>
    requires Consistent(s, gs) && i < |s|
  {
    if KeyOf(s[i]) == k then gs
    else
      var hs := RemoveGroups(s, gs, i);
      RemoveGroupsConsistent(s, gs, i);
      InsertGroups(s[..i] + s[i + 1..], hs, i, Item(k, s[i].value2), |hs|)
  }

  /** Inserting keeps the grouping consistent. */
  lemma {:induction false} InsertGroupsConsistent<T>(s: seq<Item<T>>, gs: seq<Group<T>>, i: nat, x: Item<T>, p: nat)
    requires Consistent(s, gs) && i <= |s| && p <= |gs|
    ensures Consistent(s[..i] + [x] + s[i..], InsertGroups(s, gs, i, x, p))
  {
    var ks := GroupKeys(gs);
    if KeyOf(x) in ks {
      InsertJoinsGroup(s, gs, i, x, IndexOf(ks, KeyOf(x)));
    } else {
      InsertOpensGroup(s, gs, i, x, p);
    }
  }

  /** Inserting changes the keys only by a fresh key entering at list position p. */
  lemma {:induction false} InsertGroupsKeys<T>(s: seq<Item<T>>, gs: seq<Group<T>>, i: nat, x: Item<T>, p: nat)
    requires Consistent(s, gs) && i <= |s| && p <= |gs|
    ensures var ks := GroupKeys(gs);
      GroupKeys(InsertGroups(s, gs, i, x, p)) == if KeyOf(x) in ks then ks else ks[..p] + [KeyOf(x)] + ks[p..]
  {
    var k := KeyOf(x);
    var ks := GroupKeys(gs);
    if k in ks {
      var j := IndexOf(ks, k);
      var m := gs[j].members;
      var o := |Members(s[..i], k)|;
      MembersInsertAt(s, i, x, k);
      GroupKeysUpdate(gs, j, Group(k, m[..o] + [x] + m[o..]));
    } else {
      GroupKeysInsert(gs, p, Group(k, [x]));
    }
  }

  /** Removing keeps the grouping consistent. */
  lemma {:induction false} RemoveGroupsConsistent<T>(s: seq<Item<T>>, gs: seq<Group<T>>, i: nat)
    requires Consistent(s, gs) && i < |s|
    ensures Consistent(s[..i] + s[i + 1..], RemoveGroups(s, gs, i))
  {
    var j := IndexOf(GroupKeys(gs), KeyOf(s[i]));
    if |gs[j].members| == 1 {
      RemoveClosesGroup(s, gs, i, j);
    } else {
      RemoveLeavesGroup(s, gs, i, j);
    }
  }

  /**
   * The removed item's group is dropped exactly when its key leaves the
   * source, and the other keys keep their order.
   */
  lemma {:induction false} RemoveGroupsKeys<T>(s: seq<Item<T>>, gs: seq<Group<T>>, i: nat)
    requires Consistent(s, gs) && i < |s|
    ensures var ks := GroupKeys(gs); var k := KeyOf(s[i]); var j := IndexOf(ks, k);
      && (|gs[j].members| == 1 <==> k !in KeySet(s[..i] + s[i + 1..]))
      && GroupKeys(RemoveGroups(s, gs, i)) == if |gs[j].members| == 1 then ks[..j] + ks[j + 1..] else ks
  {
    var k := KeyOf(s[i]);
    var ks := GroupKeys(gs);
    var j := IndexOf(ks, k);
    assert gs[j].members == Members(s, ks[j]);
    LastMember(s, i);
    RemoveGroupsShape(s, gs, i);
  }

  /** RemoveGroups either drops the removed item's group or keeps the group list's keys. */
  lemma {:induction false} RemoveGroupsShape<T>(s: seq<Item<T>>, gs: seq<Group<T>>, i: nat)
    requires Consistent(s, gs) && i < |s|
    ensures var ks := GroupKeys(gs); var j := IndexOf(ks, KeyOf(s[i]));
      GroupKeys(RemoveGroups(s, gs, i)) == if |gs[j].members| == 1 then ks[..j] + ks[j + 1..] else ks
  {
    var k := KeyOf(s[i]);
    var ks := GroupKeys(gs);
    var j := IndexOf(ks, k);
    var m := gs[j].members;
    var o := |Members(s[..i], k)|;
    MembersRemoveAt(s, i, k);
    var hs := RemoveGroups(s, gs, i);
    if |m| == 1 {
      assert hs == gs[..j] + gs[j + 1..];
      GroupKeysDrop(gs, j);
    } else {
      assert hs == gs[j := Group(k, m[..o] + m[o + 1..])];
      GroupKeysUpdate(gs, j, Group(k, m[..o] + m[o + 1..]));
    }
  }

  /** The item at index i is the only one of its key exactly when its key leaves the source with it. */
  lemma {:induction false} LastMember<T>(s: seq<Item<T>>, i: nat)
    requires i < |s|
    ensures |Members(s, KeyOf(s[i]))| == 1 <==> KeyOf(s[i]) !in KeySet(s[..i] + s[i + 1..])
  {
    var k := KeyOf(s[i]);
    MembersRemoveAt(s, i, k);
    MembersEmpty(s[..i] + s[i + 1..], k);
  }

  /**
   * A removal shrinks only the removed item's group, by one, or drops that
   * group when it was the item's last; every other group keeps its size and
   * its order.
   */
  lemma {:induction false} RemoveShrinksOneGroup<T>(s: seq<Item<T>>, gs: seq<Group<T>>, i: nat)
    requires Consistent(s, gs) && i < |s|
    ensures var r, j := RemoveGroups(s, gs, i), IndexOf(GroupKeys(gs), KeyOf(s[i]));
      && (|gs[j].members| == 1 ==> r == gs[..j] + gs[j + 1..])
      && (|gs[j].members| > 1 ==>
            && |r| == |gs| && r[j].key == gs[j].key && |r[j].members| == |gs[j].members| - 1
            && forall q :: 0 <= q < |gs| && q != j ==> r[q] == gs[q])
  {
    var k := KeyOf(s[i]);
    var j := IndexOf(GroupKeys(gs), k);
    var m := gs[j].members;
    assert m == Members(s, GroupKeys(gs)[j]);
    MembersRemoveAt(s, i, k);
  }

  /** Rekeying keeps the grouping consistent. */
  lemma {:induction false} RekeyGroupsConsistent<T>(s: seq<Item<T>>, gs: seq<Group<T>>, i: nat, k: T)
    requires Consistent(s, gs) && i < |s|
    ensures Consistent(Rekeyed(s, i, k), RekeyGroups(s, gs, i, k))
  {
    if KeyOf(s[i]) != k {
      var t := s[..i] + s[i + 1..];
      var y := Item(k, s[i].value2);
      RemoveGroupsConsistent(s, gs, i);
      InsertGroupsConsistent(t, RemoveGroups(s, gs, i), i, y, |RemoveGroups(s, gs, i)|);
    }
    RekeyedShape(s, i, k);
  }

  /** A rekeyed source is the source with the item taken out and put back with key k. */
  lemma {:induction false} RekeyedShape<T>(s: seq<Item<T>>, i: nat, k: T)
    requires i < |s|
    ensures var t := s[..i] + s[i + 1..]; Rekeyed(s, i, k) == t[..i] + [Item(k, s[i].value2)] + t[i..]
    ensures KeyOf(s[i]) == k ==> Rekeyed(s, i, k) == s
  {
    UpdateSplit(s, i, Item(k, s[i].value2));
  }

  /** Rekeying drops the old key's group when emptied and appends a fresh new key's group at the end. */
  lemma {:induction false} RekeyGroupsKeys<T>(s: seq<Item<T>>, gs: seq<Group<T>>, i: nat, k: T)
    requires Consistent(s, gs) && i < |s|
    ensures var ks := GroupKeys(gs); var j := IndexOf(ks, KeyOf(s[i]));
      var kept := if |gs[j].members| == 1 then ks[..j] + ks[j + 1..] else ks;
      GroupKeys(RekeyGroups(s, gs, i, k)) == if KeyOf(s[i]) == k then ks else if k in ks then kept else kept + [k]
  {
    if KeyOf(s[i]) != k {
      var t := s[..i] + s[i + 1..];
      var ks := GroupKeys(gs);
      var j := IndexOf(ks, KeyOf(s[i]));
      var hs := RemoveGroups(s, gs, i);
      RemoveGroupsConsistent(s, gs, i);
      RemoveGroupsKeys(s, gs, i);
      var kept := GroupKeys(hs);
      DropKeepsOthers(ks, j, k);
      InsertGroupsKeys(t, hs, i, Item(k, s[i].value2), |hs|);
      assert kept[..|kept|] == kept && kept[|kept|..] == [];
    }
  }

  /** The one-pass build produces a consistent grouping, in first-occurrence order. */
  lemma {:induction false} BuildConsistent<T>(s: seq<Item<T>>)
    ensures Consistent(s, Build(s))
    ensures GroupKeys(Build(s)) == FirstKeys(s)
    decreases |s|
  {
    if s != [] {
      var p, x := s[..|s| - 1], s[|s| - 1];
      assert s == p + [x];
      BuildConsistent(p);
      AddToGroupsConsistent(p, Build(p), x);
      AddToGroupsSpec(Build(p), x);
    }
  }

  /**
   * Incremental and from-scratch evaluation agree: a consistent grouping has
   * the same groups as Build (same keys, same members per key), and when its
   * groups are in first-occurrence order it is Build itself.
   */
  lemma {:induction false} ConsistentAgreesWithBuild<T>(s: seq<Item<T>>, gs: seq<Group<T>>)
    requires Consistent(s, gs)
    ensures |gs| == |Build(s)|
    ensures forall j :: 0 <= j < |gs| ==> gs[j] in Build(s)
    ensures forall j :: 0 <= j < |Build(s)| ==> Build(s)[j] in gs
    ensures GroupKeys(gs) == FirstKeys(s) ==> gs == Build(s)
  {
    var b := Build(s);
    BuildConsistent(s);
    ConsistentSizes(s, gs);
    ConsistentSizes(s, b);
    ConsistentKeys(s, gs);
    ConsistentKeys(s, b);
    forall j | 0 <= j < |gs| ensures gs[j] in b {
      assert gs[j].key == GroupKeys(gs)[j];
      assert gs[j].key in SeqSet(GroupKeys(b));
      var q := IndexOf(GroupKeys(b), gs[j].key);
      assert b[q] == gs[j];
    }
    forall j | 0 <= j < |b| ensures b[j] in gs {
      assert b[j].key == GroupKeys(b)[j];
      assert b[j].key in SeqSet(GroupKeys(gs));
      var q := IndexOf(GroupKeys(gs), b[j].key);
      assert gs[q] == b[j];
    }
    if GroupKeys(gs) == FirstKeys(s) {
      ConsistentUnique(s, gs, b);
    }
  }
}
