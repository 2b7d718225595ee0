/**
 * First-occurrence order: the source index of a key's first item, the key
 * lists that are sorted by it, where a newly opened group belongs, and how
 * insertions and removals in the source move first occurrences.
 */
module FirstOccurrence {
  import opened Grouping

  /** The source index of the first item with key k, or |s| when there is none. */
  function First<T(==)>(s: seq<Item<T>>, k: T): (f: nat)
    ensures f <= |s|
    ensures f < |s| ==> KeyOf(s[f]) == k
  {
    if s == [] then 0
    else if KeyOf(s[0]) == k then 0
    else 1 + First(s[1..], k)
  }

  /** The first occurrence in a concatenation: in the front part if there is one there. */
  lemma {:induction false} FirstConcat<T>(a: seq<Item<T>>, b: seq<Item<T>>, k: T)
    ensures First(a + b, k) == if First(a, k) < |a| then First(a, k) else |a| + First(b, k)
    decreases |a|
  {
    if a == [] {
      assert a + b == b;
    } else {
      assert (a + b)[0] == a[0] && (a + b)[1..] == a[1..] + b;
      FirstConcat(a[1..], b, k);
    }
  }

  /** A key occurs in the source exactly when its first occurrence is an index of it. */
  lemma {:induction false} FirstPresent<T>(s: seq<Item<T>>, k: T)
    ensures First(s, k) < |s| <==> k in KeySet(s)
    decreases |s|
  {
    if s != [] {
      assert KeySet(s) == {KeyOf(s[0])} + KeySet(s[1..]) by {
        assert forall y :: y in s <==> y == s[0] || y in s[1..];
      }
      FirstPresent(s[1..], k);
    }
  }

  /** ks lists keys in strictly increasing order of their first occurrence in s. */
  ghost predicate Arranged<T>(s: seq<Item<T>>, ks: seq<T>)
  {
    forall a, b :: 0 <= a < b < |ks| ==> First(s, ks[a]) < First(s, ks[b])
  }

  /** The keys of FirstKeys(s) are the keys of s, listed by first occurrence. */
  lemma {:induction false} FirstKeysArranged<T>(s: seq<Item<T>>)
    ensures Arranged(s, FirstKeys(s))
    ensures SeqSet(FirstKeys(s)) == KeySet(s)
    decreases |s|
  {
    if s != [] {
      var p, x := s[..|s| - 1], s[|s| - 1];
      assert s == p + [x];
      FirstKeysArranged(p);
      var ks := FirstKeys(p);
      assert KeySet(s) == KeySet(p) + {KeyOf(x)};
      forall k | k in KeySet(p) ensures First(s, k) == First(p, k) {
        FirstPresent(p, k);
        FirstConcat(p, [x], k);
      }
      forall a | 0 <= a < |ks| ensures First(s, ks[a]) == First(p, ks[a]) < |p| {
        assert ks[a] in SeqSet(ks);
        FirstPresent(p, ks[a]);
      }
      if KeyOf(x) !in ks {
        assert KeyOf(x) !in KeySet(p);
        FirstPresent(p, KeyOf(x));
        FirstConcat(p, [x], KeyOf(x));
        var nk := ks + [KeyOf(x)];
        assert SeqSet(nk) == SeqSet(ks) + {KeyOf(x)};
        forall a, b | 0 <= a < b < |nk| ensures First(s, nk[a]) < First(s, nk[b]) {
          assert nk[a] == ks[a];
          if b == |ks| {
            assert First(s, nk[b]) == |p|;
          } else {
            assert nk[b] == ks[b];
          }
        }
      } else {
        assert KeyOf(x) in SeqSet(ks);
      }
    }
  }

  lemma {:induction false} SeqSetHead<T>(b: seq<T>)
    ensures b != [] ==> b[0] in SeqSet(b)
  {
  }

  /** Two key lists arranged by first occurrence in the same source, with the same keys, are equal. */
  lemma {:induction false} ArrangedUnique<T>(s: seq<Item<T>>, a: seq<T>, b: seq<T>)
    requires Arranged(s, a) && Arranged(s, b)
    requires SeqSet(a) == SeqSet(b)
    ensures a == b
    decreases |a|
  {
    if a == [] {
      SeqSetHead(b);
    } else {
      assert a[0] in SeqSet(b);
      var q :| 0 <= q < |b| && b[q] == a[0];
      assert b[0] in SeqSet(a);
      var r :| 0 <= r < |a| && a[r] == b[0];
      assert First(s, a[0]) <= First(s, b[0]);
      assert First(s, b[0]) <= First(s, a[0]);
      assert q == 0;
      assert a[0] !in SeqSet(a[1..]) && b[0] !in SeqSet(b[1..]);
      assert SeqSet(a) == {a[0]} + SeqSet(a[1..]);
      assert SeqSet(b) == {b[0]} + SeqSet(b[1..]);
      ArrangedUnique(s, a[1..], b[1..]);
      assert a == [a[0]] + a[1..] && b == [b[0]] + b[1..];
    }
  }

  /**
   * Where a group opened for an item inserted at source index i goes: before
   * the first group (in list order) whose first member sits at index i or later.
   */
  function Placement<T(==)>(ks: seq<T>, s: seq<Item<T>>, i: nat): (p: nat)
    ensures p <= |ks|
    ensures forall q :: 0 <= q < p ==> First(s, ks[q]) < i
    ensures p < |ks| ==> First(s, ks[p]) >= i
  {
    if ks == [] then 0
    else if First(s, ks[0]) >= i then 0
    else 1 + Placement(ks[1..], s, i)
  }

  /** When every key is present, a group opened at the end of the source goes at the end. */
  lemma {:induction false} PlacementAtEnd<T>(ks: seq<T>, s: seq<Item<T>>)
    requires SeqSet(ks) <= KeySet(s)
    ensures Placement(ks, s, |s|) == |ks|
  {
    var p := Placement(ks, s, |s|);
    if p < |ks| {
      assert ks[p] in SeqSet(ks);
      FirstPresent(s, ks[p]);
    }
  }

  lemma {:induction false} FirstCons<T>(x: Item<T>, r: seq<Item<T>>, k: T)
    ensures First([x] + r, k) == if KeyOf(x) == k then 0 else 1 + First(r, k)
  {
    assert ([x] + r)[0] == x && ([x] + r)[1..] == r;
  }

  /** Inserting x at index i shifts every first occurrence at or after i by one. */
  lemma {:induction false} FirstInsertAt<T>(s: seq<Item<T>>, i: nat, x: Item<T>, k: T)
    requires i <= |s|
    ensures var f := First(s, k);
      First(s[..i] + [x] + s[i..], k) == if f < i then f else if KeyOf(x) == k then i else f + 1
  {
    assert s == s[..i] + s[i..];
    assert s[..i] + [x] + s[i..] == s[..i] + ([x] + s[i..]);
    FirstConcat(s[..i], s[i..], k);
    FirstConcat(s[..i], [x] + s[i..], k);
    FirstCons(x, s[i..], k);
  }

  /** Removing index i, when it is not k's first occurrence, shifts k's first occurrence only if it lay after i. */
  lemma {:induction false} FirstRemoveAt<T>(s: seq<Item<T>>, i: nat, k: T)
    requires i < |s|
    requires First(s, k) != i
    ensures var f := First(s, k);
      First(s[..i] + s[i + 1..], k) == if f < i then f else f - 1
  {
    assert s == s[..i] + ([s[i]] + s[i + 1..]);
    FirstConcat(s[..i], [s[i]] + s[i + 1..], k);
    FirstConcat(s[..i], s[i + 1..], k);
    FirstCons(s[i], s[i + 1..], k);
  }

  /** An insertion that does not move any listed key's first occurrence before i keeps the list arranged. */
  lemma {:induction false} ArrangedAfterInsert<T>(s: seq<Item<T>>, i: nat, x: Item<T>, ks: seq<T>)
    requires i <= |s|
    requires Arranged(s, ks)
    requires forall a :: 0 <= a < |ks| ==> ks[a] != KeyOf(x) || First(s, ks[a]) < i
    ensures Arranged(s[..i] + [x] + s[i..], ks)
    ensures forall a :: 0 <= a < |ks| ==>
      First(s[..i] + [x] + s[i..], ks[a]) == if First(s, ks[a]) < i then First(s, ks[a]) else First(s, ks[a]) + 1
  {
    forall a | 0 <= a < |ks|
      ensures First(s[..i] + [x] + s[i..], ks[a]) == if First(s, ks[a]) < i then First(s, ks[a]) else First(s, ks[a]) + 1
    {
      FirstInsertAt(s, i, x, ks[a]);
    }
  }

  /** A removal at an index that is no listed key's first occurrence keeps the list arranged. */
  lemma {:induction false} ArrangedAfterRemove<T>(s: seq<Item<T>>, i: nat, ks: seq<T>)
    requires i < |s|
    requires Arranged(s, ks)
    requires forall a :: 0 <= a < |ks| ==> First(s, ks[a]) != i
    ensures Arranged(s[..i] + s[i + 1..], ks)
  {
    forall a | 0 <= a < |ks|
      ensures First(s[..i] + s[i + 1..], ks[a]) == if First(s, ks[a]) < i then First(s, ks[a]) else First(s, ks[a]) - 1
    {
      FirstRemoveAt(s, i, ks[a]);
    }
  }

  /** A fresh key inserted at index i, placed by Placement, keeps the key list arranged. */
  lemma {:induction false} ArrangedAfterFreshInsert<T>(s: seq<Item<T>>, i: nat, x: Item<T>, ks: seq<T>)
    requires i <= |s|
    requires Arranged(s, ks)
    requires SeqSet(ks) <= KeySet(s)
    requires KeyOf(x) !in KeySet(s)
    ensures var p := Placement(ks, s, i);
      Arranged(s[..i] + [x] + s[i..], ks[..p] + [KeyOf(x)] + ks[p..])
  {
    var t := s[..i] + [x] + s[i..];
    var k := KeyOf(x);
    var p := Placement(ks, s, i);
    var nk := ks[..p] + [k] + ks[p..];
    forall a | 0 <= a < |ks| ensures ks[a] != k {
      assert ks[a] in SeqSet(ks);
    }
    ArrangedAfterInsert(s, i, x, ks);
    FirstPresent(s, k);
    FirstInsertAt(s, i, x, k);
    InsertedAt(ks, p, k);
    forall q | 0 <= q < |nk|
      ensures q < p ==> nk[q] == ks[q] && First(t, nk[q]) < i
      ensures q == p ==> First(t, nk[q]) == i
      ensures q > p ==> nk[q] == ks[q - 1] && First(t, nk[q]) == First(s, ks[q - 1]) + 1 > i
    {
      if q > p {
        assert First(s, ks[q - 1]) >= First(s, ks[p]);
      }
    }
  }

  /** Inserting an item of a present key after that key's first occurrence leaves the key list unchanged. */
  lemma {:induction false} InsertExistingKey<T>(s: seq<Item<T>>, i: nat, x: Item<T>)
    requires i <= |s|
    requires First(s, KeyOf(x)) < i
    ensures FirstKeys(s[..i] + [x] + s[i..]) == FirstKeys(s)
  {
    var t := s[..i] + [x] + s[i..];
    var ks := FirstKeys(s);
    FirstKeysArranged(s);
    FirstKeysArranged(t);
    KeySetInsertAt(s, i, x);
    FirstPresent(s, KeyOf(x));
    ArrangedAfterInsert(s, i, x, ks);
    ArrangedUnique(t, FirstKeys(t), ks);
  }

  /** The key list with a fresh key opened at its placement is arranged and holds the keys after the insertion. */
  lemma {:induction false} FreshKeyList<T>(s: seq<Item<T>>, i: nat, x: Item<T>)
    requires i <= |s|
    requires KeyOf(x) !in KeySet(s)
    ensures var ks := FirstKeys(s); var p := Placement(ks, s, i); var nk := ks[..p] + [KeyOf(x)] + ks[p..];
      Arranged(s[..i] + [x] + s[i..], nk) && SeqSet(nk) == KeySet(s[..i] + [x] + s[i..])
  {
    var ks := FirstKeys(s);
    var p := Placement(ks, s, i);
    var nk := ks[..p] + [KeyOf(x)] + ks[p..];
    FirstKeysArranged(s);
    KeySetInsertAt(s, i, x);
    SeqSetInsert(ks, p, KeyOf(x));
    ArrangedAfterFreshInsert(s, i, x, ks);
  }

  /** Inserting an item of a fresh key opens its key at its placement. */
  lemma {:induction false} InsertFreshKey<T>(s: seq<Item<T>>, i: nat, x: Item<T>)
    requires i <= |s|
    requires KeyOf(x) !in KeySet(s)
    ensures var ks := FirstKeys(s); var p := Placement(ks, s, i);
      FirstKeys(s[..i] + [x] + s[i..]) == ks[..p] + [KeyOf(x)] + ks[p..]
  {
    var t := s[..i] + [x] + s[i..];
    var ks := FirstKeys(s);
    var p := Placement(ks, s, i);
    FirstKeysArranged(t);
    FreshKeyList(s, i, x);
    ArrangedUnique(t, FirstKeys(t), ks[..p] + [KeyOf(x)] + ks[p..]);
  }

  /**
   * Inserting x at index i keeps the key list in first-occurrence order: an
   * existing key stays where it is (when its first occurrence lies before i),
   * and a fresh key goes to its placement.
   */
  lemma {:induction false} InsertKeepsFirstOrder<T>(s: seq<Item<T>>, i: nat, x: Item<T>)
    requires i <= |s|
    requires KeyOf(x) !in KeySet(s) || First(s, KeyOf(x)) < i
    ensures var ks := FirstKeys(s); var p := Placement(ks, s, i);
      FirstKeys(s[..i] + [x] + s[i..]) == if KeyOf(x) in KeySet(s) then ks else ks[..p] + [KeyOf(x)] + ks[p..]
  {
    if KeyOf(x) in KeySet(s) {
      InsertExistingKey(s, i, x);
    } else {
      InsertFreshKey(s, i, x);
    }
  }

  /** Dropping one key from an arranged list leaves it arranged. */
  lemma {:induction false} ArrangedDrop<T>(s: seq<Item<T>>, ks: seq<T>, j: nat)
    requires j < |ks|
    requires Arranged(s, ks)
    ensures Arranged(s, ks[..j] + ks[j + 1..])
    ensures Distinct(ks)
  {
    var nk := ks[..j] + ks[j + 1..];
    assert forall q :: 0 <= q < |nk| ==> nk[q] == if q < j then ks[q] else ks[q + 1];
  }

  /** Removing an item whose key still occurs later leaves the key list unchanged. */
  lemma {:induction false} RemoveKeptKey<T>(s: seq<Item<T>>, i: nat)
    requires i < |s|
    requires First(s, KeyOf(s[i])) < i
    ensures FirstKeys(s[..i] + s[i + 1..]) == FirstKeys(s)
  {
    var t := s[..i] + s[i + 1..];
    var ks := FirstKeys(s);
    FirstKeysArranged(s);
    FirstKeysArranged(t);
    KeySetRemoveAt(s, i);
    var f := First(s, KeyOf(s[i]));
    assert t[f] == s[f];
    assert KeyOf(s[i]) in KeySet(t);
    assert forall a :: 0 <= a < |ks| ==> First(s, ks[a]) != i;
    ArrangedAfterRemove(s, i, ks);
    ArrangedUnique(t, FirstKeys(t), ks);
  }

  /** Removing the last item of a key drops exactly that key from the key list. */
  lemma {:induction false} RemoveDroppedKey<T>(s: seq<Item<T>>, i: nat)
    requires i < |s|
    requires KeyOf(s[i]) !in KeySet(s[..i] + s[i + 1..])
    ensures var ks := FirstKeys(s); var k := KeyOf(s[i]);
      && k in ks
      && FirstKeys(s[..i] + s[i + 1..]) == ks[..IndexOf(ks, k)] + ks[IndexOf(ks, k) + 1..]
  {
    var t := s[..i] + s[i + 1..];
    var k := KeyOf(s[i]);
    var ks := FirstKeys(s);
    FirstKeysArranged(s);
    FirstKeysArranged(t);
    KeySetRemoveAt(s, i);
    assert s[i] in s;
    assert k in SeqSet(ks);
    var j := IndexOf(ks, k);
    var nk := ks[..j] + ks[j + 1..];
    ArrangedDrop(s, ks, j);
    DropDistinct(ks, j);
    assert forall q :: 0 <= q < |nk| ==> First(s, nk[q]) != i;
    ArrangedAfterRemove(s, i, nk);
    ArrangedUnique(t, FirstKeys(t), nk);
  }

  /**
   * Removing index i keeps the key list in first-occurrence order when the
   * removed item was its key's last one (the key drops out) or was not its
   * key's first one (nothing moves).
   */
  lemma {:induction false} RemoveKeepsFirstOrder<T>(s: seq<Item<T>>, i: nat)
    requires i < |s|
    requires KeyOf(s[i]) !in KeySet(s[..i] + s[i + 1..]) || First(s, KeyOf(s[i])) < i
    ensures var ks := FirstKeys(s); var k := KeyOf(s[i]);
      && k in ks
      && FirstKeys(s[..i] + s[i + 1..])
         == if k in KeySet(s[..i] + s[i + 1..]) then ks else ks[..IndexOf(ks, k)] + ks[IndexOf(ks, k) + 1..]
  {
    if KeyOf(s[i]) in KeySet(s[..i] + s[i + 1..]) {
      FirstKeysArranged(s);
      assert s[i] in s;
      assert KeyOf(s[i]) in SeqSet(FirstKeys(s));
      RemoveKeptKey(s, i);
    } else {
      RemoveDroppedKey(s, i);
    }
  }

  /** RemoveKeepsFirstOrder, with the removed key's list position given as j. */
  lemma {:induction false} RemoveKeyOrder<T>(s: seq<Item<T>>, i: nat, j: nat)
    requires i < |s| && j < |FirstKeys(s)| && FirstKeys(s)[j] == KeyOf(s[i])
    requires KeyOf(s[i]) !in KeySet(s[..i] + s[i + 1..]) || First(s, KeyOf(s[i])) < i
    ensures var ks := FirstKeys(s);
      FirstKeys(s[..i] + s[i + 1..])
      == if KeyOf(s[i]) in KeySet(s[..i] + s[i + 1..]) then ks else ks[..j] + ks[j + 1..]
  {
    var ks := FirstKeys(s);
    RemoveKeepsFirstOrder(s, i);
    FirstKeysArranged(s);
    ArrangedDrop(s, ks, j);
    IndexOfDistinct(ks, j);
  }

  /**
   * For a grouping listed in first-occurrence order, removing a key's last
   * item, or an item after its key's first occurrence, leaves the groups in
   * first-occurrence order.
   */
  lemma {:induction false} RemoveGroupsOrder<T>(s: seq<Item<T>>, gs: seq<Group<T>>, i: nat)
    requires Consistent(s, gs) && GroupKeys(gs) == FirstKeys(s) && i < |s|
    requires KeyOf(s[i]) !in KeySet(s[..i] + s[i + 1..]) || First(s, KeyOf(s[i])) < i
    ensures GroupKeys(RemoveGroups(s, gs, i)) == FirstKeys(s[..i] + s[i + 1..])
  {
    var ks, k := GroupKeys(gs), KeyOf(s[i]);
    var j := IndexOf(ks, k);
    var hs := RemoveGroups(s, gs, i);
    RemoveGroupsKeys(s, gs, i);
    RemoveKeyOrder(s, i, j);
    if k in KeySet(s[..i] + s[i + 1..]) {
      assert GroupKeys(hs) == ks;
    } else {
      assert GroupKeys(hs) == ks[..j] + ks[j + 1..];
    }
  }
}
