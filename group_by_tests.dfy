/**
 * The scenarios of the operator's unit tests, replayed on the model: the
 * fixture collection of six notification objects, the notifications each test
 * raises, and the group counts, sizes and keys each test observes.
 */
module GroupByTests {
  import opened Grouping
  import opened FirstOccurrence
  import opened GroupBy

  /** The fixture: three items of "Group1" followed by three items of "Group2". */
  function Fixture(): seq<Item<string>>
  {
    [ Item("Group1", "Item1"), Item("Group1", "Item2"), Item("Group1", "Item3"),
      Item("Group2", "Item4"), Item("Group2", "Item5"), Item("Group2", "Item6") ]
  }

  /** The fixture's groups: "Group1" with the first three items, then "Group2" with the last three. */
  function FixtureGroups(): seq<Group<string>>
  {
    [Group("Group1", Fixture()[..3]), Group("Group2", Fixture()[3..])]
  }

  /** The sizes of the published groups, in list order. */
  function Sizes<T>(gs: seq<Group<T>>): seq<nat>
  {
    seq(|gs|, j requires 0 <= j < |gs| => |gs[j].members|)
  }

  lemma {:induction false} DistinctLabels()
    ensures "Group1" != "Group2" && "Group1" != "Group3" && "Group1" != "Group4"
    ensures "Group2" != "Group3" && "Group2" != "Group4" && "Group3" != "Group4"
  {
    assert "Group1"[5] == '1' && "Group2"[5] == '2' && "Group3"[5] == '3' && "Group4"[5] == '4';
  }

  /** The initial build of the fixture: "Group1" with the first three items, then "Group2" with the last three. */
  lemma {:induction false} FixtureGrouping()
    ensures Build(Fixture()) == FixtureGroups()
  {
    var f := Fixture();
    DistinctLabels();
    assert f[..1][..0] == [];
    assert f[..2][..1] == f[..1];
    assert f[..3][..2] == f[..2];
    assert f[..4][..3] == f[..3];
    assert f[..5][..4] == f[..4];
    assert f[..6][..5] == f[..5];
    assert f[..6] == f;
    var g1 := Group("Group1", [f[0], f[1], f[2]]);
    assert Build(f[..1]) == [Group("Group1", [f[0]])];
    assert Build(f[..2]) == AddToGroups([Group("Group1", [f[0]])], f[1]);
    assert [f[0]] + [f[1]] == [f[0], f[1]];
    assert Build(f[..3]) == AddToGroups([Group("Group1", [f[0], f[1]])], f[2]);
    assert [f[0], f[1]] + [f[2]] == [f[0], f[1], f[2]];
    assert Build(f[..4]) == AddToGroups([g1], f[3]);
    assert AddToGroups([g1], f[3]) == [g1] + AddToGroups([], f[3]);
    assert Build(f[..5]) == AddToGroups([g1, Group("Group2", [f[3]])], f[4]);
    assert AddToGroups([g1, Group("Group2", [f[3]])], f[4]) == [g1] + AddToGroups([Group("Group2", [f[3]])], f[4]);
    assert [f[3]] + [f[4]] == [f[3], f[4]];
    assert Build(f) == AddToGroups(Build(f[..5]), f[5]);
    assert AddToGroups([g1, Group("Group2", [f[3], f[4]])], f[5]) == [g1] + AddToGroups([Group("Group2", [f[3], f[4]])], f[5]);
    assert [f[3], f[4]] + [f[5]] == f[3..];
    assert [f[0], f[1], f[2]] == f[..3];
  }

  /** The operator over the fixture, in its initial state. */
  method FixtureOperation() returns (op: GroupByOperation<string>)
    ensures fresh(op) && op.Valid() && op.InOrder()
    ensures op.source == Fixture() && op.groups == FixtureGroups()
  {
    FixtureGrouping();
    op := new GroupByOperation(Fixture());
  }

  /** The fixture groups into "Group1" then "Group2", three items each. */
  method GroupByWorks() returns (keys: seq<string>, sizes: seq<nat>)
    ensures keys == ["Group1", "Group2"]
    ensures sizes == [3, 3]
  {
    var op := new GroupByOperation(Fixture());
    keys := GroupKeys(op.groups);
    sizes := Sizes(op.groups);
    FixtureGrouping();
  }

  /** Group sizes and keys after appending "Group1"/"Item7" and then "Group2"/"Item8" to the fixture. */
  lemma {:induction false} ExistingKeyAdditions()
    ensures var g1 := AppendedGroups(FixtureGroups(), Item("Group1", "Item7"));
      var g2 := AppendedGroups(g1, Item("Group2", "Item8"));
      && Sizes(g1) == [4, 3] && Sizes(g2) == [4, 4]
      && GroupKeys(g2) == ["Group1", "Group2"] && |g2[0].members| == 4 && |g2[1].members| == 4
  {
    DistinctLabels();
    var f := Fixture();
    var b := FixtureGroups();
    assert GroupKeys(b) == ["Group1", "Group2"];
    var g1 := AppendedGroups(b, Item("Group1", "Item7"));
    assert g1 == [Group("Group1", f[..3] + [Item("Group1", "Item7")]), b[1]];
    var g2 := AppendedGroups(g1, Item("Group2", "Item8"));
    assert GroupKeys(g1) == ["Group1", "Group2"];
    assert g2 == [g1[0], Group("Group2", f[3..] + [Item("Group2", "Item8")])];
  }

  /**
   * Two additions to existing keys grow only their groups; rekeying the first
   * item to a fresh key shrinks its old group and opens a one-member group at
   * the end of the list.
   */
  method GrossNotificationsWork() returns (afterFirstAdd: seq<nat>, afterSecondAdd: seq<nat>, afterRekey: seq<nat>)
    ensures afterFirstAdd == [4, 3]
    ensures afterSecondAdd == [4, 4]
    ensures afterRekey == [3, 4, 1]
  {
    ExistingKeyAdditions();
    var op := FixtureOperation();
    op.Add(Item("Group1", "Item7"));
    afterFirstAdd := Sizes(op.groups);
    op.Add(Item("Group2", "Item8"));
    afterSecondAdd := Sizes(op.groups);
    ghost var s, gs := op.source, op.groups;
    assert s[0] == Fixture()[0];
    RekeyFixtureHead(s, gs);
    op.SetKey(0, "Group3");
    afterRekey := Sizes(op.groups);
  }

  /** The rekey step of the scenario above, on values. */
  lemma {:induction false} RekeyFixtureHead(s: seq<Item<string>>, gs: seq<Group<string>>)
    requires Consistent(s, gs) && |s| >= 1 && KeyOf(s[0]) == "Group1"
    requires GroupKeys(gs) == ["Group1", "Group2"] && |gs[0].members| == 4 && |gs[1].members| == 4
    ensures Sizes(RekeyGroups(s, gs, 0, "Group3")) == [3, 4, 1]
  {
    DistinctLabels();
    var ks := GroupKeys(gs);
    assert IndexOf(ks, "Group1") == 0;
    assert s[..0] == [];
    var hs := RemoveGroups(s, gs, 0);
    var m := gs[0].members;
    assert hs == gs[0 := Group("Group1", m[..0] + m[1..])];
    RemoveGroupsConsistent(s, gs, 0);
    assert GroupKeys(hs) == ks;
    var y := Item("Group3", s[0].value2);
    assert RekeyGroups(s, gs, 0, "Group3") == InsertGroups(s[..0] + s[1..], hs, 0, y, |hs|);
    assert InsertGroups(s[..0] + s[1..], hs, 0, y, |hs|) == hs[..2] + [Group("Group3", [y])] + hs[2..];
  }

  /** Keys and sizes after appending "Group3"/"Item7" and then "Group4"/"Item8" to the fixture: two fresh keys. */
  lemma {:induction false} FreshKeyAdditions()
    ensures var g1 := AppendedGroups(FixtureGroups(), Item("Group3", "Item7"));
      var g2 := AppendedGroups(g1, Item("Group4", "Item8"));
      && GroupKeys(g1) == ["Group1", "Group2", "Group3"]
      && GroupKeys(g2) == ["Group1", "Group2", "Group3", "Group4"]
      && |g2[0].members| == 3 && |g2[1].members| == 3
  {
    DistinctLabels();
    var b := FixtureGroups();
    assert GroupKeys(b) == ["Group1", "Group2"];
    var g1 := AppendedGroups(b, Item("Group3", "Item7"));
    assert g1 == b + [Group("Group3", [Item("Group3", "Item7")])];
    assert GroupKeys(g1) == ["Group1", "Group2", "Group3"];
    var g2 := AppendedGroups(g1, Item("Group4", "Item8"));
    assert g2 == g1 + [Group("Group4", [Item("Group4", "Item8")])];
  }

  /**
   * Groups are listed by first occurrence: a fresh key added at the end opens
   * the last group, and a fresh key inserted at source index 1 opens its group
   * right after "Group1", whose first item precedes index 1.
   */
  method OrderIsPreservedOnGroupAddition() returns (initial: seq<string>, afterAdd: seq<string>, afterInsert: seq<string>)
    ensures initial == ["Group1", "Group2"]
    ensures afterAdd == ["Group1", "Group2", "Group3"]
    ensures afterInsert == ["Group1", "Group4", "Group2", "Group3"]
  {
    FreshKeyAdditions();
    var op := FixtureOperation();
    initial := GroupKeys(op.groups);
    op.Add(Item("Group3", "Item7"));
    afterAdd := GroupKeys(op.groups);
    ghost var s, gs := op.source, op.groups;
    assert s[0] == Fixture()[0];
    InsertFixtureSecond(s, gs);
    op.InsertAt(1, Item("Group4", "Item8"));
    afterInsert := GroupKeys(op.groups);
  }

  /** The insertion step of the scenario above, on values. */
  lemma {:induction false} InsertFixtureSecond(s: seq<Item<string>>, gs: seq<Group<string>>)
    requires Consistent(s, gs) && |s| >= 1 && KeyOf(s[0]) == "Group1"
    requires GroupKeys(gs) == ["Group1", "Group2", "Group3"]
    ensures var p := Placement(GroupKeys(gs), s, 1);
      GroupKeys(InsertGroups(s, gs, 1, Item("Group4", "Item8"), p)) == ["Group1", "Group4", "Group2", "Group3"]
  {
    DistinctLabels();
    var ks := GroupKeys(gs);
    assert First(s, "Group1") == 0;
    assert First(s, "Group2") >= 1;
    assert ks[1..] == ["Group2", "Group3"];
    assert Placement(ks[1..], s, 1) == 0;
    assert Placement(ks, s, 1) == 1;
    InsertGroupsKeys(s, gs, 1, Item("Group4", "Item8"), 1);
    assert ks[..1] + ["Group4"] + ks[1..] == ["Group1", "Group4", "Group2", "Group3"];
  }

  /** The fixture followed by an item of "Group3" and an item of "Group4", grouped. */
  method FourGroups() returns (op: GroupByOperation<string>)
    ensures fresh(op) && op.Valid()
    ensures op.source == Fixture() + [Item("Group3", "Item7")] + [Item("Group4", "Item8")]
    ensures GroupKeys(op.groups) == ["Group1", "Group2", "Group3", "Group4"]
    ensures |op.groups[0].members| == 3 && |op.groups[1].members| == 3
  {
    FreshKeyAdditions();
    op := FixtureOperation();
    op.Add(Item("Group3", "Item7"));
    op.Add(Item("Group4", "Item8"));
  }

  /**
   * The removal scenario as its assertions are written: removing source
   * index 1 takes out a "Group1" item while two others remain, so all four
   * groups survive in their positions (the assertions expect three).
   */
  method OrderOnGroupRemovalAsWritten() returns (count: nat, keys: seq<string>)
    ensures count == 4
    ensures keys == ["Group1", "Group2", "Group3", "Group4"]
  {
    var op := FourGroups();
    ghost var s, gs := op.source, op.groups;
    assert s[1] == Fixture()[1];
    RemoveFirstGroupItem(s, gs);
    op.RemoveAt(1);
    keys := GroupKeys(op.groups);
    count := |op.groups|;
  }

  /** The removal step of the scenario above, on values: a group that keeps members keeps its place. */
  lemma {:induction false} RemoveFirstGroupItem(s: seq<Item<string>>, gs: seq<Group<string>>)
    requires Consistent(s, gs) && |s| > 1 && KeyOf(s[1]) == "Group1"
    requires GroupKeys(gs) == ["Group1", "Group2", "Group3", "Group4"] && |gs[0].members| == 3
    ensures GroupKeys(RemoveGroups(s, gs, 1)) == ["Group1", "Group2", "Group3", "Group4"]
  {
    assert IndexOf(GroupKeys(gs), "Group1") == 0;
    RemoveGroupsKeys(s, gs, 1);
  }

  /** Source indices 3 to 5 of the four-group source hold the "Group2" items. */
  lemma {:induction false} SecondGroupPositions()
    ensures var s := Fixture() + [Item("Group3", "Item7")] + [Item("Group4", "Item8")];
      |s| == 8 && forall q :: 3 <= q < 6 ==> KeyOf(s[q]) == "Group2"
  {
    var s := Fixture() + [Item("Group3", "Item7")] + [Item("Group4", "Item8")];
    assert s[3] == Fixture()[3] && s[4] == Fixture()[4] && s[5] == Fixture()[5];
  }

  /**
   * Removal as the test's name and expected keys intend: once the last
   * "Group2" item leaves, exactly that group is dropped and the survivors
   * keep their order.
   */
  method OrderIsPreservedOnGroupRemoval() returns (count: nat, keys: seq<string>)
    ensures count == 3
    ensures keys == ["Group1", "Group3", "Group4"]
  {
    SecondGroupPositions();
    var op := FourGroups();
    ghost var s, gs := op.source, op.groups;
    RemoveSecondGroupItem(s, gs, 3);
    op.RemoveAt(3);
    s, gs := op.source, op.groups;
    RemoveSecondGroupItem(s, gs, 2);
    op.RemoveAt(3);
    s, gs := op.source, op.groups;
    RemoveSecondGroupItem(s, gs, 1);
    op.RemoveAt(3);
    keys := GroupKeys(op.groups);
    count := |op.groups|;
  }

  /**
   * Removing source index 3 while "Group2" has n items there, on values: the
   * group shrinks by one, and its last removal drops it from the list.
   */
  lemma {:induction false} RemoveSecondGroupItem(s: seq<Item<string>>, gs: seq<Group<string>>, n: nat)
    requires Consistent(s, gs) && 3 + n <= |s| && n >= 1
    requires forall q :: 3 <= q < 3 + n ==> KeyOf(s[q]) == "Group2"
    requires GroupKeys(gs) == ["Group1", "Group2", "Group3", "Group4"] && |gs[1].members| == n
    ensures var t, hs := s[..3] + s[4..], RemoveGroups(s, gs, 3);
      && (forall q :: 3 <= q < 2 + n ==> KeyOf(t[q]) == "Group2")
      && (n == 1 ==> GroupKeys(hs) == ["Group1", "Group3", "Group4"])
      && (n > 1 ==> GroupKeys(hs) == GroupKeys(gs) && |hs[1].members| == n - 1)
  {
    DistinctLabels();
    var ks := GroupKeys(gs);
    assert IndexOf(ks, "Group2") == 1;
    RemoveGroupsKeys(s, gs, 3);
    assert ks[..1] + ks[2..] == ["Group1", "Group3", "Group4"];
    var t := s[..3] + s[4..];
    assert forall q :: 3 <= q < 2 + n ==> t[q] == s[q + 1];
    if n > 1 {
      SecondGroupShrinks(s, gs, n);
    }
  }

  /** The n > 1 case of the lemma above: "Group2" keeps n - 1 members. */
  lemma {:induction false} SecondGroupShrinks(s: seq<Item<string>>, gs: seq<Group<string>>, n: nat)
    requires Consistent(s, gs) && 3 < |s| && n > 1 && KeyOf(s[3]) == "Group2"
    requires GroupKeys(gs) == ["Group1", "Group2", "Group3", "Group4"] && |gs[1].members| == n
    ensures |RemoveGroups(s, gs, 3)| == 4 && |RemoveGroups(s, gs, 3)[1].members| == n - 1
  {
    var ks := GroupKeys(gs);
    assert IndexOf(ks, "Group2") == 1;
    var m, o := gs[1].members, |Members(s[..3], "Group2")|;
    assert m == Members(s, ks[1]);
    MembersRemoveAt(s, 3, "Group2");
    assert RemoveGroups(s, gs, 3) == gs[1 := Group("Group2", m[..o] + m[o + 1..])];
  }

  /**
   * Why removal keeps first-occurrence order only conditionally: removing the
   * first "Group1" item of [Group1, Group2, Group1] leaves both groups in
   * place, while a fresh build of what remains would list "Group2" first.
   */
  method RemovalKeepsPositionsNotFirstOccurrence() returns (keys: seq<string>, rebuilt: seq<string>)
    ensures keys == ["Group1", "Group2"]
    ensures rebuilt == ["Group2", "Group1"]
  {
    var op := new GroupByOperation(Interleaved());
    ghost var gs := op.groups;
    RemoveInterleavedHead(gs);
    op.RemoveAt(0);
    keys := GroupKeys(op.groups);
    rebuilt := FirstKeys(op.source);
  }

  /** The source [Group1, Group2, Group1] of the scenario above. */
  function Interleaved(): seq<Item<string>>
  {
    [Item("Group1", "Item1"), Item("Group2", "Item4"), Item("Group1", "Item2")]
  }

  /** The removal step of the scenario above, on values. */
  lemma {:induction false} RemoveInterleavedHead(gs: seq<Group<string>>)
    requires Consistent(Interleaved(), gs) && GroupKeys(gs) == FirstKeys(Interleaved())
    ensures GroupKeys(RemoveGroups(Interleaved(), gs, 0)) == ["Group1", "Group2"]
    ensures FirstKeys(Interleaved()[..0] + Interleaved()[1..]) == ["Group2", "Group1"]
  {
    InterleavedKeys();
    var s := Interleaved();
    assert gs[0].members == Members(s, GroupKeys(gs)[0]);
    assert IndexOf(GroupKeys(gs), "Group1") == 0;
    RemoveGroupsKeys(s, gs, 0);
  }

  /** Key lists of the interleaved source, before and after its head is removed, and the size of "Group1". */
  lemma {:induction false} InterleavedKeys()
    ensures FirstKeys(Interleaved()) == ["Group1", "Group2"]
    ensures FirstKeys(Interleaved()[..0] + Interleaved()[1..]) == ["Group2", "Group1"]
    ensures |Members(Interleaved(), "Group1")| == 2
  {
    DistinctLabels();
    var s := Interleaved();
    assert s[..1][..0] == [] && s[..2][..1] == s[..1] && s[..3] == s;
    assert FirstKeys(s[..1]) == ["Group1"];
    assert FirstKeys(s[..2]) == ["Group1", "Group2"];
    assert Members(s[..1], "Group1") == [s[0]];
    assert Members(s[..2], "Group1") == [s[0]];
    var t := s[..0] + s[1..];
    assert t == [s[1], s[2]] && t[..1] == [s[1]] && t[..1][..0] == [] && t[..2] == t;
    assert FirstKeys(t[..1]) == ["Group2"];
  }
}
