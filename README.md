# Incremental GroupBy over an observable collection

This project models the group-by operator of OLinq, `GroupByOperation<NOS, string>`, as its unit tests in
`OLinq.Tests/GroupByTests.cs` pin it down. The operator watches an ordered, mutable collection of
notification objects. Each object has two string properties, `Value1` and `Value2`, and the key selector
is `p => p.Value1`. The operator publishes an ordered list of groups, each with a key and a member list,
and updates it in place whenever the collection changes. A change is an `Add`, an `Insert(index, item)`,
a `RemoveAt(index)`, or an assignment to an item's `Value1`, which moves the item to another group.

The model has four modules:

- `Grouping` (`grouping.dfy`) holds the values and their meaning:
  - items and groups;
  - the items a key selects (`Members`) and the keys in first-occurrence order (`FirstKeys`);
  - the one-pass build of the initial grouping (`Build`, one `AddToGroups` step per item);
  - the relation `Consistent(source, groups)` that the operator maintains: keys are distinct, each group
    holds exactly the source items of its key in source order, no group is empty, and every source key
    has a group.
  - It also defines the operator's four update steps as functions of the old source and group list
    (`InsertGroups`, `RemoveGroups`, `RekeyGroups`, and `AppendedGroups` for an append), with their
    consistency, key-order and size lemmas.
- `FirstOccurrence` (`first_occurrence.dfy`) covers the source index of a key's first item. It defines
  the placement rule for a group opened by an insertion and proves when insertions and removals keep the
  group list in first-occurrence order.
- `GroupBy` (`group_by.dfy`) is the operator itself: the class `GroupByOperation` with the fields
  `source` and `groups`, and methods that update them in place. Each method keeps `Valid()` (the
  `Consistent` relation) and ties the new state to the step functions above.
- `GroupByTests` (`group_by_tests.dfy`) replays the fixture and the four tests on the class. It proves
  the group counts, sizes and keys that the tests assert.

The buffer's `Count()` and `ElementAt(i)` are modelled as `|groups|` and `groups[i]`. A group's
`Count()` is the length of its member list.

Decisions where the tests leave room or disagree with a prose description of the operator:

- **A group opened by a rekey goes at the end of the list.** The passing test at lines 74-77 keeps
  "Group1" and "Group2" at positions 0 and 1 after the first item is rekeyed to "Group3". So `RekeyGroups`
  appends the new group. Placing it by first occurrence would have put it at position 0.
- **A group opened by an insertion is placed by first occurrence** (lines 90-95). It goes before the
  first group whose first member sits at the insertion index or later.
- **An item joining an existing group is inserted at its source-relative offset, not appended.** Member
  lists therefore stay in source order after every operation. The tests only check sizes.
- The two `NotYetImplemented_` tests are taken as the intended policy.
- The literal expectations of the removal test cannot hold; see "## Findings".

## Model

| member | source | states |
|---|---|---|
| GroupByTests.FixtureGrouping | OLinq.Tests/GroupByTests.cs:22-30 | The one-pass build of the six-item fixture is exactly two groups: "Group1" with the first three items, then "Group2" with the last three. |
| GroupByTests.GroupByWorks | OLinq.Tests/GroupByTests.cs:53-59 | After construction over the fixture the operator publishes keys ["Group1", "Group2"] with sizes [3, 3]. |
| GroupByTests.GrossNotificationsWork | OLinq.Tests/GroupByTests.cs:61-78 | Adding ("Group1","Item7") gives sizes [4, 3]; then adding ("Group2","Item8") gives [4, 4]; then rekeying item 0 to "Group3" gives [3, 4, 1]. |
| GroupByTests.OrderIsPreservedOnGroupAddition | OLinq.Tests/GroupByTests.cs:80-96 | Keys start as [Group1, Group2]. Adding ("Group3","Item7") gives [Group1, Group2, Group3]. Inserting ("Group4","Item8") at index 1 gives [Group1, Group4, Group2, Group3]. |
| GroupByTests.OrderOnGroupRemovalAsWritten | OLinq.Tests/GroupByTests.cs:98-109 | The removal test as written: after the two additions, RemoveAt(1) leaves 4 groups with keys [Group1, Group2, Group3, Group4], not the 3 the test expects. |
| GroupByTests.OrderIsPreservedOnGroupRemoval | OLinq.Tests/GroupByTests.cs:98-109 | The removal the test is named for: removing every "Group2" item leaves 3 groups with keys [Group1, Group3, Group4], survivors in their prior order. |
| GroupByTests.RemovalKeepsPositionsNotFirstOccurrence | OLinq.Tests/GroupByTests.cs:98-99 | Removing the first item of [Group1, Group2, Group1] keeps the group list [Group1, Group2], while the first-occurrence order of what remains is [Group2, Group1]. |
| GroupByTests.RekeyFixtureHead | OLinq.Tests/GroupByTests.cs:74-77 | From groups [Group1, Group2] of sizes 4 and 4, rekeying a "Group1" item at index 0 to "Group3" gives sizes [3, 4, 1]. |
| GroupByTests.InsertFixtureSecond | OLinq.Tests/GroupByTests.cs:90-95 | Inserting a fresh key at index 1, when "Group1" occurs at index 0, gives keys [Group1, Group4, Group2, Group3]. |
| GroupByTests.ExistingKeyAdditions | OLinq.Tests/GroupByTests.cs:64-72 | Appending items of existing keys to the fixture's groups gives sizes [4, 3] and then [4, 4], with the keys unchanged. |
| GroupByTests.FreshKeyAdditions | OLinq.Tests/GroupByTests.cs:100-102 | Appending items of "Group3" and "Group4" opens groups at the end, giving keys [Group1, Group2, Group3, Group4]; "Group1" and "Group2" keep 3 members each. |
| GroupBy.GroupByOperation.constructor | OLinq.Tests/GroupByTests.cs:22-49 | Builds the groups of an initial collection by adding its items front to back: the result is Build(s), consistent and in first-occurrence order. |
| GroupBy.GroupByOperation.FindGroup | OLinq.Tests/GroupByTests.cs:64 | Looks up the group of a key: returns its list position, or the list length exactly when the key has no group. |
| GroupBy.GroupByOperation.MemberOffset | OLinq.Tests/GroupByTests.cs:90 | Counts the items of a key before a source index, which is where an item entering there goes in that key's member list. |
| GroupBy.GroupByOperation.FirstIndexOf | OLinq.Tests/GroupByTests.cs:90-95 | Returns the source index of a key's first item (the source length when the key is absent). |
| GroupBy.GroupByOperation.FreshGroupPosition | OLinq.Tests/GroupByTests.cs:90-95 | Returns where a group opened at source index i goes: after every group whose first item lies before i, before the first one that does not. |
| GroupBy.GroupByOperation.Place | OLinq.Tests/GroupByTests.cs:90 | Inserts an item at a source index and updates the groups exactly as InsertGroups says, keeping Valid. |
| GroupBy.GroupByOperation.InsertAt | OLinq.Tests/GroupByTests.cs:90-95 | Insert(index, item): the groups become InsertGroups with a fresh key's group at its first-occurrence placement; first-occurrence order is kept unless the item moves an existing key's first occurrence earlier. |
| GroupBy.GroupByOperation.Add | OLinq.Tests/GroupByTests.cs:64-72 | Add(item): the source grows by the item, and the groups take exactly one build step (AddToGroups). The item joins its key's group at the end, or opens a group at the end of the list. First-occurrence order is kept. |
| GroupBy.GroupByOperation.RemoveAt | OLinq.Tests/GroupByTests.cs:104 | RemoveAt(index): the groups become RemoveGroups, so the item leaves its group and an emptied group is dropped. First-occurrence order is kept when the item was its key's last item or not its key's first. |
| GroupBy.GroupByOperation.SetKey | OLinq.Tests/GroupByTests.cs:74 | Assigning a new key property to item i: the source item changes its key only, and the groups become RekeyGroups, keeping Valid. |
| Grouping.AddToGroupsSpec | OLinq.Tests/GroupByTests.cs:22-30 | A build step equals AppendedGroups: the item is appended to its key's group, or a one-member group is appended at the end. |
| Grouping.AppendGrowsOneGroup | OLinq.Tests/GroupByTests.cs:64-72 | When the item's key has a group, the append grows only that group, by one, and the group count is unchanged. A fresh key adds exactly one one-member group at the end. Every other group keeps its key, position and size. |
| Grouping.AddToGroupsConsistent | OLinq.Tests/GroupByTests.cs:22-30 | A build step on a consistent grouping of p is a consistent grouping of p + [x]; its keys gain x's key at the end when it is fresh. |
| Grouping.BuildConsistent | OLinq.Tests/GroupByTests.cs:22-30 | The one-pass build is a consistent grouping whose keys are the source's keys in first-occurrence order. |
| Grouping.ConsistentAgreesWithBuild | OLinq.Tests/GroupByTests.cs:53-77 | Any consistent grouping has the same groups as the from-scratch build (same count; each group of one is a group of the other). When it is in first-occurrence order it equals the build. |
| Grouping.ConsistentKeys | OLinq.Tests/GroupByTests.cs:56 | In a consistent grouping, the group keys are exactly the keys present in the source. |
| Grouping.ConsistentPartition | OLinq.Tests/GroupByTests.cs:56-58 | Every source item lies in exactly one group, and a group holds an item exactly when its key is the item's key. |
| Grouping.ConsistentSizes | OLinq.Tests/GroupByTests.cs:56-58 | The group sizes sum to the source count, and there are as many groups as distinct keys in the source. |
| Grouping.ConsistentUnique | OLinq.Tests/GroupByTests.cs:83-84 | Two consistent groupings of one source with the same key order are equal. |
| Grouping.RekeyMovesOneMember | OLinq.Tests/GroupByTests.cs:74-77 | Replacing item i moves exactly one member: the old key loses one, the new key gains one, and every other key keeps its count. |
| Grouping.InsertJoinsGroup | OLinq.Tests/GroupByTests.cs:90 | An item whose key has a group joins it at its source-relative offset, and the grouping stays consistent. |
| Grouping.InsertOpensGroup | OLinq.Tests/GroupByTests.cs:90 | An item of a fresh key opens a one-member group at any list position, and the grouping stays consistent. |
| Grouping.RemoveLeavesGroup | OLinq.Tests/GroupByTests.cs:104 | An item leaving a group with other members leaves it at its offset; the key stays present and the grouping stays consistent. |
| Grouping.RemoveClosesGroup | OLinq.Tests/GroupByTests.cs:105-108 | The last item of a key closes its group and the key leaves the source. Dropping exactly that group keeps the grouping consistent. |
| Grouping.InsertGroupsConsistent | OLinq.Tests/GroupByTests.cs:90 | The insertion step keeps the grouping consistent. |
| Grouping.InsertGroupsKeys | OLinq.Tests/GroupByTests.cs:90-95 | The insertion step keeps the keys unchanged for a present key. For a fresh key it inserts that key at the chosen list position. |
| Grouping.RemoveGroupsConsistent | OLinq.Tests/GroupByTests.cs:104 | The removal step keeps the grouping consistent, so no group is left empty. |
| Grouping.RemoveGroupsKeys | OLinq.Tests/GroupByTests.cs:99-108 | The removed item's group is dropped exactly when its key leaves the source. The other keys keep their relative order, and otherwise the keys are unchanged. |
| Grouping.RemoveShrinksOneGroup | OLinq.Tests/GroupByTests.cs:104-105 | A removal shrinks only the removed item's group, by one, or drops it when the item was its last. Every other group is unchanged. |
| Grouping.RekeyGroupsConsistent | OLinq.Tests/GroupByTests.cs:74 | The rekey step turns a consistent grouping of the source into a consistent grouping of the rekeyed source. |
| Grouping.RekeyGroupsKeys | OLinq.Tests/GroupByTests.cs:74-77 | Rekeying keeps the other keys in order. It drops the old key when its group empties, and appends the new key at the end when it is fresh. |
| Grouping.LastMember | OLinq.Tests/GroupByTests.cs:104-105 | An item is the only one of its key exactly when its key leaves the source with it. |
| FirstOccurrence.FirstKeysArranged | OLinq.Tests/GroupByTests.cs:83-84 | FirstKeys lists every source key once, in strictly increasing order of first occurrence. |
| FirstOccurrence.ArrangedUnique | OLinq.Tests/GroupByTests.cs:83-84 | There is only one list of the source's keys in first-occurrence order. |
| FirstOccurrence.InsertKeepsFirstOrder | OLinq.Tests/GroupByTests.cs:90-95 | An insertion that does not move an existing key's first occurrence keeps the first-occurrence key list. A fresh key enters that list at its placement. |
| FirstOccurrence.RemoveKeepsFirstOrder | OLinq.Tests/GroupByTests.cs:99-108 | Removing a key's last item drops exactly that key from the first-occurrence list. Removing an item after its key's first occurrence leaves the list unchanged. |
| FirstOccurrence.RemoveGroupsOrder | OLinq.Tests/GroupByTests.cs:99-108 | For groups in first-occurrence order, the removal step keeps them in first-occurrence order under the conditions above. |

## Left out

- The expression-tree and reflection construction of the `Queryable.GroupBy` call (lines 32-47): the key selector is the field read `KeyOf`.
- The `ObservableQuery`, `ObservableView` and `ObservableBuffer` pipeline and the `OperationContext` (lines 32, 49). These classes are not part of this model. The buffer is read as the operator's own group list.
- Change-notification events, subscriptions, the per-item property-changed registry, reentrancy, and error channels: none of them is visible in the tests, and the model updates the state synchronously.
- `Move` and `Replace` collection changes: the tests never raise them.
- Key-selector failures: reading `Value1` cannot fail in the model.
- Item identity: items are values, so one notification object placed at two source positions and the item-to-group reverse index are not modelled.
- The MSTest harness itself (attributes, `Assert`, test initialisation order).
- GroupBy.GroupByOperation.InsertAt: keeps first-occurrence order only when the inserted item does not become an existing key's new first item, because the operator leaves existing groups where they are.
- GroupBy.GroupByOperation.RemoveAt: keeps first-occurrence order only when the removed item was its key's last one or not its key's first one. The operator does not reorder surviving groups; see `GroupByTests.RemovalKeepsPositionsNotFirstOccurrence`.
- GroupBy.GroupByOperation.SetKey: promises no first-occurrence order, because a group opened by a rekey goes at the end of the list, as the test at lines 74-77 expects.

## Findings

| source | as written | input that shows it | evidently intended | confidence | as-written member | corrected member |
|---|---|---|---|---|---|---|
| OLinq.Tests/GroupByTests.cs:104-108 | `RemoveAt(1)`, then three groups with keys Group1, Group3, Group4 are expected | The fixture, then Add ("Group3","Item7") and Add ("Group4","Item8"), then RemoveAt(1). Index 1 is ("Group1","Item2"), whose group keeps two members, so four groups [Group1, Group2, Group3, Group4] remain | Removing the items that make up "Group2" (source index 3, three times) empties that group and leaves [Group1, Group3, Group4] in order | not executed | GroupByTests.OrderOnGroupRemovalAsWritten | GroupByTests.OrderIsPreservedOnGroupRemoval |
