/** BuildTree as the program runs it, and what its result is. */
module MenuBuild {
  import opened Wrappers
  import opened Menu
  import opened MenuProof

  // ----- the ids that a tree lists -----

  ghost function ListedIds(recs: seq<Record>, level: seq<Record>, items: seq<MenuItem>): set<int>
    requires ShowsLevel(recs, level, items)
    decreases items
  {
    if items == [] then {}
    else
      assert ShowsLevel(recs, level[1..], items[1..]);
      {level[0].id} + ListedIds(recs, Level(recs, level[0].id), items[0].children)
      + ListedIds(recs, level[1..], items[1..])
  }

  lemma {:induction false} ListedIdsSnoc(recs: seq<Record>, level: seq<Record>, items: seq<MenuItem>, r: Record,
                                         item: MenuItem)
    requires ShowsLevel(recs, level, items)
    requires item == ItemOf(r, item.children) && ShowsLevel(recs, Level(recs, r.id), item.children)
    ensures ShowsLevel(recs, level + [r], items + [item])
    ensures ListedIds(recs, level + [r], items + [item])
         == ListedIds(recs, level, items) + {r.id} + ListedIds(recs, Level(recs, r.id), item.children)
    decreases items
  {
    hide Level;
    if items == [] {
      assert level + [r] == [r] && items + [item] == [item];
      assert [item][1..] == [] && [r][1..] == [];
    } else {
      var l, t := level[1..], items[1..];
      assert ShowsLevel(recs, l, t);
      ListedIdsSnoc(recs, l, t, r, item);
      assert (level + [r])[1..] == l + [r] && (items + [item])[1..] == t + [item];
      assert ShowsLevel(recs, level + [r], items + [item]);
    }
  }

  lemma NoItems(recs: seq<Record>)
    ensures ShowsLevel(recs, [], []) && ListedIds(recs, [], []) == {}
  {
  }

  lemma {:induction false} ListedHasId(recs: seq<Record>, level: seq<Record>, items: seq<MenuItem>, d: nat, c: Record)
    requires ShowsLevel(recs, level, items) && Listed(recs, level, items, d, c)
    ensures c.id in ListedIds(recs, level, items)
    decreases items
  {
    NothingListed(recs, level, items, d, c);
    hide Level, Listed, Preorder;
    ListedParts(recs, level, items, d, c);
    if c != level[0] {
      if Listed(recs, level[1..], items[1..], d, c) {
        ListedHasId(recs, level[1..], items[1..], d, c);
      } else {
        ListedHasId(recs, Level(recs, level[0].id), items[0].children, d + 1, c);
      }
    }
  }

  lemma {:induction false} IdIsListed(recs: seq<Record>, level: seq<Record>, items: seq<MenuItem>, d: nat, id: int)
    returns (c: Record)
    requires ShowsLevel(recs, level, items) && id in ListedIds(recs, level, items)
    ensures c.id == id && Listed(recs, level, items, d, c)
    decreases items
  {
    hide Level, Listed, Preorder;
    c := level[0];
    ListedParts(recs, level, items, d, c);
    if id != c.id {
      if id in ListedIds(recs, level[1..], items[1..]) {
        c := IdIsListed(recs, level[1..], items[1..], d, id);
      } else {
        c := IdIsListed(recs, Level(recs, c.id), items[0].children, d + 1, id);
      }
      ListedParts(recs, level, items, d, c);
    }
  }

  lemma ListedKnown(recs: seq<Record>, items: seq<MenuItem>, c: Record)
    requires PositiveIds(recs) && DistinctIds(recs) && Shows(recs, 0, items)
    requires Listed(recs, Level(recs, 0), items, 0, c)
    ensures c in recs && ReachesRoot(recs, c.id)
  {
    RootLevel(recs);
    var level := Level(recs, 0);
    hide Preorder, Level, ShowsLevel, Ancestor, DistinctIds, PositiveIds, LevelOf;
    var j :| 0 <= j < |Preorder(recs, level, items, 0)| && Preorder(recs, level, items, 0)[j].1 == c;
    ListedAtDepth(recs, level, items, 0, j);
    assert Ancestor(recs, c.id, Preorder(recs, level, items, 0)[j].0 + 1) == 0;
  }

  /** The count in BuildTree's last check tells whether every chain reaches the root. */
  lemma CountDecides(recs: seq<Record>, items: seq<MenuItem>)
    requires PositiveIds(recs) && DistinctIds(recs) && ParentsKnown(recs) && Shows(recs, 0, items)
    ensures var listed := ListedIds(recs, Level(recs, 0), items);
            |listed| <= |recs| && (|listed| == |recs| <==> Acceptable(recs))
  {
    var level := Level(recs, 0);
    var listed := ListedIds(recs, level, items);
    hide Preorder, Level, ShowsLevel, Ancestor, DistinctIds, ListedIds, Listed;
    forall id | id in listed
      ensures id in Ids(recs)
    {
      var c := IdIsListed(recs, level, items, 0, id);
      ListedKnown(recs, items, c);
    }
    CountIds(recs);
    SubsetCount(listed, Ids(recs));
    if listed == Ids(recs) {
      forall r | r in recs
        ensures ReachesRoot(recs, r.id)
      {
        var c := IdIsListed(recs, level, items, 0, r.id);
        ListedKnown(recs, items, c);
      }
    }
    if Acceptable(recs) {
      forall r | r in recs
        ensures r.id in listed
      {
        var k: nat :| Ancestor(recs, r.id, k) == 0;
        ReachableListed(recs, items, r, k);
        ListedHasId(recs, level, items, 0, r);
      }
      assert Ids(recs) <= listed;
    }
  }

  lemma SubsetCount(a: set<int>, b: set<int>)
    requires a <= b
    ensures |a| <= |b| && (|a| == |b| <==> a == b)
  {
    assert b == a + (b - a);
    assert |b| == |a| + |b - a|;
  }

  // ----- the path down to where build is -----

  /** path leads from a root record down to parent. */
  predicate PathTo(recs: seq<Record>, path: seq<int>, parent: int) {
    if path == [] then parent == 0
    else
      var n := |path| - 1;
      path[n] == parent && HasId(recs, parent) && path[n] !in path[..n]
      && PathTo(recs, path[..n], ParentOf(recs, parent))
  }

  lemma {:induction false} PathFits(recs: seq<Record>, path: seq<int>, parent: int)
    requires DistinctIds(recs) && PathTo(recs, path, parent)
    ensures |path| <= |recs|
  {
    PathIds(recs, path, parent);
    CountIds(recs);
    SubsetCount((set x | x in path), Ids(recs));
  }

  lemma {:induction false} PathIds(recs: seq<Record>, path: seq<int>, parent: int)
    requires PathTo(recs, path, parent)
    ensures (set x | x in path) <= Ids(recs) && |set x | x in path| == |path|
    decreases |path|
  {
    if path != [] {
      var n := |path| - 1;
      PathIds(recs, path[..n], ParentOf(recs, parent));
      assert path == path[..n] + [path[n]];
      assert (set x | x in path) == (set x | x in path[..n]) + {path[n]};
    }
  }

  /** A path never comes back to a record on it. */
  lemma {:induction false} PathExtends(recs: seq<Record>, path: seq<int>, parent: int, r: Record)
    requires PositiveIds(recs) && DistinctIds(recs) && PathTo(recs, path, parent)
    requires r in recs && r.parentId == parent
    ensures PathTo(recs, path + [r.id], r.id)
  {
    ParentOfRecord(recs, r);
    if r.id in path {
      var j :| 0 <= j < |path| && path[j] == r.id;
      PathParents(recs, path, parent, j);
      PathLast(recs, path, parent, j);
      assert false;
    }
    assert (path + [r.id])[..|path|] == path;
  }

  lemma {:induction false} PathParents(recs: seq<Record>, path: seq<int>, parent: int, j: nat)
    requires PathTo(recs, path, parent) && j < |path|
    ensures ParentOf(recs, path[j]) == if j == 0 then 0 else path[j - 1]
    ensures HasId(recs, path[j])
    decreases |path|
  {
    var n := |path| - 1;
    if j < n {
      PathParents(recs, path[..n], ParentOf(recs, parent), j);
    }
  }

  /** The last of the path is not an earlier one, nor the root. */
  lemma PathLast(recs: seq<Record>, path: seq<int>, parent: int, j: nat)
    requires PositiveIds(recs) && PathTo(recs, path, parent) && j < |path|
    ensures parent > 0 && (0 < j ==> path[j - 1] != parent)
  {
    var n := |path| - 1;
    assert 0 < j ==> path[j - 1] == path[..n][j - 1];
  }

  // ----- the builder -----

  class TreeBuilder {
    const recs: seq<Record>
    var children: map<int, seq<Record>>
    var visited: set<int>

    constructor (recs: seq<Record>)
      ensures this.recs == recs && children == map[] && visited == {}
    {
      this.recs := recs;
      children := map[];
      visited := {};
    }

    function Kids(parent: int): seq<Record>
      reads this
    {
      if parent in children then children[parent] else []
    }

    method Append(rec: Record, ghost before: seq<Record>)
      requires forall p :: Kids(p) == ChildrenOf(before, p)
      modifies this`children
      ensures forall p :: Kids(p) == ChildrenOf(before + [rec], p)
    {
      children := children[rec.parentId := Kids(rec.parentId) + [rec]];
      assert (before + [rec])[..|before|] == before;
      assert forall p :: Kids(p) == if p == rec.parentId then old(Kids(p)) + [rec] else old(Kids(p));
    }

    /** Each level is as loaded, or already sorted in place. */
    ghost predicate Loaded()
      reads this
    {
      && PositiveIds(recs) && DistinctIds(recs)
      && forall p :: Kids(p) == ChildrenOf(recs, p) || Kids(p) == Level(recs, p)
    }

    lemma SortKids(parent: int)
      requires Loaded()
      ensures Sorted(Kids(parent)) == Level(recs, parent)
    {
      LevelFacts(recs, parent);
    }

    /** The recursive build, with the depth guard that never fires. */
    method Build(parent: int, depth: nat, ghost path: seq<int>) returns (r: Result<seq<MenuItem>, Error>)
      requires Loaded() && PathTo(recs, path, parent) && depth == |path|
      modifies this
      ensures Loaded()
      ensures r.Ok? && Shows(recs, parent, r.value)
      ensures visited == old(visited) + ListedIds(recs, Level(recs, parent), r.value)
      decreases |recs| + 1 - depth
    {
      hide Level, ListedIds, PathTo, DistinctIds, PositiveIds, ShowsLevel, Sorted;
      PathFits(recs, path, parent);
      NoItems(recs);
      if depth > |recs| {
        return Err(CycleUnder(parent));
      }
      SortKids(parent);
      var level := Sorted(Kids(parent));
      children := children[parent := level];
      assert forall p :: Kids(p) == if p == parent then level else old(Kids(p));
      assert level[..0] == [];
      var out: seq<MenuItem> := [];
      for i := 0 to |level|
        invariant Loaded() && |out| == i && ShowsLevel(recs, level[..i], out)
        invariant visited == old(visited) + ListedIds(recs, level[..i], out)
      {
        var rec := level[i];
        InLevel(recs, parent, rec);
        assert rec in level;
        PathExtends(recs, path, parent, rec);
        visited := visited + {rec.id};
        var kids := Build(rec.id, depth + 1, path + [rec.id]);
        if kids.Err? {
          return kids;
        }
        var item := ItemOf(rec, kids.value);
        ListedIdsSnoc(recs, level[..i], out, rec, item);
        assert level[..i + 1] == level[..i] + [rec];
        out := out + [item];
      }
      assert level[..|level|] == level;
      return Ok(out);
    }
  }

  /** What is wrong with records that BuildTree rejects. */
  ghost predicate Explains(recs: seq<Record>, e: Error) {
    match e
    case InvalidId(id) => id <= 0 && exists r | r in recs :: r.id == id
    case DuplicateId(id) => exists i, j | 0 <= i < j < |recs| :: recs[i].id == id == recs[j].id
    case UnknownParent(id, parent) =>
      PositiveIds(recs) && DistinctIds(recs) && parent != 0 && !HasId(recs, parent)
      && exists r | r in recs :: r.id == id && r.parentId == parent
    case CycleUnder(_) => false
    case CycleFound(reachable, total) =>
      PositiveIds(recs) && DistinctIds(recs) && ParentsKnown(recs)
      && reachable < total == |recs| && exists r | r in recs :: !ReachesRoot(recs, r.id)
  }

  lemma {:induction false} DuplicateFound(recs: seq<Record>, i: nat, j: nat)
    requires i < j < |recs| && recs[i].id == recs[j].id
    ensures !DistinctIds(recs)
  {
    if i > 0 {
      DuplicateFound(recs[1..], i - 1, j - 1);
    } else {
      assert recs[j] in recs[1..];
    }
  }

  /** The first loop of BuildTree: index the records and group them by parent. */
  method Load(recs: seq<Record>) returns (b: TreeBuilder, byID: map<int, Record>, e: Option<Error>)
    ensures fresh(b) && b.recs == recs && b.visited == {}
    ensures if e.None? then PositiveIds(recs) && DistinctIds(recs) && byID.Keys == Ids(recs)
                            && forall p :: b.Kids(p) == ChildrenOf(recs, p)
            else Explains(recs, e.value) && !Acceptable(recs)
  {
    hide Level, ReachesRoot, ParentsKnown;
    byID := map[];
    b := new TreeBuilder(recs);
    for i := 0 to |recs|
      invariant PositiveIds(recs[..i]) && DistinctIds(recs[..i]) && byID.Keys == Ids(recs[..i])
      invariant fresh(b) && b.recs == recs && b.visited == {}
      invariant forall p :: b.Kids(p) == ChildrenOf(recs[..i], p)
    {
      var rec := recs[i];
      assert recs[..i + 1][..i] == recs[..i] && recs[..i + 1] == recs[..i] + [rec];
      if rec.id <= 0 {
        assert rec in recs;
        return b, byID, Some(InvalidId(rec.id));
      }
      if rec.id in byID {
        var x :| x in recs[..i] && x.id == rec.id;
        ghost var j :| 0 <= j < i && recs[..i][j] == x;
        DuplicateFound(recs, j, i);
        return b, byID, Some(DuplicateId(rec.id));
      }
      SnocDistinct(recs[..i], rec);
      byID := byID[rec.id := rec];
      b.Append(rec, recs[..i]);
    }
    assert recs[..|recs|] == recs;
    e := None;
  }

  method BuildTree(recs: seq<Record>) returns (r: Result<seq<MenuItem>, Error>)
    ensures r.Ok? <==> Acceptable(recs)
    ensures r.Ok? ==> Shows(recs, 0, r.value)
    ensures r.Err? ==> Explains(recs, r.error)
  {
    hide Level, ReachesRoot, PositiveIds, DistinctIds, ChildrenOf;
    var b, byID, e := Load(recs);
    if e.Some? {
      return Err(e.value);
    }
    for i := 0 to |recs|
      invariant forall j | 0 <= j < i :: recs[j].parentId == 0 || HasId(recs, recs[j].parentId)
    {
      var rec := recs[i];
      if rec.parentId != 0 && rec.parentId !in byID {
        assert rec in recs;
        return Err(UnknownParent(rec.id, rec.parentId));
      }
    }
    r := b.Build(0, 0, []);
    CountDecides(recs, r.value);
    if |b.visited| != |recs| {
      return Err(CycleFound(|b.visited|, |recs|));
    }
  }

  // ----- what an accepted tree is -----

  lemma {:induction false} FlattenFollowsPreorder(recs: seq<Record>, level: seq<Record>, items: seq<MenuItem>, d: nat)
    requires ShowsLevel(recs, level, items)
    ensures |FlattenAt(items, d)| == |Preorder(recs, level, items, d)|
    ensures forall i | 0 <= i < |FlattenAt(items, d)| ::
      var f, e := FlattenAt(items, d)[i], Preorder(recs, level, items, d)[i];
      f.depth == e.0 && f.item == ItemOf(e.1, f.item.children)
    decreases items
  {
    hide Level;
    if items != [] {
      Unfold(recs, level, items, d);
      FlattenFollowsPreorder(recs, Level(recs, level[0].id), items[0].children, d + 1);
      FlattenFollowsPreorder(recs, level[1..], items[1..], d);
    }
  }

  lemma {:induction false} PreorderIds(recs: seq<Record>, level: seq<Record>, items: seq<MenuItem>, d: nat)
    requires ShowsLevel(recs, level, items)
    ensures forall e | e in Preorder(recs, level, items, d) :: e.1.id in ListedIds(recs, level, items)
    decreases items
  {
    hide Level;
    if items != [] {
      Unfold(recs, level, items, d);
      PreorderIds(recs, Level(recs, level[0].id), items[0].children, d + 1);
      PreorderIds(recs, level[1..], items[1..], d);
    }
  }

  /** Flattening the tree of acceptable records lists every record exactly once, at the depth of
      its chain of parents, with its own fields. */
  lemma FlattenListsEachOnce(recs: seq<Record>, items: seq<MenuItem>)
    requires Acceptable(recs) && Shows(recs, 0, items)
    ensures var flat, pre := FlattenAt(items, 0), Preorder(recs, Level(recs, 0), items, 0);
      && |flat| == |pre|
      && (forall i | 0 <= i < |flat| :: flat[i].item == ItemOf(pre[i].1, flat[i].item.children))
      && (forall i | 0 <= i < |flat| :: flat[i].depth == pre[i].0 && AtDepth(recs, pre[i].1.id, flat[i].depth))
      && (forall i | 0 <= i < |pre| :: pre[i].1 in recs)
      && (forall i, j | 0 <= i < j < |pre| :: pre[i].1 != pre[j].1)
      && (forall r | r in recs :: exists i | 0 <= i < |pre| :: pre[i].1 == r)
  {
    var level := Level(recs, 0);
    hide Level, Preorder, ShowsLevel, FlattenAt, AtDepth, LevelOf;
    FlattenFollowsPreorder(recs, level, items, 0);
    RootLevel(recs);
    var pre := Preorder(recs, level, items, 0);
    forall i | 0 <= i < |pre|
      ensures pre[i].1 in recs && AtDepth(recs, pre[i].1.id, pre[i].0)
    {
      ListedAtDepth(recs, level, items, 0, i);
    }
    forall i, j | 0 <= i < j < |pre|
      ensures pre[i].1 != pre[j].1
    {
      ListedOnce(recs, level, items, 0, i, j);
    }
    forall r | r in recs
      ensures exists i | 0 <= i < |pre| :: pre[i].1 == r
    {
      var k: nat :| Ancestor(recs, r.id, k) == 0;
      ReachableListed(recs, items, r, k);
    }
  }

  // ----- the order of the input does not matter -----

  lemma {:induction false} ChildrenCount(recs: seq<Record>, parent: int, r: Record)
    ensures multiset(ChildrenOf(recs, parent))[r] == if r.parentId == parent then multiset(recs)[r] else 0
  {
    if recs != [] {
      var n := |recs| - 1;
      ChildrenCount(recs[..n], parent, r);
      assert recs == recs[..n] + [recs[n]];
    }
  }

  lemma {:induction false} DistinctCounts(recs: seq<Record>)
    requires DistinctIds(recs)
    ensures forall r | r in recs :: multiset(recs)[r] == 1
  {
    if recs != [] {
      DistinctCounts(recs[1..]);
      assert recs == [recs[0]] + recs[1..];
    }
  }

  lemma {:induction false} DistinctFromCounts(recs: seq<Record>)
    requires forall r | r in recs :: multiset(recs)[r] == 1
    requires forall a, b | a in recs && b in recs && a.id == b.id :: a == b
    ensures DistinctIds(recs)
  {
    if recs != [] {
      assert recs == [recs[0]] + recs[1..];
      assert forall x | x in recs[1..] :: x in recs && x in multiset(recs[1..]);
      DistinctFromCounts(recs[1..]);
    }
  }

  lemma SameParents(recs: seq<Record>, recs': seq<Record>, id: int)
    requires DistinctIds(recs) && DistinctIds(recs') && multiset(recs) == multiset(recs')
    ensures ParentOf(recs, id) == ParentOf(recs', id)
  {
    assert forall r :: r in recs <==> r in multiset(recs);
    assert forall r :: r in recs' <==> r in multiset(recs');
    if r :| r in recs && r.id == id {
      ParentOfRecord(recs, r);
      ParentOfRecord(recs', r);
    } else {
      NoParentOf(recs, id);
      NoParentOf(recs', id);
    }
  }

  lemma {:induction false} SameAncestors(recs: seq<Record>, recs': seq<Record>, id: int, k: nat)
    requires DistinctIds(recs) && DistinctIds(recs') && multiset(recs) == multiset(recs')
    ensures Ancestor(recs, id, k) == Ancestor(recs', id, k)
    decreases k
  {
    if k > 0 {
      SameParents(recs, recs', id);
      SameAncestors(recs, recs', ParentOf(recs, id), k - 1);
    }
  }

  lemma SameLevel(recs: seq<Record>, recs': seq<Record>, parent: int)
    requires DistinctIds(recs) && DistinctIds(recs') && multiset(recs) == multiset(recs')
    ensures Level(recs, parent) == Level(recs', parent)
  {
    forall r: Record
      ensures multiset(ChildrenOf(recs, parent))[r] == multiset(ChildrenOf(recs', parent))[r]
    {
      ChildrenCount(recs, parent, r);
      ChildrenCount(recs', parent, r);
    }
    assert multiset(ChildrenOf(recs, parent)) == multiset(ChildrenOf(recs', parent));
    LevelFacts(recs, parent);
    LevelFacts(recs', parent);
    SortedUnique(Level(recs, parent), Level(recs', parent));
  }

  lemma {:induction false} SameTree(recs: seq<Record>, recs': seq<Record>, level: seq<Record>, items: seq<MenuItem>)
    requires DistinctIds(recs) && DistinctIds(recs') && multiset(recs) == multiset(recs')
    requires ShowsLevel(recs, level, items)
    ensures ShowsLevel(recs', level, items)
    decreases items
  {
    forall i | 0 <= i < |items|
      ensures ShowsLevel(recs', Level(recs', level[i].id), items[i].children)
    {
      SameLevel(recs, recs', level[i].id);
      SameTree(recs, recs', Level(recs, level[i].id), items[i].children);
    }
  }

  lemma SameAcceptable(recs: seq<Record>, recs': seq<Record>)
    requires multiset(recs) == multiset(recs') && Acceptable(recs)
    ensures Acceptable(recs')
  {
    assert forall r :: r in recs <==> r in multiset(recs);
    assert forall r :: r in recs' <==> r in multiset(recs');
    DistinctCounts(recs);
    forall a, b | a in recs' && b in recs' && a.id == b.id
      ensures a == b
    {
      SameIdSameRecord(recs, a, b);
    }
    DistinctFromCounts(recs');
    forall r | r in recs'
      ensures ReachesRoot(recs', r.id)
    {
      var k: nat :| Ancestor(recs, r.id, k) == 0;
      SameAncestors(recs, recs', r.id, k);
    }
    forall r | r in recs'
      ensures r.parentId == 0 || HasId(recs', r.parentId)
    {
      if r.parentId != 0 {
        var p :| p in recs && p.id == r.parentId;
        assert p in recs';
      }
    }
  }

  /** Records in another order are accepted alike and give the same tree. */
  lemma OrderDoesNotMatter(recs: seq<Record>, recs': seq<Record>, items: seq<MenuItem>, items': seq<MenuItem>)
    requires multiset(recs) == multiset(recs')
    ensures Acceptable(recs) <==> Acceptable(recs')
    ensures Acceptable(recs) && Shows(recs, 0, items) && Shows(recs', 0, items') ==> items == items'
  {
    if Acceptable(recs) {
      SameAcceptable(recs, recs');
    }
    if Acceptable(recs') {
      SameAcceptable(recs', recs);
    }
    if Acceptable(recs) && Shows(recs, 0, items) && Shows(recs', 0, items') {
      SameLevel(recs, recs', 0);
      SameTree(recs, recs', Level(recs, 0), items);
      ShowsUnique(recs', Level(recs', 0), items, items');
    }
  }
}
