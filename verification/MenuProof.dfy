/** Which record lists have a menu tree, and what the tree lists. */
module MenuProof {
  import opened Menu

  // ----- ids and parents -----

  function Ids(recs: seq<Record>): set<int> {
    set r | r in recs :: r.id
  }

  lemma {:induction false} CountIds(recs: seq<Record>)
    requires DistinctIds(recs)
    ensures |Ids(recs)| == |recs|
  {
    if recs != [] {
      CountIds(recs[1..]);
      assert Ids(recs) == {recs[0].id} + Ids(recs[1..]);
    }
  }

  lemma {:induction false} ParentOfRecord(recs: seq<Record>, r: Record)
    requires DistinctIds(recs) && r in recs
    ensures ParentOf(recs, r.id) == r.parentId
  {
    if recs[0] != r {
      ParentOfRecord(recs[1..], r);
    }
  }

  lemma {:induction false} NoParentOf(recs: seq<Record>, id: int)
    requires !HasId(recs, id)
    ensures ParentOf(recs, id) == 0
  {
    if recs != [] {
      assert recs[0] in recs && forall r | r in recs[1..] :: r in recs;
      NoParentOf(recs[1..], id);
    }
  }

  lemma {:induction false} SameIdSameRecord(recs: seq<Record>, a: Record, b: Record)
    requires DistinctIds(recs) && a in recs && b in recs && a.id == b.id
    ensures a == b
  {
    if a != recs[0] && b != recs[0] {
      SameIdSameRecord(recs[1..], a, b);
    }
  }

  lemma {:induction false} InChildren(recs: seq<Record>, parent: int, r: Record)
    ensures r in ChildrenOf(recs, parent) <==> r in recs && r.parentId == parent
  {
    if recs != [] {
      var n := |recs| - 1;
      InChildren(recs[..n], parent, r);
      assert recs == recs[..n] + [recs[n]];
    }
  }

  lemma InLevel(recs: seq<Record>, parent: int, r: Record)
    ensures r in Level(recs, parent) <==> r in recs && r.parentId == parent
  {
    InChildren(recs, parent, r);
    assert r in Level(recs, parent) <==> r in multiset(ChildrenOf(recs, parent));
  }

  lemma {:induction false} PrefixDistinct(s: seq<Record>)
    requires DistinctIds(s) && s != []
    ensures DistinctIds(s[..|s| - 1])
    ensures forall x | x in s[..|s| - 1] :: x.id != s[|s| - 1].id
  {
    if |s| > 1 {
      PrefixDistinct(s[1..]);
      assert s[1..][..|s| - 2] == s[..|s| - 1][1..];
      assert s[|s| - 1] in s[1..];
    }
  }

  lemma {:induction false} SnocDistinct(s: seq<Record>, r: Record)
    requires DistinctIds(s) && forall x | x in s :: x.id != r.id
    ensures DistinctIds(s + [r])
  {
    if s != [] {
      SnocDistinct(s[1..], r);
      assert (s + [r])[1..] == s[1..] + [r];
    }
  }

  lemma {:induction false} ChildrenDistinct(recs: seq<Record>, parent: int)
    requires DistinctIds(recs)
    ensures DistinctIds(ChildrenOf(recs, parent))
  {
    if recs != [] {
      var n := |recs| - 1;
      PrefixDistinct(recs);
      ChildrenDistinct(recs[..n], parent);
      if recs[n].parentId == parent {
        forall x | x in ChildrenOf(recs[..n], parent)
          ensures x.id != recs[n].id
        {
          InChildren(recs[..n], parent, x);
        }
        SnocDistinct(ChildrenOf(recs[..n], parent), recs[n]);
      }
    }
  }

  lemma {:induction false} SortedDistinct(s: seq<Record>)
    requires IsSorted(s)
    requires forall a, b | a in s && b in s && a.id == b.id :: a == b
    ensures DistinctIds(s)
  {
    if s != [] {
      assert forall x | x in s[1..] :: x in s;
      SortedDistinct(s[1..]);
    }
  }

  lemma LevelFacts(recs: seq<Record>, parent: int)
    requires DistinctIds(recs)
    ensures IsSorted(Level(recs, parent)) && DistinctIds(Level(recs, parent))
    ensures Sorted(Level(recs, parent)) == Level(recs, parent)
  {
    var level := Level(recs, parent);
    ChildrenDistinct(recs, parent);
    SortedIsSorted(ChildrenOf(recs, parent));
    forall a, b | a in level && b in level && a.id == b.id
      ensures a == b
    {
      InLevel(recs, parent, a);
      InLevel(recs, parent, b);
      SameIdSameRecord(recs, a, b);
    }
    SortedDistinct(level);
    SortedIsSorted(level);
    SortedUnique(Sorted(level), level);
  }

  // ----- ancestors -----

  lemma {:induction false} AncestorStep(recs: seq<Record>, id: int, k: nat)
    ensures Ancestor(recs, id, k + 1) == ParentOf(recs, Ancestor(recs, id, k))
    decreases k
  {
    if k > 0 {
      AncestorStep(recs, ParentOf(recs, id), k - 1);
    }
  }

  lemma {:induction false} AncestorAdd(recs: seq<Record>, id: int, j: nat, k: nat)
    ensures Ancestor(recs, id, j + k) == Ancestor(recs, Ancestor(recs, id, j), k)
    decreases j
  {
    if j > 0 {
      AncestorAdd(recs, ParentOf(recs, id), j - 1, k);
    }
  }

  /** The root has no parent, so a chain stays there. */
  lemma {:induction false} RootStays(recs: seq<Record>, k: nat)
    requires PositiveIds(recs)
    ensures Ancestor(recs, 0, k) == 0
    decreases k
  {
    NoParentOf(recs, 0);
    if k > 0 {
      RootStays(recs, k - 1);
    }
  }

  /** k steps below the level that hangs from the root. */
  predicate AtDepth(recs: seq<Record>, id: int, k: nat) {
    Ancestor(recs, id, k) != 0 && Ancestor(recs, id, k + 1) == 0
  }

  lemma DepthUnique(recs: seq<Record>, id: int, j: nat, k: nat)
    requires PositiveIds(recs) && AtDepth(recs, id, j) && AtDepth(recs, id, k)
    ensures j == k
  {
    if j < k {
      AncestorAdd(recs, id, j + 1, k - (j + 1));
      RootStays(recs, k - (j + 1));
    } else if k < j {
      AncestorAdd(recs, id, k + 1, j - (k + 1));
      RootStays(recs, j - (k + 1));
    }
  }

  // ----- what the tree lists -----

  /** x is listed at depth k under some record of the level at depth d. */
  predicate ListedUnder(recs: seq<Record>, level: seq<Record>, d: nat, k: nat, x: Record) {
    x in recs && k >= d && exists a | a in level :: Ancestor(recs, x.id, k - d) == a.id
  }

  predicate LevelOf(recs: seq<Record>, level: seq<Record>, d: nat) {
    DistinctIds(level) && forall a | a in level :: a in recs && AtDepth(recs, a.id, d)
  }

  lemma ChildLevel(recs: seq<Record>, level: seq<Record>, d: nat, a: Record)
    requires PositiveIds(recs) && DistinctIds(recs) && LevelOf(recs, level, d) && a in level
    ensures LevelOf(recs, Level(recs, a.id), d + 1)
  {
    LevelFacts(recs, a.id);
    forall c | c in Level(recs, a.id)
      ensures c in recs && AtDepth(recs, c.id, d + 1)
    {
      InLevel(recs, a.id, c);
      ParentOfRecord(recs, c);
    }
  }

  lemma RootLevel(recs: seq<Record>)
    requires PositiveIds(recs) && DistinctIds(recs)
    ensures LevelOf(recs, Level(recs, 0), 0)
  {
    LevelFacts(recs, 0);
    forall c | c in Level(recs, 0)
      ensures c in recs && AtDepth(recs, c.id, 0)
    {
      InLevel(recs, 0, c);
      ParentOfRecord(recs, c);
    }
  }

  /** What is listed below the head of a level. */
  ghost function Below(recs: seq<Record>, level: seq<Record>, items: seq<MenuItem>, d: nat): seq<(nat, Record)>
    requires ShowsLevel(recs, level, items) && items != []
  {
    Preorder(recs, Level(recs, level[0].id), items[0].children, d + 1)
  }

  ghost function After(recs: seq<Record>, level: seq<Record>, items: seq<MenuItem>, d: nat): seq<(nat, Record)>
    requires ShowsLevel(recs, level, items) && items != []
  {
    assert ShowsLevel(recs, level[1..], items[1..]);
    Preorder(recs, level[1..], items[1..], d)
  }

  lemma Unfold(recs: seq<Record>, level: seq<Record>, items: seq<MenuItem>, d: nat)
    requires ShowsLevel(recs, level, items) && items != []
    ensures |level| == |items|
    ensures ShowsLevel(recs, level[1..], items[1..])
    ensures ShowsLevel(recs, Level(recs, level[0].id), items[0].children)
    ensures Below(recs, level, items, d) == Preorder(recs, Level(recs, level[0].id), items[0].children, d + 1)
    ensures After(recs, level, items, d) == Preorder(recs, level[1..], items[1..], d)
    ensures Preorder(recs, level, items, d)
         == [(d, level[0])] + (Below(recs, level, items, d) + After(recs, level, items, d))
  {
    hide Level;
  }

  lemma Nothing(recs: seq<Record>, level: seq<Record>, items: seq<MenuItem>, d: nat)
    requires ShowsLevel(recs, level, items) && |Preorder(recs, level, items, d)| > 0
    ensures items != []
  {
  }

  lemma {:induction false} ListedAtDepth(recs: seq<Record>, level: seq<Record>, items: seq<MenuItem>, d: nat, j: nat)
    requires PositiveIds(recs) && DistinctIds(recs) && LevelOf(recs, level, d) && ShowsLevel(recs, level, items)
    requires j < |Preorder(recs, level, items, d)|
    ensures var (k, x) := Preorder(recs, level, items, d)[j];
            ListedUnder(recs, level, d, k, x) && AtDepth(recs, x.id, k)
    decreases items
  {
    hide Preorder, Level, ShowsLevel, Below, After, Ancestor, PositiveIds, DistinctIds, LevelOf, AtDepth, ListedUnder;
    Nothing(recs, level, items, d);
    Unfold(recs, level, items, d);
    var n := |Below(recs, level, items, d)|;
    LevelHead(recs, level, d);
    if j == 0 {
      HeadListed(recs, level, d);
    } else if j <= n {
      ChildLevel(recs, level, d, level[0]);
      ListedAtDepth(recs, Level(recs, level[0].id), items[0].children, d + 1, j - 1);
      var e := Below(recs, level, items, d)[j - 1];
      LiftUnder(recs, level, d, e.0, e.1);
    } else {
      ListedAtDepth(recs, level[1..], items[1..], d, j - 1 - n);
      var e := After(recs, level, items, d)[j - 1 - n];
      WidenUnder(recs, level, d, e.0, e.1);
    }
  }

  lemma LevelHead(recs: seq<Record>, level: seq<Record>, d: nat)
    requires LevelOf(recs, level, d) && level != []
    ensures level[0] in level && LevelOf(recs, level[1..], d) && AtDepth(recs, level[0].id, d)
  {
  }

  lemma HeadListed(recs: seq<Record>, level: seq<Record>, d: nat)
    requires LevelOf(recs, level, d) && level != []
    ensures ListedUnder(recs, level, d, d, level[0])
  {
    assert Ancestor(recs, level[0].id, 0) == level[0].id;
  }

  /** Listed under the children of the head means listed strictly below the head. */
  lemma LiftUnder(recs: seq<Record>, level: seq<Record>, d: nat, k: nat, x: Record)
    requires DistinctIds(recs) && level != []
    requires ListedUnder(recs, Level(recs, level[0].id), d + 1, k, x)
    ensures k > d && Ancestor(recs, x.id, k - d) == level[0].id
    ensures ListedUnder(recs, level, d, k, x)
  {
    hide Level;
    var a := level[0];
    var c :| c in Level(recs, a.id) && Ancestor(recs, x.id, k - (d + 1)) == c.id;
    InLevel(recs, a.id, c);
    ParentOfRecord(recs, c);
    AncestorStep(recs, x.id, k - (d + 1));
  }

  lemma WidenUnder(recs: seq<Record>, level: seq<Record>, d: nat, k: nat, x: Record)
    requires level != [] && ListedUnder(recs, level[1..], d, k, x)
    ensures ListedUnder(recs, level, d, k, x)
  {
    assert forall a | a in level[1..] :: a in level;
  }

  /** The head and what is below it are apart from what comes after. */
  lemma Apart(recs: seq<Record>, level: seq<Record>, d: nat, k: nat, x: Record, l: nat, y: Record)
    requires PositiveIds(recs) && LevelOf(recs, level, d) && level != []
    requires k >= d && AtDepth(recs, x.id, k) && Ancestor(recs, x.id, k - d) == level[0].id
    requires AtDepth(recs, y.id, l) && ListedUnder(recs, level[1..], d, l, y)
    ensures x.id != y.id
  {
    if x.id == y.id {
      DepthUnique(recs, x.id, k, l);
    }
  }

  /** No record is listed twice. */
  lemma {:induction false} ListedOnce(recs: seq<Record>, level: seq<Record>, items: seq<MenuItem>, d: nat, i: nat,
                                      j: nat)
    requires PositiveIds(recs) && DistinctIds(recs) && LevelOf(recs, level, d) && ShowsLevel(recs, level, items)
    requires i < j < |Preorder(recs, level, items, d)|
    ensures Preorder(recs, level, items, d)[i].1.id != Preorder(recs, level, items, d)[j].1.id
    decreases items
  {
    hide Preorder, Level, ShowsLevel, Below, After, Ancestor, PositiveIds, DistinctIds, LevelOf, AtDepth, ListedUnder;
    Nothing(recs, level, items, d);
    Unfold(recs, level, items, d);
    var below, after := Below(recs, level, items, d), After(recs, level, items, d);
    LevelHead(recs, level, d);
    ChildLevel(recs, level, d, level[0]);
    if 0 < i && j <= |below| {
      ListedOnce(recs, Level(recs, level[0].id), items[0].children, d + 1, i - 1, j - 1);
    } else if i > |below| {
      ListedOnce(recs, level[1..], items[1..], d, i - 1 - |below|, j - 1 - |below|);
    } else if j <= |below| {
      ListedAtDepth(recs, Level(recs, level[0].id), items[0].children, d + 1, j - 1);
      LiftUnder(recs, level, d, below[j - 1].0, below[j - 1].1);
      if level[0].id == below[j - 1].1.id {
        DepthUnique(recs, level[0].id, d, below[j - 1].0);
      }
    } else {
      var y := after[j - 1 - |below|];
      ListedAtDepth(recs, level[1..], items[1..], d, j - 1 - |below|);
      if i == 0 {
        AncestorZero(recs, level[0].id);
        Apart(recs, level, d, d, level[0], y.0, y.1);
      } else {
        var x := below[i - 1];
        ListedAtDepth(recs, Level(recs, level[0].id), items[0].children, d + 1, i - 1);
        LiftUnder(recs, level, d, x.0, x.1);
        Apart(recs, level, d, x.0, x.1, y.0, y.1);
      }
    }
  }

  lemma AncestorZero(recs: seq<Record>, id: int)
    ensures Ancestor(recs, id, 0) == id
  {
  }

  ghost predicate Listed(recs: seq<Record>, level: seq<Record>, items: seq<MenuItem>, d: nat, c: Record)
    requires ShowsLevel(recs, level, items)
  {
    exists j | 0 <= j < |Preorder(recs, level, items, d)| :: Preorder(recs, level, items, d)[j].1 == c
  }

  lemma ListedParts(recs: seq<Record>, level: seq<Record>, items: seq<MenuItem>, d: nat, c: Record)
    requires ShowsLevel(recs, level, items) && items != []
    ensures |level| == |items| && ShowsLevel(recs, level[1..], items[1..])
    ensures ShowsLevel(recs, Level(recs, level[0].id), items[0].children)
    ensures Listed(recs, level, items, d, c)
       <==> c == level[0] || Listed(recs, Level(recs, level[0].id), items[0].children, d + 1, c)
            || Listed(recs, level[1..], items[1..], d, c)
  {
    hide Preorder, Level, ShowsLevel, Below, After;
    Unfold(recs, level, items, d);
    var pre := Preorder(recs, level, items, d);
    var below, after := Below(recs, level, items, d), After(recs, level, items, d);
    assert pre[0].1 == level[0];
    assert forall j | 0 <= j < |below| :: pre[j + 1] == below[j];
    assert forall j | 0 <= j < |after| :: pre[j + 1 + |below|] == after[j];
    if Listed(recs, level, items, d, c) {
      var j :| 0 <= j < |pre| && pre[j].1 == c;
      if 0 < j <= |below| {
        assert below[j - 1].1 == c;
      } else if j > |below| {
        assert after[j - 1 - |below|].1 == c;
      }
    }
  }

  lemma {:induction false} LevelListed(recs: seq<Record>, level: seq<Record>, items: seq<MenuItem>, d: nat, c: Record)
    requires ShowsLevel(recs, level, items) && c in level
    ensures Listed(recs, level, items, d, c)
    decreases items
  {
    hide Preorder, Level, Listed;
    ListedParts(recs, level, items, d, c);
    if c != level[0] {
      LevelListed(recs, level[1..], items[1..], d, c);
    }
  }

  /** The children of what is listed are listed. */
  lemma {:induction false} ChildrenListed(recs: seq<Record>, level: seq<Record>, items: seq<MenuItem>, d: nat,
                                          p: Record, c: Record)
    requires ShowsLevel(recs, level, items) && Listed(recs, level, items, d, p)
    requires c in recs && c.parentId == p.id
    ensures Listed(recs, level, items, d, c)
    decreases items
  {
    NothingListed(recs, level, items, d, p);
    hide Preorder, Level, Listed, ShowsLevel;
    ListedParts(recs, level, items, d, p);
    ListedParts(recs, level, items, d, c);
    if p == level[0] {
      InLevel(recs, p.id, c);
      LevelListed(recs, Level(recs, p.id), items[0].children, d + 1, c);
    } else if Listed(recs, Level(recs, level[0].id), items[0].children, d + 1, p) {
      ChildrenListed(recs, Level(recs, level[0].id), items[0].children, d + 1, p, c);
    } else {
      ChildrenListed(recs, level[1..], items[1..], d, p, c);
    }
  }

  lemma NothingListed(recs: seq<Record>, level: seq<Record>, items: seq<MenuItem>, d: nat, c: Record)
    requires ShowsLevel(recs, level, items) && Listed(recs, level, items, d, c)
    ensures items != []
  {
  }

  /** A record whose chain reaches the root is listed. */
  lemma {:induction false} ReachableListed(recs: seq<Record>, items: seq<MenuItem>, r: Record, k: nat)
    requires PositiveIds(recs) && DistinctIds(recs) && ParentsKnown(recs) && Shows(recs, 0, items)
    requires r in recs && Ancestor(recs, r.id, k) == 0
    ensures Listed(recs, Level(recs, 0), items, 0, r)
    decreases k
  {
    hide Level, Listed, ShowsLevel;
    ParentOfRecord(recs, r);
    if r.parentId == 0 {
      InLevel(recs, 0, r);
      LevelListed(recs, Level(recs, 0), items, 0, r);
    } else {
      var p :| p in recs && p.id == r.parentId;
      ReachableListed(recs, items, p, k - 1);
      ChildrenListed(recs, Level(recs, 0), items, 0, p, r);
    }
  }
}
