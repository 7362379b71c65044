/** What the menu builder accepts, builds and lists, in terms of the records' own fields. */
module MenuListing {
  import opened Menu
  import opened MenuProof
  import opened MenuBuild

  // ----- which records are accepted -----

  /** The records of the chain, each the parent of the one before, end below the root. */
  predicate LeadsUp(recs: seq<Record>, chain: seq<nat>) {
    chain != [] && chain[0] < |recs|
    && if |chain| == 1 then recs[chain[0]].parentId == 0
       else chain[1] < |recs| && recs[chain[0]].parentId == recs[chain[1]].id && LeadsUp(recs, chain[1..])
  }

  ghost predicate ComesFromRoot(recs: seq<Record>, i: nat) {
    exists chain :: LeadsUp(recs, chain) && chain[0] == i
  }

  ghost predicate HasParent(recs: seq<Record>, i: nat)
    requires i < |recs|
  {
    recs[i].parentId == 0 || exists j | 0 <= j < |recs| :: recs[j].id == recs[i].parentId
  }

  /** Ids are positive and differ, parents exist, and every record comes from the root. */
  ghost predicate Proper(recs: seq<Record>) {
    && (forall i | 0 <= i < |recs| :: recs[i].id > 0)
    && (forall i, j | 0 <= i < j < |recs| :: recs[i].id != recs[j].id)
    && (forall i | 0 <= i < |recs| :: HasParent(recs, i))
    && (forall i | 0 <= i < |recs| :: ComesFromRoot(recs, i))
  }

  lemma {:induction false} DistinctIff(recs: seq<Record>)
    ensures DistinctIds(recs) <==> forall i, j | 0 <= i < j < |recs| :: recs[i].id != recs[j].id
  {
    if recs != [] {
      DistinctIff(recs[1..]);
      assert forall i | 0 < i < |recs| :: recs[i] == recs[1..][i - 1] && recs[i] in recs[1..];
      if forall i, j | 0 <= i < j < |recs| :: recs[i].id != recs[j].id {
        forall i, j | 0 <= i < j < |recs[1..]|
          ensures recs[1..][i].id != recs[1..][j].id
        {
          assert recs[i + 1].id != recs[j + 1].id;
        }
        forall x | x in recs[1..]
          ensures x.id != recs[0].id
        {
          var k :| 0 <= k < |recs[1..]| && recs[1..][k] == x;
          assert recs[0].id != recs[k + 1].id;
        }
      }
    }
  }

  lemma {:induction false} UpIsAncestor(recs: seq<Record>, chain: seq<nat>)
    requires DistinctIds(recs) && LeadsUp(recs, chain)
    ensures Ancestor(recs, recs[chain[0]].id, |chain|) == 0
    decreases |chain|
  {
    hide DistinctIds;
    ParentOfRecord(recs, recs[chain[0]]);
    if |chain| > 1 {
      UpIsAncestor(recs, chain[1..]);
    } else {
      assert Ancestor(recs, 0, 0) == 0;
    }
  }

  lemma {:induction false} AncestorLeadsUp(recs: seq<Record>, i: nat, k: nat) returns (chain: seq<nat>)
    requires PositiveIds(recs) && DistinctIds(recs) && ParentsKnown(recs) && i < |recs|
    requires Ancestor(recs, recs[i].id, k) == 0
    ensures LeadsUp(recs, chain) && chain[0] == i
    decreases k
  {
    hide DistinctIds;
    ParentOfRecord(recs, recs[i]);
    assert recs[i] in recs;
    if recs[i].parentId == 0 {
      chain := [i];
    } else {
      var p :| p in recs && p.id == recs[i].parentId;
      var j :| 0 <= j < |recs| && recs[j] == p;
      var rest := AncestorLeadsUp(recs, j, k - 1);
      chain := [i] + rest;
      assert chain[1..] == rest;
    }
  }

  lemma AcceptableIsProper(recs: seq<Record>)
    requires Acceptable(recs)
    ensures forall i | 0 <= i < |recs| :: recs[i].id > 0 && HasParent(recs, i) && ComesFromRoot(recs, i)
  {
    hide LeadsUp, Ancestor, DistinctIds;
    forall i | 0 <= i < |recs|
      ensures recs[i].id > 0 && HasParent(recs, i) && ComesFromRoot(recs, i)
    {
      assert recs[i] in recs && ReachesRoot(recs, recs[i].id);
      var k: nat :| Ancestor(recs, recs[i].id, k) == 0;
      var chain := AncestorLeadsUp(recs, i, k);
    }
  }

  lemma ProperIsAcceptable(recs: seq<Record>)
    requires Proper(recs) && DistinctIds(recs)
    ensures Acceptable(recs)
  {
    hide Ancestor, DistinctIds;
    forall r | r in recs
      ensures r.id > 0 && (r.parentId == 0 || HasId(recs, r.parentId)) && ReachesRoot(recs, r.id)
    {
      var i :| 0 <= i < |recs| && recs[i] == r;
      assert HasParent(recs, i) && ComesFromRoot(recs, i);
      var chain :| LeadsUp(recs, chain) && chain[0] == i;
      UpIsAncestor(recs, chain);
    }
  }

  /** BuildTree's demands on the records. */
  lemma ProperIff(recs: seq<Record>)
    ensures Acceptable(recs) <==> Proper(recs)
  {
    hide HasParent, ComesFromRoot;
    DistinctIff(recs);
    if Acceptable(recs) {
      AcceptableIsProper(recs);
    }
    if Proper(recs) {
      ProperIsAcceptable(recs);
    }
  }

  // ----- what the tree shows -----

  /** The item has the record's fields, and the badge class that all items have. */
  predicate Reads(r: Record, x: MenuItem) {
    && x.labelKey == r.labelKey && x.routeName == r.routeName && x.url == r.url && x.object_ == r.object_
    && x.action == r.action && x.icon == r.icon && x.badge == r.badge && x.badgeClass == "badge"
    && x.hideIfEmptyChildren == r.hideIfEmptyChildren
  }

  predicate Precedes(a: Record, b: Record) {
    a.position < b.position || (a.position == b.position && a.id < b.id)
  }

  /** The records below a parent, by position and id. */
  ghost predicate AreChildren(recs: seq<Record>, parent: int, rs: seq<Record>) {
    (forall r :: r in rs <==> r in recs && r.parentId == parent)
    && forall i, j | 0 <= i < j < |rs| :: Precedes(rs[i], rs[j])
  }

  /** The items are those records, with their fields, and have their own children below them. */
  ghost predicate Mirrors(recs: seq<Record>, parent: int, items: seq<MenuItem>)
    decreases items
  {
    exists rs: seq<Record> ::
      AreChildren(recs, parent, rs) && |rs| == |items|
      && forall i | 0 <= i < |items| :: Reads(rs[i], items[i]) && Mirrors(recs, rs[i].id, items[i].children)
  }

  lemma {:induction false} SortedIff(s: seq<Record>)
    ensures IsSorted(s) <==> forall i, j | 0 <= i < j < |s| :: Precedes(s[i], s[j])
  {
    if s != [] {
      SortedIff(s[1..]);
      assert forall i | 0 < i < |s| :: s[i] == s[1..][i - 1] && s[i] in s[1..];
      if forall i, j | 0 <= i < j < |s| :: Precedes(s[i], s[j]) {
        forall x | x in s[1..]
          ensures Before(s[0], x)
        {
          var k :| 0 <= k < |s[1..]| && s[1..][k] == x;
          assert Precedes(s[0], s[k + 1]);
        }
        forall i, j | 0 <= i < j < |s[1..]|
          ensures Precedes(s[1..][i], s[1..][j])
        {
          assert Precedes(s[i + 1], s[j + 1]);
        }
      }
    }
  }

  lemma LevelAreChildren(recs: seq<Record>, parent: int)
    requires DistinctIds(recs)
    ensures AreChildren(recs, parent, Level(recs, parent))
  {
    hide Level, IsSorted;
    forall r: Record
      ensures r in Level(recs, parent) <==> r in recs && r.parentId == parent
    {
      InLevel(recs, parent, r);
    }
    LevelFacts(recs, parent);
    SortedIff(Level(recs, parent));
  }

  lemma {:induction false} SortedOnce(s: seq<Record>)
    requires IsSorted(s)
    ensures forall r | r in s :: multiset(s)[r] == 1
  {
    if s != [] {
      SortedOnce(s[1..]);
      assert s == [s[0]] + s[1..];
      assert s[0] !in s[1..];
      assert forall r | r in s :: r == s[0] || r in s[1..];
    }
  }

  /** There is one list of the children of a parent. */
  lemma ChildrenAre(recs: seq<Record>, parent: int, rs: seq<Record>)
    requires DistinctIds(recs) && AreChildren(recs, parent, rs)
    ensures rs == Level(recs, parent)
  {
    hide Level, IsSorted, Precedes;
    var level := Level(recs, parent);
    LevelAreChildren(recs, parent);
    SortedIff(rs);
    SortedIff(level);
    SortedOnce(rs);
    SortedOnce(level);
    forall r: Record
      ensures multiset(rs)[r] == multiset(level)[r]
    {
      assert r in rs <==> r in level;
      assert r in rs <==> r in multiset(rs);
      assert r in level <==> r in multiset(level);
    }
    assert multiset(rs) == multiset(level);
    SortedUnique(rs, level);
  }

  lemma ReadsIff(r: Record, x: MenuItem)
    ensures Reads(r, x) <==> x == ItemOf(r, x.children)
  {
  }

  /** The builder's trees are exactly those that mirror the records. */
  lemma {:induction false} MirrorsIff(recs: seq<Record>, parent: int, items: seq<MenuItem>)
    requires DistinctIds(recs)
    ensures Shows(recs, parent, items) <==> Mirrors(recs, parent, items)
    decreases items
  {
    hide DistinctIds, Level, AreChildren, Reads, ItemOf;
    var level := Level(recs, parent);
    LevelAreChildren(recs, parent);
    forall i | 0 <= i < |items| && |level| == |items|
      ensures Reads(level[i], items[i]) <==> items[i] == ItemOf(level[i], items[i].children)
      ensures Shows(recs, level[i].id, items[i].children) <==> Mirrors(recs, level[i].id, items[i].children)
    {
      ReadsIff(level[i], items[i]);
      MirrorsIff(recs, level[i].id, items[i].children);
    }
    forall rs | AreChildren(recs, parent, rs)
      ensures rs == level
    {
      ChildrenAre(recs, parent, rs);
    }
  }

  // ----- what the flat list shows -----

  /** The parent of the i-th entry is the nearest one above it that is one level up. */
  predicate IsParent(depths: seq<nat>, j: nat, i: nat)
    requires j < i < |depths|
  {
    depths[j] + 1 == depths[i] && forall k | j < k < i :: depths[k] >= depths[i]
  }

  /** Two entries of one depth with nothing above that depth between them. */
  predicate AreSiblings(depths: seq<nat>, i: nat, j: nat)
    requires i < j < |depths|
  {
    depths[i] == depths[j] && forall k | i < k < j :: depths[k] >= depths[i]
  }

  /** The records at their depths: at the top those without a parent, below that each under its
      parent, and siblings by position and id. */
  ghost predicate InTreeOrder(depths: seq<nat>, order: seq<Record>) {
    && |depths| == |order|
    && (forall i | 0 <= i < |order| :: depths[i] == 0 ==> order[i].parentId == 0)
    && (forall i | 0 <= i < |order| && depths[i] > 0 :: Under(depths, order, i))
    && (forall i, j | 0 <= i < j < |order| && AreSiblings(depths, i, j) :: Precedes(order[i], order[j]))
  }

  ghost predicate Under(depths: seq<nat>, order: seq<Record>, i: nat)
    requires i < |order| == |depths|
  {
    exists j | 0 <= j < i :: IsParent(depths, j, i) && order[j].id == order[i].parentId
  }

  function Depths(pre: seq<(nat, Record)>): (ds: seq<nat>)
    ensures |ds| == |pre|
  {
    seq(|pre|, i requires 0 <= i < |pre| => pre[i].0)
  }

  function Records(pre: seq<(nat, Record)>): (rs: seq<Record>)
    ensures |rs| == |pre|
  {
    seq(|pre|, i requires 0 <= i < |pre| => pre[i].1)
  }

  /** At depth d stands the level itself, by position and id; everything else is deeper, under its parent. */
  ghost predicate FromLevel(pre: seq<(nat, Record)>, level: seq<Record>, d: nat) {
    && (forall i | 0 <= i < |pre| :: pre[i].0 >= d && (pre[i].0 == d ==> pre[i].1 in level))
    && (forall i | 0 <= i < |pre| && pre[i].0 > d :: Under(Depths(pre), Records(pre), i))
    && (forall i, j | 0 <= i < j < |pre| && AreSiblings(Depths(pre), i, j) :: Precedes(pre[i].1, pre[j].1))
    && (pre != [] ==> pre[0].0 == d)
  }

  lemma UnderShifts(a: seq<(nat, Record)>, pre: seq<(nat, Record)>, b: seq<(nat, Record)>, i: nat)
    requires i < |pre| && Under(Depths(pre), Records(pre), i)
    ensures var all := a + pre + b; Under(Depths(all), Records(all), |a| + i)
  {
    var all := a + pre + b;
    assert forall k | 0 <= k < |pre| :: all[|a| + k] == pre[k];
    var j :| 0 <= j < i && IsParent(Depths(pre), j, i) && Records(pre)[j].id == Records(pre)[i].parentId;
    forall k | |a| + j < k < |a| + i
      ensures Depths(all)[k] >= Depths(all)[|a| + i]
    {
      assert Depths(pre)[k - |a|] >= Depths(pre)[i];
    }
    assert IsParent(Depths(all), |a| + j, |a| + i);
  }

  lemma SiblingsShift(a: seq<(nat, Record)>, pre: seq<(nat, Record)>, b: seq<(nat, Record)>, i: nat, j: nat)
    requires i < j < |pre|
    requires var all := a + pre + b; AreSiblings(Depths(all), |a| + i, |a| + j)
    ensures AreSiblings(Depths(pre), i, j)
  {
    var all := a + pre + b;
    assert forall k | 0 <= k < |pre| :: all[|a| + k] == pre[k];
    forall k | i < k < j
      ensures Depths(pre)[k] >= Depths(pre)[i]
    {
      assert Depths(all)[|a| + k] >= Depths(all)[|a| + i];
    }
  }

  lemma JoinedUnder(head: Record, below: seq<(nat, Record)>, kids: seq<Record>, after: seq<(nat, Record)>,
                    rest: seq<Record>, d: nat, i: nat)
    requires FromLevel(below, kids, d + 1) && FromLevel(after, rest, d)
    requires forall k | k in kids :: k.parentId == head.id
    requires i < 1 + |below| + |after|
    ensures var all := [(d, head)] + (below + after);
            && all[i].0 >= d && (all[i].0 == d ==> all[i].1 in [head] + rest)
            && (all[i].0 > d ==> Under(Depths(all), Records(all), i))
  {
    hide Under, AreSiblings, IsParent, Precedes;
    var first, n := [(d, head)], |below|;
    var all := first + (below + after);
    assert all == first + below + after && all == (first + below) + after + [];
    if 1 <= i <= n {
      assert all[i] == below[i - 1];
      if below[i - 1].0 > d + 1 {
        UnderShifts(first, below, after, i - 1);
      } else {
        UnderHead(head, below, after, d, i);
      }
    } else if i > n {
      assert all[i] == after[i - 1 - n];
      if after[i - 1 - n].0 > d {
        UnderShifts(first + below, after, [], i - 1 - n);
      }
    }
  }

  lemma JoinedInOrder(head: Record, below: seq<(nat, Record)>, kids: seq<Record>, after: seq<(nat, Record)>,
                      rest: seq<Record>, d: nat)
    requires FromLevel(below, kids, d + 1) && FromLevel(after, rest, d)
    requires forall k | k in kids :: k.parentId == head.id
    requires forall r | r in rest :: Precedes(head, r)
    ensures var all := [(d, head)] + (below + after);
            forall i, j | 0 <= i < j < |all| && AreSiblings(Depths(all), i, j) :: Precedes(all[i].1, all[j].1)
  {
    hide Under, AreSiblings, Precedes, FromLevel;
    var all := [(d, head)] + (below + after);
    forall i, j | 0 <= i < j < |all| && AreSiblings(Depths(all), i, j)
      ensures Precedes(all[i].1, all[j].1)
    {
      JoinedSiblings(head, below, kids, after, rest, d, i, j);
    }
  }

  lemma JoinedPlaced(head: Record, below: seq<(nat, Record)>, kids: seq<Record>, after: seq<(nat, Record)>,
                     rest: seq<Record>, d: nat)
    requires FromLevel(below, kids, d + 1) && FromLevel(after, rest, d)
    requires forall k | k in kids :: k.parentId == head.id
    requires forall r | r in rest :: Precedes(head, r)
    ensures var all := [(d, head)] + (below + after);
            && (forall i | 0 <= i < |all| :: all[i].0 >= d && (all[i].0 == d ==> all[i].1 in [head] + rest))
            && (forall i | 0 <= i < |all| && all[i].0 > d :: Under(Depths(all), Records(all), i))
  {
    hide Under, AreSiblings, Precedes, FromLevel;
    var all := [(d, head)] + (below + after);
    forall i | 0 <= i < |all|
      ensures all[i].0 >= d && (all[i].0 == d ==> all[i].1 in [head] + rest)
      ensures all[i].0 > d ==> Under(Depths(all), Records(all), i)
    {
      JoinedUnder(head, below, kids, after, rest, d, i);
    }
  }

  /** The head of a level, what is below it, and the rest of the level. */
  lemma LevelsJoin(head: Record, below: seq<(nat, Record)>, kids: seq<Record>, after: seq<(nat, Record)>,
                   rest: seq<Record>, d: nat)
    requires FromLevel(below, kids, d + 1) && FromLevel(after, rest, d)
    requires forall k | k in kids :: k.parentId == head.id
    requires forall r | r in rest :: Precedes(head, r)
    ensures FromLevel([(d, head)] + (below + after), [head] + rest, d)
  {
    hide Under, AreSiblings, Precedes, Depths, Records;
    JoinedInOrder(head, below, kids, after, rest, d);
    JoinedPlaced(head, below, kids, after, rest, d);
  }

  lemma UnderHead(head: Record, below: seq<(nat, Record)>, after: seq<(nat, Record)>, d: nat, i: nat)
    requires 1 <= i <= |below| && below[i - 1].0 == d + 1 && below[i - 1].1.parentId == head.id
    requires forall k | 0 <= k < |below| :: below[k].0 >= d + 1
    ensures var all := [(d, head)] + (below + after); Under(Depths(all), Records(all), i)
  {
    var all := [(d, head)] + (below + after);
    assert forall k | 0 <= k < |below| :: all[1 + k] == below[k];
    assert forall k | 0 < k < i :: Depths(all)[k] == below[k - 1].0;
    assert IsParent(Depths(all), 0, i);
  }

  lemma JoinedSiblings(head: Record, below: seq<(nat, Record)>, kids: seq<Record>, after: seq<(nat, Record)>,
                       rest: seq<Record>, d: nat, i: nat, j: nat)
    requires FromLevel(below, kids, d + 1) && FromLevel(after, rest, d)
    requires forall r | r in rest :: Precedes(head, r)
    requires var all := [(d, head)] + (below + after); i < j < |all| && AreSiblings(Depths(all), i, j)
    ensures var all := [(d, head)] + (below + after); Precedes(all[i].1, all[j].1)
  {
    hide FromLevel, AreSiblings, Precedes;
    var n := |below|;
    assert [(d, head)] + (below + after) == [(d, head)] + below + after;
    assert [(d, head)] + below + after + [] == [(d, head)] + below + after;
    if 1 <= i && j <= n {
      SiblingsShift([(d, head)], below, after, i - 1, j - 1);
      LevelSiblings(below, kids, d + 1, i - 1, j - 1);
    } else if i > n {
      SiblingsShift([(d, head)] + below, after, [], i - 1 - n, j - 1 - n);
      LevelSiblings(after, rest, d, i - 1 - n, j - 1 - n);
    } else if i == 0 && j > n {
      HeadSiblings(head, below, after, rest, d, j);
    } else if i == 0 {
      NoSiblingBelow(head, below, kids, after, d, j);
    } else {
      NoSiblingsAcross(head, below, kids, after, rest, d, i, j);
    }
  }

  lemma LevelSiblings(pre: seq<(nat, Record)>, level: seq<Record>, d: nat, i: nat, j: nat)
    requires FromLevel(pre, level, d) && i < j < |pre| && AreSiblings(Depths(pre), i, j)
    ensures Precedes(pre[i].1, pre[j].1)
  {
    hide Under, AreSiblings, Precedes;
  }

  lemma HeadSiblings(head: Record, below: seq<(nat, Record)>, after: seq<(nat, Record)>, rest: seq<Record>, d: nat,
                     j: nat)
    requires FromLevel(after, rest, d) && forall r | r in rest :: Precedes(head, r)
    requires |below| < j < 1 + |below| + |after| && AreSiblings(Depths([(d, head)] + (below + after)), 0, j)
    ensures Precedes(head, ([(d, head)] + (below + after))[j].1)
  {
    hide Under, Precedes;
    var all := [(d, head)] + (below + after);
    assert Depths(all)[j] == all[j].0 && Depths(all)[0] == d && all[j] == after[j - 1 - |below|];
  }

  lemma NoSiblingBelow(head: Record, below: seq<(nat, Record)>, kids: seq<Record>, after: seq<(nat, Record)>, d: nat,
                       j: nat)
    requires FromLevel(below, kids, d + 1) && 1 <= j <= |below|
    ensures !AreSiblings(Depths([(d, head)] + (below + after)), 0, j)
  {
    hide Under, Precedes;
    var all := [(d, head)] + (below + after);
    assert Depths(all)[j] == all[j].0 && Depths(all)[0] == d && all[j] == below[j - 1];
  }

  lemma NoSiblingsAcross(head: Record, below: seq<(nat, Record)>, kids: seq<Record>, after: seq<(nat, Record)>,
                         rest: seq<Record>, d: nat, i: nat, j: nat)
    requires FromLevel(below, kids, d + 1) && FromLevel(after, rest, d)
    requires 1 <= i <= |below| < j < 1 + |below| + |after|
    ensures !AreSiblings(Depths([(d, head)] + (below + after)), i, j)
  {
    hide Under, Precedes;
    var all, n := [(d, head)] + (below + after), |below|;
    assert all[i] == below[i - 1] && all[1 + n] == after[0];
    assert Depths(all)[i] == all[i].0 && Depths(all)[1 + n] == d && Depths(all)[j] == all[j].0;
  }

  lemma {:induction false} PreorderFromLevel(recs: seq<Record>, level: seq<Record>, items: seq<MenuItem>, d: nat)
    requires DistinctIds(recs) && ShowsLevel(recs, level, items)
    requires forall i, j | 0 <= i < j < |level| :: Precedes(level[i], level[j])
    ensures FromLevel(Preorder(recs, level, items, d), level, d)
    decreases items
  {
    hide FromLevel, Level, Precedes, DistinctIds;
    if items == [] {
      NothingFrom(recs, level, items, d);
    } else {
      Unfold(recs, level, items, d);
      var kids := Level(recs, level[0].id);
      LevelAreChildren(recs, level[0].id);
      PreorderFromLevel(recs, kids, items[0].children, d + 1);
      PreorderFromLevel(recs, level[1..], items[1..], d);
      assert forall r | r in level[1..] :: exists j | 0 < j < |level| :: level[j] == r;
      LevelsJoin(level[0], Below(recs, level, items, d), kids, After(recs, level, items, d), level[1..], d);
      assert [level[0]] + level[1..] == level;
    }
  }

  lemma NothingFrom(recs: seq<Record>, level: seq<Record>, items: seq<MenuItem>, d: nat)
    requires ShowsLevel(recs, level, items) && items == []
    ensures FromLevel(Preorder(recs, level, items, d), level, d)
  {
  }

  /** Every record once, with its fields, and in tree order. */
  ghost predicate Lists(recs: seq<Record>, flat: seq<FlatItem>, order: seq<Record>) {
    && |order| == |flat| && (forall r :: r in order <==> r in recs)
    && (forall i, j | 0 <= i < j < |order| :: order[i].id != order[j].id)
    && (forall i | 0 <= i < |flat| :: Reads(order[i], flat[i].item))
    && InTreeOrder(seq(|flat|, i requires 0 <= i < |flat| => flat[i].depth), order)
  }

  /** Flattening the tree of acceptable records. */
  lemma FlatListsRecords(recs: seq<Record>, items: seq<MenuItem>)
    requires Acceptable(recs) && Shows(recs, 0, items)
    ensures exists order :: Lists(recs, FlattenAt(items, 0), order)
  {
    hide Acceptable, Level, Preorder, FlattenAt, ShowsLevel, InTreeOrder, Reads, ItemOf;
    assert DistinctIds(recs) by { AcceptableIsDistinct(recs); }
    FlattenListsEachOnce(recs, items);
    var flat, pre := FlattenAt(items, 0), Preorder(recs, Level(recs, 0), items, 0);
    var order := Records(pre);
    forall i | 0 <= i < |flat|
      ensures Reads(order[i], flat[i].item)
    {
      ReadsIff(pre[i].1, flat[i].item);
    }
    forall i, j | 0 <= i < j < |order|
      ensures order[i].id != order[j].id
    {
      if pre[i].1.id == pre[j].1.id {
        SameIdSameRecord(recs, pre[i].1, pre[j].1);
      }
    }
    forall r | r in recs
      ensures r in order
    {
      var i :| 0 <= i < |pre| && pre[i].1 == r;
      assert order[i] == r;
    }
    RootOrder(recs, items);
    assert seq(|flat|, i requires 0 <= i < |flat| => flat[i].depth) == Depths(pre);
    assert Lists(recs, flat, order);
  }

  lemma AcceptableIsDistinct(recs: seq<Record>)
    requires Acceptable(recs)
    ensures DistinctIds(recs)
  {
  }

  lemma RootOrder(recs: seq<Record>, items: seq<MenuItem>)
    requires DistinctIds(recs) && Shows(recs, 0, items)
    ensures var pre := Preorder(recs, Level(recs, 0), items, 0); InTreeOrder(Depths(pre), Records(pre))
  {
    hide Level, Preorder, Precedes, DistinctIds, ShowsLevel, Under, AreSiblings;
    LevelAreChildren(recs, 0);
    PreorderFromLevel(recs, Level(recs, 0), items, 0);
  }
}