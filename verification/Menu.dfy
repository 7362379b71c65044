/** The menu forest builder: cmd/crm/menusvc/menuloader.go. */
module Menu {

  datatype Record = Record(id: int, parentId: int, position: int, labelKey: string, routeName: string,
                           url: string, object_: string, action: string, icon: string, badge: string,
                           hideIfEmptyChildren: bool)

  datatype MenuItem = MenuItem(labelKey: string, routeName: string, url: string, object_: string, action: string,
                               icon: string, badge: string, badgeClass: string, hideIfEmptyChildren: bool,
                               children: seq<MenuItem>)

  function ItemOf(r: Record, kids: seq<MenuItem>): MenuItem {
    MenuItem(r.labelKey, r.routeName, r.url, r.object_, r.action, r.icon, r.badge, "badge", r.hideIfEmptyChildren, kids)
  }

  datatype Error =
    | InvalidId(id: int)
    | DuplicateId(id: int)
    | UnknownParent(id: int, parent: int)
    | CycleUnder(parent: int)
    | CycleFound(reachable: nat, total: nat)

  // ----- sorting one level -----

  /** By position, then by id. */
  predicate Before(a: Record, b: Record) {
    a.position < b.position || (a.position == b.position && a.id < b.id)
  }

  predicate IsSorted(s: seq<Record>) {
    s == [] || ((forall x | x in s[1..] :: Before(s[0], x)) && IsSorted(s[1..]))
  }

  function Insert(r: Record, s: seq<Record>): (t: seq<Record>)
    ensures multiset(t) == multiset{r} + multiset(s)
  {
    if s == [] || Before(r, s[0]) then [r] + s
    else
      assert s == [s[0]] + s[1..];
      [s[0]] + Insert(r, s[1..])
  }

  /** sort.SliceStable with the comparison of BuildTree. */
  function Sorted(s: seq<Record>): (t: seq<Record>)
    ensures multiset(t) == multiset(s)
  {
    if s == [] then []
    else
      assert s == [s[0]] + s[1..];
      Insert(s[0], Sorted(s[1..]))
  }

  predicate DistinctIds(s: seq<Record>) {
    s == [] || ((forall x | x in s[1..] :: x.id != s[0].id) && DistinctIds(s[1..]))
  }

  lemma {:induction false} InsertSorted(r: Record, s: seq<Record>)
    requires IsSorted(s) && forall x | x in s :: x.id != r.id
    ensures IsSorted(Insert(r, s))
  {
    if s != [] {
      var t := Insert(r, s[1..]);
      if !Before(r, s[0]) {
        InsertSorted(r, s[1..]);
        InsertMembers(r, s[1..]);
        assert ([s[0]] + t)[1..] == t;
      } else {
        assert ([r] + s)[1..] == s;
        assert forall x | x in s :: x == s[0] || x in s[1..];
      }
    }
  }

  lemma InsertMembers(r: Record, s: seq<Record>)
    ensures forall x | x in Insert(r, s) :: x == r || x in s
  {
    var t := Insert(r, s);
    assert forall x | x in t :: x in multiset(t);
  }

  lemma {:induction false} SortedIsSorted(s: seq<Record>)
    requires DistinctIds(s)
    ensures IsSorted(Sorted(s))
  {
    if s != [] {
      SortedIsSorted(s[1..]);
      assert forall x | x in Sorted(s[1..]) :: x in multiset(s[1..]);
      InsertSorted(s[0], Sorted(s[1..]));
    }
  }

  lemma HeadFirst(s: seq<Record>, x: Record)
    requires IsSorted(s) && s != []
    ensures x in multiset(s) ==> x == s[0] || Before(s[0], x)
  {
    assert x in s ==> x == s[0] || x in s[1..];
  }

  lemma SameHead(a: seq<Record>, b: seq<Record>)
    requires IsSorted(a) && IsSorted(b) && multiset(a) == multiset(b) && a != [] && b != []
    ensures a[0] == b[0] && IsSorted(a[1..]) && IsSorted(b[1..])
  {
    HeadFirst(a, b[0]);
    HeadFirst(b, a[0]);
    assert a[0] in multiset(a) && b[0] in multiset(b);
  }

  /** There is only one way to sort a level. */
  lemma {:induction false} SortedUnique(a: seq<Record>, b: seq<Record>)
    requires IsSorted(a) && IsSorted(b) && multiset(a) == multiset(b)
    ensures a == b
  {
    hide IsSorted;
    if a == [] || b == [] {
      assert |multiset(a)| == |multiset(b)|;
    } else {
      SameHead(a, b);
      assert a == [a[0]] + a[1..] && b == [b[0]] + b[1..];
      assert multiset(a[1..]) == multiset(a) - multiset{a[0]};
      assert multiset(b[1..]) == multiset(b) - multiset{b[0]};
      SortedUnique(a[1..], b[1..]);
    }
  }

  // ----- what the records must satisfy -----

  function ChildrenOf(recs: seq<Record>, parent: int): seq<Record> {
    if recs == [] then []
    else if recs[|recs| - 1].parentId == parent then ChildrenOf(recs[..|recs| - 1], parent) + [recs[|recs| - 1]]
    else ChildrenOf(recs[..|recs| - 1], parent)
  }

  function Level(recs: seq<Record>, parent: int): seq<Record> {
    Sorted(ChildrenOf(recs, parent))
  }

  /** The parent of an id; 0, the root, for ids that no record has. */
  function ParentOf(recs: seq<Record>, id: int): int {
    if recs == [] then 0
    else if recs[0].id == id then recs[0].parentId
    else ParentOf(recs[1..], id)
  }

  function Ancestor(recs: seq<Record>, id: int, k: nat): int
    decreases k
  {
    if k == 0 then id else Ancestor(recs, ParentOf(recs, id), k - 1)
  }

  ghost predicate ReachesRoot(recs: seq<Record>, id: int) {
    exists k: nat :: Ancestor(recs, id, k) == 0
  }

  predicate HasId(recs: seq<Record>, id: int) {
    exists r | r in recs :: r.id == id
  }

  predicate PositiveIds(recs: seq<Record>) {
    forall r | r in recs :: r.id > 0
  }

  predicate ParentsKnown(recs: seq<Record>) {
    forall r | r in recs :: r.parentId == 0 || HasId(recs, r.parentId)
  }

  /** What BuildTree demands: positive distinct ids, known parents, and no cycle. */
  ghost predicate Acceptable(recs: seq<Record>) {
    && PositiveIds(recs) && DistinctIds(recs) && ParentsKnown(recs)
    && forall r | r in recs :: ReachesRoot(recs, r.id)
  }

  // ----- what a tree must show -----

  /** items are the given records, in order, each with its record's fields and its own children. */
  predicate ShowsLevel(recs: seq<Record>, level: seq<Record>, items: seq<MenuItem>)
    decreases items
  {
    |items| == |level|
    && forall i | 0 <= i < |items| ::
         items[i] == ItemOf(level[i], items[i].children)
         && ShowsLevel(recs, Level(recs, level[i].id), items[i].children)
  }

  /** items are the records under parent, every level sorted. */
  predicate Shows(recs: seq<Record>, parent: int, items: seq<MenuItem>) {
    ShowsLevel(recs, Level(recs, parent), items)
  }

  /** Such a tree is unique. */
  lemma {:induction false} ShowsUnique(recs: seq<Record>, level: seq<Record>, a: seq<MenuItem>, b: seq<MenuItem>)
    requires ShowsLevel(recs, level, a) && ShowsLevel(recs, level, b)
    ensures a == b
    decreases a
  {
    forall i | 0 <= i < |a|
      ensures a[i] == b[i]
    {
      ShowsUnique(recs, Level(recs, level[i].id), a[i].children, b[i].children);
    }
  }

  /** The records in the order in which the tree lists them, with their depths. */
  ghost function Preorder(recs: seq<Record>, level: seq<Record>, items: seq<MenuItem>, d: nat): seq<(nat, Record)>
    requires ShowsLevel(recs, level, items)
    decreases items
  {
    if items == [] then []
    else
      assert ShowsLevel(recs, level[1..], items[1..]);
      [(d, level[0])]
      + (Preorder(recs, Level(recs, level[0].id), items[0].children, d + 1)
         + Preorder(recs, level[1..], items[1..], d))
  }

  datatype FlatItem = FlatItem(depth: nat, item: MenuItem)

  function FlattenAt(items: seq<MenuItem>, d: nat): seq<FlatItem> {
    if items == [] then []
    else [FlatItem(d, items[0])] + FlattenAt(items[0].children, d + 1) + FlattenAt(items[1..], d)
  }

  /** walk: appends to out. */
  method Walk(list: seq<MenuItem>, d: nat, out: seq<FlatItem>) returns (r: seq<FlatItem>)
    ensures r == out + FlattenAt(list, d)
    decreases list
  {
    r := out;
    for i := 0 to |list|
      invariant r + FlattenAt(list[i..], d) == out + FlattenAt(list, d)
    {
      var it := list[i];
      assert list[i..][0] == it && list[i..][1..] == list[i + 1..];
      ghost var before := r;
      r := r + [FlatItem(d, it)];
      r := Walk(it.children, d + 1, r);
      assert before + FlattenAt(list[i..], d)
          == before + [FlatItem(d, it)] + FlattenAt(it.children, d + 1) + FlattenAt(list[i + 1..], d);
    }
    assert list[|list|..] == [] && r + [] == r;
  }

  method Flatten(items: seq<MenuItem>) returns (r: seq<FlatItem>)
    ensures r == FlattenAt(items, 0)
  {
    r := Walk(items, 0, []);
    assert [] + FlattenAt(items, 0) == FlattenAt(items, 0);
  }
}
