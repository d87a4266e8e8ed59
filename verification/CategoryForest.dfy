/**
  * The category forest: its recursion ends although parent links may form cycles, and it holds
  * exactly the categories whose parent chain reaches a root.
  */
module CategoryForest {
  import opened Wrappers

  datatype DNSCategory =
    DNSCategory(categoryId: string, categoryName: string, parentCategoryId: Option<string>, enabled: bool)

  datatype Category =
    Category(categoryName: string, categoryId: string, subCategories: seq<Category>, enabled: bool, level: nat)

  // ----- Paths of parent links, from a root down

  ghost predicate UniqueIds(cats: seq<DNSCategory>) {
    forall i, j :: 0 <= i < j < |cats| ==> cats[i].categoryId != cats[j].categoryId
  }

  ghost function Ids(cats: seq<DNSCategory>): set<string> {
    set c | c in cats :: c.categoryId
  }

  ghost predicate Linked(cats: seq<DNSCategory>, id: string, parent: Option<string>) {
    exists c :: c in cats && c.categoryId == id && c.parentCategoryId == parent
  }

  /** The parent a category right below `path` has; below the empty path are the roots. */
  function ParentOf(path: seq<string>): Option<string> {
    if path == [] then None else Some(path[|path| - 1])
  }

  ghost predicate RootPath(cats: seq<DNSCategory>, path: seq<string>) {
    path == []
    || (RootPath(cats, path[..|path| - 1]) && Linked(cats, path[|path| - 1], ParentOf(path[..|path| - 1])))
  }

  ghost predicate NoRepeats(path: seq<string>) {
    forall i, j :: 0 <= i < j < |path| ==> path[i] != path[j]
  }

  ghost function Elements(path: seq<string>): set<string> {
    set id | id in path
  }

  lemma {:induction false} PathPrefix(cats: seq<DNSCategory>, path: seq<string>, k: nat)
    requires RootPath(cats, path) && k <= |path|
    ensures RootPath(cats, path[..k])
    ensures k < |path| ==> Linked(cats, path[k], ParentOf(path[..k]))
    decreases |path|
  {
    if k == |path| {
      assert path[..k] == path;
    } else {
      var last := |path| - 1;
      PathPrefix(cats, path[..last], k);
      assert path[..last][..k] == path[..k];
    }
  }

  lemma SameParent(cats: seq<DNSCategory>, id: string, a: Option<string>, b: Option<string>)
    requires UniqueIds(cats) && Linked(cats, id, a) && Linked(cats, id, b)
    ensures a == b
  {
  }

  /** Two paths from roots to one id are the same path. */
  lemma {:induction false} RootPathUnique(cats: seq<DNSCategory>, p: seq<string>, q: seq<string>)
    requires UniqueIds(cats) && RootPath(cats, p) && RootPath(cats, q)
    requires p != [] && q != [] && p[|p| - 1] == q[|q| - 1]
    ensures p == q
    decreases |p|
  {
    var p', q', id := p[..|p| - 1], q[..|q| - 1], p[|p| - 1];
    SameParent(cats, id, ParentOf(p'), ParentOf(q'));
    if p' != [] {
      RootPathUnique(cats, p', q');
    }
    assert p == p' + [id] && q == q' + [id];
  }

  /** A path from a root never repeats an id, whatever cycles the table has elsewhere. */
  lemma RootPathNoRepeats(cats: seq<DNSCategory>, path: seq<string>)
    requires UniqueIds(cats) && RootPath(cats, path)
    ensures NoRepeats(path)
  {
    forall i, j | 0 <= i < j < |path|
      ensures path[i] != path[j]
    {
      var p, q := path[..i + 1], path[..j + 1];
      PathPrefix(cats, path, i + 1);
      PathPrefix(cats, path, j + 1);
      assert |p| < |q| && p[|p| - 1] == path[i] && q[|q| - 1] == path[j];
      if path[i] == path[j] {
        RootPathUnique(cats, p, q);
      }
    }
  }

  /** One step down leaves strictly fewer categories off the path: the recursion's measure. */
  lemma PathGrows(cats: seq<DNSCategory>, path: seq<string>, c: DNSCategory)
    requires UniqueIds(cats) && RootPath(cats, path) && c in cats && c.parentCategoryId == ParentOf(path)
    ensures RootPath(cats, path + [c.categoryId])
    ensures Ids(cats) - Elements(path + [c.categoryId]) < Ids(cats) - Elements(path)
  {
    var longer := path + [c.categoryId];
    assert longer[..|path|] == path;
    RootPathNoRepeats(cats, longer);
    assert c.categoryId !in path by {
      forall k | 0 <= k < |path|
        ensures path[k] != c.categoryId
      {
        assert longer[k] != longer[|path|];
      }
    }
    assert c.categoryId in Ids(cats) - Elements(path);
    assert c.categoryId !in Ids(cats) - Elements(longer);
  }

  // ----- The forest

  function Node(c: DNSCategory, level: nat, subs: seq<Category>): Category {
    Category(c.categoryName, c.categoryId, subs, c.enabled, level)
  }

  /** The trees right below `path` of the first `n` categories. */
  ghost function Below(cats: seq<DNSCategory>, path: seq<string>, n: nat): seq<Category>
    requires UniqueIds(cats) && RootPath(cats, path) && n <= |cats|
    decreases Ids(cats) - Elements(path), n
  {
    if n == 0 then []
    else
      var c := cats[n - 1];
      if c.parentCategoryId == ParentOf(path) then
        PathGrows(cats, path, c);
        Below(cats, path, n - 1) + [Node(c, |path|, Below(cats, path + [c.categoryId], |cats|))]
      else Below(cats, path, n - 1)
  }

  /** The next category of the table adds its tree, or nothing. */
  lemma BelowNext(cats: seq<DNSCategory>, path: seq<string>, i: nat)
    requires UniqueIds(cats) && RootPath(cats, path) && i < |cats|
    ensures cats[i].parentCategoryId != ParentOf(path) ==> Below(cats, path, i + 1) == Below(cats, path, i)
    ensures cats[i].parentCategoryId == ParentOf(path) ==>
              && RootPath(cats, path + [cats[i].categoryId])
              && Ids(cats) - Elements(path + [cats[i].categoryId]) < Ids(cats) - Elements(path)
              && Below(cats, path, i + 1)
                 == Below(cats, path, i) + [Node(cats[i], |path|, Below(cats, path + [cats[i].categoryId], |cats|))]
  {
    if cats[i].parentCategoryId == ParentOf(path) {
      PathGrows(cats, path, cats[i]);
    }
  }

  // ----- What hangs where

  /** The ids of the categories with a parent, in table order; without one are the roots. */
  function ChildIds(cats: seq<DNSCategory>, parent: Option<string>): seq<string> {
    if cats == [] then []
    else
      var last := cats[|cats| - 1];
      ChildIds(cats[..|cats| - 1], parent) + if last.parentCategoryId == parent then [last.categoryId] else []
  }

  function TreeIds(forest: seq<Category>): seq<string> {
    seq(|forest|, i requires 0 <= i < |forest| => forest[i].categoryId)
  }

  ghost predicate Described(cats: seq<DNSCategory>, t: Category) {
    exists c :: c in cats && c.categoryId == t.categoryId && c.categoryName == t.categoryName && c.enabled == t.enabled
  }

  /** A category at `level`; below it stand the trees of its own children, in table order, and so on
    * all the way down. */
  ghost predicate TreeOf(cats: seq<DNSCategory>, level: nat, t: Category)
    decreases t
  {
    && t.level == level && Described(cats, t)
    && TreeIds(t.subCategories) == ChildIds(cats, Some(t.categoryId))
    && forall i :: 0 <= i < |t.subCategories| ==> TreeOf(cats, level + 1, t.subCategories[i])
  }

  ghost predicate Trees(cats: seq<DNSCategory>, level: nat, forest: seq<Category>) {
    forall i :: 0 <= i < |forest| ==> TreeOf(cats, level, forest[i])
  }

  /** The trees of the children of `parent`. */
  ghost predicate HierarchyOf(cats: seq<DNSCategory>, parent: Option<string>, level: nat, forest: seq<Category>) {
    TreeIds(forest) == ChildIds(cats, parent) && Trees(cats, level, forest)
  }

  lemma NodeIsTree(cats: seq<DNSCategory>, c: DNSCategory, level: nat, subs: seq<Category>)
    requires c in cats && HierarchyOf(cats, Some(c.categoryId), level + 1, subs)
    ensures TreeOf(cats, level, Node(c, level, subs))
  {
  }

  lemma TreesSnoc(cats: seq<DNSCategory>, level: nat, forest: seq<Category>, t: Category)
    requires Trees(cats, level, forest) && TreeOf(cats, level, t)
    ensures Trees(cats, level, forest + [t]) && TreeIds(forest + [t]) == TreeIds(forest) + [t.categoryId]
  {
    assert TreeIds(forest + [t]) == TreeIds(forest) + [t.categoryId];
  }

  lemma ChildIdsNext(cats: seq<DNSCategory>, n: nat, parent: Option<string>)
    requires 0 < n <= |cats|
    ensures ChildIds(cats[..n], parent)
         == ChildIds(cats[..n - 1], parent)
            + if cats[n - 1].parentCategoryId == parent then [cats[n - 1].categoryId] else []
  {
    assert cats[..n][..n - 1] == cats[..n - 1];
  }

  lemma HierarchyNext(cats: seq<DNSCategory>, parent: Option<string>, level: nat, n: nat, before: seq<Category>,
                      subs: seq<Category>)
    requires 0 < n <= |cats| && cats[n - 1].parentCategoryId == parent
    requires PrefixDone(cats, parent, level, n - 1, before)
    requires HierarchyOf(cats, Some(cats[n - 1].categoryId), level + 1, subs)
    ensures PrefixDone(cats, parent, level, n, before + [Node(cats[n - 1], level, subs)])
  {
    ChildIdsNext(cats, n, parent);
    NodeIsTree(cats, cats[n - 1], level, subs);
    TreesSnoc(cats, level, before, Node(cats[n - 1], level, subs));
  }

  /** The first `n` categories have given their trees. */
  ghost predicate PrefixDone(cats: seq<DNSCategory>, parent: Option<string>, level: nat, n: nat, forest: seq<Category>)
    requires n <= |cats|
  {
    TreeIds(forest) == ChildIds(cats[..n], parent) && Trees(cats, level, forest)
  }

  lemma PrefixSkips(cats: seq<DNSCategory>, parent: Option<string>, level: nat, n: nat, forest: seq<Category>)
    requires 0 < n <= |cats| && cats[n - 1].parentCategoryId != parent && PrefixDone(cats, parent, level, n - 1, forest)
    ensures PrefixDone(cats, parent, level, n, forest)
  {
    ChildIdsNext(cats, n, parent);
  }

  lemma {:induction false} BelowPrefixIsHierarchy(cats: seq<DNSCategory>, path: seq<string>, n: nat)
    requires UniqueIds(cats) && RootPath(cats, path) && n <= |cats|
    ensures PrefixDone(cats, ParentOf(path), |path|, n, Below(cats, path, n))
    decreases Ids(cats) - Elements(path), n
  {
    if n == 0 {
      assert cats[..0] == [];
    } else {
      var before := Below(cats, path, n - 1);
      BelowPrefixIsHierarchy(cats, path, n - 1);
      BelowNext(cats, path, n - 1);
      if cats[n - 1].parentCategoryId == ParentOf(path) {
        var subs := SubtreesOf(cats, path, cats[n - 1]);
        HierarchyNext(cats, ParentOf(path), |path|, n, before, subs);
      } else {
        PrefixSkips(cats, ParentOf(path), |path|, n, before);
      }
    }
  }

  lemma {:induction false} SubtreesOf(cats: seq<DNSCategory>, path: seq<string>,
                                      c: DNSCategory) returns (subs: seq<Category>)
    requires UniqueIds(cats) && RootPath(cats, path) && c in cats && c.parentCategoryId == ParentOf(path)
    ensures RootPath(cats, path + [c.categoryId]) && subs == Below(cats, path + [c.categoryId], |cats|)
    ensures HierarchyOf(cats, Some(c.categoryId), |path| + 1, subs)
    decreases Ids(cats) - Elements(path), 0
  {
    var longer := path + [c.categoryId];
    PathGrows(cats, path, c);
    BelowPrefixIsHierarchy(cats, longer, |cats|);
    assert cats[..|cats|] == cats;
    subs := Below(cats, longer, |cats|);
  }

  lemma BelowIsHierarchy(cats: seq<DNSCategory>, path: seq<string>)
    requires UniqueIds(cats) && RootPath(cats, path)
    ensures HierarchyOf(cats, ParentOf(path), |path|, Below(cats, path, |cats|))
  {
    BelowPrefixIsHierarchy(cats, path, |cats|);
    assert cats[..|cats|] == cats;
  }

  /** The recursion below one category; `path` is how a root leads to it. */
  method GetSubHierarchy(cat: Category, cats: seq<DNSCategory>, ghost path: seq<string>) returns (result: seq<Category>)
    requires UniqueIds(cats) && RootPath(cats, path)
    requires Some(cat.categoryId) == ParentOf(path) && cat.level == |path| - 1
    ensures result == Below(cats, path, |cats|) && HierarchyOf(cats, Some(cat.categoryId), cat.level + 1, result)
    decreases Ids(cats) - Elements(path)
  {
    BelowIsHierarchy(cats, path);
    result := [];
    for i := 0 to |cats|
      invariant result == Below(cats, path, i)
    {
      var c := cats[i];
      BelowNext(cats, path, i);
      if c.parentCategoryId.Some? && c.parentCategoryId.value == cat.categoryId {
        var sc := Category(c.categoryName, c.categoryId, [], c.enabled, cat.level + 1);
        var subs := GetSubHierarchy(sc, cats, path + [c.categoryId]);
        sc := sc.(subCategories := subs);
        result := result + [sc];
      }
    }
  }

  method GetCategoryHierarchy(cats: seq<DNSCategory>) returns (tlc: seq<Category>)
    requires UniqueIds(cats)
    ensures tlc == Below(cats, [], |cats|) && HierarchyOf(cats, None, 0, tlc)
  {
    tlc := [];
    ghost var top: seq<string> := [];
    BelowIsHierarchy(cats, top);
    for i := 0 to |cats|
      invariant tlc == Below(cats, top, i)
    {
      var cat := cats[i];
      BelowNext(cats, top, i);
      if cat.parentCategoryId.None? {
        var c := Category(cat.categoryName, cat.categoryId, [], cat.enabled, 0);
        var subs := GetSubHierarchy(c, cats, top + [cat.categoryId]);
        c := c.(subCategories := subs);
        tlc := tlc + [c];
      }
    }
  }

  // ----- What the forest contains

  /** A category at its place in the forest. */
  datatype Placed = Placed(categoryId: string, categoryName: string, enabled: bool, level: nat)

  function Flatten(forest: seq<Category>): seq<Placed> {
    if forest == [] then []
    else
      [Place(forest[0])] + Flatten(forest[0].subCategories) + Flatten(forest[1..])
  }

  function Place(t: Category): Placed {
    Placed(t.categoryId, t.categoryName, t.enabled, t.level)
  }

  lemma Reassociate(x: Placed, a: seq<Placed>, b: seq<Placed>, c: seq<Placed>)
    ensures [x] + a + (b + c) == ([x] + a + b) + c
  {
  }

  lemma {:induction false} FlattenConcat(a: seq<Category>, b: seq<Category>)
    ensures Flatten(a + b) == Flatten(a) + Flatten(b)
    decreases |a|
  {
    if a == [] {
      assert a + b == b;
    } else {
      FlattenConcat(a[1..], b);
      assert (a + b)[1..] == a[1..] + b && (a + b)[0] == a[0];
      Reassociate(Place(a[0]), Flatten(a[0].subCategories), Flatten(a[1..]), Flatten(b));
    }
  }

  lemma FlattenSnoc(a: seq<Category>, t: Category)
    ensures Flatten(a + [t]) == Flatten(a) + [Place(t)] + Flatten(t.subCategories)
  {
    FlattenConcat(a, [t]);
    assert [t][1..] == [];
    assert Flatten([t]) == [Place(t)] + Flatten(t.subCategories);
  }

  /** `p` is the category a root path `q` ends in, at the depth of the path. */
  ghost predicate PlacedBy(cats: seq<DNSCategory>, q: seq<string>, p: Placed) {
    && q != [] && RootPath(cats, q)
    && exists c :: c in cats && c.categoryId == q[|q| - 1]
                   && p == Placed(c.categoryId, c.categoryName, c.enabled, |q| - 1)
  }

  /** `q` goes below `path` through one of the first `n` categories. */
  ghost predicate Through(cats: seq<DNSCategory>, path: seq<string>, n: nat, q: seq<string>)
    requires n <= |cats|
  {
    |q| > |path| && q[..|path|] == path && exists i :: 0 <= i < n && cats[i].categoryId == q[|path|]
  }

  ghost predicate PlacedBelow(cats: seq<DNSCategory>, path: seq<string>, n: nat, p: Placed)
    requires n <= |cats|
  {
    exists q :: Through(cats, path, n, q) && PlacedBy(cats, q, p)
  }

  ghost predicate DistinctIds(s: seq<Placed>) {
    forall i, j :: 0 <= i < j < |s| ==> s[i].categoryId != s[j].categoryId
  }

  /** A path that leaves `path` through the `n`-th category ends in it, or goes on below it. */
  lemma ThroughLast(cats: seq<DNSCategory>, path: seq<string>, n: nat, q: seq<string>)
    requires UniqueIds(cats) && RootPath(cats, q) && 0 < n <= |cats|
    requires |q| > |path| && q[..|path|] == path && q[|path|] == cats[n - 1].categoryId
    ensures cats[n - 1].parentCategoryId == ParentOf(path)
    ensures
      var longer := path + [cats[n - 1].categoryId];
      q == longer || Through(cats, longer, |cats|, q)
  {
    var c := cats[n - 1];
    var longer := path + [c.categoryId];
    PathPrefix(cats, q, |path|);
    SameParent(cats, c.categoryId, c.parentCategoryId, ParentOf(path));
    assert q[..|longer|] == longer;
    if |q| > |longer| {
      PathPrefix(cats, q, |longer|);
      InTable(cats, q[|longer|], ParentOf(longer));
    } else {
      assert q == q[..|longer|];
    }
  }

  lemma InTable(cats: seq<DNSCategory>, id: string, parent: Option<string>)
    requires Linked(cats, id, parent)
    ensures exists i :: 0 <= i < |cats| && cats[i].categoryId == id
  {
    var c :| c in cats && c.categoryId == id;
    var i :| 0 <= i < |cats| && cats[i] == c;
  }

  lemma ThroughLonger(cats: seq<DNSCategory>, path: seq<string>, n: nat, q: seq<string>)
    requires 0 < n <= |cats|
    requires
      var longer := path + [cats[n - 1].categoryId];
      q == longer || Through(cats, longer, |cats|, q)
    ensures Through(cats, path, n, q)
  {
    var longer := path + [cats[n - 1].categoryId];
    assert q[..|longer|] == longer;
    assert q[..|path|] == longer[..|path|] == path;
    assert q[|path|] == q[..|longer|][|path|] == cats[n - 1].categoryId;
  }

  lemma ThroughNext(cats: seq<DNSCategory>, path: seq<string>, n: nat, q: seq<string>)
    requires UniqueIds(cats) && RootPath(cats, q) && 0 < n <= |cats|
    ensures
      var c := cats[n - 1];
      Through(cats, path, n, q) <==>
      || Through(cats, path, n - 1, q)
      || (c.parentCategoryId == ParentOf(path)
          && (q == path + [c.categoryId] || Through(cats, path + [c.categoryId], |cats|, q)))
  {
    var c := cats[n - 1];
    var longer := path + [c.categoryId];
    if Through(cats, path, n, q) && !Through(cats, path, n - 1, q) {
      ThroughLast(cats, path, n, q);
    }
    if q == longer || Through(cats, longer, |cats|, q) {
      ThroughLonger(cats, path, n, q);
    }
  }

  /** The place at the end of one path is one. */
  lemma PlacedAtEnd(cats: seq<DNSCategory>, path: seq<string>, c: DNSCategory, p: Placed)
    requires UniqueIds(cats) && RootPath(cats, path + [c.categoryId]) && c in cats
    ensures PlacedBy(cats, path + [c.categoryId], p) <==> p == Placed(c.categoryId, c.categoryName, c.enabled, |path|)
  {
  }

  lemma PlacedNext(cats: seq<DNSCategory>, path: seq<string>, n: nat, p: Placed)
    requires UniqueIds(cats) && RootPath(cats, path) && 0 < n <= |cats|
    ensures
      var c := cats[n - 1];
      PlacedBelow(cats, path, n, p) <==>
      || PlacedBelow(cats, path, n - 1, p)
      || (c.parentCategoryId == ParentOf(path)
          && (p == Placed(c.categoryId, c.categoryName, c.enabled, |path|)
              || PlacedBelow(cats, path + [c.categoryId], |cats|, p)))
  {
    var c := cats[n - 1];
    var longer := path + [c.categoryId];
    if c.parentCategoryId == ParentOf(path) {
      PathGrows(cats, path, c);
      PlacedAtEnd(cats, path, c, p);
      ThroughNext(cats, path, n, longer);
    }
    forall q | PlacedBy(cats, q, p)
      ensures Through(cats, path, n, q) <==>
              || Through(cats, path, n - 1, q)
              || (c.parentCategoryId == ParentOf(path) && (q == longer || Through(cats, longer, |cats|, q)))
    {
      ThroughNext(cats, path, n, q);
    }
  }

  /** A forest below a path lists exactly the categories that paths through it lead to. */
  lemma {:induction false} ForestHoldsPlaced(cats: seq<DNSCategory>, path: seq<string>, n: nat, p: Placed)
    requires UniqueIds(cats) && RootPath(cats, path) && n <= |cats|
    ensures p in Flatten(Below(cats, path, n)) <==> PlacedBelow(cats, path, n, p)
    decreases Ids(cats) - Elements(path), n
  {
    if n == 0 {
    } else {
      var c := cats[n - 1];
      ForestHoldsPlaced(cats, path, n - 1, p);
      PlacedNext(cats, path, n, p);
      if c.parentCategoryId == ParentOf(path) {
        PathGrows(cats, path, c);
        var longer := path + [c.categoryId];
        ForestHoldsPlaced(cats, longer, |cats|, p);
        FlattenSnoc(Below(cats, path, n - 1), Node(c, |path|, Below(cats, longer, |cats|)));
      }
    }
  }

  /** Paths that leave a path through different categories are different. */
  lemma PathsApart(cats: seq<DNSCategory>, path: seq<string>, n: nat, q: seq<string>, q': seq<string>)
    requires UniqueIds(cats) && 0 < n <= |cats| && Through(cats, path, n - 1, q)
    requires
      var longer := path + [cats[n - 1].categoryId];
      q' == longer || Through(cats, longer, |cats|, q')
    ensures q != q'
  {
    var longer := path + [cats[n - 1].categoryId];
    assert q'[..|longer|][|path|] == longer[|path|];
  }

  lemma SamePlace(cats: seq<DNSCategory>, q: seq<string>, q': seq<string>, p: Placed, p': Placed)
    requires UniqueIds(cats) && PlacedBy(cats, q, p) && PlacedBy(cats, q', p') && q != q'
    ensures p.categoryId != p'.categoryId
  {
    if q[|q| - 1] == q'[|q'| - 1] {
      RootPathUnique(cats, q, q');
    }
  }

  /** Places reached through different categories right below a path have different ids. */
  lemma PlacedApart(cats: seq<DNSCategory>, path: seq<string>, n: nat, p: Placed, p': Placed)
    requires UniqueIds(cats) && 0 < n <= |cats| && PlacedBelow(cats, path, n - 1, p)
    requires
      var longer := path + [cats[n - 1].categoryId];
      PlacedBelow(cats, longer, |cats|, p') || PlacedBy(cats, longer, p')
    ensures p.categoryId != p'.categoryId
  {
    var longer := path + [cats[n - 1].categoryId];
    var q :| Through(cats, path, n - 1, q) && PlacedBy(cats, q, p);
    var q' := longer;
    if !PlacedBy(cats, longer, p') {
      q' :| Through(cats, longer, |cats|, q') && PlacedBy(cats, q', p');
    }
    PathsApart(cats, path, n, q, q');
    SamePlace(cats, q, q', p, p');
  }

  /** A place strictly below a path is not the end of the path. */
  lemma PlacedDeeper(cats: seq<DNSCategory>, path: seq<string>, p: Placed)
    requires UniqueIds(cats) && RootPath(cats, path) && path != [] && PlacedBelow(cats, path, |cats|, p)
    ensures p.categoryId != path[|path| - 1]
  {
    var q :| Through(cats, path, |cats|, q) && PlacedBy(cats, q, p);
    if p.categoryId == path[|path| - 1] {
      RootPathUnique(cats, q, path);
    }
  }

  lemma DistinctConcat(a: seq<Placed>, p: Placed, b: seq<Placed>)
    requires DistinctIds(a) && DistinctIds(b)
    requires forall x :: x in b ==> x.categoryId != p.categoryId
    requires forall x, y :: x in a && (y == p || y in b) ==> x.categoryId != y.categoryId
    ensures DistinctIds(a + [p] + b)
  {
    var s := a + [p] + b;
    forall i, j | 0 <= i < j < |s|
      ensures s[i].categoryId != s[j].categoryId
    {
      if i < |a| {
        assert s[i] == a[i];
        if j >= |a| {
          assert s[i] in a && (s[j] == p || s[j] in b);
        }
      } else {
        assert s[j] == b[j - |a| - 1];
      }
    }
  }

  /** Adding one more subtree keeps the ids apart. */
  lemma SubtreeApart(cats: seq<DNSCategory>, path: seq<string>, n: nat, here: Placed, a: seq<Placed>, b: seq<Placed>)
    requires UniqueIds(cats) && RootPath(cats, path) && 0 < n <= |cats| && DistinctIds(a) && DistinctIds(b)
    requires RootPath(cats, path + [cats[n - 1].categoryId])
    requires PlacedBy(cats, path + [cats[n - 1].categoryId], here)
    requires forall p :: p in a ==> PlacedBelow(cats, path, n - 1, p)
    requires forall p :: p in b ==> PlacedBelow(cats, path + [cats[n - 1].categoryId], |cats|, p)
    ensures DistinctIds(a + [here] + b)
  {
    var longer := path + [cats[n - 1].categoryId];
    forall y | y in b
      ensures y.categoryId != here.categoryId
    {
      PlacedDeeper(cats, longer, y);
    }
    forall x, y | x in a && (y == here || y in b)
      ensures x.categoryId != y.categoryId
    {
      PlacedApart(cats, path, n, x, y);
    }
    DistinctConcat(a, here, b);
  }

  lemma {:induction false} ForestDistinct(cats: seq<DNSCategory>, path: seq<string>, n: nat)
    requires UniqueIds(cats) && RootPath(cats, path) && n <= |cats|
    ensures DistinctIds(Flatten(Below(cats, path, n)))
    decreases Ids(cats) - Elements(path), n
  {
    if n == 0 {
    } else {
      var c := cats[n - 1];
      ForestDistinct(cats, path, n - 1);
      if c.parentCategoryId == ParentOf(path) {
        PathGrows(cats, path, c);
        var longer := path + [c.categoryId];
        var before, subs := Below(cats, path, n - 1), Below(cats, longer, |cats|);
        ForestDistinct(cats, longer, |cats|);
        var here := Placed(c.categoryId, c.categoryName, c.enabled, |path|);
        PlacedAtEnd(cats, path, c, here);
        forall p
          ensures p in Flatten(before) <==> PlacedBelow(cats, path, n - 1, p)
          ensures p in Flatten(subs) <==> PlacedBelow(cats, longer, |cats|, p)
        {
          ForestHoldsPlaced(cats, path, n - 1, p);
          ForestHoldsPlaced(cats, longer, |cats|, p);
        }
        SubtreeApart(cats, path, n, here, Flatten(before), Flatten(subs));
        FlattenSnoc(before, Node(c, |path|, subs));
      }
    }
  }

  /** The whole forest: each category whose parent chain reaches a root, once, at the depth of its
    * chain, and no other. */
  lemma ForestExactly(cats: seq<DNSCategory>)
    requires UniqueIds(cats)
    ensures
      var placed := Flatten(Below(cats, [], |cats|));
      DistinctIds(placed) && forall p :: p in placed <==> exists q :: PlacedBy(cats, q, p)
  {
    ForestDistinct(cats, [], |cats|);
    forall p
      ensures p in Flatten(Below(cats, [], |cats|)) <==> exists q :: PlacedBy(cats, q, p)
    {
      ForestHoldsPlaced(cats, [], |cats|, p);
      forall q | PlacedBy(cats, q, p)
        ensures Through(cats, [], |cats|, q)
      {
        PathPrefix(cats, q, 0);
      }
    }
  }
}
