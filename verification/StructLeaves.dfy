/** What the breadth-first walk yields: every settable leaf once, shallow leaves first. */
module StructLeaves {
  import opened Outcomes
  import opened StructWalk

  // ---------------------------------------------------------------- the recursive traversal

  /** Depth-first, in field order, over the item's first fields. */
  function Dfs(item: Item, n: nat): seq<Meta>
    requires n <= |item.s.fields|
    decreases item.s, n, 1
  {
    if n == 0 then [] else Dfs(item, n - 1) + DfsLast(item, n)
  }

  /** What the n-th field adds to the traversal. */
  function DfsLast(item: Item, n: nat): seq<Meta>
    requires 0 < n <= |item.s.fields|
    decreases item.s, n, 0
  {
    var f := item.s.fields[n - 1];
    var path := item.path + [n - 1];
    if f.Nested? then Dfs(Item(path, f.s, true), |f.s.fields|)
    else if f.exported && item.addressable then [MetaOf(path, f)]
    else []
  }

  function AllDfs(items: seq<Item>): seq<Meta> {
    if items == [] then [] else Dfs(items[0], |items[0].s.fields|) + AllDfs(items[1..])
  }

  lemma {:induction false} AllDfsConcat(a: seq<Item>, b: seq<Item>)
    ensures AllDfs(a + b) == AllDfs(a) + AllDfs(b)
    decreases |a|
  {
    if a == [] {
      assert a + b == b;
    } else {
      assert (a + b)[1..] == a[1..] + b;
      AllDfsConcat(a[1..], b);
    }
  }

  lemma OnlyKid(kid: Item)
    ensures AllDfs([kid]) == Dfs(kid, |kid.s.fields|)
  {
    assert [kid][1..] == [];
    assert AllDfs([kid][1..]) == [];
  }

  /** One more field adds either a leaf of the item's own, or all that is below a nested struct. */
  lemma DfsStep(item: Item, n: nat) returns (own: seq<Meta>, below: seq<Meta>)
    requires 0 < n <= |item.s.fields|
    ensures Dfs(item, n) == Dfs(item, n - 1) + (own + below)
    ensures Own(item, n) == Own(item, n - 1) + own
    ensures AllDfs(Kids(item, n)) == AllDfs(Kids(item, n - 1)) + below
  {
    var f := item.s.fields[n - 1];
    own, below := [], [];
    if f.Nested? {
      var kid := Item(item.path + [n - 1], f.s, true);
      AllDfsConcat(Kids(item, n - 1), [kid]);
      OnlyKid(kid);
      below := Dfs(kid, |f.s.fields|);
      assert own + below == below;
    } else {
      assert Kids(item, n) == Kids(item, n - 1);
      if f.exported && item.addressable {
        own := [MetaOf(item.path + [n - 1], f)];
      }
    }
  }

  ghost predicate Splits(dfs: seq<Meta>, own: seq<Meta>, below: seq<Meta>) {
    multiset(dfs) == multiset(own) + multiset(below)
  }

  lemma {:induction false} DfsIsOwnAndKids(item: Item, n: nat)
    requires n <= |item.s.fields|
    ensures Splits(Dfs(item, n), Own(item, n), AllDfs(Kids(item, n)))
  {
    if n == 0 {
      assert AllDfs(Kids(item, 0)) == [] == Own(item, 0) == Dfs(item, 0);
    } else {
      DfsIsOwnAndKids(item, n - 1);
      var own, below := DfsStep(item, n);
      Regroup(Dfs(item, n - 1), Own(item, n - 1), AllDfs(Kids(item, n - 1)), own, below,
              Dfs(item, n), Own(item, n), AllDfs(Kids(item, n)));
    }
  }

  lemma Regroup(all: seq<Meta>, left: seq<Meta>, right: seq<Meta>, l: seq<Meta>, r: seq<Meta>,
                all': seq<Meta>, left': seq<Meta>, right': seq<Meta>)
    requires Splits(all, left, right)
    requires all' == all + (l + r) && left' == left + l && right' == right + r
    ensures Splits(all', left', right')
  {
  }

  lemma {:induction false} LevelIsOwnAndKids(items: seq<Item>)
    ensures multiset(AllDfs(items)) == multiset(AllOwn(items)) + multiset(AllDfs(AllKids(items)))
  {
    if items != [] {
      LevelIsOwnAndKids(items[1..]);
      DfsIsOwnAndKids(items[0], |items[0].s.fields|);
      AllDfsConcat(Kids(items[0], |items[0].s.fields|), AllKids(items[1..]));
    }
  }

  /** Level order is a rearrangement of the recursive traversal. */
  lemma {:induction false} LevelOrderPermutesDfs(items: seq<Item>)
    ensures multiset(LevelOrder(items)) == multiset(AllDfs(items))
    decreases Size(items)
  {
    if items != [] {
      KidsShrink(items);
      LevelOrderPermutesDfs(AllKids(items));
      LevelIsOwnAndKids(items);
    }
  }

  // ---------------------------------------------------------------- shallow first

  ghost predicate AtDepth(items: seq<Item>, depth: nat) {
    forall item :: item in items ==> |item.path| == depth
  }

  lemma {:induction false} OwnDepth(item: Item, n: nat)
    requires n <= |item.s.fields|
    ensures forall m :: m in Own(item, n) ==> |m.path| == |item.path| + 1
    ensures AtDepth(Kids(item, n), |item.path| + 1)
  {
    if n > 0 {
      OwnDepth(item, n - 1);
    }
  }

  lemma {:induction false} LevelDepth(items: seq<Item>, depth: nat)
    requires AtDepth(items, depth)
    ensures forall m :: m in AllOwn(items) ==> |m.path| == depth + 1
    ensures AtDepth(AllKids(items), depth + 1)
  {
    if items != [] {
      assert AtDepth(items[1..], depth);
      LevelDepth(items[1..], depth);
      OwnDepth(items[0], |items[0].s.fields|);
    }
  }

  /** All lie deeper than `depth`, and none before a shallower one. */
  ghost predicate Deepens(metas: seq<Meta>, depth: nat) {
    && (forall m :: m in metas ==> |m.path| > depth)
    && (forall i, j :: 0 <= i < j < |metas| ==> |metas[i].path| <= |metas[j].path|)
  }

  lemma DeepensAppend(level: seq<Meta>, deeper: seq<Meta>, depth: nat)
    requires (forall m :: m in level ==> |m.path| == depth + 1) && Deepens(deeper, depth + 1)
    ensures Deepens(level + deeper, depth)
  {
    var metas := level + deeper;
    forall i, j | 0 <= i < j < |metas|
      ensures |metas[i].path| <= |metas[j].path|
    {
      assert i < |level| ==> metas[i] in level;
      assert if j < |level| then metas[j] in level else metas[j] in deeper;
      assert i >= |level| ==> metas[i] == deeper[i - |level|] && metas[j] == deeper[j - |level|];
    }
  }

  /** Main result: a leaf never comes before a shallower one. */
  lemma {:induction false} ShallowFirst(items: seq<Item>, depth: nat)
    requires AtDepth(items, depth)
    ensures Deepens(LevelOrder(items), depth)
    decreases Size(items)
  {
    if items != [] {
      KidsShrink(items);
      LevelDepth(items, depth);
      ShallowFirst(AllKids(items), depth + 1);
      DeepensAppend(AllOwn(items), LevelOrder(AllKids(items)), depth);
    }
  }

  // ---------------------------------------------------------------- every leaf once

  /** The field a path leads to, if it is a leaf that can be set. */
  function SettableAt(s: Struct, addressable: bool, path: Path): Option<Field>
    decreases s
  {
    if path == [] || path[0] >= |s.fields| then None
    else
      var f := s.fields[path[0]];
      if f.Nested? then SettableAt(f.s, true, path[1..])
      else if |path| == 1 && f.exported && addressable then Some(f)
      else None
  }

  lemma SettableIsLeaf(s: Struct, addressable: bool, path: Path)
    ensures SettableAt(s, addressable, path).Some? ==> SettableAt(s, addressable, path).value.Leaf?
    decreases s
  {
  }

  /** `m` is the metadata of the settable leaf at `path` below the item. */
  predicate Describes(m: Meta, item: Item, path: Path) {
    var f := SettableAt(item.s, item.addressable, path);
    f.Some? && f.value.Leaf? && m == MetaOf(item.path + path, f.value)
  }

  predicate Distinct(metas: seq<Meta>) {
    forall i, j :: 0 <= i < j < |metas| ==> metas[i].path != metas[j].path
  }

  /** The traversal finds a leaf below an item exactly if its path starts with one of the first fields. */
  lemma {:induction false} DfsFinds(item: Item, n: nat, path: Path, m: Meta)
    requires n <= |item.s.fields|
    requires Describes(m, item, path) && path[0] < n
    ensures m in Dfs(item, n)
    decreases item.s, n
  {
    var f := item.s.fields[n - 1];
    if path[0] < n - 1 {
      DfsFinds(item, n - 1, path, m);
    } else if f.Nested? {
      var kid := Item(item.path + [n - 1], f.s, true);
      assert item.path + path == kid.path + path[1..];
      DfsFinds(kid, |f.s.fields|, path[1..], m);
    } else {
      assert path == [n - 1];
    }
  }

  /** A leaf below a nested struct is a leaf below the struct that nests it. */
  lemma DescribesBelow(m: Meta, item: Item, n: nat, below: Path)
    requires 0 < n <= |item.s.fields| && item.s.fields[n - 1].Nested?
    requires Describes(m, Item(item.path + [n - 1], item.s.fields[n - 1].s, true), below)
    ensures Describes(m, item, [n - 1] + below)
  {
    var path := [n - 1] + below;
    assert path[1..] == below;
    assert item.path + path == item.path + [n - 1] + below;
  }

  lemma {:induction false} DfsFindsOnly(item: Item, n: nat, m: Meta) returns (path: Path)
    requires n <= |item.s.fields| && m in Dfs(item, n)
    ensures Describes(m, item, path) && path[0] < n && m.path == item.path + path
    decreases item.s, n
  {
    if m in Dfs(item, n - 1) {
      path := DfsFindsOnly(item, n - 1, m);
    } else {
      assert m in DfsLast(item, n);
      var f := item.s.fields[n - 1];
      if f.Nested? {
        var below := DfsFindsOnly(Item(item.path + [n - 1], f.s, true), |f.s.fields|, m);
        path := [n - 1] + below;
        DescribesBelow(m, item, n, below);
      } else {
        path := [n - 1];
      }
    }
  }

  lemma {:induction false} DfsDistinct(item: Item, n: nat)
    requires n <= |item.s.fields|
    ensures Distinct(Dfs(item, n))
    decreases item.s, n
  {
    if n > 0 {
      DfsDistinct(item, n - 1);
      var f := item.s.fields[n - 1];
      var a := Dfs(item, n - 1);
      var b := DfsLast(item, n);
      if f.Nested? {
        DfsDistinct(Item(item.path + [n - 1], f.s, true), |f.s.fields|);
      }
      forall i, j | 0 <= i < |a| && 0 <= j < |b|
        ensures a[i].path != b[j].path
      {
        var p := DfsFindsOnly(item, n - 1, a[i]);
        assert a[i].path[|item.path|] == p[0] < n - 1;
        assert b[j].path[|item.path|] == n - 1 by {
          LastFieldPaths(item, n, b[j]);
        }
      }
    }
  }

  lemma LastFieldPaths(item: Item, n: nat, m: Meta)
    requires 0 < n <= |item.s.fields| && m in DfsLast(item, n)
    ensures |m.path| > |item.path| && m.path[|item.path|] == n - 1
  {
    var f := item.s.fields[n - 1];
    if f.Nested? {
      var kid := Item(item.path + [n - 1], f.s, true);
      var path := DfsFindsOnly(kid, |f.s.fields|, m);
    }
  }

  lemma {:induction false} DistinctCounts(metas: seq<Meta>, m: Meta)
    requires Distinct(metas)
    ensures multiset(metas)[m] == if m in metas then 1 else 0
  {
    if metas != [] {
      var n := |metas| - 1;
      DistinctCounts(metas[..n], m);
      assert metas == metas[..n] + [metas[n]];
    }
  }

  lemma {:induction false} CountsDistinct(metas: seq<Meta>, i: nat, j: nat)
    requires i < j < |metas| && metas[i] == metas[j]
    ensures multiset(metas)[metas[i]] >= 2
  {
    assert metas == metas[..j] + [metas[j]] + metas[j + 1..];
    assert metas[..j][i] == metas[i];
    assert metas[i] in multiset(metas[..j]);
  }

  /**
   * Main result: for every finite nesting, the walk yields each settable leaf exactly once, with
   * the metadata of its tags, and nothing else; no two entries share a path.
   */
  lemma EveryLeafOnce(s: Struct, addressable: bool)
    ensures var metas := LevelOrder([Item([], s, addressable)]);
            && multiset(metas) == multiset(Dfs(Item([], s, addressable), |s.fields|))
            && Distinct(metas)
            && (forall m :: m in metas ==> SettableAt(s, addressable, m.path).Some?
                                           && Describes(m, Item([], s, addressable), m.path))
            && (forall path, m :: Describes(m, Item([], s, addressable), path) ==> multiset(metas)[m] == 1)
  {
    var root := Item([], s, addressable);
    var metas, dfs := LevelOrder([root]), Dfs(root, |s.fields|);
    LevelOrderPermutesDfs([root]);
    OnlyKid(root);
    DfsDistinct(root, |s.fields|);
    forall m | m in metas
      ensures Describes(m, root, m.path)
    {
      assert m in multiset(metas);
      var path := DfsFindsOnly(root, |s.fields|, m);
      assert [] + path == path;
    }
    forall path, m | Describes(m, root, path)
      ensures multiset(metas)[m] == 1
    {
      DfsFinds(root, |s.fields|, path, m);
      DistinctCounts(dfs, m);
    }
    forall i, j | 0 <= i < j < |metas|
      ensures metas[i].path != metas[j].path
    {
      if metas[i].path == metas[j].path {
        assert metas[i] in metas && metas[j] in metas;
        assert metas[i] == metas[j];
        CountsDistinct(metas, i, j);
      }
    }
  }

  // ---------------------------------------------------------------- by paths

  /** The field a path of indices leads to, leaf or nested struct. */
  function FieldAt(s: Struct, path: Path): Option<Field>
    decreases s
  {
    if path == [] || path[0] >= |s.fields| then None
    else if |path| == 1 then Some(s.fields[path[0]])
    else if s.fields[path[0]].Nested? then FieldAt(s.fields[path[0]].s, path[1..])
    else None
  }

  /** A leaf can be set exactly if it is exported and its struct addressable, as every nested one is. */
  lemma {:induction false} SettableIff(s: Struct, addressable: bool, path: Path, f: Field)
    ensures SettableAt(s, addressable, path) == Some(f)
       <==> FieldAt(s, path) == Some(f) && f.Leaf? && f.exported && (addressable || |path| > 1)
    decreases s
  {
    if path != [] && path[0] < |s.fields| && s.fields[path[0]].Nested? {
      SettableIff(s.fields[path[0]].s, true, path[1..], f);
    }
  }

  /** No path leads to a nested struct whose address cannot be taken. */
  ghost predicate NoneClosed(s: Struct, addressable: bool) {
    forall path :: FieldAt(s, path).Some? && FieldAt(s, path).value.Nested? ==>
      FieldAt(s, path).value.exported && (addressable || |path| > 1)
  }

  lemma {:induction false} AllOpenIff(s: Struct, addressable: bool)
    ensures AllOpen(s, addressable) <==> NoneClosed(s, addressable)
    decreases s
  {
    forall n | 0 <= n < |s.fields| && s.fields[n].Nested?
      ensures AllOpen(s.fields[n].s, true) <==> NoneClosed(s.fields[n].s, true)
      ensures NoneClosed(s, addressable) ==> s.fields[n].exported && addressable && NoneClosed(s.fields[n].s, true)
    {
      AllOpenIff(s.fields[n].s, true);
      NoneClosedBelow(s, addressable, n);
    }
    if AllOpen(s, addressable) {
      forall path | FieldAt(s, path).Some? && FieldAt(s, path).value.Nested?
        ensures FieldAt(s, path).value.exported && (addressable || |path| > 1)
      {
        if |path| > 1 {
          var f := s.fields[path[0]];
          assert AllOpen(f.s, true) && NoneClosed(f.s, true);
          assert FieldAt(f.s, path[1..]) == FieldAt(s, path);
        }
      }
    }
  }

  lemma NoneClosedBelow(s: Struct, addressable: bool, n: nat)
    requires n < |s.fields| && s.fields[n].Nested?
    ensures NoneClosed(s, addressable) ==> s.fields[n].exported && addressable && NoneClosed(s.fields[n].s, true)
  {
    assert FieldAt(s, [n]) == Some(s.fields[n]);
    if NoneClosed(s, addressable) {
      forall path | FieldAt(s.fields[n].s, path).Some? && FieldAt(s.fields[n].s, path).value.Nested?
        ensures FieldAt(s.fields[n].s, path).value.exported
      {
        assert ([n] + path)[1..] == path;
        assert FieldAt(s, [n] + path) == FieldAt(s.fields[n].s, path);
      }
    }
  }

  /** Main result: the walk gets through exactly if every nested struct is exported and none is passed by value. */
  lemma WalkableIff(root: Root)
    ensures Walkable(root) <==> !root.NotStruct? && NoneClosed(root.s, root.Pointer?)
  {
    if !root.NotStruct? {
      AllOpenIff(root.s, root.Pointer?);
    }
  }

  /** The first index at which the paths differ is smaller in the first. */
  predicate Precedes(a: Path, b: Path) {
    a != [] && b != [] && (a[0] < b[0] || (a[0] == b[0] && Precedes(a[1..], b[1..])))
  }

  lemma {:induction false} PrecedesLonger(a: Path, b: Path, m: nat, n: nat)
    ensures Precedes(a, b) && |a| == |b| ==> Precedes(a + [m], b + [n])
    ensures a == b && m < n ==> Precedes(a + [m], b + [n])
  {
    if a != [] && b != [] {
      assert (a + [m])[1..] == a[1..] + [m] && (b + [n])[1..] == b[1..] + [n];
      PrecedesLonger(a[1..], b[1..], m, n);
    }
  }

  /** The path of one of the first n fields of the struct at `base`. */
  predicate Extends(path: Path, base: Path, n: nat) {
    |path| == |base| + 1 && path[|base|] < n && path == base + [path[|base|]]
  }

  lemma ExtendsInOrder(a: Path, b: Path, base: Path, base': Path, n: nat, n': nat)
    requires |base| == |base'| && Extends(a, base, n) && Extends(b, base', n')
    ensures Precedes(base, base') ==> Precedes(a, b)
    ensures base == base' && a[|base|] < b[|base|] ==> Precedes(a, b)
  {
    PrecedesLonger(base, base', a[|base|], b[|base|]);
  }

  predicate InOrder(paths: seq<Path>) {
    forall i, j :: 0 <= i < j < |paths| ==> Precedes(paths[i], paths[j])
  }

  /** They are paths of first fields of the item, in order. */
  predicate FieldPaths(paths: seq<Path>, base: Path, n: nat) {
    InOrder(paths) && forall i :: 0 <= i < |paths| ==> Extends(paths[i], base, n)
  }

  function MetaPaths(metas: seq<Meta>): seq<Path> {
    seq(|metas|, i requires 0 <= i < |metas| => metas[i].path)
  }

  function ItemPaths(items: seq<Item>): seq<Path> {
    seq(|items|, i requires 0 <= i < |items| => items[i].path)
  }

  lemma PathsConcat(a: seq<Meta>, b: seq<Meta>, c: seq<Item>, d: seq<Item>)
    ensures MetaPaths(a + b) == MetaPaths(a) + MetaPaths(b)
    ensures ItemPaths(c + d) == ItemPaths(c) + ItemPaths(d)
  {
  }

  lemma OneMorePath(paths: seq<Path>, base: Path, n: nat)
    requires FieldPaths(paths, base, n)
    ensures FieldPaths(paths, base, n + 1) && FieldPaths(paths + [base + [n]], base, n + 1)
  {
    var more := paths + [base + [n]];
    forall i | 0 <= i < |paths|
      ensures Precedes(more[i], more[|paths|])
    {
      ExtendsInOrder(paths[i], base + [n], base, base, n, n + 1);
    }
  }

  lemma {:induction false} OwnInOrder(item: Item, n: nat)
    requires n <= |item.s.fields|
    ensures FieldPaths(MetaPaths(Own(item, n)), item.path, n) && FieldPaths(ItemPaths(Kids(item, n)), item.path, n)
  {
    if n > 0 {
      OwnInOrder(item, n - 1);
      var f, path := item.s.fields[n - 1], item.path + [n - 1];
      var own := if f.Leaf? && f.exported && item.addressable then [MetaOf(path, f)] else [];
      var kid := if f.Nested? then [Item(path, f.s, true)] else [];
      PathsConcat(Own(item, n - 1), own, Kids(item, n - 1), kid);
      OnePath(MetaPaths(Own(item, n - 1)), MetaPaths(own), item.path, n - 1);
      OnePath(ItemPaths(Kids(item, n - 1)), ItemPaths(kid), item.path, n - 1);
    }
  }

  lemma OnePath(paths: seq<Path>, more: seq<Path>, base: Path, n: nat)
    requires FieldPaths(paths, base, n) && (more == [] || more == [base + [n]])
    ensures FieldPaths(paths + more, base, n + 1)
  {
    OneMorePath(paths, base, n);
    assert more == [] ==> paths + more == paths;
  }

  ghost predicate ExtendsOne(path: Path, bases: seq<Path>) {
    exists k, n :: 0 <= k < |bases| && Extends(path, bases[k], n)
  }

  /** In order, and each the path of a field of the struct at one of the bases. */
  ghost predicate InOrderBelow(paths: seq<Path>, bases: seq<Path>) {
    InOrder(paths) && forall i :: 0 <= i < |paths| ==> ExtendsOne(paths[i], bases)
  }

  lemma BelowFirst(first: seq<Path>, rest: seq<Path>, base: Path, n: nat, bases: seq<Path>)
    requires FieldPaths(first, base, n) && InOrderBelow(rest, bases)
    requires InOrder([base] + bases) && forall i :: 0 <= i < |bases| ==> |bases[i]| == |base|
    ensures InOrder(first + rest)
  {
    forall i, j | 0 <= i < |first| && 0 <= j < |rest|
      ensures Precedes(first[i], rest[j])
    {
      var k, m :| 0 <= k < |bases| && Extends(rest[j], bases[k], m);
      assert ([base] + bases)[0] == base && ([base] + bases)[k + 1] == bases[k];
      ExtendsInOrder(first[i], rest[j], base, bases[k], n, m);
    }
  }

  lemma BelowAppend(first: seq<Path>, rest: seq<Path>, base: Path, n: nat, bases: seq<Path>)
    requires FieldPaths(first, base, n) && InOrderBelow(rest, bases)
    requires InOrder([base] + bases) && forall i :: 0 <= i < |bases| ==> |bases[i]| == |base|
    ensures InOrderBelow(first + rest, [base] + bases)
  {
    BelowFirst(first, rest, base, n, bases);
    forall i | 0 <= i < |first + rest|
      ensures ExtendsOne((first + rest)[i], [base] + bases)
    {
      if i < |first| {
        assert Extends(first[i], ([base] + bases)[0], n);
      } else {
        var k, m :| 0 <= k < |bases| && Extends(rest[i - |first|], bases[k], m);
        assert ([base] + bases)[k + 1] == bases[k];
      }
    }
  }

  lemma LevelPaths(items: seq<Item>)
    requires items != []
    ensures var n := |items[0].s.fields|;
            && ItemPaths(items) == [items[0].path] + ItemPaths(items[1..])
            && MetaPaths(AllOwn(items)) == MetaPaths(Own(items[0], n)) + MetaPaths(AllOwn(items[1..]))
            && ItemPaths(AllKids(items)) == ItemPaths(Kids(items[0], n)) + ItemPaths(AllKids(items[1..]))
  {
    var n := |items[0].s.fields|;
    PathsConcat(Own(items[0], n), AllOwn(items[1..]), Kids(items[0], n), AllKids(items[1..]));
    FirstPath(items);
  }

  lemma FirstPath(items: seq<Item>)
    requires items != []
    ensures ItemPaths(items) == [items[0].path] + ItemPaths(items[1..])
  {
  }

  /** One level in order of paths makes its leaves and the next level so. */
  lemma {:induction false} LevelInOrder(items: seq<Item>, depth: nat)
    requires AtDepth(items, depth) && InOrder(ItemPaths(items))
    ensures InOrderBelow(MetaPaths(AllOwn(items)), ItemPaths(items))
    ensures InOrderBelow(ItemPaths(AllKids(items)), ItemPaths(items))
  {
    if items != [] {
      var n, base, bases := |items[0].s.fields|, items[0].path, ItemPaths(items[1..]);
      LevelPaths(items);
      assert forall i :: 0 <= i < |bases| ==> bases[i] == ItemPaths(items)[i + 1];
      assert forall i :: 0 <= i < |bases| ==> items[1..][i] in items;
      LevelInOrder(items[1..], depth);
      OwnInOrder(items[0], n);
      BelowAppend(MetaPaths(Own(items[0], n)), MetaPaths(AllOwn(items[1..])), base, n, bases);
      BelowAppend(ItemPaths(Kids(items[0], n)), ItemPaths(AllKids(items[1..])), base, n, bases);
    }
  }

  /** Leaves of one depth stand in the order of their paths. */
  ghost predicate LevelsInOrder(metas: seq<Meta>) {
    forall i, j :: 0 <= i < j < |metas| && |metas[i].path| == |metas[j].path| ==> Precedes(metas[i].path, metas[j].path)
  }

  /** Main result: with ShallowFirst it fixes the whole order, level by level and in field order within a level. */
  lemma {:induction false} FieldOrderWithinLevel(items: seq<Item>, depth: nat)
    requires AtDepth(items, depth) && InOrder(ItemPaths(items))
    ensures LevelsInOrder(LevelOrder(items))
    decreases Size(items)
  {
    if items != [] {
      KidsShrink(items);
      LevelInOrder(items, depth);
      LevelDepth(items, depth);
      FieldOrderWithinLevel(AllKids(items), depth + 1);
      ShallowFirst(AllKids(items), depth + 1);
      LevelsAppend(AllOwn(items), LevelOrder(AllKids(items)), depth);
    }
  }

  lemma LevelsAppend(level: seq<Meta>, deeper: seq<Meta>, depth: nat)
    requires (forall m :: m in level ==> |m.path| == depth + 1) && InOrder(MetaPaths(level))
    requires LevelsInOrder(deeper) && Deepens(deeper, depth + 1)
    ensures LevelsInOrder(level + deeper)
  {
    var metas := level + deeper;
    forall i, j | 0 <= i < j < |metas| && |metas[i].path| == |metas[j].path|
      ensures Precedes(metas[i].path, metas[j].path)
    {
      if j < |level| {
        assert MetaPaths(level)[i] == metas[i].path && MetaPaths(level)[j] == metas[j].path;
      } else {
        assert metas[j] == deeper[j - |level|] && metas[j] in deeper;
        assert metas[i] !in level;
        assert metas[i] == deeper[i - |level|];
      }
    }
  }
}
