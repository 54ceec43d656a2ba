/**
 * pkg/ika readStructMetadata: the breadth-first walk over a configuration struct. Reflection is
 * replaced by a datatype of struct types; a field is addressed by its path of field indices.
 */
module StructWalk {
  import opened Outcomes
  import opened Text

  datatype Type =
    | TString
    | TBool
    | TInt(bits: nat)
    | TDuration
    | TUint(bits: nat)
    | TFloat(bits: nat)
    | TTime
    | TSlice(elem: Type)
    | TMap(key: Type, elem: Type)
    | TStruct(fields: seq<Type>)
    | TUnsupported

  datatype Tags = Tags(env: Option<string>, envDefault: Option<string>, envLayout: Option<string>,
                       envSeparator: Option<string>, envUpd: bool, envRequired: bool)

  /** A nested struct, or any other field; time.Time is a leaf. */
  datatype Field =
    | Leaf(name: string, exported: bool, ty: Type, tags: Tags)
    | Nested(name: string, exported: bool, s: Struct)

  datatype Struct = Struct(fields: seq<Field>)

  type Path = seq<nat>

  datatype Meta = Meta(envList: seq<string>, fieldName: string, path: Path, ty: Type, defValue: Option<string>,
                       layout: Option<string>, separator: string, updatable: bool, required: bool)

  /** The argument: a pointer to a struct, a struct (not addressable), or something else. */
  datatype Root = Pointer(s: Struct) | ByValue(s: Struct) | NotStruct

  datatype Walk = Metas(metas: seq<Meta>) | WrongType | Panic

  /** An element of cfgStack. */
  datatype Item = Item(path: Path, s: Struct, addressable: bool)

  const DEFAULT_SEPARATOR := ","

  function MetaOf(path: Path, f: Field): Meta
    requires f.Leaf?
  {
    Meta(if f.tags.env.Some? && f.tags.env.value != "" then Split(f.tags.env.value, DEFAULT_SEPARATOR) else [],
         f.name, path, f.ty, f.tags.envDefault,
         if f.ty.TTime? then f.tags.envLayout else None,
         f.tags.envSeparator.GetOr(DEFAULT_SEPARATOR), f.tags.envUpd, f.tags.envRequired)
  }

  // ---------------------------------------------------------------- level order

  /** The settable leaves among an item's first fields. */
  function Own(item: Item, n: nat): seq<Meta>
    requires n <= |item.s.fields|
  {
    if n == 0 then []
    else
      var f := item.s.fields[n - 1];
      Own(item, n - 1) + if f.Leaf? && f.exported && item.addressable then [MetaOf(item.path + [n - 1], f)] else []
  }

  /** The nested structs among an item's first fields. */
  function Kids(item: Item, n: nat): seq<Item>
    requires n <= |item.s.fields|
  {
    if n == 0 then []
    else
      var f := item.s.fields[n - 1];
      Kids(item, n - 1) + if f.Nested? then [Item(item.path + [n - 1], f.s, true)] else []
  }

  function AllOwn(items: seq<Item>): seq<Meta> {
    if items == [] then [] else Own(items[0], |items[0].s.fields|) + AllOwn(items[1..])
  }

  function AllKids(items: seq<Item>): seq<Item> {
    if items == [] then [] else Kids(items[0], |items[0].s.fields|) + AllKids(items[1..])
  }

  /** How many structs there are below and including the items. */
  function Size(items: seq<Item>): nat
    decreases items
  {
    if items == [] then 0 else SizeOf(items[0].s) + Size(items[1..])
  }

  function SizeOf(s: Struct): (n: nat)
    ensures n > 0
  {
    1 + SizeOfFields(s, |s.fields|)
  }

  function SizeOfFields(s: Struct, n: nat): nat
    requires n <= |s.fields|
    decreases s, n
  {
    if n == 0 then 0 else SizeOfFields(s, n - 1) + if s.fields[n - 1].Nested? then SizeOf(s.fields[n - 1].s) else 0
  }

  lemma {:induction false} SizeConcat(a: seq<Item>, b: seq<Item>)
    ensures Size(a + b) == Size(a) + Size(b)
    decreases |a|
  {
    if a == [] {
      assert a + b == b;
    } else {
      assert (a + b)[1..] == a[1..] + b;
      SizeConcat(a[1..], b);
    }
  }

  lemma {:induction false} KidsSize(item: Item, n: nat)
    requires n <= |item.s.fields|
    ensures Size(Kids(item, n)) == SizeOfFields(item.s, n)
  {
    if n > 0 {
      KidsSize(item, n - 1);
      var f := item.s.fields[n - 1];
      if f.Nested? {
        var kid := [Item(item.path + [n - 1], f.s, true)];
        assert Size(kid) == SizeOf(f.s) + Size(kid[1..]) == SizeOf(f.s);
        SizeConcat(Kids(item, n - 1), kid);
      } else {
        assert Kids(item, n) == Kids(item, n - 1);
      }
    }
  }

  /** Popping an item and pushing its kids leaves one struct fewer to visit. */
  lemma PopShrinks(queue: seq<Item>)
    requires queue != []
    ensures Size(queue[1..] + Kids(queue[0], |queue[0].s.fields|)) == Size(queue) - 1
  {
    KidsSize(queue[0], |queue[0].s.fields|);
    SizeConcat(queue[1..], Kids(queue[0], |queue[0].s.fields|));
  }

  lemma {:induction false} KidsShrink(items: seq<Item>)
    ensures Size(AllKids(items)) == Size(items) - |items|
    decreases |items|
  {
    if items != [] {
      KidsShrink(items[1..]);
      KidsSize(items[0], |items[0].s.fields|);
      SizeConcat(Kids(items[0], |items[0].s.fields|), AllKids(items[1..]));
    }
  }

  /** All leaves of one level, then those of the next. */
  function LevelOrder(items: seq<Item>): seq<Meta>
    decreases Size(items)
  {
    if items == [] then []
    else
      KidsShrink(items);
      AllOwn(items) + LevelOrder(AllKids(items))
  }

  /** What the growing worklist yields. */
  function Queue(queue: seq<Item>): seq<Meta>
    decreases Size(queue)
  {
    if queue == [] then []
    else
      PopShrinks(queue);
      Own(queue[0], |queue[0].s.fields|) + Queue(queue[1..] + Kids(queue[0], |queue[0].s.fields|))
  }

  lemma {:induction false} QueueDrains(a: seq<Item>, b: seq<Item>)
    ensures Queue(a + b) == AllOwn(a) + Queue(b + AllKids(a))
    decreases |a|
  {
    if a == [] {
      assert a + b == b && b + AllKids(a) == b;
    } else {
      var kids := Kids(a[0], |a[0].s.fields|);
      assert (a + b)[1..] + kids == a[1..] + (b + kids);
      QueueDrains(a[1..], b + kids);
      assert b + kids + AllKids(a[1..]) == b + AllKids(a);
    }
  }

  /** The worklist visits level by level. */
  lemma {:induction false} QueueIsLevelOrder(items: seq<Item>)
    ensures Queue(items) == LevelOrder(items)
    decreases Size(items)
  {
    if items != [] {
      QueueDrains(items, []);
      assert items + [] == items && [] + AllKids(items) == AllKids(items);
      KidsShrink(items);
      QueueIsLevelOrder(AllKids(items));
    }
  }

  // ---------------------------------------------------------------- which roots can be walked

  /** Taking the address of a nested struct needs an exported field of an addressable struct. */
  predicate Opens(item: Item) {
    forall n :: 0 <= n < |item.s.fields| && item.s.fields[n].Nested? ==> item.s.fields[n].exported && item.addressable
  }

  /** Every struct below is reached through exported fields, and an unaddressable struct nests none. */
  predicate AllOpen(s: Struct, addressable: bool) {
    forall n :: 0 <= n < |s.fields| && s.fields[n].Nested? ==>
      s.fields[n].exported && addressable && AllOpen(s.fields[n].s, true)
  }

  predicate Walkable(root: Root) {
    match root
    case Pointer(s) => AllOpen(s, true)
    case ByValue(s) => AllOpen(s, false)
    case NotStruct => false
  }

  predicate Clear(items: seq<Item>) {
    forall item :: item in items ==> AllOpen(item.s, item.addressable)
  }

  lemma {:induction false} KidsClear(item: Item, n: nat)
    requires n <= |item.s.fields|
    ensures Clear(Kids(item, n)) <==>
              forall k :: 0 <= k < n && item.s.fields[k].Nested? ==> AllOpen(item.s.fields[k].s, true)
  {
    if n > 0 {
      KidsClear(item, n - 1);
      var f := item.s.fields[n - 1];
      if f.Nested? {
        var kid := Item(item.path + [n - 1], f.s, true);
        assert forall i :: i in Kids(item, n) <==> i in Kids(item, n - 1) || i == kid;
      }
    }
  }

  lemma PopKeepsClear(queue: seq<Item>)
    requires queue != [] && Opens(queue[0])
    ensures Clear(queue) <==> Clear(queue[1..] + Kids(queue[0], |queue[0].s.fields|))
  {
    var item := queue[0];
    KidsClear(item, |item.s.fields|);
    assert AllOpen(item.s, item.addressable) <==> Clear(Kids(item, |item.s.fields|));
    assert queue == [item] + queue[1..];
  }

  // ---------------------------------------------------------------- the loop

  /** Not ok is the panic on a nested struct whose address cannot be taken. */
  method ReadFields(item: Item) returns (ok: bool, metas: seq<Meta>, pushed: seq<Item>)
    ensures ok <==> Opens(item)
    ensures ok ==> metas == Own(item, |item.s.fields|) && pushed == Kids(item, |item.s.fields|)
  {
    metas, pushed := [], [];
    var idx := 0;
    while idx < |item.s.fields|
      invariant 0 <= idx <= |item.s.fields|
      invariant metas == Own(item, idx) && pushed == Kids(item, idx)
      invariant forall n :: 0 <= n < idx && item.s.fields[n].Nested? ==> item.s.fields[n].exported && item.addressable
    {
      var f := item.s.fields[idx];
      if f.Nested? {
        if !f.exported || !item.addressable {
          return false, metas, pushed;
        }
        pushed := pushed + [Item(item.path + [idx], f.s, true)];
      } else if f.exported && item.addressable {
        var layout := None;
        if f.ty.TTime? {
          layout := f.tags.envLayout;
        }
        var separator := DEFAULT_SEPARATOR;
        if f.tags.envSeparator.Some? {
          separator := f.tags.envSeparator.value;
        }
        var envList: seq<string> := [];
        if f.tags.env.Some? && |f.tags.env.value| != 0 {
          envList := Split(f.tags.env.value, DEFAULT_SEPARATOR);
        }
        metas := metas + [Meta(envList, f.name, item.path + [idx], f.ty, f.tags.envDefault,
                               layout, separator, f.tags.envUpd, f.tags.envRequired)];
      }
      idx := idx + 1;
    }
    ok := true;
  }

  method ReadStructMetadata(root: Root) returns (r: Walk)
    ensures r.WrongType? <==> root.NotStruct?
    ensures r.Metas? <==> Walkable(root)
    ensures r.Metas? ==> r.metas == LevelOrder([Item([], root.s, root.Pointer?)])
  {
    if root.NotStruct? {
      return WrongType;
    }
    var cfgStack := [Item([], root.s, root.Pointer?)];
    var metas: seq<Meta> := [];
    var i := 0;
    ghost var queue := cfgStack;
    StartRemains(root);
    while i < |cfgStack|
      invariant 0 <= i <= |cfgStack| && queue == cfgStack[i..]
      invariant Remains(root, metas, queue)
      decreases Size(queue)
    {
      var ok, own, kids := ReadFields(cfgStack[i]);
      if !ok {
        ClosedIsNotWalkable(root, metas, queue);
        return Panic;
      }
      PopRemains(root, metas, queue);
      queue := queue[1..] + kids;
      metas, cfgStack, i := metas + own, cfgStack + kids, i + 1;
    }
    NothingRemains(root, metas);
    r := Metas(metas);
  }

  /** What is found and what is queued make up the whole level order, and nothing closed was passed. */
  ghost predicate Remains(root: Root, metas: seq<Meta>, queue: seq<Item>)
    requires !root.NotStruct?
  {
    && metas + Queue(queue) == Queue([Item([], root.s, root.Pointer?)])
    && Queue([Item([], root.s, root.Pointer?)]) == LevelOrder([Item([], root.s, root.Pointer?)])
    && (Walkable(root) <==> Clear(queue))
  }

  lemma PopRemains(root: Root, metas: seq<Meta>, queue: seq<Item>)
    requires !root.NotStruct? && queue != [] && Opens(queue[0]) && Remains(root, metas, queue)
    ensures var n := |queue[0].s.fields|;
            var queue' := queue[1..] + Kids(queue[0], n);
            Remains(root, metas + Own(queue[0], n), queue') && Size(queue') < Size(queue)
  {
    PopShrinks(queue);
    PopKeepsClear(queue);
    var n := |queue[0].s.fields|;
    assert metas + Queue(queue) == metas + Own(queue[0], n) + Queue(queue[1..] + Kids(queue[0], n));
  }

  lemma StartRemains(root: Root)
    requires !root.NotStruct?
    ensures Remains(root, [], [Item([], root.s, root.Pointer?)])
  {
    QueueIsLevelOrder([Item([], root.s, root.Pointer?)]);
  }

  lemma ClosedIsNotWalkable(root: Root, metas: seq<Meta>, queue: seq<Item>)
    requires !root.NotStruct? && Remains(root, metas, queue) && queue != [] && !Opens(queue[0])
    ensures !Walkable(root)
  {
    assert queue[0] in queue && !AllOpen(queue[0].s, queue[0].addressable);
  }

  lemma NothingRemains(root: Root, metas: seq<Meta>)
    requires !root.NotStruct? && Remains(root, metas, [])
    ensures Walkable(root) && metas == LevelOrder([Item([], root.s, root.Pointer?)])
  {
    assert metas + [] == metas;
  }
}
