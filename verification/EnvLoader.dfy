/** pkg/ika readEnvVars: which text each field of a configuration struct is loaded from. */
module EnvLoader {
  import opened Outcomes
  import opened Text
  import opened StructWalk
  import opened StructLeaves
  import opened FieldParser

  /** The configuration: the shape of the argument, and the current value of each of its fields. */
  class Config {
    const root: Root
    var fields: map<Path, Val>

    constructor (root: Root, fields: map<Path, Val>)
      ensures this.root == root && this.fields == fields
    {
      this.root, this.fields := root, fields;
    }

    ghost predicate Valid()
      reads this
    {
      !root.NotStruct? ==> HasLeaves(root.s, root.Pointer?, fields)
    }
  }

  /** The optional Updater interface: what the configuration's own Update made of the fields, and whether it failed. */
  datatype Updater = NoUpdater | Updates(fields: map<Path, Val>) | UpdateFails(fields: map<Path, Val>)

  datatype Loading = Loaded | Failed | Panicked

  /** Every leaf that can be set has a value. */
  ghost predicate HasLeaves(s: Struct, addressable: bool, fields: map<Path, Val>) {
    forall path :: SettableAt(s, addressable, path).Some? ==> path in fields
  }

  // ---------------------------------------------------------------- one field

  function FirstSet(names: seq<string>, env: map<string, string>): Option<string> {
    if names == [] then None
    else if names[0] in env then Some(env[names[0]])
    else FirstSet(names[1..], env)
  }

  /** The value a run gives to a field holding `cur`; None is an error. */
  function Load(p: Parsers, env: map<string, string>, update: bool, m: Meta, cur: Val): Option<Val> {
    if update && !m.updatable then Some(cur)
    else
      match FirstSet(m.envList, env)
      case Some(text) => Parse(p, m.ty, cur, text, m.separator, m.layout)
      case None =>
        if !IsZero(cur) then Some(cur)
        else if m.required then None
        else if m.defValue.Some? then Parse(p, m.ty, cur, m.defValue.value, m.separator, m.layout)
        else Some(cur)
  }

  method LookupFirst(names: seq<string>, env: map<string, string>) returns (rawValue: Option<string>)
    ensures rawValue == FirstSet(names, env)
  {
    rawValue := None;
    var i := 0;
    while i < |names|
      invariant 0 <= i <= |names|
      invariant FirstSet(names[i..], env) == FirstSet(names, env)
    {
      if names[i] in env {
        return Some(env[names[i]]);
      }
      i := i + 1;
    }
  }

  /** The names in a field's env tag. */
  function NamesOf(tags: Tags): seq<string> {
    if tags.env.None? || tags.env.value == "" then [] else Split(tags.env.value, ",")
  }

  /** `text` is that of the first set name or, for a zero field with no name set, the env-default. */
  ghost predicate TakenFrom(tags: Tags, env: map<string, string>, cur: Val, text: string) {
    var names := NamesOf(tags);
    || (exists i :: FirstAt(names, env, i) && text == env[names[i]])
    || ((forall name :: name in names ==> name !in env) && IsZero(cur) && !tags.envRequired && tags.envDefault == Some(text))
  }

  ghost predicate FirstAt(names: seq<string>, env: map<string, string>, i: int) {
    && 0 <= i < |names| && names[i] in env
    && forall j :: 0 <= j < i ==> names[j] !in env
  }

  /** What a text means for a field: split at its env-separator or a comma, a time in its env-layout. */
  ghost predicate FieldMeans(p: Parsers, f: Field, before: Val, text: string, after: Val)
    requires f.Leaf?
  {
    Means(p, f.ty, before, text, if f.tags.envSeparator.Some? then f.tags.envSeparator.value else ",",
          if f.ty == TTime then f.tags.envLayout else None, after)
  }

  /** The precedence rule: how a field's value before a run relates to its value after it. */
  ghost predicate Settles(p: Parsers, env: map<string, string>, update: bool, f: Field, before: Val, after: Val)
    requires f.Leaf?
  {
    if update && !f.tags.envUpd then after == before
    else if NothingTaken(f.tags, env, before) then after == before && !(f.tags.envRequired && IsZero(before))
    else forall text :: TakenFrom(f.tags, env, before, text) ==> FieldMeans(p, f, before, text, after)
  }

  ghost predicate NothingTaken(tags: Tags, env: map<string, string>, cur: Val) {
    forall text :: !TakenFrom(tags, env, cur, text)
  }

  lemma {:induction false} FirstSetIs(names: seq<string>, env: map<string, string>)
    ensures match FirstSet(names, env)
            case Some(text) => exists i :: FirstAt(names, env, i) && env[names[i]] == text
            case None => forall name :: name in names ==> name !in env
  {
    if names != [] {
      if names[0] in env {
        assert FirstAt(names, env, 0);
      } else {
        FirstSetIs(names[1..], env);
        if FirstSet(names[1..], env).Some? {
          var i :| FirstAt(names[1..], env, i) && env[names[1..][i]] == FirstSet(names, env).value;
          assert forall j :: 0 <= j < i + 1 && j > 0 ==> names[j] == names[1..][j - 1];
          assert FirstAt(names, env, i + 1);
        }
      }
    }
  }

  /** The one text that can be taken. */
  function Taken(tags: Tags, env: map<string, string>, cur: Val): Option<string> {
    OrElse(FirstSet(NamesOf(tags), env), if IsZero(cur) && !tags.envRequired then tags.envDefault else None)
  }

  lemma TakenIs(tags: Tags, env: map<string, string>, cur: Val, text: string)
    ensures TakenFrom(tags, env, cur, text) <==> Taken(tags, env, cur) == Some(text)
  {
    FirstSetIs(NamesOf(tags), env);
  }

  lemma OnlyTaken(tags: Tags, env: map<string, string>, cur: Val)
    ensures match Taken(tags, env, cur)
            case Some(text) => forall other :: TakenFrom(tags, env, cur, other) <==> other == text
            case None => NothingTaken(tags, env, cur)
    ensures Taken(tags, env, cur).Some? ==> !NothingTaken(tags, env, cur)
  {
    forall other
      ensures TakenFrom(tags, env, cur, other) <==> Taken(tags, env, cur) == Some(other)
    {
      TakenIs(tags, env, cur, other);
    }
  }

  lemma SettlesByTaken(p: Parsers, env: map<string, string>, update: bool, f: Field, before: Val, after: Val)
    requires f.Leaf?
    ensures Settles(p, env, update, f, before, after)
       <==> if update && !f.tags.envUpd then after == before
            else match Taken(f.tags, env, before)
                 case Some(text) => FieldMeans(p, f, before, text, after)
                 case None => after == before && !(f.tags.envRequired && IsZero(before))
  {
    OnlyTaken(f.tags, env, before);
  }

  lemma FieldParses(p: Parsers, path: Path, f: Field, before: Val, text: string, after: Val)
    requires f.Leaf?
    ensures var m := MetaOf(path, f);
            Parse(p, m.ty, before, text, m.separator, m.layout) == Some(after) <==> FieldMeans(p, f, before, text, after)
  {
    var m := MetaOf(path, f);
    ParseMeans(p, m.ty, before, text, m.separator, m.layout, after);
  }

  lemma LoadByTaken(p: Parsers, env: map<string, string>, update: bool, path: Path, f: Field, cur: Val)
    requires f.Leaf?
    ensures var m := MetaOf(path, f);
            Load(p, env, update, m, cur)
            == if update && !f.tags.envUpd then Some(cur)
               else match Taken(f.tags, env, cur)
                    case Some(text) => Parse(p, m.ty, cur, text, m.separator, m.layout)
                    case None => if f.tags.envRequired && IsZero(cur) then None else Some(cur)
  {
    assert MetaOf(path, f).envList == NamesOf(f.tags);
  }

  /**
   * Main result: what a run gives to a field is what the precedence rule asks for by its tags, and
   * it fails exactly when nothing meets the rule.
   */
  lemma LoadMeans(p: Parsers, env: map<string, string>, update: bool, path: Path, f: Field, before: Val, after: Val)
    requires f.Leaf?
    ensures Load(p, env, update, MetaOf(path, f), before) == Some(after) <==> Settles(p, env, update, f, before, after)
  {
    LoadByTaken(p, env, update, path, f, before);
    SettlesByTaken(p, env, update, f, before, after);
    var taken := Taken(f.tags, env, before);
    if taken.Some? {
      FieldParses(p, path, f, before, taken.value, after);
    }
  }

  // ---------------------------------------------------------------- all fields

  /** The first n entries are loaded from the values before; nothing else has moved. */
  ghost predicate LoadedTo(p: Parsers, env: map<string, string>, update: bool, metas: seq<Meta>, n: nat,
                           before: map<Path, Val>, after: map<Path, Val>)
    requires n <= |metas| && forall m :: m in metas ==> m.path in before
  {
    && after.Keys == before.Keys
    && (forall i :: 0 <= i < n ==>
          Load(p, env, update, metas[i], before[metas[i].path]) == Some(after[metas[i].path]))
    && (forall path :: path in before && (forall i :: 0 <= i < n ==> metas[i].path != path) ==> after[path] == before[path])
  }

  lemma LoadOneMore(p: Parsers, env: map<string, string>, update: bool, metas: seq<Meta>, n: nat,
                    before: map<Path, Val>, after: map<Path, Val>, v: Val)
    requires n < |metas| && Distinct(metas) && forall m :: m in metas ==> m.path in before
    requires LoadedTo(p, env, update, metas, n, before, after)
    requires Load(p, env, update, metas[n], before[metas[n].path]) == Some(v)
    ensures LoadedTo(p, env, update, metas, n + 1, before, after[metas[n].path := v])
  {
  }

  /** Every leaf has settled and everything else is as before. */
  ghost predicate AllSettled(p: Parsers, env: map<string, string>, update: bool, s: Struct, addressable: bool,
                             before: map<Path, Val>, after: map<Path, Val>)
    requires HasLeaves(s, addressable, before)
  {
    && after.Keys == before.Keys
    && forall path :: path in before ==>
         match SettableAt(s, addressable, path)
         case Some(f) => f.Leaf? && Settles(p, env, update, f, before[path], after[path])
         case None => after[path] == before[path]
  }

  /** Some leaf has no value that would settle it. */
  ghost predicate SomeLeafFails(p: Parsers, env: map<string, string>, update: bool, s: Struct, addressable: bool,
                                before: map<Path, Val>)
    requires HasLeaves(s, addressable, before)
  {
    exists path ::
      && SettableAt(s, addressable, path).Some? && SettableAt(s, addressable, path).value.Leaf?
      && forall v :: !Settles(p, env, update, SettableAt(s, addressable, path).value, before[path], v)
  }

  lemma MetasHaveValues(s: Struct, addressable: bool, fields: map<Path, Val>)
    requires HasLeaves(s, addressable, fields)
    ensures var metas := LevelOrder([Item([], s, addressable)]);
            Distinct(metas) && forall m :: m in metas ==> m.path in fields
  {
    EveryLeafOnce(s, addressable);
  }

  /** The walk finds the leaf at every path, so what holds of its entries holds of the leaves. */
  lemma LeafIsListed(s: Struct, addressable: bool, path: Path)
    ensures var metas := LevelOrder([Item([], s, addressable)]);
            match SettableAt(s, addressable, path)
            case Some(f) => f.Leaf? && MetaOf(path, f) in metas
            case None => forall m :: m in metas ==> m.path != path
  {
    EveryLeafOnce(s, addressable);
    SettableIsLeaf(s, addressable, path);
    var f := SettableAt(s, addressable, path);
    if f.Some? {
      var m := MetaOf(path, f.value);
      assert [] + path == path;
      assert Describes(m, Item([], s, addressable), path);
      var metas := LevelOrder([Item([], s, addressable)]);
      assert multiset(metas)[m] == 1;
    }
  }

  lemma LoadedIsSettled(p: Parsers, env: map<string, string>, update: bool, s: Struct, addressable: bool,
                        before: map<Path, Val>, after: map<Path, Val>)
    requires HasLeaves(s, addressable, before)
    requires var metas := LevelOrder([Item([], s, addressable)]);
             && (forall m :: m in metas ==> m.path in before)
             && LoadedTo(p, env, update, metas, |metas|, before, after)
    ensures AllSettled(p, env, update, s, addressable, before, after)
    ensures !SomeLeafFails(p, env, update, s, addressable, before)
  {
    forall path | path in before
      ensures match SettableAt(s, addressable, path)
              case Some(f) => f.Leaf? && Settles(p, env, update, f, before[path], after[path])
              case None => after[path] == before[path]
    {
      LeafIsListed(s, addressable, path);
      var f := SettableAt(s, addressable, path);
      if f.Some? {
        LoadMeans(p, env, update, path, f.value, before[path], after[path]);
      }
    }
  }

  lemma FailingLeaf(p: Parsers, env: map<string, string>, update: bool, s: Struct, addressable: bool,
                    before: map<Path, Val>, m: Meta)
    requires HasLeaves(s, addressable, before)
    requires m in LevelOrder([Item([], s, addressable)])
    requires m.path in before && Load(p, env, update, m, before[m.path]).None?
    ensures SomeLeafFails(p, env, update, s, addressable, before)
  {
    EveryLeafOnce(s, addressable);
    var f := SettableAt(s, addressable, m.path);
    assert Describes(m, Item([], s, addressable), m.path);
    assert [] + m.path == m.path;
    forall v
      ensures !Settles(p, env, update, f.value, before[m.path], v)
    {
      LoadMeans(p, env, update, m.path, f.value, before[m.path], v);
    }
  }

  /** The leaves are loaded in turn: `metas[..n]` have settled, metas[n] cannot, and nothing else has moved. */
  ghost predicate StoppedAt(p: Parsers, env: map<string, string>, update: bool, s: Struct, addressable: bool,
                            metas: seq<Meta>, n: nat, before: map<Path, Val>, after: map<Path, Val>)
  {
    && n < |metas| && after.Keys == before.Keys
    && (forall i :: 0 <= i <= n ==> IsLeafAt(s, addressable, metas[i].path) && metas[i].path in before)
    && (forall i :: 0 <= i < n ==>
          var path := metas[i].path;
          Settles(p, env, update, SettableAt(s, addressable, path).value, before[path], after[path]))
    && (forall v :: !Settles(p, env, update, SettableAt(s, addressable, metas[n].path).value, before[metas[n].path], v))
    && (forall path :: path in before && (forall i :: 0 <= i < n ==> metas[i].path != path) ==> after[path] == before[path])
  }

  predicate IsLeafAt(s: Struct, addressable: bool, path: Path) {
    var f := SettableAt(s, addressable, path);
    f.Some? && f.value.Leaf?
  }

  /** Where a run stops: everything before the first leaf that cannot be loaded is already written. */
  ghost predicate StoppedSomewhere(p: Parsers, env: map<string, string>, update: bool, root: Root,
                                   before: map<Path, Val>, after: map<Path, Val>)
    requires !root.NotStruct?
  {
    exists n :: StoppedAt(p, env, update, root.s, root.Pointer?, LevelOrder([Item([], root.s, root.Pointer?)]), n, before, after)
  }

  /** Every entry is named after the leaf at its path and was made from its tags. */
  lemma LeafOfEntry(s: Struct, addressable: bool, m: Meta)
    requires m in LevelOrder([Item([], s, addressable)])
    ensures IsLeafAt(s, addressable, m.path) && m == MetaOf(m.path, SettableAt(s, addressable, m.path).value)
    ensures m.fieldName == SettableAt(s, addressable, m.path).value.name
  {
    EveryLeafOnce(s, addressable);
    assert Describes(m, Item([], s, addressable), m.path);
    assert [] + m.path == m.path;
  }

  lemma StopsThere(p: Parsers, env: map<string, string>, update: bool, s: Struct, addressable: bool, metas: seq<Meta>,
                   n: nat, before: map<Path, Val>, after: map<Path, Val>)
    requires metas == LevelOrder([Item([], s, addressable)]) && forall m :: m in metas ==> m.path in before
    requires n < |metas| && LoadedTo(p, env, update, metas, n, before, after)
    requires Load(p, env, update, metas[n], before[metas[n].path]).None?
    ensures StoppedAt(p, env, update, s, addressable, metas, n, before, after)
  {
    forall i | 0 <= i <= n
      ensures IsLeafAt(s, addressable, metas[i].path) && metas[i].path in before
      ensures metas[i] == MetaOf(metas[i].path, SettableAt(s, addressable, metas[i].path).value)
    {
      LeafOfEntry(s, addressable, metas[i]);
    }
    forall i | 0 <= i < n
      ensures var path := metas[i].path;
              Settles(p, env, update, SettableAt(s, addressable, path).value, before[path], after[path])
    {
      var path := metas[i].path;
      LoadMeans(p, env, update, path, SettableAt(s, addressable, path).value, before[path], after[path]);
    }
    var path := metas[n].path;
    forall v
      ensures !Settles(p, env, update, SettableAt(s, addressable, path).value, before[path], v)
    {
      LoadMeans(p, env, update, path, SettableAt(s, addressable, path).value, before[path], v);
    }
  }

  /**
   * A run first lets the configuration update itself; if that works it succeeds exactly when every
   * leaf has a value that settles it, judged by the values then. Then every leaf has settled and
   * nothing else has moved. A failing run leaves behind the leaves it had already loaded.
   */
  method ReadEnvVars(p: Parsers, cfg: Config, updater: Updater, env: map<string, string>, update: bool) returns (r: Loading)
    requires cfg.Valid() && (updater.NoUpdater? || updater.fields.Keys == cfg.fields.Keys)
    modifies cfg`fields
    ensures cfg.Valid()
    ensures !Walkable(cfg.root) ==> cfg.fields == old(cfg.fields)
    ensures !Walkable(cfg.root) ==> r == if cfg.root.NotStruct? then Failed else Panicked
    ensures Walkable(cfg.root) && updater.UpdateFails? ==> r == Failed && cfg.fields == updater.fields
    ensures Walkable(cfg.root) && !updater.UpdateFails? ==>
              var before := if updater.NoUpdater? then old(cfg.fields) else updater.fields;
              && HasLeaves(cfg.root.s, cfg.root.Pointer?, before) && r != Panicked
              && (r == Failed <==> SomeLeafFails(p, env, update, cfg.root.s, cfg.root.Pointer?, before))
              && (r == Loaded ==> AllSettled(p, env, update, cfg.root.s, cfg.root.Pointer?, before, cfg.fields))
              && (r == Failed ==> StoppedSomewhere(p, env, update, cfg.root, before, cfg.fields))
  {
    var walk := ReadStructMetadata(cfg.root);
    if !walk.Metas? {
      return if walk.WrongType? then Failed else Panicked;
    }
    if !updater.NoUpdater? {
      cfg.fields := updater.fields;
      if updater.UpdateFails? {
        return Failed;
      }
    }
    var metaInfo := walk.metas;
    ghost var s, addressable, before := cfg.root.s, cfg.root.Pointer?, cfg.fields;
    MetasHaveValues(s, addressable, before);
    var i := 0;
    while i < |metaInfo|
      invariant 0 <= i <= |metaInfo|
      invariant LoadedTo(p, env, update, metaInfo, i, before, cfg.fields)
    {
      var meta := metaInfo[i];
      assert meta in metaInfo;
      assert cfg.fields[meta.path] == before[meta.path];
      var v := LoadField(p, env, update, meta, cfg.fields[meta.path]);
      if v.None? {
        FailingLeaf(p, env, update, s, addressable, before, meta);
        StopsThere(p, env, update, s, addressable, metaInfo, i, before, cfg.fields);
        return Failed;
      }
      LoadOneMore(p, env, update, metaInfo, i, before, cfg.fields, v.value);
      cfg.fields := cfg.fields[meta.path := v.value];
      i := i + 1;
    }
    LoadedIsSettled(p, env, update, s, addressable, before, cfg.fields);
    r := Loaded;
  }

  /** The body of the loop over the metadata. */
  method LoadField(p: Parsers, env: map<string, string>, update: bool, meta: Meta, fieldValue: Val)
    returns (v: Option<Val>)
    ensures v == Load(p, env, update, meta, fieldValue)
  {
    if update && !meta.updatable {
      return Some(fieldValue);
    }
    var rawValue := LookupFirst(meta.envList, env);
    if rawValue.None? && meta.required && IsZero(fieldValue) {
      return None;
    }
    if rawValue.None? && IsZero(fieldValue) {
      rawValue := meta.defValue;
    }
    if rawValue.None? {
      return Some(fieldValue);
    }
    v := ParseValue(p, meta.ty, fieldValue, rawValue.value, meta.separator, meta.layout);
  }

  // ---------------------------------------------------------------- running it again

  /** Parsing again over the parsed value changes nothing. */
  lemma ParseAgain(p: Parsers, ty: Type, cur: Val, text: string, sep: string, layout: Option<string>)
    requires Parse(p, ty, cur, text, sep, layout).Some?
    ensures Parse(p, ty, Parse(p, ty, cur, text, sep, layout).value, text, sep, layout)
         == Parse(p, ty, cur, text, sep, layout)
  {
  }

  /** A settled field is settled for good: a later run, full or update, keeps it. */
  lemma SettledStays(p: Parsers, env: map<string, string>, update: bool, again: bool, f: Field, before: Val, after: Val)
    requires f.Leaf? && Settles(p, env, update, f, before, after) && (update ==> again)
    ensures Settles(p, env, again, f, after, after)
  {
    LoadMeans(p, env, update, [], f, before, after);
    LoadMeans(p, env, again, [], f, after, after);
    LoadAgain(p, env, update, again, MetaOf([], f), before, after);
  }

  lemma LoadAgain(p: Parsers, env: map<string, string>, update: bool, again: bool, m: Meta, before: Val, after: Val)
    requires Load(p, env, update, m, before) == Some(after) && (update ==> again)
    ensures Load(p, env, again, m, after) == Some(after)
  {
    var text := OrElse(FirstSet(m.envList, env), m.defValue);
    if text.Some? && Parse(p, m.ty, before, text.value, m.separator, m.layout).Some? {
      ParseAgain(p, m.ty, before, text.value, m.separator, m.layout);
    }
  }

  lemma OnlyOneSettles(p: Parsers, env: map<string, string>, update: bool, f: Field, before: Val, a: Val, b: Val)
    requires f.Leaf? && Settles(p, env, update, f, before, a) && Settles(p, env, update, f, before, b)
    ensures a == b
  {
    LoadMeans(p, env, update, [], f, before, a);
    LoadMeans(p, env, update, [], f, before, b);
  }

  lemma AllStay(p: Parsers, env: map<string, string>, update: bool, again: bool, s: Struct, addressable: bool,
                before: map<Path, Val>, after: map<Path, Val>)
    requires HasLeaves(s, addressable, before) && (update ==> again)
    requires AllSettled(p, env, update, s, addressable, before, after)
    ensures HasLeaves(s, addressable, after) && AllSettled(p, env, again, s, addressable, after, after)
  {
    forall path | path in after
      ensures match SettableAt(s, addressable, path)
              case Some(f) => f.Leaf? && Settles(p, env, again, f, after[path], after[path])
              case None => true
    {
      var f := SettableAt(s, addressable, path);
      if f.Some? {
        SettledStays(p, env, update, again, f.value, before[path], after[path]);
      }
    }
  }

  /** The values before a run determine those after it. */
  lemma SettlingIsUnique(p: Parsers, env: map<string, string>, update: bool, s: Struct, addressable: bool,
                         before: map<Path, Val>, a: map<Path, Val>, b: map<Path, Val>)
    requires HasLeaves(s, addressable, before)
    requires AllSettled(p, env, update, s, addressable, before, a)
    requires AllSettled(p, env, update, s, addressable, before, b)
    ensures a == b
  {
    forall path | path in before
      ensures a[path] == b[path]
    {
      var f := SettableAt(s, addressable, path);
      if f.Some? {
        OnlyOneSettles(p, env, update, f.value, before[path], a[path], b[path]);
      }
    }
  }

  lemma SettledMeansNoFailure(p: Parsers, env: map<string, string>, update: bool, s: Struct, addressable: bool,
                              before: map<Path, Val>, after: map<Path, Val>)
    requires HasLeaves(s, addressable, before)
    requires AllSettled(p, env, update, s, addressable, before, after)
    ensures !SomeLeafFails(p, env, update, s, addressable, before)
  {
  }

  /**
   * Main result: running it again under the same environment, in full or only for the updatable
   * fields, cannot fail and changes nothing.
   */
  lemma RunningAgainChangesNothing(p: Parsers, env: map<string, string>, update: bool, again: bool, s: Struct,
                                   addressable: bool, before: map<Path, Val>, after: map<Path, Val>)
    requires HasLeaves(s, addressable, before) && (update ==> again)
    requires AllSettled(p, env, update, s, addressable, before, after)
    ensures HasLeaves(s, addressable, after) && !SomeLeafFails(p, env, again, s, addressable, after)
    ensures forall next :: AllSettled(p, env, again, s, addressable, after, next) <==> next == after
  {
    AllStay(p, env, update, again, s, addressable, before, after);
    SettledMeansNoFailure(p, env, again, s, addressable, after, after);
    forall next | AllSettled(p, env, again, s, addressable, after, next)
      ensures next == after
    {
      SettlingIsUnique(p, env, again, s, addressable, after, next, after);
    }
  }

  /**
   * Main result: what a successful run leaves in a field that takes a text, from the environment
   * or its env-default: the value strconv or time reads from it, unchanged; the text itself; its
   * bytes. A field of an unsupported type takes none.
   */
  lemma LoadedByType(p: Parsers, env: map<string, string>, update: bool, s: Struct, addressable: bool,
                     before: map<Path, Val>, after: map<Path, Val>, path: Path, text: string)
    requires HasLeaves(s, addressable, before) && AllSettled(p, env, update, s, addressable, before, after)
    requires IsLeafAt(s, addressable, path)
    requires var tags := SettableAt(s, addressable, path).value.tags;
             (update ==> tags.envUpd) && TakenFrom(tags, env, before[path], text)
    ensures var f, v := SettableAt(s, addressable, path).value, after[path];
            match f.ty
            case TString => v == VString(text)
            case TBool => p.parseBool(text).Some? && v == VBool(p.parseBool(text).value)
            case TInt(bits) => p.parseInt(text, bits).Some? && v == VInt(p.parseInt(text, bits).value)
            case TDuration => p.parseDuration(text).Some? && v == VInt(p.parseDuration(text).value)
            case TUint(bits) => p.parseUint(text, bits).Some? && v == VUint(p.parseUint(text, bits).value)
            case TFloat(bits) => p.parseFloat(text, bits).Some? && v == VFloat(p.parseFloat(text, bits).value)
            case TTime =>
              var layout := match f.tags.envLayout case Some(l) => l case None => "2006-01-02T15:04:05Z07:00";
              p.parseTime(layout, text) == Some(v)
            case TSlice(elem) =>
              v.VSlice? && v.items.Some? && (elem == TUint(8) ==> AreBytes(v.items.value, p.utf8(text)))
            case TMap(_, _) => v.VMap? && v.entries.Some?
            case TStruct(_) => v == before[path]
            case TUnsupported => false
  {
    var f := SettableAt(s, addressable, path).value;
    assert Settles(p, env, update, f, before[path], after[path]);
    assert FieldMeans(p, f, before[path], text, after[path]);
  }

  /** An update run reaches no field without the env-upd tag. */
  lemma UpdateTouchesUpdatable(p: Parsers, env: map<string, string>, s: Struct, addressable: bool,
                               before: map<Path, Val>, after: map<Path, Val>, path: Path)
    requires HasLeaves(s, addressable, before) && path in before
    requires AllSettled(p, env, true, s, addressable, before, after)
    ensures after[path] != before[path] ==>
              var f := SettableAt(s, addressable, path);
              f.Some? && f.value.Leaf? && f.value.tags.envUpd
  {
  }
}
