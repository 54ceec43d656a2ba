/**
 * pkg/ika parseValue, parseSlice, parseMap and isZero: the type-directed parser of raw texts. The
 * scalar parsers of Go's library are given partial functions.
 */
module FieldParser {
  import opened Outcomes
  import opened Text
  import opened StructWalk

  /** A reflect.Value. A nil slice or map is None; a float is its bit pattern, so -0.0 is not zero. */
  datatype Val =
    | VString(s: string)
    | VBool(b: bool)
    | VInt(n: int)
    | VUint(u: nat)
    | VFloat(bits: nat)
    | VComplex(re: nat, im: nat)
    | VSlice(items: Option<seq<Val>>)
    | VMap(entries: Option<map<Val, Val>>)
    | VArray(elements: seq<Val>)
    | VStruct(fields: seq<Val>)
    | VReference(isNil: bool)

  datatype Parsers = Parsers(
    parseBool: string -> Option<bool>,
    parseInt: (string, nat) -> Option<int>,
    parseUint: (string, nat) -> Option<nat>,
    parseFloat: (string, nat) -> Option<nat>,
    parseDuration: string -> Option<int>,
    parseTime: (string, string) -> Option<Val>,
    utf8: string -> seq<nat>)

  const RFC3339 := "2006-01-02T15:04:05Z07:00"

  predicate IsZero(v: Val) {
    match v
    case VString(s) => s == ""
    case VBool(b) => !b
    case VInt(n) => n == 0
    case VUint(u) => u == 0
    case VFloat(bits) => bits == 0
    case VComplex(re, im) => re == 0 && im == 0
    case VSlice(items) => items.None?
    case VMap(entries) => entries.None?
    case VArray(elements) => forall i :: 0 <= i < |elements| ==> IsZero(elements[i])
    case VStruct(fields) => forall i :: 0 <= i < |fields| ==> IsZero(fields[i])
    case VReference(isNil) => isNil
  }

  /** reflect.New(t).Elem(): a time.Time is a struct of two numbers and a pointer. */
  function Zero(ty: Type): (v: Val)
    ensures IsZero(v)
  {
    match ty
    case TString => VString("")
    case TBool => VBool(false)
    case TInt(_) => VInt(0)
    case TDuration => VInt(0)
    case TUint(_) => VUint(0)
    case TFloat(_) => VFloat(0)
    case TTime => VStruct([VUint(0), VInt(0), VReference(true)])
    case TSlice(_) => VSlice(None)
    case TMap(_, _) => VMap(None)
    case TStruct(fields) => VStruct(seq(|fields|, i requires 0 <= i < |fields| => Zero(fields[i])))
    case TUnsupported => VReference(true)
  }

  /** The values a field of the type can hold; an unsupported one may be a reference, a complex number or an array. */
  predicate HasType(ty: Type, v: Val) {
    match ty
    case TString => v.VString?
    case TBool => v.VBool?
    case TInt(_) => v.VInt?
    case TDuration => v.VInt?
    case TUint(_) => v.VUint?
    case TFloat(_) => v.VFloat?
    case TTime => v.VStruct? && |v.fields| == 3 && v.fields[0].VUint? && v.fields[1].VInt? && v.fields[2].VReference?
    case TSlice(_) => v.VSlice?
    case TMap(_, _) => v.VMap?
    case TStruct(fields) =>
      v.VStruct? && |v.fields| == |fields| && forall i :: 0 <= i < |fields| ==> HasType(fields[i], v.fields[i])
    case TUnsupported => v.VReference?
  }

  /** The zero value of a type is the only one that isZero accepts. */
  lemma {:induction false} OnlyZeroIsZero(ty: Type, v: Val)
    requires HasType(ty, v)
    ensures IsZero(v) <==> v == Zero(ty)
  {
    match ty {
      case TStruct(fields) =>
        forall i | 0 <= i < |fields|
          ensures IsZero(v.fields[i]) <==> v.fields[i] == Zero(fields[i])
        {
          OnlyZeroIsZero(fields[i], v.fields[i]);
        }
        assert v == Zero(ty) <==> forall i :: 0 <= i < |fields| ==> v.fields[i] == Zero(ty).fields[i];
      case TTime =>
        assert v.fields == [v.fields[0], v.fields[1], v.fields[2]];
      case _ =>
    }
  }

  /** Which values those are: empty texts, false and zeros. */
  lemma ZeroScalars(bits: nat)
    ensures Zero(TString) == VString("") && Zero(TBool) == VBool(false) && Zero(TDuration) == VInt(0)
    ensures Zero(TInt(bits)) == VInt(0) && Zero(TUint(bits)) == VUint(0) && Zero(TFloat(bits)) == VFloat(0)
  {
  }

  /** A nil slice or map, but not an empty one. */
  lemma ZeroContainers(ty: Type, ty': Type)
    ensures Zero(TSlice(ty)) == VSlice(None) && !IsZero(VSlice(Some([])))
    ensures Zero(TMap(ty, ty')) == VMap(None) && !IsZero(VMap(Some(map[])))
  {
  }

  lemma ZeroComplex(re: nat, im: nat)
    ensures IsZero(VComplex(re, im)) <==> re == 0 && im == 0
  {
  }

  lemma ZeroTime()
    ensures Zero(TTime) == VStruct([VUint(0), VInt(0), VReference(true)])
  {
  }

  /** An array of any length is zero if its elements are. */
  lemma ZeroArray(ty: Type, vs: seq<Val>)
    requires forall i :: 0 <= i < |vs| ==> HasType(ty, vs[i])
    ensures IsZero(VArray(vs)) <==> forall i :: 0 <= i < |vs| ==> vs[i] == Zero(ty)
  {
    forall i | 0 <= i < |vs|
      ensures IsZero(vs[i]) <==> vs[i] == Zero(ty)
    {
      OnlyZeroIsZero(ty, vs[i]);
    }
  }

  // ---------------------------------------------------------------- specification

  /** The value a field of type `ty` holding `cur` gets from a text; None is an error. */
  function Parse(p: Parsers, ty: Type, cur: Val, text: string, sep: string, layout: Option<string>): Option<Val>
    decreases ty, 1, 0
  {
    match ty
    case TString => Some(VString(text))
    case TBool => (match p.parseBool(text) case None => None case Some(b) => Some(VBool(b)))
    case TInt(bits) => (match p.parseInt(text, bits) case None => None case Some(n) => Some(VInt(n)))
    case TDuration => (match p.parseDuration(text) case None => None case Some(n) => Some(VInt(n)))
    case TUint(bits) => (match p.parseUint(text, bits) case None => None case Some(n) => Some(VUint(n)))
    case TFloat(bits) => (match p.parseFloat(text, bits) case None => None case Some(n) => Some(VFloat(n)))
    case TTime => p.parseTime(layout.GetOr(RFC3339), text)
    case TSlice(elem) =>
      if elem == TUint(8) then Some(VSlice(Some(Bytes(p, text))))
      else if Blank(text) then Some(VSlice(Some([])))
      else (match ParseAll(p, ty, Split(text, sep), sep, layout) case None => None case Some(vs) => Some(VSlice(Some(vs))))
    case TMap(_, _) =>
      if Blank(text) then Some(VMap(Some(map[])))
      else (match ParsePairs(p, ty, Split(text, sep), sep, layout) case None => None case Some(m) => Some(VMap(Some(m))))
    case TStruct(_) => Some(cur)                 // only time.Time is parsed; anything else is left as it is
    case TUnsupported => None
  }

  function Bytes(p: Parsers, text: string): seq<Val> {
    var bytes := p.utf8(text);
    seq(|bytes|, i requires 0 <= i < |bytes| => VUint(bytes[i]))
  }

  function ParseAll(p: Parsers, ty: Type, parts: seq<string>, sep: string, layout: Option<string>): Option<seq<Val>>
    requires ty.TSlice?
    decreases ty, 0, |parts|
  {
    if parts == [] then Some([])
    else
      var n := |parts| - 1;
      match (ParseAll(p, ty, parts[..n], sep, layout), Parse(p, ty.elem, Zero(ty.elem), parts[n], sep, layout))
      case (Some(vs), Some(v)) => Some(vs + [v])
      case _ => None
  }

  function ParsePair(p: Parsers, ty: Type, pair: string, sep: string, layout: Option<string>): Option<(Val, Val)>
    requires ty.TMap?
    decreases ty, 0, 0
  {
    match Cut(pair, ':')
    case None => None
    case Some((k, v)) =>
      match (Parse(p, ty.key, Zero(ty.key), k, sep, layout), Parse(p, ty.elem, Zero(ty.elem), v, sep, layout))
      case (Some(key), Some(value)) => Some((key, value))
      case _ => None
  }

  function ParsePairs(p: Parsers, ty: Type, parts: seq<string>, sep: string, layout: Option<string>): Option<map<Val, Val>>
    requires ty.TMap?
    decreases ty, 0, |parts| + 1
  {
    if parts == [] then Some(map[])
    else
      var n := |parts| - 1;
      match (ParsePairs(p, ty, parts[..n], sep, layout), ParsePair(p, ty, parts[n], sep, layout))
      case (Some(m), Some((k, v))) => Some(m[k := v])
      case _ => None
  }

  // ---------------------------------------------------------------- the parser

  method ParseValue(p: Parsers, ty: Type, cur: Val, text: string, sep: string, layout: Option<string>) returns (r: Option<Val>)
    ensures r == Parse(p, ty, cur, text, sep, layout)
    decreases ty, 1
  {
    match ty {
      case TString => r := Some(VString(text));
      case TBool =>
        var b := p.parseBool(text);
        r := if b.None? then None else Some(VBool(b.value));
      case TInt(bits) =>
        var n := p.parseInt(text, bits);
        r := if n.None? then None else Some(VInt(n.value));
      case TDuration =>
        var d := p.parseDuration(text);
        r := if d.None? then None else Some(VInt(d.value));
      case TUint(bits) =>
        var n := p.parseUint(text, bits);
        r := if n.None? then None else Some(VUint(n.value));
      case TFloat(bits) =>
        var n := p.parseFloat(text, bits);
        r := if n.None? then None else Some(VFloat(n.value));
      case TTime =>
        var l := if layout.Some? then layout.value else RFC3339;
        r := p.parseTime(l, text);
      case TSlice(_) => r := ParseSlice(p, ty, text, sep, layout);
      case TMap(_, _) => r := ParseMap(p, ty, text, sep, layout);
      case TStruct(_) => r := Some(cur);
      case TUnsupported => r := None;
    }
  }

  method ParseSlice(p: Parsers, ty: Type, text: string, sep: string, layout: Option<string>) returns (r: Option<Val>)
    requires ty.TSlice?
    ensures r == Parse(p, ty, VSlice(None), text, sep, layout)
    decreases ty, 0
  {
    if ty.elem == TUint(8) {
      return Some(VSlice(Some(Bytes(p, text))));
    }
    if Blank(text) {
      return Some(VSlice(Some([])));
    }
    var values := Split(text, sep);
    var sliceValue: seq<Val> := [];
    var i := 0;
    while i < |values|
      invariant 0 <= i <= |values|
      invariant ParseAll(p, ty, values[..i], sep, layout) == Some(sliceValue)
    {
      ParseAllStep(p, ty, values, i, sep, layout);
      var v := ParseValue(p, ty.elem, Zero(ty.elem), values[i], sep, layout);
      if v.None? {
        SliceErrorStays(p, ty, values, i + 1, sep, layout);
        return None;
      }
      sliceValue := sliceValue + [v.value];
      i := i + 1;
    }
    assert values[..i] == values;
    r := Some(VSlice(Some(sliceValue)));
  }

  method ParseMap(p: Parsers, ty: Type, text: string, sep: string, layout: Option<string>) returns (r: Option<Val>)
    requires ty.TMap?
    ensures r == Parse(p, ty, VMap(None), text, sep, layout)
    decreases ty, 0
  {
    if Blank(text) {
      return Some(VMap(Some(map[])));
    }
    var pairs := Split(text, sep);
    var mapValue: map<Val, Val> := map[];
    var i := 0;
    while i < |pairs|
      invariant 0 <= i <= |pairs|
      invariant ParsePairs(p, ty, pairs[..i], sep, layout) == Some(mapValue)
    {
      assert pairs[..i + 1][..i] == pairs[..i];
      MapErrorStays(p, ty, pairs, i + 1, sep, layout);
      ghost var parsed := ParsePair(p, ty, pairs[i], sep, layout);
      var kvPair := Cut(pairs[i], ':');
      if kvPair.None? {
        return None;
      }
      var k := ParseValue(p, ty.key, Zero(ty.key), kvPair.value.0, sep, layout);
      if k.None? {
        return None;
      }
      var v := ParseValue(p, ty.elem, Zero(ty.elem), kvPair.value.1, sep, layout);
      if v.None? {
        return None;
      }
      mapValue := mapValue[k.value := v.value];
      i := i + 1;
    }
    assert pairs[..i] == pairs;
    r := Some(VMap(Some(mapValue)));
  }

  lemma ParseAllStep(p: Parsers, ty: Type, parts: seq<string>, i: nat, sep: string, layout: Option<string>)
    requires ty.TSlice? && i < |parts|
    ensures ParseAll(p, ty, parts[..i + 1], sep, layout)
         == match (ParseAll(p, ty, parts[..i], sep, layout), Parse(p, ty.elem, Zero(ty.elem), parts[i], sep, layout))
            case (Some(vs), Some(v)) => Some(vs + [v])
            case _ => None
  {
    assert parts[..i + 1][..i] == parts[..i];
  }

  lemma {:induction false} SliceErrorStays(p: Parsers, ty: Type, parts: seq<string>, n: nat, sep: string, layout: Option<string>)
    requires ty.TSlice? && n <= |parts|
    ensures ParseAll(p, ty, parts[..n], sep, layout).None? ==> ParseAll(p, ty, parts, sep, layout).None?
    decreases |parts|
  {
    if n < |parts| {
      var before := parts[..|parts| - 1];
      assert before[..n] == parts[..n];
      SliceErrorStays(p, ty, before, n, sep, layout);
    } else {
      assert parts[..n] == parts;
    }
  }

  lemma {:induction false} MapErrorStays(p: Parsers, ty: Type, parts: seq<string>, n: nat, sep: string, layout: Option<string>)
    requires ty.TMap? && n <= |parts|
    ensures ParsePairs(p, ty, parts[..n], sep, layout).None? ==> ParsePairs(p, ty, parts, sep, layout).None?
    decreases |parts|
  {
    if n < |parts| {
      var before := parts[..|parts| - 1];
      assert before[..n] == parts[..n];
      MapErrorStays(p, ty, before, n, sep, layout);
    } else {
      assert parts[..n] == parts;
    }
  }

  // ---------------------------------------------------------------- what a text means

  /** `v` is the value that the text gives a field of type `ty` holding `cur`. */
  ghost predicate Means(p: Parsers, ty: Type, cur: Val, text: string, sep: string, layout: Option<string>, v: Val)
    decreases ty, 1
  {
    match ty
    case TString => v.VString? && v.s == text
    case TBool => v.VBool? && p.parseBool(text) == Some(v.b)
    case TInt(bits) => v.VInt? && p.parseInt(text, bits) == Some(v.n)
    case TDuration => v.VInt? && p.parseDuration(text) == Some(v.n)
    case TUint(bits) => v.VUint? && p.parseUint(text, bits) == Some(v.u)
    case TFloat(bits) => v.VFloat? && p.parseFloat(text, bits) == Some(v.bits)
    case TTime => p.parseTime(if layout.Some? then layout.value else "2006-01-02T15:04:05Z07:00", text) == Some(v)
    case TSlice(elem) =>
      && v.VSlice? && v.items.Some?
      && if elem == TUint(8) then AreBytes(v.items.value, p.utf8(text))
         else if Blank(text) then v.items.value == []
         else ItemsMean(p, ty, Split(text, sep), sep, layout, v.items.value)
    case TMap(_, _) =>
      && v.VMap? && v.entries.Some?
      && if Blank(text) then v.entries.value == map[]
         else exists ks, vs ::
                PairsMean(p, ty, Split(text, sep), sep, layout, ks, vs) && LastWins(v.entries.value, ks, vs)
    case TStruct(_) => v == cur
    case TUnsupported => false
  }

  predicate AreBytes(items: seq<Val>, bytes: seq<nat>) {
    |items| == |bytes| && forall i :: 0 <= i < |bytes| ==> items[i].VUint? && items[i].u == bytes[i]
  }

  ghost predicate ItemMeans(p: Parsers, ty: Type, part: string, sep: string, layout: Option<string>, item: Val)
    requires ty.TSlice?
    decreases ty, 0, 0
  {
    Means(p, ty.elem, Zero(ty.elem), part, sep, layout, item)
  }

  /** Each part means the item at its place. */
  ghost predicate ItemsMean(p: Parsers, ty: Type, parts: seq<string>, sep: string, layout: Option<string>, items: seq<Val>)
    requires ty.TSlice?
    decreases ty, 0, 1
  {
    |items| == |parts| && forall i :: 0 <= i < |parts| ==> ItemMeans(p, ty, parts[i], sep, layout, items[i])
  }

  /** The pair has a colon; what is before the first means the key, what is after it the value. */
  ghost predicate PairMeans(p: Parsers, ty: Type, pair: string, sep: string, layout: Option<string>, k: Val, v: Val)
    requires ty.TMap?
    decreases ty, 0, 0
  {
    match Cut(pair, ':')
    case None => false
    case Some((head, rest)) => Means(p, ty.key, Zero(ty.key), head, sep, layout, k)
                               && Means(p, ty.elem, Zero(ty.elem), rest, sep, layout, v)
  }

  ghost predicate PairsMean(p: Parsers, ty: Type, parts: seq<string>, sep: string, layout: Option<string>,
                            ks: seq<Val>, vs: seq<Val>)
    requires ty.TMap?
    decreases ty, 0, 1
  {
    && |ks| == |vs| == |parts|
    && forall i :: 0 <= i < |parts| ==> PairMeans(p, ty, parts[i], sep, layout, ks[i], vs[i])
  }

  predicate IsLastPlace(ks: seq<Val>, i: nat)
    requires i < |ks|
  {
    forall j :: i < j < |ks| ==> ks[j] != ks[i]
  }

  /** The map holds these keys only, each with the value at the last of its places. */
  ghost predicate LastWins(m: map<Val, Val>, ks: seq<Val>, vs: seq<Val>)
    requires |ks| == |vs|
  {
    && (forall k :: k in m ==> k in ks)
    && forall i: nat :: i < |ks| && IsLastPlace(ks, i) ==> ks[i] in m && m[ks[i]] == vs[i]
  }

  lemma WinsWithLast(m: map<Val, Val>, ks: seq<Val>, vs: seq<Val>)
    requires |ks| == |vs| > 0 && LastWins(m, ks[..|ks| - 1], vs[..|ks| - 1])
    ensures LastWins(m[ks[|ks| - 1] := vs[|ks| - 1]], ks, vs)
  {
    var n := |ks| - 1;
    var m' := m[ks[n] := vs[n]];
    forall k | k in m'
      ensures k in ks
    {
      assert k in ks[..n] || k == ks[n];
    }
    forall i: nat | i < |ks| && IsLastPlace(ks, i)
      ensures ks[i] in m' && m'[ks[i]] == vs[i]
    {
      if i < n {
        assert ks[n] != ks[i];
        assert IsLastPlace(ks[..n], i);
        assert ks[..n][i] in m;
      }
    }
  }

  lemma {:induction false} LastPlace(ks: seq<Val>, k: Val) returns (i: nat)
    requires k in ks
    ensures i < |ks| && ks[i] == k && IsLastPlace(ks, i)
  {
    var n := |ks| - 1;
    if ks[n] == k {
      i := n;
    } else {
      i := LastPlace(ks[..n], k);
      forall j | i < j < |ks|
        ensures ks[j] != ks[i]
      {
        assert j < n ==> ks[..n][j] != ks[..n][i];
      }
    }
  }

  /** That determines it. */
  lemma OneMapWins(a: map<Val, Val>, b: map<Val, Val>, ks: seq<Val>, vs: seq<Val>)
    requires |ks| == |vs| && LastWins(a, ks, vs) && LastWins(b, ks, vs)
    ensures a == b
  {
    forall k | k in ks
      ensures k in a && k in b && a[k] == b[k]
    {
      var i := LastPlace(ks, k);
    }
  }

  lemma BytesAre(p: Parsers, text: string, items: seq<Val>)
    ensures Bytes(p, text) == items <==> AreBytes(items, p.utf8(text))
  {
  }

  /**
   * Main result: the parser gives exactly the value that the text means for the type, whatever the
   * nesting of slices and maps, and an error exactly when it means none.
   */
  lemma {:induction false} ParseMeans(p: Parsers, ty: Type, cur: Val, text: string, sep: string, layout: Option<string>, v: Val)
    ensures Parse(p, ty, cur, text, sep, layout) == Some(v) <==> Means(p, ty, cur, text, sep, layout, v)
    decreases ty, 2, 0
  {
    match ty {
      case TSlice(_) => SliceMeans(p, ty, cur, text, sep, layout, v);
      case TMap(_, _) => MapMeans(p, ty, cur, text, sep, layout, v);
      case _ =>
    }
  }

  lemma SliceMeans(p: Parsers, ty: Type, cur: Val, text: string, sep: string, layout: Option<string>, v: Val)
    requires ty.TSlice?
    ensures Parse(p, ty, cur, text, sep, layout) == Some(v) <==> Means(p, ty, cur, text, sep, layout, v)
    decreases ty, 1, 0
  {
    if v.VSlice? && v.items.Some? {
      BytesAre(p, text, v.items.value);
      if !Blank(text) {
        ItemsParse(p, ty, Split(text, sep), sep, layout, v.items.value);
      }
    }
  }

  lemma MapMeans(p: Parsers, ty: Type, cur: Val, text: string, sep: string, layout: Option<string>, v: Val)
    requires ty.TMap?
    ensures Parse(p, ty, cur, text, sep, layout) == Some(v) <==> Means(p, ty, cur, text, sep, layout, v)
    decreases ty, 1, 0
  {
    if v.VMap? && v.entries.Some? && !Blank(text) {
      PairsParseIff(p, ty, Split(text, sep), sep, layout, v.entries.value);
    }
  }

  lemma ItemsMeanAppends(p: Parsers, ty: Type, parts: seq<string>, sep: string, layout: Option<string>, items: seq<Val>)
    requires ty.TSlice? && |parts| == |items| > 0
    requires ItemsMean(p, ty, parts[..|parts| - 1], sep, layout, items[..|parts| - 1])
    requires ItemMeans(p, ty, parts[|parts| - 1], sep, layout, items[|parts| - 1])
    ensures ItemsMean(p, ty, parts, sep, layout, items)
  {
    var n := |parts| - 1;
    forall i | 0 <= i < |parts|
      ensures ItemMeans(p, ty, parts[i], sep, layout, items[i])
    {
      if i < n {
        assert ItemMeans(p, ty, parts[..n][i], sep, layout, items[..n][i]);
      }
    }
  }

  lemma ItemsMeanSplits(p: Parsers, ty: Type, parts: seq<string>, sep: string, layout: Option<string>, items: seq<Val>)
    requires ty.TSlice? && parts != [] && ItemsMean(p, ty, parts, sep, layout, items)
    ensures var n := |parts| - 1;
            && ItemsMean(p, ty, parts[..n], sep, layout, items[..n])
            && ItemMeans(p, ty, parts[n], sep, layout, items[n])
  {
    var n := |parts| - 1;
    forall i | 0 <= i < n
      ensures ItemMeans(p, ty, parts[..n][i], sep, layout, items[..n][i])
    {
      assert ItemMeans(p, ty, parts[i], sep, layout, items[i]);
    }
  }

  lemma ParseAllLast(p: Parsers, ty: Type, parts: seq<string>, sep: string, layout: Option<string>, items: seq<Val>)
    requires ty.TSlice? && parts != [] && items != []
    ensures var n, k := |parts| - 1, |items| - 1;
            ParseAll(p, ty, parts, sep, layout) == Some(items)
            <==> ParseAll(p, ty, parts[..n], sep, layout) == Some(items[..k])
                 && Parse(p, ty.elem, Zero(ty.elem), parts[n], sep, layout) == Some(items[k])
  {
    assert items == items[..|items| - 1] + [items[|items| - 1]];
  }

  lemma {:induction false} ItemsParse(p: Parsers, ty: Type, parts: seq<string>, sep: string, layout: Option<string>, items: seq<Val>)
    requires ty.TSlice?
    ensures ParseAll(p, ty, parts, sep, layout) == Some(items) <==> ItemsMean(p, ty, parts, sep, layout, items)
    decreases ty, 0, |parts|
  {
    if parts != [] && items != [] {
      var n, k := |parts| - 1, |items| - 1;
      ItemsParse(p, ty, parts[..n], sep, layout, items[..k]);
      ParseMeans(p, ty.elem, Zero(ty.elem), parts[n], sep, layout, items[k]);
      ParseAllLast(p, ty, parts, sep, layout, items);
      if ParseAll(p, ty, parts, sep, layout) == Some(items) {
        ItemsMeanAppends(p, ty, parts, sep, layout, items);
      } else if ItemsMean(p, ty, parts, sep, layout, items) {
        ItemsMeanSplits(p, ty, parts, sep, layout, items);
      }
    }
  }

  lemma PairsParseIff(p: Parsers, ty: Type, parts: seq<string>, sep: string, layout: Option<string>, m: map<Val, Val>)
    requires ty.TMap?
    ensures ParsePairs(p, ty, parts, sep, layout) == Some(m)
       <==> exists ks, vs :: PairsMean(p, ty, parts, sep, layout, ks, vs) && LastWins(m, ks, vs)
    decreases ty, 0, |parts| + 1
  {
    if ParsePairs(p, ty, parts, sep, layout).Some? {
      var ks, vs := ParsedPairsMean(p, ty, parts, sep, layout);
    }
    forall ks, vs | PairsMean(p, ty, parts, sep, layout, ks, vs) && LastWins(m, ks, vs)
      ensures ParsePairs(p, ty, parts, sep, layout) == Some(m)
    {
      MeantPairsParse(p, ty, parts, sep, layout, ks, vs);
      OneMapWins(ParsePairs(p, ty, parts, sep, layout).value, m, ks, vs);
    }
  }

  lemma PairParseIff(p: Parsers, ty: Type, pair: string, sep: string, layout: Option<string>, k: Val, v: Val)
    requires ty.TMap?
    ensures ParsePair(p, ty, pair, sep, layout) == Some((k, v)) <==> PairMeans(p, ty, pair, sep, layout, k, v)
    decreases ty, 0, 0
  {
    var cut := Cut(pair, ':');
    if cut.Some? {
      ParseMeans(p, ty.key, Zero(ty.key), cut.value.0, sep, layout, k);
      ParseMeans(p, ty.elem, Zero(ty.elem), cut.value.1, sep, layout, v);
    }
  }

  lemma {:induction false} ParsedPairsMean(p: Parsers, ty: Type, parts: seq<string>, sep: string, layout: Option<string>)
    returns (ks: seq<Val>, vs: seq<Val>)
    requires ty.TMap? && ParsePairs(p, ty, parts, sep, layout).Some?
    ensures PairsMean(p, ty, parts, sep, layout, ks, vs)
    ensures LastWins(ParsePairs(p, ty, parts, sep, layout).value, ks, vs)
    decreases ty, 0, |parts|
  {
    ks, vs := [], [];
    if parts != [] {
      var n := |parts| - 1;
      var (k, v) := ParsePair(p, ty, parts[n], sep, layout).value;
      var ks', vs' := ParsedPairsMean(p, ty, parts[..n], sep, layout);
      ks, vs := ks' + [k], vs' + [v];
      PairParseIff(p, ty, parts[n], sep, layout, k, v);
      PairsMeanAppends(p, ty, parts, sep, layout, ks', vs', k, v);
      assert ks[..n] == ks' && vs[..n] == vs';
      WinsWithLast(ParsePairs(p, ty, parts[..n], sep, layout).value, ks, vs);
    }
  }

  lemma PairsMeanAppends(p: Parsers, ty: Type, parts: seq<string>, sep: string, layout: Option<string>,
                         ks: seq<Val>, vs: seq<Val>, k: Val, v: Val)
    requires ty.TMap? && parts != []
    requires PairsMean(p, ty, parts[..|parts| - 1], sep, layout, ks, vs)
    requires PairMeans(p, ty, parts[|parts| - 1], sep, layout, k, v)
    ensures PairsMean(p, ty, parts, sep, layout, ks + [k], vs + [v])
  {
    assert forall i :: 0 <= i < |parts| - 1 ==> parts[..|parts| - 1][i] == parts[i];
  }

  lemma PairsMeanSplits(p: Parsers, ty: Type, parts: seq<string>, sep: string, layout: Option<string>,
                        ks: seq<Val>, vs: seq<Val>)
    requires ty.TMap? && parts != [] && PairsMean(p, ty, parts, sep, layout, ks, vs)
    ensures var n := |parts| - 1;
            && PairsMean(p, ty, parts[..n], sep, layout, ks[..n], vs[..n])
            && PairMeans(p, ty, parts[n], sep, layout, ks[n], vs[n])
  {
  }

  lemma {:induction false} MeantPairsParse(p: Parsers, ty: Type, parts: seq<string>, sep: string, layout: Option<string>,
                                           ks: seq<Val>, vs: seq<Val>)
    requires ty.TMap? && PairsMean(p, ty, parts, sep, layout, ks, vs)
    ensures ParsePairs(p, ty, parts, sep, layout).Some?
    ensures LastWins(ParsePairs(p, ty, parts, sep, layout).value, ks, vs)
    decreases ty, 0, |parts|
  {
    if parts != [] {
      var n := |parts| - 1;
      PairsMeanSplits(p, ty, parts, sep, layout, ks, vs);
      MeantPairsParse(p, ty, parts[..n], sep, layout, ks[..n], vs[..n]);
      PairParseIff(p, ty, parts[n], sep, layout, ks[n], vs[n]);
      var before := ParsePairs(p, ty, parts[..n], sep, layout).value;
      OneMorePair(p, ty, parts, before, ks[n], vs[n], sep, layout);
      WinsWithLast(before, ks, vs);
    }
  }

  // ---------------------------------------------------------------- parse undoes print

  /** Each text means its value and is free of the separator. */
  ghost predicate Prints(p: Parsers, ty: Type, texts: seq<string>, vs: seq<Val>, c: char, layout: Option<string>) {
    && |texts| == |vs|
    && forall i :: 0 <= i < |vs| ==> c !in texts[i] && Means(p, ty, Zero(ty), texts[i], [c], layout, vs[i])
  }

  lemma ParseAllPrinted(p: Parsers, ty: Type, texts: seq<string>, vs: seq<Val>, c: char, layout: Option<string>)
    requires ty.TSlice? && Prints(p, ty.elem, texts, vs, c, layout)
    ensures ParseAll(p, ty, texts, [c], layout) == Some(vs)
  {
    assert forall i :: 0 <= i < |vs| ==> ItemMeans(p, ty, texts[i], [c], layout, vs[i]);
    ItemsParse(p, ty, texts, [c], layout, vs);
  }

  /**
   * Main result: the joined texts of a slice parse back to it exactly when the joined text is not
   * blank, or there was nothing to join. Any element type but bytes, any one-character separator.
   */
  lemma SliceRoundTrip(p: Parsers, elem: Type, cur: Val, texts: seq<string>, vs: seq<Val>, c: char, layout: Option<string>)
    requires elem != TUint(8) && Prints(p, elem, texts, vs, c, layout)
    ensures Parse(p, TSlice(elem), cur, Join(texts, [c]), [c], layout) == Some(VSlice(Some(vs)))
       <==> vs == [] || !Blank(Join(texts, [c]))
  {
    var text := Join(texts, [c]);
    if !Blank(text) {
      SplitJoin(texts, c);
      ParseAllPrinted(p, TSlice(elem), texts, vs, c, layout);
    }
  }

  /** Strings print as themselves, so a slice of separator-free strings is one instance. */
  lemma StringsPrint(p: Parsers, texts: seq<string>, c: char, layout: Option<string>)
    requires forall t :: t in texts ==> c !in t
    ensures Prints(p, TString, texts, seq(|texts|, i requires 0 <= i < |texts| => VString(texts[i])), c, layout)
  {
  }

  /** So any slice of strings free of the separator reads back, unless its joined text is blank. */
  lemma StringsRoundTrip(p: Parsers, cur: Val, texts: seq<string>, c: char, layout: Option<string>)
    requires forall t :: t in texts ==> c !in t
    ensures var vs := seq(|texts|, i requires 0 <= i < |texts| => VString(texts[i]));
            Parse(p, TSlice(TString), cur, Join(texts, [c]), [c], layout) == Some(VSlice(Some(vs)))
            <==> texts == [] || !Blank(Join(texts, [c]))
  {
    var vs := seq(|texts|, i requires 0 <= i < |texts| => VString(texts[i]));
    StringsPrint(p, texts, c, layout);
    SliceRoundTrip(p, TString, cur, texts, vs, c, layout);
  }

  /** And any slice of integers whose printed forms are free of it. */
  lemma IntsRoundTrip(p: Parsers, bits: nat, cur: Val, texts: seq<string>, ns: seq<int>, c: char, layout: Option<string>)
    requires |texts| == |ns| && forall i :: 0 <= i < |ns| ==> c !in texts[i] && p.parseInt(texts[i], bits) == Some(ns[i])
    ensures var vs := seq(|ns|, i requires 0 <= i < |ns| => VInt(ns[i]));
            Parse(p, TSlice(TInt(bits)), cur, Join(texts, [c]), [c], layout) == Some(VSlice(Some(vs)))
            <==> texts == [] || !Blank(Join(texts, [c]))
  {
    var vs := seq(|ns|, i requires 0 <= i < |ns| => VInt(ns[i]));
    assert Prints(p, TInt(bits), texts, vs, c, layout);
    SliceRoundTrip(p, TInt(bits), cur, texts, vs, c, layout);
  }

  /** A printed map entry: its key's text and value, and its element's. */
  datatype Pair = Pair(keyText: string, key: Val, elemText: string, elem: Val)

  function PairText(pair: Pair): string {
    pair.keyText + ":" + pair.elemText
  }

  function PairTexts(pairs: seq<Pair>): seq<string> {
    seq(|pairs|, i requires 0 <= i < |pairs| => PairText(pairs[i]))
  }

  /** Keys hold neither ':' nor the separator, elements no separator; colons in elements are fine. */
  ghost predicate PrintsPair(p: Parsers, ty: Type, pair: Pair, c: char, layout: Option<string>)
    requires ty.TMap?
  {
    && ':' !in pair.keyText && c !in pair.keyText && c !in pair.elemText
    && Means(p, ty.key, Zero(ty.key), pair.keyText, [c], layout, pair.key)
    && Means(p, ty.elem, Zero(ty.elem), pair.elemText, [c], layout, pair.elem)
  }

  /** The pairs spell the map: one pair per key, in any order. */
  predicate Spells(pairs: seq<Pair>, m: map<Val, Val>) {
    && (forall i :: 0 <= i < |pairs| ==> pairs[i].key in m && m[pairs[i].key] == pairs[i].elem)
    && (forall k :: k in m ==> exists i :: 0 <= i < |pairs| && pairs[i].key == k)
    && (forall i, j :: 0 <= i < j < |pairs| ==> pairs[i].key != pairs[j].key)
  }

  lemma {:induction false} CutAtFirst(head: string, rest: string)
    requires ':' !in head
    ensures Cut(head + ":" + rest, ':') == Some((head, rest))
  {
    var s := head + ":" + rest;
    if head == "" {
      assert s[1..] == rest;
    } else {
      assert s[1..] == head[1..] + ":" + rest;
      CutAtFirst(head[1..], rest);
      assert [head[0]] + head[1..] == head;
    }
  }

  lemma PairParses(p: Parsers, ty: Type, pair: Pair, c: char, layout: Option<string>)
    requires ty.TMap? && PrintsPair(p, ty, pair, c, layout)
    ensures ParsePair(p, ty, PairText(pair), [c], layout) == Some((pair.key, pair.elem))
  {
    CutAtFirst(pair.keyText, pair.elemText);
    ParseMeans(p, ty.key, Zero(ty.key), pair.keyText, [c], layout, pair.key);
    ParseMeans(p, ty.elem, Zero(ty.elem), pair.elemText, [c], layout, pair.elem);
  }

  /** Without its last pair a spelling spells the rest of the map. */
  lemma SpellsWithoutLast(pairs: seq<Pair>, m: map<Val, Val>)
    requires Spells(pairs, m) && pairs != []
    ensures var last := pairs[|pairs| - 1];
            && Spells(pairs[..|pairs| - 1], m - {last.key})
            && (m - {last.key})[last.key := last.elem] == m
  {
    var n := |pairs| - 1;
    forall k | k in m - {pairs[n].key}
      ensures exists i :: 0 <= i < n && pairs[..n][i].key == k
    {
      var i :| 0 <= i < |pairs| && pairs[i].key == k;
      assert pairs[..n][i].key == k;
    }
  }

  /** Each text parses to its pair. */
  predicate PartsParse(p: Parsers, ty: Type, parts: seq<string>, pairs: seq<Pair>, sep: string, layout: Option<string>)
    requires ty.TMap?
  {
    && |parts| == |pairs|
    && forall i :: 0 <= i < |pairs| ==> ParsePair(p, ty, parts[i], sep, layout) == Some((pairs[i].key, pairs[i].elem))
  }

  function MapOf(pairs: seq<Pair>): map<Val, Val> {
    if pairs == [] then map[]
    else
      var last := pairs[|pairs| - 1];
      MapOf(pairs[..|pairs| - 1])[last.key := last.elem]
  }

  lemma {:induction false} SpelledMap(pairs: seq<Pair>, m: map<Val, Val>)
    requires Spells(pairs, m)
    ensures MapOf(pairs) == m
    decreases |pairs|
  {
    if pairs == [] {
      assert m == map[];
    } else {
      var n := |pairs| - 1;
      SpellsWithoutLast(pairs, m);
      SpelledMap(pairs[..n], m - {pairs[n].key});
    }
  }

  lemma {:induction false} PairsParse(p: Parsers, ty: Type, parts: seq<string>, pairs: seq<Pair>, sep: string, layout: Option<string>)
    requires ty.TMap? && PartsParse(p, ty, parts, pairs, sep, layout)
    ensures ParsePairs(p, ty, parts, sep, layout) == Some(MapOf(pairs))
    decreases |pairs|
  {
    if pairs != [] {
      var n := |pairs| - 1;
      PartsWithoutLast(p, ty, parts, pairs, sep, layout);
      PairsParse(p, ty, parts[..n], pairs[..n], sep, layout);
      OneMorePair(p, ty, parts, MapOf(pairs[..n]), pairs[n].key, pairs[n].elem, sep, layout);
    }
  }

  lemma PartsWithoutLast(p: Parsers, ty: Type, parts: seq<string>, pairs: seq<Pair>, sep: string, layout: Option<string>)
    requires ty.TMap? && pairs != [] && PartsParse(p, ty, parts, pairs, sep, layout)
    ensures PartsParse(p, ty, parts[..|pairs| - 1], pairs[..|pairs| - 1], sep, layout)
  {
  }

  lemma OneMorePair(p: Parsers, ty: Type, parts: seq<string>, m: map<Val, Val>, k: Val, v: Val,
                    sep: string, layout: Option<string>)
    requires ty.TMap? && parts != []
    requires ParsePairs(p, ty, parts[..|parts| - 1], sep, layout) == Some(m)
    requires ParsePair(p, ty, parts[|parts| - 1], sep, layout) == Some((k, v))
    ensures ParsePairs(p, ty, parts, sep, layout) == Some(m[k := v])
  {
  }

  lemma ParsePairsPrinted(p: Parsers, ty: Type, pairs: seq<Pair>, m: map<Val, Val>, c: char, layout: Option<string>)
    requires ty.TMap? && Spells(pairs, m)
    requires forall i :: 0 <= i < |pairs| ==> PrintsPair(p, ty, pairs[i], c, layout)
    ensures ParsePairs(p, ty, PairTexts(pairs), [c], layout) == Some(m)
  {
    forall i | 0 <= i < |pairs|
      ensures ParsePair(p, ty, PairTexts(pairs)[i], [c], layout) == Some((pairs[i].key, pairs[i].elem))
    {
      PairParses(p, ty, pairs[i], c, layout);
    }
    PairsParse(p, ty, PairTexts(pairs), pairs, [c], layout);
    SpelledMap(pairs, m);
  }

  /**
   * Main result: the joined "k:v" pairs of a map, in any order, parse back to the map exactly
   * when the separator is not ':' itself, or there was nothing to join.
   */
  lemma MapRoundTrip(p: Parsers, ty: Type, cur: Val, pairs: seq<Pair>, m: map<Val, Val>, c: char, layout: Option<string>)
    requires ty.TMap? && Spells(pairs, m)
    requires forall i :: 0 <= i < |pairs| ==> PrintsPair(p, ty, pairs[i], c, layout)
    ensures Parse(p, ty, cur, Join(PairTexts(pairs), [c]), [c], layout) == Some(VMap(Some(m)))
       <==> pairs == [] || c != ':'
  {
    if pairs == [] {
      assert m == map[];
    } else if c == ':' {
      var rest := JoinedPairs(pairs, c);
      ColonSeparates(p, ty, pairs[0].keyText, rest, layout);
    } else {
      var rest := JoinedPairs(pairs, c);
      ParsePairsPrinted(p, ty, pairs, m, c, layout);
      SplitPairs(pairs, c);
    }
  }

  /** The joined pairs start with the first key and a colon, so they are not blank. */
  lemma JoinedPairs(pairs: seq<Pair>, c: char) returns (rest: string)
    requires pairs != []
    ensures Join(PairTexts(pairs), [c]) == pairs[0].keyText + ":" + rest
    ensures !Blank(Join(PairTexts(pairs), [c]))
  {
    var text := Join(PairTexts(pairs), [c]);
    JoinStarts(PairTexts(pairs), [c]);
    var n := |pairs[0].keyText|;
    assert PairTexts(pairs)[0] == pairs[0].keyText + ":" + pairs[0].elemText;
    rest := text[n + 1..];
    assert text[n] == ':' && text[n] in text;
    assert text == pairs[0].keyText + ":" + rest;
  }

  lemma SplitPairs(pairs: seq<Pair>, c: char)
    requires pairs != [] && c != ':'
    requires forall i :: 0 <= i < |pairs| ==> c !in pairs[i].keyText && c !in pairs[i].elemText
    ensures Split(Join(PairTexts(pairs), [c]), [c]) == PairTexts(pairs)
  {
    var texts := PairTexts(pairs);
    forall t | t in texts
      ensures c !in t
    {
      var i :| 0 <= i < |texts| && texts[i] == t;
      assert t == PairText(pairs[i]);
    }
    SplitJoin(texts, c);
  }

  /** Split at ':' the first pair is a key without its value, which is an error. */
  lemma ColonSeparates(p: Parsers, ty: Type, keyText: string, rest: string, layout: Option<string>)
    requires ty.TMap? && ':' !in keyText
    ensures ParsePairs(p, ty, Split(keyText + ":" + rest, ":"), ":", layout).None?
  {
    SplitHead(keyText, ':', rest);
    var parts := Split(keyText + ":" + rest, ":");
    assert ParsePair(p, ty, parts[0], ":", layout).None?;
    assert parts[..1][..0] == [];
    MapErrorStays(p, ty, parts, 1, ":", layout);
  }

  lemma JoinStarts(parts: seq<string>, sep: string)
    requires parts != []
    ensures parts[0] <= Join(parts, sep)
  {
  }
}
