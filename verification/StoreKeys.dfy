/** The (app, scope) pairs that nested loops over apps and scopes ask the store about, in app-major order. */
module StoreKeys {
  import opened Values

  const GLOBAL := "global"

  /** The pairs up to the j-th scope of the i-th app. */
  function KeysUpTo(apps: seq<string>, scopes: seq<string>, i: nat, j: nat): seq<Key>
    requires i <= |apps| && j <= |scopes| && (j > 0 ==> i < |apps|)
    decreases i, j
  {
    if j > 0 then KeysUpTo(apps, scopes, i, j - 1) + [Key(apps[i], scopes[j - 1])]
    else if i > 0 then KeysUpTo(apps, scopes, i - 1, |scopes|)
    else []
  }

  function Pairs(apps: seq<string>, scopes: seq<string>): seq<Key> {
    KeysUpTo(apps, scopes, |apps|, 0)
  }

  /** Where the j-th scope of the i-th app stands. */
  function Position(scopes: seq<string>, i: nat, j: nat): nat {
    i * |scopes| + j
  }

  predicate Before(a: (nat, nat), b: (nat, nat)) {
    a.0 < b.0 || (a.0 == b.0 && a.1 < b.1)
  }

  lemma {:induction false} KeysLength(apps: seq<string>, scopes: seq<string>, i: nat, j: nat)
    requires i <= |apps| && j <= |scopes| && (j > 0 ==> i < |apps|)
    ensures |KeysUpTo(apps, scopes, i, j)| == Position(scopes, i, j)
    decreases i, j
  {
    if j > 0 {
      KeysLength(apps, scopes, i, j - 1);
    } else if i > 0 {
      KeysLength(apps, scopes, i - 1, |scopes|);
      assert (i - 1) * |scopes| + |scopes| == i * |scopes|;
    }
  }

  /** Later loops only append. */
  lemma {:induction false} KeysGrow(apps: seq<string>, scopes: seq<string>, i: nat, j: nat, i': nat, j': nat)
    requires i <= |apps| && j <= |scopes| && (j > 0 ==> i < |apps|)
    requires i' <= |apps| && j' <= |scopes| && (j' > 0 ==> i' < |apps|)
    requires Before((i, j), (i', j')) || (i == i' && j == j')
    ensures KeysUpTo(apps, scopes, i, j) <= KeysUpTo(apps, scopes, i', j')
    decreases i', j'
  {
    if i != i' || j != j' {
      if j' > 0 {
        KeysGrow(apps, scopes, i, j, i', j' - 1);
      } else {
        KeysGrow(apps, scopes, i, j, i' - 1, |scopes|);
      }
    }
  }

  /** Main result: the pair at position i * |scopes| + j is the j-th scope of the i-th app. */
  lemma PairAt(apps: seq<string>, scopes: seq<string>, i: nat, j: nat)
    requires i < |apps| && j < |scopes|
    ensures Position(scopes, i, j) < |Pairs(apps, scopes)|
    ensures Pairs(apps, scopes)[Position(scopes, i, j)] == Key(apps[i], scopes[j])
  {
    KeysGrow(apps, scopes, i, j + 1, |apps|, 0);
    KeysLength(apps, scopes, i, j);
    KeysLength(apps, scopes, i, j + 1);
    var upTo := KeysUpTo(apps, scopes, i, j + 1);
    assert upTo[Position(scopes, i, j)] == Key(apps[i], scopes[j]);
  }

  /** Every position is some pair's. */
  lemma PositionIsPair(apps: seq<string>, scopes: seq<string>, n: nat) returns (i: nat, j: nat)
    requires n < |Pairs(apps, scopes)|
    ensures i < |apps| && j < |scopes| && n == Position(scopes, i, j)
  {
    KeysLength(apps, scopes, |apps|, 0);
    i, j := 0, n;
    while j >= |scopes|
      invariant n == Position(scopes, i, j)
      decreases j
    {
      assert |scopes| > 0;
      assert (i + 1) * |scopes| == i * |scopes| + |scopes|;
      i, j := i + 1, j - |scopes|;
    }
    TimesKeepsOrder(|apps|, i, |scopes|);
  }

  lemma TimesKeepsOrder(a: nat, b: nat, k: nat)
    ensures a <= b ==> a * k <= b * k
  {
  }

  lemma OrderOfPositions(scopes: seq<string>, p: (nat, nat), q: (nat, nat))
    requires p.1 < |scopes| && q.1 < |scopes|
    ensures Before(p, q) <==> Position(scopes, p.0, p.1) < Position(scopes, q.0, q.1)
  {
    if p.0 < q.0 {
      PositionsAscend(scopes, p, q);
    } else if q.0 < p.0 {
      PositionsAscend(scopes, q, p);
    }
  }

  lemma PositionsAscend(scopes: seq<string>, p: (nat, nat), q: (nat, nat))
    requires p.1 < |scopes| && p.0 < q.0
    ensures Position(scopes, p.0, p.1) < Position(scopes, q.0, q.1)
  {
    assert (p.0 + 1) * |scopes| <= q.0 * |scopes|;
    assert (p.0 + 1) * |scopes| == p.0 * |scopes| + |scopes|;
  }

  lemma {:induction false} KeysAfter(before: seq<string>, apps: seq<string>, scopes: seq<string>, i: nat, j: nat)
    requires i <= |apps| && j <= |scopes| && (j > 0 ==> i < |apps|)
    ensures KeysUpTo(before + apps, scopes, |before| + i, j) == Pairs(before, scopes) + KeysUpTo(apps, scopes, i, j)
    decreases i, j
  {
    if j > 0 {
      KeysAfter(before, apps, scopes, i, j - 1);
    } else if i > 0 {
      KeysAfter(before, apps, scopes, i - 1, |scopes|);
    } else {
      KeysOfPrefix(before, apps, scopes, |before|, 0);
    }
  }

  lemma {:induction false} KeysOfPrefix(before: seq<string>, apps: seq<string>, scopes: seq<string>, i: nat, j: nat)
    requires i <= |before| && j <= |scopes| && (j > 0 ==> i < |before|)
    ensures KeysUpTo(before + apps, scopes, i, j) == KeysUpTo(before, scopes, i, j)
    decreases i, j
  {
    if j > 0 {
      KeysOfPrefix(before, apps, scopes, i, j - 1);
    } else if i > 0 {
      KeysOfPrefix(before, apps, scopes, i - 1, |scopes|);
    }
  }

  /** The pairs of one app list come before those of the next. */
  lemma PairsConcat(before: seq<string>, apps: seq<string>, scopes: seq<string>)
    ensures Pairs(before + apps, scopes) == Pairs(before, scopes) + Pairs(apps, scopes)
  {
    KeysAfter(before, apps, scopes, |apps|, 0);
  }
}
