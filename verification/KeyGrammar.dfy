/** pkg/config: the `(?i)^KFILE_(.*)_(PATH|CONTENT)$` grammar of keys that name files. */
module KeyGrammar {
  import opened Outcomes
  import opened Text

  const PREFIX := "KFILE_"
  const PATH := "PATH"
  const CONTENT := "CONTENT"

  predicate IsSuffix(s: string) {
    s == PATH || s == CONTENT
  }

  /** The text matches `_(PATH|CONTENT)$` without regard to case. */
  predicate IsTail(s: string) {
    Upper(s) == "_" + PATH || Upper(s) == "_" + CONTENT
  }

  /** `.` matches anything but a newline. */
  predicate MatchesAt(key: string, p: nat)
    requires |PREFIX| <= p <= |key|
  {
    '\n' !in key[|PREFIX|..p] && IsTail(key[p..])
  }

  /** The greedy `(.*)` gives characters back from the end until the rest matches. */
  function Backtrack(key: string, p: nat): Option<(string, string)>
    requires |PREFIX| <= p <= |key|
    decreases p
  {
    if MatchesAt(key, p) then Some((key[|PREFIX|..p], key[p + 1..]))
    else if p == |PREFIX| then None
    else Backtrack(key, p - 1)
  }

  /** The two groups of the regular expression's match. */
  function FindSubmatch(key: string): Option<(string, string)> {
    if |PREFIX| <= |key| && Upper(key[..|PREFIX|]) == PREFIX then Backtrack(key, |key|) else None
  }

  /** The file name and the part of the file a key gives, upper-cased as BuildCmdEnv does. */
  function Slot(key: string): Option<(string, string)> {
    match FindSubmatch(key)
    case None => None
    case Some((name, suffix)) => Some((Upper(name), Upper(suffix)))
  }

  function FileKey(name: string, suffix: string): string {
    PREFIX + name + "_" + suffix
  }

  lemma {:induction false} BacktrackMatches(key: string, p: nat) returns (q: nat)
    requires |PREFIX| <= p <= |key|
    ensures Backtrack(key, p).Some? ==>
              |PREFIX| <= q <= p && MatchesAt(key, q) && Backtrack(key, p).value == (key[|PREFIX|..q], key[q + 1..])
    decreases p
  {
    q := p;
    if !MatchesAt(key, p) && p > |PREFIX| {
      q := BacktrackMatches(key, p - 1);
    }
  }

  lemma {:induction false} BacktrackFinds(key: string, p: nat, q: nat)
    requires |PREFIX| <= q <= p <= |key| && MatchesAt(key, q)
    ensures Backtrack(key, p).Some?
    decreases p
  {
    if !MatchesAt(key, p) {
      BacktrackFinds(key, p - 1, q);
    }
  }

  /** (N, suffix) is unique, even when N itself contains "_PATH" or "_CONTENT". */
  lemma FileKeyInjective(n: string, s: string, n': string, s': string)
    requires IsSuffix(s) && IsSuffix(s') && FileKey(n, s) == FileKey(n', s')
    ensures n == n' && s == s'
  {
    var key, key' := FileKey(n, s), FileKey(n', s');
    assert key[|key| - 1] == s[|s| - 1] && key'[|key'| - 1] == s'[|s'| - 1];
    assert s == s';
    assert key[|PREFIX|..|key| - |s| - 1] == n && key'[|PREFIX|..|key'| - |s| - 1] == n';
  }

  /** `_` and the upper-cased suffix are all there is after the name. */
  lemma TailSpells(tail: string)
    requires IsTail(tail)
    ensures tail != "" && IsSuffix(Upper(tail[1..])) && Upper(tail) == "_" + Upper(tail[1..])
  {
    assert |Upper(tail)| == |tail| > 0;
    assert Upper(tail[1..]) == Upper(tail)[1..];
    assert Upper(tail)[0] == '_';
  }

  lemma UpperName(key: string, q: nat)
    requires |PREFIX| <= q <= |key| && '\n' !in key[|PREFIX|..q]
    ensures '\n' !in Upper(key[|PREFIX|..q])
  {
    forall i | 0 <= i < q - |PREFIX|
      ensures Upper(key[|PREFIX|..q])[i] != '\n'
    {
      assert key[|PREFIX|..q][i] != '\n';
    }
  }

  lemma UpperThree(key: string, p: nat, q: nat)
    requires p <= q <= |key|
    ensures Upper(key) == Upper(key[..p]) + Upper(key[p..q]) + Upper(key[q..])
  {
  }

  lemma MatchSpells(key: string, q: nat)
    requires |PREFIX| <= q <= |key| && Upper(key[..|PREFIX|]) == PREFIX && MatchesAt(key, q)
    ensures q < |key|
    ensures var name, suffix := Upper(key[|PREFIX|..q]), Upper(key[q + 1..]);
            IsSuffix(suffix) && '\n' !in name && Upper(key) == FileKey(name, suffix)
  {
    TailSpells(key[q..]);
    UpperName(key, q);
    UpperThree(key, |PREFIX|, q);
    assert key[q..][1..] == key[q + 1..];
    var name, suffix := Upper(key[|PREFIX|..q]), Upper(key[q + 1..]);
    assert PREFIX + name + ("_" + suffix) == PREFIX + name + "_" + suffix;
  }

  lemma SpellingMatches(key: string, name: string, suffix: string)
    requires IsSuffix(suffix) && '\n' !in name && Upper(key) == FileKey(name, suffix)
    ensures var q := |PREFIX| + |name|;
            q <= |key| && Upper(key[..|PREFIX|]) == PREFIX && MatchesAt(key, q)
  {
    var q := |PREFIX| + |name|;
    assert |key| == |Upper(key)| == q + 1 + |suffix|;
    assert Upper(key[..|PREFIX|]) == Upper(key)[..|PREFIX|] == PREFIX;
    assert Upper(key[q..]) == Upper(key)[q..] == "_" + suffix;
    forall i | |PREFIX| <= i < q
      ensures key[i] != '\n'
    {
      assert Upper(key)[i] == name[i - |PREFIX|];
      assert name[i - |PREFIX|] in name;
    }
  }

  /** Main result: a key fills slot (N, suffix) exactly when it spells it and N has no newline. */
  lemma SlotIff(key: string, name: string, suffix: string)
    requires suffix == "PATH" || suffix == "CONTENT"
    ensures Slot(key) == Some((name, suffix)) <==> Upper(key) == "KFILE_" + name + "_" + suffix && '\n' !in name
    ensures Slot(key).Some? ==> Slot(key).value.1 == "PATH" || Slot(key).value.1 == "CONTENT"
  {
    assert FileKey(name, suffix) == "KFILE_" + name + "_" + suffix;
    if FindSubmatch(key).Some? {
      var q := BacktrackMatches(key, |key|);
      MatchSpells(key, q);
      if Upper(key) == FileKey(name, suffix) {
        FileKeyInjective(name, suffix, Slot(key).value.0, Slot(key).value.1);
      }
    } else if Upper(key) == FileKey(name, suffix) && '\n' !in name {
      SpellingMatches(key, name, suffix);
      BacktrackFinds(key, |key|, |PREFIX| + |name|);
    }
  }

  /** Case does not matter to the slot. */
  lemma SlotOfUpper(key: string)
    ensures Slot(Upper(key)) == Slot(key)
  {
    assert Upper(Upper(key)) == Upper(key);
    forall k | k == key || k == Upper(key)
      ensures Slot(k).Some? ==> Slot(Upper(key)) == Slot(key)
    {
      SlotIff(k, "", PATH);
      if Slot(k).Some? {
        var (name, suffix) := Slot(k).value;
        SlotIff(key, name, suffix);
        SlotIff(Upper(key), name, suffix);
      }
    }
  }
}
