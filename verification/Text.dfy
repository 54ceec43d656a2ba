/** The parts of Go's `strings` package the repository leans on. Case mapping is the ASCII one. */
module Text {
  import opened Outcomes

  function UpperChar(c: char): char {
    if 'a' <= c <= 'z' then (c as int - 32) as char else c
  }

  function LowerChar(c: char): char {
    if 'A' <= c <= 'Z' then (c as int + 32) as char else c
  }

  function Upper(s: string): (r: string)
    ensures |r| == |s|
    ensures forall i :: 0 <= i < |s| ==> r[i] == UpperChar(s[i])
  {
    seq(|s|, i requires 0 <= i < |s| => UpperChar(s[i]))
  }

  function Lower(s: string): (r: string)
    ensures |r| == |s|
    ensures forall i :: 0 <= i < |s| ==> r[i] == LowerChar(s[i])
  {
    seq(|s|, i requires 0 <= i < |s| => LowerChar(s[i]))
  }

  /** `strings.TrimSpace` removes exactly these from both ends. */
  predicate IsSpace(c: char) {
    var n := c as int;
    9 <= n <= 13 || n == 0x20 || n == 0x85 || n == 0xA0 || n == 0x1680 || 0x2000 <= n <= 0x200a
    || n == 0x2028 || n == 0x2029 || n == 0x202f || n == 0x205f || n == 0x3000
  }

  /** `len(strings.TrimSpace(s)) == 0` */
  predicate Blank(s: string) {
    forall c :: c in s ==> IsSpace(c)
  }

  /** `strings.Split`: an empty separator explodes the text into its characters. */
  function Split(s: string, sep: string): (parts: seq<string>)
    ensures sep != "" ==> parts != []
  {
    if sep == "" then
      seq(|s|, i requires 0 <= i < |s| => [s[i]])
    else
      SplitAt(s, sep)
  }

  function SplitAt(s: string, sep: string): (parts: seq<string>)
    requires sep != ""
    ensures parts != []
    decreases |s|
  {
    if |s| < |sep| then
      [s]
    else if sep <= s then
      [""] + SplitAt(s[|sep|..], sep)
    else
      var rest := SplitAt(s[1..], sep);
      [[s[0]] + rest[0]] + rest[1..]
  }

  /** `strings.Join` */
  function Join(parts: seq<string>, sep: string): string {
    if parts == [] then ""
    else if |parts| == 1 then parts[0]
    else parts[0] + sep + Join(parts[1..], sep)
  }

  /** `strings.SplitN(s, [c], 2)`, which is None when it yields a single part. */
  function Cut(s: string, c: char): (r: Option<(string, string)>)
    ensures r.Some? ==> c !in r.value.0 && s == r.value.0 + [c] + r.value.1
    ensures r.None? ==> c !in s
  {
    if s == "" then None
    else if s[0] == c then Some(("", s[1..]))
    else
      match Cut(s[1..], c)
      case None => None
      case Some((a, b)) =>
        assert s == [s[0]] + s[1..];
        Some(([s[0]] + a, b))
  }

  /** The first separator of a text whose head is free of it ends the head. */
  lemma {:induction false} SplitHead(head: string, c: char, rest: string)
    requires c !in head
    ensures Split(head + [c] + rest, [c]) == [head] + Split(rest, [c])
    decreases |head|
  {
    var s := head + [c] + rest;
    if head == "" {
      assert s[1..] == rest;
    } else {
      assert s[1..] == head[1..] + [c] + rest;
      assert s[0] == head[0] && s[..1] == [head[0]];
      SplitHead(head[1..], c, rest);
      assert [s[0]] + head[1..] == head;
    }
  }

  lemma {:induction false} SplitWhole(s: string, c: char)
    requires c !in s
    ensures Split(s, [c]) == [s]
    decreases |s|
  {
    if s != "" {
      SplitWhole(s[1..], c);
      assert s[..1] == [s[0]];
      assert [s[0]] + s[1..] == s;
    }
  }

  /** Splitting a joined list gives the list back, whatever separator-free parts it holds. */
  lemma {:induction false} SplitJoin(parts: seq<string>, c: char)
    requires parts != []
    requires forall p :: p in parts ==> c !in p
    ensures Split(Join(parts, [c]), [c]) == parts
  {
    if |parts| == 1 {
      SplitWhole(parts[0], c);
    } else {
      SplitHead(parts[0], c, Join(parts[1..], [c]));
      SplitJoin(parts[1..], c);
    }
  }

  /** The separator stands at index `i` of the text. */
  predicate Occurs(s: string, sep: string, i: nat) {
    i <= |s| && sep <= s[i..]
  }

  /** And at none before it. */
  predicate FirstOccurs(s: string, sep: string, i: nat) {
    Occurs(s, sep, i) && forall j: nat :: j < i ==> !Occurs(s, sep, j)
  }

  lemma OccursLater(s: string, sep: string, j: nat)
    requires s != ""
    ensures Occurs(s[1..], sep, j) <==> Occurs(s, sep, j + 1)
  {
    if j + 1 <= |s| {
      assert s[1..][j..] == s[j + 1..];
    }
  }

  lemma FirstOccursLater(s: string, sep: string, i: nat)
    requires i > 0 && FirstOccurs(s, sep, i)
    ensures s != "" && !(sep <= s) && FirstOccurs(s[1..], sep, i - 1)
  {
    assert !Occurs(s, sep, 0) && s[0..] == s;
    OccursLater(s, sep, i - 1);
    forall j: nat | j < i - 1
      ensures !Occurs(s[1..], sep, j)
    {
      OccursLater(s, sep, j);
    }
  }

  /** Main result: a text is cut at the first place of the separator, and what follows it is split again. */
  lemma {:induction false} SplitsAtFirst(s: string, sep: string, i: nat)
    requires sep != "" && FirstOccurs(s, sep, i)
    ensures i + |sep| <= |s| && Split(s, sep) == [s[..i]] + Split(s[i + |sep|..], sep)
    decreases i
  {
    if i == 0 {
      assert s[0..] == s && s[..0] == "";
    } else {
      FirstOccursLater(s, sep, i);
      SplitsAtFirst(s[1..], sep, i - 1);
      AfterFirst(s, sep, i);
      SplitOneLater(s, sep, s[1..][..i - 1], Split(s[i + |sep|..], sep));
    }
  }

  lemma AfterFirst(s: string, sep: string, i: nat)
    requires 0 < i && i + |sep| <= |s|
    ensures [s[0]] + s[1..][..i - 1] == s[..i] && s[1..][i - 1 + |sep|..] == s[i + |sep|..]
  {
  }

  lemma SplitOneLater(s: string, sep: string, first: string, rest: seq<string>)
    requires sep != "" && |s| >= |sep| && !(sep <= s) && Split(s[1..], sep) == [first] + rest
    ensures Split(s, sep) == [[s[0]] + first] + rest
  {
  }

  /** A text without the separator is its only part, and an empty separator cuts between all characters. */
  lemma {:induction false} SplitsNowhere(s: string, sep: string)
    ensures sep != "" && (forall j: nat :: !Occurs(s, sep, j)) ==> Split(s, sep) == [s]
    ensures sep == "" ==> |Split(s, sep)| == |s| && forall i :: 0 <= i < |s| ==> Split(s, sep)[i] == [s[i]]
    decreases |s|
  {
    if sep != "" && s != "" && forall j: nat :: !Occurs(s, sep, j) {
      assert !Occurs(s, sep, 0) && s[0..] == s;
      forall j: nat
        ensures !Occurs(s[1..], sep, j)
      {
        OccursLater(s, sep, j);
      }
      SplitsNowhere(s[1..], sep);
      assert [s[0]] + s[1..] == s;
    }
  }

  /** The letters and their other case; any other character has none. */
  lemma CaseTable(c: char, i: nat)
    requires i < 26
    ensures UpperChar("abcdefghijklmnopqrstuvwxyz"[i]) == "ABCDEFGHIJKLMNOPQRSTUVWXYZ"[i]
    ensures LowerChar("ABCDEFGHIJKLMNOPQRSTUVWXYZ"[i]) == "abcdefghijklmnopqrstuvwxyz"[i]
    ensures !('a' <= c <= 'z') ==> UpperChar(c) == c
    ensures !('A' <= c <= 'Z') ==> LowerChar(c) == c
  {
  }

  /** The code points that count as white space. */
  lemma SpaceTable(c: char)
    ensures var spaces := {9, 10, 11, 12, 13, 32, 133, 160, 5760, 8192, 8193, 8194, 8195, 8196, 8197, 8198, 8199,
                           8200, 8201, 8202, 8232, 8233, 8239, 8287, 12288};
            IsSpace(c) <==> c as int in spaces
  {
  }
}
