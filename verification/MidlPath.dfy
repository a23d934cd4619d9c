/** How Tools/MIDLWrapper/MIDLWrapper.cpp takes the vcbin entry out of PATH. */
module MidlPath {

  const PREFIX: string := "PATH="
  const VCBIN: string := "Tools\\vcbin"

  predicate OccursAt(s: string, p: string, i: nat) {
    i + |p| <= |s| && forall k :: 0 <= k < |p| ==> s[i + k] == p[k]
  }

  ghost predicate Contains(s: string, p: string) { exists i: nat :: OccursAt(s, p, i) }

  /** No semicolon between two places. */
  predicate Clear(s: string, lo: nat, hi: nat)
    requires hi <= |s|
  {
    forall j :: lo <= j < hi ==> s[j] != ';'
  }

  // ----- Lists of entries -----

  /** The place of the first semicolon, or the length. */
  function IndexOf(s: string): (i: nat)
    ensures i <= |s|
  {
    if s == [] || s[0] == ';' then 0 else IndexOf(s[1..]) + 1
  }

  ghost predicate IsIndex(s: string, i: nat) {
    i <= |s| && Clear(s, 0, i) && (i < |s| ==> s[i] == ';')
  }

  lemma {:induction false} IndexIs(s: string)
    ensures IsIndex(s, IndexOf(s))
  {
    if s != [] && s[0] != ';' {
      IndexIs(s[1..]);
      var k := IndexOf(s[1..]);
      assert forall j :: 0 < j < k + 1 ==> s[j] == s[1..][j - 1];
    }
  }

  lemma IndexUnique(s: string, i: nat)
    requires IsIndex(s, i)
    ensures IndexOf(s) == i
  {
    IndexIs(s);
  }

  function Split(s: string): seq<string>
    decreases |s|
  {
    var i := IndexOf(s);
    if i == |s| then [s] else [s[..i]] + Split(s[i + 1..])
  }

  lemma JoinSlices(a: string, b: string, i: nat)
    requires i <= |a|
    ensures (a + (";" + b))[..i] == a[..i] && (i == |a| ==> a[..i] == a)
    ensures (a + (";" + b))[i + 1..] == if i == |a| then b else a[i + 1..] + (";" + b)
  {
  }

  lemma {:induction false} SplitOnce(s: string)
    ensures Split(s) == var i := IndexOf(s); if i == |s| then [s] else [s[..i]] + Split(s[i + 1..])
  {
  }

  lemma ConsConcat<T>(x: T, p: seq<T>, q: seq<T>)
    ensures [x] + p + q == [x] + (p + q)
  {
  }

  lemma {:induction false} SplitJoin(a: string, b: string)
    ensures Split(a + (";" + b)) == Split(a) + Split(b)
    decreases |a|
  {
    var s, i := a + (";" + b), IndexOf(a);
    IndexIs(a);
    IndexUnique(s, i);
    JoinSlices(a, b, i);
    SplitOnce(s);
    SplitOnce(a);
    if i < |a| {
      var tail := a[i + 1..];
      SplitJoin(tail, b);
      ConsConcat(a[..i], Split(tail), Split(b));
    }
  }

  /** Entries with semicolons between them. */
  function Join(entries: seq<string>): string
    requires entries != []
  {
    if |entries| == 1 then entries[0] else entries[0] + (";" + Join(entries[1..]))
  }

  lemma JoinCons(x: string, entries: seq<string>)
    requires entries != []
    ensures Join([x] + entries) == x + (";" + Join(entries))
  {
    assert ([x] + entries)[1..] == entries;
  }

  lemma AtIndex(s: string, i: nat)
    requires IsIndex(s, i)
    ensures ';' !in s[..i] && (i < |s| ==> s == s[..i] + (";" + s[i + 1..]))
  {
  }

  /** The entries are what stands between the semicolons: joined they give the string, and
      none of them contains one. */
  lemma {:induction false} SplitIs(s: string)
    ensures Split(s) != [] && Join(Split(s)) == s
    ensures forall k :: 0 <= k < |Split(s)| ==> ';' !in Split(s)[k]
    decreases |s|
  {
    var i := IndexOf(s);
    IndexIs(s);
    AtIndex(s, i);
    SplitOnce(s);
    if i < |s| {
      var tail := s[i + 1..];
      SplitIs(tail);
      JoinCons(s[..i], Split(tail));
    }
  }

  /** The entries of what comes before an entry, and of what comes after it. */
  function Front(before: string): seq<string> {
    if before == "" then [] else Split(before[..|before| - 1])
  }

  function Rest(after: string): seq<string> {
    if after == "" then [] else Split(after[1..])
  }

  lemma SplitRest(entry: string, after: string)
    requires Clear(entry, 0, |entry|) && (after != "" ==> after[0] == ';')
    ensures Split(entry + after) == [entry] + Rest(after)
  {
    IndexUnique(entry, |entry|);
    if after == "" {
      assert entry + after == entry;
    } else {
      assert after == ";" + after[1..];
      SplitJoin(entry, after[1..]);
    }
  }

  lemma Regroup(before: string, b: string, x: string)
    requires before != "" && before[|before| - 1] == ';' && b == before[..|before| - 1]
    ensures before + x == b + (";" + x)
  {
  }

  lemma SplitParts(before: string, entry: string, after: string)
    requires Clear(entry, 0, |entry|) && (after != "" ==> after[0] == ';')
    requires before != "" ==> before[|before| - 1] == ';'
    ensures Split(before + (entry + after)) == Front(before) + ([entry] + Rest(after))
  {
    SplitRest(entry, after);
    if before == "" {
      assert before + (entry + after) == entry + after;
    } else {
      var b := before[..|before| - 1];
      Regroup(before, b, entry + after);
      SplitJoin(b, entry + after);
    }
  }

  lemma OccursInDrop(s: string, d: nat, e: string, i: nat)
    requires d <= |s| && OccursAt(s[d..], e, i)
    ensures OccursAt(s, e, d + i)
  {
    forall k | 0 <= k < |e|
      ensures s[d + i + k] == e[k]
    {
      assert s[d..][i + k] == s[d + (i + k)];
    }
  }

  /** Every entry is a piece of the string. */
  lemma {:induction false} EntryIsPiece(s: string, e: string) returns (i: nat)
    requires e in Split(s)
    ensures OccursAt(s, e, i)
    decreases |s|
  {
    var j := IndexOf(s);
    if j < |s| && e in Split(s[j + 1..]) {
      i := EntryIsPiece(s[j + 1..], e);
      OccursInDrop(s, j + 1, e, i);
      i := i + j + 1;
    } else {
      i := 0;
      assert e == s[..j];
    }
  }

  lemma OccursInside(s: string, e: string, i: nat, p: string, m: nat)
    requires OccursAt(s, e, i) && OccursAt(e, p, m)
    ensures OccursAt(s, p, i + m)
  {
    forall k | 0 <= k < |p|
      ensures s[i + m + k] == p[k]
    {
      assert s[i + (m + k)] == e[m + k];
    }
  }

  // ----- The new value -----

  /** The cut: the entry between the last semicolon before the match, or the start of the
      value, and the first semicolon after it, or the end. */
  ghost predicate IsCut(text: string, v: nat, lead: nat, trail: nat) {
    && |PREFIX| <= lead <= v <= trail <= |text|
    && Clear(text, lead, v) && (lead != |PREFIX| ==> text[lead - 1] == ';')
    && Clear(text, v, trail) && (trail < |text| ==> text[trail] == ';')
  }

  ghost predicate FirstMatch(text: string, v: nat) {
    OccursAt(text, VCBIN, v) && forall j: nat :: j < v ==> !OccursAt(text, VCBIN, j)
  }

  function Value(text: string): string {
    if |text| >= |PREFIX| then text[|PREFIX|..] else ""
  }

  /** The first entry that contains the text sought has become empty; nothing else changed. */
  ghost predicate EntryEmptied(entries: seq<string>, entries': seq<string>) {
    exists k: nat :: EmptiedAt(entries, entries', k)
  }

  ghost predicate EmptiedAt(entries: seq<string>, entries': seq<string>, k: nat) {
    && k < |entries| && entries' == entries[k := ""] && Contains(entries[k], "Tools\\vcbin")
    && forall j :: 0 <= j < k ==> !Contains(entries[j], "Tools\\vcbin")
  }

  lemma EmptyMiddle(f: seq<string>, e: string, r: seq<string>)
    ensures f + ([""] + r) == (f + ([e] + r))[|f| := ""]
  {
  }

  lemma MatchInEntry(text: string, v: nat, lead: nat, trail: nat)
    requires OccursAt(text, VCBIN, v) && IsCut(text, v, lead, trail)
    ensures OccursAt(text[lead..trail], VCBIN, v - lead)
  {
    MatchBeforeTrail(text, v, trail);
    forall k | 0 <= k < |VCBIN|
      ensures text[lead..trail][v - lead + k] == VCBIN[k]
    {
      assert text[lead..trail][v - lead + k] == text[v + k];
    }
  }

  lemma MatchBeforeTrail(text: string, v: nat, trail: nat)
    requires OccursAt(text, VCBIN, v) && v <= trail <= |text| && (trail < |text| ==> text[trail] == ';')
    ensures v + |VCBIN| <= trail
  {
    assert forall j :: 0 <= j < |VCBIN| ==> VCBIN[j] != ';';
    forall j | v <= j < v + |VCBIN|
      ensures text[j] != ';'
    {
      assert text[v + (j - v)] == VCBIN[j - v];
    }
  }

  lemma NoEarlierMatch(text: string, v: nat, lead: nat, e: string)
    requires FirstMatch(text, v) && |PREFIX| <= lead <= v && e in Front(text[|PREFIX|..lead])
    ensures !Contains(e, VCBIN)
  {
    var b := text[|PREFIX|..lead - 1];
    assert text[|PREFIX|..lead][..lead - 1 - |PREFIX|] == b;
    if Contains(e, VCBIN) {
      var m := MatchInPiece(text, b, |PREFIX|, e, VCBIN);
    }
  }

  /** What an entry of a piece contains, the text contains inside the piece. */
  lemma MatchInPiece(text: string, b: string, at: nat, e: string, p: string) returns (m: nat)
    requires at + |b| <= |text| && text[at..at + |b|] == b && e in Split(b) && Contains(e, p)
    ensures OccursAt(text, p, m) && m + |p| <= at + |b|
  {
    var i := EntryIsPiece(b, e);
    var k: nat :| OccursAt(e, p, k);
    OccursInside(b, e, i, p, k);
    m := OccursInPiece(text, b, at, p, i + k);
  }

  lemma OccursInPiece(text: string, b: string, at: nat, p: string, k: nat) returns (m: nat)
    requires at + |b| <= |text| && text[at..at + |b|] == b && OccursAt(b, p, k)
    ensures OccursAt(text, p, m) && m == at + k
  {
    m := at + k;
    forall j | 0 <= j < |p|
      ensures text[m + j] == p[j]
    {
      assert b[k + j] == p[j] && b[k + j] == text[at + (k + j)];
    }
  }

  /** Cutting replaces exactly one entry, the first one that contains the text sought, by
      an empty entry. */
  lemma CutRemovesEntry(text: string, v: nat, lead: nat, trail: nat)
    requires FirstMatch(text, v) && IsCut(text, v, lead, trail)
    ensures EntryEmptied(Split(Value(text)), Split(Value(text[..lead] + text[trail..])))
  {
    var before, entry, after := text[|PREFIX|..lead], text[lead..trail], text[trail..];
    CutValues(text, lead, trail);
    SplitParts(before, entry, after);
    SplitParts(before, "", after);
    var f, r := Front(before), Rest(after);
    EmptyMiddle(f, entry, r);
    MatchInEntry(text, v, lead, trail);
    var entries := f + ([entry] + r);
    forall j | 0 <= j < |f|
      ensures !Contains(entries[j], VCBIN)
    {
      NoEarlierMatch(text, v, lead, f[j]);
    }
    assert EmptiedAt(entries, f + ([""] + r), |f|);
  }

  lemma CutValues(text: string, lead: nat, trail: nat)
    requires |PREFIX| <= lead <= trail <= |text|
    ensures Value(text) == text[|PREFIX|..lead] + (text[lead..trail] + text[trail..])
    ensures Value(text[..lead] + text[trail..]) == text[|PREFIX|..lead] + ("" + text[trail..])
  {
  }

  /** The text sought cannot start inside "PATH=". */
  lemma MatchAfterPrefix(text: string, v: nat)
    requires PREFIX <= text && OccursAt(text, VCBIN, v)
    ensures v >= |PREFIX|
  {
    assert VCBIN[0] == text[v] && VCBIN[1] == text[v + 1];
    assert text[0] == 'P' && text[1] == 'A' && text[2] == 'T' && text[3] == 'H' && text[4] == '=';
  }

  // ----- The code -----

  /** wcsstr. */
  method FindString(s: string, p: string) returns (i: int)
    ensures i >= 0 ==> OccursAt(s, p, i) && forall j: nat :: j < i ==> !OccursAt(s, p, j)
    ensures i < 0 ==> !Contains(s, p)
  {
    i := 0;
    while i + |p| <= |s|
      invariant 0 <= i && forall j: nat :: j < i ==> !OccursAt(s, p, j)
    {
      if OccursAt(s, p, i) {
        return;
      }
      i := i + 1;
    }
    i := -1;
  }

  /** wcsrchr for the semicolon, in the text up to a place. */
  method FindLastSemicolon(s: string, end: nat) returns (i: int)
    requires end <= |s|
    ensures -1 <= i < end && (i >= 0 ==> s[i] == ';') && Clear(s, i + 1, end)
  {
    i := end - 1;
    while i >= 0 && s[i] != ';'
      invariant -1 <= i < end && Clear(s, i + 1, end)
    {
      i := i - 1;
    }
  }

  /** wcschr for the semicolon, from a place; the length if there is none. */
  method FindSemicolon(s: string, start: nat) returns (i: nat)
    requires start <= |s|
    ensures start <= i <= |s| && Clear(s, start, i) && (i < |s| ==> s[i] == ';')
  {
    i := start;
    while i < |s| && s[i] != ';'
      invariant start <= i <= |s| && Clear(s, start, i)
    {
      i := i + 1;
    }
  }

  ghost predicate Rewritten(text: string, text': string) {
    EntryEmptied(Split(Value(text)), Split(Value(text')))
  }

  /** The new value as the code builds it: an array filled exactly, its last element the
      terminating zero. The strings of the environment hold no zero. */
  method CutPath(text: string, vcbin: nat) returns (newPath: array<char>)
    requires PREFIX <= text && '\0' !in text && FirstMatch(text, vcbin)
    ensures fresh(newPath) && newPath.Length > 0 && newPath[newPath.Length - 1] == '\0'
    ensures PREFIX <= newPath[..newPath.Length - 1] && '\0' !in newPath[..newPath.Length - 1]
    ensures Rewritten(text, newPath[..newPath.Length - 1])
  {
    MatchAfterPrefix(text, vcbin);
    var semicolon := FindLastSemicolon(text, vcbin);
    assert text[0] == 'P' && text[1] == 'A' && text[2] == 'T' && text[3] == 'H' && text[4] == '=';
    var afterLeadingSemiColon := if semicolon < 0 then |PREFIX| else semicolon + 1;
    var trailingSemiColon := FindSemicolon(text, vcbin);
    CutRemovesEntry(text, vcbin, afterLeadingSemiColon, trailingSemiColon);
    newPath := CopyAround(text, afterLeadingSemiColon, trailingSemiColon);
  }

  /** The two copy loops. */
  method CopyAround(text: string, lead: nat, trail: nat) returns (newPath: array<char>)
    requires lead <= trail <= |text| && '\0' !in text
    ensures fresh(newPath) && newPath.Length == |text| - (trail - lead) + 1
    ensures newPath[..newPath.Length - 1] == text[..lead] + text[trail..] && newPath[newPath.Length - 1] == '\0'
  {
    var newPathLength := |text| - (trail - lead);
    newPath := new char[newPathLength + 1];
    ghost var expected := text[..lead] + text[trail..];
    var d, s := 0, 0;
    while s < lead
      invariant 0 <= d == s <= lead
      invariant forall i :: 0 <= i < d ==> newPath[i] == expected[i]
    {
      newPath[d] := text[s];
      d, s := d + 1, s + 1;
    }
    s := trail;
    var done := false;
    while !done
      invariant trail <= s && d == lead + (s - trail)
      invariant if done then s == |text| + 1 && newPath[newPathLength] == '\0' else s <= |text|
      invariant forall i :: 0 <= i < d && i < newPathLength ==> newPath[i] == expected[i]
      decreases !done, |text| - s
    {
      var c := if s < |text| then text[s] else '\0';
      newPath[d] := c;
      d, s := d + 1, s + 1;
      done := c == '\0';
    }
    assert newPath[..newPathLength] == expected;
  }

  ghost predicate IsFirstPath(env: seq<string>, p: nat) {
    p < |env| && "PATH=" <= env[p] && forall j :: 0 <= j < p ==> !("PATH=" <= env[j])
  }

  /** Rewrites the first PATH variable of the environment. The status is -1 when there is
      none, or when it does not contain the text sought; then nothing changes. */
  method RewritePath(envp: array<string>) returns (status: int)
    requires forall i :: 0 <= i < envp.Length ==> '\0' !in envp[i]
    modifies envp
    ensures status == 0 || status == -1
    ensures status == -1 ==> envp[..] == old(envp[..])
    ensures status == -1 ==> forall p: nat :: IsFirstPath(old(envp[..]), p) ==> !Contains(old(envp[..])[p], VCBIN)
    ensures status == 0 ==> exists p: nat :: IsFirstPath(old(envp[..]), p) && PathReplaced(old(envp[..]), envp[..], p)
  {
    ghost var before := envp[..];
    var pathIndex := -1;
    var i := 0;
    while i < envp.Length
      invariant 0 <= i <= envp.Length && pathIndex == -1
      invariant forall j :: 0 <= j < i ==> !(PREFIX <= before[j])
    {
      if PREFIX <= envp[i] {
        pathIndex := i;
        break;
      }
      i := i + 1;
    }
    if pathIndex == -1 {
      return -1;
    }
    assert IsFirstPath(before, pathIndex);
    var vcbin := FindString(envp[pathIndex], VCBIN);
    if vcbin < 0 {
      return -1;
    }
    var newPath := CutPath(envp[pathIndex], vcbin);
    var text := newPath[..newPath.Length - 1];
    envp[pathIndex] := text;
    assert PathReplaced(before, envp[..], pathIndex);
    return 0;
  }

  ghost predicate PathReplaced(env: seq<string>, env': seq<string>, p: nat) {
    && p < |env| == |env'| && PREFIX <= env'[p] && Rewritten(env[p], env'[p])
    && forall j :: 0 <= j < |env| && j != p ==> env'[j] == env[j]
  }
}
