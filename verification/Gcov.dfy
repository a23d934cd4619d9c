/** The merging of gcov reports in Tools/CodeCoverage/cov.py. */
module Gcov {

  const STATE_NOT_CODE: int := -1
  const STATE_NOT_SEEN: int := -2
  const STATE_TEST_CODE: int := -3

  /** The first field of a report line: "-", "#####", or an execution count. */
  datatype Info = Dash | Hashes | Count(n: nat)

  type Report = seq<Info>

  // ----- The code, line by line -----

  function MergeLine(state: int, info: Info): int {
    if state == STATE_TEST_CODE then state
    else if info.Dash? then (if state == STATE_NOT_SEEN then STATE_NOT_CODE else state)
    else
      var num := if info.Hashes? then 0 else info.n;
      (if state == STATE_NOT_SEEN || state == STATE_NOT_CODE then 0 else state) + num
  }

  /** The state of line i after the reports; those of another length are passed over. */
  function MergeAt(state: int, files: seq<Report>, n: nat, i: nat): int
    requires i < n
  {
    if files == [] then state else
    var before, last := MergeAt(state, files[..|files| - 1], n, i), files[|files| - 1];
    if |last| != n then before else MergeLine(before, last[i])
  }

  // ----- The reference -----

  function Hits(info: Info): nat { if info.Count? then info.n else 0 }

  function HitsAt(r: Report, n: nat, i: nat): nat
    requires i < n
  {
    if |r| == n then Hits(r[i]) else 0
  }

  function TotalAt(files: seq<Report>, n: nat, i: nat): nat
    requires i < n
  {
    if files == [] then 0 else TotalAt(files[..|files| - 1], n, i) + HitsAt(files[|files| - 1], n, i)
  }

  ghost predicate SaysCode(r: Report, n: nat, i: nat)
    requires i < n
  {
    |r| == n && !r[i].Dash?
  }

  /** A line that is not test code ends as not seen if no report is accepted, as not code
      if every accepted report says so, and as the sum of the accepted counts otherwise. */
  ghost function Expected(state: int, files: seq<Report>, n: nat, i: nat): int
    requires i < n
  {
    if state == STATE_TEST_CODE then state
    else if exists r :: r in files && SaysCode(r, n, i) then TotalAt(files, n, i)
    else if exists r :: r in files && |r| == n then STATE_NOT_CODE
    else STATE_NOT_SEEN
  }

  lemma {:induction false} MergedIs(state: int, files: seq<Report>, n: nat, i: nat)
    requires i < n && (state == STATE_NOT_SEEN || state == STATE_TEST_CODE)
    ensures MergeAt(state, files, n, i) == Expected(state, files, n, i)
    ensures (forall r :: r in files ==> !SaysCode(r, n, i)) ==> TotalAt(files, n, i) == 0
  {
    if files != [] {
      var front, last := files[..|files| - 1], files[|files| - 1];
      assert files == front + [last];
      MergedIs(state, front, n, i);
      forall r
        ensures r in files <==> r in front || r == last
      {
        assert last == files[|files| - 1];
      }
      if SaysCode(last, n, i) {
        assert last in files;
      } else if exists r :: r in front && SaysCode(r, n, i) {
        var r :| r in front && SaysCode(r, n, i);
        assert r in files;
      } else if |last| == n {
        assert last in files;
      } else if exists r :: r in front && |r| == n {
        var r :| r in front && |r| == n;
        assert r in files;
      }
    }
  }

  // ----- The order of the reports does not matter -----

  lemma {:induction false} TotalWithout(files: seq<Report>, n: nat, i: nat, j: nat)
    requires i < n && j < |files|
    ensures TotalAt(files, n, i) == TotalAt(files[..j] + files[j + 1..], n, i) + HitsAt(files[j], n, i)
    decreases |files|
  {
    var front, rest := files[..|files| - 1], files[..j] + files[j + 1..];
    if j == |files| - 1 {
      assert rest == front;
    } else {
      TotalWithout(front, n, i, j);
      assert rest[..|rest| - 1] == front[..j] + front[j + 1..];
      assert rest[|rest| - 1] == files[|files| - 1];
    }
  }

  lemma WithoutOne<T>(s: seq<T>, j: nat)
    requires j < |s|
    ensures multiset(s[..j] + s[j + 1..]) == multiset(s) - multiset{s[j]}
  {
    var rest := s[..j] + s[j + 1..];
    assert s == s[..j] + [s[j]] + s[j + 1..];
    assert multiset(s) == multiset(rest) + multiset{s[j]};
  }

  lemma DropBoth<T>(a: seq<T>, b: seq<T>, j: nat)
    requires a != [] && j < |b| && b[j] == a[|a| - 1] && multiset(a) == multiset(b)
    ensures multiset(a[..|a| - 1]) == multiset(b[..j] + b[j + 1..])
  {
    WithoutOne(a, |a| - 1);
    WithoutOne(b, j);
    assert a[..|a| - 1] + a[|a|..] == a[..|a| - 1];
  }

  lemma {:induction false} TotalOfPermutation(a: seq<Report>, b: seq<Report>, n: nat, i: nat)
    requires i < n && multiset(a) == multiset(b)
    ensures TotalAt(a, n, i) == TotalAt(b, n, i)
    decreases |a|
  {
    if a == [] {
      assert |multiset(b)| == 0;
    } else {
      var front, last := a[..|a| - 1], a[|a| - 1];
      assert a == front + [last] && last in multiset(b);
      var j :| 0 <= j < |b| && b[j] == last;
      DropBoth(a, b, j);
      TotalOfPermutation(front, b[..j] + b[j + 1..], n, i);
      TotalWithout(b, n, i, j);
    }
  }

  /** The first report fixes the number of lines; the others may come in any order. */
  lemma OrderIrrelevant(state: int, a: seq<Report>, b: seq<Report>, n: nat, i: nat)
    requires i < n && (state == STATE_NOT_SEEN || state == STATE_TEST_CODE) && multiset(a) == multiset(b)
    ensures MergeAt(state, a, n, i) == MergeAt(state, b, n, i)
  {
    MergedIs(state, a, n, i);
    MergedIs(state, b, n, i);
    TotalOfPermutation(a, b, n, i);
    assert forall r :: r in a <==> r in multiset(a);
    assert forall r :: r in b <==> r in multiset(b);
  }

  // ----- The totals -----

  datatype Marker = NotSeen | TestCode | NotCode | Uncovered | Covered(n: int)

  function MarkerOf(state: int): Marker {
    if state == STATE_NOT_SEEN then NotSeen
    else if state == STATE_TEST_CODE then TestCode
    else if state == STATE_NOT_CODE then NotCode
    else if state == 0 then Uncovered
    else Covered(state)
  }

  function TotalLines(states: seq<int>): nat {
    if states == [] then 0 else
    var m := MarkerOf(states[|states| - 1]);
    TotalLines(states[..|states| - 1]) + (if m.Uncovered? || m.Covered? then 1 else 0)
  }

  function CoveredLines(states: seq<int>): nat {
    if states == [] then 0 else
    CoveredLines(states[..|states| - 1]) + (if MarkerOf(states[|states| - 1]).Covered? then 1 else 0)
  }

  lemma {:induction false} TotalsBounded(states: seq<int>)
    ensures CoveredLines(states) <= TotalLines(states) <= |states|
  {
    if states != [] {
      TotalsBounded(states[..|states| - 1]);
    }
  }

  /** The states that merging can produce. */
  predicate Reached(state: int) { state >= STATE_TEST_CODE }

  /** One more accepted report never lowers the totals. */
  lemma {:induction false} MoreReportsMoreLines(states: seq<int>, r: Report)
    requires |r| == |states| && forall i :: 0 <= i < |states| ==> Reached(states[i])
    ensures var after := seq(|states|, (i: int) requires 0 <= i < |states| => MergeLine(states[i], r[i]));
            TotalLines(states) <= TotalLines(after) && CoveredLines(states) <= CoveredLines(after)
  {
    var after := seq(|states|, (i: int) requires 0 <= i < |states| => MergeLine(states[i], r[i]));
    if states != [] {
      var k := |states| - 1;
      MoreReportsMoreLines(states[..k], r[..k]);
      assert after[..k] == seq(k, (i: int) requires 0 <= i < k => MergeLine(states[..k][i], r[..k][i]));
    }
  }

  lemma {:induction false} ReachedStates(state: int, files: seq<Report>, n: nat, i: nat)
    requires i < n && Reached(state)
    ensures Reached(MergeAt(state, files, n, i))
  {
    if files != [] {
      ReachedStates(state, files[..|files| - 1], n, i);
    }
  }

  /** The states of all lines after merging. */
  function Merged(initial: seq<int>, files: seq<Report>): (r: seq<int>)
    ensures |r| == |initial|
  {
    seq(|initial|, (i: int) requires 0 <= i < |initial| => MergeAt(initial[i], files, |initial|, i))
  }

  /** So another file never lowers the totals of a merge, whether it is accepted or not. */
  lemma AnotherFile(initial: seq<int>, files: seq<Report>, r: Report)
    requires forall i :: 0 <= i < |initial| ==> Reached(initial[i])
    ensures var before, after := Merged(initial, files), Merged(initial, files + [r]);
            TotalLines(before) <= TotalLines(after) && CoveredLines(before) <= CoveredLines(after)
  {
    var before, after, n := Merged(initial, files), Merged(initial, files + [r]), |initial|;
    assert (files + [r])[..|files|] == files;
    if |r| == n {
      forall i | 0 <= i < n
        ensures Reached(before[i])
      {
        ReachedStates(initial[i], files, n, i);
      }
      MoreReportsMoreLines(before, r);
      assert after == seq(n, (i: int) requires 0 <= i < n => MergeLine(before[i], r[i]));
    } else {
      assert after == before;
    }
  }

  // ----- What the totals count -----

  /** The lines with these states: they count as covered, and as lines of code. A state below
      the three markers does not come out of a merge. */
  ghost function CoveredSet(states: seq<int>): set<nat> {
    set i: nat | i < |states| && (states[i] > 0 || states[i] < -3)
  }

  ghost function CodeSet(states: seq<int>): set<nat> {
    set i: nat | i < |states| && (states[i] >= 0 || states[i] < -3)
  }

  lemma CoveredSetSnoc(states: seq<int>)
    requires states != []
    ensures var k: nat, front := |states| - 1, states[..|states| - 1];
            k !in CoveredSet(front) &&
            CoveredSet(states) == CoveredSet(front) + (if states[k] > 0 || states[k] < -3 then {k} else {})
  {
  }

  lemma CodeSetSnoc(states: seq<int>)
    requires states != []
    ensures var k: nat, front := |states| - 1, states[..|states| - 1];
            k !in CodeSet(front) &&
            CodeSet(states) == CodeSet(front) + (if states[k] >= 0 || states[k] < -3 then {k} else {})
  {
  }

  /** A line counts as covered exactly if its count is positive, and as a line of code if it
      has a count at all. */
  lemma {:induction false} TotalsCount(states: seq<int>)
    ensures CoveredLines(states) == |CoveredSet(states)| && TotalLines(states) == |CodeSet(states)|
  {
    if states == [] {
      assert CoveredSet(states) == {} && CodeSet(states) == {};
    } else {
      TotalsCount(states[..|states| - 1]);
      CoveredSetSnoc(states);
      CodeSetSnoc(states);
      MarkerIs(states[|states| - 1]);
    }
  }

  lemma MarkerIs(state: int)
    ensures (MarkerOf(state) == NotSeen <==> state == -2) && (MarkerOf(state) == TestCode <==> state == -3)
    ensures (MarkerOf(state) == NotCode <==> state == -1) && (MarkerOf(state) == Uncovered <==> state == 0)
    ensures MarkerOf(state).Covered? <==> state > 0 || state < -3
    ensures MarkerOf(state).Covered? ==> MarkerOf(state).n == state
  {
  }

  /** Some accepted report says that the line was executed. */
  ghost predicate Executed(files: seq<Report>, n: nat, i: nat)
    requires i < n
  {
    exists r: Report :: r in files && |r| == n && r[i].Count? && r[i].n > 0
  }

  /** Some accepted report says that the line is code. */
  ghost predicate IsCode(files: seq<Report>, n: nat, i: nat)
    requires i < n
  {
    exists r: Report :: r in files && |r| == n && !r[i].Dash?
  }

  lemma {:induction false} PositiveTotal(files: seq<Report>, n: nat, i: nat)
    requires i < n
    ensures TotalAt(files, n, i) > 0 <==> Executed(files, n, i)
  {
    if files != [] {
      var front, last := files[..|files| - 1], files[|files| - 1];
      assert files == front + [last];
      PositiveTotal(front, n, i);
      if Executed(front, n, i) {
        var r: Report :| r in front && |r| == n && r[i].Count? && r[i].n > 0;
        assert r in files;
      }
      if HitsAt(last, n, i) > 0 {
        assert last in files;
      }
    }
  }

  /** After a merge a line counts as covered if and only if it is not test code and some
      accepted report has a positive count for it; as a line of code if and only if it is not
      test code and some accepted report says so. */
  lemma CoveredIff(initial: seq<int>, files: seq<Report>, i: nat)
    requires forall k :: 0 <= k < |initial| ==> initial[k] == STATE_NOT_SEEN || initial[k] == STATE_TEST_CODE
    requires i < |initial|
    ensures i in CoveredSet(Merged(initial, files)) <==> initial[i] != STATE_TEST_CODE && Executed(files, |initial|, i)
    ensures i in CodeSet(Merged(initial, files)) <==> initial[i] != STATE_TEST_CODE && IsCode(files, |initial|, i)
  {
    var n := |initial|;
    MergedIs(initial[i], files, n, i);
    PositiveTotal(files, n, i);
    if Executed(files, n, i) {
      var r: Report :| r in files && |r| == n && r[i].Count? && r[i].n > 0;
      assert SaysCode(r, n, i);
    }
    assert IsCode(files, n, i) <==> exists r :: r in files && SaysCode(r, n, i);
  }

  /** So the totals of a merge count those lines. */
  lemma CoverageOfMerge(initial: seq<int>, files: seq<Report>)
    requires forall k :: 0 <= k < |initial| ==> initial[k] == STATE_NOT_SEEN || initial[k] == STATE_TEST_CODE
    ensures var n := |initial|;
            CoveredLines(Merged(initial, files))
            == |set i: nat | i < n && initial[i] != STATE_TEST_CODE && Executed(files, n, i)|
    ensures var n := |initial|;
            TotalLines(Merged(initial, files))
            == |set i: nat | i < n && initial[i] != STATE_TEST_CODE && IsCode(files, n, i)|
  {
    var n, states := |initial|, Merged(initial, files);
    TotalsCount(states);
    forall i: nat | i < n
      ensures i in CoveredSet(states) <==> initial[i] != STATE_TEST_CODE && Executed(files, n, i)
      ensures i in CodeSet(states) <==> initial[i] != STATE_TEST_CODE && IsCode(files, n, i)
    {
      CoveredIff(initial, files, i);
    }
    assert CoveredSet(states) == set i: nat | i < n && initial[i] != STATE_TEST_CODE && Executed(files, n, i);
    assert CodeSet(states) == set i: nat | i < n && initial[i] != STATE_TEST_CODE && IsCode(files, n, i);
  }

  // ----- The code -----

  /** The merging loops: `initial` holds the states that the first report's parse gave. */
  method MergeReports(initial: seq<int>, files: seq<Report>) returns (lines: seq<int>)
    ensures |lines| == |initial|
    ensures lines == Merged(initial, files)
    ensures forall i :: 0 <= i < |lines| && (initial[i] == STATE_NOT_SEEN || initial[i] == STATE_TEST_CODE) ==>
              lines[i] == Expected(initial[i], files, |initial|, i)
  {
    lines := initial;
    var n := |initial|;
    for k := 0 to |files|
      invariant |lines| == n
      invariant forall i :: 0 <= i < n ==> lines[i] == MergeAt(initial[i], files[..k], n, i)
    {
      assert files[..k + 1][..k] == files[..k];
      if |files[k]| != n {
        continue;
      }
      for i := 0 to n
        invariant |lines| == n
        invariant forall j :: 0 <= j < i ==> lines[j] == MergeAt(initial[j], files[..k + 1], n, j)
        invariant forall j :: i <= j < n ==> lines[j] == MergeAt(initial[j], files[..k], n, j)
      {
        var accumulator := lines[i];
        if accumulator != STATE_TEST_CODE {
          var info := files[k][i];
          if info.Dash? {
            if accumulator == STATE_NOT_SEEN {
              accumulator := STATE_NOT_CODE;
            }
          } else {
            var num := if info.Hashes? then 0 else info.n;
            if accumulator == STATE_NOT_SEEN || accumulator == STATE_NOT_CODE {
              accumulator := 0;
            }
            accumulator := accumulator + num;
          }
        }
        lines := lines[i := accumulator];
      }
    }
    assert files[..|files|] == files;
    forall i | 0 <= i < n && (initial[i] == STATE_NOT_SEEN || initial[i] == STATE_TEST_CODE)
      ensures lines[i] == Expected(initial[i], files, n, i)
    {
      MergedIs(initial[i], files, n, i);
    }
  }

  method PostProcess(lines: seq<int>) returns (total: nat, covered: nat, annotated: seq<Marker>)
    ensures total == TotalLines(lines) && covered == CoveredLines(lines) && covered <= total <= |lines|
    ensures |annotated| == |lines| && forall i :: 0 <= i < |lines| ==> annotated[i] == MarkerOf(lines[i])
  {
    total, covered, annotated := 0, 0, [];
    for i := 0 to |lines|
      invariant total == TotalLines(lines[..i]) && covered == CoveredLines(lines[..i])
      invariant |annotated| == i && forall j :: 0 <= j < i ==> annotated[j] == MarkerOf(lines[j])
    {
      assert lines[..i + 1][..i] == lines[..i];
      var state := lines[i];
      var desc;
      if state == STATE_NOT_SEEN {
        desc := NotSeen;
      } else if state == STATE_TEST_CODE {
        desc := TestCode;
      } else if state == STATE_NOT_CODE {
        desc := NotCode;
      } else if state == 0 {
        desc := Uncovered;
        total := total + 1;
      } else {
        desc := Covered(state);
        total := total + 1;
        covered := covered + 1;
      }
      annotated := annotated + [desc];
    }
    assert lines[..|lines|] == lines;
    TotalsBounded(lines);
  }
}
