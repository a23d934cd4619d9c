/** The package selection of Tools/CygwinDownloader/cygwin-downloader.py. The dictionary
    of packages is split by field: the requirements of each known package, which do not
    change, and the set of names whose needs_download is true. */
module Packages {
  import opened Basics

  datatype Name = Name(text: string)

  type Graph = map<Name, seq<Name>>

  /** Contains every known requirement of its members. */
  ghost predicate Closed(g: Graph, s: set<Name>) {
    forall n, r :: n in s && n in g && r in g[n] && r in g ==> r in s
  }

  /** The known requirements of all members of s lie in t. */
  ghost predicate Complete(g: Graph, s: set<Name>, t: set<Name>) {
    forall n, r :: n in s && n in g && r in g[n] && r in g ==> r in t
  }

  /** The least set that contains the known ones of `from` and is closed. */
  ghost predicate IsLeastClosed(g: Graph, from: set<Name>, s: set<Name>) {
    && Closed(g, s) && Known(g, from) <= s
    && forall c :: Closed(g, c) && Known(g, from) <= c ==> s <= c
  }

  ghost function Known(g: Graph, from: set<Name>): set<Name> { set n | n in from && n in g }

  // ----- The reference: reachability along requirements -----

  ghost predicate Chain(g: Graph, c: seq<Name>) {
    && c != []
    && (forall i :: 0 <= i < |c| ==> c[i] in g)
    && (forall i :: 0 < i < |c| ==> c[i] in g[c[i - 1]])
  }

  ghost predicate Reachable(g: Graph, from: set<Name>, n: Name) {
    exists c :: Chain(g, c) && c[0] in from && c[|c| - 1] == n
  }

  lemma {:induction false} ChainStaysInside(g: Graph, c: seq<Name>, s: set<Name>)
    requires Chain(g, c) && Closed(g, s) && c[0] in s
    ensures c[|c| - 1] in s
    decreases |c|
  {
    if |c| > 1 {
      var front := c[..|c| - 1];
      assert Chain(g, front);
      ChainStaysInside(g, front, s);
    }
  }

  lemma LeastIsReachable(g: Graph, from: set<Name>, s: set<Name>)
    requires IsLeastClosed(g, from, s)
    ensures forall n :: n in s <==> Reachable(g, from, n)
  {
    var reachable := set n | n in g && Reachable(g, from, n);
    forall n, r | n in reachable && n in g && r in g[n] && r in g
      ensures r in reachable
    {
      var c :| Chain(g, c) && c[0] in from && c[|c| - 1] == n;
      var c' := c + [r];
      assert Chain(g, c') && c'[0] in from && c'[|c'| - 1] == r;
    }
    assert Closed(g, reachable);
    forall n | n in from && n in g
      ensures n in reachable
    {
      assert Chain(g, [n]) && [n][0] in from && [n][|[n]| - 1] == n;
    }
    assert s <= reachable;
    forall n | Reachable(g, from, n)
      ensures n in s
    {
      var c :| Chain(g, c) && c[0] in from && c[|c| - 1] == n;
      ChainStaysInside(g, c, s);
    }
  }

  // ----- The search -----

  /** Stays within any closed set around the name, if the name is known. */
  ghost predicate Within(g: Graph, before: set<Name>, name: Name, after: set<Name>) {
    forall c :: Closed(g, c) && (name in g ==> name in c) ==> after <= before + c
  }

  /** What a search does: it adds the name, if known, with what it adds being complete,
      and it adds no more than any closed set around the name. */
  ghost predicate Search(g: Graph, before: set<Name>, name: Name, after: set<Name>) {
    && before <= after <= g.Keys
    && (name in g ==> name in after)
    && Complete(g, after - before, after)
    && Within(g, before, name, after)
  }

  /** The search of `name` after its first i requirements. */
  ghost predicate Partial(g: Graph, before: set<Name>, name: Name, i: nat, now: set<Name>) {
    && name in g && i <= |g[name]|
    && before + {name} <= now <= g.Keys
    && (forall j :: 0 <= j < i && g[name][j] in g ==> g[name][j] in now)
    && Complete(g, now - before - {name}, now)
    && Within(g, before, name, now)
  }

  lemma PartialStep(g: Graph, before: set<Name>, name: Name, i: nat, now: set<Name>, next: set<Name>)
    requires Partial(g, before, name, i, now) && i < |g[name]| && Search(g, now, g[name][i], next)
    ensures Partial(g, before, name, i + 1, next)
  {
    forall n, r | n in next - before - {name} && n in g && r in g[n] && r in g
      ensures r in next
    {
      if n in now {
        assert n in now - before - {name};
      } else {
        assert n in next - now;
      }
    }
    forall c | Closed(g, c) && (name in g ==> name in c)
      ensures next <= before + c
    {
      assert now <= before + c;
      assert next <= now + c;
    }
  }

  lemma PartialEnd(g: Graph, before: set<Name>, name: Name, now: set<Name>)
    requires name in g && Partial(g, before, name, |g[name]|, now) && name !in before
    ensures Search(g, before, name, now)
  {
    forall n, r | n in now - before && n in g && r in g[n] && r in g
      ensures r in now
    {
      if n == name {
        var j :| 0 <= j < |g[name]| && g[name][j] == r;
      } else {
        assert n in now - before - {name};
      }
    }
  }

  // ----- The code -----

  class Downloader {
    const requirements: Graph
    var needsDownload: set<Name>
    var namesToDownload: set<Name>

    constructor (g: Graph, marked: set<Name>)
      ensures requirements == g && needsDownload == marked && namesToDownload == {}
    {
      requirements, needsDownload, namesToDownload := g, marked, {};
    }

    method AddPackageAndDependencies(name: Name)
      requires namesToDownload <= requirements.Keys
      modifies this
      ensures Search(requirements, old(namesToDownload), name, namesToDownload)
      ensures needsDownload == old(needsDownload) + (namesToDownload - old(namesToDownload))
      decreases requirements.Keys - namesToDownload
    {
      if name in namesToDownload {
        return;
      }
      if name !in requirements {
        return;
      }
      needsDownload := needsDownload + {name};
      namesToDownload := namesToDownload + {name};
      var deps := requirements[name];
      for i := 0 to |deps|
        invariant Partial(requirements, old(namesToDownload), name, i, namesToDownload)
        invariant needsDownload == old(needsDownload) + (namesToDownload - old(namesToDownload))
      {
        ghost var before := namesToDownload;
        AddPackageAndDependencies(deps[i]);
        PartialStep(requirements, old(namesToDownload), name, i, before, namesToDownload);
      }
      PartialEnd(requirements, old(namesToDownload), name, namesToDownload);
    }

    /** The loop over all package names. `packageNames` is the sorted list of the known
        names; its order does not matter. */
    method SelectPackages(packageNames: seq<Name>)
      requires namesToDownload == {} && (set n | n in packageNames) == requirements.Keys
      requires needsDownload <= requirements.Keys
      modifies this
      ensures IsLeastClosed(requirements, old(needsDownload), namesToDownload)
      ensures needsDownload == namesToDownload
    {
      for i := 0 to |packageNames|
        invariant namesToDownload <= requirements.Keys
        invariant needsDownload == old(needsDownload) + namesToDownload
        invariant forall j :: 0 <= j < i && packageNames[j] in needsDownload ==> packageNames[j] in namesToDownload
        invariant Closed(requirements, namesToDownload)
        invariant forall c :: Closed(requirements, c) && Known(requirements, old(needsDownload)) <= c ==> namesToDownload <= c
      {
        if packageNames[i] in needsDownload {
          AddPackageAndDependencies(packageNames[i]);
        }
      }
      forall n | n in needsDownload
        ensures n in namesToDownload
      {
        assert n in packageNames;
      }
    }

    /** The download loop: the selected packages are announced in list order, numbered
        from one up to the total. */
    method DownloadAll(packageNames: seq<Name>) returns (messages: seq<(nat, nat, Name)>)
      requires Distinct(packageNames) && needsDownload == namesToDownload <= (set n | n in packageNames)
      ensures |messages| == |namesToDownload|
      ensures forall k :: 0 <= k < |messages| ==> messages[k].0 == k + 1 && messages[k].1 == |namesToDownload|
      ensures var names := seq(|messages|, (k: int) requires 0 <= k < |messages| => messages[k].2);
              Distinct(names) && InListOrder(names, packageNames) && forall n :: n in names <==> n in namesToDownload
    {
      messages := [];
      var downloadedSoFar := 0;
      assert packageNames[..|packageNames|] == packageNames;
      for i := 0 to |packageNames|
        invariant downloadedSoFar == |messages| == |Selected(packageNames[..i], needsDownload)|
        invariant forall k :: 0 <= k < |messages| ==>
                    messages[k] == (k + 1, |namesToDownload|, Selected(packageNames[..i], needsDownload)[k])
      {
        assert packageNames[..i + 1][..i] == packageNames[..i];
        if packageNames[i] in needsDownload {
          downloadedSoFar := downloadedSoFar + 1;
          messages := messages + [(downloadedSoFar, |namesToDownload|, packageNames[i])];
        }
      }
      SelectedIs(packageNames, needsDownload);
      SelectedInOrder(packageNames, needsDownload);
      var names := Selected(packageNames, needsDownload);
      DistinctCount(names, namesToDownload);
      assert seq(|messages|, (k: int) requires 0 <= k < |messages| => messages[k].2) == names;
    }
  }

  function Selected(names: seq<Name>, s: set<Name>): seq<Name> {
    if names == [] then [] else
    var front, last := names[..|names| - 1], names[|names| - 1];
    if last in s then Selected(front, s) + [last] else Selected(front, s)
  }

  /** In a list in which each name stands once, one stands before another. */
  ghost predicate Before(list: seq<Name>, x: Name, y: Name) {
    forall a, b :: 0 <= a < |list| && 0 <= b < |list| && list[a] == x && list[b] == y ==> a < b
  }

  ghost predicate InListOrder(names: seq<Name>, list: seq<Name>) {
    forall j, k :: 0 <= j < k < |names| ==> Before(list, names[j], names[k])
  }

  lemma BeforeMore(list: seq<Name>, last: Name, x: Name, y: Name)
    requires last !in list && x in list
    ensures y in list && Before(list, x, y) ==> Before(list + [last], x, y)
    ensures Before(list + [last], x, last)
  {
  }

  lemma {:induction false} SelectedInOrder(names: seq<Name>, s: set<Name>)
    requires Distinct(names)
    ensures InListOrder(Selected(names, s), names)
  {
    if names != [] {
      var front, last := names[..|names| - 1], names[|names| - 1];
      assert names == front + [last] && last !in front;
      SelectedInOrder(front, s);
      SelectedIs(front, s);
      var some, all := Selected(front, s), Selected(names, s);
      forall j, k | 0 <= j < k < |all|
        ensures Before(names, all[j], all[k])
      {
        assert all[j] == some[j] && some[j] in some;
        if k < |some| {
          assert Before(front, some[j], some[k]) && some[k] in some;
          BeforeMore(front, last, some[j], some[k]);
        } else {
          BeforeMore(front, last, some[j], last);
        }
      }
    }
  }

  lemma {:induction false} SelectedIs(names: seq<Name>, s: set<Name>)
    requires Distinct(names)
    ensures Distinct(Selected(names, s))
    ensures forall n :: n in Selected(names, s) <==> n in names && n in s
  {
    if names != [] {
      var front, last := names[..|names| - 1], names[|names| - 1];
      assert names == front + [last];
      SelectedIs(front, s);
      assert last !in front;
    }
  }
}
