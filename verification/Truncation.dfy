/**
 What the flag `truncated` of a scan says, in terms of the tree alone, and when
 it is right: src/relay/discovery/scanner.hpp takes it for "the result is partial".
 */
module Truncation {
  import opened Text
  import opened Scanner

  // ------------------------------------------------- conditions on the tree

  /** Some directory that the walk comes upon lies below the depth limit. */
  predicate DeepDirectory(node: Node, depth: nat, maxDepth: nat)
    decreases node
  {
    node.Directory? &&
    (depth > maxDepth
     || (node.readable && exists i | 0 <= i < |node.entries| :: DeepDirectory(node.entries[i].node, depth + 1, maxDepth)))
  }

  predicate HasFile(node: Node)
    decreases node
  {
    node.File?
    || (node.Directory? && node.readable && exists i | 0 <= i < |node.entries| :: HasFile(node.entries[i].node))
  }

  /** Some regular file lies in a directory below the depth limit. */
  predicate DeepFile(node: Node, depth: nat, maxDepth: nat)
    decreases node
  {
    node.Directory? &&
    (if depth > maxDepth then HasFile(node)
     else node.readable && exists i | 0 <= i < |node.entries| :: DeepFile(node.entries[i].node, depth + 1, maxDepth))
  }

  /** The last thing the walk looks at below `dir` is a regular file. */
  predicate EndsInFile(dir: Node, depth: nat, maxDepth: nat)
    decreases Height(dir), 1
  {
    depth <= maxDepth && dir.Directory? && dir.readable &&
    (SortHeight(dir.entries);
     LastIsFile(Sort(dir.entries), depth, maxDepth))
  }

  predicate LastIsFile(es: seq<Entry>, depth: nat, maxDepth: nat)
    decreases EntriesHeight(es), 0
  {
    es != [] && (es[|es| - 1].node.File? || EndsInFile(es[|es| - 1].node, depth + 1, maxDepth))
  }

  predicate AnyDeepDirectory(es: seq<Entry>, depth: nat, maxDepth: nat) {
    exists i | 0 <= i < |es| :: DeepDirectory(es[i].node, depth, maxDepth)
  }

  predicate AnyHasFile(es: seq<Entry>) { exists i | 0 <= i < |es| :: HasFile(es[i].node) }

  predicate AnyDeepFile(es: seq<Entry>, depth: nat, maxDepth: nat) {
    exists i | 0 <= i < |es| :: DeepFile(es[i].node, depth, maxDepth)
  }

  predicate RootsDeepDirectory(roots: seq<Root>, maxDepth: nat) {
    exists i | 0 <= i < |roots| :: DeepDirectory(roots[i].node, 0, maxDepth)
  }

  predicate RootsDeepFile(roots: seq<Root>, maxDepth: nat) {
    exists i | 0 <= i < |roots| :: DeepFile(roots[i].node, 0, maxDepth)
  }

  predicate RootsEndInFile(roots: seq<Root>, maxDepth: nat) {
    roots != [] && EndsInFile(roots[|roots| - 1].node, 0, maxDepth)
  }

  // ---------------------------------------------------------------- sorting

  /** Sorting neither adds nor drops an entry. */
  lemma SameEntries(es: seq<Entry>)
    ensures forall e: Entry :: e in Sort(es) <==> e in es
  {
    var r := Sort(es);
    forall e: Entry ensures e in r <==> e in es {
      assert e in r <==> e in multiset(r);
      assert e in es <==> e in multiset(es);
    }
  }

  lemma SortedAlike(es: seq<Entry>, depth: nat, maxDepth: nat)
    ensures AnyDeepDirectory(Sort(es), depth, maxDepth) <==> AnyDeepDirectory(es, depth, maxDepth)
    ensures AnyHasFile(Sort(es)) <==> AnyHasFile(es)
    ensures AnyDeepFile(Sort(es), depth, maxDepth) <==> AnyDeepFile(es, depth, maxDepth)
  {
    hide Sort, DeepDirectory, HasFile, DeepFile;
    SameEntries(es);
    AlikeOneWay(es, Sort(es), depth, maxDepth);
    AlikeOneWay(Sort(es), es, depth, maxDepth);
  }

  lemma AlikeOneWay(a: seq<Entry>, b: seq<Entry>, depth: nat, maxDepth: nat)
    requires forall e: Entry :: e in a ==> e in b
    ensures AnyDeepDirectory(a, depth, maxDepth) ==> AnyDeepDirectory(b, depth, maxDepth)
    ensures AnyHasFile(a) ==> AnyHasFile(b)
    ensures AnyDeepFile(a, depth, maxDepth) ==> AnyDeepFile(b, depth, maxDepth)
  {
    hide DeepDirectory, HasFile, DeepFile;
    forall i | 0 <= i < |a| ensures exists j :: 0 <= j < |b| && b[j] == a[i] {
      assert a[i] in b;
    }
  }

  lemma Either(a: seq<Entry>, b: seq<Entry>, depth: nat, maxDepth: nat)
    ensures AnyDeepDirectory(a + b, depth, maxDepth)
       <==> AnyDeepDirectory(a, depth, maxDepth) || AnyDeepDirectory(b, depth, maxDepth)
    ensures AnyHasFile(a + b) <==> AnyHasFile(a) || AnyHasFile(b)
    ensures AnyDeepFile(a + b, depth, maxDepth) <==> AnyDeepFile(a, depth, maxDepth) || AnyDeepFile(b, depth, maxDepth)
  {
    hide DeepDirectory, HasFile, DeepFile;
    forall e: Entry ensures e in a + b <==> e in a || e in b {}
    AlikeOneWay(a, a + b, depth, maxDepth);
    AlikeOneWay(b, a + b, depth, maxDepth);
    assert forall i | 0 <= i < |a + b| :: (a + b)[i] == if i < |a| then a[i] else b[i - |a|];
  }

  lemma AnyStep(es: seq<Entry>, depth: nat, maxDepth: nat)
    requires es != []
    ensures AnyDeepDirectory(es, depth, maxDepth)
       <==> DeepDirectory(es[0].node, depth, maxDepth) || AnyDeepDirectory(es[1..], depth, maxDepth)
    ensures AnyHasFile(es) <==> HasFile(es[0].node) || AnyHasFile(es[1..])
    ensures AnyDeepFile(es, depth, maxDepth)
       <==> DeepFile(es[0].node, depth, maxDepth) || AnyDeepFile(es[1..], depth, maxDepth)
  {
    hide DeepDirectory, HasFile, DeepFile;
    assert es == [es[0]] + es[1..];
    Either([es[0]], es[1..], depth, maxDepth);
  }

  // ---------------------------------------------------- when a scan is cut

  /** What cuts a walk that lists `n` files, with `budget` files left. */
  predicate Overrun(n: nat, budget: nat, deep: bool, endsInFile: bool) {
    deep || n > budget || (n == budget && !endsInFile)
  }

  lemma {:induction false} CutsClosed(path: Path, dir: Node, depth: nat, budget: nat, maxDepth: nat)
    requires dir.Directory?
    ensures Cuts(dir, depth, budget, maxDepth)
       <==> Overrun(|Listing(path, dir, depth, maxDepth)|, budget,
                    DeepDirectory(dir, depth, maxDepth), EndsInFile(dir, depth, maxDepth))
    ensures EndsInFile(dir, depth, maxDepth) ==> Listing(path, dir, depth, maxDepth) != []
    decreases Height(dir), |dir.entries| + 1
  {
    hide EntriesListing, EntriesCut, LastIsFile, Sort;
    if depth <= maxDepth && dir.readable {
      SortHeight(dir.entries);
      EntriesCutClosed(path, Sort(dir.entries), depth, budget, maxDepth);
      SortedAlike(dir.entries, depth + 1, maxDepth);
      assert DeepDirectory(dir, depth, maxDepth) <==> AnyDeepDirectory(dir.entries, depth + 1, maxDepth);
      assert EndsInFile(dir, depth, maxDepth) <==> LastIsFile(Sort(dir.entries), depth, maxDepth);
      assert Listing(path, dir, depth, maxDepth) == EntriesListing(path, Sort(dir.entries), depth, maxDepth);
      if Sort(dir.entries) == [] {
        NoDeepEntries(depth + 1, maxDepth);
        NoEntries(path, depth, budget, maxDepth);
      }
    }
  }

  lemma {:induction false} EntriesCutClosed(path: Path, es: seq<Entry>, depth: nat, budget: nat, maxDepth: nat)
    ensures EntriesCut(es, depth, budget, maxDepth)
       <==> es != [] && Overrun(|EntriesListing(path, es, depth, maxDepth)|, budget,
                                AnyDeepDirectory(es, depth + 1, maxDepth), LastIsFile(es, depth, maxDepth))
    ensures LastIsFile(es, depth, maxDepth) ==> EntriesListing(path, es, depth, maxDepth) != []
    decreases EntriesHeight(es), |es|
  {
    hide Listing, Cuts, DeepDirectory, EndsInFile, EntriesListing, EntriesCut, AnyDeepDirectory, EntryListing, EntryCut;
    if es == [] {
      NoEntries(path, depth, budget, maxDepth);
    } else {
      var e, rest := es[0], es[1..];
      var here := EntryListing(path, e, depth, maxDepth);
      TailHeight(es);
      AnyStep(es, depth + 1, maxDepth);
      EntryCutClosed(path, e, depth, budget, maxDepth);
      EntriesCutClosed(path, rest, depth, budget - Min(budget, |here|), maxDepth);
      if rest == [] { NoEntries(path, depth, 0, maxDepth); NoDeepEntries(depth + 1, maxDepth); }
      if budget == 0 {
        EntriesStep(path, es, depth, 1, maxDepth);
        CutHere(es, depth, maxDepth);
      } else {
        EntriesStep(path, es, depth, budget, maxDepth);
      }
    }
  }

  lemma NoDeepEntries(depth: nat, maxDepth: nat)
    ensures !AnyDeepDirectory([], depth, maxDepth) && !AnyDeepFile([], depth, maxDepth) && !AnyHasFile([])
  {
  }

  /** The same for one entry, which has been looked at already. */
  lemma {:induction false} EntryCutClosed(path: Path, e: Entry, depth: nat, budget: nat, maxDepth: nat)
    ensures var n := |EntryListing(path, e, depth, maxDepth)|;
            var ends := e.node.File? || EndsInFile(e.node, depth + 1, maxDepth);
            && (ends ==> n > 0)
            && (EntryCut(e, depth, budget, maxDepth)
                <==> e.node.Directory? && Overrun(n, budget, DeepDirectory(e.node, depth + 1, maxDepth), ends))
            && (!e.node.Directory? ==> n <= 1 && !DeepDirectory(e.node, depth + 1, maxDepth) && (n == 1 <==> ends))
    decreases Height(e.node) + 1, 0
  {
    if e.node.Directory? { CutsClosed(path + [e.name], e.node, depth + 1, budget, maxDepth); }
  }

  lemma {:induction false} RootsCutClosed(roots: seq<Root>, budget: nat, maxDepth: nat)
    ensures RootsCut(roots, budget, maxDepth)
       <==> roots != [] && Overrun(|RootsListing(roots, maxDepth)|, budget,
                                   RootsDeepDirectory(roots, maxDepth), RootsEndInFile(roots, maxDepth))
    ensures RootsEndInFile(roots, maxDepth) ==> RootsListing(roots, maxDepth) != []
    decreases |roots|
  {
    hide Listing, Cuts, DeepDirectory, EndsInFile, RootsListing, RootsCut, RootsDeepDirectory;
    if roots == [] {
      NoRoots(budget, maxDepth);
    } else {
      var here := Listing([roots[0].path], roots[0].node, 0, maxDepth);
      RootsAnyStep(roots, maxDepth);
      RootCutClosed(roots[0], budget, maxDepth);
      RootsCutClosed(roots[1..], budget - Min(budget, |here|), maxDepth);
      if |roots| == 1 { NoRoots(0, maxDepth); NoDeepRoots(maxDepth); }
      if budget == 0 {
        RootsStep(roots, 1, maxDepth);
        NoRootsLeft(roots, maxDepth);
      } else {
        RootsStep(roots, budget, maxDepth);
      }
    }
  }

  lemma NoDeepRoots(maxDepth: nat)
    ensures !RootsDeepDirectory([], maxDepth) && !RootsDeepFile([], maxDepth)
  {
  }

  lemma RootsAnyStep(roots: seq<Root>, maxDepth: nat)
    requires roots != []
    ensures RootsDeepDirectory(roots, maxDepth)
       <==> DeepDirectory(roots[0].node, 0, maxDepth) || RootsDeepDirectory(roots[1..], maxDepth)
    ensures RootsDeepFile(roots, maxDepth) <==> DeepFile(roots[0].node, 0, maxDepth) || RootsDeepFile(roots[1..], maxDepth)
  {
    hide DeepDirectory, DeepFile;
    forall i | 0 < i < |roots| ensures roots[i] == roots[1..][i - 1] {}
    forall i | 0 <= i < |roots| - 1 ensures roots[1..][i] == roots[i + 1] {}
  }

  lemma RootCutClosed(root: Root, budget: nat, maxDepth: nat)
    ensures var n := |Listing([root.path], root.node, 0, maxDepth)|;
            && (EndsInFile(root.node, 0, maxDepth) ==> n > 0)
            && (root.node.Directory? ==>
                  (Cuts(root.node, 0, budget, maxDepth)
                   <==> Overrun(n, budget, DeepDirectory(root.node, 0, maxDepth), EndsInFile(root.node, 0, maxDepth))))
            && (!root.node.Directory? ==>
                  n == 0 && !DeepDirectory(root.node, 0, maxDepth) && !EndsInFile(root.node, 0, maxDepth))
  {
    if root.node.Directory? { CutsClosed([root.path], root.node, 0, budget, maxDepth); }
  }

  /**
   A scan is truncated exactly when a directory lies just below the depth limit,
   or there are more files than allowed, or exactly as many but the last of them
   is not the last thing to be looked at.
   */
  lemma TruncatedExactly(roots: seq<Root>, limits: Limits)
    ensures RootsCut(roots, limits.maxFiles, limits.maxDepth)
       <==> || RootsDeepDirectory(roots, limits.maxDepth)
            || |RootsListing(roots, limits.maxDepth)| > limits.maxFiles
            || (|RootsListing(roots, limits.maxDepth)| == limits.maxFiles
                && roots != [] && !RootsEndInFile(roots, limits.maxDepth))
  {
    hide RootsCut, RootsListing, RootsDeepDirectory, RootsEndInFile;
    RootsCutClosed(roots, limits.maxFiles, limits.maxDepth);
    NoRoots(limits.maxFiles, limits.maxDepth);
    NoDeepRoots(limits.maxDepth);
  }

  // ------------------------------------------------- when something is lost

  /** Without a limit on depth: no tree is nested more deeply than this. */
  function RootsHeight(roots: seq<Root>): nat {
    if roots == [] then 0 else
      var first, others := Height(roots[0].node), RootsHeight(roots[1..]);
      if first < others then others else first
  }

  lemma {:induction false} FileListed(path: Path, dir: Node, depth: nat, maxDepth: nat)
    requires dir.Directory? && maxDepth >= depth + Height(dir)
    ensures Listing(path, dir, depth, maxDepth) != [] <==> HasFile(dir)
    decreases Height(dir), |dir.entries| + 1
  {
    hide EntriesListing, Sort;
    if dir.readable {
      SortHeight(dir.entries);
      EntriesFileListed(path, Sort(dir.entries), depth, maxDepth);
      SortedAlike(dir.entries, depth, maxDepth);
    }
  }

  lemma {:induction false} EntriesFileListed(path: Path, es: seq<Entry>, depth: nat, maxDepth: nat)
    requires maxDepth >= depth + EntriesHeight(es)
    ensures EntriesListing(path, es, depth, maxDepth) != [] <==> AnyHasFile(es)
    decreases EntriesHeight(es), |es|
  {
    hide Listing, AnyHasFile, EntriesListing;
    if es == [] {
      NoEntries(path, depth, 0, maxDepth);
      NoDeepEntries(depth, maxDepth);
    } else {
      TailHeight(es);
      AnyStep(es, depth, maxDepth);
      EntriesStep(path, es, depth, 1, maxDepth);
      if es[0].node.Directory? { FileListed(path + [es[0].name], es[0].node, depth + 1, maxDepth); }
      EntriesFileListed(path, es[1..], depth, maxDepth);
    }
  }

  /** Looking deeper lists more files exactly when there are some below the limit. */
  lemma {:induction false} DeeperListsMore(path: Path, dir: Node, depth: nat, small: nat, large: nat)
    requires small <= large && large >= depth + Height(dir)
    ensures var less, more := Listing(path, dir, depth, small), Listing(path, dir, depth, large);
            && (DeepFile(dir, depth, small) ==> |less| < |more|)
            && (!DeepFile(dir, depth, small) ==> less == more)
    decreases Height(dir), if dir.Directory? then |dir.entries| + 1 else 0
  {
    hide EntriesListing, Sort, HasFile;
    if dir.Directory? {
      if depth > small {
        FileListed(path, dir, depth, large);
      } else if dir.readable {
        SortHeight(dir.entries);
        EntriesListMore(path, Sort(dir.entries), depth, small, large);
        SortedAlike(dir.entries, depth + 1, small);
      }
    }
  }

  lemma {:induction false} EntriesListMore(path: Path, es: seq<Entry>, depth: nat, small: nat, large: nat)
    requires small <= large && large >= depth + EntriesHeight(es)
    ensures var less, more := EntriesListing(path, es, depth, small), EntriesListing(path, es, depth, large);
            && (AnyDeepFile(es, depth + 1, small) ==> |less| < |more|)
            && (!AnyDeepFile(es, depth + 1, small) ==> less == more)
    decreases EntriesHeight(es), |es|
  {
    hide Listing, AnyDeepFile, DeepFile, EntriesListing, EntryListing;
    if es == [] {
      NoEntries(path, depth, 0, small);
      NoEntries(path, depth, 0, large);
      NoDeepEntries(depth + 1, small);
    } else {
      TailHeight(es);
      AnyStep(es, depth + 1, small);
      EntriesStep(path, es, depth, 1, small);
      EntriesStep(path, es, depth, 1, large);
      EntryListsMore(path, es[0], depth, small, large);
      EntriesListMore(path, es[1..], depth, small, large);
    }
  }

  lemma {:induction false} EntryListsMore(path: Path, e: Entry, depth: nat, small: nat, large: nat)
    requires small <= large && large >= depth + 1 + Height(e.node)
    ensures var less, more := EntryListing(path, e, depth, small), EntryListing(path, e, depth, large);
            && (DeepFile(e.node, depth + 1, small) ==> |less| < |more|)
            && (!DeepFile(e.node, depth + 1, small) ==> less == more)
    decreases Height(e.node) + 1, 0
  {
    if e.node.Directory? { DeeperListsMore(path + [e.name], e.node, depth + 1, small, large); }
  }

  lemma {:induction false} RootsListMore(roots: seq<Root>, small: nat, large: nat)
    requires small <= large && large >= RootsHeight(roots)
    ensures var less, more := RootsListing(roots, small), RootsListing(roots, large);
            && (RootsDeepFile(roots, small) ==> |less| < |more|)
            && (!RootsDeepFile(roots, small) ==> less == more)
  {
    hide Listing, DeepFile, RootsListing, RootsDeepFile;
    if roots == [] {
      NoRoots(0, small);
      NoRoots(0, large);
      NoDeepRoots(small);
    } else {
      RootsAnyStep(roots, small);
      RootsStep(roots, 1, small);
      RootsStep(roots, 1, large);
      DeeperListsMore([roots[0].path], roots[0].node, 0, small, large);
      RootsListMore(roots[1..], small, large);
    }
  }

  /** The scan has examined every regular file there is, at any depth. */
  predicate Complete(roots: seq<Root>, limits: Limits) {
    Take(RootsListing(roots, limits.maxDepth), limits.maxFiles)
    == RootsListing(roots, limits.maxDepth + RootsHeight(roots))
  }

  /** Something was lost exactly when there are more files than allowed, or a file below the depth limit. */
  lemma LostExactly(roots: seq<Root>, limits: Limits)
    ensures Complete(roots, limits)
       <==> |RootsListing(roots, limits.maxDepth)| <= limits.maxFiles && !RootsDeepFile(roots, limits.maxDepth)
  {
    hide RootsListing, RootsDeepFile;
    RootsListMore(roots, limits.maxDepth, limits.maxDepth + RootsHeight(roots));
  }

  /**
   The flag is set although nothing was lost exactly when no file is over the
   limit or below it, and yet a directory is below it, or something is left to
   be looked at after the last file allowed.
   */
  lemma TruncatedThoughComplete(roots: seq<Root>, limits: Limits)
    ensures RootsCut(roots, limits.maxFiles, limits.maxDepth) && Complete(roots, limits)
       <==> && |RootsListing(roots, limits.maxDepth)| <= limits.maxFiles
            && !RootsDeepFile(roots, limits.maxDepth)
            && (|| RootsDeepDirectory(roots, limits.maxDepth)
                || (|RootsListing(roots, limits.maxDepth)| == limits.maxFiles
                    && roots != [] && !RootsEndInFile(roots, limits.maxDepth)))
    ensures !RootsCut(roots, limits.maxFiles, limits.maxDepth) ==> Complete(roots, limits)
  {
    hide RootsCut, RootsListing, RootsDeepFile, RootsDeepDirectory, RootsEndInFile, Complete;
    TruncatedExactly(roots, limits);
    LostExactly(roots, limits);
    if !RootsCut(roots, limits.maxFiles, limits.maxDepth) {
      NotTruncatedMeansComplete(roots, limits, limits.(maxDepth := limits.maxDepth + RootsHeight(roots)));
      CompleteWhenEqual(roots, limits);
    }
  }

  lemma CompleteWhenEqual(roots: seq<Root>, limits: Limits)
    requires Take(RootsListing(roots, limits.maxDepth), limits.maxFiles)
          == RootsListing(roots, limits.maxDepth + RootsHeight(roots))
    ensures Complete(roots, limits)
  {
  }

  /** One way: an empty directory below the depth limit. */
  lemma EmptyDirectoryBelow()
    ensures var roots := [Root([], Directory(true, [Entry([], Directory(true, []))]))];
            RootsCut(roots, 4096, 0) && Complete(roots, Limits(4096, 0))
  {
    var inner := Directory(true, []);
    var es := [Entry([], inner)];
    var dir := Directory(true, es);
    var roots := [Root([], dir)];
    OneSorted(es[0]);
    assert DeepDirectory(es[0].node, 1, 0);
    assert DeepDirectory(roots[0].node, 0, 0);
    assert !HasFile(inner);
    assert !DeepFile(es[0].node, 1, 0);
    assert !DeepFile(roots[0].node, 0, 0);
    assert Listing([[], []], inner, 1, 0) == [];
    assert es[1..] == [] && EntriesListing([[]], es, 0, 0) == [];
    assert roots[1..] == [] && RootsListing(roots, 0) == [];
    TruncatedThoughComplete(roots, Limits(4096, 0));
  }

  lemma OneSorted(e: Entry)
    ensures Sort([e]) == [e]
  {
    assert [e][1..] == [] && Insert(e, []) == [e];
  }

  /** Another: as many files as allowed, and then a link. */
  lemma LinkAfterLastFile(loadable: bool)
    ensures var roots := [Root([], Directory(true, [Entry([1], File(loadable)), Entry([2], Symlink)]))];
            RootsCut(roots, 1, 0) && Complete(roots, Limits(1, 0))
  {
    var es := [Entry([1], File(loadable)), Entry([2], Symlink)];
    var dir := Directory(true, es);
    var roots := [Root([], dir)];
    TwoSorted(es);
    assert !DeepFile(es[0].node, 1, 0) && !DeepFile(es[1].node, 1, 0);
    assert !DeepFile(roots[0].node, 0, 0);
    assert es[1..] == [Entry([2], Symlink)] && es[1..][1..] == [];
    var root: Path := [[]];
    assert root + [[1]] == [[], [1]];
    assert EntriesListing([[]], es[1..], 0, 0) == [];
    assert EntriesListing([[]], es, 0, 0) == [Found([[], [1]], loadable)];
    assert roots[1..] == [] && |RootsListing(roots, 0)| == 1;
    assert !LastIsFile(es, 0, 0) && !EndsInFile(dir, 0, 0);
    TruncatedThoughComplete(roots, Limits(1, 0));
  }

  lemma TwoSorted(es: seq<Entry>)
    requires |es| == 2 && es[0].name == [1] && es[1].name == [2]
    ensures Sort(es) == es
  {
    assert es[1..] == [es[1]];
    OneSorted(es[1]);
    assert Before(es[0].name, es[1].name);
    assert Insert(es[0], [es[1]]) == es;
  }
}
