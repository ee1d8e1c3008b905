/**
 Discovery in src/relay/discovery/scanner.cpp: a bounded recursive walk.

 The file system is a finite tree.  A directory lists its entries in whatever
 order the platform gives, names distinct; `loadable` says that the leading
 bytes of a file are those of a module container.
 */
module Scanner {
  import opened Text
  import opened JsonPrinter

  datatype Node =
    | File(loadable: bool)
    | Directory(readable: bool, entries: seq<Entry>)
    | Symlink
    | Special
    | NoStatus

  datatype Entry = Entry(name: Bytes, node: Node)

  /** A nominated root: its path, and what is there. */
  datatype Root = Root(path: Bytes, node: Node)

  /** A path, as the root and the names below it. */
  type Path = seq<Bytes>

  datatype Found = Found(path: Path, loadable: bool)

  datatype Candidate = Candidate(id: Bytes, path: Path)

  datatype Limits = Limits(maxFiles: nat, maxDepth: nat)

  // ---------------------------------------------------------------- sorting

  /** Order of names: byte by byte, a prefix first. */
  predicate Before(a: Bytes, b: Bytes) {
    b != [] && (a == [] || a[0] < b[0] || (a[0] == b[0] && Before(a[1..], b[1..])))
  }

  lemma {:induction false} BeforeTotal(a: Bytes, b: Bytes)
    ensures Before(a, b) || Before(b, a) || a == b
    ensures !(Before(a, b) && Before(b, a))
    decreases |a|
  {
    if a != [] && b != [] {
      BeforeTotal(a[1..], b[1..]);
      if a[0] == b[0] && a[1..] == b[1..] {
        Cut(a, 1);
        Cut(b, 1);
      }
    }
  }

  lemma {:induction false} BeforeTransitive(a: Bytes, b: Bytes, c: Bytes)
    requires Before(a, b) && Before(b, c)
    ensures Before(a, c)
    decreases |a|
  {
    if a != [] && a[0] == b[0] && b[0] == c[0] { BeforeTransitive(a[1..], b[1..], c[1..]); }
  }

  predicate Sorted(es: seq<Entry>) {
    forall i, j | 0 <= i < j < |es| :: Before(es[i].name, es[j].name)
  }

  /** Names in a directory are distinct. */
  predicate Distinct(es: seq<Entry>) {
    forall i, j | 0 <= i < j < |es| :: es[i].name != es[j].name
  }

  function Insert(e: Entry, es: seq<Entry>): (r: seq<Entry>)
    ensures multiset(r) == multiset{e} + multiset(es)
    ensures |r| == |es| + 1
  {
    if es == [] || Before(e.name, es[0].name) then [e] + es
    else
      assert es == [es[0]] + es[1..];
      [es[0]] + Insert(e, es[1..])
  }

  function Sort(es: seq<Entry>): (r: seq<Entry>)
    ensures multiset(r) == multiset(es)
    ensures |r| == |es|
  {
    if es == [] then [] else
      assert es == [es[0]] + es[1..];
      Insert(es[0], Sort(es[1..]))
  }

  lemma {:induction false} InsertSorted(e: Entry, es: seq<Entry>)
    requires Sorted(es) && forall i | 0 <= i < |es| :: es[i].name != e.name
    ensures Sorted(Insert(e, es))
  {
    if es != [] {
      BeforeTotal(e.name, es[0].name);
      if Before(e.name, es[0].name) {
        forall i | 0 < i < |es| ensures Before(e.name, es[i].name) {
          BeforeTransitive(e.name, es[0].name, es[i].name);
        }
      } else {
        InsertSorted(e, es[1..]);
        var r := Insert(e, es[1..]);
        forall i | 0 <= i < |r| ensures Before(es[0].name, r[i].name) {
          assert r[i] in multiset(r);
          assert r[i] == e || r[i] in es[1..];
        }
      }
    }
  }

  lemma {:induction false} SortSorts(es: seq<Entry>)
    requires Distinct(es)
    ensures Sorted(Sort(es))
  {
    if es != [] {
      SortSorts(es[1..]);
      var r := Sort(es[1..]);
      forall i | 0 <= i < |r| ensures r[i].name != es[0].name {
        assert r[i] in multiset(r);
        assert r[i] in es[1..];
      }
      InsertSorted(es[0], r);
    }
  }

  lemma SortedHead(a: seq<Entry>, b: seq<Entry>)
    requires Sorted(a) && Sorted(b) && multiset(a) == multiset(b) && a != [] && b != []
    ensures a[0] == b[0]
  {
    assert a[0] in multiset(a) && b[0] in multiset(b);
    assert a[0] in b && b[0] in a;
    var i :| 0 <= i < |b| && b[i] == a[0];
    var j :| 0 <= j < |a| && a[j] == b[0];
    BeforeTotal(a[0].name, b[0].name);
  }

  /** A sorted listing is determined by what is in it. */
  lemma {:induction false} SortedUnique(a: seq<Entry>, b: seq<Entry>)
    requires Sorted(a) && Sorted(b) && multiset(a) == multiset(b)
    ensures a == b
    decreases |a|
  {
    hide Sorted;
    assert |a| == |multiset(a)| && |b| == |multiset(b)|;
    if a != [] {
      SortedHead(a, b);
      Behead(a);
      Behead(b);
      SortedUnique(a[1..], b[1..]);
    }
  }

  lemma Behead(a: seq<Entry>)
    requires a != []
    ensures multiset(a[1..]) == multiset(a) - multiset{a[0]} && a == [a[0]] + a[1..]
    ensures Sorted(a) ==> Sorted(a[1..])
  {
    hide Before;
    assert a == [a[0]] + a[1..];
  }

  /** The order the platform lists a directory in does not matter. */
  lemma EnumerationOrderIrrelevant(a: seq<Entry>, b: seq<Entry>)
    requires Distinct(a) && Distinct(b) && multiset(a) == multiset(b)
    ensures Sort(a) == Sort(b)
  {
    SortSorts(a);
    SortSorts(b);
    SortedUnique(Sort(a), Sort(b));
  }

  // ----------------------------------------------------------------- height

  function Height(node: Node): nat
    decreases node, 0
  {
    if node.Directory? then EntriesHeight(node.entries) else 0
  }

  function EntriesHeight(es: seq<Entry>): (h: nat)
    ensures forall i | 0 <= i < |es| :: Height(es[i].node) < h
    decreases es, 1
  {
    if es == [] then 0 else
      var first, others := Height(es[0].node) + 1, EntriesHeight(es[1..]);
      assert forall i | 0 < i < |es| :: es[i] == es[1..][i - 1];
      if first < others then others else first
  }

  lemma {:induction false} EntriesHeightLeast(es: seq<Entry>, bound: nat)
    requires forall i | 0 <= i < |es| :: Height(es[i].node) < bound
    ensures EntriesHeight(es) <= bound
  {
    if es != [] { EntriesHeightLeast(es[1..], bound); }
  }

  lemma SortHeight(es: seq<Entry>)
    ensures EntriesHeight(Sort(es)) <= EntriesHeight(es)
  {
    var r := Sort(es);
    forall i | 0 <= i < |r| ensures Height(r[i].node) < EntriesHeight(es) {
      assert r[i] in multiset(r);
      assert r[i] in es;
    }
    EntriesHeightLeast(r, EntriesHeight(es));
  }

  lemma TailHeight(es: seq<Entry>)
    requires es != []
    ensures EntriesHeight(es[1..]) <= EntriesHeight(es) && Height(es[0].node) < EntriesHeight(es)
  {
    EntriesHeightLeast(es[1..], EntriesHeight(es));
  }

  // ---------------------------------------------------------- specification

  /** The regular files under a directory in sorted preorder, links skipped, no deeper than allowed. */
  function Listing(path: Path, dir: Node, depth: nat, maxDepth: nat): seq<Found>
    decreases Height(dir), if dir.Directory? then |dir.entries| + 1 else 0
  {
    if depth > maxDepth || !dir.Directory? || !dir.readable then []
    else
      SortHeight(dir.entries);
      EntriesListing(path, Sort(dir.entries), depth, maxDepth)
  }

  function EntriesListing(path: Path, es: seq<Entry>, depth: nat, maxDepth: nat): seq<Found>
    decreases EntriesHeight(es), |es|
  {
    if es == [] then [] else
      TailHeight(es);
      var here := path + [es[0].name];
      (match es[0].node
       case File(loadable) => [Found(here, loadable)]
       case Directory(_, _) => Listing(here, es[0].node, depth + 1, maxDepth)
       case _ => [])
      + EntriesListing(path, es[1..], depth, maxDepth)
  }

  function RootsListing(roots: seq<Root>, maxDepth: nat): seq<Found> {
    if roots == [] then []
    else Listing([roots[0].path], roots[0].node, 0, maxDepth) + RootsListing(roots[1..], maxDepth)
  }

  function CandidateId(n: nat): Bytes { Ascii("cand-") + NatText(n) }

  /** The loadable ones, in order, numbered from 1. */
  function Candidates(found: seq<Found>): seq<Candidate> {
    if found == [] then [] else
      var before, last := Candidates(found[..|found| - 1]), found[|found| - 1];
      if last.loadable then before + [Candidate(CandidateId(|before| + 1), last.path)] else before
  }

  /** Whether walking a directory with `budget` files left cuts something short. */
  predicate Cuts(dir: Node, depth: nat, budget: nat, maxDepth: nat)
    decreases Height(dir), if dir.Directory? then |dir.entries| + 1 else 0
  {
    depth > maxDepth || budget == 0
    || (dir.Directory? && dir.readable &&
        (SortHeight(dir.entries);
         EntriesCut(Sort(dir.entries), depth, budget, maxDepth)))
  }

  predicate EntriesCut(es: seq<Entry>, depth: nat, budget: nat, maxDepth: nat)
    decreases EntriesHeight(es), |es|
  {
    es != [] &&
    (budget == 0
     || (TailHeight(es);
         match es[0].node
         case File(_) => EntriesCut(es[1..], depth, budget - 1, maxDepth)
         case Directory(_, _) =>
           Cuts(es[0].node, depth + 1, budget, maxDepth)
           || EntriesCut(es[1..], depth,
                         budget - Min(budget, |Listing([], es[0].node, depth + 1, maxDepth)|), maxDepth)
         case _ => EntriesCut(es[1..], depth, budget, maxDepth)))
  }

  predicate RootsCut(roots: seq<Root>, budget: nat, maxDepth: nat) {
    roots != [] &&
    (budget == 0
     || (roots[0].node.Directory? && Cuts(roots[0].node, 0, budget, maxDepth))
     || RootsCut(roots[1..], budget - Min(budget, |Listing([], roots[0].node, 0, maxDepth)|), maxDepth))
  }

  // -------------------------------------------------------------- the scan

  class ScanResult {
    var candidates: seq<Candidate>
    var filesExamined: nat
    var truncated: bool
    /** The files examined, in order. */
    ghost var examined: seq<Found>

    constructor ()
      ensures Valid() && examined == [] && !truncated
    {
      candidates, filesExamined, truncated := [], 0, false;
      examined := [];
    }

    ghost predicate Valid()
      reads this
    {
      filesExamined == |examined| && candidates == Candidates(examined)
    }

    /** `count` more files of `listing` have been examined. */
    twostate predicate Took(listing: seq<Found>, maxFiles: nat)
      reads this
    {
      && Valid()
      && old(filesExamined) <= maxFiles
      && examined == old(examined) + Take(listing, maxFiles - old(filesExamined))
    }

    method Examine(path: Path, loadable: bool)
      requires Valid()
      modifies this
      ensures Valid() && truncated == old(truncated)
      ensures examined == old(examined) + [Found(path, loadable)]
    {
      filesExamined := filesExamined + 1;
      examined := examined + [Found(path, loadable)];
      assert examined[..|examined| - 1] == old(examined);
      if !loadable { return; }
      var id := CandidateId(|candidates| + 1);
      candidates := candidates + [Candidate(id, path)];
    }

    method Walk(path: Path, dir: Node, depth: nat, limits: Limits)
      requires Valid() && dir.Directory? && filesExamined <= limits.maxFiles
      modifies this
      ensures Took(Listing(path, dir, depth, limits.maxDepth), limits.maxFiles)
      ensures truncated == (old(truncated) || Cuts(dir, depth, limits.maxFiles - old(filesExamined), limits.maxDepth))
      decreases Height(dir), 1
    {
      if depth > limits.maxDepth {
        truncated := true;
        return;
      }
      if filesExamined >= limits.maxFiles {
        truncated := true;
        return;
      }
      if !dir.readable { return; }
      var entries := Sort(dir.entries);
      SortHeight(dir.entries);
      WalkEntries(path, entries, depth, limits);
    }

    /** What the loop does with one entry. */
    method WalkEntry(path: Path, entry: Entry, depth: nat, limits: Limits)
      requires Valid() && filesExamined < limits.maxFiles
      modifies this
      ensures Took(EntryListing(path, entry, depth, limits.maxDepth), limits.maxFiles)
      ensures truncated
           == (old(truncated) || EntryCut(entry, depth, limits.maxFiles - old(filesExamined), limits.maxDepth))
      decreases Height(entry.node), 2
    {
      match entry.node {
        case File(loadable) => Examine(path + [entry.name], loadable);
        case Directory(_, _) => Walk(path + [entry.name], entry.node, depth + 1, limits);
        case _ =>
      }
    }

    /** The loop of `walk` over the sorted entries. */
    method WalkEntries(path: Path, entries: seq<Entry>, depth: nat, limits: Limits)
      requires Valid() && filesExamined <= limits.maxFiles
      modifies this
      ensures Took(EntriesListing(path, entries, depth, limits.maxDepth), limits.maxFiles)
      ensures truncated
           == (old(truncated) || EntriesCut(entries, depth, limits.maxFiles - old(filesExamined), limits.maxDepth))
      decreases EntriesHeight(entries), 0
    {
      hide Take, Listing, Cuts, Candidates, EntryListing, EntryCut, EntriesListing, EntriesCut;
      var i := 0;
      ghost var budget := limits.maxFiles - filesExamined;
      TakeNothing(budget);
      NoEntries(path, depth, budget, limits.maxDepth);
      ghost var full := EntriesListing(path, entries, depth, limits.maxDepth);
      ghost var seen: seq<Found> := [];
      assert entries[0..] == entries;
      assert [] + full == full;
      while i < |entries|
        invariant 0 <= i <= |entries|
        invariant Valid()
        invariant full == seen + EntriesListing(path, entries[i..], depth, limits.maxDepth)
        invariant examined == old(examined) + Take(seen, budget)
        invariant filesExamined == old(filesExamined) + |Take(seen, budget)| <= limits.maxFiles
        invariant (truncated || EntriesCut(entries[i..], depth, limits.maxFiles - filesExamined, limits.maxDepth))
               == (old(truncated) || EntriesCut(entries, depth, budget, limits.maxDepth))
        decreases |entries| - i
      {
        assert entries[i..][0] == entries[i] && entries[i..][1..] == entries[i + 1..];
        if filesExamined >= limits.maxFiles {
          truncated := true;
          TakeNoMore(seen, EntriesListing(path, entries[i..], depth, limits.maxDepth), budget);
          CutHere(entries[i..], depth, limits.maxDepth);
          return;
        }
        var entry := entries[i];
        ghost var here := EntryListing(path, entry, depth, limits.maxDepth);
        EntriesStep(path, entries[i..], depth, limits.maxFiles - filesExamined, limits.maxDepth);
        HeightAt(entries, i);
        WalkEntry(path, entry, depth, limits);
        TakeMore(old(examined), seen, here, budget);
        Regroup(seen, here, EntriesListing(path, entries[i + 1..], depth, limits.maxDepth));
        seen := seen + here;
        i := i + 1;
      }
      NoEntries(path, depth, limits.maxFiles - filesExamined, limits.maxDepth);
      assert entries[i..] == [];
      assert seen + [] == seen;
    }
  }

  lemma TakeNothing(budget: nat)
    ensures Take([], budget) == []
  {
  }

  lemma NoEntries(path: Path, depth: nat, budget: nat, maxDepth: nat)
    ensures EntriesListing(path, [], depth, maxDepth) == []
    ensures !EntriesCut([], depth, budget, maxDepth)
  {
  }

  lemma CutHere(es: seq<Entry>, depth: nat, maxDepth: nat)
    requires es != []
    ensures EntriesCut(es, depth, 0, maxDepth)
  {
  }

  lemma HeightAt(es: seq<Entry>, i: nat)
    requires i < |es|
    ensures Height(es[i].node) < EntriesHeight(es)
  {
  }

  /** What a budget lets through of a listing. */
  function Take(found: seq<Found>, budget: nat): (r: seq<Found>)
    ensures |r| <= budget
  {
    found[..Min(|found|, budget)]
  }

  /** Taking on within a budget is taking from the whole. */
  lemma TakeMore(before: seq<Found>, seen: seq<Found>, here: seq<Found>, budget: nat)
    requires |Take(seen, budget)| < budget
    ensures Take(seen, budget) == seen
    ensures (before + seen) + Take(here, budget - |seen|) == before + Take(seen + here, budget)
  {
  }

  /** Once the budget is used up, what follows changes nothing. */
  lemma TakeNoMore(seen: seq<Found>, more: seq<Found>, budget: nat)
    requires |Take(seen, budget)| >= budget
    ensures Take(seen + more, budget) == Take(seen, budget)
  {
  }

  /** What one entry contributes to the listing. */
  function EntryListing(path: Path, e: Entry, depth: nat, maxDepth: nat): seq<Found> {
    match e.node
    case File(loadable) => [Found(path + [e.name], loadable)]
    case Directory(_, _) => Listing(path + [e.name], e.node, depth + 1, maxDepth)
    case _ => []
  }

  predicate EntryCut(e: Entry, depth: nat, budget: nat, maxDepth: nat) {
    e.node.Directory? && Cuts(e.node, depth + 1, budget, maxDepth)
  }

  lemma EntriesStep(path: Path, es: seq<Entry>, depth: nat, budget: nat, maxDepth: nat)
    requires es != [] && budget > 0
    ensures var here := EntryListing(path, es[0], depth, maxDepth);
            && EntriesListing(path, es, depth, maxDepth) == here + EntriesListing(path, es[1..], depth, maxDepth)
            && (EntriesCut(es, depth, budget, maxDepth)
                <==> EntryCut(es[0], depth, budget, maxDepth)
                     || EntriesCut(es[1..], depth, budget - |Take(here, budget)|, maxDepth))
  {
    hide Listing, Cuts, Sort;
    if es[0].node.Directory? {
      LengthIgnoresPath(path + [es[0].name], [], es[0].node, depth + 1, maxDepth);
    }
  }

  lemma {:induction false} LengthIgnoresPath(p: Path, q: Path, dir: Node, depth: nat, maxDepth: nat)
    ensures |Listing(p, dir, depth, maxDepth)| == |Listing(q, dir, depth, maxDepth)|
    decreases Height(dir), if dir.Directory? then |dir.entries| + 1 else 0
  {
    if dir.Directory? {
      SortHeight(dir.entries);
      EntriesLengthIgnoresPath(p, q, Sort(dir.entries), depth, maxDepth);
    }
  }

  lemma {:induction false} EntriesLengthIgnoresPath(p: Path, q: Path, es: seq<Entry>, depth: nat, maxDepth: nat)
    ensures |EntriesListing(p, es, depth, maxDepth)| == |EntriesListing(q, es, depth, maxDepth)|
    decreases EntriesHeight(es), |es|
  {
    if es != [] {
      TailHeight(es);
      LengthIgnoresPath(p + [es[0].name], q + [es[0].name], es[0].node, depth + 1, maxDepth);
      EntriesLengthIgnoresPath(p, q, es[1..], depth, maxDepth);
    }
  }

  /** The whole scan, over the roots in order. */
  method ScanForCandidates(roots: seq<Root>, limits: Limits) returns (r: ScanResult)
    ensures fresh(r) && r.Valid()
    ensures r.examined == Take(RootsListing(roots, limits.maxDepth), limits.maxFiles)
    ensures r.truncated == RootsCut(roots, limits.maxFiles, limits.maxDepth)
  {
    r := new ScanResult();
    hide Take, Listing, Cuts, Candidates, RootsListing, RootsCut;
    var i := 0;
    ghost var full := RootsListing(roots, limits.maxDepth);
    ghost var seen: seq<Found> := [];
    TakeNothing(limits.maxFiles);
    NoRoots(limits.maxFiles, limits.maxDepth);
    assert roots[0..] == roots;
    assert [] + full == full;
    while i < |roots|
      invariant 0 <= i <= |roots|
      invariant fresh(r) && r.Valid() && r.filesExamined <= limits.maxFiles
      invariant full == seen + RootsListing(roots[i..], limits.maxDepth)
      invariant r.examined == Take(seen, limits.maxFiles)
      invariant (r.truncated || RootsCut(roots[i..], limits.maxFiles - r.filesExamined, limits.maxDepth))
             == RootsCut(roots, limits.maxFiles, limits.maxDepth)
      decreases |roots| - i
    {
      assert roots[i..][0] == roots[i] && roots[i..][1..] == roots[i + 1..];
      if r.filesExamined >= limits.maxFiles {
        r.truncated := true;
        TakeNoMore(seen, RootsListing(roots[i..], limits.maxDepth), limits.maxFiles);
        NoRootsLeft(roots[i..], limits.maxDepth);
        return;
      }
      var root := roots[i];
      RootsStep(roots[i..], limits.maxFiles - r.filesExamined, limits.maxDepth);
      ghost var here := Listing([root.path], root.node, 0, limits.maxDepth);
      TakeMore([], seen, here, limits.maxFiles);
      assert [] + seen == seen && [] + Take(seen + here, limits.maxFiles) == Take(seen + here, limits.maxFiles);
      if root.node.Directory? {
        r.Walk([root.path], root.node, 0, limits);
      } else {
        NotADirectory([root.path], root.node, limits.maxDepth);
        TakeNothing(limits.maxFiles - |seen|);
        assert seen + here == seen;
      }
      Regroup(seen, here, RootsListing(roots[i + 1..], limits.maxDepth));
      seen := seen + here;
      i := i + 1;
    }
    assert roots[i..] == [];
    NoRoots(limits.maxFiles - r.filesExamined, limits.maxDepth);
    assert seen + [] == seen;
  }

  lemma NoRoots(budget: nat, maxDepth: nat)
    ensures RootsListing([], maxDepth) == [] && !RootsCut([], budget, maxDepth)
  {
  }

  lemma NoRootsLeft(roots: seq<Root>, maxDepth: nat)
    requires roots != []
    ensures RootsCut(roots, 0, maxDepth)
  {
  }

  lemma NotADirectory(path: Path, node: Node, maxDepth: nat)
    requires !node.Directory?
    ensures Listing(path, node, 0, maxDepth) == []
  {
  }

  lemma RootsStep(roots: seq<Root>, budget: nat, maxDepth: nat)
    requires roots != [] && budget > 0
    ensures var here := Listing([roots[0].path], roots[0].node, 0, maxDepth);
            && RootsListing(roots, maxDepth) == here + RootsListing(roots[1..], maxDepth)
            && (RootsCut(roots, budget, maxDepth)
                <==> (roots[0].node.Directory? && Cuts(roots[0].node, 0, budget, maxDepth))
                     || RootsCut(roots[1..], budget - |Take(here, budget)|, maxDepth))
  {
    hide Listing, Cuts;
    LengthIgnoresPath([roots[0].path], [], roots[0].node, 0, maxDepth);
  }

  // ------------------------------------------------------------- theorems

  /** Candidates are numbered cand-1, cand-2, ... and are the loadable files in the order examined. */
  lemma {:induction false} CandidatesInOrder(found: seq<Found>)
    ensures forall i | 0 <= i < |Candidates(found)| :: Candidates(found)[i].id == Ascii("cand-") + NatText(i + 1)
    ensures LoadablePaths(found) == seq(|Candidates(found)|, i requires 0 <= i < |Candidates(found)| => Candidates(found)[i].path)
  {
    if found != [] {
      var n := |found| - 1;
      CandidatesInOrder(found[..n]);
      LoadablePathsSnoc(found[..n], found[n]);
      assert found == found[..n] + [found[n]];
    }
  }

  /** The paths of the loadable files, front first. */
  function LoadablePaths(found: seq<Found>): seq<Path> {
    if found == [] then []
    else (if found[0].loadable then [found[0].path] else []) + LoadablePaths(found[1..])
  }

  lemma {:induction false} LoadablePathsSnoc(found: seq<Found>, last: Found)
    ensures LoadablePaths(found + [last]) == LoadablePaths(found) + if last.loadable then [last.path] else []
  {
    if found == [] {
      assert found + [last] == [last];
    } else {
      assert (found + [last])[1..] == found[1..] + [last];
      LoadablePathsSnoc(found[1..], last);
    }
  }

  lemma {:induction false} UncutIsComplete(path: Path, dir: Node, depth: nat, small: Limits, large: Limits)
    requires !Cuts(dir, depth, small.maxFiles, small.maxDepth)
    requires small.maxFiles <= large.maxFiles && small.maxDepth <= large.maxDepth
    ensures |Listing(path, dir, depth, small.maxDepth)| <= small.maxFiles
    ensures Listing(path, dir, depth, large.maxDepth) == Listing(path, dir, depth, small.maxDepth)
    ensures !Cuts(dir, depth, large.maxFiles, large.maxDepth)
    decreases Height(dir), if dir.Directory? then |dir.entries| + 1 else 0
  {
    if dir.Directory? && dir.readable {
      SortHeight(dir.entries);
      UncutEntriesComplete(path, Sort(dir.entries), depth, small, large);
    }
  }

  lemma TakeAll(found: seq<Found>, budget: nat)
    requires |found| <= budget
    ensures Take(found, budget) == found
  {
  }

  lemma UncutEntryComplete(path: Path, e: Entry, depth: nat, small: Limits, large: Limits)
    requires !EntryCut(e, depth, small.maxFiles, small.maxDepth) && small.maxFiles > 0
    requires small.maxFiles <= large.maxFiles && small.maxDepth <= large.maxDepth
    ensures |EntryListing(path, e, depth, small.maxDepth)| <= small.maxFiles
    ensures EntryListing(path, e, depth, large.maxDepth) == EntryListing(path, e, depth, small.maxDepth)
    ensures !EntryCut(e, depth, large.maxFiles, large.maxDepth)
    decreases Height(e.node) + 1, 0
  {
    if e.node.Directory? { UncutIsComplete(path + [e.name], e.node, depth + 1, small, large); }
  }

  lemma {:induction false} UncutEntriesComplete(path: Path, es: seq<Entry>, depth: nat, small: Limits, large: Limits)
    requires !EntriesCut(es, depth, small.maxFiles, small.maxDepth)
    requires small.maxFiles <= large.maxFiles && small.maxDepth <= large.maxDepth
    ensures |EntriesListing(path, es, depth, small.maxDepth)| <= small.maxFiles
    ensures EntriesListing(path, es, depth, large.maxDepth) == EntriesListing(path, es, depth, small.maxDepth)
    ensures !EntriesCut(es, depth, large.maxFiles, large.maxDepth)
    decreases EntriesHeight(es), |es|
  {
    hide EntriesListing, EntriesCut, EntryListing, EntryCut, Take;
    if es == [] {
      NoEntries(path, depth, large.maxFiles, large.maxDepth);
      NoEntries(path, depth, small.maxFiles, small.maxDepth);
    } else {
      if small.maxFiles == 0 { CutHere(es, depth, small.maxDepth); }
      TailHeight(es);
      EntriesStep(path, es, depth, small.maxFiles, small.maxDepth);
      EntriesStep(path, es, depth, large.maxFiles, large.maxDepth);
      UncutEntryComplete(path, es[0], depth, small, large);
      var here := EntryListing(path, es[0], depth, small.maxDepth);
      TakeAll(here, small.maxFiles);
      TakeAll(here, large.maxFiles);
      UncutEntriesComplete(path, es[1..], depth, small.(maxFiles := small.maxFiles - |here|),
                           large.(maxFiles := large.maxFiles - |here|));
    }
  }

  lemma UncutRoot(root: Root, small: Limits, large: Limits)
    requires root.node.Directory? ==> !Cuts(root.node, 0, small.maxFiles, small.maxDepth)
    requires small.maxFiles <= large.maxFiles && small.maxDepth <= large.maxDepth
    ensures var here := Listing([root.path], root.node, 0, small.maxDepth);
            |here| <= small.maxFiles && Listing([root.path], root.node, 0, large.maxDepth) == here
    ensures root.node.Directory? ==> !Cuts(root.node, 0, large.maxFiles, large.maxDepth)
  {
    if root.node.Directory? { UncutIsComplete([root.path], root.node, 0, small, large); }
  }

  lemma {:induction false} UncutRootsComplete(roots: seq<Root>, small: Limits, large: Limits)
    requires !RootsCut(roots, small.maxFiles, small.maxDepth)
    requires small.maxFiles <= large.maxFiles && small.maxDepth <= large.maxDepth
    ensures |RootsListing(roots, small.maxDepth)| <= small.maxFiles
    ensures RootsListing(roots, large.maxDepth) == RootsListing(roots, small.maxDepth)
    ensures !RootsCut(roots, large.maxFiles, large.maxDepth)
    decreases |roots|
  {
    hide Listing, Cuts, RootsListing, RootsCut, Take;
    if roots == [] {
      NoRoots(small.maxFiles, small.maxDepth);
      NoRoots(large.maxFiles, large.maxDepth);
    } else {
      if small.maxFiles == 0 { NoRootsLeft(roots, small.maxDepth); }
      RootsStep(roots, small.maxFiles, small.maxDepth);
      RootsStep(roots, large.maxFiles, large.maxDepth);
      UncutRoot(roots[0], small, large);
      var here := Listing([roots[0].path], roots[0].node, 0, small.maxDepth);
      TakeAll(here, small.maxFiles);
      TakeAll(here, large.maxFiles);
      UncutRootsComplete(roots[1..], small.(maxFiles := small.maxFiles - |here|),
                         large.(maxFiles := large.maxFiles - |here|));
    }
  }

  /** A scan that was not truncated is what any larger limits give, and has examined every file there is. */
  lemma NotTruncatedMeansComplete(roots: seq<Root>, small: Limits, large: Limits)
    requires !RootsCut(roots, small.maxFiles, small.maxDepth)
    requires small.maxFiles <= large.maxFiles && small.maxDepth <= large.maxDepth
    ensures Take(RootsListing(roots, small.maxDepth), small.maxFiles) == RootsListing(roots, large.maxDepth)
    ensures Take(RootsListing(roots, large.maxDepth), large.maxFiles) == RootsListing(roots, large.maxDepth)
    ensures !RootsCut(roots, large.maxFiles, large.maxDepth)
  {
    UncutRootsComplete(roots, small, large);
    TakeAll(RootsListing(roots, small.maxDepth), small.maxFiles);
    TakeAll(RootsListing(roots, large.maxDepth), large.maxFiles);
  }
}
