/**
 The listing a scan takes its files from, told without any walk: which files are
 in it, under which paths, and in which order.
 */
module ScanOrder {
  import opened Text
  import opened Scanner

  /** Names are distinct in every directory. */
  predicate Tidy(node: Node)
    decreases node
  {
    node.Directory? ==>
      Distinct(node.entries) && forall i | 0 <= i < |node.entries| :: Tidy(node.entries[i].node)
  }

  /** Following `names` leads to a regular file, through readable directories not below the depth limit. */
  ghost predicate Reaches(node: Node, names: Path, loadable: bool, depth: nat, maxDepth: nat)
    decreases |names|, 1
  {
    if names == [] then node == File(loadable)
    else node.Directory? && node.readable && depth <= maxDepth
         && EntriesReach(node.entries, names, loadable, depth, maxDepth)
  }

  ghost predicate EntriesReach(es: seq<Entry>, names: Path, loadable: bool, depth: nat, maxDepth: nat)
    decreases |names|, 0
  {
    names != [] && exists i | 0 <= i < |es| ::
      es[i].name == names[0] && Reaches(es[i].node, names[1..], loadable, depth + 1, maxDepth)
  }

  /** Paths name by name, each byte by byte, a prefix first. */
  predicate PathBefore(a: Path, b: Path) {
    b != [] && (a == [] || Before(a[0], b[0]) || (a[0] == b[0] && PathBefore(a[1..], b[1..])))
  }

  /** Names are compared at the first byte in which they differ; a prefix comes first. */
  lemma {:induction false} NamesCompared(a: Bytes, b: Bytes, k: nat)
    requires k <= |a| && k <= |b| && a[..k] == b[..k]
    ensures k == |a| < |b| ==> Before(a, b)
    ensures k < |a| && k < |b| && a[k] < b[k] ==> Before(a, b)
    ensures k == |b| ==> !Before(a, b)
    ensures k < |a| && k < |b| && a[k] > b[k] ==> !Before(a, b)
  {
    if k > 0 {
      assert a[0] == a[..k][0] && b[0] == b[..k][0];
      assert a[1..][..k - 1] == a[..k][1..] && b[1..][..k - 1] == b[..k][1..];
      NamesCompared(a[1..], b[1..], k - 1);
    }
  }

  lemma {:induction false} PathBeforeAt(a: Path, b: Path, k: nat)
    requires k < |a| && k < |b| && a[..k] == b[..k] && Before(a[k], b[k])
    ensures PathBefore(a, b)
  {
    if k > 0 {
      assert a[0] == a[..k][0] && b[0] == b[..k][0];
      assert a[1..][..k - 1] == a[..k][1..] && b[1..][..k - 1] == b[..k][1..];
      PathBeforeAt(a[1..], b[1..], k - 1);
    }
  }

  // ------------------------------------------------------------------ paths

  /** Everything found lies below `path`. */
  ghost predicate Under(found: seq<Found>, path: Path) {
    forall i | 0 <= i < |found| :: |found[i].path| > |path| && found[i].path[..|path|] == path
  }

  /** Everything found lies at or below one of the entries of `path`. */
  ghost predicate UnderEntries(found: seq<Found>, path: Path, es: seq<Entry>) {
    forall i | 0 <= i < |found| :: UnderSome(found[i].path, path, es)
  }

  ghost predicate UnderSome(p: Path, path: Path, es: seq<Entry>) {
    |p| > |path| && p[..|path|] == path && exists k | 0 <= k < |es| :: es[k].name == p[|path|]
  }

  lemma {:induction false} ListingUnder(path: Path, dir: Node, depth: nat, maxDepth: nat)
    ensures Under(Listing(path, dir, depth, maxDepth), path)
    decreases Height(dir), if dir.Directory? then |dir.entries| + 1 else 0
  {
    hide EntriesListing, Sort;
    if dir.Directory? && dir.readable && depth <= maxDepth {
      SortHeight(dir.entries);
      EntriesUnder(path, Sort(dir.entries), depth, maxDepth);
    }
  }

  lemma EntryUnder(path: Path, e: Entry, depth: nat, maxDepth: nat)
    requires Under(Listing(path + [e.name], e.node, depth + 1, maxDepth), path + [e.name])
    ensures UnderEntries(EntryListing(path, e, depth, maxDepth), path, [e])
  {
    hide Listing;
    var found := EntryListing(path, e, depth, maxDepth);
    forall i | 0 <= i < |found| ensures UnderSome(found[i].path, path, [e]) {
      var p := found[i].path;
      assert p[..|path| + 1] == path + [e.name];
      assert p[..|path|] == p[..|path| + 1][..|path|];
      assert p[|path|] == p[..|path| + 1][|path|];
      assert [e][0].name == p[|path|];
    }
  }

  lemma {:induction false} EntriesUnder(path: Path, es: seq<Entry>, depth: nat, maxDepth: nat)
    ensures UnderEntries(EntriesListing(path, es, depth, maxDepth), path, es)
    decreases EntriesHeight(es), |es|
  {
    hide Listing, EntriesListing, EntryListing, UnderSome, Under;
    if es == [] {
      NoEntries(path, depth, 0, maxDepth);
    } else {
      TailHeight(es);
      ListingUnder(path + [es[0].name], es[0].node, depth + 1, maxDepth);
      EntryUnder(path, es[0], depth, maxDepth);
      EntriesUnder(path, es[1..], depth, maxDepth);
      EntriesStep(path, es, depth, 1, maxDepth);
      forall p: Path ensures UnderSome(p, path, [es[0]]) || UnderSome(p, path, es[1..]) ==> UnderSome(p, path, es) {
        UnderMore(p, path, es);
      }
    }
  }

  lemma UnderMore(p: Path, path: Path, es: seq<Entry>)
    requires es != []
    ensures UnderSome(p, path, [es[0]]) || UnderSome(p, path, es[1..]) ==> UnderSome(p, path, es)
  {
    if UnderSome(p, path, es[1..]) {
      var k :| 0 <= k < |es[1..]| && es[1..][k].name == p[|path|];
      assert es[k + 1].name == p[|path|];
    }
    if UnderSome(p, path, [es[0]]) { assert es[0].name == p[|path|]; }
  }

  // ------------------------------------------------------------------ order

  ghost predicate InOrder(found: seq<Found>) {
    forall i, j | 0 <= i < j < |found| :: PathBefore(found[i].path, found[j].path)
  }

  lemma OrderedAppend(a: seq<Found>, b: seq<Found>)
    requires InOrder(a) && InOrder(b)
    requires forall i, j | 0 <= i < |a| && 0 <= j < |b| :: PathBefore(a[i].path, b[j].path)
    ensures InOrder(a + b)
  {
  }

  lemma {:induction false} ListingOrdered(path: Path, dir: Node, depth: nat, maxDepth: nat)
    requires Tidy(dir)
    ensures InOrder(Listing(path, dir, depth, maxDepth))
    decreases Height(dir), if dir.Directory? then |dir.entries| + 1 else 0
  {
    hide EntriesListing, Sort, Sorted, Distinct;
    if dir.Directory? && dir.readable && depth <= maxDepth {
      SortHeight(dir.entries);
      SortSorts(dir.entries);
      SortedTidy(dir.entries);
      EntriesOrdered(path, Sort(dir.entries), depth, maxDepth);
    }
  }

  lemma SortedTidy(es: seq<Entry>)
    requires forall i | 0 <= i < |es| :: Tidy(es[i].node)
    ensures forall i | 0 <= i < |Sort(es)| :: Tidy(Sort(es)[i].node)
  {
    hide Tidy, Sort;
    var r := Sort(es);
    forall i | 0 <= i < |r| ensures Tidy(r[i].node) {
      assert r[i] in multiset(r);
      assert r[i] in es;
    }
  }

  lemma {:induction false} EntriesOrdered(path: Path, es: seq<Entry>, depth: nat, maxDepth: nat)
    requires Sorted(es) && forall i | 0 <= i < |es| :: Tidy(es[i].node)
    ensures InOrder(EntriesListing(path, es, depth, maxDepth))
    decreases EntriesHeight(es), |es|
  {
    hide Listing, EntriesListing, EntryListing, InOrder, Tidy, UnderEntries;
    if es == [] {
      NoEntries(path, depth, 0, maxDepth);
      NothingOrdered();
    } else {
      TailHeight(es);
      EntriesStep(path, es, depth, 1, maxDepth);
      ListingUnder(path + [es[0].name], es[0].node, depth + 1, maxDepth);
      EntryUnder(path, es[0], depth, maxDepth);
      EntriesUnder(path, es[1..], depth, maxDepth);
      ListingOrdered(path + [es[0].name], es[0].node, depth + 1, maxDepth);
      EntryOrdered(path, es[0], depth, maxDepth);
      EntriesOrdered(path, es[1..], depth, maxDepth);
      FirstBeforeRest(path, es, EntryListing(path, es[0], depth, maxDepth), EntriesListing(path, es[1..], depth, maxDepth));
      OrderedAppend(EntryListing(path, es[0], depth, maxDepth), EntriesListing(path, es[1..], depth, maxDepth));
    }
  }

  lemma NothingOrdered()
    ensures InOrder([])
  {
  }

  lemma EntryOrdered(path: Path, e: Entry, depth: nat, maxDepth: nat)
    requires InOrder(Listing(path + [e.name], e.node, depth + 1, maxDepth))
    ensures InOrder(EntryListing(path, e, depth, maxDepth))
  {
    hide Listing;
  }

  lemma FirstBeforeRest(path: Path, es: seq<Entry>, a: seq<Found>, b: seq<Found>)
    requires es != [] && Sorted(es) && UnderEntries(a, path, [es[0]]) && UnderEntries(b, path, es[1..])
    ensures forall i, j | 0 <= i < |a| && 0 <= j < |b| :: PathBefore(a[i].path, b[j].path)
  {
    forall i, j | 0 <= i < |a| && 0 <= j < |b| ensures PathBefore(a[i].path, b[j].path) {
      var p, q := a[i].path, b[j].path;
      assert UnderSome(p, path, [es[0]]) && UnderSome(q, path, es[1..]);
      var k :| 0 <= k < |es[1..]| && es[1..][k].name == q[|path|];
      assert es[k + 1] == es[1..][k];
      PathBeforeAt(p, q, |path|);
    }
  }

  // ------------------------------------------------------------- membership

  lemma {:induction false} ListingReaches(path: Path, dir: Node, names: Path, loadable: bool, depth: nat, maxDepth: nat)
    requires dir.Directory?
    ensures Found(path + names, loadable) in Listing(path, dir, depth, maxDepth)
       <==> names != [] && Reaches(dir, names, loadable, depth, maxDepth)
    decreases Height(dir), |dir.entries| + 1
  {
    hide EntriesListing, Sort, EntriesReach;
    if dir.readable && depth <= maxDepth {
      SortHeight(dir.entries);
      EntriesListingReaches(path, Sort(dir.entries), names, loadable, depth, maxDepth);
      SortedReaches(dir.entries, names, loadable, depth, maxDepth);
      NamesNeeded(dir.entries, names, loadable, depth, maxDepth);
    }
  }

  lemma NamesNeeded(es: seq<Entry>, names: Path, loadable: bool, depth: nat, maxDepth: nat)
    ensures EntriesReach(es, names, loadable, depth, maxDepth) ==> names != []
  {
  }

  lemma SortedReaches(es: seq<Entry>, names: Path, loadable: bool, depth: nat, maxDepth: nat)
    ensures EntriesReach(Sort(es), names, loadable, depth, maxDepth) <==> EntriesReach(es, names, loadable, depth, maxDepth)
  {
    hide Sort, Reaches;
    var r := Sort(es);
    forall e: Entry ensures e in r <==> e in es {
      assert e in r <==> e in multiset(r);
      assert e in es <==> e in multiset(es);
    }
    ReachEitherWay(r, es, names, loadable, depth, maxDepth);
    ReachEitherWay(es, r, names, loadable, depth, maxDepth);
  }

  lemma ReachEitherWay(a: seq<Entry>, b: seq<Entry>, names: Path, loadable: bool, depth: nat, maxDepth: nat)
    requires forall e: Entry :: e in a ==> e in b
    ensures EntriesReach(a, names, loadable, depth, maxDepth) ==> EntriesReach(b, names, loadable, depth, maxDepth)
  {
    hide Reaches;
    if EntriesReach(a, names, loadable, depth, maxDepth) {
      var i :| 0 <= i < |a| && a[i].name == names[0] && Reaches(a[i].node, names[1..], loadable, depth + 1, maxDepth);
      assert a[i] in b;
      var j :| 0 <= j < |b| && b[j] == a[i];
      assert b[j].name == names[0];
    }
  }

  lemma {:induction false} EntriesListingReaches(path: Path, es: seq<Entry>, names: Path, loadable: bool, depth: nat, maxDepth: nat)
    ensures Found(path + names, loadable) in EntriesListing(path, es, depth, maxDepth)
       <==> EntriesReach(es, names, loadable, depth, maxDepth)
    decreases EntriesHeight(es), |es|
  {
    hide Listing, EntriesListing, EntryListing, EntriesReach, Reaches;
    if es == [] {
      NoEntries(path, depth, 0, maxDepth);
      NothingReached(names, loadable, depth, maxDepth);
    } else {
      TailHeight(es);
      EntriesStep(path, es, depth, 1, maxDepth);
      EntriesListingReaches(path, es[1..], names, loadable, depth, maxDepth);
      ReachStep(es, names, loadable, depth, maxDepth);
      EntryListingReaches(path, es[0], names, loadable, depth, maxDepth);
    }
  }

  lemma NothingReached(names: Path, loadable: bool, depth: nat, maxDepth: nat)
    ensures !EntriesReach([], names, loadable, depth, maxDepth)
  {
  }

  lemma ReachStep(es: seq<Entry>, names: Path, loadable: bool, depth: nat, maxDepth: nat)
    requires es != []
    ensures EntriesReach(es, names, loadable, depth, maxDepth)
       <==> EntriesReach([es[0]], names, loadable, depth, maxDepth)
            || EntriesReach(es[1..], names, loadable, depth, maxDepth)
  {
    ReachEitherWay([es[0]], es, names, loadable, depth, maxDepth);
    ReachEitherWay(es[1..], es, names, loadable, depth, maxDepth);
    hide Reaches;
    if EntriesReach(es, names, loadable, depth, maxDepth) {
      var i :| 0 <= i < |es| && es[i].name == names[0] && Reaches(es[i].node, names[1..], loadable, depth + 1, maxDepth);
      if i == 0 { assert [es[0]][0].name == names[0]; } else { assert es[1..][i - 1].name == names[0]; }
    }
  }

  lemma {:induction false} EntryListingReaches(path: Path, e: Entry, names: Path, loadable: bool, depth: nat, maxDepth: nat)
    ensures Found(path + names, loadable) in EntryListing(path, e, depth, maxDepth)
       <==> EntriesReach([e], names, loadable, depth, maxDepth)
    decreases Height(e.node) + 1, 0
  {
    hide Listing;
    var here := path + [e.name];
    ListingUnder(here, e.node, depth + 1, maxDepth);
    EntryUnder(path, e, depth, maxDepth);
    OnlyEntry(e, names, loadable, depth, maxDepth);
    var found := EntryListing(path, e, depth, maxDepth);
    if Found(path + names, loadable) in found {
      var i :| 0 <= i < |found| && found[i] == Found(path + names, loadable);
      assert UnderSome(found[i].path, path, [e]);
      assert names != [] && names[0] == (path + names)[|path|];
    }
    if names != [] && names[0] == e.name {
      assert path + names == here + names[1..];
      if e.node.Directory? { ListingReaches(here, e.node, names[1..], loadable, depth + 1, maxDepth); }
      if names[1..] == [] { assert names == [e.name]; }
      if e.node.File? { FileReaches(e.node, names[1..], loadable, depth + 1, maxDepth, here); }
    }
  }

  lemma FileReaches(node: Node, names: Path, loadable: bool, depth: nat, maxDepth: nat, here: Path)
    requires node.File?
    ensures Reaches(node, names, loadable, depth, maxDepth) <==> names == [] && node.loadable == loadable
    ensures here + names == here <==> names == []
  {
    assert |here + names| == |here| + |names|;
    assert here + [] == here;
  }

  lemma OnlyEntry(e: Entry, names: Path, loadable: bool, depth: nat, maxDepth: nat)
    ensures EntriesReach([e], names, loadable, depth, maxDepth)
       <==> names != [] && e.name == names[0] && Reaches(e.node, names[1..], loadable, depth + 1, maxDepth)
  {
    hide Reaches;
    assert [e][0] == e;
  }

  // ---------------------------------------------------------------- theorem

  /**
   What a scan of one root can examine: exactly the regular files reached by names
   from it through readable directories within the depth, each under its own path
   and loadable as it is, in the order of their paths.
   */
  lemma ListingExactly(root: Bytes, dir: Node, maxDepth: nat)
    requires dir.Directory? && Tidy(dir)
    ensures var listing := Listing([root], dir, 0, maxDepth);
            && (forall found :: found in listing <==>
                  found.path != [] && found.path[0] == root
                  && Reaches(dir, found.path[1..], found.loadable, 0, maxDepth))
            && InOrder(listing)
  {
    hide Listing, InOrder, Tidy, Reaches;
    var listing := Listing([root], dir, 0, maxDepth);
    ListingOrdered([root], dir, 0, maxDepth);
    ListingUnder([root], dir, 0, maxDepth);
    forall found: Found
      ensures found in listing <==>
                found.path != [] && found.path[0] == root && Reaches(dir, found.path[1..], found.loadable, 0, maxDepth)
    {
      if found in listing {
        var i :| 0 <= i < |listing| && listing[i] == found;
        assert listing[i].path[..1] == [root];
        assert found.path[0] == found.path[..1][0];
      }
      if found.path != [] && found.path[0] == root {
        assert found.path == [root] + found.path[1..];
        ListingReaches([root], dir, found.path[1..], found.loadable, 0, maxDepth);
        DirectoriesAreNoFiles(dir, found.loadable, maxDepth);
      }
    }
  }

  lemma DirectoriesAreNoFiles(dir: Node, loadable: bool, maxDepth: nat)
    requires dir.Directory?
    ensures !Reaches(dir, [], loadable, 0, maxDepth)
  {
  }

  /** Over several roots, one after the other in the order given. */
  lemma {:induction false} RootsInOrder(roots: seq<Root>, maxDepth: nat)
    ensures RootsListing(roots, maxDepth)
         == Concat(seq(|roots|, i requires 0 <= i < |roots| => Listing([roots[i].path], roots[i].node, 0, maxDepth)))
    ensures forall i | 0 <= i < |roots| && !roots[i].node.Directory? ::
              Listing([roots[i].path], roots[i].node, 0, maxDepth) == []
  {
    hide Listing;
    if roots != [] {
      RootsInOrder(roots[1..], maxDepth);
      var all := seq(|roots|, i requires 0 <= i < |roots| => Listing([roots[i].path], roots[i].node, 0, maxDepth));
      var rest := roots[1..];
      assert all[1..]
          == seq(|rest|, i requires 0 <= i < |rest| => Listing([rest[i].path], rest[i].node, 0, maxDepth));
    }
    forall i | 0 <= i < |roots| && !roots[i].node.Directory?
      ensures Listing([roots[i].path], roots[i].node, 0, maxDepth) == []
    {
      NotADirectory([roots[i].path], roots[i].node, maxDepth);
    }
  }
}
