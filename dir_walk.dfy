/**
 * `walk` of index.ts over an in-memory directory tree. An `Entry` stands
 * for one name that `fs.readdir` lists, classified the way `fs.stat`
 * classifies it; a directory carries the entries that reading it lists.
 */
module DirWalk {
  import opened Paths
  import opened ExtFilter
  import opened Seqs

  datatype Entry = File(name: string) | Dir(name: string, children: seq<Entry>)

  // ---------------------------------------------------------------------
  // The hidden-name test

  /** The regular expression `(^|\/)\.[^\/\.]` matches `s` at index `i`. */
  predicate HiddenAt(s: string, i: int)
  {
    0 <= i && i + 1 < |s| && (i == 0 || s[i - 1] == '/') &&
    s[i] == '.' && s[i + 1] != '/' && s[i + 1] != '.'
  }

  /** `/(^|\/)\.[^\/\.]/g.test(s)` (the literal is evaluated afresh for every test). */
  predicate IsHidden(s: string)
  {
    exists i :: 0 <= i < |s| && HiddenAt(s, i)
  }

  /** For an entry name, which has no `/`, the test means: a `.` followed by a character other than `.`. */
  lemma HiddenName(name: string)
    requires '/' !in name
    ensures IsHidden(name) <==> |name| >= 2 && name[0] == '.' && name[1] != '.'
  {
    if |name| >= 2 && name[0] == '.' && name[1] != '.' {
      assert HiddenAt(name, 0);
    }
  }

  /** The filter `walk` applies to `entries`: keep the names the hidden-name test rejects. */
  predicate Shown(e: Entry)
  {
    !IsHidden(e.name)
  }

  /** The entries `walk` visits: hidden names are removed exactly when `showHidden` is set. */
  function Visible(es: seq<Entry>, showHidden: bool): (r: seq<Entry>)
    ensures !showHidden ==> r == es
    ensures SizeAll(r) <= SizeAll(es)
  {
    if showHidden then FilterSize(es, Shown); Filter(es, Shown) else es
  }

  /** With `showHidden` set, exactly the entries with hidden names are gone. */
  lemma VisibleMembers(es: seq<Entry>, showHidden: bool)
    ensures forall e :: e in Visible(es, showHidden) <==> e in es && (!showHidden || !IsHidden(e.name))
  {
    FilterMembers(es, Shown);
  }

  /** Removing hidden entries keeps the others in their relative order. */
  lemma VisibleAppend(a: seq<Entry>, b: seq<Entry>, showHidden: bool)
    ensures Visible(a + b, showHidden) == Visible(a, showHidden) + Visible(b, showHidden)
  {
    FilterAppend(a, b, Shown);
  }

  /** For entry names, which have no `/`, the names removed are exactly those made of a `.` and then a character other than `.`. */
  lemma VisibleByName(es: seq<Entry>, showHidden: bool)
    requires forall e :: e in es ==> '/' !in e.name
    ensures forall e :: e in Visible(es, showHidden) <==>
      e in es && (!showHidden || !(|e.name| >= 2 && e.name[0] == '.' && e.name[1] != '.'))
  {
    VisibleMembers(es, showHidden);
    forall e | e in es {
      HiddenName(e.name);
    }
  }

  // ---------------------------------------------------------------------
  // Tree size, the measure that makes the walk terminate

  function Size(e: Entry): (n: nat)
    ensures n >= 1
  {
    match e
    case File(_) => 1
    case Dir(_, cs) => 1 + SizeAll(cs)
  }

  function SizeAll(es: seq<Entry>): nat
  {
    if es == [] then 0 else SizeAll(es[..|es| - 1]) + Size(es[|es| - 1])
  }

  lemma {:induction false} SizeAllAppend(a: seq<Entry>, b: seq<Entry>)
    ensures SizeAll(a + b) == SizeAll(a) + SizeAll(b)
  {
    if b == [] {
      assert a + b == a;
    } else {
      assert (a + b)[..|a + b| - 1] == a + b[..|b| - 1];
      assert (a + b)[|a + b| - 1] == b[|b| - 1];
      SizeAllAppend(a, b[..|b| - 1]);
    }
  }

  lemma {:induction false} FilterSize(es: seq<Entry>, keep: Entry -> bool)
    ensures SizeAll(Filter(es, keep)) <= SizeAll(es)
  {
    if es != [] {
      var init, last := es[..|es| - 1], es[|es| - 1];
      assert es == init + [last];
      FilterSize(init, keep);
      SizeAllAppend(Filter(init, keep), if keep(last) then [last] else []);
    }
  }

  lemma SizeOfElement(es: seq<Entry>, i: nat)
    requires i < |es|
    ensures Size(es[i]) <= SizeAll(es)
  {
    assert es == es[..i] + [es[i]] + es[i + 1..];
    SizeAllAppend(es[..i] + [es[i]], es[i + 1..]);
    SizeAllAppend(es[..i], [es[i]]);
    assert SizeAll([es[i]]) == SizeAll([]) + Size(es[i]);
  }


  // ---------------------------------------------------------------------
  // What `walk` returns

  /** The extension test `walk` applies to the path of every file, as a predicate on paths. */
  function Filters(allowed: seq<string>, disallowed: seq<string>): string -> bool
  {
    p => Keep(p, allowed, disallowed)
  }

  /**
   * The result of `walk(dir, ...)` on a directory whose listing is
   * `entries`, where `keep` is the test a file's path must pass.
   */
  function Listing(dir: string, entries: seq<Entry>, showHidden: bool, keep: string -> bool): seq<string>
    decreases SizeAll(entries), 2
  {
    Collect(dir, Visible(entries, showHidden), showHidden, keep)
  }

  /** `ret` after the loop has processed the visible entries `es`. */
  function Collect(dir: string, es: seq<Entry>, showHidden: bool, keep: string -> bool): seq<string>
    decreases SizeAll(es), 1
  {
    if es == [] then []
    else Collect(dir, es[..|es| - 1], showHidden, keep) + Contribution(dir, es[|es| - 1], showHidden, keep)
  }

  /** What one entry adds to `ret`: a subdirectory's whole result, or a file's path when it passes the test. */
  function Contribution(dir: string, e: Entry, showHidden: bool, keep: string -> bool): seq<string>
    decreases Size(e), 0
  {
    var fullpath := Resolve(dir, e.name);
    match e
    case Dir(_, cs) => Listing(fullpath, cs, showHidden, keep)
    case File(_) => if keep(fullpath) then [fullpath] else []
  }

  /** `walk`: filter the listing, then loop over it, splicing subdirectory results in place. */
  method Walk(dir: string, entries: seq<Entry>, showHidden: bool,
              allowedExtensions: seq<string>, disallowedExtensions: seq<string>)
    returns (ret: seq<string>)
    ensures ret == Listing(dir, entries, showHidden, Filters(allowedExtensions, disallowedExtensions))
    decreases SizeAll(entries)
  {
    ghost var keep := Filters(allowedExtensions, disallowedExtensions);
    var es := entries;
    if showHidden {
      es := Filter(es, Shown);
    }
    assert es == Visible(entries, showHidden);
    ret := [];
    for i := 0 to |es|
      invariant ret == Collect(dir, es[..i], showHidden, keep)
    {
      var entry := es[i];
      var fullpath := Resolve(dir, entry.name);
      CollectStep(dir, es, i, showHidden, keep);
      if entry.Dir? {
        SizeOfElement(es, i);
        var sub := Walk(fullpath, entry.children, showHidden, allowedExtensions, disallowedExtensions);
        ret := ret + sub;
      } else if CheckExtAllowed(fullpath, allowedExtensions) && CheckExtDisallowed(fullpath, disallowedExtensions) {
        ret := ret + [fullpath];
      }
    }
    assert es[..|es|] == es;
  }

  /** One turn of the loop of `walk` adds the contribution of the entry at `i`. */
  lemma CollectStep(dir: string, es: seq<Entry>, i: nat, showHidden: bool, keep: string -> bool)
    requires i < |es|
    ensures Collect(dir, es[..i + 1], showHidden, keep)
         == Collect(dir, es[..i], showHidden, keep) + Contribution(dir, es[i], showHidden, keep)
  {
    assert es[..i + 1] == es[..i] + [es[i]];
    CollectSnoc(dir, es[..i], es[i], showHidden, keep);
  }

  // ---------------------------------------------------------------------
  // Properties of the walk

  /**
   * Filtering inside the walk is the same as walking with a weaker test
   * (for example with no extension lists at all) and filtering the
   * resulting paths afterwards, in order.
   */
  lemma {:induction false} ListingIsKeptWalk(dir: string, entries: seq<Entry>, showHidden: bool,
                                             keep: string -> bool, weaker: string -> bool)
    requires forall p :: keep(p) ==> weaker(p)
    ensures Listing(dir, entries, showHidden, keep)
         == Filter(Listing(dir, entries, showHidden, weaker), keep)
    decreases SizeAll(entries), 2
  {
    CollectIsKept(dir, Visible(entries, showHidden), showHidden, keep, weaker);
  }

  lemma {:induction false} CollectIsKept(dir: string, es: seq<Entry>, showHidden: bool,
                                         keep: string -> bool, weaker: string -> bool)
    requires forall p :: keep(p) ==> weaker(p)
    ensures Collect(dir, es, showHidden, keep) == Filter(Collect(dir, es, showHidden, weaker), keep)
    decreases SizeAll(es), 1
  {
    if es != [] {
      var init, last := es[..|es| - 1], es[|es| - 1];
      CollectIsKept(dir, init, showHidden, keep, weaker);
      ContributionIsKept(dir, last, showHidden, keep, weaker);
      FilterAppend(Collect(dir, init, showHidden, weaker), Contribution(dir, last, showHidden, weaker), keep);
    }
  }

  lemma {:induction false} ContributionIsKept(dir: string, e: Entry, showHidden: bool,
                                              keep: string -> bool, weaker: string -> bool)
    requires forall p :: keep(p) ==> weaker(p)
    ensures Contribution(dir, e, showHidden, keep)
         == Filter(Contribution(dir, e, showHidden, weaker), keep)
    decreases Size(e), 0
  {
    var fullpath := Resolve(dir, e.name);
    match e
    case Dir(_, cs) =>
      ListingIsKeptWalk(fullpath, cs, showHidden, keep, weaker);
    case File(_) =>
      FilterSnoc([], fullpath, keep);
      assert [] + [fullpath] == [fullpath];
  }

  /** Empty extension lists let every path through. */
  lemma NoListsKeepAll(p: string)
    ensures Filters([], [])(p)
  {
  }

  /** The paths of the files of one entry that `walk` reaches, before extension filtering. */
  ghost function EntryFiles(dir: string, e: Entry, showHidden: bool): set<string>
    decreases e
  {
    match e
    case File(n) => {Resolve(dir, n)}
    case Dir(n, cs) => TreeFiles(Resolve(dir, n), cs, showHidden)
  }

  /** The paths of every file under a listing, skipping hidden names at every level when `showHidden` is set. */
  ghost function TreeFiles(dir: string, es: seq<Entry>, showHidden: bool): set<string>
    decreases es
  {
    set e, p | e in es && (!showHidden || !IsHidden(e.name)) && p in EntryFiles(dir, e, showHidden) :: p
  }

  /**
   * A path is in the result exactly when it is the path of a file reached
   * through non-filtered entries and it passes the test: the walk returns
   * only files, never directories, and misses none.
   */
  lemma {:induction false} ListingMembers(dir: string, entries: seq<Entry>, showHidden: bool, keep: string -> bool)
    ensures forall p :: p in Listing(dir, entries, showHidden, keep) <==>
      p in TreeFiles(dir, entries, showHidden) && keep(p)
    decreases SizeAll(entries), 2
  {
    var vs := Visible(entries, showHidden);
    CollectMembers(dir, vs, showHidden, keep);
    VisibleMembers(entries, showHidden);
    forall p ensures (exists v :: v in vs && p in EntryFiles(dir, v, showHidden))
                 <==> p in TreeFiles(dir, entries, showHidden)
    {
      if p in TreeFiles(dir, entries, showHidden) {
        var e :| e in entries && (!showHidden || !IsHidden(e.name)) && p in EntryFiles(dir, e, showHidden);
        assert e in vs;
      }
    }
  }

  lemma {:induction false} CollectMembers(dir: string, es: seq<Entry>, showHidden: bool, keep: string -> bool)
    ensures forall p :: p in Collect(dir, es, showHidden, keep) <==>
      (exists v :: v in es && p in EntryFiles(dir, v, showHidden)) && keep(p)
    decreases SizeAll(es), 1
  {
    if es != [] {
      var init, last := es[..|es| - 1], es[|es| - 1];
      assert es == init + [last];
      CollectMembers(dir, init, showHidden, keep);
      ContributionMembers(dir, last, showHidden, keep);
      forall p ensures (exists v :: v in es && p in EntryFiles(dir, v, showHidden)) <==>
        (exists v :: v in init && p in EntryFiles(dir, v, showHidden)) || p in EntryFiles(dir, last, showHidden)
      {
        if exists v :: v in es && p in EntryFiles(dir, v, showHidden) {
          var v :| v in es && p in EntryFiles(dir, v, showHidden);
          assert v in init || v == last;
        }
      }
    }
  }

  lemma {:induction false} ContributionMembers(dir: string, e: Entry, showHidden: bool, keep: string -> bool)
    ensures forall p :: p in Contribution(dir, e, showHidden, keep) <==>
      p in EntryFiles(dir, e, showHidden) && keep(p)
    decreases Size(e), 0
  {
    match e
    case Dir(n, cs) =>
      ListingMembers(Resolve(dir, n), cs, showHidden, keep);
    case File(_) =>
  }

  /** No path in the result of `walk` has an extension that is on both lists. */
  lemma ListingExcludesBothLists(dir: string, entries: seq<Entry>, showHidden: bool,
                                 allowed: seq<string>, disallowed: seq<string>)
    ensures forall p :: p in Listing(dir, entries, showHidden, Filters(allowed, disallowed)) ==>
      !(ExtOf(p) in allowed && ExtOf(p) in disallowed)
  {
    ListingMembers(dir, entries, showHidden, Filters(allowed, disallowed));
  }

  lemma CollectSnoc(dir: string, es: seq<Entry>, e: Entry, showHidden: bool, keep: string -> bool)
    ensures Collect(dir, es + [e], showHidden, keep)
         == Collect(dir, es, showHidden, keep) + Contribution(dir, e, showHidden, keep)
  {
    assert (es + [e])[..|es|] == es;
  }

  /** The loop splices results in entry order: the results of two runs of entries are the two results in turn. */
  lemma CollectAppend(dir: string, a: seq<Entry>, b: seq<Entry>, showHidden: bool, keep: string -> bool)
    ensures Collect(dir, a + b, showHidden, keep) == Collect(dir, a, showHidden, keep) + Collect(dir, b, showHidden, keep)
  {
    var f := es => Collect(dir, es, showHidden, keep);
    var g := e => Contribution(dir, e, showHidden, keep);
    forall es, e ensures f(es + [e]) == f(es) + g(e) {
      CollectSnoc(dir, es, e, showHidden, keep);
    }
    SnocToAppend(f, g, a, b);
  }

  /** The result at a subdirectory entry is that subdirectory's own result, between its neighbours' results. */
  lemma ListingSplice(dir: string, entries: seq<Entry>, showHidden: bool, keep: string -> bool, i: nat)
    requires i < |Visible(entries, showHidden)|
    requires Visible(entries, showHidden)[i].Dir?
    ensures var vs := Visible(entries, showHidden);
      Listing(dir, entries, showHidden, keep)
        == Collect(dir, vs[..i], showHidden, keep)
           + Listing(Resolve(dir, vs[i].name), vs[i].children, showHidden, keep)
           + Collect(dir, vs[i + 1..], showHidden, keep)
  {
    var vs := Visible(entries, showHidden);
    assert vs == vs[..i] + [vs[i]] + vs[i + 1..];
    CollectAppend(dir, vs[..i] + [vs[i]], vs[i + 1..], showHidden, keep);
    CollectSnoc(dir, vs[..i], vs[i], showHidden, keep);
  }

  // ---------------------------------------------------------------------
  // No path twice

  /** The entries of one directory listing have pairwise distinct names. */
  predicate DistinctNames(es: seq<Entry>)
  {
    forall i, j :: 0 <= i < j < |es| ==> es[i].name != es[j].name
  }

  /** Names as a file system gives them: non-empty, free of `/`, and distinct within each directory, at every level. */
  predicate WellEntry(e: Entry)
    decreases e
  {
    e.name != [] && '/' !in e.name &&
    (e.Dir? ==> DistinctNames(e.children) && forall c :: c in e.children ==> WellEntry(c))
  }

  predicate WellNamed(es: seq<Entry>)
  {
    DistinctNames(es) && forall e :: e in es ==> WellEntry(e)
  }

  /** Removing hidden entries keeps a listing well named. */
  lemma VisibleWellNamed(es: seq<Entry>, showHidden: bool)
    requires WellNamed(es)
    ensures WellNamed(Visible(es, showHidden))
  {
    if showHidden {
      var key := (e: Entry) => e.name;
      assert forall i, j :: 0 <= i < j < |es| ==> key(es[i]) != key(es[j]);
      FilterDistinct(es, Shown, key);
      FilterMembers(es, Shown);
    }
  }

  /** Every file path reached through an entry is that entry's path or lies below it. */
  lemma {:induction false} EntryFilesUnder(dir: string, e: Entry, showHidden: bool)
    requires WellEntry(e)
    ensures forall p :: p in EntryFiles(dir, e, showHidden) ==> Under(p, Resolve(dir, e.name))
    decreases e
  {
    match e
    case File(_) =>
    case Dir(n, cs) =>
      var q := Resolve(dir, n);
      ResolveNoTrailingSlash(dir, n);
      forall p | p in TreeFiles(q, cs, showHidden) ensures Under(p, q) {
        var c :| c in cs && (!showHidden || !IsHidden(c.name)) && p in EntryFiles(q, c, showHidden);
        EntryFilesUnder(q, c, showHidden);
        UnderParent(p, q, c.name);
      }
  }

  /**
   * In a tree whose names are well formed, `walk` returns no path twice:
   * paths below distinct entries of one directory never meet.
   */
  lemma {:induction false} ListingNoDup(dir: string, entries: seq<Entry>, showHidden: bool, keep: string -> bool)
    requires WellNamed(entries)
    ensures NoDup(Listing(dir, entries, showHidden, keep))
    decreases SizeAll(entries), 2
  {
    VisibleWellNamed(entries, showHidden);
    CollectNoDup(dir, Visible(entries, showHidden), showHidden, keep);
  }

  lemma {:induction false} CollectNoDup(dir: string, es: seq<Entry>, showHidden: bool, keep: string -> bool)
    requires WellNamed(es)
    ensures NoDup(Collect(dir, es, showHidden, keep))
    decreases SizeAll(es), 1
  {
    if es != [] {
      var init, last := es[..|es| - 1], es[|es| - 1];
      assert es == init + [last];
      assert WellNamed(init);
      CollectNoDup(dir, init, showHidden, keep);
      ContributionNoDup(dir, last, showHidden, keep);
      var a, b := Collect(dir, init, showHidden, keep), Contribution(dir, last, showHidden, keep);
      CollectMembers(dir, init, showHidden, keep);
      ContributionMembers(dir, last, showHidden, keep);
      EntryFilesUnder(dir, last, showHidden);
      forall p | p in a ensures p !in b {
        var v :| v in init && p in EntryFiles(dir, v, showHidden);
        var k :| 0 <= k < |init| && init[k] == v;
        assert es[k] == v;
        EntryFilesUnder(dir, v, showHidden);
        if p in b {
          UnderSeparate(p, dir, v.name, last.name);
          assert false;
        }
      }
      NoDupAppend(a, b);
    }
  }

  lemma {:induction false} ContributionNoDup(dir: string, e: Entry, showHidden: bool, keep: string -> bool)
    requires WellEntry(e)
    ensures NoDup(Contribution(dir, e, showHidden, keep))
    decreases Size(e), 0
  {
    match e
    case Dir(n, cs) =>
      ListingNoDup(Resolve(dir, n), cs, showHidden, keep);
    case File(_) =>
  }
}
