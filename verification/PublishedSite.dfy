/** What a successful build of the site guarantees about its contents. */
module PublishedSite {
  import opened Basics
  import opened Record
  import opened Selection
  import opened Timestamps
  import opened Publisher
  import opened SiteLists

  // ---------------------------------------------------------------- the directory after a list

  /** Same name, same digest. */
  predicate Consistent(items: seq<Item>) {
    forall i, j | 0 <= i < |items| && 0 <= j < |items| && items[i].name == items[j].name ::
      items[i].sha256 == items[j].sha256
  }

  predicate HasName(items: seq<Item>, name: string) {
    exists i | 0 <= i < |items| :: items[i].name == name
  }

  /** The last entry of the list for a name. */
  function LastFor(items: seq<Item>, name: string): (i: nat)
    requires HasName(items, name)
    ensures i < |items| && items[i].name == name
    ensures forall k | i < k < |items| :: items[k].name != name
  {
    if items[|items| - 1].name == name then |items| - 1 else LastFor(items[..|items| - 1], name)
  }

  lemma {:induction false} FetchAllAppend(w: World, files: Files, a: seq<Item>, b: seq<Item>)
    ensures FetchAll(w, files, a + b) ==
            match FetchAll(w, files, a) case None => None case Some(mid) => FetchAll(w, mid, b)
    decreases |a|
  {
    if a == [] {
      assert a + b == b;
    } else {
      assert (a + b)[1..] == a[1..] + b;
      var next := FetchOne(w, files, a[0]);
      if next.Some? {
        FetchAllAppend(w, next.value, a[1..], b);
      }
    }
  }

  /** What holds of the files after a list was fetched into a directory. */
  ghost predicate FilesOf(w: World, before: Files, items: seq<Item>, after: Files) {
    && (forall n :: n in after <==> n in before || HasName(items, n))
    && (forall n | HasName(items, n) :: w.digest(after[n]) == items[LastFor(items, n)].sha256)
    && (forall n | n in before && !HasName(items, n) :: after[n] == before[n])
  }

  lemma HasNameAppend(a: seq<Item>, b: seq<Item>, n: string)
    ensures HasName(a + b, n) <==> HasName(a, n) || HasName(b, n)
  {
    if HasName(a, n) {
      var i :| 0 <= i < |a| && a[i].name == n;
      assert (a + b)[i].name == n;
    }
    if HasName(b, n) {
      var i :| 0 <= i < |b| && b[i].name == n;
      assert (a + b)[|a| + i].name == n;
    }
  }

  lemma NamesWithLast(front: seq<Item>, last: Item, n: string)
    ensures HasName(front + [last], n) <==> n == last.name || HasName(front, n)
    ensures HasName(front + [last], n) ==>
            LastFor(front + [last], n) == if n == last.name then |front| else LastFor(front, n)
  {
    var items := front + [last];
    assert items[|front|] == last && items[..|front|] == front;
    if HasName(front, n) {
      var i :| 0 <= i < |front| && front[i].name == n;
      assert items[i].name == n;
    }
  }

  lemma OneMoreFile(w: World, before: Files, front: seq<Item>, mid: Files, last: Item, bytes: Bytes)
    requires FilesOf(w, before, front, mid) && w.digest(bytes) == last.sha256
    ensures FilesOf(w, before, front + [last], mid[last.name := bytes])
  {
    forall n {
      NamesWithLast(front, last, n);
    }
    hide HasName, LastFor;
  }

  lemma {:induction false} FetchedFiles(w: World, files: Files, items: seq<Item>)
    requires FetchAll(w, files, items).Some?
    ensures FilesOf(w, files, items, FetchAll(w, files, items).value)
    decreases |items|
  {
    if items == [] {
    } else {
      var k := |items| - 1;
      var front, last := items[..k], items[k];
      assert items == front + [last];
      FetchAllAppend(w, files, front, [last]);
      var mid := FetchAll(w, files, front).value;
      FetchedFiles(w, files, front);
      assert [last][1..] == [];
      var out := FetchAll(w, files, items).value;
      assert Some(out) == FetchOne(w, mid, last);
      OneMoreFile(w, files, front, mid, last, w.download(JoinLines(Urls(w.releases, last.tag, last.name))).value);
      hide FilesOf;
    }
  }

  lemma {:induction false} FetchSucceeds(w: World, files: Files, items: seq<Item>)
    ensures FetchAll(w, files, items).Some? <==> forall it | it in items :: Obtainable(w, it)
    decreases |items|
  {
    if items == [] {
    } else {
      var next := FetchOne(w, files, items[0]);
      assert next.Some? <==> Obtainable(w, items[0]);
      hide FetchOne, Obtainable;
      assert items == [items[0]] + items[1..];
      if next.Some? {
        FetchSucceeds(w, next.value, items[1..]);
      }
    }
  }

  /** Any missing part fails the run: a build succeeds if and only if the record is one and lists something
      to serve, every file on the three lists can be had with the recorded digest, and no testing file is
      without a digest. */
  lemma AnyMissingPartFailsTheRun(w: World, rec: Promotions, now: string, keep: int, isPackage: string -> bool)
    ensures var current, superseded := StableItems(rec.entries, now), SupersededItems(rec.entries, now);
            var testing := TestingItems(TestingWindow(w.releases, Withdrawn(rec.entries), keep), isPackage);
            Build(w, rec, now, keep, isPackage).Some? <==>
              && rec.generation.Some?
              && current != []
              && (forall it | it in current || it in superseded || it in testing :: Obtainable(w, it))
              && (forall it | it in testing :: it.sha256 != "")
  {
    var current, superseded := StableItems(rec.entries, now), SupersededItems(rec.entries, now);
    var testing := TestingItems(TestingWindow(w.releases, Withdrawn(rec.entries), keep), isPackage);
    FetchSucceeds(w, map[], current);
    if FetchAll(w, map[], current).Some? {
      FetchSucceeds(w, FetchAll(w, map[], current).value, superseded);
    }
    FetchSucceeds(w, map[], testing);
    hide FetchAll, StableItems, SupersededItems, TestingItems, TestingWindow, Obtainable, Index;
    assert Undigested(testing) <==> !(forall it | it in testing :: it.sha256 != "");
  }

  /** The parts of a successful build. */
  lemma BuildParts(w: World, rec: Promotions, now: string, keep: int, isPackage: string -> bool)
    requires Build(w, rec, now, keep, isPackage).Some?
    ensures var site := Build(w, rec, now, keep, isPackage).value;
            var current, superseded := StableItems(rec.entries, now), SupersededItems(rec.entries, now);
            var testingItems := TestingItems(TestingWindow(w.releases, Withdrawn(rec.entries), keep), isPackage);
            && FetchAll(w, map[], current).Some?
            && FetchAll(w, FetchAll(w, map[], current).value, superseded) == Some(site.stable)
            && FetchAll(w, map[], testingItems) == Some(site.testing)
            && (forall i | 0 <= i < |testingItems| :: testingItems[i].sha256 != "")
            && site.stableListed == Index(site.stable, NamesOf(superseded))
            && site.testingListed == Index(site.testing, [])
  {
    hide FetchAll, StableItems, SupersededItems, TestingItems, TestingWindow, Index;
  }

  /** The stable directory holds exactly the files on the two lists, each with the digest of its last
      entry. */
  lemma StableDirectory(w: World, rec: Promotions, now: string, keep: int, isPackage: string -> bool)
    requires Build(w, rec, now, keep, isPackage).Some?
    ensures var site := Build(w, rec, now, keep, isPackage).value;
            var items := StableItems(rec.entries, now) + SupersededItems(rec.entries, now);
            && FetchAll(w, map[], items) == Some(site.stable)
            && (forall n :: n in site.stable <==> HasName(items, n))
            && (forall n | n in site.stable :: w.digest(site.stable[n]) == items[LastFor(items, n)].sha256)
  {
    BuildParts(w, rec, now, keep, isPackage);
    hide Build, StableItems, SupersededItems;
    var items := StableItems(rec.entries, now) + SupersededItems(rec.entries, now);
    FetchAllAppend(w, map[], StableItems(rec.entries, now), SupersededItems(rec.entries, now));
    FetchedFiles(w, map[], items);
  }

  predicate HasItsDigest(w: World, files: Files, item: Item) {
    item.name in files && w.digest(files[item.name]) == item.sha256
  }

  /** Of the files of one list, all have the digests of all their entries if and only if no file name is on
      the list with two digests: a later entry of the same name overwrites the file. */
  lemma DigestsHoldIffConsistent(w: World, files: Files, items: seq<Item>)
    requires FilesOf(w, map[], items, files)
    ensures (forall it | it in items :: HasItsDigest(w, files, it)) <==> Consistent(items)
  {
    assert forall i | 0 <= i < |items| :: items[i] in items && HasName(items, items[i].name);
    if Consistent(items) {
      forall it | it in items ensures HasItsDigest(w, files, it) {
        var i :| 0 <= i < |items| && items[i] == it;
        assert HasName(items, items[i].name);
        var last := LastFor(items, it.name);
        assert items[last].sha256 == items[i].sha256;
      }
    }
  }

  /** Every recorded digest is the digest of the published file if and only if no file name is recorded
      with two different digests. */
  lemma RecordedDigestsHold(w: World, rec: Promotions, now: string, keep: int, isPackage: string -> bool)
    requires Build(w, rec, now, keep, isPackage).Some?
    ensures var site := Build(w, rec, now, keep, isPackage).value;
            var items := StableItems(rec.entries, now) + SupersededItems(rec.entries, now);
            (forall it | it in items :: HasItsDigest(w, site.stable, it)) <==> Consistent(items)
  {
    StableDirectory(w, rec, now, keep, isPackage);
    hide Build, FetchAll, StableItems, SupersededItems;
    DigestsHoldIffConsistent(w, Build(w, rec, now, keep, isPackage).value.stable,
      StableItems(rec.entries, now) + SupersededItems(rec.entries, now));
  }

  /** A chosen candidate has a package of that name. */
  ghost predicate Tested(window: seq<Release>, isPackage: string -> bool, n: string) {
    exists r, u :: r in window && Offers(r, u, r.tag, n) && isPackage(n)
  }

  lemma TestedNames(window: seq<Release>, isPackage: string -> bool, n: string)
    ensures HasName(TestingItems(window, isPackage), n) <==> Tested(window, isPackage, n)
  {
    var items := TestingItems(window, isPackage);
    if HasName(items, n) {
      var i :| 0 <= i < |items| && items[i].name == n;
      TestedUploads(window, isPackage, items[i]);
      var r, u :| r in window && u in r.uploads && isPackage(u.name) && items[i].name == u.name;
      assert Offers(r, u, r.tag, n);
    }
    if r, u :| r in window && Offers(r, u, r.tag, n) && isPackage(n) {
      var it := Item(r.tag, u.name, PlainDigest(u.digest));
      TestedUploads(window, isPackage, it);
      var i :| 0 <= i < |items| && items[i] == it;
      assert HasName(items, n);
    }
  }

  lemma NoneIsWithdrawn(w: World, rec: Promotions, keep: int, isPackage: string -> bool, it: Item, e: Entry)
    requires it in TestingItems(TestingWindow(w.releases, Withdrawn(rec.entries), keep), isPackage)
    requires e in rec.entries && e.status == "withdrawn"
    ensures it.tag != e.tag
  {
    var window := TestingWindow(w.releases, Withdrawn(rec.entries), keep);
    TestedUploads(window, isPackage, it);
    var r, u :| r in window && u in r.uploads && isPackage(u.name) && it == Item(r.tag, u.name, PlainDigest(u.digest));
    hide TestingWindow, TestingItems, Withdrawn;
    WithdrawnTags(rec.entries, e.tag);
    TakenIsEligible(w.releases, Withdrawn(rec.entries), keep, r);
  }

  /** The testing directory holds exactly the packages of the chosen candidates, each with the digest of
      its last entry, which is never empty; and none of them has the tag of a withdrawn entry. */
  lemma TestingDirectory(w: World, rec: Promotions, now: string, keep: int, isPackage: string -> bool)
    requires Build(w, rec, now, keep, isPackage).Some?
    ensures var site := Build(w, rec, now, keep, isPackage).value;
            var window := TestingWindow(w.releases, Withdrawn(rec.entries), keep);
            var items := TestingItems(window, isPackage);
            && (forall n :: n in site.testing <==> HasName(items, n))
            && (forall n :: n in site.testing <==> Tested(window, isPackage, n))
            && (forall n :: n in site.testingListed <==> Tested(window, isPackage, n) && IsRpm(n))
            && (forall n | n in site.testing ::
                  w.digest(site.testing[n]) == items[LastFor(items, n)].sha256 && items[LastFor(items, n)].sha256 != "")
            && (forall it, e | it in items && e in rec.entries && e.status == "withdrawn" :: it.tag != e.tag)
  {
    BuildParts(w, rec, now, keep, isPackage);
    var window := TestingWindow(w.releases, Withdrawn(rec.entries), keep);
    var items := TestingItems(window, isPackage);
    hide Build, FetchAll, TestingItems, TestingWindow, Withdrawn, Tested;
    FetchedFiles(w, map[], items);
    forall n ensures HasName(items, n) <==> Tested(window, isPackage, n) {
      TestedNames(window, isPackage, n);
    }
    forall it, e | it in items && e in rec.entries && e.status == "withdrawn" ensures it.tag != e.tag {
      NoneIsWithdrawn(w, rec, keep, isPackage, it, e);
    }
  }

  /** The same for the testing channel.  Its list is newest first, so of several files of one name the one
      of the oldest chosen candidate stays, see `OldestCandidateStays`. */
  lemma TestingDigestsHold(w: World, rec: Promotions, now: string, keep: int, isPackage: string -> bool)
    requires Build(w, rec, now, keep, isPackage).Some?
    ensures var site := Build(w, rec, now, keep, isPackage).value;
            var items := TestingItems(TestingWindow(w.releases, Withdrawn(rec.entries), keep), isPackage);
            (forall it | it in items :: HasItsDigest(w, site.testing, it)) <==> Consistent(items)
  {
    TestingDirectory(w, rec, now, keep, isPackage);
    hide Build, TestingItems, TestingWindow, Withdrawn;
    DigestsHoldIffConsistent(w, Build(w, rec, now, keep, isPackage).value.testing,
      TestingItems(TestingWindow(w.releases, Withdrawn(rec.entries), keep), isPackage));
  }

  /** What a chosen candidate contributes to the testing channel. */
  function ReleaseItems(r: Release, isPackage: string -> bool): seq<Item> {
    UploadItems(r.tag, r.uploads, isPackage)
  }

  lemma LastInAppend(a: seq<Item>, b: seq<Item>, n: string)
    requires HasName(a + b, n)
    ensures HasName(b, n) ==> LastFor(a + b, n) == |a| + LastFor(b, n)
    ensures !HasName(b, n) ==> HasName(a, n) && LastFor(a + b, n) == LastFor(a, n)
  {
    var last := LastFor(a + b, n);
    if HasName(b, n) {
      var i := LastFor(b, n);
      assert (a + b)[|a| + i] == b[i];
    } else {
      assert last < |a|;
      assert a[last] == (a + b)[last];
      var i := LastFor(a, n);
      assert (a + b)[i] == a[i];
    }
  }

  lemma {:induction false} OffersAreListed(window: seq<Release>, isPackage: string -> bool, n: string, j: nat)
    requires j < |window| && HasName(ReleaseItems(window[j], isPackage), n)
    ensures HasName(TestingItems(window, isPackage), n)
  {
    HasNameAppend(ReleaseItems(window[0], isPackage), TestingItems(window[1..], isPackage), n);
    if j == 0 {
    } else {
      OffersAreListed(window[1..], isPackage, n, j - 1);
    }
  }

  lemma NobodyOffersLater(window: seq<Release>, isPackage: string -> bool, n: string)
    requires window != [] && !HasName(TestingItems(window[1..], isPackage), n)
    ensures forall j | 0 < j < |window| :: !HasName(ReleaseItems(window[j], isPackage), n)
  {
    hide HasName, TestingItems, ReleaseItems;
    forall j | 0 < j < |window| ensures !HasName(ReleaseItems(window[j], isPackage), n) {
      assert window[1..][j - 1] == window[j];
      if HasName(ReleaseItems(window[j], isPackage), n) {
        OffersAreListed(window[1..], isPackage, n, j - 1);
      }
    }
  }

  /** Of a name that several releases of the list offer, the last entry is that of the last of them. */
  lemma {:induction false} LastOffer(window: seq<Release>, isPackage: string -> bool, n: string) returns (k: nat)
    requires HasName(TestingItems(window, isPackage), n)
    ensures k < |window| && HasName(ReleaseItems(window[k], isPackage), n)
    ensures forall j | k < j < |window| :: !HasName(ReleaseItems(window[j], isPackage), n)
    ensures var items, own := TestingItems(window, isPackage), ReleaseItems(window[k], isPackage);
            items[LastFor(items, n)] == own[LastFor(own, n)]
  {
    var own, rest := ReleaseItems(window[0], isPackage), TestingItems(window[1..], isPackage);
    assert TestingItems(window, isPackage) == own + rest;
    LastInAppend(own, rest, n);
    hide HasName, LastFor, TestingItems, ReleaseItems;
    if HasName(rest, n) {
      k := LastOffer(window[1..], isPackage, n);
      k := k + 1;
    } else {
      k := 0;
      NobodyOffersLater(window, isPackage, n);
    }
  }

  lemma NotLaterReflexive(r: Release)
    ensures NotLater(r, r)
  {
    LexIrreflexive(r.publishedAt);
  }

  /** Candidate k of the window offers a package of that name, and no candidate that offers one was
      published earlier. */
  ghost predicate OldestOffer(window: seq<Release>, isPackage: string -> bool, n: string, k: nat) {
    && k < |window|
    && HasName(ReleaseItems(window[k], isPackage), n)
    && forall j | 0 <= j < |window| && HasName(ReleaseItems(window[j], isPackage), n) :: NotLater(window[k], window[j])
  }

  lemma LastOfferIsOldest(window: seq<Release>, isPackage: string -> bool, n: string) returns (k: nat)
    requires HasName(TestingItems(window, isPackage), n)
    requires forall i, j | 0 <= i < j < |window| :: NotLater(window[j], window[i])
    ensures OldestOffer(window, isPackage, n, k)
    ensures var items, own := TestingItems(window, isPackage), ReleaseItems(window[k], isPackage);
            items[LastFor(items, n)] == own[LastFor(own, n)]
  {
    k := LastOffer(window, isPackage, n);
    hide NotLater, HasName, LastFor, TestingItems, ReleaseItems;
    forall j | 0 <= j < |window| && HasName(ReleaseItems(window[j], isPackage), n)
      ensures NotLater(window[k], window[j])
    {
      if j == k {
        NotLaterReflexive(window[k]);
      }
    }
  }

  lemma WindowIsOrdered(w: World, rec: Promotions, keep: int)
    ensures var window := TestingWindow(w.releases, Withdrawn(rec.entries), keep);
            forall i, j | 0 <= i < j < |window| :: NotLater(window[j], window[i])
  {
    hide *;
    var left := WindowTakesTheNewest(w.releases, Withdrawn(rec.entries), keep);
  }

  lemma TestingDigest(w: World, rec: Promotions, now: string, keep: int, isPackage: string -> bool, n: string)
    requires Build(w, rec, now, keep, isPackage).Some?
    requires n in Build(w, rec, now, keep, isPackage).value.testing
    ensures var site := Build(w, rec, now, keep, isPackage).value;
            var items := TestingItems(TestingWindow(w.releases, Withdrawn(rec.entries), keep), isPackage);
            HasName(items, n) && w.digest(site.testing[n]) == items[LastFor(items, n)].sha256
  {
    hide *;
    TestingDirectory(w, rec, now, keep, isPackage);
  }

  /** The oldest wins: if several chosen candidates offer a package of the same name, the file that stays is
      the one of the candidate that was published first. */
  lemma OldestCandidateStays(w: World, rec: Promotions, now: string, keep: int, isPackage: string -> bool, n: string)
    returns (k: nat)
    requires Build(w, rec, now, keep, isPackage).Some?
    requires n in Build(w, rec, now, keep, isPackage).value.testing
    ensures var site := Build(w, rec, now, keep, isPackage).value;
            var window := TestingWindow(w.releases, Withdrawn(rec.entries), keep);
            && OldestOffer(window, isPackage, n, k)
            && (var own := ReleaseItems(window[k], isPackage); w.digest(site.testing[n]) == own[LastFor(own, n)].sha256)
  {
    hide *;
    TestingDigest(w, rec, now, keep, isPackage, n);
    WindowIsOrdered(w, rec, keep);
    k := LastOfferIsOldest(TestingWindow(w.releases, Withdrawn(rec.entries), keep), isPackage, n);
  }

  // ---------------------------------------------------------------- the metadata

  lemma NamesAreNames(items: seq<Item>, n: string)
    ensures n in NamesOf(items) <==> HasName(items, n)
  {
    if HasName(items, n) {
      var i :| 0 <= i < |items| && items[i].name == n;
      assert NamesOf(items)[i] == n;
    }
  }

  /** Superseded files are on disk but not in the metadata; and the metadata lists all packages that are
      stable or retired and retained, and nothing else, if and only if none of these shares its name
      with a superseded one. */
  lemma MetadataIsTheStableSet(w: World, rec: Promotions, now: string, keep: int, isPackage: string -> bool)
    requires Build(w, rec, now, keep, isPackage).Some?
    ensures var site := Build(w, rec, now, keep, isPackage).value;
            var current, superseded := StableItems(rec.entries, now), SupersededItems(rec.entries, now);
            && (forall n | HasName(superseded, n) :: n in site.stable && n !in site.stableListed)
            && (forall n | n in site.stableListed :: n in site.stable && IsRpm(n) && HasName(current, n))
            && ((forall n | HasName(current, n) && IsRpm(n) :: n in site.stableListed)
                <==> (forall n | HasName(current, n) && IsRpm(n) :: !HasName(superseded, n)))
  {
    StableDirectory(w, rec, now, keep, isPackage);
    BuildParts(w, rec, now, keep, isPackage);
    var site := Build(w, rec, now, keep, isPackage).value;
    var current, superseded := StableItems(rec.entries, now), SupersededItems(rec.entries, now);
    assert site.stableListed == Index(site.stable, NamesOf(superseded));
    hide Build, FetchAll, StableItems, SupersededItems, HasName;
    forall n ensures HasName(current + superseded, n) <==> HasName(current, n) || HasName(superseded, n) {
      HasNameAppend(current, superseded, n);
    }
    forall n ensures n in NamesOf(superseded) <==> HasName(superseded, n) {
      NamesAreNames(superseded, n);
    }
  }

  // ---------------------------------------------------------------- entries and time

  predicate Live(e: Entry, now: string) {
    e.status == "stable" || ((e.status == "retired" || e.status == "superseded") && Retained(e.retainUntil, now))
  }

  /** An item is fetched into the stable directory if and only if it stands for an asset of an entry that is
      stable, or retired or superseded with a retention date still to come. */
  lemma StableItemsComeFromLiveEntries(es: seq<Entry>, now: string, it: Item)
    ensures it in StableItems(es, now) + SupersededItems(es, now) <==>
            exists e, x :: e in es && Live(e, now) && x in e.assets && it == Item(e.tag, x.name, x.sha256)
  {
    ListedAssets(es, now, it);
    hide StableItems, SupersededItems, Retained;
    assert forall e :: Live(e, now) <==> Current(e, now) || KeptUnlisted(e, now);
  }

  lemma StatusesDiffer()
    ensures "stable" != "superseded" && "stable" != "withdrawn" && "stable" != "retired"
    ensures "retired" != "superseded" && "retired" != "withdrawn" && "superseded" != "withdrawn"
  {
    assert "stable"[1] != "superseded"[1] && "stable"[0] != "withdrawn"[0] && "stable"[0] != "retired"[0];
    assert "retired"[0] != "superseded"[0] && "retired"[0] != "withdrawn"[0] && "superseded"[0] != "withdrawn"[0];
  }

  predicate LiveFile(e: Entry, now: string, x: Asset, n: string) {
    Live(e, now) && x in e.assets && x.name == n
  }

  lemma LiveNames(es: seq<Entry>, now: string, n: string)
    ensures HasName(StableItems(es, now) + SupersededItems(es, now), n) <==>
            exists e, x :: e in es && LiveFile(e, now, x, n)
  {
    hide StableItems, SupersededItems, Live;
    var items := StableItems(es, now) + SupersededItems(es, now);
    if HasName(items, n) {
      var i :| 0 <= i < |items| && items[i].name == n;
      StableItemsComeFromLiveEntries(es, now, items[i]);
      var e, x :| e in es && Live(e, now) && x in e.assets && items[i] == Item(e.tag, x.name, x.sha256);
      assert LiveFile(e, now, x, n);
    }
    if e, x :| e in es && LiveFile(e, now, x, n) {
      StableItemsComeFromLiveEntries(es, now, Item(e.tag, x.name, x.sha256));
      var i :| 0 <= i < |items| && items[i] == Item(e.tag, x.name, x.sha256);
      assert HasName(items, n);
    }
  }

  lemma LiveFileIsNotWithdrawn(e: Entry, now: string, x: Asset, n: string)
    requires LiveFile(e, now, x, n)
    ensures e.status != "withdrawn"
  {
    StatusesDiffer();
  }

  /** So a withdrawn entry never puts a file there, and neither does one whose retention date is absent or
      past; only the record and the clock decide. */
  lemma StableFilesComeFromLiveEntries(w: World, rec: Promotions, now: string, keep: int, isPackage: string -> bool,
                                       n: string)
    requires Build(w, rec, now, keep, isPackage).Some?
    ensures n in Build(w, rec, now, keep, isPackage).value.stable <==>
            exists e, x :: e in rec.entries && LiveFile(e, now, x, n) && e.status != "withdrawn"
  {
    StableDirectory(w, rec, now, keep, isPackage);
    LiveNames(rec.entries, now, n);
    hide Build, LiveFile, StableItems, SupersededItems;
    forall e, x | LiveFile(e, now, x, n) ensures e.status != "withdrawn" {
      LiveFileIsNotWithdrawn(e, now, x, n);
    }
  }

  ghost predicate NamesCurrent(es: seq<Entry>, now: string, n: string) {
    exists e, x :: e in es && Current(e, now) && x in e.assets && x.name == n
  }

  ghost predicate NamesKeptUnlisted(es: seq<Entry>, now: string, n: string) {
    exists e, x :: e in es && KeptUnlisted(e, now) && x in e.assets && x.name == n
  }

  lemma NamesOnTheLists(es: seq<Entry>, now: string, n: string)
    ensures HasName(StableItems(es, now), n) <==> NamesCurrent(es, now, n)
    ensures HasName(SupersededItems(es, now), n) <==> NamesKeptUnlisted(es, now, n)
  {
    var current, superseded := StableItems(es, now), SupersededItems(es, now);
    hide StableItems, SupersededItems, Current, KeptUnlisted;
    if HasName(current, n) {
      var i :| 0 <= i < |current| && current[i].name == n;
      ListedAssets(es, now, current[i]);
    }
    if HasName(superseded, n) {
      var i :| 0 <= i < |superseded| && superseded[i].name == n;
      ListedAssets(es, now, superseded[i]);
    }
    if e, x :| e in es && Current(e, now) && x in e.assets && x.name == n {
      var it := Item(e.tag, x.name, x.sha256);
      ListedAssets(es, now, it);
      var i :| 0 <= i < |current| && current[i] == it;
    }
    if e, x :| e in es && KeptUnlisted(e, now) && x in e.assets && x.name == n {
      var it := Item(e.tag, x.name, x.sha256);
      ListedAssets(es, now, it);
      var i :| 0 <= i < |superseded| && superseded[i] == it;
    }
  }

  /** The metadata of the stable directory, from the record alone: it lists a name if and only if the name ends
      in `.rpm`, a stable or retained retired entry has an asset of that name, and no retained superseded entry
      has one. */
  lemma ListedIffCurrent(w: World, rec: Promotions, now: string, keep: int, isPackage: string -> bool, n: string)
    requires Build(w, rec, now, keep, isPackage).Some?
    ensures n in Build(w, rec, now, keep, isPackage).value.stableListed <==>
              && (exists stem :: n == stem + ".rpm")
              && NamesCurrent(rec.entries, now, n)
              && !NamesKeptUnlisted(rec.entries, now, n)
  {
    IsRpmIff(n);
    NamesOnTheLists(rec.entries, now, n);
    StableDirectory(w, rec, now, keep, isPackage);
    BuildParts(w, rec, now, keep, isPackage);
    HasNameAppend(StableItems(rec.entries, now), SupersededItems(rec.entries, now), n);
    NamesAreNames(SupersededItems(rec.entries, now), n);
    hide Build, FetchAll, StableItems, SupersededItems, NamesOf, HasName, NamesCurrent, NamesKeptUnlisted, IsRpm;
  }

  lemma LiveEarlier(es: seq<Entry>, now: string, later: string, it: Item)
    requires !LexLess(later, now)
    requires it in StableItems(es, later) + SupersededItems(es, later)
    ensures it in StableItems(es, now) + SupersededItems(es, now)
  {
    StableItemsComeFromLiveEntries(es, later, it);
    StableItemsComeFromLiveEntries(es, now, it);
    var e, x :| e in es && Live(e, later) && x in e.assets && it == Item(e.tag, x.name, x.sha256);
    if e.status != "stable" {
      ExpiryIsFinal(e.retainUntil, now, later);
    }
    assert Live(e, now);
  }

  /** With the record unchanged, a build after a successful one fails only if nothing is left for the stable
      list: no stable entry has a file, and every retired one with a file has expired. */
  lemma LaterBuildSucceeds(w: World, rec: Promotions, now: string, later: string, keep: int, isPackage: string -> bool)
    requires !LexLess(later, now) && Build(w, rec, now, keep, isPackage).Some?
    ensures Build(w, rec, later, keep, isPackage).Some? <==> StableItems(rec.entries, later) != []
  {
    AnyMissingPartFailsTheRun(w, rec, now, keep, isPackage);
    AnyMissingPartFailsTheRun(w, rec, later, keep, isPackage);
    hide *;
    forall it | it in StableItems(rec.entries, later) || it in SupersededItems(rec.entries, later)
      ensures it in StableItems(rec.entries, now) || it in SupersededItems(rec.entries, now)
    {
      assert it in StableItems(rec.entries, later) + SupersededItems(rec.entries, later);
      LiveEarlier(rec.entries, now, later, it);
    }
  }

  /** With the record unchanged, a later build has no file in the stable directory that an earlier one did
      not have, a file that stays keeps its digest if no name is recorded with two, and the testing
      channel is the same. */
  lemma TimeOnlyRemoves(w: World, rec: Promotions, now: string, later: string, keep: int, isPackage: string -> bool)
    requires !LexLess(later, now)
    requires Build(w, rec, now, keep, isPackage).Some? && Build(w, rec, later, keep, isPackage).Some?
    ensures var first, second := Build(w, rec, now, keep, isPackage).value, Build(w, rec, later, keep, isPackage).value;
            && second.stable.Keys <= first.stable.Keys
            && (Consistent(StableItems(rec.entries, now) + SupersededItems(rec.entries, now)) ==>
                  forall n | n in second.stable :: w.digest(second.stable[n]) == w.digest(first.stable[n]))
            && second.testing == first.testing && second.testingListed == first.testingListed
  {
    var first, second := Build(w, rec, now, keep, isPackage).value, Build(w, rec, later, keep, isPackage).value;
    var before := StableItems(rec.entries, now) + SupersededItems(rec.entries, now);
    var after := StableItems(rec.entries, later) + SupersededItems(rec.entries, later);
    StableDirectory(w, rec, now, keep, isPackage);
    StableDirectory(w, rec, later, keep, isPackage);
    assert second.testing == first.testing && second.testingListed == first.testingListed;
    hide Build, FetchAll, StableItems, SupersededItems;
    forall n | n in second.stable
      ensures n in first.stable && (Consistent(before) ==> w.digest(second.stable[n]) == w.digest(first.stable[n]))
    {
      var it := after[LastFor(after, n)];
      LiveEarlier(rec.entries, now, later, it);
      var i :| 0 <= i < |before| && before[i] == it;
      assert HasName(before, n);
      assert before[LastFor(before, n)].name == before[i].name;
    }
  }
}
