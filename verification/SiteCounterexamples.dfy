/** Inputs for which a build of the site succeeds and does not keep a promise: the failing side of the
    conditions in module PublishedSite.  They exist for every digest that tells two files apart, and for all
    times that are in the right order. */
module SiteCounterexamples {
  import opened Basics
  import opened Record
  import opened Selection
  import opened Timestamps
  import opened Publisher
  import opened PublishedSite
  import opened SiteLists

  const FILE := "x.rpm"

  /** Two files, their digests, the time of the build, a retention date, and two times of publishing. */
  datatype Setting = Setting(
    first: Bytes,
    second: Bytes,
    digest: Bytes -> string,
    now: Time,
    retainUntil: Time,
    early: Time,
    late: Time)

  predicate Suitable(x: Setting) {
    && x.digest(x.first) != x.digest(x.second)
    && x.digest(x.first) != "" && x.digest(x.second) != ""
    && Valid(x.now) && Valid(x.retainUntil) && Valid(x.early) && Valid(x.late)
    && Seconds(x.now) < Seconds(x.retainUntil) && Seconds(x.early) < Seconds(x.late)
  }

  function AnyName(name: string): bool {
    true
  }

  function Now(x: Setting): string
    requires Suitable(x)
  {
    Format(x.now)
  }

  function ReleaseOf(tag: string, prerelease: bool, publishedAt: Time, digest: string): Release
    requires Valid(publishedAt)
  {
    Release(tag, prerelease, false, Format(publishedAt), [Upload(FILE, Some(DIGEST_PREFIX + digest), tag)])
  }

  /** Releases "a" and "b" with different files of the same name. */
  function TwoReleases(x: Setting, prerelease: bool): World
    requires Suitable(x)
  {
    World(
      [ReleaseOf("a", prerelease, x.early, x.digest(x.first)), ReleaseOf("b", prerelease, x.late, x.digest(x.second))],
      url => Some(if url == "a" then x.first else x.second),
      x.digest)
  }

  /** An entry with the file of that release. */
  function EntryOf(x: Setting, tag: string, status: string, sha256: string): Entry
    requires Suitable(x)
  {
    Entry(tag, status, Some(Format(x.retainUntil)), None, [Asset(FILE, sha256, "")])
  }

  function RecordOf(x: Setting, second: string): Promotions
    requires Suitable(x)
  {
    Promotions(Some("1"), [EntryOf(x, "a", "stable", x.digest(x.first)), EntryOf(x, "b", second, x.digest(x.second))])
  }

  function FirstItem(x: Setting): Item {
    Item("a", FILE, x.digest(x.first))
  }

  function SecondItem(x: Setting): Item {
    Item("b", FILE, x.digest(x.second))
  }

  // ---------------------------------------------------------------- what the build sees

  lemma FilesCanBeHad(x: Setting, prerelease: bool)
    requires Suitable(x)
    ensures var w := TwoReleases(x, prerelease); Obtainable(w, FirstItem(x)) && Obtainable(w, SecondItem(x))
  {
    var w := TwoReleases(x, prerelease);
    hide Format, Suitable, Seconds;
    var a, b := w.releases[0], w.releases[1];
    assert w.releases == [a, b];
    assert [a, b][1..] == [b] && [b][1..] == [];
    UploadsOf("a", DIGEST_PREFIX + x.digest(x.first));
    UploadsOf("b", DIGEST_PREFIX + x.digest(x.second));
    hide UrlsIn;
    assert Urls([b], "a", FILE) == [];
    assert Urls([b], "b", FILE) == ["b"] + [];
  }

  lemma UploadsOf(tag: string, digest: string)
    ensures UrlsIn([Upload(FILE, Some(digest), tag)], FILE) == [tag]
  {
    assert [Upload(FILE, Some(digest), tag)][1..] == [];
  }

  lemma ItemsOfTwo(x: Setting, second: string, chosen: Entry -> bool)
    requires Suitable(x)
    ensures var es := RecordOf(x, second).entries;
            ItemsWhere(es, chosen) ==
            (if chosen(es[0]) then [FirstItem(x)] else []) + (if chosen(es[1]) then [SecondItem(x)] else [])
  {
    var e, f := EntryOf(x, "a", "stable", x.digest(x.first)), EntryOf(x, "b", second, x.digest(x.second));
    assert [e, f][1..] == [f] && [f][1..] == [];
    assert ItemsOf(e) == [FirstItem(x)] && ItemsOf(f) == [SecondItem(x)];
    hide Suitable, Format;
    assert ItemsWhere([f], chosen) == if chosen(f) then [SecondItem(x)] else [];
  }

  lemma StillRetained(x: Setting)
    requires Suitable(x)
    ensures Retained(Some(Format(x.retainUntil)), Now(x))
  {
    RetainedUntilThen(Some(x.retainUntil), x.now);
    hide Format, Retained, Seconds;
  }

  lemma ListsOfTwoStable(x: Setting)
    requires Suitable(x)
    ensures StableItems(RecordOf(x, "stable").entries, Now(x)) == [FirstItem(x), SecondItem(x)]
    ensures SupersededItems(RecordOf(x, "stable").entries, Now(x)) == []
  {
    ItemsOfTwo(x, "stable", (e: Entry) => InStable(e, Now(x)));
    ItemsOfTwo(x, "stable", (e: Entry) => InSuperseded(e, Now(x)));
    StatusesDiffer();
    hide ItemsWhere, Retained, Format, Suitable, FirstItem, SecondItem;
    assert [FirstItem(x)] + [SecondItem(x)] == [FirstItem(x), SecondItem(x)];
  }

  lemma ListsOfFixForward(x: Setting)
    requires Suitable(x)
    ensures StableItems(RecordOf(x, "superseded").entries, Now(x)) == [FirstItem(x)]
    ensures SupersededItems(RecordOf(x, "superseded").entries, Now(x)) == [SecondItem(x)]
  {
    ItemsOfTwo(x, "superseded", (e: Entry) => InStable(e, Now(x)));
    ItemsOfTwo(x, "superseded", (e: Entry) => InSuperseded(e, Now(x)));
    StatusesDiffer();
    StillRetained(x);
    hide ItemsWhere, Retained, Format, Suitable, FirstItem, SecondItem;
  }

  lemma WithdrawnOfTwo(x: Setting, second: string)
    requires Suitable(x) && (second == "stable" || second == "superseded")
    ensures Withdrawn(RecordOf(x, second).entries) == []
  {
    var e, f := EntryOf(x, "a", "stable", x.digest(x.first)), EntryOf(x, "b", second, x.digest(x.second));
    StatusesDiffer();
    hide Suitable, Format;
    assert [e, f][1..] == [f] && [f][1..] == [];
    assert Withdrawn([f]) == [];
  }

  lemma TestingOfTwo(x: Setting, prerelease: bool)
    requires Suitable(x)
    ensures TestingItems(TestingWindow(TwoReleases(x, prerelease).releases, [], 5), AnyName)
         == if prerelease then [SecondItem(x), FirstItem(x)] else []
  {
    var a, b := TwoReleases(x, prerelease).releases[0], TwoReleases(x, prerelease).releases[1];
    StringOrderIsTimeOrder(x.early, x.late);
    StringOrderIsTimeOrder(x.late, x.early);
    hide Suitable, Format, Seconds, LexLess;
    assert [a, b][1..] == [b] && [b][1..] == [];
    assert Candidates([b], []) == if prerelease then [b] else [];
    if prerelease {
      assert Candidates([a, b], []) == [a, b];
      NewestFirstOfTwo(a, b);
      ItemsOfUpload("a", x.digest(x.first));
      ItemsOfUpload("b", x.digest(x.second));
      assert [b, a][1..] == [a] && [a][1..] == [];
      hide UploadItems, NewestFirst, Candidates;
      assert TestingWindow([a, b], [], 5) == [b, a];
      assert TestingItems([a], AnyName) == [FirstItem(x)];
    } else {
      assert Candidates([a, b], []) == [];
    }
  }

  lemma NewestFirstOfTwo(a: Release, b: Release)
    requires Candidates([a, b], []) == [a, b]
    requires LexLess(a.publishedAt, b.publishedAt) && !LexLess(b.publishedAt, a.publishedAt)
    ensures NewestFirst([a, b], []) == [b, a]
  {
    assert [a, b][1..] == [b] && [b][1..] == [];
    assert SortByTime([b]) == [b];
    assert SortByTime([a, b]) == [a, b];
  }

  lemma ItemsOfUpload(tag: string, digest: string)
    ensures UploadItems(tag, [Upload(FILE, Some(DIGEST_PREFIX + digest), tag)], AnyName) == [Item(tag, FILE, digest)]
  {
    var text := DIGEST_PREFIX + digest;
    assert DIGEST_PREFIX <= text && text[|DIGEST_PREFIX|..] == digest;
    assert [Upload(FILE, Some(text), tag)][1..] == [];
  }

  lemma RecordIsOne(x: Setting, second: string)
    requires Suitable(x)
    ensures RecordOf(x, second).generation.Some? && FirstItem(x).sha256 != "" && SecondItem(x).sha256 != ""
  {
  }

  /** A build whose lists hold only the two files succeeds. */
  lemma BuildOfTwo(x: Setting, prerelease: bool, second: string, current: seq<Item>, superseded: seq<Item>,
                   testing: seq<Item>)
    requires Suitable(x) && current != []
    requires StableItems(RecordOf(x, second).entries, Now(x)) == current
    requires SupersededItems(RecordOf(x, second).entries, Now(x)) == superseded
    requires
      var withdrawn := Withdrawn(RecordOf(x, second).entries);
      TestingItems(TestingWindow(TwoReleases(x, prerelease).releases, withdrawn, 5), AnyName) == testing
    requires forall it | it in current || it in superseded || it in testing :: it == FirstItem(x) || it == SecondItem(x)
    ensures Build(TwoReleases(x, prerelease), RecordOf(x, second), Now(x), 5, AnyName).Some?
  {
    RecordIsOne(x, second);
    hide *;
    FilesCanBeHad(x, prerelease);
    AnyMissingPartFailsTheRun(TwoReleases(x, prerelease), RecordOf(x, second), Now(x), 5, AnyName);
  }

  lemma StableBuildSucceeds(x: Setting, prerelease: bool)
    requires Suitable(x)
    ensures Build(TwoReleases(x, prerelease), RecordOf(x, "stable"), Now(x), 5, AnyName).Some?
  {
    hide *;
    ListsOfTwoStable(x);
    WithdrawnOfTwo(x, "stable");
    TestingOfTwo(x, prerelease);
    BuildOfTwo(x, prerelease, "stable", [FirstItem(x), SecondItem(x)], [],
      if prerelease then [SecondItem(x), FirstItem(x)] else []);
  }

  lemma FixForwardBuildSucceeds(x: Setting)
    requires Suitable(x)
    ensures Build(TwoReleases(x, false), RecordOf(x, "superseded"), Now(x), 5, AnyName).Some?
  {
    hide *;
    ListsOfFixForward(x);
    WithdrawnOfTwo(x, "superseded");
    TestingOfTwo(x, false);
    BuildOfTwo(x, false, "superseded", [FirstItem(x)], [SecondItem(x)], []);
  }

  lemma TwoDigests(x: Setting, items: seq<Item>)
    requires Suitable(x) && |items| == 2 && FirstItem(x) in items && SecondItem(x) in items
    ensures !Consistent(items)
  {
    hide Seconds;
    var i :| 0 <= i < |items| && items[i] == FirstItem(x);
    var j :| 0 <= j < |items| && items[j] == SecondItem(x);
    assert items[i].name == items[j].name && items[i].sha256 != items[j].sha256;
  }

  // ---------------------------------------------------------------- the promises that fail

  /** Two stable entries with the same file name: the run succeeds, the second file replaces the first, and
      a digest of the record is not that of the published file. */
  lemma StableDigestIsLost(x: Setting)
    requires Suitable(x)
    ensures var w, rec := TwoReleases(x, false), RecordOf(x, "stable");
            && Build(w, rec, Now(x), 5, AnyName).Some?
            && var site := Build(w, rec, Now(x), 5, AnyName).value;
               exists it | it in StableItems(rec.entries, Now(x)) :: !HasItsDigest(w, site.stable, it)
  {
    hide *;
    StableBuildSucceeds(x, false);
    ListsOfTwoStable(x);
    TwoDigests(x, [FirstItem(x), SecondItem(x)]);
    assert [FirstItem(x), SecondItem(x)] + [] == [FirstItem(x), SecondItem(x)];
    RecordedDigestsHold(TwoReleases(x, false), RecordOf(x, "stable"), Now(x), 5, AnyName);
  }

  /** Two candidates with the same file name: the older one's file is published, and the digest of the newer
      one's is lost. */
  lemma TestingDigestIsLost(x: Setting)
    requires Suitable(x)
    ensures var w, rec := TwoReleases(x, true), RecordOf(x, "stable");
            && Build(w, rec, Now(x), 5, AnyName).Some?
            && var site := Build(w, rec, Now(x), 5, AnyName).value;
               var items := TestingItems(TestingWindow(w.releases, Withdrawn(rec.entries), 5), AnyName);
               exists it | it in items :: !HasItsDigest(w, site.testing, it)
  {
    hide *;
    StableBuildSucceeds(x, true);
    WithdrawnOfTwo(x, "stable");
    TestingOfTwo(x, true);
    TwoDigests(x, [SecondItem(x), FirstItem(x)]);
    TestingDigestsHold(TwoReleases(x, true), RecordOf(x, "stable"), Now(x), 5, AnyName);
  }

  /** A superseded file that is still retained and has the name of a stable one: the run succeeds, and the
      metadata does not list the stable package. */
  lemma StablePackageIsUnlisted(x: Setting)
    requires Suitable(x)
    ensures var w, rec := TwoReleases(x, false), RecordOf(x, "superseded");
            && Build(w, rec, Now(x), 5, AnyName).Some?
            && HasName(StableItems(rec.entries, Now(x)), FILE) && IsRpm(FILE)
            && FILE !in Build(w, rec, Now(x), 5, AnyName).value.stableListed
  {
    FileIsThere(x);
    hide *;
    FixForwardBuildSucceeds(x);
    ListsOfFixForward(x);
    MetadataIsTheStableSet(TwoReleases(x, false), RecordOf(x, "superseded"), Now(x), 5, AnyName);
  }

  lemma FileIsThere(x: Setting)
    ensures HasName([FirstItem(x)], FILE) && HasName([SecondItem(x)], FILE) && IsRpm(FILE)
  {
    assert [FirstItem(x)][0].name == FILE && [SecondItem(x)][0].name == FILE;
  }

  /** There are such settings. */
  lemma SomeSettingIsSuitable()
    ensures exists x :: Suitable(x)
  {
    var t, u := Time(1970, 1, 1, 0, 0, 0), Time(1970, 1, 1, 0, 0, 1);
    SecondsFollowTheCalendar(t);
    var first: Bytes := [];
    var second: Bytes := [1];
    var x := Setting(first, second, (b: Bytes) => if b == [] then "c" else "d", t, u, t, u);
    assert x.digest(first)[0] == 'c' && x.digest(second)[0] == 'd';
    assert NextSecond(t) == u;
    hide Seconds;
    assert Suitable(x);
  }
}
