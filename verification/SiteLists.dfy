/** What is on the three lists of the site and where a listed file comes from, said of the entries of the record
    and of the releases and their uploads. */
module SiteLists {
  import opened Basics
  import opened Record
  import opened Strings
  import opened Selection
  import opened Timestamps
  import opened Publisher

  // ---------------------------------------------------------------- the lists of the stable directory

  /** The item stands for an asset of the entry, under the entry's tag. */
  ghost predicate ListsAsset(e: Entry, it: Item) {
    exists x :: x in e.assets && it == Item(e.tag, x.name, x.sha256)
  }

  lemma ItemsOfEntry(e: Entry, it: Item)
    ensures it in ItemsOf(e) <==> ListsAsset(e, it)
  {
    if it in ItemsOf(e) {
      var i :| 0 <= i < |e.assets| && ItemsOf(e)[i] == it;
      assert e.assets[i] in e.assets;
    }
    if x :| x in e.assets && it == Item(e.tag, x.name, x.sha256) {
      var i :| 0 <= i < |e.assets| && e.assets[i] == x;
      assert ItemsOf(e)[i] == it;
    }
  }

  lemma {:induction false} ItemsComeFromEntries(es: seq<Entry>, chosen: Entry -> bool, it: Item)
    ensures it in ItemsWhere(es, chosen) <==> exists e :: e in es && chosen(e) && ListsAsset(e, it)
  {
    if es == [] {
    } else {
      ItemsOfEntry(es[0], it);
      ItemsComeFromEntries(es[1..], chosen, it);
      hide ListsAsset, ItemsOf;
      assert forall e :: e in es <==> e == es[0] || e in es[1..];
    }
  }

  /** A retired entry whose retention date is still to come counts as current, like a stable one. */
  predicate Current(e: Entry, now: string) {
    e.status == "stable" || (e.status == "retired" && Retained(e.retainUntil, now))
  }

  predicate KeptUnlisted(e: Entry, now: string) {
    e.status == "superseded" && Retained(e.retainUntil, now)
  }

  /** The stable list holds the assets of the stable entries and of the retired ones that are retained, and the
      superseded list those of the superseded entries that are retained: all their assets, and nothing else. */
  lemma ListedAssets(es: seq<Entry>, now: string, it: Item)
    ensures it in StableItems(es, now) <==>
            exists e, x :: e in es && Current(e, now) && x in e.assets && it == Item(e.tag, x.name, x.sha256)
    ensures it in SupersededItems(es, now) <==>
            exists e, x :: e in es && KeptUnlisted(e, now) && x in e.assets && it == Item(e.tag, x.name, x.sha256)
  {
    ItemsComeFromEntries(es, (e: Entry) => InStable(e, now), it);
    ItemsComeFromEntries(es, (e: Entry) => InSuperseded(e, now), it);
    hide ItemsWhere, Retained;
  }

  lemma {:induction false} ItemsWhereOneMore(es: seq<Entry>, e: Entry, chosen: Entry -> bool)
    ensures ItemsWhere(es + [e], chosen) == ItemsWhere(es, chosen) + if chosen(e) then ItemsOf(e) else []
  {
    hide ItemsOf;
    if es == [] {
      assert ([] + [e])[1..] == [];
    } else {
      ItemsWhereOneMore(es[1..], e, chosen);
      assert (es + [e])[1..] == es[1..] + [e];
    }
  }

  /** The lists follow the order of the record: each further entry adds its assets, one by one, to the end of the
      list it belongs to, and changes nothing else. */
  lemma ListsFollowTheRecord(es: seq<Entry>, e: Entry, now: string) returns (own: seq<Item>)
    ensures |own| == |e.assets|
    ensures forall i | 0 <= i < |own| :: own[i] == Item(e.tag, e.assets[i].name, e.assets[i].sha256)
    ensures StableItems([], now) == SupersededItems([], now) == []
    ensures StableItems(es + [e], now) == StableItems(es, now) + if Current(e, now) then own else []
    ensures SupersededItems(es + [e], now) == SupersededItems(es, now) + if KeptUnlisted(e, now) then own else []
  {
    own := ItemsOf(e);
    ItemsWhereOneMore(es, e, (e: Entry) => InStable(e, now));
    ItemsWhereOneMore(es, e, (e: Entry) => InSuperseded(e, now));
    hide Retained;
  }

  lemma {:induction false} WithdrawnTags(es: seq<Entry>, tag: string)
    ensures tag in Withdrawn(es) <==> exists e :: e in es && e.status == "withdrawn" && e.tag == tag
  {
    if es == [] {
    } else {
      WithdrawnTags(es[1..], tag);
      assert forall e :: e in es <==> e == es[0] || e in es[1..];
    }
  }

  // ---------------------------------------------------------------- the testing list

  /** The digest as the release list has it, without its prefix; empty if there is none. */
  lemma PlainDigests(hex: string)
    ensures PlainDigest(Some("sha256:" + hex)) == hex
    ensures !("sha256:" <= hex) ==> PlainDigest(Some(hex)) == hex
    ensures PlainDigest(None) == ""
  {
    assert ("sha256:" + hex)[7..] == hex;
  }

  lemma {:induction false} UploadItemsOneMore(tag: string, us: seq<Upload>, u: Upload, isPackage: string -> bool)
    ensures UploadItems(tag, us + [u], isPackage) == UploadItems(tag, us, isPackage)
            + if isPackage(u.name) then [Item(tag, u.name, PlainDigest(u.digest))] else []
  {
    hide PlainDigest;
    if us == [] {
      assert ([] + [u])[1..] == [];
    } else {
      UploadItemsOneMore(tag, us[1..], u, isPackage);
      assert (us + [u])[1..] == us[1..] + [u];
    }
  }

  lemma {:induction false} TestingItemsOneMore(window: seq<Release>, r: Release, isPackage: string -> bool)
    ensures TestingItems(window + [r], isPackage) ==
            TestingItems(window, isPackage) + UploadItems(r.tag, r.uploads, isPackage)
  {
    hide UploadItems;
    if window == [] {
      assert ([] + [r])[1..] == [];
      assert UploadItems(r.tag, r.uploads, isPackage) + [] == UploadItems(r.tag, r.uploads, isPackage);
    } else {
      TestingItemsOneMore(window[1..], r, isPackage);
      assert (window + [r])[1..] == window[1..] + [r];
    }
  }

  /** The testing list follows the order of the chosen releases and, within a release, that of its uploads: each
      further package upload of the last release adds one line to its end, and any other upload none. */
  lemma TestingListFollowsTheWindow(window: seq<Release>, r: Release, u: Upload, isPackage: string -> bool)
    ensures TestingItems(window + [r.(uploads := [])], isPackage) == TestingItems(window, isPackage)
    ensures TestingItems(window + [r.(uploads := r.uploads + [u])], isPackage) ==
            TestingItems(window + [r], isPackage)
            + if isPackage(u.name) then [Item(r.tag, u.name, PlainDigest(u.digest))] else []
    ensures TestingItems([], isPackage) == []
  {
    TestingItemsOneMore(window, r, isPackage);
    TestingItemsOneMore(window, r.(uploads := []), isPackage);
    TestingItemsOneMore(window, r.(uploads := r.uploads + [u]), isPackage);
    UploadItemsOneMore(r.tag, r.uploads, u, isPackage);
    assert TestingItems([], isPackage) == [];
    hide TestingItems, PlainDigest;
  }

  lemma {:induction false} UploadItemsAre(tag: string, us: seq<Upload>, isPackage: string -> bool, it: Item)
    ensures it in UploadItems(tag, us, isPackage) <==>
            exists u :: u in us && isPackage(u.name) && it == Item(tag, u.name, PlainDigest(u.digest))
  {
    hide PlainDigest;
    if us == [] {
    } else {
      UploadItemsAre(tag, us[1..], isPackage, it);
      assert forall u :: u in us <==> u == us[0] || u in us[1..];
    }
  }

  /** The testing list holds all package uploads of the chosen releases, and nothing else. */
  lemma {:induction false} TestedUploads(window: seq<Release>, isPackage: string -> bool, it: Item)
    ensures it in TestingItems(window, isPackage) <==>
            exists r, u :: r in window && u in r.uploads && isPackage(u.name)
                           && it == Item(r.tag, u.name, PlainDigest(u.digest))
  {
    if window == [] {
    } else {
      UploadItemsAre(window[0].tag, window[0].uploads, isPackage, it);
      TestedUploads(window[1..], isPackage, it);
      hide PlainDigest, UploadItems;
      assert forall r :: r in window <==> r == window[0] || r in window[1..];
    }
  }

  // ---------------------------------------------------------------- where a file comes from

  predicate Offers(r: Release, u: Upload, tag: string, name: string) {
    r.tag == tag && u in r.uploads && u.name == name
  }

  lemma {:induction false} UrlsInAre(us: seq<Upload>, name: string, url: string)
    ensures url in UrlsIn(us, name) <==> exists u :: u in us && u.name == name && u.url == url
  {
    if us == [] {
    } else {
      UrlsInAre(us[1..], name, url);
      assert forall u :: u in us <==> u == us[0] || u in us[1..];
    }
  }

  /** The URLs are those of the uploads with that name in the releases with that tag. */
  lemma {:induction false} UrlsAre(rs: seq<Release>, tag: string, name: string, url: string)
    ensures url in Urls(rs, tag, name) <==> exists r, u :: r in rs && Offers(r, u, tag, name) && u.url == url
  {
    if rs == [] {
    } else {
      UrlsInAre(rs[0].uploads, name, url);
      UrlsAre(rs[1..], tag, name, url);
      hide UrlsIn;
      if r, u :| r in rs && Offers(r, u, tag, name) && u.url == url {
        assert r == rs[0] || r in rs[1..];
      }
      if rs[0].tag == tag && url in UrlsIn(rs[0].uploads, name) {
        var u :| u in rs[0].uploads && u.name == name && u.url == url;
        assert Offers(rs[0], u, tag, name);
      }
    }
  }

  /** A file that can be downloaded and has the recorded digest. */
  predicate Obtainable(w: World, item: Item) {
    var url := JoinLines(Urls(w.releases, item.tag, item.name));
    && url != ""
    && w.download(url).Some?
    && w.digest(w.download(url).value) == item.sha256
  }

  predicate NobodyOffers(rs: seq<Release>, tag: string, name: string) {
    forall r, u | r in rs && u in r.uploads :: !(r.tag == tag && u.name == name)
  }

  lemma {:induction false} NoUrlsIn(us: seq<Upload>, name: string)
    requires forall u | u in us :: u.name != name
    ensures UrlsIn(us, name) == []
  {
    if us == [] {
    } else {
      NoUrlsIn(us[1..], name);
    }
  }

  lemma {:induction false} NoUrls(rs: seq<Release>, tag: string, name: string)
    requires NobodyOffers(rs, tag, name)
    ensures Urls(rs, tag, name) == []
  {
    if rs == [] {
    } else {
      NoUrls(rs[1..], tag, name);
      if rs[0].tag == tag {
        NoUrlsIn(rs[0].uploads, name);
      }
    }
  }

  /** What no release offers under that tag and name cannot be had. */
  lemma WhatNobodyOffersIsMissing(w: World, item: Item)
    requires NobodyOffers(w.releases, item.tag, item.name)
    ensures !Obtainable(w, item)
  {
    NoUrls(w.releases, item.tag, item.name);
    hide Urls;
  }

  lemma {:induction false} OneUrlIn(us: seq<Upload>, u: Upload, vs: seq<Upload>)
    requires forall v | v in us || v in vs :: v.name != u.name
    ensures UrlsIn(us + ([u] + vs), u.name) == [u.url]
  {
    var all := us + ([u] + vs);
    if us == [] {
      NoUrlsIn(vs, u.name);
      assert all[0] == u && all[1..] == vs;
    } else {
      OneUrlIn(us[1..], u, vs);
      assert all[0] == us[0] && all[1..] == us[1..] + ([u] + vs);
    }
  }

  lemma {:induction false} OneUrl(before: seq<Release>, r: Release, after: seq<Release>, name: string, url: string)
    requires NobodyOffers(before, r.tag, name) && NobodyOffers(after, r.tag, name) && UrlsIn(r.uploads, name) == [url]
    ensures Urls(before + ([r] + after), r.tag, name) == [url]
  {
    var all := before + ([r] + after);
    if before == [] {
      NoUrls(after, r.tag, name);
      assert all[0] == r && all[1..] == after;
    } else {
      OneUrl(before[1..], r, after, name, url);
      assert all[0] == before[0] && all[1..] == before[1..] + ([r] + after);
      if before[0].tag == r.tag {
        NoUrlsIn(before[0].uploads, name);
      }
    }
  }

  /** What exactly one upload offers under that tag and name is downloaded from its URL, and from nowhere else. */
  lemma TheOnlyUploadIsFetched(w: World, item: Item, before: seq<Release>, r: Release, after: seq<Release>,
                               us: seq<Upload>, u: Upload, vs: seq<Upload>)
    requires w.releases == before + ([r] + after) && r.tag == item.tag
    requires r.uploads == us + ([u] + vs) && u.name == item.name
    requires NobodyOffers(before, item.tag, item.name) && NobodyOffers(after, item.tag, item.name)
    requires forall v | v in us || v in vs :: v.name != item.name
    ensures Obtainable(w, item) <==>
            u.url != "" && w.download(u.url).Some? && w.digest(w.download(u.url).value) == item.sha256
  {
    OneUrlIn(us, u, vs);
    OneUrl(before, r, after, item.name, u.url);
    hide Urls, UrlsIn, NobodyOffers;
  }

  function LinesOf(s: string): seq<string>
    decreases |s|
  {
    var i := IndexOf(s, '\n');
    if i == |s| then [s] else [s[..i]] + LinesOf(s[i + 1..])
  }

  /** Several URLs for one file are taken together as one string with each of them on a line of its own. */
  lemma {:induction false} UrlsAreLines(urls: seq<string>)
    requires urls != [] && forall url | url in urls :: '\n' !in url
    ensures LinesOf(JoinLines(urls)) == urls
  {
    var first, rest := urls[0], urls[1..];
    if rest == [] {
      IndexOfAbsent(first, '\n');
    } else {
      UrlsAreLines(rest);
      var tail := JoinLines(rest);
      IndexOfAfter(first, '\n', tail);
      var all := first + ['\n'] + tail;
      assert JoinLines(urls) == all && all[..|first|] == first && all[|first| + 1..] == tail;
      assert urls == [first] + rest;
    }
  }

  // ---------------------------------------------------------------- package files

  lemma IsRpmIff(n: string)
    ensures IsRpm(n) <==> exists stem :: n == stem + ".rpm"
  {
    if IsRpm(n) {
      assert n == n[..|n| - 4] + ".rpm";
    }
    if stem :| n == stem + ".rpm" {
      assert n[|n| - 4..] == ".rpm";
    }
  }
}
