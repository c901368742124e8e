/** Building the package site: what is fetched into which directory, checked against which digest, and
    listed in which metadata. */
module Publisher {
  import opened Basics
  import opened Record
  import opened Selection
  import opened Timestamps
  import U = UpdateInfo

  /** The list of releases, what a download of a URL yields, and SHA-256. */
  datatype World = World(releases: seq<Release>, download: string -> Option<Bytes>, digest: Bytes -> string)

  /** One line of a list file. */
  datatype Item = Item(tag: string, name: string, sha256: string)

  type Files = map<string, Bytes>

  /** The promotion record; without a generation it is not one. */
  datatype Promotions = Promotions(generation: Option<string>, entries: seq<Entry>)

  datatype Site = Site(stable: Files, testing: Files, stableListed: set<string>, testingListed: set<string>)

  // ---------------------------------------------------------------- the lists

  predicate InStable(e: Entry, now: string) {
    e.status == "stable" || (e.status == "retired" && Retained(e.retainUntil, now))
  }

  predicate InSuperseded(e: Entry, now: string) {
    e.status == "superseded" && Retained(e.retainUntil, now)
  }

  function ItemsOf(e: Entry): seq<Item> {
    seq(|e.assets|, i requires 0 <= i < |e.assets| => Item(e.tag, e.assets[i].name, e.assets[i].sha256))
  }

  /** The assets of the chosen entries, in the order of the record. */
  function ItemsWhere(es: seq<Entry>, chosen: Entry -> bool): seq<Item> {
    if es == [] then [] else (if chosen(es[0]) then ItemsOf(es[0]) else []) + ItemsWhere(es[1..], chosen)
  }

  function StableItems(es: seq<Entry>, now: string): seq<Item> {
    ItemsWhere(es, (e: Entry) => InStable(e, now))
  }

  function SupersededItems(es: seq<Entry>, now: string): seq<Item> {
    ItemsWhere(es, (e: Entry) => InSuperseded(e, now))
  }

  function Withdrawn(es: seq<Entry>): seq<string> {
    if es == [] then [] else (if es[0].status == "withdrawn" then [es[0].tag] else []) + Withdrawn(es[1..])
  }

  const DIGEST_PREFIX := "sha256:"

  function PlainDigest(digest: Option<string>): string {
    var d := digest.GetOr("");
    if DIGEST_PREFIX <= d then d[|DIGEST_PREFIX|..] else d
  }

  function UploadItems(tag: string, us: seq<Upload>, isPackage: string -> bool): seq<Item> {
    if us == [] then []
    else (if isPackage(us[0].name) then [Item(tag, us[0].name, PlainDigest(us[0].digest))] else [])
         + UploadItems(tag, us[1..], isPackage)
  }

  function TestingItems(window: seq<Release>, isPackage: string -> bool): seq<Item> {
    if window == [] then []
    else UploadItems(window[0].tag, window[0].uploads, isPackage) + TestingItems(window[1..], isPackage)
  }

  // ---------------------------------------------------------------- fetching

  /** All URLs of uploads with that name in releases with that tag. */
  function Urls(rs: seq<Release>, tag: string, name: string): seq<string> {
    if rs == [] then []
    else (if rs[0].tag == tag then UrlsIn(rs[0].uploads, name) else []) + Urls(rs[1..], tag, name)
  }

  function UrlsIn(us: seq<Upload>, name: string): seq<string> {
    if us == [] then [] else (if us[0].name == name then [us[0].url] else []) + UrlsIn(us[1..], name)
  }

  function JoinLines(lines: seq<string>): string {
    if lines == [] then "" else if |lines| == 1 then lines[0] else lines[0] + "\n" + JoinLines(lines[1..])
  }

  /** Nothing if there is no such file, it cannot be downloaded, or its digest is not the recorded one. */
  function FetchOne(w: World, files: Files, item: Item): Option<Files> {
    var url := JoinLines(Urls(w.releases, item.tag, item.name));
    if url == "" then None
    else
      var bytes :- w.download(url);
      if w.digest(bytes) == item.sha256 then Some(files[item.name := bytes]) else None
  }

  function FetchAll(w: World, files: Files, items: seq<Item>): Option<Files>
    decreases |items|
  {
    if items == [] then Some(files)
    else
      var next :- FetchOne(w, files, items[0]);
      FetchAll(w, next, items[1..])
  }

  // ---------------------------------------------------------------- metadata

  predicate IsRpm(name: string) {
    |name| >= 4 && name[|name| - 4..] == ".rpm"
  }

  /** The index of a directory: its packages, except those excluded by name. */
  function Index(files: Files, excluded: seq<string>): set<string> {
    set n | n in files && IsRpm(n) && n !in excluded
  }

  function NamesOf(items: seq<Item>): seq<string> {
    seq(|items|, i requires 0 <= i < |items| => items[i].name)
  }

  // ---------------------------------------------------------------- the build

  /** A file without a recorded digest. */
  predicate Undigested(items: seq<Item>) {
    exists i | 0 <= i < |items| :: items[i].sha256 == ""
  }

  function Build(w: World, rec: Promotions, now: string, keep: int, isPackage: string -> bool): Option<Site> {
    if rec.generation.None? then None
    else
      var stableItems := StableItems(rec.entries, now);
      var supersededItems := SupersededItems(rec.entries, now);
      if stableItems == [] then None
      else
        var current :- FetchAll(w, map[], stableItems);
        var stable :- FetchAll(w, current, supersededItems);
        var testingItems := TestingItems(TestingWindow(w.releases, Withdrawn(rec.entries), keep), isPackage);
        if Undigested(testingItems) then None
        else
          var testing :- FetchAll(w, map[], testingItems);
          Some(Site(stable, testing, Index(stable, NamesOf(supersededItems)), Index(testing, [])))
  }

  /** A directory of the site under construction. */
  class Directory {
    var files: Files

    constructor ()
      ensures files == map[]
    {
      files := map[];
    }

    /** Download one file into the directory and compare its digest.  A file with another digest stays
        behind, but the run ends. */
    method Fetch(w: World, item: Item) returns (ok: bool)
      modifies this
      ensures ok <==> FetchOne(w, old(files), item).Some?
      ensures ok ==> Some(files) == FetchOne(w, old(files), item)
    {
      var url := JoinLines(Urls(w.releases, item.tag, item.name));
      if url == "" {
        return false;
      }
      var got := w.download(url);
      if got.None? {
        return false;
      }
      files := files[item.name := got.value];
      ok := w.digest(files[item.name]) == item.sha256;
    }

    /** The loop over a list file; it ends with the first file that cannot be had. */
    method FetchList(w: World, items: seq<Item>) returns (ok: bool)
      modifies this
      ensures ok <==> FetchAll(w, old(files), items).Some?
      ensures ok ==> Some(files) == FetchAll(w, old(files), items)
    {
      var i := 0;
      while i < |items|
        invariant 0 <= i <= |items|
        invariant FetchAll(w, files, items[i..]) == FetchAll(w, old(files), items)
      {
        assert items[i..][1..] == items[i + 1..];
        var fetched := Fetch(w, items[i]);
        if !fetched {
          return false;
        }
        i := i + 1;
      }
      ok := true;
    }
  }

  /** Testing files without a digest end the run when their turn comes. */
  method FetchTesting(w: World, dir: Directory, items: seq<Item>) returns (ok: bool)
    modifies dir
    ensures ok <==> (forall i | 0 <= i < |items| :: items[i].sha256 != "") && FetchAll(w, old(dir.files), items).Some?
    ensures ok ==> Some(dir.files) == FetchAll(w, old(dir.files), items)
  {
    var i := 0;
    while i < |items|
      invariant 0 <= i <= |items|
      invariant forall k | 0 <= k < i :: items[k].sha256 != ""
      invariant FetchAll(w, dir.files, items[i..]) == FetchAll(w, old(dir.files), items)
    {
      assert items[i..][1..] == items[i + 1..];
      if items[i].sha256 == "" {
        return false;
      }
      var fetched := dir.Fetch(w, items[i]);
      if !fetched {
        return false;
      }
      i := i + 1;
    }
    ok := true;
  }

  /** The names to leave out of the metadata, collected one by one. */
  method Excludes(items: seq<Item>) returns (names: seq<string>)
    ensures names == NamesOf(items)
  {
    names := [];
    for i := 0 to |items|
      invariant |names| == i && forall k | 0 <= k < i :: names[k] == items[k].name
    {
      names := names + [items[i].name];
    }
  }

  /** The whole run: the site and the advisories that go with it, or nothing. */
  method BuildSite(w: World, rec: Promotions, now: string, keep: int, isPackage: string -> bool)
    returns (site: Option<Site>, advisories: string)
    ensures site == Build(w, rec, now, keep, isPackage)
    ensures advisories == if site.Some? then U.Document(rec.entries) else ""
  {
    if rec.generation.None? {
      return None, "";
    }
    var stableDir := new Directory();
    var testingDir := new Directory();
    var stableItems := StableItems(rec.entries, now);
    if stableItems == [] {
      return None, "";
    }
    var ok := stableDir.FetchList(w, stableItems);
    if !ok {
      return None, "";
    }
    var supersededItems := SupersededItems(rec.entries, now);
    ok := stableDir.FetchList(w, supersededItems);
    if !ok {
      return None, "";
    }
    var testingItems := TestingItems(TestingWindow(w.releases, Withdrawn(rec.entries), keep), isPackage);
    ok := FetchTesting(w, testingDir, testingItems);
    if !ok {
      return None, "";
    }
    var excluded := Excludes(supersededItems);
    site := Some(Site(stableDir.files, testingDir.files,
                      Index(stableDir.files, excluded), Index(testingDir.files, [])));
    advisories := U.Document(rec.entries);
  }
}
