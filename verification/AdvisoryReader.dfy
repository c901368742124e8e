/** Reading the advisory document back: what the printed document says is what the record says. */
module AdvisoryReader {
  import opened Basics
  import opened PackageName
  import opened Record
  import opened Xml
  import opened UpdateInfo

  datatype Package = Package(nevra: Nevra, file: string, sha256: string)

  /** One advisory as a reader of the document sees it. */
  datatype Update = Update(
    kind: string,
    id: string,
    title: string,
    severity: string,
    issued: string,
    description: string,
    cves: seq<string>,
    tag: string,
    packages: seq<Package>)

  // ---------------------------------------------------------------- the reader

  /** The child elements, without the text between them. */
  function Elements(ns: seq<Node>): seq<Node> {
    if ns == [] then []
    else if ns[0].TextNode? then Elements(ns[1..])
    else [ns[0]] + Elements(ns[1..])
  }

  function ElementsOf(n: Node, tag: string): Option<seq<Node>> {
    if n.Element? && n.tag == tag then Some(Elements(n.children)) else None
  }

  function TextOf(n: Node, tag: string): Option<string> {
    if !n.Element? || n.tag != tag then None
    else if n.children == [] then Some("")
    else if |n.children| == 1 && n.children[0].TextNode? then Some(n.children[0].text)
    else None
  }

  function AttrOf(attrs: seq<Attr>, name: string): Option<string> {
    if attrs == [] then None
    else if attrs[0].name == name then Some(attrs[0].value)
    else AttrOf(attrs[1..], name)
  }

  function ReadCve(n: Node): Option<string> {
    if !n.EmptyElement? || n.tag != "reference" then None
    else
      var id :- AttrOf(n.attrs, "id");
      var href :- AttrOf(n.attrs, "href");
      var title :- AttrOf(n.attrs, "title");
      if href == "https://nvd.nist.gov/vuln/detail/" + id && title == id && AttrOf(n.attrs, "type") == Some("cve")
      then Some(id)
      else None
  }

  function ReadCves(ns: seq<Node>): Option<seq<string>> {
    if ns == [] then Some([])
    else
      var cve :- ReadCve(ns[0]);
      var cves :- ReadCves(ns[1..]);
      Some([cve] + cves)
  }

  /** Epoch 0, and the digest is a SHA-256. */
  predicate PlainPackage(attrs: seq<Attr>, sum: Node) {
    AttrOf(attrs, "epoch") == Some("0") && sum.Element? && AttrOf(sum.attrs, "type") == Some("sha256")
  }

  function ReadPackage(n: Node): Option<Package> {
    var kids :- ElementsOf(n, "package");
    if |kids| != 2 || !PlainPackage(n.attrs, kids[1]) then None
    else
      var name :- AttrOf(n.attrs, "name");
      var version :- AttrOf(n.attrs, "version");
      var release :- AttrOf(n.attrs, "release");
      var arch :- AttrOf(n.attrs, "arch");
      var file :- TextOf(kids[0], "filename");
      var sha256 :- TextOf(kids[1], "sum");
      Some(Package(Nevra(name, version, release, arch), file, sha256))
  }

  function ReadPackages(ns: seq<Node>): Option<seq<Package>> {
    if ns == [] then Some([])
    else
      var p :- ReadPackage(ns[0]);
      var ps :- ReadPackages(ns[1..]);
      Some([p] + ps)
  }

  function ReadCollection(n: Node): Option<(string, seq<Package>)> {
    var kids :- ElementsOf(n, "collection");
    if kids == [] then None
    else
      var short :- AttrOf(n.attrs, "short");
      var name :- TextOf(kids[0], "name");
      var packages :- ReadPackages(kids[1..]);
      if short == name then Some((name, packages)) else None
  }

  predicate StableUpdate(attrs: seq<Attr>) {
    && AttrOf(attrs, "from") == Some("xcp-hl")
    && AttrOf(attrs, "status") == Some("stable")
    && AttrOf(attrs, "version") == Some("1")
  }

  function ReadUpdate(n: Node): Option<Update> {
    var kids :- ElementsOf(n, "update");
    if |kids| != 7 || !kids[3].EmptyElement? || kids[3].tag != "issued" || !StableUpdate(n.attrs) then None
    else
      var kind :- AttrOf(n.attrs, "type");
      var id :- TextOf(kids[0], "id");
      var title :- TextOf(kids[1], "title");
      var severity :- TextOf(kids[2], "severity");
      var issued :- AttrOf(kids[3].attrs, "date");
      var description :- TextOf(kids[4], "description");
      var refs :- ElementsOf(kids[5], "references");
      var cves :- ReadCves(refs);
      var collections :- ElementsOf(kids[6], "pkglist");
      if |collections| != 1 then None
      else
        var (tag, packages) :- ReadCollection(collections[0]);
        Some(Update(kind, id, title, severity, issued, description, cves, tag, packages))
  }

  function ReadUpdates(ns: seq<Node>): Option<seq<Update>> {
    if ns == [] then Some([])
    else
      var u :- ReadUpdate(ns[0]);
      var us :- ReadUpdates(ns[1..]);
      Some([u] + us)
  }

  function ReadRoot(ns: seq<Node>): Option<seq<Update>> {
    if |ns| != 1 then None
    else
      var updates :- ElementsOf(ns[0], "updates");
      ReadUpdates(updates)
  }

  function ReadDocument(s: string): Option<seq<Update>> {
    var declaration := "<?xml version=\"1.0\" encoding=\"UTF-8\"?>\n";
    if !(declaration <= s) then None
    else
      var ns :- Read(s[|declaration|..]);
      ReadRoot(ns)
  }

  // ---------------------------------------------------------------- what the record says

  /** The packages of a release: of its assets, those whose NEVRA has the expected form. */
  function PackagesOf(xs: seq<Asset>): seq<Package> {
    if xs == [] then []
    else (match Split(xs[0].nevra)
          case Some(p) => [Package(p, xs[0].name, xs[0].sha256)]
          case None => []) + PackagesOf(xs[1..])
  }

  function UpdateOf(e: Entry, a: Advisory): Update {
    var severity := match a.severity case None => "None" case Some(s) => s;
    var cves := match a.cves case None => [] case Some(cs) => cs;
    Update(a.kind, a.id, a.summary, severity, IssuedDate(a.issued), a.summary + " (fixed in " + e.tag + ")", cves,
           e.tag, PackagesOf(e.assets))
  }

  function UpdatesOf(es: seq<Entry>): seq<Update> {
    if es == [] then []
    else
      (if es[0].status == "stable" && es[0].advisory.Some? then [UpdateOf(es[0], es[0].advisory.value)] else [])
      + UpdatesOf(es[1..])
  }

  // ---------------------------------------------------------------- the tree says the same

  predicate AllElements(ns: seq<Node>) {
    forall i | 0 <= i < |ns| :: !ns[i].TextNode?
  }

  lemma {:induction false} ElementsOfLayout(indent: string, kids: seq<Node>)
    requires AllElements(kids)
    ensures Elements(Layout(indent, kids)) == kids
    decreases |kids|
  {
    var ns := Layout(indent, kids);
    if kids == [] {
      assert ns[1..] == [];
    } else {
      var rest := Layout(indent, kids[1..]);
      ElementsOfLayout(indent, kids[1..]);
      assert ns[1..] == [kids[0]] + rest;
      assert ns[1..][1..] == rest;
    }
  }

  lemma TextOfLeaf(tag: string, attrs: seq<Attr>, text: string)
    ensures TextOf(Leaf(tag, attrs, text), tag) == Some(text)
  {
  }

  lemma AttrOfHead(a: Attr, rest: seq<Attr>, name: string)
    ensures AttrOf([a] + rest, name) == if a.name == name then Some(a.value) else AttrOf(rest, name)
  {
    assert ([a] + rest)[1..] == rest;
  }

  lemma AttrOfOne(a: Attr)
    ensures AttrOf([a], a.name) == Some(a.value)
  {
  }

  lemma AttrOfFour(a: Attr, b: Attr, c: Attr, d: Attr, name: string)
    ensures AttrOf([a, b, c, d], name) ==
            if a.name == name then Some(a.value)
            else if b.name == name then Some(b.value)
            else if c.name == name then Some(c.value)
            else if d.name == name then Some(d.value) else None
  {
    assert [a, b, c, d] == [a] + ([b] + ([c] + ([d] + [])));
    AttrOfHead(a, [b] + ([c] + ([d] + [])), name);
    AttrOfHead(b, [c] + ([d] + []), name);
    AttrOfHead(c, [d] + [], name);
    AttrOfHead(d, [], name);
  }

  lemma ReadCveNode(cve: string)
    ensures ReadCve(CveNode(cve)) == Some(cve)
  {
    var a, b, c, d := Attr("href", NVD_PREFIX + cve), Attr("id", cve), Attr("type", "cve"), Attr("title", cve);
    AttrOfFour(a, b, c, d, "id");
    AttrOfFour(a, b, c, d, "href");
    AttrOfFour(a, b, c, d, "title");
    AttrOfFour(a, b, c, d, "type");
  }

  lemma {:induction false} ReadCveNodes(cves: seq<string>)
    ensures ReadCves(CveNodes(cves)) == Some(cves) && AllElements(CveNodes(cves))
  {
    hide ReadCve;
    if cves == [] {
    } else {
      ReadCveNode(cves[0]);
      ReadCveNodes(cves[1..]);
      assert CveNodes(cves)[1..] == CveNodes(cves[1..]);
      assert cves == [cves[0]] + cves[1..];
    }
  }

  lemma AttrOfPackage(p: Nevra)
    ensures AttrOf(PackageAttrs(p), "name") == Some(p.name)
    ensures AttrOf(PackageAttrs(p), "version") == Some(p.version)
    ensures AttrOf(PackageAttrs(p), "release") == Some(p.release)
    ensures AttrOf(PackageAttrs(p), "arch") == Some(p.arch)
    ensures AttrOf(PackageAttrs(p), "epoch") == Some("0")
  {
    var a, b, c, d, e := Attr("name", p.name), Attr("version", p.version), Attr("release", p.release),
        Attr("epoch", "0"), Attr("arch", p.arch);
    assert PackageAttrs(p) == [a] + [b, c, d, e];
    AttrOfHead(a, [b, c, d, e], "name");
    AttrOfHead(a, [b, c, d, e], "version");
    AttrOfHead(a, [b, c, d, e], "release");
    AttrOfHead(a, [b, c, d, e], "arch");
    AttrOfHead(a, [b, c, d, e], "epoch");
    AttrOfFour(b, c, d, e, "version");
    AttrOfFour(b, c, d, e, "release");
    AttrOfFour(b, c, d, e, "arch");
    AttrOfFour(b, c, d, e, "epoch");
  }

  lemma ReadPackageNode(p: Nevra, x: Asset)
    ensures ReadPackage(PackageNode(p, x)) == Some(Package(p, x.name, x.sha256))
  {
    var kids := [Leaf("filename", [], x.name), Leaf("sum", [Attr("type", "sha256")], x.sha256)];
    ElementsOfLayout("        ", kids);
    TextOfLeaf("filename", [], x.name);
    TextOfLeaf("sum", [Attr("type", "sha256")], x.sha256);
    AttrOfPackage(p);
    AttrOfOne(Attr("type", "sha256"));
    assert kids[1].Element? && kids[1].attrs == [Attr("type", "sha256")];
    hide AttrOf, Elements, TextOf, Layout, Leaf, PackageAttrs;
  }

  lemma {:induction false} ReadPackageNodes(xs: seq<Asset>)
    ensures ReadPackages(PackageNodes(xs)) == Some(PackagesOf(xs)) && AllElements(PackageNodes(xs))
  {
    hide ReadPackage, Split;
    if xs == [] {
    } else {
      ReadPackageNodes(xs[1..]);
      match Split(xs[0].nevra) {
        case Some(p) =>
          ReadPackageNode(p, xs[0]);
          assert PackageNodes(xs) == [PackageNode(p, xs[0])] + PackageNodes(xs[1..]);
          assert PackageNodes(xs)[1..] == PackageNodes(xs[1..]);
        case None =>
          assert PackageNodes(xs) == PackageNodes(xs[1..]);
          assert PackagesOf(xs) == PackagesOf(xs[1..]);
      }
    }
  }

  lemma ReadCollectionNode(e: Entry)
    ensures ReadCollection(CollectionNode(e)) == Some((e.tag, PackagesOf(e.assets)))
  {
    var packages := PackageNodes(e.assets);
    var kids := [Leaf("name", [], e.tag)] + packages;
    ReadPackageNodes(e.assets);
    ElementsOfLayout("      ", kids);
    TextOfLeaf("name", [], e.tag);
    assert kids[1..] == packages;
    assert AttrOf([Attr("short", e.tag)], "short") == Some(e.tag);
    hide AttrOf, Elements, TextOf, Layout, ReadPackages;
  }

  /** The leaves of an advisory. */
  lemma ReadUpdateLeaves(e: Entry, a: Advisory)
    ensures var ks := UpdateKids(e, a);
            && TextOf(ks[0], "id") == Some(a.id)
            && TextOf(ks[1], "title") == Some(a.summary)
            && TextOf(ks[2], "severity") == Some(a.severity.GetOr("None"))
            && ks[3].EmptyElement? && ks[3].tag == "issued"
            && AttrOf(ks[3].attrs, "date") == Some(IssuedDate(a.issued))
            && TextOf(ks[4], "description") == Some(a.summary + " (fixed in " + e.tag + ")")
  {
    hide TextOf, AttrOf, Leaf, Container, CveNodes, CollectionNode, IssuedDate;
    TextOfLeaf("id", [], a.id);
    TextOfLeaf("title", [], a.summary);
    TextOfLeaf("severity", [], a.severity.GetOr("None"));
    TextOfLeaf("description", [], a.summary + " (fixed in " + e.tag + ")");
    AttrOfOne(Attr("date", IssuedDate(a.issued)));
  }

  lemma ElementsOfContainer(indent: string, tag: string, attrs: seq<Attr>, kids: seq<Node>)
    requires AllElements(kids)
    ensures ElementsOf(Container(indent, tag, attrs, kids), tag) == Some(kids)
  {
    ElementsOfLayout(indent, kids);
  }

  /** The references and packages of an advisory. */
  lemma ReadUpdateLists(e: Entry, a: Advisory)
    ensures var ks := UpdateKids(e, a);
            && ElementsOf(ks[5], "references") == Some(CveNodes(a.cves.GetOr([])))
            && ReadCves(CveNodes(a.cves.GetOr([]))) == Some(a.cves.GetOr([]))
            && ElementsOf(ks[6], "pkglist") == Some([CollectionNode(e)])
            && ReadCollection(CollectionNode(e)) == Some((e.tag, PackagesOf(e.assets)))
  {
    ReadCveNodes(a.cves.GetOr([]));
    ReadCollectionNode(e);
    assert AllElements([CollectionNode(e)]);
    hide Leaf, CveNodes, CollectionNode, IssuedDate, ElementsOf, ReadCollection, ReadCves;
    ElementsOfContainer("    ", "references", [], CveNodes(a.cves.GetOr([])));
    ElementsOfContainer("    ", "pkglist", [], [CollectionNode(e)]);
    hide Container;
  }

  lemma ReadUpdateTag(e: Entry, a: Advisory)
    ensures ElementsOf(UpdateNode(e, a), "update") == Some(UpdateKids(e, a))
    ensures UpdateNode(e, a).Element? && AttrOf(UpdateNode(e, a).attrs, "type") == Some(a.kind)
    ensures StableUpdate(UpdateNode(e, a).attrs)
  {
    var attrs := UpdateAttrs(a);
    AttrOfFour(attrs[0], attrs[1], attrs[2], attrs[3], "type");
    AttrOfFour(attrs[0], attrs[1], attrs[2], attrs[3], "from");
    AttrOfFour(attrs[0], attrs[1], attrs[2], attrs[3], "status");
    AttrOfFour(attrs[0], attrs[1], attrs[2], attrs[3], "version");
    assert AllElements(UpdateKids(e, a));
    ElementsOfContainer("  ", "update", attrs, UpdateKids(e, a));
    hide AttrOf, ElementsOf, UpdateKids;
  }

  lemma ReadUpdateNode(e: Entry, a: Advisory)
    ensures ReadUpdate(UpdateNode(e, a)) == Some(UpdateOf(e, a))
  {
    ReadUpdateTag(e, a);
    ReadUpdateLeaves(e, a);
    ReadUpdateLists(e, a);
    assert |UpdateKids(e, a)| == 7;
    hide AttrOf, ElementsOf, TextOf, Container, ReadCves, ReadCollection, CollectionNode, CveNodes, PackagesOf,
        IssuedDate, StableUpdate, UpdateKids, UpdateNode;
  }

  lemma {:induction false} ReadUpdateNodes(es: seq<Entry>)
    ensures ReadUpdates(UpdateNodes(es)) == Some(UpdatesOf(es)) && AllElements(UpdateNodes(es))
  {
    hide ReadUpdate, UpdateOf;
    if es == [] {
    } else {
      ReadUpdateNodes(es[1..]);
      if Announced(es[0]) {
        var n := UpdateNode(es[0], es[0].advisory.value);
        ReadUpdateNode(es[0], es[0].advisory.value);
        assert UpdateNodes(es) == [n] + UpdateNodes(es[1..]);
        assert UpdateNodes(es)[1..] == UpdateNodes(es[1..]);
      } else {
        assert UpdateNodes(es) == UpdateNodes(es[1..]);
        assert UpdatesOf(es) == UpdatesOf(es[1..]);
      }
    }
  }

  // ---------------------------------------------------------------- the tree is well-formed

  predicate GoodElements(ns: seq<Node>) {
    forall i | 0 <= i < |ns| :: !ns[i].TextNode? && GoodNode(ns[i])
  }

  lemma {:induction false} LayoutIsGood(indent: string, kids: seq<Node>)
    requires GoodElements(kids)
    ensures GoodNodes(Layout(indent, kids))
    decreases |kids|
  {
    var ns := Layout(indent, kids);
    assert GoodNode(ns[0]) by {
      assert ns[0].TextNode? && |ns[0].text| > 0;
    }
    if kids == [] {
      assert ns[1..] == [];
      assert GoodNodes(ns[1..]);
    } else {
      var rest := Layout(indent, kids[1..]);
      LayoutIsGood(indent, kids[1..]);
      assert ns[1..] == [kids[0]] + rest;
      assert ns[1..][1..] == rest;
      assert GoodNodes(ns[1..]);
    }
  }

  lemma LeafIsGood(tag: string, attrs: seq<Attr>, text: string)
    requires IsName(tag) && GoodAttrs(attrs)
    ensures GoodNode(Leaf(tag, attrs, text))
  {
    if text != "" {
      assert [TextNode(text)][1..] == [];
    }
  }

  lemma {:induction false} CveNodesAreGood(cves: seq<string>)
    ensures GoodElements(CveNodes(cves))
  {
    if cves == [] {
    } else {
      CveNodesAreGood(cves[1..]);
    }
  }

  lemma PackageNodeIsGood(p: Nevra, x: Asset)
    ensures GoodNode(PackageNode(p, x))
  {
    LeafIsGood("filename", [], x.name);
    LeafIsGood("sum", [Attr("type", "sha256")], x.sha256);
    LayoutIsGood("        ", [Leaf("filename", [], x.name), Leaf("sum", [Attr("type", "sha256")], x.sha256)]);
  }

  lemma {:induction false} PackageNodesAreGood(xs: seq<Asset>)
    ensures GoodElements(PackageNodes(xs))
  {
    hide Split, GoodNode;
    if xs == [] {
    } else {
      PackageNodesAreGood(xs[1..]);
      if Split(xs[0].nevra).Some? {
        PackageNodeIsGood(Split(xs[0].nevra).value, xs[0]);
      }
    }
  }

  lemma CollectionNodeIsGood(e: Entry)
    ensures GoodNode(CollectionNode(e))
  {
    LeafIsGood("name", [], e.tag);
    PackageNodesAreGood(e.assets);
    LayoutIsGood("      ", [Leaf("name", [], e.tag)] + PackageNodes(e.assets));
  }

  lemma UpdateNodeIsGood(e: Entry, a: Advisory)
    ensures GoodNode(UpdateNode(e, a))
  {
    UpdateKidsAreGood(e, a);
    UpdateAttrsAreGood(a);
    hide GoodNode, UpdateKids, GoodAttrs;
    ContainerIsGood("  ", "update", UpdateAttrs(a), UpdateKids(e, a));
  }

  lemma UpdateAttrsAreGood(a: Advisory)
    ensures GoodAttrs(UpdateAttrs(a)) && IsName("update")
  {
  }

  lemma ContainerIsGood(indent: string, tag: string, attrs: seq<Attr>, kids: seq<Node>)
    requires IsName(tag) && GoodAttrs(attrs) && GoodElements(kids)
    ensures GoodNode(Container(indent, tag, attrs, kids))
  {
    LayoutIsGood(indent, kids);
  }

  lemma UpdateLeavesAreGood(e: Entry, a: Advisory)
    ensures forall i | 0 <= i < 5 :: !UpdateKids(e, a)[i].TextNode? && GoodNode(UpdateKids(e, a)[i])
  {
    LeafIsGood("id", [], a.id);
    LeafIsGood("title", [], a.summary);
    LeafIsGood("severity", [], a.severity.GetOr("None"));
    LeafIsGood("description", [], a.summary + " (fixed in " + e.tag + ")");
    IssuedIsGood(IssuedDate(a.issued));
    hide GoodNode, IssuedDate;
  }

  lemma IssuedIsGood(date: string)
    ensures GoodNode(EmptyElement("issued", [Attr("date", date)]))
  {
    assert IsName("date");
  }

  lemma UpdateKidsAreGood(e: Entry, a: Advisory)
    ensures GoodElements(UpdateKids(e, a))
  {
    var cves := CveNodes(a.cves.GetOr([]));
    UpdateLeavesAreGood(e, a);
    CveNodesAreGood(a.cves.GetOr([]));
    CollectionNodeIsGood(e);
    ContainerIsGood("    ", "references", [], cves);
    ContainerIsGood("    ", "pkglist", [], [CollectionNode(e)]);
    hide GoodNode, CollectionNode, CveNodes;
  }

  lemma {:induction false} UpdateNodesAreGood(es: seq<Entry>)
    ensures GoodElements(UpdateNodes(es))
  {
    hide GoodNode;
    if es == [] {
    } else {
      UpdateNodesAreGood(es[1..]);
      if Announced(es[0]) {
        UpdateNodeIsGood(es[0], es[0].advisory.value);
      }
    }
  }

  // ---------------------------------------------------------------- the whole document

  lemma TreeIsGood(es: seq<Entry>)
    ensures GoodNodes([Tree(es)])
  {
    UpdateNodesAreGood(es);
    LayoutIsGood("", UpdateNodes(es));
    var root := Tree(es);
    assert GoodNode(root);
    assert [root][1..] == [];
  }

  lemma ReadTree(es: seq<Entry>)
    ensures ReadRoot([Tree(es)]) == Some(UpdatesOf(es))
  {
    ReadUpdateNodes(es);
    ElementsOfLayout("", UpdateNodes(es));
    hide Layout, Elements, ReadUpdates, UpdateNodes, UpdatesOf;
  }

  /** For every record: the document is properly nested, and reading it gives back exactly the advisories
      of the stable entries that carry one, in order and with their original values, whatever characters
      these contain. */
  lemma DocumentRoundTrip(es: seq<Entry>)
    ensures ReadDocument(Document(es)) == Some(UpdatesOf(es))
  {
    DocumentIsPrintedTree(es);
    TreeIsGood(es);
    var root := Tree(es);
    ReadPrinted([root]);
    ReadTree(es);
    var s := Document(es);
    hide Document, PrintNodes, Read, GoodNode, GoodNodes, ReadRoot, Tree, UpdatesOf;
    assert s[|DECLARATION|..] == PrintNodes([root]);
  }

  /** The entries that carry an advisory and are stable, by their indices in order. */
  ghost predicate Carriers(es: seq<Entry>, indices: seq<nat>) {
    && (forall j, k | 0 <= j < k < |indices| :: indices[j] < indices[k])
    && (forall i: nat :: i in indices <==> i < |es| && es[i].status == "stable" && es[i].advisory.Some?)
  }

  /** The advisories of these entries. */
  ghost predicate AdvisoriesOf(updates: seq<Update>, es: seq<Entry>, indices: seq<nat>) {
    && |updates| == |indices|
    && forall k | 0 <= k < |updates| ::
         && indices[k] < |es| && es[indices[k]].advisory.Some?
         && updates[k] == UpdateOf(es[indices[k]], es[indices[k]].advisory.value)
  }

  lemma OneMoreCarrier(front: seq<Entry>, e: Entry, indices: seq<nat>)
    requires Carriers(front, indices)
    ensures Carriers(front + [e], if e.status == "stable" && e.advisory.Some? then indices + [|front|] else indices)
  {
    var es := front + [e];
    var more := if e.status == "stable" && e.advisory.Some? then indices + [|front|] else indices;
    assert forall k | 0 <= k < |indices| :: indices[k] in indices;
    forall i: nat ensures i in more <==> i < |es| && es[i].status == "stable" && es[i].advisory.Some? {
      if i < |front| {
        assert es[i] == front[i];
      } else if i == |front| {
        assert es[i] == e;
      }
    }
  }

  lemma OneMoreAdvisory(us: seq<Update>, front: seq<Entry>, e: Entry, indices: seq<nat>)
    requires AdvisoriesOf(us, front, indices)
    ensures AdvisoriesOf(us, front + [e], indices)
    ensures e.advisory.Some? ==>
              AdvisoriesOf(us + [UpdateOf(e, e.advisory.value)], front + [e], indices + [|front|])
  {
    hide UpdateOf;
    assert (front + [e])[|front|] == e;
    assert forall k | 0 <= k < |us| :: (front + [e])[indices[k]] == front[indices[k]];
  }

  lemma {:induction false} CarriersOf(es: seq<Entry>) returns (indices: seq<nat>)
    ensures Carriers(es, indices) && AdvisoriesOf(UpdatesOf(es), es, indices)
  {
    if es == [] {
      indices := [];
    } else {
      var last := |es| - 1;
      var front, e := es[..last], es[last];
      assert es == front + [e];
      var before := CarriersOf(front);
      hide *;
      UpdatesAppend(front, e);
      OneMoreCarrier(front, e, before);
      OneMoreAdvisory(UpdatesOf(front), front, e, before);
      if e.status == "stable" && e.advisory.Some? {
        indices := before + [last];
      } else {
        indices := before;
        assert UpdatesOf(front) + [] == UpdatesOf(front);
      }
    }
  }

  lemma {:induction false} UpdatesAppend(es: seq<Entry>, e: Entry)
    ensures UpdatesOf(es + [e]) ==
            UpdatesOf(es) + if e.status == "stable" && e.advisory.Some? then [UpdateOf(e, e.advisory.value)] else []
  {
    hide UpdateOf;
    if es == [] {
      assert ([] + [e])[1..] == [];
    } else {
      UpdatesAppend(es[1..], e);
      assert (es + [e])[1..] == es[1..] + [e];
    }
  }

  /** The advisories read back are, in order and number, those of the stable entries that carry one; those of
      withdrawn, retired and superseded entries are not among them. */
  lemma ExactlyTheStableAdvisories(es: seq<Entry>) returns (indices: seq<nat>)
    ensures Carriers(es, indices)
    ensures ReadDocument(Document(es)).Some? && AdvisoriesOf(ReadDocument(Document(es)).value, es, indices)
  {
    DocumentRoundTrip(es);
    hide *;
    indices := CarriersOf(es);
  }
}
