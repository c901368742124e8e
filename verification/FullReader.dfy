/** The advisories as they arrive through a full XML processor, which changes white space before the reader
    sees it. */
module FullReader {
  import opened Basics
  import opened PackageName
  import opened Xml
  import opened Record
  import opened XmlProcessor
  import opened SafeRecords
  import opened AdvisoryReader
  import U = UpdateInfo

  /** The reader of module AdvisoryReader behind a full processor. */
  function ReadFully(s: string): Option<seq<Update>> {
    if !(U.DECLARATION <= s) then None
    else
      var tokens :- Process(s[|U.DECLARATION|..]);
      var ns :- Nest(tokens);
      ReadRoot(ns)
  }

  // ---------------------------------------------------------------- what the processor makes of nodes

  function Seen(value: string): string {
    Blanks(LineEnds(value))
  }

  function SeenAttrs(attrs: seq<Attr>): seq<Attr> {
    BlankAttrs(LineEndAttrs(attrs))
  }

  function SeenNode(n: Node): Node {
    match n
    case TextNode(text) => TextNode(LineEnds(text))
    case EmptyElement(tag, attrs) => EmptyElement(tag, SeenAttrs(attrs))
    case Element(tag, attrs, children) => Element(tag, SeenAttrs(attrs), SeenNodes(children))
  }

  function SeenNodes(ns: seq<Node>): seq<Node> {
    if ns == [] then [] else [SeenNode(ns[0])] + SeenNodes(ns[1..])
  }

  function SeenTokens(ts: seq<Token>): seq<Token> {
    BlankTokens(LineEndTokens(ts))
  }

  lemma SeenTokensCons(t: Token, ts: seq<Token>)
    ensures SeenTokens([t] + ts) == [BlankToken(LineEndToken(t))] + SeenTokens(ts)
  {
    assert ([t] + ts)[1..] == ts;
    assert LineEndTokens([t] + ts)[1..] == LineEndTokens(ts);
  }

  lemma {:induction false} SeenTokensAppend(a: seq<Token>, b: seq<Token>)
    ensures SeenTokens(a + b) == SeenTokens(a) + SeenTokens(b)
  {
    if a == [] {
      assert a + b == b;
    } else {
      SeenTokensAppend(a[1..], b);
      SeenTokensCons(a[0], a[1..] + b);
      SeenTokensCons(a[0], a[1..]);
      hide SeenTokens;
      assert a == [a[0]] + a[1..];
      assert a + b == [a[0]] + (a[1..] + b);
    }
  }

  lemma SeenTokensOne(t: Token)
    ensures SeenTokens([t]) == [BlankToken(LineEndToken(t))]
  {
    assert [t] + [] == [t];
    SeenTokensCons(t, []);
  }

  lemma {:induction false} SeenFlatten(n: Node)
    ensures SeenTokens(Flatten(n)) == Flatten(SeenNode(n))
    decreases n, 1
  {
    match n {
      case TextNode(text) => SeenTokensOne(Chars(text));
      case EmptyElement(tag, attrs) => SeenTokensOne(Single(tag, attrs));
      case Element(tag, attrs, children) =>
        SeenFlattenAll(children);
        SeenTokensOne(Open(tag, attrs));
        SeenTokensOne(Close(tag));
        SeenTokensAppend([Open(tag, attrs)], FlattenAll(children));
        SeenTokensAppend([Open(tag, attrs)] + FlattenAll(children), [Close(tag)]);
        hide SeenTokens;
    }
  }

  lemma {:induction false} SeenFlattenAll(ns: seq<Node>)
    ensures SeenTokens(FlattenAll(ns)) == FlattenAll(SeenNodes(ns))
    decreases ns, 0
  {
    if ns == [] {
    } else {
      SeenFlatten(ns[0]);
      SeenFlattenAll(ns[1..]);
      SeenTokensAppend(Flatten(ns[0]), FlattenAll(ns[1..]));
      hide SeenTokens, SeenNode, Flatten;
      assert ([SeenNode(ns[0])] + SeenNodes(ns[1..]))[1..] == SeenNodes(ns[1..]);
    }
  }

  /** Reading a legal document through a full processor is reading the changed tree. */
  lemma ReadFullyIsReadSeen(es: seq<Entry>)
    ensures ReadFully(U.Document(es)) ==
            if Safe(IllegalCharacter, FlattenAll([U.Tree(es)])) then ReadRoot([SeenNode(U.Tree(es))]) else None
  {
    ProcessDocument(es);
    SeenFlattenAll([U.Tree(es)]);
    NestFlattened(SeenNodes([U.Tree(es)]));
    DeclarationFirst(es);
    hide U.Document, U.Tree, Process, FlattenAll, ReadRoot, Nest, SeenNode, Safe;
    assert [U.Tree(es)][1..] == [];
    assert SeenNodes([U.Tree(es)]) == [SeenNode(U.Tree(es))];
  }

  lemma DeclarationFirst(es: seq<Entry>)
    ensures U.DECLARATION <= U.Document(es)
  {
    U.DocumentIsPrintedTree(es);
    hide U.Document, PrintNodes;
  }

  // ---------------------------------------------------------------- what the reader makes of changed nodes

  lemma {:induction false} SeenNodesAt(ns: seq<Node>)
    ensures |SeenNodes(ns)| == |ns| && forall i | 0 <= i < |ns| :: SeenNodes(ns)[i] == SeenNode(ns[i])
  {
    hide SeenNode;
    if ns == [] {
    } else {
      SeenNodesAt(ns[1..]);
    }
  }

  lemma SeenNodesCons(n: Node, ns: seq<Node>)
    ensures SeenNodes([n] + ns) == [SeenNode(n)] + SeenNodes(ns)
  {
    hide SeenNode;
    assert ([n] + ns)[1..] == ns;
  }

  lemma {:induction false} SeenElements(ns: seq<Node>)
    ensures Elements(SeenNodes(ns)) == SeenNodes(Elements(ns))
  {
    if ns == [] {
    } else {
      var n, rest := ns[0], ns[1..];
      SeenElements(rest);
      assert SeenNode(n).TextNode? <==> n.TextNode?;
      hide SeenNode;
      assert ([SeenNode(n)] + SeenNodes(rest))[1..] == SeenNodes(rest);
      SeenNodesCons(n, Elements(rest));
    }
  }

  lemma SeenContainer(indent: string, tag: string, attrs: seq<Attr>, kids: seq<Node>)
    requires AllElements(kids)
    ensures var n := SeenNode(U.Container(indent, tag, attrs, kids));
            n.Element? && n.attrs == SeenAttrs(attrs) && ElementsOf(n, tag) == Some(SeenNodes(kids))
  {
    SeenElements(U.Layout(indent, kids));
    ElementsOfLayout(indent, kids);
    hide Elements, SeenNodes, U.Layout, SeenAttrs;
  }

  lemma SeenLeaf(tag: string, attrs: seq<Attr>, text: string)
    ensures TextOf(SeenNode(U.Leaf(tag, attrs, text)), tag) == Some(LineEnds(text))
  {
    if text != "" {
      SeenNodesAt([TextNode(text)]);
      hide LineEnds, SeenAttrs;
      assert SeenNodes([TextNode(text)])[0] == TextNode(LineEnds(text));
    }
  }

  lemma {:induction false} SeenAttr(attrs: seq<Attr>, name: string)
    ensures AttrOf(SeenAttrs(attrs), name) ==
            match AttrOf(attrs, name) case None => None case Some(value) => Some(Seen(value))
  {
    if attrs == [] {
    } else {
      var a, rest := attrs[0], attrs[1..];
      SeenAttr(rest, name);
      assert LineEndAttrs(attrs)[1..] == LineEndAttrs(rest);
      assert SeenAttrs(attrs) == [Attr(a.name, Seen(a.value))] + SeenAttrs(rest);
      AttrOfHead(Attr(a.name, Seen(a.value)), SeenAttrs(rest), name);
      AttrOfHead(a, rest, name);
    }
  }

  // ---------------------------------------------------------------- original values need sturdy fields

  lemma CveComesBack(cve: string)
    ensures ReadCve(SeenNode(U.CveNode(cve))).Some? ==> ReadCve(SeenNode(U.CveNode(cve))).value == Seen(cve)
  {
    var attrs := U.CveNode(cve).attrs;
    AttrOfFour(attrs[0], attrs[1], attrs[2], attrs[3], "id");
    SeenAttr(attrs, "id");
    hide SeenAttrs, AttrOf, Seen;
  }

  lemma {:induction false} CvesComeBack(cves: seq<string>)
    requires ReadCves(SeenNodes(U.CveNodes(cves))) == Some(cves)
    ensures forall i | 0 <= i < |cves| :: ValueSafe(WhiteSpace, cves[i])
  {
    if cves == [] {
    } else {
      var n, rest := U.CveNode(cves[0]), U.CveNodes(cves[1..]);
      CveComesBack(cves[0]);
      ValueSurvives(cves[0]);
      hide ReadCve, SeenNode, U.CveNode, ValueSafe;
      SeenNodesCons(n, rest);
      assert ([SeenNode(n)] + SeenNodes(rest))[1..] == SeenNodes(rest);
      var first, others := ReadCve(SeenNode(n)).value, ReadCves(SeenNodes(rest)).value;
      assert cves == [first] + others;
      assert cves[1..] == others;
      CvesComeBack(cves[1..]);
    }
  }

  lemma PackageComesBack(p: Nevra, x: Asset)
    requires Split(x.nevra) == Some(p)
    requires ReadPackage(SeenNode(U.PackageNode(p, x))) == Some(Package(p, x.name, x.sha256))
    ensures SafeAsset(WhiteSpace, x)
  {
    var f, s := U.Leaf("filename", [], x.name), U.Leaf("sum", [Attr("type", "sha256")], x.sha256);
    SplitThenPrint(x.nevra);
    SafePrint(WhiteSpace, p);
    hide Split, ValueSafe, Print, LineEnds;
    LineEndsLaw(x.name);
    LineEndsLaw(x.sha256);
    PackageValues(p);
    SeenContainer("        ", "package", U.PackageAttrs(p), [f, s]);
    SeenLeaf("filename", [], x.name);
    SeenLeaf("sum", [Attr("type", "sha256")], x.sha256);
    SeenNodesAt([f, s]);
    hide SeenNode, SeenNodes, SeenAttrs, AttrOf, TextOf, ElementsOf, U.Leaf, U.Container, U.PackageAttrs;
  }

  /** The attributes of a package, as they arrive; each is the original exactly if it has no blanks. */
  lemma PackageValues(p: Nevra)
    ensures AttrOf(SeenAttrs(U.PackageAttrs(p)), "name") == Some(p.name) ==> ValueSafe(WhiteSpace, p.name)
    ensures AttrOf(SeenAttrs(U.PackageAttrs(p)), "version") == Some(p.version) ==> ValueSafe(WhiteSpace, p.version)
    ensures AttrOf(SeenAttrs(U.PackageAttrs(p)), "release") == Some(p.release) ==> ValueSafe(WhiteSpace, p.release)
    ensures AttrOf(SeenAttrs(U.PackageAttrs(p)), "arch") == Some(p.arch) ==> ValueSafe(WhiteSpace, p.arch)
  {
    var attrs := U.PackageAttrs(p);
    AttrOfPackage(p);
    SeenAttr(attrs, "name");
    SeenAttr(attrs, "version");
    SeenAttr(attrs, "release");
    SeenAttr(attrs, "arch");
    ValueSurvives(p.name);
    ValueSurvives(p.version);
    ValueSurvives(p.release);
    ValueSurvives(p.arch);
    hide AttrOf, SeenAttrs, ValueSafe, Blanks, LineEnds, U.PackageAttrs;
  }

  lemma {:induction false} PackagesComeBack(xs: seq<Asset>)
    requires ReadPackages(SeenNodes(U.PackageNodes(xs))) == Some(PackagesOf(xs))
    ensures forall i | 0 <= i < |xs| :: SafeAsset(WhiteSpace, xs[i])
  {
    if xs == [] {
    } else {
      var x, rest := xs[0], U.PackageNodes(xs[1..]);
      match Split(x.nevra) {
        case Some(p) =>
          var n := U.PackageNode(p, x);
          assert U.PackageNodes(xs) == [n] + rest;
          SeenNodesCons(n, rest);
          hide ReadPackage, SeenNode, U.PackageNode, Split;
          assert ([SeenNode(n)] + SeenNodes(rest))[1..] == SeenNodes(rest);
          var first, others := ReadPackage(SeenNode(n)).value, ReadPackages(SeenNodes(rest)).value;
          assert PackagesOf(xs) == [Package(p, x.name, x.sha256)] + PackagesOf(xs[1..]);
          assert first == PackagesOf(xs)[0] && others == PackagesOf(xs)[1..];
          assert PackagesOf(xs)[1..] == PackagesOf(xs[1..]);
          PackageComesBack(p, x);
        case None =>
          assert U.PackageNodes(xs) == rest;
          assert PackagesOf(xs) == PackagesOf(xs[1..]);
      }
      PackagesComeBack(xs[1..]);
      hide SafeAsset;
      assert forall i | 0 < i < |xs| :: xs[i] == xs[1..][i - 1];
    }
  }

  lemma CollectionComesBack(e: Entry)
    requires ReadCollection(SeenNode(U.CollectionNode(e))) == Some((e.tag, PackagesOf(e.assets)))
    ensures ValueSafe(WhiteSpace, e.tag) && forall i | 0 <= i < |e.assets| :: SafeAsset(WhiteSpace, e.assets[i])
  {
    var name, packages := U.Leaf("name", [], e.tag), U.PackageNodes(e.assets);
    ReadPackageNodes(e.assets);
    SeenContainer("      ", "collection", [Attr("short", e.tag)], [name] + packages);
    SeenLeaf("name", [], e.tag);
    SeenNodesCons(name, packages);
    assert ([SeenNode(name)] + SeenNodes(packages))[1..] == SeenNodes(packages);
    assert AttrOf([Attr("short", e.tag)], "short") == Some(e.tag);
    SeenAttr([Attr("short", e.tag)], "short");
    ValueSurvives(e.tag);
    hide SeenNode, SeenNodes, SeenAttrs, AttrOf, TextOf, ElementsOf, ReadPackages, PackagesOf, ValueSafe, SafeAsset,
        U.Leaf, U.Container, U.PackageNodes;
    assert ReadPackages(SeenNodes(packages)) == Some(PackagesOf(e.assets));
    PackagesComeBack(e.assets);
  }

  lemma DateArrives(date: string)
    ensures var n := SeenNode(EmptyElement("issued", [Attr("date", date)]));
            n.EmptyElement? && AttrOf(n.attrs, "date") == Some(Seen(date))
  {
    var attrs := [Attr("date", date)];
    assert AttrOf(attrs, "date") == Some(date);
    SeenAttr(attrs, "date");
    hide SeenAttrs, AttrOf, Seen;
  }

  /** The texts of an advisory, as they arrive. */
  lemma TextsArrive(e: Entry, a: Advisory)
    ensures var ks := U.UpdateKids(e, a);
            && TextOf(SeenNode(ks[0]), "id") == Some(LineEnds(a.id))
            && TextOf(SeenNode(ks[1]), "title") == Some(LineEnds(a.summary))
            && TextOf(SeenNode(ks[2]), "severity") == Some(LineEnds(a.severity.GetOr("None")))
            && SeenNode(ks[3]).EmptyElement?
            && AttrOf(SeenNode(ks[3]).attrs, "date") == Some(Seen(U.IssuedDate(a.issued)))
  {
    hide SeenNode, SeenAttrs, Seen, TextOf, AttrOf, LineEnds, U.Leaf, U.Container, U.CveNodes, U.CollectionNode,
        U.IssuedDate;
    SeenLeaf("id", [], a.id);
    SeenLeaf("title", [], a.summary);
    SeenLeaf("severity", [], a.severity.GetOr("None"));
    DateArrives(U.IssuedDate(a.issued));
  }

  /** The lists of an advisory, as they arrive. */
  lemma ListsArrive(e: Entry, a: Advisory)
    ensures var ks := U.UpdateKids(e, a);
            && ElementsOf(SeenNode(ks[5]), "references") == Some(SeenNodes(U.CveNodes(a.cves.GetOr([]))))
            && ElementsOf(SeenNode(ks[6]), "pkglist") == Some([SeenNode(U.CollectionNode(e))])
  {
    ReadCveNodes(a.cves.GetOr([]));
    assert AllElements([U.CollectionNode(e)]);
    hide SeenNode, ElementsOf, ReadCves, U.Leaf, U.CveNodes, U.CollectionNode, U.IssuedDate;
    SeenContainer("    ", "references", [], U.CveNodes(a.cves.GetOr([])));
    SeenContainer("    ", "pkglist", [], [U.CollectionNode(e)]);
    SeenNodesCons(U.CollectionNode(e), []);
    assert [U.CollectionNode(e)] + [] == [U.CollectionNode(e)];
    assert [SeenNode(U.CollectionNode(e))] + SeenNodes([]) == [SeenNode(U.CollectionNode(e))];
    hide U.Container;
  }

  lemma KidsAreElements(e: Entry, a: Advisory)
    ensures |U.UpdateKids(e, a)| == 7 && AllElements(U.UpdateKids(e, a))
  {
    hide U.CveNodes, U.CollectionNode, U.IssuedDate, U.Layout;
  }

  lemma TagArrives(e: Entry, a: Advisory)
    ensures var n := SeenNode(U.UpdateNode(e, a));
            && n.Element?
            && ElementsOf(n, "update") == Some(SeenNodes(U.UpdateKids(e, a)))
            && AttrOf(n.attrs, "type") == Some(Seen(a.kind))
  {
    var attrs := U.UpdateAttrs(a);
    ReadUpdateTag(e, a);
    KidsAreElements(e, a);
    hide SeenNode, SeenAttrs, AttrOf, ElementsOf, AllElements, U.UpdateKids, U.UpdateAttrs;
    assert U.UpdateNode(e, a).attrs == attrs;
    SeenAttr(attrs, "type");
    hide Seen;
    SeenContainer("  ", "update", attrs, U.UpdateKids(e, a));
  }

  /** Reading a changed advisory, step by step: what was found if the reading succeeded. */
  lemma StepsOfReading(n: Node, kids: seq<Node>)
    requires ReadUpdate(n).Some? && ElementsOf(n, "update") == Some(kids)
    ensures var u := ReadUpdate(n).value;
            && |kids| == 7 && kids[3].EmptyElement?
            && AttrOf(n.attrs, "type") == Some(u.kind)
            && TextOf(kids[0], "id") == Some(u.id)
            && TextOf(kids[1], "title") == Some(u.title)
            && TextOf(kids[2], "severity") == Some(u.severity)
            && AttrOf(kids[3].attrs, "date") == Some(u.issued)
    ensures var u := ReadUpdate(n).value;
            var refs, collections := ElementsOf(kids[5], "references"), ElementsOf(kids[6], "pkglist");
            && refs.Some? && ReadCves(refs.value) == Some(u.cves)
            && collections.Some? && |collections.value| == 1
            && ReadCollection(collections.value[0]) == Some((u.tag, u.packages))
  {
    hide AttrOf, TextOf, ElementsOf, ReadCves, ReadCollection;
    var collections := ElementsOf(kids[6], "pkglist").value;
    var found := ReadCollection(collections[0]).value;
    assert found == (found.0, found.1);
  }

  /** What reading a changed advisory found, if it is the original. */
  lemma FieldsComeBack(e: Entry, a: Advisory)
    requires ReadUpdate(SeenNode(U.UpdateNode(e, a))) == Some(UpdateOf(e, a))
    ensures Seen(a.kind) == a.kind && LineEnds(a.id) == a.id && LineEnds(a.summary) == a.summary
    ensures LineEnds(a.severity.GetOr("None")) == a.severity.GetOr("None")
    ensures Seen(U.IssuedDate(a.issued)) == U.IssuedDate(a.issued)
    ensures ReadCves(SeenNodes(U.CveNodes(a.cves.GetOr([])))) == Some(a.cves.GetOr([]))
    ensures ReadCollection(SeenNode(U.CollectionNode(e))) == Some((e.tag, PackagesOf(e.assets)))
  {
    hide ReadUpdate, SeenNode, SeenNodes, Seen, LineEnds, AttrOf, ElementsOf, TextOf, ReadCves, ReadCollection,
        PackagesOf, U.CollectionNode, U.CveNodes, U.IssuedDate, U.UpdateKids, U.UpdateNode;
    var n, ks := SeenNode(U.UpdateNode(e, a)), U.UpdateKids(e, a);
    TagArrives(e, a);
    StepsOfReading(n, SeenNodes(ks));
    SeenNodesAt(ks);
    TextsArrive(e, a);
    ListsArrive(e, a);
  }

  lemma UpdateComesBack(e: Entry, a: Advisory)
    requires ReadUpdate(SeenNode(U.UpdateNode(e, a))) == Some(UpdateOf(e, a))
    ensures ValueSafe(WhiteSpace, e.tag) && SafeAdvisory(WhiteSpace, a)
    ensures forall i | 0 <= i < |e.assets| :: SafeAsset(WhiteSpace, e.assets[i])
  {
    FieldsComeBack(e, a);
    hide ReadUpdate, UpdateOf, U.UpdateNode, SeenNode, SeenNodes, ValueSafe, SafeAsset;
    CvesComeBack(a.cves.GetOr([]));
    CollectionComesBack(e);
    ValueSurvives(a.kind);
    ValueSurvives(U.IssuedDate(a.issued));
    SafeIssued(WhiteSpace, a.issued);
    LineEndsLaw(a.id);
    LineEndsLaw(a.summary);
    LineEndsLaw(a.severity.GetOr("None"));
  }

  lemma {:induction false} UpdatesComeBack(es: seq<Entry>)
    requires ReadUpdates(SeenNodes(U.UpdateNodes(es))) == Some(UpdatesOf(es))
    ensures forall i | 0 <= i < |es| :: SafeEntry(WhiteSpace, es[i])
  {
    if es == [] {
    } else {
      var rest := U.UpdateNodes(es[1..]);
      if U.Announced(es[0]) {
        var a := es[0].advisory.value;
        var n := U.UpdateNode(es[0], a);
        assert U.UpdateNodes(es) == [n] + rest;
        SeenNodesCons(n, rest);
        hide ReadUpdate, SeenNode, U.UpdateNode, UpdateOf;
        assert ([SeenNode(n)] + SeenNodes(rest))[1..] == SeenNodes(rest);
        assert UpdatesOf(es) == [UpdateOf(es[0], a)] + UpdatesOf(es[1..]);
        var first, others := ReadUpdate(SeenNode(n)).value, ReadUpdates(SeenNodes(rest)).value;
        assert first == UpdatesOf(es)[0] && others == UpdatesOf(es)[1..];
        assert UpdatesOf(es)[1..] == UpdatesOf(es[1..]);
        UpdateComesBack(es[0], a);
      } else {
        assert U.UpdateNodes(es) == rest;
        assert UpdatesOf(es) == UpdatesOf(es[1..]);
      }
      UpdatesComeBack(es[1..]);
      hide SafeAdvisory, SafeAsset, ValueSafe;
      assert forall i | 0 < i < |es| :: es[i] == es[1..][i - 1];
    }
  }

  lemma RootOf(n: Node, kids: seq<Node>)
    requires ElementsOf(n, "updates") == Some(kids)
    ensures ReadRoot([n]) == ReadUpdates(kids)
  {
    hide ElementsOf, ReadUpdates;
    assert [n][0] == n;
  }

  lemma TreeComesBack(es: seq<Entry>)
    requires ReadRoot([SeenNode(U.Tree(es))]) == Some(UpdatesOf(es))
    ensures forall i | 0 <= i < |es| :: SafeEntry(WhiteSpace, es[i])
  {
    ReadUpdateNodes(es);
    hide SeenNode, SeenNodes, ElementsOf, ReadUpdates, ReadRoot, UpdatesOf, U.UpdateNodes, U.Container, SafeEntry;
    SeenContainer("", "updates", [], U.UpdateNodes(es));
    RootOf(SeenNode(U.Tree(es)), SeenNodes(U.UpdateNodes(es)));
    UpdatesComeBack(es);
  }

  lemma SafeRecordArrives(es: seq<Entry>)
    requires SafeRecord(es)
    ensures ReadFully(U.Document(es)) == Some(UpdatesOf(es))
  {
    FullProcessorSeesTheDocument(es);
    NestFlattened([U.Tree(es)]);
    ReadTree(es);
    DeclarationFirst(es);
    hide SafeRecord, U.Document, U.Tree, UpdatesOf, ReadRoot, Process, Nest, FlattenAll;
  }

  /** Through a full processor a reader gets the original advisories if and only if, in the entries the
      document shows, all fields have legal characters only, the fields that become attribute values have no
      line break and no tab, and those that become character data have no carriage return. */
  lemma OriginalValuesIffSafe(es: seq<Entry>)
    ensures ReadFully(U.Document(es)) == Some(UpdatesOf(es)) <==> SafeRecord(es)
  {
    if SafeRecord(es) {
      SafeRecordArrives(es);
    } else if ReadFully(U.Document(es)) == Some(UpdatesOf(es)) {
      ReadFullyIsReadSeen(es);
      SafeDocument(IllegalCharacter, es);
      hide ReadFully, U.Document, U.Tree, Safe, SafeEntry, UpdatesOf, SeenNode, ReadRoot;
      TreeComesBack(es);
    }
  }

  /** One illegal character in one field that the document shows, and no advisory of any entry arrives. */
  lemma IllegalCharacterLosesAll(es: seq<Entry>, i: nat)
    requires i < |es| && !SafeEntry(IllegalCharacter, es[i])
    ensures ReadFully(U.Document(es)) == None
  {
    ReadFullyIsReadSeen(es);
    SafeDocument(IllegalCharacter, es);
    hide ReadFully, U.Document, U.Tree, Safe, SafeEntry, SeenNode, ReadRoot;
  }

  // ---------------------------------------------------------------- records that do not arrive

  function EntryWithTitle(title: string): Entry {
    Entry("v2", "stable", None, Some(Advisory("security", "A-1", title, None, "", None)), [])
  }

  /** A record whose title does not reach the readers as it is. */
  lemma CarriageReturnIsLost()
    ensures var es := [EntryWithTitle("a\rb")]; ReadFully(U.Document(es)) != Some(UpdatesOf(es))
  {
    var e := EntryWithTitle("a\rb");
    assert e.advisory.value.summary[1] == '\r';
    assert !SafeEntry(WhiteSpace, e);
    OriginalValuesIffSafe([e]);
    hide SafeEntry, U.Document, UpdatesOf, ReadFully;
    assert [e][0] == e;
  }

  /** A record with a control character in a title: the readers get no advisory at all, also not of the other
      entry. */
  lemma ControlCharacterLosesAll()
    ensures ReadFully(U.Document([EntryWithTitle("fine"), EntryWithTitle("a\U{0001}b")])) == None
  {
    var e, f := EntryWithTitle("fine"), EntryWithTitle("a\U{0001}b");
    assert !LegalChar(f.advisory.value.summary[1]);
    assert !SafeEntry(IllegalCharacter, f);
    assert [e, f][1] == f;
    hide SafeEntry, U.Document, ReadFully;
    IllegalCharacterLosesAll([e, f], 1);
  }
}
