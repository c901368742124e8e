/** Which records reach the readers of the advisories unchanged: the conditions of module XmlProcessor on the
    tokens of the document, said of the fields of the record.  The same induction serves both hazards. */
module SafeRecords {
  import opened Basics
  import opened Strings
  import opened PackageName
  import opened Xml
  import opened Record
  import opened XmlProcessor
  import U = UpdateInfo
  import R = AdvisoryReader

  predicate SafeNode(h: Hazard, n: Node) {
    match n
    case TextNode(text) => TextSafe(h, text)
    case EmptyElement(_, attrs) => SafeAttrs(h, attrs)
    case Element(_, attrs, children) =>
      SafeAttrs(h, attrs) && forall i | 0 <= i < |children| :: SafeNode(h, children[i])
  }

  predicate SafeNodes(h: Hazard, ns: seq<Node>) {
    forall i | 0 <= i < |ns| :: SafeNode(h, ns[i])
  }

  lemma SafeAppend(h: Hazard, a: seq<Token>, b: seq<Token>)
    ensures Safe(h, a + b) <==> Safe(h, a) && Safe(h, b)
  {
    hide SafeToken;
    assert forall i | 0 <= i < |a| :: (a + b)[i] == a[i];
    assert forall i | 0 <= i < |b| :: (a + b)[|a| + i] == b[i];
  }

  lemma SafeOne(h: Hazard, t: Token)
    ensures Safe(h, [t]) <==> SafeToken(h, t)
  {
    hide SafeToken;
    assert [t][0] == t;
  }

  lemma {:induction false} SafeFlatten(h: Hazard, n: Node)
    ensures Safe(h, Flatten(n)) <==> SafeNode(h, n)
    decreases n, 1
  {
    match n {
      case TextNode(text) => SafeOne(h, Chars(text));
      case EmptyElement(tag, attrs) => SafeOne(h, Single(tag, attrs));
      case Element(tag, attrs, children) =>
        SafeFlattenAll(h, children);
        SafeOne(h, Open(tag, attrs));
        SafeOne(h, Close(tag));
        SafeAppend(h, [Open(tag, attrs)], FlattenAll(children));
        SafeAppend(h, [Open(tag, attrs)] + FlattenAll(children), [Close(tag)]);
        hide Safe;
    }
  }

  lemma {:induction false} SafeFlattenAll(h: Hazard, ns: seq<Node>)
    ensures Safe(h, FlattenAll(ns)) <==> SafeNodes(h, ns)
    decreases ns, 0
  {
    if ns == [] {
    } else {
      SafeFlatten(h, ns[0]);
      SafeFlattenAll(h, ns[1..]);
      SafeAppend(h, Flatten(ns[0]), FlattenAll(ns[1..]));
      hide Safe, Flatten, SafeNode;
      SafeHead(h, ns[0], ns[1..]);
      assert ns == [ns[0]] + ns[1..];
    }
  }

  lemma SafeHead(h: Hazard, n: Node, ns: seq<Node>)
    ensures SafeNodes(h, [n] + ns) <==> SafeNode(h, n) && SafeNodes(h, ns)
  {
    hide SafeNode;
    assert ([n] + ns)[0] == n;
    assert forall i | 0 <= i < |ns| :: ([n] + ns)[i + 1] == ns[i];
  }

  lemma TextAppend(h: Hazard, a: string, b: string)
    ensures TextSafe(h, a + b) <==> TextSafe(h, a) && TextSafe(h, b)
    ensures TextSafe(h, "  ") && TextSafe(h, "\n") && TextSafe(h, " (fixed in ") && TextSafe(h, ")")
  {
    LegalAppend(a, b);
  }

  lemma LineBreak(h: Hazard, indent: string)
    requires TextSafe(h, indent)
    ensures SafeNode(h, TextNode("\n" + indent))
  {
    TextAppend(h, "\n", indent);
  }

  /** The white space between elements is no obstacle. */
  lemma {:induction false} SafeLayout(h: Hazard, indent: string, kids: seq<Node>)
    requires TextSafe(h, indent)
    ensures SafeNodes(h, U.Layout(indent, kids)) <==> SafeNodes(h, kids)
    decreases |kids|
  {
    if kids == [] {
      LineBreak(h, indent);
    } else {
      var white, rest := TextNode("\n" + indent + "  "), U.Layout(indent, kids[1..]);
      LineBreak(h, indent + "  ");
      TextAppend(h, indent, "  ");
      assert "\n" + indent + "  " == "\n" + (indent + "  ");
      SafeLayout(h, indent, kids[1..]);
      hide SafeNode, U.Layout;
      SafeHead(h, kids[0], rest);
      SafeHead(h, white, [kids[0]] + rest);
      SafeHead(h, kids[0], kids[1..]);
      assert [white, kids[0]] + rest == [white] + ([kids[0]] + rest);
      assert kids == [kids[0]] + kids[1..];
    }
  }

  lemma SafeContainer(h: Hazard, indent: string, tag: string, attrs: seq<Attr>, kids: seq<Node>)
    requires TextSafe(h, indent)
    ensures SafeNode(h, U.Container(indent, tag, attrs, kids)) <==> SafeAttrs(h, attrs) && SafeNodes(h, kids)
  {
    SafeLayout(h, indent, kids);
    assert SafeNode(h, U.Container(indent, tag, attrs, kids)) <==>
        SafeAttrs(h, attrs) && SafeNodes(h, U.Layout(indent, kids));
  }

  lemma SafeLeaf(h: Hazard, tag: string, attrs: seq<Attr>, text: string)
    ensures SafeNode(h, U.Leaf(tag, attrs, text)) <==> SafeAttrs(h, attrs) && TextSafe(h, text)
  {
    if text != "" {
      assert SafeNode(h, TextNode(text)) <==> TextSafe(h, text);
      assert U.Leaf(tag, attrs, text).children[0] == TextNode(text);
    }
  }

  /** An asset that appears in the document; its NEVRA ends up in attributes, its name and digest in texts. */
  predicate SafeAsset(h: Hazard, x: Asset) {
    Split(x.nevra).Some? ==> ValueSafe(h, x.nevra) && TextSafe(h, x.name) && TextSafe(h, x.sha256)
  }

  predicate SafeAdvisory(h: Hazard, a: Advisory) {
    && ValueSafe(h, a.kind)
    && ValueSafe(h, a.issued)
    && TextSafe(h, a.id)
    && TextSafe(h, a.summary)
    && TextSafe(h, a.severity.GetOr("None"))
    && forall i | 0 <= i < |a.cves.GetOr([])| :: ValueSafe(h, a.cves.GetOr([])[i])
  }

  predicate SafeEntry(h: Hazard, e: Entry) {
    e.status == "stable" && e.advisory.Some? ==>
      && ValueSafe(h, e.tag)
      && SafeAdvisory(h, e.advisory.value)
      && forall i | 0 <= i < |e.assets| :: SafeAsset(h, e.assets[i])
  }

  lemma SafePrint(h: Hazard, p: Nevra)
    ensures ValueSafe(h, Print(p)) <==>
            ValueSafe(h, p.name) && ValueSafe(h, p.version) && ValueSafe(h, p.release) && ValueSafe(h, p.arch)
  {
    ValueAppend(h, p.name + "-" + p.version + "-" + p.release + ".", p.arch);
    ValueAppend(h, p.name + "-" + p.version + "-" + p.release, ".");
    ValueAppend(h, p.name + "-" + p.version + "-", p.release);
    ValueAppend(h, p.name + "-" + p.version, "-");
    ValueAppend(h, p.name + "-", p.version);
    ValueAppend(h, p.name, "-");
  }

  lemma ValueAppend(h: Hazard, a: string, b: string)
    ensures ValueSafe(h, a + b) <==> ValueSafe(h, a) && ValueSafe(h, b)
  {
    LegalAppend(a, b);
  }

  lemma SafeIssued(h: Hazard, s: string)
    ensures ValueSafe(h, U.IssuedDate(s)) <==> ValueSafe(h, s)
  {
    SafeSubT(h, s);
    SafeSubZ(h, U.SubT(s));
  }

  lemma SafeSubT(h: Hazard, s: string)
    ensures ValueSafe(h, U.SubT(s)) <==> ValueSafe(h, s)
  {
    var i := IndexOf(s, 'T');
    if i < |s| {
      assert s == s[..i] + ("T" + s[i + 1..]);
      ValueAppend(h, s[..i], "T" + s[i + 1..]);
      ValueAppend(h, "T", s[i + 1..]);
      ValueAppend(h, s[..i], " ");
      ValueAppend(h, s[..i] + " ", s[i + 1..]);
    }
  }

  lemma SafeSubZ(h: Hazard, s: string)
    ensures ValueSafe(h, U.SubZ(s)) <==> ValueSafe(h, s)
  {
    var n := |s|;
    if n >= 1 && s[n - 1] == 'Z' {
      SafeZ(h);
      hide ValueSafe;
      assert s == s[..n - 1] + "Z";
      ValueAppend(h, s[..n - 1], "Z");
    } else if n >= 2 && s[n - 1] == '\n' && s[n - 2] == 'Z' {
      SafeZ(h);
      hide ValueSafe;
      assert s == s[..n - 2] + ("Z" + "\n");
      ValueAppend(h, s[..n - 2], "Z" + "\n");
      ValueAppend(h, "Z", "\n");
      ValueAppend(h, s[..n - 2], "\n");
    }
  }

  lemma SafeZ(h: Hazard)
    ensures ValueSafe(h, "Z")
  {
  }

  lemma SafePackage(h: Hazard, p: Nevra, x: Asset)
    requires Split(x.nevra) == Some(p)
    ensures SafeNode(h, U.PackageNode(p, x)) <==> SafeAsset(h, x)
  {
    SplitThenPrint(x.nevra);
    SafePrint(h, p);
    hide Split, ValueSafe, Print;
    var f, s := U.Leaf("filename", [], x.name), U.Leaf("sum", [Attr("type", "sha256")], x.sha256);
    SafeLeaf(h, "filename", [], x.name);
    SafeLeaf(h, "sum", [Attr("type", "sha256")], x.sha256);
    SafeConstants(h);
    SafeContainer(h, "        ", "package", U.PackageAttrs(p), [f, s]);
    SafePackageAttrs(h, p);
    hide SafeNode, U.Leaf, U.PackageAttrs, SafeAttrs;
    assert SafeNodes(h, [f, s]) <==> SafeNode(h, f) && SafeNode(h, s) by {
      assert [f, s][0] == f && [f, s][1] == s;
    }
  }

  lemma SafeConstants(h: Hazard)
    ensures SafeAttrs(h, []) && SafeAttrs(h, [Attr("type", "sha256")])
    ensures ValueSafe(h, "0") && ValueSafe(h, "1") && ValueSafe(h, "cve") && ValueSafe(h, "xcp-hl")
            && ValueSafe(h, "stable")
  {
    assert ValueSafe(h, "sha256");
  }

  lemma SafePackageAttrs(h: Hazard, p: Nevra)
    ensures SafeAttrs(h, U.PackageAttrs(p)) <==>
            ValueSafe(h, p.name) && ValueSafe(h, p.version) && ValueSafe(h, p.release) && ValueSafe(h, p.arch)
  {
    SafeConstants(h);
    hide ValueSafe;
    var ps := U.PackageAttrs(p);
    assert ps[0].value == p.name && ps[1].value == p.version && ps[2].value == p.release;
    assert ps[3].value == "0" && ps[4].value == p.arch;
  }

  lemma {:induction false} SafePackages(h: Hazard, xs: seq<Asset>)
    ensures SafeNodes(h, U.PackageNodes(xs)) <==> forall i | 0 <= i < |xs| :: SafeAsset(h, xs[i])
  {
    if xs == [] {
    } else {
      SafePackages(h, xs[1..]);
      match Split(xs[0].nevra) {
        case Some(p) =>
          SafePackage(h, p, xs[0]);
          SafeHead(h, U.PackageNode(p, xs[0]), U.PackageNodes(xs[1..]));
        case None =>
          assert SafeAsset(h, xs[0]);
          assert [] + U.PackageNodes(xs[1..]) == U.PackageNodes(xs[1..]);
      }
      hide Split, SafeAsset, SafeNodes, U.PackageNode;
      assert forall i | 0 < i < |xs| :: xs[i] == xs[1..][i - 1];
    }
  }

  lemma SafeHost(h: Hazard)
    ensures ValueSafe(h, "https://nvd.nist")
  {
  }

  lemma SafePath(h: Hazard)
    ensures ValueSafe(h, ".gov/vuln/detail/")
  {
  }

  lemma SafePrefix(h: Hazard)
    ensures ValueSafe(h, U.NVD_PREFIX)
  {
    hide ValueSafe;
    SafeHost(h);
    SafePath(h);
    ValueAppend(h, "https://nvd.nist", ".gov/vuln/detail/");
    assert U.NVD_PREFIX == "https://nvd.nist" + ".gov/vuln/detail/";
  }

  lemma SafeCve(h: Hazard, cve: string)
    ensures SafeNode(h, U.CveNode(cve)) <==> ValueSafe(h, cve)
  {
    SafeConstants(h);
    SafePrefix(h);
    ValueAppend(h, U.NVD_PREFIX, cve);
    hide ValueSafe;
    var ps := U.CveNode(cve).attrs;
    assert ps[0].value == U.NVD_PREFIX + cve && ps[1].value == cve && ps[2].value == "cve" && ps[3].value == cve;
  }

  lemma {:induction false} SafeCves(h: Hazard, cves: seq<string>)
    ensures SafeNodes(h, U.CveNodes(cves)) <==> forall i | 0 <= i < |cves| :: ValueSafe(h, cves[i])
  {
    if cves == [] {
    } else {
      SafeCves(h, cves[1..]);
      SafeCve(h, cves[0]);
      SafeHead(h, U.CveNode(cves[0]), U.CveNodes(cves[1..]));
      hide ValueSafe, SafeNodes, U.CveNode;
      assert forall i | 0 < i < |cves| :: cves[i] == cves[1..][i - 1];
    }
  }

  lemma SafeCollection(h: Hazard, e: Entry)
    ensures SafeNode(h, U.CollectionNode(e)) <==>
            ValueSafe(h, e.tag) && forall i | 0 <= i < |e.assets| :: SafeAsset(h, e.assets[i])
  {
    var name := U.Leaf("name", [], e.tag);
    SafePackages(h, e.assets);
    SafeLeaf(h, "name", [], e.tag);
    SafeConstants(h);
    SafeHead(h, name, U.PackageNodes(e.assets));
    SafeContainer(h, "      ", "collection", [Attr("short", e.tag)], [name] + U.PackageNodes(e.assets));
    assert SafeAttrs(h, [Attr("short", e.tag)]) <==> ValueSafe(h, e.tag) by {
      assert [Attr("short", e.tag)][0].value == e.tag;
    }
    assert ValueSafe(h, e.tag) ==> TextSafe(h, e.tag);
    hide SafeNode, SafeNodes, SafeAttrs, ValueSafe, SafeAsset, U.Leaf, U.PackageNodes;
  }

  lemma SafeTexts(h: Hazard, e: Entry, a: Advisory)
    ensures var ks := U.UpdateKids(e, a);
            && (SafeNode(h, ks[0]) <==> TextSafe(h, a.id))
            && (SafeNode(h, ks[1]) <==> TextSafe(h, a.summary))
            && (SafeNode(h, ks[2]) <==> TextSafe(h, a.severity.GetOr("None")))
            && (SafeNode(h, ks[3]) <==> ValueSafe(h, a.issued))
            && (SafeNode(h, ks[4]) <==> TextSafe(h, a.summary) && TextSafe(h, e.tag))
  {
    SafeLeaf(h, "id", [], a.id);
    SafeLeaf(h, "title", [], a.summary);
    SafeLeaf(h, "severity", [], a.severity.GetOr("None"));
    SafeLeaf(h, "description", [], a.summary + " (fixed in " + e.tag + ")");
    SafeConstants(h);
    SafeIssued(h, a.issued);
    hide U.IssuedDate, U.Leaf, ValueSafe;
    var date := Attr("date", U.IssuedDate(a.issued));
    assert [date][0].value == date.value;
    assert SafeNode(h, EmptyElement("issued", [date])) <==> ValueSafe(h, date.value);
    SafeDescription(h, a.summary, e.tag);
  }

  lemma SafeDescription(h: Hazard, summary: string, tag: string)
    ensures TextSafe(h, summary + " (fixed in " + tag + ")") <==> TextSafe(h, summary) && TextSafe(h, tag)
  {
    TextAppend(h, summary + " (fixed in " + tag, ")");
    TextAppend(h, summary + " (fixed in ", tag);
    TextAppend(h, summary, " (fixed in ");
  }

  lemma SafeUpdate(h: Hazard, e: Entry, a: Advisory)
    ensures SafeNode(h, U.UpdateNode(e, a)) <==>
            ValueSafe(h, e.tag) && SafeAdvisory(h, a) && forall i | 0 <= i < |e.assets| :: SafeAsset(h, e.assets[i])
  {
    var ks := U.UpdateKids(e, a);
    SafeTexts(h, e, a);
    SafeLists(h, e, a);
    SafeUpdateAttrs(h, a);
    SafeContainer(h, "  ", "update", U.UpdateAttrs(a), ks);
    assert ValueSafe(h, e.tag) ==> TextSafe(h, e.tag);
    assert |ks| == 7;
    hide SafeNode, SafeNodes, SafeAttrs, ValueSafe, SafeAsset, U.UpdateKids, U.UpdateAttrs;
    SevenAreSafe(h, ks);
  }

  lemma SevenAreSafe(h: Hazard, ks: seq<Node>)
    requires |ks| == 7
    ensures SafeNodes(h, ks) <==>
              && SafeNode(h, ks[0]) && SafeNode(h, ks[1]) && SafeNode(h, ks[2]) && SafeNode(h, ks[3])
              && SafeNode(h, ks[4]) && SafeNode(h, ks[5]) && SafeNode(h, ks[6])
  {
    hide SafeNode;
  }

  lemma SafeLists(h: Hazard, e: Entry, a: Advisory)
    ensures var ks := U.UpdateKids(e, a);
            && (SafeNode(h, ks[5]) <==> forall i | 0 <= i < |a.cves.GetOr([])| :: ValueSafe(h, a.cves.GetOr([])[i]))
            && (SafeNode(h, ks[6]) <==>
                  ValueSafe(h, e.tag) && forall i | 0 <= i < |e.assets| :: SafeAsset(h, e.assets[i]))
  {
    SafeConstants(h);
    SafeCves(h, a.cves.GetOr([]));
    SafeContainer(h, "    ", "references", [], U.CveNodes(a.cves.GetOr([])));
    SafeCollection(h, e);
    SafeContainer(h, "    ", "pkglist", [], [U.CollectionNode(e)]);
    hide SafeNode, ValueSafe, SafeAsset, U.Leaf, U.Container, U.CveNodes, U.CollectionNode, U.IssuedDate;
    assert [U.CollectionNode(e)][0] == U.CollectionNode(e);
  }

  lemma SafeUpdateAttrs(h: Hazard, a: Advisory)
    ensures SafeAttrs(h, U.UpdateAttrs(a)) <==> ValueSafe(h, a.kind)
  {
    SafeConstants(h);
    hide ValueSafe;
    var ps := U.UpdateAttrs(a);
    assert ps[0].value == "xcp-hl" && ps[1].value == "stable" && ps[2].value == a.kind && ps[3].value == "1";
  }

  lemma {:induction false} SafeUpdates(h: Hazard, es: seq<Entry>)
    ensures SafeNodes(h, U.UpdateNodes(es)) <==> forall i | 0 <= i < |es| :: SafeEntry(h, es[i])
  {
    if es == [] {
    } else {
      SafeUpdates(h, es[1..]);
      if U.Announced(es[0]) {
        SafeUpdate(h, es[0], es[0].advisory.value);
        SafeHead(h, U.UpdateNode(es[0], es[0].advisory.value), U.UpdateNodes(es[1..]));
      } else {
        assert SafeEntry(h, es[0]);
        assert [] + U.UpdateNodes(es[1..]) == U.UpdateNodes(es[1..]);
      }
      assert SafeNodes(h, U.UpdateNodes(es)) <==> SafeEntry(h, es[0]) && SafeNodes(h, U.UpdateNodes(es[1..]));
      hide SafeEntry, SafeNodes, U.UpdateNodes;
      assert forall i | 0 < i < |es| :: es[i] == es[1..][i - 1];
    }
  }

  /** The tokens of the document are sturdy exactly if the fields of the record that it shows are. */
  lemma SafeDocument(h: Hazard, es: seq<Entry>)
    ensures Safe(h, FlattenAll([U.Tree(es)])) <==> forall i | 0 <= i < |es| :: SafeEntry(h, es[i])
  {
    SafeUpdates(h, es);
    SafeConstants(h);
    SafeContainer(h, "", "updates", [], U.UpdateNodes(es));
    SafeFlattenAll(h, [U.Tree(es)]);
    hide SafeEntry, SafeNode, U.UpdateNodes;
    assert [U.Tree(es)][0] == U.Tree(es);
  }

  // ---------------------------------------------------------------- the whole document

  /** All fields that the document shows arrive as they are. */
  predicate SafeRecord(es: seq<Entry>) {
    forall i | 0 <= i < |es| :: SafeEntry(WhiteSpace, es[i]) && SafeEntry(IllegalCharacter, es[i])
  }

  /** What a full processor reports for the document. */
  function Processed(es: seq<Entry>): Option<seq<Token>> {
    U.DocumentIsPrintedTree(es);
    Process(U.Document(es)[|U.DECLARATION|..])
  }

  lemma ProcessDocument(es: seq<Entry>)
    ensures var tokens := FlattenAll([U.Tree(es)]);
            Processed(es) == if Safe(IllegalCharacter, tokens) then Some(BlankTokens(LineEndTokens(tokens))) else None
  {
    U.DocumentIsPrintedTree(es);
    R.TreeIsGood(es);
    var tokens := FlattenAll([U.Tree(es)]);
    FlattenAllIsGood([U.Tree(es)]);
    hide Safe, Legal, U.Tree, U.Document, FlattenAll, PrintTokens, LineEndTokens, BlankTokens;
    assert U.Document(es)[|U.DECLARATION|..] == PrintTokens(tokens);
    LegalTokens(tokens);
    LineEndsOfTokens(tokens);
    TokenizePrinted(LineEndTokens(tokens));
  }

  /** A full processor refuses the whole document if and only if some field that it shows, of any entry, has
      an illegal character. */
  lemma RefusedIffIllegal(es: seq<Entry>)
    ensures Processed(es).None? <==> exists i :: 0 <= i < |es| && !SafeEntry(IllegalCharacter, es[i])
  {
    ProcessDocument(es);
    SafeDocument(IllegalCharacter, es);
    hide Processed, Safe, SafeEntry;
  }

  /** A full processor reports the document's own tokens if and only if, in the entries it shows, all fields
      have legal characters only, the fields that become attribute values have no line break and no tab,
      and those that become character data have no carriage return. */
  lemma FullProcessorSeesTheDocument(es: seq<Entry>)
    ensures Processed(es) == Some(FlattenAll([U.Tree(es)])) <==> SafeRecord(es)
  {
    ProcessDocument(es);
    SafeDocument(WhiteSpace, es);
    SafeDocument(IllegalCharacter, es);
    TokensSurvive(FlattenAll([U.Tree(es)]));
    hide Processed, Safe, SafeEntry, U.Tree, FlattenAll, BlankTokens, LineEndTokens;
  }
}
