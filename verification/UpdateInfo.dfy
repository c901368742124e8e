/** The advisory document: its text as the jq program puts it together, the tree it stands for, and what
    a reader gets back from it. */
module UpdateInfo {
  import opened Basics
  import opened Strings
  import opened Escape
  import opened PackageName
  import opened Record
  import opened Xml

  // ---------------------------------------------------------------- the program

  /** The first "T" becomes a space. */
  function SubT(s: string): string {
    var i := IndexOf(s, 'T');
    if i < |s| then s[..i] + " " + s[i + 1..] else s
  }

  /** A "Z" at the end, or just in front of a final newline, is removed. */
  function SubZ(s: string): string {
    var n := |s|;
    if n >= 1 && s[n - 1] == 'Z' then s[..n - 1]
    else if n >= 2 && s[n - 1] == '\n' && s[n - 2] == 'Z' then s[..n - 2] + "\n"
    else s
  }

  function IssuedDate(s: string): string {
    SubZ(SubT(s))
  }

  /** ` name="value"` */
  function Quoted(name: string, value: string): string {
    " " + name + "=\"" + value + "\""
  }

  /** `<tag>text</tag>` */
  function Wrapped(tag: string, text: string): string {
    "<" + tag + ">" + text + "</" + tag + ">"
  }

  const NVD_PREFIX := "https://nvd.nist.gov/vuln/detail/"

  function CveText(cve: string): string {
    "      <reference" + Quoted("href", NVD_PREFIX + Esc(cve)) + Quoted("id", Esc(cve)) + Quoted("type", "cve")
    + Quoted("title", Esc(cve)) + "/>\n"
  }

  function CveTexts(cves: seq<string>): seq<string> {
    if cves == [] then [] else [CveText(cves[0])] + CveTexts(cves[1..])
  }

  /** An asset whose NEVRA does not match the pattern produces nothing. */
  function PackageText(x: Asset): string {
    match Split(x.nevra)
    case None => ""
    case Some(p) =>
      "        <package" + Quoted("name", Esc(p.name)) + Quoted("version", Esc(p.version))
          + Quoted("release", Esc(p.release))
      + Quoted("epoch", "0") + Quoted("arch", Esc(p.arch)) + ">\n"
      + "          " + Wrapped("filename", Esc(x.name)) + "\n"
      + "          <sum" + Quoted("type", "sha256") + ">" + Esc(x.sha256) + "</sum>\n"
      + "        </package>\n"
  }

  function PackageTexts(xs: seq<Asset>): seq<string> {
    if xs == [] then [] else [PackageText(xs[0])] + PackageTexts(xs[1..])
  }

  function CollectionText(e: Entry): string {
    "      <collection" + Quoted("short", Esc(e.tag)) + ">\n"
    + ("        " + Wrapped("name", Esc(e.tag)) + "\n" + Concat(PackageTexts(e.assets)))
    + "      </collection>\n"
  }

  function UpdateText(e: Entry, a: Advisory): string {
    "  <update" + Quoted("from", "xcp-hl") + Quoted("status", "stable") + Quoted("type", Esc(a.kind))
        + Quoted("version", "1") + ">\n"
    + UpdateBody(e, a)
    + "  </update>\n"
  }

  function UpdateBody(e: Entry, a: Advisory): string {
    "    " + Wrapped("id", Esc(a.id)) + "\n"
    + ("    " + Wrapped("title", Esc(a.summary)) + "\n"
    + ("    " + Wrapped("severity", Esc(a.severity.GetOr("None"))) + "\n"
    + ("    <issued" + Quoted("date", Esc(IssuedDate(a.issued))) + "/>\n"
    + ("    " + Wrapped("description", Esc(a.summary) + " (fixed in " + Esc(e.tag) + ")") + "\n"
    + ("    <references>\n" + Concat(CveTexts(a.cves.GetOr([]))) + "    </references>\n"
    + ("    <pkglist>\n" + CollectionText(e) + "    </pkglist>\n"))))))
  }

  predicate Announced(e: Entry) {
    e.status == "stable" && e.advisory.Some?
  }

  function UpdateTexts(es: seq<Entry>): seq<string> {
    if es == [] then []
    else (if Announced(es[0]) then [UpdateText(es[0], es[0].advisory.value)] else []) + UpdateTexts(es[1..])
  }

  const DECLARATION := "<?xml version=\"1.0\" encoding=\"UTF-8\"?>\n"

  /** What the program prints for the entries of a record. */
  function Document(es: seq<Entry>): string {
    DECLARATION + ("<updates>\n" + Concat(UpdateTexts(es)) + "</updates>")
  }

  // ---------------------------------------------------------------- the tree

  function Leaf(tag: string, attrs: seq<Attr>, text: string): Node {
    Element(tag, attrs, if text == "" then [] else [TextNode(text)])
  }

  /** Child elements each on a line of its own, with the white space between them. */
  function Layout(indent: string, kids: seq<Node>): seq<Node> {
    if kids == [] then [TextNode("\n" + indent)]
    else [TextNode("\n" + indent + "  "), kids[0]] + Layout(indent, kids[1..])
  }

  function Container(indent: string, tag: string, attrs: seq<Attr>, kids: seq<Node>): Node {
    Element(tag, attrs, Layout(indent, kids))
  }

  function CveNode(cve: string): Node {
    EmptyElement("reference", [Attr("href", NVD_PREFIX + cve), Attr("id", cve), Attr("type", "cve"),
        Attr("title", cve)])
  }

  function CveNodes(cves: seq<string>): seq<Node> {
    if cves == [] then [] else [CveNode(cves[0])] + CveNodes(cves[1..])
  }

  function PackageAttrs(p: Nevra): seq<Attr> {
    [Attr("name", p.name), Attr("version", p.version), Attr("release", p.release), Attr("epoch", "0"),
        Attr("arch", p.arch)]
  }

  function PackageNode(p: Nevra, x: Asset): Node {
    Container("        ", "package", PackageAttrs(p),
      [Leaf("filename", [], x.name), Leaf("sum", [Attr("type", "sha256")], x.sha256)])
  }

  function PackageNodes(xs: seq<Asset>): seq<Node> {
    if xs == [] then []
    else
      (if Split(xs[0].nevra).Some? then [PackageNode(Split(xs[0].nevra).value, xs[0])] else [])
      + PackageNodes(xs[1..])
  }

  function CollectionNode(e: Entry): Node {
    Container("      ", "collection", [Attr("short", e.tag)], [Leaf("name", [], e.tag)] + PackageNodes(e.assets))
  }

  function UpdateKids(e: Entry, a: Advisory): seq<Node> {
    [ Leaf("id", [], a.id),
      Leaf("title", [], a.summary),
      Leaf("severity", [], a.severity.GetOr("None")),
      EmptyElement("issued", [Attr("date", IssuedDate(a.issued))]),
      Leaf("description", [], a.summary + " (fixed in " + e.tag + ")"),
      Container("    ", "references", [], CveNodes(a.cves.GetOr([]))),
      Container("    ", "pkglist", [], [CollectionNode(e)])]
  }

  function UpdateAttrs(a: Advisory): seq<Attr> {
    [Attr("from", "xcp-hl"), Attr("status", "stable"), Attr("type", a.kind), Attr("version", "1")]
  }

  function UpdateNode(e: Entry, a: Advisory): Node {
    Container("  ", "update", UpdateAttrs(a), UpdateKids(e, a))
  }

  function UpdateNodes(es: seq<Entry>): seq<Node> {
    if es == [] then []
    else (if Announced(es[0]) then [UpdateNode(es[0], es[0].advisory.value)] else []) + UpdateNodes(es[1..])
  }

  function Tree(es: seq<Entry>): Node {
    Container("", "updates", [], UpdateNodes(es))
  }

  // ---------------------------------------------------------------- the text is the printed tree

  lemma {:induction false} PrintTokensAppend(a: seq<Token>, b: seq<Token>)
    ensures PrintTokens(a + b) == PrintTokens(a) + PrintTokens(b)
  {
    hide PrintToken;
    if a == [] {
      assert a + b == b;
    } else {
      PrintTokensAppend(a[1..], b);
      assert (a + b)[1..] == a[1..] + b;
      Associative(PrintToken(a[0]), PrintTokens(a[1..]), PrintTokens(b));
    }
  }

  lemma PrintOne(t: Token)
    ensures PrintTokens([t]) == PrintToken(t)
  {
    assert [t][1..] == [];
    assert PrintTokens([t]) == PrintToken(t) + "";
  }

  function Tag(tag: string, attrs: seq<Attr>): string {
    "<" + (tag + PrintAttrs(attrs)) + ">"
  }

  function EndTag(tag: string): string {
    "<" + ("/" + tag) + ">"
  }

  lemma PrintElement(tag: string, attrs: seq<Attr>, children: seq<Node>)
    ensures PrintTokens(Flatten(Element(tag, attrs, children))) == Tag(tag, attrs) + PrintNodes(children) + EndTag(tag)
  {
    PrintOne(Open(tag, attrs));
    PrintOne(Close(tag));
    PrintTokensAppend([Open(tag, attrs)], FlattenAll(children));
    PrintTokensAppend([Open(tag, attrs)] + FlattenAll(children), [Close(tag)]);
  }

  lemma PrintNodesCons(n: Node, ns: seq<Node>)
    ensures PrintNodes([n] + ns) == PrintTokens(Flatten(n)) + PrintNodes(ns)
  {
    assert ([n] + ns)[1..] == ns;
    PrintTokensAppend(Flatten(n), FlattenAll(ns));
  }

  /** An element on a line of its own. */
  function Line(indent: string, n: Node): string {
    indent + PrintTokens(Flatten(n)) + "\n"
  }

  function Lines(indent: string, ns: seq<Node>): string {
    if ns == [] then "" else Line(indent, ns[0]) + Lines(indent, ns[1..])
  }

  /** Nothing in the string needs escaping. */
  predicate Plain(s: string) {
    '&' !in s && '<' !in s && '>' !in s && '"' !in s
  }

  lemma {:induction false} PlainText(s: string)
    requires Plain(s)
    ensures Esc(s) == s
  {
    EscIsFused(s);
    if s == "" {
    } else {
      PlainText(s[1..]);
      EscIsFused(s[1..]);
      assert Piece(s[0], ESCAPE_ORDER) == [s[0]];
      assert s == [s[0]] + s[1..];
    }
  }

  lemma ShiftBreak(indent: string, deeper: string, k: string, ls: string)
    ensures ("\n" + deeper) + (k + ("\n" + ls + indent)) == "\n" + ((deeper + k + "\n") + ls) + indent
  {
  }

  /** The line breaks that stand in front of the children stand behind them just as well. */
  lemma {:induction false} PrintLayout(indent: string, kids: seq<Node>)
    requires Plain(indent)
    ensures PrintNodes(Layout(indent, kids)) == "\n" + Lines(indent + "  ", kids) + indent
    decreases |kids|
  {
    hide Esc, PrintTokens;
    if kids == [] {
      var t := "\n" + indent;
      PrintNodesCons(TextNode(t), []);
      PrintOne(Chars(t));
      PlainText(t);
      assert [TextNode(t)] + [] == [TextNode(t)];
      PrintNothing();
      assert t + "" == "\n" + "" + indent;
    } else {
      var deeper := indent + "  ";
      var t := "\n" + deeper;
      assert t == "\n" + indent + "  ";
      var rest := Layout(indent, kids[1..]);
      PrintLayout(indent, kids[1..]);
      PrintNodesCons(TextNode(t), [kids[0]] + rest);
      PrintNodesCons(kids[0], rest);
      PrintOne(Chars(t));
      PlainText(t);
      assert [TextNode(t), kids[0]] + rest == [TextNode(t)] + ([kids[0]] + rest);
      var k, ls := PrintTokens(Flatten(kids[0])), Lines(deeper, kids[1..]);
      ShiftBreak(indent, deeper, k, ls);
    }
  }

  lemma PrintNothing()
    ensures PrintNodes([]) == ""
  {
  }

  lemma ContainerLines(indent: string, tag: string, attrs: seq<Attr>, kids: seq<Node>)
    requires Plain(indent)
    ensures Line(indent, Container(indent, tag, attrs, kids))
         == (indent + Tag(tag, attrs) + "\n") + Lines(indent + "  ", kids) + (indent + EndTag(tag) + "\n")
  {
    hide Lines;
    PrintLayout(indent, kids);
    PrintElement(tag, attrs, Layout(indent, kids));
    var ls := Lines(indent + "  ", kids);
    var o, c := Tag(tag, attrs), EndTag(tag);
    GlueContainer(indent, o, ls, c);
  }

  lemma GlueContainer(indent: string, o: string, ls: string, c: string)
    ensures indent + (o + ("\n" + ls + indent) + c) + "\n" == (indent + o + "\n") + ls + (indent + c + "\n")
  {
  }

  lemma PrintText(text: string)
    ensures PrintNodes(if text == "" then [] else [TextNode(text)]) == Esc(text)
  {
    if text == "" {
      PrintNothing();
      EscIsFused(text);
    } else {
      PrintNodesCons(TextNode(text), []);
      PrintOne(Chars(text));
      PrintNothing();
      hide Esc, PrintTokens;
      assert [TextNode(text)] + [] == [TextNode(text)];
      assert Esc(text) + "" == Esc(text);
    }
  }

  lemma LeafLine(indent: string, tag: string, attrs: seq<Attr>, text: string)
    ensures Line(indent, Leaf(tag, attrs, text)) == indent + Tag(tag, attrs) + Esc(text) + EndTag(tag) + "\n"
  {
    PrintText(text);
    PrintElement(tag, attrs, if text == "" then [] else [TextNode(text)]);
    hide Esc, PrintTokens, Flatten, FlattenAll, Tag, EndTag;
    GlueLeaf(indent, Tag(tag, attrs), Esc(text), EndTag(tag));
  }

  lemma GlueLeaf(indent: string, o: string, e: string, c: string)
    ensures indent + (o + e + c) + "\n" == indent + o + e + c + "\n"
  {
  }

  lemma LinesCons(indent: string, n: Node, ns: seq<Node>)
    ensures Lines(indent, [n] + ns) == Line(indent, n) + Lines(indent, ns)
  {
    assert ([n] + ns)[1..] == ns;
  }

  lemma AttrsOne(a: Attr, rest: seq<Attr>)
    ensures PrintAttrs([a] + rest) == PrintAttr(a) + PrintAttrs(rest)
  {
    assert ([a] + rest)[1..] == rest;
  }

  lemma PrintAttrs1(a: Attr)
    ensures PrintAttrs([a]) == PrintAttr(a)
  {
    assert [a] + [] == [a];
    AttrsOne(a, []);
    assert PrintAttr(a) + "" == PrintAttr(a);
  }

  lemma PrintAttrs4(a: Attr, b: Attr, c: Attr, d: Attr)
    ensures PrintAttrs([a, b, c, d]) == PrintAttr(a) + PrintAttr(b) + PrintAttr(c) + PrintAttr(d)
  {
    hide PrintAttr;
    assert [a, b, c, d] == [a] + ([b] + ([c] + [d]));
    AttrsOne(a, [b] + ([c] + [d]));
    AttrsOne(b, [c] + [d]);
    AttrsOne(c, [d]);
    PrintAttrs1(d);
    var p, q, r, s := PrintAttr(a), PrintAttr(b), PrintAttr(c), PrintAttr(d);
    assert p + (q + (r + s)) == p + q + r + s;
  }

  lemma AttrIsQuoted(a: Attr)
    ensures PrintAttr(a) == Quoted(a.name, Esc(a.value))
  {
  }

  lemma GlueTag(indent: string, tag: string, text: string)
    ensures indent + ("<" + (tag + text) + ">") + "\n" == indent + "<" + tag + text + ">\n"
    ensures indent + ("<" + (tag + text + "/") + ">") + "\n" == indent + "<" + tag + text + "/>\n"
  {
  }

  lemma XcpHlIsPlain()
    ensures Esc("xcp-hl") == "xcp-hl"
  {
    PlainText("xcp-hl");
  }

  lemma StableIsPlain()
    ensures Esc("stable") == "stable"
  {
    PlainText("stable");
  }

  lemma DigitsArePlain()
    ensures Esc("1") == "1" && Esc("0") == "0"
  {
    PlainText("1");
    PlainText("0");
  }

  lemma TypesArePlain()
    ensures Esc("cve") == "cve" && Esc("sha256") == "sha256"
  {
    PlainText("cve");
    PlainText("sha256");
  }

  lemma OpenUpdate(kind: string)
    ensures "  <update" + Quoted("from", "xcp-hl") + Quoted("status", "stable") + Quoted("type", Esc(kind))
            + Quoted("version", "1") + ">\n"
         == "  " + Tag("update", [Attr("from", "xcp-hl"), Attr("status", "stable"), Attr("type", kind),
             Attr("version", "1")]) + "\n"
  {
    var a, b, c, d := Attr("from", "xcp-hl"), Attr("status", "stable"), Attr("type", kind), Attr("version", "1");
    PrintAttrs4(a, b, c, d);
    AttrIsQuoted(a);
    AttrIsQuoted(b);
    AttrIsQuoted(c);
    AttrIsQuoted(d);
    XcpHlIsPlain();
    StableIsPlain();
    DigitsArePlain();
    hide Esc, PrintAttrs, PrintAttr, Quoted;
    var text := PrintAttrs([a, b, c, d]);
    GlueTag("  ", "update", text);
    assert "  " + "<" + "update" == "  <update";
    var p, q, r, s := Quoted("from", "xcp-hl"), Quoted("status", "stable"), Quoted("type", Esc(kind)),
        Quoted("version", "1");
    assert "  <update" + (p + q + r + s) + ">\n" == "  <update" + p + q + r + s + ">\n";
  }

  /** One reference of an advisory. */
  lemma CveLine(cve: string)
    ensures Line("      ", CveNode(cve)) == CveText(cve)
  {
    var a, b, c, d := Attr("href", NVD_PREFIX + cve), Attr("id", cve), Attr("type", "cve"), Attr("title", cve);
    PrintAttrs4(a, b, c, d);
    AttrIsQuoted(a);
    AttrIsQuoted(b);
    AttrIsQuoted(c);
    AttrIsQuoted(d);
    TypesArePlain();
    NvdIsPlain();
    EscAppend(NVD_PREFIX, cve);
    PrintOne(Single("reference", [a, b, c, d]));
    hide Esc, PrintAttrs, PrintAttr, Quoted;
    GlueTag("      ", "reference", PrintAttrs([a, b, c, d]));
    assert "      " + "<" + "reference" == "      <reference";
    var p, q, r, s := Quoted("href", NVD_PREFIX + Esc(cve)), Quoted("id", Esc(cve)), Quoted("type", "cve"),
        Quoted("title", Esc(cve));
    assert "      <reference" + (p + q + r + s) + "/>\n" == "      <reference" + p + q + r + s + "/>\n";
  }

  lemma NvdHostIsPlain()
    ensures Esc("https://nvd.nist") == "https://nvd.nist"
  {
    PlainText("https://nvd.nist");
  }

  lemma NvdPathIsPlain()
    ensures Esc(".gov/vuln/detail/") == ".gov/vuln/detail/"
  {
    PlainText(".gov/vuln/detail/");
  }

  lemma NvdIsPlain()
    ensures Esc(NVD_PREFIX) == NVD_PREFIX
  {
    NvdHostIsPlain();
    NvdPathIsPlain();
    EscAppend("https://nvd.nist", ".gov/vuln/detail/");
    hide Esc;
    assert NVD_PREFIX == "https://nvd.nist" + ".gov/vuln/detail/";
  }

  lemma {:induction false} CveLines(cves: seq<string>)
    ensures Lines("      ", CveNodes(cves)) == Concat(CveTexts(cves))
  {
    hide Line, CveNode, CveText;
    if cves == [] {
    } else {
      CveLine(cves[0]);
      CveLines(cves[1..]);
      LinesCons("      ", CveNode(cves[0]), CveNodes(cves[1..]));
      assert ([CveText(cves[0])] + CveTexts(cves[1..]))[1..] == CveTexts(cves[1..]);
    }
  }

  lemma WrappedLine(indent: string, tag: string, text: string)
    ensures Line(indent, Leaf(tag, [], text)) == indent + Wrapped(tag, Esc(text)) + "\n"
  {
    LeafLine(indent, tag, [], text);
    var e := Esc(text);
    hide Esc;
    assert tag + PrintAttrs([]) == tag;
    GlueWrapped(indent, tag, e);
  }

  lemma GlueWrapped(indent: string, tag: string, e: string)
    ensures indent + ("<" + tag + ">") + e + ("<" + ("/" + tag) + ">") + "\n" == indent + Wrapped(tag, e) + "\n"
  {
  }

  lemma PrintAttrs5(a: Attr, b: Attr, c: Attr, d: Attr, e: Attr)
    ensures PrintAttrs([a, b, c, d, e]) == PrintAttr(a) + PrintAttr(b) + PrintAttr(c) + PrintAttr(d) + PrintAttr(e)
  {
    hide PrintAttr;
    assert [a, b, c, d, e] == [a] + [b, c, d, e];
    AttrsOne(a, [b, c, d, e]);
    PrintAttrs4(b, c, d, e);
    var p, q, r, s, t := PrintAttr(a), PrintAttr(b), PrintAttr(c), PrintAttr(d), PrintAttr(e);
    assert p + (q + r + s + t) == p + q + r + s + t;
  }

  /** A container whose printed attributes and lines are known. */
  lemma ContainerText(indent: string, tag: string, attrs: seq<Attr>, kids: seq<Node>, attrText: string, lines: string)
    requires Plain(indent) && PrintAttrs(attrs) == attrText && Lines(indent + "  ", kids) == lines
    ensures Line(indent, Container(indent, tag, attrs, kids))
         == indent + "<" + tag + attrText + ">\n" + lines + (indent + "</" + tag + ">\n")
  {
    ContainerLines(indent, tag, attrs, kids);
    GlueTag(indent, tag, attrText);
    GlueTag(indent, "/", tag);
    hide Container, Line, Lines;
    GlueEnd(indent, tag);
  }

  lemma GlueEnd(indent: string, tag: string)
    ensures indent + ("<" + ("/" + tag) + ">") + "\n" == indent + "</" + tag + ">\n"
  {
  }

  lemma TwoLines(indent: string, a: Node, b: Node)
    ensures Lines(indent, [a, b]) == Line(indent, a) + Line(indent, b)
  {
    hide Line;
    assert [a, b] == [a] + ([b] + []);
    LinesCons(indent, a, [b] + []);
    LinesCons(indent, b, []);
    assert Line(indent, b) + "" == Line(indent, b);
  }

  lemma PackageAttrText(p: Nevra)
    ensures PrintAttrs(PackageAttrs(p))
         == Quoted("name", Esc(p.name)) + Quoted("version", Esc(p.version)) + Quoted("release", Esc(p.release))
            + Quoted("epoch", "0") + Quoted("arch", Esc(p.arch))
  {
    var ps := PackageAttrs(p);
    PrintAttrs5(ps[0], ps[1], ps[2], ps[3], ps[4]);
    DigitsArePlain();
    AttrIsQuoted(ps[0]);
    AttrIsQuoted(ps[1]);
    AttrIsQuoted(ps[2]);
    AttrIsQuoted(ps[3]);
    AttrIsQuoted(ps[4]);
  }

  lemma SumLine(sha: string)
    ensures Line("          ", Leaf("sum", [Attr("type", "sha256")], sha))
         == "          <sum" + Quoted("type", "sha256") + ">" + Esc(sha) + "</sum>\n"
  {
    LeafLine("          ", "sum", [Attr("type", "sha256")], sha);
    PrintAttrs1(Attr("type", "sha256"));
    AttrIsQuoted(Attr("type", "sha256"));
    TypesArePlain();
    hide Esc, PrintAttrs, PrintAttr, Quoted;
    var q, e := Quoted("type", "sha256"), Esc(sha);
    GlueSum(q, e);
  }

  lemma GlueSum(q: string, e: string)
    ensures "          " + ("<" + ("sum" + q) + ">") + e + ("<" + ("/" + "sum") + ">") + "\n"
         == "          <sum" + q + ">" + e + "</sum>\n"
  {
  }

  lemma PackageLine(p: Nevra, x: Asset)
    requires Split(x.nevra) == Some(p)
    ensures Line("        ", PackageNode(p, x)) == PackageText(x)
  {
    hide Split;
    var f, s := Leaf("filename", [], x.name), Leaf("sum", [Attr("type", "sha256")], x.sha256);
    PackageAttrText(p);
    WrappedLine("          ", "filename", x.name);
    SumLine(x.sha256);
    TwoLines("          ", f, s);
    hide Esc, PrintAttrs, PrintAttr, Quoted, Wrapped, Leaf, Line, Lines;
    assert "        " + "  " == "          ";
    ContainerText("        ", "package", PackageAttrs(p), [f, s], PrintAttrs(PackageAttrs(p)),
      "          " + Wrapped("filename", Esc(x.name)) + "\n"
      + ("          <sum" + Quoted("type", "sha256") + ">" + Esc(x.sha256) + "</sum>\n"));
    GluePackage(Quoted("name", Esc(p.name)), Quoted("version", Esc(p.version)), Quoted("release", Esc(p.release)),
      Quoted("epoch", "0"), Quoted("arch", Esc(p.arch)), Wrapped("filename", Esc(x.name)), Quoted("type", "sha256"),
      Esc(x.sha256));
  }

  lemma GluePackage(a: string, b: string, c: string, d: string, e: string, f: string, q: string, h: string)
    ensures "        " + "<" + "package" + (a + b + c + d + e) + ">\n"
            + ("          " + f + "\n" + ("          <sum" + q + ">" + h + "</sum>\n"))
            + ("        " + "</" + "package" + ">\n")
         == "        <package" + a + b + c + d + e + ">\n"
            + "          " + f + "\n" + "          <sum" + q + ">" + h + "</sum>\n" + "        </package>\n"
  {
    assert "        " + "<" + "package" == "        <package";
    assert "        " + "</" + "package" + ">\n" == "        </package>\n";
    var o := "        <package";
    assert o + (a + b + c + d + e) == o + a + b + c + d + e;
    var i, t := "          " + f + "\n", "          <sum";
    var u := q + ">" + h + "</sum>\n";
    assert t + q + ">" + h + "</sum>\n" == t + u;
  }

  lemma NoPackageText(x: Asset)
    requires Split(x.nevra).None?
    ensures PackageText(x) == ""
  {
    hide Split;
  }

  lemma {:induction false} PackageLines(xs: seq<Asset>)
    ensures Lines("        ", PackageNodes(xs)) == Concat(PackageTexts(xs))
  {
    hide Line, PackageNode, PackageText, Split;
    if xs == [] {
    } else {
      PackageLines(xs[1..]);
      assert ([PackageText(xs[0])] + PackageTexts(xs[1..]))[1..] == PackageTexts(xs[1..]);
      if Split(xs[0].nevra).Some? {
        var p := Split(xs[0].nevra).value;
        PackageLine(p, xs[0]);
        LinesCons("        ", PackageNode(p, xs[0]), PackageNodes(xs[1..]));
      } else {
        NoPackageText(xs[0]);
        assert [] + PackageNodes(xs[1..]) == PackageNodes(xs[1..]);
      }
    }
  }

  lemma CollectionLine(e: Entry)
    ensures Line("      ", CollectionNode(e)) == CollectionText(e)
  {
    var kids := [Leaf("name", [], e.tag)] + PackageNodes(e.assets);
    PackageLines(e.assets);
    WrappedLine("        ", "name", e.tag);
    LinesCons("        ", Leaf("name", [], e.tag), PackageNodes(e.assets));
    PrintAttrs1(Attr("short", e.tag));
    AttrIsQuoted(Attr("short", e.tag));
    hide Esc, PrintAttrs, PrintAttr, Quoted, Wrapped, Leaf, Line, Lines, PackageNodes, PackageTexts, Concat;
    assert "      " + "  " == "        ";
    var lines := "        " + Wrapped("name", Esc(e.tag)) + "\n" + Concat(PackageTexts(e.assets));
    ContainerText("      ", "collection", [Attr("short", e.tag)], kids, Quoted("short", Esc(e.tag)), lines);
    assert "      " + "<" + "collection" == "      <collection";
    assert "      " + "</" + "collection" + ">\n" == "      </collection>\n";
  }

  lemma ReferencesLine(cves: seq<string>)
    ensures Line("    ", Container("    ", "references", [], CveNodes(cves)))
         == "    <references>\n" + Concat(CveTexts(cves)) + "    </references>\n"
  {
    CveLines(cves);
    hide Line, Lines, CveNodes, CveTexts, Concat;
    assert "    " + "  " == "      ";
    ContainerText("    ", "references", [], CveNodes(cves), "", Concat(CveTexts(cves)));
    ReferencesTags();
  }

  lemma ReferencesTags()
    ensures "    " + "<" + "references" + "" + ">\n" == "    <references>\n"
    ensures "    " + "</" + "references" + ">\n" == "    </references>\n"
  {
    assert "    " + "<" + "references" == "    <references";
    assert "    <references" + "" == "    <references";
  }

  lemma OneLine(indent: string, n: Node)
    ensures Lines(indent, [n]) == Line(indent, n)
  {
    hide Line;
    assert [n] + [] == [n];
    LinesCons(indent, n, []);
    assert Line(indent, n) + "" == Line(indent, n);
  }

  lemma PkglistLine(e: Entry)
    ensures Line("    ", Container("    ", "pkglist", [], [CollectionNode(e)]))
         == "    <pkglist>\n" + CollectionText(e) + "    </pkglist>\n"
  {
    CollectionLine(e);
    OneLine("      ", CollectionNode(e));
    hide CollectionNode, CollectionText;
    assert "    " + "  " == "      ";
    ContainerText("    ", "pkglist", [], [CollectionNode(e)], "", CollectionText(e));
    PkglistTags();
  }

  lemma PkglistTags()
    ensures "    " + "<" + "pkglist" + "" + ">\n" == "    <pkglist>\n"
    ensures "    " + "</" + "pkglist" + ">\n" == "    </pkglist>\n"
  {
    assert "    " + "<" + "pkglist" == "    <pkglist";
    assert "    <pkglist" + "" == "    <pkglist";
  }

  lemma IssuedLine(date: string)
    ensures Line("    ", EmptyElement("issued", [Attr("date", date)]))
         == "    <issued" + Quoted("date", Esc(date)) + "/>\n"
  {
    PrintAttrs1(Attr("date", date));
    AttrIsQuoted(Attr("date", date));
    PrintOne(Single("issued", [Attr("date", date)]));
    hide Esc, PrintAttrs, PrintAttr, Quoted;
    GlueTag("    ", "issued", Quoted("date", Esc(date)));
    assert "    " + "<" + "issued" == "    <issued";
  }

  lemma FixedInIsPlain()
    ensures Esc(" (fixed in ") == " (fixed in " && Esc(")") == ")"
  {
    PlainText(" (fixed in ");
    PlainText(")");
  }

  lemma DescriptionIsEscaped(summary: string, tag: string)
    ensures Esc(summary + " (fixed in " + tag + ")") == Esc(summary) + " (fixed in " + Esc(tag) + ")"
  {
    FixedInIsPlain();
    EscAppend(summary + " (fixed in " + tag, ")");
    EscAppend(summary + " (fixed in ", tag);
    EscAppend(summary, " (fixed in ");
    hide Esc;
    assert summary + " (fixed in " + tag + ")" == (summary + " (fixed in " + tag) + ")";
  }

  lemma ThreeLines(indent: string, a: Node, b: Node, c: Node)
    ensures Lines(indent, [a, b, c]) == Line(indent, a) + (Line(indent, b) + Line(indent, c))
  {
    hide Line;
    TwoLines(indent, b, c);
    LinesCons(indent, a, [b, c]);
    hide Lines;
    assert [a] + [b, c] == [a, b, c];
  }

  lemma FiveLines(indent: string, a: Node, b: Node, c: Node, d: Node, e: Node)
    ensures Lines(indent, [a, b, c, d, e])
         == Line(indent, a) + (Line(indent, b) + (Line(indent, c) + (Line(indent, d) + Line(indent, e))))
  {
    hide Line, Lines;
    ThreeLines(indent, c, d, e);
    LinesCons(indent, b, [c, d, e]);
    LinesCons(indent, a, [b, c, d, e]);
    assert [b] + [c, d, e] == [b, c, d, e];
    assert [a] + [b, c, d, e] == [a, b, c, d, e];
  }

  lemma SevenLines(indent: string, a: Node, b: Node, c: Node, d: Node, e: Node, f: Node, g: Node)
    ensures Lines(indent, [a, b, c, d, e, f, g])
         == Line(indent, a) + (Line(indent, b) + (Line(indent, c) + (Line(indent, d)
            + (Line(indent, e) + (Line(indent, f) + Line(indent, g))))))
  {
    hide Line, Lines;
    FiveLines(indent, c, d, e, f, g);
    LinesCons(indent, b, [c, d, e, f, g]);
    LinesCons(indent, a, [b, c, d, e, f, g]);
    assert [b] + [c, d, e, f, g] == [b, c, d, e, f, g];
    assert [a] + [b, c, d, e, f, g] == [a, b, c, d, e, f, g];
  }

  lemma UpdateKidLines(e: Entry, a: Advisory)
    ensures Lines("    ", UpdateKids(e, a)) == UpdateBody(e, a)
  {
    var ks := UpdateKids(e, a);
    SevenLines("    ", ks[0], ks[1], ks[2], ks[3], ks[4], ks[5], ks[6]);
    WrappedLine("    ", "id", a.id);
    WrappedLine("    ", "title", a.summary);
    WrappedLine("    ", "severity", a.severity.GetOr("None"));
    IssuedLine(IssuedDate(a.issued));
    WrappedLine("    ", "description", a.summary + " (fixed in " + e.tag + ")");
    DescriptionIsEscaped(a.summary, e.tag);
    ReferencesLine(a.cves.GetOr([]));
    PkglistLine(e);
  }

  lemma UpdateLine(e: Entry, a: Advisory)
    ensures Line("  ", UpdateNode(e, a)) == UpdateText(e, a)
  {
    UpdateKidLines(e, a);
    OpenUpdate(a.kind);
    var attrs := UpdateAttrs(a);
    hide UpdateKids, UpdateBody, PrintAttrs, Quoted, Line, Lines, Esc;
    assert "  " + "  " == "    ";
    ContainerText("  ", "update", attrs, UpdateKids(e, a), PrintAttrs(attrs), UpdateBody(e, a));
    GlueTag("  ", "update", PrintAttrs(attrs));
    assert "  " + "</" + "update" + ">\n" == "  </update>\n";
  }

  lemma {:induction false} UpdateLines(es: seq<Entry>)
    ensures Lines("  ", UpdateNodes(es)) == Concat(UpdateTexts(es))
  {
    hide Line, UpdateNode, UpdateText;
    if es == [] {
    } else {
      UpdateLines(es[1..]);
      if Announced(es[0]) {
        var n, t := UpdateNode(es[0], es[0].advisory.value), UpdateText(es[0], es[0].advisory.value);
        UpdateLine(es[0], es[0].advisory.value);
        LinesCons("  ", n, UpdateNodes(es[1..]));
        assert ([t] + UpdateTexts(es[1..]))[1..] == UpdateTexts(es[1..]);
      } else {
        assert [] + UpdateNodes(es[1..]) == UpdateNodes(es[1..]);
        assert [] + UpdateTexts(es[1..]) == UpdateTexts(es[1..]);
      }
    }
  }

  /** The program prints its document as the text of a tree: every tag it opens is closed in the right
      place, and every value is escaped where it stands. */
  lemma DocumentIsPrintedTree(es: seq<Entry>)
    ensures Document(es) == DECLARATION + PrintNodes([Tree(es)])
  {
    UpdateLines(es);
    var kids, text := UpdateNodes(es), Concat(UpdateTexts(es));
    hide UpdateNodes, UpdateTexts, Concat;
    PrintLayout("", kids);
    PrintElement("updates", [], Layout("", kids));
    PrintNodesCons(Tree(es), []);
    assert [Tree(es)] + [] == [Tree(es)];
    PrintNothing();
    UpdatesTags();
    hide PrintTokens, Flatten, FlattenAll, Tag, EndTag, Lines, Layout;
    GlueDocument(text);
  }

  lemma UpdatesTags()
    ensures Tag("updates", []) == "<updates>" && EndTag("updates") == "</updates>" && "" + "  " == "  "
  {
    assert "updates" + PrintAttrs([]) == "updates";
  }

  lemma GlueDocument(text: string)
    ensures "<updates>" + ("\n" + text + "") + "</updates>" + "" == "<updates>\n" + text + "</updates>"
  {
    assert "\n" + text + "" == "\n" + text;
    assert "<updates>" + "\n" == "<updates>\n";
    assert "<updates>" + ("\n" + text) == "<updates>\n" + text;
  }
}
