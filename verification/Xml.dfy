/** A small XML reader and the printer that it inverts: tags, attributes, character data, nesting.  The
    reader knows what the advisory document uses, and nothing else of XML 1.0. */
module Xml {
  import opened Basics
  import opened Strings
  import opened Escape

  datatype Attr = Attr(name: string, value: string)

  datatype Token =
    | Open(tag: string, attrs: seq<Attr>)
    | Single(tag: string, attrs: seq<Attr>)
    | Close(tag: string)
    | Chars(text: string)

  datatype Node =
    | Element(tag: string, attrs: seq<Attr>, children: seq<Node>)
    | EmptyElement(tag: string, attrs: seq<Attr>)
    | TextNode(text: string)

  // ---------------------------------------------------------------- printing

  function PrintAttr(a: Attr): string {
    " " + a.name + "=\"" + Esc(a.value) + "\""
  }

  function PrintAttrs(attrs: seq<Attr>): string {
    if attrs == [] then "" else PrintAttr(attrs[0]) + PrintAttrs(attrs[1..])
  }

  function PrintToken(t: Token): string {
    match t
    case Open(tag, attrs) => "<" + (tag + PrintAttrs(attrs)) + ">"
    case Single(tag, attrs) => "<" + (tag + PrintAttrs(attrs) + "/") + ">"
    case Close(tag) => "<" + ("/" + tag) + ">"
    case Chars(text) => Esc(text)
  }

  function PrintTokens(ts: seq<Token>): string {
    if ts == [] then "" else PrintToken(ts[0]) + PrintTokens(ts[1..])
  }

  function Flatten(n: Node): seq<Token> {
    match n
    case Element(tag, attrs, children) => [Open(tag, attrs)] + FlattenAll(children) + [Close(tag)]
    case EmptyElement(tag, attrs) => [Single(tag, attrs)]
    case TextNode(text) => [Chars(text)]
  }

  function FlattenAll(ns: seq<Node>): seq<Token> {
    if ns == [] then [] else Flatten(ns[0]) + FlattenAll(ns[1..])
  }

  function PrintNodes(ns: seq<Node>): string {
    PrintTokens(FlattenAll(ns))
  }

  // ---------------------------------------------------------------- what can be printed

  predicate IsName(s: string) {
    s != "" && forall i | 0 <= i < |s| :: 'a' <= s[i] <= 'z'
  }

  predicate GoodAttrs(attrs: seq<Attr>) {
    forall i | 0 <= i < |attrs| :: IsName(attrs[i].name)
  }

  predicate GoodToken(t: Token) {
    match t
    case Open(tag, attrs) => IsName(tag) && GoodAttrs(attrs)
    case Single(tag, attrs) => IsName(tag) && GoodAttrs(attrs)
    case Close(tag) => IsName(tag)
    case Chars(text) => text != ""
  }

  predicate GoodTokens(ts: seq<Token>) {
    && (forall i | 0 <= i < |ts| :: GoodToken(ts[i]))
    && (forall i | 0 <= i < |ts| - 1 :: !(ts[i].Chars? && ts[i + 1].Chars?))
  }

  predicate GoodNode(n: Node) {
    match n
    case Element(tag, attrs, children) => IsName(tag) && GoodAttrs(attrs) && GoodNodes(children)
    case EmptyElement(tag, attrs) => IsName(tag) && GoodAttrs(attrs)
    case TextNode(text) => text != ""
  }

  /** Element and attribute names are names, and character data is neither empty nor split in two. */
  predicate GoodNodes(ns: seq<Node>) {
    ns == [] ||
    (GoodNode(ns[0]) && GoodNodes(ns[1..]) && !(ns[0].TextNode? && |ns| > 1 && ns[1].TextNode?))
  }

  // ---------------------------------------------------------------- reading tokens

  function ParseAttrs(s: string): Option<seq<Attr>>
    decreases |s|
  {
    if s == "" then Some([])
    else if s[0] != ' ' then None
    else
      var i := IndexOf(s, '=');
      if i + 1 >= |s| || s[i + 1] != '"' || i < 1 || !IsName(s[1..i]) then None
      else
        var v := s[i + 2..];
        var j := IndexOf(v, '"');
        if j == |v| then None
        else match (Unescape(v[..j]), ParseAttrs(v[j + 1..]))
          case (Text(value), Some(rest)) => Some([Attr(s[1..i], value)] + rest)
          case _ => None
  }

  function ParseTag(body: string): Option<(string, seq<Attr>)> {
    var i := IndexOf(body, ' ');
    if !IsName(body[..i]) then None
    else match ParseAttrs(body[i..])
      case Some(attrs) => Some((body[..i], attrs))
      case None => None
  }

  /** The token between `<` and `>`. */
  function ParseMarkup(body: string): Option<Token> {
    if body == "" then None
    else if body[0] == '/' then (if IsName(body[1..]) then Some(Close(body[1..])) else None)
    else if body[|body| - 1] == '/' then
      match ParseTag(body[..|body| - 1])
      case Some((tag, attrs)) => Some(Single(tag, attrs))
      case None => None
    else
      match ParseTag(body)
      case Some((tag, attrs)) => Some(Open(tag, attrs))
      case None => None
  }

  function Tokenize(s: string): Option<seq<Token>>
    decreases |s|
  {
    if s == "" then Some([])
    else if s[0] == '<' then
      var i := IndexOf(s, '>');
      if i == |s| then None
      else match (ParseMarkup(s[1..i]), Tokenize(s[i + 1..]))
        case (Some(t), Some(ts)) => Some([t] + ts)
        case _ => None
    else
      var i := IndexOf(s, '<');
      match (Unescape(s[..i]), Tokenize(s[i..]))
      case (Text(value), Some(ts)) => Some([Chars(value)] + ts)
      case _ => None
  }

  // ---------------------------------------------------------------- tokens are read back

  lemma {:induction false} PrintAttrsHasNoMarkup(attrs: seq<Attr>)
    requires GoodAttrs(attrs)
    ensures '<' !in PrintAttrs(attrs) && '>' !in PrintAttrs(attrs)
  {
    if attrs == [] {
    } else {
      PrintAttrsHasNoMarkup(attrs[1..]);
      EscHasNoMarkup(attrs[0].value);
    }
  }

  /** Where a printed attribute is cut; `e` is the escaped value. */
  lemma CutAttr(name: string, e: string, rest: string)
    requires IsName(name) && '"' !in e
    ensures var s := " " + name + "=\"" + e + "\"" + rest;
            && IndexOf(s, '=') == |name| + 1
            && s[0] == ' ' && s[1..|name| + 1] == name && s[|name| + 2] == '"'
            && IndexOf(s[|name| + 3..], '"') == |e|
            && s[|name| + 3..][..|e|] == e && s[|name| + 3..][|e| + 1..] == rest
  {
    var front := " " + name;
    var back := "\"" + e + "\"" + rest;
    var s := " " + name + "=\"" + e + "\"" + rest;
    assert s == front + ['='] + back;
    IndexOfAfter(front, '=', back);
    assert s[|name| + 3..] == e + ['"'] + rest;
    IndexOfAfter(e, '"', rest);
  }

  lemma ParseOneAttr(a: Attr, rest: string)
    requires IsName(a.name) && ParseAttrs(rest).Some?
    ensures ParseAttrs(PrintAttr(a) + rest) == Some([a] + ParseAttrs(rest).value)
  {
    var e := Esc(a.value);
    EscHasNoMarkup(a.value);
    UnescapeEsc(a.value);
    hide Esc, Unescape;
    CutAttr(a.name, e, rest);
    var s := PrintAttr(a) + rest;
    assert s == " " + a.name + "=\"" + e + "\"" + rest;
    var v := s[|a.name| + 3..];
    assert ParseAttrs(v[|e| + 1..]) == ParseAttrs(rest);
    assert Unescape(v[..|e|]) == Text(a.value);
  }

  lemma {:induction false} ParsePrintedAttrs(attrs: seq<Attr>)
    requires GoodAttrs(attrs)
    ensures ParseAttrs(PrintAttrs(attrs)) == Some(attrs)
    decreases |attrs|
  {
    if attrs == [] {
    } else {
      hide PrintAttr, ParseAttrs, IsName;
      assert IsName(attrs[0].name) && GoodAttrs(attrs[1..]);
      assert PrintAttrs(attrs) == PrintAttr(attrs[0]) + PrintAttrs(attrs[1..]);
      hide PrintAttrs, GoodAttrs;
      ParsePrintedAttrs(attrs[1..]);
      ParseOneAttr(attrs[0], PrintAttrs(attrs[1..]));
      assert attrs == [attrs[0]] + attrs[1..];
    }
  }

  lemma ParsePrintedTag(tag: string, attrs: seq<Attr>)
    requires IsName(tag) && GoodAttrs(attrs)
    ensures ParseTag(tag + PrintAttrs(attrs)) == Some((tag, attrs))
  {
    var text := PrintAttrs(attrs);
    ParsePrintedAttrs(attrs);
    AttrsBegin(attrs);
    CutTag(tag, text);
    hide IndexOf, IsName, ParseAttrs, PrintAttrs;
  }

  lemma AttrsBegin(attrs: seq<Attr>)
    ensures PrintAttrs(attrs) == "" || PrintAttrs(attrs)[0] == ' '
  {
  }

  lemma CutTag(tag: string, text: string)
    requires IsName(tag) && (text == "" || text[0] == ' ')
    ensures var body := tag + text;
            IndexOf(body, ' ') == |tag| && body[..|tag|] == tag && body[|tag|..] == text
  {
    assert ' ' !in tag;
    hide IndexOf, IsName;
    if text == "" {
      assert tag + text == tag;
      IndexOfAbsent(tag, ' ');
    } else {
      assert tag + text == tag + [' '] + text[1..];
      IndexOfAfter(tag, ' ', text[1..]);
    }
  }

  function Markup(t: Token): string
    requires !t.Chars?
  {
    match t
    case Open(tag, attrs) => tag + PrintAttrs(attrs)
    case Single(tag, attrs) => tag + PrintAttrs(attrs) + "/"
    case Close(tag) => "/" + tag
  }

  lemma ParsePrintedMarkup(t: Token)
    requires GoodToken(t) && !t.Chars?
    ensures ParseMarkup(Markup(t)) == Some(t) && '>' !in Markup(t)
  {
    var m := Markup(t);
    match t {
      case Close(tag) =>
        assert m[1..] == tag;
      case Single(tag, attrs) =>
        ParsePrintedTag(tag, attrs);
        PrintAttrsHasNoMarkup(attrs);
        assert m[0] == tag[0];
        assert m[..|m| - 1] == tag + PrintAttrs(attrs);
      case Open(tag, attrs) =>
        ParsePrintedTag(tag, attrs);
        PrintAttrsHasNoMarkup(attrs);
        assert m[0] == tag[0];
        LastOfTag(tag, attrs);
    }
  }

  lemma {:induction false} LastOfAttrs(attrs: seq<Attr>)
    requires attrs != []
    ensures PrintAttrs(attrs) != "" && PrintAttrs(attrs)[|PrintAttrs(attrs)| - 1] == '"'
  {
    if |attrs| == 1 {
      assert attrs[1..] == [];
      assert PrintAttrs(attrs) == PrintAttr(attrs[0]) + "";
    } else {
      LastOfAttrs(attrs[1..]);
    }
  }

  lemma LastOfTag(tag: string, attrs: seq<Attr>)
    requires IsName(tag)
    ensures var m := tag + PrintAttrs(attrs); m[|m| - 1] != '/'
  {
    if attrs != [] {
      LastOfAttrs(attrs);
    }
  }

  lemma TokenizeMarkup(t: Token, rest: string)
    requires GoodToken(t) && !t.Chars? && Tokenize(rest).Some?
    ensures Tokenize(PrintToken(t) + rest) == Some([t] + Tokenize(rest).value)
  {
    ParsePrintedMarkup(t);
    assert PrintToken(t) == "<" + Markup(t) + ">";
    CutMarkup(Markup(t), rest);
    hide IndexOf, Markup, PrintToken, ParseMarkup, GoodToken;
  }

  lemma CutMarkup(m: string, rest: string)
    requires '>' !in m
    ensures var s := "<" + m + ">" + rest;
            s[0] == '<' && IndexOf(s, '>') == |m| + 1 && s[1..|m| + 1] == m && s[|m| + 2..] == rest
  {
    var s, front := "<" + m + ">" + rest, "<" + m;
    assert s == front + ['>'] + rest;
    IndexOfAfter(front, '>', rest);
    hide IndexOf;
  }

  lemma CutChars(e: string, rest: string)
    requires e != "" && '<' !in e && (rest == "" || rest[0] == '<')
    ensures var s := e + rest;
            s[0] != '<' && IndexOf(s, '<') == |e| && s[..|e|] == e && s[|e|..] == rest
  {
    var s := e + rest;
    assert s[0] == e[0];
    if rest == "" {
      assert s == e;
    } else {
      assert s == e + ['<'] + rest[1..];
      IndexOfAfter(e, '<', rest[1..]);
    }
  }

  lemma TokenizeChars(text: string, rest: string)
    requires text != "" && Tokenize(rest).Some? && (rest == "" || rest[0] == '<')
    ensures Tokenize(Esc(text) + rest) == Some([Chars(text)] + Tokenize(rest).value)
  {
    EscHasNoMarkup(text);
    UnescapeEsc(text);
    var e := Esc(text);
    assert e != "" by {
      assert Unescape("") == Text("");
    }
    hide Esc, Unescape;
    CutChars(e, rest);
    var s := e + rest;
    assert Unescape(s[..|e|]) == Text(text);
    assert Tokenize(s[|e|..]) == Tokenize(rest);
  }

  lemma {:induction false} TokenizePrinted(ts: seq<Token>)
    requires GoodTokens(ts)
    ensures Tokenize(PrintTokens(ts)) == Some(ts)
    decreases |ts|
  {
    if ts == [] {
    } else {
      var rest := PrintTokens(ts[1..]);
      assert GoodTokens(ts[1..]);
      TokenizePrinted(ts[1..]);
      assert GoodToken(ts[0]);
      assert ts == [ts[0]] + ts[1..];
      if ts[0].Chars? {
        if |ts| > 1 {
          assert !ts[1].Chars?;
          assert rest == PrintToken(ts[1]) + PrintTokens(ts[1..][1..]);
          assert PrintToken(ts[1])[0] == '<';
        }
        TokenizeChars(ts[0].text, rest);
      } else {
        TokenizeMarkup(ts[0], rest);
      }
    }
  }

  // ---------------------------------------------------------------- nesting

  /** The nodes up to the closing tag of the surrounding element, and the tokens from there on. */
  function ParseNodes(ts: seq<Token>): (r: Option<(seq<Node>, seq<Token>)>)
    ensures r.Some? ==> |r.value.1| <= |ts|
    decreases |ts|
  {
    if ts == [] || ts[0].Close? then Some(([], ts))
    else match ts[0]
      case Chars(text) => PrependNode(TextNode(text), ParseNodes(ts[1..]))
      case Single(tag, attrs) => PrependNode(EmptyElement(tag, attrs), ParseNodes(ts[1..]))
      case Open(tag, attrs) =>
        match ParseNodes(ts[1..])
        case None => None
        case Some((children, rest)) =>
          if rest == [] || rest[0] != Close(tag) then None
          else PrependNode(Element(tag, attrs, children), ParseNodes(rest[1..]))
  }

  function PrependNode(n: Node, r: Option<(seq<Node>, seq<Token>)>): (r': Option<(seq<Node>, seq<Token>)>)
    ensures r'.Some? <==> r.Some?
    ensures r.Some? ==> r'.value == ([n] + r.value.0, r.value.1)
  {
    match r
    case None => None
    case Some((ns, rest)) => Some(([n] + ns, rest))
  }

  lemma ParseElement(tag: string, attrs: seq<Attr>, children: seq<Node>, inner: seq<Token>, later: seq<Token>)
    requires ParseNodes(inner + ([Close(tag)] + later)) == Some((children, [Close(tag)] + later))
    ensures ParseNodes([Open(tag, attrs)] + inner + [Close(tag)] + later)
         == PrependNode(Element(tag, attrs, children), ParseNodes(later))
  {
    var ts := [Open(tag, attrs)] + inner + [Close(tag)] + later;
    assert ts[0] == Open(tag, attrs);
    assert ts[1..] == inner + ([Close(tag)] + later);
    assert ([Close(tag)] + later)[0] == Close(tag) && ([Close(tag)] + later)[1..] == later;
  }

  lemma {:induction false} ParseFlattened(ns: seq<Node>, rest: seq<Token>)
    requires rest == [] || rest[0].Close?
    ensures ParseNodes(FlattenAll(ns) + rest) == Some((ns, rest))
    decreases ns
  {
    if ns == [] {
      assert FlattenAll(ns) + rest == rest;
    } else {
      var later := FlattenAll(ns[1..]) + rest;
      var ts := FlattenAll(ns) + rest;
      assert ts == Flatten(ns[0]) + later;
      ParseFlattened(ns[1..], rest);
      assert ns == [ns[0]] + ns[1..];
      match ns[0] {
        case TextNode(text) => assert ts == [Chars(text)] + later && ts[1..] == later;
        case EmptyElement(tag, attrs) => assert ts == [Single(tag, attrs)] + later && ts[1..] == later;
        case Element(tag, attrs, children) =>
          ParseFlattened(children, [Close(tag)] + later);
          ParseElement(tag, attrs, children, FlattenAll(children), later);
      }
    }
  }

  lemma GoodTokensAppend(a: seq<Token>, b: seq<Token>)
    requires GoodTokens(a) && GoodTokens(b)
    requires a == [] || b == [] || !(a[|a| - 1].Chars? && b[0].Chars?)
    ensures GoodTokens(a + b)
  {
  }

  lemma {:induction false} FlattenIsGood(n: Node)
    requires GoodNode(n)
    ensures GoodTokens(Flatten(n)) && Flatten(n) != []
    ensures Flatten(n)[0].Chars? <==> n.TextNode?
    ensures Flatten(n)[|Flatten(n)| - 1].Chars? <==> n.TextNode?
    decreases n, 1
  {
    match n {
      case Element(tag, attrs, children) =>
        FlattenAllIsGood(children);
        GoodTokensAppend([Open(tag, attrs)], FlattenAll(children));
        GoodTokensAppend([Open(tag, attrs)] + FlattenAll(children), [Close(tag)]);
      case EmptyElement(_, _) =>
      case TextNode(_) =>
    }
  }

  lemma {:induction false} FlattenAllIsGood(ns: seq<Node>)
    requires GoodNodes(ns)
    ensures GoodTokens(FlattenAll(ns))
    ensures ns != [] ==> FlattenAll(ns) != [] && (FlattenAll(ns)[0].Chars? <==> ns[0].TextNode?)
    decreases ns, 0
  {
    if ns == [] {
    } else {
      FlattenIsGood(ns[0]);
      FlattenAllIsGood(ns[1..]);
      GoodTokensAppend(Flatten(ns[0]), FlattenAll(ns[1..]));
    }
  }

  /** Properly nested tokens as nodes. */
  function Nest(ts: seq<Token>): Option<seq<Node>> {
    match ParseNodes(ts)
    case Some((ns, rest)) => if rest == [] then Some(ns) else None
    case None => None
  }

  lemma NestFlattened(ns: seq<Node>)
    ensures Nest(FlattenAll(ns)) == Some(ns)
  {
    ParseFlattened(ns, []);
    assert FlattenAll(ns) + [] == FlattenAll(ns);
  }

  /** Read a whole document. */
  function Read(s: string): Option<seq<Node>> {
    match Tokenize(s)
    case None => None
    case Some(ts) => Nest(ts)
  }

  /** Reading undoes printing: the printed document is properly nested and comes back node by node, with
      every attribute value and all character data, whatever characters they contain. */
  lemma ReadPrinted(ns: seq<Node>)
    requires GoodNodes(ns)
    ensures Read(PrintNodes(ns)) == Some(ns)
  {
    FlattenAllIsGood(ns);
    TokenizePrinted(FlattenAll(ns));
    NestFlattened(ns);
  }
}
