/** What a full XML processor does before the application sees a document.  It refuses text with a character
    that XML does not allow (section 2.2 of XML 1.0), turns line ends into line feeds (section 2.11), and
    white space in attribute values into spaces (section 3.3.3).  The program escapes none of these
    characters, so values that contain them do not come back unchanged, or nothing comes back. */
module XmlProcessor {
  import opened Basics
  import opened Strings
  import opened Escape
  import opened Xml
  import U = UpdateInfo

  /** CR LF, and CR alone, become LF. */
  function LineEnds(s: string): string
    decreases |s|
  {
    if s == "" then ""
    else if s[0] == '\r' then ['\n'] + LineEnds(if |s| > 1 && s[1] == '\n' then s[2..] else s[1..])
    else [s[0]] + LineEnds(s[1..])
  }

  function Blank(c: char): char {
    if c == '\n' || c == '\r' || c == '\t' then ' ' else c
  }

  function Blanks(s: string): string {
    if s == "" then "" else [Blank(s[0])] + Blanks(s[1..])
  }

  function LineEndAttrs(attrs: seq<Attr>): seq<Attr> {
    if attrs == [] then [] else [Attr(attrs[0].name, LineEnds(attrs[0].value))] + LineEndAttrs(attrs[1..])
  }

  function LineEndToken(t: Token): Token {
    match t
    case Open(tag, attrs) => Open(tag, LineEndAttrs(attrs))
    case Single(tag, attrs) => Single(tag, LineEndAttrs(attrs))
    case Close(tag) => t
    case Chars(text) => Chars(LineEnds(text))
  }

  function LineEndTokens(ts: seq<Token>): seq<Token> {
    if ts == [] then [] else [LineEndToken(ts[0])] + LineEndTokens(ts[1..])
  }

  function BlankAttrs(attrs: seq<Attr>): seq<Attr> {
    if attrs == [] then [] else [Attr(attrs[0].name, Blanks(attrs[0].value))] + BlankAttrs(attrs[1..])
  }

  function BlankToken(t: Token): Token {
    match t
    case Open(tag, attrs) => Open(tag, BlankAttrs(attrs))
    case Single(tag, attrs) => Single(tag, BlankAttrs(attrs))
    case _ => t
  }

  function BlankTokens(ts: seq<Token>): seq<Token> {
    if ts == [] then [] else [BlankToken(ts[0])] + BlankTokens(ts[1..])
  }

  /** A Char of section 2.2; surrogates are not characters here. */
  predicate LegalChar(c: char) {
    c == '\t' || c == '\n' || c == '\r' || (c >= ' ' && c != '\U{FFFE}' && c != '\U{FFFF}')
  }

  predicate Legal(s: string) {
    forall i | 0 <= i < |s| :: LegalChar(s[i])
  }

  /** The tokens that a full processor reports for a text. */
  function Process(s: string): Option<seq<Token>> {
    if !Legal(s) then None
    else match Tokenize(LineEnds(s))
      case None => None
      case Some(ts) => Some(BlankTokens(ts))
  }

  // ---------------------------------------------------------------- line ends and printing

  /** How many characters the first step of `LineEnds` takes. */
  function Taken(s: string): (n: nat)
    requires s != ""
    ensures 1 <= n <= |s|
  {
    if s[0] == '\r' && |s| > 1 && s[1] == '\n' then 2 else 1
  }

  lemma LineEndsStep(s: string)
    requires s != ""
    ensures LineEnds(s) == [if s[0] == '\r' then '\n' else s[0]] + LineEnds(s[Taken(s)..])
  {
  }

  lemma SplitInside(a: string, b: string, skip: nat)
    requires 0 < skip <= |a|
    ensures (a + b)[skip..] == a[skip..] + b && (a + b)[0] == a[0]
  {
  }

  lemma {:induction false} LineEndsAppend(a: string, b: string)
    requires a == "" || b == "" || a[|a| - 1] != '\r' || b[0] != '\n'
    ensures LineEnds(a + b) == LineEnds(a) + LineEnds(b)
    decreases |a|
  {
    if a == "" {
      assert a + b == b;
    } else {
      var skip := Taken(a);
      LineEndsAppend(a[skip..], b);
      LineEndsStep(a);
      LineEndsStep(a + b);
      assert Taken(a + b) == skip;
      hide LineEnds, Taken;
      SplitInside(a, b, skip);
      Associative([if a[0] == '\r' then '\n' else a[0]], LineEnds(a[skip..]), LineEnds(b));
    }
  }

  lemma {:induction false} LineEndsLaw(s: string)
    ensures '\r' !in LineEnds(s)
    ensures LineEnds(s) == s <==> '\r' !in s
    ensures LineEnds(s) == "" <==> s == ""
    decreases |s|
  {
    if s == "" {
    } else {
      var skip := Taken(s);
      LineEndsLaw(s[skip..]);
      var c := if s[0] == '\r' then ['\n'] else [s[0]];
      assert LineEnds(s) == c + LineEnds(s[skip..]);
      assert s == [s[0]] + s[1..];
      if s[0] == '\r' {
        assert LineEnds(s)[0] == '\n';
      }
    }
  }

  lemma LineEndsOfPlain(c: char)
    requires c != '\r'
    ensures LineEnds(Piece(c, ESCAPE_ORDER)) == Piece(c, ESCAPE_ORDER)
  {
    LineEndsLaw(Piece(c, ESCAPE_ORDER));
  }

  /** Escaping and unifying line ends do not interfere. */
  lemma {:induction false} LineEndsOfEsc(s: string)
    ensures LineEnds(Esc(s)) == Esc(LineEnds(s))
    decreases |s|
  {
    if s == "" {
      EscIsFused(s);
    } else {
      var skip := Taken(s);
      var head, tail := s[..skip], s[skip..];
      LineEndsOfEsc(tail);
      assert s == head + tail;
      EscAppend(head, tail);
      LineEndsAppend(head, tail);
      HeadLineEnds(head);
      EscAppend(LineEnds(head), LineEnds(tail));
      assert head[|head| - 1] == '\r' ==> tail == "" || tail[0] != '\n';
      FirstOfEsc(tail);
      LineEndsAppend(Esc(head), Esc(tail));
    }
  }

  /** One character, or CR LF. */
  lemma HeadLineEnds(head: string)
    requires |head| == 1 || head == "\r\n"
    ensures LineEnds(Esc(head)) == Esc(LineEnds(head))
    ensures Esc(head) != "" && (Esc(head)[|Esc(head)| - 1] == '\r' ==> head[|head| - 1] == '\r')
  {
    if head == "\r\n" {
      ReturnAndFeed();
    } else {
      assert head == [head[0]];
      OneLineEnd(head[0]);
    }
  }

  lemma OneLineEnd(c: char)
    ensures LineEnds(Esc([c])) == Esc(LineEnds([c]))
    ensures Esc([c]) != "" && (Esc([c])[|Esc([c])| - 1] == '\r' ==> c == '\r')
  {
    EscOne(c);
    if c == '\r' {
      EscOne('\n');
      assert "\r"[1..] == "";
      assert LineEnds("\r") == ['\n'] + "";
    } else {
      LineEndsOfPlain(c);
      LineEndsLaw([c]);
    }
  }

  lemma ReturnAndFeed()
    ensures LineEnds("\r\n") == "\n" && Esc("\r\n") == "\r\n" && Esc("\n") == "\n"
  {
    U.PlainText("\r\n");
    U.PlainText("\n");
    assert "\r\n"[2..] == "";
    assert LineEnds("\r\n") == ['\n'] + "";
  }

  lemma EscOne(c: char)
    ensures Esc([c]) == Piece(c, ESCAPE_ORDER)
  {
    EscIsFused([c]);
    var rest := [c][1..];
    assert rest == "";
    assert FusedOver([c], ESCAPE_ORDER) == Piece(c, ESCAPE_ORDER) + FusedOver(rest, ESCAPE_ORDER);
    assert Piece(c, ESCAPE_ORDER) + "" == Piece(c, ESCAPE_ORDER);
  }

  lemma FirstOfEsc(s: string)
    ensures s != "" ==> Esc(s) != "" && (Esc(s)[0] == '\n' ==> s[0] == '\n')
    ensures s == "" ==> Esc(s) == ""
  {
    EscIsFused(s);
    if s != "" {
      assert Fused(s) == Piece(s[0], ESCAPE_ORDER) + Fused(s[1..]);
      assert Fused(s)[0] == Piece(s[0], ESCAPE_ORDER)[0];
    }
  }

  lemma LineEndsOfAttr(a: Attr)
    requires IsName(a.name)
    ensures LineEnds(PrintAttr(a)) == PrintAttr(Attr(a.name, LineEnds(a.value)))
  {
    var front, e := " " + a.name + "=\"", Esc(a.value);
    LineEndsOfEsc(a.value);
    LineEndsLaw(front);
    LineEndsLaw("\"");
    LineEndsAppend(e, "\"");
    LineEndsAppend(front, e + "\"");
    hide Esc;
    assert PrintAttr(a) == front + (e + "\"");
    assert PrintAttr(Attr(a.name, LineEnds(a.value))) == front + (LineEnds(e) + "\"");
  }

  lemma AttrEnds(a: Attr)
    ensures PrintAttr(a) != "" && PrintAttr(a)[0] == ' ' && PrintAttr(a)[|PrintAttr(a)| - 1] == '"'
  {
  }

  lemma {:induction false} LineEndsOfAttrs(attrs: seq<Attr>)
    requires GoodAttrs(attrs)
    ensures LineEnds(PrintAttrs(attrs)) == PrintAttrs(LineEndAttrs(attrs)) && GoodAttrs(LineEndAttrs(attrs))
    ensures attrs != [] ==>
              var s := PrintAttrs(attrs); s != "" && s[0] == ' ' && s[|s| - 1] == '"'
    ensures attrs == [] ==> PrintAttrs(attrs) == ""
  {
    hide PrintAttr;
    if attrs == [] {
    } else {
      LineEndsOfAttrs(attrs[1..]);
      LineEndsOfAttr(attrs[0]);
      AttrEnds(attrs[0]);
      LineEndsAppend(PrintAttr(attrs[0]), PrintAttrs(attrs[1..]));
      var b := Attr(attrs[0].name, LineEnds(attrs[0].value));
      U.AttrsOne(b, LineEndAttrs(attrs[1..]));
    }
  }

  /** Texts that neither end in CR nor begin with LF can be put together. */
  lemma LineEndsOfThree(a: string, b: string, c: string)
    requires a != "" && c != "" && '\r' !in a && '\r' !in c && c[0] != '\n' && (b == "" || b[0] != '\n')
    ensures LineEnds(a + b + c) == a + LineEnds(b) + c
  {
    LineEndsLaw(a);
    LineEndsLaw(c);
    LineEndsAppend(a, b);
    LineEndsAppend(a + b, c);
  }

  lemma LineEndsOfToken(t: Token)
    requires GoodToken(t)
    ensures LineEnds(PrintToken(t)) == PrintToken(LineEndToken(t)) && GoodToken(LineEndToken(t))
    ensures PrintToken(t) != ""
    ensures !t.Chars? ==> PrintToken(t)[0] == '<' && PrintToken(t)[|PrintToken(t)| - 1] == '>'
  {
    match t {
      case Open(tag, attrs) => LineEndsOfOpen(tag, attrs);
      case Single(tag, attrs) => LineEndsOfSingle(tag, attrs);
      case Close(tag) =>
        LineEndsLaw(PrintToken(t));
      case Chars(text) =>
        LineEndsOfEsc(text);
        LineEndsLaw(text);
        FirstOfEsc(text);
    }
  }

  lemma LineEndsOfOpen(tag: string, attrs: seq<Attr>)
    requires GoodToken(Open(tag, attrs))
    ensures LineEnds(PrintToken(Open(tag, attrs))) == PrintToken(Open(tag, LineEndAttrs(attrs)))
    ensures GoodAttrs(LineEndAttrs(attrs))
  {
    LineEndsOfAttrs(attrs);
    hide LineEnds, PrintAttrs;
    LineEndsOfThree("<" + tag, PrintAttrs(attrs), ">");
    Regroup(tag, PrintAttrs(attrs), ">");
    Regroup(tag, LineEnds(PrintAttrs(attrs)), ">");
  }

  lemma LineEndsOfSingle(tag: string, attrs: seq<Attr>)
    requires GoodToken(Single(tag, attrs))
    ensures LineEnds(PrintToken(Single(tag, attrs))) == PrintToken(Single(tag, LineEndAttrs(attrs)))
    ensures GoodAttrs(LineEndAttrs(attrs))
  {
    LineEndsOfAttrs(attrs);
    hide LineEnds, PrintAttrs;
    LineEndsOfThree("<" + tag, PrintAttrs(attrs), "/>");
    RegroupSingle(tag, PrintAttrs(attrs));
    RegroupSingle(tag, LineEnds(PrintAttrs(attrs)));
  }

  lemma Regroup(tag: string, a: string, end: string)
    ensures "<" + (tag + a) + end == ("<" + tag) + a + end
  {
  }

  lemma RegroupSingle(tag: string, a: string)
    ensures "<" + (tag + a + "/") + ">" == ("<" + tag) + a + "/>"
  {
  }

  lemma {:induction false} LineEndsOfTokens(ts: seq<Token>)
    requires GoodTokens(ts)
    ensures LineEnds(PrintTokens(ts)) == PrintTokens(LineEndTokens(ts)) && GoodTokens(LineEndTokens(ts))
    ensures |LineEndTokens(ts)| == |ts| && forall i | 0 <= i < |ts| :: LineEndTokens(ts)[i] == LineEndToken(ts[i])
    ensures ts != [] && !ts[0].Chars? ==> PrintTokens(ts) != "" && PrintTokens(ts)[0] == '<'
    ensures ts == [] ==> PrintTokens(ts) == ""
  {
    hide PrintToken, GoodToken;
    if ts == [] {
    } else {
      var rest := ts[1..];
      assert GoodTokens(rest);
      LineEndsOfTokens(rest);
      LineEndsOfToken(ts[0]);
      LineEndsAppend(PrintToken(ts[0]), PrintTokens(rest));
      assert LineEndTokens(ts)[1..] == LineEndTokens(rest);
      forall i | 0 <= i < |ts| ensures LineEndTokens(ts)[i] == LineEndToken(ts[i]) {
        if i > 0 {
          assert rest[i - 1] == ts[i];
        }
      }
      forall i | 0 <= i < |ts| ensures GoodToken(LineEndTokens(ts)[i]) {
        LineEndsOfToken(ts[i]);
      }
    }
  }

  // ---------------------------------------------------------------- what survives

  predicate NoBlanks(s: string) {
    '\n' !in s && '\r' !in s && '\t' !in s
  }

  /** The two ways in which a value fails to arrive: it is changed, or the document is refused. */
  datatype Hazard = WhiteSpace | IllegalCharacter

  /** An attribute value that is not affected. */
  predicate ValueSafe(h: Hazard, value: string) {
    match h
    case WhiteSpace => NoBlanks(value)
    case IllegalCharacter => Legal(value)
  }

  /** Character data that is not affected. */
  predicate TextSafe(h: Hazard, text: string) {
    match h
    case WhiteSpace => '\r' !in text
    case IllegalCharacter => Legal(text)
  }

  predicate SafeAttrs(h: Hazard, attrs: seq<Attr>) {
    forall i | 0 <= i < |attrs| :: ValueSafe(h, attrs[i].value)
  }

  predicate SafeToken(h: Hazard, t: Token) {
    match t
    case Open(_, attrs) => SafeAttrs(h, attrs)
    case Single(_, attrs) => SafeAttrs(h, attrs)
    case Close(_) => true
    case Chars(text) => TextSafe(h, text)
  }

  predicate Safe(h: Hazard, ts: seq<Token>) {
    forall i | 0 <= i < |ts| :: SafeToken(h, ts[i])
  }

  lemma {:induction false} BlanksLaw(s: string)
    ensures NoBlanks(Blanks(s)) && (NoBlanks(s) ==> Blanks(s) == s)
  {
    if s == "" {
    } else {
      BlanksLaw(s[1..]);
      assert s == [s[0]] + s[1..];
    }
  }

  lemma ValueSurvives(s: string)
    ensures Blanks(LineEnds(s)) == s <==> ValueSafe(WhiteSpace, s)
  {
    BlanksLaw(LineEnds(s));
    LineEndsLaw(s);
    BlanksLaw(s);
  }

  lemma {:induction false} AttrsSurvive(attrs: seq<Attr>)
    ensures BlankAttrs(LineEndAttrs(attrs)) == attrs <==> SafeAttrs(WhiteSpace, attrs)
  {
    if attrs == [] {
    } else {
      var a, rest := attrs[0], attrs[1..];
      AttrsSurvive(rest);
      ValueSurvives(a.value);
      assert LineEndAttrs(attrs)[1..] == LineEndAttrs(rest);
      var b := Attr(a.name, Blanks(LineEnds(a.value)));
      assert BlankAttrs(LineEndAttrs(attrs)) == [b] + BlankAttrs(LineEndAttrs(rest));
      assert attrs == [a] + rest;
      assert SafeAttrs(WhiteSpace, attrs) <==> ValueSafe(WhiteSpace, a.value) && SafeAttrs(WhiteSpace, rest);
      assert ([b] + BlankAttrs(LineEndAttrs(rest)))[1..] == BlankAttrs(LineEndAttrs(rest));
    }
  }

  lemma TokenSurvives(t: Token)
    ensures BlankToken(LineEndToken(t)) == t <==> Safe(WhiteSpace, [t])
  {
    assert Safe(WhiteSpace, [t]) <==> SafeToken(WhiteSpace, t) by {
      assert [t][0] == t;
    }
    match t {
      case Open(_, attrs) => AttrsSurvive(attrs);
      case Single(_, attrs) => AttrsSurvive(attrs);
      case Close(_) =>
      case Chars(text) => LineEndsLaw(text);
    }
  }

  lemma {:induction false} TokensSurvive(ts: seq<Token>)
    ensures BlankTokens(LineEndTokens(ts)) == ts <==> Safe(WhiteSpace, ts)
  {
    if ts == [] {
    } else {
      var t, rest := ts[0], ts[1..];
      TokensSurvive(rest);
      TokenSurvives(t);
      var u, us := BlankToken(LineEndToken(t)), BlankTokens(LineEndTokens(rest));
      assert BlankTokens(LineEndTokens(ts)) == [u] + us by {
        assert LineEndTokens(ts)[1..] == LineEndTokens(rest);
      }
      hide BlankTokens, LineEndTokens, BlankToken, LineEndToken, SafeToken;
      assert ts == [t] + rest;
      assert ([u] + us)[1..] == us && ([u] + us)[0] == u;
      assert Safe(WhiteSpace, ts) <==> Safe(WhiteSpace, [t]) && Safe(WhiteSpace, rest);
    }
  }

  // ---------------------------------------------------------------- legal characters

  lemma LegalAppend(a: string, b: string)
    ensures Legal(a + b) <==> Legal(a) && Legal(b)
  {
    hide LegalChar;
    assert forall i | 0 <= i < |a| :: (a + b)[i] == a[i];
    assert forall i | 0 <= i < |b| :: (a + b)[|a| + i] == b[i];
  }

  lemma LegalPiece(c: char)
    ensures Legal(Piece(c, ESCAPE_ORDER)) <==> LegalChar(c)
  {
    if !IsSpecial(c) {
      assert Piece(c, ESCAPE_ORDER) == [c];
      assert [c][0] == c;
    }
  }

  lemma {:induction false} LegalFused(s: string)
    ensures Legal(Fused(s)) <==> Legal(s)
  {
    if s == "" {
    } else {
      LegalFused(s[1..]);
      LegalPiece(s[0]);
      LegalAppend(Piece(s[0], ESCAPE_ORDER), Fused(s[1..]));
      LegalAppend([s[0]], s[1..]);
      assert s == [s[0]] + s[1..];
      assert Legal([s[0]]) <==> LegalChar(s[0]) by {
        assert [s[0]][0] == s[0];
      }
      hide Legal, Piece;
    }
  }

  /** Escaping neither removes nor adds an illegal character. */
  lemma LegalEsc(s: string)
    ensures Legal(Esc(s)) <==> Legal(s)
  {
    EscIsFused(s);
    LegalFused(s);
  }

  lemma NamesAreLegal(name: string)
    requires IsName(name)
    ensures Legal(name)
  {
  }

  lemma LegalAttr(a: Attr)
    requires IsName(a.name)
    ensures Legal(PrintAttr(a)) <==> Legal(a.value)
  {
    var front := " " + a.name + "=\"";
    NamesAreLegal(a.name);
    LegalEsc(a.value);
    assert Legal(front) && Legal("\"");
    LegalAppend(front, Esc(a.value));
    LegalAppend(front + Esc(a.value), "\"");
    hide Legal, Esc;
  }

  lemma {:induction false} LegalAttrs(attrs: seq<Attr>)
    requires GoodAttrs(attrs)
    ensures Legal(PrintAttrs(attrs)) <==> SafeAttrs(IllegalCharacter, attrs)
  {
    if attrs == [] {
    } else {
      LegalAttrs(attrs[1..]);
      LegalAttr(attrs[0]);
      LegalAppend(PrintAttr(attrs[0]), PrintAttrs(attrs[1..]));
      hide Legal, PrintAttr;
      assert attrs == [attrs[0]] + attrs[1..];
    }
  }

  lemma LegalTag(tag: string, attrs: seq<Attr>, slash: string)
    requires IsName(tag) && GoodAttrs(attrs) && (slash == "" || slash == "/")
    ensures Legal("<" + (tag + PrintAttrs(attrs) + slash) + ">") <==> SafeAttrs(IllegalCharacter, attrs)
  {
    var text := PrintAttrs(attrs);
    LegalAttrs(attrs);
    NamesAreLegal(tag);
    assert Legal("<") && Legal(">") && Legal(slash);
    hide Legal, PrintAttrs;
    LegalAppend("<" + (tag + text + slash), ">");
    LegalAppend("<", tag + text + slash);
    LegalAppend(tag + text, slash);
    LegalAppend(tag, text);
  }

  lemma LegalToken(t: Token)
    requires GoodToken(t)
    ensures Legal(PrintToken(t)) <==> SafeToken(IllegalCharacter, t)
  {
    match t {
      case Open(tag, attrs) =>
        LegalTag(tag, attrs, "");
        hide Legal;
        assert tag + PrintAttrs(attrs) + "" == tag + PrintAttrs(attrs);
      case Single(tag, attrs) => LegalTag(tag, attrs, "/");
      case Close(tag) => NamesAreLegal(tag);
      case Chars(text) => LegalEsc(text);
    }
  }

  /** A printed document is legal exactly if every attribute value and all character data in it are. */
  lemma {:induction false} LegalTokens(ts: seq<Token>)
    requires GoodTokens(ts)
    ensures Legal(PrintTokens(ts)) <==> Safe(IllegalCharacter, ts)
  {
    if ts == [] {
    } else {
      assert GoodTokens(ts[1..]);
      LegalTokens(ts[1..]);
      LegalToken(ts[0]);
      LegalAppend(PrintToken(ts[0]), PrintTokens(ts[1..]));
      hide Legal, PrintToken, SafeToken, GoodToken;
      assert ts == [ts[0]] + ts[1..];
    }
  }
}
