/** The XML escaping of the advisory document: four global substitutions, one after the other. */
module Escape {
  import opened Strings

  /** `gsub` with a one-character pattern. */
  function Substitute(s: string, c: char, replacement: string): string {
    if s == "" then ""
    else (if s[0] == c then replacement else [s[0]]) + Substitute(s[1..], c, replacement)
  }

  function Entity(c: char): string {
    if c == '&' then "&amp;"
    else if c == '<' then "&lt;"
    else if c == '>' then "&gt;"
    else if c == '"' then "&quot;"
    else [c]
  }

  predicate IsSpecial(c: char) {
    c == '&' || c == '<' || c == '>' || c == '"'
  }

  /** The substitutions in the given order of characters. */
  function SubstituteAll(s: string, order: seq<char>): string
    decreases |order|
  {
    if order == [] then s else SubstituteAll(Substitute(s, order[0], Entity(order[0])), order[1..])
  }

  const ESCAPE_ORDER: seq<char> := ['&', '<', '>', '"']

  function Esc(s: string): string {
    SubstituteAll(s, ESCAPE_ORDER)
  }

  /** Every character replaced once, in a single pass. */
  function Fused(s: string): string {
    FusedOver(s, ESCAPE_ORDER)
  }

  /** The single pass for some of the special characters. */
  function FusedOver(s: string, done: seq<char>): string {
    if s == "" then ""
    else Piece(s[0], done) + FusedOver(s[1..], done)
  }

  function Piece(c: char, done: seq<char>): string {
    if c in done then Entity(c) else [c]
  }

  // ---------------------------------------------------------------- four passes are one

  lemma {:induction false} SubstituteAppend(a: string, b: string, c: char, replacement: string)
    ensures Substitute(a + b, c, replacement) == Substitute(a, c, replacement) + Substitute(b, c, replacement)
  {
    if a == "" {
      assert a + b == b;
    } else {
      SubstituteAppend(a[1..], b, c, replacement);
      assert Substitute(a + b, c, replacement) == (if a[0] == c then replacement else [a[0]])
          + Substitute(a[1..] + b, c, replacement) by {
        assert (a + b)[1..] == a[1..] + b;
      }
      hide Substitute;
      Associative(if a[0] == c then replacement else [a[0]], Substitute(a[1..], c, replacement),
          Substitute(b, c, replacement));
    }
  }

  lemma {:induction false} SubstituteAbsent(s: string, c: char, replacement: string)
    requires c !in s
    ensures Substitute(s, c, replacement) == s
  {
    if s == "" {
    } else {
      SubstituteAbsent(s[1..], c, replacement);
      assert s == [s[0]] + s[1..];
    }
  }

  lemma EntityHasNoOther(c: char, x: char)
    requires IsSpecial(c) && IsSpecial(x) && c != '&'
    ensures x != c ==> c !in Entity(x)
  {
  }

  /** Substituting one more character other than `&` extends the single pass, because the entities that
      are already there do not contain it. */
  lemma {:induction false} OneMorePass(s: string, done: seq<char>, c: char)
    requires IsSpecial(c) && c !in done && (forall x | x in done :: IsSpecial(x))
    requires done == [] || c != '&'
    ensures Substitute(FusedOver(s, done), c, Entity(c)) == FusedOver(s, done + [c])
  {
    if s == "" {
    } else {
      var x := s[0];
      var head := Piece(x, done);
      OneMorePass(s[1..], done, c);
      SubstituteAppend(head, FusedOver(s[1..], done), c, Entity(c));
      if x in done {
        EntityHasNoOther(c, x);
        SubstituteAbsent(head, c, Entity(c));
      } else {
        assert [x][1..] == "";
        assert Substitute([x], c, Entity(c)) == (if x == c then Entity(c) else [x]) + "";
      }
    }
  }

  /** An order names each special character exactly once. */
  predicate IsOrder(order: seq<char>) {
    |order| == 4 && (forall c | c in order :: IsSpecial(c)) && (forall i, j | 0 <= i < j < 4 :: order[i] != order[j])
  }

  lemma {:induction false} FusedOverNothing(s: string)
    ensures FusedOver(s, []) == s
  {
    if s == "" {
    } else {
      FusedOverNothing(s[1..]);
      assert s == [s[0]] + s[1..];
    }
  }

  lemma {:induction false} FusedOverAll(s: string, order: seq<char>)
    requires IsOrder(order)
    ensures FusedOver(s, order) == Fused(s)
  {
    assert order[0] in order && order[1] in order && order[2] in order && order[3] in order;
    assert forall c :: c in order <==> IsSpecial(c);
    assert IsOrder(ESCAPE_ORDER) && forall c :: c in ESCAPE_ORDER <==> IsSpecial(c);
    if s == "" {
    } else {
      FusedOverAll(s[1..], order);
    }
  }

  lemma AmpersandFirstIsFused(s: string, order: seq<char>)
    requires IsOrder(order) && order[0] == '&'
    ensures SubstituteAll(s, order) == Fused(s)
  {
    var o1, o2, o3, o4 := order[1..], order[2..], order[3..], order[4..];
    assert o1[1..] == o2 && o2[1..] == o3 && o3[1..] == o4 == [];
    var s1 := Substitute(s, order[0], Entity(order[0]));
    var s2 := Substitute(s1, order[1], Entity(order[1]));
    var s3 := Substitute(s2, order[2], Entity(order[2]));
    var s4 := Substitute(s3, order[3], Entity(order[3]));
    assert SubstituteAll(s, order) == SubstituteAll(s1, o1) == SubstituteAll(s2, o2) == SubstituteAll(s3, o3)
        == SubstituteAll(s4, o4);
    FusedOverNothing(s);
    OneMorePass(s, [], order[0]);
    assert [] + [order[0]] == order[..1];
    OneMorePass(s, order[..1], order[1]);
    assert order[..1] + [order[1]] == order[..2];
    OneMorePass(s, order[..2], order[2]);
    assert order[..2] + [order[2]] == order[..3];
    OneMorePass(s, order[..3], order[3]);
    assert order[..3] + [order[3]] == order;
    FusedOverAll(s, order);
  }

  lemma {:induction false} SubstituteGrows(s: string, c: char)
    ensures |Substitute(s, c, Entity(c))| >= |s|
    ensures IsSpecial(c) && c in s ==> |Substitute(s, c, Entity(c))| > |s|
    ensures c != '&' && '&' in s ==> '&' in Substitute(s, c, Entity(c))
  {
    if s == "" {
    } else {
      SubstituteGrows(s[1..], c);
    }
  }

  lemma {:induction false} LaterPassesGrow(s: string, order: seq<char>)
    requires forall c | c in order :: IsSpecial(c)
    ensures |SubstituteAll(s, order)| >= |s|
    ensures '&' in s && '&' in order ==> |SubstituteAll(s, order)| > |s|
    decreases |order|
  {
    if order == [] {
    } else {
      SubstituteGrows(s, order[0]);
      LaterPassesGrow(Substitute(s, order[0], Entity(order[0])), order[1..]);
    }
  }

  lemma Singleton(c: char)
    requires IsSpecial(c)
    ensures Substitute([c], c, Entity(c)) == Entity(c) == Fused([c])
  {
    var rest := [c][1..];
    assert rest == "";
    assert Entity(c) + "" == Entity(c);
    assert Substitute([c], c, Entity(c)) == Entity(c) + Substitute(rest, c, Entity(c));
    assert c in ESCAPE_ORDER;
    assert FusedOver([c], ESCAPE_ORDER) == Entity(c) + FusedOver(rest, ESCAPE_ORDER);
  }

  /** The four substitutions equal the single pass for all strings exactly for the orders that begin with
      the ampersand: any other order escapes the ampersands of its own entities. */
  lemma FusedIffAmpersandFirst(order: seq<char>)
    requires IsOrder(order)
    ensures (forall s :: SubstituteAll(s, order) == Fused(s)) <==> order[0] == '&'
  {
    if order[0] == '&' {
      forall s ensures SubstituteAll(s, order) == Fused(s) {
        AmpersandFirstIsFused(s, order);
      }
    } else {
      var c := order[0];
      assert order[0] in order && order[1] in order && order[2] in order && order[3] in order;
      assert '&' in order[1..] by {
        assert '&' == order[1] || '&' == order[2] || '&' == order[3];
        assert order[1..] == [order[1], order[2], order[3]];
      }
      var once := Substitute([c], c, Entity(c));
      Singleton(c);
      LaterPassesGrow(once, order[1..]);
      assert SubstituteAll([c], order) != Fused([c]);
    }
  }

  lemma EscIsFused(s: string)
    ensures Esc(s) == Fused(s)
  {
    AmpersandFirstIsFused(s, ESCAPE_ORDER);
  }

  lemma {:induction false} FusedAppend(a: string, b: string, done: seq<char>)
    ensures FusedOver(a + b, done) == FusedOver(a, done) + FusedOver(b, done)
  {
    hide Piece;
    if a == "" {
      assert a + b == b;
    } else {
      FusedAppend(a[1..], b, done);
      assert (a + b)[1..] == a[1..] + b;
      Associative(Piece(a[0], done), FusedOver(a[1..], done), FusedOver(b, done));
    }
  }

  lemma EscAppend(a: string, b: string)
    ensures Esc(a + b) == Esc(a) + Esc(b)
  {
    EscIsFused(a);
    EscIsFused(b);
    EscIsFused(a + b);
    FusedAppend(a, b, ESCAPE_ORDER);
  }

  lemma {:induction false} FusedHasNoMarkup(s: string)
    ensures '<' !in Fused(s) && '>' !in Fused(s) && '"' !in Fused(s)
  {
    if s == "" {
    } else {
      FusedHasNoMarkup(s[1..]);
      var head := Piece(s[0], ESCAPE_ORDER);
      assert Fused(s) == head + Fused(s[1..]);
      assert '<' !in head && '>' !in head && '"' !in head;
    }
  }

  /** Nothing in an escaped string can be taken for markup or for the end of an attribute value. */
  lemma EscHasNoMarkup(s: string)
    ensures '<' !in Esc(s) && '>' !in Esc(s) && '"' !in Esc(s)
  {
    EscIsFused(s);
    FusedHasNoMarkup(s);
  }

  // ---------------------------------------------------------------- reading back

  datatype Unescaped = Text(value: string) | Malformed

  function Prepend(c: char, u: Unescaped): Unescaped {
    if u.Text? then Text([c] + u.value) else Malformed
  }

  /** What an XML reader makes of character data: the predefined entities of section 4.6 of XML 1.0 that
      the document uses, and no bare ampersand (section 2.4). */
  function Unescape(s: string): Unescaped
    decreases |s|
  {
    if s == "" then Text("")
    else if s[0] != '&' then Prepend(s[0], Unescape(s[1..]))
    else if "&amp;" <= s then Prepend('&', Unescape(s[5..]))
    else if "&lt;" <= s then Prepend('<', Unescape(s[4..]))
    else if "&gt;" <= s then Prepend('>', Unescape(s[4..]))
    else if "&quot;" <= s then Prepend('"', Unescape(s[6..]))
    else Malformed
  }

  lemma UnescapeEntity(c: char, rest: string)
    ensures Unescape(Entity(c) + rest) == Prepend(c, Unescape(rest))
  {
    var e := Entity(c);
    var s := e + rest;
    assert s[|e|..] == rest;
    assert e <= s;
    assert s[0] == e[0];
    if IsSpecial(c) {
      assert s[1] == e[1];
      assert s[2] == e[2];
    }
  }

  /** Unescaping restores every string. */
  lemma {:induction false} UnescapeEsc(s: string)
    ensures Unescape(Esc(s)) == Text(s)
  {
    EscIsFused(s);
    if s == "" {
    } else {
      UnescapeEsc(s[1..]);
      EscIsFused(s[1..]);
      assert Fused(s) == Entity(s[0]) + Fused(s[1..]);
      UnescapeEntity(s[0], Fused(s[1..]));
      assert [s[0]] + s[1..] == s;
    }
  }
}
