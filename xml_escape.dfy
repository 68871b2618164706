/** Escaping of character data with the three predefined entities of
    section 2.4 of the XML 1.0 Recommendation, as `xml.sax.saxutils.escape`
    does it when no extra entities are given. */
module XmlEscape {
  import opened Text

  /** `s.replace(c, with)` for a one-character pattern. */
  function Replace(s: string, c: char, with: string): (r: string)
  {
    if |s| == 0 then "" else (if s[0] == c then with else [s[0]]) + Replace(s[1..], c, with)
  }

  /** `escape(s)`: the library replaces `&` first, then `>`, then `<`. */
  function Escape(s: string): string
  {
    Replace(Replace(Replace(s, '&', "&amp;"), '>', "&gt;"), '<', "&lt;")
  }

  /** Reference definition: each character on its own. */
  function EscapeChar(c: char): string
  {
    if c == '&' then "&amp;" else if c == '<' then "&lt;" else if c == '>' then "&gt;" else [c]
  }

  function EscapeEach(s: string): string
  {
    if |s| == 0 then "" else EscapeChar(s[0]) + EscapeEach(s[1..])
  }

  /** Reading back the three entities; every other character stands for itself. */
  function Unescape(s: string): string
  {
    if |s| == 0 then ""
    else if |s| >= 5 && s[..5] == "&amp;" then "&" + Unescape(s[5..])
    else if |s| >= 4 && s[..4] == "&lt;" then "<" + Unescape(s[4..])
    else if |s| >= 4 && s[..4] == "&gt;" then ">" + Unescape(s[4..])
    else [s[0]] + Unescape(s[1..])
  }

  lemma {:induction false} ReplaceAbsent(s: string, c: char, with: string)
    requires c !in s
    ensures Replace(s, c, with) == s
  {
    if |s| > 0 {
      ReplaceAbsent(s[1..], c, with);
      assert [s[0]] + s[1..] == s;
    }
  }

  lemma {:induction false} ReplaceConcat(a: string, b: string, c: char, with: string)
    ensures Replace(a + b, c, with) == Replace(a, c, with) + Replace(b, c, with)
  {
    if |a| > 0 {
      assert (a + b)[0] == a[0];
      assert (a + b)[1..] == a[1..] + b;
      ReplaceConcat(a[1..], b, c, with);
    } else {
      assert a + b == b;
    }
  }

  /** The replace chain escapes character by character: replacing `&`
      first keeps the later passes from touching the entities it wrote. */
  lemma {:induction false} EscapeIsPerCharacter(s: string)
    ensures Escape(s) == EscapeEach(s)
  {
    if |s| > 0 {
      var c, rest := s[0], s[1..];
      var amp := Replace(s, '&', "&amp;");
      var head := if c == '&' then "&amp;" else [c];
      assert amp == head + Replace(rest, '&', "&amp;");
      ReplaceConcat(head, Replace(rest, '&', "&amp;"), '>', "&gt;");
      var gtHead := if c == '>' then "&gt;" else head;
      if c == '&' {
        ReplaceAbsent(head, '>', "&gt;");
      } else {
        assert Replace(head, '>', "&gt;") == gtHead + Replace("", '>', "&gt;");
      }
      ReplaceConcat(gtHead, Replace(Replace(rest, '&', "&amp;"), '>', "&gt;"), '<', "&lt;");
      if c == '&' || c == '>' {
        ReplaceAbsent(gtHead, '<', "&lt;");
      } else {
        assert Replace(gtHead, '<', "&lt;") == (if c == '<' then "&lt;" else gtHead) + Replace("", '<', "&lt;");
      }
      EscapeIsPerCharacter(rest);
    }
  }

  /** Escaped text holds no markup characters. */
  lemma {:induction false} EscapeEachHasNoMarkup(s: string)
    ensures '<' !in EscapeEach(s) && '>' !in EscapeEach(s)
  {
    if |s| > 0 {
      EscapeEachHasNoMarkup(s[1..]);
    }
  }

  /** Unescape undoes the per-character escape. */
  lemma {:induction false} UnescapeEscapeEach(s: string)
    ensures Unescape(EscapeEach(s)) == s
  {
    if |s| > 0 {
      var c, rest := s[0], s[1..];
      var e := EscapeEach(rest);
      UnescapeEscapeEach(rest);
      var t := EscapeChar(c) + e;
      assert EscapeEach(s) == t;
      if c == '&' {
        assert t[..5] == "&amp;" && t[5..] == e;
        assert Unescape(t) == "&" + Unescape(e);
      } else if c == '<' {
        assert t[..4] == "&lt;" && t[4..] == e;
        assert !(|t| >= 5 && t[..5] == "&amp;") by { assert t[1] == 'l'; }
        assert Unescape(t) == "<" + Unescape(e);
      } else if c == '>' {
        assert t[..4] == "&gt;" && t[4..] == e;
        assert !(|t| >= 5 && t[..5] == "&amp;") by { assert t[1] == 'g'; }
        assert !(t[..4] == "&lt;") by { assert t[1] == 'g'; }
        assert Unescape(t) == ">" + Unescape(e);
      } else {
        assert t[0] == c && t[1..] == e;
        assert |t| >= 4 ==> t[..4][0] == c;
        assert |t| >= 5 ==> t[..5][0] == c;
        assert Unescape(t) == [c] + Unescape(e);
      }
      assert [c] + rest == s;
    }
  }

  /** What `escape` promises its callers: no markup characters survive, and
      the original text can be read back. */
  lemma EscapeRoundTrip(s: string)
    ensures '<' !in Escape(s) && '>' !in Escape(s)
    ensures Unescape(Escape(s)) == s
  {
    EscapeIsPerCharacter(s);
    EscapeEachHasNoMarkup(s);
    UnescapeEscapeEach(s);
  }

  /** An `&` in the text shows up as `&amp;` in the escaped text. */
  lemma {:induction false} EscapeAmpersand(s: string)
    requires '&' in s
    ensures Contains(Escape(s), "&amp;")
  {
    EscapeIsPerCharacter(s);
    EscapeEachAmpersand(s);
  }

  lemma {:induction false} EscapeEachAmpersand(s: string)
    requires '&' in s
    ensures Contains(EscapeEach(s), "&amp;")
  {
    if s[0] == '&' {
      assert EscapeEach(s) == "" + "&amp;" + EscapeEach(s[1..]);
      ContainsMiddle("", "&amp;", EscapeEach(s[1..]));
    } else {
      EscapeEachAmpersand(s[1..]);
      assert EscapeEach(s) == EscapeChar(s[0]) + EscapeEach(s[1..]) + "";
      ContainsWithin(EscapeChar(s[0]), EscapeEach(s[1..]), "", "&amp;");
    }
  }
}
