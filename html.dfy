/** `escapeHtml`: five `replaceAll` calls in a row, `&` first, that turn the
    characters with a meaning in HTML markup into character references. */
module Html {
  /** `s.replaceAll(c, r)` for a one-character pattern: every occurrence of
      `c`, left to right, replaced by `r`. */
  function ReplaceAll(s: string, c: char, r: string): string {
    if s == [] then []
    else (if s[0] == c then r else [s[0]]) + ReplaceAll(s[1..], c, r)
  }

  /** Replacing in a concatenation is replacing in each part. */
  lemma {:induction false} ReplaceAllConcat(a: string, b: string, c: char, r: string)
    ensures ReplaceAll(a + b, c, r) == ReplaceAll(a, c, r) + ReplaceAll(b, c, r)
  {
    if a == [] {
      assert a + b == b;
    } else {
      var ab := a + b;
      assert ab[0] == a[0] && ab[1..] == a[1..] + b;
      ReplaceAllConcat(a[1..], b, c, r);
      var h := if a[0] == c then r else [a[0]];
      assert ReplaceAll(ab, c, r) == h + (ReplaceAll(a[1..], c, r) + ReplaceAll(b, c, r));
    }
  }

  lemma ReplaceAllOne(x: char, c: char, r: string)
    ensures ReplaceAll([x], c, r) == if x == c then r else [x]
  {
    assert [x][1..] == [];
  }

  /** A string without the pattern is left as it is. */
  lemma {:induction false} ReplaceAllAbsent(s: string, c: char, r: string)
    requires forall i :: 0 <= i < |s| ==> s[i] != c
    ensures ReplaceAll(s, c, r) == s
  {
    if s != [] {
      ReplaceAllAbsent(s[1..], c, r);
    }
  }

  /** The chain as `escapeHtml` writes it. */
  function Escape(s: string): string {
    var amp := ReplaceAll(s, '&', "&amp;");
    var lt := ReplaceAll(amp, '<', "&lt;");
    var gt := ReplaceAll(lt, '>', "&gt;");
    var quot := ReplaceAll(gt, '"', "&quot;");
    ReplaceAll(quot, '\'', "&#039;")
  }

  /** What one character becomes. */
  function EscapeChar(c: char): string {
    if c == '&' then "&amp;"
    else if c == '<' then "&lt;"
    else if c == '>' then "&gt;"
    else if c == '"' then "&quot;"
    else if c == '\'' then "&#039;"
    else [c]
  }

  /** The reference definition: each character escaped on its own. */
  function EscapeEach(s: string): string {
    if s == [] then [] else EscapeChar(s[0]) + EscapeEach(s[1..])
  }

  /** The chain acts on each part of a string separately. */
  lemma EscapeConcat(a: string, b: string)
    ensures Escape(a + b) == Escape(a) + Escape(b)
  {
    var amp := ReplaceAll(a, '&', "&amp;");
    var amp' := ReplaceAll(b, '&', "&amp;");
    ReplaceAllConcat(a, b, '&', "&amp;");
    var lt := ReplaceAll(amp, '<', "&lt;");
    var lt' := ReplaceAll(amp', '<', "&lt;");
    ReplaceAllConcat(amp, amp', '<', "&lt;");
    var gt := ReplaceAll(lt, '>', "&gt;");
    var gt' := ReplaceAll(lt', '>', "&gt;");
    ReplaceAllConcat(lt, lt', '>', "&gt;");
    ReplaceAllConcat(gt, gt', '"', "&quot;");
    ReplaceAllConcat(ReplaceAll(gt, '"', "&quot;"), ReplaceAll(gt', '"', "&quot;"), '\'', "&#039;");
  }

  /** A text without markup characters passes a markup replacement unchanged. */
  lemma Untouched(s: string, c: char, r: string)
    requires NoMarkup(s) && IsMarkup(c)
    ensures ReplaceAll(s, c, r) == s
  {
    ReplaceAllAbsent(s, c, r);
  }

  /** The reference written for each character; none holds a markup character,
      so the later replacements leave it alone. */
  lemma EscapeAmp()
    ensures Escape("&") == "&amp;"
  {
    var amp := "&amp;";
    assert NoMarkup(amp);
    ReplaceAllOne('&', '&', amp);
    Untouched(amp, '<', "&lt;");
    Untouched(amp, '>', "&gt;");
    Untouched(amp, '"', "&quot;");
    Untouched(amp, '\'', "&#039;");
  }

  lemma EscapeLt()
    ensures Escape("<") == "&lt;"
  {
    var lt := "&lt;";
    assert NoMarkup(lt);
    ReplaceAllOne('<', '&', "&amp;");
    ReplaceAllOne('<', '<', lt);
    Untouched(lt, '>', "&gt;");
    Untouched(lt, '"', "&quot;");
    Untouched(lt, '\'', "&#039;");
  }

  lemma EscapeGt()
    ensures Escape(">") == "&gt;"
  {
    var gt := "&gt;";
    assert NoMarkup(gt);
    ReplaceAllOne('>', '&', "&amp;");
    ReplaceAllOne('>', '<', "&lt;");
    ReplaceAllOne('>', '>', gt);
    Untouched(gt, '"', "&quot;");
    Untouched(gt, '\'', "&#039;");
  }

  lemma EscapeQuot()
    ensures Escape("\"") == "&quot;"
  {
    var quot := "&quot;";
    assert NoMarkup(quot);
    ReplaceAllOne('"', '&', "&amp;");
    ReplaceAllOne('"', '<', "&lt;");
    ReplaceAllOne('"', '>', "&gt;");
    ReplaceAllOne('"', '"', quot);
    Untouched(quot, '\'', "&#039;");
  }

  /** On one character the chain gives that character's reference: no
      replacement introduces a character a later one looks for. */
  lemma EscapeOne(c: char)
    ensures Escape([c]) == EscapeChar(c)
  {
    if c == '&' {
      EscapeAmp();
    } else if c == '<' {
      EscapeLt();
    } else if c == '>' {
      EscapeGt();
    } else if c == '"' {
      EscapeQuot();
    } else {
      ReplaceAllOne(c, '&', "&amp;");
      ReplaceAllOne(c, '<', "&lt;");
      ReplaceAllOne(c, '>', "&gt;");
      ReplaceAllOne(c, '"', "&quot;");
      ReplaceAllOne(c, '\'', "&#039;");
    }
  }

  /** Because `&` is replaced first, the chain escapes every character exactly
      once: no reference it writes is itself escaped again. */
  lemma {:induction false} EscapeIsEach(s: string)
    ensures Escape(s) == EscapeEach(s)
  {
    if s != [] {
      assert s == [s[0]] + s[1..];
      EscapeConcat([s[0]], s[1..]);
      EscapeOne(s[0]);
      EscapeIsEach(s[1..]);
    }
  }

  /** The characters that end or open markup or an attribute value. */
  predicate IsMarkup(c: char) {
    c == '<' || c == '>' || c == '"' || c == '\''
  }

  predicate NoMarkup(s: string) {
    forall i :: 0 <= i < |s| ==> !IsMarkup(s[i])
  }

  /** The escaped text holds none of them, so it cannot leave a text node or attribute. */
  lemma {:induction false} EscapeSafe(s: string)
    ensures NoMarkup(Escape(s))
  {
    EscapeIsEach(s);
    EachSafe(s);
  }

  lemma {:induction false} EachSafe(s: string)
    ensures NoMarkup(EscapeEach(s))
  {
    if s != [] {
      EachSafe(s[1..]);
      var h, t := EscapeChar(s[0]), EscapeEach(s[1..]);
      assert EscapeEach(s) == h + t;
      forall i | 0 <= i < |h + t| ensures !IsMarkup((h + t)[i]) {
        if i >= |h| {
          assert (h + t)[i] == t[i - |h|];
        }
      }
    }
  }

  /** Reading the references back: each of the five references stands for its
      character, everything else for itself. */
  function Unescape(s: string): string
    decreases |s|
  {
    if s == [] then []
    else if |s| >= 5 && s[..5] == "&amp;" then "&" + Unescape(s[5..])
    else if |s| >= 4 && s[..4] == "&lt;" then "<" + Unescape(s[4..])
    else if |s| >= 4 && s[..4] == "&gt;" then ">" + Unescape(s[4..])
    else if |s| >= 6 && s[..6] == "&quot;" then "\"" + Unescape(s[6..])
    else if |s| >= 6 && s[..6] == "&#039;" then "'" + Unescape(s[6..])
    else [s[0]] + Unescape(s[1..])
  }

  /** Decoding one escaped character in front of anything gives it back. */
  lemma UnescapeFront(c: char, t: string)
    ensures Unescape(EscapeChar(c) + t) == [c] + Unescape(t)
  {
    var h := EscapeChar(c);
    var e := h + t;
    assert e[..|h|] == h && e[|h|..] == t;
    if c == '&' {
      assert e[..5] == "&amp;";
    } else if c == '<' {
      assert e[..4] == "&lt;";
      assert |e| >= 5 ==> e[..5][1] == 'l';
    } else if c == '>' {
      assert e[..4] == "&gt;";
      assert |e| >= 5 ==> e[..5][1] == 'g';
      assert e[..4][1] == 'g';
    } else if c == '"' {
      assert e[..6] == "&quot;";
      assert e[..5][1] == 'q' && e[..4][1] == 'q';
    } else if c == '\'' {
      assert e[..6] == "&#039;";
      assert e[..5][1] == '#' && e[..4][1] == '#' && e[..6][1] == '#';
    } else {
      assert e[0] == c;
      assert |e| >= 4 ==> e[..4][0] == c;
      assert |e| >= 5 ==> e[..5][0] == c;
      assert |e| >= 6 ==> e[..6][0] == c;
      assert e[1..] == t;
    }
  }

  /** Escaping loses nothing: the references decode to the original text. */
  lemma {:induction false} UnescapeEscape(s: string)
    ensures Unescape(Escape(s)) == s
  {
    EscapeIsEach(s);
    UnescapeEach(s);
  }

  lemma {:induction false} UnescapeEach(s: string)
    ensures Unescape(EscapeEach(s)) == s
  {
    if s != [] {
      UnescapeFront(s[0], EscapeEach(s[1..]));
      UnescapeEach(s[1..]);
    }
  }

  /** Different texts stay different once escaped. */
  lemma EscapeInjective(a: string, b: string)
    requires Escape(a) == Escape(b)
    ensures a == b
  {
    UnescapeEscape(a);
    UnescapeEscape(b);
  }

  /** Text without special characters is shown as it is. */
  lemma {:induction false} EscapePlain(s: string)
    requires forall i :: 0 <= i < |s| ==> s[i] != '&' && !IsMarkup(s[i])
    ensures Escape(s) == s
  {
    EscapeIsEach(s);
    EachPlain(s);
  }

  lemma {:induction false} EachPlain(s: string)
    requires forall i :: 0 <= i < |s| ==> s[i] != '&' && !IsMarkup(s[i])
    ensures EscapeEach(s) == s
  {
    if s != [] {
      EachPlain(s[1..]);
      assert s == [s[0]] + s[1..];
    }
  }

  /** Replacing `&` after `<` instead would escape the reference for `<` a
      second time, where the chain gives `&lt;` (`EscapeLt`). */
  lemma AmpersandOrderMatters()
    ensures ReplaceAll(ReplaceAll("<", '<', "&lt;"), '&', "&amp;") == "&amp;lt;"
  {
    ReplaceAllOne('<', '<', "&lt;");
    var lt, tail := "&lt;", "lt;";
    assert lt == "&" + tail;
    ReplaceAllConcat("&", tail, '&', "&amp;");
    ReplaceAllOne('&', '&', "&amp;");
    assert forall i :: 0 <= i < |tail| ==> tail[i] != '&';
    ReplaceAllAbsent(tail, '&', "&amp;");
  }
}
