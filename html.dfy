/** The HTML escaping used when markup is built from user text: `escapeHtml`
    (main.js), which sets a detached element's `textContent` and reads back its
    `innerHTML`, and so performs the "escaping a string" step of the HTML
    Living Standard's fragment serialization in text (non-attribute) mode.
    Also the reading side: decoding the character references that the escapers
    produce, and reading a double-quoted attribute value back. */
module Html {

  /** The characters that have an entity form in this model. */
  predicate HasEntity(c: char) {
    c == '&' || c == '\U{00A0}' || c == '<' || c == '>' || c == '"'
  }

  /** The named character reference that the serializer writes for `c`. */
  function Entity(c: char): (r: string)
    requires HasEntity(c)
    ensures |r| >= 4 && r[0] == '&' && r[|r| - 1] == ';'
  {
    if c == '&' then "&amp;"
    else if c == '\U{00A0}' then "&nbsp;"
    else if c == '<' then "&lt;"
    else if c == '>' then "&gt;"
    else "&quot;"
  }

  /** The characters that text-mode escaping replaces: `"` is not among them. */
  predicate TextSpecial(c: char) {
    c == '&' || c == '\U{00A0}' || c == '<' || c == '>'
  }

  function EscapeTextChar(c: char): string {
    if TextSpecial(c) then Entity(c) else [c]
  }

  /** `escapeHtml`: each `&`, U+00A0, `<` and `>` becomes its character
      reference; every other character, `"` included, is copied. No `<` or `>`
      survives, so the result cannot open or close a tag. */
  function EscapeHtml(s: string): (r: string)
    ensures forall k :: 0 <= k < |r| ==> r[k] != '<' && r[k] != '>'
  {
    if s == [] then [] else EscapeTextChar(s[0]) + EscapeHtml(s[1..])
  }

  function StartsWith(t: string, p: string): bool {
    |p| <= |t| && t[..|p|] == p
  }

  /** Decodes the five named character references above; any other character,
      a lone `&` included, is copied. */
  function Unescape(t: string): string
    decreases |t|
  {
    if t == [] then []
    else if t[0] != '&' then [t[0]] + Unescape(t[1..])
    else if StartsWith(t, "&amp;") then ['&'] + Unescape(t[5..])
    else if StartsWith(t, "&nbsp;") then ['\U{00A0}'] + Unescape(t[6..])
    else if StartsWith(t, "&lt;") then ['<'] + Unescape(t[4..])
    else if StartsWith(t, "&gt;") then ['>'] + Unescape(t[4..])
    else if StartsWith(t, "&quot;") then ['"'] + Unescape(t[6..])
    else [t[0]] + Unescape(t[1..])
  }

  lemma StartsWithAppend(p: string, rest: string)
    ensures StartsWith(p + rest, p) && (p + rest)[|p|..] == rest
  {
    assert (p + rest)[..|p|] == p;
  }

  /** Two strings that differ in their second character do not start with
      each other. */
  lemma NotStartsWith(t: string, p: string)
    requires |t| >= 2 && |p| >= 2 && t[1] != p[1]
    ensures !StartsWith(t, p)
  {
    if |p| <= |t| { assert t[..|p|][1] == t[1]; }
  }

  /** Decoding an entity gives back its character. */
  lemma UnescapeEntity(c: char, rest: string)
    requires HasEntity(c)
    ensures Unescape(Entity(c) + rest) == [c] + Unescape(rest)
  {
    var e := Entity(c);
    var t := e + rest;
    StartsWithAppend(e, rest);
    assert t[0] == '&' && t[1] == e[1];
    if c != '&' {
      NotStartsWith(t, "&amp;");
    }
    if c != '&' && c != '\U{00A0}' {
      NotStartsWith(t, "&nbsp;");
    }
    if c == '>' || c == '"' {
      NotStartsWith(t, "&lt;");
    }
    if c == '"' {
      NotStartsWith(t, "&gt;");
    }
  }

  /** A character other than `&` decodes to itself. */
  lemma UnescapePlain(c: char, rest: string)
    requires c != '&'
    ensures Unescape([c] + rest) == [c] + Unescape(rest)
  {
    var t := [c] + rest;
    assert t[1..] == rest;
    assert t[0] == c;
  }

  /** Un-escaping the output of `escapeHtml` returns its input exactly: the
      literal text is recoverable from the rendered content. */
  lemma {:induction false} UnescapeEscapeHtml(s: string)
    ensures Unescape(EscapeHtml(s)) == s
  {
    if s != [] {
      if TextSpecial(s[0]) {
        UnescapeEntity(s[0], EscapeHtml(s[1..]));
      } else {
        UnescapePlain(s[0], EscapeHtml(s[1..]));
      }
      UnescapeEscapeHtml(s[1..]);
      assert s == [s[0]] + s[1..];
    }
  }

  /** A string without `&`, U+00A0, `<` or `>` (one made of quotes, say) is
      left exactly as it is. */
  lemma {:induction false} EscapeHtmlIdentity(s: string)
    requires forall k :: 0 <= k < |s| ==> !TextSpecial(s[k])
    ensures EscapeHtml(s) == s
  {
    if s != [] {
      EscapeHtmlIdentity(s[1..]);
      assert s == [s[0]] + s[1..];
    }
  }

  /** Escaping works character by character, so it distributes over
      concatenation. */
  lemma {:induction false} EscapeHtmlAppend(a: string, b: string)
    ensures EscapeHtml(a + b) == EscapeHtml(a) + EscapeHtml(b)
  {
    if a == [] {
      assert a + b == b;
    } else {
      assert (a + b)[0] == a[0] && (a + b)[1..] == a[1..] + b;
      EscapeHtmlAppend(a[1..], b);
    }
  }

  /** `"` is not escaped: it passes through at its place between the escaped
      text around it. */
  lemma EscapeHtmlKeepsQuote(a: string, b: string)
    ensures EscapeHtml(a + "\"" + b) == EscapeHtml(a) + "\"" + EscapeHtml(b)
  {
    EscapeHtmlAppend(a + "\"", b);
    EscapeHtmlAppend(a, "\"");
    EscapeHtmlIdentity("\"");
  }

  /** The double-quoted attribute value, as the tokenizer reads it from markup
      that starts right after the opening `"` of `name="...`: the characters up
      to the first `"`, with their character references decoded. Newline and
      NUL normalization are not modelled. */
  function AttributeValue(markup: string): string {
    Unescape(UntilQuote(markup))
  }

  /** The prefix of `t` before its first `"`. */
  function UntilQuote(t: string): (r: string)
    ensures |r| <= |t| && r == t[..|r|]
    ensures forall k :: 0 <= k < |r| ==> r[k] != '"'
    ensures |r| < |t| ==> t[|r|] == '"'
  {
    if t == [] || t[0] == '"' then [] else [t[0]] + UntilQuote(t[1..])
  }

  lemma {:induction false} UntilQuoteAppend(a: string, b: string)
    requires forall k :: 0 <= k < |a| ==> a[k] != '"'
    ensures UntilQuote(a + b) == a + UntilQuote(b)
  {
    if a == [] {
      assert a + b == b;
    } else {
      assert (a + b)[0] == a[0] && (a + b)[1..] == a[1..] + b;
      UntilQuoteAppend(a[1..], b);
    }
  }

  /** A text without `"` is its own quote-free prefix. */
  lemma UntilQuoteNoQuote(t: string)
    requires forall k :: 0 <= k < |t| ==> t[k] != '"'
    ensures UntilQuote(t) == t
  {
    UntilQuoteAppend(t, []);
    assert t + [] == t;
  }

  /** As written, `escapeHtml` output is placed inside `value="..."` (the term
      and e-mail row templates). Because it leaves `"` alone, the value a
      browser reads back is the given text cut at its first `"`. */
  lemma {:induction false} EscapeHtmlInAttribute(v: string, rest: string)
    ensures AttributeValue(EscapeHtml(v) + "\"" + rest) == UntilQuote(v)
  {
    if v == [] {
      assert EscapeHtml(v) + "\"" + rest == "\"" + rest;
    } else {
      var c := v[0];
      var e := EscapeTextChar(c);
      assert EscapeHtml(v) + "\"" + rest == e + (EscapeHtml(v[1..]) + "\"" + rest);
      if c == '"' {
        assert (e + (EscapeHtml(v[1..]) + "\"" + rest))[0] == '"';
      } else {
        assert forall k :: 0 <= k < |e| ==> e[k] != '"';
        UntilQuoteAppend(e, EscapeHtml(v[1..]) + "\"" + rest);
        EscapeHtmlInAttribute(v[1..], rest);
        if TextSpecial(c) {
          UnescapeEntity(c, UntilQuote(EscapeHtml(v[1..]) + "\"" + rest));
        } else {
          UnescapePlain(c, UntilQuote(EscapeHtml(v[1..]) + "\"" + rest));
        }
        assert UntilQuote(v) == [c] + UntilQuote(v[1..]);
      }
    }
  }

  /** The concrete case: the term `say "hi"` comes back as `say `. */
  lemma EscapeHtmlTruncatesQuotedTerm()
    ensures AttributeValue(EscapeHtml("say \"hi\"") + "\"") != "say \"hi\""
  {
    var v := "say \"hi\"";
    EscapeHtmlInAttribute(v, "");
    assert EscapeHtml(v) + "\"" + "" == EscapeHtml(v) + "\"";
    assert v == "say " + "\"hi\"";
    UntilQuoteAppend("say ", "\"hi\"");
    assert |UntilQuote(v)| == 4;
  }

  function EscapeAttributeChar(c: char): string {
    if HasEntity(c) then Entity(c) else [c]
  }

  /** Escaping for a double-quoted attribute value: like `escapeHtml`, and `"`
      becomes `&quot;` as well. The result holds no `"`, `<` or `>`. */
  function EscapeAttribute(s: string): (r: string)
    ensures forall k :: 0 <= k < |r| ==> r[k] != '"' && r[k] != '<' && r[k] != '>'
  {
    if s == [] then [] else EscapeAttributeChar(s[0]) + EscapeAttribute(s[1..])
  }

  /** With attribute escaping the browser reads back the given value exactly,
      whatever follows the closing quote. */
  lemma {:induction false} EscapeAttributeRoundTrip(v: string, rest: string)
    ensures AttributeValue(EscapeAttribute(v) + "\"" + rest) == v
  {
    UntilQuoteAppend(EscapeAttribute(v), "\"" + rest);
    assert EscapeAttribute(v) + "\"" + rest == EscapeAttribute(v) + ("\"" + rest);
    UnescapeEscapeAttribute(v);
  }

  lemma {:induction false} UnescapeEscapeAttribute(s: string)
    ensures Unescape(EscapeAttribute(s)) == s
  {
    if s != [] {
      if HasEntity(s[0]) {
        UnescapeEntity(s[0], EscapeAttribute(s[1..]));
      } else {
        UnescapePlain(s[0], EscapeAttribute(s[1..]));
      }
      UnescapeEscapeAttribute(s[1..]);
      assert s == [s[0]] + s[1..];
    }
  }
}
