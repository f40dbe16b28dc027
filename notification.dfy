/** `notification_email` (mailer/notification.py): the e-mail sent when a
    search of the official gazette finds new matches. The recipients pass
    through, the subject falls back to a fixed default, and the HTML body is
    built by appending one list item per search term and one per highlight. */
module Notification {
  import opened Wrappers
  import opened Decimal
  import opened Gazette

  /** The parts of a search report the e-mail reads. */
  datatype SearchTerm = SearchTerm(term: string)
  datatype Highlight = Highlight(page: int, content: string)
  datatype Report = Report(publishDate: Date, count: int,
                           searchTerms: seq<SearchTerm>, highlights: seq<Highlight>)

  /** The e-mail: recipients, subject and HTML body (the plain-text body is
      rendered by a template engine and is not part of this model). */
  datatype Email = Email(to: seq<string>, subject: string, html: string)

  const DefaultSubject := "Novas notificações - Diário Oficial"

  // ---------- the fixed pieces of the HTML body ----------

  const Open0 := "\n    <html>\n    <body>\n        <h2>Novas notificações - Diário Oficial</h2>\n        <p style=\"margin-bottom: 20px;\">\n            <a href=\""
  const Open1 := "\" style=\"background-color: #007bff; color: white; padding: 10px 20px; text-decoration: none; border-radius: 5px; display: inline-block;\">\n                Acessar Diário Oficial de "
  const Open2 := "\n            </a>\n        </p>\n        <p>Foram encontradas "
  const Open3 := " novas notificações para o Diário Oficial do dia "
  const Open4 := " para os termos:</p>\n        <ul>\n    "
  const Middle := "\n        </ul>\n        <h3>Os trechos destacados são:</h3>\n        <ul>\n    "
  const Item0 := "\n        <li>\n            <strong>Página "
  const Item1 := ":</strong><br>\n            "
  const Item2 := "\n        </li>\n        "
  const Closing := "\n        </ul>\n    </body>\n    </html>\n    "

  /** The head of the body: the link button, the date shown twice and the
      number of new matches. */
  function Opening(link: string, shown: string, count: int): string {
    Open0 + link + Open1 + shown + OpeningTail(shown, count)
  }

  /** The rest of the head: the sentence with the count and the date, and the
      start of the term list. */
  function OpeningTail(shown: string, count: int): string {
    Open2 + IntString(count) + Open3 + shown + Open4
  }

  function TermItem(t: SearchTerm): string {
    "<li>" + t.term + "</li>"
  }

  function HighlightItem(h: Highlight): string {
    Item0 + IntString(h.page) + Item1 + h.content + Item2
  }

  /** The pieces `f(xs[0]) + f(xs[1]) + ...`, in order: what a loop of
      `body += f(x)` over `xs` appends. */
  function Join<T>(xs: seq<T>, f: T -> string): string {
    if xs == [] then [] else Join(xs[..|xs| - 1], f) + f(xs[|xs| - 1])
  }

  function TermsHtml(ts: seq<SearchTerm>): string {
    Join(ts, TermItem)
  }

  function HighlightsHtml(hs: seq<Highlight>): string {
    Join(hs, HighlightItem)
  }

  function ReportOpening(r: Report): string
    requires ValidDate(r.publishDate)
  {
    Opening(GazetteLink(r.publishDate), BrDate(r.publishDate), r.count)
  }

  /** The body after a given head: the term list, then the highlights. */
  function Body(opening: string, ts: seq<SearchTerm>, hs: seq<Highlight>): string {
    opening + TermsHtml(ts) + Middle + HighlightsHtml(hs) + Closing
  }

  /** The whole HTML body of the e-mail for report `r`. */
  function HtmlBody(r: Report): string
    requires ValidDate(r.publishDate)
  {
    Body(ReportOpening(r), r.searchTerms, r.highlights)
  }

  // ---------- reasoning about concatenations ----------

  lemma Assoc(a: string, b: string, c: string)
    ensures a + b + c == a + (b + c)
  { }

  lemma AppendEmpty(a: string)
    ensures a + [] == a
  { }

  lemma SliceLeft(a: string, b: string, i: nat, j: nat)
    requires i <= j <= |a|
    ensures (a + b)[i..j] == a[i..j]
  { }

  lemma SliceRight(a: string, b: string, i: nat, j: nat)
    requires |a| <= i <= j <= |a| + |b|
    ensures (a + b)[i..j] == b[i - |a|..j - |a|]
  { }

  lemma SliceAll(a: string)
    ensures a[0..|a|] == a
  { }

  // ---------- the operation ----------

  /** `notification_email(to, report, subject)`. */
  method NotificationEmail(to: seq<string>, report: Report, subject: Option<string>)
    returns (email: Email)
    requires ValidDate(report.publishDate)
    ensures email.to == to
    ensures subject.Some? && subject.value != [] ==> email.subject == subject.value
    ensures subject.None? || subject.value == [] ==> email.subject == DefaultSubject
    ensures email.html == HtmlBody(report)
  {
    var link := GazetteLink(report.publishDate);
    var shown := BrDate(report.publishDate);
    var opening := Opening(link, shown, report.count);
    var html := opening;
    var terms := report.searchTerms;
    var i := 0;
    AppendEmpty(opening);
    while i < |terms|
      invariant 0 <= i <= |terms|
      invariant html == opening + TermsHtml(terms[..i])
    {
      JoinPrefixStep(terms, i, TermItem);
      Assoc(opening, TermsHtml(terms[..i]), TermItem(terms[i]));
      html := html + TermItem(terms[i]);
      i := i + 1;
    }
    assert terms[..i] == terms;
    html := html + Middle;
    var highlights := report.highlights;
    var j := 0;
    AppendEmpty(html);
    var head := html;
    while j < |highlights|
      invariant 0 <= j <= |highlights|
      invariant html == head + HighlightsHtml(highlights[..j])
    {
      JoinPrefixStep(highlights, j, HighlightItem);
      Assoc(head, HighlightsHtml(highlights[..j]), HighlightItem(highlights[j]));
      html := html + HighlightItem(highlights[j]);
      j := j + 1;
    }
    assert highlights[..j] == highlights;
    html := html + Closing;
    var s := if subject.Some? && subject.value != [] then subject.value else DefaultSubject;
    email := Email(to, s, html);
  }

  // ---------- where each piece sits in the body ----------

  lemma {:induction false} JoinAppend<T>(a: seq<T>, b: seq<T>, f: T -> string)
    ensures Join(a + b, f) == Join(a, f) + Join(b, f)
  {
    if b == [] {
      assert a + b == a;
      AppendEmpty(Join(a, f));
    } else {
      assert (a + b)[..|a + b| - 1] == a + b[..|b| - 1];
      JoinAppend(a, b[..|b| - 1], f);
      Assoc(Join(a, f), Join(b[..|b| - 1], f), f(b[|b| - 1]));
    }
  }

  /** The items of `xs` split around the `i`-th one. */
  lemma JoinAround<T>(xs: seq<T>, i: nat, f: T -> string)
    requires i < |xs|
    ensures Join(xs, f) == Join(xs[..i], f) + f(xs[i]) + Join(xs[i + 1..], f)
  {
    var front, back := xs[..i], xs[i + 1..];
    assert xs == front + ([xs[i]] + back);
    JoinAppend(front, [xs[i]] + back, f);
    JoinAppend([xs[i]], back, f);
    JoinSingle(xs[i], f);
    Assoc(Join(front, f), f(xs[i]), Join(back, f));
  }

  /** One more loop iteration appends one more item. */
  lemma JoinPrefixStep<T>(xs: seq<T>, i: nat, f: T -> string)
    requires i < |xs|
    ensures Join(xs[..i + 1], f) == Join(xs[..i], f) + f(xs[i])
  {
    var front := xs[..i + 1];
    assert front[..|front| - 1] == xs[..i];
    assert front[|front| - 1] == xs[i];
  }

  lemma JoinSingle<T>(x: T, f: T -> string)
    ensures Join([x], f) == f(x)
  {
    assert [x][..0] == [];
  }

  /** The `i`-th item of `xs` sits in `Join(xs, f)` right after the items
      before it. */
  lemma JoinItemAt<T>(xs: seq<T>, i: nat, f: T -> string)
    requires i < |xs|
    ensures |Join(xs[..i], f)| + |f(xs[i])| <= |Join(xs, f)|
    ensures Join(xs, f)[|Join(xs[..i], f)|..|Join(xs[..i], f)| + |f(xs[i])|] == f(xs[i])
    ensures |Join(xs[..i + 1], f)| == |Join(xs[..i], f)| + |f(xs[i])|
  {
    JoinAround(xs, i, f);
    var x, y, z := Join(xs[..i], f), f(xs[i]), Join(xs[i + 1..], f);
    SliceLeft(x + y, z, |x|, |x| + |y|);
    SliceRight(x, y, |x|, |x| + |y|);
    SliceAll(y);
    JoinPrefixStep(xs, i, f);
  }

  /** Where the `i`-th term item starts in `Body(o, ts, hs)`. */
  function TermOffset(o: string, ts: seq<SearchTerm>, i: nat): nat
    requires i <= |ts|
  {
    |o| + |TermsHtml(ts[..i])|
  }

  /** Where the `i`-th highlight item starts in `Body(o, ts, hs)`. */
  function HighlightOffset(o: string, ts: seq<SearchTerm>, hs: seq<Highlight>, i: nat): nat
    requires i <= |hs|
  {
    |o + TermsHtml(ts) + Middle| + |HighlightsHtml(hs[..i])|
  }

  /** The `i`-th item inside `head + Join(xs, f) + tail`. */
  lemma JoinItemBetween<T>(head: string, xs: seq<T>, tail: string, i: nat, f: T -> string)
    requires i < |xs|
    ensures var p := |head| + |Join(xs[..i], f)|;
      p + |f(xs[i])| <= |head + Join(xs, f) + tail| &&
      (head + Join(xs, f) + tail)[p..p + |f(xs[i])|] == f(xs[i])
  {
    JoinItemAt(xs, i, f);
    var p := |head| + |Join(xs[..i], f)|;
    var q := p + |f(xs[i])|;
    SliceLeft(head + Join(xs, f), tail, p, q);
    SliceRight(head, Join(xs, f), p, q);
  }

  /** The `i`-th search term appears, unescaped, as `<li>term</li>` at its
      offset, and the next item starts right after it. */
  lemma TermItemAt(o: string, ts: seq<SearchTerm>, hs: seq<Highlight>, i: nat)
    requires i < |ts|
    ensures TermOffset(o, ts, i) + |TermItem(ts[i])| <= |Body(o, ts, hs)|
    ensures Body(o, ts, hs)[TermOffset(o, ts, i)..TermOffset(o, ts, i) + |TermItem(ts[i])|]
            == "<li>" + ts[i].term + "</li>"
    ensures TermOffset(o, ts, i + 1) == TermOffset(o, ts, i) + |TermItem(ts[i])|
  {
    JoinItemBetween(o, ts, [], i, TermItem);
    AppendEmpty(o + TermsHtml(ts));
    var p, q := TermOffset(o, ts, i), TermOffset(o, ts, i) + |TermItem(ts[i])|;
    SliceLeft(o + TermsHtml(ts) + Middle + HighlightsHtml(hs), Closing, p, q);
    SliceLeft(o + TermsHtml(ts) + Middle, HighlightsHtml(hs), p, q);
    SliceLeft(o + TermsHtml(ts), Middle, p, q);
    JoinPrefixStep(ts, i, TermItem);
  }

  /** The `i`-th highlight appears at its offset. */
  lemma HighlightItemAt(o: string, ts: seq<SearchTerm>, hs: seq<Highlight>, i: nat)
    requires i < |hs|
    ensures HighlightOffset(o, ts, hs, i) + |HighlightItem(hs[i])| <= |Body(o, ts, hs)|
    ensures Body(o, ts, hs)[HighlightOffset(o, ts, hs, i)..HighlightOffset(o, ts, hs, i) + |HighlightItem(hs[i])|]
            == HighlightItem(hs[i])
  {
    JoinItemBetween(o + TermsHtml(ts) + Middle, hs, Closing, i, HighlightItem);
  }

  /** The next highlight item starts right after the `i`-th one. */
  lemma HighlightOffsetStep(o: string, ts: seq<SearchTerm>, hs: seq<Highlight>, i: nat)
    requires i < |hs|
    ensures HighlightOffset(o, ts, hs, i + 1) == HighlightOffset(o, ts, hs, i) + |HighlightItem(hs[i])|
  {
    JoinPrefixStep(hs, i, HighlightItem);
  }

  /** A highlight item shows the page number and the content, unescaped. */
  lemma HighlightItemShows(h: Highlight)
    ensures |Item0| + |IntString(h.page)| + |Item1| + |h.content| <= |HighlightItem(h)|
    ensures HighlightItem(h)[|Item0|..|Item0| + |IntString(h.page)|] == IntString(h.page)
    ensures HighlightItem(h)[|Item0| + |IntString(h.page)| + |Item1|..
                             |Item0| + |IntString(h.page)| + |Item1| + |h.content|] == h.content
  {
    var p, c := IntString(h.page), h.content;
    var k := |Item0| + |p|;
    SliceLeft(Item0 + p + Item1 + c, Item2, |Item0|, k);
    SliceLeft(Item0 + p + Item1, c, |Item0|, k);
    SliceLeft(Item0 + p, Item1, |Item0|, k);
    SliceRight(Item0, p, |Item0|, k);
    SliceAll(p);
    SliceLeft(Item0 + p + Item1 + c, Item2, k + |Item1|, k + |Item1| + |c|);
    SliceRight(Item0 + p + Item1, c, k + |Item1|, k + |Item1| + |c|);
    SliceAll(c);
  }

  /** The items come in report order: every term item before every later
      term item, and all of them before the highlights. */
  lemma {:induction false} TermOffsetsOrdered(o: string, ts: seq<SearchTerm>, hs: seq<Highlight>,
                                              i: nat, j: nat)
    requires i < j <= |ts|
    ensures TermOffset(o, ts, i) + |TermItem(ts[i])| <= TermOffset(o, ts, j)
    ensures TermOffset(o, ts, j) <= HighlightOffset(o, ts, hs, 0)
    decreases j - i
  {
    TermItemAt(o, ts, hs, i);
    if i + 1 < j {
      TermOffsetsOrdered(o, ts, hs, i + 1, j);
    }
    assert ts[..j] + ts[j..] == ts;
    JoinAppend(ts[..j], ts[j..], TermItem);
  }

  lemma {:induction false} HighlightOffsetsOrdered(o: string, ts: seq<SearchTerm>, hs: seq<Highlight>,
                                                   i: nat, j: nat)
    requires i < j <= |hs|
    ensures HighlightOffset(o, ts, hs, i) + |HighlightItem(hs[i])| <= HighlightOffset(o, ts, hs, j)
    decreases j - i
  {
    HighlightOffsetStep(o, ts, hs, i);
    if i + 1 < j {
      HighlightOffsetsOrdered(o, ts, hs, i + 1, j);
    }
  }

  lemma LeadSlices(a: string, l: string, b: string, t: string, rest: string)
    ensures |a| + |l| + |b| + |t| <= |a + l + b + t + rest|
    ensures (a + l + b + t + rest)[|a|..|a| + |l|] == l
    ensures (a + l + b + t + rest)[|a| + |l| + |b|..|a| + |l| + |b| + |t|] == t
  {
    var i, j := |a|, |a| + |l|;
    SliceLeft(a + l + b + t, rest, i, j);
    SliceLeft(a + l + b, t, i, j);
    SliceLeft(a + l, b, i, j);
    SliceRight(a, l, i, j);
    SliceAll(l);
    var k, m := j + |b|, j + |b| + |t|;
    SliceLeft(a + l + b + t, rest, k, m);
    SliceRight(a + l + b, t, k, m);
    SliceAll(t);
  }

  /** The body keeps its head. */
  lemma BodyKeepsOpening(o: string, ts: seq<SearchTerm>, hs: seq<Highlight>, i: nat, j: nat)
    requires i <= j <= |o|
    ensures j <= |Body(o, ts, hs)| && Body(o, ts, hs)[i..j] == o[i..j]
  {
    SliceLeft(o + TermsHtml(ts) + Middle + HighlightsHtml(hs), Closing, i, j);
    SliceLeft(o + TermsHtml(ts) + Middle, HighlightsHtml(hs), i, j);
    SliceLeft(o + TermsHtml(ts), Middle, i, j);
    SliceLeft(o, TermsHtml(ts), i, j);
  }

  lemma BodyKeepsSlice(o: string, ts: seq<SearchTerm>, hs: seq<Highlight>, i: nat, j: nat, x: string)
    requires i <= j <= |o| && o[i..j] == x
    ensures j <= |Body(o, ts, hs)| && Body(o, ts, hs)[i..j] == x
  {
    BodyKeepsOpening(o, ts, hs, i, j);
  }

  /** A body whose head is `a + l + b + t + rest` shows `l` right after `a`. */
  lemma HeadShowsFirst(a: string, l: string, b: string, t: string, rest: string,
                       ts: seq<SearchTerm>, hs: seq<Highlight>)
    ensures |a| + |l| <= |Body(a + l + b + t + rest, ts, hs)|
    ensures Body(a + l + b + t + rest, ts, hs)[|a|..|a| + |l|] == l
  {
    LeadSlices(a, l, b, t, rest);
    BodyKeepsSlice(a + l + b + t + rest, ts, hs, |a|, |a| + |l|, l);
  }

  /** ... and `t` right after `a + l + b`. */
  lemma HeadShowsSecond(a: string, l: string, b: string, t: string, rest: string,
                        ts: seq<SearchTerm>, hs: seq<Highlight>)
    ensures |a| + |l| + |b| + |t| <= |Body(a + l + b + t + rest, ts, hs)|
    ensures Body(a + l + b + t + rest, ts, hs)[|a| + |l| + |b|..|a| + |l| + |b| + |t|] == t
  {
    LeadSlices(a, l, b, t, rest);
    BodyKeepsSlice(a + l + b + t + rest, ts, hs, |a| + |l| + |b|, |a| + |l| + |b| + |t|, t);
  }

  /** The button links to the gazette of the publish date. */
  lemma HtmlBodyShowsLink(r: Report)
    requires ValidDate(r.publishDate)
    ensures var link := GazetteLink(r.publishDate);
      && |Open0| + |link| <= |HtmlBody(r)|
      && HtmlBody(r)[|Open0|..|Open0| + |link|] == link
  {
    HeadShowsFirst(Open0, GazetteLink(r.publishDate), Open1, BrDate(r.publishDate),
                   OpeningTail(BrDate(r.publishDate), r.count), r.searchTerms, r.highlights);
  }

  /** The button's text ends with the publish date as `DD/MM/YYYY`. */
  lemma HtmlBodyShowsDate(r: Report)
    requires ValidDate(r.publishDate)
    ensures var i := |Open0| + |GazetteLink(r.publishDate)| + |Open1|;
      && i + |BrDate(r.publishDate)| <= |HtmlBody(r)|
      && HtmlBody(r)[i..i + |BrDate(r.publishDate)|] == BrDate(r.publishDate)
  {
    HeadShowsSecond(Open0, GazetteLink(r.publishDate), Open1, BrDate(r.publishDate),
                    OpeningTail(BrDate(r.publishDate), r.count), r.searchTerms, r.highlights);
  }
}
