/** The page wrapper of the Markdown renderer (scripts/md2html.py,
    `generate_html`): one fixed HTML template with the title, the timestamp
    and the rendered body put into it. The timestamp, which the program reads
    from the clock, is a parameter; the style sheet is an opaque constant. */
module HtmlPage {
  import opened Wrappers

  /** The fixed pieces of a page template, in page order. */
  datatype Frame = Frame(
    doctype: string, head: string, titleOpen: string, titleClose: string,
    style: string, titleDivOpen: string, divClose: string, timestampDivOpen: string,
    contentOpen: string, contentClose: string, footer: string, htmlClose: string)

  /** The doctype and the head up to the `<title>` element. */
  function Opening(f: Frame): string
  {
    f.doctype + f.head
  }

  /** The `<title>` element of the head. */
  function TitleElement(f: Frame, title: string): string
  {
    f.titleOpen + title + f.titleClose
  }

  /** The title shown in the page header. */
  function TitleDiv(f: Frame, title: string): string
  {
    f.titleDivOpen + title + f.divClose
  }

  /** The timestamp shown in the page header. */
  function TimestampDiv(f: Frame, timestamp: string): string
  {
    f.timestampDivOpen + timestamp + f.divClose
  }

  /** Everything up to the body. */
  function Before(f: Frame, title: string, timestamp: string): string
  {
    Opening(f) + TitleElement(f, title) + f.style + TitleDiv(f, title) + TimestampDiv(f, timestamp) + f.contentOpen
  }

  /** Everything after the body. */
  function After(f: Frame): string
  {
    f.contentClose + f.footer + f.htmlClose
  }

  /** A template filled in, piece by piece. */
  function Page(f: Frame, title: string, content: string, timestamp: string): string
  {
    Before(f, title, timestamp) + content + f.contentClose + f.footer + f.htmlClose
  }

  /** The page is the part before the body, the body, and the part after it. */
  lemma PageSplit(f: Frame, title: string, content: string, timestamp: string)
    ensures Page(f, title, content, timestamp) == Before(f, title, timestamp) + content + After(f)
  {
  }

  /** `x` occurs in `s` at offset `i`. */
  predicate OccursAt(s: string, x: string, i: nat)
  {
    i + |x| <= |s| && s[i..i + |x|] == x
  }

  /** A piece put at the end of `a` occurs at offset `|a|`. */
  lemma OccursAtEnd(a: string, x: string)
    ensures OccursAt(a + x, x, |a|)
  {
    assert (a + x)[|a|..|a| + |x|] == x;
  }

  /** Occurrence in a prefix is occurrence in the whole. */
  lemma OccursInPrefix(s: string, t: string, x: string, i: nat)
    requires OccursAt(s, x, i)
    ensures OccursAt(s + t, x, i)
  {
    assert (s + t)[i..i + |x|] == s[i..i + |x|];
  }

  /** Occurrence in `Before` is occurrence in the page. */
  lemma OccursBeforeBody(f: Frame, title: string, content: string, timestamp: string, x: string, i: nat)
    requires OccursAt(Before(f, title, timestamp), x, i)
    ensures OccursAt(Page(f, title, content, timestamp), x, i)
  {
    var s := Before(f, title, timestamp);
    OccursInPrefix(s, content, x, i);
    OccursInPrefix(s + content, f.contentClose, x, i);
    OccursInPrefix(s + content + f.contentClose, f.footer, x, i);
    OccursInPrefix(s + content + f.contentClose + f.footer, f.htmlClose, x, i);
  }

  /** Offset of the title element in the head. */
  function TitleElementAt(f: Frame): nat
  {
    |Opening(f)|
  }

  /** Offset of the title element of the page header. */
  function TitleDivAt(f: Frame, title: string): nat
  {
    |Opening(f)| + |TitleElement(f, title)| + |f.style|
  }

  /** The page starts with the doctype and ends with the closing tag. */
  lemma PageEnds(f: Frame, title: string, content: string, timestamp: string)
    ensures OccursAt(Page(f, title, content, timestamp), f.doctype, 0)
    ensures var page := Page(f, title, content, timestamp);
      OccursAt(page, f.htmlClose, |page| - |f.htmlClose|)
  {
    OccursAtEnd([], f.doctype);
    assert [] + f.doctype == f.doctype;
    OccursInPrefix(f.doctype, f.head, f.doctype, 0);
    var s1 := Opening(f) + TitleElement(f, title);
    OccursInPrefix(Opening(f), TitleElement(f, title), f.doctype, 0);
    OccursInPrefix(s1, f.style, f.doctype, 0);
    OccursInPrefix(s1 + f.style, TitleDiv(f, title), f.doctype, 0);
    OccursInPrefix(s1 + f.style + TitleDiv(f, title), TimestampDiv(f, timestamp), f.doctype, 0);
    OccursInPrefix(s1 + f.style + TitleDiv(f, title) + TimestampDiv(f, timestamp), f.contentOpen, f.doctype, 0);
    OccursBeforeBody(f, title, content, timestamp, f.doctype, 0);
    var s := Before(f, title, timestamp) + content + f.contentClose + f.footer;
    OccursAtEnd(s, f.htmlClose);
  }

  /** The title appears inside the `<title>` element of the head. */
  lemma PageTitleInHead(f: Frame, title: string, content: string, timestamp: string)
    ensures OccursAt(Page(f, title, content, timestamp), TitleElement(f, title), TitleElementAt(f))
  {
    var x := TitleElement(f, title);
    OccursAtEnd(Opening(f), x);
    OccursInPrefix(Opening(f) + x, f.style, x, |Opening(f)|);
    OccursInPrefix(Opening(f) + x + f.style, TitleDiv(f, title), x, |Opening(f)|);
    OccursInPrefix(Opening(f) + x + f.style + TitleDiv(f, title), TimestampDiv(f, timestamp), x, |Opening(f)|);
    OccursInPrefix(Opening(f) + x + f.style + TitleDiv(f, title) + TimestampDiv(f, timestamp), f.contentOpen, x, |Opening(f)|);
    OccursBeforeBody(f, title, content, timestamp, x, |Opening(f)|);
  }

  /** The title appears again in the title element of the page header, and
      the timestamp in the element right after it. */
  lemma PageHeader(f: Frame, title: string, content: string, timestamp: string)
    ensures OccursAt(Page(f, title, content, timestamp), TitleDiv(f, title), TitleDivAt(f, title))
    ensures OccursAt(Page(f, title, content, timestamp), TimestampDiv(f, timestamp),
      TitleDivAt(f, title) + |TitleDiv(f, title)|)
  {
    var s2 := Opening(f) + TitleElement(f, title) + f.style;
    var x := TitleDiv(f, title);
    var y := TimestampDiv(f, timestamp);
    OccursAtEnd(s2, x);
    OccursInPrefix(s2 + x, y, x, |s2|);
    OccursInPrefix(s2 + x + y, f.contentOpen, x, |s2|);
    OccursBeforeBody(f, title, content, timestamp, x, |s2|);
    OccursAtEnd(s2 + x, y);
    OccursInPrefix(s2 + x + y, f.contentOpen, y, |s2 + x|);
    OccursBeforeBody(f, title, content, timestamp, y, |s2 + x|);
  }

  /** The body recovered from a page, given the template, title and timestamp
      it was made with; `None` when the page does not have that frame. */
  function ContentOf(f: Frame, page: string, title: string, timestamp: string): (r: Option<string>)
    ensures r.Some? ==> page == Page(f, title, r.value, timestamp)
  {
    var b := Before(f, title, timestamp);
    if |b| + |After(f)| <= |page| && page[..|b|] == b && page[|page| - |After(f)|..] == After(f) then
      var c := page[|b|..|page| - |After(f)|];
      assert page == page[..|b|] + c + page[|page| - |After(f)|..];
      PageSplit(f, title, c, timestamp);
      Some(c)
    else None
  }

  /** The body is put into the page verbatim and can be read back. */
  lemma PageContentRoundTrip(f: Frame, title: string, content: string, timestamp: string)
    ensures ContentOf(f, Page(f, title, content, timestamp), title, timestamp) == Some(content)
  {
    var page := Page(f, title, content, timestamp);
    var b := Before(f, title, timestamp);
    PageSplit(f, title, content, timestamp);
    assert page[..|b|] == b;
    assert page[|page| - |After(f)|..] == After(f);
    assert page[|b|..|page| - |After(f)|] == content;
  }

  const HeadStart := "\n<html lang=\"en\">\n<head>\n    <meta charset=\"UTF-8\">\n"
  const Viewport := "    <meta name=\"viewport\" content=\"width=device-width, initial-scale=1.0\">\n    "
  const StyleOpen := "\n    <style>\n"
  /** The rules between the style tags: fixed text that does not depend on
      any argument; its characters are not modelled. */
  const StyleSheet: string
  const StyleClose := "    </style>\n</head>\n<body>\n"
  const HeaderOpen := "    <div class=\"container\">\n        <div class=\"header\">\n            "
  const FooterText := "            Generated by MD Viewer | Terminal-Work\n        </div>\n    </div>\n</body>\n"

  /** The template of `generate_html`. */
  const Template := Frame(
    "<!DOCTYPE html>", HeadStart + Viewport, "<title>", " - MD Viewer</title>",
    StyleOpen + StyleSheet + StyleClose + HeaderOpen, "<div class=\"title\">", "</div>",
    "\n            <div class=\"timestamp\">",
    "\n        </div>\n        <div class=\"content\">\n", "\n        </div>\n        <div class=\"footer\">\n",
    FooterText, "</html>")

  /** `generate_html` with the timestamp passed in. */
  function GenerateHtml(title: string, content: string, timestamp: string): (page: string)
  {
    Page(Template, title, content, timestamp)
  }

  /** The page is a complete document: it opens with the doctype and closes
      the `html` element. */
  lemma PageBoundaries(title: string, content: string, timestamp: string)
    ensures OccursAt(GenerateHtml(title, content, timestamp), Template.doctype, 0)
    ensures var page := GenerateHtml(title, content, timestamp);
      OccursAt(page, Template.htmlClose, |page| - |Template.htmlClose|)
    ensures Template.doctype == "<!DOCTYPE html>" && Template.htmlClose == "</html>"
  {
    PageEnds(Template, title, content, timestamp);
  }

  /** The title appears in the `<title>` element, followed by the viewer's name. */
  lemma TitleInHead(title: string, content: string, timestamp: string)
    ensures OccursAt(GenerateHtml(title, content, timestamp), TitleElement(Template, title), TitleElementAt(Template))
    ensures TitleElement(Template, title) == "<title>" + title + " - MD Viewer</title>"
  {
    PageTitleInHead(Template, title, content, timestamp);
  }

  /** The title appears again in the title element of the page header, and
      the timestamp in the element after it. */
  lemma TitleAndTimestampInHeader(title: string, content: string, timestamp: string)
    ensures OccursAt(GenerateHtml(title, content, timestamp), TitleDiv(Template, title), TitleDivAt(Template, title))
    ensures OccursAt(GenerateHtml(title, content, timestamp), TimestampDiv(Template, timestamp),
      TitleDivAt(Template, title) + |TitleDiv(Template, title)|)
    ensures TitleDiv(Template, title) == "<div class=\"title\">" + title + "</div>"
  {
    PageHeader(Template, title, content, timestamp);
  }

  /** The body is put into the page verbatim: `ContentOf` reads it back. */
  lemma ContentRoundTrip(title: string, content: string, timestamp: string)
    ensures ContentOf(Template, GenerateHtml(title, content, timestamp), title, timestamp) == Some(content)
  {
    PageContentRoundTrip(Template, title, content, timestamp);
  }

  /** Different bodies give different pages. */
  lemma ContentInjective(title: string, c1: string, c2: string, timestamp: string)
    requires GenerateHtml(title, c1, timestamp) == GenerateHtml(title, c2, timestamp)
    ensures c1 == c2
  {
    ContentRoundTrip(title, c1, timestamp);
    ContentRoundTrip(title, c2, timestamp);
  }
}
