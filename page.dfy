/**
 * The page template (src/main.rs:98-226): a fixed head, the title, the fixed
 * style block and body opening, the date, a fixed separator, the rendered HTML
 * fragment and a fixed tail. The three holes are filled verbatim, without escaping.
 * The style rules are kept as one opaque constant (`StyleRules`), not byte for byte.
 */
module Page {
  import opened Wrappers

  const Doctype: string := "<!DOCTYPE html>"
  const TitleOpen: string := "<title>"
  const TitleClose: string := "</title>"
  const DateOpen: string := "<div class=\"date\">"
  const DateClose: string := "</div>"
  const HtmlClose: string := "</html>"

  /** Stand-in for the embedded dark-theme style sheet. */
  const StyleRules: string :=
    "        /* dark theme: :root variables, body, .container, .date, h1, h2, p, a, code, pre, img, .subtitle, table, th, td, thead */\n"

  /** The fixed text around the three holes of a page: title, date and fragment. */
  datatype Template = Template(head: string, afterTitle: string, afterDate: string, tail: string)

  /** The template of the published page. */
  const PageTemplate: Template := Template(
    Doctype + "\n<html lang=\"en\">\n<head>\n    <meta charset=\"UTF-8\">\n"
      + "    <meta name=\"viewport\" content=\"width=device-width, initial-scale=1.0\">\n    " + TitleOpen,
    TitleClose + "\n    <style>\n" + StyleRules
      + "    </style>\n</head>\n<body>\n    <div class=\"container\">\n        " + DateOpen,
    DateClose + "\n        ",
    "\n    </div>\n</body>\n" + HtmlClose)

  /** The template is an HTML document with a doctype, the title hole inside the `title`
      element, the date hole inside the date `div`, and a closing `html` tag. */
  predicate IsPageShaped(t: Template) {
    && |Doctype| <= |t.head| && t.head[..|Doctype|] == Doctype
    && |TitleOpen| <= |t.head| && t.head[|t.head| - |TitleOpen|..] == TitleOpen
    && |TitleClose| + |DateOpen| <= |t.afterTitle|
    && t.afterTitle[..|TitleClose|] == TitleClose
    && t.afterTitle[|t.afterTitle| - |DateOpen|..] == DateOpen
    && |DateClose| <= |t.afterDate| && t.afterDate[..|DateClose|] == DateClose
    && |HtmlClose| <= |t.tail| && t.tail[|t.tail| - |HtmlClose|..] == HtmlClose
  }

  lemma PageTemplateIsPageShaped()
    ensures IsPageShaped(PageTemplate)
  {
  }

  /** A template with its holes filled. */
  function Fill(t: Template, title: string, date: string, fragment: string): (page: string)
    ensures |page| == |t.head| + |t.afterTitle| + |t.afterDate| + |t.tail| + |title| + |date| + |fragment|
  {
    t.head + (title + (t.afterTitle + (date + (t.afterDate + (fragment + t.tail)))))
  }

  /** The full page for a title, a date label and a rendered fragment (src/main.rs:98-226). */
  function Render(title: string, date: string, fragment: string): (page: string)
    ensures |page| >= |Doctype| + |title| + |date| + |fragment| + |HtmlClose|
  {
    Fill(PageTemplate, title, date, fragment)
  }

  /** Where the date starts in a page with this title. */
  function DateAt(t: Template, title: string): nat { |t.head| + |title| + |t.afterTitle| }

  /** Where the fragment starts in a page with this title and date. */
  function FragmentAt(t: Template, title: string, date: string): nat
  {
    DateAt(t, title) + |date| + |t.afterDate|
  }

  /**
   * The inverse of `Fill`, given how long the title and the date are: strips the fixed
   * parts of the page one by one and reads the title, date and fragment out of the holes.
   */
  function Unfill(t: Template, page: string, titleLen: nat, dateLen: nat): (holes: Option<(string, string, string)>)
    ensures holes.Some? ==> |holes.value.0| == titleLen && |holes.value.1| == dateLen
  {
    if !(t.head <= page) then None else
    var r1 := page[|t.head|..];
    if |r1| < titleLen then None else
    var r2 := r1[titleLen..];
    if !(t.afterTitle <= r2) then None else
    var r3 := r2[|t.afterTitle|..];
    if |r3| < dateLen then None else
    var r4 := r3[dateLen..];
    if !(t.afterDate <= r4) then None else
    var r5 := r4[|t.afterDate|..];
    if |r5| < |t.tail| || r5[|r5| - |t.tail|..] != t.tail then None else
    Some((r1[..titleLen], r3[..dateLen], r5[..|r5| - |t.tail|]))
  }

  /** A filled page reads back to what was filled in. */
  lemma FillThenUnfill(t: Template, title: string, date: string, fragment: string)
    ensures Unfill(t, Fill(t, title, date, fragment), |title|, |date|) == Some((title, date, fragment))
  {
  }

  /** Only a page filled with the three strings reads back to them. */
  lemma UnfillThenFill(t: Template, page: string, title: string, date: string, fragment: string)
    requires Unfill(t, page, |title|, |date|) == Some((title, date, fragment))
    ensures page == Fill(t, title, date, fragment)
  {
  }

  /** Reading the holes back gives exactly what was filled in, and only a page filled
      with those three strings reads back to them. */
  lemma UnfillFill(t: Template, page: string, title: string, date: string, fragment: string)
    ensures Unfill(t, page, |title|, |date|) == Some((title, date, fragment))
        <==> page == Fill(t, title, date, fragment)
  {
  }

  /** Pages with equally long titles and dates are equal only when all three holes are. */
  lemma RenderInjective(t1: string, d1: string, f1: string, t2: string, d2: string, f2: string)
    requires |t1| == |t2| && |d1| == |d2|
    requires Render(t1, d1, f1) == Render(t2, d2, f2)
    ensures t1 == t2 && d1 == d2 && f1 == f2
  {
    var page := Render(t1, d1, f1);
    UnfillFill(PageTemplate, page, t1, d1, f1);
    UnfillFill(PageTemplate, page, t2, d2, f2);
  }

  /** A page-shaped template filled in is a whole HTML document: it starts with the
      doctype and ends with "</html>". */
  lemma FillFrame(t: Template, title: string, date: string, fragment: string)
    requires IsPageShaped(t)
    ensures Fill(t, title, date, fragment)[..|Doctype|] == Doctype
    ensures Fill(t, title, date, fragment)[|Fill(t, title, date, fragment)| - |HtmlClose|..] == HtmlClose
  {
  }

  /** In a page-shaped template filled in, the title sits verbatim between "<title>" and
      "</title>". */
  lemma FillTitle(t: Template, title: string, date: string, fragment: string)
    requires IsPageShaped(t)
    ensures Fill(t, title, date, fragment)[|t.head| - |TitleOpen|..|t.head| + |title| + |TitleClose|]
            == TitleOpen + title + TitleClose
  {
  }

  /** In a page-shaped template filled in, the date sits verbatim in the date `div`. */
  lemma FillDate(t: Template, title: string, date: string, fragment: string)
    requires IsPageShaped(t)
    ensures Fill(t, title, date, fragment)[DateAt(t, title) - |DateOpen|..DateAt(t, title) + |date| + |DateClose|]
            == DateOpen + date + DateClose
  {
  }

  /** In a page-shaped template filled in, the date `div` closes before the fragment, which
      follows verbatim. */
  lemma FillFragmentAfterDate(t: Template, title: string, date: string, fragment: string)
    requires IsPageShaped(t)
    ensures DateAt(t, title) + |date| + |DateClose| <= FragmentAt(t, title, date)
    ensures Fill(t, title, date, fragment)[FragmentAt(t, title, date)..FragmentAt(t, title, date) + |fragment|]
            == fragment
  {
  }

  /** The published page starts with the doctype and ends with "</html>" (src/main.rs:99, 224). */
  lemma RenderFrame(title: string, date: string, fragment: string)
    ensures Render(title, date, fragment)[..|Doctype|] == Doctype
    ensures Render(title, date, fragment)[|Render(title, date, fragment)| - |HtmlClose|..] == HtmlClose
  {
    PageTemplateIsPageShaped();
    FillFrame(PageTemplate, title, date, fragment);
  }

  /** The published page holds "<title>", the title verbatim, "</title>" (src/main.rs:104). */
  lemma RenderTitle(title: string, date: string, fragment: string)
    ensures var k := |PageTemplate.head|;
      Render(title, date, fragment)[k - |TitleOpen|..k + |title| + |TitleClose|] == TitleOpen + title + TitleClose
  {
    PageTemplateIsPageShaped();
    FillTitle(PageTemplate, title, date, fragment);
  }

  /** The published page holds the date verbatim in the date `div`, and the fragment
      verbatim after it (src/main.rs:220-221). */
  lemma RenderDateThenFragment(title: string, date: string, fragment: string)
    ensures var d := DateAt(PageTemplate, title);
      Render(title, date, fragment)[d - |DateOpen|..d + |date| + |DateClose|] == DateOpen + date + DateClose
    ensures var d, f := DateAt(PageTemplate, title), FragmentAt(PageTemplate, title, date);
      d + |date| + |DateClose| <= f && Render(title, date, fragment)[f..f + |fragment|] == fragment
  {
    PageTemplateIsPageShaped();
    FillDate(PageTemplate, title, date, fragment);
    FillFragmentAfterDate(PageTemplate, title, date, fragment);
  }
}
