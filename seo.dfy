/** The SEO helpers of `src/lib/seo.ts`: the robots.txt builder (the
    `User-agent`, `Allow` and `Disallow` lines of RFC 9309, sections 2.2.1
    and 2.2.2, plus a `Sitemap` line), the schema.org JSON-LD objects, the
    sitemap entry and the page metadata. Optional arguments are `Option`s,
    `None` standing for `undefined`, so destructuring defaults apply
    exactly when the value is `None`. */
module Seo {
  import opened Wrappers
  import Json
  import Strings

  // ---------------------------------------------------------------- robots

  /** The options of `generateRobotsTxt`. */
  datatype RobotsOptions = RobotsOptions(allowAll: Option<bool>, disallow: Option<seq<string>>, sitemap: Option<string>)

  /** `if (sitemap)`: present and not the empty string. */
  predicate HasSitemap(o: RobotsOptions) {
    o.sitemap.Some? && o.sitemap.value != ""
  }

  /** The lines before the `Disallow` lines: the group for every user
      agent and, when `allowAll`, `Allow: /`. */
  function RobotsHead(allowAll: bool): seq<string> {
    ["User-agent: *"] + (if allowAll then ["Allow: /"] else [])
  }

  function DisallowLine(path: string): string {
    "Disallow: " + path
  }

  /** The lines after the `Disallow` lines: when a sitemap is given, an
      empty line and the `Sitemap` line. */
  function SitemapLines(o: RobotsOptions): seq<string> {
    if HasSitemap(o) then ["", "Sitemap: " + o.sitemap.value] else []
  }

  /** The lines of the robots text, each of which is written followed by a
      newline; `allowAll` defaults to true and `disallow` to none. */
  function RobotsLines(o: RobotsOptions): seq<string> {
    RobotsHead(o.allowAll.GetOr(true)) + Strings.Map(o.disallow.GetOr([]), DisallowLine) + SitemapLines(o)
  }

  /** The user-agent line first, `Allow: /` next when `allowAll`, one
      `Disallow` line per path in order, and last an empty line and the
      `Sitemap` line when a sitemap is given. */
  lemma {:induction false} RobotsLinesShape(o: RobotsOptions)
    ensures var ls := RobotsLines(o);
      var a := if o.allowAll.GetOr(true) then 1 else 0;
      var paths := o.disallow.GetOr([]);
      |ls| == 1 + a + |paths| + (if HasSitemap(o) then 2 else 0)
      && ls[0] == "User-agent: *"
      && (a == 1 ==> ls[1] == "Allow: /")
      && (forall k :: 0 <= k < |paths| ==> ls[1 + a + k] == "Disallow: " + paths[k])
      && (HasSitemap(o) ==> ls[|ls| - 2] == "" && ls[|ls| - 1] == "Sitemap: " + o.sitemap.value)
  {
    var ls := RobotsLines(o);
    var h := RobotsHead(o.allowAll.GetOr(true));
    var ds := Strings.Map(o.disallow.GetOr([]), DisallowLine);
    forall k | 0 <= k < |ds| ensures ls[|h| + k] == ds[k] {
    }
  }

  /** The robots text: its lines, each ended by a newline. */
  function RobotsText(o: RobotsOptions): string {
    Strings.Lines(RobotsLines(o))
  }

  lemma {:induction false} RobotsHeadText(allowAll: bool)
    ensures Strings.Lines(RobotsHead(allowAll)) == "User-agent: *\n" + (if allowAll then "Allow: /\n" else "")
  {
    Strings.LinesSnoc([], "User-agent: *");
    if allowAll {
      Strings.LinesSnoc(["User-agent: *"], "Allow: /");
    } else {
      assert RobotsHead(allowAll) == ["User-agent: *"];
    }
  }

  /** The robots text is the text of its lines up to the last `Disallow`
      line, then the sitemap part. */
  lemma {:induction false} RobotsTextParts(o: RobotsOptions, body: seq<string>)
    requires body == RobotsHead(o.allowAll.GetOr(true)) + Strings.Map(o.disallow.GetOr([]), DisallowLine)
    ensures RobotsText(o) == Strings.Lines(body) + (if HasSitemap(o) then ("\nSitemap: " + o.sitemap.value + "\n") else "")
  {
    if HasSitemap(o) {
      var url := o.sitemap.value;
      Strings.LinesSnoc(body, "");
      Strings.LinesSnoc(body + [""], "Sitemap: " + url);
      assert RobotsLines(o) == (body + [""]) + ["Sitemap: " + url];
    } else {
      assert RobotsLines(o) == body;
    }
  }

  /** `generateRobotsTxt`: `content` grows by `+=`, one `Disallow` line per
      path. */
  method GenerateRobotsTxt(o: RobotsOptions) returns (content: string)
    ensures content == RobotsText(o)
  {
    var allowAll := o.allowAll.GetOr(true);
    var disallow := o.disallow.GetOr([]);
    ghost var ds := Strings.Map(disallow, DisallowLine);
    ghost var head := RobotsHead(allowAll);
    content := "User-agent: *\n";
    if allowAll {
      content := content + "Allow: /\n";
    }
    RobotsHeadText(allowAll);
    for i := 0 to |disallow|
      invariant content == Strings.Lines(head + ds[..i])
    {
      Strings.LinesPrefixStep(head, ds, i);
      content := content + ("Disallow: " + disallow[i] + "\n");
    }
    assert ds[..|disallow|] == ds;
    RobotsTextParts(o, head + ds);
    if HasSitemap(o) {
      content := content + ("\nSitemap: " + o.sitemap.value + "\n");
    }
  }

  /** Read back as lines, the robots text gives exactly its lines and then
      the empty text after the final newline, provided no path and no
      sitemap URL holds a newline; so it starts with the user-agent line,
      has `Allow: /` second exactly when `allowAll`, and so on. */
  lemma {:induction false} RobotsTextLines(o: RobotsOptions)
    requires forall k :: 0 <= k < |o.disallow.GetOr([])| ==> '\n' !in o.disallow.GetOr([])[k]
    requires o.sitemap.Some? ==> '\n' !in o.sitemap.value
    ensures Strings.Split(RobotsText(o), '\n') == RobotsLines(o) + [""]
  {
    var ls := RobotsLines(o);
    var paths := o.disallow.GetOr([]);
    var a := if o.allowAll.GetOr(true) then 1 else 0;
    RobotsLinesShape(o);
    forall k | 0 <= k < |ls| ensures '\n' !in ls[k] {
      if 1 + a <= k < 1 + a + |paths| {
        assert ls[k] == "Disallow: " + paths[k - 1 - a];
      }
    }
    Strings.LinesSplit(ls);
  }

  /** `Allow: /` is the second line exactly when `allowAll` holds or is
      absent. */
  lemma {:induction false} AllowLine(o: RobotsOptions)
    ensures var ls := RobotsLines(o); (|ls| > 1 && ls[1] == "Allow: /") <==> o.allowAll.GetOr(true)
  {
    var ls := RobotsLines(o);
    var paths := o.disallow.GetOr([]);
    RobotsLinesShape(o);
    if !o.allowAll.GetOr(true) && |ls| > 1 {
      if paths != [] {
        assert ls[1] == "Disallow: " + paths[0];
        assert ls[1][0] == 'D';
      } else {
        assert ls[1] == "";
      }
    }
  }

  // --------------------------------------------------------------- JSON-LD

  /** `generateJsonLd`: the schema.org context and the type, then the
      fields of `data`, which override both when they repeat them. */
  function JsonLd(ty: string, data: map<string, Json.Value>): (r: Json.Value)
    ensures r.Obj? && "@context" in r.fields && "@type" in r.fields
    ensures forall k :: k in r.fields <==> k in data || k == "@context" || k == "@type"
    ensures forall k :: k in data ==> r.fields[k] == data[k]
    ensures "@context" !in data ==> r.fields["@context"] == Json.Str("https://schema.org")
    ensures "@type" !in data ==> r.fields["@type"] == Json.Str(ty)
  {
    Json.Obj(map["@context" := Json.Str("https://schema.org"), "@type" := Json.Str(ty)] + data)
  }

  /** `generateOrganizationJsonLd`. */
  function OrganizationJsonLd(data: map<string, Json.Value>): (r: Json.Value)
    ensures "@type" !in data ==> r.Obj? && "@type" in r.fields && r.fields["@type"] == Json.Str("Organization")
  {
    JsonLd("Organization", data)
  }

  /** `generateArticleJsonLd`. */
  function ArticleJsonLd(data: map<string, Json.Value>): (r: Json.Value)
    ensures "@type" !in data ==> r.Obj? && "@type" in r.fields && r.fields["@type"] == Json.Str("Article")
  {
    JsonLd("Article", data)
  }

  /** One breadcrumb: a page name and its URL. */
  datatype Crumb = Crumb(name: string, url: string)

  function ListItem(position: nat, c: Crumb): Json.Value {
    Json.Obj(map["@type" := Json.Str("ListItem"), "position" := Json.Num(position),
                 "name" := Json.Str(c.name), "item" := Json.Str(c.url)])
  }

  /** The list items of the crumbs, numbered from `from + 1`. */
  function ListItems(items: seq<Crumb>, from: nat): (r: seq<Json.Value>)
    ensures |r| == |items|
    ensures forall k :: 0 <= k < |items| ==> r[k] == ListItem(from + k + 1, items[k])
  {
    if items == [] then [] else [ListItem(from + 1, items[0])] + ListItems(items[1..], from + 1)
  }

  /** `generateBreadcrumbJsonLd`: a `BreadcrumbList` with one `ListItem`
      per item, in order, the i-th (from 0) at position i + 1. */
  function BreadcrumbJsonLd(items: seq<Crumb>): (r: Json.Value)
    ensures r.Obj? && "@type" in r.fields && r.fields["@type"] == Json.Str("BreadcrumbList")
    ensures "itemListElement" in r.fields
    ensures var e := r.fields["itemListElement"];
      e.Arr? && |e.elems| == |items|
      && forall k :: 0 <= k < |items| ==> e.elems[k] == ListItem(k + 1, items[k])
  {
    JsonLd("BreadcrumbList", map["itemListElement" := Json.Arr(ListItems(items, 0))])
  }

  /** A string field of an object. */
  function StrField(v: Json.Value, k: string): Option<string> {
    if v.Obj? && k in v.fields && v.fields[k].Str? then Some(v.fields[k].s) else None
  }

  /** Reads crumbs back from list items, checking that positions count up
      from `from + 1`. */
  function ReadListItems(es: seq<Json.Value>, from: nat): Option<seq<Crumb>> {
    if es == [] then Some([])
    else
      var e := es[0];
      var rest := ReadListItems(es[1..], from + 1);
      if e.Obj? && "position" in e.fields && e.fields["position"] == Json.Num(from + 1)
         && StrField(e, "name").Some? && StrField(e, "item").Some? && rest.Some?
      then Some([Crumb(StrField(e, "name").value, StrField(e, "item").value)] + rest.value)
      else None
  }

  /** Reads the crumbs back from a breadcrumb list. */
  function ReadBreadcrumb(v: Json.Value): Option<seq<Crumb>> {
    if v.Obj? && "itemListElement" in v.fields && v.fields["itemListElement"].Arr?
    then ReadListItems(v.fields["itemListElement"].elems, 0)
    else None
  }

  lemma {:induction false} ReadListItemsRoundTrip(items: seq<Crumb>, from: nat)
    ensures ReadListItems(ListItems(items, from), from) == Some(items)
  {
    if items != [] {
      ReadListItemsRoundTrip(items[1..], from + 1);
      var es := ListItems(items, from);
      assert es[0] == ListItem(from + 1, items[0]);
      ListItemFields(from + 1, items[0]);
      assert es[1..] == ListItems(items[1..], from + 1);
      assert items == [items[0]] + items[1..];
    }
  }

  /** The fields a list item is read back from. */
  lemma {:induction false} ListItemFields(position: nat, c: Crumb)
    ensures var e := ListItem(position, c);
      e.Obj? && "position" in e.fields && e.fields["position"] == Json.Num(position)
      && StrField(e, "name") == Some(c.name) && StrField(e, "item") == Some(c.url)
  {
  }

  /** The breadcrumb list gives its crumbs back, names and URLs in order. */
  lemma {:induction false} BreadcrumbRoundTrip(items: seq<Crumb>)
    ensures ReadBreadcrumb(BreadcrumbJsonLd(items)) == Some(items)
  {
    ReadListItemsRoundTrip(items, 0);
  }

  /** One question and its answer. */
  datatype Faq = Faq(question: string, answer: string)

  function Question(f: Faq): Json.Value {
    Json.Obj(map["@type" := Json.Str("Question"), "name" := Json.Str(f.question),
                 "acceptedAnswer" := Json.Obj(map["@type" := Json.Str("Answer"), "text" := Json.Str(f.answer)])])
  }

  /** `generateFAQJsonLd`: an `FAQPage` with one `Question` per pair, in
      order. */
  function FaqJsonLd(faqs: seq<Faq>): (r: Json.Value)
    ensures r.Obj? && "@type" in r.fields && r.fields["@type"] == Json.Str("FAQPage")
    ensures "mainEntity" in r.fields
    ensures var e := r.fields["mainEntity"];
      e.Arr? && |e.elems| == |faqs| && forall k :: 0 <= k < |faqs| ==> e.elems[k] == Question(faqs[k])
  {
    JsonLd("FAQPage", map["mainEntity" := Json.Arr(Strings.Map(faqs, Question))])
  }

  /** Reads the pairs back from questions. */
  function ReadQuestions(es: seq<Json.Value>): Option<seq<Faq>> {
    if es == [] then Some([])
    else
      var e := es[0];
      var rest := ReadQuestions(es[1..]);
      var answer := if e.Obj? && "acceptedAnswer" in e.fields then StrField(e.fields["acceptedAnswer"], "text") else None;
      if StrField(e, "name").Some? && answer.Some? && rest.Some?
      then Some([Faq(StrField(e, "name").value, answer.value)] + rest.value)
      else None
  }

  lemma {:induction false} ReadQuestionsRoundTrip(faqs: seq<Faq>)
    ensures ReadQuestions(Strings.Map(faqs, Question)) == Some(faqs)
  {
    if faqs != [] {
      ReadQuestionsRoundTrip(faqs[1..]);
      assert Strings.Map(faqs, Question)[1..] == Strings.Map(faqs[1..], Question);
      assert faqs == [faqs[0]] + faqs[1..];
    }
  }

  /** The FAQ page gives every question back with its answer, in order. */
  lemma {:induction false} FaqRoundTrip(faqs: seq<Faq>)
    ensures var v := FaqJsonLd(faqs);
      v.Obj? && "mainEntity" in v.fields && v.fields["mainEntity"].Arr?
      && ReadQuestions(v.fields["mainEntity"].elems) == Some(faqs)
  {
    ReadQuestionsRoundTrip(faqs);
  }

  // --------------------------------------------------------------- sitemap

  datatype ChangeFreq = Always | Hourly | Daily | Weekly | Monthly | Yearly | Never

  datatype SitemapOptions = SitemapOptions(lastmod: Option<string>, changefreq: Option<ChangeFreq>, priority: Option<real>)

  datatype SitemapEntry = SitemapEntry(url: string, lastmod: string, changefreq: ChangeFreq, priority: real)

  /** `generateSitemapEntry`; `nowIso` is `new Date().toISOString()`. A
      given option is kept; an absent one takes its default: the current
      time, `weekly` and 0.5. */
  function SitemapEntryOf(url: string, o: SitemapOptions, nowIso: string): (r: SitemapEntry)
    ensures r.url == url
    ensures r.lastmod == (if o.lastmod.Some? then o.lastmod.value else nowIso)
    ensures r.changefreq == (if o.changefreq.Some? then o.changefreq.value else Weekly)
    ensures r.priority == (if o.priority.Some? then o.priority.value else 0.5)
  {
    SitemapEntry(url, o.lastmod.GetOr(nowIso), o.changefreq.GetOr(Weekly), o.priority.GetOr(0.5))
  }

  // -------------------------------------------------------------- metadata

  datatype PageType = Website | Article | Product

  datatype SeoConfig = SeoConfig(
    title: string, description: string, keywords: Option<seq<string>>, image: Option<string>,
    url: Option<string>, pageType: Option<PageType>, author: Option<string>,
    publishedTime: Option<string>, modifiedTime: Option<string>, locale: Option<string>,
    siteName: Option<string>)

  datatype OpenGraph = OpenGraph(
    title: string, description: string, url: Option<string>, siteName: string,
    images: Option<seq<string>>, locale: string, pageType: PageType,
    publishedTime: Option<string>, modifiedTime: Option<string>)

  datatype Twitter = Twitter(card: string, title: string, description: string, images: Option<seq<string>>)

  /** The metadata object; `authors` is the list of author names. */
  datatype Metadata = Metadata(
    title: string, description: string, keywords: string, authors: Option<seq<string>>,
    openGraph: OpenGraph, twitter: Twitter, canonical: Option<string>)

  /** A present, non-empty string: the truthy test `x ? … : undefined`. */
  predicate TruthyStr(x: Option<string>) {
    x.Some? && x.value != ""
  }

  /** `generateMetadata`. */
  function MetadataOf(c: SeoConfig): (m: Metadata)
    ensures m.title == c.title && m.openGraph.title == c.title && m.twitter.title == c.title
    ensures m.description == c.description && m.openGraph.description == c.description
      && m.twitter.description == c.description
    ensures m.keywords == Strings.Join(c.keywords.GetOr([]), ", ")
    ensures m.authors.Some? <==> TruthyStr(c.author)
    ensures m.authors.Some? ==> m.authors.value == [c.author.value]
    ensures m.openGraph.images.Some? <==> TruthyStr(c.image)
    ensures m.twitter.images.Some? <==> TruthyStr(c.image)
    ensures TruthyStr(c.image) ==> m.openGraph.images.value == [c.image.value] && m.twitter.images.value == [c.image.value]
    ensures m.openGraph.url == c.url && m.canonical == c.url
    ensures m.openGraph.siteName == (if c.siteName.Some? then c.siteName.value else "Buildo")
    ensures m.openGraph.locale == (if c.locale.Some? then c.locale.value else "nl_NL")
    ensures m.openGraph.pageType == (if c.pageType.Some? then c.pageType.value else Website)
    ensures m.openGraph.publishedTime == c.publishedTime && m.openGraph.modifiedTime == c.modifiedTime
    ensures m.twitter.card == "summary_large_image"
  {
    var images := if TruthyStr(c.image) then Some([c.image.value]) else None;
    Metadata(
      c.title, c.description, Strings.Join(c.keywords.GetOr([]), ", "),
      if TruthyStr(c.author) then Some([c.author.value]) else None,
      OpenGraph(c.title, c.description, c.url, c.siteName.GetOr("Buildo"), images,
                c.locale.GetOr("nl_NL"), c.pageType.GetOr(Website), c.publishedTime, c.modifiedTime),
      Twitter("summary_large_image", c.title, c.description, images),
      c.url)
  }

  /** The keyword text splits on commas into one piece per keyword, each
      but the first after one space, provided no keyword holds a comma. */
  lemma {:induction false} KeywordsSplit(c: SeoConfig)
    requires c.keywords.Some? && |c.keywords.value| >= 1
    requires forall k :: 0 <= k < |c.keywords.value| ==> ',' !in c.keywords.value[k]
    ensures Strings.Split(MetadataOf(c).keywords, ',') == Strings.SpacedAfterFirst(c.keywords.value)
  {
    var ks := c.keywords.value;
    Strings.JoinWithSpace(ks, ',');
    var sp := Strings.SpacedAfterFirst(ks);
    forall k | 0 <= k < |sp| ensures ',' !in sp[k] {
      if k > 0 {
        assert sp[k] == " " + ks[k];
      }
    }
    assert [',', ' '] == ", ";
    Strings.SplitJoin(sp, ',');
  }
}
