/// `generateRSSXML` of rss-generator.js: a fixed RSS 2.0 channel header,
/// one `<item>` block per activity in the order given, and the closing
/// tags. Only an item's title and description are escaped.
module JsRender {
  import opened Feed
  import opened Text
  import opened Escape
  import opened Blocks

  const ChannelTitle := "Jack O'Keeffe - Recent Activity"
  const ChannelDescription := "Recent activity from Jack O'Keeffe across GitHub, Mastodon, Nostr, and Letterboxd"
  const ChannelLink := "https://jackokeeffe.com"
  const ChannelLanguage := "en-US"

  /** The document up to the first item; `now` is the build time, already
      formatted, and stands in both date elements. */
  function Header(now: string): string
  {
    "<?xml version=\"1.0\" encoding=\"UTF-8\"?>\n"
    + "<rss version=\"2.0\" xmlns:atom=\"http://www.w3.org/2005/Atom\">\n"
    + "    <channel>\n"
    + "        <title>" + ChannelTitle + "</title>\n"
    + "        <description>" + ChannelDescription + "</description>\n"
    + "        <link>" + ChannelLink + "</link>\n"
    + "        <language>" + ChannelLanguage + "</language>\n"
    + "        <lastBuildDate>" + now + "</lastBuildDate>\n"
    + "        <pubDate>" + now + "</pubDate>\n"
    + "        <ttl>60</ttl>\n"
    + "        <atom:link href=\"" + ChannelLink + "/rss.xml\" rel=\"self\" type=\"application/rss+xml\" />\n"
    + "        \n"
  }

  const Footer := "    </channel>\n</rss>"

  const TitleOpen := "        <item>\n            <title>"
  const TitleToDescription := "</title>\n            <description>"

  /** The rest of an item after its description text. */
  function ItemTail(a: Activity, httpDate: int -> string): string
  {
    "</description>\n"
    + "            <link>" + a.link + "</link>\n"
    + "            <guid>" + a.guid + "</guid>\n"
    + "            <pubDate>" + httpDate(a.published) + "</pubDate>\n"
    + "            <category>" + PlatformName(a.platform) + "</category>\n"
    + "        </item>\n"
  }

  /** The block of one activity; `httpDate` is the date formatting of
      `toUTCString`. */
  function Item(a: Activity, httpDate: int -> string): string
  {
    TitleOpen + JsEscape(a.title) + TitleToDescription + JsEscape(a.description) + ItemTail(a, httpDate)
  }

  /** The block function of the loop. */
  function ItemBlock(httpDate: int -> string): Activity -> string
  {
    a => Item(a, httpDate)
  }

  /** `generateRSSXML`. */
  method GenerateRssXml(activities: seq<Activity>, now: string, httpDate: int -> string) returns (rss: string)
    ensures rss == Header(now) + Join(activities, ItemBlock(httpDate)) + Footer
  {
    var head, block := Header(now), ItemBlock(httpDate);
    rss := head;
    JoinNone(activities, block, head);
    for i := 0 to |activities|
      invariant rss == head + Join(activities[..i], block)
    {
      JoinStep(activities, i, block, head);
      rss := rss + block(activities[i]);
    }
    JoinWhole(activities, block);
    rss := rss + Footer;
  }

  /** Escaped text followed by a tag ends where the tag starts, and decodes
      to the original. */
  lemma ReadEscaped(x: string, rest: string)
    requires rest != [] && rest[0] == '<'
    ensures IndexOf(JsEscape(x) + rest, '<') == |JsEscape(x)|
    ensures DecodeXml(JsEscape(x)) == x && JsUnescape(JsEscape(x)) == x
  {
    var e := JsEscape(x);
    JsEscapeNoMarkup(x);
    assert (e + rest)[|e|] == '<';
    forall k | 0 <= k < |e| ensures (e + rest)[k] != '<' {
      assert (e + rest)[k] == e[k];
    }
    JsEscapeDecodes(x);
    JsEscapeRoundTrip(x);
  }

  /** Where the five pieces of an item stand. */
  lemma Pieces(o: string, x: string, m: string, y: string, t: string)
    ensures var b := o + x + m + y + t;
      b[..|o|] == o && b[|o|..] == x + (m + (y + t))
      && b[|o|..|o| + |x|] == x
      && b[|o| + |x|..|o| + |x| + |m|] == m
      && b[|o| + |x| + |m|..] == y + t
      && b[|o| + |x| + |m|..|o| + |x| + |m| + |y|] == y
  {
  }

  /** A reader of the item gets back the activity's title and description:
      each element's text runs to the next `<` and decodes to the field. */
  lemma ItemReadsBack(a: Activity, httpDate: int -> string)
    ensures var b := Item(a, httpDate);
      var p := |TitleOpen|;
      var q := p + |JsEscape(a.title)| + |TitleToDescription|;
      q <= |b| && b[..p] == TitleOpen && b[p + |JsEscape(a.title)|..q] == TitleToDescription
      && DecodeXml(ElementText(b, p)) == a.title
      && DecodeXml(ElementText(b, q)) == a.description
  {
    var b := Item(a, httpDate);
    var et, ed := JsEscape(a.title), JsEscape(a.description);
    var m, tail := TitleToDescription, ItemTail(a, httpDate);
    Pieces(TitleOpen, et, m, ed, tail);
    var p := |TitleOpen|;
    var q := p + |et| + |m|;
    assert m[0] == '<' && tail[0] == '<';
    ReadEscaped(a.title, m + (ed + tail));
    assert ElementText(b, p) == et;
    ReadEscaped(a.description, tail);
    assert ElementText(b, q) == ed;
  }
}
