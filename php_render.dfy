/// The template at the end of rss.php: the XML declaration echoed by
/// `echo`, a fixed RSS 2.0 channel header, one `<item>` block per activity
/// from the `foreach`, and the closing tags. PHP drops the newline right
/// after each `?>`, so the declaration and `<rss>` share a line and every
/// block ends with the indentation of the `endforeach` line. Every field but
/// the dates goes through `htmlspecialchars`.
module PhpRender {
  import opened Feed
  import opened Escape
  import opened Blocks
  import opened Text

  /** The settings at the top of the script that the template echoes. */
  datatype Channel = Channel(title: string, description: string, link: string, language: string)

  const Settings := Channel(
    "Jack O'Keeffe - Recent Activity",
    "Recent activity from Jack O'Keeffe across GitHub, Mastodon, Nostr, and Letterboxd",
    "https://jackokeeffe.com",
    "en-US")

  /** The output up to the first item. `lastBuildDate` and `pubDate` are
      the two calls of `date('r')`, each with the clock as it was then. */
  function Header(c: Channel, lastBuildDate: string, pubDate: string): string
  {
    "<?xml version=\"1.0\" encoding=\"UTF-8\"?>"
    + "<rss version=\"2.0\" xmlns:atom=\"http://www.w3.org/2005/Atom\">\n"
    + "    <channel>\n"
    + "        <title>" + HtmlSpecialChars(c.title) + "</title>\n"
    + "        <description>" + HtmlSpecialChars(c.description) + "</description>\n"
    + "        <link>" + HtmlSpecialChars(c.link) + "</link>\n"
    + "        <language>" + HtmlSpecialChars(c.language) + "</language>\n"
    + "        <lastBuildDate>" + lastBuildDate + "</lastBuildDate>\n"
    + "        <pubDate>" + pubDate + "</pubDate>\n"
    + "        <ttl>60</ttl>\n"
    + "        <atom:link href=\"" + HtmlSpecialChars(c.link) + "/rss.php\" rel=\"self\" type=\"application/rss+xml\" />\n"
    + "        \n"
    + "        "
  }

  const Footer := "    </channel>\n</rss>"

  const ItemOpen := "        <item>\n            <title>"
  const TitleClose := "</title>\n            <description>"
  const DescriptionClose := "</description>\n            <link>"
  const LinkClose := "</link>\n            <guid>"

  /** The rest of a block after the guid text; `rfc2822` is `date('r', ·)`. */
  function ItemTail(a: Activity, rfc2822: int -> string): string
  {
    "</guid>\n"
    + "            <pubDate>" + rfc2822(a.published) + "</pubDate>\n"
    + "            <category>" + HtmlSpecialChars(PlatformName(a.platform)) + "</category>\n"
    + "        </item>\n"
    + "        "
  }

  /** The output of one pass of the `foreach`. */
  function Item(a: Activity, rfc2822: int -> string): string
  {
    ItemOpen + HtmlSpecialChars(a.title) + TitleClose + HtmlSpecialChars(a.description)
    + DescriptionClose + HtmlSpecialChars(a.link) + LinkClose + HtmlSpecialChars(a.guid)
    + ItemTail(a, rfc2822)
  }

  /** The block function of the `foreach`. */
  function ItemBlock(rfc2822: int -> string): Activity -> string
  {
    a => Item(a, rfc2822)
  }

  /** The template, echoed piece by piece. */
  method RenderRss(c: Channel, activities: seq<Activity>, lastBuildDate: string, pubDate: string, rfc2822: int -> string)
    returns (out: string)
    ensures out == Header(c, lastBuildDate, pubDate) + Join(activities, ItemBlock(rfc2822)) + Footer
  {
    var head, block := Header(c, lastBuildDate, pubDate), ItemBlock(rfc2822);
    out := head;
    JoinNone(activities, block, head);
    for i := 0 to |activities|
      invariant out == head + Join(activities[..i], block)
    {
      JoinStep(activities, i, block, head);
      out := out + block(activities[i]);
    }
    JoinWhole(activities, block);
    out := out + Footer;
  }

  /** An element read back from a prefix of the block is read back once two
      more pieces follow, and still ends at the same `<`. */
  lemma ReadOn(d: string, e1: string, e2: string, p: nat)
    requires p <= |d| && p + IndexOf(d[p..], '<') < |d|
    ensures p <= |d + e1 + e2| && ElementText(d + e1 + e2, p) == ElementText(d, p)
    ensures IndexOf((d + e1 + e2)[p..], '<') == IndexOf(d[p..], '<')
  {
    ReadPrefix(d, e1, p);
    ReadPrefix(d + e1, e2, p);
  }

  /** `b` is four texts without `<`, each after an opening piece and
      followed by a piece that starts a tag. */
  predicate Framed(b: string, o1: string, x1: string, o2: string, x2: string, o3: string, x3: string,
                   o4: string, x4: string, t: string)
  {
    b == o1 + x1 + o2 + x2 + o3 + x3 + o4 + x4 + t
    && '<' !in x1 && '<' !in x2 && '<' !in x3 && '<' !in x4
    && o2 != [] && o2[0] == '<' && o3 != [] && o3[0] == '<'
    && o4 != [] && o4[0] == '<' && t != [] && t[0] == '<'
  }

  /** Of four texts without `<`, each followed by a tag, the first is read back whole. */
  lemma ReadFirst(b: string, o1: string, x1: string, o2: string, x2: string, o3: string, x3: string,
                  o4: string, x4: string, t: string, p: nat)
    requires Framed(b, o1, x1, o2, x2, o3, x3, o4, x4, t)
    requires p == |o1|
    ensures p <= |b| && ElementText(b, p) == x1
  {
    var c1 := o1 + x1 + o2;
    var c2 := c1 + x2 + o3;
    var c3 := c2 + x3 + o4;
    ReadField(o1, x1, o2);
    ReadOn(c1, x2, o3, p);
    ReadOn(c2, x3, o4, p);
    ReadOn(c3, x4, t, p);
  }

  /** The second of the four texts is read back whole. */
  lemma ReadSecond(b: string, o1: string, x1: string, o2: string, x2: string, o3: string, x3: string,
                   o4: string, x4: string, t: string, p: nat)
    requires Framed(b, o1, x1, o2, x2, o3, x3, o4, x4, t)
    requires p == |o1| + |x1| + |o2|
    ensures p <= |b| && ElementText(b, p) == x2
  {
    var c1 := o1 + x1 + o2;
    var c2 := c1 + x2 + o3;
    var c3 := c2 + x3 + o4;
    ReadField(c1, x2, o3);
    ReadOn(c2, x3, o4, p);
    ReadOn(c3, x4, t, p);
  }

  /** The third of the four texts is read back whole. */
  lemma ReadThird(b: string, o1: string, x1: string, o2: string, x2: string, o3: string, x3: string,
                  o4: string, x4: string, t: string, p: nat)
    requires Framed(b, o1, x1, o2, x2, o3, x3, o4, x4, t)
    requires p == |o1| + |x1| + |o2| + |x2| + |o3|
    ensures p <= |b| && ElementText(b, p) == x3
  {
    var c1 := o1 + x1 + o2;
    var c2 := c1 + x2 + o3;
    var c3 := c2 + x3 + o4;
    ReadField(c2, x3, o4);
    ReadOn(c3, x4, t, p);
  }

  /** The fourth of the four texts is read back whole. */
  lemma ReadFourth(b: string, o1: string, x1: string, o2: string, x2: string, o3: string, x3: string,
                   o4: string, x4: string, t: string, p: nat)
    requires Framed(b, o1, x1, o2, x2, o3, x3, o4, x4, t)
    requires p == |o1| + |x1| + |o2| + |x2| + |o3| + |x3| + |o4|
    ensures p <= |b| && ElementText(b, p) == x4
  {
    var c1 := o1 + x1 + o2;
    var c2 := c1 + x2 + o3;
    var c3 := c2 + x3 + o4;
    ReadField(c3, x4, t);
  }

  /** Where the text of each element of a block starts. */
  function TitleAt(): nat
  {
    |ItemOpen|
  }

  function DescriptionAt(a: Activity): nat
  {
    |ItemOpen| + |HtmlSpecialChars(a.title)| + |TitleClose|
  }

  function LinkAt(a: Activity): nat
  {
    |ItemOpen| + |HtmlSpecialChars(a.title)| + |TitleClose| + |HtmlSpecialChars(a.description)| + |DescriptionClose|
  }

  function GuidAt(a: Activity): nat
  {
    |ItemOpen| + |HtmlSpecialChars(a.title)| + |TitleClose| + |HtmlSpecialChars(a.description)| + |DescriptionClose|
    + |HtmlSpecialChars(a.link)| + |LinkClose|
  }

  /** A block is its four escaped fields, each after its opening tag and
      followed by the next tag. */
  lemma ItemFramed(a: Activity, rfc2822: int -> string)
    ensures Framed(Item(a, rfc2822), ItemOpen, HtmlSpecialChars(a.title), TitleClose, HtmlSpecialChars(a.description),
      DescriptionClose, HtmlSpecialChars(a.link), LinkClose, HtmlSpecialChars(a.guid), ItemTail(a, rfc2822))
  {
    HtmlSpecialCharsNoMarkup(a.title);
    HtmlSpecialCharsNoMarkup(a.description);
    HtmlSpecialCharsNoMarkup(a.link);
    HtmlSpecialCharsNoMarkup(a.guid);
    assert TitleClose[0] == '<' && DescriptionClose[0] == '<' && LinkClose[0] == '<';
    assert ItemTail(a, rfc2822)[0] == '<';
  }

  /** The title element of a block holds the escaped title. */
  lemma TitleText(a: Activity, rfc2822: int -> string)
    ensures TitleAt() <= |Item(a, rfc2822)| && ElementText(Item(a, rfc2822), TitleAt()) == HtmlSpecialChars(a.title)
  {
    ItemFramed(a, rfc2822);
    ReadFirst(Item(a, rfc2822), ItemOpen, HtmlSpecialChars(a.title), TitleClose, HtmlSpecialChars(a.description),
      DescriptionClose, HtmlSpecialChars(a.link), LinkClose, HtmlSpecialChars(a.guid), ItemTail(a, rfc2822), TitleAt());
  }

  /** The title element of a block decodes to the title. */
  lemma TitleReadsBack(a: Activity, rfc2822: int -> string)
    ensures TitleAt() <= |Item(a, rfc2822)| && DecodeXml(ElementText(Item(a, rfc2822), TitleAt())) == a.title
  {
    TitleText(a, rfc2822);
    HtmlSpecialCharsDecodes(a.title);
  }

  /** The description element of a block holds the escaped description. */
  lemma DescriptionText(a: Activity, rfc2822: int -> string)
    ensures DescriptionAt(a) <= |Item(a, rfc2822)| && ElementText(Item(a, rfc2822), DescriptionAt(a)) == HtmlSpecialChars(a.description)
  {
    ItemFramed(a, rfc2822);
    ReadSecond(Item(a, rfc2822), ItemOpen, HtmlSpecialChars(a.title), TitleClose, HtmlSpecialChars(a.description),
      DescriptionClose, HtmlSpecialChars(a.link), LinkClose, HtmlSpecialChars(a.guid), ItemTail(a, rfc2822), DescriptionAt(a));
  }

  /** The description element of a block decodes to the description. */
  lemma DescriptionReadsBack(a: Activity, rfc2822: int -> string)
    ensures DescriptionAt(a) <= |Item(a, rfc2822)| && DecodeXml(ElementText(Item(a, rfc2822), DescriptionAt(a))) == a.description
  {
    DescriptionText(a, rfc2822);
    HtmlSpecialCharsDecodes(a.description);
  }

  /** The link element of a block holds the escaped link. */
  lemma LinkText(a: Activity, rfc2822: int -> string)
    ensures LinkAt(a) <= |Item(a, rfc2822)| && ElementText(Item(a, rfc2822), LinkAt(a)) == HtmlSpecialChars(a.link)
  {
    ItemFramed(a, rfc2822);
    ReadThird(Item(a, rfc2822), ItemOpen, HtmlSpecialChars(a.title), TitleClose, HtmlSpecialChars(a.description),
      DescriptionClose, HtmlSpecialChars(a.link), LinkClose, HtmlSpecialChars(a.guid), ItemTail(a, rfc2822), LinkAt(a));
  }

  /** The link element of a block decodes to the link. */
  lemma LinkReadsBack(a: Activity, rfc2822: int -> string)
    ensures LinkAt(a) <= |Item(a, rfc2822)| && DecodeXml(ElementText(Item(a, rfc2822), LinkAt(a))) == a.link
  {
    LinkText(a, rfc2822);
    HtmlSpecialCharsDecodes(a.link);
  }

  /** The guid element of a block holds the escaped guid. */
  lemma GuidText(a: Activity, rfc2822: int -> string)
    ensures GuidAt(a) <= |Item(a, rfc2822)| && ElementText(Item(a, rfc2822), GuidAt(a)) == HtmlSpecialChars(a.guid)
  {
    ItemFramed(a, rfc2822);
    ReadFourth(Item(a, rfc2822), ItemOpen, HtmlSpecialChars(a.title), TitleClose, HtmlSpecialChars(a.description),
      DescriptionClose, HtmlSpecialChars(a.link), LinkClose, HtmlSpecialChars(a.guid), ItemTail(a, rfc2822), GuidAt(a));
  }

  /** The guid element of a block decodes to the guid. */
  lemma GuidReadsBack(a: Activity, rfc2822: int -> string)
    ensures GuidAt(a) <= |Item(a, rfc2822)| && DecodeXml(ElementText(Item(a, rfc2822), GuidAt(a))) == a.guid
  {
    GuidText(a, rfc2822);
    HtmlSpecialCharsDecodes(a.guid);
  }

  /** A reader of a block gets back the activity's title, description, link
      and guid: each element's text runs to the next `<` and decodes to the
      field, whatever characters the field holds. */
  lemma ItemReadsBack(a: Activity, rfc2822: int -> string)
    ensures var b := Item(a, rfc2822);
      TitleAt() < DescriptionAt(a) < LinkAt(a) < GuidAt(a) <= |b|
      && DecodeXml(ElementText(b, TitleAt())) == a.title
      && DecodeXml(ElementText(b, DescriptionAt(a))) == a.description
      && DecodeXml(ElementText(b, LinkAt(a))) == a.link
      && DecodeXml(ElementText(b, GuidAt(a))) == a.guid
  {
    TitleReadsBack(a, rfc2822);
    DescriptionReadsBack(a, rfc2822);
    LinkReadsBack(a, rfc2822);
    GuidReadsBack(a, rfc2822);
  }
}
