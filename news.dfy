/**
 * The article loop of `get_stock_news`: the first five feed entries become
 * article records with defaults for missing fields and an image chosen from
 * the entry's media, else its image links, else none.
 */
module News {
  import opened Wrappers

  const MaxArticles: nat := 5
  const ImageTypePrefix: string := "image/"

  /** The feed entry fields the loop reads; None stands for a missing key or attribute. */
  datatype Source = Source(title: Option<string>)
  datatype Media = Media(url: Option<string>)
  datatype Link = Link(linkType: Option<string>, href: Option<string>)
  datatype FeedEntry = FeedEntry(
    title: Option<string>,
    summary: Option<string>,
    link: Option<string>,
    published: Option<string>,
    source: Option<Source>,
    mediaContent: Option<seq<Media>>,
    links: Option<seq<Link>>)

  /** One article record as the endpoint returns it; `image` None is JSON null. */
  datatype Article = Article(
    title: string,
    description: string,
    url: string,
    published: string,
    source: string,
    image: Option<string>)

  /** A link whose type (empty when missing) starts with `image/`. */
  predicate IsImageLink(l: Link) {
    ImageTypePrefix <= l.linkType.GetOr("")
  }

  /** The href (empty when missing) of the first image link. */
  function FirstImageHref(links: seq<Link>): Option<string> {
    if links == [] then None
    else if IsImageLink(links[0]) then Some(links[0].href.GetOr(""))
    else FirstImageHref(links[1..])
  }

  /** The image of an entry: first media url, else first image link, else none. */
  function ImageOf(e: FeedEntry): Option<string> {
    if e.mediaContent.Some? && |e.mediaContent.value| > 0 then
      Some(e.mediaContent.value[0].url.GetOr(""))
    else if e.links.Some? then
      FirstImageHref(e.links.value)
    else None
  }

  /** The record built for one entry, missing fields replaced by their defaults. */
  function ArticleOf(e: FeedEntry): (a: Article)
    ensures e.title.None? ==> a.title == ""
    ensures e.title.Some? ==> a.title == e.title.value
    ensures e.summary.None? ==> a.description == ""
    ensures e.summary.Some? ==> a.description == e.summary.value
    ensures e.link.None? ==> a.url == ""
    ensures e.link.Some? ==> a.url == e.link.value
    ensures e.published.None? ==> a.published == ""
    ensures e.published.Some? ==> a.published == e.published.value
    ensures e.source.None? ==> a.source == "Unknown"
    ensures e.source.Some? && e.source.value.title.None? ==> a.source == "Unknown"
    ensures e.source.Some? && e.source.value.title.Some? ==> a.source == e.source.value.title.value
    ensures a.image == ImageOf(e)
  {
    Article(
      e.title.GetOr(""),
      e.summary.GetOr(""),
      e.link.GetOr(""),
      e.published.GetOr(""),
      match e.source
      case Some(src) => src.title.GetOr("Unknown")
      case None => "Unknown",
      ImageOf(e))
  }

  function Min(a: nat, b: nat): nat { if a <= b then a else b }

  /**
   * The article loop: `entries` is None when the search gave no result or no
   * `entries` key. At most five records come back, one per leading entry, in
   * feed order.
   */
  method CollectArticles(entries: Option<seq<FeedEntry>>) returns (articles: seq<Article>)
    ensures entries.None? ==> articles == []
    ensures entries.Some? ==> |articles| == Min(MaxArticles, |entries.value|)
    ensures entries.Some? ==> forall i :: 0 <= i < |articles| ==> articles[i] == ArticleOf(entries.value[i])
  {
    articles := [];
    if entries.Some? {
      var batch := entries.value[..Min(MaxArticles, |entries.value|)];
      for ei := 0 to |batch|
        invariant |articles| == ei
        invariant forall i :: 0 <= i < ei ==> articles[i] == ArticleOf(batch[i])
      {
        var entry := batch[ei];
        var image: Option<string> := None;
        if entry.mediaContent.Some? && |entry.mediaContent.value| > 0 {
          image := Some(entry.mediaContent.value[0].url.GetOr(""));
        } else if entry.links.Some? {
          var links := entry.links.value;
          var li := 0;
          while li < |links|
            invariant 0 <= li <= |links|
            invariant image.None? && FirstImageHref(links) == FirstImageHref(links[li..])
          {
            if IsImageLink(links[li]) {
              image := Some(links[li].href.GetOr(""));
              break;
            }
            assert links[li..][1..] == links[li + 1..];
            li := li + 1;
          }
          assert image == FirstImageHref(links) by {
            if image.None? { assert links[li..] == []; }
          }
        }
        var article := Article(
          entry.title.GetOr(""),
          entry.summary.GetOr(""),
          entry.link.GetOr(""),
          entry.published.GetOr(""),
          match entry.source
          case Some(src) => src.title.GetOr("Unknown")
          case None => "Unknown",
          image);
        articles := articles + [article];
      }
    }
  }

  /** The first image link, if there is one, is the one whose href is taken; with none, nothing is. */
  lemma {:induction false} FirstImageHrefIsFirst(links: seq<Link>)
    ensures FirstImageHref(links).None? <==> forall j :: 0 <= j < |links| ==> !IsImageLink(links[j])
    ensures forall j ::
              (0 <= j < |links| && IsImageLink(links[j]) && forall j' :: 0 <= j' < j ==> !IsImageLink(links[j']))
              ==> FirstImageHref(links) == Some(links[j].href.GetOr(""))
  {
    if links != [] {
      FirstImageHrefIsFirst(links[1..]);
      assert forall j :: 1 <= j < |links| ==> links[1..][j - 1] == links[j];
    }
  }

  /** A non-empty media list wins: its first url (empty when missing) is the image. */
  lemma MediaFirst(e: FeedEntry)
    requires e.mediaContent.Some? && |e.mediaContent.value| > 0
    ensures ArticleOf(e).image == Some(e.mediaContent.value[0].url.GetOr(""))
  {
  }

  /** Without media, the first link whose type starts with `image/` gives the image. */
  lemma ImageLinkNext(e: FeedEntry, j: nat)
    requires e.mediaContent.None? || e.mediaContent.value == []
    requires e.links.Some? && j < |e.links.value| && IsImageLink(e.links.value[j])
    requires forall j' :: 0 <= j' < j ==> !IsImageLink(e.links.value[j'])
    ensures ArticleOf(e).image == Some(e.links.value[j].href.GetOr(""))
  {
    FirstImageHrefIsFirst(e.links.value);
  }

  /** The image is null exactly when there is no media and no image link. */
  lemma NoImage(e: FeedEntry)
    ensures ArticleOf(e).image.None? <==>
      (e.mediaContent.None? || e.mediaContent.value == [])
      && (e.links.None? || forall j :: 0 <= j < |e.links.value| ==> !IsImageLink(e.links.value[j]))
  {
    if e.links.Some? { FirstImageHrefIsFirst(e.links.value); }
  }
}
