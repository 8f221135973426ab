/**
 * `make_index` (tools/generate_site.py:65-90): one link per recipe, in recipe
 * order, each pointing at the recipe's page and showing its title.
 */
module Index {
  import opened Wrappers
  import opened Text
  import opened Html
  import opened Recipes

  /** The link target of a recipe, as written into the `href` attribute. */
  function IndexHref(slug: string): string
  {
    "recipes/" + HtmlEscape(slug) + ".html"
  }

  /** The list item of one recipe (tools/generate_site.py:68). */
  function IndexItem(r: Recipe): string
  {
    "<li><a href='" + IndexHref(r.slug) + "'>" + HtmlEscape(r.title) + "</a></li>"
  }

  /** The list items of all recipes, in recipe order. */
  function IndexItems(recipes: seq<Recipe>): seq<string>
  {
    seq(|recipes|, i requires 0 <= i < |recipes| => IndexItem(recipes[i]))
  }

  /** What `make_index` interpolates into its fixed template: `''.join(items)`. */
  datatype IndexPage = IndexPage(list: string)

  /** The (slug, title) pair each link of the index should carry. */
  function Links(recipes: seq<Recipe>): seq<(string, string)>
  {
    seq(|recipes|, i requires 0 <= i < |recipes| => (recipes[i].slug, recipes[i].title))
  }

  const LinkOpen := "<li><a href='recipes/"
  const LinkMid := "'>"
  const LinkClose := "</a></li>"

  /** Reads the link target of one item: the escaped slug and what follows the opening `<a>` tag. */
  function ReadHref(f: string): (r: Option<(string, string)>)
    ensures r.Some? ==> |r.value.1| < |f|
  {
    if !(LinkOpen <= f) then None
    else
      var a := f[|LinkOpen|..];
      var href := TakeUntil(a, '\'');
      var b := a[|href|..];
      if |href| < 5 || href[|href| - 5..] != ".html" || !(LinkMid <= b) then None
      else Some((href[..|href| - 5], b[|LinkMid|..]))
  }

  /** Reads the link text up to the next tag, then the closing tags of the item. */
  function ReadText(c: string): (r: Option<(string, string)>)
    ensures r.Some? ==> |r.value.1| < |c|
  {
    var text := TakeUntil(c, '<');
    var d := c[|text|..];
    if LinkClose <= d then Some((text, d[|LinkClose|..])) else None
  }

  /** Reads one list item as the (slug, title) it shows, decoded as a browser would. */
  function ReadLink(f: string): (r: Option<((string, string), string)>)
    ensures r.Some? ==> |r.value.1| < |f|
  {
    match ReadHref(f)
    case None => None
    case Some((href, c)) =>
      match ReadText(c)
      case None => None
      case Some((text, rest)) => Some(((Unescape(href), Unescape(text)), rest))
  }

  /** Reads the index list back into the (slug, title) pairs of its links. */
  function ParseLinks(f: string): Option<seq<(string, string)>>
    decreases |f|
  {
    if f == [] then Some([])
    else match ReadLink(f)
      case None => None
      case Some((link, rest)) =>
        match ParseLinks(rest)
        case None => None
        case Some(more) => Some([link] + more)
  }

  /** A slug without a quote keeps its escaped form free of quotes. */
  lemma EscapedSlugHasNoQuote(slug: string)
    requires '\'' !in slug
    ensures '\'' !in HtmlEscape(slug)
  {
    EscapeKeepsOtherChars(slug, '\'');
    assert multiset(slug)['\''] == 0;
  }

  lemma ReadHrefOf(e: string, c: string)
    requires '\'' !in e
    ensures ReadHref(LinkOpen + e + ".html" + LinkMid + c) == Some((e, c))
  {
    var f := LinkOpen + e + ".html" + LinkMid + c;
    var h := e + ".html";
    assert f == LinkOpen + (h + (LinkMid + c));
    assert f[|LinkOpen|..] == h + (LinkMid + c);
    assert '\'' !in h;
    TakeUntilStops(h, LinkMid + c, '\'');
    assert (h + (LinkMid + c))[|h|..] == LinkMid + c;
    assert h[|h| - 5..] == ".html" && h[..|h| - 5] == e;
    assert (LinkMid + c)[|LinkMid|..] == c;
  }

  lemma ReadTextOf(t: string, rest: string)
    requires '<' !in t
    ensures ReadText(t + LinkClose + rest) == Some((t, rest))
  {
    var c := t + (LinkClose + rest);
    assert t + LinkClose + rest == c;
    TakeUntilStops(t, LinkClose + rest, '<');
    assert c[|t|..] == LinkClose + rest;
    assert (LinkClose + rest)[|LinkClose|..] == rest;
  }

  /** The item of a recipe whose slug has no quote reads back as its slug and title. */
  lemma ReadLinkOf(r: Recipe, rest: string)
    requires '\'' !in r.slug
    ensures ReadLink(IndexItem(r) + rest) == Some(((r.slug, r.title), rest))
  {
    var e := HtmlEscape(r.slug);
    var t := HtmlEscape(r.title);
    EscapedSlugHasNoQuote(r.slug);
    assert IndexItem(r) + rest == LinkOpen + e + ".html" + LinkMid + (t + LinkClose + rest);
    ReadHrefOf(e, t + LinkClose + rest);
    ReadTextOf(t, rest);
  }

  lemma JoinPlainCons(items: seq<string>)
    requires items != []
    ensures JoinWith(items, "") == items[0] + JoinWith(items[1..], "")
  {
    if |items| == 1 {
      assert items[0] + "" == items[0];
    }
  }

  /** Reading an item and then the rest of the list. */
  lemma ParseLinkThenMore(r: Recipe, rest: string)
    requires '\'' !in r.slug
    ensures ParseLinks(IndexItem(r) + rest)
            == match ParseLinks(rest)
                 case None => None
                 case Some(more) => Some([(r.slug, r.title)] + more)
  {
    ReadLinkOf(r, rest);
    assert IndexItem(r) + rest != [];
  }

  /** The inductive step of IndexRoundTrip. */
  lemma IndexCons(recipes: seq<Recipe>)
    requires recipes != [] && '\'' !in recipes[0].slug
    requires ParseLinks(JoinWith(IndexItems(recipes[1..]), "")) == Some(Links(recipes[1..]))
    ensures ParseLinks(JoinWith(IndexItems(recipes), "")) == Some(Links(recipes))
  {
    var rest := JoinWith(IndexItems(recipes[1..]), "");
    IndexListCons(recipes);
    ParseLinkThenMore(recipes[0], rest);
    LinksCons(recipes);
  }

  lemma IndexListCons(recipes: seq<Recipe>)
    requires recipes != []
    ensures JoinWith(IndexItems(recipes), "") == IndexItem(recipes[0]) + JoinWith(IndexItems(recipes[1..]), "")
  {
    var items := IndexItems(recipes);
    assert items[1..] == IndexItems(recipes[1..]);
    JoinPlainCons(items);
  }

  lemma LinksCons(recipes: seq<Recipe>)
    requires recipes != []
    ensures Links(recipes) == [(recipes[0].slug, recipes[0].title)] + Links(recipes[1..])
  {
  }

  /**
   * Every recipe whose slug has no quote gets exactly one link, in recipe order,
   * leading to its slug and showing its title.
   */
  lemma {:induction false} IndexRoundTrip(recipes: seq<Recipe>)
    requires forall i :: 0 <= i < |recipes| ==> '\'' !in recipes[i].slug
    ensures ParseLinks(JoinWith(IndexItems(recipes), "")) == Some(Links(recipes))
  {
    if recipes == [] {
      assert IndexItems(recipes) == [] && Links(recipes) == [];
    } else {
      IndexRoundTrip(recipes[1..]);
      IndexCons(recipes);
    }
  }

  /** `make_index(recipes, site_dir)` without the file write: builds the items in a loop, then joins them. */
  method MakeIndex(recipes: seq<Recipe>) returns (page: IndexPage)
    ensures page.list == JoinWith(IndexItems(recipes), "")
    ensures (forall i :: 0 <= i < |recipes| ==> '\'' !in recipes[i].slug)
            ==> ParseLinks(page.list) == Some(Links(recipes))
  {
    var items: seq<string> := [];
    var i := 0;
    while i < |recipes|
      invariant 0 <= i <= |recipes|
      invariant items == IndexItems(recipes[..i])
    {
      items := items + [IndexItem(recipes[i])];
      i := i + 1;
    }
    assert recipes[..i] == recipes;
    page := IndexPage(JoinWith(items, ""));
    if forall i :: 0 <= i < |recipes| ==> '\'' !in recipes[i].slug {
      IndexRoundTrip(recipes);
    }
  }
}
