/**
 * `make_recipe_html` (tools/generate_site.py:7-63): the JSON-LD record, the list
 * and badge fragments, and the escaped text placed in the page template.
 */
module RecipePage {
  import opened Wrappers
  import opened Text
  import opened Html
  import opened Fields
  import opened Recipes

  // ---------------------------------------------------------------- JSON-LD

  /** A JSON value as `json.dumps` receives it; an object keeps its keys in insertion order. */
  datatype Json = JString(str: string) | JArray(elems: seq<Json>) | JObject(members: seq<(string, Json)>)

  /** The value stored under `key` in an object's member list. */
  function Lookup(members: seq<(string, Json)>, key: string): Option<Json>
  {
    if members == [] then None
    else if members[0].0 == key then Some(members[0].1)
    else Lookup(members[1..], key)
  }

  function Member(j: Json, key: string): Option<Json>
  {
    if j.JObject? then Lookup(j.members, key) else None
  }

  /** Reads back a JSON array of strings. */
  function AsStringList(elems: seq<Json>): Option<seq<string>>
  {
    if elems == [] then Some([])
    else if !elems[0].JString? then None
    else match AsStringList(elems[1..])
      case None => None
      case Some(more) => Some([elems[0].str] + more)
  }

  /** Reads back the texts of a JSON array of `HowToStep` objects. */
  function AsStepTexts(elems: seq<Json>): Option<seq<string>>
  {
    if elems == [] then Some([])
    else if Member(elems[0], "@type") != Some(JString("HowToStep")) then None
    else match Member(elems[0], "text")
      case Some(JString(text)) =>
        (match AsStepTexts(elems[1..])
         case None => None
         case Some(more) => Some([text] + more))
      case _ => None
  }

  /** `recipe["ingredients"]` as a JSON array. */
  function StringArray(xs: seq<string>): seq<Json>
  {
    if xs == [] then [] else [JString(xs[0])] + StringArray(xs[1..])
  }

  /** `{"@type":"HowToStep","text": s}`. */
  function HowToStep(text: string): Json
  {
    JObject([("@type", JString("HowToStep")), ("text", JString(text))])
  }

  /** `[{"@type":"HowToStep","text": s} for s in recipe["steps"]]`. */
  function HowToSteps(steps: seq<string>): seq<Json>
  {
    if steps == [] then [] else [HowToStep(steps[0])] + HowToSteps(steps[1..])
  }

  /** `", ".join(tags) if tags else ""`. */
  function Keywords(tags: seq<string>): string
  {
    if |tags| > 0 then JoinWith(tags, ", ") else ""
  }

  /** The schema.org `Recipe` record embedded in every page (tools/generate_site.py:8-18). */
  function RecipeJsonLd(r: Recipe): Json
  {
    JObject([
      ("@context", JString("https://schema.org")),
      ("@type", JString("Recipe")),
      ("name", JString(r.title)),
      ("description", JString(r.description)),
      ("recipeYield", JString(r.servings)),
      ("totalTime", JString(r.totalTimeIso)),
      ("recipeIngredient", JArray(StringArray(r.ingredients))),
      ("recipeInstructions", JArray(HowToSteps(r.steps))),
      ("keywords", JString(Keywords(r.tags)))
    ])
  }

  /** A key found at position `i` and at no earlier position is looked up to the value there. */
  lemma {:induction false} LookupAt(members: seq<(string, Json)>, i: nat, key: string)
    requires i < |members| && members[i].0 == key
    requires forall j :: 0 <= j < i ==> members[j].0 != key
    ensures Lookup(members, key) == Some(members[i].1)
  {
    if i > 0 {
      LookupAt(members[1..], i - 1, key);
    }
  }

  /** `HowToStep(text)` carries its type and its text. */
  lemma HowToStepMembers(text: string)
    ensures Member(HowToStep(text), "@type") == Some(JString("HowToStep"))
    ensures Member(HowToStep(text), "text") == Some(JString(text))
  {
    var m := HowToStep(text).members;
    assert m[0].0 == "@type" && m[1].0 == "text";
    assert |"@type"| != |"text"|;
    LookupAt(m, 0, "@type");
    LookupAt(m, 1, "text");
  }

  /** The ingredient array holds the raw, unescaped ingredients, in order. */
  lemma {:induction false} StringArrayRoundTrip(xs: seq<string>)
    ensures AsStringList(StringArray(xs)) == Some(xs)
  {
    if xs != [] {
      StringArrayRoundTrip(xs[1..]);
      assert StringArray(xs)[1..] == StringArray(xs[1..]);
      assert xs == [xs[0]] + xs[1..];
    }
  }

  /** The instruction array holds one `HowToStep` per step with the raw step text, in order. */
  lemma {:induction false} HowToStepsRoundTrip(steps: seq<string>)
    ensures AsStepTexts(HowToSteps(steps)) == Some(steps)
  {
    if steps != [] {
      HowToStepsRoundTrip(steps[1..]);
      HowToStepMembers(steps[0]);
      assert HowToSteps(steps)[0] == HowToStep(steps[0]);
      assert HowToSteps(steps)[1..] == HowToSteps(steps[1..]);
      assert steps == [steps[0]] + steps[1..];
    }
  }

  /** `keywords` is empty exactly when there are no tags, and splitting it on `,` gives the tags back. */
  lemma KeywordsRoundTrip(tags: seq<string>)
    requires forall i :: 0 <= i < |tags| ==> IsCleanItem(tags[i], ',')
    ensures Keywords(tags) == "" <==> tags == []
    ensures SplitField(Keywords(tags), ',') == tags
  {
    if tags != [] {
      SplitFieldOfSpacedJoin(tags, ',');
      assert [',', ' '] == ", ";
    }
  }

  /** The members of the record before its lists. */
  lemma JsonLdScalars(r: Recipe)
    ensures var ld := RecipeJsonLd(r);
      && Member(ld, "@context") == Some(JString("https://schema.org"))
      && Member(ld, "@type") == Some(JString("Recipe"))
      && Member(ld, "name") == Some(JString(r.title))
      && Member(ld, "description") == Some(JString(r.description))
      && Member(ld, "recipeYield") == Some(JString(r.servings))
      && Member(ld, "totalTime") == Some(JString(r.totalTimeIso))
  {
    var m := RecipeJsonLd(r).members;
    assert m[0].0 == "@context" && m[1].0 == "@type" && m[2].0 == "name";
    assert m[3].0 == "description" && m[4].0 == "recipeYield" && m[5].0 == "totalTime";
    LookupAt(m, 0, "@context");
    LookupAt(m, 1, "@type");
    LookupAt(m, 2, "name");
    LookupAt(m, 3, "description");
    LookupAt(m, 4, "recipeYield");
    LookupAt(m, 5, "totalTime");
  }

  /** The list members of the record. */
  lemma JsonLdLists(r: Recipe)
    ensures var ld := RecipeJsonLd(r);
      && Member(ld, "recipeIngredient") == Some(JArray(StringArray(r.ingredients)))
      && Member(ld, "recipeInstructions") == Some(JArray(HowToSteps(r.steps)))
      && Member(ld, "keywords") == Some(JString(Keywords(r.tags)))
  {
    var m := RecipeJsonLd(r).members;
    assert m[0].0 == "@context" && m[1].0 == "@type" && m[2].0 == "name";
    assert m[3].0 == "description" && m[4].0 == "recipeYield" && m[5].0 == "totalTime";
    assert m[6].0 == "recipeIngredient" && m[7].0 == "recipeInstructions" && m[8].0 == "keywords";
    LookupAt(m, 6, "recipeIngredient");
    LookupAt(m, 7, "recipeInstructions");
    LookupAt(m, 8, "keywords");
  }

  /**
   * The JSON-LD record carries the record's own fields, unescaped, under the
   * schema.org names: its lists read back into the record's lists, and its keywords
   * split back into the tags.
   */
  lemma JsonLdCarriesRecord(r: Recipe)
    requires WellFormed(r)
    ensures var ld := RecipeJsonLd(r);
      && Member(ld, "@context") == Some(JString("https://schema.org"))
      && Member(ld, "@type") == Some(JString("Recipe"))
      && Member(ld, "name") == Some(JString(r.title))
      && Member(ld, "description") == Some(JString(r.description))
      && Member(ld, "recipeYield") == Some(JString(r.servings))
      && Member(ld, "totalTime") == Some(JString(r.totalTimeIso))
      && (exists a :: Member(ld, "recipeIngredient") == Some(JArray(a)) && AsStringList(a) == Some(r.ingredients))
      && (exists a :: Member(ld, "recipeInstructions") == Some(JArray(a)) && AsStepTexts(a) == Some(r.steps))
      && (exists k :: Member(ld, "keywords") == Some(JString(k)) && SplitField(k, ',') == r.tags
                      && (k == "" <==> r.tags == []))
  {
    JsonLdScalars(r);
    JsonLdLists(r);
    StringArrayRoundTrip(r.ingredients);
    HowToStepsRoundTrip(r.steps);
    KeywordsRoundTrip(r.tags);
  }

  // ------------------------------------------------------------ HTML lists

  const ItemOpen := "<li>"
  const ItemClose := "</li>"
  const BadgeOpen := "<span class='tag'>"
  const BadgeClose := "</span>"

  /** `open + html_escape(x) + close` for every `x`, in order. */
  function Tagged(xs: seq<string>, open: string, close: string): (r: seq<string>)
    ensures |r| == |xs|
  {
    if xs == [] then [] else [open + HtmlEscape(xs[0]) + close] + Tagged(xs[1..], open, close)
  }

  /** `"\n".join(f"<li>{html_escape(i)}</li>" for i in items)` (tools/generate_site.py:19-20). */
  function ListItems(items: seq<string>): string
  {
    JoinWith(Tagged(items, ItemOpen, ItemClose), "\n")
  }

  /** The tag badges, or `""` without tags (tools/generate_site.py:21). */
  function TagBadges(tags: seq<string>): string
  {
    if |tags| > 0 then JoinWith(Tagged(tags, BadgeOpen, BadgeClose), " ") else ""
  }

  /**
   * Reads one `open + text + close` from the front of `f`: the text runs up to the
   * next `<`; gives the text and what follows the closing tag.
   */
  function ReadItem(f: string, open: string, close: string): (r: Option<(string, string)>)
    requires |open| > 0
    ensures r.Some? ==> |r.value.1| < |f|
  {
    if !(open <= f) then None
    else
      var body := f[|open|..];
      var text := TakeUntil(body, '<');
      var after := body[|text|..];
      if close <= after then Some((text, after[|close|..])) else None
  }

  /** Reads a non-empty list of `open + text + close` items separated by `sep`, unescaping each text. */
  function ParseItems(f: string, open: string, close: string, sep: string): Option<seq<string>>
    requires |open| > 0
    decreases |f|
  {
    match ReadItem(f, open, close)
    case None => None
    case Some((text, rest)) =>
      if rest == [] then Some([Unescape(text)])
      else if !(sep <= rest) then None
      else match ParseItems(rest[|sep|..], open, close, sep)
        case None => None
        case Some(more) => Some([Unescape(text)] + more)
  }

  /** Reads a whole fragment back into the raw items it lists; an empty fragment lists none. */
  function ParseFragment(f: string, open: string, close: string, sep: string): Option<seq<string>>
    requires |open| > 0
  {
    if f == [] then Some([]) else ParseItems(f, open, close, sep)
  }

  /** An item whose text holds no `<` is read back whole, whatever follows it. */
  lemma ReadItemOf(open: string, text: string, close: string, rest: string)
    requires |open| > 0 && close != [] && close[0] == '<' && '<' !in text
    ensures ReadItem(open + text + close + rest, open, close) == Some((text, rest))
  {
    var f := open + text + close + rest;
    assert open <= f;
    assert f[|open|..] == text + (close + rest);
    TakeUntilStops(text, close + rest, '<');
    assert (text + (close + rest))[|text|..] == close + rest;
    assert (close + rest)[|close|..] == rest;
  }

  lemma TaggedCons(xs: seq<string>, open: string, close: string)
    requires xs != []
    ensures Tagged(xs, open, close) == [open + HtmlEscape(xs[0]) + close] + Tagged(xs[1..], open, close)
  {
  }

  /** A list fragment is never empty when the list is not. */
  lemma ListTextNonEmpty(xs: seq<string>, open: string, close: string, sep: string)
    requires |open| > 0 && xs != []
    ensures JoinWith(Tagged(xs, open, close), sep) != []
  {
    TaggedCons(xs, open, close);
    var head := open + HtmlEscape(xs[0]) + close;
    if |xs| > 1 {
      JoinWithCons(head, Tagged(xs[1..], open, close), sep);
    }
  }

  lemma ParseLastItem(e: string, open: string, close: string, sep: string)
    requires |open| > 0 && close != [] && close[0] == '<' && '<' !in e
    ensures ParseItems(open + e + close, open, close, sep) == Some([Unescape(e)])
  {
    ReadItemOf(open, e, close, []);
    assert open + e + close + [] == open + e + close;
  }

  lemma ParseItemThenMore(e: string, more: string, open: string, close: string, sep: string)
    requires |open| > 0 && close != [] && close[0] == '<' && '<' !in e && more != []
    ensures ParseItems(open + e + close + (sep + more), open, close, sep)
            == match ParseItems(more, open, close, sep)
                 case None => None
                 case Some(ys) => Some([Unescape(e)] + ys)
  {
    ReadItemOf(open, e, close, sep + more);
    assert (sep + more)[|sep|..] == more;
  }

  /** The rendered list of one item. */
  lemma ParseSingleton(xs: seq<string>, open: string, close: string, sep: string)
    requires |open| > 0 && close != [] && close[0] == '<' && |xs| == 1
    ensures ParseItems(JoinWith(Tagged(xs, open, close), sep), open, close, sep) == Some(xs)
  {
    var e := HtmlEscape(xs[0]);
    assert Tagged(xs, open, close) == [open + e + close];
    ParseLastItem(e, open, close, sep);
    assert xs == [xs[0]];
  }

  /** A rendered list of several items: the first item, the separator, the rendered rest. */
  lemma RenderedCons(xs: seq<string>, open: string, close: string, sep: string)
    requires |open| > 0 && |xs| > 1
    ensures JoinWith(Tagged(xs, open, close), sep)
            == open + HtmlEscape(xs[0]) + close + (sep + JoinWith(Tagged(xs[1..], open, close), sep))
    ensures JoinWith(Tagged(xs[1..], open, close), sep) != []
  {
    var head := open + HtmlEscape(xs[0]) + close;
    TaggedCons(xs, open, close);
    ListTextNonEmpty(xs[1..], open, close, sep);
    JoinWithCons(head, Tagged(xs[1..], open, close), sep);
  }

  /** Reading a list of several items: the first one, then the rest. */
  lemma ParseCons(xs: seq<string>, open: string, close: string, sep: string)
    requires |open| > 0 && close != [] && close[0] == '<' && |xs| > 1
    requires ParseItems(JoinWith(Tagged(xs[1..], open, close), sep), open, close, sep) == Some(xs[1..])
    ensures ParseItems(JoinWith(Tagged(xs, open, close), sep), open, close, sep) == Some(xs)
  {
    RenderedCons(xs, open, close, sep);
    ParseItemThenMore(HtmlEscape(xs[0]), JoinWith(Tagged(xs[1..], open, close), sep), open, close, sep);
    assert xs == [xs[0]] + xs[1..];
  }

  /** Reading back a rendered non-empty list gives exactly its raw items, one per element, in order. */
  lemma {:induction false} ParseItemsRoundTrip(xs: seq<string>, open: string, close: string, sep: string)
    requires |open| > 0 && close != [] && close[0] == '<' && xs != []
    ensures ParseItems(JoinWith(Tagged(xs, open, close), sep), open, close, sep) == Some(xs)
  {
    if |xs| == 1 {
      ParseSingleton(xs, open, close, sep);
    } else {
      ParseItemsRoundTrip(xs[1..], open, close, sep);
      ParseCons(xs, open, close, sep);
    }
  }

  /** Every list fragment reads back into exactly the items it was rendered from. */
  lemma FragmentRoundTrip(xs: seq<string>, open: string, close: string, sep: string)
    requires |open| > 0 && close != [] && close[0] == '<'
    ensures ParseFragment(JoinWith(Tagged(xs, open, close), sep), open, close, sep) == Some(xs)
  {
    if xs != [] {
      ListTextNonEmpty(xs, open, close, sep);
      ParseItemsRoundTrip(xs, open, close, sep);
    }
  }

  /** One `<li>` per item, in item order, holding the escaped item (tools/generate_site.py:19-20). */
  lemma ListItemsRoundTrip(items: seq<string>)
    ensures ParseFragment(ListItems(items), ItemOpen, ItemClose, "\n") == Some(items)
  {
    FragmentRoundTrip(items, ItemOpen, ItemClose, "\n");
  }

  /** One badge per tag, in tag order, holding the escaped tag; no tags give `""` (tools/generate_site.py:21). */
  lemma TagBadgesRoundTrip(tags: seq<string>)
    ensures TagBadges(tags) == "" <==> tags == []
    ensures ParseFragment(TagBadges(tags), BadgeOpen, BadgeClose, " ") == Some(tags)
  {
    FragmentRoundTrip(tags, BadgeOpen, BadgeClose, " ");
    if tags != [] {
      ListTextNonEmpty(tags, BadgeOpen, BadgeClose, " ");
    }
  }

  // ------------------------------------------------------------------ page

  /**
   * The values `make_recipe_html` interpolates into its fixed template, in template
   * order; the template text itself is not modelled.
   */
  datatype Page = Page(
    headTitle: string,
    jsonLd: Json,
    heading: string,
    description: string,
    meta: string,
    tagBadges: string,
    ingredientsList: string,
    stepsList: string)

  /** The metadata line (tools/generate_site.py:45). */
  function MetaLine(servings: string, totalTime: string): string
  {
    "Servings: " + HtmlEscape(servings) + " &middot; Total time: " + HtmlEscape(totalTime)
  }

  /** `make_recipe_html(recipe)`. */
  function MakeRecipePage(r: Recipe): Page
  {
    Page(
      HtmlEscape(r.title),
      RecipeJsonLd(r),
      HtmlEscape(r.title),
      HtmlEscape(r.description),
      MetaLine(r.servings, r.totalTimeIso),
      TagBadges(r.tags),
      ListItems(r.ingredients),
      ListItems(r.steps))
  }

  /**
   * No user text reaches the page body unescaped: title and description carry no
   * `<` or `>` and decode to the record's text, the metadata line carries no `<` or
   * `>`, and each list fragment reads back into the record's list.
   */
  lemma PageShowsRecord(r: Recipe)
    ensures var p := MakeRecipePage(r);
      && p.headTitle == p.heading
      && '<' !in p.heading && '>' !in p.heading && Unescape(p.heading) == r.title
      && '<' !in p.description && '>' !in p.description && Unescape(p.description) == r.description
      && '<' !in p.meta && '>' !in p.meta
      && ParseFragment(p.ingredientsList, ItemOpen, ItemClose, "\n") == Some(r.ingredients)
      && ParseFragment(p.stepsList, ItemOpen, ItemClose, "\n") == Some(r.steps)
      && ParseFragment(p.tagBadges, BadgeOpen, BadgeClose, " ") == Some(r.tags)
      && (p.tagBadges == "" <==> r.tags == [])
  {
    ListItemsRoundTrip(r.ingredients);
    ListItemsRoundTrip(r.steps);
    TagBadgesRoundTrip(r.tags);
    MetaLineEscaped(r.servings, r.totalTimeIso);
  }

  /**
   * The `"—"` fallback of the metadata line is never used: a row whose `servings`
   * and `total_time_iso` cells are empty or missing gives the record those keys,
   * set to `""`, so the line shows them empty.
   */
  lemma MissingServingsShowEmpty(row: Row)
    requires "slug" in row && "title" in row
    requires Get(row, "servings") == "" && Get(row, "total_time_iso") == ""
    ensures MakeRecipePage(BuildRecipe(row).value).meta == "Servings:  &middot; Total time: "
  {
    MetaLineOfEmpty();
  }

  /** The metadata line shows a `—` only when the servings or the total time hold one. */
  lemma MetaHasNoEmDash(r: Recipe)
    requires '—' !in r.servings && '—' !in r.totalTimeIso
    ensures '—' !in MakeRecipePage(r).meta
  {
    EscapedHasNoEmDash(r.servings);
    EscapedHasNoEmDash(r.totalTimeIso);
    MetaLineHolds('—', r.servings, r.totalTimeIso);
  }

  lemma EscapedHasNoEmDash(s: string)
    requires '—' !in s
    ensures '—' !in HtmlEscape(s)
  {
    EscapeKeepsOtherChars(s, '—');
    assert multiset(s)['—'] == 0;
  }

  /** A character outside both escaped values and both fixed parts is outside the metadata line. */
  lemma MetaLineHolds(c: char, servings: string, totalTime: string)
    requires c !in HtmlEscape(servings) && c !in HtmlEscape(totalTime)
    requires c !in "Servings: " && c !in " &middot; Total time: "
    ensures c !in MetaLine(servings, totalTime)
  {
    var a := "Servings: " + HtmlEscape(servings);
    CharNotInConcat(c, "Servings: ", HtmlEscape(servings));
    CharNotInConcat(c, a, " &middot; Total time: ");
    CharNotInConcat(c, a + " &middot; Total time: ", HtmlEscape(totalTime));
  }

  lemma CharNotInConcat(c: char, a: string, b: string)
    requires c !in a && c !in b
    ensures c !in a + b
  {
  }

  /** The metadata line carries no `<` or `>`: servings and total time are escaped. */
  lemma MetaLineEscaped(servings: string, totalTime: string)
    ensures '<' !in MetaLine(servings, totalTime) && '>' !in MetaLine(servings, totalTime)
  {
    MetaLineHolds('<', servings, totalTime);
    MetaLineHolds('>', servings, totalTime);
  }

  lemma MetaLineOfEmpty()
    ensures MetaLine("", "") == "Servings:  &middot; Total time: "
  {
    EscapedLength("");
    assert HtmlEscape("") == "";
  }
}
