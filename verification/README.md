# Körbchen recipe mini-site generator, modelled in Dafny

`tools/generate_site.py` turns a CSV file of recipes into a static site for bulk
import into the Körbchen app: one page per recipe at `recipes/<slug>.html`, each
embedding a schema.org `Recipe` record as JSON-LD, and an `index.html` that links
to every page.

This project models the core of that script:

- `html_escape` (module `Html`): the three chained replacements of `&`, `<` and `>`,
  and the `s or ""` treatment of an absent value;
- the Python string operations it relies on (module `Text`): `str.split` on one
  character, `sep.join`, and `str.strip` with Python's whitespace set;
- turning a CSV row into a recipe record (modules `Fields` and `Recipes`): the list
  columns split on `|` or `,`, each piece stripped and blank pieces dropped; `slug`
  and `title` required, in that order, every other column defaulting to `""`;
- `make_recipe_html` (module `RecipePage`): the JSON-LD record, the `<li>` lists,
  the tag badges, the metadata line and the escaped title and description;
- `make_index` (module `Index`): the loop that builds one link per recipe;
- `main` (module `Site`): the row loop that writes each page as soon as its row is
  loaded, stops at the first row missing a required column, and writes the index
  last; the output directory is the sequence of writes, and the site left behind is
  the map from path to the content written last.

The page and index templates are fixed text around the interpolated values; the
model keeps the interpolated values (datatypes `RecipePage.Page` and
`Index.IndexPage`) and leaves the fixed text out. Round trips are stated against
readers defined in the model: `Html.Unescape` decodes the three entities,
`RecipePage.ParseFragment` reads a list fragment back into its items, and
`Index.ParseLinks` reads the index list back into (slug, title) pairs.

## Model

| member | source | states |
|---|---|---|
| Html.HtmlEscape | tools/generate_site.py:4-5 | HtmlEscape, the `ReplaceChar` chain: the result holds no `<` and no `>`, and decoding the three entities gives the input back |
| Html.HtmlEscapeOrEmpty | tools/generate_site.py:5 | an absent value or `""` gives `""` and nothing else does; a present value decodes back to itself |
| Html.ChainEscapesEachCharOnce | tools/generate_site.py:5 | the three chained `ReplaceChar` replacements, `&` first, equal escaping each character once: no entity is escaped twice |
| Html.EscapedLength | tools/generate_site.py:5 | the length grows by 4 per `&` and by 3 per `<` and per `>` |
| Html.EscapeIsIdentityIff | tools/generate_site.py:5 | escaping leaves a string unchanged exactly when it holds none of `&`, `<`, `>` |
| Html.EscapeKeepsOtherChars | tools/generate_site.py:5 | every character outside the entity alphabet occurs as often after escaping as before |
| Text.SplitPieces | tools/generate_site.py:104 | `Split` (`str.split`) gives one more piece than there are delimiters, and no piece holds the delimiter |
| Text.SplitThenJoin | tools/generate_site.py:104 | `JoinWith` (`sep.join`) undoes `Split`: joining the pieces of `split(d)` with `d` gives back the string |
| Text.JoinThenSplit | tools/generate_site.py:104 | splitting a `d`-joined list of `d`-free items gives back the list |
| Text.SplitAtDelimiter | tools/generate_site.py:104 | a delimiter cuts the pieces in two: `split(a + d + b) == split(a) + split(b)` |
| Text.StripEmptyIffBlank | tools/generate_site.py:104 | `Strip` (`str.strip`) gives `""` exactly for whitespace-only text, the pieces the row loader drops |
| Text.StripKeepsAbsence | tools/generate_site.py:104 | `strip()` only removes characters, so a stripped piece still holds no delimiter |
| Fields.SplitField | tools/generate_site.py:104-106 | every item is non-empty, stripped and free of the delimiter; there are at most delimiters + 1 items; an empty column gives no items |
| Fields.SplitFieldAtDelimiter | tools/generate_site.py:104-106 | items keep their column order: the items of `a + d + b` are those of `a` followed by those of `b` |
| Fields.SplitFieldWithoutDelimiter | tools/generate_site.py:104-106 | a column without the delimiter gives its stripped text as the one item, or nothing when blank |
| Fields.KeepNonBlankEmptyIff | tools/generate_site.py:104-106 | no items survive exactly when every piece is whitespace-only |
| Fields.SplitFieldIgnoresLeadingSpace | tools/generate_site.py:106 | a leading space in a column never changes its items |
| Fields.SplitFieldOfSpacedJoin | tools/generate_site.py:17 | splitting the `", "`-joined clean items on the delimiter gives the items back |
| Recipes.BuildRecipe | tools/generate_site.py:104-116 | succeeds exactly when `slug` and `title` are present; a missing `slug` is reported before a missing `title`; a built record copies `slug` and `title`, takes `description`, `servings` and `total_time_iso` through `Get`, so a missing optional column gives `""`, and its lists are the `SplitField` items of their columns, so a missing list column gives no items |
| RecipePage.StringArrayRoundTrip | tools/generate_site.py:15 | `StringArray`: `recipeIngredient` reads back as the raw ingredients, in order |
| RecipePage.HowToStepsRoundTrip | tools/generate_site.py:16 | `HowToSteps`: `recipeInstructions` holds one `HowToStep` per step and reads back as the raw steps, in order |
| RecipePage.KeywordsRoundTrip | tools/generate_site.py:17 | `Keywords`: `keywords` is `""` exactly without tags, and `SplitField` on `,` (split, strip each piece, drop blank pieces) gives the tags back |
| RecipePage.JsonLdCarriesRecord | tools/generate_site.py:8-18 | `RecipeJsonLd`: the JSON-LD record carries the schema.org context and type and the record's unescaped title, description, yield, time, ingredients, steps and tags |
| RecipePage.FragmentRoundTrip | tools/generate_site.py:19-21 | `Tagged` joined by a separator: a list of escaped items reads back into exactly the raw items, one per element, in order |
| RecipePage.ListItemsRoundTrip | tools/generate_site.py:19-20 | `ListItems`: the `<li>` list reads back into the raw list |
| RecipePage.TagBadgesRoundTrip | tools/generate_site.py:21 | `TagBadges`: the badges are `""` exactly without tags and read back into the raw tags |
| RecipePage.PageShowsRecord | tools/generate_site.py:43-46 | `MakeRecipePage`: title and description carry no `<` or `>` and decode to the record's text; the metadata line (`MetaLine`, servings and total time escaped) carries no `<` or `>`; lists and badges read back into the record's lists |
| RecipePage.MissingServingsShowEmpty | tools/generate_site.py:45 | `MetaLine`: a row whose `servings` and `total_time_iso` cells are empty or missing shows both empty, not the `—` fallback |
| RecipePage.MetaHasNoEmDash | tools/generate_site.py:45 | `MetaLine`: the metadata line holds a `—` only when the servings or the total time hold one, so the fallback never appears |
| Index.EscapedSlugHasNoQuote | tools/generate_site.py:68 | escaping never introduces a quote into a slug |
| Index.ReadLinkOf | tools/generate_site.py:68 | `IndexItem`: the item of a recipe whose slug has no quote reads back as its slug and title |
| Index.IndexRoundTrip | tools/generate_site.py:66-68 | when no slug holds a quote, the index list holds exactly one link per recipe, in recipe order, each decoding to the recipe's slug and title |
| Index.MakeIndex | tools/generate_site.py:65-85 | the loop's list is the join of one `IndexItem` per recipe, and, when no slug holds a quote, it reads back as the recipes' (slug, title) pairs in order |
| Site.SuccessPrefix | tools/generate_site.py:103-117 | the loaded recipes are the values of the leading successful loads, and the next row, if any, fails |
| Site.SuccessPrefixIs | tools/generate_site.py:103-117 | the loaded recipes are determined by the rows that load and the first that fails |
| Site.LoadsSucceedIff | tools/generate_site.py:108-109 | a row loads exactly when it has `slug` and `title` |
| Site.Generate | tools/generate_site.py:100-124 | equals `Run`: the loop's writes and error are those of the run: a page per loaded row, then the first error or the index |
| Site.FailFast | tools/generate_site.py:100-121 | `Run`: when row `k` is the first missing a required column, the run reports that column after writing exactly the pages of rows before `k`, and never the index |
| Site.Succeeds | tools/generate_site.py:100-124 | `Run`: when every row loads, the run writes one page per row in row order, then the index, and reports no error |
| Site.FilesDomain | tools/generate_site.py:120-121 | a path holds a file exactly when some write went to it |
| Site.LastWriteWins | tools/generate_site.py:120-121 | a path holds the content of its last write |
| Site.PagePathInjective | tools/generate_site.py:120 | `PagePath`: distinct slugs give distinct page paths, and no page path is the index path |
| Site.SiteHasEveryPage | tools/generate_site.py:118-121 | after a successful run every recipe's page is on disk, the page of the last row with that slug, and the index is on disk |
| Site.HrefMatchesPathIff | tools/generate_site.py:68 | the index link equals the page path exactly when the slug holds none of `&`, `<`, `>` |

## Left out

- File I/O (reading the CSV, `os.makedirs`, opening and writing files) is not modelled; a run is the sequence of writes it performs, and the output directory is the map those writes leave. A write that fails part-way is not modelled.
- Command-line parsing with `argparse` is not modelled; the rows are the input.
- `csv.DictReader` is not modelled: a row is a map from column name to text. The `None` it gives for the missing cells of a short row, which would make `split` raise, is not modelled.
- The text `json.dumps` produces (indentation, escaping, `ensure_ascii=False`) is not modelled; the JSON-LD record is a value whose objects keep their keys in insertion order.
- The fixed HTML and CSS text of both templates is not modelled; only the values placed into them are.
- `os.path.join` path semantics (a slug holding `/`, `..` or an absolute path) are not modelled; a page path is the plain string `recipes/<slug>.html`.
- Characters are Unicode scalar values, so the lone surrogates a Python `str` can hold are not modelled; no encoding to UTF-8 is modelled.
- Index.MakeIndex: its read-back clause holds only for slugs without `'`, for the same reason as the next line.
- Index.IndexRoundTrip: stated only for slugs without `'`, because `html_escape` does not escape quotes and a quote in a slug ends the `href` attribute early.
- Where the documented behaviour and the code differ, the model follows the code: a row missing `slug` or `title` fails with an error naming the column only (a `KeyError`), not the row index; the metadata line shows missing `servings` and `total_time_iso` as empty text, because the record always holds those keys and the `—` fallback of the lookup at line 45 is never used.
