/**
 * The recipe record built from one parsed input row (tools/generate_site.py:104-116).
 */
module Recipes {
  import opened Wrappers
  import opened Text
  import opened Fields

  /** One input row, already parsed: column name to cell text. */
  type Row = map<string, string>

  /** The record `main` builds for each row and hands to the page and index renderers. */
  datatype Recipe = Recipe(
    slug: string,
    title: string,
    description: string,
    servings: string,
    totalTimeIso: string,
    ingredients: seq<string>,
    steps: seq<string>,
    tags: seq<string>)

  /** The `KeyError` a required lookup raises, naming the missing column. */
  datatype LoadError = MissingColumn(column: string)

  const IngredientsColumn := "ingredients_pipe_separated"
  const StepsColumn := "steps_pipe_separated"
  const TagsColumn := "tags_comma_separated"

  /** `row.get(column, "")`. */
  function Get(row: Row, column: string): (v: string)
    ensures column in row ==> v == row[column]
    ensures column !in row ==> v == ""
  {
    if column in row then row[column] else ""
  }

  /** What every built record satisfies: its list fields hold clean items only. */
  predicate WellFormed(r: Recipe)
  {
    && (forall i :: 0 <= i < |r.ingredients| ==> IsCleanItem(r.ingredients[i], '|'))
    && (forall i :: 0 <= i < |r.steps| ==> IsCleanItem(r.steps[i], '|'))
    && (forall i :: 0 <= i < |r.tags| ==> IsCleanItem(r.tags[i], ','))
  }

  /**
   * The record for one row. `slug` and `title` are required lookups, evaluated in
   * that order; every other column falls back to `""`.
   */
  function BuildRecipe(row: Row): (result: Result<Recipe, LoadError>)
    ensures result.Success? <==> "slug" in row && "title" in row
    ensures "slug" !in row ==> result == Failure(MissingColumn("slug"))
    ensures "slug" in row && "title" !in row ==> result == Failure(MissingColumn("title"))
    ensures result.Success? ==> WellFormed(result.value)
    ensures result.Success? ==>
      && result.value.slug == row["slug"] && result.value.title == row["title"]
      && result.value.description == Get(row, "description")
      && result.value.servings == Get(row, "servings")
      && result.value.totalTimeIso == Get(row, "total_time_iso")
    ensures result.Success? ==>
      && result.value.ingredients == SplitField(Get(row, IngredientsColumn), '|')
      && result.value.steps == SplitField(Get(row, StepsColumn), '|')
      && result.value.tags == SplitField(Get(row, TagsColumn), ',')
  {
    var ingredients := SplitField(Get(row, IngredientsColumn), '|');
    var steps := SplitField(Get(row, StepsColumn), '|');
    var tags := SplitField(Get(row, TagsColumn), ',');
    if "slug" !in row then Failure(MissingColumn("slug"))
    else if "title" !in row then Failure(MissingColumn("title"))
    else Success(Recipe(
      row["slug"], row["title"], Get(row, "description"), Get(row, "servings"),
      Get(row, "total_time_iso"), ingredients, steps, tags))
  }
}
