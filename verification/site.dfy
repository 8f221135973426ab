/**
 * `main` (tools/generate_site.py:92-124): loads the rows one by one, writes each
 * recipe's page as soon as its row is loaded, and writes the index after the last
 * row. The output directory is modelled as the sequence of files written, and the
 * site it leaves behind as the map from path to the content written last.
 */
module Site {
  import opened Wrappers
  import opened Text
  import opened Html
  import opened Recipes
  import opened RecipePage
  import opened Index

  /** What a generated file holds. */
  datatype Content = RecipeHtml(page: Page) | IndexHtml(index: IndexPage)

  /** One file write: a path relative to the output directory and its content. */
  datatype Write = Write(path: string, content: Content)

  /** Where a recipe page is written (tools/generate_site.py:120): the raw slug, not escaped. */
  function PagePath(slug: string): string
  {
    "recipes/" + slug + ".html"
  }

  const IndexPath := "index.html"

  /** The page write of one recipe (tools/generate_site.py:118-121). */
  function PageWrite(r: Recipe): Write
  {
    Write(PagePath(r.slug), RecipeHtml(MakeRecipePage(r)))
  }

  /** The page write for each recipe, in order. */
  function PageWrites(recipes: seq<Recipe>): seq<Write>
  {
    seq(|recipes|, i requires 0 <= i < |recipes| => PageWrite(recipes[i]))
  }

  /** The load result of every row: a record, or the missing column that stops the run. */
  function Loads(rows: seq<Row>): seq<Result<Recipe, LoadError>>
  {
    seq(|rows|, i requires 0 <= i < |rows| => BuildRecipe(rows[i]))
  }

  /** The values of the results before the first failure. */
  function SuccessPrefix<T, E>(results: seq<Result<T, E>>): (values: seq<T>)
    ensures |values| <= |results|
    ensures forall i :: 0 <= i < |values| ==> results[i] == Success(values[i])
    ensures |values| < |results| ==> results[|values|].Failure?
  {
    if results == [] || results[0].Failure? then []
    else [results[0].value] + SuccessPrefix(results[1..])
  }

  /** The prefix is determined by the results that succeed and the first that fails. */
  lemma {:induction false} SuccessPrefixIs<T, E>(results: seq<Result<T, E>>, values: seq<T>)
    requires |values| <= |results|
    requires forall i :: 0 <= i < |values| ==> results[i] == Success(values[i])
    requires |values| < |results| ==> results[|values|].Failure?
    ensures SuccessPrefix(results) == values
  {
    if results != [] && values != [] {
      assert results[0] == Success(values[0]);
      SuccessPrefixIs(results[1..], values[1..]);
      assert values == [values[0]] + values[1..];
    }
  }

  /** The prefix stops at the first failure and not before. */
  lemma SuccessPrefixLength<T, E>(results: seq<Result<T, E>>, k: nat)
    requires k <= |results|
    requires forall j :: 0 <= j < k ==> results[j].Success?
    requires k < |results| ==> results[k].Failure?
    ensures |SuccessPrefix(results)| == k
  {
  }

  /** Extending the prefix by one more success. */
  lemma SuccessSnoc<T, E>(results: seq<Result<T, E>>, values: seq<T>, v: T)
    requires |values| < |results| && results[|values|] == Success(v)
    requires forall j :: 0 <= j < |values| ==> results[j] == Success(values[j])
    ensures forall j :: 0 <= j < |values| + 1 ==> results[j] == Success((values + [v])[j])
  {
  }

  /** A row loads exactly when it has both required columns. */
  lemma LoadsSucceedIff(rows: seq<Row>)
    ensures forall i :: 0 <= i < |rows| ==>
      (Loads(rows)[i].Success? <==> "slug" in rows[i] && "title" in rows[i])
  {
  }

  /** The files a run wrote, in order, and the error that stopped it, if any. */
  datatype Outcome = Outcome(writes: seq<Write>, failure: Option<LoadError>)

  /** The index write of a run that loaded `recipes`. */
  function IndexWrite(recipes: seq<Recipe>): Write
  {
    Write(IndexPath, IndexHtml(IndexPage(JoinWith(IndexItems(recipes), ""))))
  }

  /**
   * The files a run writes, in order, and the error that stopped it: a page per
   * loaded row, then either the error of the first row that fails to load or the index.
   */
  function Run(rows: seq<Row>): Outcome
  {
    var results := Loads(rows);
    var recipes := SuccessPrefix(results);
    if |recipes| < |rows| then Outcome(PageWrites(recipes), Some(results[|recipes|].error))
    else Outcome(PageWrites(recipes) + [IndexWrite(recipes)], None)
  }

  lemma PageWritesSnoc(recipes: seq<Recipe>, r: Recipe)
    ensures PageWrites(recipes + [r]) == PageWrites(recipes) + [PageWrite(r)]
  {
  }

  /** `main()` without argument parsing and file I/O: one row at a time, the index last. */
  method Generate(rows: seq<Row>) returns (writes: seq<Write>, failure: Option<LoadError>)
    ensures Outcome(writes, failure) == Run(rows)
  {
    ghost var results := Loads(rows);
    var recipes: seq<Recipe> := [];
    writes := [];
    var i := 0;
    while i < |rows|
      invariant 0 <= i <= |rows| && |recipes| == i
      invariant forall j :: 0 <= j < i ==> results[j] == Success(recipes[j])
      invariant writes == PageWrites(recipes)
    {
      var loaded := BuildRecipe(rows[i]);
      assert loaded == results[i];
      match loaded
      case Failure(e) =>
        SuccessPrefixIs(results, recipes);
        failure := Some(e);
        return;
      case Success(recipe) =>
        PageWritesSnoc(recipes, recipe);
        SuccessSnoc(results, recipes, recipe);
        recipes := recipes + [recipe];
        var page := MakeRecipePage(recipe);
        writes := writes + [Write(PagePath(recipe.slug), RecipeHtml(page))];
        i := i + 1;
    }
    SuccessPrefixIs(results, recipes);
    var index := MakeIndex(recipes);
    writes := writes + [Write(IndexPath, IndexHtml(index))];
    failure := None;
  }

  /** A run whose row `k` is the first that fails writes the pages of the rows before it. */
  lemma StopsAt(rows: seq<Row>, k: nat)
    requires k < |rows| && Loads(rows)[k].Failure?
    requires forall j :: 0 <= j < k ==> Loads(rows)[j].Success?
    ensures |SuccessPrefix(Loads(rows))| == k
    ensures Run(rows) == Outcome(PageWrites(SuccessPrefix(Loads(rows))), Some(Loads(rows)[k].error))
  {
    SuccessPrefixLength(Loads(rows), k);
  }

  /** The loaded recipes are the records built from their rows. */
  lemma LoadedFromRows(rows: seq<Row>, recipes: seq<Recipe>)
    requires recipes == SuccessPrefix(Loads(rows))
    ensures forall j :: 0 <= j < |recipes| ==> BuildRecipe(rows[j]) == Success(recipes[j])
  {
    forall j | 0 <= j < |recipes|
      ensures BuildRecipe(rows[j]) == Success(recipes[j])
    {
      assert Loads(rows)[j] == Success(recipes[j]);
    }
  }

  /** The page writes of the loaded recipes are the page writes of their rows. */
  lemma PageWritesOfRows(rows: seq<Row>, recipes: seq<Recipe>)
    requires |recipes| <= |rows|
    requires forall j :: 0 <= j < |recipes| ==> BuildRecipe(rows[j]) == Success(recipes[j])
    ensures forall j :: 0 <= j < |recipes| ==> "slug" in rows[j] && "title" in rows[j]
    ensures forall j :: 0 <= j < |recipes| ==> (PageWrites(recipes)[j] == PageWrite(BuildRecipe(rows[j]).value))
  {
  }

  /**
   * Fail-fast: when row `k` is the first without `slug` or `title`, the run stops with
   * that column's error after writing exactly the pages of rows `0..k-1`, and never
   * writes the index.
   */
  lemma FailFast(rows: seq<Row>, k: nat)
    requires k < |rows| && !("slug" in rows[k] && "title" in rows[k])
    requires forall j :: 0 <= j < k ==> "slug" in rows[j] && "title" in rows[j]
    ensures Run(rows).failure == Some(MissingColumn(if "slug" !in rows[k] then "slug" else "title"))
    ensures |Run(rows).writes| == k
    ensures forall j :: 0 <= j < k ==> (Run(rows).writes[j] == PageWrite(BuildRecipe(rows[j]).value))
    ensures forall w :: w in Run(rows).writes ==> w.path != IndexPath
  {
    LoadsSucceedIff(rows);
    StopsAt(rows, k);
    LoadedFromRows(rows, SuccessPrefix(Loads(rows)));
    PageWritesOfRows(rows, SuccessPrefix(Loads(rows)));
    assert Loads(rows)[k] == BuildRecipe(rows[k]);
    forall w | w in Run(rows).writes
      ensures w.path != IndexPath
    {
      assert w.path[0] == 'r';
    }
  }

  /**
   * A run over rows that all load writes one page per row, in row order, and then
   * the index, and reports no error.
   */
  lemma Succeeds(rows: seq<Row>)
    requires forall i :: 0 <= i < |rows| ==> "slug" in rows[i] && "title" in rows[i]
    ensures Run(rows).failure == None
    ensures |Run(rows).writes| == |rows| + 1
    ensures forall j :: 0 <= j < |rows| ==> (Run(rows).writes[j] == PageWrite(BuildRecipe(rows[j]).value))
    ensures Run(rows).writes[|rows|] == IndexWrite(SuccessPrefix(Loads(rows)))
  {
    LoadsSucceedIff(rows);
    SuccessPrefixLength(Loads(rows), |rows|);
  }

  /** The paths a successful run writes to: the page of each row, then the index. */
  lemma WritePaths(rows: seq<Row>)
    requires forall i :: 0 <= i < |rows| ==> "slug" in rows[i] && "title" in rows[i]
    ensures |Run(rows).writes| == |rows| + 1
    ensures forall j :: 0 <= j < |rows| ==> Run(rows).writes[j].path == PagePath(rows[j]["slug"])
    ensures Run(rows).writes[|rows|].path == IndexPath
  {
    Succeeds(rows);
  }

  // ------------------------------------------------------------- the site

  /** The files the writes leave behind: a later write to a path replaces an earlier one. */
  function Files(writes: seq<Write>): map<string, Content>
  {
    if writes == [] then map[]
    else Files(writes[..|writes| - 1])[writes[|writes| - 1].path := writes[|writes| - 1].content]
  }

  /** A path holds a file exactly when some write went to it. */
  lemma {:induction false} FilesDomain(writes: seq<Write>, p: string)
    ensures p in Files(writes) <==> exists j :: 0 <= j < |writes| && writes[j].path == p
  {
    if writes != [] {
      var init := writes[..|writes| - 1];
      FilesDomain(init, p);
      if p in Files(init) {
        var j :| 0 <= j < |init| && init[j].path == p;
        assert writes[j].path == p;
      }
      if exists j :: 0 <= j < |writes| && writes[j].path == p {
        var j :| 0 <= j < |writes| && writes[j].path == p;
        if j < |init| {
          assert init[j].path == p;
        }
      }
    }
  }

  /** The content at a path is that of the last write to it. */
  lemma {:induction false} LastWriteWins(writes: seq<Write>, k: nat)
    requires k < |writes|
    requires forall j :: k < j < |writes| ==> writes[j].path != writes[k].path
    ensures writes[k].path in Files(writes) && Files(writes)[writes[k].path] == writes[k].content
  {
    var last := |writes| - 1;
    if k < last {
      var init := writes[..last];
      assert init[k] == writes[k];
      LastWriteWins(init, k);
    }
  }

  /** Distinct slugs give distinct page paths, and no page path is the index path. */
  lemma PagePathInjective(a: string, b: string)
    ensures PagePath(a) == PagePath(b) <==> a == b
    ensures PagePath(a) != IndexPath
  {
    if PagePath(a) == PagePath(b) {
      assert |a| == |b|;
      assert forall i :: 0 <= i < |a| ==> a[i] == PagePath(a)[8 + i];
    }
    assert PagePath(a)[0] == 'r';
  }

  /**
   * After a successful run every loaded recipe has a page at its slug's path, the
   * page of the last recipe with that slug: a duplicate slug silently replaces
   * the earlier page.
   */
  lemma SiteHasEveryPage(rows: seq<Row>, i: nat)
    requires forall j :: 0 <= j < |rows| ==> "slug" in rows[j] && "title" in rows[j]
    requires i < |rows|
    requires forall j :: i < j < |rows| ==> rows[j]["slug"] != rows[i]["slug"]
    ensures var files := Files(Run(rows).writes);
      && PagePath(rows[i]["slug"]) in files
      && files[PagePath(rows[i]["slug"])] == PageWrite(BuildRecipe(rows[i]).value).content
      && IndexPath in files
  {
    var writes := Run(rows).writes;
    WritePaths(rows);
    LaterPathsDiffer(rows, writes, i);
    LastWriteWins(writes, i);
    LastWriteWins(writes, |rows|);
    Succeeds(rows);
  }

  /** No later write goes to the page path of row `i` when no later row shares its slug. */
  lemma LaterPathsDiffer(rows: seq<Row>, writes: seq<Write>, i: nat)
    requires forall j :: 0 <= j < |rows| ==> "slug" in rows[j]
    requires i < |rows|
    requires forall j :: i < j < |rows| ==> rows[j]["slug"] != rows[i]["slug"]
    requires |writes| == |rows| + 1
    requires forall j :: 0 <= j < |rows| ==> writes[j].path == PagePath(rows[j]["slug"])
    requires writes[|rows|].path == IndexPath
    ensures forall j :: i < j < |writes| ==> writes[j].path != writes[i].path
  {
    forall j | i < j < |writes|
      ensures writes[j].path != writes[i].path
    {
      PagePathInjective(rows[i]["slug"], if j < |rows| then rows[j]["slug"] else rows[i]["slug"]);
    }
  }

  /**
   * The index links to `recipes/<escaped slug>.html` while the page is written at
   * `recipes/<slug>.html`: the two agree exactly when the slug holds none of `&`, `<`, `>`.
   */
  lemma HrefMatchesPathIff(slug: string)
    ensures IndexHref(slug) == PagePath(slug) <==> ('&' !in slug && '<' !in slug && '>' !in slug)
  {
    EscapeIsIdentityIff(slug);
    if IndexHref(slug) == PagePath(slug) {
      var e := HtmlEscape(slug);
      assert |e| == |slug|;
      assert forall i :: 0 <= i < |e| ==> e[i] == IndexHref(slug)[8 + i] && slug[i] == PagePath(slug)[8 + i];
      assert e == slug;
    }
  }
}
