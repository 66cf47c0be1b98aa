/** The `recipes` table and the per-user queries over it. Rows are kept in the order they
    were saved, which is the order the unsorted queries return them in. */
module RecipeStore {
  import opened Wrappers
  import opened Seqs
  import opened Paging

  /** A stored recipe. `isSaved` marks the recipes the user kept in their collection. */
  datatype Recipe = Recipe(
    userId: string,
    title: string,
    description: string,
    prepTime: Option<int>,
    cookTime: Option<int>,
    totalTime: Option<int>,
    servings: int,
    difficulty: Option<string>,
    cuisine: Option<string>,
    ingredientsUsed: seq<string>,
    instructions: seq<string>,
    tags: seq<string>,
    isSaved: bool)

  function OwnedBy(u: string): Recipe -> bool { (r: Recipe) => r.userId == u }
  function SavedFlag(flag: bool): Recipe -> bool { (r: Recipe) => r.isSaved == flag }
  function OwnedWithFlag(u: string, flag: bool): Recipe -> bool { (r: Recipe) => r.userId == u && r.isSaved == flag }

  /** The user's saved recipes, as a list. */
  function FindByUserIdAndIsSavedTrue(rows: seq<Recipe>, u: string): (r: seq<Recipe>)
    ensures forall i :: 0 <= i < |r| ==> r[i] in rows && r[i].userId == u && r[i].isSaved
    ensures forall i :: 0 <= i < |rows| && rows[i].userId == u && rows[i].isSaved ==> rows[i] in r
  {
    Filter(rows, OwnedWithFlag(u, true))
  }

  /** One page of the user's recipes. */
  function FindByUserId(rows: seq<Recipe>, u: string, page: nat, size: nat): (p: Page<Recipe>)
    requires size >= 1
    ensures p.totalElements == |Filter(rows, OwnedBy(u))|
    ensures |p.content| == if page * size < p.totalElements then Min(size, p.totalElements - page * size) else 0
    ensures forall i :: 0 <= i < |p.content| ==> p.content[i] in rows && p.content[i].userId == u
  {
    PageOf(Filter(rows, OwnedBy(u)), page, size)
  }

  /** One page of the user's recipes whose saved flag is `flag`. */
  function FindByUserIdAndIsSaved(rows: seq<Recipe>, u: string, flag: bool, page: nat, size: nat): (p: Page<Recipe>)
    requires size >= 1
    ensures p.totalElements == |Filter(rows, OwnedWithFlag(u, flag))|
    ensures |p.content| == if page * size < p.totalElements then Min(size, p.totalElements - page * size) else 0
    ensures forall i :: 0 <= i < |p.content| ==> p.content[i] in rows && p.content[i].userId == u && p.content[i].isSaved == flag
  {
    PageOf(Filter(rows, OwnedWithFlag(u, flag)), page, size)
  }

  /** The number of the user's saved recipes; never more than the user's recipes. */
  function CountByUserIdAndIsSavedTrue(rows: seq<Recipe>, u: string): (n: nat)
    ensures n <= |Filter(rows, OwnedBy(u))|
    ensures n == 0 <==> forall i :: 0 <= i < |rows| && rows[i].userId == u ==> !rows[i].isSaved
  {
    FilterStronger(rows, OwnedBy(u), OwnedWithFlag(u, true));
    NoSavedIffEmpty(rows, u);
    |FindByUserIdAndIsSavedTrue(rows, u)|
  }

  lemma NoSavedIffEmpty(rows: seq<Recipe>, u: string)
    ensures Filter(rows, OwnedWithFlag(u, true)) == [] <==>
            forall i :: 0 <= i < |rows| && rows[i].userId == u ==> !rows[i].isSaved
  {
    var p := OwnedWithFlag(u, true);
    if forall i :: 0 <= i < |rows| && rows[i].userId == u ==> !rows[i].isSaved {
      assert forall i :: 0 <= i < |rows| ==> !p(rows[i]);
      FilterNone(rows, p);
    } else {
      var i :| 0 <= i < |rows| && rows[i].userId == u && rows[i].isSaved;
      assert p(rows[i]);
      assert rows[i] in Filter(rows, p);
    }
  }

  // ---------------------------------------------------------------- properties

  /** The saved and the unsaved recipes of a user together are all of the user's recipes. */
  lemma SavedAndUnsavedPartition(rows: seq<Recipe>, u: string)
    ensures FindByUserIdAndIsSaved(rows, u, true, 0, 1).totalElements
          + FindByUserIdAndIsSaved(rows, u, false, 0, 1).totalElements
         == FindByUserId(rows, u, 0, 1).totalElements
  {
    var mine := Filter(rows, OwnedBy(u));
    FilterStronger(rows, OwnedBy(u), OwnedWithFlag(u, true));
    FilterStronger(rows, OwnedBy(u), OwnedWithFlag(u, false));
    FilterCongruent(mine, OwnedWithFlag(u, true), SavedFlag(true));
    FilterCongruent(mine, OwnedWithFlag(u, false), SavedFlag(false));
    FilterComplement(mine, SavedFlag(true), SavedFlag(false));
  }

  /** Saving another user's recipe changes none of this user's query results. */
  lemma OtherUsersRecipesInvisible(rows: seq<Recipe>, r: Recipe, u: string, flag: bool)
    requires r.userId != u
    ensures Filter(rows + [r], OwnedBy(u)) == Filter(rows, OwnedBy(u))
    ensures Filter(rows + [r], OwnedWithFlag(u, flag)) == Filter(rows, OwnedWithFlag(u, flag))
    ensures FindByUserIdAndIsSavedTrue(rows + [r], u) == FindByUserIdAndIsSavedTrue(rows, u)
    ensures CountByUserIdAndIsSavedTrue(rows + [r], u) == CountByUserIdAndIsSavedTrue(rows, u)
  {
    FilterSnoc(rows, r, OwnedBy(u));
    FilterSnoc(rows, r, OwnedWithFlag(u, flag));
    FilterSnoc(rows, r, OwnedWithFlag(u, true));
  }

  /** Saving one of the user's recipes adds it, at the end, to the queries it matches. */
  lemma OwnRecipeListed(rows: seq<Recipe>, r: Recipe)
    ensures Filter(rows + [r], OwnedBy(r.userId)) == Filter(rows, OwnedBy(r.userId)) + [r]
    ensures CountByUserIdAndIsSavedTrue(rows + [r], r.userId)
         == CountByUserIdAndIsSavedTrue(rows, r.userId) + (if r.isSaved then 1 else 0)
  {
    FilterSnoc(rows, r, OwnedBy(r.userId));
    FilterSnoc(rows, r, OwnedWithFlag(r.userId, true));
  }

  /** Three recipes read two at a time: the first page holds two, and there are two pages. */
  lemma ThreeRecipesTwoPerPage(rows: seq<Recipe>, u: string)
    requires |Filter(rows, OwnedBy(u))| == 3
    ensures var p := FindByUserId(rows, u, 0, 2);
            |p.content| == 2 && p.totalElements == 3 && p.totalPages == 2
  {
  }

  /** Reading every page of the flag query reports, in saving order, exactly the user's
      recipes with that flag, and every such recipe. */
  lemma SavedFlagPagesCover(rows: seq<Recipe>, u: string, flag: bool, size: nat)
    requires size >= 1
    ensures var n := FindByUserIdAndIsSaved(rows, u, flag, 0, size).totalPages;
            var all := Pages(Filter(rows, OwnedWithFlag(u, flag)), n, size);
            all == Filter(rows, OwnedWithFlag(u, flag)) &&
            forall i :: 0 <= i < |rows| && rows[i].userId == u && rows[i].isSaved == flag ==> rows[i] in all
  {
    PagesReassemble(Filter(rows, OwnedWithFlag(u, flag)), size);
    forall i | 0 <= i < |rows| && rows[i].userId == u && rows[i].isSaved == flag
      ensures rows[i] in Filter(rows, OwnedWithFlag(u, flag))
    {
      assert OwnedWithFlag(u, flag)(rows[i]);
    }
  }

  /** Reading every page of the user's recipes reports each of them, in saving order. */
  lemma UserPagesCover(rows: seq<Recipe>, u: string, size: nat)
    requires size >= 1
    ensures var n := FindByUserId(rows, u, 0, size).totalPages;
            var all := Pages(Filter(rows, OwnedBy(u)), n, size);
            all == Filter(rows, OwnedBy(u)) &&
            forall i :: 0 <= i < |rows| && rows[i].userId == u ==> rows[i] in all
  {
    PagesReassemble(Filter(rows, OwnedBy(u)), size);
    forall i | 0 <= i < |rows| && rows[i].userId == u
      ensures rows[i] in Filter(rows, OwnedBy(u))
    {
      assert OwnedBy(u)(rows[i]);
    }
  }

  /** A saved and an unsaved recipe: each flag finds exactly its own one. */
  lemma EachFlagFindsItsOwn(a: Recipe, b: Recipe)
    requires a.userId == b.userId && a.isSaved && !b.isSaved
    ensures FindByUserIdAndIsSavedTrue([a, b], a.userId) == [a]
    ensures FindByUserIdAndIsSaved([a, b], a.userId, true, 0, 10).content == [a]
    ensures FindByUserIdAndIsSaved([a, b], a.userId, false, 0, 10).content == [b]
  {
    FilterSnoc([], a, OwnedWithFlag(a.userId, true));
    FilterSnoc([a], b, OwnedWithFlag(a.userId, true));
    FilterSnoc([], a, OwnedWithFlag(a.userId, false));
    FilterSnoc([a], b, OwnedWithFlag(a.userId, false));
    assert [a] + [b] == [a, b];
  }

  /** The `recipes` table. */
  class RecipeRepository {
    var rows: seq<Recipe>

    constructor ()
      ensures rows == []
    {
      rows := [];
    }

    method Save(r: Recipe)
      modifies this
      ensures rows == old(rows) + [r]
    {
      rows := rows + [r];
    }
  }
}
