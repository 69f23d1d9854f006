/**
 The 2×2 crafting matcher. A grid is read as four cells in row order; a
 cell is a block type or nothing, and both nothing and `Air` count as
 empty. Two recipes exist: one wood in the first cell makes four planks,
 and four planks make a crafting table.
 */
module Crafting {
  import opened Voxels
  import opened Inventories

  /** Cell `i` of a grid; a cell past the end reads as nothing. */
  function GridCell(grid: seq<Option<Block>>, i: nat): Option<Block>
  {
    if i < |grid| then grid[i] else None
  }

  /** An empty cell: nothing, or `Air` (block code 0, which is falsy). */
  predicate IsEmpty(x: Option<Block>)
  {
    x.None? || x == Some(Air)
  }

  /** `checkRecipe`: the product of a grid, if it matches a recipe. */
  function CheckRecipe(grid: seq<Option<Block>>): (r: Option<Stack>)
    ensures r.Some? ==> r.value.count > 0 && r.value.block != Air
  {
    if GridCell(grid, 0) == Some(Wood) && IsEmpty(GridCell(grid, 1)) && IsEmpty(GridCell(grid, 2)) && IsEmpty(GridCell(grid, 3)) then
      Some(Stack(Planks, 4))
    else if GridCell(grid, 0) == Some(Planks) && GridCell(grid, 1) == Some(Planks) &&
            GridCell(grid, 2) == Some(Planks) && GridCell(grid, 3) == Some(Planks) then
      Some(Stack(CraftingTable, 1))
    else None
  }

  /** A recipe of the recipe table: its input types, its product and its
      declared shape. */
  datatype Recipe = Recipe(input: seq<Block>, output: Stack, shape: seq<int>)

  /** The recipe table (`RECIPES`). */
  const Recipes: seq<Recipe> := [
    Recipe([Wood], Stack(Planks, 4), [1]),
    Recipe([Planks, Planks, Planks, Planks], Stack(CraftingTable, 1), [2, 2])
  ]

  /** A grid holds a recipe's input: the input types fill the first cells
      in row order and every other cell of the 2×2 grid is empty. */
  predicate Fits(grid: seq<Option<Block>>, rc: Recipe)
  {
    forall i: nat :: i < 4 ==>
      if i < |rc.input| then GridCell(grid, i) == Some(rc.input[i]) else IsEmpty(GridCell(grid, i))
  }

  /** The matcher agrees with the recipe table: a grid that holds a
      recipe's input yields that recipe's product, and a grid that yields a
      product holds the input of a recipe with that product. */
  lemma CheckRecipeFollowsTable(grid: seq<Option<Block>>, k: int)
    requires 0 <= k < |Recipes|
    ensures Fits(grid, Recipes[k]) ==> CheckRecipe(grid) == Some(Recipes[k].output)
    ensures CheckRecipe(grid).Some? ==>
      exists j :: 0 <= j < |Recipes| && Fits(grid, Recipes[j]) && CheckRecipe(grid) == Some(Recipes[j].output)
  {
    if Fits(grid, Recipes[k]) {
      assert GridCell(grid, 0) == Some(Recipes[k].input[0]);
      if k == 1 {
        assert GridCell(grid, 1) == Some(Planks);
        assert GridCell(grid, 2) == Some(Planks);
        assert GridCell(grid, 3) == Some(Planks);
      } else {
        assert IsEmpty(GridCell(grid, 1)) && IsEmpty(GridCell(grid, 2)) && IsEmpty(GridCell(grid, 3));
      }
    }
    var r := CheckRecipe(grid);
    if r == Some(Stack(Planks, 4)) {
      assert Fits(grid, Recipes[0]);
    } else if r.Some? {
      assert Fits(grid, Recipes[1]);
    }
  }

  /** No grid holds the input of both recipes. */
  lemma RecipesExclusive(grid: seq<Option<Block>>)
    ensures !(Fits(grid, Recipes[0]) && Fits(grid, Recipes[1]))
  {
    if Fits(grid, Recipes[0]) {
      assert IsEmpty(GridCell(grid, 1));
    }
  }

  /** Nothing and `Air` are interchangeable in every cell. */
  lemma EmptyCellsAlike(grid: seq<Option<Block>>, i: int)
    requires 0 <= i < |grid|
    ensures CheckRecipe(grid[i := None]) == CheckRecipe(grid[i := Some(Air)])
  {
    var g1, g2 := grid[i := None], grid[i := Some(Air)];
    assert forall n: nat :: n != i ==> GridCell(g1, n) == GridCell(g2, n);
  }
}
