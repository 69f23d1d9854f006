/**
 The player's discrete actions: scrolling the hotbar selection, breaking
 the block under the crosshair into the inventory, and placing the selected
 block. The ray cast that finds the target cell and the test of whether a
 placed block would overlap the player's box are inputs: the target is the
 already-resolved cell (nothing when the ray hits no mesh), and the overlap
 test is a boolean.
 */
module Players {
  import opened Voxels
  import opened Inventories
  import Chunks
  import Worlds

  /** The hotbar index after one wheel step: forward for a positive
      `deltaY`, backward otherwise, wrapping around the nine slots. */
  function Scroll(i: int, deltaY: real): (r: int)
    ensures 0 <= i < HotbarSize ==> 0 <= r < HotbarSize
  {
    if deltaY > 0.0 then Worlds.TruncRem(i + 1, 9) else Worlds.TruncRem(i - 1 + 9, 9)
  }

  /** A step back undoes a step forward and vice versa. */
  lemma ScrollInverse(i: int, up: real, down: real)
    requires 0 <= i < HotbarSize && up > 0.0 && down <= 0.0
    ensures Scroll(Scroll(i, up), down) == i
    ensures Scroll(Scroll(i, down), up) == i
  {
  }

  /** The selection after `n` wheel steps with the same `deltaY`. */
  function ScrollTimes(i: int, deltaY: real, n: nat): int
  {
    if n == 0 then i else Scroll(ScrollTimes(i, deltaY, n - 1), deltaY)
  }

  /** Scrolling moves the selection cyclically: `n` steps forward from `i`
      select `(i + n) mod 9`, `n` steps back select `(i - n) mod 9`, so nine
      steps in either direction return to the start. */
  lemma {:induction false} ScrollCycles(i: int, deltaY: real, n: nat)
    requires 0 <= i < HotbarSize
    ensures ScrollTimes(i, deltaY, n) == if deltaY > 0.0 then (i + n) % 9 else (i - n) % 9
  {
    if n > 0 {
      ScrollCycles(i, deltaY, n - 1);
      var prev := ScrollTimes(i, deltaY, n - 1);
      if deltaY > 0.0 {
        assert prev == (i + n - 1) % 9;
        Mod9Step(i + n - 1);
        assert Scroll(prev, deltaY) == (prev + 1) % 9;
      } else {
        assert prev == (i - n + 1) % 9;
        Mod9Step(i - n + 1);
        assert Scroll(prev, deltaY) == (prev - 1 + 9) % 9;
      }
    }
  }

  /** One step forward or back commutes with reducing modulo 9. */
  lemma Mod9Step(a: int)
    ensures (a % 9 + 1) % 9 == (a + 1) % 9
    ensures (a % 9 - 1 + 9) % 9 == (a - 1) % 9
    ensures (a - 1) % 9 == (a - 1 + 9) % 9
  {
    var q, r := a / 9, a % 9;
    if r < 8 {
      DivMod9(r + 1, 0, r + 1);
      DivMod9(a + 1, q, r + 1);
    } else {
      DivMod9(r + 1, 1, 0);
      DivMod9(a + 1, q + 1, 0);
    }
    if r > 0 {
      DivMod9(r - 1 + 9, 1, r - 1);
      DivMod9(a - 1, q, r - 1);
      DivMod9(a - 1 + 9, q + 1, r - 1);
    } else {
      DivMod9(r - 1 + 9, 0, 8);
      DivMod9(a - 1, q - 1, 8);
      DivMod9(a - 1 + 9, q, 8);
    }
  }

  /** Division by 9 with a known quotient and remainder. */
  lemma DivMod9(n: int, q: int, r: int)
    requires 0 <= r < 9 && n == q * 9 + r
    ensures n / 9 == q && n % 9 == r
  {
  }

  /** The wheel handler: only the selection changes. */
  function ScrollHotbar(inv: Inventory, deltaY: real): (r: Inventory)
    ensures r.hotbar == inv.hotbar && r.slots == inv.slots
    ensures Valid(inv) ==> Valid(r)
  {
    inv.(selected := Scroll(inv.selected, deltaY))
  }

  /** The state the player's actions change: the world and the inventory. */
  datatype Game = Game(world: Worlds.World, inventory: Inventory)

  /** `breakBlock` on the target cell: a solid block there is replaced by
      `Air` and one of it is added to the inventory. No target, or `Air`
      there, changes nothing. */
  function BreakBlock(g: Game, height: Chunks.HeightFn, target: Option<Cell>): (r: Game)
    ensures target.None? ==> r == g
    ensures target.Some? && Worlds.GetBlock(g.world, target.value) == Air ==> r == g
  {
    match target
    case None => g
    case Some(p) =>
      var t := Worlds.GetBlock(g.world, p);
      if t == Air then g
      else Game(Worlds.SetBlock(g.world, height, p, Air), AddItem(g.inventory, t, 1).inv)
  }

  /** `placeBlock` on the target cell: unless the selected hotbar slot is
      empty, there is no target, or the block would overlap the player, the
      selected type is written at the target and one is taken from the
      selected stack. */
  function PlaceBlock(g: Game, height: Chunks.HeightFn, target: Option<Cell>, overlaps: bool): (r: Game)
    ensures GetSelectedItem(g.inventory).None? ==> r == g
    ensures target.None? || overlaps ==> r == g
  {
    match GetSelectedItem(g.inventory)
    case None => g
    case Some(item) =>
      match target
      case None => g
      case Some(p) =>
        if overlaps then g
        else Game(Worlds.SetBlock(g.world, height, p, item.block), RemoveSelectedItem(g.inventory, 1).inv)
  }

  /** Breaking a solid block of type `t` at `p`: `p` becomes `Air`, every
      other cell reads as before, and when the inventory has room it holds
      one more `t` and the same number of every other type. With no room
      the inventory is unchanged and the block is gone. */
  lemma BreakBlockEffect(g: Game, height: Chunks.HeightFn, p: Cell, q: Cell, c: Block)
    requires Worlds.GetBlock(g.world, p) != Air
    ensures var t := Worlds.GetBlock(g.world, p);
      var r, added := BreakBlock(g, height, Some(p)), AddItem(g.inventory, t, 1);
      && Worlds.GetBlock(r.world, p) == Air
      && (q != p ==> Worlds.GetBlock(r.world, q) == Worlds.GetBlock(g.world, q))
      && r.world.chunks.Keys == g.world.chunks.Keys
      && (added.ok ==> Total(r.inventory, t) == Total(g.inventory, t) + 1)
      && (!added.ok ==> r.inventory == g.inventory)
      && (c != t ==> Total(r.inventory, c) == Total(g.inventory, c))
  {
    var t := Worlds.GetBlock(g.world, p);
    Worlds.SetBlockBlocks(g.world, height, p, Air, q);
    AddItemCounts(g.inventory, t, 1, c);
  }

  /** Placing the selected stack of type `t` at `p`: `p` holds `t`, every
      other cell of a loaded chunk reads as before, and the inventory holds
      one `t` fewer and the same number of every other type. */
  lemma PlaceBlockEffect(g: Game, height: Chunks.HeightFn, p: Cell, q: Cell, c: Block)
    requires Valid(g.inventory) && GetSelectedItem(g.inventory).Some?
    ensures var t, r := GetSelectedItem(g.inventory).value.block, PlaceBlock(g, height, Some(p), false);
      && Worlds.GetBlock(r.world, p) == t
      && (q != p && Worlds.ChunkOf(q) in g.world.chunks ==> Worlds.GetBlock(r.world, q) == Worlds.GetBlock(g.world, q))
      && Total(r.inventory, t) == Total(g.inventory, t) - 1
      && (c != t ==> Total(r.inventory, c) == Total(g.inventory, c))
  {
    var item := GetSelectedItem(g.inventory).value;
    Worlds.SetBlockBlocks(g.world, height, p, item.block, q);
    RemoveSelectedCounts(g.inventory, 1, c);
  }

  /** Breaking keeps the inventory invariant and the world's chunks stored
      under their own coordinates. */
  lemma BreakKeepsInvariants(g: Game, height: Chunks.HeightFn, target: Option<Cell>)
    requires Valid(g.inventory) && Worlds.WellFormed(g.world)
    ensures Valid(BreakBlock(g, height, target).inventory)
    ensures Worlds.WellFormed(BreakBlock(g, height, target).world)
  {
    if target.Some? && Worlds.GetBlock(g.world, target.value) != Air {
      var p := target.value;
      AddItemValid(g.inventory, Worlds.GetBlock(g.world, p), 1);
      Worlds.SetBlockWellFormed(g.world, height, p, Air);
    }
  }

  /** Placing keeps the inventory invariant and the world's chunks stored
      under their own coordinates. */
  lemma PlaceKeepsInvariants(g: Game, height: Chunks.HeightFn, target: Option<Cell>, overlaps: bool)
    requires Valid(g.inventory) && Worlds.WellFormed(g.world)
    ensures Valid(PlaceBlock(g, height, target, overlaps).inventory)
    ensures Worlds.WellFormed(PlaceBlock(g, height, target, overlaps).world)
  {
    if target.Some? && GetSelectedItem(g.inventory).Some? && !overlaps {
      RemoveSelectedValid(g.inventory, 1);
      Worlds.SetBlockWellFormed(g.world, height, target.value, GetSelectedItem(g.inventory).value.block);
    }
  }

  /** Taking one block from the selected stack leaves room for a block of
      its type: the stack is still there, or its slot is now empty. */
  lemma RemoveLeavesRoom(inv: Inventory)
    requires Valid(inv) && GetSelectedItem(inv).Some?
    ensures AddItem(RemoveSelectedItem(inv, 1).inv, GetSelectedItem(inv).value.block, 1).ok
  {
    var r := RemoveSelectedItem(inv, 1).inv;
    var s := inv.selected;
    assert r.hotbar[s].None? || r.hotbar[s].value.block == GetSelectedItem(inv).value.block;
  }

  /** Placing a block and breaking it again gives back exactly the blocks
      the inventory held: taking one from the selected stack always leaves
      room (the same stack, or the slot it emptied), so the broken block is
      never lost. The target cell ends up `Air`. */
  lemma PlaceThenBreak(g: Game, height: Chunks.HeightFn, p: Cell, c: Block)
    requires Valid(g.inventory) && GetSelectedItem(g.inventory).Some?
    ensures var r := BreakBlock(PlaceBlock(g, height, Some(p), false), height, Some(p));
      && Total(r.inventory, c) == Total(g.inventory, c)
      && Worlds.GetBlock(r.world, p) == Air
  {
    var g1 := PlaceBlock(g, height, Some(p), false);
    PlaceBlockEffect(g, height, p, p, c);
    RemoveLeavesRoom(g.inventory);
    BreakBlockEffect(g1, height, p, p, c);
  }
}
