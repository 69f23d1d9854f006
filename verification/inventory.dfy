/**
 The player's inventory: 27 main slots and a 9-slot hotbar, each slot empty
 or holding a stack of one block type, and the selected hotbar index.
 Adding an item merges it into a stack of the same type or starts a new
 stack, always preferring the hotbar; removing takes from the selected
 hotbar stack.
 */
module Inventories {
  import opened Voxels

  const HotbarSize: int := 9
  const SlotCount: int := 27

  /** A stack of `count` blocks of one type. */
  datatype Stack = Stack(block: Block, count: int)

  datatype Inventory = Inventory(slots: seq<Option<Stack>>, hotbar: seq<Option<Stack>>, selected: int)

  /** The result of an inventory operation and whether it succeeded. */
  datatype Outcome = Outcome(inv: Inventory, ok: bool)

  /** Slot `x` holds a stack of type `b`. */
  predicate Holds(x: Option<Stack>, b: Block)
  {
    x.Some? && x.value.block == b
  }

  /** No two stacks in `s` have the same type. */
  predicate DistinctTypes(s: seq<Option<Stack>>)
  {
    forall i, j :: 0 <= i < j < |s| && s[i].Some? && s[j].Some? ==> s[i].value.block != s[j].value.block
  }

  /** Every stack in `s` holds at least one solid block. */
  predicate SolidStacks(s: seq<Option<Stack>>)
  {
    forall i :: 0 <= i < |s| && s[i].Some? ==> s[i].value.block != Air && s[i].value.count > 0
  }

  /** The invariant the game keeps: the slot counts, a selection inside the
      hotbar, no type stacked twice within the hotbar or within the main
      slots, and only non-empty stacks of solid blocks. */
  predicate Valid(inv: Inventory)
  {
    && |inv.hotbar| == HotbarSize && |inv.slots| == SlotCount
    && 0 <= inv.selected < HotbarSize
    && DistinctTypes(inv.hotbar) && DistinctTypes(inv.slots)
    && SolidStacks(inv.hotbar) && SolidStacks(inv.slots)
  }

  /** The position of the first stack of type `b` in `s`, if any. */
  function FindStack(s: seq<Option<Stack>>, b: Block): (r: Option<nat>)
    ensures r.Some? ==> r.value < |s| && Holds(s[r.value], b)
    ensures r.Some? ==> forall i :: 0 <= i < r.value ==> !Holds(s[i], b)
    ensures r.None? <==> forall i :: 0 <= i < |s| ==> !Holds(s[i], b)
  {
    if |s| == 0 then None
    else if Holds(s[0], b) then Some(0)
    else
      match FindStack(s[1..], b)
      case None => None
      case Some(k) => Some(k + 1)
  }

  /** The position of the first empty slot in `s`, if any. */
  function FirstEmpty(s: seq<Option<Stack>>): (r: Option<nat>)
    ensures r.Some? ==> r.value < |s| && s[r.value].None?
    ensures r.Some? ==> forall i :: 0 <= i < r.value ==> s[i].Some?
    ensures r.None? <==> forall i :: 0 <= i < |s| ==> s[i].Some?
  {
    if |s| == 0 then None
    else if s[0].None? then Some(0)
    else
      match FirstEmpty(s[1..])
      case None => None
      case Some(k) => Some(k + 1)
  }

  /** Adds `count` blocks of type `b` to one row of slots: into the first
      stack of that type, else as a new stack in the first empty slot, else
      not at all. */
  function AddTo(s: seq<Option<Stack>>, b: Block, count: int): (r: Option<seq<Option<Stack>>>)
    ensures r.Some? ==> |r.value| == |s|
    ensures r.None? <==> forall i :: 0 <= i < |s| ==> s[i].Some? && s[i].value.block != b
  {
    match FindStack(s, b)
    case Some(i) => Some(s[i := Some(Stack(b, s[i].value.count + count))])
    case None =>
      match FirstEmpty(s)
      case Some(i) => Some(s[i := Some(Stack(b, count))])
      case None => None
  }

  /** `addItem`: the hotbar first, then the main slots. Fails, changing
      nothing, when every slot of both holds a stack of another type. */
  function AddItem(inv: Inventory, b: Block, count: int): (r: Outcome)
    ensures r.inv.selected == inv.selected
    ensures !r.ok ==> r.inv == inv
    ensures r.ok <==>
      (exists i :: 0 <= i < |inv.hotbar| && (inv.hotbar[i].None? || inv.hotbar[i].value.block == b)) ||
      (exists i :: 0 <= i < |inv.slots| && (inv.slots[i].None? || inv.slots[i].value.block == b))
  {
    match AddTo(inv.hotbar, b, count)
    case Some(h) => Outcome(inv.(hotbar := h), true)
    case None =>
      match AddTo(inv.slots, b, count)
      case Some(s) => Outcome(inv.(slots := s), true)
      case None => Outcome(inv, false)
  }

  /** The number of blocks of type `b` held by a row of slots. */
  function CountIn(s: seq<Option<Stack>>, b: Block): int
  {
    if |s| == 0 then 0 else CountIn(s[..|s| - 1], b) + Share(s[|s| - 1], b)
  }

  /** The blocks of type `b` in one slot. */
  function Share(x: Option<Stack>, b: Block): int
  {
    if Holds(x, b) then x.value.count else 0
  }

  /** The number of blocks of type `b` held by the whole inventory. */
  function Total(inv: Inventory, b: Block): int
  {
    CountIn(inv.hotbar, b) + CountIn(inv.slots, b)
  }

  /** Replacing one slot changes a count by the difference of that slot's
      shares. */
  lemma {:induction false} CountInUpdate(s: seq<Option<Stack>>, i: int, x: Option<Stack>, b: Block)
    requires 0 <= i < |s|
    ensures CountIn(s[i := x], b) == CountIn(s, b) - Share(s[i], b) + Share(x, b)
    decreases |s|
  {
    var s' := s[i := x];
    var n := |s| - 1;
    if i < n {
      assert s'[..n] == s[..n][i := x];
      CountInUpdate(s[..n], i, x, b);
    } else {
      assert s'[..n] == s[..n];
    }
  }

  /** The slot `AddTo` fills: the first stack of type `b`, or else the
      first empty slot. */
  function AddSlot(s: seq<Option<Stack>>, b: Block): Option<nat>
  {
    if FindStack(s, b).Some? then FindStack(s, b) else FirstEmpty(s)
  }

  /** Where `AddTo` puts the blocks: a successful add changes exactly one
      slot, the one `AddSlot` names, and that slot ends up holding `b`; the
      count of `b` rises by `count` and no other type's count changes. */
  lemma AddToEffect(s: seq<Option<Stack>>, b: Block, count: int, c: Block)
    requires AddTo(s, b, count).Some?
    ensures AddSlot(s, b).Some?
    ensures var r, i := AddTo(s, b, count).value, AddSlot(s, b).value;
      && i < |s| && Holds(r[i], b)
      && (forall j :: 0 <= j < |s| && j != i ==> r[j] == s[j])
      && CountIn(r, b) == CountIn(s, b) + count
      && (c != b ==> CountIn(r, c) == CountIn(s, c))
  {
    var r, i := AddTo(s, b, count).value, AddSlot(s, b).value;
    assert r == s[i := r[i]];
    CountInUpdate(s, i, r[i], b);
    CountInUpdate(s, i, r[i], c);
  }

  /** `AddTo` keeps a row free of repeated types, and keeps its stacks solid
      and non-empty when a solid type and a positive count are added. */
  lemma AddToKeepsRow(s: seq<Option<Stack>>, b: Block, count: int)
    requires AddTo(s, b, count).Some?
    ensures DistinctTypes(s) ==> DistinctTypes(AddTo(s, b, count).value)
    ensures SolidStacks(s) && b != Air && count > 0 ==> SolidStacks(AddTo(s, b, count).value)
  {
  }

  /** The effect of `addItem` on the counts: on success the inventory holds
      `count` more blocks of type `b` and the same number of every other
      type. */
  lemma AddItemCounts(inv: Inventory, b: Block, count: int, c: Block)
    ensures var r := AddItem(inv, b, count);
      && (r.ok ==> Total(r.inv, b) == Total(inv, b) + count)
      && (c != b ==> Total(r.inv, c) == Total(inv, c))
  {
    if AddTo(inv.hotbar, b, count).Some? {
      AddToEffect(inv.hotbar, b, count, c);
    } else if AddTo(inv.slots, b, count).Some? {
      AddToEffect(inv.slots, b, count, c);
    }
  }

  /** Hotbar priority: the main slots are touched only when the hotbar has
      neither a stack of type `b` nor an empty slot, and then the hotbar is
      left alone. */
  lemma AddItemHotbarFirst(inv: Inventory, b: Block, count: int)
    ensures var r := AddItem(inv, b, count);
      && (r.inv.slots != inv.slots ==>
            forall i :: 0 <= i < |inv.hotbar| ==> inv.hotbar[i].Some? && inv.hotbar[i].value.block != b)
      && (r.inv.slots != inv.slots ==> r.inv.hotbar == inv.hotbar)
      && (FindStack(inv.hotbar, b).Some? || FirstEmpty(inv.hotbar).Some? ==> r.inv.slots == inv.slots)
  {
  }

  /** Adding a solid type in a positive count keeps the invariant. */
  lemma AddItemValid(inv: Inventory, b: Block, count: int)
    requires Valid(inv) && b != Air && count > 0
    ensures Valid(AddItem(inv, b, count).inv)
  {
    if AddTo(inv.hotbar, b, count).Some? {
      AddToKeepsRow(inv.hotbar, b, count);
    } else if AddTo(inv.slots, b, count).Some? {
      AddToKeepsRow(inv.slots, b, count);
    }
  }

  /** The inventory with every slot empty and the first hotbar slot
      selected. */
  function Empty(): (inv: Inventory)
    ensures |inv.hotbar| == HotbarSize && |inv.slots| == SlotCount
  {
    Inventory(seq(SlotCount, i => None), seq(HotbarSize, i => None), 0)
  }

  /** The empty inventory satisfies the invariant. */
  lemma EmptyValid()
    ensures Valid(Empty())
  {
    var e := Empty();
    assert forall i :: 0 <= i < |e.hotbar| ==> e.hotbar[i].None?;
    assert forall i :: 0 <= i < |e.slots| ==> e.slots[i].None?;
  }

  /** A new inventory: the empty one with four wood added. It holds exactly
      one stack, four wood in the first hotbar slot, with that slot
      selected. */
  function NewInventory(): (inv: Inventory)
    ensures inv == Empty().(hotbar := Empty().hotbar[0 := Some(Stack(Wood, 4))])
  {
    var e := Empty();
    assert FindStack(e.hotbar, Wood).None? by {
      assert forall i :: 0 <= i < |e.hotbar| ==> !Holds(e.hotbar[i], Wood);
    }
    assert FirstEmpty(e.hotbar) == Some(0);
    AddItem(e, Wood, 4).inv
  }

  /** A new inventory satisfies the invariant. */
  lemma NewInventoryValid()
    ensures Valid(NewInventory())
  {
    EmptyValid();
    AddItemValid(Empty(), Wood, 4);
  }

  /** `getSelectedItem`: the stack in the selected hotbar slot; an index
      outside the hotbar reads as nothing. */
  function GetSelectedItem(inv: Inventory): (r: Option<Stack>)
    ensures 0 <= inv.selected < |inv.hotbar| ==> r == inv.hotbar[inv.selected]
    ensures !(0 <= inv.selected < |inv.hotbar|) ==> r.None?
  {
    if 0 <= inv.selected < |inv.hotbar| then inv.hotbar[inv.selected] else None
  }

  /** `removeSelectedItem`: takes `count` from the selected stack, emptying
      the slot when nothing is left. Fails, changing nothing, when the
      selected slot is empty. */
  function RemoveSelectedItem(inv: Inventory, count: int): (r: Outcome)
    ensures r.ok <==> GetSelectedItem(inv).Some?
    ensures !r.ok ==> r.inv == inv
    ensures r.inv.slots == inv.slots && r.inv.selected == inv.selected
    ensures |r.inv.hotbar| == |inv.hotbar|
    ensures forall i :: 0 <= i < |inv.hotbar| && i != inv.selected ==> r.inv.hotbar[i] == inv.hotbar[i]
  {
    match GetSelectedItem(inv)
    case None => Outcome(inv, false)
    case Some(item) =>
      var left := item.count - count;
      Outcome(inv.(hotbar := inv.hotbar[inv.selected := if left <= 0 then None else Some(Stack(item.block, left))]), true)
  }

  /** Removing `count` blocks from a selected stack lowers the count of its
      type by `count`, or by the whole stack when that leaves nothing; other
      types keep their counts. */
  lemma RemoveSelectedCounts(inv: Inventory, count: int, c: Block)
    requires GetSelectedItem(inv).Some?
    ensures var item, r := GetSelectedItem(inv).value, RemoveSelectedItem(inv, count).inv;
      && Total(r, item.block) == Total(inv, item.block) - (if count < item.count then count else item.count)
      && (c != item.block ==> Total(r, c) == Total(inv, c))
  {
    var r := RemoveSelectedItem(inv, count).inv;
    CountInUpdate(inv.hotbar, inv.selected, r.hotbar[inv.selected], GetSelectedItem(inv).value.block);
    CountInUpdate(inv.hotbar, inv.selected, r.hotbar[inv.selected], c);
    assert r.hotbar == inv.hotbar[inv.selected := r.hotbar[inv.selected]];
  }

  /** Removing keeps the invariant: the selected stack keeps its type, and
      a stack that would hold nothing is cleared. */
  lemma RemoveSelectedValid(inv: Inventory, count: int)
    requires Valid(inv)
    ensures Valid(RemoveSelectedItem(inv, count).inv)
  {
  }
}
