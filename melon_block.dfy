/**
 * The drop rule of the melon block. A melon broken by anything other than an
 * entity drops nothing. An entity holding a mining tool enchanted with Silk
 * Touch gets the melon block itself. Any other entity gets melon slices, a
 * random count drawn with `Random.nextInt(3 - 7 + 1) + 3`; that bound is -3,
 * which `nextInt` rejects, so as written this branch always throws.
 */
module Melon {
  import opened Wrappers

  datatype ItemKind = MiningTool | OtherItem

  /** The item the breaking entity holds: its material kind and whether it carries Silk Touch. */
  datatype HeldItem = HeldItem(kind: ItemKind, hasSilkTouch: bool)

  /** `block.getSource()`: an entity (with what it holds, if anything) or some other cause. */
  datatype BlockSource = EntitySource(held: Option<HeldItem>) | OtherSource

  datatype Material = MelonBlockMaterial | MelonSlice

  datatype ItemStack = ItemStack(material: Material, amount: int)

  /** `IllegalArgumentException` from `Random.nextInt` for a bound that is not positive. */
  datatype DropError = NonPositiveBound(bound: int)

  const SliceMin: int := 3
  const SliceMax: int := 7

  /** The bound the source passes to `nextInt`: `3 - 7 + 1`. */
  const WrittenSliceBound: int := SliceMin - SliceMax + 1

  /** The bound that gives `SliceMin..SliceMax` slices: `7 - 3 + 1`. */
  const IntendedSliceBound: int := SliceMax - SliceMin + 1

  /**
   * `Random.nextInt(bound)`, with the random source abstracted as the oracle
   * `draw`: fails on a non-positive bound, otherwise yields a value below it.
   */
  function NextInt(bound: int, draw: nat): (r: Result<int, DropError>)
    ensures r.Success? <==> bound > 0
    ensures r.Success? ==> 0 <= r.value < bound
    ensures r.Failure? ==> r.error == NonPositiveBound(bound)
  {
    if bound <= 0 then Failure(NonPositiveBound(bound)) else Success(draw % bound)
  }

  /** The silk-touch test: a held item that is a mining tool and has Silk Touch. */
  predicate SilkTouchTool(held: Option<HeldItem>) {
    held.Some? && held.value.kind == MiningTool && held.value.hasSilkTouch
  }

  /** `getDrops`, as written: the slice branch draws with the bound `3 - 7 + 1`. */
  function GetDrops(source: BlockSource, draw: nat): (r: Result<seq<ItemStack>, DropError>)
    ensures source.OtherSource? ==> r == Success([])
    ensures r.Success? ==> |r.value| <= 1
    ensures source.EntitySource? && SilkTouchTool(source.held) ==>
              r == Success([ItemStack(MelonBlockMaterial, 1)])
    ensures source.EntitySource? && !SilkTouchTool(source.held) ==>
              r == Failure(NonPositiveBound(-3))
  {
    DropsWithBound(source, draw, WrittenSliceBound)
  }

  /** `getDrops` with the corrected bound `7 - 3 + 1`: 3 to 7 slices. */
  function GetDropsIntended(source: BlockSource, draw: nat): (r: Result<seq<ItemStack>, DropError>)
    ensures r.Success?
    ensures |r.value| <= 1
    ensures source.OtherSource? ==> r.value == []
    ensures source.EntitySource? && SilkTouchTool(source.held) ==>
              r.value == [ItemStack(MelonBlockMaterial, 1)]
    ensures source.EntitySource? && !SilkTouchTool(source.held) ==>
              |r.value| == 1 && r.value[0].material == MelonSlice &&
              SliceMin <= r.value[0].amount <= SliceMax
  {
    DropsWithBound(source, draw, IntendedSliceBound)
  }

  /** The decision shared by both versions, parameterised by the slice bound handed to `nextInt`. */
  function DropsWithBound(source: BlockSource, draw: nat, bound: int): (r: Result<seq<ItemStack>, DropError>)
  {
    match source
    case OtherSource => Success([])
    case EntitySource(held) =>
      if SilkTouchTool(held) then
        Success([ItemStack(MelonBlockMaterial, 1)])
      else
        var extra :- NextInt(bound, draw);
        Success([ItemStack(MelonSlice, extra + SliceMin)])
  }

  /** As written, no input ever yields a melon slice: the slice branch can only throw. */
  lemma SlicesNeverDropped(source: BlockSource, draw: nat)
    ensures GetDrops(source, draw).Success? ==>
              forall s | s in GetDrops(source, draw).value :: s.material != MelonSlice
    ensures GetDrops(source, draw).Failure? <==> source.EntitySource? && !SilkTouchTool(source.held)
  {
  }

  /** A concrete input that shows it: an entity breaking the melon with bare hands. */
  lemma BareHandsThrow()
    ensures GetDrops(EntitySource(None), 0) == Failure(NonPositiveBound(-3))
  {
  }

  /** With the corrected bound every count from 3 to 7 is reachable, by the draw `amount - 3`. */
  lemma IntendedCountsReachable(held: Option<HeldItem>, amount: int)
    requires !SilkTouchTool(held)
    requires SliceMin <= amount <= SliceMax
    ensures GetDropsIntended(EntitySource(held), amount - SliceMin) == Success([ItemStack(MelonSlice, amount)])
  {
    var draw: nat := amount - SliceMin;
    assert NextInt(IntendedSliceBound, draw) == Success(draw);
  }
}
