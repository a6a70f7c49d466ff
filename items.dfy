/**
 * Item definitions and item instances as the inventory sees them.
 *
 * A definition is an immutable bag of fragments, compared by identity (the engine
 * compares definition class pointers). An instance is a mutable object whose only
 * state the inventory touches is its stack count.
 */
module Items {
  import opened Wrappers

  /** A configured value the editor clamps to at least 1 (`ClampMin = 1`). */
  type Positive = n: int | n >= 1 witness 1

  /** A gameplay tag as the segments of its dotted name; `[]` is the invalid (None) tag. */
  type Tag = seq<string>

  /** The fragment classes the inventory searches for; `ItemFragmentClass` is the common base class. */
  datatype FragmentClass =
    | ItemFragmentClass
    | DimensionsClass
    | CoreStatsClass
    | TraitsClass
    | PickupClass
    | UIClass

  /** The fragment kinds an item definition can carry, with the fields the core reads. */
  datatype Fragment =
    | DimensionsFragment(width: Positive, height: Positive)
    | CoreStatsFragment(maxStack: Positive)
    | TraitsFragment(traits: seq<Tag>, category: Tag)
    | PickupFragment
    | UIFragment
    | OtherFragment
  {
    /** The class test of the engine: every fragment is an item fragment, and each kind is its own class. */
    predicate IsA(cls: FragmentClass) {
      match cls
      case ItemFragmentClass => true
      case DimensionsClass => DimensionsFragment?
      case CoreStatsClass => CoreStatsFragment?
      case TraitsClass => TraitsFragment?
      case PickupClass => PickupFragment?
      case UIClass => UIFragment?
    }
  }

  /** An item definition: its fragment list, in which an element may be null. */
  class ItemDefinition {
    const fragments: seq<Option<Fragment>>

    constructor (fragments: seq<Option<Fragment>>)
      ensures this.fragments == fragments
    {
      this.fragments := fragments;
    }
  }

  /**
   * An item instance: its definition and the count of its inventory-stack tag.
   * A fresh instance holds no stack (count 0).
   */
  class ItemInstance {
    const def: ItemDefinition
    var count: int

    constructor (def: ItemDefinition)
      ensures this.def == def && count == 0
    {
      this.def := def;
      count := 0;
    }

    /** Adds `n` to the stack; a non-positive `n` is ignored. */
    method AddStatTagStack(n: int)
      modifies this
      ensures count == if n > 0 then old(count) + n else old(count)
    {
      if n > 0 {
        count := count + n;
      }
    }

    /** Takes `n` off the stack, dropping the stack entirely when `n` covers it; a non-positive `n` is ignored. */
    method RemoveStatTagStack(n: int)
      modifies this
      ensures count == if n <= 0 then old(count) else if old(count) <= n then 0 else old(count) - n
    {
      if n > 0 {
        if count <= n {
          count := 0;
        } else {
          count := count - n;
        }
      }
    }
  }
}
