/**
 * The inventory function library: fragment search, the stack-count helpers with
 * their guards and defaults, max-stack lookup and trait queries.
 *
 * The stack helpers reach the item's stack functions by name at run time; whether
 * that lookup succeeded is the parameter `stackApiFound`.
 */
module InventoryFunctionLibrary {
  import opened Wrappers
  import opened Items

  /** A fragment slot that is non-null and of class `cls`. */
  predicate OfClass(slot: Option<Fragment>, cls: FragmentClass) {
    slot.Some? && slot.value.IsA(cls)
  }

  /** Index of the first slot of class `cls`, if any. */
  function FirstIndexOfClass(fragments: seq<Option<Fragment>>, cls: FragmentClass): (r: Option<nat>)
    ensures r.Some? ==> r.value < |fragments| && OfClass(fragments[r.value], cls)
    ensures r.Some? ==> forall j :: 0 <= j < r.value ==> !OfClass(fragments[j], cls)
    ensures r.None? ==> forall j :: 0 <= j < |fragments| ==> !OfClass(fragments[j], cls)
  {
    if |fragments| == 0 then None
    else if OfClass(fragments[0], cls) then Some(0)
    else
      match FirstIndexOfClass(fragments[1..], cls)
      case None => None
      case Some(i) => Some(i + 1)
  }

  /**
   * The first fragment of `def` that is of class `cls`, in fragment order; none when
   * the definition or the class is null or no fragment matches (see
   * FindItemDefinitionFragmentIsFirstMatch).
   */
  function FindItemDefinitionFragment(def: ItemDefinition?, cls: Option<FragmentClass>): (r: Option<Fragment>)
    ensures def == null || cls.None? ==> r.None?
    ensures r.Some? ==> cls.Some? && r.value.IsA(cls.value)
  {
    if def == null || cls.None? then None
    else
      match FirstIndexOfClass(def.fragments, cls.value)
      case None => None
      case Some(i) => def.fragments[i]
  }

  /**
   * The fragment search finds nothing exactly when no fragment slot is of the class,
   * and otherwise returns a slot of the class with none of the class before it.
   */
  lemma FindItemDefinitionFragmentIsFirstMatch(def: ItemDefinition, cls: FragmentClass)
    ensures var r := FindItemDefinitionFragment(def, Some(cls));
      (r.None? <==> forall j :: 0 <= j < |def.fragments| ==> !OfClass(def.fragments[j], cls)) &&
      (r.Some? ==>
         exists i :: 0 <= i < |def.fragments| && def.fragments[i] == r &&
           forall j :: 0 <= j < i ==> !OfClass(def.fragments[j], cls))
  {
    match FirstIndexOfClass(def.fragments, cls)
    case None =>
    case Some(i) =>
      assert def.fragments[i] == FindItemDefinitionFragment(def, Some(cls));
  }

  /** Stack count of `item`: 0 for no item, 1 when the stack function is missing. */
  function GetItemStatsStackCount(item: ItemInstance?, stackApiFound: bool): (r: int)
    reads item
    ensures item == null ==> r == 0
    ensures item != null && !stackApiFound ==> r == 1
    ensures item != null && stackApiFound ==> r == item.count
  {
    if item == null then 0
    else if stackApiFound then item.count
    else 1
  }

  /** Whether `item` holds a stack: never for no item or a missing function. */
  function HasItemStatsStack(item: ItemInstance?, stackApiFound: bool): (r: bool)
    reads item
    ensures r <==> item != null && stackApiFound && item.count > 0
  {
    if item == null then false
    else if stackApiFound then item.count > 0
    else false
  }

  /** Adds `n` to the stack of `item`; no item, a non-positive `n` or a missing function changes nothing. */
  method AddItemStatsStack(item: ItemInstance?, n: int, stackApiFound: bool)
    modifies item
    ensures item != null ==> item.count == if n > 0 && stackApiFound then old(item.count) + n else old(item.count)
  {
    if item == null || n <= 0 {
      return;
    }
    if stackApiFound {
      item.AddStatTagStack(n);
    }
  }

  /** Takes `n` off the stack of `item`; no item, a non-positive `n` or a missing function changes nothing. */
  method RemoveItemStatsStack(item: ItemInstance?, n: int, stackApiFound: bool)
    modifies item
    ensures item != null && (n <= 0 || !stackApiFound) ==> item.count == old(item.count)
    ensures item != null && n > 0 && stackApiFound ==>
      item.count == if old(item.count) <= n then 0 else old(item.count) - n
  {
    if item == null || n <= 0 {
      return;
    }
    if stackApiFound {
      item.RemoveStatTagStack(n);
    }
  }

  /** A tag is valid unless it is the None tag. */
  predicate IsValidTag(tag: Tag) {
    |tag| > 0
  }

  /** Exact container match: the tag itself is in the container. */
  predicate HasTagExact(container: seq<Tag>, tag: Tag) {
    IsValidTag(tag) && tag in container
  }

  /** Hierarchical container match: some tag in the container is `tag` or one of its descendants. */
  predicate HasTag(container: seq<Tag>, tag: Tag) {
    IsValidTag(tag) && exists c :: c in container && tag <= c
  }

  /**
   * Whether definition `def` carries trait `tag` in its first traits fragment,
   * matched exactly or hierarchically as `exact` says.
   */
  function HasTrait(def: ItemDefinition?, tag: Tag, exact: bool): (r: bool)
    ensures r ==> def != null && IsValidTag(tag)
    ensures r ==> FindItemDefinitionFragment(def, Some(TraitsClass)).Some?
    ensures def != null && FindItemDefinitionFragment(def, Some(TraitsClass)).Some? ==>
      var traits := FindItemDefinitionFragment(def, Some(TraitsClass)).value.traits;
      (r <==> if exact then HasTagExact(traits, tag) else HasTag(traits, tag))
  {
    if def == null || !IsValidTag(tag) then false
    else
      match FindItemDefinitionFragment(def, Some(TraitsClass))
      case Some(TraitsFragment(traits, _)) =>
        if exact then HasTagExact(traits, tag) else HasTag(traits, tag)
      case _ => false
  }

  /** Trait query on an instance: no instance has no trait. */
  function InstanceHasTrait(item: ItemInstance?, tag: Tag, exact: bool): (r: bool)
    ensures item == null ==> !r
    ensures item != null ==> r == HasTrait(item.def, tag, exact)
  {
    if item == null then false
    else
      match FindItemDefinitionFragment(item.def, Some(TraitsClass))
      case Some(TraitsFragment(traits, _)) =>
        if exact then HasTagExact(traits, tag) else HasTag(traits, tag)
      case _ => false
  }

  /** UI category of an instance: its first traits fragment's category, otherwise the invalid tag. */
  function GetItemCategory(item: ItemInstance?): (r: Tag)
    ensures item == null ==> r == []
    ensures item != null ==>
      var frag := FindItemDefinitionFragment(item.def, Some(TraitsClass));
      r == if frag.Some? then frag.value.category else []
  {
    if item == null then []
    else
      match FindItemDefinitionFragment(item.def, Some(TraitsClass))
      case Some(f) => f.category
      case None => []
  }

  /** The core-stats fragment of an instance, if it has one. */
  function GetItemStats(item: ItemInstance?): (r: Option<Fragment>)
    ensures r.Some? ==> r.value.CoreStatsFragment?
    ensures item == null ==> r.None?
    ensures item != null ==> r == FindItemDefinitionFragment(item.def, Some(CoreStatsClass))
  {
    if item == null then None
    else FindItemDefinitionFragment(item.def, Some(CoreStatsClass))
  }

  /** Max stack of a definition: its first core-stats fragment's MaxStack, otherwise 1. */
  function DefinitionMaxStack(def: ItemDefinition?): (r: Positive)
    ensures FindItemDefinitionFragment(def, Some(CoreStatsClass)).None? ==> r == 1
    ensures FindItemDefinitionFragment(def, Some(CoreStatsClass)).Some? ==>
      r == FindItemDefinitionFragment(def, Some(CoreStatsClass)).value.maxStack
  {
    match FindItemDefinitionFragment(def, Some(CoreStatsClass))
    case Some(f) => f.maxStack
    case None => 1
  }

  /** Max stack of an instance, through its core-stats fragment; 1 for no instance. */
  function GetItemMaxStack(item: ItemInstance?): (r: Positive)
    ensures item == null ==> r == 1
    ensures item != null ==> r == DefinitionMaxStack(item.def)
  {
    match GetItemStats(item)
    case Some(stats) => stats.maxStack
    case None => 1
  }

  /** Quantity of an instance: the same value as its stack count. */
  function GetItemQuantity(item: ItemInstance?, stackApiFound: bool): (r: int)
    reads item
    ensures item == null ==> r == 0
    ensures item != null ==> r == (if stackApiFound then item.count else 1)
  {
    GetItemStatsStackCount(item, stackApiFound)
  }

  /** An exact trait match is also a hierarchical one. */
  lemma ExactTraitImpliesTrait(def: ItemDefinition?, tag: Tag)
    requires HasTrait(def, tag, true)
    ensures HasTrait(def, tag, false)
  {
    var traits := FindItemDefinitionFragment(def, Some(TraitsClass)).value.traits;
    assert tag in traits && tag <= tag;
  }

  /** A hierarchical trait match on a tag also holds for every valid ancestor of the tag. */
  lemma TraitImpliesParentTrait(def: ItemDefinition?, tag: Tag, parent: Tag)
    requires HasTrait(def, tag, false)
    requires IsValidTag(parent) && parent <= tag
    ensures HasTrait(def, parent, false)
  {
    var traits := FindItemDefinitionFragment(def, Some(TraitsClass)).value.traits;
    var c :| c in traits && tag <= c;
    assert parent <= c;
  }
}
