/** `InventoryItemMergeHandler`: may this item merge with another one, and into what. */
module MergeHandler {
  import opened Wrappers
  import opened Inventory
  import opened Merge

  /** The handler component of an item object; `mergeRules` may be a null reference (None). */
  datatype InventoryItemMergeHandler = InventoryItemMergeHandler(itemData: Option<ItemData>, mergeRules: Option<MergeRules>) {

    /**
     * `other` is the handler component of the other object, None when it has
     * none. Only a handler of the same item asset is merged with, and only this
     * handler's rules are consulted (they are dereferenced only then).
     */
    function TryMergeWith(other: Option<InventoryItemMergeHandler>): (r: MergeLookup)
      requires other.Some? && other.value.itemData == itemData ==> mergeRules.Some?
      ensures other.None? ==> r == MergeLookup(false, None)
      ensures other.Some? && other.value.itemData != itemData ==> r == MergeLookup(false, None)
      ensures r.found <==>
        other.Some? && other.value.itemData == itemData &&
        exists i :: 0 <= i < |mergeRules.value.rules| && mergeRules.value.rules[i].inputItem == itemData
      ensures r.found ==>
        exists i :: FirstMatchAt(mergeRules.value.rules, itemData, i) && r.result == mergeRules.value.rules[i].resultItem
    {
      if other.None? then MergeLookup(false, None)
      else if other.value.itemData != itemData then MergeLookup(false, None)
      else TryGetMergeResult(mergeRules.value.rules, itemData)
    }
  }

  /** With a matching partner, merging is exactly the rule lookup for this handler's item. */
  lemma MergeDelegates(h: InventoryItemMergeHandler, other: InventoryItemMergeHandler)
    requires other.itemData == h.itemData && h.mergeRules.Some?
    ensures h.TryMergeWith(Some(other)) == TryGetMergeResult(h.mergeRules.value.rules, h.itemData)
  {
  }

  /** The other handler's rules are never consulted: partners for the same item give the same answer. */
  lemma OtherRulesIgnored(h: InventoryItemMergeHandler, a: InventoryItemMergeHandler, b: InventoryItemMergeHandler)
    requires a.itemData == b.itemData
    requires a.itemData == h.itemData ==> h.mergeRules.Some?
    ensures h.TryMergeWith(Some(a)) == h.TryMergeWith(Some(b))
  {
  }
}
