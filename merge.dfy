/** `MergeRules`: the first rule whose input is the given item decides the merge result. */
module Merge {
  import opened Wrappers
  import opened Inventory

  /** A rule: two of `inputItem` merge into `resultItem`. Either reference may be null (None). */
  datatype MergeEntry = MergeEntry(inputItem: Option<ItemData>, resultItem: Option<ItemData>)

  datatype MergeRules = MergeRules(rules: seq<MergeEntry>)

  /** The boolean return value together with the `out` result. */
  datatype MergeLookup = MergeLookup(found: bool, result: Option<ItemData>)

  /** Rule `i` matches `input` and no earlier rule does. */
  predicate FirstMatchAt(rules: seq<MergeEntry>, input: Option<ItemData>, i: int) {
    0 <= i < |rules| && rules[i].inputItem == input && forall j :: 0 <= j < i ==> rules[j].inputItem != input
  }

  /** Found with the result of the first matching rule, or not found with a null result. */
  function TryGetMergeResult(rules: seq<MergeEntry>, input: Option<ItemData>): (r: MergeLookup)
    ensures r.found <==> exists i :: 0 <= i < |rules| && rules[i].inputItem == input
    ensures !r.found ==> r.result == None
    ensures r.found ==> exists i :: FirstMatchAt(rules, input, i) && r.result == rules[i].resultItem
  {
    if |rules| == 0 then MergeLookup(false, None)
    else if rules[0].inputItem == input then
      assert FirstMatchAt(rules, input, 0);
      MergeLookup(true, rules[0].resultItem)
    else
      var r := TryGetMergeResult(rules[1..], input);
      assert r.found ==> exists i :: FirstMatchAt(rules, input, i) && r.result == rules[i].resultItem by {
        if r.found {
          var i :| FirstMatchAt(rules[1..], input, i) && r.result == rules[1..][i].resultItem;
          assert FirstMatchAt(rules, input, i + 1);
        }
      }
      assert r.found ==> exists i :: 0 <= i < |rules| && rules[i].inputItem == input by {
        if r.found {
          var i :| 0 <= i < |rules[1..]| && rules[1..][i].inputItem == input;
          assert rules[i + 1].inputItem == input;
        }
      }
      r
  }

  /** Rules after the first match never matter; a later duplicate rule is shadowed. */
  lemma {:induction false} MergeRulesConcat(a: seq<MergeEntry>, b: seq<MergeEntry>, input: Option<ItemData>)
    ensures TryGetMergeResult(a + b, input) ==
      if TryGetMergeResult(a, input).found then TryGetMergeResult(a, input) else TryGetMergeResult(b, input)
  {
    if |a| > 0 {
      assert (a + b)[0] == a[0];
      assert (a + b)[1..] == a[1..] + b;
      MergeRulesConcat(a[1..], b, input);
    } else {
      assert a + b == b;
    }
  }
}
