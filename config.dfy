/** `BackpackConfig`: the list of backpack presets and the choice of the current one. */
module Config {
  import opened Wrappers
  import opened Inventory

  /**
   * A backpack preset. `disabledCellIndices` (linear indices `y * width + x`,
   * None for a null list) is the field both grid managers read;
   * `disabledCells` (coordinates) is the field the preset class declares.
   * `hasVisualPrefab` is false when `backpackVisualPrefab` is null.
   */
  datatype BackpackPreset = BackpackPreset(
    name: string,
    dimension: Vec2,
    disabledCells: seq<Vec2>,
    disabledCellIndices: Option<seq<int>>,
    hasVisualPrefab: bool,
    isCurrent: bool)

  datatype BackpackConfig = BackpackConfig(presets: seq<BackpackPreset>)

  /** The field initialisers of a new preset. */
  function NewBackpackPreset(): (p: BackpackPreset)
    ensures p.name == "New Backpack" && p.dimension == Vec2(4, 4)
    ensures p.disabledCells == [] && !p.hasVisualPrefab && !p.isCurrent
  {
    BackpackPreset("New Backpack", Vec2(4, 4), [], None, false, false)
  }

  /** Preset `i` is current and none before it is. */
  predicate FirstCurrentAt(presets: seq<BackpackPreset>, i: int) {
    0 <= i < |presets| && presets[i].isCurrent && forall j :: 0 <= j < i ==> !presets[j].isCurrent
  }

  /** The first preset, in list order, flagged current; None (null) when there is none. */
  function GetCurrentPreset(presets: seq<BackpackPreset>): (r: Option<BackpackPreset>)
    ensures r.None? <==> forall i :: 0 <= i < |presets| ==> !presets[i].isCurrent
    ensures r.Some? ==> exists i :: FirstCurrentAt(presets, i) && presets[i] == r.value
  {
    if |presets| == 0 then None
    else if presets[0].isCurrent then
      assert FirstCurrentAt(presets, 0);
      Some(presets[0])
    else
      var r := GetCurrentPreset(presets[1..]);
      assert r.Some? ==> exists i :: FirstCurrentAt(presets, i) && presets[i] == r.value by {
        if r.Some? {
          var i :| FirstCurrentAt(presets[1..], i) && presets[1..][i] == r.value;
          assert FirstCurrentAt(presets, i + 1);
        }
      }
      r
  }

  /** The current preset of a possibly missing config: a missing config has none. */
  function CurrentPresetOf(config: Option<BackpackConfig>): (r: Option<BackpackPreset>)
    ensures config.None? ==> r.None?
    ensures r.Some? ==> r.value.isCurrent
  {
    match config
    case None => None
    case Some(c) => GetCurrentPreset(c.presets)
  }

  /** Presets after a current one never matter: the search stops at the first hit. */
  lemma {:induction false} CurrentPresetConcat(a: seq<BackpackPreset>, b: seq<BackpackPreset>)
    ensures GetCurrentPreset(a + b) == if GetCurrentPreset(a).Some? then GetCurrentPreset(a) else GetCurrentPreset(b)
  {
    if |a| > 0 {
      assert (a + b)[0] == a[0];
      assert (a + b)[1..] == a[1..] + b;
      CurrentPresetConcat(a[1..], b);
    } else {
      assert a + b == b;
    }
  }

  /** A config made only of new presets has no current preset. */
  lemma NewPresetsNotCurrent(n: nat)
    ensures GetCurrentPreset(seq(n, _ => NewBackpackPreset())) == None
  {
  }
}
