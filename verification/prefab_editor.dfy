/**
 * The non-UI state of the `RuntimePrefabEditor` window: which diffs are
 * selected, which prefab candidate is being edited, and the batch apply of
 * the selected diffs to the prefab.
 */
module PrefabEditor {
  import opened Wrappers
  import opened SceneModel
  import opened EditorUtils
  import opened GameObjectDiff
  import opened DiffApply
  import opened PrefabSearchDB
  import opened SeqFacts

  // ---------------------------------------------------------------------
  // Diff selection

  /**
   * The `selectAllByDefault` preference together with `_selectedDiffs` and
   * `_deselectedDiffs`. Selection is remembered per diff id, so a diff
   * recomputed on the next frame with the same id keeps its state.
   */
  datatype SelectionState = SelectionState(selectAllByDefault: bool, selected: set<DiffId>, deselected: set<DiffId>)

  /** `IsDiffSelected`: by default on, unless deselected; by default off, only if selected. */
  function IsDiffSelected(st: SelectionState, d: Diff): (r: bool)
    ensures d.id in st.selected && d.id !in st.deselected ==> r
    ensures d.id in st.deselected && d.id !in st.selected ==> !r
    ensures d.id !in st.selected && d.id !in st.deselected ==> (r <==> st.selectAllByDefault)
  {
    if st.selectAllByDefault then d.id !in st.deselected else d.id in st.selected
  }

  /**
   * `SetDiffSelected`: records the choice in both sets, so that it holds
   * under either value of the default flag; diffs with other ids keep their
   * state, and the two sets stay disjoint.
   */
  function SetDiffSelected(st: SelectionState, d: Diff, b: bool): (r: SelectionState)
    ensures r.selectAllByDefault == st.selectAllByDefault
    ensures IsDiffSelected(r, d) == b && IsDiffSelected(r.(selectAllByDefault := !r.selectAllByDefault), d) == b
    ensures forall d': Diff :: IsDiffSelected(r, d') == if d'.id == d.id then b else IsDiffSelected(st, d')
    ensures forall id | id != d.id :: (id in r.selected <==> id in st.selected) && (id in r.deselected <==> id in st.deselected)
    ensures st.selected !! st.deselected ==> r.selected !! r.deselected
  {
    if b then st.(selected := st.selected + {d.id}, deselected := st.deselected - {d.id})
    else st.(selected := st.selected - {d.id}, deselected := st.deselected + {d.id})
  }

  /**
   * Whatever was chosen last for an id is what the diff shows, with either
   * default, as long as no later choice is made for the same id.
   */
  lemma {:induction false} LastChoiceWins(st: SelectionState, d: Diff, b: bool, others: seq<(Diff, bool)>, flag: bool)
    requires forall k | 0 <= k < |others| :: others[k].0.id != d.id
    ensures IsDiffSelected(SetAll(SetDiffSelected(st, d, b), others).(selectAllByDefault := flag), d) == b
    decreases |others|
  {
    if |others| > 0 {
      var init := others[..|others| - 1];
      LastChoiceWins(st, d, b, init, flag);
      var mid := SetAll(SetDiffSelected(st, d, b), init);
      var last := others[|others| - 1];
      var r := SetDiffSelected(mid, last.0, last.1);
      assert d.id in r.selected <==> d.id in mid.selected;
      assert d.id in r.deselected <==> d.id in mid.deselected;
    }
  }

  /** A run of toggles, applied in order. */
  function SetAll(st: SelectionState, choices: seq<(Diff, bool)>): (r: SelectionState)
    ensures r.selectAllByDefault == st.selectAllByDefault
  {
    if |choices| == 0 then st
    else
      var last := choices[|choices| - 1];
      SetDiffSelected(SetAll(st, choices[..|choices| - 1]), last.0, last.1)
  }

  // ---------------------------------------------------------------------
  // Candidate selection

  /** `FindBestCandidate`: `FirstOrDefault`, which is the longest-path candidate of a sorted list. */
  function FindBestCandidate(cs: seq<PrefabCandidate>): (r: PrefabCandidate)
    ensures |cs| > 0 ==> r == cs[0] && (LongestFirst(cs) ==> forall c | c in cs :: PathLength(c) <= PathLength(r))
    ensures |cs| == 0 ==> !r.IsValid()
  {
    if |cs| > 0 then cs[0] else DefaultCandidate
  }

  /**
   * The candidate bookkeeping of `DrawPrefabCandidatesSelection` once the
   * candidates are known: a valid current candidate that is still in the list
   * is kept; otherwise the best one is taken; one that ends up outside the
   * list is reset.
   */
  function RetainCandidate(current: PrefabCandidate, cs: seq<PrefabCandidate>): (r: PrefabCandidate)
    ensures current.IsValid() && current in cs ==> r == current
    ensures !(current.IsValid() && current in cs) && |cs| > 0 ==> r == cs[0]
    ensures |cs| == 0 ==> !r.IsValid()
    ensures r.IsValid() ==> r in cs
  {
    var c := if !current.IsValid() || current !in cs then FindBestCandidate(cs) else current;
    if |cs| == 0 || c !in cs then c.Reset() else c
  }

  /** Every found candidate is valid: it names a loaded prefab. */
  lemma CandidatesAreValid(index: map<string, seq<string>>, store: AssetStore, s: seq<Node>, instance: nat, cs: seq<PrefabCandidate>)
    requires ValidStore(store) && WellFormed(s) && instance < |s|
    requires forall c :: c in cs <==> IsCandidate(index, store, s, instance, c)
    ensures forall c | c in cs :: c.IsValid()
  {
    forall c | c in cs ensures c.IsValid() {
      CandidatePathDefined(index, store, s, instance, c);
    }
  }

  /**
   * `DrawPrefabCandidatesSelection` without the drawing: with no scene object
   * selected the current candidate is reset; otherwise the candidates are
   * searched and the current one is kept, replaced by the longest-path
   * candidate or reset. A valid result is always a genuine candidate of the
   * selected object, and there is one exactly when the search found any.
   */
  method SelectPrefabCandidate(db: SearchDB, assetPaths: seq<string>, stem: string -> string, store: AssetStore,
                               s: seq<Node>, instance: Option<nat>, current: PrefabCandidate)
    returns (db': SearchDB, cs: seq<PrefabCandidate>, r: PrefabCandidate)
    requires ValidStore(store) && WellFormed(s) && (instance.Some? ==> instance.value < |s|)
    ensures instance.None? ==> db' == db && cs == [] && r == current.Reset()
    ensures instance.Some? ==>
      && (forall c :: c in cs <==> IsCandidate(db'.index, store, s, instance.value, c))
      && LongestFirst(cs)
      && (r.IsValid() <==> |cs| > 0)
      && (r.IsValid() ==> IsCandidate(db'.index, store, s, instance.value, r))
      && (current.IsValid() && IsCandidate(db'.index, store, s, instance.value, current) ==> r == current)
      && (!IsCandidate(db'.index, store, s, instance.value, current) && |cs| > 0 ==> r == cs[0])
  {
    if instance.None? {
      return db, [], current.Reset();
    }
    db', cs := GetPrefabCandidatesForSceneObject(db, assetPaths, stem, store, s, instance.value);
    CandidatesAreValid(db'.index, store, s, instance.value, cs);
    r := RetainCandidate(current, cs);
  }

  // ---------------------------------------------------------------------
  // Diffs of the selected candidate

  /** The context of `GetDiffs(instance, c.instanceRoot, c.prefab, c.prefabRoot)`. */
  function CandidateContext(eq: Equalities, s: seq<Node>, store: AssetStore, c: PrefabCandidate): (ctx: Context)
    requires ValidStore(store) && WellFormed(s)
    requires c.instanceRoot.Some? && c.instanceRoot.value < |s| && c.prefabRoot.Some? && c.prefabRoot.value in store
    ensures ValidContext(ctx)
  {
    var p := store[c.prefabRoot.value];
    Context(eq, s, c.instanceRoot.value, p.nodes, p.root)
  }

  /**
   * The diffs the editor lists for a candidate never include New: the
   * search drops every candidate whose path does not resolve in the prefab,
   * so `GetDiffs` is always handed a prefab object.
   */
  lemma CandidateDiffsNeverNew(index: map<string, seq<string>>, eq: Equalities, s: seq<Node>, store: AssetStore, instance: nat, c: PrefabCandidate)
    requires ValidStore(store) && WellFormed(s) && instance < |s|
    requires IsCandidate(index, store, s, instance, c)
    ensures c.prefab.Some? && c.prefab.value < |store[c.prefabRoot.value].nodes|
    ensures var ds := GetDiffs(CandidateContext(eq, s, store, c), instance, c.prefab);
      forall k | 0 <= k < |ds| :: ds[k].id.operation != New
  {
    CandidatePathDefined(index, store, s, instance, c);
    GetDiffsOrdered(CandidateContext(eq, s, store, c), instance, c.prefab);
  }

  // ---------------------------------------------------------------------
  // Batch apply

  /** The selected diffs, in list order. */
  function SelectedDiffs(st: SelectionState, ds: seq<Diff>): (r: seq<Diff>)
    ensures |r| <= |ds|
  {
    if |ds| == 0 then []
    else
      var last := ds[|ds| - 1];
      SelectedDiffs(st, ds[..|ds| - 1]) + (if IsDiffSelected(st, last) then [last] else [])
  }

  lemma SelectedDiffsSnoc(st: SelectionState, ds: seq<Diff>, d: Diff)
    ensures IsDiffSelected(st, d) ==> SelectedDiffs(st, ds + [d]) == SelectedDiffs(st, ds) + [d]
    ensures !IsDiffSelected(st, d) ==> SelectedDiffs(st, ds + [d]) == SelectedDiffs(st, ds)
  {
    InitOfSnoc(ds, d);
    assert SelectedDiffs(st, ds) + [] == SelectedDiffs(st, ds);
  }

  /** A diff is applied exactly when it is listed and selected. */
  lemma {:induction false} SelectedDiffsMember(st: SelectionState, ds: seq<Diff>, d: Diff)
    ensures d in SelectedDiffs(st, ds) <==> d in ds && IsDiffSelected(st, d)
  {
    if |ds| > 0 {
      var init := ds[..|ds| - 1];
      SelectedDiffsMember(st, init, d);
      assert ds == init + [ds[|ds| - 1]];
    }
  }

  /** Selection keeps list order: the selected diffs of a concatenation are concatenated. */
  lemma {:induction false} SelectedDiffsConcat(st: SelectionState, xs: seq<Diff>, ys: seq<Diff>)
    ensures SelectedDiffs(st, xs + ys) == SelectedDiffs(st, xs) + SelectedDiffs(st, ys)
    decreases |ys|
  {
    SnocSplit(xs, ys);
    if |ys| > 0 {
      SelectedDiffsConcat(st, xs, ys[..|ys| - 1]);
    }
  }

  /** With everything selected by default and nothing deselected, every diff is applied. */
  lemma {:induction false} SelectAllSelectsEverything(st: SelectionState, ds: seq<Diff>)
    requires st.selectAllByDefault && st.deselected == {}
    ensures SelectedDiffs(st, ds) == ds
  {
    if |ds| > 0 {
      SelectAllSelectsEverything(st, ds[..|ds| - 1]);
      assert ds == ds[..|ds| - 1] + [ds[|ds| - 1]];
    }
  }

  /** Applying the effects of `ds` one after the other. */
  function ApplyAll(a: Asset, ds: seq<Diff>): (r: Asset)
    requires ValidAsset(a)
    ensures ValidAsset(r) && r.root == a.root && |a.nodes| <= |r.nodes|
    ensures forall i | 0 <= i < |a.nodes| :: r.nodes[i].name == a.nodes[i].name && r.nodes[i].parent == a.nodes[i].parent
  {
    if |ds| == 0 then a
    else
      var b := ApplyAll(a, ds[..|ds| - 1]);
      ApplyKeepsAsset(b, ds[|ds| - 1].effect);
      Apply(b, ds[|ds| - 1].effect)
  }

  /** `diff.Apply()`. */
  function ApplyOne(a: Asset, d: Diff): (r: Asset)
    requires ValidAsset(a)
    ensures ValidAsset(r)
  {
    ApplyKeepsAsset(a, d.effect);
    Apply(a, d.effect)
  }

  lemma ApplyAllSnoc(a: Asset, ds: seq<Diff>, d: Diff)
    requires ValidAsset(a)
    ensures ValidAsset(ApplyAll(a, ds)) && ApplyAll(a, ds + [d]) == ApplyOne(ApplyAll(a, ds), d)
  {
    InitOfSnoc(ds, d);
  }

  /** One more step of the apply loop. */
  lemma SelectedPrefixStep(a: Asset, st: SelectionState, ds: seq<Diff>, i: nat)
    requires ValidAsset(a) && i < |ds|
    ensures IsDiffSelected(st, ds[i]) ==>
      ApplyAll(a, SelectedDiffs(st, ds[..i + 1])) == ApplyOne(ApplyAll(a, SelectedDiffs(st, ds[..i])), ds[i])
    ensures !IsDiffSelected(st, ds[i]) ==> SelectedDiffs(st, ds[..i + 1]) == SelectedDiffs(st, ds[..i])
  {
    assert ds[..i + 1] == ds[..i] + [ds[i]];
    SelectedDiffsSnoc(st, ds[..i], ds[i]);
    ApplyAllSnoc(a, SelectedDiffs(st, ds[..i]), ds[i]);
  }

  /** Applying a concatenation is applying its parts in turn. */
  lemma {:induction false} ApplyAllConcat(a: Asset, xs: seq<Diff>, ys: seq<Diff>)
    requires ValidAsset(a)
    ensures ApplyAll(a, xs + ys) == ApplyAll(ApplyAll(a, xs), ys)
    decreases |ys|
  {
    SnocSplit(xs, ys);
    if |ys| > 0 {
      ApplyAllConcat(a, xs, ys[..|ys| - 1]);
    }
  }

  /** A batch apply never moves or renames an object the prefab already had. */
  lemma ApplyAllKeepsPaths(a: Asset, ds: seq<Diff>, n: nat)
    requires ValidAsset(a) && n < |a.nodes|
    ensures GetPathForObjectInHierarchy(ApplyAll(a, ds).nodes, Some(n), a.root) == GetPathForObjectInHierarchy(a.nodes, Some(n), a.root)
  {
    PathFromFrame(a.nodes, ApplyAll(a, ds).nodes, n, a.root, "");
  }

  /**
   * The apply loop of `DrawDiffs`: `Apply` of every selected diff, once,
   * in list order, and of no other.
   */
  method ApplySelected(a: Asset, diffs: seq<Diff>, st: SelectionState) returns (r: Asset)
    requires ValidAsset(a)
    ensures r == ApplyAll(a, SelectedDiffs(st, diffs))
    ensures ValidAsset(r) && r.root == a.root
  {
    r := a;
    var i := 0;
    while i < |diffs|
      invariant 0 <= i <= |diffs|
      invariant r == ApplyAll(a, SelectedDiffs(st, diffs[..i]))
    {
      SelectedPrefixStep(a, st, diffs, i);
      if IsDiffSelected(st, diffs[i]) {
        r := ApplyOne(r, diffs[i]);
      }
      i := i + 1;
    }
    assert diffs[..i] == diffs;
  }
}
