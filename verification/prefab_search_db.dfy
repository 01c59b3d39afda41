/**
 * `PrefabSearchDB`: the file-name index of the project's prefab assets, the
 * search for the prefabs a scene object may have been instantiated from, and
 * `FindRootObject`.
 *
 * The asset database is an input: the list of prefab asset paths that
 * `AssetDatabase.FindAssets("t:prefab")` reports, the function that takes a
 * path to its file name without extension, and a map from asset path to the
 * prefab `LoadAssetAtPath` loads from it (a path outside the map loads as
 * null). A loaded prefab is identified by the asset path it came from.
 */
module PrefabSearchDB {
  import opened Wrappers
  import opened SceneModel
  import opened EditorUtils

  /** A loaded prefab asset: its object hierarchy and the index of its root object. */
  datatype Prefab = Prefab(nodes: seq<Node>, root: nat)

  ghost predicate ValidPrefab(p: Prefab) {
    WellFormed(p.nodes) && p.root < |p.nodes|
  }

  /** What `LoadAssetAtPath(path, typeof(GameObject))` yields, per asset path. */
  type AssetStore = map<string, Prefab>

  ghost predicate ValidStore(store: AssetStore) {
    forall path | path in store :: ValidPrefab(store[path])
  }

  /**
   * `PrefabCandidate`: the scene object taken as the instance root, the
   * prefab asset (by path), the object in it matching the selected scene
   * object and that object's path below the prefab root. `None` is null.
   */
  datatype PrefabCandidate = PrefabCandidate(
    instanceRoot: Option<nat>, prefabRoot: Option<string>, prefab: Option<nat>, prefabPath: Option<string>)
  {
    /** `IsValid`: a prefab root is set. */
    predicate IsValid() {
      prefabRoot.Some?
    }

    /** `Reset`: clears the prefab root only, which makes the candidate invalid. */
    function Reset(): (r: PrefabCandidate)
      ensures !r.IsValid()
      ensures r.instanceRoot == instanceRoot && r.prefab == prefab && r.prefabPath == prefabPath
    {
      this.(prefabRoot := None)
    }
  }

  /** The all-null candidate (`default(PrefabCandidate)`). */
  const DefaultCandidate: PrefabCandidate := PrefabCandidate(None, None, None, None)

  // ---------------------------------------------------------------------
  // The name index

  /** `_index` (file name without extension to asset paths) and `_assetsProcessedCount`. */
  datatype SearchDB = SearchDB(index: map<string, seq<string>>, processed: nat)

  /** The state a fresh `PrefabSearchDB` starts from, before its first refresh. */
  const EmptyDB: SearchDB := SearchDB(map[], 0)

  /** The paths among `paths` whose file name without extension is `key`, in input order. */
  function PathsWithStem(paths: seq<string>, stem: string -> string, key: string): (r: seq<string>)
    ensures |r| <= |paths|
  {
    if |paths| == 0 then []
    else
      var last := paths[|paths| - 1];
      PathsWithStem(paths[..|paths| - 1], stem, key) + (if stem(last) == key then [last] else [])
  }

  lemma {:induction false} PathsWithStemMember(paths: seq<string>, stem: string -> string, key: string, p: string)
    ensures p in PathsWithStem(paths, stem, key) <==> p in paths && stem(p) == key
  {
    if |paths| > 0 {
      var init := paths[..|paths| - 1];
      PathsWithStemMember(init, stem, key, p);
      assert paths == init + [paths[|paths| - 1]];
    }
  }

  /**
   * `index` groups `paths` by file name without extension: a key is present
   * exactly when some path has it as stem, and maps to those paths in input
   * order.
   */
  ghost predicate IsGroupBy(index: map<string, seq<string>>, paths: seq<string>, stem: string -> string) {
    forall key ::
      if key in index then index[key] == PathsWithStem(paths, stem, key) && index[key] != []
      else PathsWithStem(paths, stem, key) == []
  }

  /**
   * `RefreshIndex`: when the number of prefab assets differs from the count
   * recorded at the last rebuild, rebuilds the index from scratch and records
   * the new count; otherwise leaves everything as it was.
   */
  method RefreshIndex(db: SearchDB, assetPaths: seq<string>, stem: string -> string) returns (r: SearchDB)
    ensures db.processed == |assetPaths| ==> r == db
    ensures db.processed != |assetPaths| ==> r.processed == |assetPaths| && IsGroupBy(r.index, assetPaths, stem)
  {
    if db.processed == |assetPaths| {
      return db;
    }
    var index: map<string, seq<string>> := map[];
    var i := 0;
    while i < |assetPaths|
      invariant 0 <= i <= |assetPaths|
      invariant IsGroupBy(index, assetPaths[..i], stem)
    {
      var path := assetPaths[i];
      var filename := stem(path);
      var paths: seq<string>;
      if filename in index {
        paths := index[filename];
      } else {
        paths := [];
      }
      index := index[filename := paths + [path]];
      assert assetPaths[..i + 1][..i] == assetPaths[..i];
      i := i + 1;
    }
    assert assetPaths[..i] == assetPaths;
    return SearchDB(index, |assetPaths|);
  }

  /** Every key of a grouped index is the stem of its paths, and every path came from the input. */
  lemma IndexedPathsComeFromInput(index: map<string, seq<string>>, paths: seq<string>, stem: string -> string, key: string, p: string)
    requires IsGroupBy(index, paths, stem)
    ensures key in index && p in index[key] <==> p in paths && stem(p) == key
  {
    PathsWithStemMember(paths, stem, key, p);
  }

  // ---------------------------------------------------------------------
  // Candidates

  /**
   * The inner loop of `GetPrefabCandidatesForSceneObject` for one instance
   * root: each asset path that loads and in which the instance's path below
   * the root resolves gives one candidate, in index order.
   */
  function CandidatesFromPaths(store: AssetStore, s: seq<Node>, instance: nat, instanceRoot: nat, assetPaths: seq<string>): (r: seq<PrefabCandidate>)
    requires ValidStore(store) && WellFormed(s) && instance < |s| && instanceRoot < |s|
    ensures forall k | 0 <= k < |r| ::
      (r[k].instanceRoot == Some(instanceRoot) && r[k].prefabRoot.Some? && r[k].prefabRoot.value in assetPaths
       && r[k].prefabRoot.value in store && r[k].prefab.Some?)
  {
    if |assetPaths| == 0 then []
    else
      var rest := CandidatesFromPaths(store, s, instance, instanceRoot, assetPaths[1..]);
      var path := assetPaths[0];
      if path !in store then rest
      else
        var prefabPath := GetPathForObjectInHierarchy(s, Some(instance), instanceRoot);
        var prefab := GetChildByPath(store[path].nodes, store[path].root, prefabPath);
        if prefab.None? then rest
        else [PrefabCandidate(Some(instanceRoot), Some(path), prefab, prefabPath)] + rest
  }

  /** The index key an instance root is looked up under: its name with one `(Clone)` stripped. */
  function CandidateName(s: seq<Node>, n: nat): string
    requires n < |s|
  {
    WithoutClonePostfix(s[n].name)
  }

  /**
   * The outer loop: the candidates of `cur` and then those of each of its
   * ancestors, nearest first.
   */
  function CollectCandidates(index: map<string, seq<string>>, store: AssetStore, s: seq<Node>, instance: nat, cur: Option<nat>): (r: seq<PrefabCandidate>)
    requires ValidStore(store) && WellFormed(s) && instance < |s| && (cur.Some? ==> cur.value < |s|)
    ensures cur.None? ==> r == []
    ensures forall k | 0 <= k < |r| ::
      (r[k].instanceRoot.Some? && cur.Some? && r[k].instanceRoot.value <= cur.value
       && CandidateName(s, r[k].instanceRoot.value) in index && r[k].prefabRoot.Some?
       && r[k].prefabRoot.value in index[CandidateName(s, r[k].instanceRoot.value)]
       && r[k].prefabRoot.value in store && r[k].prefab.Some?)
    ensures forall a, b | 0 <= a < b < |r| :: r[b].instanceRoot.value <= r[a].instanceRoot.value
    decreases if cur.Some? then cur.value + 1 else 0
  {
    match cur
    case None => []
    case Some(n) =>
      var key := CandidateName(s, n);
      var here := if key in index then CandidatesFromPaths(store, s, instance, n, index[key]) else [];
      here + CollectCandidates(index, store, s, instance, GetParent(s, n))
  }

  /**
   * What a candidate for `instance` is, independently of the search order:
   * its instance root is an ancestor-or-self of the instance, its prefab is
   * indexed under the root's clone-stripped name and loads, its path is the
   * instance's path below the root, and that path resolves in the prefab to
   * the candidate's `prefab`.
   */
  ghost predicate IsCandidate(index: map<string, seq<string>>, store: AssetStore, s: seq<Node>, instance: nat, c: PrefabCandidate)
    requires ValidStore(store) && WellFormed(s) && instance < |s|
  {
    && c.instanceRoot.Some? && c.instanceRoot.value < |s|
    && IsAncestorOrSelf(s, c.instanceRoot.value, instance)
    && c.prefabRoot.Some?
    && CandidateName(s, c.instanceRoot.value) in index
    && c.prefabRoot.value in index[CandidateName(s, c.instanceRoot.value)]
    && c.prefabRoot.value in store
    && c.prefabPath == GetPathForObjectInHierarchy(s, Some(instance), c.instanceRoot.value)
    && c.prefab == GetChildByPath(store[c.prefabRoot.value].nodes, store[c.prefabRoot.value].root, c.prefabPath)
    && c.prefab.Some?
  }

  /** The candidates one instance root contributes. */
  lemma {:induction false} CandidatesFromPathsMember(store: AssetStore, s: seq<Node>, instance: nat, root: nat, paths: seq<string>, c: PrefabCandidate)
    requires ValidStore(store) && WellFormed(s) && instance < |s| && root < |s|
    ensures c in CandidatesFromPaths(store, s, instance, root, paths) <==>
      && c.instanceRoot == Some(root)
      && c.prefabRoot.Some? && c.prefabRoot.value in paths && c.prefabRoot.value in store
      && c.prefabPath == GetPathForObjectInHierarchy(s, Some(instance), root)
      && c.prefab == GetChildByPath(store[c.prefabRoot.value].nodes, store[c.prefabRoot.value].root, c.prefabPath)
      && c.prefab.Some?
  {
    if |paths| > 0 {
      CandidatesFromPathsMember(store, s, instance, root, paths[1..], c);
      assert paths == [paths[0]] + paths[1..];
    }
  }

  /** Collecting from `n` upwards finds exactly the candidates rooted at an ancestor-or-self of `n`. */
  lemma {:induction false} CollectCandidatesMember(index: map<string, seq<string>>, store: AssetStore, s: seq<Node>, instance: nat, n: nat, c: PrefabCandidate)
    requires ValidStore(store) && WellFormed(s) && instance < |s| && n < |s|
    ensures c in CollectCandidates(index, store, s, instance, Some(n)) <==>
      && c.instanceRoot.Some? && c.instanceRoot.value < |s| && IsAncestorOrSelf(s, c.instanceRoot.value, n)
      && CandidateName(s, c.instanceRoot.value) in index
      && c in CandidatesFromPaths(store, s, instance, c.instanceRoot.value, index[CandidateName(s, c.instanceRoot.value)])
    decreases n
  {
    var key := CandidateName(s, n);
    var here := if key in index then CandidatesFromPaths(store, s, instance, n, index[key]) else [];
    var p := GetParent(s, n);
    if key in index {
      CandidatesFromPathsMember(store, s, instance, n, index[key], c);
    }
    if p.Some? {
      CollectCandidatesMember(index, store, s, instance, p.value, c);
    }
  }

  /** The collected candidates are exactly the ones `IsCandidate` describes. */
  lemma CollectedAreCandidates(index: map<string, seq<string>>, store: AssetStore, s: seq<Node>, instance: nat, c: PrefabCandidate)
    requires ValidStore(store) && WellFormed(s) && instance < |s|
    ensures c in CollectCandidates(index, store, s, instance, Some(instance)) <==> IsCandidate(index, store, s, instance, c)
  {
    CollectCandidatesMember(index, store, s, instance, instance, c);
    if c.instanceRoot.Some? && c.instanceRoot.value < |s| && CandidateName(s, c.instanceRoot.value) in index {
      CandidatesFromPathsMember(store, s, instance, c.instanceRoot.value, index[CandidateName(s, c.instanceRoot.value)], c);
    }
  }

  /**
   * Every candidate's path is defined and names the instance below its
   * instance root, and its prefab object is where that path leads.
   */
  lemma CandidatePathDefined(index: map<string, seq<string>>, store: AssetStore, s: seq<Node>, instance: nat, c: PrefabCandidate)
    requires ValidStore(store) && WellFormed(s) && instance < |s|
    requires IsCandidate(index, store, s, instance, c)
    ensures c.IsValid() && c.prefabPath.Some? && c.prefab.Some?
    ensures c.prefab.value < |store[c.prefabRoot.value].nodes|
  {
    PathDefinedIffAncestor(s, Some(instance), c.instanceRoot.value);
  }

  // ---------------------------------------------------------------------
  // Longest path first

  /** The sort key: the length of the candidate's path in the prefab. */
  function PathLength(c: PrefabCandidate): nat {
    if c.prefabPath.Some? then |c.prefabPath.value| else 0
  }

  ghost predicate LongestFirst(cs: seq<PrefabCandidate>) {
    forall i, j | 0 <= i < j < |cs| :: PathLength(cs[i]) >= PathLength(cs[j])
  }

  function InsertByLength(c: PrefabCandidate, cs: seq<PrefabCandidate>): (r: seq<PrefabCandidate>)
    requires LongestFirst(cs)
    ensures LongestFirst(r)
    ensures multiset(r) == multiset(cs) + multiset{c}
    ensures |r| == |cs| + 1 && (r[0] == c || (|cs| > 0 && r[0] == cs[0]))
  {
    if |cs| == 0 then [c]
    else if PathLength(c) >= PathLength(cs[0]) then
      ConsLongestFirst(c, cs);
      [c] + cs
    else
      assert cs == [cs[0]] + cs[1..];
      var rest := InsertByLength(c, cs[1..]);
      ConsLongestFirst(cs[0], rest);
      [cs[0]] + rest
  }

  lemma ConsLongestFirst(x: PrefabCandidate, r: seq<PrefabCandidate>)
    requires LongestFirst(r) && (|r| > 0 ==> PathLength(x) >= PathLength(r[0]))
    ensures LongestFirst([x] + r)
  {
    forall i, j | 0 <= i < j < |[x] + r|
      ensures PathLength(([x] + r)[i]) >= PathLength(([x] + r)[j])
    {
      if i == 0 {
        assert PathLength(r[0]) >= PathLength(r[j - 1]) || j == 1;
      }
    }
  }

  /**
   * `candidates.Sort` by descending path length: a permutation of the input,
   * longest path first. `List.Sort` is unstable; this one keeps ties in
   * input order, which is one of the orders the source may produce.
   */
  function SortByPathLength(cs: seq<PrefabCandidate>): (r: seq<PrefabCandidate>)
    ensures LongestFirst(r)
    ensures multiset(r) == multiset(cs)
  {
    if |cs| == 0 then []
    else
      assert cs == [cs[0]] + cs[1..];
      InsertByLength(cs[0], SortByPathLength(cs[1..]))
  }

  /**
   * `GetPrefabCandidatesForSceneObject`: refreshes the index, collects the
   * candidates over the instance and its ancestors, and sorts them longest
   * path first.
   */
  method GetPrefabCandidatesForSceneObject(db: SearchDB, assetPaths: seq<string>, stem: string -> string,
                                           store: AssetStore, s: seq<Node>, instance: nat)
    returns (db': SearchDB, r: seq<PrefabCandidate>)
    requires ValidStore(store) && WellFormed(s) && instance < |s|
    ensures db.processed == |assetPaths| ==> db' == db
    ensures db.processed != |assetPaths| ==> db'.processed == |assetPaths| && IsGroupBy(db'.index, assetPaths, stem)
    ensures LongestFirst(r)
    ensures multiset(r) == multiset(CollectCandidates(db'.index, store, s, instance, Some(instance)))
    ensures forall c :: c in r <==> IsCandidate(db'.index, store, s, instance, c)
  {
    db' := RefreshIndex(db, assetPaths, stem);
    var candidates := CollectCandidates(db'.index, store, s, instance, Some(instance));
    r := candidates;
    if |candidates| > 0 {
      r := SortByPathLength(candidates);
    }
    forall c
      ensures c in r <==> IsCandidate(db'.index, store, s, instance, c)
    {
      assert c in r <==> c in multiset(r);
      CollectedAreCandidates(db'.index, store, s, instance, c);
    }
  }

  // ---------------------------------------------------------------------
  // FindRootObject

  /** The prefab-name test of `FindRootObject`: clone-stripped, lower-cased names are equal. */
  predicate SameRootName(name: string, prefabName: string) {
    ToLower(WithoutClonePostfix(name)) == ToLower(WithoutClonePostfix(prefabName))
  }

  /** The prefab-name test accepts exactly the names that match up to `(Clone)` and ASCII letter case. */
  lemma SameRootNameIgnoresCase(name: string, prefabName: string)
    ensures SameRootName(name, prefabName) <==> EqualIgnoringCase(WithoutClonePostfix(name), WithoutClonePostfix(prefabName))
  {
    ToLowerEqualIffIgnoringCase(WithoutClonePostfix(name), WithoutClonePostfix(prefabName));
  }

  /** `FindRootObject`: walks up from `g` to the first object named like the prefab. */
  function FindRootObject(s: seq<Node>, g: Option<nat>, prefabName: string): (r: Option<nat>)
    requires WellFormed(s) && (g.Some? ==> g.value < |s|)
    ensures r.Some? ==> r.value < |s|
    decreases if g.Some? then g.value + 1 else 0
  {
    match g
    case None => None
    case Some(n) =>
      if SameRootName(s[n].name, prefabName) then g
      else FindRootObject(s, GetParent(s, n), prefabName)
  }

  lemma {:induction false} AncestorIndexBelow(s: seq<Node>, a: nat, n: nat)
    requires WellFormed(s) && n < |s| && IsAncestorOrSelf(s, a, n)
    ensures a <= n
    decreases n
  {
    if n != a {
      AncestorIndexBelow(s, a, s[n].parent.value);
    }
  }

  /**
   * `FindRootObject` answers the nearest ancestor-or-self of `g` named like
   * the prefab, and null when there is none.
   */
  lemma {:induction false} FindRootObjectIsNearest(s: seq<Node>, g: nat, prefabName: string)
    requires WellFormed(s) && g < |s|
    ensures var r := FindRootObject(s, Some(g), prefabName);
      && (r.Some? ==> IsAncestorOrSelf(s, r.value, g) && SameRootName(s[r.value].name, prefabName))
      && (r.Some? ==> forall m | r.value < m < |s| && IsAncestorOrSelf(s, m, g) :: !SameRootName(s[m].name, prefabName))
      && (r.None? ==> forall m | 0 <= m < |s| && IsAncestorOrSelf(s, m, g) :: !SameRootName(s[m].name, prefabName))
    decreases g
  {
    if SameRootName(s[g].name, prefabName) {
      forall m | 0 <= m < |s| && IsAncestorOrSelf(s, m, g)
        ensures m <= g
      {
        AncestorIndexBelow(s, m, g);
      }
    } else if s[g].parent.Some? {
      FindRootObjectIsNearest(s, s[g].parent.value, prefabName);
    }
  }
}
