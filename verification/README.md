# RuntimePrefabEditor core, modelled in Dafny

RuntimePrefabEditor is a Unity editor window. It takes a GameObject selected in
a running scene and finds the prefab asset the object was instantiated from.
It then lists what differs between the instance and that prefab and writes the
changes the user selects back into the prefab asset. This project models the
logic behind the window and proves properties about it:

- **Hierarchy paths** (`EditorUtils`, editor_utils.dfy). These functions walk a
  GameObject hierarchy. They turn an object into its slash-separated path below
  an ancestor, resolve such a path back to an object, and compute the parent
  path of a path. Further functions strip the `(Clone)` postfix Unity appends
  to instance names and compare animation curves.
- **Diff computation** (`GameObjectDiff`, game_object_diff.dfy). This module
  pairs the instance's components with the prefab object's components by type,
  then by order among components of that type. It walks the serialized
  properties of each pair and compares them kind by kind. Object references
  into the instance hierarchy are retargeted into the prefab hierarchy by path.
  The module emits the ordered list of Property, Delete, Add and New diffs.
- **Diff application** (`DiffApply`, diff_apply.dfy). Each diff's apply action
  is an edit of a prefab asset, and the module proves that every edit keeps
  the asset well formed.
- **Prefab search** (`PrefabSearchDB`, prefab_search_db.dfy). This module
  keeps an index from prefab file names to asset paths. It collects every
  (instance root, prefab) candidate along the ancestor chain of the selected
  object and sorts them so that the longest path comes first. It also finds
  the nearest ancestor whose name matches a prefab.
- **Window logic** (`PrefabEditor`, prefab_editor.dfy). This is the non-UI part
  of the window:
  - which diffs are selected;
  - which candidate stays selected from one repaint to the next;
  - applying the selected diffs, in list order, to the prefab.

Shared pieces:

- `SceneModel` (scene_model.dfy) is Unity's object model. A scene or a prefab
  is an arena of `Node`s; each node has a name, a parent index, child indices
  and components. Components carry flat lists of `SerializedProperty`.
  `WellFormed` states that the parent and child links agree and that a parent
  always has a smaller index than its children. That ordering makes the
  upward walks terminate.
- `Wrappers` (wrappers.dfy) holds `Option`; `SeqFacts` (seq_facts.dfy) holds
  generic sequence lemmas.

The code emits Property diffs first, then Delete diffs, then Add diffs
(GameObjectDiff.cs:55-114); `GetDiffsShape` and `GetDiffsOrdered` state this
order.

`ApplyAll` and `ApplySelected` apply the New diff in its corrected form, which
parents the new object under the object at the instance's parent path (see
"## Findings"). `ApplyNewAsWritten` models the New apply exactly as written.

## Model

| member | source | states |
|---|---|---|
| EditorUtils.GetParent | RuntimePrefabEditor/Scripts/Editor/EditorUtils.cs:65-69 | The parent it returns lists the object among its children and comes earlier in the arena. None means no object has it as a child. |
| EditorUtils.GetPathForObjectInHierarchy | RuntimePrefabEditor/Scripts/Editor/EditorUtils.cs:20-39 | The object itself has the empty path. A null object has no path. |
| EditorUtils.PathDefinedIffAncestor | RuntimePrefabEditor/Scripts/Editor/EditorUtils.cs:20-39 | A path exists exactly when the root is an ancestor of the object or the object itself. Otherwise the walk reaches the top and returns null. |
| EditorUtils.PathFromSomeIffAncestor | RuntimePrefabEditor/Scripts/Editor/EditorUtils.cs:24-38 | The upward loop, whatever it has accumulated so far, ends with a path exactly when it meets the root. |
| EditorUtils.PathIsJoinedNames | RuntimePrefabEditor/Scripts/Editor/EditorUtils.cs:24-38 | The path is the names along the downward chain from the root to the object, joined with '/'. |
| EditorUtils.PathIsCanonical | RuntimePrefabEditor/Scripts/Editor/EditorUtils.cs:24-38 | The path is empty exactly for the root itself. Otherwise it neither starts nor ends with '/'. |
| EditorUtils.FindNamed | RuntimePrefabEditor/Scripts/Editor/EditorUtils.cs:41-52 | `Transform.Find` on one segment gives the first child with that name. It gives none exactly when no child has the name. |
| EditorUtils.GetChildByPath | RuntimePrefabEditor/Scripts/Editor/EditorUtils.cs:41-52 | A null path resolves to nothing. The empty path resolves to the root. Any result is an object of the hierarchy. |
| EditorUtils.JoinSplit | RuntimePrefabEditor/Scripts/Editor/EditorUtils.cs:41-52 | Splitting a path at '/' and joining the parts again gives back the same path. |
| EditorUtils.SplitJoin | RuntimePrefabEditor/Scripts/Editor/EditorUtils.cs:41-52 | Joining slash-free names and splitting the result gives back the names. |
| EditorUtils.ResolvedPathRoundTrip | RuntimePrefabEditor/Scripts/Editor/EditorUtils.cs:20-52 | When a path resolves to an object, that object's path is the path resolved. |
| EditorUtils.FindNamedUnique | RuntimePrefabEditor/Scripts/Editor/EditorUtils.cs:41-52 | When sibling names are unique, looking up a child's name under its parent finds that child. |
| EditorUtils.ResolveFollowsChain | RuntimePrefabEditor/Scripts/Editor/EditorUtils.cs:41-52 | When sibling names are unique, the names along a downward chain resolve to the chain's last object. |
| EditorUtils.PathRoundTrip | RuntimePrefabEditor/Scripts/Editor/EditorUtils.cs:20-52 | An object's path below an ancestor resolves back to that object when sibling names are unique. Whatever it resolves to has the same path. |
| EditorUtils.GreedyFindCanMissPath | RuntimePrefabEditor/Scripts/Editor/EditorUtils.cs:41-52 | With two siblings of the same name, the path of the second one's child does not resolve, because each segment takes the first match. |
| EditorUtils.GetParentPath | RuntimePrefabEditor/Scripts/Editor/EditorUtils.cs:54-63 | The parent path is a prefix of the path and ends right before its last '/', trailing slashes ignored. It is empty exactly when that '/' is missing or is the first character; otherwise its length is the position of that last '/'. |
| EditorUtils.GetParentPathExamples | RuntimePrefabEditor/Scripts/Editor/EditorUtils.cs:54-63 | "a/b/c" gives "a/b". "a" and "/a" give "". "a/b//" gives "a". |
| EditorUtils.ParentPathOfJoin | RuntimePrefabEditor/Scripts/Editor/EditorUtils.cs:54-63 | The parent path of joined names is the join of all names but the last. |
| EditorUtils.ParentPathOfChild | RuntimePrefabEditor/Scripts/Editor/EditorUtils.cs:20-63 | The parent path of an object's path is the path of the object's parent. |
| EditorUtils.ChildOfParentPath | RuntimePrefabEditor/Scripts/Editor/EditorUtils.cs:20-63 | Appending an object's name to the parent path of its path gives back its path. |
| EditorUtils.PathFromStep | RuntimePrefabEditor/Scripts/Editor/EditorUtils.cs:32-35 | Starting the walk at a parent with a child's name as the accumulator gives the child path of the parent's path. |
| EditorUtils.PathFromFrame | RuntimePrefabEditor/Scripts/Editor/EditorUtils.cs:24-38 | Appending objects, without renaming or re-parenting existing ones, leaves every existing object's path unchanged. |
| EditorUtils.TryRemovePostfix | RuntimePrefabEditor/Scripts/Editor/EditorUtils.cs:71-82 | It reports success exactly when the string ends with the postfix. On success, the result plus the postfix is the input. Otherwise the input is returned unchanged. |
| EditorUtils.WithoutClonePostfix | RuntimePrefabEditor/Scripts/Editor/EditorUtils.cs:84-88 | A name ending in "(Clone)" loses exactly that ending. Any other name is kept. |
| EditorUtils.StripsOnlyOneClone | RuntimePrefabEditor/Scripts/Editor/EditorUtils.cs:84-88 | Only one "(Clone)" is stripped: "X(Clone)(Clone)" becomes "X(Clone)". |
| EditorUtils.SequenceEqual | RuntimePrefabEditor/Scripts/Editor/EditorUtils.cs:12-18 | Two key arrays are equal exactly when they have the same length and are equal position by position. |
| EditorUtils.IsAnimationCurvesEqual | RuntimePrefabEditor/Scripts/Editor/EditorUtils.cs:12-18 | Two curves are equal exactly when both wrap modes agree and the key arrays are equal key by key. |
| EditorUtils.CurveEqualityReflexive | RuntimePrefabEditor/Scripts/Editor/EditorUtils.cs:12-18 | When key equality is reflexive, every curve equals itself. |
| EditorUtils.CurveEqualitySymmetric | RuntimePrefabEditor/Scripts/Editor/EditorUtils.cs:12-18 | When key equality is symmetric, curve equality is symmetric. |
| EditorUtils.ToLower | RuntimePrefabEditor/Scripts/Editor/PrefabSearchDB.cs:117 | The result has the same length and no upper-case ASCII letter. Characters other than 'A'..'Z' are kept, and each upper-case letter becomes its lower-case partner. |
| EditorUtils.ToLowerEqualIffIgnoringCase | RuntimePrefabEditor/Scripts/Editor/PrefabSearchDB.cs:117 | Two strings lower-case to the same string exactly when they are equal up to ASCII letter case, checked against the independent `EqualIgnoringCase`. |
| EditorUtils.ToLowerIdempotent | RuntimePrefabEditor/Scripts/Editor/PrefabSearchDB.cs:117 | Lower-casing a lower-cased string changes nothing. |
| GameObjectDiff.FirstOfType | RuntimePrefabEditor/Scripts/Editor/GameObjectDiff.cs:421-441 | `GetComponent(type)` finds the first component of that type: no earlier component has the type. It finds none exactly when no component has the type. |
| GameObjectDiff.CompareObjectReference | RuntimePrefabEditor/Scripts/Editor/GameObjectDiff.cs:363-446 | Null or persistent references must be equal, and a difference assigns the instance's reference. Other kinds always compare equal. A scene reference compares equal when its path does not resolve in the prefab. Otherwise it is equal exactly when the prefab holds a reference of the same kind to the object at the same path. |
| GameObjectDiff.RetargetKeepsPath | RuntimePrefabEditor/Scripts/Editor/GameObjectDiff.cs:399-441 | A retargeted scene reference points into the prefab at the same path as the original. A GameObject reference is never retargeted to null. |
| GameObjectDiff.CompareSerializedProperty | RuntimePrefabEditor/Scripts/Editor/GameObjectDiff.cs:199-361 | Each property kind compares its own value field: integers through the 32-bit `intValue`, and booleans, strings and enums, exactly; floats, colours, vectors, rects and bounds with the float equality; curves key by key; references by the rule above. Generic and unsupported kinds never differ. A difference assigns the instance's value. |
| SceneModel.IntOf | RuntimePrefabEditor/Scripts/Editor/GameObjectDiff.cs:209-221 | `intValue` reads a signed 32-bit integer. A stored value inside that range reads as itself. |
| SceneModel.Int32 | RuntimePrefabEditor/Scripts/Editor/GameObjectDiff.cs:209-221 | The C# `int` conversion keeps the value modulo 2^32 and lands in the signed 32-bit range. |
| SceneModel.IntOfAgreesModulo | RuntimePrefabEditor/Scripts/Editor/GameObjectDiff.cs:209-221 | Two stored integers compare equal through `intValue` exactly when they agree modulo 2^32, so `long` fields that differ only above bit 31 give no diff. |
| GameObjectDiff.CompareWithItself | RuntimePrefabEditor/Scripts/Editor/GameObjectDiff.cs:199-361 | A property with no scene reference compares equal to itself when the equalities are reflexive. |
| GameObjectDiff.CompareAfterAssign | RuntimePrefabEditor/Scripts/Editor/GameObjectDiff.cs:171-185 | After the diff's value is assigned to the prefab property, comparing again finds no difference. The one exception is a component reference that the retarget could only set to null. |
| GameObjectDiff.FindProperty | RuntimePrefabEditor/Scripts/Editor/GameObjectDiff.cs:157-159 | `FindProperty` finds a property with that path. It finds none exactly when no property has the path. |
| GameObjectDiff.SkipChildren | RuntimePrefabEditor/Scripts/Editor/GameObjectDiff.cs:188-190 | `Next(false)` skips exactly the properties nested deeper than the current one. |
| GameObjectDiff.Visits | RuntimePrefabEditor/Scripts/Editor/GameObjectDiff.cs:148-191 | The property walk visits properties in strictly increasing order. |
| GameObjectDiff.EnterChildrenFlow | RuntimePrefabEditor/Scripts/Editor/GameObjectDiff.cs:153-190 | The walk starts at the first property with the flag set. Each step moves by `Next` with the flag the previous step left. A property the prefab lacks keeps that flag, a blacklisted one clears it, and any other sets it exactly when the property is Generic. |
| GameObjectDiff.ClosedPropertiesNotDescended | RuntimePrefabEditor/Scripts/Editor/GameObjectDiff.cs:162-190 | After a blacklisted or non-Generic property that the prefab also has, the walk skips all of that property's children. |
| GameObjectDiff.GenericPropertiesDescended | RuntimePrefabEditor/Scripts/Editor/GameObjectDiff.cs:188-190 | After a Generic property that the prefab also has and that is not blacklisted, the walk visits the next property. |
| GameObjectDiff.TopLevelPropertiesVisited | RuntimePrefabEditor/Scripts/Editor/GameObjectDiff.cs:148-191 | Every top-level property is visited. |
| GameObjectDiff.FillDiffsFromComponent | RuntimePrefabEditor/Scripts/Editor/GameObjectDiff.cs:148-191 | Every diff of a component pair is a Property diff naming the instance component and a path outside the blacklist. Its apply assigns that path on the paired prefab component of the given object. FillDiffsCharacterised states which properties yield one. |
| GameObjectDiff.FillDiffsCharacterised | RuntimePrefabEditor/Scripts/Editor/GameObjectDiff.cs:148-191 | A component yields exactly one Property diff per visited property that the prefab has, that is not blacklisted and that compares different. Every such diff names the component and a path outside the blacklist. |
| GameObjectDiff.FillDiffsAgainstItself | RuntimePrefabEditor/Scripts/Editor/GameObjectDiff.cs:148-191 | A component compared with itself yields no diff. |
| GameObjectDiff.OfTypeMember | RuntimePrefabEditor/Scripts/Editor/GameObjectDiff.cs:57 | `GetComponents(type)` returns exactly the components of that type. |
| GameObjectDiff.PairedComponent | RuntimePrefabEditor/Scripts/Editor/GameObjectDiff.cs:57-65 | A prefab component is paired with an instance component of its type. It has no partner exactly when the instance has no component of that type. |
| GameObjectDiff.PairingByOrder | RuntimePrefabEditor/Scripts/Editor/GameObjectDiff.cs:57-65 | The j-th prefab component of a type is paired with instance component j modulo the count of that type. |
| GameObjectDiff.PairingWrapsAround | RuntimePrefabEditor/Scripts/Editor/GameObjectDiff.cs:61-65 | Two prefab components of one type can both pair with the instance's only component of that type. |
| GameObjectDiff.PairedWithItself | RuntimePrefabEditor/Scripts/Editor/GameObjectDiff.cs:57-65 | An object compared with itself pairs every component with itself. |
| GameObjectDiff.WithoutTypeOfMember | RuntimePrefabEditor/Scripts/Editor/GameObjectDiff.cs:67-114 | The components kept are exactly those whose type the other side lacks. |
| GameObjectDiff.DeletedAreUnpaired | RuntimePrefabEditor/Scripts/Editor/GameObjectDiff.cs:67-91 | The deleted components are exactly the prefab components whose type the instance lacks, in prefab order. |
| GameObjectDiff.AddedAreUnmatched | RuntimePrefabEditor/Scripts/Editor/GameObjectDiff.cs:93-114 | The added components are exactly the instance components whose type the prefab lacks, in instance order. |
| GameObjectDiff.PropertyDiffsFromPairs | RuntimePrefabEditor/Scripts/Editor/GameObjectDiff.cs:55-75 | The Property diffs are exactly the diffs of the paired components. |
| GameObjectDiff.GetDiffs | RuntimePrefabEditor/Scripts/Editor/GameObjectDiff.cs:46-146 | Without a prefab object the result is a single New diff that creates an object. With one, no diff is a New diff. GetDiffsShape, GetDiffsOrdered and GetDiffsNewObject state the rest. |
| GameObjectDiff.GetDiffsShape | RuntimePrefabEditor/Scripts/Editor/GameObjectDiff.cs:46-115 | With a prefab object, the diffs are the Property diffs, then one Delete per unpaired prefab component, then one Add per instance component of a new type. |
| GameObjectDiff.GetDiffsOrdered | RuntimePrefabEditor/Scripts/Editor/GameObjectDiff.cs:46-146 | Property diffs come before Delete diffs, which come before Add diffs. A New diff arises only when there is no prefab object. |
| GameObjectDiff.GetDiffsNewObject | RuntimePrefabEditor/Scripts/Editor/GameObjectDiff.cs:116-143 | Without a prefab object there is exactly one New diff. It is named after the instance and carries the instance's path and components. |
| GameObjectDiff.GetDiffsOfUnchangedInstance | RuntimePrefabEditor/Scripts/Editor/GameObjectDiff.cs:46-146 | An instance whose components equal the prefab object's yields no diffs, provided the float, struct and keyframe equalities are reflexive, no two properties of a component share a path, and no property references a scene object. The last two hold for a real prefab: serialized property paths within a component are unique, and a prefab asset cannot reference scene objects. Without the second, a scene reference on both sides compares as different, because a scene object has no path in the prefab. |
| DiffApply.WithoutComponentMember | RuntimePrefabEditor/Scripts/Editor/GameObjectDiff.cs:82 | `DestroyImmediate` leaves exactly the other components. |
| DiffApply.SetFirstReadBack | RuntimePrefabEditor/Scripts/Editor/GameObjectDiff.cs:171-185 | After an assignment, the property at that path reads the new value. Every other path reads as before, and a missing path changes nothing. For an `ArraySize` target this is the model's behaviour, not Unity's (see "## Left out"). |
| DiffApply.AssignIn | RuntimePrefabEditor/Scripts/Editor/GameObjectDiff.cs:171-185 | The assignment keeps every component's identity and type, edits only the components with the target id, and touches only the target path. Unity also resizes the element list when the target is an `ArraySize` property, which the model does not (see "## Left out"). |
| DiffApply.Reidentify | RuntimePrefabEditor/Scripts/Editor/GameObjectDiff.cs:101-104 | Copied components get consecutive fresh ids and keep their types and properties. |
| DiffApply.Apply | RuntimePrefabEditor/Scripts/Editor/GameObjectDiff.cs:82-135 | An apply action keeps the root, never lowers the next free id, and keeps the names and parents of the objects already there. It adds at most one object, and only a New apply does, placing it under the object at the instance's parent path. An `ArraySize` assignment changes only the size value (see "## Left out"). |
| DiffApply.ApplyKeepsAsset | RuntimePrefabEditor/Scripts/Editor/GameObjectDiff.cs:82-135 | Every apply action keeps the prefab asset well formed. It keeps the root and the names and parents of existing objects, and never reuses a component id. |
| DiffApply.ApplyKeepsPaths | RuntimePrefabEditor/Scripts/Editor/GameObjectDiff.cs:82-135 | No apply action changes the path of an object that was already in the prefab. |
| DiffApply.DestroyRemovesComponent | RuntimePrefabEditor/Scripts/Editor/GameObjectDiff.cs:82 | A Delete apply removes exactly the component with that id and leaves other objects alone. |
| DiffApply.AddAppendsFreshComponent | RuntimePrefabEditor/Scripts/Editor/GameObjectDiff.cs:101-104 | An Add apply appends a copy of the instance component's type and properties under an id no component had. Other objects are unchanged. |
| DiffApply.AssignReadBack | RuntimePrefabEditor/Scripts/Editor/GameObjectDiff.cs:171-185 | After a Property apply, the component with that id reads the new value at the path and is unchanged elsewhere. Other components are untouched. For an `ArraySize` target, Unity also adds or removes element properties, which the model does not (see "## Left out"). |
| DiffApply.AssignIdempotent | RuntimePrefabEditor/Scripts/Editor/GameObjectDiff.cs:171-185 | Applying a Property diff twice has the same result as applying it once. |
| DiffApply.PropertyDiffTakesEffect | RuntimePrefabEditor/Scripts/Editor/GameObjectDiff.cs:148-191 | Once a Property diff is applied, the prefab property compares equal to the instance property, except for a component reference that could only be set to null. |
| DiffApply.ApplyNewAsWritten | RuntimePrefabEditor/Scripts/Editor/GameObjectDiff.cs:119-134 | The New apply as written either changes nothing or adds one object, named after the instance, under the object at the instance's own path. |
| DiffApply.NewAsWrittenCreatesNothing | RuntimePrefabEditor/Scripts/Editor/GameObjectDiff.cs:122-134 | The New apply as written looks up the instance's own path and so fails where the corrected apply creates the object at that path. |
| DiffApply.NewObjectLandsAtItsPath | RuntimePrefabEditor/Scripts/Editor/GameObjectDiff.cs:116-143 | The corrected New apply adds one object with the instance's name and freshly identified copies of its components. The object sits under the parent path, so its path is the parent path plus its name. |
| DiffApply.NewDiffRecreatesInstancePath | RuntimePrefabEditor/Scripts/Editor/GameObjectDiff.cs:116-143 | Applying the New diff of an instance creates one object whose path in the prefab equals the instance's path in the scene. |
| PrefabSearchDB.Reset | RuntimePrefabEditor/Scripts/Editor/PrefabSearchDB.cs:21-30 | A reset candidate is invalid and keeps its other fields. |
| PrefabSearchDB.PathsWithStemMember | RuntimePrefabEditor/Scripts/Editor/PrefabSearchDB.cs:95-107 | The paths listed under a file name are exactly the asset paths with that file name. |
| PrefabSearchDB.RefreshIndex | RuntimePrefabEditor/Scripts/Editor/PrefabSearchDB.cs:89-110 | With an unchanged asset count the index is kept. Otherwise it is rebuilt as the grouping of all asset paths by file name, in input order, and the count is recorded. |
| PrefabSearchDB.IndexedPathsComeFromInput | RuntimePrefabEditor/Scripts/Editor/PrefabSearchDB.cs:89-110 | A path is indexed under a key exactly when it is an asset path whose file name is that key. |
| PrefabSearchDB.CandidatesFromPaths | RuntimePrefabEditor/Scripts/Editor/PrefabSearchDB.cs:46-74 | Every candidate found for one instance root has that root, a prefab path from the list that loads, and a resolved prefab object. |
| PrefabSearchDB.CollectCandidates | RuntimePrefabEditor/Scripts/Editor/PrefabSearchDB.cs:38-78 | Every collected candidate has an instance root at or above the starting object whose stripped name is indexed, a prefab from that root's index entry that loads, and a resolved prefab object. Candidates of nearer roots come first. |
| PrefabSearchDB.CandidatesFromPathsMember | RuntimePrefabEditor/Scripts/Editor/PrefabSearchDB.cs:46-74 | For one instance root, the candidates are exactly the loadable prefabs in the list in which the instance's path resolves. Each carries that path and the resolved object. |
| PrefabSearchDB.CollectCandidatesMember | RuntimePrefabEditor/Scripts/Editor/PrefabSearchDB.cs:38-78 | The ancestor walk collects, for every ancestor-or-self whose stripped name is indexed, that root's candidates. |
| PrefabSearchDB.CollectedAreCandidates | RuntimePrefabEditor/Scripts/Editor/PrefabSearchDB.cs:38-78 | The collected candidates are exactly those that the independent `IsCandidate` definition describes. |
| PrefabSearchDB.CandidatePathDefined | RuntimePrefabEditor/Scripts/Editor/PrefabSearchDB.cs:51-73 | Every candidate is valid, and its path and prefab object are set. |
| PrefabSearchDB.InsertByLength | RuntimePrefabEditor/Scripts/Editor/PrefabSearchDB.cs:80-84 | Inserting into a longest-first list keeps it longest-first and adds exactly the one candidate. |
| PrefabSearchDB.SortByPathLength | RuntimePrefabEditor/Scripts/Editor/PrefabSearchDB.cs:80-84 | The sorted list is a permutation of the input with the longest prefab path first. |
| PrefabSearchDB.GetPrefabCandidatesForSceneObject | RuntimePrefabEditor/Scripts/Editor/PrefabSearchDB.cs:32-87 | The index is refreshed first. The result is a longest-first permutation of the collected candidates and holds exactly the candidates of the object. |
| PrefabSearchDB.SameRootNameIgnoresCase | RuntimePrefabEditor/Scripts/Editor/PrefabSearchDB.cs:117 | The name test of `FindRootObject` accepts exactly the names equal to the prefab's up to one `(Clone)` postfix on each side and ASCII letter case. |
| PrefabSearchDB.FindRootObject | RuntimePrefabEditor/Scripts/Editor/PrefabSearchDB.cs:112-122 | Any object it returns belongs to the hierarchy. |
| PrefabSearchDB.FindRootObjectIsNearest | RuntimePrefabEditor/Scripts/Editor/PrefabSearchDB.cs:112-122 | The result is the nearest ancestor-or-self whose name, without "(Clone)" and lower-cased, matches the prefab's name. None means no ancestor-or-self matches. |
| PrefabEditor.IsDiffSelected | RuntimePrefabEditor/Scripts/Editor/RuntimePrefabEditor.cs:267-270 | A diff whose id was explicitly selected reads as selected, and an explicitly deselected one reads as not selected, whatever the default flag. A diff with no recorded choice follows the default flag. |
| PrefabEditor.SetDiffSelected | RuntimePrefabEditor/Scripts/Editor/RuntimePrefabEditor.cs:272-284 | Afterwards the diff reads as chosen under either default flag. Diffs with another id read as before, and the two id sets stay disjoint. |
| PrefabEditor.LastChoiceWins | RuntimePrefabEditor/Scripts/Editor/RuntimePrefabEditor.cs:267-284 | A diff's last selection choice decides it, whatever other diffs are toggled later and however the default flag is set. |
| PrefabEditor.FindBestCandidate | RuntimePrefabEditor/Scripts/Editor/RuntimePrefabEditor.cs:286-289 | The best candidate is the first, which has the longest path in a sorted list. An empty list gives an invalid candidate. |
| PrefabEditor.RetainCandidate | RuntimePrefabEditor/Scripts/Editor/RuntimePrefabEditor.cs:111-115 | A valid current candidate that is still listed is kept. Otherwise the first listed one replaces it. A valid result is always listed. |
| PrefabEditor.SelectPrefabCandidate | RuntimePrefabEditor/Scripts/Editor/RuntimePrefabEditor.cs:102-152 | With no instance the choice is reset. Otherwise the candidates are exactly the object's candidates, longest first. The choice is valid exactly when there is a candidate, and it is then a candidate: the previous one if it is still listed, else the first. |
| PrefabEditor.CandidateDiffsNeverNew | RuntimePrefabEditor/Scripts/Editor/RuntimePrefabEditor.cs:172-173 | The diffs of any search candidate contain no New diff, because candidates always carry a prefab object. |
| PrefabEditor.SelectedDiffsMember | RuntimePrefabEditor/Scripts/Editor/RuntimePrefabEditor.cs:207-213 | The diffs applied are exactly the listed diffs that are selected. |
| PrefabEditor.SelectedDiffsConcat | RuntimePrefabEditor/Scripts/Editor/RuntimePrefabEditor.cs:207-213 | Selection distributes over concatenation, so list order is kept. |
| PrefabEditor.SelectAllSelectsEverything | RuntimePrefabEditor/Scripts/Editor/RuntimePrefabEditor.cs:267-270 | With "select all by default" on and nothing deselected, every diff is applied. |
| PrefabEditor.ApplyAll | RuntimePrefabEditor/Scripts/Editor/RuntimePrefabEditor.cs:207-213 | Applying a list of diffs keeps the asset well formed. It keeps the root and the names and parents of the objects already there. |
| PrefabEditor.ApplyAllConcat | RuntimePrefabEditor/Scripts/Editor/RuntimePrefabEditor.cs:207-213 | Applying two lists in turn is the same as applying their concatenation. |
| PrefabEditor.ApplyAllKeepsPaths | RuntimePrefabEditor/Scripts/Editor/RuntimePrefabEditor.cs:207-213 | No sequence of applies changes the path of an object that was already in the prefab. |
| PrefabEditor.ApplySelected | RuntimePrefabEditor/Scripts/Editor/RuntimePrefabEditor.cs:207-213 | The apply loop applies exactly the selected diffs, in list order, and leaves a well-formed prefab with the same root. |

## Left out

- The IMGUI drawing is not modelled. This covers labels, toggles, object fields, colours, the scroll view, `OnGUI`, `Repaint` and each diff's `OnGUI`. The user's toggle choices enter as parameters (`SetDiffSelected`, `current`).
- `AssetDatabase`, `Undo`, `SetDirty`, `SaveAssets`, `StartAssetEditing`/`StopAssetEditing`, `EditorPrefs` and `PrefabUtility` are left out.
  - The asset list is the `assetPaths` parameter, and loading an asset is a lookup in the `AssetStore` map.
  - Saving, undo and preferences have no effect in the model.
- `GetFileNameWithoutExtension` is the `stem` parameter of the index functions. Path parsing is platform code.
- The window's `OnGUI` clears a persistent selection to null. The model takes the already-filtered selection as `instance`.
- The candidate toggle for multiple candidates is left out, because it is a user choice. It enters as the `current` candidate of `SelectPrefabCandidate`.
- The "Apply Changes" button is enabled only when some diff is selected (`anyDiffSelected`). This is UI state. Applying an empty selection leaves the asset unchanged.
- The preference toggles and the "Refresh DB" button are UI. The refresh is the same as `RefreshIndex` on an empty database.
- `ToString255` and the diff descriptions are display text and are not modelled.
- `GetDiffs` re-reads nothing after an apply. Each diff's apply action is modelled as an `Effect` value, applied in turn to the evolving asset. A Property diff assigns the value computed when the diff list was built, as the source's closures do.
- The dead fallback to the parent path (PrefabSearchDB.cs:60-64) follows an unconditional `continue` and is left out. This is why the tool never produces New diffs.
- `GetComponents(type)` also returns components of derived types. The model compares exact types, as the Add check at GameObjectDiff.cs:97 does. Inheritance between component types is not modelled.
- `EditorUtility.CopySerialized` copies a component's type and serialized properties; its engine-internal fields are not modelled. The New apply's separate Transform copy is folded into copying the component list.
- The instantiate, replace and destroy round trip of the New apply (`InstantiatePrefab`, `ReplacePrefab`, `DestroyImmediate`) is modelled as a direct edit of the prefab asset.
- The serialized-property iterator is the flat, depth-annotated property list of each component. The iterator's initial step onto the first property is folded into starting at index 0.
- Floating-point equality (`Mathf.Approximately` and Unity's struct `==`) and keyframe equality are parameters (`Equalities`). Properties that need reflexivity assume it.
- `ToLower` covers ASCII letters only, and `EndsWith` is an ordinal comparison. The source calls the culture-sensitive overloads: `ToLower()` (PrefabSearchDB.cs:117), `str.EndsWith(postfix)` (EditorUtils.cs:73) and `path.LastIndexOf("/")` (EditorUtils.cs:57); the model's `LastIndexOf` is an ordinal search for one character. Culture-sensitive casing and comparison are not modelled.
- Prefab identity is the asset path: two candidates are the same when their fields are equal.
- PrefabSearchDB.SortByPathLength: `List.Sort` is unstable, so the order of equal-length candidates is unspecified. The model fixes one order (input order among ties), and the contract states only longest-first and permutation.
- EditorUtils.FindNamed: `Transform.Find` is modelled as taking the first child of that name in child order. Unity does not document which same-named child it returns.
- EditorUtils.GetChildByPath: its ensures states only the null path, the empty path and that the result is an object of the hierarchy. Segment-by-segment resolution is stated by ResolveFollowsChain, ResolvedPathRoundTrip and PathRoundTrip.
- PrefabSearchDB.FindRootObject: its ensures only bounds the result. FindRootObjectIsNearest states which ancestor it returns.
- GameObjectDiff.CompareSerializedProperty: the `Debug.LogError` for properties of different types (GameObjectDiff.cs:202), the `Debug.LogWarning` for an unknown reference type (GameObjectDiff.cs:395), and the `Debug.LogError` for a reference without a GameObject (GameObjectDiff.cs:401) are console output and are not modelled. The comparisons themselves, including the `return true` after each of the last two, are.
- DiffApply.Apply: an apply that throws in the source is modelled as leaving the asset unchanged, and the loop carries on. In the source the exception leaves the apply loop (RuntimePrefabEditor.cs:206-212), which has no `try`/`finally`. The remaining selected diffs are not applied, and `StopAssetEditing` and `SetDirty` are skipped. The throwing New apply (GameObjectDiff.cs:122-125) has already left a prefab instance and an empty GameObject in the scene. Scene side effects are not modelled.
- DiffApply.Apply: assigning an `ArraySize` property (`p2.intValue = p1.intValue` then `ApplyModifiedProperties`, GameObjectDiff.cs:212-216 and 182) resizes the prefab's array in Unity. Growing it adds `data[k]` elements that Unity fills by copying the last element, not from the instance; the instance's values reach them only through a second diff and apply. Shrinking it drops the trailing elements. The model overwrites the size value and leaves the element properties as they were, because the element-filling rule is engine-internal.
- DiffApply.AssignIn: its "touches only the target path" holds for the model. In Unity it fails for an `ArraySize` target, where the write also adds or removes the `data[k]` element properties, as described for DiffApply.Apply above.
- DiffApply.SetFirstReadBack: its "every other path reads as before" holds for the model. In Unity it fails for an `ArraySize` target, whose element properties are added or removed, as described for DiffApply.Apply above.
- DiffApply.AssignReadBack: its "unchanged elsewhere" holds for the model. In Unity it fails for an `ArraySize` target, whose element properties are added or removed, as described for DiffApply.Apply above.
- EditorUtils.GetPathForObjectInHierarchy: its ensures states only the root and null cases. The full meaning is stated by the lemmas about it, PathDefinedIffAncestor, PathIsJoinedNames and PathIsCanonical.

## Findings

| source | as written | input that shows it | evidently intended | confidence | as-written member | corrected member |
|---|---|---|---|---|---|---|
| RuntimePrefabEditor/Scripts/Editor/GameObjectDiff.cs:124-125 | The New diff's apply parents the copy under `GetChildByPath(path)`, where `path` is the instance's own path. A New diff exists only when that path does not resolve in the prefab, so the lookup is null and `.transform` throws. | A prefab with only root "R" and an instance child "C" below the instance root. The path is "C" and `GetChildByPath("C")` is null. The prefab asset is unchanged; a stray prefab instance and an empty GameObject remain in the scene. | Parent the copy under the object at `GetParentPath(path)`, so that the new object appears at the instance's path. | not executed | DiffApply.ApplyNewAsWritten, exhibited by DiffApply.NewAsWrittenCreatesNothing | DiffApply.Apply with DiffApply.NewObjectParent, proved by DiffApply.NewObjectLandsAtItsPath and DiffApply.NewDiffRecreatesInstancePath |
