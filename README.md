# Persistent anchors: a verified model of the anchor bookkeeping

This project models, in Dafny, the anchor bookkeeping of a set of Magic Leap
samples. Those samples persist content on spatial anchors.

- **Anchor reconciler (`AnchorManager`).** It keeps the set of anchor ids it
  tracks. Given a snapshot of anchors from a query, it reports each entry as
  Added or Updated. It then reports every tracked id that the snapshot lacks
  as Removed. Afterwards it tracks exactly the snapshot's ids.
- **Localization and the worker check.** A localization into a first or
  different space clears the tracked set and reports the loss. The worker
  drops a snapshot containing an anchor whose rotation is all zero.
- **Scheduling state machine.** The update loop's head-tracking edge detector
  and its scheduling step form a small state machine.
- **Two content maps.** `SpatialAnchorsExample` and `PersistentContentExample`
  each keep one object per anchor id. An object is instantiated only for an
  anchor with a saved binding. The two scenes drop objects differently:
  - `SpatialAnchorsExample` clears its map on every update past its search
    interval that finds the device not localized. It also clears it when the
    device localizes into a space other than the one it recorded last. It removes an entry when the
    user deletes its anchor.
  - `PersistentContentExample` clears its map only on the manager's
    AnchorsLost event. The manager raises it only when a Localized result
    follows no space or a different space; a NotLocalized result is only
    recorded. The scene removes an entry, and deletes its saved binding,
    whenever the manager reports the anchor Removed. That happens when the
    user deletes the anchor, and also when a reconcile pass misses a tracked
    anchor.
- **The QR-code launcher's rule (`MLSpaceIntentLauncher.TryLocalize`).** A
  payload that the map prefix splits into exactly two pieces names a space to
  open.

Modules, following the source's structure:

| module | file | models |
|---|---|---|
| `Wrappers` | `wrappers.dfy` | `Option` |
| `Spatial` | `spatial.dfy` | the SDK values the core reads: pose, anchor, localization status |
| `Bindings` | `bindings.dfy` | the binding store, abstracted as a sequence of (id, payload) records with first-match lookup |
| `Content` | `content.dfy` | the object map of both scenes, the restore step they share, and the invariant that every object is bound |
| `AnchorReconciler` | `anchor_manager.dfy` | class `AnchorManager` |
| `SpatialAnchors` | `spatial_anchors.dfy` | class `SpatialAnchorsExample` |
| `PersistentContent` | `persistent_content.dfy` | class `PersistentContentExample`, and the listeners it wires to the manager's events |
| `SpaceIntent` | `space_intent.dfy` | .NET `string.Split(string)` and `TryLocalize` |

How the model handles the runtime:

- **Events.** The manager's UnityEvents become an appended trace, the
  `events` field. The content scene's listeners become the function
  `PersistentContent.Apply`. `ReconcileContent` proves what the scene holds
  after its listeners have seen a whole reconcile pass, and which saved
  bindings they have deleted.
- **SDK results are inputs.** These are delete ok, localization status and
  space, head-tracking state, the query outcome, create/publish ok and save ok.
- **Rotation.** A rotation is four reals, compared only for equality with
  zero.
- **Unity objects.** A `GameObject` is a `Visual`: which prefab and which pose.
- **`HashSet` iteration order** is unspecified. The removal loop picks an
  arbitrary element, and its result is stated as a set.

A behaviour of the code that the model keeps as written:

- `SpatialAnchorsExample.Update` never clears `_searchNow`. Once a search has
  been requested, every later frame passes the interval gate.
  `SpatialAnchors.SpatialAnchorsExample.Update` leaves the flag as it is.
- In `AnchorManager`, regaining head tracking (an edge from not Valid to
  Valid) calls `SearchNow()` (`AnchorManager.cs:242`). The same loop
  iteration then clears `_searchNow` (`AnchorManager.cs:215`), before the
  wait at `AnchorManager.cs:198` next reads it. The request from regained
  tracking is therefore lost. `AnchorReconciler.AnchorManager.UpdateStep` ends
  with the flag cleared either way.

## Model

| member | source | states |
|---|---|---|
| `Bindings.Find` | Assets/PersistentContent/Scripts/PersistentContent/PersistentContentExample.cs:96 | The result is a stored record with the requested id; none is returned exactly when no record has the id |
| `Bindings.FindIsFirstMatch` | Assets/PersistentContent/Scripts/PersistentContent/PersistentContentExample.cs:96 | The record found is the first one in store order with that id |
| `Bindings.WithoutId` | Assets/PersistentContent/Scripts/PersistentContent/Saving/SimpleAnchorBinding.cs:56-59 | Unbinding keeps exactly the records with other ids |
| `Bindings.FindAfterAppend` | Assets/PersistentContent/Scripts/PersistentContent/Saving/SimpleAnchorBinding.cs:48-54 | After saving a record, lookups agree with the old store, except that an id not found before now finds the new record |
| `Bindings.FindAfterRemove` | Assets/PersistentContent/Scripts/PersistentContent/Saving/SimpleAnchorBinding.cs:56-59 | After unbinding an id, that id is not found and every other id finds what it found before |
| `Content.RestoreOne` | Assets/PersistentContent/Scripts/PersistentContent/PersistentContentExample.cs:94-112 | An entry is added only for a bound, absent id; existing entries are untouched; the new object stands at the anchor's pose and is Prefab1 exactly when the payload is Prefab1's name |
| `Content.RestoredKeys` | Assets/Scripts/PersistentContent/SpatialAnchorsExample.cs:212-229 | The restore loop's keys are the old keys plus the bound ids of the result, and old entries are unchanged |
| `Content.RestoredEntry` | Assets/Scripts/PersistentContent/SpatialAnchorsExample.cs:212-229 | A new entry has a saved binding, Prefab1 exactly when the payload names Prefab1, and the pose of the first result entry with its id |
| `Content.RestoredStaysBound` | Assets/Scripts/PersistentContent/SpatialAnchorsExample.cs:214-215 | Restoring keeps every object bound |
| `Content.Placed` | Assets/PersistentContent/Scripts/PersistentContent/PersistentContentExample.cs:163 | `Dictionary.Add` on the object map: an absent key gets the new object, and every existing entry is kept as it was |
| `Content.SaveStaysBound` | Assets/PersistentContent/Scripts/PersistentContent/Saving/SimpleAnchorBinding.cs:48-54 | Saving a binding keeps every object bound, and the saved id is found from then on |
| `Content.UnbindStaysBound` | Assets/Scripts/PersistentContent/SpatialAnchorsExample.cs:336-348 | Removing an id's object and binding keeps every other object bound |
| `AnchorReconciler.InIds` | Assets/PersistentContent/Scripts/PersistentContent/AnchorManager.cs:308-321 | An id is among a snapshot's ids exactly when some entry carries it |
| `AnchorReconciler.ScanAt` | Assets/PersistentContent/Scripts/PersistentContent/AnchorManager.cs:308-321 | Each snapshot entry yields one event: Updated exactly when its id was tracked before the pass or seen earlier in the snapshot, otherwise Added |
| `AnchorReconciler.ScanAddsOnlyUntracked` | Assets/PersistentContent/Scripts/PersistentContent/AnchorManager.cs:311-319 | An Added event is never for an id tracked before the pass |
| `AnchorReconciler.ScanAddsEveryNewId` | Assets/PersistentContent/Scripts/PersistentContent/AnchorManager.cs:316-319 | Every snapshot id that was not tracked is reported Added |
| `AnchorReconciler.ScanAddsOncePerId` | Assets/PersistentContent/Scripts/PersistentContent/AnchorManager.cs:316-319 | No id is reported Added twice in one pass, even when the snapshot repeats it |
| `AnchorReconciler.RescanOnlyUpdates` | Assets/PersistentContent/Scripts/PersistentContent/AnchorManager.cs:308-328 | Reconciling a snapshot whose ids are all tracked reports every entry Updated, so there is nothing Added |
| `AnchorReconciler.SecondPassOnlyUpdates` | Assets/PersistentContent/Scripts/PersistentContent/AnchorManager.cs:308-328 | Once exactly a snapshot's ids are tracked, a pass over the same snapshot is one Updated event per entry, in order, with nothing Added or Removed |
| `AnchorReconciler.RemovedEventsAreRemoval` | Assets/PersistentContent/Scripts/PersistentContent/AnchorManager.cs:324-328 | Visiting each id of a set once reports each of them removed exactly once and nothing else |
| `AnchorReconciler.CopyOf` | Assets/PersistentContent/Scripts/PersistentContent/AnchorManager.cs:299-303 | The copy holds exactly the tracked ids |
| `AnchorReconciler.FindDegeneratePose` | Assets/PersistentContent/Scripts/PersistentContent/AnchorManager.cs:271-285 | True exactly when some anchor's rotation has x = y = z = w = 0 |
| `AnchorReconciler.AnchorManager.constructor` | Assets/PersistentContent/Scripts/PersistentContent/AnchorManager.cs:189-193 | Nothing tracked, no events, and the localization read at start is current |
| `AnchorReconciler.AnchorManager.SearchNow` | Assets/PersistentContent/Scripts/PersistentContent/AnchorManager.cs:126-129 | The search-now flag is set |
| `AnchorReconciler.AnchorManager.OnApplicationPause` | Assets/PersistentContent/Scripts/PersistentContent/AnchorManager.cs:103-110 | Unpausing sets the search-now flag; pausing leaves it |
| `AnchorReconciler.AnchorManager.OnLocalizationChanged` | Assets/PersistentContent/Scripts/PersistentContent/AnchorManager.cs:151-167 | The result always becomes current, so `isLocalized` follows it. A Localized result with an empty previous space name or a different space id clears the tracked set and reports AnchorsLost before Localized. A Localized result for the same space reports only Localized. Any other result leaves the set and the events alone |
| `AnchorReconciler.AnchorManager.ClearAnchors` | Assets/PersistentContent/Scripts/PersistentContent/AnchorManager.cs:172-176 | The tracked set is empty and AnchorsLost is reported |
| `AnchorReconciler.AnchorManager.UpdateHeadPoseStatus` | Assets/PersistentContent/Scripts/PersistentContent/AnchorManager.cs:224-247 | An invalid device changes nothing; a state that is read is remembered, and an Invalid-to-Valid edge sets the search-now flag |
| `AnchorReconciler.AnchorManager.UpdateStep` | Assets/PersistentContent/Scripts/PersistentContent/AnchorManager.cs:203-216 | A query is scheduled exactly when head tracking is Valid and the device is localized; the flag is cleared and the tick recorded in either case |
| `AnchorReconciler.AnchorManager.UpdateAnchorsOnWorkerThread` | Assets/PersistentContent/Scripts/PersistentContent/AnchorManager.cs:271-287 | A snapshot with an all-zero rotation is dropped and nothing changes; any other is reconciled |
| `AnchorReconciler.AnchorManager.UpdateAnchorsOnMainThread` | Assets/PersistentContent/Scripts/PersistentContent/AnchorManager.cs:295-329 | Afterwards exactly the snapshot's ids are tracked. The new events are one Added/Updated event per entry, in order, followed by one Removed event for each lost tracked id, exactly once |
| `AnchorReconciler.AnchorManager.ReportPresent` | Assets/PersistentContent/Scripts/PersistentContent/AnchorManager.cs:305-321 | The first loop tracks the old ids plus the snapshot's, leaves only absent ids presumed removed, and appends the scan events |
| `AnchorReconciler.AnchorManager.ReportRemoved` | Assets/PersistentContent/Scripts/PersistentContent/AnchorManager.cs:323-328 | The last loop untracks the presumed-removed ids and reports each removed exactly once |
| `AnchorReconciler.AnchorManager.TryRemoveAnchor` | Assets/PersistentContent/Scripts/PersistentContent/AnchorManager.cs:361-377 | A successful delete untracks the id and reports one Removed event, even for an untracked id; a failed delete changes nothing |
| `SpatialAnchors.SpatialAnchorsExample.constructor` | Assets/Scripts/PersistentContent/SpatialAnchorsExample.cs:58-74 | The saved bindings are loaded; no objects, no space yet, no searches |
| `SpatialAnchors.SpatialAnchorsExample.SearchNow` | Assets/Scripts/PersistentContent/SpatialAnchorsExample.cs:114-117 | The search-now flag is set |
| `SpatialAnchors.SpatialAnchorsExample.OnApplicationPause` | Assets/Scripts/PersistentContent/SpatialAnchorsExample.cs:76-82 | Unpausing sets the search-now flag |
| `SpatialAnchors.SpatialAnchorsExample.ClearVisuals` | Assets/Scripts/PersistentContent/SpatialAnchorsExample.cs:179-186 | The map is empty |
| `SpatialAnchors.SpatialAnchorsExample.Update` | Assets/Scripts/PersistentContent/SpatialAnchorsExample.cs:120-165 | When not forced and the interval has not elapsed, nothing changes; otherwise the tick is recorded. With no localization info, nothing else changes. With a Localized status, a new space clears the map and the count and is recorded, and a search follows either way. Otherwise the map is cleared, the space becomes "" and the count 0. Objects stay bound |
| `SpatialAnchors.SpatialAnchorsExample.SearchSpatialAnchors` | Assets/Scripts/PersistentContent/SpatialAnchorsExample.cs:192-232 | Every search is counted; it succeeds exactly when the result is fetched. Only then are bound, absent anchors restored |
| `SpatialAnchors.SpatialAnchorsExample.MenuStarted` | Assets/Scripts/PersistentContent/SpatialAnchorsExample.cs:238-258 | A published anchor is bound to Prefab2, and a Prefab2 object is placed only for an absent key |
| `SpatialAnchors.SpatialAnchorsExample.TriggerStarted` | Assets/Scripts/PersistentContent/SpatialAnchorsExample.cs:264-285 | A published anchor is bound to Prefab1, and a Prefab1 object is placed only for an absent key |
| `SpatialAnchors.SpatialAnchorsExample.RemoveAnchor` | Assets/Scripts/PersistentContent/SpatialAnchorsExample.cs:331-352 | True exactly when a binding with the id is saved; then the id's object is gone and the id unbound. On false nothing changes |
| `SpatialAnchors.SpatialAnchorsExample.BumperStarted` | Assets/Scripts/PersistentContent/SpatialAnchorsExample.cs:291-324 | At most one anchor is removed: the first in result order with a saved binding. A failed query, or a result with no bound anchor, changes nothing |
| `PersistentContent.Repositioned` | Assets/PersistentContent/Scripts/PersistentContent/PersistentContentExample.cs:131-139 | No key is added or removed; only the moved anchor's object changes, taking the anchor's pose and keeping its prefab |
| `PersistentContent.Unbound` | Assets/PersistentContent/Scripts/PersistentContent/PersistentContentExample.cs:114-129 | Without a binding nothing changes, even if the map holds the id. With one, the id's object goes and the id is no longer found, while other ids' lookups are unchanged |
| `PersistentContent.UnboundStaysBound` | Assets/PersistentContent/Scripts/PersistentContent/PersistentContentExample.cs:114-129 | When every object is bound, removing an id's binding removes exactly that id's object and keeps the rest bound |
| `PersistentContent.ApplyScan` | Assets/PersistentContent/Scripts/PersistentContent/PersistentContentExample.cs:48-50 | The listeners, on the Added or Updated part of a pass, add an object for exactly the bound snapshot ids that were not tracked, and keep the bindings |
| `PersistentContent.ApplyRemovals` | Assets/PersistentContent/Scripts/PersistentContent/PersistentContentExample.cs:49 | The listeners, on a run of Removed events over bound objects, remove exactly the named objects and delete exactly the named ids' saved bindings; every other lookup in the store is unchanged |
| `PersistentContent.ReconcileContent` | Assets/PersistentContent/Scripts/PersistentContent/PersistentContentExample.cs:47-50 | After a whole reconcile pass, the scene holds its old objects plus those for bound, newly tracked ids, minus those for the tracked ids the snapshot lost; every object stays bound. The saved binding of every tracked id the snapshot lost is deleted, and every other id's binding is unchanged |
| `PersistentContent.MissedAnchorLosesBinding` | Assets/PersistentContent/Scripts/PersistentContent/AnchorManager.cs:324-328 | One tracked anchor "a1", bound and displayed, and an empty snapshot: the pass reports "a1" Removed, and the scene is left with no object and no binding |
| `PersistentContent.RescanKeepsContent` | Assets/PersistentContent/Scripts/PersistentContent/PersistentContentExample.cs:47-50 | Reconciling a snapshot that is already tracked adds or removes no object |
| `PersistentContent.PersistentContentExample.constructor` | Assets/PersistentContent/Scripts/PersistentContent/PersistentContentExample.cs:35-51 | The saved bindings are loaded and no object exists |
| `PersistentContent.PersistentContentExample.ClearVisuals` | Assets/PersistentContent/Scripts/PersistentContent/PersistentContentExample.cs:84-92 | The map is empty |
| `PersistentContent.PersistentContentExample.RestoreAnchor` | Assets/PersistentContent/Scripts/PersistentContent/PersistentContentExample.cs:94-112 | The map becomes the restore step's result, and objects stay bound |
| `PersistentContent.PersistentContentExample.RemoveAnchorBinding` | Assets/PersistentContent/Scripts/PersistentContent/PersistentContentExample.cs:114-129 | The scene becomes `Unbound` of the old one; with bound objects, exactly that id's object is removed |
| `PersistentContent.PersistentContentExample.UpdateAnchorPosition` | Assets/PersistentContent/Scripts/PersistentContent/PersistentContentExample.cs:131-139 | The map becomes `Repositioned` of the old one, so its keys are unchanged |
| `PersistentContent.PersistentContentExample.HandleEvent` | Assets/PersistentContent/Scripts/PersistentContent/PersistentContentExample.cs:47-50 | Each manager event reaches its registered listener (`Apply`) |
| `PersistentContent.PersistentContentExample.MenuStarted` | Assets/PersistentContent/Scripts/PersistentContent/PersistentContentExample.cs:145-166 | A created anchor is bound to Prefab2; a Prefab2 object is inserted only when the save to file succeeded and the key is absent |
| `PersistentContent.PersistentContentExample.TriggerStarted` | Assets/PersistentContent/Scripts/PersistentContent/PersistentContentExample.cs:183-206 | Nothing happens over the UI. A created anchor is bound to Prefab1, and a Prefab1 object is inserted only when Bind succeeded and the key is absent |
| `PersistentContent.PersistentContentExample.BumperStarted` | Assets/PersistentContent/Scripts/PersistentContent/PersistentContentExample.cs:211-230 | With an empty map nothing happens. Otherwise an object is chosen. A successful delete leaves its key absent and its id unbound, untracked by the manager, and reported Removed. A failed delete changes nothing |
| `PersistentContent.PersistentContentExample.AnchorDeleted` | Assets/PersistentContent/Scripts/PersistentContent/PersistentContentExample.cs:220-228 | After the listener and the Bumper's own removal, exactly the chosen object is gone and its id is unbound |
| `SpaceIntent.IndexFrom` | Assets/Scripts/QRCodeSpaceIntent/MLSpaceIntentLauncher.cs:16 | The first occurrence of the separator at or after a position, or none when there is none |
| `SpaceIntent.SplitJoin` | Assets/Scripts/QRCodeSpaceIntent/MLSpaceIntentLauncher.cs:16 | Joining the pieces of a split with the separator gives back the payload |
| `SpaceIntent.SplitPiecesFree` | Assets/Scripts/QRCodeSpaceIntent/MLSpaceIntentLauncher.cs:16 | No piece contains the separator |
| `SpaceIntent.TwoPieces` | Assets/Scripts/QRCodeSpaceIntent/MLSpaceIntentLauncher.cs:16-18 | Two pieces exactly when the separator is non-empty, occurs, and has no other occurrence before it or after it; the pieces are then the text before and after it |
| `SpaceIntent.TwoPiecesIffOnce` | Assets/Scripts/QRCodeSpaceIntent/MLSpaceIntentLauncher.cs:16-18 | For a separator whose last character is unique in it, two pieces exactly when it occurs once |
| `SpaceIntent.TryLocalize` | Assets/Scripts/QRCodeSpaceIntent/MLSpaceIntentLauncher.cs:14-30 | A space id is produced exactly when the prefix splits the payload in two, the permission is granted and the status is NotLocalized. It is the text after the prefix, which is dropped along with whatever precedes it, and it does not contain the prefix |
| `SpaceIntent.DefaultPrefixLaunchesOnce` | Assets/Scripts/QRCodeSpaceIntent/MLSpaceIntentLauncher.cs:12-18 | With the default prefix, a launch happens exactly when the prefix occurs once and the permission and status allow it |
| `SpaceIntent.LaunchExamples` | Assets/Scripts/QRCodeSpaceIntent/MLSpaceIntentLauncher.cs:14-30 | "MAGICLEAP-ARCLOUD-MAP-ID:abc" launches with "abc"; "abc" does not launch |

## Left out

- The `ThreadDispatcher` worker/main-thread hand-off and the coroutine's yields
  are concurrency plumbing. One iteration of the update loop is `UpdateStep`.
  A worker result is handed straight to the reconcile pass.
- The wait at the head of the update loop (`AnchorManager.cs:198-201`) is not
  modelled. Its test is the inverse of an interval gate, and it yields only
  one frame.
- The failed start and fetch branches of the worker (`AnchorManager.cs:254-267`)
  only log, so they are not modelled. A snapshot is an input.
- All MLAnchors, MLSpace and MLPermissions calls are inputs. These are create,
  publish, delete, query and localization, closed SDK calls.
  The two scenes create anchors differently:
  - In `PersistentContentExample`, `AnchorManager.TryCreateAnchor` returns the
    SDK's create or publish result, and the scene takes its outcome as
    `createOk`.
  - `SpatialAnchorsExample` calls `MLAnchors.Anchor.Create` itself, ignores
    its result, and branches on `Publish()` alone
    (`SpatialAnchorsExample.cs:243-246` and `:269-273`). The scene
    takes that outcome as `publishOk`.
- The binding store's JSON file I/O is not part of this model. Saving a
  binding appends it in memory. Removing a binding drops every record with its
  id. `SaveToFile`'s and `Bind`'s results are inputs.
- The setters of both `SimpleAnchorBinding` classes, and `IStorageBinding`, are
  not modelled beyond the append and removal above.
- Unity's `Instantiate`, `Destroy` and transforms are not modelled. An object
  is its prefab and its pose.
- Start-up checks that disable a component are left out (the spatial-anchors
  permission, and a missing anchor manager, which a Dafny reference cannot
  be). So are the input subscriptions in `OnEnable` and `OnDisable`, and the
  status text in `UpdateStatusText`.
- `Time.time`, `_lastTick` and `SearchInterval` are single-precision floats.
  They are modelled as `real`, so rounding in the interval test is not
  modelled.
- A null space name is modelled as the empty string, so `string.IsNullOrEmpty`
  becomes a test against "".
- `Content.Placed`: `Dictionary.Add` on a key already present throws in the
  source (`PersistentContentExample.cs:163`, `:203`;
  `SpatialAnchorsExample.cs:256`, `:283`). The model keeps the old map
  instead of modelling the exception. For an anchor that was just created, the
  SDK hands out a new id, so the key is absent and the case does not arise.
- `SpatialAnchors.SpatialAnchorsExample.Update`: `numberOfSearches` is a
  32-bit counter. It is modelled as an unbounded `nat` because nothing reads
  it.
- `PersistentContent.PersistentContentExample.BumperStarted`: the object
  chosen is any object in the map, not the one closest to the controller,
  because the distance sort is float arithmetic.
- `AnchorReconciler.AnchorManager.UpdateAnchorsOnMainThread`: Removed events
  follow `HashSet` order, which is unspecified. The contract states the
  removals as a set: each lost id exactly once.
- `AnchorReconciler.AnchorManager.ReportRemoved`: the visiting order is
  arbitrary, for the same reason.
- `SpaceIntent.TryLocalize`: "exactly two pieces" is stated through the first
  occurrence and the absence of any later non-overlapping one. That equals
  "occurs exactly once" only for separators that cannot overlap themselves.
  `TwoPiecesIffOnce` proves it for separators whose last character is unique,
  the default prefix among them.
- `OpenSpacesApp` (an Android intent) and the `UseARCloud` mapping-mode flag
  are not modelled. The model returns the space id the app would be opened
  with.
- The UI and marker-tracking scripts are not part of this model:
  `SpaceSelector.cs`, `LocalizationStatusDisplay.cs` and `QRCodeReader.cs`.
