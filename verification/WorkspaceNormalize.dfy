/**
 * Restoring a saved workspace: any JSON value becomes a valid state, and a valid state survives saving and
 * restoring (src/lib/workspaceState.ts). `projectId`, generated node ids and the enumeration order of the
 * saved registry's keys are parameters.
 */
module WorkspaceNormalize {
  import opened Prelude
  import opened Json
  import opened Workspace
  import opened WorkspaceRuns

  // ----- Records -----

  function ParseKind(s: string): Option<SurfaceKind> {
    if s == "chat" then Some(ChatSurface)
    else if s == "omp-chat" then Some(OmpChat)
    else if s == "terminal" then Some(TerminalSurface)
    else None
  }

  function KindName(k: SurfaceKind): string {
    match k
    case ChatSurface => "chat"
    case OmpChat => "omp-chat"
    case TerminalSurface => "terminal"
  }

  function NonEmpty(j: Json): Option<string> {
    if j.JStr? && j.s != "" then Some(j.s) else None
  }

  function ValidateRecord(raw: Json, key: string, projectId: string): Option<SurfaceRecord> {
    if !IsObject(raw) then None
    else
      var kind := Field(raw, "kind");
      if !kind.JStr? || ParseKind(kind.s).None? then None
      else if NonEmpty(Field(raw, "resourceId")).None? then None
      else
        var locked := Field(raw, "titleLocked");
        Some(SurfaceRecord(
          NonEmpty(Field(raw, "id")).GetOr(key),
          ParseKind(kind.s).value,
          Field(raw, "resourceId").s,
          Str(Field(raw, "title")),
          if locked.JBool? then locked.b else false,
          projectId,
          Num(Field(raw, "createdAt")).GetOr(0.0),
          Num(Field(raw, "lastFocusedAt")).GetOr(0.0)))
  }

  datatype Entry = Entry(key: string, value: Json)

  function IndexKey(n: nat): string {
    if n < 10 then ["0123456789"[n]] else IndexKey(n / 10) + ["0123456789"[n % 10]]
  }

  function ItemEntries(items: seq<Json>, from: nat): seq<Entry> {
    if items == [] then [] else [Entry(IndexKey(from), items[0])] + ItemEntries(items[1..], from + 1)
  }

  function FieldEntries(fields: map<string, Json>, order: seq<string>): seq<Entry> {
    if order == [] then []
    else (if order[0] in fields then [Entry(order[0], fields[order[0]])] else []) + FieldEntries(fields, order[1..])
  }

  /** `Object.entries`; arrays enumerate their indices. */
  function Entries(j: Json, order: seq<string>): seq<Entry> {
    match j
    case JArr(items) => ItemEntries(items, 0)
    case JObj(fields) => FieldEntries(fields, order)
    case _ => []
  }

  /** The order names every key of the object, each once. */
  ghost predicate Enumerates(order: seq<string>, j: Json) {
    NoRepeats(order) && (j.JObj? ==> forall k :: k in j.fields ==> k in order)
  }

  /** Later entries with the same id win. */
  function ActiveSpec(entries: seq<Entry>, projectId: string, active: map<string, SurfaceRecord>)
    : map<string, SurfaceRecord> {
    if entries == [] then active
    else
      var r := ValidateRecord(entries[0].value, entries[0].key, projectId);
      ActiveSpec(entries[1..], projectId, if r.Some? then active[r.value.id := r.value] else active)
  }

  // ----- The tree -----

  function TreeSpec(raw: Json, active: set<string>, seen: set<string>, path: seq<bool>, gen: seq<bool> -> string)
    : (Option<TreeNode>, set<string>)
    decreases raw != JNull, raw
  {
    if !IsObject(raw) then (None, seen)
    else
      var id := NonEmpty(Field(raw, "id")).GetOr(gen(path));
      if Field(raw, "kind") == JStr("leaf") || (Get(raw, "direction").None? && Field(raw, "surfaceId").JStr?) then
        var s := NonEmpty(Field(raw, "surfaceId"));
        if s.None? || s.value !in active || s.value in seen then (None, seen)
        else (Some(LeafNode(id, s.value)), seen + {s.value})
      else if Field(raw, "kind") == JStr("split") || Get(raw, "direction").Some? then
        var direction := ParseDirection(Field(raw, "direction"));
        if direction.None? then (None, seen)
        else
          var (first, seen1) := TreeSpec(Field(raw, "first"), active, seen, path + [false], gen);
          var (second, seen2) := TreeSpec(Field(raw, "second"), active, seen1, path + [true], gen);
          (Join(id, direction.value, Field(raw, "ratio"), first, second), seen2)
      else (None, seen)
  }

  function ParseDirection(j: Json): Option<SplitDirection> {
    if j == JStr("horizontal") then Some(Horizontal) else if j == JStr("vertical") then Some(Vertical) else None
  }

  function RepairRatio(raw: Json): real {
    var r := Num(raw).GetOr(0.5);
    if Abs(ClampRatio(r) - r) > RATIO_EPSILON then ClampRatio(r) else r
  }

  /** A split that lost a child is its other child. */
  function Join(id: string, d: SplitDirection, ratio: Json, first: Option<TreeNode>,
      second: Option<TreeNode>): Option<TreeNode> {
    if first.None? then second
    else if second.None? then first
    else Some(SplitNode(id, d, RepairRatio(ratio), first.value, second.value))
  }

  // ----- History and focus -----

  function HistorySpec(raws: seq<Json>, projectId: string, active: set<string>, seen: set<string>): seq<ClosedSurface> {
    if raws == [] then []
    else
      var r := HistoryEntry(raws[0], projectId);
      if r.None? || r.value.record.id in active || r.value.record.id in seen
          then HistorySpec(raws[1..], projectId, active, seen)
      else [r.value] + HistorySpec(raws[1..], projectId, active, seen + {r.value.record.id})
  }

  function HistoryEntry(raw: Json, projectId: string): Option<ClosedSurface> {
    var r := ValidateRecord(raw, Str(Field(raw, "id")).GetOr(""), projectId);
    if r.None? then None else Some(ClosedSurface(r.value, Num(Field(raw, "closedAt")).GetOr(0.0)))
  }

  function NormalizeSpec(raw: Json, projectId: string, order: seq<string>, gen: seq<bool> -> string): WorkspaceState {
    if !IsObject(raw) || Field(raw, "version") != JNum(2.0) then EmptyWorkspace()
    else
      var active := ActiveSpec(Entries(Field(raw, "activeSurfaces"), order), projectId, map[]);
      var tree := TreeSpec(Field(raw, "visibleTree"), active.Keys, {}, [], gen).0;
      WorkspaceState(active, tree, RepairFocus(tree, Str(Field(raw, "focusedSurfaceId"))), [],
                     HistorySpec(Items(Field(raw, "history")), projectId, active.Keys, {}))
  }

  // ----- The program's form -----

  class Normalizer {
    var active: map<string, SurfaceRecord>
    var seenSurfaceIds: set<string>
    var history: seq<ClosedSurface>
    var historyIds: set<string>

    constructor ()
      ensures active == map[] && seenSurfaceIds == {} && history == [] && historyIds == {}
    {
      active, seenSurfaceIds, history, historyIds := map[], {}, [], {};
    }

    method AdmitActive(entries: seq<Entry>, projectId: string)
      modifies this`active
      ensures active == ActiveSpec(entries, projectId, old(active))
    {
      for i := 0 to |entries|
        invariant ActiveSpec(entries, projectId, old(active)) == ActiveSpec(entries[i..], projectId, active)
      {
        assert entries[i..][0] == entries[i] && entries[i..][1..] == entries[i + 1..];
        var r := ValidateRecord(entries[i].value, entries[i].key, projectId);
        if r.Some? {
          active := active[r.value.id := r.value];
        }
      }
    }

    method ValidateTreeNode(raw: Json, path: seq<bool>, gen: seq<bool> -> string) returns (node: Option<TreeNode>)
      modifies this`seenSurfaceIds
      ensures (node, seenSurfaceIds) == TreeSpec(raw, active.Keys, old(seenSurfaceIds), path, gen)
      decreases raw != JNull, raw
    {
      if !IsObject(raw) {
        return None;
      }
      var id := NonEmpty(Field(raw, "id")).GetOr(gen(path));
      if Field(raw, "kind") == JStr("leaf") || (Get(raw, "direction").None? && Field(raw, "surfaceId").JStr?) {
        var s := NonEmpty(Field(raw, "surfaceId"));
        if s.None? || s.value !in active || s.value in seenSurfaceIds {
          return None;
        }
        seenSurfaceIds := seenSurfaceIds + {s.value};
        return Some(LeafNode(id, s.value));
      }
      if Field(raw, "kind") == JStr("split") || Get(raw, "direction").Some? {
        var direction := ParseDirection(Field(raw, "direction"));
        if direction.None? {
          return None;
        }
        var first := ValidateTreeNode(Field(raw, "first"), path + [false], gen);
        var second := ValidateTreeNode(Field(raw, "second"), path + [true], gen);
        return Join(id, direction.value, Field(raw, "ratio"), first, second);
      }
      node := None;
    }

    method AdmitHistory(raws: seq<Json>, projectId: string)
      modifies this`history, this`historyIds
      ensures history == old(history) + HistorySpec(raws, projectId, active.Keys, old(historyIds))
    {
      for i := 0 to |raws|
        invariant old(history) + HistorySpec(raws, projectId, active.Keys, old(historyIds))
                  == history + HistorySpec(raws[i..], projectId, active.Keys, historyIds)
      {
        assert raws[i..][0] == raws[i] && raws[i..][1..] == raws[i + 1..];
        var entry := HistoryEntry(raws[i], projectId);
        if entry.Some? && entry.value.record.id !in active && entry.value.record.id !in historyIds {
          ghost var before := history;
          ghost var rest := HistorySpec(raws[i + 1..], projectId, active.Keys, historyIds + {entry.value.record.id});
          historyIds := historyIds + {entry.value.record.id};
          history := history + [entry.value];
          assert before + ([entry.value] + rest) == history + rest;
        }
      }
    }
  }

  method NormalizeWorkspaceState(input: Json, projectId: string, order: seq<string>, gen: seq<bool> -> string)
      returns (s: WorkspaceState)
    ensures s == NormalizeSpec(input, projectId, order, gen)
  {
    if !IsObject(input) || Field(input, "version") != JNum(2.0) {
      return EmptyWorkspace();
    }
    var n := new Normalizer();
    n.AdmitActive(Entries(Field(input, "activeSurfaces"), order), projectId);
    var tree := n.ValidateTreeNode(Field(input, "visibleTree"), [], gen);
    n.AdmitHistory(Items(Field(input, "history")), projectId);
    s := WorkspaceState(n.active, tree, RepairFocus(tree, Str(Field(input, "focusedSurfaceId"))), [], n.history);
  }

  // ----- What restoring keeps -----

  /** The surface ids a saved tree names, in leaf order. */
  function OfferedLeaves(raw: Json): seq<string>
    decreases raw != JNull, raw
  {
    if !IsObject(raw) then []
    else if Field(raw, "kind") == JStr("leaf") || (Get(raw, "direction").None? && Field(raw, "surfaceId").JStr?) then
      var s := NonEmpty(Field(raw, "surfaceId"));
      if s.Some? then [s.value] else []
    else if Field(raw, "direction") == JStr("horizontal") || Field(raw, "direction") == JStr("vertical")
        then OfferedLeaves(Field(raw, "first")) + OfferedLeaves(Field(raw, "second"))
    else []
  }

  /** Active surfaces, each where it is named first. */
  function FirstActive(ids: seq<string>, active: set<string>, seen: set<string>): seq<string> {
    if ids == [] then []
    else if ids[0] in active && ids[0] !in seen then [ids[0]] + FirstActive(ids[1..], active, seen + {ids[0]})
    else FirstActive(ids[1..], active, seen)
  }

  function Claimed(ids: seq<string>, active: set<string>): set<string> {
    if ids == [] then {} else (if ids[0] in active then {ids[0]} else {}) + Claimed(ids[1..], active)
  }

  lemma {:induction false} ClaimedConcat(a: seq<string>, b: seq<string>, active: set<string>)
    ensures Claimed(a + b, active) == Claimed(a, active) + Claimed(b, active)
  {
    if a == [] {
      assert a + b == b;
    } else {
      assert (a + b)[1..] == a[1..] + b;
      ClaimedConcat(a[1..], b, active);
    }
  }

  lemma {:induction false} FirstActiveConcat(a: seq<string>, b: seq<string>, active: set<string>, seen: set<string>)
    ensures FirstActive(a + b, active, seen) == FirstActive(a, active, seen)
        + FirstActive(b, active, seen + Claimed(a, active))
  {
    if a == [] {
      assert a + b == b && seen + Claimed(a, active) == seen;
    } else {
      assert (a + b)[1..] == a[1..] + b;
      var seen' := if a[0] in active then seen + {a[0]} else seen;
      assert a[0] in seen ==> seen' == seen;
      FirstActiveConcat(a[1..], b, active, seen');
      assert seen' + Claimed(a[1..], active) == seen + Claimed(a, active);
    }
  }

  predicate NodeIdsNamed(t: TreeNode) {
    t.id != "" && (t.SplitNode? ==> NodeIdsNamed(t.first) && NodeIdsNamed(t.second))
  }

  ghost predicate Fresh(gen: seq<bool> -> string) {
    forall path :: gen(path) != ""
  }

  lemma RepairedRatio(raw: Json)
    ensures MIN_RATIO - RATIO_EPSILON <= RepairRatio(raw) <= MAX_RATIO + RATIO_EPSILON
    ensures forall r ::
              MIN_RATIO - RATIO_EPSILON <= r <= MAX_RATIO + RATIO_EPSILON && raw == JNum(r) ==> RepairRatio(raw) == r
  {
  }

  ghost predicate Usable(t: Option<TreeNode>, active: set<string>) {
    t.Some? ==> ValidTree(t.value, active) && NodeIdsNamed(t.value) && "" !in LeafSet(t.value)
  }

  lemma JoinKeeps(id: string, d: SplitDirection, ratio: Json, a: Option<TreeNode>, b: Option<TreeNode>,
      active: set<string>)
    requires Usable(a, active) && Usable(b, active) && VisibleSet(a) !! VisibleSet(b) && id != ""
    ensures var t := Join(id, d, ratio, a, b);
            Usable(t, active) && LeavesOf(t) == LeavesOf(a) + LeavesOf(b)
                && VisibleSet(t) == VisibleSet(a) + VisibleSet(b)
  {
    RepairedRatio(ratio);
  }

  lemma LeafKeeps(id: string, s: Option<string>, active: set<string>, seen: set<string>)
    requires id != "" && s != Some("")
    ensures var ids := if s.Some? then [s.value] else [];
            var ok := s.Some? && s.value in active && s.value !in seen;
            var t := if ok then Some(LeafNode(id, s.value)) else None;
            && Usable(t, active) && LeavesOf(t) == FirstActive(ids, active, seen)
            && seen + Claimed(ids, active) == (if ok then seen + {s.value} else seen) == seen + VisibleSet(t)
            && VisibleSet(t) !! seen
  {
    if s.Some? {
      assert FirstActive([s.value], active, seen) == (if s.value in active && s.value !in seen then [s.value] else [])
          + [];
      assert Claimed([s.value], active) == (if s.value in active then {s.value} else {}) + {};
    }
  }

  /** The tree shows the first occurrences of the offered surfaces that are active and not seen yet. */
  ghost predicate Restored(offered: seq<string>, t: Option<TreeNode>, active: set<string>, seen: set<string>,
      seen': set<string>) {
    && LeavesOf(t) == FirstActive(offered, active, seen)
    && seen' == seen + Claimed(offered, active) && seen' == seen + VisibleSet(t)
    && VisibleSet(t) !! seen
    && Usable(t, active)
  }

  lemma RestoredTwice(id: string, d: SplitDirection, ratio: Json, xs: seq<string>, ys: seq<string>, a: Option<TreeNode>,
                      b: Option<TreeNode>, active: set<string>, seen: set<string>, seen1: set<string>,
                      seen2: set<string>)
    requires Restored(xs, a, active, seen, seen1) && Restored(ys, b, active, seen1, seen2) && id != ""
    ensures Restored(xs + ys, Join(id, d, ratio, a, b), active, seen, seen2)
  {
    FirstActiveConcat(xs, ys, active, seen);
    ClaimedConcat(xs, ys, active);
    JoinKeeps(id, d, ratio, a, b, active);
  }

  /** The restored tree shows exactly the active surfaces the value names, each where it is named first. */
  lemma {:induction false} TreeSpecKeeps(raw: Json, active: set<string>, seen: set<string>, path: seq<bool>,
      gen: seq<bool> -> string)
    requires Fresh(gen)
    ensures var (t, seen') := TreeSpec(raw, active, seen, path, gen);
            Restored(OfferedLeaves(raw), t, active, seen, seen')
    decreases raw != JNull, raw
  {
    if IsObject(raw) {
      var id := NonEmpty(Field(raw, "id")).GetOr(gen(path));
      if Field(raw, "kind") == JStr("leaf") || (Get(raw, "direction").None? && Field(raw, "surfaceId").JStr?) {
        LeafKeeps(id, NonEmpty(Field(raw, "surfaceId")), active, seen);
      } else if ParseDirection(Field(raw, "direction")).Some? {
        assert Get(raw, "direction").Some?;
        var a, b := Field(raw, "first"), Field(raw, "second");
        var (first, seen1) := TreeSpec(a, active, seen, path + [false], gen);
        var (second, seen2) := TreeSpec(b, active, seen1, path + [true], gen);
        TreeSpecKeeps(a, active, seen, path + [false], gen);
        TreeSpecKeeps(b, active, seen1, path + [true], gen);
        RestoredTwice(id, ParseDirection(Field(raw, "direction")).value, Field(raw, "ratio"), OfferedLeaves(a),
            OfferedLeaves(b),
                      first, second, active, seen, seen1, seen2);
      }
    }
  }

  /** A record as the validator writes it for this project. */
  predicate Canonical(r: SurfaceRecord, projectId: string) {
    r.resourceId != "" && r.projectId == projectId
  }

  ghost predicate CanonicalMap(active: map<string, SurfaceRecord>, projectId: string) {
    forall k :: k in active ==> Canonical(active[k], projectId)
  }

  predicate CanonicalHistory(h: seq<ClosedSurface>, projectId: string) {
    h == [] || (Canonical(h[0].record, projectId) && CanonicalHistory(h[1..], projectId))
  }

  /** The ids of the usable records among the entries. */
  function UsableIds(entries: seq<Entry>, projectId: string): set<string> {
    if entries == [] then {}
    else
      var r := ValidateRecord(entries[0].value, entries[0].key, projectId);
      (if r.Some? then {r.value.id} else {}) + UsableIds(entries[1..], projectId)
  }

  lemma {:induction false} ActiveSpecKeeps(entries: seq<Entry>, projectId: string, active: map<string, SurfaceRecord>)
    requires KeysAreIds(active) && CanonicalMap(active, projectId)
    ensures var r := ActiveSpec(entries, projectId, active);
            KeysAreIds(r) && CanonicalMap(r, projectId) && r.Keys == active.Keys + UsableIds(entries, projectId)
  {
    if entries != [] {
      var r := ValidateRecord(entries[0].value, entries[0].key, projectId);
      ActiveSpecKeeps(entries[1..], projectId, if r.Some? then active[r.value.id := r.value] else active);
    }
  }

  /** The ids of the usable history entries. */
  function UsableHistoryIds(raws: seq<Json>, projectId: string): set<string> {
    if raws == [] then {}
    else
      var r := HistoryEntry(raws[0], projectId);
      (if r.Some? then {r.value.record.id} else {}) + UsableHistoryIds(raws[1..], projectId)
  }

  lemma {:induction false} HistorySpecKeeps(raws: seq<Json>, projectId: string, active: set<string>, seen: set<string>)
    ensures var h := HistorySpec(raws, projectId, active, seen);
            && DistinctHistory(h) && CanonicalHistory(h, projectId)
            && HistoryIds(h) == UsableHistoryIds(raws, projectId) - active - seen
  {
    if raws != [] {
      var r := HistoryEntry(raws[0], projectId);
      if r.None? || r.value.record.id in active || r.value.record.id in seen {
        HistorySpecKeeps(raws[1..], projectId, active, seen);
      } else {
        HistorySpecKeeps(raws[1..], projectId, active, seen + {r.value.record.id});
        assert HistorySpec(raws, projectId, active, seen)[1..]
            == HistorySpec(raws[1..], projectId, active, seen + {r.value.record.id});
      }
    }
  }

  /** A state as restoring produces it, whatever is stashed. */
  ghost predicate NormalForm(s: WorkspaceState, projectId: string) {
    && Inv(s)
    && CanonicalMap(s.active, projectId) && CanonicalHistory(s.history, projectId)
    && (s.visibleTree.Some? ==> NodeIdsNamed(s.visibleTree.value) && "" !in LeafSet(s.visibleTree.value))
  }

  /**
   * Any JSON value becomes a valid state that keeps every usable surface: usable records are active, the
   * tree shows the active surfaces it names, and the other usable closed surfaces are in history.
   */
  lemma NormalizeEstablishes(raw: Json, projectId: string, order: seq<string>, gen: seq<bool> -> string)
    requires Fresh(gen)
    ensures var s := NormalizeSpec(raw, projectId, order, gen);
            && NormalForm(s, projectId) && s.stashedGroups == []
            && (Field(raw, "version") == JNum(2.0) ==>
                  && s.active.Keys == UsableIds(Entries(Field(raw, "activeSurfaces"), order), projectId)
                  && LeavesOf(s.visibleTree) == FirstActive(OfferedLeaves(Field(raw, "visibleTree")), s.active.Keys, {})
                  && HistoryIds(s.history) == UsableHistoryIds(Items(Field(raw, "history")), projectId) - s.active.Keys)
  {
    if Field(raw, "version") == JNum(2.0) {
      var s := NormalizeSpec(raw, projectId, order, gen);
      ActiveSpecKeeps(Entries(Field(raw, "activeSurfaces"), order), projectId, map[]);
      TreeSpecKeeps(Field(raw, "visibleTree"), s.active.Keys, {}, [], gen);
      HistorySpecKeeps(Items(Field(raw, "history")), projectId, s.active.Keys, {});
    }
  }

  // ----- Saving and restoring -----

  function SaveRecord(r: SurfaceRecord): map<string, Json> {
    map["id" := JStr(r.id), "kind" := JStr(KindName(r.kind)), "resourceId" := JStr(r.resourceId),
        "title" := OrNull(r.title), "titleLocked" := JBool(r.titleLocked), "projectId" := JStr(r.projectId),
        "createdAt" := JNum(r.createdAt), "lastFocusedAt" := JNum(r.lastFocusedAt)]
  }

  function SaveTree(t: TreeNode): Json {
    match t
    case LeafNode(id, s) => JObj(map["id" := JStr(id), "surfaceId" := JStr(s)])
    case SplitNode(id, d, r, a, b) =>
      JObj(map["id" := JStr(id), "direction" := JStr(if d == Horizontal then "horizontal" else "vertical"),
               "ratio" := JNum(r), "first" := SaveTree(a), "second" := SaveTree(b)])
  }

  function SaveTrees(ts: seq<TreeNode>): seq<Json> {
    if ts == [] then [] else [SaveTree(ts[0])] + SaveTrees(ts[1..])
  }

  function SaveHistory(h: seq<ClosedSurface>): seq<Json> {
    if h == [] then []
    else [JObj(SaveRecord(h[0].record)["closedAt" := JNum(h[0].closedAt)])] + SaveHistory(h[1..])
  }

  function SaveRegistry(active: map<string, SurfaceRecord>): map<string, Json> {
    map k | k in active :: JObj(SaveRecord(active[k]))
  }

  function Save(s: WorkspaceState): Json {
    JObj(map["version" := JNum(2.0),
             "activeSurfaces" := JObj(SaveRegistry(s.active)),
             "visibleTree" := if s.visibleTree.Some? then SaveTree(s.visibleTree.value) else JNull,
             "focusedSurfaceId" := OrNull(s.focused),
             "history" := JArr(SaveHistory(s.history))]
         + Optional("stashedGroups", if s.stashedGroups != [] then Some(JArr(SaveTrees(s.stashedGroups))) else None))
  }

  lemma RecordBack(r: SurfaceRecord, fields: map<string, Json>, projectId: string)
    requires Canonical(r, projectId) && forall k :: k in SaveRecord(r) ==> k in fields && fields[k] == SaveRecord(r)[k]
    ensures ValidateRecord(JObj(fields), r.id, projectId) == Some(r)
  {
    var saved := SaveRecord(r);
    assert "id" in saved && "kind" in saved && "resourceId" in saved && "title" in saved
           && "titleLocked" in saved && "createdAt" in saved && "lastFocusedAt" in saved;
  }

  /** Whatever the enumeration order, the saved registry is read back key by key. */
  lemma {:induction false} ActiveBack(active: map<string, SurfaceRecord>, order: seq<string>, projectId: string,
      acc: map<string, SurfaceRecord>)
    requires KeysAreIds(active) && CanonicalMap(active, projectId)
    ensures var r := ActiveSpec(FieldEntries(SaveRegistry(active), order), projectId, acc);
            && (forall k :: k in r <==> k in acc || (k in active && k in order))
            && (forall k :: k in r ==> if k in active && k in order then r[k] == active[k]
                else k in acc && r[k] == acc[k])
  {
    var saved := SaveRegistry(active);
    if order != [] {
      var k := order[0];
      var rest := FieldEntries(saved, order[1..]);
      if k in active {
        RecordBack(active[k], SaveRecord(active[k]), projectId);
        assert FieldEntries(saved, order) == [Entry(k, saved[k])] + rest;
        assert FieldEntries(saved, order)[1..] == rest;
        ActiveBack(active, order[1..], projectId, acc[k := active[k]]);
      } else {
        assert FieldEntries(saved, order) == rest;
        ActiveBack(active, order[1..], projectId, acc);
      }
    }
  }

  lemma {:induction false} TreeBack(t: TreeNode, active: set<string>, seen: set<string>, path: seq<bool>,
      gen: seq<bool> -> string)
    requires ValidTree(t, active) && NodeIdsNamed(t) && "" !in LeafSet(t) && LeafSet(t) !! seen
    ensures TreeSpec(SaveTree(t), active, seen, path, gen) == (Some(t), seen + LeafSet(t))
  {
    var saved := SaveTree(t);
    assert Field(saved, "id") == JStr(t.id);
    match t
    case LeafNode(id, s) =>
      assert Field(saved, "surfaceId") == JStr(s) && Get(saved, "direction").None?;
    case SplitNode(id, d, r, a, b) =>
      assert ParseDirection(Field(saved, "direction")) == Some(d) && Field(saved, "kind") == JNull;
      assert Field(saved, "first") == SaveTree(a) && Field(saved, "second") == SaveTree(b)
          && Field(saved, "ratio") == JNum(r);
      TreeBack(a, active, seen, path + [false], gen);
      TreeBack(b, active, seen + LeafSet(a), path + [true], gen);
      RepairedRatio(JNum(r));
      assert seen + LeafSet(a) + LeafSet(b) == seen + LeafSet(t);
  }

  lemma {:induction false} HistoryBack(h: seq<ClosedSurface>, projectId: string, active: set<string>, seen: set<string>)
    requires DistinctHistory(h) && CanonicalHistory(h, projectId) && HistoryIds(h) !! active + seen
    ensures HistorySpec(SaveHistory(h), projectId, active, seen) == h
  {
    if h != [] {
      var fields := SaveRecord(h[0].record)["closedAt" := JNum(h[0].closedAt)];
      assert SaveHistory(h)[0] == JObj(fields) && SaveHistory(h)[1..] == SaveHistory(h[1..]);
      assert "id" in SaveRecord(h[0].record) && Field(JObj(fields), "closedAt") == JNum(h[0].closedAt);
      RecordBack(h[0].record, fields, projectId);
      HistoryBack(h[1..], projectId, active, seen + {h[0].record.id});
    }
  }

  lemma SavedFields(s: WorkspaceState)
    ensures var j := Save(s);
            && Field(j, "version") == JNum(2.0)
            && Field(j, "activeSurfaces") == JObj(SaveRegistry(s.active))
            && Field(j, "visibleTree") == (if s.visibleTree.Some? then SaveTree(s.visibleTree.value) else JNull)
            && Str(Field(j, "focusedSurfaceId")) == s.focused
            && Items(Field(j, "history")) == SaveHistory(s.history)
  {
  }

  /**
   * Restoring what was saved gives back the state without its stashed groups, in whatever order the registry
   * is enumerated: the very same state exactly when nothing was stashed.
   */
  lemma SaveThenRestore(s: WorkspaceState, projectId: string, order: seq<string>, gen: seq<bool> -> string)
    requires NormalForm(s, projectId) && Enumerates(order, Field(Save(s), "activeSurfaces"))
    ensures NormalizeSpec(Save(s), projectId, order, gen) == s.(stashedGroups := [])
    ensures NormalizeSpec(Save(s), projectId, order, gen) == s <==> s.stashedGroups == []
  {
    SavedFields(s);
    RegistryBack(s, projectId, order);
    if s.visibleTree.Some? {
      TreeBack(s.visibleTree.value, s.active.Keys, {}, [], gen);
    }
    HistoryBack(s.history, projectId, s.active.Keys, {});
  }

  lemma RegistryRead(active: map<string, SurfaceRecord>, order: seq<string>, projectId: string)
    requires KeysAreIds(active) && CanonicalMap(active, projectId) && Enumerates(order, JObj(SaveRegistry(active)))
    ensures ActiveSpec(FieldEntries(SaveRegistry(active), order), projectId, map[]) == active
  {
    ActiveBack(active, order, projectId, map[]);
    forall k | k in active ensures k in order {
      assert k in SaveRegistry(active);
    }
  }

  lemma RegistryBack(s: WorkspaceState, projectId: string, order: seq<string>)
    requires NormalForm(s, projectId) && Enumerates(order, Field(Save(s), "activeSurfaces"))
    ensures ActiveSpec(Entries(Field(Save(s), "activeSurfaces"), order), projectId, map[]) == s.active
  {
    SavedFields(s);
    var fields := SaveRegistry(s.active);
    RegistryRead(s.active, order, projectId);
  }

  lemma RestoreIsIdempotent(raw: Json, projectId: string, order: seq<string>, order': seq<string>,
                            gen: seq<bool> -> string, gen': seq<bool> -> string)
    requires Fresh(gen)
    requires Enumerates(order', Field(Save(NormalizeSpec(raw, projectId, order, gen)), "activeSurfaces"))
    ensures var s := NormalizeSpec(raw, projectId, order, gen);
            NormalizeSpec(Save(s), projectId, order', gen') == s
  {
    NormalizeEstablishes(raw, projectId, order, gen);
    SaveThenRestore(NormalizeSpec(raw, projectId, order, gen), projectId, order', gen');
  }

  /** Two active surfaces that are stashed together. */
  function StashedPair(projectId: string): WorkspaceState {
    var a := SurfaceRecord("a", ChatSurface, "r", None, false, projectId, 0.0, 0.0);
    var pair := SplitNode("n", Horizontal, 0.5, LeafNode("m", "a"), LeafNode("k", "b"));
    EmptyWorkspace().(active := map["a" := a, "b" := a.(id := "b")], stashedGroups := [pair])
  }

  lemma StashedPairNormal(projectId: string, order: seq<string>)
    requires order == ["a", "b"]
    ensures NormalForm(StashedPair(projectId), projectId)
    ensures Enumerates(order, JObj(SaveRegistry(StashedPair(projectId).active)))
  {
    assert order[1..] == ["b"] && ["b"][1..] == [];
    assert NoRepeats(["b"]);
  }

  /** The failing family is not empty: a stashed pair of surfaces is saved and not restored. */
  lemma StashedGroupsAreLost(projectId: string, gen: seq<bool> -> string)
    ensures exists s, order ::
              && NormalForm(s, projectId) && Enumerates(order, Field(Save(s), "activeSurfaces"))
              && NormalizeSpec(Save(s), projectId, order, gen) != s
  {
    var s, order := StashedPair(projectId), ["a", "b"];
    StashedPairNormal(projectId, order);
    SavedFields(s);
    SaveThenRestore(s, projectId, order, gen);
  }
}
