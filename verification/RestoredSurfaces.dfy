/** What restoring a workspace (src/lib/workspaceState.ts) reads from the saved surfaces, ratios and focus. */
module RestoredSurfaces {
  import opened Prelude
  import opened Json
  import opened Workspace
  import opened WorkspaceRuns
  import opened WorkspaceNormalize

  // ----- One surface -----

  /** The value describes this surface; without a name of its own it has the given one. */
  ghost predicate Describes(raw: Json, key: string, projectId: string, r: SurfaceRecord) {
    && (if Field(raw, "id").JStr? && Field(raw, "id") != JStr("") then Field(raw, "id") == JStr(r.id) else r.id == key)
    && Field(raw, "kind") == JStr(KindName(r.kind))
    && r.resourceId != "" && Field(raw, "resourceId") == JStr(r.resourceId)
    && (if Field(raw, "title").JStr? then r.title == Some(Field(raw, "title").s) else r.title == None)
    && (r.titleLocked <==> Field(raw, "titleLocked") == JBool(true))
    && r.projectId == projectId
    && (if Field(raw, "createdAt").JNum? then r.createdAt == Field(raw, "createdAt").n else r.createdAt == 0.0)
    && (if Field(raw, "lastFocusedAt").JNum? then r.lastFocusedAt == Field(raw, "lastFocusedAt").n
        else r.lastFocusedAt == 0.0)
  }

  lemma KindNamed(s: string)
    ensures ParseKind(s).Some? ==> KindName(ParseKind(s).value) == s
  {
  }

  lemma NameParses(k: SurfaceKind)
    ensures ParseKind(KindName(k)) == Some(k)
  {
  }

  /** A value is usable exactly when it describes a surface: one of the three kinds and a resource. */
  lemma RecordRestored(raw: Json, key: string, projectId: string, r: SurfaceRecord)
    ensures ValidateRecord(raw, key, projectId) == Some(r) <==> Describes(raw, key, projectId, r)
  {
    KindNamed(Str(Field(raw, "kind")).GetOr(""));
    NameParses(r.kind);
  }

  // ----- The registry -----

  /** The usable surfaces, in the order of enumeration. */
  function UsableRecords(entries: seq<Entry>, projectId: string): seq<SurfaceRecord> {
    if entries == [] then []
    else
      var r := ValidateRecord(entries[0].value, entries[0].key, projectId);
      (if r.Some? then [r.value] else []) + UsableRecords(entries[1..], projectId)
  }

  /** The last record under each id, over what is there already. */
  ghost predicate LastWins(rs: seq<SurfaceRecord>, before: map<string, SurfaceRecord>,
      after: map<string, SurfaceRecord>) {
    && (forall id :: id in after <==> id in before || HasRecord(rs, id))
    && (forall i :: 0 <= i < |rs| && !HasRecord(rs[i + 1..], rs[i].id) ==>
          rs[i].id in after && after[rs[i].id] == rs[i])
    && (forall id :: id in before && !HasRecord(rs, id) ==> id in after && after[id] == before[id])
  }

  predicate HasRecord(rs: seq<SurfaceRecord>, id: string) {
    rs != [] && (rs[0].id == id || HasRecord(rs[1..], id))
  }

  lemma {:induction false} LastRecordWins(entries: seq<Entry>, projectId: string, active: map<string, SurfaceRecord>)
    ensures LastWins(UsableRecords(entries, projectId), active, ActiveSpec(entries, projectId, active))
  {
    if entries != [] {
      var r := ValidateRecord(entries[0].value, entries[0].key, projectId);
      var rest := UsableRecords(entries[1..], projectId);
      if r.Some? {
        LastRecordWins(entries[1..], projectId, active[r.value.id := r.value]);
        OneMore(r.value, rest, active, ActiveSpec(entries, projectId, active));
      } else {
        LastRecordWins(entries[1..], projectId, active);
        assert [] + rest == rest;
      }
    }
  }

  lemma OneMore(r: SurfaceRecord, rest: seq<SurfaceRecord>, before: map<string, SurfaceRecord>,
      after: map<string, SurfaceRecord>)
    requires LastWins(rest, before[r.id := r], after)
    ensures LastWins([r] + rest, before, after)
  {
    var rs := [r] + rest;
    assert rs[1..] == rest;
    forall i | 0 <= i < |rs| && !HasRecord(rs[i + 1..], rs[i].id)
      ensures rs[i].id in after && after[rs[i].id] == rs[i] {
      assert i > 0 ==> rs[i + 1..] == rest[i..] && rs[i] == rest[i - 1];
    }
  }

  // ----- The history -----

  function UsableClosed(raws: seq<Json>, projectId: string): seq<ClosedSurface> {
    if raws == [] then []
    else
      var r := HistoryEntry(raws[0], projectId);
      (if r.Some? then [r.value] else []) + UsableClosed(raws[1..], projectId)
  }

  /** Each entry whose surface is not excluded and was not there before. */
  function FirstEntries(entries: seq<ClosedSurface>, excluded: set<string>): seq<ClosedSurface> {
    if entries == [] then []
    else if entries[0].record.id in excluded then FirstEntries(entries[1..], excluded)
    else [entries[0]] + FirstEntries(entries[1..], excluded + {entries[0].record.id})
  }

  lemma {:induction false} FirstEntryCounts(raws: seq<Json>, projectId: string, active: set<string>, seen: set<string>)
    ensures HistorySpec(raws, projectId, active, seen) == FirstEntries(UsableClosed(raws, projectId), active + seen)
  {
    if raws != [] {
      var r, rest := HistoryEntry(raws[0], projectId), UsableClosed(raws[1..], projectId);
      if r.None? {
        FirstEntryCounts(raws[1..], projectId, active, seen);
        assert [] + rest == rest;
      } else {
        assert ([r.value] + rest)[1..] == rest;
        FirstEntryCounts(raws[1..], projectId, active, seen);
        FirstEntryCounts(raws[1..], projectId, active, seen + {r.value.record.id});
        assert active + (seen + {r.value.record.id}) == active + seen + {r.value.record.id};
      }
    }
  }

  lemma ClosedRestored(raw: Json, projectId: string, c: ClosedSurface)
    ensures HistoryEntry(raw, projectId) == Some(c) <==>
            && Describes(raw, "", projectId, c.record)
            && (if Field(raw, "closedAt").JNum? then c.closedAt == Field(raw, "closedAt").n else c.closedAt == 0.0)
  {
    var key := Str(Field(raw, "id")).GetOr("");
    RecordRestored(raw, key, projectId, c.record);
  }

  // ----- The tree and the focus -----

  /** A saved ratio is kept unless it is out of the band by more than the tolerance; a missing one is a half. */
  lemma RatioRestored(raw: Json)
    ensures var r := RepairRatio(raw);
            if !raw.JNum? then r == 0.5
            else if raw.n < 0.01 - 0.001 then r == 0.01
            else if raw.n > 0.99 + 0.001 then r == 0.99
            else r == raw.n
  {
  }

  /** Everything outside the tree, and the focus: kept where it is on screen, otherwise the first surface. */
  lemma RestoredExactly(raw: Json, projectId: string, order: seq<string>, gen: seq<bool> -> string)
    requires IsObject(raw) && Field(raw, "version") == JNum(2.0)
    ensures var s := NormalizeSpec(raw, projectId, order, gen);
            var focus, leaves := Field(raw, "focusedSurfaceId"), LeavesOf(s.visibleTree);
            && LastWins(UsableRecords(Entries(Field(raw, "activeSurfaces"), order), projectId), map[], s.active)
            && s.history == FirstEntries(UsableClosed(Items(Field(raw, "history")), projectId), s.active.Keys)
            && s.focused == if leaves == [] then None
                            else if focus.JStr? && focus.s != "" && focus.s in leaves then Some(focus.s)
                            else Some(leaves[0])
  {
    var s := NormalizeSpec(raw, projectId, order, gen);
    LastRecordWins(Entries(Field(raw, "activeSurfaces"), order), projectId, map[]);
    FirstEntryCounts(Items(Field(raw, "history")), projectId, s.active.Keys, {});
    assert s.active.Keys + {} == s.active.Keys;
    if s.visibleTree.Some? {
      LeafSetIsLeaves(s.visibleTree.value);
    }
  }
}
