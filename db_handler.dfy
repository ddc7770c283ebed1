/** The annotation store (`Module`): four tables held in memory, one for the
    images and one per region shape, kept in step with what the annotation
    tool sends. Reading and writing the CSV files behind the tables is outside
    the model; the constructor takes the tables as they were loaded. */
module DbHandler {
  import opened PyValues
  import opened Tables
  import opened Records
  import opened Reconcile

  /** `for key, value in data.items(): database.at[index, key] = ...`: every
      column of the record is written into the row, as `value[0]` when status
      is 0 and as `value` otherwise. A value that cannot be unwrapped aborts the
      write. */
  method WriteCells(row: Row, data: Record, status: int) returns (r: Result<Row>)
    ensures r.Ok? <==> Cells(data, status).Ok?
    ensures r.Ok? ==> r.value == row + Cells(data, status).value
  {
    var keys := data.Keys;
    var written := row;
    while keys != {}
      invariant keys <= data.Keys
      invariant forall k :: k in data.Keys - keys ==> Cell(data[k], status).Ok?
      invariant written == row + map k | k in data.Keys - keys :: Cell(data[k], status).value
      decreases |keys|
    {
      var k :| k in keys;
      var v := Cell(data[k], status);
      if v.Err? {
        return Err(v.error);
      }
      ghost var before := data.Keys - keys;
      written := written[k := v.value];
      keys := keys - {k};
      assert data.Keys - keys == before + {k};
      assert written == row + map k | k in data.Keys - keys :: Cell(data[k], status).value;
    }
    assert data.Keys - keys == data.Keys;
    return Ok(written);
  }

  /** The regions of a payload, `data['regions']`, as Python iterates them. */
  function Regions(data: map<string, Value>): Result<seq<Value>>
  {
    match Lookup(data, "regions")
    case Err(e) => Err(e)
    case Ok(v) => Iterate(v)
  }

  /** `{region['id'] for region in data['regions']}`: the ids the payload keeps. */
  function PayloadIds(data: map<string, Value>): (r: Result<set<Value>>)
    ensures r.Ok? <==> Regions(data).Ok? && forall i :: 0 <= i < |Regions(data).value| ==>
                         Subscript(Regions(data).value[i], "id").Ok?
    ensures r.Ok? ==> forall x :: x in r.value <==>
              exists i :: 0 <= i < |Regions(data).value| && Subscript(Regions(data).value[i], "id") == Ok(x)
  {
    match Regions(data)
    case Err(e) => Err(e)
    case Ok(rs) =>
      if forall i :: 0 <= i < |rs| ==> Subscript(rs[i], "id").Ok? then
        Ok(set i | 0 <= i < |rs| :: Subscript(rs[i], "id").value)
      else Err(KeyError)
  }

  /** `existingRegionIds - newRegionIds`: the ids stored for the image in any
      region table that the payload no longer carries. */
  function StaleIds(circles: Table, boxes: Table, polygons: Table, src: Value, payloadIds: set<Value>): (r: set<Value>)
    ensures r !! payloadIds
    ensures forall x :: x in r <==>
              x !in payloadIds && (x in RegionIds(circles, src) || x in RegionIds(boxes, src) || x in RegionIds(polygons, src))
  {
    (RegionIds(circles, src) + RegionIds(boxes, src) + RegionIds(polygons, src)) - payloadIds
  }

  /** Whether `existingRegionIds - newRegionIds` holds a NaN: some region row of
      the image lacks its id. A payload id is never a NaN of the table, so the
      difference keeps it. */
  predicate StaleNaN(circles: Table, boxes: Table, polygons: Table, src: Value)
  {
    RegionNaN(circles, src) || RegionNaN(boxes, src) || RegionNaN(polygons, src)
  }

  /** The region of kind `k` at position `i` the payload saves, and its id. */
  predicate SavesAs(region: Value, k: Kind)
  {
    region.Dict? && "type" in region.fields && "id" in region.fields && KindOf(region.fields["type"]) == Some(k)
  }

  /** The id and the record a region saves into the table of kind `k`, if any. */
  ghost function RegionRecord(region: Value, src: Value, k: Kind): (r: Option<(Value, Record)>)
    ensures r.Some? ==> SavesAs(region, k) && r.value.0 == region.fields["id"]
    ensures r.Some? ==> && r.value.1.Keys == ColumnsOf(k) && r.value.1["region-id"] == r.value.0
                        && r.value.1["image-src"] == src
  {
    if SavesAs(region, k) then
      match NormaliseRegion(region.fields["type"], src, region.fields)
      case Ok(Some((_, rec))) => Some((region.fields["id"], rec))
      case _ => None
    else None
  }

  /** The records of the first `n` regions that are saved in the table of
      kind `k`, by id; a later region with the same id replaces an earlier one. */
  ghost function SavedRecords(regions: seq<Value>, src: Value, n: nat, k: Kind): map<Value, Record>
    requires n <= |regions|
  {
    Saved(RegionRecords(regions, src, k), n)
  }

  /** `RegionRecord` of every region, in payload order. */
  ghost function RegionRecords(regions: seq<Value>, src: Value, k: Kind): seq<Option<(Value, Record)>>
  {
    seq(|regions|, i requires 0 <= i < |regions| => RegionRecord(regions[i], src, k))
  }

  /** The map the first `n` outcomes build: each record under its id, a later
      one replacing an earlier one. */
  ghost function Saved(outs: seq<Option<(Value, Record)>>, n: nat): map<Value, Record>
    requires n <= |outs|
  {
    if n == 0 then map[]
    else
      match outs[n - 1]
      case Some((id, rec)) => Saved(outs, n - 1)[id := rec]
      case None => Saved(outs, n - 1)
  }

  /** Saving region `j` adds its record, if any, under its id. */
  lemma SavedRecordsNext(regions: seq<Value>, src: Value, j: nat, k: Kind)
    requires j < |regions|
    ensures RegionRecord(regions[j], src, k).Some? ==>
              SavedRecords(regions, src, j + 1, k) ==
              SavedRecords(regions, src, j, k)[RegionRecord(regions[j], src, k).value.0 := RegionRecord(regions[j], src, k).value.1]
    ensures RegionRecord(regions[j], src, k).None? ==> SavedRecords(regions, src, j + 1, k) == SavedRecords(regions, src, j, k)
  {
    assert RegionRecords(regions, src, k)[j] == RegionRecord(regions[j], src, k);
  }

  /** Every id the outcomes save is one of `ids` when every outcome's is. */
  lemma {:induction false} SavedKeys(outs: seq<Option<(Value, Record)>>, n: nat, ids: set<Value>)
    requires n <= |outs|
    requires forall i :: 0 <= i < |outs| && outs[i].Some? ==> outs[i].value.0 in ids
    ensures Saved(outs, n).Keys <= ids
  {
    if n > 0 {
      SavedKeys(outs, n - 1, ids);
    }
  }

  /** Every record the outcomes save has the columns of kind `k` when every
      outcome's has. */
  lemma {:induction false} SavedAllColumns(outs: seq<Option<(Value, Record)>>, n: nat, src: Value, k: Kind)
    requires n <= |outs|
    requires forall i :: 0 <= i < |outs| && outs[i].Some? ==> SavedColumns(outs[i].value.1, outs[i].value.0, src, k)
    ensures forall x :: x in Saved(outs, n) ==> SavedColumns(Saved(outs, n)[x], x, src, k)
  {
    if n > 0 {
      SavedAllColumns(outs, n - 1, src, k);
    }
  }

  /** Every saved id is one the payload carries. */
  lemma SavedRecordsInPayload(data: map<string, Value>, src: Value, n: nat, k: Kind)
    requires PayloadIds(data).Ok? && n <= |Regions(data).value|
    ensures SavedRecords(Regions(data).value, src, n, k).Keys <= PayloadIds(data).value
  {
    var rs := Regions(data).value;
    var outs := RegionRecords(rs, src, k);
    forall i | 0 <= i < |outs| && outs[i].Some? ensures outs[i].value.0 in PayloadIds(data).value {
      assert outs[i] == RegionRecord(rs[i], src, k);
      assert Subscript(rs[i], "id") == Ok(outs[i].value.0);
    }
    SavedKeys(outs, n, PayloadIds(data).value);
  }

  /** A saved record has the columns of its kind, its own id and the image's source. */
  lemma SavedRecordsColumns(regions: seq<Value>, src: Value, n: nat, k: Kind)
    requires n <= |regions|
    ensures forall x :: x in SavedRecords(regions, src, n, k) ==> SavedColumns(SavedRecords(regions, src, n, k)[x], x, src, k)
  {
    var outs := RegionRecords(regions, src, k);
    forall i | 0 <= i < |outs| && outs[i].Some? ensures SavedColumns(outs[i].value.1, outs[i].value.0, src, k) {
      assert outs[i] == RegionRecord(regions[i], src, k);
    }
    SavedAllColumns(outs, n, src, k);
  }

  /** A record saved under id `x` for image `src` in the table of kind `k`. */
  ghost predicate SavedColumns(rec: Record, x: Value, src: Value, k: Kind)
  {
    rec.Keys == ColumnsOf(k) && rec["region-id"] == x && rec["image-src"] == src
  }

  /** Table `t` is table `f` with the records `saved` upserted by id: it has
      the row shape `UpsertedIds` asks for the saved ids, and the first row of
      each saved id holds that id's last record. */
  ghost predicate Tracks(t: Table, f: Table, saved: map<Value, Record>)
  {
    && UpsertedIds(t, f, saved.Keys)
    && (forall x :: x in saved ==> Latest(t, x, saved[x]))
  }

  /** The rows of `t` are those of `f` after upserts by the ids `ids`: rows
      keep their position and id, a row whose id is not in `ids` is untouched,
      new rows come last and carry one of `ids`, and an id occurs once if it is
      in `ids` and `f` lacked it, and as often as in `f` otherwise. */
  ghost predicate UpsertedIds(t: Table, f: Table, ids: set<Value>)
  {
    && |f| <= |t|
    && (forall j :: 0 <= j < |f| ==> ("region-id" in t[j] <==> "region-id" in f[j]))
    && (forall j :: 0 <= j < |f| && "region-id" in f[j] ==> t[j]["region-id"] == f[j]["region-id"])
    && (forall j :: 0 <= j < |f| && !IdIn(f[j], ids) ==> t[j] == f[j])
    && (forall j :: |f| <= j < |t| ==> IdIn(t[j], ids))
    && (forall x :: CountKey(t, "region-id", x) ==
          if x in ids && CountKey(f, "region-id", x) == 0 then 1 else CountKey(f, "region-id", x))
  }

  /** One more upsert by `uid` adds `uid` to the ids. */
  lemma UpsertedIdsStep(t: Table, t': Table, f: Table, ids: set<Value>, uid: Value)
    requires UpsertedIds(t, f, ids) && UpsertStepped(t, t', uid)
    ensures UpsertedIds(t', f, ids + {uid})
  {
  }

  lemma TracksStart(f: Table)
    ensures Tracks(f, f, map[])
  {
  }

  /** A table that lacks a saved id does not track it: the relation cannot
      hold for a table that skipped the upserts. */
  lemma TracksNeedsUpsert(t: Table, f: Table, x: Value, rec: Record)
    requires forall j :: 0 <= j < |t| ==> !KeyMatches(t[j], "region-id", x)
    ensures !Tracks(t, f, map[x := rec])
  {
    assert x in map[x := rec];
  }

  /** One more region upsert keeps the relation, with its record saved under
      its id; `t'` is the table after the upsert. */
  lemma TracksStep(t: Table, t': Table, f: Table, saved: map<Value, Record>, uid: Value, rec: Record)
    requires Tracks(t, f, saved)
    requires UpsertStepped(t, t', uid) && Latest(t', uid, rec)
    ensures Tracks(t', f, saved[uid := rec])
  {
    assert saved[uid := rec].Keys == saved.Keys + {uid};
    UpsertedIdsStep(t, t', f, saved.Keys, uid);
    forall x | x in saved && x != uid ensures Latest(t', x, saved[x]) {
      LatestKept(t, t', uid, x, saved[x]);
    }
  }

  /** An upsert by `uid` keeps the first row of every other id. */
  lemma LatestKept(t: Table, t': Table, uid: Value, x: Value, rec: Record)
    requires UpsertStepped(t, t', uid) && Latest(t, x, rec) && x != uid
    ensures Latest(t', x, rec)
  {
    var p := FindInfoInDb(t, "region-id", x).value;
    assert t'[p] == t[p];
    FindSameIds(t, t', x);
  }

  /** What saving one region does to the table of kind `k`: a region that
      cannot be normalised fails and changes nothing, one of an unknown type
      changes nothing, and one of a known type is upserted by its id into the
      table of its type, leaving the other tables. */
  ghost predicate RegionSaved(regionType: Value, src: Value, data: map<string, Value>, k: Kind,
                              before: Table, after: Table, ok: bool)
  {
    match NormaliseRegion(regionType, src, data)
    case Err(_) => !ok && after == before
    case Ok(None) => ok && after == before
    case Ok(Some((kind, rec))) =>
      if kind == k then Upserted(after, ok) == UpsertTable(before, "region-id", data["id"], rec, 1)
      else after == before
  }

  /** Saving region `j` of the payload keeps the relation for every kind: the
      table of the region's kind takes its upsert, the others stay. */
  lemma RegionSaveStep(before: Table, after: Table, start: Table, regions: seq<Value>, src: Value, j: nat, k: Kind,
                       regionType: Value)
    requires j < |regions| && Subscript(regions[j], "type") == Ok(regionType)
    requires Tracks(before, start, SavedRecords(regions, src, j, k))
    requires RegionSaved(regionType, src, regions[j].fields, k, before, after, true)
    ensures Tracks(after, start, SavedRecords(regions, src, j + 1, k))
  {
    SavedRecordsNext(regions, src, j, k);
    RegionRecordSaved(regions[j], src, k, regionType);
    var o := RegionRecord(regions[j], src, k);
    if o.Some? {
      var uid, rec := o.value.0, o.value.1;
      RegionUpsertStep(before, uid, rec);
      TracksStep(before, after, start, SavedRecords(regions, src, j, k), uid, rec);
    }
  }

  /** A region of readable type has a record for kind `k` exactly when it
      normalises to a record of that kind, and it is that record under the
      region's id. */
  lemma RegionRecordSaved(region: Value, src: Value, k: Kind, regionType: Value)
    requires Subscript(region, "type") == Ok(regionType)
    ensures var norm := NormaliseRegion(regionType, src, region.fields);
            RegionRecord(region, src, k).Some? <==> norm.Ok? && norm.value.Some? && norm.value.value.0 == k
    ensures var norm := NormaliseRegion(regionType, src, region.fields);
            RegionRecord(region, src, k).Some? ==> RegionRecord(region, src, k).value == (region.fields["id"], norm.value.value.1)
  {
  }

  /** Whether saving the region into the three tables fails: its type cannot
      be read, it cannot be normalised, or the upsert of its record raises. */
  ghost predicate SaveFails(region: Value, src: Value, circles: Table, boxes: Table, polygons: Table)
  {
    match Subscript(region, "type")
    case Err(_) => true
    case Ok(regionType) =>
      match NormaliseRegion(regionType, src, region.fields)
      case Err(_) => true
      case Ok(None) => false
      case Ok(Some((kind, rec))) =>
        !UpsertTable(PickTable(kind, circles, boxes, polygons), "region-id", region.fields["id"], rec, 1).ok
  }

  /** Whether a region's type can be read and the region normalised, which
      `saveRegionInfo` needs before it reaches any table. */
  predicate Normalises(region: Value, src: Value)
  {
    match Subscript(region, "type")
    case Err(_) => false
    case Ok(regionType) => NormaliseRegion(regionType, src, region.fields).Ok?
  }

  /** Whether every region of the payload normalises. */
  predicate AllNormalise(regions: seq<Value>, src: Value)
  {
    forall j :: 0 <= j < |regions| ==> Normalises(regions[j], src)
  }

  /** The three region tables, circles first. */
  type RegionTables = (Table, Table, Table)

  /** Saving `region` succeeds and takes the region tables `before` to `after`. */
  ghost predicate SavedStep(region: Value, src: Value, before: RegionTables, after: RegionTables)
  {
    match Subscript(region, "type")
    case Err(_) => false
    case Ok(regionType) =>
      forall k :: RegionSaved(regionType, src, region.fields, k, PickTable(k, before.0, before.1, before.2),
                              PickTable(k, after.0, after.1, after.2), true)
  }

  /** The first `n` regions are saved one after the other, region `i` taking
      `trace[i]` to `trace[i + 1]`, and none of them fails. */
  ghost predicate SavedSteps(regions: seq<Value>, src: Value, trace: seq<RegionTables>, n: nat)
  {
    && n <= |regions| && n < |trace|
    && forall i :: 0 <= i < n ==> SavedStep(regions[i], src, trace[i], trace[i + 1])
  }

  /** A successful step is one `SaveFails` rules out, and its region normalises. */
  lemma SavedStepSucceeds(region: Value, src: Value, before: RegionTables, after: RegionTables)
    requires SavedStep(region, src, before, after)
    ensures !SaveFails(region, src, before.0, before.1, before.2)
    ensures Normalises(region, src)
  {
    var regionType := Subscript(region, "type").value;
    assert RegionSaved(regionType, src, region.fields, Circle, PickTable(Circle, before.0, before.1, before.2),
                       PickTable(Circle, after.0, after.1, after.2), true);
    SaveOutcome(region, src, regionType, before.0, before.1, before.2, after.0, after.1, after.2, true);
  }

  /** Saved steps only pass over regions that normalise. */
  lemma StepsNormalise(regions: seq<Value>, src: Value, trace: seq<RegionTables>, n: nat)
    requires SavedSteps(regions, src, trace, n)
    ensures forall j :: 0 <= j < n ==> Normalises(regions[j], src)
  {
    forall j | 0 <= j < n ensures Normalises(regions[j], src) {
      SavedStepSucceeds(regions[j], src, trace[j], trace[j + 1]);
    }
  }

  /** One more successful step extends the trace. */
  lemma SavedStepsExtend(regions: seq<Value>, src: Value, trace: seq<RegionTables>, n: nat, after: RegionTables)
    requires SavedSteps(regions, src, trace, n) && |trace| == n + 1 && n < |regions|
    requires SavedStep(regions[n], src, trace[n], after)
    ensures SavedSteps(regions, src, trace + [after], n + 1)
  {
    var trace' := trace + [after];
    forall i | 0 <= i < n + 1 ensures SavedStep(regions[i], src, trace'[i], trace'[i + 1]) {
      assert trace'[i] == trace[i];
      if i < n {
        assert trace'[i + 1] == trace[i + 1];
      }
    }
  }

  /** A region save succeeds exactly when `SaveFails` says it does not fail,
      and one that fails leaves every table as it was. */
  lemma SaveOutcome(region: Value, src: Value, regionType: Value, c: Table, b: Table, p: Table,
                    c': Table, b': Table, p': Table, ok: bool)
    requires Subscript(region, "type") == Ok(regionType)
    requires forall k :: RegionSaved(regionType, src, region.fields, k, PickTable(k, c, b, p), PickTable(k, c', b', p'), ok)
    ensures ok <==> !SaveFails(region, src, c, b, p)
    ensures !ok ==> c' == c && b' == b && p' == p
  {
    match NormaliseRegion(regionType, src, region.fields)
    case Err(_) =>
      assert RegionSaved(regionType, src, region.fields, Circle, PickTable(Circle, c, b, p), PickTable(Circle, c', b', p'), ok);
      forall k ensures PickTable(k, c', b', p') == PickTable(k, c, b, p) {
        assert RegionSaved(regionType, src, region.fields, k, PickTable(k, c, b, p), PickTable(k, c', b', p'), ok);
      }
      SameTables(c, b, p, c', b', p');
    case Ok(None) =>
      assert RegionSaved(regionType, src, region.fields, Circle, PickTable(Circle, c, b, p), PickTable(Circle, c', b', p'), ok);
    case Ok(Some((kind, rec))) =>
      var t := PickTable(kind, c, b, p);
      assert RegionSaved(regionType, src, region.fields, kind, t, PickTable(kind, c', b', p'), ok);
      if !ok {
        RegionColumnsNotImage(kind);
        FailedUpsertKeeps(t, "region-id", region.fields["id"], rec, 1);
        forall k ensures PickTable(k, c', b', p') == PickTable(k, c, b, p) {
          assert RegionSaved(regionType, src, region.fields, k, PickTable(k, c, b, p), PickTable(k, c', b', p'), ok);
        }
        SameTables(c, b, p, c', b', p');
      }
  }

  /** Tables that agree for every kind are the same tables. */
  lemma SameTables(c: Table, b: Table, p: Table, c': Table, b': Table, p': Table)
    requires forall k :: PickTable(k, c', b', p') == PickTable(k, c, b, p)
    ensures c' == c && b' == b && p' == p
  {
    assert PickTable(Circle, c', b', p') == PickTable(Circle, c, b, p);
    assert PickTable(Box, c', b', p') == PickTable(Box, c, b, p);
    assert PickTable(Polygon, c', b', p') == PickTable(Polygon, c, b, p);
  }

  /** A region of a type the store does not know, with the shared columns
      present, is reported and never makes the save fail, whatever the tables. */
  lemma UnknownTypeNeverFails(region: Value, src: Value, c: Table, b: Table, p: Table)
    requires region.Dict? && "type" in region.fields && KindOf(region.fields["type"]).None?
    requires RegionData(src, region.fields).Ok?
    ensures !SaveFails(region, src, c, b, p)
  {
  }

  /** A region that normalises, with a string class, never makes the save
      fail when every stored region row has a string class: a new id is
      appended, and an update of a region record computes its class sets and
      makes no call. */
  lemma RegionSaveSucceeds(region: Value, src: Value, c: Table, b: Table, p: Table)
    requires region.Dict? && "type" in region.fields && "cls" in region.fields && region.fields["cls"].Str?
    requires NormaliseRegion(region.fields["type"], src, region.fields).Ok?
    requires forall k, j :: 0 <= j < |PickTable(k, c, b, p)| ==>
               "class" in PickTable(k, c, b, p)[j] && PickTable(k, c, b, p)[j]["class"].Str?
    ensures !SaveFails(region, src, c, b, p)
  {
    match NormaliseRegion(region.fields["type"], src, region.fields)
    case Ok(None) =>
    case Ok(Some((kind, rec))) =>
      var t := PickTable(kind, c, b, p);
      var uid := region.fields["id"];
      RegionColumnsNotImage(kind);
      NormalisedClass(region.fields["type"], src, region.fields);
      UpsertOutcome(t, "region-id", uid, rec, 1);
      if FindInfoInDb(t, "region-id", uid).Some? {
        var i := FindInfoInDb(t, "region-id", uid).value;
        assert "class" in t[i] && t[i]["class"].Str?;
      }
  }

  /** `db_handler.py` lines 219-234 as a relation between the region tables
      before (`c0`, `b0`, `p0`) and after (`c`, `b`, `p`): when the payload ids
      cannot be read nothing changes and the call fails; otherwise no table
      keeps a stale row, on success every table is its filtered self with the
      payload's records of its kind upserted, and on failure the regions
      before the first failing one were upserted and that one fails against
      the tables as they are. */
  ghost predicate Synced(src: Value, data: map<string, Value>, c0: Table, b0: Table, p0: Table,
                         c: Table, b: Table, p: Table, ok: bool)
  {
    match PayloadIds(data)
    case Err(_) => !ok && c == c0 && b == b0 && p == p0
    case Ok(ids) =>
      var stale := StaleIds(c0, b0, p0, src, ids);
      var nan := StaleNaN(c0, b0, p0, src);
      var regions := Regions(data).value;
      var c1, b1, p1 := WithoutIds(c0, stale, nan), WithoutIds(b0, stale, nan), WithoutIds(p0, stale, nan);
      && (forall k :: forall j :: 0 <= j < |PickTable(k, c, b, p)| ==> !Dropped(PickTable(k, c, b, p)[j], stale, nan))
      && (ok ==> && AllTrack(c, b, p, c1, b1, p1, regions, src, |regions|)
                 && AllNormalise(regions, src) && Replayed(regions, src, (c1, b1, p1), (c, b, p)))
      && (!ok ==> exists n :: 0 <= n < |regions| && AllTrack(c, b, p, c1, b1, p1, regions, src, n)
                                                 && SaveFails(regions[n], src, c, b, p))
  }

  /** The regions are saved one after the other without a failure, taking
      the region tables from `start` to `end`. */
  ghost predicate Replayed(regions: seq<Value>, src: Value, start: RegionTables, end: RegionTables)
  {
    exists trace :: && |trace| == |regions| + 1 && trace[0] == start && trace[|regions|] == end
                    && SavedSteps(regions, src, trace, |regions|)
  }

  /** Every region table `c`, `b`, `p` tracks its start `c0`, `b0`, `p0` with
      the records of regions `0..n` of its kind upserted. */
  ghost predicate AllTrack(c: Table, b: Table, p: Table, c0: Table, b0: Table, p0: Table,
                           regions: seq<Value>, src: Value, n: nat)
    requires n <= |regions|
  {
    forall k :: Tracks(PickTable(k, c, b, p), PickTable(k, c0, b0, p0), SavedRecords(regions, src, n, k))
  }

  /** After a successful sync into tables that keep to their columns, the
      first row of every saved id is exactly the record its last region gave. */
  lemma SyncedRows(src: Value, data: map<string, Value>, c0: Table, b0: Table, p0: Table,
                   c: Table, b: Table, p: Table, k: Kind)
    requires Synced(src, data, c0, b0, p0, c, b, p, true)
    requires TablesConform(c, b, p)
    ensures PayloadIds(data).Ok?
    ensures var regions := Regions(data).value;
            var saved := SavedRecords(regions, src, |regions|, k);
            var t := PickTable(k, c, b, p);
            forall x :: x in saved ==> FindInfoInDb(t, "region-id", x).Some? &&
                                       t[FindInfoInDb(t, "region-id", x).value] == saved[x]
  {
    var ids := PayloadIds(data).value;
    var regions := Regions(data).value;
    var saved := SavedRecords(regions, src, |regions|, k);
    var t := PickTable(k, c, b, p);
    var nan := StaleNaN(c0, b0, p0, src);
    var stale := StaleIds(c0, b0, p0, src, ids);
    assert AllTrack(c, b, p, WithoutIds(c0, stale, nan), WithoutIds(b0, stale, nan), WithoutIds(p0, stale, nan),
                    regions, src, |regions|);
    assert Tracks(t, PickTable(k, WithoutIds(c0, stale, nan), WithoutIds(b0, stale, nan), WithoutIds(p0, stale, nan)), saved);
    SavedRecordsColumns(regions, src, |regions|, k);
    assert Conforms(t, ColumnsOf(k));
    forall x | x in saved ensures FindInfoInDb(t, "region-id", x).Some? && t[FindInfoInDb(t, "region-id", x).value] == saved[x] {
      assert SavedColumns(saved[x], x, src, k);
      LatestRow(t, x, saved[x], ColumnsOf(k));
    }
  }

  /** The first row of every id the regions save into table `t` of kind `k`
      is exactly the record of the last region with that id. */
  ghost predicate RowsHold(t: Table, regions: seq<Value>, src: Value, k: Kind)
  {
    var saved := SavedRecords(regions, src, |regions|, k);
    forall x :: x in saved ==> FindInfoInDb(t, "region-id", x).Some? && t[FindInfoInDb(t, "region-id", x).value] == saved[x]
  }

  /** Filtering every table, then picking one, is picking it, then filtering. */
  lemma PickWithout(k: Kind, c: Table, b: Table, p: Table, ids: set<Value>, nan: bool)
    ensures PickTable(k, WithoutIds(c, ids, nan), WithoutIds(b, ids, nan), WithoutIds(p, ids, nan))
            == WithoutIds(PickTable(k, c, b, p), ids, nan)
  {
  }

  /** An update whose calls cannot be made makes none. */
  lemma UpdateEmitsNone(data: Record, add: set<Value>, remove: set<Value>)
    requires !UpdateCallsOk(data, add, remove)
    ensures UpdateEmits(data, add, remove, [])
  {
  }

  /** The calls of an update whose two loops finished: the registrations of
      the added classes, then the unregistrations of the removed ones. */
  lemma UpdateEmitsDone(data: Record, add: set<Value>, remove: set<Value>, addOrder: seq<Value>, removeOrder: seq<Value>,
                        adds: seq<IndexCall>, removes: seq<IndexCall>)
    requires "image-name" in data && UpdateCallsOk(data, add, remove)
    requires Enumerates(addOrder, add) && Enumerates(removeOrder, remove)
    requires adds == if add == {} then [] else AddCalls(addOrder, NameArg(data).value, SrcArg(data).value)
    requires removes == if remove == {} then [] else RemoveCalls(removeOrder, NameArg(data).value)
    ensures UpdateEmits(data, add, remove, adds + removes)
  {
    EnumerationSize(addOrder, add);
    EnumerationSize(removeOrder, remove);
    var calls := adds + removes;
    var n := |add|;
    assert calls[..n] == adds;
    assert calls[n..] == removes;
    assert add == {} ==> addOrder == [];
    assert remove == {} ==> removeOrder == [];
    if add != {} {
      CallClassesOfCalls(addOrder, NameArg(data).value, SrcArg(data).value);
    }
    if remove != {} {
      CallClassesOfCalls(removeOrder, NameArg(data).value, Null);
    }
  }

  /** When the filtered table holds no stale id and no saved id is stale, the
      tracked table holds no stale id either. */
  lemma TracksNoStale(t: Table, f: Table, saved: map<Value, Record>, stale: set<Value>, nan: bool)
    requires Tracks(t, f, saved)
    requires forall j :: 0 <= j < |f| ==> !Dropped(f[j], stale, nan)
    requires saved.Keys !! stale
    ensures forall j :: 0 <= j < |t| ==> !Dropped(t[j], stale, nan)
  {
    forall j | 0 <= j < |t| ensures !Dropped(t[j], stale, nan) {
      if j < |f| {
        assert !Dropped(f[j], stale, nan);
      } else {
        assert IdIn(t[j], saved.Keys);
      }
    }
  }

  /** Once an image is stored under its source, sending it again cannot
      update it: the image record has no `class`, and the update path reads
      `data['class']` before anything else. The table stays as it was, the
      call fails and the category index is not called. */
  lemma ImageUpdateFails(database: Table, data: map<string, Value>, calls: seq<IndexCall>)
    requires GetImageData(data).Ok?
    requires FindInfoInDb(database, "image-src", data["src"]).Some?
    requires UpsertEmits(database, "image-src", data["src"], GetImageData(data).value, 0, calls)
    ensures UpsertTable(database, "image-src", data["src"], GetImageData(data).value, 0) == Upserted(database, false)
    ensures calls == []
  {
  }

  /** An image inserted in this session is stored with its source wrapped in a
      list, so looking the source up again does not find it: sending the same
      image twice appends it twice. */
  lemma ImageResendAppends(database: Table, data: map<string, Value>)
    requires GetImageData(data).Ok?
    requires FindInfoInDb(database, "image-src", data["src"]).None?
    requires UpsertTable(database, "image-src", data["src"], GetImageData(data).value, 0).ok
    ensures var t := UpsertTable(database, "image-src", data["src"], GetImageData(data).value, 0).table;
            && |t| == |database| + 1
            && FindInfoInDb(t, "image-src", data["src"]).None?
  {
    var rec := GetImageData(data).value;
    var t := UpsertTable(database, "image-src", data["src"], rec, 0).table;
    assert rec["image-src"] == List([data["src"]]);
    assert List([data["src"]]) != data["src"] by {
      var items := [data["src"]];
      assert items[0] == data["src"] && data["src"] in items;
      assert data["src"] < List(items);
    }
    forall j | 0 <= j < |t| ensures !KeyMatches(t[j], "image-src", data["src"]) {
      if j < |database| {
        assert t[j] == t[..|database|][j] == database[j];
      }
    }
  }

  /** A new image whose class list holds strings without `;` is registered
      under each of its non-empty classes, in order, with its name and source. */
  lemma ImageInsertRegisters(data: map<string, Value>)
    requires GetImageData(data).Ok?
    requires data["cls"].List?
    requires forall i :: 0 <= i < |data["cls"].items| ==> data["cls"].items[i].Str? && ';' !in data["cls"].items[i].s
    ensures var named := NonEmpty(data["cls"].items);
            InsertCalls(GetImageData(data).value) ==
              if named == [] then Ok([]) else Ok(AddCalls(named, data["name"], data["src"]))
  {
    var items := data["cls"].items;
    var rec := GetImageData(data).value;
    var joined := Join(";", Strings(items));
    assert rec["selected-classes"] == List([Str(joined)]);
    if |items| == 0 {
      assert joined == "";
      assert Split(joined, ';') == [""];
      assert StrValues([""]) == [Str("")];
      assert NonEmpty([Str("")]) == [];
      assert NonEmpty(items) == [];
    } else {
      SplitJoin(Strings(items), ';');
      assert StrValues(Strings(items)) == items;
    }
    assert NameArg(rec) == Ok(data["name"]);
    assert SrcArg(rec) == Ok(data["src"]);
  }

  /** Stale ids are dropped by id alone: a row of another image that shares an
      id with one the payload dropped goes too. */
  lemma StaleDeletionCrossesImages()
    ensures var t := [map["region-id" := Str("r1"), "image-src" := Str("a.png")],
                      map["region-id" := Str("r1"), "image-src" := Str("b.png")]];
            var stale := StaleIds(t, [], [], Str("a.png"), {});
            var nan := StaleNaN(t, [], [], Str("a.png"));
            stale == {Str("r1")} && !nan && WithoutIds(t, stale, nan) == []
  {
    var t := [map["region-id" := Str("r1"), "image-src" := Str("a.png")],
              map["region-id" := Str("r1"), "image-src" := Str("b.png")]];
    assert KeyMatches(t[0], "image-src", Str("a.png"));
    assert RegionIds(t, Str("a.png")) == {Str("r1")} by {
      assert !KeyMatches(t[1], "image-src", Str("a.png"));
    }
    assert RegionIds([], Str("a.png")) == {};
  }

  /** A region without a `type` makes the sync fail, whatever the tables:
      `region['type']` raises before that region reaches any table. */
  lemma RegionWithoutTypeFails(c: Table, b: Table, p: Table)
    ensures !Synced(Str("a.png"), map["regions" := List([Dict(map["id" := Str("r1")])])], [], [], [], c, b, p, true)
  {
  }

  /** A region row of the image without a region-id puts a NaN among the
      stale ids, and `isin` then drops every row without a region-id, of any
      image and in every table, while the rows with an id stay. */
  lemma StaleNaNCrossesImages()
    ensures var t := [map["image-src" := Str("a.png")], map["image-src" := Str("b.png")],
                      map["region-id" := Str("r2"), "image-src" := Str("b.png")]];
            var payloadIds := {Str("r1")};
            && StaleIds(t, [], [], Str("a.png"), payloadIds) == {}
            && StaleNaN(t, [], [], Str("a.png"))
            && WithoutIds(t, {}, true) == [t[2]]
  {
    var t := [map["image-src" := Str("a.png")], map["image-src" := Str("b.png")],
              map["region-id" := Str("r2"), "image-src" := Str("b.png")]];
    assert KeyMatches(t[0], "image-src", Str("a.png")) && "region-id" !in t[0];
    assert RegionIds(t, Str("a.png")) == {} by {
      assert !KeyMatches(t[1], "image-src", Str("a.png"));
      assert !KeyMatches(t[2], "image-src", Str("a.png"));
    }
    assert RegionIds([], Str("a.png")) == {};
    assert t[1..][1..] == [t[2]];
    assert t[2..][1..] == [];
  }

  /** A table that held each id at most once still does after the upserts. */
  lemma TracksUnique(t: Table, f: Table, saved: map<Value, Record>)
    requires Tracks(t, f, saved)
    requires forall x :: CountKey(f, "region-id", x) <= 1
    ensures forall x :: CountKey(t, "region-id", x) <= 1
  {
  }

  /** The three region tables keep to the columns of their kinds. */
  ghost predicate TablesConform(circles: Table, boxes: Table, polygons: Table)
  {
    && Conforms(circles, ColumnsOf(Circle))
    && Conforms(boxes, ColumnsOf(Box))
    && Conforms(polygons, ColumnsOf(Polygon))
  }

  /** The table of kind `k` among the three region tables. */
  function PickTable(k: Kind, circles: Table, boxes: Table, polygons: Table): Table
  {
    match k
    case Circle => circles
    case Box => boxes
    case Polygon => polygons
  }

  class Module {
    var imagesInfo: Table
    var imageCircleRegions: Table
    var imageBoxRegions: Table
    var imagePolygonRegions: Table
    /** The calls made to the category index, oldest first. */
    var indexCalls: seq<IndexCall>

    /** Every table keeps to its columns. */
    ghost predicate Valid()
      reads this
    {
      && Conforms(imagesInfo, ImageColumns)
      && RegionsConform()
    }

    /** Every region table keeps to the columns of its kind. */
    ghost predicate RegionsConform()
      reads this
    {
      TablesConform(imageCircleRegions, imageBoxRegions, imagePolygonRegions)
    }

    /** The region table of a kind. */
    function RegionTable(k: Kind): Table
      reads this
    {
      PickTable(k, imageCircleRegions, imageBoxRegions, imagePolygonRegions)
    }

    /** The store over the tables read from its files; it is valid when the
        files keep to their columns. */
    constructor(images: Table, circles: Table, boxes: Table, polygons: Table)
      ensures imagesInfo == images && imageCircleRegions == circles
      ensures imageBoxRegions == boxes && imagePolygonRegions == polygons
      ensures indexCalls == []
      ensures Conforms(images, ImageColumns) && TablesConform(circles, boxes, polygons) ==> Valid()
    {
      imagesInfo := images;
      imageCircleRegions := circles;
      imageBoxRegions := boxes;
      imagePolygonRegions := polygons;
      indexCalls := [];
    }

    /** The registrations of an update, one per added class, in the order the
        set is iterated in; the arguments are read at the first call. */
    method AddFolders(add: set<Value>, data: Record) returns (ok: bool, ghost order: seq<Value>)
      modifies this`indexCalls
      ensures ok <==> add == {} || (NameArg(data).Ok? && SrcArg(data).Ok?)
      ensures ok ==> Enumerates(order, add)
      ensures ok && add != {} ==> indexCalls == old(indexCalls) + AddCalls(order, NameArg(data).value, SrcArg(data).value)
      ensures !ok || add == {} ==> indexCalls == old(indexCalls)
    {
      var rest := add;
      order := [];
      while rest != {}
        invariant rest <= add
        invariant Enumerates(order, add - rest)
        invariant order != [] ==> NameArg(data).Ok? && SrcArg(data).Ok?
        invariant order == [] ==> indexCalls == old(indexCalls) && rest == add
        invariant rest == add ==> order == []
        invariant order != [] ==> indexCalls == old(indexCalls) + AddCalls(order, NameArg(data).value, SrcArg(data).value)
        decreases |rest|
      {
        var c :| c in rest;
        var name := NameArg(data);
        var src := SrcArg(data);
        if name.Err? || src.Err? {
          return false, order;
        }
        indexCalls := indexCalls + [AddImageFolder(c, name.value, src.value)];
        assert AddCalls(order + [c], name.value, src.value) == AddCalls(order, name.value, src.value) + [AddImageFolder(c, name.value, src.value)];
        EnumeratesExtend(order, add, rest, c);
        order := order + [c];
        rest := rest - {c};
      }
      assert add - rest == add;
      ok := true;
    }

    /** The unregistrations of an update, one per removed class; the name is
        read at the first call. */
    method RemoveFolders(remove: set<Value>, data: Record) returns (ok: bool, ghost order: seq<Value>)
      modifies this`indexCalls
      ensures ok <==> remove == {} || NameArg(data).Ok?
      ensures ok ==> Enumerates(order, remove)
      ensures ok && remove != {} ==> indexCalls == old(indexCalls) + RemoveCalls(order, NameArg(data).value)
      ensures !ok || remove == {} ==> indexCalls == old(indexCalls)
    {
      var rest := remove;
      order := [];
      while rest != {}
        invariant rest <= remove
        invariant Enumerates(order, remove - rest)
        invariant order != [] ==> NameArg(data).Ok?
        invariant order == [] ==> indexCalls == old(indexCalls) && rest == remove
        invariant rest == remove ==> order == []
        invariant order != [] ==> indexCalls == old(indexCalls) + RemoveCalls(order, NameArg(data).value)
        decreases |rest|
      {
        var c :| c in rest;
        var name := NameArg(data);
        if name.Err? {
          return false, order;
        }
        indexCalls := indexCalls + [RemoveImageFolder(c, name.value)];
        assert RemoveCalls(order + [c], name.value) == RemoveCalls(order, name.value) + [RemoveImageFolder(c, name.value)];
        EnumeratesExtend(order, remove, rest, c);
        order := order + [c];
        rest := rest - {c};
      }
      assert remove - rest == remove;
      ok := true;
    }

    /** `db_handler.py` lines 105-111: the class-index calls of an update, made only for a
        record that carries `image-name`. */
    method UpdateCalls(data: Record, add: set<Value>, remove: set<Value>) returns (ok: bool)
      modifies this`indexCalls
      ensures ok == UpdateCallsOk(data, add, remove)
      ensures |old(indexCalls)| <= |indexCalls| && indexCalls[..|old(indexCalls)|] == old(indexCalls)
      ensures UpdateEmits(data, add, remove, indexCalls[|old(indexCalls)|..])
    {
      if "image-name" !in data {
        assert indexCalls[|old(indexCalls)|..] == [];
        return true;
      }
      var added, addOrder := AddFolders(add, data);
      if !added {
        assert indexCalls[|old(indexCalls)|..] == [];
        UpdateEmitsNone(data, add, remove);
        return false;
      }
      ghost var mid := indexCalls;
      var removed, removeOrder := RemoveFolders(remove, data);
      ok := removed;
      if !removed {
        assert add == {} && indexCalls == old(indexCalls);
        assert indexCalls[|old(indexCalls)|..] == [];
        UpdateEmitsNone(data, add, remove);
        return;
      }
      ghost var adds := mid[|old(indexCalls)|..];
      ghost var removes := indexCalls[|mid|..];
      assert indexCalls == old(indexCalls) + adds + removes;
      assert indexCalls[|old(indexCalls)|..] == adds + removes;
      UpdateEmitsDone(data, add, remove, addOrder, removeOrder, adds, removes);
    }

    /** The update path of `saveRegionInDB`: the old and new class sets, the
        cells written into the found row, then the class-index calls. */
    method UpdateRow(database: Table, i: nat, data: Record, status: int) returns (r: Table, ok: bool)
      requires i < |database|
      modifies this`indexCalls
      ensures UpdatePlan(database[i], data, status).Err? ==> r == database && !ok
      ensures UpdatePlan(database[i], data, status).Ok? ==>
                var plan := UpdatePlan(database[i], data, status).value;
                && r == database[i := database[i] + plan.cells]
                && ok == UpdateCallsOk(data, plan.add, plan.remove)
                && |old(indexCalls)| <= |indexCalls| && indexCalls[..|old(indexCalls)|] == old(indexCalls)
                && UpdateEmits(data, plan.add, plan.remove, indexCalls[|old(indexCalls)|..])
      ensures UpdatePlan(database[i], data, status).Err? ==> indexCalls == old(indexCalls)
    {
      var sets := ClassSets(database[i], data);
      if sets.Err? {
        return database, false;
      }
      var written := WriteCells(database[i], data, status);
      if written.Err? {
        return database, false;
      }
      r := database[i := written.value];
      var delta := GetListsAbsolute(sets.value.1, sets.value.0);
      assert UpdatePlan(database[i], data, status) == Ok(Plan(Cells(data, status).value, delta.0, delta.1));
      ok := UpdateCalls(data, delta.0, delta.1);
    }

    /** `saveRegionInDB`: the table after the upsert (returned, or left with
        its in-place writes when the call raised) and whether it returned. */
    method SaveRegionInDB(database: Table, idColumn: string, uid: Value, data: Record, status: int)
      returns (r: Table, ok: bool)
      modifies this`indexCalls
      ensures Upserted(r, ok) == UpsertTable(database, idColumn, uid, data, status)
      ensures |old(indexCalls)| <= |indexCalls| && indexCalls[..|old(indexCalls)|] == old(indexCalls)
      ensures UpsertEmits(database, idColumn, uid, data, status, indexCalls[|old(indexCalls)|..])
    {
      var found := FindInfoInDb(database, idColumn, uid);
      if found.Some? {
        r, ok := UpdateRow(database, found.value, data, status);
        if UpdatePlan(database[found.value], data, status).Err? {
          assert indexCalls[|old(indexCalls)|..] == [];
        }
        return;
      }
      var classes := InsertClasses(data);
      if classes.Err? {
        assert indexCalls[|old(indexCalls)|..] == [];
        return database, false;
      }
      var cs := classes.value;
      var k := 0;
      while k < |cs|
        invariant 0 <= k <= |cs|
        invariant NonEmpty(cs[..k]) != [] ==> NameArg(data).Ok? && SrcArg(data).Ok?
        invariant NonEmpty(cs[..k]) == [] ==> indexCalls == old(indexCalls)
        invariant NonEmpty(cs[..k]) != [] ==>
                    indexCalls == old(indexCalls) + AddCalls(NonEmpty(cs[..k]), NameArg(data).value, SrcArg(data).value)
      {
        NonEmptyAppend(cs[..k], [cs[k]]);
        assert cs[..k + 1] == cs[..k] + [cs[k]];
        if cs[k] != Str("") {
          var name := NameArg(data);
          var src := SrcArg(data);
          if name.Err? || src.Err? {
            assert cs[k] in NonEmpty(cs);
            assert indexCalls[|old(indexCalls)|..] == [];
            return database, false;
          }
          indexCalls := indexCalls + [AddImageFolder(cs[k], name.value, src.value)];
          assert AddCalls(NonEmpty(cs[..k + 1]), name.value, src.value)
                 == AddCalls(NonEmpty(cs[..k]), name.value, src.value) + [AddImageFolder(cs[k], name.value, src.value)];
        }
        k := k + 1;
      }
      assert cs[..k] == cs;
      r, ok := database + [data], true;
    }

    /** The upsert of a region record by its id, which calls nothing. */
    method SaveRegionRecord(table: Table, uid: Value, rec: Record, ghost columns: set<string>) returns (r: Table, ok: bool)
      requires "image-name" !in rec && "selected-classes" !in rec
      requires rec.Keys <= columns
      modifies this`indexCalls
      ensures Upserted(r, ok) == UpsertTable(table, "region-id", uid, rec, 1)
      ensures indexCalls == old(indexCalls)
      ensures Conforms(table, columns) ==> Conforms(r, columns)
    {
      if Conforms(table, columns) {
        UpsertConforms(table, "region-id", uid, rec, 1, columns);
      }
      r, ok := SaveRegionInDB(table, "region-id", uid, rec, 1);
      RegionRecordMakesNoCalls(table, "region-id", uid, rec, 1, indexCalls[|old(indexCalls)|..]);
      assert indexCalls == indexCalls[..|old(indexCalls)|] + indexCalls[|old(indexCalls)|..];
    }

    /** `circleRegion`: the circle geometry is added and the record upserted by region id. */
    method CircleRegion(regionData: Record, data: map<string, Value>) returns (ok: bool)
      requires regionData.Keys == RegionColumns
      modifies this
      ensures imagesInfo == old(imagesInfo) && indexCalls == old(indexCalls)
      ensures imageBoxRegions == old(imageBoxRegions) && imagePolygonRegions == old(imagePolygonRegions)
      ensures KindRecord(Circle, regionData, data).Err? ==> !ok && imageCircleRegions == old(imageCircleRegions)
      ensures KindRecord(Circle, regionData, data).Ok? ==>
                Upserted(imageCircleRegions, ok) ==
                UpsertTable(old(imageCircleRegions), "region-id", regionData["region-id"],
                            KindRecord(Circle, regionData, data).value, 1)
      ensures Conforms(old(imageCircleRegions), ColumnsOf(Circle)) ==> Conforms(imageCircleRegions, ColumnsOf(Circle))
    {
      var rec := KindRecord(Circle, regionData, data);
      if rec.Err? {
        return false;
      }
      RegionColumnsNotImage(Circle);
      imageCircleRegions, ok := SaveRegionRecord(imageCircleRegions, regionData["region-id"], rec.value, ColumnsOf(Circle));
    }

    /** `boxRegion`: the box geometry is added and the record upserted by region id. */
    method BoxRegion(regionData: Record, data: map<string, Value>) returns (ok: bool)
      requires regionData.Keys == RegionColumns
      modifies this
      ensures imagesInfo == old(imagesInfo) && indexCalls == old(indexCalls)
      ensures imageCircleRegions == old(imageCircleRegions) && imagePolygonRegions == old(imagePolygonRegions)
      ensures KindRecord(Box, regionData, data).Err? ==> !ok && imageBoxRegions == old(imageBoxRegions)
      ensures KindRecord(Box, regionData, data).Ok? ==>
                Upserted(imageBoxRegions, ok) ==
                UpsertTable(old(imageBoxRegions), "region-id", regionData["region-id"],
                            KindRecord(Box, regionData, data).value, 1)
      ensures Conforms(old(imageBoxRegions), ColumnsOf(Box)) ==> Conforms(imageBoxRegions, ColumnsOf(Box))
    {
      var rec := KindRecord(Box, regionData, data);
      if rec.Err? {
        return false;
      }
      RegionColumnsNotImage(Box);
      imageBoxRegions, ok := SaveRegionRecord(imageBoxRegions, regionData["region-id"], rec.value, ColumnsOf(Box));
    }

    /** `polygonRegion`: the points text is added and the record upserted by region id. */
    method PolygonRegion(regionData: Record, data: map<string, Value>) returns (ok: bool)
      requires regionData.Keys == RegionColumns
      modifies this
      ensures imagesInfo == old(imagesInfo) && indexCalls == old(indexCalls)
      ensures imageCircleRegions == old(imageCircleRegions) && imageBoxRegions == old(imageBoxRegions)
      ensures KindRecord(Polygon, regionData, data).Err? ==> !ok && imagePolygonRegions == old(imagePolygonRegions)
      ensures KindRecord(Polygon, regionData, data).Ok? ==>
                Upserted(imagePolygonRegions, ok) ==
                UpsertTable(old(imagePolygonRegions), "region-id", regionData["region-id"],
                            KindRecord(Polygon, regionData, data).value, 1)
      ensures Conforms(old(imagePolygonRegions), ColumnsOf(Polygon)) ==> Conforms(imagePolygonRegions, ColumnsOf(Polygon))
    {
      var rec := KindRecord(Polygon, regionData, data);
      if rec.Err? {
        return false;
      }
      RegionColumnsNotImage(Polygon);
      imagePolygonRegions, ok := SaveRegionRecord(imagePolygonRegions, regionData["region-id"], rec.value, ColumnsOf(Polygon));
    }

    /** `otherRegion`: a type the store does not know is only reported; the
        report reads `data['type']`. */
    method OtherRegion(data: map<string, Value>) returns (ok: bool)
      ensures ok <==> "type" in data
    {
      ok := "type" in data;
    }

    /** `saveRegionInfo`: the shared columns are built from the region, then
        the region method of its type upserts it into that type's table. Only
        that table can change, and the category index is not called. */
    method SaveRegionInfo(regionType: Value, imageSrc: Value, data: map<string, Value>) returns (ok: bool)
      modifies this
      ensures imagesInfo == old(imagesInfo) && indexCalls == old(indexCalls)
      ensures forall k :: RegionSaved(regionType, imageSrc, data, k,
                                      PickTable(k, old(imageCircleRegions), old(imageBoxRegions), old(imagePolygonRegions)),
                                      PickTable(k, imageCircleRegions, imageBoxRegions, imagePolygonRegions), ok)
      ensures TablesConform(old(imageCircleRegions), old(imageBoxRegions), old(imagePolygonRegions)) ==>
                TablesConform(imageCircleRegions, imageBoxRegions, imagePolygonRegions)
    {
      var regionData := RegionData(imageSrc, data);
      if regionData.Err? {
        return false;
      }
      var kind := KindOf(regionType);
      if kind.None? {
        ok := OtherRegion(data);
        return;
      }
      ghost var c0, b0, p0 := imageCircleRegions, imageBoxRegions, imagePolygonRegions;
      ok := SaveKindRegion(kind.value, regionData.value, data);
      var rec := KindRecord(kind.value, regionData.value, data);
      assert rec.Ok? ==> NormaliseRegion(regionType, imageSrc, data) == Ok(Some((kind.value, rec.value)));
      forall k ensures RegionSaved(regionType, imageSrc, data, k, PickTable(k, c0, b0, p0),
                                   PickTable(k, imageCircleRegions, imageBoxRegions, imagePolygonRegions), ok) {
        assert RegionTable(k) == PickTable(k, imageCircleRegions, imageBoxRegions, imagePolygonRegions);
        assert old(RegionTable(k)) == PickTable(k, c0, b0, p0);
      }
    }

    /** The region method of a known kind: only that kind's table can change,
        and it takes the upsert of the kind's record by region id. */
    method SaveKindRegion(k: Kind, regionData: Record, data: map<string, Value>) returns (ok: bool)
      requires regionData.Keys == RegionColumns
      modifies this
      ensures imagesInfo == old(imagesInfo) && indexCalls == old(indexCalls)
      ensures forall k' :: k' != k ==> RegionTable(k') == old(RegionTable(k'))
      ensures KindRecord(k, regionData, data).Err? ==> !ok && RegionTable(k) == old(RegionTable(k))
      ensures KindRecord(k, regionData, data).Ok? ==>
                Upserted(RegionTable(k), ok) ==
                UpsertTable(old(RegionTable(k)), "region-id", regionData["region-id"],
                            KindRecord(k, regionData, data).value, 1)
      ensures TablesConform(old(imageCircleRegions), old(imageBoxRegions), old(imagePolygonRegions)) ==>
                TablesConform(imageCircleRegions, imageBoxRegions, imagePolygonRegions)
    {
      ghost var c, b, p := imageCircleRegions, imageBoxRegions, imagePolygonRegions;
      match k {
        case Circle =>
          ok := CircleRegion(regionData, data);
          assert imageBoxRegions == b && imagePolygonRegions == p;
        case Box =>
          ok := BoxRegion(regionData, data);
          assert imageCircleRegions == c && imagePolygonRegions == p;
        case Polygon =>
          ok := PolygonRegion(regionData, data);
          assert imageCircleRegions == c && imageBoxRegions == b;
      }
      assert RegionTable(k) == PickTable(k, imageCircleRegions, imageBoxRegions, imagePolygonRegions);
      forall k' | k' != k ensures RegionTable(k') == PickTable(k', c, b, p) {
      }
    }

    /** `getImageData` followed by the upsert of the image record, keyed by
        its source. */
    method SaveImage(data: map<string, Value>) returns (ok: bool)
      modifies this`imagesInfo, this`indexCalls
      ensures GetImageData(data).Err? ==> !ok && imagesInfo == old(imagesInfo) && indexCalls == old(indexCalls)
      ensures GetImageData(data).Ok? ==>
                var rec := GetImageData(data).value;
                && Upserted(imagesInfo, ok) == UpsertTable(old(imagesInfo), "image-src", data["src"], rec, 0)
                && |old(indexCalls)| <= |indexCalls| && indexCalls[..|old(indexCalls)|] == old(indexCalls)
                && UpsertEmits(old(imagesInfo), "image-src", data["src"], rec, 0, indexCalls[|old(indexCalls)|..])
      ensures Conforms(old(imagesInfo), ImageColumns) ==> Conforms(imagesInfo, ImageColumns)
      ensures imageCircleRegions == old(imageCircleRegions) && imageBoxRegions == old(imageBoxRegions)
      ensures imagePolygonRegions == old(imagePolygonRegions)
    {
      var imageData := GetImageData(data);
      if imageData.Err? {
        return false;
      }
      assert imageData.value["image-src"] == List([data["src"]]);
      var uid := First(imageData.value["image-src"]);
      ok := SaveImageRecord(uid.value, imageData.value);
    }

    /** The upsert of an image record by its source into the image table. */
    method SaveImageRecord(uid: Value, rec: Record) returns (ok: bool)
      requires rec.Keys <= ImageColumns
      modifies this`imagesInfo, this`indexCalls
      ensures Upserted(imagesInfo, ok) == UpsertTable(old(imagesInfo), "image-src", uid, rec, 0)
      ensures |old(indexCalls)| <= |indexCalls| && indexCalls[..|old(indexCalls)|] == old(indexCalls)
      ensures UpsertEmits(old(imagesInfo), "image-src", uid, rec, 0, indexCalls[|old(indexCalls)|..])
      ensures Conforms(old(imagesInfo), ImageColumns) ==> Conforms(imagesInfo, ImageColumns)
    {
      if Conforms(imagesInfo, ImageColumns) {
        UpsertConforms(imagesInfo, "image-src", uid, rec, 0, ImageColumns);
      }
      imagesInfo, ok := SaveRegionInDB(imagesInfo, "image-src", uid, rec, 0);
    }

    /** `db_handler.py` lines 219-230: the rows of every region table whose id
        is stale for the image are dropped, in all three tables; when a region
        row of the image lacks its id, so are all rows without one. */
    method RemoveStaleRegions(src: Value, payloadIds: set<Value>)
      modifies this`imageCircleRegions, this`imageBoxRegions, this`imagePolygonRegions
      ensures var stale := StaleIds(old(imageCircleRegions), old(imageBoxRegions), old(imagePolygonRegions), src, payloadIds);
              var nan := StaleNaN(old(imageCircleRegions), old(imageBoxRegions), old(imagePolygonRegions), src);
              && imageCircleRegions == WithoutIds(old(imageCircleRegions), stale, nan)
              && imageBoxRegions == WithoutIds(old(imageBoxRegions), stale, nan)
              && imagePolygonRegions == WithoutIds(old(imagePolygonRegions), stale, nan)
      ensures TablesConform(old(imageCircleRegions), old(imageBoxRegions), old(imagePolygonRegions)) ==>
                TablesConform(imageCircleRegions, imageBoxRegions, imagePolygonRegions)
    {
      var stale := StaleIds(imageCircleRegions, imageBoxRegions, imagePolygonRegions, src, payloadIds);
      var nan := StaleNaN(imageCircleRegions, imageBoxRegions, imagePolygonRegions, src);
      if TablesConform(imageCircleRegions, imageBoxRegions, imagePolygonRegions) {
        WithoutIdsConforms(imageCircleRegions, stale, nan, ColumnsOf(Circle));
        WithoutIdsConforms(imageBoxRegions, stale, nan, ColumnsOf(Box));
        WithoutIdsConforms(imagePolygonRegions, stale, nan, ColumnsOf(Polygon));
      }
      imageCircleRegions := WithoutIds(imageCircleRegions, stale, nan);
      imageBoxRegions := WithoutIds(imageBoxRegions, stale, nan);
      imagePolygonRegions := WithoutIds(imagePolygonRegions, stale, nan);
    }

    /** `db_handler.py` line 234 for region `j`: it is saved, and it fails
        exactly when `SaveFails` says so, leaving the tables; on success every
        region table is still the starting one of its kind with the records of
        regions `0..j` of its kind upserted, now including region `j`. */
    method SaveRegionAt(src: Value, regions: seq<Value>, j: nat, ghost circles: Table, ghost boxes: Table,
                        ghost polygons: Table) returns (ok: bool)
      requires j < |regions|
      requires AllTrack(imageCircleRegions, imageBoxRegions, imagePolygonRegions, circles, boxes, polygons, regions, src, j)
      modifies this
      ensures imagesInfo == old(imagesInfo) && indexCalls == old(indexCalls)
      ensures ok <==> !SaveFails(regions[j], src, old(imageCircleRegions), old(imageBoxRegions), old(imagePolygonRegions))
      ensures !ok ==> && imageCircleRegions == old(imageCircleRegions) && imageBoxRegions == old(imageBoxRegions)
                      && imagePolygonRegions == old(imagePolygonRegions)
      ensures ok ==> AllTrack(imageCircleRegions, imageBoxRegions, imagePolygonRegions, circles, boxes, polygons,
                              regions, src, j + 1)
      ensures ok ==> SavedStep(regions[j], src, (old(imageCircleRegions), old(imageBoxRegions), old(imagePolygonRegions)),
                               (imageCircleRegions, imageBoxRegions, imagePolygonRegions))
      ensures TablesConform(old(imageCircleRegions), old(imageBoxRegions), old(imagePolygonRegions)) ==>
                TablesConform(imageCircleRegions, imageBoxRegions, imagePolygonRegions)
    {
      var region := regions[j];
      var regionType := Subscript(region, "type");
      if regionType.Err? {
        return false;
      }
      ok := SaveRegionInfo(regionType.value, src, region.fields);
      SaveOutcome(region, src, regionType.value, old(imageCircleRegions), old(imageBoxRegions), old(imagePolygonRegions),
                  imageCircleRegions, imageBoxRegions, imagePolygonRegions, ok);
      if ok {
        forall k ensures Tracks(PickTable(k, imageCircleRegions, imageBoxRegions, imagePolygonRegions),
                                PickTable(k, circles, boxes, polygons), SavedRecords(regions, src, j + 1, k)) {
          RegionSaveStep(PickTable(k, old(imageCircleRegions), old(imageBoxRegions), old(imagePolygonRegions)),
                         PickTable(k, imageCircleRegions, imageBoxRegions, imagePolygonRegions),
                         PickTable(k, circles, boxes, polygons), regions, src, j, k, regionType.value);
        }
      }
    }

    /** `db_handler.py` lines 233-234: every region of the payload is saved, in
        order. When all of them are, each region table is its old self with
        the records of its kind upserted; when one fails, at `stop`, the
        regions before it were upserted and it fails against the tables as
        they are. */
    method SaveRegions(src: Value, regions: seq<Value>) returns (ok: bool, ghost stop: nat, ghost trace: seq<RegionTables>)
      modifies this
      ensures imagesInfo == old(imagesInfo) && indexCalls == old(indexCalls)
      ensures |trace| == (if ok then |regions| else stop) + 1
      ensures trace[0] == (old(imageCircleRegions), old(imageBoxRegions), old(imagePolygonRegions))
      ensures trace[|trace| - 1] == (imageCircleRegions, imageBoxRegions, imagePolygonRegions)
      ensures SavedSteps(regions, src, trace, |trace| - 1)
      ensures ok ==> AllNormalise(regions, src)
      ensures ok ==> AllTrack(imageCircleRegions, imageBoxRegions, imagePolygonRegions,
                              old(imageCircleRegions), old(imageBoxRegions), old(imagePolygonRegions), regions, src, |regions|)
      ensures !ok ==> && stop < |regions|
                      && AllTrack(imageCircleRegions, imageBoxRegions, imagePolygonRegions,
                                  old(imageCircleRegions), old(imageBoxRegions), old(imagePolygonRegions), regions, src, stop)
                      && SaveFails(regions[stop], src, imageCircleRegions, imageBoxRegions, imagePolygonRegions)
      ensures TablesConform(old(imageCircleRegions), old(imageBoxRegions), old(imagePolygonRegions)) ==>
                TablesConform(imageCircleRegions, imageBoxRegions, imagePolygonRegions)
    {
      ghost var circles, boxes, polygons := imageCircleRegions, imageBoxRegions, imagePolygonRegions;
      forall k ensures Tracks(PickTable(k, circles, boxes, polygons), PickTable(k, circles, boxes, polygons),
                              SavedRecords(regions, src, 0, k)) {
        TracksStart(PickTable(k, circles, boxes, polygons));
      }
      stop := 0;
      trace := [(circles, boxes, polygons)];
      var j := 0;
      while j < |regions|
        invariant 0 <= j <= |regions|
        invariant imagesInfo == old(imagesInfo) && indexCalls == old(indexCalls)
        invariant |trace| == j + 1 && trace[0] == (circles, boxes, polygons)
        invariant trace[j] == (imageCircleRegions, imageBoxRegions, imagePolygonRegions)
        invariant SavedSteps(regions, src, trace, j)
        invariant AllTrack(imageCircleRegions, imageBoxRegions, imagePolygonRegions, circles, boxes, polygons, regions, src, j)
        invariant TablesConform(circles, boxes, polygons) ==>
                    TablesConform(imageCircleRegions, imageBoxRegions, imagePolygonRegions)
      {
        ok := SaveRegionAt(src, regions, j, circles, boxes, polygons);
        if !ok {
          stop := j;
          return;
        }
        SavedStepsExtend(regions, src, trace, j, (imageCircleRegions, imageBoxRegions, imagePolygonRegions));
        trace := trace + [(imageCircleRegions, imageBoxRegions, imagePolygonRegions)];
        j := j + 1;
      }
      ok := true;
      StepsNormalise(regions, src, trace, |regions|);
    }

    /** `db_handler.py` lines 219-234: the regions the payload no longer
        carries are dropped from every region table, then every region of the
        payload is upserted into the table of its type; `Synced` states the
        outcome, on success and on failure. */
    method SyncRegions(src: Value, data: map<string, Value>) returns (ok: bool)
      modifies this
      ensures imagesInfo == old(imagesInfo) && indexCalls == old(indexCalls)
      ensures Synced(src, data, old(imageCircleRegions), old(imageBoxRegions), old(imagePolygonRegions),
                     imageCircleRegions, imageBoxRegions, imagePolygonRegions, ok)
      ensures TablesConform(old(imageCircleRegions), old(imageBoxRegions), old(imagePolygonRegions)) ==>
                TablesConform(imageCircleRegions, imageBoxRegions, imagePolygonRegions)
    {
      var ids := PayloadIds(data);
      if ids.Err? {
        return false;
      }
      ghost var c0, b0, p0 := imageCircleRegions, imageBoxRegions, imagePolygonRegions;
      ghost var stale := StaleIds(c0, b0, p0, src, ids.value);
      ghost var nan := StaleNaN(c0, b0, p0, src);
      RemoveStaleRegions(src, ids.value);
      ghost var c1, b1, p1 := imageCircleRegions, imageBoxRegions, imagePolygonRegions;
      var regions := Regions(data).value;
      ghost var stop, trace;
      ok, stop, trace := SaveRegions(src, regions);
      if ok {
        assert |trace| == |regions| + 1 && trace[0] == (c1, b1, p1) && trace[|regions|] == (imageCircleRegions, imageBoxRegions, imagePolygonRegions);
      }
      ghost var n := if ok then |regions| else stop;
      forall k ensures forall j :: 0 <= j < |PickTable(k, imageCircleRegions, imageBoxRegions, imagePolygonRegions)| ==>
                         !Dropped(PickTable(k, imageCircleRegions, imageBoxRegions, imagePolygonRegions)[j], stale, nan) {
        var f := PickTable(k, c1, b1, p1);
        PickWithout(k, c0, b0, p0, stale, nan);
        forall j | 0 <= j < |f| ensures !Dropped(f[j], stale, nan) {
          assert f[j] in f;
        }
        SavedRecordsInPayload(data, src, n, k);
        TracksNoStale(PickTable(k, imageCircleRegions, imageBoxRegions, imagePolygonRegions), f,
                      SavedRecords(regions, src, n, k), stale, nan);
      }
    }

    /** `handleNewData`: the image is upserted, then the regions are brought
        in line with the payload. A failure part-way leaves what was done
        before it: a failed image upsert leaves the region tables, and a
        failed sync is described by `Synced`. */
    method HandleNewData(data: map<string, Value>) returns (ok: bool)
      modifies this
      ensures GetImageData(data).Err? ==> !ok && unchanged(this)
      ensures GetImageData(data).Ok? ==>
                var rec := GetImageData(data).value;
                && imagesInfo == UpsertTable(old(imagesInfo), "image-src", data["src"], rec, 0).table
                && |old(indexCalls)| <= |indexCalls| && indexCalls[..|old(indexCalls)|] == old(indexCalls)
                && UpsertEmits(old(imagesInfo), "image-src", data["src"], rec, 0, indexCalls[|old(indexCalls)|..])
      ensures GetImageData(data).Ok? && !UpsertTable(old(imagesInfo), "image-src", data["src"], GetImageData(data).value, 0).ok ==>
                && !ok && imageCircleRegions == old(imageCircleRegions) && imageBoxRegions == old(imageBoxRegions)
                && imagePolygonRegions == old(imagePolygonRegions)
      ensures GetImageData(data).Ok? && UpsertTable(old(imagesInfo), "image-src", data["src"], GetImageData(data).value, 0).ok ==>
                Synced(data["src"], data, old(imageCircleRegions), old(imageBoxRegions), old(imagePolygonRegions),
                       imageCircleRegions, imageBoxRegions, imagePolygonRegions, ok)
      ensures ok ==> && GetImageData(data).Ok?
                     && UpsertTable(old(imagesInfo), "image-src", data["src"], GetImageData(data).value, 0).ok
                     && PayloadIds(data).Ok?
      ensures old(Valid()) ==> Valid()
      ensures old(Valid()) && ok ==> forall k :: RowsHold(RegionTable(k), Regions(data).value, data["src"], k)
    {
      ok := SaveImage(data);
      if !ok {
        return;
      }
      label mid:
      ok := SyncRegions(data["src"], data);
      assert old@mid(imageCircleRegions) == old(imageCircleRegions) && old@mid(imageBoxRegions) == old(imageBoxRegions);
      assert old@mid(imagePolygonRegions) == old(imagePolygonRegions);
      assert imagesInfo == old@mid(imagesInfo) && indexCalls == old@mid(indexCalls);
      if old(Valid()) && ok {
        forall k ensures RowsHold(RegionTable(k), Regions(data).value, data["src"], k) {
          SyncedRows(data["src"], data, old(imageCircleRegions), old(imageBoxRegions), old(imagePolygonRegions),
                     imageCircleRegions, imageBoxRegions, imagePolygonRegions, k);
        }
      }
    }

    /** `handleActiveImageData`: only the image is upserted. */
    method HandleActiveImageData(data: map<string, Value>) returns (ok: bool)
      modifies this
      ensures GetImageData(data).Err? ==> !ok && unchanged(this)
      ensures GetImageData(data).Ok? ==>
                var rec := GetImageData(data).value;
                && Upserted(imagesInfo, ok) == UpsertTable(old(imagesInfo), "image-src", data["src"], rec, 0)
                && |old(indexCalls)| <= |indexCalls| && indexCalls[..|old(indexCalls)|] == old(indexCalls)
                && UpsertEmits(old(imagesInfo), "image-src", data["src"], rec, 0, indexCalls[|old(indexCalls)|..])
      ensures forall k :: RegionTable(k) == old(RegionTable(k))
      ensures old(Valid()) ==> Valid()
    {
      ok := SaveImage(data);
    }

    /** `clear_db`: every table loses all its rows. */
    method ClearDb()
      modifies this
      ensures imagesInfo == [] && forall k :: RegionTable(k) == []
      ensures indexCalls == old(indexCalls)
      ensures Valid()
    {
      imagesInfo := [];
      imageCircleRegions := [];
      imageBoxRegions := [];
      imagePolygonRegions := [];
    }

    /** `get_class_distribution`: for every class, the number of region rows
        of that class over the three region tables; a class that occurs
        nowhere is absent. */
    function GetClassDistribution(): (r: map<Value, nat>)
      reads this
      ensures forall c :: CountOf(r, c) ==
                CountClass(imageCircleRegions, c) + CountClass(imageBoxRegions, c) + CountClass(imagePolygonRegions, c)
      ensures forall c :: c in r ==> r[c] > 0
    {
      AddCounts(AddCounts(AddCounts(map[], ValueCounts(imageCircleRegions)), ValueCounts(imageBoxRegions)),
                ValueCounts(imagePolygonRegions))
    }
  }

  /** Two regions of class "cat", a circle and a box, are counted together. */
  lemma ClassDistributionExample(m: Module)
    requires m.imageCircleRegions == [map["region-id" := Str("r1"), "class" := Str("cat")]]
    requires m.imageBoxRegions == [map["region-id" := Str("r2"), "class" := Str("cat")]]
    requires m.imagePolygonRegions == []
    ensures m.GetClassDistribution() == map[Str("cat") := 2]
  {
    var d := m.GetClassDistribution();
    assert CountClass(m.imageCircleRegions, Str("cat")) == 1;
    assert CountClass(m.imageBoxRegions, Str("cat")) == 1;
    forall c | c != Str("cat") ensures c !in d {
      assert CountClass(m.imageCircleRegions, c) == 0;
      assert CountClass(m.imageBoxRegions, c) == 0;
    }
  }
}
