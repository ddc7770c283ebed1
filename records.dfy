/** The record builders of the annotation store: they turn a client payload
    into the flat record of one table (the image record, or a circle, box or
    polygon region record). */
module Records {
  import opened PyValues
  import opened Tables

  /** The columns of each table, as the store declares them. */
  const ImageColumns: set<string> :=
    {"image-name", "selected-classes", "comment", "image-original-height",
     "image-original-width", "image-src", "processed"}
  const RegionColumns: set<string> := {"region-id", "image-src", "class", "comment", "tags"}
  const CircleGeometry: set<string> := {"rx", "ry", "rw", "rh"}
  const BoxGeometry: set<string> := {"x", "y", "w", "h"}

  /** The three region tables. */
  datatype Kind = Circle | Box | Polygon

  function ColumnsOf(k: Kind): set<string>
  {
    match k
    case Circle => RegionColumns + CircleGeometry
    case Box => RegionColumns + BoxGeometry
    case Polygon => RegionColumns + {"points"}
  }

  /** A region record carries none of the image columns that drive the
      category index. */
  lemma RegionColumnsNotImage(k: Kind)
    ensures "image-name" !in ColumnsOf(k) && "selected-classes" !in ColumnsOf(k)
  {
  }

  /** The `type` a payload gives a region of each kind. */
  function KindName(k: Kind): string
  {
    match k
    case Circle => "circle"
    case Box => "box"
    case Polygon => "polygon"
  }

  /** The region table a payload type names (the branch `saveRegionInfo`
      takes); any other type has none. */
  function KindOf(regionType: Value): (r: Option<Kind>)
  {
    if regionType == Str("circle") then Some(Circle)
    else if regionType == Str("box") then Some(Box)
    else if regionType == Str("polygon") then Some(Polygon)
    else None
  }

  /** Every kind is recognised from its own name. */
  lemma KindOfName(k: Kind)
    ensures KindOf(Str(KindName(k))) == Some(k)
  {
  }

  /** A type selects a kind exactly when it is that kind's name. */
  lemma KindOfNames(regionType: Value)
    ensures KindOf(regionType).Some? ==> regionType == Str(KindName(KindOf(regionType).value))
    ensures KindOf(regionType).None? ==> forall k :: regionType != Str(KindName(k))
  {
  }

  /** `data.get('tags')`, with a missing list or None read as the empty list. */
  function TagsOf(data: map<string, Value>): (r: Value)
    ensures r != Null
    ensures "tags" in data && data["tags"] != Null ==> r == data["tags"]
    ensures "tags" !in data || data["tags"] == Null ==> r == List([])
  {
    if "tags" in data && data["tags"] != Null then data["tags"] else List([])
  }

  /** The columns every region record shares (`saveRegionInfo`): id, image,
      class, a comment that defaults to the empty string, and the tags joined
      by `;`, the empty string when there are none. */
  function RegionData(imageSrc: Value, data: map<string, Value>): (r: Result<Record>)
    ensures r.Ok? <==> "id" in data && "cls" in data && JoinValue(";", TagsOf(data)).Ok?
    ensures r.Ok? ==> r.value.Keys == RegionColumns
    ensures r.Ok? ==> r.value["region-id"] == data["id"] && r.value["image-src"] == imageSrc
                      && r.value["class"] == data["cls"]
    ensures r.Ok? && "comment" !in data ==> r.value["comment"] == Str("")
    ensures r.Ok? && "comment" in data ==> r.value["comment"] == data["comment"]
    ensures r.Ok? && ("tags" !in data || data["tags"] == Null) ==> r.value["tags"] == Str("")
    ensures (r.Ok? && "tags" in data && data["tags"].List?) ==>
              r.value["tags"] == Str(Join(";", Strings(data["tags"].items)))
  {
    if "id" !in data || "cls" !in data then Err(KeyError)
    else
      match JoinValue(";", TagsOf(data))
      case Err(e) => Err(e)
      case Ok(tags) =>
        Ok(map["region-id" := data["id"],
               "image-src" := imageSrc,
               "class" := data["cls"],
               "comment" := if "comment" in data then data["comment"] else Str(""),
               "tags" := Str(tags)])
  }

  /** `circleRegion` and `boxRegion` before the upsert: each named coordinate of
      `data['coords']` is added to the record wrapped in a one-element list. */
  function WithCoords(regionData: Record, data: map<string, Value>, names: set<string>): (r: Result<Record>)
    ensures r.Ok? <==> "coords" in data && data["coords"].Dict? && names <= data["coords"].fields.Keys
    ensures r.Ok? ==> r.value.Keys == regionData.Keys + names
    ensures r.Ok? ==> forall k :: k in names ==> r.value[k] == List([data["coords"].fields[k]])
    ensures r.Ok? ==> forall k :: k in regionData && k !in names ==> r.value[k] == regionData[k]
  {
    if "coords" !in data then Err(KeyError)
    else if !data["coords"].Dict? then Err(TypeError)
    else if !(names <= data["coords"].fields.Keys) then Err(KeyError)
    else
      var coords := data["coords"].fields;
      Ok(map k | k in regionData.Keys + names :: if k in names then List([coords[k]]) else regionData[k])
  }

  /** `str(coord)` for every coordinate of one point. */
  function CoordTexts(coords: seq<Value>): (r: Result<seq<string>>)
    ensures r.Ok? ==> |r.value| == |coords|
    ensures r.Ok? <==> forall i :: 0 <= i < |coords| ==> ToStr(coords[i]).Ok?
    ensures r.Ok? ==> forall i :: 0 <= i < |coords| ==> ToStr(coords[i]) == Ok(r.value[i])
  {
    if |coords| == 0 then Ok([])
    else
      match ToStr(coords[0])
      case Err(e) => Err(e)
      case Ok(t) =>
        match CoordTexts(coords[1..])
        case Err(e) => Err(e)
        case Ok(ts) => Ok([t] + ts)
  }

  /** `'-'.join(str(coord) for coord in point)`. */
  function PointText(point: Value): (r: Result<string>)
    ensures r.Ok? <==> Iterate(point).Ok? && CoordTexts(Iterate(point).value).Ok?
    ensures r.Ok? && point.List? ==> r.value == Join("-", CoordTexts(point.items).value)
  {
    match Iterate(point)
    case Err(e) => Err(e)
    case Ok(coords) =>
      match CoordTexts(coords)
      case Err(e) => Err(e)
      case Ok(ts) => Ok(Join("-", ts))
  }

  /** The text of every point, in input order. */
  function PointTexts(points: seq<Value>): (r: Result<seq<string>>)
    ensures r.Ok? ==> |r.value| == |points|
    ensures r.Ok? <==> forall i :: 0 <= i < |points| ==> PointText(points[i]).Ok?
    ensures r.Ok? ==> forall i :: 0 <= i < |points| ==> PointText(points[i]) == Ok(r.value[i])
  {
    if |points| == 0 then Ok([])
    else
      match PointText(points[0])
      case Err(e) => Err(e)
      case Ok(t) =>
        match PointTexts(points[1..])
        case Err(e) => Err(e)
        case Ok(ts) => Ok([t] + ts)
  }

  /** The `points` column of `polygonRegion`: the point texts joined by `;`. */
  function PolygonPoints(points: Value): (r: Result<string>)
    ensures r.Ok? <==> Iterate(points).Ok? && PointTexts(Iterate(points).value).Ok?
    ensures r.Ok? && points.List? ==> r.value == Join(";", PointTexts(points.items).value)
  {
    match Iterate(points)
    case Err(e) => Err(e)
    case Ok(ps) =>
      match PointTexts(ps)
      case Err(e) => Err(e)
      case Ok(ts) => Ok(Join(";", ts))
  }

  /** The record `polygonRegion` upserts. */
  function WithPoints(regionData: Record, data: map<string, Value>): (r: Result<Record>)
    ensures r.Ok? ==> r.value.Keys == regionData.Keys + {"points"}
    ensures r.Ok? ==> forall k :: k in regionData && k != "points" ==> r.value[k] == regionData[k]
    ensures r.Ok? <==> "points" in data && PolygonPoints(data["points"]).Ok?
    ensures r.Ok? ==> r.value["points"] == Str(PolygonPoints(data["points"]).value)
  {
    if "points" !in data then Err(KeyError)
    else
      match PolygonPoints(data["points"])
      case Err(e) => Err(e)
      case Ok(text) => Ok(regionData["points" := Str(text)])
  }

  /** The columns a kind adds to the shared region columns. */
  function GeometryOf(k: Kind): set<string>
  {
    match k
    case Circle => CircleGeometry
    case Box => BoxGeometry
    case Polygon => {"points"}
  }

  /** Whether the geometry of a region of kind `k` can be read: the named
      coordinates of a circle or a box, the point texts of a polygon. */
  predicate GeometryReadable(k: Kind, data: map<string, Value>)
  {
    match k
    case Polygon => "points" in data && PolygonPoints(data["points"]).Ok?
    case _ => "coords" in data && data["coords"].Dict? && GeometryOf(k) <= data["coords"].fields.Keys
  }

  /** The record the region method of a kind upserts: the shared columns are kept. */
  function KindRecord(k: Kind, regionData: Record, data: map<string, Value>): (r: Result<Record>)
    ensures r.Ok? <==> GeometryReadable(k, data)
    ensures r.Ok? ==> r.value.Keys == regionData.Keys + GeometryOf(k)
    ensures r.Ok? ==> forall c :: c in regionData && c in RegionColumns ==> r.value[c] == regionData[c]
  {
    match k
    case Circle => WithCoords(regionData, data, CircleGeometry)
    case Box => WithCoords(regionData, data, BoxGeometry)
    case Polygon => WithPoints(regionData, data)
  }

  /** What `saveRegionInfo` hands to the upsert: the table and the record, or
      nothing for a type it does not know (`otherRegion` only reads `data['type']`). */
  function NormaliseRegion(regionType: Value, imageSrc: Value, data: map<string, Value>): (r: Result<Option<(Kind, Record)>>)
    ensures r.Ok? && r.value.Some? ==>
              && KindOf(regionType) == Some(r.value.value.0)
              && r.value.value.1.Keys == ColumnsOf(r.value.value.0)
              && "id" in data && r.value.value.1["region-id"] == data["id"]
              && r.value.value.1["image-src"] == imageSrc
    ensures KindOf(regionType).None? ==> r.Ok? ==> r.value.None?
    ensures r.Ok? && r.value.None? ==> KindOf(regionType).None? && "type" in data
  {
    match RegionData(imageSrc, data)
    case Err(e) => Err(e)
    case Ok(regionData) =>
      match KindOf(regionType)
      case None => if "type" in data then Ok(None) else Err(KeyError)
      case Some(k) =>
        match KindRecord(k, regionData, data)
        case Err(e) => Err(e)
        case Ok(rec) => Ok(Some((k, rec)))
  }

  /** `saveRegionInfo` fails exactly when the shared columns cannot be read,
      when a known kind's geometry cannot be read, or, for an unknown type,
      when `otherRegion`'s `data['type']` is missing. */
  lemma NormaliseOutcome(regionType: Value, imageSrc: Value, data: map<string, Value>)
    ensures NormaliseRegion(regionType, imageSrc, data).Ok? <==>
              && RegionData(imageSrc, data).Ok?
              && (KindOf(regionType).None? ==> "type" in data)
              && (KindOf(regionType).Some? ==> GeometryReadable(KindOf(regionType).value, data))
    ensures KindOf(regionType).Some? && NormaliseRegion(regionType, imageSrc, data).Ok? ==>
              NormaliseRegion(regionType, imageSrc, data).value.Some?
  {
  }

  /** A normalised region record keeps the region's class as it is. */
  lemma NormalisedClass(regionType: Value, imageSrc: Value, data: map<string, Value>)
    requires NormaliseRegion(regionType, imageSrc, data).Ok? && NormaliseRegion(regionType, imageSrc, data).value.Some?
    ensures "cls" in data && NormaliseRegion(regionType, imageSrc, data).value.value.1["class"] == data["cls"]
  {
    var regionData := RegionData(imageSrc, data).value;
    assert regionData["class"] == data["cls"];
  }

  /** `getImageData`: every value of the image record is wrapped in a list;
      the class list is `;`-joined; the original size is an empty list when the
      payload gives no pixel size. */
  function GetImageData(data: map<string, Value>): (r: Result<Record>)
    ensures r.Ok? <==>
              && "name" in data && "src" in data && "comment" in data && "cls" in data
              && JoinValue(";", data["cls"]).Ok?
              && ("pixelSize" in data && data["pixelSize"] != Dict(map[]) ==>
                    data["pixelSize"].Dict? && {"h", "w"} <= data["pixelSize"].fields.Keys)
    ensures r.Ok? ==> r.value.Keys == ImageColumns && "class" !in r.value
    ensures r.Ok? ==> r.value["image-name"] == List([data["name"]])
                      && r.value["image-src"] == List([data["src"]])
                      && r.value["comment"] == List([data["comment"]])
                      && r.value["processed"] == List([Int(1)])
    ensures r.Ok? ==> r.value["selected-classes"] == List([Str(JoinValue(";", data["cls"]).value)])
    ensures r.Ok? && ("pixelSize" !in data || data["pixelSize"] == Dict(map[])) ==>
              r.value["image-original-height"] == List([]) && r.value["image-original-width"] == List([])
    ensures r.Ok? && "pixelSize" in data && data["pixelSize"] != Dict(map[]) ==>
              && r.value["image-original-height"] == List([data["pixelSize"].fields["h"]])
              && r.value["image-original-width"] == List([data["pixelSize"].fields["w"]])
  {
    if "name" !in data || "src" !in data || "comment" !in data || "cls" !in data then Err(KeyError)
    else
      match JoinValue(";", data["cls"])
      case Err(e) => Err(e)
      case Ok(classes) =>
        var pixelSize := if "pixelSize" in data then data["pixelSize"] else Dict(map[]);
        var hasSize := pixelSize != Dict(map[]);
        if hasSize && !(pixelSize.Dict? && {"h", "w"} <= pixelSize.fields.Keys) then
          Err(if pixelSize.Dict? then KeyError else TypeError)
        else
          Ok(map["image-name" := List([data["name"]]),
                 "image-src" := List([data["src"]]),
                 "comment" := List([data["comment"]]),
                 "selected-classes" := List([Str(classes)]),
                 "image-original-height" := if hasSize then List([pixelSize.fields["h"]]) else List([]),
                 "image-original-width" := if hasSize then List([pixelSize.fields["w"]]) else List([]),
                 "processed" := List([Int(1)])])
  }

  /** A polygon vertex given as two integer coordinates. */
  function PairValue(p: (int, int)): Value
  {
    List([Int(p.0), Int(p.1)])
  }

  /** The payload form of a vertex list. */
  function PairValues(pts: seq<(int, int)>): (r: seq<Value>)
    ensures |r| == |pts| && forall i :: 0 <= i < |pts| ==> r[i] == PairValue(pts[i])
  {
    seq(|pts|, i requires 0 <= i < |pts| => PairValue(pts[i]))
  }

  /** The textual form of one vertex, `x-y`. */
  function PairText(p: (int, int)): string
  {
    Decimal(p.0) + "-" + Decimal(p.1)
  }

  /** The intended textual form of a vertex list, `x1-y1;x2-y2;...`. */
  function PairsText(pts: seq<(int, int)>): string
  {
    if |pts| == 0 then ""
    else if |pts| == 1 then PairText(pts[0])
    else PairText(pts[0]) + ";" + PairsText(pts[1..])
  }

  function PairTexts(pts: seq<(int, int)>): (r: seq<string>)
    ensures |r| == |pts| && forall i :: 0 <= i < |pts| ==> r[i] == PairText(pts[i])
  {
    seq(|pts|, i requires 0 <= i < |pts| => PairText(pts[i]))
  }

  lemma {:induction false} JoinPairTexts(pts: seq<(int, int)>)
    ensures Join(";", PairTexts(pts)) == PairsText(pts)
  {
    if |pts| > 1 {
      JoinPairTexts(pts[1..]);
      assert PairTexts(pts)[1..] == PairTexts(pts[1..]);
    }
  }

  lemma PointTextOfPair(p: (int, int))
    ensures PointText(PairValue(p)) == Ok(PairText(p))
  {
    var cs := [Int(p.0), Int(p.1)];
    var a, b := Decimal(p.0), Decimal(p.1);
    assert Iterate(PairValue(p)) == Ok(cs);
    assert ToStr(cs[0]) == Ok(a) && ToStr(cs[1]) == Ok(b);
    assert cs[1..] == [Int(p.1)] && cs[1..][1..] == [];
    assert CoordTexts([]) == Ok([]);
    assert [b] + [] == [b] && [a] + [b] == [a, b];
    assert CoordTexts(cs[1..]) == Ok([b]);
    assert CoordTexts(cs) == Ok([a, b]);
    assert Join("-", [a, b]) == a + "-" + Join("-", [b]) == a + "-" + b by {
      assert [a, b][1..] == [b];
    }
  }

  /** The polygon serialisation writes the vertices as `x1-y1;x2-y2;...` in input order. */
  lemma PolygonPointsInOrder(pts: seq<(int, int)>)
    ensures PolygonPoints(List(PairValues(pts))) == Ok(PairsText(pts))
  {
    var ps := PairValues(pts);
    forall i | 0 <= i < |ps| ensures PointText(ps[i]) == Ok(PairTexts(pts)[i]) {
      PointTextOfPair(pts[i]);
    }
    var ts := PointTexts(ps);
    assert ts.value == PairTexts(pts);
    JoinPairTexts(pts);
  }

  lemma PairTextPlain(p: (int, int))
    ensures ';' !in PairText(p)
  {
    var a, b, t := Decimal(p.0), Decimal(p.1), PairText(p);
    forall j | 0 <= j < |t| ensures t[j] != ';' {
      if j < |a| { assert t[j] == a[j]; }
      else if j > |a| { assert t[j] == b[j - |a| - 1]; }
    }
  }

  /** Splitting the `points` text at `;` gives back one `x-y` piece per vertex. */
  lemma PolygonPointsSplit(pts: seq<(int, int)>)
    requires |pts| >= 1
    ensures Split(PairsText(pts), ';') == PairTexts(pts)
  {
    var ts := PairTexts(pts);
    forall i | 0 <= i < |ts| ensures ';' !in ts[i] {
      PairTextPlain(pts[i]);
    }
    SplitJoin(ts, ';');
    JoinPairTexts(pts);
  }
}
