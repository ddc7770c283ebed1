/** The reconciliation step of the store (`saveRegionInDB`): the choice between
    updating the first matching row in place and appending a new row, the
    class-set delta of an update, and the calls into the category index. */
module Reconcile {
  import opened PyValues
  import opened Tables

  /** A call into the category index; the index itself is outside the model,
      only the calls made to it are recorded. */
  datatype IndexCall =
    | AddImageFolder(cls: Value, imageName: Value, imageSrc: Value)
    | RemoveImageFolder(cls: Value, imageName: Value)

  /** `get_lists_absolute(new_set, old_set)`: the classes to register and the
      classes to unregister. The two are disjoint, and applying them to the old
      set gives the new set. */
  function GetListsAbsolute(newSet: set<Value>, oldSet: set<Value>): (r: (set<Value>, set<Value>))
    ensures r.0 !! r.1
    ensures r.0 <= newSet && r.0 !! oldSet
    ensures r.1 <= oldSet && r.1 !! newSet
    ensures (oldSet - r.1) + r.0 == newSet
  {
    (newSet - oldSet, oldSet - newSet)
  }

  /** A one-element list holding a string stands for that string. */
  function UnwrapSingle(v: Value): (r: Value)
    ensures r == v || (v == List([r]) && r.Str?)
    ensures !v.List? ==> r == v
  {
    if v.List? && |v.items| == 1 && v.items[0].Str? then v.items[0] else v
  }

  /** `database.loc[index, col]`: a missing cell is NaN, which neither splits nor iterates. */
  function CellOf(row: Row, col: string): Result<Value>
  {
    if col in row then Ok(row[col]) else Err(TypeError)
  }

  /** The classes `set(s)` gives for a string: its characters. */
  function CharSet(s: string): set<Value>
  {
    set c | c in s :: Str([c])
  }

  /** The classes `set(s.split(';'))` gives for a string. */
  function PieceSet(s: string): set<Value>
  {
    set p | p in Split(s, ';') :: Str(p)
  }

  function BothSets(a: Result<set<Value>>, b: Result<set<Value>>): Result<(set<Value>, set<Value>)>
  {
    match a
    case Err(e) => Err(e)
    case Ok(x) =>
      match b
      case Err(e) => Err(e)
      case Ok(y) => Ok((x, y))
  }

  function SplitSet(v: Value): Result<set<Value>>
  {
    match v
    case Str(s) => Ok(PieceSet(s))
    case _ => Err(AttributeError)
  }

  /** The old and the new class set of an update, in that order. The default of
      `data.get('selected-classes', data['class'])` is evaluated first, so a record
      without `class` fails. With `selected-classes` and a `;` in it both sides
      are split at `;`; otherwise `set` is applied to the bare strings, which
      gives their characters. */
  function ClassSets(row: Row, data: Record): (r: Result<(set<Value>, set<Value>)>)
    ensures "class" !in data ==> r.Err?
    ensures "class" in data && "selected-classes" !in data && "class" in row
            && row["class"].Str? && UnwrapSingle(data["class"]).Str?
            ==> r == Ok((CharSet(row["class"].s), CharSet(UnwrapSingle(data["class"]).s)))
    ensures "class" in data && "selected-classes" in data && "selected-classes" in row
            && row["selected-classes"].Str? && UnwrapSingle(data["selected-classes"]).Str?
            ==> var s := UnwrapSingle(data["selected-classes"]).s;
                r == Ok(if ';' in s then (PieceSet(row["selected-classes"].s), PieceSet(s))
                        else (CharSet(row["selected-classes"].s), CharSet(s)))
  {
    if "class" !in data then Err(KeyError)
    else
      var s := UnwrapSingle(if "selected-classes" in data then data["selected-classes"] else data["class"]);
      if "selected-classes" in data then
        match ContainsSeparator(s, ';')
        case Err(e) => Err(e)
        case Ok(hasSeparator) =>
          match CellOf(row, "selected-classes")
          case Err(e) => Err(e)
          case Ok(prev) =>
            if hasSeparator then BothSets(SplitSet(prev), SplitSet(s))
            else BothSets(ToSet(prev), ToSet(s))
      else
        match CellOf(row, "class")
        case Err(e) => Err(e)
        case Ok(prev) => BothSets(ToSet(prev), ToSet(s))
  }

  /** The value written for one column: `value[0]` when status is 0, `value` otherwise. */
  function Cell(v: Value, status: int): Result<Value>
  {
    if status == 0 then First(v) else Ok(v)
  }

  /** The values an update writes, one per column of the record. */
  function Cells(data: Record, status: int): (r: Result<Record>)
    ensures r.Ok? <==> forall k :: k in data ==> Cell(data[k], status).Ok?
    ensures r.Ok? ==> r.value.Keys == data.Keys
    ensures r.Ok? ==> forall k :: k in data ==> Cell(data[k], status) == Ok(r.value[k])
    ensures status != 0 ==> r == Ok(data)
  {
    if forall k :: k in data ==> Cell(data[k], status).Ok? then
      var cells := map k | k in data :: Cell(data[k], status).value;
      assert status != 0 ==> cells == data;
      Ok(cells)
    else Err(IndexError)
  }

  /** What an update does once its classes and cells are known. */
  datatype Plan = Plan(cells: Record, add: set<Value>, remove: set<Value>)

  /** The plan of an update: it exists when both class sets and all cells can
      be computed, writes the cells, and its delta turns the old class set
      into the new one. */
  function UpdatePlan(row: Row, data: Record, status: int): (r: Result<Plan>)
    ensures r.Ok? <==> ClassSets(row, data).Ok? && Cells(data, status).Ok?
    ensures r.Ok? ==> r.value.cells == Cells(data, status).value
    ensures r.Ok? ==> var sets := ClassSets(row, data).value;
                      && r.value.add !! r.value.remove
                      && r.value.add <= sets.1 && r.value.add !! sets.0
                      && r.value.remove <= sets.0 && r.value.remove !! sets.1
                      && (sets.0 - r.value.remove) + r.value.add == sets.1
  {
    match ClassSets(row, data)
    case Err(e) => Err(e)
    case Ok(sets) =>
      match Cells(data, status)
      case Err(e) => Err(e)
      case Ok(cells) =>
        var delta := GetListsAbsolute(sets.1, sets.0);
        Ok(Plan(cells, delta.0, delta.1))
  }

  /** `data['image-name'][0]`. */
  function NameArg(data: Record): Result<Value>
  {
    if "image-name" in data then First(data["image-name"]) else Err(KeyError)
  }

  /** `data['image-src'][0]`. */
  function SrcArg(data: Record): Result<Value>
  {
    if "image-src" in data then First(data["image-src"]) else Err(KeyError)
  }

  /** Whether the calls of an update can be made: arguments are read at the
      first call of each loop, so an empty loop reads nothing. */
  predicate UpdateCallsOk(data: Record, add: set<Value>, remove: set<Value>)
  {
    "image-name" !in data ||
    ((add == {} || (NameArg(data).Ok? && SrcArg(data).Ok?)) && (remove == {} || NameArg(data).Ok?))
  }

  /** The classes the insert path iterates over: a one-element list holding a
      string is split at `;`; any other value is iterated as it is. */
  function InsertClasses(data: Record): (r: Result<seq<Value>>)
    ensures "selected-classes" !in data ==> r == Ok([])
    ensures "selected-classes" in data && IsSingleString(data["selected-classes"]) ==>
              && r.Ok? && |r.value| >= 1
              && (forall i :: 0 <= i < |r.value| ==> r.value[i].Str? && ';' !in r.value[i].s)
              && Join(";", Strings(r.value)) == data["selected-classes"].items[0].s
    ensures "selected-classes" in data && !IsSingleString(data["selected-classes"]) ==>
              r == Iterate(data["selected-classes"])
  {
    if "selected-classes" !in data then Ok([])
    else
      var sc := data["selected-classes"];
      if IsSingleString(sc) then
        var pieces := Split(sc.items[0].s, ';');
        assert Strings(StrValues(pieces)) == pieces;
        JoinSplit(sc.items[0].s, ';');
        Ok(StrValues(pieces))
      else Iterate(sc)
  }

  /** A one-element list holding a string, as `getImageData` builds. */
  predicate IsSingleString(v: Value)
  {
    v.List? && |v.items| == 1 && v.items[0].Str?
  }

  /** The classes that are not the empty string, in their order. */
  function NonEmpty(cs: seq<Value>): (r: seq<Value>)
    ensures forall x :: x in r <==> x in cs && x != Str("")
    ensures |r| <= |cs|
    ensures forall x :: multiset(r)[x] == if x == Str("") then 0 else multiset(cs)[x]
  {
    if |cs| == 0 then []
    else
      assert cs == [cs[0]] + cs[1..];
      if cs[0] == Str("") then NonEmpty(cs[1..])
    else [cs[0]] + NonEmpty(cs[1..])
  }

  /** Filtering distributes over concatenation. */
  lemma {:induction false} NonEmptyAppend(a: seq<Value>, b: seq<Value>)
    ensures NonEmpty(a + b) == NonEmpty(a) + NonEmpty(b)
  {
    if |a| > 0 {
      assert (a + b)[1..] == a[1..] + b;
      NonEmptyAppend(a[1..], b);
    } else {
      assert a + b == b;
    }
  }

  function AddCalls(cs: seq<Value>, name: Value, src: Value): (r: seq<IndexCall>)
    ensures |r| == |cs| && forall i :: 0 <= i < |cs| ==> r[i] == AddImageFolder(cs[i], name, src)
  {
    seq(|cs|, i requires 0 <= i < |cs| => AddImageFolder(cs[i], name, src))
  }

  function RemoveCalls(cs: seq<Value>, name: Value): (r: seq<IndexCall>)
    ensures |r| == |cs| && forall i :: 0 <= i < |cs| ==> r[i] == RemoveImageFolder(cs[i], name)
  {
    seq(|cs|, i requires 0 <= i < |cs| => RemoveImageFolder(cs[i], name))
  }

  /** The calls of the insert path, in order: one registration per non-empty
      class. The arguments are read at the first registration, so the path
      fails exactly when the classes cannot be iterated, or when there is a
      class to register and an argument cannot be read. */
  function InsertCalls(data: Record): (r: Result<seq<IndexCall>>)
    ensures r.Ok? <==> InsertClasses(data).Ok? &&
                       (NonEmpty(InsertClasses(data).value) != [] ==> NameArg(data).Ok? && SrcArg(data).Ok?)
    ensures r.Ok? ==> (r.value == [] <==> NonEmpty(InsertClasses(data).value) == [])
    ensures "selected-classes" !in data ==> r == Ok([])
    ensures r.Ok? && r.value != [] ==> NameArg(data).Ok? && SrcArg(data).Ok?
    ensures r.Ok? && r.value != [] ==>
              InsertClasses(data).Ok?
              && r.value == AddCalls(NonEmpty(InsertClasses(data).value), NameArg(data).value, SrcArg(data).value)
  {
    match InsertClasses(data)
    case Err(e) => Err(e)
    case Ok(cs) =>
      var named := NonEmpty(cs);
      if named == [] then Ok([])
      else
        match NameArg(data)
        case Err(e) => Err(e)
        case Ok(name) =>
          match SrcArg(data)
          case Err(e) => Err(e)
          case Ok(src) => Ok(AddCalls(named, name, src))
  }

  /** The outcome of `saveRegionInDB` on the table: the table the caller holds
      afterwards (cells written in place stay written even when a later class
      call fails) and whether it returned normally. */
  datatype Upserted = Upserted(table: Table, ok: bool)

  /** Row `after` is row `before` with every column of `data` written, as `value[0]`
      when status is 0 and as `value` otherwise, and every other column kept. */
  ghost predicate Overwrites(after: Row, before: Row, data: Record, status: int)
  {
    && after.Keys == before.Keys + data.Keys
    && (forall k :: k in data ==> Cell(data[k], status) == Ok(after[k]))
    && (forall k :: k in before && k !in data ==> after[k] == before[k])
  }

  /** `saveRegionInDB` on the table. When the key is absent the record is
      appended as the last row and nothing else changes; when it is found the
      number of rows stays, only the first matching row can change, and it
      changes by having the record's columns written into it. */
  function UpsertTable(database: Table, col: string, uid: Value, data: Record, status: int): (o: Upserted)
    ensures FindInfoInDb(database, col, uid).None? && o.ok ==>
              && |o.table| == |database| + 1
              && o.table[..|database|] == database
              && o.table[|database|] == data
    ensures FindInfoInDb(database, col, uid).None? && !o.ok ==> o.table == database
    ensures FindInfoInDb(database, col, uid).Some? ==>
              var i := FindInfoInDb(database, col, uid).value;
              && |o.table| == |database|
              && (forall j :: 0 <= j < |database| && j != i ==> o.table[j] == database[j])
              && (o.ok ==> Overwrites(o.table[i], database[i], data, status))
              && (!o.ok ==> o.table == database || Overwrites(o.table[i], database[i], data, status))
    ensures FindInfoInDb(database, col, uid).Some? ==> "class" !in data ==> o == Upserted(database, false)
  {
    match FindInfoInDb(database, col, uid)
    case None =>
      if InsertCalls(data).Ok? then Upserted(database + [data], true) else Upserted(database, false)
    case Some(i) =>
      match UpdatePlan(database[i], data, status)
      case Err(_) => Upserted(database, false)
      case Ok(plan) =>
        Upserted(database[i := database[i] + plan.cells], UpdateCallsOk(data, plan.add, plan.remove))
  }

  /** When `saveRegionInDB` returns normally: on the insert path exactly when
      the insert calls can be made; on the update path exactly when the plan
      can be made and its calls too. A plan that cannot be made leaves the
      table as it was; once it is made the row is written, whatever the calls
      do afterwards. */
  lemma UpsertOutcome(database: Table, col: string, uid: Value, data: Record, status: int)
    ensures var o := UpsertTable(database, col, uid, data, status);
            FindInfoInDb(database, col, uid).None? ==> (o.ok <==> InsertCalls(data).Ok?)
    ensures var o := UpsertTable(database, col, uid, data, status);
            FindInfoInDb(database, col, uid).Some? ==>
              var i := FindInfoInDb(database, col, uid).value;
              var plan := UpdatePlan(database[i], data, status);
              && (plan.Err? ==> o == Upserted(database, false))
              && (plan.Ok? ==> && (o.ok <==> UpdateCallsOk(data, plan.value.add, plan.value.remove))
                               && Overwrites(o.table[i], database[i], data, status))
  {
  }

  /** `s` lists every element of `xs` exactly once, in some order. */
  ghost predicate Enumerates(s: seq<Value>, xs: set<Value>)
  {
    && (forall i, j :: 0 <= i < j < |s| ==> s[i] != s[j])
    && (forall i :: 0 <= i < |s| ==> s[i] in xs)
    && (forall x :: x in xs ==> x in s)
  }

  /** One more element taken from the rest extends an enumeration. */
  lemma EnumeratesExtend(s: seq<Value>, all: set<Value>, rest: set<Value>, c: Value)
    requires Enumerates(s, all - rest) && c in rest && rest <= all
    ensures Enumerates(s + [c], all - (rest - {c}))
  {
    assert all - (rest - {c}) == (all - rest) + {c};
  }

  /** An enumeration has as many entries as the set has elements. */
  lemma {:induction false} EnumerationSize(s: seq<Value>, xs: set<Value>)
    requires Enumerates(s, xs)
    ensures |s| == |xs|
  {
    if |s| == 0 {
      assert xs == {};
    } else {
      var rest := xs - {s[0]};
      forall x | x in rest ensures x in s[1..] {
        assert x in s;
        var i :| 0 <= i < |s| && s[i] == x;
        assert i != 0;
        assert s[1..][i - 1] == x;
      }
      forall i | 0 <= i < |s[1..]| ensures s[1..][i] in rest {
        assert s[1..][i] == s[i + 1] != s[0];
      }
      EnumerationSize(s[1..], rest);
    }
  }

  function CallClasses(calls: seq<IndexCall>): (r: seq<Value>)
    ensures |r| == |calls| && forall i :: 0 <= i < |calls| ==> r[i] == calls[i].cls
  {
    seq(|calls| , i requires 0 <= i < |calls| => calls[i].cls)
  }

  /** The calls made for a sequence of classes name those classes, in order. */
  lemma CallClassesOfCalls(cs: seq<Value>, name: Value, src: Value)
    ensures CallClasses(AddCalls(cs, name, src)) == cs
    ensures CallClasses(RemoveCalls(cs, name)) == cs
  {
  }

  /** The calls of an update once its plan is known: when the record carries
      `image-name` and the arguments can be read, each added class is
      registered once and then each removed class is unregistered once, each
      loop in the order Python iterates the set in. */
  ghost predicate UpdateEmits(data: Record, add: set<Value>, remove: set<Value>, calls: seq<IndexCall>)
  {
    if "image-name" !in data || !UpdateCallsOk(data, add, remove)
       || (add == {} && remove == {}) then calls == []
    else
      var n := |add|;
      var name := NameArg(data).value;
      && n <= |calls|
      && Enumerates(CallClasses(calls[..n]), add)
      && Enumerates(CallClasses(calls[n..]), remove)
      && (add != {} ==> calls[..n] == AddCalls(CallClasses(calls[..n]), name, SrcArg(data).value))
      && calls[n..] == RemoveCalls(CallClasses(calls[n..]), name)
  }

  /** The class-index calls `saveRegionInDB` makes: the insert path registers
      every non-empty class in order, the update path makes the calls of its
      plan, and a failure before the calls makes none. */
  ghost predicate UpsertEmits(database: Table, col: string, uid: Value, data: Record, status: int,
                              calls: seq<IndexCall>)
  {
    match FindInfoInDb(database, col, uid)
    case None => calls == (if InsertCalls(data).Ok? then InsertCalls(data).value else [])
    case Some(i) =>
      match UpdatePlan(database[i], data, status)
      case Err(_) => calls == []
      case Ok(plan) => UpdateEmits(data, plan.add, plan.remove, calls)
  }

  /** A record without `image-name` and `selected-classes`, such as a region
      record, makes no call into the category index. */
  lemma RegionRecordMakesNoCalls(database: Table, col: string, uid: Value, data: Record, status: int,
                                 calls: seq<IndexCall>)
    requires "image-name" !in data && "selected-classes" !in data
    requires UpsertEmits(database, col, uid, data, status, calls)
    ensures calls == []
  {
  }

  /** An update makes one registration per added class and one unregistration
      per removed class, and nothing else. */
  lemma UpdateCallCount(database: Table, col: string, uid: Value, data: Record, status: int,
                        calls: seq<IndexCall>)
    requires UpsertEmits(database, col, uid, data, status, calls)
    requires FindInfoInDb(database, col, uid).Some?
    requires "image-name" in data
    requires UpdatePlan(database[FindInfoInDb(database, col, uid).value], data, status).Ok?
    requires UpsertTable(database, col, uid, data, status).ok
    ensures var plan := UpdatePlan(database[FindInfoInDb(database, col, uid).value], data, status).value;
            |calls| == |plan.add| + |plan.remove|
  {
    var plan := UpdatePlan(database[FindInfoInDb(database, col, uid).value], data, status).value;
    if plan.add != {} || plan.remove != {} {
      var n := |plan.add|;
      EnumerationSize(CallClasses(calls[..n]), plan.add);
      EnumerationSize(CallClasses(calls[n..]), plan.remove);
    }
  }

  /** Table `t'` is table `t` after one upsert by region id `uid`: rows keep
      their ids and positions, rows with another id are untouched, new rows go
      to the end with the upserted id, and the number of rows with the
      upserted id becomes one if it was zero and stays as it was otherwise; no
      other id's count changes. */
  ghost predicate UpsertStepped(t: Table, t': Table, uid: Value)
  {
    && |t| <= |t'|
    && (forall j :: 0 <= j < |t| ==> ("region-id" in t'[j] <==> "region-id" in t[j]))
    && (forall j :: 0 <= j < |t| && "region-id" in t[j] ==> t'[j]["region-id"] == t[j]["region-id"])
    && (forall j :: 0 <= j < |t| && !KeyMatches(t[j], "region-id", uid) ==> t'[j] == t[j])
    && (forall j :: |t| <= j < |t'| ==> KeyMatches(t'[j], "region-id", uid))
    && (forall x :: CountKey(t', "region-id", x) ==
          if x == uid && CountKey(t, "region-id", x) == 0 then 1 else CountKey(t, "region-id", x))
  }

  /** A region upsert that returns is one such step, and the first row with
      the upserted id holds the record. */
  lemma RegionUpsertStep(t: Table, uid: Value, rec: Record)
    requires "region-id" in rec && rec["region-id"] == uid
    requires UpsertTable(t, "region-id", uid, rec, 1).ok
    ensures UpsertStepped(t, UpsertTable(t, "region-id", uid, rec, 1).table, uid)
    ensures Latest(UpsertTable(t, "region-id", uid, rec, 1).table, uid, rec)
  {
    var t' := UpsertTable(t, "region-id", uid, rec, 1).table;
    match FindInfoInDb(t, "region-id", uid)
    case None =>
      assert t' == t + [rec];
      CountKeyPositive(t, "region-id", uid);
      forall x ensures CountKey(t', "region-id", x) ==
                  if x == uid && CountKey(t, "region-id", x) == 0 then 1 else CountKey(t, "region-id", x) {
        CountKeyAppend(t, rec, "region-id", x);
      }
      forall j | 0 <= j < |t| ensures !KeyMatches(t'[j], "region-id", uid) {
        assert t'[j] == t[j];
      }
      assert FindInfoInDb(t', "region-id", uid) == Some(|t|);
    case Some(i) =>
      assert Overwrites(t'[i], t[i], rec, 1);
      assert t' == t[i := t'[i]];
      CountKeyReplace(t, i, t'[i], "region-id");
      CountKeyPositive(t, "region-id", uid);
      FindSameIds(t, t', uid);
  }

  /** An upsert of a record without `image-name`, such as a region record,
      fails only before it writes anything: its update path calls nothing, so
      once the plan is made the update goes through. */
  lemma FailedUpsertKeeps(t: Table, col: string, uid: Value, rec: Record, status: int)
    requires "image-name" !in rec
    requires !UpsertTable(t, col, uid, rec, status).ok
    ensures UpsertTable(t, col, uid, rec, status).table == t
  {
    UpsertOutcome(t, col, uid, rec, status);
  }

  /** An upsert of a record with exactly a table's columns keeps the table's schema. */
  lemma UpsertConforms(t: Table, col: string, uid: Value, rec: Record, status: int, columns: set<string>)
    requires Conforms(t, columns) && rec.Keys <= columns
    ensures Conforms(UpsertTable(t, col, uid, rec, status).table, columns)
  {
    var r := UpsertTable(t, col, uid, rec, status).table;
    forall j | 0 <= j < |r| ensures RowConforms(r[j], columns) {
      if j < |t| {
        assert RowConforms(t[j], columns);
      }
    }
  }

  /** Without `;` the classes are the characters of the strings, so changing
      the selected class from "cat" to "act" changes no class set at all. */
  lemma CharacterSetQuirk()
    ensures var row := map["selected-classes" := Str("cat")];
            var data := map["class" := Str("act"), "selected-classes" := List([Str("act")])];
            && ClassSets(row, data).Ok?
            && ClassSets(row, data).value.0 == ClassSets(row, data).value.1
            && GetListsAbsolute(ClassSets(row, data).value.1, ClassSets(row, data).value.0) == ({}, {})
  {
    var row := map["selected-classes" := Str("cat")];
    var data := map["class" := Str("act"), "selected-classes" := List([Str("act")])];
    assert CharSet("cat") == CharSet("act") by {
      assert "cat"[0] == "act"[1] && "cat"[1] == "act"[0] && "cat"[2] == "act"[2];
      forall x ensures x in CharSet("cat") <==> x in CharSet("act") {
        if x in CharSet("cat") {
          var c :| c in "cat" && x == Str([c]);
        }
      }
    }
    assert UnwrapSingle(data["selected-classes"]) == Str("act");
    assert ';' !in "act";
    assert ClassSets(row, data) == Ok((CharSet("cat"), CharSet("act")));
    assert CharSet("act") - CharSet("cat") == {};
  }

  /** The stored row and the record of the class-change example. */
  function ExampleRow(): Row
  {
    map["image-src" := Str("a.png"), "selected-classes" := Str("A;B")]
  }

  /** A hand-built update record. It has a `class` column, which no record
      `getImageData` builds has (see `ImageUpdateFails`), so that the update
      path gets past `data['class']` and reaches its class delta. */
  function ExampleData(): Record
  {
    map["image-name" := List([Str("a")]), "image-src" := List([Str("a.png")]),
        "class" := List([Str("B;C")]), "selected-classes" := List([Str("B;C")])]
  }

  lemma ExampleSplits()
    ensures PieceSet("A;B") == {Str("A"), Str("B")}
    ensures PieceSet("B;C") == {Str("B"), Str("C")}
  {
    SplitPlain("B", ';');
    SplitPlain("C", ';');
    SplitAfterPlain("A", "B", ';');
    SplitAfterPlain("B", "C", ';');
    assert "A" + [';'] + "B" == "A;B";
    assert "B" + [';'] + "C" == "B;C";
  }

  /** Changing the selected classes from `A;B` to `B;C` adds C and removes A. */
  lemma ExamplePlan()
    ensures UpdatePlan(ExampleRow(), ExampleData(), 0).Ok?
    ensures UpdatePlan(ExampleRow(), ExampleData(), 0).value.add == {Str("C")}
    ensures UpdatePlan(ExampleRow(), ExampleData(), 0).value.remove == {Str("A")}
  {
    ExampleSplits();
    assert ClassSets(ExampleRow(), ExampleData()) == Ok(({Str("A"), Str("B")}, {Str("B"), Str("C")}));
    assert Cells(ExampleData(), 0).Ok?;
  }

  /** A one-element set has exactly one enumeration. */
  lemma SingletonEnumeration(s: seq<Value>, x: Value)
    requires Enumerates(s, {x})
    ensures s == [x]
  {
    EnumerationSize(s, {x});
  }

  /** The calls of an update: the registrations of the added classes, then
      the unregistrations of the removed ones; an empty loop makes no call and
      reads no argument. */
  lemma UpdateCallsShape(data: Record, add: set<Value>, remove: set<Value>, calls: seq<IndexCall>)
    requires UpdateEmits(data, add, remove, calls)
    requires "image-name" in data && UpdateCallsOk(data, add, remove)
    ensures exists added: seq<Value>, removed: seq<Value> ::
              && Enumerates(added, add) && Enumerates(removed, remove)
              && calls == (if add == {} then [] else AddCalls(added, NameArg(data).value, SrcArg(data).value))
                          + (if remove == {} then [] else RemoveCalls(removed, NameArg(data).value))
  {
    if add == {} && remove == {} {
      assert Enumerates([], add) && Enumerates([], remove);
      assert calls == [] + [];
    } else {
      var n := |add|;
      var added, removed := CallClasses(calls[..n]), CallClasses(calls[n..]);
      assert calls == calls[..n] + calls[n..];
      if add == {} {
        EnumerationSize(added, add);
        assert calls[..n] == [];
      }
      if remove == {} {
        EnumerationSize(removed, remove);
        assert calls[n..] == [];
      }
      assert calls == (if add == {} then [] else AddCalls(added, NameArg(data).value, SrcArg(data).value))
                      + (if remove == {} then [] else RemoveCalls(removed, NameArg(data).value));
    }
  }

  lemma ExampleFound()
    ensures FindInfoInDb([ExampleRow()], "image-src", Str("a.png")) == Some(0)
  {
    assert KeyMatches(ExampleRow(), "image-src", Str("a.png"));
  }

  lemma ExampleArgs()
    ensures NameArg(ExampleData()) == Ok(Str("a")) && SrcArg(ExampleData()) == Ok(Str("a.png"))
    ensures "image-name" in ExampleData()
  {
  }

  /** The example goes down the update path with that delta. */
  lemma ExampleEmits(calls: seq<IndexCall>)
    requires UpsertEmits([ExampleRow()], "image-src", Str("a.png"), ExampleData(), 0, calls)
    ensures UpdateEmits(ExampleData(), {Str("C")}, {Str("A")}, calls)
  {
    ExampleFound();
    ExamplePlan();
  }

  /** The delta of the update path when the selected classes change from
      `A;B` to `B;C`: the image is registered under C and unregistered from A,
      and nothing happens for B. */
  lemma ClassDeltaExample(calls: seq<IndexCall>)
    requires UpsertEmits([ExampleRow()], "image-src", Str("a.png"), ExampleData(), 0, calls)
    ensures calls == [AddImageFolder(Str("C"), Str("a"), Str("a.png")), RemoveImageFolder(Str("A"), Str("a"))]
  {
    ExampleEmits(calls);
    ExampleArgs();
    SingletonDelta(ExampleData(), Str("C"), Str("A"), calls);
  }

  /** An update that adds one class and removes another registers the first,
      then unregisters the second. */
  lemma SingletonDelta(data: Record, x: Value, y: Value, calls: seq<IndexCall>)
    requires UpdateEmits(data, {x}, {y}, calls)
    requires "image-name" in data && NameArg(data).Ok? && SrcArg(data).Ok?
    ensures calls == [AddImageFolder(x, NameArg(data).value, SrcArg(data).value), RemoveImageFolder(y, NameArg(data).value)]
  {
    var name, src := NameArg(data).value, SrcArg(data).value;
    assert x in {x} && y in {y};
    UpdateCallsShape(data, {x}, {y}, calls);
    var added, removed :| && Enumerates(added, {x}) && Enumerates(removed, {y})
                          && calls == (if {x} == {} then [] else AddCalls(added, name, src))
                                      + (if {y} == {} then [] else RemoveCalls(removed, name));
    SingletonEnumeration(added, x);
    SingletonEnumeration(removed, y);
    assert calls == AddCalls([x], name, src) + RemoveCalls([y], name);
  }
}
