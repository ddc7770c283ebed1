/** The in-memory tables: a table is a sequence of rows, a row maps column
    names to cell values. A cell that is absent from a row plays the part of
    pandas' NaN: it never compares equal to a key and is not counted. */
module Tables {
  import opened PyValues

  type Row = map<string, Value>
  type Record = map<string, Value>
  type Table = seq<Row>

  /** `row[col] == uid`, the row test of `database[database[col] == uid]`. */
  predicate KeyMatches(row: Row, col: string, uid: Value)
  {
    col in row && row[col] == uid
  }

  /** No row of the table has a column outside the given ones (a row may lack
      some of them: those cells are NaN). */
  ghost predicate Conforms(t: Table, columns: set<string>)
  {
    forall i {:trigger RowConforms(t[i], columns)} :: 0 <= i < |t| ==> RowConforms(t[i], columns)
  }

  /** The row has no column outside the given ones. */
  ghost predicate RowConforms(row: Row, columns: set<string>)
  {
    row.Keys <= columns
  }

  /** `findInfoInDb`: the position of the first row whose key column equals
      `uid`, or None when no row matches. */
  function FindInfoInDb(database: Table, col: string, uid: Value): (r: Option<nat>)
    ensures r.Some? ==> r.value < |database| && KeyMatches(database[r.value], col, uid)
    ensures r.Some? ==> forall j :: 0 <= j < r.value ==> !KeyMatches(database[j], col, uid)
    ensures r.None? <==> forall j :: 0 <= j < |database| ==> !KeyMatches(database[j], col, uid)
  {
    if |database| == 0 then None
    else if KeyMatches(database[0], col, uid) then Some(0)
    else match FindInfoInDb(database[1..], col, uid)
      case None => None
      case Some(i) => Some(i + 1)
  }

  /** Row `row` holds every column of `rec` with its value. */
  ghost predicate Holds(row: Row, rec: Record)
  {
    forall c :: c in rec ==> c in row && row[c] == rec[c]
  }

  /** The first row of `t` with id `x`, the one an upsert by `x` writes, holds `rec`. */
  ghost predicate Latest(t: Table, x: Value, rec: Record)
  {
    FindInfoInDb(t, "region-id", x).Some? && Holds(t[FindInfoInDb(t, "region-id", x).value], rec)
  }

  /** In a table that keeps to `rec`'s columns, the row holding `rec` is `rec`. */
  lemma LatestRow(t: Table, x: Value, rec: Record, columns: set<string>)
    requires Latest(t, x, rec) && Conforms(t, columns) && rec.Keys == columns
    ensures t[FindInfoInDb(t, "region-id", x).value] == rec
  {
    var i := FindInfoInDb(t, "region-id", x).value;
    assert RowConforms(t[i], columns);
    assert t[i].Keys == rec.Keys;
  }

  /** The first row with an id depends only on the id cells up to it. */
  lemma FindSameIds(t: Table, t': Table, x: Value)
    requires FindInfoInDb(t, "region-id", x).Some? && |t| <= |t'|
    requires forall j :: 0 <= j < |t| ==> ("region-id" in t'[j] <==> "region-id" in t[j])
    requires forall j :: 0 <= j < |t| && "region-id" in t[j] ==> t'[j]["region-id"] == t[j]["region-id"]
    ensures FindInfoInDb(t', "region-id", x) == FindInfoInDb(t, "region-id", x)
  {
    var p := FindInfoInDb(t, "region-id", x).value;
    assert KeyMatches(t[p], "region-id", x);
    assert KeyMatches(t'[p], "region-id", x);
    var q := FindInfoInDb(t', "region-id", x);
    assert q.Some?;
    if q.value < p {
      assert false;
    } else if q.value > p {
      assert false;
    }
  }

  /** The number of rows whose key column equals `uid`. */
  function CountKey(t: Table, col: string, uid: Value): nat
  {
    if |t| == 0 then 0
    else (if KeyMatches(t[0], col, uid) then 1 else 0) + CountKey(t[1..], col, uid)
  }

  /** A key is counted exactly when some row holds it. */
  lemma {:induction false} CountKeyPositive(t: Table, col: string, uid: Value)
    ensures CountKey(t, col, uid) > 0 <==> exists j :: 0 <= j < |t| && KeyMatches(t[j], col, uid)
  {
    if |t| > 0 {
      CountKeyPositive(t[1..], col, uid);
      if KeyMatches(t[0], col, uid) {
      } else if CountKey(t[1..], col, uid) > 0 {
        var j :| 0 <= j < |t[1..]| && KeyMatches(t[1..][j], col, uid);
        assert KeyMatches(t[j + 1], col, uid);
      } else {
        forall j | 0 <= j < |t| ensures !KeyMatches(t[j], col, uid) {
          if j > 0 { assert t[j] == t[1..][j - 1]; }
        }
      }
    }
  }

  /** Appending a row adds one to the count of its own key only. */
  lemma {:induction false} CountKeyAppend(t: Table, row: Row, col: string, uid: Value)
    ensures CountKey(t + [row], col, uid) == CountKey(t, col, uid) + (if KeyMatches(row, col, uid) then 1 else 0)
  {
    if |t| == 0 {
      assert [row][1..] == [];
    } else {
      assert (t + [row])[1..] == t[1..] + [row];
      CountKeyAppend(t[1..], row, col, uid);
    }
  }

  /** Replacing a row by one with the same key cell leaves every count as it was. */
  lemma {:induction false} CountKeyReplace(t: Table, i: nat, row: Row, col: string)
    requires i < |t|
    requires (col in row <==> col in t[i]) && (col in row ==> row[col] == t[i][col])
    ensures forall uid :: CountKey(t[i := row], col, uid) == CountKey(t, col, uid)
  {
    if i > 0 {
      CountKeyReplace(t[1..], i - 1, row, col);
      assert t[i := row][1..] == t[1..][i - 1 := row];
    } else {
      assert t[i := row][1..] == t[1..];
    }
  }

  /** The region-id cell is present and one of `ids`. */
  predicate IdIn(row: Row, ids: set<Value>)
  {
    "region-id" in row && row["region-id"] in ids
  }

  /** `t['region-id'].isin(ids)` for one row. `isin` matches a NaN cell against
      a NaN among the values, so a row without a region-id is dropped exactly
      when `nan` says the listed values include NaN. */
  predicate Dropped(row: Row, ids: set<Value>, nan: bool)
  {
    if "region-id" in row then row["region-id"] in ids else nan
  }

  /** `t[~t['region-id'].isin(ids)]`: the rows that are not dropped, each as
      often as before, in their order (see `WithoutIdsAppend`). */
  function WithoutIds(t: Table, ids: set<Value>, nan: bool): (r: Table)
    ensures |r| <= |t|
    ensures forall row :: row in r <==> row in t && !Dropped(row, ids, nan)
  {
    if |t| == 0 then []
    else if Dropped(t[0], ids, nan) then WithoutIds(t[1..], ids, nan)
    else [t[0]] + WithoutIds(t[1..], ids, nan)
  }

  /** Filtering keeps every row it keeps as often as the table had it. */
  lemma {:induction false} WithoutIdsCounts(t: Table, ids: set<Value>, nan: bool)
    ensures forall row :: multiset(WithoutIds(t, ids, nan))[row] == if Dropped(row, ids, nan) then 0 else multiset(t)[row]
  {
    if |t| > 0 {
      assert t == [t[0]] + t[1..];
      WithoutIdsCounts(t[1..], ids, nan);
    }
  }

  /** Filtering works row by row: it distributes over concatenation, so the
      kept rows stay in their order. */
  lemma {:induction false} WithoutIdsAppend(a: Table, b: Table, ids: set<Value>, nan: bool)
    ensures WithoutIds(a + b, ids, nan) == WithoutIds(a, ids, nan) + WithoutIds(b, ids, nan)
  {
    if |a| > 0 {
      assert (a + b)[0] == a[0];
      assert (a + b)[1..] == a[1..] + b;
      WithoutIdsAppend(a[1..], b, ids, nan);
    } else {
      assert a + b == b;
    }
  }

  /** Filtering keeps a table's schema. */
  lemma WithoutIdsConforms(t: Table, ids: set<Value>, nan: bool, columns: set<string>)
    requires Conforms(t, columns)
    ensures Conforms(WithoutIds(t, ids, nan), columns)
  {
    var r := WithoutIds(t, ids, nan);
    forall i | 0 <= i < |r| ensures RowConforms(r[i], columns) {
      assert r[i] in r;
      var j :| 0 <= j < |t| && t[j] == r[i];
      assert RowConforms(t[j], columns);
    }
  }

  /** `set(t[t['image-src'] == src]['region-id'])` without its NaN: the ids
      stored for one image. */
  function RegionIds(t: Table, src: Value): (r: set<Value>)
    ensures forall i :: 0 <= i < |t| && KeyMatches(t[i], "image-src", src) && "region-id" in t[i] ==>
              t[i]["region-id"] in r
    ensures forall x :: x in r ==>
              exists i :: 0 <= i < |t| && KeyMatches(t[i], "image-src", src) && KeyMatches(t[i], "region-id", x)
  {
    set i | 0 <= i < |t| && KeyMatches(t[i], "image-src", src) && "region-id" in t[i] :: t[i]["region-id"]
  }

  /** Whether `set(t[t['image-src'] == src]['region-id'])` holds a NaN: some
      row of the image has no region-id. */
  predicate RegionNaN(t: Table, src: Value)
  {
    exists i :: 0 <= i < |t| && KeyMatches(t[i], "image-src", src) && "region-id" !in t[i]
  }

  /** The class of a row as `value_counts` sees it: a missing cell or None is dropped. */
  predicate HasClass(row: Row, c: Value)
  {
    c != Null && KeyMatches(row, "class", c)
  }

  /** The number of rows of class `c`. */
  function CountClass(t: Table, c: Value): nat
  {
    if |t| == 0 then 0
    else (if HasClass(t[0], c) then 1 else 0) + CountClass(t[1..], c)
  }

  /** The classes that occur in the table. */
  function Classes(t: Table): set<Value>
  {
    set i | 0 <= i < |t| && "class" in t[i] && t[i]["class"] != Null :: t[i]["class"]
  }

  /** A class is counted exactly when it occurs. */
  lemma {:induction false} CountClassPositive(t: Table, c: Value)
    ensures CountClass(t, c) > 0 <==> c in Classes(t)
  {
    if |t| > 0 {
      CountClassPositive(t[1..], c);
      if HasClass(t[0], c) {
        assert c in Classes(t);
      } else if c in Classes(t[1..]) {
        var i :| 0 <= i < |t[1..]| && HasClass(t[1..][i], c);
        assert HasClass(t[i + 1], c);
      } else {
        forall i | 0 <= i < |t| ensures !HasClass(t[i], c) {
          if i > 0 { assert t[i] == t[1..][i - 1]; }
        }
      }
    }
  }

  /** `t['class'].value_counts()`: every class that occurs, with its number of rows. */
  function ValueCounts(t: Table): (r: map<Value, nat>)
    ensures forall c :: c in r <==> CountClass(t, c) > 0
    ensures forall c :: c in r ==> r[c] == CountClass(t, c)
  {
    forall c ensures CountClass(t, c) > 0 <==> c in Classes(t) {
      CountClassPositive(t, c);
    }
    map c | c in Classes(t) :: CountClass(t, c)
  }

  /** The count a mapping gives a class, zero when it is absent. */
  function CountOf(m: map<Value, nat>, c: Value): nat
  {
    if c in m then m[c] else 0
  }

  /** `a.add(b, fill_value=0)`: counts add up, a class missing on one side counts 0 there. */
  function AddCounts(a: map<Value, nat>, b: map<Value, nat>): (r: map<Value, nat>)
    ensures forall c :: CountOf(r, c) == CountOf(a, c) + CountOf(b, c)
    ensures r.Keys == a.Keys + b.Keys
  {
    map c | c in a.Keys + b.Keys :: CountOf(a, c) + CountOf(b, c)
  }
}
