# Annotation store: upsert and reconcile

This project models the in-memory core of the annotation store `Module` in
`server/db/db_handler.py`. The store holds four tables: images, circle
regions, box regions and polygon regions. Each table is a sequence of rows,
and a row maps column names to values. The annotation tool sends a payload
for an image. The store then does four things:

- it builds a flat record from the payload (the image record and one region
  record per region);
- it upserts each record by its key: the first row holding the key is
  updated in place, otherwise the record is appended;
- it keeps a category index in step with the class set of an image;
- it drops the regions the payload no longer carries.

The model is in five modules:

- `PyValues` (`pyvalue.dfy`): the Python values of payloads and cells, and
  the Python operations the store applies to them. These are subscripting,
  `set(...)`, `in`, `str.split`, `str.join` and `str(...)`. An operation that
  raises in Python returns a `Result`.
- `Tables` (`tables.dfy`): tables as `seq<Row>`, and the key lookup
  `findInfoInDb`. It also has the `isin` filter and the `value_counts`/`add`
  arithmetic of the class distribution.
- `Records` (`records.dfy`): the record builders. These are `getImageData`,
  the shared region columns of `saveRegionInfo` and the geometry added by
  `circleRegion`, `boxRegion` and `polygonRegion`.
- `Reconcile` (`reconcile.dfy`): `saveRegionInDB` as a function on a table,
  `UpsertTable`. It also has the class-set delta (`get_lists_absolute`) and
  the calls made to the category index.
- `DbHandler` (`db_handler.dfy`): the class `Module`, with the four tables as
  fields. Its methods follow the source's loops:
  - the cell writes;
  - the registration and unregistration loops;
  - the insert-path registration loop;
  - the loop over the regions of a payload.

  Each method is proved against the functions of the other modules.

Outside calls are handled as follows:

- The category index (`add_image_folder`, `remove_image_folder`) is not
  called. Each call is appended to the field `indexCalls`.
- The update path iterates two Python sets, so the order of its calls is not
  fixed. Its contract only requires each class to be called exactly once, in
  some order (`Enumerates`).
- The constructor takes the four tables as they were read from disk.
- A handler that catches an exception returns `false`. The tables keep
  every change made before the raise. On failure the contracts say which
  regions were saved and which one failed, and why (`SaveFails`, `Synced`).
  On success they say that every region read its type and normalised
  (`AllNormalise`), and that the regions were saved one after the other
  with no save failing (`SavedSteps`, `Replayed`).

In a few places the code behaves differently from what its names suggest.
The model follows the code:

- **Single class strings.** Without a `;`, the old and new class sets on the
  update path are `set(<string>)`, the set of the string's characters, not a
  singleton (`ClassSets`, `CharacterSetQuirk`).
- **Image updates.** The update path evaluates `data['class']` before
  `selected-classes`. An image record has no `class` column, so updating an
  image that is already stored always fails (`ImageUpdateFails`).
- **Stored image source.** An inserted image row holds its source wrapped in
  a one-element list, as `DataFrame.from_dict` keeps it. Looking the bare
  source up again in the same session finds nothing, so the same image sent
  twice is appended twice (`ImageResendAppends`).
- **Stale ids.** Stale regions are dropped by id over every row of every
  region table, not only the rows of the current image
  (`StaleDeletionCrossesImages`).
- **Rows without an id.** A region row of the image without a `region-id`
  puts NaN into the stale set, and `isin` then drops every row without a
  `region-id`, of any image (`StaleNaNCrossesImages`).

## Model

| member | source | states |
|---|---|---|
| Tables.FindInfoInDb | server/db/db_handler.py:182-187 | Some(i) is the first row whose key column equals the value; None exactly when no row matches |
| Tables.FindSameIds | server/db/db_handler.py:182-187 | a table that keeps every row's id and only grows finds each id at the same position |
| Tables.LatestRow | server/db/db_handler.py:101-103 | in a table that keeps to a record's columns, the first row holding the record is the record |
| Tables.CountKeyPositive | server/db/db_handler.py:182-187 | a key has positive count exactly when some row holds it |
| Tables.CountKeyAppend | server/db/db_handler.py:119 | appending a row adds one to its own key's count and leaves every other count |
| Tables.CountKeyReplace | server/db/db_handler.py:101-103 | rewriting a row without changing its key cell leaves every key count |
| Tables.WithoutIds | server/db/db_handler.py:228-230 | `~isin`: a row is kept exactly when it is in the table and not dropped (its id is listed, or it has none and the list holds NaN), and the table gets no longer |
| Tables.WithoutIdsCounts | server/db/db_handler.py:228-230 | every kept row occurs as often as before, every dropped one not at all |
| Tables.WithoutIdsAppend | server/db/db_handler.py:228-230 | filtering distributes over concatenation, so the kept rows keep their order |
| Tables.WithoutIdsConforms | server/db/db_handler.py:228-230 | filtering keeps a table within its columns |
| Tables.RegionIds | server/db/db_handler.py:219-224 | the ids of the image's rows: every image row with an id gives its id, and every id comes from such a row |
| Tables.CountClassPositive | server/db/db_handler.py:281-283 | a class is counted exactly when some row holds it (a missing cell or None is not) |
| Tables.ValueCounts | server/db/db_handler.py:281-283 | `value_counts`: the keys are the classes that occur, each mapped to its number of rows |
| Tables.AddCounts | server/db/db_handler.py:281-283 | `add(..., fill_value=0)`: every class counts the sum of both sides, a missing side counting 0 |
| PyValues.Subscript | server/db/db_handler.py:223 | `v[key]` succeeds exactly on a dictionary holding the key and gives its value; anything but a dictionary raises a TypeError |
| PyValues.First | server/db/db_handler.py:102 | `value[0]` succeeds exactly on a non-empty string or list, and on a list gives its first item |
| PyValues.Iterate | server/db/db_handler.py:163 | iterating succeeds exactly on a list or a string: a list gives its items, a string its one-character strings in order; a number or None raises |
| PyValues.ToSet | server/db/db_handler.py:93-99 | `set(v)` of a string is the set of its one-character strings; of a list, its items; it fails on a number or None |
| PyValues.Split | server/db/db_handler.py:89-91 | `split(';')` gives at least one piece and no piece holds the separator |
| PyValues.JoinValue | server/db/db_handler.py:67 | `';'.join(v)` of a list of strings is their join; a number or None raises |
| PyValues.JoinSplit | server/db/db_handler.py:89-91 | joining the pieces of a split gives the string back |
| PyValues.SplitJoin | server/db/db_handler.py:125-126 | splitting the join of pieces that hold no separator gives the pieces back |
| PyValues.SplitPlain | server/db/db_handler.py:125-126 | a string without the separator splits into itself |
| PyValues.SplitAfterPlain | server/db/db_handler.py:125-126 | the split cuts exactly after a leading piece without the separator |
| PyValues.Decimal | server/db/db_handler.py:163 | `str(n)` is a non-empty string of digits with a leading `-` exactly when `n` is negative, and with no leading zero unless it is `0` |
| PyValues.DigitsRoundTrip | server/db/db_handler.py:163 | reading the digits of a natural number back gives the number |
| PyValues.DecimalRoundTrip | server/db/db_handler.py:163 | the text of an integer reads back as the integer: its sign, then its magnitude |
| PyValues.ToStr | server/db/db_handler.py:163 | `str(v)` succeeds on an integer, a string or None, giving its decimal text, the string itself and `None` |
| Records.RegionColumnsNotImage | server/db/db_handler.py:18-27 | no region table has the `image-name` or `selected-classes` column |
| Records.KindOfName | server/db/db_handler.py:49-55 | each of `circle`, `box` and `polygon` selects its own region method |
| Records.KindOfNames | server/db/db_handler.py:49-57 | a type selects a region method exactly when it is one of the three names, and otherwise falls to `otherRegion` |
| Records.TagsOf | server/db/db_handler.py:64-66 | `data.get('tags')` is never None afterwards: the tags when present and not None, the empty list otherwise |
| Records.RegionData | server/db/db_handler.py:59-67 | the shared region columns: id, image, class, comment defaulting to `''`, tags `;`-joined and `''` when missing or None; missing `id` or `cls` fails |
| Records.WithCoords | server/db/db_handler.py:143-157 | each coordinate name is added wrapped in a one-element list; the other columns stay; a missing `coords` or name fails |
| Records.CoordTexts | server/db/db_handler.py:163 | `str` of every coordinate, position by position |
| Records.PointText | server/db/db_handler.py:163 | a point's text exists exactly when the point iterates and every coordinate has a text; for a list it is the `-`-join of those texts |
| Records.PointTexts | server/db/db_handler.py:163 | the `-`-joined text of every point, position by position |
| Records.PolygonPoints | server/db/db_handler.py:163 | the points text exists exactly when the points iterate and every point has a text; for a list it is the `;`-join of the point texts |
| Records.WithPoints | server/db/db_handler.py:163 | the polygon record is built exactly when `data['points']` is present and its point texts can be made, and it is the shared record plus that `points` text |
| Records.KindRecord | server/db/db_handler.py:142-164 | the record of a kind is built exactly when that kind's geometry can be read (`GeometryReadable`), and it has the shared columns unchanged plus that kind's geometry columns |
| Records.NormaliseOutcome | server/db/db_handler.py:48-70 | `saveRegionInfo` fails exactly when the shared columns cannot be read, a known kind's geometry cannot be read, or an unknown type's region lacks `type`; a known kind that succeeds yields a record |
| Records.NormaliseRegion | server/db/db_handler.py:48-70 | a known type yields a record with exactly that kind's columns, its region id and its image; an unknown type yields no record, and needs `type` in the region |
| Records.NormalisedClass | server/db/db_handler.py:62 | a normalised region record holds the region's `cls` as its class, unchanged |
| Records.GetImageData | server/db/db_handler.py:170-180 | when the image record is built, and that it holds exactly the image columns, each value wrapped in a list, the classes `;`-joined, an empty size without `pixelSize` or with an empty one |
| Records.PolygonPointsInOrder | server/db/db_handler.py:163 | integer vertices serialise as `x1-y1;x2-y2;...` in input order |
| Records.PolygonPointsSplit | server/db/db_handler.py:163 | splitting the points text at `;` gives one `x-y` piece per vertex |
| Records.JoinPairTexts | server/db/db_handler.py:163 | the `;`-join of the vertex texts is the points text |
| Records.PointTextOfPair | server/db/db_handler.py:163 | one integer vertex is serialised as `x-y` |
| Records.PairTextPlain | server/db/db_handler.py:163 | a vertex text holds no `;` |
| Reconcile.GetListsAbsolute | server/db/db_handler.py:292-293 | the added and removed classes are disjoint, lie in the new and the old set respectively, and turn the old set into the new one |
| Reconcile.UnwrapSingle | server/db/db_handler.py:84-85 | the value is kept, or it is a one-element list and its string is taken; a non-list is always kept |
| Reconcile.ClassSets | server/db/db_handler.py:81-99 | without `class` in the record the update fails; without `selected-classes` both sets are character sets; with it, `;`-pieces when the new value holds `;` and character sets otherwise |
| Reconcile.Cells | server/db/db_handler.py:101-103 | the written cells are the record's columns, each `value[0]` when status is 0 and `value` otherwise; defined exactly when every unwrap succeeds |
| Reconcile.UpdatePlan | server/db/db_handler.py:81-105 | the update can be planned exactly when both class sets and all cells can be computed; it writes those cells, and its delta is disjoint, lies in the right sets and turns the old class set into the new one |
| Reconcile.InsertClasses | server/db/db_handler.py:121-128 | no `selected-classes` gives no class; a one-element list holding a string gives its `;`-pieces, which join back to it; any other value is iterated as it is |
| Reconcile.NonEmpty | server/db/db_handler.py:128-129 | keeps exactly the classes that are not the empty string, each as often as before |
| Reconcile.NonEmptyAppend | server/db/db_handler.py:128-129 | filtering out empty classes distributes over concatenation, so order is kept |
| Reconcile.InsertCalls | server/db/db_handler.py:121-131 | the insert path succeeds exactly when its classes iterate and, if one is non-empty, the name and source can be read; it calls nothing exactly when no class is non-empty, and otherwise registers the non-empty classes in order with the name and source |
| Reconcile.UpsertTable | server/db/db_handler.py:74-140 | absent key: on success the record is appended as the last row and the earlier rows are kept; found key: same row count, other rows unchanged, the found row overwritten column by column; a record without `class` fails on the update path and changes nothing |
| Reconcile.UpsertOutcome | server/db/db_handler.py:74-140 | the upsert returns normally on the insert path exactly when the insert calls can be made; on the update path a plan that cannot be made changes nothing, and once it is made the row is written and the call succeeds exactly when the plan's calls can be made |
| Reconcile.FailedUpsertKeeps | server/db/db_handler.py:74-111 | a failed upsert of a record without `image-name` leaves the table as it was |
| Reconcile.EnumeratesExtend | server/db/db_handler.py:107-111 | taking one more class from the rest of the set extends the iteration order |
| Reconcile.EnumerationSize | server/db/db_handler.py:107-111 | an iteration of a set has one entry per element |
| Reconcile.CallClassesOfCalls | server/db/db_handler.py:107-111 | the classes of the registrations, and of the unregistrations, of a class sequence are that sequence |
| Reconcile.RegionRecordMakesNoCalls | server/db/db_handler.py:106-121 | a record without `image-name` and `selected-classes` makes no category-index call |
| Reconcile.UpdateCallCount | server/db/db_handler.py:105-111 | an update makes exactly one call per added class plus one per removed class |
| Reconcile.UpdateCallsShape | server/db/db_handler.py:105-111 | the calls of every update are the registrations of the added classes, then the unregistrations of the removed ones, each class once; an empty loop makes no call |
| Reconcile.RegionUpsertStep | server/db/db_handler.py:74-140 | a region upsert keeps every row's position and id, touches only rows with its id, appends only its own id, leaves that id's count at one if new and unchanged if not, and its first row with the id holds the record |
| Reconcile.UpsertConforms | server/db/db_handler.py:101-119 | an upsert of a record within the table's columns keeps the table within them |
| Reconcile.CharacterSetQuirk | server/db/db_handler.py:93-95 | changing the class from `cat` to `act` gives equal character sets and no delta |
| Reconcile.ExampleSplits | server/db/db_handler.py:89-91 | `A;B` and `B;C` split into their two classes |
| Reconcile.ExamplePlan | server/db/db_handler.py:81-105 | changing `A;B` to `B;C` adds C and removes A |
| Reconcile.SingletonEnumeration | server/db/db_handler.py:107-111 | a one-element set iterates in one way only |
| Reconcile.ExampleFound | server/db/db_handler.py:182-187 | the stored example image is found at position 0 |
| Reconcile.ExampleArgs | server/db/db_handler.py:108-111 | the example's call arguments are its name and source |
| Reconcile.ExampleEmits | server/db/db_handler.py:76-111 | the example goes down the update path with that delta |
| Reconcile.SingletonDelta | server/db/db_handler.py:105-111 | an update that adds one class and removes another registers the first, then unregisters the second |
| Reconcile.ClassDeltaExample | server/db/db_handler.py:105-111 | from `A;B` to `B;C` the calls are exactly: register under C, then unregister from A |
| DbHandler.WriteCells | server/db/db_handler.py:101-103 | the loop writes every column of the record into the row as `Cells` gives it, and fails exactly when an unwrap fails |
| DbHandler.PayloadIds | server/db/db_handler.py:223 | the ids the payload carries, defined exactly when every region has an id |
| DbHandler.StaleIds | server/db/db_handler.py:219-227 | the ids stored for the image in any region table that the payload does not carry |
| DbHandler.RegionRecord | server/db/db_handler.py:48-70 | a region saves a record into the table of kind `k` only when its type names `k`; the record has that kind's columns, the region's id and the image's source |
| DbHandler.RegionRecordSaved | server/db/db_handler.py:48-70 | a region has a record for kind `k` exactly when it normalises to a record of that kind, and it is that record under the region's id |
| DbHandler.SavedRecordsNext | server/db/db_handler.py:233-234 | saving region `j` adds its record, if any, under its id, replacing an earlier record with the same id |
| DbHandler.SavedRecordsInPayload | server/db/db_handler.py:223-234 | every saved id is an id of the payload |
| DbHandler.SavedRecordsColumns | server/db/db_handler.py:48-70 | every saved record has the columns of its kind, its own id and the image's source |
| DbHandler.TracksStart | server/db/db_handler.py:233 | before any region is saved, each table tracks itself with nothing saved |
| DbHandler.TracksNeedsUpsert | server/db/db_handler.py:233-234 | a table with no row of an id does not track a record saved under that id |
| DbHandler.UpsertedIdsStep | server/db/db_handler.py:234 | one more upsert by an id keeps the row shape of the tracking relation, with the id added |
| DbHandler.LatestKept | server/db/db_handler.py:234 | an upsert by one id keeps the first row of every other id, and what it holds |
| DbHandler.TracksStep | server/db/db_handler.py:234 | one more successful region upsert keeps the tracking relation, with its record saved under its id |
| DbHandler.RegionSaveStep | server/db/db_handler.py:233-234 | saving region `j` keeps the tracking relation of every kind, with the records of regions `0..j` |
| DbHandler.SaveOutcome | server/db/db_handler.py:48-70 | saving a region succeeds exactly when `SaveFails` does not hold, and a failed save leaves all three tables |
| DbHandler.UnknownTypeNeverFails | server/db/db_handler.py:167-168 | a region of an unknown type with its shared columns present never makes the save fail, whatever the tables |
| DbHandler.RegionSaveSucceeds | server/db/db_handler.py:74-111 | a region that normalises, with a string class, never fails to save when every stored region row has a string class |
| DbHandler.SyncedRows | server/db/db_handler.py:233-234 | after a successful sync into tables that keep to their columns, the first row of every saved id is exactly the record of the last region with that id |
| DbHandler.UpdateEmitsNone | server/db/db_handler.py:105-111 | an update whose call arguments cannot be read makes no call |
| DbHandler.UpdateEmitsDone | server/db/db_handler.py:105-111 | when both call loops finish, the calls are the update's registrations then its unregistrations |
| DbHandler.TracksNoStale | server/db/db_handler.py:227-234 | when the filtered table drops nothing more and no saved id is stale, the saved table holds no row the filter would drop |
| DbHandler.TracksUnique | server/db/db_handler.py:233-234 | a table holding each region id at most once still does after the regions are saved |
| DbHandler.ImageUpdateFails | server/db/db_handler.py:81 | an image already stored under its source cannot be updated: the table stays, the call fails, nothing is called |
| DbHandler.ImageResendAppends | server/db/db_handler.py:113-119 | inserting an image stores its source in a list, so a second lookup of the same source finds nothing |
| DbHandler.ImageInsertRegisters | server/db/db_handler.py:121-131 | a new image is registered under exactly its non-empty classes, in order, with its name and source |
| DbHandler.StaleDeletionCrossesImages | server/db/db_handler.py:227-230 | a row of another image with a stale id is dropped too |
| DbHandler.StaleNaNCrossesImages | server/db/db_handler.py:224-230 | a row of the image without an id makes the stale set hold NaN, and every row without an id is then dropped, of any image, while rows with an id stay |
| DbHandler.Module.constructor | server/db/db_handler.py:16-31 | the store starts with the tables it is given and no category-index calls, and it is valid when the tables keep to their columns |
| DbHandler.Module.AddFolders | server/db/db_handler.py:106-108 | the loop registers every added class once, in the set's iteration order, and fails exactly when the arguments cannot be read |
| DbHandler.Module.RemoveFolders | server/db/db_handler.py:110-111 | the loop unregisters every removed class once, and fails exactly when the name cannot be read |
| DbHandler.Module.UpdateCalls | server/db/db_handler.py:105-111 | the calls appended are those `UpdateEmits` allows, and the step fails exactly when they cannot be made |
| DbHandler.Module.UpdateRow | server/db/db_handler.py:81-111 | the found row takes the record's cells, the class delta is the plan's, and the calls are the plan's |
| DbHandler.Module.SaveRegionInDB | server/db/db_handler.py:74-140 | the table and outcome are `UpsertTable`'s, and the calls appended are those `UpsertEmits` allows |
| DbHandler.Module.SaveRegionRecord | server/db/db_handler.py:149-164 | a region upsert is `UpsertTable`'s, calls nothing and keeps the table within its columns |
| DbHandler.Module.CircleRegion | server/db/db_handler.py:142-149 | only the circle table changes: it takes the upsert of the circle record by region id |
| DbHandler.Module.BoxRegion | server/db/db_handler.py:152-159 | only the box table changes: it takes the upsert of the box record by region id |
| DbHandler.Module.PolygonRegion | server/db/db_handler.py:162-164 | only the polygon table changes: it takes the upsert of the polygon record by region id |
| DbHandler.Module.OtherRegion | server/db/db_handler.py:167-168 | an unknown type succeeds exactly when the region has a `type` |
| DbHandler.Module.SaveKindRegion | server/db/db_handler.py:49-70 | the region method of a kind changes only that kind's table, by the upsert of its record |
| DbHandler.Module.SaveRegionInfo | server/db/db_handler.py:48-70 | every region table ends as `RegionSaved` says: unchanged on failure or an unknown type, otherwise the upsert of the normalised record into its kind's table; images and calls are untouched |
| DbHandler.Module.SaveImage | server/db/db_handler.py:216-217 | the image table takes the upsert of the image record by its source, the calls are `UpsertEmits`'s, the region tables stay |
| DbHandler.Module.SaveImageRecord | server/db/db_handler.py:217 | the image table takes `UpsertTable`'s upsert by the source, the calls appended are those `UpsertEmits` allows, and the table keeps to the image columns |
| DbHandler.Module.RemoveStaleRegions | server/db/db_handler.py:219-230 | each region table is its old self filtered by the stale ids and the NaN flag of the image, and keeps to its columns |
| DbHandler.Module.SaveRegionAt | server/db/db_handler.py:234 | saving region `j` succeeds exactly when `SaveFails` does not hold for the tables as they are; a failure changes no table, a success is a `SavedStep` and extends the tracking of every kind to regions `0..j` |
| DbHandler.SavedStepSucceeds | server/db/db_handler.py:234 | a successful save is one `SaveFails` rules out, and its region reads its type and normalises |
| DbHandler.StepsNormalise | server/db/db_handler.py:233-234 | every region passed over by successful saves normalises |
| DbHandler.Module.SaveRegions | server/db/db_handler.py:233-234 | the ghost `trace` holds the tables before each save, from the old tables to the current ones, each region saved without failing up to the end or up to `stop`; so success means no region failed, and then every region normalised and each table tracks its old self with its kind's records upserted; on failure the regions before `stop` were upserted and region `stop` fails against the tables as they are |
| DbHandler.Module.SyncRegions | server/db/db_handler.py:219-234 | unreadable payload ids fail and change nothing; otherwise no table keeps a row the stale filter drops, and the tables are the filtered ones with the saved records upserted, up to the first failing region on failure (`Synced`); success means every region normalised and every save succeeded (`Replayed`) |
| DbHandler.RegionWithoutTypeFails | server/db/db_handler.py:234 | a payload region without `type` makes the sync fail, whatever the tables |
| DbHandler.Module.HandleNewData | server/db/db_handler.py:214-240 | an image record that cannot be built fails and changes nothing; otherwise the image is upserted with its calls, a failed image upsert fails and leaves the region tables, and after a good one the regions are in `Synced` relation to the payload; success needs the image record, the image upsert and the payload ids; validity is kept, and on a valid store success leaves the first row of every saved id equal to the record of its last region (`RowsHold`) |
| DbHandler.Module.HandleActiveImageData | server/db/db_handler.py:242-250 | only the image table changes, by the upsert of the image record; the tables keep to their columns |
| DbHandler.Module.ClearDb | server/db/db_handler.py:258-264 | all four tables are empty and no category-index call is made |
| DbHandler.Module.GetClassDistribution | server/db/db_handler.py:277-286 | each class counts the sum of its rows over the three region tables, and only occurring classes appear |
| DbHandler.ClassDistributionExample | server/db/db_handler.py:277-286 | a circle and a box of class `cat` give `{cat: 2}` |

## Left out

- CSV persistence is file I/O and is not modelled: `readDataFromDatabase`, `checkFilesExistence`, `saveDataAutomatically` and every `to_csv` (lines 33-46, 210-212, 236, 246, 267-270).
- `generateUid` (lines 11-13) is not modelled, because `uuid.uuid1` is not deterministic; ids are inputs.
- The category index `db.category_handler`, and `createCategories` (lines 252-255) which only forwards to it, are not part of this model. Only the calls to the index are recorded.
- `print` diagnostics and `__str__` (lines 288-289) are not modelled.
- The unused `findInfoInPolygonDb`, `findInfoInBoxDb` and `findInfoInCircleDb` (lines 189-208) are not modelled.
- Exceptions are not modelled as objects: a handler's `try`/`except` becomes a `bool` result.
- pandas behaviour is not modelled:
  - dtype coercion;
  - index labels after filtering versus row positions;
  - NaN cells, other than as a missing column;
  - the float counts of `value_counts`/`add`;
  - the `TypeError` of putting an unhashable list or dict into a set.
- Iterating a dictionary and `str(...)` of a list or a dictionary give the error `NotModelled` instead of Python's result.
- DbHandler.WriteCells: when an unwrap raises part-way through the cell loop, pandas keeps the cells already written; the model writes nothing at all. The case cannot arise for region records (status 1 does not unwrap), nor for image records (their update fails earlier, at line 81).
- DbHandler.Module.AddFolders: the order in which Python iterates a set is not modelled; the contract only fixes that each class is called exactly once.
- DbHandler.Module.RemoveFolders: the set's iteration order is not modelled, as for AddFolders.
- Coordinates are integers or strings. Floating-point coordinates and their `str` formatting are not modelled.
