/**
 * The course-update generator: normalise both fetched course lists, index
 * each list by a key, intersect the two key lists, and emit the JEX row of
 * every shared key whose JEX and Canvas rows are not equal.
 */
module CourseUpdates {
  import opened Wrappers
  import opened Courses
  import opened Ramda

  /**
   * `list.map(normalize)` with a normaliser that may throw: the first
   * element that throws aborts the whole map with its error.
   */
  function MapOrThrow<A>(normalize: A -> Result<CsvCourse, Error>, s: seq<A>): (r: Result<seq<CsvCourse>, Error>)
    ensures r.Success? <==> forall i :: 0 <= i < |s| ==> normalize(s[i]).Success?
    ensures r.Success? ==> |r.value| == |s| && forall i :: 0 <= i < |s| ==> normalize(s[i]) == Success(r.value[i])
  {
    if s == [] then Success([])
    else
      match normalize(s[0])
      case Failure(e) => Failure(e)
      case Success(row) =>
        match MapOrThrow(normalize, s[1..])
        case Failure(e) => Failure(e)
        case Success(rows) => Success([row] + rows)
  }

  /** The error of a failed map is that of the first element that throws. */
  lemma {:induction false} MapOrThrowFirstFailure<A>(normalize: A -> Result<CsvCourse, Error>, s: seq<A>)
    ensures MapOrThrow(normalize, s).Failure? ==>
      exists i :: && 0 <= i < |s|
                  && normalize(s[i]) == Failure(MapOrThrow(normalize, s).error)
                  && forall j :: 0 <= j < i ==> normalize(s[j]).Success?
  {
    if s != [] && normalize(s[0]).Success? {
      MapOrThrowFirstFailure(normalize, s[1..]);
      if MapOrThrow(normalize, s).Failure? {
        var i :| && 0 <= i < |s[1..]|
                 && normalize(s[1..][i]) == Failure(MapOrThrow(normalize, s).error)
                 && forall j :: 0 <= j < i ==> normalize(s[1..][j]).Success?;
        assert normalize(s[i + 1]) == Failure(MapOrThrow(normalize, s).error);
      }
    }
  }

  /** The JEX courses normalised (line 58); the first missing course throws. */
  function JexRows(toIso: IsoConverter, jexCourses: seq<Option<JexCourse>>): (r: Result<seq<CsvCourse>, Error>)
    ensures r.Success? <==> forall i :: 0 <= i < |jexCourses| ==> jexCourses[i].Some?
    ensures r.Failure? ==> r.error == MissingArgument(MissingJexCourse)
    ensures r.Success? ==>
      && |r.value| == |jexCourses|
      && forall i :: 0 <= i < |jexCourses| ==> JexCourseToCanvasCsvFormat(toIso, jexCourses[i]) == Success(r.value[i])
  {
    var normalize := (c: Option<JexCourse>) => JexCourseToCanvasCsvFormat(toIso, c);
    MapOrThrowFirstFailure(normalize, jexCourses);
    MapOrThrow(normalize, jexCourses)
  }

  /** The Canvas courses normalised (line 59); the first missing course throws. */
  function CanvasRows(toIso: IsoConverter, canvasCourses: seq<Option<CanvasCourse>>): (r: Result<seq<CsvCourse>, Error>)
    ensures r.Success? <==> forall i :: 0 <= i < |canvasCourses| ==> canvasCourses[i].Some?
    ensures r.Failure? ==> r.error == MissingArgument(MissingCanvasCourse)
    ensures r.Success? ==>
      && |r.value| == |canvasCourses|
      && forall i :: 0 <= i < |canvasCourses| ==> CanvasApiCourseToCanvasCsvFormat(toIso, canvasCourses[i]) == Success(r.value[i])
  {
    var normalize := (c: Option<CanvasCourse>) => CanvasApiCourseToCanvasCsvFormat(toIso, c);
    MapOrThrowFirstFailure(normalize, canvasCourses);
    MapOrThrow(normalize, canvasCourses)
  }

  /**
   * The keys to reconcile for any pair of key selectors (lines 61-75): the
   * keys of both indexes, in the order the intersection gives them, whose
   * JEX and Canvas rows differ.
   */
  function CourseIdsToUpdate<K(==,!new)>(
    jexKey: CsvCourse -> K, canvasKey: CsvCourse -> K, jexRows: seq<CsvCourse>, canvasRows: seq<CsvCourse>
  ): (ids: seq<K>)
    ensures Distinct(ids)
    ensures forall k :: k in ids <==>
      && k in IndexBy(jexKey, jexRows)
      && k in IndexBy(canvasKey, canvasRows)
      && IndexBy(jexKey, jexRows)[k] != IndexBy(canvasKey, canvasRows)[k]
  {
    var jexIndex := IndexBy(jexKey, jexRows);
    var canvasIndex := IndexBy(canvasKey, canvasRows);
    var courseIdsInBoth := Intersection(IndexKeys(jexKey, jexRows), IndexKeys(canvasKey, canvasRows));
    // every key of courseIdsInBoth is in both indexes, so the membership tests never fail
    Filter(k => k in jexIndex && k in canvasIndex && jexIndex[k] != canvasIndex[k], courseIdsInBoth)
  }

  /** The rows to update: the JEX-side row of every key to reconcile (line 76). */
  function CoursesToUpdate<K(==,!new)>(
    jexKey: CsvCourse -> K, canvasKey: CsvCourse -> K, jexRows: seq<CsvCourse>, canvasRows: seq<CsvCourse>
  ): (updates: seq<CsvCourse>)
    ensures var ids := CourseIdsToUpdate(jexKey, canvasKey, jexRows, canvasRows);
      |updates| == |ids| && forall i :: 0 <= i < |ids| ==> updates[i] == IndexBy(jexKey, jexRows)[ids[i]]
  {
    var jexIndex := IndexBy(jexKey, jexRows);
    var ids := CourseIdsToUpdate(jexKey, canvasKey, jexRows, canvasRows);
    seq(|ids|, i requires 0 <= i < |ids| => jexIndex[ids[i]])
  }

  /**
   * The diff against the reference definition of the indexes: the keys
   * emitted are distinct; each is a key of both lists whose last JEX row and
   * last Canvas row differ, and the row emitted for it is that JEX row,
   * never the Canvas one; every such key is emitted.
   */
  lemma CoursesToUpdateCorrect<K(!new)>(
    jexKey: CsvCourse -> K, canvasKey: CsvCourse -> K, jexRows: seq<CsvCourse>, canvasRows: seq<CsvCourse>)
    ensures var ids := CourseIdsToUpdate(jexKey, canvasKey, jexRows, canvasRows);
      var updates := CoursesToUpdate(jexKey, canvasKey, jexRows, canvasRows);
      && |updates| == |ids|
      && Distinct(ids)
      && (forall i :: 0 <= i < |ids| ==>
            && LastWithKey(jexKey, jexRows, ids[i]) == Some(updates[i])
            && LastWithKey(canvasKey, canvasRows, ids[i]).Some?
            && LastWithKey(canvasKey, canvasRows, ids[i]).value != updates[i]
            && jexKey(updates[i]) == ids[i])
      && (forall k ::
            && LastWithKey(jexKey, jexRows, k).Some?
            && LastWithKey(canvasKey, canvasRows, k).Some?
            && LastWithKey(jexKey, jexRows, k) != LastWithKey(canvasKey, canvasRows, k)
            ==> k in ids)
  {
    var ids := CourseIdsToUpdate(jexKey, canvasKey, jexRows, canvasRows);
    var jexIndex := IndexBy(jexKey, jexRows);
    IndexByLastWins(jexKey, jexRows);
    IndexByLastWins(canvasKey, canvasRows);
    forall i | 0 <= i < |ids| ensures jexKey(jexIndex[ids[i]]) == ids[i] {
      var j :| IsLastWithKey(jexKey, jexRows, ids[i], j) && jexIndex[ids[i]] == jexRows[j];
    }
  }

  /**
   * The reconciliation for any pair of key selectors (lines 58-76): normalise
   * the JEX courses, then the Canvas courses (the first missing course
   * throws), then diff the two row lists.
   */
  function ReconcileCourses<K(==,!new)>(
    toIso: IsoConverter, jexKey: CsvCourse -> K, canvasKey: CsvCourse -> K,
    jexCourses: seq<Option<JexCourse>>, canvasCourses: seq<Option<CanvasCourse>>
  ): (r: Result<seq<CsvCourse>, Error>)
    ensures r.Success? <==> JexRows(toIso, jexCourses).Success? && CanvasRows(toIso, canvasCourses).Success?
    ensures r.Success? ==>
      r.value == CoursesToUpdate(jexKey, canvasKey, JexRows(toIso, jexCourses).value, CanvasRows(toIso, canvasCourses).value)
  {
    match JexRows(toIso, jexCourses)
    case Failure(e) => Failure(e)
    case Success(jexRows) =>
      match CanvasRows(toIso, canvasCourses)
      case Failure(e) => Failure(e)
      case Success(canvasRows) => Success(CoursesToUpdate(jexKey, canvasKey, jexRows, canvasRows))
  }

  /**
   * Errors abort the run: it fails exactly when some course of either list
   * is missing, with the JEX message when a JEX course is missing (that list
   * is normalised first) and the Canvas message otherwise. When either list
   * is empty there is nothing to update.
   */
  lemma ReconcileCoursesOutcome<K(!new)>(
    toIso: IsoConverter, jexKey: CsvCourse -> K, canvasKey: CsvCourse -> K,
    jexCourses: seq<Option<JexCourse>>, canvasCourses: seq<Option<CanvasCourse>>)
    ensures var r := ReconcileCourses(toIso, jexKey, canvasKey, jexCourses, canvasCourses);
      && (r.Failure? <==>
            (exists i :: 0 <= i < |jexCourses| && jexCourses[i].None?) ||
            (exists i :: 0 <= i < |canvasCourses| && canvasCourses[i].None?))
      && ((exists i :: 0 <= i < |jexCourses| && jexCourses[i].None?) ==>
            r == Failure(MissingArgument(MissingJexCourse)))
      && (r.Failure? && (forall i :: 0 <= i < |jexCourses| ==> jexCourses[i].Some?) ==>
            r == Failure(MissingArgument(MissingCanvasCourse)))
      && (r.Success? && (jexCourses == [] || canvasCourses == []) ==> r.value == [])
  {
    var r := ReconcileCourses(toIso, jexKey, canvasKey, jexCourses, canvasCourses);
    if r.Success? && (jexCourses == [] || canvasCourses == []) {
      CoursesToUpdateCorrect(jexKey, canvasKey, JexRows(toIso, jexCourses).value, CanvasRows(toIso, canvasCourses).value);
    }
  }

  /**
   * The key selector of line 61, `c => c.id`, applied to a normalised row
   * and used as an object key. The row has no `id` property, so every row
   * gets the key "undefined".
   */
  function JexIdSelector(row: CsvCourse): (k: string)
    ensures k == "undefined"
  {
    PropertyKey(Property(row, "id"))
  }

  /**
   * The key selector of line 62, `c => c.sis_course_id`, applied to a
   * normalised row. The row has no `sis_course_id` property either, so
   * every row gets the key "undefined".
   */
  function CanvasIdSelector(row: CsvCourse): (k: string)
    ensures k == "undefined"
  {
    PropertyKey(Property(row, "sis_course_id"))
  }

  /**
   * The generator as written: lines 58-76 with the selectors of lines 61-62.
   * It fails exactly when a course is missing, and otherwise emits at most one row.
   */
  function GenerateCourseUpdates(
    toIso: IsoConverter, jexCourses: seq<Option<JexCourse>>, canvasCourses: seq<Option<CanvasCourse>>
  ): (r: Result<seq<CsvCourse>, Error>)
    ensures r.Success? <==>
      && (forall i :: 0 <= i < |jexCourses| ==> jexCourses[i].Some?)
      && (forall i :: 0 <= i < |canvasCourses| ==> canvasCourses[i].Some?)
    ensures r.Success? ==> |r.value| <= 1
  {
    var r := ReconcileCourses(toIso, JexIdSelector, CanvasIdSelector, jexCourses, canvasCourses);
    if r.Failure? then r
    else
      ConstantKeyUpdatesCollapse(
        JexIdSelector, CanvasIdSelector, "undefined", JexRows(toIso, jexCourses).value, CanvasRows(toIso, canvasCourses).value);
      r
  }

  /** Indexing with a constant key keeps only the last element. */
  lemma ConstantKeyIndexCollapses<T(!new), K(!new)>(key: T -> K, s: seq<T>, k0: K)
    requires forall x :: key(x) == k0
    ensures s == [] ==> IndexBy(key, s) == map[]
    ensures s != [] ==> IndexBy(key, s) == map[k0 := s[|s| - 1]]
    ensures |IndexBy(key, s)| <= 1
  {
    var index := IndexBy(key, s);
    IndexByLastWins(key, s);
    if s != [] {
      assert key(s[|s| - 1]) == k0;
      var i :| IsLastWithKey(key, s, k0, i) && index[k0] == s[i];
      assert i == |s| - 1;
      assert index.Keys == {k0};
      assert index == map[k0 := s[|s| - 1]];
    }
  }

  /**
   * When both selectors give one constant key, at most one row is emitted;
   * exactly one when both lists are non-empty and their last rows differ,
   * and that row is the last JEX row.
   */
  lemma ConstantKeyUpdatesCollapse<K(!new)>(
    jexKey: CsvCourse -> K, canvasKey: CsvCourse -> K, k0: K, jexRows: seq<CsvCourse>, canvasRows: seq<CsvCourse>)
    requires forall row :: jexKey(row) == k0
    requires forall row :: canvasKey(row) == k0
    ensures var updates := CoursesToUpdate(jexKey, canvasKey, jexRows, canvasRows);
      && |updates| <= 1
      && (|updates| == 1 <==>
            jexRows != [] && canvasRows != [] && jexRows[|jexRows| - 1] != canvasRows[|canvasRows| - 1])
      && (|updates| == 1 ==> updates[0] == jexRows[|jexRows| - 1])
  {
    var ids := CourseIdsToUpdate(jexKey, canvasKey, jexRows, canvasRows);
    var jexIndex, canvasIndex := IndexBy(jexKey, jexRows), IndexBy(canvasKey, canvasRows);
    ConstantKeyIndexCollapses(jexKey, jexRows, k0);
    ConstantKeyIndexCollapses(canvasKey, canvasRows, k0);
    assert forall k :: k in ids ==> k in jexIndex;
    assert jexIndex.Keys <= {k0};
    SameKeyAtMostOnce(ids, k0);
    if jexRows != [] && canvasRows != [] && jexRows[|jexRows| - 1] != canvasRows[|canvasRows| - 1] {
      assert k0 in ids;
    }
    if |ids| == 1 {
      assert ids[0] in ids;
    }
  }

  /** The first two elements of a list without repetitions are two different elements of it. */
  lemma FirstTwoDiffer<K>(ids: seq<K>)
    ensures Distinct(ids) && |ids| >= 2 ==> ids[0] in ids && ids[1] in ids && ids[0] != ids[1]
  {
  }

  /** A list without repetitions whose every element is `k0` has at most one element. */
  lemma SameKeyAtMostOnce<K>(ids: seq<K>, k0: K)
    requires Distinct(ids)
    requires forall k :: k in ids ==> k == k0
    ensures |ids| <= 1
  {
    if |ids| >= 2 {
      FirstTwoDiffer(ids);
    }
  }

  /**
   * The generator as written emits at most one row: none when a list is
   * empty, and otherwise the last normalised JEX course exactly when it
   * differs from the last normalised Canvas course, whatever the ids.
   */
  lemma GenerateCourseUpdatesCollapses(
    toIso: IsoConverter, jexCourses: seq<Option<JexCourse>>, canvasCourses: seq<Option<CanvasCourse>>)
    ensures var r := GenerateCourseUpdates(toIso, jexCourses, canvasCourses);
      r.Success? ==>
        && |r.value| <= 1
        && (|r.value| == 1 <==>
              && jexCourses != [] && canvasCourses != []
              && JexCourseToCanvasCsvFormat(toIso, jexCourses[|jexCourses| - 1])
                 != CanvasApiCourseToCanvasCsvFormat(toIso, canvasCourses[|canvasCourses| - 1]))
        && (|r.value| == 1 ==>
              Success(r.value[0]) == JexCourseToCanvasCsvFormat(toIso, jexCourses[|jexCourses| - 1]))
  {
    var r := GenerateCourseUpdates(toIso, jexCourses, canvasCourses);
    if r.Success? {
      ConstantKeyUpdatesCollapse(
        JexIdSelector, CanvasIdSelector, "undefined", JexRows(toIso, jexCourses).value, CanvasRows(toIso, canvasCourses).value);
    }
  }

  /** The key lines 61-62 evidently mean: the row's course_id, used as an object key. */
  function CourseIdSelector(row: CsvCourse): (k: string)
    ensures row.course_id.Str? ==> k == row.course_id.text
  {
    PropertyKey(Property(row, "course_id"))
  }

  /**
   * The generator with both lists keyed by course_id, as the comment at
   * lines 64-65 describes. It fails exactly when a course is missing, and
   * otherwise no two emitted rows share a course id.
   */
  function GenerateCourseUpdatesByCourseId(
    toIso: IsoConverter, jexCourses: seq<Option<JexCourse>>, canvasCourses: seq<Option<CanvasCourse>>
  ): (r: Result<seq<CsvCourse>, Error>)
    ensures r.Success? <==>
      && (forall i :: 0 <= i < |jexCourses| ==> jexCourses[i].Some?)
      && (forall i :: 0 <= i < |canvasCourses| ==> canvasCourses[i].Some?)
    ensures r.Success? ==> forall i, j :: 0 <= i < j < |r.value| ==> r.value[i].course_id != r.value[j].course_id
  {
    var r := ReconcileCourses(toIso, CourseIdSelector, CourseIdSelector, jexCourses, canvasCourses);
    if r.Failure? then r
    else
      UpdatesComeFromBothLists(
        CourseIdSelector, CourseIdSelector, JexRows(toIso, jexCourses).value, CanvasRows(toIso, canvasCourses).value);
      r
  }

  /**
   * For any selectors, every emitted row is a JEX row whose key is also the
   * key of some Canvas row, and no two emitted rows share a key.
   */
  lemma UpdatesComeFromBothLists<K(!new)>(
    jexKey: CsvCourse -> K, canvasKey: CsvCourse -> K, jexRows: seq<CsvCourse>, canvasRows: seq<CsvCourse>)
    ensures var updates := CoursesToUpdate(jexKey, canvasKey, jexRows, canvasRows);
      && (forall i :: 0 <= i < |updates| ==>
            && updates[i] in jexRows
            && exists c :: 0 <= c < |canvasRows| && canvasKey(canvasRows[c]) == jexKey(updates[i]))
      && (forall i, j :: 0 <= i < j < |updates| ==> jexKey(updates[i]) != jexKey(updates[j]))
  {
    var ids := CourseIdsToUpdate(jexKey, canvasKey, jexRows, canvasRows);
    var updates := CoursesToUpdate(jexKey, canvasKey, jexRows, canvasRows);
    CoursesToUpdateCorrect(jexKey, canvasKey, jexRows, canvasRows);
    forall i | 0 <= i < |updates|
      ensures updates[i] in jexRows
      ensures exists c :: 0 <= c < |canvasRows| && canvasKey(canvasRows[c]) == jexKey(updates[i])
    {
      LastWithKeyIsLast(jexKey, jexRows, ids[i]);
      LastWithKeyIsLast(canvasKey, canvasRows, ids[i]);
      var j :| IsLastWithKey(jexKey, jexRows, ids[i], j) && jexRows[j] == updates[i];
      var c :| IsLastWithKey(canvasKey, canvasRows, ids[i], c);
    }
  }

  /**
   * Keyed by course_id, every emitted row is a normalised JEX course whose
   * id is also the SIS id of a fetched Canvas course, and no two emitted
   * rows share a course id.
   */
  lemma ByCourseIdEmitsOnlySharedCourses(
    toIso: IsoConverter, jexCourses: seq<Option<JexCourse>>, canvasCourses: seq<Option<CanvasCourse>>)
    ensures var r := GenerateCourseUpdatesByCourseId(toIso, jexCourses, canvasCourses);
      r.Success? ==>
        && (forall i :: 0 <= i < |r.value| ==>
              && (exists j :: 0 <= j < |jexCourses| && JexCourseToCanvasCsvFormat(toIso, jexCourses[j]) == Success(r.value[i]))
              && (exists c :: && 0 <= c < |canvasCourses| && canvasCourses[c].Some?
                              && PropertyKey(canvasCourses[c].value.sis_course_id) == PropertyKey(r.value[i].course_id)))
        && (forall i, j :: 0 <= i < j < |r.value| ==>
              PropertyKey(r.value[i].course_id) != PropertyKey(r.value[j].course_id))
  {
    var r := GenerateCourseUpdatesByCourseId(toIso, jexCourses, canvasCourses);
    if r.Success? {
      var jexRows := JexRows(toIso, jexCourses).value;
      var canvasRows := CanvasRows(toIso, canvasCourses).value;
      UpdatesComeFromBothLists(CourseIdSelector, CourseIdSelector, jexRows, canvasRows);
      forall i | 0 <= i < |r.value|
        ensures exists j :: 0 <= j < |jexCourses| && JexCourseToCanvasCsvFormat(toIso, jexCourses[j]) == Success(r.value[i])
        ensures exists c :: && 0 <= c < |canvasCourses| && canvasCourses[c].Some?
                            && PropertyKey(canvasCourses[c].value.sis_course_id) == PropertyKey(r.value[i].course_id)
      {
        var j :| 0 <= j < |jexRows| && jexRows[j] == r.value[i];
        assert JexCourseToCanvasCsvFormat(toIso, jexCourses[j]) == Success(r.value[i]);
        var c :| 0 <= c < |canvasRows| && CourseIdSelector(canvasRows[c]) == CourseIdSelector(r.value[i]);
        assert CanvasApiCourseToCanvasCsvFormat(toIso, canvasCourses[c]) == Success(canvasRows[c]);
      }
    }
  }

  /** A JEX course and a Canvas course that share nothing: different ids, codes and names. */
  const ArtHistory := JexCourse(Str("AH-1000-01-W20"), Str("Art History"), Str("2020-01-01"), Null)
  const Biology := CanvasCourse(Str("BIO-1000-01-W20"), Str("BIO 1000 01"), Str("Biology"), Str("2020-01-01"), Null)

  /** As written, the JEX course is reported as an update although no Canvas course has its id. */
  lemma AsWrittenReportsUnsharedCourse(toIso: IsoConverter)
    ensures ArtHistory.id != Biology.sis_course_id
    ensures GenerateCourseUpdates(toIso, [Some(ArtHistory)], [Some(Biology)])
         == Success([JexCourseToCanvasCsvFormat(toIso, Some(ArtHistory)).value])
  {
    assert "AH-1000-01-W20"[0] != "BIO-1000-01-W20"[0];
    var jex, canvas := [Some(ArtHistory)], [Some(Biology)];
    NormalizedRowsEqualIff(toIso, ArtHistory, Biology);
    GenerateCourseUpdatesCollapses(toIso, jex, canvas);
    var r := GenerateCourseUpdates(toIso, jex, canvas);
    assert JexRows(toIso, jex).Success? && CanvasRows(toIso, canvas).Success?;
    assert jex[|jex| - 1] == Some(ArtHistory) && canvas[|canvas| - 1] == Some(Biology);
    assert |r.value| == 1;
    assert r.value == [r.value[0]];
  }

  /** Keyed by course_id, the same two courses produce no update. */
  lemma ByCourseIdIgnoresUnsharedCourse(toIso: IsoConverter)
    ensures GenerateCourseUpdatesByCourseId(toIso, [Some(ArtHistory)], [Some(Biology)]) == Success([])
  {
    assert "AH-1000-01-W20"[0] != "BIO-1000-01-W20"[0];
    var jex, canvas := [Some(ArtHistory)], [Some(Biology)];
    var r := GenerateCourseUpdatesByCourseId(toIso, jex, canvas);
    assert JexRows(toIso, jex).Success? && CanvasRows(toIso, canvas).Success?;
    ByCourseIdEmitsOnlySharedCourses(toIso, jex, canvas);
  }
}
