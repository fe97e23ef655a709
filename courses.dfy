/**
 * The two systems' course records and their normalisation into one row of the
 * Canvas SIS courses.csv import (columns course_id, short_name, long_name,
 * status, start_date, end_date).
 */
module Courses {
  import opened Wrappers

  /**
   * A field value as JavaScript sees it: `undefined` (the field is absent),
   * `null`, or a text. Structural equality tells `undefined` and `null` apart.
   */
  datatype JsValue = Undefined | Null | Str(text: string)

  /** A course as the JEX scheduling system reports it. */
  datatype JexCourse = JexCourse(
    id: JsValue,
    name: JsValue,
    openDate: JsValue,
    closeDate: JsValue)

  /** A course as the Canvas API reports it. */
  datatype CanvasCourse = CanvasCourse(
    sis_course_id: JsValue,
    course_code: JsValue,
    name: JsValue,
    start_date: JsValue,
    end_date: JsValue)

  /**
   * The canonical comparison record: one row of the SIS CSV course import.
   * A field copied from an absent source field is `undefined`, one copied from
   * a null source field is `null`.
   */
  datatype CsvCourse = CsvCourse(
    course_id: JsValue,
    short_name: JsValue,
    long_name: JsValue,
    status: string,
    start_date: JsValue,
    end_date: JsValue)

  /** The error a normaliser throws. */
  datatype Error = MissingArgument(message: string)

  /**
   * Re-emitting a date through the date library: parse an ISO-8601 text and
   * print it back in canonical ISO-8601 form; a value that does not parse
   * prints as null. The library is not part of this model, so the conversion
   * is supplied by the caller, and the same one is used for both systems.
   */
  type IsoConverter = JsValue -> JsValue

  const Active := "active"
  const MissingJexCourse := "missing required argument jexCourse"
  const MissingCanvasCourse := "missing required argument: canvasCourse"

  /**
   * Normalises a JEX course. `None` stands for a missing (falsy) argument,
   * which throws; any record present is converted.
   */
  function JexCourseToCanvasCsvFormat(toIso: IsoConverter, jexCourse: Option<JexCourse>): (r: Result<CsvCourse, Error>)
    ensures r.Failure? <==> jexCourse.None?
    ensures r.Failure? ==> r.error == MissingArgument(MissingJexCourse)
    ensures r.Success? ==>
      && r.value.course_id == jexCourse.value.id
      && r.value.short_name == jexCourse.value.id
      && r.value.long_name == jexCourse.value.name
      && r.value.status == Active
      && r.value.start_date == toIso(jexCourse.value.openDate)
      && r.value.end_date == toIso(jexCourse.value.closeDate)
  {
    match jexCourse
    case None => Failure(MissingArgument(MissingJexCourse))
    case Some(c) =>
      Success(CsvCourse(c.id, c.id, c.name, Active, toIso(c.openDate), toIso(c.closeDate)))
  }

  /**
   * Normalises a Canvas course. `None` stands for a missing (falsy) argument,
   * which throws; any record present is converted.
   */
  function CanvasApiCourseToCanvasCsvFormat(toIso: IsoConverter, canvasCourse: Option<CanvasCourse>): (r: Result<CsvCourse, Error>)
    ensures r.Failure? <==> canvasCourse.None?
    ensures r.Failure? ==> r.error == MissingArgument(MissingCanvasCourse)
    ensures r.Success? ==>
      && r.value.course_id == canvasCourse.value.sis_course_id
      && r.value.short_name == canvasCourse.value.course_code
      && r.value.long_name == canvasCourse.value.name
      && r.value.status == Active
      && r.value.start_date == toIso(canvasCourse.value.start_date)
      && r.value.end_date == toIso(canvasCourse.value.end_date)
  {
    match canvasCourse
    case None => Failure(MissingArgument(MissingCanvasCourse))
    case Some(c) =>
      Success(CsvCourse(c.sis_course_id, c.course_code, c.name, Active, toIso(c.start_date), toIso(c.end_date)))
  }

  /**
   * Structural equality of two normalised rows, stated on the raw records:
   * a JEX course and a Canvas course normalise to equal rows exactly when
   * the Canvas SIS id and the Canvas course code both equal the JEX id, the
   * names agree, and both dates convert to the same canonical text.
   */
  lemma NormalizedRowsEqualIff(toIso: IsoConverter, j: JexCourse, c: CanvasCourse)
    ensures JexCourseToCanvasCsvFormat(toIso, Some(j)) == CanvasApiCourseToCanvasCsvFormat(toIso, Some(c))
        <==> && c.sis_course_id == j.id
             && c.course_code == j.id
             && c.name == j.name
             && toIso(c.start_date) == toIso(j.openDate)
             && toIso(c.end_date) == toIso(j.closeDate)
  {
  }

  /** Every row either normaliser produces has status "active", whatever the input. */
  lemma NormalizedStatusIsActive(toIso: IsoConverter, j: Option<JexCourse>, c: Option<CanvasCourse>)
    ensures JexCourseToCanvasCsvFormat(toIso, j).Success? ==> JexCourseToCanvasCsvFormat(toIso, j).value.status == "active"
    ensures CanvasApiCourseToCanvasCsvFormat(toIso, c).Success? ==> CanvasApiCourseToCanvasCsvFormat(toIso, c).value.status == "active"
  {
  }

  /**
   * Reading an own property of a normalised row by name, as JavaScript does:
   * the six columns are present, and any other name that is not a member
   * every object inherits reads as `undefined`.
   */
  function Property(row: CsvCourse, name: string): (r: JsValue)
    ensures name == "course_id" ==> r == row.course_id
    ensures name !in {"course_id", "short_name", "long_name", "status", "start_date", "end_date"} ==> r == Undefined
  {
    if name == "course_id" then row.course_id
    else if name == "short_name" then row.short_name
    else if name == "long_name" then row.long_name
    else if name == "status" then Str(row.status)
    else if name == "start_date" then row.start_date
    else if name == "end_date" then row.end_date
    else Undefined
  }

  /**
   * The text a value becomes when used as a JavaScript object key:
   * `undefined` becomes "undefined" and `null` becomes "null", so a missing
   * value and the text "undefined" give the same key.
   */
  function PropertyKey(v: JsValue): (k: string)
    ensures v.Str? ==> k == v.text
    ensures v == Undefined ==> k == "undefined"
    ensures v == Null ==> k == "null"
  {
    match v
    case Undefined => "undefined"
    case Null => "null"
    case Str(s) => s
  }

  /**
   * A JEX course without a name and a Canvas course whose name is null, equal
   * in every other column, normalise to different rows.
   */
  lemma UndefinedAndNullNamesDiffer(toIso: IsoConverter)
    ensures
      var j := JexCourse(Str("C1"), Undefined, Str("2020-01-01"), Undefined);
      var c := CanvasCourse(Str("C1"), Str("C1"), Null, Str("2020-01-01"), Undefined);
      JexCourseToCanvasCsvFormat(toIso, Some(j)) != CanvasApiCourseToCanvasCsvFormat(toIso, Some(c))
  {
  }
}
