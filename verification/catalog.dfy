/**
 The public course catalog (src/pages/CoursesPage.tsx): the `tags` column
 brought into array form after the fetch, and the search / category / level
 filter over the loaded list.
 */
module Catalog {

  import opened Common
  import opened Strings
  import opened Schema
  import UserDashboard

  // ---------------------------------------------------------------------------
  // Tag normalisation
  // ---------------------------------------------------------------------------

  /**
   A JSON array parser for serialized tag lists, supplied by the caller:
   `None` when the text is not a JSON array of strings (`JSON.parse` throws).
   */
  type TagParser = string -> Option<seq<string>>

  /**
   The tag normalisation of each fetched row: a missing column or an empty
   string (both falsy) is the empty list, an array is kept, and any other
   text goes through the parser.
   */
  function NormalizeTags(tags: ListField, parse: TagParser): (r: Option<seq<string>>)
    ensures tags.Absent? ==> r == Some([])
    ensures tags.Items? ==> r == Some(tags.items)
    ensures tags.Text? && tags.text == "" ==> r == Some([])
    ensures tags.Text? && tags.text != "" ==> r == parse(tags.text)
  {
    match tags
    case Absent => Some([])
    case Items(xs) => Some(xs)
    case Text(t) => if t == "" then Some([]) else parse(t)
  }

  predicate HasArrayTags(c: Course) { c.tags.Items? }

  /**
   The map over the fetched rows. A single unparsable row throws, which
   abandons the whole batch.
   */
  function NormalizeCourses(rows: seq<Course>, parse: TagParser): (r: Option<seq<Course>>)
    ensures r.Some? <==> forall i :: 0 <= i < |rows| ==> NormalizeTags(rows[i].tags, parse).Some?
    ensures r.Some? ==> |r.value| == |rows|
    ensures r.Some? ==> forall i :: 0 <= i < |rows| ==>
              r.value[i] == rows[i].(tags := Items(NormalizeTags(rows[i].tags, parse).value))
  {
    if |rows| == 0 then Some([])
    else
      match NormalizeTags(rows[0].tags, parse)
      case None => None
      case Some(tags) =>
        match NormalizeCourses(rows[1..], parse)
        case None => None
        case Some(rest) =>
          var r := [rows[0].(tags := Items(tags))] + rest;
          assert forall i :: 1 <= i < |rows| ==> rows[i] == rows[1..][i - 1];
          Some(r)
  }

  /** After a successful load every course carries its tags as an array, in fetched order. */
  lemma NormalizedCoursesHaveArrayTags(rows: seq<Course>, parse: TagParser)
    requires NormalizeCourses(rows, parse).Some?
    ensures forall i :: 0 <= i < |rows| ==> HasArrayTags(NormalizeCourses(rows, parse).value[i])
    ensures forall i :: 0 <= i < |rows| ==> NormalizeCourses(rows, parse).value[i].id == rows[i].id
  {
  }

  /** Rows whose tags are already arrays, or missing, come through without calling the parser. */
  lemma NormalizeWithoutText(rows: seq<Course>, parse: TagParser)
    requires forall i :: 0 <= i < |rows| ==> !rows[i].tags.Text?
    ensures NormalizeCourses(rows, parse).Some?
    ensures forall i :: 0 <= i < |rows| && rows[i].tags.Items? ==> NormalizeCourses(rows, parse).value[i] == rows[i]
  {
  }

  datatype CatalogState = CatalogState(courses: seq<Course>, loading: bool, failedToast: bool)

  const InitialCatalog := CatalogState([], true, false)

  /** `fetchCourses`: a query error or an unparsable row keeps the old list and shows the error toast. */
  function FetchCourses(st: CatalogState, answer: Result<seq<Course>>, parse: TagParser): (r: CatalogState)
    ensures !r.loading
    ensures r.failedToast ==> r.courses == st.courses
    ensures !r.failedToast <==> answer.Success? && NormalizeCourses(answer.value, parse).Some?
    ensures !r.failedToast ==> r.courses == NormalizeCourses(answer.value, parse).value
  {
    match answer
    case Failure(_) => st.(loading := false, failedToast := true)
    case Success(rows) =>
      match NormalizeCourses(rows, parse)
      case None => st.(loading := false, failedToast := true)
      case Some(cs) => CatalogState(cs, false, false)
  }

  /** A first load that fails leaves the catalog empty, with the spinner gone and the error toast shown. */
  lemma FailedFirstLoadIsEmpty(answer: Result<seq<Course>>, parse: TagParser)
    requires answer.Failure? || NormalizeCourses(answer.value, parse).None?
    ensures FetchCourses(InitialCatalog, answer, parse) == CatalogState([], false, true)
  {
  }

  // ---------------------------------------------------------------------------
  // Filter
  // ---------------------------------------------------------------------------

  const AllOption := "all"

  /** Title, description or a tag contains the query, ignoring case. */
  predicate MatchesSearch(c: Course, query: string) {
    || ContainsCI(c.title, query)
    || ContainsCI(c.description, query)
    || UserDashboard.SomeTagMatches(c.tags, query)
  }

  /** `'all'`, or the course's category equal to the choice ignoring case; no category never matches. */
  predicate MatchesCategory(c: Course, category: string) {
    category == AllOption || (c.category.Some? && Lower(c.category.value) == Lower(category))
  }

  /** `'all'`, or the course's level written exactly as the choice. */
  predicate MatchesLevel(c: Course, level: string) {
    level == AllOption || (c.level.Some? && LevelName(c.level.value) == level)
  }

  predicate CatalogMatches(c: Course, query: string, category: string, level: string) {
    MatchesSearch(c, query) && MatchesCategory(c, category) && MatchesLevel(c, level)
  }

  function CatalogFilter(query: string, category: string, level: string): Course -> bool {
    (c: Course) => CatalogMatches(c, query, category, level)
  }

  /** `filteredCourses`: the loaded courses passing all three tests, in loaded order. */
  function FilterCatalog(courses: seq<Course>, query: string, category: string, level: string): (r: seq<Course>)
    ensures forall i :: 0 <= i < |r| ==>
              r[i] in courses && MatchesSearch(r[i], query) && MatchesCategory(r[i], category) && MatchesLevel(r[i], level)
    ensures forall i :: 0 <= i < |courses| && CatalogMatches(courses[i], query, category, level) ==> courses[i] in r
  {
    Filter(courses, CatalogFilter(query, category, level))
  }

  /** The result keeps the loaded order; no search with both filters on `'all'` shows every course. */
  lemma FilterCatalogProperties(courses: seq<Course>, query: string, category: string, level: string)
    ensures IsSubseq(FilterCatalog(courses, query, category, level), courses)
    ensures query == "" ==> FilterCatalog(courses, query, AllOption, AllOption) == courses
  {
    FilterIsSubseq(courses, CatalogFilter(query, category, level));
    if query == "" {
      forall i | 0 <= i < |courses| ensures CatalogFilter(query, AllOption, AllOption)(courses[i]) {
        ContainsCIIgnoresCase(courses[i].title, query);
      }
      FilterAll(courses, CatalogFilter(query, AllOption, AllOption));
    }
  }

  /** Choosing a category or a level only narrows the `'all'` result for the same search. */
  lemma SpecificFilterNarrows(courses: seq<Course>, query: string, category: string, level: string)
    ensures IsSubseq(FilterCatalog(courses, query, category, level), FilterCatalog(courses, query, AllOption, AllOption))
    ensures IsSubseq(FilterCatalog(courses, query, category, level), FilterCatalog(courses, query, category, AllOption))
    ensures IsSubseq(FilterCatalog(courses, query, category, level), FilterCatalog(courses, query, AllOption, level))
  {
    FilterMonotone(courses, CatalogFilter(query, category, level), CatalogFilter(query, AllOption, AllOption));
    FilterMonotone(courses, CatalogFilter(query, category, level), CatalogFilter(query, category, AllOption));
    FilterMonotone(courses, CatalogFilter(query, category, level), CatalogFilter(query, AllOption, level));
  }

  /**
   The category test ignores the case of both sides (a choice that only
   lower-cases to `'all'` is compared like any other), and a course without
   a category is kept only under `'all'`.
   */
  lemma CategoryCaseInsensitive(c: Course, category: string)
    ensures Lower(category) != AllOption ==> (MatchesCategory(c, category) <==> MatchesCategory(c, Lower(category)))
    ensures c.category.None? ==> (MatchesCategory(c, category) <==> category == AllOption)
  {
    LowerIdempotent(category);
  }
}
