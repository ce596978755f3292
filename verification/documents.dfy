/**
  `DocumentController.GetAllDocuments` and `GetById`: optional filters on
  the full document list, then paging, then the page envelope.
 */
module Documents {
  import opened Wrappers
  import opened Text
  import opened Models
  import opened Listing
  import opened Http

  /** The query string of `GET api/Document`; `page` and `pageSize` default to 1 and 10. */
  datatype DocumentQuery = DocumentQuery(
    page: int,
    pageSize: int,
    search: Option<string>,
    courseCode: Option<string>,
    year: Option<int>)

  /** The title or the description contains the term, ignoring case. */
  predicate SearchHit(d: Document, term: string) {
    ContainsIgnoreCase(d.title, term) || ContainsIgnoreCase(d.description, term)
  }

  predicate SearchAccepts(d: Document, search: Option<string>) {
    IsNullOrWhiteSpace(search) || SearchHit(d, search.value)
  }

  predicate CourseAccepts(d: Document, courseCode: Option<string>) {
    IsNullOrWhiteSpace(courseCode) || EqualsIgnoreCase(d.courseCode, courseCode.value)
  }

  predicate YearAccepts(d: Document, year: Option<int>) {
    year.None? || d.year == year.value
  }

  /** The filter a query applies: blank text filters and a missing year accept everything. */
  predicate MatchesQuery(d: Document, q: DocumentQuery) {
    SearchAccepts(d, q.search) && CourseAccepts(d, q.courseCode) && YearAccepts(d, q.year)
  }

  function QueryFilter(q: DocumentQuery): Document -> bool {
    d => MatchesQuery(d, q)
  }

  /** The filters one after another, each skipped when its parameter is blank or absent. */
  function ApplyFilters(docs: seq<Document>, q: DocumentQuery): seq<Document> {
    var bySearch := WhereIf(docs, !IsNullOrWhiteSpace(q.search), (d: Document) => SearchAccepts(d, q.search));
    var byCourse := WhereIf(bySearch, !IsNullOrWhiteSpace(q.courseCode), (d: Document) => CourseAccepts(d, q.courseCode));
    WhereIf(byCourse, q.year.Some?, (d: Document) => YearAccepts(d, q.year))
  }

  /** Applying the filters in turn is one filter by the whole query. */
  lemma ApplyFiltersSpec(docs: seq<Document>, q: DocumentQuery)
    ensures ApplyFilters(docs, q) == Filter(docs, QueryFilter(q))
  {
    WhereIfChain(docs,
      !IsNullOrWhiteSpace(q.search), (d: Document) => SearchAccepts(d, q.search),
      !IsNullOrWhiteSpace(q.courseCode), (d: Document) => CourseAccepts(d, q.courseCode),
      q.year.Some?, (d: Document) => YearAccepts(d, q.year),
      QueryFilter(q));
  }

  /** `GetAllDocuments`: the filtered total, and the requested page of the filtered list. */
  function GetAllDocuments(docs: seq<Document>, q: DocumentQuery): (r: PageResult<Document>)
    ensures r.page == q.page && r.pageSize == q.pageSize
    ensures |r.items| <= Max(q.pageSize, 0)
  {
    var filtered := ApplyFilters(docs, q);
    PageResult(Page(filtered, q.page, q.pageSize), |filtered|, q.page, q.pageSize)
  }

  /**
    Every listed document matches the query and comes from the store in
    store order; the total counts all matches before paging; the items are
    the run of matches that starts at the page offset and holds as many as
    fit, up to the page size.
   */
  lemma GetAllDocumentsSpec(docs: seq<Document>, q: DocumentQuery)
    ensures var r := GetAllDocuments(docs, q);
      && (forall d :: d in r.items ==> d in docs && MatchesQuery(d, q))
      && r.totalItems == Count(docs, QueryFilter(q))
      && IsSubsequence(r.items, docs)
      && var matches := Filter(docs, QueryFilter(q));
         var o := Min(Max(PageOffset(q.page, q.pageSize), 0), |matches|);
         r.items == matches[o..o + Min(Max(q.pageSize, 0), |matches| - o)]
  {
    GetAllDocumentsIsPage(docs, q);
    PageMatchesQuery(docs, q);
    FilteredPageResult(docs, QueryFilter(q), q.page, q.pageSize, GetAllDocuments(docs, q));
  }

  /** The listing is the requested page of the matches, totalled over all matches. */
  lemma GetAllDocumentsIsPage(docs: seq<Document>, q: DocumentQuery)
    ensures var m := Filter(docs, QueryFilter(q));
      GetAllDocuments(docs, q) == PageResult(Page(m, q.page, q.pageSize), Count(docs, QueryFilter(q)), q.page, q.pageSize)
  {
    ApplyFiltersSpec(docs, q);
  }

  /** Every document on a page of the matches is stored and matches the query. */
  lemma PageMatchesQuery(docs: seq<Document>, q: DocumentQuery)
    ensures forall d :: d in Page(Filter(docs, QueryFilter(q)), q.page, q.pageSize) ==> d in docs && MatchesQuery(d, q)
  {
    var m := Filter(docs, QueryFilter(q));
    FilteredPage(docs, QueryFilter(q), q.page, q.pageSize);
    forall d | d in Page(m, q.page, q.pageSize)
      ensures MatchesQuery(d, q)
    {
      assert QueryFilter(q)(d);
    }
  }

  /**
    A document a non-blank search accepts contains the term, ignoring case,
    at some position of its title or of its description.
   */
  lemma SearchTermOccurs(d: Document, q: DocumentQuery)
    requires !IsNullOrWhiteSpace(q.search) && MatchesQuery(d, q)
    ensures (exists i :: OccursAt(Upper(d.title), Upper(q.search.value), i))
            || (exists i :: OccursAt(Upper(d.description), Upper(q.search.value), i))
  {
    var term := q.search.value;
    if Contains(Upper(d.title), Upper(term)) {
      ContainsIffOccurs(Upper(d.title), Upper(term));
      var i :| OccursAt(Upper(d.title), Upper(term), i);
      assert exists k :: OccursAt(Upper(d.title), Upper(q.search.value), k);
    } else {
      assert Contains(Upper(d.description), Upper(term));
      ContainsIffOccurs(Upper(d.description), Upper(term));
      var i :| OccursAt(Upper(d.description), Upper(term), i);
      assert exists k :: OccursAt(Upper(d.description), Upper(q.search.value), k);
    }
  }

  /** `GetById`: the stored document with that id, or 404. */
  function GetById(docs: seq<Document>, id: int): (r: Reply<Document>)
    ensures r.NotFound? <==> forall j :: 0 <= j < |docs| ==> docs[j].id != id
    ensures r.Ok? ==> r.body in docs && r.body.id == id
    ensures r.Ok? || r.NotFound?
  {
    var k := DocumentIndex(docs, id);
    if k.None? then NotFound else Ok(docs[k.value])
  }

  // ---------------------------------------------------------------- newest first

  function UploadKey(d: Document): int { d.uploadDate }

  /** `OrderByDescending(d => d.UploadDate).Take(5)`, the query of the three dashboards. */
  function Newest(docs: seq<Document>): seq<Document> {
    TopN(docs, 5, UploadKey)
  }

  /**
    Five documents, or all of them when there are fewer; newest first;
    drawn from the store, none more often than it is stored; and none left
    out is newer than one returned.
   */
  lemma NewestSpec(docs: seq<Document>)
    ensures |Newest(docs)| == Min(5, |docs|)
    ensures forall i, j :: 0 <= i < j < |Newest(docs)| ==> Newest(docs)[i].uploadDate >= Newest(docs)[j].uploadDate
    ensures forall d :: d in Newest(docs) ==> d in docs
    ensures multiset(Newest(docs)) <= multiset(docs)
    ensures forall d, i :: d in multiset(docs) - multiset(Newest(docs)) && 0 <= i < |Newest(docs)|
              ==> d.uploadDate <= Newest(docs)[i].uploadDate
  {
    TopNSpec(docs, 5, UploadKey);
    var r := Newest(docs);
    assert SortedDesc(r, UploadKey);
    forall d | d in r
      ensures d in docs
    {
      assert d in multiset(r);
    }
  }

  /** The part of `NewestSpec` that the dashboard summary relies on. */
  lemma NewestStored(docs: seq<Document>)
    ensures |Newest(docs)| == Min(5, |docs|)
    ensures forall i :: 0 <= i < |Newest(docs)| ==> Newest(docs)[i] in docs
  {
    NewestSpec(docs);
    assert forall i :: 0 <= i < |Newest(docs)| ==> Newest(docs)[i] in Newest(docs);
  }

  /** The fields the recent-documents endpoints return. */
  datatype RecentDocument = RecentDocument(id: int, title: string, courseCode: string, year: int, uploadDate: int)

  function Summarize(d: Document): RecentDocument {
    RecentDocument(d.id, d.title, d.courseCode, d.year, d.uploadDate)
  }

  function SummarizeAll(ds: seq<Document>): (r: seq<RecentDocument>)
    ensures |r| == |ds|
    ensures forall i :: 0 <= i < |ds| ==> r[i] == Summarize(ds[i])
  {
    if |ds| == 0 then [] else [Summarize(ds[0])] + SummarizeAll(ds[1..])
  }

  /**
    `r` lists the summaries of some of the documents `docs` holds, each
    document at most as often as it is stored.
   */
  ghost predicate SummarizesPart(r: seq<RecentDocument>, docs: seq<Document>) {
    exists part :: multiset(part) <= multiset(docs) && SummarizeAll(part) == r
  }

  /** Listing a document twice when it is stored once is not a part of the catalogue. */
  lemma RepeatIsNoPart(a: Document, b: Document)
    requires Summarize(a) != Summarize(b)
    ensures !SummarizesPart([Summarize(a), Summarize(a)], [a, b])
  {
    forall part | SummarizeAll(part) == [Summarize(a), Summarize(a)]
      ensures !(multiset(part) <= multiset([a, b]))
    {
      assert Summarize(part[0]) == Summarize(a) && Summarize(part[1]) == Summarize(a);
      if part[0] != a {
        assert part[0] in multiset(part) && part[0] !in multiset([a, b]);
      } else if part[1] != a {
        assert part[1] in multiset(part) && part[1] !in multiset([a, b]);
      } else {
        assert part == [a] + [a];
        assert multiset(part)[a] == 2 && multiset([a, b])[a] == 1;
      }
    }
  }

  /**
    `GetRecentDocuments` of the super-admin and student dashboards: the five
    newest documents, newest first, each the summary of a stored document,
    no summary repeated more often than its documents are stored, and none
    left out newer than one returned.
   */
  function Recent(docs: seq<Document>): (r: seq<RecentDocument>)
    ensures |r| == Min(5, |docs|)
    ensures forall i, j :: 0 <= i < j < |r| ==> r[i].uploadDate >= r[j].uploadDate
    ensures forall i :: 0 <= i < |r| ==> Newest(docs)[i] in docs && r[i] == Summarize(Newest(docs)[i])
    ensures SummarizesPart(r, docs)
    ensures forall d, i :: d in multiset(docs) - multiset(Newest(docs)) && 0 <= i < |r| ==> d.uploadDate <= r[i].uploadDate
  {
    NewestSpec(docs);
    var top := Newest(docs);
    assert forall i :: 0 <= i < |top| ==> top[i] in top;
    SummarizeAll(top)
  }
}
