/** Hybrid retrieval: the authorised matches in order, and the cursors that page through them. */
module Retrieval {
  import opened Results
  import opened Text
  import opened Order
  import Base64Url
  import Json
  import Sorting
  import Utf8

  datatype Citation = Citation(
    chunkId: string, assetId: string, versionId: string, sourceId: string, locator: string,
    evidenceIds: seq<string>, checksum: string, freshness: string)

  datatype Hit = Hit(citation: Citation, score: real)

  datatype Page = Page(results: seq<Hit>, nextCursor: Option<string>)

  datatype SearchError = QueryInvalid | AccessDenied | FieldMissing | CursorInvalid

  /** A query by its case-folded terms. */
  datatype Query = Query(blank: bool, terms: set<string>)

  /** The names that the filter's values have, and the values. */
  datatype Filter = Filter(
    names: set<string>, tenantId: string, workspaceId: string, sourceIds: seq<string>, assetIds: seq<string>,
    allowedClassifications: seq<string>, indexVersion: string, policyVersion: string)

  /** A record's payload; a name may be absent. */
  datatype Record = Record(
    payload: map<string, string>, evidenceIds: seq<string>, vectorScore: real, lexicalTerms: set<string>)

  const FILTER_NAMES: set<string> := {
    "tenant_id", "workspace_id", "source_ids", "asset_ids", "allowed_classifications", "classification",
    "governance_state", "safety_decision", "index_version", "policy_version"}

  const SCANNED: nat := 200
  const MAX_LIMIT: int := 50

  // ----- cursors -----

  function EncodeCursor(offset: int): Option<string> {
    if offset < 0 then None
    else Some(Base64Url.Encode(Utf8.Encode(Json.Print([Json.Field("offset", Json.Num(offset))]))))
  }

  function DecodeCursor(cursor: Option<string>): Option<nat> {
    if cursor.None? || cursor.value == "" then Some(0)
    else
      match Base64Url.Decode(cursor.value)
      case None => None
      case Some(bytes) =>
        match Utf8.Decode(Utf8.Ready, bytes)
        case None => None
        case Some(step) =>
          if step.decoder != Utf8.Ready then None
          else
            match Json.Parse(step.output)
            case None => None
            case Some(value) =>
              var offset := Json.Get(value, "offset");
              if offset.Some? && offset.value.Num? then Some(offset.value.number) else None
  }

  /** Decoding undoes encoding for every offset. */
  lemma {:induction false} CursorRoundTrip(offset: nat)
    ensures EncodeCursor(offset).Some? && EncodeCursor(offset).value != ""
    ensures DecodeCursor(EncodeCursor(offset)) == Some(offset)
  {
    hide Json.Print, Json.Parse, Utf8.Encode, Utf8.Decode, Base64Url.Encode, Base64Url.Decode;
    var o: Json.Object := [Json.Field("offset", Json.Num(offset))];
    Json.ParsePrint(o);
    Utf8.DecodeEncode(Json.Print(o));
    Base64Url.RoundTrip(Utf8.Encode(Json.Print(o)));
    Json.PrintIsNotEmpty(o);
    Utf8.EncodeIsNotEmpty(Json.Print(o));
    assert o[1..] == [];
    assert Json.Get(o, "offset") == Some(Json.Num(offset));
  }

  // ----- one record -----

  predicate Has(r: Record, name: string, value: string) { name in r.payload && r.payload[name] == value }

  predicate HasOneOf(r: Record, name: string, values: seq<string>) { name in r.payload && r.payload[name] in values }

  predicate Authorized(f: Filter, r: Record) {
    && Has(r, "tenant_id", f.tenantId) && Has(r, "workspace_id", f.workspaceId)
    && HasOneOf(r, "source_id", f.sourceIds) && HasOneOf(r, "asset_id", f.assetIds)
    && HasOneOf(r, "classification", f.allowedClassifications)
    && Has(r, "governance_state", "EFFECTIVE") && Has(r, "safety_decision", "ALLOW_WITH_MARKERS")
    && Has(r, "index_version", f.indexVersion) && Has(r, "policy_version", f.policyVersion)
  }

  /** The result for a record; None when a cited field is missing. */
  function HitOf(q: Query, r: Record): Option<Hit> {
    var p := r.payload;
    if !({"chunk_id", "asset_id", "version_id", "source_id", "locator", "checksum"} <= p.Keys) then None
    else
      Some(Hit(
        Citation(
          p["chunk_id"], p["asset_id"], p["version_id"], p["source_id"], p["locator"], r.evidenceIds, p["checksum"],
          if "freshness" in p then p["freshness"] else "FRESH"),
        r.vectorScore + |q.terms * r.lexicalTerms| as real * 0.01))
  }

  /** The hits of the authorised records in turn; None when one of them lacks a field. */
  function Hits(q: Query, f: Filter, records: seq<Record>): Option<seq<Hit>> {
    if records == [] then Some([])
    else
      var n := |records| - 1;
      match Hits(q, f, records[..n])
      case None => None
      case Some(before) =>
        if !Authorized(f, records[n]) then Some(before)
        else
          match HitOf(q, records[n])
          case None => None
          case Some(hit) => Some(before + [hit])
  }

  /** The order of the results: the higher score first, then the chunk in code-point order. */
  predicate Precedes(a: Hit, b: Hit) {
    a.score > b.score ||
    (a.score == b.score && (a.citation.chunkId == b.citation.chunkId || Less(a.citation.chunkId, b.citation.chunkId)))
  }

  function Rule(): Sorting.Rule<Hit> { (a, b) => Precedes(a, b) }

  lemma {:induction false} RuleOrders()
    ensures Sorting.Orders(Rule())
  {
    forall a, b ensures Rule()(a, b) || Rule()(b, a) { LessIsTotal(a.citation.chunkId, b.citation.chunkId); }
    forall a, b, c ensures Rule()(a, b) && Rule()(b, c) ==> Rule()(a, c) {
      if Less(a.citation.chunkId, b.citation.chunkId) && Less(b.citation.chunkId, c.citation.chunkId) {
        LessIsTransitive(a.citation.chunkId, b.citation.chunkId, c.citation.chunkId);
      }
    }
  }

  // ----- one page -----

  function Scanned(records: seq<Record>): seq<Record> {
    if |records| <= SCANNED then records else records[..SCANNED]
  }

  function Slice(hits: seq<Hit>, offset: nat, limit: nat): seq<Hit> {
    var start := if offset < |hits| then offset else |hits|;
    var end := if offset + limit < |hits| then offset + limit else |hits|;
    hits[start..end]
  }

  /** The page at a cursor. */
  function SearchPage(
    q: Query, f: Filter, records: seq<Record>, cursor: Option<string>, limit: int)
    : Result<Page, SearchError>
  {
    if q.blank || limit < 1 || limit > MAX_LIMIT then Err(QueryInvalid)
    else if f.names != FILTER_NAMES then Err(AccessDenied)
    else
      match Hits(q, f, Scanned(records))
      case None => Err(FieldMissing)
      case Some(hits) =>
        match DecodeCursor(cursor)
        case None => Err(CursorInvalid)
        case Some(offset) =>
          Ok(Page(
            Slice(Sorting.Sort(Rule(), hits), offset, limit),
            if offset + limit < |hits| then EncodeCursor(offset + limit) else None))
  }

  method HybridSearch(q: Query, f: Filter, records: seq<Record>, cursor: Option<string>, limit: int)
    returns (r: Result<Page, SearchError>)
    ensures r == SearchPage(q, f, records, cursor, limit)
  {
    hide DecodeCursor, EncodeCursor, Authorized, HitOf, Slice;
    if q.blank || limit < 1 || limit > MAX_LIMIT { return Err(QueryInvalid); }
    if f.names != FILTER_NAMES { return Err(AccessDenied); }
    var rows := Scanned(records);
    var matches: seq<Hit> := [];
    for i := 0 to |rows|
      invariant Hits(q, f, rows[..i]) == Some(matches)
    {
      assert rows[..i + 1][..i] == rows[..i];
      if Authorized(f, rows[i]) {
        var hit := HitOf(q, rows[i]);
        if hit.None? {
          MissingStaysMissing(q, f, rows, i + 1);
          return Err(FieldMissing);
        }
        matches := matches + [hit.value];
      }
    }
    assert rows[..|rows|] == rows;
    RuleOrders();
    Sorting.SortSorts(Rule(), matches);
    var sorted := Sorting.Sort(Rule(), matches);
    var offset := DecodeCursor(cursor);
    if offset.None? { return Err(CursorInvalid); }
    return Ok(Page(
      Slice(sorted, offset.value, limit),
      if offset.value + limit < |sorted| then EncodeCursor(offset.value + limit) else None));
  }

  lemma {:induction false} MissingStaysMissing(q: Query, f: Filter, rows: seq<Record>, i: nat)
    requires i <= |rows| && Hits(q, f, rows[..i]) == None
    ensures Hits(q, f, rows) == None
    decreases |rows| - i
  {
    if i == |rows| {
      assert rows[..i] == rows;
    } else {
      assert rows[..i + 1][..i] == rows[..i];
      MissingStaysMissing(q, f, rows, i + 1);
    }
  }

  /** The hits are those of the authorised records among the scanned ones, no others. */
  lemma {:induction false} HitsExactly(q: Query, f: Filter, rows: seq<Record>)
    ensures Hits(q, f, rows).None? <==>
            exists i :: 0 <= i < |rows| && Authorized(f, rows[i]) && HitOf(q, rows[i]) == None
    ensures Hits(q, f, rows).Some? ==>
              forall hit :: hit in Hits(q, f, rows).value <==>
                exists i :: 0 <= i < |rows| && Authorized(f, rows[i]) && HitOf(q, rows[i]) == Some(hit)
    decreases |rows|
  {
    hide Authorized, HitOf;
    if rows != [] {
      var n := |rows| - 1;
      HitsExactly(q, f, rows[..n]);
      assert forall i :: 0 <= i < n ==> rows[..n][i] == rows[i];
    }
  }

  // ----- following the cursors -----

  /** The pages a client gets by following the cursors from the start. */
  ghost predicate Followed(q: Query, f: Filter, records: seq<Record>, limit: int, pages: seq<Page>) {
    && pages != [] && SearchPage(q, f, records, None, limit) == Ok(pages[0])
    && forall i :: 0 <= i < |pages| - 1 ==>
         pages[i].nextCursor.Some? && SearchPage(q, f, records, pages[i].nextCursor, limit) == Ok(pages[i + 1])
  }

  function AllResults(pages: seq<Page>): seq<Hit> {
    if pages == [] then [] else AllResults(pages[..|pages| - 1]) + pages[|pages| - 1].results
  }

  /** Every authorised hit among the scanned records, in order. */
  function Listed(q: Query, f: Filter, records: seq<Record>): seq<Hit>
    requires Hits(q, f, Scanned(records)).Some?
  {
    Sorting.Sort(Rule(), Hits(q, f, Scanned(records)).value)
  }

  lemma {:induction false} ListedIsSorted(q: Query, f: Filter, records: seq<Record>)
    requires Hits(q, f, Scanned(records)).Some?
    ensures Sorting.Sorted(Rule(), Listed(q, f, records))
    ensures multiset(Listed(q, f, records)) == multiset(Hits(q, f, Scanned(records)).value)
    ensures |Listed(q, f, records)| == |Hits(q, f, Scanned(records)).value|
  {
    RuleOrders();
    Sorting.SortSorts(Rule(), Hits(q, f, Scanned(records)).value);
  }

  /** The offset of the page number `i`. */
  function At(i: nat, limit: nat): nat { if i == 0 then 0 else At(i - 1, limit) + limit }

  predicate IsPageAt(listed: seq<Hit>, page: Page, offset: nat, limit: nat) {
    && page.results == Slice(listed, offset, limit)
    && (page.nextCursor == if offset + limit < |listed| then EncodeCursor(offset + limit) else None)
  }

  /** Where each page of a client is in the listing. */
  lemma {:induction false} PageIsAt(q: Query, f: Filter, records: seq<Record>, limit: nat, pages: seq<Page>, i: nat)
    requires Followed(q, f, records, limit, pages) && i < |pages|
    ensures 1 <= limit && Hits(q, f, Scanned(records)).Some?
    ensures IsPageAt(Listed(q, f, records), pages[i], At(i, limit), limit)
    ensures i > 0 ==> At(i, limit) < |Listed(q, f, records)|
  {
    hide DecodeCursor, EncodeCursor, Hits, Slice, Scanned, Sorting.Sort, Sorting.Sorted;
    StartDecodes();
    ListedIsSorted(q, f, records);
    if i > 0 {
      PageIsAt(q, f, records, limit, pages, i - 1);
      assert SearchPage(q, f, records, pages[i - 1].nextCursor, limit) == Ok(pages[i - 1 + 1]);
      CursorRoundTrip(At(i, limit));
    }
  }

  lemma {:induction false} StartDecodes()
    ensures DecodeCursor(None) == Some(0)
  {
  }

  lemma {:induction false} PrefixPlusSlice(listed: seq<Hit>, offset: nat, limit: nat)
    requires offset <= |listed|
    ensures Slice(listed, 0, offset) + Slice(listed, offset, limit) == Slice(listed, 0, offset + limit)
  {
  }

  lemma {:induction false} PagesJoin(q: Query, f: Filter, records: seq<Record>, limit: nat, pages: seq<Page>, n: nat)
    requires Followed(q, f, records, limit, pages) && n <= |pages|
    ensures 1 <= limit && Hits(q, f, Scanned(records)).Some?
    ensures AllResults(pages[..n]) == Slice(Listed(q, f, records), 0, At(n, limit))
    decreases n
  {
    hide Followed, Hits, Listed, Scanned, Slice, EncodeCursor;
    FollowedStarts(q, f, records, limit, pages);
    PageIsAt(q, f, records, limit, pages, 0);
    var listed := Listed(q, f, records);
    if n == 0 {
      EmptySlice(listed);
    } else {
      PagesJoin(q, f, records, limit, pages, n - 1);
      PageIsAt(q, f, records, limit, pages, n - 1);
      assert pages[..n][..n - 1] == pages[..n - 1];
      PrefixPlusSlice(listed, At(n - 1, limit), limit);
    }
  }

  lemma {:induction false} FollowedStarts(q: Query, f: Filter, records: seq<Record>, limit: nat, pages: seq<Page>)
    requires Followed(q, f, records, limit, pages)
    ensures pages != []
  {
  }

  lemma {:induction false} EmptySlice(listed: seq<Hit>)
    ensures Slice(listed, 0, 0) == []
  {
  }

  /**
   * Following the cursors from the start gives the listing from its beginning without a gap or a
   * repetition. The last page is the one without a cursor: with it the client has every authorised
   * hit exactly once, and before it the cursor leads on.
   */
  lemma {:induction false} FollowingEnumerates(q: Query, f: Filter, records: seq<Record>, limit: nat, pages: seq<Page>)
    requires Followed(q, f, records, limit, pages)
    ensures Hits(q, f, Scanned(records)).Some?
    ensures var listed := Listed(q, f, records); var last := pages[|pages| - 1];
            && AllResults(pages) <= listed
            && (last.nextCursor == None <==> AllResults(pages) == listed)
            && (last.nextCursor.Some? ==> SearchPage(q, f, records, last.nextCursor, limit).Ok?)
            && (|pages| > 1 ==> At(|pages| - 1, limit) < |listed|)
    ensures pages[|pages| - 1].nextCursor == None ==>
              multiset(AllResults(pages)) == multiset(Hits(q, f, Scanned(records)).value) &&
              Sorting.Sorted(Rule(), AllResults(pages))
  {
    hide DecodeCursor, EncodeCursor, Hits, Scanned, Listed, Authorized, AllResults;
    var n := |pages|;
    PageIsAt(q, f, records, limit, pages, n - 1);
    PagesJoin(q, f, records, limit, pages, n);
    ListedIsSorted(q, f, records);
    assert pages[..n] == pages;
    CursorRoundTrip(At(n, limit));
  }
}
