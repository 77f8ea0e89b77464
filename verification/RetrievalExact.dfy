/** What a search shows and what it refuses, told from the query, the filter and the records alone. */
module RetrievalExact {
  import opened Results
  import opened Order
  import opened Retrieval
  import Sorting

  predicate Is(r: Record, name: string, value: string) { name in r.payload && r.payload[name] == value }

  predicate IsAmong(r: Record, name: string, values: seq<string>) {
    name in r.payload && exists i :: 0 <= i < |values| && values[i] == r.payload[name]
  }

  /**
   * A record may be shown only within its tenant and workspace, from an allowed source and asset, in an
   * allowed classification, when it is in force and safe, and for the index and policy asked for.
   */
  predicate MayBeShown(f: Filter, r: Record) {
    && Is(r, "tenant_id", f.tenantId) && Is(r, "workspace_id", f.workspaceId)
    && IsAmong(r, "source_id", f.sourceIds) && IsAmong(r, "asset_id", f.assetIds)
    && IsAmong(r, "classification", f.allowedClassifications)
    && Is(r, "governance_state", "EFFECTIVE") && Is(r, "safety_decision", "ALLOW_WITH_MARKERS")
    && Is(r, "index_version", f.indexVersion) && Is(r, "policy_version", f.policyVersion)
  }

  lemma {:induction false} ShownExactly(f: Filter, r: Record)
    ensures Authorized(f, r) <==> MayBeShown(f, r)
  {
    AmongExactly(r, "source_id", f.sourceIds);
    AmongExactly(r, "asset_id", f.assetIds);
    AmongExactly(r, "classification", f.allowedClassifications);
  }

  lemma {:induction false} AmongExactly(r: Record, name: string, values: seq<string>)
    ensures HasOneOf(r, name, values) <==> IsAmong(r, name, values)
  {
  }

  /** The members that a citation names. */
  predicate CanBeCited(r: Record) {
    && "chunk_id" in r.payload && "asset_id" in r.payload && "version_id" in r.payload && "source_id" in r.payload
    && "locator" in r.payload && "checksum" in r.payload
  }

  /** The hit names the record, and scores its nearness and a hundredth for each common term. */
  predicate IsHitOf(hit: Hit, q: Query, r: Record) {
    && CanBeCited(r)
    && Is(r, "chunk_id", hit.citation.chunkId) && Is(r, "asset_id", hit.citation.assetId)
    && Is(r, "version_id", hit.citation.versionId) && Is(r, "source_id", hit.citation.sourceId)
    && Is(r, "locator", hit.citation.locator) && Is(r, "checksum", hit.citation.checksum)
    && hit.citation.evidenceIds == r.evidenceIds
    && (if "freshness" in r.payload then Is(r, "freshness", hit.citation.freshness)
        else hit.citation.freshness == "FRESH")
    && 100.0 * (hit.score - r.vectorScore) == |set t | t in q.terms && t in r.lexicalTerms| as real
  }

  lemma {:induction false} HitIsExactly(q: Query, r: Record)
    ensures HitOf(q, r).None? <==> !CanBeCited(r)
    ensures forall hit :: HitOf(q, r) == Some(hit) <==> IsHitOf(hit, q, r)
  {
    assert (set t | t in q.terms && t in r.lexicalTerms) == q.terms * r.lexicalTerms;
  }

  /** The higher score first; of equal scores the chunk that comes first in code-point order. */
  predicate ComesBefore(a: Hit, b: Hit) {
    && a.score >= b.score
    && (a.score == b.score && a.citation.chunkId != b.citation.chunkId ==> Less(a.citation.chunkId, b.citation.chunkId))
  }

  lemma {:induction false} PrecedesExactly(a: Hit, b: Hit)
    ensures Precedes(a, b) <==> ComesBefore(a, b)
  {
  }

  // ----- the listing -----

  /** What a query can show at all, in its order. */
  ghost predicate IsListing(q: Query, f: Filter, records: seq<Record>, listing: seq<Hit>) {
    && (forall i, j :: 0 <= i < j < |listing| ==> ComesBefore(listing[i], listing[j]))
    && (forall hit :: hit in listing <==>
          exists i :: 0 <= i < |records| && i < 200 && MayBeShown(f, records[i]) && IsHitOf(hit, q, records[i]))
    && |listing| == |set i | 0 <= i < |records| && i < 200 && MayBeShown(f, records[i])|
  }

  function ShownPlaces(f: Filter, rows: seq<Record>): set<int> { set i | 0 <= i < |rows| && MayBeShown(f, rows[i]) }

  lemma {:induction false} ShownPlacesStep(f: Filter, rows: seq<Record>)
    ensures rows == [] ==> ShownPlaces(f, rows) == {}
    ensures rows != [] ==>
              var n := |rows| - 1;
              |ShownPlaces(f, rows)| == |ShownPlaces(f, rows[..n])| + (if MayBeShown(f, rows[n]) then 1 else 0)
  {
    hide MayBeShown;
    if rows != [] {
      var n := |rows| - 1;
      assert forall i :: 0 <= i < n ==> rows[..n][i] == rows[i];
      assert ShownPlaces(f, rows) == ShownPlaces(f, rows[..n]) + (if MayBeShown(f, rows[n]) then {n} else {});
    }
  }

  lemma {:induction false} HitsAreCounted(q: Query, f: Filter, rows: seq<Record>)
    requires Hits(q, f, rows).Some?
    ensures |Hits(q, f, rows).value| == |ShownPlaces(f, rows)|
    decreases |rows|
  {
    hide Authorized, HitOf, MayBeShown, ShownPlaces;
    ShownPlacesStep(f, rows);
    if rows != [] {
      HitsAreCounted(q, f, rows[..|rows| - 1]);
      ShownExactly(f, rows[|rows| - 1]);
    }
  }

  /** The records that are looked at: the first two hundred. */
  lemma {:induction false} ScannedExactly(records: seq<Record>)
    ensures var rows := Scanned(records);
            && |rows| == (if |records| <= 200 then |records| else 200)
            && forall i :: 0 <= i < |rows| ==> rows[i] == records[i]
  {
  }

  lemma {:induction false} ListedExactly(q: Query, f: Filter, records: seq<Record>)
    requires Hits(q, f, Scanned(records)).Some?
    ensures IsListing(q, f, records, Listed(q, f, records))
  {
    hide Authorized, HitOf, MayBeShown, IsHitOf, Hits, Listed, Scanned, ComesBefore, Precedes, Sorting.Sort;
    var rows, listed := Scanned(records), Listed(q, f, records);
    var hits := Hits(q, f, rows).value;
    ScannedExactly(records);
    HitsExactly(q, f, rows);
    HitsAreCounted(q, f, rows);
    ListedIsSorted(q, f, records);
    forall i, j | 0 <= i < j < |listed| ensures ComesBefore(listed[i], listed[j]) {
      InRule(listed, i, j);
      PrecedesExactly(listed[i], listed[j]);
    }
    SamePlaces(f, rows, records);
    forall hit
      ensures hit in listed <==>
              exists i :: 0 <= i < |records| && i < 200 && MayBeShown(f, records[i]) && IsHitOf(hit, q, records[i])
    {
      assert hit in listed <==> hit in multiset(listed);
      assert hit in hits <==> hit in multiset(hits);
      HitPlaces(q, f, rows, records, hit);
    }
  }

  lemma {:induction false} InRule(listed: seq<Hit>, i: nat, j: nat)
    requires Sorting.Sorted(Rule(), listed) && i < j < |listed|
    ensures Precedes(listed[i], listed[j])
  {
    hide Precedes;
    assert Rule()(listed[i], listed[j]);
  }

  lemma {:induction false} SamePlaces(f: Filter, rows: seq<Record>, records: seq<Record>)
    requires |rows| == (if |records| <= 200 then |records| else 200)
    requires forall i :: 0 <= i < |rows| ==> rows[i] == records[i]
    ensures (set i | 0 <= i < |rows| && MayBeShown(f, rows[i])) ==
            (set i | 0 <= i < |records| && i < 200 && MayBeShown(f, records[i]))
  {
    hide MayBeShown;
  }

  lemma {:induction false} HitPlaces(q: Query, f: Filter, rows: seq<Record>, records: seq<Record>, hit: Hit)
    requires |rows| == (if |records| <= 200 then |records| else 200)
    requires forall i :: 0 <= i < |rows| ==> rows[i] == records[i]
    ensures (exists i :: 0 <= i < |rows| && Authorized(f, rows[i]) && HitOf(q, rows[i]) == Some(hit)) <==>
            exists i :: 0 <= i < |records| && i < 200 && MayBeShown(f, records[i]) && IsHitOf(hit, q, records[i])
  {
    hide Authorized, HitOf, MayBeShown, IsHitOf;
    forall i | 0 <= i < |rows|
      ensures Authorized(f, rows[i]) <==> MayBeShown(f, records[i])
      ensures HitOf(q, rows[i]) == Some(hit) <==> IsHitOf(hit, q, records[i])
    {
      ShownExactly(f, rows[i]);
      HitIsExactly(q, rows[i]);
    }
    if exists i :: 0 <= i < |rows| && Authorized(f, rows[i]) && HitOf(q, rows[i]) == Some(hit) {
      var i :| 0 <= i < |rows| && Authorized(f, rows[i]) && HitOf(q, rows[i]) == Some(hit);
      assert MayBeShown(f, records[i]) && IsHitOf(hit, q, records[i]);
    }
    if exists i :: 0 <= i < |records| && i < 200 && MayBeShown(f, records[i]) && IsHitOf(hit, q, records[i]) {
      var i :| 0 <= i < |records| && i < 200 && MayBeShown(f, records[i]) && IsHitOf(hit, q, records[i]);
      assert Authorized(f, rows[i]) && HitOf(q, rows[i]) == Some(hit);
    }
  }

  // ----- the search -----

  /** The names the filter must have, no fewer and no more. */
  predicate IsComplete(f: Filter) {
    f.names == {
      "tenant_id", "workspace_id", "source_ids", "asset_ids", "allowed_classifications", "classification",
      "governance_state", "safety_decision", "index_version", "policy_version"}
  }

  /** A record that may be shown lacks a member that its citation names. */
  ghost predicate SomeCannotBeCited(f: Filter, records: seq<Record>) {
    exists i :: 0 <= i < |records| && i < 200 && MayBeShown(f, records[i]) && !CanBeCited(records[i])
  }

  predicate IsAsked(q: Query, limit: int) { !q.blank && 1 <= limit <= 50 }

  /**
   * A search, exactly: each refusal in its turn; otherwise the page is the part of the listing that the
   * cursor and the limit say, and it has a cursor, to where it ends, exactly when the listing goes on.
   */
  lemma {:induction false} SearchExactly(
    q: Query, f: Filter, records: seq<Record>, cursor: Option<string>, limit: int) returns (listing: seq<Hit>)
    ensures var r := SearchPage(q, f, records, cursor, limit);
            && (r == Err(QueryInvalid) <==> !IsAsked(q, limit))
            && (r == Err(AccessDenied) <==> IsAsked(q, limit) && !IsComplete(f))
            && (r == Err(FieldMissing) <==> IsAsked(q, limit) && IsComplete(f) && SomeCannotBeCited(f, records))
            && (r == Err(CursorInvalid) <==>
                  IsAsked(q, limit) && IsComplete(f) && !SomeCannotBeCited(f, records) && DecodeCursor(cursor) == None)
            && (r.Ok? ==>
                  && IsListing(q, f, records, listing) && DecodeCursor(cursor).Some?
                  && IsPartOf(r.value, listing, DecodeCursor(cursor).value, limit))
  {
    hide Authorized, HitOf, MayBeShown, CanBeCited, Hits, Scanned, Slice, EncodeCursor, DecodeCursor, Sorting.Sort,
         IsListing;
    MissingExactly(q, f, records);
    listing := [];
    if Hits(q, f, Scanned(records)).Some? {
      listing := Listed(q, f, records);
      ListedExactly(q, f, records);
      ListedIsSorted(q, f, records);
      if IsAsked(q, limit) && DecodeCursor(cursor).Some? { PartExactly(listing, DecodeCursor(cursor).value, limit); }
    }
  }

  /** The page is this part of the listing. */
  predicate IsPartOf(page: Page, listing: seq<Hit>, offset: nat, limit: int) {
    && |page.results| == (if |listing| <= offset then 0
                          else if |listing| - offset <= limit then |listing| - offset else limit)
    && (forall i :: 0 <= i < |page.results| && offset + i < |listing| ==> page.results[i] == listing[offset + i])
    && (page.nextCursor.Some? <==> |listing| - offset > limit)
    && (page.nextCursor.Some? ==> DecodeCursor(page.nextCursor) == Some(offset + limit))
  }

  lemma {:induction false} PartExactly(listing: seq<Hit>, offset: nat, limit: nat)
    ensures IsPartOf(
              Page(Slice(listing, offset, limit),
                   if offset + limit < |listing| then EncodeCursor(offset + limit) else None), listing, offset, limit)
  {
    hide EncodeCursor, DecodeCursor;
    CursorRoundTrip(offset + limit);
  }

  lemma {:induction false} MissingExactly(q: Query, f: Filter, records: seq<Record>)
    ensures Hits(q, f, Scanned(records)).None? <==> SomeCannotBeCited(f, records)
  {
    hide Authorized, HitOf, MayBeShown, CanBeCited, Hits, Scanned;
    var rows := Scanned(records);
    ScannedExactly(records);
    HitsExactly(q, f, rows);
    forall i | 0 <= i < |rows|
      ensures Authorized(f, rows[i]) <==> MayBeShown(f, records[i])
      ensures HitOf(q, rows[i]) == None <==> !CanBeCited(records[i])
    {
      ShownExactly(f, rows[i]);
      HitIsExactly(q, rows[i]);
    }
    if SomeCannotBeCited(f, records) {
      var i :| 0 <= i < |records| && i < 200 && MayBeShown(f, records[i]) && !CanBeCited(records[i]);
      assert Authorized(f, rows[i]) && HitOf(q, rows[i]) == None;
    }
    if Hits(q, f, rows).None? {
      var i :| 0 <= i < |rows| && Authorized(f, rows[i]) && HitOf(q, rows[i]) == None;
      assert MayBeShown(f, records[i]) && !CanBeCited(records[i]);
    }
  }
}
