/**
 * The GUP data interface behind the OAI-PMH endpoint (`GUPProvider`): the
 * Elasticsearch query `list_identifiers` chooses by the date bounds it is
 * given (selective harvesting, section 2.7 of OAI-PMH 2.0), the listing of
 * identifiers, the two metadata formats and the record header. The search and
 * the document fetch are parameters; a document is a map from field names to
 * values, and dates of one granularity compare as strings.
 */
module GupProvider {
  import opened Wrappers
  import opened Header
  import opened Files
  import Mods
  import Seqs

  // ---------------------------------------------------------------- query bodies

  /** A clause of a `bool` query's `must` list: `{'range': {field: {'gte': .., 'lte': ..}}}`
      with either bound optional, or `{'term': {field: value}}`. */
  datatype Clause =
    | RangeClause(field: string, gte: Option<string>, lte: Option<string>)
    | TermClause(field: string, value: string)

  /** A search body: the `must` clauses, `from` and `size`. */
  datatype SearchBody = SearchBody(must: seq<Clause>, from: int, size: int)

  /** Every query keeps to GUP's own records. */
  const SourceIsGup: Clause := TermClause("source", "gup")

  /** `get_records_from_index`: all GUP records. */
  function RecordsFromIndex(cursor: int, limit: int): SearchBody {
    SearchBody([SourceIsGup], cursor, limit)
  }

  /** `get_records_from_index_from_open`: records updated on or before `untilDate`. */
  function RecordsFromIndexFromOpen(untilDate: string, cursor: int, limit: int): SearchBody {
    SearchBody([RangeClause("updated_at", None, Some(untilDate)), SourceIsGup], cursor, limit)
  }

  /** `get_records_from_index_until_open`: records updated on or after `fromDate`. */
  function RecordsFromIndexUntilOpen(fromDate: string, cursor: int, limit: int): SearchBody {
    SearchBody([RangeClause("updated_at", Some(fromDate), None), SourceIsGup], cursor, limit)
  }

  /** `get_records_from_index_closed`: records updated between the two dates, both included. */
  function RecordsFromIndexClosed(fromDate: string, untilDate: string, cursor: int, limit: int): SearchBody {
    SearchBody([RangeClause("updated_at", Some(fromDate), Some(untilDate)), SourceIsGup], cursor, limit)
  }

  /** The query `list_identifiers` sends, as written: with only `until` it calls the
      function named for an open `until`, which ranges from its argument upwards, and
      with only `from` the one that ranges from its argument downwards. */
  function ListQuery(fromDate: Option<string>, untilDate: Option<string>, cursor: int, limit: int): SearchBody {
    if fromDate.None? && untilDate.None? then RecordsFromIndex(cursor, limit)
    else if fromDate.None? then RecordsFromIndexUntilOpen(untilDate.value, cursor, limit)
    else if untilDate.None? then RecordsFromIndexFromOpen(fromDate.value, cursor, limit)
    else RecordsFromIndexClosed(fromDate.value, untilDate.value, cursor, limit)
  }

  /** The four shapes of the query: no bounds, only `until` (a `gte` on the until date),
      only `from` (an `lte` on the from date), both (an inclusive range); the term on
      the source always comes last. */
  lemma ListQueryShapes(fromDate: Option<string>, untilDate: Option<string>, cursor: int, limit: int)
    ensures var q := ListQuery(fromDate, untilDate, cursor, limit);
      |q.must| >= 1 && q.must[|q.must| - 1] == TermClause("source", "gup")
      && (fromDate.None? && untilDate.None? <==> |q.must| == 1)
      && (fromDate.None? && untilDate.Some? ==> q.must[0] == RangeClause("updated_at", untilDate, None))
      && (fromDate.Some? && untilDate.None? ==> q.must[0] == RangeClause("updated_at", None, fromDate))
      && (fromDate.Some? && untilDate.Some? ==> q.must[0] == RangeClause("updated_at", fromDate, untilDate))
  {
  }

  /** Every query pages from the cursor, one page of `limit` at a time. */
  lemma ListQueryPaging(fromDate: Option<string>, untilDate: Option<string>, cursor: int, limit: int)
    ensures ListQuery(fromDate, untilDate, cursor, limit).from == cursor
    ensures ListQuery(fromDate, untilDate, cursor, limit).size == limit
  {
  }

  // ---------------------------------------------------------------- what a query selects

  /** A document the index holds, field by field. */
  type Document = map<string, string>

  /** Whether a document satisfies one clause; a bound is inclusive. */
  predicate ClauseMatches(c: Clause, doc: Document) {
    match c
    case RangeClause(field, gte, lte) =>
      field in doc && (gte.None? || NotAfter(gte.value, doc[field])) && (lte.None? || NotAfter(doc[field], lte.value))
    case TermClause(field, value) => field in doc && doc[field] == value
  }

  /** Whether a document satisfies every clause of a query. */
  predicate Selects(q: SearchBody, doc: Document) {
    forall i :: 0 <= i < |q.must| ==> ClauseMatches(q.must[i], doc)
  }

  /** What selective harvesting asks for: a GUP record updated no earlier than `from`
      and no later than `until`, each bound only when it is given. */
  predicate InHarvest(fromDate: Option<string>, untilDate: Option<string>, doc: Document) {
    "source" in doc && doc["source"] == "gup"
    && (fromDate.Some? ==> "updated_at" in doc && NotAfter(fromDate.value, doc["updated_at"]))
    && (untilDate.Some? ==> "updated_at" in doc && NotAfter(doc["updated_at"], untilDate.value))
  }

  /** As written, a request with only `from` selects the GUP records updated on or before
      that date, and one with only `until` those updated on or after it. */
  lemma ListQueryOpenBoundsSwapped(bound: string, doc: Document, cursor: int, limit: int)
    ensures Selects(ListQuery(Some(bound), None, cursor, limit), doc) <==> InHarvest(None, Some(bound), doc)
    ensures Selects(ListQuery(None, Some(bound), cursor, limit), doc) <==> InHarvest(Some(bound), None, doc)
  {
    var q1 := ListQuery(Some(bound), None, cursor, limit);
    var q2 := ListQuery(None, Some(bound), cursor, limit);
    assert Selects(q1, doc) <==> ClauseMatches(q1.must[0], doc) && ClauseMatches(q1.must[1], doc);
    assert Selects(q2, doc) <==> ClauseMatches(q2.must[0], doc) && ClauseMatches(q2.must[1], doc);
  }

  /** So a harvest from 2020-01-01 receives a record last updated on 2019-06-01. */
  lemma FromOnlySelectsEarlierRecord()
    ensures var doc := map["source" := "gup", "updated_at" := "2019-06-01"];
      Selects(ListQuery(Some("2020-01-01"), None, 0, 10), doc) && !InHarvest(Some("2020-01-01"), None, doc)
  {
    var doc := map["source" := "gup", "updated_at" := "2019-06-01"];
    ListQueryOpenBoundsSwapped("2020-01-01", doc, 0, 10);
    assert NotAfter("2019-06-01", "2020-01-01") by {
      assert "2019-06-01"[0] == "2020-01-01"[0] && "2019-06-01"[1] == "2020-01-01"[1];
      assert "2019-06-01"[2] < "2020-01-01"[2];
      assert "2019-06-01"[2..] == "19-06-01" && "2020-01-01"[2..] == "20-01-01";
      assert "2019-06-01"[1..] == "019-06-01" && "2020-01-01"[1..] == "020-01-01";
    }
    assert !NotAfter("2020-01-01", "2019-06-01") by {
      assert "2020-01-01"[1..] == "020-01-01" && "2019-06-01"[1..] == "019-06-01";
      assert "020-01-01"[1..] == "20-01-01" && "019-06-01"[1..] == "19-06-01";
    }
  }

  /** The query the names of the four functions promise: the open-`until` query for a
      request with only `from`, the open-`from` query for one with only `until`. */
  function IntendedListQuery(fromDate: Option<string>, untilDate: Option<string>, cursor: int, limit: int): SearchBody {
    if fromDate.None? && untilDate.None? then RecordsFromIndex(cursor, limit)
    else if fromDate.None? then RecordsFromIndexFromOpen(untilDate.value, cursor, limit)
    else if untilDate.None? then RecordsFromIndexUntilOpen(fromDate.value, cursor, limit)
    else RecordsFromIndexClosed(fromDate.value, untilDate.value, cursor, limit)
  }

  /** The intended query selects exactly the records of the harvest, for every
      combination of bounds. */
  lemma IntendedListQuerySelectsHarvest(fromDate: Option<string>, untilDate: Option<string>, cursor: int, limit: int, doc: Document)
    ensures Selects(IntendedListQuery(fromDate, untilDate, cursor, limit), doc) <==> InHarvest(fromDate, untilDate, doc)
  {
    var q := IntendedListQuery(fromDate, untilDate, cursor, limit);
    if fromDate.None? && untilDate.None? {
      assert Selects(q, doc) <==> ClauseMatches(q.must[0], doc);
    } else {
      assert Selects(q, doc) <==> ClauseMatches(q.must[0], doc) && ClauseMatches(q.must[1], doc);
    }
  }

  /** Only a request with one bound is affected: with no bound or both the two queries
      coincide. */
  lemma IntendedAgreesOnClosedAndOpen(fromDate: Option<string>, untilDate: Option<string>, cursor: int, limit: int)
    requires fromDate.None? <==> untilDate.None?
    ensures IntendedListQuery(fromDate, untilDate, cursor, limit) == ListQuery(fromDate, untilDate, cursor, limit)
  {
  }

  // ---------------------------------------------------------------- the provider

  /** A hit of the search, by the `id` of its `_source`. */
  datatype Hit = Hit(id: string)

  /** `results['hits']['hits']` and `results['hits']['total']['value']`. */
  datatype SearchResult = SearchResult(hits: seq<Hit>, total: int)

  /** The `id` of a hit. */
  function HitId(hit: Hit): string {
    hit.id
  }

  /** A metadata format: prefix, schema and namespace. */
  datatype MetadataFormat = MetadataFormat(metadataPrefix: string, schema: string, metadataNamespace: string)

  /** The prefixes `get_metadata_formats` lists. */
  const FormatPrefixes: seq<string> := ["oai_dc", "mods"]

  /** `build_metadata_format_object`: the two known formats; anything else has none. */
  function BuildMetadataFormatObject(prefix: string): (r: Option<MetadataFormat>)
    ensures r.Some? <==> prefix in FormatPrefixes
    ensures r.Some? ==> r.value.metadataPrefix == prefix
  {
    if prefix == "oai_dc" then
      Some(MetadataFormat("oai_dc", "http://www.openarchives.org/OAI/2.0/oai_dc.xsd", "http://www.openarchives.org/OAI/2.0/oai_dc/"))
    else if prefix == "mods" then
      Some(MetadataFormat("mods", Mods.ModsSchema, Mods.ModsNamespace))
    else None
  }

  /** `get_metadata_formats`: one format object per listed prefix. */
  function GetMetadataFormats(): seq<Option<MetadataFormat>> {
    Seqs.Map(BuildMetadataFormatObject, FormatPrefixes)
  }

  /** The formats are Dublin Core then MODS, each with its prefix, and the MODS format
      names the schema the crosswalk declares on its `mods` root. */
  lemma MetadataFormatsAre()
    ensures var r := GetMetadataFormats();
      |r| == 2 && r[0].Some? && r[1].Some?
      && r[0].value.metadataPrefix == "oai_dc" && r[1].value.metadataPrefix == "mods"
      && Mods.ModsAttrs[0].1 == r[1].value.metadataNamespace + " " + r[1].value.schema
  {
    var r := GetMetadataFormats();
    assert r[0] == BuildMetadataFormatObject("oai_dc") && r[1] == BuildMetadataFormatObject("mods");
  }

  /** The header `GUPProvider.build_recordheader` builds. */
  datatype GupRecordHeader = GupRecordHeader(identifier: string, datestamp: string, deleted: bool)

  /** `build_recordheader`, given the `updated_at` of the fetched document: the
      identifier as asked, the time at second precision, never deleted. Unlike the
      crosswalk's `format_timestamp` it parses with `%f` only, so the timestamp must
      carry fractional seconds. */
  function BuildRecordHeader(identifier: string, updatedAt: string): (h: GupRecordHeader)
    requires IsFractionTimestamp(updatedAt)
    ensures h.identifier == identifier && !h.deleted
    ensures IsDatestamp(h.datestamp) && h.datestamp[..19] == updatedAt[..19]
  {
    var d := Strftime(Strptime(updatedAt));
    assert d[..19] == updatedAt[..19];
    GupRecordHeader(identifier, d, false)
  }

  /** On a timestamp with fractional seconds both providers print the same datestamp. */
  lemma GupDatestampAgrees(identifier: string, updatedAt: string)
    requires IsFractionTimestamp(updatedAt)
    ensures BuildRecordHeader(identifier, updatedAt).datestamp == FormatTimestamp(updatedAt)
  {
    assert updatedAt[19] == '.';
  }

  /** A timestamp at second precision is one the crosswalk formats, by appending ".0"
      before parsing, and one the GUP header cannot parse: `strptime` with `%f` raises
      `ValueError` on it. */
  lemma SecondTimestampOnlyInCrosswalk(s: string)
    requires IsSecondTimestamp(s)
    ensures IsIndexTimestamp(s) && !IsFractionTimestamp(s)
    ensures FormatTimestamp(s) == s + "Z"
  {
  }

  /** `GUPProvider`: the index name and the page size (the COUNT setting). */
  class GUPProvider {
    const index: string
    const limit: int

    /** `__init__`, without the Elasticsearch client and the crosswalk. */
    constructor (count: int)
      ensures index == "publications" && limit == count
    {
      index := "publications";
      limit := count;
    }

    /** `list_identifiers`: choose the query by the bounds given, search, and collect the
        hits' ids in a loop. `search` is `es.search`; `setSpec` is accepted and ignored. */
    method ListIdentifiers(search: (string, SearchBody) -> SearchResult, metadataPrefix: string,
                           fromDate: Option<string>, untilDate: Option<string>, setSpec: Option<string>, cursor: int)
      returns (identifiers: seq<string>, totalSize: int, state: Option<string>)
      ensures var results := search(index, ListQuery(fromDate, untilDate, cursor, limit));
        identifiers == Seqs.Map(HitId, results.hits) && totalSize == results.total && state == None
    {
      var body: SearchBody;
      if fromDate.None? && untilDate.None? {
        body := RecordsFromIndex(cursor, limit);
      } else if fromDate.None? {
        body := RecordsFromIndexUntilOpen(untilDate.value, cursor, limit);
      } else if untilDate.None? {
        body := RecordsFromIndexFromOpen(fromDate.value, cursor, limit);
      } else {
        body := RecordsFromIndexClosed(fromDate.value, untilDate.value, cursor, limit);
      }
      var results := search(index, body);
      identifiers := [];
      for i := 0 to |results.hits|
        invariant identifiers == Seqs.Map(HitId, results.hits[..i])
      {
        identifiers := identifiers + [results.hits[i].id];
        Seqs.MapStep(HitId, results.hits, i);
      }
      assert results.hits[..|results.hits|] == results.hits;
      totalSize := results.total;
      state := None;
    }
  }
}
