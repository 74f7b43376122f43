# gup-oai in Dafny

A model of the core of gup-oai, the OAI-PMH 2.0 provider of the GUP publication
database of the University of Gothenburg, with proofs about it. It covers three parts:

- **The MODS 3.7 crosswalk** (`OAIProvider` in `oai.py`). It turns one indexed publication
  record into a `mods` tree and builds the OAI record header. The input record is the
  `Publication` datatype, where a field that may be `None` is an `Option`. An XML element
  is the `Element(name, attrs, text, children)` datatype. The tree under construction is
  a `Node`, a class whose `Append` adds a child in place. Each `get_*`/`add_*` builder is
  a method of the `OAIProvider` class. It is proved to append exactly the section a pure
  function of the record describes (`Mods.Identifiers`, `Mods.Genres`, `Mods.HostItem`, …).
  Each section is thus written twice on purpose: as the method that builds it in place,
  as the source does, and as the function that specifies it; the method's postcondition
  proves the two equal, and the lemmas are stated about the function.
  `GetMetadata` is proved to build `Mods.Mods(p, env)`, and the lemmas state what the
  crosswalk promises about those sections.
- **The ListRecords verb** (`oai_repo/listrecords.py`). The request is a class whose
  `PostParse` resolves the filters, letting the resumption token's arguments take
  precedence over the bare arguments. `Body` checks the format, computes the cursor,
  lists a page, writes one record per identifier in a loop and builds the next
  resumption token. It is proved equal to the `Page` function. The properties of `Page`
  are proved as lemmas: the error cases, the page contents, and a continuation resuming
  the same request.
- **The GUP data interface** (`GUPProvider` in `gupprovider.py`). It chooses one of four
  Elasticsearch query bodies by the date bounds given, collects the identifiers of the
  hits in a loop, and lists the two metadata formats. It also builds GUP's own record
  header.

Modules, one per file: `Wrappers` (Option), `Xml` (elements and the `Node` class), `Text`
(`sanitize`, strip, split, decimal strings), `Vocabulary` (the lookup tables), `Publication`
(the input record), `Pages` (page ranges), `Header` (the record header), `Files` (file
visibility), `Authors` (author sorting and the `name` element), `Mods` (the sections and
the whole tree), `Provider` (the builder class), `ListRecords` and `GupProvider`. `Seqs`
holds generic sequence helpers.

The code is followed where the documented design of the verb says otherwise:

- A resumption token is built whenever the complete list is longer than one page, where
  the design's terminal-page rule builds one only when records remain after this page
  (`oai_repo/listrecords.py:83`). Whether that last token can be resumed depends on
  `ResumptionToken.xml`, which is not part of this model: it may render the empty
  terminal token of OAI-PMH 2.0.
- The token stores the cursor it was built for, and a continuation adds the page size to
  it (`oai_repo/listrecords.py:61-64`, `85`).
- Any empty page is `noRecordsMatch`, so a token that leads past the end yields
  `noRecordsMatch`, not `badResumptionToken` (`oai_repo/listrecords.py:74-75`).
- A request with only `from` or only `until` selects the opposite half of the dates
  (`gupprovider.py:55-58`).

## Model

| member | source | states |
|---|---|---|
| Text.Sanitize | oai.py:640-644 | `None` gives `""`; every character kept is printable or a newline or carriage return; the result has no leading or trailing whitespace |
| Text.SanitizeIdempotent | oai.py:640-644 | sanitizing a sanitized text changes nothing |
| Text.SanitizeKeepsOnlyKept | oai.py:643-644 | every character of the result comes from the input and is one `sanitize` keeps |
| Text.FilterMember | oai.py:644 | a character survives the filter exactly when it is in the input and printable, newline or carriage return |
| Text.StripShape | oai.py:644 | `strip` leaves a text with whitespace at neither end, made of characters of its input, and leaves an already trimmed text alone |
| Text.TrimLeftShape | oai.py:644 | the left strip removes exactly a whitespace prefix and stops at a non-whitespace character |
| Text.TrimRightShape | oai.py:644 | the right strip removes exactly a whitespace suffix and stops at a non-whitespace character |
| Text.Split | oai.py:458 | `split` on a separator yields one more piece than the separator occurs, and no piece holds the separator |
| Text.JoinSplit | oai.py:458 | joining the pieces of a split with the separator gives back the text |
| Text.SplitJoin | oai.py:458 | splitting a join of separator-free pieces gives back the pieces |
| Text.SplitPieceChars | oai.py:458 | every character of a piece is a character of the text and not the separator |
| Text.SplitInTwo | oai.py:597-598 | a split yields two pieces exactly when the separator occurs once, and they are the text before and after it |
| Text.SplitOnce | oai.py:597-598 | a text made of two separator-free parts around one separator splits into those parts |
| Text.Replace | oai.py:597 | `replace` of one character keeps the length and swaps exactly that character |
| Text.CountReplace | oai.py:597 | after replacing `a` by `b` the `b`s are the old `a`s and `b`s together, and no `a` is left |
| Text.CountStrip | oai.py:644 | stripping does not change how often a non-whitespace character occurs |
| Text.NatToString | oai.py:114 | `str` of a natural number is a non-empty string of digits |
| Text.NatToStringRoundTrip | oai.py:114 | reading back the digits of `str(n)` gives `n` |
| Text.NatToStringInjective | oai.py:114 | distinct numbers print differently |
| Vocabulary.LanguageCode | oai.py:380-449 | the code is `und` or one of the three-letter codes, and `und` exactly when the language is missing or not listed |
| Vocabulary.LanguageCodeLength | oai.py:380-449 | every code produced has three letters |
| Vocabulary.LanguageCodeIdempotent | oai.py:380-449 | every code produced maps to itself |
| Vocabulary.LanguageCodeOnKeys | oai.py:380-449 | a listed two-letter code maps to a different three-letter code; a listed three-letter code maps to itself |
| Vocabulary.TwoLetterKeys | oai.py:381-448 | the short keys of the table have two letters |
| Vocabulary.ThreeLetterKeys | oai.py:381-448 | the long codes of the table have three letters |
| Vocabulary.TwoLetterValues | oai.py:381-448 | every two-letter key maps to one of the listed three-letter codes |
| Vocabulary.UndeterminedIsNoCode | oai.py:449 | the fallback `und` is not a listed code |
| Vocabulary.IdentifierCode | oai.py:152-161 | a missing scheme stays missing; a scheme outside the six-entry table passes through; a listed one maps to a table value |
| Vocabulary.IdentifierCodeIdempotent | oai.py:152-161 | translating a translated scheme changes nothing |
| Vocabulary.PublicationTypeInfo | oai.py:331-362 | the content type is `ref`, `vet` or `pop`; an unlisted type gets `vet` and `publication/other` |
| Vocabulary.BookChapterContentType | oai.py:342 | a book chapter is `ref` exactly when the ref value is `ISREF`, and its output type is `publication/book-chapter` |
| Vocabulary.RefValueOnlyAffectsBookChapters | oai.py:331-362 | for every other type the ref value does not matter |
| Vocabulary.RoleCode | oai.py:319-328 | `edt` exactly for the four editor types, `aut` otherwise |
| Vocabulary.TypeOfResourceCode | oai.py:633-638 | `mixed material` exactly for the two artistic-work types, `text` otherwise |
| Pages.StartAndEndPage | oai.py:592-601 | a result means every character is a digit, dash, en-dash or space, and both parts are trimmed and dash-free |
| Pages.StartAndEndPageParses | oai.py:592-601 | there is a result exactly when every character is allowed and the text has one dash or en-dash |
| Pages.SanitizePageChars | oai.py:597 | on page characters `sanitize` only strips |
| Pages.StartAndEndPageOfPieces | oai.py:597-600 | when the normalized split yields two pieces, the result is those pieces stripped |
| Pages.StartAndEndPageOfRange | oai.py:592-601 | a hyphen range gives its two sides, stripped |
| Pages.StartAndEndPageOfEnDashRange | oai.py:592-601 | an en-dash range gives its two sides, stripped |
| Pages.EnDashNormalized | oai.py:597 | replacing the en-dash turns an en-dash range into a hyphen range |
| Pages.ExampleHyphenRange | oai.py:592-601 | `123-145` gives `123` and `145` |
| Pages.ExampleEnDashRange | oai.py:592-601 | `12–30` gives `12` and `30` |
| Pages.ExampleLoneDash | oai.py:598-600 | a lone dash gives two empty parts, which are not rejected |
| Pages.ExampleSinglePage | oai.py:598-601 | `123` gives no range |
| Pages.ExampleTwoDashes | oai.py:598-601 | `1-2-3` gives no range |
| Pages.ExampleFreeText | oai.py:594-595 | text with letters gives no range |
| Header.FormatTimestamp | oai.py:30-34 | a timestamp with or without fractional seconds becomes `YYYY-MM-DDThh:mm:ssZ` with the same date and time |
| Header.FormatTimestampDropsFraction | oai.py:32-34 | the fraction does not affect the datestamp |
| Header.FormatTimestampIdempotent | oai.py:30-34 | formatting the date and time of a datestamp again gives the same datestamp |
| Header.SetSpecs | oai.py:36-42 | the set specs are `["gu"]` exactly when `affiliated` is true, else empty |
| Header.BuildRecordHeader | oai.py:20-28 | the identifier is the prefix, a slash and the publication id; the datestamp is the update time to the second; the specs follow `affiliated`; the status is `deleted` exactly when `deleted` is true |
| Header.HeaderIdentifierRoundTrip | oai.py:23 | the identifier's part after the prefix is the decimal publication id and reads back to it |
| Files.NotAfterReflexive | oai.py:626 | the date order is reflexive |
| Files.NotAfterTransitive | oai.py:626 | the date order is transitive |
| Files.NotAfterTotal | oai.py:626 | any two dates are ordered |
| Files.HasViewableFileSpec | oai.py:621-626 | there is a viewable file exactly when some file is accepted and visible from a day not after today |
| Files.ViewableLater | oai.py:626 | a file viewable today stays viewable on every later day |
| Files.ViewableFromToday | oai.py:626 | an accepted file visible from today is viewable today |
| Authors.InsertByPosition | oai.py:174 | insertion adds the author to the list as a multiset, at the front or after the first |
| Authors.InsertByPositionSorted | oai.py:174 | inserting into a list sorted by position keeps it sorted |
| Authors.SortByPosition | oai.py:174 | the authors come out sorted by position and as a permutation of the input |
| Authors.SortByPositionStable | oai.py:174 | authors with the same position keep their relative order, as Python's stable sort does |
| Authors.SortByPositionOfSorted | oai.py:174 | a list already sorted by position is unchanged |
| Authors.SortByPositionIdempotent | oai.py:174 | sorting twice is sorting once |
| Authors.FirstIdentifierValueSpec | oai.py:287-291 | the value is that of the first identifier of the type, and `None` when no identifier has the type |
| Authors.IsAuthorAffiliatedSpec | oai.py:279-281 | an author is affiliated exactly when some department id is outside {666, 667} |
| Authors.AffiliationElementsShape | oai.py:221-275 | affiliation lines appear exactly when the list is given and some department counts; then they are the two university lines followed by the department lines |
| Authors.DepartmentLines | oai.py:262-275 | two lines per department, the excluded ones included |
| Authors.DepartmentLinesAt | oai.py:262-275 | department `i` gives its Swedish line, then its English line |
| Authors.NameParts | oai.py:188-198 | two name parts, three with a year of birth |
| Authors.AuthorElementAuthority | oai.py:180-187 | the name carries `authority="gu"` exactly when the first `xkonto` value is non-empty |
| Authors.AuthorElementParts | oai.py:180-219 | given name, family name, optional birth year, then the role, then the `xkonto` identifier and the ORCID each when it is usable, and the affiliation lines last; the length is the sum of those parts |
| Mods.ExternalIdentifier | oai.py:145-150 | an identifier element exactly when the source identifier has a scheme code |
| Mods.IdentifiersShape | oai.py:127-143 | the URI identifier comes first, an ISBN only for a monograph with a non-empty ISBN, then one per identifier with a scheme |
| Mods.ExternalIdentifierEmitted | oai.py:145-161 | an external identifier element appears exactly when some source identifier has a scheme translating to its type and the same value |
| Mods.UnknownSchemePassesThrough | oai.py:161 | a scheme missing from the table is written as it is |
| Mods.CategoriesAt | oai.py:104-125 | three elements per category: all classifications first, then an English and a Swedish subject per category |
| Mods.CategorySubjectLabel | oai.py:116-125 | a subject is labelled with the category's name in its language and links the category id |
| Mods.KeywordCount | oai.py:456-458 | one subject per comma-separated piece of the sanitized keywords |
| Mods.KeywordAt | oai.py:456-458 | every subject is trimmed, comma-free and made of kept characters |
| Mods.SanitizeCleanJoin | oai.py:457 | keywords joined by commas pass `sanitize` unchanged when clean |
| Mods.KeywordListOfJoin | oai.py:456-458 | clean keywords joined by commas come back as the same subjects |
| Mods.LanguageTerm | oai.py:365-376 | with the key present, the language term has three letters, and is `und` exactly when the language is missing or unlisted |
| Mods.GenresShape | oai.py:293-316 | output type first, the `artistic-work` output type exactly when the artistic basis is true, content type last |
| Mods.GenreContentType | oai.py:293-362 | a book chapter's content type is `ref` exactly for `ISREF`; an unlisted type gives `vet` and `publication/other` |
| Mods.AuthorsInPositionOrder | oai.py:172-178 | one `name` per author, in an order sorted by position that permutes the authors |
| Mods.CreatorCountMatchesAuthors | oai.py:475-478 | the creator count is the decimal number of `name` elements written |
| Mods.HostTitles | oai.py:506-513 | only title elements, and at least one when the source title or venue is set |
| Mods.HostIdentifier | oai.py:518-529 | an identifier element exactly when the value is non-empty, typed with the kind and holding the sanitized value |
| Mods.HostIdentifiers | oai.py:514-529 | only identifier elements |
| Mods.HostTitlesLayout | oai.py:506-513 | one title per set source title and venue, the sanitized source title first and the sanitized venue last |
| Mods.HostIdentifiersLayout | oai.py:514-529 | one identifier per set ISSN, e-ISSN and ISBN in that order, each sanitized; both ISSNs typed `issn`; an ISBN identifier exactly when the ISBN is set |
| Mods.PartLayout | oai.py:530-565 | one detail per set volume, issue and article number in that order with sanitized numbers, then the pages element when the pages are set |
| Mods.PartDetailPresence | oai.py:535-550 | a volume, issue or article number detail appears in the `part` exactly when that field is set |
| Mods.PagesElementNotDetail | oai.py:552-565 | the pages element is an extent or a `citation` detail, never a numbered detail of another type |
| Mods.Part | oai.py:535-565 | a `part` element exactly when volume, issue, article number or pages is set |
| Mods.HostItemPart | oai.py:497-565 | the host item ends with its `part` exactly when one of those is set |
| Mods.PagesElementKind | oai.py:552-565 | pages become an extent exactly when they parse as a range, else a citation caption of the sanitized text |
| Mods.SeriesElement | oai.py:574-590 | a series is written exactly when it has a title |
| Mods.SeriesElementLayout | oai.py:574-590 | a titled series is a `relatedItem` of type `series` whose title info holds the title and the part number when set, followed by the ISSN when set, all unsanitized |
| Mods.SeriesCount | oai.py:567-590 | one related item per series with a title |
| Mods.FullTextShown | oai.py:603-626 | location and electronic form appear together, exactly when some file is viewable, and stay on later days |
| Mods.ModsHead | oai.py:49-51 | the tree starts with the record info and the URI identifier |
| Mods.ModsTail | oai.py:62-65 | the tree ends with the type of resource |
| Mods.ModsFrame | oai.py:48-80 | the `mods` root holds the record info, the URI identifier first and the type of resource last |
| Provider.WithSortedAuthors | oai.py:172-175 | sorting in place leaves every other field alone and sorts the authors by position as a permutation |
| Provider.SortedAuthorsSameSections | oai.py:58-59 | the sections written after the sort are those of the unsorted record |
| Provider.SortedAuthorsSameOrigin | oai.py:60 | the origin info does not depend on the author order |
| Provider.SortedAuthorsSameHost | oai.py:61 | the host item does not depend on the author order |
| Provider.SortedAuthorsSameSeries | oai.py:62 | the series do not depend on the author order |
| Provider.SortedAuthorsSameFiles | oai.py:63-65 | location, physical description and type of resource do not depend on the author order |
| Provider.PersonIdentifierValue | oai.py:287-291 | the loop with early return finds the first identifier of the type |
| Provider.NewNameElement | oai.py:180-219 | a fresh `name` element with the personal type, the `gu` authority when usable, the name parts, the role and the identifiers |
| Provider.AddAffiliation | oai.py:221-275 | appends exactly the affiliation lines of the author to the `name` element |
| Provider.NewHostIdentification | oai.py:506-529 | the host titles followed by the ISSN, e-ISSN and ISBN identifiers that are set |
| Provider.NewPart | oai.py:536-565 | the `part` element with its volume, issue, article number and pages details |
| Provider.SetMods | oai.py:68-80 | a fresh `mods` root with the schema location and version 3.7 and no children |
| Provider.OAIProvider.constructor | oai.py:9-11 | no record is loaded |
| Provider.OAIProvider.GetOaiData | oai.py:13-18 | loads the hit's record, builds exactly the MODS tree of it, and leaves the record with its authors sorted |
| Provider.OAIProvider.GetMetadata | oai.py:48-66 | builds exactly `Mods.Mods` of the loaded record, builder by builder |
| Provider.OAIProvider.GetRecordInfo | oai.py:82-86 | appends the record info with content source `gu` |
| Provider.OAIProvider.GetIdentifiers | oai.py:127-132 | appends exactly the identifiers section |
| Provider.OAIProvider.AddUri | oai.py:134-137 | appends the URI identifier: the prefix, a slash and the id |
| Provider.OAIProvider.AddIsbn | oai.py:139-143 | appends the ISBN identifier exactly when the ISBN is non-empty |
| Provider.OAIProvider.AddIdentifier | oai.py:145-150 | appends an identifier exactly when the scheme is set |
| Provider.OAIProvider.GetTitle | oai.py:163-169 | appends the title info with the sanitized title and the subtitle when set |
| Provider.OAIProvider.GetAbstract | oai.py:99-102 | appends the sanitized abstract exactly when set |
| Provider.OAIProvider.GetCategories | oai.py:104-108 | appends all classifications, then the English and Swedish subjects per category |
| Provider.OAIProvider.AddCategoryAsClassification | oai.py:110-114 | appends the `ssif` classification with the category id |
| Provider.OAIProvider.AddCategoryAsSubject | oai.py:119-125 | appends the subject in the language given |
| Provider.OAIProvider.GetSubjects | oai.py:451-458 | appends one subject per keyword of the sanitized keywords, when set |
| Provider.OAIProvider.AddSubjects | oai.py:458 | the loop appends one subject per piece, stripped, in order |
| Provider.OAIProvider.AddSubject | oai.py:460-463 | appends a subject with the topic given |
| Provider.OAIProvider.GetLanguage | oai.py:365-376 | appends the language term exactly when the record has the key |
| Provider.OAIProvider.GetGenre | oai.py:293-316 | appends the genres: output type, optional artistic work, content type |
| Provider.OAIProvider.GetAuthors | oai.py:172-178 | sorts the record's authors in place and appends one `name` per author in that order |
| Provider.OAIProvider.AddAuthor | oai.py:180-219 | appends the author's complete `name` element |
| Provider.OAIProvider.GetNotes | oai.py:465-478 | appends the publication status note and the creator count note |
| Provider.OAIProvider.GetOriginInfo | oai.py:480-495 | appends the origin info with the year, publisher and place that are set |
| Provider.OAIProvider.GetRelatedItem | oai.py:497-565 | appends the host item exactly when the record is not a monograph and has a source title or venue |
| Provider.OAIProvider.GetSeries | oai.py:567-572 | appends the related items of the series with a title |
| Provider.OAIProvider.AddSeries | oai.py:574-590 | appends the series with its part number and ISSN when set, exactly when it has a title |
| Provider.OAIProvider.GetLocation | oai.py:603-611 | appends the full text location exactly when a file is viewable |
| Provider.OAIProvider.GetPhysicalDescription | oai.py:613-619 | appends the electronic form exactly when a file is viewable |
| Provider.OAIProvider.GetTypeOfResource | oai.py:628-631 | appends the type of resource |
| ListRecords.ListRecordsRequest.constructor | oai_repo/listrecords.py:24-29 | required `metadataPrefix`, optional `from`, `until`, `set`, exclusive `resumptionToken`, a fresh token |
| ListRecords.FirstMatchOfSpec | oai_repo/listrecords.py:33-38 | the value comes from the first source that has the key, and is `None` when none has it |
| ListRecords.FirstMatch | oai_repo/listrecords.py:33-38 | the loop with early return computes that first match |
| ListRecords.Resolve | oai_repo/listrecords.py:43-46 | the token's argument wins, then the bare argument, else `None` |
| ListRecords.ListRecordsRequest.PostParse | oai_repo/listrecords.py:31-48 | parses a given token, resolves the four arguments, and reports `badResumptionToken` exactly when a token is given and no prefix resolves |
| ListRecords.TokenArgsContents | oai_repo/listrecords.py:88-94 | the token carries the prefix, and each filter exactly when it is non-empty |
| ListRecords.NewToken | oai_repo/listrecords.py:84-94 | the new token holds the cursor served, the list size, the state and those arguments |
| ListRecords.Body | oai_repo/listrecords.py:53-97 | the response, record by record and with the token, is `Page` of the request |
| ListRecords.UnsupportedFormatFirst | oai_repo/listrecords.py:55-59 | a missing or unsupported prefix is `cannotDisseminateFormat`, whatever the listing would return |
| ListRecords.EmptyPageNoRecordsMatch | oai_repo/listrecords.py:74-75 | `noRecordsMatch` exactly when the page is empty, whatever the cursor |
| ListRecords.PageContents | oai_repo/listrecords.py:61-96 | one record per identifier in order, then at most the token; a token exactly when the list size exceeds the page size, holding the cursor (0 first, token cursor plus page size later), size, state and arguments |
| ListRecords.ContinuationResumes | oai_repo/listrecords.py:40-94 | a continuation resolves the same prefix and non-empty filters, and is served one page further on |
| ListRecords.ContinuationKeepsArgs | oai_repo/listrecords.py:40-94 | the token a continuation would build carries the same arguments |
| ListRecords.StorePage | oai_repo/listrecords.py:66-72 | a store serving `limit` records from the cursor reports the full size |
| ListRecords.LastPageMintsToken | oai_repo/listrecords.py:83 | as written, the last page of a list longer than one page still builds a token, and the page at its cursor is empty |
| ListRecords.CorrectedTokenIffMore | oai_repo/listrecords.py:83 | with the corrected test a resumable token is built exactly when the next page is not empty, one page further on |
| ListRecords.WalkServesAll | oai_repo/listrecords.py:61-96 | following the corrected tokens serves every record from the cursor to the end, once and in order |
| GupProvider.ListQueryShapes | gupprovider.py:53-60 | no bound gives only the `source=gup` term; both give the inclusive range; only `until` gives `gte until`; only `from` gives `lte from`; the term is always last |
| GupProvider.ListQueryPaging | gupprovider.py:93-94 | every query starts at the cursor and asks for one page |
| GupProvider.ListQueryOpenBoundsSwapped | gupprovider.py:55-129 | as written, only `from` selects the records updated on or before it, and only `until` those updated on or after it |
| GupProvider.FromOnlySelectsEarlierRecord | gupprovider.py:57-83 | a harvest from 2020-01-01 selects a record updated on 2019-06-01 |
| GupProvider.IntendedListQuerySelectsHarvest | gupprovider.py:53-60 | the corrected dispatch selects exactly the records within the bounds given |
| GupProvider.IntendedAgreesOnClosedAndOpen | gupprovider.py:53-60 | with no bound or both the corrected and as-written queries coincide |
| GupProvider.GUPProvider.constructor | gupprovider.py:9-13 | the index is `publications` and the page size is the configured count |
| GupProvider.GUPProvider.ListIdentifiers | gupprovider.py:49-67 | the hits' ids in hit order, the total unchanged, no state; the set argument does not enter the query |
| GupProvider.BuildMetadataFormatObject | gupprovider.py:185-197 | a format exactly for `oai_dc` and `mods`, carrying that prefix |
| GupProvider.MetadataFormatsAre | gupprovider.py:44-197 | the formats are `oai_dc` then `mods`, and the MODS namespace and schema are those the crosswalk's root declares |
| GupProvider.BuildRecordHeader | gupprovider.py:199-211 | requires fractional seconds (the source raises `ValueError` otherwise); echoes the identifier, the datestamp is the update time to the second with `Z`, never deleted |
| GupProvider.SecondTimestampOnlyInCrosswalk | gupprovider.py:207 | a second-precision timestamp is formatted by the crosswalk but lacks the fraction the GUP header's `strptime` needs |
| GupProvider.GupDatestampAgrees | gupprovider.py:207 | on a timestamp with fractional seconds the datestamp equals the crosswalk's |

## Left out

- Elasticsearch (`es.search`, `es.get`, `es.exists`) and the client construction are network I/O. The search is the function `search` given to `ListIdentifiers`, and the document fetched for a header is represented by its `updated_at` string.
- `os.environ` (`IDENTIFIER_PREFIX`, `URI_PREFIX`, `COUNT`) and `datetime.now()` become parameters: the identifier prefix, the `Env` record with the URI prefix and today's date, and the page size.
- lxml namespaces and the namespace map of `set_mods`: attributes are plain name/value pairs, so the namespace-qualified `{http://www.w3.org/2001/XMLSchema-instance}type`, `{...}schemaLocation` and `{http://www.w3.org/1999/xlink}href` are written with the prefixed names `xsi:type`, `xsi:schemaLocation` and `xlink:href`.
- The `mods` children are appended to a `Node`; sub-elements (`name`, `relatedItem`, `part`) are assembled as values before being attached, where lxml attaches them first and fills them afterwards. The finished tree is the same; aliasing between lxml elements is not modelled.
- `get_oai_data` sorts the authors of the caller's hit in place, since `publication_json` aliases it; the model keeps the sorted record only in the provider.
- Python's `isprintable`, `isdigit` and Unicode whitespace are approximated by fixed character ranges (`Text.IsPrintable`, `Text.IsWhitespace`, ASCII digits).
- `strptime` and `strftime` are string-shape predicates on `YYYY-MM-DDThh:mm:ss[.f]` with zero-padded digits; the ranges of months, days and hours are not checked. Dates compare as strings, which orders dates of that shape correctly.
- `ResumptionToken` parsing and its XML, `OAIRequest`'s generic argument validation and `record()` live in files that are not part of this model: they are the `parse`, `tokenXml` and `record` parameters. The request's token before parsing is taken as empty.
- `repository.valid_date` is the `validDate` parameter, and `get_metadata_formats` of the ListRecords repository is its `formats` set.
- `MetadataFormat` is defined in the `oai_repo` package, which is not part of this model; its three arguments are taken as prefix, schema and namespace, in that order.
- `get_identify`, `get_record_abouts` and `is_valid_identifier` are configuration constants or store lookups. `get_record_metadata` and `get_record_header` are one-line forwards: the first passes an identifier where `get_oai_data` expects a hit (gupprovider.py:27), and the provider is built with an argument its constructor does not accept (gupprovider.py:13). Neither is modelled.
- The `__main__` block of oai.py prints a document for a command-line id.
- `Publication`: `Person.identifiers`, `categories` and `publication_identifiers` are plain sequences and every key the crosswalk reads with `[...]` is a field, so the `TypeError` of iterating a null list (oai.py:106, oai.py:108, oai.py:132, oai.py:288) and the `KeyError` of a missing key are not modelled.
- ListRecords.CorrectedNextToken: on the last page it builds no token at all; the empty terminal `resumptionToken` element that OAI-PMH 2.0 asks the last response to carry is not modelled.
- Header.Strftime: the four-digit year is kept as written, whereas glibc's `%Y` prints a year below 1000 without zero padding.
- `Authors.SortByPosition`: Python's `list.sort` is modelled by a stable insertion sort on the position key, not by its algorithm.

## Findings

| source | as written | input that shows it | evidently intended | confidence | as-written member | corrected member |
|---|---|---|---|---|---|---|
| oai_repo/listrecords.py:83 | a resumption token is built whenever `new_size > limit`, also on the last page | 25 records with a page size of 10: the third request (cursor 20) serves 5 records and still builds a token for cursor 30; if `ResumptionToken.xml` renders it as a token that can be resumed, following it lists from cursor 30, finds nothing and answers `noRecordsMatch` | build a resumable token only when more records follow, `cursor + len(identifiers) < new_size`, as the design's terminal-page rule says; the defect exists only if `ResumptionToken.xml`, which is not part of this model, does not render the last page's token as the empty terminal token of OAI-PMH 2.0 | low; not executed, depends on `ResumptionToken.xml` | ListRecords.LastPageMintsToken | ListRecords.CorrectedTokenIffMore |
| gupprovider.py:55-58 | only `until` calls `get_records_from_index_until_open(until_date)`, which filters `gte`; only `from` calls `get_records_from_index_from_open(from_date)`, which filters `lte` | `from=2020-01-01` alone selects a record updated on 2019-06-01 | swap the two calls, so that `from` bounds from below and `until` from above (section 2.7 of OAI-PMH 2.0) | high; not executed | GupProvider.FromOnlySelectsEarlierRecord | GupProvider.IntendedListQuerySelectsHarvest |
