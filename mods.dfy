/**
 * The MODS 3.7 crosswalk of `OAIProvider.get_metadata`: one function per
 * builder, each giving the elements that builder appends to the `mods`
 * root, and the whole tree. The builders read the publication record and
 * two settings: the URI prefix and today's date.
 */
module Mods {
  import opened Wrappers
  import opened Text
  import opened Xml
  import opened Vocabulary
  import opened Publication
  import opened Pages
  import opened Authors
  import opened Files
  import Seqs

  /** `URI_PREFIX` and the date of `datetime.now()`. */
  datatype Env = Env(uriPrefix: string, today: string)

  /** The crosswalk is defined on a record whose files can be checked for viewability. */
  predicate Readable(p: Publication, env: Env) {
    p.files.Some? ==> ScanDefined(p.files.value, env.today)
  }

  /** The URI of a publication: `URI_PREFIX/id`. */
  function PublicationUri(env: Env, id: nat): string {
    env.uriPrefix + "/" + NatToString(id)
  }

  // ---------------------------------------------------------------- recordInfo

  /** `get_record_info`. */
  const RecordInfo: Element := Element("recordInfo", [], None, [Leaf("recordContentSource", Some("gu"))])

  // ---------------------------------------------------------------- identifiers

  /** `add_uri`. */
  function UriIdentifier(env: Env, id: nat): Element {
    Element("identifier", [("type", "uri")], Some(PublicationUri(env, id)), [])
  }

  /** `add_isbn`, called for monographs only. */
  function IsbnIdentifier(p: Publication): seq<Element> {
    if IsMonograph(p.publicationTypeCode) && Truthy(p.isbn)
    then [Element("identifier", [("type", "isbn")], p.isbn, [])]
    else []
  }

  /** An identifier element of the given type. */
  function TypedIdentifier(kind: string, value: Option<string>): Element {
    Element("identifier", [("type", kind)], value, [])
  }

  /** `add_identifier`: skipped when the scheme code is missing. */
  function ExternalIdentifier(identifier: PublicationIdentifier): (r: seq<Element>)
    ensures |r| == if identifier.code.Some? then 1 else 0
  {
    match IdentifierCode(identifier.code)
    case None => []
    case Some(kind) => [TypedIdentifier(kind, identifier.value)]
  }

  /** `get_identifiers`. */
  function Identifiers(p: Publication, env: Env): seq<Element> {
    [UriIdentifier(env, p.publicationId)] + IsbnIdentifier(p) + Seqs.FlatMap(ExternalIdentifier, p.publicationIdentifiers)
  }

  /** Has a scheme code. */
  predicate HasScheme(identifier: PublicationIdentifier) {
    identifier.code.Some?
  }

  /** The URI identifier comes first; an ISBN follows exactly for a monograph with an
      ISBN; then one identifier per external identifier with a scheme code. */
  lemma IdentifiersShape(p: Publication, env: Env)
    ensures var r := Identifiers(p, env);
      var isbn := if IsMonograph(p.publicationTypeCode) && Truthy(p.isbn) then 1 else 0;
      r[0] == UriIdentifier(env, p.publicationId)
      && |r| == 1 + isbn + |Seqs.Select(HasScheme, p.publicationIdentifiers)|
      && (isbn == 1 ==> r[1] == TypedIdentifier("isbn", p.isbn))
  {
    Seqs.FlatMapLength(ExternalIdentifier, p.publicationIdentifiers, HasScheme);
  }

  /** An external identifier element is emitted exactly for a source identifier whose
      scheme code translates to its type and whose value is its text. */
  lemma ExternalIdentifierEmitted(p: Publication, kind: string, value: Option<string>)
    ensures TypedIdentifier(kind, value) in Seqs.FlatMap(ExternalIdentifier, p.publicationIdentifiers)
        <==> exists i :: 0 <= i < |p.publicationIdentifiers|
               && IdentifierCode(p.publicationIdentifiers[i].code) == Some(kind)
               && p.publicationIdentifiers[i].value == value
  {
    Seqs.FlatMapMembers(ExternalIdentifier, p.publicationIdentifiers, TypedIdentifier(kind, value));
  }

  /** A scheme code missing from the table is kept as the type. */
  lemma UnknownSchemePassesThrough(identifier: PublicationIdentifier)
    requires identifier.code.Some? && identifier.code.value !in IdentifierTable
    ensures ExternalIdentifier(identifier) == [TypedIdentifier(identifier.code.value, identifier.value)]
  {
  }

  // ---------------------------------------------------------------- title and abstract

  /** `get_title`: the sanitized title, and the subtitle when there is one. */
  function TitleInfo(p: Publication): Element {
    Element("titleInfo", [], None,
      [Leaf("title", Some(Sanitize(p.title)))]
      + (if Truthy(p.altTitle) then [Leaf("subTitle", Some(Sanitize(p.altTitle)))] else []))
  }

  /** `get_abstract`. */
  function Abstract(p: Publication): seq<Element> {
    if Truthy(p.abstractText) then [Leaf("abstract", Some(Sanitize(p.abstractText)))] else []
  }

  // ---------------------------------------------------------------- categories

  /** `add_category_as_classification`. */
  function Classification(c: Category): Element {
    Element("classification", [("authority", "ssif")], None, [Leaf("topic", Some(IntToString(c.svepId)))])
  }

  /** `get_category_field_name`: the Swedish name for "swe", the English one otherwise. */
  function CategoryName(c: Category, lang: string): Option<string> {
    if lang == "swe" then c.nameSv else c.nameEn
  }

  /** `add_category_as_subject`. */
  function CategorySubject(c: Category, lang: string): Element {
    Element("subject", [("lang", lang), ("authority", "uka.se"), ("xlink:href", IntToString(c.svepId))], None,
      [Leaf("topic", CategoryName(c, lang))])
  }

  function EnglishSubject(c: Category): Element {
    CategorySubject(c, "eng")
  }

  function SwedishSubject(c: Category): Element {
    CategorySubject(c, "swe")
  }

  /** `get_categories`: every classification, then the English and Swedish subject of each category. */
  function Categories(p: Publication): seq<Element> {
    Seqs.Map(Classification, p.categories) + Seqs.Pairs(EnglishSubject, SwedishSubject, p.categories)
  }

  /** Three elements per category: its classification in the first block, then its
      subjects in English and Swedish, labelled with the names in those languages. */
  lemma CategoriesAt(p: Publication, i: nat)
    requires i < |p.categories|
    ensures var r := Categories(p);
      var n := |p.categories|;
      |r| == 3 * n
      && r[i] == Classification(p.categories[i])
      && r[n + 2 * i] == CategorySubject(p.categories[i], "eng")
      && r[n + 2 * i + 1] == CategorySubject(p.categories[i], "swe")
  {
    Seqs.PairsAt(EnglishSubject, SwedishSubject, p.categories, i);
  }

  /** The subject of a category in a language carries the category's name in that
      language and its id as the link. */
  lemma CategorySubjectLabel(c: Category, lang: string)
    requires lang in {"eng", "swe"}
    ensures CategorySubject(c, lang).children[0].text == (if lang == "eng" then c.nameEn else c.nameSv)
    ensures Attr(CategorySubject(c, lang), "xlink:href") == Some(IntToString(c.svepId))
  {
    var e := CategorySubject(c, lang);
    assert Attr(e, "xlink:href") == AttrIn(e.attrs[1..], "xlink:href");
    assert e.attrs[1..][1..] == e.attrs[2..];
  }

  // ---------------------------------------------------------------- subjects

  /** The keywords: the sanitized text split on commas, each piece stripped. */
  function KeywordList(keywords: string): seq<string> {
    Seqs.Map(Strip, Split(Sanitize(Some(keywords)), ','))
  }

  /** `add_subject`. */
  function SubjectElement(keyword: string): Element {
    Element("subject", [], None, [Leaf("topic", Some(keyword))])
  }

  /** `get_subjects`. */
  function Subjects(p: Publication): seq<Element> {
    if Truthy(p.keywords) then Seqs.Map(SubjectElement, KeywordList(p.keywords.value)) else []
  }

  /** One keyword per comma-separated piece. */
  lemma KeywordCount(keywords: string)
    ensures |KeywordList(keywords)| == Count(Sanitize(Some(keywords)), ',') + 1
  {
  }

  /** Each keyword is trimmed and holds no comma, and only characters that `sanitize` keeps. */
  lemma KeywordAt(keywords: string, i: nat)
    requires i < |KeywordList(keywords)|
    ensures var k := KeywordList(keywords)[i];
      Trimmed(k) && ',' !in k && forall c :: c in k ==> Kept(c)
  {
    var s := Sanitize(Some(keywords));
    var piece := Split(s, ',')[i];
    assert KeywordList(keywords)[i] == Strip(piece);
    StripShape(piece);
    forall c | c in Strip(piece) ensures c != ',' && Kept(c) {
      SplitPieceChars(s, ',', i, c);
      SanitizeKeepsOnlyKept(keywords, c);
    }
  }

  /** A join of keywords that are non-empty, trimmed, free of commas and made of kept characters. */
  predicate CleanKeywords(keywords: seq<string>) {
    |keywords| >= 1
    && forall i :: 0 <= i < |keywords| ==>
         keywords[i] != [] && Trimmed(keywords[i]) && ',' !in keywords[i] && forall c :: c in keywords[i] ==> Kept(c)
  }

  /** Such a join is left as it is by `sanitize`. */
  lemma SanitizeCleanJoin(keywords: seq<string>)
    requires CleanKeywords(keywords)
    ensures Sanitize(Some(Join(keywords, ','))) == Join(keywords, ',')
  {
    var s := Join(keywords, ',');
    forall i | 0 <= i < |s| ensures Kept(s[i]) {
      JoinChars(keywords, ',', s[i]);
    }
    JoinEnds(keywords, ',');
    assert Trimmed(s);
    FilterAllKept(s);
    StripShape(s);
  }

  /** Clean keywords joined by commas are split back into the same keywords. */
  lemma KeywordListOfJoin(keywords: seq<string>)
    requires CleanKeywords(keywords)
    ensures KeywordList(Join(keywords, ',')) == keywords
  {
    SanitizeCleanJoin(keywords);
    SplitJoin(keywords, ',');
    var r := KeywordList(Join(keywords, ','));
    assert r == Seqs.Map(Strip, keywords);
    forall i | 0 <= i < |keywords| ensures r[i] == keywords[i] {
      StripShape(keywords[i]);
    }
  }

  // ---------------------------------------------------------------- language

  /** The `language` element of a code. */
  function LanguageElement(code: string): Element {
    Element("language", [], None, [Element("languageTerm", [("type", "code"), ("authority", "iso639-2b")], Some(code), [])])
  }

  /** `get_language`: present whenever the record has the key, null included. */
  function Language(p: Publication): seq<Element> {
    if p.publanguage.Some? then [LanguageElement(LanguageCode(p.publanguage.value))] else []
  }

  /** The language term is always a three-letter code, "und" for a missing or unlisted language. */
  lemma LanguageTerm(p: Publication)
    requires p.publanguage.Some?
    ensures var t := Language(p)[0].children[0].text.value;
      |t| == 3 && (t == "und" <==> p.publanguage.value.None? || !IsListedLanguage(p.publanguage.value.value))
  {
    LanguageCodeLength(p.publanguage.value);
  }

  // ---------------------------------------------------------------- genre

  /** A `genre` element. */
  function GenreElement(authority: string, kind: string, text: string): Element {
    Element("genre", [("authority", authority), ("type", kind)], Some(text), [])
  }

  /** `get_genre`: the output type, "artistic-work" for work on artistic basis, then the content type. */
  function Genres(p: Publication): seq<Element> {
    var info := PublicationTypeInfo(p.publicationTypeCode, p.refValue);
    [GenreElement("kb.se", "outputType", info.outputType)]
    + (if IsTrue(p.artisticBasis) then [GenreElement("kb.se", "outputType", "artistic-work")] else [])
    + [GenreElement("svep", "contentType", info.contentType)]
  }

  /** Two genres, three for work on artistic basis: output types first, content type last. */
  lemma GenresShape(p: Publication)
    ensures var r := Genres(p);
      var info := PublicationTypeInfo(p.publicationTypeCode, p.refValue);
      |r| == (if IsTrue(p.artisticBasis) then 3 else 2)
      && r[0] == GenreElement("kb.se", "outputType", info.outputType)
      && (IsTrue(p.artisticBasis) ==> r[1] == GenreElement("kb.se", "outputType", "artistic-work"))
      && r[|r| - 1] == GenreElement("svep", "contentType", info.contentType)
      && r[|r| - 1].text.value in {"ref", "vet", "pop"}
  {
  }

  /** A book chapter is "ref" content exactly when its indicator is "ISREF"; an unknown
      type is "vet" content of output type publication/other. */
  lemma GenreContentType(p: Publication)
    ensures var content := Genres(p)[|Genres(p)| - 1].text.value;
      (p.publicationTypeCode == BookChapter ==> (content == "ref" <==> p.refValue == Some("ISREF")))
      && (p.publicationTypeCode !in PublicationTypeTable(p.refValue) ==>
            content == "vet" && Genres(p)[0].text == Some("publication/other"))
  {
    GenresShape(p);
    BookChapterContentType(p.refValue);
  }

  // ---------------------------------------------------------------- authors and notes

  /** `get_authors`: the `name` elements of the authors in position order. */
  function AuthorsSection(p: Publication): seq<Element> {
    if p.authors.Some?
    then Seqs.Map(AuthorElementOf(p.publicationTypeCode), SortByPosition(p.authors.value))
    else []
  }

  /** One `name` element per author, following an ordering of the authors by position. */
  lemma AuthorsInPositionOrder(p: Publication)
    requires p.authors.Some?
    ensures exists s: seq<Author> ::
      SortedByPosition(s) && multiset(s) == multiset(p.authors.value)
      && |AuthorsSection(p)| == |s|
      && forall i :: 0 <= i < |s| ==> AuthorsSection(p)[i] == AuthorElement(s[i], p.publicationTypeCode)
  {
    var s := SortByPosition(p.authors.value);
    var r := AuthorsSection(p);
    assert r == Seqs.Map(AuthorElementOf(p.publicationTypeCode), s);
    forall i | 0 <= i < |s| ensures r[i] == AuthorElement(s[i], p.publicationTypeCode) {
      assert r[i] == AuthorElementOf(p.publicationTypeCode)(s[i]);
    }
  }

  /** The text of the creator count note. */
  function CreatorCount(p: Publication): string {
    if p.authors.Some? then NatToString(|p.authors.value|) else "0"
  }

  /** `get_notes`: the publication status, then the number of authors. */
  function Notes(p: Publication): seq<Element> {
    [Element("note", [("type", "publicationStatus")], Some(if Truthy(p.epubAheadOfPrint) then "Epub ahead of print" else "Published"), []),
     Element("note", [("type", "creatorCount")], Some(CreatorCount(p)), [])]
  }

  /** The creator count reads back as the number of `name` elements. */
  lemma CreatorCountMatchesAuthors(p: Publication)
    ensures var t := Notes(p)[1].text.value;
      (forall i :: 0 <= i < |t| ==> IsDigit(t[i])) && ParseDecimal(t) == |AuthorsSection(p)|
  {
    if p.authors.Some? {
      NatToStringRoundTrip(|p.authors.value|);
      assert |SortByPosition(p.authors.value)| == |p.authors.value| by {
        assert |multiset(SortByPosition(p.authors.value))| == |multiset(p.authors.value)|;
      }
    } else {
      assert ParseDecimal("0") == ParseDecimal([]) * 10 + DigitValue('0');
    }
  }

  // ---------------------------------------------------------------- originInfo

  /** `get_origin_info`: date issued, publisher and place, each when set. */
  function OriginInfo(p: Publication): Element {
    Element("originInfo", [], None,
      (if p.pubyear.Some? && p.pubyear.value != 0 then [Leaf("dateIssued", Some(IntToString(p.pubyear.value)))] else [])
      + (if Truthy(p.publisher) then [Leaf("publisher", Some(Sanitize(p.publisher)))] else [])
      + (if Truthy(p.place) then [Element("place", [], None, [Leaf("placeTerm", Some(Sanitize(p.place)))])] else []))
  }

  // ---------------------------------------------------------------- host item

  /** A `titleInfo` holding one title. */
  function TitleOnly(title: string): Element {
    Element("titleInfo", [], None, [Leaf("title", Some(title))])
  }

  /** The titles of the host: source title, then where it was made public. */
  function HostTitles(p: Publication): (r: seq<Element>)
    ensures forall i :: 0 <= i < |r| ==> r[i].name == "titleInfo"
    ensures Truthy(p.sourcetitle) || Truthy(p.madePublicIn) ==> r != []
  {
    (if Truthy(p.sourcetitle) then [TitleOnly(Sanitize(p.sourcetitle))] else [])
    + (if Truthy(p.madePublicIn) then [TitleOnly(Sanitize(p.madePublicIn))] else [])
  }

  /** An identifier of the host with the sanitized value, when there is a value. */
  function HostIdentifier(kind: string, value: Option<string>): (r: seq<Element>)
    ensures |r| <= 1 && forall i :: 0 <= i < |r| ==> r[i].name == "identifier"
    ensures r != [] <==> Truthy(value)
    ensures r != [] ==> Attr(r[0], "type") == Some(kind) && r[0].text == Some(Sanitize(value))
  {
    if Truthy(value) then [TypedIdentifier(kind, Some(Sanitize(value)))] else []
  }

  /** The identifiers of the host: ISSN, electronic ISSN and ISBN. */
  function HostIdentifiers(p: Publication): (r: seq<Element>)
    ensures forall i :: 0 <= i < |r| ==> r[i].name == "identifier"
  {
    var a, b, c := HostIdentifier("issn", p.issn), HostIdentifier("issn", p.eissn), HostIdentifier("isbn", p.isbn);
    assert forall i :: 0 <= i < |a + b| ==> (a + b)[i].name == "identifier";
    a + b + c
  }

  /** A `detail` element holding a number. */
  function Detail(kind: string, number: string): Element {
    Element("detail", [("type", kind)], None, [Leaf("number", Some(number))])
  }

  /** The page range: start and end pages when it parses, a citation caption otherwise. */
  function PagesElement(sourcepages: string): Element {
    match StartAndEndPage(sourcepages)
    case Some((start, end)) => Element("extent", [], None, [Leaf("start", Some(start)), Leaf("end", Some(end))])
    case None => Element("detail", [("type", "citation")], None, [Leaf("caption", Some(Sanitize(Some(sourcepages))))])
  }

  /** Any of volume, issue, article number and pages is set. */
  predicate HasPart(p: Publication) {
    Truthy(p.sourcevolume) || Truthy(p.sourceissue) || Truthy(p.articleNumber) || Truthy(p.sourcepages)
  }

  /** The details of the host: volume, issue, article number and pages, each when set. */
  function PartDetails(p: Publication): seq<Element> {
    (if Truthy(p.sourcevolume) then [Detail("volume", Sanitize(p.sourcevolume))] else [])
    + (if Truthy(p.sourceissue) then [Detail("issue", Sanitize(p.sourceissue))] else [])
    + (if Truthy(p.articleNumber) then [Detail("artNo", Sanitize(p.articleNumber))] else [])
    + (if Truthy(p.sourcepages) then [PagesElement(p.sourcepages.value)] else [])
  }

  /** The `part` of the host, when it has anything to hold. */
  function Part(p: Publication): (r: seq<Element>)
    ensures |r| <= 1 && (r != [] <==> HasPart(p)) && (r != [] ==> r[0].name == "part")
  {
    if HasPart(p) then [Element("part", [], None, PartDetails(p))] else []
  }

  /** The host is described for a non-monograph with a source title or a venue. */
  predicate HasHost(p: Publication) {
    !IsMonograph(p.publicationTypeCode) && (Truthy(p.sourcetitle) || Truthy(p.madePublicIn))
  }

  /** `get_related_item`. */
  function HostItem(p: Publication): seq<Element> {
    if HasHost(p)
    then [Element("relatedItem", [("type", "host")], None, HostTitles(p) + HostIdentifiers(p) + Part(p))]
    else []
  }

  /** The host item holds a `part` as its last child exactly when one of volume, issue,
      article number and pages is set. */
  lemma HostItemPart(p: Publication)
    requires HasHost(p)
    ensures var c := HostItem(p)[0].children;
      |c| >= 1 && (c[|c| - 1].name == "part" <==> HasPart(p))
  {
    var titles, ids, part := HostTitles(p), HostIdentifiers(p), Part(p);
    Seqs.LastOfConcat(titles + ids, part);
    Seqs.LastOfConcat(titles, ids);
  }

  /** The host titles: one per set title, the sanitized source title first and the
      sanitized venue last. */
  lemma HostTitlesLayout(p: Publication)
    ensures var r := HostTitles(p);
      |r| == TruthyCount(p.sourcetitle) + TruthyCount(p.madePublicIn)
      && (Truthy(p.sourcetitle) ==> r[0] == TitleOnly(Sanitize(p.sourcetitle)))
      && (Truthy(p.madePublicIn) ==> r[|r| - 1] == TitleOnly(Sanitize(p.madePublicIn)))
  {
  }

  /** The host identifiers: one per set ISSN, electronic ISSN and ISBN, in that order,
      each with its sanitized value; both ISSNs are typed "issn", and an ISBN identifier
      appears exactly when the ISBN is set. */
  lemma HostIdentifiersLayout(p: Publication)
    ensures var r := HostIdentifiers(p);
      var i, e := TruthyCount(p.issn), TruthyCount(p.eissn);
      |r| == i + e + TruthyCount(p.isbn)
      && (Truthy(p.issn) ==> r[0] == TypedIdentifier("issn", Some(Sanitize(p.issn))))
      && (Truthy(p.eissn) ==> r[i] == TypedIdentifier("issn", Some(Sanitize(p.eissn))))
      && (Truthy(p.isbn) ==> r[i + e] == TypedIdentifier("isbn", Some(Sanitize(p.isbn))))
      && (forall k :: 0 <= k < i + e ==> Attr(r[k], "type") == Some("issn"))
      && (TypedIdentifier("isbn", Some(Sanitize(p.isbn))) in r <==> Truthy(p.isbn))
  {
    var a, b, c := HostIdentifier("issn", p.issn), HostIdentifier("issn", p.eissn), HostIdentifier("isbn", p.isbn);
    assert HostIdentifiers(p) == a + b + c;
    assert forall k :: 0 <= k < |a + b| ==> Attr((a + b)[k], "type") == Some("issn");
  }

  /** The details of a `part`: one per set volume, issue, article number and pages, in
      that order, the numbers sanitized and the pages last. */
  lemma PartLayout(p: Publication)
    requires HasPart(p)
    ensures var d := Part(p)[0].children;
      var v, s, a := TruthyCount(p.sourcevolume), TruthyCount(p.sourceissue), TruthyCount(p.articleNumber);
      |d| == v + s + a + TruthyCount(p.sourcepages)
      && (Truthy(p.sourcevolume) ==> d[0] == Detail("volume", Sanitize(p.sourcevolume)))
      && (Truthy(p.sourceissue) ==> d[v] == Detail("issue", Sanitize(p.sourceissue)))
      && (Truthy(p.articleNumber) ==> d[v + s] == Detail("artNo", Sanitize(p.articleNumber)))
      && (Truthy(p.sourcepages) ==> d[v + s + a] == PagesElement(p.sourcepages.value))
  {
  }

  /** A volume, issue or article number detail appears in the `part` exactly when that
      field is set. */
  lemma PartDetailPresence(p: Publication)
    requires HasPart(p)
    ensures var d := Part(p)[0].children;
      (Detail("volume", Sanitize(p.sourcevolume)) in d <==> Truthy(p.sourcevolume))
      && (Detail("issue", Sanitize(p.sourceissue)) in d <==> Truthy(p.sourceissue))
      && (Detail("artNo", Sanitize(p.articleNumber)) in d <==> Truthy(p.articleNumber))
  {
    if Truthy(p.sourcepages) {
      PagesElementNotDetail(p.sourcepages.value, "volume", Sanitize(p.sourcevolume));
      PagesElementNotDetail(p.sourcepages.value, "issue", Sanitize(p.sourceissue));
      PagesElementNotDetail(p.sourcepages.value, "artNo", Sanitize(p.articleNumber));
    }
  }

  /** The pages element is never a numbered detail. */
  lemma PagesElementNotDetail(sourcepages: string, kind: string, number: string)
    requires kind != "citation"
    ensures PagesElement(sourcepages) != Detail(kind, number)
  {
  }

  /** The pages of the host become an extent exactly when they parse as one range. */
  lemma PagesElementKind(sourcepages: string)
    ensures PagesElement(sourcepages).name == "extent" <==> AllPageChars(sourcepages) && DashCount(sourcepages) == 1
    ensures PagesElement(sourcepages).name != "extent" ==>
      PagesElement(sourcepages).children[0].text == Some(Sanitize(Some(sourcepages)))
  {
    StartAndEndPageParses(sourcepages);
  }

  // ---------------------------------------------------------------- series

  /** `add_series`: skipped for a series without a title. */
  function SeriesElement(serie: Serie): (r: seq<Element>)
    ensures |r| == if Truthy(serie.title) then 1 else 0
  {
    if Truthy(serie.title) then
      [Element("relatedItem", [("type", "series")], None,
        [Element("titleInfo", [], None,
          [Leaf("title", serie.title)] + (if Truthy(serie.part) then [Leaf("partNumber", serie.part)] else []))]
        + (if Truthy(serie.issn) then [TypedIdentifier("issn", serie.issn)] else []))]
    else []
  }

  /** A series with a title: a series item whose title info holds the title and, when
      set, the part number, followed by the ISSN when set; the values are written as
      they are, without sanitizing. */
  lemma SeriesElementLayout(serie: Serie)
    requires Truthy(serie.title)
    ensures var r := SeriesElement(serie)[0];
      r.name == "relatedItem" && Attr(r, "type") == Some("series")
      && |r.children| == 1 + TruthyCount(serie.issn)
      && r.children[0].name == "titleInfo"
      && |r.children[0].children| == 1 + TruthyCount(serie.part)
      && r.children[0].children[0] == Leaf("title", serie.title)
      && (Truthy(serie.part) ==> r.children[0].children[1] == Leaf("partNumber", serie.part))
      && (Truthy(serie.issn) ==> r.children[1] == TypedIdentifier("issn", serie.issn))
  {
  }

  /** Has a title. */
  predicate HasTitle(serie: Serie) {
    Truthy(serie.title)
  }

  /** `get_series`. */
  function SeriesSection(p: Publication): seq<Element> {
    if p.series.Some? && p.series.value != [] then Seqs.FlatMap(SeriesElement, p.series.value) else []
  }

  /** One series item per series with a title. */
  lemma SeriesCount(p: Publication)
    ensures |SeriesSection(p)| == if p.series.Some? then |Seqs.Select(HasTitle, p.series.value)| else 0
  {
    if p.series.Some? {
      Seqs.FlatMapLength(SeriesElement, p.series.value, HasTitle);
    }
  }

  // ---------------------------------------------------------------- files

  /** `files and has_viewable_file(files)`. */
  predicate ShowsFullText(p: Publication, env: Env)
    requires Readable(p, env)
  {
    p.files.Some? && p.files.value != [] && HasViewableFile(p.files.value, env.today)
  }

  /** `get_location`: the full text URL. */
  function Location(p: Publication, env: Env): seq<Element>
    requires Readable(p, env)
  {
    if ShowsFullText(p, env) then
      [Element("location", [], None,
        [Element("url", [("note", "free"), ("usage", "primary"), ("displayLabel", "FULLTEXT")], Some(PublicationUri(env, p.publicationId)), [])])]
    else []
  }

  /** `get_physical_description`. */
  function PhysicalDescription(p: Publication, env: Env): seq<Element>
    requires Readable(p, env)
  {
    if ShowsFullText(p, env)
    then [Element("physicalDescription", [], None, [Element("form", [("authority", "marcform")], Some("electronic"), [])])]
    else []
  }

  /** The location and the electronic form appear together, exactly when some file is
      accepted and visible today; once they appear they stay on every later day. */
  lemma FullTextShown(p: Publication, env: Env, later: Env)
    requires Readable(p, env) && Readable(p, later)
    requires later.uriPrefix == env.uriPrefix && NotAfter(env.today, later.today)
    ensures |Location(p, env)| == |PhysicalDescription(p, env)|
    ensures Location(p, env) != [] <==> p.files.Some? && exists i :: 0 <= i < |p.files.value| && IsViewable(p.files.value[i], env.today)
    ensures Location(p, env) != [] ==> Location(p, later) == Location(p, env)
  {
    if p.files.Some? && p.files.value != [] {
      HasViewableFileSpec(p.files.value, env.today);
      HasViewableFileSpec(p.files.value, later.today);
    }
    if Location(p, env) != [] {
      var i :| 0 <= i < |p.files.value| && IsViewable(p.files.value[i], env.today);
      ViewableLater(p.files.value[i], env.today, later.today);
    }
  }

  // ---------------------------------------------------------------- typeOfResource

  /** `get_type_of_resource`. */
  function TypeOfResource(p: Publication): Element {
    Leaf("typeOfResource", Some(TypeOfResourceCode(p.publicationTypeCode)))
  }

  // ---------------------------------------------------------------- the tree

  /** The MODS namespace and the schema of MODS 3.7. */
  const ModsNamespace: string := "http://www.loc.gov/mods/v3"
  const ModsSchema: string := "http://www.loc.gov/standards/mods/v3/mods-3-7.xsd"

  /** The attributes `set_mods` gives the root. */
  const ModsAttrs: seq<(string, string)> := [
    ("xsi:schemaLocation", ModsNamespace + " " + ModsSchema),
    ("version", "3.7")
  ]

  /** The record info and the identifiers. */
  function ModsHead(p: Publication, env: Env): (r: seq<Element>)
    ensures |r| >= 2 && r[0] == RecordInfo && r[1] == UriIdentifier(env, p.publicationId)
  {
    [RecordInfo] + Identifiers(p, env)
  }

  /** The descriptive elements, from the title to the series. */
  function ModsBody(p: Publication): seq<Element> {
    [TitleInfo(p)] + Abstract(p) + Categories(p) + Subjects(p) + Language(p) + Genres(p)
    + AuthorsSection(p) + Notes(p) + [OriginInfo(p)] + HostItem(p) + SeriesSection(p)
  }

  /** The full text elements and the type of resource. */
  function ModsTail(p: Publication, env: Env): (r: seq<Element>)
    requires Readable(p, env)
    ensures |r| >= 1 && r[|r| - 1] == TypeOfResource(p)
  {
    Location(p, env) + PhysicalDescription(p, env) + [TypeOfResource(p)]
  }

  /** The children of the root, builder by builder in the order of `get_metadata`. */
  function ModsChildren(p: Publication, env: Env): seq<Element>
    requires Readable(p, env)
  {
    ModsHead(p, env) + ModsBody(p) + ModsTail(p, env)
  }

  /** `get_metadata`: the `mods` root with every builder's elements. */
  function Mods(p: Publication, env: Env): Element
    requires Readable(p, env)
  {
    Element("mods", ModsAttrs, None, ModsChildren(p, env))
  }

  /** The record opens with its record info and its URI, and closes with its type of resource. */
  lemma ModsFrame(p: Publication, env: Env)
    requires Readable(p, env)
    ensures var c := Mods(p, env).children;
      |c| >= 3 && c[0] == RecordInfo && c[1] == UriIdentifier(env, p.publicationId)
      && c[|c| - 1] == TypeOfResource(p)
  {
    Seqs.Ends(ModsHead(p, env), ModsBody(p), ModsTail(p, env));
  }
}
