/**
 * `OAIProvider` as it runs: the publication it works on is a field,
 * `get_metadata` creates the `mods` root, and every `get_*` builder appends
 * its elements to that root in place, in the order of `get_metadata`.
 * Each builder is proved to append exactly the elements of its section in
 * the `Mods` module, so the tree `get_metadata` returns is `Mods.Mods` of
 * the publication it started from.
 */
module Provider {
  import opened Wrappers
  import opened Text
  import opened Xml
  import opened Vocabulary
  import opened Publication
  import opened Pages
  import opened Authors
  import opened Mods
  import Seqs

  /** The publication once `get_authors` has sorted its author list in place. */
  function WithSortedAuthors(p: Publication): (r: Publication)
    ensures r.authors.None? <==> p.authors.None?
    ensures r.authors.Some? ==> SortedByPosition(r.authors.value) && multiset(r.authors.value) == multiset(p.authors.value)
    ensures r.(authors := p.authors) == p
  {
    if p.authors.Some? then p.(authors := Some(SortByPosition(p.authors.value))) else p
  }

  /** Sorting the authors in place changes neither the `name` elements nor the notes,
      so a second run of the crosswalk on the sorted record gives them again. */
  lemma SortedAuthorsSameSections(p: Publication)
    ensures AuthorsSection(WithSortedAuthors(p)) == AuthorsSection(p)
    ensures Notes(WithSortedAuthors(p)) == Notes(p)
  {
    if p.authors.Some? {
      SortByPositionIdempotent(p.authors.value);
      assert |SortByPosition(p.authors.value)| == |p.authors.value| by {
        assert |multiset(SortByPosition(p.authors.value))| == |multiset(p.authors.value)|;
      }
    }
  }

  /** Sorting the authors leaves every field but the authors alone, so the builders that
      run after `get_authors` see what they would have seen before it: the origin, */
  lemma SortedAuthorsSameOrigin(p: Publication)
    ensures OriginInfo(WithSortedAuthors(p)) == OriginInfo(p)
  {
    var q := WithSortedAuthors(p);
    assert q == p.(authors := q.authors);
  }

  /** the host, */
  lemma SortedAuthorsSameHost(p: Publication)
    ensures HostItem(WithSortedAuthors(p)) == HostItem(p)
  {
    var q := WithSortedAuthors(p);
    assert q == p.(authors := q.authors);
  }

  /** the series, */
  lemma SortedAuthorsSameSeries(p: Publication)
    ensures SeriesSection(WithSortedAuthors(p)) == SeriesSection(p)
  {
    var q := WithSortedAuthors(p);
    assert q == p.(authors := q.authors);
  }

  /** and the files and the type of resource. */
  lemma SortedAuthorsSameFiles(p: Publication, env: Env)
    requires Readable(p, env)
    ensures Readable(WithSortedAuthors(p), env)
    ensures Location(WithSortedAuthors(p), env) == Location(p, env)
    ensures PhysicalDescription(WithSortedAuthors(p), env) == PhysicalDescription(p, env)
    ensures TypeOfResource(WithSortedAuthors(p)) == TypeOfResource(p)
  {
    var q := WithSortedAuthors(p);
    assert q == p.(authors := q.authors);
  }

  /** `get_person_identifier_value`: the loop returns at the first identifier of the
      given type. */
  method PersonIdentifierValue(identifiers: seq<PersonIdentifier>, kind: string) returns (r: Option<string>)
    ensures r == FirstIdentifierValue(identifiers, kind)
  {
    for i := 0 to |identifiers|
      invariant FirstIdentifierValue(identifiers[i..], kind) == FirstIdentifierValue(identifiers, kind)
    {
      if identifiers[i].kind == kind {
        return identifiers[i].value;
      }
      assert identifiers[i..][1..] == identifiers[i + 1..];
    }
    return None;
  }

  /** The part of `add_author` before the affiliations: a new `name` element with the
      person's name parts, the role for the publication type and the identifiers. */
  method NewNameElement(person: Person, typeCode: string) returns (name: Node)
    ensures fresh(name)
    ensures name.name == "name" && name.attrs == NameAttrs(person) && name.text == None
    ensures name.children == PersonElements(person, typeCode)
  {
    var xkonto := PersonIdentifierValue(person.identifiers, "xkonto");
    var attrs := SetAttr([], "type", "personal");
    if Truthy(xkonto) {
      attrs := SetAttr(attrs, "authority", "gu");
    }
    var children := [NamePart("given", Sanitize(person.firstName)), NamePart("family", Sanitize(person.lastName))];
    if person.yearOfBirth.Some? {
      children := children + [NamePart("date", IntToString(person.yearOfBirth.value))];
    }
    ghost var parts := children + [RoleElement(typeCode)];
    assert children == NameParts(person);
    children := children + [RoleElement(typeCode)];
    ghost var gu := if Truthy(xkonto) then [NameIdentifier("gu", xkonto.value)] else [];
    if Truthy(xkonto) {
      children := children + [NameIdentifier("gu", xkonto.value)];
    }
    var orcid := PersonIdentifierValue(person.identifiers, "orcid");
    ghost var orcids := if Truthy(orcid) then [NameIdentifier("orcid", orcid.value)] else [];
    if Truthy(orcid) {
      children := children + [NameIdentifier("orcid", orcid.value)];
    }
    Seqs.Assoc(parts, gu, orcids);
    name := new Node.Of(Element("name", attrs, None, children));
  }

  /** `add_affiliation`: the university lines, then two lines per department, appended
      to the author's `name` element when the author is affiliated. */
  method AddAffiliation(affiliations: Option<seq<Affiliation>>, name: Node)
    modifies name
    ensures name.Extends(old(name.Value()), AffiliationElements(affiliations))
  {
    if affiliations.Some? && IsAuthorAffiliated(affiliations.value) {
      var departments := affiliations.value;
      ghost var before := name.children;
      name.Append(UniversityLines[0]);
      name.Append(UniversityLines[1]);
      ghost var start := name.children;
      assert start == before + UniversityLines;
      for i := 0 to |departments|
        invariant name.Extends(old(name.Value()), UniversityLines + DepartmentLines(departments[..i]))
        invariant name.children == start + DepartmentLines(departments[..i])
      {
        name.Append(SwedishLine(departments[i]));
        name.Append(EnglishLine(departments[i]));
        Seqs.PairsStep(SwedishLine, EnglishLine, departments, i);
        Seqs.AppendPair(start, DepartmentLines(departments[..i]), SwedishLine(departments[i]), EnglishLine(departments[i]));
        Seqs.Assoc(before, UniversityLines, DepartmentLines(departments[..i + 1]));
      }
      assert departments[..|departments|] == departments;
    }
  }

  /** The titles and the identifiers of the host in `get_related_item`: the source
      title and the venue, then ISSN, electronic ISSN and ISBN, each when present. */
  method NewHostIdentification(p: Publication) returns (children: seq<Element>)
    ensures children == HostTitles(p) + HostIdentifiers(p)
  {
    children := [];
    ghost var source := if Truthy(p.sourcetitle) then [TitleOnly(Sanitize(p.sourcetitle))] else [];
    if Truthy(p.sourcetitle) {
      children := children + [TitleOnly(Sanitize(p.sourcetitle))];
    }
    assert children == source;
    if Truthy(p.madePublicIn) {
      children := children + [TitleOnly(Sanitize(p.madePublicIn))];
    }
    ghost var titles := children;
    assert titles == HostTitles(p);
    ghost var issn, eissn, isbn := HostIdentifier("issn", p.issn), HostIdentifier("issn", p.eissn), HostIdentifier("isbn", p.isbn);
    if Truthy(p.issn) {
      children := children + [TypedIdentifier("issn", Some(Sanitize(p.issn)))];
    }
    assert children == titles + issn;
    if Truthy(p.eissn) {
      children := children + [TypedIdentifier("issn", Some(Sanitize(p.eissn)))];
    }
    assert children == titles + issn + eissn;
    if Truthy(p.isbn) {
      children := children + [TypedIdentifier("isbn", Some(Sanitize(p.isbn)))];
    }
    Seqs.Assoc(titles, issn + eissn, isbn);
    Seqs.Assoc(titles, issn, eissn);
    assert children == HostTitles(p) + HostIdentifiers(p);
  }

  /** The `part` of `get_related_item`: volume, issue, article number and pages, each
      when the publication has it. */
  method NewPart(p: Publication) returns (part: Element)
    ensures part == Element("part", [], None, PartDetails(p))
  {
    var children: seq<Element> := [];
    ghost var volume := if Truthy(p.sourcevolume) then [Detail("volume", Sanitize(p.sourcevolume))] else [];
    if Truthy(p.sourcevolume) {
      children := children + [Detail("volume", Sanitize(p.sourcevolume))];
    }
    assert children == volume;
    ghost var issue := if Truthy(p.sourceissue) then [Detail("issue", Sanitize(p.sourceissue))] else [];
    if Truthy(p.sourceissue) {
      children := children + [Detail("issue", Sanitize(p.sourceissue))];
    }
    assert children == volume + issue;
    ghost var artNo := if Truthy(p.articleNumber) then [Detail("artNo", Sanitize(p.articleNumber))] else [];
    if Truthy(p.articleNumber) {
      children := children + [Detail("artNo", Sanitize(p.articleNumber))];
    }
    assert children == volume + issue + artNo;
    if Truthy(p.sourcepages) {
      var pages := StartAndEndPage(p.sourcepages.value);
      if pages.Some? {
        children := children + [Element("extent", [], None, [Leaf("start", Some(pages.value.0)), Leaf("end", Some(pages.value.1))])];
      } else {
        children := children + [Element("detail", [("type", "citation")], None, [Leaf("caption", Some(Sanitize(p.sourcepages)))])];
      }
    }
    part := Element("part", [], None, children);
  }

  /** `set_mods`: the root with its schema location and version. */
  method SetMods() returns (mods: Node)
    ensures fresh(mods) && mods.Value() == Element("mods", ModsAttrs, None, [])
  {
    mods := new Node("mods");
    mods.Set(ModsAttrs[0].0, ModsAttrs[0].1);
    mods.Set(ModsAttrs[1].0, ModsAttrs[1].1);
  }

  class OAIProvider {
    /** `publication_json`: the `_source` of the hit being converted; `{}` (here
        None) until `get_oai_data` sets it. */
    var publication: Option<Publication>

    constructor ()
      ensures publication == None
    {
      publication := None;
    }

    /** `get_oai_data` and `generate_xml_document`: keep the hit's `_source` and
        build its record. */
    method GetOaiData(hit: Hit, env: Env) returns (mods: Node)
      requires Readable(hit.source, env)
      modifies this
      ensures publication == Some(WithSortedAuthors(hit.source))
      ensures fresh(mods) && mods.Value() == Mods.Mods(hit.source, env)
    {
      publication := Some(hit.source);
      mods := GetMetadata(env);
    }

    /** `get_metadata`: the root, then every builder in turn. */
    method GetMetadata(env: Env) returns (mods: Node)
      requires publication.Some? && Readable(publication.value, env)
      modifies this
      ensures publication == Some(WithSortedAuthors(old(publication).value))
      ensures fresh(mods) && mods.Value() == Mods.Mods(old(publication).value, env)
    {
      var p := publication.value;
      mods := SetMods();
      GetRecordInfo(mods);
      GetIdentifiers(mods, env);
      ghost var head := mods.children;
      assert head == ModsHead(p, env);
      GetTitle(mods);
      ghost var body := [TitleInfo(p)];
      GetAbstract(mods);
      Seqs.Assoc(head, body, Abstract(p));
      body := body + Abstract(p);
      GetCategories(mods);
      Seqs.Assoc(head, body, Categories(p));
      body := body + Categories(p);
      GetSubjects(mods);
      Seqs.Assoc(head, body, Subjects(p));
      body := body + Subjects(p);
      GetLanguage(mods);
      Seqs.Assoc(head, body, Language(p));
      body := body + Language(p);
      GetGenre(mods);
      Seqs.Assoc(head, body, Genres(p));
      body := body + Genres(p);
      GetAuthors(mods);
      Seqs.Assoc(head, body, AuthorsSection(p));
      body := body + AuthorsSection(p);
      SortedAuthorsSameSections(p);
      SortedAuthorsSameOrigin(p);
      SortedAuthorsSameHost(p);
      SortedAuthorsSameSeries(p);
      SortedAuthorsSameFiles(p, env);
      GetNotes(mods);
      Seqs.Assoc(head, body, Notes(p));
      body := body + Notes(p);
      GetOriginInfo(mods);
      Seqs.Assoc(head, body, [OriginInfo(p)]);
      body := body + [OriginInfo(p)];
      GetRelatedItem(mods);
      Seqs.Assoc(head, body, HostItem(p));
      body := body + HostItem(p);
      GetSeries(mods);
      Seqs.Assoc(head, body, SeriesSection(p));
      body := body + SeriesSection(p);
      assert body == ModsBody(p);
      ghost var front := mods.children;
      GetLocation(mods, env);
      GetPhysicalDescription(mods, env);
      GetTypeOfResource(mods);
      Seqs.Assoc(front, Location(p, env), PhysicalDescription(p, env));
      Seqs.Assoc(front, Location(p, env) + PhysicalDescription(p, env), [TypeOfResource(p)]);
      assert mods.children == front + ModsTail(p, env);
    }

    /** `get_record_info`. */
    method GetRecordInfo(mods: Node)
      modifies mods
      ensures mods.Extends(old(mods.Value()), [RecordInfo])
    {
      mods.Append(RecordInfo);
    }

    /** `get_identifiers`: the URI, the ISBN of a monograph, then one identifier per
        external identifier. */
    method GetIdentifiers(mods: Node, env: Env)
      requires publication.Some?
      modifies mods
      ensures mods.Extends(old(mods.Value()), Identifiers(publication.value, env))
    {
      var p := publication.value;
      ghost var before := mods.children;
      AddUri(mods, env, p.publicationId);
      if IsMonograph(p.publicationTypeCode) {
        AddIsbn(mods, p.isbn);
      }
      ghost var start := mods.children;
      ghost var own := [UriIdentifier(env, p.publicationId)] + IsbnIdentifier(p);
      assert start == before + own;
      var identifiers := p.publicationIdentifiers;
      for i := 0 to |identifiers|
        invariant mods.Extends(old(mods.Value()), own + Seqs.FlatMap(ExternalIdentifier, identifiers[..i]))
        invariant mods.children == start + Seqs.FlatMap(ExternalIdentifier, identifiers[..i])
      {
        AddIdentifier(mods, identifiers[i]);
        Seqs.FlatMapStep(ExternalIdentifier, identifiers, i);
        Seqs.Assoc(start, Seqs.FlatMap(ExternalIdentifier, identifiers[..i]), ExternalIdentifier(identifiers[i]));
        Seqs.Assoc(before, own, Seqs.FlatMap(ExternalIdentifier, identifiers[..i + 1]));
      }
      assert identifiers[..|identifiers|] == identifiers;
    }

    /** `add_uri`. */
    method AddUri(mods: Node, env: Env, id: nat)
      modifies mods
      ensures mods.Extends(old(mods.Value()), [UriIdentifier(env, id)])
    {
      mods.Append(UriIdentifier(env, id));
    }

    /** `add_isbn`: only a non-empty ISBN, unsanitized. */
    method AddIsbn(mods: Node, isbn: Option<string>)
      modifies mods
      ensures mods.Extends(old(mods.Value()), if Truthy(isbn) then [TypedIdentifier("isbn", isbn)] else [])
    {
      if Truthy(isbn) {
        mods.Append(TypedIdentifier("isbn", isbn));
      }
    }

    /** `add_identifier`: skipped when the scheme code is missing. */
    method AddIdentifier(mods: Node, identifier: PublicationIdentifier)
      modifies mods
      ensures mods.Extends(old(mods.Value()), ExternalIdentifier(identifier))
    {
      var code := IdentifierCode(identifier.code);
      if code.Some? {
        mods.Append(TypedIdentifier(code.value, identifier.value));
      }
    }

    /** `get_title`. */
    method GetTitle(mods: Node)
      requires publication.Some?
      modifies mods
      ensures mods.Extends(old(mods.Value()), [TitleInfo(publication.value)])
    {
      var p := publication.value;
      var titleInfo := new Node("titleInfo");
      titleInfo.Append(Leaf("title", Some(Sanitize(p.title))));
      if Truthy(p.altTitle) {
        titleInfo.Append(Leaf("subTitle", Some(Sanitize(p.altTitle))));
      }
      assert titleInfo.Value() == TitleInfo(p);
      mods.Append(titleInfo.Value());
    }

    /** `get_abstract`. */
    method GetAbstract(mods: Node)
      requires publication.Some?
      modifies mods
      ensures mods.Extends(old(mods.Value()), Abstract(publication.value))
    {
      var abstractText := publication.value.abstractText;
      if Truthy(abstractText) {
        mods.Append(Leaf("abstract", Some(Sanitize(abstractText))));
      }
    }

    /** `get_categories`: a classification per category, then per category its subject
        in English and in Swedish. */
    method GetCategories(mods: Node)
      requires publication.Some?
      modifies mods
      ensures mods.Extends(old(mods.Value()), Categories(publication.value))
    {
      var categories := publication.value.categories;
      ghost var before := mods.children;
      for i := 0 to |categories|
        invariant mods.Extends(old(mods.Value()), Seqs.Map(Classification, categories[..i]))
      {
        AddCategoryAsClassification(mods, categories[i]);
        Seqs.MapStep(Classification, categories, i);
        Seqs.Assoc(before, Seqs.Map(Classification, categories[..i]), [Classification(categories[i])]);
      }
      assert categories[..|categories|] == categories;
      ghost var classified := mods.children;
      ghost var classifications := Seqs.Map(Classification, categories);
      for i := 0 to |categories|
        invariant mods.Extends(old(mods.Value()), classifications + Seqs.Pairs(EnglishSubject, SwedishSubject, categories[..i]))
        invariant mods.children == classified + Seqs.Pairs(EnglishSubject, SwedishSubject, categories[..i])
      {
        AddCategoryAsSubject(mods, categories[i], "eng");
        AddCategoryAsSubject(mods, categories[i], "swe");
        Seqs.PairsStep(EnglishSubject, SwedishSubject, categories, i);
        Seqs.AppendPair(classified, Seqs.Pairs(EnglishSubject, SwedishSubject, categories[..i]), EnglishSubject(categories[i]), SwedishSubject(categories[i]));
        Seqs.Assoc(before, classifications, Seqs.Pairs(EnglishSubject, SwedishSubject, categories[..i + 1]));
      }
      assert categories[..|categories|] == categories;
    }

    /** `add_category_as_classification`. */
    method AddCategoryAsClassification(mods: Node, category: Category)
      modifies mods
      ensures mods.Extends(old(mods.Value()), [Classification(category)])
    {
      var classification := new Node("classification");
      classification.Set("authority", "ssif");
      assert classification.attrs == [("authority", "ssif")];
      classification.Append(Leaf("topic", Some(IntToString(category.svepId))));
      assert classification.Value() == Classification(category);
      mods.Append(classification.Value());
    }

    /** `add_category_as_subject`. */
    method AddCategoryAsSubject(mods: Node, category: Category, lang: string)
      modifies mods
      ensures mods.Extends(old(mods.Value()), [CategorySubject(category, lang)])
    {
      var subject := new Node("subject");
      subject.Set("lang", lang);
      SetAttrNew(subject.attrs, "authority", "uka.se");
      subject.Set("authority", "uka.se");
      SetAttrNew(subject.attrs, "xlink:href", IntToString(category.svepId));
      subject.Set("xlink:href", IntToString(category.svepId));
      subject.Append(Leaf("topic", CategoryName(category, lang)));
      assert subject.Value() == CategorySubject(category, lang);
      mods.Append(subject.Value());
    }

    /** `get_subjects`: one subject per comma-separated piece of the sanitized
        keywords, stripped. */
    method GetSubjects(mods: Node)
      requires publication.Some?
      modifies mods
      ensures mods.Extends(old(mods.Value()), Subjects(publication.value))
    {
      var keywords := publication.value.keywords;
      if Truthy(keywords) {
        var subjects := Sanitize(keywords);
        var pieces := Split(subjects, ',');
        assert KeywordList(keywords.value) == Seqs.Map(Strip, pieces);
        AddSubjects(mods, pieces);
      }
    }

    /** The loop of `get_subjects`: one subject per piece, stripped. */
    method AddSubjects(mods: Node, pieces: seq<string>)
      modifies mods
      ensures mods.Extends(old(mods.Value()), Seqs.Map(SubjectElement, Seqs.Map(Strip, pieces)))
    {
      ghost var words := Seqs.Map(Strip, pieces);
      ghost var before := mods.children;
      for i := 0 to |pieces|
        invariant mods.Extends(old(mods.Value()), Seqs.Map(SubjectElement, words[..i]))
      {
        assert words[i] == Strip(pieces[i]);
        AddSubject(mods, Strip(pieces[i]));
        Seqs.MapStep(SubjectElement, words, i);
        Seqs.Assoc(before, Seqs.Map(SubjectElement, words[..i]), [SubjectElement(words[i])]);
      }
      assert words[..|pieces|] == words;
    }

    /** `add_subject`. */
    method AddSubject(mods: Node, subject: string)
      modifies mods
      ensures mods.Extends(old(mods.Value()), [SubjectElement(subject)])
    {
      mods.Append(SubjectElement(subject));
    }

    /** `get_language`: whenever the record has the key. */
    method GetLanguage(mods: Node)
      requires publication.Some?
      modifies mods
      ensures mods.Extends(old(mods.Value()), Language(publication.value))
    {
      var p := publication.value;
      if p.publanguage.Some? {
        var code := LanguageCode(p.publanguage.value);
        mods.Append(LanguageElement(code));
      }
    }

    /** `get_genre`. */
    method GetGenre(mods: Node)
      requires publication.Some?
      modifies mods
      ensures mods.Extends(old(mods.Value()), Genres(publication.value))
    {
      var p := publication.value;
      var info := PublicationTypeInfo(p.publicationTypeCode, p.refValue);
      ghost var before := mods.children;
      mods.Append(GenreElement("kb.se", "outputType", info.outputType));
      if IsTrue(p.artisticBasis) {
        mods.Append(GenreElement("kb.se", "outputType", "artistic-work"));
      }
      ghost var outputs := [GenreElement("kb.se", "outputType", info.outputType)]
        + (if IsTrue(p.artisticBasis) then [GenreElement("kb.se", "outputType", "artistic-work")] else []);
      assert mods.children == before + outputs;
      mods.Append(GenreElement("svep", "contentType", info.contentType));
      Seqs.Assoc(before, outputs, [GenreElement("svep", "contentType", info.contentType)]);
    }

    /** `get_authors`: sort the author list in place by position, then add each author. */
    method GetAuthors(mods: Node)
      requires publication.Some?
      modifies this, mods
      ensures publication == Some(WithSortedAuthors(old(publication).value))
      ensures mods.Extends(old(mods.Value()), AuthorsSection(old(publication).value))
    {
      var p := publication.value;
      if p.authors.Some? {
        var authors := SortByPosition(p.authors.value);
        publication := Some(p.(authors := Some(authors)));
        var element := AuthorElementOf(p.publicationTypeCode);
        ghost var before := mods.children;
        for i := 0 to |authors|
          invariant publication == Some(WithSortedAuthors(p))
          invariant mods.Extends(old(mods.Value()), Seqs.Map(element, authors[..i]))
        {
          AddAuthor(mods, authors[i]);
          Seqs.MapStep(element, authors, i);
          Seqs.Assoc(before, Seqs.Map(element, authors[..i]), [element(authors[i])]);
        }
        assert authors[..|authors|] == authors;
      }
    }

    /** `add_author`: the `name` element of one author, with the author's affiliations. */
    method AddAuthor(mods: Node, author: Author)
      requires publication.Some?
      modifies mods
      ensures mods.Extends(old(mods.Value()), [AuthorElement(author, publication.value.publicationTypeCode)])
    {
      var name := NewNameElement(author.person, publication.value.publicationTypeCode);
      AddAffiliation(author.affiliations, name);
      assert name.Value() == AuthorElement(author, publication.value.publicationTypeCode);
      mods.Append(name.Value());
    }

    /** `get_notes`: the publication status, then the number of authors. */
    method GetNotes(mods: Node)
      requires publication.Some?
      modifies mods
      ensures mods.Extends(old(mods.Value()), Notes(publication.value))
    {
      var p := publication.value;
      var status := if Truthy(p.epubAheadOfPrint) then "Epub ahead of print" else "Published";
      mods.Append(Element("note", [("type", "publicationStatus")], Some(status), []));
      mods.Append(Element("note", [("type", "creatorCount")], Some(CreatorCount(p)), []));
    }

    /** `get_origin_info`. */
    method GetOriginInfo(mods: Node)
      requires publication.Some?
      modifies mods
      ensures mods.Extends(old(mods.Value()), [OriginInfo(publication.value)])
    {
      var p := publication.value;
      var originInfo := new Node("originInfo");
      ghost var dateIssued := if p.pubyear.Some? && p.pubyear.value != 0 then [Leaf("dateIssued", Some(IntToString(p.pubyear.value)))] else [];
      if p.pubyear.Some? && p.pubyear.value != 0 {
        originInfo.Append(Leaf("dateIssued", Some(IntToString(p.pubyear.value))));
      }
      assert originInfo.children == dateIssued;
      ghost var publisher := if Truthy(p.publisher) then [Leaf("publisher", Some(Sanitize(p.publisher)))] else [];
      if Truthy(p.publisher) {
        originInfo.Append(Leaf("publisher", Some(Sanitize(p.publisher))));
      }
      assert originInfo.children == dateIssued + publisher;
      ghost var place := if Truthy(p.place) then [Element("place", [], None, [Leaf("placeTerm", Some(Sanitize(p.place)))])] else [];
      if Truthy(p.place) {
        originInfo.Append(Element("place", [], None, [Leaf("placeTerm", Some(Sanitize(p.place)))]));
      }
      assert originInfo.children == dateIssued + publisher + place;
      assert originInfo.Value() == OriginInfo(p);
      mods.Append(originInfo.Value());
    }

    /** `get_related_item`: the host of a non-monograph with a source title or venue. */
    method GetRelatedItem(mods: Node)
      requires publication.Some?
      modifies mods
      ensures mods.Extends(old(mods.Value()), HostItem(publication.value))
    {
      var p := publication.value;
      if !IsMonograph(p.publicationTypeCode) {
        if Truthy(p.sourcetitle) || Truthy(p.madePublicIn) {
          var attrs := SetAttr([], "type", "host");
          var children := NewHostIdentification(p);
          if HasPart(p) {
            var part := NewPart(p);
            children := children + [part];
          }
          assert children == HostTitles(p) + HostIdentifiers(p) + Part(p);
          assert Element("relatedItem", attrs, None, children) == HostItem(p)[0];
          mods.Append(Element("relatedItem", attrs, None, children));
        }
      }
    }

    /** `get_series`: one series item per series with a title. */
    method GetSeries(mods: Node)
      requires publication.Some?
      modifies mods
      ensures mods.Extends(old(mods.Value()), SeriesSection(publication.value))
    {
      var series := publication.value.series;
      if series.Some? && series.value != [] {
        var all := series.value;
        ghost var before := mods.children;
        for i := 0 to |all|
          invariant mods.Extends(old(mods.Value()), Seqs.FlatMap(SeriesElement, all[..i]))
        {
          AddSeries(mods, all[i]);
          Seqs.FlatMapStep(SeriesElement, all, i);
          Seqs.Assoc(before, Seqs.FlatMap(SeriesElement, all[..i]), SeriesElement(all[i]));
        }
        assert all[..|all|] == all;
      }
    }

    /** `add_series`: skipped for a series without a title. */
    method AddSeries(mods: Node, serie: Serie)
      modifies mods
      ensures mods.Extends(old(mods.Value()), SeriesElement(serie))
    {
      if Truthy(serie.title) {
        var item := new Node("relatedItem");
        item.Set("type", "series");
        var titleInfo := new Node("titleInfo");
        titleInfo.Append(Leaf("title", serie.title));
        if Truthy(serie.part) {
          titleInfo.Append(Leaf("partNumber", serie.part));
        }
        assert titleInfo.children == [Leaf("title", serie.title)] + (if Truthy(serie.part) then [Leaf("partNumber", serie.part)] else []);
        item.Append(titleInfo.Value());
        if Truthy(serie.issn) {
          item.Append(TypedIdentifier("issn", serie.issn));
        }
        assert item.attrs == [("type", "series")];
        assert item.Value() == SeriesElement(serie)[0];
        mods.Append(item.Value());
      }
    }

    /** `get_location`. */
    method GetLocation(mods: Node, env: Env)
      requires publication.Some? && Readable(publication.value, env)
      modifies mods
      ensures mods.Extends(old(mods.Value()), Location(publication.value, env))
    {
      var p := publication.value;
      if ShowsFullText(p, env) {
        var url := Element("url", [("note", "free"), ("usage", "primary"), ("displayLabel", "FULLTEXT")], Some(PublicationUri(env, p.publicationId)), []);
        mods.Append(Element("location", [], None, [url]));
      }
    }

    /** `get_physical_description`. */
    method GetPhysicalDescription(mods: Node, env: Env)
      requires publication.Some? && Readable(publication.value, env)
      modifies mods
      ensures mods.Extends(old(mods.Value()), PhysicalDescription(publication.value, env))
    {
      var p := publication.value;
      if ShowsFullText(p, env) {
        mods.Append(Element("physicalDescription", [], None, [Element("form", [("authority", "marcform")], Some("electronic"), [])]));
      }
    }

    /** `get_type_of_resource`. */
    method GetTypeOfResource(mods: Node)
      requires publication.Some?
      modifies mods
      ensures mods.Extends(old(mods.Value()), [TypeOfResource(publication.value)])
    {
      mods.Append(TypeOfResource(publication.value));
    }
  }
}
