/**
 * The persons of the crosswalk: the stable sort of the author list by
 * position (`get_authors`), the `name` element of one author (`add_author`),
 * its affiliation lines (`add_affiliation`, `is_author_affiliated`) and the
 * person identifier lookup (`get_person_identifier_value`).
 */
module Authors {
  import opened Wrappers
  import opened Text
  import opened Xml
  import opened Vocabulary
  import opened Publication
  import Seqs

  /** Ordered by the sort key `author["position"][0]["position"]`. */
  predicate SortedByPosition(s: seq<Author>) {
    forall i, j :: 0 <= i < j < |s| ==> s[i].position <= s[j].position
  }

  /** Prepending an author no later than the first keeps the order. */
  lemma SortedPrepend(a: Author, s: seq<Author>)
    requires SortedByPosition(s)
    requires s == [] || a.position <= s[0].position
    ensures SortedByPosition([a] + s)
  {
    var r := [a] + s;
    forall i, j | 0 <= i < j < |r| ensures r[i].position <= r[j].position {
      if i == 0 && j > 1 {
        assert r[1] == s[0] && r[j] == s[j - 1];
      }
    }
  }

  /** `a` placed before the first author whose position is not smaller than its own. */
  function InsertByPosition(a: Author, s: seq<Author>): (r: seq<Author>)
    ensures |r| == |s| + 1
    ensures r[0] == a || (s != [] && r[0] == s[0])
    ensures multiset(r) == multiset(s) + multiset{a}
  {
    if s == [] || a.position <= s[0].position then [a] + s
    else
      assert s == [s[0]] + s[1..];
      [s[0]] + InsertByPosition(a, s[1..])
  }

  /** Inserting into an ordered list keeps it ordered. */
  lemma {:induction false} InsertByPositionSorted(a: Author, s: seq<Author>)
    requires SortedByPosition(s)
    ensures SortedByPosition(InsertByPosition(a, s))
  {
    if s == [] || a.position <= s[0].position {
      SortedPrepend(a, s);
    } else {
      var rest := InsertByPosition(a, s[1..]);
      assert SortedByPosition(s[1..]);
      InsertByPositionSorted(a, s[1..]);
      assert s[0].position <= rest[0].position by {
        if rest[0] != a { assert rest[0] == s[1]; }
      }
      SortedPrepend(s[0], rest);
    }
  }

  /** Python's stable `list.sort(key=position)` on the author list. */
  function SortByPosition(s: seq<Author>): (r: seq<Author>)
    ensures SortedByPosition(r)
    ensures multiset(r) == multiset(s)
  {
    if s == [] then []
    else
      assert s == [s[0]] + s[1..];
      InsertByPositionSorted(s[0], SortByPosition(s[1..]));
      InsertByPosition(s[0], SortByPosition(s[1..]))
  }

  /** The authors at position `k`, in order. */
  function AtPosition(s: seq<Author>, k: int): seq<Author> {
    if s == [] then [] else (if s[0].position == k then [s[0]] else []) + AtPosition(s[1..], k)
  }

  lemma {:induction false} InsertAtPosition(a: Author, s: seq<Author>, k: int)
    ensures AtPosition(InsertByPosition(a, s), k) == (if a.position == k then [a] else []) + AtPosition(s, k)
  {
    if s == [] || a.position <= s[0].position {
      assert ([a] + s)[1..] == s;
    } else {
      var r := InsertByPosition(a, s);
      InsertAtPosition(a, s[1..], k);
      assert r[1..] == InsertByPosition(a, s[1..]);
    }
  }

  /** The sort is stable: authors sharing a position keep their relative order. */
  lemma {:induction false} SortByPositionStable(s: seq<Author>, k: int)
    ensures AtPosition(SortByPosition(s), k) == AtPosition(s, k)
  {
    if s != [] {
      SortByPositionStable(s[1..], k);
      InsertAtPosition(s[0], SortByPosition(s[1..]), k);
    }
  }

  /** An author list already in position order is left as it is. */
  lemma {:induction false} SortByPositionOfSorted(s: seq<Author>)
    requires SortedByPosition(s)
    ensures SortByPosition(s) == s
  {
    if s != [] {
      assert SortedByPosition(s[1..]);
      SortByPositionOfSorted(s[1..]);
    }
  }

  /** Sorting twice sorts once. */
  lemma SortByPositionIdempotent(s: seq<Author>)
    ensures SortByPosition(SortByPosition(s)) == SortByPosition(s)
  {
    SortByPositionOfSorted(SortByPosition(s));
  }

  /** `get_person_identifier_value`: the value of the first identifier of the given
      type, None when there is none (or when that value is itself null). */
  function FirstIdentifierValue(identifiers: seq<PersonIdentifier>, kind: string): Option<string> {
    if identifiers == [] then None
    else if identifiers[0].kind == kind then identifiers[0].value
    else FirstIdentifierValue(identifiers[1..], kind)
  }

  /** The value is that of the first identifier of the given type, or None when no
      identifier has that type. */
  lemma {:induction false} FirstIdentifierValueSpec(identifiers: seq<PersonIdentifier>, kind: string)
    ensures var r := FirstIdentifierValue(identifiers, kind);
      (exists i :: 0 <= i < |identifiers| && identifiers[i].kind == kind
         && (forall j :: 0 <= j < i ==> identifiers[j].kind != kind)
         && r == identifiers[i].value)
      || ((forall i :: 0 <= i < |identifiers| ==> identifiers[i].kind != kind) && r == None)
  {
    if identifiers != [] && identifiers[0].kind != kind {
      FirstIdentifierValueSpec(identifiers[1..], kind);
      assert forall i :: 1 <= i < |identifiers| ==> identifiers[i] == identifiers[1..][i - 1];
      var r := FirstIdentifierValue(identifiers, kind);
      if r != None || exists i :: 0 <= i < |identifiers| && identifiers[i].kind == kind {
        var i :| 0 <= i < |identifiers[1..]| && identifiers[1..][i].kind == kind
           && (forall j :: 0 <= j < i ==> identifiers[1..][j].kind != kind)
           && r == identifiers[1..][i].value;
        assert identifiers[i + 1].kind == kind && r == identifiers[i + 1].value;
        assert forall j :: 0 <= j < i + 1 ==> identifiers[j].kind != kind;
      }
    }
  }

  /** The department ids `is_author_affiliated` disregards. */
  const ExcludedDepartments: set<int> := {666, 667}

  /** `is_author_affiliated`: `any` over the affiliations. */
  predicate IsAuthorAffiliated(affiliations: seq<Affiliation>) {
    affiliations != [] && (affiliations[0].departmentId !in ExcludedDepartments || IsAuthorAffiliated(affiliations[1..]))
  }

  /** `any`: some department is not a disregarded one. */
  lemma {:induction false} IsAuthorAffiliatedSpec(affiliations: seq<Affiliation>)
    ensures IsAuthorAffiliated(affiliations) <==> exists i :: 0 <= i < |affiliations| && affiliations[i].departmentId !in ExcludedDepartments
  {
    if affiliations != [] {
      IsAuthorAffiliatedSpec(affiliations[1..]);
      assert forall i :: 1 <= i < |affiliations| ==> affiliations[i] == affiliations[1..][i - 1];
    }
  }

  /** One `affiliation` element. */
  function AffiliationLine(lang: string, authority: string, valueUri: string, text: string): Element {
    Element("affiliation",
      [("lang", lang), ("authority", authority), ("xsi:type", "mods:stringPlusLanguagePlusAuthority"), ("valueURI", valueUri)],
      Some(text), [])
  }

  /** The `valueURI` of a department. */
  function DepartmentUri(a: Affiliation): string {
    "gu.se/" + IntToString(a.departmentId)
  }

  /** The Swedish line of one department. */
  function SwedishLine(a: Affiliation): Element {
    AffiliationLine("swe", "gu.se", DepartmentUri(a), Sanitize(a.nameSv))
  }

  /** The English line of one department. */
  function EnglishLine(a: Affiliation): Element {
    AffiliationLine("eng", "gu.se", DepartmentUri(a), Sanitize(a.nameEn))
  }

  /** The university lines, in Swedish then English. */
  const UniversityLines: seq<Element> := [
    AffiliationLine("swe", "kb.se", "gu.se", "Göteborgs universitet"),
    AffiliationLine("eng", "kb.se", "gu.se", "Gothenburg University")
  ]

  /** `add_affiliation`: nothing unless the author is affiliated; then the university
      lines followed by the lines of every department, the disregarded ones included. */
  function AffiliationElements(affiliations: Option<seq<Affiliation>>): seq<Element> {
    if affiliations.Some? && IsAuthorAffiliated(affiliations.value)
    then UniversityLines + DepartmentLines(affiliations.value)
    else []
  }

  /** The Swedish and the English line of every department, in order. */
  function DepartmentLines(affiliations: seq<Affiliation>): (r: seq<Element>)
    ensures |r| == 2 * |affiliations|
  {
    Seqs.Pairs(SwedishLine, EnglishLine, affiliations)
  }

  /** Affiliation lines appear exactly when some department is not a disregarded one;
      then the two university lines come first and two lines follow per affiliation. */
  lemma AffiliationElementsShape(affiliations: Option<seq<Affiliation>>)
    ensures var r := AffiliationElements(affiliations);
      (r != [] <==> affiliations.Some? && exists i :: 0 <= i < |affiliations.value| && affiliations.value[i].departmentId !in ExcludedDepartments)
      && (r != [] ==> r == UniversityLines + DepartmentLines(affiliations.value))
  {
    if affiliations.Some? {
      IsAuthorAffiliatedSpec(affiliations.value);
    }
  }

  /** Every affiliation, a disregarded one included, has its Swedish and its English
      line, in the order of the affiliations. */
  lemma DepartmentLinesAt(affiliations: seq<Affiliation>, i: nat)
    requires i < |affiliations|
    ensures var r := DepartmentLines(affiliations);
      r[2 * i] == SwedishLine(affiliations[i]) && r[2 * i + 1] == EnglishLine(affiliations[i])
  {
    Seqs.PairsAt(SwedishLine, EnglishLine, affiliations, i);
  }

  /** A `namePart` of the given type. */
  function NamePart(kind: string, text: string): Element {
    Element("namePart", [("type", kind)], Some(text), [])
  }

  /** A `nameIdentifier` of the given type. */
  function NameIdentifier(kind: string, text: string): Element {
    Element("nameIdentifier", [("type", kind)], Some(text), [])
  }

  /** The `role` element with its MARC relator code. */
  function RoleElement(typeCode: string): Element {
    Element("role", [], None, [Element("roleTerm", [("type", "code"), ("authority", "marcrelator")], Some(RoleCode(typeCode)), [])])
  }

  /** The given name, the family name and, when known, the year of birth. */
  function NameParts(person: Person): (r: seq<Element>)
    ensures |r| == if person.yearOfBirth.Some? then 3 else 2
  {
    [NamePart("given", Sanitize(person.firstName)), NamePart("family", Sanitize(person.lastName))]
    + (if person.yearOfBirth.Some? then [NamePart("date", IntToString(person.yearOfBirth.value))] else [])
  }

  /** The "gu" identifier from `xkonto` and the ORCID, each when it has a non-empty value. */
  function PersonIdentifiers(person: Person): seq<Element> {
    var xkonto := FirstIdentifierValue(person.identifiers, "xkonto");
    var orcid := FirstIdentifierValue(person.identifiers, "orcid");
    (if Truthy(xkonto) then [NameIdentifier("gu", xkonto.value)] else [])
    + (if Truthy(orcid) then [NameIdentifier("orcid", orcid.value)] else [])
  }

  /** The attributes of an author's `name`: personal, and with the "gu" authority
      when the `xkonto` identifier has a non-empty value. */
  function NameAttrs(person: Person): seq<(string, string)> {
    [("type", "personal")] + (if Truthy(FirstIdentifierValue(person.identifiers, "xkonto")) then [("authority", "gu")] else [])
  }

  /** The children of an author's `name` that come from the person and the publication
      type: the name parts, the role and the identifiers. */
  function PersonElements(person: Person, typeCode: string): seq<Element> {
    NameParts(person) + [RoleElement(typeCode)] + PersonIdentifiers(person)
  }

  /** `add_author`: the `name` element of one author of a publication of type `typeCode`. */
  function AuthorElement(author: Author, typeCode: string): Element {
    Element("name", NameAttrs(author.person), None,
      PersonElements(author.person, typeCode) + AffiliationElements(author.affiliations))
  }

  /** `add_author` for the authors of a publication of type `typeCode`. */
  function AuthorElementOf(typeCode: string): Author -> Element {
    author => AuthorElement(author, typeCode)
  }

  /** An author is marked with the "gu" authority exactly when its first `xkonto`
      identifier has a non-empty value. */
  lemma AuthorElementAuthority(author: Author, typeCode: string)
    ensures Attr(AuthorElement(author, typeCode), "authority") == Some("gu")
            <==> Truthy(FirstIdentifierValue(author.person.identifiers, "xkonto"))
  {
    var e := AuthorElement(author, typeCode);
    assert Attr(e, "authority") == AttrIn(e.attrs[1..], "authority");
  }

  /** The name parts come first, given name then family name, each sanitized; the
      role follows them, then the `xkonto` identifier and the ORCID, each when it is
      usable, and the affiliation lines close the element. */
  lemma AuthorElementParts(author: Author, typeCode: string)
    ensures var e := AuthorElement(author, typeCode);
      var xkonto := FirstIdentifierValue(author.person.identifiers, "xkonto");
      var orcid := FirstIdentifierValue(author.person.identifiers, "orcid");
      var k := if author.person.yearOfBirth.Some? then 3 else 2;
      var n := k + 1 + TruthyCount(xkonto) + TruthyCount(orcid);
      |e.children| == n + |AffiliationElements(author.affiliations)|
      && e.children[0] == NamePart("given", Sanitize(author.person.firstName))
      && e.children[1] == NamePart("family", Sanitize(author.person.lastName))
      && (author.person.yearOfBirth.Some? ==> e.children[2] == NamePart("date", IntToString(author.person.yearOfBirth.value)))
      && e.children[k] == RoleElement(typeCode)
      && (Truthy(xkonto) ==> e.children[k + 1] == NameIdentifier("gu", xkonto.value))
      && (Truthy(orcid) ==> e.children[k + 1 + TruthyCount(xkonto)] == NameIdentifier("orcid", orcid.value))
      && e.children[n..] == AffiliationElements(author.affiliations)
  {
    var person := author.person;
    var parts := NameParts(person);
    var withRole := parts + [RoleElement(typeCode)];
    var withIds := withRole + PersonIdentifiers(person);
    var c := AuthorElement(author, typeCode).children;
    assert c == withIds + AffiliationElements(author.affiliations);
    assert c[..|withIds|] == withIds;
    assert withIds[..|withRole|] == withRole;
    assert withRole[..|parts|] == parts;
    var ids := PersonIdentifiers(person);
    if Truthy(FirstIdentifierValue(person.identifiers, "xkonto")) {
      assert withIds[|withRole|] == ids[0];
    }
    if Truthy(FirstIdentifierValue(person.identifiers, "orcid")) {
      assert withIds[|withIds| - 1] == ids[|ids| - 1];
    }
    assert c[|withIds|..] == AffiliationElements(author.affiliations);
  }
}
