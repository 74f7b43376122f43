/**
 * The publication record the crosswalk reads: the `_source` document of one
 * hit of the publication index. Every key the crosswalk reads with `[...]` is
 * a field here (a missing key would be a `KeyError`); a value that may be null
 * is an `Option`. The one key tested for presence rather than value,
 * `publanguage`, is an `Option` of an `Option`: `None` when the key is absent,
 * `Some(None)` when it holds null.
 */
module Publication {
  import opened Wrappers

  /** Python truthiness of an optional text: present and non-empty. */
  predicate Truthy(s: Option<string>) {
    s.Some? && s.value != ""
  }

  /** The number of elements a guarded optional text contributes: one when it is truthy. */
  function TruthyCount(s: Option<string>): nat {
    if Truthy(s) then 1 else 0
  }

  /** Python truthiness of an optional flag: present and true. */
  predicate IsTrue(b: Option<bool>) {
    b == Some(true)
  }

  /** A research subject category with its labels in English and Swedish. */
  datatype Category = Category(svepId: int, nameEn: Option<string>, nameSv: Option<string>)

  /** An identifier of the publication under an external scheme (doi, handle, ...). */
  datatype PublicationIdentifier = PublicationIdentifier(code: Option<string>, value: Option<string>)

  /** An identifier of a person (`xkonto`, `orcid`, ...). */
  datatype PersonIdentifier = PersonIdentifier(kind: string, value: Option<string>)

  datatype Person = Person(
    firstName: Option<string>,
    lastName: Option<string>,
    yearOfBirth: Option<int>,
    identifiers: seq<PersonIdentifier>)

  /** A department an author is affiliated with. */
  datatype Affiliation = Affiliation(departmentId: int, nameEn: Option<string>, nameSv: Option<string>)

  /** An author: `position` is the sort key `author["position"][0]["position"]`,
      `person` is `author["person"][0]`. */
  datatype Author = Author(position: int, person: Person, affiliations: Option<seq<Affiliation>>)

  /** A series the publication appears in. */
  datatype Serie = Serie(title: Option<string>, part: Option<string>, issn: Option<string>)

  /** An attached file: whether it was accepted, and the date (`YYYY-MM-DD`) it becomes visible. */
  datatype File = File(accepted: Option<bool>, visibleAfter: Option<string>)

  datatype Publication = Publication(
    publicationId: nat,
    updatedAt: string,
    affiliated: Option<bool>,
    deleted: Option<bool>,
    title: Option<string>,
    altTitle: Option<string>,
    abstractText: Option<string>,
    publicationTypeCode: string,
    refValue: Option<string>,
    artisticBasis: Option<bool>,
    categories: seq<Category>,
    publicationIdentifiers: seq<PublicationIdentifier>,
    isbn: Option<string>,
    issn: Option<string>,
    eissn: Option<string>,
    authors: Option<seq<Author>>,
    publanguage: Option<Option<string>>,
    keywords: Option<string>,
    epubAheadOfPrint: Option<string>,
    pubyear: Option<int>,
    publisher: Option<string>,
    place: Option<string>,
    sourcetitle: Option<string>,
    madePublicIn: Option<string>,
    sourcevolume: Option<string>,
    sourceissue: Option<string>,
    articleNumber: Option<string>,
    sourcepages: Option<string>,
    series: Option<seq<Serie>>,
    files: Option<seq<File>>)

  /** A search hit: the crosswalk reads its `_source`. */
  datatype Hit = Hit(source: Publication)
}
