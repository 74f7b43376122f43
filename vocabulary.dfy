/**
 * The fixed vocabulary tables of the MODS crosswalk: ISO 639-2/B language
 * codes, identifier schemes, publication type to genre pair, role code,
 * type of resource, and the set of monograph publication types.
 */
module Vocabulary {
  import opened Wrappers

  /** The two-letter language codes and the ISO 639-2/B code each stands for. */
  const TwoLetterCodes: map<string, string> := map[
      "en" := "eng",
      "sv" := "swe",
      "ar" := "ara",
      "bs" := "bos",
      "bg" := "bul",
      "zh" := "chi",
      "hr" := "hrv",
      "cs" := "cze",
      "da" := "dan",
      "nl" := "dut",
      "fi" := "fin",
      "fr" := "fre",
      "de" := "ger",
      "el" := "gre",
      "he" := "heb",
      "hu" := "hun",
      "is" := "ice",
      "it" := "ita",
      "ja" := "jpn",
      "ko" := "kor",
      "la" := "lat",
      "lv" := "lav",
      "no" := "nor",
      "pl" := "pol",
      "pt" := "por",
      "ro" := "rum",
      "ru" := "rus",
      "sr" := "srp",
      "sk" := "slo",
      "sl" := "slv",
      "es" := "spa",
      "tr" := "tur",
      "uk" := "ukr"
    ]

  /** The ISO 639-2/B codes the table accepts; each stands for itself. */
  const ThreeLetterCodes: set<string> := {
      "eng", "swe", "ara", "bos", "bul", "chi", "hrv", "cze", "dan", "dut", "fin",
      "fre", "ger", "gre", "heb", "hun", "ice", "ita", "jpn", "kor", "lat", "lav",
      "nor", "pol", "por", "rum", "rus", "srp", "slo", "slv", "spa", "tur", "ukr"
    }

  lemma TwoLetterKeys()
    ensures forall k :: k in TwoLetterCodes ==> |k| == 2
  {
  }

  lemma ThreeLetterKeys()
    ensures forall t :: t in ThreeLetterCodes ==> |t| == 3
  {
  }

  lemma TwoLetterValues()
    ensures TwoLetterCodes.Values <= ThreeLetterCodes
  {
  }

  lemma UndeterminedIsNoCode()
    ensures "und" !in ThreeLetterCodes
  {
  }

  /** The keys of the language table of `get_language_code`. */
  predicate IsListedLanguage(code: string) {
    code in TwoLetterCodes || code in ThreeLetterCodes
  }

  /** `get_language_code`: the table's code for a listed two- or three-letter code,
      "und" for anything else (None included). */
  function LanguageCode(language: Option<string>): (r: string)
    ensures r == "und" || r in ThreeLetterCodes
    ensures r == "und" <==> language.None? || !IsListedLanguage(language.value)
  {
    TwoLetterValues();
    UndeterminedIsNoCode();
    match language
    case None => "und"
    case Some(code) =>
      if code in TwoLetterCodes then TwoLetterCodes[code]
      else if code in ThreeLetterCodes then code
      else "und"
  }

  /** Every code `get_language_code` returns is three letters long. */
  lemma LanguageCodeLength(language: Option<string>)
    ensures |LanguageCode(language)| == 3
  {
    ThreeLetterKeys();
  }

  /** `get_language_code` is idempotent: every code it returns maps to itself. */
  lemma LanguageCodeIdempotent(language: Option<string>)
    ensures LanguageCode(Some(LanguageCode(language))) == LanguageCode(language)
  {
    TwoLetterKeys();
    ThreeLetterKeys();
    UndeterminedIsNoCode();
    var r := LanguageCode(language);
    assert |r| == 3;
    assert r !in TwoLetterCodes;
  }

  /** A listed two-letter code maps to a different, three-letter code;
      a listed three-letter code maps to itself. */
  lemma LanguageCodeOnKeys(code: string)
    requires IsListedLanguage(code)
    ensures |code| == 2 ==> |LanguageCode(Some(code))| == 3 && LanguageCode(Some(code)) != code
    ensures |code| == 3 ==> LanguageCode(Some(code)) == code
  {
    TwoLetterKeys();
    ThreeLetterKeys();
    LanguageCodeLength(Some(code));
  }

  /** Identifier scheme codes of the store to MODS identifier types. */
  const IdentifierTable: map<string, string> := map[
      "isi-id" := "isi",
      "pubmed" := "pmid",
      "handle" := "hdl",
      "doi" := "doi",
      "scopus-id" := "scopus",
      "libris-id" := "se-libr"
    ]

  /** `get_identifier_code`: translated through the table; an unknown code passes
      through unchanged and a missing one stays missing. */
  function IdentifierCode(code: Option<string>): (r: Option<string>)
    ensures r.None? <==> code.None?
    ensures code.Some? && code.value !in IdentifierTable ==> r == code
    ensures code.Some? && code.value in IdentifierTable ==> r.value in IdentifierTable.Values
  {
    match code
    case None => None
    case Some(c) => Some(if c in IdentifierTable then IdentifierTable[c] else c)
  }

  /** Translating a translated code again changes nothing. */
  lemma IdentifierCodeIdempotent(code: Option<string>)
    ensures IdentifierCode(IdentifierCode(code)) == IdentifierCode(code)
  {
    assert forall k :: k in IdentifierTable ==> IdentifierTable[k] !in IdentifierTable || IdentifierTable[IdentifierTable[k]] == IdentifierTable[k];
  }

  /** The genre pair of a publication type. */
  datatype TypeInfo = TypeInfo(contentType: string, outputType: string)

  /** The publication type table, apart from its one entry that depends on the
      refereed indicator. */
  const FixedTypeTable: map<string, TypeInfo> := map[
      "conference_other" := TypeInfo("vet", "conference/other"),
      "conference_paper" := TypeInfo("ref", "conference/paper"),
      "conference_poster" := TypeInfo("vet", "conference/poster"),
      "publication_journal-article" := TypeInfo("ref", "publication/journal-article"),
      "publication_magazine-article" := TypeInfo("vet", "publication/magazine-article"),
      "publication_edited-book" := TypeInfo("vet", "publication/edited-book"),
      "publication_book" := TypeInfo("vet", "publication/book"),
      "intellectual-property_patent" := TypeInfo("vet", "intellectual-property/patent"),
      "publication_report" := TypeInfo("vet", "publication/report"),
      "publication_doctoral-thesis" := TypeInfo("vet", "publication/doctoral-thesis"),
      "publication_book-review" := TypeInfo("vet", "publication/book-review"),
      "publication_licentiate-thesis" := TypeInfo("vet", "publication/licentiate-thesis"),
      "other" := TypeInfo("vet", "publication/other"),
      "publication_review-article" := TypeInfo("ref", "publication/review-article"),
      "artistic-work_scientific_and_development" := TypeInfo("vet", "artistic-work"),
      "publication_textcritical-edition" := TypeInfo("vet", "publication/critical-edition"),
      "publication_textbook" := TypeInfo("vet", "publication/book"),
      "artistic-work_original-creative-work" := TypeInfo("vet", "artistic-work/original-creative-work"),
      "publication_editorial-letter" := TypeInfo("vet", "publication/editorial-letter"),
      "publication_report-chapter" := TypeInfo("vet", "publication/report-chapter"),
      "publication_newspaper-article" := TypeInfo("pop", "publication/newspaper-article"),
      "publication_encyclopedia-entry" := TypeInfo("vet", "publication/encyclopedia-entry"),
      "publication_journal-issue" := TypeInfo("vet", "publication/journal-issue"),
      "conference_proceeding" := TypeInfo("vet", "conference/proceeding"),
      "publication_working-paper" := TypeInfo("vet", "publication/working-paper")
    ]

  const BookChapter: string := "publication_book-chapter"

  /** The publication type table: book chapters are refereed ("ref") content when
      their indicator is "ISREF", "vet" otherwise. */
  function PublicationTypeTable(refValue: Option<string>): map<string, TypeInfo> {
    FixedTypeTable[BookChapter := TypeInfo(if refValue == Some("ISREF") then "ref" else "vet", "publication/book-chapter")]
  }

  const DefaultTypeInfo: TypeInfo := TypeInfo("vet", "publication/other")

  /** `get_publication_type_info`: the table's genre pair, or vet / publication/other. */
  function PublicationTypeInfo(code: string, refValue: Option<string>): (r: TypeInfo)
    ensures r.contentType in {"ref", "vet", "pop"}
    ensures code !in PublicationTypeTable(refValue) ==> r == DefaultTypeInfo
  {
    var table := PublicationTypeTable(refValue);
    assert forall k :: k in table ==> table[k].contentType in {"ref", "vet", "pop"};
    if code in table then table[code] else DefaultTypeInfo
  }

  /** A book chapter is refereed content exactly when its indicator is "ISREF". */
  lemma BookChapterContentType(refValue: Option<string>)
    ensures PublicationTypeInfo(BookChapter, refValue).contentType == "ref" <==> refValue == Some("ISREF")
    ensures PublicationTypeInfo(BookChapter, refValue).outputType == "publication/book-chapter"
  {
  }

  /** Only book chapters depend on the refereed indicator. */
  lemma RefValueOnlyAffectsBookChapters(code: string, a: Option<string>, b: Option<string>)
    requires code != BookChapter
    ensures PublicationTypeInfo(code, a) == PublicationTypeInfo(code, b)
  {
  }

  /** The publication types whose persons are editors. */
  const EditorTypes: set<string> := {"publication_edited-book", "publication_textcritical-edition", "publication_journal-issue", "conference_proceeding"}

  /** `get_role_code`: "edt" for the four editor types, "aut" otherwise. */
  function RoleCode(code: string): (r: string)
    ensures r == "edt" <==> code in EditorTypes
    ensures r == "aut" <==> code !in EditorTypes
  {
    var roles := map[
      "publication_edited-book" := "edt",
      "publication_textcritical-edition" := "edt",
      "publication_journal-issue" := "edt",
      "conference_proceeding" := "edt"
    ];
    if code in roles then roles[code] else "aut"
  }

  /** `get_type_of_resource_code`: "mixed material" for the two artistic types, else "text". */
  function TypeOfResourceCode(code: string): (r: string)
    ensures r == "mixed material" <==> code in {"artistic-work_scientific_and_development", "artistic-work_original-creative-work"}
    ensures r != "mixed material" ==> r == "text"
  {
    var types := map[
      "artistic-work_scientific_and_development" := "mixed material",
      "artistic-work_original-creative-work" := "mixed material"
    ];
    if code in types then types[code] else "text"
  }

  /** The monograph publication types. */
  const MonographTypes: set<string> := {"publication_book", "publication_edited-book", "publication_report", "publication_doctoral-thesis", "publication_licentiate-thesis"}

  /** `is_monograph`. */
  predicate IsMonograph(code: string) {
    code in MonographTypes
  }
}
