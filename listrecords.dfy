/**
 * The ListRecords verb (section 4.5 of OAI-PMH 2.0) with flow control by
 * resumption tokens (section 3.5 of OAI-PMH 2.0).
 *
 * `ListRecordsRequest.post_parse` resolves the harvesting arguments, taking a
 * resumption token's arguments before the request's own, and
 * `ListRecordsResponse.body` lists one page of records and builds the next
 * token. What lives in files this model does not hold becomes a parameter:
 * the token's text form (`ResumptionToken.parse` and `ResumptionToken.xml`),
 * the repository's date validator, the record writer and the listing of
 * identifiers.
 */
module ListRecords {
  import opened Wrappers
  import opened Xml
  import opened Publication
  import Seqs

  /** The errors this verb raises itself. */
  datatype OAIError = BadResumptionToken | CannotDisseminateFormat | NoRecordsMatch

  /** The fields of a `ResumptionToken`. */
  datatype Token = Token(cursor: Option<int>, completeListSize: Option<int>, state: Option<string>, args: Option<map<string, string>>)

  /** A token nothing has been parsed into: no cursor and no arguments. */
  const FreshToken: Token := Token(None, None, None, None)

  // ---------------------------------------------------------------- post_parse

  /** `if arg and key in arg`: the source is a dict holding `key` (an empty dict
      holds no key, so its falsiness needs no case of its own). */
  predicate HasKey(source: Option<map<string, string>>, key: string) {
    source.Some? && key in source.value
  }

  /** `first_match`: the value under `key` in the first source holding it. */
  function FirstMatchOf(key: string, sources: seq<Option<map<string, string>>>): Option<string> {
    if sources == [] then None
    else if HasKey(sources[0], key) then Some(sources[0].value[key])
    else FirstMatchOf(key, sources[1..])
  }

  /** `first_match` finds nothing exactly when no source holds the key, and otherwise
      the value of the first source that does. */
  lemma {:induction false} FirstMatchOfSpec(key: string, sources: seq<Option<map<string, string>>>)
    ensures FirstMatchOf(key, sources).None? <==> forall i :: 0 <= i < |sources| ==> !HasKey(sources[i], key)
    ensures FirstMatchOf(key, sources).Some? ==>
      exists i :: 0 <= i < |sources| && HasKey(sources[i], key)
        && FirstMatchOf(key, sources).value == sources[i].value[key]
        && forall j :: 0 <= j < i ==> !HasKey(sources[j], key)
  {
    if sources != [] && !HasKey(sources[0], key) {
      FirstMatchOfSpec(key, sources[1..]);
      assert forall i :: 1 <= i < |sources| ==> sources[i] == sources[1..][i - 1];
      if FirstMatchOf(key, sources).Some? {
        var i :| 0 <= i < |sources[1..]| && HasKey(sources[1..][i], key)
          && FirstMatchOf(key, sources[1..]).value == sources[1..][i].value[key]
          && forall j :: 0 <= j < i ==> !HasKey(sources[1..][j], key);
        assert HasKey(sources[i + 1], key);
        assert forall j :: 0 <= j < i + 1 ==> !HasKey(sources[j], key) by {
          forall j | 1 <= j < i + 1 ensures !HasKey(sources[j], key) {
            assert sources[j] == sources[1..][j - 1];
          }
        }
      }
    }
  }

  /** `first_match` as the loop it is: return at the first source holding the key. */
  method FirstMatch(key: string, sources: seq<Option<map<string, string>>>) returns (r: Option<string>)
    ensures r == FirstMatchOf(key, sources)
  {
    for i := 0 to |sources|
      invariant FirstMatchOf(key, sources[i..]) == FirstMatchOf(key, sources)
    {
      if sources[i].Some? && key in sources[i].value {
        return Some(sources[i].value[key]);
      }
      assert sources[i..][1..] == sources[i + 1..];
    }
    return None;
  }

  /** How `post_parse` resolves one argument: from the token's arguments when they hold
      it, else from the request's arguments, else nothing. */
  function Resolve(key: string, token: Token, args: map<string, string>): (r: Option<string>)
    ensures HasKey(token.args, key) ==> r == Some(token.args.value[key])
    ensures !HasKey(token.args, key) && key in args ==> r == Some(args[key])
    ensures !HasKey(token.args, key) && key !in args ==> r == None
  {
    var sources := [token.args, Some(args)];
    assert sources[1..] == [Some(args)] && sources[1..][1..] == [];
    assert FirstMatchOf(key, sources[1..]) == if key in args then Some(args[key]) else None;
    FirstMatchOf(key, sources)
  }

  /** A `ListRecords` request: its arguments, the argument sets it declares, its token
      and the filters `post_parse` resolves. */
  class ListRecordsRequest {
    var args: map<string, string>
    var optionalArgs: seq<string>
    var requiredArgs: seq<string>
    var exclusiveArg: string
    var token: Token
    var filterFrom: Option<string>
    var filterUntil: Option<string>
    var filterSet: Option<string>
    var metadataPrefix: Option<string>

    /** `__init__`; `args` are the arguments `OAIRequest` read from the request. */
    constructor (args: map<string, string>)
      ensures this.args == args
      ensures optionalArgs == ["from", "until", "set"] && requiredArgs == ["metadataPrefix"]
      ensures exclusiveArg == "resumptionToken"
      ensures token == FreshToken
      ensures filterFrom == None && filterUntil == None && filterSet == None && metadataPrefix == None
    {
      this.args := args;
      optionalArgs := ["from", "until", "set"];
      requiredArgs := ["metadataPrefix"];
      exclusiveArg := "resumptionToken";
      token := FreshToken;
      filterFrom, filterUntil, filterSet, metadataPrefix := None, None, None, None;
    }

    /** `post_parse`: parse the token when there is one, resolve the four arguments, and
        reject a token that resolves no metadata prefix. `parse` is `ResumptionToken.parse`. */
    method PostParse(parse: string -> Token) returns (error: Option<OAIError>)
      modifies this
      ensures args == old(args) && optionalArgs == old(optionalArgs)
      ensures requiredArgs == old(requiredArgs) && exclusiveArg == old(exclusiveArg)
      ensures token == if "resumptionToken" in args then parse(args["resumptionToken"]) else old(token)
      ensures filterFrom == Resolve("from", token, args)
      ensures filterUntil == Resolve("until", token, args)
      ensures filterSet == Resolve("set", token, args)
      ensures metadataPrefix == Resolve("metadataPrefix", token, args)
      ensures error == if "resumptionToken" in args && !Truthy(metadataPrefix) then Some(BadResumptionToken) else None
    {
      if "resumptionToken" in args {
        token := parse(args["resumptionToken"]);
      }
      filterFrom := FirstMatch("from", [token.args, Some(args)]);
      filterUntil := FirstMatch("until", [token.args, Some(args)]);
      filterSet := FirstMatch("set", [token.args, Some(args)]);
      metadataPrefix := FirstMatch("metadataPrefix", [token.args, Some(args)]);
      error := None;
      if "resumptionToken" in args && !Truthy(metadataPrefix) {
        error := Some(BadResumptionToken);
      }
    }
  }

  // ---------------------------------------------------------------- body

  /** The arguments of `list_identifiers`. */
  datatype Query = Query(metadataPrefix: string, from: Option<string>, until: Option<string>, setSpec: Option<string>, cursor: int)

  /** What `list_identifiers` returns: one page of identifiers, the size of the whole
      list and a state to keep in the token. */
  datatype Listing = Listing(identifiers: seq<string>, size: int, state: Option<string>)

  /** The repository as `body` uses it: the prefixes of its metadata formats, its page
      size, and the pieces this model takes as given: `valid_date`, `list_identifiers`,
      `record` (the record of an identifier in a format) and `ResumptionToken.xml`. */
  datatype Repository = Repository(
    formats: seq<string>,
    limit: int,
    validDate: Option<string> -> Option<string>,
    listIdentifiers: Query -> Listing,
    record: (string, string) -> Element,
    tokenXml: (Token, int) -> Option<Element>)

  /** What `body` returns or raises; `token` is the token it built, if any. */
  datatype Outcome = Failure(error: OAIError) | Success(listRecords: Element, token: Option<Token>)

  /** The cursor of a page: 0 for a first request, the token's cursor plus the page
      size for a continuation. */
  function Cursor(token: Token, limit: int): int {
    if token.cursor.Some? then token.cursor.value + limit else 0
  }

  /** The record writer for one format. */
  function RecordOf(repository: Repository, prefix: string): string -> Element {
    identifier => repository.record(identifier, prefix)
  }

  /** The arguments a new token carries: the metadata prefix, and each filter that is set
      and not empty. */
  function TokenArgs(prefix: string, from: Option<string>, until: Option<string>, setSpec: Option<string>): map<string, string> {
    var args := map["metadataPrefix" := prefix];
    var args := if Truthy(from) then args["from" := from.value] else args;
    var args := if Truthy(until) then args["until" := until.value] else args;
    if Truthy(setSpec) then args["set" := setSpec.value] else args
  }

  /** The token carries the prefix, and a filter exactly when it is set and not empty. */
  lemma TokenArgsContents(prefix: string, from: Option<string>, until: Option<string>, setSpec: Option<string>)
    ensures var a := TokenArgs(prefix, from, until, setSpec);
      a.Keys <= {"metadataPrefix", "from", "until", "set"}
      && "metadataPrefix" in a && a["metadataPrefix"] == prefix
      && ("from" in a <==> Truthy(from)) && ("from" in a ==> a["from"] == from.value)
      && ("until" in a <==> Truthy(until)) && ("until" in a ==> a["until"] == until.value)
      && ("set" in a <==> Truthy(setSpec)) && ("set" in a ==> a["set"] == setSpec.value)
  {
  }

  /** The token `body` builds after serving `listing` at `cursor`, as written: whenever
      the whole list is longer than one page. */
  function NextToken(prefix: string, from: Option<string>, until: Option<string>, setSpec: Option<string>,
                     cursor: int, listing: Listing, limit: int): Option<Token>
  {
    if listing.size > limit
    then Some(Token(Some(cursor), Some(listing.size), listing.state, Some(TokenArgs(prefix, from, until, setSpec))))
    else None
  }

  /** `ListRecordsResponse.body` for a request whose resolved filters and token are given. */
  function Page(from: Option<string>, until: Option<string>, setSpec: Option<string>, metadataPrefix: Option<string>,
                token: Token, repository: Repository): Outcome
  {
    if metadataPrefix.None? || metadataPrefix.value !in repository.formats then Failure(CannotDisseminateFormat)
    else
      var prefix := metadataPrefix.value;
      var cursor := Cursor(token, repository.limit);
      var listing := repository.listIdentifiers(Query(prefix, repository.validDate(from), repository.validDate(until), setSpec, cursor));
      if listing.identifiers == [] then Failure(NoRecordsMatch)
      else
        var next := NextToken(prefix, from, until, setSpec, cursor, listing, repository.limit);
        var tokenXml := if next.Some? then repository.tokenXml(next.value, repository.limit) else None;
        Success(Element("ListRecords", [], None,
          Seqs.Map(RecordOf(repository, prefix), listing.identifiers) + (if tokenXml.Some? then [tokenXml.value] else [])),
          next)
  }

  /** The token `body` builds: its cursor, size and state, then its arguments one by one. */
  method NewToken(prefix: string, from: Option<string>, until: Option<string>, setSpec: Option<string>,
                  cursor: int, listing: Listing) returns (token: Token)
    ensures token == Token(Some(cursor), Some(listing.size), listing.state, Some(TokenArgs(prefix, from, until, setSpec)))
  {
    token := FreshToken.(cursor := Some(cursor), completeListSize := Some(listing.size), state := listing.state);
    var args := map["metadataPrefix" := prefix];
    if Truthy(from) {
      args := args["from" := from.value];
    }
    if Truthy(until) {
      args := args["until" := until.value];
    }
    if Truthy(setSpec) {
      args := args["set" := setSpec.value];
    }
    token := token.(args := Some(args));
  }

  /** `ListRecordsResponse.body`: check the format, list a page, write one record per
      identifier in a loop, then build the next token argument by argument. */
  method Body(request: ListRecordsRequest, repository: Repository) returns (r: Outcome)
    ensures r == Page(request.filterFrom, request.filterUntil, request.filterSet, request.metadataPrefix, request.token, repository)
  {
    var formats := repository.formats;
    if request.metadataPrefix.None? || request.metadataPrefix.value !in formats {
      return Failure(CannotDisseminateFormat);
    }
    var prefix := request.metadataPrefix.value;
    var cursor := if request.token.cursor.Some? then request.token.cursor.value + repository.limit else 0;
    var listing := repository.listIdentifiers(Query(prefix, repository.validDate(request.filterFrom),
      repository.validDate(request.filterUntil), request.filterSet, cursor));
    var identifiers := listing.identifiers;
    if identifiers == [] {
      return Failure(NoRecordsMatch);
    }
    var xmlb := new Node("ListRecords");
    ghost var record := RecordOf(repository, prefix);
    for i := 0 to |identifiers|
      invariant xmlb.name == "ListRecords" && xmlb.attrs == [] && xmlb.text == None
      invariant xmlb.children == Seqs.Map(record, identifiers[..i])
    {
      xmlb.Append(repository.record(identifiers[i], prefix));
      Seqs.MapStep(record, identifiers, i);
    }
    assert identifiers[..|identifiers|] == identifiers;
    var next: Option<Token> := None;
    if listing.size > repository.limit {
      var token := NewToken(prefix, request.filterFrom, request.filterUntil, request.filterSet, cursor, listing);
      next := Some(token);
      var tokenXml := repository.tokenXml(token, repository.limit);
      if tokenXml.Some? {
        xmlb.Append(tokenXml.value);
      }
    }
    return Success(xmlb.Value(), next);
  }

  // ---------------------------------------------------------------- properties of a page

  /** An unsupported (or missing) metadata prefix is refused before anything is listed:
      the listing cannot change the answer. */
  lemma UnsupportedFormatFirst(from: Option<string>, until: Option<string>, setSpec: Option<string>, metadataPrefix: Option<string>,
                               token: Token, repository: Repository, other: Query -> Listing)
    requires metadataPrefix.None? || metadataPrefix.value !in repository.formats
    ensures Page(from, until, setSpec, metadataPrefix, token, repository) == Failure(CannotDisseminateFormat)
    ensures Page(from, until, setSpec, metadataPrefix, token, repository.(listIdentifiers := other)) == Failure(CannotDisseminateFormat)
  {
  }

  /** The page listed for a supported prefix: the cursor and the resolved filters, after
      the repository's date check. */
  function PageQuery(from: Option<string>, until: Option<string>, setSpec: Option<string>, prefix: string,
                     token: Token, repository: Repository): Query
  {
    Query(prefix, repository.validDate(from), repository.validDate(until), setSpec, Cursor(token, repository.limit))
  }

  /** An empty page is `noRecordsMatch`, whatever the cursor. */
  lemma EmptyPageNoRecordsMatch(from: Option<string>, until: Option<string>, setSpec: Option<string>, prefix: string,
                                token: Token, repository: Repository)
    requires prefix in repository.formats
    ensures Page(from, until, setSpec, Some(prefix), token, repository) == Failure(NoRecordsMatch)
            <==> repository.listIdentifiers(PageQuery(from, until, setSpec, prefix, token, repository)).identifiers == []
  {
  }

  /** A non-empty page holds one record per identifier, in the listed order, followed
      by at most the token's XML; a token is built exactly when the whole list is longer
      than a page, and it records the cursor served, the list size, the state and the
      arguments to resume with. */
  lemma PageContents(from: Option<string>, until: Option<string>, setSpec: Option<string>, prefix: string,
                     token: Token, repository: Repository)
    requires prefix in repository.formats
    requires repository.listIdentifiers(PageQuery(from, until, setSpec, prefix, token, repository)).identifiers != []
    ensures var listing := repository.listIdentifiers(PageQuery(from, until, setSpec, prefix, token, repository));
      var r := Page(from, until, setSpec, Some(prefix), token, repository);
      var ids := listing.identifiers;
      r.Success?
      && r.listRecords.name == "ListRecords"
      && |ids| <= |r.listRecords.children| <= |ids| + 1
      && (forall i :: 0 <= i < |ids| ==> r.listRecords.children[i] == repository.record(ids[i], prefix))
      && (r.token.Some? <==> listing.size > repository.limit)
      && (r.token.Some? ==>
            r.token.value.cursor == Some(Cursor(token, repository.limit))
            && r.token.value.completeListSize == Some(listing.size)
            && r.token.value.state == listing.state
            && r.token.value.args == Some(TokenArgs(prefix, from, until, setSpec)))
  {
    var listing := repository.listIdentifiers(PageQuery(from, until, setSpec, prefix, token, repository));
    var records := Seqs.Map(RecordOf(repository, prefix), listing.identifiers);
    var r := Page(from, until, setSpec, Some(prefix), token, repository);
    assert r.listRecords.children[..|records|] == records;
  }

  // ---------------------------------------------------------------- continuation

  /** A continuation names only the token (the validator refuses any other argument
      beside the exclusive one). When the token text parses back to the token a page
      built, the continuation resolves the same metadata prefix and the same non-empty
      filters (an empty filter, which the token leaves out, resolves to nothing, and it
      filtered nothing either), and it is served from the next page. */
  lemma ContinuationResumes(prefix: string, from: Option<string>, until: Option<string>, setSpec: Option<string>,
                            cursor: int, listing: Listing, limit: int, args: map<string, string>)
    requires listing.size > limit
    requires args.Keys <= {"verb", "resumptionToken"}
    ensures var t := NextToken(prefix, from, until, setSpec, cursor, listing, limit).value;
      Resolve("metadataPrefix", t, args) == Some(prefix)
      && Resolve("from", t, args) == (if Truthy(from) then from else None)
      && Resolve("until", t, args) == (if Truthy(until) then until else None)
      && Resolve("set", t, args) == (if Truthy(setSpec) then setSpec else None)
      && Cursor(t, limit) == cursor + limit
  {
    TokenArgsContents(prefix, from, until, setSpec);
  }

  /** The arguments a continuation resolves build the same token arguments again: every
      page of a conversation carries the filters of its first request. */
  lemma ContinuationKeepsArgs(prefix: string, from: Option<string>, until: Option<string>, setSpec: Option<string>,
                              cursor: int, listing: Listing, limit: int, args: map<string, string>)
    requires listing.size > limit
    requires args.Keys <= {"verb", "resumptionToken"}
    ensures var t := NextToken(prefix, from, until, setSpec, cursor, listing, limit).value;
      TokenArgs(Resolve("metadataPrefix", t, args).value, Resolve("from", t, args), Resolve("until", t, args), Resolve("set", t, args))
      == TokenArgs(prefix, from, until, setSpec)
  {
    ContinuationResumes(prefix, from, until, setSpec, cursor, listing, limit, args);
  }

  // ---------------------------------------------------------------- the last page

  /** A store holding `all` matching identifiers, listed `limit` at a time from `cursor`. */
  function StorePage(all: seq<string>, cursor: int, limit: int): (l: Listing)
    requires 0 <= cursor && 0 < limit
    ensures l.size == |all|
    ensures |l.identifiers| == if cursor < |all| then (if cursor + limit < |all| then limit else |all| - cursor) else 0
  {
    var start := if cursor < |all| then cursor else |all|;
    var end := if cursor + limit < |all| then cursor + limit else |all|;
    Listing(all[start..end], |all|, None)
  }

  /** As written, the last page of a list longer than one page still builds a token, and
      the page that token's cursor leads to is empty: with a page of 2 and 5 records, the
      request at cursor 4 serves the fifth record and builds a token for cursor 6. Were
      `tokenXml` to render it as a token that can be resumed, following it would end in
      `noRecordsMatch`; if it renders the empty terminal token instead, nothing is wrong. */
  lemma LastPageMintsToken(prefix: string, from: Option<string>, until: Option<string>, setSpec: Option<string>,
                           all: seq<string>, cursor: int, limit: int)
    requires 0 < limit < |all| && 0 <= cursor < |all| <= cursor + limit
    ensures var t := NextToken(prefix, from, until, setSpec, cursor, StorePage(all, cursor, limit), limit);
      StorePage(all, cursor, limit).identifiers != []
      && t.Some?
      && StorePage(all, Cursor(t.value, limit), limit).identifiers == []
  {
  }

  /** The token under the design's terminal-page rule: a token that can be resumed is
      built only while records remain after this page. The empty terminal token of
      OAI-PMH 2.0 is not modelled. */
  function CorrectedNextToken(prefix: string, from: Option<string>, until: Option<string>, setSpec: Option<string>,
                              cursor: int, listing: Listing, limit: int): Option<Token>
  {
    if cursor + |listing.identifiers| < listing.size
    then Some(Token(Some(cursor), Some(listing.size), listing.state, Some(TokenArgs(prefix, from, until, setSpec))))
    else None
  }

  /** With the corrected condition a token is built exactly when the page it leads to
      holds records: the last page ends the conversation, and no token points past the
      end. */
  lemma CorrectedTokenIffMore(prefix: string, from: Option<string>, until: Option<string>, setSpec: Option<string>,
                              all: seq<string>, cursor: int, limit: int)
    requires 0 < limit && 0 <= cursor < |all|
    ensures var t := CorrectedNextToken(prefix, from, until, setSpec, cursor, StorePage(all, cursor, limit), limit);
      (t.Some? <==> StorePage(all, cursor + limit, limit).identifiers != [])
      && (t.Some? ==> Cursor(t.value, limit) == cursor + limit)
  {
  }

  /** Walking the corrected tokens from the first page serves every record exactly once:
      the pages from `cursor` on, each followed while a token is built, concatenate to
      the records from `cursor` to the end. */
  function Walk(all: seq<string>, cursor: nat, limit: int): seq<string>
    requires 0 < limit
    decreases |all| - cursor
  {
    var page := StorePage(all, cursor, limit);
    if CorrectedNextToken("", None, None, None, cursor, page, limit).Some?
    then page.identifiers + Walk(all, cursor + limit, limit)
    else page.identifiers
  }

  lemma {:induction false} WalkServesAll(all: seq<string>, cursor: nat, limit: int)
    requires 0 < limit && cursor <= |all|
    ensures Walk(all, cursor, limit) == all[cursor..]
    decreases |all| - cursor
  {
    var page := StorePage(all, cursor, limit);
    if cursor + limit < |all| {
      WalkServesAll(all, cursor + limit, limit);
      assert all[cursor..] == all[cursor..cursor + limit] + all[cursor + limit..];
    }
  }
}
