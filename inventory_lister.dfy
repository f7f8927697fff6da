/**
 * `list_files_generator` of `src/drive_client.py`: the Drive search query built
 * from the filters, and the paged listing that turns the raw file resources of
 * every page into inventory records, dropping files below the minimum size.
 *
 * The remote service is the sequence of responses it gives to the successive
 * list requests; a request past the end of that sequence, or one answered by
 * `RequestFailed`, is a request that raised.
 */
module InventoryLister {
  import opened Wrappers
  import Text
  import Decimal
  import Json

  // ---------------------------------------------------------------------------
  // The search query

  const TrashedClause: string := "trashed = false"
  const NotFolderClause: string := "mimeType != " + "'application/vnd.google-apps.folder'"
  const DefaultPageSize: int := 1000

  /** The keyword arguments of `list_files_generator`; `None` is Python's `None`. */
  datatype Filters = Filters(
    pageSize: int,
    minSize: int,
    mimeTypes: Option<seq<string>>,
    modifiedAfter: Option<string>,
    modifiedBefore: Option<string>,
    nameContains: Option<string>)

  /** Python truthiness of an optional list or string: present and not empty. */
  predicate Given<T>(o: Option<seq<T>>) { o.Some? && |o.value| > 0 }

  function MimeTerm(mt: string): string { "mimeType = '" + mt + "'" }

  function MimeTerms(mts: seq<string>): seq<string>
  {
    seq(|mts|, i requires 0 <= i < |mts| => MimeTerm(mts[i]))
  }

  /** The exact MIME types, OR-ed together in the order given, in parentheses. */
  function MimeClause(mts: seq<string>): string { "(" + Text.Join(MimeTerms(mts), " or ") + ")" }

  function AfterClause(t: string): string { "modifiedTime >= '" + t + "'" }

  function BeforeClause(t: string): string { "modifiedTime <= '" + t + "'" }

  /** `s.replace("'", with)`. */
  function ReplaceQuote(s: string, with: string): string
  {
    if s == [] then "" else (if s[0] == '\'' then with else [s[0]]) + ReplaceQuote(s[1..], with)
  }

  /**
   * The "escaped" name term. The Python literal `"\'"` is the one-character
   * string `'`, so each quote is replaced by itself.
   */
  function SafeTerm(t: string): string { ReplaceQuote(t, "'") }

  /** The escaping step leaves the term unchanged: a quote in it reaches the query as is. */
  lemma {:induction false} SafeTermIsIdentity(t: string)
    ensures SafeTerm(t) == t
  {
    if t != [] {
      SafeTermIsIdentity(t[1..]);
      assert t == [t[0]] + t[1..];
    }
  }

  function NameClause(t: string): string { "name contains '" + SafeTerm(t) + "'" }

  /** The query clauses, in the order `list_files_generator` appends them. */
  function QueryClauses(f: Filters): seq<string>
  {
    [TrashedClause, NotFolderClause]
    + (if Given(f.mimeTypes) then [MimeClause(f.mimeTypes.value)] else [])
    + (if Given(f.modifiedAfter) then [AfterClause(f.modifiedAfter.value)] else [])
    + (if Given(f.modifiedBefore) then [BeforeClause(f.modifiedBefore.value)] else [])
    + (if Given(f.nameContains) then [NameClause(f.nameContains.value)] else [])
  }

  function Query(f: Filters): string { Text.Join(QueryClauses(f), " and ") }

  /** Builds `q_parts` step by step and joins it with `" and "`. */
  method BuildQuery(f: Filters) returns (parts: seq<string>, query: string)
    ensures parts == QueryClauses(f)
    ensures query == Query(f)
    ensures Text.IsPrefix(TrashedClause + " and " + NotFolderClause, query)
  {
    parts := BuildParts(f);
    query := Text.Join(parts, " and ");
    Text.JoinStartsWith(parts, " and ");
  }

  /** `q_parts`: the fixed clauses, then one clause per filter given, in order. */
  method BuildParts(f: Filters) returns (parts: seq<string>)
    ensures parts == QueryClauses(f)
  {
    parts := [TrashedClause, NotFolderClause];
    if Given(f.mimeTypes) {
      var clause := BuildMimeClause(f.mimeTypes.value);
      parts := parts + [clause];
    }
    ghost var c1 := if Given(f.mimeTypes) then [MimeClause(f.mimeTypes.value)] else [];
    assert parts == [TrashedClause, NotFolderClause] + c1;
    if Given(f.modifiedAfter) {
      parts := parts + [AfterClause(f.modifiedAfter.value)];
    }
    ghost var c2 := if Given(f.modifiedAfter) then [AfterClause(f.modifiedAfter.value)] else [];
    assert parts == [TrashedClause, NotFolderClause] + c1 + c2;
    if Given(f.modifiedBefore) {
      parts := parts + [BeforeClause(f.modifiedBefore.value)];
    }
    ghost var c3 := if Given(f.modifiedBefore) then [BeforeClause(f.modifiedBefore.value)] else [];
    assert parts == [TrashedClause, NotFolderClause] + c1 + c2 + c3;
    if Given(f.nameContains) {
      var safe := ReplaceQuote(f.nameContains.value, "'");
      parts := parts + ["name contains '" + safe + "'"];
    }
  }

  /** The MIME clause: one term per type, OR-ed in order, in parentheses. */
  method BuildMimeClause(mts: seq<string>) returns (clause: string)
    ensures clause == MimeClause(mts)
  {
    var terms: seq<string> := [];
    var k := 0;
    while k < |mts|
      invariant 0 <= k <= |mts|
      invariant terms == MimeTerms(mts[..k])
    {
      terms := terms + [MimeTerm(mts[k])];
      k := k + 1;
    }
    assert mts[..k] == mts;
    clause := "(" + Text.Join(terms, " or ") + ")";
  }

  /** Which filter a clause expresses, read from its leading text. */
  function Rank(c: string): nat
  {
    if Text.IsPrefix("trashed ", c) then 0
    else if Text.IsPrefix("mimeType != ", c) then 1
    else if Text.IsPrefix("(", c) then 2
    else if Text.IsPrefix("modifiedTime >= ", c) then 3
    else if Text.IsPrefix("modifiedTime <= ", c) then 4
    else if Text.IsPrefix("name contains ", c) then 5
    else 6
  }

  lemma RankOfClauses(mts: seq<string>, t: string)
    ensures Rank(TrashedClause) == 0 && Rank(NotFolderClause) == 1
    ensures Rank(MimeClause(mts)) == 2
    ensures Rank(AfterClause(t)) == 3
    ensures Rank(BeforeClause(t)) == 4
    ensures Rank(NameClause(t)) == 5
  {
    RankOfBase();
    RankOfMime(mts);
    RankOfAfter(t);
    RankOfBefore(t);
    RankOfName(t);
  }

  lemma RankOfBase()
    ensures Rank(TrashedClause) == 0 && Rank(NotFolderClause) == 1
  {
    StartsWith("trashed ", "= false");
    assert TrashedClause == "trashed " + "= false";
    StartsWith("mimeType != ", "'application/vnd.google-apps.folder'");
    Differ("trashed ", NotFolderClause, 0);
  }

  lemma RankOfMime(mts: seq<string>)
    ensures Rank(MimeClause(mts)) == 2
  {
    var m := MimeClause(mts);
    var or := Text.Join(MimeTerms(mts), " or ");
    StartsWith("(", or + ")");
    assert m == "(" + (or + ")");
    Differ("trashed ", m, 0); Differ("mimeType != ", m, 0);
  }

  lemma RankOfAfter(t: string)
    ensures Rank(AfterClause(t)) == 3
  {
    var a := AfterClause(t);
    StartsWith("modifiedTime >= ", "'" + t + "'");
    assert a == "modifiedTime >= " + ("'" + t + "'");
    Differ("trashed ", a, 0); Differ("mimeType != ", a, 1); Differ("(", a, 0);
  }

  lemma RankOfBefore(t: string)
    ensures Rank(BeforeClause(t)) == 4
  {
    var b := BeforeClause(t);
    StartsWith("modifiedTime <= ", "'" + t + "'");
    assert b == "modifiedTime <= " + ("'" + t + "'");
    Differ("trashed ", b, 0); Differ("mimeType != ", b, 1); Differ("(", b, 0);
    Differ("modifiedTime >= ", b, 13);
  }

  lemma RankOfName(t: string)
    ensures Rank(NameClause(t)) == 5
  {
    var n := NameClause(t);
    StartsWith("name contains ", "'" + SafeTerm(t) + "'");
    assert n == "name contains " + ("'" + SafeTerm(t) + "'");
    Differ("trashed ", n, 0); Differ("mimeType != ", n, 0); Differ("(", n, 0);
    Differ("modifiedTime >= ", n, 0); Differ("modifiedTime <= ", n, 0);
  }

  lemma Differ(p: string, c: string, i: nat)
    requires i < |p| && i < |c| && p[i] != c[i]
    ensures !Text.IsPrefix(p, c)
  {
  }

  lemma StartsWith(p: string, rest: string)
    ensures Text.IsPrefix(p, p + rest)
  {
    assert (p + rest)[..|p|] == p;
  }

  predicate Ranked(cs: seq<string>)
  {
    forall i, j :: 0 <= i < j < |cs| ==> Rank(cs[i]) < Rank(cs[j])
  }

  /** An optional clause: absent, or one clause of the given rank. */
  predicate OptionalOfRank(opt: seq<string>, r: nat)
  {
    |opt| <= 1 && forall i :: 0 <= i < |opt| ==> Rank(opt[i]) == r
  }

  predicate RanksBelow(cs: seq<string>, r: nat)
  {
    forall i :: 0 <= i < |cs| ==> Rank(cs[i]) < r
  }

  lemma AppendRanked(cs: seq<string>, opt: seq<string>, r: nat)
    requires Ranked(cs) && RanksBelow(cs, r) && OptionalOfRank(opt, r)
    ensures Ranked(cs + opt) && RanksBelow(cs + opt, r + 1)
  {
  }

  lemma Optional(given: bool, c: string, r: nat)
    requires Rank(c) == r
    ensures OptionalOfRank(if given then [c] else [], r)
  {
  }

  lemma RanksBelowMore(cs: seq<string>, r: nat, r': nat)
    requires RanksBelow(cs, r) && r <= r'
    ensures RanksBelow(cs, r')
  {
  }

  /**
   * The clauses come in a fixed order, each filter at most once: the two base
   * clauses first, then MIME types, lower date bound, upper date bound, name.
   */
  lemma ClausesInOrder(f: Filters)
    ensures var cs := QueryClauses(f);
      && 2 <= |cs| && cs[0] == TrashedClause && cs[1] == NotFolderClause
      && Ranked(cs)
  {
    var m, a := f.mimeTypes.GetOr([]), f.modifiedAfter.GetOr("");
    var b, n := f.modifiedBefore.GetOr(""), f.nameContains.GetOr("");
    RankOfBase();
    var c0 := [TrashedClause, NotFolderClause];
    assert Ranked(c0) && RanksBelow(c0, 2);
    var c1 := if Given(f.mimeTypes) then [MimeClause(m)] else [];
    var c2 := if Given(f.modifiedAfter) then [AfterClause(a)] else [];
    var c3 := if Given(f.modifiedBefore) then [BeforeClause(b)] else [];
    var c4 := if Given(f.nameContains) then [NameClause(n)] else [];
    RankOfMime(m);
    Optional(Given(f.mimeTypes), MimeClause(m), 2);
    RankOfAfter(a);
    Optional(Given(f.modifiedAfter), AfterClause(a), 3);
    RankOfBefore(b);
    Optional(Given(f.modifiedBefore), BeforeClause(b), 4);
    RankOfName(n);
    Optional(Given(f.nameContains), NameClause(n), 5);
    AppendRanked(c0, c1, 2);
    AppendRanked(c0 + c1, c2, 3);
    AppendRanked(c0 + c1 + c2, c3, 4);
    AppendRanked(c0 + c1 + c2 + c3, c4, 5);
    assert QueryClauses(f) == c0 + c1 + c2 + c3 + c4;
  }

  /** Each optional clause is in the query exactly when its filter is truthy. */
  lemma ClausePresence(f: Filters)
    ensures MimeClause(f.mimeTypes.GetOr([])) in QueryClauses(f) <==> Given(f.mimeTypes)
    ensures AfterClause(f.modifiedAfter.GetOr("")) in QueryClauses(f) <==> Given(f.modifiedAfter)
    ensures BeforeClause(f.modifiedBefore.GetOr("")) in QueryClauses(f) <==> Given(f.modifiedBefore)
    ensures NameClause(f.nameContains.GetOr("")) in QueryClauses(f) <==> Given(f.nameContains)
  {
    var m, a := f.mimeTypes.GetOr([]), f.modifiedAfter.GetOr("");
    var b, n := f.modifiedBefore.GetOr(""), f.nameContains.GetOr("");
    RankOfBase();
    RankOfMime(m);
    RankOfAfter(a);
    RankOfBefore(b);
    RankOfName(n);
    ClauseMembers(f, MimeClause(m));
    ClauseMembers(f, AfterClause(a));
    ClauseMembers(f, BeforeClause(b));
    ClauseMembers(f, NameClause(n));
  }

  /** The clauses of the query: the two fixed ones and one per filter given. */
  lemma ClauseMembers(f: Filters, c: string)
    ensures c in QueryClauses(f) <==>
      || c == TrashedClause || c == NotFolderClause
      || (Given(f.mimeTypes) && c == MimeClause(f.mimeTypes.value))
      || (Given(f.modifiedAfter) && c == AfterClause(f.modifiedAfter.value))
      || (Given(f.modifiedBefore) && c == BeforeClause(f.modifiedBefore.value))
      || (Given(f.nameContains) && c == NameClause(f.nameContains.value))
  {
  }

  /** With no optional filter the query is the two base clauses alone. */
  lemma BaseQuery(pageSize: int, minSize: int)
    ensures Query(Filters(pageSize, minSize, None, None, None, None))
      == TrashedClause + " and " + NotFolderClause
  {
    var f := Filters(pageSize, minSize, None, None, None, None);
    assert QueryClauses(f) == [TrashedClause, NotFolderClause];
    assert Text.Join([NotFolderClause], " and ") == NotFolderClause;
  }

  // ---------------------------------------------------------------------------
  // The paged listing

  /** A file resource as the service returns it: every field may be absent. */
  datatype RawFile = RawFile(
    id: Option<string>,
    name: Option<string>,
    size: Option<string>,
    mimeType: Option<string>,
    modifiedTime: Option<string>,
    md5Checksum: Option<string>)

  /** One inventory record, the dict the generator yields. */
  datatype FileRecord = FileRecord(
    id: string,
    name: string,
    size: int,
    mimeType: Option<string>,
    modifiedTime: Option<string>,
    md5: Option<string>)

  /** The answer to one list request; `files` and `nextPageToken` are absent when `None`. */
  datatype Response =
    | Page(files: Option<seq<RawFile>>, nextPageToken: Option<string>)
    | RequestFailed

  datatype ListFailure =
    | SizeNotInteger(text: string)   // `int(...)` raised ValueError
    | MissingId                      // `f['id']` raised KeyError
    | MissingName                    // `f['name']` raised KeyError
    | RequestError                   // the list request raised

  datatype Request = Request(query: string, pageToken: Option<string>, pageSize: int)

  /** `int(f.get('size') or 0)`: an absent or empty size is 0. */
  function SizeOf(raw: Option<string>): (r: Result<int, ListFailure>)
    ensures raw == None || raw == Some("") ==> r == Ok(0)
    ensures raw.Some? && raw.value != "" && Decimal.AllDigits(raw.value) ==>
      r == Ok(Decimal.DigitsValue(raw.value) as int)
    ensures r.Err? ==> r.error == SizeNotInteger(raw.value)
    ensures raw.Some? && raw.value != "" ==>
      && (r.Ok? <==> Decimal.ParseInt(raw.value).Some?)
      && (r.Ok? ==> Decimal.ParseInt(raw.value) == Some(r.value))
  {
    if raw.None? || raw.value == "" then Ok(0)
    else
      match Decimal.ParseInt(raw.value)
      case Some(n) => Ok(n)
      case None => Err(SizeNotInteger(raw.value))
  }

  predicate Dropped(size: int, minSize: int) { minSize > 0 && size < minSize }

  /** The size filter lets the file through: its size reads as an integer that is not too small. */
  predicate Kept(raw: RawFile, minSize: int)
  {
    SizeOf(raw.size).Ok? && !Dropped(SizeOf(raw.size).value, minSize)
  }

  /**
   * What one raw file contributes: `Ok(None)` when the size filter skips it,
   * its record, or the error that ends the listing.
   */
  function Admit(raw: RawFile, minSize: int): (r: Result<Option<FileRecord>, ListFailure>)
    ensures r == Ok(None) ==> minSize > 0
    ensures SizeOf(raw.size).Err? ==> r == Err(SizeOf(raw.size).error)
    ensures SizeOf(raw.size).Ok? ==> (r == Ok(None) <==> Dropped(SizeOf(raw.size).value, minSize))
    ensures Kept(raw, minSize) ==>
      && (raw.id.None? ==> r == Err(MissingId))
      && (raw.id.Some? && raw.name.None? ==> r == Err(MissingName))
      && (raw.id.Some? && raw.name.Some? ==> r.Ok? && r.value.Some?)
    ensures r.Ok? && r.value.Some? ==>
      var rec := r.value.value;
      && Some(rec.id) == raw.id && Some(rec.name) == raw.name
      && SizeOf(raw.size) == Ok(rec.size)
      && (minSize > 0 ==> rec.size >= minSize)
      && rec.mimeType == raw.mimeType && rec.modifiedTime == raw.modifiedTime
      && rec.md5 == raw.md5Checksum
  {
    match SizeOf(raw.size)
    case Err(e) => Err(e)
    case Ok(size) =>
      if Dropped(size, minSize) then Ok(None)
      else if raw.id.None? then Err(MissingId)
      else if raw.name.None? then Err(MissingName)
      else Ok(Some(FileRecord(raw.id.value, raw.name.value, size, raw.mimeType, raw.modifiedTime, raw.md5Checksum)))
  }

  /** A file without a size (a native Google document) is skipped once a minimum is set. */
  lemma UnsizedSkippedUnderMinimum(raw: RawFile, minSize: int)
    requires raw.size.None? && minSize > 0
    ensures Admit(raw, minSize) == Ok(None)
  {
  }

  /** The records of a run of files, and the failure that cut it short, if any. */
  datatype Batch = Batch(records: seq<FileRecord>, failure: Option<ListFailure>)

  function AdmitAll(files: seq<RawFile>, minSize: int): Batch
  {
    if files == [] then Batch([], None)
    else
      match Admit(files[0], minSize)
      case Err(e) => Batch([], Some(e))
      case Ok(o) =>
        var rest := AdmitAll(files[1..], minSize);
        Batch((if o.Some? then [o.value] else []) + rest.records, rest.failure)
  }

  /** What the generator has yielded when it stops: records, failure, requests sent. */
  datatype Listing = Listing(records: seq<FileRecord>, failure: Option<ListFailure>, requests: nat)

  /** The listing over the responses the service gives, one request per page. */
  function ListingOf(service: seq<Response>, minSize: int): Listing
    decreases |service|
  {
    if service == [] || service[0].RequestFailed? then Listing([], Some(RequestError), 1)
    else
      var batch := AdmitAll(service[0].files.GetOr([]), minSize);
      if batch.failure.Some? then Listing(batch.records, batch.failure, 1)
      else if !Given(service[0].nextPageToken) then Listing(batch.records, None, 1)
      else
        var rest := ListingOf(service[1..], minSize);
        Listing(batch.records + rest.records, rest.failure, rest.requests + 1)
  }

  /**
   * `list(list_files_generator(service, ...))` up to the point where it returns or
   * raises: the requests it sends, the records it yields before stopping, and the
   * failure, if any, that stopped it.
   */
  method ListFiles(service: seq<Response>, f: Filters)
      returns (requests: seq<Request>, records: seq<FileRecord>, failure: Option<ListFailure>)
    ensures Listing(records, failure, |requests|) == ListingOf(service, f.minSize)
    ensures 1 <= |requests| <= |service| + 1 && requests[0].pageToken == None
    ensures forall k :: 0 <= k < |requests| ==>
      requests[k].query == Query(f) && requests[k].pageSize == f.pageSize
    ensures FollowsTokens(requests, service)
  {
    var parts, query := BuildQuery(f);
    var pageToken: Option<string> := None;
    requests, records, failure := [], [], None;
    var i := 0;
    assert service[0..] == service;
    while true
      invariant Sent(requests, service, query, f.pageSize, pageToken)
      invariant ListingOf(service, f.minSize) == After(records, |requests|, ListingOf(service[|requests|..], f.minSize))
      decreases |service| - |requests|
    {
      i := |requests|;
      ghost var sent := requests;
      SendNext(sent, service, query, f.pageSize, pageToken);
      requests := requests + [Request(query, pageToken, f.pageSize)];
      if i == |service| || service[i].RequestFailed? {
        ListingAtEnd(service, i, f.minSize);
        failure := Some(RequestError);
        assert records + [] == records;
        return;
      }
      var response := service[i];
      var files := response.files.GetOr([]);
      ListingAtPage(service, i, f.minSize);
      var pageRecords, pageFailure := AdmitPage(files, f.minSize);
      ghost var before := records;
      records := records + pageRecords;
      if pageFailure.Some? {
        failure := pageFailure;
        return;
      }
      pageToken := response.nextPageToken;
      if !Given(pageToken) {
        return;
      }
      SentPage(sent, service, query, f.pageSize, requests[i].pageToken);
      AfterAfter(before, i, pageRecords, ListingOf(service[i + 1..], f.minSize));
    }
  }

  /**
   * The requests sent so far: each with the query and the page size, the first
   * without a token and each later one with the token of the page before it;
   * `pageToken` is what the next request will carry.
   */
  predicate Sent(requests: seq<Request>, service: seq<Response>, query: string, pageSize: int, pageToken: Option<string>)
  {
    && |requests| <= |service|
    && (forall k :: 0 <= k < |requests| ==> requests[k].query == query && requests[k].pageSize == pageSize)
    && (|requests| > 0 ==> requests[0].pageToken == None)
    && FollowsTokens(requests, service)
    && (|requests| > 0 ==> service[|requests| - 1].Page?)
    && pageToken == if |requests| == 0 then None else service[|requests| - 1].nextPageToken
  }

  lemma SendNext(sent: seq<Request>, service: seq<Response>, query: string, pageSize: int, pageToken: Option<string>)
    requires Sent(sent, service, query, pageSize, pageToken)
    ensures var requests := sent + [Request(query, pageToken, pageSize)];
      && 1 <= |requests| <= |service| + 1 && requests[0].pageToken == None
      && (forall k :: 0 <= k < |requests| ==> requests[k].query == query && requests[k].pageSize == pageSize)
      && FollowsTokens(requests, service)
  {
    FollowsTokensAppend(sent, service, Request(query, pageToken, pageSize));
  }

  lemma SentPage(sent: seq<Request>, service: seq<Response>, query: string, pageSize: int, pageToken: Option<string>)
    requires Sent(sent, service, query, pageSize, pageToken)
    requires |sent| < |service| && service[|sent|].Page?
    ensures Sent(sent + [Request(query, pageToken, pageSize)], service, query, pageSize, service[|sent|].nextPageToken)
  {
    SendNext(sent, service, query, pageSize, pageToken);
  }

  lemma AfterAfter(records: seq<FileRecord>, done: nat, more: seq<FileRecord>, rest: Listing)
    ensures After(records, done, After(more, 1, rest)) == After(records + more, done + 1, rest)
  {
    assert records + (more + rest.records) == records + more + rest.records;
  }

  /** Each request after the first carries the next-page token of the page before it. */
  predicate FollowsTokens(requests: seq<Request>, service: seq<Response>)
  {
    && |requests| <= |service| + 1
    && forall k :: 0 <= k < |requests| - 1 ==>
         service[k].Page? && requests[k + 1].pageToken == service[k].nextPageToken
  }

  lemma FollowsTokensAppend(sent: seq<Request>, service: seq<Response>, r: Request)
    requires FollowsTokens(sent, service) && |sent| <= |service|
    requires |sent| > 0 ==> service[|sent| - 1].Page? && r.pageToken == service[|sent| - 1].nextPageToken
    ensures FollowsTokens(sent + [r], service)
  {
    var requests := sent + [r];
    forall k | 0 <= k < |requests| - 1
      ensures service[k].Page? && requests[k + 1].pageToken == service[k].nextPageToken
    {
      if k + 1 < |sent| {
        assert requests[k + 1] == sent[k + 1];
      }
    }
  }

  /** The listing so far, `records` from `done` requests, followed by the listing of the rest. */
  function After(records: seq<FileRecord>, done: nat, rest: Listing): Listing
  {
    Listing(records + rest.records, rest.failure, rest.requests + done)
  }

  lemma ListingAtEnd(service: seq<Response>, i: nat, minSize: int)
    requires i <= |service| && (i == |service| || service[i].RequestFailed?)
    ensures ListingOf(service[i..], minSize) == Listing([], Some(RequestError), 1)
  {
  }

  lemma ListingAtPage(service: seq<Response>, i: nat, minSize: int)
    requires i < |service| && service[i].Page?
    ensures var batch := AdmitAll(service[i].files.GetOr([]), minSize);
      ListingOf(service[i..], minSize) ==
        if batch.failure.Some? then Listing(batch.records, batch.failure, 1)
        else if !Given(service[i].nextPageToken) then Listing(batch.records, None, 1)
        else After(batch.records, 1, ListingOf(service[i + 1..], minSize))
  {
    assert service[i..][0] == service[i];
    assert service[i..][1..] == service[i + 1..];
  }

  /**
   * The `for f in response.get('files', [])` loop over one page: the records it
   * yields and the error, if any, it raises part-way.
   */
  method AdmitPage(files: seq<RawFile>, minSize: int) returns (records: seq<FileRecord>, failure: Option<ListFailure>)
    ensures Batch(records, failure) == AdmitAll(files, minSize)
  {
    records := [];
    var j := 0;
    assert files[0..] == files;
    while j < |files|
      invariant 0 <= j <= |files| && AdmittedSoFar(files, j, minSize, records)
    {
      var raw := files[j];
      var sized := SizeOf(raw.size);
      if sized.Err? {
        AdmitStops(files, j, minSize, records, sized.error);
        return records, Some(sized.error);
      }
      var size := sized.value;
      if minSize > 0 && size < minSize {
        AdmitGoesOn(files, j, minSize, records, None, records);
        j := j + 1;
        continue;
      }
      if raw.id.None? {
        AdmitStops(files, j, minSize, records, MissingId);
        return records, Some(MissingId);
      }
      if raw.name.None? {
        AdmitStops(files, j, minSize, records, MissingName);
        return records, Some(MissingName);
      }
      var rec := FileRecord(raw.id.value, raw.name.value, size, raw.mimeType, raw.modifiedTime, raw.md5Checksum);
      AdmitGoesOn(files, j, minSize, records, Some(rec), records + [rec]);
      records := records + [rec];
      j := j + 1;
    }
    assert files[j..] == [];
    assert records + [] == records;
    failure := None;
  }

  /** The records of the first `j` files, followed by what the rest gives, make up the page. */
  predicate AdmittedSoFar(files: seq<RawFile>, j: nat, minSize: int, records: seq<FileRecord>)
    requires j <= |files|
  {
    var rest := AdmitAll(files[j..], minSize);
    AdmitAll(files, minSize) == Batch(records + rest.records, rest.failure)
  }

  lemma AdmitStops(files: seq<RawFile>, j: nat, minSize: int, records: seq<FileRecord>, e: ListFailure)
    requires j < |files| && AdmittedSoFar(files, j, minSize, records) && Admit(files[j], minSize) == Err(e)
    ensures Batch(records, Some(e)) == AdmitAll(files, minSize)
  {
    assert records + [] == records;
  }

  lemma AdmitGoesOn(files: seq<RawFile>, j: nat, minSize: int, records: seq<FileRecord>, o: Option<FileRecord>,
                    records': seq<FileRecord>)
    requires j < |files| && AdmittedSoFar(files, j, minSize, records) && Admit(files[j], minSize) == Ok(o)
    requires records' == records + (if o.Some? then [o.value] else [])
    ensures AdmittedSoFar(files, j + 1, minSize, records')
  {
    assert files[j..][1..] == files[j + 1..];
    var rest := AdmitAll(files[j + 1..], minSize);
    var mine := if o.Some? then [o.value] else [];
    assert records + (mine + rest.records) == records + mine + rest.records;
  }

  // ---------------------------------------------------------------------------
  // What the listing promises

  lemma {:induction false} AdmitAllRespectsMinimum(files: seq<RawFile>, minSize: int)
    requires minSize > 0
    ensures forall r :: r in AdmitAll(files, minSize).records ==> r.size >= minSize
  {
    if files != [] {
      AdmitAllRespectsMinimum(files[1..], minSize);
    }
  }

  /** With a positive minimum size, every record yielded is at least that large. */
  lemma {:induction false} ListingRespectsMinimum(service: seq<Response>, minSize: int)
    requires minSize > 0
    ensures forall r :: r in ListingOf(service, minSize).records ==> r.size >= minSize
  {
    if service != [] && service[0].Page? {
      AdmitAllRespectsMinimum(service[0].files.GetOr([]), minSize);
      if AdmitAll(service[0].files.GetOr([]), minSize).failure.None? && Given(service[0].nextPageToken) {
        ListingRespectsMinimum(service[1..], minSize);
      }
    }
  }

  /** Without a positive minimum nothing is skipped: each file yields its own record, in order. */
  lemma {:induction false} AdmitAllKeepsEverything(files: seq<RawFile>, minSize: int)
    requires minSize <= 0 && AdmitAll(files, minSize).failure.None?
    ensures var rs := AdmitAll(files, minSize).records;
      && |rs| == |files|
      && forall i :: 0 <= i < |files| ==> Admit(files[i], minSize) == Ok(Some(rs[i]))
  {
    if files != [] {
      AdmitAllKeepsEverything(files[1..], minSize);
    }
  }

  /** The files the size filter lets through, in their order: the reference for `AdmitAll`. */
  function KeptFiles(files: seq<RawFile>, minSize: int): (kept: seq<RawFile>)
    ensures |kept| <= |files|
    ensures forall raw :: raw in kept <==> raw in files && Kept(raw, minSize)
  {
    if files == [] then []
    else
      var rest := KeptFiles(files[1..], minSize);
      assert forall raw :: raw in files <==> raw == files[0] || raw in files[1..];
      if Kept(files[0], minSize) then [files[0]] + rest else rest
  }

  /** A file the page loop gets past: a size that reads as an integer, and an id and a name if kept. */
  predicate Admissible(raw: RawFile, minSize: int)
  {
    SizeOf(raw.size).Ok? && (Kept(raw, minSize) ==> raw.id.Some? && raw.name.Some?)
  }

  /**
   * The page loop raises exactly when some file is not admissible; otherwise it
   * yields one record for each file the size filter keeps, in order, and for no
   * other file.
   */
  lemma {:induction false} AdmitAllKeepsKept(files: seq<RawFile>, minSize: int)
    ensures AdmitAll(files, minSize).failure.None? <==>
      forall i :: 0 <= i < |files| ==> Admissible(files[i], minSize)
    ensures AdmitAll(files, minSize).failure.None? ==>
      var rs, kept := AdmitAll(files, minSize).records, KeptFiles(files, minSize);
      && |rs| == |kept|
      && forall k :: 0 <= k < |kept| ==> Admit(kept[k], minSize) == Ok(Some(rs[k]))
  {
    if files != [] {
      AdmitAllKeepsKept(files[1..], minSize);
      assert forall i :: 1 <= i < |files| ==> files[i] == files[1..][i - 1];
    }
  }

  /**
   * A listing that ends without failure yields, across all the pages it read, one
   * record per file the size filter keeps, in order.
   */
  lemma ListingKeepsKept(service: seq<Response>, minSize: int)
    ensures var l := ListingOf(service, minSize);
      l.failure.None? ==>
        && l.requests <= |service|
        && var kept := KeptFiles(AllFiles(service[..l.requests]), minSize);
        && |l.records| == |kept|
        && forall k :: 0 <= k < |kept| ==> Admit(kept[k], minSize) == Ok(Some(l.records[k]))
  {
    ListingIgnoresPages(service, minSize);
    var l := ListingOf(service, minSize);
    if l.failure.None? {
      AdmitAllKeepsKept(AllFiles(service[..l.requests]), minSize);
    }
  }

  /** The files of the pages, concatenated in page order. */
  function AllFiles(pages: seq<Response>): seq<RawFile>
  {
    if pages == [] then [] else AllFiles(pages[..|pages| - 1]) + PageFiles(pages[|pages| - 1])
  }

  /** `response.get('files', [])`. */
  function PageFiles(r: Response): seq<RawFile>
  {
    if r.Page? then r.files.GetOr([]) else []
  }

  lemma {:induction false} AdmitAllConcat(a: seq<RawFile>, b: seq<RawFile>, minSize: int)
    ensures AdmitAll(a + b, minSize) ==
      if AdmitAll(a, minSize).failure.Some? then AdmitAll(a, minSize)
      else Batch(AdmitAll(a, minSize).records + AdmitAll(b, minSize).records, AdmitAll(b, minSize).failure)
  {
    if a == [] {
      assert a + b == b;
    } else {
      assert (a + b)[0] == a[0];
      assert (a + b)[1..] == a[1..] + b;
      AdmitAllConcat(a[1..], b, minSize);
    }
  }

  lemma AllFilesCons(p: Response, rest: seq<Response>)
    ensures AllFiles([p] + rest) == PageFiles(p) + AllFiles(rest)
    decreases |rest|
  {
    if rest != [] {
      var last := rest[|rest| - 1];
      assert ([p] + rest)[..|rest|] == [p] + rest[..|rest| - 1];
      AllFilesCons(p, rest[..|rest| - 1]);
    }
  }

  /**
   * Page boundaries do not matter: the records are what the file-by-file filter
   * gives on all files of the pages read, concatenated; a failed request comes
   * after the pages it follows.
   */
  lemma {:induction false} ListingIgnoresPages(service: seq<Response>, minSize: int)
    ensures var l := ListingOf(service, minSize);
      && 1 <= l.requests <= |service| + 1
      && (l.failure != Some(RequestError) ==>
            l.requests <= |service| && AdmitAll(AllFiles(service[..l.requests]), minSize) == Batch(l.records, l.failure))
      && (l.failure == Some(RequestError) ==>
            AdmitAll(AllFiles(service[..l.requests - 1]), minSize) == Batch(l.records, None))
  {
    if service == [] || service[0].RequestFailed? {
      assert service[..0] == [];
    } else {
      var files := service[0].files.GetOr([]);
      AdmitAllFailureKind(files, minSize);
      if AdmitAll(files, minSize).failure.Some? || !Given(service[0].nextPageToken) {
        FirstPage(service, minSize);
      } else {
        ListingIgnoresPages(service[1..], minSize);
        var rest := ListingOf(service[1..], minSize);
        var n := if rest.failure == Some(RequestError) then rest.requests - 1 else rest.requests;
        FirstPageThenRest(service, n);
        AdmitAllConcat(files, AllFiles(service[1..][..n]), minSize);
      }
    }
  }

  /** A listing that stops on its first page read exactly that page's files. */
  lemma FirstPage(service: seq<Response>, minSize: int)
    requires service != [] && service[0].Page?
    ensures AllFiles(service[..1]) == PageFiles(service[0])
  {
    assert service[..1] == [service[0]] + [];
    AllFilesCons(service[0], []);
    assert PageFiles(service[0]) + [] == PageFiles(service[0]);
  }

  /** The files of the first `n + 1` pages: the first page's, then those of the next `n`. */
  lemma FirstPageThenRest(service: seq<Response>, n: nat)
    requires n < |service|
    ensures AllFiles(service[..n + 1]) == PageFiles(service[0]) + AllFiles(service[1..][..n])
  {
    assert service[..n + 1] == [service[0]] + service[1..][..n];
    AllFilesCons(service[0], service[1..][..n]);
  }

  /**
   * The loop stops exactly at the first page without a next-page token: every
   * earlier response was a page carrying a truthy token, and a listing that ends
   * without failure ends on a page with no token.
   */
  lemma {:induction false} ListingStopsAtLastPage(service: seq<Response>, minSize: int)
    ensures var l := ListingOf(service, minSize);
      && 1 <= l.requests <= |service| + 1
      && (forall k :: 0 <= k < l.requests - 1 ==> service[k].Page? && Given(service[k].nextPageToken))
      && (l.failure == None ==>
            l.requests <= |service| && service[l.requests - 1].Page?
            && !Given(service[l.requests - 1].nextPageToken))
      && (l.failure == Some(RequestError) ==>
            l.requests - 1 == |service| || service[l.requests - 1].RequestFailed?)
  {
    if service != [] && service[0].Page? {
      var batch := AdmitAll(service[0].files.GetOr([]), minSize);
      if batch.failure.None? && Given(service[0].nextPageToken) {
        ListingStopsAtLastPage(service[1..], minSize);
        AdmitAllFailureKind(service[0].files.GetOr([]), minSize);
      } else {
        AdmitAllFailureKind(service[0].files.GetOr([]), minSize);
      }
    }
  }

  lemma {:induction false} AdmitAllFailureKind(files: seq<RawFile>, minSize: int)
    ensures AdmitAll(files, minSize).failure != Some(RequestError)
  {
    if files != [] {
      AdmitAllFailureKind(files[1..], minSize);
    }
  }

  // ---------------------------------------------------------------------------
  // The record as a dict

  function OptStr(o: Option<string>): Json.Value
  {
    if o.Some? then Json.Str(o.value) else Json.Null
  }

  /** The yielded dict, keys in the order the generator writes them. */
  function RecordDict(r: FileRecord): Json.Dict
  {
    [("id", Json.Str(r.id)), ("name", Json.Str(r.name)), ("size", Json.Int(r.size)),
     ("mimeType", OptStr(r.mimeType)), ("modifiedTime", OptStr(r.modifiedTime)), ("md5", OptStr(r.md5))]
  }

  /** The six keys in order, with the size as a number and the checksum, when missing, as `null`. */
  lemma RecordDictContents(r: FileRecord)
    ensures var d := RecordDict(r);
      && Json.Keys(d) == ["id", "name", "size", "mimeType", "modifiedTime", "md5"]
      && Json.Get(d, "id") == Some(Json.Str(r.id))
      && Json.Get(d, "size") == Some(Json.Int(r.size))
      && Json.Get(d, "md5") == Some(OptStr(r.md5))
  {
    var d := RecordDict(r);
    assert Json.Keys(d[5..]) == ["md5"];
    assert Json.Keys(d[4..]) == ["modifiedTime", "md5"] by { assert d[4..][1..] == d[5..]; }
    assert Json.Keys(d[3..]) == ["mimeType", "modifiedTime", "md5"] by { assert d[3..][1..] == d[4..]; }
    assert Json.Keys(d[2..]) == ["size", "mimeType", "modifiedTime", "md5"] by { assert d[2..][1..] == d[3..]; }
    assert Json.Keys(d[1..]) == ["name", "size", "mimeType", "modifiedTime", "md5"] by { assert d[1..][1..] == d[2..]; }
    assert Json.Get(d[2..], "size") == Some(Json.Int(r.size));
    assert Json.Get(d[5..], "md5") == Some(OptStr(r.md5));
    assert Json.Get(d[4..], "md5") == Some(OptStr(r.md5)) by { assert d[4..][1..] == d[5..]; }
    assert Json.Get(d[3..], "md5") == Some(OptStr(r.md5)) by { assert d[3..][1..] == d[4..]; }
    assert Json.Get(d[2..], "md5") == Some(OptStr(r.md5)) by { assert d[2..][1..] == d[3..]; }
    assert Json.Get(d[1..], "md5") == Some(OptStr(r.md5)) by { assert d[1..][1..] == d[2..]; }
  }
}
