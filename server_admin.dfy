/**
 * The admin side of the link server: the token check every /admin route runs first, and the
 * page arithmetic of the /admin link list.
 */
module ServerAdmin {
  import opened Wrappers
  import opened JsBuiltins

  // ---------------------------------------------------------------------------
  // requireAdmin
  // ---------------------------------------------------------------------------

  /** `req.query.token` as the query-string parser delivers it: absent, a string, or an array or object. */
  datatype QueryValue = Missing | Text(s: string) | Structured

  /** The value requireAdmin compares with ADMIN_TOKEN; a structured query value equals no string. */
  datatype Token = StringToken(s: string) | StructuredToken

  /** What requireAdmin does with the request: pass it on, or answer 401 Unauthorized. */
  datatype Access = Next | Unauthorized401

  /** `req.get("x-admin-token") || ""`. */
  function HeaderToken(header: Option<string>): Token {
    if header.Some? && header.value != "" then StringToken(header.value) else StringToken("")
  }

  /** `req.query.token || req.get("x-admin-token") || ""`: the first truthy one, else "". */
  function ChosenToken(query: QueryValue, header: Option<string>): (t: Token)
    ensures t == StructuredToken <==> query == Structured
    ensures query.Text? && query.s != "" ==> t == StringToken(query.s)
    ensures query == Missing || query == Text("") ==> t == HeaderToken(header)
  {
    match query
    case Structured => StructuredToken
    case Text(s) => if s != "" then StringToken(s) else HeaderToken(header)
    case Missing => HeaderToken(header)
  }

  /** requireAdmin. `adminToken` is ADMIN_TOKEN, that is `process.env.ADMIN_TOKEN || ""`. */
  function RequireAdmin(adminToken: string, query: QueryValue, header: Option<string>): (a: Access)
    ensures adminToken == "" ==> a == Next
    ensures adminToken != "" ==> (a == Next <==> ChosenToken(query, header) == StringToken(adminToken))
  {
    if adminToken == "" then Next
    else if ChosenToken(query, header) != StringToken(adminToken) then Unauthorized401
    else Next
  }

  /**
   * With a token configured, a request is admitted exactly when its query token is the token,
   * or it has no query token (or an empty one) and its x-admin-token header is the token.
   * A wrong query token is refused even when the header is right.
   */
  lemma AdmittedIff(adminToken: string, query: QueryValue, header: Option<string>)
    requires adminToken != ""
    ensures RequireAdmin(adminToken, query, header) == Next <==>
      query == Text(adminToken) || ((query == Missing || query == Text("")) && header == Some(adminToken))
  {
    if query.Text? && query.s != "" {
      assert ChosenToken(query, header) == StringToken(query.s);
    } else if query == Missing || query == Text("") {
      assert ChosenToken(query, header) == HeaderToken(header);
    }
  }

  /** With no token configured every request is admitted. */
  lemma OpenWithoutToken(query: QueryValue, header: Option<string>)
    ensures RequireAdmin("", query, header) == Next
  {
  }

  /** A request that carries no token at all is refused once a token is configured. */
  lemma NoTokenRefused(adminToken: string)
    requires adminToken != ""
    ensures RequireAdmin(adminToken, Missing, None) == Unauthorized401
    ensures RequireAdmin(adminToken, Text(""), Some("")) == Unauthorized401
  {
  }

  // ---------------------------------------------------------------------------
  // /admin pagination
  // ---------------------------------------------------------------------------

  const PerPage := 10

  function Max(a: int, b: int): int {
    if a >= b then a else b
  }

  /** `req.query.page || "1"`. */
  function PageText(pageParam: Option<string>): string {
    if pageParam.Some? && pageParam.value != "" then pageParam.value else "1"
  }

  /** `Math.max(1, parseInt(page, 10))`; None is NaN, which Math.max passes through. */
  function AdminPage(pageParam: Option<string>): (p: Option<int>)
    ensures p.None? <==> ParseInt(PageText(pageParam), 10).None?
    ensures p.Some? ==> p.value >= 1
    ensures p.Some? ==> (p.value == 1 <==> ParseInt(PageText(pageParam), 10).value <= 1)
    ensures p.Some? && p.value > 1 ==> p.value == ParseInt(PageText(pageParam), 10).value
  {
    match ParseInt(PageText(pageParam), 10)
    case None => None
    case Some(n) => Some(Max(1, n))
  }

  /** Without a page parameter the list starts at page 1. */
  lemma DefaultPageIsFirst()
    ensures AdminPage(None) == Some(1) && AdminPage(Some("")) == Some(1)
  {
    ParseOneDigit('1');
  }

  /** `(page - 1) * perPage`: the rows skipped before the page. */
  function Offset(page: int): (o: int)
    requires page >= 1
    ensures o >= 0 && o % PerPage == 0 && o / PerPage == page - 1
  {
    (page - 1) * PerPage
  }

  /** `Math.ceil(totalCount / perPage)`. */
  function TotalPages(count: nat): (t: nat)
    ensures t == 0 <==> count == 0
    ensures count > 0 ==> PerPage * (t - 1) < count <= PerPage * t
  {
    (count + PerPage - 1) / PerPage
  }

  /** Every row of the list is shown on exactly one page, and that page is one of the totalPages. */
  lemma RowOnOnePage(count: nat, i: int)
    requires 0 <= i < count
    ensures var p := i / PerPage + 1;
      1 <= p <= TotalPages(count) && Offset(p) <= i < Offset(p) + PerPage
    ensures forall q :: q >= 1 && Offset(q) <= i < Offset(q) + PerPage ==> q == i / PerPage + 1
  {
    var t := TotalPages(count);
    assert i / PerPage <= t - 1;
  }

  /** A page past the last one shows no row. */
  lemma PastLastPageEmpty(count: nat, page: int)
    requires page >= 1 && page > TotalPages(count)
    ensures Offset(page) >= count
  {
  }
}
