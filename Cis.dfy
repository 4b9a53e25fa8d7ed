/** The catalog index service (CIS) back end of the dashboard API: where the service is,
    when a call is routed to it, and the Elasticsearch request `server_list` sends. */
module Cis {
  import opened Wrappers

  // ---- where the service is, and when it is used ----

  /** `_get_cis_url`: the `catalog-index` endpoint of the service catalog when the lookup
      succeeds (`catalogIndex`), otherwise the `CIS_URL` setting, which may be unset. */
  function CisUrl(catalogIndex: Option<string>, setting: Option<string>): Option<string>
  {
    if catalogIndex.Some? then catalogIndex else setting
  }

  /** `cis_enabled`: there is a CIS address. */
  predicate CisEnabled(catalogIndex: Option<string>, setting: Option<string>)
  {
    CisUrl(catalogIndex, setting) != None
  }

  /** The service is enabled exactly when the catalog lists it or the setting is given, and
      a catalog entry wins over the setting. */
  lemma CisEnabledIff(catalogIndex: Option<string>, setting: Option<string>)
    ensures CisEnabled(catalogIndex, setting) <==> catalogIndex.Some? || setting.Some?
    ensures catalogIndex.Some? ==> CisUrl(catalogIndex, setting) == catalogIndex
    ensures catalogIndex.None? ==> CisUrl(catalogIndex, setting) == setting
  {
  }

  /** The names a `getattr` on this module finds: its imports, its globals and its
      functions. */
  const ModuleNames: set<string> := {
    "settings", "exceptions", "json", "logging", "requests", "six", "sys", "base",
    "LOG", "thismodule", "_get_cis_url", "cis_enabled", "cis_wrapper", "ObjFromDict",
    "server_list", "server_search_facets", "image_list_detailed" }

  /** Which function a `cis_wrapper`-decorated call runs. */
  datatype Target = Original | CisVersion

  /** `cis_wrapper`: the same-named function of this module when there is a CIS address and
      the module has such a name, the decorated function otherwise. */
  function Dispatch(cisUrl: Option<string>, names: set<string>, fnName: string): Target
  {
    if cisUrl == None || fnName !in names then Original else CisVersion
  }

  /** With the service enabled, the three listings this module provides go to the service
      and a name it does not define stays with the original. */
  lemma DispatchOfModule(cisUrl: string)
    ensures Dispatch(Some(cisUrl), ModuleNames, "server_list") == CisVersion
    ensures Dispatch(Some(cisUrl), ModuleNames, "image_list_detailed") == CisVersion
    ensures Dispatch(Some(cisUrl), ModuleNames, "server_search_facets") == CisVersion
    ensures Dispatch(Some(cisUrl), ModuleNames, "flavor_list") == Original
    ensures forall n :: Dispatch(None, ModuleNames, n) == Original
  {
  }

  // ---- the server search request ----

  /** The `search_opts` of a server listing: the plain options (`sort`, `offset`, `limit`,
      ...) and, when present, the `query` list of `(field, term)` filters. */
  datatype SearchOpts = SearchOpts(plain: map<string, string>, query: Option<seq<(string, string)>>)

  /** One Elasticsearch search clause: `{'term': {field: value}}`,
      `{'wildcard': {field: value}}`, or `{'query_string': {'fields': [...], 'query': q}}`
      (without `fields` when `fields` is None). */
  datatype Clause =
    | Term(field: string, value: string)
    | Wildcard(field: string, value: string)
    | QueryString(fields: Option<seq<string>>, query: string)

  /** `{'bool': {'must': clauses}}` or `{'match_all': {}}`. */
  datatype EsQuery = Bool(must: seq<Clause>) | MatchAll

  /** The request body: the query, `type`, `index`, and `sort`, `offset`, `limit` when given. */
  datatype RequestBody = RequestBody(
    query: EsQuery, docType: string, index: string,
    sort: Option<string>, offset: Option<string>, limit: Option<string>)

  /** The clause for one filter: the first rule that applies of free text, fuzzy (`~`),
      wildcard (`*` or `?`) and exact term. */
  function ClauseFor(field: string, term: string): Clause
  {
    if field == "free" then QueryString(None, term)
    else if '~' in term then QueryString(Some([field]), term)
    else if '*' in term || '?' in term then Wildcard(field, term)
    else Term(field, term)
  }

  /** The query filters of the options; a missing `query` (or missing options) is none. */
  function Filters(opts: Option<SearchOpts>): seq<(string, string)>
  {
    if opts.Some? && opts.value.query.Some? then opts.value.query.value else []
  }

  /** The clauses of the filters, in order. */
  function FilterClauses(filters: seq<(string, string)>): (r: seq<Clause>)
    ensures |r| == |filters|
    ensures forall i :: 0 <= i < |filters| ==> r[i] == ClauseFor(filters[i].0, filters[i].1)
  {
    if |filters| == 0 then []
    else FilterClauses(filters[..|filters| - 1]) + [ClauseFor(filters[|filters| - 1].0, filters[|filters| - 1].1)]
  }

  /** The search clauses: the tenant's own servers unless all tenants are asked for, then
      one clause per filter. */
  function SearchTerms(opts: Option<SearchOpts>, allTenants: bool, tenantId: string): seq<Clause>
  {
    (if allTenants then [] else [Term("tenant_id", tenantId)]) + FilterClauses(Filters(opts))
  }

  /** The query over the clauses. */
  function QueryOf(terms: seq<Clause>): EsQuery
  {
    if |terms| > 0 then Bool(terms) else MatchAll
  }

  /** A plain option when it is given. */
  function PlainOption(opts: Option<SearchOpts>, key: string): Option<string>
  {
    if opts.Some? && key in opts.value.plain then Some(opts.value.plain[key]) else None
  }

  /** The body `server_list` posts. */
  function RequestBodyFor(opts: Option<SearchOpts>, allTenants: bool, tenantId: string): RequestBody
  {
    RequestBody(QueryOf(SearchTerms(opts, allTenants, tenantId)), "instance", "nova",
                PlainOption(opts, "sort"), PlainOption(opts, "offset"), PlainOption(opts, "limit"))
  }

  /** The filter loop of `server_list`: one clause per filter appended to `terms`, in order. */
  method AppendClauses(terms: seq<Clause>, filters: seq<(string, string)>) returns (r: seq<Clause>)
    ensures r == terms + FilterClauses(filters)
  {
    r := terms;
    var i := 0;
    while i < |filters|
      invariant 0 <= i <= |filters|
      invariant r == terms + FilterClauses(filters[..i])
    {
      var field := filters[i].0;
      var term := filters[i].1;
      var clause;
      if field == "free" {
        clause := QueryString(None, term);
      } else if '~' in term {
        clause := QueryString(Some([field]), term);
      } else if '*' in term || '?' in term {
        clause := Wildcard(field, term);
      } else {
        clause := Term(field, term);
      }
      assert clause == ClauseFor(field, term);
      assert filters[..i + 1][..i] == filters[..i];
      assert FilterClauses(filters[..i + 1]) == FilterClauses(filters[..i]) + [clause];
      r := r + [clause];
      i := i + 1;
    }
    assert filters[..i] == filters;
  }

  /** The search request of `server_list`: the address it posts to and the body. */
  method ServerList(cisUrl: string, opts: Option<SearchOpts>, allTenants: bool, tenantId: string)
    returns (url: string, body: RequestBody)
    ensures url == cisUrl + "/search"
    ensures body == RequestBodyFor(opts, allTenants, tenantId)
  {
    var options := if opts.Some? then opts.value else SearchOpts(map[], None);
    url := cisUrl + "/search";
    var terms: seq<Clause> := [];
    if !allTenants {
      terms := terms + [Term("tenant_id", tenantId)];
    }
    var filters := if options.query.Some? then options.query.value else [];
    assert filters == Filters(opts);
    terms := AppendClauses(terms, filters);
    assert terms == SearchTerms(opts, allTenants, tenantId);
    var query := if |terms| > 0 then Bool(terms) else MatchAll;
    var sort: Option<string> := None;
    var offset: Option<string> := None;
    var limit: Option<string> := None;
    if "sort" in options.plain {
      sort := Some(options.plain["sort"]);
    }
    if "offset" in options.plain {
      offset := Some(options.plain["offset"]);
    }
    if "limit" in options.plain {
      limit := Some(options.plain["limit"]);
    }
    body := RequestBody(query, "instance", "nova", sort, offset, limit);
  }

  // ---- what the request promises ----

  /** For all tenants, the clauses are exactly one per filter, in order. */
  lemma SearchTermsAllTenants(opts: Option<SearchOpts>, tenantId: string)
    ensures |SearchTerms(opts, true, tenantId)| == |Filters(opts)|
    ensures forall i :: 0 <= i < |Filters(opts)| ==>
      SearchTerms(opts, true, tenantId)[i] == ClauseFor(Filters(opts)[i].0, Filters(opts)[i].1)
  {
    assert SearchTerms(opts, true, tenantId) == FilterClauses(Filters(opts));
  }

  /** For one tenant, the tenant clause comes first, followed by one clause per filter,
      in order. */
  lemma SearchTermsOwnTenant(opts: Option<SearchOpts>, tenantId: string)
    ensures |SearchTerms(opts, false, tenantId)| == 1 + |Filters(opts)|
    ensures SearchTerms(opts, false, tenantId)[0] == Term("tenant_id", tenantId)
    ensures forall i :: 0 <= i < |Filters(opts)| ==>
      SearchTerms(opts, false, tenantId)[i + 1] == ClauseFor(Filters(opts)[i].0, Filters(opts)[i].1)
  {
    var filters := Filters(opts);
    var clauses := FilterClauses(filters);
    var terms := SearchTerms(opts, false, tenantId);
    assert terms == [Term("tenant_id", tenantId)] + clauses;
    forall i | 0 <= i < |filters| ensures terms[i + 1] == ClauseFor(filters[i].0, filters[i].1) {
      assert terms[i + 1] == clauses[i];
    }
  }

  /** The classification of one filter, rule by rule: free text is searched in every
      field; otherwise a `~` makes a fuzzy search of that field, a `*` or `?` a wildcard,
      and anything else an exact match. Every clause carries the term unchanged. */
  lemma ClauseForRules(field: string, term: string)
    ensures ClauseFor(field, term).QueryString? <==> field == "free" || '~' in term
    ensures ClauseFor(field, term).QueryString? ==>
      ClauseFor(field, term) == QueryString(if field == "free" then None else Some([field]), term)
    ensures ClauseFor(field, term).Wildcard? <==> field != "free" && '~' !in term && ('*' in term || '?' in term)
    ensures ClauseFor(field, term).Term? <==> field != "free" && '~' !in term && '*' !in term && '?' !in term
    ensures !ClauseFor(field, term).QueryString? ==> ClauseFor(field, term).field == field && ClauseFor(field, term).value == term
  {
  }

  /** The body always searches the `instance` documents of the `nova` index, matches
      everything exactly when there is no clause (all tenants and no filter), wraps the
      clauses in `bool`/`must` otherwise, and carries `sort`, `offset` and `limit`, with their values, exactly
      when the options give them. */
  lemma RequestBodyShape(opts: Option<SearchOpts>, allTenants: bool, tenantId: string)
    ensures var body := RequestBodyFor(opts, allTenants, tenantId);
      && body.docType == "instance" && body.index == "nova"
      && (body.query == MatchAll <==> allTenants && |Filters(opts)| == 0)
      && (body.query != MatchAll ==> body.query.must == SearchTerms(opts, allTenants, tenantId))
      && (body.sort.Some? <==> opts.Some? && "sort" in opts.value.plain)
      && (body.offset.Some? <==> opts.Some? && "offset" in opts.value.plain)
      && (body.limit.Some? <==> opts.Some? && "limit" in opts.value.plain)
      && (body.sort.Some? ==> body.sort.value == opts.value.plain["sort"])
      && (body.offset.Some? ==> body.offset.value == opts.value.plain["offset"])
      && (body.limit.Some? ==> body.limit.value == opts.value.plain["limit"])
  {
    if allTenants {
      SearchTermsAllTenants(opts, tenantId);
    } else {
      SearchTermsOwnTenant(opts, tenantId);
    }
  }

  // ---- the instances and images it returns ----

  /** One address of a fake instance, `{'addr': ip}`. */
  datatype Address = Address(addr: string)

  /** `[{'addr': ip} for ip in ips]`. */
  function AddressList(ips: seq<string>): (r: seq<Address>)
    ensures |r| == |ips|
    ensures forall i :: 0 <= i < |ips| ==> r[i] == Address(ips[i])
  {
    seq(|ips|, i requires 0 <= i < |ips| => Address(ips[i]))
  }

  /** The IPs of an address list. */
  function Ips(addresses: seq<Address>): (r: seq<string>)
    ensures |r| == |addresses|
    ensures forall i :: 0 <= i < |addresses| ==> r[i] == addresses[i].addr
  {
    seq(|addresses|, i requires 0 <= i < |addresses| => addresses[i].addr)
  }

  /** The address lists give back the IPs they were made of. */
  lemma IpsOfAddressList(ips: seq<string>)
    ensures Ips(AddressList(ips)) == ips
  {
  }

  /** `fake_instance`'s `addresses`: a fresh mapping with, for each network, its IPs as
      address records, in the same order. */
  method FakeAddresses(networks: map<string, seq<string>>) returns (addresses: map<string, seq<Address>>)
    ensures addresses.Keys == networks.Keys
    ensures forall net :: net in networks ==> addresses[net] == AddressList(networks[net])
  {
    addresses := map[];
    var pending := networks.Keys;
    while pending != {}
      invariant pending <= networks.Keys
      invariant addresses.Keys == networks.Keys - pending
      invariant forall net :: net in addresses ==> addresses[net] == AddressList(networks[net])
      decreases |pending|
    {
      var net :| net in pending;
      var ips := networks[net];
      var list: seq<Address> := [];
      var i := 0;
      while i < |ips|
        invariant 0 <= i <= |ips|
        invariant list == AddressList(ips[..i])
      {
        list := list + [Address(ips[i])];
        i := i + 1;
      }
      assert ips[..i] == ips;
      addresses := addresses[net := list];
      pending := pending - {net};
    }
  }

  /** `FakeImage.is_public`: the visibility is exactly `public`. */
  predicate IsPublic(visibility: string)
  {
    visibility == "public"
  }
}
