# Faceted instance search of the dashboard, in Dafny

This project models the instance search of the OpenStack dashboard's Angular instance
page and of the REST and search back ends behind it:

- the `magicOverrides` controller of the faceted search widget (`MagicSearch.dfy`). It
  keeps the active selections (`currentSearch`), the working facet catalog (`facetsObj`,
  restored from `facetsSave`), the prompt, the menu flags, and the page address in step.
  `initFacets` reads the address query, selects what each fragment names, and prunes the
  catalog. `optionClicked`, `removeFacet` and `clearSearch` change that state and notify
  the table;
- the `magicStSearch` link of the table (`BasicTable.dfy`). It rewrites the address on
  `textRemoved`, `textSearch` and `searchUpdated`, and calls the table's update callback;
- the page address (`Browser.dfy`): a path and an optional query. The path holds no `?`;
- the query-string codec both use (`QueryCodec.dfy`): `serialize` and `deserialize`;
- the catalog index service back end (`Cis.dfy`): where the service is, when a call is
  routed to it, the Elasticsearch request of `server_list`, the addresses of its fake
  instances, and `is_public` of its fake images;
- the nova REST views (`NovaRest.dfy`):
  - the search options of `Servers.get` and the enrichment of the listed servers;
  - the checks of `Servers.post` and the dispatch of `Server.patch`;
  - the flags of the zone, limit and flavor views, and the items of the flavor listing;
- the `instancesCtrl` controller of the instances page (`Instances.dfy`):
  - the column watcher and `collectInstanceIds`;
  - the parameters of `editInstance`;
  - `update`: its params, the timer, and the transformation and paging of the listing.

Code that works by changing state is modelled as classes:
- `Browser.Location` holds the address;
- `BasicTable.MagicStSearch` is the table link; it keeps a log of the update-callback
  calls;
- `MagicSearch.MagicOverrides` is the widget's scope; it keeps a log of emitted events;
- `Instances.InstancesCtrl` is the instance page.

Each method states its whole new state. It does so through a specification function
(`Reconcile` for `initFacets`, `TextSearchPush` for `textSearch`, `TransformAll` for the
listing, and so on), and lemmas state what those functions promise. Angular's `$emit`
runs listeners before it returns, so a widget method that emits also runs the table's
handler. `$timeout` bodies are applied at once.

Several helpers that the code calls are not shown with it. The model assumes the
following behaviour for each:
- `hzUtils.deserialize` splits on `&`, then splits each fragment on `=`. The name is the
  first piece. The value is the second piece, or empty when there is none, so `a=b=c`
  reads as `a` = `b`. A later duplicate name overwrites the earlier value in place. The
  empty string gives no params;
- `hzUtils.serialize` joins `k=v` with `&`;
- `deleteFacetEntirely` drops the facets of that name;
- `deleteFacetSelection` drops that option key from the facets of that name;
- `copyFacets` copies, so it is the identity on values;
- `resetState` clears `facetSelected` and `filteredOptions`, and shows the working
  catalog;
- `emitQuery` emits `searchUpdated` with the selection names that do not start with
  `text=`, joined by `&`;
- `initSearch` installs the new catalog and runs `initFacets`.

## Model

| member | source | states |
|---|---|---|
| Strings.Split | horizon/static/angular/magic-search/magic-search.js:83 | `split` always gives at least one piece, no piece holds the separator, and a string without it splits to itself |
| Strings.JoinSplit | horizon/static/angular/table/basic-table.js:99 | joining the pieces of a split with the separator gives back the string |
| Strings.SplitJoin | horizon/static/angular/magic-search/magic-search.js:83 | splitting a join of separator-free pieces gives back the pieces |
| Strings.Lower | openstack_dashboard/static/dashboard/project/instances/instances.js:300 | lower-casing keeps the length and lower-cases each ASCII letter |
| QueryCodec.RoundTrip | horizon/static/angular/table/basic-table.js:114-120 | deserializing serialized clean params gives back the same params |
| QueryCodec.ReserializeStable | horizon/static/angular/table/basic-table.js:114-118 | decoding, encoding and decoding a query again gives the first decoding |
| QueryCodec.DeserializeClean | horizon/static/angular/table/basic-table.js:114 | decoded params have distinct names and no `&` or `=`, and no character the query lacks |
| QueryCodec.SetGet | horizon/static/angular/table/basic-table.js:132 | after `params.free = text`, `free` reads the text and every other name reads as before |
| QueryCodec.SetUnique | horizon/static/angular/table/basic-table.js:132 | assigning keeps names distinct; a new name goes at the end; the size grows only for a new name |
| QueryCodec.DeleteGet | horizon/static/angular/table/basic-table.js:115-117 | after `delete params.free`, `free` is undefined and every other name reads as before |
| QueryCodec.DeleteKeeps | horizon/static/angular/table/basic-table.js:116 | deletion keeps only properties of the original and none of the deleted name |
| QueryCodec.DeleteOrder | horizon/static/angular/table/basic-table.js:116 | deletion keeps the remaining properties in their order |
| QueryCodec.DeleteAbsent | horizon/static/angular/table/basic-table.js:115 | deleting an absent property changes nothing |
| QueryCodec.SerializeNonEmpty | horizon/static/angular/table/basic-table.js:101 | non-empty params serialize to a non-empty query |
| Browser.HrefParts | horizon/static/angular/table/basic-table.js:97-100 | the address holds `?` exactly when it has a query; `split('?')[0]` is the path and `split('?')[1]` the query up to a second `?` |
| Browser.Location.PushState | horizon/static/angular/table/basic-table.js:104 | the pushed address becomes the current one |
| BasicTable.MagicStSearch.UpdateInstances | horizon/static/angular/table/basic-table.js:96-109 | the address becomes the path plus `?query` only for a non-empty query; the callback is called with the params only when configured |
| BasicTable.MagicStSearch.OnTextRemoved | horizon/static/angular/table/basic-table.js:111-122 | the new address and callback log are those of `TextRemovedPush` |
| BasicTable.MagicStSearch.OnTextSearch | horizon/static/angular/table/basic-table.js:124-144 | the new address and callback log are those of `TextSearchPush` |
| BasicTable.MagicStSearch.OnSearchUpdated | horizon/static/angular/table/basic-table.js:147-157 | the address carries `SearchUpdatedQuery`, and the callback gets its decoding |
| BasicTable.PushedParams | horizon/static/angular/table/basic-table.js:101-104 | the params of an address pushed with a serialized query are those params |
| BasicTable.UrlParamsClean | horizon/static/angular/table/basic-table.js:114 | the address params are clean and never hold `?` |
| BasicTable.TextRemovedDropsOnlyFree | horizon/static/angular/table/basic-table.js:111-122 | `textRemoved` acts exactly when there is a query; the pushed params lack `free` and keep every other param |
| BasicTable.TextSearchNeedsEmptyInput | horizon/static/angular/table/basic-table.js:125-126 | with text in the search input, `textSearch` changes neither the address nor the callback log |
| BasicTable.TextSearchSetsFree | horizon/static/angular/table/basic-table.js:129-136 | with a query and non-empty text, `free` becomes the text and every other param is kept |
| BasicTable.TextSearchEmptyKeepsParams | horizon/static/angular/table/basic-table.js:131-136 | with a query and empty text, the params (and any `free`) are pushed unchanged |
| BasicTable.TextSearchWithoutQuery | horizon/static/angular/table/basic-table.js:137-142 | without a query: non-empty text gives query `free=text` and params `{free: text}`; empty text leaves only the path and undefined params |
| BasicTable.SearchUpdatedKeepsFree | horizon/static/angular/table/basic-table.js:147-156 | a facet change keeps the free-text term: for a non-empty facet query without `free`, the new address reads the `free` the old one read, and every other name as in the facet query |
| BasicTable.SearchUpdatedWithFree | horizon/static/angular/table/basic-table.js:150-154 | with a free-text term on the address, the new address reads the facet query with `free` set to that term |
| MagicSearch.DeleteFacetEntirelyWellFormed | horizon/static/angular/magic-search/magic-search.js:108 | removing a facet keeps the catalog well-formed and leaves no facet of that name |
| MagicSearch.DeleteFacetSelectionWellFormed | horizon/static/angular/magic-search/magic-search.js:120 | removing one option keeps the catalog well-formed |
| MagicSearch.DeleteFacetEntirelyOffers | horizon/static/angular/magic-search/magic-search.js:108 | after removing a facet the catalog offers only what it offered before, under other names |
| MagicSearch.DeleteFacetSelectionOffers | horizon/static/angular/magic-search/magic-search.js:120 | after removing an option the catalog offers only what it offered before, and no longer that option |
| MagicSearch.FacetIndex | horizon/static/angular/magic-search/magic-search.js:98-99 | the position found holds a facet of that name, and none is found exactly when the catalog has no such facet |
| MagicSearch.OptionIndex | horizon/static/angular/magic-search/magic-search.js:111-112 | the position found holds an option of that key, and none is found exactly when no option has it |
| MagicSearch.OptionsStepMissing | horizon/static/angular/magic-search/magic-search.js:111-123 | a value matching no option appends nothing and leaves the catalog alone |
| MagicSearch.OptionsStepUnique | horizon/static/angular/magic-search/magic-search.js:111-123 | with unique keys, the matching option appends `[facet.label, option.label]` and removes the facet if singleton, else only that option |
| MagicSearch.FacetsStepMissing | horizon/static/angular/magic-search/magic-search.js:98-126 | a fragment naming no facet appends nothing |
| MagicSearch.FacetsStepUnique | horizon/static/angular/magic-search/magic-search.js:98-126 | with unique names, the walk over the catalog does what the named facet does |
| MagicSearch.FragmentStepEffect | horizon/static/angular/magic-search/magic-search.js:90-128 | on a well-formed catalog, the nested walks for one fragment equal `Effect`. `Effect` is a direct statement: free text is selected; a free-form facet is selected and removed; a matching option is selected and its facet or option removed; anything else has no effect |
| MagicSearch.EffectWellFormed | horizon/static/angular/magic-search/magic-search.js:108-121 | a fragment's effect keeps the catalog well-formed |
| MagicSearch.FreeFragmentSelected | horizon/static/angular/magic-search/magic-search.js:92-96 | a `free` fragment appends `text=` + value labelled `[strings.text, value]` and never touches the catalog |
| MagicSearch.ReconcileConcat | horizon/static/angular/magic-search/magic-search.js:90 | fragments are applied in address order |
| MagicSearch.ReconcileExtends | horizon/static/angular/magic-search/magic-search.js:90-128 | `initFacets` keeps the selections it starts with, adds at most one per fragment, and keeps the catalog well-formed |
| MagicSearch.EffectConsumes | horizon/static/angular/magic-search/magic-search.js:98-122 | a facet selection is made only from what the catalog offers, and the catalog after it offers it no more |
| MagicSearch.ReconcileInvariant | horizon/static/angular/magic-search/magic-search.js:90-128 | reading the address keeps the catalog well-formed, keeps selected facet values out of it, and keeps facet selections distinct |
| MagicSearch.ReconcileNoDuplicates | horizon/static/angular/magic-search/magic-search.js:170-172 | rebuilding from the full catalog never selects the same facet value twice and leaves none of them offered |
| MagicSearch.PromptClearedIffQuery | horizon/static/angular/magic-search/magic-search.js:79-88 | the prompt is cleared exactly when the address has a non-empty query |
| MagicSearch.ClearedAddressSelectsNothing | horizon/static/angular/magic-search/magic-search.js:189-193 | the address `clearSearch` leaves reads as the single empty fragment and selects nothing from a catalog without an empty facet name |
| MagicSearch.FacetNames | horizon/static/angular/magic-search/magic-search.js:160 | the emitted names are exactly the selection names that do not start with `text=` |
| MagicSearch.Flatten | horizon/static/angular/magic-search/magic-search.js:140-143 | an array label is joined into one string; any other label is kept |
| MagicSearch.MagicOverrides.constructor | horizon/static/angular/magic-search/magic-search.js:58 | the widget starts with the prompt, no selections, the full catalog and a closed menu |
| MagicSearch.MagicOverrides.ShowMenu | horizon/static/angular/magic-search/magic-search.js:44-52 | the menu opens unless a search just happened; `searching` is false afterwards |
| MagicSearch.MagicOverrides.HideMenu | horizon/static/angular/magic-search/magic-search.js:53-57 | the menu closes and nothing else changes |
| MagicSearch.MagicOverrides.Emit | horizon/static/angular/magic-search/magic-search.js:71-73 | the event is logged; `searchUpdated` sets `searching`; the table's handler has run |
| MagicSearch.MagicOverrides.ReadFragments | horizon/static/angular/magic-search/magic-search.js:90-128 | the walk over the fragments leaves the selections and catalog at `Reconcile` of them, and changes nothing else |
| MagicSearch.MagicOverrides.InitFacets | horizon/static/angular/magic-search/magic-search.js:77-133 | selections and catalog become `Reconcile` of the address fragments; the prompt is cleared exactly per `ClearsPrompt`; `filteredObj` is the pruned catalog; `checkFacets` is emitted with the selections |
| MagicSearch.MagicOverrides.OptionClicked | horizon/static/angular/magic-search/magic-search.js:136-147 | exactly one entry `facet=name` with the flattened option label is appended, without a duplicate check; the menus reset and the facet query is emitted |
| MagicSearch.MagicOverrides.RemoveFacet | horizon/static/angular/magic-search/magic-search.js:152-179 | an index in range removes that selection and sends `RemovalNotice`; the prompt comes back when nothing is left; the selections are rebuilt from `facetsSave` and the rewritten address; `checkFacets` is emitted twice |
| MagicSearch.MagicOverrides.ClearSearch | horizon/static/angular/magic-search/magic-search.js:182-195 | no selections, the full catalog, the prompt, no free text; the address keeps only its path; `searchUpdated` is emitted with `''` |
| MagicSearch.MagicOverrides.FacetsChanged | horizon/static/angular/magic-search/magic-search.js:63-68 | the selections are emptied and rebuilt from the new catalog and the address |
| Cis.CisEnabledIff | openstack_dashboard/api/cis.py:16-26 | the catalog entry wins over the setting; the service is enabled exactly when one of them exists |
| Cis.DispatchOfModule | openstack_dashboard/api/cis.py:29-42 | with an address, `server_list`, `image_list_detailed` and `server_search_facets` go to the service; other names and a missing address stay with the original |
| Cis.FilterClauses | openstack_dashboard/api/cis.py:78-86 | one clause per filter, in order |
| Cis.AppendClauses | openstack_dashboard/api/cis.py:78-86 | the loop appends exactly the clauses of the filters, one per filter, in order |
| Cis.ServerList | openstack_dashboard/api/cis.py:68-107 | the request goes to the address plus `/search`, and the body is `RequestBodyFor` the options, defaulting to `{}` |
| Cis.SearchTermsAllTenants | openstack_dashboard/api/cis.py:74-86 | when all tenants are asked for, there is no tenant clause: exactly one clause per filter, in order |
| Cis.SearchTermsOwnTenant | openstack_dashboard/api/cis.py:74-86 | otherwise the tenant clause comes first, followed by one clause per filter, in order |
| Cis.ClauseForRules | openstack_dashboard/api/cis.py:79-86 | the first applicable rule classifies a filter: free text, then `~` (fuzzy on that field), then `*` or `?` (wildcard), else exact term |
| Cis.RequestBodyShape | openstack_dashboard/api/cis.py:88-107 | type `instance`, index `nova`; `match_all` exactly when there are no clauses, else `bool`/`must` of them; `sort`, `offset`, `limit` exactly when given, with the given values |
| Cis.AddressList | openstack_dashboard/api/cis.py:125 | one `{'addr': ip}` per IP, same length and order |
| Cis.IpsOfAddressList | openstack_dashboard/api/cis.py:125 | the address records give back their IPs |
| Cis.FakeAddresses | openstack_dashboard/api/cis.py:123-126 | every network gets its address list and no other key appears |
| NovaRest.ServerSearchOpts | openstack_dashboard/api/rest/nova.py:206-213 | the options are `ServerSearchOptsOf` the GET parameters |
| NovaRest.CopyOptions | openstack_dashboard/api/rest/nova.py:206-209 | the copied options are `PlainOpts` of the GET parameters |
| NovaRest.CollectFilters | openstack_dashboard/api/rest/nova.py:211-213 | `query` exists exactly when there is a `filter.` parameter, and then holds `FilterPairs` in order |
| NovaRest.PlainOptsExact | openstack_dashboard/api/rest/nova.py:206-209 | only `sort`, `offset`, `limit`, `fields` and `correct_typos` are copied, exactly when present, with their values |
| NovaRest.FilterPairsExact | openstack_dashboard/api/rest/nova.py:211-213 | every filter comes from a `filter.` parameter with the prefix stripped, and every such parameter gives one |
| NovaRest.FilterPairsConcat | openstack_dashboard/api/rest/nova.py:211-213 | filters keep the order of the parameters |
| NovaRest.ListingRequest | openstack_dashboard/api/rest/nova.py:206-216 | the service is asked with the request's `filter.` pairs in order, and with the request's `sort`, `offset` and `limit` |
| NovaRest.IndexById | openstack_dashboard/api/rest/nova.py:244-247 | every flavor and every image is indexed under its own id |
| NovaRest.IndexLastWins | openstack_dashboard/api/rest/nova.py:244-247 | an id is indexed exactly when a listed item has it, and the last such item wins |
| NovaRest.EnrichServerRules | openstack_dashboard/api/rest/nova.py:249-264 | the image is replaced exactly when it is a dict whose `id` is listed; `full_flavor` comes from the listing, else from the fetch |
| NovaRest.SimplifiedFalseSkips | openstack_dashboard/api/rest/nova.py:217 | `simplified=false` still skips enrichment; an absent or empty value enriches a non-empty listing |
| NovaRest.EnrichServers | openstack_dashboard/api/rest/nova.py:249-264 | every server in the array is replaced by its enrichment |
| NovaRest.ServersGet | openstack_dashboard/api/rest/nova.py:206-266 | the options as above; the servers are enriched exactly when `ShouldEnrich`, and are otherwise unchanged |
| NovaRest.FirstMissingIsFirst | openstack_dashboard/api/rest/nova.py:167-179 | a missing key is found exactly when one exists, and every key before it is present |
| NovaRest.ServersPost | openstack_dashboard/api/rest/nova.py:167-183 | a 400 naming the first missing required key, or the call with the six required values in order and the optional keywords present |
| NovaRest.CreateChecksInOrder | openstack_dashboard/api/rest/nova.py:135-139 | the keywords are exactly the `_optional_create` names present in the data |
| NovaRest.PatchPriority | openstack_dashboard/api/rest/nova.py:354-370 | at most one action, with priority reboot > start > stop > pause > unpause; nothing when no key is present; the reboot value is passed on |
| NovaRest.FlagReadings | openstack_dashboard/api/rest/nova.py:98 | `detailed`/`reserved` are true exactly for `'true'`; `is_public`/`get_extras` for any capitalisation of it; absent and empty differ for `is_public` |
| NovaRest.FlavorsGet | openstack_dashboard/api/rest/nova.py:420-426 | one item per flavor, in order, with extras exactly when asked for |
| Instances.ColumnKeysExact | openstack_dashboard/static/dashboard/project/instances/instances.js:97-102 | a key is a column exactly when a field with it is shown or required |
| Instances.ColumnKeysConcat | openstack_dashboard/static/dashboard/project/instances/instances.js:98-102 | columns keep field order |
| Instances.ColumnKeysAllShown | openstack_dashboard/static/dashboard/project/instances/instances.js:98-102 | when every field is shown or required, the columns are all the keys in order |
| Instances.DefaultColumns | openstack_dashboard/static/dashboard/project/instances/instances.js:74-90 | the opening columns are the eleven shown fields plus the required `host` |
| Instances.InstancesCtrl.constructor | openstack_dashboard/static/dashboard/project/instances/instances.js:70-338 | the default fields, no columns, an empty `fields` page option, page count 1, and, from the closing `update()`, one listing asked for with the params of the address and no timer cancelled |
| Instances.InstancesCtrl.RebuildColumns | openstack_dashboard/static/dashboard/project/instances/instances.js:94-104 | the columns are `ColumnKeys(fields)`, and the `fields` page option is those columns joined by `,` |
| Instances.InstancesCtrl.SetShow | openstack_dashboard/static/dashboard/project/instances/instances.js:94-104 | after a field is shown or hidden the columns match the fields again |
| Instances.CollectInstanceIds | openstack_dashboard/static/dashboard/project/instances/instances.js:177-190 | ids and names have equal length and pair up as the checked entries, in order |
| Instances.CheckedExact | openstack_dashboard/static/dashboard/project/instances/instances.js:179-184 | every pair comes from a checked entry, and every checked entry gives one |
| Instances.EditParamsKeeps | openstack_dashboard/static/dashboard/project/instances/instances.js:192-196 | the action is always set; an explicit value is kept, otherwise it is true; other params are untouched |
| Instances.EditReachesServer | openstack_dashboard/static/dashboard/project/instances/instances.js:207-217 | soft reboot, start and stop reach the server's patch as reboot(true), start and stop |
| Instances.GroupIps | openstack_dashboard/static/dashboard/project/instances/instances.js:269-273 | the reduce splits a network's addresses as `Grouped` does, failing on an unknown type |
| Instances.OfTypePartition | openstack_dashboard/static/dashboard/project/instances/instances.js:270-273 | every address ends up in exactly one list: fixed ones in `fixed`, floating ones in `floating` |
| Instances.OfTypeConcat | openstack_dashboard/static/dashboard/project/instances/instances.js:270-273 | the split preserves address order |
| Instances.GroupNetworks | openstack_dashboard/static/dashboard/project/instances/instances.js:267-275 | one network per address entry, in order, or a failure |
| Instances.PrimaryIpRules | openstack_dashboard/static/dashboard/project/instances/instances.js:279-283 | no `ip` without networks; the first network's first fixed address, else its first floating one; a failure when it has neither |
| Instances.PowerRules | openstack_dashboard/static/dashboard/project/instances/instances.js:294-300 | start is allowed exactly for power states 4, 5, 6; without a task state, stop is allowed exactly for 1 and 7; deleting allows stop in any case |
| Instances.TransformInstance | openstack_dashboard/static/dashboard/project/instances/instances.js:265-303 | the mapping of one server is `Transform` |
| Instances.TransformKeeps | openstack_dashboard/static/dashboard/project/instances/instances.js:266-300 | a shown server keeps its id and flavor, links to its detail page, and carries the start and stop permissions of its states |
| Instances.TransformListing | openstack_dashboard/static/dashboard/project/instances/instances.js:265-303 | the listing maps one to one to shown servers, or fails |
| Instances.PageCountIsCeiling | openstack_dashboard/static/dashboard/project/instances/instances.js:305-306 | the page count is the least number of pages holding every row; it is zero only for no rows |
| Instances.RequestParamsFromUrl | openstack_dashboard/static/dashboard/project/instances/instances.js:254-261 | a non-object argument reads the address params when there is a query, and none otherwise; an object is used as given |
| Instances.InstancesCtrl.Update | openstack_dashboard/static/dashboard/project/instances/instances.js:249-263 | a pending timer is cancelled first; the listing is requested with `RequestParams` |
| Instances.InstancesCtrl.OnServers | openstack_dashboard/static/dashboard/project/instances/instances.js:264-307 | on success: the shown servers, the page count, and one new timer; on a failing server, nothing changes |

## Left out

- HTTP and back-end calls are not modelled. This covers `requests.post`/`get` in the CIS
  back end, every `api.nova`, `api.glance` and `api.network` call, and the `novaAPI`
  promises. Their results are parameters: the listed servers, flavors and images, the
  flavor fetch `fetch`, and the listing response `OnServers` receives.
- `server_search_facets` and `image_list_detailed` are only HTTP round trips. Only their
  routing (`Cis.DispatchOfModule`) and `FakeImage.is_public` are modelled. The predicate
  `Cis.IsPublic` is that rule: the visibility is exactly `public`.
- `ObjFromDict` and `to_dict` are left out: they depend on Python's dynamic attributes.
- The multithreaded enrichment of `Servers.get` is left out because it is about
  concurrency. It computes the same flavors and images as the sequential branch, which is
  modelled.
- Asynchrony is not modelled: `$timeout` delays, promise chains, and the `$emit`/`$broadcast`
  transport. Handlers run synchronously, and timers are ids in `InstancesCtrl`.
- `ctrl.updateFacets` is left out as error plumbing.
- DOM work is left out. The search input's text is a parameter, and clearing it is the
  `searchInput` field.
- The `localeCompare` sort of a server's networks is left out because it depends on the
  locale. `Instances.Transform` takes the networks in the order the listing gives, so
  `ip` comes from the first network in that order rather than in sorted order.
- Strings.Lower: it lower-cases ASCII letters only, while `toLowerCase` and Python's
  `lower` follow Unicode. The strings compared in the core (`deleting`, `true`) are
  ASCII, so the outcomes are the same.
- Browser.Url: the address has no `#fragment`. `href.split('?')[1]` would carry a
  fragment into the last param value, while `location.search` would not.
- QueryCodec.Params: properties keep insertion order. A JavaScript object lists
  integer-like names first, so `serialize` of such params would write them in another
  order.
- Labels, `gettext` translation, logging and `profile_log` are left out. The labels of
  the free-text and prompt strings are parameters.
- MagicSearch.MagicOverrides.OptionClicked: it requires a facet in progress and an option
  index in range. Without them the source throws a TypeError, and the model does not
  cover that path.
- MagicSearch.MagicOverrides.RemoveFacet: an index past the end reports failure and
  changes nothing. The source throws a TypeError there.
- MagicSearch.MagicOverrides.InitFacets: the prompt clearing deferred by `$timeout` is
  applied at once. Where `removeFacet` restores the prompt, it does so before `initFacets`
  runs, so the final prompt is the same.
- MagicSearch: the in-place splicing done by `deleteFacetEntirely` and
  `deleteFacetSelection` during the `forEach` walks is modelled as walking the catalog as
  it was when the walk began. On a well-formed catalog (unique names and keys) only one
  facet and one option match, so the result is the same.
- Cis.ServerList: it takes the CIS address as a string. When there is no address, the
  source fails on `None + '/search'`; only a direct call, not `cis_wrapper`, reaches that
  case.
- NovaRest.ServerSearchOpts: it reads each GET parameter as given once. For a repeated
  parameter Django returns its last value, while the model's `Get` takes the first.
- NovaRest.EnrichServers: the image and flavor attributes are values of the `Server`
  datatype. The rest of a server object, and the aliasing between instances, are not
  modelled.
- Instances: JavaScript's loose comparisons on `power_state` are modelled for integers
  and undefined only.
- Instances: the image name is read only as a string or undefined.
