/** The REST views over nova: the options of a server listing taken from the request, the
    enrichment of the listed servers, the checks of server creation, the dispatch of a
    server update, and the flags of the zone, limit and flavor listings. */
module NovaRest {
  import opened Wrappers
  import opened Strings
  import opened QueryCodec
  import opened Cis

  // ---- the options of a server listing ----

  /** The GET parameters copied as they are into the search options, in this order. */
  const SearchFields: seq<string> := ["sort", "offset", "limit", "fields", "correct_typos"]

  /** The copied options: each of `SearchFields` that the request carries, with its value. */
  function PlainOpts(get: Params): (r: map<string, string>)
  {
    map k | k in SearchFields && Get(get, k).Some? :: Get(get, k).value
  }

  /** The filters of the request: every parameter `filter.<field>`, as `(field, value)`, in
      the order of the parameters. */
  function FilterPairs(get: Params): seq<(string, string)>
  {
    if |get| == 0 then []
    else
      var (k, v) := get[|get| - 1];
      FilterPairs(get[..|get| - 1]) + (if StartsWith(k, "filter.") then [(k[7..], v)] else [])
  }

  /** The search options of `Servers.get`: the copied options, and a `query` only when
      there is at least one filter. */
  function ServerSearchOptsOf(get: Params): SearchOpts
  {
    var filters := FilterPairs(get);
    SearchOpts(PlainOpts(get), if |filters| > 0 then Some(filters) else None)
  }

  /** The first loop of `Servers.get`: copy each of `SearchFields` the request carries. */
  method CopyOptions(get: Params) returns (plain: map<string, string>)
    ensures plain == PlainOpts(get)
  {
    plain := map[];
    var f := 0;
    while f < |SearchFields|
      invariant 0 <= f <= |SearchFields|
      invariant plain == map k | k in SearchFields[..f] && Get(get, k).Some? :: Get(get, k).value
    {
      var field := SearchFields[f];
      var value := Get(get, field);
      if value.Some? {
        plain := plain[field := value.value];
      }
      assert SearchFields[..f + 1] == SearchFields[..f] + [field];
      f := f + 1;
    }
    assert SearchFields[..f] == SearchFields;
  }

  /** The second loop of `Servers.get`: `setdefault('query', []).append(...)` for every
      `filter.` parameter, so that `query` exists only once a filter is found. */
  method CollectFilters(get: Params) returns (query: Option<seq<(string, string)>>)
    ensures query.None? <==> FilterPairs(get) == []
    ensures query.Some? ==> query.value == FilterPairs(get)
  {
    query := None;
    var i := 0;
    while i < |get|
      invariant 0 <= i <= |get|
      invariant query.None? <==> FilterPairs(get[..i]) == []
      invariant query.Some? ==> query.value == FilterPairs(get[..i])
    {
      var (k, v) := get[i];
      assert get[..i + 1][..i] == get[..i];
      assert FilterPairs(get[..i + 1]) == FilterPairs(get[..i]) + (if StartsWith(k, "filter.") then [(k[7..], v)] else []);
      if StartsWith(k, "filter.") {
        query := Some((if query.Some? then query.value else []) + [(k[7..], v)]);
      }
      i := i + 1;
    }
    assert get[..i] == get;
  }

  /** `Servers.get` building its search options from the GET parameters (given in
      iteration order). */
  method ServerSearchOpts(get: Params) returns (opts: SearchOpts)
    ensures opts == ServerSearchOptsOf(get)
  {
    var plain := CopyOptions(get);
    var query := CollectFilters(get);
    opts := SearchOpts(plain, query);
  }

  /** Only the five listed options are copied, each exactly when the request carries it,
      with its value. */
  lemma PlainOptsExact(get: Params, k: string)
    ensures k in PlainOpts(get) <==> k in SearchFields && Get(get, k).Some?
    ensures k in PlainOpts(get) ==> PlainOpts(get)[k] == Get(get, k).value
  {
  }

  /** A filter comes from a `filter.` parameter with the prefix taken off, and every
      `filter.` parameter gives one. */
  lemma {:induction false} FilterPairsExact(get: Params)
    ensures forall p :: p in FilterPairs(get) ==> ("filter." + p.0, p.1) in get
    ensures forall i :: 0 <= i < |get| && StartsWith(get[i].0, "filter.") ==> (get[i].0[7..], get[i].1) in FilterPairs(get)
    decreases |get|
  {
    if |get| > 0 {
      var prefix := get[..|get| - 1];
      FilterPairsExact(prefix);
      var (k, v) := get[|get| - 1];
      forall p | p in FilterPairs(get) ensures ("filter." + p.0, p.1) in get {
        if p in FilterPairs(prefix) {
          var j :| 0 <= j < |prefix| && prefix[j] == ("filter." + p.0, p.1);
          assert get[j] == prefix[j];
        } else {
          assert StartsWith(k, "filter.") && p == (k[7..], v);
          assert k == k[..7] + k[7..];
          assert get[|get| - 1] == ("filter." + p.0, p.1);
        }
      }
      forall i | 0 <= i < |get| && StartsWith(get[i].0, "filter.") ensures (get[i].0[7..], get[i].1) in FilterPairs(get) {
        if i < |get| - 1 {
          assert get[i] == prefix[i];
        }
      }
    }
  }

  /** Filters keep the order of the parameters: the filters of two runs of parameters are
      those of the first, then those of the second. */
  lemma {:induction false} FilterPairsConcat(a: Params, b: Params)
    ensures FilterPairs(a + b) == FilterPairs(a) + FilterPairs(b)
    decreases |b|
  {
    if |b| == 0 {
      assert a + b == a;
    } else {
      assert (a + b)[..|a + b| - 1] == a + b[..|b| - 1];
      FilterPairsConcat(a, b[..|b| - 1]);
    }
  }

  /** What a server listing asks the catalog index service for: the request's filters
      become its clauses in order, and its `sort`, `offset` and `limit` are passed on. */
  lemma ListingRequest(get: Params, allTenants: bool, tenantId: string)
    ensures var opts := Some(ServerSearchOptsOf(get));
      && Filters(opts) == FilterPairs(get)
      && RequestBodyFor(opts, allTenants, tenantId).sort == Get(get, "sort")
      && RequestBodyFor(opts, allTenants, tenantId).offset == Get(get, "offset")
      && RequestBodyFor(opts, allTenants, tenantId).limit == Get(get, "limit")
  {
    assert "sort" in SearchFields && "offset" in SearchFields && "limit" in SearchFields;
  }

  // ---- enrichment of the listed servers ----

  /** An image as the image listing returns it. */
  datatype Image = Image(id: string, name: string)

  /** A flavor as the flavor listing returns it. */
  datatype Flavor = Flavor(id: string, name: string, extras: map<string, string>)

  /** The `image` attribute of a listed server: absent, a dict (with or without `id`), an
      image object, or some other value. */
  datatype ImageField = NoImage | ImageDict(id: Option<string>) | ImageObject(image: Image) | OtherImage

  /** A listed server: its image, the `id` of its flavor dict, and `full_flavor` once set. */
  datatype Server = Server(image: ImageField, flavorId: string, fullFlavor: Option<Flavor>)

  /** `SortedDict((str(x.id), x) for x in items)`: the items by id, a later item with the
      same id replacing an earlier one. The flavor and the image listings are indexed this
      way. */
  function IndexById<T>(items: seq<T>, id: T -> string): (r: map<string, T>)
    ensures forall k :: k in r ==> id(r[k]) == k
  {
    if |items| == 0 then map[]
    else IndexById(items[..|items| - 1], id)[id(items[|items| - 1]) := items[|items| - 1]]
  }

  /** An item is indexed under an id exactly when the listing has one with that id, and the
      last such item wins. */
  lemma {:induction false} IndexLastWins<T>(items: seq<T>, id: T -> string, k: string)
    ensures k in IndexById(items, id) <==> exists i :: 0 <= i < |items| && id(items[i]) == k
    ensures k in IndexById(items, id) ==>
      exists i :: 0 <= i < |items| && IndexById(items, id)[k] == items[i] &&
        forall j :: i < j < |items| ==> id(items[j]) != k
    decreases |items|
  {
    if |items| > 0 {
      var prefix := items[..|items| - 1];
      var last := items[|items| - 1];
      IndexLastWins(prefix, id, k);
      if id(last) != k {
        if k in IndexById(items, id) {
          var i :| 0 <= i < |prefix| && IndexById(prefix, id)[k] == prefix[i] &&
            forall j :: i < j < |prefix| ==> id(prefix[j]) != k;
          assert items[i] == prefix[i];
          assert forall j :: i < j < |items| ==> id(items[j]) != k by {
            forall j | i < j < |items| ensures id(items[j]) != k {
              if j < |items| - 1 {
                assert items[j] == prefix[j];
              }
            }
          }
        }
        if exists i :: 0 <= i < |items| && id(items[i]) == k {
          var i :| 0 <= i < |items| && id(items[i]) == k;
          assert i < |prefix| && prefix[i] == items[i];
        }
      } else {
        assert IndexById(items, id)[k] == items[|items| - 1];
      }
    }
  }

  /** The flavors by id. */
  function FlavorIndex(flavors: seq<Flavor>): map<string, Flavor>
  {
    IndexById(flavors, (f: Flavor) => f.id)
  }

  /** The images by id. */
  function ImageIndex(images: seq<Image>): map<string, Image>
  {
    IndexById(images, (i: Image) => i.id)
  }

  /** One server after enrichment: an image dict whose `id` is a listed image becomes that
      image; `full_flavor` is the listed flavor of its flavor id, or the one fetched by id. */
  function EnrichServer(s: Server, images: map<string, Image>, flavors: map<string, Flavor>, fetch: string -> Flavor): Server
  {
    var image := if s.image.ImageDict? && s.image.id.Some? && s.image.id.value in images
                 then ImageObject(images[s.image.id.value]) else s.image;
    var full := if s.flavorId in flavors then flavors[s.flavorId] else fetch(s.flavorId);
    Server(image, s.flavorId, Some(full))
  }

  /** The image is replaced exactly when it is a dict naming a listed image; the flavor
      comes from the listing when it has the id and from the fetch otherwise; nothing else
      about the server changes. */
  lemma EnrichServerRules(s: Server, images: map<string, Image>, flavors: map<string, Flavor>, fetch: string -> Flavor)
    ensures var e := EnrichServer(s, images, flavors, fetch);
      && (e.image != s.image <==> s.image.ImageDict? && s.image.id.Some? && s.image.id.value in images)
      && (e.image != s.image ==> e.image == ImageObject(images[s.image.id.value]))
      && e.fullFlavor == Some(if s.flavorId in flavors then flavors[s.flavorId] else fetch(s.flavorId))
      && e.flavorId == s.flavorId
  {
  }

  /** Enrichment runs when the listing is non-empty and `simplified` is absent or empty;
      any non-empty value, `false` included, turns it off. */
  predicate ShouldEnrich(count: nat, simplified: Option<string>)
  {
    count > 0 && (simplified.None? || simplified.value == "")
  }

  /** `?simplified=false` still skips the enrichment, as Python reads any non-empty string
      as true. */
  lemma SimplifiedFalseSkips(count: nat)
    ensures !ShouldEnrich(count, Some("false"))
    ensures count > 0 ==> ShouldEnrich(count, None) && ShouldEnrich(count, Some(""))
  {
  }

  /** The loop of `Servers.get` over the listed servers, in place. */
  method EnrichServers(servers: array<Server>, images: map<string, Image>, flavors: map<string, Flavor>, fetch: string -> Flavor)
    modifies servers
    ensures forall i :: 0 <= i < servers.Length ==> servers[i] == EnrichServer(old(servers[i]), images, flavors, fetch)
  {
    var n := 0;
    while n < servers.Length
      invariant 0 <= n <= servers.Length
      invariant forall i :: 0 <= i < n ==> servers[i] == EnrichServer(old(servers[i]), images, flavors, fetch)
      invariant forall i :: n <= i < servers.Length ==> servers[i] == old(servers[i])
    {
      var s := servers[n];
      if s.image.ImageDict? {
        if s.image.id.Some? && s.image.id.value in images {
          s := s.(image := ImageObject(images[s.image.id.value]));
        }
      }
      var flavorId := s.flavorId;
      if flavorId in flavors {
        s := s.(fullFlavor := Some(flavors[flavorId]));
      } else {
        s := s.(fullFlavor := Some(fetch(flavorId)));
      }
      servers[n] := s;
      n := n + 1;
    }
  }

  /** `Servers.get` after the listing: the search options it listed with, and the servers,
      enriched in place when `ShouldEnrich` says so, from the flavor and image listings. */
  method ServersGet(get: Params, servers: array<Server>, flavorList: seq<Flavor>, imageList: seq<Image>, fetch: string -> Flavor)
    returns (opts: SearchOpts)
    modifies servers
    ensures opts == ServerSearchOptsOf(get)
    ensures ShouldEnrich(servers.Length, Get(get, "simplified")) ==>
      forall i :: 0 <= i < servers.Length ==>
        servers[i] == EnrichServer(old(servers[i]), ImageIndex(imageList), FlavorIndex(flavorList), fetch)
    ensures !ShouldEnrich(servers.Length, Get(get, "simplified")) ==> servers[..] == old(servers[..])
  {
    opts := ServerSearchOpts(get);
    var simplified := Get(get, "simplified");
    if servers.Length > 0 && (simplified.None? || simplified.value == "") {
      EnrichServers(servers, ImageIndex(imageList), FlavorIndex(flavorList), fetch);
    }
  }

  // ---- creating a server ----

  /** The required parameters of `Servers.post`, in the order they are read. */
  const Required: seq<string> := ["name", "source_id", "flavor_id", "key_name", "user_data", "security_groups"]

  /** `_optional_create`: the parameters passed on as keywords when present. */
  const OptionalCreate: seq<string> := [
    "block_device_mapping", "block_device_mapping_v2", "nics", "meta",
    "availability_zone", "instance_count", "admin_pass", "disk_config", "config_drive"]

  /** An `AjaxError(status, message)`. */
  datatype AjaxError = AjaxError(status: int, message: string)

  /** The call `server_create(request, *args, **kw)`. */
  datatype CreateCall<V> = CreateCall(args: seq<V>, kw: map<string, V>)

  /** The first of `keys` that `data` lacks. */
  function FirstMissing<V>(data: map<string, V>, keys: seq<string>): (r: Option<string>)
  {
    if |keys| == 0 then None
    else if keys[0] !in data then Some(keys[0])
    else FirstMissing(data, keys[1..])
  }

  /** `FirstMissing` finds a missing key exactly when there is one, and it is the first:
      every key before it is present. */
  lemma {:induction false} FirstMissingIsFirst<V>(data: map<string, V>, keys: seq<string>)
    ensures FirstMissing(data, keys).None? <==> forall k :: k in keys ==> k in data
    ensures FirstMissing(data, keys).Some? ==>
      exists i :: 0 <= i < |keys| && keys[i] == FirstMissing(data, keys).value && keys[i] !in data &&
        forall j :: 0 <= j < i ==> keys[j] in data
    decreases |keys|
  {
    if |keys| > 0 {
      FirstMissingIsFirst(data, keys[1..]);
      assert forall k :: k in keys ==> k == keys[0] || k in keys[1..];
      if keys[0] in data && FirstMissing(data, keys).Some? {
        var i :| 0 <= i < |keys[1..]| && keys[1..][i] == FirstMissing(data, keys).value && keys[1..][i] !in data &&
          forall j :: 0 <= j < i ==> keys[1..][j] in data;
        assert keys[i + 1] == keys[1..][i];
        forall j | 0 <= j < i + 1 ensures keys[j] in data {
          if j > 0 {
            assert keys[j] == keys[1..][j - 1];
          }
        }
      }
    }
  }

  /** The keywords of the creation call: the optional parameters present in the data. */
  function OptionalKw<V>(data: map<string, V>): map<string, V>
  {
    map k | k in OptionalCreate && k in data :: data[k]
  }

  /** `Servers.post`: a 400 naming the first missing required parameter, or the creation
      call with the required parameters in order and the optional ones present. */
  method ServersPost<V>(data: map<string, V>) returns (r: Result<CreateCall<V>, AjaxError>)
    ensures r.Failure? <==> FirstMissing(data, Required).Some?
    ensures r.Failure? ==> r.error == AjaxError(400, "missing required parameter '" + FirstMissing(data, Required).value + "'")
    ensures r.Success? ==> |r.value.args| == |Required| && forall i :: 0 <= i < |Required| ==> Required[i] in data && r.value.args[i] == data[Required[i]]
    ensures r.Success? ==> r.value.kw == OptionalKw(data)
  {
    var args: seq<V> := [];
    var i := 0;
    while i < |Required|
      invariant 0 <= i <= |Required|
      invariant |args| == i && forall j :: 0 <= j < i ==> Required[j] in data && args[j] == data[Required[j]]
      invariant FirstMissing(data, Required) == FirstMissing(data, Required[i..])
    {
      var key := Required[i];
      if key !in data {
        return Failure(AjaxError(400, "missing required parameter '" + key + "'"));
      }
      assert Required[i..][1..] == Required[i + 1..];
      args := args + [data[key]];
      i := i + 1;
    }
    var kw: map<string, V> := map[];
    var n := 0;
    while n < |OptionalCreate|
      invariant 0 <= n <= |OptionalCreate|
      invariant kw == map k | k in OptionalCreate[..n] && k in data :: data[k]
    {
      var name := OptionalCreate[n];
      if name in data {
        kw := kw[name := data[name]];
      }
      assert OptionalCreate[..n + 1] == OptionalCreate[..n] + [name];
      n := n + 1;
    }
    assert OptionalCreate[..n] == OptionalCreate;
    r := Success(CreateCall(args, kw));
  }

  /** The error names the first required parameter missing, so every parameter before it
      in `name`, `source_id`, `flavor_id`, `key_name`, `user_data`, `security_groups` was
      given; and the creation call gets exactly the optional parameters given. */
  lemma CreateChecksInOrder<V>(data: map<string, V>)
    ensures FirstMissing(data, Required).Some? ==>
      exists i :: 0 <= i < |Required| && Required[i] == FirstMissing(data, Required).value && Required[i] !in data &&
        forall j :: 0 <= j < i ==> Required[j] in data
    ensures FirstMissing(data, Required).None? <==> forall k :: k in Required ==> k in data
    ensures forall k :: k in OptionalKw(data) <==> k in OptionalCreate && k in data
  {
    FirstMissingIsFirst(data, Required);
  }

  // ---- updating a server ----

  /** The one nova call of `Server.patch`. */
  datatype Action<V> = Reboot(soft: V) | Start | Stop | Pause | Unpause | NoAction

  /** `Server.patch`: the first of `reboot`, `start`, `stop`, `pause`, `unpause` present in
      the data decides the call; `reboot` passes its value as the soft-reboot flag. */
  function PatchAction<V>(data: map<string, V>): Action<V>
  {
    if "reboot" in data then Reboot(data["reboot"])
    else if "start" in data then Start
    else if "stop" in data then Stop
    else if "pause" in data then Pause
    else if "unpause" in data then Unpause
    else NoAction
  }

  /** Each action happens exactly when its key is present and no key of higher priority
      is; nothing happens when none of the five is present. */
  lemma PatchPriority<V>(data: map<string, V>)
    ensures PatchAction(data).Reboot? <==> "reboot" in data
    ensures PatchAction(data).Start? <==> "start" in data && "reboot" !in data
    ensures PatchAction(data).Stop? <==> "stop" in data && "reboot" !in data && "start" !in data
    ensures PatchAction(data).Pause? <==> "pause" in data && "reboot" !in data && "start" !in data && "stop" !in data
    ensures PatchAction(data).Unpause? <==>
      "unpause" in data && "reboot" !in data && "start" !in data && "stop" !in data && "pause" !in data
    ensures PatchAction(data).NoAction? <==>
      "reboot" !in data && "start" !in data && "stop" !in data && "pause" !in data && "unpause" !in data
    ensures PatchAction(data).Reboot? ==> PatchAction(data).soft == data["reboot"]
  {
  }

  // ---- flags of the listing views ----

  /** `request.GET.get(name) == 'true'`: `detailed` of the zone listing and `reserved` of
      the limits. */
  predicate ExactTrue(param: Option<string>)
  {
    param == Some("true")
  }

  /** `x and x.lower() == 'true'` for a GET parameter `x`: absent gives None, empty gives
      the empty string, anything else a boolean. */
  datatype FlagArg = Absent | Blank | Flag(b: bool)

  /** The `is_public` argument the flavor listing passes on. */
  function IsPublicArg(param: Option<string>): FlagArg
  {
    if param.None? then Absent
    else if param.value == "" then Blank
    else Flag(Lower(param.value) == "true")
  }

  /** The `get_extras` flag: `bool(x and x.lower() == 'true')`. */
  predicate GetExtras(param: Option<string>)
  {
    match IsPublicArg(param)
    case Flag(b) => b
    case _ => false
  }

  /** The two readings of a flag: the zone and limit views accept only `true` as written,
      the flavor views any capitalisation of it; a missing or empty parameter is false for
      both (and `is_public` is then passed on as None or the empty string). */
  lemma FlagReadings(param: Option<string>)
    ensures ExactTrue(param) <==> param == Some("true")
    ensures GetExtras(param) <==> param.Some? && Lower(param.value) == "true"
    ensures ExactTrue(param) ==> GetExtras(param)
    ensures IsPublicArg(param) == Absent <==> param.None?
    ensures IsPublicArg(param) == Blank <==> param == Some("")
    ensures !ExactTrue(Some("True")) && GetExtras(Some("True")) && GetExtras(Some("TRUE"))
  {
    if param.Some? && Lower(param.value) == "true" {
      assert param.value != "";
    }
    assert Lower("True") == "true";
    assert Lower("TRUE") == "true";
  }

  /** One item of the flavor listing: the flavor and, when asked for, its extra specs. */
  datatype FlavorItem = FlavorItem(flavor: Flavor, extras: Option<map<string, string>>)

  /** `Flavors.get` building `items`: one item per listed flavor, in order, with `extras`
      exactly when `get_extras` is set. */
  method FlavorsGet(flavors: seq<Flavor>, getExtras: bool) returns (items: seq<FlavorItem>)
    ensures |items| == |flavors|
    ensures forall i :: 0 <= i < |flavors| ==> items[i].flavor == flavors[i]
    ensures forall i :: 0 <= i < |flavors| ==> (items[i].extras.Some? <==> getExtras)
    ensures forall i :: 0 <= i < |flavors| && getExtras ==> items[i].extras == Some(flavors[i].extras)
  {
    items := [];
    var i := 0;
    while i < |flavors|
      invariant 0 <= i <= |flavors|
      invariant |items| == i
      invariant forall j :: 0 <= j < i ==> items[j] == FlavorItem(flavors[j], if getExtras then Some(flavors[j].extras) else None)
    {
      var d := FlavorItem(flavors[i], None);
      if getExtras {
        d := d.(extras := Some(flavors[i].extras));
      }
      items := items + [d];
      i := i + 1;
    }
  }
}
