/** The instances page controller (`instancesCtrl`): its columns, the servers it acts on,
    the parameters of a server update, the reading of the server listing, the paging and
    the refresh timer. */
module Instances {
  import opened Wrappers
  import opened Strings
  import opened QueryCodec
  import opened Browser
  import NovaRest
  import BasicTable

  // ---- columns ----

  /** A column definition of `ctrl.fields`, under its client key. */
  datatype Field = Field(clientKey: string, key: string, show: bool, required: bool)

  /** The column definitions the controller starts with, in their order. */
  const DefaultFields: seq<Field> := [
    Field("id", "id", true, true),
    Field("name", "name", true, true),
    Field("imageName", "image", true, false),
    Field("ip", "networks", true, true),
    Field("flavorName", "flavor", true, true),
    Field("key_name", "key_name", true, false),
    Field("status", "status", true, false),
    Field("availability_zone", "availability_zone", true, false),
    Field("task_state", "OS-EXT-STS:task_state", true, true),
    Field("power_state", "OS-EXT-STS:power_state", true, true),
    Field("created", "created", true, false),
    Field("host", "host", false, true),
    Field("owner", "owner", false, false),
    Field("updated", "updated", false, false),
    Field("user_id", "user_id", false, false)]

  /** The keys of the fields that are shown or required, in field order. */
  function ColumnKeys(fields: seq<Field>): seq<string>
  {
    if |fields| == 0 then []
    else
      var f := fields[|fields| - 1];
      ColumnKeys(fields[..|fields| - 1]) + (if f.show || f.required then [f.key] else [])
  }

  /** A key is a column exactly when some field with that key is shown or required; a
      required field is a column whether it is shown or not. */
  lemma {:induction false} ColumnKeysExact(fields: seq<Field>, k: string)
    ensures k in ColumnKeys(fields) <==> exists i :: 0 <= i < |fields| && fields[i].key == k && (fields[i].show || fields[i].required)
    decreases |fields|
  {
    if |fields| > 0 {
      var prefix := fields[..|fields| - 1];
      ColumnKeysExact(prefix, k);
      if exists i :: 0 <= i < |fields| && fields[i].key == k && (fields[i].show || fields[i].required) {
        var i :| 0 <= i < |fields| && fields[i].key == k && (fields[i].show || fields[i].required);
        if i < |prefix| {
          assert prefix[i] == fields[i];
        }
      }
      if k in ColumnKeys(prefix) {
        var i :| 0 <= i < |prefix| && prefix[i].key == k && (prefix[i].show || prefix[i].required);
        assert fields[i] == prefix[i];
      }
    }
  }

  /** Columns keep the field order: the columns of two runs of fields are those of the
      first, then those of the second. */
  lemma {:induction false} ColumnKeysConcat(a: seq<Field>, b: seq<Field>)
    ensures ColumnKeys(a + b) == ColumnKeys(a) + ColumnKeys(b)
    decreases |b|
  {
    if |b| == 0 {
      assert a + b == a;
    } else {
      assert (a + b)[..|a + b| - 1] == a + b[..|b| - 1];
      ColumnKeysConcat(a, b[..|b| - 1]);
    }
  }

  /** The keys of the fields, in order. */
  function Keys(fields: seq<Field>): seq<string>
  {
    seq(|fields|, i requires 0 <= i < |fields| => fields[i].key)
  }

  /** When every field is shown or required, every key is a column, in order. */
  lemma {:induction false} ColumnKeysAllShown(fields: seq<Field>)
    requires forall i :: 0 <= i < |fields| ==> fields[i].show || fields[i].required
    ensures ColumnKeys(fields) == Keys(fields)
    decreases |fields|
  {
    if |fields| > 0 {
      var prefix := fields[..|fields| - 1];
      ColumnKeysAllShown(prefix);
      assert Keys(fields) == Keys(prefix) + [fields[|fields| - 1].key];
    }
  }

  /** When no field is shown or required, there are no columns. */
  lemma {:induction false} ColumnKeysNoneShown(fields: seq<Field>)
    requires forall i :: 0 <= i < |fields| ==> !fields[i].show && !fields[i].required
    ensures ColumnKeys(fields) == []
    decreases |fields|
  {
    if |fields| > 0 {
      ColumnKeysNoneShown(fields[..|fields| - 1]);
    }
  }

  /** The columns of the page as it opens: every shown field, and the hidden but required
      `host`. */
  lemma DefaultColumns()
    ensures ColumnKeys(DefaultFields) == ["id", "name", "image", "networks", "flavor", "key_name", "status",
      "availability_zone", "OS-EXT-STS:task_state", "OS-EXT-STS:power_state", "created", "host"]
  {
    var f := DefaultFields;
    var shown := f[..12];
    var hidden := f[12..];
    assert f == shown + hidden;
    ColumnKeysConcat(shown, hidden);
    ColumnKeysAllShown(shown);
    ColumnKeysNoneShown(hidden);
    assert Keys(shown) == ["id", "name", "image", "networks", "flavor", "key_name", "status",
      "availability_zone", "OS-EXT-STS:task_state", "OS-EXT-STS:power_state", "created", "host"];
  }

  // ---- the servers the table acts on ----

  /** One entry of the table's selection object: whether it is checked and the name of its
      server. */
  datatype Selection = Selection(checked: bool, itemName: string)

  /** The checked entries of the selection, as (server id, server name), in order. */
  function Checked(selected: seq<(string, Selection)>): seq<(string, string)>
  {
    if |selected| == 0 then []
    else
      var (id, s) := selected[|selected| - 1];
      Checked(selected[..|selected| - 1]) + (if s.checked then [(id, s.itemName)] else [])
  }

  /** `collectInstanceIds(selected)`: the ids and the names of the checked servers. */
  method CollectInstanceIds(selected: seq<(string, Selection)>) returns (ids: seq<string>, names: seq<string>)
    ensures |ids| == |names| == |Checked(selected)|
    ensures forall i :: 0 <= i < |ids| ==> (ids[i], names[i]) == Checked(selected)[i]
  {
    ids := [];
    names := [];
    var n := 0;
    while n < |selected|
      invariant 0 <= n <= |selected|
      invariant |ids| == |names| == |Checked(selected[..n])|
      invariant forall i :: 0 <= i < |ids| ==> (ids[i], names[i]) == Checked(selected[..n])[i]
    {
      var (id, selection) := selected[n];
      assert selected[..n + 1][..n] == selected[..n];
      if selection.checked {
        ids := ids + [id];
        names := names + [selection.itemName];
      }
      n := n + 1;
    }
    assert selected[..n] == selected;
  }

  /** Every pair comes from a checked entry, and every checked entry gives its pair. */
  lemma {:induction false} CheckedExact(selected: seq<(string, Selection)>)
    ensures forall p :: p in Checked(selected) ==> exists i :: 0 <= i < |selected| && selected[i].0 == p.0 && selected[i].1.checked && selected[i].1.itemName == p.1
    ensures forall i :: 0 <= i < |selected| && selected[i].1.checked ==> (selected[i].0, selected[i].1.itemName) in Checked(selected)
    decreases |selected|
  {
    if |selected| > 0 {
      var prefix := selected[..|selected| - 1];
      CheckedExact(prefix);
      forall p | p in Checked(selected)
        ensures exists i :: 0 <= i < |selected| && selected[i].0 == p.0 && selected[i].1.checked && selected[i].1.itemName == p.1
      {
        if p in Checked(prefix) {
          var i :| 0 <= i < |prefix| && prefix[i].0 == p.0 && prefix[i].1.checked && prefix[i].1.itemName == p.1;
          assert selected[i] == prefix[i];
        } else {
          assert selected[|selected| - 1].0 == p.0;
        }
      }
      forall i | 0 <= i < |selected| && selected[i].1.checked ensures (selected[i].0, selected[i].1.itemName) in Checked(selected) {
        if i < |prefix| {
          assert selected[i] == prefix[i];
        }
      }
    }
  }

  // ---- the parameters of a server update ----

  /** A JSON value of the update parameters. */
  datatype JsValue = JsBool(b: bool) | JsString(s: string) | JsNumber(n: int)

  /** `editInstance(action, instance, extraParams)`: the extra parameters (none when not
      given) with `action` set to true unless it is already defined. */
  function EditParams(action: string, extra: Option<map<string, JsValue>>): map<string, JsValue>
  {
    var params := if extra.Some? then extra.value else map[];
    if action in params then params else params[action := JsBool(true)]
  }

  /** The action is always defined afterwards, an explicit value of it is kept, it is true
      otherwise, and no other parameter changes. */
  lemma EditParamsKeeps(action: string, extra: Option<map<string, JsValue>>)
    ensures var p := EditParams(action, extra);
      && action in p
      && (extra.Some? && action in extra.value ==> p[action] == extra.value[action])
      && (extra.None? || action !in extra.value ==> p[action] == JsBool(true))
      && (forall k :: k != action ==> (k in p <==> extra.Some? && k in extra.value))
      && (forall k :: k != action && k in p ==> p[k] == extra.value[k])
  {
  }

  /** What the server-side update does with these parameters: a soft reboot reboots with
      the flag true, start starts and stop stops. */
  lemma EditReachesServer()
    ensures NovaRest.PatchAction(EditParams("reboot", Some(map["reboot" := JsBool(true)]))) == NovaRest.Reboot(JsBool(true))
    ensures NovaRest.PatchAction(EditParams("start", None)) == NovaRest.Start
    ensures NovaRest.PatchAction(EditParams("stop", None)) == NovaRest.Stop
  {
    assert EditParams("start", None) == map["start" := JsBool(true)];
    assert EditParams("stop", None) == map["stop" := JsBool(true)];
  }

  // ---- reading the server listing ----

  /** One address of a server's network: `addr` and `OS-EXT-IPS:type`. */
  datatype IpEntry = IpEntry(addr: string, ipType: string)

  /** One network of a server as the page shows it. */
  datatype Network = Network(name: string, fixed: seq<IpEntry>, floating: seq<IpEntry>)

  /** The addresses of type `t`, in order. */
  function OfType(ips: seq<IpEntry>, t: string): seq<IpEntry>
  {
    if |ips| == 0 then []
    else OfType(ips[..|ips| - 1], t) + (if ips[|ips| - 1].ipType == t then [ips[|ips| - 1]] else [])
  }

  /** Every address is fixed or floating. */
  predicate Typed(ips: seq<IpEntry>)
  {
    forall i :: 0 <= i < |ips| ==> ips[i].ipType == "fixed" || ips[i].ipType == "floating"
  }

  /** A network's addresses split by type, or nothing when an address has another type
      (the push onto a missing list fails). */
  function Grouped(name: string, ips: seq<IpEntry>): Option<Network>
  {
    if Typed(ips) then Some(Network(name, OfType(ips, "fixed"), OfType(ips, "floating"))) else None
  }

  /** The `reduce` that splits one network's addresses. */
  method GroupIps(name: string, ips: seq<IpEntry>) returns (r: Option<Network>)
    ensures r == Grouped(name, ips)
  {
    var network := Network(name, [], []);
    var i := 0;
    while i < |ips|
      invariant 0 <= i <= |ips|
      invariant Typed(ips[..i])
      invariant network == Network(name, OfType(ips[..i], "fixed"), OfType(ips[..i], "floating"))
    {
      var curr := ips[i];
      assert ips[..i + 1][..i] == ips[..i];
      if curr.ipType == "fixed" {
        network := network.(fixed := network.fixed + [curr]);
      } else if curr.ipType == "floating" {
        network := network.(floating := network.floating + [curr]);
      } else {
        assert !Typed(ips);
        return None;
      }
      i := i + 1;
    }
    assert ips[..i] == ips;
    r := Some(network);
  }

  /** The split keeps every address exactly once, in order: the fixed list holds exactly
      the fixed addresses and the floating list the floating ones. */
  lemma {:induction false} OfTypePartition(ips: seq<IpEntry>)
    requires Typed(ips)
    ensures |OfType(ips, "fixed")| + |OfType(ips, "floating")| == |ips|
    ensures forall e :: e in OfType(ips, "fixed") <==> e in ips && e.ipType == "fixed"
    ensures forall e :: e in OfType(ips, "floating") <==> e in ips && e.ipType == "floating"
    decreases |ips|
  {
    if |ips| > 0 {
      var prefix := ips[..|ips| - 1];
      assert Typed(prefix) by {
        forall i | 0 <= i < |prefix| ensures prefix[i].ipType == "fixed" || prefix[i].ipType == "floating" {
          assert prefix[i] == ips[i];
        }
      }
      OfTypePartition(prefix);
      assert ips == prefix + [ips[|ips| - 1]];
    }
  }

  /** The order of the addresses carries over: the split of two runs of addresses is the
      split of the first, then of the second. */
  lemma {:induction false} OfTypeConcat(a: seq<IpEntry>, b: seq<IpEntry>, t: string)
    ensures OfType(a + b, t) == OfType(a, t) + OfType(b, t)
    decreases |b|
  {
    if |b| == 0 {
      assert a + b == a;
    } else {
      assert (a + b)[..|a + b| - 1] == a + b[..|b| - 1];
      OfTypeConcat(a, b[..|b| - 1], t);
    }
  }

  /** All networks of a server, in order, or nothing when one of them fails. */
  function NetworksOf(addresses: seq<(string, seq<IpEntry>)>): Option<seq<Network>>
  {
    if |addresses| == 0 then Some([])
    else
      var prev := NetworksOf(addresses[..|addresses| - 1]);
      var last := Grouped(addresses[|addresses| - 1].0, addresses[|addresses| - 1].1);
      if prev.Some? && last.Some? then Some(prev.value + [last.value]) else None
  }

  /** The `forEach` over a server's addresses, one network per entry. */
  method GroupNetworks(addresses: seq<(string, seq<IpEntry>)>) returns (r: Option<seq<Network>>)
    ensures r == NetworksOf(addresses)
  {
    var networks: seq<Network> := [];
    var i := 0;
    while i < |addresses|
      invariant 0 <= i <= |addresses|
      invariant NetworksOf(addresses[..i]) == Some(networks)
    {
      assert addresses[..i + 1][..i] == addresses[..i];
      var network := GroupIps(addresses[i].0, addresses[i].1);
      if network.None? {
        NetworksOfFails(addresses, i + 1);
        assert addresses[..i + 1] == addresses[..i + 1];
        return None;
      }
      networks := networks + [network.value];
      i := i + 1;
    }
    assert addresses[..i] == addresses;
    r := Some(networks);
  }

  /** Once a prefix of the addresses fails, all of them fail. */
  lemma {:induction false} NetworksOfFails(addresses: seq<(string, seq<IpEntry>)>, n: nat)
    requires n <= |addresses| && NetworksOf(addresses[..n]).None?
    ensures NetworksOf(addresses).None?
    decreases |addresses| - n
  {
    if n < |addresses| {
      assert addresses[..n + 1][..n] == addresses[..n];
      NetworksOfFails(addresses, n + 1);
    } else {
      assert addresses[..n] == addresses;
    }
  }

  /** `instance.ip`: unset without networks; the first fixed address of the first network,
      else its first floating address; a failure when the first network has neither. */
  function PrimaryIp(networks: seq<Network>): Result<Option<string>, string>
  {
    if |networks| == 0 then Success(None)
    else if |networks[0].fixed| > 0 then Success(Some(networks[0].fixed[0].addr))
    else if |networks[0].floating| > 0 then Success(Some(networks[0].floating[0].addr))
    else Failure("TypeError")
  }

  /** The primary address prefers a fixed address of the first network and falls back to a
      floating one; it is always an address of that network. */
  lemma PrimaryIpRules(networks: seq<Network>)
    ensures PrimaryIp(networks).Failure? <==> |networks| > 0 && networks[0].fixed == [] && networks[0].floating == []
    ensures PrimaryIp(networks) == Success(None) <==> |networks| == 0
    ensures |networks| > 0 && networks[0].fixed != [] ==> PrimaryIp(networks) == Success(Some(networks[0].fixed[0].addr))
    ensures PrimaryIp(networks).Success? && PrimaryIp(networks).value.Some? ==>
      exists e :: (e in networks[0].fixed || e in networks[0].floating) && e.addr == PrimaryIp(networks).value.value
  {
    if |networks| > 0 && networks[0].fixed != [] {
      assert networks[0].fixed[0] in networks[0].fixed;
    } else if |networks| > 0 && networks[0].floating != [] {
      assert networks[0].floating[0] in networks[0].floating;
    }
  }

  /** `startAllowed`: the power state lies strictly between 3 and 7. */
  predicate StartAllowed(powerState: Option<int>)
  {
    powerState.Some? && 3 < powerState.value < 7
  }

  /** `task_state`: the server's task state, `None` when it is missing or empty. */
  function TaskState(raw: Option<string>): string
  {
    if raw.Some? && raw.value != "" then raw.value else "None"
  }

  /** `stopAllowed`: running or suspended, or being deleted. */
  predicate StopAllowed(powerState: Option<int>, taskState: string)
  {
    powerState == Some(1) || powerState == Some(7) || Lower(taskState) == "deleting"
  }

  /** A server can be started exactly when it is shut down, shut off or crashed (power
      states 4, 5, 6), and then it cannot be stopped unless it is being deleted; without a
      task state it can be stopped exactly when it is running or suspended. */
  lemma PowerRules(powerState: Option<int>, taskState: Option<string>)
    ensures StartAllowed(powerState) <==> powerState == Some(4) || powerState == Some(5) || powerState == Some(6)
    ensures StartAllowed(powerState) && Lower(TaskState(taskState)) != "deleting" ==> !StopAllowed(powerState, TaskState(taskState))
    ensures taskState.None? ==> (StopAllowed(powerState, TaskState(taskState)) <==> powerState == Some(1) || powerState == Some(7))
    ensures StopAllowed(powerState, "DELETING") && StopAllowed(powerState, "deleting")
  {
    assert |Lower("None")| == 4;
    assert Lower("DELETING") == "deleting";
    assert Lower("deleting") == "deleting";
  }

  /** An image as a listed server carries it. */
  datatype ImageInfo = ImageInfo(name: Option<string>)

  /** A server as the listing returns it. */
  datatype RawInstance = RawInstance(
    id: string,
    addresses: Option<seq<(string, seq<IpEntry>)>>,
    image: Option<ImageInfo>,
    flavorName: string,
    taskState: Option<string>,
    powerState: Option<int>)

  /** A server as the table shows it. */
  datatype Instance = Instance(
    id: string,
    networkIps: Option<seq<Network>>,
    ip: Option<string>,
    detailLink: string,
    imageName: Option<string>,
    flavorName: string,
    taskState: string,
    powerState: Option<int>,
    startAllowed: bool,
    stopAllowed: bool)

  /** The fields of a shown server that do not depend on its addresses. */
  function Shown(raw: RawInstance, networkIps: Option<seq<Network>>, ip: Option<string>): Instance
  {
    var task := TaskState(raw.taskState);
    Instance(raw.id, networkIps, ip, "/project/instances/" + raw.id + "/",
             if raw.image.Some? then raw.image.value.name else None,
             raw.flavorName, task, raw.powerState,
             StartAllowed(raw.powerState), StopAllowed(raw.powerState, task))
  }

  /** One server of the listing as the table shows it, or nothing when its addresses make
      the transformation fail. */
  function Transform(raw: RawInstance): Option<Instance>
  {
    if raw.addresses.None? then Some(Shown(raw, None, None))
    else
      var networks := NetworksOf(raw.addresses.value);
      if networks.None? then None
      else
        var ip := PrimaryIp(networks.value);
        if ip.Failure? then None else Some(Shown(raw, networks, ip.value))
  }

  /** The whole listing, or nothing when one server fails. */
  function TransformAll(response: seq<RawInstance>): (r: Option<seq<Instance>>)
    ensures r.Some? ==> |r.value| == |response|
  {
    if |response| == 0 then Some([])
    else
      var prev := TransformAll(response[..|response| - 1]);
      var last := Transform(response[|response| - 1]);
      if prev.Some? && last.Some? then Some(prev.value + [last.value]) else None
  }

  /** Once a prefix of the listing fails, all of it fails. */
  lemma {:induction false} TransformAllFails(response: seq<RawInstance>, n: nat)
    requires n <= |response| && TransformAll(response[..n]).None?
    ensures TransformAll(response).None?
    decreases |response| - n
  {
    if n < |response| {
      assert response[..n + 1][..n] == response[..n];
      TransformAllFails(response, n + 1);
    } else {
      assert response[..n] == response;
    }
  }

  /** The mapping function over one server. */
  method TransformInstance(raw: RawInstance) returns (r: Option<Instance>)
    ensures r == Transform(raw)
  {
    var networkIps: Option<seq<Network>> := None;
    var ip: Option<string> := None;
    if raw.addresses.Some? {
      networkIps := GroupNetworks(raw.addresses.value);
      if networkIps.None? {
        return None;
      }
      var networks := networkIps.value;
      if |networks| > 0 {
        if |networks[0].fixed| > 0 {
          ip := Some(networks[0].fixed[0].addr);
        } else if |networks[0].floating| > 0 {
          ip := Some(networks[0].floating[0].addr);
        } else {
          return None;
        }
      }
    }
    var task := if raw.taskState.Some? && raw.taskState.value != "" then raw.taskState.value else "None";
    var imageName := if raw.image.Some? then raw.image.value.name else None;
    r := Some(Instance(raw.id, networkIps, ip, "/project/instances/" + raw.id + "/", imageName,
                       raw.flavorName, task, raw.powerState,
                       raw.powerState.Some? && 3 < raw.powerState.value < 7,
                       raw.powerState == Some(1) || raw.powerState == Some(7) || Lower(task) == "deleting"));
  }

  /** A shown server keeps its id and flavor, links to its detail page, and carries the
      start and stop permissions of its states. */
  lemma TransformKeeps(raw: RawInstance)
    requires Transform(raw).Some?
    ensures var t := Transform(raw).value;
      && t.id == raw.id && t.flavorName == raw.flavorName && t.powerState == raw.powerState
      && t.detailLink == "/project/instances/" + raw.id + "/"
      && t.startAllowed == StartAllowed(raw.powerState)
      && t.stopAllowed == StopAllowed(raw.powerState, TaskState(raw.taskState))
      && (raw.addresses.Some? ==> t.networkIps == NetworksOf(raw.addresses.value))
      && (raw.addresses.None? ==> t.networkIps.None? && t.ip.None?)
  {
  }

  // ---- paging ----

  /** The number of rows a page holds. */
  const Limit: nat := 100

  /** `Math.ceil(count / limit)`. */
  function PageCount(count: nat, limit: nat): nat
    requires limit > 0
  {
    (count + limit - 1) / limit
  }

  /** The page count is the least number of pages that holds every row. */
  lemma PageCountIsCeiling(count: nat, limit: nat)
    requires limit > 0
    ensures PageCount(count, limit) * limit >= count
    ensures PageCount(count, limit) > 0 ==> (PageCount(count, limit) - 1) * limit < count
    ensures PageCount(count, limit) == 0 <==> count == 0
  {
    var q := (count + limit - 1) / limit;
    var m := (count + limit - 1) % limit;
    assert count + limit - 1 == q * limit + m;
    assert 0 <= m < limit;
    assert q * limit == count + limit - 1 - m;
    if q > 0 {
      assert (q - 1) * limit == q * limit - limit;
    }
  }

  /** How `update` is called: without an object (no argument, or from the refresh timer),
      or with the search params. */
  datatype UpdateArg = NotAnObject | Params(params: QueryCodec.Params)

  /** The params `update` lists with: the argument when it is an object, else those of the
      address when it has a query, else none. */
  function RequestParams(arg: UpdateArg, u: Url): Option<QueryCodec.Params>
  {
    if arg.Params? then Some(arg.params)
    else if u.query.Some? then Some(UrlParams(u))
    else None
  }

  /** Without an object, the listing is asked for exactly the params of the address. */
  lemma RequestParamsFromUrl(u: Url)
    ensures u.query.Some? ==> RequestParams(NotAnObject, u) == Some(UrlParams(u)) && Clean(UrlParams(u))
    ensures u.query.None? ==> RequestParams(NotAnObject, u).None?
    ensures forall p :: RequestParams(Params(p), u) == Some(p)
  {
    BasicTable.UrlParamsClean(u);
  }

  /** The `map` over the listing, one shown server per listed one. */
  method TransformListing(response: seq<RawInstance>) returns (r: Option<seq<Instance>>)
    ensures r == TransformAll(response)
  {
    var shown: seq<Instance> := [];
    var i := 0;
    while i < |response|
      invariant 0 <= i <= |response|
      invariant TransformAll(response[..i]) == Some(shown) && |shown| == i
    {
      assert response[..i + 1][..i] == response[..i];
      var t := TransformInstance(response[i]);
      if t.None? {
        TransformAllFails(response, i + 1);
        return None;
      }
      shown := shown + [t.value];
      i := i + 1;
    }
    assert response[..i] == response;
    r := Some(shown);
  }

  /** The controller of the instances page. */
  class InstancesCtrl {
    /** The browser address. */
    const location: Location
    /** `ctrl.fields`. */
    var fields: seq<Field>
    /** `ctrl.columns`. */
    var columns: seq<string>
    /** `ctrl.pageOpts.fields`. */
    var pageFields: string
    /** `ctrl.pageOpts.cnt`. */
    var cnt: nat
    /** `ctrl.instances`. */
    var instances: seq<Instance>
    /** The params of each listing asked for, oldest first. */
    var requests: seq<Option<QueryCodec.Params>>
    /** `ctrl.updateTimer`, the refresh timer last scheduled. */
    var timer: Option<nat>
    /** The id the next timer gets. */
    var nextTimer: nat
    /** The timers cancelled, oldest first. */
    var cancelled: seq<nat>

    /** The controller as it is built, before the first digest fills the columns: it ends
        with `update()`, so one listing has been asked for with the params of the address,
        and there was no refresh to cancel. */
    constructor (location: Location)
      ensures this.location == location
      ensures fields == DefaultFields && columns == [] && pageFields == "" && cnt == 1
      ensures instances == [] && timer == None && nextTimer == 0
      ensures requests == [RequestParams(NotAnObject, location.url)] && cancelled == []
    {
      this.location := location;
      fields := DefaultFields;
      columns := [];
      pageFields := Join([], ",");
      cnt := 1;
      instances := [];
      requests := [];
      timer := None;
      nextTimer := 0;
      cancelled := [];
      new;
      Update(NotAnObject);
    }

    /** The deep watcher of `ctrl.fields`: rebuild the columns and the `fields` page option. */
    method RebuildColumns()
      modifies this
      ensures columns == ColumnKeys(fields) && pageFields == Join(columns, ",")
      ensures fields == old(fields) && cnt == old(cnt) && instances == old(instances) && requests == old(requests)
      ensures timer == old(timer) && nextTimer == old(nextTimer) && cancelled == old(cancelled)
    {
      var keys: seq<string> := [];
      var i := 0;
      while i < |fields|
        invariant 0 <= i <= |fields|
        invariant keys == ColumnKeys(fields[..i])
      {
        var field := fields[i];
        assert fields[..i + 1][..i] == fields[..i];
        if field.show || field.required {
          keys := keys + [field.key];
        }
        i := i + 1;
      }
      assert fields[..i] == fields;
      columns := keys;
      pageFields := Join(keys, ",");
    }

    /** The settings dialog showing or hiding a column, followed by the watcher. */
    method SetShow(index: nat, show: bool)
      requires index < |fields|
      modifies this
      ensures fields == old(fields)[index := old(fields)[index].(show := show)]
      ensures columns == ColumnKeys(fields) && pageFields == Join(columns, ",")
      ensures cnt == old(cnt) && instances == old(instances) && requests == old(requests)
      ensures timer == old(timer) && nextTimer == old(nextTimer) && cancelled == old(cancelled)
    {
      fields := fields[index := fields[index].(show := show)];
      RebuildColumns();
    }

    /** `update(params)`: cancel the pending refresh, then ask for the listing with the
        params of `RequestParams`. */
    method Update(arg: UpdateArg)
      modifies this
      ensures requests == old(requests) + [RequestParams(arg, location.url)]
      ensures cancelled == old(cancelled) + (if old(timer).Some? then [old(timer).value] else [])
      ensures fields == old(fields) && columns == old(columns) && pageFields == old(pageFields)
      ensures cnt == old(cnt) && instances == old(instances) && timer == old(timer) && nextTimer == old(nextTimer)
    {
      if timer.Some? {
        cancelled := cancelled + [timer.value];
      }
      var params: Option<QueryCodec.Params> := if arg.Params? then Some(arg.params) else None;
      if arg.NotAnObject? {
        var url := Href(location.url);
        HrefParts(location.url);
        if '?' in url {
          var query := Split(url, '?')[1];
          params := Some(Deserialize(query));
        }
      }
      requests := requests + [params];
    }

    /** The listing's answer: every server transformed, the page count, and the next
        refresh scheduled. When a server's addresses make the transformation fail, the
        callback stops there and nothing changes. */
    method OnServers(response: seq<RawInstance>) returns (ok: bool)
      modifies this
      ensures ok <==> TransformAll(response).Some?
      ensures ok ==> instances == TransformAll(response).value && |instances| == |response|
      ensures ok ==> cnt == PageCount(|response|, Limit) && timer == Some(old(nextTimer)) && nextTimer == old(nextTimer) + 1
      ensures !ok ==> instances == old(instances) && cnt == old(cnt) && timer == old(timer) && nextTimer == old(nextTimer)
      ensures fields == old(fields) && columns == old(columns) && pageFields == old(pageFields)
      ensures requests == old(requests) && cancelled == old(cancelled)
    {
      var shown := TransformListing(response);
      if shown.None? {
        return false;
      }
      instances := shown.value;
      cnt := (|instances| + Limit - 1) / Limit;
      timer := Some(nextTimer);
      nextTimer := nextTimer + 1;
      ok := true;
    }
  }
}
