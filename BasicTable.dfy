/** The `magicStSearch` link of the table: it keeps the free-text term and the facet query
    in the page address and hands the decoded params to the table's update callback. */
module BasicTable {
  import opened Wrappers
  import opened Strings
  import opened QueryCodec
  import opened Browser

  /** The arguments of one `updateInstances(query, params)` call; either may be undefined. */
  datatype Push = Push(query: Option<string>, params: Option<Params>)

  /** The address `updateInstances` pushes: the current path, with `?query` appended only
      when the query is a non-empty string. */
  function PushedUrl(u: Url, query: Option<string>): Url
  {
    Url(u.path, if query.Some? && query.value != "" then query else None)
  }

  /** The address after a handler that calls `updateInstances` with `push`, or does nothing. */
  function UrlAfter(u: Url, push: Option<Push>): Url
  {
    if push.Some? then PushedUrl(u, push.value.query) else u
  }

  /** The update-callback calls after a handler: one more call, with the push's params,
      when the callback is configured and the handler pushed. */
  function LogAfter(log: seq<Option<Params>>, push: Option<Push>, hasUpdate: bool): seq<Option<Params>>
  {
    if push.Some? && hasUpdate then log + [push.value.params] else log
  }

  /** `textRemoved`: without a query nothing happens; otherwise the address params minus
      `free`, re-serialized. */
  function TextRemovedPush(u: Url): Option<Push>
  {
    if u.query.None? then None
    else
      var params := Delete(Deserialize(QueryPart(u)), "free");
      Some(Push(Some(Serialize(params)), Some(params)))
  }

  /** `textSearch(text)`: only while the search input is empty. With a query, `free` is set
      to a non-empty `text` and the params re-serialized (an empty `text` leaves them as
      they are); without a query, a non-empty `text` becomes `free=text`, and an empty one
      pushes nothing but the path. */
  function TextSearchPush(u: Url, text: string, searchValue: string): Option<Push>
  {
    if searchValue != "" then None
    else if u.query.Some? then
      var decoded := Deserialize(QueryPart(u));
      var params := if text != "" then Set(decoded, "free", text) else decoded;
      Some(Push(Some(Serialize(params)), Some(params)))
    else if text != "" then Some(Push(Some("free=" + text), Some([("free", text)])))
    else Some(Push(None, None))
  }

  /** The query `searchUpdated(query)` pushes: the incoming query, followed by `&free=` and
      the address's free-text term when the address carries one. */
  function SearchUpdatedQuery(u: Url, query: string): string
  {
    var free := Get(UrlParams(u), "free");
    if u.query.Some? && free.Some? then query + "&free=" + free.value else query
  }

  /** `searchUpdated(query)` always pushes, with the decoded pushed query as params. */
  function SearchUpdatedPush(u: Url, query: string): Push
  {
    var q := SearchUpdatedQuery(u, query);
    Push(Some(q), Some(Deserialize(q)))
  }

  class MagicStSearch {
    /** The browser address, shared with the search widget. */
    const location: Location
    /** Whether the directive was given an `update` attribute naming a callback. */
    const hasUpdate: bool
    /** The params of each call to the update callback, oldest first. */
    var updates: seq<Option<Params>>

    constructor (location: Location, hasUpdate: bool)
      ensures this.location == location && this.hasUpdate == hasUpdate
      ensures updates == []
    {
      this.location := location;
      this.hasUpdate := hasUpdate;
      updates := [];
    }

    /** `updateInstances(query, params)`: push the path plus the query, then call the update
        callback with `params` if one is configured. */
    method UpdateInstances(query: Option<string>, params: Option<Params>)
      modifies this, location
      ensures location.url == PushedUrl(old(location.url), query)
      ensures updates == old(updates) + (if hasUpdate then [params] else [])
    {
      var href := Href(location.url);
      HrefParts(location.url);
      var path := href;
      if '?' in href {
        path := Split(href, '?')[0];
      }
      var address: Url := if query.Some? && |query.value| > 0 then Url(path, query) else Url(path, None);
      location.PushState(address);
      if hasUpdate {
        updates := updates + [params];
      }
    }

    /** The `textRemoved` listener. */
    method OnTextRemoved()
      modifies this, location
      ensures location.url == UrlAfter(old(location.url), TextRemovedPush(old(location.url)))
      ensures updates == LogAfter(old(updates), TextRemovedPush(old(location.url)), hasUpdate)
    {
      var href := Href(location.url);
      HrefParts(location.url);
      if '?' in href {
        var params := Deserialize(Split(href, '?')[1]);
        if Get(params, "free").Some? {
          params := Delete(params, "free");
        } else {
          DeleteAbsent(params, "free");
        }
        var query := Serialize(params);
        UpdateInstances(Some(query), Some(params));
      }
    }

    /** The `textSearch` listener; `searchValue` is the current text of the search input. */
    method OnTextSearch(text: string, searchValue: string)
      modifies this, location
      ensures location.url == UrlAfter(old(location.url), TextSearchPush(old(location.url), text, searchValue))
      ensures updates == LogAfter(old(updates), TextSearchPush(old(location.url), text, searchValue), hasUpdate)
    {
      if searchValue == "" {
        var query: Option<string> := None;
        var params: Option<Params> := None;
        var href := Href(location.url);
        HrefParts(location.url);
        if '?' in href {
          var decoded := Deserialize(Split(href, '?')[1]);
          if text != "" {
            decoded := Set(decoded, "free", text);
          }
          query := Some(Serialize(decoded));
          params := Some(decoded);
        } else if text != "" {
          query := Some("free=" + text);
          params := Some([("free", text)]);
        }
        UpdateInstances(query, params);
      }
    }

    /** The `searchUpdated` listener: a facet changed, so re-query with the facet query. */
    method OnSearchUpdated(query: string)
      modifies this, location
      ensures location.url == PushedUrl(old(location.url), Some(SearchUpdatedQuery(old(location.url), query)))
      ensures updates == LogAfter(old(updates), Some(SearchUpdatedPush(old(location.url), query)), hasUpdate)
    {
      var q := query;
      var href := Href(location.url);
      HrefParts(location.url);
      if '?' in href {
        var params := Deserialize(Split(href, '?')[1]);
        if Get(params, "free").Some? {
          q := q + "&free=" + Get(params, "free").value;
        }
      }
      UpdateInstances(Some(q), Some(Deserialize(q)));
    }
  }

  // ---- what the handlers promise about the address ----

  /** The params of an address `updateInstances` pushed with a serialized query are the
      serialized params, when these are clean and free of `?`. */
  lemma PushedParams(u: Url, p: Params)
    requires Clean(p) && FreeOf(p, '?')
    ensures UrlParams(PushedUrl(u, Some(Serialize(p)))) == p
  {
    SerializeFree(p, '?');
    RoundTrip(p);
    if Serialize(p) == "" {
      if |p| > 0 {
        SerializeNonEmpty(p);
      }
    }
  }

  /** The address params are clean and never hold `?`. */
  lemma UrlParamsClean(u: Url)
    ensures Clean(UrlParams(u)) && FreeOf(UrlParams(u), '?')
  {
    if u.query.Some? {
      DeserializeClean(QueryPart(u), '?');
    }
  }

  /** `textRemoved` acts only when the address has a query; it then drops `free`, keeps
      every other param with its value, and leaves the address carrying exactly those. */
  lemma TextRemovedDropsOnlyFree(u: Url)
    ensures TextRemovedPush(u).Some? <==> u.query.Some?
    ensures TextRemovedPush(u).Some? ==>
      var p := TextRemovedPush(u).value.params.value;
      && Get(p, "free").None?
      && (forall k :: k != "free" ==> Get(p, k) == Get(UrlParams(u), k))
      && UrlParams(UrlAfter(u, TextRemovedPush(u))) == p
  {
    if u.query.Some? {
      var p := TextRemovedPush(u).value.params.value;
      forall k ensures Get(p, k) == if k == "free" then None else Get(UrlParams(u), k) {
        DeleteGet(UrlParams(u), "free", k);
      }
      UrlParamsClean(u);
      DeleteClean(UrlParams(u), "free", '?');
      PushedParams(u, p);
    }
  }

  /** `textSearch` with a query and a non-empty text sets `free` to the text, keeps every
      other param, and the address then carries those params (for a text free of `&`, `=`
      and `?`). */
  lemma TextSearchSetsFree(u: Url, text: string)
    requires u.query.Some? && text != ""
    ensures TextSearchPush(u, text, "").Some?
    ensures
      var p := TextSearchPush(u, text, "").value.params.value;
      && Get(p, "free") == Some(text)
      && (forall k :: k != "free" ==> Get(p, k) == Get(UrlParams(u), k))
      && ('&' !in text && '=' !in text && '?' !in text ==> UrlParams(UrlAfter(u, TextSearchPush(u, text, ""))) == p)
  {
    var p := TextSearchPush(u, text, "").value.params.value;
    forall k ensures Get(p, k) == if k == "free" then Some(text) else Get(UrlParams(u), k) {
      SetGet(UrlParams(u), "free", text, k);
    }
    if '&' !in text && '=' !in text && '?' !in text {
      UrlParamsClean(u);
      SetClean(UrlParams(u), "free", text, '?');
      PushedParams(u, p);
    }
  }

  /** `textSearch` with a query and an empty text pushes the address params unchanged,
      an existing `free` included. */
  lemma TextSearchEmptyKeepsParams(u: Url)
    requires u.query.Some?
    ensures TextSearchPush(u, "", "").Some?
    ensures TextSearchPush(u, "", "").value.params == Some(UrlParams(u))
    ensures UrlParams(UrlAfter(u, TextSearchPush(u, "", ""))) == UrlParams(u)
  {
    UrlParamsClean(u);
    PushedParams(u, UrlParams(u));
  }

  /** `textSearch` without a query: a non-empty text makes the query `free=text` with
      params `{free: text}`; an empty text reduces the address to its path and calls the
      update with undefined params. */
  lemma TextSearchWithoutQuery(u: Url, text: string)
    requires u.query.None?
    ensures text != "" ==> TextSearchPush(u, text, "") == Some(Push(Some("free=" + text), Some([("free", text)])))
    ensures text != "" && '&' !in text && '=' !in text && '?' !in text ==> UrlParams(UrlAfter(u, TextSearchPush(u, text, ""))) == [("free", text)]
    ensures text == "" ==> UrlAfter(u, TextSearchPush(u, text, "")) == Url(u.path, None) && TextSearchPush(u, text, "").value.params.None?
  {
    if text != "" && '&' !in text && '=' !in text && '?' !in text {
      var p := [("free", text)];
      assert "free" + "=" + text == "free=" + text;
      assert Fragments(p)[0] == "free=" + text;
      assert Fragments(p) == ["free=" + text];
      assert Serialize(p) == "free=" + text;
      PushedParams(u, p);
    }
  }

  /** `textSearch` does nothing while the search input holds text. */
  lemma TextSearchNeedsEmptyInput(u: Url, text: string, searchValue: string)
    requires searchValue != ""
    ensures UrlAfter(u, TextSearchPush(u, text, searchValue)) == u
    ensures LogAfter([], TextSearchPush(u, text, searchValue), true) == []
  {
  }

  /** Pushing a non-empty query free of `?` leaves the address reading its decoding. */
  lemma PushedQueryParams(u: Url, q: string)
    requires q != "" && '?' !in q
    ensures UrlParams(PushedUrl(u, Some(q))) == Deserialize(q)
  {
  }

  /** The free-text term the address reads is clean and free of `?`. */
  lemma FreeTermClean(u: Url)
    requires Get(UrlParams(u), "free").Some?
    ensures var v := Get(UrlParams(u), "free").value; '&' !in v && '=' !in v && '?' !in v
  {
    UrlParamsClean(u);
    GetMember(UrlParams(u), "free");
    var i :| 0 <= i < |UrlParams(u)| && UrlParams(u)[i] == ("free", Get(UrlParams(u), "free").value);
  }

  /** The suffix `searchUpdated` appends is `&` followed by the fragment `free=term`. */
  lemma FreeSuffixShape(query: string, v: string)
    ensures query + "&free=" + v == query + "&" + "free" + "=" + v
  {
  }

  /** Appending `&free=term` to a non-empty query sets `free` after its own fragments. */
  lemma AppendFreeParams(query: string, v: string)
    requires query != ""
    requires '&' !in v && '=' !in v
    ensures Deserialize(query + "&free=" + v) == Set(Deserialize(query), "free", v)
  {
    FreeSuffixShape(query, v);
    DeserializeAppend(query, "free", v);
  }

  /** With a free-text term on the address, the pushed query is the facet query plus
      `&free=term`, free of `?`, and reads as the facet query with `free` set. */
  lemma SearchUpdatedWithFree(u: Url, query: string)
    requires query != "" && '?' !in query
    requires u.query.Some? && Get(UrlParams(u), "free").Some?
    ensures UrlParams(UrlAfter(u, Some(SearchUpdatedPush(u, query))))
      == Set(Deserialize(query), "free", Get(UrlParams(u), "free").value)
  {
    var v := Get(UrlParams(u), "free").value;
    var q := SearchUpdatedQuery(u, query);
    FreeTermClean(u);
    assert q == query + "&free=" + v;
    assert '?' !in q;
    PushedQueryParams(u, q);
    AppendFreeParams(query, v);
  }

  /** A facet change keeps the free-text term: after `searchUpdated(query)` with a
      non-empty facet query that names no `free` itself, the address reads the `free` it
      read before, and every other name reads as in the facet query. */
  lemma SearchUpdatedKeepsFree(u: Url, query: string)
    requires query != "" && '?' !in query
    requires Get(Deserialize(query), "free").None?
    ensures
      var after := UrlParams(UrlAfter(u, Some(SearchUpdatedPush(u, query))));
      && Get(after, "free") == Get(UrlParams(u), "free")
      && forall k :: k != "free" ==> Get(after, k) == Get(Deserialize(query), k)
  {
    var after := UrlParams(UrlAfter(u, Some(SearchUpdatedPush(u, query))));
    if u.query.Some? && Get(UrlParams(u), "free").Some? {
      var v := Get(UrlParams(u), "free").value;
      SearchUpdatedWithFree(u, query);
      forall k ensures Get(after, k) == if k == "free" then Some(v) else Get(Deserialize(query), k) {
        SetGet(Deserialize(query), "free", v, k);
      }
    } else {
      PushedQueryParams(u, query);
    }
  }
}
