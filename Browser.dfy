/** The page address shared by the search widget, the table and the instance list: a
    path and, after the first `?`, an optional query. The browser history is the one
    place where the address is written. */
module Browser {
  import opened Wrappers
  import opened Strings
  import opened QueryCodec

  /** An address split at its first `?`. */
  datatype RawUrl = Url(path: string, query: Option<string>)

  /** The path holds no `?`: the first `?` of the address starts the query. */
  type Url = u: RawUrl | '?' !in u.path witness Url("", None)

  /** `window.location.href`. */
  function Href(u: Url): string
  {
    if u.query.Some? then u.path + "?" + u.query.value else u.path
  }

  /** `window.location.search`: `?` and the query, or "" when the query is absent or empty. */
  function Search(u: Url): string
  {
    if u.query.Some? && u.query.value != "" then "?" + u.query.value else ""
  }

  /** `href.split('?')[1]`: the query up to a second `?`, if it has one. */
  function QueryPart(u: Url): string
    requires u.query.Some?
  {
    Split(u.query.value, '?')[0]
  }

  /** The params the current address carries (`deserialize(href.split('?')[1])`), empty
      when it has no query. */
  function UrlParams(u: Url): Params
  {
    if u.query.Some? then Deserialize(QueryPart(u)) else []
  }

  /** `href.indexOf('?') > -1` holds exactly when there is a query; then `split('?')[0]`
      is the path and `split('?')[1]` is `QueryPart`. Without a query the whole address
      is the path. */
  lemma HrefParts(u: Url)
    ensures ('?' in Href(u)) <==> u.query.Some?
    ensures Split(Href(u), '?')[0] == u.path
    ensures u.query.Some? ==> |Split(Href(u), '?')| > 1 && Split(Href(u), '?')[1] == QueryPart(u)
  {
    if u.query.Some? {
      SplitAtSeparator(u.path, u.query.value, '?');
      assert u.path + "?" + u.query.value == u.path + ['?'] + u.query.value;
      assert '?' in Href(u) by {
        assert Href(u)[|u.path|] == '?';
      }
    }
  }

  /** The address of the browser window. */
  class Location {
    var url: Url

    constructor (url: Url)
      ensures this.url == url
    {
      this.url := url;
    }

    /** `window.history.pushState(state, '', address)`: the new address becomes current. */
    method PushState(address: Url)
      modifies this
      ensures url == address
    {
      url := address;
    }
  }
}
