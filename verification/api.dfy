/** The generic API client (`API` in readitlater.py): every call is an HTTP
    GET of the base URL followed by the method name, carrying the caller's
    truthy parameters with the stored settings laid over them. */
module Api {
  import opened Values

  /** The client's default base URL. */
  const DefaultUrl: string := "https://readitlaterlist.com/v2/"

  datatype Client = Client(settings: map<string, string>, url: string)

  /** One GET request: the full target URL and its query parameters. */
  datatype Request = Request(target: string, params: map<string, Value>)

  /** A saved article as the `list` member of a response carries it. */
  datatype Article = Article(timeAdded: Value, title: string, url: string)

  /** A parsed response body: either one with a `list` member (whose
      values, in the order the dictionary yields them, are `items`) or any
      other JSON document. */
  datatype Body = ArticleList(items: seq<Article>) | OtherBody

  /** What the client hands back: the success flag, the headers in the
      order received, and the parsed body, absent when the content is not
      JSON. */
  datatype Response = Response(ok: bool, headers: seq<(string, string)>, json: Option<Body>)

  /** The query parameters actually sent: the caller's parameters without
      the falsy ones, then every stored setting on top. */
  function Params(given: map<string, Value>, settings: map<string, string>): (p: map<string, Value>)
    ensures forall k :: k in settings ==> k in p && p[k] == Text(settings[k])
    ensures forall k :: k in given && k !in settings ==> (k in p <==> Truthy(given[k]))
    ensures forall k :: k in given && k !in settings && Truthy(given[k]) ==> p[k] == given[k]
    ensures forall k :: k in p ==> k in given || k in settings
  {
    var kept := map k | k in given && Truthy(given[k]) :: given[k];
    kept + map k | k in settings :: Text(settings[k])
  }

  /** Every stored setting travels with the request under its own name. */
  predicate Authenticated(r: Request, settings: map<string, string>)
  {
    forall k :: k in settings ==> k in r.params && r.params[k] == Text(settings[k])
  }

  /** `API.request(name, **given)`: the request it sends. */
  function Call(client: Client, name: string, given: map<string, Value>): (r: Request)
    ensures |r.target| == |client.url| + |name|
    ensures r.target[..|client.url|] == client.url && r.target[|client.url|..] == name
    ensures r.params == Params(given, client.settings)
    ensures Authenticated(r, client.settings)
  {
    Request(client.url + name, Params(given, client.settings))
  }

  /** Whether `client.name` reaches `__getattr__` and becomes a request
      method: names with a leading underscore and `trait_names` are
      refused, and the instance's own attributes shadow the dispatch. */
  predicate Forwarded(name: string)
    ensures "_" <= name ==> !Forwarded(name)
    ensures name in {"add", "get", "api"} ==> Forwarded(name)
  {
    && !(|name| > 0 && name[0] == '_')
    && name != "trait_names"
    && name !in {"request", "settings", "url"}
  }

  /** `client.name(**given)` through the open-ended dispatch: `None` when
      the attribute lookup does not produce a request method. */
  function Invoke(client: Client, name: string, given: map<string, Value>): (r: Option<Request>)
    ensures r.Some? <==> Forwarded(name)
    ensures r.Some? ==> r.value.target == client.url + name
    ensures r.Some? ==> Authenticated(r.value, client.settings)
  {
    if Forwarded(name) then Some(Call(client, name, given)) else None
  }

  /** `response.headers[name]`: the first header with that name, if any. */
  function Header(headers: seq<(string, string)>, name: string): (r: Option<string>)
    ensures r.None? <==> forall i :: 0 <= i < |headers| ==> headers[i].0 != name
    ensures r.Some? ==> exists i :: 0 <= i < |headers| && headers[i] == (name, r.value)
    decreases |headers|
  {
    if |headers| == 0 then None
    else if headers[0].0 == name then Some(headers[0].1)
    else
      var rest := Header(headers[1..], name);
      assert forall i :: 1 <= i < |headers| ==> headers[i] == headers[1..][i - 1];
      rest
  }
}
