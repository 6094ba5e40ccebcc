/** The command handlers. Each receives the API client and a `server`
    standing for the network: the response it would return to a request.
    Each returns what it sent and what it printed. */
module Commands {
  import opened Values
  import opened Seqs
  import opened Strings
  import opened Sorting
  import opened Api
  import opened Output

  /** Articles are sorted by their raw `time_added` value. */
  const ByTimeAdded: Article -> Value := (a: Article) => a.timeAdded

  /** Header pairs are sorted by name. */
  const ByName: ((string, string)) -> Value := (h: (string, string)) => Text(h.0)

  /** `print res.headers['status']`. */
  function StatusReport(res: Response): (out: seq<Record>)
    ensures |out| == 1
    ensures out[0].Status? <==> exists i :: 0 <= i < |res.headers| && res.headers[i].0 == "status"
    ensures out[0].Status? ==> exists i :: 0 <= i < |res.headers| && res.headers[i] == ("status", out[0].line)
    ensures !out[0].Status? ==> out[0] == Crash(NoStatusHeader)
  {
    match Header(res.headers, "status")
    case Some(line) => [Status(line)]
    case None => [Crash(NoStatusHeader)]
  }

  /** `res.json.list.values()`, or `None` where that lookup raises. */
  function ArticlesOf(res: Response): (r: Option<seq<Article>>)
    ensures r.Some? <==> res.json.Some? && res.json.value.ArticleList?
    ensures r.Some? ==> r.value == res.json.value.items
  {
    if res.json.Some? && res.json.value.ArticleList? then Some(res.json.value.items) else None
  }

  /** `add_command`: one `add` request carrying the URL. */
  function AddCommand(client: Client, url: string, server: Request -> Response): (o: Outcome)
    ensures |o.requests| == 1 && o.written.None?
    ensures o.requests[0].target == client.url + "add"
    ensures Authenticated(o.requests[0], client.settings)
    ensures "url" !in client.settings ==> ("url" in o.requests[0].params <==> url != "")
    ensures "url" !in client.settings && url != "" ==> o.requests[0].params["url"] == Text(url)
    ensures o.output == if server(o.requests[0]).ok then [] else [AddFailed]
  {
    var req := Call(client, "add", map["url" := Text(url)]);
    Outcome([req], if server(req).ok then [] else [AddFailed], None)
  }

  /** The options of the `list` command as argparse hands them over. */
  datatype ListArgs = ListArgs(count: Value, since: Value, reverse: bool)

  /** The request `list_command` sends: a `get` with `count` (10 when
      not given) and `since` (dropped when not given). */
  function ListRequest(client: Client, args: ListArgs): (req: Request)
    ensures req.target == client.url + "get"
    ensures Authenticated(req, client.settings)
    ensures "count" !in client.settings ==>
      "count" in req.params && req.params["count"] == if Truthy(args.count) then args.count else Int(10)
    ensures "since" !in client.settings ==>
      && ("since" in req.params <==> Truthy(args.since))
      && (Truthy(args.since) ==> req.params["since"] == args.since)
  {
    var count := if Truthy(args.count) then args.count else Int(10);
    var since := if Truthy(args.since) then args.since else Null;
    Call(client, "get", map["count" := count, "since" := since])
  }

  /** What `list_command` prints for a response: on success every
      article, sorted by `time_added`, descending when `reverse` is set;
      otherwise the status line. */
  function ListOutput(res: Response, reverse: bool): (out: seq<Record>)
    ensures res.ok && ArticlesOf(res).Some? ==>
      && |out| == 1 && out[0].Articles?
      && SortedBy(out[0].items, ByTimeAdded, reverse)
      && multiset(out[0].items) == multiset(ArticlesOf(res).value)
    ensures res.ok && ArticlesOf(res).None? ==> out == [Crash(NoArticleList)]
    ensures !res.ok ==> out == StatusReport(res)
  {
    if !res.ok then StatusReport(res)
    else match ArticlesOf(res)
      case Some(items) => [Articles(Sort(items, ByTimeAdded, reverse))]
      case None => [Crash(NoArticleList)]
  }

  /** `list_command`: one authenticated `get` with the defaulted `count`
      and `since`; on success the returned articles in order, otherwise
      the status line. */
  function ListCommand(client: Client, args: ListArgs, server: Request -> Response): (o: Outcome)
    ensures |o.requests| == 1 && o.written.None?
    ensures o.requests[0].target == client.url + "get"
    ensures Authenticated(o.requests[0], client.settings)
    ensures "count" !in client.settings ==>
      "count" in o.requests[0].params
      && o.requests[0].params["count"] == if Truthy(args.count) then args.count else Int(10)
    ensures "since" !in client.settings ==> ("since" in o.requests[0].params <==> Truthy(args.since))
    ensures var res := server(o.requests[0]);
            res.ok && ArticlesOf(res).Some? ==>
              && |o.output| == 1 && o.output[0].Articles?
              && SortedBy(o.output[0].items, ByTimeAdded, args.reverse)
              && multiset(o.output[0].items) == multiset(ArticlesOf(res).value)
    ensures var res := server(o.requests[0]);
            res.ok && ArticlesOf(res).None? ==> o.output == [Crash(NoArticleList)]
    ensures !server(o.requests[0]).ok ==> o.output == StatusReport(server(o.requests[0]))
  {
    var req := ListRequest(client, args);
    Outcome([req], ListOutput(server(req), args.reverse), None)
  }

  /** `read_command`: fetches the page itself, bypassing the API, so the
      request carries no parameters and no credentials. */
  function ReadCommand(url: string, server: Request -> Response): (o: Outcome)
    ensures |o.requests| == 1 && o.written.None? && |o.output| == 1
    ensures o.requests[0].target == url
    ensures forall k :: k !in o.requests[0].params
    ensures o.output[0] == PageText <==> server(o.requests[0]).ok
    ensures var res := server(o.requests[0]);
            o.output[0].Status? <==> !res.ok && exists i :: 0 <= i < |res.headers| && res.headers[i].0 == "status"
    ensures o.output[0].Crash? ==> o.output[0].fault == NoStatusHeader
    ensures !server(o.requests[0]).ok ==> o.output == StatusReport(server(o.requests[0]))
  {
    var req := Request(url, map[]);
    var res := server(req);
    Outcome([req], if res.ok then [PageText] else StatusReport(res), None)
  }

  /** An article matches when the query occurs in its URL and title joined
      by a space. */
  predicate Matches(query: string, a: Article)
    ensures Matches(query, a) <==> Contains(a.url + " " + a.title, query)
    ensures query == "" ==> Matches(query, a)
  {
    Contains(Join(" ", [a.url, a.title]), query)
  }

  lemma MatchesIffOccurs(query: string, a: Article)
    ensures Matches(query, a) <==> exists i :: OccursAt(a.url + " " + a.title, query, i)
  {
    assert Join(" ", [a.url, a.title]) == a.url + " " + a.title;
    ContainsIffOccurs(a.url + " " + a.title, query);
  }

  /** The articles `search_command` prints: the matching ones, each as
      often as it was returned, in ascending `time_added` order, picked
      out of the ascending sort without reordering. */
  function SearchResults(items: seq<Article>, query: string): (r: seq<Article>)
    ensures SortedBy(r, ByTimeAdded, false)
    ensures forall i :: 0 <= i < |r| ==> Matches(query, r[i])
    ensures forall a :: multiset(r)[a] == if Matches(query, a) then multiset(items)[a] else 0
    ensures Subseq(r, Sort(items, ByTimeAdded, false))
  {
    var sorted := Sort(items, ByTimeAdded, false);
    var r := Filter(a => Matches(query, a), sorted);
    SubseqSorted(r, sorted, ByTimeAdded, false);
    r
  }

  /** `search_command`: one `get` request with no parameters of its own,
      whose response is used without checking the status. */
  function SearchCommand(client: Client, query: string, server: Request -> Response): (o: Outcome)
    ensures |o.requests| == 1 && o.written.None?
    ensures o.requests[0].target == client.url + "get"
    ensures o.requests[0].params.Keys == client.settings.Keys
    ensures Authenticated(o.requests[0], client.settings)
    ensures var res := server(o.requests[0]);
            ArticlesOf(res).Some? ==> o.output == [Articles(SearchResults(ArticlesOf(res).value, query))]
    ensures ArticlesOf(server(o.requests[0])).None? ==> o.output == [Crash(NoArticleList)]
  {
    var req := Call(client, "get", map[]);
    var res := server(req);
    var out := match ArticlesOf(res)
      case Some(items) => [Articles(SearchResults(items, query))]
      case None => [Crash(NoArticleList)];
    Outcome([req], out, None)
  }

  /** `k.startswith('x-limit')`: the name is `x-limit` followed by the rest. */
  predicate IsLimitHeader(h: (string, string))
    ensures IsLimitHeader(h) ==> |h.0| >= 7 && h.0 == "x-limit" + h.0[7..]
  {
    |h.0| >= 7 && h.0[..7] == "x-limit"
  }

  /** `k[8:]`: empty when the name is shorter than that. */
  function AfterPrefix(name: string): (rest: string)
    ensures |rest| == if |name| >= 8 then |name| - 8 else 0
    ensures forall i :: 0 <= i < |rest| ==> rest[i] == name[i + 8]
  {
    if |name| >= 8 then name[8..] else ""
  }

  /** Every name of the form `x-limit...` passes the prefix test. */
  lemma PrefixedIsLimitHeader(rest: string, value: string)
    ensures IsLimitHeader(("x-limit" + rest, value))
  {
    assert ("x-limit" + rest)[..7] == "x-limit";
  }

  /** `' '.join(k[8:].split('-')) + ':'`. */
  function Label(name: string): (text: string)
    ensures |text| == |AfterPrefix(name)| + 1 && text[|text| - 1] == ':'
    ensures forall i :: 0 <= i < |text| - 1 ==> text[i] == if name[i + 8] == '-' then ' ' else name[i + 8]
    ensures '-' !in text
  {
    JoinSplitIsReplace(AfterPrefix(name), '-', ' ');
    Join(" ", Split(AfterPrefix(name), '-')) + ":"
  }

  /** The headers the `limit` report covers, in ascending name order. */
  function LimitHeaders(headers: seq<(string, string)>): (sel: seq<(string, string)>)
    ensures SortedBy(sel, ByName, false)
    ensures forall h :: h in sel <==> h in headers && IsLimitHeader(h)
    ensures forall h :: multiset(sel)[h] == if IsLimitHeader(h) then multiset(headers)[h] else 0
  {
    var sorted := Sort(headers, ByName, false);
    var sel := Filter(IsLimitHeader, sorted);
    SubseqSorted(sel, sorted, ByName, false);
    assert forall h :: h in sorted <==> h in headers by {
      forall h ensures h in sorted <==> h in headers {
        assert h in sorted <==> multiset(sorted)[h] > 0;
        assert h in headers <==> multiset(headers)[h] > 0;
      }
    }
    sel
  }

  /** The lines `limit_command` prints for the selected headers: one per
      header, in the same order, with the reformatted label and the
      header's value. */
  function LimitReport(sel: seq<(string, string)>): (lines: seq<LimitLine>)
    ensures |lines| == |sel|
    ensures forall i :: 0 <= i < |lines| ==> lines[i].text == Label(sel[i].0) && lines[i].value == sel[i].1
    ensures forall i :: 0 <= i < |lines| ==> '-' !in lines[i].text
  {
    seq(|sel|, i requires 0 <= i < |sel| => LimitLine(Label(sel[i].0), sel[i].1))
  }

  /** `limit_command`: one `api` request, reported from its headers alone
      whatever its status. */
  function LimitCommand(client: Client, server: Request -> Response): (o: Outcome)
    ensures |o.requests| == 1 && o.written.None?
    ensures o.requests[0].target == client.url + "api"
    ensures Authenticated(o.requests[0], client.settings)
    ensures o.output == [Limits(LimitReport(LimitHeaders(server(o.requests[0]).headers)))]
  {
    var req := Call(client, "api", map[]);
    Outcome([req], [Limits(LimitReport(LimitHeaders(server(req).headers)))], None)
  }

  /** The prefix test looks at seven characters but the label drops
      eight, so the character after `x-limit` is lost whatever it is. */
  lemma PrefixDropsEighthChar(name: string)
    requires name == "x-limitq-a"
    ensures IsLimitHeader((name, "5")) && Label(name) == " a:"
  {
    var text := Label(name);
    assert |text| == 3;
    assert text[0] == ' ' && text[1] == 'a';
  }

  /** Searching for `foo` finds the article whose URL contains it and
      not the other one. */
  lemma SearchExample(a: Article, b: Article)
    requires a == Article(Int(1), "Bar", "http://x.com")
    requires b == Article(Int(2), "Baz", "http://foo.com")
    ensures !Matches("foo", a)
    ensures Matches("foo", b)
  {
    var s := a.url + " " + a.title;
    assert 'f' !in s by {
      assert 'f' !in a.url && 'f' !in a.title;
    }
    LacksFirstChar(s, "foo");
    var t := b.url + " " + b.title;
    assert t[7..10] == b.url[7..10] == "foo";
    assert OccursAt(t, "foo", 7);
    ContainsIffOccurs(t, "foo");
  }

  /** `x-limit-user-limit` is reported as `user limit:`. */
  lemma LabelExample(name: string)
    requires name == "x-limit-user-limit"
    ensures Label(name) == "user limit:"
  {
    var a := Label(name);
    assert |a| == 11;
    forall i | 0 <= i < 10 ensures a[i] == "user limit:"[i] {
      assert a[i] == if name[i + 8] == '-' then ' ' else name[i + 8];
    }
  }

  /** `x-limit-user-remaining` is reported as `user remaining:`. */
  lemma RemainingLabelExample(name: string)
    requires name == "x-limit-user-remaining"
    ensures Label(name) == "user remaining:"
  {
    var a := Label(name);
    assert |a| == 15;
    forall i | 0 <= i < 14 ensures a[i] == "user remaining:"[i] {
      assert a[i] == if name[i + 8] == '-' then ' ' else name[i + 8];
    }
  }
}
