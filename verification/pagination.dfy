/** Collection of a paginated GitHub listing: the first page is fetched, its
    content is kept, and the next page is fetched from the Link header's
    "next" URL until a page has none. The HTTP server is a map from request
    URL to its response; a URL with no entry is a failed request. */
module Pagination {
  import opened Wrappers
  import opened Strings
  import opened LinkHeader

  /** A response: its decoded body and its Link header, if any. */
  datatype Response<T> = Response(content: seq<T>, link: Option<string>)

  /** How a generation finds the next URL in the Link header: the first
      "next" entry (current and `releasenotes` services) or the "next" entry
      of RegexLinkParser's map (`releasenotesgenerator` service). */
  datatype NextRule = FirstNextEntry | ParsedMap

  datatype FetchError =
    | NoResponse(url: string)  // the request failed
    | TooManyPages             // the chain of pages outran the fuel

  function NextUrl(rule: NextRule, link: Option<string>): Option<string> {
    var links := MatchAll(Entries(link));
    match rule
    case FirstNextEntry => FirstNext(links)
    case ParsedMap => ParsedNext(links)
  }

  /** getPage: a blank or absent URL means there is no page. */
  predicate NoPage(url: Option<string>) {
    url.None? || !HasText(url.value)
  }

  /** getPage: no page for a blank URL, otherwise the server's response. */
  function GetPage<T>(server: map<string, Response<T>>, url: Option<string>): (r: Result<Option<Response<T>>, FetchError>)
    ensures NoPage(url) <==> r == Success(None)
    ensures r.Failure? <==> !NoPage(url) && url.value !in server
    ensures r.Success? && r.value.Some? ==> url.Some? && url.value in server && r.value.value == server[url.value]
  {
    if NoPage(url) then Success(None)
    else if url.value !in server then Failure(NoResponse(url.value))
    else Success(Some(server[url.value]))
  }

  /** The pages reachable from `url` within `fuel` requests, their contents
      concatenated in request order. */
  function Collect<T>(server: map<string, Response<T>>, next: Option<string> -> Option<string>, url: Option<string>, fuel: nat): (r: Result<seq<T>, FetchError>)
    ensures NoPage(url) ==> r == Success([])
    ensures r.Success? && !NoPage(url) ==> url.value in server && server[url.value].content <= r.value
    ensures !NoPage(url) && url.value !in server ==> r == Failure(NoResponse(url.value))
    decreases fuel
  {
    match GetPage(server, url)
    case Failure(e) => Failure(e)
    case Success(None) => Success([])
    case Success(Some(page)) =>
      if fuel == 0 then Failure(TooManyPages)
      else
        match Collect(server, next, next(page.link), fuel - 1)
        case Failure(e) => Failure(e)
        case Success(rest) => Success(page.content + rest)
  }

  /** The last step of a generate: the content of a fetched listing, or the
      fetch error wrapped into the generator's own error. */
  function ContentOf<T, E>(listing: Result<T, FetchError>, wrap: FetchError -> E,
                           content: T -> Result<string, E>): Result<string, E> {
    match listing
    case Failure(e) => Failure(wrap(e))
    case Success(v) => content(v)
  }

  /** `acc` in front of a collection result. */
  function After<T>(acc: seq<T>, r: Result<seq<T>, FetchError>): Result<seq<T>, FetchError> {
    match r
    case Failure(e) => Failure(e)
    case Success(v) => Success(acc + v)
  }

  lemma AfterAfter<T>(a: seq<T>, b: seq<T>, r: Result<seq<T>, FetchError>)
    ensures After(a, After(b, r)) == After(a + b, r)
    ensures After([], r) == r
  {
    if r.Success? {
      assert a + (b + r.value) == (a + b) + r.value;
      assert [] + r.value == r.value;
    }
  }

  /** getAll: the loop that keeps every page's content while a next page exists. */
  method GetAll<T>(server: map<string, Response<T>>, next: Option<string> -> Option<string>, url: Option<string>, fuel: nat)
    returns (r: Result<seq<T>, FetchError>)
    ensures r == Collect(server, next, url, fuel)
  {
    var all: seq<T> := [];
    var cur := url;
    var left := fuel;
    AfterAfter(all, all, Collect(server, next, url, fuel));
    while true
      invariant Collect(server, next, url, fuel) == After(all, Collect(server, next, cur, left))
      decreases left
    {
      var page := GetPage(server, cur);
      if page.Failure? {
        return Failure(page.error);
      }
      if page.value.None? {
        assert all + [] == all;
        return Success(all);
      }
      if left == 0 {
        return Failure(TooManyPages);
      }
      var content := page.value.value.content;
      var rest := Collect(server, next, next(page.value.value.link), left - 1);
      assert Collect(server, next, cur, left) == After(content, rest);
      AfterAfter(all, content, rest);
      all := all + content;
      cur := next(page.value.value.link);
      left := left - 1;
    }
  }

  /** More fuel never changes a completed collection. */
  lemma {:induction false} CollectMoreFuel<T>(server: map<string, Response<T>>, next: Option<string> -> Option<string>, url: Option<string>, fuel: nat, more: nat)
    requires Collect(server, next, url, fuel).Success? && fuel <= more
    ensures Collect(server, next, url, more) == Collect(server, next, url, fuel)
    decreases fuel
  {
    if !NoPage(url) && url.value in server {
      var page := server[url.value];
      CollectMoreFuel(server, next, next(page.link), fuel - 1, more - 1);
    }
  }

  /** A page pointing to a second page that points nowhere: the result is
      both contents in request order. */
  lemma TwoPageChain<T>(server: map<string, Response<T>>, next: Option<string> -> Option<string>,
                        url: string, fuel: nat)
    requires fuel >= 2 && HasText(url) && url in server
    requires var second := next(server[url].link);
             !NoPage(second) && second.value in server && NoPage(next(server[second.value].link))
    ensures Collect(server, next, Some(url), fuel)
         == Success(server[url].content + server[next(server[url].link).value].content)
  {
    var second := next(server[url].link).value;
    var tail := next(server[second].link);
    assert Collect(server, next, tail, fuel - 2) == Success([]);
    assert server[second].content + [] == server[second].content;
  }

  /** The two-page scenario of the service tests: a first page whose header
      points to "page-two" and a second page without a header give both
      contents in order, whichever rule reads the header. */
  lemma TwoPagesConcatenate<T>(first: seq<T>, second: seq<T>, rule: NextRule, fuel: nat)
    requires fuel >= 2
    ensures var server := map["first" := Response(first, Some(PageTwoHeader)), "page-two" := Response(second, None)];
            Collect(server, link => NextUrl(rule, link), Some("first"), fuel) == Success(first + second)
  {
    var server := map["first" := Response(first, Some(PageTwoHeader)), "page-two" := Response(second, None)];
    var next := link => NextUrl(rule, link);
    PageTwoIsNext(rule);
    NoHeaderNoNext(rule);
    UrlsHaveText();
    TwoPageChain(server, next, "first", fuel);
  }

  lemma PageTwoIsNext(rule: NextRule)
    ensures NextUrl(rule, Some(PageTwoHeader)) == Some("page-two")
  {
    SingleNextLink();
  }

  lemma UrlsHaveText()
    ensures HasText("first") && HasText("page-two")
  {
    assert !IsWhitespace("first"[0]);
    assert !IsWhitespace("page-two"[0]);
  }

  /** A response without a Link header has no next page. */
  lemma NoHeaderNoNext(rule: NextRule)
    ensures NextUrl(rule, None) == None
  {
    assert Entries(None) == [];
    assert MatchAll([]) == [];
  }
}
