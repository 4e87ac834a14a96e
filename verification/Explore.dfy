/**
  The explore controller's paged list. A page is shown from the cache and again from the network
  response, either in place or at the end, and the response is found its place by the page digit of
  the request's URL.
 */
module Explore {
  import opened Wrappers

  datatype Photo = Photo(id: string, imageUrl: string, title: string)

  const ITEMS_PER_PAGE := 10

  // ---------- URLs ----------

  const BASE_URL := "https://api.flickr.com/services/rest/"

  datatype Param = Param(name: string, value: string)

  function QueryString(ps: seq<Param>): string {
    if ps == [] then "" else ps[0].name + "=" + ps[0].value + "&" + QueryString(ps[1..])
  }

  /** The digits of a number. */
  function Decimal(n: nat): (s: string)
    ensures s != "" && forall k :: 0 <= k < |s| ==> '0' <= s[k] <= '9'
  {
    if n < 10 then ['0' + n as char] else Decimal(n / 10) + ['0' + (n % 10) as char]
  }

  function ToString(n: int): (s: string)
    ensures s != "" && '=' !in s && '&' !in s
  {
    if n < 0 then "-" + Decimal(-n) else Decimal(n)
  }

  /** The parameters before the page number. */
  function FirstParams(apiKey: string): seq<Param> {
    [Param("method", "flickr.interestingness.getList"), Param("api_key", apiKey),
     Param("format", "json"), Param("nojsoncallback", "1")]
  }

  function ConstructUrl(apiKey: string, page: int): string {
    BASE_URL + "?" + QueryString(
      FirstParams(apiKey) + [Param("page", ToString(page)), Param("per_page", ToString(ITEMS_PER_PAGE))])
  }

  /** Where a text first occurs from a position on. */
  function Find(s: string, t: string, i: nat): (r: Option<nat>)
    ensures r.Some? ==> i <= r.value && r.value + |t| <= |s| && s[r.value..r.value + |t|] == t
    decreases |s| - i
  {
    if i + |t| > |s| then None
    else if s[i..i + |t|] == t then Some(i)
    else Find(s, t, i + 1)
  }

  /** What is read as the page: nothing without a parameter, an exception without a digit. */
  datatype PageRead = NoPage | Unreadable | Digit(page: nat)

  /** Only one character is read. */
  function PageOf(url: string): PageRead {
    match Find(url, "page=", 0)
    case None => NoPage
    case Some(k) =>
      if k + 5 < |url| && '0' <= url[k + 5] <= '9' then Digit((url[k + 5] - '0') as nat) else Unreadable
  }

  lemma {:induction false} FindMeans(s: string, t: string, i: nat, k: nat)
    requires i <= |s|
    ensures Find(s, t, i) == Some(k) <==>
            i <= k && OccursAt(s, t, k) && forall j :: i <= j < k ==> !OccursAt(s, t, j)
    decreases |s| - i
  {
    assert OccursAt(s, t, i) <==> i + |t| <= |s| && s[i..i + |t|] == t;
    if i < |s| {
      FindMeans(s, t, i + 1, k);
    }
  }

  predicate OccursAt(s: string, t: string, k: nat) {
    k + |t| <= |s| && s[k..k + |t|] == t
  }

  /** The one character behind the first "page=" of any URL decides. */
  lemma PageMeans(url: string, d: nat)
    ensures PageOf(url) == NoPage <==> forall k: nat :: !OccursAt(url, "page=", k)
    ensures PageOf(url) == Digit(d) <==>
            exists k: nat ::
              && OccursAt(url, "page=", k) && (forall j: nat :: j < k ==> !OccursAt(url, "page=", j))
              && k + 5 < |url| && d <= 9 && url[k + 5] == "0123456789"[d]
  {
    forall k: nat ensures Find(url, "page=", 0) == Some(k) <==>
                          OccursAt(url, "page=", k) && forall j: nat :: j < k ==> !OccursAt(url, "page=", j) {
      FindMeans(url, "page=", 0, k);
    }
    if Find(url, "page=", 0).None? {
      NowhereFound(url, "page=", 0);
    }
    assert d <= 9 ==> "0123456789"[d] as int == '0' as int + d;
  }

  lemma {:induction false} NowhereFound(s: string, t: string, i: nat)
    requires Find(s, t, i).None?
    ensures forall k: nat :: i <= k ==> !OccursAt(s, t, k)
    decreases |s| - i
  {
    if i + |t| <= |s| {
      NowhereFound(s, t, i + 1);
      forall k: nat | i <= k ensures !OccursAt(s, t, k) {
      }
    }
  }

  /** No equals sign stands directly after a letter e. */
  predicate NoName(s: string) {
    forall k :: 0 < k < |s| && s[k] == '=' ==> s[k - 1] != 'e'
  }

  lemma NoNameJoin(a: string, b: string)
    requires NoName(a) && NoName(b) && (b != "" && b[0] == '=' && a != "" ==> a[|a| - 1] != 'e')
    ensures NoName(a + b)
  {
  }

  lemma {:induction false} QueryJoin(a: seq<Param>, b: seq<Param>)
    ensures QueryString(a + b) == QueryString(a) + QueryString(b)
  {
    if a == [] {
      assert a + b == b;
    } else {
      assert (a + b)[1..] == a[1..] + b;
      QueryJoin(a[1..], b);
    }
  }

  predicate Unlike(p: Param) {
    p.name != "" && p.name[|p.name| - 1] != 'e' && '=' !in p.name && '=' !in p.value
  }

  lemma {:induction false} QueryHasNoName(ps: seq<Param>)
    requires forall k :: 0 <= k < |ps| ==> Unlike(ps[k])
    ensures NoName(QueryString(ps))
  {
    if ps != [] {
      QueryHasNoName(ps[1..]);
      assert Unlike(ps[0]);
      NoNameJoin(ps[0].name, "=");
      NoNameJoin(ps[0].name + "=", ps[0].value);
      NoNameJoin(ps[0].name + "=" + ps[0].value, "&");
      NoNameJoin(ps[0].name + "=" + ps[0].value + "&", QueryString(ps[1..]));
    }
  }

  lemma FirstParamsAreUnlike(apiKey: string)
    requires '=' !in apiKey
    ensures forall k :: 0 <= k < 4 ==> Unlike(FirstParams(apiKey)[k])
  {
  }

  lemma BaseHasNoName()
    ensures NoName(BASE_URL + "?")
  {
  }

  /** What comes before the page number, and what comes after it. */
  function UrlStart(apiKey: string): string {
    BASE_URL + "?" + QueryString(FirstParams(apiKey))
  }

  function UrlEnd(): string {
    "&" + QueryString([Param("per_page", ToString(ITEMS_PER_PAGE))])
  }

  lemma UrlParts(apiKey: string, page: int)
    requires '=' !in apiKey
    ensures ConstructUrl(apiKey, page) == UrlStart(apiKey) + "page=" + (ToString(page) + UrlEnd())
    ensures NoName(UrlStart(apiKey) + "page")
  {
    hide NoName, Unlike, ToString;
    var ps := FirstParams(apiKey);
    var number, size := Param("page", ToString(page)), Param("per_page", ToString(ITEMS_PER_PAGE));
    FirstParamsAreUnlike(apiKey);
    QueryHasNoName(ps);
    BaseHasNoName();
    StartJoins(QueryString(ps));
    hide FirstParams;
    QueryJoin(ps, [number, size]);
    assert [number, size][1..] == [size];
    assert QueryString([number, size]) == "page=" + (ToString(page) + UrlEnd());
  }

  lemma StartJoins(query: string)
    requires NoName(query) && NoName(BASE_URL + "?") && (query != "" ==> query[0] != '=')
    ensures NoName(BASE_URL + "?" + query + "page")
  {
  }

  lemma {:induction false} FindsFirst(url: string, start: string, i: nat)
    requires i <= |start| && start + "page=" <= url && NoName(start + "page")
    ensures Find(url, "page=", i) == Some(|start|)
    decreases |start| - i
  {
    if i < |start| {
      var u, w := start + "page", url[i..i + 5];
      assert w[3] == u[i + 3] && w[4] == u[i + 4];
      assert u[i + 4] == '=' ==> u[i + 3] != 'e';
      assert w != "page=";
      FindsFirst(url, start, i + 1);
    } else {
      assert url[|start|..|start| + 5] == "page=";
    }
  }

  /** The first digit of a number. */
  function FirstDigit(n: nat): (d: nat)
    ensures d <= 9 && (n <= 9 ==> d == n) && (n >= 10 ==> 1 <= d)
  {
    if n < 10 then n else FirstDigitOfTens(n)
  }

  function FirstDigitOfTens(n: nat): (d: nat)
    requires n >= 10
    ensures 1 <= d <= 9
  {
    if n < 100 then n / 10 else FirstDigitOfTens(n / 10)
  }

  lemma {:induction false} DecimalStarts(n: nat)
    ensures Decimal(n)[0] == '0' + FirstDigit(n) as char
  {
    if n >= 10 {
      DecimalStarts(n / 10);
    }
  }

  /** The page read from a page's URL is the first digit of its number; of a negative number there is none. */
  lemma PageIsFirstDigit(apiKey: string, page: int)
    requires '=' !in apiKey
    ensures PageOf(ConstructUrl(apiKey, page)) == if page < 0 then Unreadable else Digit(FirstDigit(page))
  {
    hide NoName, ConstructUrl, UrlStart, UrlEnd, FirstDigit;
    UrlParts(apiKey, page);
    FindsFirst(ConstructUrl(apiKey, page), UrlStart(apiKey), 0);
    if page >= 0 {
      DecimalStarts(page);
    }
  }

  /** The page is recovered exactly if it has one digit. */
  lemma PageIsRecovered(apiKey: string, page: int)
    requires '=' !in apiKey
    ensures 0 <= page && PageOf(ConstructUrl(apiKey, page)) == Digit(page) <==> 0 <= page <= 9
  {
    hide PageOf, ConstructUrl;
    PageIsFirstDigit(apiKey, page);
  }

  lemma {:induction false} DecimalInjective(m: nat, n: nat)
    requires Decimal(m) == Decimal(n)
    ensures m == n
  {
    if m >= 10 && n >= 10 {
      assert Decimal(m)[..|Decimal(m)| - 1] == Decimal(m / 10) && Decimal(n)[..|Decimal(n)| - 1] == Decimal(n / 10);
      DecimalInjective(m / 10, n / 10);
    } else {
      assert m >= 10 ==> |Decimal(m)| >= 2;
      assert n >= 10 ==> |Decimal(n)| >= 2;
    }
  }

  lemma SignShows(n: int)
    ensures ToString(n)[0] == '-' <==> n < 0
  {
  }

  lemma ToStringInjective(m: int, n: int)
    requires ToString(m) == ToString(n)
    ensures m == n
  {
    SignShows(m);
    SignShows(n);
    if m < 0 {
      assert ToString(m)[1..] == Decimal(-m) && ToString(n)[1..] == Decimal(-n);
      DecimalInjective(-m, -n);
    } else {
      DecimalInjective(m, n);
    }
  }

  lemma UrlInjective(apiKey: string, p: int, q: int)
    requires '=' !in apiKey && ConstructUrl(apiKey, p) == ConstructUrl(apiKey, q)
    ensures p == q
  {
    hide NoName, ConstructUrl, UrlStart, UrlEnd, ToString;
    UrlParts(apiKey, p);
    UrlParts(apiKey, q);
    var front, url := UrlStart(apiKey) + "page=", ConstructUrl(apiKey, p);
    assert url[|front|..] == ToString(p) + UrlEnd() == ToString(q) + UrlEnd();
    assert (ToString(p) + UrlEnd())[..|ToString(p)|] == ToString(p);
    ToStringInjective(p, q);
  }

  // ---------- the URL in full ----------

  /** The number that decimal digits stand for. */
  ghost function DecimalValue(s: string): int {
    if s == "" then 0 else 10 * DecimalValue(s[..|s| - 1]) + (s[|s| - 1] as int - '0' as int)
  }

  lemma {:induction false} DecimalMeans(n: nat)
    ensures DecimalValue(Decimal(n)) == n && (Decimal(n)[0] == '0' ==> n == 0)
  {
    var s := Decimal(n);
    if n < 10 {
      assert s[..0] == "" && s[0] as int == '0' as int + n;
    } else {
      DecimalMeans(n / 10);
      assert s[..|s| - 1] == Decimal(n / 10) && s[|s| - 1] as int == '0' as int + n % 10;
    }
  }

  ghost predicate IsNumeral(t: string, page: int) {
    var digits := if page < 0 && t != "" then t[1..] else t;
    && (page < 0 ==> t != "" && t[0] == '-')
    && digits != "" && (forall k :: 0 <= k < |digits| ==> '0' <= digits[k] <= '9')
    && (digits[0] == '0' ==> page == 0) && DecimalValue(digits) == if page < 0 then -page else page
  }

  /** The URL with a numeral for the page. */
  ghost function UrlText(apiKey: string, numeral: string): string {
    "https://api.flickr.com/services/rest/?" +
    ("method=flickr.interestingness.getList&" + (("api_key=" + apiKey + "&") +
    ("format=json&" + ("nojsoncallback=1&" + (("page=" + numeral + "&") + "per_page=10&")))))
  }

  /** What is requested: the page in decimal, ten photos of it, as JSON. */
  lemma UrlMeans(apiKey: string, page: int)
    ensures exists t :: IsNumeral(t, page) && ConstructUrl(apiKey, page) == UrlText(apiKey, t)
  {
    hide Decimal, ConstructUrl, UrlText;
    var t := ToString(page);
    DecimalMeans(if page < 0 then -page else page);
    assert page < 0 ==> t[1..] == Decimal(-page);
    UrlIs(apiKey, page);
    assert IsNumeral(t, page);
  }

  lemma QueryCons(p: Param, rest: seq<Param>)
    ensures QueryString([p] + rest) == (p.name + "=" + p.value + "&") + QueryString(rest)
  {
    assert ([p] + rest)[1..] == rest;
  }

  lemma UrlIs(apiKey: string, page: int)
    ensures ConstructUrl(apiKey, page) == UrlText(apiKey, ToString(page))
  {
    var p := FirstParams(apiKey);
    var number, size := Param("page", ToString(page)), Param("per_page", ToString(ITEMS_PER_PAGE));
    hide ToString, QueryString;
    assert p + [number, size] == [p[0]] + ([p[1]] + ([p[2]] + ([p[3]] + ([number] + ([size] + [])))));
    QueryCons(p[0], [p[1]] + ([p[2]] + ([p[3]] + ([number] + ([size] + [])))));
    QueryCons(p[1], [p[2]] + ([p[3]] + ([number] + ([size] + []))));
    QueryCons(p[2], [p[3]] + ([number] + ([size] + [])));
    QueryCons(p[3], [number] + ([size] + []));
    QueryCons(number, [size] + []);
    QueryCons(size, []);
    ParamTexts(apiKey);
  }

  lemma ParamTexts(apiKey: string)
    ensures BASE_URL + "?" == "https://api.flickr.com/services/rest/?"
    ensures "method" + "=" + "flickr.interestingness.getList" + "&" == "method=flickr.interestingness.getList&"
    ensures "api_key" + "=" + apiKey + "&" == "api_key=" + apiKey + "&"
    ensures "format" + "=" + "json" + "&" == "format=json&" && "nojsoncallback" + "=" + "1" + "&" == "nojsoncallback=1&"
    ensures "page" + "=" == "page=" && "per_page" + "=" + ToString(ITEMS_PER_PAGE) + "&" + "" == "per_page=10&"
    ensures QueryString([]) == ""
  {
    assert ToString(10) == "10";
  }

  // ---------- the list of photos ----------

  /** The database maps URLs to responses. */
  datatype State = State(items: seq<Photo>, db: map<string, string>)

  /**
    A page is written over the items it had, or appended when the list is too short to have it. A
    negative page counts as beyond every list; page 0 would be written before the list.
   */
  function Show(items: seq<Photo>, page: int, data: seq<Photo>): (r: seq<Photo>)
    requires |data| <= ITEMS_PER_PAGE && (page == 0 ==> data == [])
    ensures 0 <= page && |items| >= page * ITEMS_PER_PAGE ==> |r| == |items|
  {
    var start := (page - 1) * ITEMS_PER_PAGE;
    if page < 0 || |items| < page * ITEMS_PER_PAGE then items + data
    else if page == 0 then items
    else items[..start] + data + items[start + |data|..]
  }

  /** Calls return, or throw where the page of a URL cannot be read. */
  datatype Outcome = Done(state: State) | Thrown(state: State)

  /** How responses are read, and the key that is part of every URL. */
  datatype Api = Api(apiKey: string, details: string -> seq<Photo>) {
    ghost predicate Valid() {
      '=' !in apiKey && forall data :: |details(data)| <= ITEMS_PER_PAGE
    }

    function Url(page: int): string {
      ConstructUrl(apiKey, page)
    }

    function Cached(db: map<string, string>, page: int): seq<Photo> {
      if Url(page) in db then details(db[Url(page)]) else []
    }

    /** What a response to a request does. */
    function Received(s: State, url: string, data: string): Outcome
      requires Valid() && (PageOf(url) == Digit(0) ==> details(data) == [])
    {
      match PageOf(url)
      case NoPage => Done(s)
      case Unreadable => Thrown(s)
      case Digit(page) => Done(State(Show(s.items, page, details(data)), s.db[url := data]))
    }

    /** Page 0 is without photos; with some, the behaviour is undefined. */
    predicate Defined(s: State, page: int, response: Option<string>) {
      page == 0 ==> Cached(s.db, 0) == [] && (response.Some? ==> details(response.value) == [])
    }

    /** What a request does; without a response it has failed. */
    function Requested(s: State, page: int, response: Option<string>): Outcome
      requires Valid() && Defined(s, page, response)
    {
      var shown := s.(items := Show(s.items, page, Cached(s.db, page)));
      PageIsFirstDigit(apiKey, page);
      match response case None => Done(shown) case Some(data) => Received(shown, Url(page), data)
    }
  }

  /** Before the response the cached photos of the page are shown, and none if the page is not cached. */
  lemma CacheIsShown(api: Api, s: State, page: int)
    requires api.Valid() && api.Defined(s, page, None)
    ensures api.Requested(s, page, None) == Done(State(
              if api.Url(page) in s.db then Show(s.items, page, api.details(s.db[api.Url(page)])) else s.items, s.db))
  {
    hide ConstructUrl, PageOf;
    var start := (page - 1) * ITEMS_PER_PAGE;
    if page > 0 && |s.items| >= page * ITEMS_PER_PAGE {
      assert s.items[..start] + [] + s.items[start..] == s.items;
    }
  }

  class ExploreController {
    const api: Api
    var items: seq<Photo>
    var db: map<string, string>

    ghost function Contents(): State
      reads this
    {
      State(items, db)
    }

    constructor (api: Api, db: map<string, string>)
      ensures this.api == api && Contents() == State([], db)
    {
      this.api := api;
      items := [];
      this.db := db;
    }

    method Reset()
      modifies this
      ensures items == [] && db == old(db)
    {
      items := [];
    }

    /** Overwrites or appends. */
    method Place(page: int, data: seq<Photo>)
      requires |data| <= ITEMS_PER_PAGE && (page == 0 ==> data == [])
      modifies this`items
      ensures items == Show(old(items), page, data)
      ensures page < 0 || |old(items)| < page * 10 ==> items == old(items) + data
      ensures 0 <= page && |old(items)| >= page * 10 ==>
                && |items| == |old(items)|
                && forall j :: 0 <= j < |items| ==>
                     items[j] == if (page - 1) * 10 <= j < (page - 1) * 10 + |data| then data[j - (page - 1) * 10]
                                 else old(items)[j]
    {
      if page >= 0 && |items| >= page * ITEMS_PER_PAGE {
        var start, i := (page - 1) * ITEMS_PER_PAGE, 0;
        ghost var was := items;
        while i < |data|
          invariant 0 <= i <= |data| && |items| == |was|
          invariant forall j :: 0 <= j < |was| ==>
                      items[j] == if start <= j < start + i then data[j - start] else was[j]
        {
          items := items[start + i := data[i]];
          i := i + 1;
        }
      } else {
        items := items + data;
      }
    }

    method Request(page: int, response: Option<string>) returns (thrown: bool)
      requires api.Valid() && -128 <= page <= 127 && api.Defined(Contents(), page, response)
      modifies this
      ensures api.Requested(old(Contents()), page, response) == if thrown then Thrown(Contents()) else Done(Contents())
    {
      var data := RequestDb(page);
      Place(page, data);
      hide PageOf, ConstructUrl;
      PageIsFirstDigit(api.apiKey, page);
      var url := ConstructUrl(api.apiKey, page);
      thrown := false;
      if response.Some? {
        thrown := OnSuccess(url, response.value);
      }
    }

    method RequestDb(page: int) returns (data: seq<Photo>)
      ensures data == api.Cached(db, page)
    {
      var url := ConstructUrl(api.apiKey, page);
      if url in db {
        return api.details(db[url]);
      }
      return [];
    }

    method OnSuccess(url: string, data: string) returns (thrown: bool)
      requires api.Valid() && (PageOf(url) == Digit(0) ==> api.details(data) == [])
      modifies this
      ensures api.Received(old(Contents()), url, data) == if thrown then Thrown(Contents()) else Done(Contents())
      ensures thrown <==> PageOf(url).Unreadable?
      ensures !PageOf(url).Digit? ==> Contents() == old(Contents())
      ensures PageOf(url).Digit? ==> db == old(db)[url := data]
    {
      var details := api.details(data);
      var page := PageOf(url);
      match page {
        case NoPage => return false;
        case Unreadable => return true;
        case Digit(p) =>
          Place(p, details);
          db := db[url := data];
          return false;
      }
    }
  }

  // ---------- pages as stored ----------

  /** What the database holds for the pages after `a` up to `b`. */
  function Stored(api: Api, db: map<string, string>, a: nat, b: nat): seq<Photo> {
    if b <= a then [] else Stored(api, db, a, b - 1) + api.Cached(db, b)
  }

  predicate IsFull(api: Api, db: map<string, string>, page: int) {
    |api.Cached(db, page)| == ITEMS_PER_PAGE
  }

  ghost predicate AllFull(api: Api, db: map<string, string>, a: int, b: int) {
    forall p :: a < p <= b ==> IsFull(api, db, p)
  }

  lemma {:induction false} StoredSplits(api: Api, db: map<string, string>, a: nat, m: nat, b: nat)
    requires a <= m <= b
    ensures Stored(api, db, a, b) == Stored(api, db, a, m) + Stored(api, db, m, b)
    decreases b
  {
    hide Api.Cached;
    if m < b {
      StoredSplits(api, db, a, m, b - 1);
    }
  }

  /** A page between those before it and those after it. */
  lemma StoredAround(api: Api, db: map<string, string>, p: nat, n: nat)
    requires 1 <= p <= n
    ensures Stored(api, db, 0, n) == Stored(api, db, 0, p - 1) + (api.Cached(db, p) + Stored(api, db, p, n))
  {
    hide Api.Cached;
    StoredSplits(api, db, 0, p, n);
  }

  lemma {:induction false} StoredLength(api: Api, db: map<string, string>, a: nat, b: nat)
    requires a <= b && AllFull(api, db, a, b)
    ensures |Stored(api, db, a, b)| == (b - a) * ITEMS_PER_PAGE
    decreases b
  {
    hide Api.Cached;
    if a < b {
      StoredLength(api, db, a, b - 1);
      assert IsFull(api, db, b);
    }
  }

  /** Storing another page changes nothing. */
  lemma {:induction false} StoredFrame(api: Api, db: map<string, string>, a: nat, b: nat, p: int, data: string)
    requires api.Valid() && !(a < p <= b)
    ensures Stored(api, db[api.Url(p) := data], a, b) == Stored(api, db, a, b)
    decreases b
  {
    if a < b {
      StoredFrame(api, db, a, b - 1, p, data);
      CachedFrame(api, db, p, data, b);
    }
  }

  lemma CachedFrame(api: Api, db: map<string, string>, p: int, data: string, q: int)
    requires api.Valid()
    ensures api.Cached(db[api.Url(p) := data], q) == if q == p then api.details(data) else api.Cached(db, q)
    ensures api.Url(q) in db[api.Url(p) := data] <==> q == p || api.Url(q) in db
  {
    hide ConstructUrl;
    if api.Url(q) == api.Url(p) {
      UrlInjective(api.apiKey, q, p);
    }
  }

  /** The list is pages 1 to n as the database has them, one after the other, of whatever sizes. */
  ghost predicate Concatenates(api: Api, s: State, n: nat) {
    (forall p :: 1 <= p <= n ==> api.Url(p) in s.db) && s.items == Stored(api, s.db, 0, n)
  }

  /** Pages 1 to n are stored, and all but the last are full. */
  ghost predicate FullUpTo(api: Api, db: map<string, string>, n: nat) {
    && (forall p :: 1 <= p <= n ==> api.Url(p) in db)
    && AllFull(api, db, 0, n - 1)
  }

  /**
    More than that: each of these pages stands at its own place, where it is overwritten. So all but
    the last are full.
   */
  ghost predicate ShowsInPlace(api: Api, s: State, n: nat) {
    FullUpTo(api, s.db, n) && s.items == Stored(api, s.db, 0, n)
  }

  /** The place of page q + 1 comes behind ten photos for each page before it. */
  predicate PlaceIsNext(api: Api, db: map<string, string>, q: nat) {
    |Stored(api, db, 0, q)| == q * ITEMS_PER_PAGE
  }

  /** Concatenated pages are in their places exactly if each comes behind tens of photos. */
  lemma InPlaceIff(api: Api, s: State, n: nat)
    ensures ShowsInPlace(api, s, n) <==>
            Concatenates(api, s, n) && forall q :: 0 <= q < n ==> PlaceIsNext(api, s.db, q)
  {
    hide Api.Cached, Api.Url;
    if AllFull(api, s.db, 0, n - 1) {
      forall q | 0 <= q < n ensures PlaceIsNext(api, s.db, q) {
        StoredLength(api, s.db, 0, q);
      }
    }
    if forall q :: 0 <= q < n ==> PlaceIsNext(api, s.db, q) {
      forall q: nat | 0 < q <= n - 1 ensures IsFull(api, s.db, q) {
        assert Stored(api, s.db, 0, q) == Stored(api, s.db, 0, q - 1) + api.Cached(s.db, q);
        assert PlaceIsNext(api, s.db, q) && PlaceIsNext(api, s.db, q - 1);
      }
      assert AllFull(api, s.db, 0, n - 1);
    }
  }

  predicate LastIsFull(api: Api, db: map<string, string>, n: nat) {
    n == 0 || IsFull(api, db, n)
  }

  lemma ShownLength(api: Api, s: State, n: nat)
    requires ShowsInPlace(api, s, n)
    ensures |s.items| == if n == 0 then 0 else (n - 1) * ITEMS_PER_PAGE + |api.Cached(s.db, n)|
  {
    hide Api.Cached;
    if n > 0 {
      StoredLength(api, s.db, 0, n - 1);
    }
  }

  // ---------- when a request keeps each page in its place ----------

  /**
    What stands in a page's place once its cached copy is shown: a short page that is shown already is
    appended a second time.
   */
  function Tail(api: Api, s: State, n: nat, page: int): seq<Photo> {
    var c := api.Cached(s.db, page);
    if page == n && |c| < ITEMS_PER_PAGE then c + c else c
  }

  /**
    The requests that keep each page in its place. From page 10 on the response must repeat both the cached
    copy and what the page of its first digit shows; one page may be skipped only if its cached copy
    is the same as that of the page requested.
   */
  ghost predicate Keeps(api: Api, s: State, n: nat, page: int, response: Option<string>) {
    var c, tail := api.Cached(s.db, page), Tail(api, s, n, page);
    if page <= 0 then c == []
    else if page <= n + 1 then
      && (page == n + 1 ==> LastIsFull(api, s.db, n))
      && match response
         case None => tail == c && api.Url(page) in s.db
         case Some(data) => KeepsAnswered(api, s, page, tail, api.details(data))
    else
      && page == n + 2 && LastIsFull(api, s.db, n)
      && api.Url(n + 1) in s.db && IsFull(api, s.db, n + 1) && c == api.Cached(s.db, n + 1)
      && response.Some? && (page <= 9 || api.details(response.value) == [])
  }

  predicate KeepsAnswered(api: Api, s: State, page: nat, tail: seq<Photo>, r: seq<Photo>) {
    if page <= 9 then tail == [] || |tail| == |r| == ITEMS_PER_PAGE
    else tail == r && r <= api.Cached(s.db, FirstDigit(page))
  }

  /** The pages shown after a request. */
  function Last(n: nat, page: int): nat {
    if page > n then page else n
  }

  lemma ShowInside(front: seq<Photo>, rest: seq<Photo>, page: nat, data: seq<Photo>)
    requires page >= 1 && |front| == (page - 1) * ITEMS_PER_PAGE && |front + rest| >= page * ITEMS_PER_PAGE
    requires |data| <= ITEMS_PER_PAGE
    ensures Show(front + rest, page, data) == front + (data + rest[|data|..])
  {
  }

  /** The cached copy is shown in its place, or behind what is shown. */
  lemma ShowCached(api: Api, s: State, n: nat, page: nat) returns (front: seq<Photo>, rest: seq<Photo>)
    requires api.Valid() && ShowsInPlace(api, s, n) && 1 <= page <= n + 1
    requires page == n + 1 ==> LastIsFull(api, s.db, n)
    ensures front == Stored(api, s.db, 0, page - 1) && rest == Stored(api, s.db, page, n)
    ensures |front| == (page - 1) * ITEMS_PER_PAGE && (page >= n ==> rest == [])
    ensures page <= n ==> s.items == front + (api.Cached(s.db, page) + rest)
    ensures Show(s.items, page, api.Cached(s.db, page)) == front + (Tail(api, s, n, page) + rest)
  {
    hide Api.Cached, Api.Url;
    var c := api.Cached(s.db, page);
    front, rest := Stored(api, s.db, 0, page - 1), Stored(api, s.db, page, n);
    if page <= n {
      StoredAround(api, s.db, page, n);
      StoredLength(api, s.db, 0, page - 1);
      assert |c| <= ITEMS_PER_PAGE by { CachedFits(api, s.db, page); }
      if page < n {
        assert IsFull(api, s.db, page);
      }
      if |c| == ITEMS_PER_PAGE {
        ShowInside(front, c + rest, page, c);
        assert (c + rest)[|c|..] == rest;
      }
    } else {
      ShownLength(api, s, n);
      CachedFits(api, s.db, page);
    }
  }

  lemma CachedFits(api: Api, db: map<string, string>, page: int)
    requires api.Valid()
    ensures |api.Cached(db, page)| <= ITEMS_PER_PAGE
  {
  }

  /** Which pages are stored after a response. */
  lemma UpToAfter(api: Api, db: map<string, string>, n: nat, page: nat, data: string)
    requires api.Valid() && FullUpTo(api, db, n) && page >= 1
    ensures FullUpTo(api, db[api.Url(page) := data], Last(n, page)) <==>
            && (page < n ==> |api.details(data)| == ITEMS_PER_PAGE)
            && (page > n ==> LastIsFull(api, db, n)
                             && forall q :: n < q < page ==> api.Url(q) in db && IsFull(api, db, q))
  {
    hide ConstructUrl, Api.Cached;
    var db' := db[api.Url(page) := data];
    forall q: int
      ensures api.Cached(db', q) == if q == page then api.details(data) else api.Cached(db, q)
      ensures api.Url(q) in db' <==> q == page || api.Url(q) in db
    {
      CachedFrame(api, db, page, data, q);
    }
    assert forall q :: q != page ==> (IsFull(api, db', q) <==> IsFull(api, db, q));
    assert IsFull(api, db', page) <==> |api.details(data)| == ITEMS_PER_PAGE;
    hide IsFull, Api.Url;
    if page > n && FullUpTo(api, db', page) {
      assert n > 0 ==> IsFull(api, db', n);
      forall q | n < q < page ensures api.Url(q) in db && IsFull(api, db, q) {
        assert IsFull(api, db', q);
      }
    }
  }

  /** What is stored after a response for a page that is shown or comes next. */
  lemma StoredAfter(api: Api, db: map<string, string>, n: nat, page: nat, data: string)
    requires api.Valid() && 1 <= page <= n + 1
    ensures Stored(api, db[api.Url(page) := data], 0, Last(n, page)) ==
            Stored(api, db, 0, page - 1) + (api.details(data) + Stored(api, db, page, n))
  {
    hide Api.Cached, Api.Url;
    var db' := db[api.Url(page) := data];
    StoredAround(api, db', page, Last(n, page));
    StoredFrame(api, db, 0, page - 1, page, data);
    StoredFrame(api, db, page, Last(n, page), page, data);
    CachedFrame(api, db, page, data, page);
  }

  lemma SameFront<T>(front: seq<T>, a: seq<T>, b: seq<T>)
    ensures front + a == front + b <==> a == b
  {
    if front + a == front + b {
      assert (front + a)[|front|..] == a && (front + b)[|front|..] == b;
    }
  }

  /** Overwriting the tail of a page with a response leaves the response exactly if they are equally long. */
  lemma NearPlaced(front: seq<Photo>, tail: seq<Photo>, rest: seq<Photo>, page: nat, r: seq<Photo>)
    requires page >= 1 && |front| == (page - 1) * ITEMS_PER_PAGE && |r| <= ITEMS_PER_PAGE
    requires rest != [] ==> |tail| == ITEMS_PER_PAGE
    ensures Show(front + (tail + rest), page, r) == front + (r + rest) <==>
            if |tail + rest| >= ITEMS_PER_PAGE then |tail| == |r| else tail == []
  {
    var items := front + (tail + rest);
    if |tail + rest| >= ITEMS_PER_PAGE {
      ShowInside(front, tail + rest, page, r);
      SameFront(front, r + (tail + rest)[|r|..], r + rest);
      SameFront(r, (tail + rest)[|r|..], rest);
      if |tail| == |r| {
        assert (tail + rest)[|r|..] == rest;
      }
    } else {
      assert items + r == front + (tail + r);
      SameFront(front, tail + r, r + rest);
    }
  }

  /** A response written over the start of another page. */
  lemma FarPlaced(before: seq<Photo>, own: seq<Photo>, between: seq<Photo>, tail: seq<Photo>, r: seq<Photo>)
    requires |r| <= |own|
    ensures before + (r + (own + between + tail)[|r|..]) == before + (own + between + r) <==> tail == r && r <= own
  {
    SameFront(before, r + (own + between + tail)[|r|..], own + between + r);
    var a, b := r + (own + between + tail)[|r|..], own + between + r;
    assert (own + between + tail)[|r|..] == own[|r|..] + between + tail;
    if a == b {
      assert |tail| == |r|;
      assert a[..|r|] == r && b[..|r|] == own[..|r|];
      assert a[|own| + |between|..] == tail && b[|own| + |between|..] == r;
    }
    if tail == r && r <= own {
      assert r + own[|r|..] == own;
    }
  }

  lemma AnsweredNear(api: Api, s: State, n: nat, page: nat, data: string)
    requires api.Valid() && ShowsInPlace(api, s, n) && 1 <= page <= 9 && page <= n + 1
    requires page == n + 1 ==> LastIsFull(api, s.db, n)
    ensures ShowsInPlace(api, api.Requested(s, page, Some(data)).state, Last(n, page)) <==>
            KeepsAnswered(api, s, page, Tail(api, s, n, page), api.details(data))
  {
    hide ConstructUrl, PageOf;
    var r, tail := api.details(data), Tail(api, s, n, page);
    var front, rest := ShowCached(api, s, n, page);
    PageIsFirstDigit(api.apiKey, page);
    StoredAfter(api, s.db, n, page, data);
    UpToAfter(api, s.db, n, page, data);
    if page < n {
      assert IsFull(api, s.db, page);
    }
    NearPlaced(front, tail, rest, page, r);
  }

  lemma AnsweredFar(api: Api, s: State, n: nat, page: nat, data: string)
    requires api.Valid() && ShowsInPlace(api, s, n) && 10 <= page <= n + 1
    requires page == n + 1 ==> LastIsFull(api, s.db, n)
    ensures ShowsInPlace(api, api.Requested(s, page, Some(data)).state, Last(n, page)) <==>
            KeepsAnswered(api, s, page, Tail(api, s, n, page), api.details(data))
  {
    hide ConstructUrl, PageOf, FirstDigit;
    var r, tail, d := api.details(data), Tail(api, s, n, page), FirstDigit(page);
    var front, rest := ShowCached(api, s, n, page);
    PageIsFirstDigit(api.apiKey, page);
    StoredAfter(api, s.db, n, page, data);
    UpToAfter(api, s.db, n, page, data);
    if page < n {
      assert IsFull(api, s.db, page);
    }
    assert IsFull(api, s.db, d);
    FarShown(api, s.db, n, page, d, tail, rest, r);
  }

  lemma FarRegroup(before: seq<Photo>, own: seq<Photo>, between: seq<Photo>, tail: seq<Photo>, rest: seq<Photo>,
                   r: seq<Photo>)
    requires |r| <= |own|
    ensures before + (own + between) + (tail + rest) == before + (own + between + tail + rest)
    ensures before + (r + (own + between + tail + rest)[|r|..]) == before + (r + (own + between + tail)[|r|..]) + rest
    ensures before + (own + between) + (r + rest) == before + (own + between + r) + rest
  {
    var x := own + between + tail;
    assert (x + rest)[|r|..] == x[|r|..] + rest;
    assert before + (r + (x[|r|..] + rest)) == before + (r + x[|r|..]) + rest;
  }

  /** The list after a response whose URL leads to page `d`, compared with what is stored then. */
  lemma FarShown(api: Api, db: map<string, string>, n: nat, page: nat, d: nat, tail: seq<Photo>, rest: seq<Photo>,
                 r: seq<Photo>)
    requires api.Valid() && 1 <= d < page <= n + 1 && AllFull(api, db, 0, page - 1) && |r| <= ITEMS_PER_PAGE
    ensures var front := Stored(api, db, 0, page - 1);
            Show(front + (tail + rest), d, r) == front + (r + rest) <==> tail == r && r <= api.Cached(db, d)
  {
    hide Api.Cached, Api.Url, Stored, Show;
    var before, own, between := Stored(api, db, 0, d - 1), api.Cached(db, d), Stored(api, db, d, page - 1);
    StoredAround(api, db, d, page - 1);
    StoredLength(api, db, 0, d - 1);
    assert IsFull(api, db, d);
    FarRegroup(before, own, between, tail, rest, r);
    ShowInside(before, own + between + tail + rest, d, r);
    SameBack(before + (r + (own + between + tail)[|r|..]), before + (own + between + r), rest);
    FarPlaced(before, own, between, tail, r);
  }

  lemma SameBack<T>(a: seq<T>, b: seq<T>, back: seq<T>)
    ensures a + back == b + back <==> a == b
  {
    if a + back == b + back {
      assert |a| == |b|;
      assert (a + back)[..|a|] == a && (b + back)[..|b|] == b;
    }
  }

  /** A failed request leaves what is shown from the cache. */
  lemma Failed(api: Api, s: State, n: nat, page: nat)
    requires api.Valid() && ShowsInPlace(api, s, n) && 1 <= page <= n + 1
    ensures ShowsInPlace(api, api.Requested(s, page, None).state, Last(n, page)) <==> Keeps(api, s, n, page, None)
  {
    hide ConstructUrl, PageOf;
    var c, tail := api.Cached(s.db, page), Tail(api, s, n, page);
    if page == n + 1 && !LastIsFull(api, s.db, n) {
      assert !IsFull(api, s.db, n);
    } else {
      var front, rest := ShowCached(api, s, n, page);
      SameFront(front, tail + rest, c + rest);
      SameBack(tail, c, rest);
      if page == n + 1 {
        assert AllFull(api, s.db, 0, n);
      }
    }
  }

  /** What is stored after a request that skips pages, all stored and full. */
  lemma StoredBeyond(api: Api, s: State, n: nat, page: nat)
    requires ShowsInPlace(api, s, n) && page >= n + 2 && LastIsFull(api, s.db, n)
    requires forall q :: n < q < page ==> IsFull(api, s.db, q)
    ensures |s.items| == n * ITEMS_PER_PAGE && |Stored(api, s.db, n, page - 1)| == (page - 1 - n) * ITEMS_PER_PAGE
    ensures Stored(api, s.db, 0, page - 1) == s.items + Stored(api, s.db, n, page - 1)
    ensures page == n + 2 ==> Stored(api, s.db, n, page - 1) == api.Cached(s.db, n + 1)
  {
    hide Api.Cached;
    ShownLength(api, s, n);
    StoredLength(api, s.db, n, page - 1);
    StoredSplits(api, s.db, 0, n, page - 1);
  }

  /** A request that skips pages puts its photos right behind what is shown. */
  lemma SkippingAppends(api: Api, s: State, n: nat, page: nat)
    requires api.Valid() && ShowsInPlace(api, s, n) && page >= n + 2
    ensures Show(s.items, page, api.Cached(s.db, page)) == s.items + api.Cached(s.db, page)
    ensures |s.items + api.Cached(s.db, page)| < page * ITEMS_PER_PAGE
  {
    ShownLength(api, s, n);
    CachedFits(api, s.db, page);
    CachedFits(api, s.db, n);
  }

  lemma Skipping(api: Api, s: State, n: nat, page: nat, response: Option<string>)
    requires api.Valid() && ShowsInPlace(api, s, n) && page >= n + 2
    ensures ShowsInPlace(api, api.Requested(s, page, response).state, Last(n, page)) <==>
            Keeps(api, s, n, page, response)
  {
    hide ConstructUrl, PageOf, FirstDigit, Api.Cached;
    SkippingAppends(api, s, n, page);
    CachedFits(api, s.db, page);
    if LastIsFull(api, s.db, n) && forall q :: n < q < page ==> api.Url(q) in s.db && IsFull(api, s.db, q) {
      StoredBeyond(api, s, n, page);
      match response
      case None =>
        assert Stored(api, s.db, 0, page) == s.items + Stored(api, s.db, n, page - 1) + api.Cached(s.db, page);
      case Some(data) => SkippingAnswered(api, s, n, page, data);
    } else {
      match response
      case None =>
        if FullUpTo(api, s.db, page) {
          SkippedAreStored(api, s.db, n, page);
        }
      case Some(data) =>
        PageIsFirstDigit(api.apiKey, page);
        UpToAfter(api, s.db, n, page, data);
    }
  }

  lemma SkippedAreStored(api: Api, db: map<string, string>, n: nat, page: nat)
    requires FullUpTo(api, db, page) && page >= n + 2
    ensures LastIsFull(api, db, n) && forall q :: n < q < page ==> api.Url(q) in db && IsFull(api, db, q)
  {
  }

  lemma SkippingAnswered(api: Api, s: State, n: nat, page: nat, data: string)
    requires api.Valid() && ShowsInPlace(api, s, n) && page >= n + 2 && LastIsFull(api, s.db, n)
    requires forall q :: n < q < page ==> api.Url(q) in s.db && IsFull(api, s.db, q)
    ensures ShowsInPlace(api, api.Requested(s, page, Some(data)).state, page) <==> Keeps(api, s, n, page, Some(data))
  {
    hide ConstructUrl, PageOf, FirstDigit, Api.Cached;
    SkippingAppends(api, s, n, page);
    CachedFits(api, s.db, page);
    StoredBeyond(api, s, n, page);
    PageIsFirstDigit(api.apiKey, page);
    UpToAfter(api, s.db, n, page, data);
    var c, r, d := api.Cached(s.db, page), api.details(data), FirstDigit(page);
    var skipped, db' := Stored(api, s.db, n, page - 1), s.db[api.Url(page) := data];
    StoredFrame(api, s.db, 0, page - 1, page, data);
    CachedFrame(api, s.db, page, data, page);
    assert Stored(api, db', 0, page) == s.items + (skipped + r);
    SkippedPlaced(s.items, c, skipped, n, page, d, r);
  }

  /** The response meets what is stored only if it goes to the end, behind photos equal to the skipped ones. */
  lemma SkippedPlaced(items: seq<Photo>, c: seq<Photo>, skipped: seq<Photo>, n: nat, page: nat, d: nat, r: seq<Photo>)
    requires |items| == n * ITEMS_PER_PAGE && page >= n + 2 && |skipped| == (page - 1 - n) * ITEMS_PER_PAGE
    requires |c| <= ITEMS_PER_PAGE && |r| <= ITEMS_PER_PAGE && (page <= 9 ==> d == page) && (page > 9 ==> 1 <= d <= 9)
    ensures Show(items + c, d, r) == items + (skipped + r) <==> page == n + 2 && c == skipped && (page <= 9 || r == [])
  {
    SameFront(items, c + r, skipped + r);
    SameBack(c, skipped, r);
    assert items + c + r == items + (c + r);
    if r == [] && |items + c| >= d * ITEMS_PER_PAGE && d >= 1 {
      assert Show(items + c, d, r) == items + c;
    }
  }

  lemma NoSuchPage(api: Api, s: State, n: nat, page: int, response: Option<string>)
    requires api.Valid() && ShowsInPlace(api, s, n) && page <= 0 && api.Defined(s, page, response)
    ensures ShowsInPlace(api, api.Requested(s, page, response).state, n) <==> api.Cached(s.db, page) == []
  {
    hide ConstructUrl, PageOf, FirstDigit, Api.Cached;
    PageIsFirstDigit(api.apiKey, page);
    SameFront(s.items, api.Cached(s.db, page), []);
    assert s.items + [] == s.items;
    if page == 0 && response.Some? {
      PageZeroChangesNothing(api, s.db, n, response.value);
      assert api.Requested(s, 0, response) == Done(State(s.items, s.db[api.Url(0) := response.value]));
    }
  }

  lemma PageZeroChangesNothing(api: Api, db: map<string, string>, n: nat, data: string)
    requires api.Valid()
    ensures var db' := db[api.Url(0) := data];
            Stored(api, db', 0, n) == Stored(api, db, 0, n) && (FullUpTo(api, db', n) <==> FullUpTo(api, db, n))
  {
    hide ConstructUrl;
    StoredFrame(api, db, 0, n, 0, data);
    forall q: int | q >= 1
      ensures api.Url(q) in db[api.Url(0) := data] <==> api.Url(q) in db
      ensures IsFull(api, db[api.Url(0) := data], q) <==> IsFull(api, db, q)
    {
      CachedFrame(api, db, 0, data, q);
    }
  }

  /** Each page stays in its place if and only if `Keeps` says so, whatever the page and the response. */
  lemma StepInPlace(api: Api, s: State, n: nat, page: int, response: Option<string>)
    requires api.Valid() && ShowsInPlace(api, s, n) && api.Defined(s, page, response)
    ensures ShowsInPlace(api, api.Requested(s, page, response).state, Last(n, page)) <==>
            Keeps(api, s, n, page, response)
  {
    hide ConstructUrl, PageOf, FirstDigit, Api.Cached, ShowsInPlace, Show;
    if page <= 0 {
      NoSuchPage(api, s, n, page, response);
    } else if page >= n + 2 {
      Skipping(api, s, n, page, response);
    } else {
      match response
      case None => Failed(api, s, n, page);
      case Some(data) => Answered(api, s, n, page, data);
    }
  }

  lemma Answered(api: Api, s: State, n: nat, page: nat, data: string)
    requires api.Valid() && ShowsInPlace(api, s, n) && 1 <= page <= n + 1
    ensures ShowsInPlace(api, api.Requested(s, page, Some(data)).state, Last(n, page)) <==>
            Keeps(api, s, n, page, Some(data))
  {
    hide ConstructUrl, PageOf, FirstDigit, Api.Cached;
    if page == n + 1 && !LastIsFull(api, s.db, n) {
      PageIsFirstDigit(api.apiKey, page);
      UpToAfter(api, s.db, n, page, data);
    } else if page <= 9 {
      AnsweredNear(api, s, n, page, data);
    } else {
      AnsweredFar(api, s, n, page, data);
    }
  }

  /** A request throws exactly if a negative page is answered; else the response is stored, and nothing else. */
  lemma ThrowsOrStores(api: Api, s: State, page: int, response: Option<string>)
    requires api.Valid() && api.Defined(s, page, response)
    ensures var o := api.Requested(s, page, response);
            && (o.Thrown? <==> page < 0 && response.Some?)
            && o.state.db == if o.Done? && response.Some? then s.db[api.Url(page) := response.value] else s.db
  {
    hide ConstructUrl, PageOf;
    PageIsFirstDigit(api.apiKey, page);
  }

  // ---------- what goes wrong otherwise ----------

  /** A short page that is shown is shown again behind itself when it is requested again. */
  lemma ShortPageIsDoubled(api: Api, s: State, n: nat)
    requires api.Valid() && ShowsInPlace(api, s, n) && n >= 1 && 0 < |api.Cached(s.db, n)| < ITEMS_PER_PAGE
    ensures api.Requested(s, n, None).state.items == s.items + api.Cached(s.db, n) != s.items
  {
    ShownLength(api, s, n);
  }

  /** A short cached copy of the next page stays in the list, and the response comes behind it. */
  lemma CachedShortPageStays(api: Api, s: State, n: nat, data: string)
    requires api.Valid() && ShowsInPlace(api, s, n) && n < 9 && LastIsFull(api, s.db, n)
    requires 0 < |api.Cached(s.db, n + 1)| < ITEMS_PER_PAGE
    ensures api.Requested(s, n + 1, Some(data)).state.items == s.items + api.Cached(s.db, n + 1) + api.details(data)
  {
    hide ConstructUrl, PageOf;
    ShownLength(api, s, n);
    PageIsFirstDigit(api.apiKey, n + 1);
  }

  /** With a page left out the response takes that page's place ... */
  lemma GapIsClosed(api: Api, s: State, n: nat, page: nat, data: string)
    requires api.Valid() && ShowsInPlace(api, s, n) && n + 2 <= page <= 9
    ensures api.Requested(s, page, Some(data)).state.items == s.items + api.Cached(s.db, page) + api.details(data)
  {
    hide ConstructUrl, PageOf, Api.Cached;
    SkippingAppends(api, s, n, page);
    PageIsFirstDigit(api.apiKey, page);
  }

  /** ... and is overwritten once the page that was left out arrives. */
  lemma GapIsOverwritten(api: Api, s: State, n: nat, page: nat, data: string, missing: string)
    requires api.Valid() && ShowsInPlace(api, s, n) && LastIsFull(api, s.db, n) && n + 2 <= page <= 9
    requires api.Cached(s.db, n + 1) == api.Cached(s.db, page) == []
    requires |api.details(data)| == |api.details(missing)| == ITEMS_PER_PAGE
    ensures var s' := api.Requested(s, page, Some(data)).state;
            api.Requested(s', n + 1, Some(missing)).state.items == s.items + api.details(missing)
  {
    hide ConstructUrl, PageOf;
    ShownLength(api, s, n);
    GapIsClosed(api, s, n, page, data);
    ThrowsOrStores(api, s, page, Some(data));
    CachedFrame(api, s.db, page, data, n + 1);
    PageIsFirstDigit(api.apiKey, n + 1);
    var r := api.details(data);
    assert s.items + [] + r == s.items + r;
    ShowInside(s.items, r, n + 1, api.details(missing));
    assert r[ITEMS_PER_PAGE..] == [];
  }

  /** From page 10 on a response goes to the page of the first digit. */
  lemma FarPageGoesToFirstDigit(api: Api, s: State, page: nat, data: string)
    requires api.Valid() && page >= 10
    ensures var shown := Show(s.items, page, api.Cached(s.db, page));
            api.Requested(s, page, Some(data)) ==
            Done(State(Show(shown, FirstDigit(page), api.details(data)), s.db[api.Url(page) := data]))
  {
    hide ConstructUrl, PageOf, Show;
    PageIsFirstDigit(api.apiKey, page);
  }

  /** If it is not cached, it replaces photos of that page, and the list does not grow. */
  lemma FarPageReplaces(api: Api, s: State, n: nat, page: nat, data: string)
    requires api.Valid() && ShowsInPlace(api, s, n) && page >= 10 && page > n && api.Cached(s.db, page) == []
    requires FirstDigit(page) < n
    ensures var start := (FirstDigit(page) - 1) * ITEMS_PER_PAGE;
            start + |api.details(data)| <= |s.items| &&
            api.Requested(s, page, Some(data)).state.items ==
            s.items[..start] + api.details(data) + s.items[start + |api.details(data)|..]
  {
    hide ConstructUrl, PageOf, Api.Cached, FirstDigit;
    FarPageGoesToFirstDigit(api, s, page, data);
    ShownLength(api, s, n);
    CachedFits(api, s.db, n);
    assert s.items + [] == s.items;
  }

  // ---------- runs ----------

  datatype Event = Reset | Request(page: int, response: Option<string>)

  ghost predicate Step(api: Api, s: State, e: Event, s': State)
    requires api.Valid()
  {
    match e
    case Reset => s' == s.(items := [])
    case Request(page, response) =>
      api.Defined(s, page, response) && s' == api.Requested(s, page, response).state
  }

  ghost predicate IsRun(api: Api, states: seq<State>, events: seq<Event>)
    requires api.Valid()
  {
    && |states| == |events| + 1 && states[0].items == []
    && forall k :: 0 <= k < |events| ==> Step(api, states[k], events[k], states[k + 1])
  }

  /** How many pages are to be shown after the first events. */
  function PagesAfter(events: seq<Event>, k: nat): nat
    requires k <= |events|
  {
    if k == 0 then 0
    else match events[k - 1]
         case Reset => 0
         case Request(page, _) => Last(PagesAfter(events, k - 1), page)
  }

  ghost predicate StepKeeps(api: Api, states: seq<State>, events: seq<Event>, k: nat)
    requires k < |events| && k < |states|
  {
    events[k].Request? ==> Keeps(api, states[k], PagesAfter(events, k), events[k].page, events[k].response)
  }

  ghost predicate InPlaceAt(api: Api, states: seq<State>, events: seq<Event>, k: nat)
    requires k <= |events| && k < |states|
  {
    ShowsInPlace(api, states[k], PagesAfter(events, k))
  }

  lemma RunStep(api: Api, states: seq<State>, events: seq<Event>, k: nat)
    requires api.Valid() && IsRun(api, states, events) && k < |events| && InPlaceAt(api, states, events, k)
    ensures InPlaceAt(api, states, events, k + 1) <==> StepKeeps(api, states, events, k)
  {
    hide ShowsInPlace, Keeps;
    assert Step(api, states[k], events[k], states[k + 1]);
    match events[k]
    case Reset => NothingShown(api, states[k + 1]);
    case Request(page, response) => StepInPlace(api, states[k], PagesAfter(events, k), page, response);
  }

  ghost predicate InPlaceUntil(api: Api, states: seq<State>, events: seq<Event>, n: nat)
    requires n <= |events| && n < |states|
  {
    forall k :: 0 <= k <= n ==> InPlaceAt(api, states, events, k)
  }

  ghost predicate KeepsUntil(api: Api, states: seq<State>, events: seq<Event>, n: nat)
    requires n <= |events| && n < |states|
  {
    forall k :: 0 <= k < n ==> StepKeeps(api, states, events, k)
  }

  lemma UntilSplits(api: Api, states: seq<State>, events: seq<Event>, n: nat)
    requires n < |events| && n + 1 < |states|
    ensures InPlaceUntil(api, states, events, n) ==> InPlaceAt(api, states, events, n)
    ensures InPlaceUntil(api, states, events, n + 1) <==>
            InPlaceUntil(api, states, events, n) && InPlaceAt(api, states, events, n + 1)
    ensures KeepsUntil(api, states, events, n + 1) <==>
            KeepsUntil(api, states, events, n) && StepKeeps(api, states, events, n)
  {
    hide InPlaceAt, StepKeeps;
  }

  lemma RunLength(api: Api, states: seq<State>, events: seq<Event>)
    requires api.Valid() && IsRun(api, states, events)
    ensures |states| == |events| + 1
  {
  }

  lemma RunStarts(api: Api, states: seq<State>, events: seq<Event>)
    requires api.Valid() && IsRun(api, states, events)
    ensures InPlaceUntil(api, states, events, 0) && KeepsUntil(api, states, events, 0)
  {
    NothingShown(api, states[0]);
  }

  /**
    In every run the list shows at all times the pages asked for so far as the database has them, each
    in its place, if and only if every request is one that keeps it so.
   */
  lemma {:induction false} RunInPlace(api: Api, states: seq<State>, events: seq<Event>, n: nat)
    requires api.Valid() && IsRun(api, states, events) && n <= |events|
    ensures InPlaceUntil(api, states, events, n) <==> KeepsUntil(api, states, events, n)
    decreases n
  {
    hide *;
    RunLength(api, states, events);
    if n == 0 {
      RunStarts(api, states, events);
    } else {
      RunInPlace(api, states, events, n - 1);
      UntilSplits(api, states, events, n - 1);
      if InPlaceAt(api, states, events, n - 1) {
        RunStep(api, states, events, n - 1);
      }
    }
  }

  lemma NothingShown(api: Api, s: State)
    ensures ShowsInPlace(api, s, 0) <==> s.items == []
  {
  }

  // ---------- runs over full pages ----------

  /**
    A request for one of the pages 1 to 9, at most one beyond the last, cached in full or not at all,
    and answered with a full page unless it is cached.
   */
  ghost predicate IsFullPage(api: Api, s: State, n: nat, page: int, response: Option<string>) {
    && 1 <= page <= 9 && page <= n + 1
    && (api.Cached(s.db, page) == [] || IsFull(api, s.db, page))
    && match response
       case None => IsFull(api, s.db, page)
       case Some(data) => |api.details(data)| == ITEMS_PER_PAGE
  }

  lemma FullPageKeeps(api: Api, s: State, n: nat, page: int, response: Option<string>)
    requires api.Valid() && ShowsInPlace(api, s, n) && LastIsFull(api, s.db, n)
    requires IsFullPage(api, s, n, page, response)
    ensures Keeps(api, s, n, page, response) && api.Defined(s, page, response)
    ensures LastIsFull(api, api.Requested(s, page, response).state.db, Last(n, page))
  {
    ThrowsOrStores(api, s, page, response);
    if response.Some? {
      CachedFrame(api, s.db, page, response.value, Last(n, page));
    }
  }

  /**
    In every run of resets and such requests the list is the stored pages 1 to k, each in its place
    and full: none missing, doubled or shifted.
   */
  lemma {:induction false} FullPagesRun(api: Api, states: seq<State>, events: seq<Event>, n: nat)
    requires api.Valid() && IsRun(api, states, events) && n <= |events|
    requires forall k :: 0 <= k < n && events[k].Request? ==>
               IsFullPage(api, states[k], PagesAfter(events, k), events[k].page, events[k].response)
    ensures InPlaceAt(api, states, events, n) && LastIsFull(api, states[n].db, PagesAfter(events, n))
    decreases n
  {
    hide ShowsInPlace, Keeps, IsFullPage, Api.Requested, LastIsFull;
    if n == 0 {
      NothingShown(api, states[0]);
      NoLast(api, states[0].db);
    } else {
      var k := n - 1;
      FullPagesRun(api, states, events, k);
      assert Step(api, states[k], events[k], states[n]);
      match events[k] {
        case Reset => NoLast(api, states[n].db);
        case Request(page, response) => FullPageKeeps(api, states[k], PagesAfter(events, k), page, response);
      }
      RunStep(api, states, events, k);
    }
  }

  lemma NoLast(api: Api, db: map<string, string>)
    ensures LastIsFull(api, db, 0)
  {
  }

  // ---------- pages of any size, in order ----------

  lemma {:induction false} StoredBound(api: Api, db: map<string, string>, n: nat)
    requires api.Valid()
    ensures |Stored(api, db, 0, n)| <= n * ITEMS_PER_PAGE
  {
    hide Api.Cached;
    if n > 0 {
      StoredBound(api, db, n - 1);
      CachedFits(api, db, n);
    }
  }

  lemma NextStored(api: Api, s: State, n: nat, data: string)
    requires api.Valid() && Concatenates(api, s, n)
    ensures var db' := s.db[api.Url(n + 1) := data];
            && (forall p :: 1 <= p <= n + 1 ==> api.Url(p) in db')
            && Stored(api, db', 0, n + 1) == s.items + api.details(data)
  {
    hide ConstructUrl, Api.Cached;
    StoredFrame(api, s.db, 0, n, n + 1, data);
    CachedFrame(api, s.db, n + 1, data, n + 1);
    forall p | 1 <= p <= n ensures api.Url(p) in s.db[api.Url(n + 1) := data] {
      CachedFrame(api, s.db, n + 1, data, p);
    }
  }

  /** The condition under which the next page goes behind the pages shown, full or not. */
  ghost predicate KeepsNext(api: Api, s: State, n: nat, response: Option<string>) {
    var c := api.Cached(s.db, n + 1);
    match response
    case None => api.Url(n + 1) in s.db
    case Some(data) =>
      c == [] || (|s.items| == n * ITEMS_PER_PAGE && |c| == |api.details(data)| == ITEMS_PER_PAGE)
  }

  /** After a request for the next page the list is the concatenation still if and only if `KeepsNext` says so. */
  lemma StepConcatenates(api: Api, s: State, n: nat, response: Option<string>)
    requires api.Valid() && Concatenates(api, s, n) && n + 1 <= 9
    ensures Concatenates(api, api.Requested(s, n + 1, response).state, n + 1) <==> KeepsNext(api, s, n, response)
  {
    hide ConstructUrl, PageOf, FirstDigit, Api.Cached;
    var c := api.Cached(s.db, n + 1);
    StoredBound(api, s.db, n);
    CachedFits(api, s.db, n + 1);
    assert Show(s.items, n + 1, c) == s.items + c;
    match response
    case None =>
      assert Stored(api, s.db, 0, n + 1) == s.items + c;
    case Some(data) =>
      PageIsFirstDigit(api.apiKey, n + 1);
      NextStored(api, s, n, data);
      NextPlaced(s.items, c, n, api.details(data));
  }

  lemma NextPlaced(items: seq<Photo>, c: seq<Photo>, n: nat, r: seq<Photo>)
    requires |items| <= n * ITEMS_PER_PAGE && |c| <= ITEMS_PER_PAGE && |r| <= ITEMS_PER_PAGE
    ensures Show(items + c, n + 1, r) == items + r <==>
            c == [] || (|items| == n * ITEMS_PER_PAGE && |c| == |r| == ITEMS_PER_PAGE)
  {
    if |items + c| >= (n + 1) * ITEMS_PER_PAGE {
      ShowInside(items, c, n + 1, r);
      SameFront(items, r + c[|r|..], r);
    } else {
      assert items + c + r == items + (c + r);
      SameFront(items, c + r, r);
    }
  }

  /**
    So a short page may be followed by others: the list is still the concatenation of the stored
    pages, but the pages behind the short one are no longer in their places.
   */
  lemma ConcatenationOutlastsPlaces(api: Api, s: State, n: nat, data: string)
    requires api.Valid() && Concatenates(api, s, n) && 1 <= n && n + 1 <= 9
    requires !IsFull(api, s.db, n) && api.Cached(s.db, n + 1) == []
    ensures var s' := api.Requested(s, n + 1, Some(data)).state;
            Concatenates(api, s', n + 1) && !ShowsInPlace(api, s', n + 1)
  {
    hide ConstructUrl, PageOf, FirstDigit, Api.Cached;
    StepConcatenates(api, s, n, Some(data));
    ThrowsOrStores(api, s, n + 1, Some(data));
    CachedFrame(api, s.db, n + 1, data, n);
    var s' := api.Requested(s, n + 1, Some(data)).state;
    assert !IsFull(api, s'.db, n);
  }

  /** Requests for the next page only, up to page 9. */
  ghost predicate InOrder(events: seq<Event>, n: nat)
    requires n <= |events|
  {
    forall k :: 0 <= k < n && events[k].Request? ==> events[k].page == PagesAfter(events, k) + 1 <= 9
  }

  ghost predicate NextKept(api: Api, states: seq<State>, events: seq<Event>, k: nat)
    requires k < |events| && k < |states|
  {
    events[k].Request? ==> KeepsNext(api, states[k], PagesAfter(events, k), events[k].response)
  }

  ghost predicate ConcatenatesAt(api: Api, states: seq<State>, events: seq<Event>, k: nat)
    requires k <= |events| && k < |states|
  {
    Concatenates(api, states[k], PagesAfter(events, k))
  }

  lemma RunStepConcatenates(api: Api, states: seq<State>, events: seq<Event>, k: nat)
    requires api.Valid() && IsRun(api, states, events) && k < |events| && InOrder(events, k + 1)
    requires ConcatenatesAt(api, states, events, k)
    ensures ConcatenatesAt(api, states, events, k + 1) <==> NextKept(api, states, events, k)
  {
    hide Concatenates, KeepsNext;
    assert Step(api, states[k], events[k], states[k + 1]);
    match events[k]
    case Reset => NothingConcatenated(api, states[k + 1]);
    case Request(page, response) => StepConcatenates(api, states[k], PagesAfter(events, k), response);
  }

  lemma NothingConcatenated(api: Api, s: State)
    ensures Concatenates(api, s, 0) <==> s.items == []
  {
  }

  ghost predicate ConcatenatesUntil(api: Api, states: seq<State>, events: seq<Event>, n: nat)
    requires n <= |events| && n < |states|
  {
    forall k :: 0 <= k <= n ==> ConcatenatesAt(api, states, events, k)
  }

  ghost predicate NextKeptUntil(api: Api, states: seq<State>, events: seq<Event>, n: nat)
    requires n <= |events| && n < |states|
  {
    forall k :: 0 <= k < n ==> NextKept(api, states, events, k)
  }

  lemma ConcatenatesSplits(api: Api, states: seq<State>, events: seq<Event>, n: nat)
    requires n < |events| && n + 1 < |states|
    ensures ConcatenatesUntil(api, states, events, n) ==> ConcatenatesAt(api, states, events, n)
    ensures ConcatenatesUntil(api, states, events, n + 1) <==>
            ConcatenatesUntil(api, states, events, n) && ConcatenatesAt(api, states, events, n + 1)
    ensures NextKeptUntil(api, states, events, n + 1) <==>
            NextKeptUntil(api, states, events, n) && NextKept(api, states, events, n)
    ensures InOrder(events, n + 1) ==> InOrder(events, n)
  {
    hide ConcatenatesAt, NextKept;
  }

  lemma ConcatenationStarts(api: Api, states: seq<State>, events: seq<Event>)
    requires api.Valid() && IsRun(api, states, events)
    ensures ConcatenatesUntil(api, states, events, 0) && NextKeptUntil(api, states, events, 0)
  {
    NothingConcatenated(api, states[0]);
  }

  /**
    In every run of resets and requests for the next page the list is at all times the concatenation
    of the stored pages, of whatever sizes, if and only if every request is one that keeps it so.
   */
  lemma {:induction false} RunConcatenates(api: Api, states: seq<State>, events: seq<Event>, n: nat)
    requires api.Valid() && IsRun(api, states, events) && n <= |events| && InOrder(events, n)
    ensures ConcatenatesUntil(api, states, events, n) <==> NextKeptUntil(api, states, events, n)
    decreases n
  {
    hide *;
    RunLength(api, states, events);
    if n == 0 {
      ConcatenationStarts(api, states, events);
    } else {
      ConcatenatesSplits(api, states, events, n - 1);
      RunConcatenates(api, states, events, n - 1);
      if ConcatenatesAt(api, states, events, n - 1) {
        RunStepConcatenates(api, states, events, n - 1);
      }
    }
  }
}
