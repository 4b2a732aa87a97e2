/** The diagnostic endpoint: login-page detection, a title-only parse of the
    notice cards, the session's cookie names, the response snippet, the hint
    and the order in which the GET and POST attempts are made. */
module NoticesDebug {
  import opened Strings
  import opened Dom
  import opened Notices

  /* ---------- Login-page detection ---------- */

  const Keywords: seq<string> := [
    "login", "sign in", "please login", "session expired",
    "authentication", "please sign in", "invalid session",
    "please login to continue", "user name", "password", "<form"
  ]

  datatype LoginDetection = LoginDetection(loginLike: bool, matches: seq<string>)

  /** The keywords of `kws` that occur in `text`, in the order of `kws`. */
  function MatchesIn(kws: seq<string>, text: string): (r: seq<string>)
    ensures forall kw :: kw in r <==> kw in kws && Contains(text, kw)
    ensures SubsequenceOf(r, kws)
  {
    if kws == [] then []
    else
      var rest := MatchesIn(kws[1..], text);
      if Contains(text, kws[0]) then
        assert ([kws[0]] + rest)[1..] == rest;
        [kws[0]] + rest
      else rest
  }

  /** `detect_login_like(html)`. */
  function DetectLoginLike(html: string): (d: LoginDetection)
    ensures d.loginLike <==> d.matches != []
    ensures forall kw :: kw in d.matches <==> kw in Keywords && Contains(Lower(html), kw)
    ensures SubsequenceOf(d.matches, Keywords)
  {
    var matches := MatchesIn(Keywords, Lower(html));
    LoginDetection(matches != [], matches)
  }

  /** Any response with "<form" in it, in any case, is login-like. */
  lemma FormIsLoginLike(html: string, i: nat)
    requires i + 5 <= |html| && Lower(html[i..i + 5]) == "<form"
    ensures DetectLoginLike(html).loginLike
    ensures "<form" in DetectLoginLike(html).matches
  {
    LowerSlice(html, i, i + 5);
    assert OccursAt(Lower(html), "<form", i);
    assert "<form" in Keywords;
  }

  /** No non-empty keyword occurs in the empty text. */
  lemma {:induction false} NothingMatchesEmpty(kws: seq<string>)
    requires forall kw :: kw in kws ==> kw != ""
    ensures MatchesIn(kws, "") == []
  {
    if kws != [] {
      assert kws[0] in kws;
      assert forall kw :: kw in kws[1..] ==> kw in kws;
      NothingMatchesEmpty(kws[1..]);
      assert !Contains("", kws[0]);
    }
  }

  /** The empty response matches no keyword. */
  lemma EmptyIsNotLoginLike()
    ensures DetectLoginLike("") == LoginDetection(false, [])
  {
    NothingMatchesEmpty(Keywords);
  }

  /** Detection ignores the case of the response. */
  lemma DetectionIgnoresCase(html: string)
    ensures DetectLoginLike(Lower(html)) == DetectLoginLike(html)
  {
    assert Lower(Lower(html)) == Lower(html);
  }

  /* ---------- Title-only parse ---------- */

  /** The title the debug parser reads from a card: the text of its first
      info div, or None when there is none. */
  function DebugTitle(card: Node): Option<string> {
    var info := FindAll(card, Info);
    if |info| > 0 then Some(GetText(info[0], "")) else None
  }

  /** The titles the debug parser keeps: the present, non-empty ones, in card
      order. */
  function DebugTitles(cards: seq<Node>): seq<string> {
    if cards == [] then []
    else
      var t := DebugTitle(cards[0]);
      (if t.Some? && t.value != "" then [t.value] else []) + DebugTitles(cards[1..])
  }

  /** The titles the main extractor gives the cards, in card order. */
  function TitlesOf(cards: seq<Node>): (r: seq<string>)
    ensures |r| == |cards|
    ensures forall i :: 0 <= i < |cards| ==> r[i] == TitleOf(cards[i])
  {
    if cards == [] then [] else [TitleOf(cards[0])] + TitlesOf(cards[1..])
  }

  /** The debug titles are non-empty and no more than the cards. */
  lemma {:induction false} DebugTitlesBound(cards: seq<Node>)
    ensures |DebugTitles(cards)| <= |cards|
    ensures forall t :: t in DebugTitles(cards) ==> t != ""
  {
    if cards != [] {
      DebugTitlesBound(cards[1..]);
    }
  }

  /** The debug titles are, in card order, titles the main extractor gives
      the same cards. */
  lemma {:induction false} DebugTitlesSubsequence(cards: seq<Node>)
    ensures SubsequenceOf(DebugTitles(cards), TitlesOf(cards))
  {
    if cards != [] {
      var rest := cards[1..];
      DebugTitlesSubsequence(rest);
      var titles, tail := DebugTitles(cards), DebugTitles(rest);
      var all, allTail := TitlesOf(cards), TitlesOf(rest);
      assert all == [TitleOf(cards[0])] + allTail;
      assert all[1..] == allTail;
      var t := DebugTitle(cards[0]);
      if t.Some? && t.value != "" {
        assert titles == [t.value] + tail;
        assert titles[1..] == tail;
        assert titles[0] == all[0];
      } else {
        assert titles == tail;
      }
    }
  }

  /** A title is kept exactly when some card has an info div and that title,
      and the title is not empty. */
  lemma {:induction false} DebugTitlesMembers(cards: seq<Node>)
    ensures forall t :: t in DebugTitles(cards) <==>
              exists c :: c in cards && FindAll(c, Info) != [] && TitleOf(c) == t && t != ""
  {
    if cards != [] {
      var rest := cards[1..];
      DebugTitlesMembers(rest);
      forall u | exists c :: c in cards && FindAll(c, Info) != [] && TitleOf(c) == u && u != ""
        ensures u in DebugTitles(cards)
      {
        var c :| c in cards && FindAll(c, Info) != [] && TitleOf(c) == u && u != "";
        if c != cards[0] {
          assert c in rest;
        }
      }
    }
  }

  /** The titles of a concatenation of card lists are the titles of each. */
  lemma {:induction false} DebugTitlesAppend(a: seq<Node>, b: seq<Node>)
    ensures DebugTitles(a + b) == DebugTitles(a) + DebugTitles(b)
  {
    if a != [] {
      assert (a + b)[1..] == a[1..] + b;
      DebugTitlesAppend(a[1..], b);
    } else {
      assert a + b == b;
    }
  }

  /** One more card adds its title when it has a non-empty one. */
  lemma DebugTitlesSnoc(cards: seq<Node>, k: nat)
    requires k < |cards|
    ensures var t := DebugTitle(cards[k]);
            DebugTitles(cards[..k + 1]) == DebugTitles(cards[..k]) + (if t.Some? && t.value != "" then [t.value] else [])
  {
    assert cards[..k + 1] == cards[..k] + [cards[k]];
    DebugTitlesAppend(cards[..k], [cards[k]]);
    assert [cards[k]][1..] == [];
  }

  /** The debug `parse_notices`: the number of cards and the kept titles. */
  method DebugParseNotices(doc: Node) returns (count: nat, titles: seq<string>)
    ensures count == |Cards(doc)|
    ensures titles == DebugTitles(Cards(doc))
  {
    var cards := Cards(doc);
    titles := [];
    var k := 0;
    while k < |cards|
      invariant 0 <= k <= |cards|
      invariant titles == DebugTitles(cards[..k])
    {
      var title := DebugTitle(cards[k]);
      DebugTitlesSnoc(cards, k);
      if title.Some? && title.value != "" {
        titles := titles + [title.value];
      }
      k := k + 1;
    }
    assert cards[..k] == cards;
    count := |cards|;
  }

  /* ---------- Cookie names ---------- */

  datatype Cookie = Cookie(name: string, value: string)

  predicate StrictlySorted(s: seq<string>) {
    forall i, j :: 0 <= i < j < |s| ==> Less(s[i], s[j])
  }

  /** `x` put in its place in the strictly sorted `s`, unless already there. */
  function InsertSorted(s: seq<string>, x: string): (r: seq<string>)
    requires StrictlySorted(s)
    ensures StrictlySorted(r)
    ensures forall y :: y in r <==> y in s || y == x
  {
    if s == [] then [x]
    else if x == s[0] then s
    else if Less(x, s[0]) then
      assert forall j :: 0 <= j < |s| ==> Less(x, s[j]) by {
        forall j | 0 <= j < |s| ensures Less(x, s[j]) {
          if j > 0 { LessTransitive(x, s[0], s[j]); }
        }
      }
      [x] + s
    else
      LessTotal(x, s[0]);
      var r := [s[0]] + InsertSorted(s[1..], x);
      assert forall j :: 0 < j < |r| ==> r[j] in s[1..] || r[j] == x;
      r
  }

  /** `sorted({c.name for c in jar})`. */
  function CookieNames(jar: seq<Cookie>): (r: seq<string>)
    ensures StrictlySorted(r)
    ensures forall y :: y in r <==> exists c :: c in jar && c.name == y
  {
    if jar == [] then []
    else
      var prefix := jar[..|jar| - 1];
      assert forall c :: c in jar ==> c in prefix || c == jar[|jar| - 1];
      InsertSorted(CookieNames(prefix), jar[|jar| - 1].name)
  }

  lemma LessAsymmetric(x: string, y: string)
    ensures !(Less(x, y) && Less(y, x))
  {
    if Less(x, y) && Less(y, x) {
      LessTransitive(x, y, x);
      LessIrreflexive(x);
    }
  }

  /** Two strictly sorted lists with the same elements are the same list, so
      the cookie names are the one sorted listing of the set of names. */
  lemma {:induction false} SortedListingIsUnique(a: seq<string>, b: seq<string>)
    requires StrictlySorted(a) && StrictlySorted(b)
    requires forall y :: y in a <==> y in b
    ensures a == b
  {
    assert a != [] ==> a[0] in a;
    assert b != [] ==> b[0] in b;
    if a != [] && b != [] {
      assert a[0] in b && b[0] in a;
      LessAsymmetric(a[0], b[0]);
      assert a[0] == b[0];
      LessIrreflexive(a[0]);
      forall y | y in a[1..]
        ensures y in b[1..]
      {
        assert y in b;
      }
      forall y | y in b[1..]
        ensures y in a[1..]
      {
        assert y in a;
      }
      SortedListingIsUnique(a[1..], b[1..]);
    }
  }

  /** The cookie names have no duplicates. */
  lemma CookieNamesDistinct(jar: seq<Cookie>)
    ensures NoDuplicates(CookieNames(jar))
  {
    var r := CookieNames(jar);
    forall i, j | 0 <= i < j < |r|
      ensures r[i] != r[j]
    {
      LessIrreflexive(r[i]);
    }
  }

  /* ---------- Snippet and hint ---------- */

  /** Python's `text[:n]`, a negative `n` counting from the end. */
  function PrefixUpTo(text: string, n: int): (r: string)
    ensures |r| <= |text| && r == text[..|r|]
    ensures n >= 0 ==> |r| == (if n < |text| then n else |text|)
    ensures n < 0 ==> |r| == (if |text| + n > 0 then |text| + n else 0)
  {
    if n >= 0 then text[..if n < |text| then n else |text|]
    else text[..if |text| + n > 0 then |text| + n else 0]
  }

  /** `(text[:n] + "...") if text and len(text) > n else text`. */
  function Snippet(text: string, n: int): (r: string)
    ensures |text| <= n ==> r == text
    ensures text == [] ==> r == []
    ensures r == text || (|r| >= 3 && r[|r| - 3..] == "..." && |r| - 3 < |text| && r[..|r| - 3] == text[..|r| - 3])
    ensures n >= 0 && |text| > n ==> |r| == n + 3 && r[..n] == text[..n] && r[n..] == "..."
  {
    if text != [] && |text| > n then PrefixUpTo(text, n) + "..." else text
  }

  const LoginHint := "Response looks like a login / session page; cookie might be insufficient for this endpoint."
  const NoNodesHint := "200 OK but no .post_notice nodes found — server returned HTML without expected DOM structure."

  /** The hint attached to an attempt. */
  function HintFor(count: nat, loginLike: bool, status: int): (h: Option<string>)
    ensures h.Some? ==> count == 0
    ensures h == Some(LoginHint) <==> count == 0 && loginLike
    ensures h == Some(NoNodesHint) <==> count == 0 && !loginLike && status == 200
    ensures h.None? <==> count > 0 || (!loginLike && status != 200)
  {
    if count == 0 && loginLike then Some(LoginHint)
    else if count == 0 && status == 200 then Some(NoNodesHint)
    else None
  }

  /* ---------- Attempts ---------- */

  /** The request methods tried for the `method` query parameter (default
      "both"), lower-cased: GET first, then POST. */
  function AttemptMethods(param: Option<string>): (r: seq<string>)
    ensures SubsequenceOf(r, ["get", "post"])
  {
    var p := Lower(if param.Some? then param.value else "both");
    var r := (if p in ["get", "both"] then ["get"] else []) + (if p in ["post", "both"] then ["post"] else []);
    var both: seq<string> := ["get", "post"];
    assert both[1..] == ["post"] && ["post"][1..] == [];
    assert SubsequenceOf(["post"], both[1..]);
    assert SubsequenceOf(["get"], both) && SubsequenceOf(both, both);
    assert r == [] || r == ["get"] || r == ["post"] || r == both;
    r
  }

  /** No parameter means both methods; otherwise the lower-cased value picks
      GET, POST or both, and any other value picks neither. */
  lemma AttemptMethodsCases(p: string)
    ensures AttemptMethods(None) == ["get", "post"]
    ensures Lower(p) == "both" ==> AttemptMethods(Some(p)) == ["get", "post"]
    ensures Lower(p) == "get" ==> AttemptMethods(Some(p)) == ["get"]
    ensures Lower(p) == "post" ==> AttemptMethods(Some(p)) == ["post"]
    ensures Lower(p) !in ["get", "post", "both"] ==> AttemptMethods(Some(p)) == []
    ensures AttemptMethods(Some(Lower(p))) == AttemptMethods(Some(p))
  {
    assert Lower("both") == "both";
    assert Lower(Lower(p)) == Lower(p);
  }

  /** A response of the portal: status, reason, body, the document the body
      parses to, and the session's cookies once it has arrived. */
  datatype HttpResponse = HttpResponse(status: int, reason: string, text: string, doc: Node, cookies: seq<Cookie>)

  /** The outcome of one request. */
  datatype Fetch = Received(response: HttpResponse) | RequestError(message: string)

  /** One entry of the diagnostics. */
  datatype Attempt =
    | Diagnosed(
        phase: string, verb: string, statusCode: int, reason: string, responseLength: nat,
        sessionCookieNames: seq<string>, htmlSnippet: string, loginDetection: LoginDetection,
        parsedCount: nat, parsedTitles: seq<string>, hint: Option<string>)
    | Failed(phase: string, error: string)

  /** What `run_attempt(verb)` records when the request made with `verb`
      returned `fetched`: the request error, or the status, reason, length,
      session cookie names, snippet, login detection, title-only parse and
      hint of the response. */
  predicate Describes(entry: Attempt, verb: string, fetched: Fetch, snippetChars: int) {
    entry.phase == "action_layer_" + verb &&
    match fetched
    case RequestError(message) => entry == Failed("action_layer_" + verb, message)
    case Received(resp) =>
      var detection := DetectLoginLike(resp.text);
      var cards := Cards(resp.doc);
      entry.Diagnosed? && entry.verb == verb && entry.statusCode == resp.status &&
      entry.reason == resp.reason && entry.responseLength == |resp.text| &&
      entry.sessionCookieNames == CookieNames(resp.cookies) &&
      entry.htmlSnippet == Snippet(resp.text, snippetChars) &&
      entry.loginDetection == detection &&
      entry.parsedCount == |cards| && entry.parsedTitles == DebugTitles(cards) &&
      entry.hint == HintFor(|cards|, detection.loginLike, resp.status)
  }

  /** `run_attempt(verb)` given what the request returned. */
  method RunAttempt(verb: string, fetched: Fetch, snippetChars: int) returns (entry: Attempt)
    ensures Describes(entry, verb, fetched, snippetChars)
  {
    var phase := "action_layer_" + verb;
    if fetched.RequestError? {
      return Failed(phase, fetched.message);
    }
    var resp := fetched.response;
    var detection := DetectLoginLike(resp.text);
    var count, titles := DebugParseNotices(resp.doc);
    var hint := None;
    if count == 0 && detection.loginLike {
      hint := Some(LoginHint);
    } else if count == 0 && resp.status == 200 {
      hint := Some(NoNodesHint);
    }
    entry := Diagnosed(phase, verb, resp.status, resp.reason, |resp.text|, CookieNames(resp.cookies),
                       Snippet(resp.text, snippetChars), detection, count, titles, hint);
  }

  /** The diagnostics of the endpoint. */
  datatype DebugReport = DebugReport(primePageFetched: bool, attempts: seq<Attempt>)

  /** The debug endpoint: priming the session (its failure recorded first),
      then one attempt per requested method, GET before POST, each
      described from the outcome of its own request. `send(verb)` is the
      outcome of the request made with that verb; the snippet length
      defaults to 4000. */
  method DebugHandler(methodParam: Option<string>, snippetParam: Option<int>, prime: Fetch, send: string -> Fetch)
    returns (report: DebugReport)
    ensures report.primePageFetched <==> prime.Received?
    ensures var verbs := AttemptMethods(methodParam);
            var skip := if prime.Received? then 0 else 1;
            var snippetChars := if snippetParam.Some? then snippetParam.value else 4000;
            |report.attempts| == skip + |verbs| &&
            (prime.RequestError? ==> report.attempts[0] == Failed("prime_announcement_page", prime.message)) &&
            forall i :: 0 <= i < |verbs| ==>
              Describes(report.attempts[skip + i], verbs[i], send(verbs[i]), snippetChars)
  {
    var snippetChars := if snippetParam.Some? then snippetParam.value else 4000;
    var verb := Lower(if methodParam.Some? then methodParam.value else "both");
    var results := [];
    if prime.RequestError? {
      results := results + [Failed("prime_announcement_page", prime.message)];
    }
    assert AttemptMethods(methodParam) ==
           (if verb in ["get", "both"] then ["get"] else []) + (if verb in ["post", "both"] then ["post"] else []);
    if verb in ["get", "both"] {
      var entry := RunAttempt("get", send("get"), snippetChars);
      results := results + [entry];
    }
    if verb in ["post", "both"] {
      var entry := RunAttempt("post", send("post"), snippetChars);
      results := results + [entry];
    }
    report := DebugReport(prime.Received?, results);
  }
}
