/**
 How much of the referrer survives a redirect chain.
 */
module RedirectReferrer {
  import opened Text
  import opened Uris
  import opened Redirect
  import opened RedirectSafety

  /** `b` is `a`, the origin of `a`, or nothing. */
  predicate Shrinks(a: Option<Url>, b: Option<Url>) {
    b.None? || b == a || (a.Some? && b.value == StripToOrigin(a.value))
  }

  /** The referrer policy in force when the next referrer is computed. */
  function PolicyAfter(r: Referrer, res: Response): ReferrerPolicy {
    var received := LastPolicy(res.policies);
    if received == NoPolicy then r.policy else received
  }

  /** The Referer field is exactly this referrer, and absent when there is none. */
  predicate Sends(c: Config, headers: HeaderMap, referrer: Option<Url>) {
    if referrer.None? then Referer !in headers
    else Referer in headers && |headers[Referer]| == 1 && headers[Referer][0].text == referrer.value.Text(c.number)
  }

  /** The Referer field is marked as sensitive. */
  predicate IsSensitive(headers: HeaderMap) {
    Referer in headers && headers[Referer] != [] && headers[Referer][0].sensitive
  }

  /** A hop carries on what the policy in force leaves of the referrer, and sends it, as sensitive as before. */
  predicate Carries(c: Config, before: State, res: Response, hop: Hop) {
    before.referrer.Some? ==>
      var r := before.referrer.value.(policy := PolicyAfter(before.referrer.value, res));
      var carried := Carried(c, r, hop.state.request.uri);
      && hop.state.referrer == Some(r.(source := carried)) && Sends(c, hop.state.request.headers, carried)
      && (carried.Some? ==> (IsSensitive(hop.state.request.headers) <==> IsSensitive(before.request.headers)))
  }

  lemma HopCarries(c: Config, s: State, res: Response, hop: Hop)
    requires IsHop(c, s, res, hop)
    ensures Carries(c, s, res, hop)
  {
    if s.referrer.Some? {
      var s2, s3, location := HopParts(c, s, res, hop);
      RewriteOfField(s, res.status, Referer);
      FollowCarries(c, s3, location, hop.payload);
      BeforeDecisionUpdates(Rewrite(s, res.status), Take(Rewrite(s, res.status).body).0, res);
      assert hop.state.request.uri == location;
    }
  }

  lemma BeforeDecisionUpdates(s: State, repr: BodyRepr, res: Response)
    requires s.referrer.Some?
    ensures var t := BeforeDecision(s.(body := repr), res);
            && t.request == s.request && t.uris != []
            && t.referrer == Some(s.referrer.value.(policy := PolicyAfter(s.referrer.value, res)))
  {
  }

  lemma FollowCarries(c: Config, s: State, location: Uri, body: Body)
    requires s.uris != [] && s.referrer.Some?
    ensures var t, carried := FollowTo(c, s, location, body), Carried(c, s.referrer.value, location);
            && t.request.uri == location
            && t.referrer == Some(s.referrer.value.(source := carried)) && Sends(c, t.request.headers, carried)
            && (carried.Some? ==> (IsSensitive(t.request.headers) <==> IsSensitive(s.request.headers)))
  {
    var moved := s.(request := s.request.(uri := location), body := TryCloneFrom(s.body, body));
    var req := RemoveCredentials(moved.request, s.uris);
    assert req.uri == location && (IsSensitive(req.headers) <==> IsSensitive(s.request.headers));
    ApplyReferrerSets(c, s.referrer.value, req);
  }

  lemma ApplyReferrerSets(c: Config, r: Referrer, req: Request)
    ensures var (r', req') := ApplyReferrer(c, r, req);
            var carried := Carried(c, r, req.uri);
            && r' == r.(source := carried) && req'.uri == req.uri && Sends(c, req'.headers, carried)
            && (carried.Some? ==> (IsSensitive(req'.headers) <==> IsSensitive(req.headers)))
  {
  }

  predicate CarriesAt(c: Config, s: State, responses: seq<Response>, hops: seq<Hop>, i: nat)
    requires i < |hops| <= |responses|
  {
    Carries(c, StateAt(s, hops, i), responses[i], hops[i])
  }

  predicate CarriesAll(c: Config, s: State, responses: seq<Response>, hops: seq<Hop>) {
    |hops| <= |responses| && forall i | 0 <= i < |hops| :: CarriesAt(c, s, responses, hops, i)
  }

  lemma RunCarries(c: Config, s: State, responses: seq<Response>, hops: seq<Hop>)
    requires IsRun(c, s, responses, hops)
    ensures CarriesAll(c, s, responses, hops)
  {
    forall i | 0 <= i < |hops| ensures CarriesAt(c, s, responses, hops, i) {
      assert IsHopAt(c, s, responses, hops, i);
      HopCarries(c, StateAt(s, hops, i), responses[i], hops[i]);
    }
  }

  /** After the first request the Referer field sent is the referrer carried on. */
  predicate SendsCarried(c: Config, s: State) {
    s.referrer.Some? && Sends(c, s.request.headers, s.referrer.value.source)
  }

  lemma CarriedShrinks(c: Config, r: Referrer, destination: Uri)
    ensures Shrinks(r.source, Carried(c, r, destination))
  {
  }

  lemma {:induction false} ShrinksAlong(c: Config, s: State, responses: seq<Response>, hops: seq<Hop>, i: nat, j: nat)
    requires CarriesAll(c, s, responses, hops) && s.referrer.Some? && i <= j <= |hops|
    ensures StateAt(s, hops, i).referrer.Some? && StateAt(s, hops, j).referrer.Some?
    ensures Shrinks(StateAt(s, hops, i).referrer.value.source, StateAt(s, hops, j).referrer.value.source)
    ensures j > 0 ==> SendsCarried(c, StateAt(s, hops, j))
    decreases j
  {
    if j > 0 {
      ShrinksAlong(c, s, responses, hops, if i < j then i else i - 1, j - 1);
      assert CarriesAt(c, s, responses, hops, j - 1);
      var r := StateAt(s, hops, j - 1).referrer.value;
      CarriedShrinks(c, r.(policy := PolicyAfter(r, responses[j - 1])), hops[j - 1].state.request.uri);
    }
  }

  /** Along every run, under any policies received, the referrer sent only shrinks and never grows back. */
  lemma ReferrerOnlyShrinks(c: Config, s: State, responses: seq<Response>, hops: seq<Hop>, i: nat, j: nat)
    requires IsRun(c, s, responses, hops) && s.referrer.Some? && i <= j <= |hops|
    ensures StateAt(s, hops, i).referrer.Some? && StateAt(s, hops, j).referrer.Some?
    ensures Shrinks(StateAt(s, hops, i).referrer.value.source, StateAt(s, hops, j).referrer.value.source)
    ensures j > 0 ==> SendsCarried(c, StateAt(s, hops, j))
  {
    RunCarries(c, s, responses, hops);
    ShrinksAlong(c, s, responses, hops, i, j);
  }

  predicate IsClean(url: Url) {
    url.credentials == "" && url.fragment.None? && !url.scheme.Other?
  }

  /**
   After the first request, which goes out as the caller made it, a Referer field is the caller's own URL without
   its credentials and fragment, in full or cut to its origin.
   */
  lemma ReferrerIsClean(c: Config, request: Request, body: Body, responses: seq<Response>, hops: seq<Hop>, i: nat)
    requires IsRun(c, Start(c, request, body, true), responses, hops) && 0 < i <= |hops|
    ensures var source := NewReferrer(c, request.headers).source;
            var headers := StateAt(Start(c, request, body, true), hops, i).request.headers;
            Referer in headers ==>
              && source.Some? && IsClean(source.value) && |headers[Referer]| == 1
              && headers[Referer][0].text in {source.value.Text(c.number), StripToOrigin(source.value).Text(c.number)}
              && headers[Referer][0].sensitive == request.headers[Referer][0].sensitive
  {
    var s := Start(c, request, body, true);
    StartReferrer(c, request, body);
    ReferrerOnlyShrinks(c, s, responses, hops, 0, i);
    RunCarries(c, s, responses, hops);
    SensitiveAlong(c, s, responses, hops, i);
  }

  lemma {:induction false} SensitiveAlong(c: Config, s: State, responses: seq<Response>, hops: seq<Hop>, i: nat)
    requires CarriesAll(c, s, responses, hops) && s.referrer.Some? && i <= |hops|
    ensures StateAt(s, hops, i).referrer.Some?
    ensures StateAt(s, hops, i).referrer.value.source.Some? ==>
              (IsSensitive(StateAt(s, hops, i).request.headers) <==> IsSensitive(s.request.headers))
  {
    if i > 0 {
      SensitiveAlong(c, s, responses, hops, i - 1);
      assert CarriesAt(c, s, responses, hops, i - 1);
      var r := StateAt(s, hops, i - 1).referrer.value;
      CarriedShrinks(c, r.(policy := PolicyAfter(r, responses[i - 1])), hops[i - 1].state.request.uri);
    }
  }

  lemma StartReferrer(c: Config, request: Request, body: Body)
    ensures Start(c, request, body, true).referrer == Some(NewReferrer(c, request.headers))
    ensures Start(c, request, body, true).request == request
    ensures var source := NewReferrer(c, request.headers).source;
            source.Some? ==> IsClean(source.value) && Referer in request.headers && request.headers[Referer] != []
  {
  }

  /** The caller's URL that the referrer is made of: what it named, without its credentials and fragment, and without
      path and query when it is longer than 4096 bytes. A chain starts under the default policy. */
  lemma ReferrerIsTheCallersUrl(c: Config, headers: HeaderMap)
    ensures var r := NewReferrer(c, headers);
            && r.policy == StrictOriginWhenCrossOrigin
            && (r.source.Some? <==>
                  && Referer in headers && headers[Referer] != []
                  && c.parseUrl(headers[Referer][0].text).Some? && !c.parseUrl(headers[Referer][0].text).value.scheme.Other?)
            && (r.source.Some? ==>
                  var u := c.parseUrl(headers[Referer][0].text).value;
                  var all := Url(u.scheme, "", u.host, u.port, u.path, u.query, None);
                  r.source.value == if |all.Text(c.number)| <= 4096 then all else Url(u.scheme, "", u.host, u.port, "/", None, None))
  {
  }

  /** How a clean URL is printed, and its origin. */
  lemma CleanUrlIsPrinted(url: Url, number: nat -> string)
    requires IsClean(url)
    ensures var site := (if url.scheme == Https then "https://" else "http://") + (if url.host.Some? then url.host.value else "") +
                        (if url.port.Some? then ":" + number(url.port.value) else "");
            && url.Text(number) == site + url.path + (if url.query.Some? then "?" + url.query.value else "")
            && StripToOrigin(url).Text(number) == site + "/"
  {
    var scheme := if url.scheme == Https then "https" else "http";
    var host := if url.host.Some? then url.host.value else "";
    var port := if url.port.Some? then ":" + number(url.port.value) else "";
    assert scheme + "://" == if url.scheme == Https then "https://" else "http://";
    EmptyPartsVanish(scheme + "://", host, port, url.path, if url.query.Some? then "?" + url.query.value else "");
    EmptyPartsVanish(scheme + "://", host, port, "/", "");
    Associative(scheme + "://" + host + port, "/", "");
  }

  lemma EmptyPartsVanish(scheme: string, host: string, port: string, path: string, query: string)
    ensures scheme + "" + host + port + path + query + "" == scheme + host + port + path + query
    ensures path + "" == path
  {
    assert scheme + "" == scheme;
    var all := scheme + host + port + path + query;
    assert all + "" == all;
  }

  // ----- reading policies -----

  /** The token of each policy in the W3C Referrer Policy. */
  function TokenOf(policy: ReferrerPolicy): string
    requires policy != NoPolicy
  {
    match policy
    case UnsafeUrl => "unsafe-url"
    case StrictOriginWhenCrossOrigin => "strict-origin-when-cross-origin"
    case OriginWhenCrossOrigin => "origin-when-cross-origin"
    case StrictOrigin => "strict-origin"
    case Origin => "origin"
    case SameOriginOnly => "same-origin"
    case NoReferrerWhenDowngrade => "no-referrer-when-downgrade"
    case NoReferrer => "no-referrer"
  }

  lemma LowerOfSmall(s: string)
    requires forall i | 0 <= i < |s| :: !('A' <= s[i] <= 'Z')
    ensures Lower(s) == s
  {
  }

  lemma TokensAreSmall(policy: ReferrerPolicy)
    requires policy != NoPolicy
    ensures Lower(TokenOf(policy)) == TokenOf(policy)
  {
    if policy in {NoReferrer, SameOriginOnly, Origin, UnsafeUrl} {
      ShortTokensAreSmall(policy);
    } else if policy in {NoReferrerWhenDowngrade, StrictOrigin} {
      LongTokensAreSmall(policy);
    } else {
      CrossOriginTokensAreSmall(policy);
    }
  }

  lemma ShortTokensAreSmall(policy: ReferrerPolicy)
    requires policy in {NoReferrer, SameOriginOnly, Origin, UnsafeUrl}
    ensures Lower(TokenOf(policy)) == TokenOf(policy)
  {
    LowerOfSmall(TokenOf(policy));
  }

  lemma LongTokensAreSmall(policy: ReferrerPolicy)
    requires policy in {NoReferrerWhenDowngrade, StrictOrigin}
    ensures Lower(TokenOf(policy)) == TokenOf(policy)
  {
    LowerOfSmall(TokenOf(policy));
  }

  lemma CrossOriginTokensAreSmall(policy: ReferrerPolicy)
    requires policy in {OriginWhenCrossOrigin, StrictOriginWhenCrossOrigin}
    ensures Lower(TokenOf(policy)) == TokenOf(policy)
  {
    LowerOfSmall(TokenOf(policy));
  }

  /** A token gives a policy exactly when it is the token of that policy, in whatever case. */
  lemma ParsePolicyIsExact(token: string, policy: ReferrerPolicy)
    requires policy != NoPolicy
    ensures ParsePolicy(token) == policy <==> EqIgnoreCase(token, TokenOf(policy))
  {
    TokensAreSmall(policy);
  }

  /** The last recognised token wins, whatever precedes it. */
  lemma {:induction false} LastRecognisedWins(before: seq<string>, token: string, after: seq<string>)
    requires forall t | t in after :: ParsePolicy(t) == NoPolicy
    ensures LastPolicy(after) == NoPolicy
    ensures ParsePolicy(token) != NoPolicy ==> LastPolicy(before + [token] + after) == ParsePolicy(token)
    decreases |after|
  {
    var all := before + [token] + after;
    if after == [] {
      assert all == before + [token];
    } else {
      var init, last := after[..|after| - 1], after[|after| - 1];
      assert all[..|all| - 1] == before + [token] + init && all[|all| - 1] == last && last in after;
      LastRecognisedWins(before, token, init);
    }
  }

  // ----- without a Referrer-Policy -----

  /** The referrer after a list of destinations under the default policy. */
  ghost function DefaultReferrer(source: Option<Url>, destinations: seq<Uri>): Option<Url> {
    if source.None? || exists d | d in destinations :: source.value.scheme == Https && d.scheme == Some(Http) then None
    else if forall d | d in destinations :: IsHome(source.value, d) then source
    else Some(StripToOrigin(source.value))
  }

  /** The URL and its origin can be printed into a field value. */
  predicate Printable(c: Config, source: Option<Url>) {
    source.Some? ==> IsHeaderValue(source.value.Text(c.number)) && IsHeaderValue(StripToOrigin(source.value).Text(c.number))
  }

  lemma DefaultReferrerGrows(c: Config, source: Option<Url>, destinations: seq<Uri>, d: Uri)
    requires Printable(c, source)
    ensures DefaultReferrer(source, destinations + [d]) ==
              Carried(c, Referrer(DefaultReferrer(source, destinations), StrictOriginWhenCrossOrigin), d)
  {
    var all := destinations + [d];
    assert forall x :: x in all <==> x in destinations || x == d;
    if source.Some? {
      SameOriginAsUrlIffHome(source.value, d);
      assert SameOriginAsUrl(StripToOrigin(source.value), d) <==> SameOriginAsUrl(source.value, d);
      assert IsDowngrade(StripToOrigin(source.value), d) <==> IsDowngrade(source.value, d);
    }
  }

  /**
   When no Referrer-Policy arrives, the full URL is sent exactly while every destination has the origin of
   the referrer, nothing is sent from the first https to http hop on, and otherwise only the origin is sent.
   */
  lemma DefaultRunsSendClosedForm(c: Config, s: State, responses: seq<Response>, hops: seq<Hop>, i: nat)
    requires IsRun(c, s, responses, hops) && i <= |hops| && s.uris == []
    requires s.referrer.Some? && s.referrer.value.policy == StrictOriginWhenCrossOrigin && Printable(c, s.referrer.value.source)
    requires forall r | r in responses :: LastPolicy(r.policies) == NoPolicy
    ensures var last := StateAt(s, hops, i);
            var referrer := DefaultReferrer(s.referrer.value.source, last.Visited()[1..]);
            && last.referrer == Some(Referrer(referrer, StrictOriginWhenCrossOrigin))
            && (i > 0 ==> Sends(c, last.request.headers, referrer))
  {
    RunCarries(c, s, responses, hops);
    RunIsTrail(c, s, responses, hops);
    DefaultAlong(c, s, responses, hops, i);
    ShrinksAlong(c, s, responses, hops, 0, i);
  }

  lemma {:induction false} DefaultAlong(c: Config, s: State, responses: seq<Response>, hops: seq<Hop>, i: nat)
    requires CarriesAll(c, s, responses, hops) && IsTrail(c, s, responses, hops) && i <= |hops| && s.uris == []
    requires s.referrer.Some? && s.referrer.value.policy == StrictOriginWhenCrossOrigin && Printable(c, s.referrer.value.source)
    requires forall r | r in responses :: LastPolicy(r.policies) == NoPolicy
    ensures var last := StateAt(s, hops, i);
            last.referrer ==
              Some(Referrer(DefaultReferrer(s.referrer.value.source, last.Visited()[1..]), StrictOriginWhenCrossOrigin))
  {
    if i == 0 {
      assert s.Visited()[1..] == [];
    } else {
      DefaultAlong(c, s, responses, hops, i - 1);
      var before, hop := StateAt(s, hops, i - 1), hops[i - 1];
      assert CarriesAt(c, s, responses, hops, i - 1) && FollowsAt(c, s, responses, hops, i - 1);
      assert responses[i - 1] in responses;
      assert hop.state.Visited()[1..] == before.Visited()[1..] + [hop.state.request.uri];
      DefaultReferrerGrows(c, s.referrer.value.source, before.Visited()[1..], hop.state.request.uri);
    }
  }

  // ----- under any policies received -----

  datatype Relation = Within | Across | Down

  function RelationOf(source: Url, destination: Uri): Relation {
    if IsHome(source, destination) then Within
    else if source.scheme == Https && destination.scheme == Some(Http) then Down
    else Across
  }

  /** How much each policy of the W3C Referrer Policy discloses within the origin, across origins and to a downgrade. */
  function Discloses(policy: ReferrerPolicy): (Trim, Trim, Trim) {
    match policy
    case NoReferrer => (Drop, Drop, Drop)
    case SameOriginOnly => (Keep, Drop, Drop)
    case StrictOrigin => (ToOrigin, ToOrigin, Drop)
    case Origin => (ToOrigin, ToOrigin, ToOrigin)
    case StrictOriginWhenCrossOrigin => (Keep, ToOrigin, Drop)
    case NoPolicy => (Keep, ToOrigin, Drop)
    case OriginWhenCrossOrigin => (Keep, ToOrigin, ToOrigin)
    case NoReferrerWhenDowngrade => (Keep, Keep, Drop)
    case UnsafeUrl => (Keep, Keep, Keep)
  }

  function Disclosed(policy: ReferrerPolicy, relation: Relation): Trim {
    match relation
    case Within => Discloses(policy).0
    case Across => Discloses(policy).1
    case Down => Discloses(policy).2
  }

  lemma TrimIsDisclosed(policy: ReferrerPolicy, source: Url, destination: Uri)
    ensures TrimFor(policy, SameOriginAsUrl(source, destination), IsDowngrade(source, destination)) ==
              Disclosed(policy, RelationOf(source, destination))
  {
    SameOriginAsUrlIffHome(source, destination);
  }

  function Lesser(a: Trim, b: Trim): Trim {
    if a == Drop || b == Drop then Drop else if a == ToOrigin || b == ToOrigin then ToOrigin else Keep
  }

  function Cut(source: Url, trim: Trim): Option<Url> {
    match trim
    case Drop => None
    case ToOrigin => Some(StripToOrigin(source))
    case Keep => Some(source)
  }

  /** The policy in force after the first `i` responses. */
  function PolicyInForce(first: ReferrerPolicy, responses: seq<Response>, i: nat): ReferrerPolicy
    requires i <= |responses|
  {
    if i == 0 then first
    else PolicyAfter(Referrer(None, PolicyInForce(first, responses, i - 1)), responses[i - 1])
  }

  /** The least that any of the first `i` hops disclosed. */
  function LeastDisclosed(first: ReferrerPolicy, source: Url, responses: seq<Response>, hops: seq<Hop>, i: nat): Trim
    requires i <= |hops| <= |responses|
  {
    if i == 0 then Keep
    else
      Lesser(LeastDisclosed(first, source, responses, hops, i - 1),
             Disclosed(PolicyInForce(first, responses, i), RelationOf(source, hops[i - 1].state.request.uri)))
  }

  lemma CarriedIsCut(c: Config, source: Url, trim: Trim, policy: ReferrerPolicy, d: Uri)
    requires Printable(c, Some(source))
    ensures Carried(c, Referrer(Cut(source, trim), policy), d) == Cut(source, Lesser(trim, Disclosed(policy, RelationOf(source, d))))
  {
    TrimIsDisclosed(policy, source, d);
    assert SameOriginAsUrl(StripToOrigin(source), d) <==> SameOriginAsUrl(source, d);
    assert IsDowngrade(StripToOrigin(source), d) <==> IsDowngrade(source, d);
    assert StripToOrigin(StripToOrigin(source)) == StripToOrigin(source);
  }

  lemma HopCuts(c: Config, s: State, source: Url, trim: Trim, res: Response, hop: Hop)
    requires Carries(c, s, res, hop) && s.referrer.Some? && s.referrer.value.source == Cut(source, trim)
    requires Printable(c, Some(source))
    ensures var policy := PolicyAfter(s.referrer.value, res);
            var relation := RelationOf(source, hop.state.request.uri);
            hop.state.referrer == Some(Referrer(Cut(source, Lesser(trim, Disclosed(policy, relation))), policy))
  {
    CarriedIsCut(c, source, trim, PolicyAfter(s.referrer.value, res), hop.state.request.uri);
  }

  lemma {:induction false} LeastAlong(c: Config, s: State, source: Url, responses: seq<Response>, hops: seq<Hop>, i: nat)
    requires CarriesAll(c, s, responses, hops) && i <= |hops|
    requires s.referrer.Some? && s.referrer.value.source == Some(source) && Printable(c, Some(source))
    ensures var first := s.referrer.value.policy;
            StateAt(s, hops, i).referrer ==
              Some(Referrer(Cut(source, LeastDisclosed(first, source, responses, hops, i)), PolicyInForce(first, responses, i)))
  {
    if i > 0 {
      var first := s.referrer.value.policy;
      LeastAlong(c, s, source, responses, hops, i - 1);
      assert CarriesAt(c, s, responses, hops, i - 1);
      HopCuts(c, StateAt(s, hops, i - 1), source, LeastDisclosed(first, source, responses, hops, i - 1), responses[i - 1], hops[i - 1]);
    }
  }

  /**
   Whatever policies arrive, each hop sends the caller's referrer cut to the least that the policy in force
   at any hop so far disclosed towards the destination of that hop.
   */
  lemma ReferrerIsLeastDisclosed(c: Config, s: State, source: Url, responses: seq<Response>, hops: seq<Hop>, i: nat)
    requires IsRun(c, s, responses, hops) && i <= |hops|
    requires s.referrer.Some? && s.referrer.value.source == Some(source) && Printable(c, Some(source))
    ensures var first, last := s.referrer.value.policy, StateAt(s, hops, i);
            var referrer := Cut(source, LeastDisclosed(first, source, responses, hops, i));
            && last.referrer == Some(Referrer(referrer, PolicyInForce(first, responses, i)))
            && (i > 0 ==> Sends(c, last.request.headers, referrer))
  {
    RunCarries(c, s, responses, hops);
    LeastAlong(c, s, source, responses, hops, i);
    ShrinksAlong(c, s, responses, hops, 0, i);
  }
}
