/**
 Following redirects: the state that a redirect chain carries and one step of it
 (sections 6.4.2 to 6.4.4 of RFC 7231 and the W3C Referrer Policy).
 Server responses and custom policies are arbitrary.
 */
module Redirect {
  import opened Text
  import opened Uris

  datatype HeaderValue = HeaderValue(text: string, sensitive: bool)

  datatype HeaderName =
    | Authorization | CookieField | Cookie2 | ProxyAuthorization | WwwAuthenticate
    | ContentType | ContentLength | ContentEncoding | TransferEncoding
    | Referer
    | OtherField(name: string)

  type HeaderMap = map<HeaderName, seq<HeaderValue>>

  const CREDENTIALS: set<HeaderName> := {Authorization, CookieField, Cookie2, ProxyAuthorization, WwwAuthenticate}
  const PAYLOAD: set<HeaderName> := {ContentType, ContentLength, ContentEncoding, TransferEncoding}

  datatype Request = Request(verb: string, uri: Uri, headers: HeaderMap)

  /** `location` is the resolved redirect target, absent when the field is missing or cannot be resolved.
      `policies` are the comma-separated Referrer-Policy tokens in order. */
  datatype Response = Response(status: nat, headers: HeaderMap, location: Option<Uri>, policies: seq<string>)

  // ----- request bodies -----

  /** A request body: its content, its exact length if known, and whether it can be sent again. */
  datatype Body = Body(content: string, exact: Option<nat>, reusable: bool) {
    predicate Truthful() { exact.Some? ==> exact.value == |content| }

    /** Sending the body again is possible because it is empty or can be cloned. */
    predicate Resendable() { exact == Some(0) || reusable }
  }

  const NO_BODY := Body("", Some(0), true)

  datatype BodyRepr = Held(body: Body) | Empty | Nothing

  function Take(repr: BodyRepr): (BodyRepr, Option<Body>) {
    match repr
    case Held(body) => (Nothing, Some(body))
    case Empty => (Empty, Some(NO_BODY))
    case Nothing => (Nothing, None)
  }

  function TryCloneFrom(repr: BodyRepr, body: Body): BodyRepr {
    if !repr.Nothing? then repr
    else if body.exact == Some(0) then Held(NO_BODY)
    else if body.reusable then Held(body)
    else Nothing
  }

  // ----- origins -----

  predicate SameHost(a: Option<string>, b: Option<string>) {
    if a.Some? && b.Some? then EqIgnoreCase(a.value, b.value) else a.None? && b.None?
  }

  predicate SameOrigin(a: Uri, b: Uri) {
    SameHost(a.host, b.host) && a.scheme == b.scheme && a.PortOrDefault() == b.PortOrDefault()
  }

  /** Scheme, host without its case, and port: 443 for https and 80 otherwise when none is written. */
  function OriginOf(u: Uri): (Option<Scheme>, Option<string>, nat) {
    (u.scheme,
     match u.host case Some(h) => Some(Lower(h)) case None => None,
     match u.port case Some(p) => p case None => if u.scheme == Some(Https) then 443 else 80)
  }

  lemma SameOriginIffOriginsEqual(a: Uri, b: Uri)
    ensures SameOrigin(a, b) <==> OriginOf(a) == OriginOf(b)
  {
  }

  lemma SameOriginIsEquivalence(a: Uri, b: Uri, c: Uri)
    ensures SameOrigin(a, a)
    ensures SameOrigin(a, b) ==> SameOrigin(b, a)
    ensures SameOrigin(a, b) && SameOrigin(b, c) ==> SameOrigin(a, c)
  {
  }

  // ----- referrers -----

  datatype Url = Url(scheme: Scheme, credentials: string, host: Option<string>, port: Option<nat>,
                     path: string, query: Option<string>, fragment: Option<string>)
  {
    function PortOrDefault(): Option<nat> {
      if port.Some? then port else if scheme == Http then Some(80) else if scheme == Https then Some(443) else None
    }

    /** The serialised URL; `number` prints a port. */
    function Text(number: nat -> string): string {
      (match scheme case Http => "http" case Https => "https" case Other(name) => name) + "://" + credentials +
      (if host.Some? then host.value else "") + (if port.Some? then ":" + number(port.value) else "") + path +
      (if query.Some? then "?" + query.value else "") + (if fragment.Some? then "#" + fragment.value else "")
    }
  }

  function StripToOrigin(url: Url): Url {
    url.(path := "/", query := None, fragment := None)
  }

  datatype ReferrerPolicy =
    | NoPolicy
    | NoReferrer
    | NoReferrerWhenDowngrade
    | SameOriginOnly
    | Origin
    | StrictOrigin
    | OriginWhenCrossOrigin
    | StrictOriginWhenCrossOrigin
    | UnsafeUrl

  function ParsePolicy(token: string): ReferrerPolicy {
    var t := Lower(token);
    if t == "no-referrer" then NoReferrer
    else if t == "no-referrer-when-downgrade" then NoReferrerWhenDowngrade
    else if t == "same-origin" then SameOriginOnly
    else if t == "origin" then Origin
    else if t == "strict-origin" then StrictOrigin
    else if t == "origin-when-cross-origin" then OriginWhenCrossOrigin
    else if t == "strict-origin-when-cross-origin" then StrictOriginWhenCrossOrigin
    else if t == "unsafe-url" then UnsafeUrl
    else NoPolicy
  }

  /** The last recognised token wins. */
  function LastPolicy(tokens: seq<string>): ReferrerPolicy {
    if tokens == [] then NoPolicy
    else
      var last := ParsePolicy(tokens[|tokens| - 1]);
      if last != NoPolicy then last else LastPolicy(tokens[..|tokens| - 1])
  }

  datatype Referrer = Referrer(source: Option<Url>, policy: ReferrerPolicy)

  predicate SameOriginAsUrl(source: Url, destination: Uri) {
    && SameHost(source.host, destination.host)
    && destination.scheme == Some(source.scheme)
    && source.PortOrDefault() == Some(destination.PortOrDefault())
  }

  /** The referrer is a page of the origin that the destination has; a referrer that is neither http nor https has no default port. */
  predicate IsHome(source: Url, destination: Uri) {
    var port := match source.port case Some(p) => Some(p)
                                  case None => match source.scheme case Http => Some(80) case Https => Some(443) case Other(_) => None;
    var host := match source.host case Some(h) => Some(Lower(h)) case None => None;
    OriginOf(destination).0 == Some(source.scheme) && OriginOf(destination).1 == host && port == Some(OriginOf(destination).2)
  }

  lemma SameOriginAsUrlIffHome(source: Url, destination: Uri)
    ensures SameOriginAsUrl(source, destination) <==> IsHome(source, destination)
  {
  }

  predicate IsDowngrade(source: Url, destination: Uri) {
    source.scheme == Https && destination.scheme == Some(Http)
  }

  datatype Trim = Drop | ToOrigin | Keep

  function TrimFor(policy: ReferrerPolicy, sameOrigin: bool, downgrade: bool): Trim {
    match policy
    case NoReferrer => Drop
    case NoReferrerWhenDowngrade => if downgrade then Drop else Keep
    case SameOriginOnly => if sameOrigin then Keep else Drop
    case Origin => ToOrigin
    case StrictOrigin => if downgrade then Drop else ToOrigin
    case OriginWhenCrossOrigin => if sameOrigin then Keep else ToOrigin
    case StrictOriginWhenCrossOrigin => if sameOrigin then Keep else if downgrade then Drop else ToOrigin
    case NoPolicy => if sameOrigin then Keep else if downgrade then Drop else ToOrigin
    case UnsafeUrl => Keep
  }

  /** The referrer carried on to the next request, which is also the one sent with it. */
  function Carried(c: Config, r: Referrer, destination: Uri): Option<Url> {
    if r.source.None? then None
    else
      var source := r.source.value;
      var trim := TrimFor(r.policy, SameOriginAsUrl(source, destination), IsDowngrade(source, destination));
      if trim == Drop then None
      else
        var url := if trim == ToOrigin then StripToOrigin(source) else source;
        if IsHeaderValue(url.Text(c.number)) then Some(url) else None
  }

  function ApplyReferrer(c: Config, r: Referrer, req: Request): (Referrer, Request) {
    var carried := Carried(c, r, req.uri);
    var sensitive := Referer in req.headers && req.headers[Referer] != [] && req.headers[Referer][0].sensitive;
    (r.(source := carried),
     if carried.None? then req.(headers := req.headers - {Referer})
     else req.(headers := req.headers[Referer := [HeaderValue(carried.value.Text(c.number), sensitive)]]))
  }

  /** The caller's own referrer, without credentials and fragment, cut to its origin when too long. */
  function NewReferrer(c: Config, headers: HeaderMap): Referrer {
    var parsed := if Referer in headers && headers[Referer] != [] then c.parseUrl(headers[Referer][0].text) else None;
    var source :=
      if parsed.None? || parsed.value.scheme.Other? then None
      else
        var url := parsed.value.(credentials := "", fragment := None);
        Some(if |url.Text(c.number)| > 4096 then StripToOrigin(url) else url);
    Referrer(source, StrictOriginWhenCrossOrigin)
  }

  // ----- policies -----

  datatype Attempt = Attempt(status: nat, headers: HeaderMap, uri: Uri, previous: seq<Uri>)

  datatype Verdict = Follow | Stop | Fail

  /** A policy answers at once, or later through an asynchronous task that ends with a verdict. */
  datatype Decision = Now(verdict: Verdict) | Later(verdict: Verdict)

  datatype PolicyKind = Custom(decide: Attempt -> Decision) | Limit(max: nat) | NoRedirects

  /** What stays fixed along a chain. `parseUrl` and `number` stand for the url library. */
  datatype Config = Config(kind: PolicyKind, httpsOnly: bool, parseUrl: string -> Option<Url>, number: nat -> string)

  function Decide(kind: PolicyKind, attempt: Attempt): Decision {
    match kind
    case Custom(decide) => decide(attempt)
    case Limit(max) => if |attempt.previous| > max then Now(Fail) else Now(Follow)
    case NoRedirects => Now(Stop)
  }

  // ----- one step -----

  datatype HistoryEntry = HistoryEntry(status: nat, uri: Uri, previous: Uri, headers: HeaderMap)

  datatype State = State(request: Request, body: BodyRepr, uris: seq<Uri>, history: seq<HistoryEntry>, referrer: Option<Referrer>) {
    /** Every URI requested so far, the current one last. */
    function Visited(): (v: seq<Uri>)
      ensures |v| == |uris| + 1
    {
      uris + [request.uri]
    }
  }

  /** How a chain ends. `Final` is a response that is no redirect; the history is attached to it alone. */
  datatype Ending = Final(response: Response, uri: Uri, history: seq<HistoryEntry>) | Returned(response: Response) | Refused

  /** A step sends the next request or ends the chain. `late` marks an asynchronous decision. */
  datatype Step = Sent(next: State, payload: Body, late: bool) | Done(ending: Ending)

  predicate IsRedirect(status: nat) {
    status in {301, 302, 303, 307, 308}
  }

  /** The method, body and payload fields after a redirect status. */
  function Rewrite(s: State, status: nat): State {
    if (status == 301 || status == 302) && s.request.verb == "POST" then
      s.(request := Request("GET", s.request.uri, s.request.headers - PAYLOAD), body := Empty)
    else if status == 303 then
      s.(request := Request(if s.request.verb == "HEAD" then "HEAD" else "GET", s.request.uri, s.request.headers - PAYLOAD),
         body := Empty)
    else s
  }

  function RemoveCredentials(req: Request, previous: seq<Uri>): Request {
    if previous != [] && !SameOrigin(req.uri, previous[|previous| - 1])
    then req.(headers := req.headers - CREDENTIALS) else req
  }

  /** The changes that the policy makes to the next request. */
  function OnRequest(c: Config, s: State): State {
    var req := RemoveCredentials(s.request, s.uris);
    if s.uris != [] && s.referrer.Some? then
      var (referrer, req') := ApplyReferrer(c, s.referrer.value, req);
      s.(request := req', referrer := Some(referrer))
    else s.(request := req)
  }

  /** The state when the policy is asked: the current URI is on the list and the referrer policy is up to date. */
  function BeforeDecision(s: State, res: Response): State {
    var policy := LastPolicy(res.policies);
    s.(uris := s.uris + [s.request.uri],
       referrer := if s.referrer.Some? && policy != NoPolicy then Some(s.referrer.value.(policy := policy)) else s.referrer)
  }

  function FollowTo(c: Config, s: State, location: Uri, body: Body): State {
    OnRequest(c, s.(request := s.request.(uri := location), body := TryCloneFrom(s.body, body)))
  }

  function Recorded(c: Config, s: State, res: Response, location: Uri): State {
    if c.kind.NoRedirects? then s
    else s.(history := s.history + [HistoryEntry(res.status, location, s.request.uri, res.headers)])
  }

  function StepOn(c: Config, s0: State, res: Response): Step {
    if !IsRedirect(res.status) then Done(Final(res, s0.request.uri, s0.history))
    else
      var s1 := Rewrite(s0, res.status);
      var (repr, taken) := Take(s1.body);
      if taken.None? || res.location.None? then Done(Returned(res))
      else
        var location := res.location.value;
        var s2 := BeforeDecision(s1.(body := repr), res);
        var decision := Decide(c.kind, Attempt(res.status, res.headers, location, s2.uris));
        if decision.verdict == Fail then Done(Refused)
        else if decision.verdict == Stop then Done(Returned(res))
        else if decision.Later? then Sent(FollowTo(c, s2, location, taken.value), taken.value, true)
        else if !(location.IsHttp() || location.IsHttps()) then Done(Refused)
        else if c.httpsOnly && !location.IsHttps() then Done(Refused)
        else Sent(FollowTo(c, Recorded(c, s2, res, location), location, taken.value), taken.value, false)
  }

  /** The state when the first request is sent; `referer` turns referrer handling on. */
  function Start(c: Config, request: Request, body: Body, referer: bool): State {
    OnRequest(c, State(request, TryCloneFrom(Nothing, body), [], [],
                       if referer then Some(NewReferrer(c, request.headers)) else None))
  }

  // ----- runs -----

  datatype Hop = Hop(state: State, payload: Body, late: bool)

  /** The state before the i-th hop of a run that started in `s`. */
  function StateAt(s: State, hops: seq<Hop>, i: nat): State
    requires i <= |hops|
  {
    if i == 0 then s else hops[i - 1].state
  }

  predicate IsHop(c: Config, before: State, res: Response, hop: Hop) {
    StepOn(c, before, res) == Sent(hop.state, hop.payload, hop.late)
  }

  /** `hops` are the requests sent after the first one while the responses arrive in order. */
  predicate IsRun(c: Config, s: State, responses: seq<Response>, hops: seq<Hop>) {
    |hops| <= |responses| && forall i | 0 <= i < |hops| :: IsHopAt(c, s, responses, hops, i)
  }

  predicate IsHopAt(c: Config, s: State, responses: seq<Response>, hops: seq<Hop>, i: nat)
    requires i < |hops| <= |responses|
  {
    IsHop(c, StateAt(s, hops, i), responses[i], hops[i])
  }

  /** The run ends on the next response. */
  predicate EndsWith(c: Config, s: State, responses: seq<Response>, hops: seq<Hop>, ending: Ending) {
    && IsRun(c, s, responses, hops) && |hops| < |responses|
    && StepOn(c, StateAt(s, hops, |hops|), responses[|hops|]) == Done(ending)
  }
}
