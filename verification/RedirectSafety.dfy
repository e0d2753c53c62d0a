/**
 What every redirect run keeps: where credentials and bodies may go, how far the referrer
 reaches, how long a chain gets, and what its history says.
 */
module RedirectSafety {
  import opened Text
  import opened Uris
  import opened Redirect

  // ----- credentials -----

  /** The fields that are meant for one origin alone. */
  predicate IsCredential(h: HeaderName) {
    h.Authorization? || h.CookieField? || h.Cookie2? || h.ProxyAuthorization? || h.WwwAuthenticate?
  }

  ghost predicate AllSameOrigin(uris: seq<Uri>) {
    forall i | 0 <= i < |uris| :: OriginOf(uris[i]) == OriginOf(uris[0])
  }

  /** A credential field of the caller is present, unchanged, exactly while the chain stayed on its first origin. */
  ghost predicate CredentialsStay(caller: HeaderMap, s: State) {
    forall h | IsCredential(h) :: CredentialStays(caller, s, h)
  }

  ghost predicate CredentialStays(caller: HeaderMap, s: State, h: HeaderName) {
    && (h in s.request.headers <==> h in caller && AllSameOrigin(s.Visited()))
    && (h in s.request.headers ==> s.request.headers[h] == caller[h])
  }

  /** Following never adds a credential field, and drops it exactly when the origin changes. */
  lemma FollowKeepsCredential(c: Config, s: State, location: Uri, body: Body, h: HeaderName)
    requires s.uris != [] && IsCredential(h)
    ensures var headers := FollowTo(c, s, location, body).request.headers;
            && (h in headers <==> h in s.request.headers && OriginOf(location) == OriginOf(s.uris[|s.uris| - 1]))
            && (h in headers ==> headers[h] == s.request.headers[h])
  {
    SameOriginIffOriginsEqual(location, s.uris[|s.uris| - 1]);
  }

  /** One more URI keeps the chain on its origin exactly when it has the origin of the one before. */
  lemma OriginGrows(v: seq<Uri>, location: Uri)
    requires v != []
    ensures AllSameOrigin(v + [location]) <==> AllSameOrigin(v) && OriginOf(location) == OriginOf(v[|v| - 1])
  {
    var w := v + [location];
    assert w[|v|] == location && w[0] == v[0];
    assert forall i | 0 <= i < |v| :: w[i] == v[i];
  }

  /** The parts of a step that leads to another request. */
  lemma HopParts(c: Config, s: State, res: Response, hop: Hop)
    returns (s2: State, s3: State, location: Uri)
    requires IsHop(c, s, res, hop)
    ensures IsRedirect(res.status) && res.location == Some(location)
    ensures Take(Rewrite(s, res.status).body).1 == Some(hop.payload)
    ensures s2 == BeforeDecision(Rewrite(s, res.status).(body := Take(Rewrite(s, res.status).body).0), res)
    ensures s3 == if hop.late then s2 else Recorded(c, s2, res, location)
    ensures hop.state == FollowTo(c, s3, location, hop.payload)
    ensures var d := Decide(c.kind, Attempt(res.status, res.headers, location, s2.uris));
            d.verdict == Follow && d.Later? == hop.late
    ensures !hop.late ==> (location.IsHttps() || (location.IsHttp() && !c.httpsOnly))
  {
    location := res.location.value;
    var (repr, taken) := Take(Rewrite(s, res.status).body);
    s2 := BeforeDecision(Rewrite(s, res.status).(body := repr), res);
    s3 := if hop.late then s2 else Recorded(c, s2, res, location);
  }

  /** A hop puts the old URI on the list and moves to the location. */
  lemma HopVisits(c: Config, s: State, res: Response, hop: Hop)
    requires IsHop(c, s, res, hop)
    ensures hop.state.uris == s.Visited() && res.location == Some(hop.state.request.uri)
    ensures hop.state.Visited() == s.Visited() + [hop.state.request.uri]
  {
    var s2, s3, location := HopParts(c, s, res, hop);
  }

  /** A hop keeps a credential field, unchanged, exactly when it stays on the origin. */
  lemma HopOfCredential(c: Config, s: State, res: Response, hop: Hop, h: HeaderName)
    requires IsCredential(h) && IsHop(c, s, res, hop)
    ensures var before, after := s.request.headers, hop.state.request.headers;
            && (h in after <==> h in before && OriginOf(hop.state.request.uri) == OriginOf(s.request.uri))
            && (h in after ==> after[h] == before[h])
  {
    var s2, s3, location := HopParts(c, s, res, hop);
    RewriteKeepsCredential(s, res.status, h);
    HopVisits(c, s, res, hop);
    FollowKeepsCredential(c, s3, location, hop.payload, h);
  }

  lemma RewriteKeepsCredential(s: State, status: nat, h: HeaderName)
    requires IsCredential(h)
    ensures var t := Rewrite(s, status);
            && t.uris == s.uris && t.request.uri == s.request.uri
            && (h in t.request.headers <==> h in s.request.headers)
            && (h in s.request.headers ==> t.request.headers[h] == s.request.headers[h])
  {
    assert h !in PAYLOAD;
  }

  lemma HopKeepsCredential(c: Config, caller: HeaderMap, s: State, res: Response, hop: Hop, h: HeaderName)
    requires IsCredential(h) && CredentialStays(caller, s, h) && IsHop(c, s, res, hop)
    ensures CredentialStays(caller, hop.state, h)
  {
    HopOfCredential(c, s, res, hop, h);
    HopVisits(c, s, res, hop);
    OriginGrows(s.Visited(), hop.state.request.uri);
  }

  lemma HopKeepsCredentials(c: Config, caller: HeaderMap, s: State, res: Response, hop: Hop)
    requires CredentialsStay(caller, s) && IsHop(c, s, res, hop)
    ensures CredentialsStay(caller, hop.state)
  {
    forall h | IsCredential(h) ensures CredentialStays(caller, hop.state, h) {
      HopKeepsCredential(c, caller, s, res, hop, h);
    }
  }

  /**
   In every run, whatever the responses and the policy, a request carries the caller's credential fields
   exactly while every URI so far has the origin of the first one; returning there does not restore them.
   */
  lemma {:induction false} CredentialsStayOnOrigin(c: Config, caller: HeaderMap, s: State, responses: seq<Response>,
                                                   hops: seq<Hop>, i: nat)
    requires CredentialsStay(caller, s) && IsRun(c, s, responses, hops) && i <= |hops|
    ensures CredentialsStay(caller, StateAt(s, hops, i))
  {
    if i > 0 {
      CredentialsStayOnOrigin(c, caller, s, responses, hops, i - 1);
      assert IsHopAt(c, s, responses, hops, i - 1);
      HopKeepsCredentials(c, caller, StateAt(s, hops, i - 1), responses[i - 1], hops[i - 1]);
    }
  }

  /** The first request is sent as the caller made it. */
  lemma StartIsUntouched(c: Config, request: Request, body: Body, referer: bool)
    ensures var s := Start(c, request, body, referer);
            s.request == request && s.uris == [] && s.history == [] && CredentialsStay(request.headers, s)
  {
  }

  lemma {:induction false} VisitedAt(c: Config, s: State, responses: seq<Response>, hops: seq<Hop>, i: nat, j: nat)
    requires IsRun(c, s, responses, hops) && s.uris == [] && i <= j <= |hops|
    ensures var v := StateAt(s, hops, j).Visited(); |v| == j + 1 && v[i] == StateAt(s, hops, i).request.uri
    decreases j
  {
    if j > 0 {
      VisitedAt(c, s, responses, hops, if i < j then i else 0, j - 1);
      assert IsHopAt(c, s, responses, hops, j - 1);
      HopVisits(c, StateAt(s, hops, j - 1), responses[j - 1], hops[j - 1]);
    }
  }

  /** Once a request went to another host than the first one, neither it nor any later request carries a credential field. */
  lemma OtherHostEndsCredentials(c: Config, request: Request, body: Body, referer: bool, responses: seq<Response>,
                                 hops: seq<Hop>, i: nat, j: nat, h: HeaderName)
    requires IsRun(c, Start(c, request, body, referer), responses, hops) && i <= j <= |hops| && IsCredential(h)
    requires var host := StateAt(Start(c, request, body, referer), hops, i).request.uri.host;
             if host.Some? && request.uri.host.Some? then !EqIgnoreCase(host.value, request.uri.host.value)
             else host != request.uri.host
    ensures h !in StateAt(Start(c, request, body, referer), hops, j).request.headers
  {
    var s := Start(c, request, body, referer);
    StartIsUntouched(c, request, body, referer);
    CredentialsStayOnOrigin(c, request.headers, s, responses, hops, j);
    VisitedAt(c, s, responses, hops, i, j);
    VisitedAt(c, s, responses, hops, 0, j);
    var last := StateAt(s, hops, j);
    assert OriginOf(last.Visited()[i]) != OriginOf(last.Visited()[0]);
    assert CredentialStays(request.headers, last, h);
  }

  // ----- methods and bodies -----

  /** The fields that describe a body. */
  predicate IsPayload(h: HeaderName) {
    h.ContentType? || h.ContentLength? || h.ContentEncoding? || h.TransferEncoding?
  }

  ghost predicate HasNoPayload(headers: HeaderMap) {
    forall h | IsPayload(h) :: h !in headers
  }

  /** The body was dropped for good: GET, or HEAD if it was HEAD, with nothing to send and no payload field. */
  ghost predicate Bodiless(verb: string, s: State) {
    s.body.Empty? && s.request.verb == (if verb == "HEAD" then "HEAD" else "GET") && HasNoPayload(s.request.headers)
  }

  /** The method and the body are those of the caller, and the body is kept exactly if it can be sent again. */
  ghost predicate Original(verb: string, body: Body, s: State) {
    && s.request.verb == verb && !s.body.Empty? && (s.body.Held? <==> body.Resendable())
    && (s.body.Held? ==> s.body.body.content == body.content && s.body.body.Truthful() && s.body.body.reusable)
  }

  ghost predicate BodyStays(verb: string, body: Body, s: State, dropped: bool) {
    if dropped then Bodiless(verb, s) else Original(verb, body, s)
  }

  /** The redirect statuses after which a request with this method goes on without its body. */
  predicate DropsBody(verb: string, status: nat) {
    status == 303 || (verb == "POST" && (status == 301 || status == 302))
  }

  lemma RewriteKeepsBody(verb: string, body: Body, s: State, dropped: bool, status: nat)
    requires BodyStays(verb, body, s, dropped) && IsRedirect(status)
    ensures BodyStays(verb, body, Rewrite(s, status), dropped || DropsBody(verb, status))
  {
  }

  lemma HopKeepsBody(c: Config, verb: string, body: Body, s: State, dropped: bool, res: Response, hop: Hop)
    requires BodyStays(verb, body, s, dropped) && IsHop(c, s, res, hop)
    ensures BodyStays(verb, body, hop.state, dropped || DropsBody(verb, res.status))
    ensures if dropped || DropsBody(verb, res.status) then hop.payload == NO_BODY
            else hop.payload.content == body.content && body.Resendable()
  {
    var s2, s3, location := HopParts(c, s, res, hop);
    var s1 := Rewrite(s, res.status);
    RewriteKeepsBody(verb, body, s, dropped, res.status);
    assert s3.body == Take(s1.body).0 && s3.request == s1.request;
    assert hop.state.body == TryCloneFrom(s3.body, hop.payload) && hop.state.request.verb == s1.request.verb;
    assert HasNoPayload(s1.request.headers) ==> HasNoPayload(hop.state.request.headers);
  }

  /** One of the first `i` responses dropped the body. */
  ghost predicate Dropped(verb: string, responses: seq<Response>, i: nat)
    requires i <= |responses|
  {
    exists k | 0 <= k < i :: DropsBody(verb, responses[k].status)
  }

  /**
   In every run a request goes out with the original method and exactly the original body until a response
   drops the body. From then on every request has an empty body, method GET (HEAD if it was HEAD) and no
   payload field. A body that cannot be sent again is never sent again.
   */
  lemma {:induction false} BodyIsOriginalUntilDropped(c: Config, verb: string, body: Body, s: State, responses: seq<Response>,
                                                      hops: seq<Hop>, i: nat)
    requires BodyStays(verb, body, s, false) && IsRun(c, s, responses, hops) && i <= |hops|
    ensures BodyStays(verb, body, StateAt(s, hops, i), Dropped(verb, responses, i))
    ensures i > 0 ==>
              if Dropped(verb, responses, i) then hops[i - 1].payload == NO_BODY
              else hops[i - 1].payload.content == body.content && body.Resendable()
  {
    if i > 0 {
      BodyIsOriginalUntilDropped(c, verb, body, s, responses, hops, i - 1);
      assert IsHopAt(c, s, responses, hops, i - 1);
      HopKeepsBody(c, verb, body, StateAt(s, hops, i - 1), Dropped(verb, responses, i - 1), responses[i - 1], hops[i - 1]);
      assert Dropped(verb, responses, i) <==> Dropped(verb, responses, i - 1) || DropsBody(verb, responses[i - 1].status);
    }
  }

  lemma StartKeepsBody(c: Config, request: Request, body: Body, referer: bool)
    requires body.Truthful()
    ensures BodyStays(request.verb, body, Start(c, request, body, referer), false)
  {
  }

  // ----- the other fields -----

  /** A field is what it was, except that a payload field is gone once the body is. */
  predicate FieldStays(first: HeaderMap, headers: HeaderMap, h: HeaderName, dropped: bool) {
    if dropped && IsPayload(h) then h !in headers
    else (h in headers <==> h in first) && (h in headers ==> headers[h] == first[h])
  }

  lemma HopOfField(c: Config, s: State, res: Response, hop: Hop, h: HeaderName)
    requires IsHop(c, s, res, hop) && !IsCredential(h) && (h.Referer? ==> s.referrer.None?)
    ensures FieldStays(s.request.headers, hop.state.request.headers, h, DropsBody(s.request.verb, res.status))
    ensures hop.state.referrer.None? <==> s.referrer.None?
  {
    var s2, s3, location := HopParts(c, s, res, hop);
    var s1 := Rewrite(s, res.status);
    RewriteOfField(s, res.status, h);
    assert s3.request == s1.request && s3.referrer.None? == s.referrer.None?;
    FollowKeepsField(c, s3, location, hop.payload, h);
  }

  lemma RewriteOfField(s: State, status: nat, h: HeaderName)
    ensures FieldStays(s.request.headers, Rewrite(s, status).request.headers, h, DropsBody(s.request.verb, status))
  {
  }

  lemma FollowKeepsField(c: Config, s: State, location: Uri, body: Body, h: HeaderName)
    requires !IsCredential(h) && (h.Referer? ==> s.referrer.None?)
    ensures FieldStays(s.request.headers, FollowTo(c, s, location, body).request.headers, h, false)
    ensures FollowTo(c, s, location, body).referrer.None? <==> s.referrer.None?
  {
  }

  /**
   In every run a field other than credentials, payload and Referer is sent as the caller wrote it. A payload field is sent
   until a response drops the body. The Referer field stays as well when referrer handling is off.
   */
  lemma {:induction false} OtherFieldsStay(c: Config, body: Body, s: State, responses: seq<Response>, hops: seq<Hop>, i: nat,
                                           h: HeaderName)
    requires BodyStays(s.request.verb, body, s, false) && IsRun(c, s, responses, hops) && i <= |hops|
    requires !IsCredential(h) && (h.Referer? ==> s.referrer.None?)
    ensures FieldStays(s.request.headers, StateAt(s, hops, i).request.headers, h, Dropped(s.request.verb, responses, i))
    ensures StateAt(s, hops, i).referrer.None? <==> s.referrer.None?
  {
    if i > 0 {
      var verb, before, hop := s.request.verb, StateAt(s, hops, i - 1), hops[i - 1];
      OtherFieldsStay(c, body, s, responses, hops, i - 1, h);
      BodyIsOriginalUntilDropped(c, verb, body, s, responses, hops, i - 1);
      assert IsHopAt(c, s, responses, hops, i - 1);
      FieldStep(c, s.request.headers, verb, body, before, Dropped(verb, responses, i - 1), responses[i - 1], hop, h);
      assert Dropped(verb, responses, i) <==> Dropped(verb, responses, i - 1) || DropsBody(verb, responses[i - 1].status);
    }
  }

  lemma FieldStep(c: Config, first: HeaderMap, verb: string, body: Body, s: State, dropped: bool, res: Response, hop: Hop,
                  h: HeaderName)
    requires BodyStays(verb, body, s, dropped) && IsHop(c, s, res, hop)
    requires !IsCredential(h) && (h.Referer? ==> s.referrer.None?) && FieldStays(first, s.request.headers, h, dropped)
    ensures FieldStays(first, hop.state.request.headers, h, dropped || DropsBody(verb, res.status))
    ensures hop.state.referrer.None? <==> s.referrer.None?
  {
    HopOfField(c, s, res, hop, h);
    HopKeepsBody(c, verb, body, s, dropped, res, hop);
  }

  // ----- what one response leads to -----

  /** What the policy answers for the next hop of a chain that has visited these URIs. */
  function Answer(kind: PolicyKind, visited: seq<Uri>, res: Response, location: Uri): Decision {
    match kind
    case Custom(decide) => decide(Attempt(res.status, res.headers, location, visited))
    case Limit(max) => Now(if |visited| <= max then Follow else Fail)
    case NoRedirects => Now(Stop)
  }

  /** A response ends the chain, or it is followed; which one depends on these conditions alone. */
  lemma StepIsExact(c: Config, s: State, res: Response)
    ensures var step := StepOn(c, s, res);
            if res.status !in {301, 302, 303, 307, 308} then step == Done(Final(res, s.request.uri, s.history))
            else if res.location.None? || (s.body.Nothing? && !DropsBody(s.request.verb, res.status)) then step == Done(Returned(res))
            else
              match Answer(c.kind, s.Visited(), res, res.location.value)
              case Now(Fail) => step == Done(Refused)
              case Later(Fail) => step == Done(Refused)
              case Now(Stop) => step == Done(Returned(res))
              case Later(Stop) => step == Done(Returned(res))
              case Later(Follow) => step.Sent? && step.late
              case Now(Follow) =>
                if IsAllowed(c, res.location.value) then step.Sent? && !step.late else step == Done(Refused)
  {
    assert Rewrite(s, res.status).uris == s.uris && Rewrite(s, res.status).request.uri == s.request.uri;
  }

  /**
   Under a limit a redirect is followed exactly when fewer than `max` were followed before, its scheme is allowed, and the
   body can be sent again or is no longer needed.
   */
  lemma LimitFollowsExactly(c: Config, request: Request, body: Body, referer: bool, responses: seq<Response>, hops: seq<Hop>,
                            res: Response)
    requires c.kind.Limit? && body.Truthful() && IsRun(c, Start(c, request, body, referer), responses, hops)
    requires res.status in {301, 302, 303, 307, 308} && res.location.Some?
    ensures StepOn(c, StateAt(Start(c, request, body, referer), hops, |hops|), res).Sent? <==>
            && |hops| < c.kind.max && IsAllowed(c, res.location.value)
            && (body.Resendable() || Dropped(request.verb, responses, |hops|) || DropsBody(request.verb, res.status))
  {
    var s := Start(c, request, body, referer);
    var last := StateAt(s, hops, |hops|);
    StartIsUntouched(c, request, body, referer);
    StartKeepsBody(c, request, body, referer);
    BodyIsOriginalUntilDropped(c, request.verb, body, s, responses, hops, |hops|);
    VisitedAt(c, s, responses, hops, 0, |hops|);
    StepIsExact(c, last, res);
  }

  // ----- length and history -----

  /** What a hop does to the visited URIs and to the history. */
  predicate Follows(c: Config, before: State, res: Response, hop: Hop) {
    && (c.kind.Limit? ==> |before.uris| < c.kind.max)
    && hop.state.uris == before.Visited()
    && hop.state.history ==
         before.history + if hop.late then [] else [HistoryEntry(res.status, hop.state.request.uri, before.request.uri, res.headers)]
  }

  predicate IsTrail(c: Config, s: State, responses: seq<Response>, hops: seq<Hop>) {
    |hops| <= |responses| && forall i | 0 <= i < |hops| :: FollowsAt(c, s, responses, hops, i)
  }

  predicate FollowsAt(c: Config, s: State, responses: seq<Response>, hops: seq<Hop>, i: nat)
    requires i < |hops| <= |responses|
  {
    Follows(c, StateAt(s, hops, i), responses[i], hops[i])
  }

  lemma HopFollows(c: Config, s: State, res: Response, hop: Hop)
    requires IsHop(c, s, res, hop)
    ensures Follows(c, s, res, hop)
  {
    var s2, s3, location := HopParts(c, s, res, hop);
  }

  lemma RunIsTrail(c: Config, s: State, responses: seq<Response>, hops: seq<Hop>)
    requires IsRun(c, s, responses, hops)
    ensures IsTrail(c, s, responses, hops)
  {
    forall i | 0 <= i < |hops| ensures FollowsAt(c, s, responses, hops, i) {
      assert IsHopAt(c, s, responses, hops, i);
      HopFollows(c, StateAt(s, hops, i), responses[i], hops[i]);
    }
  }

  lemma {:induction false} VisitedGrows(c: Config, s: State, responses: seq<Response>, hops: seq<Hop>, i: nat)
    requires IsTrail(c, s, responses, hops) && i <= |hops|
    ensures |StateAt(s, hops, i).uris| == |s.uris| + i
    ensures StateAt(s, hops, i).Visited()[0] == s.Visited()[0]
  {
    if i > 0 {
      VisitedGrows(c, s, responses, hops, i - 1);
      assert FollowsAt(c, s, responses, hops, i - 1);
    }
  }

  lemma TrailWithinLimit(c: Config, s: State, responses: seq<Response>, hops: seq<Hop>)
    requires c.kind.Limit? && s.uris == [] && IsTrail(c, s, responses, hops)
    ensures |hops| <= c.kind.max
  {
    if hops != [] {
      VisitedGrows(c, s, responses, hops, |hops| - 1);
      assert FollowsAt(c, s, responses, hops, |hops| - 1);
    }
  }

  /** Under a limit a run follows at most `max` redirects, so at most `max + 1` requests are sent. */
  lemma LimitBoundsRuns(c: Config, s: State, responses: seq<Response>, hops: seq<Hop>)
    requires c.kind.Limit? && s.uris == [] && IsRun(c, s, responses, hops)
    ensures |hops| <= c.kind.max
  {
    RunIsTrail(c, s, responses, hops);
    TrailWithinLimit(c, s, responses, hops);
  }

  /** After `max` hops a redirect is refused, or returned as it is when its body cannot be sent again. */
  lemma LimitRefusesTheNext(c: Config, s: State, responses: seq<Response>, hops: seq<Hop>, res: Response)
    requires c.kind.Limit? && s.uris == [] && IsRun(c, s, responses, hops) && |hops| == c.kind.max
    requires IsRedirect(res.status) && res.location.Some?
    ensures var last := StateAt(s, hops, |hops|);
            StepOn(c, last, res) == Done(if Rewrite(last, res.status).body.Nothing? then Returned(res) else Refused)
  {
    RunIsTrail(c, s, responses, hops);
    VisitedGrows(c, s, responses, hops, |hops|);
  }

  /** How many of the first `i` hops were decided asynchronously. */
  function LateHops(hops: seq<Hop>, i: nat): (n: nat)
    requires i <= |hops|
    ensures n <= i
  {
    if i == 0 then 0 else LateHops(hops, i - 1) + if hops[i - 1].late then 1 else 0
  }

  /** The history has one entry for every hop that was decided at once, and none for the others. */
  lemma {:induction false} HistoryCountsPromptHops(c: Config, s: State, responses: seq<Response>, hops: seq<Hop>, i: nat)
    requires IsTrail(c, s, responses, hops) && i <= |hops| && s.history == []
    ensures |StateAt(s, hops, i).history| + LateHops(hops, i) == i
  {
    if i > 0 {
      HistoryCountsPromptHops(c, s, responses, hops, i - 1);
      assert FollowsAt(c, s, responses, hops, i - 1);
    }
  }

  /** The history is a contiguous path over all visited URIs. */
  ghost predicate HistoryIsPath(s: State) {
    && |s.history| == |s.uris|
    && forall i | 0 <= i < |s.history| ::
         s.history[i].previous == s.Visited()[i] && s.history[i].uri == s.Visited()[i + 1]
  }

  lemma PathGrows(c: Config, s: State, res: Response, hop: Hop)
    requires HistoryIsPath(s) && Follows(c, s, res, hop) && !hop.late
    ensures HistoryIsPath(hop.state)
  {
    var v, w := s.Visited(), hop.state.Visited();
    assert w == v + [hop.state.request.uri];
  }

  lemma {:induction false} PromptRunsRecordPath(c: Config, s: State, responses: seq<Response>, hops: seq<Hop>, i: nat)
    requires IsTrail(c, s, responses, hops) && i <= |hops| && HistoryIsPath(s)
    requires LateHops(hops, i) == 0
    ensures HistoryIsPath(StateAt(s, hops, i))
  {
    if i > 0 {
      PromptRunsRecordPath(c, s, responses, hops, i - 1);
      assert FollowsAt(c, s, responses, hops, i - 1);
      PathGrows(c, StateAt(s, hops, i - 1), responses[i - 1], hops[i - 1]);
    }
  }

  /**
   The history attached to a final response is a contiguous path from the first URI to the URI of the
   response, with one entry for each hop, exactly when no hop was decided asynchronously.
   */
  lemma FinalHistoryIsPathIffPrompt(c: Config, s: State, responses: seq<Response>, hops: seq<Hop>, ending: Ending)
    requires s.uris == [] && s.history == []
    requires Redirect.EndsWith(c, s, responses, hops, ending) && ending.Final?
    ensures |ending.history| + LateHops(hops, |hops|) == |hops|
    ensures IsPath(s.request.uri, ending.history, ending.uri, |hops|) <==> LateHops(hops, |hops|) == 0
  {
    FinalCarriesHistory(c, StateAt(s, hops, |hops|), responses[|hops|], ending);
    RunIsTrail(c, s, responses, hops);
    TrailIsPathIffPrompt(c, s, responses, hops);
  }

  lemma TrailIsPathIffPrompt(c: Config, s: State, responses: seq<Response>, hops: seq<Hop>)
    requires s.uris == [] && s.history == [] && IsTrail(c, s, responses, hops)
    ensures var last := StateAt(s, hops, |hops|);
            && |last.history| + LateHops(hops, |hops|) == |hops|
            && (IsPath(s.request.uri, last.history, last.request.uri, |hops|) <==> LateHops(hops, |hops|) == 0)
  {
    var last := StateAt(s, hops, |hops|);
    HistoryCountsPromptHops(c, s, responses, hops, |hops|);
    if LateHops(hops, |hops|) == 0 {
      assert HistoryIsPath(last) by { PromptRunsRecordPath(c, s, responses, hops, |hops|); }
      assert |last.uris| == |hops| && last.Visited()[0] == s.request.uri by { VisitedGrows(c, s, responses, hops, |hops|); }
      assert last.Visited()[|hops|] == last.request.uri;
    }
  }

  lemma FinalCarriesHistory(c: Config, s: State, res: Response, ending: Ending)
    requires StepOn(c, s, res) == Done(ending) && ending.Final?
    ensures ending == Final(res, s.request.uri, s.history)
  {
  }

  /** `entries` leads from `first` to `last` in `n` contiguous steps. */
  ghost predicate IsPath(first: Uri, entries: seq<HistoryEntry>, last: Uri, n: nat) {
    && |entries| == n
    && (if n == 0 then first == last else entries[0].previous == first && entries[n - 1].uri == last)
    && forall i | 0 <= i < n - 1 :: entries[i].uri == entries[i + 1].previous
  }

  // ----- schemes -----

  /** Http or https, and https alone when only that is allowed. */
  predicate IsAllowed(c: Config, uri: Uri) {
    uri.IsHttps() || (uri.IsHttp() && !c.httpsOnly)
  }

  /** What the policy is asked about a response. */
  function AttemptFor(s: State, res: Response): Attempt
    requires res.location.Some?
  {
    Attempt(res.status, res.headers, res.location.value, s.Visited())
  }

  /** When the policy says follow, the next request is sent exactly when it said so asynchronously or the scheme is allowed. */
  lemma FollowIsSentIffLateOrAllowed(c: Config, s: State, res: Response)
    requires AsksPolicy(s, res) && Decide(c.kind, AttemptFor(s, res)).verdict == Follow
    ensures StepOn(c, s, res).Sent? <==> Decide(c.kind, AttemptFor(s, res)).Later? || IsAllowed(c, res.location.value)
  {
  }

  /** A chain from its first request: the responses that arrived and the requests sent after them. */
  datatype Chain = Chain(request: Request, body: Body, referer: bool, responses: seq<Response>, hops: seq<Hop>) {
    function First(c: Config): State {
      Start(c, request, body, referer)
    }

    function Last(c: Config): State {
      StateAt(First(c), hops, |hops|)
    }

    predicate IsPossible(c: Config) {
      |responses| == |hops| && IsRun(c, First(c), responses, hops)
    }
  }

  /** Every hop of every run leads to an allowed scheme. */
  ghost predicate KeepsSchemes(c: Config) {
    forall chain: Chain | chain.IsPossible(c) :: AllAllowed(c, chain.hops)
  }

  predicate AllAllowed(c: Config, hops: seq<Hop>) {
    forall i | 0 <= i < |hops| :: IsAllowed(c, hops[i].state.request.uri)
  }

  /** In this state, this response makes the chain ask its policy. */
  predicate AsksPolicy(s: State, res: Response) {
    IsRedirect(res.status) && res.location.Some? && !Rewrite(s, res.status).body.Nothing?
  }

  /** Whatever run the policy is asked in, it answers follow asynchronously only for allowed schemes. */
  ghost predicate LateAnswersAreAllowed(c: Config) {
    forall chain: Chain, res: Response | chain.IsPossible(c) && AsksPolicy(chain.Last(c), res) ::
      Decide(c.kind, AttemptFor(chain.Last(c), res)) == Later(Follow) ==> IsAllowed(c, res.location.value)
  }

  lemma HopIsAllowedOrLate(c: Config, s: State, res: Response, hop: Hop)
    requires IsHop(c, s, res, hop)
    ensures AsksPolicy(s, res) && res.location == Some(hop.state.request.uri)
    ensures if hop.late then Decide(c.kind, AttemptFor(s, res)) == Later(Follow) else IsAllowed(c, hop.state.request.uri)
  {
    var s2, s3, location := HopParts(c, s, res, hop);
    HopVisits(c, s, res, hop);
  }

  /** The first `i` hops of a chain are a chain. */
  lemma PrefixIsPossible(c: Config, chain: Chain, i: nat) returns (prefix: Chain)
    requires chain.IsPossible(c) && i <= |chain.hops|
    ensures prefix.IsPossible(c) && prefix.Last(c) == StateAt(chain.First(c), chain.hops, i)
  {
    prefix := chain.(responses := chain.responses[..i], hops := chain.hops[..i]);
    forall k | 0 <= k < i ensures IsHopAt(c, chain.First(c), prefix.responses, prefix.hops, k) {
      assert IsHopAt(c, chain.First(c), chain.responses, chain.hops, k);
    }
  }

  /** One more hop makes a longer chain. */
  lemma ChainGrows(c: Config, chain: Chain, res: Response, hop: Hop) returns (longer: Chain)
    requires chain.IsPossible(c) && IsHop(c, chain.Last(c), res, hop)
    ensures longer.IsPossible(c) && longer.hops == chain.hops + [hop]
  {
    longer := chain.(responses := chain.responses + [res], hops := chain.hops + [hop]);
    forall k | 0 <= k < |longer.hops| ensures IsHopAt(c, chain.First(c), longer.responses, longer.hops, k) {
      if k < |chain.hops| { assert IsHopAt(c, chain.First(c), chain.responses, chain.hops, k); }
      assert StateAt(chain.First(c), longer.hops, k) == StateAt(chain.First(c), chain.hops, k);
    }
  }

  /** An asynchronous follow is always sent. */
  lemma LateAnswerIsHop(c: Config, s: State, res: Response) returns (hop: Hop)
    requires AsksPolicy(s, res) && Decide(c.kind, AttemptFor(s, res)) == Later(Follow)
    ensures IsHop(c, s, res, hop) && hop.late && Some(hop.state.request.uri) == res.location
  {
    FollowIsSentIffLateOrAllowed(c, s, res);
    var step := StepOn(c, s, res);
    hop := Hop(step.next, step.payload, step.late);
    HopVisits(c, s, res, hop);
  }

  /** All runs keep to the allowed schemes exactly when every asynchronous answer that a run can receive does. */
  lemma SchemesAreKeptIffLateAnswersAllowed(c: Config)
    ensures KeepsSchemes(c) <==> LateAnswersAreAllowed(c)
  {
    if LateAnswersAreAllowed(c) {
      forall chain: Chain | chain.IsPossible(c) ensures AllAllowed(c, chain.hops) { LateAnswersKeepChain(c, chain); }
    }
    if KeepsSchemes(c) {
      forall chain: Chain, res: Response
        | chain.IsPossible(c) && AsksPolicy(chain.Last(c), res) && Decide(c.kind, AttemptFor(chain.Last(c), res)) == Later(Follow)
        ensures IsAllowed(c, res.location.value)
      {
        var hop := LateAnswerIsHop(c, chain.Last(c), res);
        var longer := ChainGrows(c, chain, res, hop);
        assert longer.hops[|chain.hops|] == hop;
      }
    }
  }

  lemma LateAnswersKeepChain(c: Config, chain: Chain)
    requires LateAnswersAreAllowed(c) && chain.IsPossible(c)
    ensures AllAllowed(c, chain.hops)
  {
    forall i | 0 <= i < |chain.hops| ensures IsAllowed(c, chain.hops[i].state.request.uri) {
      var prefix := PrefixIsPossible(c, chain, i);
      assert IsHopAt(c, chain.First(c), chain.responses, chain.hops, i);
      HopIsAllowedOrLate(c, prefix.Last(c), chain.responses[i], chain.hops[i]);
    }
  }

  /** Every hop of a run has an allowed scheme exactly when every asynchronous hop has. */
  lemma RunIsAllowedIffLateHopsAre(c: Config, s: State, responses: seq<Response>, hops: seq<Hop>)
    requires IsRun(c, s, responses, hops)
    ensures AllAllowed(c, hops) <==>
            (forall i | 0 <= i < |hops| :: hops[i].late ==> IsAllowed(c, hops[i].state.request.uri))
  {
    forall i | 0 <= i < |hops| ensures hops[i].late || IsAllowed(c, hops[i].state.request.uri) {
      assert IsHopAt(c, s, responses, hops, i);
      HopIsAllowedOrLate(c, StateAt(s, hops, i), responses[i], hops[i]);
    }
  }

  /** A chain that only https is allowed for reaches http when the policy follows asynchronously. */
  lemma LateHopCanLeaveHttps(request: Request, location: Uri) returns (c: Config, response: Response, hop: Hop)
    requires location.IsHttp()
    ensures c.httpsOnly && IsRun(c, Start(c, request, NO_BODY, false), [response], [hop])
    ensures hop.state.request.uri == location && !IsAllowed(c, hop.state.request.uri)
  {
    c := Config(Custom(_ => Later(Follow)), true, _ => None, _ => "");
    var s := Start(c, request, NO_BODY, false);
    response := Response(307, map[], Some(location), []);
    var step := StepOn(c, s, response);
    hop := Hop(step.next, step.payload, step.late);
    HopVisits(c, s, response, hop);
    assert IsHopAt(c, s, [response], [hop], 0);
  }
}
