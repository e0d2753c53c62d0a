/**
 The future that follows redirects, updating the request, the body and the policy in place.
 Each response is handled as one step of `Redirect.StepOn`.
 */
module RedirectFuture {
  import opened Text
  import opened Uris
  import opened Redirect

  /** Reads the policy tokens in order and keeps the last recognised one. */
  method ReadPolicy(tokens: seq<string>) returns (policy: ReferrerPolicy)
    ensures policy == LastPolicy(tokens)
  {
    policy := NoPolicy;
    for i := 0 to |tokens|
      invariant policy == LastPolicy(tokens[..i])
    {
      var parsed := ParsePolicy(tokens[i]);
      if parsed != NoPolicy {
        policy := parsed;
      }
      assert tokens[..i + 1][..i] == tokens[..i];
    }
    assert tokens[..|tokens|] == tokens;
  }

  class ResponseFuture {
    const config: Config
    var request: Request
    var bodyRepr: BodyRepr
    var uris: seq<Uri>
    var history: seq<HistoryEntry>
    var referrer: Option<Referrer>

    ghost function View(): State
      reads this
    {
      State(request, bodyRepr, uris, history, referrer)
    }

    /** The first request goes out with the body as it is; `referer` turns referrer handling on. */
    constructor (config: Config, request: Request, body: Body, referer: bool)
      ensures this.config == config && View() == Start(config, request, body, referer)
    {
      this.config, this.request := config, request;
      bodyRepr, uris, history := Nothing, [], [];
      referrer := if referer then Some(NewReferrer(config, request.headers)) else None;
      new;
      TryCloneBody(body);
      PrepareRequest();
    }

    method TakeBody() returns (body: Option<Body>)
      modifies this`bodyRepr
      ensures (bodyRepr, body) == Take(old(bodyRepr))
    {
      var taken := bodyRepr;
      bodyRepr := Nothing;
      match taken {
        case Held(held) => body := Some(held);
        case Empty => bodyRepr, body := Empty, Some(NO_BODY);
        case Nothing => body := None;
      }
    }

    method TryCloneBody(body: Body)
      modifies this`bodyRepr
      ensures bodyRepr == TryCloneFrom(old(bodyRepr), body)
    {
      if bodyRepr.Nothing? {
        if body.exact == Some(0) {
          bodyRepr := Held(NO_BODY);
        } else if body.reusable {
          bodyRepr := Held(body);
        }
      }
    }

    /** Rewrites the method and drops body and payload fields as the status demands. */
    method RewriteFor(status: nat)
      requires IsRedirect(status)
      modifies this`request, this`bodyRepr
      ensures View() == Rewrite(old(View()), status)
    {
      if status == 301 || status == 302 {
        if request.verb == "POST" {
          request := request.(verb := "GET");
          bodyRepr := Empty;
          request := request.(headers := request.headers - PAYLOAD);
        }
      } else if status == 303 {
        if request.verb != "HEAD" {
          request := request.(verb := "GET");
        }
        bodyRepr := Empty;
        request := request.(headers := request.headers - PAYLOAD);
      }
    }

    /** Asks the policy. None stands for an error that ends the chain. */
    method AskPolicy(res: Response, location: Uri) returns (decision: Option<Decision>)
      modifies this`uris, this`referrer, this`history
      ensures var s := BeforeDecision(old(View()), res);
              var d := Decide(config.kind, Attempt(res.status, res.headers, location, s.uris));
              var bad := d == Now(Follow) &&
                         (!(location.IsHttp() || location.IsHttps()) || (config.httpsOnly && !location.IsHttps()));
              if d == Now(Fail) || bad then decision == None
              else decision == Some(d) && View() == if d == Now(Follow) then Recorded(config, s, res, location) else s
    {
      uris := uris + [request.uri];
      if referrer.Some? {
        var policy := ReadPolicy(res.policies);
        if policy != NoPolicy {
          referrer := Some(referrer.value.(policy := policy));
        }
      }
      var d := Decide(config.kind, Attempt(res.status, res.headers, location, uris));
      if d == Now(Fail) {
        return None;
      }
      if d == Now(Follow) {
        if !(location.IsHttp() || location.IsHttps()) {
          return None;
        }
        if config.httpsOnly && !location.IsHttps() {
          return None;
        }
        if !config.kind.NoRedirects? {
          history := history + [HistoryEntry(res.status, location, request.uri, res.headers)];
        }
      }
      decision := Some(d);
    }

    /** Removes what must not go to another origin and sets the referrer. */
    method PrepareRequest()
      modifies this`request, this`referrer
      ensures View() == OnRequest(config, old(View()))
    {
      if uris != [] && !SameOrigin(request.uri, uris[|uris| - 1]) {
        request := request.(headers := request.headers - CREDENTIALS);
      }
      if uris != [] && referrer.Some? {
        var (r, req) := ApplyReferrer(config, referrer.value, request);
        referrer, request := Some(r), req;
      }
    }

    /** Carries out a verdict: sends the next request, returns the response, or fails. */
    method HandleAction(verdict: Verdict, res: Response, location: Uri, body: Body) returns (ending: Option<Ending>)
      modifies this`request, this`bodyRepr, this`referrer
      ensures verdict == Follow ==> ending == None && View() == FollowTo(config, old(View()), location, body)
      ensures verdict == Stop ==> ending == Some(Returned(res))
      ensures verdict == Fail ==> ending == Some(Refused)
    {
      match verdict {
        case Follow =>
          request := request.(uri := location);
          TryCloneBody(body);
          PrepareRequest();
          ending := None;
        case Stop =>
          ending := Some(Returned(res));
        case Fail =>
          ending := Some(Refused);
      }
    }

    /** Handles one response: the chain ends, or the next request goes out with `payload`. */
    method OnResponse(res: Response) returns (ending: Option<Ending>, payload: Option<Body>)
      modifies this
      ensures match StepOn(config, old(View()), res)
              case Done(e) => ending == Some(e) && payload == None
              case Sent(next, p, _) => ending == None && payload == Some(p) && View() == next
    {
      payload := None;
      if !IsRedirect(res.status) {
        return Some(Final(res, request.uri, history)), None;
      }
      RewriteFor(res.status);
      var body := TakeBody();
      if body.None? || res.location.None? {
        return Some(Returned(res)), None;
      }
      var decision := AskPolicy(res, res.location.value);
      if decision.None? {
        return Some(Refused), None;
      }
      ending := HandleAction(decision.value.verdict, res, res.location.value, body.value);
      if ending.None? {
        payload := body;
      }
    }
  }
}
