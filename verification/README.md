# Verified models of wreq

wreq is an HTTP client. This project models the parts of it that keep state across calls or put bytes
together, and proves what they keep over every input and every run. `dafny verify dfyconfig.toml` checks
all of it.

Strings are byte strings: every `char` is one byte of the UTF-8 text. Times are integers in nanoseconds.
Host parsing, URL parsing, port printing, the clock, the network and custom redirect policies are
parameters, so every theorem holds whatever they do.

**Cookies.** `CookieStore.Store` is the nested map of domain, path, host-only scope and name, and
`CookieJar.Jar` runs the storage and retrieval steps of RFC 6265 on it. Both are proved to be the operations
of `CookieModel` on a flat map. Over that model:

- `CookieSecurity`: after an accepted insecure add, the Secure cookie of the same name is sent first with every
  later request that selects both, and insecure runs never touch a live Secure cookie.
- `CookieHeader`: the order sent is unique exactly when no two selected cookies tie, which needs a saturated
  counter, and the HTTP/1 field joins the HTTP/2 list.
- `CookieDelivery`: what is stored, and which requests get it in which order, said of the received cookie and the
  requests alone: by labels, path segments and dates.
- `CookieRestore`: adding a snapshot back to an empty jar is faithful exactly when no live cookie is blocked, no
  stored host starts with a dot and nothing ties.

**Address race.** `AddressRace.Race` is the Happy Eyeballs scheduler of RFC 8305. A schedule says what every poll
finds; it is arbitrary. `RaceLog.SnapAt` is the run that a schedule determines, and the class takes exactly that
run. `RaceLog.NextPollIsExact` says which attempts each poll has. In every run addresses are started in one fixed
order and each at most once, no poll finds the race idle or
above six attempts, no connection is overlooked, at most one poll per address finds an answer, only the oldest of
six is ever cancelled, and an error is returned only when every address has broken or was cancelled, each for a
reason that is on the log.

**Redirects.** `RedirectFuture.ResponseFuture` handles one response as one step of `Redirect.StepOn`. Over
every run: credentials stay on the first origin, the body is the original one until a response drops it, the
referrer is the caller's one cut to the least disclosed so far, the limit holds, the history is a path exactly
when no hop was decided asynchronously, and schemes are kept exactly when asynchronous answers keep them.

**TLS sessions.** `TlsSessions.LruTlsSessionCache` has a list per key and a reverse index. They agree over every
run exactly when each put finds its id absent or under its own key; then every key is a queue of its own and a
TLS 1.3 session is handed out at most once per put.

**Multipart forms and userinfo.** `Multipart.Form` prints a form and computes the length of the print.
`MultipartForm.FormBytes` gives the literal bytes, and `MultipartForm.ReadForm` reads them: a form comes back with all names, file names, media types,
headers and contents exactly when no content holds the delimiter and, without percent-encoding, no name holds a
quote or a blank line. `Userinfo` writes user name and
password into an authority; the proxy settings read them back exactly when they hold no escape.

## Where the code and its documentation differ

The models follow the code.

- The restore recipe in the documentation of `get_all` (src/cookie/jar.rs:99-106) uses http for cookies that
  are not Secure. It can lose a cookie: `CookieRestore.DocumentedRestoreCanLoseCookie`. The exact condition is
  `CookieRestore.RestoreIsFaithfulIff`.
- src/client/multipart.rs:449 says that a borrowed name is one in which nothing was encoded. The library also
  hands out a borrowed text when the whole name is one encoded byte, so a space is printed as `name="%20"`;
  `MultipartForm.SpaceIsQuotedEncoded`, with the exact condition in
  `MultipartForm.QuotedTextDiffersIffOneEncodedByte`. The round trip covers this case.
- src/client/multipart.rs:219-220 says that header blocks are cached so that they need not be made again. Nothing
  reads the cache; `Form.IntoStream` makes them again.
- Asynchronous policy decisions skip the scheme check and the history record (src/redirect.rs:401-425).
  `RedirectSafety.LateHopCanLeaveHttps` is a run where this matters; the exact conditions are
  `RedirectSafety.SchemesAreKeptIffLateAnswersAllowed` and `RedirectSafety.FinalHistoryIsPathIffPrompt`.

## Model

| member | source | states |
|---|---|---|
| CookieMatching.LeadingDotIsIgnored | src/cookie/store.rs:295-305 | one leading dot of a host is ignored, and no more than one |
| CookieMatching.DomainMatchIsSubdomain | src/cookie/store.rs:270-282 | domain matching holds exactly when the host is the domain, or labels, a dot and the domain; addresses match only themselves |
| CookieMatching.PathMatchIsSegmentPrefix | src/cookie/store.rs:287-292 | path matching is the prefix relation on slash-separated segments, with a trailing slash asking for one more segment |
| CookieMatching.JoinSegments | src/cookie/store.rs:287-292 | splitting a path into segments loses nothing |
| CookieMatching.DomainMatchIsPartialOrder | src/cookie/store.rs:270-282 | domain matching is reflexive, antisymmetric and transitive |
| CookieMatching.PathMatchIsPartialOrder | src/cookie/store.rs:287-292 | path matching is reflexive, antisymmetric and transitive |
| CookieMatching.MatchingDomainsFormChain | src/cookie/store.rs:270-282 | any two domains matched by one host match each other in one direction |
| CookieMatching.MatchingPathsFormChain | src/cookie/store.rs:287-292 | any two cookie paths matched by one request path match each other in one direction |
| CookieMatching.DefaultPathMatches | src/cookie/store.rs:310-321 | a default path starts with a slash, and a request path matches its own default path exactly when it starts with a slash |
| CookieModel.InsertKeepsIndexesInOrder | src/cookie/store.rs:111-141 | an insert keeps creation indexes behind the counter and distinct until the counter saturates |
| CookieModel.PlannedCookieAgrees | src/cookie/jar.rs:245-316 | name, Path, Domain and Max-Age of a cookie about to be stored agree with its key |
| CookieModel.ReachableStoresAreValid | src/cookie/jar.rs:227-363 | every store reached by adds, removals and clears has ordered indexes and cookies that agree with their keys |
| CookieStore.Store.constructor | src/cookie/store.rs:91-95 | a new store stands for the empty flat map |
| CookieStore.Store.InsertStoredCookie | src/cookie/store.rs:99-142 | inserting into the nested maps is an insert into the flat map; an equal value keeps its index; no inner map is empty |
| CookieStore.Store.RemoveFromPaths | src/cookie/store.rs:167-183 | exactly the chosen names at the path disappear below a domain, and no empty scope map is left |
| CookieStore.Store.RemoveStoredCookieInner | src/cookie/store.rs:160-191 | removing one scope or both removes exactly those keys from the flat map and leaves no empty inner map |
| CookieStore.Store.WouldOverlaySecureCookie | src/cookie/store.rs:214-231 | the nested search finds an unexpired Secure cookie exactly when one of the flat map would be overlaid |
| CookieStore.Store.Collect | src/cookie/store.rs:194-208 | the traversal in hash order yields every matching cookie exactly once |
| CookieJar.Jar.Prepare | src/cookie/jar.rs:232-302 | the steps before the lock give the plan of the model, which `CookieDelivery.PlanIsExact` says literally |
| CookieJar.Jar.AddCookie | src/cookie/jar.rs:227-318 | an add is the add of the model, which `CookieDelivery.AddIsExact` says literally, and keeps the invariant of every reachable store |
| CookieJar.Jar.RemoveCookie | src/cookie/jar.rs:334-348 | a removal takes both scopes of the name at the exact host and path, and nothing else |
| CookieJar.Jar.Clear | src/cookie/jar.rs:361-363 | the jar is empty and its counter starts over |
| CookieJar.Jar.SetCookies | src/cookie/jar.rs:367-376 | the cookies of a response are added in order |
| CookieJar.Jar.Get | src/cookie/jar.rs:47-61 | the result is an unexpired cookie of the exact scope that no other one is older than, or none exactly when there is none |
| CookieJar.Jar.GetAll | src/cookie/jar.rs:109-131 | the result is every live cookie once, in creation order |
| CookieJar.Jar.CookiesFor | src/cookie/jar.rs:378-440 | the cookies sent are exactly those that belong to the request by scheme, host, path segments, Secure flag and date, longest path first and then oldest, serialised for the version |
| CookieHeader.RequestOrderIsDeterminedIffNoTies | src/cookie/jar.rs:389-400 | the hash order and the unstable sort leave one possible order exactly when no two selected cookies share path length and creation index |
| CookieHeader.UnsaturatedOrderIsDetermined | src/cookie/store.rs:111-141 | in a valid store with an unsaturated counter nothing ties, so the order is unique |
| CookieHeader.SnapshotIsDeterminedIffNoSharedIndex | src/cookie/jar.rs:109-131 | the snapshot has one possible order exactly when no two unexpired cookies share a creation index |
| CookieHeader.CounterIsReachable | src/cookie/store.rs:111-126 | from the empty jar every counter value is reached by adds |
| CookieHeader.SaturatedOrderIsAmbiguous | src/cookie/store.rs:125-126 | a jar reached by adds whose counter is saturated and whose cookies can be sent in two orders |
| CookieHeader.Http1IsJoinOfHttp2 | src/cookie/jar.rs:402-439 | with valid pairs HTTP/2 has name, equals sign and value of each cookie in order and HTTP/1 is their "; " join; one invalid pair empties HTTP/1 and shortens HTTP/2 |
| CookieHeader.FieldOfOneCookie | src/cookie/jar.rs:402-439 | one cookie gives name, equals sign and value, or nothing when that is no field value |
| CookieHeader.Http2FieldsJoin | src/cookie/jar.rs:404-419 | every cookie adds its HTTP/2 value, or none, independently of the others |
| CookieHeader.SendableIffNoControlByte | src/cookie/jar.rs:404-419 | a cookie has a field value exactly when name and value hold no control byte other than a tab |
| CookieDelivery.SelectsIffBelongs | src/cookie/store.rs:235-255 | a request selects a stored cookie exactly when its scheme is http or https, https for a Secure one, its host is the domain or below it and the very host for a host-only one, its path has the cookie path as leading segments, and the date is not reached |
| CookieDelivery.RequestOrderIsDelivery | src/cookie/jar.rs:388-400 | the possible orders of a request are exactly the lists of those cookies, each once, by falling path length and then rising creation index |
| CookieDelivery.SnapshotIsListing | src/cookie/jar.rs:109-131 | the possible snapshots are exactly the lists of the live cookies, each once, by rising creation index |
| CookieDelivery.NormalizedIsDirectory | src/cookie/store.rs:310-321 | the default path is what precedes the last slash, or a slash when that is empty or the path does not start with one |
| CookieDelivery.OverlaysIffGuarded | src/cookie/store.rs:214-231 | an insecure add is refused exactly by a live Secure cookie of the name on a domain above or below and on leading path segments |
| CookieDelivery.PlanIgnoresIffNoScope | src/cookie/jar.rs:235-263 | a cookie is ignored exactly when it is Secure and does not come over https, or no host or Domain covers the request host |
| CookieDelivery.PlanIsExact | src/cookie/jar.rs:245-302 | with a Domain attribute the key has the canonical Domain, without one the canonical host and the host-only mark; path, name and stored attributes are said literally |
| CookieDelivery.PlannedKeyIs | src/cookie/jar.rs:245-263 | the key of every planned write or removal: the canonical Domain, or the canonical host with the host-only mark when there is no Domain |
| CookieDelivery.AddIsExact | src/cookie/jar.rs:227-318 | an add with a scope does nothing when it is refused, removes exactly its key when it arrives expired, and else writes exactly its key and leaves every other entry alone |
| CookieDelivery.UnscopedIsIgnored | src/cookie/jar.rs:240-263 | an add without a scope changes nothing |
| CookieDelivery.AddedCookieIsDelivered | src/cookie/jar.rs:227-318 | from the received field to any later request: an added cookie is selected exactly for the host or the Domain and below, on its path or the directory of the request, over https when Secure, before now plus Max-Age or the Expires date |
| CookieDelivery.EqualValueKeepsPlace | src/cookie/store.rs:107-122 | writing an equal value keeps the place among the cookies sent |
| CookieDelivery.NewValueMovesBehind | src/cookie/store.rs:107-126 | a new cookie or value is sent behind every other cookie with a path of the same length |
| CookieDelivery.RemoveNamedIsExact | src/cookie/jar.rs:334-348 | a removal takes exactly the two scopes of the name at the host and path and keeps every other entry |
| CookieSecurity.OverlayRuleSeparatesPaths | src/cookie/store.rs:214-231 | an accepted insecure cookie meets a Secure one of its name only where the Secure path is strictly longer |
| CookieSecurity.SecureCookieIsSentFirst | src/cookie/jar.rs:304-316 | after any later operations, every request that selects both sends the Secure cookie before the insecure one |
| CookieSecurity.InsecureRunKeepsSecure | src/cookie/jar.rs:235-239 | a run of adds from non-https origins neither changes nor removes a live Secure cookie |
| CookieSecurity.SecureCookiesComeFromHttps | src/cookie/jar.rs:235-316 | every stored Secure cookie of every reachable store was written by an https add |
| CookieSecurity.AcceptedCookieComesBack | src/cookie/store.rs:235-255 | an accepted cookie is selected for its own origin exactly when scheme, path and deadline allow it |
| CookieSecurity.DefaultPathCookieComesBack | src/cookie/jar.rs:254-316 | without a usable Path it is selected exactly for http and https URIs whose path starts with a slash |
| CookieRestore.RestoredPlan | src/cookie/jar.rs:227-318 | a stored cookie added back over its own host asks for its own key and content, or for deletion once expired |
| CookieRestore.RestoredIsCopy | src/cookie/jar.rs:227-318 | after n adds the restored jar holds exactly the cookies that were neither expired nor blocked, in order |
| CookieRestore.RestoreIsFaithfulIff | src/cookie/jar.rs:88-131 | the restored jar sends the same cookies in the same order with every later request exactly when no stored host starts with a dot, no live cookie was blocked, and no request finds two cookies that tie |
| CookieRestore.HttpsRestoreIsFaithful | src/cookie/jar.rs:88-131 | adding everything back over https is faithful exactly when no stored host starts with a dot and nothing ties, so always for dotless hosts and an unsaturated counter |
| CookieRestore.DocumentedRestoreCanLoseCookie | src/cookie/jar.rs:99-106 | a reachable jar for which the documented recipe is not faithful |
| CookieRestore.DottedHostIsNotRestored | src/cookie/store.rs:295-305 | a reachable jar with a cookie under a host that starts with a dot, which is not restored even over https |
| AddressList.FiltersPartition | src/dns.rs:65-72 | two complementary filters split a list without loss |
| AddressList.SplitLosesNothing | src/dns.rs:49-72 | unless exactly one family is bound, the split keeps every address, separates the families and starts with the first address |
| AddressList.InterleaveAlternates | src/conn/net/tcp.rs:277-296 | even positions come from the preferred family and odd ones from the other while both last; then the longer one follows in order |
| AddressList.LaunchOrderIsPermutation | src/conn/net/tcp.rs:127-169 | every usable address is tried as often as it was resolved, starting with the first; with one bound family these are its addresses in their own order |
| AddressList.SplitIsByFamily | src/dns.rs:49-72 | unless exactly one family is bound, the split is the family of the first address and then the other, both in resolved order |
| AddressList.FamiliesKeepTheirOrder | src/conn/net/tcp.rs:127-169 | unless exactly one family is bound, the addresses of each family are tried in the order in which they were resolved |
| AddressList.FamiliesAlternate | src/conn/net/tcp.rs:277-296 | the position of every address: even positions hold the family of the first address and odd ones the other while both last; then the longer family goes on |
| AddressRace.ConnectSequentially | src/conn/net/tcp.rs:216-241 | the first address that connects wins; otherwise the first error, or network unreachable for an empty list |
| AddressRace.Race.NextAddr | src/conn/net/tcp.rs:277-296 | the pulled address is the next one of the fixed interleaved order, and the queues hold the rest of it |
| AddressRace.Race.RecordError | src/conn/net/tcp.rs:299-304 | the kept error is the one of the smallest launch order among all failures |
| AddressRace.Race.LaunchNext | src/conn/net/tcp.rs:307-336 | the first address left whose socket can be set up starts behind the active attempts, or none is left |
| AddressRace.Race.PollAttempts | src/conn/net/tcp.rs:339-372 | the oldest connected attempt wins; otherwise exactly the pending ones survive, and failure is reported only when none does |
| AddressRace.Race.MakeRoomForNextAttempt | src/conn/net/tcp.rs:375-384 | only at the limit, and only the oldest attempt, is cancelled, and its reason is on the log |
| AddressRace.Race.TakeError | src/conn/net/tcp.rs:387-392 | the recorded error, or network unreachable; nothing stays recorded |
| AddressRace.Race.WaitForEvent | src/conn/net/tcp.rs:416-430 | waiting ends with the first event; no poll before it found a connection, and an elapsed delay with addresses left is never ignored |
| AddressRace.Race.ConnectInner | src/conn/net/tcp.rs:406-439 | the race takes exactly the run that the network determines: it goes on while there is something to poll and no connection, the oldest connected attempt wins, and an error comes only when each address broke or was cancelled at a poll of that run that gives the reason, and is the one of the smallest launch order among those that broke |
| AddressRace.ConnectByRace | src/conn/net/tcp.rs:172-182 | the same for the launch order of a lookup, in which the families alternate and each keeps its resolved order |
| RaceLog.SnapsAreGood | src/conn/net/tcp.rs:307-336 | at every poll at most six attempts are active, in strict launch order, for addresses pulled from the plan whose sockets could be set up |
| RaceLog.PollsAreBusy | src/conn/net/tcp.rs:406-439 | while a race goes on every poll has one to six active attempts, none of them connected |
| RaceLog.LaunchesFollowThePlan | src/conn/net/tcp.rs:307-336 | a new attempt is the next in the fixed order: every address between it and the last one pulled failed in socket setup |
| RaceLog.NoAttemptReturns | src/conn/net/tcp.rs:339-372 | no address is tried twice: an attempt active at two polls is pending at every poll between them |
| RaceLog.RaceHasOneEnd | src/conn/net/tcp.rs:406-439 | the network alone decides how many polls a race takes, whether it connects, waits or fails, which attempt wins and which error is returned, and for an error what became of every address |
| RaceLog.AddressHasOneFate | src/conn/net/tcp.rs:339-384 | an address breaks or is cancelled, never both, and with one error only: no two different ends of it have a reason in the same run |
| RaceLog.StaleLeaves | src/conn/net/tcp.rs:375-384 | an attempt cancelled as the oldest of six was pending and is active at no later poll |
| RaceLog.OnlyOldestOfSixIsCancelled | src/conn/net/tcp.rs:375-384 | in every run an attempt that is still pending leaves only as the oldest of six after an elapsed delay |
| RaceLog.FirstPollIsExact | src/conn/net/tcp.rs:307-336 | the first poll has the first address whose socket can be set up, and no other |
| RaceLog.NextPollIsExact | src/conn/net/tcp.rs:406-439 | exactly which attempts the next poll has: the pending ones but for the oldest of six after an elapsed delay, and the next address that can start if nothing is pending or the delay has elapsed |
| RaceLog.WinnerIsOldest | src/conn/net/tcp.rs:339-372 | the winner is connected, and no attempt connected by then was launched before it |
| RaceLog.AnsweringSchedulesEnd | src/conn/net/tcp.rs:406-439 | a race whose every poll answers some active attempt ends within one poll per address |
| RaceLog.AnswersAreBounded | src/conn/net/tcp.rs:406-439 | every answer uses up a pulled address, so at most one poll per address finds one |
| RaceLog.DecisiveSchedulesEnd | src/conn/net/tcp.rs:406-439 | a schedule with as many rounds that answer every attempt as addresses ends the race, whatever its other rounds do |
| RaceLog.DelaysLaunchEverything | src/conn/net/tcp.rs:416-438 | enough elapsed delays have every address tried, even when nothing is ever answered |
| RaceLog.HealthyAddressPreventsError | src/conn/net/tcp.rs:406-439 | an address that is set up and never reported broken prevents an error unless more than five addresses come after it |
| RaceLog.SmallRacesCancelNothing | src/conn/net/tcp.rs:375-384 | with at most six addresses an error means that every one of them broke |
| RaceLog.ActiveIsInLaunchOrder | src/conn/net/tcp.rs:320-326 | the queue is in strict launch order and holds pulled addresses under their own order |
| RaceLog.AfterEnd | src/conn/net/tcp.rs:339-384 | ending one attempt takes it and no other out of the queue |
| Redirect.SameOriginIsEquivalence | src/redirect.rs:473-483 | same-origin is reflexive, symmetric and transitive |
| Redirect.SameOriginIffOriginsEqual | src/redirect.rs:473-483 | two URIs have one origin exactly when scheme, host without case, and port are equal, with 443 for https and 80 otherwise as default |
| Redirect.SameOriginAsUrlIffHome | src/redirect.rs:698-709 | the same for a referrer and a destination, where a referrer that is neither http nor https has no default port |
| Text.EqIgnoreCaseIsBytewise | src/redirect.rs:473-478 | case is ignored for ASCII letters and for nothing else |
| RedirectFuture.ReadPolicy | src/redirect.rs:615-632 | the loop keeps the last recognised token |
| RedirectFuture.ResponseFuture.constructor | src/client/layer/redirect.rs:107-131 | a new chain is the start state of the model |
| RedirectFuture.ResponseFuture.TakeBody | src/client/layer/redirect.rs:27-36 | taking a kept body leaves none; an empty one stays |
| RedirectFuture.ResponseFuture.TryCloneBody | src/client/layer/redirect.rs:38-50 | a body is kept only when none is held and it is empty or can be cloned |
| RedirectFuture.ResponseFuture.AskPolicy | src/redirect.rs:376-428 | the policy sees all visited URIs; a direct follow must have an allowed scheme and is recorded |
| RedirectFuture.ResponseFuture.HandleAction | src/client/layer/redirect/future.rs:233-258 | following moves to the location, keeps a clone of the body and prepares the request |
| RedirectFuture.ResponseFuture.OnResponse | src/client/layer/redirect/future.rs:99-189 | handling a response is one step of the model |
| RedirectSafety.CredentialsStayOnOrigin | src/redirect.rs:457-471 | in every run each of the five credential fields of the caller is present, unchanged, exactly while every URI so far has scheme, host and port of the first |
| RedirectSafety.OtherHostEndsCredentials | src/redirect.rs:457-471 | from the first request to another host on, no request carries a credential field |
| RedirectSafety.OtherFieldsStay | src/client/layer/redirect/future.rs:107-137 | in every run a field outside credentials, payload and Referer is sent as the caller wrote it, and a payload field until a response drops the body |
| RedirectSafety.StepIsExact | src/client/layer/redirect/future.rs:99-189 | when a response is final, returned, refused or followed, for every status, policy, scheme and body |
| RedirectSafety.LimitFollowsExactly | src/redirect.rs:192-206 | under a limit a redirect is followed exactly when fewer than max were, the scheme is allowed, and the body can be sent again or is not needed |
| RedirectSafety.HopFollows | src/redirect.rs:416-424 | a hop visits the location and records status, both URIs and headers of the response unless it was asynchronous |
| RedirectSafety.StartIsUntouched | src/client/layer/redirect.rs:107-131 | the first request is sent as the caller made it |
| RedirectSafety.BodyIsOriginalUntilDropped | src/client/layer/redirect/future.rs:107-137 | in every run method and body are the original ones until a 303, or a 301 or 302 to a POST; from then on GET or HEAD without body and payload fields; a body is kept exactly when it can be sent again |
| RedirectSafety.StartKeepsBody | src/client/layer/redirect.rs:26-50 | a chain starts with the original method and, if it can be sent again, the original body |
| RedirectSafety.LimitBoundsRuns | src/redirect.rs:192-206 | under a limit no run follows more than max redirects |
| RedirectSafety.LimitRefusesTheNext | src/redirect.rs:192-206 | after max hops the next redirect is refused, or returned when its body is gone |
| RedirectSafety.HistoryCountsPromptHops | src/redirect.rs:416-424 | the history has one entry for every hop decided at once and none for the others |
| RedirectSafety.FinalHistoryIsPathIffPrompt | src/redirect.rs:450-454 | the attached history is a contiguous path from the first URI to the final one with one entry per hop, exactly when no hop was asynchronous |
| RedirectSafety.FollowIsSentIffLateOrAllowed | src/redirect.rs:401-414 | when the policy says follow, the next request is sent exactly when it said so asynchronously or the scheme is allowed |
| RedirectSafety.SchemesAreKeptIffLateAnswersAllowed | src/redirect.rs:401-414 | all runs of a configuration, from their first request, keep to the allowed schemes exactly when every asynchronous answer that a run can receive does |
| RedirectSafety.RunIsAllowedIffLateHopsAre | src/redirect.rs:401-414 | every hop of a run has an allowed scheme exactly when every asynchronous hop has |
| RedirectSafety.LateHopCanLeaveHttps | src/client/layer/redirect/future.rs:157-171 | a run that only https is allowed for and that goes to http through an asynchronous answer |
| RedirectReferrer.HopCarries | src/redirect.rs:527-593 | a hop carries on what the policy in force leaves of the referrer, and the Referer field sent is exactly that, as sensitive as before, or absent |
| RedirectReferrer.ReferrerOnlyShrinks | src/redirect.rs:527-593 | along every run the referrer sent goes from URL to origin to nothing and never back |
| RedirectReferrer.ReferrerIsLeastDisclosed | src/redirect.rs:502-594 | whatever policies arrive, each hop sends the caller's referrer cut to the least disclosed by the policies in force so far |
| RedirectReferrer.DefaultRunsSendClosedForm | src/redirect.rs:564-573 | without a received policy the full URL is sent exactly while all destinations are same-origin, nothing from the first downgrade on, otherwise the origin |
| RedirectReferrer.ReferrerIsClean | src/redirect.rs:674-690 | after the first request, which goes out as the caller made it, a Referer field is the caller's URL without credentials and fragment, in full or cut to its origin |
| RedirectReferrer.ReferrerIsTheCallersUrl | src/redirect.rs:674-690 | that URL is the caller's own Referer without credentials and fragment, exactly cut to its origin when longer than 4096 bytes, under the default policy |
| RedirectReferrer.CleanUrlIsPrinted | src/redirect.rs:579-589 | the bytes of the Referer field for a URL and for its origin |
| RedirectReferrer.ParsePolicyIsExact | src/redirect.rs:635-667 | a token gives a policy exactly when it is the token of that policy in whatever case |
| RedirectReferrer.LastRecognisedWins | src/redirect.rs:615-632 | the last recognised token wins, whatever precedes it |
| TlsSessions.LruTlsSessionCache.constructor | src/tls/session.rs:141-148 | a new cache is empty |
| TlsSessions.LruTlsSessionCache.PutSession | src/tls/session.rs:152-180 | a put is the put of the model on list and reverse index |
| TlsSessions.LruTlsSessionCache.PopSession | src/tls/session.rs:182-203 | a pop is the pop of the model |
| TlsSessions.PutAgreesIffOwnKey | src/tls/session.rs:152-180 | a put keeps both indexes in agreement exactly when the id is not stored under another key |
| TlsSessions.PopIsLocal | src/tls/session.rs:182-203 | a pop returns the least recently used session of its key and takes out exactly that one if it is TLS 1.3 |
| TlsSessions.IndexesAgreeIffPutsKeepKeys | src/tls/session.rs:151-204 | the indexes describe one relation after every step of a run, with no list empty or longer than max(1, capacity), exactly when every put finds its id absent or under its own key |
| TlsSessions.OneKeyPerIdKeepsKeys | src/tls/session.rs:151-204 | a caller who never puts an id under two keys meets that condition |
| TlsSessions.RunAgrees | src/tls/session.rs:151-204 | under that condition the indexes agree at the end of the run |
| TlsSessions.UsedOncePerPut | src/tls/session.rs:190-200 | a TLS 1.3 session is handed out at most once per put, counting a stored one as unused |
| TlsSessions.KeysAreIndependent | src/tls/session.rs:151-204 | each key behaves as a bounded queue that sees only its own operations |
| TlsSessions.PopsAreLocal | src/tls/session.rs:182-203 | what a pop returns depends on the operations of its own key alone |
| TlsSessions.PutMovesToBack | src/tls/session.rs:165-172 | a put into a list below capacity keeps everything, a put at capacity loses the front alone; a new session goes to the back and a stored one moves there as it was stored |
| TlsSessions.FreshPutsAreKept | src/tls/session.rs:151-181 | after any run a key under which different ids were put and nothing popped holds exactly the last sessions put, as many as the capacity, in order |
| TlsSessions.RePutEvictsTheFront | src/tls/session.rs:165-172 | putting a stored session again into a full list evicts the front, and the list gets shorter unless it is the front itself |
| TlsSessions.PopsAreFifo | src/tls/session.rs:182-203 | after any run, pops of a key with TLS 1.3 sessions in front return them from front to back and leave the rest |
| TlsSessions.SharedIdIsHandedOutForEver | src/tls/session.rs:190-200 | with one id under two keys, a pop of the first key returns it again and again |
| Percent.DecodeUndoesEncode | src/client/multipart.rs:488-496 | decoding undoes every encoding that covers the percent sign |
| Percent.DecodeIgnoresEncode | src/ext.rs:15-26 | an encoding that leaves percent sign and hexadecimal digits alone does not change what decoding gives |
| Percent.DecodeIsIdentityIffNoEscape | src/proxy/matcher.rs:360-361 | decoding changes a text exactly when it holds a complete escape |
| Userinfo.UriCell.SetUserinfo | src/ext.rs:140-184 | the authority gets the encoded userinfo before the old host and port, or stays when the parser refuses it |
| Userinfo.WritingKeepsHost | src/ext.rs:148-152 | host and port stay, and a second write leaves nothing of the first |
| Userinfo.ProxyReadsDecoded | src/proxy/matcher.rs:354-373 | what the proxy settings read after a write, for every user name and password |
| Userinfo.ProxyReadsBackIffNoEscape | src/proxy/matcher.rs:354-373 | they read back exactly what was written, exactly when neither part holds a percent sign and two hexadecimal digits |
| Userinfo.UserinfoReadsEncoded | src/ext.rs:129-138 | the plain reader gives the encoded parts and reports an empty one as absent |
| Userinfo.UserinfoEncodesExactly | src/ext.rs:9-26 | exactly letters, digits and the marks without a meaning in an authority are written as they are |
| Userinfo.EncodedHasNoSeparator | src/ext.rs:144-179 | an encoded part holds no byte that separates the parts of an authority or ends it |
| Multipart.EncodeHeaders | src/client/multipart.rs:443-486 | the buffer holds disposition, name, file name, media type and headers in order |
| Multipart.PartStream | src/client/multipart.rs:186-209 | the chunks of a part are boundary line, header block, blank line, content and line break |
| Multipart.Form.IntoStream | src/client/multipart.rs:158-183 | the chunks together are all parts and the closing boundary, nothing for an empty form, and the fields are taken out |
| Multipart.Form.ComputeLength | src/client/multipart.rs:214-244 | a length is given exactly when every part knows its own; if they are right it is the length of the stream wrapped at 64 bits; headers are kept up to the first unknown part |
| Multipart.StreamLength | src/client/multipart.rs:215-243 | the loop adds up the declared lengths modulo 2^64 |
| Multipart.DeclaredLengthIsExact | src/client/multipart.rs:214-244 | right declared lengths add up to the byte length of the stream |
| MultipartStream.ParsePieceReads | src/client/multipart.rs:186-209 | one printed part is read back exactly when its content does not hold the delimiter |
| MultipartStream.StreamReadsBackIffSafe | src/client/multipart.rs:158-209 | the stream splits back into its parts exactly when no content holds CR LF, two dashes and the boundary |
| MultipartHeaders.ReplacementsAreEscape | src/client/multipart.rs:465-470 | the four chained replacements are one pass of escaping |
| MultipartHeaders.PathSegmentEncodesExactly | src/client/multipart.rs:408-418 | which bytes the path segment set leaves alone |
| MultipartHeaders.AttrCharEncodesExactly | src/client/multipart.rs:420-433 | which bytes the attr-char set encodes |
| MultipartHeaders.UnquoteUndoesEscape | src/client/multipart.rs:465-474 | reading a quoted file name gives it back with what follows it |
| MultipartHeaders.HeaderBlockIsClosed | src/client/multipart.rs:443-486 | under both percent-encodings a header block never holds a blank line |
| MultipartReader.ReadNameReads | src/client/multipart.rs:447-460 | both forms of an encoded name parameter are read back |
| MultipartReader.UnencodedNameReadsIffNoQuote | src/client/multipart.rs:447-453 | without percent-encoding a name parameter is read back exactly when the name holds no quote, and is cut short otherwise |
| MultipartReader.BlockReadsIffPlainName | src/client/multipart.rs:443-486 | a header block gives back field name, file name, media type and headers exactly when the name is percent-encoded or holds no quote |
| MultipartReader.UnencodedBlockIsClosed | src/client/multipart.rs:443-486 | without percent-encoding a header block holds no blank line when the name holds none |
| MultipartReader.BlankLosesName | src/client/multipart.rs:443-486 | a blank line in an unencoded name ends the header block there, and the name is not read back |
| MultipartForm.FormReadsBackIffSafe | src/client/multipart.rs:158-209 | under every encoding a whole form is read back exactly when no content holds the delimiter and no unencoded name holds a quote or a blank line |
| MultipartForm.SafeFormsAreUnique | src/client/multipart.rs:158-209 | equal bytes of safe forms come from equal fields, even under different percent-encodings |
| MultipartForm.StreamIsFormBytes | src/client/multipart.rs:150-217 | the literal bytes of a form with any fields |
| MultipartForm.BlockBytes | src/client/multipart.rs:443-494 | the literal bytes of a header block, for every encoding and all metadata |
| MultipartForm.SpaceIsQuotedEncoded | src/client/multipart.rs:447-453 | a name of one space is printed as a quoted escape, like the unencoded name that is this escape |
| MultipartForm.QuotedTextDiffersIffOneEncodedByte | src/client/multipart.rs:447-460 | the quoted form carries a text other than the name exactly when the name is one byte and that byte is encoded |
| MultipartForm.UnencodedNamesAreAmbiguous | src/client/multipart.rs:447-474 | without percent-encoding one header block stands for two different fields |

## Left out

- Connection pool, retry budget, TLS setup, certificates, key log, WebSocket, SOCKS and CONNECT traffic, builders and error display.
- Parsing of cookies, URIs, URLs, media types and header maps: they are records and parameters here. A received cookie that does not parse is simply not in the list given to `Jar.SetCookies`.
- `contains`, `len`, `is_empty` and `matches` of the jar: each is one filter over what `Store.Collect` or `Jar.Get` already give.
- Locks: each locked section is one step. The clock is a parameter of each operation.
- Socket options, binding and the connect timeout: socket setup is a function of the launch order, and the shared deadline is the end of the schedule.
- The length of the delays between attempts: a schedule says when a delay has elapsed.
- A task that a custom policy starts is resolved in the same step; a task that ends with another task is not modelled.
- Loading a policy for a single request: the configuration of a chain is fixed. With redirects turned off the source calls the service directly.
- The base64 text of Basic authentication, the lossy UTF-8 decoding in the proxy settings and the default port for SOCKS.
- Generated boundaries and errors inside a body stream. In debug builds the additions of `compute_length` panic instead of wrapping.
- CookieRestore.RestoreIsFaithfulIff: has the premises that the text of a stored host parses to that host again, as the URL library ensures, and that a cookie under a host that starts with a dot does not expire between snapshot and last add.
- RedirectReferrer.ReferrerIsLeastDisclosed: has the premise that the URL and its origin can be printed into a field value, which the URL library ensures by printing ASCII only.
- MultipartForm.FormReadsBackIffSafe: has the premises that the boundary holds no CR, names are bytes, and media types and headers satisfy what their libraries enforce.
- Multipart.Form.ComputeLength: says nothing about the number when a declared part length is wrong, except through `Multipart.StreamLength`.
