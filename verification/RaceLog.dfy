/**
 What a race over addresses does, as a function of the network.

 What the network does is arbitrary. Socket setup is a function of the launch order, and every poll of
 the active attempts comes with one `Round` of the schedule. `SnapAt` says which attempts are active at
 each poll and how many addresses were pulled by then; `Ends` says how a race comes out.
 */
module RaceLog {
  import opened Text
  import opened AddressList

  const MAX_PARALLEL_CONNECT_ATTEMPTS: nat := 6

  datatype ConnectError = Failed(addr: SocketAddr, code: nat) | NetworkUnreachable

  datatype Poll = Pending | Ready | Broken(code: nat)

  /** One wake-up: the state of each attempt, by launch order, and whether the delay has elapsed. */
  datatype Round = Round(poll: nat -> Poll, delayElapsed: bool)

  /** `setup` is how socket setup ends for the n-th address: None when an attempt starts. */
  datatype Network = Network(setup: nat -> Option<nat>, schedule: seq<Round>)

  /** A network, the fixed order of all addresses, and whether a delay between attempts is configured. */
  datatype Setting = Setting(net: Network, plan: seq<SocketAddr>, paced: bool)

  datatype Attempt = Attempt(addr: SocketAddr, order: nat)

  /** How far a schedule brings the race: `Waiting` means that the schedule ended first. */
  datatype Outcome = Connection(attempt: Attempt) | Error(error: ConnectError) | Waiting

  // ----- one poll -----

  /** The oldest attempt that is connected at this poll. */
  function FirstReady(attempts: seq<Attempt>, round: Round): (r: Option<Attempt>)
    ensures r.Some? ==> r.value in attempts && round.poll(r.value.order).Ready?
    ensures r.None? ==> forall a | a in attempts :: !round.poll(a.order).Ready?
  {
    if attempts == [] then None
    else if round.poll(attempts[0].order).Ready? then Some(attempts[0])
    else FirstReady(attempts[1..], round)
  }

  /** The attempts that are still pending at this poll. */
  function Surviving(attempts: seq<Attempt>, round: Round): seq<Attempt> {
    if attempts == [] then []
    else (if round.poll(attempts[0].order).Pending? then [attempts[0]] else []) + Surviving(attempts[1..], round)
  }

  lemma {:induction false} SurvivorIs(attempts: seq<Attempt>, round: Round, a: Attempt)
    ensures a in Surviving(attempts, round) <==> a in attempts && round.poll(a.order).Pending?
  {
    if attempts != [] {
      SurvivorIs(attempts[1..], round, a);
      assert a in attempts <==> a == attempts[0] || a in attempts[1..];
    }
  }

  lemma {:induction false} FewerSurvive(attempts: seq<Attempt>, round: Round)
    ensures |Surviving(attempts, round)| <= |attempts|
    ensures |Surviving(attempts, round)| == |attempts| ==> Surviving(attempts, round) == attempts
    ensures FirstReady(attempts, round).Some? ==> |Surviving(attempts, round)| < |attempts|
  {
    if attempts != [] {
      FewerSurvive(attempts[1..], round);
      assert attempts == [attempts[0]] + attempts[1..];
    }
  }

  lemma SurvivingShrinks(attempts: seq<Attempt>, round: Round)
    ensures forall a :: a in Surviving(attempts, round) <==> a in attempts && round.poll(a.order).Pending?
    ensures |Surviving(attempts, round)| <= |attempts|
    ensures |Surviving(attempts, round)| == |attempts| ==> Surviving(attempts, round) == attempts
    ensures FirstReady(attempts, round).Some? ==> |Surviving(attempts, round)| < |attempts|
  {
    forall a ensures a in Surviving(attempts, round) <==> a in attempts && round.poll(a.order).Pending? {
      SurvivorIs(attempts, round, a);
    }
    FewerSurvive(attempts, round);
  }

  /** Every attempt has a smaller launch order than those behind it. */
  predicate InLaunchOrder(attempts: seq<Attempt>) {
    attempts == [] || (AllNewer(attempts[1..], attempts[0].order) && InLaunchOrder(attempts[1..]))
  }

  predicate AllNewer(attempts: seq<Attempt>, order: nat) {
    forall a | a in attempts :: order < a.order
  }

  predicate AllOlder(attempts: seq<Attempt>, order: nat) {
    forall a | a in attempts :: a.order < order
  }

  lemma {:induction false} SurvivingKeepsOrder(attempts: seq<Attempt>, round: Round)
    requires InLaunchOrder(attempts)
    ensures InLaunchOrder(Surviving(attempts, round))
  {
    if attempts != [] {
      var first, rest := attempts[0], attempts[1..];
      var pending := Surviving(rest, round);
      SurvivingKeepsOrder(rest, round);
      forall a | a in pending ensures first.order < a.order { SurvivorIs(rest, round, a); }
      assert ([first] + pending)[1..] == pending && [] + pending == pending;
    }
  }

  lemma {:induction false} NewestLast(attempts: seq<Attempt>, a: Attempt)
    requires InLaunchOrder(attempts) && AllOlder(attempts, a.order)
    ensures InLaunchOrder(attempts + [a])
  {
    if attempts == [] {
      assert ([] + [a])[1..] == [];
    } else {
      assert attempts[0] in attempts && forall x | x in attempts[1..] :: x in attempts;
      NewestLast(attempts[1..], a);
      assert (attempts + [a])[1..] == attempts[1..] + [a];
    }
  }

  lemma {:induction false} OrdersSpread(attempts: seq<Attempt>, i: nat)
    requires InLaunchOrder(attempts) && i < |attempts|
    ensures attempts[0].order + i <= attempts[i].order
  {
    if i > 0 {
      assert attempts[1] in attempts[1..];
      OrdersSpread(attempts[1..], i - 1);
    }
  }

  // ----- the run of a race -----

  /** The active attempts, oldest first, and how many addresses were pulled. */
  datatype Snap = Snap(active: seq<Attempt>, pulled: nat)

  type Polls = seq<Snap>

  /** Pulls addresses in order until socket setup succeeds for one, and starts that attempt. */
  function Launch(g: Setting, s: Snap): Snap
    decreases |g.plan| - s.pulled
  {
    if s.pulled >= |g.plan| then s
    else if g.net.setup(s.pulled).None? then Snap(s.active + [Attempt(g.plan[s.pulled], s.pulled)], s.pulled + 1)
    else Launch(g, s.(pulled := s.pulled + 1))
  }

  /** Six attempts lose the oldest. */
  function MakeRoom(active: seq<Attempt>): seq<Attempt> {
    if |active| < MAX_PARALLEL_CONNECT_ATTEMPTS then active else active[1..]
  }

  /** A running delay has elapsed. */
  predicate DelayEnds(g: Setting, s: Snap, round: Round) {
    g.paced && s.pulled < |g.plan| && round.delayElapsed
  }

  /** What follows a poll without a connection. */
  function After(g: Setting, s: Snap, round: Round): Snap {
    var pending := Surviving(s.active, round);
    if pending == [] then Launch(g, Snap([], s.pulled))
    else if DelayEnds(g, s, round) then Launch(g, Snap(MakeRoom(pending), s.pulled))
    else Snap(pending, s.pulled)
  }

  /** The race at its n-th poll. */
  function SnapAt(g: Setting, n: nat): Snap
    requires n <= |g.net.schedule|
  {
    if n == 0 then Launch(g, Snap([], 0)) else After(g, SnapAt(g, n - 1), g.net.schedule[n - 1])
  }

  /** The race at its first `n` polls. */
  function Log(g: Setting, n: nat): (polls: Polls)
    requires n <= |g.net.schedule|
    ensures |polls| == n
  {
    if n == 0 then [] else Log(g, n - 1) + [SnapAt(g, n - 1)]
  }

  /** This poll finds a connection, or there is nothing to poll. */
  predicate Stops(g: Setting, i: nat)
    requires i < |g.net.schedule|
  {
    SnapAt(g, i).active == [] || FirstReady(SnapAt(g, i).active, g.net.schedule[i]).Some?
  }

  /** The first `n` polls had something to poll and found no connection. */
  predicate GoesOn(g: Setting, n: nat)
    requires n <= |g.net.schedule|
  {
    n == 0 || (GoesOn(g, n - 1) && !Stops(g, n - 1))
  }

  // ----- launching -----

  predicate SetupFails(g: Setting, lo: nat, hi: nat) {
    forall o: nat | lo <= o < hi :: g.net.setup(o).Some?
  }

  /** A launch starts the first address from `s.pulled` on whose socket can be set up, and skips only the others. */
  predicate Launches(g: Setting, s: Snap, t: Snap) {
    if t.active == s.active then t.pulled == |g.plan| && SetupFails(g, s.pulled, |g.plan|)
    else
      && s.pulled < t.pulled <= |g.plan| && SetupFails(g, s.pulled, t.pulled - 1) && g.net.setup(t.pulled - 1).None?
      && t.active == s.active + [Attempt(g.plan[t.pulled - 1], t.pulled - 1)]
  }

  lemma {:induction false} LaunchIsNext(g: Setting, s: Snap)
    requires s.pulled <= |g.plan|
    ensures Launches(g, s, Launch(g, s)) && s.pulled <= Launch(g, s).pulled
    decreases |g.plan| - s.pulled
  {
    if s.pulled < |g.plan| {
      if g.net.setup(s.pulled).None? {
        assert |Launch(g, s).active| == |s.active| + 1;
      } else {
        var next := s.(pulled := s.pulled + 1);
        LaunchIsNext(g, next);
      }
    }
  }

  /** The attempts are at most six, pulled, in launch order, and their sockets could be set up. */
  ghost predicate GoodSnap(g: Setting, s: Snap) {
    && s.pulled <= |g.plan| && |s.active| <= MAX_PARALLEL_CONNECT_ATTEMPTS && InLaunchOrder(s.active)
    && forall a | a in s.active :: IsPulled(g, s.pulled, a)
  }

  predicate IsPulled(g: Setting, pulled: nat, a: Attempt)
    requires pulled <= |g.plan|
  {
    a.order < pulled && a.addr == g.plan[a.order] && g.net.setup(a.order).None?
  }

  lemma LaunchKeepsGood(g: Setting, s: Snap)
    requires GoodSnap(g, s) && |s.active| < MAX_PARALLEL_CONNECT_ATTEMPTS
    ensures GoodSnap(g, Launch(g, s))
  {
    LaunchIsNext(g, s);
    var t := Launch(g, s);
    forall a | a in t.active ensures IsPulled(g, t.pulled, a) {
      if a in s.active { assert IsPulled(g, s.pulled, a); }
    }
    if t.active != s.active {
      forall a | a in s.active ensures a.order < t.pulled - 1 { assert IsPulled(g, s.pulled, a); }
      NewestLast(s.active, Attempt(g.plan[t.pulled - 1], t.pulled - 1));
    }
  }

  lemma SurvivorsAreGood(g: Setting, s: Snap, round: Round)
    requires GoodSnap(g, s)
    ensures GoodSnap(g, Snap(Surviving(s.active, round), s.pulled))
  {
    SurvivingShrinks(s.active, round);
    SurvivingKeepsOrder(s.active, round);
  }

  lemma RoomIsGood(g: Setting, s: Snap)
    requires GoodSnap(g, s)
    ensures GoodSnap(g, Snap(MakeRoom(s.active), s.pulled)) && |MakeRoom(s.active)| < MAX_PARALLEL_CONNECT_ATTEMPTS
  {
    RoomFor(s.active);
  }

  lemma AfterKeepsGood(g: Setting, s: Snap, round: Round)
    requires GoodSnap(g, s)
    ensures GoodSnap(g, After(g, s, round))
  {
    var pending := Surviving(s.active, round);
    SurvivorsAreGood(g, s, round);
    if pending == [] {
      LaunchKeepsGood(g, Snap([], s.pulled));
    } else if DelayEnds(g, s, round) {
      RoomIsGood(g, Snap(pending, s.pulled));
      LaunchKeepsGood(g, Snap(MakeRoom(pending), s.pulled));
    }
  }

  /** At every poll at most six attempts are active, in launch order, for addresses pulled from the plan. */
  lemma {:induction false} SnapsAreGood(g: Setting, n: nat)
    requires n <= |g.net.schedule|
    ensures GoodSnap(g, SnapAt(g, n))
  {
    if n == 0 {
      LaunchKeepsGood(g, Snap([], 0));
    } else {
      SnapsAreGood(g, n - 1);
      AfterKeepsGood(g, SnapAt(g, n - 1), g.net.schedule[n - 1]);
    }
  }

  lemma LaunchSkips(g: Setting, s: Snap)
    requires s.pulled < |g.plan| && g.net.setup(s.pulled).Some?
    ensures Launch(g, s) == Launch(g, s.(pulled := s.pulled + 1))
  {
  }

  // ----- from one poll to the next -----

  /** `t` keeps what is pending in `s`, but for the oldest of six, and has at most one attempt more, the next that can start. */
  ghost predicate Steps(g: Setting, s: Snap, round: Round, t: Snap) {
    var pending := Surviving(s.active, round);
    && s.pulled <= t.pulled
    && (forall a | a in pending && a !in t.active ::
          DelayEnds(g, s, round) && |pending| == MAX_PARALLEL_CONNECT_ATTEMPTS && pending[0] == a)
    && (forall a | a in t.active && a !in pending :: IsNext(g, s.pulled, t.pulled, a))
  }

  predicate IsNext(g: Setting, pulled: nat, after: nat, a: Attempt) {
    pulled <= a.order && a.order + 1 == after && SetupFails(g, pulled, a.order)
  }

  lemma AfterSteps(g: Setting, s: Snap, round: Round)
    requires s.pulled <= |g.plan| && |s.active| <= MAX_PARALLEL_CONNECT_ATTEMPTS
    ensures Steps(g, s, round, After(g, s, round))
  {
    var pending := Surviving(s.active, round);
    SurvivingShrinks(s.active, round);
    if pending == [] {
      LaunchIsNext(g, Snap([], s.pulled));
    } else if DelayEnds(g, s, round) {
      LaunchIsNext(g, Snap(MakeRoom(pending), s.pulled));
      RoomFor(pending);
    }
  }

  lemma RoomFor(pending: seq<Attempt>)
    ensures forall a | a in MakeRoom(pending) :: a in pending
    ensures forall a | a in pending && a !in MakeRoom(pending) :: |pending| >= MAX_PARALLEL_CONNECT_ATTEMPTS && pending[0] == a
  {
    if |pending| >= MAX_PARALLEL_CONNECT_ATTEMPTS { assert pending == [pending[0]] + pending[1..]; }
  }

  lemma SnapSteps(g: Setting, n: nat)
    requires n < |g.net.schedule|
    ensures Steps(g, SnapAt(g, n), g.net.schedule[n], SnapAt(g, n + 1))
  {
    SnapsAreGood(g, n);
    AfterSteps(g, SnapAt(g, n), g.net.schedule[n]);
  }

  /** Between two polls of a run, an attempt that is still pending leaves only as the oldest of six. */
  lemma OnlyOldestOfSixIsCancelled(g: Setting, n: nat, a: Attempt)
    requires n < |g.net.schedule| && a in SnapAt(g, n).active && a !in SnapAt(g, n + 1).active
    requires g.net.schedule[n].poll(a.order).Pending?
    ensures DelayEnds(g, SnapAt(g, n), g.net.schedule[n])
    ensures var pending := Surviving(SnapAt(g, n).active, g.net.schedule[n]);
            |pending| == MAX_PARALLEL_CONNECT_ATTEMPTS && pending[0] == a
  {
    SnapSteps(g, n);
    SurvivingShrinks(SnapAt(g, n).active, g.net.schedule[n]);
  }

  /** An attempt that is new at a poll is the next one in order: every address between it and the last one pulled
      failed in socket setup. */
  lemma LaunchesFollowThePlan(g: Setting, n: nat, a: Attempt)
    requires n < |g.net.schedule| && a in SnapAt(g, n + 1).active && a !in SnapAt(g, n).active
    ensures IsNext(g, SnapAt(g, n).pulled, SnapAt(g, n + 1).pulled, a)
  {
    SnapSteps(g, n);
    SurvivingShrinks(SnapAt(g, n).active, g.net.schedule[n]);
  }

  // ----- what each poll leads to -----

  /** This is the first attempt from the given address on whose socket can be set up. */
  predicate Starts(g: Setting, pulled: nat, a: Attempt) {
    pulled <= a.order < |g.plan| && a.addr == g.plan[a.order] && g.net.setup(a.order).None? && SetupFails(g, pulled, a.order)
  }

  /** A delay is configured, addresses are left to wait for, and this poll finds it elapsed. */
  predicate IsOverdue(g: Setting, s: Snap, round: Round) {
    g.paced && s.pulled < |g.plan| && round.delayElapsed
  }

  /** Nothing is pending any more, or the delay has elapsed. */
  predicate WantsAnother(g: Setting, s: Snap, round: Round) {
    (forall a | a in s.active :: !round.poll(a.order).Pending?) || IsOverdue(g, s, round)
  }

  /** Six attempts are pending and none of them is older than this one. */
  predicate IsOldestOfSix(active: seq<Attempt>, round: Round, a: Attempt) {
    |Surviving(active, round)| == 6 && forall b | b in active && round.poll(b.order).Pending? :: a.order <= b.order
  }

  lemma LaunchStarts(g: Setting, s: Snap, a: Attempt)
    requires s.pulled <= |g.plan|
    ensures a in Launch(g, s).active <==> a in s.active || Starts(g, s.pulled, a)
    ensures Starts(g, s.pulled, a) ==> Launch(g, s).pulled == a.order + 1
    ensures SetupFails(g, s.pulled, |g.plan|) ==> Launch(g, s).pulled == |g.plan|
  {
    LaunchIsNext(g, s);
    var t := Launch(g, s);
    if t.active != s.active {
      var b := t.active[|s.active|];
      assert b == Attempt(g.plan[t.pulled - 1], t.pulled - 1) && Starts(g, s.pulled, b);
      assert Starts(g, s.pulled, a) ==> a.order == b.order;
    }
  }

  lemma FirstIsOldest(attempts: seq<Attempt>, a: Attempt)
    requires InLaunchOrder(attempts) && a in attempts
    ensures a == attempts[0] || attempts[0].order < a.order
  {
    assert a == attempts[0] || a in attempts[1..];
  }

  lemma RoomKeeps(g: Setting, s: Snap, a: Attempt)
    requires GoodSnap(g, s)
    ensures a in MakeRoom(s.active) <==> a in s.active && !(|s.active| == 6 && forall b | b in s.active :: a.order <= b.order)
  {
    var active := s.active;
    if active != [] {
      forall b | b in active ensures active[0].order <= b.order { FirstIsOldest(active, b); }
      OldestIsNotBehind(active);
      assert active[0] in active && (a in active ==> a == active[0] || a in active[1..]);
      if a in active { FirstIsOldest(active, a); }
      assert a in active[1..] ==> a in active;
    }
  }

  /**
   Which attempts are active at the next poll: those that were found pending, but for the oldest of six when the delay had
   elapsed, and the next one that can start if nothing was pending or the delay had elapsed.
   */
  lemma NextPollIsExact(g: Setting, n: nat, a: Attempt)
    requires n < |g.net.schedule|
    ensures var s, round, t := SnapAt(g, n), g.net.schedule[n], SnapAt(g, n + 1);
            && (a in t.active <==>
                  || (&& a in s.active && round.poll(a.order).Pending?
                      && !(IsOverdue(g, s, round) && IsOldestOfSix(s.active, round, a)))
                  || (WantsAnother(g, s, round) && Starts(g, s.pulled, a)))
            && (!WantsAnother(g, s, round) ==> t.pulled == s.pulled)
            && (WantsAnother(g, s, round) && Starts(g, s.pulled, a) ==> t.pulled == a.order + 1)
            && (WantsAnother(g, s, round) && SetupFails(g, s.pulled, |g.plan|) ==> t.pulled == |g.plan|)
  {
    SnapsAreGood(g, n);
    AfterIsExact(g, SnapAt(g, n), g.net.schedule[n], a);
  }

  lemma AfterIsExact(g: Setting, s: Snap, round: Round, a: Attempt)
    requires GoodSnap(g, s)
    ensures var t := After(g, s, round);
            && (a in t.active <==>
                  || (&& a in s.active && round.poll(a.order).Pending?
                      && !(IsOverdue(g, s, round) && IsOldestOfSix(s.active, round, a)))
                  || (WantsAnother(g, s, round) && Starts(g, s.pulled, a)))
            && (!WantsAnother(g, s, round) ==> t.pulled == s.pulled)
            && (WantsAnother(g, s, round) && Starts(g, s.pulled, a) ==> t.pulled == a.order + 1)
            && (WantsAnother(g, s, round) && SetupFails(g, s.pulled, |g.plan|) ==> t.pulled == |g.plan|)
  {
    var pending := Surviving(s.active, round);
    var now := Snap(pending, s.pulled);
    SurvivingShrinks(s.active, round);
    SurvivorsAreGood(g, s, round);
    assert pending == [] <==> forall b | b in s.active :: !round.poll(b.order).Pending? by {
      if pending != [] { assert pending[0] in pending; }
    }
    assert DelayEnds(g, s, round) <==> IsOverdue(g, s, round);
    if pending == [] {
      LaunchStarts(g, Snap([], s.pulled), a);
    } else if IsOverdue(g, s, round) {
      RoomKeeps(g, now, a);
      LaunchStarts(g, Snap(MakeRoom(pending), s.pulled), a);
    }
  }

  /** The first poll has the first attempt that can start, and no other. */
  lemma FirstPollIsExact(g: Setting, a: Attempt)
    ensures a in SnapAt(g, 0).active <==> Starts(g, 0, a)
  {
    LaunchStarts(g, Snap([], 0), a);
  }

  /** The winner is connected, and of all attempts connected by then it was launched first. */
  lemma WinnerIsOldest(g: Setting, n: nat, pulled: nat, winner: Attempt, a: Attempt)
    requires IsWon(g, n, pulled, winner)
    requires a in SnapAt(g, n - 1).active && g.net.schedule[n - 1].poll(a.order).Ready?
    ensures winner in SnapAt(g, n - 1).active && g.net.schedule[n - 1].poll(winner.order).Ready? && winner.order <= a.order
  {
    SnapsAreGood(g, n - 1);
    FirstReadyIsOldest(SnapAt(g, n - 1).active, g.net.schedule[n - 1], a);
  }

  lemma {:induction false} FirstReadyIsOldest(attempts: seq<Attempt>, round: Round, a: Attempt)
    requires InLaunchOrder(attempts) && a in attempts && round.poll(a.order).Ready?
    ensures FirstReady(attempts, round).Some? && FirstReady(attempts, round).value.order <= a.order
  {
    FirstIsOldest(attempts, a);
    if !round.poll(attempts[0].order).Ready? {
      assert a in attempts[1..];
      FirstReadyIsOldest(attempts[1..], round, a);
    }
  }

  /** Consecutive snapshots of a race. */
  ghost predicate IsTrace(g: Setting, snaps: seq<Snap>) {
    |snaps| <= |g.net.schedule| + 1 && forall n | 0 <= n < |snaps| - 1 :: StepsAt(g, snaps, n)
  }

  ghost predicate StepsAt(g: Setting, snaps: seq<Snap>, n: nat)
    requires n < |snaps| - 1 <= |g.net.schedule|
  {
    GoodSnap(g, snaps[n]) && Steps(g, snaps[n], g.net.schedule[n], snaps[n + 1])
  }

  ghost function Trace(g: Setting, n: nat): (snaps: seq<Snap>)
    requires n <= |g.net.schedule|
    ensures |snaps| == n + 1 && forall i | 0 <= i <= n :: snaps[i] == SnapAt(g, i)
  {
    seq(n + 1, i requires 0 <= i <= n => SnapAt(g, i))
  }

  lemma TraceSteps(g: Setting, n: nat)
    requires n <= |g.net.schedule|
    ensures IsTrace(g, Trace(g, n))
  {
    var snaps := Trace(g, n);
    forall i | 0 <= i < n ensures StepsAt(g, snaps, i) {
      SnapsAreGood(g, i);
      SnapSteps(g, i);
    }
  }

  lemma {:induction false} PulledGrows(g: Setting, snaps: seq<Snap>, i: nat, j: nat)
    requires IsTrace(g, snaps) && i <= j < |snaps|
    ensures snaps[i].pulled <= snaps[j].pulled
    decreases j
  {
    if i < j {
      PulledGrows(g, snaps, i, j - 1);
      assert StepsAt(g, snaps, j - 1);
    }
  }

  /** The attempt is active at this poll and found pending. */
  predicate IsPendingIn(g: Setting, snaps: seq<Snap>, k: nat, a: Attempt)
    requires k < |snaps| && k < |g.net.schedule|
  {
    a in snaps[k].active && g.net.schedule[k].poll(a.order).Pending?
  }

  lemma OldAttemptWasPending(g: Setting, snaps: seq<Snap>, n: nat, a: Attempt)
    requires IsTrace(g, snaps) && n + 1 < |snaps| && a in snaps[n + 1].active && a.order < snaps[n].pulled
    ensures IsPendingIn(g, snaps, n, a)
  {
    assert StepsAt(g, snaps, n);
    SurvivingShrinks(snaps[n].active, g.net.schedule[n]);
    assert !IsNext(g, snaps[n].pulled, snaps[n + 1].pulled, a);
  }

  lemma {:induction false} StaysPending(g: Setting, snaps: seq<Snap>, i: nat, k: nat, j: nat, a: Attempt)
    requires IsTrace(g, snaps) && i <= k < j < |snaps| && a in snaps[i].active && a in snaps[j].active
    ensures IsPendingIn(g, snaps, k, a)
    decreases j
  {
    assert StepsAt(g, snaps, i) && IsPulled(g, snaps[i].pulled, a);
    PulledGrows(g, snaps, i, j - 1);
    OldAttemptWasPending(g, snaps, j - 1, a);
    if k < j - 1 { StaysPending(g, snaps, i, k, j - 1, a); }
  }

  /** No address is tried twice: an attempt that is active at two polls is pending at every poll between them. */
  lemma NoAttemptReturns(g: Setting, i: nat, k: nat, j: nat, a: Attempt)
    requires i <= k < j <= |g.net.schedule| && a in SnapAt(g, i).active && a in SnapAt(g, j).active
    ensures a in SnapAt(g, k).active && g.net.schedule[k].poll(a.order).Pending?
  {
    TraceSteps(g, j);
    StaysPending(g, Trace(g, j), i, k, j, a);
  }

  // ----- the fate of each address -----

  /** What became of a pulled address. */
  datatype Fate = Active | Broke(error: ConnectError) | Cancelled

  /** The active attempts in launch order. */
  function ActiveAttempts(plan: seq<SocketAddr>, fate: seq<Fate>): (r: seq<Attempt>)
    requires |fate| <= |plan|
  {
    if fate == [] then []
    else
      var n := |fate| - 1;
      ActiveAttempts(plan, fate[..n]) + if fate[n] == Active then [Attempt(plan[n], n)] else []
  }

  lemma AfterPush(plan: seq<SocketAddr>, fate: seq<Fate>, f: Fate)
    requires |fate| < |plan|
    ensures ActiveAttempts(plan, fate + [f]) ==
              ActiveAttempts(plan, fate) + if f == Active then [Attempt(plan[|fate|], |fate|)] else []
    ensures f == Active ==> FirstBroke(fate + [f]) == FirstBroke(fate)
  {
    assert (fate + [f])[..|fate|] == fate;
  }

  /** The queue holds pulled addresses under their launch order, and strictly in that order. */
  lemma {:induction false} ActiveIsInLaunchOrder(plan: seq<SocketAddr>, fate: seq<Fate>)
    requires |fate| <= |plan|
    ensures InLaunchOrder(ActiveAttempts(plan, fate))
    ensures forall a | a in ActiveAttempts(plan, fate) :: a.order < |fate| && fate[a.order] == Active && a.addr == plan[a.order]
  {
    if fate != [] {
      var n := |fate| - 1;
      var front := ActiveAttempts(plan, fate[..n]);
      ActiveIsInLaunchOrder(plan, fate[..n]);
      NewestLast(front, Attempt(plan[n], n));
      assert front + [] == front;
    }
  }

  /** Ending one active attempt takes it, and only it, out of the queue. */
  lemma {:induction false} AfterEnd(plan: seq<SocketAddr>, fate: seq<Fate>, i: nat, f: Fate)
    requires |fate| <= |plan| && i < |ActiveAttempts(plan, fate)| && f != Active
    ensures var a := ActiveAttempts(plan, fate);
            && a[i].order < |fate| && fate[a[i].order] == Active && a[i].addr == plan[a[i].order]
            && ActiveAttempts(plan, fate[a[i].order := f]) == a[..i] + a[i + 1..]
  {
    var n := |fate| - 1;
    var front := ActiveAttempts(plan, fate[..n]);
    var last := if fate[n] == Active then [Attempt(plan[n], n)] else [];
    if i < |front| {
      AfterEnd(plan, fate[..n], i, f);
      var o := front[i].order;
      assert fate[o := f][..n] == fate[..n][o := f];
      assert (front + last)[..i] + (front + last)[i + 1..] == front[..i] + front[i + 1..] + last;
    } else {
      assert fate[n := f][..n] == fate[..n];
      assert (front + last)[..i] + (front + last)[i + 1..] == front;
    }
  }

  lemma {:induction false} NoneActive(plan: seq<SocketAddr>, fate: seq<Fate>)
    requires |fate| <= |plan| && ActiveAttempts(plan, fate) == []
    ensures forall o | 0 <= o < |fate| :: fate[o] != Active
  {
    if fate != [] {
      var n := |fate| - 1;
      assert |ActiveAttempts(plan, fate[..n])| == 0;
      NoneActive(plan, fate[..n]);
    }
  }

  /** The oldest of `i + 1` active attempts was launched more than `i` addresses ago. */
  lemma OldestIsFarBack(plan: seq<SocketAddr>, fate: seq<Fate>, i: nat)
    requires |fate| <= |plan| && i < |ActiveAttempts(plan, fate)|
    ensures ActiveAttempts(plan, fate)[0].order + i < |fate|
  {
    ActiveIsInLaunchOrder(plan, fate);
    OrdersSpread(ActiveAttempts(plan, fate), i);
    assert ActiveAttempts(plan, fate)[i] in ActiveAttempts(plan, fate);
  }

  // ----- the earliest error -----

  /** The failed address with the smallest launch order. */
  function FirstBroke(fate: seq<Fate>): Option<(nat, ConnectError)> {
    if fate == [] then None
    else
      var n := |fate| - 1;
      var earlier := FirstBroke(fate[..n]);
      if earlier.None? && fate[n].Broke? then Some((n, fate[n].error)) else earlier
  }

  predicate IsEarliestError(fate: seq<Fate>, order: nat, error: ConnectError) {
    order < |fate| && fate[order] == Broke(error) && forall o | 0 <= o < order :: !fate[o].Broke?
  }

  lemma {:induction false} FirstBrokeIsEarliest(fate: seq<Fate>)
    ensures var first := FirstBroke(fate);
            if first.None? then forall o | 0 <= o < |fate| :: !fate[o].Broke?
            else IsEarliestError(fate, first.value.0, first.value.1)
  {
    if fate != [] { FirstBrokeIsEarliest(fate[..|fate| - 1]); }
  }

  lemma {:induction false} FirstBrokeAfterChange(fate: seq<Fate>, o: nat, f: Fate)
    requires o < |fate| && fate[o] == Active && f != Active
    ensures var first := FirstBroke(fate);
            FirstBroke(fate[o := f]) ==
              if f.Broke? && (first.None? || o < first.value.0) then Some((o, f.error)) else first
  {
    var n := |fate| - 1;
    FirstBrokeIsEarliest(fate[..n]);
    if o < n {
      assert fate[o := f][..n] == fate[..n][o := f];
      FirstBrokeAfterChange(fate[..n], o, f);
    } else {
      assert fate[o := f][..n] == fate[..n];
    }
  }

  // ----- reasons -----

  /** The i-th poll found this attempt active and broken. */
  ghost predicate WasBroken(g: Setting, polls: Polls, i: nat, a: Attempt, code: nat) {
    i < |polls| && i < |g.net.schedule| && a in polls[i].active && g.net.schedule[i].poll(a.order) == Broken(code)
  }

  /** After the i-th poll a delay ended with addresses left, and this was the oldest of six pending attempts. */
  ghost predicate WasStale(g: Setting, polls: Polls, i: nat, a: Attempt) {
    i < |polls| && i < |g.net.schedule| && DelayEnds(g, polls[i], g.net.schedule[i]) &&
    var pending := Surviving(polls[i].active, g.net.schedule[i]);
    |pending| == MAX_PARALLEL_CONNECT_ATTEMPTS && pending[0] == a
  }

  /**
   The fate of the o-th address has a reason: socket setup or a poll broke it with this code, or it was cancelled
   as the oldest of six while addresses were left to try.
   */
  ghost predicate Explains(g: Setting, polls: Polls, o: nat, f: Fate)
    requires o < |g.plan|
  {
    match f
    case Active => g.net.setup(o).None?
    case Cancelled =>
      && g.net.setup(o).None? && o + MAX_PARALLEL_CONNECT_ATTEMPTS < |g.plan|
      && exists i: nat :: WasStale(g, polls, i, Attempt(g.plan[o], o))
    case Broke(e) =>
      && e.Failed? && e.addr == g.plan[o]
      && (|| g.net.setup(o) == Some(e.code)
          || (g.net.setup(o).None? && exists i: nat :: WasBroken(g, polls, i, Attempt(g.plan[o], o), e.code)))
  }

  ghost predicate AllExplained(g: Setting, polls: Polls, fate: seq<Fate>)
    requires |fate| <= |g.plan|
  {
    fate == [] ||
    var n := |fate| - 1;
    AllExplained(g, polls, fate[..n]) && Explains(g, polls, n, fate[n])
  }

  lemma {:induction false} ExplainedAt(g: Setting, polls: Polls, fate: seq<Fate>, o: nat)
    requires |fate| <= |g.plan| && AllExplained(g, polls, fate) && o < |fate|
    ensures Explains(g, polls, o, fate[o])
  {
    var n := |fate| - 1;
    if o < n { ExplainedAt(g, polls, fate[..n], o); }
  }

  lemma ExplainedAfterPush(g: Setting, polls: Polls, fate: seq<Fate>, f: Fate)
    requires |fate| < |g.plan| && AllExplained(g, polls, fate) && Explains(g, polls, |fate|, f)
    ensures AllExplained(g, polls, fate + [f])
  {
    assert (fate + [f])[..|fate|] == fate;
  }

  lemma {:induction false} ExplainedAfterEnd(g: Setting, polls: Polls, fate: seq<Fate>, o: nat, f: Fate)
    requires |fate| <= |g.plan| && AllExplained(g, polls, fate) && o < |fate| && fate[o] == Active
    requires g.net.setup(o).None? ==> Explains(g, polls, o, f)
    ensures AllExplained(g, polls, fate[o := f])
  {
    var n := |fate| - 1;
    if o < n {
      assert fate[o := f][..n] == fate[..n][o := f];
      ExplainedAfterEnd(g, polls, fate[..n], o, f);
    } else {
      assert fate[o := f][..n] == fate[..n];
    }
  }

  lemma ExplainsLater(g: Setting, polls: Polls, more: Polls, o: nat, f: Fate)
    requires o < |g.plan| && polls <= more && Explains(g, polls, o, f)
    ensures Explains(g, more, o, f)
  {
    var a := Attempt(g.plan[o], o);
    if f.Cancelled? {
      var i: nat :| WasStale(g, polls, i, a);
      assert WasStale(g, more, i, a);
    } else if f.Broke? && g.net.setup(o).None? {
      var i: nat :| WasBroken(g, polls, i, a, f.error.code);
      assert WasBroken(g, more, i, a, f.error.code);
    }
  }

  /** A reason stays one when more polls follow. */
  lemma {:induction false} ExplainedLater(g: Setting, polls: Polls, more: Polls, fate: seq<Fate>)
    requires |fate| <= |g.plan| && polls <= more && AllExplained(g, polls, fate)
    ensures AllExplained(g, more, fate)
  {
    if fate != [] {
      var n := |fate| - 1;
      ExplainedLater(g, polls, more, fate[..n]);
      ExplainsLater(g, polls, more, n, fate[n]);
    }
  }

  /** What holds after the oldest of six attempts was cancelled. */
  lemma AfterCancel(g: Setting, polls: Polls, fate: seq<Fate>, now: nat)
    requires |fate| < |g.plan| && AllExplained(g, polls, fate)
    requires ActiveAttempts(g.plan, fate) != [] && WasStale(g, polls, now, ActiveAttempts(g.plan, fate)[0])
    requires |ActiveAttempts(g.plan, fate)| == MAX_PARALLEL_CONNECT_ATTEMPTS
    ensures var active := ActiveAttempts(g.plan, fate);
            active[0].order < |fate| &&
            var after := fate[active[0].order := Cancelled];
            && ActiveAttempts(g.plan, after) == active[1..] && FirstBroke(after) == FirstBroke(fate)
            && AllExplained(g, polls, after)
  {
    var active := ActiveAttempts(g.plan, fate);
    assert active[..0] + active[1..] == active[1..];
    AfterEnd(g.plan, fate, 0, Cancelled);
    OldestIsFarBack(g.plan, fate, MAX_PARALLEL_CONNECT_ATTEMPTS - 1);
    FirstBrokeAfterChange(fate, active[0].order, Cancelled);
    ExplainedAfterEnd(g, polls, fate, active[0].order, Cancelled);
  }

  // ----- what a whole race guarantees -----

  /** Every address has a reason for its end, and the error is the one of the earliest failure. */
  ghost predicate AllFailed(g: Setting, n: nat, fate: seq<Fate>, error: ConnectError)
    requires n <= |g.net.schedule|
  {
    && |fate| == |g.plan|
    && (forall o | 0 <= o < |g.plan| :: !fate[o].Active? && Explains(g, Log(g, n), o, fate[o]))
    && (error == NetworkUnreachable <==> g.plan == [])
    && (g.plan != [] ==> exists o: nat :: IsEarliestError(fate, o, error))
  }

  /** The last of `n` polls, and no earlier one, found a connection; `winner` is the oldest attempt connected by then. */
  predicate IsWon(g: Setting, n: nat, pulled: nat, winner: Attempt) {
    && 0 < n <= |g.net.schedule| && GoesOn(g, n - 1) && pulled == SnapAt(g, n - 1).pulled
    && FirstReady(SnapAt(g, n - 1).active, g.net.schedule[n - 1]) == Some(winner)
  }

  /**
   How a race comes out after `n` polls: it goes on exactly as long as there is something to poll and no connection,
   the oldest connected attempt wins, and an error comes when nothing is left.
   */
  ghost predicate Ends(g: Setting, n: nat, fate: seq<Fate>, outcome: Outcome) {
    n <= |g.net.schedule| &&
    match outcome
    case Connection(winner) => IsWon(g, n, |fate|, winner)
    case Error(error) => GoesOn(g, n) && SnapAt(g, n).active == [] && AllFailed(g, n, fate, error)
    case Waiting => GoesOn(g, n) && n == |g.net.schedule| && SnapAt(g, n).active != [] && |fate| == SnapAt(g, n).pulled
  }

  /** After these polls the race goes on, and this is where the network brings it. */
  predicate IsOnTrack(g: Setting, polls: Polls, now: Snap) {
    |polls| <= |g.net.schedule| && polls == Log(g, |polls|) && GoesOn(g, |polls|) && now == SnapAt(g, |polls|)
  }

  /** The last of these polls found no connection; `now` is what was pending, and nothing has happened since. */
  predicate IsJustPolled(g: Setting, polls: Polls, now: Snap) {
    0 < |polls| <= |g.net.schedule| && polls == Log(g, |polls|) && GoesOn(g, |polls|) &&
    var before := SnapAt(g, |polls| - 1);
    now == Snap(Surviving(before.active, g.net.schedule[|polls| - 1]), before.pulled)
  }

  /** After the last of these polls a running delay has elapsed. */
  predicate IsDelayOver(g: Setting, polls: Polls, now: Snap) {
    IsJustPolled(g, polls, now) && DelayEnds(g, now, g.net.schedule[|polls| - 1])
  }

  lemma PollTracks(g: Setting, polls: Polls, now: Snap)
    requires IsOnTrack(g, polls, now) && |polls| < |g.net.schedule| && now.active != []
    ensures var round := g.net.schedule[|polls|];
            var ready := FirstReady(now.active, round);
            if ready.Some? then IsWon(g, |polls| + 1, now.pulled, ready.value)
            else IsJustPolled(g, polls + [now], Snap(Surviving(now.active, round), now.pulled))
  {
    assert (polls + [now])[..|polls|] == polls;
  }

  /** When nothing happens after a poll the race is on track for the next one. */
  lemma QuietPollTracks(g: Setting, polls: Polls, now: Snap)
    requires IsJustPolled(g, polls, now) && now.active != [] && !DelayEnds(g, now, g.net.schedule[|polls| - 1])
    ensures IsOnTrack(g, polls, now)
  {
  }

  lemma LaunchTracks(g: Setting, polls: Polls, now: Snap)
    requires IsJustPolled(g, polls, now)
    ensures now.active == [] ==> IsOnTrack(g, polls, Launch(g, now))
    ensures now.active != [] && IsDelayOver(g, polls, now) ==> IsOnTrack(g, polls, Launch(g, Snap(MakeRoom(now.active), now.pulled)))
  {
  }

  /** A pending attempt that is the oldest of six after an elapsed delay is stale. */
  lemma OldestIsStale(g: Setting, polls: Polls, now: Snap)
    requires IsDelayOver(g, polls, now) && |now.active| == MAX_PARALLEL_CONNECT_ATTEMPTS
    ensures WasStale(g, polls, |polls| - 1, now.active[0])
  {
  }

  lemma WaitingEnds(g: Setting, polls: Polls, now: Snap, fate: seq<Fate>)
    requires IsOnTrack(g, polls, now) && now.active != [] && |polls| == |g.net.schedule| && |fate| == now.pulled
    ensures Ends(g, |polls|, fate, Waiting)
  {
  }

  lemma {:induction false} GoesOnAt(g: Setting, n: nat, i: nat)
    requires n <= |g.net.schedule| && GoesOn(g, n) && i < n
    ensures GoesOn(g, i) && !Stops(g, i)
  {
    if i < n - 1 { GoesOnAt(g, n - 1, i); }
  }

  /** While a race goes on every poll has one to six active attempts, none of them connected. */
  lemma PollsAreBusy(g: Setting, n: nat, i: nat)
    requires n <= |g.net.schedule| && GoesOn(g, n) && i < n
    ensures 1 <= |SnapAt(g, i).active| <= MAX_PARALLEL_CONNECT_ATTEMPTS
    ensures forall a | a in SnapAt(g, i).active :: !g.net.schedule[i].poll(a.order).Ready?
  {
    GoesOnAt(g, n, i);
    SnapsAreGood(g, i);
  }

  /** The race goes on up to this poll and no further: it finds a connection, or there is nothing to poll. */
  predicate IsLast(g: Setting, i: nat) {
    i <= |g.net.schedule| && GoesOn(g, i) && (i == |g.net.schedule| || Stops(g, i))
  }

  lemma GoesOnUpTo(g: Setting, i: nat, m: nat)
    requires i < |g.net.schedule| && m <= |g.net.schedule| && GoesOn(g, m) && Stops(g, i)
    ensures m <= i
  {
    if i < m { GoesOnAt(g, m, i); }
  }

  lemma LastIsUnique(g: Setting, i: nat, j: nat)
    requires IsLast(g, i) && IsLast(g, j)
    ensures i == j
  {
    if i < |g.net.schedule| { GoesOnUpTo(g, i, j); }
    if j < |g.net.schedule| { GoesOnUpTo(g, j, i); }
  }

  /** The poll that ends a race, and what it found. */
  lemma EndIsLast(g: Setting, n: nat, fate: seq<Fate>, outcome: Outcome)
    requires Ends(g, n, fate, outcome)
    ensures n > 0 || !outcome.Connection?
    ensures IsLast(g, if outcome.Connection? then n - 1 else n)
  {
  }

  // ----- every address has one fate -----

  lemma {:induction false} LogAt(g: Setting, n: nat, i: nat)
    requires i < n <= |g.net.schedule|
    ensures Log(g, n)[i] == SnapAt(g, i)
  {
    if i < n - 1 { LogAt(g, n - 1, i); }
  }

  /** The i-th poll is the last one that finds this attempt active. */
  predicate IsLastPollOf(g: Setting, i: nat, a: Attempt) {
    i < |g.net.schedule| && a in SnapAt(g, i).active && a !in SnapAt(g, i + 1).active
  }

  lemma BrokenLeaves(g: Setting, n: nat, i: nat, a: Attempt, code: nat)
    requires n <= |g.net.schedule| && WasBroken(g, Log(g, n), i, a, code)
    ensures IsLastPollOf(g, i, a) && g.net.schedule[i].poll(a.order) == Broken(code)
  {
    LogAt(g, n, i);
    if a in SnapAt(g, i + 1).active { NoAttemptReturns(g, i, i, i + 1, a); }
  }

  lemma OldestIsNotBehind(attempts: seq<Attempt>)
    requires InLaunchOrder(attempts) && attempts != []
    ensures attempts[0] !in attempts[1..]
  {
  }

  lemma RoomLeavesOldest(g: Setting, s: Snap)
    requires GoodSnap(g, s) && |s.active| == MAX_PARALLEL_CONNECT_ATTEMPTS
    ensures s.active[0] !in Launch(g, Snap(MakeRoom(s.active), s.pulled)).active
  {
    OldestIsNotBehind(s.active);
    LaunchIsNext(g, Snap(MakeRoom(s.active), s.pulled));
    assert s.active[0] in s.active && IsPulled(g, s.pulled, s.active[0]);
  }

  lemma StaleLeaves(g: Setting, n: nat, i: nat, a: Attempt)
    requires n <= |g.net.schedule| && WasStale(g, Log(g, n), i, a)
    ensures IsLastPollOf(g, i, a) && g.net.schedule[i].poll(a.order).Pending?
  {
    LogAt(g, n, i);
    SnapsAreGood(g, i);
    var s, round := SnapAt(g, i), g.net.schedule[i];
    SurvivorIs(s.active, round, a);
    SurvivorsAreGood(g, s, round);
    RoomLeavesOldest(g, Snap(Surviving(s.active, round), s.pulled));
  }

  lemma LastPollIsUnique(g: Setting, i: nat, j: nat, a: Attempt)
    requires IsLastPollOf(g, i, a) && IsLastPollOf(g, j, a)
    ensures i == j
  {
    if i + 1 < j { NoAttemptReturns(g, i, i + 1, j, a); }
    if j + 1 < i { NoAttemptReturns(g, j, j + 1, i, a); }
  }

  /** What the last poll of an attempt tells about its fate. */
  lemma FateIsTold(g: Setting, n: nat, o: nat, f: Fate) returns (i: nat)
    requires n <= |g.net.schedule| && o < |g.plan| && !f.Active? && g.net.setup(o).None? && Explains(g, Log(g, n), o, f)
    ensures IsLastPollOf(g, i, Attempt(g.plan[o], o))
    ensures match g.net.schedule[i].poll(o)
            case Broken(code) => f == Broke(Failed(g.plan[o], code))
            case Pending => f == Cancelled
            case Ready => false
  {
    var a := Attempt(g.plan[o], o);
    if f.Cancelled? {
      i :| WasStale(g, Log(g, n), i, a);
      StaleLeaves(g, n, i, a);
    } else {
      i :| WasBroken(g, Log(g, n), i, a, f.error.code);
      BrokenLeaves(g, n, i, a, f.error.code);
    }
  }

  /** The network decides alone what becomes of an address: no two different ends can both be explained. */
  lemma AddressHasOneFate(g: Setting, n: nat, o: nat, f: Fate, f': Fate)
    requires n <= |g.net.schedule| && o < |g.plan| && !f.Active? && !f'.Active?
    requires Explains(g, Log(g, n), o, f) && Explains(g, Log(g, n), o, f')
    ensures f == f'
  {
    if g.net.setup(o).None? {
      var i := FateIsTold(g, n, o, f);
      var j := FateIsTold(g, n, o, f');
      LastPollIsUnique(g, i, j, Attempt(g.plan[o], o));
    }
  }

  lemma EarliestErrorIsUnique(fate: seq<Fate>, o: nat, e: ConnectError, o': nat, e': ConnectError)
    requires IsEarliestError(fate, o, e) && IsEarliestError(fate, o', e')
    ensures o == o' && e == e'
  {
  }

  /** The network decides alone which error an exhausted race returns. */
  lemma FailureIsUnique(g: Setting, n: nat, fate: seq<Fate>, error: ConnectError, fate': seq<Fate>, error': ConnectError)
    requires n <= |g.net.schedule| && AllFailed(g, n, fate, error) && AllFailed(g, n, fate', error')
    ensures fate == fate' && error == error'
  {
    forall o | 0 <= o < |g.plan| ensures fate[o] == fate'[o] { AddressHasOneFate(g, n, o, fate[o], fate'[o]); }
    if g.plan != [] {
      var o: nat :| IsEarliestError(fate, o, error);
      var o': nat :| IsEarliestError(fate', o', error');
      EarliestErrorIsUnique(fate, o, error, o', error');
    }
  }

  lemma EndsAtOnePoll(g: Setting, n: nat, fate: seq<Fate>, outcome: Outcome, m: nat, fate': seq<Fate>, outcome': Outcome)
    requires Ends(g, n, fate, outcome) && Ends(g, m, fate', outcome')
    ensures n == m && (outcome.Waiting? <==> outcome'.Waiting?) && (outcome.Error? <==> outcome'.Error?)
    ensures outcome.Connection? ==> outcome' == outcome
  {
    EndIsLast(g, n, fate, outcome);
    EndIsLast(g, m, fate', outcome');
    LastIsUnique(g, if outcome.Connection? then n - 1 else n, if outcome'.Connection? then m - 1 else m);
  }

  /** The network decides alone how a race ends: after how many polls, with which winner or which error, and for an error
      what became of every address. */
  lemma RaceHasOneEnd(g: Setting, n: nat, fate: seq<Fate>, outcome: Outcome, m: nat, fate': seq<Fate>, outcome': Outcome)
    requires Ends(g, n, fate, outcome) && Ends(g, m, fate', outcome')
    ensures n == m && outcome == outcome' && |fate| == |fate'|
    ensures outcome.Error? ==> fate == fate'
  {
    EndsAtOnePoll(g, n, fate, outcome, m, fate', outcome');
    if outcome.Error? { FailureIsUnique(g, n, fate, outcome.error, fate', outcome'.error); }
  }

  // ----- termination -----

  /** This poll finds that some active attempt has connected or broken. */
  predicate Answers(g: Setting, i: nat)
    requires i < |g.net.schedule|
  {
    Surviving(SnapAt(g, i).active, g.net.schedule[i]) != SnapAt(g, i).active
  }

  /** How many of the first `n` polls found that some active attempt had connected or broken. */
  function Answered(g: Setting, n: nat): nat
    requires n <= |g.net.schedule|
  {
    if n == 0 then 0 else Answered(g, n - 1) + if Answers(g, n - 1) then 1 else 0
  }

  lemma AnswersUseUp(g: Setting, s: Snap, round: Round)
    requires s.pulled <= |g.plan|
    ensures var t := After(g, s, round);
            |t.active| + s.pulled + (if Surviving(s.active, round) != s.active then 1 else 0) <= |s.active| + t.pulled
  {
    var pending := Surviving(s.active, round);
    SurvivingShrinks(s.active, round);
    if pending == [] {
      LaunchIsNext(g, Snap([], s.pulled));
    } else if DelayEnds(g, s, round) {
      LaunchIsNext(g, Snap(MakeRoom(pending), s.pulled));
    }
  }

  /** Every answer uses up a pulled address. */
  lemma {:induction false} AnswersAreBounded(g: Setting, n: nat)
    requires n <= |g.net.schedule|
    ensures Answered(g, n) + |SnapAt(g, n).active| <= SnapAt(g, n).pulled <= |g.plan|
  {
    SnapsAreGood(g, n);
    if n == 0 {
      LaunchIsNext(g, Snap([], 0));
    } else {
      SnapsAreGood(g, n - 1);
      AnswersAreBounded(g, n - 1);
      AnswersUseUp(g, SnapAt(g, n - 1), g.net.schedule[n - 1]);
    }
  }

  lemma {:induction false} AllAnswered(g: Setting, n: nat)
    requires n <= |g.net.schedule|
    requires forall i | 0 <= i < n :: Answers(g, i)
    ensures Answered(g, n) == n
  {
    if n > 0 { AllAnswered(g, n - 1); }
  }

  /** A race whose every poll answers some active attempt comes to its end within one poll per address. */
  lemma AnsweringSchedulesEnd(g: Setting, n: nat, fate: seq<Fate>, outcome: Outcome)
    requires Ends(g, n, fate, outcome) && |g.net.schedule| >= |g.plan|
    requires forall i | 0 <= i < n :: Answers(g, i)
    ensures !outcome.Waiting? && n <= |g.plan|
  {
    AllAnswered(g, n);
    AnswersAreBounded(g, n);
  }

  /** A round that answers every attempt it could be asked about. */
  ghost predicate Decisive(round: Round, total: nat) {
    forall o: nat | o < total :: !round.poll(o).Pending?
  }

  ghost function DecisiveRounds(g: Setting, n: nat): nat
    requires n <= |g.net.schedule|
  {
    if n == 0 then 0 else DecisiveRounds(g, n - 1) + if Decisive(g.net.schedule[n - 1], |g.plan|) then 1 else 0
  }

  lemma DecisiveAnswers(g: Setting, s: Snap, round: Round)
    requires GoodSnap(g, s) && s.active != [] && Decisive(round, |g.plan|)
    ensures Surviving(s.active, round) != s.active
  {
    SurvivingShrinks(s.active, round);
    assert s.active[0] in s.active && IsPulled(g, s.pulled, s.active[0]);
  }

  lemma {:induction false} DecisiveIsAnswered(g: Setting, n: nat)
    requires n <= |g.net.schedule| && GoesOn(g, n)
    ensures DecisiveRounds(g, n) <= Answered(g, n)
  {
    if n > 0 {
      DecisiveIsAnswered(g, n - 1);
      SnapsAreGood(g, n - 1);
      if Decisive(g.net.schedule[n - 1], |g.plan|) { DecisiveAnswers(g, SnapAt(g, n - 1), g.net.schedule[n - 1]); }
    }
  }

  /** Whatever the other rounds do, a schedule with as many decisive rounds as addresses brings the race to its end. */
  lemma DecisiveSchedulesEnd(g: Setting, n: nat, fate: seq<Fate>, outcome: Outcome)
    requires Ends(g, n, fate, outcome) && DecisiveRounds(g, |g.net.schedule|) >= |g.plan|
    ensures !outcome.Waiting?
  {
    if outcome.Waiting? {
      DecisiveIsAnswered(g, n);
      AnswersAreBounded(g, n);
    }
  }

  /** How many of the first `n` rounds found the delay elapsed. */
  function Elapsed(g: Setting, n: nat): nat
    requires n <= |g.net.schedule|
  {
    if n == 0 then 0 else Elapsed(g, n - 1) + if g.net.schedule[n - 1].delayElapsed then 1 else 0
  }

  lemma DelayPulls(g: Setting, s: Snap, round: Round)
    requires g.paced && round.delayElapsed && s.pulled < |g.plan|
    ensures s.pulled < After(g, s, round).pulled
  {
    LaunchIsNext(g, Snap([], s.pulled));
    LaunchIsNext(g, Snap(MakeRoom(Surviving(s.active, round)), s.pulled));
  }

  /** While addresses are left, more of them were pulled than delays have elapsed. */
  lemma {:induction false} PullsStayAhead(g: Setting, n: nat)
    requires n <= |g.net.schedule| && g.paced
    ensures SnapAt(g, n).pulled == |g.plan| || Elapsed(g, n) < SnapAt(g, n).pulled
  {
    SnapsAreGood(g, n);
    if n == 0 {
      LaunchIsNext(g, Snap([], 0));
    } else {
      PullsStayAhead(g, n - 1);
      SnapSteps(g, n - 1);
      if g.net.schedule[n - 1].delayElapsed && SnapAt(g, n - 1).pulled < |g.plan| {
        DelayPulls(g, SnapAt(g, n - 1), g.net.schedule[n - 1]);
      }
    }
  }

  /** As many elapsed delays as addresses have every address tried, even when no attempt is ever answered. */
  lemma DelaysLaunchEverything(g: Setting, n: nat, fate: seq<Fate>, outcome: Outcome)
    requires Ends(g, n, fate, outcome) && outcome.Waiting? && g.paced
    requires Elapsed(g, |g.net.schedule|) >= |g.plan| - 1
    ensures |fate| == |g.plan|
  {
    PullsStayAhead(g, n);
    SnapsAreGood(g, n);
  }

  // ----- no success is thrown away -----

  /**
   An address whose socket is set up and that no round reports broken prevents an error, unless more than five
   addresses come after it.
   */
  lemma HealthyAddressPreventsError(g: Setting, n: nat, fate: seq<Fate>, outcome: Outcome, o: nat)
    requires Ends(g, n, fate, outcome)
    requires o < |g.plan| <= o + MAX_PARALLEL_CONNECT_ATTEMPTS
    requires g.net.setup(o).None? && forall r | r in g.net.schedule :: !r.poll(o).Broken?
    ensures !outcome.Error?
  {
    if outcome.Error? { BrokenIsReported(g, Log(g, n), o, fate[o]); }
  }

  lemma BrokenIsReported(g: Setting, polls: Polls, o: nat, f: Fate)
    requires o < |g.plan| <= o + MAX_PARALLEL_CONNECT_ATTEMPTS && !f.Active?
    requires Explains(g, polls, o, f) && g.net.setup(o).None?
    ensures exists r | r in g.net.schedule :: r.poll(o).Broken?
  {
    var i: nat :| WasBroken(g, polls, i, Attempt(g.plan[o], o), f.error.code);
    assert g.net.schedule[i] in g.net.schedule;
  }

  /** With at most six addresses nothing is cancelled: an error means that every address broke. */
  lemma SmallRacesCancelNothing(g: Setting, n: nat, fate: seq<Fate>, error: ConnectError)
    requires Ends(g, n, fate, Error(error)) && |g.plan| <= MAX_PARALLEL_CONNECT_ATTEMPTS
    ensures forall o | 0 <= o < |g.plan| :: fate[o].Broke?
  {
    forall o | 0 <= o < |g.plan| ensures fate[o].Broke? { assert Explains(g, Log(g, n), o, fate[o]); }
  }
}
