/**
 The Happy Eyeballs race over resolved addresses (section 5 of RFC 8305): a scheduler that starts
 attempts by turns between two families, keeps at most six of them active, and ends with the first
 connection or with the error of the earliest failed attempt.
 */
module AddressRace {
  import opened Text
  import opened AddressList
  import opened RaceLog

  const USIZE_MAX: nat := 0xFFFF_FFFF_FFFF_FFFF

  /** What wakes the race up; `NoEvent` means that nothing did yet. */
  datatype Event = Connected(attempt: Attempt) | AllAttemptsFailed | DelayElapsed | NoEvent

  // ----- one after the other -----

  /** Without a race, addresses are tried in order; `result(i)` is how the i-th one ends, None when it connects. */
  method ConnectSequentially(addrs: seq<SocketAddr>, result: nat -> Option<nat>) returns (outcome: Outcome)
    ensures outcome.Connection? ==>
              var i := outcome.attempt.order;
              i < |addrs| && outcome.attempt.addr == addrs[i] && result(i).None? && forall j: nat | j < i :: result(j).Some?
    ensures outcome.Error? ==>
              && (forall j: nat | j < |addrs| :: result(j).Some?)
              && outcome.error == if addrs == [] then NetworkUnreachable else Failed(addrs[0], result(0).value)
    ensures !outcome.Waiting?
  {
    var firstError: Option<ConnectError> := None;
    for i := 0 to |addrs|
      invariant forall j: nat | j < i :: result(j).Some?
      invariant firstError == if i == 0 then None else Some(Failed(addrs[0], result(0).value))
    {
      if result(i).None? {
        return Connection(Attempt(addrs[i], i));
      }
      if firstError.None? {
        firstError := Some(Failed(addrs[i], result(i).value));
      }
    }
    outcome := Error(if firstError.Some? then firstError.value else NetworkUnreachable);
  }

  // ----- the race -----

  class Race {
    var preferred: seq<SocketAddr>
    var fallback: seq<SocketAddr>
    var nextFallback: bool
    var attempts: seq<Attempt>
    var nextAttemptOrder: nat
    var firstError: Option<(nat, ConnectError)>

    /** Whether a delay between attempts is configured. */
    const paced: bool
    const net: Network

    /** The fixed order of all addresses, what became of those pulled so far, and the race at each poll. */
    ghost const plan: seq<SocketAddr>
    ghost var fate: seq<Fate>
    ghost var polls: Polls

    ghost function Game(): Setting {
      Setting(net, plan, paced)
    }

    ghost function Now(): Snap
      reads this`attempts, this`fate
    {
      Snap(attempts, |fate|)
    }

    /** The two queues hold what the plan has from the n-th address on. */
    ghost predicate IsLeft(n: nat)
      reads this`preferred, this`fallback, this`nextFallback
    {
      n <= |plan| && Interleave(preferred, fallback, nextFallback) == plan[n..] && |preferred| + |fallback| == |plan| - n
    }

    /** The queue and the error are those of the addresses pulled so far, and every end has its reason. */
    ghost predicate IsRecorded()
      reads this`attempts, this`firstError, this`fate, this`polls
    {
      && |fate| <= |plan| && attempts == ActiveAttempts(plan, fate) && firstError == FirstBroke(fate)
      && AllExplained(Game(), polls, fate)
      && (attempts == [] ==> firstError.Some? || fate == [])
    }

    ghost predicate Valid()
      reads this`preferred, this`fallback, this`nextFallback, this`attempts, this`nextAttemptOrder,
            this`firstError, this`fate, this`polls
    {
      && |plan| <= USIZE_MAX && IsLeft(|fate|) && nextAttemptOrder == |fate|
      && IsRecorded() && |attempts| <= MAX_PARALLEL_CONNECT_ATTEMPTS
    }

    constructor (preferred: seq<SocketAddr>, fallback: seq<SocketAddr>, paced: bool, net: Network)
      requires |preferred| + |fallback| <= USIZE_MAX
      ensures Valid() && fate == [] && polls == []
      ensures plan == Interleave(preferred, fallback, false)
      ensures this.preferred == preferred && this.fallback == fallback && this.paced == paced && this.net == net
    {
      this.preferred, this.fallback, this.nextFallback := preferred, fallback, false;
      this.attempts, this.nextAttemptOrder, this.firstError := [], 0, None;
      this.paced, this.net := paced, net;
      plan := Interleave(preferred, fallback, false);
      fate, polls := [], [];
    }

    predicate HasRemainingAddrs()
      reads this`preferred, this`fallback
      ensures HasRemainingAddrs() <==> |preferred| + |fallback| > 0
    {
      preferred != [] || fallback != []
    }

    /** Takes the next address, by turns while both families have some left. */
    method NextAddr(ghost n: nat) returns (addr: SocketAddr)
      requires HasRemainingAddrs() && IsLeft(n)
      modifies this`preferred, this`fallback, this`nextFallback
      ensures n < |plan| && addr == plan[n] && IsLeft(n + 1)
      ensures old(Interleave(preferred, fallback, nextFallback)) == [addr] + Interleave(preferred, fallback, nextFallback)
    {
      var useFallback := fallback != [] && (nextFallback || preferred == []);
      nextFallback := !useFallback;
      if useFallback {
        addr, fallback := fallback[0], fallback[1..];
      } else {
        addr, preferred := preferred[0], preferred[1..];
      }
      NextOfPlan(plan, n, addr, Interleave(preferred, fallback, nextFallback));
    }

    method RecordError(order: nat, error: ConnectError)
      requires order < |fate| && fate[order] == Active && firstError == FirstBroke(fate)
      modifies this`firstError, this`fate
      ensures fate == old(fate)[order := Broke(error)] && firstError == FirstBroke(fate) && firstError.Some?
    {
      FirstBrokeAfterChange(fate, order, Broke(error));
      fate := fate[order := Broke(error)];
      if firstError.None? || order < firstError.value.0 {
        firstError := Some((order, error));
      }
    }

    /** Starts the next candidate, skipping addresses whose socket setup fails. */
    method LaunchNext() returns (started: bool)
      requires Valid() && |attempts| < MAX_PARALLEL_CONNECT_ATTEMPTS
      modifies this`preferred, this`fallback, this`nextFallback, this`attempts, this`nextAttemptOrder,
               this`firstError, this`fate
      ensures Valid() && Now() == Launch(Game(), old(Now())) && old(fate) <= fate
      ensures if started then attempts != [] else attempts == old(attempts) && |fate| == |plan|
    {
      started := false;
      while !started && HasRemainingAddrs()
        invariant Valid() && old(fate) <= fate
        invariant if started then Now() == Launch(Game(), old(Now())) && attempts != []
                  else Launch(Game(), Now()) == Launch(Game(), old(Now())) && attempts == old(attempts)
        decreases |plan| - |fate|, !started
      {
        ghost var before := Now();
        started := PullOne();
        if !started {
          LaunchSkips(Game(), before);
        }
      }
    }

    /** Pulls one address and starts its attempt, or records why its socket could not be set up. */
    method PullOne() returns (started: bool)
      requires Valid() && |attempts| < MAX_PARALLEL_CONNECT_ATTEMPTS && HasRemainingAddrs()
      modifies this`preferred, this`fallback, this`nextFallback, this`attempts, this`nextAttemptOrder,
               this`firstError, this`fate
      ensures Valid() && |fate| == |old(fate)| + 1 && old(fate) <= fate
      ensures started <==> net.setup(|old(fate)|).None?
      ensures if started then attempts == old(attempts) + [Attempt(plan[|old(fate)|], |old(fate)|)] else attempts == old(attempts)
    {
      var addr := NextAddr(|fate|);
      var order := nextAttemptOrder;
      nextAttemptOrder := Min(nextAttemptOrder + 1, USIZE_MAX);
      started := net.setup(order).None?;
      if started {
        Start(addr, order);
      } else {
        SetupFailed(addr, order, net.setup(order).value);
      }
    }

    /** The address at this place of the plan was taken out of the queues. */
    ghost predicate IsPulledNext(addr: SocketAddr, order: nat)
      reads this`preferred, this`fallback, this`nextFallback, this`nextAttemptOrder
    {
      order < |plan| <= USIZE_MAX && addr == plan[order] && nextAttemptOrder == order + 1 && IsLeft(order + 1)
    }

    /** Puts an attempt for the address pulled last at the end of the queue. */
    method Start(addr: SocketAddr, order: nat)
      requires IsRecorded() && order == |fate| && IsPulledNext(addr, order) && net.setup(order).None?
      requires |attempts| < MAX_PARALLEL_CONNECT_ATTEMPTS
      modifies this`attempts, this`fate
      ensures Valid() && fate == old(fate) + [Active] && attempts == old(attempts) + [Attempt(addr, order)]
    {
      AfterPush(plan, fate, Active);
      ExplainedAfterPush(Game(), polls, fate, Active);
      fate := fate + [Active];
      attempts := attempts + [Attempt(addr, order)];
    }

    /** Logs the setup error of the address pulled last. */
    method SetupFailed(addr: SocketAddr, order: nat, code: nat)
      requires IsRecorded() && order == |fate| && IsPulledNext(addr, order) && net.setup(order) == Some(code)
      requires |attempts| < MAX_PARALLEL_CONNECT_ATTEMPTS
      modifies this`firstError, this`fate
      ensures Valid() && fate == old(fate) + [Broke(Failed(addr, code))]
    {
      var error := Failed(addr, code);
      AfterPush(plan, fate, Active);
      AfterPush(plan, fate, Broke(error));
      ExplainedAfterPush(Game(), polls, fate, Broke(error));
      ReplaceLast(fate, Active, Broke(error));
      fate := fate + [Active];
      RecordError(order, error);
    }

    /** Takes a broken attempt out of the queue. */
    method DropBroken(index: nat, code: nat)
      requires Valid() && index < |attempts| && 0 < |polls| && WasBroken(Game(), polls, |polls| - 1, attempts[index], code)
      modifies this`attempts, this`firstError, this`fate
      ensures Valid() && attempts == old(attempts[..index] + attempts[index + 1..]) && |fate| == |old(fate)|
      ensures var attempt := old(attempts[index]);
              attempt.order < |old(fate)| && fate == old(fate)[attempt.order := Broke(Failed(attempt.addr, code))]
    {
      var attempt := attempts[index];
      AfterEnd(plan, fate, index, Broke(Failed(attempt.addr, code)));
      ExplainedAfterEnd(Game(), polls, fate, attempt.order, Broke(Failed(attempt.addr, code)));
      attempts := attempts[..index] + attempts[index + 1..];
      RecordError(attempt.order, Failed(attempt.addr, code));
    }

    /** Polls every active attempt and reports failure only when none remain. */
    method PollAttempts(round: Round) returns (event: Event)
      requires Valid() && 0 < |polls| <= |net.schedule|
      requires polls[|polls| - 1].active == attempts && round == net.schedule[|polls| - 1]
      modifies this`attempts, this`firstError, this`fate
      ensures |fate| == |old(fate)|
      ensures var ready := FirstReady(old(attempts), round);
              if ready.Some? then event == Connected(ready.value)
              else
                && Valid() && attempts == Surviving(old(attempts), round)
                && event == if attempts == [] && old(attempts) != [] then AllAttemptsFailed else NoEvent
    {
      var index := 0;
      var anyFailed := false;
      ghost var log, all, front, todo := polls, attempts, [], attempts;
      while index < |attempts|
        invariant Valid() && polls == log && |fate| == |old(fate)| && IsPolledUpTo(front, todo, all, round)
        invariant attempts == front + todo && index == |front| && (anyFailed <==> |attempts| < |all|) && |attempts| <= |all|
        decreases |todo|
      {
        var attempt := attempts[index];
        PollStep(front, todo, all, round);
        match round.poll(attempt.order) {
          case Pending =>
            index := index + 1;
            front := front + [attempt];
          case Ready =>
            attempts := attempts[..index] + attempts[index + 1..];
            return Connected(attempt);
          case Broken(code) =>
            assert WasBroken(Game(), log, |log| - 1, attempt, code);
            DropBroken(index, code);
            anyFailed := true;
        }
        todo := todo[1..];
      }
      event := if anyFailed && attempts == [] then AllAttemptsFailed else NoEvent;
    }

    /** Cancels the oldest attempt, and only that one, when the parallel limit is reached. */
    method MakeRoomForNextAttempt()
      requires Valid() && IsDelayOver(Game(), polls, Now())
      modifies this`attempts, this`fate
      ensures Valid() && attempts == MakeRoom(old(attempts)) && |fate| == |old(fate)|
      ensures if |old(attempts)| < MAX_PARALLEL_CONNECT_ATTEMPTS then fate == old(fate)
              else
                var oldest := old(attempts)[0].order;
                oldest < |old(fate)| && fate == old(fate)[oldest := Cancelled]
    {
      if |attempts| < MAX_PARALLEL_CONNECT_ATTEMPTS {
        return;
      }
      OldestIsStale(Game(), polls, Now());
      AfterCancel(Game(), polls, fate, |polls| - 1);
      fate := fate[attempts[0].order := Cancelled];
      attempts := attempts[1..];
    }

    method TakeError() returns (error: ConnectError)
      modifies this`firstError
      ensures error == (if old(firstError).Some? then old(firstError).value.1 else NetworkUnreachable) && firstError == None
    {
      error := if firstError.Some? then firstError.value.1 else NetworkUnreachable;
      firstError := None;
    }

    /** Polls the active attempts once and logs the poll. */
    method PollLogged(now: nat) returns (event: Event)
      requires Valid() && attempts != [] && now == |polls| < |net.schedule|
      modifies this`attempts, this`firstError, this`fate, this`polls
      ensures polls == old(polls) + [old(Now())] && |fate| == |old(fate)|
      ensures FirstReady(old(attempts), net.schedule[now]) == if event.Connected? then Some(event.attempt) else None
      ensures !event.Connected? ==>
                && Valid() && attempts == Surviving(old(attempts), net.schedule[now])
                && event == if attempts == [] then AllAttemptsFailed else NoEvent
    {
      ExplainedLater(Game(), polls, polls + [Now()], fate);
      polls := polls + [Now()];
      event := PollAttempts(net.schedule[now]);
    }

    /** The same for a race that is on track. */
    method PollTracked(now: nat) returns (event: Event)
      requires Valid() && IsOnTrack(Game(), polls, Now()) && attempts != [] && now == |polls| < |net.schedule|
      modifies this`attempts, this`firstError, this`fate, this`polls
      ensures |polls| == now + 1 && |fate| == |old(fate)|
      ensures if event.Connected? then IsWon(Game(), |polls|, |fate|, event.attempt)
              else
                && Valid() && IsJustPolled(Game(), polls, Now())
                && event == if attempts == [] then AllAttemptsFailed else NoEvent
    {
      PollTracks(Game(), polls, Now());
      event := PollLogged(now);
    }

    /** One wake-up of the wait: the attempts first, then the delay if one is running. */
    method PollRound(now: nat, mayDelay: bool) returns (event: Event)
      requires Valid() && IsOnTrack(Game(), polls, Now()) && attempts != [] && now == |polls| < |net.schedule|
      requires mayDelay <==> paced && |fate| < |plan|
      modifies this`attempts, this`firstError, this`fate, this`polls
      ensures |polls| == now + 1 && |fate| == |old(fate)|
      ensures IsWoken(event)
    {
      event := PollTracked(now);
      if event.NoEvent? {
        if mayDelay && net.schedule[now].delayElapsed {
          event := DelayElapsed;
        } else {
          QuietPollTracks(Game(), polls, Now());
        }
      }
    }

    /** What an event means for the race. */
    ghost predicate IsWoken(event: Event)
      reads this`preferred, this`fallback, this`nextFallback, this`attempts, this`nextAttemptOrder,
            this`firstError, this`fate, this`polls
    {
      match event
      case Connected(winner) => IsWon(Game(), |polls|, |fate|, winner)
      case NoEvent => Valid() && IsOnTrack(Game(), polls, Now()) && attempts != []
      case AllAttemptsFailed => Valid() && IsJustPolled(Game(), polls, Now()) && attempts == []
      case DelayElapsed => Valid() && IsDelayOver(Game(), polls, Now()) && attempts != []
    }

    /** Polls round after round until an event; a pause after the last round gives `NoEvent`. */
    method WaitForEvent(start: nat) returns (event: Event, now: nat)
      requires Valid() && IsOnTrack(Game(), polls, Now()) && attempts != [] && start == |polls|
      modifies this`attempts, this`firstError, this`fate, this`polls
      ensures start <= now == |polls| <= |net.schedule| && |fate| == |old(fate)|
      ensures IsWoken(event) && if event.NoEvent? then now == |net.schedule| else start < now
    {
      now, event := start, NoEvent;
      var mayDelay := paced && HasRemainingAddrs();
      while event.NoEvent? && now < |net.schedule|
        invariant start <= now == |polls| <= |net.schedule| && |fate| == |old(fate)|
        invariant IsWoken(event) && (event.NoEvent? || start < now)
        decreases |net.schedule| - now
      {
        event := PollRound(now, mayDelay);
        now := now + 1;
      }
    }

    /** Drives staggered attempts until one connects, all addresses are exhausted, or the schedule ends. */
    method ConnectInner() returns (outcome: Outcome)
      requires Valid() && fate == [] && polls == []
      modifies this
      ensures nextAttemptOrder == |fate| && Ends(Game(), |polls|, fate, outcome)
    {
      var now := 0;
      while true
        invariant Valid() && now == |polls| && (IsOnTrack(Game(), polls, Now()) || (polls == [] && fate == []))
        decreases |net.schedule| - now
      {
        if attempts == [] {
          IdleLaunch(Game(), polls, Now());
          var started := LaunchNext();
          if !started {
            outcome := Exhausted();
            return;
          }
        }
        var event;
        event, now := WaitForEvent(now);
        if event.Connected? {
          return Connection(event.attempt);
        }
        if event.NoEvent? {
          WaitingEnds(Game(), polls, Now(), fate);
          return Waiting;
        }
        Advance(event);
      }
    }

    /** After a failure of all attempts or an elapsed delay: makes room if needed and starts the next attempt. */
    method Advance(event: Event)
      requires IsWoken(event) && (event.DelayElapsed? || event.AllAttemptsFailed?)
      modifies this`preferred, this`fallback, this`nextFallback, this`attempts, this`nextAttemptOrder,
               this`firstError, this`fate
      ensures Valid() && IsOnTrack(Game(), polls, Now())
    {
      LaunchTracks(Game(), polls, Now());
      if event.DelayElapsed? {
        MakeRoomForNextAttempt();
      }
      var _ := LaunchNext();
    }

    /** The end of a race that has neither active attempts nor addresses left. */
    method Exhausted() returns (outcome: Outcome)
      requires Valid() && IsOnTrack(Game(), polls, Now()) && attempts == [] && |fate| == |plan|
      modifies this`firstError
      ensures Ends(Game(), |polls|, fate, outcome) && outcome.Error?
    {
      NoneActive(plan, fate);
      FirstBrokeIsEarliest(fate);
      forall o | 0 <= o < |fate| ensures Explains(Game(), polls, o, fate[o]) {
        ExplainedAt(Game(), polls, fate, o);
      }
      ghost var first := firstError;
      var error := TakeError();
      outcome := Error(error);
      assert first.Some? ==> IsEarliestError(fate, first.value.0, error);
    }
  }

  /** A race over the addresses of one lookup. */
  method ConnectByRace(addrs: seq<SocketAddr>, bound4: bool, bound6: bool, net: Network)
    returns (outcome: Outcome, tried: nat, ghost polls: nat, ghost fate: seq<Fate>)
    requires |addrs| <= USIZE_MAX
    ensures tried == |fate| && Ends(Setting(net, LaunchOrder(addrs, bound4, bound6), true), polls, fate, outcome)
  {
    LaunchOrderIsShort(addrs, bound4, bound6);
    var (preferred, fallback) := SplitByPreference(addrs, bound4, bound6);
    var race := new Race(preferred, fallback, true, net);
    outcome := race.ConnectInner();
    tried, polls, fate := race.nextAttemptOrder, |race.polls|, race.fate;
  }

  /** The first launch puts the race on track; launching once more when the last launch started nothing changes nothing. */
  lemma IdleLaunch(g: Setting, polls: Polls, now: Snap)
    requires now.active == [] && now.pulled <= |g.plan|
    requires IsOnTrack(g, polls, now) || (polls == [] && now.pulled == 0)
    ensures IsOnTrack(g, polls, Launch(g, now))
  {
    if IsOnTrack(g, polls, now) { IdleIsExhausted(g, |polls|); }
  }

  /** A race with nothing to poll has no address left. */
  lemma IdleIsExhausted(g: Setting, n: nat)
    requires n <= |g.net.schedule| && SnapAt(g, n).active == []
    ensures SnapAt(g, n).pulled == |g.plan|
  {
    if n == 0 {
      LaunchIsNext(g, Snap([], 0));
    } else {
      var before := SnapAt(g, n - 1);
      SnapsAreGood(g, n - 1);
      LaunchIsNext(g, Snap([], before.pulled));
      LaunchIsNext(g, Snap(MakeRoom(Surviving(before.active, g.net.schedule[n - 1])), before.pulled));
    }
  }

  lemma NextOfPlan(plan: seq<SocketAddr>, n: nat, addr: SocketAddr, rest: seq<SocketAddr>)
    requires n <= |plan| && plan[n..] == [addr] + rest
    ensures n < |plan| && addr == plan[n] && rest == plan[n + 1..]
  {
    assert |plan[n..]| > 0 && plan[n..][0] == plan[n];
    assert plan[n + 1..] == plan[n..][1..] == rest;
  }

  lemma ReplaceLast<T>(xs: seq<T>, x: T, y: T)
    ensures (xs + [x])[|xs| := y] == xs + [y]
  {
  }

  /** `front` is what is pending of the attempts polled so far, `todo` are the others. */
  ghost predicate IsPolledUpTo(front: seq<Attempt>, todo: seq<Attempt>, all: seq<Attempt>, round: Round) {
    && front + Surviving(todo, round) == Surviving(all, round) && FirstReady(todo, round) == FirstReady(all, round)
    && forall a | a in todo :: a in all
  }

  /** The next attempt to poll, and what holds after it was polled. */
  lemma PollStep(front: seq<Attempt>, todo: seq<Attempt>, all: seq<Attempt>, round: Round)
    requires todo != [] && IsPolledUpTo(front, todo, all, round)
    ensures (front + todo)[|front|] == todo[0] && todo[0] in all
    ensures front + todo == (front + [todo[0]]) + todo[1..]
    ensures (front + todo)[..|front|] + (front + todo)[|front| + 1..] == front + todo[1..]
    ensures match round.poll(todo[0].order)
            case Pending => IsPolledUpTo(front + [todo[0]], todo[1..], all, round)
            case Ready => FirstReady(all, round) == Some(todo[0])
            case Broken(_) => IsPolledUpTo(front, todo[1..], all, round)
  {
    SplitAt(front, todo);
    Associative(front, if round.poll(todo[0].order).Pending? then [todo[0]] else [], Surviving(todo[1..], round));
  }

  lemma SplitAt<T>(front: seq<T>, todo: seq<T>)
    requires todo != []
    ensures (front + todo)[|front|] == todo[0]
    ensures (front + todo)[..|front|] + (front + todo)[|front| + 1..] == front + todo[1..]
    ensures front + todo == (front + [todo[0]]) + todo[1..]
  {
  }
}
