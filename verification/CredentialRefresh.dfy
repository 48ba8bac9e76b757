/**
 Credential refresh by many runners. A runner takes the database lock, sends the stored refresh token
 to the provider and commits what comes back. The provider may rotate the refresh token at every use,
 after which only the new one is live (section 6 of RFC 6749). The lock has no release: it is a stamp
 that keeps others out for sixty minutes, and a commit renews it.
 */
module CredentialRefresh {
  import opened Options

  const WINDOW_MS: int := 60 * 60 * 1000

  type Token = nat

  // ---------------------------------------------------------------- one runner

  datatype RefreshResult = Refreshed | Locked | NoCredential | Error

  /** The server's answer to a lock request; Unavailable stands for a network error or a bad status. */
  datatype LockReply = Unavailable | LockReply(locked: bool, refreshToken: Option<Token>)

  datatype AfterLock = Stop(result: RefreshResult) | AskProvider(token: Token)

  function OnLockReply(reply: LockReply): AfterLock
  {
    match reply
    case Unavailable => Stop(Error)
    case LockReply(locked, token) =>
      if !locked then Stop(Locked)
      else match token case None => Stop(NoCredential) case Some(t) => AskProvider(t)
  }

  /** The provider's answer; on success a new refresh token comes only with a rotation. */
  datatype ProviderReply = NoReply | Rejected(status: int, revoked: bool) | Granted(newToken: Option<Token>)

  datatype AfterProvider = Fail(revoke: bool) | CommitTokens(token: Token)

  function OnProviderReply(sent: Token, reply: ProviderReply): AfterProvider
  {
    match reply
    case NoReply => Fail(false)
    case Rejected(status, revoked) => Fail((status == 400 || status == 401) && revoked)
    case Granted(newToken) => CommitTokens(match newToken case Some(t) => t case None => sent)
  }

  /** The server's answer to a commit. The runner notices only when there is none. */
  datatype CommitReply = Undelivered | Answered(accepted: bool)

  datatype Post = RevokePost | CommitPost(token: Token)

  /**
   One refresh, with the three answers it gets. It reports success exactly when all three arrive and the
   first two grant it: whether the commit was accepted makes no difference.
   */
  method RunnerRefreshCredential(lock: LockReply, provider: ProviderReply, commit: CommitReply)
    returns (result: RefreshResult, sent: Option<Token>, posted: Option<Post>)
    ensures sent == if lock.LockReply? && lock.locked then lock.refreshToken else None
    ensures posted == Some(RevokePost) <==>
              sent.Some? && provider.Rejected? && provider.status in {400, 401} && provider.revoked
    ensures forall t: Token :: posted == Some(CommitPost(t)) <==>
              sent.Some? && provider.Granted? && (provider.newToken == Some(t) || (provider.newToken.None? && sent == Some(t)))
    ensures sent == if OnLockReply(lock).AskProvider? then Some(OnLockReply(lock).token) else None
    ensures sent.None? ==> result == OnLockReply(lock).result && posted == None
    ensures result == Locked <==> lock.LockReply? && !lock.locked
    ensures result == NoCredential <==> lock.LockReply? && lock.locked && lock.refreshToken == None
    ensures result == Refreshed <==> sent.Some? && provider.Granted? && commit.Answered?
    ensures sent.Some? ==>
              posted == match OnProviderReply(sent.value, provider)
                        case Fail(revoke) => if revoke then Some(RevokePost) else None
                        case CommitTokens(token) => Some(CommitPost(token))
  {
    sent, posted := None, None;
    if lock.Unavailable? {
      return Error, sent, posted;
    }
    if !lock.locked {
      return Locked, sent, posted;
    }
    if lock.refreshToken.None? {
      return NoCredential, sent, posted;
    }
    var refreshToken := lock.refreshToken.value;
    sent := Some(refreshToken);
    if provider.NoReply? {
      return Error, sent, posted;
    }
    if provider.Rejected? {
      if provider.status == 400 || provider.status == 401 {
        if provider.revoked {
          posted := Some(RevokePost);
        }
      }
      return Error, sent, posted;
    }
    var newRefreshToken := if provider.newToken.Some? then provider.newToken.value else refreshToken;
    posted := Some(CommitPost(newRefreshToken));
    if commit.Undelivered? {
      return Error, sent, posted;
    }
    return Refreshed, sent, posted;
  }

  // ---------------------------------------------------------------- the system

  /** Where a runner is: outside the protocol, holding the lock, or holding tokens to commit. */
  datatype Phase = Idle | Holding(token: Token, since: int) | Committing(renewed: Token, since: int)

  datatype System = System(
    stored: Option<Token>,     // the refresh token in the database
    lockedAt: Option<int>,     // the lock stamp
    live: Token,               // the token the provider would accept
    next: Token,               // the provider's next fresh token
    now: int,
    runners: seq<Phase>,
    sent: seq<(Token, Token)>, // every token sent to the provider, with the live one at that moment
    lost: bool)                // a rotated token was lost on its way into the database

  datatype Action =
    | Tick(ms: nat)
    | Lock(r: nat)
    | GiveUp(r: nat)                    // a failure before the provider acts
    | Refresh(r: nat, rotates: bool)
    | ReplyLost(r: nat, rotates: bool)  // the provider acts but its answer never arrives
    | Commit(r: nat)
    | CommitLost(r: nat)

  /** The server grants the lock when no stamp is younger than the window. */
  predicate Grantable(s: System)
  {
    s.lockedAt.None? || s.lockedAt.value < s.now - WINDOW_MS
  }

  ghost predicate Enabled(s: System, a: Action)
  {
    match a
    case Tick(_) => true
    case Lock(r) => r < |s.runners| && s.runners[r].Idle?
    case GiveUp(r) => r < |s.runners| && s.runners[r].Holding?
    case Refresh(r, _) => r < |s.runners| && s.runners[r].Holding?
    case ReplyLost(r, _) => r < |s.runners| && s.runners[r].Holding?
    case Commit(r) => r < |s.runners| && s.runners[r].Committing?
    case CommitLost(r) => r < |s.runners| && s.runners[r].Committing?
  }

  ghost function SetRunner(s: System, r: nat, p: Phase): System
    requires r < |s.runners|
  {
    s.(runners := s.runners[r := p])
  }

  /** The provider receives a token: only the live one is honoured, and it may be rotated. */
  ghost function Provide(s: System, t: Token, rotates: bool): (System, ProviderReply)
  {
    var s1 := s.(sent := s.sent + [(t, s.live)]);
    if t != s.live then (s1, Rejected(400, true))
    else if rotates then (s1.(live := s.next, next := s.next + 1), Granted(Some(s.next)))
    else (s1, Granted(None))
  }

  ghost function Step(s: System, a: Action): System
    requires Enabled(s, a)
  {
    match a
    case Tick(ms) => s.(now := s.now + ms)
    case Lock(r) =>
      var s1 := if Grantable(s) then s.(lockedAt := Some(s.now)) else s;
      (match OnLockReply(LockReply(Grantable(s), if Grantable(s) then s.stored else None))
       case Stop(_) => s1
       case AskProvider(t) => SetRunner(s1, r, Holding(t, s.now)))
    case GiveUp(r) => SetRunner(s, r, Idle)
    case Refresh(r, rotates) =>
      var t := s.runners[r].token;
      var (s1, reply) := Provide(s, t, rotates);
      (match OnProviderReply(t, reply)
       case Fail(_) => SetRunner(s1, r, Idle)
       case CommitTokens(t') => SetRunner(s1, r, Committing(t', s.runners[r].since)))
    case ReplyLost(r, rotates) =>
      var (s1, reply) := Provide(s, s.runners[r].token, rotates);
      SetRunner(s1, r, Idle).(lost := s.lost || s1.live != s.live)
    case Commit(r) =>
      SetRunner(s, r, Idle).(stored := Some(s.runners[r].renewed), lockedAt := Some(s.now))
    case CommitLost(r) =>
      SetRunner(s, r, Idle).(lost := s.lost || s.stored != Some(s.runners[r].renewed))
  }

  /** A credential at rest: the database holds the live token, or none when there is no credential. */
  ghost predicate Init(s: System)
  {
    && (forall r :: 0 <= r < |s.runners| ==> s.runners[r].Idle?)
    && (s.stored.Some? ==> s.stored.value == s.live)
    && s.live < s.next && s.sent == [] && !s.lost
    && (s.lockedAt.Some? ==> s.lockedAt.value <= s.now)
  }

  /** No runner has been inside the protocol for more than d. */
  ghost predicate Within(s: System, d: int)
  {
    forall r :: 0 <= r < |s.runners| && !s.runners[r].Idle? ==> s.now - s.runners[r].since <= d
  }

  /** No runner outlives the window of the lock it took. */
  ghost predicate Timely(s: System)
  {
    Within(s, WINDOW_MS)
  }

  ghost predicate IsRun(states: seq<System>, actions: seq<Action>)
  {
    && |states| == |actions| + 1 && Init(states[0])
    && forall k :: 0 <= k < |actions| ==> Enabled(states[k], actions[k]) && states[k + 1] == Step(states[k], actions[k])
  }

  ghost predicate RunWithin(states: seq<System>, actions: seq<Action>, d: int)
  {
    IsRun(states, actions) && forall k :: 0 <= k < |states| ==> Within(states[k], d)
  }

  ghost predicate TimelyRun(states: seq<System>, actions: seq<Action>)
  {
    RunWithin(states, actions, WINDOW_MS)
  }

  // ---------------------------------------------------------------- the invariant

  ghost predicate Active(s: System, r: nat)
  {
    r < |s.runners| && !s.runners[r].Idle?
  }

  /** The stamp keeps runners apart: whoever is active set the stamp that is there now. */
  ghost predicate Exclusive(s: System)
  {
    && (forall r: nat :: Active(s, r) ==> s.lockedAt == Some(s.runners[r].since) && s.runners[r].since <= s.now)
    && (forall r: nat, q: nat :: Active(s, r) && Active(s, q) ==> r == q)
  }

  ghost predicate AtRest(s: System)
  {
    forall r: nat :: !Active(s, r)
  }

  ghost predicate StoredIsLive(s: System)
  {
    s.stored.Some? ==> s.stored.value == s.live
  }

  /** Nothing lost: a holder has the live token, and at rest the database has it. */
  ghost predicate Healthy(s: System)
  {
    && (AtRest(s) ==> StoredIsLive(s))
    && (forall r: nat :: Active(s, r) && s.runners[r].Holding? ==> s.stored == Some(s.runners[r].token) && StoredIsLive(s))
    && (forall r: nat :: Active(s, r) && s.runners[r].Committing? ==> s.runners[r].renewed == s.live && s.stored.Some?)
    && (forall i :: 0 <= i < |s.sent| ==> s.sent[i].0 == s.sent[i].1)
  }

  /** The live token has been lost: neither the database nor any runner has it. */
  ghost predicate Orphaned(s: System)
  {
    && s.stored.Some? && s.stored.value != s.live
    && (forall r: nat :: Active(s, r) ==>
          if s.runners[r].Holding? then s.runners[r].token != s.live else s.runners[r].renewed != s.live)
  }

  ghost predicate Invariant(s: System)
  {
    && Exclusive(s) && s.live < s.next
    && (if s.lost then Orphaned(s) else Healthy(s))
  }

  lemma ExclusiveStep(s: System, a: Action)
    requires Exclusive(s) && Timely(s) && Enabled(s, a)
    ensures Exclusive(Step(s, a))
  {
    var s' := Step(s, a);
    forall r: nat | Active(s', r) && r < |s.runners| && s'.runners[r] == s.runners[r] ensures Active(s, r) {}
  }

  /** One runner at a time: after its step the system is at rest, or still in that runner's hands. */
  lemma OnlyActor(s: System, a: Action)
    requires Exclusive(s) && Enabled(s, a) && !a.Tick? && !a.Lock?
    ensures Active(s, a.r)
    ensures forall q: nat :: Active(Step(s, a), q) ==> q == a.r
  {
    assert Active(s, a.r);
    forall q: nat | Active(Step(s, a), q) ensures q == a.r {
      if q != a.r { assert Active(s, q); }
    }
  }

  lemma LockWhenFree(s: System, r: nat)
    requires Exclusive(s) && Timely(s) && Enabled(s, Lock(r)) && Grantable(s)
    ensures AtRest(s)
    ensures forall q: nat :: Active(Step(s, Lock(r)), q) ==> q == r
  {
    assert forall q: nat :: Active(Step(s, Lock(r)), q) && q != r ==> Active(s, q);
  }

  lemma TickStep(s: System, ms: nat)
    requires Invariant(s)
    ensures Invariant(Step(s, Tick(ms)))
  {
    var s' := Step(s, Tick(ms));
    assert forall r: nat :: Active(s', r) <==> Active(s, r);
  }

  lemma HealthyStep(s: System, a: Action)
    requires Invariant(s) && Timely(s) && Enabled(s, a) && !s.lost
    ensures Invariant(Step(s, a))
  {
    var s' := Step(s, a);
    match a
    case Tick(ms) => TickStep(s, ms);
    case Lock(r) =>
      ExclusiveStep(s, a);
      if Grantable(s) { LockWhenFree(s, r); }
    case Refresh(r, rotates) =>
      ExclusiveStep(s, a);
      OnlyActor(s, a);
      assert Active(s', r);
    case _ =>
      ExclusiveStep(s, a);
      OnlyActor(s, a);
  }

  lemma OrphanedStep(s: System, a: Action)
    requires Invariant(s) && Timely(s) && Enabled(s, a) && s.lost
    ensures Invariant(Step(s, a))
    ensures forall i :: |s.sent| <= i < |Step(s, a).sent| ==> Step(s, a).sent[i].0 != Step(s, a).sent[i].1
  {
    match a
    case Tick(ms) => TickStep(s, ms);
    case Lock(r) =>
      ExclusiveStep(s, a);
      if Grantable(s) { LockWhenFree(s, r); }
    case _ =>
      ExclusiveStep(s, a);
      OnlyActor(s, a);
  }

  lemma {:induction false} RunInvariant(states: seq<System>, actions: seq<Action>, k: nat)
    requires TimelyRun(states, actions) && k <= |actions|
    ensures Invariant(states[k])
  {
    if k > 0 {
      RunInvariant(states, actions, k - 1);
      if states[k - 1].lost {
        OrphanedStep(states[k - 1], actions[k - 1]);
      } else {
        HealthyStep(states[k - 1], actions[k - 1]);
      }
    }
  }

  /**
   In every timely run of any number of runners, as long as no rotated token has been lost, every
   refresh token sent to the provider was the live one, at most one runner is inside the protocol, and
   whenever none is, the database holds the live token, whether or not the provider rotates.
   */
  lemma SentTokensAreLive(states: seq<System>, actions: seq<Action>, k: nat)
    requires TimelyRun(states, actions) && k <= |actions| && !states[k].lost
    ensures forall i :: 0 <= i < |states[k].sent| ==> states[k].sent[i].0 == states[k].sent[i].1
    ensures forall r: nat, q: nat :: Active(states[k], r) && Active(states[k], q) ==> r == q
    ensures AtRest(states[k]) ==> StoredIsLive(states[k])
  {
    RunInvariant(states, actions, k);
  }

  /** Losing a rotated token is the one way to fail, and for good: at rest, lost means not stored. */
  lemma StoredExactlyUnlessLost(states: seq<System>, actions: seq<Action>, k: nat)
    requires TimelyRun(states, actions) && k <= |actions| && AtRest(states[k])
    ensures StoredIsLive(states[k]) <==> !states[k].lost
  {
    RunInvariant(states, actions, k);
  }

  /** After a loss every token sent is a dead one. */
  lemma DeadAfterLoss(states: seq<System>, actions: seq<Action>, k: nat)
    requires TimelyRun(states, actions) && k < |actions| && states[k].lost
    requires |states[k + 1].sent| > |states[k].sent|
    ensures var (t, live) := states[k + 1].sent[|states[k].sent|]; t != live
  {
    RunInvariant(states, actions, k);
    OrphanedStep(states[k], actions[k]);
  }

  /** The run goes on by action a to state next. */
  ghost predicate Goes(s: System, a: Action, next: System, d: int)
  {
    Enabled(s, a) && next == Step(s, a) && Within(next, d)
  }

  lemma RunGrows(states: seq<System>, actions: seq<Action>, a: Action, next: System, d: int)
    requires RunWithin(states, actions, d) && Goes(states[|states| - 1], a, next, d)
    ensures RunWithin(states + [next], actions + [a], d)
  {
    assert Within(next, d);
  }

  const LATE: int := WINDOW_MS + 1

  /** One runner takes the lock and its token is rotated; the new one does not reach the database. */
  lemma RotationLost() returns (states: seq<System>, actions: seq<Action>)
    ensures TimelyRun(states, actions) && |actions| == 3
    ensures states[3] == System(Some(0), Some(0), 1, 2, 0, [Idle], [(0, 0)], true)
  {
    var s0 := System(Some(0), None, 0, 1, 0, [Idle], [], false);
    var s1 := s0.(lockedAt := Some(0), runners := [Holding(0, 0)]);
    var s2 := System(Some(0), Some(0), 1, 2, 0, [Committing(1, 0)], [(0, 0)], false);
    var s3 := s2.(runners := [Idle], lost := true);
    states, actions := [s0], [];
    RunGrows(states, actions, Lock(0), s1, WINDOW_MS);
    states, actions := states + [s1], actions + [Lock(0)];
    RunGrows(states, actions, Refresh(0, true), s2, WINDOW_MS);
    states, actions := states + [s2], actions + [Refresh(0, true)];
    RunGrows(states, actions, CommitLost(0), s3, WINDOW_MS);
    states, actions := states + [s3], actions + [CommitLost(0)];
  }

  /** A rotated token does not reach the database; the next runner, an hour later, sends the dead one. */
  lemma LostRotationSendsDeadToken() returns (states: seq<System>, actions: seq<Action>)
    ensures TimelyRun(states, actions) && |actions| == 6 && states[3].lost && AtRest(states[3])
    ensures !StoredIsLive(states[3]) && states[6].sent == [(0, 0), (0, 1)]
  {
    states, actions := RotationLost();
    var s4 := states[3].(now := LATE);
    var s5 := s4.(lockedAt := Some(LATE), runners := [Holding(0, LATE)]);
    var s6 := s5.(runners := [Idle], sent := [(0, 0), (0, 1)]);
    RunGrows(states, actions, Tick(LATE), s4, WINDOW_MS);
    states, actions := states + [s4], actions + [Tick(LATE)];
    RunGrows(states, actions, Lock(0), s5, WINDOW_MS);
    states, actions := states + [s5], actions + [Lock(0)];
    RunGrows(states, actions, Refresh(0, true), s6, WINDOW_MS);
    states, actions := states + [s6], actions + [Refresh(0, true)];
  }

  /** A runner stalls past the window, and another one takes the lock. */
  lemma TwoHoldTheLock() returns (states: seq<System>, actions: seq<Action>)
    ensures RunWithin(states, actions, LATE) && |actions| == 3
    ensures states[3] == System(Some(0), Some(LATE), 0, 1, LATE, [Holding(0, 0), Holding(0, LATE)], [], false)
  {
    var s0 := System(Some(0), None, 0, 1, 0, [Idle, Idle], [], false);
    var s1 := s0.(lockedAt := Some(0), runners := [Holding(0, 0), Idle]);
    var s2 := s1.(now := LATE);
    var s3 := s2.(lockedAt := Some(LATE), runners := [Holding(0, 0), Holding(0, LATE)]);
    states, actions := [s0], [];
    RunGrows(states, actions, Lock(0), s1, LATE);
    states, actions := states + [s1], actions + [Lock(0)];
    RunGrows(states, actions, Tick(LATE), s2, LATE);
    states, actions := states + [s2], actions + [Tick(LATE)];
    RunGrows(states, actions, Lock(1), s3, LATE);
    states, actions := states + [s3], actions + [Lock(1)];
  }

  /** The window is needed: a runner that stalls past it sends a token that another has rotated away. */
  lemma LateRunnerSendsDeadToken() returns (states: seq<System>, actions: seq<Action>)
    ensures RunWithin(states, actions, WINDOW_MS + 1) && |actions| == 6
    ensures !states[6].lost && states[6].sent == [(0, 0), (0, 1)]
  {
    states, actions := TwoHoldTheLock();
    var s4 := System(Some(0), Some(LATE), 1, 2, LATE, [Holding(0, 0), Committing(1, LATE)], [(0, 0)], false);
    var s5 := s4.(stored := Some(1), runners := [Holding(0, 0), Idle]);
    var s6 := s5.(runners := [Idle, Idle], sent := [(0, 0), (0, 1)]);
    RunGrows(states, actions, Refresh(1, true), s4, LATE);
    states, actions := states + [s4], actions + [Refresh(1, true)];
    RunGrows(states, actions, Commit(1), s5, LATE);
    states, actions := states + [s5], actions + [Commit(1)];
    RunGrows(states, actions, Refresh(0, true), s6, LATE);
    states, actions := states + [s6], actions + [Refresh(0, true)];
  }

  // ---------------------------------------------------------------- when the lock is granted

  /** The server stamps the credential: a lock is granted, or renewed tokens are stored. */
  ghost predicate Stamps(s: System, a: Action)
  {
    a.Commit? || (a.Lock? && Grantable(s))
  }

  /** Neither the stamp the run began with nor a later one is as late as b. */
  ghost predicate StampedBefore(states: seq<System>, actions: seq<Action>, m: nat, b: int)
    requires m <= |actions| && m < |states|
  {
    && (states[0].lockedAt.Some? ==> states[0].lockedAt.value < b)
    && (forall j :: 0 <= j < m && Stamps(states[j], actions[j]) ==> states[j].now < b)
  }

  /** What a step does to the stamp and the clock. */
  ghost predicate StampStep(s: System, a: Action, s': System)
  {
    s'.lockedAt == (if Stamps(s, a) then Some(s.now) else s.lockedAt) && s'.now >= s.now
  }

  ghost predicate StampRun(states: seq<System>, actions: seq<Action>)
  {
    && |states| == |actions| + 1 && (states[0].lockedAt.Some? ==> states[0].lockedAt.value <= states[0].now)
    && forall k :: 0 <= k < |actions| ==> StampStep(states[k], actions[k], states[k + 1])
  }

  lemma StepStamps(s: System, a: Action)
    requires Enabled(s, a)
    ensures StampStep(s, a, Step(s, a))
  {
  }

  lemma RunStamps(states: seq<System>, actions: seq<Action>)
    requires IsRun(states, actions)
    ensures StampRun(states, actions)
  {
    forall k | 0 <= k < |actions| ensures StampStep(states[k], actions[k], states[k + 1]) {
      StepStamps(states[k], actions[k]);
    }
  }

  lemma {:induction false} LastStampCounts(states: seq<System>, actions: seq<Action>, m: nat, b: int)
    requires StampRun(states, actions) && m <= |actions|
    ensures StampedBefore(states, actions, m, states[m].now + 1)
    ensures (states[m].lockedAt.Some? ==> states[m].lockedAt.value < b) <==> StampedBefore(states, actions, m, b)
  {
    if m > 0 {
      LastStampCounts(states, actions, m - 1, b);
      assert StampStep(states[m - 1], actions[m - 1], states[m]);
    }
  }

  /**
   The lock is granted exactly when more than an hour has gone by since the credential was last stamped,
   be it by a lock or by a commit.
   */
  lemma GrantedExactly(states: seq<System>, actions: seq<Action>, m: nat)
    requires IsRun(states, actions) && m <= |actions|
    ensures Grantable(states[m]) <==> StampedBefore(states, actions, m, states[m].now - 60 * 60 * 1000)
  {
    RunStamps(states, actions);
    LastStampCounts(states, actions, m, states[m].now - WINDOW_MS);
  }

  ghost predicate OnlyLiveSent(s: System)
  {
    forall i :: 0 <= i < |s.sent| ==> s.sent[i].0 == s.sent[i].1
  }

  /** The promise of the lock, over all runs whose runners stay inside the protocol for at most d. */
  ghost predicate LockSuffices(d: int)
  {
    forall states: seq<System>, actions: seq<Action>, k: int ::
      RunWithin(states, actions, d) && 0 <= k <= |actions| && !states[k].lost ==> OnlyLiveSent(states[k])
  }

  lemma ShorterIsTimely(states: seq<System>, actions: seq<Action>, d: int)
    requires RunWithin(states, actions, d) && d <= WINDOW_MS
    ensures TimelyRun(states, actions)
  {
    forall k | 0 <= k < |states| ensures Within(states[k], WINDOW_MS) {
      assert Within(states[k], d);
    }
  }

  lemma LongerIsWithin(states: seq<System>, actions: seq<Action>, d: int)
    requires RunWithin(states, actions, WINDOW_MS + 1) && d > WINDOW_MS
    ensures RunWithin(states, actions, d)
  {
    forall k | 0 <= k < |states| ensures Within(states[k], d) {
      assert Within(states[k], WINDOW_MS + 1);
    }
  }

  /**
   Exactly how slow runners may be: while no rotated token is lost, only live tokens are sent in all runs
   whose runners take at most d, if and only if d is no longer than the window of the lock.
   */
  lemma LockSufficesExactly(d: int)
    ensures LockSuffices(d) <==> d <= 60 * 60 * 1000
  {
    if d <= WINDOW_MS {
      forall states: seq<System>, actions: seq<Action>, k: int |
        RunWithin(states, actions, d) && 0 <= k <= |actions| && !states[k].lost
        ensures OnlyLiveSent(states[k])
      {
        ShorterIsTimely(states, actions, d);
        SentTokensAreLive(states, actions, k);
      }
    } else {
      var states, actions := LateRunnerSendsDeadToken();
      LongerIsWithin(states, actions, d);
      assert states[6].sent[1] == (0, 1);
      assert !OnlyLiveSent(states[6]);
    }
  }
}
