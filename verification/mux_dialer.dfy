/** The dialer's session cache: double-checked locking under any number of concurrent dials and session deaths. */
module MuxDialer {
  import opened Bytes

  /** Usable: `open_stream` would succeed. A session that refuses or has closed never becomes usable again. */
  datatype Health = Usable | Refusing | Closed

  /** Where one dial is. From `Recheck` to `Opened` it holds the build lock. */
  datatype Place =
    | Warm(session: nat)       // has cloned the cached session, about to open a stream on it
    | WaitLock
    | Recheck
    | Retry(session: nat)      // has cloned the cached session again, under the lock
    | Dialing                  // waiting for the transport
    | Fresh(session: nat)      // has built a session
    | Opened(session: nat)     // has opened a stream on it, about to publish it
    | Done

  datatype State = State(
    sessions: seq<Health>,     // every session ever built
    cached: Option<nat>,
    holder: Option<nat>,       // the dial holding the build lock
    dials: map<nat, Place>,
    built: nat,
    worked: set<nat>)          // sessions on which a stream has been opened

  const INIT := State([], None, None, map[], 0, {})

  datatype Action =
    | Begin(t: nat) | OpenWarm(t: nat) | Lock(t: nat) | LookAgain(t: nat) | OpenRetry(t: nat)
    | TransportUp(t: nat, h: Health) | TransportFails(t: nat) | OpenFresh(t: nat) | Publish(t: nat)
    | Cancel(t: nat)           // the dial's future is dropped while it waits for the lock
    | Worsen(session: nat, h: Health)
    | CloseCached

  // ------------------------------------------------------------------
  // Steps
  // ------------------------------------------------------------------

  predicate IsLive(s: State) {
    s.cached.Some? && s.cached.value < |s.sessions| && s.sessions[s.cached.value] != Closed
  }

  /** `live_session` evicts a closed session on the way past. */
  function Evict(s: State): State { if IsLive(s) then s else s.(cached := None) }

  function At(s: State, t: nat, p: Place): State { s.(dials := s.dials[t := p]) }

  function Release(s: State, t: nat): State { At(s, t, Done).(holder := None) }

  predicate IsAt(s: State, t: nat, p: Place) { t in s.dials && s.dials[t] == p }

  predicate CanOpen(s: State, i: nat) { i < |s.sessions| && s.sessions[i] == Usable }

  /** A stream has been opened on session i. */
  function Served(s: State, i: nat): State { s.(worked := s.worked + {i}) }

  function Step(s: State, a: Action): State {
    match a
    case Begin(t) =>
      if t in s.dials then s
      else At(Evict(s), t, if IsLive(s) then Warm(s.cached.value) else WaitLock)
    case OpenWarm(t) =>
      if t !in s.dials || !s.dials[t].Warm? then s
      else if CanOpen(s, s.dials[t].session) then At(Served(s, s.dials[t].session), t, Done)
      else At(s, t, WaitLock)
    case Lock(t) => if !IsAt(s, t, WaitLock) || s.holder.Some? then s else At(s, t, Recheck).(holder := Some(t))
    case LookAgain(t) =>
      if !IsAt(s, t, Recheck) then s
      else At(Evict(s), t, if IsLive(s) then Retry(s.cached.value) else Dialing)
    case OpenRetry(t) =>
      if t !in s.dials || !s.dials[t].Retry? then s
      else if CanOpen(s, s.dials[t].session) then Release(Served(s, s.dials[t].session), t)
      else At(s, t, Dialing)
    case TransportUp(t, h) =>
      if !IsAt(s, t, Dialing) then s
      else At(s, t, Fresh(|s.sessions|)).(sessions := s.sessions + [h], built := s.built + 1)
    case TransportFails(t) => if !IsAt(s, t, Dialing) then s else Release(s, t)
    case OpenFresh(t) =>
      if t !in s.dials || !s.dials[t].Fresh? then s
      else
        var i := s.dials[t].session;
        if CanOpen(s, i) then At(Served(s, i), t, Opened(i))
        else if i < |s.sessions| then Release(s, t).(sessions := s.sessions[i := Closed])   // dropped, hence closed
        else Release(s, t)
    case Publish(t) =>
      if t !in s.dials || !s.dials[t].Opened? then s
      else Release(s, t).(cached := Some(s.dials[t].session))
    case Cancel(t) => if !IsAt(s, t, WaitLock) then s else At(s, t, Done)
    case Worsen(i, h) =>
      if i >= |s.sessions| || h == Usable || s.sessions[i] == Closed then s else s.(sessions := s.sessions[i := h])
    case CloseCached =>
      if s.cached.None? || s.cached.value >= |s.sessions| then s
      else s.(sessions := s.sessions[s.cached.value := Closed])
  }

  function Run(s: State, acts: seq<Action>): State
    decreases |acts|
  {
    if acts == [] then s else Run(Step(s, acts[0]), acts[1..])
  }

  // ------------------------------------------------------------------
  // Invariant
  // ------------------------------------------------------------------

  predicate InLock(p: Place) { p.Recheck? || p.Retry? || p.Dialing? || p.Fresh? || p.Opened? }

  /** The session that the lock holder has built and not yet published. */
  function Unpublished(s: State): Option<nat> {
    if s.holder.Some? && s.holder.value in s.dials then
      match s.dials[s.holder.value]
      case Fresh(i) => Some(i)
      case Opened(i) => Some(i)
      case _ => None
    else None
  }

  ghost predicate Inv(s: State) {
    && s.built == |s.sessions|
    && (s.cached.Some? ==> s.cached.value < |s.sessions|)
    && (forall t :: t in s.dials && InLock(s.dials[t]) ==> s.holder == Some(t))
    && (s.holder.Some? ==> s.holder.value in s.dials && InLock(s.dials[s.holder.value]))
    && (forall i :: 0 <= i < |s.sessions| && s.sessions[i] == Usable ==>
          if Unpublished(s).Some? then Unpublished(s) == Some(i) else s.cached == Some(i))
    && (s.holder.Some? ==>
          match s.dials[s.holder.value]
          case Retry(i) => s.cached == Some(i) || s.cached == None
          case Dialing => forall j :: 0 <= j < |s.sessions| ==> s.sessions[j] != Usable
          case Fresh(i) => i < |s.sessions|
          case Opened(i) => i < |s.sessions|
          case _ => true)
  }

  /** Only sessions that have served a stream are published or about to be; any other is still being tried or closed. */
  ghost predicate WorkInv(s: State) {
    && (s.cached.Some? ==> s.cached.value in s.worked)
    && (forall t :: t in s.dials && s.dials[t].Opened? ==> s.dials[t].session in s.worked)
    && (forall i :: i in s.worked ==> i < |s.sessions|)
    && (forall i :: 0 <= i < |s.sessions| && i !in s.worked && Unpublished(s) != Some(i) ==> s.sessions[i] == Closed)
  }

  lemma BeginKeeps(s: State, t: nat)
    requires Inv(s)
    ensures Inv(Step(s, Begin(t)))
  {}

  lemma WarmKeeps(s: State, t: nat)
    requires Inv(s)
    ensures Inv(Step(s, OpenWarm(t)))
  {}

  lemma WaiterKeeps(s: State, a: Action)
    requires Inv(s) && (a.Lock? || a.Cancel?)
    ensures Inv(Step(s, a))
  {}

  /** Steps taken outside the build lock. */
  lemma UnlockedStepKeeps(s: State, a: Action)
    requires Inv(s) && (a.Begin? || a.OpenWarm? || a.Lock? || a.Cancel?)
    ensures Inv(Step(s, a))
  {
    hide Inv, Step;
    if a.Begin? { BeginKeeps(s, a.t); } else if a.OpenWarm? { WarmKeeps(s, a.t); } else { WaiterKeeps(s, a); }
  }

  /** Steps of the lock holder up to the point where it has a transport. */
  lemma LookStepKeeps(s: State, a: Action)
    requires Inv(s) && (a.LookAgain? || a.OpenRetry? || a.TransportFails?)
    ensures Inv(Step(s, a))
  {}

  lemma TransportKeeps(s: State, t: nat, h: Health)
    requires Inv(s)
    ensures Inv(Step(s, TransportUp(t, h)))
  {}

  lemma FreshKeeps(s: State, a: Action)
    requires Inv(s) && (a.OpenFresh? || a.Publish?)
    ensures Inv(Step(s, a))
  {}

  lemma BuildStepKeeps(s: State, a: Action)
    requires Inv(s) && (a.TransportUp? || a.OpenFresh? || a.Publish?)
    ensures Inv(Step(s, a))
  {
    hide Inv, Step;
    if a.TransportUp? { TransportKeeps(s, a.t, a.h); } else { FreshKeeps(s, a); }
  }

  lemma SessionStepKeeps(s: State, a: Action)
    requires Inv(s) && (a.Worsen? || a.CloseCached?)
    ensures Inv(Step(s, a))
  {}

  lemma UnlockedWorkKeeps(s: State, a: Action)
    requires Inv(s) && WorkInv(s) && (a.Begin? || a.OpenWarm? || a.Lock? || a.Cancel?)
    ensures WorkInv(Step(s, a))
  {
    if a.Begin? || a.OpenWarm? { EarlyWorkKeeps(s, a); } else { WaiterWorkKeeps(s, a); }
  }

  lemma EarlyWorkKeeps(s: State, a: Action)
    requires Inv(s) && WorkInv(s) && (a.Begin? || a.OpenWarm?)
    ensures WorkInv(Step(s, a))
  {
    EarlyUnpublished(s, a);
    hide Unpublished;
  }

  lemma EarlyUnpublished(s: State, a: Action)
    requires Inv(s) && (a.Begin? || a.OpenWarm?)
    ensures Unpublished(Step(s, a)) == Unpublished(s)
  {}

  lemma WaiterWorkKeeps(s: State, a: Action)
    requires Inv(s) && WorkInv(s) && (a.Lock? || a.Cancel?)
    ensures WorkInv(Step(s, a))
  {
    assert Unpublished(Step(s, a)) == Unpublished(s) by { hide WorkInv; }
  }

  lemma LookWorkKeeps(s: State, a: Action)
    requires Inv(s) && WorkInv(s) && (a.LookAgain? || a.OpenRetry? || a.TransportFails?)
    ensures WorkInv(Step(s, a))
  {
    assert Unpublished(Step(s, a)) == Unpublished(s) by { hide WorkInv; }
  }

  lemma UpWorkKeeps(s: State, a: Action)
    requires Inv(s) && WorkInv(s) && a.TransportUp?
    ensures WorkInv(Step(s, a))
  {
    if IsAt(s, a.t, Dialing) {
      assert Unpublished(Step(s, a)) == Some(|s.sessions|) && Unpublished(s) == None;
    }
  }

  lemma FreshWorkKeeps(s: State, a: Action)
    requires Inv(s) && WorkInv(s) && a.OpenFresh?
    ensures WorkInv(Step(s, a))
  {
    if a.t in s.dials && s.dials[a.t].Fresh? {
      assert Unpublished(s) == Some(s.dials[a.t].session);
    }
  }

  lemma PublishWorkKeeps(s: State, a: Action)
    requires Inv(s) && WorkInv(s) && a.Publish?
    ensures WorkInv(Step(s, a))
  {
    if a.t in s.dials && s.dials[a.t].Opened? {
      assert Unpublished(s) == Some(s.dials[a.t].session) && Unpublished(Step(s, a)) == None;
    }
  }

  lemma SessionWorkKeeps(s: State, a: Action)
    requires Inv(s) && WorkInv(s) && (a.Worsen? || a.CloseCached?)
    ensures WorkInv(Step(s, a))
  {
    assert Unpublished(Step(s, a)) == Unpublished(s);
  }

  lemma StepKeeps(s: State, a: Action)
    requires Inv(s) && WorkInv(s)
    ensures Inv(Step(s, a)) && WorkInv(Step(s, a))
  {
    hide Inv, WorkInv, Step;
    if a.Begin? || a.OpenWarm? || a.Lock? || a.Cancel? {
      UnlockedStepKeeps(s, a);
      UnlockedWorkKeeps(s, a);
    } else if a.LookAgain? || a.OpenRetry? || a.TransportFails? {
      LookStepKeeps(s, a);
      LookWorkKeeps(s, a);
    } else if a.TransportUp? || a.OpenFresh? || a.Publish? {
      BuildStepKeeps(s, a);
      if a.TransportUp? { UpWorkKeeps(s, a); } else if a.OpenFresh? { FreshWorkKeeps(s, a); } else { PublishWorkKeeps(s, a); }
    } else {
      SessionStepKeeps(s, a);
      SessionWorkKeeps(s, a);
    }
  }

  lemma {:induction false} RunKeeps(s: State, acts: seq<Action>)
    requires Inv(s) && WorkInv(s)
    ensures Inv(Run(s, acts)) && WorkInv(Run(s, acts))
    decreases |acts|
  {
    hide Inv, WorkInv, Step;
    if acts != [] {
      StepKeeps(s, acts[0]);
      RunKeeps(Step(s, acts[0]), acts[1..]);
    }
  }

  function Unusable(hs: seq<Health>): nat {
    if hs == [] then 0 else (if hs[0] == Usable then 0 else 1) + Unusable(hs[1..])
  }

  lemma {:induction false} CountUnusable(hs: seq<Health>)
    requires forall i, j :: 0 <= i < |hs| && 0 <= j < |hs| && hs[i] == Usable && hs[j] == Usable ==> i == j
    ensures |hs| <= 1 + Unusable(hs)
    ensures (forall i :: 0 <= i < |hs| ==> hs[i] != Usable) ==> |hs| == Unusable(hs)
  {
    if hs != [] {
      assert forall i :: 0 <= i < |hs[1..]| ==> hs[1..][i] == hs[i + 1];
      CountUnusable(hs[1..]);
    }
  }

  /** For any concurrent dials interleaved with sessions dying, refusing or being closed: every session but the
      published one (or the one the lock holder is about to publish) is unusable, so the number of sessions ever
      built is at most one more than the number that became unusable. */
  lemma AtMostOneUsableSession(acts: seq<Action>)
    ensures var s := Run(INIT, acts);
            && (forall i :: 0 <= i < |s.sessions| && s.sessions[i] == Usable ==>
                  s.cached == Some(i) || Unpublished(s) == Some(i))
            && (forall i, j | 0 <= i < |s.sessions| && 0 <= j < |s.sessions| ::
                  s.sessions[i] == Usable && s.sessions[j] == Usable ==> i == j)
            && s.built == |s.sessions| <= 1 + Unusable(s.sessions)
  {
    RunKeeps(INIT, acts);
    CountUnusable(Run(INIT, acts).sessions);
  }

  /** Only sessions that work are published: in every run the cached session is one on which a stream was opened, and a
      session on which none could be is closed once its builder has let go of it. */
  lemma PublishedSessionsWork(acts: seq<Action>)
    ensures var s := Run(INIT, acts);
            && (s.cached.Some? ==> s.cached.value < |s.sessions| && s.cached.value in s.worked)
            && (forall i :: 0 <= i < |s.sessions| && i !in s.worked && Unpublished(s) != Some(i) ==> s.sessions[i] == Closed)
  {
    RunKeeps(INIT, acts);
  }

  /** A usable cached session serves a dial at once: nothing is built and no lock is taken. */
  lemma UsableSessionServes(s: State, t: nat)
    requires IsLive(s) && s.sessions[s.cached.value] == Usable && t !in s.dials
    ensures var s' := Step(Step(s, Begin(t)), OpenWarm(t));
            IsAt(s', t, Done) && s'.sessions == s.sessions && s'.cached == s.cached && s'.holder == s.holder
            && s'.built == s.built && s'.worked == s.worked + {s.cached.value}
  {}

  /** The way to the transport when there is no usable session. */
  lemma LoneLook(s: State, t: nat)
    requires t !in s.dials && s.holder.None? && (s.cached.Some? ==> s.cached.value < |s.sessions|)
    requires s.cached.Some? ==> s.sessions[s.cached.value] != Usable
    ensures var s1 := Step(Step(Step(Step(Step(s, Begin(t)), OpenWarm(t)), Lock(t)), LookAgain(t)), OpenRetry(t));
            && IsAt(s1, t, Dialing) && s1.holder == Some(t) && s1.sessions == s.sessions
            && s1.cached == Evict(s).cached && s1.built == s.built && s1.worked == s.worked
  {
    var a := Step(s, Begin(t));
    var b := Step(a, OpenWarm(t));
    assert IsAt(b, t, WaitLock) && b.holder == None && b.sessions == s.sessions && b.cached == Evict(s).cached;
    assert b.worked == s.worked && b.built == s.built;
    var c := Step(b, Lock(t));
    assert IsAt(c, t, Recheck) && c.cached == b.cached && c.sessions == s.sessions;
  }

  lemma LoneBuild(s: State, t: nat, h: Health)
    requires IsAt(s, t, Dialing)
    ensures var n := |s.sessions|;
            var s' := Step(Step(Step(s, TransportUp(t, h)), OpenFresh(t)), Publish(t));
            && IsAt(s', t, Done) && s'.holder == None && s'.built == s.built + 1
            && s'.sessions == s.sessions + [if h == Usable then Usable else Closed]
            && s'.cached == (if h == Usable then Some(n) else s.cached)
            && s'.worked == s.worked + (if h == Usable then {n} else {})
  {
    var n, a := |s.sessions|, Step(s, TransportUp(t, h));
    assert IsAt(a, t, Fresh(n)) && a.sessions == s.sessions + [h] && a.sessions[n] == h;
    if h != Usable { assert (s.sessions + [h])[n := Closed] == s.sessions + [Closed]; }
  }

  /** A dial that runs undisturbed with no usable session cached: it builds one, and publishes it exactly if a stream
      can be opened on it; otherwise the new session is closed and the cache is as the look left it. */
  lemma LoneDial(s: State, t: nat, h: Health)
    requires Inv(s) && WorkInv(s) && t !in s.dials && s.holder.None?
    requires s.cached.Some? ==> s.sessions[s.cached.value] != Usable
    ensures var n := |s.sessions|;
            var s1 := Step(Step(Step(Step(Step(s, Begin(t)), OpenWarm(t)), Lock(t)), LookAgain(t)), OpenRetry(t));
            var s' := Step(Step(Step(s1, TransportUp(t, h)), OpenFresh(t)), Publish(t));
            && IsAt(s1, t, Dialing) && s1.sessions == s.sessions && s1.cached == Evict(s).cached
            && IsAt(s', t, Done) && s'.holder == None && s'.built == s.built + 1
            && s'.sessions == s.sessions + [if h == Usable then Usable else Closed]
            && s'.cached == (if h == Usable then Some(n) else Evict(s).cached)
            && (h == Usable <==> n in s'.worked)
  {
    hide Step;
    var s1 := Step(Step(Step(Step(Step(s, Begin(t)), OpenWarm(t)), Lock(t)), LookAgain(t)), OpenRetry(t));
    LoneLook(s, t);
    LoneBuild(s1, t, h);
    assert |s.sessions| !in s.worked;
  }

  /** A transport that fails ends the dial and frees the lock, with nothing built. */
  lemma FailedTransport(s: State, t: nat)
    requires IsAt(s, t, Dialing)
    ensures var s' := Step(s, TransportFails(t));
            IsAt(s', t, Done) && s'.holder == None && s'.sessions == s.sessions && s'.cached == s.cached && s'.built == s.built
  {}

  /** Closing leaves the dead session in the cache, and the next look evicts it. */
  lemma CloseThenLook(s: State, t: nat)
    requires Inv(s) && s.cached.Some? && t !in s.dials
    ensures var s' := Step(s, CloseCached);
            && s'.cached == s.cached && s'.sessions == s.sessions[s.cached.value := Closed]
            && Step(s', Begin(t)).cached == None && IsAt(Step(s', Begin(t)), t, WaitLock)
  {}

  // ------------------------------------------------------------------
  // One dial with nobody in its way
  // ------------------------------------------------------------------

  class Dialer {
    var sessions: seq<Health>
    var cached: Option<nat>
    var built: nat

    predicate Valid()
      reads this
    {
      built == |sessions| && (cached.Some? ==> cached.value < |sessions|)
    }

    constructor ()
      ensures Valid() && sessions == [] && cached == None
    {
      sessions, cached, built := [], None, 0;
    }

    method LiveSession() returns (r: Option<nat>)
      requires Valid()
      modifies this`cached
      ensures Valid()
      ensures cached == if old(cached).Some? && sessions[old(cached).value] != Closed then old(cached) else None
      ensures r == cached
    {
      if cached.Some? && sessions[cached.value] == Closed {
        cached := None;
      }
      return cached;
    }

    /** A dial reuses the cached session whenever it will take a stream and otherwise builds exactly one; only a
        session that has opened a stream is ever published. `transport` is what the factory comes back with. */
    method Dial(transport: Option<Health>) returns (r: Option<nat>)
      requires Valid()
      modifies this
      ensures Valid()
      ensures r.Some? ==> r == cached && r.value < |sessions| && sessions[r.value] == Usable
      ensures old(cached).Some? && old(sessions)[old(cached).value] == Usable ==>
                r == old(cached) && sessions == old(sessions)
      ensures !(old(cached).Some? && old(sessions)[old(cached).value] == Usable) ==>
                && (r.Some? <==> transport == Some(Usable))
                && sessions == old(sessions) + (if transport.None? then []
                                                else [if transport.value == Usable then Usable else Closed])
                && cached == (if transport == Some(Usable) then Some(|old(sessions)|)
                              else if old(cached).Some? && old(sessions)[old(cached).value] != Closed then old(cached)
                              else None)
    {
      var live := LiveSession();
      if live.Some? && sessions[live.value] == Usable {
        return live;
      }
      live := LiveSession();
      if live.Some? && sessions[live.value] == Usable {
        return live;
      }
      if transport.None? {
        return None;
      }
      var fresh' := |sessions|;
      sessions := sessions + [transport.value];
      built := built + 1;
      if sessions[fresh'] != Usable {
        sessions := sessions[fresh' := Closed];
        return None;
      }
      cached := Some(fresh');
      return cached;
    }
  }
}
