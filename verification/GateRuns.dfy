/** Runs of the authentication gate with both limiters. */
module GateRuns {
  import opened RateLimit

  predicate CallOrdered(c: GateCall) {
    match c
    case Login(_, _, k, _) => k.ipCheck <= k.userCheck <= k.ipNow <= k.ipStamp <= k.userNow <= k.userStamp
    case SweepBoth(ipAt, userAt) => ipAt <= userAt
  }

  function CallStart(c: GateCall): int { if c.Login? then c.clock.ipCheck else c.ipAt }

  function CallEnd(c: GateCall): int { if c.Login? then c.clock.userStamp else c.userAt }

  /** Calls handled one at a time on one clock. */
  ghost predicate InOrder(calls: seq<GateCall>) {
    (forall i :: 0 <= i < |calls| ==> CallOrdered(calls[i])) &&
    (forall i, j :: 0 <= i < j < |calls| ==> CallEnd(calls[i]) <= CallStart(calls[j]))
  }

  function GateRun(calls: seq<GateCall>): GateState {
    if calls == [] then GateState(map[], map[]) else GateAfter(GateRun(calls[..|calls| - 1]), calls[|calls| - 1])
  }

  function IpEvents(calls: seq<GateCall>): seq<Event> {
    if calls == [] then []
    else IpEvents(calls[..|calls| - 1]) + [IpEvent(GateRun(calls[..|calls| - 1]), calls[|calls| - 1])]
  }

  function UserEvents(calls: seq<GateCall>): seq<Event> {
    if calls == [] then []
    else
      var before, g, c := UserEvents(calls[..|calls| - 1]), GateRun(calls[..|calls| - 1]), calls[|calls| - 1];
      if IpBlocks(g, c) then before else before + [UserEvent(g, c)]
  }

  /** The call reached the backend and was not let in. */
  predicate FailsAtBackend(g: GateState, c: GateCall) { Reaches(g, c) && !c.verdict.Allowed? }

  /** When the limiter of addresses dates a backend failure: as it counts it, or opens an entry for it. */
  function IpTime(g: GateState, c: GateCall): int
    requires c.Login?
  {
    RecordTime(g.ip, IpEvent(g, c))
  }

  function UserTime(g: GateState, c: GateCall): int
    requires c.Login?
  {
    RecordTime(g.user, UserEvent(g, c))
  }

  /** The times of the backend failures from one address. */
  function FailuresFrom(calls: seq<GateCall>, ip: string): seq<int> {
    if calls == [] then []
    else
      var g, c := GateRun(calls[..|calls| - 1]), calls[|calls| - 1];
      FailuresFrom(calls[..|calls| - 1], ip) + (if FailsAtBackend(g, c) && c.sourceIp == ip then [IpTime(g, c)] else [])
  }

  /** The times of the backend failures for one user. */
  function FailuresFor(calls: seq<GateCall>, user: string): seq<int> {
    if calls == [] then []
    else
      var g, c := GateRun(calls[..|calls| - 1]), calls[|calls| - 1];
      FailuresFor(calls[..|calls| - 1], user) + (if FailsAtBackend(g, c) && c.username == user then [UserTime(g, c)] else [])
  }

  /** No call from the address was let in. */
  ghost predicate NoneLetInFrom(calls: seq<GateCall>, ip: string) {
    forall i :: 0 <= i < |calls| && calls[i].Login? && calls[i].sourceIp == ip ==>
      !(Reaches(GateRun(calls[..i]), calls[i]) && calls[i].verdict.Allowed?)
  }

  ghost predicate NoneLetInFor(calls: seq<GateCall>, user: string) {
    forall i :: 0 <= i < |calls| && calls[i].Login? && calls[i].username == user ==>
      !(Reaches(GateRun(calls[..i]), calls[i]) && calls[i].verdict.Allowed?)
  }

  ghost predicate EndedBy(evs: seq<Event>, t: int) { forall i :: 0 <= i < |evs| ==> EventEnd(evs[i]) <= t }

  lemma OneMore(evs: seq<Event>, ev: Event, t: int)
    requires OneAtATime(evs) && EndedBy(evs, t) && EventOrdered(ev) && t <= EventStart(ev) <= EventEnd(ev)
    ensures OneAtATime(evs + [ev]) && EndedBy(evs + [ev], EventEnd(ev))
  {
  }

  lemma Orders(g: GateState, c: GateCall)
    requires CallOrdered(c)
    ensures EventOrdered(IpEvent(g, c)) && EventOrdered(UserEvent(g, c))
    ensures CallStart(c) <= EventStart(IpEvent(g, c)) <= EventEnd(IpEvent(g, c)) <= CallEnd(c)
    ensures CallStart(c) <= EventStart(UserEvent(g, c)) <= EventEnd(UserEvent(g, c)) <= CallEnd(c)
  {
    hide Reaches, FateOf;
  }

  lemma EndedLater(evs: seq<Event>, t: int, later: int)
    requires EndedBy(evs, t) && t <= later
    ensures EndedBy(evs, later)
  {
  }

  lemma RunMore(evs: seq<Event>, ev: Event, maxFails: nat)
    ensures Run(evs + [ev], maxFails) == After(Run(evs, maxFails), ev, maxFails)
  {
    hide After;
    assert (evs + [ev])[..|evs|] == evs;
  }

  lemma NothingRun(t: int)
    ensures OneAtATime([]) && EndedBy([], t)
    ensures Run([], MAX_FAILS_IP) == map[] && Run([], MAX_FAILS_USER) == map[]
  {
  }

  /** When a run has ended by: before its first call, anything. */
  predicate Over(calls: seq<GateCall>, t: int) { calls != [] ==> CallEnd(calls[|calls| - 1]) <= t }

  /** Each limiter sees its events one at a time, and its entries are those of its own run. */
  lemma {:induction false} LimitersRun(calls: seq<GateCall>, t: int)
    requires InOrder(calls) && Over(calls, t)
    ensures OneAtATime(IpEvents(calls)) && EndedBy(IpEvents(calls), t)
    ensures OneAtATime(UserEvents(calls)) && EndedBy(UserEvents(calls), t)
    ensures Run(IpEvents(calls), MAX_FAILS_IP) == GateRun(calls).ip
    ensures Run(UserEvents(calls), MAX_FAILS_USER) == GateRun(calls).user
  {
    hide After, IpEvent, UserEvent, IpBlocks, EventOrdered, EventStart, EventEnd, OneAtATime, EndedBy, Run;
    NothingRun(t);
    if calls != [] {
      var before, c := calls[..|calls| - 1], calls[|calls| - 1];
      var g := GateRun(before);
      LimitersRun(before, CallStart(c));
      Orders(g, c);
      OneMore(IpEvents(before), IpEvent(g, c), CallStart(c));
      OneMore(UserEvents(before), UserEvent(g, c), CallStart(c));
      RunMore(IpEvents(before), IpEvent(g, c), MAX_FAILS_IP);
      RunMore(UserEvents(before), UserEvent(g, c), MAX_FAILS_USER);
      EndedLater(IpEvents(calls), EventEnd(IpEvent(g, c)), t);
      EndedLater(UserEvents(before), CallStart(c), t);
      EndedLater(UserEvents(before) + [UserEvent(g, c)], EventEnd(UserEvent(g, c)), t);
    }
  }

  /** The backend failures of a key are what its limiter records. */
  lemma {:induction false} FailuresAreRecorded(calls: seq<GateCall>, ip: string, user: string)
    requires InOrder(calls)
    ensures FailuresFrom(calls, ip) == Failures(IpEvents(calls), ip, MAX_FAILS_IP)
    ensures FailuresFor(calls, user) == Failures(UserEvents(calls), user, MAX_FAILS_USER)
  {
    hide After, RecordTime, Run;
    if calls != [] {
      var before, c := calls[..|calls| - 1], calls[|calls| - 1];
      var g := GateRun(before);
      FailuresAreRecorded(before, ip, user);
      LimitersRun(before, CallStart(c));
      assert (IpEvents(before) + [IpEvent(g, c)])[..|IpEvents(before)|] == IpEvents(before);
      assert (UserEvents(before) + [UserEvent(g, c)])[..|UserEvents(before)|] == UserEvents(before);
      RecordsBackendFailures(g, c, ip, user);
    }
  }

  lemma RecordsBackendFailures(g: GateState, c: GateCall, ip: string, user: string)
    ensures Records(g.ip, IpEvent(g, c), ip, MAX_FAILS_IP) <==> FailsAtBackend(g, c) && c.sourceIp == ip
    ensures !IpBlocks(g, c) ==>
              (Records(g.user, UserEvent(g, c), user, MAX_FAILS_USER) <==> FailsAtBackend(g, c) && c.username == user)
    ensures IpBlocks(g, c) ==> !FailsAtBackend(g, c)
  {
  }

  lemma {:induction false} NoSuccesses(calls: seq<GateCall>, ip: string, user: string)
    ensures NoneLetInFrom(calls, ip) ==> NeverSucceeds(IpEvents(calls), ip)
    ensures NoneLetInFor(calls, user) ==> NeverSucceeds(UserEvents(calls), user)
  {
    hide After, Blocked, GateRun;
    if calls != [] {
      var before, c := calls[..|calls| - 1], calls[|calls| - 1];
      assert forall i :: 0 <= i < |before| ==> before[i] == calls[i] && before[..i] == calls[..i];
      NoSuccesses(before, ip, user);
    }
  }

  /** The bound at the gate: over any run of calls and sweeps handled one at a time, no span of one window
      sees more than nine failures at the backend from an address that was never let in, nor more than
      nineteen for a user who never was. */
  lemma BackendFailureBound(calls: seq<GateCall>, ip: string, user: string, lo: int, hi: int)
    requires InOrder(calls) && hi - lo <= 300_000_000_000
    ensures NoneLetInFrom(calls, ip) ==> CountIn(FailuresFrom(calls, ip), lo, hi) <= 9
    ensures NoneLetInFor(calls, user) ==> CountIn(FailuresFor(calls, user), lo, hi) <= 19
  {
    hide OneAtATime, NeverSucceeds, Failures, CountIn, IpEvents, UserEvents, NoneLetInFrom, NoneLetInFor;
    LimitersRun(calls, if calls == [] then 0 else CallEnd(calls[|calls| - 1]));
    FailuresAreRecorded(calls, ip, user);
    NoSuccesses(calls, ip, user);
    if NoneLetInFrom(calls, ip) { FailureBound(IpEvents(calls), ip, MAX_FAILS_IP, lo, hi); }
    if NoneLetInFor(calls, user) { FailureBound(UserEvents(calls), user, MAX_FAILS_USER, lo, hi); }
  }
}
