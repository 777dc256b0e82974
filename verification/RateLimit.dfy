/** The failed-login limiter of the SFTP gateway. */
module RateLimit {
  import opened Texts

  /** Five minutes in nanoseconds. */
  const WINDOW: int := 300_000_000_000

  const MAX_FAILS_IP: nat := 5

  const MAX_FAILS_USER: nat := 10

  datatype Entry = Entry(count: nat, firstFail: int)

  predicate Stale(e: Entry, now: int) { now - e.firstFail > WINDOW }

  type Entries = map<string, Entry>

  /** isBlocked / isBlockedAt: a fresh entry with enough failures. */
  predicate Blocked(m: Entries, key: string, maxFails: nat, now: int) {
    key in m && !Stale(m[key], now) && m[key].count >= maxFails
  }

  /** The lazy delete of a check. */
  function Checked(m: Entries, key: string, now: int): Entries {
    if key in m && Stale(m[key], now) then m - {key} else m
  }

  /** recordFailure: a first failure opens an entry stamped a moment later, a further one is counted. */
  function Recorded(m: Entries, key: string, now: int, stamp: int): Entries {
    if key !in m || Stale(m[key], now) then m[key := Entry(1, stamp)]
    else m[key := Entry(m[key].count + 1, m[key].firstFail)]
  }

  /** cleanup. */
  function Swept(m: Entries, now: int): Entries { map k | k in m && !Stale(m[k], now) :: m[k] }

  class RateLimitStore {
    var entries: Entries

    constructor ()
      ensures entries == map[]
    {
      entries := map[];
    }

    method IsBlockedAt(key: string, maxFails: nat, now: int) returns (blocked: bool)
      modifies this
      ensures blocked == Blocked(old(entries), key, maxFails, now)
      ensures entries == Checked(old(entries), key, now)
      ensures blocked <==> key in old(entries) && now - old(entries)[key].firstFail <= 300_000_000_000 &&
                           old(entries)[key].count >= maxFails
      ensures entries == if key in old(entries) && now - old(entries)[key].firstFail > 300_000_000_000 then old(entries) - {key}
                         else old(entries)
    {
      if key !in entries {
        return false;
      }
      var entry := entries[key];
      if now - entry.firstFail > WINDOW {
        entries := entries - {key};
        return false;
      }
      return entry.count >= maxFails;
    }

    method IsBlocked(ip: string, now: int) returns (blocked: bool)
      modifies this
      ensures blocked == Blocked(old(entries), ip, MAX_FAILS_IP, now)
      ensures entries == Checked(old(entries), ip, now)
      ensures blocked <==> ip in old(entries) && now - old(entries)[ip].firstFail <= 300_000_000_000 && old(entries)[ip].count >= 5
      ensures entries == if ip in old(entries) && now - old(entries)[ip].firstFail > 300_000_000_000 then old(entries) - {ip}
                         else old(entries)
    {
      if ip !in entries {
        return false;
      }
      var entry := entries[ip];
      if now - entry.firstFail > WINDOW {
        entries := entries - {ip};
        return false;
      }
      return entry.count >= MAX_FAILS_IP;
    }

    method RecordFailure(key: string, now: int, stamp: int)
      modifies this
      ensures entries == Recorded(old(entries), key, now, stamp)
      ensures entries.Keys == old(entries).Keys + {key} && forall k :: k in old(entries) && k != key ==> entries[k] == old(entries)[k]
      ensures if key in old(entries) && now - old(entries)[key].firstFail <= 300_000_000_000
              then entries[key] == Entry(old(entries)[key].count + 1, old(entries)[key].firstFail)
              else entries[key] == Entry(1, stamp)
    {
      if key !in entries || now - entries[key].firstFail > WINDOW {
        entries := entries[key := Entry(1, stamp)];
        return;
      }
      var entry := entries[key];
      entries := entries[key := entry.(count := entry.count + 1)];
    }

    method ResetIP(key: string)
      modifies this
      ensures entries == old(entries) - {key}
    {
      entries := entries - {key};
    }

    method Cleanup(now: int)
      modifies this
      ensures entries == Swept(old(entries), now)
      ensures forall k :: k in entries <==> k in old(entries) && now - old(entries)[k].firstFail <= 300_000_000_000
      ensures forall k :: k in entries ==> entries[k] == old(entries)[k]
    {
      var left := entries.Keys;
      ghost var before := entries;
      while left != {}
        invariant left <= before.Keys
        invariant forall k :: k in entries <==> k in before && (k in left || !Stale(before[k], now))
        invariant forall k :: k in entries ==> entries[k] == before[k]
      {
        var key :| key in left;
        left := left - {key};
        if now - entries[key].firstFail > WINDOW {
          entries := entries - {key};
        }
      }
    }
  }

  // ---- the gate --------------------------------------------------------------

  /** What the backend said about an attempt. */
  datatype Verdict = Errored | Denied | Allowed

  /** What became of an attempt as one limiter sees it: turned away later, failed, or succeeded. */
  datatype Fate = Elsewhere | Failed | Succeeded

  /** One attempt at a limiter: checked at `check`, and recorded at `now` with a new entry stamped `stamp`. */
  datatype Event = Attempt(key: string, check: int, now: int, stamp: int, fate: Fate) | Sweep(at: int)

  predicate EventOrdered(ev: Event) { ev.Attempt? ==> ev.check <= ev.now <= ev.stamp }

  function EventStart(ev: Event): int { if ev.Attempt? then ev.check else ev.at }

  function EventEnd(ev: Event): int { if ev.Attempt? then ev.stamp else ev.at }

  /** A limiter after one event. */
  function After(m: Entries, ev: Event, maxFails: nat): Entries {
    match ev
    case Sweep(at) => Swept(m, at)
    case Attempt(key, check, now, stamp, fate) =>
      if Blocked(m, key, maxFails, check) then m
      else
        match fate
        case Elsewhere => Checked(m, key, check)
        case Failed => Recorded(Checked(m, key, check), key, now, stamp)
        case Succeeded => Checked(m, key, check) - {key}
  }

  /** The clock readings of one AuthenticatePassword call, in order. */
  datatype Clock = Clock(ipCheck: int, userCheck: int, ipNow: int, ipStamp: int, userNow: int, userStamp: int)

  function FateOf(v: Verdict): Fate { if v.Allowed? then Succeeded else Failed }

  /** The two limiters, and what can happen to them: an authentication call, or a sweep of both. */
  datatype GateState = GateState(ip: Entries, user: Entries)

  datatype GateCall = Login(username: string, sourceIp: string, clock: Clock, verdict: Verdict) | SweepBoth(ipAt: int, userAt: int)

  predicate IpBlocks(g: GateState, c: GateCall) { c.Login? && Blocked(g.ip, c.sourceIp, MAX_FAILS_IP, c.clock.ipCheck) }

  /** The call gets through to the backend. */
  predicate Reaches(g: GateState, c: GateCall) {
    c.Login? && !IpBlocks(g, c) && !Blocked(g.user, c.username, MAX_FAILS_USER, c.clock.userCheck)
  }

  function FateAt(g: GateState, c: GateCall): Fate {
    if Reaches(g, c) then FateOf(c.verdict) else Elsewhere
  }

  /** The call as the limiter of addresses sees it. */
  function IpEvent(g: GateState, c: GateCall): Event {
    match c
    case Login(_, ip, k, _) => Attempt(ip, k.ipCheck, k.ipNow, k.ipStamp, FateAt(g, c))
    case SweepBoth(ipAt, _) => Sweep(ipAt)
  }

  /** The call as the limiter of users sees it, unless the address is blocked. */
  function UserEvent(g: GateState, c: GateCall): Event {
    match c
    case Login(user, _, k, _) => Attempt(user, k.userCheck, k.userNow, k.userStamp, FateAt(g, c))
    case SweepBoth(_, userAt) => Sweep(userAt)
  }

  function GateAfter(g: GateState, c: GateCall): GateState {
    GateState(After(g.ip, IpEvent(g, c), MAX_FAILS_IP),
              if IpBlocks(g, c) then g.user else After(g.user, UserEvent(g, c), MAX_FAILS_USER))
  }

  /** The limiter turns the key away: within five minutes of its first failure it has failed too often. */
  ghost predicate TurnsAway(m: Entries, key: string, maxFails: nat, now: int) {
    key in m && now - m[key].firstFail <= 300_000_000_000 && m[key].count >= maxFails
  }

  /** The entry of the key after one more failure. */
  ghost predicate Counts(m: Entries, m': Entries, key: string, check: int, now: int, stamp: int) {
    key in m' &&
    if key in m && check - m[key].firstFail <= 300_000_000_000 && now - m[key].firstFail <= 300_000_000_000
    then m'[key] == Entry(m[key].count + 1, m[key].firstFail)
    else m'[key] == Entry(1, stamp)
  }

  class AuthGate {
    const ip: RateLimitStore
    const user: RateLimitStore

    constructor ()
      ensures fresh(ip) && fresh(user) && ip != user
      ensures ip.entries == map[] && user.entries == map[]
    {
      ip := new RateLimitStore();
      user := new RateLimitStore();
    }

    /** AuthenticatePassword and AuthenticateKey: both limiters are asked, then the backend, then both
        limiters hear of the verdict; the user limiter is not asked when the address is blocked. */
    method Authenticate(username: string, sourceIp: string, c: Clock, v: Verdict) returns (reached: bool)
      requires ip != user
      modifies ip, user
      ensures reached <==> !Blocked(old(ip.entries), sourceIp, MAX_FAILS_IP, c.ipCheck) &&
                           !Blocked(old(user.entries), username, MAX_FAILS_USER, c.userCheck)
      ensures ip.entries ==
              After(old(ip.entries), Attempt(sourceIp, c.ipCheck, c.ipNow, c.ipStamp, if reached then FateOf(v) else Elsewhere),
                    MAX_FAILS_IP)
      ensures user.entries ==
              if Blocked(old(ip.entries), sourceIp, MAX_FAILS_IP, c.ipCheck) then old(user.entries)
              else After(old(user.entries), Attempt(username, c.userCheck, c.userNow, c.userStamp, FateOf(v)), MAX_FAILS_USER)
      ensures var g, call := GateState(old(ip.entries), old(user.entries)), Login(username, sourceIp, c, v);
        reached == Reaches(g, call) && GateState(ip.entries, user.entries) == GateAfter(g, call)
      ensures reached <==> !TurnsAway(old(ip.entries), sourceIp, 5, c.ipCheck) && !TurnsAway(old(user.entries), username, 10, c.userCheck)
      ensures reached && v.Allowed? ==> sourceIp !in ip.entries && username !in user.entries
      ensures reached && !v.Allowed? ==>
                Counts(old(ip.entries), ip.entries, sourceIp, c.ipCheck, c.ipNow, c.ipStamp) &&
                Counts(old(user.entries), user.entries, username, c.userCheck, c.userNow, c.userStamp)
      ensures forall k :: k != sourceIp ==> (k in ip.entries <==> k in old(ip.entries)) &&
                                            (k in ip.entries ==> ip.entries[k] == old(ip.entries)[k])
      ensures forall k :: k != username ==> (k in user.entries <==> k in old(user.entries)) &&
                                            (k in user.entries ==> user.entries[k] == old(user.entries)[k])
    {
      var ipBlocked := ip.IsBlocked(sourceIp, c.ipCheck);
      if ipBlocked {
        return false;
      }
      var userBlocked := user.IsBlockedAt(username, MAX_FAILS_USER, c.userCheck);
      if userBlocked {
        return false;
      }
      if v.Errored? {
        ip.RecordFailure(sourceIp, c.ipNow, c.ipStamp);
        user.RecordFailure(username, c.userNow, c.userStamp);
        return true;
      }
      if v.Denied? {
        ip.RecordFailure(sourceIp, c.ipNow, c.ipStamp);
        user.RecordFailure(username, c.userNow, c.userStamp);
      } else {
        ip.ResetIP(sourceIp);
        user.ResetIP(username);
      }
      return true;
    }
  }

  // ---- runs ------------------------------------------------------------------

  /** Events handled one at a time on one clock. */
  ghost predicate OneAtATime(evs: seq<Event>) {
    (forall i :: 0 <= i < |evs| ==> EventOrdered(evs[i])) &&
    (forall i, j :: 0 <= i < j < |evs| ==> EventEnd(evs[i]) <= EventStart(evs[j]))
  }

  function Run(evs: seq<Event>, maxFails: nat): Entries {
    if evs == [] then map[] else After(Run(evs[..|evs| - 1], maxFails), evs[|evs| - 1], maxFails)
  }

  /** The event records a failure for the key. */
  predicate Records(m: Entries, ev: Event, key: string, maxFails: nat) {
    ev.Attempt? && ev.key == key && ev.fate == Failed && !Blocked(m, key, maxFails, ev.check)
  }

  /** When that failure counts from: the stamp of a new entry, else the moment it is counted. */
  function RecordTime(m: Entries, ev: Event): int
    requires ev.Attempt?
  {
    var c := Checked(m, ev.key, ev.check);
    if ev.key !in c || Stale(c[ev.key], ev.now) then ev.stamp else ev.now
  }

  /** The times of the failures recorded for the key over a run. */
  function Failures(evs: seq<Event>, key: string, maxFails: nat): seq<int> {
    if evs == [] then []
    else
      var before, ev := evs[..|evs| - 1], evs[|evs| - 1];
      var m := Run(before, maxFails);
      Failures(before, key, maxFails) + (if Records(m, ev, key, maxFails) then [RecordTime(m, ev)] else [])
  }

  function CountIn(ts: seq<int>, lo: int, hi: int): nat {
    if ts == [] then 0
    else CountIn(ts[..|ts| - 1], lo, hi) + (if lo <= ts[|ts| - 1] <= hi then 1 else 0)
  }

  lemma CountAppend(ts: seq<int>, x: int, lo: int, hi: int)
    ensures CountIn(ts + [x], lo, hi) == CountIn(ts, lo, hi) + (if lo <= x <= hi then 1 else 0)
  {
    assert (ts + [x])[..|ts|] == ts;
  }

  lemma {:induction false} CountSplit(ts: seq<int>, lo: int, mid: int, hi: int)
    requires lo <= mid + 1 && mid <= hi
    ensures CountIn(ts, lo, mid) + CountIn(ts, mid + 1, hi) == CountIn(ts, lo, hi)
  {
    if ts != [] { CountSplit(ts[..|ts| - 1], lo, mid, hi); }
  }

  lemma {:induction false} CountWider(ts: seq<int>, lo: int, hi: int, lo': int, hi': int)
    requires lo' <= lo && hi <= hi'
    ensures CountIn(ts, lo, hi) <= CountIn(ts, lo', hi')
  {
    if ts != [] { CountWider(ts[..|ts| - 1], lo, hi, lo', hi'); }
  }

  lemma {:induction false} CountAbove(ts: seq<int>, top: int, lo: int, hi: int)
    requires forall i :: 0 <= i < |ts| ==> ts[i] <= top
    ensures top < lo ==> CountIn(ts, lo, hi) == 0
    ensures top <= hi ==> CountIn(ts, lo, hi) == CountIn(ts, lo, top)
  {
    if ts != [] { CountAbove(ts[..|ts| - 1], top, lo, hi); }
  }

  /** Failures in the closed window that starts at t. */
  function InWindow(ts: seq<int>, t: int): nat { CountIn(ts, t, t + WINDOW) }

  /** What a run leaves about one key: the failures recorded so far, up to `top`, belong to spans that open
      more than a window apart; the last span opened at `first` holds at most maxFails of them, its opening
      included, and at most maxFails - 1 lie in the window before it. */
  ghost predicate Spans(ts: seq<int>, first: int, n: nat, maxFails: nat, top: int) {
    && (forall i :: 0 <= i < |ts| ==> ts[i] <= top && ts[i] <= first + WINDOW)
    && 1 <= n <= maxFails && first <= top
    && CountIn(ts, first, top) == n && CountIn(ts, first, first) >= 1
    && CountIn(ts, first - WINDOW, first - 1) <= maxFails - 1
    && forall t :: InWindow(ts, t) <= 2 * maxFails - 1
  }

  /** Counting one more failure in the current span. */
  lemma SpansCount(ts: seq<int>, first: int, n: nat, maxFails: nat, top: int, x: int)
    requires Spans(ts, first, n, maxFails, top)
    requires n < maxFails && top <= x <= first + WINDOW
    ensures Spans(ts + [x], first, n + 1, maxFails, x)
  {
    CountAppend(ts, x, first, x);
    CountAbove(ts, top, first, x);
    CountAppend(ts, x, first, first);
    CountAppend(ts, x, first - WINDOW, first - 1);
    forall t ensures InWindow(ts + [x], t) <= 2 * maxFails - 1 {
      CountAppend(ts, x, t, t + WINDOW);
      if t <= x <= t + WINDOW {
        CountWider(ts, t, t + WINDOW, first - WINDOW, t + WINDOW);
        CountSplit(ts, first - WINDOW, first - 1, t + WINDOW);
        CountAbove(ts, top, first, t + WINDOW);
      } else {
        assert InWindow(ts, t) <= 2 * maxFails - 1;
      }
    }
  }

  /** Opening a new span once the last one is stale. */
  lemma SpansOpen(ts: seq<int>, first: int, n: nat, maxFails: nat, top: int, x: int)
    requires Spans(ts, first, n, maxFails, top)
    requires top <= x && first + WINDOW < x
    ensures Spans(ts + [x], x, 1, maxFails, x)
  {
    var last := if top <= first + WINDOW then top else first + WINDOW;
    assert forall i :: 0 <= i < |ts| ==> ts[i] <= last;
    CountAppend(ts, x, x, x);
    CountAbove(ts, last, x, x);
    CountAppend(ts, x, x - WINDOW, x - 1);
    CountWider(ts, x - WINDOW, x - 1, first + 1, x - 1);
    CountSplit(ts, first, first, x - 1);
    CountAbove(ts, top, first, x);
    CountSplit(ts, first, x - 1, x);
    forall t ensures InWindow(ts + [x], t) <= 2 * maxFails - 1 {
      CountAppend(ts, x, t, t + WINDOW);
      if t <= x <= t + WINDOW {
        CountAbove(ts, last, t, t + WINDOW);
        CountAbove(ts, last, x - WINDOW, x - 1);
        CountWider(ts, t, last, x - WINDOW, last);
      } else {
        assert InWindow(ts, t) <= 2 * maxFails - 1;
      }
    }
  }

  lemma SpansFirst(maxFails: nat, x: int)
    requires maxFails >= 1
    ensures Spans([x], x, 1, maxFails, x)
  {
    assert [x][..0] == [];
    forall lo, hi ensures CountIn([x], lo, hi) == if lo <= x <= hi then 1 else 0 {
      CountAppend([], x, lo, hi);
      assert [] + [x] == [x];
    }
  }

  lemma SpansLater(ts: seq<int>, first: int, n: nat, maxFails: nat, top: int, top': int)
    requires Spans(ts, first, n, maxFails, top) && top <= top'
    ensures Spans(ts, first, n, maxFails, top')
  {
    CountAbove(ts, top, first, top');
  }

  /** The entry agrees with the spans; without an entry the last span is stale by then, if there is one. */
  ghost predicate Agrees(m: Entries, key: string, ts: seq<int>, first: int, n: nat, maxFails: nat, top: int) {
    if key in m then Spans(ts, first, n, maxFails, top) && m[key] == Entry(n, first)
    else ts == [] || (Spans(ts, first, n, maxFails, top) && top - first > WINDOW)
  }

  /** No event of the run is a success for the key. */
  ghost predicate NeverSucceeds(evs: seq<Event>, key: string) {
    forall i :: 0 <= i < |evs| ==> !(evs[i].Attempt? && evs[i].key == key && evs[i].fate == Succeeded)
  }

  lemma AgreesStep(m: Entries, ev: Event, key: string, ts: seq<int>, first: int, n: nat, maxFails: nat, top: int)
    returns (first': int, n': nat)
    requires maxFails >= 1 && Agrees(m, key, ts, first, n, maxFails, top)
    requires EventOrdered(ev) && top <= EventStart(ev)
    requires !(ev.Attempt? && ev.key == key && ev.fate == Succeeded)
    ensures Agrees(After(m, ev, maxFails), key,
                   ts + (if Records(m, ev, key, maxFails) then [RecordTime(m, ev)] else []), first', n', maxFails, EventEnd(ev))
  {
    hide Spans;
    first', n' := first, n;
    assert ts + [] == ts;
    var end := EventEnd(ev);
    if Records(m, ev, key, maxFails) {
      var x := RecordTime(m, ev);
      if key in m && !Stale(m[key], ev.now) {
        SpansCount(ts, first, n, maxFails, top, x);
        n' := n + 1;
        SpansLater(ts + [x], first, n + 1, maxFails, x, end);
      } else if ts == [] {
        assert ts + [x] == [x];
        SpansFirst(maxFails, x);
        first', n' := x, 1;
      } else {
        SpansOpen(ts, first, n, maxFails, top, x);
        first', n' := x, 1;
      }
    } else if key in m || ts != [] {
      SpansLater(ts, first, n, maxFails, top, end);
    }
  }

  lemma {:induction false} RunAgrees(evs: seq<Event>, key: string, maxFails: nat, top: int) returns (first: int, n: nat)
    requires maxFails >= 1 && OneAtATime(evs) && NeverSucceeds(evs, key)
    requires top == if evs == [] then 0 else EventEnd(evs[|evs| - 1])
    ensures Agrees(Run(evs, maxFails), key, Failures(evs, key, maxFails), first, n, maxFails, top)
    decreases |evs|
  {
    hide Spans, After, Records, RecordTime;
    if evs == [] {
      first, n := 0, 0;
    } else {
      var before, ev := evs[..|evs| - 1], evs[|evs| - 1];
      var top' := if before == [] then EventStart(ev) else EventEnd(before[|before| - 1]);
      first, n := RunAgrees(before, key, maxFails, if before == [] then 0 else top');
      if before == [] { assert Failures(before, key, maxFails) == []; }
      first, n := AgreesStep(Run(before, maxFails), ev, key, Failures(before, key, maxFails), first, n, maxFails, top');
    }
  }

  /** The limiter's bound: with events handled one at a time and no success for the key, any closed span of
      time no longer than the window records at most 2 * maxFails - 1 failures for it. */
  lemma FailureBound(evs: seq<Event>, key: string, maxFails: nat, lo: int, hi: int)
    requires maxFails >= 1 && OneAtATime(evs) && NeverSucceeds(evs, key)
    requires hi - lo <= 300_000_000_000
    ensures CountIn(Failures(evs, key, maxFails), lo, hi) <= 2 * maxFails - 1
  {
    var top := if evs == [] then 0 else EventEnd(evs[|evs| - 1]);
    var first, n := RunAgrees(evs, key, maxFails, top);
    var ts := Failures(evs, key, maxFails);
    CountWider(ts, lo, hi, lo, lo + WINDOW);
    assert ts != [] ==> InWindow(ts, lo) <= 2 * maxFails - 1;
  }

  // ---- the bound is reached --------------------------------------------------

  function Burst(key: string, n: nat, t: int): (evs: seq<Event>)
    ensures |evs| == n && forall i :: 0 <= i < n ==> evs[i] == Attempt(key, t, t, t, Failed)
  {
    seq(n, _ => Attempt(key, t, t, t, Failed))
  }

  /** One failure on a fresh entry with room. */
  lemma FurtherIsRecorded(evs: seq<Event>, key: string, t: int, maxFails: nat, lo: int, hi: int)
    requires var m := Run(evs, maxFails); key in m && !Stale(m[key], t) && m[key].count < maxFails
    ensures var m, m' := Run(evs, maxFails), Run(evs + [Attempt(key, t, t, t, Failed)], maxFails);
      key in m' && m'[key] == Entry(m[key].count + 1, m[key].firstFail)
    ensures CountIn(Failures(evs + [Attempt(key, t, t, t, Failed)], key, maxFails), lo, hi)
            == CountIn(Failures(evs, key, maxFails), lo, hi) + (if lo <= t <= hi then 1 else 0)
  {
    var all := evs + [Attempt(key, t, t, t, Failed)];
    assert all[..|all| - 1] == evs;
    CountAppend(Failures(evs, key, maxFails), t, lo, hi);
  }

  /** A burst on a fresh entry with room is recorded in full. */
  lemma {:induction false} BurstIsRecorded(evs: seq<Event>, key: string, n: nat, t: int, maxFails: nat, lo: int, hi: int)
    requires var m := Run(evs, maxFails); key in m && !Stale(m[key], t) && m[key].count + n <= maxFails
    ensures var m, m' := Run(evs, maxFails), Run(evs + Burst(key, n, t), maxFails);
      key in m' && m'[key] == Entry(m[key].count + n, m[key].firstFail)
    ensures CountIn(Failures(evs + Burst(key, n, t), key, maxFails), lo, hi)
            == CountIn(Failures(evs, key, maxFails), lo, hi) + (if lo <= t <= hi then n else 0)
  {
    hide Run, Failures, CountIn;
    if n == 0 {
      assert evs + Burst(key, n, t) == evs;
    } else {
      var fewer := evs + Burst(key, n - 1, t);
      BurstIsRecorded(evs, key, n - 1, t, maxFails, lo, hi);
      FurtherIsRecorded(fewer, key, t, maxFails, lo, hi);
      assert evs + Burst(key, n, t) == fewer + [Attempt(key, t, t, t, Failed)];
    }
  }

  /** A failure that opens a new entry. */
  lemma OpeningIsRecorded(evs: seq<Event>, key: string, t: int, maxFails: nat, lo: int, hi: int)
    requires var m := Run(evs, maxFails); key !in m || Stale(m[key], t)
    ensures var m' := Run(evs + Burst(key, 1, t), maxFails); key in m' && m'[key] == Entry(1, t)
    ensures CountIn(Failures(evs + Burst(key, 1, t), key, maxFails), lo, hi)
            == CountIn(Failures(evs, key, maxFails), lo, hi) + (if lo <= t <= hi then 1 else 0)
  {
    var all := evs + Burst(key, 1, t);
    assert all[..|all| - 1] == evs;
    CountAppend(Failures(evs, key, maxFails), t, lo, hi);
  }

  /** One failure, a window later as many more as fit, and just after that a full new entry. */
  function Worst(key: string, maxFails: nat): seq<Event>
    requires maxFails >= 1
  {
    Burst(key, 1, 0) + Burst(key, maxFails - 1, WINDOW) + Burst(key, 1, WINDOW + 1) + Burst(key, maxFails - 1, WINDOW + 1)
  }

  /** The bound is tight: 2 * maxFails - 1 failures do fit into one window. */
  lemma BoundIsReached(key: string, maxFails: nat)
    requires maxFails >= 1
    ensures OneAtATime(Worst(key, maxFails)) && NeverSucceeds(Worst(key, maxFails), key)
    ensures CountIn(Failures(Worst(key, maxFails), key, maxFails), 300_000_000_000, 600_000_000_000) == 2 * maxFails - 1
  {
    hide OneAtATime, NeverSucceeds, Worst, Failures, CountIn;
    WorstIsRecorded(key, maxFails);
    WorstIsSteady(key, maxFails);
  }

  lemma WorstIsSteady(key: string, maxFails: nat)
    requires maxFails >= 1
    ensures OneAtATime(Worst(key, maxFails)) && NeverSucceeds(Worst(key, maxFails), key)
  {
    var evs := Worst(key, maxFails);
    forall i | 0 <= i < |evs|
      ensures evs[i] == Attempt(key, WorstTime(maxFails, i), WorstTime(maxFails, i), WorstTime(maxFails, i), Failed)
    {
    }
  }

  function WorstTime(maxFails: nat, i: nat): int { if i == 0 then 0 else if i < maxFails then WINDOW else WINDOW + 1 }

  lemma WorstIsRecorded(key: string, maxFails: nat)
    requires maxFails >= 1
    ensures CountIn(Failures(Worst(key, maxFails), key, maxFails), WINDOW, 2 * WINDOW) == 2 * maxFails - 1
  {
    hide Run, Failures, CountIn;
    var b1, b2 := Burst(key, 1, 0), Burst(key, maxFails - 1, WINDOW);
    var b3, b4 := Burst(key, 1, WINDOW + 1), Burst(key, maxFails - 1, WINDOW + 1);
    EmptyRun(key, maxFails);
    assert [] + b1 == b1;
    OpeningIsRecorded([], key, 0, maxFails, WINDOW, 2 * WINDOW);
    BurstIsRecorded(b1, key, maxFails - 1, WINDOW, maxFails, WINDOW, 2 * WINDOW);
    OpeningIsRecorded(b1 + b2, key, WINDOW + 1, maxFails, WINDOW, 2 * WINDOW);
    BurstIsRecorded(b1 + b2 + b3, key, maxFails - 1, WINDOW + 1, maxFails, WINDOW, 2 * WINDOW);
  }

  lemma EmptyRun(key: string, maxFails: nat)
    ensures Run([], maxFails) == map[] && CountIn(Failures([], key, maxFails), WINDOW, 2 * WINDOW) == 0
  {
  }

  // ---- deletes are invisible -------------------------------------------------

  /** The entries that still matter at time t. */
  function Live(m: Entries, t: int): Entries { map k | k in m && !Stale(m[k], t) :: m[k] }

  /** A limiter that only ever deletes on success: no lazy deletes, no sweeps. */
  function AfterPlain(m: Entries, ev: Event, maxFails: nat): Entries {
    match ev
    case Sweep(_) => m
    case Attempt(key, check, now, stamp, fate) =>
      if Blocked(m, key, maxFails, check) then m
      else
        match fate
        case Elsewhere => m
        case Failed => Recorded(m, key, now, stamp)
        case Succeeded => m - {key}
  }

  function RunPlain(evs: seq<Event>, maxFails: nat): Entries {
    if evs == [] then map[] else AfterPlain(RunPlain(evs[..|evs| - 1], maxFails), evs[|evs| - 1], maxFails)
  }

  /** One event keeps the two limiters alike, and both answer it alike. */
  lemma PlainStep(m: Entries, p: Entries, t: int, ev: Event, maxFails: nat)
    requires Live(m, t) == Live(p, t) && EventOrdered(ev) && t <= EventStart(ev)
    ensures ev.Attempt? ==> (Blocked(m, ev.key, maxFails, ev.check) <==> Blocked(p, ev.key, maxFails, ev.check))
    ensures Live(After(m, ev, maxFails), EventEnd(ev)) == Live(AfterPlain(p, ev, maxFails), EventEnd(ev))
  {
    var start, end := EventStart(ev), EventEnd(ev);
    LiveLater(m, p, t, start);
    LiveLater(m, p, t, end);
    if ev.Attempt? {
      LiveKey(m, p, t, ev.key);
      LiveKey(m, p, start, ev.key);
      LiveLater(m, p, t, ev.now);
      LiveKey(m, p, ev.now, ev.key);
    }
    var a, b := Live(After(m, ev, maxFails), end), Live(AfterPlain(p, ev, maxFails), end);
    forall k ensures k in a <==> k in b {
      LiveKey(m, p, end, k);
    }
    forall k | k in a && k in b ensures a[k] == b[k] {
      LiveKey(m, p, end, k);
    }
  }

  lemma LiveKey(m: Entries, p: Entries, t: int, k: string)
    requires Live(m, t) == Live(p, t)
    ensures k in m && !Stale(m[k], t) <==> k in p && !Stale(p[k], t)
    ensures k in m && !Stale(m[k], t) ==> m[k] == p[k]
  {
    assert k in Live(m, t) <==> k in Live(p, t);
    if k in Live(m, t) { assert Live(m, t)[k] == Live(p, t)[k]; }
  }

  lemma LiveLater(m: Entries, p: Entries, t: int, t': int)
    requires Live(m, t) == Live(p, t) && t <= t'
    ensures Live(m, t') == Live(p, t')
  {
    forall k ensures k in Live(m, t') <==> k in Live(p, t') {
      LiveKey(m, p, t, k);
    }
    forall k | k in Live(m, t') && k in Live(p, t') ensures Live(m, t')[k] == Live(p, t')[k] {
      LiveKey(m, p, t, k);
    }
  }

  lemma {:induction false} PlainRun(evs: seq<Event>, maxFails: nat, top: int)
    requires OneAtATime(evs) && (evs != [] ==> top == EventEnd(evs[|evs| - 1]))
    ensures Live(Run(evs, maxFails), top) == Live(RunPlain(evs, maxFails), top)
    decreases |evs|
  {
    hide After, AfterPlain, Live;
    if evs != [] {
      var before, ev := evs[..|evs| - 1], evs[|evs| - 1];
      var top' := if before == [] then EventStart(ev) else EventEnd(before[|before| - 1]);
      PlainRun(before, maxFails, top');
      PlainStep(Run(before, maxFails), RunPlain(before, maxFails), top', ev, maxFails);
    }
  }

  /** Lazy deletes and sweeps, wherever they fall, change no answer: an attempt after any run is blocked
      exactly when the limiter without them blocks it. */
  lemma DeletesInvisible(evs: seq<Event>, key: string, maxFails: nat, check: int)
    requires OneAtATime(evs) && (evs != [] ==> EventEnd(evs[|evs| - 1]) <= check)
    ensures Blocked(Run(evs, maxFails), key, maxFails, check) <==> Blocked(RunPlain(evs, maxFails), key, maxFails, check)
  {
    var top := if evs == [] then check else EventEnd(evs[|evs| - 1]);
    PlainRun(evs, maxFails, top);
    PlainStep(Run(evs, maxFails), RunPlain(evs, maxFails), top, Attempt(key, check, check, check, Elsewhere), maxFails);
  }

  /** The attempts of a run. */
  function Attempts(evs: seq<Event>): seq<Event> {
    if evs == [] then []
    else Attempts(evs[..|evs| - 1]) + (if evs[|evs| - 1].Attempt? then [evs[|evs| - 1]] else [])
  }

  lemma {:induction false} PlainIgnoresSweeps(evs: seq<Event>, maxFails: nat)
    ensures RunPlain(evs, maxFails) == RunPlain(Attempts(evs), maxFails)
  {
    hide AfterPlain;
    if evs != [] {
      var before, ev := evs[..|evs| - 1], evs[|evs| - 1];
      PlainIgnoresSweeps(before, maxFails);
      if ev.Attempt? {
        assert Attempts(evs)[..|Attempts(evs)| - 1] == Attempts(before);
      } else {
        assert Attempts(evs) == Attempts(before);
        SweepIsPlain(RunPlain(before, maxFails), ev, maxFails);
      }
    }
  }

  lemma SweepIsPlain(m: Entries, ev: Event, maxFails: nat)
    requires ev.Sweep?
    ensures AfterPlain(m, ev, maxFails) == m
  {
  }

  /** So two runs with the same attempts, swept at different points or not at all, answer alike. */
  lemma SweepsInvisible(evs: seq<Event>, evs': seq<Event>, key: string, maxFails: nat, check: int)
    requires OneAtATime(evs) && OneAtATime(evs') && Attempts(evs) == Attempts(evs')
    requires evs != [] ==> EventEnd(evs[|evs| - 1]) <= check
    requires evs' != [] ==> EventEnd(evs'[|evs'| - 1]) <= check
    ensures Blocked(Run(evs, maxFails), key, maxFails, check) <==> Blocked(Run(evs', maxFails), key, maxFails, check)
  {
    hide Blocked, OneAtATime;
    DeletesInvisible(evs, key, maxFails, check);
    DeletesInvisible(evs', key, maxFails, check);
    PlainIgnoresSweeps(evs, maxFails);
    PlainIgnoresSweeps(evs', maxFails);
  }
}
