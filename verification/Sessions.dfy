/** Session accounting of the SFTP gateway. */
module Sessions {

  datatype Session = Session(id: string, username: string, maxConcurrent: int)

  /** The cap a registration carries: three when it carries none. */
  function UserCap(s: Session): (c: nat)
    ensures c >= 1
  {
    if s.maxConcurrent <= 0 then 3 else s.maxConcurrent
  }

  datatype Refusal = Accepted | TotalReached | UserReached

  /** The book-keeping of a SessionManager. */
  datatype Books = Books(sessions: map<string, Session>, byUser: map<string, int>, total: int, maxTotal: int)

  function Get(m: map<string, int>, k: string): int { if k in m then m[k] else 0 }

  /** register. */
  function Registered(b: Books, s: Session): (Books, Refusal) {
    if b.total >= b.maxTotal then (b, TotalReached)
    else if Get(b.byUser, s.username) >= UserCap(s) then (b, UserReached)
    else
      (Books(b.sessions[s.id := s], b.byUser[s.username := Get(b.byUser, s.username) + 1], b.total + 1, b.maxTotal), Accepted)
  }

  /** unregister. */
  function Unregistered(b: Books, id: string, username: string): Books {
    if id !in b.sessions then b
    else
      var left := Get(b.byUser, username) - 1;
      Books(b.sessions - {id}, if left <= 0 then b.byUser - {username} else b.byUser[username := left], b.total - 1, b.maxTotal)
  }

  class SessionManager {
    var sessions: map<string, Session>
    var byUser: map<string, int>
    var total: int
    const maxTotal: int

    ghost function Abstract(): Books
      reads this
    {
      Books(sessions, byUser, total, maxTotal)
    }

    constructor (maxTotal: int)
      ensures Abstract() == Books(map[], map[], 0, maxTotal)
    {
      this.maxTotal := maxTotal;
      sessions, byUser, total := map[], map[], 0;
    }

    method Register(s: Session) returns (r: Refusal)
      modifies this
      ensures (Abstract(), r) == Registered(old(Abstract()), s)
    {
      if total >= maxTotal {
        return TotalReached;
      }
      var perUserMax := s.maxConcurrent;
      if perUserMax <= 0 {
        perUserMax := 3;
      }
      var current := if s.username in byUser then byUser[s.username] else 0;
      if current >= perUserMax {
        return UserReached;
      }
      sessions := sessions[s.id := s];
      byUser := byUser[s.username := current + 1];
      total := total + 1;
      return Accepted;
    }

    method Unregister(id: string, username: string)
      modifies this
      ensures Abstract() == Unregistered(old(Abstract()), id, username)
    {
      if id in sessions {
        sessions := sessions - {id};
        var current := if username in byUser then byUser[username] else 0;
        byUser := byUser[username := current - 1];
        if byUser[username] <= 0 {
          byUser := byUser - {username};
        }
        total := total - 1;
      }
    }
  }

  // ---- exactness -------------------------------------------------------------

  function SessionsOf(b: Books, u: string): set<string> { set id | id in b.sessions && b.sessions[id].username == u }

  /** The counters are exact: the total counts the sessions, and each user's entry counts that user's
      sessions, with no entry for a user without any. */
  ghost predicate Exact(b: Books) {
    b.total == |b.sessions| && forall u :: Get(b.byUser, u) == |SessionsOf(b, u)| && (u in b.byUser ==> b.byUser[u] > 0)
  }

  lemma RegisterChangesUser(b: Books, s: Session, u: string)
    requires s.id !in b.sessions
    ensures SessionsOf(b.(sessions := b.sessions[s.id := s]), u) ==
            if u == s.username then SessionsOf(b, u) + {s.id} else SessionsOf(b, u)
  {
  }

  lemma UnregisterChangesUser(b: Books, id: string, u: string)
    requires id in b.sessions
    ensures SessionsOf(b.(sessions := b.sessions - {id}), u) == SessionsOf(b, u) - {id}
  {
  }

  /** An accepted registration under a new id gives one session to its user and none to anybody else. */
  lemma RegisterAddsOne(b: Books, s: Session, u: string)
    requires s.id !in b.sessions && Registered(b, s).1 == Accepted
    ensures |Registered(b, s).0.sessions| == |b.sessions| + 1
    ensures |SessionsOf(Registered(b, s).0, u)| == |SessionsOf(b, u)| + (if u == s.username then 1 else 0)
  {
    var b' := Registered(b, s).0;
    assert b'.sessions.Keys == b.sessions.Keys + {s.id};
    RegisterChangesUser(b, s, u);
    assert SessionsOf(b', u) == SessionsOf(b.(sessions := b'.sessions), u);
  }

  /** On exact books, registration keeps them exact if and only if it is refused or the id is new. */
  lemma RegisterExactly(b: Books, s: Session)
    requires Exact(b)
    ensures Exact(Registered(b, s).0) <==> Registered(b, s).1 != Accepted || s.id !in b.sessions
  {
    hide SessionsOf;
    var (b', r) := Registered(b, s);
    if r == Accepted {
      if s.id !in b.sessions {
        forall u ensures Get(b'.byUser, u) == |SessionsOf(b', u)| && (u in b'.byUser ==> b'.byUser[u] > 0) {
          RegisterAddsOne(b, s, u);
          assert Get(b.byUser, u) == |SessionsOf(b, u)| && (u in b.byUser ==> b.byUser[u] > 0);
        }
        RegisterAddsOne(b, s, s.username);
      } else {
        assert b'.sessions.Keys == b.sessions.Keys;
        assert |b'.sessions| == |b'.sessions.Keys| == |b.sessions.Keys| == |b.sessions|;
      }
    }
  }

  /** On exact books a registration is accepted if and only if fewer sessions than the total cap are on the
      books, and fewer of its user than its own cap, three when it carries none; the total cap is asked
      first. An accepted session is on the books afterwards, beside all that were there; a refused one
      changes nothing. */
  lemma AdmissionExactly(b: Books, s: Session)
    requires Exact(b)
    ensures var (b', r) := Registered(b, s);
      var cap := if s.maxConcurrent <= 0 then 3 else s.maxConcurrent;
      && (r == TotalReached <==> |b.sessions| >= b.maxTotal)
      && (r == UserReached <==> |b.sessions| < b.maxTotal && |SessionsOf(b, s.username)| >= cap)
      && (r == Accepted <==> |b.sessions| < b.maxTotal && |SessionsOf(b, s.username)| < cap)
      && (if r == Accepted then b'.sessions == b.sessions[s.id := s] && b'.maxTotal == b.maxTotal else b' == b)
  {
    hide SessionsOf;
    assert Get(b.byUser, s.username) == |SessionsOf(b, s.username)|;
  }

  /** Unregistering a known id takes one session from its owner and none from anybody else. */
  lemma UnregisterTakesOne(b: Books, id: string, username: string, u: string)
    requires id in b.sessions
    ensures |Unregistered(b, id, username).sessions| == |b.sessions| - 1
    ensures |SessionsOf(Unregistered(b, id, username), u)|
            == |SessionsOf(b, u)| - (if u == b.sessions[id].username then 1 else 0)
  {
    var b' := Unregistered(b, id, username);
    assert b'.sessions.Keys == b.sessions.Keys - {id};
    UnregisterChangesUser(b, id, u);
    assert SessionsOf(b', u) == SessionsOf(b.(sessions := b'.sessions), u);
    assert id in SessionsOf(b, u) <==> u == b.sessions[id].username;
  }

  /** On exact books, unregistering keeps them exact if and only if the id is unknown or the username is the
      session's own. */
  lemma UnregisterExactly(b: Books, id: string, username: string)
    requires Exact(b)
    ensures Exact(Unregistered(b, id, username)) <==> id !in b.sessions || b.sessions[id].username == username
  {
    hide SessionsOf;
    if id in b.sessions {
      var b', owner := Unregistered(b, id, username), b.sessions[id].username;
      UnregisterTakesOne(b, id, username, owner);
      assert Get(b.byUser, owner) == |SessionsOf(b, owner)|;
      if owner == username {
        forall u ensures Get(b'.byUser, u) == |SessionsOf(b', u)| && (u in b'.byUser ==> b'.byUser[u] > 0) {
          UnregisterTakesOne(b, id, username, u);
          assert Get(b.byUser, u) == |SessionsOf(b, u)| && (u in b.byUser ==> b.byUser[u] > 0);
        }
      } else {
        assert Get(b'.byUser, owner) == Get(b.byUser, owner);
        assert Get(b'.byUser, owner) != |SessionsOf(b', owner)|;
      }
    }
  }

  /** A repeated unregister changes nothing, whatever the username. */
  lemma UnregisterTwice(b: Books, id: string, username: string, again: string)
    ensures Unregistered(Unregistered(b, id, username), id, again) == Unregistered(b, id, username)
  {
  }

  lemma AddRemove<T>(m: map<string, T>, k: string, v: T)
    requires k !in m
    ensures m[k := v] - {k} == m
  {
  }

  lemma PutBack(m: map<string, int>, k: string, v: int)
    ensures k in m ==> m[k := v][k := m[k]] == m
    ensures k !in m ==> m[k := v] - {k} == m
  {
  }

  /** Unregistering right after an accepted registration under a new id restores the books. */
  lemma UnregisterUndoes(b: Books, s: Session)
    requires Exact(b) && s.id !in b.sessions && Registered(b, s).1 == Accepted
    ensures Unregistered(Registered(b, s).0, s.id, s.username) == b
  {
    assert Get(b.byUser, s.username) == |SessionsOf(b, s.username)|;
    assert s.username in b.byUser ==> b.byUser[s.username] > 0;
    hide Exact, SessionsOf;
    AddRemove(b.sessions, s.id, s);
    PutBack(b.byUser, s.username, Get(b.byUser, s.username) + 1);
  }

  // ---- runs ------------------------------------------------------------------

  datatype Call = Register(s: Session) | Unregister(id: string, username: string)

  function Step(b: Books, c: Call): Books {
    match c
    case Register(s) => Registered(b, s).0
    case Unregister(id, username) => Unregistered(b, id, username)
  }

  function Run(maxTotal: int, calls: seq<Call>): Books {
    if calls == [] then Books(map[], map[], 0, maxTotal)
    else Step(Run(maxTotal, calls[..|calls| - 1]), calls[|calls| - 1])
  }

  /** As the gateway calls: ids are never used twice, and a session is unregistered under its own user. */
  ghost predicate WellCalled(calls: seq<Call>) {
    forall i, j :: 0 <= i < j < |calls| && calls[i].Register? ==>
      (calls[j].Register? ==> calls[i].s.id != calls[j].s.id) &&
      (calls[j].Unregister? && calls[j].id == calls[i].s.id ==> calls[j].username == calls[i].s.username)
  }

  /** The largest cap the user's registrations carried so far. */
  function LargestCap(calls: seq<Call>, u: string): nat {
    if calls == [] then 0
    else
      var before, c := LargestCap(calls[..|calls| - 1], u), calls[|calls| - 1];
      var cap := if c.Register? && c.s.maxConcurrent > 0 then c.s.maxConcurrent else 3;
      if c.Register? && c.s.username == u && cap > before then cap else before
  }

  /** Every session on the books comes from a registration. */
  lemma {:induction false} SessionsAreRegistered(maxTotal: int, calls: seq<Call>, id: string)
    requires id in Run(maxTotal, calls).sessions
    ensures exists i :: 0 <= i < |calls| && calls[i].Register? && calls[i].s == Run(maxTotal, calls).sessions[id] &&
                        calls[i].s.id == id
  {
    var before, c := calls[..|calls| - 1], calls[|calls| - 1];
    if c.Register? && c.s.id == id && Registered(Run(maxTotal, before), c.s).1 == Accepted {
      assert calls[|calls| - 1].s == Run(maxTotal, calls).sessions[id];
    } else {
      SessionsAreRegistered(maxTotal, before, id);
      var i :| 0 <= i < |before| && before[i].Register? && before[i].s == Run(maxTotal, before).sessions[id] && before[i].s.id == id;
      assert calls[i] == before[i];
    }
  }

  /** The entry of a user counts that user's sessions. */
  lemma EntryCounts(b: Books, u: string)
    requires Exact(b)
    ensures Get(b.byUser, u) == |SessionsOf(b, u)|
  {
  }

  /** A step that keeps the books exact keeps the total within its cap, and brings a user at most up to the
      cap of the registration. */
  lemma StepWithinCaps(b: Books, c: Call, u: string)
    requires Exact(b) && Exact(Step(b, c))
    ensures Step(b, c).maxTotal == b.maxTotal
    ensures 0 <= Step(b, c).total && (Step(b, c).total <= b.total || Step(b, c).total <= b.maxTotal)
    ensures |SessionsOf(Step(b, c), u)| <= |SessionsOf(b, u)| ||
            (c.Register? && c.s.username == u && |SessionsOf(Step(b, c), u)| <= UserCap(c.s))
  {
    hide SessionsOf;
    EntryCounts(b, u);
    EntryCounts(Step(b, c), u);
    assert Step(b, c).total == |Step(b, c).sessions|;
    hide Exact;
    if c.Unregister? && c.id in b.sessions { UnregisterTakesOne(b, c.id, c.username, u); }
  }

  /** On exact books a well-behaved call keeps them exact. */
  lemma StepStaysExact(maxTotal: int, calls: seq<Call>, c: Call)
    requires WellCalled(calls + [c]) && Exact(Run(maxTotal, calls))
    ensures Exact(Step(Run(maxTotal, calls), c))
  {
    hide Exact, Run, Registered, Unregistered;
    var b := Run(maxTotal, calls);
    match c
    case Register(s) =>
      if s.id in b.sessions { LaterCallOf(maxTotal, calls, c, s.id); }
      RegisterExactly(b, s);
    case Unregister(id, username) =>
      if id in b.sessions { LaterCallOf(maxTotal, calls, c, id); }
      UnregisterExactly(b, id, username);
  }

  /** A later call that names a session on the books unregisters it under its own user. */
  lemma LaterCallOf(maxTotal: int, calls: seq<Call>, c: Call, id: string)
    requires WellCalled(calls + [c]) && id in Run(maxTotal, calls).sessions
    requires if c.Register? then c.s.id == id else c.id == id
    ensures c.Unregister? && c.username == Run(maxTotal, calls).sessions[id].username
  {
    hide Run;
    SessionsAreRegistered(maxTotal, calls, id);
    var i :| 0 <= i < |calls| && calls[i].Register? && calls[i].s == Run(maxTotal, calls).sessions[id] && calls[i].s.id == id;
    assert (calls + [c])[i] == calls[i] && (calls + [c])[|calls|] == c;
  }

  /** Over any run of calls the counters stay exact, the total stays within its cap, and no user ever has
      more sessions than the largest cap that user's registrations carried. */
  lemma {:induction false} RunStaysExact(maxTotal: int, calls: seq<Call>, u: string)
    requires WellCalled(calls)
    ensures Exact(Run(maxTotal, calls))
    ensures Run(maxTotal, calls).maxTotal == maxTotal
    ensures 0 <= Run(maxTotal, calls).total <= if maxTotal < 0 then 0 else maxTotal
    ensures |SessionsOf(Run(maxTotal, calls), u)| <= LargestCap(calls, u)
  {
    if calls == [] {
      assert forall v :: SessionsOf(Run(maxTotal, calls), v) == {};
    } else {
      hide Exact, SessionsOf, Step;
      var before, c := calls[..|calls| - 1], calls[|calls| - 1];
      assert calls == before + [c];
      RunStaysExact(maxTotal, before, u);
      StepStaysExact(maxTotal, before, c);
      StepWithinCaps(Run(maxTotal, before), c, u);
    }
  }

  /** So after any run a new session is let in exactly when there is room for it. */
  lemma RunAdmits(maxTotal: int, calls: seq<Call>, s: Session)
    requires WellCalled(calls)
    ensures var b := Run(maxTotal, calls);
      Registered(b, s).1 == Accepted <==>
      |b.sessions| < maxTotal && |SessionsOf(b, s.username)| < if s.maxConcurrent <= 0 then 3 else s.maxConcurrent
  {
    hide Run, Registered, SessionsOf, Exact;
    RunStaysExact(maxTotal, calls, s.username);
    AdmissionExactly(Run(maxTotal, calls), s);
  }
}
