/** The life of one pending peer over a run of passes. */
module PendingLifecycle {
  import opened Texts
  import opened Addresses
  import opened CrowdsecInput
  import opened PeerReconcile

  /** One pass as a peer experiences it: when it ran, the nodes it listed, whether it got as far as acting on
      objects, and whether the request about this peer succeeded. */
  datatype Tick = Tick(now: int, nodes: seq<Node>, acted: bool, succeeds: bool)

  /** The second a time lies in: claimedAt is stored with second precision. */
  function WholeSecond(t: int): (r: int)
    ensures r <= t < r + SECOND
  {
    (t / SECOND) * SECOND
  }

  /** The object after a pass; none once deleted. Only a successful claim changes it, by setting claimedAt:
      merge-patches of the other status fields leave claimedAt as it is. */
  function AfterTick(s: Option<PendingPeer>, t: Tick, grace: int): Option<PendingPeer> {
    match s
    case None => None
    case Some(p) =>
      if !t.acted || !t.succeeds then s
      else
        match ActionOf(p, t.now, grace, NodeIpSet(t.nodes))
        case Delete(_) => None
        case Claim(_) => Some(p.(claimedAt := Some(WholeSecond(t.now))))
        case Patch(_) => s
  }

  /** The object before pass k of a run. */
  function Before(p: PendingPeer, run: seq<Tick>, grace: int, k: nat): Option<PendingPeer>
    requires k <= |run|
  {
    if k == 0 then Some(p) else AfterTick(Before(p, run, grace, k - 1), run[k - 1], grace)
  }

  /** The peer's address is among the desired peers of pass k. */
  predicate Contributes(p: PendingPeer, run: seq<Tick>, grace: int, k: nat)
    requires k < |run|
  {
    var s := Before(p, run, grace, k);
    s.Some? && Active(s.value, run[k].now, grace)
  }

  /** The clock never runs backwards. */
  ghost predicate Clocked(run: seq<Tick>) {
    forall i, j :: 0 <= i < j < |run| ==> run[i].now <= run[j].now
  }

  lemma ClaimNeedsNone(p: PendingPeer, now: int, grace: int, nodeIps: set<string>)
    ensures ActionOf(p, now, grace, nodeIps).Claim? ==> p.claimedAt.None?
  {
    hide Expired, Active, BareText;
  }

  /** All that ever changes about the object is claimedAt, and only from none. */
  lemma {:induction false} SpecUnchanged(p: PendingPeer, run: seq<Tick>, grace: int, j: nat, k: nat)
    requires j <= k <= |run|
    ensures Before(p, run, grace, k).Some? ==> Before(p, run, grace, j).Some?
    ensures Before(p, run, grace, k).Some? ==>
              var s, s' := Before(p, run, grace, j).value, Before(p, run, grace, k).value;
              s' == s.(claimedAt := s'.claimedAt) && (s.claimedAt.Some? ==> s' == s)
  {
    hide ActionOf, WholeSecond, NodeIpSet;
    if j < k {
      SpecUnchanged(p, run, grace, j, k - 1);
      if Before(p, run, grace, k - 1).Some? {
        ClaimNeedsNone(Before(p, run, grace, k - 1).value, run[k - 1].now, grace, NodeIpSet(run[k - 1].nodes));
      }
    }
  }

  /** One pass later: a peer that does not contribute now will not contribute at the next pass. */
  lemma StopsForGood(p: PendingPeer, run: seq<Tick>, grace: int, k: nat)
    requires Clocked(run) && k + 1 < |run|
    requires !Contributes(p, run, grace, k)
    ensures !Contributes(p, run, grace, k + 1)
  {
    hide PeerAddress, Ttl;
    assert run[k].now <= run[k + 1].now;
  }

  /** Pending peers never flap: once a pass leaves the peer out, every later pass does. */
  lemma {:induction false} NeverFlaps(p: PendingPeer, run: seq<Tick>, grace: int, j: nat, k: nat)
    requires Clocked(run) && j <= k < |run|
    requires !Contributes(p, run, grace, j)
    ensures !Contributes(p, run, grace, k)
  {
    hide Contributes;
    if j < k {
      NeverFlaps(p, run, grace, j, k - 1);
      StopsForGood(p, run, grace, k - 1);
    }
  }

  /** Pass k writes claimedAt. */
  predicate WritesClaim(p: PendingPeer, run: seq<Tick>, grace: int, k: nat)
    requires k < |run|
  {
    var s := Before(p, run, grace, k);
    s.Some? && run[k].acted && run[k].succeeds && ActionOf(s.value, run[k].now, grace, NodeIpSet(run[k].nodes)).Claim?
  }

  /** claimedAt is written at most once, to the second of that pass, and the value stays. */
  lemma ClaimedOnce(p: PendingPeer, run: seq<Tick>, grace: int, j: nat, k: nat)
    requires j < k <= |run| && WritesClaim(p, run, grace, j)
    ensures k < |run| ==> !WritesClaim(p, run, grace, k)
    ensures Before(p, run, grace, k).Some? ==> Before(p, run, grace, k).value.claimedAt == Some(WholeSecond(run[j].now))
  {
    hide ActionOf, Expired, WholeSecond;
    SpecUnchanged(p, run, grace, j + 1, k);
    if k < |run| && Before(p, run, grace, k).Some? {
      ClaimNeedsNone(Before(p, run, grace, k).value, run[k].now, grace, NodeIpSet(run[k].nodes));
    }
  }

  /** A claimed peer is kept and contributes at every pass up to claimedAt plus the grace, past its
      time-to-live as well. */
  lemma {:induction false} ClaimedStays(p: PendingPeer, run: seq<Tick>, grace: int, j: nat, k: nat)
    requires Clocked(run) && j <= k < |run|
    requires Before(p, run, grace, j).Some?
    requires PeerAddress(p).Some? && Before(p, run, grace, j).value.claimedAt.Some?
    requires run[k].now <= Before(p, run, grace, j).value.claimedAt.value + grace
    ensures Before(p, run, grace, k) == Before(p, run, grace, j) && Contributes(p, run, grace, k)
  {
    hide PeerAddress, Ttl, BareText, ActionOf;
    SpecUnchanged(p, run, grace, 0, j);
    PeerAddressStays(p, Before(p, run, grace, j).value);
    if j < k {
      assert run[k - 1].now <= run[k].now;
      ClaimedStays(p, run, grace, j, k - 1);
      ClaimedIsPatched(Before(p, run, grace, j).value, run[k - 1].now, grace, NodeIpSet(run[k - 1].nodes));
    }
  }

  lemma PeerAddressStays(p: PendingPeer, s: PendingPeer)
    requires s == p.(claimedAt := s.claimedAt)
    ensures PeerAddress(s) == PeerAddress(p)
  {
  }

  lemma ClaimedIsPatched(p: PendingPeer, now: int, grace: int, nodeIps: set<string>)
    requires p.claimedAt.Some? && now <= p.claimedAt.value + grace
    ensures ActionOf(p, now, grace, nodeIps).Patch?
  {
    hide PeerAddress, BareText;
  }

  /** After its time an object survives only as long as its deletion fails. */
  lemma ExpiredIsDeleted(p: PendingPeer, run: seq<Tick>, grace: int, k: nat)
    requires k < |run| && PeerAddress(p).Some? && !Contributes(p, run, grace, k)
    requires run[k].acted && run[k].succeeds
    ensures Before(p, run, grace, k + 1) == None
  {
    if Before(p, run, grace, k).Some? { SpecUnchanged(p, run, grace, 0, k); }
  }

  /** An unclaimed peer with a creation time contributes exactly while it exists and its time-to-live runs. */
  lemma UnclaimedWindow(p: PendingPeer, run: seq<Tick>, grace: int, k: nat)
    requires k < |run| && PeerAddress(p).Some? && p.created.Some?
    requires Before(p, run, grace, k).Some? && Before(p, run, grace, k).value.claimedAt.None?
    ensures Contributes(p, run, grace, k) <==> run[k].now <= p.created.value + Ttl(p)
  {
    SpecUnchanged(p, run, grace, 0, k);
  }

  // ---- told from the objects -------------------------------------------------

  /** A time in whole seconds, less than a second before the other. */
  predicate SecondOf(c: int, t: int) { c % 1_000_000_000 == 0 && c <= t < c + 1_000_000_000 }

  /** What a pass whose request succeeds leaves of a pending peer: nothing of an accepted one whose time is
      over; the second of the pass as claimedAt of one that is in time, unclaimed and on a node; every other
      as it is. A pass that does not get that far, or whose request fails, leaves it alone. */
  lemma AfterPassExactly(p: PendingPeer, t: Tick, grace: int)
    ensures var acts := t.acted && t.succeeds;
      && (AfterTick(Some(p), t, grace).None? <==> acts && exists a :: AsksFor(p, a) && !InTime(p, t.now, grace))
      && ((acts && p.claimedAt.None? && InTime(p, t.now, grace) && exists a :: AsksFor(p, a) && OnNode(a, t.nodes)) ==>
            exists c :: AfterTick(Some(p), t, grace) == Some(p.(claimedAt := Some(c))) && SecondOf(c, t.now))
      && (!(acts && p.claimedAt.None? && InTime(p, t.now, grace) && exists a :: AsksFor(p, a) && OnNode(a, t.nodes)) ==>
            AfterTick(Some(p), t, grace).None? || AfterTick(Some(p), t, grace) == Some(p))
  {
    hide AsksFor, InTime, OnNode, ActionOf, NodeIpSet;
    ActionByObject(p, t.now, grace, t.nodes);
    assert ActionOf(p, t.now, grace, NodeIpSet(t.nodes)).name == p.name;
    assert SecondOf(WholeSecond(t.now), t.now);
  }

  /** Passes that act on nothing, or whose request fails, leave the object alone. */
  lemma {:induction false} FailuresKeep(p: PendingPeer, run: seq<Tick>, grace: int, k: nat)
    requires k <= |run| && forall j :: 0 <= j < k ==> !(run[j].acted && run[j].succeeds)
    ensures Before(p, run, grace, k) == Some(p)
  {
    hide ActionOf;
    if k > 0 { FailuresKeep(p, run, grace, k - 1); }
  }

  /** An unclaimed peer in time whose address is on a node gets its claimedAt at the first pass whose request
      succeeds, and no earlier pass writes one. */
  lemma ClaimedAtFirstSuccess(p: PendingPeer, run: seq<Tick>, grace: int, k: nat, a: Addr)
    requires k < |run| && run[k].acted && run[k].succeeds
    requires forall j :: 0 <= j < k ==> !(run[j].acted && run[j].succeeds)
    requires AsksFor(p, a) && p.claimedAt.None? && InTime(p, run[k].now, grace) && OnNode(a, run[k].nodes)
    ensures Before(p, run, grace, k) == Some(p)
    ensures exists c :: Before(p, run, grace, k + 1) == Some(p.(claimedAt := Some(c))) && SecondOf(c, run[k].now)
  {
    hide AsksFor, InTime, OnNode, AfterTick;
    FailuresKeep(p, run, grace, k);
    AfterPassExactly(p, run[k], grace);
  }

  /** The object is among the desired peers of a pass as long as it exists, asks for an address and is in
      time. */
  lemma ContributesExactly(p: PendingPeer, run: seq<Tick>, grace: int, k: nat)
    requires k < |run|
    ensures Contributes(p, run, grace, k) <==>
            var s := Before(p, run, grace, k);
            s.Some? && InTime(s.value, run[k].now, grace) && exists a :: AsksFor(s.value, a)
  {
    hide AsksFor, PeerAddress;
    var s := Before(p, run, grace, k);
    if s.Some? {
      forall a ensures AsksFor(s.value, a) ==> PeerAddress(s.value).Some? {
        AcceptedAsks(s.value, a);
      }
      if PeerAddress(s.value).Some? { var a := AskedAddress(s.value); }
    }
  }
}
