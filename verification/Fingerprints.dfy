/** The fingerprint strings that decide whether a set is rewritten. */
module Fingerprints {
  import opened Texts

  datatype PeerSets = PeerSets(peersV4: seq<string>, peersV6: seq<string>, trustedV4: seq<string>, trustedV6: seq<string>)

  datatype PortSets = PortSets(tcp: seq<string>, udp: seq<string>)

  /** peerFingerprint. */
  function PeerFingerprint(s: PeerSets): string {
    Join(s.peersV4, ',') + ['|'] + (Join(s.peersV6, ',') + ['|'] + (Join(s.trustedV4, ',') + ['|'] + Join(s.trustedV6, ',')))
  }

  /** tenantPortsFingerprint. */
  function PortsFingerprint(s: PortSets): string {
    Join(s.tcp, ',') + ['|'] + Join(s.udp, ',')
  }

  /** A member that holds none of the separators. */
  predicate Member(s: string) { s != "" && Free(s, ',') && Free(s, '|') }

  predicate Members(ss: seq<string>) { forall i :: 0 <= i < |ss| ==> Member(ss[i]) }

  predicate PeerMembers(s: PeerSets) {
    Members(s.peersV4) && Members(s.peersV6) && Members(s.trustedV4) && Members(s.trustedV6)
  }

  lemma JoinedMembers(a: seq<string>, b: seq<string>)
    requires Members(a) && Members(b)
    ensures Free(Join(a, ','), '|')
    ensures Join(a, ',') == Join(b, ',') <==> a == b
  {
    JoinFree(a, ',', '|');
    if Join(a, ',') == Join(b, ',') { JoinInjective(a, b, ','); }
  }

  /** The text before the first bar and the text after it are determined by the whole. */
  lemma BarSplits(a: string, b: string, x: string, y: string)
    requires Free(a, '|') && Free(b, '|')
    requires a + ['|'] + x == b + ['|'] + y
    ensures a == b && x == y
  {
    var s := a + ['|'] + x;
    assert s[|a|] == '|' && s[|b|] == '|';
    assert forall i :: 0 <= i < |a| ==> s[i] == a[i] != '|';
    assert forall i :: 0 <= i < |b| ==> s[i] == b[i] != '|';
    assert s[..|a|] == a && s[..|b|] == b;
    assert s[|a| + 1..] == x && s[|b| + 1..] == y;
  }

  /** Equal peer fingerprints mean equal set contents. */
  lemma PeerFingerprintFaithful(s: PeerSets, t: PeerSets)
    requires PeerMembers(s) && PeerMembers(t)
    requires PeerFingerprint(s) == PeerFingerprint(t)
    ensures s == t
  {
    JoinedMembers(s.peersV4, t.peersV4);
    JoinedMembers(t.peersV4, s.peersV4);
    JoinedMembers(s.peersV6, t.peersV6);
    JoinedMembers(t.peersV6, s.peersV6);
    JoinedMembers(s.trustedV4, t.trustedV4);
    JoinedMembers(t.trustedV4, s.trustedV4);
    JoinedMembers(s.trustedV6, t.trustedV6);
    var s3, t3 := Join(s.trustedV4, ',') + ['|'] + Join(s.trustedV6, ','), Join(t.trustedV4, ',') + ['|'] + Join(t.trustedV6, ',');
    var s2, t2 := Join(s.peersV6, ',') + ['|'] + s3, Join(t.peersV6, ',') + ['|'] + t3;
    BarSplits(Join(s.peersV4, ','), Join(t.peersV4, ','), s2, t2);
    BarSplits(Join(s.peersV6, ','), Join(t.peersV6, ','), s3, t3);
    BarSplits(Join(s.trustedV4, ','), Join(t.trustedV4, ','), Join(s.trustedV6, ','), Join(t.trustedV6, ','));
  }

  /** Equal port fingerprints mean equal set contents. */
  lemma PortsFingerprintFaithful(s: PortSets, t: PortSets)
    requires Members(s.tcp) && Members(s.udp) && Members(t.tcp) && Members(t.udp)
    requires PortsFingerprint(s) == PortsFingerprint(t)
    ensures s == t
  {
    JoinedMembers(s.tcp, t.tcp);
    JoinedMembers(t.tcp, s.tcp);
    JoinedMembers(s.udp, t.udp);
    BarSplits(Join(s.tcp, ','), Join(t.tcp, ','), Join(s.udp, ','), Join(t.udp, ','));
  }
}
