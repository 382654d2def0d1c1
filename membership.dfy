/**
 * The membership test `ips_in_nets` (cloudflare-in-alexa-top500.go:124-133).
 * An address is its sequence of bits (32 for IPv4, 128 for IPv6) and a network
 * prefix is an address with a prefix length; `IPNet.Contains` holds when the
 * address has the network's family and agrees with it on the first
 * prefix-length bits. An entry of the range list may be absent: that is the
 * nil `*IPNet` a failed `net.ParseCIDR` leaves, and calling `Contains` on it
 * panics.
 */
module Membership {
  import opened Wrappers

  type IP = seq<bool>

  datatype Net = Net(addr: seq<bool>, prefixLen: nat)

  predicate Contains(n: Net, ip: IP)
  {
    |ip| == |n.addr| && n.prefixLen <= |ip| && ip[..n.prefixLen] == n.addr[..n.prefixLen]
  }

  /** What the search ends with: true, false, or a panic on a nil network. */
  datatype Verdict = Match | NoMatch | NilNet

  /** Some address of `ips` lies in `n`. */
  predicate HitsAny(n: Net, ips: seq<IP>)
  {
    exists j :: 0 <= j < |ips| && Contains(n, ips[j])
  }

  /**
   * The search as the source orders it: networks in list order, and for each
   * network every address before the next network is tried.
   */
  function Scan(nets: seq<Option<Net>>, ips: seq<IP>): Verdict
  {
    if nets == [] then NoMatch
    else if ips != [] && nets[0].None? then NilNet
    else if nets[0].Some? && HitsAny(nets[0].value, ips) then Match
    else Scan(nets[1..], ips)
  }

  /** Network k is reached: every network before it is present and contains no address. */
  ghost predicate Reached(nets: seq<Option<Net>>, ips: seq<IP>, k: nat)
  {
    forall k' :: 0 <= k' < k && k' < |nets| ==> nets[k'].Some? && !HitsAny(nets[k'].value, ips)
  }

  /** Some present network of the list contains some address. */
  ghost predicate AnyContains(nets: seq<Option<Net>>, ips: seq<IP>)
  {
    exists k, j :: 0 <= k < |nets| && 0 <= j < |ips| && nets[k].Some? && Contains(nets[k].value, ips[j])
  }

  /** A list's hits are its head's hits and its tail's hits. */
  lemma AnyContainsCons(nets: seq<Option<Net>>, ips: seq<IP>)
    requires nets != []
    ensures AnyContains(nets, ips) <==>
      (nets[0].Some? && HitsAny(nets[0].value, ips)) || AnyContains(nets[1..], ips)
  {
    var tail := nets[1..];
    if AnyContains(nets, ips) {
      var k, j :| 0 <= k < |nets| && 0 <= j < |ips| && nets[k].Some? && Contains(nets[k].value, ips[j]);
      if k > 0 {
        assert tail[k - 1] == nets[k];
      }
    }
    if AnyContains(tail, ips) {
      var k, j :| 0 <= k < |tail| && 0 <= j < |ips| && tail[k].Some? && Contains(tail[k].value, ips[j]);
      assert nets[k + 1] == tail[k];
    }
  }

  predicate AllPresent(nets: seq<Option<Net>>)
  {
    forall k :: 0 <= k < |nets| ==> nets[k].Some?
  }

  /** With no nil entry, the search answers "some network contains some address". */
  lemma {:induction false} ScanIsExists(nets: seq<Option<Net>>, ips: seq<IP>)
    requires AllPresent(nets)
    ensures Scan(nets, ips) != NilNet
    ensures Scan(nets, ips) == Match <==> AnyContains(nets, ips)
  {
    if nets != [] {
      ScanIsExists(nets[1..], ips);
      AnyContainsCons(nets, ips);
    }
  }

  /** With no address or no network, nothing is examined and the answer is false. */
  lemma {:induction false} ScanEmpty(nets: seq<Option<Net>>, ips: seq<IP>)
    requires ips == [] || nets == []
    ensures Scan(nets, ips) == NoMatch
  {
    if nets != [] {
      ScanEmpty(nets[1..], ips);
    }
  }

  /**
   * The outcome is decided by the first network that is nil or contains an
   * address: true if it contains one, a panic if it is nil (and some address
   * is to be tried); later networks are never examined.
   */
  lemma {:induction false} ScanFirstDecides(nets: seq<Option<Net>>, ips: seq<IP>)
    ensures Scan(nets, ips) == Match <==>
      exists k :: 0 <= k < |nets| && Reached(nets, ips, k) && nets[k].Some? && HitsAny(nets[k].value, ips)
    ensures Scan(nets, ips) == NilNet <==>
      ips != [] && exists k :: 0 <= k < |nets| && Reached(nets, ips, k) && nets[k].None?
  {
    if nets == [] {
      return;
    }
    if ips == [] {
      ScanEmpty(nets, ips);
      return;
    }
    var tail := nets[1..];
    ScanFirstDecides(tail, ips);
    assert Reached(nets, ips, 0);
    if nets[0].Some? && !HitsAny(nets[0].value, ips) {
      forall k | 0 <= k < |tail|
        ensures Reached(tail, ips, k) <==> Reached(nets, ips, k + 1)
      {
        if Reached(tail, ips, k) {
          forall k' | 0 <= k' < k + 1 && k' < |nets|
            ensures nets[k'].Some? && !HitsAny(nets[k'].value, ips)
          {
            if k' > 0 {
              assert nets[k'] == tail[k' - 1];
            }
          }
        }
        if Reached(nets, ips, k + 1) {
          forall k' | 0 <= k' < k && k' < |tail|
            ensures tail[k'].Some? && !HitsAny(tail[k'].value, ips)
          {
            assert tail[k'] == nets[k' + 1];
          }
        }
      }
      if exists k :: 0 <= k < |nets| && Reached(nets, ips, k) && nets[k].Some? && HitsAny(nets[k].value, ips) {
        var k :| 0 <= k < |nets| && Reached(nets, ips, k) && nets[k].Some? && HitsAny(nets[k].value, ips);
        assert k > 0 && tail[k - 1] == nets[k];
      }
      if exists k :: 0 <= k < |nets| && Reached(nets, ips, k) && nets[k].None? {
        var k :| 0 <= k < |nets| && Reached(nets, ips, k) && nets[k].None?;
        assert k > 0 && tail[k - 1] == nets[k];
      }
      if exists k :: 0 <= k < |tail| && Reached(tail, ips, k) && tail[k].Some? && HitsAny(tail[k].value, ips) {
        var k :| 0 <= k < |tail| && Reached(tail, ips, k) && tail[k].Some? && HitsAny(tail[k].value, ips);
        assert Reached(nets, ips, k + 1) && nets[k + 1] == tail[k];
      }
      if exists k :: 0 <= k < |tail| && Reached(tail, ips, k) && tail[k].None? {
        var k :| 0 <= k < |tail| && Reached(tail, ips, k) && tail[k].None?;
        assert Reached(nets, ips, k + 1) && nets[k + 1] == tail[k];
      }
    }
  }

  /** `ips_in_nets`: the nested loops with their early return. */
  method IpsInNets(ips: seq<IP>, nets: seq<Option<Net>>) returns (verdict: Verdict)
    ensures verdict == Scan(nets, ips)
  {
    var k := 0;
    while k < |nets|
      invariant k <= |nets|
      invariant Scan(nets[k..], ips) == Scan(nets, ips)
    {
      var j := 0;
      while j < |ips|
        invariant j <= |ips|
        invariant forall j' :: 0 <= j' < j ==> nets[k].Some? && !Contains(nets[k].value, ips[j'])
      {
        if nets[k].None? {
          return NilNet;
        }
        if Contains(nets[k].value, ips[j]) {
          return Match;
        }
        j := j + 1;
      }
      if ips != [] {
        assert j > 0 && ips[0] in ips;
      }
      assert nets[k].Some? ==> !HitsAny(nets[k].value, ips);
      assert nets[k..][1..] == nets[k + 1..];
      k := k + 1;
    }
    verdict := NoMatch;
  }
}
