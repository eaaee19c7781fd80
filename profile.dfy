/** The traffic profile of a capture: the TCP/IP packets' first and last
    timestamps, duration, packet and session counts, and the two ratios. */
module Profiling {
  import opened Wrappers
  import opened Packets
  import opened Selection
  import opened Sessions

  datatype Profile = Profile(
    startTimestamp: real,
    endTimestamp: real,
    durationSecs: real,
    totalPackets: nat,
    totalSessions: nat,
    avgPps: real,
    packetsToSessionsRatio: real)

  /** Building the profile fails when no packet was kept: the running first
      timestamp is still `None` and converting it to a float raises. */
  datatype ProfileError = NoTimestamp

  /** The packets the profile counts: those with both an IP and a TCP layer. */
  predicate IsTcpIp(p: Packet)
  {
    p.ip && p.tcp
  }

  /** The timestamps of `ps`, in order. */
  function Times(ps: seq<Packet>): (ts: seq<real>)
    ensures |ts| == |ps|
    ensures forall i {:trigger ts[i]} :: 0 <= i < |ps| ==> ts[i] == ps[i].time
    decreases |ps|
  {
    if ps == [] then [] else Times(ps[..|ps| - 1]) + [ps[|ps| - 1].time]
  }

  /** The running first and last timestamps; `None` before any packet. */
  datatype Bounds = Bounds(first: Option<real>, last: Option<real>)

  /** Python truthiness of a running timestamp: `None` and a zero timestamp
      are both false. */
  predicate Truthy(t: Option<real>)
  {
    t.Some? && t.value != 0.0
  }

  /** Either no timestamp seen yet, or both known and in order: the
      invariant the scan keeps. */
  ghost predicate Ordered(b: Bounds)
  {
    (b.first.None? && b.last.None?)
    || (b.first.Some? && b.last.Some? && b.first.value <= b.last.value)
  }

  /** One iteration of the scan over a kept packet with timestamp `t`, as
      written: a falsy running value is replaced by `t`, then `t` lowers the
      first timestamp, or else raises the last one. */
  function Step(b: Bounds, t: real): Bounds
  {
    var f := if Truthy(b.first) then b.first.value else t;
    var l := if Truthy(b.last) then b.last.value else t;
    if t < f then Bounds(Some(t), Some(l))
    else if t > l then Bounds(Some(f), Some(t))
    else Bounds(Some(f), Some(l))
  }

  /** A step keeps the running values in order, sets both, and on truthy
      running values lowers the first to `t` or raises the last to `t`. */
  lemma StepKeepsOrder(b: Bounds, t: real)
    ensures Ordered(b) ==> Ordered(Step(b, t))
    ensures Step(b, t).first.Some? && Step(b, t).last.Some?
    ensures Truthy(b.first) && Truthy(b.last) && b.first.value <= b.last.value ==>
              Step(b, t).first.value == (if t < b.first.value then t else b.first.value) &&
              Step(b, t).last.value == (if t > b.last.value then t else b.last.value)
  {
  }

  /** The scan over the kept timestamps, in capture order: it has running
      values exactly when some timestamp was seen. */
  function Scan(ts: seq<real>): (r: Bounds)
    ensures r.first.Some? <==> ts != []
    ensures r.last.Some? <==> ts != []
    decreases |ts|
  {
    if ts == [] then Bounds(None, None)
    else Step(Scan(ts[..|ts| - 1]), ts[|ts| - 1])
  }

  /** The scan's result is ordered and both running values are timestamps
      from the input. */
  lemma {:induction false} ScanOrdered(ts: seq<real>)
    ensures Ordered(Scan(ts))
    ensures ts != [] ==> Scan(ts).first.value in ts && Scan(ts).last.value in ts
    decreases |ts|
  {
    if ts != [] {
      var init := ts[..|ts| - 1];
      assert ts == init + [ts[|ts| - 1]];
      ScanOrdered(init);
      StepKeepsOrder(Scan(init), ts[|ts| - 1]);
    }
  }

  lemma ScanSnoc(ps: seq<Packet>, p: Packet)
    ensures Scan(Times(ps + [p])) == Step(Scan(Times(ps)), p.time)
  {
    assert (ps + [p])[..|ps|] == ps;
    assert Times(ps + [p])[..|ps|] == Times(ps);
  }

  /** The profile of `capture`, with `key` standing for the packet library's
      session key. */
  function ProfileOf<K(==,!new)>(capture: seq<Packet>, key: Packet -> K): (r: Result<Profile, ProfileError>)
    ensures r.Failure? <==> Select(IsTcpIp, capture) == []
  {
    var packets := Select(IsTcpIp, capture);
    var b := Scan(Times(packets));
    if b.first.None? || b.last.None? then Failure(NoTimestamp)
    else
      var sessions := SessionsOf(key, packets);
      SessionCountBounds(key, packets);
      Success(MakeProfile(b.first.value, b.last.value, |packets|, |sessions|))
  }

  /** `avg_pps` is the duration per packet and the ratio is the packets per
      session: each quotient times its divisor gives back its dividend. */
  predicate RatesConsistent(pr: Profile)
  {
    pr.avgPps * pr.totalPackets as real == pr.durationSecs &&
    pr.packetsToSessionsRatio * pr.totalSessions as real == pr.totalPackets as real
  }

  /** The profile record for the given first and last timestamps and packet
      and session counts. `avgPps` is the duration divided by the packet
      count: seconds per packet, whatever its name says. */
  function MakeProfile(first: real, last: real, packets: nat, sessions: nat): (pr: Profile)
    requires packets > 0 && sessions > 0
    ensures pr.startTimestamp == first && pr.endTimestamp == last
    ensures pr.durationSecs == last - first
    ensures pr.totalPackets == packets && pr.totalSessions == sessions
    ensures RatesConsistent(pr)
    ensures sessions <= packets ==> pr.packetsToSessionsRatio >= 1.0
  {
    var duration := last - first;
    var n := packets as real;
    var m := sessions as real;
    QuotientTimesDivisor(duration, n);
    QuotientTimesDivisor(n, m);
    assert sessions <= packets ==> n / m >= 1.0 by {
      if sessions <= packets {
        QuotientAtLeastOne(n, m);
      }
    }
    Profile(first, last, duration, packets, sessions, duration / n, n / m)
  }

  /** The running-timestamp update for one kept packet, as the loop body
      writes it: it is one scan step. */
  method ObserveTimestamp(first: Option<real>, last: Option<real>, t: real)
    returns (first': Option<real>, last': Option<real>)
    ensures Bounds(first', last') == Step(Bounds(first, last), t)
  {
    first', last' := first, last;
    if !Truthy(first') {
      first' := Some(t);
    }
    if !Truthy(last') {
      last' := Some(t);
    }
    if t < first'.value {
      first' := Some(t);
    } else if t > last'.value {
      last' := Some(t);
    }
  }

  /** One pass over the capture keeping the TCP/IP packets and their running
      first and last timestamps, then the session grouping and the ratios. */
  method ProfileSessions<K(==,!new)>(capture: seq<Packet>, key: Packet -> K) returns (r: Result<Profile, ProfileError>)
    ensures r == ProfileOf(capture, key)
  {
    var packets: seq<Packet> := [];
    var first: Option<real> := None;
    var last: Option<real> := None;
    for i := 0 to |capture|
      invariant packets == Select(IsTcpIp, capture[..i])
      invariant Bounds(first, last) == Scan(Times(packets))
    {
      SelectPrefixStep(IsTcpIp, capture, i);
      var packet := capture[i];
      if !packet.ip {
        continue;
      }
      if !packet.tcp {
        continue;
      }
      first, last := ObserveTimestamp(first, last, packet.time);
      ScanSnoc(packets, packet);
      packets := packets + [packet];
    }
    assert capture[..|capture|] == capture;
    if first.None? || last.None? {
      return Failure(NoTimestamp);
    }
    var sessions := SessionsOf(key, packets);
    SessionCountBounds(key, packets);
    r := Success(MakeProfile(first.value, last.value, |packets|, |sessions|));
  }

  /** A failed profile means no packet has both IP and TCP; a successful one
      counts exactly the TCP/IP packets and their distinct session keys, so
      neither division can be by zero and there are at least as many packets
      as sessions. */
  lemma ProfileCounts<K(!new)>(capture: seq<Packet>, key: Packet -> K)
    ensures ProfileOf(capture, key).Failure? <==> forall i :: 0 <= i < |capture| ==> !IsTcpIp(capture[i])
    ensures ProfileOf(capture, key).Success? ==>
              var pr := ProfileOf(capture, key).value;
              var kept := Select(IsTcpIp, capture);
              pr.totalPackets == |kept| &&
              pr.totalSessions == |SessionKeys(key, kept)| &&
              1 <= pr.totalSessions <= pr.totalPackets &&
              RatesConsistent(pr) &&
              pr.packetsToSessionsRatio >= 1.0
  {
    var kept := Select(IsTcpIp, capture);
    SelectEmpty(IsTcpIp, capture);
    SessionCountBounds(key, kept);
    if ProfileOf(capture, key).Success? {
      var b := Scan(Times(kept));
      var pr := MakeProfile(b.first.value, b.last.value, |kept|, |SessionsOf(key, kept)|);
      assert ProfileOf(capture, key).value == pr;
    }
  }

  lemma QuotientTimesDivisor(a: real, b: real)
    requires b != 0.0
    ensures (a / b) * b == a
  {
  }

  lemma QuotientAtLeastOne(a: real, b: real)
    requires 0.0 < b <= a
    ensures a / b >= 1.0
  {
  }

  /** The start is never after the end, both are timestamps of TCP/IP
      packets and, when no TCP/IP packet carries a zero timestamp, they are
      the minimum and the maximum timestamp of those packets. */
  lemma ProfileTimestamps<K(!new)>(capture: seq<Packet>, key: Packet -> K)
    ensures ProfileOf(capture, key).Success? ==>
              var pr := ProfileOf(capture, key).value;
              var ts := Times(Select(IsTcpIp, capture));
              pr.startTimestamp <= pr.endTimestamp &&
              pr.durationSecs == pr.endTimestamp - pr.startTimestamp &&
              pr.durationSecs >= 0.0 &&
              pr.startTimestamp in ts && pr.endTimestamp in ts
    ensures ProfileOf(capture, key).Success? && 0.0 !in Times(Select(IsTcpIp, capture)) ==>
              var pr := ProfileOf(capture, key).value;
              forall t :: t in Times(Select(IsTcpIp, capture)) ==>
                pr.startTimestamp <= t <= pr.endTimestamp
  {
    var ts := Times(Select(IsTcpIp, capture));
    ScanOrdered(ts);
    if ProfileOf(capture, key).Success? && 0.0 !in ts {
      ScanAgreesWithoutZero(ts);
      ScanFixedIsMinMax(ts);
    }
  }

  /** The scan step with the running values tested against `None` instead
      of for truthiness. */
  function StepFixed(b: Bounds, t: real): Bounds
  {
    var f := if b.first.None? then t else b.first.value;
    var l := if b.last.None? then t else b.last.value;
    if t < f then Bounds(Some(t), Some(l))
    else if t > l then Bounds(Some(f), Some(t))
    else Bounds(Some(f), Some(l))
  }

  function ScanFixed(ts: seq<real>): Bounds
    decreases |ts|
  {
    if ts == [] then Bounds(None, None)
    else StepFixed(ScanFixed(ts[..|ts| - 1]), ts[|ts| - 1])
  }

  /** The corrected scan yields the minimum and the maximum of any non-empty
      sequence of timestamps, zero included. */
  lemma {:induction false} ScanFixedIsMinMax(ts: seq<real>)
    ensures ScanFixed(ts).first.Some? <==> ts != []
    ensures ScanFixed(ts).first.Some? ==> ScanFixed(ts).last.Some?
    ensures ts != [] ==>
              var b := ScanFixed(ts);
              b.first.value in ts && b.last.value in ts &&
              forall t :: t in ts ==> b.first.value <= t <= b.last.value
    decreases |ts|
  {
    if ts != [] {
      var init := ts[..|ts| - 1];
      assert ts == init + [ts[|ts| - 1]];
      ScanFixedIsMinMax(init);
    }
  }

  /** Without zero timestamps, truthiness and `None` tests agree, so the
      scan as written equals the corrected one. */
  lemma {:induction false} ScanAgreesWithoutZero(ts: seq<real>)
    requires 0.0 !in ts
    ensures Scan(ts) == ScanFixed(ts)
    decreases |ts|
  {
    if ts != [] {
      var init := ts[..|ts| - 1];
      assert ts == init + [ts[|ts| - 1]];
      ScanAgreesWithoutZero(init);
    }
  }

  /** A TCP/IP packet with the given timestamp and no application layer. */
  function TcpPacket(t: real): Packet
  {
    Packet(t, true, true, false, None, None, None)
  }

  /** As written, a zero timestamp is treated like a missing one: for
      packets at 0.0 and 5.0 the profile starts at 5.0 with duration 0,
      while the corrected scan gives 0.0 and 5.0. */
  lemma ZeroTimestampLosesStart<K(!new)>(key: Packet -> K)
    ensures var capture := [TcpPacket(0.0), TcpPacket(5.0)];
            var pr := ProfileOf(capture, key);
            pr.Success? && pr.value.startTimestamp == 5.0 && pr.value.durationSecs == 0.0 &&
            ScanFixed(Times(Select(IsTcpIp, capture))) == Bounds(Some(0.0), Some(5.0))
  {
    var capture := [TcpPacket(0.0), TcpPacket(5.0)];
    TwoKept(capture);
    var ts := Times(capture);
    assert ts == [0.0, 5.0];
    assert ts[..1] == [0.0];
    assert [0.0][..0] == [];
    assert Scan(ts[..1]) == Bounds(Some(0.0), Some(0.0));
    assert Scan(ts) == Bounds(Some(5.0), Some(5.0));
    assert ScanFixed(ts[..1]) == Bounds(Some(0.0), Some(0.0));
    assert ScanFixed(ts) == Bounds(Some(0.0), Some(5.0));
  }

  /** A two-packet capture of TCP/IP packets is kept whole. */
  lemma TwoKept(capture: seq<Packet>)
    requires |capture| == 2 && IsTcpIp(capture[0]) && IsTcpIp(capture[1])
    ensures Select(IsTcpIp, capture) == capture
  {
    assert capture[..1][..0] == [];
    assert Select(IsTcpIp, capture[..1]) == [capture[0]];
    assert capture[..1] + [capture[1]] == capture;
  }

  /** Two TCP/IP packets of one session at 10.0 and 12.5: two packets, one
      session, 2.5 seconds, ratio 2.0 and 1.25 seconds per packet. */
  lemma TwoPacketSession<K(!new)>(key: Packet -> K, a: Packet, b: Packet)
    requires IsTcpIp(a) && IsTcpIp(b) && a.time == 10.0 && b.time == 12.5
    requires key(a) == key(b)
    ensures ProfileOf([a, b], key) == Success(Profile(10.0, 12.5, 2.5, 2, 1, 1.25, 2.0))
  {
    var capture := [a, b];
    TwoKept(capture);
    var ts := Times(capture);
    assert ts == [10.0, 12.5];
    assert ts[..1] == [10.0];
    assert [10.0][..0] == [];
    assert Scan(ts[..1]) == Bounds(Some(10.0), Some(10.0));
    assert Scan(ts) == Bounds(Some(10.0), Some(12.5));
    assert SessionKeys(key, capture) == {key(a)};
    var pr := MakeProfile(10.0, 12.5, 2, 1);
    assert ProfileOf(capture, key) == Success(pr);
  }
}
