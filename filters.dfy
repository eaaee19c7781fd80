/** The application-layer filters: each walks the packets once and keeps,
    in order, those whose decoded HTTP method, DNS query type or ICMP
    message type is among the accepted ones. */
module Filters {
  import opened Wrappers
  import opened Packets
  import opened Selection

  /** A TCP packet with an HTTP layer whose method is accepted. */
  predicate HttpMatch(methods: set<string>, p: Packet)
  {
    p.tcp && p.http.Some? && p.http.value.verb.Some? && p.http.value.verb.value in methods
  }

  /** A TCP packet whose HTTP layer has no method: reading it raises, which
      aborts the HTTP filter. */
  predicate LacksMethod(p: Packet)
  {
    p.tcp && p.http.Some? && p.http.value.verb.None?
  }

  /** A UDP packet carrying a DNS query (`qr` is 0) whose first question's
      type is accepted. */
  predicate DnsMatch(queryTypes: set<int>, p: Packet)
  {
    p.udp && p.dns.Some? && p.dns.value.qr == 0 &&
    |p.dns.value.qd| > 0 && p.dns.value.qd[0].qtype in queryTypes
  }

  /** A DNS query whose question section is empty: reading its first
      question raises, which aborts the DNS filter. */
  predicate LacksQuestion(p: Packet)
  {
    p.udp && p.dns.Some? && p.dns.value.qr == 0 && p.dns.value.qd == []
  }

  /** An IP packet with an ICMP layer whose message type is accepted. */
  predicate IcmpMatch(messageTypes: set<int>, p: Packet)
  {
    p.ip && p.icmp.Some? && p.icmp.value.msgType in messageTypes
  }

  function HttpPredicate(methods: set<string>): Packet -> bool
  {
    p => HttpMatch(methods, p)
  }

  function DnsPredicate(queryTypes: set<int>): Packet -> bool
  {
    p => DnsMatch(queryTypes, p)
  }

  function IcmpPredicate(messageTypes: set<int>): Packet -> bool
  {
    p => IcmpMatch(messageTypes, p)
  }

  /** The HTTP filter stops at the first HTTP layer without a method. */
  datatype HttpError = MethodMissing(index: nat)

  /** The DNS filter stops at the first query without a question. */
  datatype DnsError = QuestionMissing(index: nat)

  method FilterHttp(packets: seq<Packet>, methods: set<string>) returns (r: Result<seq<Packet>, HttpError>)
    ensures r.Failure? <==> exists i :: 0 <= i < |packets| && LacksMethod(packets[i])
    ensures r.Failure? ==>
              r.error.index < |packets| && LacksMethod(packets[r.error.index]) &&
              forall j :: 0 <= j < r.error.index ==> !LacksMethod(packets[j])
    ensures r.Success? ==> r.value == Select(HttpPredicate(methods), packets)
    ensures r.Success? ==> forall i :: 0 <= i < |r.value| ==> HttpMatch(methods, r.value[i])
  {
    var filtered := [];
    for i := 0 to |packets|
      invariant filtered == Select(HttpPredicate(methods), packets[..i])
      invariant forall j :: 0 <= j < i ==> !LacksMethod(packets[j])
    {
      SelectPrefixStep(HttpPredicate(methods), packets, i);
      var packet := packets[i];
      if !packet.tcp {
        continue;
      }
      if packet.http.None? {
        continue;
      }
      if packet.http.value.verb.None? {
        return Failure(MethodMissing(i));
      }
      if packet.http.value.verb.value in methods {
        filtered := filtered + [packet];
      }
    }
    assert packets[..|packets|] == packets;
    r := Success(filtered);
  }

  method FilterDns(packets: seq<Packet>, queryTypes: set<int>) returns (r: Result<seq<Packet>, DnsError>)
    ensures r.Failure? <==> exists i :: 0 <= i < |packets| && LacksQuestion(packets[i])
    ensures r.Failure? ==>
              r.error.index < |packets| && LacksQuestion(packets[r.error.index]) &&
              forall j :: 0 <= j < r.error.index ==> !LacksQuestion(packets[j])
    ensures r.Success? ==> r.value == Select(DnsPredicate(queryTypes), packets)
    ensures r.Success? ==> forall i :: 0 <= i < |r.value| ==> DnsMatch(queryTypes, r.value[i])
  {
    var filtered := [];
    for i := 0 to |packets|
      invariant filtered == Select(DnsPredicate(queryTypes), packets[..i])
      invariant forall j :: 0 <= j < i ==> !LacksQuestion(packets[j])
    {
      SelectPrefixStep(DnsPredicate(queryTypes), packets, i);
      var packet := packets[i];
      if !packet.udp {
        continue;
      }
      if packet.dns.None? {
        continue;
      }
      if packet.dns.value.qr == 0 {
        if packet.dns.value.qd == [] {
          return Failure(QuestionMissing(i));
        }
        if packet.dns.value.qd[0].qtype in queryTypes {
          filtered := filtered + [packet];
        }
      }
    }
    assert packets[..|packets|] == packets;
    r := Success(filtered);
  }

  method FilterIcmp(packets: seq<Packet>, messageTypes: set<int>) returns (filtered: seq<Packet>)
    ensures filtered == Select(IcmpPredicate(messageTypes), packets)
    ensures forall i :: 0 <= i < |filtered| ==> IcmpMatch(messageTypes, filtered[i])
  {
    filtered := [];
    for i := 0 to |packets|
      invariant filtered == Select(IcmpPredicate(messageTypes), packets[..i])
    {
      SelectPrefixStep(IcmpPredicate(messageTypes), packets, i);
      var packet := packets[i];
      if !packet.ip {
        continue;
      }
      if packet.icmp.None? {
        continue;
      }
      if packet.icmp.value.msgType in messageTypes {
        filtered := filtered + [packet];
      }
    }
    assert packets[..|packets|] == packets;
  }

  /** Requests GET, POST, GET filtered for {"GET"}: the first and the third
      are kept, in that order. */
  lemma HttpGetScenario(g0: Packet, p1: Packet, g2: Packet)
    requires g0.tcp && p1.tcp && g2.tcp
    requires g0.http == Some(HttpLayer(Some("GET"))) && p1.http == Some(HttpLayer(Some("POST")))
    requires g2.http == Some(HttpLayer(Some("GET")))
    ensures Select(HttpPredicate({"GET"}), [g0, p1, g2]) == [g0, g2]
  {
    var s := [g0, p1, g2];
    assert "POST" != "GET" by { assert "POST"[0] != "GET"[0]; }
    assert s[..2] == [g0, p1] && s[..2][..1] == [g0] && [g0][..0] == [];
    assert Select(HttpPredicate({"GET"}), [g0]) == [g0];
    assert Select(HttpPredicate({"GET"}), [g0, p1]) == [g0];
  }

  /** A DNS response is neither kept nor a cause of failure, whatever its
      query type and question section. */
  lemma DnsResponseIgnored(queryTypes: set<int>, p: Packet)
    requires p.dns.Some? && p.dns.value.qr != 0
    ensures !DnsPredicate(queryTypes)(p) && !LacksQuestion(p)
    ensures Select(DnsPredicate(queryTypes), [p]) == []
  {
    assert [p][..0] == [];
  }
}
