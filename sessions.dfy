/** Grouping of packets into sessions. The packet library's own keying rule
    is not part of this model: the session key is a parameter `key`, and a
    session is the in-order list of the packets sharing one key. */
module Sessions {
  import opened Packets
  import opened Selection

  /** The distinct session keys among `ps`. */
  function SessionKeys<K(==,!new)>(key: Packet -> K, ps: seq<Packet>): set<K>
  {
    set i | 0 <= i < |ps| :: key(ps[i])
  }

  lemma SessionKeysSnoc<K(!new)>(key: Packet -> K, ps: seq<Packet>)
    requires ps != []
    ensures SessionKeys(key, ps) == SessionKeys(key, ps[..|ps| - 1]) + {key(ps[|ps| - 1])}
  {
    var init := ps[..|ps| - 1];
    forall k | k in SessionKeys(key, ps)
      ensures k in SessionKeys(key, init) + {key(ps[|ps| - 1])}
    {
      var i :| 0 <= i < |ps| && key(ps[i]) == k;
      if i < |ps| - 1 {
        assert init[i] == ps[i];
      }
    }
    forall k | k in SessionKeys(key, init) ensures k in SessionKeys(key, ps) {
      var i :| 0 <= i < |init| && key(init[i]) == k;
      assert ps[i] == init[i];
    }
  }

  /** There are at least as many packets as sessions, and a non-empty packet
      list has at least one session. */
  lemma {:induction false} SessionCountBounds<K(!new)>(key: Packet -> K, ps: seq<Packet>)
    ensures |SessionKeys(key, ps)| <= |ps|
    ensures ps != [] ==> |SessionKeys(key, ps)| >= 1
    decreases |ps|
  {
    if ps != [] {
      var init := ps[..|ps| - 1];
      var k := key(ps[|ps| - 1]);
      SessionKeysSnoc(key, ps);
      SessionCountBounds(key, init);
      if k in SessionKeys(key, init) {
        assert SessionKeys(key, init) + {k} == SessionKeys(key, init);
      }
      assert k in SessionKeys(key, ps);
    }
  }

  /** Membership in the session with key `k`. */
  function InSession<K(==)>(key: Packet -> K, k: K): Packet -> bool
  {
    p => key(p) == k
  }

  /** The packet library's session grouping: one entry per distinct key,
      built by appending each packet to its key's list in capture order. */
  function SessionsOf<K(==,!new)>(key: Packet -> K, ps: seq<Packet>): (m: map<K, seq<Packet>>)
    ensures m.Keys == SessionKeys(key, ps)
    ensures forall k :: k in m ==> m[k] == Select(InSession(key, k), ps)
    decreases |ps|
  {
    if ps == [] then map[]
    else
      var init := ps[..|ps| - 1];
      var p := ps[|ps| - 1];
      var m := SessionsOf(key, init);
      var k := key(p);
      var r := m[k := (if k in m then m[k] else []) + [p]];
      SessionKeysSnoc(key, ps);
      assert forall k' :: k' in r ==> r[k'] == Select(InSession(key, k'), ps) by {
        forall k' | k' in r ensures r[k'] == Select(InSession(key, k'), ps) {
          SessionsStep(key, ps, m, k');
        }
      }
      r
  }

  /** The inductive step of SessionsOf for one key `k'`: after `p` is
      appended to its key's list, the list for `k'` is still the selection of
      the packets of session `k'`. */
  lemma SessionsStep<K(!new)>(key: Packet -> K, ps: seq<Packet>, m: map<K, seq<Packet>>, k': K)
    requires ps != []
    requires m.Keys == SessionKeys(key, ps[..|ps| - 1])
    requires k' in m ==> m[k'] == Select(InSession(key, k'), ps[..|ps| - 1])
    requires k' in m || k' == key(ps[|ps| - 1])
    ensures var p := ps[|ps| - 1];
            var k := key(p);
            var r := m[k := (if k in m then m[k] else []) + [p]];
            r[k'] == Select(InSession(key, k'), ps)
  {
    var init := ps[..|ps| - 1];
    var p := ps[|ps| - 1];
    var k := key(p);
    assert InSession(key, k')(p) == (k == k');
    if k' == k && k !in m {
      SelectEmpty(InSession(key, k), init);
      forall i | 0 <= i < |init| ensures !InSession(key, k)(init[i]) {
        assert key(init[i]) in SessionKeys(key, init);
      }
    }
  }

  /** Every packet belongs to exactly one session: the one named by its key.
      Hence no two sessions share a packet. */
  lemma {:induction false} SessionsPartition<K(!new)>(key: Packet -> K, ps: seq<Packet>, p: Packet)
    requires p in ps
    ensures key(p) in SessionsOf(key, ps)
    ensures forall k :: k in SessionsOf(key, ps) ==> (p in SessionsOf(key, ps)[k] <==> k == key(p))
  {
    var m := SessionsOf(key, ps);
    var i :| 0 <= i < |ps| && ps[i] == p;
    assert key(ps[i]) == key(p);
    forall k | k in m ensures p in m[k] <==> k == key(p) {
      assert InSession(key, k)(p) == (key(p) == k);
    }
  }
}
