/** The capture-filter expression handed to the external capture tool: an
    optional protocol clause looked up by application name, then the host. */
module CaptureFilter {
  import opened Wrappers

  /** Application name to protocol clause, as the program's table has it. */
  const AppFilters: map<string, string> := map[
    "ftp" := "tcp port 21",
    "http" := "tcp port 80",
    "telnet" := "tcp port 23",
    "HTTP" := "tcp port 80",
    "DNS" := "tcp port 53",
    "ICMP" := "tcp port 8"]

  /** The protocol clauses of the table, in the order the parser tries them. */
  const Clauses: seq<string> := ["tcp port 21", "tcp port 80", "tcp port 23", "tcp port 53", "tcp port 8"]

  /** The clause list holds exactly the table's clauses. */
  lemma ClausesAreTableValues()
    ensures (set c | c in Clauses) == AppFilters.Values
  {
    assert AppFilters["ftp"] == Clauses[0] && AppFilters["http"] == Clauses[1];
    assert AppFilters["telnet"] == Clauses[2] && AppFilters["DNS"] == Clauses[3];
    assert AppFilters["ICMP"] == Clauses[4];
  }

  const HostPrefix: string := "host "
  const AndHost: string := " and host "

  /** Looking up an application the table does not have raises. */
  datatype BuildError = UnknownApplication(name: string)

  /** Python truthiness of the optional application name. */
  predicate GivenApplication(application: Option<string>)
  {
    application.Some? && application.value != ""
  }

  /** The filter expression for `application` (if given) and host `ip`. */
  function PacketFilter(application: Option<string>, ip: string): (r: Result<string, BuildError>)
    ensures r.Failure? <==> GivenApplication(application) && application.value !in AppFilters
    ensures r.Success? ==> IsSuffix(HostPrefix + ip, r.value)
  {
    if GivenApplication(application) then
      var app := application.value;
      if app in AppFilters then
        var f := AppFilters[app] + AndHost + ip;
        assert f == AppFilters[app] + " and " + (HostPrefix + ip);
        Success(f)
      else Failure(UnknownApplication(app))
    else Success(HostPrefix + ip)
  }

  predicate IsPrefix(p: string, s: string)
  {
    |p| <= |s| && s[..|p|] == p
  }

  predicate IsSuffix(p: string, s: string)
  {
    |p| <= |s| && s[|s| - |p|..] == p
  }

  /** The first clause of `cs` followed by " and host " that starts `f`. */
  function ClauseOf(f: string, cs: seq<string>): (r: Option<string>)
    ensures r.Some? ==> r.value in cs && IsPrefix(r.value + AndHost, f)
  {
    if cs == [] then None
    else if IsPrefix(cs[0] + AndHost, f) then Some(cs[0])
    else ClauseOf(f, cs[1..])
  }

  /** Splits a filter expression into its protocol clause (if any) and its
      host. */
  function ParsePacketFilter(f: string): Option<(Option<string>, string)>
  {
    if IsPrefix(HostPrefix, f) then Some((None, f[|HostPrefix|..]))
    else match ClauseOf(f, Clauses)
      case Some(c) => Some((Some(c), f[|c + AndHost|..]))
      case None => None
  }

  /** The filter expression is recovered by the parser: the host and the
      table's clause for the given application. */
  lemma ParseBuild(application: Option<string>, ip: string)
    requires PacketFilter(application, ip).Success?
    ensures ParsePacketFilter(PacketFilter(application, ip).value) ==
              Some((if GivenApplication(application) then Some(AppFilters[application.value]) else None, ip))
  {
    var f := PacketFilter(application, ip).value;
    if GivenApplication(application) {
      var v := AppFilters[application.value];
      assert f == (v + AndHost) + ip;
      assert f[0] == v[0] == 't';
      ClauseOfBuilt(v, ip);
      assert f[|v + AndHost|..] == ip;
    } else {
      assert f[..|HostPrefix|] == HostPrefix;
      assert f[|HostPrefix|..] == ip;
    }
  }

  /** Whether a string no longer than `a` starts `a + b` depends on `a`
      alone. */
  lemma PrefixOfConcat(p: string, a: string, b: string)
    requires |p| <= |a|
    ensures IsPrefix(p, a + b) <==> IsPrefix(p, a)
  {
    assert (a + b)[..|p|] == a[..|p|];
  }

  /** The parser finds the clause a filter was built from: every clause
      tried before it differs from the filter at the port digits. */
  lemma ClauseOfBuilt(v: string, ip: string)
    requires v in AppFilters.Values
    ensures ClauseOf(v + AndHost + ip, Clauses) == Some(v)
  {
    var f := v + AndHost + ip;
    assert f == (v + AndHost) + ip;
    assert f[9] == v[9] && f[10] == (v + AndHost)[10];
    PrefixOfConcat(v + AndHost, v + AndHost, ip);
    var c21, c80, c23, c53 := Clauses[0] + AndHost, Clauses[1] + AndHost, Clauses[2] + AndHost, Clauses[3] + AndHost;
    assert c21[9] == '2' && c21[10] == '1';
    assert c80[9] == '8' && c80[10] == '0';
    assert c23[9] == '2';
    assert c53[9] == '5';
    if v == Clauses[0] {
      FirstClause(f, Clauses, 0);
    } else if v == Clauses[1] {
      NotPrefixAt(c21, f, 9);
      FirstClause(f, Clauses, 1);
    } else if v == Clauses[2] {
      NotPrefixAt(c21, f, 10);
      NotPrefixAt(c80, f, 9);
      FirstClause(f, Clauses, 2);
    } else if v == Clauses[3] {
      NotPrefixAt(c21, f, 9);
      NotPrefixAt(c80, f, 9);
      NotPrefixAt(c23, f, 9);
      FirstClause(f, Clauses, 3);
    } else {
      assert v == Clauses[4];
      NotPrefixAt(c21, f, 9);
      NotPrefixAt(c80, f, 10);
      NotPrefixAt(c23, f, 9);
      NotPrefixAt(c53, f, 9);
      FirstClause(f, Clauses, 4);
    }
  }

  lemma NotPrefixAt(p: string, s: string, d: nat)
    requires d < |p| && d < |s| && p[d] != s[d]
    ensures !IsPrefix(p, s)
  {
  }

  /** ClauseOf returns the `i`-th clause when it is the first one that,
      followed by " and host ", starts `f`. */
  lemma {:induction false} FirstClause(f: string, cs: seq<string>, i: nat)
    requires i < |cs| && IsPrefix(cs[i] + AndHost, f)
    requires forall j :: 0 <= j < i ==> !IsPrefix(cs[j] + AndHost, f)
    ensures ClauseOf(f, cs) == Some(cs[i])
    decreases i
  {
    if i > 0 {
      assert !IsPrefix(cs[0] + AndHost, f);
      FirstClause(f, cs[1..], i - 1);
    }
  }
}
