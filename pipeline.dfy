/** runDNS and runIpInfo: the hostnames are resolved to a list of distinct addresses
    with a reverse map, and each address is looked up at ipinfo.io. */
module Pipeline {
  import opened Types
  import opened Dns
  import opened Pool
  import opened Remote

  /** `host` resolved without error, and `ip` is among its addresses. */
  predicate ResolvesTo(lookupHost: string -> LookupResult, host: string, ip: string)
  {
    lookupHost(host).err.None? && ip in lookupHost(host).addresses
  }

  /** Some hostname of `hostnames` resolves to `ip`. */
  predicate Resolves(lookupHost: string -> LookupResult, hostnames: seq<string>, ip: string)
  {
    exists h :: h in hostnames && ResolvesTo(lookupHost, h, ip)
  }

  /** The successful replies list exactly the addresses some hostname resolves to, whatever
      the order in which the replies arrived. */
  lemma ResolvedAddresses(lookupHost: string -> LookupResult, hostnames: seq<string>, received: seq<string>, ip: string)
    requires multiset(received) == multiset(hostnames)
    ensures ip in Flatten(Successes(Replies(lookupHost, received))) <==> Resolves(lookupHost, hostnames, ip)
  {
    FlattenMembers(Successes(Replies(lookupHost, received)), ip);
    if ip in Flatten(Successes(Replies(lookupHost, received))) {
      ResolvedSound(lookupHost, hostnames, received, ip);
    }
    if Resolves(lookupHost, hostnames, ip) {
      ResolvedComplete(lookupHost, hostnames, received, ip);
    }
  }

  /** An address listed by a successful reply is one some hostname resolves to. */
  lemma ResolvedSound(lookupHost: string -> LookupResult, hostnames: seq<string>, received: seq<string>, ip: string)
    requires multiset(received) == multiset(hostnames)
    requires exists k :: 0 <= k < |Successes(Replies(lookupHost, received))| && ip in Successes(Replies(lookupHost, received))[k].addresses
    ensures Resolves(lookupHost, hostnames, ip)
  {
    var rs := Replies(lookupHost, received);
    var good := Successes(rs);
    var k :| 0 <= k < |good| && ip in good[k].addresses;
    SuccessesMember(rs, good[k]);
    var i :| 0 <= i < |rs| && rs[i] == good[k];
    assert received[i] in multiset(hostnames);
    assert ResolvesTo(lookupHost, received[i], ip);
  }

  /** An address some hostname resolves to is listed by a successful reply. */
  lemma ResolvedComplete(lookupHost: string -> LookupResult, hostnames: seq<string>, received: seq<string>, ip: string)
    requires multiset(received) == multiset(hostnames)
    requires Resolves(lookupHost, hostnames, ip)
    ensures exists k :: 0 <= k < |Successes(Replies(lookupHost, received))| && ip in Successes(Replies(lookupHost, received))[k].addresses
  {
    var rs := Replies(lookupHost, received);
    var good := Successes(rs);
    var h :| h in hostnames && ResolvesTo(lookupHost, h, ip);
    assert h in multiset(received);
    var i :| 0 <= i < |received| && received[i] == h;
    assert rs[i] in rs;
    SuccessesMember(rs, rs[i]);
    var k :| 0 <= k < |good| && good[k] == rs[i];
    assert ip in good[k].addresses;
  }

  /** The hostname the reverse map gives for an address is one that resolved to it. */
  lemma ReverseHost(lookupHost: string -> LookupResult, hostnames: seq<string>, good: seq<DnsResponse>, ip: string, host: string)
    requires forall r :: r in good ==> r.err.None? && r.hostname in hostnames && r == WorkDns(lookupHost, r.hostname)
    requires FirstHost(good, ip) == Some(host)
    ensures host in hostnames && ResolvesTo(lookupHost, host, ip)
  {
    var k := FirstReply(good, ip);
    assert good[k] in good;
  }

  /** runDNS: resolve every hostname with `workers` workers, then keep each address once,
      in order of arrival, with the hostname of the first successful reply that listed
      it. */
  method RunDns(workers: int, hostnames: seq<string>, lookupHost: string -> LookupResult, sched: Schedule)
    returns (ipAddrs: seq<string>, reverseIP: map<string, string>, deadlocked: bool, ghost received: seq<string>)
    ensures deadlocked <==> workers <= 0 && hostnames != []
    ensures !deadlocked ==> multiset(received) == multiset(hostnames)
    ensures !deadlocked ==> ipAddrs == Dedup(Flatten(Successes(Replies(lookupHost, received))))
    ensures workers == 1 ==> ipAddrs == Dedup(Flatten(Successes(Replies(lookupHost, hostnames))))
    ensures NoDuplicates(ipAddrs)
    ensures !deadlocked ==> forall ip :: ip in ipAddrs <==> Resolves(lookupHost, hostnames, ip)
    ensures forall ip :: ip in reverseIP <==> ip in ipAddrs
    ensures |reverseIP| == |ipAddrs|
    ensures !deadlocked ==> forall ip :: ip in reverseIP ==>
      FirstHost(Successes(Replies(lookupHost, received)), ip) == Some(reverseIP[ip])
    ensures !deadlocked ==> forall ip :: ip in reverseIP ==>
      reverseIP[ip] in hostnames && ResolvesTo(lookupHost, reverseIP[ip], ip)
  {
    var ipm, errors;
    ipm, errors, deadlocked, received := ResolveAllDns(workers, hostnames, lookupHost, sched);
    if deadlocked {
      return [], map[], true, received;
    }
    ipAddrs, reverseIP := Aggregate(ipm);
    DedupNoDuplicates(Flatten(ipm));
    DedupMembers(Flatten(ipm));
    forall ip
      ensures ip in ipAddrs <==> Resolves(lookupHost, hostnames, ip)
    {
      ResolvedAddresses(lookupHost, hostnames, received, ip);
    }
    forall ip | ip in reverseIP
      ensures reverseIP[ip] in hostnames && ResolvesTo(lookupHost, reverseIP[ip], ip)
    {
      ReverseHost(lookupHost, hostnames, ipm, ip, reverseIP[ip]);
    }
    DistinctKeys(ipAddrs, reverseIP);
  }

  /** runIpInfo: look up every address with `workers` workers and collect the records in
      the order they arrive. */
  method RunIpInfo(workers: int, ipAddrs: seq<string>, fetch: string -> Option<IpInfoResult>, sched: Schedule)
    returns (ipInfo: seq<IpInfoResult>, deadlocked: bool, ghost queried: seq<string>)
    ensures deadlocked <==> workers <= 0 && ipAddrs != []
    ensures !deadlocked ==> multiset(queried) == multiset(ipAddrs)
    ensures workers == 1 ==> queried == ipAddrs
    ensures !deadlocked ==> |ipInfo| == |ipAddrs|
    ensures |ipInfo| == |queried| && forall i :: 0 <= i < |ipInfo| ==> ipInfo[i] == CallRemoteService(queried[i], fetch)
    ensures forall i :: 0 <= i < |ipInfo| && fetch(ServiceUrl(queried[i])).None? ==> ipInfo[i] == EmptyIpInfo
    ensures !deadlocked && NoDuplicates(ipAddrs) ==> forall ip :: ip in ipAddrs ==> multiset(queried)[ip] == 1
    ensures !deadlocked && NoDuplicates(ipAddrs) ==>
      forall i, j :: 0 <= i < j < |queried| ==> ServiceUrl(queried[i]) != ServiceUrl(queried[j])
  {
    ipInfo, deadlocked, queried := ResolveAllIpInfo(workers, ipAddrs, ip => CallRemoteService(ip, fetch), sched);
    if !deadlocked && NoDuplicates(ipAddrs) {
      forall ip | ip in ipAddrs
        ensures multiset(queried)[ip] == 1
      {
        DistinctOnce(ipAddrs, ip);
      }
      PermutedDistinct(queried, ipAddrs);
      DistinctUrls(queried);
    }
  }

  /** Distinct addresses are requested at pairwise different URLs, so no address's record
      is fetched from another address's URL. */
  lemma DistinctUrls(ips: seq<string>)
    requires NoDuplicates(ips)
    ensures forall i, j :: 0 <= i < j < |ips| ==> ServiceUrl(ips[i]) != ServiceUrl(ips[j])
  {
    forall i, j | 0 <= i < j < |ips|
      ensures ServiceUrl(ips[i]) != ServiceUrl(ips[j])
    {
      if ServiceUrl(ips[i]) == ServiceUrl(ips[j]) {
        ServiceUrlInjective(ips[i], ips[j]);
      }
    }
  }

  /** A map whose keys are the elements of a list without repetitions has as many keys as
      the list has elements. */
  lemma {:induction false} DistinctKeys(s: seq<string>, m: map<string, string>)
    requires NoDuplicates(s)
    requires forall x :: x in m <==> x in s
    ensures |m| == |s|
  {
    if s == [] {
      assert m.Keys == {};
    } else {
      var p := s[..|s| - 1];
      var x := s[|s| - 1];
      assert x !in p;
      DistinctKeys(p, m - {x});
    }
  }
}
