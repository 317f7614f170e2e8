/** The collecting loops of resolveAllDNS and resolveAllIpInfo. The worker goroutines and
    the channels are abstracted: a send hands the head of the work list to an idle worker,
    a receive takes the reply of one busy worker, and which of the two happens, and which
    worker answers, is left to a schedule that the guarantees quantify over. */
module Pool {
  import opened Types

  /** The runtime's choices in the collector's `select`: at step n, whether the send case
      wins when both cases are ready, and which busy worker's reply arrives (an index taken
      modulo the number of busy workers). */
  datatype Schedule = Schedule(preferSend: nat -> bool, pick: nat -> nat)

  /** workDNS: the reply a DNS worker sends after looking up one hostname. */
  function WorkDns(lookupHost: string -> LookupResult, hostname: string): DnsResponse
  {
    DnsResponse(hostname, lookupHost(hostname).addresses, lookupHost(hostname).err)
  }

  /** The replies to `hosts`, in that order. */
  function Replies(lookupHost: string -> LookupResult, hosts: seq<string>): (rs: seq<DnsResponse>)
    ensures |rs| == |hosts|
    ensures forall i :: 0 <= i < |hosts| ==> rs[i] == WorkDns(lookupHost, hosts[i])
  {
    if hosts == [] then []
    else Replies(lookupHost, hosts[..|hosts| - 1]) + [WorkDns(lookupHost, hosts[|hosts| - 1])]
  }

  /** The replies without an error, in order (what resolveAllDNS files in allDnsReplies). */
  function Successes(rs: seq<DnsResponse>): seq<DnsResponse>
  {
    if rs == [] then []
    else
      var earlier := Successes(rs[..|rs| - 1]);
      if rs[|rs| - 1].err.None? then earlier + [rs[|rs| - 1]] else earlier
  }

  /** The errors of the failed replies, in order (what resolveAllDNS files in errors). */
  function Failures(rs: seq<DnsResponse>): seq<Error>
  {
    if rs == [] then []
    else
      var earlier := Failures(rs[..|rs| - 1]);
      if rs[|rs| - 1].err.Some? then earlier + [rs[|rs| - 1].err.value] else earlier
  }

  /** Every reply goes to exactly one of the two lists: the successes are the replies
      without an error, the failures carry the errors of the others. */
  lemma Partition(rs: seq<DnsResponse>)
    ensures |Successes(rs)| + |Failures(rs)| == |rs|
    ensures forall r :: r in Successes(rs) <==> r in rs && r.err.None?
    ensures forall e :: e in Failures(rs) <==> Some(e) in ErrorsOf(rs)
  {
    PartitionLength(rs);
    forall r
      ensures r in Successes(rs) <==> r in rs && r.err.None?
    {
      SuccessesMember(rs, r);
    }
    forall e
      ensures e in Failures(rs) <==> Some(e) in ErrorsOf(rs)
    {
      FailuresMember(rs, e);
    }
  }

  /** Each reply is counted in exactly one of the two lists. */
  lemma {:induction false} PartitionLength(rs: seq<DnsResponse>)
    ensures |Successes(rs)| + |Failures(rs)| == |rs|
  {
    if rs != [] {
      PartitionLength(rs[..|rs| - 1]);
    }
  }

  /** The successes are exactly the replies without an error. */
  lemma {:induction false} SuccessesMember(rs: seq<DnsResponse>, r: DnsResponse)
    ensures r in Successes(rs) <==> r in rs && r.err.None?
  {
    if rs != [] {
      var p := rs[..|rs| - 1];
      SuccessesMember(p, r);
      assert rs == p + [rs[|rs| - 1]];
    }
  }

  /** The failures carry exactly the errors of the replies that have one. */
  lemma {:induction false} FailuresMember(rs: seq<DnsResponse>, e: Error)
    ensures e in Failures(rs) <==> Some(e) in ErrorsOf(rs)
  {
    if rs != [] {
      var p := rs[..|rs| - 1];
      FailuresMember(p, e);
      assert ErrorsOf(rs) == ErrorsOf(p) + [rs[|rs| - 1].err];
    }
  }

  /** The `err` fields of the replies. */
  function ErrorsOf(rs: seq<DnsResponse>): (es: seq<Option<Error>>)
    ensures |es| == |rs| && forall i :: 0 <= i < |rs| ==> es[i] == rs[i].err
  {
    if rs == [] then [] else ErrorsOf(rs[..|rs| - 1]) + [rs[|rs| - 1].err]
  }

  /** The bookkeeping of a collector loop over the list `all`: `sent` has been handed out
      and `work` remains; of what was sent, `inFlight` is held by busy workers
      (`waitingFor` of them, never more than there are workers) and `received` has come
      back. Without workers nothing is ever sent. With a single worker, replies come back
      in the order the items were sent. */
  ghost predicate Bookkeeping(all: seq<string>, workers: int, sent: seq<string>, work: seq<string>,
                              waitingFor: int, inFlight: seq<string>, received: seq<string>)
  {
    && all == sent + work
    && 0 <= waitingFor == |inFlight|
    && waitingFor == |sent| - |received|
    && (workers > 0 ==> waitingFor <= workers)
    && (workers <= 0 ==> sent == [] && received == [])
    && multiset(sent) == multiset(inFlight) + multiset(received)
    && (workers == 1 ==> received + inFlight == sent)
  }

  /** The loop starts with nothing sent and nothing received. */
  lemma BookkeepingStart(all: seq<string>, workers: int)
    ensures Bookkeeping(all, workers, [], all, 0, [], [])
  {
    assert [] + all == all;
  }

  /** The send case (enabled while work remains and a worker is idle): the head of the
      work list goes to a worker and `waitingFor` grows by one. */
  lemma SendStep(all: seq<string>, workers: int, sent: seq<string>, work: seq<string>, waitingFor: int,
                 inFlight: seq<string>, received: seq<string>)
    requires Bookkeeping(all, workers, sent, work, waitingFor, inFlight, received)
    requires |work| > 0 && waitingFor < workers
    ensures Bookkeeping(all, workers, sent + [work[0]], work[1..], waitingFor + 1, inFlight + [work[0]], received)
  {
    assert work == [work[0]] + work[1..];
    assert all == (sent + [work[0]]) + work[1..];
  }

  /** The receive case (enabled while `waitingFor` > 0): the reply for the k-th busy
      worker's item comes back and `waitingFor` shrinks by one. */
  lemma ReceiveStep(all: seq<string>, workers: int, sent: seq<string>, work: seq<string>, waitingFor: int,
                    inFlight: seq<string>, received: seq<string>, k: nat)
    requires Bookkeeping(all, workers, sent, work, waitingFor, inFlight, received)
    requires k < |inFlight|
    ensures Bookkeeping(all, workers, sent, work, waitingFor - 1, inFlight[..k] + inFlight[k + 1..], received + [inFlight[k]])
  {
    assert inFlight == inFlight[..k] + [inFlight[k]] + inFlight[k + 1..];
    if workers == 1 {
      assert k == 0 && inFlight[..k] + inFlight[k + 1..] == [];
    }
  }

  /** The select has no ready case and no worker is busy: this happens only when there
      are no workers at all but work to hand out. */
  lemma Stuck(all: seq<string>, workers: int, sent: seq<string>, work: seq<string>, waitingFor: int,
              inFlight: seq<string>, received: seq<string>)
    requires Bookkeeping(all, workers, sent, work, waitingFor, inFlight, received)
    requires |work| > 0 && waitingFor == 0 && waitingFor >= workers
    ensures workers <= 0 && all != []
  {
  }

  /** The loop ends with an empty work list and nobody busy: every item was answered
      exactly once, and in sending order when there is a single worker. */
  lemma BookkeepingEnd(all: seq<string>, workers: int, sent: seq<string>, received: seq<string>)
    requires Bookkeeping(all, workers, sent, [], 0, [], received)
    ensures !(workers <= 0 && all != [])
    ensures multiset(received) == multiset(all)
    ensures |received| == |all|
    ensures workers == 1 ==> received == all
  {
    assert all == sent;
    assert received + [] == received;
  }

  /** The collector loop of resolveAllDNS. `received` is the order in which the replies
      arrived: a permutation of the hostnames, which depends on the schedule. When the
      `select` has no ready case and nobody is busy (no workers, but work to hand out), no
      other goroutine can ever make a case ready, and the Go runtime aborts the program
      with "all goroutines are asleep - deadlock!"; `deadlocked` reports that outcome,
      about which nothing else is promised. */
  method ResolveAllDns(workers: int, hostnames: seq<string>, lookupHost: string -> LookupResult, sched: Schedule)
    returns (allDnsReplies: seq<DnsResponse>, errors: seq<Error>, deadlocked: bool, ghost received: seq<string>)
    ensures deadlocked <==> workers <= 0 && hostnames != []
    ensures !deadlocked ==> multiset(received) == multiset(hostnames)
    ensures workers == 1 ==> received == hostnames
    ensures !deadlocked ==> allDnsReplies == Successes(Replies(lookupHost, received))
    ensures !deadlocked ==> errors == Failures(Replies(lookupHost, received))
    ensures !deadlocked ==> |allDnsReplies| + |errors| == |hostnames|
    ensures !deadlocked ==> (errors != [] <==> exists h :: h in hostnames && lookupHost(h).err.Some?)
    ensures !deadlocked ==> forall r :: r in allDnsReplies ==>
      r.err.None? && r.hostname in hostnames && r == WorkDns(lookupHost, r.hostname)
  {
    var work := hostnames;
    var waitingFor := 0;
    var inFlight: seq<string> := [];
    allDnsReplies := [];
    errors := [];
    deadlocked := false;
    received := [];
    ghost var sent: seq<string> := [];
    var step: nat := 0;
    BookkeepingStart(hostnames, workers);
    while |work| > 0 || waitingFor > 0
      invariant Bookkeeping(hostnames, workers, sent, work, waitingFor, inFlight, received)
      invariant Filed(lookupHost, received, allDnsReplies, errors)
      decreases 2 * |work| + waitingFor
    {
      var canSend := |work| > 0 && waitingFor < workers;
      if !canSend && waitingFor == 0 {
        // neither case of the select can ever become ready: the runtime aborts
        Stuck(hostnames, workers, sent, work, waitingFor, inFlight, received);
        deadlocked := true;
        return;
      }
      if canSend && (waitingFor == 0 || sched.preferSend(step)) {
        // case sendCh <- host
        SendStep(hostnames, workers, sent, work, waitingFor, inFlight, received);
        sent := sent + [work[0]];
        inFlight := inFlight + [work[0]];
        waitingFor := waitingFor + 1;
        work := work[1..];
      } else {
        // case dnsResponse := <-dnsResponseCh
        var k := sched.pick(step) % |inFlight|;
        var dnsResponse := WorkDns(lookupHost, inFlight[k]);
        ReceiveStep(hostnames, workers, sent, work, waitingFor, inFlight, received, k);
        FiledStep(lookupHost, received, inFlight[k], allDnsReplies, errors);
        received := received + [inFlight[k]];
        inFlight := inFlight[..k] + inFlight[k + 1..];
        waitingFor := waitingFor - 1;
        if dnsResponse.err != None {
          errors := errors + [dnsResponse.err.value];
        } else {
          allDnsReplies := allDnsReplies + [dnsResponse];
        }
      }
      step := step + 1;
    }
    BookkeepingEnd(hostnames, workers, sent, received);
    SuccessesAnswer(lookupHost, hostnames, received);
    SomeFailure(lookupHost, hostnames, received);
  }

  /** Once every hostname has been answered, in whatever order, each reply goes to one of
      the two lists, and each success is the reply to one of the hostnames. */
  lemma SuccessesAnswer(lookupHost: string -> LookupResult, hostnames: seq<string>, received: seq<string>)
    requires multiset(received) == multiset(hostnames)
    ensures |Successes(Replies(lookupHost, received))| + |Failures(Replies(lookupHost, received))| == |hostnames|
    ensures forall r :: r in Successes(Replies(lookupHost, received)) ==>
      r.err.None? && r.hostname in hostnames && r == WorkDns(lookupHost, r.hostname)
  {
    var rs := Replies(lookupHost, received);
    Partition(rs);
    assert |received| == |multiset(received)| == |hostnames|;
    forall r | r in Successes(rs)
      ensures r.err.None? && r.hostname in hostnames && r == WorkDns(lookupHost, r.hostname)
    {
      var i :| 0 <= i < |rs| && rs[i] == r;
      assert received[i] in multiset(hostnames);
    }
  }

  /** Some reply failed exactly when some hostname fails to resolve. */
  lemma SomeFailure(lookupHost: string -> LookupResult, hostnames: seq<string>, received: seq<string>)
    requires multiset(received) == multiset(hostnames)
    ensures Failures(Replies(lookupHost, received)) != [] <==> exists h :: h in hostnames && lookupHost(h).err.Some?
  {
    var rs := Replies(lookupHost, received);
    var es := ErrorsOf(rs);
    Partition(rs);
    if Failures(rs) != [] {
      var e := Failures(rs)[0];
      assert e in Failures(rs);
      var i :| 0 <= i < |es| && es[i] == Some(e);
      assert received[i] in multiset(hostnames);
      assert lookupHost(received[i]).err.Some?;
    }
    if exists h :: h in hostnames && lookupHost(h).err.Some? {
      var h :| h in hostnames && lookupHost(h).err.Some?;
      assert h in multiset(received);
      var i :| 0 <= i < |received| && received[i] == h;
      assert es[i] == Some(lookupHost(h).err.value);
      assert lookupHost(h).err.value in Failures(rs);
    }
  }

  /** The results of looking up `ips`, in that order. */
  function Lookups(lookup: string -> IpInfoResult, ips: seq<string>): (rs: seq<IpInfoResult>)
    ensures |rs| == |ips|
    ensures forall i :: 0 <= i < |ips| ==> rs[i] == lookup(ips[i])
  {
    if ips == [] then [] else Lookups(lookup, ips[..|ips| - 1]) + [lookup(ips[|ips| - 1])]
  }

  /** One more result, for `ip`, is appended after the earlier ones. */
  lemma LookupsSnoc(lookup: string -> IpInfoResult, ips: seq<string>, ip: string)
    ensures Lookups(lookup, ips + [ip]) == Lookups(lookup, ips) + [lookup(ip)]
  {
    assert (ips + [ip])[..|ips|] == ips;
  }

  /** The collector loop of resolveAllIpInfo: every reply is appended to iir. `queried`
      is the order in which the replies arrived, a permutation of the addresses. As in
      ResolveAllDns, `deadlocked` reports the runtime's deadlock abort. */
  method ResolveAllIpInfo(workers: int, ipAddrs: seq<string>, lookup: string -> IpInfoResult, sched: Schedule)
    returns (iir: seq<IpInfoResult>, deadlocked: bool, ghost queried: seq<string>)
    ensures deadlocked <==> workers <= 0 && ipAddrs != []
    ensures !deadlocked ==> multiset(queried) == multiset(ipAddrs)
    ensures workers == 1 ==> queried == ipAddrs
    ensures !deadlocked ==> |iir| == |queried| == |ipAddrs|
    ensures iir == Lookups(lookup, queried)
  {
    var work := ipAddrs;
    var waitingFor := 0;
    var inFlight: seq<string> := [];
    iir := [];
    deadlocked := false;
    queried := [];
    ghost var sent: seq<string> := [];
    var step: nat := 0;
    BookkeepingStart(ipAddrs, workers);
    while |work| > 0 || waitingFor > 0
      invariant Bookkeeping(ipAddrs, workers, sent, work, waitingFor, inFlight, queried)
      invariant iir == Lookups(lookup, queried)
      decreases 2 * |work| + waitingFor
    {
      var canSend := |work| > 0 && waitingFor < workers;
      if !canSend && waitingFor == 0 {
        // neither case of the select can ever become ready: the runtime aborts
        Stuck(ipAddrs, workers, sent, work, waitingFor, inFlight, queried);
        deadlocked := true;
        return;
      }
      if canSend && (waitingFor == 0 || sched.preferSend(step)) {
        // case sendCh <- ip
        SendStep(ipAddrs, workers, sent, work, waitingFor, inFlight, queried);
        sent := sent + [work[0]];
        inFlight := inFlight + [work[0]];
        waitingFor := waitingFor + 1;
        work := work[1..];
      } else {
        // case result := <-resultsCh
        var k := sched.pick(step) % |inFlight|;
        var result := lookup(inFlight[k]);
        ReceiveStep(ipAddrs, workers, sent, work, waitingFor, inFlight, queried, k);
        LookupsSnoc(lookup, queried, inFlight[k]);
        queried := queried + [inFlight[k]];
        inFlight := inFlight[..k] + inFlight[k + 1..];
        waitingFor := waitingFor - 1;
        iir := iir + [result];
      }
      step := step + 1;
    }
    BookkeepingEnd(ipAddrs, workers, sent, queried);
  }

  /** `allDnsReplies` and `errors` are the successes and the failures of the replies to
      `received`, in order. */
  ghost predicate Filed(lookupHost: string -> LookupResult, received: seq<string>,
                        allDnsReplies: seq<DnsResponse>, errors: seq<Error>)
  {
    allDnsReplies == Successes(Replies(lookupHost, received)) && errors == Failures(Replies(lookupHost, received))
  }

  /** One more reply, for `host`, is filed in exactly one of the two lists. */
  lemma FiledStep(lookupHost: string -> LookupResult, received: seq<string>, host: string,
                  allDnsReplies: seq<DnsResponse>, errors: seq<Error>)
    requires Filed(lookupHost, received, allDnsReplies, errors)
    ensures WorkDns(lookupHost, host).err.Some? ==>
      Filed(lookupHost, received + [host], allDnsReplies, errors + [WorkDns(lookupHost, host).err.value])
    ensures WorkDns(lookupHost, host).err.None? ==>
      Filed(lookupHost, received + [host], allDnsReplies + [WorkDns(lookupHost, host)], errors)
  {
    var hs := received + [host];
    assert hs[..|hs| - 1] == received;
    var rs := Replies(lookupHost, hs);
    assert rs[..|rs| - 1] == Replies(lookupHost, received);
  }
}
