/** The aggregation half of runDNS: from the successful DNS replies, the list of distinct
    addresses (in order of first appearance) and the map from each address to the
    hostname of the first reply that listed it. */
module Dns {
  import opened Types

  /** stringInSlice: whether `a` is an element of `list`. */
  method StringInSlice(a: string, list: seq<string>) returns (found: bool)
    ensures found <==> a in list
  {
    for i := 0 to |list|
      invariant a !in list[..i]
    {
      if list[i] == a {
        return true;
      }
    }
    return false;
  }

  /** No element occurs twice. */
  predicate NoDuplicates(s: seq<string>)
  {
    forall i, j :: 0 <= i < j < |s| ==> s[i] != s[j]
  }

  /** The offset of the first occurrence of `x` in `s`. */
  function FirstIndex(s: seq<string>, x: string): (k: nat)
    requires x in s
    ensures k < |s| && s[k] == x && x !in s[..k]
  {
    if s[0] == x then 0
    else
      var k := FirstIndex(s[1..], x);
      assert s[..k + 1] == [s[0]] + s[1..][..k];
      k + 1
  }

  /** All addresses of the replies, reply after reply. */
  function Flatten(replies: seq<DnsResponse>): seq<string>
  {
    if replies == [] then []
    else Flatten(replies[..|replies| - 1]) + replies[|replies| - 1].addresses
  }

  /** The addresses of `s` with every repetition dropped, keeping each first occurrence. */
  function Dedup(s: seq<string>): seq<string>
  {
    if s == [] then []
    else
      var d := Dedup(s[..|s| - 1]);
      if s[|s| - 1] in d then d else d + [s[|s| - 1]]
  }

  /** The hostname of the first reply that lists `ip`, if any reply does. */
  function FirstHost(replies: seq<DnsResponse>, ip: string): Option<string>
  {
    if replies == [] then None
    else
      var earlier := FirstHost(replies[..|replies| - 1], ip);
      if earlier.Some? then earlier
      else if ip in replies[|replies| - 1].addresses then Some(replies[|replies| - 1].hostname)
      else None
  }

  /** `ipAddrs` and `reverseIP` are what runDNS makes of the replies `rs`. */
  ghost predicate Summarises(ipAddrs: seq<string>, reverseIP: map<string, string>, rs: seq<DnsResponse>)
  {
    && ipAddrs == Dedup(Flatten(rs))
    && (forall ip :: ip in reverseIP <==> ip in ipAddrs)
    && (forall ip :: ip in reverseIP ==> FirstHost(rs, ip) == Some(reverseIP[ip]))
  }

  /** The replies before `val`, followed by `val` cut down to its first `j` addresses. */
  function Partial(done: seq<DnsResponse>, val: DnsResponse, j: nat): seq<DnsResponse>
    requires j <= |val.addresses|
  {
    done + [val.(addresses := val.addresses[..j])]
  }

  /** The aggregation loop of runDNS over the replies the DNS collector accepted: each
      address not seen before is appended to ipAddrs and mapped to its reply's hostname. */
  method Aggregate(replies: seq<DnsResponse>) returns (ipAddrs: seq<string>, reverseIP: map<string, string>)
    ensures ipAddrs == Dedup(Flatten(replies))
    ensures forall ip :: ip in reverseIP <==> ip in ipAddrs
    ensures forall ip :: ip in reverseIP ==> FirstHost(replies, ip) == Some(reverseIP[ip])
    ensures NoDuplicates(Flatten(replies)) ==> ipAddrs == Flatten(replies)
  {
    ipAddrs := [];
    reverseIP := map[];
    for i := 0 to |replies|
      invariant Summarises(ipAddrs, reverseIP, replies[..i])
    {
      var val := replies[i];
      PartialStart(replies[..i], val);
      for j := 0 to |val.addresses|
        invariant Summarises(ipAddrs, reverseIP, Partial(replies[..i], val, j))
      {
        var ip := val.addresses[j];
        var dup := StringInSlice(ip, ipAddrs);
        if dup {
          SummarisesSkip(ipAddrs, reverseIP, replies[..i], val, j);
          continue;
        }
        SummarisesAdd(ipAddrs, reverseIP, replies[..i], val, j);
        ipAddrs := ipAddrs + [ip];
        reverseIP := reverseIP[ip := val.hostname];
      }
      PartialEnd(replies, i);
    }
    assert replies[..|replies|] == replies;
    if NoDuplicates(Flatten(replies)) {
      DedupOfDistinct(Flatten(replies));
    }
  }

  /** Before any address of `val` is taken, the partial list summarises like `done`. */
  lemma PartialStart(done: seq<DnsResponse>, val: DnsResponse)
    ensures Flatten(Partial(done, val, 0)) == Flatten(done)
    ensures forall ip :: FirstHost(Partial(done, val, 0), ip) == FirstHost(done, ip)
  {
    assert Partial(done, val, 0)[..|done|] == done;
  }

  /** With all its addresses taken, the partial list is the next prefix of the replies. */
  lemma PartialEnd(replies: seq<DnsResponse>, i: nat)
    requires i < |replies|
    ensures Partial(replies[..i], replies[i], |replies[i].addresses|) == replies[..i + 1]
  {
    var val := replies[i];
    assert val.(addresses := val.addresses[..|val.addresses|]) == val;
  }

  /** Taking one more address of `val` appends it to the flattened list. */
  lemma PartialFlatten(done: seq<DnsResponse>, val: DnsResponse, j: nat)
    requires j < |val.addresses|
    ensures Flatten(Partial(done, val, j + 1)) == Flatten(Partial(done, val, j)) + [val.addresses[j]]
  {
    assert Partial(done, val, j)[..|done|] == done && Partial(done, val, j + 1)[..|done|] == done;
    assert val.addresses[..j + 1] == val.addresses[..j] + [val.addresses[j]];
  }

  /** Taking one more address of `val` gives that address the hostname of `val` unless it
      already had one, and changes no other address's hostname. */
  lemma PartialFirstHost(done: seq<DnsResponse>, val: DnsResponse, j: nat, x: string)
    requires j < |val.addresses|
    ensures FirstHost(Partial(done, val, j + 1), x) ==
      if FirstHost(Partial(done, val, j), x).Some? then FirstHost(Partial(done, val, j), x)
      else if x == val.addresses[j] then Some(val.hostname)
      else None
  {
    assert Partial(done, val, j)[..|done|] == done && Partial(done, val, j + 1)[..|done|] == done;
    assert val.addresses[..j + 1] == val.addresses[..j] + [val.addresses[j]];
  }

  /** An address already listed changes nothing: the summary carries over. */
  lemma SummarisesSkip(ipAddrs: seq<string>, reverseIP: map<string, string>, done: seq<DnsResponse>, val: DnsResponse, j: nat)
    requires j < |val.addresses| && val.addresses[j] in ipAddrs
    requires Summarises(ipAddrs, reverseIP, Partial(done, val, j))
    ensures Summarises(ipAddrs, reverseIP, Partial(done, val, j + 1))
  {
    var before := Partial(done, val, j);
    assert Dedup(Flatten(Partial(done, val, j + 1))) == ipAddrs by {
      var f := Flatten(before) + [val.addresses[j]];
      PartialFlatten(done, val, j);
      assert f[..|f| - 1] == Flatten(before);
    }
    forall x | x in reverseIP
      ensures FirstHost(Partial(done, val, j + 1), x) == Some(reverseIP[x])
    {
      PartialFirstHost(done, val, j, x);
    }
  }

  /** A new address is appended to ipAddrs and mapped to the hostname of `val`. */
  lemma SummarisesAdd(ipAddrs: seq<string>, reverseIP: map<string, string>, done: seq<DnsResponse>, val: DnsResponse, j: nat)
    requires j < |val.addresses| && val.addresses[j] !in ipAddrs
    requires Summarises(ipAddrs, reverseIP, Partial(done, val, j))
    ensures Summarises(ipAddrs + [val.addresses[j]], reverseIP[val.addresses[j] := val.hostname], Partial(done, val, j + 1))
  {
    var before := Partial(done, val, j);
    var ip := val.addresses[j];
    var m := reverseIP[ip := val.hostname];
    assert Dedup(Flatten(Partial(done, val, j + 1))) == ipAddrs + [ip] by {
      var f := Flatten(before) + [ip];
      PartialFlatten(done, val, j);
      assert f[..|f| - 1] == Flatten(before);
    }
    forall x | x in m
      ensures FirstHost(Partial(done, val, j + 1), x) == Some(m[x])
    {
      PartialFirstHost(done, val, j, x);
      if x == ip {
        DedupMembers(Flatten(before));
        FirstHostDefined(before);
      }
    }
  }

  /** Dedup keeps exactly the elements of its argument. */
  lemma {:induction false} DedupMembers(s: seq<string>)
    ensures forall x :: x in Dedup(s) <==> x in s
  {
    if s != [] {
      DedupMembers(s[..|s| - 1]);
      assert s == s[..|s| - 1] + [s[|s| - 1]];
    }
  }

  /** Some reply gives `ip` a first hostname exactly when `ip` is among the replies' addresses. */
  lemma {:induction false} FirstHostDefined(rs: seq<DnsResponse>)
    ensures forall ip :: FirstHost(rs, ip).Some? <==> ip in Flatten(rs)
  {
    if rs != [] {
      FirstHostDefined(rs[..|rs| - 1]);
    }
  }

  /** The first occurrence is the one with no earlier copy. */
  lemma FirstIndexAt(s: seq<string>, x: string, k: nat)
    requires k < |s| && s[k] == x && x !in s[..k]
    ensures FirstIndex(s, x) == k
  {
  }

  /** Appending never moves the first occurrence of an element already present. */
  lemma FirstIndexPrefix(p: seq<string>, q: seq<string>, x: string)
    requires x in p
    ensures FirstIndex(p + q, x) == FirstIndex(p, x)
  {
    var k := FirstIndex(p, x);
    assert (p + q)[..k] == p[..k];
    FirstIndexAt(p + q, x, k);
  }

  /** The list Dedup builds holds no address twice. */
  lemma {:induction false} DedupNoDuplicates(s: seq<string>)
    ensures NoDuplicates(Dedup(s))
  {
    if s != [] {
      DedupNoDuplicates(s[..|s| - 1]);
    }
  }

  /** The elements of `d` are elements of `s`, listed in the order of their first
      occurrence in `s`. */
  predicate InFirstSeenOrder(d: seq<string>, s: seq<string>)
  {
    forall i, j :: 0 <= i < j < |d| ==> d[i] in s && d[j] in s && FirstIndex(s, d[i]) < FirstIndex(s, d[j])
  }

  /** Dedup lists the addresses in the order of their first appearance. */
  lemma {:induction false} DedupOrder(s: seq<string>)
    ensures InFirstSeenOrder(Dedup(s), s)
  {
    if s != [] {
      var p := s[..|s| - 1];
      var x := s[|s| - 1];
      assert s == p + [x];
      DedupOrder(p);
      DedupMembers(p);
      DedupMembers(s);
      var d := Dedup(s);
      var dp := Dedup(p);
      assert d == if x in dp then dp else dp + [x];
      forall i, j | 0 <= i < j < |d|
        ensures d[i] in s && d[j] in s && FirstIndex(s, d[i]) < FirstIndex(s, d[j])
      {
        assert d[i] == dp[i];
        FirstIndexPrefix(p, [x], d[i]);
        if j < |dp| {
          assert d[j] == dp[j];
          FirstIndexPrefix(p, [x], d[j]);
        } else {
          assert d[j] == x && x !in p;
          FirstIndexAt(s, x, |s| - 1);
        }
      }
    }
  }

  /** A list without repetitions is its own Dedup. */
  lemma {:induction false} DedupOfDistinct(s: seq<string>)
    requires NoDuplicates(s)
    ensures Dedup(s) == s
  {
    if s != [] {
      var p := s[..|s| - 1];
      DedupOfDistinct(p);
      DedupMembers(p);
      assert s[|s| - 1] !in p;
      assert s == p + [s[|s| - 1]];
    }
  }

  /** An address lies in the flattened list exactly when some reply lists it. */
  lemma {:induction false} FlattenMembers(rs: seq<DnsResponse>, ip: string)
    ensures ip in Flatten(rs) <==> exists k :: 0 <= k < |rs| && ip in rs[k].addresses
  {
    if rs != [] {
      var p := rs[..|rs| - 1];
      FlattenMembers(p, ip);
      if ip in Flatten(p) {
        var k :| 0 <= k < |p| && ip in p[k].addresses;
        assert rs[k] == p[k];
      }
      forall k | 0 <= k < |p| ensures rs[k] == p[k] { }
    }
  }

  /** reverseIP[ip] is the hostname of the first reply that lists `ip`. */
  lemma {:induction false} FirstHostAt(rs: seq<DnsResponse>, ip: string, k: nat)
    requires k < |rs| && ip in rs[k].addresses
    requires forall j :: 0 <= j < k ==> ip !in rs[j].addresses
    ensures FirstHost(rs, ip) == Some(rs[k].hostname)
  {
    var p := rs[..|rs| - 1];
    if k == |rs| - 1 {
      FirstHostDefined(p);
      FlattenMembers(p, ip);
    } else {
      FirstHostAt(p, ip, k);
    }
  }

  /** Later replies never overwrite the hostname an address was first mapped to. */
  lemma FirstHostStable(rs: seq<DnsResponse>, more: seq<DnsResponse>, ip: string)
    requires FirstHost(rs, ip).Some?
    ensures FirstHost(rs + more, ip) == FirstHost(rs, ip)
  {
    var k := FirstReply(rs, ip);
    forall j | 0 <= j <= k ensures (rs + more)[j] == rs[j] { }
    FirstHostAt(rs + more, ip, k);
  }

  /** The offset of the first reply listing `ip`, where FirstHost took its hostname. */
  function FirstReply(rs: seq<DnsResponse>, ip: string): (k: nat)
    requires FirstHost(rs, ip).Some?
    ensures k < |rs| && ip in rs[k].addresses && FirstHost(rs, ip) == Some(rs[k].hostname)
    ensures forall j :: 0 <= j < k ==> ip !in rs[j].addresses
  {
    var p := rs[..|rs| - 1];
    if FirstHost(p, ip).Some? then
      var k := FirstReply(p, ip);
      assert rs[k] == p[k];
      assert forall j :: 0 <= j < k ==> rs[j] == p[j];
      k
    else
      FirstHostDefined(p);
      FlattenMembers(p, ip);
      assert forall j :: 0 <= j < |p| ==> rs[j] == p[j];
      |rs| - 1
  }

  /** In a list without repetitions each element occurs exactly once. */
  lemma {:induction false} DistinctOnce(s: seq<string>, x: string)
    requires NoDuplicates(s) && x in s
    ensures multiset(s)[x] == 1
  {
    var p := s[..|s| - 1];
    assert s == p + [s[|s| - 1]];
    if x == s[|s| - 1] {
      assert x !in p;
    } else {
      DistinctOnce(p, x);
    }
  }

  /** A reordering of a list without repetitions has none either. */
  lemma PermutedDistinct(a: seq<string>, b: seq<string>)
    requires multiset(a) == multiset(b) && NoDuplicates(b)
    ensures NoDuplicates(a)
  {
    forall i, j | 0 <= i < j < |a|
      ensures a[i] != a[j]
    {
      if a[i] == a[j] {
        var x := a[i];
        assert a == a[..j] + [a[j]] + a[j + 1..];
        assert x in a[..j];
        assert multiset(a)[x] >= 2;
        assert x in multiset(b);
        DistinctOnce(b, x);
        assert false;
      }
    }
  }
}
