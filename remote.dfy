/** callRemoteService: the address of the ipinfo.io query for one IP address, and the
    fallback to an empty record when the request fails. The HTTP request, reading the
    body and decoding the JSON are one opaque `fetch`. */
module Remote {
  import opened Types

  const ServiceHost := "https://ipinfo.io/"

  /** The query address: the JSON record of `ip`, or of the caller's own address when
      `ip` is empty. */
  function ServiceUrl(ip: string): (url: string)
    ensures |ip| == 0 ==> url == ServiceHost + "json"
    ensures |ip| > 0 ==> url == ServiceHost + ip + "/json"
  {
    var api := if |ip| == 0 then "json" else "/json";
    ServiceHost + ip + api
  }

  /** Different addresses are sent to different query addresses. */
  lemma ServiceUrlInjective(ip1: string, ip2: string)
    requires ServiceUrl(ip1) == ServiceUrl(ip2)
    ensures ip1 == ip2
  {
    if |ip1| > 0 && |ip2| > 0 {
      var n := |ServiceHost|;
      assert ServiceUrl(ip1)[n..] == ip1 + "/json";
      assert ServiceUrl(ip2)[n..] == ip2 + "/json";
      assert ip1 == (ip1 + "/json")[..|ip1|];
      assert ip2 == (ip2 + "/json")[..|ip2|];
    }
  }

  /** callRemoteService: the decoded record, or the zero record when the request or
      reading the reply fails. `fetch` stands for the request to the given address. */
  function CallRemoteService(ip: string, fetch: string -> Option<IpInfoResult>): (obj: IpInfoResult)
    ensures fetch(ServiceUrl(ip)).None? ==> obj == EmptyIpInfo
    ensures fetch(ServiceUrl(ip)).Some? ==> obj == fetch(ServiceUrl(ip)).value
  {
    match fetch(ServiceUrl(ip))
    case None => EmptyIpInfo
    case Some(decoded) => decoded
  }
}
