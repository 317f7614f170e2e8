/** The records that flow through the resolution pipeline of ipinfo.go. */
module Types {

  datatype Option<+T> = None | Some(value: T)

  /** A Go `error`, kept only as its message. */
  type Error = string

  /** What net.LookupHost returns for one hostname: the addresses, or an error. */
  datatype LookupResult = LookupResult(addresses: seq<string>, err: Option<Error>)

  /** dnsResponse: one DNS worker's reply for one hostname. */
  datatype DnsResponse = DnsResponse(hostname: string, addresses: seq<string>, err: Option<Error>)

  /** ipInfoResult: the record decoded from the geolocation service's JSON body. */
  datatype IpInfoResult = IpInfoResult(
    ip: string,
    hostname: string,
    city: string,
    region: string,
    country: string,
    loc: string,
    postal: string,
    org: string,
    errMsg: Option<Error>)

  /** The zero value of ipInfoResult, returned when the request or the body read fails. */
  const EmptyIpInfo := IpInfoResult("", "", "", "", "", "", "", "", None)
}
