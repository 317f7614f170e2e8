# ipinfo: a verified model of the resolution pipeline

`ipinfo` takes hostnames, URLs, e-mail addresses and IP addresses from the command line. It
resolves each one with DNS and looks up every resulting address at ipinfo.io. This
project models the deterministic data handling of `ipinfo.go` in Dafny and proves what
that code guarantees.

- **Arguments** (`args.dfy`, with Go's `strings.Contains`, `Index`, `Count`, `SplitN`
  and `Join` in `strings.dfy`). `convertArgs` turns each argument into a bare host. The
  URL test ("://") comes before the e-mail test ('@').
- **DNS aggregation** (`dns.dfy`). The nested loop of `runDNS` and `stringInSlice`
  build, from the successful DNS replies in their order of arrival:
  - the list of distinct addresses, in first-seen order;
  - the map from each address to the hostname of the first reply that listed it.
- **Collector loops** (`pool.dfy`). These are the `select` loops of `resolveAllDNS` and
  `resolveAllIpInfo`.
  - A send hands the head of the work list to an idle worker.
  - A receive takes the reply of one busy worker.
  - Which case fires, and which busy worker answers, comes from a `Schedule`, a pair of
    functions from the step number. Every result is proved for every schedule.
  - A send is possible only while a worker is idle (`waitingFor < workers`), because the
    work channel is unbuffered.
  - With no workers and a non-empty work list, the `select` can never proceed and the Go
    runtime aborts. The model reports this as `deadlocked`.
- **Remote lookup** (`remote.dfy`). It models the query address of `callRemoteService`
  and its fall-back to an empty record when the request fails.
- **Composition** (`pipeline.dfy`). It models `runDNS` and `runIpInfo`.

`net.LookupHost` is a parameter `lookupHost: string -> LookupResult`. The HTTP request,
reading the body and JSON decoding together are a parameter
`fetch: string -> Option<IpInfoResult>`.

For an argument containing "://", `convertArgs` returns the third '/'-separated piece of
the argument. That piece is the host of `scheme://host/path` (`Args.UrlHost`). It is not
"the text after ://" once a '/' comes before the "://": `Args.SlashBeforeScheme` proves
that `"a/b://c"` yields the empty string. The code's behaviour is modelled as written.

This version of ipinfo.go does not:
- strip a port from an IPv4 argument;
- limit the worker count to the number of items;
- treat the placeholder location or the rate-limit reply specially;
- sort the report rows;
- map an address to many inputs. `reverseIP` keeps one hostname per address, the first
  to arrive.

## Model

| member | source | states |
|---|---|---|
| Args.ConvertArgs | ipinfo.go:59-73 | one cleaned argument per raw argument, in the same order, each being the normalisation of its raw argument |
| Args.CleanArg | ipinfo.go:62-70 | the loop body for one argument, its branches in order of precedence: with "://" the result holds no '/'; otherwise with '@' the argument is the result's prefix, a '@', then the result, and the prefix holds no '@'; otherwise the argument is returned unchanged |
| Args.UrlThirdPiece | ipinfo.go:62-64 | with "://" present, the result is exactly the third '/'-separated piece, the one that ends at the third '/' or at the end |
| Args.ThirdPiece | ipinfo.go:63-64 | SplitN(a/b/host followed by nothing or a path, "/", 4) has a third piece, and it is host |
| Args.UrlHost | ipinfo.go:62-64 | `scheme://host` followed by nothing or by a path yields `host` when the scheme holds no '/' |
| Args.EmailHost | ipinfo.go:65-67 | an argument without "://" yields the text after its first '@' |
| Args.NoColonNoScheme | ipinfo.go:62 | text without ':' never takes the URL branch |
| Args.SlashBeforeScheme | ipinfo.go:62-64 | a '/' before "://" makes the returned piece differ from the host after "://": "a/b://c" yields "" |
| Args.ExampleUrl | ipinfo.go:62-64 | "https://cisco.com" yields "cisco.com" |
| Args.ExampleEmail | ipinfo.go:65-67 | "user@github.com" yields "github.com" |
| Args.ExampleAddress | ipinfo.go:68-69 | "1.2.3.4" is passed through unchanged |
| Args.ExampleUrlWithUser | ipinfo.go:62-67 | "://" is tested before '@': "ftp://user@host.org/file" yields "user@host.org" |
| GoStrings.Contains | ipinfo.go:62 | strings.Contains, scanning from the left; characterised by GoStrings.ContainsIff |
| GoStrings.ContainsIff | ipinfo.go:62 | strings.Contains holds exactly when the text occurs at some offset |
| GoStrings.Index | ipinfo.go:63 | the offset of the first separator, or -1 when there is none |
| GoStrings.SplitN | ipinfo.go:63-66 | strings.SplitN for a one-character separator: between one and n pieces, cut at the first separators, the last keeping the unsplit rest |
| GoStrings.SplitNLength | ipinfo.go:63-66 | SplitN makes one piece more than there are separators, but never more than n |
| GoStrings.SplitNJoin | ipinfo.go:63-66 | joining the pieces with the separator gives back the string |
| GoStrings.SplitNPiecesFree | ipinfo.go:63-66 | no piece but the last holds a separator |
| GoStrings.SplitNLastFree | ipinfo.go:63-64 | with fewer than n separators the last piece holds none either |
| GoStrings.SchemeHasTwoSlashes | ipinfo.go:62-64 | an argument containing "://" has at least two '/', so the third piece exists |
| Dns.StringInSlice | ipinfo.go:190-197 | true exactly when the string is an element of the list |
| Dns.Aggregate | ipinfo.go:220-228 | `ipAddrs` is the first-seen deduplication of all addresses of the replies; the map's keys are exactly the elements of `ipAddrs`; each maps to the hostname of the first reply listing it; when no address is listed twice, `ipAddrs` is all the addresses in reply order |
| Dns.SummarisesSkip | ipinfo.go:222-223 | an address already listed is skipped and the list and map still summarise the replies scanned so far |
| Dns.SummarisesAdd | ipinfo.go:225-226 | a new address is appended and mapped to the scanned reply's hostname, keeping the summary |
| Dns.DedupMembers | ipinfo.go:220-225 | the deduplicated list has exactly the addresses of the input |
| Dns.DedupNoDuplicates | ipinfo.go:222-225 | the deduplicated list has no repetitions |
| Dns.DedupOrder | ipinfo.go:220-225 | each address of the deduplicated list is in the input, and the list is ordered by first occurrence in the input |
| Dns.DedupOfDistinct | ipinfo.go:222-225 | a list without repetitions is left as it is (so the loop keeps every address when none repeats) |
| Dns.FlattenMembers | ipinfo.go:220-221 | an address is among the replies' addresses exactly when some reply lists it |
| Dns.FirstHostDefined | ipinfo.go:220-226 | an address has a hostname exactly when some reply lists it |
| Dns.FirstHostAt | ipinfo.go:221-226 | the hostname of an address is the one of the first reply listing it |
| Dns.FirstHostStable | ipinfo.go:222-226 | later replies never overwrite an address's hostname |
| Dns.FirstReply | ipinfo.go:221-226 | the offset of the first reply listing an address, with the hostname recorded for it |
| Dns.PermutedDistinct | ipinfo.go:312-345 | a reordering of addresses without repetition, such as the order in which replies arrive, has no repetition either |
| Dns.DistinctOnce | ipinfo.go:324-340 | in a list without repetitions each element occurs exactly once |
| Pool.WorkDns | ipinfo.go:290-295 | the reply of workDNS: the hostname with the addresses and the error of its lookup |
| Pool.Replies | ipinfo.go:288-296 | the reply to each hostname carries that hostname with its lookup's addresses and error |
| Pool.Partition | ipinfo.go:276-283 | every reply goes to exactly one list: the successes are the replies without an error, the failures carry the others' errors |
| Pool.BookkeepingStart | ipinfo.go:259-263 | the loop starts with nothing sent, received or pending |
| Pool.SendStep | ipinfo.go:272-274 | a send to an idle worker keeps sent = pending + received and the pending count within the worker count |
| Pool.ReceiveStep | ipinfo.go:276-277 | a receive from a busy worker keeps that accounting, moving the item from pending to received |
| Pool.Stuck | ipinfo.go:263-272 | the select has no ready case only when there are no workers but work remains |
| Pool.BookkeepingEnd | ipinfo.go:263 | at loop exit every item was received exactly once, in sending order with one worker |
| Pool.ResolveAllDns | ipinfo.go:250-286 | the received hostnames are a permutation of the input (the input itself with one worker); the two lists are the successes and failures of those replies, in arrival order; their lengths add up to the number of hostnames; each success is the error-free reply to one of the hostnames; there is an error exactly when some hostname fails to resolve; deadlocks exactly when there are no workers and some hostnames |
| Pool.FiledStep | ipinfo.go:278-282 | a reply with an error adds its error to the errors; any other reply is appended to the successes |
| Pool.SuccessesAnswer | ipinfo.go:276-285 | after all replies the two lists account for every hostname, and every success is the reply to one of them |
| Pool.SomeFailure | ipinfo.go:278-279 | some reply failed exactly when some hostname's lookup fails |
| Pool.Lookups | ipinfo.go:338-340 | the records, one per queried address in query order, are the lookup results |
| Pool.ResolveAllIpInfo | ipinfo.go:312-345 | the queried addresses are a permutation of the input (the input itself with one worker); there is one record per address, each being the lookup of the address it answers; deadlocks exactly when there are no workers and some addresses |
| Remote.ServiceUrl | ipinfo.go:350-354 | "https://ipinfo.io/json" for the empty address, "https://ipinfo.io/" + ip + "/json" otherwise |
| Remote.ServiceUrlInjective | ipinfo.go:350-354 | different addresses are queried at different URLs |
| Remote.CallRemoteService | ipinfo.go:347-369 | the record decoded from the reply to the query URL, or the zero record when the request or the body read fails; Pipeline.RunIpInfo states what this gives per address |
| Pipeline.ResolvedAddresses | ipinfo.go:213-228 | in any arrival order, the successful replies list exactly the addresses that some hostname resolves to |
| Pipeline.ResolvedSound | ipinfo.go:220-225 | an address listed by a successful reply is one some hostname resolves to |
| Pipeline.ResolvedComplete | ipinfo.go:220-225 | an address some hostname resolves to is listed by a successful reply |
| Pipeline.ReverseHost | ipinfo.go:226 | the hostname recorded for an address is an input hostname that resolved to it without error |
| Pipeline.DistinctKeys | ipinfo.go:218-226 | a map keyed by exactly the elements of a list without repetitions has one key per element |
| Pipeline.RunDns | ipinfo.go:212-236 | no repeated address; an address is listed exactly when some hostname resolves to it; with one worker the list is determined by the input order; the map's keys are the listed addresses, each mapped to the first successful hostname in arrival order, which resolved to it; deadlocks exactly when there are no workers and some hostnames |
| Pipeline.RunIpInfo | ipinfo.go:239-242 | one record per address, each from a call to callRemoteService for the address it answers, and the zero record for an address whose request fails; with distinct addresses each is queried exactly once, and no two are requested at the same URL; deadlocks exactly when there are no workers and some addresses |
| Pipeline.DistinctUrls | ipinfo.go:350-354 | addresses without repetition are requested at pairwise different URLs |

## Left out

- vincentyDistance and latlon2coord (ipinfo.go:88-168): floating-point trigonometry and float parsing.
- outputTable (ipinfo.go:170-187): table rendering through an external library, including the IPv6 skip and the distance formatting.
- main (ipinfo.go:39-57): flag parsing, timing, printing, and the caller's own record, which feeds the distance column and the printed "your location" line (ipinfo.go:54).
- The error report of runDNS (ipinfo.go:229-235): printing only. The errors it prints are modelled (Pool.ResolveAllDns).
- net.LookupHost, the HTTP GET, reading the body and json.Unmarshal are opaque function parameters. The error printing of callRemoteService on a failed request or body read (ipinfo.go:357, 364) is not modelled.
- Lookups as functions: `lookupHost` and `fetch` are functions of the hostname and of the URL, so a hostname that appears twice among the arguments is assumed to resolve the same way both times. In Go the two calls of net.LookupHost at ipinfo.go:290 may differ (round-robin DNS, a transient failure). Every property is stated per reply, in terms of that reply's lookup.
- Strings: Go strings are bytes, while Dafny strings are sequences of Unicode characters. "://", "/" and "@" are ASCII, so the splits agree on valid UTF-8, but an argument that is not valid UTF-8 cannot be represented.
- Goroutines and channels: the collector loop is modelled with a schedule oracle. Fairness, liveness and real parallelism are not modelled.
- The worker goroutines are never stopped, because the work channel is never closed. The model does not represent them after the loop ends.
- The Distance float32 field of ipInfoResult is not part of IpInfoResult: no line of ipinfo.go assigns it, and only a `distance` key that json.Unmarshal (inside the abstracted `fetch`) matches case-insensitively could set it.
- The ErrMsg field is an Option of an error text; how json.Unmarshal might fill it is not modelled.
- Pool.ResolveAllDns, Pool.ResolveAllIpInfo: when the collector deadlocks, nothing is promised about the partial results. (The Go runtime then aborts the program with its deadlock error.)
