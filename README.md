# traefikAuth policy engine in Dafny

A model of the forward-auth service `traefikAuth`. A reverse proxy (traefik) terminates mutual TLS and asks this service, once per request, whether the client certificate may reach the requested host. The service answers from a YAML policy. The policy lists host entries, each with an SNI pattern, an issuer-organization pattern and a list of allowed common names, plus an optional list of revoked serial numbers.

The model covers:

- `policy.go`. Compiling the decoded policy file into comparators, a revocation set and a SHA-1 digest input (`CompilePolicy`). The loader's error composition (`ProcessPolicyFile`). The cached decision (`Policy.IsAuthorized`).
- `main.go`. Startup gating, the `-cidrs` flag loop, the cache-size adjustment (`Daemon.Start`). The installer that swaps the active policy when a reloaded one has another digest (`Daemon.InsertNewPolicy`).
- `handler.go`. The header checks of `myApp` and how the verdict becomes a response. The source-address check `isInCidrSet` and the `cidrFilter` wrapper (`Serve`).

Library calls are fields of the record `Foreign.Lib`: regular expressions, SHA-1, `net.ParseCIDR`/`ParseIP`/`IPNet.Contains`, base64 and x509. Every property below therefore holds for every behaviour of those libraries. The digest is `lib.sha1` applied to exactly the bytes written into the hash state, so the provable fact is what those bytes are (`HashInput`). The decision cache is a class over a `map<string, bool>`. Its `Add` may evict one arbitrary other key when the cache is full. A Go panic (an index or slice out of range) is modelled as an `Aborted` response. Go strings are `string`, one char per byte.

Where the service's intended design and its code disagree, the model follows the code:

- The cache-size adjustment was meant to raise small sizes to a floor, but it yields 53 for every flag value.
- The digest is meant to cover the whole file, but revocation serials never reach it.
- Common names are meant to be patterns, but the code checks them by exact list membership.
- The cache key `cn + "[" + o + "]" + host` is not unambiguous and leaves out the serial. So a cached `true` is returned even for a revoked serial.
- `handler.go:85` calls `isAuthorized` with three arguments, but the method takes four (`policy.go:177`). The model passes the empty serial, which the comment at `policy.go:187` says is not yet supplied. As a result, revocation never applies to real requests.

## Model

| member | source | states |
|---|---|---|
| `PolicyEngine.CompilePolicy` | policy.go:131-174 | the compiled policy is the first compile error (with every other field empty) or, when there is none, the comparators of the included entries, the set of revocation serials and `sha1` of the host-entry bytes |
| `PolicyEngine.ProcessPolicyFile` | policy.go:98-112 | a load error or a cache-construction error gives an error-only policy; the compiler's error policy is returned unchanged; otherwise the compiled policy gets a fresh empty cache of the requested size; a cache is attached exactly when there is no error |
| `PolicyEngine.Processed` | policy.go:98-112 | an error result has every other field empty; the result is error-free iff loading succeeded, compilation succeeded and the size is one lru.New accepts, and then equals the compiled snapshot; a cache error arises only from a non-positive size |
| `PolicyEngine.Policy.IsAuthorized` | policy.go:177-207 | on a hit for `cn[o]host` the stored verdict is returned and the cache is untouched; on a miss the result is false for a non-empty revoked serial, else true iff some comparator matches host, organization and has the CN in its allow list; the key then maps to the result and other keys keep their verdicts or are evicted |
| `PolicyEngine.FirstFailure` | policy.go:142-162 | the compile error, if any, is a `CompileError` whose entry number lies within the host list |
| `PolicyEngine.EntryFailure` | policy.go:145-162 | a single entry's error, if any, is a `CompileError` carrying that entry's number |
| `PolicyEngine.FirstFailureExactly` | policy.go:142-162 | compilation fails iff some included entry has an SNI or O pattern that does not compile |
| `PolicyEngine.FirstFailureNamesFirst` | policy.go:153-162 | the error names entry i+1 (counting skipped entries), an included entry, with `sni match` checked before `o`, the failing pattern and the library's reason, and every earlier included entry compiles |
| `PolicyEngine.FirstFailurePrefix` | policy.go:153-162 | once a prefix of the entries fails, the whole list fails with the same error (compilation stops at the first failure) |
| `PolicyEngine.CompileStep` | policy.go:142-170 | each loop iteration extends the error, the comparators and the digest input by exactly that entry's share |
| `PolicyEngine.CompileErrorNamesEntry` | policy.go:155 | the compile error text starts with `policy entry `, the decimal entry number (which reads back to the number) and a colon |
| `PolicyEngine.ComparatorsAppend` | policy.go:142-170 | comparators of concatenated entry lists are the concatenation of their comparators, so file order is preserved |
| `PolicyEngine.ComparatorsAreIncludedEntries` | policy.go:142-169 | a comparator exists exactly for each entry with a non-empty allow list, carrying that entry's patterns and allow list |
| `PolicyEngine.ComparatorsAllowOnly` | policy.go:165 | every comparator has a non-empty allow list and an empty deny list |
| `PolicyEngine.SkippedEntryNoComparator` | policy.go:145-147 | an entry with an empty allow list yields no comparator |
| `PolicyEngine.SkippedEntryNotHashed` | policy.go:145-147 | an entry with an empty allow list writes nothing into the digest |
| `PolicyEngine.SkippedEntryCausesNoError` | policy.go:145-153 | an uncompilable pattern in an entry with an empty allow list causes no error |
| `PolicyEngine.HashInputAppend` | policy.go:157-172 | the digest input of concatenated entry lists is the concatenation of their inputs: SNI, O and `%v` of CN per included entry, in order |
| `PolicyEngine.DenyListsIgnored` | policy.go:165 | entry lists differing only in deny lists compile to the same comparators and fail identically, so deny patterns never affect a verdict |
| `PolicyEngine.DenyListHashed` | policy.go:167 | changing the printed length of an included entry's deny list changes the digest input |
| `PolicyEngine.RevocationListNotHashed` | policy.go:136-139 | files differing only in the revocation list have the same digest |
| `PolicyEngine.VerdictFromFile` | policy.go:189-206 | for an error-free compiled file, the miss verdict is true iff the serial is empty or not listed and some included entry's patterns match host and organization and its allow list contains the CN |
| `PolicyEngine.CachedVerdictWins` | policy.go:179-185 | a cached verdict is the decision for every serial, so a cached true survives a revoked serial |
| `PolicyEngine.RevokedSerialDenied` | policy.go:189-193 | on a miss a non-empty revoked serial is denied; the empty serial is never revoked |
| `PolicyEngine.DecisionIsSticky` | policy.go:179-206 | once the key holds the decision, deciding again gives the same verdict whatever the serial |
| `Lru.Cache.constructor` | policy.go:105 | a new cache is empty, valid and of the requested size (which must be positive) |
| `Lru.Cache.Get` | policy.go:181 | reports whether the key is present and, if so, its stored verdict |
| `Lru.Cache.Add` | policy.go:191 | afterwards the key holds the value, the size bound holds, other keys keep their value or are evicted, and nothing is evicted while there is room or the key was present |
| `Process.AdjustCacheSize` | main.go:97 | the adjusted cache size is 53 for every flag value |
| `Process.ClampCacheSize` | main.go:97 | the intended clamp lies in [53, 200000] and keeps any flag value already in that range |
| `Process.ParseCidrsSpec` | main.go:84-94 | CIDR parsing succeeds iff every element parses, the networks being those of the elements in order; otherwise the named element is the first that fails |
| `Process.ParseCidrsPrefix` | main.go:86-89 | a failing element ends parsing with that element |
| `Process.Daemon.AppendCidrs` | main.go:86-93 | appends each parsed network to `cidrSet` in order and returns the first unparseable element |
| `Process.Daemon.Start` | main.go:51-104 | the outcome is the specified one; startup reaches serving iff the outcome is `Serving`, and then the cache size is 53, `cidrSet` holds the parsed networks and the active policy is the fresh error-free policy with an empty cache |
| `Process.StartupGating` | main.go:100-104 | serving starts only from a policy file that loaded and compiled and a CIDR flag that parsed; startup never fails on cache construction |
| `Process.Daemon.InsertNewPolicy` | main.go:157-167 | an update carrying an error, or with the current digest, leaves the active policy and its cache alone; any other update becomes the active policy whole |
| `Process.Daemon.InsertNewPolicies` | main.go:155-169 | after a sequence of messages the active policy is the fold of the single-message rule over them |
| `Process.InstalledIsClean` | main.go:155-169 | starting from an error-free policy, the active policy stays error-free and is always the start policy or one of the messages |
| `Process.InstalledKeepsSameDigest` | main.go:161-165 | a message whose digest equals the active one changes nothing |
| `Process.RevocationEditNotInstalled` | main.go:161 | a reload differing only in revocation serials is discarded by the installer |
| `Process.CorrectedHashSeesRevocation` | policy.go:136-139 | with serials written into the digest, revoking one more certificate changes the digest input |
| `Process.CorrectedCompiled` | policy.go:131-173 | the corrected compiler keeps the error, comparators and revocation set of `Compiled` and, without an error, hashes the serials followed by the entries |
| `Process.CorrectedRevocationEditInstalled` | main.go:161-165 | with the corrected digest and a SHA-1 that tells its inputs apart, a reload that only revokes one more certificate is installed |
| `GoStrings.JoinSplit` | main.go:85 | joining the comma-split flag with commas gives back the flag |
| `GoStrings.Split` | main.go:85 | Split yields at least one field and no field contains the separator |
| `GoStrings.DecimalRoundTrip` | policy.go:155 | the `%d` rendering of the entry number reads back to the number |
| `GoStrings.LastIndex` | handler.go:102 | the index of the last colon, or -1 exactly when there is none |
| `GoStrings.CutBeforeIsFirstField` | handler.go:68 | the kept text is a comma-free prefix of the header, ending at the first comma or at the end, and is the first comma-separated field |
| `GoStrings.CutBeforeIgnoresTail` | handler.go:68 | whatever follows the first comma is discarded |
| `Handler.ChecksInOrder` | handler.go:41-65 | a missing or non-https proto gives 400 first; then a missing or empty host; then a missing or empty certificate; every rejection is 400 |
| `Handler.AskOnlyWhenChecksPass` | handler.go:41-85 | the policy is asked only when all checks passed, about the first host value, the issuer's first organization and the subject CN of the certificate decoded from the text before the first comma |
| `Handler.OnlyFirstCertDecoded` | handler.go:67-71 | appending further comma-separated certificates to the header changes nothing |
| `Handler.SuccessExactlyWhenAuthorized` | handler.go:85-98 | `X-Client-Verify: SUCCESS` appears iff the request passed the checks and was authorized, with the subject, issuer and proxy-strip headers and no body; otherwise 401 or an earlier 400 |
| `Handler.AddSuccessHeaders` | handler.go:86-93 | adds the six TLS-offload headers in order and nothing else |
| `Handler.MyApp` | handler.go:34-99 | the response is the one the checks and the policy decision determine, the decision using serial `""`; the cache is untouched unless the policy was asked, and when asked it is unchanged on a hit, while on a miss the key `cn[o]host` maps to the decision and every other key keeps its verdict or is evicted |
| `Handler.HostPart` | handler.go:101-106 | panics exactly without a colon, with the last colon first, or with `[` alone before it; otherwise the text before the last colon; when that starts with `[`, that text without its first and last characters (the brackets of `[addr]:port`) |
| `Handler.IsInCidrSet` | handler.go:101-115 | the result is the specified one: true iff some configured network contains the parsed address |
| `Handler.EmptyCidrSetRejectsAll` | handler.go:108-114 | an empty CIDR list accepts no source address |
| `Handler.CidrFilter` | handler.go:117-124 | forwards iff the source address is in the CIDR set, and otherwise answers 401 with the filter message |
| `Handler.Serve` | main.go:118 | the `/` route: 401 for an outside source, otherwise exactly myApp's response; the cache is untouched unless forwarded and asked, and when both it is written back as in `MyApp` |

## Left out

- `tls.go` (`initTLS`): certificate and key loading are library calls. Whether it succeeds is the `tlsOk` parameter of `Daemon.Start`.
- `metrics.go`: only Prometheus counter registration, and none of the modelled code increments a counter.
- `loadPolicy` (`os.Open`, YAML decoding): its result is the `loaded` parameter, either a decoded `PolicyFile` or an error text.
- `policyFileWatcher`, `signalWatcher`, the goroutines and the channel: I/O and concurrency. Only the installer's step, and its loop over a finite sequence of received messages, are modelled. Races between two near-simultaneous reloads are not modelled.
- The HTTP server, the listener and graceful shutdown: I/O.
- All printing to stdout and stderr.
- Regular-expression semantics, SHA-1, `net.ParseCIDR`, `net.ParseIP`, `IPNet.Contains`, base64 and x509 decoding: foreign calls, kept abstract in `Foreign.Lib`.
- `lru.New` failing for a non-positive size is the hashicorp library's documented behaviour. That library is not part of this model.
- `Lru.Cache.Add`: may evict any other key when full, not specifically the least recently used one. The eviction callback is not modelled.
- `Lru.Cache.Get`: does not model the recency update a hit makes.
- `Handler.ResponseWriter.Error`: models the status and the message line written by `http.Error`. It does not model the `Content-Type` and `X-Content-Type-Options` headers that net/http also sets.
- `math.Min`/`math.Max` at main.go:97 work on floats. The model uses integer min and max, which agree for every `int` flag value.
- `Handler.SuccessHeaders`: header names are kept as written and in the order they are added. `Header().Add` canonicalizes them (`X-ProxiedEntitiesChain` goes out as `X-Proxiedentitieschain`), and net/http writes headers sorted by name. Neither is modelled, because both are net/http's behaviour rather than this service's.
- Cache-key injectivity is not claimed: different (cn, o, host) triples can share a key.
- The `-version` output, the listen port and bind address only feed printing and the server.

## Findings

| source | as written | input that shows it | evidently intended | confidence | as-written member | corrected member |
|---|---|---|---|---|---|---|
| main.go:97 | `min(53, max(200000, x))` is 53 for every x | `-cacheSize 100000` gives a cache of 53 entries | clamp x into [53, 200000]: `max(53, min(200000, x))` | high; not executed | `Process.AdjustCacheSize` | `Process.ClampCacheSize` |
| policy.go:138 | `h.Sum([]byte(value))` returns a digest appended to the serial and writes nothing into `h` | a reload that only adds serial `01` to `revocation list` has the old digest and is discarded by the installer | `h.Write([]byte(value))`, so that a revocation edit changes the digest | high; not executed | `Process.RevocationEditNotInstalled` | `Process.CorrectedHashSeesRevocation`, `Process.CorrectedRevocationEditInstalled` |

The operational members (`CompilePolicy`, `Daemon.Start`, `InsertNewPolicy`) keep the code's behaviour as written, so their properties describe the deployed program. The corrected definitions stand beside them with their intended properties proved.
