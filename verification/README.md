# Egress relay: verification model

A Dafny model of proxy-relay-control, the relay that decides which workload may reach
which destination, inspects the connections that policy asks it to inspect, and gives the
inspected workloads the CA they need to trust. Everything is checked by

    dafny verify dfyconfig.toml

What is modelled, by file:

- `Text`, `Decode`, `DotSegments`, `Normalize`, `NormalForm`: the path normalizer. A Go
  string is a sequence of bytes; a byte is written as the character with that code. Percent
  decoding follows section 2.1 of RFC 3986. Dot segments deliberately do not follow section
  5.2.4: climbing above the root is refused, empty segments collapse, and a trailing slash is
  kept only if the target was written with one.
- `SegmentGlob`, `PathMatch`, `HostMatch`: the glob matchers, path rules, host patterns and
  the noProxy list. Patterns mean what their witnesses say (the text each `*` stands for, the
  run of segments each element consumes), and the greedy and backtracking matchers are exact.
- `Api`, `GrantOrder`, `Engine`, `EngineProperties`, `Admission`: the two-stage engine, and what it
  lets through in the terms policies are written in. A label selector is
  "whether it parses, and which label sets it accepts". `sort.SliceStable` is a stable sort
  function, characterized by order, by contents and by keeping equal keys in place. Reasons
  and errors are datatypes instead of formatted text.
- `Issuer`, `IssuerRuns`: the leaf-certificate cache as a class (a map and a recency list), and
  every interleaving of callers with rotations. A minted leaf is host, signer and expiry; a
  CA is which certificate it is and which parse of it, because the cache compares pointers and
  rotation compares certificates. Time is an integer number of nanoseconds.
- `Controller`, `Trust`, `Rotation`: one reconciliation pass against an API that may fail at
  any call, before or after taking effect; its link to the policy engine; and the rotation
  protocol of operator, issuer and controller as a state machine.
- `Splice`, `Inspect`: the tunnel's two copiers, idle watcher with its timer and activity channel,
  and close-once, interleaved arbitrarily; and the keep-alive loop of an inspected connection with its bounded drain.
- `NegativeCache`: the TTL map of unknown client addresses with its sweep.

Methods have the source's loops and updates and are proved against specification functions
or predicates; lemmas then prove what those specifications promise. Where a loop would drag a
large definition into every step, the method takes that question as a ghost function value.

## Findings about the code

- A managed ConfigMap in a terminating namespace is skipped by every pass and can be left
  without the CA the issuer signs with (`Rotation.TerminatingNamespaceMayLag`).
- Promoting the next CA once it is loaded and a pass that publishes it has returned nil is not
  enough. The watcher reads the Secret and installs what it read as two steps: if the next CA
  was withdrawn, read so, and announced again, the promotion comes between them, and a live
  namespace ends without the CA the issuer signs with (`Rotation.WaitingReadBreaks`). It is safe
  exactly when no read without that CA is waiting to be installed
  (`Rotation.PromotionIsSafeExactly`); then no live namespace ever lags
  (`Rotation.RotationIsSafe`).
- Between its look at a namespace and its write the controller trusts what it saw. A ConfigMap
  somebody else creates meanwhile makes publish return nil without the bundle being there
  (`Controller.Client.PublishSeen`), and one that replaces a managed ConfigMap is deleted with it
  (`Controller.Client.RemoveSeen`).
- Normalizing is idempotent exactly on results without `?`, `#` or control bytes; escapes can
  decode to those (`NormalForm.NormalizeIdempotent`, `NormalForm.EscapedQueryIsNotStable`).
- A wildcard-free pattern holding two slashes in a row never matches a normalized path, in
  either mode (`PathMatch.LiteralPatternMeansSegments`). So a prefix pattern and the same with
  `/**` after it grant the same paths exactly when it does not end in a slash or is `/` itself:
  `/a/` grants `/a`, and `/a//**` grants nothing (`PathMatch.AppendedStarsAgree`).
- Canonicalization of hosts strips one trailing dot and does not look again, so it is not
  idempotent on names ending in several dots or in white space before a dot; the exact
  condition is `HostMatch.CanonicalIsStable`. It shows in the noProxy list, where a host is
  canonicalized twice for `**.corp` and once for `.corp`: `x.corp..` is dialed directly under
  the first and not under the second (`HostMatch.TrailingDotsDivideSpellings`). When the two
  spellings agree is `HostMatch.BareSuffixIsAnyDepth`.
- Host specificity is read off the pattern before canonicalization. `*.` and a `*` with a
  space before it match every host and outrank every `**.` pattern
  (`HostMatch.RankIgnoresCanonicalization`); a pattern is ranked as its canonical form is
  exactly when `HostMatch.RankIsOfTheSpelling` says so.
- Adding a policy can deny: one policy anywhere in the list whose selector does not parse fails
  every connect it is consulted for, whatever the other policies grant
  (`EngineProperties.OneBadSelectorStopsAll`). Nothing else about an added policy can
  (`EngineProperties.MorePoliciesDenyOnlyBySelector`).
- Without an idle timeout a splice whose peers both go silent is never closed: it is blocked
  exactly as `Splice.BlockedExactly` says, and `Splice.BlockedBeforeClosing` is such a run.
- With one, a tunnel that has just read bytes may still be closed as idle, when the timer runs
  out while the read's token waits in the activity channel (`Splice.ActiveTunnelMayTimeOut`).
  A timeout with no token waiting means the tunnel was idle (`Splice.TimeoutMeansIdle`), and with
  prompt goroutines the two are the same (`Splice.PromptTimeoutIsExact`).

## Model

| member | source | states |
|---|---|---|
| `Decode.DecodeOnce` | internal/policy/normalize.go:97-127 | one left-to-right pass over the bytes computes the decoding and reports the first error met |
| `Decode.DecodesToIffEncodes` | internal/policy/normalize.go:97-139 | a string decodes to s exactly when some percent encoder produces it from s: each byte literal or escaped in either hex case, "%" always escaped, "/", backslash and NUL never |
| `Decode.DecodeUndoesEncode` | internal/policy/normalize.go:97-127 | decoding gives back what any such encoder was handed |
| `Decode.DecodeCommutesWithSplit` | internal/policy/normalize.go:114-125 | decoding succeeds exactly when it succeeds on every "/"-separated piece, and splitting the result equals decoding the pieces: no escape adds, removes or moves a separator |
| `Decode.FirstBadEscape` | internal/policy/normalize.go:103-124 | behind text that decodes, an escape cut short, one with a non-hex digit, %2f or %5c in either case, and %00 are each refused with their own error |
| `DotSegments.ResolveMatchesBrackets` | internal/policy/normalize.go:64-83 | the segment stack fails exactly when some prefix holds more segments of two dots than names - a name being neither empty nor one or two dots - and otherwise leaves the names whose matching ".." never comes, in order |
| `DotSegments.UncancelledListIsUnique` | internal/policy/normalize.go:64-83 | that description determines the result |
| `DotSegments.StripParams` | internal/policy/normalize.go:66-70 | what is kept of a segment is the part before its first ";" |
| `Normalize.Cut` | internal/policy/normalize.go:32-38 | the longest beginning of the target with neither "?" nor "#" |
| `Normalize.NormalizePath` | internal/policy/normalize.go:27-92 | the method with its scans and its segment loop computes the staged normalization, with the error of the first stage that refuses |
| `Normalize.ResolveDots` | internal/policy/normalize.go:64-91 | the in-place push and pop loop computes dot resolution and the rendering with its trailing slash |
| `NormalForm.QueryIsDropped` | internal/policy/normalize.go:32-38 | for all a and b, a, a?b and a#b normalize alike, and a target with neither mark is read whole |
| `NormalForm.RefusalsInOrder` | internal/policy/normalize.go:40-62 | a target is refused for a control byte at i exactly when its first byte below 0x20 or equal to 0x7f stands there; without one, for a bad escape, an escape left after decoding, a backslash, or climbing, in that order |
| `NormalForm.ParameterIsDropped` | internal/policy/normalize.go:66-70 | a ";" and what follows it up to the next slash can be left out anywhere in a plain target: the dot segments, the names and the trailing slash stay |
| `NormalForm.NormalizeMatchesBrackets` | internal/policy/normalize.go:60-91 | past the character checks a target is refused exactly when it climbs above the root, with that error, and otherwise its segments are the uncancelled names |
| `NormalForm.NormalizeKeepsTrailingSlash` | internal/policy/normalize.go:85-90 | a trailing slash survives exactly when the decoded target ended in one, or no segment is left |
| `NormalForm.NormalizedIsNormalForm` | internal/policy/normalize.go:25-26 | every result starts with "/", has no double slash, and no segment that is empty, ".", ".." or carries ";", "%" or a backslash |
| `NormalForm.AcceptedIsFullyDecoded` | internal/policy/normalize.go:51-55 | decoding an accepted path again changes nothing: nothing double-encoded gets through |
| `NormalForm.NormalizeIdempotent` | internal/policy/normalize.go:27-92 | normalizing a result again is the identity exactly when it holds no "?", "#" or control byte |
| `NormalForm.EscapedQueryIsNotStable` | internal/policy/normalize.go:32-35 | a concrete target whose normalized path is not stable under normalizing |
| `NormalForm.NormalizeStaysBelow` | internal/policy/normalize.go:64-91 | appended below a clean prefix, a target that normalizes by itself normalizes to the prefix's segments followed by its own |
| `NormalForm.PrefixRuleStillMatches` | internal/policy/match.go:80-83 | so a prefix rule on that prefix grants it, however it was spelled |
| `SegmentGlob.MatchSegment` | internal/policy/match.go:122-146 | greedy leftmost matching answers true exactly when the segment is the pattern's literal parts, in order, with some text in place of each "*" |
| `SegmentGlob.LeftmostIsSafe` | internal/policy/match.go:135-144 | taking the leftmost occurrence of a part never loses a match of the remaining parts |
| `SegmentGlob.MatchGlob` | internal/policy/match.go:95-118 | backtracking terminates and answers true exactly when the segments split into one run per element, any run for "**" and one matching segment otherwise |
| `SegmentGlob.AdjacentStarsCollapse` | internal/policy/match.go:99-109 | two "**" in a row match what one matches, in any pattern |
| `PathMatch.MatchPath` | internal/policy/match.go:65-84 | the defaulting, wildcard, exact and prefix branches answer as the path specification says; with a star anywhere, the answer is that one run of segments per element makes up the path |
| `PathMatch.PatternMeansElements` | internal/policy/match.go:58-84 | for every pattern written from a list of elements, with or without its first and last slash, and every clean path: with a star anywhere, one run per element; without, the same segments in exact mode and the first ones in prefix mode |
| `PathMatch.WildcardMeansRuns` | internal/policy/match.go:73-75 | the same for every pattern with a star, empty elements included |
| `PathMatch.StarTakesOneSegment` | internal/policy/match.go:95-118 | a lone "*" element takes exactly one segment wherever it stands, in either mode |
| `PathMatch.LiteralPatternMeansSegments` | internal/policy/match.go:60-63 | for every wildcard-free pattern and every clean path: prefix mode is "the pattern's segments begin the path's", exact mode is equality of segments, and a pattern with a double slash never matches |
| `PathMatch.PrefixModeIsTrailingStars` | internal/policy/match.go:60-63 | prefix mode on a clean pattern, with or without a trailing slash, grants the same paths as the pattern with "/**" in place of that slash |
| `PathMatch.AppendedStarsAgree` | internal/policy/match.go:60-63 | "/**" simply appended to a clean pattern grants the same clean paths exactly when the pattern is "/" or does not end in a slash |
| `PathMatch.SegmentsOfFlat` | internal/policy/match.go:86-92 | splitSegments reads back exactly the segments a clean path spells, with or without its trailing slash |
| `PathMatch.MatchPort` | internal/policy/match.go:46-56 | membership in the list, or in 80 and 443 when the list is empty |
| `PathMatch.MatchMethod` | internal/policy/match.go:150-160 | any method for an empty list, otherwise equality with some entry under case folding, the long s and the Kelvin sign included |
| `PathMatch.AsciiMethods` | internal/policy/match.go:155 | for rules and methods written in ASCII, agreement letter by letter: the same byte, or the k-th capital and the k-th small letter |
| `PathMatch.FoldsBeyondAscii` | internal/policy/match.go:155 | outside ASCII exactly the long s and the Kelvin sign are read as other letters |
| `HostMatch.MatchHostMeansLabels` | internal/policy/match.go:7-34 | on canonical names: "**." asks for one or more labels before the suffix, "*." for exactly one, anything else for equality |
| `HostMatch.CaseNeverMatters` | internal/policy/match.go:37-40 | spellings that agree letter by letter up to case have one canonical form, and no capital letter is in it |
| `HostMatch.MatchHostIgnoresCase` | internal/policy/match.go:13-15 | so MatchHost answers alike for them, pattern and host |
| `HostMatch.PaddingNeverMatters` | internal/policy/match.go:37-40 | nor do bytes 9 to 13 and 32 around a host or pattern, nor one dot behind it; nothing else is taken off |
| `HostMatch.CanonicalIsStable` | internal/policy/match.go:37-40 | canonicalizing again changes nothing exactly when the canonical form does not end in a dot or in white space |
| `HostMatch.TrailingDotsDivideSpellings` | internal/upstream/upstream.go:279-293 | a host with two trailing dots that "**.corp" covers and ".corp" does not |
| `HostMatch.RankOrder` | internal/policy/engine.go:254-267 | a name ranks above "*." and any suffix, that above "**." and any suffix, that above "*" and "**" |
| `HostMatch.RankFollowsBreadth` | internal/policy/engine.go:254-267 | of two canonical patterns of different rank, some host matches the lower-ranked one and not the other: a higher rank is never the broader pattern |
| `HostMatch.HigherRankIsNarrower` | internal/policy/engine.go:254-267 | the same of MatchHost on patterns and hosts however they are written, ranked by their canonical forms |
| `HostMatch.RankIsOfTheSpelling` | internal/policy/engine.go:116 | the rank taken from a pattern as written is that of its canonical form exactly when canonicalizing did not turn it into a match-all pattern and, if it starts with white space, its canonical form has no wildcard |
| `HostMatch.RankIgnoresCanonicalization` | internal/policy/engine.go:116 | "*." and " *" match every host and yet rank above every "**." pattern |
| `HostMatch.MatchesNoProxy` | internal/upstream/upstream.go:279-297 | a host is dialed directly exactly when some entry covers it |
| `HostMatch.BareSuffixIsAnyDepth` | internal/upstream/upstream.go:276-291 | whatever pattern and host are written, ".s" covers a host exactly when "**.s" does and canonicalizing once more takes the same bytes off the end of both |
| `Api.SelectsMeans` | internal/policy/engine.go:230-253 | a policy is for a workload exactly when its namespace selector accepts the namespace's labels and its pod selector, if any, the pod's; judging it is an error exactly when the namespace's does not parse, or is satisfied and the pod's does not; without a namespace selector it is for nobody |
| `Api.InspectedPolicies` | internal/policy/store.go:105-116 | the policies with an inspect-mode destination, each once, in snapshot order |
| `Api.InspectedMembers` | internal/policy/store.go:103-116 | a policy is listed exactly when it is in the snapshot and uses inspection |
| `Text.LexLessMeans` | internal/policy/engine.go:133 | byte order is decided by the first byte that differs, a string coming before its continuations |
| `GrantOrder.StableSortIsStable` | internal/policy/engine.go:127-134 | the sort orders by specificity, then policy name, and keeps grants of equal key in the order they came |
| `GrantOrder.SortedIsDetermined` | internal/policy/engine.go:127-134 | a sorted list is determined by its grants key by key |
| `Engine.AuthorizeConnect` | internal/policy/engine.go:86-148 | no identity is a denial, a failed listing an error, the first selector that does not parse an error naming its policy, and otherwise the specified decision |
| `Engine.CollectAll` | internal/policy/engine.go:98-120 | the two loops gather every reaching destination of every selecting policy, in list order, and count the policies selected |
| `Engine.PolicyNames` | internal/policy/engine.go:150-160 | the loop with its seen-set computes first appearances |
| `Engine.AuthorizeRequest` | internal/policy/engine.go:166-216 | the first grant in order that allows the request answers it, with its policy, upstream and first applicable rule; without one it is refused |
| `EngineProperties.ConnectIgnoresListOrder` | internal/policy/engine.go:98-147 | for policies with distinct names every order of the list gives the same grants, upstream, TLS mode and reason, and the same verdict on selectors |
| `EngineProperties.RequestsIgnoreListOrder` | internal/policy/engine.go:166-216 | and the same answer to every later request |
| `EngineProperties.RequestAnswerIsUnique` | internal/policy/engine.go:166-216 | a connection and a request determine the answer |
| `EngineProperties.TwoStagesAreOneSpecification` | internal/policy/engine.go:86-216 | connect reaches a decision exactly when every selector parses; the request is then let through exactly when the target normalizes and some selecting policy has a destination that reaches host and port and grants method, path and upgrade; the policy, upstream and rule reported are those of a grant no other granting destination comes before |
| `EngineProperties.DecisionThenSearch` | internal/policy/engine.go:86-216 | the same for any notion of "reaches" and "grants": collecting, sorting and searching add nothing to the specification and take nothing away |
| `EngineProperties.MorePoliciesDenyOnlyBySelector` | internal/policy/engine.go:98-120 | grants are additive but for selectors: with more policies listed, a request that was let through still is exactly when every selector of the longer list parses |
| `EngineProperties.OneBadSelectorStopsAll` | internal/policy/engine.go:101-104 | appending one policy that grants nothing and whose selector does not parse fails every call, naming that policy |
| `EngineProperties.ConnectSummary` | internal/policy/engine.go:121-147 | allowed exactly when a policy for the workload has a destination that reaches host and port, inspected exactly when some such destination asks for it, tunnelled through the upstream of one than which none has a more specific pattern, or an equally specific one and an earlier name |
| `EngineProperties.MatchedInOrder` | internal/policy/engine.go:127-134 | in a connect decision the rank of the grants' host patterns never increases, and where it stays the policy names never come earlier, by the first byte that differs |
| `EngineProperties.DenialReason` | internal/policy/engine.go:269-276 | a denied connect says that no policy is for the workload, or how many are |
| `Admission.LetThroughMeans` | internal/policy/engine.go:86-216 | the whole engine without its own tests: a request goes through exactly when no selector consulted fails to parse, its target has a normal form, and a policy for the workload has a destination whose labels cover the host, whose ports hold the port, and whose rules, if it has any, hold one covering the path's segments, the method and the upgrade |
| `Admission.BestCoveringAnswers` | internal/policy/engine.go:127-216 | and the answer names such a destination's policy, upstream and first covering rule; none that covers the request has a more specific pattern, or an equally specific one in a policy of an earlier name |
| `EngineProperties.NamesAreFirstAppearances` | internal/policy/engine.go:150-160 | every granting policy is named once, and more grants only add names at the end |
| `Issuer.Issuer.constructor` | internal/tlsbump/issuer.go:49-66 | a new issuer is empty and well formed, with the defaults in place of non-positive settings |
| `Issuer.NewIssuer` | internal/tlsbump/issuer.go:49-52 | no issuer exactly when there is no current CA |
| `Issuer.Issuer.SetBundle` | internal/tlsbump/issuer.go:71-78 | a bundle with a current CA replaces the old one, any other is ignored, and the cache is untouched |
| `Issuer.Issuer.Lookup` | internal/tlsbump/issuer.go:116-128 | the first locked section keeps map and list consistent and turns the recency list into the specified one, serving a fresh entry and dropping a stale one |
| `Issuer.Issuer.Store` | internal/tlsbump/issuer.go:136-160 | so does the second: a fresh entry left meanwhile is preferred, otherwise the new one goes in front and the back is evicted |
| `Issuer.Issuer.Evict` | internal/tlsbump/issuer.go:156-158 | the eviction loop leaves exactly the most recent entries that fit |
| `Issuer.Issuer.RemoveLocked` | internal/tlsbump/issuer.go:163-170 | one entry leaves both map and list, the others keep their order |
| `Issuer.Issuer.Certificate` | internal/tlsbump/issuer.go:110-161 | with nobody interleaving, the call is the two sections around one mint for the canonical host |
| `IssuerRuns.IssuerIsSafe` | internal/tlsbump/issuer.go:110-161 | in every interleaving of any number of callers with rotations: the cache is well formed at every unlock, each returned leaf is for the canonical host asked for and signed by the CA current in that call's first locked section, and one served from the cache has more than half its validity left |
| `IssuerRuns.ServedExactlyWhenFresh` | internal/tlsbump/issuer.go:116-128 | a caller is served from the cache exactly when there is an entry for its host, signed by the current CA and with more than half its validity left |
| `IssuerRuns.LeavesAreMinted` | internal/tlsbump/issuer.go:172-215 | over every run each leaf cached or returned was minted in it, for its host, by its signer, with the configured validity counted from the mint |
| `IssuerRuns.StaleEntryIsNeverServed` | internal/tlsbump/issuer.go:68-70 | an entry signed by a CA that is no longer current is discarded on the next use, never served |
| `IssuerRuns.HitMovesToFront` | internal/tlsbump/issuer.go:118-146 | a served entry moves to the front and the others keep their order, in the first locked section and in the second |
| `IssuerRuns.InsertDropsLast` | internal/tlsbump/issuer.go:148-158 | a new host pushes the last entry out of a full list, nothing otherwise, and never itself |
| `IssuerRuns.CacheIsByLastUse` | internal/tlsbump/issuer.go:110-161 | over every run the recency list holds its hosts in descending order of when a leaf of theirs was last served or inserted |
| `IssuerRuns.EvictsLeastRecentlyUsed` | internal/tlsbump/issuer.go:156-158 | so in every run an entry that a new host evicts is, of all cached, the one last used longest ago; the cache was full, and everything else stays |
| `IssuerRuns.ReplaceKeepsOthers` | internal/tlsbump/issuer.go:140-158 | replacing a stale entry of the same host evicts nobody else |
| `Controller.Client.Publish` | internal/cabundle/controller.go:166-206 | whatever fails, only this namespace changes and only to what is desired; success means it holds the bundle; a foreign ConfigMap is an error and stays |
| `Controller.Client.PublishSeen` | internal/cabundle/controller.go:171-205 | the same after the Get, whatever was written since: where what was seen no longer stands nothing is written, and nil then comes when nothing was seen (AlreadyExists) or the bundle was |
| `Controller.Client.Remove` | internal/cabundle/controller.go:208-225 | likewise for removal: a foreign ConfigMap stays and is no error |
| `Controller.Client.RemoveSeen` | internal/cabundle/controller.go:211-224 | after the Get, whatever was written since: once a managed ConfigMap was seen, whatever stands there goes; otherwise nothing does |
| `Controller.InspectedSelectors` | internal/cabundle/controller.go:140-154 | the namespace selectors of the inspecting policies, or the first that does not parse |
| `Controller.SelectorsDecide` | internal/cabundle/controller.go:140-164 | some collected selector accepts a label set exactly when some inspecting policy's does |
| `Controller.MatchesAny` | internal/cabundle/controller.go:156-164 | whether some selector accepts the labels |
| `Controller.Sync` | internal/cabundle/controller.go:102-138 | under any pattern of API failures the pass is one visit per listed namespace, each leaving it as it was or as desired; the result is nil, or how many visits failed and the first of them; nil means every live one reached its goal; without failures nil comes exactly when none is blocked; a settled cluster is not written to |
| `Controller.UnmanagedIsNeverTouched` | internal/cabundle/controller.go:191-196 | under any failures a ConfigMap without the label app.kubernetes.io/managed-by=proxy-relay-control is left exactly as it was |
| `Controller.SyncedMeansConverged` | internal/cabundle/controller.go:102-138 | after nil, a live namespace holds a managed ConfigMap with the bundle if some inspecting policy selects it, and no managed one otherwise |
| `Controller.SyncTwice` | internal/cabundle/controller.go:102-138 | after a pass that returned nil, a second one on the same inputs makes no write |
| `Controller.ReachedIsSettled` | internal/cabundle/controller.go:197-199 | what a successful pass leaves is a fixed point |
| `Trust.InspectionImpliesTrust` | internal/policy/engine.go:138-145 | on one snapshot, a workload whose connection would be inspected has, after a pass that published the issuer's bundle and returned nil, a ConfigMap in its live namespace that holds the CA the issuer signs with, and the next one |
| `Rotation.WatchTick` | cmd/relay/serve.go:351-361 | what a tick read replaces the issuer's bundle exactly when the Secret was readable and its certificates differ |
| `Rotation.RotationIsSafe` | cmd/relay/serve.go:334-364 | over every run under the operator's rule, at every state, also midway through a Sync and between the watcher's read and its installation, every managed ConfigMap in a namespace that is not terminating holds the CA the issuer signs with |
| `Rotation.PromotionIsSafeExactly` | cmd/relay/serve.go:347-361 | the rule is exact: with the next CA loaded and acknowledged, promoting it keeps that in every continuation if and only if no read of the Secret without that CA is waiting to be installed |
| `Rotation.WaitingReadBreaks` | cmd/relay/serve.go:347-361 | a run to a state where the next CA is announced and promoting it lets a live namespace lack the CA the issuer signs with |
| `Rotation.StepKeepsInv` | internal/tlsbump/ca.go:35-44 | every step of operator, watcher, controller, cluster and tenants, a restart included, keeps the rotation invariant |
| `Rotation.SyncOneIsAVisit` | internal/cabundle/controller.go:119-133 | what the controller is proved to do in one namespace is an enabled step of the protocol, with the outcome it reports |
| `Rotation.SyncIsARun` | internal/cabundle/controller.go:102-138 | a whole Sync with the issuer's bundle is a run of the protocol - capture, list, visits, end - and acknowledges the bundle exactly when it returns nil |
| `Rotation.TerminatingNamespaceMayLag` | internal/cabundle/controller.go:121-123 | a run in which a terminating namespace keeps a managed ConfigMap without the issuer's CA |
| `Rotation.SwappingInPlaceBreaks` | internal/tlsbump/ca.go:37-40 | without the operator's rule a live namespace is left not trusting the issuer |
| `Splice.ReaderConn.Read` | internal/proxy/connect.go:52-55 | reading gives the bytes buffered behind the CONNECT header and then the connection's, without a gap; while any are buffered it never ends, fails or touches the connection |
| `Splice.CopyWithActivity` | internal/proxy/tunnel.go:82-102 | the count returned is what arrived, what arrived is the first bytes read, and without a write error it is all of them |
| `Splice.SpliceConserves` | internal/proxy/tunnel.go:17-80 | in every interleaving each side has received a prefix of what the other sent, nothing read is missing unless a write failed, and done is closed at most once |
| `Splice.BufferedComesFirst` | internal/proxy/connect.go:52-55 | at every moment of every run, what the upstream has received is a beginning of the buffered bytes, or all of them followed by a beginning of what the client sent afterwards |
| `Splice.SpliceReturns` | internal/proxy/tunnel.go:77-79 | on return the counts are the delivered lengths, both ends are closed, done was closed exactly once and both copiers are gone |
| `Splice.BlockedExactly` | internal/proxy/tunnel.go:17-80 | only the peers and the clock can make anything happen exactly when splice and its watcher are finished, or closing has not begun, both copiers wait on a peer, and the idle timeout is not set or has neither run out nor activity to take note of |
| `Splice.IdleTimeoutUnblocks` | internal/proxy/tunnel.go:53-75 | with an idle timeout an unfinished run is blocked only until the deadline, at most the idle period away |
| `Splice.TimeoutMeansIdle` | internal/proxy/tunnel.go:53-75 | in every run, if the timer fires with no read waiting to be noted, nothing has been read for the whole idle period |
| `Splice.PromptTimeoutIsExact` | internal/proxy/tunnel.go:21-75 | if no time passes before a read is noted, a firing timer means an idle period exactly when no read is waiting to be noted |
| `Splice.ActiveTunnelMayTimeOut` | internal/proxy/tunnel.go:58-73 | a run, prompt in that sense, in which the timer fires at the moment a byte was read, its token in the channel |
| `Splice.BlockedBeforeClosing` | internal/proxy/tunnel.go:44-52 | without one there is a run blocked before anything is closed, a writer and a reader each waiting on a peer, and no passing of time changes that |
| `Splice.ClosedStepsDescend` | internal/proxy/tunnel.go:42-48 | once closed, every step but the peers' and the clock's lowers a measure |
| `Splice.ClosedNeverStuck` | internal/proxy/tunnel.go:30-36 | once both connections are closed, and until all is finished, such a step is possible, whatever the peers hold back: a read ends only because its source is closed or has ended, a write fails only because its sink is closed or broken |
| `Splice.ShutdownIsBounded` | internal/proxy/tunnel.go:55-79 | from then on a run takes at most that measure of steps |
| `Inspect.Drain` | internal/proxy/inspect.go:372-388 | true exactly when the body is at most the limit and reads without error, also behind its last byte, and then its end was seen |
| `Inspect.ServeBumped` | internal/proxy/inspect.go:84-137 | the log is one block per request, each decided by the engine; parses happen only at request boundaries; the loop ends exactly for the reasons it should, with no request read that has no block but one in absolute form |
| `Inspect.ServeOne` | internal/proxy/inspect.go:108-135 | one round: the request's events, going on exactly when nothing forces the end, and then at a boundary |
| `Inspect.OneAuditPerRequest` | internal/proxy/inspect.go:84-137 | every parsed request leaves exactly one audit record and at most one upstream contact |
| `Inspect.ContactsAreAllowed` | internal/proxy/inspect.go:126-132 | upstream is contacted only for an allowed request, under its decision's upstream |
| `NegativeCache.Provider.NegativeHit` | internal/identity/podip.go:217-229 | answers whether the address is remembered and not expired, dropping only an expired entry |
| `NegativeCache.Provider.RememberMiss` | internal/identity/podip.go:231-244 | sweeps the expired entries above the threshold, then records the miss |
| `NegativeCache.Provider.Identify` | internal/identity/podip.go:107-124 | a remembered miss is refused without recording anything; a miss is recorded only when the lookup found nobody |
| `NegativeCache.NegativeCacheIsTransparent` | internal/identity/podip.go:217-244 | over every run with a clock that never goes back, each lookup answers true exactly when the address's last recorded miss is no older than the TTL |

## Left out

- Network and TLS I/O, HTTP parsing, timers and scheduling: connections are byte sequences, time an integer, concurrency interleaved steps; `RoundTrip` is taken to consume a forwarded body.
- Cryptography, X.509 and PEM: a CA is an identity, a leaf its host, signer and expiry, a bundle the list of its certificates.
- Label selector syntax, informers, RBAC, and the snapshot rebuild in internal/policy/store.go:65-87 (single assignments).
- Unicode: white space, letter case and case folding are the ASCII ones.
- The error branch of the inspected loop at internal/proxy/inspect.go:103-107: the engine's request stage never returns an error.
- Several relay replicas: the rotation protocol has one issuer and one controller.
- Controller.Sync: no other writer acts within one namespace's visit; between visits other writers are part of the rotation protocol, whose managed ConfigMaps only the controller writes, so that a visit overtaken by another writer leaves them as a visit without effect would.
- The byte counters of `countingConn`: would tally what crosses an inspected connection, whose copying is the HTTP machinery's.
- Inspect.ForwardBumped: request rewriting, header stripping and response formatting are not modelled, only what is contacted, logged and kept alive.
- PathMatch.MatchMethod: exact for the ASCII methods HTTP parsing lets through; folding between two non-ASCII letters is not modelled.
- Controller.Client.Publish: no other writer acts between its Get and its write; PublishSeen states what happens when one does. The same holds of Remove and RemoveSeen.
- A write the controller has under way when the process dies lands before the restart or never.
- `pickPod` and the informer index (internal/identity/podip.go): would tie an address to the pod the engine then judges; here the identity is an input.
- Guard resolution, dialing and credentials (internal/guard, internal/upstream): would say which addresses an allowed host may resolve to; here a dial is outside the tunnel.
- Plain HTTP forwarding (internal/proxy/http.go): would run both engine stages for every request of a loop like the inspected one, in which a refusal that cannot be written does not end the loop.
- Audit fields, metrics, flags, preflight, `init-ca` and deployment files: would add what is recorded or configured, and no decision the model depends on.
