# IronCurtain: models and proofs of its algorithmic cores

IronCurtain is a sandboxing runtime for coding agents. This project models the parts of it
whose correctness does not show in any single function, and proves what they promise. Each
module stands for one source file or one protocol.

| module | what it models |
|---|---|
| `StableStringify` | the canonical printing behind hash identities |
| `StrictJson`, `GoJson`, `KeyedInjection`, `OciPatch`, `ConfigText`, `QualifiedConfig`, `BoundaryConfig` | the OCI config patcher: bounded strict decoder, what is relied on in encoding/json, envelope, environment and mount injection, text in and out, a config that is accepted, and the boundary case of the size bound |
| `ReplaceProtocol`, `PatchConfigFile`, `DirectoryWalk` | atomic replacement of a file under failures, other writers and crashes; the step that patches config.json with it; the path walk that guards it |
| `ProxyHead`, `ProxyCredential`, `Relay` | the fixed relay: streaming head validation with one inserted header, the byte bound, the credential's validation, and the concurrent accept loop |
| `RoleClusters` | union-find clustering of tools by shared roles |
| `Calendar`, `Cron`, `CronScheduler` | Gregorian dates, cron fields, the forward search, the polling scheduler |
| `ModelMapping`, `GatewayClient` | glob rules with their cache, and the division of mapping between client and proxy |
| `ProviderProfiles`, `EditSession`, `ConfigBackfill` | provider registry round trip, the editor session, and backfilling of defaults |
| `HostObserver` | the host observer's worker racing with `stop` |
| `KendallTau`, `StratifiedSample`, `Utf8Tail` | rank correlation, bucketed sampling, and the bounded UTF-8 buffer |
| `Wrappers` | options, results and small shared notions |

How the sources' forms are kept: objects that update their fields are classes
(`Decoder`, `OciSpec`, `Reader`, `BoundedWriter`, `UnionFind`, `Scheduler`, `Globs`, `Session`,
`Disk`, `Process`), loops are loops with invariants, and the shuffle works on an array. The two
concurrent protocols are state machines whose events are what happens between two awaits or two
channel operations; their theorems quantify over every sequence of events. In
`ReplaceProtocol` every system call may be refused, other processes may act between any two
calls, and a trace records every moment, so that "at all times" and "after a crash" are
statements about all moments of all traces.

Results that differ from what a reader of the sources might expect:

- Hash inputs coincide for a non-finite number and null, and for `[undefined]` and `[]`; for
  nothing else but key order.
- An OCI config whose patched text fills the size bound exactly gets a newline on top and is
  refused when it is patched again; `BoundaryConfig` shows that it happens.
- The relay accepts a configured credential with line breaks in it, because base-64 decoding
  passes over them. The head it sends reads to its end, with that credential as its last field
  and nothing left over, precisely when the accepted credential has none. It can still be read
  with exactly one credential, but with something left over behind the head, precisely when the
  first line break comes at the credential's end or before a blank line. Issued credentials have
  no line break.
- The cron search reports a date 366 days ahead for expressions that match only on 29 February
  when the window has none; all other expressions that can match at all are found. Which
  expressions these are can be told from their fields.
- A clock that is set back can make a job fire twice in one minute.
- For a proxy-owned gateway a rule that matches the fallback model is applied to requests that
  had fallen back to it: a rule for `z-ai/*` does so at the built-in gateway.
- `writeStableJsonAtomic` sets the mode after the sync, so the contents but not the mode are
  protected by it; and a failing close of the temporary file always leaves its name behind,
  because closing the stale descriptor once more throws before the removal. Exactly which
  refused calls leave the name is `ReplaceProtocol.LeavesName`.
- An ordering with repeats is compared symmetrically with some orderings but not with all; one
  without repeats is, with all that have none.

## Model

| member | source | states |
|---|---|---|
| `StableStringify.SortKeysSorts` | src/hash.ts:23 | Sorting an object's distinct keys lists exactly those keys in strictly ascending UTF-16 order |
| `StableStringify.AscendingUnique` | src/hash.ts:23 | A set of keys has one ascending listing, so the order of insertion cannot show |
| `StableStringify.QuoteCut` | src/hash.ts:19-26 | A quoted string followed by anything can be cut off in one way only, for every string including lone surrogates |
| `StableStringify.PrintCut` | src/hash.ts:16-28 | Printed values are self-delimiting: equal texts with admissible continuations have equal values up to key order and equal continuations |
| `StableStringify.SamePrintsAlike` | src/hash.ts:13-28 | Values equal up to key order at every depth print the same |
| `StableStringify.HashInputSeparates` | src/hash.ts:16-38 | For values without NaN, infinities and one-element arrays of undefined the hash input is equal if and only if the values are equal up to key order at every depth |
| `StableStringify.RepairIsFaithful` | src/hash.ts:16-28 | Every value prints like a faithful one: non-finite numbers as null, an array holding only undefined as the empty array |
| `StableStringify.HashInputForgetsExactly` | src/hash.ts:16-38 | For all values: equal hash inputs if and only if the values are equal up to key order after exactly those two replacements |
| `StableStringify.UnfaithfulCollides` | src/hash.ts:16-28 | Each value outside the faithful ones does share its hash input with a different value, so the condition is exact |
| `StrictJson.WriteCut` | docker/build-trust-runtime/spec.go:192-254 | A token stream starts with at most one bounded document, and determines what follows it |
| `StrictJson.Decoder.DecodeValue` | docker/build-trust-runtime/spec.go:192-254 | Accepts exactly when a document within the depth, field, item and string bounds starts the remaining tokens; then it consumes that document's tokens alone and returns its meaning |
| `StrictJson.Decoder.DecodeItems` | docker/build-trust-runtime/spec.go:235-250 | The array loop: items in order, the item bound before each one, and a closing bracket |
| `StrictJson.Decoder.DecodeMembers` | docker/build-trust-runtime/spec.go:208-234 | The object loop: string names within the bound, no name twice, the field bound, and a closing brace |
| `StrictJson.ArrayGoesOn` | docker/build-trust-runtime/spec.go:235-250 | Wherever a bounded array can still be completed, what the loop checks holds |
| `StrictJson.ObjectGoesOn` | docker/build-trust-runtime/spec.go:208-234 | Wherever a bounded object can still be completed, what the loop checks holds |
| `StrictJson.DecodedIffWritten` | docker/build-trust-runtime/spec.go:176-254 | A stream decodes to v if and only if it is the writing of a bounded document that means v; documents have no duplicate name and streams no trailing token |
| `StrictJson.WrittenDecodes` | docker/build-trust-runtime/spec.go:176-254 | Decoding undoes writing for every bounded document |
| `StrictJson.DecodeStrictJSON` | docker/build-trust-runtime/spec.go:176-190 | The decoder with its end-of-input test computes that inverse, errors included |
| `KeyedInjection.MissingKeepsDistinct` | docker/build-trust-runtime/spec.go:389-402 | Appending the required entries that are missing keeps keys unique when no key stands for two different entries |
| `KeyedInjection.MissingIsIdempotent` | docker/build-trust-runtime/spec.go:369-476 | Once appended nothing is missing any more, and no conflict has arisen |
| `KeyedInjection.StepTaken` | docker/build-trust-runtime/spec.go:389-396 | A required entry whose key is taken is either already there unchanged or a conflict |
| `KeyedInjection.StepFree` | docker/build-trust-runtime/spec.go:397-401 | A required entry whose key is free is appended and is then recorded |
| `OciPatch.ExactMountIsEquality` | docker/build-trust-runtime/spec.go:499-520 | The field-by-field comparison of a mount holds exactly for the expected mount |
| `OciPatch.ScanEnv` | docker/build-trust-runtime/spec.go:374-388 | The scan accepts exactly valid assignments with distinct names and records each name's value |
| `OciPatch.AppendEnv` | docker/build-trust-runtime/spec.go:389-402 | Appends what is missing and fails on a name that has another value |
| `OciPatch.ScanMounts` | docker/build-trust-runtime/spec.go:412-447 | The scan accepts exactly valid mounts with distinct destinations |
| `OciPatch.CheckDevMounts` | docker/build-trust-runtime/spec.go:448-454 | Every qualified device mount must be present exactly |
| `OciPatch.AppendMounts` | docker/build-trust-runtime/spec.go:455-473 | Appends the trust mounts that are missing and fails on a destination that is mounted otherwise |
| `OciPatch.OciSpec.InjectEnvironment` | docker/build-trust-runtime/spec.go:369-405 | Succeeds exactly when the environment admits the required one; then only process.env changes, otherwise nothing |
| `OciPatch.OciSpec.InjectMounts` | docker/build-trust-runtime/spec.go:407-476 | Succeeds exactly when the mounts admit the trust mounts; then only mounts changes, otherwise nothing |
| `OciPatch.PatchQualified` | docker/build-trust-runtime/spec.go:155-174 | Both injections on one config give the patched value or an error |
| `OciPatch.PatchedEnvironmentIsConservative` | docker/build-trust-runtime/spec.go:369-405 | The old environment is a prefix, names stay unique, the bound holds, every required assignment is present, and nothing else is added |
| `OciPatch.PatchedMountsAreConservative` | docker/build-trust-runtime/spec.go:407-476 | The same for the mounts and their destinations |
| `OciPatch.PatchIsConservative` | docker/build-trust-runtime/spec.go:155-174 | Everything outside the two lists is unchanged and the envelope stays qualified |
| `OciPatch.PatchIsIdempotent` | docker/build-trust-runtime/spec.go:125-174 | The patched value is accepted again and patched to itself, for sources whose mounts are valid |
| `OciPatch.ProductionSourcesAreValid` | docker/build-trust-runtime/spec.go:31-35 | The three production sources meet that condition |
| `OciPatch.IdempotentIffSourcesValid` | docker/build-trust-runtime/spec.go:125-174 | Whatever the config, a config patched once is patched to itself if and only if every source's own mount is valid; otherwise the second patch is an error |
| `GoJson.MarshalledMeans` | docker/build-trust-runtime/spec.go:155-174 | What is marshalled means the value it was made from |
| `GoJson.MarshalledBounds` | docker/build-trust-runtime/spec.go:176-254 | A value within the decoder's bounds marshals to a document within them |
| `GoJson.MeaningBounds` | docker/build-trust-runtime/spec.go:176-254 | A decoded value is within the bounds |
| `GoJson.DecodedIsWellFormed` | docker/build-trust-runtime/spec.go:176-254 | From well-formed tokens (strings in UTF-8, JSON number texts) the decoder makes a well-formed value within its bounds |
| `GoJson.MarshalThenDecode` | docker/build-trust-runtime/spec.go:155-190 | The decoder returns the value that was marshalled, for every well-formed value within the bounds |
| `GoJson.PromisesCanBeKept` | docker/build-trust-runtime/spec.go:155-190 | A lexer and a printer with the two properties asked of encoding/json exist |
| `ConfigText.PatchOCIConfig` | docker/build-trust-runtime/spec.go:125-174 | Text in, text out: size bound, UTF-8, decode, envelope, patch, marshal, size bound, newline |
| `ConfigText.PatchStaysBounded` | docker/build-trust-runtime/spec.go:155-174 | Patching never leaves the decoder's depth, field, item and string bounds |
| `ConfigText.PatchStaysWellFormed` | docker/build-trust-runtime/spec.go:155-174 | Patching a well-formed config with sources in UTF-8 leaves it well formed |
| `ConfigText.ProductionSourcesAreUtf8` | docker/build-trust-runtime/spec.go:31-35 | The three production sources are in UTF-8 |
| `ConfigText.EncodedDecodes` | docker/build-trust-runtime/spec.go:134-174 | The output decodes to the patched value exactly when it is within the size bound |
| `ConfigText.PatchTextTwice` | docker/build-trust-runtime/spec.go:125-174 | Patching the output again reproduces it byte for byte if and only if it is within the size bound; otherwise it is one byte too long, because of the newline, and is refused |
| `QualifiedConfig.SomeConfigIsAccepted` | docker/build-trust-runtime/spec.go:125-174 | A config that is qualified, well formed and bounded, and that production patching accepts, exists |
| `BoundaryConfig.OutputCanExceedTheBound` | docker/build-trust-runtime/spec.go:134-174 | For every config that can be patched, a lexer and a marshaller as promised can make the output one byte too long, and it is refused |
| `BoundaryConfig.ProductionOutputCanExceedTheBound` | docker/build-trust-runtime/spec.go:134-174 | The same with the production sources, for a concrete config |
| `ProxyHead.HeadIsUnique` | docker/nested-relay/main.go:337-384 | A byte stream starts with at most one request head |
| `ProxyHead.HeadGoesOn` | docker/nested-relay/main.go:341-383 | Wherever a stream can still be an admissible head, the next line passes every check of the loop |
| `ProxyHead.Reader.Fill` | docker/nested-relay/main.go:338 | A read moves bytes from the connection into the buffer and changes nothing in the stream |
| `ProxyHead.Reader.ReadSlice` | docker/nested-relay/main.go:342-347 | The next line, or its absence, depends on the stream alone, however it is chunked |
| `ProxyHead.NextHeaderLine` | docker/nested-relay/main.go:341-373 | One line is accepted exactly when it ends in CRLF, is a valid request line or a valid field that is no proxy credential, and fits |
| `ProxyHead.InjectProxyAuthorization` | docker/nested-relay/main.go:337-384 | Succeeds exactly on an admissible head; the bytes sent are the head with the credential line last; a rejected head sends nothing; what is left in the reader is the rest |
| `ProxyHead.InjectionOnlyInserts` | docker/nested-relay/main.go:374-380 | Bytes sent plus bytes left equal the input with one line put in just before the blank line |
| `ProxyHead.SentHeadHasOneCredential` | docker/nested-relay/main.go:374-380 | However a receiver cuts the sent head into lines it finds the original lines and one credential field, the last |
| `ProxyHead.OneCredentialIffSpelled` | docker/nested-relay/main.go:374-380 | For every credential at all: the sent head can be read with exactly one proxy credential, anywhere and with anything behind its blank line, if and only if the credential is a valid field value followed by nothing but valid fields, none a credential, up to a blank line |
| `ProxyHead.CredentialLastIffValueThenBlank` | docker/nested-relay/main.go:374-380 | It can be read with the one credential as its last field, with anything behind its blank line, if and only if the credential is a valid field value, alone or followed by a line end and then nothing or a blank line |
| `ProxyHead.OneCredentialIffValidValue` | docker/nested-relay/main.go:374-380 | It reads to its end, with nothing left over and the one credential as its last field, if and only if the credential is a valid field value |
| `ProxyHead.BoundedWriter.Write` | docker/nested-relay/main.go:55-71 | Never passes more than remains, reports the limit exactly when it cut, and counts what passed |
| `ProxyHead.CopyReader` | docker/nested-relay/main.go:50-71 | The copy from the reader, whatever its buffer holds: a prefix of its stream of at most maxBytes, the longest such prefix unless the destination fails, with the limit reported exactly |
| `ProxyHead.CopyBounded` | docker/nested-relay/main.go:50-71 | What passes through the writer is a prefix of what was offered of at most maxBytes, the longest such prefix unless the destination fails |
| `ProxyHead.ForwardUp` | docker/nested-relay/main.go:297-320 | The whole upstream direction on one reader: nothing of an inadmissible stream; of an admissible one the head with the credential and then the longest prefix of the rest of at most maxBytes, unless upstream fails |
| `ProxyHead.ForwardedOnlyInserts` | docker/nested-relay/main.go:297-380 | What upstream got of an admissible stream is a prefix of it with one line put in before the blank line |
| `ProxyCredential.DecodeEncoded` | docker/nested-relay/main.go:191 | Base-64 decoding undoes encoding (section 4 of RFC 4648) |
| `ProxyCredential.ValidateProxyAuthorization` | docker/nested-relay/main.go:187-202 | Accepts exactly a Basic credential that decodes to the fixed user and some 43-byte bundle token |
| `ProxyCredential.IssuedIsAccepted` | docker/nested-relay/main.go:187-202 | Every bundle credential as it is issued is accepted and is one line |
| `ProxyCredential.LineBreakStaysAccepted` | docker/nested-relay/main.go:191 | A CR or LF put anywhere after the scheme leaves a credential accepted and makes it no field value |
| `ProxyCredential.AcceptedIsFieldValueIffOneLine` | docker/nested-relay/main.go:187-202 | An accepted credential is a valid field value if and only if it holds no CR and no LF |
| `ProxyCredential.AcceptedCredentialReadsIffOneLine` | docker/nested-relay/main.go:187-202 | With an accepted credential the sent head reads to its end, with the credential last and nothing left over, if and only if the credential holds no CR and no LF |
| `ProxyCredential.AcceptedCredentialIsOneIff` | docker/nested-relay/main.go:187-202 | It can be read with exactly one proxy credential, anywhere and with anything left over, if and only if the credential is one line or its first line break comes at its end or before a blank line |
| `ProxyCredential.IssuedWithLineEnd` | docker/nested-relay/main.go:187-202 | An issued credential with a line end behind it is accepted, still reads as one credential, and leaves something over |
| `ProxyCredential.IssuedCredentialReads` | docker/nested-relay/main.go:374-380 | With an issued credential every admissible head reads to its end with exactly one proxy credential, its last field |
| `Relay.StepKeepsSafe` | docker/nested-relay/main.go:238-335 | Every step of the accept loop, of a handler, of its copies or of its watcher keeps the relay's invariant |
| `Relay.RunsAreSafe` | docker/nested-relay/main.go:238-335 | The invariant holds after every run |
| `Relay.TokensAreRunningHandlers` | docker/nested-relay/main.go:254-261 | In every reachable state the semaphore's tokens are the handlers that have not released theirs (and the connection just admitted), never more than maxConcurrent |
| `Relay.StreamsGetBothResults` | docker/nested-relay/main.go:303-324 | A finished copy can always send at once; a handler that copied receives exactly one result from each direction |
| `Relay.TwoResultsEach` | docker/nested-relay/main.go:303-324 | Past the second receive the results are up and down, each once, and the channel is empty |
| `Relay.NoSenderBlocks` | docker/nested-relay/main.go:309-318 | The channel of capacity two never blocks a sender |
| `Relay.ReturnLeavesNothing` | docker/nested-relay/main.go:238-267 | When serve has returned no handler is running, no token is held, and every accepted and every dialled connection is closed |
| `Relay.DroppedMeansClosed` | docker/nested-relay/main.go:249-283 | A connection neither in the loop's hands nor still to be dropped by its handler is closed |
| `Relay.NeverStuck` | docker/nested-relay/main.go:238-335 | No deadlock: before serve returns, the loop, or while it waits some handler, can go on |
| `Relay.MoveLowersRank` | docker/nested-relay/main.go:274-335 | Each move of a handler uses up a finite rank |
| `Relay.WaitIsBounded` | docker/nested-relay/main.go:240 | Once serve waits, the number of moves still possible is bounded by the handlers' total rank, in any order |
| `Relay.ReturnsNilIffCancelledFirst` | docker/nested-relay/main.go:242-248 | In every run that ends, serve returns nil if and only if the context ended before it was asked for its error, which may be after Accept failed |
| `HostObserver.StepKeepsSafe` | scripts/workflow-smoke-host-observer.ts:161-413 | Every step of the worker, of any number of stop calls and of the daemon keeps the observer's invariant |
| `HostObserver.AtMostOneHelper` | scripts/workflow-smoke-host-observer.ts:337-403 | In every interleaving at most one helper container is ever created |
| `HostObserver.ForgottenOnlyWhenGone` | scripts/workflow-smoke-host-observer.ts:405-413 | The helper's id is given up only in the step in which an inspection found that container gone |
| `HostObserver.ResolvedStopLeavesNoHelper` | scripts/workflow-smoke-host-observer.ts:186-206 | When some stop call has resolved without throwing no helper exists, nor at any later time |
| `HostObserver.ResponsesAgree` | scripts/workflow-smoke-host-observer.ts:215-261 | All completed observations carry one lease generation and answer different actions and different nonces |
| `HostObserver.CompleteMeansBothProved` | scripts/workflow-smoke-host-observer.ts:208-213 | If assertComplete does not throw there are exactly two responses, one for each action under one generation, and the one helper was made and seen gone |
| `HostObserver.StopNotStuck` | scripts/workflow-smoke-host-observer.ts:186-206 | Once the worker is over, a stop call can always go on until it resolves or throws |
| `ReplaceProtocol.Disk.Rename` | docker/build-trust-runtime/secure_linux.go:517-520 | The one step that changes config.json puts the whole temporary file there at one stroke |
| `ReplaceProtocol.FillTemporary` | docker/build-trust-runtime/secure_linux.go:470-481 | Owner, mode, contents and sync in order: on success the temporary file is the complete output, on disk |
| `ReplaceProtocol.Reread` | docker/build-trust-runtime/secure_linux.go:487-516 | On success config.json was, at the second look, the original inode with the original size, mode, owner and contents |
| `ReplaceProtocol.VerifyReplaced` | docker/build-trust-runtime/secure_linux.go:524-545 | On success config.json was seen, after the rename, with the output, the original mode and owner, and one link |
| `ReplaceProtocol.ReplaceConfigAt` | docker/build-trust-runtime/secure_linux.go:445-546 | With any call failing and others acting between any two calls: no rename leaves config.json to others; a rename puts the complete synced output and only after an unchanged second look; nil means it was put, synced and seen with one link; no descriptor is kept; the temporary name stays if and only if nothing was renamed and its removal was refused |
| `ReplaceProtocol.WriteStableJsonAtomic` | src/hardened-fs.ts:125-152 | The same for the JSON writer, exactly in terms of which calls are refused: what is renamed, when it returns, and when the temporary name stays, which a refused close alone brings about; contents are synced before the rename, the mode set after the sync is not |
| `ReplaceProtocol.RefusedCloseLeavesName` | src/hardened-fs.ts:138-151 | The run: every call succeeds but the close, the writer throws and the temporary name is still there |
| `ReplaceProtocol.OldOrNew` | docker/build-trust-runtime/secure_linux.go:445-546 | Undisturbed, config.json and every link a crash could leave hold, at every moment, what was there before or the complete new file |
| `ReplaceProtocol.NoRenameNoChange` | docker/build-trust-runtime/secure_linux.go:445-516 | Undisturbed, an error before the rename leaves config.json and its crash states untouched |
| `ReplaceProtocol.OldNewOrForeign` | docker/build-trust-runtime/secure_linux.go:445-546 | Whatever others do, config.json always holds the old file, the complete output, or what somebody else put there |
| `ReplaceProtocol.LastingChangePreventsRename` | docker/build-trust-runtime/secure_linux.go:487-520 | Another link, other contents or other metadata that last from before the second look rule the rename out |
| `PatchConfigFile.PatchConfigAt` | docker/build-trust-runtime/secure_linux.go:380-443 | A success means config.json, as seen, was the patched text already, or the patched text was put in its place, synced and seen with the same mode and owner; nothing is renamed unless the text differs, and nothing succeeds or is renamed unless rootfs and config.json passed every check; no descriptor is kept; the temporary name stays if and only if nothing was renamed and its removal was refused |
| `PatchConfigFile.OpenQualified` | docker/build-trust-runtime/secure_linux.go:396-425 | On success the file that config.json linked to had the required owner, mode, size and one link and was neither directory, and the text is what it held |
| `PatchConfigFile.PatchBeside` | docker/build-trust-runtime/secure_linux.go:396-431 | From the open config.json on: patched, and replaced only if changed |
| `PatchConfigFile.SecondRunLeavesFileAlone` | docker/build-trust-runtime/secure_linux.go:428-430 | What an earlier run wrote is patched to itself |
| `PatchConfigFile.SecondRunRenamesNothing` | docker/build-trust-runtime/secure_linux.go:380-431 | If nobody else touches the directory from before a successful run until after a second one, the second renames nothing |
| `PatchConfigFile.PatchTwice` | docker/build-trust-runtime/secure_linux.go:380-431 | The same for two calls with the trust patch on one disk, where any of their system calls may fail |
| `DirectoryWalk.Process.OpenAbsoluteDirectory` | docker/build-trust-runtime/secure_linux.go:168-204 | A success holds exactly one more descriptor, for the directory the path names, with every directory on the way admitted; a failure holds none |
| `RoleClusters.MergeAddsEdge` | scripts/role-clusters.ts:49-53 | Pointing one representative at another makes the partition that of one more edge |
| `RoleClusters.ForestCompress` | scripts/role-clusters.ts:43-45 | Path compression keeps the parent map a forest with the same parts |
| `RoleClusters.ForestAttach` | scripts/role-clusters.ts:52 | Linking one root below another keeps the forest acyclic and merges exactly the two parts |
| `RoleClusters.UnionFind.Root` | scripts/role-clusters.ts:41-47 | Finds the representative, terminates, and leaves the partition as it was |
| `RoleClusters.UnionFind.Union` | scripts/role-clusters.ts:49-53 | Merges the parts of its two arguments and no others |
| `RoleClusters.UnionFind.Clusters` | scripts/role-clusters.ts:55-63 | Every part as one cluster with all its nodes in key order |
| `RoleClusters.CollectToolRoles` | scripts/role-clusters.ts:76-90 | Each tool key has the roles of its last annotation without "none"; keys in insertion order |
| `RoleClusters.IndexRoles` | scripts/role-clusters.ts:92-99 | Each role lists exactly the tools that play it, in key order |
| `RoleClusters.StarsSuffice` | scripts/role-clusters.ts:106-110 | Joining each role's tools in a star joins every two tools that share a role, and no others |
| `RoleClusters.ClusterTools` | scripts/role-clusters.ts:76-113 | Two tools are in the same cluster exactly when a chain of shared roles links them; every tool is in exactly one cluster, once |
| `RoleClusters.ClustersShareNoRole` | scripts/role-clusters.ts:7-10 | Clusters are independent: no role is played in two of them |
| `RoleClusters.RolelessToolsStayAlone` | scripts/role-clusters.ts:103-104 | A tool with no role but "none" is a cluster of its own |
| `Calendar.DateOfDayNumber` | src/cron/cron-scheduler.ts:128-150 | Year, month and day of a date's day number are that date, for all years of the proleptic Gregorian calendar |
| `Calendar.DayNumberOfDate` | src/cron/cron-scheduler.ts:128-150 | And the day number of a day's date is that day |
| `Calendar.DateComesRound` | src/cron/cron-scheduler.ts:155-171 | Any 366 consecutive days contain every date other than 29 February |
| `Calendar.WeekdayComesRound` | src/cron/cron-scheduler.ts:155-171 | Any 366 consecutive days contain every weekday within every month, also when the month is cut in two |
| `Cron.AddSteps` | src/cron/cron-scheduler.ts:86-94 | The step loop adds exactly the whole steps from the start up to the end |
| `Cron.ParseField` | src/cron/cron-scheduler.ts:74-105 | Fails exactly on a bad step, range or value; otherwise the set holds exactly what some part stands for |
| `Cron.ParseExpression` | src/cron/cron-scheduler.ts:107-126 | All five fields parse; 7 means Sunday; every set is inhabited and within its range |
| `Cron.DayMatchesMeans` | src/cron/cron-scheduler.ts:139-149 | The rule by set sizes in terms of the sets: both must match, or either when both are restricted |
| `Cron.GetNextFireTime` | src/cron/cron-scheduler.ts:155-171 | The earliest matching minute strictly after the instant if the window has one, else the instant 366 days later |
| `Cron.AlwaysFoundIffNotOnlyLeapDays` | src/cron/cron-scheduler.ts:155-171 | The search succeeds from every instant if and only if a weekday may decide or some month of the expression has one of its days in an ordinary year; that is, if and only if it can match on some date other than 29 February |
| `Cron.LeapDayCanBeMissed` | src/cron/cron-scheduler.ts:169-170 | Midnight on 29 February: a valid expression that will match and that the search misses |
| `CronScheduler.FiresInTickedHits` | src/cron/cron-scheduler.ts:203-221 | A job fires in a minute exactly when the minute matches and has a tick, for any ticks |
| `CronScheduler.FiresOnceIffNoReturn` | src/cron/cron-scheduler.ts:203-221 | It fires at most once in each minute if and only if the clock never comes back to a matching minute after another one |
| `CronScheduler.OncePerHitMinute` | src/cron/cron-scheduler.ts:203-221 | With a non-decreasing clock: exactly once in each matching minute that contains a tick |
| `CronScheduler.ClockSetBackFiresTwice` | src/cron/cron-scheduler.ts:209-214 | A clock set back by a minute fires twice in the same minute |
| `CronScheduler.KeptByTick` | src/cron/cron-scheduler.ts:203-221 | One tick appends to the history of a job's callbacks exactly when the job fires, and the job remembers the last |
| `CronScheduler.Scheduler.Schedule` | src/cron/cron-scheduler.ts:224-238 | An invalid expression changes nothing; a valid one replaces the job's schedule; polling is on exactly when a job is registered |
| `CronScheduler.Scheduler.Unschedule` | src/cron/cron-scheduler.ts:240-245 | Removes the job alone and stops polling with the last |
| `CronScheduler.Scheduler.UnscheduleAll` | src/cron/cron-scheduler.ts:247-250 | Removes all jobs and stops polling |
| `CronScheduler.Scheduler.Tick` | src/cron/cron-scheduler.ts:203-221 | Every job sees the tick; exactly the due ones have their callback called, which their history records, and each remembers its last |
| `CronScheduler.Scheduler.CalledOncePerHitMinute` | src/cron/cron-scheduler.ts:203-221 | In every state a registered job's callback was called in exactly the matching minutes that had a tick, and never twice in one if and only if the clock did not return |
| `CronScheduler.Scheduler.GetNextRun` | src/cron/cron-scheduler.ts:252-256 | The first matching minute after now for a registered job |
| `ModelMapping.PatternTextMeansGlob` | src/config/model-mapping.ts:2-8 | The expression text built from any glob reads back as that glob: all special characters stand for themselves, a star for any run |
| `ModelMapping.TestIffCut` | src/config/model-mapping.ts:13-18 | A name matches exactly when it can be cut into one piece for each atom |
| `ModelMapping.FirstHitWins` | src/config/model-mapping.ts:13-18 | The first matching rule gives the model |
| `ModelMapping.Globs.GlobToRegExp` | src/config/model-mapping.ts:5-11 | The cache never changes the expression for a glob |
| `ModelMapping.Globs.ResolveMappedModel` | src/config/model-mapping.ts:13-18 | The search with the cache gives the first matching rule's model or none |
| `GatewayClient.ProxyMapsOnce` | src/config/gateway-client.ts:37-63 | Proxy-owned: resolving what the client emits gives the selection the request means, if and only if the request does not fall back to a default that a rule maps elsewhere, which is told from policy, override and rules before anything is resolved; errors coincide |
| `GatewayClient.ClientMapsOnce` | src/config/gateway-client.ts:37-63 | Client-owned: the emitted identifier is the selection, and the proxy sends on just that if and only if an override decides, it is no auxiliary identifier, or resolving it again keeps it |
| `GatewayClient.FallsBackIffDefaultSource` | src/config/provider-definitions.ts:256-281 | That condition holds exactly when the selection's source is the default and a rule maps the default elsewhere |
| `GatewayClient.VendorRuleRemapsTheFallback` | src/config/gateway-client.ts:37-63 | At the built-in gateway with one rule for its own vendor: every chat request without a z falls back to the default, and the proxy turns that into the rule's model |
| `GatewayClient.SelectedIdWouldMapTwice` | src/config/gateway-client.ts:56-62 | Feeding selected identifiers back would map some requests twice |
| `GatewayClient.CommandMapsOnce` | src/config/gateway-client.ts:142-153 | A command's model, too, is mapped once for a proxy-owned gateway |
| `GatewayClient.MessagesAliases` | src/config/gateway-client.ts:65-80 | The alias loop gives a tier an alias exactly under the stated conditions, with the selected or the requested identifier |
| `GatewayClient.AliasesMapOnce` | src/config/gateway-client.ts:65-80 | An alias ends at the model its tier means: always for a proxy-owned gateway, for a client-owned one if and only if it is no auxiliary identifier or resolving it again keeps it |
| `GatewayClient.DefaultMapMapsOnce` | src/config/provider-definitions.ts:114-134 | With its default map the built-in proxy-owned gateway maps once for every request |
| `ProviderProfiles.InputResolvesBack` | src/config/provider-editor.ts:18-37 | Editor input made from a resolved profile resolves to the same; omitted maps stay omitted and explicit empty ones explicit |
| `ProviderProfiles.StripEnvProviderKeys` | src/config/user-config.ts:1299-1326 | The loop replaces each key equal to the variable's by the one on disk, or removes it |
| `ProviderProfiles.EnvKeyIsNeverWritten` | src/config/user-config.ts:1283-1326 | Whatever was edited, an outgoing key equal to the variable's was already on disk for that profile and service |
| `ProviderProfiles.TypedKeyIsKept` | src/config/user-config.ts:1283-1326 | A profile whose key differs from the variable's is written as it is |
| `ProviderProfiles.SavingTheViewChangesNothing` | src/config/user-config.ts:1076-1125 | Load, overlay, convert and save unchanged: every stored key and map stays, and the saved profiles resolve to the same registry |
| `ProviderProfiles.WithoutStripTheKeyLeaks` | src/config/user-config.ts:1284-1292 | Without the stripping an environment key would be written |
| `EditSession.DeepMergeConfig` | src/config/user-config.ts:1264-1281 | The merge key by key: absent keeps, an empty section deletes, a section joins a section, anything else replaces |
| `EditSession.MergedIsOk` | src/config/user-config.ts:386-458 | Consistent pending names give a merged file that passes the refinements on default, profiles and host bindings |
| `EditSession.OtherKeysStay` | src/config/user-config.ts:1264-1281 | The session's changes leave every other key of the file alone |
| `EditSession.RepointDefaultAfterDelete` | src/config/config-command.ts:153-156 | The default after a deletion names a remaining profile or "native", and changes only if it must |
| `EditSession.Session.AddProfile` | src/config/config-command.ts:1009-1039 | Adds exactly a new, non-blank, non-reserved name that is no member of every object; otherwise nothing changes |
| `EditSession.Session.SetDefaultProfile` | src/config/config-command.ts:1041-1066 | The default becomes the chosen existing profile or "native"; profiles unchanged |
| `EditSession.Session.ChangeProfile` | src/config/config-command.ts:1107-1146 | Replaces one gateway profile's value and nothing else |
| `EditSession.Session.DeleteProfile` | src/config/config-command.ts:1120-1138 | Deletes exactly a confirmed, gateway profile that no host role uses, and re-points the default |
| `EditSession.Session.BindHostRole` | src/config/config-command.ts:1192-1213 | Binds one role to an existing profile or "native" |
| `EditSession.Session.ApplyAll` | src/config/config-command.ts:959-1007 | After every sequence of edits, default and every host binding name an existing profile or "native", and "native" is no stored profile |
| `EditSession.Session.Save` | src/config/user-config.ts:1336-1373 | Refused only over another section; the written file passes the refinements, its profiles are the merged ones without environment keys, and every other key is the file's, with the legacy mode and workload block brought up to date |
| `EditSession.NormalisedIsSettled` | src/config/user-config.ts:1351-1370 | A second save rewrites no legacy value again |
| `EditSession.SavingUnchangedKeepsTheRegistry` | src/config/config-command.ts:122-142 | Opening the editor on any valid file and saving what it shows keeps the registry, the default and every stored key |
| `ConfigBackfill.ComputeMissingDefaults` | src/config/user-config.ts:802-829 | The nested loops compute exactly the missing defaults, one level deep, without sensitive fields; null when there are none |
| `ConfigBackfill.ApplyPatchToFileContent` | src/config/user-config.ts:835-849 | For any file and patch: into a section goes what spreading the patch's value copies, anything else is replaced, the rest stays |
| `ConfigBackfill.BackfillMissingFields` | src/config/user-config.ts:777-795 | Nothing is written when nothing is missing; otherwise the backfilled content |
| `ConfigBackfill.UserValuesSurvive` | src/config/user-config.ts:777-849 | Every user value is in the backfilled file, and only defaults were added |
| `ConfigBackfill.SecondBackfillAddsNothing` | src/config/user-config.ts:802-829 | A second backfill finds nothing to add |
| `ConfigBackfill.BackfillKeepsMeaning` | src/config/user-config.ts:956-1064 | Merging the backfilled file with the defaults gives what merging the original gives |
| `ConfigBackfill.ShippedBackfillIsHarmless` | src/config/user-config.ts:32-73 | The same for the defaults that ship |
| `ConfigBackfill.ExplicitNullSurvives` | src/config/user-config.ts:991-997 | An explicit null keeps its meaning through backfill and merge |
| `KendallTau.RankMap` | scripts/memory-corpus/diagnose-lib.ts:261-262 | The last position of each identifier |
| `KendallTau.CountPairs` | scripts/memory-corpus/diagnose-lib.ts:267-278 | The loops count the discordant pairs, and concordant and discordant together are all pairs |
| `KendallTau.KendallTau` | scripts/memory-corpus/diagnose-lib.ts:258-282 | For any two orderings the result is pairs less twice the discordant ones, over pairs |
| `KendallTau.TauCountsInversions` | scripts/memory-corpus/diagnose-lib.ts:258-282 | Without repeats the numerator is pairs less twice the inversions of the shared identifiers, and lies between minus pairs and pairs |
| `KendallTau.TauIsSymmetric` | scripts/memory-corpus/diagnose-lib.ts:249-257 | Without repeats the statistic is symmetric in its arguments |
| `KendallTau.TauIsOneIffSameOrder` | scripts/memory-corpus/diagnose-lib.ts:249-257 | It is 1 exactly when the shared identifiers come in the same order |
| `KendallTau.SymmetricIffDistinct` | scripts/memory-corpus/diagnose-lib.ts:258-282 | An ordering is symmetric against every ordering without repeats if and only if it has no repeats itself |
| `KendallTau.RepeatBreaksSymmetry` | scripts/memory-corpus/diagnose-lib.ts:258-282 | An ordering that repeats x gives -1 against x alone, and x alone gives 1 against it |
| `StratifiedSample.ShuffleInPlace` | scripts/memory-corpus/diagnose-lib.ts:509-514 | The shuffle permutes, whatever the random numbers |
| `StratifiedSample.GroupRows` | scripts/memory-corpus/diagnose-lib.ts:474-480 | The groups partition the rows by bucket |
| `StratifiedSample.FirstPass` | scripts/memory-corpus/diagnose-lib.ts:489-496 | Every group gives its share or all it has; the rest is left over |
| `StratifiedSample.SampleRows` | scripts/memory-corpus/diagnose-lib.ts:466-507 | Exactly the number asked for or all there are, as a sub-multiset of the rows, with every group's even share when there are no more groups than places |
| `StratifiedSample.Sample` | scripts/memory-corpus/diagnose-lib.ts:466-507 | The identifiers returned are those of such rows, in the number asked for or as many as there are |
| `Utf8Tail.DecodeEncoded` | scripts/smoke-nested-apple-tui.ts:17-18 | Decoding undoes encoding for every text (section 3 of RFC 3629) |
| `Utf8Tail.AppendBoundedOutput` | scripts/smoke-nested-apple-tui.ts:16-24 | The result is the longest tail of whole code points that fits |
| `Utf8Tail.TailStartsAtBoundary` | scripts/smoke-nested-apple-tui.ts:19-23 | Skipping continuation bytes from the cut ends at the start of a code point, at most three bytes further |
| `Utf8Tail.TailForgetsTheFront` | scripts/smoke-nested-apple-tui.ts:16-24 | Cutting early loses nothing that a later cut would keep |
| `Utf8Tail.AppendAll` | scripts/smoke-nested-apple-tui.ts:16-24 | Folding any chunks gives the tail of the whole stream |
| `Utf8Tail.TailIsSuffix` | scripts/smoke-nested-apple-tui.ts:20-23 | The tail's bytes are the last bytes of the stream, starting at a code point |
| `Utf8Tail.TailKeepsEnough` | scripts/smoke-nested-apple-tui.ts:18-23 | Once the stream has exceeded the limit all but at most three of the allowed bytes are kept |
| `Utf8Tail.TailIsLongest` | scripts/smoke-nested-apple-tui.ts:20-23 | No longer run of whole code points at the end would fit |

## Left out

- Number texts: in `StableStringify` a finite number is its printed text, so how JavaScript prints doubles (and that it prints minus zero as zero) is given; BigInt, `toJSON`, symbols, functions and cyclic values are not values of the model.
- SHA-256 is left out: the results are about the text that is hashed.
- The lexer inside Go's `json.Decoder` and the printer inside `json.Marshal` are parameters of `ConfigText`; asked of them is that the lexer hands out well-formed tokens only, and that what the printer writes for a well-formed value within the decoder's bounds is UTF-8 and is read back, member order aside.
- ReplaceConfigAt: does not model set-id bits that a write clears; the random temporary name is taken to be known to nobody else, and an object under config.json that is not a regular file counts as missing.
- WriteStableJsonAtomic: does not model another thread that opens a file between the two closes and gets the stale descriptor's number.
- PatchConfigAt: takes the bundle's identity and the policy as given; the trust contract's checks are left out because they only compare numbers, and in `DirectoryWalk` they are one predicate.
- The relay's configuration parsing other than its credential. Dialling, deadlines and copying appear in `Relay` as steps that may fail or end at any time; the bytes that pass are in `ProxyHead`.
- Receivers that end a header line at a bare LF are not modelled: a reading of the sent head is one of lines ended by CRLF.
- `Relay` and `HostObserver` are on values, not classes: their subject is the interleaving, which update in place would hide.
- The inspections inside `observe` (labels, mounts, trust files, snapshot protocol) are one step of `HostObserver` that may fail; how the helper is created is given, including that creation may fail after the container exists.
- Report printing and the sorting of clusters in `scripts/role-clusters.ts`; the server of a tool is part of the tool.
- Time zones and daylight saving; splitting a cron text into fields and numbers, with the leniency of `parseInt`. Callbacks that call the scheduler back during a tick.
- Case folding beyond ASCII letters in globs.
- The Responses catalogue, routes and credentials of `src/config/gateway-client.ts`: no property across functions.
- Prompts are inputs of `EditSession`; what each field editor does with a profile is an arbitrary new value. Names that JavaScript finds on `Object.prototype` matter only where a new profile is named. The web interface's profile renames appear only in `Strip`.
- Schema checks other than the references between profiles, default and host bindings: their verdict is an input of `Save`. Migrations of legacy fields other than the two that a save makes.
- Writing and reading the configuration file itself, and the log lines about it.
- Means, percentiles and the other floating-point statistics; the seeded generator behind the sample, which may be any source of numbers.
- Ill-formed UTF-16 in the terminal text: chunks are sequences of Unicode scalar values.
