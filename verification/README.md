# mcpg-operator-api: a verified model

The `mcpg-operator-api` crate declares the Kubernetes resources of the MCPG operator. Besides
declarations it holds a handful of algorithms that the operator trusts with whatever a cluster
administrator writes. This project models those algorithms in Dafny and proves what they guarantee
for all inputs, over whole runs where they change state.

| file | what it models |
|---|---|
| `Conditions.dfy`, `ConditionRuns.dfy` | the status-condition list as a state machine, and runs of updates on it |
| `PluginMirror.dfy`, `OciReferences.dfy`, `MirrorProperties.dfy` | rewriting an upstream OCI reference onto an in-cluster mirror |
| `Addresses.dfy`, `Server.dfy` | the in-cluster addresses that mirror, server and managed coordinator print |
| `Json.dfy`, `Cluster.dfy`, `ClusterProperties.dfy` | the two renderers of the gateway's `cluster:` block, the transport guard, the managed names |
| `CanonicalLists.dfy`, `Route.dfy` | sort and adjacent dedup in place; the distinct plugin ids of a route |
| `Tenant.dfy`, `TenantExclusivity.dfy`, `MirrorAllowlist.dfy` | namespace overlap, exclusive ownership over runs, the plugin allowlist |
| `RevocationList.dfy` | the case-insensitive set of revoked hashes |
| `Text.dfy`, `Wrappers.dfy` | string operations of the Rust standard library, options and integer ranges |

Modelling choices:

- The condition vector is a class whose `conditions` field the method reassigns; the calls made so far
  are a ghost history. A call carries the caller's clock reading as its `lastTransitionTime`.
- Strings are sequences of Unicode scalar values. Their order by code point is the order Rust gives
  their UTF-8 bytes. Whitespace is the Unicode White_Space property.
- A JSON object is a map, so the order in which entries are inserted is immaterial; the renderers
  insert the config in an arbitrary order, of which ascending key order is one.
- `sort` and `sort_unstable` are library code. They are modelled as an insertion sort on an array, and
  `dedup` as the two-pointer loop that the library uses. Equal strings cannot be told apart, so
  stability plays no part.
- The crate says that admission rejects overlapping tenants; the webhook itself is elsewhere.
  `TenantStore` models only the gate described: a write is admitted when `overlapping_namespaces`
  against every other stored tenant is empty.

Three places where documentation and code differ:

- `src/v1alpha1/plugin_mirror.rs:151-153` says that namespace `mcpg-dev` does not match
  `ghcr.io/mcpg-dev/source-code/plugins/audit:1.0.0`. The code matches it and keeps
  `source-code/plugins/audit:1.0.0`; see `MirrorProperties.ShortNamespaceDoesMatch`.
- `src/v1alpha1/plugin_mirror.rs:32-34` promises without condition that tag and digest survive a
  rewrite. They do exactly when the two fixed heads carry the same pin, which any configuration
  without `@` meets; see `MirrorProperties.PinPreservedIff`, `MirrorProperties.PinPreserved` and
  `MirrorProperties.AtInOneHeadLosesPin`; `MirrorProperties.PinLostExample` is a mirror that breaks it.
- `src/v1alpha1/cluster.rs:529-531` says that the guard returns a reason when the rendered coordinator
  would be plaintext and the opt-out is not present in `spec.config`. It does not in two classes of
  specs. A managed coordinator without TLS is rendered plaintext with the opt-out in the block, not in
  `spec.config`; every admissible one is such a spec. And a `kind` key in the config changes what is
  rendered but not what the guard looks at, so a `redis` spec with `kind: nats` and
  `tls.require_tls: false` renders plaintext nats. `ClusterProperties.PromiseBrokenIff` is the exact
  condition, `ClusterProperties.DefaultManagedBreaksPromise` and
  `ClusterProperties.PlaintextNatsBehindRedis` are an instance of each class. If an opt-out in the block
  counts as well, only the second class remains; see `ClusterProperties.MissedIff`.

Dafny 4.11 checks everything with `dafny verify dfyconfig.toml`.

## Model

| member | source | states |
|---|---|---|
| `Conditions.ConditionList.SetCondition` | src/conditions.rs:133-144 | one call overwrites the first entry of the type or appends, carries the transition time over an unchanged status, and keeps the list equal to the replay of its history |
| `Conditions.LookupUpdated` | src/conditions.rs:134-143 | what a client reads after a call, for the type updated and for every other type |
| `Conditions.ReplaySummarises` | src/conditions.rs:129-144 | after any sequence of calls on an empty list: one entry per type in order of first occurrence, equal to the last call for the type except for the time of the earliest call in the latest unbroken run of equal statuses |
| `Conditions.SummaryUnique` | src/conditions.rs:129-144 | that description fits one list only |
| `Conditions.FirstTypesMeaning` | src/conditions.rs:141-143 | every type called is listed exactly once |
| `Conditions.FirstTypesInOrder` | src/conditions.rs:141-143 | types are listed in order of first occurrence |
| `ConditionRuns.ReplayOfFirsts` | src/conditions.rs:134-143 | on any list, dropping the entries behind another of their type before a run or after it comes to the same |
| `ConditionRuns.ReplayFromSummarises` | src/conditions.rs:133-144 | the same description for the first entries of any starting list, and for all entries when there are no duplicate types, which then stay distinct |
| `ConditionRuns.ShadowedEntryFrozen` | src/conditions.rs:134 | an entry behind another of its type is never written |
| `ConditionRuns.OtherTypesDoNotInterfere` | src/conditions.rs:134-143 | deleting every call for other types leaves the entry of a type unchanged |
| `ConditionRuns.InterleavingsAgree` | src/conditions.rs:134-143 | any two interleavings of traces over disjoint types give the same lookup for every type |
| `ConditionRuns.InterleavingsLeaveSameEntries` | src/conditions.rs:134-143 | on any list, they leave the starting entries identical in place and the appended ones at most in another order |
| `ConditionRuns.CommuteIff` | src/conditions.rs:134-143 | two updates of different types commute exactly when at least one of them overwrites |
| `ConditionRuns.EntriesPersist` | src/conditions.rs:134-140 | no entry moves, goes or changes type; status and time stand until a call reports another status |
| `ConditionRuns.TransitionTimesMonotone` | src/conditions.rs:34-35 | with calls in time order, between any two points of a run a transition time never goes back, and it moves only if a call in between flips the status |
| `ConditionRuns.RepeatedCallDroppable` | src/conditions.rs:135-140 | a call that repeats the stored status and is followed by another for its type can be dropped |
| `Addresses.PrintText` | src/v1alpha1/plugin_mirror.rs:123-129 | `<name>.<namespace>.svc.cluster.local:<port>`, spelled out for all names and ports |
| `Text.PrintNatDigit` | src/v1alpha1/plugin_mirror.rs:126-127 | counted from the end, each character of a printed number is the digit of its place |
| `Text.PrintNatComplete` | src/v1alpha1/plugin_mirror.rs:126-127 | no digit is missing and none is a leading zero |
| `Addresses.ParseIffPrinted` | src/v1alpha1/plugin_mirror.rs:123-129 | the address reader returns an address exactly for the printed text of one with a dot-free namespace |
| `Server.EndpointText` | src/v1alpha1/server.rs:211-241 | `http://<service>.<namespace>.svc.cluster.local:<port>/<path>`, spelled out, with 8080 and `mcp` for what is absent |
| `Server.ParseUrlIff` | src/v1alpha1/server.rs:234-241 | the endpoint reader returns address and path exactly for printed URLs with separable parts |
| `Server.EndpointRoundTripIff` | src/v1alpha1/server.rs:211-241 | an endpoint gives back Service, namespace, effective port and path, for every i32 port, exactly when neither name has a slash and the namespace no dot |
| `Server.EndpointsEqualIff` | src/v1alpha1/server.rs:211-241 | for any Service and namespace, two specs have one endpoint exactly when they stand for one port and path, where 8080 and `/mcp` are the defaults and the leading slash is optional |
| `MirrorProperties.RewriteText` | src/v1alpha1/plugin_mirror.rs:234-257 | the whole rule from the fields as written: which images match, and the output with its host, path and literals spelled out |
| `MirrorProperties.EveryMirrorIsWritten` | src/v1alpha1/plugin_mirror.rs:235-255 | that rule leaves no mirror out |
| `MirrorProperties.RewriteIffRestore` | src/v1alpha1/plugin_mirror.rs:234-257 | rewriting and replacing the endpoint base by the upstream prefix are inverse bijections |
| `MirrorProperties.RewriteInjective` | src/v1alpha1/plugin_mirror.rs:234-257 | distinct images never collide on one mirror |
| `MirrorProperties.PinPreservedIff` | src/v1alpha1/plugin_mirror.rs:32-34 | tag and digest survive exactly when the two exchanged heads carry the same pin |
| `MirrorProperties.PinPreserved` | src/v1alpha1/plugin_mirror.rs:32-34 | they survive for every configuration without `@`, although the host carries a port |
| `MirrorProperties.AtInOneHeadLosesPin` | src/v1alpha1/plugin_mirror.rs:32-34 | with `@` in one head only, every rewrite changes tag or digest |
| `MirrorProperties.PinLostExample` | src/v1alpha1/plugin_mirror.rs:32-34 | a mirror and an image for which the promise fails |
| `MirrorProperties.RewriteRehomesIff` | src/v1alpha1/plugin_mirror.rs:226-229 | host and path prefix take the place of registry and namespace before the same repository suffix, tag and digest, exactly when the configuration has no `@` |
| `MirrorProperties.RegistriesSeen` | src/v1alpha1/plugin_mirror.rs:123-129 | when a reader sees the configured registry, when the mirror host, and when that host gives back name, namespace and port of the mirror Service |
| `OciReferences.ParseLossless` | src/v1alpha1/plugin_mirror.rs:19-30 | the reader of references, by which the results on tags and digests are stated, loses nothing |
| `OciReferences.ParseIff` | src/v1alpha1/plugin_mirror.rs:32-34 | the reader accepts exactly the printed references whose parts can be told apart, and returns them; a registry port is no tag |
| `OciReferences.PinText` | src/v1alpha1/plugin_mirror.rs:32-34 | tag and digest found in each of the four written forms of a reference |
| `MirrorProperties.AppliesIffSegments` | src/v1alpha1/plugin_mirror.rs:235-242 | the rewrite applies exactly when the segments of registry and namespace are a proper prefix of those of the image |
| `MirrorProperties.SharedImageIff` | src/v1alpha1/plugin_mirror.rs:235-242 | two mirrors have an image in common exactly when the segments of one continue those of the other |
| `MirrorProperties.SiblingsExclude` | src/v1alpha1/plugin_mirror.rs:235-242 | mirrors with equally many but different segments never match the same image |
| `MirrorProperties.ShorterNamespaceKeepsSegments` | src/v1alpha1/plugin_mirror.rs:235-256 | a shorter namespace matches whatever a longer one does and keeps the extra segments |
| `MirrorProperties.ShortNamespaceDoesMatch` | src/v1alpha1/plugin_mirror.rs:151-153 | the documented non-match is a match |
| `MirrorProperties.EmptyNamespaceMatchesNothing` | src/v1alpha1/plugin_mirror.rs:235-242 | a namespace of slashes only matches no image with non-empty segments |
| `MirrorProperties.SlashesIgnored` | src/v1alpha1/plugin_mirror.rs:235-255 | slashes added, each on its own, at the end of the registry and at either end of namespace and path prefix change no result |
| `MirrorProperties.BlankPathPrefixIsAbsent` | src/v1alpha1/plugin_mirror.rs:245-255 | an absent, empty or all-slash path prefix behave identically |
| `MirrorProperties.SameRuleIff` | src/v1alpha1/plugin_mirror.rs:234-257 | two mirrors agree on every image exactly when their normalised heads are equal |
| `Cluster.ClusterSpec.RenderClusterBlock` | src/v1alpha1/cluster.rs:511-523 | `{kind: single_node}` whatever the config; otherwise exactly the config keys and `kind`, each config key with its value |
| `ClusterProperties.UnmanagedBlockContents` | src/v1alpha1/cluster.rs:507-523 | what a reader gets for each key of an unmanaged block, with the kinds spelled out |
| `Cluster.ClusterSpec.RenderManagedClusterBlock` | src/v1alpha1/cluster.rs:450-505 | the insert sequence yields the shared fields overlaid with the transport fields, with token, node and CA as literal environment references |
| `ClusterProperties.ManagedBlockShared` | src/v1alpha1/cluster.rs:455-483 | what a reader gets for kind, servers, state key, token, node id and jetstream, spelled out |
| `ClusterProperties.ManagedBlockTransport` | src/v1alpha1/cluster.rs:484-503 | what a reader gets for TLS, CA and opt-out, and exactly which keys there are, with TLS and without |
| `ClusterProperties.GuardAgreesIff` | src/v1alpha1/cluster.rs:525-564 | for every spec, the verdict on the spec is the verdict on its rendered block exactly when the spec is settled: `single_node`, opted out, no plaintext shown, or a kind that no override changes |
| `ClusterProperties.GuardAgreesWithBlock` | src/v1alpha1/cluster.rs:210-213 | so it is for every admissible spec whose kind no config key changes |
| `ClusterProperties.PromiseBrokenIff` | src/v1alpha1/cluster.rs:529-531 | exactly when the written promise fails: plaintext block, no opt-out in `spec.config`, no reason |
| `ClusterProperties.AdmissibleManagedPlaintext` | src/v1alpha1/cluster.rs:238-240 | an admissible managed spec breaks it exactly when it has no TLS, and its block carries the opt-out instead |
| `ClusterProperties.DefaultManagedBreaksPromise` | src/v1alpha1/cluster.rs:529-531 | the managed spec with every field at its default is one |
| `ClusterProperties.MissedIff` | src/v1alpha1/cluster.rs:525-528 | exactly when a block that is plaintext and does not itself opt out gets no reason |
| `ClusterProperties.PlaintextNatsBehindRedis` | src/v1alpha1/cluster.rs:529-531 | a spec that breaks the promise with no opt-out anywhere |
| `ClusterProperties.KindOverrideIff` | src/v1alpha1/cluster.rs:517-521 | over all configs with a given `kind` key, a false alarm is possible exactly when it is not the backend's own kind, and a missed plaintext block exactly when it is the other backend's |
| `ClusterProperties.RenderedKindIff` | src/v1alpha1/cluster.rs:382-392 | the rendered kind is that of the effective backend unless the config overrides it |
| `ClusterProperties.RenderAfterReadIff` | src/v1alpha1/cluster.rs:507-523 | a block survives reading and rendering, except what stands beside a `single_node` kind |
| `ClusterProperties.ReadAfterRenderIff` | src/v1alpha1/cluster.rs:507-523 | a spec survives rendering and reading exactly when it is unmanaged, has no `kind` key, and no config under `single_node` |
| `ClusterProperties.ManagedBlockIsFixedPoint` | src/v1alpha1/cluster.rs:450-523 | the managed block, read as an ordinary nats spec, renders to itself and passes the guard |
| `ClusterProperties.OptOutCarriesPlaintext` | src/v1alpha1/cluster.rs:484-503 | without its opt-out the managed block passes the guard exactly when TLS is enabled |
| `ClusterProperties.ManagedTlsIff` | src/v1alpha1/cluster.rs:419-425 | TLS is enabled exactly when the issuer name has a character that is not whitespace |
| `ClusterProperties.BlankIssuerMeansNoTls` | src/v1alpha1/cluster.rs:419-425 | an issuer named by spaces and tabs is none |
| `ClusterProperties.LeadingWhitespaceIgnored` | src/v1alpha1/cluster.rs:531-532 | whitespace before a redis URL changes no verdict |
| `Text.WhitespaceIff` | src/v1alpha1/cluster.rs:424-424 | the characters that count as whitespace, written out |
| `ClusterProperties.CoordinatorUrlText` | src/v1alpha1/cluster.rs:455-460 | the URL with scheme, `-nats.`, domain and port 4222 spelled out, for all names |
| `ClusterProperties.ParseCoordinatorUrlIff` | src/v1alpha1/cluster.rs:455-460 | the coordinator URL gives back scheme, cluster and namespace, and nothing else parses |
| `ClusterProperties.UrlsEqualIff` | src/v1alpha1/cluster.rs:455-460 | for all names, two coordinator URLs are equal exactly for one scheme and one text `<cluster>-nats.<namespace>` |
| `ClusterProperties.SharedUrlIff` | src/v1alpha1/cluster.rs:457-460 | a coordinator shares its URL with another exactly when `-nats.` also stands elsewhere in that text; `DottedNamespaceCollides` is an instance |
| `ClusterProperties.ManagedBlocksSameIff` | src/v1alpha1/cluster.rs:443-463 | for all names, managed blocks are equal exactly for the same TLS choice and that text |
| `ClusterProperties.ManagedBlocksEqualIff` | src/v1alpha1/cluster.rs:443-463 | for dot-free namespaces, exactly for the same TLS choice, cluster and namespace |
| `ClusterProperties.NamingMattersIff` | src/v1alpha1/cluster.rs:427-441 | the text in which cluster name and operator namespace meet changes the block of a managed spec, and of no other |
| `ClusterProperties.NamesStripped` | src/v1alpha1/cluster.rs:81-106 | each of the six names gives the cluster back when its literal suffix is stripped |
| `ClusterProperties.NamesEqualIff` | src/v1alpha1/cluster.rs:81-106 | over all clusters and all six helpers, two names are equal exactly for one object of one cluster, or for its client Service and StatefulSet |
| `Text.AtMostMeaning` | src/v1alpha1/tenant.rs:245 | the sort order is that of a dictionary: prefix, or smaller code point at the first difference |
| `CanonicalLists.AscendingIffDictionary` | src/v1alpha1/route.rs:206-207 | strictly ascending lists are exactly those in dictionary order |
| `CanonicalLists.SortInPlace` | src/v1alpha1/tenant.rs:245 | the array is sorted and a permutation of what it was |
| `CanonicalLists.DedupInPlace` | src/v1alpha1/tenant.rs:246 | the kept cells are the list without adjacent duplicates |
| `CanonicalLists.DedupDistinctIff` | src/v1alpha1/route.rs:206-207 | adjacent dedup removes all duplicates exactly when equal elements are grouped |
| `CanonicalLists.DedupOfSorted` | src/v1alpha1/route.rs:206-207 | after a sort it leaves the ascending list of the elements |
| `CanonicalLists.AscendingMeaning` | src/v1alpha1/route.rs:196-209 | that list is strictly ascending, has exactly the elements and their number |
| `CanonicalLists.AscendingUnique` | src/v1alpha1/route.rs:196-209 | no other strictly ascending list has those elements |
| `CanonicalLists.SortAndDedup` | src/v1alpha1/tenant.rs:239-247 | sort then dedup gives the ascending list of the elements |
| `Route.RouteSpec.AllChainPlugins` | src/v1alpha1/route.rs:196-209 | in dictionary order, exactly the ids of the union of the chains, as many as the union has |
| `Route.PlacementIgnored` | src/v1alpha1/route.rs:198-209 | permuting ids or moving them between chains changes nothing |
| `Route.SameListIff` | src/v1alpha1/route.rs:198-209 | two routes give one list exactly when they name the same ids |
| `Tenant.TenantSpec.OverlappingNamespaces` | src/v1alpha1/tenant.rs:236-248 | in dictionary order, exactly the namespaces that both own |
| `Tenant.OverlapCharacterised` | src/v1alpha1/tenant.rs:236-248 | no other strictly ascending list fits |
| `Tenant.OverlapInvariant` | src/v1alpha1/tenant.rs:238-248 | symmetric, and unaffected by order and repetition on either side |
| `Tenant.OverlapEmptyIff` | src/v1alpha1/tenant.rs:232-248 | empty exactly when no namespace is owned by both |
| `Tenant.AdmitsIff` | src/v1alpha1/tenant.rs:73-83 | the allowlist acts as a set of names and a set of non-empty image prefixes |
| `Tenant.AllowlistMonotone` | src/v1alpha1/tenant.rs:250-264 | adding, repeating or reordering entries never takes a plugin away |
| `Tenant.AdmitsAllIff` | src/v1alpha1/tenant.rs:76-77 | everything is admitted exactly when there is a `*` entry |
| `TenantExclusivity.TenantStore.PutTenant` | src/v1alpha1/tenant.rs:64-71 | a write is admitted exactly when storing it keeps ownership exclusive, and a refused one changes nothing |
| `TenantExclusivity.TenantStore.RemoveTenant` | src/v1alpha1/tenant.rs:64-71 | a delete frees the tenant's namespaces and keeps ownership exclusive |
| `TenantExclusivity.GateIsExact` | src/v1alpha1/tenant.rs:68-70 | the overlap test is sound and complete for exclusivity |
| `TenantExclusivity.AdmitsIffUnowned` | src/v1alpha1/tenant.rs:68-70 | a spec is admitted exactly when no other tenant owns one of its namespaces |
| `TenantExclusivity.RunKeepsExclusive` | src/v1alpha1/tenant.rs:14-15 | over any run no namespace is owned by two tenants |
| `MirrorAllowlist.MirrorPrefixAdmitsWhatItRewrites` | src/v1alpha1/tenant.rs:134-147 | an allowlist of a mirror's upstream prefix admits exactly the images the mirror rewrites |
| `MirrorAllowlist.AdmitsMoreIff` | src/v1alpha1/tenant.rs:140-145 | one prefix admits whatever another does exactly when it is a prefix of it |
| `RevocationList.LowerIffEqual` | src/v1alpha1/revocation_list.rs:139 | lower-cased hashes are equal exactly when the hashes are equal ignoring ASCII case |
| `RevocationList.LookupIff` | src/v1alpha1/revocation_list.rs:132-142 | a query is in the set exactly when it is lower-case and equals some entry ignoring case |
| `RevocationList.SizeDetectsDuplicates` | src/v1alpha1/revocation_list.rs:58-60 | the set is as large as the list exactly when no two entries are equal ignoring case |

## Left out

- Custom-resource metadata, serde attributes and generated schemas: library behaviour.
- Parsing of YAML and JSON: the model starts from parsed values.
- Controllers, admission webhooks, hashing and registry pulls: they live in the operator crate.
- Mirror credentials, `insecure` and `resyncInterval`, and the tenant's quotas and identity attribute: no function modelled here reads them.
- `pluginRef`, `credentialRefs`, the image, storage, replicas and resources of a managed coordinator, and kind and group of its issuer: they reach neither a block nor the guard.
- Replica counts, `federation_name`, `gateway_namespace`, `tenant` and the plugin ids of backends: each is a branch or two.
- `ready_true`, `ready_false` and the constant vocabularies of types and reasons: they build values for `set_condition` and nothing else.
- The system clock: instants are integers that the caller supplies.
- Timing and memory of the library sort: only its result is modelled.
