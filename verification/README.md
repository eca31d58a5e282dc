# bosh director core: problem resolution, config-server client, VIP networks, manifest migration

A Dafny model of four pieces of the bosh director, with proofs of what each
of them promises.

- **Problem resolver** (`apply_resolutions`). Operators submit a map from
  problem ids to resolutions (`recreate_vm`, `delete_disk`, `ignore`, …).
  The resolver skips ids it does not know, and
  problems that are no longer open (logging "Ignoring problem <id> (state is
  '<state>')"). For every other problem it builds a handler and applies the
  resolution. It returns how many problems it processed and the last error
  message. Module `PoolPlanning` models which worker pools a pass creates:
  an outer pool over the parallel instance groups with problems, and one
  inner pool per group, bounded by `max_threads` and the group's
  `max_in_flight`. A pool is only created when it would be wider than one.
  Module `ProblemResolution` models the pass itself. The real resolver
  hands the work to instance groups that may run concurrently, so no order
  across groups is promised; the model processes the requests one at a
  time in the order of the request map. The pass is a fold,
  `Pass`, over the requests, implemented by the class method
  `ProblemResolver.ApplyResolutions`. A loop invariant proves that method
  against `Pass`, and lemmas prove `Pass` against a reference description
  that reads the problems only as they were at the start.
- **Config-server client** (module `ConfigServer`). The enabled client's
  `interpolate` replaces every `((key))` placeholder location with the
  server's value. It looks up each distinct key once. If any key is missing,
  it fails with all missing keys and returns nothing. Any other server answer
  aborts the call. `prepare_and_get_property` picks between the provided
  value and the default. It may ask the server to generate a password. The
  disabled client passes everything through. The HTTP client is a parameter:
  GET answers found (with a value), not found, or another status, and POST
  answers success or failure. Its answers are pure functions of the key, so
  the fetch and `interpolate` also return `asked`, the keys sent a GET
  request, in order.
- **VIP network** (module `VipNetworks`). Parsing a network from its
  cloud-config spec, the settings hash handed to the agent, and the
  dynamic-or-static IP rule.
- **Manifest migration** (module `ManifestMigration`). Rewrites a legacy
  `release` section into a `releases` list, refuses manifests that have both,
  and passes the cloud config through.

Shared modules: `Results` (Option, Result), `Text` (joining and splitting
lines), and `Values`. `Values` models Ruby's nested hashes and arrays, with
reading and writing at a path. Its lemmas state that writing at one path
leaves every unrelated path unchanged.

Ruby's `^` and `$` anchor at line boundaries. So the placeholder pattern
`^\(\(.*\)\)$` matches a string when any one of its lines is `((…))`, and
the delimiter stripping works line by line. `IsPlaceholder` and
`StripDelimiters` model this. The lemmas `PlaceholderRoundTrip` and
`PlaceholderIsWrappedKey` cover one-line placeholders. `to_s` is applied
before matching, but only string values can match: the text of nil, a
boolean, a number, an array or a hash never has a line that starts with
`((`.

## Model

| member | source | states |
|---|---|---|
| PoolPlanning.ParallelGroups | src/bosh-director/spec/unit/problem_resolver_spec.rb:161-182 | a group is in the outer tier exactly when it is not serial and has problems |
| PoolPlanning.InnerPools | src/bosh-director/spec/unit/problem_resolver_spec.rb:116-158 | each group whose width min(max_threads, max_in_flight, problems) exceeds 1 gets an inner pool of that width, and for every width above 1 there are exactly as many pools as groups of that width; every pool lies in (1, max_threads] |
| PoolPlanning.PlanPools | src/bosh-director/spec/unit/problem_resolver_spec.rb:87-192 | no pool when parallel resolution is off; the outer pool exists exactly when min(max_threads, #parallel groups) > 1 and has that width; each non-serial group with problems whose inner width exceeds 1 gets exactly one inner pool of that width (counted per width); every pool width lies in (1, max_threads] |
| PoolPlanning.Pools | src/bosh-director/spec/unit/problem_resolver_spec.rb:116-129 | the pool widths in creation order: the outer pool first, when there is one, then the inner pools |
| PoolPlanning.NoPoolsWithOneThread | src/bosh-director/spec/unit/problem_resolver_spec.rb:98-105 | with max_threads of one, no pool is created |
| PoolPlanning.NoInnerPoolsWithOneThread | src/bosh-director/spec/unit/problem_resolver_spec.rb:98-105 | with max_threads of one, no group gets an inner pool |
| PoolPlanning.NoPoolsForSingleProblem | src/bosh-director/spec/unit/problem_resolver_spec.rb:88-96 | one group with a single problem creates no pool |
| PoolPlanning.NoInnerPoolsWhenMaxInFlightIsOne | src/bosh-director/spec/unit/problem_resolver_spec.rb:107-114 | groups with max_in_flight of one get no inner pool |
| PoolPlanning.ParallelGroupsIdempotent | src/bosh-director/spec/unit/problem_resolver_spec.rb:161-182 | selecting the parallel groups twice selects the same groups |
| PoolPlanning.ParallelGroupsAppend | src/bosh-director/spec/unit/problem_resolver_spec.rb:161-182 | the selection of a concatenation is the concatenation of the selections, so group order is kept |
| PoolPlanning.SerialGroupsDoNotMatter | src/bosh-director/spec/unit/problem_resolver_spec.rb:161-182 | the plan only depends on the parallel groups with problems |
| PoolPlanning.InnerPoolsOfRepeat | src/bosh-director/spec/unit/problem_resolver_spec.rb:116-158 | n identical groups give n identical inner pools, or none when the width is at most one |
| PoolPlanning.ParallelGroupsOfRepeat | src/bosh-director/spec/unit/problem_resolver_spec.rb:116-158 | n identical parallel groups with problems are all selected |
| PoolPlanning.UniformParallelGroups | src/bosh-director/spec/unit/problem_resolver_spec.rb:116-158 | for n identical parallel groups the pools are the outer width followed by n copies of the inner width |
| PoolPlanning.FourGroupsOfThree | src/bosh-director/spec/unit/problem_resolver_spec.rb:116-129 | four groups of three problems with max_threads 10 and max_in_flight 5 create pools of widths 4, 3, 3, 3, 3 |
| PoolPlanning.FourGroupsMaxInFlightOne | src/bosh-director/spec/unit/problem_resolver_spec.rb:107-114 | with max_in_flight 1 only the outer pool of width 4 is created |
| PoolPlanning.FourGroupsMaxInFlightTwo | src/bosh-director/spec/unit/problem_resolver_spec.rb:131-146 | with max_in_flight 2 the pools are 4, 2, 2, 2, 2 |
| PoolPlanning.FourGroupsMaxThreadsTwo | src/bosh-director/spec/unit/problem_resolver_spec.rb:148-158 | with max_threads 2 all five pools have width 2 |
| PoolPlanning.SerialAndParallelGroups | src/bosh-director/spec/unit/problem_resolver_spec.rb:161-182 | groups serial, parallel, parallel, serial give one outer pool of 2 and two inner pools of 3 |
| ProblemResolution.Remedy | src/bosh-director/spec/unit/problem_resolver_spec.rb:222-229 | a resolution removes at most the problem's own disk, and removes it exactly when it is `delete_disk` on an inactive-disk problem |
| ProblemResolution.FateOf | src/bosh-director/spec/unit/problem_resolver_spec.rb:249-257 | a request is classified unknown exactly when its id names no stored problem |
| ProblemResolution.Step | src/bosh-director/spec/unit/problem_resolver_spec.rb:53-75 | handling one request never adds or removes a problem; it leaves the state exactly as it was when, and only when, its id names no stored problem (a known id always logs a skip, counts, changes the problem or records an error) |
| ProblemResolution.Pass | src/bosh-director/spec/unit/problem_resolver_spec.rb:53-75 | a pass keeps the set of problems and counts at most one per request |
| ProblemResolution.AttemptsAreCounted | src/bosh-director/spec/unit/problem_resolver_spec.rb:266-288 | the handled requests are among the submitted ones, and each is one whose outcome counts |
| ProblemResolution.LastSeesInitialProblem | src/bosh-director/spec/unit/problem_resolver_spec.rb:53-75 | with distinct ids, the last request meets its problem unchanged by the earlier ones |
| ProblemResolution.PassSettlesProblems | src/bosh-director/spec/unit/problem_resolver_spec.rb:53-75 | with distinct ids, a processed problem ends up resolved and every other problem is untouched |
| ProblemResolution.PassTally | src/bosh-director/spec/unit/problem_resolver_spec.rb:266-288 | with distinct ids, the count is the number of handled requests, handlers run in request order, and the error is the last failure's message |
| ProblemResolution.PassLogAndDisks | src/bosh-director/spec/unit/problem_resolver_spec.rb:198-247 | with distinct ids, the log and the remaining disks follow the reference description |
| ProblemResolution.PassMatchesReference | src/bosh-director/spec/unit/problem_resolver_spec.rb:53-75 | with distinct ids, a pass is exactly the reference description computed from the problems as they were at the start |
| ProblemResolution.NothingOpenIsNoOp | src/bosh-director/spec/unit/problem_resolver_spec.rb:234-257 | requests for unknown or no longer open problems count nothing, report no error, call no handler and change no problem |
| ProblemResolution.AllSucceedAttempts | src/bosh-director/spec/unit/problem_resolver_spec.rb:53-75 | when every request names an open problem whose handler succeeds, every request is handled and the error is unchanged |
| ProblemResolution.SuccessfulPass | src/bosh-director/spec/unit/problem_resolver_spec.rb:72-74 | then the count is the number of requests, there is no new error, and no requested problem stays open |
| ProblemResolution.AlreadyResolvedIsSkipped | src/bosh-director/spec/unit/problem_resolver_spec.rb:234-247 | a resolved problem is skipped with "Ignoring problem <id> (state is 'resolved')", count 0 and no error |
| ProblemResolution.HandlerErrorIsCounted | src/bosh-director/spec/unit/problem_resolver_spec.rb:266-276 | a handler error still counts the problem, and reports "Error resolving problem '<id>': <message>" |
| ProblemResolution.ConstructionErrorIsNotCounted | src/bosh-director/spec/unit/problem_resolver_spec.rb:278-288 | an error while building the handler is reported the same way, counts nothing, and leaves the problem open |
| ProblemResolution.TwoDiskProblems | src/bosh-director/spec/unit/problem_resolver_spec.rb:198-230 | `delete_disk` and `ignore` on two inactive disks: count 2, no error, the first disk deleted, the second kept, no problem left open |
| ProblemResolution.ProblemStore.constructor | src/bosh-director/spec/unit/problem_resolver_spec.rb:46-51 | the table holds exactly the given problems and disks |
| ProblemResolution.ProblemResolver.constructor | src/bosh-director/spec/unit/problem_resolver_spec.rb:42-44 | a new resolver works on the given problem table, with an empty log and no handler calls |
| ProblemResolution.ProblemResolver.ApplyResolutions | src/bosh-director/spec/unit/problem_resolver_spec.rb:68-75 | the returned count and error, and the new problems, disks, log and handler calls, are those of `Pass` from the old state |
| ConfigServer.GetValueForKey | bosh-director/lib/bosh/director/config_server/client.rb:97-107 | found gives the value; not found gives the missing-key error naming the key; any other status gives the unknown error with that status's code and message |
| ConfigServer.LookupMessages | bosh-director/lib/bosh/director/config_server/client.rb:102-106 | a lookup of an unknown key fails with "Failed to find key '<key>' in the config server", and one answering another status with "Unknown config server error: <code>  <message>" |
| ConfigServer.KeyExists | bosh-director/lib/bosh/director/config_server/client.rb:88-95 | true when the lookup succeeds, false exactly on a missing-key error, and any other error propagates |
| ConfigServer.Uniq | bosh-director/lib/bosh/director/config_server/client.rb:16 | the distinct keys have the same members as the keys, each once, ordered by first occurrence |
| ConfigServer.KeysOf | bosh-director/lib/bosh/director/config_server/client.rb:16 | one key per location of the replacement map, in order |
| ConfigServer.MissingKeysOf | bosh-director/lib/bosh/director/config_server/client.rb:113-119 | a key is reported missing exactly when it was asked for and the server does not know it |
| ConfigServer.FirstServerError | bosh-director/lib/bosh/director/config_server/client.rb:113-119 | there is an aborting error exactly when some key's lookup answers neither found nor not found, and it is an unknown error |
| ConfigServer.FetchConfigValues | bosh-director/lib/bosh/director/config_server/client.rb:109-122 | aborts exactly on the first aborting answer; otherwise every key ends up either found, with the server's value, or missing, never both, and the missing keys keep their order; the keys asked for are all of them, or those up to and including the one that aborts |
| ConfigServer.AskedKeys | bosh-director/lib/bosh/director/config_server/client.rb:109-122 | the keys asked for are a prefix of the keys: all of them when no answer aborts, otherwise ending at the first aborting key, after which nothing is asked |
| ConfigServer.AskedKeysAt | bosh-director/lib/bosh/director/config_server/client.rb:109-122 | when the first aborting answer is for the key at position i, exactly the first i + 1 keys are asked for |
| ConfigServer.AskedOnce | bosh-director/lib/bosh/director/config_server/client.rb:16-18 | interpolation asks for each key of the replacement map at most once, asks for no other key, and asks for every key unless a server error stops it |
| ConfigServer.ReplaceAll | bosh-director/lib/bosh/director/config_server/client.rb:124-136 | afterwards every location reads its key's fetched value (nil when none was fetched), and every path unrelated to all locations reads as before |
| ConfigServer.ReplaceConfigValues | bosh-director/lib/bosh/director/config_server/client.rb:124-136 | the walk over the replacement map produces `ReplaceAll`, so every location holds its key's value |
| ConfigServer.Interpolate | bosh-director/lib/bosh/director/config_server/client.rb:12-25 | an aborting answer gives that error; otherwise missing keys give one error naming all of them, in the order they were asked for; otherwise every location holds its key's value and all else is as in the input; no placeholders gives the input back; the GET requests are `AskedKeys` of the distinct keys, so no key is asked for twice |
| ConfigServer.MissingKeysMessage | bosh-director/lib/bosh/director/config_server/client.rb:19-21 | the missing-keys error reads "Failed to find keys in the config server: " followed by the keys joined with ", " |
| ConfigServer.IsPlaceholder | bosh-director/lib/bosh/director/config_server/client.rb:63 | only a string value can match the placeholder pattern |
| ConfigServer.OneLinePlaceholder | bosh-director/lib/bosh/director/config_server/client.rb:63 | a string without line breaks matches exactly when it starts with `((` and ends with `))` |
| ConfigServer.StripLine | bosh-director/lib/bosh/director/config_server/client.rb:64 | stripping a line never lengthens it, and for a `((...))` line, wrapping the result again gives the line back |
| ConfigServer.StripDelimiters | bosh-director/lib/bosh/director/config_server/client.rb:64 | a string without line breaks is stripped as a single line |
| ConfigServer.PlaceholderRoundTrip | bosh-director/lib/bosh/director/config_server/client.rb:63-64 | a one-line key wrapped in `((` and `))` is a placeholder whose stripped key is that key |
| ConfigServer.StripWithoutDelimiters | bosh-director/lib/bosh/director/config_server/client.rb:64 | stripping leaves a string unchanged when none of its lines starts with `((` or ends with `))` |
| Values.SetTopLevelKey | bosh-director/lib/bosh/director/config_server/client.rb:129-134 | writing at a one-key path replaces that key of the top-level hash and keeps every other key |
| ConfigServer.PlaceholderIsWrappedKey | bosh-director/lib/bosh/director/config_server/client.rb:63-64 | a one-line placeholder is its stripped key wrapped in `((` and `))` |
| ConfigServer.PrepareAndGetProperty | bosh-director/lib/bosh/director/config_server/client.rb:58-84 | the result is always the provided value or the default: nil gives the default; a non-placeholder gives itself; a known key gives the placeholder; a missing key gives the default, or else the placeholder; a password is generated exactly when the key is missing, there is no default and the type is `password`; a failed generation is the only way to get the generation error; other server errors propagate |
| ConfigServer.DisabledInterpolate | bosh-director/lib/bosh/director/config_server/client.rb:150-161 | the result reads the same as the input at every path |
| ConfigServer.DisabledPrepareAndGetProperty | bosh-director/lib/bosh/director/config_server/client.rb:163-165 | the default when nothing is provided, the provided value otherwise |
| ConfigServer.ClientsAgreeWithoutPlaceholders | bosh-director/lib/bosh/director/config_server/client.rb:58-84 | for a value that is not a placeholder, the enabled client returns what the disabled client returns and generates nothing |
| VipNetworks.SafeProperty | src/bosh-director/lib/bosh/director/deployment_plan/vip_network.rb:12-18 | a present, non-nil value is returned when it has the requested class and is an invalid-type error otherwise; an absent or nil one gives the default or a missing-field error |
| VipNetworks.ParseSubnets | src/bosh-director/lib/bosh/director/deployment_plan/vip_network.rb:14-16 | succeeds exactly when every subnet spec parses, giving one subnet per spec, in order |
| VipNetworks.Parse | src/bosh-director/lib/bosh/director/deployment_plan/vip_network.rb:11-31 | succeeds exactly when the name is a string, the subnets an array or absent, the cloud properties a hash or absent, and every subnet parses; the network keeps the name, the cloud properties (default empty) and one parsed subnet per spec, in order |
| VipNetworks.NetworkSettings | src/bosh-director/lib/bosh/director/deployment_plan/vip_network.rb:41-52 | fails with "Can't provide any defaults since this is a VIP network" exactly when defaults are given and non-empty; otherwise exactly the keys type = vip, ip and cloud_properties |
| VipNetworks.GloballyAllocateIp | src/bosh-director/lib/bosh/director/deployment_plan/vip_network.rb:60-62 | true exactly when the network has subnets |
| VipNetworks.IpTypeOf | src/bosh-director/lib/bosh/director/deployment_plan/vip_network.rb:54-58 | dynamic exactly when IPs are allocated globally, static exactly when there are no subnets, whatever the argument |
| VipNetworks.HasAzs | src/bosh-director/lib/bosh/director/deployment_plan/vip_network.rb:64-66 | always true |
| VipNetworks.ParsedIpType | src/bosh-director/lib/bosh/director/deployment_plan/vip_network.rb:14-62 | a parsed network is dynamic exactly when its spec lists a subnet |
| VipNetworks.ParsedSettings | src/bosh-director/lib/bosh/director/deployment_plan/vip_network.rb:18-52 | the settings of a parsed network carry the spec's cloud properties (or an empty hash), and empty defaults behave like none |
| VipNetworks.NameOnlySpec | src/bosh-director/lib/bosh/director/deployment_plan/vip_network.rb:14-19 | a spec with only a name parses to a network with no subnets and empty cloud properties |
| ManifestMigration.ReleaseList | src/bosh-director/spec/unit/deployment_plan/manifest_migrator_spec.rb:38-45 | a nil release gives an empty list, any other release a one-element list |
| ManifestMigration.Migrate | src/bosh-director/spec/unit/deployment_plan/manifest_migrator_spec.rb:16-71 | fails with the ambiguity error exactly when both sections exist; otherwise no `release` key remains, every other section is kept, a manifest without `release` is unchanged, `release` becomes the `releases` list, and the cloud config is returned unchanged |
| ManifestMigration.AmbiguityMessage | src/bosh-director/spec/unit/deployment_plan/manifest_migrator_spec.rb:47-57 | a manifest with both sections is refused with "Deployment manifest contains both 'release' and 'releases' sections, please use one of the two." |
| ManifestMigration.MigrateIdempotent | src/bosh-director/spec/unit/deployment_plan/manifest_migrator_spec.rb:17-36 | migrating a migrated manifest changes nothing |
| ManifestMigration.MigratedReleases | src/bosh-director/spec/unit/deployment_plan/manifest_migrator_spec.rb:17-45 | afterwards `releases` lists exactly the legacy release (none if it was nil), or the original list when there was no legacy section |
| ManifestMigration.LegacyReleaseExamples | src/bosh-director/spec/unit/deployment_plan/manifest_migrator_spec.rb:26-45 | `release: {…}` with `name` becomes `releases: [{…}]` with the same `name`, and `release: nil` becomes `releases: []` |

## Left out

- The concurrency of the resolution pass: thread pools, interleavings and locking are not modelled. The pass runs sequentially in request order, and `PoolPlanning` only says which pools would be created.
- ProblemResolution.Pass: with concurrent workers the real "last error" is the last one to be written, which need not be the last in request order. The model picks the last in request order.
- The resolver's implementation file is not part of this model; its behaviour comes from its unit specification. A handler error raised while applying the resolution is taken to close the problem and count it, as the tests expect a count of one. An error raised while building the handler is taken to leave the problem open and uncounted.
- Problem handlers, the cloud and the agent are not modelled. Each is an oracle outcome (success, handler error, construction error). The only concrete effect modelled is that `delete_disk` on an inactive-disk problem removes the disk.
- The problem summary texts passed to `track_and_log`, the event log and the logger's backtrace line are not modelled.
- Assigning problems to instance groups is not modelled. The planner takes each group's problem count as input.
- Problem ids are the strings of the request map; the conversion to integers before the lookup is not modelled.
- The HTTP transport, JSON parsing of the response body, and `message.dump` escaping are not modelled. A response's status message is an opaque string.
- `DeepHashReplacement.replacement_map` is not part of this model, so `subtrees_to_ignore` is not modelled. `Interpolate` takes the replacement map as a parameter.
- ConfigServer.ReplaceConfigValues: requires every location's path to be non-empty, to lead to a place in the input, and not to lie inside another location's path. The replacement map provides this. What Ruby would do with an empty path is not modelled.
- `interpolate_deployment_manifest` and `interpolate_runtime_manifest` are not modelled. They only choose the ignored subtrees for `interpolate`, and those are handled by the replacement map.
- Ruby's deep copy and in-place mutation are not modelled, and neither is aliasing between copies. Values are immutable, so the result is a new value and the input is never changed.
- ConfigServer.PlaceholderRoundTrip and ConfigServer.PlaceholderIsWrappedKey: state the round trip only for one-line keys; multi-line strings follow the per-line definition of `IsPlaceholder` and `StripDelimiters`.
- VipNetworks.SafeProperty: `ValidationHelper.safe_property` is not part of this model, so its rule is assumed here: a present value that is nil counts as absent and takes the default, and the class check is strict, with no conversion (a numeric `name` is an invalid-type error, not a string).
- `VipNetworkSubnet.parse` is a parameter of `Parse`, and its errors are opaque.
- `ip_to_netaddr` normalisation is not modelled. The reservation's IP is an opaque string copied into the settings.
- The default value `REQUIRED_DEFAULTS` of `network_settings` is not modelled. Callers pass the defaults explicitly.
- The tagged logger of a VIP network, and the `Network` base class beyond the type name `vip`, are not modelled.
- The manifest's raw YAML text and its other attributes are not modelled. Migration works on the manifest hash only.
