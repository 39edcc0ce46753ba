# Provider seam of mokosh-server, verified

mokosh-server keeps every configuration key and every application-tier secret in a
*provider*: the environment, a directory, a database table, Infisical or bunyip. This
project models where each value lives, who serves it, and how an operator moves it with
`provider-migrate`, `provider-set` and `provider-purge` without losing it. It also models
how configuration generations are refreshed, how the caches in front of the stores behave,
the version comparison and result cache of the update check, and the CORS origin matcher.

| file | what it models |
|---|---|
| `Base.dfy`, `Text.dfy`, `Registry.dfy` | optional values and partial maps; `trim` and `split`; declared keys and their tier |
| `Providers.dfy` | the provider interface with replies the caller cannot choose; the walks of migrate and purge that both tiers share |
| `Boot.dfy` | declaration, survey, classification and enforcement of secrets at boot |
| `SecretOperator.dfy` | migrate and purge on secrets, and what they do to the boots that follow |
| `ConfigChain.dfy`, `ConfigOperator.dfy` | the priority list, chain resolution and classification; migrate and purge on configuration |
| `WriteThrough.dfy`, `ConcurrentWrites.dfy`, `StoreProviders.dfy` | stores, the caches in front of them, and the five concrete providers |
| `Restarts.dfy` | the commands carried out on the rows of concrete stores, and the processes in between |
| `ProviderSet.dfy` | `provider-set` on a store, and the process that starts afterwards |
| `BootstrapRows.dfy` | operator sessions on a configuration store and its bootstrap-tier rows |
| `Generations.dfy` | refresh of the installed generation, one at a time and interleaved; the staleness report |
| `Arguments.dfy` | the arguments of `provider-migrate` |
| `VersionOrder.dfy`, `UpdateCheck.dfy` | the version order; the result cache and its fetch rate |
| `CorsOrigin.dfy` | entries, rules and matching of the `Origin` header |

Operations that change state are classes and methods with loops; each is proved against a
predicate or function on values (`Migrated`, `SecretsPurged`, `RefreshStep`, `Step`, ...),
and the lemmas are about those. What a backing store answers, the clock and the HTTP fetch
are parameters, and every statement holds for all their values: a write can be stored, be
stored as something else, be refused, or fail after taking effect; a delete can fail with
or without effect. The registry, the list of secrets and the number of secret providers
are arbitrary. Encryption is symbolic: a row opens only under the key it was sealed with.

Where the promise does not hold of the code, the model keeps the code, a lemma names an
input, and another lemma says exactly when it does hold:

- A purge consults the process-wide selection, so it can delete the copy a secret with its
  own declaration is read from (`PurgeCanUnserve`, `PurgeChangesReadsExactly`).
- A migration into a provider that is not built is reported as skipped, not as failed, and
  the boot under the new declaration ends (`UnbuiltTargetEndsTheBoot`, `MigratedBootIff`).
- `provider-status` names the selection as the server of every secret, which is wrong for
  secrets with their own declaration (`CliNamesTheWrongProvider`, `CliServingIsRightIff`).
- A call that takes effect and still reports an error leaves cache and store apart
  (`LostCallDiverges`, `CoherentIff`): a line that says "failed" can be served after a
  restart (`FailedMoveIsServedAfterRestart`, `RestartKeepsReadsIff`), and a `provider-set`
  that reports an error can have set the value (`SetAcrossRestart`).
- A blank value is cached as held and unheld after a rebuild (`BlankSecretDiverges`,
  `CoherentIff`).
- A configuration value that ends in a newline is reported as moved and comes back shorter
  after a restart (`NewlineIsLostOnRestart`, `MovedSurvivesRestartIff`).
- Two overlapping writes of one name can cross between store and cache
  (`CrossingDiverges`, `EveryInterleavingCoherentIff`).
- Overlapping refreshes repeat generation numbers (`OverlapRepeatsANumber`,
  `ConsecutiveIffUncrossed`).
- The "lower" extra holders of a classification can sit above the serving provider
  (`LowerOthersCanBeHigher`, `LowerOthersAreLowerIff`); the comment on the type says
  still-lower.
- A version with trailing white space changes release when ".0" or metadata is appended
  (`SpaceBeforeSuffixIsSeen`, `SuffixChangesNothingIff`).

`dafny verify dfyconfig.toml` checks everything.

## Model

| member | source | states |
|---|---|---|
| `Restarts.WorkflowOnStores` | src/cli/providers.rs:733-1360 | the whole workflow on the rows, one process per command and boot: accepted under `a`, clean migration into the store of `b`, `b` built from its rows and booted, purge of `a` on its rows, `a` built from what is left and booted. Both boots accepted under `b`, every secret reads `b`'s old value if it had one, else `a`'s, and `a` is empty when every delete reports success |
| `SecretOperator.OperatorWorkflow` | src/cli/providers.rs:826-1360 | the same for any source, read-only or not built included, whenever the process after the migration sees the same secrets and the one after the purge sees no more of `a` |
| `SecretOperator.SameSecretsSameBoot` | src/app_secrets/mod.rs:521-840 | boot verdict, holders and reads are a function of the governed secrets |
| `SecretOperator.MigratedBootIff` | src/app_secrets/mod.rs:664-840 | after a clean migration the re-declared boot is accepted iff the target was built or every secret has its own declaration |
| `SecretOperator.UnbuiltTargetEndsTheBoot` | src/cli/providers.rs:840-847 | the concrete deployment: skipped target, no failed line, boot refused |
| `Restarts.BootedIsSame` | src/cli/providers.rs:826-886 | after a clean migration into any secret store from a source without blank values, the process built from the rows sees what the migrating one saw |
| `Restarts.PurgedIsRebuilt` | src/cli/providers.rs:1345-1358 | after a purge on the rows, lost deletes included, the next process holds no more of the purged provider than the purging one saw |
| `Restarts.RestartKeepsReadsIff` | src/cli/providers.rs:926-946 | whole migration into any cached store, lost writes included: a restart reads a key as the running process does iff it was not written, or was written with success and round-trips, or its write was lost and the value vanishes |
| `Restarts.FailedMoveIsServedAfterRestart` | src/cli/providers.rs:937-945 | a lost write: the line says failed, the running process does not hold the key, the next one serves it |
| `Restarts.StoreMigrates` | src/cli/providers.rs:848-886 | the writes of a migration, carried out row then cache on a concrete store, are a migration as the interface sees it |
| `SecretOperator.PurgeChangesReadsExactly` | src/cli/providers.rs:1248-1360 | a purge makes a secret unreadable iff confirmed, the secret is declared to the purged provider and deletable, and its delete takes effect; every other read is unchanged |
| `SecretOperator.PurgePreservesReads` | src/cli/providers.rs:1265-1304 | no read changes when every secret is declared to the selection or to a read-only provider |
| `SecretOperator.PurgeKeepsBootIff` | src/cli/providers.rs:1285-1316 | an accepted boot stays accepted after a purge iff no secret at risk was deleted |
| `SecretOperator.PurgeCanUnserve` | src/cli/providers.rs:1285-1304 | the concrete deployment in which every interlock passes and the secret becomes unreadable |
| `SecretOperator.DryRunPredictsSecretPurge` | src/cli/providers.rs:1295-1359 | without confirmation nothing changes, the lines predict the confirmed run's, and "would delete" lists exactly the delete calls in order |
| `SecretOperator.MigrateSecrets` | src/cli/providers.rs:826-856 | skips an unbuilt source or target without effect, else migrates every secret; only the target changes |
| `SecretOperator.PurgeSecrets` | src/cli/providers.rs:1248-1360 | lines, delete calls and remaining values are those of the fates decided before the command |
| `SecretOperator.SecretPurgeExactly` | src/cli/providers.rs:1248-1360 | each line of the report occurs iff a condition on who held the secret before the purge, which provider is selected and writable, and what its delete answered; and when the secret is gone |
| `SecretOperator.SecretPurgeReportsItsCalls` | src/cli/providers.rs:1345-1358 | the "deleted" secrets are, in order, the delete calls that reported success, the "failed" ones the others |
| `SecretOperator.PurgeWalk` | src/cli/providers.rs:1295-1359 | deciding each secret against what is held at that moment equals deciding all of them beforehand |
| `SecretOperator.RefuseSelected` | src/cli/providers.rs:1265-1283 | purging the selected provider refuses every secret it holds and calls no delete |
| `ProviderSet.SetOneSecret` | src/cli/providers.rs:1017-1066 | refuses an unbuilt or read-only provider, writes row then cache, and succeeds iff the write reports success, the providers build again and the value round-trips through the rows |
| `ProviderSet.RunProviderSet` | src/cli/providers.rs:966-1007 | an unset or blank variable writes nothing and fails; else the text in it, trimmed of nothing but white space, is what is written, and success is decided exactly |
| `ProviderSet.SetAcrossRestart` | src/cli/providers.rs:982-1097 | for every reply: with `plain` in the variable and any white space around it, the process built from the rows reads `plain` iff the write took effect, error or not, or it read that already; an accepted deployment stays accepted and every other read is kept |
| `SecretOperator.CliServingIsRightIff` | src/cli/providers.rs:585-589 | the status column agrees with reads iff the secret is declared to the selection or neither provider holds it |
| `SecretOperator.CliNamesTheWrongProvider` | src/cli/providers.rs:585-589 | the concrete deployment in which it names the other provider |
| `Migration.MoveOne` | src/cli/providers.rs:863-886 | one key: skip what the source lacks or the target holds, else write, read back and compare |
| `Migration.MigrateKeys` | src/cli/providers.rs:906-923 | the walk over all keys, per key from the contents before it; bootstrap-tier keys get a line and are untouched |
| `Migration.MigrationIsConservative` | src/cli/providers.rs:858-886 | no value the target held changes, and a "moved" line means source and target agree when the walk is over |
| `Migration.MigrationIsComplete` | src/cli/providers.rs:848-886 | without a failed line, everything the source can read is in the target |
| `Migration.MigrationLinesSay` | src/cli/providers.rs:858-886 | each line occurs iff a condition on source and target before the walk and on what the target reads afterwards; and what every reply of the write leaves |
| `Migration.RerunRetriesExactlyTheFailures` | src/cli/providers.rs:868-886 | a second walk attempts a key iff the first failed on it and left nothing there |
| `Migration.SecondMigrationIsIdle` | src/cli/providers.rs:848-886 | after a walk without a failed line a second one moves and changes nothing |
| `Purging.DryRunPredicts` | src/cli/providers.rs:1336-1358 | line-by-line prediction of the confirmed run, for all fates and replies |
| `Arguments.ParseMigrateArgs` | src/cli/providers.rs:111-168 | the loop over the flags computes the left-to-right reading, with each refusal |
| `Arguments.AcceptedNamesAreTwoProviders` | src/cli/providers.rs:157-167 | accepted arguments never name one provider twice in either tier, however padded |
| `Arguments.SecretKindExactly` | src/app_secrets/mod.rs:374-387 | a name is a provider's iff it is that provider's name once the white space around it is gone |
| `Arguments.AcceptedIff` | src/cli/providers.rs:111-168 | any argument list is accepted iff it is a list of flags in which both names occur and the last `--from` and last `--to` differ trimmed; those are the names used, and the last output flag decides the format |
| `Arguments.RefusedIff` | src/cli/providers.rs:111-168 | any argument list is refused with a given error iff, after a list of flags, that error is what ends the scan, or the flags reach the end and it is the first thing they lack |
| `Boot.BootCheck` | src/app_secrets/mod.rs:664-840 | survey, classify, enforce accepts iff every declared provider is built and holds the secret whenever any built provider does |
| `Boot.Enforce` | src/app_secrets/mod.rs:765-840 | the loop collects exactly the misplaced and unavailable secrets, in order |
| `Boot.FatalSecretsExactly` | src/app_secrets/mod.rs:765-840 | the secrets a refused boot names are exactly those whose declared provider is not built, or lacks a secret another provider holds, in order |
| `Boot.ClassifyExact` | src/app_secrets/mod.rs:734-753 | each of the five classes iff a condition on who is built and who holds the secret; `elsewhere` is exactly the other holders |
| `Boot.AcceptedBootServes` | src/app_secrets/mod.rs:521-536 | after an accepted boot a read answers iff some built provider holds the secret |
| `Boot.StatusMatchesReads` | src/app_secrets/mod.rs:898-914 | the status names a serving provider iff the secret can be read, and it is the one read from |
| `Boot.HoldersExact` | src/app_secrets/mod.rs:664-683 | the survey lists every built holder, once, in kind order |
| `Boot.ElsewhereInOrder` | src/app_secrets/mod.rs:742-746 | the other holders are named in kind order |
| `Boot.DeclaringMovesOneSecret` | src/app_secrets/mod.rs:587-592 | `declaring` changes the provider of one secret and no other |
| `Boot.FirstMatchIsInTable` | src/app_secrets/mod.rs:530-536 | a secret is provided by its first row, or by the process-wide provider iff it has none |
| `Boot.BootTableExactly` | src/app_secrets/mod.rs:974-978 | the table is refused iff some row names an unreadable provider, else lists the rows in order |
| `Boot.DeclaredForSecret` | src/cli/providers.rs:1520-1534 | `provider-set` takes the first row of the secret, refuses it if that row is unreadable, takes the selection without a row, and agrees with boot whenever boot can read the table |
| `ConfigOperator.PurgePreservesService` | src/cli/providers.rs:1362-1466 | a purge of any provider, over any chain and registry, whatever its deletes reply, changes neither value nor serving provider of any key |
| `ConfigOperator.DryRunPredictsConfigPurge` | src/cli/providers.rs:1379-1465 | the configuration form of the dry-run prediction |
| `ConfigOperator.LateRefusalsAreUnreachable` | src/cli/providers.rs:1421-1440 | the last two refusals cannot occur over a chain without repeated kinds |
| `BootstrapRows.SessionsKeepBootstrapRows` | src/config/database.rs:176-245 | over every session of writes, deletes, migrations and purges on a configuration store, no row, file or cached value under a bootstrap-tier key changes |
| `BootstrapRows.SessionStepIs` | src/cli/providers.rs:848-1466 | each command of a session is the migration, the purge or the call it stands for, seen through the provider interface |
| `BootstrapRows.CommandsNeverNameBootstrapKeys` | src/cli/providers.rs:906-916 | no call a migration or a purge makes names a bootstrap-tier key |
| `ConfigOperator.RunsKeepBootstrapKeys` | src/cli/providers.rs:1379-1390 | over every run on a chain, every provider observably holds, and the chain serves, bootstrap-tier keys as at the start |
| `ConfigOperator.MigrateConfig` | src/cli/providers.rs:888-924 | skips when either kind is not in the chain, else migrates the application-tier keys; only the target changes |
| `ConfigOperator.ConfigMigrationExactly` | src/cli/providers.rs:888-924 | over a chain without repeated kinds, each line occurs iff a condition on tier, source and target before the walk and what the target reads after; a bootstrap-tier key is never touched |
| `ConfigOperator.PurgeConfig` | src/cli/providers.rs:1362-1466 | lines, delete calls and remaining values are those of the fates decided before the command |
| `ConfigOperator.ConfigPurgeExactly` | src/cli/providers.rs:1362-1466 | over a chain without repeated kinds, each line occurs iff a condition on tier, holder and serving provider before the purge; a key is deleted iff it is application-tier, held there, served by another provider, confirmed, and its delete takes effect |
| `ConfigOperator.ConfigPurgeReportsItsCalls` | src/cli/providers.rs:1451-1464 | the "deleted" keys are, in order, the delete calls that reported success, the "failed" ones the others |
| `ConfigOperator.PurgeWalk` | src/cli/providers.rs:1379-1465 | resolving each key against the chain at that moment equals deciding all of them beforehand |
| `ConfigOperator.Decide` | src/cli/providers.rs:1380-1440 | the interlocks for one key, in order, resolved against the chain at that moment |
| `ConfigChain.ParseList` | src/config/mod.rs:503-525 | accepts exactly a reading of all entries without repetition, else names the first entry that has none and why |
| `ConfigChain.FailingListHasNoReading` | src/config/mod.rs:503-525 | a list that fails has no reading at all |
| `ConfigChain.ListErrorsSay` | src/config/mod.rs:503-525 | the error is about the first entry that cannot be read: all white space and its position, the text that names no kind, or the kind an earlier entry names |
| `ConfigChain.PriorityListsExactly` | src/config/mod.rs:499-525 | the readable lists are exactly the non-empty duplicate-free ones, each readable from its own rendering |
| `ConfigChain.ReadsExactly` | src/config/mod.rs:503-525 | an entry is read as a kind iff it is that kind's name once the white space around it is gone |
| `ConfigChain.Resolve` | src/config/mod.rs:1321-1350 | the loop returns the first provider that decodes the key and every other holder in chain order |
| `ConfigChain.ResolvesUnique` | src/config/mod.rs:1321-1350 | that specification has one result |
| `ConfigChain.HolderKindsExact` | src/config/mod.rs:1326-1344 | the listed kinds are exactly the holders, each once |
| `ConfigChain.HolderKindsInOrder` | src/config/mod.rs:1326-1344 | the holders are listed in chain order |
| `ConfigChain.ClassificationExact` | src/config/mod.rs:1225-1248 | Missing iff nobody decodes; Used or Duplicate iff the top serves, without or with a lower holder; HigherEmptyLowerHolds iff a lower provider serves |
| `ConfigChain.LowerOthersAreLowerIff` | src/config/mod.rs:1269-1278 | the extra holders are still-lower ones iff nobody above holds an undecodable copy |
| `ConfigChain.LowerOthersCanBeHigher` | src/config/mod.rs:1328-1341 | the concrete chain: an undecodable environment value above the file that serves |
| `WriteThrough.CoherentIff` | src/app_secrets/database.rs:73-238 | after any run from a fresh build, lost calls included, cache and fresh build agree on a name iff what its last effective call left readable is what its last successful call, or the build, left cached; without lost calls iff its last write round-trips |
| `WriteThrough.CacheEqualsFreshBuildIff` | src/app_secrets/infisical.rs:79-191 | the whole cache equals a fresh build iff every name is settled; always without lost calls and with round-tripping values |
| `WriteThrough.LastCallsDecide` | src/app_secrets/database.rs:180-238 | after any run the last effective call on a name decides its row and the last successful one its cached value |
| `WriteThrough.FreshReadIff` | src/app_secrets/database.rs:110-127 | for each store, a written value is read back iff it round-trips |
| `WriteThrough.RotatedKeyHoldsNothing` | src/app_secrets/database.rs:110-127 | whatever run wrote the rows under one encryption key, a build with another one holds none of them |
| `WriteThrough.StripExactly` | src/config/file.rs:263-275 | loading takes away one line ending, `\n` or `\r\n`, and nothing else |
| `WriteThrough.SecretCachesAreNeverBlank` | src/app_secrets/mod.rs:266-273 | over every run of non-blank writes, failing ones included, a secret cache holds no blank value |
| `WriteThrough.BlankSecretDiverges` | src/app_secrets/database.rs:122-127 | a run that breaks coherence: a blank write |
| `WriteThrough.LostCallDiverges` | src/app_secrets/database.rs:195-211 | the other runs that break it: a write or a delete that takes effect and reports an error |
| `WriteThrough.RunsKeepFrozenNames` | src/config/database.rs:176-245 | over every guarded run no bootstrap-tier row or cached value changes |
| `WriteThrough.FrozenNeverCached` | src/config/database.rs:71-136 | a cache built from application-tier names never holds a bootstrap-tier one |
| `ConcurrentWrites.EveryInterleavingCoherentIff` | src/app_secrets/database.rs:195-211 | the cache is right about a name after every complete interleaving of a list of calls iff all calls on the name leave the same thing behind |
| `ConcurrentWrites.CrossingDiverges` | src/app_secrets/infisical.rs:149-162 | from any state, two calls that cross leave the cache with what the store lost |
| `ConcurrentWrites.CrossingLastIsComplete` | src/app_secrets/infisical.rs:149-162 | running the other calls one by one and crossing the pair last is an interleaving of the whole list |
| `ConcurrentWrites.OneByOneIsTheSerialRun` | src/app_secrets/database.rs:180-238 | calls that do not overlap are the serial run |
| `StoreProviders.CachedProvider.Set` | src/app_secrets/database.rs:180-212 | store first, cache only on success, bootstrap-tier names refused before any effect |
| `StoreProviders.CachedProvider.Delete` | src/app_secrets/database.rs:218-238 | the same for a delete |
| `StoreProviders.LoadAppSecrets` | src/app_secrets/database.rs:95-138 | the loop builds exactly the fresh contents: unknown names, undecryptable and blank rows are unheld |
| `StoreProviders.LoadInfisical` | src/app_secrets/infisical.rs:84-97 | fails iff some fetch fails, else the fresh contents |
| `StoreProviders.BuildAppConfig` | src/config/database.rs:71-136 | refused iff a bootstrap-tier key is asked for, else exactly the listed keys, blank values included |
| `StoreProviders.ConfigFileProvider.constructor` | src/config/file.rs:87-154 | a directory, a missing one and an unreadable one load as root and cache prescribe |
| `StoreProviders.ConfigFileProvider.Set` | src/config/file.rs:198-232 | refused without a root or for a bootstrap-tier key, else file then cache |
| `StoreProviders.ConfigFileProvider.Delete` | src/config/file.rs:235-260 | file then cache; without a root only the cache |
| `StoreProviders.FileRuns` | src/config/file.rs:198-260 | over every run, a directory that is a file or unreadable means no root, no write and an empty cache; else the guarded write-through run over the files there were |
| `StoreProviders.ReloadAfterRun` | src/config/file.rs:129-148 | reloading after any run, lost calls included: the last effective call decides what comes back, minus exactly one trailing newline, and the last successful one what was cached |
| `StoreProviders.SecretFileProvider.Set` | src/app_secrets/file.rs:94-102 | a read after an effective write is the trimmed value, unheld if blank; other secrets unchanged |
| `StoreProviders.SecretFileProvider.Delete` | src/app_secrets/file.rs:107-117 | an effective delete leaves the secret unheld; other secrets unchanged |
| `StoreProviders.ReadSecretExactly` | src/cli/providers.rs:1081-1097 | refused as not set iff unset, as blank iff all white space, else exactly the trimmed text between the white space at either end |
| `StoreProviders.SetValuesSurviveRebuilds` | src/cli/providers.rs:1081-1097 | the text in the variable, whatever white space surrounds it, is what every secret store gives back after a rebuild and what its cache holds |
| `StoreProviders.StoreStepIsInterfaceStep` | src/config/database.rs:176-245 | every step of a concrete store is a step of the provider interface, success included |
| `StoreProviders.MovedSurvivesRestartIff` | src/config/file.rs:263-275 | a done write into a cached store is reported as moved, and the next start reads it iff it round-trips |
| `StoreProviders.NewlineIsLostOnRestart` | src/config/file.rs:263-275 | the concrete value that is reported as moved and comes back shorter |
| `StoreProviders.MoveIntoDirectoryIff` | src/app_secrets/file.rs:58-102 | a move into the secrets directory is reported as moved iff the value is trimmed and not blank, and as failed with the trimmed value left behind otherwise |
| `Generations.ConfigCell.TryRefresh` | src/config/mod.rs:787-846 | granted iff every required key is application-tier and decodable; a rejection names the keys in order and leaves the generation identical |
| `Generations.ConfigCell.Refresh` | src/config/mod.rs:756-761 | the best-effort form always applies |
| `Generations.ConfigCell.constructor` | src/config/mod.rs:692-701 | the first generation resolves every key as number 1 |
| `Generations.SerialNumbers` | src/config/mod.rs:349-373 | over every serial run the number is the start plus the applied refreshes, and bootstrap entries are the first generation's |
| `Generations.SerialOutcomes` | src/config/mod.rs:787-846 | a refresh is applied iff every required key is application-tier and decodable now, and then serves them all under the next number; a rejected one changes nothing and names the bootstrap-tier keys, or else the undecodable ones and the provider consulted |
| `Generations.SerialReads` | src/config/mod.rs:349-385 | over every serial run the installed generation reads each application-tier key as the source of the last applied refresh decoded it, each bootstrap-tier key as boot's did, and names who asked for it |
| `Generations.ReadsFrom` | src/config/mod.rs:382-385 | reading a key by name answers what that source decoded, or nothing, with the provider that served it |
| `Generations.Decision` | src/config/mod.rs:790-833 | the two checks together decide exactly whether a refresh can be granted |
| `Generations.UndecodedInOrder` | src/config/mod.rs:814-833 | a rejection names the undecodable required keys in the order required, once per occurrence |
| `Generations.StatesExactly` | src/config/mod.rs:1060-1118 | for any recorded generation, each of the four states of a key iff a condition on the recorded provider and what the live one holds |
| `Generations.StaleAfterRefreshExactly` | src/config/mod.rs:1060-1118 | right after an applied refresh the state of every key: appeared exactly for the held but undecodable application keys, appeared or disappeared for the bootstrap keys whose presence differs from boot, else unchanged |
| `Generations.ProviderNeverChanges` | src/config/mod.rs:1101-1118 | no report of a serial single-provider run says the provider changed |
| `Refreshers.NoReportOfAChangedProvider` | src/config/mod.rs:1101-1118 | the same of every generation in every interleaving |
| `Generations.QuietReportIff` | src/config/mod.rs:1005-1088 | against a source that decodes all it holds, no key diverges iff resolving every key anew would record the same serving provider for each |
| `Refreshers.EveryInterleaving` | src/config/mod.rs:787-846 | in every interleaving of any number of refreshes, every installed generation carries boot's bootstrap entries, is numbered one above its parent and at most one plus the refreshes applied up to it |
| `Refreshers.InstalledReads` | src/config/mod.rs:787-846 | in every interleaving each installed generation reads application-tier keys as decoded at the one attempt its own refresh made between its start and its swap, bootstrap-tier keys as boot decoded them, names that refresh's actor, and served every key it required |
| `Refreshers.ConsecutiveIff` | src/config/mod.rs:808-841 | numbers count up one by one iff each generation was built from the one before it |
| `Refreshers.ConsecutiveIffUncrossed` | src/config/mod.rs:788-841 | the same of the schedule: iff no swap happens between the start of a refresh and its own swap |
| `Refreshers.OverlapRepeatsANumber` | src/config/mod.rs:788-841 | the interleaving that installs a number twice, the second time after a higher one |
| `VersionOrder.IsNewer` | src/version_check.rs:274-286 | the loop decides the lexicographic order on zero-extended components |
| `VersionOrder.NewerIsAStrictWeakOrder` | src/version_check.rs:274-286 | irreflexive, asymmetric, transitive, and incomparability is transitive, on all strings |
| `VersionOrder.RenderRoundTrip` | src/version_check.rs:248-263 | a version rendered from any numbers is read back as those below 2^64, and 0 for the others, after any number of leading `v`s |
| `VersionOrder.ComponentExactly` | src/version_check.rs:258-262 | a component counts for the 64-bit number it spells in decimal, leading zeros allowed; any other text counts for 0 |
| `VersionOrder.Trichotomy` | src/version_check.rs:265-286 | neither is newer iff all components agree |
| `VersionOrder.SuffixChangesNothingIff` | src/version_check.rs:248-263 | appending ".0" or metadata changes no answer iff the string does not end in white space, already has metadata, or ends in a zero component |
| `VersionOrder.SpaceBeforeSuffixIsSeen` | src/version_check.rs:249-251 | the concrete string for which it does |
| `UpdateCheck.Checker.Run` | src/version_check.rs:148-174 | answer a fresh cached result, else fetch, store and answer; disabled touches nothing |
| `UpdateCheck.Checker.Fetch` | src/version_check.rs:179-224 | no response, a status outside 2xx and a body that is no manifest are errors naming the display URL and the failure; a manifest is compared with the running version |
| `UpdateCheck.CachedAnswersAreFresh` | src/version_check.rs:155-163 | over every sequential run a cached answer is the last fetched result, younger than 900 seconds after a manifest and 60 without one |
| `UpdateCheck.CachedIff` | src/version_check.rs:130-163 | over every sequential run a call is answered from the cache iff the last fetch brought a manifest less than 900 seconds ago, or did not and completed less than 60 seconds ago |
| `UpdateCheck.AnswersSay` | src/version_check.rs:148-224 | every answer rests on one fetch, its own or the last before it, and says what that brought |
| `UpdateCheck.FetchesAreApart` | src/version_check.rs:139-174 | two fetch completions are at least 900 seconds apart when the earlier brought a manifest, 60 otherwise |
| `UpdateCheck.FetchRateIsBounded` | src/version_check.rs:126-174 | a window of W seconds contains at most W/60 + 1 fetch completions, W/900 + 1 when no fetch failed |
| `CorsOrigin.MatchesExactly` | src/api/cors_origin.rs:55-89 | for every accepted list an origin matches iff it equals a trimmed exact entry or is a wildcard entry's scheme, a non-empty label, a dot and the suffix |
| `CorsOrigin.Utf8IsInjective` | src/api/cors_origin.rs:65-75 | the header bytes of two texts are equal only if the texts are, so an exact entry admits one text |
| `CorsOrigin.ParsedExactly` | src/api/cors_origin.rs:99-146 | an entry is accepted iff it is a legal exact or wildcard entry, and as which rule |
| `CorsOrigin.NothingButSubdomains` | src/api/cors_origin.rs:76-86 | an origin that ends in the suffix is admitted iff a dot and a label precede it: never the apex, never a look-alike |
| `CorsOrigin.OtherSchemeIsNeverAdmitted` | src/api/cors_origin.rs:69-75 | a wildcard admits nothing under the other scheme |
| `CorsOrigin.AcceptedListsExactly` | src/api/cors_origin.rs:55-58 | the boot goes on iff every entry is a legal exact or wildcard entry |

## Left out

- UpdateCheck.FetchRateIsBounded: covers sequential calls only: the lock is not held across the fetch, so calls that overlap may each fetch.
- Refreshers.EveryInterleaving: resolves all keys of one candidate in a single build step; a key is read once, so the source of that step is what those reads returned.
- ConcurrentWrites.EveryInterleavingCoherentIff: considers successful calls; a refused call has no effect and adds no event, and what a lost one leaves is stated for serial runs.
- Restarts.WorkflowOnStores: takes a writable `a` backed by a store; for a read-only or unbuilt `a` nothing is deleted and `SecretOperator.OperatorWorkflow` applies as it stands.
- Two providers that share a backing file, such as a `{NAME}_FILE` variable pointing into the secrets directory: providers are separate stores here.
- Writes by other processes between the steps of one command.
- Slot construction at boot, beyond which slots are built: the environment and database providers always, the others when their variables are set.
- The environment and bunyip providers, except as read-only stores; for configuration `has` can be true while `get` is `None`.
- Unknown secret names in the hosting profile's table, which end the boot before any provider is consulted.
- A snapshot of a generation: generations are values, so one taken earlier cannot change.
- Argument parsing of `provider-status`, `provider-set` and `provider-purge`, report rendering, JSON output and the redaction check.
- Which text is a legal header value: a parameter of the CORS model, because it is decided by the http crate.
- The update check's URL handling and HTTP client, and the poisoned-lock branches.
- `src/config/flags.rs`, `src/config/guard.rs`, `src/main.rs`, `src/api/router.rs`, the bootstrap binary and `e2e/`: thin wiring or test harness.
