# Kaigara, modelled and proved in Dafny

Kaigara loads versioned configuration from a store, builds a child process's environment from it,
supervises the child, and stops it when a stored version moves. This project models that path in
Dafny 4.11 and proves what it guarantees. `dafny verify dfyconfig.toml` checks everything.

| file | models |
|---|---|
| `Values.dfy`, `Text.dfy`, `Outcomes.dfy` | dynamic values and JSON, Go's `strings`, options and results |
| `SqlStore.dfy`, `SqlHistory.dfy` | the SQL backend: one client's methods, then any number of clients over one table |
| `VaultStore.dfy` | the same interface over a versioned key-value service with soft delete |
| `Kaidel.dfy` | the command that drives Read, DeleteEntry, Write on either backend |
| `StoreKeys.dfy`, `KeyGrammar.dfy`, `CommandEnv.dfy`, `EnvMeaning.dfy` | the (app, scope) loops, the KFILE grammar, BuildCmdEnv, and what the built environment means |
| `StoreVisits.dfy` | BuildCmdEnv's calls answered by either backend, and when both build the same environment |
| `EnvReader.dfy` | kaienv, the second reader of the store |
| `Supervisor.dfy`, `Poller.dfy`, `RunProtocol.dfy` | the signal loop, the version poller, and the goroutines around them |
| `Restarts.dfy` | the poller joined to either backend: which writes cause a restart |
| `LogStream.dfy` | the log pump and the heartbeat key |
| `StructWalk.dfy`, `StructLeaves.dfy`, `FieldParser.dfy`, `EnvLoader.dfy` | the tagged-struct environment loader |

Code that updates state in place is a class or a method with loops, proved against a specification
function; the properties are lemmas about those functions. What the code cannot decide is a
parameter: whether a call to the store succeeds, the order a map is ranged over (methods choose
with `:|`, or take each map as a sequence), the nonce an encryption draws, the clock, and the order
in which processes and goroutines act.

Where the code's behaviour differs from what one would hope, the exact boundary is proved:

- A row that a Read did not find can be created unnoticed: its first write has version 0
  (`SqlHistory.CreationIsInvisible`).
- An update that fails after the look-up leaves the cached version one ahead, which hides exactly
  one later commit (`SqlHistory.FailedUpdateMasksOneCommit`).
- A client that sets the reserved name "version" decides where a row's numbering starts, and from
  below zero it stops at -1, because gorm's update skips a zero field
  (`SqlHistory.RowsCountFromTheirSeed`, `SqlHistory.EverySeedOccurs`).
- Vault's version number does not move when a key is soft-deleted, so agreeing versions do not mean
  current data (`VaultStore.FreshAfterSync`); and a scope whose latest version was soft-deleted
  when it was loaded is reported as changed on every poll (`VaultStore.DeletedNeverAgrees`,
  `Restarts.VaultRestartIffPut`).
- kaidel on Vault deletes the whole map before it writes the rest back: if that write fails, the
  scope is empty to every reader (`Kaidel.VaultStops`).
- The same documents need not build the same environment on both backends: SQL reads every number
  as a float64, which the environment skips (`StoreVisits.BackendsBindAlikeIff`).
- docs/ARCHITECTURE.md:115 says kaienv "runs exactly" what BuildCmdEnv runs. It does not:
  `EnvReader.PrintedIffLastText` and `EnvReader.PrintedIffBound` say exactly when what it prints is
  what the child gets, and `EnvReader.VersionIsPrintedOnly` that a SQL scope's own version number
  never is. The model follows the code.
- A number anywhere inside a document on SQL becomes a float64 on its first trip through a client,
  so commands that rewrite a scope can change numbers they do not touch
  (`Values.IntactIffNumbersRecode`, `Kaidel.BackendsAgree`).
- A look-up that fails during a poll hides the later scopes of that app from that pass
  (`Restarts.SqlRestartIffWritten`).
- One heartbeat refresh that comes too late loses the key for the rest of the run, because the
  loop only ever refreshes it (`LogStream.PresentIffInTime`).
- A map field whose separator is `:` cannot read back any map but the empty one
  (`FieldParser.MapRoundTrip`).

## Model

| member | source | states |
|---|---|---|
| SqlStore.StorageService.Read | pkg/storage/sql/sql.go:69-101 | the cached scope becomes the row with the Version column over its "version", or version 0 alone for a missing row; a failed call loads an empty scope only if none was there |
| SqlStore.StorageService.Write | pkg/storage/sql/sql.go:103-149 | the row is replaced by the cached blob under the stored version plus one, unless that is 0, which the update skips, or created at the cached version; a failure after the look-up leaves the cached version bumped and the table untouched |
| SqlStore.StorageService.SetEntry | pkg/storage/sql/sql.go:167-184 | a secret scope gets the encryptor's output for strings and refuses the rest, "version" excepted; other scopes get the value; a scope that was never read panics |
| SqlStore.StorageService.SetEntries | pkg/storage/sql/sql.go:186-194 | succeeds exactly when every value can be set, in any order, and then the scope is overridden by the sealed values; a failure is that of some value, with exactly some others stored before it; no other scope changes |
| SqlStore.StorageService.GetEntry | pkg/storage/sql/sql.go:196-222 | the decrypted value in a secret scope, the raw one elsewhere, nil for a missing name, an error for a scope not loaded, a non-string secret or a failed decryption |
| SqlStore.StorageService.GetEntries | pkg/storage/sql/sql.go:224-235 | succeeds exactly when every name can be fetched, and then returns all of them; an error is that of some name |
| SqlStore.StorageService.DeleteEntry | pkg/storage/sql/sql.go:237-241 | the name leaves the cached scope, nothing else changes |
| SqlStore.StorageService.GetCurrentVersion | pkg/storage/sql/sql.go:253-264 | the cached int64 version, or which of the two errors |
| SqlStore.StorageService.GetLatestVersion | pkg/storage/sql/sql.go:266-283 | the stored version; for a missing row the cached one, else 0 |
| SqlStore.WriteStores | pkg/storage/sql/sql.go:109-146 | a successful Write leaves in the row each cached entry in its stored form and the new version's literal under "version"; no other row and no other cached entry is touched |
| SqlStore.ReadReads | pkg/storage/sql/sql.go:83-98 | a successful Read caches each stored entry as the client reads it, under the column's number |
| SqlStore.SecretEntries | pkg/storage/sql/sql.go:167-222 | in a secret scope a string is cached as the encryptor's output and anything else is refused both ways |
| SqlHistory.RowsRefineWriteLogs | pkg/storage/sql/sql.go:69-149 | in every interleaving from an empty table each row is the last entry of its write log, its version is the log length minus one, and the "version" in its blob is the literal of that number |
| SqlHistory.RowsCountFromTheirSeed | pkg/storage/sql/sql.go:104-146 | in runs that touch the reserved name too, a row counts on from the version it was created at, and its blob holds that number's literal, except that from below zero it stops at -1 for good while its blob says 0; so its version is the log length minus one if and only if it was created at 0 |
| SqlHistory.SeedIsTheCreatorsVersion | pkg/storage/sql/sql.go:104-114 | a row is created at the version its creator had cached |
| SqlHistory.EverySeedOccurs | pkg/storage/sql/sql.go:104-140 | and that can be any version: Read, set it, Write |
| SqlHistory.CoherentAfterSync | pkg/storage/sql/sql.go:69-149 | after a Write, or a Read that found the row, current and latest version agree if and only if nobody committed that row since, and then the row is the one the client mirrors |
| SqlHistory.CreationIsInvisible | pkg/storage/sql/sql.go:83-84 | after a Read that found no row the versions agree if and only if at most one commit followed |
| SqlHistory.FailedUpdateMasksOneCommit | pkg/storage/sql/sql.go:126-145 | after an update that failed past the look-up the versions agree if and only if exactly one commit followed |
| SqlHistory.RunKeepsSealed | pkg/storage/sql/sql.go:167-184 | every run keeps every value of a secret scope, cached or stored, an encryptor output |
| SqlHistory.SecretsAreSealedAndReadable | pkg/storage/sql/sql.go:202-219 | in every run each cached secret is the encryption of some text and GetEntry returns that text: neither the non-string nor the decryption error can occur |
| SqlHistory.ValuesCrossProcesses | pkg/storage/sql/sql.go:186-235 | SetEntries and Write by one process, Read and GetEntries by another, nobody committing the row in between: the old entries overridden by the new values of any kind, each as it arrives through JSON (an int64 as the float64 of its literal, at any depth), for any invertible encryptor |
| Values.PlaintextInverts | pkg/encryptor/plaintext/plaintext.go:16-31 | the plaintext encryptor is invertible, and produces every text but the empty one |
| Values.RecodingKeeps | pkg/storage/sql/sql.go:89-134 | one trip through JSON keeps a value if and only if it holds, at any depth, no number that is read back as something else |
| Values.IntactIffNumbersRecode | pkg/storage/sql/sql.go:89-134 | reading a JSON value and printing it again leaves it alone if and only if each number in it, at any depth, prints back as it was read |
| Values.RecodingSettles | pkg/storage/sql/sql.go:89-134 | the second such trip changes nothing any more |
| Values.ExactRecodes | pkg/storage/vault/vault.go:205-215 | the client that keeps literals writes every value back as it read it, at any depth |
| Values.EncodeStores | pkg/storage/sql/sql.go:130-134 | what is stored for each kind of value, at any depth: a number as the literal Go prints for it, all else as itself |
| Values.StoredArrives | pkg/storage/sql/sql.go:89-134 | what another process fetches in its place: an int64 or float64 as the float64 of its literal on SQL, as the literal on Vault, all else as itself |
| VaultStore.Service.Read | pkg/storage/vault/vault.go:181-218 | data and version of the latest live version, or both empty when there is none or it is deleted |
| VaultStore.Service.SetEntry | pkg/storage/vault/vault.go:221-239 | like SQL, except that a secret scope seals "version" too |
| VaultStore.Service.GetEntry | pkg/storage/vault/vault.go:282-309 | the decrypted or raw value, nil for a missing name, the errors, and the failed type assertion on a scope never loaded |
| VaultStore.Service.GetEntries | pkg/storage/vault/vault.go:268-279 | succeeds exactly when every name can be fetched and then returns all of them; an error is that of some name; on a scope never loaded the assertion fails |
| VaultStore.Service.Write | pkg/storage/vault/vault.go:253-265 | one more version holding the cached map, whose number becomes the cached version; a failure changes nothing |
| VaultStore.Service.DeleteEntry | pkg/storage/vault/vault.go:392-403 | the latest version is soft-deleted, the name dropped, the rest written back as a new version |
| VaultStore.Service.GetCurrentVersion | pkg/storage/vault/vault.go:359-370 | the cached version, -1 for a scope that was not found; None is the failed assertion on one never loaded |
| VaultStore.Service.GetLatestVersion | pkg/storage/vault/vault.go:373-389 | the number of the latest version, deleted or not, -1 for a key without one, and the error of a failed call |
| VaultStore.WriteStores | pkg/storage/vault/vault.go:253-265 | a successful Write puts one version holding each cached entry in its stored form and notes its number |
| VaultStore.ReadReads | pkg/storage/vault/vault.go:181-218 | a Read caches each entry of the latest version as the client reads it, and nothing if there is none or it is deleted |
| VaultStore.DeleteWritesRest | pkg/storage/vault/vault.go:392-403 | after a DeleteEntry the latest version before it is soft-deleted, and the one after it holds the rest of the scope in its stored form |
| VaultStore.CoherentAfterSync | pkg/storage/vault/vault.go:181-218 | after a Write, or a Read that found the secret or no key at all, the versions agree if and only if nobody put the key since |
| VaultStore.FreshAfterSync | pkg/storage/vault/vault.go:181-218 | the cached map is what a reader would see if and only if the others leave its document showing; while the versions agree, if and only if nobody deleted the key or the map is empty |
| VaultStore.DeletedNeverAgrees | pkg/storage/vault/vault.go:205-215 | after a Read that found the latest version deleted they disagree whatever follows |
| VaultStore.ScopeCrossesProcesses | pkg/storage/vault/vault.go:181-309 | a whole loaded scope written by one process is read by another name by name, each value as it arrives through JSON (an int64 as its literal, at any depth) and decrypted alike, as long as what others do in between leaves it showing |
| VaultStore.ValueCrossesProcesses | pkg/storage/vault/vault.go:221-309 | in particular a value JSON keeps comes out of a secret scope as the very value that was set |
| Kaidel.DeleteFromSql | cmd/kaidel/kaidel.go:50-66 | the loop leaves table and cache as one Read, DeleteEntry, Write per scope would, whatever calls fail, and stops at the first failure |
| Kaidel.DeleteFromVault | cmd/kaidel/kaidel.go:50-66 | the same loop on Vault, whatever calls fail |
| Kaidel.SqlKeyDeleted | cmd/kaidel/kaidel.go:50-66 | when the command succeeds, every visited row has lost the name, is otherwise what it was after one recoding per visit, its version is up once per visit and is the cached one (a version below zero stops at -1), and every other row is untouched |
| Kaidel.SqlSucceeds | cmd/kaidel/kaidel.go:50-66 | on SQL the command succeeds if and only if every call of every visit does, where a blob that does not unmarshal harms only a row that is there by then |
| Kaidel.SqlStops | cmd/kaidel/kaidel.go:50-66 | a failing command stops at a visit with a failing call, with the table as the visits before it left it |
| Kaidel.SqlVersionStays | pkg/storage/sql/sql.go:104-107 | told to delete the reserved name the command fails and no row changes |
| Kaidel.IntactIffRecodes | pkg/storage/sql/sql.go:89-95 | a document is intact after any number of trips through the client if and only if its numbers, at any depth, print back as they were read |
| Kaidel.NumberlessIsIntact | pkg/storage/sql/sql.go:89-95 | as those of a document without numbers at any depth do |
| Kaidel.VaultKeyDeleted | cmd/kaidel/kaidel.go:50-66 | on Vault likewise, numbers intact, at two versions per visit |
| Kaidel.VaultSucceeds | cmd/kaidel/kaidel.go:50-66 | on Vault the command succeeds if and only if no call fails |
| Kaidel.VaultStops | cmd/kaidel/kaidel.go:50-66 | a failing command stops at a faulty visit and leaves that key untouched, emptied, or one version on without the name, according to the call that failed; no other key changes |
| Kaidel.BackendsAgree | cmd/kaidel/kaidel.go:50-66 | two backends holding the same map under a scope still do after the command succeeded on both if and only if the scope was not visited or the numbers left in it, at any depth, survive SQL's recoding |
| Kaidel.MentionsCount | cmd/kaidel/kaidel.go:44-50 | the number of visits is the multiplicity of the scope in the list |
| KeyGrammar.FileKeyInjective | pkg/config/config.go:53 | (N, suffix) is determined by KFILE_N_suffix even when N contains _PATH or _CONTENT |
| KeyGrammar.SlotIff | pkg/config/config.go:53 | the greedy match gives (N, suffix) if and only if the upper-cased key is KFILE_N_suffix and N has no newline |
| Text.SplitsAtFirst | pkg/ika/config.go:419 | strings.Split cuts at the first place of the separator and splits the rest again, for separators of any length |
| CommandEnv.Env.Add | pkg/config/config.go:114-169 | one entry is skipped, appended as a variable, or stored in its file's path or content; nothing else changes |
| CommandEnv.BuildCmdEnv | pkg/config/config.go:90-173 | asks the store for every (app, scope) of "global" and the apps, app-major; panics exactly if some Read or GetEntries fails; else Vars is the filtered inherited list followed by the exports of all entries in visiting order, and Files is the fold over the same entries |
| StoreKeys.PairAt | pkg/config/config.go:102-103 | the j-th scope of the i-th app is asked for at position i times the number of scopes plus j |
| EnvMeaning.InheritedKeepsOrder | pkg/config/config.go:96-100 | filtering the inherited list drops the KAIGARA_ names and keeps the order of the rest |
| EnvMeaning.LastWriterWins | pkg/config/config.go:114-148 | what exec gives a name is the last exportable entry with that upper-cased key, else the inherited binding; names of files are left to the inherited list |
| EnvMeaning.Shadowing | pkg/config/config.go:102-170 | a name that is no file's is bound by the last (app, scope), app-major with "global" first, that gives it a text, and by the filtered inherited list when none does; a file's name by the inherited list |
| EnvMeaning.FilesPairLastTexts | pkg/config/config.go:144-168 | a name has a file if and only if an exportable entry spells it, and the file pairs the last path with the last content independently |
| EnvMeaning.LastKeptBinds | pkg/config/config.go:114-142 | a name is bound by its last entry that is a string, the empty one included, a boolean or a non-empty json.Number, to that string, "true" or "false", or that literal, whatever entries of other kinds follow; without one the inherited value stays |
| EnvMeaning.LastKeptFills | pkg/config/config.go:144-168 | the same for a file's path and content, by the keys KFILE_<name>_PATH and KFILE_<name>_CONTENT |
| EnvMeaning.OrderIrrelevantIff | pkg/config/config.go:114 | the iteration order of one map is invisible if and only if no two of its exportable keys with the same upper-cased form carry different texts |
| EnvMeaning.BuildIsConfluent | pkg/config/config.go:102-170 | under that condition every binding and the whole Files map are the same for all iteration orders of all maps |
| EnvMeaning.DistinctKeysBuildAlike | pkg/config/config.go:102-170 | in particular when no two keys of one scope share an upper-cased form |
| EnvMeaning.TextFixedIff | pkg/config/config.go:102-170 | the text a whole build gets for a target is the same for all iteration orders if and only if no map gives it one or the last that does gives it one only |
| EnvMeaning.BindingFixedIff | pkg/config/config.go:102-148 | a binding is the same for all iteration orders if and only if the name is a file's or its text is settled in that sense |
| EnvMeaning.FileFixedIff | pkg/config/config.go:144-168 | and a file if and only if both of its texts are, or it can have none |
| StoreVisits.VisitSql | pkg/config/config.go:104-114 | Read and GetEntries on SQL list the stored row's decrypted entries and its version in some order, or fail, whatever was cached before |
| StoreVisits.VisitVault | pkg/config/config.go:104-114 | the same on Vault |
| StoreVisits.SqlScopeHoldsVersion | pkg/storage/sql/sql.go:84-95 | whatever a SQL scope yields holds the version as an int64, as EnvReader.VersionIsPrintedOnly asks |
| StoreVisits.SameDocumentsThin | pkg/config/config.go:104-142 | over the same documents, SQL's reserved name apart, a build on Vault fails if and only if one on SQL does or an entry of that name cannot be decrypted; otherwise SQL exports what Vault does except numbers and that entry |
| StoreVisits.BackendsBindAlikeIff | pkg/config/config.go:130-142 | both backends then bind a name alike if and only if it is a file's, or no scope gives it a text, or the last scope that does holds it as something that SQL does not hide, or SQL had bound the same text before |
| StoreVisits.FileAlikeIff | pkg/config/config.go:144-168 | and they build the same file of a name if and only if it can have none or the path and content SQL has, Vault's or earlier ones, pair up to Vault's |
| StoreVisits.NothingHiddenBuildAlike | pkg/config/config.go:114-169 | if Vault exports neither a number nor an entry under SQL's reserved name both build the same bindings and the same Files |
| EnvReader.ReadAllEnv | cmd/kaienv/kaienv.go:52-73 | asks for every (app, scope) of the listed apps, app-major; fails exactly if some Read or GetEntries fails, else every entry in visiting order has overwritten what was there |
| EnvReader.KaienvRun | cmd/kaienv/kaienv.go:30-50 | without a name, one line per key in some order; with one, the value under its lower-cased form or the error |
| EnvReader.ListingHoldsLines | cmd/kaienv/kaienv.go:36-39 | the listing holds, for each key in turn, the upper-cased key, '=', and a string in quotes or any other value bare, one per line and nothing else |
| EnvReader.LookupPrints | cmd/kaienv/kaienv.go:41-73 | a look-up prints the last entry visited under the lower-cased name, a string without quotes and any other kind as `%v` does, and errs if there is none |
| EnvReader.ReadersAgree | cmd/kaienv/kaienv.go:52-73 | over the same maps, lower-case keys without '=': if the last stored value of a name is exportable, kaienv prints the last binding BuildCmdEnv makes; it errs exactly when no map holds the name, and then the store gives BuildCmdEnv nothing either |
| EnvReader.PrintedIffLastText | cmd/kaienv/kaienv.go:41-46 | what kaienv prints is the last text BuildCmdEnv gets from the same maps if and only if the last stored value is absent, or exportable, or the visits before the last map that holds the name already gave that text; it errs if and only if no map holds the name |
| EnvReader.PrintedIffBound | cmd/kaienv/kaienv.go:52-73 | with "global" visited by BuildCmdEnv only: what is printed is what the child gets if and only if the last value in the apps is exportable, or none is there and "global" and the inherited list bind nothing, or what was bound before it is the printed text |
| EnvReader.VersionIsPrintedOnly | cmd/kaienv/kaienv.go:41-43 | for any number of loaded SQL scopes no variable VERSION comes from the store, and kaienv prints the last scope's version |
| EnvReader.ListingGlobalFirst | cmd/kaienv/kaienv.go:55 | prefixing the app list with "global," makes kaienv visit, call by call, what BuildCmdEnv visits |
| EnvReader.GlobalComesFirst | pkg/config/config.go:102 | without it BuildCmdEnv asks for the scopes of "global" and then for what kaienv asks for |
| Supervisor.SuperviseChild | cmd/kaigara/kaigara.go:183-221 | the loop sends exactly the specified transcript up to the child's exit and returns what Wait reported |
| Supervisor.EveryKillIsEarned | cmd/kaigara/kaigara.go:193-218 | in every run each SIGKILL follows, by at least the grace period, the first stop request since the previous SIGKILL; kills never outnumber stop requests; the rest is exactly the accepted signals plus one SIGTERM per restart, in order, at times that follow the clock |
| Supervisor.ArmedDeadlineStays | cmd/kaigara/kaigara.go:200-211 | no later request moves an armed deadline |
| Supervisor.HupsNeverArm | cmd/kaigara/kaigara.go:198-202 | no number of SIGHUPs arms, moves or disarms the deadline |
| Supervisor.OverdueChildIsKilled | cmd/kaigara/kaigara.go:213-218 | in every run in which the timer channel is tried eight seconds or more after a stop request, before the child has exited, a kill has been sent since the request |
| Supervisor.TimerKillsIff | cmd/kaigara/kaigara.go:213-218 | a timer moment sends SIGKILL if and only if it comes 8000 ms or more after the first stop request since the last kill; otherwise nothing is sent |
| Supervisor.ExitCode | cmd/kaigara/kaigara.go:226-246 | 0 exactly for a clean exit, 128 plus the signal, the child's own code, 1 for anything else |
| Poller.Pass | cmd/kaigara/kaigara.go:275-293 | finds the first pair in app-major order whose versions differ and that no failing earlier scope of its app cuts off, or none when none moved |
| Poller.FirstMovedIsUnique | cmd/kaigara/kaigara.go:275-293 | there is only one such pair |
| Poller.WatchSecrets | cmd/kaigara/kaigara.go:256-295 | polls the apps in their order and then "global" unless it is ignored; at most one report per run, of the first moved pair and its two versions, for the first tick that finds one and before any stop; the caller's array is not written |
| Poller.GlobalReportedIff | cmd/kaigara/kaigara.go:256-263 | a tick at which only scopes of "global" moved, none hidden by a failed look-up, is reported if and only if "global" is not ignored |
| Restarts.WatchedWereLoaded | cmd/kaigara/kaigara.go:256-263 | every polled pair was loaded by BuildCmdEnv |
| Restarts.SqlRestartIffWritten | cmd/kaigara/kaigara.go:268-294 | with any actions of any process between the Reads of the load and between the calls of the pass, and whichever look-ups of the pass fail: it reports a pair if and only if it gets to some watched pair, past no failed look-up of that app, that was visibly written between its own Read and the question about it, and then the first of them; with no write it reports nothing |
| Restarts.VaultRestartIffPut | pkg/storage/vault/vault.go:359-389 | on Vault likewise, whichever metadata reads fail: no assertion on a polled pair can fail, and the first pair it gets to is reported that was put since its own Read or was already soft-deleted at it |
| RunProtocol.ChannelsNeverJam | cmd/kaigara/kaigara.go:139-173 | in every interleaving waitDone and restart carry at most one message, so their sends never block; the heartbeat takes exactly one quit before the join; the WaitGroup never goes negative |
| RunProtocol.RestartReachesChild | cmd/kaigara/kaigara.go:204-218 | once sent, a restart message is in the buffer, where main can take it as long as it supervises, or main has asked the child to stop and the kill deadline is armed or has fired since |
| RunProtocol.SignalsAreServed | cmd/kaigara/kaigara.go:191-202 | while main supervises any signal can arrive and be taken, and then the deadline is armed if and only if it was or the signal is no SIGHUP |
| RunProtocol.PollerIsServed | cmd/kaigara/kaigara.go:268-294 | an idle poller can tick, find a moved pair and send its one restart message without blocking |
| RunProtocol.NeverStuck | cmd/kaigara/kaigara.go:170-173 | once the child has exited some step of the program itself is enabled and brings main closer to returning |
| RunProtocol.EveryScheduleEnds | cmd/kaigara/kaigara.go:120-178 | under every schedule a run has at most thirteen program steps plus three per outside event, and when the program rests after the child's exit, main has returned and the wait, poller, heartbeat and pump goroutines have ended |
| RunProtocol.MainCanAlwaysReturn | cmd/kaigara/kaigara.go:120-178 | from every reachable state after the child's exit main returns within twelve steps of the program's own |
| RunProtocol.GoroutinesEnd | cmd/kaigara/kaigara.go:154-173 | when main has returned the wait, heartbeat and pump goroutines have ended, and the poller can end within two steps |
| LogStream.RedisLogStream.Publish | pkg/logstream/redis.go:40-70 | standard output and Redis get what the reads delivered up to and including the first failing read |
| LogStream.RedisLogStream.HeartBeat | pkg/logstream/redis.go:77-98 | with any of the calls failing unnoticed, the key's expiry is what the SET and the refreshes that got through make it; a quit deletes the key; nothing else is touched |
| LogStream.MessagesConserve | pkg/logstream/redis.go:45-58 | the payloads concatenate to exactly the bytes delivered, each of 1 to 65536 bytes on the given channel |
| LogStream.StopsAtFirstFailure | pkg/logstream/redis.go:60-68 | nothing before the first failing read is skipped, nothing after it is handled |
| LogStream.PresentIffInTime | pkg/logstream/redis.go:77-98 | the key is present if and only if it was there to begin with, because the SET got through or it was left from before, and every refresh that got through came within 20 s of the SET or refresh before it, or before the old expiry |
| StructWalk.ReadFields | pkg/ika/config.go:187-251 | one struct's settable leaves and nested structs in field order; the panic exactly when a nested struct's address cannot be taken |
| StructWalk.ReadStructMetadata | pkg/ika/config.go:173-256 | the growing worklist ends, with the level order of the struct; it fails exactly for what is not a struct and panics exactly when some nested struct is not open |
| StructWalk.QueueIsLevelOrder | pkg/ika/config.go:174-199 | the worklist's order is level by level |
| StructLeaves.LevelOrderPermutesDfs | pkg/ika/config.go:173-256 | it yields the same multiset as a recursive traversal |
| StructLeaves.ShallowFirst | pkg/ika/config.go:173-256 | no leaf comes before a shallower one |
| StructLeaves.EveryLeafOnce | pkg/ika/config.go:173-256 | every settable leaf is yielded exactly once with the metadata of its own tags, and nothing else is |
| StructLeaves.FieldOrderWithinLevel | pkg/ika/config.go:173-256 | leaves of one depth stand in the order of their field paths, which with ShallowFirst fixes the whole order |
| StructLeaves.WalkableIff | pkg/ika/config.go:202-207 | the walk gets through if and only if every nested struct, at any path, is exported and the root that nests it is a pointer |
| StructLeaves.SettableIff | pkg/ika/config.go:214-217 | a leaf can be set if and only if it is exported and its struct addressable, as every nested one is |
| FieldParser.ParseValue | pkg/ika/config.go:310-411 | the type-directed parser computes the specified value or error; FieldParser.ParseMeans says which that is |
| FieldParser.ParseMeans | pkg/ika/config.go:310-455 | it yields exactly the value the text means for the type, at any nesting of slices and maps: the text itself, the very value strconv or time reads from it (a time in its layout or RFC 3339), the bytes of a []byte, the items in order, the last pair of each key; and an error if and only if there is none |
| FieldParser.OnlyZeroIsZero | pkg/ika/config.go:527-563 | isZero accepts exactly one value of each type, its zero value |
| FieldParser.ParseSlice | pkg/ika/config.go:414-429 | element by element, stopping at the first error; blank text is the empty slice |
| FieldParser.ParseMap | pkg/ika/config.go:432-455 | pair by pair, the last of equal keys winning, an error for a pair without ':' |
| FieldParser.SliceRoundTrip | pkg/ika/config.go:414-429 | joined separator-free elements parse back to the slice if and only if the joined text is not blank or the slice is empty |
| FieldParser.StringsRoundTrip | pkg/ika/config.go:325-327 | in particular for strings, which print as themselves |
| FieldParser.IntsRoundTrip | pkg/ika/config.go:345-353 | and for integers of any width, by whatever texts strconv reads them from |
| FieldParser.MapRoundTrip | pkg/ika/config.go:432-455 | any ordering of the joined "k:v" pairs parses back to the map if and only if the separator is not ':' or the map is empty; colons in values are fine |
| EnvLoader.LookupFirst | pkg/ika/config.go:279-284 | the value of the first set name of the list |
| EnvLoader.LoadMeans | pkg/ika/config.go:271-303 | what one iteration gives a field is what the precedence rule asks for by its tags: first set name of the comma-separated env list, else prior non-zero value, else env-default, else unchanged, split at env-separator or a comma, times in env-layout; and an error exactly when nothing meets the rule |
| EnvLoader.LoadField | pkg/ika/config.go:271-303 | the loop body computes that value |
| EnvLoader.ReadEnvVars | pkg/ika/config.go:259-306 | after the configuration's own Update, if it has one, succeeds exactly when every settable leaf has a value that settles it, judged by the values then; then each leaf has settled and nothing else has moved; a failing run leaves exactly the leaves before the failing one loaded |
| EnvLoader.LoadedByType | pkg/ika/config.go:300-411 | what a run leaves in a field that takes a text, type by type |
| EnvLoader.RunningAgainChangesNothing | pkg/ika/config.go:259-306 | a second run under the same environment, full or update, cannot fail and changes nothing |
| EnvLoader.UpdateTouchesUpdatable | pkg/ika/config.go:271-274 | an update run changes no field without the env-upd tag |

## Left out

- Integer widths: versions are unbounded, so int64 wrap-around is not modelled.
- SqlStore.StorageService.Write: the look-up and the update are one atomic step over a table with at most one row per (app, scope); two writers between look-up and update are not modelled.
- The nested maps `ds[app][scope]` are one map keyed by the pair; the operations cannot tell the difference.
- A blob that is valid JSON but no object is not modelled; a number too large for a float64 counts as a blob that does not unmarshal.
- Case mapping is the ASCII one, in keys, in the KFILE grammar and in kaienv; other scripts and the characters that fold into ASCII are left out.
- Vault itself: HTTP, tokens, transit keys, an unset deployment ID and version retention. A call succeeds or fails as a parameter says, and the service keeps every version.
- ListEntries, ListAppNames, Close, Vault's SetEntries (the same loop as SQL's), pkg/database, gorm and its dialects.
- AES-GCM and base64: an encryptor is any function with an inverse.
- StoreVisits.SameDocumentsThin: compares backends that hold the same sealed texts and share one encryptor.
- Writing the KFILE contents to disk, creating directories, log text, flag parsing.
- RunProtocol.GoroutinesEnd: the goroutine that forwards standard input, which outlives the call, is not part of this model.
- Processes, pipes and signals are events: a signal that cannot be delivered is only logged by the code and counts as sent, and bytes that no read returned are not counted.
- LogStream.RedisLogStream.Publish: short or failing writes to standard output and failed publishes, which the code does not retry, count as submitted.
- RunProtocol.EveryScheduleEnds: heartbeat ticks are outside events, so it says nothing of a schedule that serves the ten-second timer forever and never the waiting quit.
- The poll interval's jitter: a tick may come at any time.
- FieldParser.ParseValue: the Setter interface is left out, and strconv, time and UTF-8 conversion are given partial functions.
- FieldParser.ParseMap: float map keys are told apart by their bits, so NaN and the two zeros differ from Go's maps.
- EnvLoader.ReadEnvVars: configuration files, GetDescription and FUsage are left out.
- Nested structs are trees of types; pointers to structs are unsupported fields, as in the code.
