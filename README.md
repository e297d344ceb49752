# casaconfig measures update, modelled in Dafny

This project models the update core of casaconfig. That core is the code that
decides whether the CASA measures data in a directory need refreshing, takes
the data lock, checks again, and installs a new version from the ASTRON
server. It covers two functions:

- `measures_update`, which is imperative. It is modelled twice:
  - as the pure specification `Update.UpdateOutcome`. This gives the exit taken
    and the filesystem steps performed, in order, on a directory value `Dir`.
  - as the method `Update.MeasuresUpdate`. This works step by step on a
    `Directory.ManagedDirectory` object, whose fields are the directory's
    observable state. Each filesystem step is one method of that class.
    `MeasuresUpdate` is proved to return the exit of `UpdateOutcome`, to leave
    the directory in `Run(old state, steps)`, and to record exactly those steps
    in its ghost `history`. Its stages (`PreLockChecks`, `LockedSession`,
    `InstallData`, `TransferData`, `UnpackData`) are proved against the matching
    specification functions. The `x_list` loop is `Update.SelectMembers`.
- `measures_available`, which is pure. It is modelled as
  `Available.MeasuresAvailable` over an abstract listing that may fail in two
  ways: a `socket.gaierror` or any other exception.

Outside inputs become an `Update.Env` value. These are:

- what `get_data_info` reports before the lock;
- what it reports after the lock;
- the listing behind `measures_available()`;
- the download server's names and sizes;
- the archive's member names;
- where, if anywhere, the FTP session or the extraction raises;
- today's date string and the clock.

Python's `sorted` on strings is modelled as an insertion sort under code-point
order (`Sorting`, `Strings.LexLe`). Only the resulting order matters, and that
order is the same whatever algorithm produces it. `re.search` with the plain
patterns `geodetic` and `Observatories` is substring search. With the pattern
`.old` it is "any character but a newline, then `old`" (`Strings`).

The model follows the code as written. These behaviours of the code are
easy to misread:

- A latest-version call whose readme is younger than a day returns at line 193
  without touching the readme. The readme is touched only when the version to
  check is already installed (219-228).
- With `auto_update_rules`, the docstring (85-88) says that a missing or
  unreadable readme makes the call return without updating. The code raises
  `NoReadme` (196-197) or `BadReadme` (199-200) instead, and the model raises
  too.
- A pre-lock readme version `'unknown'` returns quietly (203-205). It does not
  raise.
- After the lock, the code re-checks only two cases: the requested version is
  now installed (268), or the readme is now recent (271). Neither touches the
  readme.
- The guard at line 276 compares the *requested* `version` against `'invalid'`
  and `'unknown'`, not the re-read `current`. So a readme that went bad while
  this call waited for the lock does not stop a latest-version install
  (`UpdateProperties.RecheckIgnoresInstalledSentinel`). A request for a version
  named `'invalid'` or `'unknown'` raises `BadReadme` and leaves the lock dirty
  (`UpdateProperties.RecheckRejectsSentinelRequest`).
- A requested target that the server does not list returns after a log message
  (302-303). It leaves the lock non-empty, because `clean_lock` was cleared at
  292.
- In the pre-lock check (211), an empty `measures_available()` list makes `[-1]`
  raise `IndexError`. The bare `except` swallows it, so the version to check
  becomes `None`. The test at 220 then fails whatever the readme says, and
  the call goes on to the Observatories check.
- After the lock, the download session lists the server again. Its names are
  kept only when they pass the same name filter and have a positive
  `ftp.size` (296). This listing is `Env.server`, which is separate from
  `Env.listing`. When it is empty and no version was requested, `files[-1]` at
  301 raises and the error propagates. The model names this failure
  `NoVersions`.
- `os.utime` on a readme that has vanished raises. This is
  `Failure(TouchFailed)`.

## Model

| member | source | states |
|---|---|---|
| Update.UpdateOutcome | casaconfig/private/measures_update.py:148-388 | definition: the exit measures_update takes and the filesystem steps it performs, in order, from a directory state; `MeasuresUpdate` is proved equal to it, and the `UpdateProperties` lemmas state its properties |
| Update.CreateOps | casaconfig/private/measures_update.py:172-174 | definition: `os.makedirs` only when the path is not a directory yet (`UpdateProperties.CreateOpsRun`) |
| Update.PreLock | casaconfig/private/measures_update.py:188-238 | definition: the decisions before the lock when `force` is False, in source order (`UpdateProperties.RecentCheckStops` … `MissingObservatoriesStops`) |
| Update.Locked | casaconfig/private/measures_update.py:255-284 | definition: the re-check under the lock, then the install (`UpdateProperties.RecheckFindsNothingToDo`, `RecheckRejectsSentinelRequest`, `RecheckIgnoresInstalledSentinel`) |
| Update.Install | casaconfig/private/measures_update.py:286-303 | definition: connecting, listing and choosing the target (`UpdateProperties.InstallChoosesTarget`) |
| Update.Transfer | casaconfig/private/measures_update.py:306-315 | definition: deleting a stale archive and downloading (`UpdateProperties.FetchState`, `DownloadFailureState`) |
| Update.Unpack | casaconfig/private/measures_update.py:317-349 | definition: removing the readme, extracting, deleting the archive and writing the readme (`UpdateProperties.UnpackState`, `ExtractFailureState`) |
| Update.Extractable | casaconfig/private/measures_update.py:326-334 | definition: the per-member name test, with the `force and use_astron_obs_table` branch (`UpdateProperties.ExtractionExamples`, `ObservatoriesExamples`) |
| Update.Selected | casaconfig/private/measures_update.py:325-334 | definition: the `x_list` the loop builds (`Update.SelectMembers`, `UpdateProperties.SelectedMembers`) |
| Sorting.Sort | casaconfig/private/measures_update.py:296 | definition: `sorted` as an insertion sort (`Sorting.SortCorrect`) |
| Sorting.Insert | casaconfig/private/measures_update.py:296 | definition: one insertion step (`Sorting.InsertSorted`, `InsertPermutes`) |
| Readme.ReadmeText | casaconfig/private/measures_update.py:345 | definition: the text written into the readme (`Readme.ReadmeLines`, `ReadmeRoundTrip`) |
| Available.Listed | casaconfig/private/measures_available.py:56 | definition: the name test of the comprehension (`Available.KeepListedMembers`) |
| Strings.LexLe | casaconfig/private/measures_update.py:296 | definition: Python's `<=` on `str` (`Strings.LexLeTotal`, `LexLeTransitive`…) |
| Strings.Contains | casaconfig/private/measures_update.py:329-333 | definition: `re.search` with a pattern free of metacharacters (`Strings.OccurringCharacter`) |
| Strings.MatchesDotOld | casaconfig/private/measures_update.py:329-333 | definition: `re.search('.old', name)` (`Strings.DotOldNeedsL`, `UpdateProperties.DotOldIsARegex`) |
| Directory.Step | casaconfig/private/measures_update.py:174-385 | definition: the effect of one filesystem step on the directory; an extraction adds its members and puts `geodetic/Observatories` in place when one of them is that directory or lies below it; each `ManagedDirectory` method is proved to perform it |
| Directory.Run | casaconfig/private/measures_update.py:174-385 | definition: a sequence of steps in order (`Directory.RunAppend`, `RunSnoc`) |
| Available.KeepListed | casaconfig/private/measures_available.py:56 | every returned name is non-empty and does not end in `.dat`, and the result is no longer than the listing |
| Available.KeepListedMembers | casaconfig/private/measures_available.py:56 | a name is returned iff it is in the listing, is non-empty and does not end in `.dat` |
| Available.KeepListedCounts | casaconfig/private/measures_available.py:56 | a passing name is returned as many times as the listing has it, any other name never |
| Available.KeepListedAppend | casaconfig/private/measures_available.py:53-56 | filtering a concatenation is concatenating the filtered parts, so the listing's order is kept and nothing is sorted |
| Available.KeepListedIdentity | casaconfig/private/measures_available.py:56 | a listing whose names all pass is returned unchanged |
| Available.MeasuresAvailable | casaconfig/private/measures_available.py:44-63 | a listing is returned exactly when one was obtained, and it is then the filtered server names, in the server's order, all of which pass the filter; a `socket.gaierror` becomes `RemoteError` with the prefix "Unable to retrieve list of available measures versions : "; any other failure becomes `Exception` with the prefix "Unexpected exception while getting list of available measures versions : " |
| Available.ListingExample | casaconfig/private/measures_available.py:56 | `["b.ztar", "", "x.dat", "a.ztar"]` gives `["b.ztar", "a.ztar"]`: empty and `.dat` names are dropped and the rest keep their order |
| Strings.LexLeReflexive | casaconfig/private/measures_update.py:296 | the code-point order that `sorted` uses is reflexive |
| Strings.LexLeTotal | casaconfig/private/measures_update.py:296 | any two names are comparable |
| Strings.LexLeAntisymmetric | casaconfig/private/measures_update.py:296 | names that are each at most the other are equal |
| Strings.LexLeTransitive | casaconfig/private/measures_update.py:296 | the order is transitive |
| Strings.OccurringCharacter | casaconfig/private/measures_update.py:329-333 | when `re.search` finds a plain pattern, every character of the pattern is in the name |
| Strings.DotOldNeedsL | casaconfig/private/measures_update.py:329-333 | a name that `.old` matches contains an `l` |
| Sorting.InsertPermutes | casaconfig/private/measures_update.py:296 | inserting adds exactly the inserted name to the multiset |
| Sorting.InsertSorted | casaconfig/private/measures_update.py:296 | inserting into a sorted list keeps it sorted |
| Sorting.SortCorrect | casaconfig/private/measures_update.py:296 | `sorted` returns an ascending permutation of its input |
| Sorting.SortLastIsMaximum | casaconfig/private/measures_update.py:296-301 | `files[-1]` of a non-empty sorted listing is one of its names and is at least every one of them |
| Readme.LinesOfLine | casaconfig/private/measures_update.py:345 | text without a newline is one line |
| Readme.LinesJoin | casaconfig/private/measures_update.py:345 | splitting `a + "\n" + b` gives `a` followed by the lines of `b` |
| Readme.Field | casaconfig/private/measures_update.py:345 | independent reader, not casaconfig's own: a field value that is read back is exactly what follows its key on the line |
| Readme.ParseReadme | casaconfig/private/measures_update.py:345 | independent reader of the written text, used only for the round trip (casaconfig's own reader, `get_data_info`, is not part of this model): a readme that parses has three lines, the first being "# measures data populated by casaconfig" |
| Readme.ReadmeLines | casaconfig/private/measures_update.py:344-345 | split on newlines by the independent reader, the written readme is exactly the three lines header, `version : <target>`, `date : <date>` |
| Readme.ReadmeRoundTrip | casaconfig/private/measures_update.py:344-345 | the written readme reads back, through the independent reader, as its version and date |
| Directory.NameSetSize | casaconfig/private/measures_update.py:338 | extracting a member list adds at most as many names as the list is long (used by `UpdateProperties.InstalledMemberBound`) |
| Directory.NameSetAppend | casaconfig/private/measures_update.py:338 | extracting two member lists adds the same names as extracting their concatenation (used by `UpdateProperties.PartialWithinSelection`) |
| Directory.ManagedDirectory.MakeDirs | casaconfig/private/measures_update.py:172-174 | the path becomes a directory, nothing else changes, and the step is recorded |
| Directory.ManagedDirectory.Utime | casaconfig/private/measures_update.py:224-226 | succeeds exactly when a readme is present, and then sets only its modification time; otherwise nothing changes |
| Directory.ManagedDirectory.AcquireLock | casaconfig/private/measures_update.py:252-253 | succeeds exactly when the lock file is empty, and then marks it non-empty; otherwise nothing changes (BadLock) |
| Directory.ManagedDirectory.RemoveArchive | casaconfig/private/measures_update.py:307-309 | only the archive is gone afterwards |
| Directory.ManagedDirectory.OpenArchive | casaconfig/private/measures_update.py:311-313 | only the archive is present afterwards |
| Directory.ManagedDirectory.RemoveReadme | casaconfig/private/measures_update.py:318-320 | only the readme is gone afterwards |
| Directory.ManagedDirectory.ExtractAll | casaconfig/private/measures_update.py:336-339 | only the given members are added, and `geodetic/Observatories` becomes a directory exactly when it already was or one of them lies in it |
| Directory.ManagedDirectory.WriteReadme | casaconfig/private/measures_update.py:343-345 | only the readme text and its modification time change |
| Directory.ManagedDirectory.TruncateLock | casaconfig/private/measures_update.py:383-385 | only the lock file becomes empty |
| Update.CheckVersion | casaconfig/private/measures_update.py:207-217 | the version checked is the requested one, else the last name of the listing; a `RemoteError` propagates exactly when no version was requested and the server was unreachable; any other failure, or an empty list, leaves it `None` |
| Update.Candidates | casaconfig/private/measures_update.py:296 | every download candidate passes the listing filter |
| Update.SelectMembers | casaconfig/private/measures_update.py:325-334 | the loop builds exactly the selection `Selected` of the archive's members |
| Update.PreLockChecks | casaconfig/private/measures_update.py:176-238 | stops exactly where the pre-lock decisions stop, with their exit and their steps |
| Update.LockedSession | casaconfig/private/measures_update.py:255-349 | the re-check and install under the lock give the specified exit, `clean_lock` value and steps |
| Update.InstallData | casaconfig/private/measures_update.py:286-303 | connecting and choosing the target give the specified exit, `clean_lock` value and steps |
| Update.TransferData | casaconfig/private/measures_update.py:306-315 | deleting a stale archive and downloading give the specified exit, `clean_lock` value and steps |
| Update.UnpackData | casaconfig/private/measures_update.py:317-349 | removing the readme, extracting, deleting the archive and writing the readme give the specified exit, `clean_lock` value and steps |
| Update.MeasuresUpdate | casaconfig/private/measures_update.py:148-388 | the whole call returns the exit of `UpdateOutcome` and performs exactly its steps, in order |
| UpdateProperties.OrderingDiscipline | casaconfig/private/measures_update.py:244-349 | every data change happens while the lock file is non-empty; a stale archive is deleted before the download; extraction happens only after a download in the same call, with the archive present and the readme gone; the new readme is written only after an extraction in the same call, once the archive is deleted |
| UpdateProperties.OrderHolds | casaconfig/private/measures_update.py:306-345 | in every call, each extraction comes after a download and each readme write after an extraction |
| UpdateProperties.TransferOrdered | casaconfig/private/measures_update.py:306-345 | within the fetch and unpack, the extraction follows the download and the readme write follows the extraction |
| UpdateProperties.DisciplineHolds | casaconfig/private/measures_update.py:244-386 | every step of every call obeys the step rules |
| UpdateProperties.SessionDisciplined | casaconfig/private/measures_update.py:286-349 | every step under the lock changes data and obeys the rules |
| UpdateProperties.TransferDisciplined | casaconfig/private/measures_update.py:306-315 | the fetch obeys the rules while the lock is held |
| UpdateProperties.UnpackDisciplined | casaconfig/private/measures_update.py:317-345 | the unpack obeys the rules while the lock is held and the archive is present |
| UpdateProperties.DisciplinedAt | casaconfig/private/measures_update.py:244-349 | a sequence obeying the rules obeys them at every position, in the state reached so far |
| UpdateProperties.AutoUpdateRulesGuard | casaconfig/private/measures_update.py:162-174 | with `auto_update_rules`, a version or `force` returns with no step taken, a missing or foreign directory raises `AutoUpdatesNotAllowed`, and the directory is never created |
| UpdateProperties.RecentCheckStops | casaconfig/private/measures_update.py:183-193 | a latest-version call with a readme younger than a day returns before any query or lock, having at most created the directory |
| UpdateProperties.ReadmeProblemsStop | casaconfig/private/measures_update.py:195-205 | a readme reported `'invalid'` raises `NoReadme`, `'error'` raises `BadReadme`, `'unknown'` returns, all without the lock or any other step |
| UpdateProperties.RemoteErrorStops | casaconfig/private/measures_update.py:207-214 | an unreachable server while looking for the latest version raises its `RemoteError` before the lock |
| UpdateProperties.AlreadyInstalledTouches | casaconfig/private/measures_update.py:219-228 | when the version to check for is installed, only the readme's modification time changes; a vanished readme makes the touch fail |
| UpdateProperties.MissingObservatoriesStops | casaconfig/private/measures_update.py:230-238 | when the version to check is not the installed one (including a `None` version to check on a directory without readme information), a missing `geodetic/Observatories` makes the call return without the lock; only the directory is created |
| UpdateProperties.NotWritableStops | casaconfig/private/measures_update.py:240-242 | an unwritable directory raises `NotWritable` before the lock, with or without `force` |
| UpdateProperties.DirtyLockStops | casaconfig/private/measures_update.py:246-253 | a non-empty lock file raises `BadLock` and stays as it is; nothing changes beyond creating the directory |
| UpdateProperties.LockTakenIff | casaconfig/private/measures_update.py:162-253 | the lock is taken exactly when every earlier check passes; without it no data change at all |
| UpdateProperties.UntakenLockChangesNoData | casaconfig/private/measures_update.py:162-253 | a call that does not take the lock changes at most the directory's existence and the readme's modification time |
| UpdateProperties.SessionCleanIff | casaconfig/private/measures_update.py:248-349 | `clean_lock` ends True exactly when the session neither raised nor missed its target |
| UpdateProperties.SessionLockState | casaconfig/private/measures_update.py:381-386 | after the session and the `finally`, the lock is non-empty exactly when the session failed |
| UpdateProperties.LockReleasedUnlessFailed | casaconfig/private/measures_update.py:276-386 | a call that took the lock leaves it non-empty exactly when it raised or missed its target |
| UpdateProperties.RecheckFindsNothingToDo | casaconfig/private/measures_update.py:255-273 | after the lock, the requested version now installed, or a recent readme for a latest-version call, ends the call with the lock taken and truncated and nothing else changed |
| UpdateProperties.RecheckRejectsSentinelRequest | casaconfig/private/measures_update.py:274-281 | a request for a version named `'invalid'` or `'unknown'` whose re-read readme does not show it raises `BadReadme`, leaves the lock non-empty and changes nothing else |
| UpdateProperties.RecheckIgnoresInstalledSentinel | casaconfig/private/measures_update.py:274-284 | a latest-version call whose re-read readme is not recent goes on to the install, whatever version that readme reports |
| UpdateProperties.NoDownloadOnceInstalled | casaconfig/private/measures_update.py:255-270 | when the re-read readme shows the requested version, nothing is downloaded |
| UpdateProperties.InstallChoosesTarget | casaconfig/private/measures_update.py:288-303 | an installed target is a download candidate: the requested version, or the greatest candidate; the target is reported missing exactly when a requested version is not a candidate and the connection succeeded; `NoVersions` happens exactly when the latest is wanted and there is no candidate |
| UpdateProperties.CandidatesMembers | casaconfig/private/measures_update.py:296 | a name is a candidate exactly when a server entry with that name passes the filter and has a positive size |
| UpdateProperties.UnpackState | casaconfig/private/measures_update.py:317-345 | a complete unpack adds the selected members, puts the Observatories table in place when a selected member belongs to it, deletes the archive and writes the readme for the target |
| UpdateProperties.UnpackSteps | casaconfig/private/measures_update.py:336-345 | its last three steps are the extraction of the whole selection, the archive's removal and the readme write |
| UpdateProperties.FetchState | casaconfig/private/measures_update.py:306-313 | fetching leaves exactly a fresh archive |
| UpdateProperties.InstalledState | casaconfig/private/measures_update.py:286-386 | a call that installs its target leaves the selected members added, the Observatories table in place when it was or a selected member belongs to it, no archive, the new readme for the target with the date, and an empty lock file |
| UpdateProperties.InstalledSteps | casaconfig/private/measures_update.py:336-385 | the readme is written after the complete extraction and the archive's removal, and only the lock truncation follows |
| UpdateProperties.InstalledTarget | casaconfig/private/measures_update.py:296-301 | the installed target is the requested version, or else the greatest candidate on the server |
| UpdateProperties.InstalledReadmeReadsBack | casaconfig/private/measures_update.py:343-345 | the readme written by an install reads back as the installed version and the date |
| UpdateProperties.SessionExitTakesLock | casaconfig/private/measures_update.py:244-349 | an exit that only the locked session produces implies that the lock was taken |
| UpdateProperties.ExtractFailureState | casaconfig/private/measures_update.py:317-339 | an extraction that raises leaves no readme, the members extracted so far (and the Observatories table when one of them belongs to it), the archive, and a non-empty lock |
| UpdateProperties.DownloadFailureState | casaconfig/private/measures_update.py:306-315 | a download that raises leaves a partial archive beside the untouched data and readme, and a non-empty lock |
| UpdateProperties.EarlyFailureState | casaconfig/private/measures_update.py:290-303 | a failed connection, an empty server listing or a missing target leaves only the non-empty lock |
| UpdateProperties.SelectedMembers | casaconfig/private/measures_update.py:325-334 | a member is extracted exactly when it is in the archive and passes the name tests |
| UpdateProperties.ExtractionExamples | casaconfig/private/measures_update.py:327-334 | an ephemeris is extracted, a geodetic `.old` table never |
| UpdateProperties.ObservatoriesExamples | casaconfig/private/measures_update.py:327-334 | the Observatories table is skipped with `force` alone and extracted with both `force` and `use_astron_obs_table` |
| UpdateProperties.DotOldIsARegex | casaconfig/private/measures_update.py:329-333 | because `.old` is a regular expression searched anywhere, `geodetic/Threshold` is skipped too |
| UpdateProperties.ObservatoriesPathNamesTable | casaconfig/private/measures_update.py:331-333 | a member that would put `geodetic/Observatories` in place has "Observatories" in its name, so `re.search('Observatories', …)` finds it |
| UpdateProperties.ObservatoriesKeptUnlessAsked | casaconfig/private/measures_update.py:326-334 | without both `force` and `use_astron_obs_table`, no selected member puts the Observatories table in place, so extraction leaves the table as it was |
| UpdateProperties.ObservatoriesExtractedWhenAsked | casaconfig/private/measures_update.py:326-338 | with both flags, an archive member of the Observatories table that `.old` does not match is selected, and extracting the selection puts the table in place |
| UpdateProperties.TableAfterExtraction | casaconfig/private/measures_update.py:326-338 | the table after extracting the selection: unchanged without both flags; in place with both when the archive holds a member of the table that `.old` does not match, `geodetic/Observatories` itself included |
| UpdateProperties.InstalledTable | casaconfig/private/measures_update.py:286-386 | after an install the table is in place exactly when it was before or a selected member belongs to it |
| UpdateProperties.InstalledObservatories | casaconfig/private/measures_update.py:230-338 | what the check at 232 will find after an install: the table unchanged unless both `force` and `use_astron_obs_table` were given, and in place when they were and the archive holds `geodetic/Observatories` or another member of it that `.old` does not match |
| UpdateProperties.PartialWithinSelection | casaconfig/private/measures_update.py:336-339 | the members a failed extraction leaves are among those the complete extraction adds, and so is the Observatories table |
| UpdateProperties.SelectedLength | casaconfig/private/measures_update.py:325-334 | the extraction list is no longer than the archive's member list |
| UpdateProperties.InstalledMembers | casaconfig/private/measures_update.py:336-339 | after an install the directory's members are the earlier ones plus the selection |
| UpdateProperties.InstalledMemberBound | casaconfig/private/measures_update.py:325-339 | an install adds at most as many names as the archive has members (from `Directory.NameSetSize` and `SelectedLength`) |
| UpdateProperties.ForceAlwaysInstalls | casaconfig/private/measures_update.py:172-386 | with `force` (the docstring at 108: an update always happens), once the path is set, auto-update rules are off, the directory is writable and the lock is free, the call is exactly the install sequence under the lock, whatever the readme reports, followed by the truncation when `clean_lock` is set |

## Left out

- The FTP and FTP_TLS sessions, `nlst`, `size` and `retrbinary` are network
  I/O. They become the listing, the server entries and a fault in the
  environment. `ftp.size` returning `None`, which Python 3 cannot compare with
  0, is not modelled.
- `tarfile`, its `data_filter` and the archive's contents are a library read.
  The archive is its member names, and extraction adds the selected names to
  the directory. A member named `geodetic/Observatories`, or one below it, is
  taken to create that directory. The filter's own refusals are not modelled.
- `get_data_info` and `get_data_lock` are not part of this model. Their results
  are inputs. The lock is only empty or non-empty, plus the refusal of a
  non-empty one. What the lock holder writes into it is left out.
- `fcntl` locking and the processes that race for the lock are
  concurrency. Only the sequential re-read after the lock is modelled, as a
  second, independent input.
- `os.makedirs` failing, and a path that exists but is not a directory, are
  left out. Creating the directory always succeeds.
- The install faults the model can choose are the connection and listing
  (`ConnectFault`), the download (`DownloadFault`) and the extraction
  (`ExtractFault`). These steps always succeed in the model:
  - `os.remove(ztarPath)`, both before the download (309) and after the
    extraction (341);
  - `open(ztarPath, 'wb')` (311);
  - `ftp.close()` (315);
  - `os.remove(readme_path)` (320);
  - opening and writing the new readme (344-345).

  So an unpack without an extraction fault always ends `Installed`. The
  states a failure at 341 or 345 would leave are not modelled: the data
  extracted, no readme, a dirty lock, and after 341 the archive still present.
- Directory.Step: an extraction adds the selected names and may put the
  Observatories table in place, but it is assumed never to write
  `geodetic/readme.txt`, `data_update.lock` or `measures.ztar`. An archive
  member at one of those paths would, in `extractall` (338), create or
  overwrite that file; the model leaves `readme`, `lockDirty` and `archive`
  unchanged. `ExtractFailureState` ("no readme, a non-empty lock"), the
  readme rule of `OrderingDiscipline` and its "every data change while the
  lock is non-empty" hold under this assumption.
- Directory.ManagedDirectory.ExtractAll: performs that same step, under the
  same assumption.
- `os.stat` ownership, `os.access` and `expanduser` become boolean fields of
  the directory.
- Logging, `verbose` and the `config` lookup for the path are omitted. The
  `UnsetMeasurespath` guard (148-154) is kept as a flag of the call.
- The readme age is a real compared with 1.0, without floating point
  rounding. The date is an opaque string, not `strftime`.
- Exception messages in `measures_update` are not modelled. Only the exception
  kinds are. The two messages of `measures_available` are modelled as
  written.
- `UpdateProperties.InstalledReadmeReadsBack` assumes that the target and the
  date contain no newline. The server's names are otherwise unconstrained.
