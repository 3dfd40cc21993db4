# Models of the cluster installer's core logic

This Dafny project models the stateful core of the installer and proves what its callers rely on:

- **Repository management** (`KeyFiles`, `RepoFiles`, `RepoIndex`, `RepoCoherence`, `RepoTracking`,
  `RepoFailures`, `RepoReload`, `RepoRestart`, `RepoRuns`, `RepoAgreement`, `RepoClobbering`, `Orders`,
  `RpmRepositories`, `RpmRepoManager`). `RPMRepoManager` keeps an index from repository id to shared file objects, each of
  which mirrors a `.repo` file. `RepoIndex` states every operation as a step of a state machine over
  memory, index and disk; `RpmRepoManager` has the methods themselves, over heap objects that several
  ids share, and proves each one equal to its step. `RepoRuns` proves what whole runs keep,
  initialisation among the steps: in every run the index is sound; as long as each initialisation comes
  before anything is loaded, or finds its backup made and every configured name ending in `.repo`,
  memory agrees with the disk in all but flags and no path has two indexed objects; and as long as
  batches name only indexed ids besides, it agrees in full. What each of these conditions guards
  against is proved too.
- **Generation and backup** (`RepoGenerator`, `Backups`, `Initialise`, `FirstRun`, `DefaultNames`). Choosing mirror or upstream,
  assembling repositories, moving old files away once, writing what is missing, and the whole of
  `initializeDefaultRepositories`, which is proved idempotent, within one program run and over a
  restart. What the network answers is an oracle that may change its mind from one query to the next.
- **Text, stream and loop algorithms** (`TextEdits`, `GuardedAppends`, `Streams`).
- **The answer file** (`Decimals`, `AnswerNetworks`, `AnswerNodes`): network sections dumped and loaded
  back, node sections with their generic fallbacks and generated hostnames.
- **IPv4 and the network collection** (`Ipv4`, `NetworkCreators`).

The disk is a map from paths to key files, and a key file a map from groups to keys to texts. A value
type or a pure decision of the program is a datatype or a function here; an object that its methods
update is a class with the same fields, and each of its methods is proved against a function of the
old state.

Some properties that one would first write down are false of the code. They are kept as they are, with
the exact condition under which they hold and an input on which they fail:

- Saving repositories and loading them back restores them if and only if the target file holds no
  further group and no optional key that a repository lacks (`RoundTrip`, `StaleKeyComesBack`): an
  absent optional value erases nothing.
- A batch call that meets an unknown id leaves memory ahead of the disk if and only if an id before
  the unknown one had the other flag (`FailedBatch`, `FailedBatchRunsAhead`); the next call that saves
  the file puts those flags on disk (`FailedBatchIsSavedLater`).
- A successful initialisation leaves a manager whose index, memory and disk agreed in agreement if and
  only if no loaded file has gained an id that neither an indexed nor an earlier file holds, and each
  loaded file, as backup and generation leave it, reads as before, or is saved by the batch and has no
  further group and no stale key (`InitialiseKeepsGoodIff`). A file that is moved to the backup and has an
  enabled repository, or that nothing configures, never reads as before (`EnabledNeverSurvives`,
  `BackupUnderLoadedFile`).
- Loading a file makes a second object for one path if and only if the path is loaded and its file has
  an id that is not indexed (`SecondObjectIff`, `OneObjectPerPathIff`); there is a run in which the
  second object undoes on disk what was enabled through the first (`ClobberingRun`, `SceneExists`).
- An initialisation succeeds if and only if the directories can be opened, every file parses and every
  name to enable is indexed or lies in some file (`InitialiseSucceedsIff`). An install that fails over
  a malformed file leaves that file behind, and no load of the directory that meets it succeeds
  (`MalformedFileStays`, `FailedInstallBlocksInitialise`).
- With the configuration that comes with the program, a first initialisation whose files parse succeeds
  if and only if the distribution is Rocky Linux (`ShippedFirstRunIff`): the ids of the others keep
  their placeholders, while the names to enable have them filled in.
- The list after the menu shows exactly the selection enabled if and only if for each id the file it
  is shown from is the one it is indexed to, or holds the right flag by chance
  (`NextListShowsTheSelectionIff`).
- Moving files loses some if and only if a file has the extension in another letter case
  (`MoveConservesIff`, `CapitalsAreLost`).
- A second run of the generator writes again exactly the configured names whose extension is not
  `.repo` (`GenerateAgain`, `GenerateAgainWrites`, `UnrecognisedIsDisabledAgain`).
- The order in which a directory is listed decides nothing if and only if no id lies in two files
  (`ListingOrderIsImmaterialIff`).
- A guarded append can be repeated if and only if its line holds its key (`GuardedAppendTwiceIff`); the
  two autofs map lines can if and only if the host is named after the key
  (`MapLinesAreAddedAgainIff`).
- A dumped network comes back if and only if the section held no stale key and the name servers are
  listable (`NetworkRoundTripIff`, `StaleGatewayComesBack`).
- `findAndReplace` never ends if and only if the pattern is empty (`LoopsForeverIff`).
- The upstream key is asked for twice, so that the key is checked without there being one, or the
  other way about, when the two answers differ (`KeyIsCheckedIff`, `KeyIsNotChecked`).

Where the code and its documentation disagree, the code is followed. Comments say that repository ids have
no placeholders (`src/services/repos.cpp:707`); those of three distributions do
(`repos/rhel.conf:1`, `repos/oracle.conf:1`, `repos/alma.conf:1`). The sample answer files
(`test/sample/answerfile/correct.answerfile.ini:56-58`) say that the generic `[node]` section may be
commented out; `loadNodes` reads it first and fails without its `prefix` and `padding`
(`src/models/answerfile.cpp:435-437`). The comment in `loadNodes` says that nodes start at 0
(`src/models/answerfile.cpp:482`); a section numbered 0 is skipped (`src/models/answerfile.cpp:499`).

`dafny verify dfyconfig.toml` checks the whole project.

## Model

| member | source | states |
|---|---|---|
| KeyFiles.OverlayAbsorbs | src/services/files.cpp:120-144 | a write is lost under a later one to the same keys, whatever else the file holds |
| KeyFiles.OverlayCongruent | src/services/files.cpp:120-144 | contents that a write makes equal are still made equal by it after any further write in between |
| KeyFiles.OverlayIdentity | src/services/files.cpp:120-157 | writing back what is there changes nothing |
| KeyFiles.BooleanRoundTrip | src/services/files.cpp:108-155 | a boolean is read back as it was written |
| KeyFiles.KeyFile.constructor | src/services/files.cpp:29-36 | a key file starts as its file's content, and a missing file reads as an empty one |
| KeyFiles.KeyFile.SetString | src/services/files.cpp:120-130 | sets one key of one group, makes the group when missing, keeps everything else |
| KeyFiles.KeyFile.SetStringOpt | src/services/files.cpp:132-144 | without a value nothing is written, and so nothing erased |
| KeyFiles.KeyFile.SetBoolean | src/services/files.cpp:146-155 | writes "true" or "false" under the key, keeps everything else |
| KeyFiles.KeyFile.Save | src/services/files.cpp:157-157 | the file becomes the content in memory, no other file changes |
| RepoFiles.ParseIsWellKeyed | src/services/repos.cpp:180-213 | parsing gives one repository per group, under the group's name, with that file as its source |
| RepoFiles.ParseIff | src/services/repos.cpp:180-213 | a file parses if and only if each group has a name that is not empty and says "true", "1", "false" or "0" under enabled and under gpgcheck |
| RepoFiles.ParsedTexts | src/services/repos.cpp:186-211 | then each field of a repository is the text under its own key, and a flag is true if and only if that text is "true" or "1" |
| RepoFiles.SavedTexts | src/services/repos.cpp:220-227 | after a save each field of a repository is the text under its own key; an optional one without a value leaves what was there |
| RepoFiles.RoundTrip | src/services/repos.cpp:180-230 | saving into any target and loading gives the repositories back if and only if the target holds no further group and no stale optional key, and every name is non-empty |
| RepoFiles.NewFileRoundTrip | src/services/repos.cpp:180-230 | into a new file, if and only if every repository has a name |
| RepoFiles.UnparseLeavesTheRest | src/services/repos.cpp:215-230 | for any target, groups that are not saved and keys other than the six survive unchanged |
| RepoFiles.StaleKeyComesBack | src/services/repos.cpp:224-226 | a key left in the file comes back as the key of a repository that had none |
| RepoFiles.SaveFlags | src/services/repos.cpp:180-230 | saving a loaded file of which only flags changed puts exactly the repositories in memory on disk |
| RpmRepositories.ParseFile | src/services/repos.cpp:180-213 | the loop over the groups yields the whole parse, or none as soon as a group is bad |
| RpmRepositories.WriteRepo | src/services/repos.cpp:220-227 | six writes put exactly the repository's entries into its group |
| RpmRepositories.WriteAll | src/services/repos.cpp:220-227 | every repository written into its group, in the order of the ids, whatever the groups are |
| RpmRepositories.UnparsedIsOverlay | src/services/repos.cpp:215-230 | where each repository's group is its id, that is all repositories laid over what the file holds |
| RpmRepositories.PutAllIsOverlay | src/services/repos.cpp:220-227 | and then any order gives the same |
| RpmRepositories.LastOfGroupWins | src/services/repos.cpp:220-227 | where repositories share a group, the file holds the entries of the one written last |
| RpmRepositories.UnparseFile | src/services/repos.cpp:215-230 | the file at the path becomes its old content with the repositories written over it, no other file changes |
| RpmRepositories.RPMRepositoryFile.SetEnabled | src/services/repos.cpp:992-996 | changes the flag of one repository of the file object, for every id that shares the object |
| RpmRepositories.RPMRepositoryFile.Save | src/services/repos.cpp:262-266 | writes all of the file object's repositories to its path |
| RpmRepositories.OpenFile | src/services/repos.cpp:243-247 | a new file object holds the parsed repositories, or nothing is made when the file is bad |
| RepoIndex.RepoNames | src/services/repos.cpp:914-920 | of the entries of a directory exactly those ending in ".repo" are loaded |
| RepoIndex.InstalledIs | src/services/repos.cpp:885-909 | an install succeeds if and only if the file is there and parses; it copies the file unless there is one, changes no other, and loads what is then in the base directory |
| RepoIndex.SetFlagsKeepsFiles | src/services/repos.cpp:1007-1017 | the batch loop changes nothing but flags, and gets through if and only if every id is known |
| RepoIndex.SetFlagsEffect | src/services/repos.cpp:1007-1017 | after a batch a flag is the new value if its id was named and is indexed to that very object, and unchanged otherwise |
| RepoIndex.LastTouchIsSaveOrder | src/services/repos.cpp:1001-1020 | the order of last touches holds each touched file once |
| RepoIndex.DropEarlierSaves | src/services/repos.cpp:262-266 | before a last save of a file object every earlier save of it can be left out |
| RepoIndex.BatchIsFoldOfSingles | src/services/repos.cpp:979-1021 | for any aliasing, a batch of known ids that saves each touched file once ends with the memory, index and disk of the single calls made one after the other |
| RepoCoherence.InstallKeepsGood | src/services/repos.cpp:885-909 | installing keeps the index, memory and disk in agreement, also when it throws half-way and when the path is loaded already |
| RepoCoherence.LoadDirKeepsGood | src/services/repos.cpp:912-934 | so does loading a directory, up to where it throws |
| RepoCoherence.EnableOneKeepsGood | src/services/repos.cpp:979-989 | so does enabling or disabling one repository, known or not |
| RepoCoherence.EnableEachKeepsGood | src/services/repos.cpp:979-989 | so does any sequence of such calls |
| RepoCoherence.SaveAllHits | src/services/repos.cpp:1018-1020 | each touched file is saved once, over what the disk held before the call |
| RepoCoherence.SaveAllMisses | src/services/repos.cpp:1018-1020 | no other file changes |
| RepoCoherence.SaveOrderIsImmaterial | src/services/repos.cpp:1001-1020 | the order in which the hash set is walked does not matter when paths are apart |
| RepoCoherence.BatchIsSinglesInAnyOrder | src/services/repos.cpp:979-1021 | in a good state a batch of indexed ids succeeds and equals the single calls, in whatever order it saves |
| RepoTracking.GoodIff | src/services/repos.cpp:885-1021 | a state that agrees with the disk but for flags agrees in full if and only if each flag in memory is the one on disk |
| RepoTracking.InstallKeepsTracked | src/services/repos.cpp:885-909 | installing keeps agreement but for flags |
| RepoTracking.LoadDirKeepsTracked | src/services/repos.cpp:912-934 | so does loading a directory |
| RepoTracking.EnableOneKeepsTracked | src/services/repos.cpp:979-989 | so does a single call, and the file it saves is then on disk as it is in memory, flags changed earlier included |
| RepoTracking.EnableManyKeepsTracked | src/services/repos.cpp:999-1021 | so does a batch, failed or not; one that succeeds leaves all its files on disk as they are in memory |
| RepoFailures.FailedBatch | src/services/repos.cpp:1007-1017 | an unknown id leaves the disk and the index untouched, and memory ahead of the disk if and only if an id before it had the other flag |
| RepoFailures.FailedBatchRunsAhead | src/services/repos.cpp:1007-1017 | one repository in one file and an unknown id are enough |
| RepoFailures.FailedBatchIsSavedLater | src/services/repos.cpp:979-1017 | the next call for any id of that file puts the flag of the failed batch on disk |
| RepoFailures.SecondObjectIff | src/services/repos.cpp:902-908 | loading a file leaves two indexed objects for one path if and only if the path is loaded and its file has gained an id that is not indexed |
| RepoFailures.SecondObjectClobbers | src/services/repos.cpp:902-908 | of two objects for one path the second, saved later, puts a stale flag back on disk |
| RepoFailures.MalformedFileStays | src/services/repos.cpp:885-909 | an install that fails over a malformed file leaves it in the base directory, and every later load of the directory that comes across it fails |
| RepoReload.LoadBaseDir | src/services/repos.cpp:905-936 | first come, first kept: loading the base directory again moves no id, writes nothing and adds exactly the ids that the files hold |
| RepoReload.IndexUnchangedIff | src/services/repos.cpp:905-936 | the index stays as it is if and only if no file holds an id not indexed yet |
| RepoReload.BatchKeepsGood | src/services/repos.cpp:999-1021 | a batch of indexed ids succeeds and keeps agreement |
| RepoReload.BatchFlags | src/services/repos.cpp:999-1021 | it changes the named flags of the indexed files and no other |
| RepoReload.ReloadKeepsFlags | src/services/repos.cpp:1526-1563 | loading and enabling again keeps the index, enables the default names and keeps every other flag |
| RepoReload.ReloadAfterBatchWritesNothing | src/services/repos.cpp:1551-1556 | once the default names are enabled and saved, doing it again leaves the disk as it is, whatever the save order |
| RepoReload.SecondReloadWritesNothing | src/services/repos.cpp:1551-1556 | a second reload writes nothing and changes no flag |
| RepoReload.ListedIds | src/services/repos.cpp:1026-1042 | the manager's list has each indexed id once, and no other, and shows it as some indexed file has it |
| RepoReload.ListingIds | src/services/repos.cpp:1026-1042 | the list has each indexed id exactly once, and no other |
| RepoReload.ListingIsIndexed | src/services/repos.cpp:1026-1042 | with ids unique across files the listed copy is the one the index leads to |
| RepoReload.ListingShowsFirstCopy | src/services/repos.cpp:1026-1042 | without uniqueness the first file of the walk that holds an id wins, indexed or not |
| RepoReload.ToDisable | src/presenter/PresenterRepository.cpp:35-44 | exactly the listed ids that were not selected are disabled |
| RepoReload.MenuEnablesTheSelection | src/presenter/PresenterRepository.cpp:20-48 | after disabling and enabling, the enabled ones among the indexed ids are exactly the selected ones |
| RepoReload.MenuFlags | src/presenter/PresenterRepository.cpp:46-47 | the menu sets the flag of an id in the file it is indexed to and in no other |
| RepoReload.NextListShowsTheSelection | src/presenter/PresenterRepository.cpp:20-48 | with ids unique across files the next list shows exactly the selection enabled |
| RepoReload.NextListShowsTheSelectionIff | src/presenter/PresenterRepository.cpp:20-48 | without uniqueness it does if and only if each id's first holder is the file it is indexed to, or has the right flag already |
| RepoRestart.FreshObjects | src/services/repos.cpp:902-934 | a fresh manager holds one object per file, with what parsing the file gives |
| RepoRestart.SameIdsSameIndex | src/services/repos.cpp:905-934 | the index depends on nothing but the ids the files hold and the listing order |
| RepoRestart.ListingOrderIsImmaterialIff | src/services/repos.cpp:905-934 | every other listing order leads all ids to the same files if and only if no id lies in two files |
| RepoRestart.UntouchedObject | src/services/repos.cpp:1007-1017 | a batch leaves an object alone to which none of its ids is indexed |
| RepoRestart.ReadsBack | src/services/repos.cpp:999-1021 | after a batch each loaded file reads back as its object in memory, touched or not |
| RepoRestart.RestartFindsTheState | src/services/repos.cpp:902-1021 | loading the disk that a batch left gives back objects, index and flags exactly as the batch left them |
| RepoRestart.RestartedBatchWritesNothing | src/services/repos.cpp:1551-1556 | enabling the same names again after that changes neither memory nor disk |
| RepoRestart.RestartInAnyOrder | src/services/repos.cpp:1551-1556 | nor does it when the directory is listed in another order and no id lies in two files |
| RpmRepoManager.RPMRepoManager.Install | src/services/repos.cpp:885-909 | the method on shared objects takes the step of the state machine: copy unless present, load, index |
| RpmRepoManager.RPMRepoManager.LoadDir | src/services/repos.cpp:912-934 | the entries are those of the directory, once each in some order; its ".repo" files are installed one by one, up to the first that throws; a missing directory throws at once |
| Orders.AscendingEnumerates | src/services/repos.cpp:1033-1034 | the keys of a map come once each, in ascending order |
| Orders.PrecedesIff | src/services/repos.cpp:1033-1034 | one id comes before another if and only if at the first difference it has ended or has the lesser character |
| Orders.ListDir | src/services/repos.cpp:914-920 | a directory yields each of its entries once |
| RpmRepoManager.RPMRepoManager.AddFile | src/services/repos.cpp:905-908 | `emplace` of every id: an id that is indexed keeps the file object it has |
| RpmRepoManager.RPMRepoManager.SetOne | src/services/repos.cpp:992-996 | one flag changes in memory, in the object all its ids share, and nothing else |
| RpmRepoManager.RPMRepoManager.EnableOne | src/services/repos.cpp:979-989 | one flag changes and its file is saved; an unknown id changes nothing |
| RpmRepoManager.RPMRepoManager.SetMany | src/services/repos.cpp:1004-1017 | the loop changes the flags in memory up to the first unknown id and collects exactly the touched objects |
| RpmRepoManager.RPMRepoManager.SaveFiles | src/services/repos.cpp:1018-1020 | each collected object is saved exactly once, in whatever order |
| RpmRepoManager.RPMRepoManager.EnableMany | src/services/repos.cpp:999-1021 | the whole batch call takes the batch step of the state machine |
| RpmRepoManager.RPMRepoManager.Repositories | src/services/repos.cpp:1026-1042 | the two loops and the set that compares ids give the first copy of each id, walking the index in the order of the ids |
| RpmRepoManager.Unselected | src/presenter/PresenterRepository.cpp:35-44 | the filter yields the listed ids that are not selected, in list order |
| RpmRepoManager.ApplyMenu | src/presenter/PresenterRepository.cpp:46-47 | disable, then enable, as one step of the state machine |
| RepoGenerator.StripSlashes | src/services/repos.cpp:433-436 | a URL loses its trailing slashes and nothing else |
| RepoGenerator.ChosenSide | src/services/repos.cpp:478-563 | of all answers only the one about the mirror decides the URL, and none does when mirrors are off; if it comes to the mirror, it decides the whole repository |
| RepoGenerator.UrlsDependOnTheMirrors | src/services/repos.cpp:1050-1074 | so the same answers about the mirrors give a file the same ids and URLs, whatever the upstreams answer |
| RepoGenerator.GeneratedSide | src/services/repos.cpp:352-563 | URL and key of every generated repository are the mirror's if mirrors are on, its first configuration has a path there and that path answers, and the upstream's in every other case |
| RepoGenerator.GeneratedTexts | src/services/repos.cpp:1301-1335 | and so are the texts of the file that is generated |
| RepoGenerator.KeyIsCheckedIff | src/services/repos.cpp:478-563 | base URL and key come from one side; the key is checked exactly when there is one, if and only if mirror was chosen, there is no key URL, or both queries for it are answered alike |
| RepoGenerator.KeyIsNotChecked | src/services/repos.cpp:551-553 | an upstream key that is there at the first query and gone at the second is kept and not checked |
| RepoGenerator.AssembledIsFaithful | src/services/repos.cpp:535-563 | an assembled repository is disabled, named as configured, one-sided, and under stable answers checks its key if and only if it has one |
| RepoGenerator.RepoConfFile.Insert | src/services/repos.cpp:621-627 | appends to the configurations of one file, keeps those of every other |
| RepoGenerator.FromConfigsIds | src/services/repos.cpp:1063-1074 | a generated file has exactly the configured ids |
| RepoGenerator.FromConfigsHolds | src/services/repos.cpp:1063-1074 | an id configured twice has the repository of its first configuration |
| RepoGenerator.GeneratedRepo | src/services/repos.cpp:1050-1074 | every generated repository is faithful to the first configuration of its id |
| RepoGenerator.GeneratedIsWellKeyed | src/services/repos.cpp:540-542 | generated repositories lie under their ids and groups |
| RepoGenerator.GenerateLeavesTheRest | src/services/repos.cpp:1301-1335 | exactly the configured names not present are written; no existing ".repo" file and no other file changes |
| RepoGenerator.GeneratedContent | src/services/repos.cpp:1301-1335 | a new file holds the repositories of its configurations and nothing else |
| RepoGenerator.GeneratedFileReadsBack | src/services/repos.cpp:1301-1335 | it reads back as them if and only if all have names |
| RepoGenerator.GenerateAgain | src/services/repos.cpp:1301-1335 | with every configured file on disk a run counts exactly the names whose extension is not ".repo", whatever the answers, and with none of those changes nothing |
| RepoGenerator.GenerateAgainWrites | src/services/repos.cpp:1301-1335 | and exactly which content every file has after it |
| RepoGenerator.UnrecognisedIsDisabledAgain | src/services/repos.cpp:1304-1335 | a configured name without ".repo" is generated once more, and its repository disabled again |
| RepoGenerator.CountIsFilesWritten | src/services/repos.cpp:1320-1334 | the count is the number of files written, plus one for each missing name that both sets configure |
| RepoGenerator.BuildRepos | src/services/repos.cpp:1063-1074 | the loop builds one repository per id |
| RepoGenerator.GetFilesByExtension | include/cloysterhpc/functions.h:191-206 | exactly the files of the directory with the extension, letter case included |
| RepoGenerator.ExtensionIs | include/cloysterhpc/functions.h:198-202 | a name's extension is what follows its last dot, with the dot |
| RepoGenerator.NoExtension | include/cloysterhpc/functions.h:198-202 | a name without a dot, or with none but a leading one, has no extension |
| RepoGenerator.SaveMissing | src/services/repos.cpp:1083-1093 | the loop over one set writes its missing files and counts them, in whatever order |
| RepoGenerator.GenerateFiles | src/services/repos.cpp:1301-1335 | the whole run, on the file system |
| Backups.MovedAt | include/cloysterhpc/functions.h:243-281 | where each file is after a move into an empty directory, and with what content |
| Backups.CopiedIs | include/cloysterhpc/functions.h:243-257 | a copy makes one file for each matching one, with its content, and replaces none |
| Backups.MoveConservesIff | include/cloysterhpc/functions.h:214-281 | a move loses nothing if and only if no file of the source has the extension in another letter case |
| Backups.CapitalsAreLost | include/cloysterhpc/functions.h:214-281 | a file named a.REPO is removed without having been copied |
| Backups.BackupMadeAt | src/functions.cpp:357-371 | a backup that is made, forced or not, leaves in the target exactly the matching files of the source with their contents and nothing of an old backup, and changes no file outside the two directories |
| Backups.BackupConservesIff | src/functions.cpp:357-371 | it loses nothing if and only if no file of the source has the extension in another letter case |
| Backups.FirstBackup | src/functions.cpp:357-371 | and then it moves exactly the matching files and keeps every content |
| Backups.BackupWithoutSource | src/functions.cpp:357-371 | without a source directory an empty backup directory is left, and a forced call has lost the old backup |
| Backups.LaterBackup | src/functions.cpp:367-373 | with a backup there, an unforced run touches nothing |
| Backups.CopyFilesWithExtension | include/cloysterhpc/functions.h:243-257 | the loop copies the files of exactly this extension, and replaces no file |
| Backups.RemoveFilesWithExtension | include/cloysterhpc/functions.h:214-232 | the loop removes the files of this extension in any letter case |
| Backups.BackupFilesByExtension | src/functions.cpp:357-374 | the whole call on the file system, forced or not, and where it throws |
| Initialise.PrepareLeaves | src/services/repos.cpp:1507-1524 | after a first run every configured file is there and so is the backup directory |
| Initialise.PrepareAgain | src/services/repos.cpp:1507-1524 | a second unforced run changes no file in either directory even if mirror and upstream answer differently |
| Initialise.FurtherRuns | src/services/repos.cpp:1507-1524 | over any number of further runs the backup stays what the first run saved, and no file disappears |
| Initialise.FreshLoad | src/services/repos.cpp:1551-1556 | loading into a fresh manager and enabling the default names leaves nothing new for a later load |
| Initialise.InitialiseSucceedsIff | src/services/repos.cpp:1526-1563 | from any state a run can reach, a call succeeds if and only if the directories can be opened, every file parses, and every name to enable is indexed or the id of a repository in some file |
| Initialise.InitialiseKeepsFlags | src/services/repos.cpp:1526-1563 | a later call with nothing new on disk keeps directories and index, and every flag but those of the default names, which it sets |
| Initialise.InitialiseTwice | src/services/repos.cpp:1526-1563 | initialising twice is initialising once: same disk, directories, index and flags, from any disk, for any later answers and any later listing order |
| Initialise.InitialiseTwiceAsListed | src/services/repos.cpp:1526-1563 | the same on real listings of the directory, each in its own order |
| Initialise.InitialiseAfterRestart | src/services/repos.cpp:1526-1563 | a fresh manager that initialises from the disk the first run left ends in the very same state and changes nothing on disk |
| Initialise.RestartAsListed | src/services/repos.cpp:1526-1563 | listing the directory in another order, it leads each id to the same file with the same repositories and flags, when no id lies in two files |
| Initialise.InitialiseKeepsListing | src/services/repos.cpp:1551-1556 | loading and enabling make and remove no file |
| Initialise.PrepareFiles | src/services/repos.cpp:1508-1523 | backup, then generation, on the file system |
| Initialise.ReloadAll | src/services/repos.cpp:1551-1556 | list and load the base directory, then enable the default names, on manager and file system |
| Initialise.InitializeDefaultRepositories | src/services/repos.cpp:1526-1563 | the whole call on manager and file system, listing what generation left and enabling the names of the distribution, takes the step that `InitialiseTwice` is about |
| DefaultNames.ResolveReposNames | src/services/repos.cpp:1134-1180 | the names of the distribution with its version put in, then the shared ones |
| DefaultNames.NamesOnNine | src/services/repos.cpp:1190-1292 | for version 9 of each distribution, exactly the names that the program's own tests expect |
| DefaultNames.NamesAreShippedIff | src/services/repos.cpp:707-708 | all of them are ids of the configuration that comes with the program if and only if the distribution is Rocky Linux |
| FirstRun.FirstFiles | src/services/repos.cpp:1507-1524 | a first backup and generation leave the configured files as generated, and of the ".repo" files before them none but one named just ".repo" |
| FirstRun.GeneratedIds | src/services/repos.cpp:1063-1094 | a generated file has exactly the ids that either set configures for it |
| FirstRun.FirstRunSucceedsIff | src/services/repos.cpp:1526-1563 | a call that makes the backup succeeds if and only if the files it finds then parse and every name to enable is configured |
| FirstRun.ShippedFirstRunIff | src/services/repos.cpp:1526-1563 | with the configuration that comes with the program, if and only if the distribution is Rocky Linux |
| RepoRuns.EveryReachableStateIsSound | src/services/repos.cpp:876-1563 | in every run, whatever is called and fails, every indexed id is held by its file object and every id of an indexed file is indexed |
| RepoRuns.EveryQuietRunIsTracked | src/services/repos.cpp:876-1563 | as long as each initialisation comes before anything is loaded, or is unforced, finds its backup made and has every configured name end in .repo, and however many batches fail: no path has two indexed objects, and each indexed file parses to what is in memory but for flags |
| RepoRuns.FailedInstallBlocksInitialise | src/services/repos.cpp:885-1563 | after an install that failed over a malformed file no unforced initialisation that finds its backup succeeds |
| RepoRuns.EveryReachableStateIsGood | src/services/repos.cpp:876-1563 | as long as batches name only indexed ids besides: each indexed file parses to exactly what is in memory |
| RepoAgreement.OneObjectPerPathIff | src/services/repos.cpp:902-934 | loading a directory leaves one indexed object per path if and only if no loaded file of it has gained an id that neither an indexed nor an earlier file holds |
| RepoAgreement.AfterBatchOnDisk | src/services/repos.cpp:999-1021 | after a batch a saved object is on disk if and only if its file can hold it and no more, any other if and only if it was |
| RepoAgreement.ReloadKeepsGoodIff | src/services/repos.cpp:1551-1556 | the exact condition, for any disk found, for loading the directory and enabling names to end in agreement |
| RepoAgreement.InitialiseKeepsGoodIff | src/services/repos.cpp:1526-1563 | the exact condition for a successful initialisation to keep index, memory and disk in agreement, backup forced, made or found, and whatever is configured |
| RepoAgreement.PrepareKeepsAgreementIff | src/services/repos.cpp:1507-1524 | the same half-way, before anything is loaded and saved |
| RepoAgreement.EnabledNeverSurvives | src/services/repos.cpp:1507-1524 | a moved file with an enabled repository never reads as before, whatever is configured and answered |
| RepoAgreement.SurvivesConfiguredIff | src/services/repos.cpp:1507-1524 | a moved file that one set configures reads as before if and only if it was loaded as configuration and answers make it now |
| RepoAgreement.BackupUnderLoadedFile | src/services/repos.cpp:1526-1563 | a moved file that the batch does not save spoils the state if it has an enabled repository or nothing configures it |
| RepoClobbering.ClobberingRun | src/services/repos.cpp:885-1563 | load, initialise with a first backup, enable two repositories of the file one after the other: the first is disabled on disk |
| RepoClobbering.OnlyNotQuiet | src/services/repos.cpp:1507-1563 | that run fails the conditions above in nothing but its initialisation |
| RepoClobbering.SceneExists | src/services/repos.cpp:1507-1563 | and there is one |
| TextEdits.CutJoins | src/functions.cpp:258-270 | the pieces between the occurrences, joined with the pattern, are the source |
| TextEdits.CutIsCut | src/functions.cpp:258-270 | each piece ends at the leftmost occurrence after its start, and the last holds none |
| TextEdits.OnlyOneCut | src/functions.cpp:258-270 | there is only one such way to cut a text |
| TextEdits.ReplacedLength | src/functions.cpp:258-270 | the length changes by the difference of the two lengths for each occurrence |
| TextEdits.FindAndReplace | src/functions.cpp:258-270 | the loop on the text in place ends, with the cut text joined with the replacement |
| TextEdits.LoopsForeverIff | src/functions.cpp:264-267 | the loop runs for ever if and only if the pattern is empty |
| GuardedAppends.Files.AddStringToFile | src/functions.cpp:226-256 | afterwards the file holds the text; one that held it is unchanged |
| GuardedAppends.AddAppends | src/functions.cpp:226-256 | the text is put after what the file held, and only if the file did not hold it; no other file changes |
| GuardedAppends.AddAllTwice | src/functions.cpp:226-256 | any sequence of additions to any files, made twice, is made once |
| GuardedAppends.ExecuteAppends | include/cloysterhpc/services/scriptbuilder.h:29-38 | a guarded append puts its line and a newline after what the file held, and only if the key was not in it |
| GuardedAppends.ScriptTwice | include/cloysterhpc/services/scriptbuilder.h:29-38 | a script whose guarded lines hold their keys, run twice, is run once |
| GuardedAppends.GuardedAppendTwiceIff | include/cloysterhpc/services/scriptbuilder.h:29-38 | one guarded append is idempotent on all states if and only if its line holds its key |
| GuardedAppends.ScriptBuilder.AddCommand | include/cloysterhpc/services/scriptbuilder.h:22-27 | appends one command to the commands |
| GuardedAppends.ScriptBuilder.AddLineToFile | include/cloysterhpc/services/scriptbuilder.h:29-38 | appends one guarded append to the commands |
| GuardedAppends.AddExports | src/NFS.cpp:55-70 | the chain of calls appends the four guarded exports, in order |
| GuardedAppends.ExportsTwice | src/NFS.cpp:55-70 | the exports block run twice is run once and leaves every export in place |
| GuardedAppends.HomeMapAnswersIff | src/NFS.cpp:112-114 | with the host's name in it, the home map line holds its key if and only if the host's name does |
| GuardedAppends.OhpcMapAnswersIff | src/NFS.cpp:116-117 | and so does the ohpc map line |
| GuardedAppends.MapLinesAreAddedAgainIff | src/NFS.cpp:112-117 | so each is added again by some further run if and only if the host is not named after the key |
| Streams.CommandProxy.ReadUntil | src/services/runner.cpp:110-128 | a good stream always answers, an invalid proxy never; the flag cleared inside is set again |
| Streams.CommandProxy.ReadLine | src/services/runner.cpp:90-108 | the same, up to a newline |
| Streams.CallsLoseNothing | src/services/runner.cpp:16-25 | whatever delimiters the calls use, the answers and what is left make up the content |
| Streams.EndedForGood | src/services/runner.cpp:90-128 | after the first call without an answer all later ones have none |
| Streams.SplitJoins | src/services/runner.cpp:110-128 | the pieces hold no delimiter, and joined with it are the content |
| Streams.CallsSplit | src/services/runner.cpp:110-128 | repeated calls answer the pieces of the content in order, then nothing |
| Streams.RunCommand | src/services/runner.cpp:66-69 | the lines are the pieces at newlines, minus one empty last piece if there is one |
| Streams.FoldAppend | src/services/files.cpp:182-195 | hashing two stretches in turn is hashing both at once |
| Streams.FoldSteps | src/services/files.cpp:182-195 | one byte more is one step of the hash more |
| Streams.Checksum | src/services/files.cpp:170-198 | hashing chunk by chunk is hashing the contents at once, for every chunk size |
| Decimals.ValueOfDec | src/models/answerfile.cpp:492-495 | a number is read back from its digits |
| Decimals.PaddedIs | src/models/answerfile.cpp:524-526 | a zero-padded number is its digits with zeros before them up to the width, and never cut |
| Decimals.PaddedInjective | src/models/answerfile.cpp:524-526 | zero-padded numbers of any widths are equal only for equal numbers |
| Ipv4.DottedInjective | src/network.cpp:138-145 | different addresses have different texts |
| Ipv4.TableRow | include/cloysterhpc/network.h:46-63 | the table's row for a prefix is the dotted mask of that many ones |
| Ipv4.TableInverts | include/cloysterhpc/network.h:46-63 | the table has exactly the texts of the 33 contiguous masks and gives each its prefix |
| Ipv4.AndMask | src/network.cpp:217-218 | anding with ones above zeros clears the bits under the zeros |
| Ipv4.NetworkOf | src/network.cpp:203-219 | the network address under prefix n is a - a mod 2^(32-n) (section 3.1 of RFC 4632) |
| Ipv4.SameNetworkIff | src/network.cpp:203-219 | taking it twice changes nothing; two addresses share a network if and only if they agree on the first n bits |
| Ipv4.Network.SetAddress | src/network.cpp:93-101 | refuses exactly the unspecified address |
| Ipv4.Network.SetSubnetMask | src/network.cpp:138-145 | accepts exactly the 33 contiguous masks, and keeps the mask in the table |
| Ipv4.Network.PrefixLength | src/services/shell.cpp:263-264 | the lookup of the mask never throws, the default mask included, and gives its prefix |
| Ipv4.Network.CalculateAddress | src/network.cpp:203-219 | the address under the mask, or a refusal exactly for the unspecified mask |
| AnswerNetworks.TokensAreListable | src/models/answerfile.cpp:351-352 | splitting yields tokens free of delimiters, empty at most at either end |
| AnswerNetworks.TokensKeepText | src/models/answerfile.cpp:351-352 | whatever the text, the tokens one after the other are the text without its commas and blanks |
| AnswerNetworks.TokensOfRuns | src/models/answerfile.cpp:351-352 | names joined by any runs of commas and blanks split into these names |
| AnswerNetworks.ListRoundTripIff | src/models/answerfile.cpp:89-90 | joining name servers with ", " and splitting gives them back if and only if they are such tokens |
| AnswerNetworks.AddressReadsBack | src/models/answerfile.cpp:252-260 | every IPv4 address is read back from its text |
| AnswerNetworks.ReadAddressIff | src/models/answerfile.cpp:252-260 | a text is read as an address if and only if it is that address in dotted form |
| AnswerNetworks.LoadSectionTexts | src/models/answerfile.cpp:315-356 | a section loads if and only if it has an interface and every address in it is one; then each field is the text under its own key |
| AnswerNetworks.DumpedTexts | src/models/answerfile.cpp:55-92 | after a dump each field with a value is the text under its own key |
| AnswerNetworks.NetworkRoundTripIff | src/models/answerfile.cpp:55-92 | dumping and loading gives the normal form back if and only if the section held no stale key and the name servers are listable |
| AnswerNetworks.StaleGatewayComesBack | src/models/answerfile.cpp:83-86 | a gateway left in the section becomes the gateway of a network without one |
| AnswerNetworks.AnswerFile.DumpNetwork | src/models/answerfile.cpp:55-92 | the writes leave exactly the present values over what the section held |
| AnswerNetworks.AssignedIsLoaded | src/models/answerfile.cpp:334-356 | a load that succeeds gives the loaded network; one that fails has assigned the fields before the address at fault and none after |
| AnswerNetworks.AnswerFile.LoadNetwork | src/models/answerfile.cpp:334-356 | the assignments give the loaded network, or what was assigned before the first error, and that error |
| AnswerNetworks.AnswerFile.DumpExternalNetwork | src/models/answerfile.cpp:94-97 | dumps the external network to its section |
| AnswerNetworks.AnswerFile.LoadExternalNetwork | src/models/answerfile.cpp:358-361 | loads the external network over what it was, as far as it gets |
| AnswerNetworks.AnswerFile.LoadApplicationNetwork | src/models/answerfile.cpp:376-382 | without its section the application network stays as it was |
| AnswerNodes.AttributeTurn | src/models/answerfile.cpp:279-313 | one attribute keeps its own value or takes the generic one, fails if and only if both are empty, and changes no other |
| AnswerNodes.ValidateIff | src/models/answerfile.cpp:542-565 | a node is valid if and only if no attribute is empty on both sides; then each is its own or the generic one, name and MAC address unchanged; otherwise the first missing attribute is reported |
| AnswerNodes.ValidateTwice | src/models/answerfile.cpp:542-565 | a validated node is unchanged by any later validation |
| AnswerNodes.NodeNumberOfPadded | src/models/answerfile.cpp:492-503 | a section "node." and a number in any zero-padded form has that number, if it is above zero and fits |
| AnswerNodes.NodeNumberIff | src/models/answerfile.cpp:488-503 | a section is that of a node if and only if its name is "node." and a number above zero |
| AnswerNodes.CastIff | src/models/answerfile.cpp:492-503 | a text is a number if and only if it is digits of one below 2^64 with at most a sign before them |
| AnswerNodes.CastSigned | src/models/answerfile.cpp:492-495 | a plus changes nothing, a minus counts back from 2^64 |
| AnswerNodes.StoiReads | src/models/answerfile.cpp:524-526 | the padding is read as the number its digits make, whatever blanks stand before them and whatever text after |
| AnswerNodes.StoiReadsNegative | src/models/answerfile.cpp:524-526 | and so is a negative one |
| AnswerNodes.GenericTexts | src/models/answerfile.cpp:435-437 | the generic prefix and padding are the texts under these keys of the generic section |
| AnswerNodes.GeneratedNamesIff | src/models/answerfile.cpp:511-528 | generated names are equal if and only if the numbers are, for any padding width |
| AnswerNodes.BuildNodeIff | src/models/answerfile.cpp:505-536 | a numbered section makes a node if and only if it has a MAC address, a readable address if any, a name or the means to generate one, and no attribute empty here and in the generic section |
| AnswerNodes.BuiltNode | src/models/answerfile.cpp:430-469 | such a node is complete, with its own attributes where the section gives them and generic ones elsewhere, and its own name or the generated one |
| AnswerNodes.LoadedNodes | src/models/answerfile.cpp:505-539 | loading yields one node per numbered section in file order, up to the first that cannot be built, whose error it reports |
| AnswerNodes.LoadedNodeTexts | src/models/answerfile.cpp:430-565 | every node of a whole load has the MAC address of its section, its own name or else the generic prefix with its number's digits filled up with zeros to the generic width, and each attribute under its own key in its section or else in the generic one |
| AnswerNodes.LoadedNamesIff | src/models/answerfile.cpp:505-539 | over a whole load, nodes without a name of their own have equal names if and only if their sections have equal numbers |
| AnswerNodes.TwoSectionsOneNumber | src/models/answerfile.cpp:492-495 | different section names can have one number, and then one generated name |
| AnswerNodes.AnswerFile.ValidateNode | src/models/answerfile.cpp:542-565 | the ten steps give the validated node or the first missing attribute |
| AnswerNodes.AnswerFile.AddNode | src/models/answerfile.cpp:507-538 | one turn appends the built node, or reports its error and appends nothing |
| AnswerNodes.AnswerFile.LoadNodes | src/models/answerfile.cpp:471-540 | the loop appends the nodes in file order and stops at the first error, keeping those before it |
| NetworkCreators.ProfilesStayDistinct | src/presenter/PresenterNetwork.cpp:18-38 | over every run of additions profiles are pairwise distinct, hence at most four |
| NetworkCreators.FirstAdditionWins | src/presenter/PresenterNetwork.cpp:30-38 | what a run stores is, for each profile, its first addition |
| NetworkCreators.PortsDistinctIff | src/presenter/PresenterNetwork.cpp:30-50 | interfaces are pairwise distinct if and only if each accepted addition's was unused at its time |
| NetworkCreators.PickedPortsAreDistinct | src/presenter/PresenterNetwork.cpp:131-157 | with each interface picked from the possible ones, they are |
| NetworkCreators.PossibleIff | src/presenter/PresenterNetwork.cpp:145-157 | an interface is possible if and only if it was fetched and no network has it |
| NetworkCreators.SelectMembers | src/presenter/PresenterNetwork.cpp:153-156 | selecting keeps exactly the fetched interfaces that are taken, or exactly those that are not |
| NetworkCreators.SelectConserves | src/presenter/PresenterNetwork.cpp:153-156 | what remains and what is used make up what was fetched |
| NetworkCreators.SelectAppend | src/presenter/PresenterNetwork.cpp:153-156 | the order of the fetched interfaces is kept |
| NetworkCreators.AvailableIff | src/presenter/PresenterNetwork.cpp:131-136 | the count held against the minimum of two is never below the number of interfaces fetched, and equals it if and only if each network's interface is still there |
| NetworkCreators.NetworkCreator.CheckIfProfileExists | src/presenter/PresenterNetwork.cpp:18-28 | the search answers whether some network has the profile |
| NetworkCreators.NetworkCreator.CheckIfInterfaceRegistered | src/presenter/PresenterNetwork.cpp:40-50 | the search answers whether some network has the interface |
| NetworkCreators.NetworkCreator.AddNetworkInformation | src/presenter/PresenterNetwork.cpp:30-38 | appends the data and answers true, or refuses a present profile and changes nothing |
| NetworkCreators.NetworkCreator.GetSelectedInterfaces | src/presenter/PresenterNetwork.cpp:52-55 | the number of networks, which is at most four |
| NetworkCreators.RemoveRegistered | src/presenter/PresenterNetwork.cpp:153-155 | the compaction in place leaves the interfaces to keep in front, in order |
| NetworkCreators.RetrievePossibleInterfaces | src/presenter/PresenterNetwork.cpp:145-157 | after erasing the rest, exactly the possible interfaces are left |

## Left out

- Build and assertions: the release build is modelled, where `LOG_ASSERT` does nothing; so a file without groups loads, and `valid()` refuses nothing.
- GLib key files: the text syntax, its escaping and malformed texts; a key file is a map, and the order of groups matters only for nodes, which get it as a list.
- Key names: a client's keys are constructors of a datatype, with one more for every other key; text keys differ in form only.
- Error texts: an error says which branch failed and on what, not in which words.
- RpmRepositories.RPMRepositoryFile: repositories are values in the file object's map, since no caller gets hold of the shared repository objects themselves; sharing of the file objects is modelled.
- RpmRepoManager.RPMRepoManager.LoadDir: directories hold regular files only.
- RpmRepoManager.RPMRepoManager.EnableMany: leaves the order in which the hash set is walked to a ghost result, for which every order is possible.
- RepoGenerator.GenerateFiles: parsing the configuration and its `{variable}` interpolation, choosing version-specific names and the vault are not modelled; configurations come as they are after that.
- RepoGenerator.KeyIsCheckedIff: an existence query is answered by an oracle that may answer differently each time; retries of one HTTP query count as one.
- Mirror URL: a base URL of nothing but `file://` and slashes, whose stripped text `localPath` cannot cut, is not treated apart.
- Backups.BackupFilesByExtension: directories hold regular files only, and `remove_all` removes the files directly in the backup directory.
- Dry run: all dry-run branches; the option is off throughout.
- GuardedAppends.ScriptTwice: the guard looks for its key as a fixed string, and commands other than guarded appends are taken to leave the guarded files alone.
- GuardedAppends.Files.AddStringToFile: a file that cannot be opened for appending.
- Streams.CommandProxy: a stream's content is known in advance; waiting for the process and its exit code are not modelled.
- Streams.Checksum: asks for a chunk size above zero, since with zero every read succeeds and the loop never ends; the hash is any fold over bytes in place of SHA-256.
- Initialise.InitialiseAfterRestart: asks that the directory is listed in the same order; `RestartAsListed` is for any order.
- TextEdits.FindAndReplace: asks for a non-empty pattern, since the loop never ends on an empty one, as `LoopsForeverIff` states.
- Ipv4.Network: IPv6 addresses, the gateway, VLAN and domain fields, and reading the system's interfaces.
- AnswerNetworks.ReadAddress: `make_address` for IPv4 texts only.
- AnswerNetworks.NetworkRoundTripIff: is about network sections; the whole answer file does not come back, since it is dumped under other keys than it is read from.
- AnswerNetworks.AnswerFile: the management and service networks, which differ from the external and the application network in their section's name alone.
- AnswerNodes.AnswerFile: the other sections of the answer file, and `dumpNodes`, which leaves out the MAC address that loading asks for.
- NetworkCreators.NetworkCreator: `saveNetworksToModel`, which hands each network on to setters of other classes.
- Processes, D-Bus, HTTP, systemd, package managers and the user interface: foreign effects.
- Regular expressions for MAC addresses and host names, the remaining getters and setters: little beyond restating them.
- Postfix `changeMasterFile`: it writes its lines back without newlines, so no round trip holds.
