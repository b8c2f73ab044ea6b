# SpaceFM core, modelled in Dafny

This project models the parts of the SpaceFM file manager that make decisions rather than draw
widgets:

- **Directory mirror (`vfs::dir`).** It holds the listed entries of one directory and its two
  pending buffers: names reported as created and entries reported as changed. It reacts to
  `vfs::monitor` events, taken as an unconstrained input, by adding, re-checking and removing
  entries. It drains the buffers and
  announces each effect to subscribers of five typed event channels. Loading reads the listing
  and the `.hidden` file. A process-wide cache shares one mirror per path.
- **inotify record decoder (`vfs::file_monitor`).** It walks the records of a read buffer,
  classifies each event mask by priority and composes the path of the affected file. The
  constructor and destructor acquire and release the inotify descriptor, the I/O handler and
  the watch.
- **Load-task flag machine (`vfs::async_thread`).** It tracks the running, finished,
  cancel-requested, canceled and joinable flags, and when the task-finished notice is emitted.
- **MIME descriptor cache (`vfs_mime_type`).** It covers reference counts, lookup-or-insert,
  reload scheduling, icon-size cache invalidation, the icon-name fallback chain, default
  actions and `add_action`.
- **Desktop entries (`vfs::desktop`).** It covers the display name, icon fallback,
  single-or-multiple launch, and both expansions of the `Exec` field codes (`%f %F %u %U %c
  %i`) of the freedesktop.org Desktop Entry Specification, section "The Exec key". It also
  covers the launches `open_files` makes and the directory each one runs in.
- **Main window.** It covers the panel-cycling rules of `focus_panel`, panel context,
  tab-relative and panel-relative working directories, panel/tab counts, window-title
  substitution, slider clamps and the "at least one panel" menu rule.
- **File properties dialog.** It covers the selection scan, the chmod tri-state buttons and how
  they resolve, the `touch` command for edited dates, the combo separator and the count label.
- **Command line (`main.cxx`).** It covers per-argument dispatch, tab reuse and panel preload in
  `open_in_tab`, the final panel focus, and forwarding to a running instance.
- **Panel and tab number predicates (`types.cxx`).**

The model is functional throughout. State is an immutable datatype and each operation is a
function from the old state and its inputs to the new state plus the notices it emits.

The filesystem, GTK widget queries, the key-file parser, shell quoting and icon loading are not
modelled. Each one becomes a parameter of the operation that uses it:

- a set of present names;
- the set of names that denote the directory itself;
- a `canLoad` predicate;
- a `quote` function;
- visibility sets.

Three modules are shared helpers:

- `Strings`: occurrence, replacement, splitting, joining, number formatting and whitespace
  stripping.
- `Paths`: absolute paths, joining and basenames.
- `Wrappers`: `Option` and `Result`.

They state the string behaviour the rest of the model relies on: `ztd::replace`, `ztd::split`,
`ztd::strip` and `std::filesystem::path` operators.

The header `src/types.hxx` is not part of this model. Its constants are taken to be:

- panels 1 to 4, with 0 as the invalid panel;
- the panel codes prev/next/hide as -1/-2/-3;
- tabs counting from 1, with 0 as the invalid tab;
- the tab codes prev/next/close/restore as -1 to -4;
- `is_valid_panel`, declared there too, is taken to accept exactly the panels 1 to 4
  (`PanelTypes.IsValidPanel`). The panel scans of src/main-window.cxx (lines 496, 513, 533
  and 1656) rest on this reading.

Where the code and its documented intent disagree, the model carries both readings. Those places
are listed under "## Findings": each has an as-written member that follows the code and a
corrected member that follows the intent, and the rest of the model builds on the corrected one.

## Model

| member | source | states |
|---|---|---|
| Signals.Empty | src/vfs/vfs-dir.hxx:121-161 | a fresh registry satisfies the registry invariant: connection ids are distinct and below the next id |
| Signals.AddEvent | src/vfs/vfs-dir.hxx:121-161 | subscribing appends one connected slot for the channel and returns a connection id used by no earlier slot |
| Signals.Disconnect | src/vfs/vfs-dir.cxx:76 | disconnecting a connection marks exactly the slots with that id disconnected; nothing else changes |
| Signals.RunEvent | src/vfs/vfs-dir.hxx:163-203 | an emission reaches at most one handler per slot, only handlers connected to its channel, and every connected handler of that channel |
| Signals.DisconnectSlots | src/vfs/vfs-dir.cxx:76 | slot-wise disconnection keeps length, kind and handler of every slot |
| Signals.ReachedExactly | src/vfs/vfs-dir.hxx:163-203 | running channel k reaches handler h iff some connected slot of channel k carries h |
| Signals.ReachedAppend | src/vfs/vfs-dir.hxx:163-203 | the handlers reached by a list of slots are those of its parts, in subscription order |
| Signals.AddEventIsolated | src/vfs/vfs-dir.hxx:121-203 | a subscription on channel k adds its handler to runs of k only; other channels reach the same handlers as before |
| Signals.ReachedDisconnectFresh | src/vfs/vfs-dir.cxx:76 | disconnecting an id no slot carries changes nobody reached |
| Signals.AddThenDisconnect | src/vfs/vfs-dir.cxx:66-76 | subscribing and then disconnecting the returned connection restores what every channel reaches |
| AsyncThread.Create | src/vfs/vfs-async-thread.cxx:32-36 | a new task is neither running, joinable, cancel-requested nor canceled |
| AsyncThread.Spawn | src/vfs/vfs-async-thread.cxx:46-50 | starting the task clears finished and canceled, makes it running and joinable, and keeps any cancel request |
| AsyncThread.Run | src/vfs/vfs-async-thread.cxx:38-59 | run on a running task does nothing; otherwise it ends not running, finished and not joinable, and emits task-finished exactly once with canceled false |
| AsyncThread.Cleanup | src/vfs/vfs-async-thread.cxx:92-108 | cleanup of a non-joinable task does nothing; otherwise it joins, and emits task-finished with the current canceled flag only when not finalizing |
| AsyncThread.Cancel | src/vfs/vfs-async-thread.cxx:61-72 | cancel of a non-joinable task does nothing; otherwise it sets cancel and canceled, and the notice from its cleanup carries the old canceled flag |
| AsyncThread.IsCanceled | src/vfs/vfs-async-thread.cxx:86-90 | the answer is the cancel request, which neither a run nor a cleanup clears |
| AsyncThread.Destroy | src/vfs/vfs-async-thread.cxx:27-30 | the destructor never emits task-finished |
| AsyncThread.RunKeepsCancelRequest | src/vfs/vfs-async-thread.cxx:38-90 | is_canceled reports the cancel request, not canceled: a request made before run is still reported after it |
| AsyncThread.NeverJoinableOutsideRun | src/vfs/vfs-async-thread.cxx:38-108 | from a fresh task, any sequence of run/cancel/cleanup/destroy leaves it not running and not joinable, and emits one task-finished(false) per run and nothing else |
| FileMonitor.Classify | src/vfs/vfs-file-monitor.cxx:142-170 | created iff a create/moved-to bit is set; deleted iff not created and a delete/moved-from/delete-self/unmount bit is set; changed iff neither and a modify/attrib bit is set |
| FileMonitor.ClassifyEachBit | src/vfs/vfs-file-monitor.cxx:142-170 | each single inotify bit lands in its documented class; move-self and ignored are other |
| FileMonitor.ClassifyPriority | src/vfs/vfs-file-monitor.cxx:143-157 | a create bit wins over every other bit, a delete bit over change bits, and the is-directory bit never affects the class |
| FileMonitor.EventPath | src/vfs/vfs-file-monitor.cxx:130-140 | the composed event path ends with the record's name |
| FileMonitor.EventPathNamesRecord | src/vfs/vfs-file-monitor.cxx:130-140 | the basename of the event path is the record's name, and for a watched directory the path is the directory joined with the name |
| FileMonitor.DispatchOf | src/vfs/vfs-file-monitor.cxx:130-170 | the dispatched path names the record's file, and for a watched directory is that directory joined with the name |
| FileMonitor.Named | src/vfs/vfs-file-monitor.cxx:124-128 | the dispatched records are the buffer's records with a non-empty name |
| FileMonitor.NamedKeepsNamed | src/vfs/vfs-file-monitor.cxx:124-128 | a buffer record is dispatched iff its name length is non-zero |
| FileMonitor.OnInotifyEvent | src/vfs/vfs-file-monitor.cxx:105-178 | watching continues iff the condition is not exactly HUP or ERR and the read succeeded; a stop dispatches nothing; otherwise each named record is dispatched once, in buffer order, with its class and composed path |
| FileMonitor.NamelessBufferDispatchesNothing | src/vfs/vfs-file-monitor.cxx:124-177 | a buffer of self events only dispatches nothing |
| FileMonitor.HangUpWithDataStillReads | src/vfs/vfs-file-monitor.cxx:110-114 | a condition of IN together with HUP equals neither HUP nor ERR, so the buffer is still read |
| FileMonitor.Absolute | src/vfs/vfs-file-monitor.cxx:67 | the watched path is made absolute against the working directory |
| FileMonitor.Construct | src/vfs/vfs-file-monitor.cxx:41-86 | construction fails iff inotify_init or inotify_add_watch fails; success holds descriptor, handler and watch for the given path; add-watch failure still holds the descriptor and handler |
| FileMonitor.DestructorReleasesAll | src/vfs/vfs-file-monitor.cxx:88-96 | the destructor's order (disconnect handler, remove watch, close descriptor) releases everything a successful constructor acquired |
| FileMonitor.CloseFirstIsIllegal | src/vfs/vfs-file-monitor.cxx:88-96 | closing the descriptor before removing the watch is not a legal teardown |
| FileMonitor.ConstructReleasing | src/vfs/vfs-file-monitor.cxx:73-78 | corrected constructor: same outcome as the original, and a failure holds no resource |
| FileMonitor.AddWatchFailureLeaks | src/vfs/vfs-file-monitor.cxx:69-78 | when add-watch fails the original throws while still holding descriptor and handler; the corrected one holds nothing |
| VfsDir.FindFile | src/vfs/vfs-dir.cxx:274-290 | the result is the first entry that is the handle or carries the name; none iff no entry matches |
| VfsDir.FindByName | src/vfs/vfs-dir.cxx:274-290 | a lookup by name alone succeeds iff the name is listed, and returns an entry with that name |
| VfsDir.Without | src/vfs/vfs-dir.cxx:376-386 | removing an entry keeps every other entry and drops that one |
| VfsDir.WithoutDistinct | src/vfs/vfs-dir.cxx:376-386 | removal keeps names distinct |
| VfsDir.WithoutWellFormed | src/vfs/vfs-dir.cxx:376-386 | removal keeps the directory well formed |
| VfsDir.OnlyOneNamed | src/vfs/vfs-dir.cxx:376-386 | in a well-formed directory, removing a listed entry leaves no entry with its name |
| VfsDir.UpdateFileInfo | src/vfs/vfs-dir.cxx:364-388 | valid iff the file still exists; if valid nothing changes; if not and listed it is removed and file-deleted is emitted once for it; otherwise nothing changes |
| VfsDir.ChangedStep | src/vfs/vfs-dir.cxx:390-409 | one changed entry yields file-changed when it still exists, and then nothing else changes, and file-deleted otherwise; only the list changes |
| VfsDir.DrainChanged | src/vfs/vfs-dir.cxx:390-409 | draining the changed buffer changes only the list, keeps the directory well formed, and emits at most one notice per buffered entry, each a change or deletion of an entry of the buffer |
| VfsDir.AboutBufferJoin | src/vfs/vfs-dir.cxx:390-409 | notices about the first buffered entry followed by notices about the rest are about the buffer |
| VfsDir.DrainChangedAllPresent | src/vfs/vfs-dir.cxx:390-409 | when every buffered entry still exists, draining keeps the list and announces a change of each entry, in buffer order |
| VfsDir.UpdateChangedFiles | src/vfs/vfs-dir.cxx:390-409 | the changed buffer is empty afterwards, only the list and buffer change, and an empty buffer is a no-op |
| VfsDir.DrainChangedOne | src/vfs/vfs-dir.cxx:390-409 | draining a one-entry buffer is one changed step |
| VfsDir.ChangedStepIgnoresBuffer | src/vfs/vfs-dir.cxx:390-409 | a changed step does not depend on the rest of the buffer |
| VfsDir.CreatedStep | src/vfs/vfs-dir.cxx:411-448 | an unlisted existing name is appended and announced created; an unlisted missing name is dropped silently; a listed name is re-checked and announced changed or deleted |
| VfsDir.CreatedStepAgrees | src/vfs/vfs-dir.cxx:411-448 | after a created step the name is listed iff it exists, so no duplicate is ever appended |
| VfsDir.DrainCreated | src/vfs/vfs-dir.cxx:411-448 | draining names changes only the list and keeps the directory well formed |
| VfsDir.DrainCreatedAboutNames | src/vfs/vfs-dir.cxx:411-448 | draining created names emits at most one notice per name, each a creation, change or deletion of an entry of that name |
| VfsDir.UpdateCreatedFiles | src/vfs/vfs-dir.cxx:411-448 | the created buffer is empty afterwards, only list and buffer change, and an empty buffer is a no-op |
| VfsDir.UpdateCreatedFilesLoop | src/vfs/vfs-dir.cxx:411-448 | the loop over the buffer computes the same directory and notices as the functional drain |
| VfsDir.Settle | src/vfs/vfs-dir.cxx:507-510 | draining both buffers leaves them empty and keeps the directory well formed |
| VfsDir.SettleChanged | src/vfs/vfs-dir.cxx:390-409 | settling a single buffered change is one changed step |
| VfsDir.SettleNothingCreated | src/vfs/vfs-dir.cxx:507-510 | with no created names, settling is draining the changed buffer |
| VfsDir.SettleCreated | src/vfs/vfs-dir.cxx:411-448 | settling a single buffered name is one created step |
| VfsDir.EmitCreated | src/vfs/vfs-dir.cxx:492-511 | a create of the directory itself is ignored; otherwise both buffers are empty on return and well-formedness is kept |
| VfsDir.EmitCreatedIsStep | src/vfs/vfs-dir.cxx:492-511 | from a quiet directory, emit_file_created is exactly one created step |
| VfsDir.EmitCreatedAgrees | src/vfs/vfs-dir.cxx:492-511 | after a create event the name is listed iff it exists; a new existing name is announced created |
| VfsDir.EmitDeleted | src/vfs/vfs-dir.cxx:513-542 | a delete of the directory itself clears the list and emits file-deleted with no file; buffers are empty on return |
| VfsDir.EmitDeletedIsStep | src/vfs/vfs-dir.cxx:513-542 | a delete of a listed name re-checks the found entry, like a changed step |
| VfsDir.EmitDeletedAgrees | src/vfs/vfs-dir.cxx:513-542 | after a delete event of a listed name the name stays listed iff it still exists |
| VfsDir.EmitChanged | src/vfs/vfs-dir.cxx:544-587 | an unforced change under avoid-changes does nothing; a change of the directory itself emits file-changed with no file; buffers are empty on return |
| VfsDir.UnforcedChangeAnnouncedTwice | src/vfs/vfs-dir.cxx:544-587 | an unforced change to a listed file that still exists is announced twice, once by the drain and once more after it |
| VfsDir.ChangeOfVanishedFileDeletes | src/vfs/vfs-dir.cxx:544-587 | a change to a listed file that no longer exists removes it and announces it deleted |
| VfsDir.CreateThenDelete | src/vfs/vfs-dir.cxx:492-542 | a create followed by a delete of the same new name lists it, then removes it, announcing created then deleted |
| VfsDir.AvoidChangesSuppressesOnlyChanges | src/vfs/vfs-dir.cxx:243-260 | avoid-changes suppresses change events but never creation |
| VfsDir.AppendedFound | src/vfs/vfs-dir.cxx:274-290 | a newly appended unlisted entry is what a lookup of its name finds |
| VfsDir.WithoutAppended | src/vfs/vfs-dir.cxx:376-386 | removing a just-appended entry restores the list |
| VfsDir.OnMonitorEvent | src/vfs/vfs-dir.cxx:243-260 | a `vfs::monitor` event of class other does nothing; every event keeps the directory quiet and well formed |
| VfsDir.OnMonitorEvents | src/vfs/vfs-dir.cxx:243-260 | any sequence of `vfs::monitor` reports keeps the directory quiet and well formed |
| VfsDir.OnMonitorEventAsWritten | src/vfs/vfs-dir.cxx:243-587 | as written, a report ends the process iff it reaches the `equivalent` test (a creation, a deletion, or a change while changes are not avoided) and its bare name is missing from the working directory or the directory itself is gone; any other report has the corrected effect |
| VfsDir.OnMonitorEventsAsWritten | src/vfs/vfs-dir.cxx:243-587 | as written, a run of reports that does not end the process has the corrected effect; with the directory present and every name present in the working directory it never ends it; a first report that throws ends it |
| VfsDir.MonitorReportTerminates | src/vfs/vfs-dir.cxx:492-587 | a creation whose name the working directory lacks ends the process, and once the directory is gone so does every report that reaches the test |
| VfsDir.ReloadMimeType | src/vfs/vfs-dir.cxx:473-489 | a MIME reload leaves the directory unchanged and announces every listed entry changed, in list order |
| VfsDir.ChangeNotices | src/vfs/vfs-dir.cxx:473-489 | one file-changed notice per listed entry, in order |
| VfsDir.EmitThumbnailLoaded | src/vfs/vfs-dir.cxx:589-600 | a thumbnail notice is emitted iff the file is found in the list, at most once, and the directory is unchanged |
| VfsDir.ThumbnailForHandle | src/vfs/vfs-dir.cxx:589-600 | a listed handle gets exactly its thumbnail notice |
| VfsDir.StaleThumbnailHandle | src/vfs/vfs-dir.cxx:589-600 | a stale handle whose name is listed announces the listed entry, not the stale handle (the case the source's debug assertion rules out) |
| DirLoad.Lines | src/vfs/vfs-dir.cxx:161-186 | no line of the split `.hidden` text contains a newline |
| DirLoad.HiddenEntries | src/vfs/vfs-dir.cxx:161-186 | at most one entry is kept per line |
| DirLoad.HiddenEntriesClean | src/vfs/vfs-dir.cxx:161-186 | every kept entry has no surrounding white space and is not an absolute path |
| DirLoad.GetHiddenFiles | src/vfs/vfs-dir.cxx:146-188 | the hidden list exists iff `.hidden` is a regular file the process may read and write, and then holds stripped relative names |
| DirLoad.HiddenEntriesOfClean | src/vfs/vfs-dir.cxx:161-186 | lines that are already clean names are kept as they are, in file order |
| DirLoad.HiddenRoundTrip | src/vfs/vfs-dir.cxx:146-188 | reading a `.hidden` written as one clean name per line returns exactly those names in order |
| DirLoad.AddHidden | src/vfs/vfs-dir.cxx:292-299 | the text appended for a hidden name ends with a newline |
| DirLoad.LinesOfTerminated | src/vfs/vfs-dir.cxx:161-186 | newline-free names each followed by a newline are read back as exactly those lines |
| DirLoad.AddHiddenRoundTrip | src/vfs/vfs-dir.cxx:292-299 | a `.hidden` holding one added name reads back as that name |
| DirLoad.UnreadableHiddenHidesNothing | src/vfs/vfs-dir.cxx:150-158 | a missing, non-regular or unreadable `.hidden` yields no list |
| DirLoad.Partition | src/vfs/vfs-dir.cxx:205-239 | each visited name is either kept or counted hidden, never both |
| DirLoad.PartitionExact | src/vfs/vfs-dir.cxx:205-239 | a name is kept iff it was listed and is not hidden |
| DirLoad.PartitionDistinct | src/vfs/vfs-dir.cxx:205-239 | a listing without repeats gives kept names without repeats |
| DirLoad.PartitionNothingHidden | src/vfs/vfs-dir.cxx:205-239 | when no listed name is hidden, every name is kept, in listing order, and the hidden count is zero |
| DirLoad.PartitionStep | src/vfs/vfs-dir.cxx:205-239 | one more visited name grows either the kept list or the hidden count by exactly one |
| DirLoad.Entries | src/vfs/vfs-dir.cxx:231-236 | each kept name becomes one entry with the next fresh id, in listing order |
| DirLoad.EntriesList | src/vfs/vfs-dir.cxx:231-236 | numbering the kept names lists exactly those names |
| DirLoad.EntriesWellFormed | src/vfs/vfs-dir.cxx:231-236 | entries built from distinct names have distinct names and ids below the next id |
| DirLoad.LoadThread | src/vfs/vfs-dir.cxx:190-240 | the load visits names until cancellation; each visited name is appended or counted hidden; only files, next id and hidden count change |
| DirLoad.OnListTaskFinished | src/vfs/vfs-dir.cxx:107-114 | the directory becomes listed and load-complete with no task, emits file-listed with the cancelled flag, and keeps files and buffers |
| DirLoad.Construct | src/vfs/vfs-dir.cxx:58-70 | after construction the directory is listed, loaded, quiet and well formed, has emitted file-listed(false) once, lists only names of the listing, and lists a name of the listing iff it is not hidden |
| DirLoad.RunLoad | src/vfs/vfs-dir.cxx:64-69 | running the load task to its join leaves the directory listed, loaded, quiet and well formed, with file-listed(false) emitted once, every name of the listing either listed or counted hidden, and exactly the unhidden ones listed |
| DirLoad.FullLoad | src/vfs/vfs-dir.cxx:205-238 | the state a complete load leaves is well formed, accounts for every listed name once (entry or hidden count) and lists exactly the unhidden names |
| DirLoad.ListedExactlyUnhidden | src/vfs/vfs-dir.cxx:205-238 | the entries of a full load come from the listing, and a listed name appears iff `.hidden` does not hide it |
| DirLoad.HiddenMatchingExample | src/vfs/vfs-dir.cxx:219-230 | matched by name, `.hidden` entry b hides b; matched through `equivalent` against another working directory it hides nothing |
| DirLoad.EquivalentAgreesInOwnDirectory | src/vfs/vfs-dir.cxx:219-230 | when the working directory is the listed one and distinct names are distinct files, `equivalent` matching agrees with name matching |
| DirLoad.CacheCreate | src/vfs/vfs-dir.cxx:87-105 | a cached path returns the cached mirror and constructs nothing; otherwise one mirror is constructed and registered under the exact path given |
| DirLoad.CreateTwiceShares | src/vfs/vfs-dir.cxx:87-105 | creating the same path twice, with no lapse in between, constructs once and returns the same mirror |
| DirLoad.CacheExpire | src/vfs/vfs-dir.cxx:56 | when a mirror's last holder lets go its entries lapse and every other entry is kept |
| DirLoad.CreateAfterExpiryConstructs | src/vfs/vfs-dir.cxx:87-105 | creating a path again after its mirror lapsed constructs a new mirror, never the lapsed one |
| DirLoad.ExpiryKeepsOthers | src/vfs/vfs-dir.cxx:87-105 | a lapse of one mirror leaves every other path's mirror shared |
| DirLoad.TrailingSlashIsAnotherDirectory | src/vfs/vfs-dir.cxx:87-105 | the key is not canonicalised: a path with a trailing slash gets a second mirror |
| MimeCache.Init | src/vfs/vfs-mime-type.cxx:39-45 | the cache starts empty with no pending reload and icon sizes 32 and 16 |
| MimeCache.New | src/vfs/vfs-mime-type.cxx:188-195 | a new descriptor gets a fresh id, a private copy of the type text and reference count 1 |
| MimeCache.Ref | src/vfs/vfs-mime-type.cxx:197-201 | ref adds one to that descriptor's count only |
| MimeCache.Unref | src/vfs/vfs-mime-type.cxx:203-217 | unref frees the descriptor when the count reaches zero, otherwise subtracts one |
| MimeCache.RefUnref | src/vfs/vfs-mime-type.cxx:197-217 | ref followed by unref restores the cache |
| MimeCache.UnrefFreesOnlyAtZero | src/vfs/vfs-mime-type.cxx:203-217 | a descriptor survives unref iff its count was above one, and the cache stays consistent |
| MimeCache.GetFromTypeAsWritten | src/vfs/vfs-mime-type.cxx:162-186 | lookup keyed by the address of the caller's string: a hit refs the cached descriptor; a miss inserts one keyed by the new descriptor's own copy |
| MimeCache.CallerBufferAlwaysMisses | src/vfs/vfs-mime-type.cxx:162-186 | a caller buffer never matches a key, so every lookup creates a new descriptor |
| MimeCache.RepeatedLookupDuplicates | src/vfs/vfs-mime-type.cxx:162-186 | two lookups of the same type text from a caller buffer return two different descriptors |
| MimeCache.GetFromType | src/vfs/vfs-mime-type.cxx:162-186 | corrected lookup keyed by text: a hit returns the cached descriptor with one more reference; a miss inserts one with count 2 and returns it |
| MimeCache.RepeatedLookupShares | src/vfs/vfs-mime-type.cxx:162-186 | two lookups of the same text return the same descriptor |
| MimeCache.Reload | src/vfs/vfs-mime-type.cxx:63-87 | reload drops one reference of every mapped descriptor, empties the map, clears the pending id and leaves other descriptors alone |
| MimeCache.LookupAfterReloadMisses | src/vfs/vfs-mime-type.cxx:63-87 | after a reload a lookup builds a new descriptor |
| MimeCache.OnMimeCacheChanged | src/vfs/vfs-mime-type.cxx:89-106 | a create/delete/change event schedules a reload only when none is pending; nothing else changes |
| MimeCache.ScheduleOnce | src/vfs/vfs-mime-type.cxx:89-106 | a second event while a reload is pending keeps the first schedule |
| MimeCache.SetIconSizeBig | src/vfs/vfs-mime-type.cxx:367-381 | a new big size clears every cached big icon and keeps small icons; the same size changes nothing |
| MimeCache.SetIconSizeSmall | src/vfs/vfs-mime-type.cxx:383-397 | a new small size clears every cached small icon and keeps big icons; the same size changes nothing |
| MimeCache.SetIconSizeIdempotent | src/vfs/vfs-mime-type.cxx:344-397 | setting a size twice is setting it once |
| MimeCache.Guesses | src/vfs/vfs-mime-type.cxx:281-313 | a type with a slash yields four derived icon names, one without yields none |
| MimeCache.Candidates | src/vfs/vfs-mime-type.cxx:220-335 | every type has at least one icon candidate |
| MimeCache.FirstLoadable | src/vfs/vfs-mime-type.cxx:281-335 | the first candidate that loads is chosen; none iff no candidate loads |
| MimeCache.DirectoryCandidates | src/vfs/vfs-mime-type.cxx:238-250 | the directory type tries gtk-directory, gnome-fs-directory, folder |
| MimeCache.GuessesOfSlash | src/vfs/vfs-mime-type.cxx:281-313 | for a type a/b the icon names tried are a-b, gnome-mime-a-b, gnome-mime-a and a-x-generic, in that order |
| MimeCache.SlashTypeCandidates | src/vfs/vfs-mime-type.cxx:281-335 | type a/b tries a-b, gnome-mime-a-b, gnome-mime-a, a-x-generic, then the unknown type's icon |
| MimeCache.UnknownIsLast | src/vfs/vfs-mime-type.cxx:315-335 | every non-directory chain ends in unknown, reached directly without recursion |
| MimeCache.WithSlot | src/vfs/vfs-mime-type.cxx:337-340 | replacing one size class of a descriptor's cached icons keeps the other class, the name and the count; storing the current value changes nothing |
| MimeCache.Store | src/vfs/vfs-mime-type.cxx:337-340 | storing an icon touches only that descriptor's slot of that class; the map, counter and other descriptors are kept, and the map stays keyed by text |
| MimeCache.UnrefShared | src/vfs/vfs-mime-type.cxx:203-217 | releasing a descriptor that has other holders only lowers its count and keeps the map keyed by text |
| MimeCache.LocalIcon | src/vfs/vfs-mime-type.cxx:224-335 | the call settles the icon without the unknown type exactly when nothing is cached in the class, the type is neither the directory nor the unknown type, and none of its own names loads; a cached icon is returned as it is |
| MimeCache.GetIcon | src/vfs/vfs-mime-type.cxx:220-342 | the returned icon is stored in the requested class of the descriptor, the map stays keyed by text, sizes and pending reload are kept; a cached icon returns the cache unchanged; without the fallback only the requested slot changes |
| MimeCache.SelfIconOfUnknown | src/vfs/vfs-mime-type.cxx:320-335 | the unknown type settles its own icon (no further recursion), and with nothing cached it is the first loadable of its own candidates ending in `unknown` |
| MimeCache.FallbackIcon | src/vfs/vfs-mime-type.cxx:320-340 | the fallback through the unknown type stores the icon it obtains in the requested class of the asking descriptor and keeps the map keyed by text |
| MimeCache.FallbackHit | src/vfs/vfs-mime-type.cxx:320-340 | with the unknown type mapped, the fallback returns that descriptor's icon, caches it in both descriptors, and leaves every count as it was |
| MimeCache.FallbackMiss | src/vfs/vfs-mime-type.cxx:320-340 | with the unknown type not mapped, the fallback inserts one new descriptor of that type, held by the map alone (count 1), with the icon in its slot |
| MimeCache.FallbackRecords | src/vfs/vfs-mime-type.cxx:320-340 | after the fallback the unknown type is mapped and its slot records the returned icon; no icon means none of its names and not `unknown` loads |
| MimeCache.FallbackEntries | src/vfs/vfs-mime-type.cxx:320-340 | the fallback adds at most the unknown type to the map, and any descriptor it creates is that type's, held by the map alone |
| MimeCache.FallbackOthers | src/vfs/vfs-mime-type.cxx:320-340 | besides the asking descriptor the fallback changes at most the unknown type's descriptor, and only in the requested class |
| MimeCache.FirstLoadableAppend | src/vfs/vfs-mime-type.cxx:281-335 | trying a list then another picks from the second only when nothing of the first loads |
| MimeCache.GetIconChain | src/vfs/vfs-mime-type.cxx:220-335 | with nothing cached for the type or the unknown type, the icon is the first loadable name of the type's whole candidate chain |
| MimeCache.GetIconUnknownCached | src/vfs/vfs-mime-type.cxx:320-340 | a fallback to an unknown type with a cached icon returns that icon and changes only the asking slot, its reference given back |
| MimeCache.GetIconOthers | src/vfs/vfs-mime-type.cxx:220-342 | a call changes, besides the asking descriptor, at most the unknown type's descriptor and only in the requested class |
| MimeCache.GetIconNewEntries | src/vfs/vfs-mime-type.cxx:220-342 | a call keeps every mapped entry, adds at most the unknown type, and a descriptor it creates is that type's, held by the map alone |
| MimeCache.SecondFallback | src/vfs/vfs-mime-type.cxx:320-340 | a second fallback after one that found no icon finds none again and changes nothing |
| MimeCache.FallbackFindsNothing | src/vfs/vfs-mime-type.cxx:320-340 | a fallback to a mapped unknown type with an empty slot, when nothing loads, returns no icon and leaves the cache unchanged |
| MimeCache.GetIconTwice | src/vfs/vfs-mime-type.cxx:220-342 | asking twice for the same icon returns the same answer and changes nothing the second time |
| MimeCache.DefaultAction | src/vfs/vfs-mime-type.cxx:444-466 | the database default when set, else the first listed action, else none |
| MimeCache.DefaultActionFallsBackToFirst | src/vfs/vfs-mime-type.cxx:444-466 | without a database default, no later action is chosen over a different first one |
| MimeCache.AddAction | src/vfs/vfs-mime-type.cxx:493-501 | an id ending in `.desktop` is returned as is; otherwise the created custom desktop is returned |
| MimeCache.DefaultAssociation | src/vfs/vfs-mime-type.cxx:468-501 | the default association is the given id or the created desktop |
| MimeCache.DesktopIdIsItsOwnDefault | src/vfs/vfs-mime-type.cxx:468-501 | an id ending in `.desktop` becomes the default directly |
| AppDesktop.ValueOr | src/vfs/vfs-app-desktop.cxx:41-124 | a missing key reads as the empty string |
| AppDesktop.Load | src/vfs/vfs-app-desktop.cxx:41-124 | corrected: an absolute name is used as the path, a relative one is looked up; a failed load runs the file name; a loaded entry takes Exec, Name, Icon, Path and Terminal, a missing key reading as empty (or false) |
| AppDesktop.LoadAsWritten | src/vfs/vfs-app-desktop.cxx:41-62 | as written: the process ends iff the key file fails to load, since the loaders throw out of the `noexcept` constructor; otherwise the desktop is the one `Load` builds |
| AppDesktop.UnloadableEnds | src/vfs/vfs-app-desktop.cxx:50-62 | as written, an unloadable file ends the process where the fallback would run the file name |
| AppDesktop.DispName | src/vfs/vfs-app-desktop.cxx:132-138 | the Name value if non-empty, else the file name |
| AppDesktop.UnloadableRunsFileName | src/vfs/vfs-app-desktop.cxx:120-123 | corrected: an entry that fails to load shows and runs its file name, the fallback the code spells out but, as written, never reaches |
| AppDesktop.IconCandidates | src/vfs/vfs-app-desktop.cxx:164-183 | the entry's icon first when set, then the two generic executable icons |
| AppDesktop.GetIcon | src/vfs/vfs-app-desktop.cxx:164-183 | the first loadable candidate; none iff no candidate loads |
| AppDesktop.OpenMultipleFiles | src/vfs/vfs-app-desktop.cxx:185-196 | true iff Exec is non-empty and contains `%U` or `%F` |
| AppDesktop.MultipleNeedsCommand | src/vfs/vfs-app-desktop.cxx:185-196 | a list code alone decides it, because a code makes Exec non-empty |
| AppDesktop.DropLast | src/vfs/vfs-app-desktop.cxx:229-233 | dropping the last argument of a non-empty argv |
| AppDesktop.RewriteFirst | src/vfs/vfs-app-desktop.cxx:239-261 | argv keeps its length, and is unchanged when no argument contains the code |
| AppDesktop.RewriteFirstAt | src/vfs/vfs-app-desktop.cxx:239-261 | when argument i is the first containing the code, only argument i is rewritten, with every occurrence replaced |
| AppDesktop.ExecToArgv | src/vfs/vfs-app-desktop.cxx:198-273 | without a file code, the argv has one more entry per file than the split command, and the files close it, in order and unchanged |
| AppDesktop.ArgvPlain | src/vfs/vfs-app-desktop.cxx:198-273 | without field codes argv is Exec split on spaces followed by the files |
| AppDesktop.ArgvCodeAtEnd | src/vfs/vfs-app-desktop.cxx:198-273 | with one file code as the last token, that token is dropped and all files are appended |
| AppDesktop.ArgvListOnly | src/vfs/vfs-app-desktop.cxx:198-273 | with a list code and no other code, argv is the split command minus its last token, followed by the files |
| AppDesktop.ArgvCodeNotLast | src/vfs/vfs-app-desktop.cxx:198-273 | a file code not in last place survives and the true last token is dropped instead |
| AppDesktop.ArgvNameInFirstTokenOnly | src/vfs/vfs-app-desktop.cxx:239-261 | `%c` becomes the display name in the first token containing it only |
| AppDesktop.QuotedEach | src/vfs/vfs-app-desktop.cxx:283-300 | a non-empty file list quotes to non-empty text |
| AppDesktop.ExecToCommandLine | src/vfs/vfs-app-desktop.cxx:275-341 | as written: without a file code the command line ends with a space and every quoted file, each followed by a space (the code cases are stated by ExecFileCodeConcatenates and ExecListCodeEach) |
| AppDesktop.ExecFileCodeConcatenates | src/vfs/vfs-app-desktop.cxx:300-314 | as written, a closing `%f` or `%u` becomes the quoted files with no separator and nothing is appended, when no quoted name holds `%`; the one-pass form agrees |
| AppDesktop.ExecListCodeEach | src/vfs/vfs-app-desktop.cxx:281-298 | as written, a closing `%F` or `%U` becomes every quoted file followed by a space, when no quoted name holds `%`; the one-pass form agrees |
| AppDesktop.FileCodeConcatenates | src/vfs/vfs-app-desktop.cxx:300-314 | corrected: a closing `%f` or `%u` becomes the quoted files with no separator, whatever they contain |
| AppDesktop.Expand | src/vfs/vfs-app-desktop.cxx:275-341 | the one-pass expansion copies text without `%` unchanged |
| AppDesktop.CommandLine | src/vfs/vfs-app-desktop.cxx:275-341 | corrected: a command without `%` gets a space and every quoted file appended |
| AppDesktop.ReplaceIfPresent | src/vfs/vfs-app-desktop.cxx:283-338 | text without the code is left alone |
| AppDesktop.ListPass | src/vfs/vfs-app-desktop.cxx:283-310 | a command without a list code passes the list stage unchanged |
| AppDesktop.FilePass | src/vfs/vfs-app-desktop.cxx:311-330 | a command without a file code passes the file stage unchanged |
| AppDesktop.CommandLinePlain | src/vfs/vfs-app-desktop.cxx:275-341 | without codes the command line is Exec, a space and the space-terminated quoted files |
| AppDesktop.SingleQuote | src/vfs/vfs-app-desktop.cxx:275-341 | a quoting function wraps its argument in single quotes |
| AppDesktop.ListStage | src/vfs/vfs-app-desktop.cxx:283-310 | the list stage pastes the quoted file name, `%f` and all, into the command |
| AppDesktop.FileStage | src/vfs/vfs-app-desktop.cxx:311-330 | the file stage then rewrites that pasted `%f` |
| AppDesktop.PercentInFileNameRewritten | src/vfs/vfs-app-desktop.cxx:275-341 | a file named with `%f` under a `%F` command is itself rewritten by the later stage |
| AppDesktop.PercentInFileNameDiffers | src/vfs/vfs-app-desktop.cxx:275-341 | so the as-written command line differs from single-pass expansion |
| AppDesktop.ExpandPlainPrefix | src/vfs/vfs-app-desktop.cxx:275-341 | single-pass expansion copies text without `%` verbatim |
| AppDesktop.ExpandPlainStep | src/vfs/vfs-app-desktop.cxx:275-341 | single-pass expansion copies one plain character |
| AppDesktop.ListCodeNamesVerbatim | src/vfs/vfs-app-desktop.cxx:283-310 | corrected: with `%F` or `%U`, the file names appear verbatim whatever they contain |
| AppDesktop.CommandLineAgreesWithoutCodes | src/vfs/vfs-app-desktop.cxx:275-341 | without `%` in Exec, the corrected and original command lines agree |
| AppDesktop.NoPercentNoCodes | src/vfs/vfs-app-desktop.cxx:275-341 | text without `%` holds no field code |
| AppDesktop.LaunchDir | src/vfs/vfs-app-desktop.cxx:386-418 | the entry's Path when set, else the caller's working directory |
| AppDesktop.ExecDesktop | src/vfs/vfs-app-desktop.cxx:386-418 | at most one launch, in the launch directory, through a terminal iff Terminal is set: a spawn of the argv unless it is empty, or a terminal run of the as-written command line unless it is empty |
| AppDesktop.TerminalPlainCommand | src/vfs/vfs-app-desktop.cxx:386-418 | a terminal entry without field codes runs once, under its display name, with Exec, a space and the quoted files; without `%` this equals the corrected command line |
| AppDesktop.EachFile | src/vfs/vfs-app-desktop.cxx:370-382 | one launch attempt per file, each in the launch directory |
| AppDesktop.OpenFiles | src/vfs/vfs-app-desktop.cxx:360-384 | an empty Exec is an error naming the file; multiple-file entries launch at most once, others at most once per file; every launch goes through a terminal iff Terminal is set |
| AppDesktop.AllStart | src/vfs/vfs-app-desktop.cxx:404-416 | true iff no launch of the list is a spawn whose program cannot be started |
| AppDesktop.OpenFilesAsWritten | src/vfs/vfs-app-desktop.cxx:360-418 | as written, the process ends iff some requested launch is a spawn whose program cannot be started; otherwise the outcome is that of `OpenFiles`; terminal entries never end it here |
| AppDesktop.UnstartableEnds | src/vfs/vfs-app-desktop.cxx:370-418 | a plain command whose program cannot be started ends the process at the first file, so no later file is launched |
| AppDesktop.OneSpawnPerFile | src/vfs/vfs-app-desktop.cxx:370-382 | without codes, each file gets its own launch with Exec's arguments and that file, in order |
| AppDesktop.ListTakesAllAtOnce | src/vfs/vfs-app-desktop.cxx:364-369 | a list code launches once with all the files |
| PanelTypes.ValidPanelAcceptsEverything | src/types.cxx:18-22 | as written every integer passes, including 7 and the invalid panel |
| PanelTypes.ValidPanelAsWritten | src/types.cxx:18-22 | as written, every integer passes |
| PanelTypes.ValidPanel | src/types.cxx:18-22 | corrected: true iff the panel is in range |
| PanelTypes.ValidPanelIsRange | src/types.cxx:18-22 | the corrected test is the panel range and rejects 7 |
| PanelTypes.IsValidPanel | src/main-window.cxx:1654-1658 | a valid panel is neither the invalid panel nor a control code |
| PanelTypes.ValidPanelCode | src/types.cxx:24-29 | true iff prev, next or hide |
| PanelTypes.PanelCodesAreNotPanels | src/types.cxx:18-29 | no control code is a panel number |
| PanelTypes.ValidTab | src/types.cxx:31-35 | every tab number other than the invalid tab passes |
| PanelTypes.ValidTabCode | src/types.cxx:37-42 | true iff prev, next, close or restore |
| PanelTypes.TabCodesPassValidTab | src/types.cxx:31-42 | every tab control code also passes valid_tab |
| MainWindow.After | src/main-window.cxx:491-506 | cyclic successors of a panel are panels |
| MainWindow.Before | src/main-window.cxx:475-490 | cyclic predecessors of a panel are panels |
| MainWindow.FirstShown | src/main-window.cxx:475-506 | the first shown panel of an order; none iff none is shown |
| MainWindow.ForwardScan | src/main-window.cxx:491-527 | the `next`/`hide` loop ends only on its stop value or on a shown valid panel |
| MainWindow.BackwardScan | src/main-window.cxx:475-490 | the `prev` loop ends only on its stop value or on a shown panel number of at least 1 |
| MainWindow.NextPicksFirstShown | src/main-window.cxx:491-506 | the next scan picks the first shown panel in cyclic order after the current one, examining at most four |
| MainWindow.PrevPicksFirstShown | src/main-window.cxx:475-490 | the previous scan picks the first shown panel in cyclic order before the current one |
| MainWindow.HideFromPanelOneNeverEnds | src/main-window.cxx:507-527 | with nothing shown, the hide scan from panel 1 never meets its stop condition |
| MainWindow.HideLoopsWithNothingShown | src/main-window.cxx:507-527 | hiding panel 1 with nothing shown finds no panel for any bound on the loop |
| MainWindow.HideScan | src/main-window.cxx:507-527 | the hide scan gives 0 or another shown valid panel, never the hidden one |
| MainWindow.HideTarget | src/main-window.cxx:507-527 | corrected: never the hidden panel; none iff no other panel is shown |
| MainWindow.HideScanAgrees | src/main-window.cxx:507-527 | wherever the original hide scan ends, it agrees with the corrected target |
| MainWindow.Settle | src/main-window.cxx:533-565 | an invalid result changes nothing; a visible valid panel becomes current |
| MainWindow.FocusPanelAsWritten | src/main-window.cxx:467-566 | as written, the current panel stays a valid panel; `hide` never sets a show flag and the other commands never clear one |
| MainWindow.HideKeepsPanelWhenTargetVisible | src/main-window.cxx:507-565 | as written, hiding panel 2 next to a visible panel 1 focuses panel 1 and leaves panel 2 shown |
| MainWindow.FocusPanel | src/main-window.cxx:467-566 | corrected: hiding removes the current panel from the shown set and focuses the target when there is one |
| MainWindow.FocusPanelAgreesOffHide | src/main-window.cxx:467-566 | apart from hide, the original and corrected focus_panel agree |
| MainWindow.NextFocusesFirstShown | src/main-window.cxx:491-506 | next focuses the first shown panel after the current one when it is visible |
| MainWindow.RowPartner | src/main-window.cxx:649-667 | the row partner of a panel is another panel |
| MainWindow.PanelContext | src/main-window.cxx:649-687 | both, horiz, vert or neither, decided by the partner's flag and whether the other row shows a panel |
| MainWindow.ContextIgnoresOwnFlag | src/main-window.cxx:649-687 | a panel's context never depends on its own flag |
| MainWindow.PartnersShareVertical | src/main-window.cxx:649-687 | row partners agree on whether they share vertical space |
| MainWindow.TabIndex | src/main-window.cxx:1599-1614 | prev and next name the neighbouring pages of the requesting one; a tab number n names page n-1 |
| MainWindow.TabCwd | src/main-window.cxx:1588-1623 | nothing without a browser; otherwise a path iff the resolved index is within the pages, and then that tab's directory |
| MainWindow.TabCwdAtEnds | src/main-window.cxx:1588-1623 | no previous tab on the first page, no next tab on the last, and tab n is page n-1 |
| MainWindow.PanelCwdSource | src/main-window.cxx:1627-1680 | nothing without a browser; the source panel is always visible; a numbered panel is used iff visible |
| MainWindow.PanelCwdSourceCyclic | src/main-window.cxx:1627-1680 | prev and next pick the nearest visible panel in cyclic order |
| MainWindow.PanelCwdNeverSelf | src/main-window.cxx:1627-1680 | prev and next never return the current panel |
| MainWindow.GetCounts | src/main-window.cxx:1772-1795 | without a browser all counts are zero; otherwise the panel count is the number of visible valid panels (at most four), with the page count and the one-based tab number |
| MainWindow.DispName | src/main-window.cxx:2242-2256 | the shown name is `/` or a single path component |
| MainWindow.DispNameOfChild | src/main-window.cxx:2242-2256 | the shown name of a directory's entry is the entry's own name |
| MainWindow.WindowTitle | src/main-window.cxx:2257-2292 | without a configured format the title is the literal `%d` (the configured cases are stated by NameTitle, PathTitle and CountTitle) |
| MainWindow.NameTitle | src/main-window.cxx:2285-2288 | a configured format without `%d`, `*` or count codes has each `%n` replaced by the directory's shown name |
| MainWindow.PathTitle | src/main-window.cxx:2289-2292 | a configured format without `%n`, `*` or count codes has each `%d` replaced by the directory's path |
| MainWindow.CountTitle | src/main-window.cxx:2268-2280 | a configured format whose only code is `%t`, `%T`, `%p` or `%P` shows the tab number, tab count, current panel or panel count in its place and is otherwise unchanged |
| MainWindow.DefaultTitleIsLiteral | src/main-window.cxx:2257-2292 | without a configured format the title is the literal `%d` |
| MainWindow.NoStarWhenIdle | src/main-window.cxx:2281-2284 | with no task running the title contains no `*` |
| MainWindow.RestoreSliders | src/main-window.cxx:1362-1379 | the top panes are at least 200; the vertical pane is -1 below 200 and kept otherwise |
| MainWindow.EnsureOneShown | src/main-window.cxx:998-1010 | panel 1 is forced shown when nothing is, otherwise nothing changes |
| MainWindow.VisCount | src/main-window.cxx:998-1005 | the count is zero iff no panel is shown |
| MainWindow.ToggleDisabled | src/main-window.cxx:1014-1025 | a show toggle is disabled iff it is the current panel and the only visible one |
| MainWindow.LastPanelLocked | src/main-window.cxx:1014-1025 | with only the current panel shown, exactly its toggle is locked |
| MainWindow.MenuAlwaysCountsAPanel | src/main-window.cxx:998-1010 | after the rule the visible count is at least one |
| FileProperties.ScanSelection | src/ptk/ptk-file-properties.cxx:433-461 | same type iff every file's MIME handle equals the first one's; directories iff some file is one |
| FileProperties.InitMultiple | src/ptk/ptk-file-properties.cxx:555-572 | with several files every state is untouched and every button inconsistent |
| FileProperties.InitSingle | src/ptk/ptk-file-properties.cxx:639-649 | with one file each state not untouched becomes the permission bit, and the button shows it |
| FileProperties.OnToggled | src/ptk/ptk-file-properties.cxx:247-255 | with several files selected (the only case the handler is connected, lines 555-571), an inconsistent button becomes consistent and inactive; one turning inactive becomes inconsistent |
| FileProperties.Click | src/ptk/ptk-file-properties.cxx:247-255 | with several files selected, a click never leaves a button both on and mixed, and moves a settled button to another settled look |
| FileProperties.ClickCycles | src/ptk/ptk-file-properties.cxx:247-255 | with several files selected, a click cycles mixed, off, on, back to mixed |
| FileProperties.ResolveBit | src/ptk/ptk-file-properties.cxx:871-886 | untouched if inconsistent or unchanged, else the new value, and a change is flagged only then |
| FileProperties.Resolve | src/ptk/ptk-file-properties.cxx:871-886 | every final state is 0, 1 or 2 and a change is flagged iff some bit changed |
| FileProperties.UntouchedSingleChangesNothing | src/ptk/ptk-file-properties.cxx:639-649 | with one file and no clicks, OK changes no permission |
| FileProperties.UntouchedMultipleChangesNothing | src/ptk/ptk-file-properties.cxx:555-572 | with several files and no clicks, OK changes no permission |
| FileProperties.PlainClick | src/ptk/ptk-file-properties.cxx:573-649 | with a single file selected no toggle handler is connected, so a click only flips the button's active state |
| FileProperties.ClickingFlipsBit | src/ptk/ptk-file-properties.cxx:871-886 | with a single file selected, one click on a bit's button flips that bit and is flagged as a change; a second click restores it and nothing changes |
| FileProperties.EditedTime | src/ptk/ptk-file-properties.cxx:773-782 | an edited date is used iff non-empty and different from the recorded original |
| FileProperties.TouchCommand | src/ptk/ptk-file-properties.cxx:784-811 | no command iff neither date is edited or there are no files |
| FileProperties.TouchCommandLines | src/ptk/ptk-file-properties.cxx:784-811 | the `-m` touch, then the `-a` touch on a new line, each followed by the quoted paths |
| FileProperties.NoNewlineInPaths | src/ptk/ptk-file-properties.cxx:784-811 | quoted paths contain no newline when quoting never produces one |
| FileProperties.AccessOnlyCommand | src/ptk/ptk-file-properties.cxx:784-811 | an access-only edit gives one `-a` touch line |
| FileProperties.DateCommand | src/ptk/ptk-file-properties.cxx:773-811 | for one file, a command runs iff there is a file and some date entry is non-empty and differs from its original; empty or unedited entries run nothing |
| FileProperties.OriginalsAsWritten | src/ptk/ptk-file-properties.cxx:620-627 | as written, both recorded originals are the modification time's text |
| FileProperties.Originals | src/ptk/ptk-file-properties.cxx:620-627 | corrected: the modification original is unchanged, and the two recordings agree iff both times read the same |
| FileProperties.UneditedAccessTimeTouched | src/ptk/ptk-file-properties.cxx:627 | as written, confirming the dialog unedited touches the access time of a file whose access and modify times differ |
| FileProperties.UneditedDatesRunNothing | src/ptk/ptk-file-properties.cxx:617-627 | corrected: unedited dates run no command, and editing the access time alone touches it only |
| FileProperties.SeparatorFrom | src/ptk/ptk-file-properties.cxx:266-281 | columns 1 up to i are all empty |
| FileProperties.ComboSep | src/ptk/ptk-file-properties.cxx:266-281 | a row is a separator iff columns 1 and 2 are both empty |
| FileProperties.CountLabel | src/ptk/ptk-file-properties.cxx:199-228 | the timer keeps polling iff counting is not done |
| FileProperties.CountLabelWords | src/ptk/ptk-file-properties.cxx:199-228 | the label reads "N files" without directories, else "N file, M directory", and its first word parses back to N |
| Cli.Absolute | src/main.cxx:172 | an absolute argument is kept, a relative one is joined to the working directory |
| Cli.Classify | src/main.cxx:170-200 | directory, then block device, then other existing file, then network location, else a warning, each iff the earlier ones fail |
| Cli.IsNetworkLocation | src/main.cxx:191-192 | text starting `//` is a network location; an absolute path is one only with `//`; text with neither `:/` nor a leading `//` is not |
| Cli.LocalPathsWin | src/main.cxx:170-200 | an existing path or an absolute path not starting `//` is never a network location |
| Cli.DoubleSlashIsNetwork | src/main.cxx:191-194 | a missing path starting with `//` opens as a network location |
| Cli.OpenInTab | src/main.cxx:97-137 | a valid panel with no pages stores the path as preload and adds no tab; otherwise the path is opened, reusing the current tab when asked |
| Cli.HandleArg | src/main.cxx:170-200 | only directory arguments touch tabs or options |
| Cli.ArgLoop | src/main.cxx:170-200 | every argument is classified in order, and reuse is never switched on |
| Cli.CountReuseAppend | src/main.cxx:127-131 | reuse counts add up over concatenated effects |
| Cli.OpenInTabReuse | src/main.cxx:125-136 | a tab open reuses at most once, and only when asked, after which reuse is off |
| Cli.NoReuse | src/main.cxx:127-131 | effects without a reuse count zero |
| Cli.ReuseAtMostOnce | src/main.cxx:127-135 | over a whole command line the current tab is reused at most once, and never when not asked |
| Cli.FirstDirectoryReuses | src/main.cxx:127-131 | with no panel chosen, the first directory reuses the current tab and switches reuse off |
| Cli.FinishPanel | src/main.cxx:202-213 | a chosen panel is shown if hidden and then focused; without one nothing happens |
| Cli.DirArgs | src/main.cxx:263-275 | exactly the arguments that are directories, in order |
| Cli.DirArgsAppend | src/main.cxx:263-275 | the directory arguments of joined argument lists are those of each list, joined, so order and repeats are kept |
| Cli.DirArgsSingle | src/main.cxx:263-275 | one argument is forwarded, once, iff it names a directory |
| Cli.ForwardCommands | src/main.cxx:263-280 | one `socket set new-tab` command per directory argument with the quoted argument |
| Cli.ForwardSkipsNonDirectories | src/main.cxx:263-280 | non-directory arguments forward nothing |
| Strings.Split | src/vfs/vfs-app-desktop.cxx:203 | at least one piece, and no piece holds the separator |
| Strings.SplitJoin | src/vfs/vfs-app-desktop.cxx:203 | separator-free pieces joined by the separator split back into the same pieces |
| Strings.NatToString | src/main-window.cxx:2276-2279 | at least one character, every one a decimal digit |
| Strings.ParseNatToString | src/main-window.cxx:2276-2279 | the decimal text of a count reads back as that count |
| Strings.StripIsStripped | src/vfs/vfs-dir.cxx:176 | a stripped line has no white space at either end |
| Paths.Basename | src/vfs/vfs-dir.cxx:249-255 | the final component of a path holds no slash |
| Paths.BasenameJoin | src/vfs/vfs-dir.cxx:249-255 | the final component of a child path is the child's name |

## Left out

- GTK widgets, menus, dialogs and notebook calls are left out. Their answers are parameters: shown and visible sets, page counts, button states.
- Real I/O is left out: inotify descriptors and `read`, `std::filesystem` queries, `vfs::file::update`, `write_file`. The filesystem is an oracle: a set of present names, the names that are the directory itself, a listing, and a `.hidden` file state.
- Threads and mutexes are left out. `async_thread::run` joins before it returns, so the load runs synchronously in the constructor.
- Process spawning, key-file parsing, shell quoting, icon loading, thumbnails and `malloc_trim` are foreign calls. They are parameters or left out.
- The recursive size walk of the properties dialog is left out. It is I/O over the whole subtree.
- `vfs_dir_mime_type_reload` is left out: its body is commented out.
- `unload_thumbnails` is left out: it only releases pixbufs.
- `open_file` in `main.cxx` is left out. It calls `.value()` on an empty optional, which is undefined behaviour, and then opens the application chooser.
- The chown triggering and the uid/gid/`mod_change` reads in the properties dialog are left out. They read uninitialised values.
- `chmod_flags` is defined outside the dialog file. Permissions are a sequence of twelve booleans in the same order.
- `FileProperties.InitSingle`: the single-file state array is read before it is initialised. The prior states are therefore a parameter.
- `ztd::same` with a null recorded original is modelled as "not the same". That case arises when several files are selected and a date is typed, since the originals are then null (src/ptk/ptk-file-properties.cxx:560-561). What the source does there is undefined; "not the same", under which the typed date is used, is the evidently intended reading. `ztd::split` is taken to split at every separator and to keep empty fields, like Python's `str.split(sep)`.
- The `icon_name` buffer of 100 bytes in `get_icon` can overflow on a long type name. Names are unbounded here.
- AppDesktop.ExecDesktop runs the command line as written (`ExecToCommandLine`), as the source does. The corrected `CommandLine` is what a fixed source would run; `AppDesktop.TerminalPlainCommand` proves both agree when Exec has no `%`.
- `AppDesktop.ArgvNameInFirstTokenOnly`: `%i` becomes one argument "--icon name", as the source builds it. The model does not split it into two arguments.
- `AppDesktop.DropLast`: `pop_back` on an empty argv is undefined behaviour. The model returns the empty argv.
- `MainWindow.NextPicksFirstShown`, `MainWindow.PrevPicksFirstShown` and `MainWindow.PanelCwdSourceCyclic`: the do-while scans carry a bound of four steps. It covers every reachable case, since a cycle visits four panels.
- `MainWindow.HideLoopsWithNothingShown`: the unbounded loop is shown for every fuel bound, not as divergence.
- `MainWindow.NoStarWhenIdle` needs the path and display name to be free of `*`, because they are substituted after the star is removed.
- MainWindow.DispName compares the path with `/` as text. The source uses `std::filesystem::equivalent` (src/main-window.cxx:2245, 2253), which also treats `//` and `/.` as the root and throws when the path no longer exists. It takes `Paths.Basename`, which assumes no trailing slash, as the name.
- `Cli.OpenInTab`: panel visibility is given per argument. The effects of `show_panels_all_windows` on later arguments are not modelled.
- `Cli.ForwardCommands` forwards the argument as typed, relative or not, as the source does.
- `PanelTypes.ValidTab` accepts the negative tab control codes, as the source does.
- `VfsDir.UnforcedChangeAnnouncedTwice` records the double change notice as the code behaves. It is not treated as a finding.
- Self-deletion records (`IN_DELETE_SELF`) have no name, so `FileMonitor.OnInotifyEvent` never dispatches them (`FileMonitor.DispatchOf` is applied only to named records).
- `vfs::monitor`, the monitor a directory mirror subscribes to (src/vfs/vfs-dir.cxx:198-200), is not part of this model. `VfsDir.OnMonitorEvent` and `VfsDir.OnMonitorEvents` take its reports as an unconstrained input.
- VfsDir.OnMonitorEvents and VfsDir.OnMonitorEvent never end the process: they model the "is this the directory itself" test as the handlers mean it. As written, `emit_file_created`, `emit_file_deleted` and `emit_file_changed` are `noexcept` yet call the throwing `std::filesystem::equivalent` on a bare name (src/vfs/vfs-dir.cxx:502, 519, 557), which resolves against the working directory. A missing name therefore terminates the process. That outcome is modelled apart, by `VfsDir.OnMonitorEventAsWritten` and `VfsDir.OnMonitorEventsAsWritten`, and listed under "## Findings".
- VfsDir.EmitCreated, VfsDir.EmitDeleted and VfsDir.EmitChanged: the `selfNames` oracle stands for the answer of `equivalent` when it has one. The case where it throws is not part of these members; it is covered by `VfsDir.OnMonitorEventAsWritten`.
- AppDesktop.ExecDesktop and AppDesktop.OpenFiles: `exec_desktop` is `noexcept`, but `Glib::spawn_async_with_pipes` (src/vfs/vfs-app-desktop.cxx:407) throws `Glib::SpawnError` when the program cannot be started, for example when it is not on `PATH`. The process then terminates, so in the per-file loop of `open_files` (377-381) the later files are never launched. These two members list the launches requested; the termination is modelled apart, by `AppDesktop.OpenFilesAsWritten` with a `canStart` oracle for the `PATH` search, and listed under "## Findings". A failure to start the terminal inside `exec_in_terminal` is not part of this model. `OpenFilesAsWritten` records only that the process ended, not which launches before the failing one had already started.
- AppDesktop.Load and AppDesktop.UnloadableRunsFileName describe the fallback for a desktop file that fails to load, which the code spells out at src/vfs/vfs-app-desktop.cxx:120-123. As written, glibmm's loaders throw instead of returning false and the `noexcept` constructor ends the process; `AppDesktop.LoadAsWritten` models that, and "## Findings" lists it.
- MimeCache.GetIcon: the description fetch and its unknown-type fallback (src/vfs/vfs-mime-type.cxx:253-279) are not modelled, because the descriptor carries no description. The XML icon name is a parameter.
- MIME handles in the properties scan are compared by identity, as the source compares pointers.
- DirLoad.LoadThread and DirLoad.Construct: `std::filesystem::directory_iterator` throws for a missing or unreadable directory (src/vfs/vfs-dir.cxx:205). Nothing catches it inside the load thread (src/vfs/vfs-async-thread.cxx:50), so the process terminates. The model takes the listing as given and has no failure outcome.
- DirLoad.CacheCreate and DirLoad.CreateTwiceShares: the cache holds mirrors weakly, so an entry lapses when its last holder releases it and `~dir` runs. The holders are not modelled; `DirLoad.CacheExpire` takes the lapse as an input, and sharing holds only while no lapse happens in between. `~dir` itself only disconnects and cancels a task that, after construction, no longer exists.
- MainWindow.GetCounts: `gtk_notebook_page_num` returns -1 for a page not in the notebook. The browser's page is always in its own panel's notebook, so the page number is a `nat`.
- The `src/types.hxx` constants are assumed as stated above; that file is not part of this model.

## Findings

| source | as written | input that shows it | evidently intended | confidence | as-written member | corrected member |
|---|---|---|---|---|---|---|
| src/vfs/vfs-dir.cxx:219-230 | `.hidden` entries are matched with `std::filesystem::equivalent` on bare names, which resolve against the process working directory | a `.hidden` holding `b` in a directory listing `a b c`, while the process runs elsewhere: nothing is hidden | match the entry against the listed name, as the commented-out line 221 does | not executed | DirLoad.HiddenMatchingExample | DirLoad.EquivalentAgreesInOwnDirectory |
| src/vfs/vfs-file-monitor.cxx:69-78 | when `inotify_add_watch` fails the constructor throws after opening the descriptor and connecting the I/O handler, and the destructor never runs | a path that cannot be watched | release the handler and descriptor before throwing | not executed | FileMonitor.AddWatchFailureLeaks | FileMonitor.ConstructReleasing |
| src/vfs/vfs-mime-type.cxx:162-186 | the descriptor map is keyed by `const char*`, so a lookup compares the caller's buffer address with the descriptors' own copies | two lookups of `text/plain` from a caller's string | key by string contents so that repeated lookups share one descriptor | not executed | MimeCache.RepeatedLookupDuplicates | MimeCache.RepeatedLookupShares |
| src/types.cxx:18-22 | `valid_panel` joins its three tests with `||`, so it accepts every integer | panel 7, or the invalid panel 0 | a panel number in range | not executed | PanelTypes.ValidPanelAcceptsEverything | PanelTypes.ValidPanelIsRange |
| src/vfs/vfs-app-desktop.cxx:275-341 | `%F` is expanded before `%f`, so a `%f` inside a substituted file name is expanded again | Exec `run %F` with a file named `a%fb` | file names substituted verbatim | not executed | AppDesktop.PercentInFileNameDiffers | AppDesktop.ListCodeNamesVerbatim |
| src/main-window.cxx:507-565 | hiding a panel only hides it when the chosen target is not visible; otherwise focus moves and the panel stays shown | current panel 2, panels 1 and 2 shown and visible, hide | the hidden panel is removed from the shown set | not executed | MainWindow.HideKeepsPanelWhenTargetVisible | MainWindow.FocusPanel |
| src/main-window.cxx:507-527 | the hide scan stops only at a shown panel or at panel 1 from above; from panel 1 with nothing shown it never stops | current panel 1, no panel shown, hide | report that no other panel is shown | not executed (low: the menu normally prevents this state) | MainWindow.HideLoopsWithNothingShown | MainWindow.HideTarget |
| src/vfs/vfs-dir.cxx:492-587 | the `noexcept` handlers `emit_file_created`, `emit_file_deleted` and `emit_file_changed` test the event's bare file name with the throwing `std::filesystem::equivalent`, so the name resolves against the working directory and a missing one ends the process | a file `new.txt` created in a watched directory while the process runs in a directory without `new.txt`; or any report after the watched directory is deleted | compare the event's full path with the directory, so no report ends the process | not executed | VfsDir.MonitorReportTerminates | VfsDir.OnMonitorEvents |
| src/ptk/ptk-file-properties.cxx:627 | the original access time is recorded from the modify-time string | a file whose access and modify times differ, dialog confirmed without edits | record the access time, so an unedited date runs nothing | not executed | FileProperties.UneditedAccessTimeTouched | FileProperties.UneditedDatesRunNothing |
| src/vfs/vfs-app-desktop.cxx:41-62 | the `noexcept` constructor expects `load_from_file` and `load_from_data_dirs` to return false on failure, but glibmm throws `Glib::FileError` or `Glib::KeyFileError` instead, so the process ends and the fallback at 120-123 is never reached | opening `missing.desktop`, which no data directory holds | fall back to running the file name | not executed | AppDesktop.UnloadableEnds | AppDesktop.Load |
| src/vfs/vfs-app-desktop.cxx:386-418 | the `noexcept` `exec_desktop` calls `Glib::spawn_async_with_pipes`, which throws `Glib::SpawnError` for a program that cannot be started, so the process ends | an entry with Exec `missing-program` opened on two files while `missing-program` is not on `PATH` | report the failure and go on | not executed | AppDesktop.UnstartableEnds | AppDesktop.OpenFiles |
