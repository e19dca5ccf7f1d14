# Verification of the dice libltdl and back-end core

This project models four parts of dice and proves what they promise.

1. **The libltdl module registry** (`dice/libltdl/ltdl.c`): the linked list of open modules with
   reference counts, dependency arrays, residency flags and the loader list. Opening may recurse
   into dependencies and may find the module already loaded, in which case the dependencies it
   opened are given back; closing cascades. `Registry` holds the state and one function per call,
   `Libltdl.Library` is the code that updates the globals, proved equal to those functions.
   The invariant (`RegistryInvariant.Inv`), the relation every call obeys
   (`RegistryEvolution.Evolves`), whole runs, reachability, the answers of opens and `lt_dlexit` have a module each;
   `RegistryResidents`, `RegistrySafety` and `RegistryTolerance` do without the rule that clients close a
   resident handle no more often than they opened it.
2. **argz vectors and the search path** (same file): strings laid end to end in a byte buffer,
   edited in place, meant to behave as a list of directories; path canonicalization; the walk over
   a path; the sorted directory listing; the two passes over a dependency string.
3. **The opcode allocator and dispatcher** (`dice/src/be/BEClass.cpp`,
   `dice/src/be/BEDispatchFunction.cpp`): numbers for interfaces over an inheritance graph,
   function IDs around uuids fixed by the user, and the server's switch.
4. **Code emission**: the expression printer and evaluator, the helper variables for pointer
   parameters, the ordered element list, and the server's pointer array.

Where the code is a loop over a buffer, a list or a vector, the model is a method with that loop,
proved against a function on sequences; the laws are lemmas about the function. A module handle is
its address, what it points to is a map entry, and the `corrupt` flag of the registry is raised by a
read through a freed handle and by linking a handle that is already linked. What a `try_dlopen` meets
outside the library (readable files, the contents of `.la` files, the answers of the loaders) is a
`Request`: an arbitrary finite tree of nested opens.

## Where the code does less than it says

Each of these is a theorem that says exactly when the code does what is expected of it.

- `ltdl.h:245` documents a count as opens minus closes. That holds for a handle that is nobody's
  dependency; `Conservation` states the count the code keeps.
- A resident handle may be closed more often than it was opened. A run then corrupts the registry exactly
  when one of its opens meets a resident handle with a count of minus one (`RunCorruptsIff`); any number of
  opens is safe exactly when no registered resident handle has a negative count (`OpensSafeIff`); for the
  program itself one close too many is fatal and two are not (`OverclosedIff`).
- `lt_dlexit` saves the next handle across a cascading close. From every registry that keeps the invariant
  its first pass runs onto freed memory exactly when a handle it closes is all that holds the handle behind
  it (`LevelOneIff`); `ExitDangles` gives a family of lists for which it does.
- `canonicalize_path` is idempotent exactly when no slash-only component follows a named one
  (`IdempotentIff`). `foreach_dirinpath` reads in front of its name buffer exactly when a base name is
  appended, the path names nothing or ends in slash-only components, and the callback declines every
  directory before (`UnderrunIff`).
- `lt_dlpath_insertdir` is commented as canonicalizing each entry it adds (`ltdl.c:3997-4000`), but it
  inserts the directory as given. The path stays canonical exactly when the directory is
  (`AddStaysCanonicalIff`); an offset that `lt_dlinsertsearchdir` accepts lies behind the vector exactly
  when it is greater than the text's length plus one less the folded colons (`OffsetInsideIff`,
  `OffsetsInsideIff`). Behind the vector the scan back reads uninitialised bytes; unless one of them is NUL it
  comes back to the end of the vector and the directory is appended, and if one is, the length to move wraps
  around (`InsertBehindIff`). Inside, the directory lands before the component the offset lies in exactly when the
  colons folded up to the end of that component do not carry the offset past it (`LandsIff`). A colon folded
  in front alone does no harm (`FoldedInFront`).
- After `lt_dlsetsearchpath ("/")` no directory can be added any more; `AddAppendsIff` says exactly when an
  added directory is appended.
- `GetMaxOpcodeNumber` is documented as the maximum function ID of an interface; `FitsIff` says exactly
  when it is, `UuidFirstDoesNotFit` gives an interface for which it is not.
- The check of a uuid against the bases keeps it out of their ranges exactly when the same-numbered bases it
  looks at take up as much as all of them (`UuidCheckGuardsIff`, `SkippedBase`). The pairwise check of direct
  bases guarantees exactly what `SiblingsPassIff` says. Over bases without bases that is enough exactly when
  the interface itself shares no function ID with a base of its number (`TwoLevelsIff`), as it does with none
  that fits its range (`TwoLevelsFitIff`); a base that overflows its range may collide unnoticed
  (`OverflowMissed`), and one level deeper two roots may (`CousinsMissed`).
- The switch has no repeated label exactly when no interface with a case is reached twice and same-numbered
  interfaces have different function IDs (`NoCollisionIff`); without uuids that means separate ranges
  (`PlainRangesIff`).
- A uuid range reserves only its lower value (`RangeCaptures`). Every request reaches the operation it names
  exactly when function IDs differ, no label lies in a range and ranges do not overlap
  (`EveryOperationDispatchedIff`).
- `GetIntValue` decides a conditional by `GetBoolValue`, which reduces operands to truth values first. The
  value is that of C exactly when conditions are built from multiplication, bitwise or, logical and, logical
  or, the unary operators but the complement, and names that are 0 (`ValueIff`); `2 > 1 ? 7 : 8` evaluates
  to 8 (`ConditionMisjudged`).
- `dice_get_nth_ptr` and `dice_get_ptr` copy one slot too many; the slots behind the stored pointers stay
  null exactly when the array was not full or the memory behind it is null (`CloseGap`).

## Model

| member | source | states |
|---|---|---|
| `RegistryRuns.RunInv` | dice/libltdl/ltdl.c:2360-4438 | safety over every run of opens, closes, make-resident and loader calls in which clients close no more often than they open: nothing freed is read, no handle is linked twice, the list is duplicate-free with distinct files, every dependency lies strictly later in the list, every handle's loader is in the loader list, each loader has exactly the files of its registered handles open, and all counts are conserved |
| `RegistryRuns.Conservation` | dice/libltdl/ltdl.h:245-246 | after every such run the count of a registered non-resident handle is client opens minus client closes plus its occurrences in the deplibs arrays of registered handles, and positive; a resident handle's count is at least that |
| `RegistryRuns.HeldIsOpensMinusCloses` | dice/libltdl/ltdl.h:245-246 | the references clients hold after a run are the opens that returned the handle minus the closes of it while registered |
| `RegistryRuns.OpenedAndClosedByOne` | dice/libltdl/ltdl.c:2425-2451 | over every such run a file is opened only while no loader has it open and closed only by the loader that opened it; open in the end are the files of the registered handles, each by the loader in the record |
| `RegistryOrder.RunNewestFirst` | dice/libltdl/ltdl.c:3393-3405 | in every run, however handles are closed, a handle stands in front of all that were linked before it |
| `RegistryRuns.StepInv` | dice/libltdl/ltdl.c:2360-4438 | each API call keeps the invariant |
| `RegistryRuns.OpenSelfIsProgram` | dice/libltdl/ltdl.c:3062-3080 | opening the program yields the one handle without a file name, linked resident with count one the first time, found with one reference more and nothing else changed afterwards, and nothing when no loader accepts |
| `RegistryRuns.MakeResidentInv` | dice/libltdl/ltdl.c:4112-4131 | making a registered handle resident keeps the invariant, counts included |
| `RegistryTolerance.ResidentForGood` | dice/libltdl/ltdl.c:4112-4131 | a handle made resident is registered and resident after every sequence of calls, however often it is closed |
| `RegistryResidents.OpenAlike` | dice/libltdl/ltdl.c:3030-3415 | an open, over every tree of nested opens, corrupts the registry exactly when it finds a resident handle whose count is minus one at that moment; otherwise the counts of resident handles make no difference to what it does |
| `RegistryResidents.CloseAlike` | dice/libltdl/ltdl.c:3780-3846 | what a close does never depends on the counts of resident handles |
| `RegistrySafety.OpenCorruptsIff` | dice/libltdl/ltdl.c:3393-3405 | `lt_dlopenext` links a listed handle again exactly when it meets a resident handle with count minus one, and else keeps the invariant but for the counts of resident handles |
| `RegistrySafety.OpenSelfCorruptsIff` | dice/libltdl/ltdl.c:3393-3405 | opening the program does so exactly when the program's own resident handle has count minus one |
| `RegistrySafety.EveryOpenSafeIff` | dice/libltdl/ltdl.c:3393-3405 | no open of files whatever links a listed handle again exactly when no registered resident file has a negative count, over all opens in which an archive opens as many dependencies as its dependency text asks for |
| `RegistrySafety.OpenSettled` | dice/libltdl/ltdl.c:2971-2990 | opens never lower the count of a resident handle and never make one resident |
| `RegistryTolerance.RunCorruptsIff` | dice/libltdl/ltdl.c:2360-4438 | a run in which resident handles may be closed any number of times corrupts the registry exactly when one of its opens meets a resident handle with count minus one; else the invariant holds but for the counts of resident handles |
| `RegistryTolerance.OpensSafeIff` | dice/libltdl/ltdl.c:3393-3405 | after such a run any sequence of opens, with dependencies as their texts ask for, is safe exactly when no registered resident handle has a negative count |
| `RegistryTolerance.ConservationWhenTolerated` | dice/libltdl/ltdl.h:245-246 | in such a run the counts of the other handles are still conserved |
| `RegistryTolerance.OverclosedIff` | dice/libltdl/ltdl.c:3393-3405 | the program opened and closed any number of times: opening it again links its handle a second time exactly when it was closed once more than opened |
| `RegistryReachability.RegisteredIffReachable` | dice/libltdl/ltdl.c:2971-2990 | a handle is registered exactly when deplibs entries lead to it from a client-held or a resident handle |
| `RegistryReachability.CloseCascade` | dice/libltdl/ltdl.c:3780-3846 | giving back one client reference removes exactly the handles no longer reachable, and the loaders see exactly one close for each removed handle, of its file and by its own loader; order, records and invariant of the rest stay |
| `RegistryReachability.ReleaseCollects` | dice/libltdl/ltdl.c:2971-2990 | the same for any release of references: what survives is what is still reachable |
| `RegistryReachability.ReleaseClosesOnce` | dice/libltdl/ltdl.c:3811-3829 | `module_close` is called once for each removed handle, by the loader in its record with its file, and for nothing else |
| `RegistryReachability.RollbackRestores` | dice/libltdl/ltdl.c:3322-3348 | an open that fails or finds the module loaded leaves list, records, search path and loader-level files as they were, whatever it opened on the way, and every non-resident count too except one more for the found handle |
| `RegistryReachability.NothingNew` | dice/libltdl/ltdl.c:3322-3348 | such an open leaves no dependency behind |
| `RegistryReachability.NothingLost` | dice/libltdl/ltdl.c:3030-3415 | no open removes a registered handle |
| `RegistryAnswers.TryAllIs` | dice/libltdl/ltdl.c:2376-2446 | a registered file gets one reference more whatever the loaders would say; any other is opened by the first loader in the list that accepts it, which is called with its name |
| `RegistryAnswers.CandidatesTried` | dice/libltdl/ltdl.c:2508-2553 | of the names tried the first that is registered or accepted by a loader is taken |
| `RegistryAnswers.OpenYields` | dice/libltdl/ltdl.c:3030-3415 | for every tree of nested opens: the answer is the registered handle of the first name that can be opened, or a new head of the list with that name, the first loader that accepts it, one reference and the dependencies in the order in which they were loaded, the same loader being called; no handle exactly when no name can be opened |
| `RegistryAnswers.OpenSelfYields` | dice/libltdl/ltdl.c:3062-3080 | the same for the program, as a resident handle without a name |
| `RegistryAnswers.OpenTriesAttempts` | dice/libltdl/ltdl.c:3450-3533 | attempts are made in order, each in the state the failed one before left, up to the first that succeeds |
| `RegistryAnswers.CloseErrorIff` | dice/libltdl/ltdl.c:3780-3846 | a close reports an error exactly for a handle that is not registered, and then changes nothing, and for a resident one |
| `RegistryAnswers.UnloadInOrder` | dice/libltdl/ltdl.c:2971-2990 | dependencies are given back one after the other, first to last |
| `RegistryAnswers.OwnFileFirst` | dice/libltdl/ltdl.c:3811-3829 | a handle's own file is closed before its dependencies are given back |
| `RegistryAnswers.LoaderAddPlaces` | dice/libltdl/ltdl.c:4298-4370 | a loader is put in front of the first occurrence of the place, or at the end |
| `RegistryAnswers.LoaderRemoveIff` | dice/libltdl/ltdl.c:4378-4438 | the first loader of the name is taken out exactly when no listed handle belongs to it, else an error is reported and nothing changes |
| `RegistryAnswers.MakeResidentOnly` | dice/libltdl/ltdl.c:4112-4131 | one flag is set and no count, name or dependency changes |
| `RegistryEvolution.CloseInv` | dice/libltdl/ltdl.c:3780-3846 | `lt_dlclose` of a held handle keeps the invariant with that reference gone, only closes at loader level, and reports an error exactly for a resident handle |
| `RegistryEvolution.UnloadInv` | dice/libltdl/ltdl.c:2971-2990 | `unload_deplibs` gives back exactly the references in the array, keeps the invariant and reports no error |
| `RegistryEvolution.SurvivorsTransitive` | dice/libltdl/ltdl.c:3811-3822 | handles that survive several calls keep their relative order |
| `RegistryInvariant.WithoutLemma` | dice/libltdl/ltdl.c:3814-3822 | unlinking a handle nobody depends on keeps the list duplicate-free and every dependency later than its owner, and frees exactly its own dependency entries |
| `RegistryInvariant.DiscardInv` | dice/libltdl/ltdl.c:3804-3835 | when the last reference goes, the handle's dependency references pass to the closer and all counts stay conserved |
| `RegistryInvariant.TakeInv` | dice/libltdl/ltdl.c:2392-2397 | finding a loaded module adds exactly one reference |
| `RegistryInvariant.GiveInv` | dice/libltdl/ltdl.c:3804-3804 | giving back a reference that is not the last keeps the invariant |
| `RegistryOpening.OpenInv` | dice/libltdl/ltdl.c:3030-3415 | `try_dlopen` keeps the invariant over every tree of nested opens: the caller gains one reference to the result, dependency references go to the new handle or are given back, survivors keep order and records, the search path is unchanged |
| `RegistryOpening.FinishArchiveOk` | dice/libltdl/ltdl.c:3322-3348 | the same for each of the three ends of an archive open: nothing opens, already loaded, newly loaded |
| `RegistryOpening.RegisterInv` | dice/libltdl/ltdl.c:3393-3405 | linking a loaded module turns the references to its dependencies into deplibs entries |
| `RegistryOpening.LoadNamesInv` | dice/libltdl/ltdl.c:2925-2944 | loading dependencies leaves the loader of them holding exactly the packed handles |
| `RegistryOpening.OpenTriesInv` | dice/libltdl/ltdl.c:3450-3533 | `lt_dlopenext` keeps the invariant over its attempts |
| `RegistryDeplibs.LoadsInReverse` | dice/libltdl/ltdl.c:2925-2944 | dependencies are opened last name first, and the handles that could be opened are packed in that order |
| `RegistryDeplibs.LoadDeplibsPath` | dice/libltdl/ltdl.c:2831-2963 | in every state and through every nested load the search path has its original value afterwards, and the nested opens leave it extended by the directories of the dependency string |
| `RegistryDeplibs.OpenPath` | dice/libltdl/ltdl.c:3030-3415 | no open, successful or not, changes the search path |
| `RegistryExit.CloseLighter` | dice/libltdl/ltdl.c:3780-3846 | a close of a non-resident handle lowers the work left, in any list, however far it cascades, and keeps the order of what stays |
| `RegistryExit.PassProgress` | dice/libltdl/ltdl.c:2319-2333 | a pass of `lt_dlexit` that closes something lowers the work left; one that closes nothing changes nothing |
| `RegistryExit.LevelProgress` | dice/libltdl/ltdl.c:2316-2338 | every level closes something or comes closer to the smallest count: the last `lt_dlexit` terminates on every list |
| `RegistryExit.ExitLeavesResidents` | dice/libltdl/ltdl.c:2306-2338 | the last `lt_dlexit` reads nothing freed and leaves only resident handles when no handle that may be closed depends on one that may be freed |
| `RegistryExit.ExitDangles` | dice/libltdl/ltdl.c:2321-2334 | for every list that starts with a non-resident handle with one reference whose only dependency follows it with one reference, `lt_dlexit` goes on through the freed handle |
| `RegistryExit.NextFreedIff` | dice/libltdl/ltdl.c:2323-2331 | closing a visited handle that a client holds frees the saved next handle exactly when, without that reference, nothing held or resident leads to the next one |
| `RegistryExitCounts.SkipResidentIs` | dice/libltdl/ltdl.c:2310-2313 | what is skipped are the resident handles up to the first that is not |
| `RegistryExitCounts.PassCounts` | dice/libltdl/ltdl.c:2319-2333 | without live dependencies a pass takes one reference from every handle it comes past that is not resident and not above the level, frees it with the last one, and touches no other |
| `RegistryExitCounts.ExitFrees` | dice/libltdl/ltdl.c:2306-2338 | without live dependencies the last `lt_dlexit` frees exactly the handles that are not resident and leaves the records of the others as they were |
| `RegistryLevelOne.LevelOneIff` | dice/libltdl/ltdl.c:2319-2333 | from every registry that keeps the invariant the first pass of `lt_dlexit` goes on through a freed handle exactly when some visit closes a handle that, at that moment, owns all references to the non-resident handle behind it |
| `RegistryLevelOne.NextAfterClose` | dice/libltdl/ltdl.c:2324-2331 | during that pass, whatever it has closed before, a close leaves the handle behind linked exactly when that is not so |
| `RegistryLevelOne.ExitTrips` | dice/libltdl/ltdl.c:2306-2338 | in that case the last `lt_dlexit` fails so, when the first handle is not resident |
| `Libltdl.Library.constructor` | dice/libltdl/ltdl.c:2203-2249 | the registry after `lt_dlinit`: empty, no search path |
| `Libltdl.Library.Close` | dice/libltdl/ltdl.c:3780-3846 | the list scan, the unlinking and the cascade have exactly the state and error count whose effect `CloseCascade` characterises |
| `Libltdl.Library.UnloadDeplibs` | dice/libltdl/ltdl.c:2971-2990 | the loop closes each non-resident dependency in order and sums the errors |
| `Libltdl.Library.TryAllDlopen` | dice/libltdl/ltdl.c:2360-2455 | the first listed handle with the file gains a reference, else the first loader in the list that accepts is called with the file, else nothing changes |
| `Libltdl.Library.FindHandle` | dice/libltdl/ltdl.c:2376-2392 | the first handle of the file, or none |
| `Libltdl.Library.FindAccepting` | dice/libltdl/ltdl.c:2425-2436 | the first loader that accepts, or none |
| `Libltdl.Library.FindModule` | dice/libltdl/ltdl.c:2508-2553 | candidates are tried in order until one is found or opened |
| `Libltdl.Library.TryDlopenSelf` | dice/libltdl/ltdl.c:3062-3080 | the code has the result and state that `OpenSelfIsProgram` and `OpenSelfCorruptsIff` describe |
| `Libltdl.Library.TryDlopen` | dice/libltdl/ltdl.c:3030-3415 | the code of an open has the result and state of the function that `OpenInv` and `OpenAlike` are about |
| `Libltdl.Library.FinishArchive` | dice/libltdl/ltdl.c:3322-3348 | dependencies are given back when nothing opens or the module was loaded, else they are handed over |
| `Libltdl.Library.OpenExt` | dice/libltdl/ltdl.c:3450-3533 | attempts stop at the first success |
| `Libltdl.Library.LoadDeplibs` | dice/libltdl/ltdl.c:2808-2968 | both passes over the string, the loading loop and the restored search path together |
| `Libltdl.Library.LoadNamesLoop` | dice/libltdl/ltdl.c:2925-2944 | the packed array is what loading the names in reverse order returns |
| `Libltdl.Library.LoaderAdd` | dice/libltdl/ltdl.c:4298-4370 | the loader goes in front of the place, or to the end |
| `Libltdl.Library.LoaderRemove` | dice/libltdl/ltdl.c:4378-4438 | the first loader of the name goes, unless there is none or a listed handle uses it |
| `Libltdl.Library.FindLoaderIndex` | dice/libltdl/ltdl.c:4494-4510 | the first loader of the name, or none |
| `Libltdl.Library.IsInUse` | dice/libltdl/ltdl.c:4394-4405 | whether a listed handle uses the loader |
| `Libltdl.Library.NextOf` | dice/libltdl/ltdl.c:2324-2325 | the handle behind a linked one |
| `Libltdl.Library.ExitPass` | dice/libltdl/ltdl.c:2319-2333 | one pass over the list at a level, with the next handle read before the close |
| `Libltdl.Library.CountResidents` | dice/libltdl/ltdl.c:2310-2313 | the scan stops at the first handle that is not resident |
| `Libltdl.Library.SkipResidents` | dice/libltdl/ltdl.c:2310-2313 | the resident handles at the front leave the list |
| `Libltdl.Library.ExitLevels` | dice/libltdl/ltdl.c:2315-2338 | passes with rising level until the list is empty or only resident handles were seen |
| `Libltdl.Library.Exit` | dice/libltdl/ltdl.c:2306-2352 | the state after the last `lt_dlexit`, to which `ExitLeavesResidents` applies |
| `Canonical.CanonicalizePath` | dice/libltdl/ltdl.c:2555-2616 | the buffer loop stays within its block and its C string is the canonical text |
| `Canonical.CanonIsWritten` | dice/libltdl/ltdl.c:2577-2605 | the loop, read component by component: each component cleaned, with a colon in front of every non-empty component once something is written |
| `Canonical.CleanMeaning` | dice/libltdl/ltdl.c:2588-2605 | a cleaned component is its file names joined by single slashes, rooted exactly when it was |
| `Canonical.CleanVanishes` | dice/libltdl/ltdl.c:2588-2605 | a component becomes empty exactly when it has nothing but slashes |
| `CanonicalLaws.CanonShape` | dice/libltdl/ltdl.c:2555-2616 | for every input: each slash of the output is directly followed by an ordinary character, the output starts with no separator, and its ordinary characters are those of the input in order |
| `CanonicalLaws.CanonNames` | dice/libltdl/ltdl.c:2555-2616 | the non-empty components of the output are the cleaned components of the input that are not empty, in order |
| `CanonicalLaws.CanonTwice` | dice/libltdl/ltdl.c:2555-2616 | applied twice, the result is always those directories joined by single colons, and names the same directories |
| `CanonicalLaws.IdempotentIff` | dice/libltdl/ltdl.c:2577-2605 | applying it twice equals applying it once exactly when no component of slashes only comes after a component that names something |
| `CanonicalLaws.WrittenLength` | dice/libltdl/ltdl.c:2577-2605 | the output is longer than the joined directories by exactly its stray colons |
| `CanonicalLaws.StrayCountZero` | dice/libltdl/ltdl.c:2577-2605 | there is no stray colon exactly when no slash-only component follows a named one |
| `ArgzSpec.EntriesEncode` | dice/libltdl/ltdl.c:734-768 | enumerating a vector gives back the list it was made of |
| `ArgzSpec.CreateSepEntries` | dice/libltdl/ltdl.c:614-667 | the vector made of a string holds its components with separator runs folded: the non-empty ones in order, and an empty last one exactly when the last component is empty |
| `ArgzSpec.InsertEntry` | dice/libltdl/ltdl.c:677-727 | inserting at any byte of a vector is inserting into the list before the entry that byte belongs to |
| `ArgzSpec.AppendEntry` | dice/libltdl/ltdl.c:572-604 | appending to a vector is appending to the list |
| `ArgzSpec.StringifyJoins` | dice/libltdl/ltdl.c:779-796 | read as a C string, the stringified vector is its entries joined by the separator, unless the first of several is empty: then it reads as empty |
| `Argz.Vector.CreateSep` | dice/libltdl/ltdl.c:614-667 | the two-pointer loop fills its block within bounds with the folded components |
| `Argz.Vector.Realloc` | dice/libltdl/ltdl.c:527-562 | the new block starts with the old contents |
| `Argz.Vector.Append` | dice/libltdl/ltdl.c:572-604 | the vector becomes its contents, the entry and a NUL |
| `Argz.Vector.OpenGap` | dice/libltdl/ltdl.c:699-724 | the bytes behind the offset move up by the entry's length, the rest stays |
| `ArgzSpec.InsertBehindIff` | dice/libltdl/ltdl.c:699-720 | from an offset behind a vector an insertion appends, unless a NUL is among the bytes from the vector's end to the offset; then the length to move wraps around |
| `Argz.Vector.EntryStart` | dice/libltdl/ltdl.c:699-700 | the scan back from any offset within the block and the bytes behind it |
| `Argz.Vector.Insert` | dice/libltdl/ltdl.c:677-727 | the scan back to the start of the entry, then the gap; an offset behind the vector is scanned back from through the bytes that follow it, and the length to move wraps around exactly when the scan stops among them |
| `Argz.Vector.Next` | dice/libltdl/ltdl.c:734-768 | the start of the vector, the byte behind the entry's NUL, or nothing at the end |
| `Argz.Vector.EntryAtOffset` | dice/libltdl/ltdl.c:734-768 | the C string at an offset |
| `Argz.Vector.Stringify` | dice/libltdl/ltdl.c:779-796 | every NUL but the last, and but one at the very front, becomes the separator |
| `SearchPath.Variable.constructor` | dice/libltdl/ltdl.c:2203-2249 | the path is unset at first |
| `SearchPath.Variable.PathInsertDir` | dice/libltdl/ltdl.c:3953-4022 | split, insert or append, stringify; an unset path becomes the directory; an offset behind the vector appends, or wraps when a NUL lies before it |
| `SearchPath.Variable.Add` | dice/libltdl/ltdl.c:4024-4040 | a non-empty directory is appended, an empty one changes nothing |
| `SearchPath.Variable.InsertBefore` | dice/libltdl/ltdl.c:4042-4074 | an offset outside the text is an error that changes nothing; every other offset is accepted: inside the vector of any text the directory is inserted there, behind the vector it is appended unless a NUL is among the uninitialised bytes read, and then the length to move wraps around; without an offset it is appended |
| `SearchPath.Variable.Set` | dice/libltdl/ltdl.c:4076-4098 | the path becomes the canonical text, or unset for an empty one |
| `SearchPathLaws.RoundTripIff` | dice/libltdl/ltdl.c:614-796 | splitting and stringifying a path that names a directory gives the text back exactly when folding changes nothing |
| `SearchPathLaws.UnfoldedIff` | dice/libltdl/ltdl.c:640-655 | folding changes nothing exactly when every component but the last is non-empty |
| `SearchPathLaws.AddAppendsIff` | dice/libltdl/ltdl.c:3953-4040 | adding to a set path appends the directories exactly when the path names one already or none is added |
| `SearchPathLaws.LostDirectory` | dice/libltdl/ltdl.c:3978-4015 | after setting the path to "/" every added directory is lost |
| `SearchPathLaws.AddAppends` | dice/libltdl/ltdl.c:4024-4040 | from an unset path or a join of directories, adding a directory appends it to the list |
| `SearchPathLaws.EntryIsComponent` | dice/libltdl/ltdl.c:3996-4007 | the entry an offset points into after splitting is the component it points into in the text |
| `SearchPathLaws.InsertPlaces` | dice/libltdl/ltdl.c:4042-4074 | inserting before a valid offset places the directory before the component the offset lies in |
| `SearchPathLaws.SetReplaces` | dice/libltdl/ltdl.c:4076-4098 | setting a path without stray slashes replaces the list by its directories |
| `SearchPathLaws.ApplyRefines` | dice/libltdl/ltdl.c:3953-4098 | each call on the text is the call on the list |
| `SearchPathLaws.RunRefines` | dice/libltdl/ltdl.c:3953-4098 | over every run of adds, inserts and sets the text stands for the list |
| `Folding.VectorLength` | dice/libltdl/ltdl.c:627-665 | the vector of any text is as long as the text with its terminator less the folded colons |
| `Folding.BytePosition` | dice/libltdl/ltdl.c:640-655 | where each character of a text ends up in the vector, with how many entries before it |
| `Folding.SameComponentIff` | dice/libltdl/ltdl.c:3996-4007 | an offset of any text points into the same component of the vector exactly when the colons folded before the end of that component do not carry it past the end |
| `Folding.DirsBeforeIsKept` | dice/libltdl/ltdl.c:640-655 | the colons that are kept before an offset count the directories that end before it |
| `SearchPathOffsets.CanonicalIff` | dice/libltdl/ltdl.c:2577-2605 | a text is canonical exactly when no colon is at an end or beside another and every slash is directly followed by an ordinary character |
| `SearchPathOffsets.FirstEntryIff` | dice/libltdl/ltdl.c:3978-3990 | the first directory becomes the path as given, which is canonical exactly when the directory is |
| `SearchPathOffsets.AddStaysCanonicalIff` | dice/libltdl/ltdl.c:3996-4015 | adding to a canonical path keeps it canonical exactly when the directory is canonical |
| `SearchPathOffsets.UncanonicalEntry` | dice/libltdl/ltdl.c:3978-3990 | an input that does not: a trailing slash |
| `SearchPathOffsets.OffsetInsideIff` | dice/libltdl/ltdl.c:4003-4009 | an accepted offset lies inside the vector exactly when it is at most the length of the text plus one less the folded colons |
| `SearchPathOffsets.OffsetsInsideIff` | dice/libltdl/ltdl.c:4052-4062 | all accepted offsets do exactly when at most two colons are folded |
| `SearchPathOffsets.OffsetOutside` | dice/libltdl/ltdl.c:699-720 | an input with an accepted offset behind the vector |
| `SearchPathOffsets.LandsIff` | dice/libltdl/ltdl.c:3996-4015 | for any text and any offset inside the vector, a new directory is placed before the component the offset lies in exactly when the colons folded up to the end of that component do not carry the offset past it |
| `SearchPathOffsets.NothingFoldedLands` | dice/libltdl/ltdl.c:3996-4015 | in particular when no colon is folded up to there |
| `SearchPathOffsets.FoldedInFront` | dice/libltdl/ltdl.c:3996-4015 | with a colon folded in front one offset of a component is still right and another no longer |
| `PathWalk.PipelineNames` | dice/libltdl/ltdl.c:2652-2712 | the non-empty entries enumerated from the split canonical text are exactly, in order, the colon-separated components cleaned, those that become empty dropped |
| `PathWalk.EmptyEntryIff` | dice/libltdl/ltdl.c:2680-2703 | an empty entry is enumerated exactly when the path names no directory or a slash-only component comes after the last one that names something |
| `PathWalk.EnumeratedEntries` | dice/libltdl/ltdl.c:2671-2703 | the entries enumerated from any path are its directories, followed by an empty entry exactly under that condition |
| `PathWalk.UnderrunIff` | dice/libltdl/ltdl.c:2694-2699 | the byte in front of the name buffer is read exactly when a base name is appended, such an empty entry is enumerated, and the callback declines every directory before it |
| `PathWalk.PipelineWalk` | dice/libltdl/ltdl.c:2652-2712 | with a base name, or without such an entry, the walk calls back for the directories, once each and in order, until the callback answers, and for nothing else |
| `PathWalk.PathSees` | dice/libltdl/ltdl.c:2682-2709 | the callback is called with the base name in the first directories, a slash between them, in order; it declined all but perhaps the last, whose answer is returned, and 0 only when all were tried |
| `PathWalk.WalkVector` | dice/libltdl/ltdl.c:2682-2709 | the loop over the vector is the walk over its entries |
| `PathWalk.ForeachDirInPath` | dice/libltdl/ltdl.c:2652-2712 | the whole function, on an absent, an empty and any other path |
| `DirListing.InsertInOrder` | dice/libltdl/ltdl.c:3569-3591 | the scan over the vector inserts before the first greater entry and nothing for an equal one |
| `DirListing.InsertSortedAscends` | dice/libltdl/ltdl.c:3569-3591 | insertion keeps a vector strictly ascending in `strcmp` order (section 7.24.4.2 of ISO C11) |
| `DirListing.LessIff` | dice/libltdl/ltdl.c:3580-3586 | `strcmp` is negative exactly when the strings agree up to a place where the first ends or has the smaller character |
| `DirListing.ComputeStem` | dice/libltdl/ltdl.c:3612-3634 | the two backward scans find the end of the extensionless name |
| `DirListing.StemOf` | dice/libltdl/ltdl.c:3612-3634 | every name of the form stem, dot, extension, version maps to its stem, which may contain dots |
| `DirListing.StemIff` | dice/libltdl/ltdl.c:3612-3634 | for every name: dots and digits at the end are cut off if they begin with a dot, then everything from the last dot on, the first character being left alone |
| `DirListing.ListFilesByDir` | dice/libltdl/ltdl.c:3659-3690 | the vector after reading a directory |
| `DirListing.ListingIsSortedSet` | dice/libltdl/ltdl.c:3569-3690 | it is strictly ascending and holds exactly the directory plus stem of every listed name |
| `DirListing.ListingHolds` | dice/libltdl/ltdl.c:3636-3677 | its entries are directory, slash and stem of the names that do not begin with a dot |
| `DirListing.AscendingIsUnique` | dice/libltdl/ltdl.c:3569-3690 | the listing does not depend on the order in which names are read |
| `Deplibs.CountPass` | dice/libltdl/ltdl.c:2838-2872 | the first pass counts the library tokens, adds the directories of `-L` and `-R` tokens to the path in order, and leaves the buffer unchanged |
| `Deplibs.ExtractPass` | dice/libltdl/ltdl.c:2884-2922 | the second pass finds as many tokens as the first, fills the array with their names in order, and leaves the buffer unchanged |
| `Deplibs.TokensOfJoin` | dice/libltdl/ltdl.c:2838-2872 | the tokens of words written with blanks between them are the words |
| `DeplibsLaws.ItemsRead` | dice/libltdl/ltdl.c:2838-2922 | for every list of items written with white space between them: the second pass reads the libraries as lib and name and the files as they stand, in order, the first pass the directories behind -L and -R, in order |
| `DeplibsLaws.EveryText` | dice/libltdl/ltdl.c:2838-2872 | every string is such a list |
| `DeplibsLaws.DirsAppended` | dice/libltdl/ltdl.c:2852-2862 | the directories are appended to those of the search path, in order |
| `DeplibsLaws.WordTaken` | dice/libltdl/ltdl.c:2850-2917 | how each of the four kinds of words is taken |
| `Deplibs.FindEnd` | dice/libltdl/ltdl.c:2844-2848 | the scan stops at the first white space or the end |
| `Deplibs.StartsWith` | dice/libltdl/ltdl.c:2850-2850 | the two-character comparison tells whether the token has the prefix |
| `Deplibs.TerminatedAt` | dice/libltdl/ltdl.c:2852-2858 | the temporary terminator cuts out the token and the byte is put back |
| `Deplibs.NameAt` | dice/libltdl/ltdl.c:2900-2917 | `-lx` is read as `libx`, any other token as it stands (`WordTaken`) |
| `NumberingCode.GetInterfaceNumber` | dice/src/be/BEClass.cpp:2029-2054 | the recursive loop computes the interface number |
| `NumberingCode.FindInterfaceWithNumber` | dice/src/be/BEClass.cpp:2065-2090 | the collection after the search through the bases |
| `NumberingCode.GetMaxOpcodeNumber` | dice/src/be/BEClass.cpp:1969-1987 | the larger of the operation count and the largest uuid: no smaller than either, and equal to one of them |
| `NumberingCode.CheckOpcodeCollision` | dice/src/be/BEClass.cpp:2248-2293 | the range taken by same-numbered bases, or the error when the uuid lies in it |
| `NumberingCode.ScanOperations` | dice/src/be/BEClass.cpp:2116-2157 | the uuids of one interface are collected, or the error for a repeated or colliding one |
| `NumberingCode.FindPredefinedNumbers` | dice/src/be/BEClass.cpp:2103-2161 | the uuids of all collected interfaces, or the error |
| `NumberingCode.CountOperations` | dice/src/be/BEClass.cpp:1933-1944 | the counter loop with its skip loop, which terminates |
| `NumberingCode.GetOperationNumber` | dice/src/be/BEClass.cpp:1889-1949 | the function ID of an operation, or the error |
| `NumberingLaws.InterfaceNumberLeast` | dice/src/be/BEClass.cpp:2029-2054 | without a uuid an interface gets the least positive number above those of its bases |
| `NumberingLaws.FindFacts` | dice/src/be/BEClass.cpp:2065-2090 | the search collects exactly the direct and indirect bases with the number, each once |
| `NumberingLaws.BaseSmaller` | dice/src/be/BEClass.cpp:2065-2090 | nothing is its own base, so the recursions over bases end |
| `NumberingLaws.StartsAfter` | dice/src/be/BEClass.cpp:1910-1930 | although each interface computes its own start, the range of a same-numbered base ends where the derived one has not begun |
| `NumberingLaws.CounterIsNthFree` | dice/src/be/BEClass.cpp:1936-1944 | the counter at the k-th operation is the k-th number above the start that is not predefined |
| `NumberingLaws.CounterBound` | dice/src/be/BEClass.cpp:1936-1944 | it is at most start plus operation count plus number of predefined IDs |
| `NumberingLaws.CounterWithinIff` | dice/src/be/BEClass.cpp:1936-1944 | it stays below a bound exactly when enough numbers up to the bound are free |
| `NumberingLaws.ScanInterfacesFacts` | dice/src/be/BEClass.cpp:2103-2161 | no error means: all uuids collected, all different within and between the interfaces, none in a base's range |
| `NumberingExact.MaxOpcodeIff` | dice/src/be/BEClass.cpp:1969-1987 | that number and no other is `GetMaxOpcodeNumber` |
| `NumberingExact.StartIsTotal` | dice/src/be/BEClass.cpp:1910-1930 | the function IDs of an interface start behind the sum of the ranges of its bases with its number, each counted once however often it is inherited |
| `NumberingExact.InterfaceNumberIff` | dice/src/be/BEClass.cpp:2029-2054 | the interface number is the uuid, or the least positive number above those of the bases |
| `NumberingExact.AcceptedIff` | dice/src/be/BEClass.cpp:2103-2161 | dice numbers the operations, instead of stopping with an error, exactly when the uuids of the interface and its same-numbered bases all differ and each passes the check of its interface |
| `NumberingExact.NumberIff` | dice/src/be/BEClass.cpp:1889-1949 | an operation with a uuid has it as function ID, with a range its lower end; the k-th operation of the interface, if it has none, has the k-th number beyond the start that no uuid of the interface or its same-numbered bases takes |
| `NumberingExact.CountsOnFromBase` | dice/src/be/BEClass.cpp:1889-1987 | over a base with count and uuids known, plain operations count on from the larger of the count and the largest uuid |
| `NumberingExact.CheckedIff` | dice/src/be/BEClass.cpp:2262-2265 | the check of a uuid looks at exactly the bases reached through same-numbered interfaces |
| `NumberingExact.UuidOverBaseIff` | dice/src/be/BEClass.cpp:2248-2293 | over a single base it passes exactly outside the range of the base |
| `NumberingUnique.WithinInterface` | dice/src/be/BEClass.cpp:1889-1949 | in an accepted interface with any mix of operations the numbering is injective; operations without uuid have increasing IDs in declaration order, clear of every uuid of same-numbered bases, at most start plus position plus number of predefined IDs |
| `NumberingUnique.FitsIff` | dice/src/be/BEClass.cpp:1969-1987 | `GetMaxOpcodeNumber` bounds the ID of an operation exactly when the operations up to it and the uuids beyond the start fit into it together |
| `NumberingUnique.UuidFirstDoesNotFit` | dice/src/be/BEClass.cpp:1969-1987 | counterexample: a uuid operation declared before a plain one |
| `NumberingUnique.AcceptedIsReserved` | dice/src/be/BEClass.cpp:2248-2293 | the collision check keeps the positive uuids of an interface above the ranges of its bases, when same-numbered bases are reached through same-numbered interfaces |
| `Guards.UuidCheckIff` | dice/src/be/BEClass.cpp:2248-2293 | a uuid passes the check exactly when it is not positive or lies above the sum of the ranges the check looks at |
| `Guards.UuidCheckGuardsIff` | dice/src/be/BEClass.cpp:2248-2293 | the check keeps every positive uuid beyond the start of the interface exactly when that sum is not below the start |
| `Guards.SkippedBase` | dice/src/be/BEClass.cpp:2262-2265 | an accepted graph where it does not: a same-numbered base behind an interface with another number, whose operation collides with the uuid |
| `NumberingCode.CompareOperations` | dice/src/be/BEClass.cpp:2191-2239 | the double loop over the operations of two interfaces finds equal function IDs |
| `NumberingCode.CheckPair` | dice/src/be/BEClass.cpp:2191-2239 | the bases of the first are checked, then the two are compared |
| `NumberingCode.CheckSiblings` | dice/src/be/BEClass.cpp:2168-2185 | every direct base is compared with each of its successors |
| `Guards.PairFailsIff` | dice/src/be/BEClass.cpp:2191-2239 | two interfaces fail against each other exactly when they share their number and some pair of their operations cannot be numbered or has one function ID; their order does not matter |
| `Guards.SiblingsPassIff` | dice/src/be/BEClass.cpp:2168-2239 | the check passes exactly when the direct bases of the interface, and of every interface reached through bases that have a successor, have pairwise different function IDs where they share a number |
| `Guards.TwoLevelsIff` | dice/src/be/BEClass.cpp:2168-2239 | over bases without bases, OUT functions and ranges the check passes and the interface shares no function ID with a base of its number exactly when the switch has no repeated label |
| `Guards.TwoLevelsSafe` | dice/src/be/BEClass.cpp:2168-2239 | with OUT functions and ranges these two together still leave no repeated label |
| `Guards.TwoLevelsFitIff` | dice/src/be/BEClass.cpp:2168-2239 | when the bases of the interface's number have their IDs within their ranges, the check alone is exact |
| `Guards.OverflowMissed` | dice/src/be/BEClass.cpp:1969-1987 | an accepted two-level graph that passes the check with a repeated label: a base whose uuid, declared first, pushes its other operation beyond its range to the number of the derived operation |
| `Guards.CousinsMissed` | dice/src/be/BEClass.cpp:2168-2239 | one level deeper it passes a graph whose two roots collide |
| `NumberingUnique.IdsDisjoint` | dice/src/be/BEClass.cpp:1889-1949 | IDs of an interface and of a base with its number differ, and plain ones lie above, with uuids on both sides, when the base fits its range |
| `NumberingUnique.PlainAboveBases` | dice/src/be/BEClass.cpp:1889-1949 | for every inheritance graph without operation uuids all IDs of an interface lie above all IDs of every transitive base sharing its number |
| `Dispatch.OpcodeDecodes` | dice/lib/opcodes/sensor.cc:45-46 | shifting and masking an opcode gives back interface number and function ID |
| `Dispatch.DispatchFunction.AddOwnCases` | dice/src/be/BEDispatchFunction.cpp:168-182 | operations that are no OUT functions are appended in order, ranges to one list, the rest to the other |
| `Dispatch.DispatchFunction.AddSwitchCases` | dice/src/be/BEDispatchFunction.cpp:163-191 | both lists grow by the cases of the interface and, depth first, of its bases |
| `Dispatch.OwnCasesAscend` | dice/src/be/BEDispatchFunction.cpp:168-182 | the cases of one interface are in the order of declaration |
| `Dispatch.VisitsInOrder` | dice/src/be/BEDispatchFunction.cpp:184-190 | an interface is visited before its bases, each base with all below it before the next |
| `Dispatch.CasesAreVisits` | dice/src/be/BEDispatchFunction.cpp:184-190 | the cases are those of the interfaces in the order of the visits, repeated visits included |
| `Dispatch.NoDupIff` | dice/src/be/BEDispatchFunction.cpp:184-190 | a case is collected twice exactly when an interface that has one is reached twice |
| `Collisions.SameOpcodeIff` | dice/src/be/BEClass.cpp:1220-1284 | two operations share an opcode exactly when they share interface number and function ID |
| `Collisions.NoCollisionIff` | dice/src/be/BEDispatchFunction.cpp:163-191 | for every graph dice accepts, with numbers inside the opcode word and no absolute uuids: the switch has no two cases with one opcode exactly when no interface with a case is reached twice and interfaces with the same number have different function IDs |
| `Collisions.BaseApartIff` | dice/src/be/BEClass.cpp:1889-1987 | over reserved uuids an interface shares no function ID with a base of its number exactly when it meets none of the IDs that overflow the range of the base |
| `Collisions.OnlyIncomparable` | dice/src/be/BEClass.cpp:1889-1949 | where numbers stay inside their ranges and uuids out of those of the bases, only same-numbered interfaces of which neither derives from the other can collide |
| `Collisions.PlainIds` | dice/src/be/BEClass.cpp:1936-1944 | without uuids the function IDs are consecutive from the start on |
| `Collisions.PlainCollisionIff` | dice/src/be/BEDispatchFunction.cpp:163-191 | for every inheritance graph without operation uuids the switch has no repeated label exactly when no interface with a case is reached twice and no two same-numbered interfaces have labelled operations at the same place of the number line |
| `Collisions.PlainRangesIff` | dice/src/be/BEDispatchFunction.cpp:163-191 | without OUT functions the second condition is that the ID ranges of same-numbered interfaces do not overlap |
| `Collisions.RootsCollide` | dice/src/be/BEClass.cpp:1889-1949 | two different same-numbered interfaces without bases that begin with a labelled operation always collide |
| `Collisions.ChainNoCollision` | dice/src/be/BEClass.cpp:1153-1321 | for every single-inheritance chain without operation uuids with IDs within the mask, all opcodes differ and decode to their numbers |
| `Selection.LabelIs` | dice/src/be/BEClass.cpp:1220-1284 | the label of an absolute uuid is the uuid, any other label is taken apart into interface number and function ID |
| `Selection.RangeHoldsIff` | dice/src/be/BESwitchCase.cpp:195-212 | a range holds the opcodes of its interface from the lower number up to below the upper one, and of no other interface |
| `Selection.AbsoluteRangeHoldsIff` | dice/src/be/BESwitchCase.cpp:195-212 | an absolute range holds the opcodes between its numbers as they are |
| `Selection.SelectFirst` | dice/src/be/BEDispatchFunction.cpp:204-240 | the first range that holds the opcode is taken, the switch only without one |
| `Selection.EveryCaseRunsIff` | dice/src/be/BEDispatchFunction.cpp:204-240 | for any two case lists every switch case runs for its opcode and every range case for all opcodes of its range exactly when opcodes tell the switch cases apart, none lies in a range, and ranges do not overlap |
| `Selection.EveryOperationDispatchedIff` | dice/src/be/BEDispatchFunction.cpp:204-240 | for the lists of a whole graph the first condition is that same-numbered interfaces have different function IDs; a base reached twice does no harm |
| `Selection.DispatchedWithoutRanges` | dice/src/be/BEDispatchFunction.cpp:204-240 | without ranges that condition is all |
| `Selection.RangeCaptures` | dice/src/be/BEClass.cpp:1999-2001 | an operation declared behind a range is numbered inside the range, and the server runs the range's function for it |
| `OpcodeText.ConstantIsOpcode` | dice/src/be/BEClass.cpp:1153-1284 | the written constant, evaluated with the definitions of `dice.h`, is the opcode |
| `OpcodeText.ConstantTextDetermines` | dice/src/be/BEClass.cpp:1220-1284 | equal constant texts name the same base constant and function ID |
| `OpcodeText.MaskIsRemainder` | dice/include/dice/dice.h:71-77 | and-ing with a run of ones is the remainder, for negative numbers too |
| `Expression.WriteToStr` | dice/src/be/BEExpression.cpp:366-421 | the printer appends the text of the tree |
| `Expression.WriteConditionalToStr` | dice/src/be/BEExpression.cpp:426-435 | likewise for a conditional |
| `Expression.WriteBinaryToStr` | dice/src/be/BEExpression.cpp:440-507 | likewise for a binary expression |
| `ExpressionLaws.ReadPrint` | dice/src/be/BEExpression.cpp:366-534 | a reader gives back every tree of non-negative integers, identifiers, operators, conditionals and parentheses in which every operand is a leaf or parenthesised |
| `ExpressionLaws.PrintInjective` | dice/src/be/BEExpression.cpp:366-769 | two such trees with the same text are equal and so have the same integer value |
| `ExpressionLaws.OperandsAmbiguous` | dice/src/be/BEExpression.cpp:440-534 | for every two operators, and every sign before an operator, two different trees with bare operands have one text |
| `ExpressionLaws.LeavesAmbiguous` | dice/src/be/BEExpression.cpp:366-403 | null, empty names, truth values and every negative number print like other trees |
| `ExpressionLaws.ConditionMisjudged` | dice/src/be/BEExpression.cpp:632-637 | an input that is decided wrongly |
| `Operators.DenotesIff` | dice/src/be/BEExpression.cpp:670-739 | every binary operator gives what it denotes in C, and nothing else does: differences, truncating division with its remainder, shifts as repeated doubling and its floor, bitwise operators bit by bit, comparisons and logical operators as 1 or 0 |
| `Operators.DenotesUnaryIff` | dice/src/be/BEExpression.cpp:745-769 | every unary operator likewise |
| `Conditions.BoolValueIs` | dice/src/be/BEExpression.cpp:952-1106 | `GetBoolValue` decides every expression as C decides it with every operand reduced to a truth value and every name to false |
| `Conditions.IntValueIs` | dice/src/be/BEExpression.cpp:577-769 | `GetIntValue` gives every expression the value C gives it with its conditions so reduced |
| `Conditions.OperatorIff` | dice/src/be/BEExpression.cpp:1002-1072 | `GetBoolValue` agrees with a value that is not zero on all operands of a binary operator exactly for multiplication, bitwise or, logical and, logical or |
| `Conditions.UnaryIff` | dice/src/be/BEExpression.cpp:1077-1106 | and of a unary operator exactly for all but the complement |
| `Conditions.ShiftIff` | dice/src/be/BEExpression.cpp:1027-1029 | a left shift is judged rightly exactly for a distance that is not negative or a shifted 0 |
| `Conditions.ConditionsJudgedIff` | dice/src/be/BEExpression.cpp:952-1106 | all conditions over given operators and names are judged rightly exactly when the operators are among those and the names are 0 |
| `Conditions.ValueIff` | dice/src/be/BEExpression.cpp:577-769 | `GetIntValue` gives all expressions with such conditions the value C gives them, operators as `DenotesIff` describes, exactly then |
| `PointerArray.Environment.constructor` | dice/include/dice/dice-corba-types.h:11-13 | any capacity; the original uses ten |
| `PointerArray.Environment.SetPtr` | dice/include/dice/dice.h:268-277 | appends, or refuses a null pointer and a full array |
| `PointerArray.Environment.GetLastPtr` | dice/include/dice/dice.h:279-291 | pops the last pointer and nulls its slot |
| `PointerArray.Environment.MoveDown` | dice/include/dice/dice.h:302-307 | the shifting loop, whose last round copies the slot behind the stored pointers |
| `PointerArray.Environment.CloseGap` | dice/include/dice/dice.h:302-308 | one pointer leaves, the rest keeps its order; the slots behind stay null exactly when the array was not full or the memory behind it is null |
| `PointerArray.Environment.GetNthPtr` | dice/include/dice/dice.h:293-310 | takes out the n-th pointer, or nothing for an index out of range |
| `PointerArray.Environment.GetPtr` | dice/include/dice/dice.h:312-333 | takes out the first occurrence, or nothing |
| `OrderedElements.InsertOrderedElement` | dice/src/be/BEClass.cpp:2515-2530 | insertion before the first element with a greater location |
| `OrderedElements.CreateOrderedElementList` | dice/src/be/BEFile.cpp:314-374 | insertion of all members one after the other |
| `OrderedElements.InsertIsStable` | dice/src/be/BEClass.cpp:2515-2530 | insertion puts an element behind those of its own location and moves no others |
| `OrderedElements.CreateIsStableSort` | dice/src/be/BEClass.cpp:2472-2530 | the list is a permutation of the members, ascending by line then column (classes) or line (files), equal locations in insertion order |
| `Indirection.WriteIndirect` | dice/src/be/BEDeclarator.cpp:661-717 | one declaration per pointer level, each with one underscore more and one star less |
| `Indirection.WriteIndirectInitialization` | dice/src/be/BEDeclarator.cpp:730-757 | each variable but the last is assigned the address of the next |
| `Indirection.WriteIndirectInitializationMemory` | dice/src/be/BEDeclarator.cpp:767-868 | one allocation per pointer level, from the first helper variable on, or from the parameter itself for a constructed type |
| `Indirection.WriteCleanup` | dice/src/be/BEDeclarator.cpp:875-918 | one free or deferred free per pointer level |
| `Indirection.Emit` | dice/src/be/BEDeclarator.cpp:661-918 | for every star count and number of unbounded dimensions: the first variable has all stars, each next one star less, down to the unbounded dimensions, or to one star for a pointer, or to none; each but the last is assigned the address of the next; there are as many allocations, to the variables assigned from, or for a constructed type without stars left over to those assigned to; the names freed or deferred are those allocated, once each |

## Left out

- ExitLeavesResidents: one direction only, for all passes together. The first pass is exact (`LevelOneIff`);
  whether a later pass meets freed memory depends on handles closed while others still list them.
- InsertBefore: what `memmove` does with a length that wrapped around; in that case the method only reports it.
- Stringify: vectors of fewer than two bytes, on which the original's counter wraps around; every caller
  has just inserted a non-empty entry.
- Conservation: exact for non-resident handles only; `unload_deplibs` skips resident ones, whose counts
  may stay above the references to them.
- NoCollisionIff: absolute uuids are excluded, since their opcodes bypass shift and mask; `EveryCaseRunsIff`
  covers them.
- CloseInv: the error count without the return codes of `module_close`, which the original adds.
- UnloadInv: likewise.
- Libltdl.Library.Close: likewise.
- Libltdl.Library.UnloadDeplibs: likewise.
- Libltdl.Library.LoaderRemove: the return code of the loader's exit callback.
- Libltdl.Library.Exit: the error count, with the codes of `module_close` and of the loaders' exit callbacks.
- Libltdl.Library.FindModule: the names it tries are part of the request.
- Libltdl.Library.OpenExt: that a later attempt is made only after a failure of the kind "file not found".
- NumberingCode.FindInterfaceWithNumber: the count it returns, which no caller uses.
- NumberingCode.FindPredefinedNumbers: likewise; and warning mode for duplicate function IDs.
- NumberingCode.ScanOperations: warning mode.
- NumberingCode.CheckOpcodeCollision: warning mode.
- NumberingCode.CompareOperations: warning mode.
- ConstantIsOpcode: the opcode word is an unsigned word of 32 bits, number and ID fit it.
- Emit: bounded array dimensions, pointer types and `transmit_as` types.
- PrintInjective: integer values without 32-bit wrap-around; shifts by a negative number and division by
  zero give 0 (the original skips the division and leaves the shift undefined).
- DenotesIff: likewise.
- ConditionsJudgedIff: likewise; a product of two numbers that are not 0 may wrap around to 0.
- Allocation failure, mutexes, error strings and `caller_data`.
- Assertions: they are taken as compiled out, as in builds without `assert.h` (`ltdl.c:123-127`); where they
  are compiled in, some of the inputs above abort instead.
- Reuse of a freed handle's address by a later allocation.
- The record of a closed handle is dropped when it is unlinked; the original frees it after giving its
  dependencies back, which only a handle that depends on itself could notice.
- Reading of `.la` files, environment variables, directories and file access: their results are part of a
  request. Which candidate names `find_module` tries, and when `lt_dlopenext` stops after a failure, are
  part of it too; requests are finite, so dependency files that name each other in a circle are not covered.
- The system loaders, the Windows directory emulation and `lt_dlsym`.
- Character, string, float and sizeof leaves and `GetStringValue`.
- Sizes and attributes in emitted allocations, and `GetEmptyArrayDims`, whose result is an input.
- Trace plugins, file writers, name and class factories, option parsing and the front end.
