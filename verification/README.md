# Replacement library code of coreutils and glibc, verified

A Dafny model of the C code that the gnulib tests of coreutils and the test
skeleton of glibc bring along, and proofs of what that code promises.

`dafny verify dfyconfig.toml` checks the whole project.

* **The string pool `struniq`** (`StringHash`, `Struniq`, `StruniqInvariant`,
  `StruniqTheorems`, `StruniqCalls`, `StruniqProgress`, `StruniqRefinement`). Any number of threads share one heap,
  one table of 257 bucket heads and one lock. `Struniq.Step` is the transition
  function; each action makes at most one access to shared memory, `malloc`
  returns any unallocated address (freed addresses may come back) or fails, and
  touching memory that is not allocated or not initialised is a state of its own.
  The inductive invariant is proved step by step; the theorems about whole runs
  follow, up to linearizability: every run is matched move by move by a run of a
  pool in which a call takes effect in one indivisible step, with the argument it
  was made with, and gives up exactly where `malloc` fails.
* **The address parsers** (`Inet4`, `Inet6Grammar`, `Inet6Scan`, `Inet6`). The
  loops over buffers are proved against a grammar (section 2.2 of RFC 1884, as the
  code bounds it) and a printer, in both directions.
* **Locale selection** (`CText`, `LocaleTables`, `LocaleParts`, `LocaleSystem`,
  `LocaleResolution`, `LocaleEnvironment`, `SetlocaleSteps`, `Setlocale`, `Canonicalize`). The C
  library's own `setlocale` is a parameter: a call either accepts a name or changes
  nothing, and the string it shows for a state brings that state back.
* **Smaller cores** (`TempFiles`, `Pow2`, `AtFunc`): the temporary-file list,
  repeated squaring, and the save/change/restore of the working directory.

A C string is modelled by its characters before the NUL. Name tables are arbitrary
sorted tables; the facts used about them are preconditions (`TablesOk`,
`ShortNames`, `TidyTables`).

Where the code is not what one would expect:

* A `::` in a full address is rejected, although the comment at
  coreutils-8.22/gnulib-tests/inet_pton.c:165 says it is ignored
  (`GapNeedsRoom`). A group is bounded by value, not by digit count.
* Going through LC_ALL is not always the same as setting every category by itself:
  they agree exactly when LC_ALL accepts the LC_CTYPE name and, on native Windows,
  does not leave a bad encoding, or some category rejects its own name
  (`ShortCutAgreesExactlyWhen`, `ShortCutCanFailAlone`, `ShortCutCanFailOnEncoding`).
* A failed request for the default locale is undone, unless the C library shows the
  old state as the empty string and something had changed
  (`AllOrNothingExactlyWhen`, `EmptyNameCanLeaveChanges`).
* `lc_messages_name` keeps the first 63 characters of the name.
* Canonicalising a Mac OS X name twice differs from once exactly for names of the
  form ll-Ssss with a known script and a '-' in the first two characters
  (`IdempotentExactlyWhen`, `NotAlwaysIdempotent`).
* In `pow2`, `y` starts as 2 for every `n`, which lies between 1 and 2^n exactly for
  positive `n`; every later value of `x` and `y` does for every `n`, and the square
  that the early break leaves out never does (`TraceInRange`).

## Model

| member | source | states |
|---|---|---|
| StringHash.ComputeHash | coreutils-8.22/gnulib-tests/localename.c:2518-2528 | the loop computes the rolling hash of the whole string modulo 2^64 |
| StringHash.HashOneMore | coreutils-8.22/gnulib-tests/localename.c:2524-2525 | one more character turns the code left by 9 bits and adds the signed character, modulo 2^64; with the code 0 of the empty string this determines the hash |
| StringHash.ShortAsciiHash | coreutils-8.22/gnulib-tests/localename.c:2521-2527 | up to seven ASCII characters are hashed to the number with these digits to the base 512 |
| StringHash.OneCharacterChangesHash | coreutils-8.22/gnulib-tests/localename.c:2524-2525 | strings that differ in exactly one character never have the same hash code, because every round is a bijection |
| StruniqInvariant.InvStep | coreutils-8.22/gnulib-tests/localename.c:2550-2588 | every action of every thread preserves the invariant that couples program counters, private nodes, lock owner and bucket lists, and only ever adds nodes at the front of a bucket |
| StruniqInvariant.PublishStep | coreutils-8.22/gnulib-tests/localename.c:2582-2583 | storing the new head keeps every bucket a list of distinct strings and disturbs no thread |
| StruniqInvariant.RecompareStep | coreutils-8.22/gnulib-tests/localename.c:2573-2579 | the walk under the lock never meets broken memory; a match is a published node with the string, an end means no node of the bucket has it |
| StruniqTheorems.PoolIsSafe | coreutils-8.22/gnulib-tests/localename.c:2550-2588 | in every reachable state of every interleaving: each bucket is a finite list, each published node is complete and in the bucket of its hash code modulo 257, no string is published twice, no thread has touched memory it must not touch |
| StruniqTheorems.MissMeansAbsent | coreutils-8.22/gnulib-tests/localename.c:2571-2583 | after a miss on the second walk the string is in no bucket, up to the moment of publication |
| StruniqTheorems.ResultIsForever | coreutils-8.22/gnulib-tests/localename.c:2548-2560 | the node a call returned stays published and holds the call's argument in every later state |
| StruniqTheorems.SameArgumentSameNode | coreutils-8.22/gnulib-tests/localename.c:2558-2587 | two calls of a run, by any threads at any times and through any return paths but out-of-memory, return the same node if and only if their arguments are equal |
| StruniqTheorems.OnlyUnpublishedFreed | coreutils-8.22/gnulib-tests/localename.c:2574-2579 | an address that is freed was not published in any earlier state |
| StruniqTheorems.NoLeak | coreutils-8.22/gnulib-tests/localename.c:2562-2583 | in every reachable state a node that a call allocated and nobody freed is either published or owned by exactly one thread, never both and never neither |
| StruniqTheorems.FrozenSuffix | coreutils-8.22/gnulib-tests/localename.c:2558-2560 | what a walking thread still has to visit is a finite list of initialised nodes that no later step of any thread changes |
| StruniqTheorems.WalkIsBounded | coreutils-8.22/gnulib-tests/localename.c:2558-2579 | a walk takes at most two of its thread's steps per node of the list it started on, whatever other threads insert |
| StruniqTheorems.NoDeadlock | coreutils-8.22/gnulib-tests/localename.c:2570-2586 | in every reachable state every thread can move, except one that waits for a lock whose holder can |
| StruniqCalls.PlaceTellsCall | coreutils-8.22/gnulib-tests/localename.c:2550-2588 | in every state of every run, a thread is idle exactly if it made no call; otherwise it works on the argument of its last call, and it has given up exactly if `malloc` failed in that call |
| StruniqCalls.OutOfMemoryOnlyByMalloc | coreutils-8.22/gnulib-tests/localename.c:2562-2567 | a finished call returned the literal "C" if and only if `malloc` failed in it |
| StruniqCalls.EqualCallsEqualNodes | coreutils-8.22/gnulib-tests/localename.c:2548-2588 | two finished calls in which `malloc` did not fail both return a pooled node, and the same one if and only if they were made with equal arguments |
| StruniqCalls.PooledStringIsFound | coreutils-8.22/gnulib-tests/localename.c:2558-2560 | a call whose argument was in the pool when it began only walks its bucket: it never allocates, never takes the lock, and returns the node that was there, whatever other threads do |
| StruniqProgress.CallIsBounded | coreutils-8.22/gnulib-tests/localename.c:2550-2588 | a call makes at most 4 moves per node that its bucket has by then and 11 more, up to and including its return |
| StruniqProgress.CriticalSectionIsBounded | coreutils-8.22/gnulib-tests/localename.c:2570-2586 | the holder of the lock makes at most 2 moves per node that its bucket had when it acquired the lock, and 4 more, before the move that releases it, whatever others do |
| StruniqRefinement.StepRefines | coreutils-8.22/gnulib-tests/localename.c:2550-2588 | forward simulation: a call is an invocation with its own argument, a failing `malloc` is the effect of giving up, a succeeding one is invisible, and any other action is invisible, the effect of finding or adding the string, or the response |
| StruniqRefinement.Linearizable | coreutils-8.22/gnulib-tests/localename.c:2530-2588 | every run is matched state by state and move by move by a run of the atomic pool, with the same arguments, strings, nodes and results, and with out-of-memory results exactly at failing `malloc` calls |
| Inet4.DecimalDenotes | coreutils-8.22/gnulib-tests/inet_pton.c:124-132 | the printed form of an octet denotes it and has no leading zero |
| Inet4.QuadText | coreutils-8.22/gnulib-tests/inet_pton.c:121-151 | a printed quad is its four numbers with a dot between neighbours |
| Inet4.OctetsSound | coreutils-8.22/gnulib-tests/inet_pton.c:121-151 | from every state of the scan, accepted text completes a printed quad with the bytes found |
| Inet4.OctetsComplete | coreutils-8.22/gnulib-tests/inet_pton.c:121-151 | from every state of the scan, text that completes a printed quad is accepted with its bytes |
| Inet4.QuadScan | coreutils-8.22/gnulib-tests/inet_pton.c:112-154 | the scan accepts exactly the canonical dotted quads and inverts the printer |
| Inet4.PrintQuadInjective | coreutils-8.22/gnulib-tests/inet_pton.c:102-106 | different addresses have different accepted strings, so acceptance is a bijection |
| Inet4.ScanQuad | coreutils-8.22/gnulib-tests/inet_pton.c:118-151 | the loop over the four-byte buffer stays inside it and computes the scan |
| Inet4.InetPton4 | coreutils-8.22/gnulib-tests/inet_pton.c:112-154 | returns true exactly on the canonical dotted quads; printing the stored bytes gives the input back; on rejection the destination is unchanged, on acceptance only four bytes are |
| Inet6Scan.ScanQuadTail | coreutils-8.22/gnulib-tests/inet_pton.c:192-232 | a dotted tail with room for it is accepted although its first digits were read as hex; exactly its four bytes are appended |
| Inet6Scan.ParseComplete | coreutils-8.22/gnulib-tests/inet_pton.c:184-263 | every legal spelling is parsed to the address it denotes |
| Inet6Scan.ParseSound | coreutils-8.22/gnulib-tests/inet_pton.c:184-263 | every accepted text is a legal spelling |
| Inet6Scan.ParseDecides | coreutils-8.22/gnulib-tests/inet_pton.c:158-264 | acceptance is equivalent to being a legal spelling, and the result is what any spelling of the text denotes |
| Inet6.OpenGap | coreutils-8.22/gnulib-tests/inet_pton.c:242-259 | for every split point and every length the overlapping shift turns prefix, suffix and zero padding into prefix, zeros and suffix, inside the buffer |
| Inet6.Store | coreutils-8.22/gnulib-tests/inet_pton.c:218-221 | a group is appended to the bytes written, high byte first |
| Inet6.QuadInto | coreutils-8.22/gnulib-tests/inet_pton.c:226-232 | the call for the current token appends exactly the four bytes of the quad, or rejects |
| Inet6.ScanInto | coreutils-8.22/gnulib-tests/inet_pton.c:187-241 | the loop over the buffer computes the scan: bytes written, position of "::", acceptance |
| Inet6.InetPton6 | coreutils-8.22/gnulib-tests/inet_pton.c:171-264 | returns true exactly on the legal spellings, stores exactly the 16 bytes denoted, and leaves the destination unchanged otherwise |
| Inet6.InetPton | coreutils-8.22/gnulib-tests/inet_pton.c:70-99 | dispatch by family; the destination is untouched unless the address is accepted; an unknown family is an error |
| Inet6.FullFormRoundTrip | coreutils-8.22/gnulib-tests/inet_pton.c:190-263 | every address, spelled in full with groups of either case and any leading zeros, with or without a dotted quad, parses back to itself |
| Inet6.GapRoundTrip | coreutils-8.22/gnulib-tests/inet_pton.c:190-263 | every address with any one run of zero groups written as "::", with or without a dotted quad, parses back to itself |
| Inet6.AddressHasSpelling | coreutils-8.22/gnulib-tests/inet_pton.c:174-203 | every address has such spellings, in lower and in upper case |
| Inet6.LoopbackAndMapped | coreutils-8.22/gnulib-tests/inet_pton.c:184-263 | "::1" and "::ffff:" followed by any quad are parsed to their sixteen bytes |
| Inet6Grammar.HexDigitIsIndex | coreutils-8.22/gnulib-tests/inet_pton.c:174 | a character is a digit with value i if and only if it is at index i of "0123456789abcdef" or of its upper-case form |
| Inet6Grammar.FullText | coreutils-8.22/gnulib-tests/inet_pton.c:190-241 | a full spelling is its groups with a colon after each but the last field |
| Inet6.GapNeedsRoom | coreutils-8.22/gnulib-tests/inet_pton.c:242-263 | a text with "::" is an address if and only if fewer than sixteen bytes are written beside it |
| LocaleTables.Search | coreutils-8.22/gnulib-tests/setlocale.c:564-623 | for every sorted table with duplicates and every key the range returned is exactly the set of matching indices, empty if and only if the key is absent |
| LocaleTables.FirstEqual | coreutils-8.22/gnulib-tests/setlocale.c:590-602 | the walk down from a match ends at the first match |
| LocaleTables.LastEqual | coreutils-8.22/gnulib-tests/setlocale.c:603-614 | the walk up from a match ends after the last match |
| LocaleTables.RangeMatches | coreutils-8.22/gnulib-tests/setlocale.c:564-566 | that range is the linear selection of the matching entries, in table order |
| CText.StrCmpFirstDifference | coreutils-8.22/gnulib-tests/setlocale.c:576-580 | the comparison that the tables are sorted by is decided by the first difference, and a proper prefix comes first |
| LocaleParts.PartsAreIntended | coreutils-8.22/gnulib-tests/setlocale.c:640-642 | for every language[_territory][.codeset][@modifier] with parts free of separators, removing the codeset and splitting give back exactly the parts |
| LocaleParts.CutAtFirstDot | coreutils-8.22/gnulib-tests/setlocale.c:645-664 | for every name with a dot, whatever else it holds, exactly the part from the first dot up to the next '@' or the end is left out |
| LocaleParts.TerritorySplit | coreutils-8.22/gnulib-tests/setlocale.c:689-706 | for every name with an underscore, the first one starts the territory, which ends before the next '@' or at the end |
| LocaleParts.CopyWithoutCodeset | coreutils-8.22/gnulib-tests/setlocale.c:645-664 | the three copying loops stay inside the 64-character buffer and leave the name without its codeset in it |
| LocaleParts.SplitTerritory | coreutils-8.22/gnulib-tests/setlocale.c:689-706 | the two 64-character buffers hold language with modifier, and territory |
| LocaleSystem.AbortUnreachable | coreutils-8.22/gnulib-tests/setlocale.c:733-744 | the abort is never reached when table names are shorter than 64 |
| LocaleSystem.FirstOneIsLocal | coreutils-8.22/gnulib-tests/setlocale.c:628-776 | trying candidates for one category changes no other, and the value found does not depend on the state |
| LocaleResolution.CandidatesResolve | coreutils-8.22/gnulib-tests/setlocale.c:628-776 | for every name, in terms of table rows and accepted names only: the name itself; if shorter than 64, without codeset; the first accepted language row for that; then the pair with the least language row and least country row that is accepted or too long for 128 characters; then the first accepted language row; else nothing |
| LocaleResolution.ResolvesOnce | coreutils-8.22/gnulib-tests/setlocale.c:628-776 | that description is met by exactly one result, the one of the ordered list of names |
| LocaleResolution.CountryIsHonoured | coreutils-8.22/gnulib-tests/setlocale.c:723-767 | for ll_CC that is neither accepted nor in the language table, the first accepted pair of rows for ll and CC is taken, and the language alone only if there is none |
| LocaleEnvironment.EnvironIsStrongest | coreutils-8.22/gnulib-tests/localename.c:2706-2737 | the name is v if and only if v is the value of the strongest usable variable of LC_ALL, the category's own and LANG, where empty values and the platform's dummy LANG values are not usable; there is none if and only if none is usable |
| LocaleEnvironment.EachCategoryHasItsVariable | coreutils-8.22/gnulib-tests/setlocale.c:42-71 | LC_COLLATE, LC_CTYPE, LC_MONETARY, LC_NUMERIC, LC_TIME and LC_MESSAGES, set in any environment without LC_ALL, each name the locale of their own category and change that of no other |
| LocaleEnvironment.LcAllOverrides | coreutils-8.22/gnulib-tests/localename.c:2711-2714 | LC_ALL, set in any environment, names the locale of every category |
| LocaleEnvironment.LangIsLastResort | coreutils-8.22/gnulib-tests/localename.c:2719-2734 | LANG, set in any environment, counts for a category exactly if nothing else names it and it is not "UTF-8" on Mac OS X or "C.UTF-8" on Cygwin |
| LocaleEnvironment.EmptyIsUnset | coreutils-8.22/gnulib-tests/localename.c:2712-2720 | setting any variable to the empty value is the same as unsetting it |
| Setlocale.Process.TryPair | coreutils-8.22/gnulib-tests/setlocale.c:733-749 | the two parts are joined in a 128-character buffer and tried, or the program aborts, exactly as the candidate says |
| Setlocale.Process.TryRows | coreutils-8.22/gnulib-tests/setlocale.c:730-750 | the nested loops try the language and country pairs in row order and stop at the first success |
| Setlocale.Process.TrySplit | coreutils-8.22/gnulib-tests/setlocale.c:689-771 | the first pair of language row and country row that is accepted or too long, in row order; only if there is none, the first accepted language row |
| Setlocale.Process.TryTables | coreutils-8.22/gnulib-tests/setlocale.c:645-771 | name without codeset, language-table matches, then the split |
| Setlocale.Process.SetlocaleUnixlike | coreutils-8.22/gnulib-tests/setlocale.c:625-776 | settles on the name that the table rows determine (CandidatesResolve) and equals first success over one ordered list of names; without success nothing has changed |
| Setlocale.Process.SetMessages | coreutils-8.22/gnulib-tests/setlocale.c:785-799 | the buffer holds the prefix of the name of length 63, or all of a shorter name, terminated |
| Setlocale.Process.SetlocaleSingle | coreutils-8.22/gnulib-tests/setlocale.c:787-806 | sets one category, or the buffer for LC_MESSAGES, which cannot fail |
| Setlocale.Process.SetOthers | coreutils-8.22/gnulib-tests/setlocale.c:856-874 | the loop sets exactly the categories whose name differs from the base name, and LC_MESSAGES where it is kept apart, stopping at the first failure |
| Setlocale.Process.SetDefaultLocale | coreutils-8.22/gnulib-tests/setlocale.c:814-885 | outcome and final state of the whole request, rollback included; on failure everything, lc_messages_name included, is as on entry if and only if the old locale could not be saved, or its name is not empty, or nothing had changed; on success every category has its chosen name |
| Setlocale.Process.SetAll | coreutils-8.22/gnulib-tests/setlocale.c:896-935 | exactly when an explicit name for LC_ALL succeeds, fails or aborts, and the state after each: the first accepted candidate, or the old state, or what the rollback makes of a bad encoding |
| Setlocale.NamedRequestByRows | coreutils-8.22/gnulib-tests/setlocale.c:896-929 | on native Windows an explicit name for LC_ALL that the rows resolve succeeds if and only if it does not ask for an encoding while LC_CTYPE is left at "C"; then the state is the resolved one, and otherwise the old one if its name is not empty and restores it |
| Setlocale.ValueByRows | coreutils-8.22/gnulib-tests/setlocale.c:625-776 | the value a category gets for a name is the one that the rows determine |
| Setlocale.Process.RplSetlocale | coreutils-8.22/gnulib-tests/setlocale.c:808-936 | outcome and state for every category and every locale argument; a query changes nothing; a failed call leaves everything as it was when the saved name restores it and is not empty; LC_ALL with "" and success leaves every category at its chosen name |
| SetlocaleSteps.EmptyNameCanLeaveChanges | coreutils-8.22/gnulib-tests/setlocale.c:880-884 | a concrete C library that shows its state as "" and whose LC_CTYPE is changed after the failed request |
| SetlocaleSteps.SetEachResult | coreutils-8.22/gnulib-tests/setlocale.c:856-874 | setting a list of categories succeeds if and only if each accepts its name; either way exactly those before the first rejection have been set, to their chosen names |
| SetlocaleSteps.RejectionStopsTheRest | coreutils-8.22/gnulib-tests/setlocale.c:817-874 | the order is LC_NUMERIC, LC_TIME, LC_COLLATE, LC_MONETARY, LC_MESSAGES: after one that rejects its name, the later ones have what LC_ALL gave them |
| SetlocaleSteps.FailureIsRecoverable | coreutils-8.22/gnulib-tests/setlocale.c:816-885 | a failed request has not touched lc_messages_name, which the rollback string does not cover, because LC_MESSAGES comes last and cannot fail |
| SetlocaleSteps.AllOrNothingExactlyWhen | coreutils-8.22/gnulib-tests/setlocale.c:829-884 | a failed request leaves every category and lc_messages_name unchanged if and only if the old locale could not be saved, or the saved name is not empty, or LC_ALL rejects the base name or its values and those set before the first rejection are the old ones |
| SetlocaleSteps.SuccessSetsChosenNames | coreutils-8.22/gnulib-tests/setlocale.c:837-878 | after success every category has the value of its own environment-chosen name |
| SetlocaleSteps.FastResult | coreutils-8.22/gnulib-tests/setlocale.c:837-874 | the way through LC_ALL succeeds if and only if LC_ALL accepts the LC_CTYPE name, without a bad encoding on native Windows, and every category accepts its own name |
| SetlocaleSteps.EncodingDecides | coreutils-8.22/gnulib-tests/setlocale.c:847-854 | on native Windows, when LC_ALL and every category accept, the steps fail if and only if the name has a '.' and LC_CTYPE was left at "C" |
| SetlocaleSteps.ShortCutAgreesExactlyWhen | coreutils-8.22/gnulib-tests/setlocale.c:837-874 | the way through LC_ALL has the outcome and final state of setting every category separately if and only if LC_ALL accepts the LC_CTYPE name without a bad encoding, or some category rejects its own |
| SetlocaleSteps.ShortCutCanFailAlone | coreutils-8.22/gnulib-tests/setlocale.c:845-846 | a concrete system and environment where only the way through LC_ALL fails, because LC_ALL rejects the name |
| SetlocaleSteps.ShortCutCanFailOnEncoding | coreutils-8.22/gnulib-tests/setlocale.c:847-854 | a concrete native system where LC_ALL and every category accept and only the way through LC_ALL fails, because of the encoding |
| SetlocaleSteps.SystemGivesSameEverywhere | coreutils-8.22/gnulib-tests/setlocale.c:837-845 | when LC_ALL acceptance by the C library carries over to the candidate lists |
| Canonicalize.Find | coreutils-8.22/gnulib-tests/localename.c:1331-1345 | the half-open search finds a key exactly when it is in the strictly sorted table, and what it finds is what a linear lookup finds |
| Canonicalize.LegacyGuard | coreutils-8.22/gnulib-tests/localename.c:1329 | the test of the first letter hides no legacy name |
| Canonicalize.LangtagGuard | coreutils-8.22/gnulib-tests/localename.c:1353 | the test of length and dash hides no language tag |
| Canonicalize.ReplaceDashes | coreutils-8.22/gnulib-tests/localename.c:1396-1402 | the loop turns every '-' into '_' and nothing else |
| Canonicalize.CanonicalizeName | coreutils-8.22/gnulib-tests/localename.c:1141-1403 | the rewriting in place: a name in a legacy row becomes the right side of that row; else one in a language-tag row that of that row; else ll-Ssss with Ssss in a script row becomes ll@ and the right side; else only '-' changes, to '_' |
| Canonicalize.CanonicalByRows | coreutils-8.22/gnulib-tests/localename.c:1328-1402 | these rules about rows are met by exactly one result, that of the linear specification |
| Canonicalize.IdempotentExactlyWhen | coreutils-8.22/gnulib-tests/localename.c:1328-1402 | canonicalising twice equals once if and only if the name is not ll-Ssss with a known script and a '-' among its first two characters |
| Canonicalize.NotAlwaysIdempotent | coreutils-8.22/gnulib-tests/localename.c:1388-1393 | with tables that meet all the assumptions, "a--Arab" becomes "a-@arabic" and then "a_@arabic" |
| TempFiles.ListedOrder | glibc-2.18/test-skeleton.c:71-86 | the list is the first name added and then the rest from newest to oldest, index by index |
| TempFiles.ListedKeepsNames | glibc-2.18/test-skeleton.c:88-97 | the list holds each name exactly as often as it was added |
| TempFiles.TempNameList.Insque | glibc-2.18/misc/insremque.c:21-41 | after NULL the node stands alone; after any node of a chain it is linked in both directions right behind it and the chain stays well formed |
| TempFiles.TempNameList.AddTempFile | glibc-2.18/test-skeleton.c:71-86 | the chain is well formed and lists the names added so far, the new one included unless memory ran out |
| TempFiles.TempNameList.DeleteTempFiles | glibc-2.18/test-skeleton.c:88-97 | terminates, removes exactly the listed names in order, and empties the list |
| Pow2.Exp2Doubles | coreutils-8.22/gnulib-tests/test-float.c:31 | the reference power of two doubles at every step on both sides of 0 |
| Pow2.LoopMapped | coreutils-8.22/gnulib-tests/test-float.c:44-55 | for every multiplicative f, the loop on values f(e) gives x and y exactly the values f of the exponents that the loop on exponents gives |
| Pow2.ExponentsFit | coreutils-8.22/gnulib-tests/test-float.c:38-56 | the final exponent is done + unit * k, no exponent on the way exceeds it, and twice the last exponent of y does |
| Pow2.TraceInRange | coreutils-8.22/gnulib-tests/test-float.c:31-58 | for every integer n the result is 2^n; every value given to x, and every value given to y but the first, is a power of two between 1 and 2^n; the first, 2, is one if and only if n is positive; without the early break the next square is not one |
| Pow2.Power | coreutils-8.22/gnulib-tests/test-float.c:31-58 | the code gives x and y exactly the values of that trace and returns 2^n |
| Pow2.Ldexp | coreutils-8.22/gnulib-tests/test-frexp.h:17-25 | the two loops multiply by 2^d for every integer d |
| Pow2.PowerAgreesWithLdexp | coreutils-8.22/gnulib-tests/test-frexp.h:17-25 | the fast form agrees with the slow one |
| AtFunc.Process.RestoreCwd | coreutils-8.22/lib/save-cwd.c:84-91 | returns to what was saved, or fails |
| AtFunc.Process.ViaChdir | coreutils-8.22/gnulib-tests/at-func.c:110-140 | dies if and only if the working directory cannot be saved, or cannot be restored once left; otherwise working directory and descriptors are as on entry and either the operation was done once in the directory of fd and its errno survives, or nothing was done and errno says why; a closed fd gives EBADF also when its number was taken for the saved directory |
| AtFunc.Process.AtFunction | coreutils-8.22/gnulib-tests/at-func.c:69-143 | the result, the file system, errno on failure and when the program dies, for invalid flags, absolute names, the attempt through /proc and the way through the working directory; the latter is taken after a failure through /proc exactly for errno ENOTDIR, ENOENT, EPERM, EACCES, ENOSYS and EOPNOTSUPP |

## Left out

- Weak memory: the pool is modelled under sequential consistency; the pointers are `volatile`.
- `size_t` has 64 bits and plain `char` is signed in the model of `string_hash`; other ABIs are not modelled.
- The contents of the name tables: any tables with the stated facts are covered.
- The strings that `rpl_setlocale` returns: only success, failure and the state are modelled.
- The system's `setlocale` is a fixed function of category and name; a library whose answers change over time is not modelled.
- `gl_locale_name_default`: its result is a parameter; the CoreFoundation and Windows calls behind it are not modelled.
- The Windows form of `gl_locale_name_canonicalize`, `gl_locale_name_from_win32_LANGID` and the LANGID tables: large but easy case tables.
- Pow2.Power: real arithmetic without IEEE rounding, and no overflow of `-k` for the least `int`; the exponent range is proved instead.
- `pow2d` and `pow2l` repeat `pow2f` for other types and are covered by Pow2.Power.
- `create_temp_file`, forking, signals and timeouts of the test skeleton: operating-system plumbing.
- AtFunc.Process.AtFunction: assumes that a name under /proc means the same file or that using it fails without effect; `fd_safer` and close-on-exec are not modelled.
- The socket, ioctl and pipe wrappers, `perror`, `strerror_r` and `sleep`: thin calls into the system.
- The `test-*.c` drivers: they check fixed inputs against code in other directories.
