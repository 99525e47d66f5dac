# Verified models of the framework's native core

These Dafny modules model the parts of the framework's native libraries whose correctness is hardest to see from the
code, and prove what that code is for.

* **Resource resolution** (`ResourceConfig`, `ResourcePrecedence`, `ResourceEntry`, `ResourceOverlay`, `BagCache`,
  `BagCycles`, `ResourceBags`, `ResourceInheritance`, `Idmap`, `IdmapFormat`, `Locale`). `ResTable_config::match` and `isBetterThan` over all their axes, including the nonlinear density rule in
  32-bit arithmetic; the one-pass scan of `ResTable::getEntry`; the memoised recursion of `getBagLocked` with its "in
  progress" cells, also on parents that run in circles, and its merge in place; the idmap writer, parser and lookup at
  byte level; packed languages and BCP 47 tags.
* **The common-time service** (`ElectionNode`, `ElectionRounds`, `ElectionSystem`, `CommonTimeServer`, `CommonClock`,
  `ClockRecovery`). Every handler of `CommonTimeServer` as a function on a node and what its outcome means; how
  silence elects a node and how a node joins a master; many nodes with a network that loses, reorders and duplicates,
  and the objects that update their fields running as such a system; exact rational clock rates; the recovery loop
  with its filters and its panic.
* **CursorWindow** (`CursorMemory`, `CursorWindow`, `CursorFormat`). The shared buffer byte by byte - header, chunk chain, field
  directories, blobs - and every operation of the window as a step of a plain table of cells.
* **Attribute lookup** (`AttributeFinder`). The search that remembers its position and package starts against a plain
  linear search.
* **Backup streams** (`BackupStream`, `BackupReader`, `BackupSnapshot`, `BackupDiff`, `BackupRuns`, `BackupFormat`).
  Writer and reader
  of padded entities, the snapshot file, the two-pointer comparison, the transfer of one file, and whole series of
  backup runs.
* **Streaming assets** (`StreamingAsset`). The inflater that produces output piece by piece and the compressed asset
  that may switch to a buffer in mid-stream.

`Common` and `LittleEndian` hold shared types and byte encodings. Code that updates state is modelled by classes,
arrays and loops, each proved equal to a function on values; what the code promises is then proved about those
functions, for all inputs and whole runs. The modules `ResourcePrecedence`,
`ResourceOverlay`, `ResourceInheritance` and those named `...Format` state on the fields, packages, entries and bytes
alone which field decides, which entry is found, what a bag holds and what the files contain.

## Where a promise needs a condition

The conditions below are part of the theorems; each is exact unless said otherwise.

* `isBetterThan` prefers both of two matching configurations exactly when they clash: they carry different scripts or
  variants (by first character) that the device also sets, or one has the default density and the other explicit 160
  dpi while the device asks for 160 dpi or more. It is a strict partial order on a set of matching configurations if
  and only if no two of them clash - for requests up to 32770 dpi and for `DENSITY_NONE`. At every other request,
  32771 to 65533, the products of the density rule wrap and some sets without a clash are not ordered at all
  (`AlwaysOrderedIffInRange`). Below 160 dpi the same pair of densities ends the comparison early; the order stays
  transitive, but ties may then be no equivalence (`StopBreaksTies`). It is a strict weak order if and only if,
  besides, two configurations whose comparison with a third stops always agree on all keys (`StrictWeakOrderIff`).
* The one-pass scan of `getEntry` ends on a configuration that no other beats, in whatever order the chunks come, if
  and only if of every two that clash one is beaten by a third that clashes with neither (`AlwaysUnbeatenIffSettled`).
  Exactly then the order of the chunks decides among ties only (`OrderOnlyBreaksTiesIff`).
* Cached bags agree with plain recursion for every entry whose chain of parents ends. Where parents run in circles
  every answer is plain recursion on the table with one link of each circle cut, the one that leads back to where the
  circle was first entered (`EveryAnswerIsRecursion`). The answer for an entry is the same whatever was asked before
  if and only if the entries of its circle beyond the point where it is entered have, as far as they resolve, no name
  and no flag that is not there before (`OrderIrrelevantIff`). The recursion terminates on every circle.
* An attribute finder answers a query wrongly exactly when the query does not exceed an earlier one of the same run on
  one package and is in the list.
* A parsed idmap answers for every replaced type of the target exactly when no two target types are replaced from the
  same overlay type; otherwise the last one wins.
* A well-formed locale survives printing and parsing exactly when it has a language or is empty: without a language
  the region is taken for one.
* A backup stream reads back completely if and only if no key is empty and the skips fit: `SkipEntityData` keeps the
  position that `lseek` reports in an `int`, so no skip that moves over data may follow one that ended at two
  gigabytes or more, and none may end where the low 32 bits are all ones (`ReadAll`, `SkipsFit`). Streams below two
  gigabytes always fit (`SmallStreamsFit`); three skipped entities of a gigabyte do not (`ThreeGigabytesDoNotFit`).
  Apart from that, skipping the last entity reports an error exactly when its data does not end at a multiple of four.
* After a backup run the backup holds what the new snapshot says exactly when every file that is new or changed could
  be opened; a file that could not keeps its old data, and the snapshot does not remember that.
* `setSlew` installs exactly the rate asked for if and only if the frequency divided by its greatest common divisor
  with 10^6 + ppm is below 2^32; otherwise the denominator is the wanted one modulo 2^32 (`SlewRateIsExact`). For
  clocks below 2^32 Hz that is always so; at 5 GHz it holds for 0 ppm and not for 1 ppm.
* A master with a socket knows the time. One that does not know it arises in exactly two ways: a client that never
  synced loses its socket in a turn and must not set up another one (`BlindAfterTurn`), or such a client has no socket
  and is told to become master by `forceNetworklessMasterMode` (`BlindAfterCall`).

Two branches of the election code are dead. A node would wait for an election only if a device that outranks it asked
for a master of the node's own timeline, but every such request is sent with the invalid timeline
(`libs/common_time/common_time_server_packets.h:86-91`); and on losing its network a node that is neither in its
initial state nor a master always has a timeline, so it never goes back to the initial state there
(`libs/common_time/common_time_server.cpp:343-344`).

The values of the `ACONFIGURATION_*` constants come from the NDK's `android/configuration.h`, which is not part of
this model. Little-endian storage is assumed, as on every device the framework runs on.

## Model

| member | source | states |
|---|---|---|
| ResourceConfig.RuleIsOrderIffOrderable | libs/androidfw/ResourceTypes.cpp:2212-2258 | for every requested density, products in 32 bits: the density rule is transitive, and is the order of a linear key - densities at or above the request closest first, then those below with the factor of two -, if and only if the request is at most 32770 or `DENSITY_NONE` |
| ResourceConfig.AxisComparesKeys | libs/androidfw/ResourceTypes.cpp:2083-2340 | on configurations the device accepts, each axis decides between two of them by an order on one key, its exceptions apart |
| ResourceConfig.DecideIsKeyOrder | libs/androidfw/ResourceTypes.cpp:2083-2340 | for any list of axes: without a clash the whole comparison is the lexicographic order of the keys, cut short where it stops (which axis comes first, and what it compares, is stated field by field in `ResourcePrecedence`) |
| ResourceConfig.MutuallyBetterIffClash | libs/androidfw/ResourceTypes.cpp:2083-2340 | two matching configurations are each better than the other if and only if they clash |
| ResourceConfig.StrictPartialOrderIffNoClash | libs/androidfw/ResourceTypes.cpp:2083-2340 | for every set of matching configurations: irreflexive, asymmetric and transitive if and only if no two clash |
| ResourceConfig.AlwaysOrderedIffInRange | libs/androidfw/ResourceTypes.cpp:2083-2340 | for every device: all sets of matching configurations without a clash are ordered if and only if its density is such a request |
| ResourceConfig.BetterIsTransitive | libs/androidfw/ResourceTypes.cpp:2083-2340 | transitivity over three matching configurations that do not clash, through the density rule and its early stop |
| ResourceConfig.TiedIffStopOrSameKeys | libs/androidfw/ResourceTypes.cpp:2083-2340 | two that do not clash are tied exactly when their comparison stops or all keys agree |
| ResourceConfig.TiesAreTransitiveIff | libs/androidfw/ResourceTypes.cpp:2083-2340 | on every set without clashes, being tied is transitive if and only if two whose comparison with a third stops agree on all keys |
| ResourceConfig.StrictWeakOrderIff | libs/androidfw/ResourceTypes.cpp:2083-2340 | for every set of matching configurations: a strict weak order if and only if no two clash and stopping comparisons agree in that sense |
| ResourceConfig.StopIsNotBridged | libs/androidfw/ResourceTypes.cpp:2212-2258 | no configuration lies between two whose comparison stops at the default density |
| ResourceConfig.ScriptsClash | libs/androidfw/ResourceTypes.cpp:2106-2116 | two configurations that only set different scripts are each better than the other on every device with a script |
| ResourceConfig.StopBreaksTies | libs/androidfw/ResourceTypes.cpp:2212-2258 | below 160 dpi an explicit 160 dpi configuration ties with two of which one beats the other |
| ResourcePrecedence.MaskedFields | include/androidfw/ResourceTypes.h:1006-1101 | for every configuration the parts of `screenLayout`, `uiMode` and `inputFlags` are the bits that the masks cut out of those bytes |
| ResourcePrecedence.MatchesIff | libs/androidfw/ResourceTypes.cpp:2344-2470 | a device accepts a configuration if and only if, field by field, every option is unset or the device's own (a keyboard that is not hidden also fits a soft one) and no size or version exceeds the device's; density, script and variant never reject |
| ResourcePrecedence.ImsiDecides | libs/androidfw/ResourceTypes.cpp:2086-2094 | two accepted configurations that differ in mcc: better if and only if mcc is set; else in mnc likewise |
| ResourcePrecedence.LocaleDecides | libs/androidfw/ResourceTypes.cpp:2096-2104 | agreeing on these, the language decides, then the country: being set is better |
| ResourcePrecedence.VariantDecides | libs/androidfw/ResourceTypes.cpp:2106-2116 | agreeing so far, the script decides and then the variant, each only on a device that has one |
| ResourcePrecedence.WidthDecides | libs/androidfw/ResourceTypes.cpp:2118-2134 | agreeing so far, the larger layout direction is better, then the larger smallestScreenWidthDp |
| ResourcePrecedence.SizeDpDecides | libs/androidfw/ResourceTypes.cpp:2136-2160 | agreeing so far, the larger sum of width and height in dp is better, whichever of them the device sets |
| ResourcePrecedence.LayoutDecides | libs/androidfw/ResourceTypes.cpp:2162-2194 | agreeing so far, the larger size class is better, none counting as normal on a device of at least normal size and losing to an explicit normal; then the aspect, being set |
| ResourcePrecedence.ModeDecides | libs/androidfw/ResourceTypes.cpp:2196-2209 | agreeing so far, orientation, mode type and night mode decide in turn: being set is better |
| ResourcePrecedence.DensityDecides | libs/androidfw/ResourceTypes.cpp:2211-2259 | agreeing so far and of different density: any-density is best; two up to the device's, the larger; two from the device's on, the smaller; across it, the comparison of the product with the square, in 32 bits and, up to 32770 dpi, plain |
| ResourcePrecedence.TouchDecides | libs/androidfw/ResourceTypes.cpp:2261-2263 | agreeing so far, the touchscreen: being set is better |
| ResourcePrecedence.KeysHiddenDecides | libs/androidfw/ResourceTypes.cpp:2266-2282 | agreeing so far, the hidden keyboard: being set is better, and of two that are set the device's own |
| ResourcePrecedence.NavHiddenDecides | libs/androidfw/ResourceTypes.cpp:2284-2294 | agreeing so far, the hidden navigation: being set is better |
| ResourcePrecedence.InputDecides | libs/androidfw/ResourceTypes.cpp:2296-2302 | agreeing so far, the keyboard and then the navigation: being set is better |
| ResourcePrecedence.SizeDecides | libs/androidfw/ResourceTypes.cpp:2305-2326 | agreeing so far, the larger sum of width and height in pixels is better |
| ResourcePrecedence.VersionDecides | libs/androidfw/ResourceTypes.cpp:2328-2340 | agreeing on everything else, the higher sdkVersion is better, then the one with a minorVersion; without a difference neither is |
| ResourceEntry.GetEntry | libs/androidfw/ResourceTypes.cpp:5470-5611 | the loop over packages and chunks with its best-so-far variables finds what a scan over all candidates in order finds, with the flags of all packages and the errors for a missing type or entry (what that is, told from the packages alone, is in `ResourceOverlay`) |
| ResourceEntry.ScanType | libs/androidfw/ResourceTypes.cpp:5489-5576 | one package's part of the scan: overlay lookup, flags, and its chunks offered in order |
| ResourceEntry.CandidatesAreOffers | libs/androidfw/ResourceTypes.cpp:5489-5552 | the candidates are exactly the matching chunks that define the entry, entry ids going through the idmap of an overlay |
| ResourceEntry.LookupIsBest | libs/androidfw/ResourceTypes.cpp:5489-5576 | the entry found comes from a matching chunk that no other matching chunk beats, when of every two that clash one is beaten by a third that clashes with neither; BAD_INDEX exactly when there is none |
| ResourceEntry.LookupWithoutClash | libs/androidfw/ResourceTypes.cpp:5470-5611 | without clashes an entry is found exactly if a chunk matches and defines it, unbeaten, and likewise in every arrangement of the chunks |
| ResourceEntry.AlwaysUnbeatenIffSettled | libs/androidfw/ResourceTypes.cpp:5554-5570 | every arrangement of the same chunks ends the scan unbeaten if and only if that condition on clashes holds |
| ResourceEntry.HarmlessClash | libs/androidfw/ResourceTypes.cpp:5554-5570 | two configurations that differ in script, below one that sets the device's country code: a clash that does no harm |
| ResourceEntry.PairUnbeatenIffNoClash | libs/androidfw/ResourceTypes.cpp:5554-5570 | of two chunks the scan's choice is unbeaten if and only if they do not clash |
| ResourceEntry.OrderOnlyBreaksTies | libs/androidfw/ResourceTypes.cpp:5554-5570 | two arrangements of the same chunks lead to configurations of which neither beats the other: their comparison stops or all keys agree |
| ResourceEntry.OrderOnlyBreaksTiesIff | libs/androidfw/ResourceTypes.cpp:5554-5570 | all arrangements lead to configurations none of which beats another if and only if clashes are settled in the sense above |
| ResourceOverlay.CandidatePlaces | libs/androidfw/ResourceTypes.cpp:5489-5552 | the candidates of the scan are, in order of package and chunk and with none left out, the chunks that match the device and define the entry under the index their package knows it by |
| ResourceOverlay.LookupIsNotReplaced | libs/androidfw/ResourceTypes.cpp:5470-5611 | for every table, told from its packages: an entry is found unless no chunk defines it, with the configuration, value, package and type of its chunk, and no later chunk is better or is an overlay's of the same configuration |
| ResourceOverlay.LookupWinner | libs/androidfw/ResourceTypes.cpp:5554-5570 | where clashes are settled, moreover no chunk at all is better, and the entry comes from the last overlay that has its configuration or, only if no overlay has it, from the first chunk with it |
| ResourceOverlay.FlagsIff | libs/androidfw/ResourceTypes.cpp:5519-5525 | any flags of the entry are clear if and only if every package that knows the entry has flags and leaves them clear |
| BagCache.MergeIsOverride | libs/androidfw/ResourceTypes.cpp:3926-4019 | the merge is ascending, has the names of both lists and no others, and takes the own value on a collision |
| BagCache.PlaceItem | libs/androidfw/ResourceTypes.cpp:3956-4012 | one turn of the merge loop in the array - skip, overwrite, shift and insert, or append beyond the count - keeps what is still to be merged |
| BagCache.BuildAgrees | libs/androidfw/ResourceTypes.cpp:3818-3922 | a call on an entry whose chain of parents ends returns what plain recursion returns, and keeps the cache right even while calls down the same chain are running |
| BagCache.BagOverridesParent | libs/androidfw/ResourceTypes.cpp:3883-4022 | a bag maps each name to the entry's own attribute where it has one and to the parent bag's otherwise, in ascending order |
| BagCache.CycleDependsOnOrder | libs/androidfw/ResourceTypes.cpp:3818-3922 | two entries that are each other's parent: the one asked first gets the attributes and flags of both, the other only its own; the whole answers for one entry are the same in both orders if and only if it has every name and every flag of the other |
| BagCycles.EveryAnswerIsRecursion | libs/androidfw/ResourceTypes.cpp:3818-3922 | over every sequence of calls on any table, every answer is plain recursion on one and the same cut of the table, in which all chains asked for end and at most one link of each circle is missing |
| BagCycles.ClosesAtEnd | libs/androidfw/ResourceTypes.cpp:3818-3853 | the link cut when a circle is first entered is the one that leads back to the entry |
| BagCycles.LassoExists | libs/androidfw/ResourceTypes.cpp:3883-3905 | parents whose chain does not end run into a circle |
| BagCycles.CutBagIsPrefix | libs/androidfw/ResourceTypes.cpp:3883-4022 | so the answer folds the line of parents up to the cut, which lies on the circle |
| BagCycles.OrderIrrelevantIff | libs/androidfw/ResourceTypes.cpp:3818-4022 | the answer for such an entry does not depend on what was asked before if and only if the entries of the circle beyond its entry add neither a name nor a flag, as far as their attributes can be resolved |
| ResourceBags.RunAgrees | libs/androidfw/ResourceTypes.cpp:3778-4044 | over every sequence of getBag and setParameters calls, every answer is that of plain recursion under the parameters then in force |
| ResourceBags.RunIsRecursion | libs/androidfw/ResourceTypes.cpp:3778-4044 | over every such sequence every answer, also for ids whose parents run in circles, is plain recursion on a table with at most one link of each circle cut |
| ResourceBags.Play | libs/androidfw/ResourceTypes.cpp:3778-4044 | the table object, called in any such sequence, gives exactly these answers |
| ResourceBags.MergeInPlace | libs/androidfw/ResourceTypes.cpp:3926-4019 | the merge loop on one array of parentCount + count slots yields the merge of both lists and never needs more; it fails exactly when a name or value cannot be resolved |
| ResourceBags.ResTable.GetBagLocked | libs/androidfw/ResourceTypes.cpp:3778-4032 | the recursive method over the mutable cache returns the specified bag and cache, and terminates on every parent graph (what the bag contains, told from the entries alone, is in `ResourceInheritance`) |
| ResourceInheritance.BagInherits | libs/androidfw/ResourceTypes.cpp:3883-4022 | for an entry with a parent that translates, whose parents end: whenever, in whichever runs, the two are asked for under the same parameters, the bag is the parent's mapping overridden by the entry's own translated attributes, with the flags of both - or the own ones alone where the parent's fails |
| ResourceInheritance.BagWithoutParent | libs/androidfw/ResourceTypes.cpp:3914-4022 | an entry without a parent: always exactly its own translated attributes and its flags |
| ResourceInheritance.BagIffWhole | libs/androidfw/ResourceTypes.cpp:3778-4032 | over every run: a bag is returned if and only if the id has a slot, getEntry finds its entry, and its parent and all its attributes translate, whatever becomes of the parents |
| ResourceInheritance.FirstError | libs/androidfw/ResourceTypes.cpp:3778-4032 | otherwise the first call of a run fails with the error of getEntry, or with UNKNOWN_ERROR for what does not translate |
| ResourceInheritance.RunGrows | libs/androidfw/ResourceTypes.cpp:3778-4044 | every getBag call of a run has one answer, in order, under the parameters set last |
| ResourceInheritance.TranslationByPackage | libs/androidfw/ResourceTypes.cpp:5981-6013 | by package byte: 0x7f is kept, 0 becomes the assigned package, any other goes through the table and fails where that has 0; type and entry stay |
| ResourceInheritance.OwnIff | libs/androidfw/ResourceTypes.cpp:3937-4006 | a list of attributes enters the bag if and only if every name, unless internal, and every value that is a dynamic reference translates; the latter become plain references |
| ResourceInheritance.LocateIff | libs/androidfw/ResourceTypes.cpp:3785-3813 | the slot of an id: its package byte through the package map, its type counted from one, and an entry below the entry count of the type's first package |
| ResourceInheritance.IdParts | include/androidfw/ResourceTypes.h:240-246 | every id is made of its package, type and entry parts |
| ResourceInheritance.AsMapAt | libs/androidfw/ResourceTypes.cpp:3955-3985 | in an ascending list the mapping has each name that occurs, with the item that has it |
| Idmap.BuildTypeMap | libs/androidfw/ResourceTypes.cpp:6083-6134 | the loop over a type's entries, with its offset, its filled gaps and its error for mixed types, computes the type map |
| Idmap.MapOfIsExact | libs/androidfw/ResourceTypes.cpp:6083-6134 | a type map answers every entry id with the overlay entry or nothing, before, in and after it, and starts and ends with a mapped entry |
| Idmap.MixedIffTwoTypes | libs/androidfw/ResourceTypes.cpp:6108-6117 | BAD_TYPE exactly when two entries of a type map to different overlay types |
| Idmap.CollectedExactly | libs/androidfw/ResourceTypes.cpp:6070-6142 | the types written are, in order, exactly those with a mapped entry |
| Idmap.CreateIdmap | libs/androidfw/ResourceTypes.cpp:6035-6194 | the bytes written fill the buffer of the size added up before, and are the image of the collected types; otherwise the error specified |
| Idmap.ParseIdmap | libs/androidfw/ResourceTypes.cpp:349-399 | the parsing loop, whose size still counts the package and count words, finds the blocks specified |
| Idmap.BlocksParse | libs/androidfw/ResourceTypes.cpp:377-393 | on written blocks the loop stops right after the last, having found the last block of each overlay type |
| Idmap.LookupReads | libs/androidfw/ResourceTypes.cpp:317-343 | looking an entry id up in a written block gives what the type map says |
| Idmap.RoundTrip | libs/androidfw/ResourceTypes.cpp:6035-6194 | parsing what createIdmap wrote finds the package, exactly the overlay types used, and for each the last target type mapped to it, right for every entry id |
| Idmap.AllSurviveIffDistinct | libs/androidfw/ResourceTypes.cpp:349-399 | every replaced target type is answered for if and only if overlay types are distinct |
| IdmapFormat.FileLayout | libs/androidfw/ResourceTypes.cpp:6153-6191 | the file written, by offsets: magic number, version, target and overlay checksum, the two paths in 256 bytes each, package, number of types, then per type its four numbers and its entries, and nothing else |
| IdmapFormat.InfoReadsBack | libs/androidfw/ResourceTypes.cpp:6196-6222 | getIdmapInfo on that file returns the version, both checksums and both paths that createIdmap was given |
| IdmapFormat.CreatedIff | libs/androidfw/ResourceTypes.cpp:6060-6175 | BAD_TYPE if and only if the entries of some type are replaced from different overlay types; otherwise UNKNOWN_ERROR if and only if nothing is replaced or a path is longer than 255 bytes |
| IdmapFormat.ParseRefuses | libs/androidfw/ResourceTypes.cpp:227-393 | files too short, with another magic number or version, without a proper package id or types, or with an improper first block are refused |
| IdmapFormat.ReplacementIs | libs/androidfw/ResourceTypes.cpp:6104-6130 | an entry is replaced by the low half of the overlay's resource id, if that is not 0 |
| IdmapFormat.NumbersAre | libs/androidfw/ResourceTypes.cpp:377-386 | numbers are read lowest byte first |
| Locale.PackThenUnpack | libs/androidfw/ResourceTypes.cpp:1696-1741 | three characters survive packing if and only if each is within 32 of the base |
| Locale.UnpackThenPack | libs/androidfw/ResourceTypes.cpp:1696-1741 | two bytes with the high bit set are the packing of what they unpack to |
| Locale.ResTableConfig.SetBcp47Locale | libs/androidfw/ResourceTypes.cpp:2540-2558 | the loop over hyphens assigns the components of the tag, one after the other, to cleared fields |
| Locale.ResTableConfig.AssignComponent | libs/androidfw/ResourceTypes.cpp:2509-2538 | a component goes by its size to language or region, script in title case, or variant in lower case |
| Locale.AddIsAssigned | libs/androidfw/ResourceTypes.cpp:2540-2558 | parsing a tag with one more component is parsing the tag and then assigning the component |
| Locale.ReadsBack | libs/androidfw/ResourceTypes.cpp:2472-2558 | what parsing a printed well-formed locale gives, with and without a language |
| Locale.LocaleRoundTrip | libs/androidfw/ResourceTypes.cpp:2472-2558 | a well-formed locale is restored exactly if and only if it has a language or is empty |
| Locale.AssignMeans | libs/androidfw/ResourceTypes.cpp:2509-2538 | for a component in any case: two or three characters become the language or, when there is one, the region; four the script, in title case; five to eight the start of the variant, in lower case - the same letters, and nothing else changes |
| Locale.PrintedForm | libs/androidfw/ResourceTypes.cpp:2472-2506 | a well-formed locale is printed as language, script, region and variant, those that are set, with hyphens between; without language and region nothing is |
| Locale.PackedNumber | libs/androidfw/ResourceTypes.cpp:1728-1741 | three characters in range become the number 0x8000 + third * 2^10 + second * 2^5 + first, high byte first |
| ElectionNode.HandlePacketKeeps | libs/common_time/common_time_server.cpp:752-1051 | no packet that offers a real timeline breaks the node invariant, trips an assert of the handlers, stops the timer or touches socket and settings |
| ElectionNode.HandleTimeoutKeeps | libs/common_time/common_time_server.cpp:679-750 | no timeout breaks the node invariant or trips an assert, and a node on the network has its timer running again |
| ElectionNode.TurnKeeps | libs/common_time/common_time_server.cpp:195-371 | no turn of the state machine breaks invariant or timer: wakeup, socket lost or found, timeout or packet |
| ElectionNode.ConfigureKeeps | libs/common_time/common_time_server_api.cpp:84-276 | no configuration call breaks the invariant, whose settings stay in the accepted ranges; a refused call has no effect |
| ElectionNode.ClockStaysOnItsTimeline | libs/common_time/common_time_server.cpp:195-371 | a node that knows the time after a turn knew it before on the same timeline, has just created the timeline, or has had its last missing answer from its master; no clock is carried to another timeline |
| ElectionNode.RequestOutcome | libs/common_time/common_time_server.cpp:752-830 | exactly a master of the timeline asked for, or of any if none is, answers, with its priority and device id; of a sender with higher priority, or the same and a larger id, an initial node starts counting again and a ronin of that timeline waits, which puts off its own election; no other node changes |
| ElectionNode.OfferOutcome | libs/common_time/common_time_server.cpp:832-1051 | an offer of another device is followed by a node without a master, by a client whose master, and - if it is an announcement - by a master whose own priority is lower, or equal with a smaller device id; priorities are the configured ones plus 128 unless the device defers; otherwise nothing happens |
| ElectionNode.CallOutcome | libs/common_time/common_time_server_api.cpp:84-276 | which configuration calls are accepted, in numbers, and that each sets what it names and nothing else; a shorter interval takes effect at once where it is waited out |
| ElectionNode.BlindAfterTurn | libs/common_time/common_time_server.cpp:327-349 | a turn leaves a master that does not know the time exactly when a client that never synced drops its socket and must not set up another, or one was there that does not join a network |
| ElectionNode.BlindAfterCall | libs/common_time/common_time_server_api.cpp:252-263 | a configuration call does exactly when it is forceNetworklessMaster on a client without socket that never synced, or one was there |
| ElectionRounds.SilenceElects | libs/common_time/common_time_server.cpp:679-750 | a node alone on its network is master, knows the time and stays master after as many timeouts as it has left, at most thirty-one; without a panic exactly then, and of the timeline it knew |
| ElectionRounds.NextTimeout | libs/common_time/common_time_server.cpp:679-750 | after a timeout a client asks its master for the time, a master announces itself, any other node asks for a master; and the next timeout is the configured interval or half a second |
| ElectionRounds.AnswersTeach | libs/common_time/common_time_server.cpp:927-997 | over any series of answers that do not make it start over a client stays with master and timeline, and knows the time if and only if it did or four of them could be used |
| ElectionRounds.JoinsMaster | libs/common_time/common_time_server.cpp:752-997 | request, offer, sync request and grant chain: the node ends as client of that master, on its timeline, knowing the time after five answers |
| ElectionRounds.TwoMastersSettle | libs/common_time/common_time_server.cpp:999-1051 | of two masters that announce themselves to each other the one with the higher priority - configured, plus 128 unless it defers - or at equal priority the larger device id stays, unmoved; the other becomes and stays its client, on its timeline, and still knows the time exactly if the timeline was shared |
| ElectionSystem.StepKeepsInv | libs/common_time/common_time_server.cpp:195-1350 | every event at any node keeps the system invariant and only adds timelines |
| ElectionSystem.RunKeepsInv | libs/common_time/common_time_server.cpp:195-1350 | along every run, from any state that satisfies it, the system invariant holds and timelines are only added |
| ElectionSystem.ReachableInv | libs/common_time/common_time_server.cpp:195-1350 | in every state reachable from freshly constructed nodes: no timeline exactly in the initial state, a master endpoint exactly in clients, a valid clock in ronins and in masters with a socket, a running timer in nodes with a socket, settings in range, and only created timelines in offers under way |
| ElectionSystem.WaitsOnlyOnOwnTimeline | libs/common_time/common_time_server.cpp:195-371 | a turn makes a node wait for an election if and only if the node is ronin and handles the request of a device that outranks it for a master of its timeline |
| ElectionSystem.NobodyEverWaits | libs/common_time/common_time_server_packets.h:86-91 | as requests carry the invalid timeline, no reachable node ever waits |
| ElectionSystem.SyncRequestsAreAnswered | libs/common_time/common_time_server.cpp:195-371 | a turn sends a sync response exactly for a sync request it handles: a grant if and only if the node is master of the timeline asked for, and then it knows the time |
| ElectionSystem.GivingUpForgets | libs/common_time/common_time_server.cpp:703-997 | clients of one identity and configuration whose turns find their masters' answers no good are equal after them and send the same, whatever they knew and however they noticed |
| ElectionSystem.DefersUntilServing | libs/common_time/common_time_server.cpp:262-318 | a node forces its priority low when it sets up a socket, and until it follows a master or grants a sync request; its device id is that of the interface set up last |
| ElectionSystem.JoinsNetwork | libs/common_time/common_time_server.cpp:272-318 | a node that sets up a socket asks for a master at low priority: as a ronin of its timeline if it knows the time, from its initial state otherwise |
| ElectionSystem.WithoutNetwork | libs/common_time/common_time_server.cpp:319-349 | without a socket nothing is sent; a node that may not have one becomes master of its timeline or stays initial; one whose setup failed tries again after 30 s |
| ElectionSystem.ClientsOnlyClimb | libs/common_time/common_time_server.cpp:832-1051 | after any offer of a master a client is still a client, of the same device or of one with higher priority, or the same and a larger device id |
| ElectionSystem.AnnouncementKeepsLead | libs/common_time/common_time_server.cpp:999-1051 | one announcement leaves the best master - highest priority, then device id - as it is, and its followers are then exactly those it had and whoever has just heard it |
| ElectionSystem.AnnouncementsConverge | libs/common_time/common_time_server.cpp:999-1051 | announcements in any order and number leave the best master the only one, everyone else its client on its timeline, if and only if its announcement reaches everyone who is not its client already |
| ElectionSystem.RunConverges | libs/common_time/common_time_server.cpp:195-371 | the same along every run of the system whose turns let announcements on the network arrive |
| CommonTimeServer.Play | libs/common_time/common_time_server.cpp:195-371 | any number of server objects, run along any schedule of turns and calls over such a network, end in the state of the system's run: nobody waits, masters on the network and ronins know the time, timers run, announcements carry created timelines |
| CommonClock.GcdFacts | libs/common_time/common_clock.cpp:48-51 | the gcd by Euclid's algorithm divides both numbers and is a combination of them, so it is the greatest |
| CommonClock.ReduceFacts | libs/common_time/common_clock.cpp:48-51 | reducing keeps the ratio and makes numerator and denominator coprime |
| CommonClock.SlewRateIsExact | libs/common_time/common_clock.cpp:130-145 | for every frequency the clock accepts and every adjustment with 0 < 10^6 + ppm < 2^32, the numerator installed is the wanted one in lowest terms and the denominator the wanted one modulo 2^32; the rate is exact if and only if freq / gcd(freq, 10^6 + ppm) is below 2^32 |
| CommonClock.SlowClocksSlewExactly | libs/common_time/common_clock.cpp:130-145 | every frequency below 2^32 is accepted and every slew of it exact |
| CommonClock.SlewRateWrapsAbove32Bits | libs/common_time/common_clock.cpp:130-145 | an instance: at 5 GHz a slew of one part per million is inexact, and one of zero exact |
| CommonClock.SlewIsContinuous | libs/common_time/common_clock.cpp:113-148 | on a valid basis the clock reads the same just before and after a change of rate |
| CommonClock.SecondPasses | libs/common_time/common_clock.cpp:67-78 | at an exact rate a second of local ticks is 10^6 + ppm microseconds of common time |
| CommonClock.CommonTimeNeverDecreases | libs/common_time/common_clock.cpp:67-148 | over any series of slew changes and readings at non-decreasing local times, common time never decreases, on every clock whose installed denominators are not zero |
| CommonClock.Clock.Init | libs/common_time/common_clock.cpp:42-65 | the nominal rate is set in lowest terms; failure exactly for frequency zero or a ratio beyond 32 bits |
| CommonClock.Clock.SetSlew | libs/common_time/common_clock.cpp:113-148 | the new basis and the new rate, as specified |
| ClockRecovery.MeasurementError | libs/common_time/common_time_server.cpp:960-980 | the offset measured by an exchange is within half the round trip (and rounding) of the true one, whatever the delays |
| ClockRecovery.PanicMeansRealError | libs/common_time/clock_recovery.cpp:225-245 | a panic implies a true error beyond the threshold plus half the round trip, and an error beyond the threshold plus one and a half round trips panics |
| ClockRecovery.NoPanicAfterGoodStart | libs/common_time/clock_recovery.cpp:141-160 | a clock started from an exchange of less than 0.1 s never panics while its rate is right |
| ClockRecovery.FindMinRttNdx | libs/common_time/clock_recovery.cpp:112-120 | the first point with the least round trip |
| ClockRecovery.RingPut | libs/common_time/clock_recovery.cpp:207-216 | writing at the cursor of the ring appends to the window of the latest points and drops the oldest when full |
| ClockRecovery.LeastInRing | libs/common_time/clock_recovery.cpp:218-225 | the least position in the ring is a least point of the window, and the newest point steers exactly if it is the first such position |
| ClockRecovery.ClockRecoveryLoop.PushDisciplineEvent | libs/common_time/clock_recovery.cpp:122-295 | the fourth startup point installs the basis of the first best of the four; then the window slides, the controller steps exactly on points that may steer, the clock never jumps, and the call fails exactly on a panic; after an accepted point the correction is 327.66 times the controller output, truncated, and if it differs from before the clock runs from now, at its reading of now, at the rate for the output in ppm; after a panic it runs at the nominal rate; from rest the output has the sign of the error |
| ClockRecovery.ClockRecoveryLoop.ApplySlew | libs/common_time/clock_recovery.cpp:364-404 | a changed correction sets the rate for the controller output, from what the clock reads now; an unchanged one leaves the clock alone |
| ClockRecovery.RunsExactly | libs/common_time/common_clock.cpp:130-145 | below 2^32 Hz the rate set is exactly (10^6 + ppm) / freq |
| ClockRecovery.StepFromRest | libs/common_time/clock_recovery.cpp:257-277 | from rest the controller output has the sign of the error and is at most 100 ppm |
| ClockRecovery.StepMeans | libs/common_time/clock_recovery.cpp:257-275 | in general it moves by a twentieth of what 16/15 of the error exceed the last error by, within 100 ppm, up if and only if that is positive; the bias follows it by about a seventeenth of their distance |
| ClockRecovery.StartRecovery | libs/common_time/common_time_server.cpp:195-203 | the clock and the loop can be set up for every local frequency below 2^32, so that every slew the loop may ask for leaves a rate |
| ClockRecovery.ClockRecoveryLoop.HandleExchange | libs/common_time/common_time_server.cpp:955-985 | for a whole exchange, its round trip converted to common time, on a local clock of 1 MHz: a failed call means the clock was really off by more than the threshold and half the round trip, and a clock off by more than the threshold and one and a half round trips fails the call if the point steers |
| CursorWindows.CursorWindow.Create | libs/androidfw/CursorWindow.cpp:44-83 | a new window over any big enough memory is an empty table without columns |
| CursorWindows.CursorWindow.CreateFromParcel | libs/androidfw/CursorWindow.cpp:85-122 | a reader of the same memory sees the same table, read-only |
| CursorWindows.CursorWindow.Clear | libs/androidfw/CursorWindow.cpp:132-145 | whatever the buffer held, the table is empty; a read-only window refuses |
| CursorWindows.CursorWindow.SetNumColumns | libs/androidfw/CursorWindow.cpp:147-159 | accepted exactly when there are neither rows nor columns yet or the number is the same; the cells stay |
| CursorWindows.CursorWindow.AllocRow | libs/androidfw/CursorWindow.cpp:161-188 | a row of nulls is appended, or the table is unchanged; which one is decided exactly by whether slot and directory fit |
| CursorWindows.CursorWindow.AllocRowSlot | libs/androidfw/CursorWindow.cpp:234-255 | the slot handed out is the one the chain has for the next row, across the 100-row boundary, whether the next chunk is new or left over |
| CursorWindows.CursorWindow.GetRowSlot | libs/androidfw/CursorWindow.cpp:223-232 | the walk ends at that same slot of the row |
| CursorWindows.CursorWindow.FreeLastRow | libs/androidfw/CursorWindow.cpp:190-199 | the last row goes and no other cell changes |
| CursorWindows.CursorWindow.Alloc | libs/androidfw/CursorWindow.cpp:201-221 | the space handed out starts at the (aligned) free offset above everything alive, and the table is unchanged; 0 exactly when the window is full |
| CursorWindows.CursorWindow.GetFieldSlot | libs/androidfw/CursorWindow.cpp:257-271 | the slot of the cell, or nothing exactly when row or column does not exist |
| CursorWindows.CursorWindow.GetField | include/androidfw/CursorWindow.h:115-137 | reading a slot's type and value gives the table's cell |
| CursorWindows.CursorWindow.PutBlob | libs/androidfw/CursorWindow.cpp:273-304 | exactly the named cell becomes the blob; refused without effect on the table exactly when read-only, out of range or out of space |
| CursorWindows.CursorWindow.PutString | libs/androidfw/CursorWindow.cpp:277-304 | likewise for a string with its terminator |
| CursorWindows.CursorWindow.PutPlain | libs/androidfw/CursorWindow.cpp:306-350 | exactly the named cell becomes the number or null, which reads back bit by bit |
| CursorWindows.Run | libs/androidfw/CursorWindow.cpp:132-350 | any sequence of operations leaves the table that the successful ones make of it; illegal ones are refused, legal ones fail only for want of space, and not as long as what all of them take at most - for a row 12 bytes a column and 410 - fits |
| CursorFormat.TableByOffsets | include/androidfw/CursorWindow.h:66-160 | the table is what a reader finds by following offsets from the header over the chunks of 100 slots to the 12-byte fields: types 1 to 4 are integer, float, string and blob, anything else null |
| CursorFormat.ReplacedIs | libs/androidfw/CursorWindow.cpp:273-350 | putting a cell changes that cell of the table and no other |
| CursorMemory.WriteField | libs/androidfw/CursorWindow.cpp:282-350 | writing the twelve bytes of a field keeps the layout and changes that cell of the table only |
| CursorMemory.AddDir | libs/androidfw/CursorWindow.cpp:172-187 | a zeroed directory entered in the next slot keeps the layout and adds a row of nulls |
| CursorMemory.AppendChunk | libs/androidfw/CursorWindow.cpp:242-252 | linking a fresh chunk keeps the layout and the table |
| CursorMemory.CutChain | libs/androidfw/CursorWindow.cpp:249-251 | clearing the link of an entered chunk drops only chunks without rows |
| CursorMemory.AllocKeeps | libs/androidfw/CursorWindow.cpp:201-221 | raising the free offset keeps everything alive in place, apart and below |
| CursorMemory.ChunksFill | libs/androidfw/CursorWindow.cpp:234-255 | chunks take up space in order, so the row count stays far from 32 bits |
| AttributeFinders.Finder.Find | include/androidfw/AttributeFinder.h:144-202 | the answer is that of a linear search over the whole list, unless the query is stale in its run, when it is the end |
| AttributeFinders.Finder.Jump | include/androidfw/AttributeFinder.h:96-127 | after a jump no entry of the package lies behind the cursor |
| AttributeFinders.Finder.Advance | include/androidfw/AttributeFinder.h:170-194 | remembered offsets stay the true starts of their groups, and every group reached is remembered |
| AttributeFinders.Finder.Walk | include/androidfw/AttributeFinder.h:168-202 | the loop finds the first occurrence ahead and leaves the cursor between smaller and larger entries of the package |
| AttributeFinders.FindAll | libs/androidfw/tests/AttributeFinder_test.cpp:57-128 | for any sequence of queries, packages visited and revisited in any order, each answer is the specified one - linear search throughout when runs ascend |
| AttributeFinders.AnswerIsLinear | include/androidfw/AttributeFinder.h:33-56 | the specified answer differs from linear search if and only if the query repeats in its run and is in the list |
| AttributeFinders.AscendingNeverRepeats | include/androidfw/AttributeFinder.h:33-56 | with runs strictly ascending no query repeats |
| AttributeFinders.AskTwice | include/androidfw/AttributeFinder.h:168-202 | the same id asked twice in a row is found once |
| AttributeFinders.PackageIs | include/androidfw/AttributeFinder.h:25-27 | the package of an id is its top byte |
| BackupStream.BackupDataWriter.WriteEntityHeader | libs/androidfw/BackupData.cpp:93-150 | padding, header, key and padding are appended, or a prefix of them and an error that lasts; which one is decided by the room |
| BackupStream.BackupDataWriter.WriteEntityData | libs/androidfw/BackupData.cpp:152-175 | the data is appended, or nothing and an error that lasts |
| BackupStream.WriteAll | libs/androidfw/BackupData.cpp:93-175 | entities written in any pieces append exactly their stream if it fits and a prefix of it in any case |
| BackupStream.StreamAppend | libs/androidfw/BackupData.cpp:73-91 | padding by position makes the bytes of a list of entities those of the list without the last followed by the last |
| BackupFormat.StreamLayout | libs/androidfw/BackupData.cpp:93-175 | a stream byte by byte: each entity at a multiple of four behind bytes 0xbc, with the magic number, key length, data size or -1, key and zero, bytes 0xbc to a multiple of four, and the data; and nothing else |
| BackupFormat.PrefixedKey | libs/androidfw/BackupData.cpp:107-114 | a key under a prefix is the prefix, a colon and the key |
| BackupReading.BackupDataReader.ReadNextHeader | libs/androidfw/BackupData.cpp:229-296 | end, error or header as the bytes at the position say, with the state left behind in each case |
| BackupFormat.HeaderByBytes | libs/androidfw/BackupData.cpp:229-296 | for every file and position: end, missing padding, cut-off header, other magic number, negative length, cut-off key or padding, or the key, size and start of the data, by the bytes there |
| BackupReading.BackupDataReader.SkipEntityData | libs/androidfw/BackupData.cpp:318-336 | the reader goes past the data and its padding, its count of the position kept as an int; or the error for a negative target, for one reported as -1, and for missing padding |
| BackupReading.BackupDataReader.ReadEntityData | libs/androidfw/BackupData.cpp:338-364 | the bytes at the position up to what the int arithmetic leaves of the entity, and the error at a premature end |
| BackupReading.EntityReads | libs/androidfw/BackupData.cpp:229-296 | in a written stream the next header is that of the first entity - invalid exactly when its key is empty - and its data and the rest follow |
| BackupReading.EndReads | libs/androidfw/BackupData.cpp:236-252 | at the end the reader is done, also when the last padding is missing |
| BackupReading.ReadAll | libs/androidfw/BackupData.cpp:229-381 | reading or skipping any of the entities of a stream, in any buffer sizes and with short reads, sees exactly them and ends if and only if no key is empty and the skips fit; an error at the end exactly when the last is skipped and ends unpadded |
| BackupReading.LandsIfFit | libs/androidfw/BackupData.cpp:318-336 | skip by skip along the stream: each starts in step with the file and is not taken for a failure if and only if, of the skips that move over data, none has a target like -1 and all before the last end below two gigabytes |
| BackupReading.SmallStreamsFit | libs/androidfw/BackupData.cpp:318-336 | streams that stay below two gigabytes, and any without skips, fit |
| BackupReading.ThreeGigabytesDoNotFit | libs/androidfw/BackupData.cpp:318-336 | three skipped entities of a gigabyte do not |
| BackupReading.RoundTrip | libs/androidfw/BackupHelpers.cpp:1165-1340 | what is written under any prefix, in any pieces, behind any earlier content, reads back as the same list if and only if no key is empty and the skips fit |
| BackupReading.SkipLast | libs/androidfw/BackupData.cpp:318-336 | a stream whose last entity has one byte of data: skipping it is an error although nothing is lost |
| BackupSnapshot.InsertKeepsOrder | libs/androidfw/BackupHelpers.cpp:118-126 | adding to a sorted vector keeps it sorted and updates the map it stands for |
| BackupSnapshot.WriteSnapshotFile | libs/androidfw/BackupHelpers.cpp:146-205 | the size added up first is that of the records then written |
| BackupSnapshot.ReadSnapshotFile | libs/androidfw/BackupHelpers.cpp:89-144 | the loop over records reads the snapshot specified, or fails on bad magic, truncation or a wrong size |
| BackupSnapshot.SnapshotRoundTrip | libs/androidfw/BackupHelpers.cpp:89-205 | every sorted snapshot within 32-bit sizes is read back as it was written |
| BackupFormat.SnapshotLayout | libs/androidfw/BackupHelpers.cpp:146-205 | the snapshot file byte by byte: "Snap", count, "File", size; per record six numbers, the name and bytes 0xab to a multiple of four |
| BackupFormat.LessIff | libs/androidfw/BackupHelpers.cpp:390-397 | keys are ordered by the first byte in which they differ, a proper beginning first |
| BackupDiff.WriteContent | libs/androidfw/BackupHelpers.cpp:243-287 | whatever the reads return, exactly the promised bytes follow the header if no write fails, and a prefix of them otherwise |
| BackupDiff.ContentIsWhatWasRead | libs/androidfw/BackupHelpers.cpp:254-279 | the bytes are the first of what was read, or all of it and then zeros |
| BackupFormat.FileDataLayout | libs/androidfw/BackupHelpers.cpp:62-67 | the data of a file starts with the version 1, the mode and eight zero bytes, and goes on with its content |
| BackupDiff.WriteUpdateFile | libs/androidfw/BackupHelpers.cpp:214-287 | header and data make one well-formed entity of the stream |
| BackupDiff.MergeIsExactDiff | libs/androidfw/BackupHelpers.cpp:385-441 | the merge emits exactly: deletions for keys only in the old snapshot, updates for keys that are new or changed and can be opened |
| BackupDiff.MergeIsAscending | libs/androidfw/BackupHelpers.cpp:385-441 | in key order, no key twice |
| BackupDiff.EmitMerge | libs/androidfw/BackupHelpers.cpp:385-441 | the three loops put the merge into the entity stream, or a prefix of it once a write has failed |
| BackupRuns.CollectFailsIffClash | libs/androidfw/BackupHelpers.cpp:352-383 | the run is refused exactly when an existing file has the key of one already taken |
| BackupRuns.CollectHolds | libs/androidfw/BackupHelpers.cpp:352-383 | otherwise the new snapshot is sorted and holds exactly the present files |
| BackupRuns.BackUpFiles | libs/androidfw/BackupHelpers.cpp:336-443 | a whole run: the differences in the stream, the new snapshot in its file |
| BackupRuns.AnyOldFileGivesExactDiff | libs/androidfw/BackupHelpers.cpp:336-443 | whatever the old snapshot file contains, the run sends exactly the differences to what can be read of it, in key order |
| BackupRuns.RunSends | libs/androidfw/BackupHelpers.cpp:336-443 | told from the files of two successive runs, key by key: a deletion if the file is gone; its data if it is new or differs in seconds, mode, size or checksum - nanoseconds do not count - and can be opened; nothing else |
| BackupRuns.HeldFollowsSnapshot | libs/androidfw/BackupHelpers.cpp:385-443 | after a run the backup holds the new snapshot's states if and only if every new or changed file could be opened |
| BackupRuns.RunDelivers | libs/androidfw/BackupHelpers.cpp:385-443 | key by key: the new state and the data just sent, what was held where nothing changed or the file could not be opened, nothing where it is gone |
| BackupRuns.RunsCompose | libs/androidfw/BackupHelpers.cpp:336-443 | after any series of runs, each reading the snapshot file of the one before and able to open what is new or changed, the backup holds the files of the last in their states |
| BackupRuns.UpToDateIffAllCover | libs/androidfw/BackupHelpers.cpp:336-443 | the backup is up to date after every run of a series if and only if each run can open what is new or changed |
| BackupRuns.RunsDeliverContents | libs/androidfw/BackupHelpers.cpp:336-443 | if what is read of a file depends on its key and state only, the bytes held after any such series are the contents of the files of the last run |
| BackupRuns.UnchangedEmitsNothing | libs/androidfw/BackupHelpers.cpp:390-427 | a run over unchanged files emits nothing |
| StreamingAsset.StreamingZipInflater.Read | libs/androidfw/StreamingZipInflater.cpp:134-203 | the next bytes of the uncompressed content, as many as asked for and left, or an error that starts over |
| StreamingAsset.StreamingZipInflater.InflateStep | libs/androidfw/StreamingZipInflater.cpp:162-199 | one inflate fills the emptied buffer with the content that comes next and makes progress |
| StreamingAsset.StreamingZipInflater.SeekAbsolute | libs/androidfw/StreamingZipInflater.cpp:229-242 | the position is reached forwards or by starting over, unless something fails on the way |
| StreamingAsset.CompressedAsset.Read | libs/androidfw/Asset.cpp:760-793 | the bytes at the offset, from the inflater or from the buffer |
| StreamingAsset.CompressedAsset.Seek | libs/androidfw/Asset.cpp:802-816 | the new offset, or -1 and no change exactly when it is outside the data |
| StreamingAsset.CompressedAsset.GetBuffer | libs/androidfw/Asset.cpp:846-896 | the whole content; the offset stays while the inflater goes |
| StreamingAsset.Run | libs/androidfw/Asset.cpp:760-896 | every sequence of read, seek and getBuffer answers like a plain array with a position, when nothing fails |

## Left out

- ResourceEntry.GetEntry: a lookup without a requested configuration, which takes the first chunk, is not modelled.
- ResourceBags.ResTable.GetBagLocked: resource tables are taken as parsed; the checks against malformed chunks while walking a map entry are not modelled.
- Idmap.ParseIdmap: a block header that straddles the end of malformed data reads as zeros, where the original would read past the data; alignment is assumed.
- Idmap.CreateIdmap: which overlay resource has the name and type of a target entry is an input.
- Locale.LocaleRoundTrip: the fixed 28-byte output buffer of getBcp47Locale is not modelled (a locale needs at most 22 bytes).
- ElectionSystem.RunConverges: covers a phase in which only announcements arrive; timeouts, requests and sync packets in between are not part of it.
- ElectionSystem.ReachableInv: sync groups, packet serialisation, device id lookup, and the wall-clock values behind timeouts are not modelled; whether a sync exchange is late, expired or panics is an input.
- CommonClock.CommonTimeNeverDecreases: the 64-bit overflow checks inside LinearTransform, whose source is not part of the repository, are not modelled; forward conversion is `b_zero + floor((a - a_zero) * numer / denom)`.
- ClockRecovery.ClockRecoveryLoop.HandleExchange: speaks of the true error only for local clocks of 1 MHz, whose ticks are the microseconds of common time.
- ClockRecovery.ClockRecoveryLoop.PushDisciplineEvent: floats are real numbers with the same clamps; the hardware slew path and its rate-limiting timer are not modelled.
- CursorWindows.CursorWindow.Alloc: does not model the 32-bit wrap of offset plus size; requests that large are excluded, as the original assumes (for whole runs: a window and requests below 1 GB).
- CursorWindows.CursorWindow.PutPlain: the members of a field slot are written in one step, and a double is its 64 bits.
- BackupStream.BackupDataWriter.Write: a write either takes all bytes or fails; the error number left by a short write is taken to be nonzero.
- BackupReading.BackupDataReader.ReadNextHeader: a negative key length in malformed data is an error here; positions and file offsets have 64 bits, as on 64-bit devices.
- BackupReading.BackupDataReader.SkipEntityData: a refused or failing call is taken to leave a nonzero error number; for a target that is reported as -1 the system call itself succeeds, so the original returns whatever error number was left before, which may be none.
- BackupSnapshot.ReadSnapshotFile: a negative name length in malformed data is an error here.
- BackupSnapshot.WriteSnapshotFile: the deleted flag of a record, which is never set in the repository, and failing writes are not modelled.
- BackupDiff.WriteContent: reads that return an error are not modelled.
- BackupRuns.RunsCompose: the files of each run have no clashing keys, and new or changed ones can be opened; RunDelivers says what happens otherwise.
- StreamingAsset.StreamingZipInflater.Read: zlib and the device are inputs: each inflate uses some input and makes the next bytes of the content, or fails.
- StreamingAsset.CompressedAsset.Read: after an error the offset and the inflater are out of step; nothing is claimed from then on.
- Writing tar and pax headers and restoring files, `AssetManager`, `ZipFileRO`, `ObbFile`, `TypeWrappers`, the string pools and XML trees of resources, and everything printed or logged.
- Ashmem, parcels, sockets, polling, threads and locks: one operation at a time.
