# Gossamer core in Dafny

A model of the core of Gossamer, a small social simulation in which characters
meet, chat, form directed relationships ("ships") and remember what happened.
The model covers three parts of the program:

- `util.js`: the helpers the simulation relies on. These are `fairmath`,
  `distinct`, `groupBy`, `shuffle` and `sum`.
- `microfelt.js`: the preprocessor that turns the lines of a Felt-style sifting
  pattern into a Datalog query. It extracts logic variables, quote-wraps literal
  parts, builds the clause strings and assembles the `:find` part.
- `gossamer.js`: the global tables and the steps that update them in place.
  These are id generation, the ship ledger (`getOrCreateShip` and the queries
  built on it), the per-character memory store with `addMemory`, the
  bookkeeping of a chat action, the reflection phase that moves charge and
  spark and decays memories, and the load-time normalisation of the tag
  mutation rates.

Layout:

| file | module | contents |
|---|---|---|
| `wrappers.dfy` | `Wrappers` | `Option` and `Result` |
| `util.dfy` | `Util` | fairmath, distinct, groupBy, shuffle (in place on an array), sum |
| `microfelt.dfy` | `Microfelt` | the pattern preprocessor, pure functions over strings |
| `ships.dfy` | `Ships` | the ship record, the nested ship table, tones, reflection of one ship |
| `memories.dfy` | `Memories` | datoms and transactions, an explicit entity store in place of Datascript, the add-memory and decay transactions |
| `gossamer.dfy` | `Gossamer` | the `World` class holding the mutable tables, and its methods |

The global mutable tables (`allShips`, `lastID`, the characters' memory
databases, `allActions`, `tagMutationRates`) are fields of `Gossamer.World`.
Each method states its whole new state as a function of the old one. It also
keeps the invariant `Valid()`: ships are keyed by source and destination,
charge and spark stay in [-100, 100], and every registered character has a
well-formed store.

Every random choice in the source is a parameter of the model:

- the index drawn into each list of deltas (`DeltaDraw`);
- the swap targets of `shuffle`;
- whether one or two tones are kept;
- the iteration order of maps (`PickMember`).

Numbers:

- charge, spark, strength and fairmath values are `real`;
- counters and the tag mutation rates are `int`.

Two details of the source that the model keeps as written:

- In the reflection phase the comment says charge decays toward zero (gossamer.js:425), but the sign of the decay is `+1` for every value `<= 0` (gossamer.js:427). So a charge or spark of exactly 0 moves to 0.5.
- `getOrCreateShip` only checks that each id has type string (gossamer.js:44-45). It does not check that the characters exist.

## Model

| member | source | states |
|---|---|---|
| Util.Fairmath | util.js:33-44 | with min < max the result lies in [min, max]; with min > max it is min (the clamp order of `Math.max(min, Math.min(max, …))`) |
| Util.FairDeltaSign | util.js:39-41 | the real delta has the sign of `add` and is strictly nonzero when the start is not already at the edge it moves toward |
| Util.FairmathMonotone | util.js:39-43 | a non-negative add never lowers the value, a negative add never raises it, strictly so away from the edge |
| Util.FairmathZeroAdd | util.js:38-42 | adding 0 leaves an in-range value unchanged |
| Util.FairmathEdgeSticks | util.js:39-43 | a value at max stays there under any non-negative add, and a value at min stays there under any negative add |
| Util.FairmathExample | util.js:26-27 | the documented example: 10 plus 20 in [0, 100] gives 28 |
| Util.FairmathDefaults | util.js:34-35 | a missing or zero min/max falls back to 0 and 100 (`||` treats 0 as missing); any other bound is used as given |
| Util.IndexOf | util.js:16 | `indexOf`: -1 exactly when absent, otherwise the first position holding the value |
| Util.FirstOccurrencesProps | util.js:15-17 | the filtered prefix keeps exactly the prefix's members, each kept item is at its first index, in order |
| Util.Distinct | util.js:13-17 | no duplicates, the same members as the input, in order of first occurrence |
| Util.GroupsSnoc | util.js:50-54 | one more item appends it to the group of its key and creates that group if missing |
| Util.SelectEmpty | util.js:50-54 | a key no item maps to selects nothing |
| Util.SelectMembers | util.js:50-54 | a group holds exactly the items whose key it is |
| Util.GroupsMembership | util.js:46-56 | keys are exactly the classifier's values on the items; every item is in its key's group and only there |
| Util.GroupMemberSound | util.js:46-56 | a member of group k is an input item with key k |
| Util.GroupSizesSnoc | util.js:50-54 | appending an item adds one to the total size of the groups whose key is listed |
| Util.GroupSizesSum | util.js:46-56 | the group sizes add up to the number of items: nothing lost, nothing duplicated |
| Util.GroupSizesEmpty | util.js:49 | no items, no group members |
| Util.GroupSizesNoKey | util.js:51-53 | an item whose key is not listed does not change the listed sizes |
| Util.GroupSizesRemove | util.js:46-56 | the total splits into one group plus the rest |
| Util.RemoveAbsent | util.js:46-56 | removing an absent key changes nothing |
| Util.RemoveProps | util.js:46-56 | removing a key keeps the list free of duplicates and drops exactly that key |
| Util.GroupBy | util.js:48-56 | the loop's result is the grouping specified by `Groups` |
| Util.Swap | util.js:71 | a swap keeps the length and the multiset of items |
| Util.ShuffleSteps | util.js:69-72 | every prefix of the swap loop is a permutation |
| Util.Shuffled | util.js:63-74 | a shuffled list is a permutation of the input |
| Util.PermutationKeepsMembers | util.js:63-74 | a permutation has the same members |
| Util.NoDuplicatesCount | util.js:63-74 | a list without duplicates holds each value at most once |
| Util.PermutationKeepsNoDuplicates | util.js:63-74 | a permutation of a duplicate-free list is duplicate-free |
| Util.PickMember | util.js:50 | one step of iteration order: an arbitrary member of a nonempty set |
| Util.SwapInPlace | util.js:71 | the destructuring swap exchanges the two slots of the array and nothing else |
| Util.CopyArray | util.js:65-68 | the copy is a fresh array with the same contents |
| Util.Shuffle | util.js:63-74 | a fresh array holding the Fisher-Yates result for the given swap targets, a permutation of the input, with the input untouched |
| Util.ReduceAddTotal | util.js:77 | `reduce` with `+` from a seed equals the seed plus the total |
| Util.Sum | util.js:76-78 | `reduce` without a seed fails on the empty list and otherwise gives the total |
| Util.TotalAppend | util.js:76-78 | the total of a concatenation is the sum of the totals |
| Microfelt.TrimStart | microfelt.js:20 | the result is a suffix of the input that does not start with whitespace |
| Microfelt.TrimEnd | microfelt.js:20 | the result is a prefix of the input that does not end with whitespace |
| Microfelt.Trim | microfelt.js:20 | the trimmed line neither starts nor ends with whitespace |
| Microfelt.IdentEnd | microfelt.js:7 | the end of the longest run of identifier characters from a position |
| Microfelt.Scan | microfelt.js:7 | every match found is an identifier that occurs after a `?` in the string |
| Microfelt.LvarPositions | microfelt.js:7 | the positions where the regex can match: exactly the `?` positions followed by an identifier start, in increasing order |
| Microfelt.LvarPositionsSkip | microfelt.js:7 | a stretch without a match position adds no position |
| Microfelt.ScanMatches | microfelt.js:7 | the scan yields, in order, the maximal identifier after each match position |
| Microfelt.MatchesAtCons | microfelt.js:7 | the matches of one more leading position are that position's match followed by the rest |
| Microfelt.MatchesAtPositions | microfelt.js:7 | every match position's identifier is in the list, and every listed identifier is the maximal identifier after some match position |
| Microfelt.ScanEmptyIff | microfelt.js:7 | the scan finds nothing exactly when no `?` is followed by an identifier start |
| Microfelt.FindLvars | microfelt.js:6-8 | fails (the `null.map` throw) exactly when there is no logic variable; otherwise the maximal identifier after each `?` match position, in order of position: every match is present and each is maximal |
| Microfelt.QuotewrapIfNeeded | microfelt.js:11-17 | kept as is exactly for lvars, reserved literals, numbers and already-quoted parts; otherwise wrapped in quotes; the result is always kept as is |
| Microfelt.QuotewrapIdempotent | microfelt.js:11-17 | wrapping twice is wrapping once |
| Microfelt.QuotewrapKeepsToken | microfelt.js:11-17 | a nonempty space-free part stays a nonempty space-free token |
| Microfelt.WrapKeepsSpaceFree | microfelt.js:16 | quoting adds no whitespace |
| Microfelt.QuotewrapAll | microfelt.js:46 | `parts.map(quotewrapIfNeeded)`, element by element |
| Microfelt.FirstSpace | microfelt.js:22 | the end of the run of non-space characters from a position |
| Microfelt.SpaceEnd | microfelt.js:22 | the end of the run of whitespace from a position |
| Microfelt.SplitWs | microfelt.js:22 | `split(/\s+/)` yields at least one part and no part contains whitespace |
| Microfelt.JoinStartsWith | microfelt.js:46 | a join starts with its first part |
| Microfelt.SplitJoin | microfelt.js:22-46 | splitting a space-join of nonempty space-free tokens gives the tokens back |
| Microfelt.SplitTrimmedTokens | microfelt.js:20-22 | splitting a trimmed nonempty line gives only nonempty tokens |
| Microfelt.ParseClause | microfelt.js:19-49 | succeeds exactly when the trimmed line has an lvar; keeps the trimmed line as original; exports no lvars from `or`/`not`/`not-join`, otherwise the line's lvars without repeats in order of first occurrence |
| Microfelt.ParseClauseForms | microfelt.js:24-47 | the clause string: `or`/`not`/`not-join` forms as is, other parenthesised forms in brackets, simple clauses as the bracketed space-join of the quote-wrapped parts |
| Microfelt.MapOrFailEach | microfelt.js:52 | a map that throws on the first failure succeeds exactly when every element does, with one result per element |
| Microfelt.ParseClausesEach | microfelt.js:52 | `lines.map(parseSiftingPatternClause)` succeeds exactly when every line parses, clause i being line i's parse |
| Microfelt.ConcatLvars | microfelt.js:53-56 | the concatenation holds exactly the lvars of some clause |
| Microfelt.Prefixed | microfelt.js:58 | each lvar gets a `?` in front |
| Microfelt.ClauseStrs | microfelt.js:59 | one clause string per clause, in order |
| Microfelt.ParsePattern | microfelt.js:51-62 | succeeds exactly when every trimmed line has an lvar; clause i is line i's parse; the where part is the comma-join of the clause strings; lvars are the distinct concatenation of the clauses' lvars; the find part and the query are assembled from them |
| Microfelt.PatternExports | microfelt.js:52-57 | a variable is exported exactly when some clause exports it |
| Microfelt.ScanShift | microfelt.js:7 | scanning is unaffected by text in front of the start position |
| Microfelt.IdentEndShift | microfelt.js:7 | identifier runs are unaffected by text in front |
| Microfelt.ScanHead | microfelt.js:7 | `?v` followed by a non-identifier character scans as `v` first |
| Microfelt.ScanFindPart | microfelt.js:58 | scanning the find part gives back the lvars in order |
| Microfelt.ScanSkip | microfelt.js:7 | characters other than `?` are skipped by the scan |
| Microfelt.FindPartRoundTrip | microfelt.js:58 | `findLvars` of the find part built from nonempty identifier lvars returns exactly those lvars |
| Microfelt.ClauseLvarsAreIdents | microfelt.js:21 | a clause's lvars are identifiers |
| Microfelt.PatternFindPart | microfelt.js:51-62 | a parsed pattern's find part reads back as its lvars |
| Ships.NewShip | gossamer.js:47-52 | a new ship runs from c1 to c2 with zero interactions, charge and spark, not refreshed, and deltas from the source's lists |
| Ships.WithShip | gossamer.js:43-54 | the lookup adds a ship exactly when it is missing, never changes an existing one, and touches no other pair |
| Ships.LookupIdempotent | gossamer.js:43-54 | a second lookup returns the same record and leaves the table unchanged |
| Ships.WithShipKeepsInvariants | gossamer.js:43-54 | creating a ship keeps the table keyed by source and destination and in range |
| Ships.SetShip | gossamer.js:336-341 | updating a ship in place changes that pair only |
| Ships.SetShipKeepsInvariants | gossamer.js:336-341 | a keyed, in-range update keeps the table's invariants |
| Ships.ShipsAreDirected | gossamer.js:46-47 | updating the ship from c1 to c2 leaves the ship from c2 to c1 alone |
| Ships.PositiveFeelingOf | gossamer.js:68-71 | non-negative, at least the charge and the spark, and 0 exactly when neither is positive |
| Ships.SalienceOf | gossamer.js:73-77 | non-negative, at least the charge's size and the positive spark, and for an in-range ship at most 30 below the salience of self |
| Ships.SalienceBoundReached | gossamer.js:74 | the maximally liked ship is exactly 30 below the salience of self (250) |
| Ships.WouldInvite | gossamer.js:103-106 | an invitation needs a positive feeling of at least 20, a positive feeling of 40 or more always brings one, and it is offered exactly when a chat could take a flirty or friendly tone |
| Ships.PossibleTonesProps | gossamer.js:327-330 | one to three distinct tones; always neutral; flirty, friendly and rude exactly when the ship includes attraction, liking or animosity; never both friendly and rude |
| Ships.Take | gossamer.js:331 | `slice(0, n)` keeps the first n items, or all when fewer |
| Ships.IntendedTags | gossamer.js:327-333 | the tags built step by step are the specified chat tags |
| Ships.TakeProps | gossamer.js:331 | a slice of a duplicate-free list is duplicate-free and keeps members of the list |
| Ships.WithIntroductionProps | gossamer.js:333 | adding `introduction` keeps the tags distinct |
| Ships.PickedTonesProps | gossamer.js:331 | the picked tones are distinct possible tones, as many as requested when enough exist |
| Ships.ChatTagsProps | gossamer.js:327-333 | `introduction` appears exactly on a first interaction; the tags are distinct and otherwise possible tones; the count is the picked tones plus the introduction |
| Ships.Bump | gossamer.js:337-340 | one more direct interaction and marked refreshed, nothing else changed |
| Ships.Touch | gossamer.js:336-341 | the looked-up ship is bumped, every other existing ship is unchanged, and no other ship is created |
| Ships.WithShipsKeys | gossamer.js:315-317 | the sort's lookups add exactly the missing ships from the actor to each candidate and change no existing ship |
| Ships.WithShipsNew | gossamer.js:315-317 | a ship created by the sort's lookups is a fresh ship with the draw of one of that candidate's lookups |
| Ships.WithShipsKeepsInvariants | gossamer.js:315-317 | the sort's lookups keep the table keyed and in range |
| Ships.AfterChatProps | gossamer.js:336-341 | after a chat both directions exist, both are bumped from their looked-up state, and all other ships are unchanged |
| Ships.Bounded | gossamer.js:420-421 | fairmath in [-100, 100] stays in [-100, 100] |
| Ships.ReflectShip | gossamer.js:416-439 | a reflected ship is in range and no longer refreshed, and only charge, spark and the marker change |
| Ships.BoundedMoves | gossamer.js:420-430 | fairmath in [-100, 100] moves in the direction of the add, strictly when away from the edge |
| Ships.ReflectDecays | gossamer.js:424-438 | without a refresh, a positive charge or spark falls and a non-positive one rises |
| Ships.ReflectZeroRises | gossamer.js:427-438 | decay moves a charge and spark of exactly 0 to 0.5 |
| Ships.ReflectSmallChargeCrossesZero | gossamer.js:427-430 | decay of a small positive charge overshoots below zero |
| Ships.ReflectRefreshed | gossamer.js:416-421 | after a refresh charge and spark move in the direction of their deltas, strictly when away from the edge |
| Ships.ReflectAll | gossamer.js:415-440 | every ship of a character is reflected and is in range and unmarked afterwards |
| Ships.ReflectSource | gossamer.js:415 | reflecting one character's ships leaves every other source alone |
| Ships.ReflectSourceKeepsInvariants | gossamer.js:415-440 | reflection keeps the table keyed and in range |
| Ships.ReflectEach | gossamer.js:415-440 | the loop over a character's ships, in any order, yields the reflection of all of them |
| Ships.ReflectSourcesEach | gossamer.js:409-440 | reflecting each character of a duplicate-free cast in turn reflects exactly the cast's ships |
| Memories.Elements | gossamer.js:118-125 | `for…of` over a value: a list yields its items, a string its characters, a number throws |
| Memories.AddEach | gossamer.js:118-126 | one temp-id add per element, in order |
| Memories.BuildAddMemoryTx | gossamer.js:115-131 | the loop builds the specified add-memory transaction, or stops at the first entry that cannot be iterated |
| Memories.AppendEach | gossamer.js:118-126 | the inner loop appends one add per element |
| Memories.ErrorPersists | gossamer.js:115-131 | the first failing entry decides the error |
| Memories.AddMemoryTxShape | gossamer.js:115-131 | fails exactly when a `tags` or `bystanders` entry holds a number; otherwise the transaction has one datom per scalar entry and one per list element |
| Memories.AddDatom | gossamer.js:24-27 | adding a datom defines that attribute and changes no other |
| Memories.ApplyTx | gossamer.js:132-133 | a transaction that uses the temp id allocates exactly one new entity id |
| Memories.ValuesForAppend | gossamer.js:24-27 | the values of a cardinality-many attribute accumulate over a transaction |
| Memories.LastValueAppend | gossamer.js:24-27 | a cardinality-one attribute holds the last value asserted |
| Memories.ReadsAsViewEmpty | gossamer.js:132-133 | an empty entity reads as an empty transaction |
| Memories.AddDatomView | gossamer.js:132-133 | each add keeps the entity equal to the view of the transaction so far |
| Memories.ApplyTempAdds | gossamer.js:132-133 | a nonempty temp-id transaction creates one new entity, leaves the others alone, and the new entity reads as the transaction's view |
| Memories.ApplyTempAddsKeys | gossamer.js:132-133 | temp-id adds touch only the new entity |
| Memories.ApplyTempAddsView | gossamer.js:132-133 | the new entity reads as the transaction's view |
| Memories.TxViewAt | gossamer.js:115-131 | the transaction's tag and bystander values are the elements of the lists, each scalar key holds its last entry's value, and list keys are never stored |
| Memories.DistinctKeysLastEntry | gossamer.js:117 | with distinct keys, as object entries have, each key's last value is its own |
| Memories.ViewHoldsScalars | gossamer.js:127-129 | every scalar entry is stored under its own key |
| Memories.ViewHoldsElements | gossamer.js:118-126 | tags and bystanders are stored as the sets of their elements |
| Memories.ViewHoldsNoListKeys | gossamer.js:118-126 | `tags` and `bystanders` are never stored as attributes |
| Memories.ViewHoldsMemory | gossamer.js:115-133 | the stored entity holds the memory |
| Memories.AddMemoryRoundTrip | gossamer.js:115-133 | adding a memory keeps the store valid, allocates one fresh entity, changes no other entity, and the new entity holds the memory |
| Memories.EntryView | gossamer.js:117-130 | one entry's datoms define its attribute alone: a scalar entry its value, a list entry its elements |
| Memories.AddEachView | gossamer.js:118-126 | adds of a list define exactly the set of its elements |
| Memories.DecayTx | gossamer.js:441-454 | one datom per memory in query order: the new strength when positive, a retraction otherwise |
| Memories.DecayedProps | gossamer.js:441-455 | decay keeps the store valid and the id counter; a memory survives exactly when its strength stays positive and then loses 10; other entities are unchanged |
| Memories.DecayOpStep | gossamer.js:447-453 | each decay datom decays one more memory |
| Memories.DecayTxSnoc | gossamer.js:446-454 | the decay transaction grows by one datom per memory |
| Memories.Members | gossamer.js:446 | the set of ids a query result lists |
| Memories.DecayTxPartial | gossamer.js:446-455 | applying the datoms of some memories decays exactly those memories |
| Memories.DecayTxApplies | gossamer.js:441-455 | applying the decay transaction for every memory, in any order, gives the decayed store |
| Memories.BuildDecayTx | gossamer.js:441-455 | the loop over the query results builds a transaction whose effect is the decayed store |
| Memories.DecayTermination | gossamer.js:447-453 | after k reflections a memory of strength s survives exactly while s - 10k > 0, with that strength |
| Gossamer.DigitChar | gossamer.js:40 | a digit value is written as a decimal digit |
| Gossamer.DigitValue | gossamer.js:40 | a decimal digit reads as a value below 10 |
| Gossamer.DecimalString | gossamer.js:40 | the decimal form of a counter is a nonempty run of digits |
| Gossamer.DecimalRoundTrip | gossamer.js:40 | the decimal form of n reads back as n |
| Gossamer.DecimalInjective | gossamer.js:40 | different counters have different decimal forms |
| Gossamer.FirstDigit | gossamer.js:40 | the position of the first digit of an id |
| Gossamer.FirstDigitAfterPrefix | gossamer.js:40 | an id's digits start right after a digit-free prefix |
| Gossamer.GeneratedIdsDistinct | gossamer.js:37-41 | ids from digit-free prefixes are equal exactly when prefix and counter are |
| Gossamer.Values | gossamer.js:143 | `Object.values` of a row, in order |
| Gossamer.HasKeyCons | gossamer.js:143 | a row has a key exactly when its first or a later entry does |
| Gossamer.SetRateKeys | gossamer.js:143 | setting a rate sets that key and no other |
| Gossamer.ValuesTail | gossamer.js:143 | the values of a row's tail are the tail of its values |
| Gossamer.SetRateLength | gossamer.js:143 | setting a rate adds an entry exactly when the key was missing |
| Gossamer.SetRateTotal | gossamer.js:143 | setting a rate changes the row's total by the difference |
| Gossamer.NormalizeRowSums | gossamer.js:142-144 | an empty row throws; otherwise the row's own tag gets 100 minus the row, and a row without its own tag then sums to 100 |
| Gossamer.RateOfAbsent | gossamer.js:143 | a missing key has no rate |
| Gossamer.NormalizableRows | gossamer.js:142-144 | the loop gets as far as the first empty row |
| Gossamer.NormalizedPrefix | gossamer.js:142-144 | normalising keeps the number of rows |
| Gossamer.NormalizeRates | gossamer.js:142-144 | the loop normalises every row before the first empty one, and runs to the end exactly when no row is empty |
| Gossamer.TotalOfThree | gossamer.js:137-140 | the total of a three-entry row |
| Gossamer.HasKeyOfThree | gossamer.js:137-140 | the keys of a three-entry row |
| Gossamer.InitialRow | gossamer.js:136-141 | each row as written is nonempty, lacks its own tag, and sums to 25, 25, 15 and 20 |
| Gossamer.InitialRowsNormalizable | gossamer.js:136-144 | no row as written is empty, so the loop reaches all four rows |
| Gossamer.InitialRowNormalized | gossamer.js:136-144 | each row as written, once normalised, sums to 100 |
| Gossamer.InitialRatesNormalized | gossamer.js:136-144 | after loading, every row sums to 100, and staying the same has rates flirty 75, friendly 75, neutral 85 and rude 80 |
| Gossamer.Without | gossamer.js:323 | the bystanders are the others except the target, with every copy of the target removed; nothing is removed when the target is absent |
| Gossamer.ChatLooksUpEveryOther | gossamer.js:313-341 | with two or more others present, after a chat the actor has a ship to each of them; a bystander's existing ship is unchanged and a created one is fresh |
| Gossamer.World.constructor | gossamer.js:136-144 | empty tables, counter at -1, rates normalised |
| Gossamer.World.GenId | gossamer.js:37-41 | bumps the counter and returns the prefix followed by its decimal form |
| Gossamer.World.GetOrCreateShip | gossamer.js:43-54 | non-string ids throw with the first bad id and change nothing; otherwise the ship is looked up or created and returned |
| Gossamer.World.PositiveFeeling | gossamer.js:68-71 | the looked-up ship's positive charge plus positive spark |
| Gossamer.World.CharSalience | gossamer.js:73-77 | 250 for the same string id or the same non-string value, without a lookup; a non-string id that is not the same throws and changes nothing; otherwise the looked-up ship's salience, 0 to 220 |
| Gossamer.World.MemorySalience | gossamer.js:79-83 | the actor's salience plus the target's when the target is present and nonempty, with both lookups' effect on the table |
| Gossamer.World.WouldInviteToHangOut | gossamer.js:103-106 | true exactly when the looked-up ship has attraction or liking |
| Gossamer.World.RegisterCharacter | gossamer.js:172-177 | the character gets an empty memory store and joins the cast |
| Gossamer.World.AddMemory | gossamer.js:115-134 | an entry that cannot be iterated or an unknown character is an error that changes nothing; otherwise the character's store is the store after the add-memory transaction |
| Gossamer.World.Chat | gossamer.js:313-345 | with two or more others, the sort's comparator first looks up a ship from the actor to each of them; then both ships are looked up and bumped, one id is generated, and the logged action records actor, target, place, day, bystanders and the intended tags |
| Gossamer.World.SortLookups | gossamer.js:315-317 | the comparator's `positiveFeeling` calls leave the ship table with a ship from the actor to each candidate, created with the given draws, and nothing else changed |
| Gossamer.World.LogAction | gossamer.js:344 | the action is stored under its id |
| Gossamer.World.TouchShip | gossamer.js:318-341 | looks up the ship and bumps it in place, returning it as it was before the bump |
| Gossamer.World.ReflectShips | gossamer.js:415-440 | reflects one character's ships |
| Gossamer.World.DecayMemories | gossamer.js:441-455 | decays one character's memories |
| Gossamer.World.Reflect | gossamer.js:409-456 | reflects the ships of every registered character, leaves ships of unregistered sources alone, and decays every store |
| Gossamer.DecaySourcesEach | gossamer.js:409-455 | decaying each character of a duplicate-free cast in turn decays exactly their stores |
| Gossamer.TempAddsKeepStoreValid | gossamer.js:132-133 | a temp-id transaction keeps a store valid |

## Left out

- Startup is not modelled: homes, businesses, favourite places, sabbaths, placement of characters, and the `doTicks`/`tick` driver. These set up data and schedule the phases; they state nothing beyond the operations modelled here.
- The observation phase and `maybeMutate` are not modelled, because they call `weightedChoice` and `biasedRandNth`. Neither function is defined in the source.
- Gossamer.World.Chat: the order the sort puts the candidates in and the choice via `biasedRandNth` are not modelled, so the chosen target is a parameter. The ships created by the comparator's `positiveFeeling` calls are modelled. Their draws are given in the order of the lookups, which `Array.prototype.sort` does not fix, and a single candidate is never compared.
- `newActions` is not modelled; `Chat` returns the action instead.
- The broadcast and solo branches of the day are empty placeholders in the source.
- `avg`, `clone`, `chance` and `randNth` are left out. Randomness is a parameter, JSON cloning is identity on the values modelled, and `avg` is not used by the core.
- `loveInterest`, `bestFriend`, `worstEnemy`, `directInteractionHistory` and `getAllMemories` are queries that nothing in the core calls.
- Datascript is replaced by an explicit entity store with `:db/add` and `:db/retractEntity`. Datalog queries are not evaluated; the memory query of the reflection phase is its set of results, in any order.
- Sifting patterns are not run against the store. The reflection loop over them is empty in the source.
- Console output and timing with `performance.now` are left out, including the `console.warn` for simple clauses with more than three parts. It does not change the result.
- JavaScript key coercion is not modelled: property keys are strings, and keys like `__proto__` are not special. Nor are NaN, Infinity or strings as strengths.
- Integers are unbounded. The id counter and the decimal form do not switch to exponent notation above 10^21.
- Util.Fairmath: requires min != max, because the source divides by `max - min` and would produce NaN or Infinity. Floating point is not modelled.
- Microfelt.QuotewrapIfNeeded: `parseFloat` is modelled by how the text starts: after whitespace and an optional sign comes a digit, a point and a digit, or `Infinity`. The numeric value it reads is not modelled, because only whether it is NaN matters here.
- Aliasing of ship objects is not modelled. The source only ever updates a ship through its table entry, so the table's keyed updates capture every change.
- Gossamer.World.CharSalience: a non-string value is told apart by an integer standing for its identity under `===`; NaN, which is not `===` to itself, is not modelled.
- Gossamer.World.Chat: the tone count is a parameter limited to 1 or 2, matching `chance(0.75) ? 1 : 2`.
