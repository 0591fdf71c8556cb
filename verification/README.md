# Reloading an IRC server's registries, verified

ObbyIRCd loads, unloads and reloads its modules while users stay connected. What modules bring along lives in
registries: channel modes, client capabilities, extended bans, timed events. Every channel and client holds bits,
slots and letters that those registries handed out, and a rehash replaces the owners underneath them. This project
models those registries, the circular list header they share a style with, and the alias expander, and proves what
stays true through any sequence of loads, unloads, rehashes and uses.

The project has two layers. Specification modules hold value types, functions, state machines and the lemmas about
them. The `*Api` modules (and `IntrusiveList`, `MemberModeStrings`, `CStrings`, `Aliases`, `AliasTemplates`) hold the
imperative code: classes with the server's fields, loops over its lists, buffers and pointers edited in place. Each
method's postcondition equates the new state with the specification function of the old one, so the lemmas speak about
the code.

| files | component |
|---|---|
| `ChannelModes`, `ChannelModeInvariant`, `ChannelModeRuns`, `ChannelModeLimits`, `ChannelModeOrder`, `ChannelModeParameters`, `ChannelModeEffects`, `ChannelModeStale`, `ChannelModeExamples`, `ChannelModeApi` | channel mode registry, with all channels, as a state machine |
| `MemberModeStrings`, `ChannelModeTokens`, `MemberRanks`, `LetterOrder` | member mode strings, PREFIX, STATUSMSG and CHANMODES tokens, prefix conversions, letter order |
| `ClientCaps`, `ClientCapRehash`, `ClientCapExamples`, `ClientCapApi` | client capability registry and its rehash protocol |
| `IntrusiveList` | the circular doubly linked list, on the heap |
| `BanMask`, `ExtBans`, `ExtBanApi` | ban masks and extended bans |
| `Events`, `EventRuns`, `EventLife`, `EventApi` | event scheduler |
| `Aliases`, `AliasTemplates` | word ranges and templates of command aliases |
| `Common`, `CStrings` | shared definitions; NUL-terminated buffers |

Main results:

- Whenever a bit is set on a channel, an earlier MODE set it there for a mode, it has stayed set since, and it still
  belongs to that very registration; a bit passes to another mode only by way of a state in which no channel has it set
  (`SetBitHasItsSetter`, `BitPassesOnlyWhenClear`).
- What the bits of a client's capability word stand for is, through any number of rehashes, exactly what the client
  enabled, did not disable, and has existed ever since (`RunRefines`, `RunWithThirty`); one rehash clears exactly the
  right bits if and only if those bits survive the snapshot, which is limited in width and in length (`RehashWordIff`).
- A DoEvents pass over a list that its own callbacks change calls only events that were there, in order, at most once,
  and every due one nobody touched; over a whole run an event is called at most as often as asked, never too soon
  by a millisecond or more, and is listed exactly until it has had its calls (`PassCalls`, `PassCallsDue`,
  `CallsOverRun`, `LivesUntilCalled`).
- What is still there after a rehash is decided by the last module that deleted it or asked for it, for channel modes
  and for capabilities (`RehashKeepsReclaimed` in both).
- Every list operation refines the matching sequence operation on real `next` and `prev` pointers; cut and splice back
  is the identity; the safe walk visits everything once while elements leave (`CutAndSpliceBack`, `ForEachSafe`).
- Printing and parsing an extended ban give it back under an exact condition (`PrintParseIff`), converting twice is
  converting once (`ConvIdempotent`), and when the check and the conversion agree is stated exactly, for bans of any
  length (`CheckAndConvAgreeIff`).
- Reading an alias template gives back the pieces it was written from, in every spelling (`ReadsAll`,
  `AllReadSpelled`); `strrangetok` and the template loop give what they should under an exact condition on the request
  (`RangeTokIff`, `ExpansionRightIff`).

Where the code falls short of the obvious claim, the model keeps the code, a lemma states the exact condition, and
another shows the failing side at a concrete run or input:

- A mode without a letter makes the next new registration abort the server, and is never unloaded by a rehash
  (`AbortsExactlyAfterLetterless`, `RehashRemovesExactlyUnused`; `LetterlessThenAbort`, `LetterlessOutlivesRehash`).
- Running out of parameter slots leaves a nameless entry with a letter and a bit (`OutOfSpace`, `LeftoverBlocksLetter`;
  `SeventeenthParameter`).
- Reviving a mode with another type, parameter count, letter or rank can orphan a set bit, break the slot tables, leave
  a set mode without its parameter, or leave member strings out of order (`ReviveKeepsBitsIff`, `ReviveKeepsTablesIff`,
  `ReviveKeepsParametersIff`, `ReviveKeepsRankedIff`; `ComesBackAsMember`, `ComesBackWithoutParameter`,
  `ComesBackWithParameter`, `ComesBackNeedingParameter`, `ComesBackWithRank`).
- Unloading a set parameter mode leaves a freed pointer in its cell, which the handler of a later mode in that slot is
  given (`StaleIff`, `HandlerGivenStaleIff`; `NextModeGetsStaleCell`).
- The letter order is cyclic on the characters between upper and lower case, so the mode list is in order only as long
  as it does not mix the three (`OrderTransitiveIff`, `InsertKeepsSortedIff`, `RunSortedIff`; `CyclicLetters`).
- The "equal or greater" expansion compares ranks with a letter code, and gives nothing if a letter is not registered
  (`EqualOrGreaterIff`; `ShippedRanks`, `NoHalfOperators`).
- Capability bits from 31 up, and capabilities beyond the first 79, do not survive the snapshot (`ThroughIntIff`,
  `RehashWordIff`; `HighBitStays`, `SignBitTakesOthers`, `UnsavedBitStays`). The comment at src/api-clicap.c:26-28 calls
  the latter safe, which holds for advertise-only ones.
- Deleting a capability outside a rehash leaves its bit on clients, and the next capability gets it
  (`DropOutsideRehash`; `LeftoverBitIsReused`).
- An event may run up to one millisecond early, because the microseconds are divided toward zero on their own, although
  the comment on EventAdd says never; and intervals below 100 ms are accepted, although that comment says they are
  rejected (`DueExactly`; `DueTooEarly`, `Scheduler.EventAdd`).
- The conversion of an extended ban works on a cut copy and passes unknown bans on, so it can accept what the check
  refuses (`CheckAndConvAgreeIff`; `CutHidesStacking`, `UnknownDisagrees`).
- `strrangetok` reads past a trailing separator and gives more than the words after a doubled one (`OverrunIff`,
  `RangeTokIff`; `TrailingSeparatorOverruns`, `DoubledSeparatorGivesMore`).
- An alias reference to a missing word prints its own last character, and a template that ends in a lone percent sign is
  read past its end if the limit is not reached before (`ExpansionRightIff`, `ExpandedNoneIff`; `MissingWordShowsDigit`,
  `LonePercentOverruns`).

Assumptions that the run lemmas make explicit (`Legal`): a revived mode keeps its letter, name, type, parameter count
and rank; member modes have distinct ranks; a joining user is given no letter twice. Ints are mathematical; the `int`
snapshot of a `long` word is modelled bit by bit.

## Model

| member | source | states |
|---|---|---|
| `LetterOrder.OrderTransitiveIff` | src/misc.c:2574-2583 | three characters break transitivity exactly when they are an upper case letter, one of the six characters between the cases and a lower case letter, in a circle |
| `LetterOrder.OrderIsTotalOtherwise` | src/misc.c:2574-2583 | away from those six characters the order is a strict total order |
| `ChannelModes.FindMatch` | src/api-channelmode.c:331-359 | the entry found is the first that has the requested letter or name; none found means none matches |
| `ChannelModes.FreeBit` | src/api-channelmode.c:366-394 | the bit chosen is the lowest that no mode holds |
| `ChannelModes.FreeSlot` | src/api-channelmode.c:415-437 | the slot chosen is the lowest free one |
| `ChannelModeInvariant.SameOrApart` | src/api-channelmode.c:331-437 | under the invariant two listed modes are the same entry or differ in id, letter, bit and slot |
| `ChannelModeInvariant.InsertPositionExists` | src/api-channelmode.c:264-299 | the sorted walk finds a place exactly when no listed mode lacks a letter |
| `ChannelModeInvariant.ReviveIsUnmark` | src/api-channelmode.c:331-359 | reviving with an unchanged request changes nothing but the unload mark |
| `ChannelModeInvariant.MarkKeepsInv` | src/api-channelmode.c:503-522 | marking for unload keeps the registry invariant |
| `ChannelModeInvariant.AddKeepsInv` | src/api-channelmode.c:311-475 | registering a mode, whatever its outcome, keeps lists, both slot tables and every channel consistent |
| `ChannelModeInvariant.CommitKeepsInv` | src/api-channelmode.c:530-625 | committing an unload keeps them consistent: bits owned, parameters present, member strings ranked |
| `ChannelModeInvariant.CommitUnusedKeepsInv` | src/api-channelmode.c:628-641 | so does the sweep at the end of a rehash |
| `ChannelModeInvariant.DelLetterKeepsRanked` | src/misc.c:2559-2572 | taking a letter out of a ranked member string leaves a ranked string without it |
| `ChannelModeRuns.InsertByRankPlace` | src/api-channelmode.c:936-969 | a letter goes behind every letter of at least its rank and before the first of lower rank |
| `ChannelModeRuns.AddLetterKeepsRanked` | src/api-channelmode.c:936-969 | the string gains the letter exactly when that is a member mode and there is room, stays within its buffer, and is ranked afterwards if and only if nothing was added or the letter was not there before |
| `ChannelModeRuns.ChannelStepKeepsOk` | src/modules/mode.c:757-793 | setting, clearing, joining, leaving, granting and taking keep a channel consistent with the registry |
| `ChannelModeRuns.StepKeepsInv` | src/api-channelmode.c:311-641 | every operation keeps the invariant over registry and channels |
| `ChannelModeRuns.RunKeepsInv` | src/api-channelmode.c:311-641 | every reachable state satisfies the invariant: tables mutually inverse, bits distinct, set bits owned |
| `ChannelModeRuns.CommitBits` | src/api-channelmode.c:537-595 | committing an unload clears that mode's bit on every channel; every other mode keeps its bit, set on exactly the channels it was |
| `ChannelModeRuns.StepBits` | src/api-channelmode.c:311-641 | one step leaves a bit with its mode, or leaves it set on no channel |
| `ChannelModeRuns.BitPassesOnlyWhenClear` | src/api-channelmode.c:366-394 | if a bit belongs to different modes at two moments of a run, at some moment between no channel has it set |
| `ChannelModeRuns.SetBitKeepsItsMode` | src/api-channelmode.c:530-641 | as long as a bit stays set on a channel it belongs to the same mode, and to no other |
| `ChannelModeRuns.OnlySetModeSets` | src/modules/mode.c:779-784 | the only step that sets a bit on a channel is MODE, and the bit is that of the mode it names |
| `ChannelModeRuns.SetBitHasItsSetter` | src/api-channelmode.c:331-394 | in every reachable state each bit set on a channel was set there by an earlier MODE, has stayed set since, and belongs to exactly the mode that MODE named |
| `ChannelModeRuns.ReachableSeat` | src/api-channelmode.c:936-981 | in every reachable state both copies of a user's modes agree, are at most 7 letters of member modes in descending rank, and their prefixes are a subsequence of STATUSMSG |
| `ChannelModeEffects.AddRegisters` | src/api-channelmode.c:311-475 | a registration that succeeds reports the id and the bit of a listed, unmarked entry with every field as requested; all other entries and all channels stay |
| `ChannelModeEffects.AddRefusesIff` | src/api-channelmode.c:316-408 | when a registration is refused as invalid or existing, which changes nothing |
| `ChannelModeEffects.DelEffect` | src/api-channelmode.c:503-522 | deleting marks exactly that entry in a rehash, and takes exactly that entry off the list otherwise |
| `ChannelModeEffects.RehashKeepsReclaimed` | src/api-channelmode.c:331-359 | a mode is listed after a rehash if and only if the last module to delete it or ask for it asked for it, or it has no letter |
| `ChannelModeEffects.ModeEffect` | src/modules/mode.c:779-791 | MODE sets or clears exactly the mode's bit on one channel, and stores or removes its parameter in its slot and nowhere else |
| `ChannelModeEffects.DelLetterEffect` | src/misc.c:2559-2572 | the first occurrence of the letter goes; every other letter stays, in order |
| `ChannelModeEffects.CommitSeats` | src/api-channelmode.c:597-620 | unloading a member mode takes its letter, and nothing else, from every user |
| `ChannelModeEffects.ChannelComesAndGoes` | src/channel.c:1007-1139 | a new channel has nothing set, no parameter and nobody on it; a destroyed one is gone; the others and the registry stay |
| `ChannelModeEffects.OneChannelEffect` | src/channel.c:515-598 | an operation on a user of a channel leaves the registry, the other channels and the modes of the channel as they are |
| `ChannelModeEffects.LetterEffect` | src/api-channelmode.c:971-981 | granting or taking a letter changes one user's string by that letter and no other user's |
| `ChannelModeEffects.PartEffect` | src/channel.c:566-598 | a user who leaves is gone, and every other user's strings stay |
| `ChannelModeEffects.JoinEffect` | src/channel.c:515-553 | a user who joins has exactly those of up to seven letters that are member modes |
| `ChannelModeEffects.RunSeatedOnce` | src/channel.c:515-598 | in every reachable state a user has at most one member string on a channel |
| `ChannelModeEffects.RunMapsOnlyListed` | src/api-channelmode.c:246-262 | in every reachable state the letter map names a slot other than 0 only for letters of parameter modes |
| `ChannelModeLimits.AbortsExactlyAfterLetterless` | src/api-channelmode.c:274-277 | a new registration that passes its checks aborts exactly when some listed mode has no letter |
| `ChannelModeLimits.RehashRemovesExactlyUnused` | src/api-channelmode.c:628-641 | a rehash removes exactly the marked modes that have a letter |
| `ChannelModeLimits.OutOfSpace` | src/api-channelmode.c:412-437 | the registry is unchanged on "no space" if bits ran out; if slots did, a nameless entry with letter and bit stays |
| `ChannelModeLimits.LeftoverBlocksLetter` | src/api-channelmode.c:331-359 | a listed letter refuses every other registration of it, or is revived by it if marked |
| `ChannelModeLimits.ReviveKeepsBitsIff` | src/api-channelmode.c:331-359 | a registration that revives a mode keeps every set bit owned if and only if the mode becomes a normal mode or is set nowhere |
| `ChannelModeLimits.ReviveKeepsTablesIff` | src/api-channelmode.c:439-464 | a registration that revives a mode keeps the slot tables consistent if and only if no parameter is dropped and no other mode sits in the slot or letter taken over |
| `ChannelModeLimits.ReviveKeepsParametersIff` | src/api-channelmode.c:415-464 | after a registration that revives a mode every set parameter mode has its parameter if and only if the mode comes back without one, or its slot held data wherever it is set |
| `ChannelModeLimits.ReviveKeepsRankedIff` | src/api-channelmode.c:439-464 | after a registration that revives a mode all member strings are in order of rank if and only if none uses a letter the mode gives up, and the new rank is in its place wherever the letter is used |
| `ChannelModeOrder.InsertKeepsSortedIff` | src/api-channelmode.c:264-299 | inserting a new letter into a sorted list keeps it sorted if and only if upper case, lower case and one of the six characters between them do not all occur |
| `ChannelModeOrder.InsertKeepsSorted` | src/api-channelmode.c:264-299 | in particular if none of the six characters occurs |
| `ChannelModeOrder.RunSortedIff` | src/api-channelmode.c:264-299 | over any run the list has been sorted all along if and only if the three kinds never occurred together |
| `ChannelModeParameters.OwnParameter` | src/api-channelmode.c:651-687 | what is put under a letter is what is read, freeing it leaves an empty cell, unloading the mode leaves a stale one, and the table names its mode |
| `ChannelModeParameters.OtherParameters` | src/api-channelmode.c:673-687 | putting, freeing or unloading one letter's parameter never changes what another letter reads |
| `ChannelModeParameters.InvHandlers` | src/api-channelmode.c:740-774 | every handler in the table is listed and sits in the slot it is found at |
| `ChannelModeParameters.SetParameterPresent` | src/api-channelmode.c:415-437 | a parameter mode that is set has its parameter in its slot, and the table knows the slot |
| `ChannelModeStale.StaleStep` | src/api-channelmode.c:585-595 | a cell is stale after a step exactly if the step unloads the mode set in it, or it was stale and the step stores or clears nothing there |
| `ChannelModeStale.StaleIff` | src/api-channelmode.c:530-641 | over any run a cell holds a freed pointer if and only if its mode was unloaded while set there and nothing has been stored or cleared in it since |
| `ChannelModeStale.HandlerGivenStaleIff` | src/api-channelmode.c:673-687 | a registered parameter mode's handler is given a freed pointer for a channel exactly in that case, and never while the mode is set there |
| `ChannelModeExamples.LetterlessThenAbort` | src/api-channelmode.c:274-277 | registering a mode without letter and then any other normal one aborts |
| `ChannelModeExamples.LetterlessOutlivesRehash` | src/api-channelmode.c:628-641 | a run from boot after which a marked mode without letter is still listed and the rehash is over |
| `ChannelModeExamples.ComesBackAsMember` | src/api-channelmode.c:331-359 | a run from boot after which a channel has a bit set that no mode owns |
| `ChannelModeExamples.ComesBackWithoutParameter` | src/api-channelmode.c:439-464 | a run from boot after which the table names a mode that has no slot |
| `ChannelModeExamples.ComesBackWithParameter` | src/api-channelmode.c:415-437 | a run from boot after which two parameter modes share slot 0 |
| `ChannelModeExamples.ComesBackNeedingParameter` | src/api-channelmode.c:439-464 | a run from boot after which a parameter mode is set and its cell is empty |
| `ChannelModeExamples.ComesBackWithRank` | src/api-channelmode.c:439-464 | a run from boot after which a user's letters are not in order of rank |
| `ChannelModeExamples.NextModeGetsStaleCell` | src/api-channelmode.c:585-595 | a run from boot after which a new mode's slot holds a freed pointer on a channel |
| `ChannelModeExamples.CyclicLetters` | src/api-channelmode.c:264-299 | registering A, _ and a gives a list that is not in order |
| `ChannelModeExamples.SeventeenthParameter` | src/api-channelmode.c:427-433 | after sixteen parameter modes the next is refused and stays listed without a name |
| `ChannelModeApi.Registry.constructor` | src/api-channelmode.c:237-243 | the registry starts empty, in the boot state of the state machine |
| `ChannelModeApi.Registry.FindExisting` | src/api-channelmode.c:331-359 | the loop finds the first colliding entry |
| `ChannelModeApi.Registry.AllocateBit` | src/api-channelmode.c:366-394 | the nested loops find the lowest unused bit |
| `ChannelModeApi.Registry.AllocateSlot` | src/api-channelmode.c:415-437 | the loop finds the lowest unused parameter slot |
| `ChannelModeApi.Registry.AddSorted` | src/api-channelmode.c:264-299 | the walk inserts where the specification says, or crashes on a letterless entry |
| `ChannelModeApi.Registry.ParaAddSlot` | src/api-channelmode.c:246-253 | table and letter map both record the mode's slot, nothing else changes |
| `ChannelModeApi.Registry.ParaDelSlot` | src/api-channelmode.c:256-262 | the slot is free in the table again; the letter maps to slot 0 |
| `ChannelModeApi.Registry.CmodeAdd` | src/api-channelmode.c:311-475 | the whole new state and the result are those of the state machine's registration step |
| `ChannelModeApi.Registry.UnsetOnAllChannels` | src/api-channelmode.c:537-620 | the loops unset the mode on every channel, and on every member of it |
| `ChannelModeApi.Registry.UnloadCommit` | src/api-channelmode.c:530-625 | the whole new state is that of committing the unload |
| `ChannelModeApi.Registry.CmodeDel` | src/api-channelmode.c:503-522 | a mark during a rehash, otherwise a commit at once |
| `ChannelModeApi.Registry.UnloadAllUnused` | src/api-channelmode.c:628-641 | the sweep commits the marked entries of the list as it was at the start, each once, in order |
| `ChannelModeApi.Registry.PutParameter` | src/api-channelmode.c:673-676 | the handler is given what the cell held, stale or not; the letter then reads the value, other letters and channels read what they did |
| `ChannelModeApi.Registry.DuplicateParamList` | src/api-channelmode.c:740-756 | every filled slot with a handler is copied into place, nothing else changes, and it reports whether a handler was given a stale pointer |
| `ChannelModeApi.Registry.FreeParamList` | src/api-channelmode.c:761-774 | every slot with a handler is emptied, the others untouched, and it reports whether a handler was given a stale pointer |
| `MemberModeStrings.AddLetterInPlace` | src/api-channelmode.c:936-969 | shifting and writing in the buffer gives the ranked insertion on strings |
| `MemberModeStrings.DelLetterInPlace` | src/misc.c:2559-2572 | the buffer then holds the string without the first occurrence of the letter |
| `CStrings.StrLCat` | src/support.c:261-280 | the buffer holds both strings joined, cut to its size and terminated |
| `ChannelModeTokens.OneClass` | src/api-channelmode.c:54-85 | every lettered normal mode is in exactly one CHANMODES class, a member mode in none |
| `ChannelModeTokens.ClassesMean` | src/api-channelmode.c:54-85 | a letter is in class B, C or D exactly as its mode takes a parameter always, only when set, or never |
| `ChannelModeTokens.AtMostBits` | src/api-channelmode.c:366-394 | there are never more than 63 normal modes |
| `ChannelModeTokens.MakeExtCmodeStr` | src/api-channelmode.c:54-85 | the three strings are the letters of the three classes in list order, and each fits 64 bytes with its terminator |
| `ChannelModeTokens.SortByRank` | src/api-channelmode.c:182-201 | the exchange sort ends in descending rank, permutes the modes, and keeps letter, prefix and rank at the same index |
| `ChannelModeTokens.PrefixTokenReads` | src/api-channelmode.c:199-200 | a PREFIX token that fits is the letters in parentheses and behind them each prefix in its letter's place |
| `ChannelModeTokens.MakePrefix` | src/api-channelmode.c:153-205 | PREFIX lists all registered member modes by descending rank with each prefix under its own letter; STATUSMSG is those prefixes |
| `ChannelModeTokens.ConvertModes` | src/api-channelmode.c:1068-1117 | the loop converts letter by letter, leaving out letters without a prefix, within the buffer |
| `ChannelModeTokens.PrefixesFollowStatusmsg` | src/api-channelmode.c:1102-1117 | the prefixes of a ranked string are a subsequence of STATUSMSG |
| `ChannelModeTokens.SjoinRoundTripIff` | src/api-channelmode.c:1018-1066 | a member letter comes back from its server-to-server prefix if and only if it is a list letter or its prefix is unambiguous |
| `ChannelModeTokens.SjoinStringRoundTripIff` | src/api-channelmode.c:1068-1083 | a whole reachable string comes back, untruncated, if and only if each of its letters does |
| `ChannelModeTokens.SjoinFixed` | src/api-channelmode.c:1018-1066 | the symbols of the three list modes, both ways |
| `ChannelModeTokens.SjoinUnknown` | src/api-channelmode.c:1034-1065 | a letter or symbol of no member mode gives nothing |
| `MemberRanks.LowestRankingMode` | src/api-channelmode.c:1188-1202 | the letter returned is that of the member mode whose rank is the lowest occurring in the string, if there is one |
| `MemberRanks.LowestIsRegistered` | src/api-channelmode.c:1188-1202 | if all letters are registered it is one of them, of lowest rank |
| `MemberRanks.UnregisteredLetter` | src/api-channelmode.c:1145-1152 | a letter without a mode counts as rank 0, which no mode has, so the whole expansion is empty, unless another letter has a negative rank |
| `MemberRanks.GenerateEqualOrGreater` | src/api-channelmode.c:1209-1225 | the output is the letters of the member modes whose rank reaches the number the code compares with |
| `MemberRanks.EqualOrGreaterIff` | src/api-channelmode.c:1209-1225 | for every string, the output is the modes of equal or greater rank if and only if no member mode's rank falls between the lowest rank asked for and the code of its letter, or, if that rank has no letter, none reaches it |
| `MemberRanks.ShippedRanks` | src/api-channelmode.c:1209-1225 | with the shipped ranks "o" also yields half-operator, and "v" yields no voice |
| `MemberRanks.NoHalfOperators` | src/modules/chanmodes/floodprot.c:1852-1853 | where no half-operator mode is registered, "ho" yields nothing, although operators exist |
| `ClientCaps.AddOk` | src/api-clicap.c:160-232 | registering keeps names and bits distinct and never hands out the invert marker |
| `ClientCaps.FoldIff` | src/api-clicap.c:54-58 | names are the same exactly if they differ at most in case |
| `ClientCaps.AddRegisters` | src/api-clicap.c:160-232 | a registration that succeeds reports the bit of a listed, unmarked capability of that name with the flags asked for; the others stay |
| `ClientCaps.AddRefusesIff` | src/api-clicap.c:169-215 | when a registration is refused or aborts |
| `ClientCapRehash.RehashKeepsReclaimed` | src/api-clicap.c:168-297 | a capability is there after a rehash, with its bit, if and only if the last module to delete it or ask for it, if any, asked for it |
| `ClientCapRehash.ReloadKeeps` | src/api-clicap.c:172-175 | reloading its module keeps a capability and its bit |
| `ClientCaps.LowestFree` | src/api-clicap.c:113-135 | the bit handed out is at most one more than the number of bits in use |
| `ClientCaps.LowBitsOnly` | src/api-clicap.c:113-135 | if never more than n bits are registered at once, no bit above n is ever used; with 30 they fit an int |
| `ClientCapRehash.ThroughIntIff` | src/api-clicap.c:300-342 | clearing the saved words clears exactly the bits that went if and only if those are all below 31 or include all from 31 up |
| `ClientCapRehash.RehashWordIff` | src/api-clicap.c:300-380 | after a rehash of any number of capabilities every word is the old one minus the bits that went, if and only if each gone bit up to 31 was saved and either no higher one went, or bit 31 and all above it did |
| `ClientCapRehash.BitsStay` | src/api-clicap.c:160-297 | a surviving capability keeps its bit and no bit passes to another capability within a rehash |
| `ClientCapRehash.RehashKeepsEnabled` | src/api-clicap.c:281-380 | under that condition a client's enabled capabilities after a rehash are exactly those enabled before that still exist |
| `ClientCapRehash.RunRefines` | src/api-clicap.c:103-380 | over any run of enabling, disabling and such rehashes the word stands for the set of names the client enabled, kept and that never went |
| `ClientCapRehash.RunWithThirty` | src/api-clicap.c:30-32 | the same with no condition on what goes, if there are at most 79 capabilities and never more than 30 with a bit |
| `ClientCapRehash.DropOutsideRehash` | src/api-clicap.c:234-285 | deleting outside a rehash leaves every bit owned if and only if the client did not have it enabled |
| `ClientCapRehash.LeftoverBitIsReused` | src/api-clicap.c:113-135 | a concrete run in which a client ends up with a capability it never enabled |
| `ClientCapExamples.Registering` | src/api-clicap.c:113-232 | registering n capabilities, of which the first k want a bit, gives them the bits 1 to k, newest first in the list |
| `ClientCapExamples.HighBitStays` | src/api-clicap.c:320-321 | of 32 capabilities with a bit the last goes, and a client keeps its bit |
| `ClientCapExamples.SignBitTakesOthers` | src/api-clicap.c:320-321 | the one with bit 31 goes, and a client loses bit 32 as well |
| `ClientCapExamples.UnsavedBitStays` | src/api-clicap.c:26-28 | of 80 capabilities the one not saved goes, and a client keeps its bit |
| `ClientCapRehash.Announcements` | src/api-clicap.c:359-403 | CAP DEL goes out for exactly the saved names that went, CAP NEW for exactly the listed names that were not saved |
| `ClientCapRehash.MessagesInOrder` | src/api-clicap.c:362-380 | CAP DEL messages come in the order of the saved names |
| `ClientCapRehash.NewMessagesInOrder` | src/api-clicap.c:385-403 | CAP NEW messages come in the order of the list |
| `ClientCapRehash.OneMessage` | src/api-clicap.c:374-402 | one message for a name that went or came, none for one that stayed |
| `ClientCapApi.AffectingBits` | src/api-clicap.c:138-148 | a bit is in the word exactly if its capability has a tag handler or the flag |
| `ClientCapApi.Registry.constructor` | src/api-clicap.c:34-41 | the registry starts without capabilities and without saved ones |
| `ClientCapApi.Registry.FindReal` | src/api-clicap.c:50-61 | the first capability of that name, regardless of case |
| `ClientCapApi.Registry.AllocateCap` | src/api-clicap.c:113-135 | the nested loops find the lowest bit from 1 up that nobody has |
| `ClientCapApi.Registry.UpdateAffecting` | src/api-clicap.c:138-148 | the word is the union of the bits of the capabilities that affect message tags |
| `ClientCapApi.Registry.CapabilityAdd` | src/api-clicap.c:160-232 | list and result are those of the specification's registration |
| `ClientCapApi.Registry.CapabilityDel` | src/api-clicap.c:266-285 | a mark during a rehash, otherwise gone at once |
| `ClientCapApi.Registry.UnloadAllUnused` | src/api-clicap.c:287-297 | the marked capabilities are gone, the others stay in order |
| `ClientCapApi.Registry.PreRehash` | src/api-clicap.c:300-324 | the first 79 capabilities are saved, bits cut to int |
| `ClientCapApi.Registry.ClearCapForUsers` | src/api-clicap.c:327-342 | every local and unknown client loses the bits, and nothing else |
| `ClientCapApi.Registry.CheckForChanges` | src/api-clicap.c:349-408 | every client's word is stripped as specified and the messages are the CAP DELs followed by the CAP NEWs; at first boot nothing happens |
| `IntrusiveList.Node.constructor` | include/list.h:57-61 | a new node is a ring of one |
| `IntrusiveList.Init` | include/list.h:57-61 | the node is a ring of one |
| `IntrusiveList.Link` | include/list.h:69-77 | a node linked between neighbours extends the ring by it |
| `IntrusiveList.Add` | include/list.h:87-90 | the new node is first |
| `IntrusiveList.AddTail` | include/list.h:101-104 | the new node is last |
| `IntrusiveList.Unlink` | include/list.h:113-128 | the others form a ring; the entry keeps its stale pointers |
| `IntrusiveList.Delete` | include/list.h:130-134 | the list is the sequence without the element, and the element a ring of one |
| `IntrusiveList.Replace` | include/list.h:143-150 | the new node takes the place of the old one in the ring |
| `IntrusiveList.ReplaceInit` | include/list.h:152-157 | the new node takes the old one's place in the ring, even if that is alone, and the old one becomes a ring of one |
| `IntrusiveList.ReplaceElement` | include/list.h:152-157 | in a list, the element is replaced at its position |
| `IntrusiveList.Move` | include/list.h:174-178 | the element leaves its list and is first on the other, or first on the same one |
| `IntrusiveList.MoveTail` | include/list.h:185-190 | the element leaves its list and is last on the other, or last on the same one |
| `IntrusiveList.Empty` | include/list.h:207-229 | true exactly for the empty sequence, by either pointer |
| `IntrusiveList.IsSingular` | include/list.h:249-252 | true exactly for one element |
| `IntrusiveList.IsLast` | include/list.h:197-201 | true exactly for the last element |
| `IntrusiveList.RotateLeft` | include/list.h:235-243 | the first element becomes the last |
| `IntrusiveList.Cut` | include/list.h:254-264 | the list up to the entry and the list behind it |
| `IntrusiveList.CutPosition` | include/list.h:280-292 | the same with its special cases; from an empty list nothing is cut and the target is left as it was |
| `IntrusiveList.SpliceBetween` | include/list.h:294-306 | the ring is extended by all the elements; the emptied head keeps stale pointers |
| `IntrusiveList.Splice` | include/list.h:313-318 | the elements come first on the other list, in order |
| `IntrusiveList.SpliceTail` | include/list.h:325-330 | the elements come last on the other list, in order |
| `IntrusiveList.SpliceInit` | include/list.h:339-346 | as splice, and the source is an empty list |
| `IntrusiveList.SpliceTailInit` | include/list.h:356-363 | as splice at the tail, and the source is an empty list |
| `IntrusiveList.CutAndSpliceBack` | include/list.h:254-318 | cutting anywhere and splicing back restores the list and every pointer of its elements, unless it was empty: then it receives what the target held |
| `IntrusiveList.ForEachSafe` | include/list.h:579-583 | every element present at the start is visited once, in order, although the body may delete the current one or move it to another list; both lists hold exactly what the verdicts say |
| `Events.ActKeepsRest` | src/api-event.c:45-111 | whatever a callback does, the events listed stay where they are, none is undeleted, and new ones come in front |
| `Events.LoopCalls` | src/api-event.c:189-211 | from any point of a pass the calls are of events ahead and alive at that point, in order, at most once each |
| `Events.PassCalls` | src/api-event.c:185-214 | a pass calls only events listed and alive at its start, each at most once, in order; none added during the pass |
| `Events.PassCallsDue` | src/api-event.c:185-214 | a pass calls every event that is due and that no callback touches |
| `Events.PassCleansUp` | src/api-event.c:136-145 | afterwards no deleted event is listed, every other one is, and ids, owners and calls are consistent |
| `Events.DueExactly` | src/misc.c:2775-2795 | the answer is yes exactly if the interval has passed, or less than a millisecond is missing and the microseconds ran backwards |
| `Events.DueTooEarly` | src/misc.c:2786-2787 | an interval of one millisecond counts as over after one microsecond |
| `EventRuns.StepTracked` | src/api-event.c:45-214 | every step keeps the count of calls plus the calls left at the count asked for, and the calls spaced |
| `EventRuns.CallsOverRun` | src/api-event.c:185-214 | over any run an event nobody changes is called at most count times, and consecutive calls are more than every - 1 milliseconds apart |
| `EventLife.DelEffect` | src/api-event.c:82-111 | a deleted event is marked, disowned and relabelled, and otherwise unchanged |
| `EventLife.ModEffect` | src/api-event.c:170-179 | each field given is set, each other one kept |
| `EventLife.AddEffect` | src/api-event.c:49-65 | one new event in front with what was asked for, or nothing |
| `EventLife.TimeKept` | src/misc.c:2775-2795 | the time kept moves to now exactly when due or on the first call ever |
| `EventLife.MinusOneEnds` | src/api-event.c:193-197 | an event with count -1 is deleted in its turn without being called |
| `EventLife.CountedEffect` | src/api-event.c:201-209 | a call leaves an unlimited event as it was, takes one from a limited one, and deletes it with its last |
| `EventLife.TurnAlive` | src/api-event.c:189-211 | a turn leaves an event that nobody deletes alive with its calls to go, or it has had them all |
| `EventLife.PassAlive` | src/api-event.c:185-214 | so does a whole pass, cleanup included |
| `EventLife.LivesUntilCalled` | src/api-event.c:45-214 | over any run an event that nobody deletes is listed and alive if and only if it has had fewer calls than asked for, or no number was given |
| `EventApi.Scheduler.constructor` | src/api-event.c:28-28 | the scheduler starts without events |
| `EventApi.Scheduler.EventAdd` | src/api-event.c:45-76 | the event is listed first; negative numbers are refused, and nothing else |
| `EventApi.Scheduler.EventDel` | src/api-event.c:82-111 | the event is marked, relabelled and disowned, and stays listed |
| `EventApi.Scheduler.EventMod` | src/api-event.c:161-183 | exactly the fields flagged change |
| `EventApi.Scheduler.EventDelReal` | src/api-event.c:114-133 | the event is unlinked; its preconditions are the two conditions on which the server aborts |
| `EventApi.Scheduler.CleanupEvents` | src/api-event.c:136-145 | the list is its live events in order, and neither abort is reachable |
| `EventApi.Scheduler.DoEvents` | src/api-event.c:185-214 | the loop, whose callbacks change the list under it, terminates in the state of the specified pass |
| `BanMask.ConvertedIsProper` | src/channel.c:771-810 | the result has three non-empty parts within their lengths, made of the input's characters and stars |
| `BanMask.AddressIsHost` | src/channel.c:802-806 | a mask without ! and @ but with a dot or colon becomes a host |
| `BanMask.WordIsNick` | src/channel.c:808-809 | one with none of the four becomes a nick |
| `BanMask.UserAtHost` | src/channel.c:796-801 | without !, the last @ divides user and host |
| `BanMask.NickAndUser` | src/channel.c:793-809 | the first ! ends the nick; without @ behind it the rest is the user |
| `BanMask.NickUserHost` | src/channel.c:793-809 | the first ! and the last @ behind it divide nick, user and host |
| `BanMask.RefusedIff` | src/channel.c:776-791 | nothing is made of an empty mask or of one that starts with ~ and has no @, and of nothing else |
| `BanMask.TrimKeepsEnd` | src/channel.c:746-757 | a part too long keeps its end behind a star |
| `BanMask.PartLengths` | include/struct.h:179-181 | the limits are 30, 10 and 63 characters |
| `BanMask.ProperUnchanged` | src/channel.c:771-810 | a proper mask is left as it is |
| `BanMask.ConvertIdempotent` | src/channel.c:771-810 | converting twice is converting once |
| `ExtBans.FindLabel` | src/api-extban.c:41-58 | the entry found is the first that answers to the label |
| `ExtBans.AddOk` | src/api-extban.c:134-255 | registration keeps letters distinct, alphanumeric and sorted, and names valid |
| `ExtBans.AddRegisters` | src/api-extban.c:189-255 | a registration that succeeds lists the ban with every field as requested and no unload mark, and leaves the others |
| `ExtBans.AddRefusesIff` | src/api-extban.c:158-226 | when it is invalid, refused as existing, or left untouched |
| `ExtBans.ReclaimedSurvives` | src/api-extban.c:194-198 | a ban a module asks for during a rehash is there when it is over |
| `ExtBans.PrintParseIff` | src/api-extban.c:484-496 | parsing what was printed gives back ban and remainder if and only if it was not cut, the remainder is not empty and no earlier entry answers to the label |
| `ExtBans.DistinctNamesSuffice` | src/api-extban.c:41-76 | distinct names of at least two characters make every label unambiguous |
| `ExtBans.CheckIff` | src/api-extban.c:327-375 | what the shared check accepts: nothing stacked twice, no unknown ban, no action modifier, nothing that refuses stacking |
| `ExtBans.CheckRemovingIff` | src/api-extban.c:348-355 | when removing, a ban of unknown type passes as well, and nothing else does |
| `ExtBans.ConvIff` | src/api-extban.c:409-462 | what the shared conversion lets through: nothing stacked twice, no action modifier, nothing that refuses stacking, a convertible mask at the end; unknown bans pass unchanged |
| `ExtBans.ConvGives` | src/api-extban.c:409-462 | what comes out: the converted mask, or the label before what the shared conversion or the ban's own makes of the rest, or an unknown ban as it is |
| `ExtBans.CutKeepsLabel` | src/api-extban.c:440-441 | cutting the copy never changes which ban is found, only how much of the remainder is seen |
| `ExtBans.CheckAndConvAgreeIff` | src/api-extban.c:327-462 | for a ban of any length being added, check and conversion agree if and only if it is a convertible plain ban, or known and forbidden, or its own handlers agree on what each is given, or the cut copy shows the second stacking that the whole has and is otherwise convertible |
| `ExtBans.CutHidesStacking` | src/api-extban.c:440-441 | a long ban stacked twice that the check refuses and the conversion accepts |
| `ExtBans.UnknownDisagrees` | src/api-extban.c:443-447 | a ban of unknown type that the check refuses and the conversion passes on |
| `ExtBans.ConvIdempotent` | src/api-extban.c:409-462 | converting a converted ban changes nothing, if own conversions are idempotent, its label unambiguous and what is printed fits |
| `ExtBans.SharedFits` | src/api-extban.c:411-413 | with the shared conversion what is printed always fits |
| `ExtBanApi.Registry.constructor` | src/api-extban.c:28-39 | the registry starts empty, with both counters at zero |
| `ExtBanApi.Registry.FindRaw` | src/api-extban.c:41-58 | the loop finds the first entry that answers to the label |
| `ExtBanApi.Registry.FindByBantype` | src/api-extban.c:60-76 | the ban is taken apart at its first colon, into entry and remainder |
| `ExtBanApi.Registry.AddSorted` | src/api-extban.c:91-126 | the entry is inserted where the order puts it |
| `ExtBanApi.Registry.ExtbanAdd` | src/api-extban.c:134-255 | list and result are those of the specification, through revival, preregistration and refusal |
| `ExtBanApi.Registry.ExtbanDel` | src/api-extban.c:293-315 | a mark during a rehash, otherwise gone at once |
| `ExtBanApi.Registry.UnloadAllUnused` | src/api-extban.c:273-286 | the unmarked bans remain, in order |
| `ExtBanApi.Registry.IsValidName` | src/api-extban.c:79-89 | up to 32 lower case letters, digits, underscores and dashes |
| `ExtBanApi.Registry.IsExtendedBan` | src/channel.c:1475-1490 | the loop finds a tilde first and a colon somewhere behind it |
| `ExtBanApi.Registry.IsOkNuhExtban` | src/api-extban.c:327-375 | the recursion ends, gives the specified answer, and leaves the counter as it was |
| `ExtBanApi.Registry.ConvNuhOrExtban` | src/api-extban.c:409-462 | the recursion ends, gives the specified conversion, and leaves the counter as it was |
| `Aliases.StrRangeTok` | src/aliases.c:23-40 | the buffer holds the specified text, terminated, unless the loop reads past the input |
| `Aliases.OverrunIff` | src/aliases.c:27-32 | the loop reads past the input if and only if the separator before word n is the last character |
| `Aliases.RangeTokIff` | src/aliases.c:23-40 | the result is words n to m joined by the separator, if and only if that separator does not end the text, and is not doubled unless the words wanted run to the end |
| `Aliases.CleanText` | src/aliases.c:23-40 | in text without doubled or trailing separators the result is always those words |
| `Aliases.TrailingSeparatorOverruns` | src/aliases.c:27-32 | the second word of a text that ends in the separator is read past its end |
| `Aliases.DoubledSeparatorGivesMore` | src/aliases.c:27-38 | the second word of "a", two spaces and "b" is empty, but " b" comes out |
| `AliasTemplates.ReadsSpelled` | src/aliases.c:159-199 | a piece written in any of its spellings is read as that piece, up to where it ends |
| `AliasTemplates.ReadsAll` | src/aliases.c:156-200 | reading a template gives the pieces it was written from |
| `AliasTemplates.AllReadSpelled` | src/aliases.c:156-200 | every template is a way to write the pieces that are read from it |
| `AliasTemplates.PieceMeans` | src/aliases.c:162-195 | %% means a percent sign, %n and %N the name, other text and sequences themselves |
| `AliasTemplates.ReferenceMeans` | src/aliases.c:171-176 | %n means the n-th word, %n- all words from it on, %0 the request |
| `AliasTemplates.FirstWordAndRest` | src/aliases.c:171-176 | "%1-" hands the whole request on, "%1" its first word |
| `AliasTemplates.ReferenceFitsIff` | src/aliases.c:179-182 | a reference is appended exactly while the expansion stays below 499 characters |
| `AliasTemplates.PutReference` | src/aliases.c:164-184 | one reference: its words appended, the loop left at its last character if there are none, or the expansion ended if they do not fit |
| `AliasTemplates.PutPercent` | src/aliases.c:159-198 | one percent sequence in all its forms, with what remains to be expanded |
| `AliasTemplates.Expand` | src/aliases.c:149-201 | the loop terminates, keeps the string in the buffer as long as its index says, and leaves the specified expansion there |
| `AliasTemplates.ExpandedBound` | src/aliases.c:149-201 | the expansion never exceeds 562 characters, for names of up to 63 |
| `AliasTemplates.ShownIff` | src/aliases.c:159-198 | one piece is shown without reading out of bounds exactly when it is not a lone percent sign, nor a reference to a word that a trailing separator cuts off |
| `AliasTemplates.ExpandedNoneIff` | src/aliases.c:156-198 | the whole loop reads out of bounds if and only if it comes to such a piece below the limit, past only pieces that are in bounds and do not stop it |
| `AliasTemplates.ExpandedIsPrefix` | src/aliases.c:156-180 | the expansion is a whole number of pieces, and stops only before one that does not fit |
| `AliasTemplates.ExpansionRightIff` | src/aliases.c:149-201 | a template of which no piece stops the loop expands to what it means if and only if all of it is in bounds and no reference in it stands for nothing |
| `AliasTemplates.ShortIsWhole` | src/aliases.c:156-180 | no piece stops the loop if fewer than 499 characters are shown in all |
| `AliasTemplates.LonePercentOverruns` | src/aliases.c:159-162 | the template % is read past its end |
| `AliasTemplates.MissingWordShowsDigit` | src/aliases.c:177-178 | the template %2 on a request of one word gives "2" |

## Left out

- Sending and logging: messages to users and servers are not modelled, except the order and names of CAP DEL and CAP NEW; unsetting a mode on unload sends its MODE lines in the source.
- Module objects: which module owns a registration, and its error codes, are reduced to the outcome of the call.
- Memory: allocation, string duplication and freeing; a freed parameter is a `Stale` cell, a list is a sequence except in `IntrusiveList`.
- `paracount` is a boolean, as the source documents only 0 and 1; the handlers that store, free and copy parameters are represented by the value they leave.
- cm_getparameter_ex and cm_putparameter_ex: the same cell access on a detached list of parameters.
- MODE command: access checks, overrides, parameter conversion and limits of do_extmode_char; the state machine has its effect on the word, the cell and the member string.
- Joining a channel one is on already changes nothing in the model; the source leaves that check to the callers of add_user_to_channel. An empty channel is destroyed by a step of its own.
- Member mode strings in the state machine are values; the buffers edited in place are the subject of `MemberModeStrings`.
- make_cmodestr and the comparison of old and new tokens that decides on re-sending them: strings built from the tokens proved here.
- User modes, message tag handlers, history backends, RPC handlers and API callbacks: the same mark, revive and commit protocol with less attached to it.
- src/api-command.c: lists of commands by first letter, with a duplicate check that looks at the first match only.
- Message tag handlers that attach to a capability between two updates of the affecting word are a fixed flag per capability.
- A rehash that fails half-way through.
- Own handlers of extended bans, and is_banned: own checks and conversions are arbitrary functions of letter and remainder, so own handlers that call the shared ones are not covered.
- ExtbanAdd: the checks for a missing name, missing conv_param and missing is_banned_events, which are null pointers in the source.
- clean_ban_mask and the white-space branch of check_string, whose inputs it excludes.
- Nested DoEvents from inside a callback, which the deferred removal does not support; and events changed through a stale pointer.
- EventFind and the event's data pointer.
- Routing in cmd_alias: choosing the alias, matching its expressions, delivery and recursion.
- Alias text is a string without NUL; the request is within the 512 bytes it is copied to.
- Wrap-around of int counters and times.
