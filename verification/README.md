# Delta Chat core: call signalling, membership, message lists, accounts

A Dafny model of the parts of the Delta Chat core that keep state by a fixed set of
functions, with proofs of what they keep. Each table is a map, each function or
message handler one atomic step.

| module | subject |
|---|---|
| `Calls`, `CallProtocol`, `CallRuns`, `QuietCalls` | calls between any number of caller and callee devices, over a network that delays, reorders and repeats messages |
| `Membership`, `MemberMerge`, `ContactSync` | the member table of a chat with its add and remove timestamps, merging of received timestamps, synchronisation between own devices |
| `Strings`, `Autocrypt` | the Autocrypt header ("The Autocrypt Header" in Autocrypt Level 1), printed and parsed; folding under sections 2.1.1 and 2.2.3 of RFC 5322 |
| `References` | the References header of outgoing messages (section 3.6.4 of RFC 5322) |
| `MessageList`, `Noticed` | order, day markers, sort-to-bottom, marking older messages as noticed |
| `AccountOrder`, `Accounts` | account IDs, selection and order, with failed writes, crashes and power losses |
| `Download` | the queue of post-messages |
| `Forwarding` | forwarding targets against send permission |
| `Avatar` | recoding a picture to avatar limits, for any encoder |

Objects that the program changes in place are classes (`Calls.CallInfo`,
`Membership.ChatContacts`, `Accounts.AccountManager`, `Download.Tables`); their methods
are proved equal to functions on values, and the lemmas are about these functions.
Clocks, time zone offsets, outcomes of file operations and fetches, image and key
codecs, and the delivery order are parameters.

Where the code does not do what one would expect of it, the exact condition is proved:

- An "ended" message that overtakes the call message is trashed, and later copies of it
  are skipped, so the callee's phone rings for a call that is over
  (`CallRuns.EarlyEndIsLost`, `CallRuns.WhoHasEnded`).
- The ring timer of an outgoing call writes "canceled" but leaves the state Declined
  (`CallRuns.TextNamesTheState`, `CallRuns.TimedOutCallIsMisnamed`).
- The ring timer goes off before a call dated in the future gets stale
  (`Calls.TimerMeetsStaleness`).
- A received removal with timestamp 0 of an unknown contact makes it a member
  (`MemberMerge.FirstUpdateMeansWhatItSays`).
- Removing again while the clock is behind lowers a stored removal time
  (`MemberMerge.LocalChangesOutrank`).
- A removal older than sixty days is no longer told, so two peers can keep disagreeing
  (`MemberMerge.CompleteExchangeAgrees`; `MemberMerge.ExchangeAgrees` for any messages,
  senders and clocks).
- A References header starts with a blank, or is empty, exactly if what it inherits is
  empty or has nothing or another blank before its last blank; after a parent without
  headers this hits the next two messages (`References.LeadingBlank`,
  `References.ThreadAfterBare`). The fallback to the own Message-ID is never taken.
- Before local time 0 a message lies before its day marker (`MessageList.NearestMarker`).
- A failed migration leaves the new account configured and selected, although the code
  means to undo both, except if there was nothing to migrate (`Accounts.FailedMigration`).
- After the last 32-bit number account IDs start over (`Accounts.NextIdIsNew`).
- A mail that comes back flagged as deleted, without a body, with an error, turned away, or
  failing a check against its pre-message leaves the message in progress but out of the
  queue (`Download.RoundStrands`, `Download.WhoIsStranded`).
- A try at scaling that gives no bytes makes recoding store the full-size picture
  (`Avatar.AvatarKeepsLimits`, `Avatar.EmptyEncodingDefeatsLimits`).

## Model

| member | source | states |
|---|---|---|
| Calls.RemainingRingSeconds | src/calls.rs:81-85 | between 0 and the ringing time; 0 exactly from 120 seconds after sending on |
| Calls.DurationSeconds | src/calls.rs:176-190 | positive exactly for accepted and ended calls; above one second it is the time between the two |
| Calls.CallInfo.Place | src/calls.rs:209-218 | a placed call is outgoing, without any mark or event |
| Calls.CallInfo.Receive | src/calls.rs:356-413 | a received call shows as missed if stale; else it rings if the caller may |
| Calls.CallInfo.UpdateTextDuration | src/calls.rs:98-116 | the text names direction and whole minutes; nothing else changes |
| Calls.CallInfo.AcceptIncomingCall | src/calls.rs:231-271 | an incoming call neither accepted nor ended becomes accepted here and now, and others are told; any other call stays as it is, with an error exactly if outgoing |
| Calls.CallInfo.EndCall | src/calls.rs:274-315 | a call not yet ended becomes completed, declined or canceled by acceptance and direction, and others are told; an ended call stays as it is |
| Calls.CallInfo.EmitEndCallIfUnaccepted | src/calls.rs:317-348 | a call neither accepted nor ended becomes missed if incoming, else ended as "canceled"; any other stays |
| Calls.CallInfo.HandleCallAccepted | src/calls.rs:416-444 | a call neither accepted nor ended becomes accepted elsewhere; any other stays |
| Calls.CallInfo.HandleCallEnded | src/calls.rs:446-491 | a call not yet ended ends by acceptance, direction and sender; an ended one stays |
| Calls.StartsConsistent | src/calls.rs:209-413 | new calls meet the invariant of a device |
| Calls.ArrivalMatchesState | src/calls.rs:362-412 | an arriving call carries no mark; text, ringing, timer and state all say missed exactly if it is stale, and else that it comes in |
| Calls.PlacedRings | src/calls.rs:209-218 | a placed call rings for as long as nothing happens to it |
| Calls.TimerMeetsStaleness | src/calls.rs:77-85 | the ring timer goes off just as the call gets stale, exactly if it was not dated in the future; else it rings for the full time |
| Calls.AcceptKeeps | src/calls.rs:231-444 | accepting, here or elsewhere, keeps timestamps, events and text consistent |
| Calls.EndKeeps | src/calls.rs:446-491 | hearing of an end keeps them consistent |
| Calls.TimeoutKeeps | src/calls.rs:317-348 | a timeout keeps them consistent, up to the text of outgoing calls |
| Calls.EndIsHearingOneself | src/calls.rs:283-297 | ending a call has the effect of hearing one's own user end it on another device |
| Calls.OnlyAcceptShowsHere | src/calls.rs:231-491 | of all operations only accepting on this device makes it show as accepted here |
| Calls.EndedIsFinal | src/calls.rs:231-491 | no operation changes an ended call, and its state does not depend on the clock |
| Calls.StateMeaning | src/calls.rs:575-616 | what each state says about acceptance, end, cancellation, direction and the time since sending, both ways |
| Calls.AcceptingTakesEffect | src/calls.rs:231-444 | accepting, here or elsewhere, makes exactly calls that are neither accepted nor ended active from now on |
| Calls.EndingTakesEffect | src/calls.rs:446-491 | hearing of an end ends exactly calls that have not ended: completed with the time since acceptance, or declined, canceled or missed by direction and sender |
| Calls.TimeoutTakesEffect | src/calls.rs:331-346 | the timer ends exactly calls that are neither accepted nor ended: missed if incoming, else declined |
| CallProtocol.NetStep | src/calls.rs:193-496 | every step keeps what is known of messages, copies, acceptances and endings |
| CallProtocol.ConsistentStep | src/calls.rs:193-496 | every step keeps every device consistent |
| CallProtocol.RunInv | src/receive_imf.rs:539-569 | both hold in every state of every run with any devices, delays, reorderings and repetitions, where known Message-IDs are skipped |
| CallRuns.HistoryIsFaithful | src/calls.rs:231-348 | the recorded acceptances, endings, timeouts and lost messages are exactly those of the steps taken; a message is lost from its first early copy on |
| CallRuns.AcceptanceHasASource | src/calls.rs:416-427 | a device is accepted only if a callee device accepted before |
| CallRuns.OwnAcceptanceIsRecorded | src/calls.rs:264-268 | a device shows "accepted on this device" exactly if it is recorded as accepting |
| CallRuns.OwnAcceptanceIsShown | src/calls.rs:264-268 | and so exactly if it accepted earlier in the run |
| CallRuns.WhoHasEnded | src/calls.rs:446-491 | with nothing under way, a device has ended the call exactly if it ended it, timed out, or some "ended" message to it never came too early in any copy |
| CallRuns.EndReachesEveryone | src/calls.rs:299-307 | so ending the call ends it on every device that knew it whenever a copy of the message came |
| CallRuns.EarlyEndIsLost | src/receive_imf.rs:2100-2116 | a run in which an early "ended" is lost, a second copy is skipped, and the callee still rings at the end |
| CallRuns.EndedForever | src/calls.rs:422-456 | once a device has ended the call, its call and state stay the same for the rest of the run |
| CallRuns.OneDevice | src/calls.rs:118-190 | canceled means ended then, accepted excludes canceled, and the user interface hears of acceptance and end at most once, in that order, exactly as marked |
| CallRuns.TextNamesTheState | src/calls.rs:317-348 | text and state of an ended call agree, except exactly for outgoing calls that timed out here |
| CallRuns.TimedOutCallIsMisnamed | src/calls.rs:337-340 | a run in which a call that nobody answers ends with a text that does not name its state |
| CallRuns.CompletedDuration | src/calls.rs:98-190 | in every run a completed call lasted from the step that marked it accepted on that device to the step that ended it there, one second at least, and its text has the whole minutes |
| CallRuns.TimedOutCall | src/calls.rs:317-348 | in every run a call that its timer ended is missed on the callee's side and declined on the caller's |
| CallRuns.RingingIsTimed | src/calls.rs:220-408 | in every run a call neither accepted nor ended has a timer exactly if it was placed here or arrived in time |
| CallRuns.TimerFiresOnce | src/calls.rs:317-348 | the timer of a device goes off once at most |
| CallRuns.AnsweredCall | src/calls.rs:193-496 | a run in which a call is answered and both sides end up with its duration |
| QuietCalls.RunPhase | src/calls.rs:193-496 | when users act only while nothing is under way and no timer fires, the whole system is in one of four phases |
| QuietCalls.QuietDevicesAgree | src/calls.rs:415-491 | then all devices carry the same marks whenever nothing is under way |
| QuietCalls.QuietOutcomesMatch | src/calls.rs:575-616 | and a user ended the call such that Canceled meets Missed, Declined meets Declined, Completed meets Completed |
| Membership.ChatContacts.UpdateChatContactsTable | src/chat.rs:3743-3781 | every row is bumped, the given contacts are members again, new ones get a row |
| Membership.ChatContacts.AddToChatContactsTable | src/chat.rs:3784-3807 | each contact, repeated or not, gets a row or an addition time not before its removal |
| Membership.ChatContacts.AddContact | src/chat.rs:3935-3942 | a member's row stays as it is |
| Membership.ChatContacts.RemoveFromChatContactsTable | src/chat.rs:3813-3830 | only an existing row changes, to a removal after its addition; says whether there was one |
| Membership.OpRefines | src/chat.rs:3743-3830 | set-all, guarded add and remove act on the members as assign, insert and delete on a set, exactly if no new row gets a negative time |
| Membership.OpStamps | src/chat.rs:3756-3830 | a removal or assignment is stamped with its time or just after a later addition, an addition with its time or a later removal; all other times and rows stay |
| Membership.AddAllStamps | src/chat.rs:3784-3807 | the same for a list of contacts |
| Membership.AddAllIsUnion | src/chat.rs:3784-3807 | adding a list of contacts makes exactly these members in addition |
| Membership.RunRefines | src/chat.rs:3743-3830 | over every series of operations, even if the clock goes back (but not below 0), the members are those of a plain set |
| Membership.TimestampsStayNearTheClock | src/chat.rs:3756-3830 | timestamps exceed the clock at most by the number of removals and assignments that hit the row |
| Membership.TimestampsNeverFall | src/chat.rs:3756-3830 | while the clock does not go back no row goes away and no timestamp falls |
| Membership.TogglesDrift | src/chat.rs:3784-3830 | the bound is tight: k toggles within a second put both times k ahead |
| MemberMerge.MergeEntries | src/receive_imf.rs:2963-2995 | one of the two loops; timestamps only rise, and a change is reported exactly if there is one |
| MemberMerge.UpdateTimestamps | src/receive_imf.rs:2928-3002 | merges current, then past members of a message, ignores lists of wrong length, reports exactly whether the table changed |
| MemberMerge.UpdatesMeaning | src/receive_imf.rs:2962-2995 | the updates are additions with the stamps at the places of current members not ignored, and removals with the stamps after those for past members |
| MemberMerge.MessageTakesTheNewest | src/receive_imf.rs:2928-3002 | by the lists of the message alone, the latest change of a contact is the latest of what was known and what they tell |
| MemberMerge.MembersHaveOddRank | src/chat.rs:2578-2600 | membership can be read off the rank, the time of the latest change |
| MemberMerge.MergeTakesTheNewer | src/receive_imf.rs:2953-2983 | a merge keeps the later of two changes, with additions ahead of removals |
| MemberMerge.MergeStamps | src/receive_imf.rs:2953-2983 | a merge writes the one time it is about, and only if it is the later change |
| MemberMerge.MergeAllTakesTheNewest | src/receive_imf.rs:2953-2995 | a series of merges keeps the latest of all changes offered |
| MemberMerge.PeersConverge | src/receive_imf.rs:2928-3002 | peers that start alike and apply the same updates in any order and number have the same members |
| MemberMerge.FirstUpdateMeansWhatItSays | src/receive_imf.rs:2953-2983 | an update for an unknown contact has its plain meaning exactly if its timestamp is genuine |
| MemberMerge.LocalChangesOutrank | src/chat.rs:3756-3830 | a local change never loses against what was known, except exactly if the clock is behind a stored removal |
| MemberMerge.LocalChangesOutlast | src/chat.rs:3756-3830 | what a peer tells of an earlier time does not undo a removal, assignment or addition made here |
| MemberMerge.ReceiveExport | src/receive_imf.rs:3047-3167 | receiving any part of what a peer has to tell leaves, for the contacts told of and if the receiver listens to the sender, the later change of both, with times from the future taken back |
| MemberMerge.SenderGate | src/receive_imf.rs:3047-3048 | a message changes nothing exactly if the receiver is a member and the sender is not |
| MemberMerge.ExchangeAgrees | src/receive_imf.rs:3047-3167 | after exchanging messages two peers agree on a contact exactly if they did before, or the one with the earlier change listens, is told, and the later change stays later when taken back |
| MemberMerge.CompleteExchangeAgrees | src/mimefactory.rs:354-418 | peers who list each other agree after complete messages on a third contact, except exactly if one has it as a member and the other a later removal too old to be told |
| MemberMerge.StaleListIsReplaced | src/receive_imf.rs:3118-3153 | a stale list gets exactly the members in the message, the sender and oneself, but not oneself if the message is encrypted and the group is not |
| MemberMerge.StaleListFollowsSender | src/receive_imf.rs:3118-3153 | with a complete message a stale list has the sender's members, the sender and oneself |
| MemberMerge.MergeRaises | src/receive_imf.rs:2953-2983 | merging only raises timestamps, so a changed table never changes back |
| ContactSync.SetContactsByFingerprints | src/chat.rs:5123-5154 | keeps a broadcast's rows, replaces a group's, and returns exactly the contacts a broadcast gained |
| ContactSync.RemoveContactFromChat | src/chat.rs:4175-4182 | only promoted groups keep a trace of a removal; says whether there was a row |
| ContactSync.MemberChanges | src/chat.rs:3935-4179 | adding and removing change exactly one member, and a trace stays exactly in promoted groups |
| ContactSync.SyncMeaning | src/chat.rs:5123-5152 | a list already right changes nothing; a group's members are set outright; a broadcast keeps its rows, and its members are added to exactly if no listed contact has a tombstone |
| ContactSync.UntracedChatsKeepNoTombstones | src/chat.rs:4175-4179 | in every run broadcasts and unpromoted groups hold no tombstone |
| ContactSync.SyncInEveryRun | src/chat.rs:5127-5152 | so in every run a sync gives the union for broadcasts and the listed members for groups |
| Autocrypt.BlanksAt | src/aheader.rs:67-80 | where the folded key text has blanks, counted from the start of its attribute |
| Autocrypt.StripFold | src/key.rs:73-76 | removing white space undoes the folding |
| Autocrypt.KeydataFolds | src/aheader.rs:67-81 | the keydata attribute has a blank at every 79th place and nowhere else, so no run over 78, and without blanks is the key text |
| Autocrypt.AttributeOfPiece | src/aheader.rs:89-95 | a printed piece gives back its name and value |
| Autocrypt.PrintedAttributes | src/aheader.rs:55-96 | the attributes found in a printed header are those written |
| Autocrypt.ValuesAreClean | src/aheader.rs:87-97 | in any header, every parsed value is free of semicolons and of white space at its ends |
| Autocrypt.RoundTrip | src/aheader.rs:55-131 | a printed header parses back to key, preference and lower-cased address, exactly if that address has no semicolon and no white space at its ends |
| Autocrypt.AttributeMeaning | src/aheader.rs:89-95 | a piece is a key and a value around its first equals sign, whatever white space is around them |
| Autocrypt.NoAttribute | src/aheader.rs:89-95 | a piece without an equals sign is nothing |
| Autocrypt.ExtraAttribute | src/aheader.rs:98-131 | one more attribute in any header that parses: replaces an earlier one, marks it verified, is ignored for an underscore, or else makes it invalid |
| Autocrypt.TooLittle | src/aheader.rs:98-110 | which error a header gives without address, without key, or with a bad key |
| References.Thread | src/chat.rs:1803-1866 | In-Reply-To and References for self-talk, first messages and answers; a set In-Reply-To stays |
| References.AnyParent | src/chat.rs:1841-1861 | for any parent, one to three tokens with its Message-ID among them; splitting the header gives these exactly if the Message-ID has no blank, and else takes it apart |
| References.BareParent | src/chat.rs:1835-1861 | for a parent without headers, the header is a blank and its Message-ID, or empty |
| References.LeadingBlank | src/chat.rs:1835-1861 | for any parent, the header is empty or starts with a blank exactly if what it inherits is empty or has nothing or another blank before its last blank |
| References.FallbackToInReplyTo | src/chat.rs:1831-1839 | references are passed on whatever the In-Reply-To is, which is passed on only without any |
| References.LinearThread | src/chat.rs:1803-1866 | in a thread of any length every message refers to exactly the last three before it |
| References.LinearThreadTokens | src/chat.rs:1803-1866 | and splitting the header at blanks finds exactly these |
| References.ThreadAfterBare | src/chat.rs:1803-1866 | after a parent without headers exactly the next two headers start with a blank; later ones refer to exactly the last three messages |
| MessageList.Sort | src/chat.rs:3150-3160 | sorted by time, then ID, and a permutation |
| MessageList.Arrange | src/chat.rs:3162-3180 | the loop gives the list with markers where the day changes, or the plain list |
| MessageList.GetChatMsgs | src/chat.rs:3137-3197 | from the message table: the list of the visible messages of the chat in their one order, with or without markers |
| MessageList.Query | src/chat.rs:3183-3195 | each visible message of the chat once, in any order |
| MessageList.OrderIsUnique | src/chat.rs:3150-3160 | there is only one sorted list of these rows |
| MessageList.ListIsComplete | src/chat.rs:3137-3197 | besides its markers the list has exactly the visible messages of the chat, each once, by time and then ID |
| MessageList.MarkersOnlyAdd | src/chat.rs:3166-3180 | without its markers the list is the plain list |
| MessageList.MarkersIncrease | src/chat.rs:3166-3180 | markers strictly increase, and the last one stands for the day of the last message |
| MessageList.DayWindow | src/chat.rs:3168-3174 | the truncating division finds the day of a time exactly if local time is not negative or a whole number of days |
| MessageList.NearestMarker | src/chat.rs:3166-3180 | so a message lies in the day of its nearest marker exactly then; without a marker it is within a day of local time 0 |
| MessageList.SortToBottom | src/chat.rs:2946-2972 | a sent message gets the latest time among the messages looked at; nothing else changes |
| MessageList.BottomIsLatest | src/chat.rs:2952-2957 | no earlier message in one of the six states looked at is later than a sent one, and one is as late |
| MessageList.SentIsLast | src/chat.rs:2946-2972 | a sent message is then the last item of its chat exactly if every other visible message is an earlier one looked at or not later than those, or a later one before one of those |
| Noticed.LatestByChat | src/chat.rs:3332-3342 | the greatest time of outgoing messages per chat, for any order of the batch |
| Noticed.NoticeChats | src/chat.rs:3344-3371 | the same for all chats, whatever their order, reporting each changed chat once |
| Noticed.MarkOldMessagesAsNoticed | src/chat.rs:3319-3371 | a visible fresh message becomes noticed exactly if some received outgoing message of its chat is not older; exactly the changed chats are reported, once |
| AccountOrder.GetAll | src/accounts.rs:303-320 | computes the listing of the live accounts |
| AccountOrder.FilterLive | src/accounts.rs:330-334 | keeps the live accounts of the request in order |
| AccountOrder.OrderToStore | src/accounts.rs:327-343 | live accounts of the request, then the missing ones ascending |
| AccountOrder.ListingIsOrdered | src/accounts.rs:303-320 | the listing has every live account once: those listed by first occurrence, then the others ascending |
| AccountOrder.StoredOrderIsListed | src/accounts.rs:322-347 | storing a requested order and listing gives the requested order, whatever it repeats, misses or makes up |
| Accounts.StoredCounts | src/accounts.rs:330-341 | what is stored keeps the repetitions of the request and has each missing account once |
| Accounts.AccountManager.Sync | src/accounts.rs:706-745 | the file is the new or the old one; after a failure behind the rename a power loss may bring back the old one |
| Accounts.AccountManager.Select | src/accounts.rs:876-888 | selects a configured account only; the selection stays in memory when writing fails |
| Accounts.AccountManager.New | src/accounts.rs:810-838 | a new entry uses up its ID even if writing fails, and is selected only after the first write |
| Accounts.AccountManager.Add | src/accounts.rs:160-179 | returns the ID and loads the account only if nothing failed |
| Accounts.AccountManager.Migrate | src/accounts.rs:237-299 | does nothing if there is nothing to migrate; else as for an addition |
| Accounts.AccountManager.Remove | src/accounts.rs:200-232 | unloads first; keeps the configuration if the directory stays; succeeds exactly if it was loaded, its directory went, and writing succeeded |
| Accounts.AccountManager.SetAccountsOrder | src/accounts.rs:327-347 | stores the order of live accounts; succeeds exactly if writing does |
| Accounts.AddKeeps | src/accounts.rs:810-838 | adding with any failures keeps all configurations numbered, and a returned ID is above all earlier ones |
| Accounts.ShrunkIsNumbered | src/accounts.rs:841-863 | removal takes out exactly one account and keeps the counter |
| Accounts.RunInv | src/accounts.rs:706-889 | until the counter has started over, all configurations in memory and those a power loss may leave have distinct accounts below their counter, which is above all returned IDs |
| Accounts.IdsAreNeverReused | src/accounts.rs:810-838 | returned IDs strictly increase over failed writes, crashes, power losses, reopenings and migrations, until the counter has started over |
| Accounts.NextIdIsNew | src/accounts.rs:810-838 | the next ID is a proper one above all returned so far exactly if the counter has not started over |
| Accounts.ReferencesAreConfigured | src/accounts.rs:841-888 | in every run at all, loaded and ordered accounts are configured, and the selected one, if any |
| Accounts.RemoveUndoesAdd | src/accounts.rs:841-863 | removing the account just added restores accounts and order, and the selection exactly if that was the first account |
| Accounts.SuccessIsDurable | src/accounts.rs:706-745 | in every run the configuration after an operation that succeeded is there after a crash or power loss and restart, with all its accounts loaded |
| Accounts.FailedWrites | src/accounts.rs:706-745 | a write that fails early changes nothing on disk, one that fails late leaves the new or an older configuration |
| Accounts.AddAchieves | src/accounts.rs:810-838 | an added account is loaded, configured, last in the order, selected and on disk; others stay |
| Accounts.AddSucceeds | src/accounts.rs:160-299 | exactly when adding and migrating succeed |
| Accounts.RemoveAchieves | src/accounts.rs:200-232 | a removed account is gone from memory and file, accounts, order and selection; others stay |
| Accounts.RemoveKeepsOrder | src/accounts.rs:841-863 | the others keep their order, in the configuration and in the listing |
| Accounts.RemoveFails | src/accounts.rs:200-226 | an account not loaded, or whose directory stays, is not removed |
| Accounts.RemovedStaysAway | src/accounts.rs:200-232 | in every run a removed account is not loaded, ordered or selected after a restart |
| Accounts.SelectAchieves | src/accounts.rs:876-888 | a configured account is selected in memory and file, one that is not configured never |
| Accounts.OrderAchieves | src/accounts.rs:327-347 | after setting an order the loaded accounts are listed in it, from memory and from the file |
| Accounts.FullCounterStartsOver | src/accounts.rs:821 | after the last 32-bit number comes ID 0, then 1 again |
| Accounts.FailedAddKeepsSelection | src/accounts.rs:160-179 | a failed addition leaves its entry, and keeps the selection exactly if the first write failed or the counter stands at the selected ID |
| Accounts.FailedMigration | src/accounts.rs:237-299 | a failed migration changes nothing at all exactly if there was no database or blob directory; else it leaves its entry, selected once the first write succeeded |
| Download.Tables.DownloadFull | src/download.rs:66-95 | an available or failed message with a Message-ID becomes in progress and queued, all else stays; an error exactly if not, or if queued already |
| Download.Tables.Receive | src/imap.rs:1243-1298 | a mail that comes back makes a known message done exactly if it passes all checks, and touches no other message |
| Download.Tables.DownloadMsg | src/download.rs:137-182 | touches one Message-ID only; forgets the announcement of one whose place is unknown |
| Download.Tables.DownloadOne | src/download.rs:285-317 | one turn of the loop touches one Message-ID only |
| Download.Tables.DownloadMsgs | src/download.rs:276-320 | a round treats each queued Message-ID once, independently of the order and of the others |
| Download.Tables.DownloadKnownPostMessages | src/download.rs:324-359 | so does a round over the announced ones, skipping those with a message |
| Download.FailureMeansFetchFailed | src/download.rs:161-315 | a message turns into a failure exactly if its place was known, fetching failed and it was announced |
| Download.RequestMeaning | src/download.rs:66-95 | exactly available and failed messages become in progress and queued by a request |
| Download.RoundMakesDone | src/receive_imf.rs:2443-2527 | a round makes a message done exactly if its mail comes through and passes all checks, or is complete and new |
| Download.RoundKeepsState | src/download.rs:284-317 | what a round leaves of a known state and makes of a new message |
| Download.WhoStaysAnnounced | src/download.rs:161-315 | exactly which messages stay announced after a round |
| Download.RescueMeaning | src/download.rs:324-359 | rescuing fetches exactly new messages, and says when it gives up; it never touches the queue or a known message |
| Download.WhoStaysQueued | src/download.rs:284-317 | exactly which messages stay queued, in unchanged state |
| Download.RoundStrands | src/receive_imf.rs:2443-2498 | a round leaves a message in progress out of the queue exactly if the mail comes back deleted, without a body, with an error, turned away, as no post-message, or failing a check against the pre-message |
| Download.WhoIsStranded | src/download.rs:284-317 | in every run a message is in progress but not queued exactly if such a mail came and it was neither deleted nor replaced by a mail that came unasked since |
| Download.InProgressWasRequested | src/download.rs:66-95 | in every run a message in progress was requested while available or failed, and has been in progress since |
| Download.DownloadWorks | src/download.rs:66-320 | a run from announcement to a finished download |
| Forwarding.LoadForForwarding | src/chatlist.rs:213-295 | the ordinary entries are exactly the unarchived, unblocked chats one may send to but for a missing key, each once, in order, the chat with oneself first; the archive link exactly if there is an unblocked archived chat |
| Forwarding.Query | src/chatlist.rs:223-264 | the selected chats, each once, sorted by the keys of the query |
| Forwarding.FiltersAgree | src/chat.rs:1461-1515 | list filter and send permission agree on every chat if the device chat, and it alone, is marked |
| Forwarding.ReasonMeaning | src/chat.rs:1461-1515 | the reason given is the first that applies and is not skipped, and none is given exactly if there is none |
| Forwarding.OrderMeaning | src/chatlist.rs:253-256 | pinned chats come before others, later active ones before earlier ones, and none before the chat with oneself |
| Forwarding.DeviceChatStaysMarked | src/chat.rs:2379-2440 | which is so in every run |
| Forwarding.FiltersAgreeInEveryRun | src/chatlist.rs:213-264 | so the two filters agree in every run |
| Forwarding.UnmarkedDeviceChatDiffers | src/chatlist.rs:110-116 | an unmarked device chat could be sent to but is not offered |
| Avatar.ScaleDown | src/blob.rs:455-498 | the loop ends with the first small enough try or an error, without 32-bit overflow |
| Avatar.RecodeAvatar | src/blob.rs:321-524 | one of: the file itself, the whole picture, a scaled one, an error, by size, box and metadata |
| Avatar.ScaledFits | src/blob.rs:455-498 | a scaled picture keeps the byte limit and the box |
| Avatar.AvatarKeepsLimits | src/blob.rs:385-520 | for any encoder, a recoded avatar keeps both limits exactly if no try that is reached gives no bytes, or the whole picture keeps them; metadata does not survive |
| Avatar.FaithfulEncoderKeepsLimits | src/blob.rs:385-520 | an encoder that always gives bytes keeps both limits on every path |
| Avatar.EmptyScaled | src/blob.rs:455-498 | scaling gives no bytes exactly if a try gives none and all before it gave too many |
| Avatar.FirstFitIsScaled | src/blob.rs:455-498 | a try that the earlier ones lead to, and that fits, is the result |
| Avatar.ScaledIsFirstFit | src/blob.rs:455-498 | the result is a try that fits, and all larger sides before it were too large |
| Avatar.FirstSide | src/blob.rs:428-453 | the first side tried is the largest within picture, box and JPEG |
| Avatar.RecodedMeaning | src/blob.rs:385-520 | by the file alone, whether it stays, is encoded anew or is scaled, in which format and with which background |
| Avatar.EmptyEncodingDefeatsLimits | src/blob.rs:512-517 | an encoder without output defeats the limits |

## Left out

- The SQL engine, locking, the async runtime and file contents: functions are atomic steps on tables. In particular a crash inside `download_full` between its two statements is not modelled.
- Messages with equal Message-IDs: the download tables have one message per Message-ID.
- OpenPGP, Base64 and image codecs, lower-casing: parameters with stated contracts.
- MemberMerge.ExchangeAgrees: about peers whose lists are not stale, and group messages that carry timestamps; runs of many peers are not modelled.
- The effect of added and removed members in system messages beyond their timestamps.
- Accounts.IdsAreNeverReused: holds until the 32-bit counter has started over; `Accounts.NextIdIsNew` shows that it does not hold longer. A build with overflow checks stops there instead.
- Avatar.AvatarKeepsLimits: for pictures with pixels and resizing that fits the box; the image library is not modelled.
- Download.WhoIsStranded: an error after the message was replaced counts as success.
- Absolute paths of old account configurations, read-only configurations and the lock file.
- The resolution limit and the file names of pictures that are not avatars.
- Chat list queries other than the forwarding list.
- The choice of the parent message for References, who may call whom, and the content of calls.
- ICE servers, stock strings, configuration, transports, encryption, backups, webxdc, locations and statistics.
