# JMAP to IMAP proxy: a verified model

The repository is an IMAP server in front of a JMAP mail server. It keeps a small local database
that gives JMAP messages their IMAP UIDs, a view of the selected mailbox that it edits and reports to
the client, and translators between the two protocols. This project models that logic in Dafny and
proves what it keeps, over all inputs and all runs. `dafny verify dfyconfig.toml` checks it.

## What is modelled

- **The UID store.** `Keys` and `Database` are the flat ordered key space: which bytes stand for which
  fact, and a class whose byte map is tied to a typed table. `UidIndex` is the abstract index of a
  mailbox (two maps, a counter, deletions), `UidStore` and `UidUpdate` are the operations on the bytes,
  each proved to act on that index, `Workers` interleaves insertions between single database
  operations, `Purges` holds the sweeps that go by key bytes, and `Modseqs` the modification sequences.
- **The selected mailbox and its client.** `SelectedView` is the class with the parallel lists and the
  handlers that edit them; `Mirror` is a client that replays the responses, and the theorem that it
  numbers messages as the server does after any run.
- **SEARCH.** `SearchFilter`, `SearchParser` (the shift-reduce parser), `SearchCompiler` (the
  translation to a JMAP filter) and `Search` (both together); `DroppedAll` and `SearchMeaning` are about
  the filters and criteria whose meaning survives. `Selection` finds the messages of a sequence set.
- **Wire formats.** `Receiver` (the tokenizer as a state machine), `RequestReader` (the object that
  works it in place), `RequestRoundTrip`, `Utf8` (tags), `Utf7` (mailbox names), `SequenceSet`, and `StoreSplit` for conditional STORE.
- **Trees and names.** `BodyStructure`, `MailboxTree`, `Folders` (validation of names) and
  `FolderCache` (CREATE and RENAME).

`Wrappers`, `Sequences` and `Decimal` are shared helpers. A method that follows a loop of the program is
tied by its contract to a function or to an abstract state, and the lemmas are about these.

## Where the code does not do what one would expect

Each of these is stated with its exact condition.

- An unknown message that is listed twice gets two UIDs (`UidIndex.UpdateConsistentIff`).
- The keys of modseqs pass for keys of All Mail: below 2^24 under the prefix for ids, which no scan uses,
  and from 2^24 up to 2^25 under the one for UIDs (`Keys.PrefixExact`, `Keys.ModseqUnderUidPrefixIff`).
- A client that asks for a modseq from 2^24 up to 2^25 can be answered with the id of a message of All
  Mail as if it were a state (`Modseqs.ReadIsRightIff`).
- `BEFORE` is read as `ALL` and its date is left to be refused: every criterion with `BEFORE` is an error
  (`SearchParser.ParsePrinted`, `Search.SearchAccepts`).
- Under UID SEARCH a set of sequence numbers is read as UIDs, a set with `$` loses its other members, and
  MODSEQ is cut to 32 bits (`SearchCompiler.ExpressibleIff`, `SearchCompiler.NumbersUnderUidSearch`).
- `NOT` of a group is read as none-of (`SearchParser.ParseKeepsMeaningIff`), and `ALL` is dropped, which is
  wrong in most places under `OR` or `NOT` (`DroppedAll.DropKeepsMeaningIff`). The two errors can cancel
  (`SearchMeaning.ErrorsCancel`); `Search.SearchFindsIff` says for text keys exactly when SEARCH is right.
- `NOT` of a single filter in All Mail is lost (`SearchCompiler.AllMailKeepsMeaningIff`); `OLDER` is translated
  like `YOUNGER` and `OLD` like `RECENT` (`SearchCompiler.FoundInstead`).
- Of two mailboxes with the same joined name only one is found (`MailboxTree.EveryNameKeptIff`).
- Characters beyond 16 bits do not survive modified UTF-7 (`Utf7.RoundTrip`).
- An empty quoted string is read as NIL and takes nothing from the size limit, while an empty literal is
  read as NIL and takes one (`Receiver.FeedValid`); a quoted string may be longer than 1024 bytes if all
  that is beyond are backslashes (`RequestRoundTrip.QuotedIff`).
- The printer of sequence sets goes on from 2^32 - 1 to 0, and what it prints is then read as the numbers
  between the ends of the run (`SequenceSet.RoundTripIff`). Lists of UIDs or sequence numbers have no 0 and
  always survive (`SequenceSet.NumbersRoundTrip`).
- RENAME of the only child of a mailbox, when it has children itself, leaves the parent flagged as
  having children (`FolderCache.RenameKeepsFlagsIff`).
- A conditional STORE for which no requested message exists answers OK without listing the missing
  numbers in MODIFIED (`StoreSplit.SplitStore`).

## Model

| member | source | states |
|---|---|---|
| Keys.EncodeInjective | src/core/message.rs:796-874 | Two facts (account or mailbox, kind, id, UID, state or modseq) that have the same key bytes are the same fact, even when one mailbox id is a prefix of another |
| Keys.PrefixExact | src/core/message.rs:813-831 | A key starts with the prefix of a mailbox and a separator exactly when it is a fact of that mailbox with that separator, or one of three keys of the account that pass for such a fact: a modseq under the prefix for ids of All Mail, a state that reads like the mailbox id, the highest modseq |
| Keys.ModseqUnderIdPrefix | src/core/message.rs:859-866 | Every MODSEQ_TO_STATE key below 2^24 starts with the JMAP_TO_UID prefix of All Mail |
| Keys.UidPrefixExact | src/core/message.rs:171-173 | Scanning the UID_TO_JMAP prefix of a mailbox finds its UID entries and no other key, if modseqs are below 2^24 |
| Keys.ModseqUnderUidPrefixIff | src/core/message.rs:859-866 | A MODSEQ_TO_STATE key falls under the UID prefix of All Mail exactly for modseqs from 2^24 to 2^25 |
| Keys.UidKeyOrder | src/core/message.rs:173-186 | The byte order of UID keys is the numeric order of the UIDs |
| Database.Db.Insert | src/core/message.rs:742-745 | A write of a fact changes the typed table at that fact only, and the bytes go on standing for the table |
| Database.Db.ApplyBatch | src/core/message.rs:217-221 | A batch has the effect of its operations in order on the typed table |
| Database.Db.ScanPrefix | src/core/message.rs:173-176 | A scan yields exactly the keys with the prefix, in ascending byte order |
| UidStore.ShowsIndexOf | src/core/message.rs:145-316 | Every well-typed table shows an index of every mailbox: the abstraction is total |
| UidStore.ShowsElsewhere | src/core/message.rs:145-397 | What changes one mailbox leaves the index that any other mailbox shows |
| UidStore.InsertJmapId | src/core/message.rs:726-752 | The UID returned is one more than the counter, and the counter and both maps are written with it |
| UidStore.DeleteJmapIds | src/core/message.rs:346-397 | delete_ids leaves the database showing the abstract index with these ids retired, duplicates in the list included, and nothing else changed |
| UidStore.ScanUids | src/core/message.rs:171-187 | The loop reads exactly the UIDs of the mailbox, each with its message, in ascending order |
| UidUpdate.HoursSince2000 | src/core/message.rs:779-785 | A new UIDVALIDITY is the whole hours since 1 January 2000, as long as they fit 32 bits |
| UidUpdate.GetUidValidity | src/core/message.rs:768-793 | UIDVALIDITY is the stored one, or else the hours since 2000 in 32 bits, which are then stored |
| UidUpdate.UpdateUids | src/core/message.rs:145-248 | The database ends up showing the abstract Update of the index; the two lists returned are aligned, strictly ascending and list exactly that index; UIDNEXT is the last UID plus one, or 0 when 32 bits are used up; other mailboxes are untouched |
| UidUpdate.UpdateResult | src/core/message.rs:145-248 | For a list without duplicates the ids returned are exactly those given, known messages keep their UID and every UID is below UIDNEXT, as long as the counter is not at 2^32 - 1 |
| UidUpdate.UpdateTwice | src/core/message.rs:145-248 | A second update with the same list returns the same lists and changes nothing |
| UidUpdate.JmapToImapIds | src/core/message.rs:250-316 | The loop returns what the abstract lookup returns under each of the four options, which `UidIndex` states over the index alone, and leaves the database showing its index |
| UidIndex.UpdateConsistent | src/core/message.rs:145-248 | An update with a list without duplicates leaves exactly those messages, keeps known UIDs, gives new ones UIDs above the old counter and keeps the maps inverse |
| UidIndex.UpdateConsistentIff | src/core/message.rs:156-169 | An update keeps the index a bijection exactly if the list has no duplicates or every message in it is known |
| UidIndex.TwiceListed | src/core/message.rs:223-241 | An unknown message listed twice ends up with two UIDs |
| UidIndex.UpdateIdempotent | src/core/message.rs:145-248 | Updating again with the same list is the identity on the index |
| UidIndex.MapIdsConsistent | src/core/message.rs:250-316 | Lookups keep the index consistent, change it only with AddIfMissing and never change the UID of a known message |
| UidIndex.MapIdsAligned | src/core/message.rs:266-297 | With AddIfMissing every id comes back, in order, with the UID that the index then holds for it |
| UidIndex.PlainFindsKnown | src/core/message.rs:266-316 | Without an option the lookup returns exactly the known messages and their UIDs, in the order asked, and changes nothing |
| UidIndex.DeletedFindsBoth | src/core/message.rs:266-316 | With IncludeDeleted it returns the ids of the known messages only, and the UID in use or else the retired one of each message, in order |
| UidIndex.OnlyDeletedFindsRetired | src/core/message.rs:266-316 | With OnlyIncludeDeleted it returns no ids, and the retired UID of each listed message with a deletion, in order |
| UidIndex.DeletionIsRemembered | src/core/message.rs:346-397 | What delete_ids keeps of a message is the UID it had and the time |
| UidIndex.UpdateRetires | src/core/message.rs:188-215 | update_uids records a deletion, with the UID it had, for exactly the known messages that are not listed, and forgets no earlier one |
| UidIndex.RunConsistent | src/core/message.rs:145-397 | Every run of update_uids, jmap_to_imap and delete_ids keeps the two maps inverse and every live or retired UID at or below the counter, and never gives a UID to another message |
| UidIndex.RetiredForGood | src/core/message.rs:188-215 | A UID retired at some time of a run is not live at any later time |
| Workers.AdvanceShows | src/core/message.rs:726-752 | Each step of a call in the interleaving model is one atomic database operation of the code |
| Workers.UidsAreDistinct | src/core/message.rs:726-752 | However calls interleave with each other and with deletions, no two get the same UID |
| Workers.UidsInOrderOfCounting | src/core/message.rs:733-740 | A call that increments the counter later gets the higher UID |
| Workers.NothingOverwritten | src/core/message.rs:742-745 | A call about to write UID_TO_JMAP finds no entry there |
| Workers.InverseIff | src/core/message.rs:726-752 | Once all calls are done, in whatever interleaving, the maps are inverse exactly if the calls were for distinct messages, none known before |
| Purges.DeleteMailbox | src/core/message.rs:420-444 | Removes exactly the UID maps and counters of that mailbox |
| Purges.DeletedMailboxShows | src/core/message.rs:420-444 | The mailbox is left with its deleted ids only; every other mailbox shows the index it had |
| Purges.DeleteAccount | src/core/message.rs:399-418 | Removes exactly the facts of that account |
| Purges.PurgeDeletedMailboxes | src/core/message.rs:452-494 | Removes exactly the UID maps and counters of mailboxes of the account that are not alive, and nothing if none is known to be alive |
| Purges.PurgeDeletedIds | src/core/message.rs:496-537 | Removes exactly the deleted ids that are at least ttl old, and counts them, although it goes by the length of the value |
| Purges.IdsAreSafeIff | src/core/message.rs:512-521 | Twelve-character ids and states are never taken for expired deletions exactly as long as the time is at most 0x2D2D2D2D2D2D2D2D |
| Purges.ExpiredAreDeletedIds | src/core/message.rs:505-527 | What that purge removes are facts of deletions, at least ttl old, and facts of no other kind |
| Modseqs.NumbersStay | src/core/mailbox.rs:523-570 | Over any run a modseq keeps its state, states and modseqs stay one to one, and a state first seen later has a higher modseq |
| Modseqs.GapsNeverArise | src/core/mailbox.rs:523-570 | Modseqs are handed out without gaps |
| Modseqs.GetModseq | src/core/mailbox.rs:523-570 | A known state keeps its modseq and nothing changes; a new one gets the next and exactly three facts are written |
| Modseqs.GetState | src/core/mailbox.rs:572-600 | Reads, for any 32-bit modseq, what Read says the key bytes lead to |
| Modseqs.ReadIsRightIff | src/core/mailbox.rs:572-600 | A modseq sent by a client is answered with its own state exactly unless it has 25 bits and its key is that of a message in All Mail |
| Modseqs.MessageReadAsState | src/core/mailbox.rs:572-600 | The message of All Mail with UID 4 is read back as the state of modseq 2^24, because the two keys have the same bytes |
| SelectedView.SelectedMailbox.SynchronizeUids | src/core/message.rs:647-705 | The view loses the messages not listed and gains the listed ones it lacks; the deletions carry the old sequence numbers; the count is announced exactly on change |
| SelectedView.SelectedMailbox.RemoveMoved | src/commands/copy_move.rs:302-336 | Exactly the destroyed messages leave the view, and their old sequence numbers are returned |
| SelectedView.ShiftedIsExpunges | src/protocol/expunge.rs:41-51 | Subtracting the deletions so far turns positions in the old view into positions in what is left at that moment |
| SelectedView.SerializeExpunges | src/protocol/expunge.rs:41-51 | The loop emits the shifted numbers |
| SelectedView.WriteChanges | src/commands/idle.rs:258-281 | IDLE: the new view and the responses sent for it |
| SelectedView.HandleExpunge | src/commands/expunge.rs:67-102 | EXPUNGE: the view is replaced, and the responses sent for it |
| SelectedView.FinishMove | src/commands/copy_move.rs:302-353 | MOVE: the new view and the responses sent for it |
| SelectedView.AppendSync | src/commands/append.rs:144-180 | APPEND, SEARCH and THREAD: the view after an appending sync and the EXISTS sent for it |
| Mirror.ListingLists | src/core/message.rs:237-246 | The lists that update_uids returns are the listing that a sync works on |
| Mirror.ReplayExpunges | src/protocol/expunge.rs:41-51 | Replaying the EXPUNGE responses leaves a client exactly its slots for the messages that remain |
| Mirror.MoveMirrors | src/commands/copy_move.rs:302-336 | A client in step stays in step through MOVE, whatever the view |
| Mirror.IdleMirrors | src/commands/idle.rs:258-281 | A client in step stays in step through an IDLE sync, whatever the view and the list |
| Mirror.AppendMirrors | src/core/message.rs:688-705 | A client in step stays in step through an appending sync, whatever the view and the list |
| Mirror.ExpungeMirrorsIff | src/commands/expunge.rs:67-102 | Replacing the view keeps a client in step exactly if what remains of the old view comes first in the new list |
| Mirror.OutOfOrderExpunge | src/commands/expunge.rs:67-102 | A view and a list for which it does not |
| Mirror.IdleViewIsList | src/core/message.rs:647-705 | For a view that is up to date as far as it goes an IDLE sync makes it the new list |
| Mirror.MoveUpToDate | src/commands/copy_move.rs:302-345 | MOVE takes the same messages from the view and from the index |
| Mirror.ClientMirrorsServer | src/core/message.rs:647-705 | After any run of IDLE syncs, EXPUNGEs, MOVEs, appending syncs, fetches and changes by others since SELECT, a client replaying every EXPUNGE and EXISTS has as many messages as the server, each known one at its place, in ascending UID order |
| Mirror.KnowledgeStays | src/core/message.rs:647-705 | No step makes the client forget a message that is still there |
| SearchParser.ParseFilters | src/parser/search.rs:120-405 | The loop with its stack computes what the step function computes token by token; BEFORE pushes ALL and leaves its date, which is refused |
| SearchParser.ParseSearch | src/parser/search.rs:74-92 | No filters are an error, one filter stands for itself, several are joined by AND |
| SearchParser.ParsePrinted | src/parser/search.rs:120-405 | Printed criteria parse, using every token, exactly if they nest at most eleven levels and have no BEFORE among the keys, and yield their flattened filters |
| SearchParser.BeforeIsRefused | src/parser/search.rs:138-139 | BEFORE with any date, alone, is refused |
| SearchParser.HyphenIsRefused | src/parser/mod.rs:223-400 | No text with a hyphen is a sequence set, so that the date left over by BEFORE is an error |
| SearchParser.ParseKeepsMeaning | src/parser/search.rs:120-405 | The parsed filter of accepted criteria holds exactly when the criteria do, if every NOT applies to an expression that flattens to one filter |
| SearchParser.ParseKeepsMeaningIff | src/parser/search.rs:382-402 | For accepted criteria over independent keys that condition on NOT is exact |
| SearchParser.NotOfGroupIsNoneOf | src/parser/search.rs:382-402 | NOT (a b) parsed does not match a message for which one of the two holds |
| SearchCompiler.ImapFilterToJmap | src/commands/search.rs:291-602 | The two-level loop with its stack computes the recursive translation, and fails exactly on a second MODSEQ or one whose low 32 bits are unknown |
| SearchCompiler.KeyMeaning | src/commands/search.rs:304-566 | Each expressible key but ALL translates to one test that holds of the messages for which the standards have the key hold |
| SearchCompiler.ExpressibleIff | src/commands/search.rs:304-566 | Of the keys other than ALL, which has no translation of its own, those whose translation holds of other messages than the key are exactly OLDER, OLD, LARGER of the largest size, YOUNGER of more than the time since 1970, MODSEQ beyond 32 bits if its low bits find anything, a set with $ that also selects messages outside the saved result, and under UID SEARCH a set without UID that selects other messages by UID than by number |
| SearchCompiler.FoundInstead | src/commands/search.rs:304-566 | What those keys find instead: OLDER what YOUNGER finds, OLD the recent messages, LARGER of the largest size every message, a MODSEQ what has changed since its low 32 bits, a set with $ the saved result alone, and under UID SEARCH any other set the messages with these UIDs |
| SearchCompiler.NumbersUnderUidSearch | src/commands/search.rs:327-336 | With UIDs 2 and 5, UID SEARCH 2 asks for the second message and finds the first |
| SearchCompiler.MemberBesidesSaved | src/commands/search.rs:307-336 | With nothing saved, the set of $ and 1 asks for the first message and finds none |
| SearchCompiler.HighModSeq | src/commands/search.rs:505-515 | MODSEQ 2^32 + 1 finds what has changed since modseq 1 |
| SearchCompiler.TranslateDropsAll | src/commands/search.rs:291-602 | On every message the translation of a filter of expressible keys is the filter with its ALLs removed at every level |
| DroppedAll.DropKeepsMeaningIff | src/commands/search.rs:340-341 | Removing ALL keeps the meaning of a filter with independent keys exactly if a condition on its structure holds, which folds constants |
| SearchCompiler.TranslateKeepsMeaning | src/commands/search.rs:291-602 | A filter of expressible keys and its translation hold of the same messages if that condition holds |
| SearchCompiler.AllUnderOrIff | src/commands/search.rs:340-341 | An OR or NOT with ALL in it is right on a message exactly if something else in it holds |
| SearchCompiler.AllUnderOr | src/commands/search.rs:340-341 | A filter for which dropping ALL is wrong |
| SearchCompiler.CompileKeepsMeaning | src/commands/search.rs:291-602 | In a mailbox the compiled filter holds exactly of the messages of the mailbox that the IMAP filter holds of, if removing ALL is harmless |
| SearchCompiler.CompileKeepsMeaningIff | src/commands/search.rs:291-602 | For a filter of independent text keys and ALLs the compiled filter is right on every message exactly if removing ALL is harmless |
| SearchCompiler.AllMailKeepsMeaningIff | src/commands/search.rs:595-599 | In All Mail the compiled filter is right on every message, or if all that is left of it is one filter under NOT, wrong on every message |
| SearchCompiler.NotInAllMail | src/commands/search.rs:595-599 | In All Mail NOT KEYWORD finds the messages that have the keyword |
| Search.SearchFinds | src/commands/search.rs:124-176 | From tokens to JMAP filter: for accepted criteria of expressible keys, ALL included, that meet a condition on their structure, SEARCH finds exactly the messages of the mailbox for which they are true |
| SearchMeaning.RightIff | src/parser/search.rs:382-402 | For criteria with independent keys, the filter after parsing and after removing ALL means what the criteria mean exactly if they meet that condition, even where the two errors cancel |
| SearchMeaning.ErrorsCancel | src/parser/search.rs:382-402 | NOT (ALL key) is read as none-of and loses its ALL, and so is right after all |
| Search.SearchFindsIff | src/commands/search.rs:124-176 | For accepted criteria of independent text keys and ALLs, SEARCH is right on every message exactly if they meet that condition |
| Search.SearchFindsInAllMailIff | src/commands/search.rs:595-599 | The same criteria in All Mail: right on every message unless what is left is one filter under NOT, and then wrong on every message |
| Search.SearchAll | src/commands/search.rs:340-341 | SEARCH ALL is accepted and finds all messages of the mailbox |
| Search.SearchAccepts | src/commands/search.rs:291-602 | Criteria are refused exactly for nesting too deeply, for a BEFORE among the keys, for being empty, and for a second or unknown MODSEQ |
| SequenceSet.ParseSequenceSet | src/parser/mod.rs:223-400 | The loop over flags and positions computes the recursive parse |
| SequenceSet.ParsePrinted | src/parser/mod.rs:223-400 | Every sequence set of the grammar is accepted and parsed into its members |
| SequenceSet.SavedIff | src/protocol/mod.rs:106-112 | A written set stands for the saved search result exactly if $ is one of its members |
| SequenceSet.OtherIsRefused | src/parser/mod.rs:223-400 | A text with any byte other than digits, comma, colon, * and $ is no sequence set |
| SequenceSet.Expand | src/protocol/mod.rs:114-163 | The expanded set holds exactly the numbers denoted, lists inside lists apart |
| SequenceSet.ExpandsAsContains | src/protocol/mod.rs:82-163 | contains and expand agree on whatever the parser returns |
| SequenceSet.SerializeSequence | src/protocol/mod.rs:389-413 | The printer loop writes the runs of the list |
| SequenceSet.SerializeRoundTrip | src/protocol/mod.rs:389-413 | Parsing what is printed for any list without a wrapped run succeeds and contains exactly the numbers of the list, for any maximum |
| SequenceSet.AscendingRoundTrip | src/protocol/mod.rs:389-413 | The round trip for every nonempty strictly ascending list |
| SequenceSet.NumbersRoundTrip | src/protocol/mod.rs:389-413 | The round trip for every nonempty list of UIDs or sequence numbers, that is of numbers from 1 to 2^32 - 1, in any order and with any duplicates |
| SequenceSet.RoundTripIff | src/protocol/mod.rs:389-413 | A list of 32-bit numbers without duplicates survives printing and parsing exactly if no run goes on from 2^32 - 1 to 0, or if these two are a run of their own and every 32-bit number is listed |
| SequenceSet.WrappedRangeIsWrong | src/protocol/mod.rs:389-413 | The list of 2^32 - 1 and 0 is printed as a range that denotes 7 too |
| SequenceSet.RunsAreMaximal | src/protocol/mod.rs:389-413 | Printed ranges are maximal runs |
| Selection.SequenceToJmap | src/core/message.rs:557-588 | The loop finds exactly the messages of the view whose number the set contains, with UID and sequence number; `Selection.SelectsIff` says which these are |
| Selection.RequestedIff | src/protocol/mod.rs:82-104 | In a view in UID order, by UID or by number: * is the last message alone; n:* are the messages with numbers from n on and always the last one; a range is the same in either order; a list is the union of its members |
| Selection.SelectsIff | src/core/message.rs:557-588 | What is found are exactly these messages, each with its UID and its position |
| StoreSplit.SplitStore | src/commands/store.rs:140-180 | Each requested number is either that of a message to change or listed in MODIFIED, never both, never neither; the failure flag is set exactly if a message is destroyed or missing; no split happens exactly if no requested message exists |
| Utf7.Utf7Encode | src/core/utf7.rs:91-139 | The bit-packing loop computes the encoding function |
| Utf7.PrintableStandsForItself | src/core/utf7.rs:100-117 | A character from 0x20 to 0x7E other than & stands for itself, wherever it is in the text: what is before and after it is written as it would be alone |
| Utf7.PlainText | src/core/utf7.rs:100-117 | A text of such characters is written byte for byte |
| Utf7.AmpersandIsEscaped | src/core/utf7.rs:112-113 | & is written as &-, wherever it is in the text |
| Utf7.OtherIsShifted | src/core/utf7.rs:118-131 | Any other 16-bit character, alone, is written between & and - as three digits, which are its bits in order and two zeros |
| Utf7.DigitsAre | src/core/utf7.rs:29-38 | The digits are A to Z, a to z, 0 to 9, + and comma, in this order |
| Utf7.Utf7Decode | src/core/utf7.rs:40-89 | The unpacking loop computes the decoding function |
| Utf7.BadDigitIsRefused | src/core/utf7.rs:40-75 | A shifted run with a byte that is no digit is refused |
| Utf7.FromUtf16Iff | src/core/utf7.rs:88-88 | The decoded units are read as UTF-16: exactly the UTF-16 form of a text is read, and as that text |
| Utf7.DecodeEncode | src/core/utf7.rs:40-139 | The decoder gets back exactly the 16-bit units that went in: no bit lost or invented at any shift boundary, for any run length |
| Utf7.RoundTrip | src/core/utf7.rs:40-139 | A name survives encoding and decoding exactly if all its characters fit 16 bits |
| Utf7.BeyondSixteenBits | src/core/utf7.rs:98-100 | A character that does not survive |
| Utf7.EncodePrintable | src/core/utf7.rs:91-139 | The encoding is printable ASCII |
| Receiver.FeedConcat | src/core/receiver.rs:157-396 | However the stream is cut into chunks, the fold of the steps reports the same and ends in the same state; `RequestReader.Reader.ParseChunk` shows that the reader is this fold |
| Receiver.FeedValid | src/core/receiver.rs:128-396 | On every byte stream the size counter is exactly the size of the tokens, NIL counting nothing, plus one for each empty literal since the request began, and stays within the limit; the digits of a literal are digits and an accepted literal fits |
| Receiver.DigitsAreUtf8 | src/core/receiver.rs:317-327 | The digit buffer is valid UTF-8, so that the unwrap is safe |
| Receiver.LiteralBytes | src/core/receiver.rs:381-391 | A literal takes its announced number of bytes, as they are, without error: bytes read and bytes remaining always add up |
| Receiver.DelimitersAre | src/core/receiver.rs:241-269 | Which bytes are delimiters, with and without brackets, and the token that each stands for |
| RequestReader.Reader.OnByte | src/core/receiver.rs:157-396 | Handling one byte in place is one step of the state machine |
| RequestReader.Reader.Parse | src/core/receiver.rs:157-396 | Parsing stops at the first report or at the end, having read exactly the bytes up to there |
| RequestReader.Reader.ParseChunk | src/core/receiver.rs:157-396 | Resuming after every report reads the whole chunk |
| RequestRoundTrip.QuotedString | src/protocol/mod.rs:170-179 | The printer loop escapes quotes and backslashes |
| RequestRoundTrip.LiteralString | src/protocol/mod.rs:189-194 | The printer writes a synchronising literal |
| RequestRoundTrip.RequestRoundTrip | src/core/receiver.rs:157-396 | Any tag, known command written in any case, with or without UID, and arguments within the size limit, printed as atoms, quoted strings, literals of arbitrary bytes and delimiters spelled byte by byte, with spaces between them or tight at delimiters where the reader allows it, are read back as that request, with one prompt for each synchronising literal, and the reader is as at the start |
| RequestRoundTrip.TagIff | src/core/receiver.rs:171-199 | A tag without white space is accepted exactly if it has at most 128 bytes and is UTF-8 |
| Utf8.IsUtf8Iff | src/core/receiver.rs:176-180 | The test for UTF-8 accepts exactly the UTF-8 forms of texts |
| RequestRoundTrip.CommandIff | src/core/receiver.rs:200-231 | A command of letters and digits is accepted, in any case, exactly if it has at most 15 bytes and is known in upper case |
| RequestRoundTrip.QuotedIff | src/core/receiver.rs:284-316 | A quoted string is refused exactly if it has a line feed or, from position 1024 on, anything but backslashes |
| BodyStructure.BodyStructureOf | src/commands/fetch.rs:706-757 | The walk with its stack ends and returns the recursively defined tree, for every mix of nested multiparts and messages whose multiparts refer to later parts |
| BodyStructure.Walk | src/commands/fetch.rs:712-757 | Under an open part the walk adds exactly the structures of the parts left |
| BodyStructure.StructureIff | src/commands/fetch.rs:706-757 | The tree of a part is the only one that describes it: a text or basic part by its kind, a multipart by its parts in order, a message by its envelope and its first part, all with their own fields |
| MailboxTree.FetchMailboxes | src/core/mailbox.rs:185-256 | The loop ends for every list, with cycles or not, and builds the caches from the recursively defined visits; it fails exactly if a visited mailbox has no id |
| MailboxTree.VisitedIff | src/core/mailbox.rs:206-256 | Visited are exactly the mailboxes that a chain of parents from the top of at most 101 mailboxes leads to |
| MailboxTree.VisitedOnce | src/core/mailbox.rs:206-256 | With distinct ids no mailbox is visited twice |
| MailboxTree.NamesAreExact | src/core/mailbox.rs:206-238 | The names are exactly the slash-joined names on the way from the top to the mailboxes within reach |
| MailboxTree.NamesOnTheWay | src/core/mailbox.rs:206-238 | A path has one name for each mailbox on the way, after the prefix of a shared account; the inbox of a personal account is INBOX and a mailbox without a name has the empty one |
| MailboxTree.InboxIsFound | src/core/mailbox.rs:206-238 | If no two mailboxes have the same name, the inbox at the top of a personal account is found under INBOX, and that of a shared account under its prefix and its own name |
| MailboxTree.EveryNameKeptIff | src/core/mailbox.rs:236-238 | Every mailbox within reach is found under its joined name exactly if no two have the same |
| MailboxTree.SiblingsSuffice | src/core/mailbox.rs:206-238 | No two have the same if siblings have different names and no name has a slash |
| MailboxTree.ChildrenAreExact | src/core/mailbox.rs:223-235 | Data is held for exactly the mailboxes within reach, and has_children is set exactly if a mailbox names it as parent |
| Folders.ValidateMailboxCreate | src/commands/create.rs:200-308 | A name in the personal account is accepted exactly if no check applies, and otherwise the first that applies is reported; the path of an accepted name splits at its deepest existing part |
| Folders.NameStandsFor | src/commands/create.rs:204-235 | A written name stands for its items, whatever white space is around the name and around each item, and with or without a slash before the first and after the last |
| Folders.JoinedPath | src/commands/create.rs:204-308 | A joined path stands for its items, and what is accepted for it is that path and its missing part, in order |
| Folders.DoubledSlash | src/commands/create.rs:206-216 | Of two slashes before a name only one is taken off, and the name is refused for an empty item |
| Folders.JoinOfSplit | src/commands/create.rs:223-223 | The parts of a text, joined by slashes, are the text |
| Folders.SplitOfJoin | src/commands/create.rs:223-223 | Parts without slashes come back from being joined and split |
| Folders.TrimCuts | src/commands/create.rs:205-212 | Trimming leaves the middle of a text, cuts white space only, and leaves none at the ends |
| Folders.NameProblemIff | src/commands/create.rs:213-234 | A path is refused by itself exactly for an empty item or for more than ten items |
| Folders.FindParent | src/commands/create.rs:275-307 | The nearest existing parent and the part of the path still to create |
| FolderCache.Account.AddCreated | src/commands/create.rs:116-198 | All created mailboxes enter the cache, or none if one is missing |
| FolderCache.Account.RenameMailbox | src/commands/rename.rs:126-190 | The names after RENAME are the moved names of those with the new parents, none lost and none put in the place of another; the flags are as computed; if the new parents are created but the rename is refused, they enter the cache with their flags |
| FolderCache.Account.CreateMailbox | src/commands/create.rs:70-114 | CREATE after the answer of the mail server: all created mailboxes enter the cache with their flags, or the cache is as before |
| FolderCache.CreateKeepsAll | src/commands/create.rs:116-198 | CREATE adds exactly the missing part of the path, keeps every name with its parents, and leaves every has_children flag right |
| FolderCache.MovedInjective | src/commands/rename.rs:168-184 | The rewrite puts no two mailboxes under one name |
| FolderCache.MovedTo | src/commands/rename.rs:168-184 | The mailbox gets the new name, one below it keeps the rest of its name below the new one, and any other name stays |
| FolderCache.RenameConserves | src/commands/rename.rs:168-184 | RENAME keeps every mailbox id, adds the new parents, moves each descendant by its prefix only, and leaves the names closed exactly if the new name is not under the old one |
| FolderCache.RenameKeepsFlagsIff | src/commands/rename.rs:142-166 | After RENAME every has_children flag is right exactly unless the parent that is left keeps a stale one |
| FolderCache.RefusedKeepsAll | src/commands/rename.rs:120-136 | If the new parents are created but the rename is refused, the names stay closed and every has_children flag is right |
| FolderCache.StaleExample | src/commands/rename.rs:142-160 | A rename after which a flag is wrong although all were right before |

## Left out

- UidUpdate.UpdateUids: the counter is taken to be at most 2^32 - 1 after the update, since the increment would overflow there; the clock is read once per call rather than once per deletion, and the scan is one step.
- UidUpdate.JmapToImapIds: the counter is taken to be at most 2^32 - 1 after the call.
- UidStore.InsertJmapId: the counter is taken to be below 2^32 - 1; as one step here, in three steps in `Workers`.
- UidIndex.RunConsistent: lists given to update_uids are taken to have no duplicates; `UidIndex.UpdateConsistentIff` says what happens otherwise.
- Workers.InverseIff: covers runs of insertions; with a scan of update_uids or delete_ids in between, only the claims about UIDs are made, and each of these closures is one step.
- Keys.EncodeInjective: ids and states have the characters of section 1.2 of RFC 8620, UIDs 32 bits and modseqs 24 bits; `Keys.ModseqUnderUidPrefixIff` says what happens beyond.
- Modseqs.GetModseq: modseqs are taken to stay below 2^24; the read, the increment and the two writes are one step, so that two workers who give one new state two modseqs at the same time are not modelled.
- Purges.PurgeDeletedIds: for times up to 0x2D2D2D2D2D2D2D2D seconds; `Purges.IdsAreSafeIff` says why.
- Mirror.ClientMirrorsServer: for clients without QRESYNC; the VANISHED response, which names UIDs, is not modelled. Lists of messages have no duplicates, every sync is one step, and the deletion from the database at the end of MOVE is taken to succeed.
- Search.SearchFinds: keys that are not expressible are excluded; `SearchCompiler.ExpressibleIff` says which these are.
- SearchParser.ParseFilters: a key and its arguments are one token, except for BEFORE and its date. The syntax of arguments, dates and the entry names of MODSEQ are not modelled; ANSWERED, SEEN and their like are keywords.
- SearchCompiler.ImapFilterToJmap: the saved search result is an arbitrary set of ids, which is there when it is asked for; the ids changed since a modseq are a parameter, and there is one reading of the clock.
- StoreSplit.SplitStore: MODIFIED is a set, without the order of the list; sets with `$` take another path, which is not modelled; the changes that the mail server reports are parameters.
- RequestRoundTrip.RequestRoundTrip: for a reader that starts at the tag; the set of known commands and of those with bracket tokens are parameters.
- BodyStructure.BodyStructureOf: the fields of a part and the envelope are abstract values; a message is taken to have a part and its multiparts to refer to later parts.
- MailboxTree.FetchMailboxes: roles, subscriptions and counters are not modelled, except for the role of the inbox; replies of several pages are one list.
- Folders.ValidateMailboxCreate: the branch for shared accounts is left out.
- FolderCache.Account.RenameMailbox: the name map of the personal account is taken to hold the parents of its names, and the mail server's answer is a parameter.
- Sockets, sessions, timeouts, configuration, logging and the texts of errors: plumbing.
- The JMAP client and paging of its replies: replies are arbitrary values.
- MIME parsing, character sets, MD5, parsing and formatting of dates: library code.
- LIST wildcards, ACLs, capabilities, authentication and the argument parsers of the other commands.
- The saved search result after deletions, and has_children after DELETE.
