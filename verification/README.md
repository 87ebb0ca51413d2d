# dCalcon: proofs about the hard parts

dCalcon is a self-hosted calendar and contacts server (Go) with a web front end (TypeScript).  This
project models the parts of it whose correctness is not visible from reading one function, and
proves what they promise:

- **The QR encoder** (`Gf256`, `Polynomials`, `ReedSolomon`, `QrBits`, `QrLayout`, `QrPath`,
  `QrModules`, `QrPatterns`, `QrMasks`, `QrFormat`, `QrPenalty`, `QrPenaltyLaws`, `QrCode`,
  `QrSymbol`).  From the log tables of GF(256) up to the finished matrix: for every byte string of
  at most 132 bytes the matrix reads back as that string, every block has zero syndromes, and no
  other mask has a smaller penalty (ISO/IEC 18004, sections 7.4 to 7.9).
- **The DAV store and its change log** (`Store`, `StoreMeaning`, `StoreTables`, `Sync`).  Over every
  run: one object per UID, a log that agrees with the tables, ctags that change with the contents,
  and syncs, first and incremental, that rebuild the listing exactly (RFC 6578, sections 3.4 and 3.5).
- **Local scheduling** (`Itip`, `ItipMeaning`, `Schedule`, `ScheduleRuns`, `ScheduleDelivery`,
  `ScheduleAnswers`, `ScheduleEffects`, `ScheduleSharing`, `ScheduleLines`, `ScheduleReplies`,
  `ScheduleSteps`, `ScheduleStore`).  A transition system over inboxes, outboxes, calendars and schedule rows (RFC
  5546, sections 3.2.2, 3.2.3 and 3.2.5; RFC 6638, section 3.2).
- **The week view's lanes** (`WeekGrid`, `WeekDays`, `WeekWidths`), **the rate limiter**
  (`RateLimit`, `RateBounds`, `RateCollection`), **merging recurrence rules** (`RRule`, `RRuleMerge`,
  `RRuleTwice`, `RRuleText`, `RRuleEdits`), **recurrences in time ranges** (`Expand`,
  `ExpandMeaning`; RFC 4791, sections 9.6.5 and 9.9).
- **Attachments** (`Attach`, `AttachMeaning`, `Attachments`, `AttachedStore`, `AttachmentLaws`,
  `AttachmentTables`), **the two reconcilers** (`Reconcile`, `ReconcileDays`, `ReconcileTables`),
  **vCard streams** (`VCard`).

`Strings` and `Wrappers` hold what several modules share.  Code that changes things in
place is modelled by methods and classes, each proved to carry out a function on values; what is
promised is then proved about these functions.

## What the proofs show to be otherwise than one might expect

The code is modelled as it is.  Where a natural promise does not hold, there is a lemma that says
exactly when it does, or a concrete case in which it does not.

- `handleSync` reads the listing, the newest change id and the changes in three statements outside
  any transaction.  An object written between the first two is lost to a client until it is written
  again (`Sync.ObjectLostBetweenReads`); `Sync.RacedReport` for incremental reports and
  `Sync.FirstReport` for first ones say exactly when a later sync puts the client right.
- An attendee who has answered, is dropped from the event and is invited again gets neither an
  invitation nor a copy (`ScheduleDelivery.InvitedAgain`, `ScheduleAnswers.BobIsInvitedInVain`).
- An update to an accepted invitation is written into the first writable calendar that has the UID,
  which may be one that another user shares (`ScheduleAnswers.SharedCalendarIsRewritten`);
  `ScheduleSharing.BystandersCalendar` says exactly when that happens.
- That an invitation is still pending is checked before the transaction that answers it, so two
  answers at once can turn an accepted invitation into a declined one
  (`ScheduleAnswers.AcceptThenDecline`, `ScheduleAnswers.GuardIsExact`).
- With a lockout shorter than the window, as the webcal limiter has it (120 hits, one hour, one
  minute), a window can hold more hits than the limit (`RateBounds.BoundIsExact`).  Hits whose check
  and count are separated by other calls, as in the handlers that call `Allow` and `Fail` apart, can
  exceed it with any settings but max = 1 (`RateBounds.InterleavedBoundIsExact`); a run in which no
  count finds a lock keeps to it (`RateBounds.RunIsBounded`).
- A count that comes when the lock of its key has lapsed is forgotten by the next check, unless the
  key was collected before: then garbage collection changes later answers
  (`RateCollection.CollectionIsInvisibleIff`).  It changes none if counts follow their checks by less
  than a lockout (`RateLimit.PromptIsEnough`, `RateLimit.AnsweredTheSame`).
- Blocks in a chain of overlaps may get different widths and be drawn over each other
  (`WeekGrid.ChainIsDrawnOver`).  `WeekWidths.WidthIsClosed` gives the width of a block from the times
  alone, `WeekWidths.DrawnOverIff` says exactly which blocks are drawn over each other, and
  `WeekWidths.OneWidthIff` on which days all overlapping blocks have one width; without chains they
  have (`WeekGrid.NoChainsIsApart`).
- Without an end of the range, expansion looks one year ahead and the filter two
  (`Expand.OpenEndDiffers`, exactly: `Expand.OpenEndAgreesIff`); a date whose DTEND is not after it
  lasts an hour for the one and a day for the other (`Expand.EmptyDateDiffers`, exactly:
  `Expand.AgreeForEveryRuleIff`).
- Two contacts whose UIDs differ only in characters that are replaced in hrefs make the Important
  Dates calendar change on every pass (`Reconcile.CollidingContacts`); `Reconcile.WorkerIsIdle` says
  exactly for which contacts it comes to rest.
- An edit of a recurrence rule that gives a new key two values has its first value after one merge
  and its last after two (`RRuleText.TwoValuesForOneKey`); a key whose last value is empty moves to
  the end (`RRuleTwice.BlankedKeyMoves`).  `RRuleText.MergeTwiceIff` says exactly when merging once is
  enough.
- A new file whose random id is taken already is refused by the database, also after the check in
  bulk let the list through (`Attachments.BulkCheckIsExact`).
- An object that refers to one stored file twice keeps the second reference as an external entry
  (`Attachments.StoredObject`).

## Model

| member | source | states |
|---|---|---|
| Gf256.OrderIs255 | src/web/lib/qr.ts:11-18 | x has order 255 modulo 0x11d: no smaller positive power of it is 1 |
| Gf256.PowInjective | src/web/lib/qr.ts:13-16 | the 255 entries of EXP are distinct, so LOG is well defined |
| Gf256.PowSurjective | src/web/lib/qr.ts:13-16 | every nonzero byte is an entry of EXP, so LOG has an entry for it |
| Gf256.MulIsShiftAndXor | src/web/lib/qr.ts:22-25 | the table product is multiplication of polynomials over GF(2) modulo 0x11d |
| Gf256.MulCommutes | src/web/lib/qr.ts:22-25 | the product does not depend on the order of its factors |
| Gf256.MulAssociates | src/web/lib/qr.ts:22-25 | the product is associative |
| Gf256.MulDistributes | src/web/lib/qr.ts:22-25 | the product distributes over exclusive or |
| Gf256.MulInjective | src/web/lib/qr.ts:22-25 | multiplying by a nonzero byte loses nothing |
| Gf256.Tables.GfMul | src/web/lib/qr.ts:22-25 | looking up EXP at the sum of two logarithms gives the product, zero included |
| Gf256.BuildTables | src/web/lib/qr.ts:9-20 | the loop fills EXP with the powers of x, twice over, and LOG with their exponents |
| Polynomials.EvalTimes | src/web/lib/qr.ts:27-38 | the value of a product of polynomials is the product of the values |
| Polynomials.SyntheticDivision | src/web/lib/qr.ts:27-51 | Horner's intermediate values divide a polynomial by x - a |
| Polynomials.ManyRoots | src/web/lib/qr.ts:27-51 | a polynomial with as many distinct roots as coefficients is zero |
| Polynomials.FewTerms | src/web/lib/qr.ts:27-51 | a polynomial with at most n nonzero terms that is zero at the first n powers of a is zero, if the powers of a differ up to its length |
| Polynomials.Division | src/web/lib/qr.ts:40-51 | data followed by the shift register is a multiple of the monic divisor |
| ReedSolomon.GFLaws | src/web/lib/qr.ts:9-25 | bytes with exclusive or and the table product are a field |
| ReedSolomon.GeneratorRoots | src/web/lib/qr.ts:27-38 | the generator of degree n is zero at EXP[0] to EXP[n-1] |
| ReedSolomon.CheckDivides | src/web/lib/qr.ts:40-51 | for any data and any n, data and check bytes are a multiple of the generator |
| ReedSolomon.CodewordVanishes | src/web/lib/qr.ts:40-51 | every syndrome of data followed by its check bytes is zero |
| ReedSolomon.CheckIsUnique | src/web/lib/qr.ts:40-51 | no other n bytes after the data have zero syndromes |
| ReedSolomon.CodewordsAreApart | src/web/lib/qr.ts:27-51 | different words of up to 255 bytes whose n syndromes are zero differ in more than n places |
| ReedSolomon.BlocksAreApart | src/web/lib/qr.ts:40-51 | blocks of different data differ in more than n places, n being the number of check bytes |
| ReedSolomon.ErrorsAreCorrectable | src/web/lib/qr.ts:40-51 | at most one codeword differs from a received word in n / 2 places or fewer |
| ReedSolomon.MultiplyLinear | src/web/lib/qr.ts:29-35 | one round of the generator loop multiplies by x + EXP[i] |
| ReedSolomon.RsGenerator | src/web/lib/qr.ts:27-38 | the loops compute the generator |
| ReedSolomon.Feed | src/web/lib/qr.ts:43-49 | one byte shifts the register by one step of the division, also when the factor is zero |
| ReedSolomon.RsEncode | src/web/lib/qr.ts:40-51 | the register after all the data holds the check bytes |
| QrBits.BitsOfValue | src/web/lib/qr.ts:57-67 | a bit string is the binary writing of its value |
| QrBits.ToBytesPrefix | src/web/lib/qr.ts:57-67 | cutting the bits of bytes into bytes gives the bytes back, whatever follows |
| QrBits.BitBuffer.constructor | src/web/lib/qr.ts:53-56 | a new buffer is empty |
| QrBits.BitBuffer.Put | src/web/lib/qr.ts:57-67 | put appends the low bits of the value, most significant first |
| QrBits.BitBuffer.PadTo | src/web/lib/qr.ts:68-78 | padTo completes the last byte with zeros and adds 0xec and 0x11 in turn up to the capacity |
| QrBits.PadsAre | src/web/lib/qr.ts:68-78 | the pad bytes are 11101100 and 00010001 in turn |
| QrLayout.PathVisitsOnce | src/web/lib/qr.ts:268-282 | for any odd size above 7 the zigzag meets every kept cell outside column 6 exactly once |
| QrPath.PathIsOrdered | src/web/lib/qr.ts:264-282 | in pairs of columns from the right, up and down in turn, the right module of a row first; with `PathVisitsOnce` this determines the path |
| QrLayout.DataCellsAreTheUnreserved | src/web/lib/qr.ts:268-282 | the cells that get bits are exactly the unreserved modules, each once |
| QrLayout.DataCellsCount | src/web/lib/qr.ts:258-282 | how many data modules each version has |
| QrModules.Reserved | src/web/lib/qr.ts:126-145 | the loops mark finders with format areas, timing lines and alignment pattern, and nothing else |
| QrModules.Finder | src/web/lib/qr.ts:103-116 | a finder writes dark and light rings around its centre and leaves the rest alone |
| QrModules.Alignment | src/web/lib/qr.ts:118-124 | an alignment pattern writes its rings and leaves the rest alone |
| QrModules.Timing | src/web/lib/qr.ts:248-251 | the timing lines alternate between the finders |
| QrModules.Base | src/web/lib/qr.ts:244-257 | the function patterns, module by module |
| QrPatterns.CornersAre | src/web/lib/qr.ts:103-116 | each finder is a border and a core of 3 by 3 with a light separator, in three corners |
| QrPatterns.TimingIs | src/web/lib/qr.ts:248-251 | between the finders every second module of row 6 and column 6 is dark |
| QrPatterns.AlignmentIs | src/web/lib/qr.ts:118-124 | the alignment pattern is a border of 5 by 5 and its centre |
| QrPatterns.PatternsAreReserved | src/web/lib/qr.ts:126-145 | no data lies on a dark module of the patterns |
| QrPatterns.ReservedAre | src/web/lib/qr.ts:126-145 | which modules are reserved, by their distance from the edges |
| QrModules.Fill | src/web/lib/qr.ts:266-282 | afterwards the k-th data cell carries bit k under the mask, and no other module has changed |
| QrMasks.PlainMasks | src/web/lib/qr.ts:147-158 | masks 0, 1, 2 and 4 are a chessboard, stripes in every second row and every third column, and a chessboard of blocks 2 by 3 |
| QrMasks.DiagonalMask | src/web/lib/qr.ts:154-155 | mask 3 has every third diagonal |
| QrMasks.ProductMasks | src/web/lib/qr.ts:158-165 | masks 5, 6 and 7 in terms of the remainders of the product of row and column |
| QrFormat.CodeIsMultiple | src/web/lib/qr.ts:168-175 | the format word without its pattern is a multiple of the BCH generator and starts with level and mask |
| QrFormat.FormatBits | src/web/lib/qr.ts:168-176 | the loop computes the format word |
| QrFormat.WordNamesLevelAndMask | src/web/lib/qr.ts:168-176 | before the pattern is laid over it, the word starts with 01 for level L and the mask in binary |
| QrFormat.GeneratorAndPattern | src/web/lib/qr.ts:171-175 | generator and pattern of section 7.9.1 of ISO/IEC 18004, by their exponents |
| QrFormat.PlaceFormat | src/web/lib/qr.ts:178-191 | both copies show the word, the dark module is dark, and no other module changes |
| QrFormat.FormatCellsAreReserved | src/web/lib/qr.ts:126-145 | format bits are written to reserved modules only, so they destroy no data |
| QrFormat.MaskReadsBack | src/web/lib/qr.ts:168-176 | the mask is read off the format word |
| QrPenalty.ScoreLine | src/web/lib/qr.ts:196-206 | the loop scores each maximal run of five or more equal modules |
| QrPenalty.ComputePenalty | src/web/lib/qr.ts:193-228 | the loops compute the penalty of which `PenaltyIs` says what it is |
| QrPenaltyLaws.LineScoreIsRuns | src/web/lib/qr.ts:196-205 | a line scores j - i - 2 for all i and j, five or more apart, that bound a maximal run |
| QrPenaltyLaws.PenaltyIs | src/web/lib/qr.ts:193-228 | the penalty in terms of the matrix alone: maximal runs of rows and of columns, 3 for each 2x2 block of one colour, 10 for each full 5 % off balance |
| QrPenaltyLaws.PenaltyTurned | src/web/lib/qr.ts:193-228 | transposing a matrix leaves its penalty unchanged |
| QrPenaltyLaws.PenaltyInverted | src/web/lib/qr.ts:193-228 | so does exchanging dark and light |
| QrPenaltyLaws.PenaltyOfStripes | src/web/lib/qr.ts:193-228 | the penalty of vertical stripes of any odd size from 5 on |
| QrPenaltyLaws.PenaltyOfOneColour | src/web/lib/qr.ts:193-228 | the penalty of a uniform matrix of any size from 5 on |
| QrCode.ModulesMatchBits | src/web/lib/qr.ts:3-6 | data modules of each version are its code bits and remainder bits exactly |
| QrCode.Interleave | src/web/lib/qr.ts:82-101 | the loops produce data and check bytes of all blocks column by column |
| QrCode.DataComesBack | src/web/lib/qr.ts:82-101 | de-interleaving gives the data bytes back |
| QrCode.ChecksComeBack | src/web/lib/qr.ts:82-101 | de-interleaving gives the check bytes of each block back |
| QrCode.CodeWordsAreCodewords | src/web/lib/qr.ts:82-101 | every block of the interleaved code has zero syndromes |
| QrCode.ChooseVersion | src/web/lib/qr.ts:232-234 | the smallest version that the text fits, and none exactly above 132 bytes |
| QrCode.EncodeSegment | src/web/lib/qr.ts:235-241 | mode, count, bytes, terminator and pad bytes fill the capacity |
| QrCode.SegmentReadsBack | src/web/lib/qr.ts:236-241 | parsing the byte-mode header gives the text back |
| QrSymbol.SymbolIsDetermined | src/web/lib/qr.ts:243-283 | version, bits and mask determine every module |
| QrSymbol.Draw | src/web/lib/qr.ts:266-283 | one round of the mask loop draws the symbol of that mask |
| QrSymbol.StreamBits | src/web/lib/qr.ts:259-261 | the bits of the code, then the remainder bits |
| QrSymbol.BestOfEight | src/web/lib/qr.ts:263-290 | the result is the symbol of the first mask whose penalty no other mask beats |
| QrSymbol.CodeIsRead | src/web/lib/qr.ts:266-283 | reading along the zigzag and removing the mask named in the format bits gives the code |
| QrSymbol.DecodeUndoesEncode | src/web/lib/qr.ts:230-291 | a symbol of a text reads back as the text, and each of its blocks has zero syndromes |
| QrSymbol.QrMatrix | src/web/lib/qr.ts:230-291 | an error exactly above 132 bytes, else a matrix that reads back as the text, with the least penalty |
| Store.RunKeepsInv | src/svc/internal/storage/dav.go:332-403 | in every state of every run: one object per non-empty UID in a calendar, last log entry deleted exactly for absent hrefs, ids in order |
| Store.UpsertCalendarKeepsInv | src/svc/internal/storage/dav.go:332-354 | so does an upsert that moves a UID from another href |
| Store.RunExtends | src/svc/internal/storage/dav.go:872-877 | over any run the log only grows, and what it does not mention has not changed |
| Store.SameCTagSameObjects | src/svc/internal/storage/dav.go:215-220 | equal ctags at two points of a run mean equal contents |
| StoreMeaning.UpsertStores | src/svc/internal/storage/dav.go:332-354 | after an upsert the href has the object, another href with its UID is gone, all others stay; one log entry and one step of the ctag for each change |
| StoreMeaning.DeleteTakes | src/svc/internal/storage/dav.go:356-372 | deleting takes that href away, with an entry and a step of the ctag, or does nothing |
| StoreMeaning.DeleteTogetherTakes | src/svc/internal/storage/dav.go:371-403 | deleting by prefix takes the rows away with an entry for each and one step of the ctag |
| StoreMeaning.TouchMoves | src/svc/internal/storage/dav.go:215-220 | a change of shares moves the ctag by one and nothing else |
| StoreMeaning.PercentMatches | src/svc/internal/storage/dav.go:371-376 | in a LIKE pattern % stands for any stretch of the text |
| StoreTables.LikePrefix | src/svc/internal/storage/dav.go:371-376 | LIKE with a prefix without wildcards selects the hrefs that start with it, in either case |
| StoreTables.Tables.UpsertCalendarObject | src/svc/internal/storage/dav.go:332-354 | another href with the UID gives way first, both logged, the ctag moved |
| StoreTables.Tables.DeleteCalendarObject | src/svc/internal/storage/dav.go:356-369 | the row, a log entry and a new ctag; not found changes nothing |
| StoreTables.Tables.DeleteCalendarObjectsByPrefix | src/svc/internal/storage/dav.go:371-403 | all matching rows, an entry for each, one new ctag |
| StoreTables.Tables.DeleteObjectsByUID | src/svc/internal/storage/dav.go:776-801 | one by one, and no object with the UID is left |
| StoreTables.Tables.UpsertAddressObject | src/svc/internal/storage/dav.go:621-636 | the row is written, logged and the ctag moved |
| Sync.TokenRoundTrip | src/svc/internal/storage/dav.go:852-870 | a token the server writes is a token it reads |
| Sync.CompactChanges | src/svc/internal/storage/dav.go:903-922 | the loop keeps each href once, in first-seen order, with its last change |
| Sync.CompactReplaysTheSame | src/svc/internal/storage/dav.go:892-923 | replaying the compacted list ends where replaying the raw log suffix does, with each href once |
| Sync.HandleSync | src/svc/internal/davext/sync.go:26-125 | refusal of bad and future tokens, full listing without a token, delta with one, and the new token |
| Sync.DeltaIsExact | src/svc/internal/davext/sync.go:104-121 | the listing as of a token, with the delta applied, is the current listing |
| Sync.FullReportIsExact | src/svc/internal/davext/sync.go:100-103 | a first sync gives the listing |
| Sync.SyncIsExact | src/svc/internal/davext/sync.go:86-125 | over any run: an issued token is never refused later, and its delta rebuilds exactly the current listing |
| Sync.FirstSync | src/svc/internal/davext/sync.go:100-103 | a blank token is accepted, and gives a client without anything the listing and a token for it |
| Sync.ClientHoldsListing | src/svc/internal/davext/sync.go:26-125 | a client that starts with nothing and syncs with the token it got last holds exactly the listing after each sync of any run |
| Sync.RefusedIff | src/svc/internal/davext/sync.go:86-94 | a token is refused exactly if it is not blank and not the prefix with a number up to the latest id |
| Sync.QuotedIs | src/svc/internal/davext/sync.go:128-153 | etags are shown in quotes, and different ones stay different |
| Sync.RacedReport | src/svc/internal/davext/sync.go:67-121 | with writes between its reads, an incremental report can be repaired by the next sync, at any later state, exactly when listing and token agree on what is not written again before it |
| Sync.FirstReport | src/svc/internal/davext/sync.go:67-103 | a first report can be, exactly when listing and token show the same of everything not written again: present with one etag, or absent |
| Sync.UnmentionedStays | src/svc/internal/davext/sync.go:86-121 | over any chain of syncs an href that is not written again stays as the client's map had it |
| Sync.SyncedAlongIsExact | src/svc/internal/davext/sync.go:86-121 | a client that starts with the listing and syncs at any later points of a run holds the listing after each |
| Sync.ObjectLostBetweenReads | src/svc/internal/davext/sync.go:67-86 | an object written between listing and token is never reported by any chain of later syncs unless it is written again |
| Itip.EventStaysFirst | src/svc/internal/icsutil/event.go:30-42 | replacing the attendee lines of the event leaves it the event, with UID and METHOD |
| ItipMeaning.EventIs | src/svc/internal/icsutil/event.go:30-42 | the event is the first VEVENT, or else the first component that is no time zone |
| ItipMeaning.UidIs | src/svc/internal/icsutil/icsutil.go:18-28 | the UID is the first that is not empty, time zones aside |
| ItipMeaning.SameAddress | src/svc/internal/icsutil/event.go:322-327 | an address has the same key with mailto before it in small or capital letters, and in any case |
| ItipMeaning.InvitedIs | src/svc/internal/icsutil/event.go:345-359 | an invited attendee is written with the old answer or NEEDS-ACTION, RSVP and ROLE, and an address with mailto |
| Itip.SetAttendeePartstatAny | src/svc/internal/icsutil/event.go:389-414 | every line whose folded address is wanted gets the PARTSTAT, the others stay, in order |
| Itip.MergeInvitees | src/svc/internal/icsutil/event.go:364-381 | the loops keep the first entry per address, the event's own before the added ones |
| Itip.KeysAreDistinct | src/svc/internal/icsutil/event.go:363-383 | merged attendees have distinct, non-empty addresses |
| Itip.KeysAreKept | src/svc/internal/icsutil/event.go:363-383 | no address is lost and none is made up |
| Itip.EarlierWins | src/svc/internal/icsutil/event.go:363-383 | of two entries for one address the earlier is kept |
| Itip.SetOrganizerAttendees | src/svc/internal/icsutil/event.go:329-361 | organizer and attendee lines are written anew, with mailto addresses and a default PARTSTAT; a calendar without an event stays |
| Itip.MergeOrganizerAttendees | src/svc/internal/icsutil/event.go:363-383 | the event's attendees and the added ones, one per address, are written as its attendee lines |
| Itip.MailtoKeepsKey | src/svc/internal/icsutil/event.go:314-327 | a written address is matched by the same key, and writing it twice is writing it once |
| Itip.InvitedIsRead | src/svc/internal/icsutil/event.go:329-361 | what is written stays the event, with UID and METHOD, and reads back as the lines written |
| Itip.InviteTwice | src/svc/internal/icsutil/event.go:329-383 | inviting the same attendees a second time changes nothing |
| Itip.MergeAttendees | src/svc/internal/schedule/itip.go:176-186 | the loop folds the reply's attendees into the event |
| Itip.MergedLine | src/svc/internal/schedule/itip.go:176-186 | addresses, order and number of lines stay; each takes the last non-empty PARTSTAT replied for it |
| ScheduleRuns.InsertRowKeeps | src/svc/internal/storage/dav.go:740-758 | recording a row keeps keys unique and settled statuses settled |
| ScheduleRuns.UpsertIsUnique | src/svc/internal/storage/dav.go:332-354 | an upsert keeps one object per UID in every collection |
| ScheduleRuns.DeliverOneKeeps | src/svc/internal/schedule/local.go:139-175 | delivering a REQUEST keeps the invariant: an invitation in an inbox has an open row |
| ScheduleRuns.CancelOneKeeps | src/svc/internal/schedule/itip.go:108-148 | delivering a CANCEL keeps the invariant |
| ScheduleRuns.MergeReplyKeeps | src/svc/internal/schedule/itip.go:153-193 | merging a reply keeps UIDs unique and invites nobody |
| ScheduleRuns.AnsweredKeeps | src/svc/internal/schedule/local.go:247-253 | answering removes the invitation together with its open row |
| ScheduleRuns.RespondedKeeps | src/svc/internal/api/router.go:456-499 | a response to a pending invitation keeps the invariant, also when it fails |
| ScheduleRuns.PutEventKeeps | src/svc/internal/schedule/local.go:70-101 | a PUT by the organizer keeps the invariant |
| ScheduleRuns.PostKeeps | src/svc/internal/schedule/itip.go:19-66 | a POST to the outbox keeps the invariant, whatever its METHOD |
| ScheduleRuns.RunKeeps | src/svc/internal/schedule/local.go:117-275 | over every run: one row per key, settled answers stay settled, one object per UID, and a REQUEST in an inbox only while its row is open |
| ScheduleLines.RunIsStepwise | src/svc/internal/schedule/local.go:117-275 | the calls of a run take effect one after the other |
| ScheduleRuns.NewServerIsFine | src/svc/internal/schedule/local.go:117-275 | an empty database satisfies the invariant |
| ScheduleDelivery.LocalUsersAreGuests | src/svc/internal/schedule/local.go:103-115 | local attendees are active, are not the organizer, and occur once |
| ScheduleDelivery.RemovedAreDropped | src/svc/internal/schedule/local.go:79-90 | the cancelled users are exactly the previous attendees who are not current |
| ScheduleDelivery.DroppedAttendees | src/svc/internal/schedule/local.go:70-101 | after a PUT a dropped attendee has no object with the UID in any calendar of their own and nothing pending for it |
| ScheduleDelivery.RemainingAttendees | src/svc/internal/schedule/local.go:70-101 | after a PUT every local attendee has a REQUEST row |
| ScheduleDelivery.OthersAreUntouched | src/svc/internal/schedule/local.go:70-101 | a PUT leaves users on neither list alone: rows, inbox, outbox, and calendars no attendee may write to |
| ScheduleDelivery.DeliveredIffUnsettled | src/svc/internal/schedule/local.go:146-163 | delivery puts the REQUEST into the inbox exactly when the attendee has not answered before |
| ScheduleDelivery.InvitedAgain | src/svc/internal/schedule/local.go:146-168 | an attendee who answered, was dropped and is invited again is left with neither copy nor invitation |
| ScheduleAnswers.LastOfAnswered | src/svc/internal/schedule/local.go:231-234 | what an answered invitation says last about each address |
| ScheduleAnswers.MergedIntoCopy | src/svc/internal/schedule/itip.go:169-192 | a merged reply is in the organizer's copy that FindOwnedObjectByUID finds |
| ScheduleAnswers.AnswerReachesOrganizer | src/svc/internal/schedule/local.go:309-335 | after an answer every line for an identity of the answering user in the invitation has it, every other line what the invitation last said |
| ScheduleAnswers.GuardIsExact | src/svc/internal/api/router.go:470-473 | answering keeps settled statuses exactly when the item has not been answered otherwise since the check |
| ScheduleAnswers.AcceptThenDecline | src/svc/internal/api/router.go:470-473 | an acceptance and a refusal that both passed the check leave the accepted invitation declined |
| ScheduleAnswers.BobIsInvitedInVain | src/svc/internal/schedule/local.go:70-101 | a concrete world for this: an attendee who accepted is taken off a meeting and invited again, and has neither copy nor invitation |
| ScheduleAnswers.SharedCalendarIsRewritten | src/svc/internal/schedule/local.go:204-214 | a delivery rewrites the copy in a calendar shared by a user who is on neither list |
| ScheduleEffects.RecordedRow | src/svc/internal/storage/dav.go:740-758 | a recorded row is found with the new text, and with the new status unless it was settled |
| ScheduleEffects.DeliveredRow | src/svc/internal/schedule/local.go:146-163 | after a delivery the attendee's row has the new text and is pending unless it was answered |
| ScheduleEffects.DeliveredCopies | src/svc/internal/schedule/local.go:151-174 | the REQUEST lies in the organizer's outbox, and in the inbox of an attendee who has not answered |
| ScheduleEffects.AcceptedCopyIsRefreshed | src/svc/internal/schedule/local.go:184-216 | the accepted copy becomes the new version, with the attendee's lines accepted |
| ScheduleEffects.CancelArrives | src/svc/internal/schedule/itip.go:119-147 | the CANCEL lies in the attendee's inbox and the organizer's outbox, and its row is there |
| ScheduleEffects.AnswerLeaves | src/svc/internal/schedule/local.go:247-253 | after an answer the item has its status, the invitation is gone, and the organizer has the reply and its row |
| ScheduleEffects.MergeReplyLeavesBoxes | src/svc/internal/schedule/itip.go:169-192 | merging a reply changes no inbox, no outbox and no calendar of anybody else |
| ScheduleEffects.MergeReplyAt | src/svc/internal/schedule/itip.go:169-192 | what merging a reply leaves at any href of any calendar: the merged object if it is the one picked, else what was there |
| ScheduleEffects.AcceptedEventIsThere | src/svc/internal/schedule/local.go:235-253 | the accepted event is in the calendar chosen, which the attendee may write to: the answer, or the answer with the reply merged in where that calendar is the organizer's |
| ScheduleSharing.DeliverOneAt | src/svc/internal/schedule/local.go:139-216 | one delivery overwrites the copy in an ordinary calendar exactly when the attendee has accepted and the UID is found there first; else the calendar stays |
| ScheduleSharing.DeliverCopiesAt | src/svc/internal/schedule/local.go:139-216 | after all deliveries of a version every ordinary calendar holds what the tables before them tell: the copy of the last attendee who writes to it |
| ScheduleSharing.CalendarsAfterPut | src/svc/internal/schedule/local.go:70-101 | after a PUT every ordinary calendar, whoever owns it, is determined by the tables before: without the UID if a dropped user owns it, else rewritten or as it was |
| ScheduleSharing.BystandersCalendar | src/svc/internal/schedule/local.go:70-101 | a PUT changes a bystander's calendar exactly when a current attendee has accepted and looks for the UID there first, and the copy there is not yet that of the last such attendee |
| ScheduleSharing.LastWriterIsLast | src/svc/internal/schedule/local.go:184-216 | the last writer is an attendee who has accepted and looks there first, and none after it on the list does |
| ScheduleLines.ListedIffNamed | src/svc/internal/schedule/local.go:103-115 | the local attendees are exactly the active users other than the organizer whom an ATTENDEE line names |
| ScheduleLines.PutDeliversIff | src/svc/internal/schedule/local.go:70-77 | which PUTs deliver: into personal and shared calendars, of events without an organizer or organized by the user; others change nothing |
| ScheduleLines.PutInvites | src/svc/internal/schedule/local.go:70-101 | such a PUT gives every local user whom a line names a REQUEST row, and the event with METHOD REQUEST in the inbox unless it was answered before |
| ScheduleLines.PutDrops | src/svc/internal/schedule/local.go:79-94 | a local user whom a line of the old version names and none of the new one is left with the CANCEL only: no copy, nothing pending |
| ScheduleLines.DeleteCancels | src/svc/internal/schedule/itip.go:84-97 | deleting the event does the same for every local user whom a line names |
| ScheduleLines.PostedCancel | src/svc/internal/schedule/itip.go:38-43 | so does a posted CANCEL |
| ScheduleLines.PostedRequest | src/svc/internal/schedule/itip.go:54-64 | a calendar posted with any METHOD but CANCEL and REPLY invites every local user whom a line names |
| ScheduleLines.PostedFreeBusy | src/svc/internal/schedule/itip.go:22-24 | a posted request for free-busy times changes nothing |
| ScheduleReplies.PostedReply | src/svc/internal/schedule/itip.go:44-53 | a posted REPLY reaches the organizer's event: each line takes the last PARTSTAT that the reply has for its address |
| ScheduleReplies.AcceptSays | src/svc/internal/schedule/local.go:226-255 | after an acceptance the row is accepted, and the stored copy, the reply and the organizer's event say ACCEPTED in every line of the attendee's |
| ScheduleReplies.CopyIsFound | src/svc/internal/storage/dav.go:803-826 | the organizer's event is found exactly if a calendar of the organizer's own has one with the UID, and is one of these |
| ScheduleReplies.DeclineSays | src/svc/internal/schedule/local.go:257-275 | after a refusal the row is declined, and the reply and the organizer's event say DECLINED |
| ScheduleReplies.AcceptSucceedsIff | src/svc/internal/schedule/local.go:226-255 | an acceptance succeeds exactly when the organizer is known and there is a calendar that may take the event |
| ScheduleReplies.FirstThatMayTake | src/svc/internal/schedule/local.go:277-299 | the event goes to the first calendar that may take it: writable, and the one asked for or a personal one of the user's own |
| ScheduleReplies.FirstThatHolds | src/svc/internal/schedule/local.go:202-214 | an accepted copy is brought up to date in the first calendar with the UID that the user may write to |
| ScheduleReplies.RefreshedSays | src/svc/internal/schedule/local.go:189-196 | with a text without METHOD that says ACCEPTED in the attendee's lines and is otherwise the new version |
| ScheduleReplies.DeliveryRespectsRights | src/svc/internal/schedule/local.go:139-216 | a delivery changes an ordinary calendar only if the attendee has answered and may write to it |
| ScheduleSteps.CollectLocalAttendees | src/svc/internal/schedule/local.go:103-115 | the loop with its seen set collects the local attendees |
| ScheduleSteps.CollectRemoved | src/svc/internal/schedule/local.go:79-90 | the two loops collect the dropped attendees |
| ScheduleSteps.Server.DeliverCopies | src/svc/internal/schedule/local.go:139-176 | the loop delivers to one attendee after the other |
| ScheduleSteps.Server.DeliverCopy | src/svc/internal/schedule/local.go:140-174 | its body: inbox copy and row, refreshed copy, outbox copy and row, by the previous status |
| ScheduleSteps.Server.RefreshAcceptedCopy | src/svc/internal/schedule/local.go:184-216 | the first writable calendar with the UID gets the new version, or none |
| ScheduleSteps.Server.DeliverCancel | src/svc/internal/schedule/itip.go:94-151 | the loop cancels for one attendee after the other |
| ScheduleSteps.Server.CancelCopy | src/svc/internal/schedule/itip.go:109-147 | its body: inbox copy and row, pending rows closed, own calendars cleared, outbox copy and row |
| ScheduleSteps.Server.DeleteFromOwned | src/svc/internal/schedule/itip.go:129-141 | the UID is deleted from every calendar the user owns but inbox and outbox |
| ScheduleSteps.Server.DeliverFromPut | src/svc/internal/schedule/local.go:70-101 | cancel for the dropped, then deliver to the current, if the calendar and organizer schedule |
| ScheduleSteps.Server.CancelFromDelete | src/svc/internal/schedule/itip.go:76-92 | deleting the event cancels it for all local attendees |
| ScheduleSteps.Server.MergeReply | src/svc/internal/schedule/itip.go:153-193 | the reply is merged into the organizer's object and written only if it changes it |
| ScheduleSteps.Server.Answer | src/svc/internal/schedule/local.go:247-253 | reply object and row, merge, inbox cleared, status set |
| ScheduleSteps.Server.FindAcceptCalendar | src/svc/internal/schedule/local.go:277-299 | the calendar asked for, or the first writable personal one |
| ScheduleSteps.Server.Accept | src/svc/internal/schedule/local.go:226-255 | one transaction: the accepted copy and the answer, or nothing |
| ScheduleSteps.Server.Decline | src/svc/internal/schedule/local.go:257-275 | one transaction: the answer, or nothing |
| ScheduleSteps.Server.HandleOutboxPost | src/svc/internal/schedule/itip.go:19-66 | dispatch on METHOD; a free-busy request changes nothing |
| ScheduleStore.UpsertIsTheStores | src/svc/internal/storage/dav.go:332-354 | the scheduling steps' upsert is the store's, so it is logged and moves the ctag |
| ScheduleStore.DeleteIsTheStores | src/svc/internal/storage/dav.go:776-801 | so is their deletion by UID, in any order of the rows |
| WeekGrid.TimedRange | src/web/lib/week-grid.ts:33-43 | a range is non-empty and within the day, or empty at its end for times of 24 hours and more |
| WeekDays.ShownInCommon | src/web/lib/week-grid.ts:33-43 | an event that ends after it starts is shown on each day for exactly the minutes it has in common with it |
| WeekDays.HourWithoutEnd | src/web/lib/week-grid.ts:33-43 | without an end, for an hour on the day it starts |
| WeekDays.UnreadableTime | src/web/lib/week-grid.ts:37-38 | a time of day that cannot be read counts as midnight |
| WeekDays.HalfAnHour | src/web/lib/week-grid.ts:41 | if it ends no later than it starts, for half an hour |
| WeekDays.ToTheDate | src/web/lib/week-grid.ts:33-43 | if it ends on a date without a time, to the end of the day before |
| WeekDays.EndsEarlier | src/web/lib/format.ts:177-195 | if it ends on an earlier date, on the day it starts only |
| WeekDays.NotAmongTimed | src/web/lib/week-grid.ts:34-35 | tasks, events of whole days and events without a time are not shown among the timed |
| WeekDays.DaysOfAllDay | src/web/lib/format.ts:177-202 | an event of whole days is on the days before its end, and on one at least |
| WeekDays.EveryEventHasItsBlock | src/web/lib/week-grid.ts:53-60 | each event that has a part of the day is laid out, as often as it is given, and no other |
| WeekGrid.SortSorts | src/web/lib/week-grid.ts:60 | blocks come out ordered by start, then end |
| WeekDays.SortedByStartThenEnd | src/web/lib/week-grid.ts:60 | in sorted blocks starts do not fall, nor ends where starts are equal |
| WeekGrid.SortIsStable | src/web/lib/week-grid.ts:60 | blocks with equal times come out as they went in, none lost |
| WeekGrid.OverlappingAreApart | src/web/lib/week-grid.ts:61-68 | overlapping blocks never share a column |
| WeekGrid.NeverMoreThanLanes | src/web/lib/week-grid.ts:61-68 | no more blocks run at one time than there are columns |
| WeekGrid.AsFewAsPossible | src/web/lib/week-grid.ts:61-68 | at some time as many blocks run as there are columns; one column if none ever runs |
| WeekGrid.EveryBlockFits | src/web/lib/week-grid.ts:69-90 | cols exceeds the column of every overlapping block and its own, and never the columns used |
| WeekGrid.SameWidthIsApart | src/web/lib/week-grid.ts:79-90 | overlapping blocks with equal cols are drawn side by side |
| WeekGrid.NoChainsIsApart | src/web/lib/week-grid.ts:69-90 | on a day on which blocks that overlap a common block overlap each other, overlapping blocks have one width and are drawn side by side |
| WeekGrid.WidthsDoNotFall | src/web/lib/week-grid.ts:82-90 | of two overlapping blocks the later in the order has at least as many cols |
| WeekGrid.ChainIsDrawnOver | src/web/lib/week-grid.ts:82-90 | a day on which two overlapping blocks get 2 and 3 cols and are drawn over each other |
| WeekWidths.LaneIsRunning | src/web/lib/week-grid.ts:61-68 | a block's lane is less than the number of blocks that run at its start |
| WeekWidths.WidthIsClosed | src/web/lib/week-grid.ts:61-90 | cols of a block is the greatest number of blocks of its chain that run at once at a start before its horizon: the latest end of those that start before the latest end up to it |
| WeekWidths.EmptyHasOneColumn | src/web/lib/week-grid.ts:69-90 | a block with an empty range, at the end of the day, has one column |
| WeekWidths.DrawnOverIff | src/web/lib/week-grid.ts:61-90 | exactly when two overlapping blocks are drawn over each other: the later has the higher lane and the greater closed-form width, and neither ends left of the other |
| WeekWidths.OneWidthIff | src/web/lib/week-grid.ts:69-90 | all overlapping blocks of a day have one width exactly when in every chain the greatest number that ever runs at once is reached before the end of some block that starts before the first one ends |
| WeekGrid.ArrangedIsSorted | src/web/lib/week-grid.ts:53-60 | the laid-out blocks are sorted and have proper ranges, as the lane results require |
| WeekGrid.AssignLanes | src/web/lib/week-grid.ts:61-68 | the loop assigns the greedy columns in place |
| WeekGrid.SetFirstCols | src/web/lib/week-grid.ts:69-81 | the first pass over cols |
| WeekGrid.WidenCols | src/web/lib/week-grid.ts:82-90 | the second pass over cols, in place |
| WeekGrid.LayoutDayTimed | src/web/lib/week-grid.ts:53-92 | the blocks of the day, sorted, with the columns and widths the lemmas speak of |
| RateLimit.GcForgetsLapsed | src/svc/internal/ratelimit/ratelimit.go:100-114 | from 512 keys on, garbage collection makes a key with a lapsed lock and no recent attempts look new, and changes nothing else that can be seen of a key |
| RateLimit.CallLooks | src/svc/internal/ratelimit/ratelimit.go:35-98 | what can be seen of a key after a call, and the answer to it, follow from what could be seen before |
| RateLimit.RunLooks | src/svc/internal/ratelimit/ratelimit.go:35-114 | after any run, checks and counts apart, a key looks as if it had been alone; and as if nothing had been collected, if no count on it found a lapsed lock |
| RateLimit.AnsweredTheSame | src/svc/internal/ratelimit/ratelimit.go:35-114 | if no count on its key finds a lapsed lock, a call is answered with garbage collection as without |
| RateLimit.PromptIsEnough | src/svc/internal/ratelimit/ratelimit.go:35-77 | no count finds a lapsed lock if each follows a check that said yes by less than a lockout |
| RateCollection.CheckForgetsOld | src/svc/internal/ratelimit/ratelimit.go:46-56 | after a check of a key that is not locked only its attempts in the window are kept, none if its lock has lapsed, and other keys are as they were |
| RateLimit.LockIsBounded | src/svc/internal/ratelimit/ratelimit.go:72-75 | a lock never reaches further ahead than one lockout |
| RateLimit.RetryAfterIsExact | src/svc/internal/ratelimit/ratelimit.go:35-89 | a refused hit tells exactly how long the key stays locked, at most one lockout |
| RateBounds.HitIsExact | src/svc/internal/ratelimit/ratelimit.go:35-89 | with such a lockout a hit succeeds exactly when the key is not locked and the window has fewer than max - 1 hits |
| RateBounds.HitsAreTheSame | src/svc/internal/ratelimit/ratelimit.go:59-89 | the hits that are let through, told by the answers, are the same with garbage collection as without if no count finds a lapsed lock |
| RateBounds.RunIsBounded | src/svc/internal/ratelimit/ratelimit.go:35-89 | with a lockout no shorter than the window, any window holds at most max - 1 hits, in every run in which counts find no lock |
| RateBounds.BoundIsExact | src/svc/internal/ratelimit/ratelimit.go:22-33 | for hits whose check and count belong together the bound holds in all runs exactly when lockout >= window or max = 1 |
| RateBounds.LateCountRuns | src/svc/internal/ratelimit/ratelimit.go:59-89 | for any max from 2 on: a count that comes when a lock has just lapsed is let through, and max - 1 hits after it |
| RateBounds.InterleavedBoundIsExact | src/svc/internal/ratelimit/ratelimit.go:79-89 | for hits whose check and count may be separated by other calls the bound holds in all runs exactly when max = 1 |
| RateCollection.ForgottenIsSeen | src/svc/internal/ratelimit/ratelimit.go:100-114 | for any max from 2 on: a run of 512 keys whose last hit is refused with garbage collection and let through without |
| RateCollection.CollectionIsInvisibleIff | src/svc/internal/ratelimit/ratelimit.go:35-114 | garbage collection changes no answer of any run exactly when max = 1 |
| RateLimit.PruneInPlace | src/svc/internal/ratelimit/ratelimit.go:116-124 | the loop keeps the times after the cutoff, in order |
| RateLimit.Limiter.constructor | src/svc/internal/ratelimit/ratelimit.go:22-33 | defaults of 8 attempts and 15 minutes for values that are not positive |
| RateLimit.Limiter.Allow | src/svc/internal/ratelimit/ratelimit.go:35-57 | collect, then check: denied while locked, cleared after |
| RateLimit.Limiter.Fail | src/svc/internal/ratelimit/ratelimit.go:59-77 | count an attempt, and lock at the limit |
| RateLimit.Limiter.Hit | src/svc/internal/ratelimit/ratelimit.go:79-89 | check and count |
| RateLimit.Limiter.Success | src/svc/internal/ratelimit/ratelimit.go:91-98 | the key is forgotten |
| RateLimit.Limiter.GcLocked | src/svc/internal/ratelimit/ratelimit.go:100-114 | from 512 keys on, idle unlocked keys go and others are pruned |
| RRule.ParseRRuleParts | src/svc/internal/icsutil/itip.go:47-66 | the loop parses the pieces that have a key |
| RRule.MergeRRule | src/svc/internal/icsutil/itip.go:92-176 | trim, compare, and merge part by part when the frequencies agree |
| RRule.PushExisting | src/svc/internal/icsutil/itip.go:128-151 | the loop over existing parts |
| RRule.PushIncoming | src/svc/internal/icsutil/itip.go:152-161 | the loop over incoming parts |
| RRule.PrintParts | src/svc/internal/icsutil/itip.go:165-175 | the loop that prints the parts |
| RRuleMerge.MergedIsClean | src/svc/internal/icsutil/itip.go:114-127 | merged parts have unique, non-empty keys, values, and no interval of 1 |
| RRuleMerge.OtherPartsAreKept | src/svc/internal/icsutil/itip.go:128-151 | a key the edit does not mention keeps its first value, except INTERVAL, UNTIL and COUNT |
| RRuleMerge.EditIsOverlaid | src/svc/internal/icsutil/itip.go:128-161 | a key the edit mentions has the edit's value |
| RRuleMerge.MergePartsTwice | src/svc/internal/icsutil/itip.go:92-176 | merging the same parts again changes nothing if equal keys have equal values |
| RRuleMerge.ContradictoryEdit | src/svc/internal/icsutil/itip.go:128-161 | with two values for a new key the first merge takes the first and the second merge the last |
| RRuleTwice.MergedInTwo | src/svc/internal/icsutil/itip.go:128-164 | the merged rule is what the rule's own parts yield, followed by the edit's first value for each key that these give no value |
| RRuleTwice.SecondMerge | src/svc/internal/icsutil/itip.go:92-176 | a second merge updates the parts in place, but moves those for whose key the edit's last value is empty to the end |
| RRuleTwice.MergePartsTwiceIff | src/svc/internal/icsutil/itip.go:92-176 | for any parts that parsing yields: a second merge changes nothing exactly when the edit's first and last values agree for every key that the rule does not have, unless the last is empty, and of the parts it adds those whose last value is empty come after the others |
| RRuleTwice.BlankedKeyMoves | src/svc/internal/icsutil/itip.go:128-161 | an edit that gives a key a value and takes it away again, for which the second merge changes the order of the first |
| RRuleText.ParsePrint | src/svc/internal/icsutil/itip.go:165-175 | a printed rule parses back to its parts |
| RRuleText.MergedTextParsesBack | src/svc/internal/icsutil/itip.go:92-176 | the merged text parses back to the merged parts |
| RRuleText.MergeTwice | src/svc/internal/icsutil/itip.go:92-176 | merging a text twice is merging it once, if parts of it with equal keys have equal values |
| RRuleText.MergeTwiceIff | src/svc/internal/icsutil/itip.go:92-176 | for any two texts: exactly when the rules are not merged by parts, or the parts meet the same two conditions |
| RRuleText.TwoValuesForOneKey | src/svc/internal/icsutil/itip.go:92-176 | a pair of texts for which the second merge changes the result of the first |
| RRuleEdits.EndIsEdited | src/svc/internal/icsutil/itip.go:76-89 | the merged rule ends when the edit says, unless the edit gives a date of eight characters with which the rule's end begins: then that stays |
| RRuleEdits.EndOfTextIsEdited | src/svc/internal/icsutil/itip.go:76-89 | the same for texts |
| RRuleEdits.EndIsRemoved | src/svc/internal/icsutil/itip.go:134-144 | an edit without an end, or without a count, removes it |
| RRuleEdits.IntervalIsEdited | src/svc/internal/icsutil/itip.go:120-164 | the merged interval is the edit's last one, and there is none if that is 1 or empty or missing |
| RRuleEdits.OtherFrequencyReplaces | src/svc/internal/icsutil/itip.go:107-113 | rules of different frequencies are not merged: the edit's replaces the other |
| Expand.BetweenIs | src/svc/internal/icsutil/expand.go:81 | the occurrences between two times, both included, ascending |
| Expand.DurationsAgree | src/svc/internal/icsutil/range.go:49-56 | exactly when filter and expansion take the same duration |
| Expand.CheckOverlap | src/svc/internal/icsutil/range.go:33-83 | the method computes the filter |
| Expand.ComputeInstances | src/svc/internal/icsutil/expand.go:44-125 | the method computes the expansion, each instance with its properties |
| Expand.InstanceIsTheEvent | src/svc/internal/icsutil/expand.go:96-125 | an instance does not recur, has the times of its occurrence, a RECURRENCE-ID and a DTSTAMP, and is otherwise the event |
| Expand.ExpansionIs | src/svc/internal/icsutil/expand.go:81-94 | the instances are those of the overlapping occurrences looked at, each once and in order |
| Expand.WindowIsComplete | src/svc/internal/icsutil/expand.go:67-81 | an overlapping occurrence is in the search window exactly if it is not after its end |
| Expand.CapIsHarmless | src/svc/internal/icsutil/range.go:71-75 | a cap never hides that some occurrence of the window overlaps |
| Expand.FilterFinds | src/svc/internal/icsutil/range.go:33-83 | the filter says yes exactly when an occurrence up to its window's end overlaps |
| Expand.ExpansionFinds | src/svc/internal/icsutil/expand.go:44-94 | the expansion is not empty exactly when an occurrence up to its window's end overlaps |
| Expand.FilterAndExpansionAgree | src/svc/internal/icsutil/expand.go:44-94 | for ranges with an end and equal durations, filter and expansion agree, despite caps of 500 and 400 |
| Expand.FilterIsRight | src/svc/internal/icsutil/range.go:33-83 | within three years the filter says whether any occurrence at all overlaps |
| Expand.OpenEndDiffers | src/svc/internal/icsutil/expand.go:74-77 | without an end the filter can say yes and the expansion be empty |
| Expand.OpenEndAgreesIff | src/svc/internal/icsutil/expand.go:67-81 | without an end and with equal durations they agree exactly when an occurrence overlaps within a year or none within two |
| Expand.EmptyDateDiffers | src/svc/internal/icsutil/expand.go:56-66 | a date whose DTEND is not after it: the filter says no and the expansion has an instance |
| Expand.AgreeForEveryRuleIff | src/svc/internal/icsutil/range.go:33-83 | in a range with an end they agree for every recurrence exactly when the durations are equal or no time from DTSTART on overlaps the range for a day but not for an hour: for a range that starts before it ends, when it has no start or DTSTART comes later than an hour before it |
| Expand.ExpandCalendar | src/svc/internal/icsutil/expand.go:12-42 | the calendar with its name and properties, and its events replaced by their instances |
| Expand.NothingIsLeftUnexpanded | src/svc/internal/icsutil/expand.go:32-38 | in a range with an end no recurring event stays unexpanded |
| ExpandMeaning.OverlapIsShared | src/svc/internal/icsutil/range.go:107-115 | a time overlaps a range exactly if they share an instant |
| ExpandMeaning.OthersStay | src/svc/internal/icsutil/expand.go:27-31 | components other than events stay in the expanded calendar |
| ExpandMeaning.SingleEventStays | src/svc/internal/icsutil/expand.go:32-38 | an event that does not recur stays exactly if it shares an instant with the range, to its end or for a day or an hour |
| ExpandMeaning.UndatedEventStays | src/svc/internal/icsutil/range.go:85-89 | an event without a usable DTSTART stays |
| ExpandMeaning.InstancesAreShown | src/svc/internal/icsutil/expand.go:32-39 | the instances in the expanded calendar are those of its recurring events |
| ExpandMeaning.ExpandedEventGoes | src/svc/internal/icsutil/expand.go:32-39 | an event that has instances gives way to them |
| ExpandMeaning.ExpansionIsComplete | src/svc/internal/icsutil/expand.go:44-94 | within three years and up to 400 occurrences the instances are exactly the occurrences that share an instant with the range |
| ExpandMeaning.ThreeYearsAreSeen | src/svc/internal/icsutil/range.go:57-70 | filter and expansion see an overlapping occurrence exactly if it comes within three years of the start of their window |
| ExpandMeaning.CapIs400 | src/svc/internal/icsutil/expand.go:82-94 | at most 400 instances, and 399 at least of an event with more occurrences in the window |
| Attach.HostIsFoundAgain | src/svc/internal/icsutil/attach.go:110-124 | the component is found again after its entries are taken off exactly when no other has ATTACH and it is the first |
| Attach.SplitAttachments | src/svc/internal/icsutil/attach.go:34-68 | the loop sorts entries into inline, managed and external, each in order |
| AttachMeaning.InlineIff | src/svc/internal/icsutil/attach.go:126-158 | an entry is an inline file exactly if it decodes and is marked as one or is neither blank nor an address; with which name, type and data |
| AttachMeaning.IdIsTaken | src/svc/internal/icsutil/attach.go:160-165 | a MANAGED-ID of 8 to 64 letters, digits and hyphens is the id, else the one in the address |
| AttachMeaning.PublicIdIs | src/svc/internal/storage/attachments.go:332-338 | the server's own ids are 36 characters: hexadecimal digits in groups of 8, 4, 4, 4 and 12 with hyphens between |
| AttachMeaning.LinkedUnder | src/svc/internal/icsutil/attach.go:86-108 | a stored file is linked under the public URL, whatever slashes that ends with |
| AttachMeaning.HostIs | src/svc/internal/icsutil/attach.go:110-124 | the entries are those of the first component that has any, or of the first at all, time zones aside |
| Attach.WriteAttachments | src/svc/internal/icsutil/attach.go:70-100 | external entries in order, then one entry for each stored file |
| Attach.WrittenIsManaged | src/svc/internal/icsutil/attach.go:126-165 | what the server writes is not taken for an inline file and keeps its id |
| Attach.GroupedIds | src/svc/internal/icsutil/attach.go:34-68 | the ids of a split are those the entries refer to, and an entry with an id is external exactly when two entries refer to one stored file |
| Attach.ManagedAreTheStored | src/svc/internal/icsutil/attach.go:34-100 | of external entries and stored files, those with an id are exactly the files just when no two of the entries referred to one stored file |
| Attach.ReadBack | src/svc/internal/icsutil/attach.go:34-100 | written entries are split into the same external entries and the ids of the files |
| Attachments.CheckInlineAttachmentLimits | src/svc/internal/storage/attachments.go:400-418 | the loop finds the first error |
| Attachments.InsertKeepsInv | src/svc/internal/storage/attachments.go:107-156 | an insert that succeeds keeps every object within the limits and ids unique, whatever id the generator yields |
| Attachments.InsertsSucceed | src/svc/internal/storage/attachments.go:107-156 | inserting one by one succeeds exactly when counts and sizes fit and no new id is taken, which is then the error; and the usage afterwards |
| AttachmentLaws.InsertSucceedsIff | src/svc/internal/storage/attachments.go:107-156 | a file goes in exactly if it is not empty, at most 8 MiB, one of at most 20 and within 32 MiB with the others, and an id is free; it gets the id asked for if that can be used |
| AttachmentLaws.SizesFitIff | src/svc/internal/storage/attachments.go:400-418 | the check of sizes, in numbers |
| AttachmentLaws.TotalIsSum | src/svc/internal/storage/attachments.go:107-156 | sizes add up |
| Attachments.BulkCheckIsExact | src/svc/internal/storage/attachments.go:229-240 | the bulk check accepts exactly the lists that the inserts accept, but for a new id that is taken |
| Attachments.SomeIdIsFree | src/svc/internal/storage/migrations/0007_attachments.sql:6 | a table of fewer than 10^12 rows leaves an id free |
| Attachments.FreshIdsDoNotClash | src/svc/internal/storage/attachments.go:128-131 | a generator that yields free ids while there are any never clashes in such tables |
| Attachments.RunKeepsLimits | src/svc/internal/storage/attachments.go:107-242 | over any run, with any generator of ids, each object stays within 20 files, 8 MiB each and 32 MiB in all, and ids are unique |
| AttachmentLaws.FilesRunStepwise | src/svc/internal/storage/attachments.go:99-242 | the calls of such a run take effect one after the other, and one that fails changes nothing |
| Attachments.FilesAfterPut | src/svc/internal/storage/attachments.go:212-242 | the old files referred to, in order, then one for each inline file; other objects keep theirs |
| Attachments.StoredObject | src/svc/internal/storage/attachments.go:172-202 | the stored object has the external entries in order and then the files; those with an id are the rows just when no two entries put referred to one stored file |
| Attachments.PutAgain | src/svc/internal/storage/attachments.go:172-202 | putting the stored object again never changes the files, nor the object if no two entries put first referred to one stored file |
| AttachedStore.UpsertedKeeps | src/svc/internal/storage/attachments.go:186-200 | an upsert keeps objects and files consistent; an object that gives way loses its files, others keep theirs |
| AttachedStore.DeletedKeeps | src/svc/internal/storage/dav.go:356-372 | deleting an object takes its files with it and keeps the rest consistent |
| AttachedStore.PutWholeStores | src/svc/internal/storage/attachments.go:172-202 | after a PUT with files the object is stored under its UID with the text and the files the split calls for, no file is without its object, and all other objects but one that gave way are untouched |
| AttachmentLaws.HrefIff | src/svc/internal/davpath/paths.go:67-80 | which hrefs a PUT accepts |
| AttachmentLaws.PutIsStoredIff | src/svc/internal/storage/attachments.go:172-202 | a PUT is stored exactly if its href names an object, kept and new files are within the limits, and no new id is taken |
| AttachedStore.RunCallsKeepInv | src/svc/internal/storage/attachments.go:99-202 | over any run of PUTs, uploads and deletions: one object per UID, a log that agrees, limits kept, ids unique, and no file without its object |
| AttachmentLaws.RunIsStepwise | src/svc/internal/storage/attachments.go:99-202 | the calls of a run take effect one after the other |
| AttachmentTables.Files.InsertAttachment | src/svc/internal/storage/attachments.go:107-156 | the checks in order, the id asked for if valid and free, else a new one; one row more, or an error if the new id is taken |
| AttachmentTables.Files.DeleteAttachment | src/svc/internal/storage/attachments.go:158-170 | the row of that object with that id goes; not found exactly if there was none |
| AttachmentTables.Files.DeleteUnreferenced | src/svc/internal/storage/attachments.go:213-228 | the loop deletes the files the object no longer refers to |
| AttachmentTables.Files.ApplyIcsAttachments | src/svc/internal/storage/attachments.go:212-242 | delete, check in bulk, insert |
| AttachmentTables.Files.UpsertObject | src/svc/internal/storage/dav.go:332-354 | the upsert, with the files of an object that gives way |
| AttachmentTables.Files.PutIcsWithAttachments | src/svc/internal/storage/attachments.go:172-202 | the href is checked; then one transaction over objects and files: all of it, or an error and both tables as before |
| Reconcile.PassConverges | src/svc/internal/worker/worker.go:132-162 | after one pass the managed objects are exactly the wanted ones |
| Reconcile.IdleIffSettled | src/svc/internal/worker/worker.go:132-186 | a pass logs nothing exactly when hrefs and etags are as wanted, and then changes nothing |
| Reconcile.SecondPassIsIdle | src/svc/internal/worker/worker.go:132-186 | the second pass changes nothing exactly when days with one href are one event |
| Reconcile.DaysOfAreDays | src/svc/internal/worker/worker.go:164-186 | days of any contacts have managed hrefs, and equal UIDs only with equal hrefs, if among them etags tell texts and texts tell UIDs apart |
| Reconcile.AgreeIffConsistent | src/svc/internal/worker/worker.go:142-186 | the days of any contacts agree exactly when contacts whose cleaned UIDs are the same have the same UID and the same events |
| Reconcile.WorkerIsIdle | src/svc/internal/worker/worker.go:132-186 | the second pass over the same contacts, in any order, changes nothing exactly when they are consistent in this way |
| Reconcile.DistinctAreConsistent | src/svc/internal/worker/worker.go:173-174 | contacts whose UIDs stay different when cleaned are consistent |
| Reconcile.CollidingContacts | src/svc/internal/worker/worker.go:173-174 | two contacts whose different UIDs are cleaned to one, both with a birthday or both with an anniversary, are not, and their days do not agree |
| ReconcileDays.MonthAndDay | src/svc/internal/worker/worker.go:211-222 | a date gives its month and day, with year or without, with hyphens or without |
| ReconcileDays.NoMonthAndDay | src/svc/internal/worker/worker.go:211-222 | texts of other lengths give none |
| ReconcileDays.CleanedIs | src/svc/internal/worker/worker.go:224-232 | in hrefs letters, digits and hyphens stay and anything else becomes a hyphen |
| ReconcileDays.DaysOfContact | src/svc/internal/worker/worker.go:142-186 | a contact gives its birthday and anniversary where they are wanted: their hrefs, UIDs, titles and dates |
| ReconcileDays.DaysOfContacts | src/svc/internal/worker/worker.go:142-151 | the days of contacts are the days of each |
| Reconcile.RefreshConverges | src/svc/internal/schedule/people.go:43-93 | after one refresh the book holds the texts of exactly the wanted cards, and exactly the wanted objects where UID and etag come with the text |
| Reconcile.SecondRefreshIsIdle | src/svc/internal/schedule/people.go:43-93 | the second refresh logs nothing and leaves the ctag |
| ReconcileDays.BookHoldsCards | src/svc/internal/schedule/people.go:43-93 | after a refresh the book has an href exactly if a card does, with the text of the last card for it |
| ReconcileTables.UpsertOne | src/svc/internal/worker/worker.go:164-186 | one date of one contact: skipped if unusable or up to date, else written |
| ReconcileTables.ApplyImportantDates | src/svc/internal/worker/worker.go:132-162 | the loops make one pass over the tables |
| ReconcileTables.DeleteUnwanted | src/svc/internal/worker/worker.go:153-160 | the last loop deletes what is no longer wanted |
| ReconcileTables.RefreshPeopleBook | src/svc/internal/schedule/people.go:43-93 | the loops make one refresh of the tables |
| VCard.SplitCardBlocks | src/svc/internal/icsutil/vcard_io.go:30-54 | the search always moves on, ends, and yields the blocks from BEGIN to the next END |
| VCard.JoinCards | src/svc/internal/icsutil/vcard_io.go:116-130 | the loop joins trimmed cards with CRLF line ends |
| VCard.JoinInOrder | src/svc/internal/icsutil/vcard_io.go:116-130 | texts add to the stream one after the other, and blank ones nothing |
| VCard.NormalizeLines | src/svc/internal/icsutil/vcard_io.go:24-28 | making line ends CRLF and normalizing them again gives the text back |
| VCard.SplitGivesCards | src/svc/internal/icsutil/vcard_io.go:36-52 | every block runs from a BEGIN to the first END after it |
| VCard.SplitUndoesJoin | src/svc/internal/icsutil/vcard_io.go:30-130 | joining any list of cards and splitting the stream gives the cards back |
| VCard.SplitJoinSplit | src/svc/internal/icsutil/vcard_io.go:30-130 | splitting, joining and splitting again gives the same blocks |

## Left out

- Case folding is over ASCII letters.  `strings.ToUpper` and `strings.ToLower` fold all of Unicode;
  the vCard splitter cuts the original text at places found in the upper-cased one, which for some
  other letters has a different length.
- Encoding and parsing of iCalendar, vCard and XML, URI parsing, base64 and hashes are parameters or
  taken to be each other's inverse; evaluating recurrence rules is a parameter.
- SQL: a statement is one step on tables that are maps or sequences; which of several rows
  `LIMIT 1` returns, and the order of rows and of map iteration where the code leaves them open, are
  arbitrary.
- HTTP handlers, XML rendering, the React pages, the command line, sessions, passwords, mail, OAuth,
  TOTP, backups and file locks.
- Creation and deletion of whole calendars and users, renamed users, and reuse of ids.
- Restoring a backup into inboxes and outboxes, which goes past the scheduling steps.
- Free-busy answers to the outbox, and the mail that goes to attendees of other servers.
- Numbers are unbounded; change ids are required to fit 64 bits where a token is parsed.
- QrSymbol.QrMatrix: takes the UTF-8 bytes of the text; the text encoder is not modelled.
- QrPenalty.ComputePenalty: scores as the code does, which omits the finder-like pattern of section 7.8.3 of ISO/IEC 18004.
- Sync.HandleSync: after the collection is found; refreshing the People book before the listing is `Reconcile`'s subject.
- ScheduleRuns.RunKeeps: usernames do not change during a run, and clients do not write to inboxes.
- ScheduleDelivery.InvitedAgain: the users and calendar lists are the same for the two PUTs.
- RateBounds.RunIsBounded: for runs in which counts find no lock; `InterleavedBoundIsExact` shows why.
- Attachments.PutAgain: one direction for the object; an entry repeated in just the form the server writes may stay where it is.
- Expand.ComputeInstances: all instances of one call take the same reading of the clock for a missing DTSTAMP.
- AttachedStore.PutWholeStores: the component type, times and summary columns of an object row.
- Reconcile.PassConverges: as in `DaysOfAreDays` and `WorkerIsIdle`, an object with the etag of a wanted one is that object, which holds as long as the truncated hashes do not collide.
- WeekGrid.LayoutDayTimed: dates are day numbers and times are minutes already read from the text.
