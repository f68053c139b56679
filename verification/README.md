# MixedWebServer: a verified model

A Dafny 4.11 model of the parts of the web server that carry real invariants,
and proofs about them. `dafny verify dfyconfig.toml` checks everything.

What is modelled, module by module:

- **sds strings** (`Bytes`, `SdsHeader`, `SdsLayout`, `SdsString`, `SdsRun`,
  `Decimal`, `CatFmt`, `SplitJoin`, `Quote`, `QuoteGrammar`). An `Sds` object is a handle on one
  malloc'd byte array: packed header, text, NUL, spare room. The header is read
  and written as bytes (little-endian fields). Each operation is proved against
  two readings of the object: its text as a plain byte string, and its
  bookkeeping (header type, `len`, `alloc`) under the growth policy. On top of
  that stand theorems about runs of calls, amortised copying, number printing,
  the format interpreter, splitting and joining, and quoting and tokenizing, the
  last against a grammar of the lines that sdssplitargs reads.
- **BlockQueue, ThreadPool, SqlPool**. Each is a step system over any number of
  threads: a `State`, an `Event` per atomic step, a relation `Next`, and runs as
  sequences of steps in any interleaving. Condition variables may wake threads
  spuriously, and notifications after the unlock are steps of their own. The
  class in each module has the source's fields, and its methods are the parts
  of the source's functions that run without interruption; each is proved to be
  exactly one step.
- **HttpRequest** and **FormDecoder**. The line-driven request parser as a class
  with the source's fields, its two regular expressions as declarative
  predicates, and the form decoder that rewrites the body while scanning it.

The functions that methods are proved against have laws of their own, stated in
literal bytes and numbers wherever the text itself matters: a header byte by byte, a
format letter by letter, a page by its path.

C strings are byte sequences that contain a NUL, and every read of one is shown
to lie at or before the first NUL. `requires` clauses are what the source needs
of its callers: a size that malloc can be asked for without wrapping
(`CanAlloc`), a terminator in C strings, arguments that match the format, a
message whose scan does not leave the buffer (`InBounds`; with a blank line
it is exactly that a form's escapes are complete, see `BlankLineInBoundsIff`).

Where the code and its own comments or evident intent differ, the model follows
the code:

- `sdstrim` also trims NUL bytes, because `strchr` matches the terminator
  (webserver/src/sds.c:731-732; `SdsString.TrimDropsNul`). It trims just the bytes
  of `cset` exactly when they leave a core with no NUL at either end
  (`SdsString.TrimAsDocumentedIff`).
- `sdsRemoveFreeSpace` speaks of the minimum header but keeps the old one when
  more than type 8 is needed (webserver/src/sds.c:267-279;
  `SdsLayout.RemoveFreeKeepsType32`); `SdsLayout.RemoveFreeIsLeastIff` says exactly
  when the header it leaves is the minimum.
- The assertion in `sdsIncrLen` is not the condition that the new length fits
  (`SdsLayout.IncrAssertedWithoutRoom`); `SdsLayout.IncrAssertedIffInRoom` says
  exactly when it is.
- In `sdsrange` an end before the first byte counts as the first byte
  (`SdsString.RangeTextIs`).
- An unquoted word of `sdssplitargs` is ended by a blank, tab, LF or CR, while every
  `isspace` byte is skipped before one (`QuoteGrammar.ArgsIff`).
- A percent escape in a form stays three bytes long. Its number is the one the digits
  stand for exactly when the second digit is a letter
  (webserver/src/HttpRequest.cpp:177-184,209-214; `FormDecoder.EscapeIs`).
- A body is read up to its first CRLF, whatever length was announced
  (`HttpRequest.RequestRoundTrip`).
- A form whose last value is empty loses that field, although the comment says
  it is handled (webserver/src/HttpRequest.cpp:224-229;
  `FormDecoder.EmptyLastValueIsLost`); `FormDecoder.RoundTripIff` says exactly when
  a form survives.
- The registration page is spelt `/reigster.html` in the tag table
  (webserver/src/HttpRequest.cpp:6-8), so posts to `/register` never reach the
  user check (`HttpRequest.UserCheckIff`).
- `BlockQueue::clear` can lose a producer's wake-up (`BlockQueue.ClearLosesWakeup`),
  and a consumer that a closed queue refuses can take another one's with it
  (`BlockQueue.RefusalLosesWakeup`). `BlockQueue.NoLostWakeupIff` says exactly which
  runs lose none, and `BlockQueue.ClearOfNonFullIsSafe` which clears are safe.
- A task submitted after the last worker has left is never run
  (`ThreadPool.LateTaskIsStranded`); `ThreadPool.DrainedIff` says exactly when a
  pool drains, and `ThreadPool.DrainsIfAddedWhileRunning` how a caller can see to it.
- A caller of `GetConn` that has seen a non-empty queue may still wait
  (`SqlPool.TestedCallerMayWait`); `SqlPool.NobodyStuckIff` says exactly in which
  runs none does.

## Model

| member | source | states |
|---|---|---|
| SdsHeader.FieldTruncates | webserver/src/include/sds.h:51-70 | a field of w bytes gives back its value modulo 256^w |
| SdsHeader.HeaderBytes | webserver/src/include/sds.h:47-74 | every header byte by byte: size, type bits, and len and alloc as little-endian sums of their bytes in the packed order |
| SdsHeader.MaxLenIsMax | webserver/src/include/sds.h:51-70 | the range of each type is the largest length that any of its headers holds |
| SdsHeader.NewTypeIs | webserver/src/sds.c:92-95 | a new string gets the least type for its length, an empty one type 8 |
| SdsHeader.FreshDecodes | webserver/src/sds.c:92-140 | for every length the header written by sdsnewlen decodes to that length, that allocation and no spare room |
| SdsHeader.SetLenDecodes | webserver/src/include/sds.h:128-150 | sdssetlen changes the length alone, except on type 5, which has no other field |
| SdsHeader.SetAllocDecodes | webserver/src/include/sds.h:197-216 | sdssetalloc changes the allocation alone; type 5 forgets it |
| SdsHeader.IncLenDecodes | webserver/src/include/sds.h:152-176 | sdsinclen is sdssetlen of the sum while the sum fits the type |
| SdsHeader.AllocIsAvailPlusLen | webserver/src/include/sds.h:178-195 | sdsalloc = sdsavail + sdslen for every header, and both fields stay within the type's range |
| SdsLayout.MakeRoomKeeps | webserver/src/sds.c:204-248 | after making room the bookkeeping is well formed, the length is kept, the room is there, and a grown string is never type 5 |
| SdsLayout.MakeRoomIs | webserver/src/sds.c:211-227 | nothing moves while there is room, else the allocation is the lesser of twice the needed length and that length plus 1024*1024, under the least type from 8 on that holds it |
| SdsLayout.RemoveFreeKeeps | webserver/src/sds.c:256-291 | after removing free space none is left, the length is kept, and the header is the old one or the least one, never larger |
| SdsLayout.RemoveFreeIsLeastIff | webserver/src/sds.c:267-290 | the header left is the least that can express the text if and only if it was so before, or there was room to give back and type 8 is enough |
| SdsLayout.RemoveFreeKeepsType32 | webserver/src/sds.c:273-279 | 300 bytes of text keep their 32-bit header |
| SdsLayout.IncrAssertedIffInRoom | webserver/src/sds.c:334-371 | the asserted condition agrees with "the new length fits" except in three families of type and increment, stated as an equivalence |
| SdsLayout.IncrAssertedWithoutRoom | webserver/src/sds.c:338-345 | a type 5 string of three bytes passes the assertion for five more without any room |
| SdsLayout.AppendsArePaid | webserver/src/sds.c:216-220 | accounting over a run of appends: copies plus the final potential are paid by the initial potential and two per byte |
| SdsLayout.AppendsAreAmortised | webserver/src/sds.c:216-220 | below the doubling limit a run copies at most the initial length plus twice the bytes appended |
| SdsLayout.ReallocsAreFarApart | webserver/src/sds.c:216-220 | above the limit n reallocations need more than (n-1) times SDS_MAX_PREALLOC appended bytes |
| SdsLayout.NoReallocWithinPrealloc | webserver/src/sds.c:219-220 | right after such a reallocation, appends of SDS_MAX_PREALLOC bytes in all do not reallocate |
| SdsLayout.ReallocsCount | webserver/src/sds.c:212-220 | an append counts as a reallocation exactly when the allocation changes |
| SdsString.Sds.NewLen | webserver/src/sds.c:89-145 | a fresh well-formed string of the right layout holding the given text, zeros, or anything, by kind of init |
| SdsString.Sds.SetLen | webserver/src/include/sds.h:128-150 | the header bytes written in place decode to the new length, and nothing behind the header changes |
| SdsString.Sds.SetAlloc | webserver/src/include/sds.h:197-216 | the same for the allocation |
| SdsString.Sds.IncLen | webserver/src/include/sds.h:152-176 | the same for adding to the length |
| SdsString.Sds.Relocate | webserver/src/sds.c:231-246 | realloc under the same header or copy under a new one: same text, new type and capacity |
| SdsString.Sds.MakeRoomFor | webserver/src/sds.c:204-248 | text and the byte behind it kept, bookkeeping as the policy says, room there, and the text counted as copied exactly when the block changes |
| SdsString.Sds.RemoveFreeSpace | webserver/src/sds.c:256-291 | text kept across the move, no room left |
| SdsString.Sds.Clear | webserver/src/sds.c:193-196 | empty text, room kept unless type 5 |
| SdsString.Sds.CatLen | webserver/src/sds.c:398-407 | text followed by the argument, for arbitrary bytes |
| SdsString.Sds.CpyLen | webserver/src/sds.c:427-436 | text replaced by the argument |
| SdsString.Sds.GrowZero | webserver/src/sds.c:380-391 | text padded with zero bytes to the length, or kept when long enough |
| SdsString.GrowTextIs | webserver/src/sds.c:380-391 | the text is a prefix and every byte behind it is zero |
| SdsString.Sds.IncrLen | webserver/src/sds.c:334-373 | the text takes in, or gives back, exactly the bytes behind or before its end |
| SdsString.Sds.UpdateLen | webserver/src/sds.c:184-187 | text cut at its first NUL |
| SdsString.Sds.Trim | webserver/src/sds.c:725-738 | the two inward loops leave the trimmed text |
| SdsString.Sds.TrimBounds | webserver/src/sds.c:729-733 | the inward loops find the trimmed text in the buffer, reading only bytes of the text |
| SdsString.TrimByIs | webserver/src/sds.c:731-736 | trimmed text is the only core between trimmable ends that has no trimmable end itself, for any set of bytes to drop |
| SdsString.TrimByDecomposes | webserver/src/sds.c:711-724 | trimming always yields such a core |
| SdsString.TrimTextIs | webserver/src/sds.c:711-738 | with cset spelt out as characters, terminator and anything: just those characters and NUL are trimmed |
| SdsString.TrimAsDocumentedIff | webserver/src/sds.c:711-738 | the text left is what trimming the bytes of cset alone leaves if and only if that is empty or has no NUL at either end |
| SdsString.TrimDropsNul | webserver/src/sds.c:731-732 | a leading NUL is trimmed by an empty cset |
| SdsString.Sds.Range | webserver/src/sds.c:756-780 | the text between two inclusive, possibly negative indices, for every pair of ssize_t values on which the count does not overflow |
| SdsString.RangeBounds | webserver/src/sds.c:756-776 | the clamping of the two indices yields the start and count of the range |
| SdsString.RangeIs | webserver/src/sds.c:756-780 | that start and count cut out the text the documentation speaks of |
| SdsString.RangeTextIs | webserver/src/sds.c:740-780 | byte by byte, which positions are kept for every pair of indices |
| SdsString.RangesMeet | webserver/src/sds.c:740-755 | ranges that meet at an index counted from either end put the text together again |
| SdsRun.Do | webserver/src/sds.c:184-407 | one call does to the text what it does to a plain byte string, and to the header what the layout functions say |
| SdsRun.TextFits | webserver/src/sds.c:204-291 | no call leaves a header that cannot express the text, across every change of type; reserved room is there and released room gone |
| SdsRun.Run | webserver/src/sds.c:184-780 | any run of appends, copies, growths, clears, trims, ranges, reservations and releases leaves what it leaves on a plain byte string, in a well-formed string |
| SdsRun.RunsCompose | webserver/src/sds.c:184-780 | two runs one after the other are one run |
| SdsRun.Laws | webserver/src/sds.c:184-780 | how calls combine and cancel: appends add up, growing and cutting back is nothing, trimming twice is trimming once |
| SdsRun.AppendEach | webserver/src/sds.c:398-407 | a run of sdscatlen calls appends all texts and copies exactly what the policy says |
| SdsRun.AppendRun | webserver/src/sds.c:198-248 | that run copies at most the initial length plus twice the bytes appended |
| Decimal.DecIsExact | webserver/src/sds.c:493-520 | printed digits are canonical and parse back to the number |
| Decimal.CanonicalIsUnique | webserver/src/sds.c:493-520 | no other canonical text parses to it |
| Decimal.IntTextIsExact | webserver/src/sds.c:444-491 | the same for signed numbers, with the minus sign |
| Decimal.CanonicalIntIsUnique | webserver/src/sds.c:444-491 | no other canonical signed text parses to it |
| Decimal.TextFits | webserver/src/sds.c:450 | every 64-bit value fits with its NUL in SDS_LLSTR_SIZE bytes |
| Decimal.SizeIsTight | webserver/src/sds.c:450 | LLONG_MIN needs all of them |
| Decimal.PutDigits | webserver/src/sds.c:470-474 | the digit loop leaves the reversed text and touches nothing behind it |
| Decimal.ReverseInPlace | webserver/src/sds.c:481-489 | the swapping loop reverses in place |
| Decimal.LlToStr | webserver/src/sds.c:451-491 | the decimal text of every long long, LLONG_MIN included, with its NUL |
| Decimal.UllToStr | webserver/src/sds.c:494-520 | the decimal text of every unsigned long long, with its NUL |
| CatFmt.EscapedRendersBack | webserver/src/sds.c:614 | any text, percent signs doubled, is rendered back in front of any format |
| CatFmt.DirectiveRenders | webserver/src/sds.c:645-690 | letter by letter: which argument each of the six directives takes, and that it prints the C string up to its NUL, the sds text, or the canonical decimal text of the number |
| CatFmt.OtherItemsRender | webserver/src/sds.c:691-701 | any other byte behind a percent sign stands for itself, as does any byte without one, and a lone percent sign at the end prints nothing |
| CatFmt.ShowsOneText | webserver/src/sds.c:646-690 | no other text shows the same argument |
| CatFmt.PutArg | webserver/src/sds.c:645-690 | one directive appends the text that shows its argument, reallocating when needed |
| CatFmt.PutItem | webserver/src/sds.c:635-702 | one turn of the loop appends the first item's text and moves past it, reading nothing behind the terminator |
| CatFmt.PutItems | webserver/src/sds.c:629-703 | the loop appends the rendering, with write position equal to the length throughout |
| CatFmt.CatFmt | webserver/src/sds.c:616-709 | the old text followed by the rendering of format and arguments, terminated |
| SplitJoin.SplitThenJoin | webserver/src/sds.c:848-868 | joining what the scan splits off gives the text back |
| SplitJoin.TokensJoin | webserver/src/sds.c:835-872 | joining the tokens that a caller gets for any text gives the text back |
| SplitJoin.SplitIsClean | webserver/src/sds.c:848-866 | no separator occurrence starts inside a token's span of the text |
| SplitJoin.TokensAreFree | webserver/src/sds.c:848-868 | no token contains the separator, for all cuts of it into bytes, and a text without the separator is one token |
| SplitJoin.OccursIff | webserver/src/sds.c:858-859 | a separator occurs exactly where the text is something, the separator, and something |
| SplitJoin.JoinThenSplit | webserver/src/sds.c:1120-1129 | splitting joined tokens gives them back if and only if there are none, or the joined text is not empty and the separator first occurs where it was put |
| SplitJoin.FreeTokensComeBack | webserver/src/sds.c:1120-1129 | around a separator of one byte, every non-empty list of tokens without that byte comes back |
| SplitJoin.JoinExtends | webserver/src/sds.c:1120-1129 | joining one token more puts separator and token behind, for any separator |
| SplitJoin.SplitLen | webserver/src/sds.c:835-872 | NULL exactly for an empty text or separator, else an array of strings holding the tokens, every write within the slots |
| SplitJoin.MoreSlots | webserver/src/sds.c:850-857 | doubling keeps the tokens |
| SplitJoin.JoinSds | webserver/src/sds.c:1120-1129 | a fresh string holding the tokens with separators between |
| Quote.ScanReadsRepr | webserver/src/sds.c:989-1022 | the quoted reader inverts the printer on every byte string |
| Quote.QuotingRoundTrip | webserver/src/sds.c:954-972 | any list of byte strings printed with blanks of any kind between them is read back as that list |
| Quote.JoinedReprsSplitBack | webserver/src/sds.c:965-966 | the same when joined by single spaces |
| Quote.CLineRoundTrip | webserver/src/sds.c:965-966 | the same for the printed line as a C string: no NUL of the data cuts it short |
| Quote.ReprIsPrintable | webserver/src/sds.c:892-897 | printed text consists of printable bytes only |
| QuoteGrammar.ReprIsShortest | webserver/src/sds.c:892-921 | every byte is printed in the shortest printable spelling that double quotes allow, hexadecimal digits in lower case |
| Quote.FailsIffQuotesAreOff | webserver/src/sds.c:968-971 | the tokenizer fails exactly when a byte-by-byte reader ends inside quotes or meets text right behind a closing quote |
| QuoteGrammar.ArgsIff | webserver/src/sds.c:954-1066 | a line is read as these texts if and only if it is white space and arguments that mean them: words, or bodies in either quotes made of bytes, escapes and hexadecimal escapes |
| QuoteGrammar.LineReads | webserver/src/sds.c:979-1066 | every line written by that grammar is read as what it means |
| QuoteGrammar.LineIsRead | webserver/src/sds.c:979-1066 | every line that is read was written by that grammar |
| QuoteGrammar.BodyReads | webserver/src/sds.c:990-1039 | a quoted body reads as the bytes its parts stand for |
| QuoteGrammar.BodyIsParts | webserver/src/sds.c:990-1039 | whatever is read in quotes is made of such parts |
| QuoteGrammar.WordsReadBack | webserver/src/sds.c:1040-1059 | words without quotes and white space are read as they stand |
| QuoteGrammar.SingleQuotesIff | webserver/src/sds.c:1025-1039 | any text put in single quotes, with only its single quotes escaped, is read back if and only if it does not end in a backslash |
| Quote.CatRepr | webserver/src/sds.c:898-921 | the old text followed by the printed form |
| Quote.TurnInDq | webserver/src/sds.c:990-1024 | one turn in double quotes: hex and letter escapes, closing, errors, never beyond the terminator |
| Quote.TurnInSq | webserver/src/sds.c:1025-1039 | one turn in single quotes |
| Quote.TurnUnquoted | webserver/src/sds.c:1040-1059 | one turn outside quotes |
| Quote.ReadToken | webserver/src/sds.c:982-1066 | the token loop succeeds exactly when the scan does, with its text and its rest of the line |
| Quote.SkipSpaces | webserver/src/sds.c:981 | skipping blanks changes nothing for the tokenizer |
| Quote.SplitArgs | webserver/src/sds.c:973-1081 | on every C string: NULL exactly when the tokenizer fails, else strings holding its tokens |
| Quote.PrintArgs | webserver/src/sds.c:898-921 | a loop of sdscatrepr, with a blank behind each, leaves the quoted line |
| Quote.PrintThenSplit | webserver/src/sds.c:898-1081 | any arguments printed by sdscatrepr and split by sdssplitargs come back as strings holding them, whatever bytes they are made of |
| BlockQueue.NoLostWakeup | webserver/src/include/BlockQueue.h:66-105 | in every state of every run of a queue that is not closed, and cleared only safely, parked consumers are covered by woken ones for every item, parked producers for every free slot, and both sides never sleep at once |
| BlockQueue.NoLostWakeupIff | webserver/src/include/BlockQueue.h:66-163 | in a run of any steps at all, that cover holds throughout if and only if each clear and close finds no parked producer or enough woken ones, and each refusal no parked consumer or one woken to spare |
| BlockQueue.NoneLostKeptIff | webserver/src/include/BlockQueue.h:66-163 | every single step keeps the cover, those three with their condition exactly |
| BlockQueue.ClearOfNonFullIsSafe | webserver/src/include/BlockQueue.h:159-163 | a clear is safe when the queue is not full and no woken producer is on its way |
| BlockQueue.ProducersCoveredAfterClose | webserver/src/include/BlockQueue.h:144-152 | after close has notified the producers they are covered again, until the next unsafe clear or close |
| BlockQueue.ClearLosesWakeup | webserver/src/include/BlockQueue.h:159-163 | a run in which a clear leaves a producer asleep beside an empty queue |
| BlockQueue.RefusalLosesWakeup | webserver/src/include/BlockQueue.h:94-100 | a run in which a refusal after close leaves a consumer asleep beside an item |
| BlockQueue.NeverOverCapacity | webserver/src/include/BlockQueue.h:70-74 | the size never exceeds the capacity, in any run |
| BlockQueue.Fifo | webserver/src/include/BlockQueue.h:66-105 | with push_back alone, pushed history = popped history followed by the contents |
| BlockQueue.PlaceInLine | webserver/src/include/BlockQueue.h:74-102 | an item moves one place back for each push_front, one forward for each pop, and is not moved by push_back |
| BlockQueue.ServedInTurn | webserver/src/include/BlockQueue.h:74-102 | what was pushed is popped when those before it have been: none for push_front, all that were queued for push_back, and later push_fronts |
| BlockQueue.Conserved | webserver/src/include/BlockQueue.h:78-105 | with push_front too, nothing is lost or made up |
| BlockQueue.ParkedAtCloseIsRefused | webserver/src/include/BlockQueue.h:94-100 | a consumer parked when close notifies returns false as its next act and takes nothing |
| BlockQueue.BlockQueue.constructor | webserver/src/include/BlockQueue.h:53-58 | an open, empty queue |
| BlockQueue.BlockQueue.PushTurn | webserver/src/include/BlockQueue.h:66-88 | under the lock a push either parks or inserts and notifies one consumer |
| BlockQueue.BlockQueue.PopTurn | webserver/src/include/BlockQueue.h:91-105 | under the lock a pop either parks or takes the front item and notifies one producer |
| BlockQueue.BlockQueue.WokenPop | webserver/src/include/BlockQueue.h:96-104 | a woken consumer is refused exactly when the queue is closed |
| BlockQueue.BlockQueue.CloseLock | webserver/src/include/BlockQueue.h:144-149 | the locked part of close |
| BlockQueue.BlockQueue.NotifyAllConsumers | webserver/src/include/BlockQueue.h:150 | every parked consumer is woken |
| BlockQueue.BlockQueue.NotifyAllProducers | webserver/src/include/BlockQueue.h:151 | every parked producer is woken |
| BlockQueue.BlockQueue.Clear | webserver/src/include/BlockQueue.h:159-163 | empties the queue and notifies nobody |
| ThreadPool.Invariants | webserver/src/ThreadPool.cpp:7-22 | in every reachable state tasks are dequeued in submission order, each is running or finished at most once, no wake-up is lost although the notification follows the unlock, and after notify_all nobody is parked |
| ThreadPool.WorkIsSeen | webserver/src/include/ThreadPool.h:39-45 | a queued task beside a parked worker always has a woken worker or a notification to come |
| ThreadPool.Drained | webserver/src/ThreadPool.cpp:26-38 | with no task after stop, once all workers have exited the queue is empty and every task has run exactly once |
| ThreadPool.PoolDrains | webserver/src/ThreadPool.cpp:3-38 | the same for a pool of a given size, by numbers: that many workers are somewhere at all times, and when that many have exited all is done |
| ThreadPool.WorkersAre | webserver/src/ThreadPool.cpp:5-7 | one worker for each index below the size, none for a size of zero or less |
| ThreadPool.LeftBehind | webserver/src/ThreadPool.cpp:17-21 | without that assumption: exactly the tasks added after the last departure remain, from which on all workers have exited, and all others ran once |
| ThreadPool.DrainedIff | webserver/src/ThreadPool.cpp:17-21 | the queue is empty then if and only if nothing was added after the last departure, that is, each task came while some worker had not exited |
| ThreadPool.DrainsIfAddedWhileRunning | webserver/src/ThreadPool.cpp:14-21 | a pool whose tasks after stop are each added while some task is running drains, every task having run exactly once |
| ThreadPool.LateTaskIsStranded | webserver/src/include/ThreadPool.h:39-45 | a run that strands a task |
| ThreadPool.SomeoneCanMove | webserver/src/ThreadPool.cpp:32-37 | after notify_all some worker can step until all have exited |
| ThreadPool.StepsRunOut | webserver/src/ThreadPool.cpp:9-22 | each such step uses up a bounded measure |
| ThreadPool.DestructorReturns | webserver/src/ThreadPool.cpp:26-38 | so the joins are reached in a bounded number of steps |
| ThreadPool.ThreadPool.constructor | webserver/src/ThreadPool.cpp:3-24 | starts exactly one worker per index below the size, none for a non-positive size |
| ThreadPool.ThreadPool.Push | webserver/src/include/ThreadPool.h:39-44 | the locked push of addTask |
| ThreadPool.ThreadPool.Notify | webserver/src/include/ThreadPool.h:45 | its notify_one, owed until then |
| ThreadPool.ThreadPool.WorkerTurn | webserver/src/ThreadPool.cpp:12-20 | the locked block: wait, return, or take the front task |
| ThreadPool.ThreadPool.TaskDone | webserver/src/ThreadPool.cpp:21 | a task that returns is finished once more, and its worker is back at the lock |
| ThreadPool.ThreadPool.Stop | webserver/src/ThreadPool.cpp:28-31 | sets the flag |
| ThreadPool.ThreadPool.NotifyAll | webserver/src/ThreadPool.cpp:32 | wakes every parked worker |
| SqlPool.Invariants | webserver/src/SqlPool.cpp:38-58 | in every reachable state queue length = semaphore + callers past sem_wait + posts to come, front() has never run on an empty queue, and queued plus held handles are the initial ones |
| SqlPool.NoHandleTwice | webserver/src/SqlPool.cpp:45-49 | no handle is queued twice or both queued and held |
| SqlPool.PlaceInLine | webserver/src/SqlPool.cpp:45-56 | a queued handle moves forward with each pop and not otherwise |
| SqlPool.FreedHandleWaitsItsTurn | webserver/src/SqlPool.cpp:45-56 | a handle given back is handed out when those queued before it have been, and it is the one handed out then |
| SqlPool.StuckMeansAllHeld | webserver/src/SqlPool.cpp:44 | a caller can be stuck at sem_wait only when every handle is out or on its way |
| SqlPool.TestedCallerMayWait | webserver/src/SqlPool.cpp:40-44 | the unlocked emptiness test does not spare a caller the wait |
| SqlPool.ProbeKeepsIff | webserver/src/SqlPool.cpp:38-44 | a test that succeeds leaves every tested caller a semaphore unit if and only if more handles are queued than callers are on their way to or from one |
| SqlPool.OthersKeepNobodyStuck | webserver/src/SqlPool.cpp:38-58 | every other step keeps that |
| SqlPool.NobodyStuckIff | webserver/src/SqlPool.cpp:38-58 | in a run no tested caller ever has to wait if and only if every test succeeds under that condition |
| SqlPool.SqlPool.Init | webserver/src/SqlPool.cpp:17-36 | the queue holds the opened handles in order and the semaphore counts them |
| SqlPool.SqlPool.Probe | webserver/src/SqlPool.cpp:39-43 | null exactly when the queue is seen empty |
| SqlPool.SqlPool.SemWait | webserver/src/SqlPool.cpp:44 | takes one from the semaphore |
| SqlPool.SqlPool.Pop | webserver/src/SqlPool.cpp:45-50 | under the counting invariant the queue is not empty, and its front is handed out |
| SqlPool.SqlPool.FreePush | webserver/src/SqlPool.cpp:53-56 | the handle goes to the back of the queue |
| SqlPool.SqlPool.FreePost | webserver/src/SqlPool.cpp:57 | and only then to the semaphore |
| FormDecoder.DecodeEncode | webserver/src/HttpRequest.cpp:186-230 | decoding an encoded list of clean pairs gives all pairs, the last one only under a new key and when its value is not empty |
| FormDecoder.RoundTripIff | webserver/src/HttpRequest.cpp:224-229 | decoding inverts encoding if and only if the last pair is of that kind or repeats what is stored |
| FormDecoder.EmptyLastValueIsLost | webserver/src/HttpRequest.cpp:224-229 | a form of one key with an empty value decodes to no fields |
| FormDecoder.DecodePieces | webserver/src/HttpRequest.cpp:186-230 | for any body at all: cut at its delimiters, every piece before an ampersand is stored under the piece before the latest equals sign |
| FormDecoder.EscapeIs | webserver/src/HttpRequest.cpp:177-214 | what an escape of two hexadecimal digits is rewritten to, and that its number is the right one exactly when the second digit is a letter |
| FormDecoder.RewriteUndoesPlus | webserver/src/HttpRequest.cpp:216-218 | the rewriting turns '+' back into blanks and nothing else |
| FormDecoder.ParseFromUrlencoded | webserver/src/HttpRequest.cpp:186-230 | the scan that rewrites what it reads leaves the rewritten body and the fields of the rewritten body |
| HttpRequest.RequestLineIff | webserver/src/HttpRequest.cpp:93-107 | the request line matches the regular expression for one method, path and version at most, and those are found |
| HttpRequest.HeaderLineIff | webserver/src/HttpRequest.cpp:109-121 | the same for header name and value, with the optional blank |
| HttpRequest.MapPathIff | webserver/src/HttpRequest.cpp:131-151 | page by page in literals: which paths lead to the index page, which six and "/" change at all, and to what |
| HttpRequest.LineIsKept | webserver/src/HttpRequest.cpp:26-64 | whatever the message, the parser leaves the method, version and mapped path of its request line, and only a POST to a login page may lead elsewhere |
| HttpRequest.UserCheckIff | webserver/src/HttpRequest.cpp:153-163 | the request paths whose posts reach the user check |
| HttpRequest.StepMovesForward | webserver/src/HttpRequest.cpp:31-59 | no line moves the state backward, and only header lines keep it |
| HttpRequest.ParseFailsIff | webserver/src/HttpRequest.cpp:26-64 | Parse fails exactly on a request line that does not match, changing nothing; else it ends in FINISH |
| HttpRequest.BlankLineInBoundsIff | webserver/src/HttpRequest.cpp:26-61 | a buffer with a blank line is parsed without leaving it if and only if a form in it has two bytes behind each percent sign |
| HttpRequest.BlankLineSuffices | webserver/src/HttpRequest.cpp:26-61 | a buffer with a blank line is parsed without a search starting behind its end, for every request but a POST and every request without a percent sign |
| HttpRequest.RequestRoundTrip | webserver/src/HttpRequest.cpp:18-64 | every request written out is read back: method, mapped path, version, headers, and what its body up to a CRLF does |
| HttpRequest.NonPostRoundTrip | webserver/src/HttpRequest.cpp:18-64 | for every method but POST, and for every request without a body, each part is recovered and nothing else filled in (section 3 of RFC 7230) |
| HttpRequest.OtherPostRoundTrip | webserver/src/HttpRequest.cpp:153-156 | a POST that is no form keeps its body, and gains an empty Content-Type entry if it had none |
| HttpRequest.FirstLineIs | webserver/src/HttpRequest.cpp:28-30 | a body is cut at its first CRLF |
| HttpRequest.DistinctHeadersKept | webserver/src/HttpRequest.cpp:115 | headers under distinct names are all there, and no others |
| HttpRequest.HeadersExtend | webserver/src/HttpRequest.cpp:115 | the last header of a name is the one that counts |
| HttpRequest.FormRoundTrip | webserver/src/HttpRequest.cpp:153-175 | a form posted to any page but the login pages arrives as its fields, with the body decoded |
| HttpRequest.LoginIff | webserver/src/HttpRequest.cpp:153-175 | a form posted to a login page leads to /welcome.html if and only if it carries a non-empty user and password and the database agrees, else to /error.html, with its fields and empty ones for a missing user or password |
| HttpRequest.HttpRequest.Init | webserver/src/HttpRequest.cpp:10-16 | resets every field |
| HttpRequest.HttpRequest.ParseRequestLine | webserver/src/HttpRequest.cpp:93-107 | fills in the three parts and maps the path, or fails and changes nothing |
| HttpRequest.HttpRequest.ParsePath | webserver/src/HttpRequest.cpp:131-151 | the path as mapped, "/" to "/index.html", and a fixed point of the mapping |
| HttpRequest.HttpRequest.ParseHeaders | webserver/src/HttpRequest.cpp:109-121 | stores the header, or moves on to the body |
| HttpRequest.HttpRequest.ParseForm | webserver/src/HttpRequest.cpp:186-230 | body and fields as the decoder leaves them |
| HttpRequest.HttpRequest.ParsePostBody | webserver/src/HttpRequest.cpp:153-175 | what a posted body does, including the entries that map lookups create |
| HttpRequest.HttpRequest.ParseBody | webserver/src/HttpRequest.cpp:123-129 | stores and handles the body, then finishes |
| HttpRequest.HttpRequest.Parse | webserver/src/HttpRequest.cpp:18-64 | false on an empty buffer, else the result and the request of the line-by-line parse, which the round trips are about |

## Left out

- Allocation failure: malloc and realloc succeed, so the NULL results and the cleanup path of sdssplitlen are not modelled.
- Aliasing of arguments: a buffer passed to an sds operation is a value, so passing a pointer into the string itself is not captured; likewise `%S` arguments.
- sdscatvprintf, sdscatprintf: they rest on vsnprintf; in sdscatrepr their three uses appear as the bytes they print.
- sdsdup, sdsfree, sdscat, sdscatsds, sdscpy, sdsfromlonglong, sdsjoin, sdscmp, sdstolower, sdstoupper, sdsmapchars, sdsAllocSize: they would only add easy members.
- Quote.SplitArgs: the growing vector is a sequence, not the reallocated pointer array.
- SplitJoin.SplitLen: the int token counters are unbounded.
- SdsString.Sds.Range: requires that on a non-empty text an end index of SSIZE_MAX comes with a start behind the first byte, since the source's end - start + 1 overflows otherwise.
- SdsString.Sds.IncrLen: requires the increment to fit the room, which is less than the source asserts on type 5; SdsLayout.IncrAssertedIffInRoom relates the two.
- CatFmt.CatFmt: arguments are typed values in place of a va_list.
- Locale: isprint and isspace are those of the C locale, and bytes of 128 and more count as negative characters.
- BlockQueue: front, back, size, capacity, isEmpty and isFull are locked reads; a pop that begins on a closed empty queue may wait for ever and no claim is made about it.
- BlockQueue.NoLostWakeup: takes clears that are safe and no close, since a consumer refused by a closed queue can lose another one's wake-up (RefusalLosesWakeup); NoLostWakeupIff has the exact condition for all runs, and ProducersCoveredAfterClose what close does for producers.
- ThreadPool: futures, exceptions from tasks and tasks that never return.
- ThreadPool.DestructorReturns: takes each running task to end, and each enabled step to happen at some time.
- SqlPool: the MySQL calls, ClosePool and GetFreeConnSize; handles are freed at most once each and only while held.
- HttpRequest: UserVerify is an arbitrary verdict behind its two tests for empty strings; logging is left out; offsets are unbounded where the source has int.
- HttpRequest.BlankLineSuffices: keeps '%' out of a POST, since a form body that ends in a cut-off escape is read beyond its end; BlankLineInBoundsIff has the exact condition.
- FormDecoder.EscapeIs: is about two hexadecimal digits; for other bytes behind '%' the model computes what the code does and no claim is made.
- HttpResponse, Log, Connection, Socket, Acceptor, Epoll, EventLoop, Channel, InetAddress, WebServer: system calls, files and clocks around little logic.
