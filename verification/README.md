# Verified models of gl-kernel-basecamp

A Dafny model of the algorithms and protocols in this repository, with proofs of what
they guarantee on every input, every run and every interleaving - and of where exactly
they stop doing so.  `dafny verify dfyconfig.toml` checks the whole project.

| files | what they model |
|---|---|
| `ThreadPool.dfy`, `ThreadPoolInvariant.dfy`, `ThreadPoolTheorems.dfy`, `ThreadPoolReads.dfy`, `ThreadPoolShutdown.dfy`, `ThreadPoolHang.dfy` | the worker pool of `exercise16/part01/threadpool.c` as a transition system with one program counter per thread, for any number of workers (the code has four) |
| `Reminder.dfy`, `StableSort.dfy` | the reminder queue of `task08/reminder.c`: the circular doubly linked list in the heap, and online stable sorting |
| `WordReverse.dfy`, `Words.dfy`, `TextDevice.dfy`, `LineDelivery.dfy` | the in-place word reversal of `exercise10/part02/rw.c` and its read and write cursors |
| `Rle.dfy` | the run-length encoder and decoder of `task03` |
| `Chat.dfy`, `ChatLog.dfy` | the chat device of `task06/dyndev.c` |
| `Gpio.dfy` | the pin configuration registers of `task04/c_gpio.c` |
| `Basics.dfy` | small shared definitions |
| `Lcd.dfy` | drawing into the frame buffer of `task04/demo_lcd.c` |

Code that updates memory in place is modelled in place: arrays, linked nodes and class
fields, each method proved against a specification function whose properties are lemmas.
The pool is a state machine over steps, because its claims are about interleavings; one
step is one critical access of one thread, and `put_char`, a critical section of a lock
that nothing else uses, is one step.

## What the code does not do

The models follow the code.  Where it misses what one would expect of it, the failing case is
exhibited and the exact condition proved.

- `threadpool.c`, line 53: `if` where the wait needs `while`.  A woken worker can find the
  list empty and read through a null pointer: another one has taken the item
  (`StolenWakeupCrashes`), or it took the item itself and was asleep again when line 133 sent the
  signal for it (`LateSignalCrashes`).  Without spurious wakeups this can happen exactly if there is
  a worker at all (`CanCrashExactly`).  Every invariant holds up to that step.  `retest` switches the
  model to the `while (data_list == 0)` form, which is a change to the code.  It cannot fault, but a
  worker that waits on an empty list when the flag is down then waits for ever
  (`RetestWaitsForEver`).  `while (enabled && data_list == 0)` suggests itself; it is not modelled.
- `threadpool.c`, line 109: the flag is cleared outside the mutex, so the joins may wait for ever.
  Without spurious wakeups this can follow exactly if, at that moment, some worker is between
  lines 51 and 53 and the list holds just what a worker at line 60 is about to take, or nothing if
  there is none (`HangsExactly`); every way of running on succeeds exactly if that is not so, and no
  worker stands at line 60 with the list empty (`ShutdownSucceedsExactly`).
- `reminder.c`, line 92: a negative delay is accepted and can break the order of firing
  (`NegativeDelayBreaksTheOrder` is a history from the empty queue on; the order is broken exactly if
  a reminder is stored for an earlier time than one that has fired, `HistorySortsExactly`).
- `rw.c`, lines 64-74: a leading space in the text exchanges the newline with a space, and a line of
  one word comes out with its letters reversed; on the safe texts these are the only failures
  (`WordsReversedExactly`).  An empty or one-character string, a space in front of the last
  character, a space as the last character, and a buffer without a NUL make the code leave the
  buffer.  `ReverseString` stays inside exactly on the texts that are `Safe`, and `UnsafeTexts` names
  one of each kind.
- `rw.c`, line 158: a line is copied without a terminator, and the text that stands behind it is taken
  for a part of it.  The words of that text come out first (`OlderWordsComeFirst`), or, if it is one
  word, the last word of the line with a newline and that word (`LastWordStuck`).  The lines of a
  given length, of several words each, all come back as they should exactly if the copy ends in front of a NUL
  (`AllLinesDeliveredExactly`); `ShortOverLong` writes two lines and gets the second back wrong.
- `dyndev.c`, line 82: the counter of bytes read is shared by all readers, so a read right after
  somebody else's returns nothing, exactly if that one returned something
  (`Read`, `SecondReaderGetsNothing`).
- `dyndev.c`, line 96: a read follows a null pointer exactly if the text does not end with a newline
  (`UnfinishedLine`).
- `c_gpio.c`, line 221: pins 48 to 53 share register 60 with the chip test, and setting pulls can make
  it fail (`CanLoseThePath`), exactly from the register values that `PathIsKeptExactly` names.
- `demo_lcd.c`, lines 368 and 372: the clipping tests are one too lenient.  A fill of something writes
  behind the frame buffer exactly if `y + h` is 241, or `x + w` is 321 and the fill reaches the last
  row, as from column 1 with the full width and height (`SafeFillsExactly`, `FillBehindTheBuffer`); with
  `x + w` of 321 it otherwise spills into column 0 (`FillIsExactlyTheRectangle`).  Line 387 asks for
  one column and one row too few.

## Model

| member | source | states |
|---|---|---|
| ThreadPoolTheorems.RowShowsFinishedThenCurrent | exercise16/part01/threadpool.c:35-78 | in every reachable state of every interleaving, row n shows the full renderings of the items worker n finished, in dequeue order, then a prefix of the rendering of the item it holds or abandoned, and nothing else; `p` is that text's length |
| ThreadPoolTheorems.CellsAreWrittenOnce | exercise16/part01/threadpool.c:35-45 | no cell is written twice: a drawing step writes one cell that was free, every other step leaves the screen alone |
| ThreadPoolReads.AppendedIsRead | exercise16/part01/threadpool.c:124-151 | in every run the characters, lengths and counts of the lines read, in order, are those of the items appended, followed by those of the item that is on its way into the list |
| ThreadPoolReads.RowShowsLinesRead | exercise16/part01/threadpool.c:35-151 | in every state of every run a row shows the pictures of lines that were read, found by the numbers of the items the worker finished, in ascending order, and then a prefix of the picture of the one it holds or abandoned |
| ThreadPoolReads.PictureAt | exercise16/part01/threadpool.c:64-74 | place `i * (l + 1) + j` of the picture of a line is its character for `j` below the length `l` and a space at `l`, and the picture has `n * (l + 1)` places |
| ThreadPoolReads.PictureOfALine | exercise16/part01/threadpool.c:64-74 | the picture of the line "a 2 3" is "aa aa aa " |
| ThreadPoolReads.AnyLinesAreRead | exercise16/part01/threadpool.c:124-151 | any sequence of lines can be read, and stands in the list before a worker has run |
| ThreadPoolReads.EveryLineIsDrawn | exercise16/part01/threadpool.c:47-78 | for every line a pool of one worker reaches a state in which row 0 shows its picture and nothing else |
| ThreadPoolTheorems.BlocksHaveOneOwner | exercise16/part01/threadpool.c:52-62 | the dequeued items followed by the list are the items appended, in order; each dequeued item is with exactly one worker, at one place of what that worker freed, holds or abandoned (what is appended is what `ThreadPoolReads.AppendedIsRead` says) |
| ThreadPoolTheorems.WorkIsConserved | exercise16/part01/threadpool.c:60-75 | the characters asked for by all appended items are those on the rows, plus those outstanding in the list and in hands, plus those lost to abandoned items |
| ThreadPoolReads.WorkIsLength | exercise16/part01/threadpool.c:64-74 | the work of an item is the length of the picture of its line |
| ThreadPoolTheorems.OutstandingWorkStep | exercise16/part01/threadpool.c:64-75 | every `put_char` lowers the outstanding work by exactly one; it grows only by what is appended and otherwise falls only by what is abandoned |
| ThreadPoolTheorems.DrawsAreBounded | exercise16/part01/threadpool.c:64-75 | between any two states of a run the characters drawn are at most the work outstanding at the first plus the work appended in between |
| ThreadPoolInvariant.InvAlways | exercise16/part01/threadpool.c:47-133 | the inductive invariant (mutual exclusion, first-in first-out, rows, shutdown after the last append) holds in every state of every run, for the code as written and for the variant |
| ThreadPoolInvariant.InvStep | exercise16/part01/threadpool.c:47-133 | every step of every thread keeps the invariant |
| ThreadPoolInvariant.MutexWorkerStep | exercise16/part01/threadpool.c:52-62 | mutual exclusion: a worker is inside lines 53-62 exactly while it owns the mutex, across the release and reacquisition in `pthread_cond_wait` |
| ThreadPoolShutdown.AtMostOneMoreDequeue | exercise16/part01/threadpool.c:51-62 | after `enabled` is cleared at most one further item is dequeued in the rest of the run, and none is appended |
| ThreadPoolShutdown.AtMostTwoMoreCharacters | exercise16/part01/threadpool.c:64-72 | after `enabled` is cleared a worker draws at most the characters that are due at its position, and at most two if the item it holds or may still take has a positive block length |
| ThreadPoolShutdown.OneMoreDequeueHappens | exercise16/part01/threadpool.c:51-62 | the bound on dequeues is reached: a run in which one more item is taken after the flag is cleared |
| ThreadPoolShutdown.TwoMoreCharactersHappen | exercise16/part01/threadpool.c:64-72 | the bound on characters is reached: a run in which a worker draws two more and abandons its item |
| ThreadPoolShutdown.CrashesExactlyWhenWokenForNothing | exercise16/part01/threadpool.c:53-60 | a step reads the head of an empty list exactly when a worker that came back from `pthread_cond_wait` reaches line 60 with the list empty |
| ThreadPoolShutdown.StolenWakeupCrashes | exercise16/part01/threadpool.c:53-60 | such a run exists without any spurious wakeup: another worker takes the item first |
| ThreadPoolShutdown.LateSignalCrashes | exercise16/part01/threadpool.c:53-133 | for any positive number of workers such a run exists in which one worker alone runs: it finishes the item and sleeps again before the signal for it is sent |
| ThreadPoolShutdown.CanCrashExactly | exercise16/part01/threadpool.c:53-133 | a faulted state can be reached without a spurious wakeup exactly if there is at least one worker |
| ThreadPoolShutdown.RetestNeverCrashes | exercise16/part01/threadpool.c:53-55 | with `while` in place of `if` at line 53, which is a change to the code, no run faults |
| ThreadPoolShutdown.ShutdownCanHang | exercise16/part01/threadpool.c:106-116 | an example of a hang: a run with one worker that passes line 51 before the flag is cleared and sleeps after the last signal |
| ThreadPoolHang.HangsExactly | exercise16/part01/threadpool.c:51-116 | from the state in which the flag is cleared, the code without spurious wakeups can come to a state from which it neither finishes the joins nor faults exactly if some worker is between lines 51 and 53 and the list is as long as the number of workers (0 or 1) at line 60 |
| ThreadPoolHang.ShutdownSucceedsExactly | exercise16/part01/threadpool.c:51-116 | every quiet run that cannot go on after the flag is cleared has joined all workers without a fault, exactly if neither that condition holds nor a worker is at line 60 with the list empty |
| ThreadPoolHang.ShutdownEnds | exercise16/part01/threadpool.c:51-116 | after the flag is cleared every run is finite, with a bound given by the state, spurious wakeups included; where it cannot go on it has faulted, has joined all workers, or has a worker asleep in the joins |
| ThreadPoolHang.HungIsStuck | exercise16/part01/threadpool.c:111-116 | a worker that sleeps while the main thread joins and the list is claimed is never woken without a spurious wakeup: the joins never finish and nothing faults |
| ThreadPoolHang.RetestWaitsForEver | exercise16/part01/threadpool.c:53-58 | with `while (data_list == 0)` and the flag down a worker that waits on an empty list waits for ever, whatever wakes it, and the joins never finish |
| ThreadPoolTheorems.ItemsAreNotSleptThrough | exercise16/part01/threadpool.c:53-133 | in every state of every run, if all workers sleep then the list is empty or the main thread is about to signal |
| ThreadPoolShutdown.JoinedMeansQuiet | exercise16/part01/threadpool.c:114-120 | once all workers are joined every one has returned and the mutex about to be destroyed is free |
| Reminder.Reminders.AddMessage | task08/reminder.c:30-42 | the scan and `list_add_tail` keep the ring well formed and insert the reminder before the first later one, or at the end when the scan runs round to the head |
| Reminder.Reminders.ListAddTail | task08/reminder.c:41 | `list_add_tail` inserts in front of any member or of the head sentinel and keeps `next` and `prev` inverse around the ring |
| Reminder.Reminders.ListDel | task08/reminder.c:68 | `list_del` takes one member out, poisons its links, and keeps the ring |
| Reminder.Reminders.TriggerMessages | task08/reminder.c:60-74 | the early-break scan with a fresh clock reading per entry does what two full filters at its last reading do; exactly the removed entries are freed, none twice, and no poisoned link is followed |
| Reminder.Reminders.TimerCallback | task08/reminder.c:114-124 | a callback keeps the module invariant and moves exactly the due entries from the front of the list to the log |
| Reminder.Reminders.Store | task08/reminder.c:105-107 | a store keeps the module invariant and inserts the reminder at its time from now |
| Reminder.Reminders.Drain | task08/reminder.c:151-156 | at exit every entry is unlinked and freed once and the ring is empty |
| Reminder.Reminders.Run | task08/reminder.c:30-124 | over any run of stores and callbacks the module's state is what a history of as many happenings, each as its event asks, one after the other on the clock, makes of the state before; everything written arrives in order; and with no negative delay what fired followed by the list is the stable sort of everything stored |
| Reminder.RunFromStart | task08/reminder.c:30-149 | from loading the module on, the state of the ring is the `History` of what happened |
| Reminder.OnlineStableSort | task08/reminder.c:30-42 | what fired followed by the list equals the stable sort of the arrivals exactly when every store came in time, that is no later entry had fired before |
| Reminder.NegativeDelayBreaksTheOrder | task08/reminder.c:105 | a history from the empty queue on, of a store, a callback and a store with a negative delay, after which the order is broken |
| Reminder.HistorySortsExactly | task08/reminder.c:30-124 | over every history of stores and callbacks on a monotonic clock, what fired followed by the list is the stable sort of what was stored exactly if every store came in time |
| Reminder.StoreStep | task08/reminder.c:105-106 | a store keeps the invariant of the history, including whether stores came in time |
| Reminder.CallbackStep | task08/reminder.c:60-74 | a callback fires everything due when it started, nothing early, changes no order, keeps the invariant of the history, and makes up for negative delays before it |
| Reminder.NothingIsLate | task08/reminder.c:114-124 | if a callback starts at most one interval after the one before it and no negative delay was stored in between, an entry is at most one interval past its time when the callback starts, and is fired by it exactly if its time has come by the last clock reading |
| StableSort.SortIsStable | task08/reminder.c:30-42 | insertion before the first later entry yields a sorted list with equal times in arrival order |
| StableSort.SortedIsUnique | task08/reminder.c:30-42 | two sorted lists with the same entries, equal times in the same order, are equal: the stable sort is determined by those two properties |
| StableSort.ArrivalStep | task08/reminder.c:30-42 | one arrival keeps equal times in order, and keeps the whole sorted exactly when nothing later has fired |
| StableSort.DueIsPrefix | task08/reminder.c:64-72 | on a sorted list the entries due at a time are a prefix, so stopping at the first other one loses nothing |
| WordReverse.ReverseInterval | exercise10/part02/rw.c:45-56 | every access of the pointer loop is inside the buffer exactly if both ends are and the interval is not shorter than empty; it then is reversed in place, upper-cased if asked, and on an empty interval the two characters around it are exchanged |
| Words.UpperIs | exercise10/part02/rw.c:51-53 | the 26 small letters become the 26 capital ones, and no other character changes |
| WordReverse.NoSmallLetterLeft | exercise10/part02/rw.c:58-75 | after `reverse_string` no small letter is left in the string, the last character of the text perhaps excepted, which is not upper-cased |
| WordReverse.HelloWorld | exercise10/part02/rw.c:58-75 | "hello world" and a newline become "WORLD HELLO" and a newline |
| WordReverse.ReverseString | exercise10/part02/rw.c:58-75 | on every buffer: all accesses stay inside it exactly if it is `Safe`, and the two passes then leave it as the specification function says |
| WordReverse.DoomedRound | exercise10/part02/rw.c:68-74 | a second pass over a string that begins or ends with a space leaves the buffer, or is as badly off after the round |
| WordReverse.UnsafeTexts | exercise10/part02/rw.c:58-75 | the empty string, a lone newline, a space before the newline and a space at the end are not safe |
| WordReverse.WordsReversedExactly | exercise10/part02/rw.c:58-75 | for every safe text the result is the upper-cased words in reverse order, interior empty words included, with the newline still last, exactly if the body does not start with a space and is not a single word, unless that word reads the same backwards |
| WordReverse.NewBodyIs | exercise10/part02/rw.c:58-75 | the new body is the words in reverse order, or the reversed letters when there is no space, with the same length and no space at either end |
| WordReverse.TwiceIsUpperCase | exercise10/part02/rw.c:58-75 | the domain is closed under the transformation, and applied twice it gives the upper-cased original |
| Words.WordOrderReversed | exercise10/part02/rw.c:63-74 | reversing the text and then each word in place is splitting at spaces, reversing the list of words and joining |
| Words.SplitJoin | exercise10/part02/rw.c:68-74 | splitting a join of space-free words gives the words back |
| TextDevice.Device.Write | exercise10/part02/rw.c:144-174 | a write copies at most 256 bytes, sets both cursors, and transforms the string in the buffer, or leaves the buffer exactly if that string is not safe |
| TextDevice.CopiedAt | exercise10/part02/rw.c:144-158 | byte by byte, the buffer after the copy holds what was copied, then what the failed part of the copy left, then what it held |
| TextDevice.Device.Read | exercise10/part02/rw.c:122-142 | a read hands out the next bytes up to the end of the message, less what could not be copied, and moves the cursor by as much |
| TextDevice.Device.ReadAll | exercise10/part02/rw.c:122-142 | any sequence of reads, with any lengths and partial copies, hands out the message in order without gaps, and keeps the cursors ordered |
| TextDevice.Device.Session | exercise10/part02/rw.c:122-174 | after any line of up to 256 bytes is written the reads deliver a prefix of the transformed buffer, cut to the line's length, and all of it exactly when the message is used up; with a NUL behind the line that is the line with its words in reverse order |
| LineDelivery.AllLinesDeliveredExactly | exercise10/part02/rw.c:144-174 | for every content of the buffer and every length: all lines of several words of that length come back with their words in reverse order exactly if the copied line fits and a NUL stands behind it, or the length is too short for two words |
| LineDelivery.OlderWordsComeFirst | exercise10/part02/rw.c:144-174 | when the line stands in front of the rest of an older text with a space in it, the words behind that space come out first, and the line is not reached at all if they are longer |
| LineDelivery.LastWordStuck | exercise10/part02/rw.c:144-174 | when that rest has no space, the last word of the line, a newline and the rest come out first |
| LineDelivery.OlderBody | exercise10/part02/rw.c:144-174 | whether the string in the buffer is safe is decided by the end of that rest alone, and its body is the line, the newline and the rest |
| LineDelivery.ShortOverLong | exercise10/part02/rw.c:144-174 | two writes to a zeroed buffer after which the four bytes to be read are not the second line with its words in reverse order |
| Rle.Encode | task03/encoder.c:4-24 | the loop's output is canonical and decodes to the input; the run counter never leaves 1..255 |
| Rle.Decode | task03/decoder.c:6-18 | the loops write what the pairs stand for; status 1 exactly when the stream ends inside a pair |
| Rle.EncodeThenDecode | task03/encoder.c:26-63 | encoding a nonempty file and decoding the result gives the file back with status 0 |
| Rle.RoundTrip | task03/encoder.c:7-22 | decoding an encoding gives the input back |
| Rle.RunIsPair | task03/encoder.c:10-22 | a run of up to 255 equal bytes is encoded as its length and the byte, in this order; one of 256 as two pairs |
| Rle.PairIsRun | task03/decoder.c:9-18 | a pair at the front of a stream stands for as many of its second byte as its first byte says |
| Rle.ConcatenatedEncodings | task03/decoder.c:9-18 | two encodings one after the other decode to the concatenated inputs |
| Rle.EncodingIsCanonical | task03/encoder.c:10-22 | counts are 1..255, adjacent pairs repeat a byte only behind a full count, the length is even and at most twice the input's |
| Rle.CanonicalStreamsAreEncodings | task03/encoder.c:10-22 | encoding what a canonical stream decodes to gives the stream back |
| Rle.EncodingIsUnique | task03/encoder.c:10-22 | a stream is canonical and decodes to x exactly when it is the encoder's output for x |
| Rle.EncodingIsOptimal | task03/encoder.c:6-22 | no stream at all that decodes to x, zero counts and a dangling byte included, is shorter than the encoder's output |
| Chat.Device.Read | task06/dyndev.c:73-101 | a reader gets exactly the lines that begin with its name and a colon, in order, and reader 0 the whole buffer, unless the shared counter says that something was just read, by whomever; then it gets nothing; a null pointer is followed exactly if it would read a text that does not end with a newline; in a chat of one-line messages the lines are those its user wrote |
| Chat.Device.Write | task06/dyndev.c:103-118 | a write appends the author's name, a colon, a blank and what was copied of the message, of one or several lines, if the buffer has room for them, for a terminator and for the zeros in place of what was not copied, and leaves the buffer or the text unterminated exactly if not; user 0 writes nothing |
| Chat.Device.AddUser | task06/dyndev.c:120-134 | a new user, whose name is what was copied in without the last character and up to a NUL, is appended exactly if the input is not empty, the table has a place and the name fits it; a name of its own without a colon or newline changes nothing that was said before |
| Chat.NameIs | task06/dyndev.c:122-128 | without a NUL in it, the name is the input without its last character, whatever that is, or without what could not be copied in |
| Chat.Device.Reset | task06/dyndev.c:136-150 | a positive size replaces the buffer by an empty one; zero or an unreadable number changes nothing |
| Chat.Device.LinesFor | task06/dyndev.c:86-97 | the loop over the buffer yields exactly the lines that begin with the reader's name, or all of them for reader 0, and follows a null pointer exactly if the last line has no newline |
| Chat.Device.IsBy | task06/dyndev.c:90-91 | the comparison loop decides whether a line begins with the name and a colon |
| ChatLog.MatchesExactlyTheAuthor | task06/dyndev.c:90-91 | that test finds exactly the author of a line, although one name may begin another |
| ChatLog.WholeChatInterleavesUsers | task06/dyndev.c:86-97 | the whole chat is an interleaving of what the users read of their own lines |
| ChatLog.SelectedIsText | task06/dyndev.c:86-97 | in a chat of one-line messages and good names the lines that begin with a user's name are those the user wrote |
| ChatLog.MessageSelected | task06/dyndev.c:86-97 | of a message of several lines the first goes to its author, and every further one to whomever it names in front of a colon |
| ChatLog.SelectedConcat | task06/dyndev.c:86-97 | behind a newline the lines of two texts are selected one after the other |
| ChatLog.TwoLinesRead | task06/dyndev.c:86-97 | of the two literal lines "a: hi" and "b: yo" reader 1, called a, gets the first, reader 2, called b, the second, and reader 0 both |
| Chat.HiWritten | task06/dyndev.c:73-118 | a session in which user a writes "hi": the buffer holds "a: hi" and a newline, which is what readers 1 and 0 are to get, and reader 2 nothing |
| Chat.SecondReaderGetsNothing | task06/dyndev.c:82-85 | for any two names and lines: a session after which the counter is positive although reader 2 has read nothing and has a line, so that its read returns nothing |
| Chat.UnfinishedLine | task06/dyndev.c:86-97 | for any message that does not end with a newline: a session after which the text does not either and the counter is zero, so that the next read follows a null pointer |
| Gpio.Chip.SetPullUpDn | task04/c_gpio.c:218-265 | on a 2711 one register is written, and bits `2 * (gpio % 16)` of register `57 + gpio / 16` become 1 for pud 2, up, 2 for pud 1, down, and 0 otherwise; on the older chips the control word, the clock bit of the pin, and both without are written, in this order, to registers 37 and `38 + gpio / 32`; the registers afterwards are the specified ones |
| Gpio.PullWritten | task04/c_gpio.c:222-244 | the same bits of the specification function |
| Gpio.PullElsewhere | task04/c_gpio.c:222-244 | the other bits of that register, and the other registers, stay |
| Gpio.DirectionWritten | task04/c_gpio.c:285-296 | bits `3 * (gpio % 10)` of register `gpio / 10` become 1 for direction 0, output, and 0 otherwise |
| Gpio.FieldsArePlaced | task04/c_gpio.c:267-307 | the fields of a pin are bits `2 * (gpio % 16)` of register `57 + gpio / 16` and bits `3 * (gpio % 10)` of register `gpio / 10` |
| Gpio.Chip.GetPullUpDn | task04/c_gpio.c:267-283 | reads bits `2 * (gpio % 16)` of register `57 + gpio / 16`, or 0 on the older chips |
| Gpio.Chip.SetupGpio | task04/c_gpio.c:285-296 | the three function bits of the pin become 1 for direction 0 and 0 otherwise, on a 2711 its two pull bits become 1, 2 or 0, and the registers equal the specification function |
| Gpio.Chip.GpioFunction | task04/c_gpio.c:299-307 | reads bits `3 * (gpio % 10)` of register `gpio / 10`, a value below 8 |
| Gpio.Chip.SetupAll | task04/c_gpio.c:218-307 | after any sequence of set-ups on pins 0 to 53 every pin has its last direction and its last pull, or what it had before, and the chip test still succeeds |
| Gpio.LastCallWins | task04/c_gpio.c:218-307 | the same about the specification function, for every sequence of calls and every pin |
| Gpio.SetupFunction | task04/c_gpio.c:285-296 | a set-up changes the direction of its pin and of no other, whatever the chip |
| Gpio.SetupPull | task04/c_gpio.c:222-244 | a set-up changes the pull of its pin and of no other on a 2711 |
| Gpio.PathIsKeptExactly | task04/c_gpio.c:221-222 | the chip test succeeds over every sequence of set-ups exactly when the bits of register 60 that no pull can bring to the tested value differ from it; a field of pin 48 that is not 3 is enough |
| Gpio.CanLoseThePath | task04/c_gpio.c:221-244 | otherwise setting the pulls of pins 50 to 53 makes the test fail |
| Lcd.FillRectangle | task04/demo_lcd.c:358-383 | every write is inside the frame buffer exactly if the fill is safe, a test of the four arguments, and then exactly the cells that the clipped loops reach get the byte-swapped color |
| Lcd.SafeFillsExactly | task04/demo_lcd.c:364-381 | every cell the loops reach is inside the frame buffer exactly if the fill is empty or neither `y + h` is 241 nor, reaching the last row, `x + w` is 321 |
| Lcd.FillBehindTheBuffer | task04/demo_lcd.c:364-381 | from column 1, the full width and height write the pixel behind the last one |
| Lcd.FillIsExactlyTheRectangle | task04/demo_lcd.c:364-381 | for all arguments: the fill stays inside the buffer and is the part of the rectangle on the screen exactly if it is empty or neither `x + w` is 321 nor `y + h` is 241 |
| Lcd.FilledPixel | task04/demo_lcd.c:364-381 | pixel by pixel: the extra column comes out in column 0 of the next rows |
| Lcd.FillScreen | task04/demo_lcd.c:385-388 | the last column and the last row keep what they showed |
| Lcd.PutChar | task04/demo_lcd.c:390-409 | for every character and every cell, also over the right edge: all reads are inside the font table and all writes inside the frame buffer exactly if the glyph is in the table and the cell's last pixel in the buffer, and then pixel `x + 320 * y + j + 320 * i` has the color that bit `15 - j` of word `(ch - 32) * height + i` of the table chooses, and no other pixel changes |
| Lcd.MaskIs | task04/demo_lcd.c:398 | the columns of a glyph row are its bits from 15 down to 0 |
| Lcd.SecondGlyph | task04/demo_lcd.c:396-406 | the second character of a font of an empty glyph and one with its leftmost pixel set: that pixel has the color, and the other 15 the background color |
| Lcd.PutString | task04/demo_lcd.c:411-418 | for every line, with the 16-bit column counter: all reads and writes are inside exactly if those of every glyph are, and then the line is drawn glyph by glyph, the pixels of the k-th from column `x + k * width` on if the line is at most as wide as the screen |
| Lcd.DrawnIs | task04/demo_lcd.c:414 | what is drawn is the beginning of the text, without a newline, up to the end or the first newline |
| Lcd.NarrowLine | task04/demo_lcd.c:411-418 | if the line is at most as wide as the screen, wherever it begins, every pixel of every cell is as its glyph says, and no other pixel changes |
| Lcd.NextGlyph | task04/demo_lcd.c:411-418 | drawing one more glyph leaves the cells before it as they are, also round the right edge |
| Lcd.WriteData | task04/demo_lcd.c:162-173 | the chunks sent make up the buffer; all but the last have 1000 bytes and the last has at most that many |

## Left out

- Kernel registration, procfs, sysfs and character device set-up and teardown, `printk`, allocation failure: not part of the algorithms.
- `enabled` is read and written without synchronisation; the model takes these accesses to be sequentially consistent.
- ncurses, the cursor and the input loop of `threadpool.c`: the screen is unbounded rows, and reading a line is a step that brings any item.
- Parsing with `sscanf`, `strchr` and `kstrtoul_from_user`, and the formatting in `print_messages` and `proc_read_stat`: they rest on library behaviour; parsed values are parameters.
- Overflow of `ktime_t` sums, and the next expiry computed by `hrtimer_forward`: times are unbounded integers, and when callbacks run is up to the caller.
- Reminder.Reminders.Store: a store and a timer callback are atomic with respect to each other, although the code takes no lock.
- Words.UpperAll: upper case is that of ASCII; the character table of the kernel library is not part of this model.
- What happens behind the first access outside a buffer, or through a null pointer: it is undefined.
- Chat.Device.Write: requires that what is copied in has no NUL characters; a partial copy to a reader, whose count `dev_read` ignores, is not modelled.
- Chat.Device.IsBy: `memcmp` is taken to stop at the first difference.
- Lcd.PutChar: requires a font of at most 16 columns, the width of its rows.
- Lcd.PutString: requires the same.
- Hardware set-up, `mmap`, `short_wait`, SPI and sysfs pins, event detection: device behaviour is not visible.  Of the older chips' pull registers the writes and their order are modelled, not the effect.
- `lcd_put_circle` (floating point), `lcd_init_ili9341` and the font tables: a glyph is any sequence of rows.
- `task05`, `task07`, `task09`, the other exercises and the scripts (currency conversion, time splitting, dice, timing demos): they would add easy members only.
