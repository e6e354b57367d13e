# DB Monitor: verified models of its hard parts

DB Monitor is a Cocoa application that polls MySQL servers and keeps a log of long-running
queries, built on a small MySQL connector and the MySQL client headers.  This project models the
parts of it that have state, loops or arithmetic worth a proof, and proves what they promise.

| files | what they model |
|---|---|
| `TrieSpec`, `AhoCorasick`, `TrieBuilder` | the Aho-Corasick matcher and the trie lookup of my_trie.h, first on paths, then on linked nodes; the builder shows that well-formed tries exist for every dictionary |
| `AtomicSpec`, `CasLoops`, `LockedOps` | my_atomic.h over CAS loops and over a mutex, as systems of any number of threads whose atomic steps interleave freely, both linearizable to one sequential specification |
| `EventLog`, `LogInvariant`, `PollCycle`, `LogHistory`, `LogFacts`, `LogFate`, `Document` | the event log of DBMDocument.m: each critical section as a step on a list, what every run keeps, what becomes of a single entry, and the methods on mutable log entries proved to be those steps |
| `PollLoop` | the operations of DBMDocument.m that reschedule themselves, and what cancelling and reloading do to them |
| `TrailingSpace` | `skip_trailing_space` of m_string.h against the naive scan |
| `BitTricks` | my_bit.h on words of any width |
| `ByteOrder`, `ByteMacros` | the integer codecs of myisampack.h and my_global.h, for any number of bytes, and each macro as written |
| `FetchSpec`, `FetchBuffers` | MysqlFetch.m: what a fetch returns, and its buffers on an explicit heap |
| `Common` | bytes and options |

The pattern is the same throughout: code that changes things in place is a method over a class,
an array or an explicit heap, proved equal to a function; what the code is for is then proved
about that function, for all inputs or over all runs.

Conventions.

* Atomics: a step is one atomic access; the history records calls and returns, and `Linearizable`
  is Herlihy and Wing's condition.  A value-changing write is recorded with its thread.
* Event log: a `@synchronized(dataList)` block is one step.  Rows, slave status, clock, slider and
  configuration are inputs of the step.  Host names are tokens compared by identity, distinct from
  host to host.  Decimal process IDs are numbers, so "-1" is `Number(-1)`.
* Shifts of negative values are arithmetic; conversions to narrower unsigned types are written out
  as remainders.
* Fetching: the client library follows the comment on MYSQL_BIND (mysql_64.h:479-540).  A value of
  a fixed-length type is written whole, whatever buffer_length says; of another as much as
  buffer_length allows, with the full length and the truncation flag, and truncation is reported, as
  it is by default.  The server keeps to the size of fixed-length types and to the declared width of
  the others but blobs.  A write past the end of a block is the outcome `Overrun`, after which the
  model says nothing.  `made` says which bytes Cocoa can make an object of.  Storing
  nil under a key of a dictionary is taken to raise an exception; whether it does, or drops the key,
  depends on the version of Foundation.
* `trie_insert` and `ac_trie_prepare` have no bodies in the repository.  `Trie.WellFormed` states
  what they leave behind; `TrieBuilder.Build` is auxiliary and models no repository code.

Where code and comments disagree the code is followed.  The comment on `my_bit_log2` promises the
logarithm rounded up and the loop rounds down; `Log2IsRoundedUpIff` says exactly when the two agree.
The matcher returns "length of matched word or 0" but looks only at the node it reaches;
`CompleteIffNoHiddenWord` says exactly for which dictionaries no word is missed.  A row's dictionary
keeps only the last column of a name and leaves out a date-time of which no date can be made;
`RowsComeWholeIff` says exactly when rows come through whole.  The buffers of a fetch are freed when
it returns results and only then; `LongBlobRaises` is a query at which they are not.  The blocks for
FLOAT and DOUBLE columns are sized by display width; `NeverOverrunsIff` and `RoomyIff` say exactly for
which columns that is enough.

## Model

| member | source | states |
|---|---|---|
| TrieSpec.RunIsLongestSuffix | DB Monitor/trunk/include/my_trie.h:82-92 | For every prefix-closed set of paths and every text read from the root, the matcher stands on the longest suffix of the text that is a path; failure links and the root loop lose nothing. |
| TrieSpec.MoveIsLongestSuffix | DB Monitor/trunk/include/my_trie.h:89-90 | The fail-walk of one call, from any node and for any byte, ends on the longest suffix of path-plus-byte that is a path. |
| TrieSpec.LongestSuffixUnique | DB Monitor/trunk/include/my_trie.h:55-92 | The longest suffix that is a path is unique, so the statement above determines the node. |
| TrieSpec.AmortisedCost | DB Monitor/trunk/include/my_trie.h:89-90 | Over any text of n bytes the failure links followed number at most n minus the final depth. |
| TrieSpec.ReportIsSound | DB Monitor/trunk/include/my_trie.h:78-92 | A result n > 0 means that the last n bytes read are a stored word, and the longest one ending there. |
| TrieSpec.CompleteIffNoHiddenWord | DB Monitor/trunk/include/my_trie.h:82-92 | The matcher reports at exactly the positions where a stored word ends, for all texts, if and only if every word inside another at a non-zero offset ends there together with a stored prefix of the other. |
| TrieSpec.HiddenWordIsMissed | DB Monitor/trunk/include/my_trie.h:82-92 | Otherwise the text v[..n] is one where a stored word ends and 0 is returned, because no output links are followed. |
| TrieSpec.WordInsideIsMissed | DB Monitor/trunk/include/my_trie.h:82-92 | In the dictionary of b and abc, the b at the end of ab is missed. |
| TrieSpec.CompleteWithoutInnerWords | DB Monitor/trunk/include/my_trie.h:82-92 | If no stored word occurs at a non-zero offset inside another, the result is non-zero exactly where a stored word ends. |
| TrieSpec.StoredKeyIsReported | DB Monitor/trunk/include/my_trie.h:82-136 | A stored key fed from the root ends on its own node and the last call returns its length. |
| AhoCorasick.TrieGoto | DB Monitor/trunk/include/my_trie.h:55-65 | On the linked siblings of a well-formed trie: the child under the label if there is one, else the root for the root, else NULL. |
| AhoCorasick.FollowFailures | DB Monitor/trunk/include/my_trie.h:89-90 | The while loop of ac_trie_next ends and reaches the node of the path-level move; its turns are counted exactly. |
| AhoCorasick.AcTrieState.Next | DB Monitor/trunk/include/my_trie.h:82-92 | One call moves the state to the node of the run over the text so far plus the byte, returns what that node reports, and adds its failure steps to the total. |
| AhoCorasick.StateStandsOnLongestSuffix | DB Monitor/trunk/include/my_trie.h:82-92 | In every state of the heap form, state->node is the node of the longest suffix of the text that is a path. |
| AhoCorasick.TrieSearch | DB Monitor/trunk/include/my_trie.h:116-136 | True exactly for stored non-empty keys; the key then drives the matcher to that node and its length is reported. |
| CasLoops.Linearizability | DB Monitor/trunk/include/my_atomic.h:65-85 | Every interleaving of any number of threads mixing CAS-loop add, fas and store, load from CAS, and native add, load, store and CAS is linearizable: the word is the fold mod 2^32 of the effects in their order, each result is what the word held at its effect, and real-time order is kept. |
| CasLoops.OperationsAreAtomic | DB Monitor/trunk/include/my_atomic.h:19-35 | In every run, in plain terms: the word is what a store, fetch-and-store or successful CAS last set it to, or the start value, plus the sum of the adds since, modulo 2^32; and every operation that took effect returns what it must for the word it found, CAS writing the value found back on failure. |
| CasLoops.AddsAdd | DB Monitor/trunk/include/my_atomic.h:66-70 | In every run of adds and loads the word is the start value plus the integer sum of the operands of the adds that took effect, modulo 2^32, and each call has returned that sum over the adds before it. |
| CasLoops.AddsAddWhenIdle | DB Monitor/trunk/include/my_atomic.h:66-70 | When no thread is inside an operation, it is the start value plus the sum of the operands of all adds ever called. |
| CasLoops.ProgressBound | DB Monitor/trunk/include/my_atomic.h:66-76 | The failed CASes of a loop are at most the value-changing writes by other threads since its first read, and up to its success once done. |
| CasLoops.LockFreedom | DB Monitor/trunk/include/my_atomic.h:65-85 | Over any run the failed CASes of all operations of all threads together number at most (threads - 1) times the changes of the word. |
| CasLoops.ThreadProgress | DB Monitor/trunk/include/my_atomic.h:65-85 | Over any run no thread fails more often, in all its operations, than other threads change the word. |
| CasLoops.FailureWitnessesSuccess | DB Monitor/trunk/include/my_atomic.h:66-76 | Whenever a CAS of a loop fails, some other thread has changed the word since the loop last read it, so every failure has a witness of its own. |
| CasLoops.LoadsLeaveTheWord | DB Monitor/trunk/include/my_atomic.h:77-81 | The load built from CAS(0, 0) returns the word and never changes it; a failed CAS does not either. |
| CasLoops.NextPreserves | DB Monitor/trunk/include/atomic/gcc_builtins.h:18-37 | Every atomic step of the derived and native bodies keeps the explanation of the history and the failure counts. |
| LockedOps.Linearizability | DB Monitor/trunk/include/atomic/rwlock.h:40-56 | The five mutex-guarded bodies, each a sequence of separate reads and writes, meet the same sequential specification under every interleaving, including CAS writing back the value found, and the mutex is held by exactly the thread whose body is under way. |
| LockedOps.OperationsAreAtomic | DB Monitor/trunk/include/atomic/rwlock.h:52-56 | The same plain meaning of the five operations for the mutex-guarded bodies. |
| LockedOps.AddsAdd | DB Monitor/trunk/include/atomic/rwlock.h:52 | The same sums for the mutex-guarded add. |
| LockedOps.AddsAddWhenIdle | DB Monitor/trunk/include/atomic/rwlock.h:52 | The same when no thread is inside an operation. |
| LockedOps.MutualExclusion | DB Monitor/trunk/include/atomic/rwlock.h:40-45 | No two threads are between lock and unlock. |
| AtomicSpec.TakeEffect | DB Monitor/trunk/include/my_atomic.h:19-35 | A pending operation may take effect with the result the present value dictates; the history stays explained. |
| LogInvariant.LiveEntriesAreUnique | DB Monitor/DBMDocument.m:731-897 | In every reachable state, under every interleaving of critical sections including overlapping cycles of one host, two entries with the same host and process ID are both dead processes. |
| LogInvariant.DeadProcessesAreDead | DB Monitor/DBMDocument.m:888-890 | In every reachable state each "Dead Process" entry has its dead flag set. |
| LogInvariant.DeadStaysDead | DB Monitor/DBMDocument.m:255-266 | Over any run an entry that survives keeps its host and creation time, its dead flag never goes back, and its process ID changes only to "Dead Process". |
| LogInvariant.UpsertOk | DB Monitor/DBMDocument.m:731-759 | Find-last-or-append keeps uniqueness. |
| PollCycle.SweepIsExact | DB Monitor/DBMDocument.m:687-898 | In any run of any steps, with cycles of a host overlapping, the host made inactive and user removals included: after every sweep of the host its live process IDs are exactly those updated since its last mark, each once, but for a failed connection the user has removed since. |
| PollCycle.SweepShowsLastReport | DB Monitor/DBMDocument.m:746-802 | Each of them shows what was written last under its process ID: text, duration and row, or text, duration and slave status, or the duration of the failure. |
| PollCycle.StepKeepsMarks | DB Monitor/DBMDocument.m:687-898 | What every possible step of any thread does to the entries of a host that are marked as updated, and to what they show. |
| PollCycle.MarkedIff | DB Monitor/DBMDocument.m:687-898 | A process ID is marked after a run iff an update of it has been ended since by neither a mark nor a user removal. |
| PollCycle.MarksArePuts | DB Monitor/DBMDocument.m:687-898 | Within the steps of the host itself, what is marked is exactly what was put since the last mark, the last update for each process ID. |
| PollCycle.CycleIsExact | DB Monitor/DBMDocument.m:370-388 | For a single cycle, whatever the log held and whatever all other threads did meanwhile: afterwards the live process IDs of the host are exactly one per row passing the INFO and TIME filter, -1 iff the status shows lag or a stopped thread, and -2 alone iff the connection failed, unless the user has removed that entry. |
| PollCycle.CycleShowsLastReport | DB Monitor/DBMDocument.m:746-802 | After a single cycle each live entry shows what was reported last under its process ID, as in SweepShowsLastReport. |
| PollCycle.SweepLeavesMarked | DB Monitor/DBMDocument.m:876-898 | The sweep leaves alive exactly the entries updated since the mark, unaltered. |
| PollCycle.ForeignStep | DB Monitor/DBMDocument.m:687-898 | A step of another host, a sort, or a refresh while the host is active changes nothing of the host but timeouts. |
| PollCycle.PutMarks | DB Monitor/DBMDocument.m:731-759 | An update adds exactly its process ID to those marked and keeps what the others show. |
| LogHistory.HistoryIsRetained | DB Monitor/DBMDocument.m:255-266 | While tracking is on, the slider is infinite and the host stays active, no run of polls and refreshes removes a dead process that has a display timeout or changes anything in it but the mark. |
| LogHistory.InactiveHostIsPurged | DB Monitor/DBMDocument.m:254-269 | After a reload has unmarked an inactive host with no poll in flight, the next refresh leaves none of its entries, whatever ran in between. |
| LogHistory.RefreshOfInactiveHost | DB Monitor/DBMDocument.m:255-269 | A refresh keeps of an inactive host exactly the entries that a cycle in flight has marked. |
| LogHistory.OthersSpareHost | DB Monitor/DBMDocument.m:454-457 | Runs of other hosts' polls and purges, refreshes and sorts never add, remove or alter an entry of an active host, timeouts apart. |
| EventLog.SweepMembers | DB Monitor/DBMDocument.m:876-898 | An entry is in the list after a sweep iff it comes from one that is not discarded. |
| LogFacts.RowUpdate | DB Monitor/DBMDocument.m:746-758 | The entry of a process after one of its rows, field by field: text, query, duration with 2147483647 read as 1, and a timeout exactly if the duration reaches the trigger, which is then the time plus the slider; the object is the one it had or a new one. |
| LogFacts.StatusUpdate | DB Monitor/DBMDocument.m:791-802 | The same for a lagging slave status: text and duration by whether it is behind, and the timeout set if the trigger is reached, otherwise as it was. |
| LogFacts.FailureUpdate | DB Monitor/DBMDocument.m:866-872 | The same for a failed connection: its text is written when the entry is new, its timeout never. |
| LogFacts.UpdateTouchesOne | DB Monitor/DBMDocument.m:733-744 | After an update the process has an entry, and all other entries are those there were. |
| LogFacts.JoinLinesReplaces | DB Monitor/DBMDocument.m:724-727 | Every carriage return with line feed in INFO becomes a space. |
| LogFacts.JoinLinesKeeps | DB Monitor/DBMDocument.m:724-727 | A text without one stays as it is. |
| LogFacts.TruncatedTowardsZero | DB Monitor/DBMDocument.m:798 | The conversion of a time difference to int rounds towards zero. |
| LogFacts.ToInt32Wraps | DB Monitor/DBMDocument.m:795 | The conversion of the seconds behind to int keeps the low 32 bits. |
| LogFacts.SweepIs | DB Monitor/DBMDocument.m:879-896 | A sweep, entry by entry: what was updated stays; of the rest of the host, what has a timeout becomes a dead process, otherwise unaltered, while tracking is on, and everything else is removed. |
| LogFacts.SweepWithoutTracking | DB Monitor/DBMDocument.m:882-886 | With tracking off nothing of the host survives that was not updated. |
| LogFacts.RefreshIs | DB Monitor/DBMDocument.m:255-269 | A refresh, entry by entry: on an active host the timeout goes iff the slider is finite and the clock is past it, and nothing else changes; of an inactive host, marked entries become dead without timeout and the others are removed. |
| LogFacts.RemovalIs | DB Monitor/DBMDocument.m:489-504 | The user can remove the entry of a failed connection or of a dead process, and nothing else. |
| LogFate.QueryBecomesHistory | DB Monitor/DBMDocument.m:882-890 | A query with a timeout that is not reported between a mark and the next sweep of its active host is, with tracking on, a dead process after the sweep, with its text, query, duration and timeout. |
| LogFate.HistoryLasts | DB Monitor/DBMDocument.m:255-266 | With any slider, a dead process with a timeout stays unaltered over any run in which its host is active, tracking is on, no refresh reads a clock past the timeout and the user does not remove it. |
| LogFate.HistoryExpires | DB Monitor/DBMDocument.m:261-265 | Once a refresh with a finite slider has read a clock past the timeout, the next sweep of the host removes the dead process, whatever runs in between. |
| LogFate.RecordStays | DB Monitor/DBMDocument.m:687-898 | Over a run that spares it an entry with a timeout keeps all it shows, and is unmarked after a mark of its host. |
| LogFate.DeadlineStands | DB Monitor/DBMDocument.m:753-757 | The deadline of a row that reaches the trigger, time plus slider, is still there after any run that spares the entry. |
| Document.DBMLogEntry.constructor | DB Monitor/DBMLogEntry.m:37-53 | A new entry has the given host and process ID, is not updated, not dead, and has no text, timeout, query or status. |
| Document.DBMLogEntry.WriteRow | DB Monitor/DBMDocument.m:746-758 | What a passing row writes, with 2147483647 read as 1 and the timeout set or cleared by the trigger. |
| Document.DBMLogEntry.WriteSlaveStatus | DB Monitor/DBMDocument.m:791-802 | What a lagging status writes; the timeout is set by the trigger and never cleared. |
| Document.DBMLogEntry.WriteFail | DB Monitor/DBMDocument.m:871-872 | What a failed connection writes. |
| Document.DBMLogEntry.Expire | DB Monitor/DBMDocument.m:255-266 | What the refresh does to one entry. |
| Document.DBMDocument.ClearUpdates | DB Monitor/DBMDocument.m:687-697 | The list afterwards is the mark step of the log: the host's entries unmarked, all else as it was. |
| Document.DBMDocument.PutRow | DB Monitor/DBMDocument.m:731-759 | One locked block is one update step of the log: the last matching entry rewritten, or a new one at the end. |
| Document.DBMDocument.PutSlaveStatus | DB Monitor/DBMDocument.m:776-803 | The same for the slave status. |
| Document.DBMDocument.UpdateMySQLFail | DB Monitor/DBMDocument.m:855-874 | The same for a failed connection; the text is written on creation only. |
| Document.DBMDocument.FindOrCreate | DB Monitor/DBMDocument.m:733-744 | Finds the last entry of the host with the process ID, or appends a new one. |
| Document.DBMDocument.DiscardMySQLDead | DB Monitor/DBMDocument.m:876-898 | The two loops together are the sweep step: discards removed in place, the other unmarked entries turned into dead processes. |
| Document.DBMDocument.RefreshEntries | DB Monitor/DBMDocument.m:254-269 | The loops over entries and dead hosts are the refresh step, with the clock read at each entry. |
| Document.DBMDocument.RemoveSelectedEntry | DB Monitor/DBMDocument.m:489-504 | The selected entry is removed only for a failed connection or a dead process; a selected row past the end raises and changes nothing. |
| Document.DBMDocument.UpdateMySQLQueries | DB Monitor/DBMDocument.m:719-763 | The rows become, in order, one update step for each row that passes the filter, with its clock reading and the deadline that follows from slider and trigger. |
| Document.DBMDocument.PollOnce | DB Monitor/DBMDocument.m:370-388 | The poll operation on the object list does exactly the steps of PollSteps, deadlines included, and these are one cycle. |
| Document.PollIsCycle | DB Monitor/DBMDocument.m:370-388 | The steps of a poll, for any answers, controls and clock, are a cycle in the sense of CycleIsExact. |
| PollLoop.AtMostOnePerReload | DB Monitor/DBMDocument.m:370-460 | Over any run the outstanding operations of a loop, with those still to be added, rise by at most one per reload. |
| PollLoop.OutstandingIsConstant | DB Monitor/DBMDocument.m:388-399 | With no cancel and no reload, self-rescheduling keeps the number of operations of each loop constant. |
| PollLoop.LastingIsConstant | DB Monitor/DBMDocument.m:388-399 | The same when cancelled operations are still around, for those that will be succeeded. |
| PollLoop.CancelSparesTheLate | DB Monitor/DBMDocument.m:390-398 | After a cancellation exactly as many of each loop go on as had passed their last test of the flag. |
| PollLoop.ReloadStarts | DB Monitor/DBMDocument.m:408-460 | When a reload has added everything and nothing was cancelled or reloaded since, the refresh loop and the loop of every host it was given go on exactly once more than had passed their last test when it came, the other loops exactly as often as that. |
| PollLoop.ReloadedHostIsPolled | DB Monitor/DBMDocument.m:444-453 | In particular every host given to a reload has a poll operation afterwards. |
| PollLoop.CancelledNeverStarts | DB Monitor/DBMDocument.m:371-372 | A loop of which nothing had passed its last test at a cancellation does not start another operation until something is reloaded. |
| PollLoop.StepConserves | DB Monitor/DBMDocument.m:356-460 | What each single step may do to these numbers. |
| TrailingSpace.SkipTrailingSpace | DB Monitor/trunk/include/m_string.h:361-385 | For every buffer, length, start address, word size 4 or 8 and byte order, the end found is that of the naive backward scan, and every read of memory lies inside the string and is a byte or an aligned word. |
| TrailingSpace.WordIsSpaces | DB Monitor/trunk/include/m_string.h:378-379 | A word read at an aligned address compares equal to SPACE_INT iff all its bytes are spaces. |
| TrailingSpace.WordBounds | DB Monitor/trunk/include/m_string.h:367-370 | The two boundaries are the first word boundary from ptr on and the last up to end. |
| TrailingSpace.WordOfSpaces | DB Monitor/trunk/include/m_string.h:378 | A word of either byte order is SPACE_INT iff every byte is a space. |
| TrailingSpace.EndIsUnique | DB Monitor/trunk/include/m_string.h:361-385 | Only one position has nothing but spaces behind it and no space before it. |
| BitTricks.RoundUpIsLeastPower | DB Monitor/trunk/include/my_bit.h:70-79 | At any width n > 0: the least power of two from v on for 1 <= v <= 2^(n-1), and 0 for v = 0 or above. |
| BitTricks.MyRoundUpToNextPower | DB Monitor/trunk/include/my_bit.h:70-79 | The five written shifts are the general smear at width 32. |
| BitTricks.SmearFills | DB Monitor/trunk/include/my_bit.h:73-77 | Smearing sets exactly the bits up to the highest one set. |
| BitTricks.MyClearHighestBit | DB Monitor/trunk/include/my_bit.h:81-90 | The written routine is the general one at width 32. |
| BitTricks.ClearHighestClearsOne | DB Monitor/trunk/include/my_bit.h:81-90 | At any width, for v > 0: 2^log2(v) is subtracted and one bit fewer is set. |
| BitTricks.ClearingReachesZero | DB Monitor/trunk/include/my_bit.h:23-90 | Clearing the highest bit repeatedly gives 0 after k steps iff k is at least the number of bits set. |
| BitTricks.CountBits | DB Monitor/trunk/include/my_bit.h:23-43 | The bytewise table sum is the number of bits set, for any number of bytes, given what the table holds. |
| BitTricks.MyCountBits | DB Monitor/trunk/include/my_bit.h:23-43 | The sum of eight table entries as written, cut to a byte, is the number of bits set in 64. |
| BitTricks.MyReverseBits | DB Monitor/trunk/include/my_bit.h:92-99 | The four table entries as written, put together in the opposite order, are the mirrored word. |
| BitTricks.ReverseIsInvolution | DB Monitor/trunk/include/my_bit.h:92-99 | Reversing twice is the identity and reversing keeps the number of bits set, for any number of bytes. |
| BitTricks.ReverseBitsMirrors | DB Monitor/trunk/include/my_bit.h:92-99 | Bit i of the result is bit n-1-i of the argument. |
| BitTricks.MyBitLog2 | DB Monitor/trunk/include/my_bit.h:16-21 | The loop computes Log2. |
| BitTricks.Log2RoundsDown | DB Monitor/trunk/include/my_bit.h:16-21 | That is the logarithm rounded down, for every v > 0. |
| BitTricks.Log2IsRoundedUpIff | DB Monitor/trunk/include/my_bit.h:11-21 | It is the smallest X with 2^X >= v, as the comment has it, iff v is 0 or 2^k for some k. |
| BitTricks.Log2OfThree | DB Monitor/trunk/include/my_bit.h:11-21 | For 3 the comment is wrong. |
| ByteOrder.LowRoundTrip | DB Monitor/trunk/include/my_global.h:1240-1312 | For any N and any integer, reading the low-byte-first image gives the value modulo 256^N. |
| ByteOrder.HighRoundTrip | DB Monitor/trunk/include/myisampack.h:42-125 | The same for the high-byte-first image. |
| ByteOrder.LowBytesReturn | DB Monitor/trunk/include/my_global.h:1240-1312 | Storing what was read gives the bytes back. |
| ByteOrder.HighIsReversedLow | DB Monitor/trunk/include/myisampack.h:84-125 | The high-byte-first image is the low-byte-first one reversed. |
| ByteOrder.StoredOrder | DB Monitor/trunk/include/myisampack.h:84-125 | Unsigned order on values is lexicographic order on their high-byte-first images. |
| ByteOrder.SignedRoundTrip | DB Monitor/trunk/include/myisampack.h:29-36 | Two's complement of N bytes gives every value of the range back. |
| ByteOrder.LowByte | DB Monitor/trunk/include/my_global.h:1284-1312 | Byte i of the low-byte-first image is the low byte of x >> 8*i, for negative x too. |
| ByteOrder.HighByte | DB Monitor/trunk/include/myisampack.h:84-125 | The same for byte n-1-i of the high-byte-first image. |
| ByteMacros.Sint3RoundTrip | DB Monitor/trunk/include/my_global.h:1242-1249 | Both sint3korr forms give back every value from -2^23 up to 2^23. |
| ByteMacros.MiUint2Korr | DB Monitor/trunk/include/myisampack.h:42-43 | The expression as written is the general high-byte-first reading of 2 bytes. |
| ByteMacros.MiUint3Korr | DB Monitor/trunk/include/myisampack.h:44-46 | The expression as written is the general high-byte-first reading of 3 bytes. |
| ByteMacros.MiUint4Korr | DB Monitor/trunk/include/myisampack.h:47-50 | The expression as written is the general high-byte-first reading of 4 bytes. |
| ByteMacros.MiUint5Korr | DB Monitor/trunk/include/myisampack.h:51-55 | The expression as written is the general high-byte-first reading of 5 bytes. |
| ByteMacros.MiUint6Korr | DB Monitor/trunk/include/myisampack.h:56-62 | The expression as written is the general high-byte-first reading of 6 bytes. |
| ByteMacros.MiUint7Korr | DB Monitor/trunk/include/myisampack.h:63-70 | The expression as written is the general high-byte-first reading of 7 bytes. |
| ByteMacros.MiUint8Korr | DB Monitor/trunk/include/myisampack.h:71-79 | The expression as written is the general high-byte-first reading of 8 bytes. |
| ByteMacros.MiSint3Korr | DB Monitor/trunk/include/myisampack.h:29-36 | The expression as written is the two's complement reading of 3 bytes, high byte first. |
| ByteMacros.Uint2Korr | DB Monitor/trunk/include/my_global.h:1255-1256 | The expression as written is the general low-byte-first reading of 2 bytes. |
| ByteMacros.Uint3Korr | DB Monitor/trunk/include/my_global.h:1257-1259 | The expression as written is the general low-byte-first reading of 3 bytes. |
| ByteMacros.Uint4Korr | DB Monitor/trunk/include/my_global.h:1260-1263 | The expression as written is the general low-byte-first reading of 4 bytes. |
| ByteMacros.Uint5Korr | DB Monitor/trunk/include/my_global.h:1264-1268 | The expression as written is the general low-byte-first reading of 5 bytes. |
| ByteMacros.Uint6Korr | DB Monitor/trunk/include/my_global.h:1269-1274 | The expression as written is the general low-byte-first reading of 6 bytes. |
| ByteMacros.Uint8Korr | DB Monitor/trunk/include/my_global.h:1275-1283 | The expression as written is the general low-byte-first reading of 8 bytes. |
| ByteMacros.Sint3Korr | DB Monitor/trunk/include/my_global.h:1242-1249 | The expression as written is the two's complement reading of 3 bytes, low byte first. |
| ByteMacros.MiInt2Store | DB Monitor/trunk/include/myisampack.h:84-86 | The bytes assigned are the general high-byte-first image. |
| ByteMacros.MiInt3Store | DB Monitor/trunk/include/myisampack.h:87-92 | The bytes assigned are the general high-byte-first image, whether unsigned long has 32 or 64 bits. |
| ByteMacros.MiInt4Store | DB Monitor/trunk/include/myisampack.h:93-97 | The bytes assigned are the general high-byte-first image, whether unsigned long has 32 or 64 bits. |
| ByteMacros.MiInt5Store | DB Monitor/trunk/include/myisampack.h:98-104 | The bytes assigned are the general high-byte-first image, whether unsigned long has 32 or 64 bits. |
| ByteMacros.MiInt6Store | DB Monitor/trunk/include/myisampack.h:105-112 | The bytes assigned are the general high-byte-first image, whether unsigned long has 32 or 64 bits. |
| ByteMacros.MiInt7Store | DB Monitor/trunk/include/myisampack.h:113-121 | The bytes assigned are the general high-byte-first image, whether unsigned long has 32 or 64 bits. |
| ByteMacros.MiInt8Store | DB Monitor/trunk/include/myisampack.h:122-125 | The bytes assigned are the general high-byte-first image, whether unsigned long has 32 or 64 bits. |
| ByteMacros.Int2Store | DB Monitor/trunk/include/my_global.h:1284-1287 | The bytes assigned are the general low-byte-first image. |
| ByteMacros.Int3Store | DB Monitor/trunk/include/my_global.h:1288-1292 | The bytes assigned are the general low-byte-first image. |
| ByteMacros.Int4Store | DB Monitor/trunk/include/my_global.h:1293-1296 | The bytes assigned are the general low-byte-first image. |
| ByteMacros.Int5Store | DB Monitor/trunk/include/my_global.h:1297-1302 | The bytes assigned are the general low-byte-first image. |
| ByteMacros.Int6Store | DB Monitor/trunk/include/my_global.h:1303-1309 | The bytes assigned are the general low-byte-first image. |
| ByteMacros.Int8Store | DB Monitor/trunk/include/my_global.h:1310-1312 | The bytes assigned are the general low-byte-first image. |
| ByteMacros.PutBytes | DB Monitor/trunk/include/myisampack.h:84-125 | The bytes are assigned in place and the rest of the buffer stays. |
| FetchSpec.QualifiedIff | DB Monitor/trunk/MysqlFetch.m:80-97 | The set of tables seen has more than one element at a column exactly when the columns up to it are not all of one table. |
| FetchSpec.NamesAreDistinctIff | DB Monitor/trunk/MysqlFetch.m:80-98 | The names are distinct iff no two columns clash: of two qualified ones, table and name agree or one table ends at a dot inside the other with the rest agreeing; of others, the written names agree. |
| FetchSpec.DistinctWithoutDots | DB Monitor/trunk/MysqlFetch.m:80-98 | Where no identifier holds a dot, the names are distinct iff no two columns agree in table, name and being qualified. |
| FetchSpec.DotsCollide | DB Monitor/trunk/MysqlFetch.m:92 | With a dot in an identifier two different columns may get one name. |
| FetchSpec.RowHoldsLast | DB Monitor/trunk/MysqlFetch.m:240-356 | Under every key of a row's dictionary stands what the last column of that name put there, and there are no other keys. |
| FetchSpec.RowsComeWholeIff | DB Monitor/trunk/MysqlFetch.m:240-356 | Every row that the server may send and that raises nothing comes through whole, each column NULL or with all its bytes, iff of no two columns that clash either can hold anything but NULL and no DATETIME column can have a value of which no date can be made. |
| FetchSpec.DateTimeIsLeftOut | DB Monitor/trunk/MysqlFetch.m:324-338 | A row with one DATETIME of which no date can be made gives an empty dictionary and no exception. |
| FetchSpec.NothingIsLostIff | DB Monitor/trunk/MysqlFetch.m:240-356 | What a column puts into a dictionary stays there, in every row that the server may send, iff of no two columns that clash either can hold anything but NULL. |
| FetchSpec.OneDictionaryPerRow | DB Monitor/trunk/MysqlFetch.m:229-360 | The results are one dictionary per row, in the order of the rows. |
| FetchSpec.BlobsAreWhole | DB Monitor/trunk/MysqlFetch.m:250-271 | Every blob with which no later column clashes is stored with all the bytes the server has, whatever its length. |
| FetchSpec.FetchesIff | DB Monitor/trunk/MysqlFetch.m:108-239 | Results come back iff every type can be bound, no library call fails, every value fits its block, and every string and time stamp can be made; a date-time that cannot be made stops nothing. |
| FetchSpec.FitsIffRoomy | DB Monitor/trunk/MysqlFetch.m:108-198 | No value the server may send in a column is written past its block iff the block is as large as the fixed size of the type. |
| FetchSpec.RoomyIff | DB Monitor/trunk/MysqlFetch.m:166-181 | That is so for all columns but FLOAT of width under 4 and DOUBLE of width under 8, whose blocks are sized by the display width. |
| FetchSpec.NarrowColumnsOverrun | DB Monitor/trunk/MysqlFetch.m:166-181 | In columns DOUBLE(5,2) and FLOAT(3,1) every value is written past its block. |
| FetchSpec.NeverOverrunsIff | DB Monitor/trunk/MysqlFetch.m:108-239 | For every list of columns: whatever rows the server sends, none is written past its block, iff a type cannot be bound, a call fails before the rows, or every column is roomy. |
| FetchBuffers.StmtFetch | DB Monitor/trunk/include/mysql_64.h:479-540 | The library delivers a row: all of a fixed-length value, as much of another as buffer_length allows, length and flags; it goes past a block iff a column overruns. |
| FetchSpec.LongBlobRaises | DB Monitor/trunk/MysqlFetch.m:200-202 | A LONG_BLOB column raises No Binding, an outcome at which, by FetchWithCommand, the buffers stay allocated. |
| FetchSpec.FirstReason | DB Monitor/trunk/MysqlFetch.m:108-222 | Before any row, the exception is that of the first type without a binding, else that of a failed bind, else that of a failed execute. |
| FetchSpec.FirstUnreadable | DB Monitor/trunk/MysqlFetch.m:229-356 | Of the rows, the first that cannot be read decides the outcome: an overrun, a failed fetch, or the first nil put into a dictionary. |
| FetchBuffers.WrittenIsRead | DB Monitor/trunk/MysqlFetch.m:108-348 | Every type is bound so that the library writes what the row loop reads, a time stamp and a decimal as text and a date as MYSQL_TIME, and of the size it reads. |
| FetchBuffers.BindAll | DB Monitor/trunk/MysqlFetch.m:59-204 | The names of all columns, and four separate blocks of the right size for each, up to the first type that raises No Binding. |
| FetchBuffers.NameOf | DB Monitor/trunk/MysqlFetch.m:82-97 | The name of one column from the tables seen before it. |
| FetchBuffers.Refetch | DB Monitor/trunk/MysqlFetch.m:254-266 | A truncated blob is read whole through a larger buffer; afterwards the heap, binding and original buffer included, is what it was, but for the truncation flag. |
| FetchBuffers.ReadColumn | DB Monitor/trunk/MysqlFetch.m:243-354 | The object of a column that was delivered is made of exactly the server's bytes, and only the blocks of that column may differ afterwards. |
| FetchBuffers.ReadRow | DB Monitor/trunk/MysqlFetch.m:240-356 | A row gives its dictionary or the exception, and every binding is as it was before. |
| FetchBuffers.ReadAll | DB Monitor/trunk/MysqlFetch.m:229-358 | The loop over the rows gives the specified results; the bindings are the original ones before every fetch. A value written past its block ends the model. |
| FetchBuffers.FreeAll | DB Monitor/trunk/MysqlFetch.m:362-368 | Frees exactly what was allocated, each block once, and every pointer freed is a live block. |
| FetchBuffers.FetchWithCommand | DB Monitor/trunk/MysqlFetch.m:59-380 | The result is the specified one for every row the server may send. Unless a value was written past its block, the heap is back to what it was iff results are returned, and no block of the caller is touched. |

## Left out

- The concurrent atomics and the operation queue are step systems on values rather than classes: memory orders weaker than sequential consistency, 8-, 16- and pointer-sized words and the spurious waiting of a mutex are not modelled.
- The dummy modes of gcc_builtins.h and rwlock.h, which are not atomic by their own account.
- The two nested tests of `ac_trie_next`'s loop condition are one method, `FollowFailures`; `trie_init`, `trie_free` and character sets are not modelled.
- Selection, detail panels and buttons in the refresh operation and in `killProcess:`; the alert and `killEnded:`; `detailList`, `updateMySQLStatistics` and rates per second. They touch nothing in `dataList`.
- Sorting at the end of a refresh is a step of its own that may permute the list in any way.
- `MysqlException` in a query or status is the absence of rows or status; other exceptions, the connection and sleeping are not modelled.
- ASCII decoding of INFO, which can fail, and a NULL HOST; INFO is a string or NULL.
- `Document` runs one thread at a time: it shows each method to be its step, and interleavings are those of the steps. `dateWithTimeIntervalSinceNow` and time differences use real numbers, and the clock is read once in each update block, where the code may read it up to three times within the block.
- Document.DBMDocument.RefreshEntries: the clock is read at each entry, but one reading of the slider, the active flags and the tracking checkbox stands for those made per entry within the one locked block; the same holds for the checkbox in DiscardMySQLDead.
- CancelSparesTheLate: says nothing of "at most one loop per host" or "cancelling stops the refresh loop", which the code does not provide.
- SkipTrailingSpace: addresses do not wrap around, and the debug assertion on `ptr` is not needed; the buffer is a value, since it is only read.
- `my_count_bits_ushort`, which indexes a table of 256 entries by 16 bits; the contents of the two tables of my_bit.h, which are defined elsewhere and enter as assumptions about bytes.
- `sint2korr`, `sint4korr`, `sint8korr` and their `mi_` forms, one-byte forms, row and file size forms, floats, and the unaligned x86 forms.
- MiInt4Store: the store macros are functions to the byte image, which `PutBytes` assigns in ascending order; the order of the single assignments, and buffers overlapping the value, are not modelled. The same holds for the other store macros.
- Conversions of fetched bytes into strings, numbers, decimals and dates: an object is its kind and the bytes it was made of.
- FetchWithCommand: begins with a prepared statement; a nil connection, preparing, closing, logging, and the width, decimals and primary key of MysqlFetchField are not modelled, nor is allocation that fails. What the program does after a value was written past its block has no meaning in C and is not modelled.
- `mysql_stmt_fetch_column` is taken to succeed, as the code does not look at its result.
- Thin SQL wrappers (`MysqlInsert`, `MysqlDelete`, `MysqlIndex`, `MysqlKill`), escaping, help, panels, Core Data, and headers that only declare: they would add easy members or have no body to model.
