# A model of the sysprak11 file-sharing protocol

sysprak11 is a small client-server file-sharing program in C. Clients and server
exchange lines over byte streams; every read may deliver any piece of a stream.
This project models the parts on which the rest depends, and proves what they
promise.

- **Tokenizer** (`Tokens`, `Tokenizer`, `Words`). `searchToken` finds the first token
  between separators in a bounded, NUL-terminated buffer, longest separator first.
  The buffer, the index loops and the in-place cut are imperative; the result is
  tied to a function of the bytes and of the *set* of separators, and that function
  to a description without any scan.
- **Sessions** (`Lines`, `Session`, `Protocol`, `Server`, `Client`). One read, then all
  complete lines, until a line ends the session. A whole session equals a fold over
  the lines of the byte stream, and so does not depend on how the stream was cut
  into reads. The same holds for the point where the buffer overflows.
- **Shared file list** (`Arrays`, `SharedList`, `Progress`). Any number of processes
  append under a semaphore with `SEM_UNDO` and scan without it, one byte at a time, and
  any of them may die between any two steps. Nothing wrong is ever published, and an
  append with room takes place and a scan ends whatever the others do meanwhile.
- **Wire formats** (`Decimal`, `Directory`, `FileList`, `Transfer`, `Sharing`,
  `Messages`). What one side prints, the other side reads back: file lists, from the
  directory tree to the entries in the server's array, replies, port offers and relayed
  commands.
- **Child registry and log** (`Registry`, `Logger`).

Bytes are modelled as `char`, byte strings as `string`; nothing depends on how many
different bytes there are. The kernel is nondeterministic: `Channel.Read` delivers any
non-empty piece of what is left (up to the room asked for), may be interrupted finitely
often and, on a channel that may fail, fails at any time; `Sink.Write` may be short or
fail unless the sink is reliable. An action is modelled by its return code, an arbitrary
function of everything done so far in the session. Forking is covered by reading such a
session as the history of one process: the child's actions all return 0 or less, the
parent's return a positive code and leave the data buffer alone.

## Where the code differs from what it says

The model follows the code.

- `tokenizer.h` says that `getTokenFromStream` returns 0 at the end of the stream. It also
  does so when the buffer is full, because a read of zero bytes is then asked for. The
  test for a full buffer (src/tokenizer.c:165) can never succeed. `GetTokenFromStream`
  says which of the two a 0 means: bytes stay unread exactly if those ahead fill the buffer.
- The note that the tokenizer's result "can never be < 0" (src/protocol.c:39) is right for
  buffers of equal size.
- `processCode` means to stop on REP_FATAL but has already returned (src/client.c:125-126):
  the text is shown and the session goes on.
- `recvFileList` parses a size and then stores the record without it (src/connection.c:233-248):
  an entry carries whatever the record variable held, which is either what it started with
  or the last negative number rejected. `SizesRightIff` and `PrintedSizesRightIff` say exactly
  when the stored sizes are right all the same, and `SizeIsLost` gives an input on which they
  are not.
- A name line that no size line follows still yields an entry; `PhantomIff` says that this
  happens exactly for an odd number of complete lines.
- `my_strtol` takes a line of white space for the number 0 (src/util.c:15-26), so a blank size
  line is a size and a blank port argument a port; `ParseIff` and `PortIff` say exactly what is
  taken for a number.
- `remChildProcess` looks only once at each slot, so of several entries of one process some
  can survive; `RemovalIsCompleteIff` says exactly when.
- A path whose last name ends in a carriage return, a path with a line feed or too long for
  the buffer, and a size of 2^31 or more do not survive the file list; `RoundTripIff` says
  that nothing else fails.
- A relayed command loses one carriage return at its end and everything behind a NUL, and is
  stuck if it does not fit the server's buffer; `RelayIsTransparentIff` says that these are
  the only losses.

## Model

| member | source | states |
|---|---|---|
| Tokens.LongestUnique | src/tokenizer.c:57-59 | at any position the longest matching separator is unique, so neither the order of the arguments nor duplicates nor the unstable sort can matter |
| Tokens.SearchIsCut | src/tokenizer.c:62-113 | the search result divides the buffer into leading longest separators, a token that no separator matches inside, and one longest separator or the end |
| Tokens.CutIsSearch | src/tokenizer.c:62-113 | any division of that kind is the search result: the description fixes start, length, full length and flag |
| Tokens.SearchConserves | src/tokenizer.c:81-112 | leading part, token, separator and rest add up to the old buffer; a found token is non-empty and takes at least two bytes with it |
| Tokens.SearchAfterSeparator | src/tokenizer.c:65-81 | a separator at the front shifts the result and changes nothing else |
| Tokens.StableUnderAppend | src/tokenizer.c:147-193 | if no separator occurs inside a proper prefix of another, a successful search gives the same answer whatever bytes arrive later |
| Tokens.UncleanIsUnstable | src/tokenizer.c:62-113 | for every other separator set that leaves a byte to start a token with, some buffer has its answer changed by later bytes |
| Tokens.StableIffPrefixClean | src/tokenizer.c:62-113 | answers are stable under append if and only if the separator set is clean in that sense |
| Tokens.SearchTruncated | src/tokenizer.c:62-113 | a successful search does not depend on anything behind the bytes it consumes |
| Tokens.LineEndsClean | src/protocol.c:65-66 | the two line ends are such a clean set |
| Tokens.BlanksClean | src/protocol.c:93 | so are blank and tab |
| Tokens.MentionsIffOccurs | src/tokenizer.c:228-249 | the answer of searchString is an exact substring test, although an occurrence at the front shows only in the token start |
| Tokenizer.Matches | src/tokenizer.c:70 | strncmp against the buffer decides the match and the NUL sentinel keeps it inside the buffer |
| Tokenizer.SortByLength | src/tokenizer.c:17-59 | the sort orders by falling length and loses no separator; equal lengths stay unordered |
| Tokenizer.FirstMatch | src/tokenizer.c:68-78 | the first hit in sorted order is the longest separator at the position |
| Tokenizer.SkipLeading | src/tokenizer.c:62-81 | the loop with index jumps ends behind the maximal run of leading separators |
| Tokenizer.FindSuffix | src/tokenizer.c:85-110 | the loop finds the first separator after the token and its length |
| Tokenizer.SearchToken | src/tokenizer.c:19-113 | the four results depend on the buffer content and the set of separators only |
| Tokenizer.ExtractToken | src/tokenizer.c:124-143 | fails, changing nothing, exactly for inconsistent lengths; otherwise the token is copied and the buffer keeps exactly the rest, with length bound and sentinel restored |
| Tokenizer.GetTokenFromStreamBuffer | src/tokenizer.c:212-226 | never -1 for buffers of equal size; on success token and rest are those of the search and the buffer shrinks by at least two, otherwise nothing changes |
| Tokenizer.GetTokenFromBuffer | src/tokenizer.c:195-210 | the end of the buffer ends a token too; never -1; with nothing left both buffers keep their content |
| Tokenizer.FillUntilToken | src/tokenizer.c:158-189 | the read loop stops with a token exactly if the bytes ahead hold a complete one within the buffer, and loses no byte |
| Tokenizer.GetTokenFromStream | src/tokenizer.c:147-193 | on a sound channel the result is a function of the bytes ahead: a token exactly if one is complete within what the buffer can hold, and buffered plus unread bytes lose exactly what was consumed; a 0 leaves what fits in the buffer, with bytes unread exactly if it is full |
| Tokenizer.SearchString | src/tokenizer.c:228-249 | returns 1 if and only if one of the strings occurs somewhere |
| Words.SplitIsFields | src/tokenizer.c:195-210 | repeated calls with one-byte separators yield exactly the maximal separator-free fields, an unterminated last one included |
| Words.SplitAll | src/tokenizer.c:195-210 | the calls stop with nothing but separators left |
| Buffers.Buffer.constructor | src/buffer.c:10-17 | a new buffer is empty and terminated |
| Buffers.Buffer.Flush | src/buffer.c:27-30 | flushing leaves an empty terminated buffer |
| Buffers.Buffer.ReadFrom | src/buffer.c:57-76 | appends exactly the bytes the read took from the stream, stays terminated and below capacity; zero bytes exactly at the end of the stream or with a full buffer |
| Buffers.Buffer.WriteTo | src/buffer.c:51-55 | writes a prefix of the content and empties the buffer whatever the write did |
| Buffers.Sink.WriteWrapper | src/buffer.c:37-49 | retries interrupted writes only; what it reports is what was written |
| Lines.DrainByAppend | src/protocol.c:65-70 | for any clean separator set, draining in two goes yields the tokens and the rest of draining at once |
| Lines.DrainIsLines | src/protocol.c:65-70 | a drain takes exactly the lines of the bytes: split at line feeds, one trailing carriage return dropped, empty lines dropped |
| Lines.LinesGrow | src/protocol.c:65-70 | the lines of a stream prefix are a prefix of the lines of the stream |
| Lines.ResidueIsTail | src/protocol.c:46-74 | what stays in the buffer is the part behind the line feed that completes the last line, and holds no line |
| Lines.ReadStaysBelowLimit | src/buffer.c:61-64 | no read can carry a session past the first point where the buffer is full |
| Lines.OverflowIff | src/buffer.c:57-76 | a stream overflows the buffer exactly if some proper prefix leaves exactly its capacity without a complete line |
| Lines.FullExactlyAtLimit | src/buffer.c:61-75 | before the end of the stream the buffer is full exactly at that point |
| Lines.LimitBehindLine | src/tokenizer.c:147-193 | taking a complete line off the front moves the overflow point by exactly the bytes taken |
| Session.Lookup | src/protocol.c:105-113 | the first table entry equal to the word ignoring case, or the default |
| Session.SameIffUppercase | src/protocol.c:105-113 | two words are the same ignoring case if and only if their upper-case forms are equal |
| Session.LookupIgnoresCase | src/protocol.c:105-113 | the case in which a word is typed makes no difference to the action it selects |
| Session.RunLinesAppend | src/protocol.c:65-74 | a session over two batches of lines goes on with the second where the first left it, unless the first ended it |
| Session.OnlyTheLastStops | src/protocol.c:67-67 | every call but the last one returned a positive code, and the last one did too unless it ended the session with its own code |
| Session.StoppedIsFinal | src/protocol.c:65-74 | a session that a command has ended on a prefix has the outcome of the whole stream |
| Session.Round | src/protocol.c:41-75 | one read and drain lead from the session on one prefix of the stream to the session on the next, never past the overflow point |
| Session.NoOverflowAllLines | src/protocol.c:41-75 | without overflow the outcome is the fold over all lines of the stream |
| Protocol.ActionParameters.constructor | src/protocol.c:124-135 | three buffers of one size, all empty |
| Protocol.ActionParameters.ValidateToken | src/protocol.c:105-113 | finds the first matching action or the default |
| Protocol.ActionParameters.ProcessCommand | src/protocol.c:86-103 | calls the action of the line's first word with word and remainder and returns its code, or 2 for a line of blanks; the data buffer is untouched |
| Protocol.ActionParameters.ProcessIncomingData | src/protocol.c:41-75 | one read, then the fold over the lines now complete, stopping with the first code that is not positive; without a read nothing changes |
| Server.Comfork | src/server.c:55-122 | the calls made are always those of the lines of the bytes read; the loop passes over reads, interruptions and harmless signals and ends at the first other event, with its code, or at a read that ends the session; then it has made exactly the calls of the outcome, whatever the reads and signals were, and has stopped at the overflow point or the end; enough reads end it under any events |
| Server.NamesReachTheirActions | src/server_protocol.c:44-56 | no entry of the server's table hides another: each name, in any case, selects its own action |
| Server.QuitIsLast | src/server_protocol.c:107-115 | over any stream nothing is called after a QUIT, and the session ends with 0 |
| Client.ProcessCode | src/client.c:109-132 | text is shown, a command is run under the client's table and the table for user input is back afterwards |
| Client.ReplyLine | src/client.c:159-179 | one reply line: code, class of code, text or command; a line of blanks ends with 2, a bad code with -1 |
| Client.ProcessServerReply | src/client.c:134-186 | one read, then the fold over the reply lines now complete; without bytes it goes on only after an interruption, and the end of the stream or a full buffer is -1 |
| Client.ServerBranch | src/client.c:327-355 | the main loop's server branch ends with the outcome of the bytes, whatever the reads were, and enough rounds always end it |
| Client.TakePort | src/client_protocol.c:57-68 | the port of the command's remainder, the keyword being a separator; the two orders in which the actions list the separators make no difference |
| Messages.CommandOfParts | src/protocol.c:86-103 | any division of a line into blanks, word, one blank and remainder is the one the command is read from |
| Messages.CommandSplits | src/protocol.c:86-103 | every line has such a division unless it is all blanks, and exactly then no action is called |
| Messages.ReplyIsRead | src/protocol.c:22-25 | what reply prints with one of the five codes is read back as that code with that text or command |
| Messages.BlankReply | src/client.c:164-165 | a reply line of blanks does nothing and ends with 2 |
| Messages.ReplyOfParts | src/client.c:159-179 | any other reply line, from its division into blanks, word and remainder: without one of the five codes as its word it does nothing and ends with -1; with 300 the remainder is run as a command, with the others text is shown |
| Messages.LinesOfLine | src/client.c:153-154 | a printed line in front of more bytes is read as their first line |
| Messages.OfferIsHandled | src/client.c:153-173 | a port offer loses its code and its command word and reaches the matching action with the rest |
| Messages.PortIsParsed | src/client_protocol.c:108-120 | every port is read back through the third level of tokens |
| Messages.PortIff | src/client_protocol.c:57-68 | a remainder yields a port if and only if its first field between keyword and blanks is not empty and reads as a number up to 65536, and nothing otherwise |
| Messages.JoinedFits | src/buffer.c:57-76 | lines that are each shorter than the buffer never overflow it together, however they are cut into reads |
| Messages.JoinedOutcome | src/protocol.c:41-75 | a session on any printed lines that are each shorter than the buffer handles exactly these lines, less one trailing carriage return each |
| Messages.PortHandshake | src/server_protocol.c:141-142 | any sequence of offers, over any cut into reads and for any buffer of 32 bytes or more, makes the client call the matching actions in order, each argument parsing back to the port offered |
| Messages.PassOnAction | src/stdin_protocol.c:34-42 | writes word, blank, remainder and line feed, on a failing connection a prefix of that; 1 exactly if anything was written; empties both buffers |
| Messages.ServerCommandsAreRelayed | src/stdin_protocol.c:14-27 | of the server's commands exactly HELP is one the client knows itself; all others are relayed, in any case |
| Messages.RelayedIsRead | src/stdin_protocol.c:34-42 | the server reads one line from it, with the same word and the remainder less one trailing carriage return |
| Messages.LongLineIsStuck | src/buffer.c:57-76 | a line that the buffer cannot hold with its line feed is never handled |
| Messages.RelayIsTransparentIff | src/stdin_protocol.c:34-42 | a server session on the relayed bytes calls an action with exactly the user's word and remainder if and only if the line has no NUL, the remainder does not end in a carriage return and the relayed line fits the server's buffer |
| Messages.CommandIsRelayable | src/protocol.c:86-103 | every command typed on a line without a NUL is one that the theorem about whole sessions covers |
| Messages.SameRunIff | src/stdin_protocol.c:34-42 | a run of relayed calls is the run that was typed if and only if no call made had a remainder ending in a carriage return |
| Messages.RelayedSession | src/stdin_protocol.c:34-42 | a server session on any number of relayed lines makes the calls that arrive, in order and until one ends it; it is the session that was typed under exactly that condition |
| Decimal.MyStrtol | src/util.c:15-26 | number and errno of the C string, the long cut down to an int, trailing non-blanks reported |
| Decimal.ParseOfParts | src/util.c:15-26 | white space, a sign or none, all digits that follow and a rest are read as that number, cut off at the ends of a long and then down to an int; an error for a rest that is not white space, otherwise for a number out of range |
| Decimal.ParseOfNone | src/util.c:15-26 | a text that does not start like that is read as 0, an error unless it is white space |
| Decimal.ParseIff | src/util.c:15-26 | no error if and only if the text is white space, or a numeral in white space that a long can hold; out of range if and only if it is a numeral that a long cannot hold |
| Decimal.ValueOfPlaces | src/util.c:18 | digits are worth what their places say, leading zeros included |
| Decimal.ToInt32 | src/util.c:18 | the representative of the number modulo 2^32 in the range of an int |
| Decimal.ParsePrint | src/util.c:15-26 | reading what was printed gives the number, for every number a long can hold, cut down to an int |
| Directory.ParseDirToFD | src/directoryParser.c:11-77 | writes path and size lines of the walk in order; returns 1 exactly if nothing in the tree ends the walk and no write fails, and writes nothing more after a failed write |
| Directory.WalkOkIff | src/directoryParser.c:14-76 | a walk is complete if and only if the folder opens, its listing does not break off, no visible entry fails to be looked up and the same holds of every visible folder |
| Directory.WalkIsBefore | src/directoryParser.c:24-76 | a walk that is cut short has exactly the records of the tree before its first failure |
| Directory.WalkListsExactly | src/directoryParser.c:24-71 | a complete walk lists a record if and only if it is a regular file that no hidden name lies on the way to, under its joined path |
| Directory.VisibleIff | src/directoryParser.c:26-26 | the files left out are exactly those with a dot in front of some name on the way to them |
| Directory.CutWalkListsExactly | src/directoryParser.c:24-76 | any walk, complete or not, lists exactly the visible regular files of the tree before its first failure |
| Directory.WalkListsOnce | src/directoryParser.c:24-71 | if the names in each folder are distinct and hold no separator, each such file is listed exactly once, under a path of its own |
| FileList.RecvRecord | src/connection.c:223-235 | reads the next name line and number of the bytes ahead, whatever the reads are; 0 at the end |
| FileList.StoreRecord | src/connection.c:245-257 | one append: the array has the next entry, or is full and unchanged |
| FileList.RecvFileList | src/connection.c:215-261 | stores the accepted records of the bytes ahead, those left in the buffer by the previous command included, in order, all of them exactly if the shared array has room, otherwise as many as fit; an entry carries the size left over in the record variable, not the one just read |
| Transfer.EncodedIsRead | src/connection.c:223-258 | a list of one-line paths is read record by record: a trailing carriage return is dropped and the size is cut to an int |
| Transfer.ItemsArePairs | src/connection.c:223-235 | from any bytes at all, what is read is their complete lines as far as the buffer lets them through, two by two |
| Transfer.PhantomIff | src/connection.c:223-235 | the last entry is a name without a size line if and only if the number of complete lines is odd |
| Transfer.AcceptedLinesIff | src/connection.c:235-240 | from any bytes, a name is accepted if and only if the line after it is white space or a numeral that a long can hold and that is not negative as an int, or is missing |
| Transfer.NamesAreOneLiners | src/connection.c:223-227 | from any bytes, every name the server reads is one line that fits the buffer |
| Transfer.RoundTripIff | src/connection.c:223-258 | the server understands exactly the list the client printed if and only if every path is one line without a trailing carriage return that fits the buffer and every size is below 2^31 |
| Transfer.StoredAreReceived | src/connection.c:227-252 | the stored entries carry exactly the names of the accepted records, in order, and the sender's address |
| Transfer.SizesRightIff | src/connection.c:233-248 | from any bytes, all stored sizes are the sizes read if and only if every accepted number is what the record variable still held |
| Transfer.PrintedSizesRightIff | src/connection.c:233-248 | for a printed list, if and only if every size that is not negative as an int is what the variable held at the start and no negative one came before it |
| Transfer.SizeIsLost | src/connection.c:233-248 | one file of one byte is stored with another size unless the variable happened to hold 1 |
| Transfer.TwoSizesNeverRight | src/connection.c:233-248 | two accepted files of different sizes are never both stored with their own |
| Transfer.TreeArrivesIff | src/directoryParser.c:24-71 | from the directory tree to the records read: exactly the visible regular files are understood, if and only if each of them survives |
| Sharing.NamesAreReceived | src/connection.c:227-252 | from any bytes, the stored names are the names of the accepted records, in order |
| Sharing.NamesArriveIff | src/connection.c:215-261 | the stored names are the printed paths, in order, if and only if every path is one line without a trailing carriage return that fits the buffer and every size is not negative as an int |
| Sharing.SurvivorsAreStored | src/connection.c:215-261 | a printed list whose names survive is stored entry by entry, under the sender's address, each entry with the size the record variable held at the start |
| Sharing.EntriesArriveIff | src/connection.c:215-261 | the stored entries are exactly name, size and sender of the printed records if and only if, besides, every size is what the record variable held at the start |
| Sharing.TreeIsShared | src/directoryParser.c:11-77 | both conditions hold of whatever a directory tree makes the client print |
| Sharing.ShareTree | src/client_protocol.c:136-136 | walking a tree into a connection and reading it on the other side: the shared array grows by the entries in the bytes left over and those printed, and from a fresh buffer with room for all by those of the tree under exactly these conditions |
| Arrays.AddStaysInside | src/array.c:40-63 | growth keeps every item write inside the allocation although the recorded size drifts from it |
| Arrays.DriftNeverAccumulates | src/array.c:40-71 | over every sequence of adds and removes the recorded size exceeds the allocation by at most one item |
| Arrays.DriftIsReached | src/array.c:40-53 | that bound is attained |
| Arrays.WithoutAtKeepsOthers | src/array.c:65-71 | moving the last item into the gap loses nothing but the removed item |
| Arrays.ItemArray.constructor | src/array.c:7-24 | an empty array of the requested size |
| Arrays.ItemArray.AddItem | src/array.c:40-63 | appends the item, growing a heap array; a full shared array refuses and is unchanged |
| Arrays.ItemArray.RemoveItem | src/array.c:65-71 | the last item replaces the removed one; -1 and no change for a number out of range |
| Arrays.ItemArray.GetItem | src/array.c:73-78 | the item, or nothing from the count on |
| Arrays.ItemArray.Iterate | src/array.c:80-83 | the item under the cursor, which moves on even at the end |
| Registry.AddChildProcess | src/childprocesses.c:6-14 | appends the entry |
| Registry.RemChildProcess | src/childprocesses.c:16-26 | leaves what the sweep with a moving cursor leaves |
| Registry.OthersAreKept | src/childprocesses.c:16-26 | entries of other processes all stay, each as often as before |
| Registry.RemovalIsCompleteIff | src/childprocesses.c:16-26 | all m entries of a process go if and only if none of the last m - 1 entries is one of them |
| Registry.DuplicateSurvives | src/childprocesses.c:16-26 | two adjacent entries of one process: one stays |
| Registry.DistinctRemoval | src/childprocesses.c:16-26 | with distinct pids exactly the one entry goes |
| SharedList.OneHolder | src/semaphores.c:32-46 | at most one process is between wait and signal, and the semaphore is then 0 |
| SharedList.CopyByte | src/array.c:60-60 | each byte of the copy goes into the first slot no reader may look at, and keeps the invariant |
| SharedList.Publish | src/array.c:61-61 | storing the raised count adds exactly one whole item, the writer's next one |
| SharedList.Death | src/semaphores.c:32-46 | a death at any point gives the semaphore back at once if the process had it, and keeps the invariant |
| SharedList.StepInv | src/connection.c:245-257 | every step of every process keeps the invariant and only ever adds entries |
| SharedList.AppendIsSafe | src/connection.c:245-257 | in every reachable state: the same clients with the scripts they began with, semaphore plus living holders is one, at most one holder, every published slot is its writer's whole item, every client's items are a prefix of its initial script in order, no access outside the segment |
| SharedList.PublishedStays | src/array.c:60-61 | what is published stays, unchanged and in place |
| SharedList.ScanStep | src/connection.c:128-147 | a scan without the lock changes nothing, stays inside the segment and sees whole items only |
| SharedList.ScanIsLinearizable | src/connection.c:128-147 | when a scan ends, what it has sent is the case-insensitive filter of the whole list as it stood at the test that ended it |
| SharedList.HitIff | src/connection.c:138-138 | an item matches if and only if the needle stands somewhere in its name, in whatever case, whatever lies behind the name |
| SharedList.HitsAreExact | src/connection.c:128-147 | the filter has every matching entry as often as the list, and no other |
| Progress.AppendHappens | src/array.c:40-63 | a process that finds the semaphore free and room in the array has its item published, the semaphore given back and itself outside after item size + 5 steps of its own |
| Progress.AppendIsRefused | src/array.c:54-57 | without room it returns after three steps, and the list is as before |
| Progress.InsideAppends | src/connection.c:245-257 | between any steps and deaths of the others, a process with the semaphore and room that is not killed has its item in the list next, after enough steps of its own |
| Progress.LockComesFree | src/semaphores.c:32-46 | the semaphore always comes free: its holder leaves within item size + 4 steps of its own, and a killed holder frees it at once |
| Progress.ScanCompletes | src/connection.c:128-147 | between any steps of the others, a scan that is not killed ends after enough steps of its own for the entries there are in the end, and has sent exactly the matches of a list that stood at one moment since |
| Progress.ScanHappens | src/connection.c:128-147 | left alone it ends after item size + 3 steps for each entry and two more, with exactly the matches of the list |
| Logger.CopyPipe | src/logger.c:10-34 | 1 means that the file got every byte of the pipe; in any case it got a prefix |
| Logger.StepInv | src/logger.c:63-70 | writing a message byte by byte under the semaphore keeps the pipe a sequence of closed pieces and the holder's part |
| Logger.DieInv | src/logger.c:63-70 | so does a death at any point: what a dying holder has written becomes a closed piece, whole or cut |
| Logger.LogIsWholeMessages | src/logger.c:36-72 | in every reachable state the processes and their messages are the initial ones, and the pipe consists of pieces in lock order and the holder's part: each process's whole pieces are its messages in order, and any other piece is a proper prefix of the next message of a process that has died |
| Logger.LogIsCleanIff | src/logger.c:36-72 | the log consists of whole messages only if and only if no process was killed in the middle of one |
| Logger.MessageIsLogged | src/logger.c:63-70 | a process that finds the semaphore free and is left alone has its next message in the pipe, whole, two steps after its last byte |
| Logger.InsideLogs | src/logger.c:63-70 | between any steps and deaths of the others, a process with the semaphore that is not killed completes its message as the next piece of the log, after enough steps of its own |

## Left out

- FileList.RecvFileList: one process alone; the semaphore around the append and the other processes are in `SharedList`.
- Progress.AppendHappens: that a waiting process is ever let in by `semop` is left to the kernel; a process that finds the semaphore taken waits.
- Sharing.ShareTree: the connection does not fail; a walk that is cut short has the records printed so far.
- Client.ServerBranch: asks that no action returns 0, which holds of the client's actions and console messages; at 0 the main loop would leave complete lines undrained until the next read.
- Logger.CopyPipe: that the log file is complete is stated for a reliable file and pipe; a short write ends the copy with -1, as in the code.
- What the individual server and client actions do besides returning a code (sockets, forking, console and help texts); their side effects are outside the stream they are read from.
- `main` loops apart from the client's server branch, `poll` details, sockets, signal descriptors, `src/network.c`, `src/consoler.c`, `src/ttyraw.c`: system calls and user interface.
- `advFileCopy` and `handleUpload`: their loop control reads an uninitialised variable (src/connection.c:314,398).
- `recvResult`: only its first field waits for the stream, so its result depends on the chunks.
- `src/config.c`: field assignments and address lookups.
- One `combuf` for two sources in the client's `main`: each source is modelled alone.
- malloc failures, freeing, `clearArray`, `copyBuf`, `src/sharedmem.c`, log time stamps.
- `semop` failing: the program then only logs a warning and goes on without the lock; the model assumes that it succeeds and that memory is sequentially consistent.
- errno left over from calls other than readdir at the end of `parseDirToFD`: a listing either ends cleanly or does not.
- `iswhitespace`: returns 0 on every string, so nothing depends on it.
