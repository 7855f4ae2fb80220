# StreamModule: a Dafny model of its core

StreamModule is a C++ library of stream-processing modules. Data travels as chunks: immutable buffers, concatenations
and slices that share structure. Modules cut, parse and write such chunks, and a dispatcher with timers drives them.
This project models the parts of the library whose behaviour spans many calls, and proves what each of them promises
over all inputs, all runs and all ways of cutting the data.

| file | what it models |
|---|---|
| `Basics.dfy` | bytes, 32-bit arithmetic, concatenation |
| `LinearExtent.dfy` | extents: subranges given by offset and length, in wrapping 32-bit arithmetic |
| `Chunks.dfy` | chunks, the bytes each stands for, groups and the collapse of a slice of a slice |
| `UseTrackingVisitor.dfy` | the traversal with a dynamically scoped position and extent |
| `ChunkIterator.dfy` | the byte iterator, a fast cursor over the blocks of a traversal |
| `CharChopper.dfy` | the re-chunker that splits after a delimiter |
| `StreamFD.dfy` | the output side of a file descriptor: block list, partial writes, wake-ups |
| `TelnetStream.dfy` | the telnet grammar read off a whole string, and the byte-at-a-time machine |
| `TelnetRuns.dfy` | runs over chunks: exactly when cutting the input matters |
| `TelnetWire.dfy` | what is kept of the input, and the round trip from tokens to bytes and back |
| `TelnetParser.dfy` | the parser and the builder it drives: positions in a growing buffer instead of copies |
| `TelnetChunker.dfy` | the stream processor around them |
| `XmlStream.dfy` | the XML tokenizer as a machine, its independence of buffer borders, buffer retention |
| `XmlDocument.dfy` | trees, their printed form, and the tokenizer as the inverse of printing |
| `XmlLanguage.dfy` | exactly which texts the tokenizer reads to the end, and what it reports for them |
| `XmlLexer.dfy` | the lexer class with its two-level state and its name buffer |
| `Timer.dfy` | intervals and absolute times |
| `TimerEventTracker.dfy` | the two generations of timer heaps |
| `TimerRuns.dfy`, `TimerDeadline.dfy` | what the tracker does over whole runs |
| `TimerLimits.dfy` | exactly which events it can deliver late, early or out of order |
| `TimerOrder.dfy` | events due at the same instant: when the first one posted leaves first |
| `Dispatcher.dfy` | the event queue and its busy-poll queue |
| `DispatchFairness.dfy` | when busy-poll events are served, over any sequence of calls |
| `Negotiation.dfy` | two telnet clients that answer each other |

Two styles meet. What the library computes by changing fields step by step is a class whose methods are proved against
a function of the old state; the for-all statements are lemmas about those functions. `Chunks.Bytes` is the meaning of
a chunk that everything else is measured against; a chunk shared by several parents simply occurs several times.

## Where the code and its promises part

The model follows the code. In these places a promised property fails; the failing input is a lemma, and another lemma
says when the property does hold.

- **Dispatcher bound.** `internalevnum_ <= mainq_.size()`, asserted at UniEvent/SimpleDispatcherImp.cxx:173, fails when
  the only queued event adds a busy-poll event and no other event, because the `break` at line 164 skips the decrement
  of the loop counter. `Dispatching.RoundIsBoundedExactly` shows that this is the only case for one turn of the loop,
  `Dispatching.DispatchFailsExactly` for a whole call; `Dispatching.BoundFails` gives the smallest instance.
- **Number of events dispatched.** UniEvent/pubinclude/UniEvent/Dispatcher.h:98-103 promises a single event, or a
  certain number. For the same reason a request for one event fires two if and only if the queue is being checked for
  busy-poll events, the event adds some without asking for a stop, and then another event is there
  (`Dispatching.OneFiresTwoExactly`; `Dispatching.OneFiresTwo` is an instance). A turn of the loop fires one event more
  than it counts exactly if busy-poll events turn up while it looks for them (`Dispatching.RoundCounts`), and a call
  fires that much more than it counts (`Dispatching.DispatchCounts`).
- **Busy-poll starvation.** A turn of the loop lets a busy-poll event in if and only if it begins with the count at zero
  and finds both queues filled (`DispatchFairness.RoundMovesExactly`), so over any sequence of calls and posts
  busy-poll events stay where they are exactly if no turn begins so (`DispatchFairness.StarvedExactly`). They are
  never served while they are the only events (`DispatchFairness.PollsAloneWait`), nor while an event keeps asking to be
  posted on an empty queue (`Dispatching.StarvedByOnEmpty`).
- **Timers after two rebases.** UniEvent/TimerEventTracker.cxx:145 adds `base_diff_` where a conversion between the
  bases would subtract it, so an event that survives two rebases fires late. An event is handed over on time in every
  run if and only if it is due at most two weeks after the base under which it is posted
  (`TimerLimits.OnTimeExactly`); `TimerLimits.LateAfterTwoRebases` gives the run in which any other is late.
- **Due order across the heaps.** The comparison at UniEvent/TimerEventTracker.cxx:119 has the same slip. The events of
  one call leave in the order in which they fire if and only if the keys of the expired entries of the two heaps are
  apart by at least the distance of the bases (`TimerLimits.DeliveredInOrderExactly`);
  `TimerLimits.OutOfOrderAcrossGenerations` is a run in which they are not.
- **Equal due times.** Equal keys stay in the order of insertion (UniEvent/TimerEventTracker.cxx:90), so events posted
  under one base for one instant leave in the order of posting, through any number of rebases. That holds whatever is
  posted if and only if the base does not come back after it has moved away (`TimerOrder.FirstPostedFirstExactly`).
- **A base that steps back.** UniEvent/pubinclude/UniEvent/TimerEventTracker.h:60-62 asks for increasing `now`, but a
  `now` can increase while its system time decreases, and a rebase goes by the system time alone. A call is harmless
  if and only if it does not move the base back (`TimerLimits.NeverEarlyExactly`); otherwise an event posted just
  before it leaves early, in a run whose calls keep the documented order (`TimerLimits.EarlyAfterSteppingBack`).
- **Comparing absolute times.** `absolute_t <` is not strict when the `time` fields agree (`Timers.BeforeIsEarlier`),
  so `postExpired` turns away a `now` that equals the base (`TimerTracking.AcceptsWhen`).
- **Overlong suboptions.** The 64K limit is only looked at when a chunk ends, so how the input is cut matters exactly
  for input that is inside an overlong suboption at some place where it can be cut
  (`TelnetRuns.SlicingIndependentIff`; `TelnetWire.OverlongCutMatters` is such an input). A suboption that no border
  meets is read whatever its size (`TelnetRuns.CutRunParses`).
- **Suboptions without data.** When one is completed, the builder asserts that it has data
  (StrMod/TelnetChunker.cxx:159), and without assertions it makes a suboption from a null pointer
  (StrMod/pubinclude/StrMod/TelnetChunkerData.h:192-195). A chunk does that if and only if the grammar reads such a
  suboption in what is held and the chunk (`TelnetRuns.ParsesWithoutEmptySubExactly`); five bytes are enough
  (`TelnetWire.EmptySuboptionAborts`). The methods of the parser and the chunker return whether it has happened.
- **Chunks that complete nothing.** The assertion at StrMod/TelnetChunker.cxx:313, that there is something to hand out,
  fails if and only if the chunk has bytes, completes no element and stays within the limit
  (`TelnetRuns.QueuesNothingExactly`), as the chunk that is just an IAC (`TelnetRuns.LoneIacQueuesNothing`). The guarded
  `if` after it is modelled.
- **Chunks without bytes.** The assertion at StrMod/StreamFDModule.cxx:733 fails exactly if the chunk written has no
  bytes and is not an end of file (`StreamFDs.StreamFDModule.DoWriteFD`, and `StreamFDs.StreamFDModule.Run` over any
  sequence of operations); the model goes on as a build without assertions does, which releases the chunk.
- **Any delimiter.** StrMod/pubinclude/StrMod/CharChopper.h:68 says that the character can be anything. Bytes are
  compared with a `char`, and where that is signed splitting works for exactly the characters below 128
  (`CharChopping.SplitsAsPromisedExactly`); any other is never found (`CharChopping.NeverFound`).
- **Announcing slices.** A visitor that is to ignore chunks without used bytes (StrMod/UseTrackingVisitor.cxx:38-42)
  still announces a slice of which nothing is seen, because line 79 tests the wrong extent. That happens exactly for
  a slice of some bytes that ends before the extent begins (`UseTracking.SeenOfSliceExactly`,
  `UseTracking.UnseenSliceIsWorthwhile`).
- **Extents that wrap.** Clipping fails outside the documented domain of extents
  (`LinearExtents.SubExtentCanEscape`, `LinearExtents.SubExtentStaysInside`).
- **Remainders that wrap.** StrMod/CharChopper.cxx:191 slices the remainder of a chunk off with the length of the whole
  as its length. Clipping puts that right if and only if position and length add up to less than 2^32
  (`CharChopping.RemainderFitsExactly`); one byte after 2^31 bytes that end with the delimiter is an input for which it
  does not (`CharChopping.RemainderCanWrap`). `CharChopping.RemaindersFitExactly` says for which chunks all remainders
  are right.
- **Result of `lex`.** The comment at xml/xml/utf8/Lexer.h:42 says the opposite of what xml/utf8_Lexer.cpp:442-452
  does; the model does what the code does.

## Model

| member | source | states |
|---|---|---|
| `LinearExtents.IntersectionCovers` | StrMod/pubinclude/StrMod/LinearExtent.h:194-203 | the intersection of two extents covers exactly the indices that both cover, and it commutes |
| `LinearExtents.SubExtentSlices` | StrMod/LinearExtent.cxx:49-62 | taking a sub-extent is slicing a slice with clipping, and stays inside the sequence |
| `LinearExtents.SubExtentAssociates` | StrMod/LinearExtent.cxx:49-62 | taking sub-extents is associative on all extents in the documented domain |
| `LinearExtents.SubExtentUnwrapped` | StrMod/LinearExtent.cxx:49-62 | on that domain no addition wraps; both ends are pulled back to the end of the outer extent |
| `LinearExtents.SubExtentStaysInside` | StrMod/pubinclude/StrMod/LinearExtent.h:56-58 | outside that domain clipping fails exactly when the requested end wraps round to an index inside the outer extent |
| `LinearExtents.SubExtentCanEscape` | StrMod/LinearExtent.cxx:49-62 | a concrete extent for which it fails |
| `LinearExtents.ExtentCell.SubExtentEq` | StrMod/LinearExtent.cxx:64-85 | the in-place form computes the same extent, also when the argument is the object itself |
| `LinearExtents.ExtentCell.LengthenLeft` | StrMod/LinearExtent.cxx:87-95 | the left end moves left by the amount or stops at zero, the right end stays |
| `LinearExtents.ExtentCell.ShortenLeft` | StrMod/LinearExtent.cxx:97-106 | the right end stays and the length shrinks by the amount or to zero |
| `Chunks.LengthIsExact` | StrMod/GroupChunk.cxx:51-61 | for every well-formed chunk the length summed up in 32 bits is the number of bytes it stands for |
| `Chunks.MakeSliceSlices` | StrMod/StrSubChunk.cxx:45-71 | a new slice holds exactly the clipped bytes, its length agrees, and a slice of a slice refers to what lies beneath |
| `Chunks.SliceOfSliceCollapses` | StrMod/StrSubChunk.cxx:45-71 | collapsing a slice of a slice preserves the bytes |
| `Chunks.GroupBuilder.PushBack` | StrMod/GroupChunk.cxx:51-55 | the bytes of the group grow at the end, the cached total stays right |
| `Chunks.GroupBuilder.PushFront` | StrMod/GroupChunk.cxx:57-61 | the bytes of the group grow at the front, the cached total stays right |
| `UseTracking.ComputeUsedSelects` | StrMod/UseTrackingVisitor.cxx:117-125 | the visible part of a block, read in its own coordinates, is the window that the current extent opens on it |
| `UseTracking.UseTrackingVisitor.VisitStrChunk` | StrMod/UseTrackingVisitor.cxx:48-65 | visiting a chunk announces it with its used extent if that is not empty, emits exactly what the current extent shows of it, or skips it when everything from here on is invisible; the context is restored |
| `UseTracking.UseTrackingVisitor.VisitStrChunkUsed` | StrMod/UseTrackingVisitor.cxx:67-86 | the same for a slice, which is announced if it selects something |
| `UseTracking.SeenOfSliceExactly` | StrMod/UseTrackingVisitor.cxx:76-82 | before the end of the extent, nothing is seen of a slice if and only if it selects nothing, ends before the extent begins, or the extent is empty |
| `UseTracking.UnseenSliceIsWorthwhile` | StrMod/UseTrackingVisitor.cxx:79-82 | a concrete slice that is announced although nothing of it is seen |
| `UseTracking.UseTrackingVisitor.VisitDataBlock` | StrMod/UseTrackingVisitor.cxx:88-115 | the same for a block of data; no empty block is emitted when they are to be ignored |
| `UseTracking.UseTrackingVisitor.DoAcceptVisitor` | StrMod/UseTrackingVisitor.cxx:127-137 | traversal in a fresh scope emits the clipped bytes and restores extent, position and chunk |
| `UseTracking.UseTrackingVisitor.AcceptGroup` | StrMod/GroupChunk.cxx:63-71 | a group emits the window on the concatenation of its members |
| `UseTracking.UseTrackingVisitor.AcceptSuboption` | StrMod/TelnetChunker.cxx:394-399 | a suboption emits the window on its head, raw data and tail |
| `UseTracking.UseTrackingVisitor.StartVisit` | StrMod/UseTrackingVisitor.cxx:48-65 | for every chunk, whatever its structure, the emitted blocks spell its bytes, and none is empty when they are to be ignored |
| `ChunkIterators.Iterator.Dereference` | StrMod/pubinclude/StrMod/ChunkIterator.h:122-126 | before the end the iterator yields the byte of the whole chunk at its absolute position |
| `ChunkIterators.Iterator.MoveForward` | StrMod/pubinclude/StrMod/ChunkIterator.h:154-165 | one step forward is one step of an index that stops at the end |
| `ChunkIterators.Iterator.MoveForwardComplex` | StrMod/ChunkIterator.cxx:321-350 | the same across block borders |
| `ChunkIterators.Iterator.MoveBackward` | StrMod/pubinclude/StrMod/ChunkIterator.h:167-178 | one step back is one step of an index that stops at zero |
| `ChunkIterators.Iterator.MoveBackwardComplex` | StrMod/ChunkIterator.cxx:352-384 | the same across block borders |
| `ChunkIterators.Iterator.MoveToEnd` | StrMod/ChunkIterator.cxx:284-296 | the end position |
| `ChunkIterators.Iterator.MoveToBegin` | StrMod/ChunkIterator.cxx:298-319 | the first position, also of an empty chunk |
| `ChunkIterators.Iterator.Run` | StrMod/ChunkIterator.cxx:321-384 | any run of increments and decrements is the same run of a saturating index; position, block and offset stay consistent |
| `ChunkIterators.ConcatAt` | StrMod/ChunkIterator.cxx:321-350 | the byte at an offset of a block is the byte of the whole at the sum of the earlier lengths plus the offset |
| `ChunkIterators.StepBackUndoes` | StrMod/pubinclude/StrMod/ChunkIterator.h:154-178 | a step can be undone exactly if it was not stopped at an end |
| `ChunkIterators.DistanceLeads` | StrMod/ChunkIterator.cxx:232-282 | as many steps as the distance of one iterator from another over the same chunk says lead from the second to the first if and only if the true distance fits an `int`; the distance is zero exactly between equal iterators |
| `CharChopping.CharChopper.AddChunk` | StrMod/CharChopper.cxx:48-97 | a chunk is appended after the small buffer, which is flushed; the bytes built so far are kept |
| `CharChopping.CharChopper.Scan` | StrMod/CharChopper.cxx:113-135 | finds the first delimiter, or scans everything, and keeps a copy of the first sixteen bytes |
| `CharChopping.CharChopper.CopyToCurrent` | StrMod/CharChopper.cxx:136-171 | short stretches are appended to the small buffer, which grows within bounds |
| `CharChopping.CharChopper.TakeOver` | StrMod/CharChopper.cxx:136-183 | copied or sliced, the scanned stretch is appended to what is being built |
| `CharChopping.CharChopper.DropScanned` | StrMod/CharChopper.cxx:184-192 | what has not been scanned stays as the incoming chunk, and is a well-formed one |
| `CharChopping.RemainderFitsExactly` | StrMod/CharChopper.cxx:190-191 | the remainder sliced off any chunk is well formed if and only if the position plus the length of the chunk is representable; then it holds the rest of the bytes |
| `CharChopping.RemaindersFitExactly` | StrMod/CharChopper.cxx:184-192 | all successive remainders of a chunk are well formed if and only if no delimiter lies so far into a remainder that this sum wraps |
| `CharChopping.RemainderCanWrap` | StrMod/CharChopper.cxx:190-191 | a concrete chunk whose remainder claims bytes past its end |
| `CharChopping.CharChopper.ProcessIncoming` | StrMod/CharChopper.cxx:99-199 | keeps everything written, and ends with a piece ready or the incoming chunk used up; asks only that no remainder wraps and that the piece under construction has a representable length |
| `CharChopping.CharChopper.WriteTo` | StrMod/pubinclude/StrMod/StreamProcessor.h:121-129 | what is read, what is being built and what is still incoming always spell what was written |
| `CharChopping.CharChopper.ReadFrom` | StrMod/pubinclude/StrMod/StreamProcessor.h:136-150 | every chunk read ends with the one delimiter it holds |
| `CharChopping.SplitUnique` | StrMod/CharChopper.cxx:99-199 | there is only one way to write a string as delimited pieces and a rest without delimiter |
| `CharChopping.SplitsAsPromisedExactly` | StrMod/pubinclude/StrMod/CharChopper.h:65-70 | splitting by the `char` made of a byte is splitting by the byte, for all input, if and only if the byte is below 128 |
| `CharChopping.NeverFound` | StrMod/CharChopper.cxx:129-132 | by any other byte nothing is ever split |
| `CharChopping.NothingToReadMeansAllPiecesRead` | StrMod/CharChopper.cxx:99-199 | under every interleaving of writes and reads, when nothing is left to read exactly the pieces of the whole input have been read |
| `CharChopping.NextPieceIsReady` | StrMod/CharChopper.cxx:99-199 | a piece that waits to be read is the next one |
| `StreamFDs.BufferList.StartChunk` | StrMod/StreamFDModule.cxx:238-261 | the collected blocks spell the chunk |
| `StreamFDs.BufferList.AdvanceBy` | StrMod/StreamFDModule.cxx:319-355 | advancing drops exactly that many bytes from what the remaining blocks denote |
| `StreamFDs.StreamFDModule.WriteOnce` | StrMod/StreamFDModule.cxx:738-779 | one writev: what was accepted and what remains still spell what was given; a refusal registers for writeability or sets the write error |
| `StreamFDs.StreamFDModule.WriteAll` | StrMod/StreamFDModule.cxx:735-781 | the loop stops when everything is written or the descriptor refuses, and writes everything to a descriptor that always takes something |
| `StreamFDs.StreamFDModule.DoWriteFD` | StrMod/StreamFDModule.cxx:696-787 | a chunk that is written completely is released; an end of file closes the descriptor and sets its three errors; the write error is set if and only if something is left to write and the descriptor fails, the module waits for writeability if and only if something is left and it does not, and no other error changes; the assertion that there is something to write fails exactly on an open descriptor for a chunk without bytes that is not an end of file |
| `StreamFDs.StreamFDModule.PlugWrite` | StrMod/StreamFDModule.cxx:555-572 | a writeable plug stays so exactly if the chunk is drained and the quota of 262144 bytes is not used up; past the quota a resume event is posted; errors change only by a failing descriptor or an end of file |
| `StreamFDs.StreamFDModule.EventWrite` | StrMod/StreamFDModule.cxx:574-593 | afterwards the plug is writeable exactly if the chunk is drained and no error stands in the way; only a failing descriptor sets an error; the assertion always holds |
| `StreamFDs.StreamFDModule.EventResumeWrite` | StrMod/StreamFDModule.cxx:595-603 | afterwards the plug is writeable exactly if there is no chunk, and one resume event less is waiting |
| `StreamFDs.StreamFDModule.ResetErrorIn` | StrMod/StreamFDModule.cxx:388-440 | clearing an error other than the fatal one restarts the writing, so that no wake-up is lost |
| `StreamFDs.StreamFDModule.Run` | StrMod/StreamFDModule.cxx:555-603 | over any sequence of writes, readiness events, resumptions and errors every invariant holds, and the assertion of DoWriteFD does exactly if every chunk taken has bytes or is an end of file; without a failure, a reported error or an end of file no error appears |
| `StreamFDs.StreamFDModule.RunAndDrain` | StrMod/StreamFDModule.cxx:555-603 | after any such harmless sequence, one readiness event at which the descriptor takes everything, and the resume event if one waits, leave everything accepted, no error, and a writeable plug |
| `StreamFDs.DescriptorGotAPrefix` | StrMod/StreamFDModule.cxx:696-787 | the descriptor has got a prefix of what was given, the remaining blocks denote the rest, and a writeable plug means that nothing is left |
| `TelnetStream.RunAppend` | StrMod/TelnetParser.cxx:232-288 | reading two strings one after the other is reading their concatenation |
| `TelnetStream.CommandIsRead` | StrMod/pubinclude/StrMod/TelnetChars.h:127-128 | after a byte 255, exactly the bytes 236 to 239 and 241 to 249 are commands |
| `TelnetStream.NegotiationIsRead` | StrMod/pubinclude/StrMod/TelnetChars.h:141-141 | exactly the bytes 251 to 254 make a negotiation with the byte that follows |
| `TelnetStream.DataIsRead` | StrMod/TelnetParser.cxx:49-69 | any byte but 255 is data, and so is one 255 for each two |
| `TelnetStream.OtherPairIsRead` | StrMod/TelnetParser.cxx:95-102 | any other byte after a 255 is data together with it |
| `TelnetStream.SuboptionIsRead` | StrMod/TelnetParser.cxx:123-230 | a suboption is what lies between the bytes 255, 250 and a type, and 255, 240; a type of 255 is dropped with the two bytes before it |
| `TelnetStream.CookedByPieces` | StrMod/TelnetParser.cxx:217-223 | in cooked data a doubled 255 is one, and everything else stays, also a 255 before another byte |
| `TelnetStream.StepScans` | StrMod/TelnetParser.cxx:49-215 | one byte of the machine agrees with the grammar, whatever follows |
| `TelnetStream.RunScans` | StrMod/TelnetParser.cxx:232-288 | the machine emits what the grammar reads in the held bytes followed by the input |
| `TelnetStream.HeldIsIncomplete` | StrMod/TelnetParser.cxx:290-323 | what the machine holds back does not make up any complete element |
| `TelnetRuns.CutRunParses` | StrMod/TelnetChunker.cxx:249-323 | as long as no chunk but the last ends inside an overlong suboption, only the concatenation of the chunks decides: the run aborts exactly if the grammar reads a suboption without data there, and otherwise yields what the grammar reads, and the last suboption if that is given up |
| `TelnetRuns.ParsesWithoutEmptySubExactly` | StrMod/TelnetChunker.cxx:153-168 | a chunk completes no suboption without data if and only if the grammar reads none in what is held and the chunk |
| `TelnetRuns.QueuesNothingExactly` | StrMod/TelnetChunker.cxx:266-313 | a chunk leaves nothing to hand out if and only if it has bytes, the grammar reads no element in what is held and the chunk, and no overlong suboption is open at its end |
| `TelnetRuns.LoneIacQueuesNothing` | StrMod/TelnetChunker.cxx:313-313 | a chunk that is just an IAC leaves nothing |
| `TelnetRuns.SlicingIndependentIff` | StrMod/TelnetChunker.cxx:249-323 | all ways of cutting an input into non-empty chunks are parsed without aborting and give the same elements if and only if no proper prefix of it ends inside a suboption of more than 65536 bytes and the grammar reads no suboption without data |
| `TelnetRuns.OverlongCutDiffers` | StrMod/TelnetChunker.cxx:281-294 | a cut inside an overlong suboption changes what is read |
| `TelnetRuns.EveryCuttingReadsTheGrammar` | StrMod/TelnetChunker.cxx:249-323 | whenever no chunk ends inside an overlong suboption, whatever the sizes between the borders, the chunks yield exactly what the grammar of the "TELNET Command Structure" section of RFC 854 reads, and abort exactly if that includes a suboption without data |
| `TelnetWire.KeptIsSpelled` | StrMod/TelnetParser.cxx:49-215 | the elements read and the unfinished rest spell the input without the second IAC of each data pair and without each IAC SB 255 |
| `TelnetWire.RunConserves` | StrMod/TelnetParser.cxx:232-288 | at every point emitted tokens, data at hand and held bytes spell the kept bytes of the input |
| `TelnetWire.ChunkConserves` | StrMod/TelnetChunker.cxx:249-323 | the same across the end of a chunk; giving up an overlong suboption adds its missing end and nothing else |
| `TelnetWire.EveryRunConserves` | StrMod/TelnetChunker.cxx:249-323 | over any run, with flushes and with suboptions given up, tokens and held bytes spell what is kept of the input, with one end added for each suboption given up |
| `TelnetWire.RunOfChunksConserves` | StrMod/TelnetChunker.cxx:249-323 | if no chunk ends inside an overlong suboption, that is what is kept of the concatenation, however it was cut |
| `TelnetWire.FlushGivesUp` | StrMod/TelnetChunker.cxx:254-266 | an empty chunk passes on an unfinished suboption and drops any other unfinished element; only a suboption without data survives it |
| `TelnetWire.GivingUpCloses` | StrMod/TelnetParser.cxx:325-339 | a suboption given up on loses none of its bytes, and its raw and cooked data are those read so far |
| `TelnetWire.TailIsOpenData` | StrMod/TelnetChunker.cxx:281-294 | what is compared with the limit is the data of the open suboption, and a 255 after it that is not paired yet |
| `TelnetWire.DoubledIsClosed` | StrMod/TelnetChunker.cxx:340-392 | escaped data never contains its own terminator, and cooking undoes the escaping |
| `TelnetWire.ScanWireAll` | StrMod/TelnetChunker.cxx:394-407 | reading the serialised form of any tokens gives the tokens back |
| `TelnetWire.WireAllStaysModerate` | StrMod/TelnetChunker.cxx:281-294 | if every suboption has less than 64K of raw data, no prefix of the serialised form runs into the limit |
| `TelnetWire.SentIsReceived` | StrMod/TelnetChunker.cxx:249-323 | any tokens a sender may send, with suboptions of any size and types other than 255, serialised, cut with no border inside an overlong suboption and parsed again, are the same tokens with the same raw and cooked suboption data, unless one is without data, and then the receiver aborts |
| `TelnetWire.ModerateIsReceived` | StrMod/TelnetChunker.cxx:249-323 | with suboptions under 64K the same for every cutting |
| `TelnetWire.SentOneByOne` | StrMod/TelnetChunker.cxx:394-407 | the same for tokens of any size if each is sent as a chunk of its own |
| `TelnetWire.SuboptionRoundTrip` | StrMod/TelnetChunker.cxx:340-392 | one suboption of any type but 255 comes out as it went in, if and only if its cooked data is not empty |
| `TelnetWire.EmptySuboptionAborts` | StrMod/TelnetChunker.cxx:159-167 | the five bytes of a suboption without data make the receiver abort |
| `TelnetWire.OverlongCutMatters` | StrMod/TelnetChunker.cxx:281-294 | a concrete overlong suboption for which cutting makes a difference |
| `TelnetParsing.Builder.MakeDataPtr` | StrMod/TelnetChunker.cxx:114-127 | the chunk for a region holds exactly the bytes of the region |
| `TelnetParsing.Builder.AddDataBlock` | StrMod/TelnetChunker.cxx:129-140 | queues the region as data, unless it is empty |
| `TelnetParsing.Builder.AddSuboption` | StrMod/TelnetChunker.cxx:153-168 | queues type, raw region and cooked bytes, and aborts exactly if the region is empty |
| `TelnetParsing.Builder.AddIncoming` | StrMod/TelnetChunker.cxx:175-206 | the unparsed buffer grows by exactly the incoming bytes, whether the group is extended or a new one is made |
| `TelnetParsing.Builder.GetFromQueue` | StrMod/TelnetChunker.cxx:208-223 | hands out the oldest queued token |
| `TelnetParsing.AllRepresentSpells` | StrMod/TelnetChunker.cxx:114-168 | the chunks made for tokens hold exactly the bytes that the tokens spell |
| `TelnetParsing.TelnetParser.StateNormal` | StrMod/TelnetParser.cxx:49-55 | moves as the machine does |
| `TelnetParsing.TelnetParser.StateEscape` | StrMod/TelnetParser.cxx:57-103 | moves as the machine does, and passes on the regions that hold what the machine emits |
| `TelnetParsing.TelnetParser.StateSubNeg` | StrMod/TelnetParser.cxx:105-121 | the same for negotiations |
| `TelnetParsing.TelnetParser.StateSuboptNum` | StrMod/TelnetParser.cxx:123-158 | the same for the start of a suboption |
| `TelnetParsing.TelnetParser.StateSubopt` | StrMod/TelnetParser.cxx:160-177 | the same for suboption data; every write to the cooked buffer is in bounds |
| `TelnetParsing.TelnetParser.StateSuboptEscape` | StrMod/TelnetParser.cxx:179-230 | the same after an IAC in a suboption, where two bytes may be written; aborts exactly if a suboption without data ends |
| `TelnetParsing.TelnetParser.ProcessData` | StrMod/TelnetParser.cxx:232-288 | reading a block moves position, state and queue as the machine does, unless the machine completes a suboption without data; then it aborts |
| `TelnetParsing.TelnetParser.EndOfChunk` | StrMod/TelnetParser.cxx:290-323 | passes on pending data and keeps the unfinished element |
| `TelnetParsing.TelnetParser.Reset` | StrMod/TelnetParser.cxx:325-339 | gives up the unfinished element |
| `TelnetChunking.TelnetChunker.FlushIncoming` | StrMod/TelnetChunker.cxx:254-266 | an empty chunk moves the run by its flush step, and parser and buffer agree afterwards |
| `TelnetChunking.TelnetChunker.ParseIncoming` | StrMod/TelnetChunker.cxx:267-309 | a chunk moves the run by its step, or aborts; afterwards the parser's position is the buffer's length and the unparsed tail is at most 65536 bytes |
| `TelnetChunking.TelnetChunker.TrimBuffer` | StrMod/TelnetChunker.cxx:279-308 | trimming, regrouping or giving up keeps the unparsed region |
| `TelnetChunking.TelnetChunker.ProcessIncoming` | StrMod/TelnetChunker.cxx:249-323 | delivered and queued tokens are always those of the run over the chunks parsed; aborts exactly if it parses a chunk with which the grammar reads a suboption without data |
| `TelnetChunking.TelnetChunker.WriteTo` | StrMod/pubinclude/StrMod/StreamProcessor.h:121-129 | keeps that under writes, of any bytes |
| `TelnetChunking.TelnetChunker.ReadFrom` | StrMod/pubinclude/StrMod/StreamProcessor.h:136-150 | keeps that under reads; the chunk read represents the next token |
| `TelnetChunking.NothingIsLost` | StrMod/TelnetChunker.cxx:249-323 | at every moment, under every interleaving of writes, reads and flushes, the chunks handed out, the queue, and the unfinished element in state and buffer hold in order what is kept of the bytes parsed |
| `TelnetChunking.NothingToReadMeansAllRead` | StrMod/TelnetChunker.cxx:249-323 | when nothing is left to read, and no chunk but the last ended inside an overlong suboption, the tokens handed out are what the grammar reads in all bytes written |
| `TelnetChunking.CookedToRaw` | StrMod/TelnetChunker.cxx:340-392 | the raw form is the cooked form with every IAC doubled, computed within the bounds of the buffer; without IAC the buffer is shared |
| `XmlStream.RunAppend` | xml/utf8_Lexer.cpp:433-453 | reading two texts one after the other is reading their concatenation |
| `XmlStream.BuffersDoNotMatter` | xml/utf8_Lexer.cpp:433-453 | however a text is cut into buffers, the same events are reported at the same places |
| `XmlStream.RunStaysOrdered` | xml/utf8_Lexer.cpp:192-421 | no kept position lies in a buffer to come, and a value never starts in an earlier buffer than its attribute |
| `XmlStream.RetentionIsEnough` | xml/utf8_Lexer.cpp:442-453 | whatever follows, every position reported later lies in the buffer handed back or a newer one, and in a new one if none was handed back |
| `XmlStream.RetentionIsNeeded` | xml/utf8_Lexer.cpp:442-453 | unless the text is bad, some continuation does report the position for which the buffer was handed back |
| `XmlDocument.DocumentRoundTrip` | xml/utf8_Lexer.cpp:62-453 | any tree of elements, attributes, text and comments, with names of 1 to 256 bytes from the alphabet of the source written out byte by byte, printed and cut into buffers anywhere, is read back as exactly the tree's events, and the lexer returns to its start state |
| `XmlDocument.NameGoesOnExactly` | xml/utf8_Lexer.cpp:25-46 | a name goes on with exactly the bytes of that alphabet; any other byte ends it, and one byte too many raises an exception |
| `XmlLanguage.AcceptsExactly` | xml/utf8_Lexer.cpp:62-425 | the tokenizer reads a text to the end and is ready for more if and only if the text is a sequence of valid characters, comments, opening and closing tags, and then it reports exactly their events |
| `XmlLanguage.AcceptsBuffersExactly` | xml/utf8_Lexer.cpp:433-453 | the same through any buffers |
| `XmlDocument.ReadsNode` | xml/utf8_Lexer.cpp:62-421 | the same for one node at any place |
| `XmlDocument.NodesDelimit` | xml/utf8_Lexer.cpp:282-417 | every reported position delimits precisely the printed tag, attribute or value |
| `XmlDocument.AttrDelimits` | xml/utf8_Lexer.cpp:383-417 | the positions of an attribute delimit the whole attribute and exactly its value between the quotes |
| `XmlLexing.Lexer.AdvanceState` | xml/utf8_Lexer.cpp:62-425 | one character of the two-level machine with its name buffer is one step of the tokenizer, including the exception for a name that does not fit |
| `XmlLexing.Lexer.Lex` | xml/utf8_Lexer.cpp:433-453 | one call reports the tokenizer's events, answers whether a buffer is still needed and which, and leaves the stored state alone when it throws |
| `XmlLexing.Lexer.LexBuffers` | xml/utf8_Lexer.cpp:433-453 | one call after the other reports the events, and ends in the state, that the tokenizer has over all buffers |
| `Timers.LessIsShorter` | UniEvent/Timer.cxx:17-31 | the order of intervals is the order of their lengths, normalised or not |
| `Timers.PlusAdds` | UniEvent/pubinclude/UniEvent/Timer.h:203-214 | the sum is exact and normalised |
| `Timers.MinusIsDistance` | UniEvent/Timer.cxx:180-226 | the difference is the distance, whichever interval is longer |
| `Timers.BeforeIsEarlier` | UniEvent/Timer.cxx:51-91 | comparing absolute times compares instants, strictly exactly if the system times differ |
| `Timers.SinceIsDistance` | UniEvent/Timer.cxx:93-136 | the difference is the distance between the instants if and only if the left one reaches the system time of the right one; otherwise it is zero |
| `Timers.LaterAdds` | UniEvent/pubinclude/UniEvent/Timer.h:221-227 | adding an interval moves the instant by its length |
| `TimerTracking.KeyIsWait` | UniEvent/TimerEventTracker.cxx:85-91 | the key of an event is the time from the base to when it is due, or zero |
| `TimerTracking.AcceptsWhen` | UniEvent/TimerEventTracker.cxx:96-101 | a `now` is turned away exactly if it is earlier than the base, or is the base with nothing added |
| `TimerTracking.UpperBoundSplits` | UniEvent/TimerEventTracker.cxx:106-109 | the expired part of a heap is everything up to the key and nothing else |
| `TimerTracking.TimerEventTracker.HandOver` | UniEvent/TimerEventTracker.cxx:110-136 | the loop hands over the merge of the two expired parts, and counts exactly its events |
| `TimerTracking.TimerEventTracker.PostExpired` | UniEvent/TimerEventTracker.cxx:93-154 | refines the expiry step: refused calls change nothing, accepted ones deliver and perhaps rebase |
| `TimerTracking.TimerEventTracker.Rebase` | UniEvent/TimerEventTracker.cxx:139-152 | refines the rebase step |
| `TimerRuns.RunConserves` | UniEvent/TimerEventTracker.cxx:85-154 | in any run what was posted is what was delivered and what is still stored, as multisets |
| `TimerRuns.NeverEarly` | UniEvent/TimerEventTracker.cxx:85-154 | as long as no call moves the base back, no event is delivered before it is due, through any number of rebases |
| `TimerRuns.DeliveredIsExpired` | UniEvent/TimerEventTracker.cxx:103-138 | a call takes from each heap exactly the entries that fire by then |
| `TimerDeadlines.DeliveredExactlyWhenDue` | UniEvent/TimerEventTracker.cxx:93-154 | in any run with a steady clock, an event posted under one of the two bases in force is handed over, in every copy, if and only if it is due |
| `TimerDeadlines.NothingDueIsLeft` | UniEvent/TimerEventTracker.cxx:93-154 | after an accepted call no due event is left, unless it was due more than two weeks after the base under which it was posted |
| `TimerLimits.OnTimeExactly` | UniEvent/TimerEventTracker.cxx:139-152 | an event is handed over on time in every run with a steady clock if and only if it is due at most two weeks, 1209600 seconds of 10^9 nanoseconds, after the base under which it is posted |
| `TimerDeadlines.FiresOnTimeExactly` | UniEvent/TimerEventTracker.cxx:139-152 | an entry of the old heap fires on time if and only if it was posted under the base of that heap; any other fires late |
| `TimerLimits.LateAfterTwoRebases` | UniEvent/TimerEventTracker.cxx:145-145 | for every event due later than that, a run in which every call in the two weeks after it is due leaves it behind |
| `TimerLimits.NeverEarlyExactly` | UniEvent/TimerEventTracker.cxx:139-152 | after any run in which no call moved the base back, a further call is harmless, whatever is posted and called around it, if and only if it does not move the base back |
| `TimerLimits.EarlyAfterSteppingBack` | UniEvent/TimerEventTracker.cxx:139-152 | an instance with increasing `now` in which an event leaves early |
| `TimerDeadlines.SleepIsExact` | UniEvent/TimerEventTracker.cxx:156-205 | the proposed sleep is at most the maximum, nothing is delivered before it ends, and if it is shorter than the maximum something is delivered at its end |
| `TimerDeadlines.SleepIsUntilEarliest` | UniEvent/TimerEventTracker.cxx:156-205 | it is the smaller of the maximum and the time to the earliest entry |
| `TimerLimits.HandedOverInOrder` | UniEvent/TimerEventTracker.cxx:112-136 | events leave in the order of their keys, those of the old heap moved by the distance of the bases |
| `TimerLimits.DeliveredInOrderExactly` | UniEvent/TimerEventTracker.cxx:112-136 | the events of a call leave in the order in which they fire if and only if the expired keys of the two heaps are apart by at least the distance of the bases |
| `TimerLimits.OutOfOrderAcrossGenerations` | UniEvent/TimerEventTracker.cxx:119-119 | a concrete run in which they are not, and the order is wrong |
| `TimerOrder.FirstPostedFirst` | UniEvent/TimerEventTracker.cxx:85-154 | in any run in which a base does not come back, the events posted under it for one instant that have been handed over are the first ones posted, in the order of posting |
| `TimerOrder.HandedOverAsPosted` | UniEvent/TimerEventTracker.cxx:85-154 | as long as no call moves the base back, that holds for every base |
| `TimerOrder.AllHandedOver` | UniEvent/TimerEventTracker.cxx:85-154 | and when none of them is stored any more it is all of them |
| `TimerOrder.FirstPostedFirstExactly` | UniEvent/TimerEventTracker.cxx:139-152 | for any sequence of calls, that holds whatever is posted in between if and only if the base does not come back after it has moved away |
| `Dispatching.DispatchKeepsOrder` | UniEvent/SimpleDispatcherImp.cxx:116-246 | whatever the events do, each event fires once, in the order in which the queue was entered, and busy-poll events are let in once each and in order |
| `Dispatching.DispatchTakesIn` | UniEvent/SimpleDispatcherImp.cxx:106-114 | whatever the events that fire add has been added when a call ends: all their busy-poll events, in order, and all their events, beside the ones let in from the busy-poll queue |
| `Dispatching.StopEndsTheCall` | UniEvent/SimpleDispatcherImp.cxx:149-168 | of the reactions that a call uses up, one for each event it fires, only the last may ask for a stop, also while it counts down to an internal event; and then the call ends stopped |
| `Dispatching.DispatchGoesOn` | UniEvent/SimpleDispatcherImp.cxx:211-246 | nothing else ends a call early: it has counted all events it was asked for, or was stopped, or ran into the assertion, or nothing is left to fire |
| `Dispatching.FireNCountsExactly` | UniEvent/SimpleDispatcherImp.cxx:149-168 | the returned count is one too few exactly if busy-poll events are looked for and one of the reactions in turn adds some, with no stop asked for before; otherwise it is exact |
| `Dispatching.RoundCounts` | UniEvent/SimpleDispatcherImp.cxx:219-245 | a turn fires as many events as it counts, and one more exactly if it begins looking for busy-poll events and the reactions to come add some in time |
| `Dispatching.DispatchCounts` | UniEvent/SimpleDispatcherImp.cxx:211-246 | a call fires as many events as it counts and one more for each such turn |
| `Dispatching.OneFiresTwoExactly` | UniEvent/SimpleDispatcherImp.cxx:211-246 | a request for one event fires two if and only if no busy-poll event was waiting at count zero, the event adds some and asks for no stop, and another event is there or is added; it never fires more |
| `Dispatching.OneFiresTwo` | UniEvent/SimpleDispatcherImp.cxx:162-167 | a concrete state in which a request for one event fires two |
| `Dispatching.RoundIsBoundedExactly` | UniEvent/SimpleDispatcherImp.cxx:173-173 | a turn keeps the asserted bound if and only if it does not start with a single queued event, no busy-poll event, and a reaction that adds busy-poll events only |
| `Dispatching.LoneEventBreaksTheBound` | UniEvent/SimpleDispatcherImp.cxx:162-173 | from such a state the next turn runs into the assertion |
| `Dispatching.BoundFails` | UniEvent/SimpleDispatcherImp.cxx:162-173 | the smallest concrete instance |
| `Dispatching.DispatchFailsExactly` | UniEvent/SimpleDispatcherImp.cxx:211-246 | a call runs into the assertion if and only if one of its turns begins with a single queued event that adds busy-poll events only and asks for no stop |
| `Dispatching.DispatchIsBounded` | UniEvent/SimpleDispatcherImp.cxx:211-246 | if no event adds busy-poll events without adding an event, the assertion holds through every call |
| `Dispatching.RoundKeepsPlace` | UniEvent/SimpleDispatcherImp.cxx:191-197 | an internal event stays at index internalevnum_ - 1 until it has just fired, when the count is zero |
| `Dispatching.BusyPollIsServed` | UniEvent/SimpleDispatcherImp.cxx:189-207 | with the count at zero and events waiting, the first busy-poll event fires right after those events, whatever they post again |
| `DispatchFairness.CallsAreTurns` | UniEvent/SimpleDispatcherImp.cxx:211-267 | every sequence of dispatch calls with any counts, posts and stops is a sequence of turns, posts and flag changes |
| `DispatchFairness.LetInAfterCountDown` | UniEvent/SimpleDispatcherImp.cxx:170-246 | over any such sequence, as long as no turn finds the count at zero and the main queue empty, the first busy-poll event waits for no more events than the count says before it is let in |
| `DispatchFairness.ServedAfterOneQueue` | UniEvent/SimpleDispatcherImp.cxx:189-207 | once let in, it is the next to fire after the events that were waiting, however the rest is cut into calls and whatever is posted |
| `DispatchFairness.RoundMovesExactly` | UniEvent/SimpleDispatcherImp.cxx:176-205 | a turn lets a busy-poll event in if and only if the count is at zero and neither queue is empty; then it is the first one |
| `DispatchFairness.StarvedExactly` | UniEvent/SimpleDispatcherImp.cxx:170-246 | over any sequence of turns and posts no busy-poll event is let in if and only if no turn begins so |
| `DispatchFairness.PollsAloneWait` | UniEvent/SimpleDispatcherImp.cxx:178-226 | busy-poll events that are alone are never served: a call returns at once and changes nothing |
| `DispatchFairness.OnEmptyWaits` | UniEvent/SimpleDispatcherImp.cxx:178-188 | over any sequence of turns and posts the event to be posted on an empty queue stays as it is until a turn finds the queue empty |
| `DispatchFairness.OnEmptyFires` | UniEvent/SimpleDispatcherImp.cxx:178-188 | then it is fired, alone, and its place is free for the next one |
| `Dispatching.StarvedByOnEmpty` | UniEvent/SimpleDispatcherImp.cxx:178-188 | while the main queue is empty it waits for ever if an on-empty event re-arms itself |
| `Dispatching.SimpleDispatcher.CheckEmptyBusy` | UniEvent/SimpleDispatcherImp.cxx:170-209 | refines the check on values |
| `Dispatching.SimpleDispatcher.FireEvents` | UniEvent/SimpleDispatcherImp.cxx:149-168 | refines the firing loop, which stops at the first stop request |
| `Dispatching.SimpleDispatcher.DispatchNEvents` | UniEvent/SimpleDispatcherImp.cxx:211-246 | refines the dispatch loop, and ends |
| `Dispatching.SimpleDispatcher.DispatchEvents` | UniEvent/SimpleDispatcherImp.cxx:248-267 | the same, with the stop flag cleared; a request for no events changes nothing |
| `Dispatching.SimpleDispatcher.DispatchUntilEmpty` | UniEvent/SimpleDispatcherImp.cxx:269-283 | with finitely many events to come it ends, and unless stopped every event that entered the main queue has then fired, once and in order; busy-poll events that were not let in still wait |
| `Negotiations.AnswerMeans` | StrMod/SimpleTelnetClient.cxx:152-192 | byte by byte which message is answered and how: other offers than echo and suppress-go-ahead are refused, so is everything asked for but suppress-go-ahead, a DONT is confirmed, and nothing else is answered |
| `Negotiations.AsksTwice` | StrMod/SimpleTelnetClient.cxx:94-117 | a new client asks for suppress-go-ahead, then for echo, and then for nothing |
| `Negotiations.StepLowersRank` | StrMod/SimpleTelnetClient.cxx:139-226 | every step of two clients joined by channels lowers a rank over what is on the way, in the slots and pending |
| `Negotiations.RunsAreBounded` | StrMod/SimpleTelnetClient.cxx:139-226 | so every interleaving has finitely many steps, whatever was on the way at first |
| `Negotiations.StuckExactlyWhenSilent` | StrMod/SimpleTelnetClient.cxx:139-226 | no step is possible exactly if nothing is on the way, in a slot or pending |
| `Negotiations.EndsInSilence` | StrMod/SimpleTelnetClient.cxx:139-226 | two new clients fall silent after a number of steps bounded by what was on the way |
| `Negotiations.Outcome` | StrMod/SimpleTelnetClient.cxx:139-197 | and how often each end has then sent each message is settled by what was on the way at first, not by the interleaving |
| `Negotiations.RunKeepsAccounts` | StrMod/SimpleTelnetClient.cxx:139-226 | at any time each message that asks for an answer has got exactly one, each own request was placed once, and the user has or is about to get what is no telnet command, in order |
| `Negotiations.UsersGetTheData` | StrMod/SimpleTelnetClient.cxx:131-197 | when both ends are silent the users have got exactly the data that was on the way at first, in order |

## Left out

- Sharing of chunks and update in place of a shared group: chunks are values, and whether the unparsed buffer of the
  telnet chunker is held by anybody else is a parameter. Reference counts and memory management are not modelled.
- UseTracking.UseTrackingVisitor.VisitStrChunk: says which announcement comes first, not which ones the chunk's own
  parts add after it; getParent of the visitor is not modelled.
- UseTracking.UseTrackingVisitor.VisitStrChunkUsed: the same.
- ChunkIterators.DistanceLeads: is about values. Iterators over two chunks with the same structure count as iterators
  over one chunk; the source compares pointers.
- The iterator's `<` and its switching between chunks.
- CharChopping.CharChopper.AddChunk: is about values. StrMod/CharChopper.cxx:66-79 adopts a group that the caller
  wrote and appends to it in place, so a caller who keeps it sees it grow, and writing the same group without
  delimiter twice makes the group contain itself.
- CharChopping.CharChopper.WriteTo: asks that no remainder of the chunk wraps, and that the piece under construction
  has a length below 2^32, because a group counts its bytes in 32 bits. A `char` is taken to be signed.
- The uninitialised `incoming_is_bc_` of CharChopper: it starts as INMaybe here.
- StreamFDs.StreamFDModule.Run: a module that does not check for writing, the reading side, and the notification of
  error events are not part of it. What the descriptor does is a finite script of results; after its end the
  descriptor would block.
- StreamFDs.StreamFDModule.ResetErrorIn: does not model the restart of reading.
- TelnetChunking.TelnetChunker.WriteTo: asks that the buffer stays representable in 32 bits; what the chunker does after
  an abort is not modelled.
- The early return at StrMod/TelnetChunker.cxx:287-292, which cannot be reached because giving up always queues a
  token.
- The contents of the lexer's name buffer after an exception, and the entity substates of the lexer, which no state
  enters.
- Wrap-around of the seconds of an interval, the rounding of `difftime`, interval `==`, and the wrap-around of the
  number of posted events.
- TimerDeadlines.NothingDueIsLeft: like TimerLimits.OnTimeExactly, is about clocks that report whole seconds in the
  system time, as the library's own event loop does (UniEvent/UnixEventPoll.cxx:571); with other forms of `now` the
  bases can move by less than a week.
- Dispatcher interrupts and dispatching from inside an event; what a dispatcher does after a failed assertion.
- The data that the user of a telnet client sends, and its plug flags beyond what lets a step happen.
- RouterModule, SimpleMultiplexer, StreamSplitter, EchoModule, sockets, polling, signals, name lookup, bit sets and
  serializers: either calls into the system or simple next to what is here.
