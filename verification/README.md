# InfiniDB: a Dafny model of its hardest logic

This project models the parts of InfiniDB whose correctness cannot be seen by reading one
function, and proves what they promise, for every input, every run or every interleaving:

- **QuickLZ level 3** (`Bytes`, `QlzTokens`, `QlzStream`, `QlzDecoder`, `QlzDecodeMachine`,
  `QlzFinder`, `QlzChoice`, `QlzCompressor`, `QlzPacket`, `QlzRuns`): the compressor and the
  decompressor as they work on buffers, with 4-byte loads and stores, against a token language with
  a meaning of its own; and what the compressor chooses, told without its hash table.
- **The chunk path of the decompression server** (`Checksum`, `ChunkFrame`): the 128-bit
  Murmur hash on 64-bit words, the chunk header, and recovery of a text.
- **Statement admission** (`StatementSlots`): the counter that limits running statements and the
  session threads around it, as a state machine over all interleavings.
- **Distributed write protocols** (`BatchInsert`, `BatchCollect`, `BatchDriver`, `PmReplies`,
  `BulkRollback`, `DdlCommit`): the batch-insert coordinator, the collection of high-water marks at
  its end and the handler that drives it, bulk rollback under a table lock, and the commit that
  precedes a DDL statement.
- **Cluster state** (`PmsAssignment`, `Failover`, `StatusTables`, `StatusMonitor`): the
  assignment of PMS slots, the standby's decision to take over, and the status tables.

Where the source updates buffers, fields or counters, the model does too: arrays, classes and
loops, each method proved against a function or predicate on values, about which the laws are
then proved.  The environment (replies, pings, DBRM answers, exceptions of calls whose bodies are
elsewhere) enters as parameters and is never restricted beyond what a row says.

`dafny verify dfyconfig.toml` checks the project.

## How it is built

*Compression.*  A text is described by tokens: literals, and matches with an offset and a length.
`Play` is the text a token sequence stands for; `Encode` is the byte stream for a sequence, in
groups of 31 flags under a control word whose bit 31 marks the end.  Three facts meet in the round
trip: the compressor writes `Encode` of a legal sequence that plays to its input; the stream reads
back to the same tokens whatever bytes follow; the decoder's fast steps (4-byte copies stepped by
three, up to four literals by table) do what the tokens say.  Which sequence the compressor writes
is settled too: `Tokenize` is a function of the text alone, in which the token at a position is a
copy from the best of the sixteen earlier positions filed last under its hash (fewer just after the
8-bit counter has wrapped) or a literal, and `GivesUp` says when the gain is too small.  The table
of slots and counters is proved to lead to just that, whatever it held before.  Some predicates are written as
`forall k {:trigger Unseal(k)} :: Unseal(k) ==> ...`; that is the plain predicate, with its
definition out of the verifier's sight until `assert Unseal(0)` (or `Opened(0)`, `Shown(0)`,
`Disclosed(0)`).

*Protocols.*  The batch-insert coordinator, the rollback and the DDL path read replies from a
sequence in their order of arrival; a sequence that runs out means that the code is still
waiting, and the outcome says so.  The number of connections is a parameter of its own wherever the
code asks for it again, as the collection of marks does before every read.  "All PMs" are the PMs
connected, because that is what the code counts.  The admission model has one step for each
stretch of code between two points at which another thread can come in: calls before the lock, the
critical sections, waking by notification and waking spuriously, and each move of the session
loop, including an exception from anywhere.

## What does not hold as one might expect

The model follows the code.  Where a property one would expect fails, a lemma gives a concrete
input and another says exactly when it does hold.

- *A package can be lost in batch insert.*  It leaves the queue before it is written, so a missing
  connection or a failing read drops it (`PackageLost`, `SendNextConserves`, `RunConserves`).
- *High-water marks can be set for some PMs only, and the loop that collects them can go on for
  ever.*  A connection lost during the collection lowers the count the loop compares with
  (writeengine/client/we_clients.cpp:333-360): if the loop sees that before it reads on, it stops
  short and passes on what it has (`SomeMarksSet`, `AllMarksExactly`); if it has read the lost
  connection's empty message first, the two numbers never meet again (`LoopGoesOn`,
  `MissedForGood`, `FinishExactly`).
- *Errors at the end of a batch are not reported*: the answer is decided before the end-of-batch
  replies are read (`EndNotReported`, `EndErrorHidden`, `HiddenExactly`).  And a refused table lock
  leaves its error in the session's coordinator, where the next statement finds it
  (`RefusedLockStays`, `SingleAnswer`).
- *A cleanup error can keep the table lock while `lockReleased` says otherwise.*  The first cleanup
  error removes the reply queue, and reading from a queue that is gone throws
  (writeengine/client/we_clients.cpp:395-427; `CleanupErrorKeepsLock`, `ReleaseExactly`,
  `LockReleasedTells`).
- *A repetition is not always used.*  The counter of recorded positions is one byte: when it passes
  zero the finder has nothing to copy from, so in a run of equal bytes three positions in 256 are
  literals (`RunChosen`); and only the longest of the candidates is tested for its distance
  (`PickMeans`).
- *The answer to a single package is not always read*: without a connection its code is not looked
  at, and the client is told of success (`SingleAnswer`).
- *Two mated modules can both become active*, when a third module of the type goes down or an
  unlisted one is reported down (`TwoActive`, `OneActiveExactly`).
- *The PMS loop does not end* when no usable address is on a NIC number from 1 to the maximum
  (`PmsAssignment.LoopGoesOn`, `EndsExactly`).
- *A partial outage counts over the whole watch*: the two rounds that a failover needs may lie in
  different outages (`PartialNotConsecutive`).  A failover while `ActivePmFailoverDisabled` is set
  never happens, although a comment announces one after five rounds (`LeavesGuarded`).
- *Header lengths are believed.*  The length test of a framed chunk is made on 32-bit numbers: nine
  bytes pass it with a stored length of nearly four gigabytes (`LengthWraps`), and the bytes to be
  checksummed lie inside a chunk that passes exactly when the sum does not wrap
  (`LengthTestExactly`).  A stored packet's size is not compared with the packet at all
  (`StoredOverruns`, `StoredInside`).  `Trusted` and `Fits` ask for these conditions, and that the
  length a compressed packet states and its text fit the buffers.

## Model

| member | source | states |
|---|---|---|
| `QlzTokens.CopyBack` | decomsvr/quicklz.c:202-222 | a forward byte copy may read what it has just written: the result keeps its prefix and every new byte equals the one `offset` before it |
| `QlzTokens.CopyBackUnique` | decomsvr/quicklz.c:202-222 | those facts determine the result |
| `QlzTokens.MatchCodeInverse` | decomsvr/quicklz.c:436-475 | each of the five match forms is read back as the same offset, length and width whatever bits follow the code |
| `QlzTokens.MatchCodeValues` | decomsvr/quicklz.c:439-469 | one code of each form, as a number |
| `QlzTokens.ReadMatchAt` | decomsvr/quicklz.c:630-664 | a match code standing anywhere in a buffer is decoded exactly, whatever bytes follow |
| `QlzTokens.PlayLength` | decomsvr/quicklz.c:667-673 | a legal token sequence adds exactly the sum of its lengths |
| `QlzStream.WordMarked` | decomsvr/quicklz.c:273-285 | a full group's control word is its 31 flags with the marker in bit 31 |
| `QlzStream.WordPop` | decomsvr/quicklz.c:572-596 | while flags remain the word is not 1, its low bit is the next flag, and shifting gives the word of the remaining flags |
| `QlzStream.EncodeConcat` | decomsvr/quicklz.c:273-285 | complete groups may be written ahead of the rest of the stream |
| `QlzStream.EncodeBound` | decomsvr/quicklz.c:508-546 | a stream is no longer than its text plus four bytes for each started group of 31 tokens |
| `QlzStream.EncodeShort` | decomsvr/quicklz.c:439-469 | whatever they stand for, tokens take at most four bytes each, and four for each started group |
| `QlzStream.ParseGroup` | decomsvr/quicklz.c:572-662 | one group, full or partly filled, reads back to its tokens |
| `QlzStream.ParseEncode` | decomsvr/quicklz.c:572-662 | the codec law: any sequence of literals and encodable matches parses back to itself and to its exact end, wherever it lies and whatever follows |
| `QlzDecoder.Decode` | decomsvr/quicklz.c:552-727 | on any bytes the decoder terminates and yields nothing or exactly the declared number of bytes |
| `QlzDecoder.MatchStepExactly` | decomsvr/quicklz.c:582-682 | a match is taken if and only if its offset is at least three and inside the produced text and its copy ends four bytes before the end; the text then continues with the bytes that far back, and the cursor moves by the width of the code |
| `QlzDecoder.TakeLits` | decomsvr/quicklz.c:685-698 | literals taken one flag at a time: at least one when the flag is clear, at most as many as asked for |
| `QlzDecoder.MarkedLength` | decomsvr/quicklz.c:572-580 | a marked control word holds 31 flags |
| `QlzDecoder.LiteralRun` | decomsvr/quicklz.c:685-698 | taking several literals at once keeps the decoder in step with the token stream |
| `QlzDecoder.PendingStep` | decomsvr/quicklz.c:567-682 | at a loop head with text still owed, the next token is there, is legal, and reading it leaves the rest owed |
| `QlzDecoder.DecodeReads` | decomsvr/quicklz.c:552-727 | on a stream that holds a legal token sequence for a text the decoder produces exactly that text |
| `QlzDecoder.TailExactly` | decomsvr/quicklz.c:700-722 | the closing bytes are decoded if and only if the last of them, counting the control words skipped on the way, lies inside the packet |
| `QlzDecoder.TailBytes` | decomsvr/quicklz.c:700-722 | each of them is the byte at its place |
| `QlzDecodeMachine.CopyUp` | decomsvr/quicklz.c:202-222 | 4-byte copies stepped by three equal the byte copy on the first n bytes for any offset of at least three, and overwrite at most three bytes beyond |
| `QlzDecodeMachine.BitlutStep` | decomsvr/quicklz.c:561 | the table step equals taking up to four flags one at a time: same bytes, same cursor, same word |
| `QlzDecodeMachine.Copy4` | decomsvr/quicklz.c:688-692 | of a 4-byte store the first n bytes count, and nothing past four changes |
| `QlzDecodeMachine.TakeMatch` | decomsvr/quicklz.c:630-682 | one back reference in the buffer does what the value-level decoder does, or fails when it does; nothing past the declared size is written |
| `QlzDecodeMachine.TakeLiterals` | decomsvr/quicklz.c:685-698 | up to four literals at once keep the result owed by the value-level decoder; nothing past the declared size is written |
| `QlzDecodeMachine.CopyTail` | decomsvr/quicklz.c:700-722 | the closing literals, with skipped control words, equal the value-level tail |
| `QlzDecodeMachine.DecompressCore` | decomsvr/quicklz.c:552-727 | for any bytes: returns the size with the decoded text in the buffer, or 0; every read is inside the packet, and nothing past the declared size is written |
| `QlzFinder.SameRow` | decomsvr/quicklz.c:90-97 | positions that begin with the same three bytes have the same hash, so a usable match is looked for in the right row |
| `QlzFinder.HashBits` | decomsvr/quicklz.c:90-97 | bit i of the hash is bit i exclusive-or bit i+12 of the word |
| `QlzFinder.ScoreMeans` | decomsvr/quicklz.c:369-405 | a position is worth something if and only if it lies three bytes back or more and its three bytes agree, and then the bytes that agree up to the cap |
| `QlzFinder.CommonIs` | decomsvr/quicklz.c:384-405 | a length at which two positions agree and then differ, or reach the cap, is the number of agreeing bytes |
| `QlzFinder.Table.Reset` | decomsvr/quicklz.c:64-75 | all counters are zero, so no slot is usable |
| `QlzFinder.Table.Insert` | decomsvr/quicklz.c:419-421 | exactly one slot and one 8-bit wrapping counter change, and every usable slot still points to an earlier position |
| `QlzFinder.Table.InsertRun` | decomsvr/quicklz.c:429-434 | the positions inside a match are recorded in order, each under its own hash; usable slots stay before the next position |
| `QlzFinder.BestStep` | decomsvr/quicklz.c:394-417 | comparing one more slot keeps the best so far: longest, then latest |
| `QlzFinder.Extend` | decomsvr/quicklz.c:384-389 | the extension loop computes the number of agreeing bytes within the cap |
| `QlzFinder.ProbeFirst` | decomsvr/quicklz.c:381-393 | the first slot, with its early fourth-byte comparison, is scored like any other |
| `QlzFinder.Probe` | decomsvr/quicklz.c:396-405 | another slot's score is the number of agreeing bytes if at least three agree and it lies far enough back |
| `QlzFinder.FindMatch` | decomsvr/quicklz.c:369-418 | the result is the best of the usable slots, whatever the unusable ones hold, and no byte outside the text is read |
| `QlzFinder.Choose` | decomsvr/quicklz.c:369-425 | a match that is used equals the bytes it replaces, has an offset of at least three, and ends four bytes before the end |
| `QlzFinder.Search` | decomsvr/quicklz.c:369-434 | search and recording together: the best that the table offers, when it is used, and the exact new table contents |
| `QlzChoice.FiledMeans` | decomsvr/quicklz.c:419-434 | the positions filed under a hash are those before with that hash |
| `QlzChoice.KnowsStep` | decomsvr/quicklz.c:419-421 | recording a position keeps every slot and every wrapping counter what the filed positions say |
| `QlzChoice.KnowsRun` | decomsvr/quicklz.c:429-434 | so does recording the positions inside a match |
| `QlzChoice.SlotsHoldLatest` | decomsvr/quicklz.c:379-396 | the usable slots of a row hold exactly the last sixteen positions filed, or the last c when the counter stands at c below sixteen |
| `QlzChoice.LongestBest` | decomsvr/quicklz.c:394-417 | of positions in order, the choice is the one worth most and the latest of those |
| `QlzChoice.PickMeans` | decomsvr/quicklz.c:369-425 | the token at a position is a copy if and only if the best candidate agrees in three bytes and lies less than 131071 back, and then of its offset and length; otherwise the literal |
| `QlzChoice.SearchPicks` | decomsvr/quicklz.c:369-425 | searching the table decides on that token |
| `QlzChoice.SearchKnown` | decomsvr/quicklz.c:369-434 | the finder decides on the token of the text at src and leaves a table that knows every position the token covers |
| `QlzChoice.TokenizeMeans` | decomsvr/quicklz.c:271-546 | the tokens of a text are in code range and cover it |
| `QlzChoice.PoorExactly` | decomsvr/quicklz.c:276-277 | the test at a full control word decides on the tokens so far: past the middle, and more than 31/32 of the bytes they stand for |
| `QlzChoice.WorthThroughout` | decomsvr/quicklz.c:271-285 | when the main loop has ended without giving up, no test of the text makes it give up |
| `QlzCompressor.FastWrite` | decomsvr/quicklz.c:131-174 | the low n bytes stand little-endian at p, and no byte outside p..p+4 changes |
| `QlzCompressor.EmitMatch` | decomsvr/quicklz.c:439-469 | the code of the match stands in the buffer and the cursor moves by its width |
| `QlzCompressor.FlushGroup` | decomsvr/quicklz.c:279-283 | a full group becomes complete, room for the next control word is kept, and bytes outside are untouched |
| `QlzCompressor.EncodeLiteral` | decomsvr/quicklz.c:471-475 | the literal chosen for the text at src stands in the buffer and covers one byte more |
| `QlzCompressor.EncodeMatch` | decomsvr/quicklz.c:436-475 | the match chosen for the text at src stands in the buffer and covers its bytes |
| `QlzCompressor.NextToken` | decomsvr/quicklz.c:369-475 | an iteration writes the token of the text at src, a match whenever that is one, and the table then knows every position before the next |
| `QlzCompressor.NextGroup` | decomsvr/quicklz.c:273-285 | gives up exactly when past the middle the output exceeds 31/32 of the input read, which is then true of the text; otherwise a new group is started |
| `QlzCompressor.OutputBound` | decomsvr/quicklz.c:271-285 | while compression goes on, the output, with the word still to be written, is at most size plus 128 |
| `QlzCompressor.MainLoop` | decomsvr/quicklz.c:271-507 | every iteration keeps buffer and table in agreement with the tokens of the text; gives up only if the text says so; all writes, also before giving up, lie below size plus 391 after the header |
| `QlzCompressor.Settle` | decomsvr/quicklz.c:543-546 | shifting a partly filled word gives the control word the reader expects |
| `QlzCompressor.CloseText` | decomsvr/quicklz.c:508-546 | the last literals and the last word complete a stream of exactly the tokens of the text, which stand for the whole of it |
| `QlzCompressor.CompressCore` | decomsvr/quicklz.c:255-550 | 0 if and only if the text makes it give up, else the length (at least 9, at most size plus 178) of the stream of exactly the tokens of the text |
| `QlzPacket.Decompress` | decomsvr/quicklz.c:809-847 | for any packet whose header lengths lie within the buffers: the text and its size, or 0; nothing past the declared size is written |
| `QlzPacket.SmallStream` | decomsvr/quicklz.c:738-741 | a text under 216 bytes compresses to a total that fits the one-byte header field |
| `QlzPacket.StreamDecodes` | decomsvr/quicklz.c:552-727 | a stream written by the compressor decodes to its text |
| `QlzPacket.WriteHeader` | decomsvr/quicklz.c:786-801 | the header functions read back the flags, the packet length and the text length, in both field widths |
| `QlzPacket.HeaderFields` | decomsvr/quicklz.c:177-199 | which bytes of a header are read as which length, in both field widths |
| `QlzPacket.StoredPacket` | decomsvr/quicklz.c:752-757 | a text stored as it is makes a packet that decompresses to it |
| `QlzPacket.CompressedPacket` | decomsvr/quicklz.c:747-801 | a header before a stream for the text makes a packet that decompresses to it |
| `QlzPacket.WriteBody` | decomsvr/quicklz.c:747-763 | the stream of the tokens of the text, or the text itself exactly if they gain too little; nothing past size plus 400 is written |
| `QlzPacket.Compress` | decomsvr/quicklz.c:729-807 | refuses exactly the empty text and one over 0xffffffff-400; otherwise a packet of at most size plus 187 bytes that states its own length and the text's and decompresses to the text; it holds the stream of the tokens of the text and no more, or the text itself exactly if they gain too little, whatever the table held before; one-byte fields exactly below 216 bytes; all writes lie below size plus 400 |
| `QlzPacket.PacketExtended` | decomsvr/quicklz.c:177-199 | bytes after a packet do not matter |
| `QlzPacket.StoredInside` | decomsvr/quicklz.c:817-825 | the bytes a stored packet has copied lie inside it if and only if header and size make no more than its length |
| `QlzPacket.StoredOverruns` | decomsvr/quicklz.c:817-825 | nine bytes that state their own length and claim a text of 200 |
| `QlzPacket.RoundTrip` | decomsvr/quicklz.c:729-847 | compressing and decompressing gives back the text and its size, for every text of 1 to 0xffffffff-400 bytes |
| `QlzRuns.RunChosen` | decomsvr/quicklz.c:369-475 | in a run of equal bytes every token is a copy from three bytes back, as long as a match may be, except where the counter has just wrapped and at the end |
| `QlzRuns.RunStarts` | decomsvr/quicklz.c:271-546 | a run of 14 bytes or more starts with three literals and a match; up to 262 bytes take eight tokens |
| `QlzRuns.RunLength` | decomsvr/quicklz.c:271-546 | n equal bytes take at most 2(n/256)+13 tokens |
| `QlzRuns.RunGoesOn` | decomsvr/quicklz.c:276-277 | a run is never given up |
| `QlzRuns.RunShort` | decomsvr/quicklz.c:729-807 | the packet for n equal bytes is compressed and has at most 67+9(n/256) bytes |
| `QlzRuns.RunBytes` | decomsvr/quicklz.c:255-550 | the stream for 22 equal bytes, byte by byte |
| `QlzRuns.RunPacket` | decomsvr/quicklz.c:729-807 | the packet for 22 equal bytes, byte by byte |
| `Checksum.FmixBijective` | decomsvr/server.cpp:450-459 | the final mixer is a bijection on 64-bit words |
| `Checksum.StepInvertible` | decomsvr/server.cpp:483-504 | a body step can be undone, and two states reveal the block between them |
| `Checksum.StepOnto` | decomsvr/server.cpp:483-504 | every state is reached by a step with any given block |
| `Checksum.FinalizeInvertible` | decomsvr/server.cpp:543-553 | finalization loses nothing |
| `Checksum.LengthsApart` | decomsvr/server.cpp:543-553 | two lengths never take one state to the same end |
| `Checksum.PaddingShows` | decomsvr/server.cpp:466-557 | a buffer padded with zeros inside its last block ends in a different state, so all-zero buffers of different lengths below 16 do |
| `Checksum.DigestOfZero` | decomsvr/server.cpp:466-557 | the digest of a single zero byte |
| `Checksum.DigestOfSample` | decomsvr/server.cpp:466-557 | the digest of 31 bytes, one block and the longest tail |
| `Checksum.TailWordsApart` | decomsvr/server.cpp:509-538 | different tail words that the length makes use of give different states |
| `Checksum.BodyDiffers` | decomsvr/server.cpp:483-504 | word streams that differ in one block have different states after any number of blocks, for every reversible step |
| `Checksum.MurmurReversible` | decomsvr/server.cpp:466-557 | the steps of this hash are reversible |
| `Checksum.OneBlockShows` | decomsvr/server.cpp:466-557 | buffers of any equal length, with or without a tail, that differ in one 16-byte block end in different 128-bit states |
| `Checksum.TailWords` | decomsvr/server.cpp:509-538 | the fall-through cases gather the tail bytes little-endian into two words |
| `Checksum.Hash` | decomsvr/server.cpp:466-557 | the loop over blocks, the tail and finalization return the first half of the digest |
| `ChunkFrame.UncompressBlock` | decomsvr/server.cpp:559-607 | return code, length and text of any chunk, framed or bare; a rejected frame leaves the output buffer as it was |
| `ChunkFrame.CodesExactly` | decomsvr/server.cpp:573-607 | which chunk is bad input, which has the wrong checksum, which does not decompress, and which gives its text |
| `ChunkFrame.SumOfZero` | decomsvr/server.cpp:590-594 | the stored checksum is the low half of the first half of the digest, here of a single zero byte |
| `ChunkFrame.FramedRecovered` | decomsvr/server.cpp:559-607 | a framed packet gives back its text, if the stored checksum is right or the magic does not ask for it |
| `ChunkFrame.WrongSumRefused` | decomsvr/server.cpp:590-594 | any other stored checksum is refused |
| `ChunkFrame.BareRecovered` | decomsvr/server.cpp:598-606 | a packet without a frame is never taken for a framed one and gives back its text |
| `ChunkFrame.LengthTestExactly` | decomsvr/server.cpp:584-591 | of a chunk that passes the length test, the bytes to be checksummed lie inside if and only if the stored length plus nine does not wrap |
| `ChunkFrame.LengthWraps` | decomsvr/server.cpp:584-591 | nine bytes with a stored length of 0xfffffff8 pass the test |
| `ChunkFrame.Recover` | decomsvr/server.cpp:559-607 | compress, frame with the checksum, uncompress: every text that fits the buffer comes back |
| `StatementSlots.ActiveStatementCounter.Enter` | exemgr/activestatementcounter.cpp:29-44 | from the lock to admission or the next wait, `incr` is the monitor's step |
| `StatementSlots.ActiveStatementCounter.Exit` | exemgr/activestatementcounter.cpp:46-58 | `decr` under the lock is the monitor's step and says whether it notifies |
| `StatementSlots.CountAfterPut` | exemgr/activestatementcounter.cpp:29-58 | how the number of threads in a state changes when one thread moves |
| `StatementSlots.LockKeeps` | exemgr/activestatementcounter.cpp:34-43 | taking the mutex in `incr`, first or after a wait, notified or not, keeps the invariant |
| `StatementSlots.UnlockKeeps` | exemgr/activestatementcounter.cpp:52-57 | giving a slot back and notifying one sleeper keeps the invariant |
| `StatementSlots.MoveKeeps` | exemgr/main.cpp:518-1107 | every step of the session loop, and calling `incr` or `decr` from it, keeps the invariant |
| `StatementSlots.RunKeeps` | exemgr/main.cpp:518-1107 | so does every run |
| `StatementSlots.SlotsAreSafe` | exemgr/main.cpp:518-1107 | in every state of every interleaving the count is the number of threads holding a slot and at most the limit; a thread asking for a slot holds none; a session that is over, by any exit, holds none; when all are over the count is zero |
| `StatementSlots.NoLostWakeup` | exemgr/activestatementcounter.cpp:29-58 | a free slot with a sleeper left means that some waiter is notified and is admitted as soon as it takes the mutex, even with barging and spurious wake-ups |
| `StatementSlots.SleepersMeanFull` | exemgr/activestatementcounter.cpp:34-43 | with no call under way, a sleeper means that all slots are held |
| `StatementSlots.NeverStuck` | exemgr/main.cpp:518-1107 | in every reachable state with a session not over, some thread can take a step that is no exception, no spurious wake-up and no move to the same place |
| `StatementSlots.AllCanFinish` | exemgr/main.cpp:518-1107 | from every reachable state all sessions can still be brought to their end without an exception, and then no slot is taken and nobody waits |
| `BatchInsert.SendNextConserves` | dmlproc/batchinsertprocessor.cpp:242-303 | what is written, in hand and queued is unchanged if and only if the send does not lose its package, that is, unless the PM is not connected when it is to be written or reading throws while it waits; then exactly the head of the queue is lost; and exactly when it is still waiting the package is in hand |
| `BatchInsert.SendFirstConserves` | dmlproc/batchinsertprocessor.cpp:212-240 | the same for the only package of a statement |
| `BatchInsert.RunConserves` | dmlproc/batchinsertprocessor.cpp:175-303 | over any run, with any answers and failures, what was written followed by what is queued is what was handed in, in order, if and only if every send was kept |
| `BatchInsert.FirstLikeNext` | dmlproc/batchinsertprocessor.cpp:212-240 | on a free PM the single-package send does what the general one does, so the laws of runs cover it |
| `BatchInsert.PackageLost` | dmlproc/batchinsertprocessor.cpp:254-262 | a connection missing after the PM was chosen loses the package |
| `BatchInsert.AwaitFinds` | dmlproc/batchinsertprocessor.cpp:265-295 | the wait for a busy PM ends, whatever the order of the outstanding answers, and the states still match what is unread |
| `BatchInsert.AwaitMeans` | dmlproc/batchinsertprocessor.cpp:265-295 | whatever arrives: the wait reads on over other PMs' good answers only; the error is the code of its last read if that brought one, else as before; a PM is busy afterwards exactly if it was and has not answered |
| `BatchInsert.TurnTidy` | dmlproc/batchinsertprocessor.cpp:242-303 | a turn without a failing answer writes the package to the chosen PM and keeps at most one unanswered package per PM |
| `BatchInsert.FlowControl` | dmlproc/batchinsertprocessor.cpp:175-303 | over every such run: written equals added, in order; at most one unanswered package per PM; a PM's state is false exactly when it has one |
| `BatchInsert.OutstandingIsUnread` | dmlproc/batchinsertprocessor.cpp:326-332 | the count of busy PMs is the number of unread answers |
| `BatchInsert.DrainExactly` | dmlproc/batchinsertprocessor.cpp:323-378 | all outstanding answers are read, and every PM is free, if and only if there are no more of them than connections |
| `BatchInsert.DrainError` | dmlproc/batchinsertprocessor.cpp:335-376 | after the drain the error is the last that a read brought, an empty or failing read or a nonzero code, or the one there was |
| `BatchInsert.DrainEnds` | dmlproc/batchinsertprocessor.cpp:335-376 | the drain ends exactly when as many answers came as it needs, or at an exception, and otherwise waits |
| `BatchInsert.DrainFrees` | dmlproc/batchinsertprocessor.cpp:335-376 | a PM is busy afterwards exactly if it was and has not answered |
| `BatchInsert.DrainedAfterRun` | dmlproc/batchinsertprocessor.cpp:323-378 | after every run without a failing answer, with unchanged connections, nothing is left unread |
| `BatchInsert.StatementCollects` | dmlproc/dmlprocessor.cpp:403-415 | a statement that goes well: the drain takes every package answer, so the replies read last are the end-of-batch replies and all of them, and all vectors are put together |
| `BatchCollect.GatherMeans` | dmlproc/batchinsertprocessor.cpp:380-432 | one vector per reply, in order, until the count asked for before a read equals the number of replies, or an exception, or without end |
| `BatchCollect.GatherError` | dmlproc/batchinsertprocessor.cpp:380-432 | the error is nonzero exactly if it was before or some reply that was read is failing, and is the last such |
| `BatchCollect.PassedPrefix` | dmlproc/batchinsertprocessor.cpp:435-463 | what is passed on are the first vectors of this statement, no more than there were connections at the end-of-batch write |
| `BatchCollect.AllMarksExactly` | dmlproc/batchinsertprocessor.cpp:380-476 | the vectors of all PMs asked are put together if and only if their replies were read without an exception and no connection was lost before the last vector was copied |
| `BatchCollect.FlattenConcat` | dmlproc/batchinsertprocessor.cpp:454-463 | putting vectors together keeps their order |
| `BatchCollect.FlattenMembers` | dmlproc/batchinsertprocessor.cpp:454-463 | and all their marks, and adds none |
| `BatchCollect.CallMeans` | dmlproc/batchinsertprocessor.cpp:454-476 | `bulkSetHWM` is called if and only if some vector passed on has a mark, and sets exactly the marks of all of them |
| `BatchCollect.MarksSet` | dmlproc/batchinsertprocessor.cpp:380-476 | the call sets no mark but those of the PMs asked, and under the condition above all of them, in the order of the replies |
| `BatchCollect.AutocommitSetsNone` | dmlproc/batchinsertprocessor.cpp:398-436 | with autocommit on no marks are gathered and none set |
| `BatchCollect.SomeMarksSet` | dmlproc/batchinsertprocessor.cpp:388-436 | two PMs, one connection lost after the first reply: the marks of the other are set alone |
| `BatchCollect.FinishExactly` | dmlproc/batchinsertprocessor.cpp:386-389 | with replies enough and no exception the loop ends if and only if at some look the count equals the number of replies read |
| `BatchCollect.MissedForGood` | dmlproc/batchinsertprocessor.cpp:386-389 | once the count is below the number of replies the loop ends only by an exception |
| `BatchCollect.LoopGoesOn` | dmlproc/batchinsertprocessor.cpp:386-402 | two PMs, one connection lost after its empty message was read: the loop goes on reading whatever else arrives |
| `BatchInsert.BatchInsertProc.constructor` | dmlproc/batchinsertprocessor.cpp:55-80 | a new coordinator has an empty queue and every PM free |
| `BatchInsert.BatchInsertProc.AddPkg` | dmlproc/batchinsertprocessor.cpp:175-180 | a package goes to the end of the queue |
| `BatchInsert.BatchInsertProc.GetPkg` | dmlproc/batchinsertprocessor.cpp:182-189 | the package at the head is taken off |
| `BatchInsert.BatchInsertProc.SendFirstBatch` | dmlproc/batchinsertprocessor.cpp:212-240 | the method has the effect of the value-level send, including a throwing or zero selection and a missing connection |
| `BatchInsert.BatchInsertProc.SendNextBatch` | dmlproc/batchinsertprocessor.cpp:242-303 | the method, with its wait loop, has the effect of the value-level send for any replies: empty, failing, refusing, out of order or too few |
| `BatchInsert.BatchInsertProc.ReceiveOutstandingMsg` | dmlproc/batchinsertprocessor.cpp:323-378 | the counting and reading loops have the effect of the value-level drain: empty reads are not counted, an exception gives up, and running out of replies is waiting |
| `BatchInsert.BatchInsertProc.ReceiveAllMsg` | dmlproc/batchinsertprocessor.cpp:380-438 | the method has the effect of the value-level collection, asking for the number of connections before every read, for the size test and for every vector; the argument of `bulkSetHWM` if it is called, and its error |
| `BatchInsert.BatchInsertProc.CollectHwm` | dmlproc/batchinsertprocessor.cpp:449-463 | the vectors copied, one after the other, while the count asked for before each allows it |
| `BatchDriver.Handler.Run` | dmlproc/dmlprocessor.cpp:338-641 | the handler's branches for a first, middle, last or single package, on a coordinator that may carry an error, have the effect of the value-level handling, including every place where it can hang; says whether the coordinator stays in the map |
| `BatchDriver.EveryCollection` | dmlproc/dmlprocessor.cpp:338-641 | over every run of a session's packages, whatever goes wrong, a coordinator is wound up at most once and passes on vectors of its own statement only: those of all PMs asked if and only if their replies were read without an exception and no connection was lost before the last vector was copied; `bulkSetHWM` then sets every mark of every PM asked, and never another |
| `BatchDriver.WindUpAnswers` | dmlproc/dmlprocessor.cpp:403-415 | winding up answers exactly when the drain and the end-of-batch replies come to an end, and writes and drops nothing; with success exactly when there was no error before and no read of the drain brought one, with a warning exactly for the range warning |
| `BatchDriver.NothingSentAfterError` | dmlproc/dmlprocessor.cpp:592-634 | after an error the next package only winds the coordinator up: nothing is written, and the answer is an error exactly when the outstanding and the end-of-batch replies have come |
| `BatchDriver.SingleAnswer` | dmlproc/dmlprocessor.cpp:403-471 | a single-package statement is written, and answered once the end-of-batch replies have come with the code of its PM's answer, or the error its coordinator had: with success if and only if there was none before and the answer's code is 0 or, without a connection, was not read |
| `BatchDriver.RefusedLockStays` | dmlproc/dmlprocessor.cpp:370-397 | after a refused table lock the next such statement is written and answered with an error |
| `BatchDriver.EndNotReported` | dmlproc/dmlprocessor.cpp:410-415 | an answer that is given does not depend on anything from the end-of-batch message on |
| `BatchDriver.EndErrorHidden` | dmlproc/dmlprocessor.cpp:410-415 | a PM that fails at the end of the batch, and a client told of success |
| `BatchDriver.HiddenExactly` | dmlproc/dmlprocessor.cpp:410-415 | the client is told of success and the statement ended in an error exactly when there was no error before, no read of the drain brought one, and the message could not be sent, a reply that was read is failing, or the marks could not be set |
| `BatchDriver.SendErrorIs` | dmlproc/batchinsertprocessor.cpp:212-303 | the error after a send: 1 if no PM could be selected, the code of the last reply read while waiting, or the one there was |
| `BatchDriver.MiddleAnswer` | dmlproc/dmlprocessor.cpp:370-641 | a lock error exactly if the lock is refused, an exception exactly if the package is lost, and for a package in the middle otherwise success, or a warning after a warning |
| `BatchDriver.SuccessTells` | dmlproc/dmlprocessor.cpp:338-641 | over every statement, whatever its packages meet: it is answered with success at its end only if no reply read for any of them carried an error |
| `BatchDriver.StatementSucceeds` | dmlproc/dmlprocessor.cpp:484-641 | a statement of several packages in which nothing fails: every answer is success, all packages are written in order, every reply is read, and the coordinator is gone |
| `BulkRollback.PmSet` | dmlproc/dmlprocessor.cpp:1371-1378 | each owner of one of the dbroots once, in ascending order; an unknown dbroot gives PM 0 |
| `BulkRollback.PmsAre` | dmlproc/dmlprocessor.cpp:1371-1378 | a PM is written to exactly if it owns one of the dbroots, PM 0 also if one has no owner |
| `BulkRollback.ProcessBulkRollback` | dmlproc/dmlprocessor.cpp:1340-1481 | actions, exit and `lockReleased` on every path, for exactly the owners of the dbroots |
| `PmReplies.AwaitMeans` | dmlproc/dmlprocessor.cpp:1396-1424 | waiting for all PMs passes exactly when as many replies as PMs came in, all with code 0, and goes on exactly when too few came and none fails; the rollback phase and the commit before DDL both wait so |
| `BulkRollback.CleanupsMean` | dmlproc/dmlprocessor.cpp:1444-1474 | the cleanup phase passes exactly when no error came before the last reply; its code is 0 exactly when none came at all |
| `BulkRollback.ReleaseExactly` | dmlproc/dmlprocessor.cpp:1340-1477 | the lock is released if and only if it was taken over, the rollback was confirmed, the state moved, and no cleanup error came before the last reply |
| `BulkRollback.ReleaseOrder` | dmlproc/dmlprocessor.cpp:1380-1477 | before a release of a LOADING lock: every PM asked to roll back, then the state moved to CLEANUP, then every PM asked to clean up |
| `BulkRollback.EveryPmConfirmed` | dmlproc/dmlprocessor.cpp:1396-1424 | if each PM answers, a release means that every PM answered with code 0 |
| `BulkRollback.LockReleasedTells` | dmlproc/dmlprocessor.cpp:1340-1481 | `lockReleased` tells whether the lock was released if and only if the run was refused, or got through without an exception of a DBRM or write call and without an early cleanup error |
| `BulkRollback.ExitExactly` | dmlproc/dmlprocessor.cpp:1340-1481 | a run returns exactly if both halves got through without an error, hangs exactly if in one of them too few replies came and all were good, and throws otherwise |
| `BulkRollback.DeniesExactly` | dmlproc/dmlprocessor.cpp:1340-1424 | the run denies the release exactly if the lock could not be taken over or a reply to the rollback carried an error |
| `BulkRollback.KeepsCourse` | dmlproc/dmlprocessor.cpp:1380-1477 | every run, however it ends, does a prefix of the one course of actions, and moves the state exactly when the rollback half got through |
| `BulkRollback.CleanupErrorKeepsLock` | dmlproc/dmlprocessor.cpp:1449-1474 | with two PMs a cleanup error in the first reply keeps the lock although it is reported released |
| `DdlCommit.UnlockMeans` | ddlproc/ddlprocessor.cpp:575-590 | the locks released are those in the list owned by the transaction, in order and no others; all of them exactly when each is still known |
| `DdlCommit.ReleasedExactly` | ddlproc/ddlprocessor.cpp:575-590 | a lock is among those to be released exactly if it is in the list and the transaction owns it |
| `DdlCommit.AttemptProper` | ddlproc/ddlprocessor.cpp:553-602 | an attempt touches an old transaction only after all PMs confirmed it, releases its locks before marking it committed, asks for a new one only then, and ends with what that gave; it waits exactly when too few replies came and all were good, and throws when one failed or a lock is gone |
| `DdlCommit.SerialProper` | ddlproc/ddlprocessor.cpp:449-645 | in the serial mode, whatever other sessions do: each look is a proper attempt, and the handler is invoked at most once, last, with the id `newTxnID` has just given |
| `DdlCommit.SerialPutsAway` | ddlproc/ddlprocessor.cpp:449-645 | when the handler is invoked, every transaction found on the way was confirmed by all PMs, rid of its locks and marked committed in that order |
| `DdlCommit.RejectedExactly` | ddlproc/ddlprocessor.cpp:497-609 | in the timed loop the statement is rejected exactly when all the tries left give nothing, and after just so many looks |
| `DdlCommit.RejectedFromStart` | ddlproc/ddlprocessor.cpp:476-609 | from the first check on: exactly when, after the first look that sees another session, that many give nothing |
| `DdlCommit.ConcurrentProper` | ddlproc/ddlprocessor.cpp:648-693 | the same in the concurrent mode, in which getting no transaction is an exception |
| `DdlCommit.CommitTransaction` | ddlproc/ddlprocessor.cpp:725-769 | the reply loop confirms, fails or waits as specified; without a connection it fails |
| `DdlCommit.ReleaseLocks` | ddlproc/ddlprocessor.cpp:575-590 | the release loop gives the specified releases |
| `DdlCommit.AcquireSerial` | ddlproc/ddlprocessor.cpp:476-609 | the outer and the timed loop make the specified visits and end as specified, for any number of tries |
| `PmsAssignment.Collect` | procmgr/processmanager.cpp:7262-7309 | the usable addresses in list order and the number of enabled modules, counting modules and NICs whose status cannot be read |
| `PmsAssignment.ModulesConcat` | procmgr/processmanager.cpp:7262-7309 | the addresses stand in the order of the modules |
| `PmsAssignment.OneModule` | procmgr/processmanager.cpp:7265-7281 | a disabled module has no addresses and does not count |
| `PmsAssignment.HostsConcat` | procmgr/processmanager.cpp:7283-7309 | within a module they stand in the order of its interfaces |
| `PmsAssignment.OneHost` | procmgr/processmanager.cpp:7283-7309 | an interface counts exactly if it is assigned and up, initial or unreadable |
| `PmsAssignment.OnNicConcat` | procmgr/processmanager.cpp:7349-7365 | the addresses on a NIC number stand in list order |
| `PmsAssignment.CyclicAppend` | procmgr/processmanager.cpp:7349-7371 | appending the next stretch of the order keeps the closed form |
| `PmsAssignment.Assign` | procmgr/processmanager.cpp:7341-7371 | the nested loop ends with every slot filled, slot i with the address at position i modulo the number of addresses |
| `PmsAssignment.EndsExactly` | procmgr/processmanager.cpp:7341-7371 | the loop can end exactly when some usable address has a NIC number from 1 to the maximum; otherwise no number of passes fills a slot |
| `PmsAssignment.LoopGoesOn` | procmgr/processmanager.cpp:7341-7371 | one enabled module with a usable address on NIC 3 and two NICs looked at: no number of passes fills a slot |
| `PmsAssignment.UsesBalanced` | procmgr/processmanager.cpp:7341-7371 | position j of n is used ports/n times, and once more exactly if j is below the remainder |
| `PmsAssignment.FairShare` | procmgr/processmanager.cpp:7341-7371 | uses of any two positions differ by at most one |
| `PmsAssignment.UpdatePmsConfig` | procmgr/processmanager.cpp:7224-7371 | nothing is updated exactly on the early exits; otherwise the count of enabled modules and max(32, count times maximum times 2) slots in the closed form |
| `Failover.AskPeers` | procmgr/processmanager.cpp:8662-8703 | `ack` exactly when some of the pings sent is answered, `noack` exactly when the first is not |
| `Failover.Judge` | procmgr/processmanager.cpp:8633-8762 | when one round calls for a failover, remembers a partial outage, or goes cold |
| `Failover.Reconsider` | procmgr/processmanager.cpp:8767-8876 | a failover stands exactly if it is not disabled, the parent's instance does not come back, and storage is shared |
| `Failover.Watch` | procmgr/processmanager.cpp:8566-8878 | the watch ends in the first round whose history calls for it, and in no other |
| `Failover.LeavesGuarded` | procmgr/processmanager.cpp:8566-8878 | without a signal: at least the heartbeat count of failed pings in a row, own interface up, no peer to ask or some peer answering, never with unshared internal storage or while disabled, and on Amazon only if the parent's instance is terminated or stopped for good |
| `Failover.LeavesExactly` | procmgr/processmanager.cpp:8566-8878 | the exact condition, over the whole history, for leaving the watch |
| `Failover.FailuresExactly` | procmgr/processmanager.cpp:8577-8632 | the count reaches n exactly if the last n rounds went unanswered |
| `Failover.SeenExactly` | procmgr/processmanager.cpp:8735-8757 | a partial outage is remembered exactly if some round saw one |
| `Failover.PartialSeenTwice` | procmgr/processmanager.cpp:8735-8757 | a partial outage leads to a failover only if an earlier round saw one too |
| `Failover.PartialNotConsecutive` | procmgr/processmanager.cpp:8735-8757 | the earlier round may belong to an outage the parent has recovered from |
| `StatusTables.LookupMeans` | procmon/main.cpp:1980-2001 | a lookup finds the index of an entry with that name, or there is none |
| `StatusTables.SetProcUpdates` | procmon/main.cpp:2037-2123 | setting a process is a map update of that process alone: the granted state if it is a state, and the process id unless it is 1; a request not taken changes nothing |
| `StatusTables.RunTypeIs` | procmon/main.cpp:2063-2101 | the run type of a process is that of the first configuration entry for it |
| `StatusTables.LastRequestWins` | procmon/main.cpp:1967-2808 | after a request that is taken and any run of requests that leave the process alone, a lookup gives the state then granted and the process id then given |
| `StatusTables.AddAllAdds` | procmon/main.cpp:2681-2724 | adding modules keeps all processes there were, adds the configured ones offline, and shares no index |
| `StatusTables.ScanRemoves` | procmon/main.cpp:2766-2789 | removal keeps every other module with its own state and the names unique |
| `StatusTables.RemoveOneRemoves` | procmon/main.cpp:2766-2808 | removing a module takes away that module and its processes and nothing else |
| `StatusTables.SetPairedUpdates` | procmon/main.cpp:2395-2420 | the active/standby processes of the module take the state, all others keep theirs |
| `StatusTables.SetModuleMeans` | procmon/main.cpp:2381-2505 | what setting a module does to each slot: the module gets the state, or standby beside an active mate; the first standby mate of one that goes down, offline or failed becomes active; nothing else changes |
| `StatusTables.OneActiveExactly` | procmon/main.cpp:2381-2500 | setting a module of a paired type keeps at most one of two mates active if and only if it does not promote a module beside a third, active one |
| `StatusTables.PairNeverClashes` | procmon/main.cpp:2381-2500 | for a mated pair there is no such third module |
| `StatusTables.TwoActive` | procmon/main.cpp:2436-2453 | with three modules, taking one down leaves two active |
| `StatusTables.StepRefines` | procmon/main.cpp:2015-2808 | each request on the tables is the same request on maps by name |
| `StatusTables.RunRefines` | procmon/main.cpp:1967-2808 | over every run of adds, removes and sets the tables stand for the maps on which the same requests were carried out, and no two process entries share an index |
| `StatusTables.RunOneActive` | procmon/main.cpp:2381-2505 | over every run without such a promotion at most one of two mates is active |
| `StatusMonitor.Monitor.GetProcStatus` | procmon/main.cpp:1980-2012 | the status the map holds for the process, or failure |
| `StatusMonitor.Monitor.SetProcStatus` | procmon/main.cpp:2037-2139 | the new tables, with the active/standby rule, the refused return to initialisation and the system state that follows DMLProc |
| `StatusMonitor.Monitor.SetModuleStatus` | procmon/main.cpp:2344-2512 | the new tables, with the mates' and their processes' states |
| `StatusMonitor.Monitor.AddModule` | procmon/main.cpp:2635-2724 | the new tables; the type is that of the last module named |
| `StatusMonitor.Monitor.CopyDown` | procmon/main.cpp:2775-2786 | copying every later slot down leaves the last one in the freed place |
| `StatusMonitor.Monitor.RemoveModule` | procmon/main.cpp:2745-2808 | the new tables, modules first, then their processes |
| `StatusTables.WantedNamesAre` | procmon/main.cpp:2685-2712 | a new module runs exactly the processes of the configuration entries meant for its type |
| `StatusTables.WantedKinds` | procmon/main.cpp:2685-2712 | what launches runs on every module if meant for child modules, on its own type, on the parent's type if meant for the parent, and from a UM on a PM that serves as one |
| `StatusTables.NotLaunched` | procmon/main.cpp:2687-2690 | what neither boots nor launches runs nowhere |
| `StatusTables.NoBorrowedProcessors` | procmon/main.cpp:2699-2709 | a PM that also serves as UM does not take DMLProc or DDLProc from the UM entries |

## Left out

- QuickLZ levels 1 and 2 and the streaming buffer: the header selects level 3 without it.
- The byte-wise variants for machines without unaligned loads: the 4-byte variants are modelled.
- QlzFinder.Table.constructor: memory starts with arbitrary values, as the compressor relies on the counters only after a reset.
- ChunkFrame.UncompressBlock: asks for a chunk whose lengths stay inside it, because the source reads past the buffer otherwise and has no defined result there (`LengthTestExactly` and `StoredInside` say exactly when); and for an output buffer below 2^31 bytes, because the size comes back through a signed 32-bit variable; the server's buffer has 4 MiB.
- Checksum.Hash: only the first half of the digest is returned, as in the source; two digests that differ in the second half only return the same value.
- Sockets, FIFOs, the protocol thread and the fork loop of the decompression server: input and output.
- Time: waiting periods, sleeps and timeouts appear only as counts of tries.
- StatementSlots.SlotsAreSafe: assumes that the mutex calls and the thread-count bookkeeping in the handlers do not throw; a failing assertion that ends the process is not modelled.
- Error messages, telemetry, logging and notifications of all protocols.
- The selection of the next PM by the batch loader and the table-lock wait of the batch insert: only their results enter.
- BatchDriver.Handler.Run: the coordinator is a parameter, and the map of sessions is the option in which the run functions keep it; asks that connections are only lost once they are set up.
- BatchInsert.FlowControl: speaks of runs in which every answer so far came with code 0, PM ids are distinct and answers come only for unanswered packages; after a failing answer only the conservation law is stated.
- BulkRollback.ProcessBulkRollback: the owner map is read, not extended, for an unknown dbroot, which leaves the result the same.
- DdlCommit.AcquireSerial: the rounds are a finite sequence, so endless waiting is a run that has not ended; exceptions of session manager and DBRM calls end the search without an invocation and are not listed one by one.
- The five write attempts and the file lock at the end of the PMS update.
- PmsAssignment.UpdatePmsConfig: requires an address on a NIC number that is looked at, because the loop does not end without one (`EndsExactly`).
- The actions after the standby has left its watch, and the wait for a restarted Amazon parent.
- NIC, external device and DBRoot tables: they are kept and set like the module table. Change dates, and names longer than a slot.
- StatusMonitor.Monitor.AddModule: asks for room for the new modules and the processes they run, because the source writes past the tables otherwise.
- StatusTables.RunRefines: runs in which module names stay unique and the system's own slot is not removed; the request itself is modelled without these conditions (`StatusMonitor.Monitor.RemoveModule`).
- Restart counting of child processes, shared-memory set-up, and the configuration edits of adding and removing modules.
