# Verified models of the oce core components

Seven components of the repository are modelled here, each in its own Dafny modules, and their central promises are
proved for all inputs and all runs.

- **Double-array trie** (`Words.dfy`, `Packing.dfy`, `DoubleArray.dfy`): `build` packs a key list into shared
  base/check slots by mutual recursion; the three searches walk those slots. The trie is proved to be a plain map
  from words to values.
- **Greedy segmenter** (`Segmentation.dfy`) on top of the trie.
- **Consistent-hash ring** (`ConsistentHash.dfy`): lookup, rebuilding, and the distribution report.
- **Read/write lock** (`ReadWriteLock.dfy`) and **message queue with its pool** (`MessageQueue.dfy`): monitor steps
  over any number of threads, with signalled and spurious wakeups.
- **String codecs** (`Buffers.dfy`, `StringEncode.dfy`, `Markup.dfy`) over bounded buffers, and the **URL** parser and
  printer (`Url.dfy`).
- **MD5** (`Md5Transform.dfy`, `Md5.dfy`): the unrolled block transform and the streaming buffer against RFC 1321.
- **Ticket service** (`Tickets.dfy`, `TicketExpiry.dfy`, `TicketCleaner.dfy`): the sharded two-way map, the expiry
  pipeline as a state machine, and its objects proved to take that machine's steps.

Conventions. A byte is an integer below 256, a 32-bit word an integer below 2^32, and wrap-around is written out with
`%`. Methods follow the loops and field updates of the source and are proved equal to functions; lemmas then say what
those functions are worth. Tables, literals and
digit values that a method and its specification share are fixed by further lemmas in literal terms. Bodies that need
not be seen in a proof are hidden there. A buffer that the source resizes
is a sequence field; a caller's fixed buffer is an array, and a decoder's source array may be the buffer itself. Where
the source leaves a choice open (where a growing array ends, whether the density heuristic moves the search start,
which thread a notification picks, how equal points are sorted), the model leaves it open too.

Where code and documentation disagree, the model follows the code:

- `utf8_encode` is documented to return 0 when the encoding is longer than `buflen - 1`; it uses all `buflen` bytes. An
  xml or html decoder can therefore fill its buffer and put the terminator one past it; `Markup.NoRoomForTerminator`
  says exactly when.
- `MD5Final` clears only as many bytes of the context as a pointer has; what stays is never all zero
  (`Md5.MD5Context.Final`).
- `strchr` also finds the terminator of its set, so a NUL byte is always treated as illegal by `escape` and `encode`.
- Two creates for one user can interleave. The first ticket then verifies until it is destroyed: expiry never reaches it
  (`TicketExpiry.StaleTicketNeverExpires`), and this is the only way the two maps stop being inverses.
- A renewal, or a new ticket, that comes after its user has been collected for expiry does not help: the removal ends
  whatever ticket the user has by then (`TicketExpiry.RemovalIgnoresRenewal`, `TicketExpiry.FreshTicketIsRemoved`).
- The pool's lock is dropped before the pool grows, so callers can exceed its limit
  (`MessageQueues.TwoCallersExceedLimit`).
- Verifying a ticket renews it only for a positive user id, and with a suffix that is not one character long most
  tickets are looked up in the wrong shard (`Tickets.NewTicketIsFound`).
- A pool worker whose busy counter is zero may still have queued messages: it has none left exactly when its queue size
  is zero as well (`MessageQueues.IdleIsDoneExactlyWhenEmpty`).
- Not every accepted URL is read back from its canonical form; `Urls.RoundTrip` says which ones are.

## Model

| member | source | states |
|---|---|---|
| Words.SharedPrefixIsNeutral | WordSegmentation/darts_tmp.h:99-121 | comparing two keys from behind a shared prefix gives the unsigned-byte order of the whole keys |
| Words.OrderByCode | WordSegmentation/darts_tmp.h:101-108 | below a common path, a smaller code means the smaller key and a larger code an unordered pair |
| Words.OrderByFirstDifference | WordSegmentation/darts_tmp.h:99-121 | the order of keys is: a prefix, or smaller as an unsigned byte at the first difference |
| Words.BuildableInPlainTerms | WordSegmentation/darts_tmp.h:105-193 | what a build asks for: neighbouring keys in that order, and a non-negative value where a key first occurs |
| Words.DictHoldsFirstValues | WordSegmentation/darts_tmp.h:186-193 | the map of a key list knows the listed keys only, each with the value at its first position, or the position itself when there are no values |
| Words.WordLengthsExact | WordSegmentation/darts_tmp.h:449-494 | the reported lengths are exactly those at which the key has a word as prefix, each once, increasing |
| Words.WordLengthsStop | WordSegmentation/darts_tmp.h:475-478 | a search may stop at the first missing path: no longer prefix is a word |
| Packing.CodesMatch | WordSegmentation/darts_tmp.h:90-127 | the codes of a fetched children list are exactly the children the dictionary gives the path, both directions |
| Packing.ChildRange | WordSegmentation/darts_tmp.h:114-124 | a child's key range holds exactly the keys that continue with its byte, or for code 0 exactly the copies of the word |
| Packing.TerminalValue | WordSegmentation/darts_tmp.h:189-193 | the left end of a code-0 group is the word's first occurrence, so its value is the map's |
| Packing.BuildableByGroups | WordSegmentation/darts_tmp.h:105-108 | a range is sorted with non-negative first values exactly when each of its groups is |
| Packing.TerminalBuildable | WordSegmentation/darts_tmp.h:195-198 | a code-0 child can be built exactly when its word's value is non-negative |
| Packing.UnorderedIsUnbuildable | WordSegmentation/darts_tmp.h:105-108 | codes that decrease inside a range prove its keys unsorted |
| Packing.PaddingIsFree | WordSegmentation/darts_tmp.h:139-168 | slots past the old end and begins there are free, which is why the slot search ends |
| Packing.PlacedAfterClaim | WordSegmentation/darts_tmp.h:178-184 | placing a node on free slots at an unused begin keeps the packing: begins stay unique, each occupied slot has one owner and code, earlier slots are unchanged |
| Packing.PlacedIgnoresBase | WordSegmentation/darts_tmp.h:190-205 | writing a base never disturbs which slot belongs to whom |
| Packing.NewFilledCarries | WordSegmentation/darts_tmp.h:186-207 | nodes linked earlier stay linked while later children are inserted |
| Packing.FilledIsComplete | WordSegmentation/darts_tmp.h:186-209 | when every placed node has its children linked, the placed nodes are all paths of the dictionary |
| Packing.PackedFromPlaced | WordSegmentation/darts_tmp.h:306-307 | with 257 slots of margin, a slot carries a node's begin exactly for that node's codes, for every byte looked up |
| Packing.StepFollowsPath | WordSegmentation/darts_tmp.h:554-562 | a search step succeeds exactly when the longer path exists, reads inside the array, and leads to that path's node |
| Packing.EndHoldsValue | WordSegmentation/darts_tmp.h:564-569 | the slot at a node's begin has a negative base of its own exactly when the path is a word, and then holds its value |
| Darts.DoubleArray.Resize | WordSegmentation/darts_tmp.h:79-88 | growth appends empty slots and unused begins and changes nothing else |
| Darts.DoubleArray.Fetch | WordSegmentation/darts_tmp.h:90-127 | error -3 exactly when the codes decrease somewhere; else the consecutive groups of the range, or nothing for a finished word |
| Darts.DoubleArray.FindSlot | WordSegmentation/darts_tmp.h:129-176 | terminates with an unused begin whose slots are all free; in an empty array that begin is 1 |
| Darts.GrowthHoldsNode | WordSegmentation/darts_tmp.h:154-160 | from eighty keys on, the size the source grows to holds every slot of the node being placed |
| Darts.GrowthFallsShort | WordSegmentation/darts_tmp.h:154-160 | with the two keys of the single bytes 1 and 255 it does not |
| Darts.DoubleArray.Claim | WordSegmentation/darts_tmp.h:178-184 | exactly the slots of the codes now carry the begin, which is marked used; the size covers them |
| Darts.DoubleArray.LinkChild | WordSegmentation/darts_tmp.h:186-207 | one child is linked, only its own base changes among occupied slots, new nodes lie under its path, and it fails exactly when its range is not buildable |
| Darts.DoubleArray.Insert | WordSegmentation/darts_tmp.h:129-210 | keeps the packing and all earlier slots, places and links the whole subtree, and is error-free exactly when its key range is sorted with non-negative values; the root lands at begin 1 |
| Darts.DoubleArray.Build | WordSegmentation/darts_tmp.h:278-313 | terminates; returns 0 exactly when started without error on keys in unsigned-byte order with non-negative first values, and then the array is the trie of the map that gives each key the value of its first position |
| Darts.DoubleArray.BuildAndFind | WordSegmentation/darts_tmp.h:278-313 | after a successful build every text is looked up to the value its first position in the list was given, -1 when it only starts a key, -2 otherwise |
| Darts.DoubleArray.Clear | WordSegmentation/darts_tmp.h:256-265 | forgets the array but not an earlier error |
| Darts.DoubleArray.Save | WordSegmentation/darts_tmp.h:341-351 | writes exactly the first `size` units, fails exactly when there are none, and what it writes of a trie is a trie |
| Darts.DoubleArray.Open | WordSegmentation/darts_tmp.h:315-352 | opening units that are a saved trie gives that trie |
| Darts.DoubleArray.Reopened | WordSegmentation/darts_tmp.h:315-351 | a dictionary saved and opened again elsewhere is the same dictionary |
| Darts.DoubleArray.Traverse | WordSegmentation/darts_tmp.h:545-571 | from any reached position: the value for a word, -1 for a mere path, -2 otherwise, with the position to resume from |
| Darts.DoubleArray.ExactMatchSearch | WordSegmentation/darts_tmp.h:411-437 | positive position and stored value exactly for words, negative position for mere paths, the empty result otherwise |
| Darts.DoubleArray.CommonPrefixSearch | WordSegmentation/darts_tmp.h:449-494 | the buffer gets exactly the word prefixes in increasing length, plus one negative-position result when the key is only a path; the count is exact and the rest of the buffer untouched |
| Segmentation.LongestMatch | WordSegmentation/GenerateChunk.cpp:19-28 | for a text that is no path, the chunk is the longest word it starts with, or all of it when there is none |
| Segmentation.ChunkIsEmpty | WordSegmentation/GenerateChunk.cpp:24-27 | a chunk of a non-empty text is empty exactly when the empty word is the only word that matches and the text is no path |
| Segmentation.LoopEndsExactly | WordSegmentation/WordSegmentation.cpp:30-36 | the cutting loop reaches the end of a text exactly when each of its cuts makes progress |
| Segmentation.CutsAllExactly | WordSegmentation/GenerateChunk.cpp:19-28 | the loop ends on every text over an alphabet exactly when the dictionary lacks the empty word, or every text that leads out of the trie starts with some other word |
| Segmentation.SegmentsAllExactly | WordSegmentation/WordSegmentation.cpp:40-86 | the segmenter ends on every input exactly under that condition for texts of multi-byte characters |
| Segmentation.EmptyWordAloneIsStuck | WordSegmentation/WordSegmentation.cpp:30-36 | with the empty word alone the loop stays at the start of any one-byte text forever |
| Segmentation.CuttableWithoutEmptyWord | WordSegmentation/WordSegmentation.cpp:30-36 | without the empty word in the dictionary that holds for every text |
| Segmentation.SegmentableWithoutEmptyWord | WordSegmentation/WordSegmentation.cpp:48-71 | and for every run of every input |
| Segmentation.CheckDict | WordSegmentation/GenerateChunk.cpp:19-28 | the trie search computes the chunk rule of the plain map |
| Segmentation.FilterChunk | WordSegmentation/WordSegmentation.cpp:24-38 | on every text whose cuts make progress: terminates and prints the chunks of the rule, each followed by a space |
| Segmentation.ChunksConserve | WordSegmentation/WordSegmentation.cpp:30-36 | cutting into chunks only adds spaces |
| Segmentation.PrintedConserves | WordSegmentation/WordSegmentation.cpp:48-71 | the spacing rules for single-byte characters only add spaces |
| Segmentation.SegmentedConserves | WordSegmentation/WordSegmentation.cpp:40-86 | the run-by-run segmentation without spaces is the input without spaces |
| Segmentation.OneByte | WordSegmentation/WordSegmentation.cpp:44-52 | a single-byte character alone is followed by a space, and by two unless it is a letter, a digit or one of " -.@_" |
| Segmentation.OneMoreByte | WordSegmentation/WordSegmentation.cpp:53-68 | one more character: a plain one replaces the final space, but keeps it when it is a letter behind a digit; any other stands between spaces |
| Segmentation.LettersAlone | WordSegmentation/WordSegmentation.cpp:11-19 | a text of letters is printed as it is with one space behind it |
| Segmentation.WideIsCut | WordSegmentation/WordSegmentation.cpp:70-74 | a text of multi-byte characters gives the dictionary chunks, each with a space |
| Segmentation.RunsFollowEachOther | WordSegmentation/WordSegmentation.cpp:71-79 | texts of different kinds are segmented by themselves, with one more space in front of a character that is not plain |
| Segmentation.SegmentEngine | WordSegmentation/WordSegmentation.cpp:40-86 | on every input whose runs can be cut: the one-pass loop with two pending buffers computes the run-by-run segmentation, and conserves the text |
| ReadWriteLocks.CountedStep | base/rwlock.h:20-63 | every step keeps the four counters equal to the real numbers of threads in each phase |
| ReadWriteLocks.WakeupStep | base/rwlock.h:20-63 | every step keeps exclusion and the absence of lost wakeups |
| ReadWriteLocks.RunKeepsInv | base/rwlock.h:12-63 | counters, exclusion and wakeups are right in every state of every run with spurious wakeups |
| ReadWriteLocks.MutualExclusion | base/rwlock.h:41-63 | on every run, while one thread writes no other reads or writes |
| ReadWriteLocks.CountersStayUnsigned | base/rwlock.h:28-36 | on every run no unsigned counter is decremented below zero |
| ReadWriteLocks.NoReaderOvertakes | base/rwlock.h:20-31 | while a writer is counted as waiting no step admits a reader |
| ReadWriteLocks.FreeLockIsTaken | base/rwlock.h:33-63 | whenever the lock is free and somebody sleeps, a signalled sleeper exists whose wakeup gets the lock |
| ReadWriteLocks.SleepingReaderHasCause | base/rwlock.h:22-26 | an unsignalled reader sleeps only while a writer holds the lock or is counted as waiting |
| ReadWriteLocks.ReadWriteLock.ReadLock | base/rwlock.h:20-31 | up to its first wait or return, the step of the machine |
| ReadWriteLocks.ReadWriteLock.ReadLockAwake | base/rwlock.h:24-30 | one turn of the wait loop, the step of the machine |
| ReadWriteLocks.ReadWriteLock.ReadUnlock | base/rwlock.h:33-39 | leaves and signals some unsignalled writer if one waits; its assertion holds |
| ReadWriteLocks.ReadWriteLock.WriteLock | base/rwlock.h:41-53 | up to its first wait or return, the step of the machine |
| ReadWriteLocks.ReadWriteLock.WriteLockAwake | base/rwlock.h:45-52 | one turn of the wait loop, the step of the machine |
| ReadWriteLocks.ReadWriteLock.WriteUnlock | base/rwlock.h:55-63 | leaves and signals a writer, else all readers; its assertion holds |
| ConsistentHash.FirstAtLeast | base/consistenthash.h:27-28 | the first point at or after a hash |
| ConsistentHash.OnlyOneServerDiffers | base/consistenthash.h:23-38 | taking points of one server out of a ring where no two servers share a point moves no hash that the server does not own |
| ConsistentHash.ClashIsSeen | base/consistenthash.h:98-99 | where two servers share a point, another order of equal points sends some hash elsewhere |
| ConsistentHash.LookupIsDeterminedWithoutClash | base/consistenthash.h:23-38 | lookups depend on the points alone, not on how equal ones are sorted, exactly when no two servers share a point |
| ConsistentHash.RemovalMovesOnlyItsHashes | base/consistenthash.h:52-57 | removing a server and rebuilding keeps every other hash where it was |
| ConsistentHash.AdditionMovesOnlyToIt | base/consistenthash.h:47-51 | adding a server and rebuilding moves hashes only to it |
| ConsistentHash.RingHasCapacity | base/consistenthash.h:87-93 | a rebuilt ring has exactly `capacity` points for each server and none for anyone else |
| ConsistentHash.SharesSumToAll | base/consistenthash.h:124-140 | the shares of all servers sum to 2^32 - 1, equal points included |
| ConsistentHash.Continuum.Rebuild | base/consistenthash.h:64-106 | sorted ring with exactly the servers' points; refused, and the ring kept, exactly when the 32-bit capacity sum is zero |
| ConsistentHash.Continuum.NewRing | base/consistenthash.h:65-99 | the part under the read lock: the ring of the servers as they are then, refused exactly when the 32-bit capacity sum is zero |
| ConsistentHash.Continuum.Locate | base/consistenthash.h:23-38 | the binary search with wrap-around finds the owner of the next point, the empty description in an empty ring |
| ConsistentHash.Continuum.Dump | base/consistenthash.h:124-140 | each server's share equals the number of hashes 1..2^32-1 that a lookup sends to it, in 32-bit arithmetic |
| MessageQueues.InvStep | base/messagequeue.h:20-92 | every step conserves messages, keeps the busy counter right and loses no wakeup |
| MessageQueues.RunKeepsInv | base/messagequeue.h:20-92 | run, then in flight, then queued is the post sequence in every state of every run, with the other invariants |
| MessageQueues.RunsInPostOrder | base/messagequeue.h:72-92 | on every run the messages run so far are a prefix of those posted, so each runs at most once and in post order |
| MessageQueues.IdleIsNotRunning | base/threadpool.cc:140-143 | a busy counter of zero is seen exactly when the worker is not occupied with a message |
| MessageQueues.DoneWhenEmptyAndNotRunning | base/messagequeue.h:69-92 | on every run everything posted has run exactly when the queue size is zero and no message is running |
| MessageQueues.IdleIsDoneExactlyWhenEmpty | base/messagequeue.h:68-74 | on every run a worker whose busy counter is zero has run everything posted exactly when its queue size is zero |
| MessageQueues.IdleMayHaveMessages | base/messagequeue.h:73-74 | a run where the busy counter is zero and the queue size is not |
| MessageQueues.WorkerDrains | base/messagequeue.h:52-92 | once all posts have notified, the undisturbed worker runs every posted message, in order, within a bounded number of steps |
| MessageQueues.MessageQueue.PostPush | base/messagequeue.h:32-42 | the range post pushes all messages in order and counts them |
| MessageQueues.MessageQueue.PostNotify | base/messagequeue.h:26-26 | the notification after the mutex wakes a sleeper |
| MessageQueues.MessageQueue.EnterLoop | base/messagequeue.h:54-58 | sleeps exactly when the queue is empty |
| MessageQueues.MessageQueue.ProcessBegin | base/messagequeue.h:72-81 | takes the busy counter and the first message |
| MessageQueues.MessageQueue.ProcessNext | base/messagequeue.h:76-92 | takes the next message, or records that nothing is left |
| MessageQueues.MessageQueue.Completed | base/messagequeue.h:83-86 | counts the message that has run |
| MessageQueues.ProbesDiffer | base/threadpool.cc:135-139 | one round of probing visits no worker twice |
| MessageQueues.ThreadPool.Probe | base/threadpool.cc:127-151 | the part under the lock: the first idle worker in round-robin order with the cursor behind it, else the first least busy, and where the cursor stops |
| MessageQueues.ThreadPool.Settle | base/threadpool.cc:153-168 | the part without the lock decides by the number of workers seen before: a new one, else the least busy, else the first |
| MessageQueues.TwoCallersExceedLimit | base/threadpool.cc:151-158 | two callers that both probe before either grows the pool leave it with one worker more than its limit |
| MessageQueues.ThreadPool.GetIdle | base/threadpool.cc:122-169 | without other callers in between: the first idle worker in round-robin order with the cursor behind it, else a new one while allowed, else the first least busy, else the first; a cursor at the list's end stays there when a worker is added |
| StringEncode.HexPairInverts | base/stringencode.cc:51-62 | two printed hex digits shifted and or-ed give the byte back |
| StringEncode.UrlCodeExactly | base/stringencode.cc:161-194 | letters, digits, nine marks and multi-byte characters are kept, every other byte is "%" and two digits of "0123456789abcdef" |
| StringEncode.EscapeCodeExactly | base/stringencode.cc:64-128 | a byte is escaped exactly when it is NUL, the escape or in the set of the caller |
| StringEncode.DecodersRead | base/stringencode.cc:130-224 | an escape with two hex digits of either case is the byte, and in a URL "+" is a blank |
| StringEncode.DecodersKeep | base/stringencode.cc:86-224 | every other byte is itself, also an escape with too little behind it |
| StringEncode.DigitValueExactly | base/stringencode.cc:56-62 | what any character is worth as a hex digit, also one that is none |
| StringEncode.BitOrCommutes | base/stringencode.cc:130-149 | either operand sets a bit |
| StringEncode.BitOrSelf | base/stringencode.cc:130-149 | and a bit set in both is set once |
| StringEncode.StepInvertsToken | base/stringencode.cc:64-224 | each decoder reads its encoder's token back, whatever follows |
| StringEncode.EncodedIsFullPrefix | base/stringencode.cc:64-128 | truncated output is the full encoding of a prefix: no split escape, and it stops only when the next token does not fit |
| StringEncode.RoundTrip | base/stringencode.cc:64-224 | for url, hex and plain escaping, any two buffer lengths: decoding what was encoded gives the part of the source that fits both, all of it when the buffers hold everything |
| StringEncode.RemovesIllegalExactly | base/stringencode.h:59-66 | hex encoding leaves no illegal byte and no NUL, for every source and buffer, exactly when the escape and the digits of every escaped byte are legal |
| StringEncode.UrlEncode | base/stringencode.cc:176-200 | writes the bounded encoding and a terminator inside the buffer, nothing behind |
| StringEncode.Encode | base/stringencode.cc:105-128 | as above, for hex escaping |
| StringEncode.Escape | base/stringencode.cc:64-84 | as above, for plain escaping |
| StringEncode.UrlDecode | base/stringencode.cc:202-224 | writes the decoding of the original source, also when the source is the buffer |
| StringEncode.Decode | base/stringencode.cc:130-149 | as above, for hex escaping |
| StringEncode.Unescape | base/stringencode.cc:86-103 | as above, for plain escaping |
| Markup.DecodeInvertsEncode | base/stringencode.cc:226-285 | a value up to 0x1FFFFF is decoded from its own encoding, whatever follows |
| Markup.EncodeInvertsDecode | base/stringencode.cc:226-285 | encoding a decoded value restores the bytes exactly for shortest forms; otherwise the first byte differs |
| Markup.Utf8DecodeExactly | base/stringencode.cc:226-262 | decoding finds exactly the sequences with the marker bits of RFC 3629, overlong ones among them |
| Markup.Utf8Exactly | base/stringencode.cc:264-285 | encoding gives the shortest of them |
| Markup.Utf8FitsExactly | base/stringencode.cc:264-285 | a value is encoded exactly when it is at most 0x1FFFFF and its shortest form fits |
| Markup.ParsePrinted | base/stringencode.cc:319-327 | a printed decimal entity is parsed back up to its semicolon |
| Markup.UnsignedIsRead | base/stringencode.cc:414-416 | a number is read behind blanks, a sign and in base 16 a prefix; it saturates at 2^64 - 1 and is negated modulo 2^64 |
| Markup.DigitsOfBases | base/stringencode.cc:409-416 | which bytes are decimal and hexadecimal digits, and their values |
| Markup.WrittenExactly | base/stringencode.cc:295-366 | the five special characters are written as their entities of XML 1.0, the apostrophe in html as "&#39;", every other single byte as it is |
| Markup.WideWrittenExactly | base/stringencode.cc:318-333 | html writes a multi-byte character as its number, an invalid byte as the value of the byte; xml writes the bytes |
| Markup.EncodedAlone | base/stringencode.cc:287-376 | the same for a character alone in any buffer long enough |
| Markup.EntitiesAreRead | base/stringencode.cc:389-408 | each of the five entities is read as its character, whatever follows |
| Markup.NumbersAreRead | base/stringencode.cc:409-430 | a decimal or hexadecimal entity in either case is read as its character, whatever follows |
| Markup.OtherNumbersStop | base/stringencode.cc:409-430 | a number that is too large, does not fit, or has no semicolon behind it stops the decoder |
| Markup.OthersAreKept | base/stringencode.cc:387-434 | any other byte is itself, and an ampersand that starts no entity stops the decoder |
| Markup.EncodedIsTextPrefix | base/stringencode.cc:287-376 | truncated xml and html output stands for whole leading characters only |
| Markup.ReadInvertsFront | base/stringencode.cc:378-437 | the decoder reads each character's output back as its meaning |
| Markup.DecodedText | base/stringencode.cc:378-437 | into any buffer, decoding a full encoding gives the meaning of its leading characters and stops only when one byte is left or the next does not fit |
| Markup.XmlRoundTrip | base/stringencode.cc:345-437 | xml: any source, any two buffer lengths: decoding gives the part of the source that fits both, all of it when everything fits |
| Markup.HtmlRoundTrip | base/stringencode.cc:287-343 | html: with room enough the round trip returns the source exactly when it is made of shortest-form sequences |
| Markup.HtmlTruncatedRoundTrip | base/stringencode.cc:287-437 | html, any source and any two buffer lengths: decoding gives the meaning of the leading characters that fit both, the characters themselves exactly when they are in shortest form, and all that was encoded when the second buffer is more than twice as long |
| Markup.EncodedHasNoMarkup | base/stringencode.cc:287-376 | xml and html output has no quotes and no angle brackets, and html output only single-byte characters |
| Markup.NoRoomForTerminator | base/stringencode.cc:424-435 | the decoded text leaves no byte for the terminator exactly when a multi-byte character ends at the last byte of the buffer |
| Markup.LongBufferHasRoom | base/stringencode.cc:435-436 | a buffer longer than the source always has room |
| Markup.TwoByteBufferOverruns | base/stringencode.cc:424-435 | one entity in a two-byte buffer is a case without room |
| Markup.Encode | base/stringencode.cc:287-376 | writes the bounded xml or html encoding and a terminator inside the buffer |
| Markup.Decode | base/stringencode.cc:378-437 | writes the decoding of the original source, also when the source is the buffer, and tells when the terminator falls past the buffer |
| Urls.AtoiItoa | base/url.cc:164-222 | a printed port is read back |
| Urls.AtoiReads | base/url.cc:164-164 | a port is read behind blanks and a sign up to the first other character, modulo 2^32, with -1 and 0 for what overflows a long |
| Urls.ContainsExactly | base/url.cc:125-125 | the scheme mark is searched anywhere in the text |
| Urls.LowerExactly | base/url.cc:186-186 | only the 26 capitals change, each to its small letter |
| Urls.SchemeInAnyCase | base/url.cc:117-141 | both schemes are read in any mixture of cases, and what follows is cut at its first slash |
| Urls.DefaultPorts | base/url.cc:159-175 | a host alone is accepted with port 80 for http and 443 for https |
| Urls.AcceptedExactly | base/url.cc:235-256 | what can be split is accepted exactly when a host has a port from 1 to 65535, no host means no credentials and a path or a port from 0 to 65535, and there is no parameter without a path |
| Urls.PrintedIsAccepted | base/url.cc:110-256 | the canonical form of all such parts that can be read back is accepted as these parts |
| Urls.SplitSeparates | base/url.cc:110-186 | no separator survives inside the part it ends; hosts are lower case |
| Urls.SplitPrinted | base/url.cc:110-233 | splitting a canonical URL with credentials or a host without '@' gives back its parts |
| Urls.AtInHostIsMisread | base/url.cc:142-156 | without credentials, a host with '@' is never read back |
| Urls.SplitOfHostless | base/url.cc:110-222 | a canonical URL without a host is refused exactly when it has "://" in it, else cut into port and path |
| Urls.PartsOfHostless | base/url.cc:141-186 | and then read as http with the printed port or none |
| Urls.RoundTrip | base/url.cc:110-255 | every accepted URL is parsed from its canonical form to the same parts exactly when: with a host, it has credentials or no '@' in the host; without one, it is http, its port is unset or valid, and its canonical form has no "://" |
| Urls.PortZeroIsLost | base/url.cc:215-222 | ":0" is accepted and printed as the empty string, which is refused |
| Urls.HostlessSchemeIsLost | base/url.cc:198-202 | "https:///a" is accepted and read back as http |
| Urls.CanonicalEquality | base/url.cc:195-233 | on URLs that are read back equal canonical strings mean equal parts, both directions |
| Urls.UnescapeInverts | base/url.cc:266-342 | unescaping an escaped component gives the component back, whatever lies behind it |
| Urls.EscapedExactly | base/url.cc:258-276 | letters, digits and nine marks are kept, every other byte is "%" and two digits of "0123456789ABCDEF" |
| Urls.HexValueExactly | base/url.cc:27-32 | hex digits of both cases have their value, no other byte has one |
| Urls.EscapeUrlComponent | base/url.cc:266-276 | appends the escaped component |
| Urls.UnescapeUrlComponent | base/url.cc:323-342 | appends the unescaped component; fails exactly when a percent sign within the length lacks its two hex digits, which may lie behind the length |
| Urls.Url.Parse | base/url.cc:110-193 | accepts exactly the valid splits, sets the parts and the canonical string; a refused text stays as it was |
| Urls.Url.UpdateUrl | base/url.cc:195-233 | prints the canonical string and its host and path parts |
| Md5Transform.RewrittenMix | base/md5.cc:148-154 | the rewritten round functions equal those of section 3.4 of RFC 1321 on all words |
| Md5Transform.MixIsBitwise | base/md5.cc:148-154 | the round functions bit by bit, as section 3.4 of RFC 1321 words them |
| Md5Transform.AddWraps | base/md5.cc:156-158 | addition is that of numbers, less 2^32 on overflow |
| Md5Transform.RotateMovesUp | base/md5.cc:157-158 | a rotation moves the lower bits up and the upper ones to the bottom: it turns left |
| Md5Transform.StepIsSum | base/md5.cc:156-158 | the step macro computes the standard's operation |
| Md5Transform.DoStep | base/md5.cc:157-158 | one line of the transform is one operation of the standard |
| Md5Transform.Round1 | base/md5.cc:174-189 | the sixteen lines of the first round are operations 1 to 16 |
| Md5Transform.Round2 | base/md5.cc:191-206 | the second round |
| Md5Transform.Round3 | base/md5.cc:208-223 | the third round |
| Md5Transform.Round4 | base/md5.cc:225-240 | the fourth round |
| Md5Transform.Transform | base/md5.cc:165-246 | the unrolled transform is the standard's fold of 64 operations |
| Md5.FoldConcat | base/md5.cc:88-96 | folding whole blocks first and the rest on top equals folding the message |
| Md5.StartValues | base/md5.cc:44-53 | the four start words are the sixteen bytes of section 3.3 of RFC 1321 |
| Md5.LoadInvertsStore | base/md5.cc:79-94 | a word is its four bytes, lowest first |
| Md5.LowByteFirst | base/md5.cc:79-145 | an example that fixes the byte order |
| Md5.BlockKeepsBytes | base/md5.cc:88-94 | the words of a block are its bytes four by four, in order |
| Md5.PaddedExactly | base/md5.cc:112-141 | padding is a one bit, zeros up to the length, fewer than 64, and the length in the last eight bytes |
| Md5.LengthExactly | base/md5.cc:136-141 | which is the number of bits modulo 2^64, low word first |
| Md5.FillBlock | base/md5.cc:74-87 | completing a partial block folds that block in |
| Md5.CountAdds | base/md5.cc:63-68 | the two count words with the wrap-detected carry hold the exact 64-bit length |
| Md5.PadOneBlock | base/md5.cc:130-146 | padding that ends in the same block |
| Md5.PadTwoBlocks | base/md5.cc:124-131 | padding that takes a second block |
| Md5.LastBlockIsThere | base/md5.cc:124-141 | the last block holds the first padding byte or non-zero length bytes, for every message |
| Md5.MD5Context.Update | base/md5.cc:59-101 | after any piece the state is the fold over the full blocks, the remainder and the length of the whole message |
| Md5.MD5Context.Final | base/md5.cc:107-146 | the digest of sections 3.1 to 3.5 of RFC 1321; half of it, the bit count and a last block that is never all zero stay in the context |
| Md5.DigestOfPieces | base/md5.cc:44-146 | however a message is cut into pieces, the digest is that of the whole |
| Tickets.GenerateTicket | Ticket/TicketI.cpp:191-216 | three characters of the digest are replaced by digits of the user id |
| Tickets.BucketsAgree | Ticket/TicketI.cpp:130-140 | ticket and user fall into the same bucket exactly when the suffix has one character or the user's bucket is 0 |
| Tickets.SameDigestCollides | Ticket/TicketI.cpp:191-216 | from one digest two users get the same ticket exactly when they are in the same bucket |
| Tickets.SameTicketExactly | Ticket/TicketI.cpp:191-216 | two tickets are equal exactly when the digests agree outside the three places, the id digits agree and so do the suffixes |
| Tickets.DigitsInTicket | Ticket/TicketI.cpp:195-211 | the tens, hundreds and thousands digits of the id stand at places 7, 11 and 19 |
| Tickets.BucketExactly | Ticket/TicketI.cpp:130-136 | the bucket of any text: its three characters as digits, bytes counted as signed, none when the remainder is negative, 0 for other lengths |
| Tickets.NewTicketIsFound | Ticket/TicketI.cpp:110-140 | a generated ticket, entered in its user's shard, is found by its own digits exactly then |
| Tickets.AtomicKeepsInverse | Ticket/TicketI.cpp:47-103 | with atomic creates and new tickets the two maps stay exact inverses |
| Tickets.SetLeadsBackExactly | Ticket/TicketI.cpp:47-51 | entering a ticket keeps every user's ticket leading back exactly when it is no other user's current ticket |
| Tickets.SetActs | Ticket/TicketI.cpp:110-112 | setting in one shard is setting in the whole map |
| Tickets.DelUserActs | Ticket/TicketI.cpp:122-124 | deleting a user in one shard is deleting in the whole map |
| Tickets.DelTicketActs | Ticket/TicketI.cpp:126-128 | deleting a ticket in one shard is deleting in the whole map |
| Tickets.TicketMap.SetTicket | Ticket/TicketI.cpp:47-51 | enters both directions |
| Tickets.TicketMap.GetTicket | Ticket/TicketI.cpp:53-61 | the user's ticket or none |
| Tickets.TicketMap.GetUser | Ticket/TicketI.cpp:63-71 | the ticket's user or -1 |
| Tickets.TicketMap.DeleteUser | Ticket/TicketI.cpp:73-87 | removes the user and its ticket |
| Tickets.TicketMap.DeleteTicket | Ticket/TicketI.cpp:89-103 | removes the ticket and its user |
| Tickets.TicketHolder.SetTicket | Ticket/TicketI.cpp:110-112 | the thousand maps together enter both directions |
| Tickets.TicketHolder.GetTicket | Ticket/TicketI.cpp:114-116 | the lookup of the whole map |
| Tickets.TicketHolder.GetUser | Ticket/TicketI.cpp:118-135 | the lookup of the whole map; a ticket without bucket throws and is in no map |
| Tickets.TicketHolder.DeleteUser | Ticket/TicketI.cpp:122-124 | the deletion of the whole map |
| Tickets.TicketHolder.DeleteTicket | Ticket/TicketI.cpp:126-135 | the deletion of the whole map, or a throw that changes nothing |
| TicketExpiry.ConsistentStep | Ticket/TicketI.cpp:153-171 | every lock-level step keeps each user's ticket leading back to the user |
| TicketExpiry.TrackedStep | Ticket/TicketI.cpp:220-293 | no step lets a user with a live ticket fall out of the pipeline |
| TicketExpiry.RunKeepsInv | Ticket/TicketI.cpp:153-293 | on every interleaving each live ticket is being announced, unscheduled, taken, filed or collected |
| TicketExpiry.NoTicketWithoutPipeline | Ticket/TicketI.cpp:220-292 | once nothing is on its way through the pipeline, no user has a ticket |
| TicketExpiry.OnlyOverwritingBreaksInverse | Ticket/TicketI.cpp:153-164 | the maps stop being inverses exactly when a create enters a ticket over one entered since it looked |
| TicketExpiry.RunKeepsInverse | Ticket/TicketI.cpp:47-164 | on every run without that race the maps are exact inverses and every ticket that verifies is on its way to expiry |
| TicketExpiry.TicketEnds | Ticket/TicketI.cpp:73-103 | a step ends a ticket exactly when it destroys it or expires its user while it is the current one |
| TicketExpiry.RaceLeavesStaleTicket | Ticket/TicketI.cpp:153-164 | the run of two creates that both look before either stores ends with a stale first ticket |
| TicketExpiry.StaleTicketNeverExpires | Ticket/TicketI.cpp:153-164 | on every run a stale ticket verifies until it is destroyed or entered again |
| TicketExpiry.DeadlineOfLastFiling | Ticket/TicketI.cpp:220-224 | on every run a deadline is the duration after the user's latest filing |
| TicketExpiry.ExpiryIsDue | Ticket/TicketI.cpp:220-238 | on every run a user is collected only when more than the duration has passed since the latest filing |
| TicketExpiry.RemovalIgnoresRenewal | Ticket/TicketI.cpp:226-284 | on every run a removal follows a due collection of its user, and hits a user who is waiting for a later deadline exactly when the user was waiting right behind that collection or was renewed or given a new ticket since |
| TicketExpiry.FreshTicketIsRemoved | Ticket/TicketI.cpp:153-284 | a run that removes a ticket right after it was entered |
| TicketCleaners.TicketRecycle.GetExpired | Ticket/TicketI.cpp:226-238 | takes out each expired user once, in any order, with a clock that may advance inside the loop |
| TicketCleaners.FilingActs | Ticket/TicketI.cpp:261-263 | filing in one bucket is filing in the whole deadline map |
| TicketCleaners.CollectingActs | Ticket/TicketI.cpp:279-280 | collecting from one bucket is collecting from the whole deadline map |
| TicketCleaners.TicketCleaner.AddUser | Ticket/TicketI.cpp:261-263 | the filing of the whole deadline map |
| TicketCleaners.TicketCleaner.GetExpired | Ticket/TicketI.cpp:279-280 | the collection of one bucket: all that were overdue at the start, none that is not at the end |
| TicketCleaners.TicketService.CreateLook | Ticket/TicketI.cpp:155-158 | the first lock of a create is the step of the machine |
| TicketCleaners.TicketService.CreateStore | Ticket/TicketI.cpp:159-160 | a generated ticket is entered in one shard, as the step of the machine, wherever user and ticket fall into the same shard |
| TicketCleaners.TicketService.CreateAnnounce | Ticket/TicketI.cpp:161-161 | the third lock, as the step of the machine |
| TicketCleaners.TicketService.VerifyLook | Ticket/TicketI.cpp:175-176 | the ticket's user, -1 or a throw; announces again exactly for a known positive user |
| TicketCleaners.TicketService.QueryLook | Ticket/TicketI.cpp:184-185 | the user's ticket, announced again exactly when there is one |
| TicketCleaners.TicketService.AnnounceAgain | Ticket/TicketI.cpp:176-186 | the renewal, as the step of the machine |
| TicketCleaners.TicketService.DestroyTicket | Ticket/TicketI.cpp:166-171 | the step of the machine, and whether the ticket was known |
| TicketCleaners.TicketService.InputTake | Ticket/TicketI.cpp:267-267 | the swap of the input thread, as the step of the machine |
| TicketCleaners.TicketService.InputFile | Ticket/TicketI.cpp:269-271 | one filing, as the step of the machine |
| TicketCleaners.TicketService.OutputCollect | Ticket/TicketI.cpp:280-280 | one collection, as the step of the machine; nothing overdue stays in the bucket |
| TicketCleaners.TicketService.OutputRemove | Ticket/TicketI.cpp:281-284 | one deletion, as the step of the machine |
| TicketCleaners.TicketService.InputRound | Ticket/TicketI.cpp:267-272 | a round of the input thread files everyone announced with a fresh deadline and touches no other deadline |
| TicketCleaners.TicketService.OutputRound | Ticket/TicketI.cpp:278-285 | a round of the output thread ends every overdue user's ticket and exactly those |
| TicketCleaners.LateRoundEmpties | Ticket/TicketI.cpp:276-293 | a round after the last deadline with nothing else on the way leaves no user a ticket |

## Left out

- `Darts.DoubleArray.FindSlot`: growth is any size that holds the slots and the density test an arbitrary choice. The
  source's growth holds them from eighty keys on (`Darts.GrowthHoldsNode`) and can fall short below
  (`Darts.GrowthFallsShort`); rounding in the floating-point factor is not modelled.
- Arrays of 2^31 slots or more, where `begin` no longer fits the 32-bit base, and the value -2^31.
- Building over an array that was not cleared, which the source cannot do safely; `Build` starts on a cleared one.
- The `u4` variant of the prefix search, the 16-bit instance, file and zlib input and output, dictionary loading.
- The 6 KB key and result buffers of `CheckDict`: the model's buffers fit the text, and texts contain no NUL.
- Segmentation of texts with a cut that makes no progress, on which the loop does not end (`Segmentation.CutsAllExactly`,
  `Segmentation.EmptyWordAloneIsStuck`).
- The lock inside the ring, the 21-byte label buffer (a label's hash is a parameter), and the variance in the report.
- Queue shutdown beyond its effect on the worker's loop test, `Shrunk`, thread creation failures and the pool's
  message count. A queue has one worker, as in the pool.
- `MessageQueues.ThreadPool.GetIdle`: runs its two parts `Probe` and `Settle` without other callers in between; taken
  alone, they cover those.
- `strtoul` reading past the source: the parser stops at the source's end. `hex_encode` and `hex_decode` on buffers,
  and the string wrappers.
- URL fingerprints, character validation and the Windows variants.
- Big-endian byte reversal in MD5. The context is cleared as on a machine with 8-byte pointers.
- Negative user ids, logging, remote calls, sleeping and real time in the ticket service; a ticket's digest characters
  are a parameter. On runs, tickets are taken to be unique to their user. The source does not ensure that: a digest is of
  id, infos and time without separators, so id 1 with infos "0000x" and id 10000 with infos "x" share one within a second
  and fall into one bucket (`Tickets.SameDigestCollides`, `Tickets.SetLeadsBackExactly`). The endless thread loops are
  given as their critical sections and as one undisturbed round each; the threads' own lists are fields of the service.
- `ConsistentHash.Continuum.Rebuild`: runs its two critical sections `NewRing` and `Publish` without anything between them;
  what is published after an interleaving is the ring of the servers at the time of `NewRing`.
- `TicketCleaners.TicketService.CreateStore`: does not cover a ticket and user in different shards, where the thousand maps
  are no longer one map and the ticket is not found (`Tickets.NewTicketIsFound`).
