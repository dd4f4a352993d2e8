# little-oscar: a verified model

This project models three parts of little-oscar, a C library for Open Sound Control (OSC 1.0), and proves what they
promise. `dafny verify dfyconfig.toml` checks all of it.

**The timed queue** (`ideas/queue/`) is a growable array min-heap of message pointers ordered by due time, with
thread-safe wrappers around a mutex and a condition variable.

- `Times` has the borrowing subtraction (with any of its three pointers aliased) and the due test, proved exact in
  microseconds. The test honours a caller's threshold if and only if the threshold is at least -1 microsecond.
- `HeapSpec` and `QueueRuns` say what add and remove do to the heap as a sequence: every run refines an abstract
  priority queue on a bag of messages, draining sorts, sifting is logarithmic and the capacity stays below twice the
  peak. `MsgQueues` is the record in memory, an array changed in place, each method proved equal to that specification.
- `Blocking` is a step machine of threads that call the thread-safe functions, one step between any two points where
  another thread may run, with spurious wake-ups. Over every interleaving the lock excludes, messages are conserved,
  and deliveries are earliest and due. `Stranding` settles when a waiting message can be left with all takers parked:
  never with takers that loop, and in general exactly if there are a one-shot taker, another taker, a producer and room
  for two messages. `Sequential` shows that every interleaving is, on the queue, a sequential run in the order of the
  critical sections. `Progress` shows what threads can always still do: the lock is given up, no state is dead, and a
  thread that may run delivers, adds or gives way by its own steps alone.

**Address patterns** (`ideas/pattern.c`, without `[...]`).

- `PatternSyntax` is the grammar and its parser, `PatternVerify` the verifier's loops, proved to accept exactly the
  grammar and to answer STATIC exactly for texts without `*`, `?` and `{`.
- `PatternLanguage` gives patterns a declarative meaning (a text is a concatenation of pieces, one for each token) and
  the committing matcher on tokens, which is sound for every accepted pattern. `PatternComplete` and `PatternExact` say
  on which patterns it misses nothing, exactly and for every accepted pattern: every star is well placed and every group
  is fair, that is, whatever alternative a text begins with and whatever text of the remaining pattern follows, the first
  fitting alternative leaves a text of the remaining pattern.
- `PatternGroups` turns fairness into conditions to be checked by inspection. A group that what follows it can never
  continue (at the end of a segment, before a literal that continues no alternative) is fair exactly if no alternative is
  shadowed by a prefix before it, and a group before a star is always fair. So `/{ab,a}` and `/{ab,a}c` miss nothing,
  `/{a,ab}` loses `/ab` and `/{a,ab}c` loses `/abc`. A group is complete whatever surrounds it exactly if nothing in it
  overlaps.
- `PatternTexts` says the same of texts, character by character: which are static, which bodies of braces are groups, what
  `?`, `*`, a plain character and a group match.
- `PatternMatch` has the matcher's loops on the text of a pattern. They never read past a terminator and iterate at most
  pattern length + input length times in all.

**The packet codec** pairs the writer of `ideas/osc.c` with the reader of `src/read.c` and the walk of
`test/udp_dump.c`.

- `Bytes` has the byte-order macros on little- and big-endian hosts, `OscEncoding` the encoding of OSC 1.0 ("OSC Type
  Tag String", "OSC Bundles") as functions, `OscWriter` the writer on a byte array, `OscReader` the reader's cursors,
  `OscWalk` the recursive walk, collecting what the program prints.
- `OscRecord` has `osc_msg_reader_get_arg` and the eight bytes of the record it fills. For a blob the record's two members
  share their storage (`val_blob` is a union, `include/little-oscar/osc.h:104-107`), so the pointer to the data overwrites
  the length, and the program prints a part of that pointer. Arguments are therefore read in two ways here: through the
  record, as the program does, and with `osc_msg_reader_next_arg` and the typed getters, a blob with two separate outputs.
- `OscSafety`, `OscWalk` and `OscAccept` hold on arbitrary bytes; the last says exactly which bytes are accepted.
  `OscRoundTrip` and `OscTrees` hold on encoded packets, with and without type tags, `OscCutShort` on messages that end
  inside their arguments. `OscExamples` gives encodings byte by byte.
  `OscEndToEnd` runs the writer and then the walk.

Choices a reader should know:

- A pointer into a string or a buffer is a position; reading one is a proof obligation, so "never reads outside" is part
  of every method. A C string is a sequence without NUL; position `|s|` reads as NUL.
- Integers are unbounded except where width matters: 32- and 64-bit words, two's complement, and the signed overflow in
  `ROUND32` of a blob size, which is modelled as wrapping.
- Variable arguments are one typed list, whose tags are the format string. Floats are their raw words.
- `char` is signed, so a type tag from 128 up is negative and ends the arguments like a code.
- A machine is its byte order, its pointer size (4 or 8 bytes) and the address of the first byte of memory.
- The clock reading is a parameter. Message pointers are numbers, so that conservation counts pointers.
- Where code and comments disagree, the code is followed: the getters return 0 and -1, not 1 and 0
  (`include/little-oscar/osc.h:164-167`); they do not report every failure promised there (see
  `OscSafety.BlobReadSoundIff`); the record does not keep the length of a blob (see
  `OscRoundTrip.RecordHoldsWrittenIff`); a valid dynamic pattern is reported as 2, not 1 (`ideas/pattern.h:33`).

## Model

| member | source | states |
|---|---|---|
| Times.DiffIsExact | ideas/queue/queue.h:9-23 | the borrowing subtraction is exact on all times, normalised on normalised ones, and then its sign is the sign of its seconds |
| Times.TimevalDiff | ideas/queue/queue.h:15-23 | the same for the macro on objects in memory, whichever of the three pointers are the same object |
| Times.BeforeIsMicrosOrder | ideas/queue/queue.h:36-39 | the lexicographic comparison is the order of microsecond counts |
| Times.IsMsgDue | ideas/queue/queue.c:149-160 | the method with its two subtractions, the second aliased, answers as the due test |
| Times.IsDueExact | ideas/queue/queue.c:149-160 | due if and only if due time is at most now plus the threshold, in microseconds, where a threshold below -1 acts as -1 |
| Times.ThresholdHonouredIff | ideas/queue/queue.c:149-160 | the test means "at most the threshold after now" for all times if and only if the threshold is at least -1 microsecond |
| HeapSpec.SmallestIsFirstDue | ideas/queue/queue.c:86-101 | no message among a node and its children is due before the chosen one, and those at lower indices are due strictly later |
| HeapSpec.SiftUpPath | ideas/queue/queue.c:63-69 | sift-up moves only messages due strictly later, each to a child of its old place, and stops below one that is not |
| HeapSpec.SiftUpRestores | ideas/queue/queue.c:63-69 | sift-up turns a heap that is wrong only above one index into a heap with the same messages |
| HeapSpec.SiftDownRestores | ideas/queue/queue.c:86-111 | sift-down turns a heap that is wrong only below one index into a heap with the same messages |
| HeapSpec.SiftUpIsLogarithmic | ideas/queue/queue.c:63-69 | 2^swaps is at most the size after insertion |
| HeapSpec.SiftDownIsLogarithmic | ideas/queue/queue.c:86-111 | 2^swaps times the start position plus one is at most the size, so from the root 2^swaps is at most the remaining size |
| HeapSpec.AddHeapCorrect | ideas/queue/queue.c:44-73 | add keeps the heap order and adds exactly the message |
| HeapSpec.RemoveHeapCorrect | ideas/queue/queue.c:75-115 | remove keeps the heap order, takes out exactly the root, and no message is due before it |
| QueueRuns.RunRefines | ideas/queue/queue.c:44-115 | every run of adds and removes gives answers that a bag with remove-a-minimum allows, step by step, with messages conserved and the size bound of a fixed queue |
| QueueRuns.DrainSorts | ideas/queue/queue.c:75-115 | removing until empty yields every message once, in order of due time |
| QueueRuns.CapacityOfRun | ideas/queue/queue.c:46-56 | over any run the capacity is the initial one times a power of two, and once grown below twice the peak size |
| QueueRuns.RemoveDueExact | ideas/queue/queue.c:162-173 | NULL, with the queue unchanged, if and only if no message anywhere in it is due; otherwise an earliest message is taken out |
| MsgQueues.MsgQueue.constructor | ideas/queue/queue.c:19-30 | an empty queue of the given capacity, valid unless it is growable with capacity 0 |
| MsgQueues.MsgQueue.Add | ideas/queue/queue.c:44-73 | the array after growing and sifting in place is the specified heap; at most log2(size) swaps |
| MsgQueues.MsgQueue.Remove | ideas/queue/queue.c:75-115 | the array after sifting in place is the specified heap, the result its old root; at most log2(remaining size) swaps |
| MsgQueues.MsgQueue.RemoveDue | ideas/queue/queue.c:162-173 | the critical section of remove_due_s does what RemoveDueExact speaks of |
| Blocking.RunsKeepInv | ideas/queue/queue.c:131-223 | in every state of every interleaving: one lock holder at most, what it has seen of the queue still holds, the heap is valid, messages added are those delivered plus those queued, and each delivery took an earliest message, due if the call asked for that |
| Blocking.NoDuplicateDelivery | ideas/queue/queue.c:131-223 | no message is delivered more often than it was added; the rest is in the heap |
| Blocking.ParksOnlyOnEmptyQueue | ideas/queue/queue.c:175-223 | a thread comes to be parked only by a step taken with the lock on an empty queue |
| Blocking.GivesUpExactly | ideas/queue/queue.c:142-208 | in any interleaving, with the lock held: looking, a call gives up exactly on an empty queue; reading the clock, a due-taking call gives up exactly when no message in the queue is due at that reading |
| Progress.TakesAlone | ideas/queue/queue.c:142-223 | from every reachable state with the lock free and a message in the queue, any remover or taker neither parked nor gone (so also one that naps) delivers by its own steps alone, given a clock reading at which the root is due if it asks for that: an earliest message, with the lock free and the call over |
| Progress.LoopingConsumersDeliver | ideas/queue/main.c:30-37 | with takers that loop for ever, the lock free and the root due for them, one of them delivers by its own steps alone |
| Progress.NapGivesWay | ideas/queue/queue.c:201-208 | after a reading at which nothing is due, a taker's next step frees the lock, and then it can ask for it again |
| Progress.FindsNothingAlone | ideas/queue/queue.c:142-223 | with the lock free and the queue empty, a remover alone returns and a taker alone parks, and nothing else changes |
| Progress.FindsNoneDueAlone | ideas/queue/queue.c:162-208 | with no message due at a clock reading, a remover alone returns and a taker alone goes to nap, and nothing else changes |
| Progress.SpuriousWakeIsHarmless | ideas/queue/queue.c:178-181 | a thread woken without reason looks again, parks again on an empty queue, and nothing has changed |
| Progress.AddsAlone | ideas/queue/queue.c:131-140 | from every reachable state with the lock free, a producer adds by its own steps alone, and wakes a parked thread exactly if the queue was empty, took the message and one was parked |
| Progress.LockIsFreed | ideas/queue/queue.c:131-223 | in every reachable state the holder gives the lock up by its own steps alone |
| Progress.NoDeadlock | ideas/queue/queue.c:131-223 | while some thread is neither parked nor gone, a step other than a spurious wake-up is possible: the holder's, or with the lock free that thread's |
| Sequential.InterleavingIsSequential | ideas/queue/queue.c:131-223 | for every interleaving there are sequential runs of add and remove, one for each state, each longer than the one before by what the step in between does to the queue; each leaves the queue of its state, has given out exactly the messages delivered, in order, has taken in those added, and is legal for the bounded bag with remove-a-minimum |
| Stranding.LoopingConsumersAreNotStranded | ideas/queue/main.c:30-37 | with takers that loop for ever: whenever the lock is free and the queue is not empty, some taker is not parked |
| Stranding.UnsafeStrands | ideas/queue/queue.c:131-188 | with a one-shot taker beside another taker, a producer and room for two messages, a run leaves a message with all remaining takers parked |
| Stranding.NeverStrandsIff | ideas/queue/queue.c:131-223 | no interleaving strands a message if and only if the threads and the capacity are not of that kind |
| PatternSyntax.AcceptsIffInGrammar | ideas/pattern.c:14-61 | the parser accepts exactly the texts of the grammar, each with one reading |
| PatternVerify.VerdictMeaning | ideas/pattern.c:14-61 | INVALID exactly off the grammar; STATIC exactly for texts of the grammar without star, question mark or brace |
| PatternTexts.StaticIff | ideas/pattern.c:14-61 | static are exactly the C strings that begin with a slash, do not end with one, have no two in a row and hold none of space, `#`, `*`, `,`, `?`, `[`, `]`, `{`, `}` |
| PatternTexts.GroupIsDynamic | ideas/pattern.c:30-49 | any list of non-empty words without slash, space, `#`, `*`, `,`, `?`, `]`, `}` is a group, so that the text is dynamic |
| PatternTexts.BadCharacterInGroup | ideas/pattern.c:34-36 | slash, space, `#`, `*`, `?` or `]` before the closing brace makes the text invalid, whatever surrounds it |
| PatternTexts.EmptyWordInGroup | ideas/pattern.c:37-43 | so does a comma or the closing brace at the beginning of a group or behind a comma |
| PatternTexts.UnclosedGroup | ideas/pattern.c:49 | so does a group that is never closed |
| PatternTexts.StrayBrace | ideas/pattern.c:52-54 | so does a second closing brace with no opening one between the two |
| PatternTexts.BadCharacterIsInvalid | ideas/pattern.c:27-54 | space, `#`, `,`, `[`, `]` or `}` before the first brace makes the text invalid |
| PatternVerify.Verify | ideas/pattern.c:14-61 | the verifier's nested loops give that verdict for every C string and for NULL |
| PatternVerify.Pattern.Compile | ideas/pattern.c:63-72 | succeeds exactly on the grammar; a failure leaves the record alone |
| PatternLanguage.SegmentsAgree | ideas/pattern.c:91-153 | a text of a pattern's language has as many slashes as the pattern: star, question mark and braces never cross one |
| PatternLanguage.MatchIsSound | ideas/pattern.c:84-158 | for every accepted pattern, a match is a text of the language without an empty segment before the last |
| PatternComplete.CommitComplete | ideas/pattern.c:91-157 | from any point of any pattern with well placed stars and fair groups, the matcher finds every remaining match |
| PatternExact.CompleteIffFair | ideas/pattern.c:84-158 | for every accepted pattern: the matcher answers 1 exactly on the language (without empty inner segments) if and only if each star ends its segment, or is the first of exactly two that are a whole segment before another, and each group is fair: after any text of an alternative and of the remaining pattern, the chosen alternative leaves a text of the remaining pattern |
| PatternExact.ExactIffFair | ideas/pattern.c:91-100 | for every accepted pattern: the matcher decides the language itself, empty segments and all, if and only if also no segment before the last is made of stars only (an input like `//foo` is refused even for a star) |
| PatternExact.MisplacedStarIncomplete | ideas/pattern.c:110-113 | whatever the groups, a star placed otherwise loses a match |
| PatternGroups.InOrderIff | ideas/pattern.c:116-144 | the loop over alternatives chooses each one on its own text if and only if every alternative with a proper prefix before it stands before that prefix too |
| PatternGroups.FairIffInOrder | ideas/pattern.c:116-144 | a group whose alternatives nothing that follows can continue is fair if and only if its alternatives are in that order |
| PatternGroups.ShadowedAlternativeIncomplete | ideas/pattern.c:116-144 | whatever the rest of the pattern, a shadowed alternative of such a group loses a match |
| PatternGroups.CompleteIff | ideas/pattern.c:84-158 | for patterns in which each group is of that kind or stands before a star: the matcher finds every match if and only if the stars are well placed and no such group has a shadowed alternative |
| PatternGroups.ExactIff | ideas/pattern.c:91-100 | for such patterns: it decides the language itself if and only if also no segment before the last is made of stars only |
| PatternGroups.OrderMatters | ideas/pattern.c:116-144 | `/{ab,a}` and `/{ab,a}c` find every match, `/{a,ab}` and `/{a,ab}c` do not |
| PatternGroups.FairThoughShadowed | ideas/pattern.c:116-144 | `/{a,ab}?*` finds every match, although its group is of neither kind |
| PatternGroups.SafeGroupIff | ideas/pattern.c:116-144 | a group is complete in every pattern around it with well placed stars and groups free of overlaps if and only if none of its own alternatives is a proper prefix of another |
| PatternTexts.QuestionMarkMatches | ideas/pattern.c:103-109 | `/?` matches exactly a slash and one character but a slash |
| PatternTexts.StarMatches | ideas/pattern.c:110-113 | `/*` matches exactly a slash and any text without a slash |
| PatternTexts.CharacterMatches | ideas/pattern.c:145-151 | a slash and a character that is not special match exactly themselves |
| PatternTexts.GroupMatches | ideas/pattern.c:116-144 | a group of words none of which begins another matches exactly a slash and one of the words |
| PatternMatch.MatchGroup | ideas/pattern.c:116-144 | the loop over alternatives finds the first one the input begins with, its scans for comma and brace always arrive, in steps bounded by how far it moves in the pattern |
| PatternMatch.DoPatternMatch | ideas/pattern.c:84-158 | the loops on the text answer as the matcher on tokens, within pattern length + input length iterations |
| PatternMatch.StaticIsEquality | ideas/pattern.c:74-80 | for a static pattern comparing the texts gives the matcher's answer on every input |
| PatternMatch.Match | ideas/pattern.c:74-80 | both paths of a compiled pattern give the matcher's answer, and a match is in the language |
| Bytes.StoredWordIsBigEndian | ideas/osc.h:24-33 | on either host the converted and stored 32-bit word is the big-endian image |
| Bytes.StoredDoubleWordIsBigEndian | ideas/osc.h:24-33 | the two-half form does the same for 64 bits |
| Bytes.ConversionIsInvolution | include/little-oscar/osc.h:41-50 | converting twice is the identity, for both widths and hosts |
| Bytes.LoadedWord | src/read.c:115-120 | READ_FIXED recovers the number from its big-endian image, 32 bits |
| Bytes.LoadedDoubleWord | src/read.c:115-120 | the same for 64 bits |
| OscWriter.WriteAligned | ideas/osc.c:22-38 | succeeds exactly if the padded source fits, writes exactly that, and changes nothing on failure |
| OscWriter.LegalFormatIff | ideas/osc.c:63-94 | the arguments the loop can write are exactly those whose format characters are all among `TFNIihtfdsSb` |
| OscExamples.FooImage | ideas/osc.c:40-100 | the encoding of the second example of OSC 1.0, `/foo` with `iisff`, byte by byte |
| OscExamples.EveryImage | ideas/osc.c:40-100 | the encoding of a message with one argument for each format character, byte by byte |
| OscExamples.BundleImage | ideas/osc.c:118-162 | the encoding of a bundle, with its head and size field byte by byte |
| OscWriter.WriteMessage | ideas/osc.c:40-100 | writes exactly the OSC 1.0 encoding if the format characters are all among `TFNIihtfdsSb` and it fits, and returns its size as an int, exact for buffers below 2^31; else -1, and never a byte outside the buffer |
| OscWriter.BundleWriter.Start | ideas/osc.c:118-138 | succeeds exactly with 16 bytes of room, and then holds the empty bundle |
| OscWriter.BundleWriter.Write | ideas/osc.c:140-162 | the whole effect of a write, success or failure, for buffers of any size, with sizes cut to an int; it leaves position and length in step if and only if it succeeds or fewer than 4 bytes were left |
| OscWriter.FailedWriteLeavesGap | ideas/osc.c:140-162 | in a buffer of 32 bytes, after a write that does not fit, one that does succeeds behind a gap of 4 bytes, so that the bytes counted by the length are not the bundle of the message written |
| OscWriter.BundleWriter.WriteElement | ideas/osc.c:140-162 | after successful writes only, one more makes the buffer the encoding of the same messages and that one, in whole words, position and length in step and earlier bytes unchanged |
| OscReader.BundleReader.Init | src/read.c:8-18 | refuses less than 20 bytes and leaves the reader alone then |
| OscReader.BundleReader.Next | src/read.c:24-40 | returns the next element, its bounds and its type code, on either host |
| OscReader.MsgReader.Init | src/read.c:42-69 | opens a message: address, tag and argument pointers, or the error cases |
| OscReader.MsgReader.NextArg | src/read.c:101-113 | the next tag as a signed char, or a code |
| OscReader.MsgReader.ReadBlob | src/read.c:155-162 | the size field, the wrapped rounding, and the pointer moved by 4 on a refused blob |
| OscReader.MsgReader.ReadArg | src/read.c:101-162 | the next tag and then the getter it calls for, with its value; a blob with two separate outputs |
| OscRecord.LenUnderPointer | include/little-oscar/osc.h:104-107 | the length member of a blob, read after the data pointer was stored, is the upper half of the address on a big-endian machine with 8-byte pointers, otherwise the lower half |
| OscRecord.ArgRecord.Get | src/read.c:79-99 | code and cursor are those of the tag's getter, and the union's bytes, written in place, then show the value, or of a blob the place of its data and that half of the address as its length |
| OscRecord.NoLengthSurvives | include/little-oscar/osc.h:104-107 | where the lower half shows: if memory does not begin within its own size of a multiple of 2^32, no blob in it keeps its length |
| OscWalk.Walk | test/udp_dump.c:47-120 | the recursive loops over stateful readers and the record collect the specified tree with what the record shows of each argument, and terminate on any bytes |
| OscWalk.WalkIsWellNested | test/udp_dump.c:83-120 | on arbitrary bytes every bundle's elements tile it, at every depth, and the depth is at most length / 20 |
| OscWalk.BundleLayout | src/read.c:24-40 | on arbitrary bytes: elements inside the bundle, siblings disjoint and increasing, and 16 + the sum of 4 + length equal to the bundle length when OSC_END is reached |
| OscAccept.InitRefusesIff | src/read.c:42-69 | init refuses exactly a message whose padded address does not fit, or is followed by a comma and a padded string that does not fit; otherwise it finds tags exactly behind a comma and arguments exactly behind anything |
| OscAccept.PacketTypeIff | src/read.c:3-6 | a packet has a type exactly if its length is a positive multiple of 4, and is a bundle exactly if it begins with `#` |
| OscAccept.ElementCodeIff | src/read.c:24-40 | on arbitrary bytes: OSC_END exactly at the end, a positive code exactly if the size field is a positive multiple of 4 that stays inside, else OSC_ERROR |
| OscAccept.PacketReadIff | test/udp_dump.c:83-120 | the walk reads a packet exactly if its length is a positive multiple of 4 and it is a bundle of at least 20 bytes or a message that init does not refuse |
| OscAccept.WalkEndsIff | test/udp_dump.c:101-112 | on arbitrary bytes the walk of a bundle gets to OSC_END exactly if elements that fit fill it and init refuses no message among them, and then it has found those |
| OscCutShort.CutShortEndsInError | src/read.c:115-162 | of a message cut short inside its arguments, reading gives some of them as written and then OSC_ERROR, never OSC_END |
| OscCutShort.GettersFailIff | include/little-oscar/osc.h:163-166 | the getters for words and strings fail exactly if the argument would end beyond the message, and then move nothing; otherwise the pointer moves to its end |
| OscCutShort.BlobFailsIff | src/read.c:155-162 | so does the getter for blobs, by the wrapped rounding of the size, except that a refused blob leaves its size field consumed |
| OscCutShort.EndOfTagsIff | src/read.c:79-113 | get_arg answers OSC_END exactly at the terminator of the tags or at a tag byte of 254, its own value as a char |
| OscCutShort.TagsWithGetter | src/read.c:83-98 | with room for any argument, exactly the tags `TFNIihtfdsSkb` are read, others give OSC_ERROR |
| OscSafety.AnyCallsKeepCursor | src/read.c:42-162 | after any successful init on arbitrary guarded bytes, any sequence of next_arg and, unless the argument pointer is NULL, getters with sane blob sizes keeps the tag pointer at or before the terminator (or NULL) and the argument pointer aligned, inside the message and never moving back; in a message without arguments nothing moves |
| OscSafety.NoArgumentsIff | src/read.c:42-69 | a successful init leaves the argument pointer NULL, and the tag pointer too, if and only if the padded address is the whole message; getters, whose bound test NULL passes, must not be called then |
| OscSafety.AddressOnly | src/read.c:52-54 | `/a` padded to 4 bytes is such a message |
| OscSafety.StringCallKeeps | src/read.c:147-153 | a string that is returned lies with its NUL inside the message |
| OscSafety.BlobCallKeeps | src/read.c:155-162 | a blob of sane size that is returned lies inside the message |
| OscSafety.BlobReadSoundIff | src/read.c:155-162 | a blob read whose size field is inside the message is refused, or inside the message with the pointer moved forward, if and only if that field is from 0 to 2^31 - 4 |
| OscSafety.InsaneBlobIsAccepted | src/read.c:155-162 | in a real message whose last argument is a blob without data, every size field outside 0 to 2^31 - 4 is accepted, and the pointer moves by the wrapped rounding, never forward |
| OscSafety.NegativeBlobIsAccepted | src/read.c:155-162 | such a message of 12 bytes with a size field of -4 is opened and read with OSC_OK, and the pointer is back where it was |
| OscSafety.HugeBlobIsAccepted | src/read.c:155-162 | the same with a size field of 2^31 - 3, and the pointer is 2^31 bytes before the end of the message |
| OscRoundTrip.MessageRoundTrip | src/read.c:101-162 | a written message is opened with its address and tags, next_arg and the typed getters read its arguments back exactly, then OSC_END, with the argument pointer at the end |
| OscRoundTrip.UntaggedRoundTrip | src/read.c:42-162 | a message without type tags is opened with its address and a NULL tag pointer, next_arg answers OSC_ERROR, and the getters called in the order of its arguments read them back, up to its end |
| OscRoundTrip.RecordHoldsWrittenIff | src/read.c:79-99 | osc_msg_reader_get_arg succeeds on every written argument, and its record holds that argument if and only if it is not a blob, or the half of its data's address that shows as the length equals its length |
| OscRoundTrip.ArgsReportedIff | test/udp_dump.c:53-76 | all arguments of a message, read through the record, are those written if and only if that is so of each |
| OscRoundTrip.BundleRoundTrip | src/read.c:8-40 | a bundle written from any messages is read back as exactly those, in order, typed getters read each one's arguments up to the end of its element, then OSC_END; with no messages it is refused |
| OscRoundTrip.WalkBack | test/udp_dump.c:83-120 | the walk of any encoded tree of bundles and messages, tagged or not, from 4 bytes up, finds each element at its place, to any depth, with of each argument what the record shows |
| OscTrees.WalkInvertsEncoding | test/udp_dump.c:83-120 | with typed getters the walk recovers the same tree of messages, of those without tags the address and the data, if and only if no bundle in it is empty; through the record, as the program reads, if and only if moreover each blob's length equals that half of its data's address |
| OscEndToEnd.SendAndWalk | ideas/osc.c:111-170 | starting a bundle and writing messages succeeds exactly if all format characters are among `TFNIihtfdsSb` and the bundle fits; walking the buffer then finds exactly those messages, in order, and reads each to the end of its element |

## Left out

- `src/write.c`: an unfinished second writer, which omits the comma of the type tag string and never copies blob data.
- The reader half of `ideas/osc.c` (lines 176-364): superseded by `src/read.c`; its bundle walk skips size fields.
- The TUIO helpers (`ideas/osc.c:369-460`): fixed-format wrappers that would add only easy members.
- The timetag getter (`src/read.c:20-22`): it returns bytes in network order, so that no round trip can be claimed.
- Sockets, printing, thread creation, `usleep` durations and the scheduler's fairness; sleeping is an unlock and a lock.
- Failure of `malloc` and `realloc`, and overflow of `size_t`, `time_t` and pointers.
- The storage of messages: the queue never writes through its pointers, so a message is a value that carries its pointer.
- MsgQueues.MsgQueue.Add: not for a growable queue of capacity 0, where doubling leaves 0 and the code writes past the array.
- The shape of long functions: some blocks that are in line in the source (the turns of a loop, the parts of a message) are methods here; the branch for `[` in the matcher cannot be reached with a verified pattern.
- PatternGroups.CompleteIff: a corollary of `PatternExact.CompleteIffFair`, which covers every accepted pattern, for groups that can be judged by inspection.
- PatternGroups.ExactIff: for the same patterns; `PatternExact.ExactIffFair` covers every accepted pattern.
- OscWriter.BundleWriter.WriteElement: speaks of runs in which every earlier write succeeded, in buffers below 2^31 bytes; `Write` gives the effect of a failure and of larger sizes.
- OscWalk.Walk: prints nothing but returns what would be printed, without timetags, and of a blob its place as well; when a blob of insane size has moved the argument pointer below the start of memory the arguments end there, because what the program reads next is undefined.
- OscReader.MsgReader.ReadBlob: with two separate outputs; the aliased outputs of `osc_msg_reader_get_arg` are in `OscRecord.ArgRecord.GetBlob`.
