# Verified model of the core components

A Dafny model of the parts of this repository whose correctness is least visible from reading one
function, with proofs of what each part is for:

- **Futex locks** (`FutexLock.dfy`, `FutexLockTheorems.dfy`, `FutexCalls.dfy`, `LockObject.dfy`):
  `LockObjectSimple` and `LockObjectBrute` as one transition system over the futex word and the two counters, for any
  number of threads. Every atomic operation, plain counter read, FUTEX_WAIT, FUTEX_WAKE and loop
  edge is a step of one thread. `LockObject.Lock` performs the same steps in place.
- **Config compiler** (`ConfigGrammar.dfy`, `ConfigLayout.dfy`, `ConfigEncoding.dfy`,
  `ConfigParser.dfy`, `ConfigRoundTrip.dfy`, `ConfigReader.dfy`): a recursive grammar that gives each text a forest, the
  character state machine of `ParseConfig` proved to compile exactly that forest, and `find`, `_get`
  and `dump` proved to read it back.
- **Descriptor ordering** (`Descriptors.dfy`, `DescriptorNesting.dfy`, `DescriptorOrder.dfy`): the duplicate check, the entry
  count and the topological order of `render_proto`, and what the three give together.
- **Packets** (`SeqMapping.dfy`, `PacketQueue.dfy`, `PacketDelivery.dfy`, `PacketSequence.dfy`): the
  send and receive queues over wrapping 16-bit numbers, a network that reorders, duplicates and drops,
  and the slices of `PacketSequence`.
- **Bit streams** (`BitStream.dfy`, `BitWriter.dfy`, `BitReader.dfy`): the writer's words as one
  stream of bits, and the reader's account of the bits left.
- **Checksum** (`Checksum.dfy`): `ChecksumCalculator` and its use in `send_packet`, against sections 1
  and 2 of RFC 1071.
- **Reference counting** (`RefCounting.dfy`, `RefSafety.dfy`, `RefObjects.dfy`): `RefObject` and `Ref`
  as a transition system over interleavings, and as objects updated in place, aliasing included.

`Wrappers.dfy`, `Bytes.dfy`, `Sequences.dfy` and `Arithmetic.dfy` hold what they share. `dafny verify dfyconfig.toml`
checks everything.

Where the code and what it is meant to do differ, the model follows the code:

- A renumbering leaves an empty packet under the old number. Renumbering that number again, or sending
  the packet left there, can make the receiver miss nothing and lose the data. Two concrete runs show
  it (`CarelessRenumberingLosesData`, `SendingSpentNumberLosesData`), and from every state of a run such
  an action on a number with data can be continued to that outcome exactly when the number has been
  moved from and its packet is still queued (`DeceivesExactlyWhenCareless`).
- A packet pushed onto a number that is still in the send queue is dropped (`PieceStored`), and the one
  that has the number can be taken for it (`TakenNumberDeceives`). That comes about after one round of
  the 16-bit numbers (`RoundTakesNextNumber`), so the delivery theorem is about at most one round.
- A bit write drops high bits exactly when its type is narrower than the word and the part that goes
  into the current word is shifted past the type's width (`AppendsAllExactlyWhen`).
- `push_buffer` followed by `copy_data` gives the buffer back exactly when its size, and the mtu if
  more than one packet is needed, are even (`DataOfChunks`).
- For data of at least one full packet, `packet_loc` refuses all foreign numbers exactly when
  `(modulus - 1) * mtu` fits in `size_t` (`OthersRefusedExactlyWhen`). That it fits is enough for data
  of any size (`Refused`), but not necessary for shorter data (`ShortDataMayStillBeRefused`).
- `ChecksumCalculator::add` reads two bytes for a length of 0 and three for a length of 1
  (`ReadsItsBytesExactlyWhen`), so `send_packet` covers bytes after a payload that short. Beyond 131074
  bytes the 32-bit sum may wrap (`NeverWrapsExactlyWhen`), and each wrap is one lost modulo 65535.
- Assigning a `Ref` to itself drops its reference and leaves it empty (`Ref.Assign`,
  `AssignmentTakesEffect`).
- The "Too many strings" error of `end_opt` cannot occur: a third string is joined to the second
  (`ParseConfig.EndOption` proves the branch away).
- `get_name` is meant to name an enum class, but an enum class is not an instance of `Enum` and has no
  attribute `name`, so `validate_duplicates`, and with it `render_proto`, raises whenever an enum is
  reachable (`EnumIsRefused`, `ValidateDuplicates`). `count_entries` alone may miss an enum, because it
  does not look below a second descriptor of the same name.

## Model

| member | source | states |
|---|---|---|
| FutexLock.StepInv | utils/lock/brute.h:22-100 | every step of any thread keeps: the word is 0 or 1 and counts the holders, both counters count the threads between their +1 and -1, and no wakeup is lost |
| FutexLock.CountsPreserved | utils/lock/brute.h:22-62 | whatever a step does, word and counters change exactly as the number of threads in the regions they count |
| FutexLock.HelperHandsOver | utils/lock/brute.h:89-100 | with the lock free, a thread that stops being committed to help leaves another one that is, or no sleeper |
| FutexLock.NoLostWakeupPreserved | utils/lock/simple.h:30-51 | no step makes the word 0 with a thread asleep in `futex_wait(1)` and nobody to help, although one FUTEX_WAKE may pick a `wait()` caller instead |
| FutexLock.RunInv | utils/lock/brute.h:38-100 | the invariant holds after any schedule, for both locks and all template parameters |
| FutexLock.OwnerFacts | utils/lock/brute.h:89-100 | the word is 1 exactly when some thread holds the lock, and two never do |
| FutexLockTheorems.StepRefinesMutex | utils/lock/brute.h:38-62 | each step is a step of an abstract mutex: only a free one is taken, only its owner frees it |
| FutexLockTheorems.RunRefinesMutex | utils/lock/simple.h:30-70 | every run of either lock is a run of the abstract mutex |
| FutexLockTheorems.MutualExclusion | utils/lock/brute.h:18-62 | in every reachable state: at most one holder, one exactly when the word is 1, counters exact |
| FutexLockTheorems.NoWakeupIsLost | utils/lock/brute.h:38-62 | reachable, word 0 and a thread asleep in `futex_wait(1)`: another thread is still in its check-and-wake or awake on its way to a try |
| FutexLockTheorems.SkippedWakeIsCovered | utils/lock/brute.h:95-100 | when `unlock_c` skips `notify` because a spinner is counted, that spinner will still try or go on to a FUTEX_WAIT(1) that sees 0 |
| FutexLockTheorems.WaitReturnsHolding | utils/lock/brute.h:67-72 | whatever other threads do, a call of `wait` is left only by becoming the holder |
| FutexLockTheorems.SoloAcquires | utils/lock/brute.h:38-62 | a contender that is awake comes to hold a free lock by its own steps alone, in a number that does not depend on the spin limit |
| FutexLockTheorems.ReleaserAcquires | utils/lock/brute.h:74-100 | a thread in the middle of check-and-wake gets the lock taken even when everybody else sleeps |
| FutexLockTheorems.LockProgress | utils/lock/brute.h:38-100 | from every reachable state with the lock free and wanted, six steps without idle threads and spurious wakeups end in an acquisition |
| FutexLockTheorems.EveryHonestScheduleAcquires | utils/lock/brute.h:22-100 | every schedule without idle threads and spurious wakeups, longer than a weighted sum over the program counters, passes through an acquisition |
| FutexLockTheorems.NoLivelock | utils/lock/simple.h:30-70 | from every reachable state with the lock free and wanted, such a schedule can always start and cannot go on past seven steps per thread without the lock being taken |
| FutexCalls.NotifyWakes | utils/lock/simple.h:46-51 | `notify(n)` by the holder, undisturbed, wakes n sleepers, or all when there are fewer, and changes nothing else |
| FutexCalls.NotifyReachesWake | utils/lock/brute.h:74-79 | whatever others do, a `notify(n)` during which some thread stays between its +1 and -1 makes a FUTEX_WAKE that wakes n sleepers or all |
| FutexCalls.UnlockWakes | utils/lock/brute.h:95-100 | `unlock_c`, undisturbed, stores 0 and wakes one sleeper if there is one, in Brute only if nobody spins, and changes nothing else |
| FutexCalls.WaitReleasesAndSleeps | utils/lock/simple.h:39-44 | every call of `wait` stores 0 and then goes through FUTEX_WAIT(0), where it falls asleep exactly when the word is 0 |
| FutexCalls.ContendsThenSleeps | utils/lock/brute.h:38-62 | `lock_c` on a lock that stays held: one try, in Brute as many more as the limit says if fewer than the allowed threads spin, then asleep in FUTEX_WAIT(1) with both counters right |
| FutexCalls.SpinsForever | utils/lock/brute.h:40-46 | with a limit of 0 or less a spinner goes on while the lock is held |
| FutexCalls.ReturnsHolding | utils/lock/brute.h:38-62 | on a free lock a contender, alone, comes out of `lock_c` holding it |
| FutexCalls.WokenSleepsAgain | utils/lock/brute.h:59-61 | a waiter woken for a lock that is held tries once and sleeps again, without spinning |
| FutexCalls.NotifiedContends | utils/lock/brute.h:67-72 | a thread back from the FUTEX_WAIT(0) of `wait` contends as from the start of `lock_c` |
| FutexCalls.LockCanBeCalled | utils/lock/simple.h:61-65 | a thread outside can call `lock_c` and takes a free lock at its first try |
| FutexCalls.UnlockCanBeCalled | utils/lock/simple.h:67-70 | the holder can unlock, and alone the call returns |
| FutexCalls.WaitCanBeCalled | utils/lock/simple.h:39-44 | the holder can call `wait`, and alone it comes to sleep with the lock free |
| FutexCalls.NotifyCanBeCalled | utils/lock/simple.h:46-51 | the holder can notify any positive number, and alone the call returns |
| LockObject.Lock.RunSchedule | utils/lock/simple.h:11-70 | any schedule, run in place on the fields of the object step by step, is a run of the transition system and so of the abstract mutex |
| ConfigGrammar.PassIsOptions | config.h:136-217 | one pass with a stack of open blocks agrees with the recursive grammar at every depth, errors included |
| ConfigGrammar.PassIsDocument | config.h:130-217 | the same for a whole text |
| ConfigGrammar.PassSucceeds | config.h:144-160 | a pass goes through exactly when the rest keeps its braces balanced and each block follows one string |
| ConfigGrammar.NoForestExactlyWhen | config.h:144-160 | a text has no forest exactly when braces do not balance or some `{` does not follow exactly one string of its option |
| ConfigGrammar.ErrorTellsFirstFault | config.h:144-160 | the error is the one of the first fault: a block without just one string before it, a closing brace too many, or at the end one too few |
| ConfigLayout.LaidOutDenotes | config.h:142-206 | any text of bare and quoted words with blanks and free-standing colons between them, lines ended by semicolons or line ends and blocks in braces, denotes the forest its layout shows, with one space between the words of a value |
| ConfigLayout.BareTextDenotes | config.h:180-195 | every canonical forest of plain strings, written without quotes, is what its text denotes |
| ConfigLayout.JoinIsSpaced | config.h:113-121 | the strings of a value joined one by one are its words with one space between any two |
| ConfigEncoding.Le32RoundTrip | config.h:78-88 | a length written by `update_len` and read by `read_len` comes back modulo 2^32 |
| ConfigEncoding.StoredFormOf | config.h:222-226 | and every four bytes are the stored form of just one number |
| ConfigEncoding.EncodeAppend | config.h:85-111 | siblings are encoded one after another |
| ConfigEncoding.PatchLeaf | config.h:85-111 | patching the reserved length finishes an option of strings as its record |
| ConfigEncoding.PatchBlock | config.h:152-160 | patching at the popped position finishes a block as the record of its option |
| ConfigParser.ConsumeKeepsResult | config.h:136-208 | reading one character, with or without an unread, changes neither the forest nor the error of the text |
| ConfigParser.ParseConfig.UpdateLen | config.h:85-88 | the four bytes at the position become the length of what follows, all else is kept |
| ConfigParser.ParseConfig.EndOption | config.h:99-111 | `end_opt` in any state the parser reaches: the option is finished, and never with too many strings |
| ConfigParser.ParseConfig.StartStr | config.h:113-121 | a first string reserves a length, a third is joined to the second by a space |
| ConfigParser.ParseConfig.OpenBrace | config.h:144-151 | `{` opens a block or reports a wrong string count |
| ConfigParser.ParseConfig.CloseBrace | config.h:152-160 | `}` finishes the option, closes the block and patches its record, or is unmatching |
| ConfigParser.ParseConfig.Char | config.h:136-208 | one turn of the loop on the byte vector, the stack and `nstr` is one step of the scanner and the grammar's pass |
| ConfigParser.ParseConfig.Advance | config.h:137-208 | the text still to be read means the same after a turn; at most one unread in a row; the line counter is the newlines passed |
| ConfigParser.ParseConfig.Parse | config.h:130-217 | terminates; throws exactly when the text has no forest, with the grammar's error and the lines read; otherwise the output is the encoding of the forest |
| ConfigRoundTrip.PrintedDenotes | config.h:130-217 | the quoted text of a canonical forest denotes that forest |
| ConfigRoundTrip.PrintedNulFree | config.h:137 | that text has no NUL, so the parser reads all of it |
| ConfigRoundTrip.OptionsCanonical | config.h:113-160 | the grammar yields canonical nodes only: children under an empty value |
| ConfigRoundTrip.DenotesCanonical | config.h:113-160 | so every forest of a NUL-free text can be read back |
| ConfigReader.ReadRecord | config.h:222-240 | at the start of any record of a parse output, length, name and value are read in bounds and the next record starts where the length says |
| ConfigReader.LengthExactExactlyWhen | config.h:85-88 | the stored length of a record is its size exactly when the size is below 2^32 |
| ConfigReader.RebuildInverts | config.h:302-325 | the lines of `dump`, with their indentation, determine the forest |
| ConfigReader.ImmutableConfig.Parse | config.h:293-296 | after a successful parse the byte vector stores the text's forest, if its records are each below 2^32 bytes |
| ConfigReader.ImmutableConfig.ReadLen | config.h:222-226 | the number of 32 bits whose stored form is there; at the start of a record it leads to the next one |
| ConfigReader.ImmutableConfig.Find | config.h:228-241 | the payload of the first record with that name, or the empty span at the end |
| ConfigReader.ImmutableConfig.Get | config.h:243-252 | a value exactly when some option is the first of that name and has a non-empty value, and then that value |
| ConfigReader.ImmutableConfig.Dump | config.h:302-325 | terminates and prints every record once in preorder, indented by nesting depth |
| ConfigReader.ThereAndBack | config.h:293-325 | print, parse, dump and rebuild give any canonical quotable forest back |
| Descriptors.ChildrenSmaller | proto/render_all.py:42-57 | descriptors are finite trees: the children together are smaller than their parent |
| DescriptorNesting.ChildrenAreParts | proto/render_all.py:42-57 | `get_children` yields just the structs, union fields and enums of a struct's fields and of its array fields' items, the structs of a union, and the union of a union field |
| DescriptorNesting.ReachableIsNested | proto/render_all.py:42-57 | what walking the children reaches is what is nested anywhere in the heads, by recursion on the descriptors alone |
| DescriptorNesting.ConsistentIsUnambiguous | proto/render_all.py:60-72 | the check passes exactly when no enum is nested and no two different nested objects share a name |
| Descriptors.NamePathShrinks | proto/descr.py:91-131 | following references by name leads to smaller descriptors when names are unambiguous |
| Descriptors.NameGraphAcyclic | proto/render_all.py:60-72 | descriptors that pass the duplicate check have an acyclic name graph |
| DescriptorOrder.SortSorts | proto/render_all.py:108-110 | the sort by name sorts |
| DescriptorOrder.SortSums | proto/render_all.py:108-110 | and neither loses nor adds an entry |
| DescriptorOrder.SiblingsTake | proto/render_all.py:107-110 | pushing the children sorted keeps siblings in reverse alphabetical order on the way |
| DescriptorOrder.EnumIsRefused | proto/render_all.py:36-51 | descriptors that reach a struct with a field of an enum, or of an array of one, never pass the check |
| DescriptorOrder.ValidateDuplicates | proto/render_all.py:60-72 | raises exactly when two different reachable descriptors share a name or one has none, and the error tells the truth |
| DescriptorOrder.CountEntries | proto/render_all.py:75-89 | on consistent descriptors, the count of a name is the number of references to it from starts and reachable descriptors; an error is a reachable nameless object |
| DescriptorOrder.TakenBetween | proto/render_all.py:100-107 | a descriptor whose count reaches zero is new, all its parents have been taken and none of its children |
| DescriptorOrder.NothingMissing | proto/render_all.py:100-112 | when the stack is empty every reachable descriptor has been taken |
| DescriptorOrder.OrderDescrs | proto/render_all.py:92-112 | given those counts: every reachable name exactly once, every child before each of its parents, and of two children of one parent that nothing else refers to the alphabetically first before the other |
| DescriptorOrder.RenderOrder | proto/render_all.py:122-125 | succeeds exactly when names are unambiguous, and then gives the heads and all that is nested in them, each once, everything before whatever has it as a part |
| SeqMapping.EndsEverywhereExactlyWhenAcyclic | packet_queue.h:78-85 | following a mapping ends from every number exactly when it has no cycle |
| SeqMapping.ResolveIs | packet_queue.h:78-85 | resolution is the number any long enough following ends at |
| SeqMapping.DroppingKeepsAcyclic | packet_queue.h:95-98 | erasing entries keeps a mapping acyclic |
| PacketQueue.MissingAt | packet_queue.h:124-133 | nothing is missing exactly when every number of the range resolves to a packet that is there |
| PacketQueue.RangeIs | packet_queue.h:87-88 | a wrapping range is the numbers that fewer than its length of increments reach |
| PacketQueue.PacketRecvQueue.ResolveSeq | packet_queue.h:78-85 | terminates whenever the chain from that number ends, a cycle elsewhere or not, and returns the end of the chain |
| PacketQueue.PacketRecvQueue.ClearRange | packet_queue.h:87-100 | removes exactly the numbers of the wrapping range from both maps and keeps the mapping acyclic |
| PacketQueue.PacketRecvQueue.MoveSeq | packet_queue.h:102-105 | the same from the old start to the new one, which becomes the start |
| PacketQueue.PacketRecvQueue.ComputeRangeSize | packet_queue.h:107-122 | -1 when something is missing, otherwise the gathered bytes modulo 2^32 |
| PacketQueue.PacketRecvQueue.FindMissingPackets | packet_queue.h:124-133 | appends exactly the missing numbers in order |
| PacketQueue.PacketRecvQueue.PushPacket | packet_queue.h:135-138 | a first packet is kept, a duplicate changes nothing |
| PacketQueue.PacketRecvQueue.CopyData | packet_queue.h:140-155 | throws exactly when something is missing; up to 2^32 bytes it writes the gathered data up to the first gap, and never anything past its length |
| PacketQueue.PacketRecvQueue.ScanRange | packet_queue.h:107-155 | the three scans agree on whether the range is complete, whatever its size, and below 2^32 bytes the size is what is copied |
| PacketQueue.EvenNotComplete | packet_queue.h:107-122 | no total of data packets reads as -1, even when it wraps |
| PacketQueue.PacketSendQueue.PushPacket | packet_queue.h:198-200 | the payload goes under the next number |
| PacketQueue.PacketSendQueue.MovePacketUp | packet_queue.h:203-209 | the payload moves to the next number and leaves an empty packet |
| PacketQueue.PacketSendQueue.ClearRange | packet_queue.h:188-196 | removes exactly the numbers of the wrapping range |
| PacketQueue.PacketSendQueue.PushBuffer | packet_queue.h:211-222 | the buffer's chunks of mtu bytes go under consecutive numbers |
| PacketQueue.PieceStored | packet_queue.h:198-222 | over one round of numbers, a number holds its piece afterwards exactly when it was free or held an equal packet |
| PacketQueue.DataOfChunks | packet_queue.h:211-222 | the chunks that count as data make up the buffer exactly when it splits evenly |
| PacketQueue.ChunkCount | packet_queue.h:214-218 | how many chunks a buffer has |
| PacketQueue.ChunkAt | packet_queue.h:214-220 | the k-th chunk is the bytes from k times mtu on |
| PacketDelivery.RunKeeps | packet_queue.h:198-222 | every careful run, discarding and forgetting included, keeps: each number stands for one payload, wire and receiver hold true copies, and edges lead to later numbers with the same payload |
| PacketDelivery.ActionsAreOpen | packet_queue.h:135-222 | the sender can always push, split, renumber and send what it has queued, what is on the wire can be delivered, and each does to the queues what their own operations do |
| PacketDelivery.MappingAcyclic | packet_queue.h:203-209 | mapping entries that come from renumberings never form a cycle |
| PacketDelivery.ResolvedContent | packet_queue.h:78-85 | a number resolves to a packet with the payload first sent under it |
| PacketDelivery.ReliableReassembly | packet_queue.h:124-222 | after any reordering, duplication, loss, renumbering and clearing over one round of numbers, in which the packets left behind by renumberings are neither renumbered nor sent: a range with nothing missing gathers to the data of the chunks pushed, and to the buffer itself exactly when it splits evenly |
| PacketDelivery.DeceivesExactlyWhenCareless | packet_queue.h:203-209 | from every state of a run: renumbering or sending a number with data can be continued to "nothing missing, other data" exactly when its packet is one that a renumbering left behind |
| PacketDelivery.TakenNumberDeceives | packet_queue.h:198-200 | from every state with an acyclic mapping: a push onto a number still queued drops the payload, and if the packet there has other data the push can be continued to "nothing missing, other data" |
| PacketDelivery.RoundTakesNextNumber | packet_queue.h:211-222 | after a whole round of pieces the next number is one still queued |
| PacketDelivery.CarelessRenumberingLosesData | packet_queue.h:203-209 | a concrete run that renumbers a number twice: nothing is missing, yet the data is gone |
| PacketDelivery.SendingSpentNumberLosesData | packet_queue.h:203-209 | a concrete run that sends what a renumbering left behind: nothing is missing, yet the data is gone |
| PacketSequence.PacketSequence.PacketsCount | packet_sequence.h:29-36 | the least number of packets that cover the data |
| PacketSequence.PacketSequence.PacketLoc | packet_sequence.h:38-51 | the slice of a number, in bounds, or out of range, in wrapping arithmetic of both widths |
| PacketSequence.SlicesPartition | packet_sequence.h:14-51 | consecutive numbers, wrapping or not, give adjacent slices that cover the data, each the chunk `push_buffer` makes |
| PacketSequence.OthersRefusedExactlyWhen | packet_sequence.h:38-42 | for data of at least one full packet, every other number is refused exactly when the largest position fits in `size_t` |
| PacketSequence.Refused | packet_sequence.h:38-42 | for data of any size, every other number is refused if the largest position fits |
| PacketSequence.ShortDataMayStillBeRefused | packet_sequence.h:38-42 | for data shorter than a packet that is not necessary, by a concrete case |
| BitStream.BitsOfSum | proto/bit_writer.h:36-37 | merging a value above `k` low bits appends its bits to theirs |
| BitStream.BitsOfSplit | proto/bit_writer.h:40-46 | cutting a value at a word boundary cuts its bits there |
| BitStream.OrAbove | proto/bit_writer.h:41 | or-ing a shifted value into free bits is addition |
| BitStream.OrBits | proto/bit_writer.h:36-41 | the OR of the model is the bitwise one |
| BitStream.ShiftIntoWord | proto/bit_writer.h:41 | shifting in the value's type and truncating to a word keeps the bits for which both have room |
| BitStream.ValueOfBits | proto/bit_writer.h:34-38 | the specification decoder inverts the bits of a value that fits |
| BitWriter.BitBufferWriter.GetBitPos | proto/bit_writer.h:29-31 | the position is the number of bits written |
| BitWriter.BitBufferWriter.MergeLow | proto/bit_writer.h:41 | the word gains exactly the value's bits for which its type and the word have room above its own |
| BitWriter.BitBufferWriter.WriteUint | proto/bit_writer.h:33-54 | from any position, for any two widths and over any number of words: appends exactly the n bits of v, lowest first, when the write fits, and otherwise the same without the bits shifted out of the type |
| BitWriter.AppendsAllExactlyWhen | proto/bit_writer.h:34-53 | every value of n bits is appended whole exactly when the end of the write, or of the word, is within the type's width |
| BitWriter.WordWideShiftDefinedExactlyWhen | proto/bit_writer.h:36-41 | for values as wide as the word, the shift is one C++ defines exactly when the write does not start at a full word |
| BitWriter.BitBufferWriter.PickData | proto/bit_writer.h:76-82 | the words hold the stream, padded with zeros by less than a word |
| BitWriter.WriteAll | proto/bit_writer.h:29-82 | for any sequence of writes and any two widths, decoding the picked words at the recorded positions gives what each write appended, which is its value if it fits |
| BitReader.BitBufferReader.constructor | proto/bit_reader.h:57-63 | a new reader has `bit_size` bits left |
| BitReader.BitBufferReader.Shifted | proto/bit_reader.h:65-71 | a reader that skips bits has the others left |
| BitReader.BitBufferReader.ReadItem | proto/bit_reader.h:20-31 | throws exactly at the end, otherwise moves to a word inside the buffer |
| BitReader.BitBufferReader.ReadBits | proto/bit_reader.h:33-53 | throws exactly when fewer than n bits are left, otherwise n fewer are left |
| BitReader.ReadAll | proto/bit_reader.h:33-71 | a sequence of reads goes on exactly until its total exceeds the bits given |
| Checksum.WordSumAppend | udp4.h:25-34 | sections 1 and 2(A) of RFC 1071: data of even length is summed separately from what follows |
| Checksum.ReadsItsBytesExactlyWhen | udp4.h:26-34 | `add` sums just its bytes, whatever follows them, exactly when there are two or more |
| Checksum.NeverWrapsExactlyWhen | udp4.h:19-31 | 131074 bytes are exactly what the 32-bit sum can always hold |
| Checksum.FoldIs | udp4.h:36-41 | the folding loop gives the residue modulo 65535 in 1 to 65535, and zero only for zero |
| Checksum.ComplementAddsToOnes | udp4.h:36-41 | adding the checksum back folds to 0xFFFF |
| Checksum.ChecksumCalculator.Add | udp4.h:25-34 | adds the words it reads to the sum modulo 2^32 |
| Checksum.ChecksumCalculator.Finish | udp4.h:36-41 | terminates with the complement of the folded sum |
| Checksum.ChecksumOf | udp4.h:25-41 | however data is divided into even-length calls, the result is the checksum of the whole and verifies |
| Checksum.DatagramSum | udp4.h:202-210 | the sum over pseudo-header, header with its checksum filled in, and payload |
| Checksum.HeaderLayout | udp4.h:178-199 | where ports, length and checksum are in the header, and what the pseudo-header is |
| Checksum.SendPacket | udp4.h:197-210 | for any payload, the length field is 8 more in network order modulo 2^16, and the receiver accepts the datagram exactly when the bytes read, less one for each wrap of the sum, stand for the payload modulo 65535; so always for 2 to 131054 bytes |
| RefSafety.CountsAfter | utils/lock/refs.h:27-71 | a handle begins or ceases to account for a reference only by its own inc_ref, dec_ref or move |
| RefSafety.CountedAfter | utils/lock/refs.h:27-71 | so the number of handles that count for an object changes by what the step does to its count |
| RefSafety.ObjectKept | utils/lock/refs.h:11-57 | a step of any thread keeps: count equals references, one dec_ref saw 0 exactly when the count is 0, and its thread deletes the object |
| RefSafety.StepInv | utils/lock/refs.h:5-95 | every step of any thread keeps the whole invariant |
| RefSafety.RunInv | utils/lock/refs.h:5-95 | and so does every interleaving |
| RefSafety.NoDanglingHandle | utils/lock/refs.h:49-57 | in every reachable state a handle outside its own `clear` points to an object that is counted and not deleted |
| RefSafety.TouchesOnlyLive | utils/lock/refs.h:11-57 | no inc_ref, dec_ref or delete is made on a deleted object |
| RefSafety.DeletedAtMostOnce | utils/lock/refs.h:49-57 | the count is the handles that count plus the creator's reference; at most one dec_ref ever sees 0, and exactly when none is left |
| RefSafety.UnreferencedIsDeleted | utils/lock/refs.h:49-57 | nothing leaks: with all threads idle an object is deleted exactly when neither creator nor handle refers to it |
| RefSafety.NeverBlocked | utils/lock/refs.h:27-95 | every operation can always go on and is done after at most six of its own steps |
| RefSafety.OperationTakesEffect | utils/lock/refs.h:37-71 | whatever other threads do meanwhile, a finished operation has left in each handle what it was to leave |
| RefSafety.AssignmentTakesEffect | utils/lock/refs.h:59-71 | both assignments end with the other's pointer, or null on self-assignment; a move empties the other |
| RefSafety.ConstructionTakesEffect | utils/lock/refs.h:35-47 | each constructor leaves the new handle empty or pointing where it was made from; a copied other keeps its pointer, a moved one loses it |
| RefSafety.ReleaseTakesEffect | utils/lock/refs.h:49-95 | `clear` leaves the handle empty and the destructor leaves none |
| RefSafety.OperationsCanBeDone | utils/lock/refs.h:5-95 | every operation on what a thread owns can be begun and finished alone in at most six steps; a new object has its creator's reference, which is gone after the creator has dropped it |
| RefObjects.Ref.Raw | utils/lock/refs.h:37-39 | a handle made from a pointer is counted |
| RefObjects.Ref.Copy | utils/lock/refs.h:41-43 | a copy is counted and the other kept |
| RefObjects.Ref.Move | utils/lock/refs.h:45-47 | a move takes the reference over and empties the other |
| RefObjects.Ref.Clear | utils/lock/refs.h:49-57 | empties the handle, and deletes exactly the object whose last reference it held |
| RefObjects.Ref.Assign | utils/lock/refs.h:59-64 | copy assignment keeps all counts exact when the two handles are one or share an object, and deletes exactly the object whose last reference the target held, before it reads the other |
| RefObjects.Ref.AssignMoved | utils/lock/refs.h:66-71 | and so does move assignment |
| RefObjects.Ref.Destroy | utils/lock/refs.h:93-95 | the destructor gives up the handle's reference |
| RefObjects.DropCreator | utils/lock/refs.h:6-17 | the creator gives up the constructor's reference |

## Left out

- FutexLockTheorems.NoLivelock: says that some thread takes a free lock, not which; the code lets a given thread be overtaken for ever.
- FutexLockTheorems.WaitReturnsHolding: does not say that a notification reaches a waiter; between the release in `wait` and its FUTEX_WAIT(0) the word may be back at 0, so the code does not keep that promise.
- Memory orderings weaker than sequential consistency, and calls of `unlock_c`, `wait` or `notify` by a thread that does not hold the lock.
- `notify` with a number below 1.
- Timed waits (the overloads of `futex_wait` with a timeout), the results of `notify`, `locked`, and utils/lock/pthread.h.
- Overflow of the `int` counters `num_futex_waiters`, `num_brute_waiters` and `ref_count`, which needs 2^31 threads or handles.
- A bound on the number of spinners: the check against BRUTE_WAITERS_COUNT and the increment are separate steps, so none holds.
- The bytes that `ParseConfig` leaves in its output when it throws, and its message texts.
- ConfigReader.ImmutableConfig.Find: is stated for forests whose records are each below 2^32 bytes; a longer record has a stored length that is not its size, and what a walk finds after it depends on the bytes it lands on.
- ConfigReader.ImmutableConfig.Dump: the same.
- ConfigReader.ImmutableConfig.Get: the same, and it returns the text of the value; conversion by `cvt_val`, the overload with a default and `SubConfig` are not part of this model.
- Hosts that are not little-endian, on which the stored lengths, the checksum words and their bytes are laid out differently.
- DescriptorOrder.CountEntries: about its counts it promises nothing when the duplicate check would fail; the same holds for `OrderDescrs`, which may then fail with an unknown name. `RenderOrder` never calls them so.
- Descriptor attributes other than name, fields, item, struct, union and enum are one opaque `meta`; equality of descriptors is structural, as pydantic's is.
- An enum class with a member called `name`, for which the attribute lookup of `get_name` succeeds and returns that member.
- Rendering of the ordered descriptors (proto/render_cc.py, proto/render_py.py, proto/render_pyx.py) and proto/compat.py.
- PacketDelivery.ReliableReassembly: is about one round of the 16-bit numbers, counted from the start of the run, also when the sender has discarded packets and could use their numbers again.
- Nothing in the repository fills `seq_mapping`; the model enters pairs made by `move_packet_up`, for packets that existed.
- Memory management of `PacketDescr` (a moved-from packet has size 0) and allocation failure there and in `PacketSequence`; the counters `packets_count`, `packets_size`, `data_packets_size`; payloads of 2^32 bytes and more.
- PacketQueue.PacketRecvQueue.CopyData: the data gathered must fit in the destination, as `memcpy` demands of the caller; what the front of the destination holds after more than 2^32 bytes, when the offset starts over, is not stated.
- BitWriter.BitBufferWriter.WriteUint: leaves out shifts by the whole width of the value's type or more, which C++ does not define, and types narrower than `int`, which are promoted to a signed type.
- BitWriter.BitBufferWriter.PickData: leaves the last word in `out_v`; writing on afterwards is covered only when that word was 0, as the contract says.
- `write_uint_at`, whose one-word path clears lower bits.
- BitReader.BitBufferReader.ReadBits: states which reads throw and what is left, not the values returned; the masks at proto/bit_reader.h:36 and 49 keep one bit too many and the word order is not the writer's. `get_bit_pos` and `read_fragment` of the reader are left out for the same reason.
- Checksum.SendPacket: the other header fields and the send queue are not modelled.
- RefObjects.Ref.Assign: does not say what a handle holds that lies inside the object deleted on the way (`node = node->next`): the code reads it after its destruction. `AssignMoved` is the same. Deleting an object touches no handle in the model, in the transition system too, so objects deleted by the destructor of the deleted one are left out.
- RefCounting: two threads using one handle at once, and a pointer passed to `Ref(To*)` by a thread that holds neither the creator's reference nor a handle.
- crypto/, the drafts enc.h, dec.h, buffer.h and packet_buffer.h, tracker/, net/, conn/, sockets, BPF filters and logging.
