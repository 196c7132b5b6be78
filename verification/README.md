# smart-screen playback core in Dafny

This project models the playback core of the smart-screen media player, a Qt
and FFmpeg application, as pure Dafny functions and proves properties about
them. The model has five parts, one module each, plus four small support
modules.

- **RingQueue** (`ring_queue.dfy`) models `SPSCLockFreeQueue`. This is the fixed-size
  single-producer/single-consumer ring queue that carries decoded units between threads.
  - The queue is a sequence of slots, each a ready flag plus a payload, with unbounded write and read cursors. A cursor picks its slot through `cursor & (Size - 1)`.
  - `Items` gives the abstract contents and `Valid` is the representation invariant.
  - Every operation is proved against that abstraction. `RunIsFifo` shows that any sequential history of pushes and pops behaves as a FIFO queue.
- **AudioMixer** (`audio_output.dfy`) models `AudioOutput`, the single owner of the audio device. It covers:
  - the ten-entry registration table of producer ids;
  - the per-source queues of 20 ms packets and the splitting of large packets into period-sized chunks;
  - the per-period drain that tops up each source's wait buffer;
  - `mixAudioData`, which sums `int16` samples divided by the active-source count with C++ truncation and 16-bit wrap-around;
  - the output byte stream that the device consumes;
  - the stateless `mixAudioDataWithVolume`.

  PCM is handled byte by byte: samples are little-endian `int16` (module `Pcm`).
- **Playback** (`video_render.dfy`) models `VideoRender`, which synchronises video with audio. It covers:
  - one iteration of the render loop: release the head video frame once the audio clock has reached it, throttle by the frame interval, consume one audio unit and advance the clock;
  - `seekTo`, `openVideo`, `closeVideo` and `getDuration`.
- **CommandMatcher** (`voice_command_matcher.dfy`) models `VoiceCommandMatcher`. It covers:
  - text normalisation;
  - substring containment;
  - the shared-character similarity;
  - the scoring ladder (exact, contains 0.9, contained 0.8, similarity, aliases 0.85);
  - first-best selection and the threshold test;
  - command registration and the settings.
- **VideoList** (`video_function.dfy`) models the video-library helpers of `VideoFunction`. It covers:
  - the `/`-split direct-sub-path test;
  - the path lookup;
  - the "folders first, then by name" order;
  - the extension filter of `loadVideoList`.
- Support modules:
  - `Bits` is bitwise AND on naturals, with the proof that `c & (n - 1) == c % n` for powers of two.
  - `CInt` holds C integer behaviour: division that truncates toward zero, `int16`/`int32` wrap-around, and float-to-int truncation.
  - `Pcm` holds `int16` little-endian sample encoding.
  - `Text` applies a character map to a string; it models `QString::toLower` for both the matcher and the video list.

Several parts are supplied by the caller as parameters:
- anything the program gets from the operating system or a library: the wall clock, the device's `write` result, whether a codec managed to open or seek, and the file information the directory walk yields;
- `QString::toLower`, passed as a character map `lower`;
- the float speed multiplication, passed as `step`.

The model follows what the code does, including where that departs from what its own comments announce:
- **Mix cycle.** The comment above `mixAudioData` (s_function/play/AudioOutput.cpp:82) calls it an averaging algorithm that ignores volume. An average over the sources it adds would divide by their number. `mixAudioData` instead divides by the number of sources whose transport queue was non-empty at drain time (`queueSize`). It adds a share for every source whose wait buffer is non-empty, including sources whose queue was already empty. `AudioMixer.UncountedBufferWraps` shows that two such buffers of sample 20000 with `queueSize == 1` produce -25536.
- **Averaging.** Averaging two sources of constant value V would yield V. The code yields `2 * (V / 2)` with truncation, so an odd V loses one (`AudioMixer.TwoEqualSourcesHalve`).
- **Seek.** `seekTo` resets the timestamps but leaves `m_frameInterval` as it was, and `Playback.SeekTo` keeps it too.

## Model

| member | source | states |
|---|---|---|
| Bits.MaskIsMod | s_function/models/SPSCLockFreeQueue.h:51 | for a power-of-two size, masking a cursor with `size - 1` selects the same slot as `cursor % size` |
| Bits.PowerOfTwoTest | s_function/models/SPSCLockFreeQueue.h:30-31 | the static assertion `(Size & (Size - 1)) == 0` holds exactly for powers of two |
| RingQueue.SizeAcceptedIsPow2 | s_function/models/SPSCLockFreeQueue.h:30-31 | a size both static assertions accept is a power of two of at least 2 |
| RingQueue.Create | s_function/models/SPSCLockFreeQueue.inl:4-9 | a new queue is valid and empty, and every slot is not ready |
| RingQueue.Capacity | s_function/models/SPSCLockFreeQueue.inl:135-137 | the capacity of a valid queue is a power of two of at least 2 |
| RingQueue.Push | s_function/models/SPSCLockFreeQueue.inl:12-52 | push succeeds iff the queue holds fewer than Size items; on success the item is appended at the back and nothing else changes; on failure the queue is unchanged; validity is kept |
| RingQueue.Pop | s_function/models/SPSCLockFreeQueue.inl:55-78 | pop succeeds iff the queue is non-empty; on success it yields the oldest item and removes exactly that item; on failure the queue and the caller's variable are unchanged |
| RingQueue.TryPop | s_function/models/SPSCLockFreeQueue.inl:81-83 | same outcome as pop |
| RingQueue.Front | s_function/models/SPSCLockFreeQueue.inl:86-104 | yields the oldest item without removing it iff the queue is non-empty; otherwise the caller's variable is unchanged |
| RingQueue.Empty | s_function/models/SPSCLockFreeQueue.inl:107-112 | the ready-flag test under the read cursor is true exactly when the abstract contents are empty |
| RingQueue.Full | s_function/models/SPSCLockFreeQueue.inl:115-120 | the ready-flag test under the write cursor is true exactly when the queue holds Size items |
| RingQueue.Size | s_function/models/SPSCLockFreeQueue.inl:123-132 | the cursor difference equals the number of queued items and never exceeds the capacity |
| RingQueue.Clear | s_function/models/SPSCLockFreeQueue.inl:140-145 | popping until failure leaves a valid empty queue of the same capacity, with the write cursor untouched |
| RingQueue.Reset | s_function/models/SPSCLockFreeQueue.inl:148-160 | the queue becomes empty with both cursors at 0 and no slot ready |
| RingQueue.RunIsFifo | s_function/models/SPSCLockFreeQueue.inl:12-78 | over any sequential history of pushes and pops, the popped items followed by what remains equal the initial contents followed by the pushed items (FIFO, nothing lost or duplicated) |
| RingQueue.PushesFitWhileRoom | s_function/models/SPSCLockFreeQueue.h:59-71 | pushes with no pop in between all succeed while they fit, and are appended in order |
| RingQueue.FillToCapacity | s_function/models/SPSCLockFreeQueue.h:59-71 | from empty, Size pushes succeed and leave the queue full, after which push returns false |
| RingQueue.FrontAgreesWithPop | s_function/models/SPSCLockFreeQueue.h:87-94 | front reports the same success and item as the next pop, and succeeds exactly when empty() is false |
| CInt.TruncDiv | s_function/play/AudioOutput.cpp:92 | integer division rounds toward zero, as C++ does, for negative dividends too |
| CInt.Wrap16 | s_function/play/AudioOutput.cpp:92 | storing into an `int16_t` yields the value in [-32768, 32767] congruent mod 65536, and leaves in-range values unchanged |
| CInt.Wrap32 | s_function/play/VideoRender.cpp:178 | narrowing a 64-bit difference to `int` yields the congruent value in the 32-bit range, unchanged when in range |
| CInt.TruncReal | s_function/play/AudioOutput.cpp:140 | a float-to-int cast truncates toward zero |
| Pcm.DecodeEncode | s_function/play/AudioOutput.cpp:86-92 | reading back an encoded `int16` sample gives the sample |
| Pcm.EncodeDecodeAll | s_function/play/AudioOutput.cpp:86-92 | re-encoding the decoded samples of an even-length buffer gives the buffer back |
| AudioMixer.Init | s_function/play/AudioOutput.cpp:6-15 | the mixer starts with an all-zero id table, empty queues and wait buffers, and period 0 |
| AudioMixer.PeriodSize | s_function/play/AudioOutput.cpp:201 | the period is one second of PCM bytes divided by 50 and rounded down: 50 periods fit into one second, 51 do not |
| AudioMixer.PeriodSizeAt44100 | s_function/play/AudioOutput.cpp:200-201 | 44100 Hz, 16-bit mono gives a 20 ms period of 1764 bytes |
| AudioMixer.Register | s_function/play/AudioOutput.cpp:28-47 | a known id returns its first index with the table unchanged; otherwise the id takes the LAST free entry; with no free entry it returns -1 and the table is unchanged |
| AudioMixer.Unregister | s_function/play/AudioOutput.cpp:49-53 | entry `queueIndex % 10` is freed and every other entry is untouched |
| AudioMixer.RegisterIdempotent | s_function/play/AudioOutput.cpp:33-37 | registering an id again returns the same index and leaves the table as it is |
| AudioMixer.RegisterKeepsIdsUnique | s_function/play/AudioOutput.cpp:28-47 | registration never makes one non-zero id appear in two entries |
| AudioMixer.RegisterUnregisterRoundTrip | s_function/play/AudioOutput.cpp:28-53 | unregistering the index just handed to a new id restores the previous table |
| AudioMixer.Chunks | s_function/play/AudioOutput.cpp:58-79 | a packet is cut into pieces that concatenate back to the packet; a packet within the period stays whole; otherwise every piece but the last is exactly one period and none is empty |
| AudioMixer.AddAudioData | s_function/play/AudioOutput.cpp:55-80 | only the addressed source queue changes; it gains the packet's chunks in order, as many as its 8192 entries leave room for, and the chunks after that are dropped because the push result is ignored |
| AudioMixer.AddAudioDataKeepsBytes | s_function/play/AudioOutput.cpp:55-80 | when the chunks fit, the source's queued bytes become the old bytes followed by the packet |
| AudioMixer.DrainSlot | s_function/play/AudioOutput.cpp:232-235 | a source pops packets in order into its wait buffer until the buffer reaches one period or the queue runs out, and no byte is lost or reordered |
| AudioMixer.Drain | s_function/play/AudioOutput.cpp:228-239 | every source is topped up as above; the active count is the number of sources whose queue was non-empty; minSize is the smallest wait-buffer length among them, or 512 MiB when none is |
| AudioMixer.MixAudioData | s_function/play/AudioOutput.cpp:83-99 | the mix is minSize bytes; sample j is the 16-bit wrap of the sum, over every non-empty wait buffer, of that buffer's sample j truncated-divided by queueSize; an odd trailing byte is 0; each non-empty buffer loses its first minSize bytes |
| AudioMixer.ShareSumBounds | s_function/play/AudioOutput.cpp:88-93 | before wrap-around, a mixed sample lies within the number of contributing buffers times the largest per-source share |
| AudioMixer.NoWrapWhenCounted | s_function/play/AudioOutput.cpp:88-93 | when no more buffers contribute than queueSize counts, the sum already fits in `int16`, so the wrap is never taken |
| AudioMixer.SingleSourcePassThrough | s_function/play/AudioOutput.cpp:83-99 | with one source, an even minSize and queueSize 1, the mix is exactly that source's first minSize bytes |
| AudioMixer.UncountedBufferWraps | s_function/play/AudioOutput.cpp:88-94 | two non-empty wait buffers with queueSize 1 are both added in, and 20000 + 20000 wraps to -25536 |
| AudioMixer.TwoEqualSourcesHalve | s_function/play/AudioOutput.cpp:88-93 | two counted sources holding the same sample v mix to 2 * (v / 2) with truncating division, which equals v exactly when v is even |
| AudioMixer.Output | s_function/play/AudioOutput.cpp:246-255 | the mix is appended to the output stream; the device receives a prefix of at most one period, and what it accepted followed by the rest is the whole stream; a write result of -1 or 0 removes nothing |
| AudioMixer.OutputRunKeepsOrder | s_function/play/AudioOutput.cpp:246-255 | over any number of cycles, all bytes handed to the device followed by what is still pending equal the initial stream followed by every mix in order |
| AudioMixer.Cycle | s_function/play/AudioOutput.cpp:228-255 | one timer tick drains every source; with no active source the wait buffers are unchanged and the stream only loses what the device took; otherwise a minSize-byte mix is appended and the consumed bytes leave the wait buffers; the device takes nothing when `write` reports 0 or -1, exactly `written` bytes from the front of the stream when that many are queued, and never more than one period |
| AudioMixer.IdleAllEmpty | s_function/play/AudioOutput.cpp:229-230 | an active count of 0 means every source queue is empty |
| AudioMixer.MixWithVolume | s_function/play/AudioOutput.cpp:102-144 | the result is as long as the longer input; each sample is the clamped, truncated sum of the volume-scaled samples that exist in each input; an odd trailing byte is 0 |
| AudioMixer.MixWithVolumeIdentity | s_function/play/AudioOutput.cpp:102-144 | mixing an even-length buffer at volume 1 with an empty buffer returns the buffer unchanged |
| AudioMixer.MixWithVolumeSymmetric | s_function/play/AudioOutput.cpp:102-144 | exchanging the two (data, volume) pairs does not change the mix |
| AudioMixer.VolumeSamplePastShorter | s_function/play/AudioOutput.cpp:122-130 | past the end of the shorter input, the mix depends on the longer input only |
| Playback.NewRenderer | s_function/play/VideoRender.cpp:6-22 | a renderer starts stopped, with no path, a zero clock and empty unit queues |
| Playback.NextInterval | s_function/play/VideoRender.cpp:176-179 | the frame interval becomes the gap to the previous audio timestamp when that gap is non-negative and a previous timestamp exists; otherwise it keeps its value |
| Playback.Advance | s_function/play/VideoRender.cpp:176-187 | the first audio unit seeds the clock with its timestamp; afterwards the clock moves by the speed-scaled new interval; the last timestamp and last play time are recorded |
| Playback.Step | s_function/play/VideoRender.cpp:151-189 | a stopped renderer stops the loop and changes nothing; the head video frame is released iff it is due; a throttled iteration changes no clock field and consumes no audio; otherwise the oldest audio unit is forwarded iff one exists and it drives the clock |
| Playback.PlayKeepsOrder | s_function/play/VideoRender.cpp:151-189 | over any run of iterations, released frames and forwarded audio are prefixes of their queues, in queue order, and the rest is left queued |
| Playback.SpeedOneAdvance | s_function/play/VideoRender.cpp:184 | at speed 1.0 the clock advances by exactly the frame interval |
| Playback.IntervalOnThirdUnit | s_function/play/VideoRender.cpp:166-187 | with audio at 0, 40 and 80 ms, the interval stays 0 until the third unit (the 0 timestamp counts as unset), then becomes 40 and throttles the next iteration |
| Playback.SeekTo | s_function/play/VideoRender.cpp:81-95 | seeking stops playback, zeroes the three timestamps, keeps the frame interval and path, and empties a unit queue exactly when its decoder's seek succeeded |
| Playback.SeekIdempotent | s_function/play/VideoRender.cpp:81-95 | seeking twice to the same outcome equals seeking once |
| Playback.SeekStopsLoop | s_function/play/VideoRender.cpp:83 | after a seek the next loop iteration stops without changing anything |
| Playback.CloseVideo | s_function/play/VideoRender.cpp:122-132 | closing stops playback, forgets the path, zeroes the clock and empties both unit queues |
| Playback.CloseIsFresh | s_function/play/VideoRender.cpp:122-132 | a closed renderer is indistinguishable from a new one |
| Playback.OpenVideoAsWritten | s_function/play/VideoRender.cpp:105-120 | the same path returns true at once; a new path is recorded before the decoders are opened, and the result is whether both opened |
| Playback.OpenRetryAfterFailure | s_function/play/VideoRender.cpp:107-113 | after a failed open of a path, opening that path again returns true although nothing is open |
| Playback.OpenVideo | s_function/play/VideoRender.cpp:105-120 | a true result always means the path is open; the shortcut is taken only for the path that is currently open |
| Playback.OpenRetryReopens | s_function/play/VideoRender.cpp:105-120 | after a failed open, a retry really opens again and reports that attempt's outcome |
| Playback.Duration | s_function/play/VideoRender.cpp:56-59 | the reported position is in the 32-bit range, and for a non-negative clock it is the whole number of seconds elapsed |
| Playback.DurationAfterReset | s_function/play/VideoRender.cpp:81-132 | after a seek or a close the reported position is 0 |
| CommandMatcher.Strip | s_function/audioIdentify/VoiceCommandMatcher.cpp:165-168 | removing the punctuation and blanks leaves no removable character, and leaves a text without any unchanged |
| CommandMatcher.Normalize | s_function/audioIdentify/VoiceCommandMatcher.cpp:159-171 | normalised text is no longer than its input and contains no removable character |
| CommandMatcher.NormalizeConcat | s_function/audioIdentify/VoiceCommandMatcher.cpp:159-171 | normalisation works character by character: normalising a concatenation concatenates the normalised parts |
| CommandMatcher.NormalizeIdempotent | s_function/audioIdentify/VoiceCommandMatcher.h:113-116 | for an idempotent lower-casing, normalising twice equals normalising once |
| CommandMatcher.Contains | s_function/audioIdentify/VoiceCommandMatcher.cpp:154-157 | containment holds iff the pattern occurs at some position in the text |
| CommandMatcher.ContainsSplit | s_function/audioIdentify/VoiceCommandMatcher.cpp:154-157 | containment holds iff the text is some prefix, then the pattern, then some suffix |
| CommandMatcher.CommonCountIsIntersection | s_function/audioIdentify/VoiceCommandMatcher.cpp:138-149 | counting characters of the first string found and removed in the second gives the size of the multiset intersection |
| CommandMatcher.Similarity | s_function/audioIdentify/VoiceCommandMatcher.cpp:125-152 | the similarity lies in [0, 1]; it is 1 for two empty strings and 0 when exactly one is empty |
| CommandMatcher.SimilarityIsSharedShare | s_function/audioIdentify/VoiceCommandMatcher.h:102-106 | for non-empty strings the similarity is the shared-character multiset size over the longer length |
| CommandMatcher.SimilaritySymmetric | s_function/audioIdentify/VoiceCommandMatcher.cpp:125-152 | the similarity does not depend on argument order |
| CommandMatcher.SimilarityOneIffAnagram | s_function/audioIdentify/VoiceCommandMatcher.cpp:125-152 | the similarity is 1 exactly when the strings are anagrams of each other |
| CommandMatcher.BaseScore | s_function/audioIdentify/VoiceCommandMatcher.cpp:67-78 | a text containing the command scores 0.9; otherwise a command containing the text scores 0.8; otherwise the score is the similarity |
| CommandMatcher.FirstHit | s_function/audioIdentify/VoiceCommandMatcher.cpp:81-85 | the index of the first alias that contains or is contained in the text, or the alias count when there is none |
| CommandMatcher.AliasScore | s_function/audioIdentify/VoiceCommandMatcher.cpp:81-90 | aliases can only raise the score, and never above 1 |
| CommandMatcher.AliasScoreIsMax | s_function/audioIdentify/VoiceCommandMatcher.cpp:81-90 | the alias loop yields the largest of the starting score, the similarity of each alias before the first hit, and 0.85 if there is a hit, and it equals one of these |
| CommandMatcher.AliasMaxUnique | s_function/audioIdentify/VoiceCommandMatcher.cpp:81-90 | that description determines the score: two values meeting it are equal |
| CommandMatcher.AliasesAfterHitIgnored | s_function/audioIdentify/VoiceCommandMatcher.cpp:83-87 | the loop stops at the first hit: aliases after it never change the score |
| CommandMatcher.AliasScoreReaches | s_function/audioIdentify/VoiceCommandMatcher.cpp:81-90 | the first alias that contains or is contained in the text lifts the score to at least 0.85; every alias looked at before that lifts it to at least its similarity |
| CommandMatcher.Score | s_function/audioIdentify/VoiceCommandMatcher.cpp:57-91 | in exact mode a command scores 1 iff the normalised texts are equal and 0 otherwise; in fuzzy mode it is the maximum of the ladder score and the alias candidates, and exactly the ladder score for a command without aliases; always within [0, 1] |
| CommandMatcher.ContainedCommandScores | s_function/audioIdentify/VoiceCommandMatcher.cpp:67-70 | a command without aliases that occurs in the text scores exactly 0.9 |
| CommandMatcher.BestFromIsFirstArgMax | s_function/audioIdentify/VoiceCommandMatcher.cpp:93-100 | the winner is the first command with the highest positive score, or none when no score is positive |
| CommandMatcher.MatchWithInfo | s_function/audioIdentify/VoiceCommandMatcher.cpp:44-117 | empty text or no commands give (-1, ""); any other result names a command that wins and reaches the threshold |
| CommandMatcher.MatchFindsWinner | s_function/audioIdentify/VoiceCommandMatcher.cpp:94-111 | a winning command that reaches the threshold, and whose id is not -1, is the one returned |
| CommandMatcher.BelowThresholdNeverMatches | s_function/audioIdentify/VoiceCommandMatcher.cpp:103-116 | when every score is below the threshold, nothing matches |
| CommandMatcher.MatchCommand | s_function/audioIdentify/VoiceCommandMatcher.cpp:38-42 | the id is -1 or that of a command that wins and reaches the threshold, and it is the first component of the detailed match |
| CommandMatcher.PunctuationOnlyMatchesFirst | s_function/audioIdentify/VoiceCommandMatcher.cpp:44-117 | text made only of punctuation normalises to empty, which is contained in every command, so the first command wins with 0.8 at the default threshold |
| CommandMatcher.ExactModeNeedsEquality | s_function/audioIdentify/VoiceCommandMatcher.cpp:62-65 | in exact mode with a positive threshold, a match means the normalised command equals the normalised text |
| CommandMatcher.NewMatcher | s_function/audioIdentify/VoiceCommandMatcher.cpp:6-11 | a new matcher has no commands, fuzzy mode and threshold 0.6 |
| CommandMatcher.Register | s_function/audioIdentify/VoiceCommandMatcher.cpp:17-29 | the command is appended after the existing ones, and the settings are unchanged |
| CommandMatcher.RegisterAll | s_function/audioIdentify/VoiceCommandMatcher.cpp:31-36 | the entries are appended in order, each without aliases |
| CommandMatcher.ClearCommands | s_function/audioIdentify/VoiceCommandMatcher.cpp:119-123 | all commands are removed and the settings kept |
| CommandMatcher.ClearedMatchesNothing | s_function/audioIdentify/VoiceCommandMatcher.cpp:119-123 | after clearing, every text gives (-1, "") |
| CommandMatcher.SetExactMatch | s_function/audioIdentify/VoiceCommandMatcher.h:72-76 | only the mode changes |
| CommandMatcher.SetThreshold | s_function/audioIdentify/VoiceCommandMatcher.h:78-82 | only the threshold changes |
| VideoList.Split | s_main/video/VideoFunction.cpp:64-65 | splitting on '/' keeps empty parts, yields at least one part, no part contains '/', and joining the parts gives the path back |
| VideoList.SplitJoin | s_main/video/VideoFunction.cpp:64-65 | splitting the join of slash-free parts gives the parts back |
| VideoList.IsDirectSubPath | s_main/video/VideoFunction.cpp:62-75 | true means one more component; false with one more component means some leading component differs |
| VideoList.DirectSubPathIffChild | s_main/video/VideoFunction.cpp:62-75 | a path is a direct sub-path iff it is the current path, a '/', and one slash-free name |
| VideoList.NotOwnSubPath | s_main/video/VideoFunction.cpp:62-75 | no path is a direct sub-path of itself |
| VideoList.IsVideoExist | s_main/video/VideoFunction.cpp:77-86 | true iff some entry of the list has exactly that path |
| VideoList.LessTransitive | s_main/video/VideoFunction.cpp:90-102 | the comparison is transitive |
| VideoList.LessIncomparable | s_main/video/VideoFunction.cpp:90-102 | entries neither of which sorts first agree on kind and name, so incomparability is an equivalence and, with LessIrreflexive and LessTransitive, the comparison is a strict weak order as std::sort requires |
| VideoList.Sort | s_main/video/VideoFunction.cpp:88-103 | the result is a permutation of the list and is ordered by the comparison |
| VideoList.SortedOrder | s_main/video/VideoFunction.cpp:93-100 | in a sorted list every folder precedes every file, and within each group names do not decrease |
| VideoList.Collect | s_main/video/VideoFunction.cpp:133-147 | exactly the folders and the files with a listed extension become entries, each carrying its file's path, name, kind, size and date, with duration 0 |
| VideoList.CollectConcat | s_main/video/VideoFunction.cpp:133-147 | filtering a scan split in two gives the two filtered parts in order, so entries keep scan order and each kept file gives exactly one entry |
| VideoList.CollectAppend | s_main/video/VideoFunction.cpp:133-147 | one more scanned file adds its entry at the back exactly when it is kept |
| VideoList.LoadVideoList | s_main/video/VideoFunction.cpp:105-152 | the list is replaced iff some file was kept, and then by the sorted kept entries; otherwise the old list stays |
| VideoList.LoadedPathsAreKept | s_main/video/VideoFunction.cpp:133-150 | after a reload, a path is in the list iff it belongs to a kept file |
| VideoList.SuffixExamples | s_main/video/VideoFunction.cpp:125-135 | the extension test ignores case ("MKV" is kept), rejects other files ("txt"), and always keeps folders |

## Findings

| source | as written | input that shows it | evidently intended | confidence | as-written member | corrected member |
|---|---|---|---|---|---|---|
| s_function/play/VideoRender.cpp:105-120 | `m_videoFilePath` takes the new path at line 110, before either decoder is opened, and is not undone when an open fails | open path p with the video open failing: returns false but records p; open p again: line 107 returns true without opening anything | the early return applies only to a path that actually opened; a failed open leaves the renderer free to retry | not executed | Playback.OpenVideoAsWritten (Playback.OpenRetryAfterFailure) | Playback.OpenVideo (Playback.OpenRetryReopens) |

## Left out

- The memory orderings and atomics of the ring queue, and all threading. Each model is one sequential interleaving, and the mutexes of the mixer and renderer are not modelled.
- Wrap-around of the `size_t` cursors at 2^64, because the cursors are unbounded naturals. Overflow of the `qint64` timestamps is left out for the same reason.
- RingQueue.Push: models both the copy and the move overload, which behave the same.
- The device itself, `QAudioOutput` setup, the 20 ms timer, `initialize`/`cleanup` and interruption handling. The device's `write` result is a parameter in [-1, period].
- AudioMixer.MixAudioData: requires each non-empty wait buffer to hold at least `minSize` rounded down to even bytes (`MixReadable`). The source reads such a buffer out of bounds otherwise, which happens when a source's queue ran dry while a leftover shorter than `minSize` was still waiting. That read is undefined behaviour and has no model. AudioMixer.Cycle inherits this precondition through `CycleDefined`.
- AudioMixer.Chunks: a zero period with a non-empty packet loops forever in the source. That case is excluded by the precondition.
- AudioMixer.MixWithVolume: float arithmetic is modelled with exact reals. Single-precision rounding of `sample * volume` and of the sum is not modelled.
- Playback.Step: the speed product `(int)(m_playSpeed * m_frameInterval)` is an abstract `step` function. `ExactStep` gives the exact-real reading, which matches float behaviour only for intervals below 2^24. Video-frame and audio-unit payloads are type parameters, and forwarding audio to the mixer is reported as the `sent` payload.
- Decoders (`VideoCode`, `AudioCode`): opening, seeking and frame production are not modelled. Their success is an input, and a successful seek empties that decoder's queue. `setPlaySpeed`, `getTotalDuration`, `getWidth`/`getHeight` and `run`'s setup and teardown (registration with the mixer) are left out.
- CommandMatcher.Normalize: `QString::toLower` is a caller-supplied character map, so case mappings that change string length are not modelled. `\s` is taken as the ASCII white-space class.
- CommandMatcher.Score: `double` arithmetic is modelled with exact reals. Rounding of the similarity ratio, of `qMax` with 0.85, of the `>` comparison between candidates and of the `>=` test against the threshold is not modelled, so ties that rounding would break or create are decided exactly.
- CommandMatcher.Similarity: `QString` works on UTF-16 code units, while the model works on `char`. The `commandMatched` signal and logging are left out.
- VideoList.Sort: std::sort is not stable, so the order of entries that compare equal is not fixed. The model proves permutation and order only, and its insertion sort is one admissible result.
- VideoList.StrLess: `QString` `<` compares UTF-16 code units. The model compares `char`s lexicographically, which differs only for characters outside the Basic Multilingual Plane.
- VideoList.LoadVideoList: the recursive `QDirIterator` walk and `QFileInfo` are inputs (a sequence of file records). The date formatting is a given string, and `setVideoList`'s change signal and the current-path handling are left out.
