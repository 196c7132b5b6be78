/** The audio output mixer: the only writer to the sound device. Producers
    register a thread id for one of `MaxSources` slots, push PCM into that
    slot's queue in period-sized chunks, and every period the mixer drains the
    queues into per-slot wait buffers, averages them into one buffer, appends it
    to the output stream and writes at most one period of that stream to the
    device.

    Device set-up, the timer and the thread are not modelled; the device's
    `write` result is a parameter. Each slot queue is the ring queue of
    `RingQueue`, here seen through its contents: a push appends when fewer than
    `SlotQueueCapacity` chunks are queued and is otherwise dropped, and a pop
    takes the oldest chunk. */
module AudioMixer {
  import Bits
  import CInt
  import Pcm

  type Byte = Pcm.Byte

  /** `AUDIO_OUTPUT_MAX_QUEUE`: number of producer slots. */
  const MaxSources: nat := 10
  /** `AUDIO_OUTPUT_MAX_QUEUE_SIZE`: capacity, in chunks, of a slot queue. */
  const SlotQueueCapacity: nat := 1024 * 8
  /** `AUDIO_MAX_SIZE`: the starting value of the per-cycle minimum. */
  const MaxMixSize: int := 1024 * 1024 * 512

  /** Mixer state. `table` holds the registered thread ids (0 marks a free
      slot; the singleton's array starts zeroed), `queues` the pending chunks
      of each slot, oldest first, `wait` the bytes drained but not yet mixed,
      `out` the mixed stream not yet accepted by the device, and `period` the
      byte size of 20 ms of audio (0 until the mixer thread starts). */
  datatype Mixer = Mixer(
    table: seq<int>,
    queues: seq<seq<seq<Byte>>>,
    wait: seq<seq<Byte>>,
    out: seq<Byte>,
    period: int)

  ghost predicate Valid(m: Mixer)
  {
    && |m.table| == MaxSources
    && |m.queues| == MaxSources
    && |m.wait| == MaxSources
    && m.period >= 0
    && forall i :: 0 <= i < MaxSources ==> |m.queues[i]| <= SlotQueueCapacity
  }

  /** The mixer before its thread has run. */
  function Init(): (m: Mixer)
    ensures Valid(m) && m.period == 0
    ensures forall i :: 0 <= i < MaxSources ==> m.table[i] == 0 && m.queues[i] == [] && m.wait[i] == []
  {
    Mixer(seq(MaxSources, _ => 0), seq(MaxSources, _ => []), seq(MaxSources, _ => []), [], 0)
  }

  /** Bytes in 20 ms of PCM: rate * bits / 8 * channels / 50, in C++ `int`
      arithmetic (all operands positive, so division truncates downward). */
  function PeriodSize(sampleRate: nat, sampleSize: nat, channelCount: nat): (n: nat)
    ensures n * 50 <= sampleRate * sampleSize / 8 * channelCount < (n + 1) * 50
  {
    sampleRate * sampleSize / 8 * channelCount / 50
  }

  /** 44100 Hz, 16-bit mono: 20 ms of audio is 1764 bytes. */
  lemma PeriodSizeAt44100()
    ensures PeriodSize(44100, 16, 1) == 1764
  {
  }

  /** The thread start-up: the period size becomes known. */
  function Start(m: Mixer, sampleRate: nat, sampleSize: nat, channelCount: nat): (m': Mixer)
    requires Valid(m)
    ensures Valid(m') && m'.period == PeriodSize(sampleRate, sampleSize, channelCount)
    ensures m'.table == m.table && m'.queues == m.queues && m'.wait == m.wait && m'.out == m.out
  {
    m.(period := PeriodSize(sampleRate, sampleSize, channelCount))
  }

  // ---------------------------------------------------------------------
  // Source-slot table
  // ---------------------------------------------------------------------

  /** Result of the registration scan: the id was met at `index`, or the scan
      ended with `index` the last free slot seen (-1 if none). */
  datatype Scan = Found(at: nat) | Ended(lastFree: int)

  /** The registration loop from slot i on, with `free` the last free slot seen
      so far. */
  function ScanFrom(table: seq<int>, id: int, i: nat, free: int): (s: Scan)
    requires i <= |table| && -1 <= free < i
    requires free >= 0 ==> table[free] == 0 && 0 !in table[free + 1..i]
    requires free == -1 ==> 0 !in table[..i]
    ensures s.Found? ==> i <= s.at < |table| && table[s.at] == id && id !in table[i..s.at]
    ensures s.Ended? ==> id !in table[i..] && -1 <= s.lastFree < |table|
    ensures s.Ended? && s.lastFree >= 0 ==> table[s.lastFree] == 0 && 0 !in table[s.lastFree + 1..]
    ensures s.Ended? && s.lastFree == -1 ==> 0 !in table
    decreases |table| - i
  {
    if i == |table| then Ended(free)
    else if table[i] == id then Found(i)
    else
      var free' := if table[i] == 0 then i else free;
      ScanStep(table, i, free);
      var s := ScanFrom(table, id, i + 1, free');
      ScanBack(table, id, i, s);
      s
  }

  /** A slot passed over (it does not hold the id) extends the id-free range
      of the rest of the scan back to i. */
  lemma ScanBack(table: seq<int>, id: int, i: nat, s: Scan)
    requires i < |table| && table[i] != id
    requires s.Found? ==> i + 1 <= s.at < |table| && id !in table[i + 1..s.at]
    requires s.Ended? ==> id !in table[i + 1..]
    ensures s.Found? ==> id !in table[i..s.at]
    ensures s.Ended? ==> id !in table[i..]
  {
    var hi := if s.Found? then s.at else |table|;
    assert table[i + 1..] == table[i + 1..|table|] && table[i..] == table[i..|table|];
    NotInSlice(table, i + 1, hi, id);
    NotInSlice(table, i, hi, id);
  }

  /** One step of the scan keeps "`free` is the last free slot before i". */
  lemma ScanStep(table: seq<int>, i: nat, free: int)
    requires i < |table| && -1 <= free < i
    requires free >= 0 ==> table[free] == 0 && 0 !in table[free + 1..i]
    requires free == -1 ==> 0 !in table[..i]
    ensures table[i] != 0 && free >= 0 ==> 0 !in table[free + 1..i + 1]
    ensures table[i] != 0 && free == -1 ==> 0 !in table[..i + 1]
  {
    if table[i] != 0 && free >= 0 {
      NotInSlice(table, free + 1, i, 0);
      assert forall k :: free + 1 <= k < i + 1 ==> table[k] != 0;
      NotInSlice(table, free + 1, i + 1, 0);
    } else if table[i] != 0 {
      NotInSlice(table, 0, i, 0);
      assert forall k :: 0 <= k < i + 1 ==> table[k] != 0;
      NotInSlice(table, 0, i + 1, 0);
    }
  }

  lemma NotInSlice(t: seq<int>, lo: nat, hi: nat, x: int)
    requires lo <= hi <= |t|
    ensures x !in t[lo..hi] <==> forall k :: lo <= k < hi ==> t[k] != x
  {
    if x in t[lo..hi] {
      var m :| 0 <= m < hi - lo && t[lo..hi][m] == x;
      assert t[lo + m] == x;
    }
  }

  /** `addThreadIdToPlayQueue`: an id already present keeps its slot (the
      lowest one holding it) and the table is unchanged; a new id takes the
      highest-numbered free slot; with no free slot the answer is -1 and the
      table is unchanged. */
  function Register(table: seq<int>, id: int): (res: (seq<int>, int))
    requires |table| == MaxSources
    ensures |res.0| == MaxSources
    ensures id in table ==> && 0 <= res.1 < MaxSources && table[res.1] == id
                            && id !in table[..res.1] && res.0 == table
    ensures id !in table && 0 in table ==> && 0 <= res.1 < MaxSources && table[res.1] == 0
                                           && 0 !in table[res.1 + 1..] && res.0 == table[res.1 := id]
    ensures id !in table && 0 !in table ==> res.1 == -1 && res.0 == table
  {
    match ScanFrom(table, id, 0, -1)
    case Found(i) => (table, i)
    case Ended(free) => if free >= 0 then (table[free := id], free) else (table, -1)
  }

  /** `removeThreadIdFromPlayQueue`: frees slot `queueIndex % MaxSources`.
      C++ `%` truncates, so a negative index that is not a multiple of 10
      gives a negative remainder and addresses outside the array; a negative
      multiple of 10 frees slot 0, where C++ and Dafny `%` agree. */
  function Unregister(table: seq<int>, queueIndex: int): (t: seq<int>)
    requires |table| == MaxSources && (queueIndex >= 0 || queueIndex % MaxSources == 0)
    ensures |t| == MaxSources && t[queueIndex % MaxSources] == 0
    ensures forall i :: 0 <= i < MaxSources && i != queueIndex % MaxSources ==> t[i] == table[i]
  {
    table[queueIndex % MaxSources := 0]
  }

  /** Every nonzero id occupies at most one slot. */
  ghost predicate IdsUnique(table: seq<int>)
  {
    forall i, j :: 0 <= i < j < |table| && table[i] != 0 ==> table[i] != table[j]
  }

  /** Registering twice gives the same slot and the same table. */
  lemma RegisterIdempotent(table: seq<int>, id: int)
    requires |table| == MaxSources
    ensures var (t1, i1) := Register(table, id);
      i1 >= 0 ==> Register(t1, id) == (t1, i1)
  {
    var (t1, i1) := Register(table, id);
    if i1 >= 0 {
      assert t1[i1] == id;
      if id !in table {
        assert t1[..i1] == table[..i1];
        assert 0 !in table[i1 + 1..];
        assert id !in t1[..i1];
      }
    }
  }

  /** Registration keeps thread ids unique in the table. */
  lemma RegisterKeepsIdsUnique(table: seq<int>, id: int)
    requires |table| == MaxSources && IdsUnique(table)
    ensures IdsUnique(Register(table, id).0)
  {
    var (t1, i1) := Register(table, id);
    if id !in table && i1 >= 0 {
      forall i, j | 0 <= i < j < |t1| && t1[i] != 0
        ensures t1[i] != t1[j]
      {
        if i == i1 {
          assert table[j] in table;
        } else if j == i1 {
          assert table[i] in table;
        }
      }
    }
  }

  /** Unregistering the slot a new id was just given restores the table. */
  lemma RegisterUnregisterRoundTrip(table: seq<int>, id: int)
    requires |table| == MaxSources && id !in table
    ensures var (t1, i1) := Register(table, id);
      i1 >= 0 ==> Unregister(t1, i1) == table
  {
  }

  // ---------------------------------------------------------------------
  // Chunking and enqueueing
  // ---------------------------------------------------------------------

  function Concat<T>(cs: seq<seq<T>>): seq<T>
    decreases |cs|
  {
    if |cs| == 0 then [] else cs[0] + Concat(cs[1..])
  }

  lemma {:induction false} ConcatAppend<T>(a: seq<seq<T>>, b: seq<seq<T>>)
    ensures Concat(a + b) == Concat(a) + Concat(b)
    decreases |a|
  {
    if |a| > 0 {
      assert (a + b)[0] == a[0];
      assert (a + b)[1..] == a[1..] + b;
      ConcatAppend(a[1..], b);
      assert Concat(a + b) == a[0] + Concat(a[1..] + b);
    } else {
      assert a + b == b;
    }
  }

  /** The splitting loop: whole chunks of `size` bytes while they fit, then the
      remainder if there is one. */
  function SplitFull(data: seq<Byte>, size: nat): (cs: seq<seq<Byte>>)
    requires size > 0
    ensures Concat(cs) == data
    ensures forall k :: 0 <= k < |cs| ==> 0 < |cs[k]| <= size
    ensures forall k :: 0 <= k < |cs| - 1 ==> |cs[k]| == size
    decreases |data|
  {
    if |data| >= size then
      var rest := SplitFull(data[size..], size);
      assert data == data[..size] + data[size..];
      [data[..size]] + rest
    else if |data| > 0 then [data]
    else []
  }

  /** The chunks `addAudioDataToQueue` pushes for one packet. A packet no
      longer than the period goes as it is (even when empty). Otherwise it is
      cut into period-sized chunks plus a shorter non-empty tail. With a period
      of 0 the source loops forever on a non-empty packet, hence the
      precondition. */
  function Chunks(data: seq<Byte>, maxSize: int): (cs: seq<seq<Byte>>)
    requires maxSize > 0 || (maxSize == 0 && |data| == 0)
    ensures Concat(cs) == data
    ensures forall k :: 0 <= k < |cs| ==> |cs[k]| <= maxSize
    ensures |data| <= maxSize ==> cs == [data]
    ensures |data| > maxSize ==> forall k :: 0 <= k < |cs| ==> |cs[k]| > 0
    ensures |data| > maxSize ==> forall k :: 0 <= k < |cs| - 1 ==> |cs[k]| == maxSize
  {
    if |data| > maxSize then SplitFull(data, maxSize)
    else
      assert Concat([data]) == data + Concat<Byte>([]);
      [data]
  }

  /** Pushing each chunk in turn into a ring queue of `SlotQueueCapacity`
      chunks; a push onto a full queue fails and the chunk is lost (the source
      ignores the result of `push`). */
  function PushAll(queue: seq<seq<Byte>>, chunks: seq<seq<Byte>>): (q: seq<seq<Byte>>)
    requires |queue| <= SlotQueueCapacity
    ensures var room := SlotQueueCapacity - |queue|;
      q == queue + chunks[..if |chunks| <= room then |chunks| else room]
    ensures |q| <= SlotQueueCapacity
    decreases |chunks|
  {
    if |chunks| == 0 then queue
    else if |queue| < SlotQueueCapacity then
      var q := PushAll(queue + [chunks[0]], chunks[1..]);
      var room := SlotQueueCapacity - |queue|;
      assert chunks[..if |chunks| <= room then |chunks| else room]
          == [chunks[0]] + chunks[1..][..if |chunks| - 1 <= room - 1 then |chunks| - 1 else room - 1];
      q
    else
      PushAll(queue, chunks[1..])
  }

  /** `addAudioDataToQueue`: the packet's chunks are appended to the slot's
      queue as far as it has room; no other slot changes. */
  function AddAudioData(m: Mixer, queueIndex: int, data: seq<Byte>): (m': Mixer)
    requires Valid(m) && 0 <= queueIndex < MaxSources
    requires m.period > 0 || |data| == 0
    ensures Valid(m')
    ensures m'.table == m.table && m'.wait == m.wait && m'.out == m.out && m'.period == m.period
    ensures forall i :: 0 <= i < MaxSources && i != queueIndex ==> m'.queues[i] == m.queues[i]
    ensures var cs := Chunks(data, m.period);
      var room := SlotQueueCapacity - |m.queues[queueIndex]|;
      m'.queues[queueIndex] == m.queues[queueIndex] + cs[..if |cs| <= room then |cs| else room]
    ensures |m.queues[queueIndex]| + |Chunks(data, m.period)| <= SlotQueueCapacity ==>
      m'.queues[queueIndex] == m.queues[queueIndex] + Chunks(data, m.period)
  {
    var cs := Chunks(data, m.period);
    m.(queues := m.queues[queueIndex := PushAll(m.queues[queueIndex], cs)])
  }

  /** When the slot has room, the bytes appended to its queue are the packet. */
  lemma AddAudioDataKeepsBytes(m: Mixer, queueIndex: int, data: seq<Byte>)
    requires Valid(m) && 0 <= queueIndex < MaxSources && m.period > 0
    requires |m.queues[queueIndex]| + |data| <= SlotQueueCapacity
    ensures var m' := AddAudioData(m, queueIndex, data);
      Concat(m'.queues[queueIndex]) == Concat(m.queues[queueIndex]) + data
  {
    var q := m.queues[queueIndex];
    var cs := Chunks(data, m.period);
    var q' := AddAudioData(m, queueIndex, data).queues[queueIndex];
    ChunkCountBound(data, m.period);
    if |cs| <= SlotQueueCapacity - |q| {
      assert q' == q + cs;
      ConcatAppend(q, cs);
    } else {
      assert |data| == 0 && cs == [data];
      assert cs[..SlotQueueCapacity - |q|] == [];
      assert q' == q;
      assert Concat(q) + data == Concat(q);
    }
  }

  /** There are never more chunks than bytes, except the single empty chunk of
      an empty packet. */
  lemma {:induction false} ChunkCountBound(data: seq<Byte>, maxSize: int)
    requires maxSize > 0
    ensures |Chunks(data, maxSize)| <= |data| || (|data| == 0 && |Chunks(data, maxSize)| == 1)
  {
    if |data| > maxSize {
      SplitCountBound(data, maxSize);
    }
  }

  lemma {:induction false} SplitCountBound(data: seq<Byte>, size: nat)
    requires size > 0
    ensures |SplitFull(data, size)| <= |data|
    decreases |data|
  {
    if |data| >= size {
      SplitCountBound(data[size..], size);
    }
  }

  // ---------------------------------------------------------------------
  // Drain step of a mix cycle
  // ---------------------------------------------------------------------

  lemma ConcatTake<T>(cs: seq<seq<T>>, j: nat)
    requires j < |cs|
    ensures Concat(cs[..j + 1]) == cs[0] + Concat(cs[1..][..j])
  {
    assert cs[..j + 1] == [cs[0]] + cs[1..][..j];
    assert Concat([cs[0]] + cs[1..][..j]) == cs[0] + Concat(cs[1..][..j]);
  }

  /** How many chunks the drain loop pops into a wait buffer: it stops as soon
      as the buffer holds a full period or the queue is empty. */
  function DrainCount(queue: seq<seq<Byte>>, wait: seq<Byte>, period: int): (k: nat)
    ensures k <= |queue|
    ensures k < |queue| ==> |wait + Concat(queue[..k])| >= period
    ensures forall j :: 0 <= j < k ==> |wait + Concat(queue[..j])| < period
    decreases |queue|
  {
    if |wait| >= period || |queue| == 0 then 0
    else
      var k' := DrainCount(queue[1..], wait + queue[0], period);
      DrainStep(queue, wait, period, k');
      k' + 1
  }

  /** One more pop in front of a drain of the rest keeps the stopping rule. */
  lemma DrainStep(queue: seq<seq<Byte>>, wait: seq<Byte>, period: int, k': nat)
    requires |wait| < period && |queue| > 0 && k' <= |queue| - 1
    requires k' < |queue| - 1 ==> |(wait + queue[0]) + Concat(queue[1..][..k'])| >= period
    requires forall j :: 0 <= j < k' ==> |(wait + queue[0]) + Concat(queue[1..][..j])| < period
    ensures k' + 1 < |queue| ==> |wait + Concat(queue[..k' + 1])| >= period
    ensures forall j :: 0 <= j < k' + 1 ==> |wait + Concat(queue[..j])| < period
  {
    forall j | 0 <= j < k' + 1
      ensures |wait + Concat(queue[..j])| < period
    {
      if j > 0 {
        ConcatTake(queue, j - 1);
        assert wait + Concat(queue[..j]) == (wait + queue[0]) + Concat(queue[1..][..j - 1]);
      } else {
        assert queue[..0] == [];
      }
    }
    if k' < |queue| - 1 {
      ConcatTake(queue, k');
      assert wait + Concat(queue[..k' + 1]) == (wait + queue[0]) + Concat(queue[1..][..k']);
    }
  }

  /** Result of the drain step: the queues and wait buffers afterwards, the
      number of slots that took part (`queueSize`) and the smallest wait buffer
      among them (`minSize`). */
  datatype Drained = Drained(queues: seq<seq<seq<Byte>>>, wait: seq<seq<Byte>>, queueSize: int, minSize: int)

  /** Number of non-empty entries: the slots whose queue is non-empty (the
      active count) or the non-empty wait buffers. */
  function NonEmptyCount<T>(xs: seq<seq<T>>): (n: nat)
    ensures n <= |xs|
    decreases |xs|
  {
    if |xs| == 0 then 0
    else (if |xs[0]| > 0 then 1 else 0) + NonEmptyCount(xs[1..])
  }

  /** The `qMin` accumulation over slots i.. whose queue was non-empty. */
  function MinFrom(queues: seq<seq<seq<Byte>>>, wait: seq<seq<Byte>>, i: nat, acc: int): (r: int)
    requires |queues| == |wait| && i <= |queues|
    ensures r <= acc
    ensures forall j :: i <= j < |queues| && |queues[j]| > 0 ==> r <= |wait[j]|
    ensures r == acc || exists j :: i <= j < |queues| && |queues[j]| > 0 && r == |wait[j]|
    decreases |queues| - i
  {
    if i == |queues| then acc
    else MinFrom(queues, wait, i + 1, if |queues[i]| > 0 && |wait[i]| < acc then |wait[i]| else acc)
  }

  /** One slot after the drain: a queue that was empty leaves the slot alone;
      otherwise a prefix of the queue has moved, in order, onto the end of the
      wait buffer, stopping at the first point where the buffer holds a full
      period or the queue is empty. */
  ghost predicate DrainedSlot(queue: seq<seq<Byte>>, wait: seq<Byte>, period: int, queue': seq<seq<Byte>>, wait': seq<Byte>)
  {
    if |queue| == 0 then queue' == queue && wait' == wait
    else
      exists k ::
        && 0 <= k <= |queue|
        && queue' == queue[k..]
        && wait' == wait + Concat(queue[..k])
        && (|wait'| >= period || queue' == [])
        && (forall j :: 0 <= j < k ==> |wait + Concat(queue[..j])| < period)
  }

  /** The drain loop for one slot. */
  function DrainSlot(queue: seq<seq<Byte>>, wait: seq<Byte>, period: int): (res: (seq<seq<Byte>>, seq<Byte>))
    ensures DrainedSlot(queue, wait, period, res.0, res.1)
  {
    if |queue| == 0 then (queue, wait)
    else
      var k := DrainCount(queue, wait, period);
      assert k == |queue| ==> queue[k..] == [];
      (queue[k..], wait + Concat(queue[..k]))
  }

  /** The drain part of the timer callback: each slot with a non-empty queue
      pops chunks into its wait buffer until the buffer holds a full period or
      the queue runs dry; other slots are left alone. */
  function Drain(m: Mixer): (d: Drained)
    requires Valid(m)
    ensures |d.queues| == MaxSources && |d.wait| == MaxSources
    ensures d.queueSize == NonEmptyCount(m.queues)
    ensures forall i :: 0 <= i < MaxSources ==>
      DrainedSlot(m.queues[i], m.wait[i], m.period, d.queues[i], d.wait[i])
    ensures d.minSize <= MaxMixSize
    ensures forall i :: 0 <= i < MaxSources && |m.queues[i]| > 0 ==> d.minSize <= |d.wait[i]|
    ensures d.minSize == MaxMixSize || exists i :: 0 <= i < MaxSources && |m.queues[i]| > 0 && d.minSize == |d.wait[i]|
  {
    var slots := seq(MaxSources, i requires 0 <= i < MaxSources => DrainSlot(m.queues[i], m.wait[i], m.period));
    var queues := seq(MaxSources, i requires 0 <= i < MaxSources => slots[i].0);
    var wait := seq(MaxSources, i requires 0 <= i < MaxSources => slots[i].1);
    Drained(queues, wait, NonEmptyCount(m.queues), MinFrom(m.queues, wait, 0, MaxMixSize))
  }

  // ---------------------------------------------------------------------
  // Equal-share mixing
  // ---------------------------------------------------------------------

  /** Every non-empty wait buffer holds sample j. */
  predicate HasSample(wait: seq<seq<Byte>>, j: nat)
  {
    forall i :: 0 <= i < |wait| && |wait[i]| > 0 ==> 2 * j + 1 < |wait[i]|
  }

  /** The exact sum, over non-empty wait buffers, of sample j divided (C++
      division) by `queueSize`. */
  function ShareSum(wait: seq<seq<Byte>>, queueSize: int, j: nat): int
    requires queueSize > 0 && HasSample(wait, j)
    decreases |wait|
  {
    if |wait| == 0 then 0
    else
      (if |wait[0]| > 0 then CInt.TruncDiv(Pcm.SampleAt(wait[0], j), queueSize) else 0)
      + ShareSum(wait[1..], queueSize, j)
  }

  /** The source's accumulation `dst[j] += (int16_t)(src[j] / queueSize)` over
      the slots in order, each store narrowing to `int16_t`. */
  function Accumulate(wait: seq<seq<Byte>>, queueSize: int, j: nat, acc: int): (r: int)
    requires queueSize > 0 && HasSample(wait, j) && CInt.IsInt16(acc)
    ensures r == CInt.Wrap16(acc + ShareSum(wait, queueSize, j))
    decreases |wait|
  {
    if |wait| == 0 then acc
    else if |wait[0]| > 0 then
      HasSampleTail(wait, j);
      var share := CInt.TruncDiv(Pcm.SampleAt(wait[0], j), queueSize);
      CInt.ShareIsInt16(Pcm.SampleAt(wait[0], j), queueSize);
      CInt.Wrap16Add(acc + share, ShareSum(wait[1..], queueSize, j));
      Accumulate(wait[1..], queueSize, j, CInt.Wrap16(acc + CInt.Wrap16(share)))
    else
      HasSampleTail(wait, j);
      Accumulate(wait[1..], queueSize, j, acc)
  }

  lemma HasSampleTail(wait: seq<seq<Byte>>, j: nat)
    requires |wait| > 0 && HasSample(wait, j)
    ensures HasSample(wait[1..], j)
  {
    forall i | 0 <= i < |wait[1..]| && |wait[1..][i]| > 0
      ensures 2 * j + 1 < |wait[1..][i]|
    {
      assert wait[1..][i] == wait[i + 1];
    }
  }

  /** Samples `mixAudioData` can read without running off a buffer: every
      non-empty wait buffer holds the `minSize / 2` samples it reads. */
  predicate MixReadable(wait: seq<seq<Byte>>, minSize: int)
  {
    minSize >= 0 && forall i :: 0 <= i < |wait| && |wait[i]| > 0 ==> |wait[i]| >= minSize / 2 * 2
  }

  /** `QByteArray::remove(0, n)`: drops the first n bytes, or all of them. */
  function DropFront(buf: seq<Byte>, n: nat): (r: seq<Byte>)
    ensures n <= |buf| ==> buf == buf[..n] + r
    ensures n >= |buf| ==> r == []
  {
    if n >= |buf| then [] else buf[n..]
  }

  /** Bytes after the last whole sample do not change earlier samples. */
  lemma SampleOfPrefix(bs: seq<Byte>, pad: seq<Byte>, j: nat)
    requires 2 * j + 1 < |bs|
    ensures Pcm.SampleAt(bs + pad, j) == Pcm.SampleAt(bs, j)
  {
  }

  /** The mixed samples, computed as the source accumulates them. */
  function MixedSamples(wait: seq<seq<Byte>>, queueSize: int, n: nat): (samples: seq<int>)
    requires queueSize > 0 && forall j :: 0 <= j < n ==> HasSample(wait, j)
    ensures |samples| == n
    ensures forall j :: 0 <= j < n ==> samples[j] == CInt.Wrap16(ShareSum(wait, queueSize, j))
  {
    seq(n, j requires 0 <= j < n => Accumulate(wait, queueSize, j, 0))
  }

  /** The wait buffers after mixing: each non-empty one loses `minSize` bytes. */
  function ConsumeWait(wait: seq<seq<Byte>>, minSize: nat): (rest: seq<seq<Byte>>)
    ensures |rest| == |wait|
    ensures forall i :: 0 <= i < |wait| && |wait[i]| == 0 ==> rest[i] == []
    ensures forall i :: 0 <= i < |wait| && |wait[i]| >= minSize ==> wait[i] == wait[i][..minSize] + rest[i]
    ensures forall i :: 0 <= i < |wait| && |wait[i]| < minSize ==> rest[i] == []
  {
    seq(|wait|, i requires 0 <= i < |wait| => if |wait[i]| > 0 then DropFront(wait[i], minSize) else wait[i])
  }

  /** `mixAudioData`: a zero-filled buffer of `minSize` bytes whose sample j is
      the int16 sum, over every non-empty wait buffer, of that buffer's sample
      j divided by `queueSize`; then each non-empty wait buffer loses its first
      `minSize` bytes. All non-empty buffers take part, including ones whose
      queue was empty this cycle and so are not counted in `queueSize`. */
  function MixAudioData(wait: seq<seq<Byte>>, queueSize: int, minSize: int): (res: (seq<Byte>, seq<seq<Byte>>))
    requires queueSize > 0 && MixReadable(wait, minSize)
    ensures |res.0| == minSize
    ensures forall j :: 0 <= j < minSize / 2 ==>
      HasSample(wait, j) && Pcm.SampleAt(res.0, j) == CInt.Wrap16(ShareSum(wait, queueSize, j))
    ensures minSize % 2 == 1 ==> res.0[minSize - 1] == 0
    ensures res.1 == ConsumeWait(wait, minSize)
  {
    var n := minSize / 2;
    assert forall j :: 0 <= j < n ==> HasSample(wait, j);
    var samples := MixedSamples(wait, queueSize, n);
    var bs := Pcm.Encode(samples);
    var pad: seq<Byte> := if minSize % 2 == 1 then [0] else [];
    assert forall j :: 0 <= j < n ==> Pcm.SampleAt(bs + pad, j) == Pcm.SampleAt(bs, j) by {
      forall j | 0 <= j < n { SampleOfPrefix(bs, pad, j); }
    }
    (bs + pad, ConsumeWait(wait, minSize))
  }

  /** When no more buffers take part than `queueSize` counts, the shares stay
      within int16, so nothing wraps: each mixed sample is the plain sum. */
  lemma {:induction false} ShareSumBounds(wait: seq<seq<Byte>>, queueSize: int, j: nat)
    requires queueSize > 0 && HasSample(wait, j)
    ensures var s := ShareSum(wait, queueSize, j);
      && s <= NonEmptyCount(wait) * (32767 / queueSize)
      && s >= -(NonEmptyCount(wait) * (32768 / queueSize))
    decreases |wait|
  {
    if |wait| > 0 {
      ShareSumBounds(wait[1..], queueSize, j);
      var n := NonEmptyCount(wait[1..]);
      var hi, lo := 32767 / queueSize, 32768 / queueSize;
      MulSucc(n, hi);
      MulSucc(n, lo);
      if |wait[0]| > 0 {
        ShareBounds(Pcm.SampleAt(wait[0], j), queueSize);
      }
    }
  }

  lemma MulSucc(n: int, x: int)
    ensures (n + 1) * x == n * x + x
  {
  }

  /** One share lies within the int16 range divided by `queueSize`. */
  lemma ShareBounds(v: int, queueSize: int)
    requires queueSize > 0 && CInt.IsInt16(v)
    ensures -(32768 / queueSize) <= CInt.TruncDiv(v, queueSize) <= 32767 / queueSize
  {
    TruncDivMonotone(v, 32767, queueSize);
    TruncDivMonotone(-32768, v, queueSize);
    assert CInt.TruncDiv(-32768, queueSize) == -(32768 / queueSize);
  }

  lemma TruncDivMonotone(a: int, b: int, q: int)
    requires q > 0 && a <= b
    ensures CInt.TruncDiv(a, q) <= CInt.TruncDiv(b, q)
  {
    if a >= 0 {
      DivMonotone(a, b, q);
    } else if b < 0 {
      DivMonotone(-b, -a, q);
    }
  }

  lemma DivMonotone(a: int, b: int, q: int)
    requires q > 0 && 0 <= a <= b
    ensures a / q <= b / q
  {
    CInt.DivBounds(a, q);
    CInt.DivBounds(b, q);
    Bits.MulAwayFromZero(q, a / q - b / q);
  }

  /** With no more non-empty buffers than `queueSize` counts, nothing wraps:
      the mixed sample is the plain sum of the shares. */
  lemma NoWrapWhenCounted(wait: seq<seq<Byte>>, queueSize: int, j: nat)
    requires queueSize > 0 && HasSample(wait, j) && NonEmptyCount(wait) <= queueSize
    ensures CInt.IsInt16(ShareSum(wait, queueSize, j))
    ensures CInt.Wrap16(ShareSum(wait, queueSize, j)) == ShareSum(wait, queueSize, j)
  {
    ShareSumBounds(wait, queueSize, j);
    var n := NonEmptyCount(wait);
    var hi, lo := 32767 / queueSize, 32768 / queueSize;
    CInt.DivBounds(32767, queueSize);
    CInt.DivBounds(32768, queueSize);
    MulMonotone(n, queueSize, hi);
    MulMonotone(n, queueSize, lo);
  }

  lemma MulMonotone(a: nat, b: nat, c: nat)
    requires a <= b
    ensures a * c <= b * c
  {
  }

  /** A lone source mixed with `queueSize` 1 comes out unchanged. */
  lemma SingleSourcePassThrough(wait: seq<seq<Byte>>, i: nat, minSize: nat)
    requires i < |wait| && minSize % 2 == 0 && minSize <= |wait[i]|
    requires forall k :: 0 <= k < |wait| && k != i ==> wait[k] == []
    ensures MixReadable(wait, minSize)
    ensures MixAudioData(wait, 1, minSize).0 == wait[i][..minSize]
  {
    var mixed := MixAudioData(wait, 1, minSize).0;
    forall j | 0 <= j < minSize / 2
      ensures Pcm.SampleAt(mixed, j) == Pcm.SampleAt(wait[i][..minSize], j)
    {
      LoneShare(wait, i, j);
    }
    Pcm.SamplesDetermine(mixed, wait[i][..minSize]);
  }

  lemma {:induction false} LoneShare(wait: seq<seq<Byte>>, i: nat, j: nat)
    requires i < |wait| && 2 * j + 1 < |wait[i]|
    requires forall k :: 0 <= k < |wait| && k != i ==> wait[k] == []
    ensures HasSample(wait, j) && ShareSum(wait, 1, j) == Pcm.SampleAt(wait[i], j)
    decreases |wait|
  {
    if i > 0 {
      LoneShare(wait[1..], i - 1, j);
    } else {
      ZeroShares(wait[1..], j);
    }
  }

  lemma {:induction false} ZeroShares(wait: seq<seq<Byte>>, j: nat)
    requires forall k :: 0 <= k < |wait| ==> wait[k] == []
    ensures HasSample(wait, j) && ShareSum(wait, 1, j) == 0
    decreases |wait|
  {
    if |wait| > 0 {
      ZeroShares(wait[1..], j);
    }
  }

  /** A buffer left over from an earlier cycle takes part even though its
      queue is empty and `queueSize` does not count it: two buffers holding
      the sample 20000 mixed with `queueSize` 1 wrap to -25536. */
  lemma UncountedBufferWraps()
    ensures var wait: seq<seq<Byte>> := [Pcm.EncodeSample(20000), Pcm.EncodeSample(20000)];
      && MixReadable(wait, 2)
      && Pcm.SampleAt(MixAudioData(wait, 1, 2).0, 0) == -25536
  {
    var wait: seq<seq<Byte>> := [Pcm.EncodeSample(20000), Pcm.EncodeSample(20000)];
    Pcm.DecodeEncode(20000);
    assert ShareSum(wait, 1, 0) == 40000 by {
      assert |wait[1..][1..]| == 0;
    }
  }

  /** Two counted sources holding the same sample v mix to twice the
      truncated half of v, not to v: an odd sample loses one unit toward
      zero. */
  lemma TwoEqualSourcesHalve(v: int)
    requires CInt.IsInt16(v)
    ensures var wait: seq<seq<Byte>> := [Pcm.EncodeSample(v), Pcm.EncodeSample(v)];
      && MixReadable(wait, 2)
      && Pcm.SampleAt(MixAudioData(wait, 2, 2).0, 0) == 2 * CInt.TruncDiv(v, 2)
      && (v % 2 == 0 <==> Pcm.SampleAt(MixAudioData(wait, 2, 2).0, 0) == v)
  {
    var wait: seq<seq<Byte>> := [Pcm.EncodeSample(v), Pcm.EncodeSample(v)];
    Pcm.DecodeEncode(v);
    CInt.ShareIsInt16(v, 2);
    var half := CInt.TruncDiv(v, 2);
    assert ShareSum(wait[1..], 2, 0) == half by {
      assert wait[1..][0] == Pcm.EncodeSample(v);
      assert |wait[1..][1..]| == 0;
    }
    assert ShareSum(wait, 2, 0) == 2 * half by {
      assert wait[0] == Pcm.EncodeSample(v);
    }
  }

  // ---------------------------------------------------------------------
  // Output stream
  // ---------------------------------------------------------------------

  /** The write step: a non-empty mix goes onto the end of the stream; if the
      stream is then non-empty, its first `period` bytes (or all of it) are
      offered to the device, which accepts `written` of them (-1 on error),
      and exactly those leave the stream (`QByteArray::remove` ignores a
      length of 0 or less). Returns the stream afterwards and the bytes the
      device took. */
  function Output(out: seq<Byte>, mixed: seq<Byte>, period: int, written: int): (res: (seq<Byte>, seq<Byte>))
    requires period >= 0 && -1 <= written <= period
    ensures out + mixed == res.1 + res.0
    ensures |res.1| <= period
    ensures written <= 0 ==> res.1 == [] && res.0 == out + mixed
    ensures 0 < written <= |out + mixed| ==> |res.1| == written
  {
    var stream := out + mixed;
    if |stream| == 0 || written <= 0 then (stream, [])
    else if written >= |stream| then ([], stream)
    else (stream[written..], stream[..written])
  }

  /** Bytes reach the device in the order they were mixed, none lost and none
      repeated: over several cycles, what the device took followed by what is
      still queued is everything that was mixed. */
  function OutputRun(out: seq<Byte>, mixes: seq<seq<Byte>>, written: seq<int>, period: int): (res: (seq<Byte>, seq<Byte>))
    requires |written| == |mixes| && period >= 0
    requires forall k :: 0 <= k < |written| ==> -1 <= written[k] <= period
    decreases |mixes|
  {
    if |mixes| == 0 then (out, [])
    else
      var (out', sent) := Output(out, mixes[0], period, written[0]);
      var (out'', rest) := OutputRun(out', mixes[1..], written[1..], period);
      (out'', sent + rest)
  }

  lemma {:induction false} OutputRunKeepsOrder(out: seq<Byte>, mixes: seq<seq<Byte>>, written: seq<int>, period: int)
    requires |written| == |mixes| && period >= 0
    requires forall k :: 0 <= k < |written| ==> -1 <= written[k] <= period
    ensures var res := OutputRun(out, mixes, written, period);
      out + Concat(mixes) == res.1 + res.0
    decreases |mixes|
  {
    if |mixes| > 0 {
      var (out', sent) := Output(out, mixes[0], period, written[0]);
      OutputRunKeepsOrder(out', mixes[1..], written[1..], period);
      var (out'', rest) := OutputRun(out', mixes[1..], written[1..], period);
      calc {
        out + Concat(mixes);
        out + (mixes[0] + Concat(mixes[1..]));
        (out + mixes[0]) + Concat(mixes[1..]);
        (sent + out') + Concat(mixes[1..]);
        sent + (out' + Concat(mixes[1..]));
        sent + (rest + out'');
        (sent + rest) + out'';
      }
    }
  }

  // ---------------------------------------------------------------------
  // One timer callback
  // ---------------------------------------------------------------------

  /** The callback can mix without reading past a wait buffer. */
  ghost predicate CycleDefined(m: Mixer)
  {
    && Valid(m)
    && var d := Drain(m);
       d.queueSize > 0 ==> d.minSize >= 0 && MixReadable(d.wait, d.minSize)
  }

  /** One timer callback: drain, mix when a slot took part, append the mix to
      the stream and write to the device. Returns the new state and the bytes
      the device took. */
  function Cycle(m: Mixer, written: int): (res: (Mixer, seq<Byte>))
    requires CycleDefined(m) && -1 <= written <= m.period
    ensures Valid(res.0)
    ensures res.0.table == m.table && res.0.period == m.period
    ensures res.0.queues == Drain(m).queues
    ensures NonEmptyCount(m.queues) == 0 ==>
      && res.0.wait == m.wait && m.out == res.1 + res.0.out
      && (0 < written <= |m.out| ==> |res.1| == written)
    ensures NonEmptyCount(m.queues) > 0 ==>
      var d := Drain(m);
      var mixed := MixAudioData(d.wait, d.queueSize, d.minSize).0;
      && res.0.wait == ConsumeWait(d.wait, d.minSize)
      && |mixed| == d.minSize
      && m.out + mixed == res.1 + res.0.out
      && (0 < written <= |m.out| + d.minSize ==> |res.1| == written)
    ensures written <= 0 ==> res.1 == []
    ensures |res.1| <= m.period
  {
    var d := Drain(m);
    if d.queueSize > 0 then
      var (mixed, wait) := MixAudioData(d.wait, d.queueSize, d.minSize);
      var (out, sent) := Output(m.out, mixed, m.period, written);
      (m.(queues := d.queues, wait := wait, out := out), sent)
    else
      var (out, sent) := Output(m.out, [], m.period, written);
      assert m.out + [] == m.out;
      assert m.out == sent + out;
      DrainIdle(m);
      (m.(queues := d.queues, out := out), sent)
  }

  /** With every queue empty the drain changes nothing. */
  lemma DrainIdle(m: Mixer)
    requires Valid(m) && NonEmptyCount(m.queues) == 0
    ensures Drain(m).queues == m.queues && Drain(m).wait == m.wait
  {
    IdleAllEmpty(m.queues);
  }

  lemma {:induction false} IdleAllEmpty(queues: seq<seq<seq<Byte>>>)
    requires NonEmptyCount(queues) == 0
    ensures forall i :: 0 <= i < |queues| ==> queues[i] == []
    decreases |queues|
  {
    if |queues| > 0 {
      IdleAllEmpty(queues[1..]);
      assert forall i :: 1 <= i < |queues| ==> queues[i] == queues[1..][i - 1];
    }
  }

  // ---------------------------------------------------------------------
  // Two-source mix with volume
  // ---------------------------------------------------------------------

  /** Clamps to the `int16_t` range as the two `if`s do. */
  function Clamp16(x: real): (r: real)
    ensures -32768.0 <= r <= 32767.0
    ensures -32768.0 <= x <= 32767.0 ==> r == x
  {
    if x > 32767.0 then 32767.0 else if x < -32768.0 then -32768.0 else x
  }

  /** Sample j of a volume mix: each input that still has a whole sample j
      contributes it scaled by its volume; the sum is clamped and truncated
      toward zero. */
  function VolumeSample(data1: seq<Byte>, volume1: real, data2: seq<Byte>, volume2: real, j: nat): (v: int)
    ensures CInt.IsInt16(v)
  {
    var a := if j < Pcm.SampleCount(data1) then Pcm.SampleAt(data1, j) as real * volume1 else 0.0;
    var b := if j < Pcm.SampleCount(data2) then Pcm.SampleAt(data2, j) as real * volume2 else 0.0;
    CInt.TruncReal(Clamp16(a + b))
  }

  /** The whole samples of a volume mix of `size` bytes. */
  function VolumeSamples(data1: seq<Byte>, volume1: real, data2: seq<Byte>, volume2: real, size: nat): (samples: seq<int>)
    ensures |samples| == size / 2
    ensures forall j :: 0 <= j < size / 2 ==> samples[j] == VolumeSample(data1, volume1, data2, volume2, j)
  {
    seq(size / 2, j requires 0 <= j < size / 2 => VolumeSample(data1, volume1, data2, volume2, j))
  }

  /** `mixAudioDataWithVolume`: as long as the longer input; each whole
      sample is the clamped volume mix; a trailing odd byte stays 0. */
  function MixWithVolume(data1: seq<Byte>, volume1: real, data2: seq<Byte>, volume2: real): (mixed: seq<Byte>)
    ensures |mixed| == if |data1| >= |data2| then |data1| else |data2|
    ensures forall j :: 0 <= j < |mixed| / 2 ==>
      Pcm.SampleAt(mixed, j) == VolumeSample(data1, volume1, data2, volume2, j)
    ensures |mixed| % 2 == 1 ==> mixed[|mixed| - 1] == 0
  {
    var size := if |data1| >= |data2| then |data1| else |data2|;
    var bs := Pcm.Encode(VolumeSamples(data1, volume1, data2, volume2, size));
    var pad: seq<Byte> := if size % 2 == 1 then [0] else [];
    assert forall j :: 0 <= j < size / 2 ==> Pcm.SampleAt(bs + pad, j) == Pcm.SampleAt(bs, j) by {
      forall j | 0 <= j < size / 2 { SampleOfPrefix(bs, pad, j); }
    }
    bs + pad
  }

  /** Past the end of the shorter input, a sample takes nothing from it. */
  lemma VolumeSamplePastShorter(data1: seq<Byte>, volume1: real, data2: seq<Byte>, volume2: real, j: nat)
    requires Pcm.SampleCount(data2) <= j < Pcm.SampleCount(data1)
    ensures VolumeSample(data1, volume1, data2, volume2, j) == VolumeSample(data1, volume1, [], 0.0, j)
  {
  }

  /** Mixing a buffer at full volume with nothing returns it unchanged. */
  lemma MixWithVolumeIdentity(data: seq<Byte>)
    requires |data| % 2 == 0
    ensures MixWithVolume(data, 1.0, [], 0.0) == data
  {
    var mixed := MixWithVolume(data, 1.0, [], 0.0);
    forall j | 0 <= j < |data| / 2
      ensures Pcm.SampleAt(mixed, j) == Pcm.SampleAt(data, j)
    {
      var v := Pcm.SampleAt(data, j);
      assert Clamp16(v as real * 1.0 + 0.0) == v as real;
    }
    Pcm.SamplesDetermine(mixed, data);
  }

  /** The mix does not depend on the order of its two inputs. */
  lemma MixWithVolumeSymmetric(data1: seq<Byte>, volume1: real, data2: seq<Byte>, volume2: real)
    ensures MixWithVolume(data1, volume1, data2, volume2) == MixWithVolume(data2, volume2, data1, volume1)
  {
    var size := if |data1| >= |data2| then |data1| else |data2|;
    assert size == if |data2| >= |data1| then |data2| else |data1|;
    assert VolumeSamples(data1, volume1, data2, volume2, size) == VolumeSamples(data2, volume2, data1, volume1, size);
  }
}
