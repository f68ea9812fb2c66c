/**
 * io/ring_buffer.h between a main program and an interrupt handler: one producer and one
 * consumer, interleaved at every access to the shared pointers and the array. Each side
 * decides on a copy of the other's pointer that may be stale by the time it acts.
 */
module RingProtocol {
  import opened Words
  import opened RingBuffers

  /** Writing `values`: sample the read pointer, store the bytes one by one, publish them. */
  datatype Producer = WriterIdle | WriterSampled(values: seq<Byte>, seen: nat) | Filling(values: seq<Byte>, stored: nat)

  /** Reading one byte: sample the write pointer, fetch the byte, release its place. */
  datatype Consumer = ReaderIdle | ReaderSampled(seen: nat) | Fetching | Fetched(value: Byte)

  /** `width` is the number of bytes published at once: 1 by Overwrite, 2 by Overwrite2. */
  datatype State = State(
    width: nat, size: nat, buffer: seq<Byte>, readPtr: nat, writePtr: nat,
    producer: Producer, consumer: Consumer,
    produced: seq<Byte>,   // every byte published so far
    consumed: seq<Byte>)   // every byte released so far

  datatype Action = SampleRead(values: seq<Byte>) | DecideWrite | StoreByte | Publish
                  | SampleWrite | DecideRead | FetchByte | Release

  predicate Enabled(s: State, a: Action) {
    match a
    case SampleRead(values) => s.producer.WriterIdle? && |values| == s.width
    case DecideWrite => s.producer.WriterSampled?
    case StoreByte => s.producer.Filling? && s.producer.stored < |s.producer.values|
    case Publish => s.producer.Filling? && s.producer.stored == |s.producer.values|
    case SampleWrite => s.consumer.ReaderIdle?
    case DecideRead => s.consumer.ReaderSampled?
    case FetchByte => s.consumer.Fetching?
    case Release => s.consumer.Fetched?
  }

  /** Array accesses stay inside the array; the second store of a pair is not masked. */
  predicate InBounds(s: State, a: Action) {
    && s.size > 0
    && (a.StoreByte? && s.producer.Filling? ==> s.writePtr + s.producer.stored < |s.buffer|)
    && (a.FetchByte? ==> s.readPtr < |s.buffer|)
  }

  function Step(s: State, a: Action): State
    requires Enabled(s, a) && InBounds(s, a)
  {
    match a
    case SampleRead(values) => s.(producer := WriterSampled(values, s.readPtr))
    case DecideWrite =>
      if Mask(s.producer.seen - s.writePtr - 1, s.size) < |s.producer.values| then s.(producer := WriterIdle)
      else s.(producer := Filling(s.producer.values, 0))
    case StoreByte =>
      s.(buffer := s.buffer[s.writePtr + s.producer.stored := s.producer.values[s.producer.stored]],
         producer := Filling(s.producer.values, s.producer.stored + 1))
    case Publish =>
      s.(writePtr := Mask(s.writePtr + |s.producer.values|, s.size),
         produced := s.produced + s.producer.values,
         producer := WriterIdle)
    case SampleWrite => s.(consumer := ReaderSampled(s.writePtr))
    case DecideRead =>
      s.(consumer := if Mask(s.consumer.seen - s.readPtr, s.size) > 0 then Fetching else ReaderIdle)
    case FetchByte => s.(consumer := Fetched(s.buffer[s.readPtr]))
    case Release =>
      s.(readPtr := Mask(s.readPtr + 1, s.size),
         consumed := s.consumed + [s.consumer.value],
         consumer := ReaderIdle)
  }

  predicate Initial(s: State) {
    && (s.width == 1 || s.width == 2)
    && s.width < s.size && s.size % s.width == 0 && |s.buffer| == s.size
    && s.readPtr == s.writePtr == 0
    && s.producer.WriterIdle? && s.consumer.ReaderIdle?
    && s.produced == s.consumed == []
  }

  predicate Shaped(s: State) {
    && (s.width == 1 || s.width == 2)
    && s.width < s.size && s.size % s.width == 0 && |s.buffer| == s.size
    && s.readPtr < s.size && s.writePtr < s.size
    && (s.width == 2 ==> s.writePtr % 2 == 0)
  }

  /** The published bytes still in the array. */
  function Queue(s: State): seq<Byte>
    requires Shaped(s)
  {
    Window(s.buffer, s.readPtr, s.writePtr)
  }

  ghost predicate Inv(s: State) {
    && Shaped(s)
    && s.produced == s.consumed + Queue(s)
    && (!s.producer.WriterIdle? ==> |s.producer.values| == s.width)
    && (s.producer.WriterSampled? ==>
          && s.producer.seen < s.size
          && Room(s.size, s.producer.seen, s.writePtr) <= Room(s.size, s.readPtr, s.writePtr))
    && (s.producer.Filling? ==>
          && s.producer.stored <= s.width <= Room(s.size, s.readPtr, s.writePtr)
          && s.writePtr + s.width <= s.size
          && s.buffer[s.writePtr..s.writePtr + s.producer.stored] == s.producer.values[..s.producer.stored])
    && (s.consumer.ReaderSampled? ==>
          && s.consumer.seen < s.size
          && (s.consumer.seen != s.readPtr ==> s.readPtr != s.writePtr))
    && (s.consumer.Fetching? || s.consumer.Fetched? ==> s.readPtr != s.writePtr)
    && (s.consumer.Fetched? ==> s.consumer.value == s.buffer[s.readPtr])
  }

  /** In every invariant state the next access is in bounds, whoever moves. */
  lemma {:induction false} AccessesInBounds(s: State, a: Action)
    requires Inv(s) && Enabled(s, a)
    ensures InBounds(s, a)
  {
    hide Window, Room;
  }

  lemma {:induction false} StepKeepsInv(s: State, a: Action)
    requires Inv(s) && Enabled(s, a) && InBounds(s, a)
    ensures Inv(Step(s, a))
  {
    match a
    case SampleRead(_) => hide Window;
    case DecideWrite => DecideWriteKeepsInv(s);
    case StoreByte => StoreKeepsInv(s);
    case Publish => PublishKeepsInv(s);
    case SampleWrite => hide Window;
    case DecideRead => DecideReadKeepsInv(s);
    case FetchByte => hide Window;
    case Release => ReleaseKeepsInv(s);
  }

  lemma {:induction false} DecideWriteKeepsInv(s: State)
    requires Inv(s) && Enabled(s, DecideWrite) && InBounds(s, DecideWrite)
    ensures Inv(Step(s, DecideWrite))
  {
    hide Window, Mask;
    MaskNear(s.producer.seen - s.writePtr - 1, s.size);
  }

  lemma {:induction false} DecideReadKeepsInv(s: State)
    requires Inv(s) && Enabled(s, DecideRead) && InBounds(s, DecideRead)
    ensures Inv(Step(s, DecideRead))
  {
    hide Window, Mask;
    MaskNear(s.consumer.seen - s.readPtr, s.size);
  }

  lemma {:induction false} StoreKeepsInv(s: State)
    requires Inv(s) && Enabled(s, StoreByte) && InBounds(s, StoreByte)
    ensures Inv(Step(s, StoreByte)) && Queue(Step(s, StoreByte)) == Queue(s)
  {
    hide Window;
    var i := s.producer.stored;
    WindowStore(s.buffer, s.readPtr, s.writePtr, i, s.producer.values[i]);
    var t := Step(s, StoreByte);
    assert t.buffer[s.writePtr..s.writePtr + i + 1] == s.buffer[s.writePtr..s.writePtr + i] + [s.producer.values[i]];
  }

  lemma {:induction false} PublishMoves(s: State)
    requires Inv(s) && Enabled(s, Publish)
    ensures var w := s.writePtr + s.width;
      Step(s, Publish).writePtr == (if w == s.size then 0 else w) && Shaped(Step(s, Publish))
  {
    hide Window, Mask, Queue;
    MaskNear(s.writePtr + s.width, s.size);
  }

  lemma {:induction false} PublishAppends(s: State)
    requires Inv(s) && Enabled(s, Publish)
    ensures Shaped(Step(s, Publish)) && Queue(Step(s, Publish)) == Queue(s) + s.producer.values
  {
    hide Window, Mask;
    PublishMoves(s);
    WindowAppend(s.buffer, s.readPtr, s.writePtr, s.width);
    assert s.producer.values[..s.width] == s.producer.values;
  }

  lemma {:induction false} PublishKeepsInv(s: State)
    requires Inv(s) && Enabled(s, Publish)
    ensures Inv(Step(s, Publish))
    ensures Queue(Step(s, Publish)) == Queue(s) + s.producer.values
  {
    hide Queue, Mask;
    PublishMoves(s);
    PublishAppends(s);
  }

  lemma {:induction false} ReleaseKeepsInv(s: State)
    requires Inv(s) && Enabled(s, Release)
    ensures Inv(Step(s, Release))
    ensures Queue(s) == [s.consumer.value] + Queue(Step(s, Release))
  {
    hide Window, Mask;
    MaskNear(s.readPtr + 1, s.size);
    WindowDrop(s.buffer, s.readPtr, s.writePtr);
  }

  predicate IsRun(s: State, actions: seq<Action>)
    decreases |actions|
  {
    actions == [] ||
    (Enabled(s, actions[0]) && InBounds(s, actions[0]) && IsRun(Step(s, actions[0]), actions[1..]))
  }

  function Final(s: State, actions: seq<Action>): State
    requires IsRun(s, actions)
    decreases |actions|
  {
    if actions == [] then s else Final(Step(s, actions[0]), actions[1..])
  }

  lemma {:induction false} RunKeepsInv(s: State, actions: seq<Action>)
    requires Inv(s) && IsRun(s, actions)
    ensures Inv(Final(s, actions))
    decreases |actions|
  {
    hide Inv, Step;
    if actions != [] {
      StepKeepsInv(s, actions[0]);
      RunKeepsInv(Step(s, actions[0]), actions[1..]);
    }
  }

  /**
   * Every run of the two sides is a bounded FIFO: what was read is a prefix of what was
   * published, the rest (at most size - 1 bytes) is still readable in order, pairs are
   * published at even places, and no access ever leaves the array.
   */
  lemma {:induction false} BoundedFifo(s: State, actions: seq<Action>, next: Action)
    requires Initial(s) && IsRun(s, actions)
    ensures var t := Final(s, actions);
      && Shaped(t)
      && t.produced == t.consumed + Queue(t)
      && |Queue(t)| <= t.size - 1
      && (Enabled(t, next) ==> InBounds(t, next))
  {
    RunKeepsInv(s, actions);
    var t := Final(s, actions);
    if Enabled(t, next) {
      AccessesInBounds(t, next);
    }
  }

  /** Only Publish and Release change the queue, and by whole units. */
  lemma {:induction false} StepIsQueueStep(s: State, a: Action)
    requires Inv(s) && Enabled(s, a) && InBounds(s, a)
    ensures var t := Step(s, a);
      && Shaped(t)
      && (a.Publish? ==> Queue(t) == Queue(s) + s.producer.values)
      && (a.Release? ==> Queue(s) == [s.consumer.value] + Queue(t))
      && (!a.Publish? && !a.Release? ==> Queue(t) == Queue(s))
  {
    hide Window;
    StepKeepsInv(s, a);
    match a
    case StoreByte => StoreKeepsInv(s);
    case Publish => PublishKeepsInv(s);
    case Release => ReleaseKeepsInv(s);
    case _ =>
  }
}
