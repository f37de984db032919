/** A job's event channel: a linked FIFO with close semantics and a reference count (src/progress.c:198-292). */
module ProgressChannel {

  /** `fp_progress_event`, with its name and payload as one text. */
  class Event {
    const text: string
    var next: Event?

    constructor (text: string)
      ensures this.text == text && next == null
    {
      this.text := text;
      next := null;
    }
  }

  // ------------------------------------------------------------ the ideal stream

  /** What a channel is to its users. */
  datatype Stream<E> = Stream(queue: seq<E>, closed: bool)

  datatype Call<E> = Push(e: E) | Next | Close

  /** Taking from an open and empty channel waits; it goes on when this holds. */
  predicate Enabled<E>(s: Stream<E>, call: Call<E>) {
    call.Next? ==> s.queue != [] || s.closed
  }

  function Step<E>(s: Stream<E>, call: Call<E>): Stream<E> {
    match call
    case Push(e) => if s.closed then s else s.(queue := s.queue + [e])
    case Next => if s.queue == [] then s else s.(queue := s.queue[1..])
    case Close => s.(closed := true)
  }

  /** The event, if any, that a call returns. */
  function Returned<E>(s: Stream<E>, call: Call<E>): seq<E> {
    if call.Next? && s.queue != [] then [s.queue[0]] else []
  }

  /** `is_open` as a call to Next returns it. */
  function IsOpen<E>(s: Stream<E>): bool {
    !s.closed || |s.queue| > 1
  }

  function After<E>(s: Stream<E>, calls: seq<Call<E>>): Stream<E>
    decreases |calls|
  {
    if calls == [] then s else After(Step(s, calls[0]), calls[1..])
  }

  function AllReceived<E>(s: Stream<E>, calls: seq<Call<E>>): seq<E>
    decreases |calls|
  {
    if calls == [] then []
    else Returned(s, calls[0]) + AllReceived(Step(s, calls[0]), calls[1..])
  }

  /** The events pushed before the first close. */
  function PushedBeforeClose<E>(calls: seq<Call<E>>): seq<E> {
    if calls == [] || calls[0].Close? then []
    else (if calls[0].Push? then [calls[0].e] else []) + PushedBeforeClose(calls[1..])
  }

  function StillAccepted<E>(s: Stream<E>, calls: seq<Call<E>>): seq<E> {
    if s.closed then [] else PushedBeforeClose(calls)
  }

  lemma StepConserves<E>(s: Stream<E>, calls: seq<Call<E>>)
    requires calls != []
    ensures Returned(s, calls[0]) + (Step(s, calls[0]).queue + StillAccepted(Step(s, calls[0]), calls[1..])) ==
            s.queue + StillAccepted(s, calls)
  {
  }

  /** Nothing is lost, duplicated or reordered: the events received and those still queued are those pushed
      before the close, in order. */
  lemma {:induction false} StreamConserves<E>(s: Stream<E>, calls: seq<Call<E>>)
    ensures AllReceived(s, calls) + After(s, calls).queue == s.queue + StillAccepted(s, calls)
    decreases |calls|
  {
    if calls != [] {
      StepConserves(s, calls);
      hide Step, Returned, StillAccepted;
      var s', rest := Step(s, calls[0]), calls[1..];
      StreamConserves(s', rest);
      assert AllReceived(s, calls) + After(s, calls).queue ==
             Returned(s, calls[0]) + (AllReceived(s', rest) + After(s', rest).queue);
    }
  }

  lemma {:induction false} ClosedByClose<E>(s: Stream<E>, calls: seq<Call<E>>)
    ensures After(s, calls).closed <==> s.closed || Close in calls
    decreases |calls|
  {
    if calls != [] {
      ClosedByClose(Step(s, calls[0]), calls[1..]);
      assert calls == [calls[0]] + calls[1..];
    }
  }

  /** The stream ends only when all is told: `is_open` is false exactly when the channel is closed and this call
      leaves nothing to receive. */
  lemma EndOfStream<E>(calls: seq<Call<E>>)
    requires Enabled(After(Stream([], false), calls), Next)
    ensures var s := After(Stream([], false), calls);
      !IsOpen(s) <==>
        Close in calls && AllReceived(Stream([], false), calls) + Returned(s, Next) == PushedBeforeClose(calls)
  {
    hide AllReceived, After, PushedBeforeClose;
    StreamConserves(Stream([], false), calls);
    ClosedByClose(Stream([], false), calls);
    var s, before := After(Stream([], false), calls), AllReceived(Stream([], false), calls);
    assert before + s.queue == PushedBeforeClose(calls);
    if s.queue != [] {
      assert s.queue == Returned(s, Next) + s.queue[1..];
    }
    assert before + Returned(s, Next) == before + s.queue ==> |Returned(s, Next)| == |s.queue| by {
      LengthsAgree(before, Returned(s, Next), s.queue);
    }
  }

  lemma LengthsAgree<E>(a: seq<E>, b: seq<E>, c: seq<E>)
    ensures a + b == a + c ==> |b| == |c|
  {
    if a + b == a + c { assert |a + b| == |a + c|; }
  }

  // ---------------------------------------------------------- the linked channel

  class Channel {
    const jobId: nat
    var head: Event?
    var tail: Event?
    var refCount: int
    var closed: bool
    ghost var nodes: seq<Event>

    constructor (jobId: nat)
      ensures Valid() && Value() == Stream([], false) && refCount == 1 && this.jobId == jobId
    {
      this.jobId := jobId;
      head := null;
      tail := null;
      refCount := 1;
      closed := false;
      nodes := [];
    }

    /** head and tail delimit a chain of distinct events. */
    ghost predicate Valid()
      reads this, nodes
    {
      && (nodes == [] ==> head == null && tail == null)
      && (nodes != [] ==> head == nodes[0] && tail == nodes[|nodes| - 1] && tail.next == null)
      && (forall i :: 0 <= i < |nodes| - 1 ==> nodes[i].next == nodes[i + 1])
      && forall i, j :: 0 <= i < j < |nodes| ==> nodes[i] != nodes[j]
    }

    ghost function Value(): Stream<Event>
      reads this
    {
      Stream(nodes, closed)
    }

    /** `fp_progress_channel_push` of a new event. */
    method Push(event: Event)
      requires Valid() && event !in nodes && event.next == null
      modifies this`head, this`tail, this`nodes, nodes
      ensures Valid() && Value() == Step(old(Value()), Call.Push(event))
    {
      if closed { return; }
      if tail != null {
        tail.next := event;
      } else {
        head := event;
      }
      tail := event;
      nodes := nodes + [event];
    }

    /** `fp_progress_next_event`, from where its wait ends. */
    method NextEvent() returns (event: Event?, isOpen: bool)
      requires Valid() && Enabled(Value(), Next)
      modifies this`head, this`tail, this`nodes
      ensures Valid() && Value() == Step(old(Value()), Next)
      ensures (if event == null then [] else [event]) == Returned(old(Value()), Next)
      ensures isOpen == IsOpen(old(Value())) && (!isOpen <==> closed && nodes == [])
    {
      event := head;
      if event != null {
        head := event.next;
        if head == null {
          tail := null;
        }
        nodes := nodes[1..];
      }
      isOpen := !closed || head != null;
    }

    /** `fp_progress_close`. */
    method Close()
      requires Valid()
      modifies this`closed
      ensures Valid() && Value() == Step(old(Value()), Call.Close)
    {
      closed := true;
    }

    /** The walk of `fp_progress_channel_destroy`: it frees every event that is still linked, once. */
    method FreeEvents() returns (freed: seq<Event>)
      requires Valid()
      ensures freed == nodes
    {
      freed := [];
      var node := head;
      while node != null
        invariant |freed| <= |nodes| && freed == nodes[..|freed|]
        invariant node == if |freed| == |nodes| then null else nodes[|freed|]
        decreases |nodes| - |freed|
      {
        var next := node.next;
        freed := freed + [node];
        node := next;
      }
    }
  }
}
