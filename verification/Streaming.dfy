/** Delivery of an opened artifact: the two nested generators of
    app/api/v1/ota.py and the evidence row of app/services/communications.py.

    A generator is an object whose `Next` runs the body to its next yield and whose
    `Close` raises GeneratorExit there. Reading, closing and saving may each fail. */
module Streaming {
  import opened Wrappers
  import opened Tables

  /* ----- what a delivery is ----- */

  /** What reading the object store brings, piece by piece. */
  datatype Piece = Chunk(data: bytes) | ReadFault

  /** How the inner generator ends when it is iterated to its end. */
  datatype Ending = Complete | Short | Broken

  /** The chunks the inner generator yields, given what it has emitted before. */
  datatype Plan = Plan(chunks: seq<bytes>, ending: Ending)

  function Planned(pieces: seq<Piece>, expected: nat, emitted: nat): Plan {
    if pieces == [] then Plan([], if emitted == expected then Complete else Short)
    else if pieces[0].ReadFault? then Plan([], Broken)
    else
      var c := pieces[0].data;
      if c == [] then Planned(pieces[1..], expected, emitted)
      else if emitted + |c| > expected then Plan([], Broken)
      else
        var rest := Planned(pieces[1..], expected, emitted + |c|);
        Plan([c] + rest.chunks, rest.ending)
  }

  /** All bytes that can be read before the first fault: the object's content. */
  function Content(pieces: seq<Piece>): bytes {
    if pieces == [] || pieces[0].ReadFault? then []
    else pieces[0].data + Content(pieces[1..])
  }

  function Concat(chunks: seq<bytes>): bytes {
    if chunks == [] then [] else chunks[0] + Concat(chunks[1..])
  }

  /** `received`, `streaming`, `download_served` and `transfer_incomplete`. */
  datatype Outcome = Received | Streaming | Served | Incomplete

  /** What a delivery leaves behind. */
  datatype Delivery = Delivery(body: bytes, closes: nat, callbacks: nat, recorded: Option<Outcome>)

  /** A consumer that asks at most `asks` times and then closes the iterator. */
  function Delivered(pieces: seq<Piece>, expected: nat, asks: nat): Delivery {
    var plan := Planned(pieces, expected, 0);
    if asks == 0 then Delivery([], 0, 0, None)
    else if asks <= |plan.chunks| then Delivery(Concat(plan.chunks[..asks]), 1, 0, Some(Incomplete))
    else if plan.ending.Complete? then Delivery(Concat(plan.chunks), 1, 1, Some(Served))
    else Delivery(Concat(plan.chunks), 1, 0, Some(Incomplete))
  }

  /* ----- what every delivery keeps ----- */

  lemma {:induction false} ConcatSplits(a: seq<bytes>, b: seq<bytes>)
    ensures Concat(a + b) == Concat(a) + Concat(b)
  {
    if a == [] {
      assert a + b == b;
    } else {
      assert (a + b)[1..] == a[1..] + b;
      ConcatSplits(a[1..], b);
    }
  }

  /** The chunks spell a prefix of the content, never longer than expected; all of
      it, exactly as long as expected, when they end completely. */
  lemma {:induction false} PlanIsPrefix(pieces: seq<Piece>, expected: nat, emitted: nat)
    requires emitted <= expected
    ensures
      var plan := Planned(pieces, expected, emitted);
      && Concat(plan.chunks) <= Content(pieces)
      && emitted + |Concat(plan.chunks)| <= expected
      && (plan.ending.Complete? ==>
            Concat(plan.chunks) == Content(pieces) && emitted + |Concat(plan.chunks)| == expected)
      && (plan.ending.Short? ==>
            Concat(plan.chunks) == Content(pieces) && emitted + |Concat(plan.chunks)| < expected)
      && forall c :: c in plan.chunks ==> c != []
  {
    if pieces != [] && pieces[0].Chunk? {
      var c := pieces[0].data;
      if c == [] {
        PlanIsPrefix(pieces[1..], expected, emitted);
      } else if emitted + |c| <= expected {
        PlanIsPrefix(pieces[1..], expected, emitted + |c|);
        var rest := Planned(pieces[1..], expected, emitted + |c|).chunks;
        assert ([c] + rest)[1..] == rest;
      }
    }
  }

  /** How the iteration ends follows from the object alone: broken if reading fails or
      there are too many bytes, complete if they are as many as announced, short if they
      are fewer. Whatever fits before that is yielded. */
  lemma {:induction false} EndingIs(pieces: seq<Piece>, expected: nat, emitted: nat)
    requires emitted <= expected
    ensures
      var plan, size := Planned(pieces, expected, emitted), emitted + |Content(pieces)|;
      && (plan.ending.Broken? <==> ReadFault in pieces || size > expected)
      && (plan.ending.Complete? <==> ReadFault !in pieces && size == expected)
      && (plan.ending.Short? <==> ReadFault !in pieces && size < expected)
      && (size <= expected ==> Concat(plan.chunks) == Content(pieces))
  {
    if pieces != [] && pieces[0].Chunk? {
      var c := pieces[0].data;
      assert ReadFault in pieces <==> ReadFault in pieces[1..] by {
        assert pieces == [pieces[0]] + pieces[1..];
      }
      if emitted + |c| <= expected {
        EndingIs(pieces[1..], expected, emitted + |c|);
        var rest := Planned(pieces[1..], expected, emitted + |c|).chunks;
        assert ([c] + rest)[1..] == rest;
      }
    }
  }

  /** Whatever the store reads, wherever it fails and whenever the consumer stops,
      the bytes sent are a prefix of the object and no more than announced. */
  lemma BodyIsPrefix(pieces: seq<Piece>, expected: nat, asks: nat)
    ensures Delivered(pieces, expected, asks).body <= Content(pieces)
    ensures |Delivered(pieces, expected, asks).body| <= expected
  {
    var chunks := Planned(pieces, expected, 0).chunks;
    PlanIsPrefix(pieces, expected, 0);
    if 0 < asks <= |chunks| {
      ConcatSplits(chunks[..asks], chunks[asks..]);
      assert chunks[..asks] + chunks[asks..] == chunks;
    }
  }

  /** The iteration ran to its end without an error. */
  predicate RanToEnd(pieces: seq<Piece>, expected: nat, asks: nat) {
    asks > |Planned(pieces, expected, 0).chunks| && !Planned(pieces, expected, 0).ending.Broken?
  }

  /** One completed transfer, three witnesses: the callback ran, the evidence says
      so, and the iteration ran to its end with exactly the announced bytes. A
      consumer that stops right after the last byte completes none of them. */
  lemma CompletionIsExact(pieces: seq<Piece>, expected: nat, asks: nat)
    ensures
      var d := Delivered(pieces, expected, asks);
      && d.callbacks <= 1 && d.closes == (if asks == 0 then 0 else 1)
      && (d.callbacks == 1 <==> d.recorded == Some(Served))
      && (d.callbacks == 1 <==> RanToEnd(pieces, expected, asks) && |d.body| == expected)
      && (d.callbacks == 1 ==> d.body == Content(pieces))
      && d.recorded == (if asks == 0 then None else if d.callbacks == 1 then Some(Served) else Some(Incomplete))
  {
    PlanIsPrefix(pieces, expected, 0);
  }

  lemma StoppingAtTheLastByteIsIncomplete(data: bytes)
    requires data != []
    ensures
      var pieces := [Chunk(data)];
      && Delivered(pieces, |data|, 1) == Delivery(data, 1, 0, Some(Incomplete))
      && Delivered(pieces, |data|, 2) == Delivery(data, 1, 1, Some(Served))
  {
    var pieces := [Chunk(data)];
    assert Planned(pieces[1..], |data|, |data|) == Plan([], Complete);
    assert Planned(pieces, |data|, 0) == Plan([data], Complete);
    assert [data][1..] == [] && [data][..1] == [data];
    assert Concat([data]) == data;
  }

  /** An object that is read to its end without a fault and has the announced size
      is delivered whole to a consumer that asks until it is told to stop. */
  lemma {:induction false} SoundObjectIsServed(pieces: seq<Piece>, expected: nat, emitted: nat)
    requires forall p :: p in pieces ==> p.Chunk?
    requires emitted + |Content(pieces)| == expected
    ensures Planned(pieces, expected, emitted).ending.Complete?
  {
    if pieces != [] {
      assert pieces[0] in pieces;
      SoundObjectIsServed(pieces[1..], expected, emitted + |pieces[0].data|);
    }
  }

  /* ----- the objects ----- */

  /** An opened object; closing may raise, which every caller swallows. */
  class ObjectStream {
    const pieces: seq<Piece>
    var position: nat
    var closes: nat

    constructor (pieces: seq<Piece>)
      ensures this.pieces == pieces && position == 0 && closes == 0
    {
      this.pieces := pieces;
      position, closes := 0, 0;
    }

    method Read() returns (piece: Piece)
      requires position < |pieces|
      modifies this`position
      ensures piece == pieces[old(position)] && position == old(position) + 1
    {
      piece := pieces[position];
      position := position + 1;
    }

    method Close()
      modifies this`closes
      ensures closes == old(closes) + 1
    {
      closes := closes + 1;
    }
  }

  datatype Phase = Created | Suspended | Finished

  datatype Pulled = Yielded(chunk: bytes) | Stopped | Raised

  /** `_stream_chunks`. */
  class ChunkGenerator {
    const stream: ObjectStream
    const expected: nat
    var phase: Phase
    var emitted: nat
    var callbacks: nat

    constructor (stream: ObjectStream, expected: nat)
      ensures this.stream == stream && this.expected == expected
      ensures phase == Created && emitted == 0 && callbacks == 0
    {
      this.stream, this.expected := stream, expected;
      phase, emitted, callbacks := Created, 0, 0;
    }

    ghost predicate Valid()
      reads this, stream
    {
      stream.position <= |stream.pieces| && emitted <= expected
    }

    /** What is still to come of an iteration that has not ended. */
    ghost function Rest(): Plan
      reads this, stream
      requires Valid()
    {
      Planned(stream.pieces[stream.position..], expected, emitted)
    }

    /** Runs to the next yield, or past the end, where the stream is closed before
        the callback is run. */
    method Next() returns (pulled: Pulled)
      requires Valid() && !phase.Finished?
      modifies this, stream
      ensures Valid()
      ensures
        var plan := old(Rest());
        if plan.chunks != [] then
          && pulled == Yielded(plan.chunks[0]) && phase.Suspended?
          && emitted == old(emitted) + |plan.chunks[0]|
          && Rest() == Plan(plan.chunks[1..], plan.ending)
          && stream.closes == old(stream.closes) && callbacks == old(callbacks)
        else
          && pulled == (if plan.ending.Broken? then Raised else Stopped) && phase.Finished?
          && emitted == old(emitted)
          && (plan.ending.Complete? ==> emitted == expected) && (plan.ending.Short? ==> emitted != expected)
          && stream.closes == old(stream.closes) + 1
          && callbacks == old(callbacks) + if plan.ending.Complete? then 1 else 0
    {
      phase := Suspended;
      var completed := false;
      var failed := false;
      while stream.position < |stream.pieces|
        invariant Valid() && phase.Suspended? && emitted == old(emitted) && Rest() == old(Rest())
        invariant stream.closes == old(stream.closes) && callbacks == old(callbacks) && !failed
        decreases |stream.pieces| - stream.position
      {
        ghost var rest := stream.pieces[stream.position..];
        var piece := stream.Read();
        assert rest[1..] == stream.pieces[stream.position..];
        if piece.ReadFault? {
          failed := true;
          break;
        }
        if piece.data == [] {
          continue;
        }
        if emitted + |piece.data| > expected {
          failed := true;
          break;
        }
        emitted := emitted + |piece.data|;
        return Yielded(piece.data);
      }
      completed := !failed && emitted == expected;
      stream.Close();
      phase := Finished;
      if failed {
        return Raised;
      }
      if completed {
        callbacks := callbacks + 1;
      }
      return Stopped;
    }

    /** At a yield, the `finally` block closes the stream and nothing else runs. */
    method Close()
      modifies this`phase, stream`closes
      ensures phase.Finished?
      ensures stream.closes == old(stream.closes) + if old(phase).Suspended? then 1 else 0
    {
      if phase.Suspended? {
        stream.Close();
      }
      phase := Finished;
    }
  }

  /** The part of the recorder a transfer touches. `row` is the stored outcome;
      a save that fails leaves it as it was. */
  class CommunicationRecorder {
    const id: Option<int>
    var events: seq<Outcome>
    var row: Outcome

    constructor (id: Option<int>)
      ensures this.id == id && events == [Received] && row == Received
    {
      this.id := id;
      events, row := [Received], Received;
    }

    method Save(outcome: Outcome, persists: bool)
      modifies this
      ensures id.None? ==> events == old(events) && row == old(row)
      ensures id.Some? ==> events == old(events) + [outcome] && row == if persists then outcome else old(row)
    {
      if id.None? {
        return;
      }
      events := events + [outcome];
      if persists {
        row := outcome;
      }
    }

    /** What the response preparation records before the first byte. */
    method BeginStreaming(persists: bool)
      modifies this
      ensures id.None? ==> events == old(events) && row == old(row)
      ensures id.Some? ==>
                events == old(events) + [Outcome.Streaming] && row == if persists then Outcome.Streaming else old(row)
    {
      Save(Outcome.Streaming, persists);
    }

    method Transfer(sent: nat, expected: nat, completed: bool, persists: bool)
      modifies this
      ensures
        var outcome := if completed && sent == expected then Served else Incomplete;
        && (id.None? ==> events == old(events) && row == old(row))
        && (id.Some? ==> events == old(events) + [outcome] && row == if persists then outcome else old(row))
    {
      Save(if completed && sent == expected then Served else Incomplete, persists);
    }
  }

  /** `_observed_stream`, with an observer whose next save persists or not. */
  class ObservedStream {
    const chunks: ChunkGenerator
    const contentLength: nat
    const observer: CommunicationRecorder
    const persists: bool
    var phase: Phase
    var sent: nat

    constructor (stream: ObjectStream, contentLength: nat, observer: CommunicationRecorder, persists: bool)
      requires stream.position == 0 && stream.closes == 0
      ensures this.observer == observer && this.persists == persists
      ensures chunks.stream == stream && fresh(chunks)
      ensures Valid() && phase.Created? && sent == 0 && this.contentLength == contentLength
      ensures chunks.callbacks == 0 && chunks.Rest() == Planned(stream.pieces, contentLength, 0)
    {
      chunks := new ChunkGenerator(stream, contentLength);
      this.contentLength := contentLength;
      this.observer, this.persists := observer, persists;
      phase, sent := Created, 0;
      new;
      assert stream.pieces[0..] == stream.pieces;
    }

    /** The two layers count alike. */
    ghost predicate Valid()
      reads this, chunks, chunks.stream
    {
      && chunks.Valid() && chunks.expected == contentLength
      && chunks.phase == phase && chunks.emitted == sent
    }

    method Next() returns (pulled: Pulled)
      requires Valid() && !phase.Finished?
      modifies this, chunks, chunks.stream, observer
      ensures Valid()
      ensures
        var plan := old(chunks.Rest());
        if plan.chunks != [] then
          && pulled == Yielded(plan.chunks[0]) && phase.Suspended?
          && chunks.Rest() == Plan(plan.chunks[1..], plan.ending)
          && chunks.stream.closes == old(chunks.stream.closes) && chunks.callbacks == old(chunks.callbacks)
          && observer.events == old(observer.events) && observer.row == old(observer.row)
        else
          && pulled == (if plan.ending.Broken? then Raised else Stopped) && phase.Finished?
          && chunks.stream.closes == old(chunks.stream.closes) + 1
          && chunks.callbacks == old(chunks.callbacks) + (if plan.ending.Complete? then 1 else 0)
          && Recorded(old(observer.events), old(observer.row),
                      if plan.ending.Complete? then Served else Incomplete)
    {
      pulled := chunks.Next();
      phase := Suspended;
      if pulled.Yielded? {
        sent := sent + |pulled.chunk|;
        return;
      }
      var completed := pulled.Stopped? && sent == contentLength;
      chunks.Close();
      observer.Transfer(sent, contentLength, completed, persists);
      phase := Finished;
    }

    ghost predicate Recorded(events: seq<Outcome>, row: Outcome, outcome: Outcome)
      reads this, observer
    {
      && (observer.id.None? ==> observer.events == events && observer.row == row)
      && (observer.id.Some? ==>
            observer.events == events + [outcome] && observer.row == if persists then outcome else row)
    }

    /** A generator that was never started has no frame to unwind. */
    method Close()
      requires Valid()
      modifies this, chunks, chunks.stream`closes, observer
      ensures Valid() && phase.Finished? && chunks.callbacks == old(chunks.callbacks)
      ensures chunks.stream.closes == old(chunks.stream.closes) + if old(phase).Suspended? then 1 else 0
      ensures if old(phase).Suspended? then Recorded(old(observer.events), old(observer.row), Incomplete)
              else observer.events == old(observer.events) && observer.row == old(observer.row)
    {
      var started := phase.Suspended?;
      chunks.Close();
      if started {
        observer.Transfer(sent, contentLength, false, persists);
      }
      phase := Finished;
    }
  }

  /** The server's side: asks for chunks, sends them, and closes the iterator. What
      it leaves behind is the delivery the model describes. */
  method Deliver(s: ObservedStream, asks: nat) returns (body: bytes)
    requires s.Valid() && s.phase.Created? && s.sent == 0
    requires s.chunks.stream.closes == 0 && s.chunks.callbacks == 0 && s.chunks.stream.position == 0
    modifies s, s.chunks, s.chunks.stream, s.observer
    ensures
      var d := Delivered(s.chunks.stream.pieces, s.contentLength, asks);
      && body == d.body && s.chunks.stream.closes == d.closes && s.chunks.callbacks == d.callbacks
      && if d.recorded.None? then s.observer.events == old(s.observer.events) && s.observer.row == old(s.observer.row)
         else s.Recorded(old(s.observer.events), old(s.observer.row), d.recorded.value)
  {
    ghost var plan := Planned(s.chunks.stream.pieces, s.contentLength, 0);
    assert s.chunks.stream.pieces[0..] == s.chunks.stream.pieces;
    body := [];
    var asked := 0;
    while asked < asks && !s.phase.Finished?
      invariant s.Valid() && asked <= asks
      invariant s.phase.Created? <==> asked == 0
      invariant !s.phase.Finished? ==>
                  && asked <= |plan.chunks|
                  && s.chunks.Rest() == Plan(plan.chunks[asked..], plan.ending)
                  && body == Concat(plan.chunks[..asked])
                  && s.chunks.stream.closes == 0 && s.chunks.callbacks == 0
                  && s.observer.events == old(s.observer.events) && s.observer.row == old(s.observer.row)
      invariant s.phase.Finished? ==>
                  && asked == |plan.chunks| + 1 && body == Concat(plan.chunks)
                  && s.chunks.stream.closes == 1
                  && s.chunks.callbacks == (if plan.ending.Complete? then 1 else 0)
                  && s.Recorded(old(s.observer.events), old(s.observer.row),
                                if plan.ending.Complete? then Served else Incomplete)
      decreases asks - asked
    {
      var pulled := s.Next();
      if pulled.Yielded? {
        ConcatSplits(plan.chunks[..asked], [pulled.chunk]);
        assert plan.chunks[..asked + 1] == plan.chunks[..asked] + [pulled.chunk];
        assert [pulled.chunk][1..] == [];
        body := body + pulled.chunk;
      } else {
        assert plan.chunks[..asked] == plan.chunks;
      }
      asked := asked + 1;
    }
    s.Close();
    assert plan.chunks[..|plan.chunks|] == plan.chunks;
  }

  /** A streamed response from its preparation to its end. The evidence row says
      `streaming` before the first byte, and says anything else only once the transfer
      has ended: a response that is never iterated is not taken for a delivery. */
  method Respond(
    stream: ObjectStream, contentLength: nat, observer: CommunicationRecorder,
    persistsStart: bool, persistsEnd: bool, asks: nat)
    returns (body: bytes)
    requires stream.position == 0 && stream.closes == 0
    modifies stream, observer
    ensures
      var d := Delivered(stream.pieces, contentLength, asks);
      && body == d.body && stream.closes == d.closes
      && (observer.id.None? ==> observer.events == old(observer.events) && observer.row == old(observer.row))
      && (observer.id.Some? ==>
            && observer.events
               == old(observer.events) + [Outcome.Streaming] + (if d.recorded.Some? then [d.recorded.value] else [])
            && observer.row
               == (if d.recorded.Some? && persistsEnd then d.recorded.value
                   else if persistsStart then Outcome.Streaming else old(observer.row)))
  {
    observer.BeginStreaming(persistsStart);
    var s := new ObservedStream(stream, contentLength, observer, persistsEnd);
    body := Deliver(s, asks);
  }
}
