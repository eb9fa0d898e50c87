/**
 The reconstructor thread: it owns one reassembler, feeds it the batches that come
 over the channel, and sends what each call hands out.
 */
module Reconstructor {
  import opened Shreds
  import opened Reassembly
  import opened Safety
  import opened Reassembler

  /** What one wait on the channel gives. */
  datatype Signal = Batch(event: Event) | Timeout | Disconnected

  /** What subscribers receive for one segment. */
  datatype PbEntry = PbEntry(slot: nat, entries: Bytes)

  function MessageOf(output: Output): PbEntry { PbEntry(output.slot, output.bytes) }

  function Messages(outputs: seq<Output>): seq<PbEntry> {
    seq(|outputs|, i requires 0 <= i < |outputs| => MessageOf(outputs[i]))
  }

  ghost predicate Connected(signals: seq<Signal>) {
    forall i :: 0 <= i < |signals| ==> !signals[i].Disconnected?
  }

  /** The batches that arrive before the channel closes. */
  ghost function Delivered(signals: seq<Signal>): seq<Event> {
    if signals == [] then []
    else
      var rest, last := signals[..|signals| - 1], signals[|signals| - 1];
      if last.Batch? && Connected(rest) then Delivered(rest) + [last.event] else Delivered(rest)
  }

  lemma {:induction false} NothingAfterClose(signals: seq<Signal>, i: nat)
    requires i < |signals| && signals[i].Disconnected?
    ensures Delivered(signals) == Delivered(signals[..i])
    decreases |signals|
  {
    var rest := signals[..|signals| - 1];
    if i < |rest| {
      NothingAfterClose(rest, i);
      assert rest[..i] == signals[..i] && rest[i].Disconnected?;
    }
  }

  lemma RunStep(codec: Codec, events: seq<Event>, event: Event)
    ensures Run(codec, events + [event]) == Advance(codec, Run(codec, events), event)
  {
    assert (events + [event])[..|events|] == events;
  }

  lemma MessagesJoin(a: seq<Emission>, b: seq<Emission>)
    ensures Messages(Outputs(a + b)) == Messages(Outputs(a)) + Messages(Outputs(b))
  {
  }

  /** The messages sent once another batch has been worked through. */
  lemma SentStep(codec: Codec, events: seq<Event>, event: Event)
    ensures var past := Run(codec, events);
            var step := Step(codec, event.order, past.st, event.batch);
            && Run(codec, events + [event]).st == step.st
            && Run(codec, events + [event]).recovered == past.recovered + step.recovered
            && Messages(Outputs(Run(codec, events + [event]).out))
               == Messages(Outputs(past.out)) + Messages(Outputs(step.out))
  {
    RunStep(codec, events, event);
    var past := Run(codec, events);
    MessagesJoin(past.out, Step(codec, event.order, past.st, event.batch).out);
  }

  /** The messages carry the slot and the bytes of the emissions, one for one and in order. */
  ghost predicate Carry(sent: seq<PbEntry>, out: seq<Emission>) {
    && |sent| == |out|
    && forall i :: 0 <= i < |out| ==> sent[i].slot == out[i].slot && sent[i].entries == out[i].content.bytes
  }

  /** Works through one batch after the earlier ones, and appends its messages to those sent. */
  method HandleBatch(reassembler: ShredReassembler, codec: Codec, event: Event, sent: seq<PbEntry>,
      ghost events: seq<Event>)
    returns (more: seq<PbEntry>)
    requires reassembler.Valid() && reassembler.View() == Run(codec, events).st
    requires reassembler.recoveredCount == Run(codec, events).recovered
    requires sent == Messages(Outputs(Run(codec, events).out))
    modifies reassembler, reassembler.owner.Keys
    ensures reassembler.Valid() && forall o :: o in reassembler.owner && o !in old(reassembler.owner) ==> fresh(o)
    ensures reassembler.View() == Run(codec, events + [event]).st
    ensures reassembler.recoveredCount == Run(codec, events + [event]).recovered
    ensures more == Messages(Outputs(Run(codec, events + [event]).out))
  {
    RunOk(codec, events);
    SentStep(codec, events, event);
    var _ := reassembler.ReconstructShreds(codec, event.order, event.batch);
    more := sent + Messages(reassembler.deshreddedEntries);
  }

  lemma DeliveredStep(signals: seq<Signal>, i: nat)
    requires i < |signals| && Connected(signals[..i])
    ensures signals[i].Batch? ==> Delivered(signals[..i + 1]) == Delivered(signals[..i]) + [signals[i].event]
    ensures signals[i].Timeout? ==> Delivered(signals[..i + 1]) == Delivered(signals[..i])
    ensures !signals[i].Disconnected? ==> Connected(signals[..i + 1])
  {
    assert signals[..i + 1][..i] == signals[..i];
  }

  /**
   The thread's loop, over the signals it gets before it is told to exit: it sends exactly
   what the run over the delivered batches hands out, in that order, and its recovery metric
   is the run's.
   */
  method ReconstructorLoop(codec: Codec, signals: seq<Signal>) returns (sent: seq<PbEntry>, recoveredCount: nat)
    ensures Carry(sent, Run(codec, Delivered(signals)).out)
    ensures recoveredCount == Run(codec, Delivered(signals)).recovered
  {
    var reassembler := new ShredReassembler();
    sent, recoveredCount := [], 0;
    ghost var events: seq<Event> := [];
    for i := 0 to |signals|
      invariant fresh(reassembler) && reassembler.Valid() && forall o :: o in reassembler.owner ==> fresh(o)
      invariant Connected(signals[..i]) && events == Delivered(signals[..i])
      invariant reassembler.View() == Run(codec, events).st
      invariant sent == Messages(Outputs(Run(codec, events).out))
      invariant recoveredCount == reassembler.recoveredCount == Run(codec, events).recovered
    {
      DeliveredStep(signals, i);
      match signals[i]
      case Batch(event) =>
        sent := HandleBatch(reassembler, codec, event, sent, events);
        recoveredCount := reassembler.recoveredCount;
        events := events + [event];
      case Timeout =>
      case Disconnected =>
        NothingAfterClose(signals, i);
        return;
    }
    assert signals[..|signals|] == signals;
  }
}
