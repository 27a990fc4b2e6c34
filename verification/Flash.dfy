/** One-time session messages, after `src/auth/flash.rs`. */
module Flash {
  import opened Wrappers

  datatype Level = Success | Error | Warning | Info

  datatype Message = Message(level: Level, text: string)

  /** The session entry; absent and empty read alike. */
  class FlashEntry {
    var entry: Option<seq<Message>>

    function Pending(): seq<Message> reads this { if entry.Some? then entry.value else [] }

    constructor ()
      ensures Pending() == []
    {
      entry := None;
    }

    /** The extractor: read, then clear; a failure of either is swallowed. */
    method Extract(readFails: bool, removeFails: bool) returns (messages: seq<Message>)
      modifies this
      ensures messages == if readFails then [] else old(Pending())
      ensures Pending() == if removeFails then old(Pending()) else []
      ensures forall h: History :: h.pending == old(Pending()) ==>
        Step(h, Extracts(readFails, removeFails)) == History(Pending(), h.delivered + messages, h.written)
    {
      messages := if readFails then [] else if entry.Some? then entry.value else [];
      if !removeFails {
        entry := None;
      }
    }

    /** `add`: read the list, push, write it back. */
    method Add(m: Message, readFails: bool, writeFails: bool) returns (ok: bool)
      modifies this
      ensures ok <==> !readFails && !writeFails
      ensures Pending() == if ok then old(Pending()) + [m] else old(Pending())
      ensures forall h: History :: h.pending == old(Pending()) ==>
        Step(h, Adds(m, readFails, writeFails)) == History(Pending(), h.delivered, h.written + if ok then [m] else [])
    {
      if readFails {
        return false;
      }
      var messages := if entry.Some? then entry.value else [];
      messages := messages + [m];
      if writeFails {
        return false;
      }
      entry := Some(messages);
      ok := true;
    }
  }

  // ---------- runs ----------

  datatype Event =
    | Extracts(readFails: bool, removeFails: bool)
    | Adds(message: Message, readFails: bool, writeFails: bool)

  /** The pending list, everything handed to handlers so far, everything `add` reported written. */
  datatype History = History(pending: seq<Message>, delivered: seq<Message>, written: seq<Message>)

  function Step(h: History, e: Event): History {
    match e
    case Extracts(readFails, removeFails) =>
      h.(delivered := h.delivered + (if readFails then [] else h.pending),
         pending := if removeFails then h.pending else [])
    case Adds(m, readFails, writeFails) =>
      if readFails || writeFails then h
      else h.(pending := h.pending + [m], written := h.written + [m])
  }

  function Run(h: History, events: seq<Event>): History
    decreases events
  {
    if events == [] then h else Run(Step(h, events[0]), events[1..])
  }

  /** Every written message has been delivered once, in order, or is still pending. */
  predicate Conserved(h: History) { h.delivered + h.pending == h.written }

  /** An event that keeps the books: an extraction that reads and clears both, or neither. */
  predicate Whole(e: Event) { e.Extracts? ==> e.readFails == e.removeFails }

  /**
   * One event keeps the books exactly when it is whole or nothing was pending: clearing what could not
   * be read loses it, and reading what could not be cleared delivers it again.
   */
  lemma StepConserves(h: History, e: Event)
    requires Conserved(h)
    ensures Conserved(Step(h, e)) <==> Whole(e) || h.pending == []
  {
    var d, p := h.delivered, h.pending;
    match e
    case Extracts(readFails, removeFails) =>
      assert d + [] == d && p + [] == p;
      if !readFails && removeFails {
        assert |(d + p) + p| == |d + p| + |p|;
      } else if readFails && !removeFails {
        assert |(d + []) + []| == |d|;
      }
    case Adds(m, _, _) =>
      assert d + (p + [m]) == (d + p) + [m];
  }

  /** Over any run of whole events, messages are delivered exactly once and in order. */
  lemma {:induction false} DeliveredOnceInOrder(h: History, events: seq<Event>)
    requires Conserved(h) && forall e <- events :: Whole(e)
    ensures Conserved(Run(h, events))
    decreases events
  {
    if events != [] {
      assert events[0] in events;
      StepConserves(h, events[0]);
      DeliveredOnceInOrder(Step(h, events[0]), events[1..]);
    }
  }

  /** The books are kept after every event of the run. */
  predicate AlwaysConserved(h: History, events: seq<Event>)
    decreases events
  {
    Conserved(h) && (events != [] ==> AlwaysConserved(Step(h, events[0]), events[1..]))
  }

  /** Every event of the run is whole, or finds nothing pending. */
  predicate NothingSlips(h: History, events: seq<Event>)
    decreases events
  {
    events != [] ==> (Whole(events[0]) || h.pending == []) && NothingSlips(Step(h, events[0]), events[1..])
  }

  /** Over any run, failures included, the books are always kept exactly when nothing slips. */
  lemma {:induction false} BooksKeptExactly(h: History, events: seq<Event>)
    requires Conserved(h)
    ensures AlwaysConserved(h, events) <==> NothingSlips(h, events)
    decreases events
  {
    if events != [] {
      StepConserves(h, events[0]);
      if Conserved(Step(h, events[0])) {
        BooksKeptExactly(Step(h, events[0]), events[1..]);
      }
    }
  }
}
