/** What a blocking client reads while it waits for the reply to one of its requests. */
module Streams {
  /** An asynchronous message or a reply, with the server's records as of then. */
  datatype Event<+M, +W> = Notice(msg: M, after: W) | Reply(ok: bool, after: W)

  /** The server and its message stream. */
  class Link<M, W> {
    var world: W
    var events: seq<Event<M, W>>

    constructor (world: W, events: seq<Event<M, W>>)
      ensures this.world == world && this.events == events
    {
      this.world, this.events := world, events;
    }
  }

  /** Whether the next reply is not an error; without a reply the connection is lost. */
  function Granted<M, W>(events: seq<Event<M, W>>): bool {
    events != [] && if events[0].Reply? then events[0].ok else Granted(events[1..])
  }

  /** The events behind the next reply. */
  function Remaining<M, W>(events: seq<Event<M, W>>): seq<Event<M, W>> {
    if events == [] then [] else if events[0].Reply? then events[1..] else Remaining(events[1..])
  }

  /** The records when the server answers. */
  function WorldBefore<M, W>(w: W, events: seq<Event<M, W>>): W
    decreases |events|
  {
    if events == [] || events[0].Reply? then w else WorldBefore(events[0].after, events[1..])
  }

  /** The records as of the next reply. */
  function WorldThen<M, W>(w: W, events: seq<Event<M, W>>): W
    decreases |events|
  {
    if events == [] then w else if events[0].Reply? then events[0].after else WorldThen(events[0].after, events[1..])
  }

  /** Notices, a reply and what comes behind it: the reply decides, the records are those it came with, and those in
      front of it are those of the last notice. */
  lemma {:induction false} NextReply<M, W>(w: W, notices: seq<Event<M, W>>, ok: bool, after: W, more: seq<Event<M, W>>)
    requires forall i :: 0 <= i < |notices| ==> notices[i].Notice?
    ensures var events := notices + [Reply(ok, after)] + more;
            && Granted(events) == ok && Remaining(events) == more && WorldThen(w, events) == after
            && WorldBefore(w, events) == if notices == [] then w else notices[|notices| - 1].after
    decreases |notices|
  {
    var events := notices + [Reply(ok, after)] + more;
    if notices == [] {
      assert events == [Reply(ok, after)] + more;
    } else {
      NextReply(notices[0].after, notices[1..], ok, after, more);
      assert events[1..] == notices[1..] + [Reply(ok, after)] + more;
    }
  }

  /** When the stream ends with notices, there is no reply. */
  lemma {:induction false} NoReply<M, W>(w: W, notices: seq<Event<M, W>>)
    requires forall i :: 0 <= i < |notices| ==> notices[i].Notice?
    ensures !Granted(notices) && Remaining(notices) == []
    ensures WorldThen(w, notices) == if notices == [] then w else notices[|notices| - 1].after
    decreases |notices|
  {
    if notices != [] {
      NoReply(notices[0].after, notices[1..]);
    }
  }
}
