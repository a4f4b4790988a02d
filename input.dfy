/**
  The pause/quit flag pair of `Engine` and how `handle_input` updates it from
  the events of one frame. The pygame event queue is abstracted to a
  sequence of the four kinds of event the loop tells apart.
*/
module Input {

  /**
    A window-close event (`pygame.QUIT`), a key press of Escape or of `p`, or
    any other event, which the loop ignores.
  */
  datatype Event = Quit | Escape | P | Other

  /** The `running` and `paused` fields of `Engine`. */
  datatype Controls = Controls(running: bool, paused: bool)

  /**
    One iteration of the loop in `handle_input`: Quit and Escape clear
    `running`, `p` flips `paused`, and nothing else changes either flag.
  */
  function HandleEvent(c: Controls, e: Event): (r: Controls)
    ensures r.running == (c.running && e != Quit && e != Escape)
    ensures r.paused == (c.paused != (e == P))
  {
    match e
    case Quit => c.(running := false)
    case Escape => c.(running := false)
    case P => c.(paused := !c.paused)
    case Other => c
  }

  /**
    `handle_input`: the events of one frame, processed in order. Quit and
    Escape clear `running` and nothing sets it again; each `p` press toggles
    `paused`, so it ends flipped iff there was an odd number of them.
  */
  function HandleEvents(c: Controls, events: seq<Event>): (r: Controls)
    ensures r.running == (c.running && Quit !in events && Escape !in events)
    ensures r.paused == (c.paused != (Toggles(events) % 2 == 1))
  {
    if events == [] then c
    else
      var n := |events| - 1;
      assert events == events[..n] + [events[n]];
      HandleEvent(HandleEvents(c, events[..n]), events[n])
  }

  /** How many `p` presses `events` holds. */
  function Toggles(events: seq<Event>): nat
  {
    if events == [] then 0
    else Toggles(events[..|events| - 1]) + (if events[|events| - 1] == P then 1 else 0)
  }

  /** Handling two batches of events one after the other is handling them together. */
  lemma {:induction false} HandleEventsAppend(c: Controls, a: seq<Event>, b: seq<Event>)
    ensures HandleEvents(c, a + b) == HandleEvents(HandleEvents(c, a), b)
    decreases |b|
  {
    if b == [] {
      assert a + b == a;
    } else {
      var n := |b| - 1;
      assert (a + b)[..|a + b| - 1] == a + b[..n];
      HandleEventsAppend(c, a, b[..n]);
    }
  }

  /** Once stopped, the engine stays stopped whatever events follow. */
  lemma StoppedStaysStopped(c: Controls, events: seq<Event>)
    requires !c.running
    ensures !HandleEvents(c, events).running
  {
  }
}
