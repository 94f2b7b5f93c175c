/**
 The shape of one server's event stream between two resets: how it starts, how
 its kinds follow one another, what stays frozen while the server is down, and
 how far apart its events are.
 */
module EventTrace {
  import opened ChangeDetection
  import opened DeltaStream
  import opened Models
  import opened Basics
  import opened Players

  /** The events of a run of polls. */
  function Events(last: LastEmitted, polls: seq<Poll>, heartbeat: real): seq<Event>
    decreases |polls|
  {
    if polls == [] then []
    else
      var (last', event) := Step(last, polls[0], heartbeat);
      var rest := Events(last', polls[1..], heartbeat);
      if event.None? then rest else [event.value] + rest
  }

  /** What an event's kind and content say relative to the event before it. */
  predicate Follows(prev: Event, cur: Event, heartbeat: real) {
    && (cur.kind == ServerUp <==> cur.view.up && !prev.view.up)
    && (cur.kind == ServerDown <==> !cur.view.up && prev.view.up)
    && (cur.kind == OnlineChanged <==> cur.view.up == prev.view.up && cur.view.online != prev.view.online)
    && (cur.kind == StateUpdated <==>
          && cur.view.up == prev.view.up && cur.view.online == prev.view.online
          && !SameButForPlayers(prev.view, cur.view))
    && (cur.kind == Heartbeat <==> SameButForPlayers(prev.view, cur.view))
    && (cur.kind == Heartbeat ==> heartbeat > 0.0 && cur.at - prev.at >= heartbeat)
    && (!cur.view.up ==>
          && cur.view.version == prev.view.version && cur.view.motd == prev.view.motd
          && cur.view.maxPlayers == prev.view.maxPlayers
          && cur.view.online == Some(0) && cur.view.players == [])
  }

  ghost predicate Chain(prev: Event, events: seq<Event>, heartbeat: real)
    decreases |events|
  {
    events != [] ==> Follows(prev, events[0], heartbeat) && Chain(events[0], events[1..], heartbeat)
  }

  lemma OneFollows(prev: Event, poll: Poll, heartbeat: real)
    ensures var (last, event) := Step(Record(prev.view, prev.at), poll, heartbeat);
            if event.None? then last == Record(prev.view, prev.at)
            else last == Record(event.value.view, event.value.at) && event.value.at == poll.now
                 && Follows(prev, event.value, heartbeat)
  {
    var last := Record(prev.view, prev.at);
    var current := Current(last, poll);
    var kind := Decide(last, current, poll.now, heartbeat);
    SilentDecision(last, prev.view, current, poll.now, heartbeat);
    assert SameButForPlayers(prev.view, current) <==>
           && prev.view.up == current.up && prev.view.online == current.online
           && prev.view.maxPlayers == current.maxPlayers && prev.view.version == current.version
           && prev.view.motd == current.motd && prev.view.country == current.country
           && prev.view.countryCode == current.countryCode
           && PlayersHash(prev.view.players) == PlayersHash(current.players);
  }

  lemma {:induction false} EventsChain(prev: Event, polls: seq<Poll>, heartbeat: real)
    ensures Chain(prev, Events(Record(prev.view, prev.at), polls, heartbeat), heartbeat)
    decreases |polls|
  {
    if polls != [] {
      OneFollows(prev, polls[0], heartbeat);
      var (last', event) := Step(Record(prev.view, prev.at), polls[0], heartbeat);
      if event.None? {
        EventsChain(prev, polls[1..], heartbeat);
      } else {
        EventsChain(event.value, polls[1..], heartbeat);
        var rest := Events(last', polls[1..], heartbeat);
        assert ([event.value] + rest)[1..] == rest;
      }
    }
  }

  lemma {:induction false} ChainAt(prev: Event, events: seq<Event>, heartbeat: real, i: nat)
    requires Chain(prev, events, heartbeat) && i < |events|
    ensures Follows(([prev] + events)[i], events[i], heartbeat)
    decreases |events|
  {
    if i > 0 {
      ChainAt(events[0], events[1..], heartbeat, i - 1);
      assert ([events[0]] + events[1..])[i - 1] == ([prev] + events)[i];
    }
  }

  /** A stream starts in full, and each further event follows its predecessor. */
  predicate Shaped(events: seq<Event>, heartbeat: real) {
    && events != [] && events[0].kind == StateFull
    && forall i :: 1 <= i < |events| ==> events[i].kind != StateFull && Follows(events[i - 1], events[i], heartbeat)
  }

  lemma EventsAreShaped(polls: seq<Poll>, heartbeat: real)
    requires polls != []
    ensures Shaped(Events(NEVER_EMITTED, polls, heartbeat), heartbeat)
  {
    var (last, event) := Step(NEVER_EMITTED, polls[0], heartbeat);
    var first := event.value;
    var rest := Events(last, polls[1..], heartbeat);
    var events := Events(NEVER_EMITTED, polls, heartbeat);
    assert events == [first] + rest;
    EventsChain(first, polls[1..], heartbeat);
    forall i | 1 <= i < |events|
      ensures events[i].kind != StateFull && Follows(events[i - 1], events[i], heartbeat)
    {
      ChainAt(first, rest, heartbeat, i - 1);
    }
  }

  // ---- Alternation -----------------------------------------------------------------------

  lemma {:induction false} GoesDown(events: seq<Event>, heartbeat: real, i: nat, m: nat)
    requires Shaped(events, heartbeat) && i < m < |events|
    requires events[i].view.up && !events[m].view.up
    ensures exists k :: i < k <= m && events[k].kind == ServerDown
    decreases m
  {
    assert Follows(events[m - 1], events[m], heartbeat);
    if !events[m - 1].view.up {
      GoesDown(events, heartbeat, i, m - 1);
    }
  }

  lemma {:induction false} GoesUp(events: seq<Event>, heartbeat: real, i: nat, m: nat)
    requires Shaped(events, heartbeat) && i < m < |events|
    requires !events[i].view.up && events[m].view.up
    ensures exists k :: i < k <= m && events[k].kind == ServerUp
    decreases m
  {
    assert Follows(events[m - 1], events[m], heartbeat);
    if events[m - 1].view.up {
      GoesUp(events, heartbeat, i, m - 1);
    }
  }

  /**
   server_up and server_down strictly alternate, starting opposite to the first
   state: from any event that leaves the server up (the first included), the next
   server_up comes only after a server_down, and the other way round.
   */
  lemma UpAndDownAlternate(polls: seq<Poll>, heartbeat: real, i: nat, j: nat)
    requires polls != []
    requires i < j < |Events(NEVER_EMITTED, polls, heartbeat)|
    requires var es := Events(NEVER_EMITTED, polls, heartbeat);
             es[j].kind == if es[i].view.up then ServerUp else ServerDown
    ensures var es := Events(NEVER_EMITTED, polls, heartbeat);
            exists k :: i < k < j && es[k].kind == if es[i].view.up then ServerDown else ServerUp
  {
    var es := Events(NEVER_EMITTED, polls, heartbeat);
    EventsAreShaped(polls, heartbeat);
    assert Follows(es[j - 1], es[j], heartbeat);
    if es[j].kind == ServerUp {
      GoesDown(es, heartbeat, i, j - 1);
    } else {
      GoesUp(es, heartbeat, i, j - 1);
    }
  }

  // ---- Timing -------------------------------------------------------------------------------

  /** Polls at nondecreasing times, no further apart than gap. */
  ghost predicate Paced(time: real, polls: seq<Poll>, gap: real)
    decreases |polls|
  {
    polls != [] ==> time <= polls[0].now <= time + gap && Paced(polls[0].now, polls[1..], gap)
  }

  ghost predicate Within(time: real, events: seq<Event>, bound: real)
    decreases |events|
  {
    events != [] ==> events[0].at - time < bound && Within(events[0].at, events[1..], bound)
  }

  /** The time of the last event, or the time given if there is none. */
  function LastAt(time: real, events: seq<Event>): real
    decreases |events|
  {
    if events == [] then time else LastAt(events[0].at, events[1..])
  }

  function LastNow(time: real, polls: seq<Poll>): real
    decreases |polls|
  {
    if polls == [] then time else LastNow(polls[0].now, polls[1..])
  }

  lemma SilenceIsShort(prev: Event, poll: Poll, heartbeat: real)
    requires heartbeat > 0.0 && Step(Record(prev.view, prev.at), poll, heartbeat).1.None?
    ensures poll.now - prev.at < heartbeat
  {
    var last := Record(prev.view, prev.at);
    SilentDecision(last, prev.view, Current(last, poll), poll.now, heartbeat);
  }

  lemma WithinCons(time: real, event: Event, rest: seq<Event>, bound: real)
    ensures Within(time, [event] + rest, bound) <==> event.at - time < bound && Within(event.at, rest, bound)
    ensures LastAt(time, [event] + rest) == LastAt(event.at, rest)
  {
    assert ([event] + rest)[1..] == rest;
  }

  lemma {:induction false} GapsAreBounded(prev: Event, time: real, polls: seq<Poll>, heartbeat: real, gap: real)
    requires heartbeat > 0.0 && prev.at <= time < prev.at + heartbeat && Paced(time, polls, gap)
    ensures var es := Events(Record(prev.view, prev.at), polls, heartbeat);
            Within(prev.at, es, heartbeat + gap)
            && LastNow(time, polls) - LastAt(prev.at, es) < heartbeat
    decreases |polls|
  {
    if polls != [] {
      var poll := polls[0];
      OneFollows(prev, poll, heartbeat);
      var (last', event) := Step(Record(prev.view, prev.at), poll, heartbeat);
      var rest := Events(last', polls[1..], heartbeat);
      if event.None? {
        SilenceIsShort(prev, poll, heartbeat);
        GapsAreBounded(prev, poll.now, polls[1..], heartbeat, gap);
      } else {
        GapsAreBounded(event.value, poll.now, polls[1..], heartbeat, gap);
        WithinCons(prev.at, event.value, rest, heartbeat + gap);
      }
    }
  }

  /**
   With the heartbeat on and polls at most gap apart, consecutive events are less
   than heartbeat + gap apart, and after any poll the last event is less than a
   heartbeat old.
   */
  lemma EventsKeepComing(first: Poll, polls: seq<Poll>, heartbeat: real, gap: real)
    requires heartbeat > 0.0 && Paced(first.now, polls, gap)
    ensures var es := Events(NEVER_EMITTED, [first] + polls, heartbeat);
            es != [] && es[0].at == first.now
            && Within(first.now, es[1..], heartbeat + gap)
            && LastNow(first.now, polls) - LastAt(first.now, es) < heartbeat
  {
    var (last, event) := Step(NEVER_EMITTED, first, heartbeat);
    assert ([first] + polls)[1..] == polls;
    var rest := Events(last, polls, heartbeat);
    assert Events(NEVER_EMITTED, [first] + polls, heartbeat) == [event.value] + rest;
    assert ([event.value] + rest)[1..] == rest;
    GapsAreBounded(event.value, first.now, polls, heartbeat, gap);
  }
}
