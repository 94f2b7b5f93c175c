/**
 What the event stream means to its consumer: nothing is lost, one delivered
 event repairs everything, and the stream has a definite shape.
 */
module DeltaStream {
  import opened ChangeDetection
  import opened Json
  import opened Models
  import opened Basics
  import opened Players
  import opened Text

  // ---- Reading an event back --------------------------------------------------------------

  function FieldText(v: Value, name: string): string {
    match v.Get(name)
    case None => []
    case Some(t) => t.AsStr().GetOr([])
  }

  function NamesIn(items: seq<Value>): seq<string> {
    if items == [] then [] else [items[0].AsStr().GetOr([])] + NamesIn(items[1..])
  }

  /** A consumer's reading of one event, from its JSON alone. */
  function ReadEvent(v: Value): View {
    var extra := v.Get("extra").GetOr(Null);
    View(FieldText(extra, "poll_status") == "ok", NumberField(v, "online"), NumberField(v, "max_players"),
         FieldText(v, "version"), FieldText(v, "motd"), FieldText(v, "country"), FieldText(v, "country_code"),
         NamesIn(ItemsOf(extra)))
  }

  predicate IsI64(n: Option<int>) {
    n.Some? ==> -0x8000_0000_0000_0000 <= n.value < 0x8000_0000_0000_0000
  }

  lemma {:induction false} NamesReadBack(names: seq<string>)
    ensures NamesIn(OfNames(names).items) == names
  {
    if names != [] {
      assert OfNames(names).items[1..] == OfNames(names[1..]).items;
      NamesReadBack(names[1..]);
    }
  }

  lemma ExtraReadsBack(poll: Poll, view: View)
    ensures FieldText(Object(Extra(poll, view)), "poll_status") == if view.up then "ok" else "failed"
    ensures NamesIn(ItemsOf(Object(Extra(poll, view)))) == view.players
  {
    NamesReadBack(view.players);
    assert ItemsOf(Object(Extra(poll, view))) == if view.players != [] then OfNames(view.players).items else [];
  }

  /** An event's JSON says exactly what the event says. */
  lemma EventReadsBack(serverId: string, poll: Poll, event: Event)
    requires IsI64(event.view.online) && IsI64(event.view.maxPlayers)
    ensures ReadEvent(Render(serverId, poll, event)) == event.view
    ensures FieldText(Render(serverId, poll, event), "event_type") == event.kind.Name()
  {
    hide OfNames, NamesIn;
    ExtraReadsBack(poll, event.view);
  }

  /** What else an event's JSON carries: the server, the time of collection, and
      the plugin flags, each present exactly when it applies. */
  lemma EventCarriesContext(serverId: string, poll: Poll, event: Event)
    ensures var v := Render(serverId, poll, event); var extra := v.Get("extra").GetOr(Null);
            && FieldText(v, "server_id") == serverId
            && v.Get("collected_at") == Some(poll.payload.Get("collected_at").GetOr(Null))
            && (extra.Get("compare_probe") == Some(Bool(true)) <==> poll.pluginManaged && !poll.fallback)
            && (extra.Get("plugin_fallback") == Some(Bool(true)) <==> poll.fallback)
            && (extra.Get("players").Some? <==> event.view.players != [])
  {
    hide OfNames;
    ExtraCarriesFlags(poll, event.view);
  }

  lemma ExtraCarriesFlags(poll: Poll, view: View)
    ensures var extra := Extra(poll, view);
            && ("compare_probe" in extra <==> poll.pluginManaged && !poll.fallback)
            && ("plugin_fallback" in extra <==> poll.fallback)
            && ("players" in extra <==> view.players != [])
            && ("compare_probe" in extra ==> extra["compare_probe"] == Bool(true))
            && ("plugin_fallback" in extra ==> extra["plugin_fallback"] == Bool(true))
  {
    hide OfNames;
  }

  // ---- The normalised observations, without looking at events -----------------------------------

  const BLANK := View(false, None, None, [], [], [], [], [])

  /** What a poll tells, given what was known before: offline keeps the metadata. */
  function Observe(known: View, poll: Poll): View {
    var p := poll.payload;
    if poll.ok then
      View(true, NumberField(p, "online"), NumberField(p, "max_players"), TextField(p, "version"), TextField(p, "motd"),
           TextField(p, "country"), TextField(p, "country_code"), PlayersOf(p.Get("extra").GetOr(Object(map[]))))
    else
      known.(up := false, online := Some(0), players := [],
             country := IfEmpty(TextField(p, "country"), known.country),
             countryCode := IfEmpty(TextField(p, "country_code"), known.countryCode))
  }

  /** What happens to one server's record: a poll, whose event may be dropped on
      the way out, or a reset. */
  datatype Input = Polled(poll: Poll, delivered: bool) | Reset

  /** What the last poll was about, after any inputs since the last reset. */
  function Known(known: View, inputs: seq<Input>): View
    decreases |inputs|
  {
    if inputs == [] then known
    else Known(if inputs[0].Reset? then BLANK else Observe(known, inputs[0].poll), inputs[1..])
  }

  /** The record, what the consumer saw last, and whether it saw the last event. */
  datatype Stream = Stream(last: LastEmitted, seen: Option<View>, upToDate: bool)

  function Feed(s: Stream, input: Input, heartbeat: real): Stream {
    match input
    case Reset => s.(last := NEVER_EMITTED)
    case Polled(poll, delivered) =>
      var (last, event) := Step(s.last, poll, heartbeat);
      if event.None? then s
      else if delivered then Stream(last, Some(event.value.view), true)
      else Stream(last, s.seen, false)
  }

  function FeedAll(s: Stream, inputs: seq<Input>, heartbeat: real): Stream
    decreases |inputs|
  {
    if inputs == [] then s else FeedAll(Feed(s, inputs[0], heartbeat), inputs[1..], heartbeat)
  }

  const START := Stream(NEVER_EMITTED, None, false)

  // ---- Nothing is lost ----------------------------------------------------------------------------

  /** Equal in everything but the players, and in the players' hash. */
  predicate SameButForPlayers(a: View, b: View) {
    a == b.(players := a.players) && PlayersHash(a.players) == PlayersHash(b.players)
  }

  /** The record stands for what is known; the consumer has it unless an event was dropped. */
  predicate InStep(s: Stream, known: View) {
    if !s.last.hasEmittedState then s.last == NEVER_EMITTED && known == BLANK
    else
      && s.last.at.Some? && s.last == Record(known, s.last.at.value)
      && (s.upToDate ==> s.seen.Some? && SameButForPlayers(s.seen.value, known))
  }

  lemma CurrentIsObserved(s: Stream, known: View, poll: Poll)
    requires InStep(s, known)
    ensures Current(s.last, poll) == Observe(known, poll)
  {
  }

  lemma FeedKeepsInStep(s: Stream, known: View, input: Input, heartbeat: real)
    requires InStep(s, known)
    ensures InStep(Feed(s, input, heartbeat), Known(known, [input]))
  {
    assert [input][1..] == [];
    if input.Polled? {
      CurrentIsObserved(s, known, input.poll);
    }
  }

  lemma KnownSteps(known: View, inputs: seq<Input>)
    requires inputs != []
    ensures Known(known, inputs) == Known(Known(known, inputs[..1]), inputs[1..])
  {
    assert inputs[..1] == [inputs[0]] && inputs[..1][1..] == [];
  }

  lemma {:induction false} FeedAllKeepsInStep(s: Stream, known: View, inputs: seq<Input>, heartbeat: real)
    requires InStep(s, known)
    ensures InStep(FeedAll(s, inputs, heartbeat), Known(known, inputs))
    decreases |inputs|
  {
    if inputs != [] {
      FeedKeepsInStep(s, known, inputs[0], heartbeat);
      assert inputs[..1] == [inputs[0]];
      KnownSteps(known, inputs);
      FeedAllKeepsInStep(Feed(s, inputs[0], heartbeat), Known(known, [inputs[0]]), inputs[1..], heartbeat);
    }
  }

  /**
   The delta stream loses nothing: after any polls, resets and drops, if the last
   event reached the consumer and there has been a poll since the last reset, the
   consumer has the latest observation in every field, and its players up to the
   hash, although most polls sent nothing.
   */
  lemma NothingLost(inputs: seq<Input>, heartbeat: real)
    requires var s := FeedAll(START, inputs, heartbeat); s.upToDate && s.last.hasEmittedState
    ensures var s := FeedAll(START, inputs, heartbeat);
            s.seen.Some? && SameButForPlayers(s.seen.value, Known(BLANK, inputs))
  {
    FeedAllKeepsInStep(START, BLANK, inputs, heartbeat);
  }

  /** With newline-free names the players agree too. */
  lemma NothingLostExactly(inputs: seq<Input>, heartbeat: real)
    requires var s := FeedAll(START, inputs, heartbeat); s.upToDate && s.last.hasEmittedState
    requires var s := FeedAll(START, inputs, heartbeat); s.seen.Some? ==> NewlineFree(s.seen.value.players)
    requires NewlineFree(Known(BLANK, inputs).players)
    ensures FeedAll(START, inputs, heartbeat).seen == Some(Known(BLANK, inputs))
  {
    NothingLost(inputs, heartbeat);
    HashSeparates(FeedAll(START, inputs, heartbeat).seen.value.players, Known(BLANK, inputs).players);
  }

  /** Any one delivered event restores agreement, whatever was dropped before it. */
  lemma OneEventRestores(inputs: seq<Input>, poll: Poll, heartbeat: real)
    requires Step(FeedAll(START, inputs, heartbeat).last, poll, heartbeat).1.Some?
    ensures Feed(FeedAll(START, inputs, heartbeat), Polled(poll, true), heartbeat).seen
            == Some(Observe(Known(BLANK, inputs), poll))
  {
    FeedAllKeepsInStep(START, BLANK, inputs, heartbeat);
    CurrentIsObserved(FeedAll(START, inputs, heartbeat), Known(BLANK, inputs), poll);
  }

  predicate FitsI64(v: View) {
    IsI64(v.online) && IsI64(v.maxPlayers)
  }

  lemma ObservedFits(known: View, poll: Poll)
    requires FitsI64(known)
    ensures FitsI64(Observe(known, poll))
  {
  }

  lemma {:induction false} KnownFits(known: View, inputs: seq<Input>)
    requires FitsI64(known)
    ensures FitsI64(Known(known, inputs))
    decreases |inputs|
  {
    if inputs != [] {
      if inputs[0].Polled? {
        ObservedFits(known, inputs[0].poll);
      }
      KnownFits(if inputs[0].Reset? then BLANK else Observe(known, inputs[0].poll), inputs[1..]);
    }
  }

  /** So the JSON of any event of any run alone tells the whole observation: a
      consumer needs no earlier event, and no other field. */
  lemma EveryEventTellsAll(inputs: seq<Input>, poll: Poll, heartbeat: real, serverId: string)
    requires Step(FeedAll(START, inputs, heartbeat).last, poll, heartbeat).1.Some?
    ensures var event := Step(FeedAll(START, inputs, heartbeat).last, poll, heartbeat).1.value;
            ReadEvent(Render(serverId, poll, event)) == Observe(Known(BLANK, inputs), poll)
  {
    hide Observe, Render, ReadEvent, FitsI64;
    var last := FeedAll(START, inputs, heartbeat).last;
    FeedAllKeepsInStep(START, BLANK, inputs, heartbeat);
    CurrentIsObserved(FeedAll(START, inputs, heartbeat), Known(BLANK, inputs), poll);
    BlankFits();
    KnownFits(BLANK, inputs);
    ObservedFits(Known(BLANK, inputs), poll);
    FittingReadsBack(serverId, poll, Step(last, poll, heartbeat).1.value);
  }

  lemma BlankFits()
    ensures FitsI64(BLANK)
  {
  }

  lemma FittingReadsBack(serverId: string, poll: Poll, event: Event)
    requires FitsI64(event.view)
    ensures ReadEvent(Render(serverId, poll, event)) == event.view
  {
    EventReadsBack(serverId, poll, event);
  }

  /**
   Exactly when a poll is silent: something was emitted since the last reset, the
   observation differs in nothing but hash-equal players, and no heartbeat is due.
   */
  lemma SilentExactlyWhenUnchanged(inputs: seq<Input>, poll: Poll, heartbeat: real)
    ensures var s := FeedAll(START, inputs, heartbeat);
            var known := Known(BLANK, inputs);
            Step(s.last, poll, heartbeat).1.None? <==>
              && s.last.hasEmittedState
              && SameButForPlayers(known, Observe(known, poll))
              && (heartbeat <= 0.0 || poll.now - s.last.at.GetOr(0.0) < heartbeat)
  {
    var s, known := FeedAll(START, inputs, heartbeat), Known(BLANK, inputs);
    FeedAllKeepsInStep(START, BLANK, inputs, heartbeat);
    CurrentIsObserved(s, known, poll);
    if s.last.hasEmittedState {
      SilentDecision(s.last, known, Observe(known, poll), poll.now, heartbeat);
    }
  }

  lemma SilentDecision(last: LastEmitted, known: View, current: View, now: real, heartbeat: real)
    requires last.at.Some? && last == Record(known, last.at.value)
    ensures Decide(last, current, now, heartbeat).None? <==>
            SameButForPlayers(known, current) && (heartbeat <= 0.0 || now - last.at.value < heartbeat)
  {
    assert SameButForPlayers(known, current) <==>
           && known.up == current.up && known.online == current.online && known.maxPlayers == current.maxPlayers
           && known.version == current.version && known.motd == current.motd && known.country == current.country
           && known.countryCode == current.countryCode && PlayersHash(known.players) == PlayersHash(current.players);
  }

  // ---- Where the conditions come from ---------------------------------------------------------------

  function Named(names: seq<string>, now: real): Poll {
    Poll(Object(map["extra" := Object(map["players" := OfNames(names)])]), true, now, false, false)
  }

  predicate IsName(n: string) {
    n != [] && Trim(n) == n
  }

  /** No heartbeat falls due in the time that has passed. */
  predicate NoHeartbeat(heartbeat: real, passed: real) {
    heartbeat <= 0.0 || passed < heartbeat
  }

  /** For any two names: a player whose name joins them with a newline replaces the
      two players unnoticed, exactly until a heartbeat falls due. */
  lemma NewlineNamesGoUnnoticed(p: string, q: string, a: Poll, b: Poll, heartbeat: real)
    requires a.ok && b.ok && Observe(BLANK, b) == Observe(BLANK, a).(players := [p + "\n" + q])
    requires Observe(BLANK, a).players == [p, q]
    ensures var s := FeedAll(START, [Polled(a, true), Polled(b, true)], heartbeat);
            s.upToDate && s.seen.Some? && (s.seen.value.players == [p, q] <==> NoHeartbeat(heartbeat, b.now - a.now))
    ensures Known(BLANK, [Polled(a, true), Polled(b, true)]).players == [p + "\n" + q]
  {
    NewlineCollides(p, q);
    TwoInputs(START, BLANK, Polled(a, true), Polled(b, true), heartbeat);
    assert Observe(Observe(BLANK, a), b) == Observe(BLANK, b);
    SameHashIsSilent(a, b, Observe(BLANK, a), Observe(BLANK, b), heartbeat);
    assert |[p, q]| != |[p + "\n" + q]|;
  }

  /** Such polls exist: the payloads need only hold the names. */
  lemma SuchPollsExist(p: string, q: string, now: real)
    requires IsName(p) && IsName(q) && p != q && IsName(p + "\n" + q)
    ensures Observe(BLANK, Named([p, q], now)).players == [p, q]
    ensures Observe(BLANK, Named([p + "\n" + q], now)) == Observe(BLANK, Named([p, q], now)).(players := [p + "\n" + q])
  {
    TwoNames(p, q);
    ObserveNamed(BLANK, [p, q], now);
    OneName(p + "\n" + q);
    ObserveNamed(BLANK, [p + "\n" + q], now);
  }

  lemma SameHashIsSilent(a: Poll, b: Poll, seen: View, actual: View, heartbeat: real)
    requires Observe(BLANK, a) == seen && Observe(seen, b) == actual && SameButForPlayers(seen, actual)
    ensures var s := Feed(START, Polled(a, true), heartbeat); var s' := Feed(s, Polled(b, true), heartbeat);
            && s.seen == Some(seen) && s.upToDate && s'.upToDate
            && s'.seen == Some(if NoHeartbeat(heartbeat, b.now - a.now) then seen else actual)
  {
    hide Observe, SameButForPlayers, Decide;
    CurrentIsObserved(START, BLANK, a);
    FirstIsFull(Current(NEVER_EMITTED, a), a.now, heartbeat);
    var s := Feed(START, Polled(a, true), heartbeat);
    FeedKeepsInStep(START, BLANK, Polled(a, true), heartbeat);
    assert Known(BLANK, [Polled(a, true)]) == seen by {
      assert [Polled(a, true)][1..] == [];
    }
    CurrentIsObserved(s, seen, b);
    SilentDecision(Record(seen, a.now), seen, actual, b.now, heartbeat);
  }

  lemma FirstIsFull(current: View, now: real, heartbeat: real)
    ensures Decide(NEVER_EMITTED, current, now, heartbeat) == Some(StateFull)
  {
  }

  lemma ObserveNamed(known: View, names: seq<string>, now: real)
    requires PlayersOf(Object(map["players" := OfNames(names)])) == names
    ensures Observe(known, Named(names, now)) == SeenOnly(names)
  {
    hide OfNames, PlayersOf;
  }

  function SeenOnly(names: seq<string>): View {
    View(true, None, None, [], [], [], [], names)
  }

  lemma FirstNameIsNew(n: string, rest: seq<Value>, seen: set<string>)
    requires IsName(n) && n !in seen
    ensures NewNames([String(n)] + rest, seen) == [n] + NewNames(rest, seen + {n})
  {
    assert NameOf(String(n)) == Some(n);
    assert ([String(n)] + rest)[1..] == rest;
  }

  lemma OneName(n: string)
    requires IsName(n)
    ensures PlayersOf(Object(map["players" := OfNames([n])])) == [n]
  {
    assert OfNames([n]).items == [String(n)] + [];
    FirstNameIsNew(n, [], {});
    assert NewNames([], {} + {n}) == [];
  }

  lemma TwoItems(p: string, q: string)
    ensures OfNames([p, q]).items == [String(p)] + [String(q)]
  {
  }

  lemma TwoNames(p: string, q: string)
    requires IsName(p) && IsName(q) && p != q
    ensures PlayersOf(Object(map["players" := OfNames([p, q])])) == [p, q]
  {
    TwoItems(p, q);
    TwoNewNames(p, q);
  }

  lemma TwoNewNames(p: string, q: string)
    requires IsName(p) && IsName(q) && p != q
    ensures NewNames([String(p)] + [String(q)], {}) == [p, q]
  {
    hide *;
    FirstNameIsNew(p, [String(q)], {});
    LastNameIsNew(q, {} + {p});
  }

  lemma LastNameIsNew(q: string, seen: set<string>)
    requires IsName(q) && q !in seen
    ensures NewNames([String(q)], seen) == [q]
  {
    assert [String(q)] + [] == [String(q)];
    FirstNameIsNew(q, [], seen);
  }

  lemma TwoInputs(s: Stream, known: View, a: Input, b: Input, heartbeat: real)
    requires a.Polled? && b.Polled?
    ensures FeedAll(s, [a, b], heartbeat) == Feed(Feed(s, a, heartbeat), b, heartbeat)
    ensures Known(known, [a, b]) == Observe(Observe(known, a.poll), b.poll)
  {
    assert [a, b][1..] == [b] && [b][1..] == [];
    assert FeedAll(Feed(s, a, heartbeat), [b], heartbeat) == Feed(Feed(s, a, heartbeat), b, heartbeat);
    assert Known(Observe(known, a.poll), [b]) == Observe(Observe(known, a.poll), b.poll);
  }

  /** What a dropped event said is not said again by repeating the poll, exactly until
      a heartbeat falls due; from then on, it is. */
  lemma DroppedIsNotRepeated(inputs: seq<Input>, poll: Poll, later: real, heartbeat: real)
    ensures var s := Feed(FeedAll(START, inputs, heartbeat), Polled(poll, false), heartbeat);
            Step(s.last, poll.(now := later), heartbeat).1.None?
            <==> NoHeartbeat(heartbeat, later - s.last.at.GetOr(0.0))
  {
    hide Observe, Decide;
    var s0, known := FeedAll(START, inputs, heartbeat), Known(BLANK, inputs);
    FeedAllKeepsInStep(START, BLANK, inputs, heartbeat);
    FeedKeepsInStep(s0, known, Polled(poll, false), heartbeat);
    var s := Feed(s0, Polled(poll, false), heartbeat);
    EmittedOncePolled(s0, poll, heartbeat);
    assert Known(known, [Polled(poll, false)]) == Observe(known, poll) by {
      assert [Polled(poll, false)][1..] == [];
    }
    CurrentIsObserved(s, Observe(known, poll), poll.(now := later));
    SameAgain(known, poll, later);
    SilentDecision(s.last, Observe(known, poll), Observe(known, poll), later, heartbeat);
  }

  lemma EmittedOncePolled(s: Stream, poll: Poll, heartbeat: real)
    ensures Feed(s, Polled(poll, false), heartbeat).last.hasEmittedState
  {
  }

  lemma SameAgain(known: View, poll: Poll, later: real)
    ensures Observe(Observe(known, poll), poll.(now := later)) == Observe(known, poll)
  {
    hide PlayersOf, TextField, NumberField;
  }
}
