/**
 build_change_payload of src/change_detection.rs: which polls become events,
 and what an event says.
 */
module ChangeDetection {
  import opened Json
  import opened Models
  import opened Basics
  import opened Players
  import opened Text

  // ---- Events -----------------------------------------------------------------------

  datatype Kind = StateFull | ServerUp | ServerDown | OnlineChanged | StateUpdated | Heartbeat {
    function Name(): string {
      match this
      case StateFull => "state_full"
      case ServerUp => "server_up"
      case ServerDown => "server_down"
      case OnlineChanged => "online_changed"
      case StateUpdated => "state_updated"
      case Heartbeat => "heartbeat"
    }
  }

  /** What a poll, or an event, says of a server. */
  datatype View = View(
    up: bool,
    online: Option<int>,
    maxPlayers: Option<int>,
    version: string,
    motd: string,
    country: string,
    countryCode: string,
    players: seq<string>)

  datatype Event = Event(kind: Kind, view: View, at: real)

  /** One call: the poll's payload and outcome, the time, and the plugin flags. */
  datatype Poll = Poll(payload: Value, ok: bool, now: real, pluginManaged: bool, fallback: bool)

  function TextField(payload: Value, name: string): string {
    match payload.Get(name)
    case None => []
    case Some(v) => Trim(v.AsStr().GetOr([]))
  }

  function NumberField(payload: Value, name: string): Option<int> {
    match payload.Get(name)
    case None => None
    case Some(v) => v.AsI64()
  }

  function IfEmpty(s: string, fallback: string): string {
    if s == [] then fallback else s
  }

  /** The current values the code compares, given what was last emitted. */
  function Current(last: LastEmitted, poll: Poll): View {
    var country := TextField(poll.payload, "country");
    var countryCode := TextField(poll.payload, "country_code");
    if poll.ok then
      View(true, NumberField(poll.payload, "online"), NumberField(poll.payload, "max_players"),
           TextField(poll.payload, "version"), TextField(poll.payload, "motd"), country, countryCode,
           PlayersOf(poll.payload.Get("extra").GetOr(Object(map[]))))
    else
      View(false, Some(0), last.maxPlayers, last.version.GetOr([]), last.motd.GetOr([]),
           IfEmpty(country, last.country.GetOr([])), IfEmpty(countryCode, last.countryCode.GetOr([])), [])
  }

  /** The event type, or nothing to emit. */
  function Decide(last: LastEmitted, current: View, now: real, heartbeat: real): Option<Kind> {
    if !last.hasEmittedState then Some(StateFull)
    else if last.up != Some(current.up) then Some(if current.up then ServerUp else ServerDown)
    else if last.online != current.online then Some(OnlineChanged)
    else if last.maxPlayers != current.maxPlayers || last.version.GetOr([]) != current.version
      || last.motd.GetOr([]) != current.motd || last.country.GetOr([]) != current.country
      || last.countryCode.GetOr([]) != current.countryCode || last.playersHash != PlayersHash(current.players)
    then Some(StateUpdated)
    else if heartbeat > 0.0 && (last.at.None? || now - last.at.value >= heartbeat) then Some(Heartbeat)
    else None
  }

  function Record(current: View, now: real): LastEmitted {
    LastEmitted(true, Some(current.up), current.online, current.maxPlayers, Some(current.version), Some(current.motd),
                Some(current.country), Some(current.countryCode), PlayersHash(current.players), Some(now))
  }

  /** One call of build_change_payload: the event, if any, and the new record. */
  function Step(last: LastEmitted, poll: Poll, heartbeat: real): (LastEmitted, Option<Event>) {
    var current := Current(last, poll);
    match Decide(last, current, poll.now, heartbeat)
    case None => (last, None)
    case Some(kind) => (Record(current, poll.now), Some(Event(kind, current, poll.now)))
  }

  // ---- The JSON of an event ------------------------------------------------------------

  function OfNumber(n: Option<int>): Value {
    match n
    case None => Null
    case Some(i) => Integer(i)
  }

  function OfNames(names: seq<string>): Value {
    Array(seq(|names|, i requires 0 <= i < |names| => String(names[i])))
  }

  /** The nested "extra" object. */
  function Extra(poll: Poll, view: View): map<string, Value> {
    var e0: map<string, Value> := if view.players != [] then map["players" := OfNames(view.players)] else map[];
    var e1 := e0["poll_status" := String(if view.up then "ok" else "failed")];
    var e2 := if poll.pluginManaged && !poll.fallback then e1["compare_probe" := Bool(true)] else e1;
    if poll.fallback then e2["plugin_fallback" := Bool(true)] else e2
  }

  function Render(serverId: string, poll: Poll, event: Event): Value {
    var v := event.view;
    Object(map[
      "server_id" := String(serverId),
      "collected_at" := poll.payload.Get("collected_at").GetOr(Null),
      "online" := OfNumber(v.online),
      "max_players" := OfNumber(v.maxPlayers),
      "version" := String(v.version),
      "motd" := String(v.motd),
      "country" := String(v.country),
      "country_code" := String(v.countryCode),
      "event_type" := String(event.kind.Name()),
      "extra" := Object(Extra(poll, v))])
  }

  function Rendered(serverId: string, poll: Poll, event: Option<Event>): Option<Value> {
    match event
    case None => None
    case Some(e) => Some(Render(serverId, poll, e))
  }

  /** The first half of build_change_payload: the values that will be compared. */
  method CurrentValues(state: ServerState, payload: Value, statusOk: bool, ghost poll: Poll) returns (view: View)
    requires poll.payload == payload && poll.ok == statusOk
    ensures view == Current(state.Emitted(), poll)
  {
    var currentUp := statusOk;
    var currentOnline := if !currentUp then Some(0) else NumberField(payload, "online");
    var currentMax := NumberField(payload, "max_players");
    var currentVersion := TextField(payload, "version");
    var currentMotd := TextField(payload, "motd");
    var currentCountry := TextField(payload, "country");
    var currentCountryCode := TextField(payload, "country_code");
    var players := ExtractPlayers(payload.Get("extra").GetOr(Object(map[])));

    if !currentUp {
      currentMax := state.lastEmittedMaxPlayers;
      currentVersion := state.lastEmittedVersion.GetOr([]);
      currentMotd := state.lastEmittedMotd.GetOr([]);
      if currentCountry == [] {
        currentCountry := state.lastEmittedCountry.GetOr([]);
      }
      if currentCountryCode == [] {
        currentCountryCode := state.lastEmittedCountryCode.GetOr([]);
      }
      players := [];
    }

    view := View(currentUp, currentOnline, currentMax, currentVersion, currentMotd, currentCountry,
                 currentCountryCode, players);
  }

  /** The comparisons and the update of build_change_payload; no field but those
      of the last emission changes. */
  method DetectChange(state: ServerState, payload: Value, statusOk: bool, now: real, heartbeatInterval: real)
    returns (out: Option<Event>)
    modifies state`hasEmittedState, state`lastEmittedUp, state`lastEmittedOnline, state`lastEmittedMaxPlayers,
             state`lastEmittedVersion, state`lastEmittedMotd, state`lastEmittedCountry,
             state`lastEmittedCountryCode, state`lastEmittedPlayersHash, state`lastEmittedAt
    ensures var poll := Poll(payload, statusOk, now, state.pluginManaged, state.pluginFallbackMode);
            var (last, event) := Step(old(state.Emitted()), poll, heartbeatInterval);
            state.Emitted() == last && out == event
  {
    ghost var last := state.Emitted();
    ghost var poll := Poll(payload, statusOk, now, state.pluginManaged, state.pluginFallbackMode);
    var view := CurrentValues(state, payload, statusOk, poll);
    var phash := PlayersHash(view.players);
    var changedOnline := state.lastEmittedOnline != view.online;
    var changedUp := state.lastEmittedUp != Some(view.up);
    var changedMeta := state.lastEmittedMaxPlayers != view.maxPlayers
      || state.lastEmittedVersion.GetOr([]) != view.version
      || state.lastEmittedMotd.GetOr([]) != view.motd
      || state.lastEmittedCountry.GetOr([]) != view.country
      || state.lastEmittedCountryCode.GetOr([]) != view.countryCode;
    var changedPlayers := state.lastEmittedPlayersHash != phash;

    var kind: Kind;
    if !state.hasEmittedState {
      kind := StateFull;
    } else if changedUp {
      kind := if view.up then ServerUp else ServerDown;
    } else if changedOnline {
      kind := OnlineChanged;
    } else if changedMeta || changedPlayers {
      kind := StateUpdated;
    } else if heartbeatInterval > 0.0 {
      var elapsed := if state.lastEmittedAt.Some? then now - state.lastEmittedAt.value else heartbeatInterval;
      if elapsed < heartbeatInterval {
        assert Decide(last, view, now, heartbeatInterval) == None;
        return None;
      }
      kind := Heartbeat;
    } else {
      assert Decide(last, view, now, heartbeatInterval) == None;
      return None;
    }

    assert Decide(last, view, now, heartbeatInterval) == Some(kind);
    out := Some(Event(kind, view, now));
    Remember(state, view, phash, now);
  }

  /** "Update emitted state": every last_emitted field takes the current value. */
  method Remember(state: ServerState, view: View, phash: Option<Digest>, now: real)
    requires phash == PlayersHash(view.players)
    modifies state`hasEmittedState, state`lastEmittedUp, state`lastEmittedOnline, state`lastEmittedMaxPlayers,
             state`lastEmittedVersion, state`lastEmittedMotd, state`lastEmittedCountry,
             state`lastEmittedCountryCode, state`lastEmittedPlayersHash, state`lastEmittedAt
    ensures state.Emitted() == Record(view, now)
  {
    state.hasEmittedState := true;
    state.lastEmittedUp := Some(view.up);
    state.lastEmittedOnline := view.online;
    state.lastEmittedMaxPlayers := view.maxPlayers;
    state.lastEmittedVersion := Some(view.version);
    state.lastEmittedMotd := Some(view.motd);
    state.lastEmittedCountry := Some(view.country);
    state.lastEmittedCountryCode := Some(view.countryCode);
    state.lastEmittedPlayersHash := phash;
    state.lastEmittedAt := Some(now);
  }

  /** build_change_payload: the event, rendered. */
  method BuildChangePayload(state: ServerState, payload: Value, statusOk: bool, now: real, heartbeatInterval: real)
    returns (out: Option<Value>)
    modifies state`hasEmittedState, state`lastEmittedUp, state`lastEmittedOnline, state`lastEmittedMaxPlayers,
             state`lastEmittedVersion, state`lastEmittedMotd, state`lastEmittedCountry,
             state`lastEmittedCountryCode, state`lastEmittedPlayersHash, state`lastEmittedAt
    ensures var poll := Poll(payload, statusOk, now, state.pluginManaged, state.pluginFallbackMode);
            var (last, event) := Step(old(state.Emitted()), poll, heartbeatInterval);
            state.Emitted() == last && out == Rendered(state.serverId, poll, event)
  {
    var poll := Poll(payload, statusOk, now, state.pluginManaged, state.pluginFallbackMode);
    var event := DetectChange(state, payload, statusOk, now, heartbeatInterval);
    out := Rendered(state.serverId, poll, event);
  }
}
