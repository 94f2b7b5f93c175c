/**
 Catalog reconciliation (refresh_servers_once in src/sync.rs) as a function on
 the values of the server states.
 */
module CatalogModel {
  import opened Json
  import opened Models
  import opened Basics
  import SchedulerModel

  /** One fetched server, as read out of its JSON: its id, the endpoint, the plugin
      flags, whether it wants Bedrock probes, and the two random spreads drawn. */
  datatype Listing = Listing(
    id: string,
    server: Value,
    endpoint: Endpoint,
    managed: bool,
    fallback: bool,
    wantsProbe: bool,
    spread: real,
    probeSpread: real)

  type Servers = map<string, StateView>

  datatype Outcome = Outcome(servers: Servers, pushes: seq<(string, real)>)

  function Probe(l: Listing, now: real): Option<real> {
    if l.wantsProbe then Some(now + l.probeSpread) else None
  }

  /** A probe already planned stays planned while probes are wanted. */
  function NextProbe(planned: Option<real>, l: Listing, now: real): Option<real> {
    if l.wantsProbe && planned.Some? then planned else Probe(l, now)
  }

  function Added(l: Listing, now: real): StateView {
    StateView(l.id, l.id, l.server, l.endpoint, now + l.spread, Probe(l, now), now, l.managed, l.fallback, None,
              NEVER_POLLED, NEVER_EMITTED)
  }

  predicate FallsBack(v: StateView, l: Listing) {
    l.fallback && !v.pluginFallbackMode
  }

  function Moved(v: StateView, endpoint: Endpoint, now: real): StateView {
    if v.endpoint == endpoint then v
    else v.(endpoint := endpoint, nextQueryAttempt := now, emitted := NEVER_EMITTED)
  }

  function Updated(v: StateView, l: Listing, now: real): StateView {
    Moved(v, l.endpoint, now).(
      server := l.server, pluginManaged := l.managed, pluginFallbackMode := l.fallback,
      nextDue := if FallsBack(v, l) then now else v.nextDue,
      nextBedrockProbe := NextProbe(v.nextBedrockProbe, l, now))
  }

  /** One turn of the loop over the fetched servers. */
  function Absorb(m: Servers, l: Listing, now: real): Outcome {
    if l.id == [] then Outcome(m, [])
    else if l.id in m then
      Outcome(m[l.id := Updated(m[l.id], l, now)], if FallsBack(m[l.id], l) then [(l.id, now)] else [])
    else Outcome(m[l.id := Added(l, now)], [(l.id, now + l.spread)])
  }

  function AbsorbAll(m: Servers, listings: seq<Listing>, now: real): Outcome
    decreases |listings|
  {
    if listings == [] then Outcome(m, [])
    else
      var first := Absorb(m, listings[0], now);
      var rest := AbsorbAll(first.servers, listings[1..], now);
      Outcome(rest.servers, first.pushes + rest.pushes)
  }

  function Incoming(listings: seq<Listing>): set<string> {
    set i | 0 <= i < |listings| && listings[i].id != [] :: listings[i].id
  }

  function Keep(m: Servers, keys: set<string>): Servers {
    map k | k in m && k in keys :: m[k]
  }

  /** The whole refresh; an empty fetch counts as a failed one. */
  function Refreshed(m: Servers, listings: seq<Listing>, now: real): Outcome {
    if listings == [] then Outcome(m, [])
    else
      var all := AbsorbAll(m, listings, now);
      Outcome(Keep(all.servers, Incoming(listings)), all.pushes)
  }

  // ---- The map's keys ------------------------------------------------------------------

  lemma IncomingUnfolds(listings: seq<Listing>)
    requires listings != []
    ensures Incoming(listings) == Incoming(listings[1..]) + if listings[0].id == [] then {} else {listings[0].id}
  {
    var tail := listings[1..];
    forall k | k in Incoming(listings) && k != listings[0].id ensures k in Incoming(tail) {
      var i :| 0 <= i < |listings| && listings[i].id == k && k != [];
      assert tail[i - 1].id == k;
    }
    forall k | k in Incoming(tail) ensures k in Incoming(listings) {
      var i :| 0 <= i < |tail| && tail[i].id == k && k != [];
      assert listings[i + 1].id == k;
    }
  }

  /** The loop, seen from turn i on. */
  lemma AbsorbAllTurn(m: Servers, listings: seq<Listing>, now: real, i: nat, done: seq<(string, real)>)
    requires i < |listings|
    ensures var first := Absorb(m, listings[i], now);
            var rest := AbsorbAll(first.servers, listings[i + 1..], now);
            var all := AbsorbAll(m, listings[i..], now);
            all.servers == rest.servers && done + all.pushes == done + first.pushes + rest.pushes
  {
    assert listings[i..][1..] == listings[i + 1..];
    var first := Absorb(m, listings[i], now);
    AssociativeConcat(done, first.pushes, AbsorbAll(first.servers, listings[i + 1..], now).pushes);
  }

  lemma {:induction false} AbsorbAllKeys(m: Servers, listings: seq<Listing>, now: real)
    ensures AbsorbAll(m, listings, now).servers.Keys == m.Keys + Incoming(listings)
    decreases |listings|
  {
    if listings == [] {
    } else {
      IncomingUnfolds(listings);
      AbsorbAllKeys(Absorb(m, listings[0], now).servers, listings[1..], now);
    }
  }

  /** After a refresh that fetched anything, exactly the fetched ids are tracked,
      however often each was fetched; after one that fetched nothing, nothing changed. */
  lemma RefreshTracksTheCatalog(m: Servers, listings: seq<Listing>, now: real)
    ensures var r := Refreshed(m, listings, now);
            if listings == [] then r == Outcome(m, []) else r.servers.Keys == Incoming(listings)
  {
    AbsorbAllKeys(m, listings, now);
  }

  // ---- What happens to a server that stays ---------------------------------------------------

  /** The fetched entries for one server, in order. */
  function Occurrences(listings: seq<Listing>, id: string): seq<Listing> {
    if listings == [] then []
    else (if listings[0].id == id then [listings[0]] else []) + Occurrences(listings[1..], id)
  }

  function UpdatedAll(v: StateView, ls: seq<Listing>, now: real): StateView
    decreases |ls|
  {
    if ls == [] then v else UpdatedAll(Updated(v, ls[0], now), ls[1..], now)
  }

  /** Each server sees only its own entries. */
  lemma {:induction false} AbsorbAllIsPointwise(m: Servers, listings: seq<Listing>, now: real, id: string)
    requires id in m && id != []
    ensures id in AbsorbAll(m, listings, now).servers
    ensures AbsorbAll(m, listings, now).servers[id] == UpdatedAll(m[id], Occurrences(listings, id), now)
    decreases |listings|
  {
    if listings != [] {
      var l, tail := listings[0], listings[1..];
      AbsorbAllIsPointwise(Absorb(m, l, now).servers, tail, now, id);
      if l.id == id {
        assert ([l] + Occurrences(tail, id))[1..] == Occurrences(tail, id);
      } else {
        assert [] + Occurrences(tail, id) == Occurrences(tail, id);
      }
    }
  }

  /** A server that is new is added by its first entry, and updated by any others. */
  lemma {:induction false} NewcomerIsAdded(m: Servers, listings: seq<Listing>, now: real, id: string)
    requires id !in m && id != [] && Occurrences(listings, id) != []
    ensures var all := AbsorbAll(m, listings, now).servers; var ls := Occurrences(listings, id);
            id in all && all[id] == UpdatedAll(Added(ls[0], now), ls[1..], now)
    decreases |listings|
  {
    var l, tail := listings[0], listings[1..];
    if l.id == id {
      AbsorbAllIsPointwise(Absorb(m, l, now).servers, tail, now, id);
      assert ([l] + Occurrences(tail, id))[1..] == Occurrences(tail, id);
    } else {
      assert [] + Occurrences(tail, id) == Occurrences(tail, id);
      NewcomerIsAdded(Absorb(m, l, now).servers, tail, now, id);
    }
  }

  predicate SameEndpoint(ls: seq<Listing>, endpoint: Endpoint) {
    forall i :: 0 <= i < |ls| ==> ls[i].endpoint == endpoint
  }

  lemma {:induction false} UpdatedAllMeans(v: StateView, ls: seq<Listing>, now: real)
    ensures var v' := UpdatedAll(v, ls, now);
            && v'.emitted == (if SameEndpoint(ls, v.endpoint) then v.emitted else NEVER_EMITTED)
            && v'.nextQueryAttempt == (if SameEndpoint(ls, v.endpoint) then v.nextQueryAttempt else now)
            && v'.endpoint == (if ls == [] then v.endpoint else ls[|ls| - 1].endpoint)
            && v'.counters == v.counters && v'.key == v.key && v'.serverId == v.serverId
            && v'.lastFaviconHash == v.lastFaviconHash
    decreases |ls|
  {
    if ls != [] {
      UpdatedAllMeans(Updated(v, ls[0], now), ls[1..], now);
      assert SameEndpoint(ls, v.endpoint) <==> ls[0].endpoint == v.endpoint && SameEndpoint(ls[1..], v.endpoint) by {
        assert ls == [ls[0]] + ls[1..];
      }
    }
  }

  /** Some entry puts the server into fallback mode, from whatever mode it is in then. */
  predicate SomeFallsBack(fallback: bool, ls: seq<Listing>)
    decreases |ls|
  {
    ls != [] && ((ls[0].fallback && !fallback) || SomeFallsBack(ls[0].fallback, ls[1..]))
  }

  /** It does so exactly when the first entry does, or a later one behind one that does not. */
  lemma {:induction false} SomeFallsBackMeans(fallback: bool, ls: seq<Listing>)
    ensures SomeFallsBack(fallback, ls) <==>
              || (ls != [] && ls[0].fallback && !fallback)
              || exists i :: 0 < i < |ls| && ls[i].fallback && !ls[i - 1].fallback
    decreases |ls|
  {
    if ls != [] {
      var rest := ls[1..];
      SomeFallsBackMeans(ls[0].fallback, rest);
      if i :| 0 < i < |ls| && ls[i].fallback && !ls[i - 1].fallback {
        if i > 1 {
          assert rest[i - 1].fallback && !rest[i - 1 - 1].fallback;
        } else {
          assert rest[0].fallback;
        }
      }
      if i :| 0 < i < |rest| && rest[i].fallback && !rest[i - 1].fallback {
        assert ls[i + 1].fallback && !ls[i + 1 - 1].fallback;
      }
      if rest != [] && rest[0].fallback && !ls[0].fallback {
        assert ls[1].fallback && !ls[1 - 1].fallback;
      }
    }
  }

  /** What the last entry decides, and when entries reschedule a server: exactly when
      one of them puts it into fallback mode, and then to now. */
  lemma {:induction false} LastEntryDecides(v: StateView, ls: seq<Listing>, now: real)
    requires ls != []
    ensures var v' := UpdatedAll(v, ls, now); var last := ls[|ls| - 1];
            && v'.server == last.server && v'.pluginManaged == last.managed && v'.pluginFallbackMode == last.fallback
            && (v'.nextBedrockProbe.Some? <==> last.wantsProbe)
            && v'.nextDue == (if SomeFallsBack(v.pluginFallbackMode, ls) then now else v.nextDue)
    decreases |ls|
  {
    if |ls| > 1 {
      LastEntryDecides(Updated(v, ls[0], now), ls[1..], now);
    } else {
      assert UpdatedAll(v, ls, now) == Updated(v, ls[0], now);
    }
  }

  /** The entries from i on want probes, and the one before them does not. */
  predicate WantedFrom(ls: seq<Listing>, i: nat) {
    i < |ls| && (forall j :: i <= j < |ls| ==> ls[j].wantsProbe) && (i > 0 ==> !ls[i - 1].wantsProbe)
  }

  /** A probe stays as it was first planned, for as long as probes are wanted. */
  lemma {:induction false} ProbeIsFirstWanted(v: StateView, ls: seq<Listing>, now: real, i: nat)
    requires WantedFrom(ls, i)
    ensures UpdatedAll(v, ls, now).nextBedrockProbe ==
            if i == 0 && v.nextBedrockProbe.Some? then v.nextBedrockProbe else Some(now + ls[i].probeSpread)
    decreases |ls|
  {
    var next, rest := Updated(v, ls[0], now), ls[1..];
    if i > 0 {
      assert forall j :: i - 1 <= j < |rest| ==> rest[j] == ls[j + 1];
      assert i > 1 ==> rest[i - 2] == ls[i - 1];
      ProbeIsFirstWanted(next, rest, now, i - 1);
    } else if rest == [] {
      assert UpdatedAll(v, ls, now) == next;
    } else {
      assert forall j :: 0 <= j < |rest| ==> rest[j] == ls[j + 1];
      ProbeIsFirstWanted(next, rest, now, 0);
    }
  }

  lemma {:induction false} OccursIffIncoming(listings: seq<Listing>, id: string)
    requires id != []
    ensures id in Incoming(listings) <==> Occurrences(listings, id) != []
  {
    if listings != [] {
      IncomingUnfolds(listings);
      OccursIffIncoming(listings[1..], id);
    }
  }

  // ---- What a refresh leaves of each server ----------------------------------------------------

  lemma RefreshedTracked(m: Servers, listings: seq<Listing>, now: real, id: string)
    requires id in m && id in Incoming(listings)
    ensures id in Refreshed(m, listings, now).servers && Occurrences(listings, id) != []
    ensures Refreshed(m, listings, now).servers[id] == UpdatedAll(m[id], Occurrences(listings, id), now)
  {
    hide UpdatedAll;
    AbsorbAllIsPointwise(m, listings, now, id);
    OccursIffIncoming(listings, id);
  }

  lemma RefreshedNew(m: Servers, listings: seq<Listing>, now: real, id: string)
    requires id !in m && id in Incoming(listings)
    ensures id in Refreshed(m, listings, now).servers && Occurrences(listings, id) != []
    ensures var ls := Occurrences(listings, id);
            Refreshed(m, listings, now).servers[id] == UpdatedAll(Added(ls[0], now), ls[1..], now)
  {
    hide UpdatedAll, Added;
    OccursIffIncoming(listings, id);
    NewcomerIsAdded(m, listings, now, id);
  }

  /** Some entry falls back behind one that does not. */
  predicate TurnsToFallback(ls: seq<Listing>) {
    exists i :: 0 < i < |ls| && ls[i].fallback && !ls[i - 1].fallback
  }

  /**
   A server that stays in the catalog: its emission record is reset, so that the
   next poll is emitted in full, exactly when some entry for it differs from its
   endpoint; its last entry gives its endpoint, its entry and its plugin flags; it is
   due now exactly when some entry turned it to fallback mode; and its counters, keys
   and favicon are never touched.
   */
  lemma SurvivorsKeepTheirRecord(m: Servers, listings: seq<Listing>, now: real, id: string)
    requires id in m && id in Incoming(listings)
    ensures var r := Refreshed(m, listings, now).servers; var ls := Occurrences(listings, id);
            id in r && ls != [] &&
            var v, last := r[id], ls[|ls| - 1];
            && v.emitted == (if SameEndpoint(ls, m[id].endpoint) then m[id].emitted else NEVER_EMITTED)
            && v.nextQueryAttempt == (if SameEndpoint(ls, m[id].endpoint) then m[id].nextQueryAttempt else now)
            && v.endpoint == last.endpoint && v.server == last.server
            && v.pluginManaged == last.managed && v.pluginFallbackMode == last.fallback
            && v.nextDue == (if (ls[0].fallback && !m[id].pluginFallbackMode) || TurnsToFallback(ls) then now
                             else m[id].nextDue)
            && v.counters == m[id].counters && v.key == m[id].key && v.serverId == m[id].serverId
            && v.lastFaviconHash == m[id].lastFaviconHash
  {
    hide Updated, UpdatedAll, SomeFallsBack;
    var ls := Occurrences(listings, id);
    RefreshedTracked(m, listings, now, id);
    UpdatedAllMeans(m[id], ls, now);
    LastEntryDecides(m[id], ls, now);
    SomeFallsBackMeans(m[id].pluginFallbackMode, ls);
  }

  lemma JustAdded(l: Listing, ls: seq<Listing>, now: real)
    ensures var v := UpdatedAll(Added(l, now), ls, now); var last := ([l] + ls)[|ls|];
            && v.key == l.id && v.serverId == l.id && v.counters == NEVER_POLLED && v.emitted == NEVER_EMITTED
            && v.lastFaviconHash == None && v.nextQueryAttempt == now
            && v.endpoint == last.endpoint && v.server == last.server
            && v.pluginManaged == last.managed && v.pluginFallbackMode == last.fallback
            && v.nextDue == if SomeFallsBack(l.fallback, ls) then now else now + l.spread
  {
    hide Updated, UpdatedAll, SomeFallsBack;
    UpdatedAllMeans(Added(l, now), ls, now);
    if ls != [] {
      LastEntryDecides(Added(l, now), ls, now);
    } else {
      NoUpdates(Added(l, now), now);
      NoneFallsBack(l.fallback);
    }
  }

  lemma NoUpdates(v: StateView, now: real)
    ensures UpdatedAll(v, [], now) == v
  {
  }

  lemma NoneFallsBack(fallback: bool)
    ensures !SomeFallsBack(fallback, [])
  {
  }

  lemma LaterTurns(ls: seq<Listing>)
    requires ls != []
    ensures SomeFallsBack(ls[0].fallback, ls[1..]) <==> TurnsToFallback(ls)
  {
    SomeFallsBackMeans(true, ls);
    hide SomeFallsBack;
    SomeFallsBackUnfolds(true, ls);
  }

  lemma SomeFallsBackUnfolds(fallback: bool, ls: seq<Listing>)
    requires ls != []
    ensures SomeFallsBack(fallback, ls) <==>
              (ls[0].fallback && !fallback) || SomeFallsBack(ls[0].fallback, ls[1..])
  {
  }

  lemma {:induction false} IdsOfOccurrences(listings: seq<Listing>, id: string)
    ensures forall l :: l in Occurrences(listings, id) ==> l.id == id
  {
    if listings != [] {
      IdsOfOccurrences(listings[1..], id);
    }
  }

  /**
   A server that is new: it is tracked under its id, with its last entry's endpoint,
   entry and plugin flags, never polled and never emitted; it is due after its first
   entry's spread, unless a later entry turned it to fallback mode.
   */
  lemma NewcomersStartAfresh(m: Servers, listings: seq<Listing>, now: real, id: string)
    requires id !in m && id in Incoming(listings)
    ensures var r := Refreshed(m, listings, now).servers; var ls := Occurrences(listings, id);
            id in r && ls != [] &&
            var v, last := r[id], ls[|ls| - 1];
            && v.key == id && v.serverId == id && v.counters == NEVER_POLLED && v.emitted == NEVER_EMITTED
            && v.lastFaviconHash == None && v.nextQueryAttempt == now
            && v.endpoint == last.endpoint && v.server == last.server
            && v.pluginManaged == last.managed && v.pluginFallbackMode == last.fallback
            && v.nextDue == if TurnsToFallback(ls) then now else now + ls[0].spread
  {
    hide Added, UpdatedAll, SomeFallsBack, TurnsToFallback, Refreshed, Incoming, Occurrences;
    var ls := Occurrences(listings, id);
    RefreshedNew(m, listings, now, id);
    IdsOfOccurrences(listings, id);
    assert ls[0] in ls && [ls[0]] + ls[1..] == ls;
    JustAdded(ls[0], ls[1..], now);
    LaterTurns(ls);
  }

  lemma AddedThenUpdated(l: Listing, now: real)
    ensures Added(l, now).nextBedrockProbe == if l.wantsProbe then Some(now + l.probeSpread) else None
  {
  }

  /** The probe that a refresh leaves planned: none when the last entry wants none; else
      the one planned before, if all entries want one, or the first of those now wanted. */
  lemma ProbeAfterRefresh(m: Servers, listings: seq<Listing>, now: real, id: string, i: nat)
    requires id in Incoming(listings)
    ensures var r := Refreshed(m, listings, now).servers; var ls := Occurrences(listings, id);
            id in r && ls != []
            && (!ls[|ls| - 1].wantsProbe ==> r[id].nextBedrockProbe == None)
            && (WantedFrom(ls, i) ==>
                  r[id].nextBedrockProbe ==
                  if i == 0 && id in m && m[id].nextBedrockProbe.Some? then m[id].nextBedrockProbe
                  else Some(now + ls[i].probeSpread))
  {
    hide Added, Updated, UpdatedAll, Refreshed, Incoming, Occurrences, SomeFallsBack, WantedFrom;
    var ls := Occurrences(listings, id);
    if id in m {
      RefreshedTracked(m, listings, now, id);
      LastEntryDecides(m[id], ls, now);
      if WantedFrom(ls, i) {
        ProbeIsFirstWanted(m[id], ls, now, i);
      }
    } else {
      RefreshedNew(m, listings, now, id);
      NewProbe(ls, now, i);
    }
  }

  lemma NewProbe(ls: seq<Listing>, now: real, i: nat)
    requires ls != []
    ensures var v := UpdatedAll(Added(ls[0], now), ls[1..], now);
            && (!ls[|ls| - 1].wantsProbe ==> v.nextBedrockProbe == None)
            && (WantedFrom(ls, i) ==> v.nextBedrockProbe == Some(now + ls[i].probeSpread))
  {
    hide Updated, UpdatedAll, SomeFallsBack;
    var v, rest := Added(ls[0], now), ls[1..];
    AddedThenUpdated(ls[0], now);
    if rest == [] {
      NoUpdates(v, now);
    } else {
      LastEntryDecides(v, rest, now);
      if WantedFrom(ls, i) {
        var j: nat := if i == 0 then 0 else i - 1;
        assert forall n :: 0 <= n < |rest| ==> rest[n] == ls[n + 1];
        assert WantedFrom(rest, j);
        ProbeIsFirstWanted(v, rest, now, j);
      }
    }
  }

  // ---- What a refresh schedules ------------------------------------------------------------------

  /** The due times for which a server is scheduled. */
  predicate SchedulesAt(m: Servers, listings: seq<Listing>, now: real, id: string, due: real) {
    var ls := Occurrences(listings, id);
    id != [] && ls != [] &&
    if id in m then due == now && SomeFallsBack(m[id].pluginFallbackMode, ls)
    else due == now + ls[0].spread || (due == now && SomeFallsBack(ls[0].fallback, ls[1..]))
  }

  lemma OccurrencesCons(l: Listing, tail: seq<Listing>, id: string)
    ensures Occurrences([l] + tail, id) == if l.id == id then [l] + Occurrences(tail, id) else Occurrences(tail, id)
  {
    assert ([l] + tail)[1..] == tail;
    assert [] + Occurrences(tail, id) == Occurrences(tail, id);
  }

  lemma FallbackAfter(m: Servers, l: Listing, now: real)
    requires l.id != []
    ensures var m' := Absorb(m, l, now).servers;
            && m'.Keys == m.Keys + {l.id} && m'[l.id].pluginFallbackMode == l.fallback
            && forall k :: k in m && k != l.id ==> m'[k] == m[k]
  {
  }

  lemma SchedulesCons(m: Servers, l: Listing, tail: seq<Listing>, now: real, id: string, due: real)
    ensures SchedulesAt(m, [l] + tail, now, id, due) <==>
            (id, due) in Absorb(m, l, now).pushes || SchedulesAt(Absorb(m, l, now).servers, tail, now, id, due)
  {
    hide Occurrences, Updated, Added, SomeFallsBack;
    OccurrencesCons(l, tail, id);
    if l.id != [] {
      FallbackAfter(m, l, now);
    }
    var rest := Occurrences(tail, id);
    if l.id == id {
      assert ([l] + rest)[1..] == rest;
      if rest != [] {
        SomeFallsBackUnfolds(l.fallback, rest);
      }
      NoneFallsBack(l.fallback);
      if id in m {
        SomeFallsBackUnfolds(m[id].pluginFallbackMode, [l] + rest);
      }
    }
  }

  lemma {:induction false} LoopSchedules(m: Servers, listings: seq<Listing>, now: real, id: string, due: real)
    ensures (id, due) in AbsorbAll(m, listings, now).pushes <==> SchedulesAt(m, listings, now, id, due)
    decreases |listings|
  {
    hide SchedulesAt, Absorb;
    if listings == [] {
      NothingScheduled(m, now, id, due);
    } else {
      var tail := listings[1..];
      assert listings == [listings[0]] + tail;
      SchedulesCons(m, listings[0], tail, now, id, due);
      LoopSchedules(Absorb(m, listings[0], now).servers, tail, now, id, due);
    }
  }

  /** A refresh schedules each server it adds, once its spread has passed, and each that
      some entry turns to fallback mode, now; and nothing else. */
  lemma SchedulesExactly(m: Servers, listings: seq<Listing>, now: real, id: string, due: real)
    ensures (id, due) in Refreshed(m, listings, now).pushes <==> SchedulesAt(m, listings, now, id, due)
  {
    hide SchedulesAt, Absorb;
    LoopSchedules(m, listings, now, id, due);
    NothingScheduled(m, now, id, due);
  }

  lemma NothingScheduled(m: Servers, now: real, id: string, due: real)
    ensures !SchedulesAt(m, [], now, id, due)
  {
  }

  // ---- A refresh is a step of the scheduler model ---------------------------------------------

  function Track(m: Servers): map<string, SchedulerModel.Tracked> {
    map k | k in m :: SchedulerModel.Tracked(m[k].key, m[k].nextDue)
  }

  lemma ReconciledTrans(a: map<string, SchedulerModel.Tracked>, b: map<string, SchedulerModel.Tracked>,
                        c: map<string, SchedulerModel.Tracked>, ab: seq<(string, real)>, bc: seq<(string, real)>)
    requires SchedulerModel.Reconciled(a, b, ab) && SchedulerModel.Reconciled(b, c, bc) && a.Keys <= b.Keys
    ensures SchedulerModel.Reconciled(a, c, ab + bc)
  {
    forall k | k in c
      ensures || (k in a && c[k] == a[k])
              || (c[k].key == (if k in a then a[k].key else k) && (k, c[k].nextDue) in ab + bc)
    {
      if k in b && c[k] == b[k] && !(k in a && b[k] == a[k]) {
        assert (k, b[k].nextDue) in ab;
      }
    }
  }

  lemma AbsorbReconciles(m: Servers, l: Listing, now: real)
    ensures var r := Absorb(m, l, now);
            SchedulerModel.Reconciled(Track(m), Track(r.servers), r.pushes) && m.Keys <= r.servers.Keys
  {
    var r := Absorb(m, l, now);
    forall k | k in r.servers
      ensures || (k in m && Track(r.servers)[k] == Track(m)[k])
              || (r.servers[k].key == (if k in m then m[k].key else k) && (k, r.servers[k].nextDue) in r.pushes)
    {
      if k == l.id && l.id != [] && !(l.id in m && !FallsBack(m[l.id], l)) {
        assert r.pushes[0] == (k, r.servers[k].nextDue);
      }
    }
  }

  lemma {:induction false} AbsorbAllReconciles(m: Servers, listings: seq<Listing>, now: real)
    ensures var r := AbsorbAll(m, listings, now);
            SchedulerModel.Reconciled(Track(m), Track(r.servers), r.pushes)
    decreases |listings|
  {
    if listings != [] {
      AbsorbReconciles(m, listings[0], now);
      var first := Absorb(m, listings[0], now);
      AbsorbAllReconciles(first.servers, listings[1..], now);
      var rest := AbsorbAll(first.servers, listings[1..], now);
      ReconciledTrans(Track(m), Track(first.servers), Track(rest.servers), first.pushes, rest.pushes);
    }
  }

  /** Whatever the catalog returned, and under whatever keys servers are stored, a
      refresh gives every server whose due time it sets a push for that time: it is a
      Refresh step of the scheduler, so it loses no server. */
  lemma RefreshIsASchedulerStep(m: Servers, listings: seq<Listing>, now: real, s: SchedulerModel.State)
    requires s.states == Track(m)
    ensures var r := Refreshed(m, listings, now);
            var a := SchedulerModel.Refresh(Track(r.servers), r.pushes);
            && SchedulerModel.Enabled(s, a)
            && (SchedulerModel.NoneLost(s) ==> SchedulerModel.NoneLost(SchedulerModel.Next(s, a)))
  {
    var r := Refreshed(m, listings, now);
    AbsorbAllReconciles(m, listings, now);
    assert SchedulerModel.Reconciled(Track(m), Track(r.servers), r.pushes);
    var a := SchedulerModel.Refresh(Track(r.servers), r.pushes);
    if SchedulerModel.NoneLost(s) {
      SchedulerModel.NoneLostKeptExactlyWhen(s, a);
    }
  }
}
