/** The shared map of server states, and refresh_servers_once updating it in place. */
module Catalog {
  import opened CatalogModel
  import opened Json
  import opened Models
  import opened Basics

  class ServerMap {
    var states: map<string, ServerState>

    /** No server state sits under two keys: the map owns its values. */
    ghost predicate Valid()
      reads this
    {
      forall j, k :: j in states && k in states && states[j] == states[k] ==> j == k
    }

    ghost function View(): Servers
      reads this, states.Values
    {
      map k | k in states :: states[k].View()
    }

    /** A server whose endpoint changed is queried anew and will be emitted in full. */
    static method MoveIfChanged(state: ServerState, endpoint: Endpoint, now: real)
      modifies state`host, state`port, state`edition, state`bedrockPort, state`nextQueryAttempt,
               state`hasEmittedState, state`lastEmittedUp, state`lastEmittedOnline, state`lastEmittedMaxPlayers,
               state`lastEmittedVersion, state`lastEmittedMotd, state`lastEmittedCountry,
               state`lastEmittedCountryCode, state`lastEmittedPlayersHash, state`lastEmittedAt
      ensures state.Address() == endpoint
      ensures old(state.Address()) == endpoint ==>
                state.nextQueryAttempt == old(state.nextQueryAttempt) && state.Emitted() == old(state.Emitted())
      ensures old(state.Address()) != endpoint ==>
                state.nextQueryAttempt == now && state.Emitted() == NEVER_EMITTED
    {
      if state.host != endpoint.host || state.port != endpoint.port
        || state.edition != endpoint.edition || state.bedrockPort != endpoint.bedrockPort
      {
        state.host := endpoint.host;
        state.port := endpoint.port;
        state.edition := endpoint.edition;
        state.bedrockPort := endpoint.bedrockPort;
        state.nextQueryAttempt := now;
        state.ResetEmitted();
      }
    }

    /** The catalog entry, the plugin flags and the next probe of a tracked server. */
    static method Relist(state: ServerState, l: Listing, now: real) returns (due: bool)
      modifies state`server, state`pluginManaged, state`pluginFallbackMode, state`nextDue, state`nextBedrockProbe
      ensures due == (l.fallback && !old(state.pluginFallbackMode))
      ensures state.server == l.server && state.pluginManaged == l.managed && state.pluginFallbackMode == l.fallback
      ensures state.nextDue == if due then now else old(state.nextDue)
      ensures state.nextBedrockProbe == NextProbe(old(state.nextBedrockProbe), l, now)
    {
      hide NextProbe;
      state.server := l.server;
      state.pluginManaged := l.managed;
      var previousFallbackMode := state.pluginFallbackMode;
      state.pluginFallbackMode := l.fallback;
      due := state.pluginFallbackMode && !previousFallbackMode;
      if due {
        state.nextDue := now;
      }
      state.nextBedrockProbe := NextProbe(state.nextBedrockProbe, l, now);
    }

    /** The update of a server that is already tracked. */
    static method Update(state: ServerState, l: Listing, now: real) returns (due: bool)
      modifies state
      ensures state.View() == Updated(old(state.View()), l, now)
      ensures due == FallsBack(old(state.View()), l)
    {
      hide ServerState.Emitted, ServerState.Counters, ServerState.Address, NextProbe;
      MoveIfChanged(state, l.endpoint, now);
      due := Relist(state, l, now);
    }

    /** The branch for a server that is tracked already. */
    method UpdateTracked(l: Listing, now: real) returns (due: bool)
      requires Valid() && l.id in states
      modifies states[l.id]
      ensures View() == old(View())[l.id := Updated(old(View())[l.id], l, now)]
      ensures due == FallsBack(old(View())[l.id], l)
    {
      hide Updated, FallsBack, ServerState.View;
      due := Update(states[l.id], l, now);
    }

    /** The branch for a new server. */
    method Insert(l: Listing, now: real)
      requires Valid() && l.id !in states
      modifies this
      ensures Valid() && fresh(states.Values - old(states.Values))
      ensures View() == old(View())[l.id := Added(l, now)]
    {
      hide ServerState.View;
      var state := new ServerState(l.id, l.server, l.endpoint, now, l.spread, Probe(l, now), l.managed, l.fallback);
      states := states[l.id := state];
    }

    /** One turn of the loop; pushes are the calls of schedule it makes. */
    method AbsorbOne(l: Listing, now: real) returns (pushes: seq<(string, real)>)
      requires Valid() && l.id != []
      modifies this, states.Values
      ensures Valid() && fresh(states.Values - old(states.Values))
      ensures Absorb(old(View()), l, now) == Outcome(View(), pushes)
    {
      if l.id in states {
        var due := UpdateTracked(l, now);
        pushes := if due then [(l.id, now)] else [];
      } else {
        Insert(l, now);
        pushes := [(l.id, now + l.spread)];
      }
    }

    /** refresh_servers_once, once the servers have been fetched. */
    method Refresh(listings: seq<Listing>, now: real) returns (success: bool, pushes: seq<(string, real)>)
      requires Valid()
      modifies this, states.Values
      ensures Valid()
      ensures success == (listings != [])
      ensures Refreshed(old(View()), listings, now) == Outcome(View(), pushes)
    {
      pushes := [];
      if listings == [] {
        return false, [];
      }
      var incomingKeys: set<string> := {};
      assert listings[0..] == listings;
      for i := 0 to |listings|
        invariant Valid() && fresh(states.Values - old(states.Values))
        invariant incomingKeys == Incoming(listings[..i])
        invariant var rest := AbsorbAll(View(), listings[i..], now);
                  AbsorbAll(old(View()), listings, now) == Outcome(rest.servers, pushes + rest.pushes)
      {
        var l := listings[i];
        AbsorbAllTurn(View(), listings, now, i, pushes);
        IncomingGrows(listings, i);
        if l.id == [] {
          assert pushes + [] == pushes;
          continue;
        }
        incomingKeys := incomingKeys + {l.id};
        var more := AbsorbOne(l, now);
        pushes := pushes + more;
      }
      assert listings[..|listings|] == listings;
      RemoveOthers(incomingKeys);
      return true, pushes;
    }

    /** Drop the servers the catalog no longer lists. */
    method RemoveOthers(keys: set<string>)
      requires Valid()
      modifies this
      ensures Valid() && View() == Keep(old(View()), keys)
      ensures states.Values <= old(states.Values)
    {
      states := map k | k in states && k in keys :: states[k];
    }
  }

  lemma IncomingGrows(listings: seq<Listing>, i: nat)
    requires i < |listings|
    ensures Incoming(listings[..i + 1])
            == Incoming(listings[..i]) + if listings[i].id == [] then {} else {listings[i].id}
  {
    var shorter, longer := listings[..i], listings[..i + 1];
    forall k | k in Incoming(longer) && k != listings[i].id ensures k in Incoming(shorter) {
      var j :| 0 <= j < |longer| && longer[j].id == k && k != [];
      assert shorter[j].id == k;
    }
    forall k | k in Incoming(shorter) ensures k in Incoming(longer) {
      var j :| 0 <= j < |shorter| && shorter[j].id == k && k != [];
      assert longer[j].id == k;
    }
    assert longer[i].id == listings[i].id;
  }
}
