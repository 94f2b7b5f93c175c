/** ServerState of src/models.rs: everything the poller remembers of one server. */
module Models {
  import opened Json
  import opened Basics

  datatype Edition = Java | Bedrock

  datatype Endpoint = Endpoint(host: string, port: Option<nat>, edition: Edition, bedrockPort: Option<nat>)

  /** A SHA-256 digest, assumed free of collisions: it determines what was hashed. */
  datatype Digest = Sha256(hashed: string)

  /** The last_emitted fields: what the last event said. */
  datatype LastEmitted = LastEmitted(
    hasEmittedState: bool,
    up: Option<bool>,
    online: Option<int>,
    maxPlayers: Option<int>,
    version: Option<string>,
    motd: Option<string>,
    country: Option<string>,
    countryCode: Option<string>,
    playersHash: Option<Digest>,
    at: Option<real>)

  const NEVER_EMITTED := LastEmitted(false, None, None, None, None, None, None, None, None, None)

  /** The failure counters; the two numbers are u32 in the program. */
  datatype FailureCounts = FailureCounts(hasSucceeded: bool, initialFailures: nat, consecutiveFailures: nat)

  const NEVER_POLLED := FailureCounts(false, 0, 0)

  /** The value of a ServerState. */
  datatype StateView = StateView(
    key: string,
    serverId: string,
    server: Value,
    endpoint: Endpoint,
    nextDue: real,
    nextBedrockProbe: Option<real>,
    nextQueryAttempt: real,
    pluginManaged: bool,
    pluginFallbackMode: bool,
    lastFaviconHash: Option<Digest>,
    counters: FailureCounts,
    emitted: LastEmitted)

  class ServerState {
    var key: string
    var serverId: string
    var server: Value
    var host: string
    var port: Option<nat>
    var bedrockPort: Option<nat>
    var edition: Edition
    var nextDue: real
    var nextBedrockProbe: Option<real>
    var nextQueryAttempt: real
    var pluginManaged: bool
    var pluginFallbackMode: bool
    var lastFaviconHash: Option<Digest>
    var hasSucceeded: bool
    var initialFailures: nat
    var consecutiveFailures: nat
    var hasEmittedState: bool
    var lastEmittedUp: Option<bool>
    var lastEmittedOnline: Option<int>
    var lastEmittedMaxPlayers: Option<int>
    var lastEmittedVersion: Option<string>
    var lastEmittedMotd: Option<string>
    var lastEmittedCountry: Option<string>
    var lastEmittedCountryCode: Option<string>
    var lastEmittedPlayersHash: Option<Digest>
    var lastEmittedAt: Option<real>

    ghost function Emitted(): LastEmitted
      reads this`hasEmittedState, this`lastEmittedUp, this`lastEmittedOnline, this`lastEmittedMaxPlayers,
            this`lastEmittedVersion, this`lastEmittedMotd, this`lastEmittedCountry, this`lastEmittedCountryCode,
            this`lastEmittedPlayersHash, this`lastEmittedAt
    {
      LastEmitted(hasEmittedState, lastEmittedUp, lastEmittedOnline, lastEmittedMaxPlayers, lastEmittedVersion,
                  lastEmittedMotd, lastEmittedCountry, lastEmittedCountryCode, lastEmittedPlayersHash,
                  lastEmittedAt)
    }

    ghost function Counters(): FailureCounts
      reads this`hasSucceeded, this`initialFailures, this`consecutiveFailures
    {
      FailureCounts(hasSucceeded, initialFailures, consecutiveFailures)
    }

    ghost function Address(): Endpoint
      reads this`host, this`port, this`edition, this`bedrockPort
    {
      Endpoint(host, port, edition, bedrockPort)
    }

    ghost function View(): StateView
      reads this
    {
      StateView(key, serverId, server, Address(), nextDue, nextBedrockProbe,
                nextQueryAttempt, pluginManaged, pluginFallbackMode, lastFaviconHash,
                Counters(), Emitted())
    }

    /** build_state, from the parts read out of the catalog entry. */
    constructor (key: string, server: Value, endpoint: Endpoint, now: real, spread: real, probe: Option<real>,
                 managed: bool, fallback: bool)
      ensures View() == StateView(key, key, server, endpoint, now + spread, probe, now, managed, fallback, None,
                                  NEVER_POLLED, NEVER_EMITTED)
    {
      this.key, serverId, this.server := key, key, server;
      host, port, edition, bedrockPort := endpoint.host, endpoint.port, endpoint.edition, endpoint.bedrockPort;
      nextDue, nextBedrockProbe, nextQueryAttempt := now + spread, probe, now;
      pluginManaged, pluginFallbackMode, lastFaviconHash := managed, fallback, None;
      hasSucceeded, initialFailures, consecutiveFailures := false, 0, 0;
      hasEmittedState, lastEmittedUp, lastEmittedOnline, lastEmittedMaxPlayers := false, None, None, None;
      lastEmittedVersion, lastEmittedMotd, lastEmittedCountry, lastEmittedCountryCode := None, None, None, None;
      lastEmittedPlayersHash, lastEmittedAt := None, None;
    }

    /** reset_emitted: the next poll will be emitted in full. */
    method ResetEmitted()
      modifies this`hasEmittedState, this`lastEmittedUp, this`lastEmittedOnline, this`lastEmittedMaxPlayers,
               this`lastEmittedVersion, this`lastEmittedMotd, this`lastEmittedCountry,
               this`lastEmittedCountryCode, this`lastEmittedPlayersHash, this`lastEmittedAt
      ensures Emitted() == NEVER_EMITTED
    {
      hasEmittedState := false;
      lastEmittedUp := None;
      lastEmittedOnline := None;
      lastEmittedMaxPlayers := None;
      lastEmittedVersion := None;
      lastEmittedMotd := None;
      lastEmittedCountry := None;
      lastEmittedCountryCode := None;
      lastEmittedPlayersHash := None;
      lastEmittedAt := None;
    }
  }
}
