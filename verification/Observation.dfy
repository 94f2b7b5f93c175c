/**
 What an event's JSON says of the payload it came from, field by field: from the JSON
 that a poll produced to the JSON that is sent, without the functions in between.
 */
module Observation {
  import opened Basics
  import opened ChangeDetection
  import opened DeltaStream
  import opened Json
  import opened Models
  import opened Players
  import opened Text

  // ---- What a payload gives --------------------------------------------------------------

  predicate Holds(payload: Value, name: string) {
    payload.Object? && name in payload.fields
  }

  /** A field gives the text t: it holds t with white space around it; a field that is
      absent, or not a string, gives the empty text. */
  ghost predicate GivesText(payload: Value, name: string, t: string) {
    if Holds(payload, name) && payload.fields[name].String? then TrimsTo(payload.fields[name].text, t) else t == []
  }

  /** The number that a field gives, if it holds one of 64 bits. */
  function GivenNumber(payload: Value, name: string): Value {
    if Holds(payload, name) && payload.fields[name].Integer?
      && -0x8000_0000_0000_0000 <= payload.fields[name].number < 0x8000_0000_0000_0000 then payload.fields[name]
    else Null
  }

  /** The items of the list of players. */
  function PlayerItems(payload: Value): seq<Value> {
    if Holds(payload, "extra") && Holds(payload.fields["extra"], "players")
      && payload.fields["extra"].fields["players"].Array? then payload.fields["extra"].fields["players"].items
    else []
  }

  /** Some item is a string that gives this name. */
  ghost predicate GivesPlayer(payload: Value, name: string) {
    var items := PlayerItems(payload);
    name != [] && exists i :: 0 <= i < |items| && items[i].String? && TrimsTo(items[i].text, name)
  }

  lemma TextFieldMeans(payload: Value, name: string, t: string)
    ensures TextField(payload, name) == t <==> GivesText(payload, name, t)
  {
    hide TrimsTo, Trim;
    if Holds(payload, name) {
      TrimExactly(payload.fields[name].AsStr().GetOr([]), t);
      TrimExactly([], t);
      EmptyTrims();
    }
  }

  lemma EmptyTrims()
    ensures Trim([]) == []
  {
  }

  lemma NumberFieldMeans(payload: Value, name: string)
    ensures OfNumber(NumberField(payload, name)) == GivenNumber(payload, name)
  {
  }

  lemma {:induction false} OccursMeans(items: seq<Value>, name: string)
    ensures Occurs(items, name) <==>
              name != [] && exists i :: 0 <= i < |items| && items[i].String? && TrimsTo(items[i].text, name)
  {
    hide TrimsTo, Trim;
    if items != [] {
      NameMeans(items[0], name);
      OccursMeans(items[1..], name);
      if Occurs(items[1..], name) {
        var i :| 0 <= i < |items[1..]| && items[1..][i].String? && TrimsTo(items[1..][i].text, name);
        assert items[i + 1] == items[1..][i];
      }
      if i :| 0 <= i < |items| && items[i].String? && TrimsTo(items[i].text, name) {
        if i > 0 {
          assert items[1..][i - 1] == items[i];
        }
      }
    }
  }

  lemma NameMeans(item: Value, name: string)
    ensures NameOf(item) == Some(name) <==> name != [] && item.String? && TrimsTo(item.text, name)
  {
    hide TrimsTo, Trim;
    if item.String? {
      TrimExactly(item.text, name);
    }
  }

  // ---- What an online poll's event says ---------------------------------------------------

  const TEXTS := {"version", "motd", "country", "country_code"}

  lemma RenderedTexts(serverId: string, poll: Poll, event: Event, name: string)
    requires poll.ok && event.view == Current(NEVER_EMITTED, poll) && name in TEXTS
    ensures Render(serverId, poll, event).Get(name) == Some(String(TextField(poll.payload, name)))
  {
    hide TextField, NumberField, PlayersOf, Extra;
  }

  lemma OnlineIsSeenAlike(last: LastEmitted, poll: Poll)
    requires poll.ok
    ensures Current(last, poll) == Current(NEVER_EMITTED, poll)
  {
  }

  /** Each of the four text fields of an online poll's event is exactly what the
      payload's field of that name gives, trimmed. */
  lemma OnlineEventTellsTexts(serverId: string, last: LastEmitted, poll: Poll, heartbeat: real, name: string, t: string)
    requires poll.ok && Step(last, poll, heartbeat).1.Some?
    requires name in TEXTS && GivesText(poll.payload, name, t)
    ensures Render(serverId, poll, Step(last, poll, heartbeat).1.value).Get(name) == Some(String(t))
  {
    hide Current, Decide, GivesText, Render, TextField;
    OnlineIsSeenAlike(last, poll);
    TextFieldMeans(poll.payload, name, t);
    RenderedTexts(serverId, poll, Step(last, poll, heartbeat).1.value, name);
  }

  /** So are its two numbers, or null where the payload holds none of 64 bits. */
  lemma OnlineEventTellsNumbers(serverId: string, last: LastEmitted, poll: Poll, heartbeat: real)
    requires poll.ok && Step(last, poll, heartbeat).1.Some?
    ensures var v := Render(serverId, poll, Step(last, poll, heartbeat).1.value);
            && v.Get("online") == Some(GivenNumber(poll.payload, "online"))
            && v.Get("max_players") == Some(GivenNumber(poll.payload, "max_players"))
  {
    hide Decide, TextField, NumberField, OfNumber, GivenNumber, PlayersOf, Extra;
    NumberFieldMeans(poll.payload, "online");
    NumberFieldMeans(poll.payload, "max_players");
  }

  /** The players it lists are those that the payload's list gives; without any, there
      is no list. */
  lemma OnlineEventTellsPlayers(serverId: string, last: LastEmitted, poll: Poll, heartbeat: real, name: string)
    requires poll.ok && Step(last, poll, heartbeat).1.Some?
    ensures var extra := Render(serverId, poll, Step(last, poll, heartbeat).1.value).Get("extra").GetOr(Null);
            String(name) in ItemsOf(extra) <==> GivesPlayer(poll.payload, name)
  {
    var view := Step(last, poll, heartbeat).1.value.view;
    var items := PlayerItems(poll.payload);
    assert view.players == NewNames(items, {});
    hide Decide, Current, TextField, NumberField, OfNumber, Extra, NewNames, Occurs, TrimsTo;
    ListsWhatOccurs(items, {}, name);
    OccursMeans(items, name);
    RenderedPlayers(serverId, poll, Step(last, poll, heartbeat).1.value, name);
  }

  lemma RenderedPlayers(serverId: string, poll: Poll, event: Event, name: string)
    ensures var extra := Render(serverId, poll, event).Get("extra").GetOr(Null);
            String(name) in ItemsOf(extra) <==> name in event.view.players
  {
    var names := event.view.players;
    ExtraLists(poll, event.view);
    if name in names {
      var i :| 0 <= i < |names| && names[i] == name;
      assert OfNames(names).items[i] == String(name);
    }
  }

  lemma ExtraLists(poll: Poll, view: View)
    ensures ItemsOf(Object(Extra(poll, view))) == OfNames(view.players).items
  {
  }

  // ---- What an offline poll's event says ----------------------------------------------------

  function OrEmpty(text: Option<string>): Value {
    String(text.GetOr([]))
  }

  /**
   An offline poll's event says that nobody is online, repeats the metadata last
   emitted, and lists no players; a country or country code that the payload gives
   replaces the last one, and one that it does not give keeps it.
   */
  lemma OfflineEventTells(serverId: string, last: LastEmitted, poll: Poll, heartbeat: real, country: string,
                          code: string)
    requires !poll.ok && Step(last, poll, heartbeat).1.Some?
    requires GivesText(poll.payload, "country", country) && GivesText(poll.payload, "country_code", code)
    ensures var v := Render(serverId, poll, Step(last, poll, heartbeat).1.value);
            && v.Get("online") == Some(Integer(0))
            && v.Get("max_players") == Some(match last.maxPlayers case None => Null case Some(n) => Integer(n))
            && v.Get("version") == Some(OrEmpty(last.version)) && v.Get("motd") == Some(OrEmpty(last.motd))
            && v.Get("country") == Some(if country != [] then String(country) else OrEmpty(last.country))
            && v.Get("country_code") == Some(if code != [] then String(code) else OrEmpty(last.countryCode))
            && ItemsOf(v.Get("extra").GetOr(Null)) == []
  {
    hide Decide, TextField, GivesText, Extra, OfNames;
    TextFieldMeans(poll.payload, "country", country);
    TextFieldMeans(poll.payload, "country_code", code);
    var view := Step(last, poll, heartbeat).1.value.view;
    ExtraLists(poll, view);
    NoNames();
  }

  lemma NoNames()
    ensures OfNames([]).items == []
  {
  }

  /** So an offline event keeps these fields of the event before it, whatever poll
      that one told of. */
  lemma OfflineEventKeeps(serverId: string, before: Poll, prev: Event, poll: Poll, heartbeat: real, name: string)
    requires !poll.ok && Step(Record(prev.view, prev.at), poll, heartbeat).1.Some?
    requires name in {"max_players", "version", "motd"}
             || (name in {"country", "country_code"} && GivesText(poll.payload, name, []))
    ensures Render(serverId, poll, Step(Record(prev.view, prev.at), poll, heartbeat).1.value).Get(name)
            == Render(serverId, before, prev).Get(name)
  {
    hide Decide, TextField, GivesText, Extra, OfNumber;
    TextFieldMeans(poll.payload, name, []);
  }

  // ---- The kind and the status ----------------------------------------------------------------

  /** The six event types are told apart by their names, and the status by its. */
  lemma EventTypeTells(serverId: string, poll: Poll, event: Event)
    ensures var v := Render(serverId, poll, event); var kind := v.Get("event_type").GetOr(Null);
            && (kind == String("state_full") <==> event.kind == StateFull)
            && (kind == String("server_up") <==> event.kind == ServerUp)
            && (kind == String("server_down") <==> event.kind == ServerDown)
            && (kind == String("online_changed") <==> event.kind == OnlineChanged)
            && (kind == String("state_updated") <==> event.kind == StateUpdated)
            && (kind == String("heartbeat") <==> event.kind == Heartbeat)
            && v.Get("extra").GetOr(Null).Get("poll_status") == Some(String(if event.view.up then "ok" else "failed"))
  {
    KindNames(event.kind);
    hide Kind.Name, OfNames, OfNumber;
    PollStatus(poll, event.view);
  }

  lemma PollStatus(poll: Poll, view: View)
    ensures var extra := Extra(poll, view);
            "poll_status" in extra && extra["poll_status"] == String(if view.up then "ok" else "failed")
  {
  }

  lemma KindNames(kind: Kind)
    ensures kind.Name() == "state_full" <==> kind == StateFull
    ensures kind.Name() == "server_up" <==> kind == ServerUp
    ensures kind.Name() == "server_down" <==> kind == ServerDown
    ensures kind.Name() == "online_changed" <==> kind == OnlineChanged
    ensures kind.Name() == "state_updated" <==> kind == StateUpdated
    ensures kind.Name() == "heartbeat" <==> kind == Heartbeat
  {
    assert "state_full"[0] == 's' && "state_full"[1] == 't' && "state_full"[6] == 'f';
    assert "server_up"[1] == 'e' && |"server_up"| == 9 && |"server_down"| == 11;
    assert "state_updated"[6] == 'u' && "state_updated"[1] == 't';
    assert "online_changed"[0] == 'o' && "heartbeat"[0] == 'h';
  }
}
