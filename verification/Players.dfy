/** The player list of a poll, and its hash (src/change_detection.rs:8-36). */
module Players {
  import opened Json
  import opened Models
  import opened Basics
  import opened Text

  /** The name an array item contributes, if it is a string with something in it. */
  function NameOf(item: Value): Option<string> {
    match item.AsStr()
    case None => None
    case Some(text) => if Trim(text) == [] then None else Some(Trim(text))
  }

  predicate IsNew(item: Value, seen: set<string>) {
    NameOf(item).Some? && NameOf(item).value !in seen
  }

  /** First occurrences, in order, of the names not seen before. */
  function NewNames(items: seq<Value>, seen: set<string>): seq<string> {
    if items == [] then []
    else if IsNew(items[0], seen) then
      var name := NameOf(items[0]).value;
      [name] + NewNames(items[1..], seen + {name})
    else NewNames(items[1..], seen)
  }

  function ItemsOf(extra: Value): seq<Value> {
    match extra.Get("players")
    case None => []
    case Some(v) => v.AsArray().GetOr([])
  }

  function PlayersOf(extra: Value): seq<string> {
    NewNames(ItemsOf(extra), {})
  }

  /** extract_players: one pass with a set of names seen. */
  method ExtractPlayers(extra: Value) returns (result: seq<string>)
    ensures result == PlayersOf(extra)
  {
    result := [];
    var field := extra.Get("players");
    if field.None? || !field.value.Array? {
      return;
    }
    var items := field.value.items;
    var seen: set<string> := {};
    assert items[0..] == items;
    for i := 0 to |items|
      invariant result + NewNames(items[i..], seen) == NewNames(items, {})
    {
      assert items[i..][1..] == items[i + 1..];
      var name := NameOf(items[i]);
      if name.Some? && name.value !in seen {
        AssociativeConcat(result, [name.value], NewNames(items[i + 1..], seen + {name.value}));
        seen := seen + {name.value};
        result := result + [name.value];
      }
    }
  }

  predicate Occurs(items: seq<Value>, name: string) {
    items != [] && (NameOf(items[0]) == Some(name) || Occurs(items[1..], name))
  }

  /** The list holds exactly the names that occur (and were not seen before). */
  lemma {:induction false} ListsWhatOccurs(items: seq<Value>, seen: set<string>, name: string)
    ensures name in NewNames(items, seen) <==> name !in seen && Occurs(items, name)
  {
    if items == [] {
    } else if IsNew(items[0], seen) {
      var first := NameOf(items[0]).value;
      var later := NewNames(items[1..], seen + {first});
      ListsWhatOccurs(items[1..], seen + {first}, name);
      assert name in [first] + later <==> name == first || name in later;
    } else {
      ListsWhatOccurs(items[1..], seen, name);
    }
  }

  /** The index at which a name first occurs. */
  function FirstAt(items: seq<Value>, name: string): nat {
    if items == [] || NameOf(items[0]) == Some(name) then 0 else 1 + FirstAt(items[1..], name)
  }

  /** The names stand in the order of their first occurrences, so none is repeated. */
  lemma {:induction false} ListsInOrder(items: seq<Value>, seen: set<string>, i: nat, j: nat)
    requires i < j < |NewNames(items, seen)|
    ensures FirstAt(items, NewNames(items, seen)[i]) < FirstAt(items, NewNames(items, seen)[j])
    ensures NewNames(items, seen)[i] != NewNames(items, seen)[j]
  {
    hide NameOf, Occurs;
    var names := NewNames(items, seen);
    if IsNew(items[0], seen) {
      var first := NameOf(items[0]).value;
      var later := NewNames(items[1..], seen + {first});
      assert names[j] == later[j - 1] && later[j - 1] in later;
      ListsWhatOccurs(items[1..], seen + {first}, names[j]);
      if i > 0 {
        assert names[i] == later[i - 1] && later[i - 1] in later;
        ListsWhatOccurs(items[1..], seen + {first}, names[i]);
        ListsInOrder(items[1..], seen + {first}, i - 1, j - 1);
      }
    } else {
      assert names[i] in names && names[j] in names;
      ListsWhatOccurs(items, seen, names[i]);
      ListsWhatOccurs(items, seen, names[j]);
      ListsInOrder(items[1..], seen, i, j);
    }
  }

  // ---- Hashing -------------------------------------------------------------------------

  function PlayersHash(names: seq<string>): Option<Digest> {
    if names == [] then None else Some(Sha256(Join(names, "\n")))
  }

  predicate NewlineFree(names: seq<string>) {
    forall n :: n in names ==> '\n' !in n
  }

  /** The first newline of a joined list ends its first name. */
  lemma JoinStarts(names: seq<string>)
    requires names != [] && NewlineFree(names)
    ensures var j := Join(names, "\n"); var n := |names[0]|;
            n <= |j| && j[..n] == names[0] && '\n' !in j[..n]
            && (|names| == 1 ==> |j| == n)
            && (|names| > 1 ==> |j| > n && j[n] == '\n' && j[n + 1..] == Join(names[1..], "\n"))
  {
  }

  lemma NotBefore(j: string, n: nat, i: nat)
    requires n <= |j| && i < |j| && '\n' !in j[..n]
    ensures i < n ==> j[i] != '\n'
  {
    if i < n {
      assert j[i] == j[..n][i];
    }
  }

  lemma FirstNewline(j: string, a: nat, b: nat)
    requires a <= |j| && b <= |j| && '\n' !in j[..a] && '\n' !in j[..b]
    requires (a < |j| ==> j[a] == '\n') && (b < |j| ==> j[b] == '\n')
    ensures a == b
  {
    if a < |j| {
      NotBefore(j, b, a);
    }
    if b < |j| {
      NotBefore(j, a, b);
    }
  }

  /** Joining with newlines is injective on nonempty lists of newline-free names. */
  lemma {:induction false} JoinIsInjective(a: seq<string>, b: seq<string>)
    requires a != [] && b != [] && NewlineFree(a) && NewlineFree(b) && Join(a, "\n") == Join(b, "\n")
    ensures a == b
  {
    JoinStarts(a);
    JoinStarts(b);
    FirstNewline(Join(a, "\n"), |a[0]|, |b[0]|);
    if |a| > 1 {
      JoinIsInjective(a[1..], b[1..]);
    }
    assert a == [a[0]] + a[1..] && b == [b[0]] + b[1..];
  }

  /** So the hash separates newline-free player lists. */
  lemma HashSeparates(a: seq<string>, b: seq<string>)
    requires NewlineFree(a) && NewlineFree(b)
    ensures PlayersHash(a) == PlayersHash(b) <==> a == b
  {
    if a != [] && b != [] && Join(a, "\n") == Join(b, "\n") {
      JoinIsInjective(a, b);
    }
  }

  /** A name with a newline inside collides with the list of its two halves. */
  lemma NewlineCollides(p: string, q: string)
    ensures PlayersHash([p + "\n" + q]) == PlayersHash([p, q])
  {
    assert [p, q][1..] == [q] && Join([q], "\n") == q;
    assert Join([p, q], "\n") == p + "\n" + q;
  }
}
