/**
 * The slash commands of the bot: each one derives the key of an event from the community it
 * was sent in and the event's name, works on the shared store, and either says one reply,
 * says nothing, or fails with an error the chat framework shows to the user.
 *
 * The community is `None` when a command is sent outside one. The current instant `now`, in
 * whole seconds, is a parameter.
 */
module Commands {
  import opened Wrappers
  import opened Text
  import opened Days
  import opened Keys
  import opened Persist
  import opened Autocomplete

  /** Why a command failed. */
  datatype CommandError =
    | InvalidGuild(context: string)   // sent outside a community; the context text differs between commands
    | AlreadyExists                   // "Event already exists."
    | DoesNotExist                    // "Event does not exist."
    | StoreFailure(cause: PersistError)

  /** What a successful command says in the channel. */
  datatype Reply = Say(text: string) | Silent

  /** `create`: stores a new event with its count starting now; refuses when the existence
      check can read something under the key. Any failed read counts as absent, so a record
      that cannot be read back is overwritten. */
  method Create(persist: PersistInstance, guild: Option<string>, name: string, text: string, now: int)
    returns (r: Result<Reply, CommandError>)
    modifies persist
    ensures persist.writable == old(persist.writable) && persist.listable == old(persist.listable)
    ensures guild.None? ==> r == Err(InvalidGuild("Invalid guild")) && unchanged(persist)
    ensures guild.Some? && old(persist.Load(EventKey(guild.value, name))).Ok? ==>
              r == Err(AlreadyExists) && unchanged(persist)
    ensures guild.Some? && old(persist.Load(EventKey(guild.value, name))).Err? ==>
              var key := EventKey(guild.value, name);
              if old(persist.writable) then
                && r == Ok(Say("Event created."))
                && persist.entries == old(persist.entries)[key := Record(text, now)]
                && persist.unreadable == old(persist.unreadable) - {key}
                && DaysSince(persist, guild, name, now) == Ok(Say(DaysSinceMessage(0, text)))
              else
                r == Err(StoreFailure(WriteFailed)) && unchanged(persist)
  {
    if guild.None? {
      return Err(InvalidGuild("Invalid guild"));
    }
    var key := EventKey(guild.value, name);
    if persist.Load(key).Err? {
      var saved := persist.Save(key, Record(text, now));
      if saved.Err? {
        return Err(StoreFailure(saved.error));
      }
      r := Ok(Say("Event created."));
    } else {
      r := Err(AlreadyExists);
    }
  }

  /** `update`: replaces the description of an existing event and keeps the instant its count
      starts from; says nothing. */
  method Update(persist: PersistInstance, guild: Option<string>, name: string, text: string)
    returns (r: Result<Reply, CommandError>)
    modifies persist
    ensures persist.writable == old(persist.writable) && persist.listable == old(persist.listable)
    ensures guild.None? ==> r == Err(InvalidGuild("Invalid guild")) && unchanged(persist)
    ensures guild.Some? && old(persist.Load(EventKey(guild.value, name))).Err? ==>
              r == Err(DoesNotExist) && unchanged(persist)
    ensures guild.Some? && old(persist.Load(EventKey(guild.value, name))).Ok? ==>
              var key := EventKey(guild.value, name);
              var since := old(persist.entries[key].since);
              if old(persist.writable) then
                && r == Ok(Silent)
                && persist.entries == old(persist.entries)[key := Record(text, since)]
                && persist.unreadable == old(persist.unreadable)
              else
                r == Err(StoreFailure(WriteFailed)) && unchanged(persist)
  {
    if guild.None? {
      return Err(InvalidGuild("Invalid guild"));
    }
    var key := EventKey(guild.value, name);
    var loaded := persist.Load(key);
    if loaded.Ok? {
      var saved := persist.Save(key, Record(text, loaded.value.since));
      if saved.Err? {
        return Err(StoreFailure(saved.error));
      }
      r := Ok(Silent);
    } else {
      r := Err(DoesNotExist);
    }
  }

  /** `days_since`: the whole days elapsed since the event's instant, with its description.
      Reads the store and changes nothing. */
  function DaysSince(persist: PersistInstance, guild: Option<string>, name: string, now: int)
    : (r: Result<Reply, CommandError>)
    reads persist
    ensures guild.None? ==> r == Err(InvalidGuild("Invalid_guild"))
    ensures guild.Some? ==> (r.Ok? <==> persist.Load(EventKey(guild.value, name)).Ok?)
    ensures guild.Some? && r.Err? ==> r.error == DoesNotExist
    ensures r.Ok? ==>
              && guild.Some?
              && var rec := persist.entries[EventKey(guild.value, name)];
                 r.value == Say(DaysSinceMessage(DaysBetween(now, rec.since), rec.text))
  {
    if guild.None? then Err(InvalidGuild("Invalid_guild"))
    else
      match persist.Load(EventKey(guild.value, name))
      case Ok(rec) => Ok(Say(DaysSinceMessage(DaysBetween(now, rec.since), rec.text)))
      case Err(_) => Err(DoesNotExist)
  }

  /** `reset` as written: after reading the event, it stores the restarted record under the
      bare community key instead of the event key. The reply says the count is back at zero,
      yet the event's own record, and so what `days_since` reports for it, is unchanged. */
  method Reset(persist: PersistInstance, guild: Option<string>, name: string, now: int)
    returns (r: Result<Reply, CommandError>)
    modifies persist
    ensures persist.writable == old(persist.writable) && persist.listable == old(persist.listable)
    ensures guild.None? ==> r == Err(InvalidGuild("Invalid_guild")) && unchanged(persist)
    ensures guild.Some? && old(persist.Load(EventKey(guild.value, name))).Err? ==>
              r == Err(DoesNotExist) && unchanged(persist)
    ensures guild.Some? && old(persist.Load(EventKey(guild.value, name))).Ok? ==>
              var text := old(persist.entries[EventKey(guild.value, name)].text);
              if old(persist.writable) then
                && r == Ok(Say(ResetMessage(text)))
                && persist.entries == old(persist.entries)[guild.value := Record(text, now)]
                && persist.unreadable == old(persist.unreadable) - {guild.value}
                && persist.Load(EventKey(guild.value, name)) == old(persist.Load(EventKey(guild.value, name)))
                && DaysSince(persist, guild, name, now) == old(DaysSince(persist, guild, name, now))
              else
                r == Err(StoreFailure(WriteFailed)) && unchanged(persist)
  {
    if guild.None? {
      return Err(InvalidGuild("Invalid_guild"));
    }
    var key := EventKey(guild.value, name);
    var loaded := persist.Load(key);
    if loaded.Ok? {
      EventKeyIsNotGuild(guild.value, name);
      var text := loaded.value.text;
      var saved := persist.Save(guild.value, Record(text, now));
      if saved.Err? {
        return Err(StoreFailure(saved.error));
      }
      r := Ok(Say(ResetMessage(text)));
    } else {
      r := Err(DoesNotExist);
    }
  }

  /** `reset` as intended: the restarted record goes under the event key, so the description
      is kept, nothing else changes, and `days_since` reads zero days right afterwards. */
  method ResetIntended(persist: PersistInstance, guild: Option<string>, name: string, now: int)
    returns (r: Result<Reply, CommandError>)
    modifies persist
    ensures persist.writable == old(persist.writable) && persist.listable == old(persist.listable)
    ensures guild.None? ==> r == Err(InvalidGuild("Invalid_guild")) && unchanged(persist)
    ensures guild.Some? && old(persist.Load(EventKey(guild.value, name))).Err? ==>
              r == Err(DoesNotExist) && unchanged(persist)
    ensures guild.Some? && old(persist.Load(EventKey(guild.value, name))).Ok? ==>
              var key := EventKey(guild.value, name);
              var text := old(persist.entries[key].text);
              if old(persist.writable) then
                && r == Ok(Say(ResetMessage(text)))
                && persist.entries == old(persist.entries)[key := Record(text, now)]
                && persist.unreadable == old(persist.unreadable)
                && DaysSince(persist, guild, name, now) == Ok(Say(DaysSinceMessage(0, text)))
              else
                r == Err(StoreFailure(WriteFailed)) && unchanged(persist)
  {
    if guild.None? {
      return Err(InvalidGuild("Invalid_guild"));
    }
    var key := EventKey(guild.value, name);
    var loaded := persist.Load(key);
    if loaded.Ok? {
      var text := loaded.value.text;
      var saved := persist.Save(key, Record(text, now));
      if saved.Err? {
        return Err(StoreFailure(saved.error));
      }
      r := Ok(Say(ResetMessage(text)));
    } else {
      r := Err(DoesNotExist);
    }
  }

  /** An event created at instant 0 and reset three days later: `reset` as written replies that
      the count is back at zero, while `days_since` at the same instant still counts three days. */
  method ResetKeepsCounting() returns (replied: Result<Reply, CommandError>, queried: Result<Reply, CommandError>)
    ensures replied == Ok(Say("It has now been 0 days since x."))
    ensures queried == Ok(Say("It has been 3 days since x."))
  {
    var persist := new PersistInstance();
    assert persist.Load(EventKey("g", "e")) == Err(NotFound);
    var created := Create(persist, Some("g"), "e", "x", 0);
    assert persist.Load(EventKey("g", "e")) == Ok(Record("x", 0));
    replied := Reset(persist, Some("g"), "e", 3 * SecondsPerDay);
    assert replied == Ok(Say(ResetMessage("x")));
    ResetSaysZero();
    queried := DaysSince(persist, Some("g"), "e", 3 * SecondsPerDay);
    ThreeDaysSince();
  }

  /** The reply of `reset` for the description "x". */
  lemma ResetSaysZero()
    ensures ResetMessage("x") == "It has now been 0 days since x."
  {
    assert " been 0 days since " + "x" + "." == " been 0 days since x.";
  }

  /** Three days after the event was recorded, `days_since` reports "3 days". */
  lemma ThreeDaysSince()
    ensures DaysBetween(3 * SecondsPerDay, 0) == 3
    ensures DaysSinceMessage(3, "x") == "It has been 3 days since x."
  {
    assert Decimal(3) == "3";
    assert DaysSinceMessage(3, "x") == "It has been " + "3" + " " + "days" + " since " + "x" + ".";
  }

  /** The same steps with the intended `reset`: `days_since` then counts zero days. */
  method ResetIntendedRestarts() returns (replied: Result<Reply, CommandError>, queried: Result<Reply, CommandError>)
    ensures replied == Ok(Say("It has now been 0 days since x."))
    ensures queried == Ok(Say("It has been 0 days since x."))
  {
    var persist := new PersistInstance();
    assert persist.Load(EventKey("g", "e")) == Err(NotFound);
    var created := Create(persist, Some("g"), "e", "x", 0);
    assert persist.Load(EventKey("g", "e")) == Ok(Record("x", 0));
    replied := ResetIntended(persist, Some("g"), "e", 3 * SecondsPerDay);
    assert replied == Ok(Say(ResetMessage("x")));
    ResetSaysZero();
    queried := DaysSince(persist, Some("g"), "e", 3 * SecondsPerDay);
    ZeroDaysSince();
  }

  /** Right after a restart, `days_since` reports "0 days". */
  lemma ZeroDaysSince()
    ensures DaysBetween(3 * SecondsPerDay, 3 * SecondsPerDay) == 0
    ensures DaysSinceMessage(0, "x") == "It has been 0 days since x."
  {
    ZeroDaysMessage("x");
  }

  /** `remove`: deletes the event. Any failure of the deletion is reported as a missing event. */
  method Remove(persist: PersistInstance, guild: Option<string>, name: string)
    returns (r: Result<Reply, CommandError>)
    modifies persist
    ensures persist.writable == old(persist.writable) && persist.listable == old(persist.listable)
    ensures guild.None? ==> r == Err(InvalidGuild("Invalid_guild")) && unchanged(persist)
    ensures guild.Some? ==>
              var key := EventKey(guild.value, name);
              && (r.Ok? <==> old(key in persist.entries) && old(persist.writable))
              && (r.Ok? ==> && r.value == Say("Event removed.")
                            && persist.entries == old(persist.entries) - {key}
                            && persist.unreadable == old(persist.unreadable) - {key}
                            && persist.Load(key) == Err(NotFound))
              && (r.Err? ==> r.error == DoesNotExist && unchanged(persist))
  {
    if guild.None? {
      return Err(InvalidGuild("Invalid_guild"));
    }
    var removed := persist.Remove(EventKey(guild.value, name));
    if removed.Ok? {
      r := Ok(Say("Event removed."));
    } else {
      r := Err(DoesNotExist);
    }
  }

  /** One line of the listing: "{name}: {text}". */
  function EventLine(name: string, text: string): (line: string)
    ensures |line| == |name| + 2 + |text|
    ensures line[..|name|] == name && line[|name|..|name| + 2] == ": " && line[|name| + 2..] == text
  {
    name + ": " + text
  }

  /** A name may itself hold ": ", so a line alone does not fix where the name ends. */
  lemma EventLineAmbiguous()
    ensures EventLine("a", "b: c") == EventLine("a: b", "c")
  {
  }

  /** The keys of `keys` that `list` and `autocomplete_name` take to be in community `guild`:
      those that start with its identifier, in order. */
  function Matching(keys: seq<string>, guild: string): (ms: seq<string>)
    ensures forall k :: k in ms <==> k in keys && StartsWith(k, guild)
    decreases |keys|
  {
    if keys == [] then []
    else
      var init := Matching(keys[..|keys| - 1], guild);
      var item := keys[|keys| - 1];
      assert forall k :: k in keys <==> k in keys[..|keys| - 1] || k == item;
      if StartsWith(item, guild) then init + [item] else init
  }

  /** The matching keys keep the order of the listing: a listing split in two gives the
      matching keys of the first part followed by those of the second. */
  lemma {:induction false} MatchingAppend(a: seq<string>, b: seq<string>, guild: string)
    ensures Matching(a + b, guild) == Matching(a, guild) + Matching(b, guild)
    decreases |b|
  {
    if b == [] {
      assert a + b == a;
    } else {
      var b' := b[..|b| - 1];
      assert (a + b)[..|a + b| - 1] == a + b';
      assert (a + b)[|a + b| - 1] == b[|b| - 1];
      MatchingAppend(a, b', guild);
    }
  }

  /** The filter has no separator: in community "12", `list` keeps the key "123:x" of
      community "123", and shows it under its full key. */
  lemma MatchingLeaksAcrossGuilds()
    ensures Matching(["123:x"], "12") == ["123:x"]
    ensures ShownName("123:x", "12") == "123:x"
  {
    var key := "123:x";
    assert ["123:x"][..0] == [];
    assert StartsWith(key, "12") by { assert key[..2] == "12"; }
    assert !StartsWith(key, "12:") by { assert key[..3] != "12:" by { assert key[2] != "12:"[2]; } }
    assert ShownName(key, "12") == key;
    assert Matching(["123:x"], "12") == Matching([], "12") + [key];
  }

  /** The corrected filter for `list`: the keys of `keys` that start with "{guild}:", in order. */
  function ScopedMatching(keys: seq<string>, guild: string): (ms: seq<string>)
    ensures forall k :: k in ms <==> k in keys && StartsWith(k, guild + ":")
    decreases |keys|
  {
    if keys == [] then []
    else
      var init := ScopedMatching(keys[..|keys| - 1], guild);
      var item := keys[|keys| - 1];
      assert forall k :: k in keys <==> k in keys[..|keys| - 1] || k == item;
      if StartsWith(item, guild + ":") then init + [item] else init
  }

  /** The corrected filter drops the key "123:x" of community "123" from the listing of
      community "12", which the as-written filter keeps. */
  lemma ScopedMatchingDropsOtherGuild()
    ensures ScopedMatching(["123:x"], "12") == []
  {
    var key := "123:x";
    assert ["123:x"][..0] == [];
    assert !StartsWith(key, "12:") by { assert key[..3] != "12:" by { assert key[2] != "12:"[2]; } }
  }

  /** The record `reset` writes under the bare community key is kept by `list` for that
      community, and shown under the community identifier itself. */
  lemma BareGuildKeyListed(keys: seq<string>, guild: string)
    requires guild in keys
    ensures guild in Matching(keys, guild)
    ensures ShownName(guild, guild) == guild
  {
    assert guild[..|guild|] == guild;
  }

  /** The lines `list` builds for the listing `keys`, or the first failure to read one of the
      matching records. */
  function ListLines(persist: PersistInstance, guild: string, keys: seq<string>)
    : (r: Result<seq<string>, CommandError>)
    reads persist
    ensures r.Ok? ==> |r.value| == |Matching(keys, guild)|
    ensures r.Err? ==> r.error == StoreFailure(NotFound) || r.error == StoreFailure(Unreadable)
    decreases |keys|
  {
    if keys == [] then Ok([])
    else
      var item := keys[|keys| - 1];
      match ListLines(persist, guild, keys[..|keys| - 1])
      case Err(e) => Err(e)
      case Ok(lines) =>
        if !StartsWith(item, guild) then Ok(lines)
        else
          match persist.Load(item)
          case Err(e) => Err(StoreFailure(e))
          case Ok(rec) => Ok(lines + [EventLine(ShownName(item, guild), rec.text)])
  }

  /** The text `list` says for the lines it built. */
  function ListReply(lines: seq<string>): (reply: string)
    ensures reply != ""
    ensures reply == JoinLines(lines) || (JoinLines(lines) == "" && reply == "No events found")
  {
    var s := JoinLines(lines);
    if s == "" then "No events found" else s
  }

  /** One line per matching key, in listing order, each the shown name and the stored
      description; the listing fails exactly when a matching record cannot be read. */
  lemma {:induction false} ListLinesMatch(persist: PersistInstance, guild: string, keys: seq<string>)
    ensures ListLines(persist, guild, keys).Ok? <==>
              forall k :: k in Matching(keys, guild) ==> persist.Load(k).Ok?
    ensures ListLines(persist, guild, keys).Ok? ==>
              var lines := ListLines(persist, guild, keys).value;
              var ms := Matching(keys, guild);
              && |lines| == |ms|
              && forall j :: 0 <= j < |ms| ==>
                   && ms[j] in persist.entries
                   && lines[j] == EventLine(ShownName(ms[j], guild), persist.entries[ms[j]].text)
  {
    if keys != [] {
      var init := keys[..|keys| - 1];
      ListLinesMatch(persist, guild, init);
    }
  }

  /** Once a prefix of the listing fails, the whole listing fails with the same error: no
      partial output. */
  lemma {:induction false} ListLinesErrPersists(persist: PersistInstance, guild: string, keys: seq<string>, i: nat)
    requires i <= |keys| && ListLines(persist, guild, keys[..i]).Err?
    ensures ListLines(persist, guild, keys) == ListLines(persist, guild, keys[..i])
    decreases |keys| - i
  {
    if i == |keys| {
      assert keys[..i] == keys;
    } else {
      var init := keys[..|keys| - 1];
      assert init[..i] == keys[..i];
      ListLinesErrPersists(persist, guild, init, i);
    }
  }

  /** Joined lines whose first line holds a colon are neither empty nor the no-events text. */
  lemma JoinedLinesAreNotNoEvents(lines: seq<string>, name: string, text: string)
    requires lines != [] && lines[0] == EventLine(name, text)
    ensures JoinLines(lines) != "" && JoinLines(lines) != "No events found"
  {
    JoinLinesStartsWithFirst(lines);
    var s := JoinLines(lines);
    assert s[|name|] == lines[0][|name|] == ':';
    assert ':' in s;
    assert ':' !in "No events found";
  }

  /** `list` says "No events found" exactly when no key matched the community. */
  lemma ListReplyEmpty(persist: PersistInstance, guild: string, keys: seq<string>)
    requires ListLines(persist, guild, keys).Ok?
    ensures (ListReply(ListLines(persist, guild, keys).value) == "No events found")
        <==> Matching(keys, guild) == []
  {
    ListLinesMatch(persist, guild, keys);
    var lines := ListLines(persist, guild, keys).value;
    if lines != [] {
      var ms := Matching(keys, guild);
      JoinedLinesAreNotNoEvents(lines, ShownName(ms[0], guild), persist.entries[ms[0]].text);
    }
  }

  /** The lines for one more key of the listing: the lines so far, then a line for the key
      when it is in the community, or the failure to read its record. */
  lemma ListLinesExtend(persist: PersistInstance, guild: string, keys: seq<string>, i: nat)
    requires i < |keys|
    ensures ListLines(persist, guild, keys[..i + 1])
         == match ListLines(persist, guild, keys[..i])
            case Err(e) => Err(e)
            case Ok(lines) =>
              if !StartsWith(keys[i], guild) then Ok(lines)
              else
                match persist.Load(keys[i])
                case Err(e) => Err(StoreFailure(e))
                case Ok(rec) => Ok(lines + [EventLine(ShownName(keys[i], guild), rec.text)])
  {
    assert keys[..i + 1][..i] == keys[..i];
  }

  /** Pushing the parts of one more line and a newline extends the terminated form. */
  lemma TerminatedEventLine(lines: seq<string>, name: string, text: string)
    ensures Terminated(lines + [EventLine(name, text)]) == Terminated(lines) + name + ": " + text + "\n"
  {
    assert (lines + [EventLine(name, text)])[..|lines|] == lines;
  }

  /** `list`: one "{name}: {text}" line per key of the store that starts with the community
      identifier, in the order the store lists them, joined by newlines; "No events found"
      when none does. A listing or a read that fails fails the whole command.
      The order of the listing is the store's choice; `listed` names the one it chose. */
  method List(persist: PersistInstance, guild: Option<string>)
    returns (r: Result<Reply, CommandError>, ghost listed: seq<string>)
    ensures guild.None? ==> r == Err(InvalidGuild("Invalid_guild"))
    ensures guild.Some? && !persist.listable ==> r == Err(StoreFailure(ListFailed))
    ensures guild.Some? && persist.listable ==>
              && IsEnumeration(listed, persist.entries.Keys)
              && r == match ListLines(persist, guild.value, listed)
                      case Err(e) => Err(e)
                      case Ok(lines) => Ok(Say(ListReply(lines)))
  {
    listed := [];
    if guild.None? {
      return Err(InvalidGuild("Invalid_guild")), listed;
    }
    var g := guild.value;
    var listing := persist.List();
    if listing.Err? {
      return Err(StoreFailure(listing.error)), listed;
    }
    var items := listing.value;
    listed := items;
    var s := "";
    ghost var lines: seq<string> := [];
    for i := 0 to |items|
      invariant ListLines(persist, g, items[..i]) == Ok(lines)
      invariant s == Terminated(lines)
    {
      var item := items[i];
      ListLinesExtend(persist, g, items, i);
      if StartsWith(item, g) {
        var name := ShownName(item, g);
        s := s + name;
        var loaded := persist.Load(item);
        if loaded.Err? {
          ListLinesErrPersists(persist, g, items, i + 1);
          return Err(StoreFailure(loaded.error)), listed;
        }
        s := s + ": " + loaded.value.text;
        s := s + "\n";
        TerminatedEventLine(lines, name, loaded.value.text);
        lines := lines + [EventLine(name, loaded.value.text)];
      }
    }
    assert items[..|items|] == items;
    if lines != [] {
      TerminatedIsJoinedPlusNewline(lines);
    }
    if |s| > 0 {
      s := s[..|s| - 1];
    }
    if s == "" {
      r := Ok(Say("No events found"));
    } else {
      r := Ok(Say(s));
    }
  }

  /** `autocomplete_name`: the names of the community's events that contain `partial`, in the
      order the store lists them. It never fails: outside a community, or when the store
      cannot list its keys, it offers nothing. The order of the listing is the store's choice;
      `listed` names the one it chose, and `SuggestionsAppend` says the names follow it. */
  method AutocompleteName(persist: PersistInstance, guild: Option<string>, partial: string)
    returns (names: seq<string>, ghost listed: seq<string>)
    ensures guild.None? || !persist.listable ==> names == []
    ensures guild.Some? && persist.listable ==>
              && IsEnumeration(listed, persist.entries.Keys)
              && names == Suggestions(listed, guild.value, partial)
    ensures forall n :: n in names ==>
              && guild.Some?
              && Contains(n, partial)
              && exists k :: k in persist.entries && StartsWith(k, guild.value) && n == ShownName(k, guild.value)
    ensures guild.Some? && persist.listable ==>
              forall k :: k in persist.entries && StartsWith(k, guild.value) && Contains(ShownName(k, guild.value), partial)
                ==> ShownName(k, guild.value) in names
  {
    listed := [];
    var listing := persist.List();
    if listing.Ok? {
      listed := listing.value;
    }
    if listing.Ok? && guild.Some? {
      names := Suggestions(listing.value, guild.value, partial);
      forall k | k in persist.entries && StartsWith(k, guild.value) && Contains(ShownName(k, guild.value), partial)
        ensures ShownName(k, guild.value) in names
      {
        SuggestionsComplete(listing.value, guild.value, partial, k);
      }
    } else {
      names := [];
    }
  }
}
