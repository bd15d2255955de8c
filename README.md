# dayssince-rs, modelled in Dafny

dayssince-rs is a Discord bot that keeps "it has been N days since …" counters for each
server (a *guild*, the community a command is sent in). A user creates a named event with a
description. The bot records the instant it was created, reports the whole days elapsed on
request, and lets users update, reset, remove and list the events of their guild. Event names
are suggested while they are typed.

This project models the core of `src/main.rs`: the event store, the six commands that
read and write it, and the autocomplete callback that suggests event names.

- **Store** (`persist.dfy`, module `Persist`). The bot's `PersistInstance` is a class
  `PersistInstance`. Its field `entries: map<string, Record>` maps each key to a record of a
  description and an instant in whole seconds. `Load`, `Save` (an upsert), `Remove` (fails on
  a missing key) and `List` (every key once, in an order the store chooses) are its
  operations. The store also carries the faults of its backing storage as fields:
  - `unreadable`: records that exist but cannot be read back;
  - `writable`: whether the storage accepts writes and deletions;
  - `listable`: whether the keys can be enumerated.

  With these fields every error path of the commands can be reached.
- **Keys** (`keys.dfy`, module `Keys`). An event's key is `guild + ":" + name`.
  `list` and `autocomplete_name` recover a name by stripping every leading `"guild:"`
  (`ShownName`).
- **Commands** (`commands.dfy`, module `Commands`). The six commands are `Create`,
  `Update`, `DaysSince`, `Reset`, `Remove` and `List`. `AutocompleteName` is the
  autocomplete callback that `update`, `days_since`, `reset` and `remove` share for their
  `name` argument.
  - A missing guild is `None`. The current instant is the parameter `now`.
  - The reply a command says is the `Reply` it returns: `Say(text)`, or `Silent` for
    `update`, which says nothing.
  - An error is a `CommandError`.
  - `Create`, `Update`, `Reset` and `Remove` change the store in place. `DaysSince` is a
    function that reads it. `List` builds its text with a loop over the key listing, as
    the source does.
- **Text, Days** (`text.dfy`, `days.dfy`). These cover the pieces of Rust and chrono
  behaviour the commands depend on:
  - `starts_with`, `trim_start_matches` and `contains`;
  - the newline joining that `list`'s push-then-pop loop produces;
  - the decimal rendering of an integer;
  - chrono's `num_days`, which truncates toward zero;
  - the reply sentences.

Where the code does something other than what its messages and key scheme suggest, the model
follows the code:
- Community filtering uses `starts_with(guild)` without the separator.
- `reset` writes under the bare guild key.
- Right after `create`, `days_since` says "0 days": the unit word is "day" only for a count
  of exactly one.
- `update` replies nothing.
- Every failed read in `update`, `days_since` and `reset` is reported as "Event does not
  exist.", and so is every failed deletion in `remove`.
- The existence check of `create` treats any failed read as "absent". A record that exists
  but cannot be read is therefore overwritten.

## Model

| member | source | states |
|---|---|---|
| `Text.StartsWithConcat` | src/main.rs:22 | `starts_with(p)` holds exactly when the string is `p` followed by something (the same test filters keys at line 153). |
| `Text.TrimStartMatches` | src/main.rs:23 | The result is a suffix of the key that no longer starts with the pattern. A key that does not start with the pattern is returned unchanged. |
| `Text.TrimRepeated` | src/main.rs:154 | Every leading copy of the pattern is stripped, however many there are. |
| `Text.Contains` | src/main.rs:24 | `contains` is true exactly when the partial text occurs at some index of the name. |
| `Text.TerminatedIsJoinedPlusNewline` | src/main.rs:155-164 | Pushing each line and a newline, then popping the last character, gives the lines joined by newlines with no trailing newline. |
| `Text.Decimal` | src/main.rs:92-93 | The rendered count is non-empty and has no space. It starts with a minus sign exactly when the count is negative. After the sign come only digits, and the first digit is '0' only for zero (no leading zeros). |
| `Text.DecimalRoundTrip` | src/main.rs:92-93 | Reading back the rendered count gives the count. |
| `Days.DaysBetween` | src/main.rs:90 | `num_days` is the elapsed seconds divided by 86400, truncated toward zero. A future instant gives zero or a negative count, never clamped. |
| `Days.DaysBetweenAntisymmetric` | src/main.rs:90 | Swapping the two instants negates the day count. |
| `Days.DayUnit` | src/main.rs:94 | The unit is "day" exactly when the count is 1, and "days" otherwise. |
| `Days.DaysSinceMessage` | src/main.rs:91-96 | The reply opens with "It has been 1 day " exactly when the count is one; every other count is followed by "days". |
| `Days.ResetMessage` | src/main.rs:119 | The reply of `reset` is the zero-day reply of `days_since` with "now" put after "It has". |
| `Days.ZeroDaysMessage` | src/main.rs:91-96 | A count of zero is reported as "It has been 0 days since {text}.". |
| `Days.DaysSinceMessageInjective` | src/main.rs:91-96 | Two `days_since` replies are equal only if both the count and the description are equal. |
| `Keys.EventKey` | src/main.rs:41 | A key starts with "{guild}:" and the name follows it. |
| `Keys.EventKeyInjective` | src/main.rs:66 | Within one guild, distinct names have distinct keys. |
| `Keys.EventKeyIsolatesGuilds` | src/main.rs:87 | The same name in two different guilds has two different keys. |
| `Keys.EventKeyIsNotGuild` | src/main.rs:113-118 | An event key is never the bare guild key that `reset` writes. |
| `Keys.EventKeyCollision` | src/main.rs:136 | The separator is not escaped, so ("a", "b:c") and ("a:b", "c") share a key. |
| `Keys.EventKeyInjectiveColonFree` | src/main.rs:40-41 | With community identifiers free of ':', such as the decimal identifiers the key is built from, a key determines both the community and the name, whatever the names hold. |
| `Keys.ShownName` | src/main.rs:23 | The shown name never starts with "{guild}:". A key without that prefix is shown unchanged, and a key with it loses at least that prefix. The shown name is a suffix of the key (the same stripping names each line at line 154). |
| `Keys.NameRecovered` | src/main.rs:23 | Stripping "{guild}:" from an event key gives the name back, unless the name itself starts with "{guild}:". |
| `Keys.NameOverStripped` | src/main.rs:154 | In guild "g", the event "g:x" is shown as "x". |
| `Keys.NameNotRecovered` | src/main.rs:23 | Conversely, a name that starts with "{guild}:" is never shown unchanged. |
| `Persist.PersistInstance.constructor` | src/main.rs:11-13 | A new store holds nothing and its storage is healthy. |
| `Persist.PersistInstance.Load` | src/main.rs:68 | A load succeeds exactly when the key is stored and readable, and returns the stored record. A missing key gives NotFound. |
| `Persist.PersistInstance.Save` | src/main.rs:46 | A save succeeds exactly when the storage is writable. It then upserts the record under the key and changes nothing else, and a load of the key returns the record. A failed save changes nothing. |
| `Persist.PersistInstance.Remove` | src/main.rs:138 | A removal succeeds exactly when the key is stored and the storage is writable. The key is then absent and every other key is unchanged. A missing key gives NotFound, and a failed removal changes nothing. |
| `Persist.PersistInstance.List` | src/main.rs:152 | A listing fails when the storage cannot list. Otherwise it names every stored key exactly once. |
| `Autocomplete.Suggestions` | src/main.rs:21-25 | Every suggestion contains the partial text and is the shown name of a listed key that starts with the guild. There are at most as many suggestions as keys. |
| `Autocomplete.SuggestionsComplete` | src/main.rs:22-24 | Every listed key of the guild whose shown name contains the partial text is suggested. |
| `Autocomplete.SuggestionsAppend` | src/main.rs:21-25 | The suggestions follow the order of the key listing: the suggestions for a split listing are those of the first part followed by those of the second. |
| `Autocomplete.SuggestionsLeakAcrossGuilds` | src/main.rs:22 | In guild "12", key "123:x" is suggested as "123:x". The separator-aware filter suggests nothing for it. |
| `Autocomplete.ScopedSuggestions` | src/main.rs:22-23 | Corrected filter: every suggestion contains the partial text and is the name of an event of exactly this guild. |
| `Autocomplete.ScopedSuggestionsComplete` | src/main.rs:22-24 | Corrected filter: every event of the guild whose name contains the partial text is suggested. |
| `Commands.Create` | src/main.rs:35-52 | With no guild, the error is "Invalid guild" and the store is unchanged. If the key can be read, the result is AlreadyExists with the store unchanged. Otherwise exactly (text, now) is stored at the key and nothing else changes, after which `days_since` reports 0 days. A failed write changes nothing. |
| `Commands.Update` | src/main.rs:58-76 | On a readable key, the description is replaced, the stored instant is kept and nothing is said. Otherwise the result is DoesNotExist and the store is unchanged. |
| `Commands.DaysSince` | src/main.rs:80-102 | It succeeds exactly when the event can be read, and then reports the truncated whole days since the stored instant with the stored description. Otherwise the result is DoesNotExist. |
| `Commands.Reset` | src/main.rs:106-125 | As written: it replies "It has now been 0 days since {text}." and upserts (text, now) under the bare guild key. The event's own record, and so the `days_since` result for it, is unchanged. A missing event gives DoesNotExist with the store unchanged. |
| `Commands.ResetKeepsCounting` | src/main.rs:115-119 | An event created at 0 and reset three days later gets the reply "0 days", while `days_since` still says "3 days". |
| `Commands.ResetIntended` | src/main.rs:112-124 | Corrected: (text, now) is stored at the event key, the description is kept, nothing else changes, and `days_since` then reports 0 days. |
| `Commands.ResetIntendedRestarts` | src/main.rs:115-119 | With the corrected reset, the same steps give "0 days" from `days_since`. |
| `Commands.Remove` | src/main.rs:129-144 | It succeeds exactly when the backend removal succeeds. The key is then absent and every other key is unchanged. Otherwise the result is DoesNotExist and the store is unchanged. |
| `Commands.Matching` | src/main.rs:153 | The keys `list` keeps are exactly the listed keys that start with the guild identifier. |
| `Commands.MatchingAppend` | src/main.rs:152-153 | The kept keys follow the order of the listing: for a split listing they are those of the first part followed by those of the second. |
| `Commands.MatchingLeaksAcrossGuilds` | src/main.rs:153-154 | In guild "12", `list` keeps the key "123:x" and shows it under its full key. |
| `Commands.ScopedMatching` | src/main.rs:153 | Corrected filter for `list`: a key is kept exactly when it is listed and starts with "{guild}:". |
| `Commands.ScopedMatchingDropsOtherGuild` | src/main.rs:153 | With the corrected filter, guild "12" no longer keeps the key "123:x". |
| `Commands.BareGuildKeyListed` | src/main.rs:118 | The record `reset` writes under the bare guild key is kept by `list` for that guild and shown under the guild identifier. |
| `Commands.EventLine` | src/main.rs:155-159 | A listing line is the shown name, then ": ", then the description. Given the name, the description is what follows it and ": ". |
| `Commands.EventLineAmbiguous` | src/main.rs:155-159 | A line alone does not fix where the name ends: name "a" with description "b: c" and name "a: b" with description "c" give the same line. |
| `Commands.ListLines` | src/main.rs:152-163 | The lines built by the loop: on success one per key kept by the filter; a failure is only ever a failed read of a record (NotFound or Unreadable). |
| `Commands.ListReply` | src/main.rs:164-169 | The text `list` says is never empty: it is the joined lines, or "No events found" when they join to nothing. |
| `Commands.ListLinesMatch` | src/main.rs:152-163 | The listing succeeds exactly when every matching record can be read. It then has one "{name}: {text}" line per matching key, in listing order, with the shown name and the stored description. |
| `Commands.ListLinesErrPersists` | src/main.rs:157 | Once a read fails, the whole listing fails with that error, so there is no partial output. |
| `Commands.JoinedLinesAreNotNoEvents` | src/main.rs:164-169 | Joined event lines are never empty and never the no-events text. |
| `Commands.ListReplyEmpty` | src/main.rs:164-169 | `list` says "No events found" exactly when no key matched the guild. |
| `Commands.List` | src/main.rs:148-172 | The loop's result equals the line specification over the store's listing, with the final pop and the emptiness test applied. A failed listing or read fails the command. |
| `Commands.AutocompleteName` | src/main.rs:18-29 | It never fails. With no guild or a failed listing it returns nothing. Otherwise the result is the suggestion chain over the store's listing, in listing order and one entry per matching key (so two keys with the same shown name give it twice). Every name is the shown name of a stored key that starts with the guild and contains the partial text, and every such name is returned. |

## Findings

| source | as written | input that shows it | evidently intended | confidence | as-written member | corrected member |
|---|---|---|---|---|---|---|
| src/main.rs:118 | `reset` saves the restarted record under the bare guild key `guild`, not under `guild:name` | event "e" in guild "g" created at instant 0 and reset at 3 days: the reply says "0 days", `days_since` still says "3 days", and a record under key "g" appears in `list` (`Commands.BareGuildKeyListed`) | save `(text, now)` under the event key | high; not executed | `Commands.ResetKeepsCounting` | `Commands.ResetIntended` |
| src/main.rs:22 | guild filtering is `starts_with(guild)` without the separator, and the name is recovered by stripping "{guild}:" repeatedly | guild "12" with stored key "123:x": "123:x" is suggested (and, by `Commands.MatchingLeaksAcrossGuilds`, listed) in guild "12" | keep keys starting with "{guild}:" and strip that prefix once | medium; not executed | `Autocomplete.SuggestionsLeakAcrossGuilds`, `Commands.MatchingLeaksAcrossGuilds` | `Autocomplete.ScopedSuggestions`, `Commands.ScopedMatching` |

The commands keep the code's behaviour: `Commands.Reset` and the `starts_with(guild)`
filter of `Commands.List` and `Commands.AutocompleteName`. Each corrected definition sits
beside the as-written one, with its intended property proved.

## Left out

- `main`, framework building, command registration and gateway intents (src/main.rs:174-204):
  network and chat-platform glue.
- Sending replies (`ctx.say(...).await?`) and async execution. A reply is the returned
  `Reply`, and a failed send is not modelled.
- Secret loading (`DISCORD_TOKEN`) and the hosting runtime, which are configuration I/O.
- Durability, the on-disk format and concurrent access to the store. Storage faults are
  modelled only as the store fields `unreadable`, `writable` and `listable`.
- The exact text of errors that come from the storage. They are `StoreFailure(cause)`.
- Real clock reads and sub-second precision. Instants and `now` are whole seconds, and the
  64-bit range of chrono durations is not modelled.
- The guild identifier's numeric representation. A guild is an arbitrary string, and
  "no guild" is `None`.
- Commands.Create: the existence check loads the key at type `String` while records are
  `(String, DateTime)`. It is modelled as "the load succeeds". That relies on the storage's
  deserialiser accepting a record whose leading field is a string.
- The text `list` says cannot always be split back into names and descriptions: a name that
  contains ": " makes a line ambiguous (`Commands.EventLineAmbiguous`). The model records this
  and does not change the line format.
- Commands.List, Commands.AutocompleteName: the store chooses the order of its key listing.
  The order used is returned as the ghost output `listed`, not fixed by the model.
