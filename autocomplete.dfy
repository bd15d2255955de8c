/**
 * The suggestion list offered while an event name is being typed: the filter, map and
 * filter chain of `autocomplete_name` over the store's key listing.
 */
module Autocomplete {
  import opened Text
  import opened Keys

  /** Keys that start with the community identifier, each turned into its shown name, kept
      when it contains `partial`; in the order of `keys`. */
  function Suggestions(keys: seq<string>, guild: string, partial: string): (names: seq<string>)
    ensures |names| <= |keys|
    ensures forall n :: n in names ==>
              && Contains(n, partial)
              && exists k :: k in keys && StartsWith(k, guild) && n == ShownName(k, guild)
    decreases |keys|
  {
    if keys == [] then []
    else
      var name := ShownName(keys[0], guild);
      var rest := Suggestions(keys[1..], guild, partial);
      if StartsWith(keys[0], guild) && Contains(name, partial) then [name] + rest else rest
  }

  /** Nothing that passes both filters is dropped. */
  lemma {:induction false} SuggestionsComplete(keys: seq<string>, guild: string, partial: string, k: string)
    requires k in keys && StartsWith(k, guild) && Contains(ShownName(k, guild), partial)
    ensures ShownName(k, guild) in Suggestions(keys, guild, partial)
  {
    if keys[0] != k {
      SuggestionsComplete(keys[1..], guild, partial, k);
    }
  }

  /** The suggestions follow the order of the key listing: a listing split in two gives the
      suggestions of the first part followed by those of the second. */
  lemma {:induction false} SuggestionsAppend(a: seq<string>, b: seq<string>, guild: string, partial: string)
    ensures Suggestions(a + b, guild, partial) == Suggestions(a, guild, partial) + Suggestions(b, guild, partial)
  {
    if a == [] {
      assert a + b == b;
    } else {
      assert (a + b)[0] == a[0];
      assert (a + b)[1..] == a[1..] + b;
      SuggestionsAppend(a[1..], b, guild, partial);
    }
  }

  /** The community filter has no separator, so the keys of community "123" are offered in
      community "12", under their full key; the filter that includes the separator does not. */
  lemma SuggestionsLeakAcrossGuilds()
    ensures Suggestions(["123:x"], "12", "") == ["123:x"]
    ensures ScopedSuggestions(["123:x"], "12", "") == []
  {
    var key := "123:x";
    assert ["123:x"][0] == key && ["123:x"][1..] == [];
    assert key[..2] == "12";
    assert key[2] != "12:"[2];
    assert ShownName(key, "12") == key;
    assert StartsWith(key, "");
  }

  /** The names of the events of community `guild` that contain `partial`: keys that start
      with "{guild}:", with that prefix removed once; in the order of `keys`. */
  function ScopedSuggestions(keys: seq<string>, guild: string, partial: string): (names: seq<string>)
    ensures forall n :: n in names ==> Contains(n, partial) && EventKey(guild, n) in keys
    decreases |keys|
  {
    if keys == [] then []
    else
      var rest := ScopedSuggestions(keys[1..], guild, partial);
      if StartsWith(keys[0], guild + ":") && Contains(keys[0][|guild| + 1..], partial) then
        assert keys[0] == EventKey(guild, keys[0][|guild| + 1..]);
        [keys[0][|guild| + 1..]] + rest
      else
        rest
  }

  /** Every event of community `guild` whose name contains `partial` is offered. */
  lemma {:induction false} ScopedSuggestionsComplete(keys: seq<string>, guild: string, partial: string, name: string)
    requires EventKey(guild, name) in keys && Contains(name, partial)
    ensures name in ScopedSuggestions(keys, guild, partial)
  {
    if keys[0] != EventKey(guild, name) {
      ScopedSuggestionsComplete(keys[1..], guild, partial, name);
    }
  }
}
