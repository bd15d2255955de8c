/** The store key of an event: the community identifier and the event name joined by a colon. */
module Keys {
  import opened Text

  /** `format!("{guild}:{name}")` */
  function EventKey(guild: string, name: string): (key: string)
    ensures StartsWith(key, guild + ":") && key[|guild| + 1..] == name
  {
    guild + ":" + name
  }

  /** The name shown for a key listed in community `guild`:
      `key.trim_start_matches("{guild}:")`, every leading "{guild}:" removed. */
  function ShownName(key: string, guild: string): (name: string)
    ensures !StartsWith(name, guild + ":")
    ensures !StartsWith(key, guild + ":") ==> name == key
    ensures StartsWith(key, guild + ":") ==> |name| <= |key| - |guild| - 1
    ensures name == key || (|name| < |key| && name == key[|key| - |name|..])
  {
    TrimStartMatches(key, guild + ":")
  }

  /** Within one community, distinct names give distinct keys. */
  lemma EventKeyInjective(guild: string, m: string, n: string)
    requires EventKey(guild, m) == EventKey(guild, n)
    ensures m == n
  {
  }

  /** The same name in two different communities gives two different keys. */
  lemma EventKeyIsolatesGuilds(g: string, h: string, name: string)
    requires g != h
    ensures EventKey(g, name) != EventKey(h, name)
  {
    if |g| == |h| {
      assert EventKey(g, name)[..|g|] == g;
      assert EventKey(h, name)[..|h|] == h;
    } else {
      assert |EventKey(g, name)| != |EventKey(h, name)|;
    }
  }

  /** An event key is never the bare community key. */
  lemma EventKeyIsNotGuild(guild: string, name: string)
    ensures EventKey(guild, name) != guild
  {
    assert |EventKey(guild, name)| > |guild|;
  }

  /** The separator is not escaped, so the encoding is not injective over pairs: two events
      can share a key when a community identifier holds a colon. */
  lemma EventKeyCollision()
    ensures EventKey("a", "b:c") == EventKey("a:b", "c")
  {
  }

  /** With colon-free community identifiers, such as the decimal ones the bot gets, a key
      determines both the community and the name, whatever the names hold. */
  lemma EventKeyInjectiveColonFree(g: string, m: string, h: string, n: string)
    requires ':' !in g && ':' !in h
    requires EventKey(g, m) == EventKey(h, n)
    ensures g == h && m == n
  {
    SplitAtFirst(g, ':', m, h, n);
  }

  /** `trim_start_matches("{guild}:")` gives the name back when the name does not itself
      start with the community prefix. */
  lemma NameRecovered(guild: string, name: string)
    requires !StartsWith(name, guild + ":")
    ensures ShownName(EventKey(guild, name), guild) == name
  {
    var p := guild + ":";
    assert EventKey(guild, name) == p + name;
    TrimPrefixed(p, name);
  }

  /** A name that itself starts with the community prefix loses it too: in community "g" the
      event "g:x" is shown as "x". */
  lemma NameOverStripped()
    ensures ShownName(EventKey("g", "g:x"), "g") == "x"
  {
    assert EventKey("g", "g:x") == "g:" + ("g:" + "x");
    TrimPrefixed("g:", "g:" + "x");
    TrimPrefixed("g:", "x");
    assert !StartsWith("x", "g:");
  }

  /** Conversely, a name that starts with the community prefix is never given back unchanged:
      it loses at least that prefix. */
  lemma NameNotRecovered(guild: string, name: string)
    requires StartsWith(name, guild + ":")
    ensures ShownName(EventKey(guild, name), guild) != name
  {
    var p := guild + ":";
    assert EventKey(guild, name) == p + name;
    TrimPrefixed(p, name);
    assert name[..|p|] == p;
    assert TrimStartMatches(name, p) == TrimStartMatches(name[|p|..], p);
    assert |TrimStartMatches(name[|p|..], p)| <= |name| - |p|;
  }
}
