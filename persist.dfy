/**
 * The key-value store the bot is given at start-up, seen through the four operations it
 * uses: `load`, `save`, `remove` and `list`. Every value the bot stores is a record of an
 * event's description and the instant its count starts from.
 *
 * Besides the records, the store carries the faults of the backing storage that the
 * commands react to: records that exist but cannot be read back, storage that refuses
 * writes, and a listing that cannot be produced.
 */
module Persist {
  import opened Wrappers

  /** The `(String, DateTime<Utc>)` pair stored under an event key; the instant is in whole seconds. */
  datatype Record = Record(text: string, since: int)

  /** Why a store operation failed. */
  datatype PersistError =
    | NotFound      // nothing is stored under the key
    | Unreadable    // something is stored, but it cannot be opened or decoded
    | WriteFailed   // the storage refused to write or delete
    | ListFailed    // the storage could not enumerate its keys

  /** `ks` lists every element of `s` exactly once, in some order. */
  ghost predicate IsEnumeration(ks: seq<string>, s: set<string>)
  {
    && (forall k :: k in ks <==> k in s)
    && (forall i, j :: 0 <= i < j < |ks| ==> ks[i] != ks[j])
  }

  class PersistInstance {
    /** What is stored, by key. */
    var entries: map<string, Record>
    /** Keys whose stored record cannot be read back. */
    var unreadable: set<string>
    /** Whether the storage accepts writes and deletions. */
    var writable: bool
    /** Whether the storage can enumerate its keys. */
    var listable: bool

    /** An empty store on healthy storage. */
    constructor ()
      ensures entries == map[] && unreadable == {} && writable && listable
    {
      entries := map[];
      unreadable := {};
      writable := true;
      listable := true;
    }

    /** `load(key)`: the record stored under `key`, when there is one and it can be read. */
    function Load(key: string): (r: Result<Record, PersistError>)
      reads this
      ensures r.Ok? <==> key in entries && key !in unreadable
      ensures r.Ok? ==> r.value == entries[key]
      ensures r == Err(NotFound) <==> key !in entries
    {
      if key !in entries then Err(NotFound)
      else if key in unreadable then Err(Unreadable)
      else Ok(entries[key])
    }

    /** `save(key, rec)`: stores `rec` under `key`, replacing whatever was there. */
    method Save(key: string, rec: Record) returns (r: Result<(), PersistError>)
      modifies this
      ensures writable == old(writable) && listable == old(listable)
      ensures r.Ok? <==> old(writable)
      ensures r.Ok? ==> entries == old(entries)[key := rec] && unreadable == old(unreadable) - {key}
      ensures r.Ok? ==> Load(key) == Ok(rec)
      ensures r.Err? ==> r.error == WriteFailed && unchanged(this)
    {
      if !writable {
        return Err(WriteFailed);
      }
      entries := entries[key := rec];
      unreadable := unreadable - {key};
      r := Ok(());
    }

    /** `remove(key)`: deletes what is stored under `key`; fails when nothing is. */
    method Remove(key: string) returns (r: Result<(), PersistError>)
      modifies this
      ensures writable == old(writable) && listable == old(listable)
      ensures r.Ok? <==> old(key in entries) && old(writable)
      ensures r.Ok? ==> entries == old(entries) - {key} && unreadable == old(unreadable) - {key}
      ensures r.Ok? ==> Load(key) == Err(NotFound)
      ensures old(key !in entries) ==> r == Err(NotFound)
      ensures r.Err? ==> unchanged(this)
    {
      if key !in entries {
        return Err(NotFound);
      }
      if !writable {
        return Err(WriteFailed);
      }
      entries := entries - {key};
      unreadable := unreadable - {key};
      r := Ok(());
    }

    /** `list()`: every stored key exactly once, in an order the store chooses. */
    method List() returns (r: Result<seq<string>, PersistError>)
      ensures !listable ==> r == Err(ListFailed)
      ensures listable ==> r.Ok? && IsEnumeration(r.value, entries.Keys)
    {
      if !listable {
        return Err(ListFailed);
      }
      var rest := entries.Keys;
      var keys: seq<string> := [];
      while rest != {}
        invariant rest <= entries.Keys
        invariant forall k :: k in keys ==> k in entries && k !in rest
        invariant forall k :: k in entries ==> k in keys || k in rest
        invariant forall i, j :: 0 <= i < j < |keys| ==> keys[i] != keys[j]
        decreases rest
      {
        var k :| k in rest;
        keys := keys + [k];
        rest := rest - {k};
      }
      r := Ok(keys);
    }
  }
}
