/** The settings API (`/api/settings`): a durable key/value store kept in the
    `setting:` namespace of one flat key-value keyspace shared with other users
    of the same binding (the cache uses `cache:`). */
module Settings {
  import opened Wrappers
  import opened Strings

  const Namespace: string := "setting:"

  /** One `{key, value}` element of the GET response. */
  datatype Setting = Setting(key: string, value: string)

  datatype Body =
    | SettingList(settings: seq<Setting>)  // GET
    | Echo(setting: Setting)               // POST
    | Deleted                              // DELETE: `{deleted: true}`
    | Error(message: string)

  datatype Reply = Reply(status: int, body: Body)

  predicate Distinct<T(==)>(s: seq<T>) {
    forall i, j :: 0 <= i < j < |s| ==> s[i] != s[j]
  }

  /** The physical key a setting is stored under: `setting:${key}`. */
  function StorageKey(key: string): (name: string)
    ensures StartsWith(name, Namespace) && name[|Namespace|..] == key
  {
    Namespace + key
  }

  /** The key shown for a listed physical key: `name.replace('setting:', '')`. */
  function DisplayKey(name: string): string {
    RemoveFirst(name, Namespace)
  }

  /** A physical key in the namespace is shown as its part after the namespace,
      and storing under that shown key gives back the same physical key. */
  lemma DisplayKeyOfListed(name: string)
    requires StartsWith(name, Namespace)
    ensures DisplayKey(name) == name[|Namespace|..]
    ensures StorageKey(DisplayKey(name)) == name
  {
    RemoveFirstOfPrefix(name, Namespace);
    assert name == name[..|Namespace|] + name[|Namespace|..];
  }

  /** Every key written by POST is shown unchanged by GET, even one that itself
      contains `setting:` (only the leading occurrence is removed). */
  lemma KeyRoundTrip(key: string)
    ensures DisplayKey(StorageKey(key)) == key
  {
    DisplayKeyOfListed(StorageKey(key));
  }

  /** One GET element: the shown key and the value read back, `''` when the
      value is gone by the time it is read. */
  function ListedSetting(name: string, stored: Option<string>): (s: Setting)
    ensures StartsWith(name, Namespace) ==> StorageKey(s.key) == name
    ensures stored.None? ==> s.value == ""
    ensures stored.Some? ==> s.value == stored.value
  {
    var s := Setting(DisplayKey(name), stored.GetOr(""));
    if StartsWith(name, Namespace) then DisplayKeyOfListed(name); s else s
  }

  /** `settings` is a GET response for keyspace `kv`: one element per stored
      key of the namespace, with that key's value, and nothing else. */
  ghost predicate ListsExactly(settings: seq<Setting>, kv: map<string, string>) {
    && (forall i :: 0 <= i < |settings| ==>
          StorageKey(settings[i].key) in kv && kv[StorageKey(settings[i].key)] == settings[i].value)
    && (forall name :: name in kv && StartsWith(name, Namespace) ==>
          Setting(DisplayKey(name), kv[name]) in settings)
    && (forall i, j :: 0 <= i < j < |settings| ==> settings[i].key != settings[j].key)
  }

  /** The in-memory key-value namespace binding: a flat map from key to value. */
  class KvNamespace {
    var entries: map<string, string>

    constructor (initial: map<string, string>)
      ensures entries == initial
    {
      entries := initial;
    }

    /** `kv.list({prefix})`: every stored key with the prefix, each once
        (the order of the real listing is not modelled). */
    method List(prefix: string) returns (names: seq<string>)
      ensures forall i :: 0 <= i < |names| ==> names[i] in entries && StartsWith(names[i], prefix)
      ensures forall name :: name in entries && StartsWith(name, prefix) ==> name in names
      ensures Distinct(names)
    {
      names := [];
      var left := entries.Keys;
      while left != {}
        invariant left <= entries.Keys
        invariant forall i :: 0 <= i < |names| ==> names[i] in entries && names[i] !in left && StartsWith(names[i], prefix)
        invariant forall name :: name in entries && name !in left && StartsWith(name, prefix) ==> name in names
        invariant Distinct(names)
        decreases left
      {
        var name :| name in left;
        if StartsWith(name, prefix) {
          names := names + [name];
        }
        left := left - {name};
      }
    }

    /** `kv.get(name)`: the stored value, or null. */
    method Get(name: string) returns (v: Option<string>)
      ensures name in entries ==> v == Some(entries[name])
      ensures name !in entries ==> v == None
    {
      v := if name in entries then Some(entries[name]) else None;
    }

    /** `kv.put(name, value)`: create or replace. */
    method Put(name: string, value: string)
      modifies this
      ensures entries == old(entries)[name := value]
    {
      entries := entries[name := value];
    }

    /** `kv.delete(name)`: removes the key, a no-op when it is absent. */
    method Delete(name: string)
      modifies this
      ensures entries == old(entries) - {name}
    {
      entries := entries - {name};
    }
  }

  /** GET /api/settings: list the namespace and read each listed key back
      (the source reads them in parallel; here one after the other). */
  method HandleGet(kv: KvNamespace) returns (reply: Reply)
    ensures reply.status == 200 && reply.body.SettingList?
    ensures ListsExactly(reply.body.settings, kv.entries)
  {
    var names := kv.List(Namespace);
    var settings: seq<Setting> := [];
    for i := 0 to |names|
      invariant |settings| == i
      invariant forall j :: 0 <= j < i ==>
        StorageKey(settings[j].key) == names[j] && settings[j].value == kv.entries[names[j]]
    {
      var stored := kv.Get(names[i]);
      settings := settings + [ListedSetting(names[i], stored)];
    }
    forall name | name in kv.entries && StartsWith(name, Namespace)
      ensures Setting(DisplayKey(name), kv.entries[name]) in settings
    {
      var j :| 0 <= j < |names| && names[j] == name;
      DisplayKeyOfListed(name);
      assert settings[j] == Setting(DisplayKey(name), kv.entries[name]);
    }
    reply := Reply(200, SettingList(settings));
  }

  /** POST /api/settings with body `{key, value}`: stored without validation
      under `setting:${key}`, echoed back with 201. */
  method HandlePost(kv: KvNamespace, key: string, value: string) returns (reply: Reply)
    modifies kv
    ensures kv.entries == old(kv.entries)[StorageKey(key) := value]
    ensures reply == Reply(201, Echo(Setting(key, value)))
  {
    kv.Put(StorageKey(key), value);
    reply := Reply(201, Echo(Setting(key, value)));
  }

  /** The physical key DELETE removes for query parameter `key`, or None when
      the parameter is missing or empty (`!key`). */
  function DeleteTarget(keyParam: Option<string>): (target: Option<string>)
    ensures target.Some? ==> keyParam.Some? && StartsWith(target.value, Namespace) && DisplayKey(target.value) == keyParam.value
    ensures target.Some? ==> target.value != Namespace
    ensures target.None? <==> keyParam.None? || keyParam.value == ""
  {
    if keyParam.None? || keyParam.value == "" then None
    else
      KeyRoundTrip(keyParam.value);
      Some(StorageKey(keyParam.value))
  }

  /** DELETE /api/settings?key=K: 400 without K, otherwise removes `setting:K`
      and answers `{deleted: true}` whether or not it was stored. */
  method HandleDelete(kv: KvNamespace, keyParam: Option<string>) returns (reply: Reply)
    modifies kv
    ensures keyParam.None? || keyParam.value == "" ==>
      reply == Reply(400, Error("Key required")) && kv.entries == old(kv.entries)
    ensures keyParam.Some? && keyParam.value != "" ==>
      reply == Reply(200, Deleted) && kv.entries == old(kv.entries) - {StorageKey(keyParam.value)}
  {
    var target := DeleteTarget(keyParam);
    if target.None? {
      return Reply(400, Error("Key required"));
    }
    kv.Delete(target.value);
    reply := Reply(200, Deleted);
  }

  /** After POST `{key, value}`, a GET response holds `{key, value}`. */
  lemma PutThenList(kv: map<string, string>, key: string, value: string, settings: seq<Setting>)
    requires ListsExactly(settings, kv[StorageKey(key) := value])
    ensures Setting(key, value) in settings
  {
    KeyRoundTrip(key);
    assert StorageKey(key) in kv[StorageKey(key) := value];
  }

  /** After DELETE ?key=K, no element of a GET response has key K. */
  lemma DeleteThenList(kv: map<string, string>, key: string, settings: seq<Setting>)
    requires ListsExactly(settings, kv - {StorageKey(key)})
    ensures forall s :: s in settings ==> s.key != key
  {
  }

  /** A write outside the namespace (a `cache:` entry, say) does not change
      what GET reports. */
  lemma OtherNamespaceInvisible(kv: map<string, string>, name: string, value: string, settings: seq<Setting>)
    requires !StartsWith(name, Namespace)
    ensures ListsExactly(settings, kv) <==> ListsExactly(settings, kv[name := value])
  {
    var kv' := kv[name := value];
    forall n | StartsWith(n, Namespace)
      ensures n in kv <==> n in kv'
      ensures n in kv ==> kv[n] == kv'[n]
    {
      assert n != name;
    }
    forall k ensures StorageKey(k) in kv <==> StorageKey(k) in kv' {
      assert StartsWith(StorageKey(k), Namespace);
    }
  }

  /** Removing an entry outside the namespace does not change what GET reports. */
  lemma OtherNamespaceRemovalInvisible(kv: map<string, string>, name: string, settings: seq<Setting>)
    requires !StartsWith(name, Namespace)
    ensures ListsExactly(settings, kv) <==> ListsExactly(settings, kv - {name})
  {
    var kv' := kv - {name};
    forall n | StartsWith(n, Namespace)
      ensures n in kv <==> n in kv'
      ensures n in kv ==> kv[n] == kv'[n]
    {
      assert n != name;
    }
    forall k ensures StorageKey(k) in kv <==> StorageKey(k) in kv' {
      assert StartsWith(StorageKey(k), Namespace);
    }
  }

  /** Keys of the cache's `cache:` namespace never fall in the settings namespace. */
  lemma CacheKeysOutsideNamespace(name: string)
    requires StartsWith(name, "cache:")
    ensures !StartsWith(name, Namespace)
  {
    assert name[0] == 'c' != Namespace[0];
  }

  /** Namespaces stay separate: the cache's write of any `cache:` entry leaves
      the valid GET responses of the settings store unchanged. */
  lemma CacheWriteInvisible(kv: map<string, string>, cacheKey: string, value: string, settings: seq<Setting>)
    ensures ListsExactly(settings, kv) <==> ListsExactly(settings, kv["cache:" + cacheKey := value])
  {
    var name := "cache:" + cacheKey;
    assert name[..6] == "cache:";
    CacheKeysOutsideNamespace(name);
    OtherNamespaceInvisible(kv, name, value, settings);
  }

  /** The cache's delete of any `cache:` entry leaves the valid GET responses
      of the settings store unchanged. */
  lemma CacheDeleteInvisible(kv: map<string, string>, cacheKey: string, settings: seq<Setting>)
    ensures ListsExactly(settings, kv) <==> ListsExactly(settings, kv - {"cache:" + cacheKey})
  {
    var name := "cache:" + cacheKey;
    assert name[..6] == "cache:";
    CacheKeysOutsideNamespace(name);
    OtherNamespaceRemovalInvisible(kv, name, settings);
  }
}
