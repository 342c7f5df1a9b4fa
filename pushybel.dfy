/** The service layer of pushybel.js: transaction bodies over the store that
    keep config entries, push clients and mission-control sessions, each
    upholding "at most one entry per key"; the listener registry; and the
    session-expiry rule. Every body is a function from the store it starts
    on to its result and the store it leaves. */
module Pushybel {

  import opened Wrappers
  import opened Json
  import opened Disk
  import opened JsonDatabase

  const ConfigTable := "config"
  const ClientsTable := "clients"
  const SessionsTable := "sessions"

  /** A session lives for 24 hours, in milliseconds. */
  const SessionLifetime := 24 * 60 * 60 * 1000

  /** What a transaction body returns, with the store it leaves. */
  datatype Reply<T> = Reply(result: Result<T, Error>, store: Store)

  // ---------------------------------------------------------------------
  // Keyed lookups

  /** `entry => entry.data[field] === v`, evaluated against the store `s`. */
  function Matches(s: Store, field: string, v: Value): EntryRef -> bool
  {
    e => Data(s, e).Ok? && Member(Data(s, e).value, field) == Some(v)
  }

  /** `table.where(entry => entry.data[field] === v)`: the predicate reads
      every entry, so one unreadable entry throws. */
  function WhereField(s: Store, t: string, field: string, v: Value): (r: Result<seq<EntryRef>, Error>)
    ensures r.Ok? <==> Entries(s, t).Ok? && ReadAll(s, Entries(s, t).value).Ok?
    ensures r.Ok? ==> forall i :: 0 <= i < |r.value| ==>
                        Data(s, r.value[i]).Ok? && Member(Data(s, r.value[i]).value, field) == Some(v)
  {
    var es :- Entries(s, t);
    var docs :- ReadAll(s, es);
    Ok(Selected(es, Matches(s, field, v)))
  }

  // ---------------------------------------------------------------------
  // Config

  /** `#_load_config(key)`: the `value` of the one config entry whose `key`
      is `key`; None for no such entry (null) or no `value` member
      (undefined); throws on duplicates. */
  function LoadConfig(s: Store, key: string): (r: Reply<Option<Value>>)
  {
    var s1 := OpenTable(s, ConfigTable).value;
    match WhereField(s1, ConfigTable, "key", Str(key))
    case Err(e) => Reply(Err(e), s1)
    case Ok(es) =>
      if |es| > 1 then Reply(Err(Duplicate), s1)
      else if |es| == 1 then
        match Data(s1, es[0])
        case Ok(doc) => Reply(Ok(Member(doc, "value")), s1)
        case Err(e) => Reply(Err(e), s1)
      else Reply(Ok(None), s1)
  }

  /** The object `#_store_config` merges into the entry. */
  function ConfigDoc(key: string, value: Value): (d: Doc)
    ensures Member(d, "key") == Some(Str(key)) && Member(d, "value") == Some(value)
  {
    map["key" := Str(key), "value" := value]
  }

  /** `#_store_config(key, value)`: merges `{key, value}` into the one
      entry with that key, or into a new entry (id `uuid`) when there is
      none; throws on duplicates. */
  function StoreConfig(s: Store, key: string, value: Value, uuid: string): (r: Reply<()>)
  {
    var s1 := OpenTable(s, ConfigTable).value;
    match WhereField(s1, ConfigTable, "key", Str(key))
    case Err(e) => Reply(Err(e), s1)
    case Ok(es) =>
      if |es| > 1 then Reply(Err(Duplicate), s1)
      else
        var target: Result<(EntryRef, Store), Error> :=
          if |es| == 1 then Ok((es[0], s1)) else Construct(s1, ConfigTable, "", uuid);
        match target
        case Err(e) => Reply(Err(e), s1)
        case Ok(made) =>
          var (entry, s2) := made;
          match Set(s2, entry, ConfigDoc(key, value), false)
          case Ok(s3) => Reply(Ok(()), s3)
          case Err(e) => Reply(Err(e), s2)
  }

  // ---------------------------------------------------------------------
  // Clients

  /** `#_get_client(uuid)`: the data of the one client with that uuid, None
      (null) when there is none; throws on duplicates. */
  function GetClient(s: Store, uuid: string): (r: Reply<Option<Doc>>)
  {
    var s1 := OpenTable(s, ClientsTable).value;
    match WhereField(s1, ClientsTable, "uuid", Str(uuid))
    case Err(e) => Reply(Err(e), s1)
    case Ok(es) =>
      if |es| > 1 then Reply(Err(Duplicate), s1)
      else if |es| == 1 then
        match Data(s1, es[0])
        case Ok(doc) => Reply(Ok(Some(doc)), s1)
        case Err(e) => Reply(Err(e), s1)
      else Reply(Ok(None), s1)
  }

  /** `#_update_client(client, subscription)`: rewrites the `subscription`
      of the one client with that uuid; throws when there is none or more
      than one. */
  function UpdateClient(s: Store, uuid: string, subscription: Value): (r: Reply<()>)
  {
    var s1 := OpenTable(s, ClientsTable).value;
    match WhereField(s1, ClientsTable, "uuid", Str(uuid))
    case Err(e) => Reply(Err(e), s1)
    case Ok(es) =>
      if |es| > 1 then Reply(Err(Duplicate), s1)
      else if |es| == 0 then Reply(Err(NoSuchClient), s1)
      else
        match Data(s1, es[0])
        case Err(e) => Reply(Err(e), s1)
        case Ok(doc) =>
          match Set(s1, es[0], Spread(doc, map["subscription" := subscription]), false)
          case Ok(s2) => Reply(Ok(()), s2)
          case Err(e) => Reply(Err(e), s1)
  }

  /** `#_remove_client(client)`: deletes the file of the one client with
      that uuid; throws when there is none or more than one. */
  function RemoveClient(s: Store, uuid: string): (r: Reply<()>)
  {
    var s1 := OpenTable(s, ClientsTable).value;
    match WhereField(s1, ClientsTable, "uuid", Str(uuid))
    case Err(e) => Reply(Err(e), s1)
    case Ok(es) =>
      if |es| > 1 then Reply(Err(Duplicate), s1)
      else if |es| == 0 then Reply(Err(NoSuchClient), s1)
      else
        match Confirm(s1, DropRequest(EntryTarget(es[0])))
        case Ok(s2) => Reply(Ok(()), s2)
        case Err(e) => Reply(Err(e), s1)
  }

  // ---------------------------------------------------------------------
  // At most one entry per key

  /** `uuid` is a usable fresh id for table `t`: `<uuid>.json` lists as
      `uuid` and is not already taken. */
  predicate FreshIn(s: Store, t: string, uuid: string)
  {
    uuid != "" && IdOf(FileName(uuid)) == uuid && (t in s ==> FileName(uuid) !in s[t].names)
  }

  /** `db.table(name)` keeps the store well formed. */
  lemma TableOpened(s: Store, name: string)
    requires StoreWellFormed(s) && name != ""
    ensures StoreWellFormed(OpenTable(s, name).value)
  {
    var s1 := OpenTable(s, name).value;
    forall t | t in s1 ensures WellFormed(s1[t]) {
      if t !in s {
        assert s1[t] == Dir([], map[]);
      }
    }
  }

  /** WhereField is the listing filtered by Matches, once every entry reads. */
  lemma WhereFieldValue(s: Store, t: string, field: string, v: Value)
    requires Entries(s, t).Ok? && ReadAll(s, Entries(s, t).value).Ok?
    ensures WhereField(s, t, field, v) == Ok(Selected(Entries(s, t).value, Matches(s, field, v)))
  {
  }

  /** Rewriting a readable listed entry keeps the listing. */
  lemma RewriteListing(s: Store, t: string, e: EntryRef, obj: Doc)
    requires StoreWellFormed(s)
    requires Entries(s, t).Ok? && e in Entries(s, t).value && Data(s, e).Ok?
    ensures Write(s, e, obj).Ok?
    ensures Entries(Write(s, e, obj).value, t) == Entries(s, t)
  {
    Listed(s, t, e);
    assert WellFormed(s[t]);
    var n := FileName(e.id);
    var d' := WriteFile(s[t], n, Parsed(obj)).value;
    assert d'.names == s[t].names && d'.files.Keys == s[t].files.Keys;
    EntriesAfterRewrite(s, s[t := d'], t);
  }

  /** After the rewrite every listed entry still reads, and matches exactly
      when it did before. */
  lemma RewriteMatches(s: Store, t: string, field: string, v: Value, e: EntryRef, obj: Doc)
    requires Write(s, e, obj).Ok?
    requires Entries(s, t).Ok? && ReadAll(s, Entries(s, t).value).Ok?
    requires e in Selected(Entries(s, t).value, Matches(s, field, v))
    requires Selected(Entries(s, t).value, Matches(s, field, v)) == [e]
    requires Member(obj, field) == Some(v)
    ensures var es, s' := Entries(s, t).value, Write(s, e, obj).value;
            forall i :: 0 <= i < |es| ==>
              Data(s', es[i]).Ok? && Matches(s', field, v)(es[i]) == Matches(s, field, v)(es[i])
  {
    var es, s' := Entries(s, t).value, Write(s, e, obj).value;
    forall i | 0 <= i < |es|
      ensures Data(s', es[i]).Ok? && Matches(s', field, v)(es[i]) == Matches(s, field, v)(es[i])
    {
      var x := es[i];
      Listed(s, t, x);
      Listed(s, t, e);
      FileNameInjective(x.id, e.id);
      WriteThenData(s, e, obj, x);
      if x != e {
        assert x !in Selected(es, Matches(s, field, v));
      }
    }
  }

  /** Rewriting the one entry matching `field == v` with a document that
      still matches keeps it the one match. */
  lemma RewriteKeepsUnique(s: Store, t: string, field: string, v: Value, e: EntryRef, obj: Doc)
    requires StoreWellFormed(s)
    requires WhereField(s, t, field, v) == Ok([e])
    requires Member(obj, field) == Some(v)
    ensures Write(s, e, obj).Ok?
    ensures Data(Write(s, e, obj).value, e) == Ok(obj)
    ensures WhereField(Write(s, e, obj).value, t, field, v) == Ok([e])
  {
    var es := Entries(s, t).value;
    WhereFieldValue(s, t, field, v);
    assert Selected(es, Matches(s, field, v)) == [e];
    assert e in Selected(es, Matches(s, field, v));
    RewriteListing(s, t, e, obj);
    var s' := Write(s, e, obj).value;
    RewriteMatches(s, t, field, v, e, obj);
    assert ReadAll(s', es).Ok?;
    SelectedAgree(es, Matches(s', field, v), Matches(s, field, v));
    WhereFieldValue(s', t, field, v);
    WriteThenData(s, e, obj, e);
  }

  /** `entry()` then a merge of `obj` into its `{}` writes exactly `obj`. */
  lemma NewEntryWrite(s: Store, t: string, uuid: string, obj: Doc)
    requires t in s && FreshIn(s, t, uuid)
    ensures Construct(s, t, "", uuid).Ok?
    ensures var (e, s2) := Construct(s, t, "", uuid).value;
            && Set(s2, e, obj, false) == Write(s2, e, obj)
            && Write(s2, e, obj).Ok?
            && e == EntryRef(t, uuid)
            && Write(s2, e, obj).value[t].names == s[t].names + [FileName(uuid)]
            && Write(s2, e, obj).value[t].files.Keys == s[t].files.Keys + {FileName(uuid)}
            && (forall x: EntryRef :: x != e ==> Data(Write(s2, e, obj).value, x) == Data(s, x))
            && Data(Write(s2, e, obj).value, e) == Ok(obj)
  {
    ConstructFresh(s, t, uuid);
    var (e, s2) := Construct(s, t, "", uuid).value;
    assert Data(s2, e) == Ok(map[]);
    assert Spread(map[], obj) == obj;
    WriteThenData(s2, e, obj, e);
    forall x: EntryRef | x != e
      ensures Data(Write(s2, e, obj).value, x) == Data(s, x)
    {
      FileNameInjective(x.id, uuid);
      WriteThenData(s2, e, obj, x);
    }
  }

  /** A store that adds `<uuid>.json` holding a matching document to a
      table with no match, and changes no other entry, has that new entry
      as the one match. */
  lemma AddedEntryUnique(s: Store, s3: Store, t: string, field: string, v: Value, uuid: string, obj: Doc)
    requires t in s && t in s3 && FreshIn(s, t, uuid)
    requires WhereField(s, t, field, v) == Ok([])
    requires s3[t].names == s[t].names + [FileName(uuid)]
    requires s3[t].files.Keys == s[t].files.Keys + {FileName(uuid)}
    requires forall x: EntryRef :: x.table == t && x.id != uuid ==> Data(s3, x) == Data(s, x)
    requires Data(s3, EntryRef(t, uuid)) == Ok(obj) && Member(obj, field) == Some(v)
    ensures WhereField(s3, t, field, v) == Ok([EntryRef(t, uuid)])
  {
    EntriesAfterNewFile(s, s3, t, uuid);
    OthersUnmatched(s, s3, t, field, v, uuid);
    OnlyLastMatches(s3, t, field, v, Entries(s, t).value, EntryRef(t, uuid));
  }

  /** A listing where only the last entry matches, and every entry reads,
      has that entry as the one match. */
  lemma OnlyLastMatches(s: Store, t: string, field: string, v: Value, es: seq<EntryRef>, e: EntryRef)
    requires Entries(s, t) == Ok(es + [e])
    requires forall i :: 0 <= i < |es| ==> Data(s, es[i]).Ok? && !Matches(s, field, v)(es[i])
    requires Data(s, e).Ok? && Matches(s, field, v)(e)
    ensures WhereField(s, t, field, v) == Ok([e])
  {
    assert ReadAll(s, es + [e]).Ok?;
    SelectedOnlyLast(es, e, Matches(s, field, v));
    WhereFieldValue(s, t, field, v);
  }

  /** The entries listed before the new one still read and still do not match. */
  lemma OthersUnmatched(s: Store, s3: Store, t: string, field: string, v: Value, uuid: string)
    requires t in s && FreshIn(s, t, uuid)
    requires WhereField(s, t, field, v) == Ok([])
    requires forall x: EntryRef :: x.table == t && x.id != uuid ==> Data(s3, x) == Data(s, x)
    ensures var es := Entries(s, t).value;
            forall i :: 0 <= i < |es| ==> Data(s3, es[i]).Ok? && !Matches(s3, field, v)(es[i])
  {
    var es := Entries(s, t).value;
    WhereFieldValue(s, t, field, v);
    forall i | 0 <= i < |es|
      ensures Data(s3, es[i]).Ok? && !Matches(s3, field, v)(es[i])
    {
      var x := es[i];
      Listed(s, t, x);
      assert x !in Selected(es, Matches(s, field, v));
    }
  }

  /** A new entry (id `uuid`) written with a matching document in a table
      with no match becomes the one match. */
  lemma NewEntryUnique(s: Store, t: string, field: string, v: Value, uuid: string, obj: Doc)
    requires t in s && FreshIn(s, t, uuid)
    requires WhereField(s, t, field, v) == Ok([])
    requires Member(obj, field) == Some(v)
    ensures Construct(s, t, "", uuid).Ok?
    ensures var (e, s2) := Construct(s, t, "", uuid).value;
            && Set(s2, e, obj, false).Ok?
            && Data(Set(s2, e, obj, false).value, e) == Ok(obj)
            && WhereField(Set(s2, e, obj, false).value, t, field, v) == Ok([e])
  {
    NewEntryWrite(s, t, uuid, obj);
    var (e, s2) := Construct(s, t, "", uuid).value;
    AddedEntryUnique(s, Write(s2, e, obj).value, t, field, v, uuid, obj);
  }

  /** The one entry matching a key is what `#_load_config` reads. */
  lemma LoadUnique(s: Store, key: string, e: EntryRef, doc: Doc)
    requires ConfigTable in s
    requires WhereField(s, ConfigTable, "key", Str(key)) == Ok([e])
    requires Data(s, e) == Ok(doc)
    ensures LoadConfig(s, key) == Reply(Ok(Member(doc, "value")), s)
  {
  }

  /** `#_load_config` only opens the config table; it answers null when no
      entry holds the key, throws when two do, and succeeds exactly when
      the lookup finds at most one. */
  lemma LoadConfigOutcome(s: Store, key: string)
    ensures var s1, r := OpenTable(s, ConfigTable).value, LoadConfig(s, key);
            var w := WhereField(s1, ConfigTable, "key", Str(key));
            && r.store == s1
            && (w == Ok([]) ==> r.result == Ok(None))
            && (w.Ok? && |w.value| > 1 ==> r.result == Err(Duplicate))
            && (r.result.Ok? <==> w.Ok? && |w.value| <= 1)
  {
    var s1 := OpenTable(s, ConfigTable).value;
    var w := WhereField(s1, ConfigTable, "key", Str(key));
    if w.Ok? && |w.value| == 1 {
      assert Data(s1, w.value[0]).Ok?;
    }
  }

  /** With one entry for the key, `#_store_config` merges into it. */
  lemma StoreConfigUpdates(s1: Store, key: string, value: Value, e: EntryRef)
    requires StoreWellFormed(s1)
    requires WhereField(s1, ConfigTable, "key", Str(key)) == Ok([e])
    ensures Set(s1, e, ConfigDoc(key, value), false).Ok?
    ensures ConfigHeld(Set(s1, e, ConfigDoc(key, value), false).value, key, value, e)
  {
    var obj := ConfigDoc(key, value);
    var merged := Spread(Data(s1, e).value, obj);
    assert Set(s1, e, obj, false) == Write(s1, e, merged);
    RewriteKeepsUnique(s1, ConfigTable, "key", Str(key), e, merged);
  }

  /** The store `#_store_config` leaves when it merges into the one entry
      already holding the key. */
  lemma StoreConfigMerged(s: Store, key: string, value: Value, uuid: string, e: EntryRef)
    requires WhereField(OpenTable(s, ConfigTable).value, ConfigTable, "key", Str(key)) == Ok([e])
    requires Set(OpenTable(s, ConfigTable).value, e, ConfigDoc(key, value), false).Ok?
    ensures StoreConfig(s, key, value, uuid)
            == Reply(Ok(()), Set(OpenTable(s, ConfigTable).value, e, ConfigDoc(key, value), false).value)
  {
  }

  /** The store `#_store_config` leaves when it creates the entry. */
  lemma StoreConfigCreated(s: Store, key: string, value: Value, uuid: string)
    requires WhereField(OpenTable(s, ConfigTable).value, ConfigTable, "key", Str(key)) == Ok([])
    requires Construct(OpenTable(s, ConfigTable).value, ConfigTable, "", uuid).Ok?
    requires var (e, s2) := Construct(OpenTable(s, ConfigTable).value, ConfigTable, "", uuid).value;
             Set(s2, e, ConfigDoc(key, value), false).Ok?
    ensures var (e, s2) := Construct(OpenTable(s, ConfigTable).value, ConfigTable, "", uuid).value;
            StoreConfig(s, key, value, uuid) == Reply(Ok(()), Set(s2, e, ConfigDoc(key, value), false).value)
  {
  }

  /** `#_store_config` succeeds only when at most one entry holds the key. */
  lemma StoreConfigFound(s: Store, key: string, value: Value, uuid: string)
    requires StoreConfig(s, key, value, uuid).result.Ok?
    ensures var found := WhereField(OpenTable(s, ConfigTable).value, ConfigTable, "key", Str(key));
            found.Ok? && |found.value| <= 1
  {
  }

  /** Every entry but `e` reads in `s'` as it did in `s`. */
  ghost predicate OthersKept(s: Store, s': Store, e: EntryRef)
  {
    forall x: EntryRef :: x != e ==> Data(s', x) == Data(s, x)
  }

  /** What `#_store_config` leaves: exactly one entry `e` with the key,
      holding the value. */
  predicate ConfigHeld(s': Store, key: string, value: Value, e: EntryRef)
  {
    && ConfigTable in s'
    && WhereField(s', ConfigTable, "key", Str(key)) == Ok([e])
    && Data(s', e).Ok? && Member(Data(s', e).value, "value") == Some(value)
  }

  /** The one entry a successful single-match lookup finds. */
  lemma ConfigLookupOne(s: Store, key: string) returns (e: EntryRef)
    requires StoreWellFormed(s)
    requires var found := WhereField(OpenTable(s, ConfigTable).value, ConfigTable, "key", Str(key));
             found.Ok? && |found.value| == 1
    ensures StoreWellFormed(OpenTable(s, ConfigTable).value)
    ensures WhereField(OpenTable(s, ConfigTable).value, ConfigTable, "key", Str(key)) == Ok([e])
  {
    TableOpened(s, ConfigTable);
    var found := WhereField(OpenTable(s, ConfigTable).value, ConfigTable, "key", Str(key));
    Single(found.value);
    e := found.value[0];
  }

  /** The merge case of StoreConfigEffect. */
  lemma StoreConfigEffectMerged(s: Store, key: string, value: Value, uuid: string, e: EntryRef)
    requires StoreWellFormed(OpenTable(s, ConfigTable).value)
    requires WhereField(OpenTable(s, ConfigTable).value, ConfigTable, "key", Str(key)) == Ok([e])
    ensures StoreConfig(s, key, value, uuid).result.Ok?
    ensures ConfigHeld(StoreConfig(s, key, value, uuid).store, key, value, e)
    ensures OthersKept(OpenTable(s, ConfigTable).value, StoreConfig(s, key, value, uuid).store, e)
  {
    var s1 := OpenTable(s, ConfigTable).value;
    StoreConfigUpdates(s1, key, value, e);
    StoreConfigMerged(s, key, value, uuid, e);
    MergeOthers(s1, e, ConfigDoc(key, value));
  }

  /** A merging `set` of one entry leaves every other entry's data as it was. */
  lemma MergeOthers(s: Store, e: EntryRef, obj: Doc)
    requires Set(s, e, obj, false).Ok?
    ensures OthersKept(s, Set(s, e, obj, false).value, e)
  {
    var merged := Spread(Data(s, e).value, obj);
    assert Set(s, e, obj, false) == Write(s, e, merged);
    WriteOthers(s, e, merged);
  }

  /** The create case of StoreConfigEffect. */
  lemma StoreConfigEffectCreated(s: Store, key: string, value: Value, uuid: string) returns (e: EntryRef)
    requires FreshIn(s, ConfigTable, uuid)
    requires WhereField(OpenTable(s, ConfigTable).value, ConfigTable, "key", Str(key)) == Ok([])
    ensures StoreConfig(s, key, value, uuid).result.Ok?
    ensures ConfigHeld(StoreConfig(s, key, value, uuid).store, key, value, e)
    ensures OthersKept(OpenTable(s, ConfigTable).value, StoreConfig(s, key, value, uuid).store, e)
  {
    var s1 := OpenTable(s, ConfigTable).value;
    NewEntryUnique(s1, ConfigTable, "key", Str(key), uuid, ConfigDoc(key, value));
    NewEntryWrite(s1, ConfigTable, uuid, ConfigDoc(key, value));
    e := Construct(s1, ConfigTable, "", uuid).value.0;
    StoreConfigCreated(s, key, value, uuid);
  }

  /** When the lookup succeeds with at most one entry for the key,
      `#_store_config` succeeds and leaves exactly one entry with the key,
      holding the value; every other entry reads as it did. */
  lemma StoreConfigEffect(s: Store, key: string, value: Value, uuid: string) returns (e: EntryRef)
    requires StoreWellFormed(s) && FreshIn(s, ConfigTable, uuid)
    requires var found := WhereField(OpenTable(s, ConfigTable).value, ConfigTable, "key", Str(key));
             found.Ok? && |found.value| <= 1
    ensures StoreConfig(s, key, value, uuid).result.Ok?
    ensures ConfigHeld(StoreConfig(s, key, value, uuid).store, key, value, e)
    ensures OthersKept(OpenTable(s, ConfigTable).value, StoreConfig(s, key, value, uuid).store, e)
  {
    var found := WhereField(OpenTable(s, ConfigTable).value, ConfigTable, "key", Str(key));
    if |found.value| == 1 {
      e := ConfigLookupOne(s, key);
      StoreConfigEffectMerged(s, key, value, uuid, e);
    } else {
      e := StoreConfigEffectCreated(s, key, value, uuid);
    }
  }

  /** `#_store_config(key, value)` then `#_load_config(key)` gives back
      `value`, and the key is then held by exactly one entry. */
  lemma StoreThenLoad(s: Store, key: string, value: Value, uuid: string)
    requires StoreWellFormed(s) && FreshIn(s, ConfigTable, uuid)
    requires StoreConfig(s, key, value, uuid).result.Ok?
    ensures var s' := StoreConfig(s, key, value, uuid).store;
            && WhereField(s', ConfigTable, "key", Str(key)).Ok?
            && |WhereField(s', ConfigTable, "key", Str(key)).value| == 1
            && LoadConfig(s', key) == Reply(Ok(Some(value)), s')
  {
    StoreConfigFound(s, key, value, uuid);
    var e := StoreConfigEffect(s, key, value, uuid);
    var s' := StoreConfig(s, key, value, uuid).store;
    LoadUnique(s', key, e, Data(s', e).value);
  }

  // ---------------------------------------------------------------------
  // Clients: what the lookups promise

  /** `#_get_client` only opens the client table; it answers null exactly
      when every listed client reads and none has the uuid, and throws when
      two have it. */
  lemma GetClientNone(s: Store, uuid: string)
    ensures var s1, r := OpenTable(s, ClientsTable).value, GetClient(s, uuid);
            var es := Entries(s1, ClientsTable);
            && r.store == s1
            && (r.result == Ok(None) <==>
                  es.Ok? && ReadAll(s1, es.value).Ok? && forall x :: x in es.value ==> !Matches(s1, "uuid", Str(uuid))(x))
            && (var w := WhereField(s1, ClientsTable, "uuid", Str(uuid));
                w.Ok? && |w.value| > 1 ==> r.result == Err(Duplicate))
  {
    var s1 := OpenTable(s, ClientsTable).value;
    var w := WhereField(s1, ClientsTable, "uuid", Str(uuid));
    if w.Ok? {
      WhereFieldValue(s1, ClientsTable, "uuid", Str(uuid));
      if |w.value| > 0 {
        assert w.value[0] in w.value;
      }
    }
  }

  /** A client `#_get_client` returns is the data of the one client
      whose `uuid` member is the uuid asked for. */
  lemma GetClientFound(s: Store, uuid: string) returns (e: EntryRef)
    requires GetClient(s, uuid).result.Ok? && GetClient(s, uuid).result.value.Some?
    ensures var s1, doc := OpenTable(s, ClientsTable).value, GetClient(s, uuid).result.value.value;
            && WhereField(s1, ClientsTable, "uuid", Str(uuid)) == Ok([e])
            && Data(s1, e) == Ok(doc)
            && Member(doc, "uuid") == Some(Str(uuid))
  {
    var s1 := OpenTable(s, ClientsTable).value;
    var w := WhereField(s1, ClientsTable, "uuid", Str(uuid));
    assert w.Ok? && |w.value| == 1;
    e := w.value[0];
    assert w.value == [e];
  }

  /** `#_update_client` succeeds exactly when one client has the uuid. */
  lemma UpdateClientOutcome(s: Store, uuid: string, subscription: Value)
    requires StoreWellFormed(s)
    ensures var w := WhereField(OpenTable(s, ClientsTable).value, ClientsTable, "uuid", Str(uuid));
            var r := UpdateClient(s, uuid, subscription).result;
            && (r.Ok? <==> w.Ok? && |w.value| == 1)
            && (w == Ok([]) ==> r == Err(NoSuchClient))
            && (w.Ok? && |w.value| > 1 ==> r == Err(Duplicate))
  {
    var s1 := OpenTable(s, ClientsTable).value;
    TableOpened(s, ClientsTable);
    var w := WhereField(s1, ClientsTable, "uuid", Str(uuid));
    if w.Ok? && |w.value| == 1 {
      var e := w.value[0];
      assert Data(s1, e).Ok?;
      var doc := Data(s1, e).value;
      SetKeepsListing(s1, e, Spread(doc, map["subscription" := subscription]), false);
    }
  }

  /** Rewriting the one matching client with its `subscription` replaced:
      the client reads back with only that field changed, no other entry
      changes, and the client is still the one `#_get_client` finds. */
  lemma SubscriptionRewrite(s1: Store, uuid: string, subscription: Value, e: EntryRef)
    requires StoreWellFormed(s1) && ClientsTable in s1
    requires WhereField(s1, ClientsTable, "uuid", Str(uuid)) == Ok([e])
    ensures Data(s1, e).Ok?
    ensures var merged := Spread(Data(s1, e).value, map["subscription" := subscription]);
            && merged == Data(s1, e).value["subscription" := subscription]
            && Set(s1, e, merged, false) == Write(s1, e, merged)
            && Write(s1, e, merged).Ok?
            && Data(Write(s1, e, merged).value, e) == Ok(merged)
            && (forall x: EntryRef :: x != e ==> Data(Write(s1, e, merged).value, x) == Data(s1, x))
            && ClientsTable in Write(s1, e, merged).value
            && WhereField(Write(s1, e, merged).value, ClientsTable, "uuid", Str(uuid)) == Ok([e])
  {
    var doc := Data(s1, e).value;
    var merged := Spread(doc, map["subscription" := subscription]);
    SpreadOne(doc, "subscription", subscription);
    assert Member(merged, "uuid") == Member(doc, "uuid");
    RewriteKeepsUnique(s1, ClientsTable, "uuid", Str(uuid), e, merged);
    WriteOthers(s1, e, merged);
  }

  /** Writing one entry leaves every other entry's data as it was. */
  lemma WriteOthers(s: Store, e: EntryRef, obj: Doc)
    requires Write(s, e, obj).Ok?
    ensures forall x: EntryRef :: x != e ==> Data(Write(s, e, obj).value, x) == Data(s, x)
  {
    forall x: EntryRef | x != e
      ensures Data(Write(s, e, obj).value, x) == Data(s, x)
    {
      FileNameInjective(x.id, e.id);
      WriteThenData(s, e, obj, x);
    }
  }

  /** `#_update_client` replaces the one client's `subscription`, keeps its
      other fields and every other entry, and the client is still the one
      `#_get_client` finds. */
  lemma UpdateClientEffect(s: Store, uuid: string, subscription: Value, e: EntryRef)
    requires StoreWellFormed(s)
    requires WhereField(OpenTable(s, ClientsTable).value, ClientsTable, "uuid", Str(uuid)) == Ok([e])
    ensures var s1, r := OpenTable(s, ClientsTable).value, UpdateClient(s, uuid, subscription);
            && r.result.Ok?
            && Data(s1, e).Ok?
            && Data(r.store, e) == Ok(Data(s1, e).value["subscription" := subscription])
            && (forall x: EntryRef :: x != e ==> Data(r.store, x) == Data(s1, x))
            && GetClient(r.store, uuid) == Reply(Ok(Some(Data(s1, e).value["subscription" := subscription])), r.store)
  {
    var s1 := OpenTable(s, ClientsTable).value;
    TableOpened(s, ClientsTable);
    SubscriptionRewrite(s1, uuid, subscription, e);
    var merged := Spread(Data(s1, e).value, map["subscription" := subscription]);
    UpdateClientStore(s, uuid, subscription, e);
    GetUnique(Write(s1, e, merged).value, uuid, e, merged);
  }

  /** The one client matching a uuid is what `#_get_client` returns. */
  lemma GetUnique(s: Store, uuid: string, e: EntryRef, doc: Doc)
    requires ClientsTable in s
    requires WhereField(s, ClientsTable, "uuid", Str(uuid)) == Ok([e])
    requires Data(s, e) == Ok(doc)
    ensures GetClient(s, uuid) == Reply(Ok(Some(doc)), s)
  {
  }

  /** The store `#_update_client` leaves when one client has the uuid. */
  lemma UpdateClientStore(s: Store, uuid: string, subscription: Value, e: EntryRef)
    requires WhereField(OpenTable(s, ClientsTable).value, ClientsTable, "uuid", Str(uuid)) == Ok([e])
    requires Data(OpenTable(s, ClientsTable).value, e).Ok?
    requires var s1 := OpenTable(s, ClientsTable).value;
             Set(s1, e, Spread(Data(s1, e).value, map["subscription" := subscription]), false).Ok?
    ensures var s1 := OpenTable(s, ClientsTable).value;
            UpdateClient(s, uuid, subscription)
            == Reply(Ok(()), Set(s1, e, Spread(Data(s1, e).value, map["subscription" := subscription]), false).value)
  {
  }

  /** `#_remove_client` deletes the one client's file and no other, after
      which `#_get_client` finds no client with the uuid. */
  lemma RemoveClientEffect(s: Store, uuid: string, e: EntryRef)
    requires WhereField(OpenTable(s, ClientsTable).value, ClientsTable, "uuid", Str(uuid)) == Ok([e])
    ensures var s1, r := OpenTable(s, ClientsTable).value, RemoveClient(s, uuid);
            && r.result.Ok?
            && Data(r.store, e).Err? && FileName(e.id) !in r.store[ClientsTable].names
            && (forall x: EntryRef :: x != e ==> Data(r.store, x) == Data(s1, x))
            && GetClient(r.store, uuid) == Reply(Ok(None), r.store)
  {
    var s1 := OpenTable(s, ClientsTable).value;
    var req := DropRequest(EntryTarget(e));
    assert e in [e];
    Listed(s1, ClientsTable, e);
    ConfirmFails(s1, req);
    var s2 := Confirm(s1, req).value;
    assert RemoveClient(s, uuid) == Reply(Ok(()), s2);
    forall x: EntryRef | x != e
      ensures Data(s2, x) == Data(s1, x)
    {
      FileNameInjective(x.id, e.id);
      ConfirmRemoves(s1, req, x);
    }
    ConfirmRemoves(s1, req, e);
    RemovalListable(s1, s2, uuid, e);
    RemovedClientGone(s1, s2, uuid, e);
  }

  /** Once the one matching client's file is removed, no client matches. */
  lemma RemovedClientGone(s1: Store, s2: Store, uuid: string, e: EntryRef)
    requires WhereField(s1, ClientsTable, "uuid", Str(uuid)) == Ok([e])
    requires ClientsTable in s2 && Entries(s2, ClientsTable).Ok?
    requires forall m :: m in s2[ClientsTable].names ==> m in s1[ClientsTable].names
    requires s2[ClientsTable].files == s1[ClientsTable].files - {FileName(e.id)}
    requires FileName(e.id) !in s2[ClientsTable].names
    requires forall x: EntryRef :: x != e ==> Data(s2, x) == Data(s1, x)
    ensures GetClient(s2, uuid) == Reply(Ok(None), s2)
  {
    var es1 := Entries(s1, ClientsTable).value;
    var es2 := Entries(s2, ClientsTable).value;
    EntriesAfterRemove(s1, s2, ClientsTable, e.id);
    WhereFieldValue(s1, ClientsTable, "uuid", Str(uuid));
    var M1, M2 := Matches(s1, "uuid", Str(uuid)), Matches(s2, "uuid", Str(uuid));
    forall i | 0 <= i < |es2|
      ensures Data(s2, es2[i]).Ok? && !M2(es2[i])
    {
      var x := es2[i];
      assert x in es1 && x != e;
      assert x !in Selected(es1, M1);
    }
    assert ReadAll(s2, es2).Ok?;
    SelectedNone(es2, M2);
    WhereFieldValue(s2, ClientsTable, "uuid", Str(uuid));
    assert OpenTable(s2, ClientsTable).value == s2;
  }

  /** The one client matching a uuid owns the only listed file whose id
      is its id: a second such file would list the client twice, and the
      lookup would find it twice. */
  lemma OnlyFileOf(s1: Store, uuid: string, e: EntryRef, n: string)
    requires WhereField(s1, ClientsTable, "uuid", Str(uuid)) == Ok([e])
    requires n in s1[ClientsTable].names && n in s1[ClientsTable].files
    ensures IdOf(n) == e.id ==> n == FileName(e.id)
  {
    var T := ClientsTable;
    if IdOf(n) == e.id {
      var es := Entries(s1, T).value;
      var M := Matches(s1, "uuid", Str(uuid));
      var f := FileName(e.id);
      assert e in [e];
      Listed(s1, T, e);
      WhereFieldValue(s1, T, "uuid", Str(uuid));
      assert Selected(es, M) == [e] && M(e);
      SelectedKeeps(es, M, e);
      assert multiset(es)[e] == 1;
      assert Data(s1, e).Ok? && f in s1[T].files;
      IdOfStable(n);
      var fs := FilesOf(s1[T], s1[T].names);
      assert n in fs && f in fs;
      var i :| 0 <= i < |fs| && fs[i] == n;
      var j :| 0 <= j < |fs| && fs[j] == f;
      assert es[i] == e && es[j] == e;
      TwiceAt(es, i, j);
    }
  }

  /** Removing the file of the one client matching a uuid leaves the
      client table listable. */
  lemma RemovalListable(s1: Store, s2: Store, uuid: string, e: EntryRef)
    requires WhereField(s1, ClientsTable, "uuid", Str(uuid)) == Ok([e])
    requires ClientsTable in s2
    requires forall m :: m in s2[ClientsTable].names <==> m in s1[ClientsTable].names && m != FileName(e.id)
    requires s2[ClientsTable].files == s1[ClientsTable].files - {FileName(e.id)}
    ensures Entries(s2, ClientsTable).Ok?
  {
    var T := ClientsTable;
    var d1, d2 := s1[T], s2[T];
    forall n | n in d2.names && n in d2.files
      ensures Listable(d2, n)
    {
      assert n in d1.names && n in d1.files && n != FileName(e.id);
      assert Listable(d1, n);
      OnlyFileOf(s1, uuid, e, n);
      FileNameInjective(IdOf(n), e.id);
    }
  }

  /** `#_remove_client` succeeds exactly when one client has the uuid. */
  lemma RemoveClientOutcome(s: Store, uuid: string)
    ensures var w := WhereField(OpenTable(s, ClientsTable).value, ClientsTable, "uuid", Str(uuid));
            var r := RemoveClient(s, uuid).result;
            && (r.Ok? <==> w.Ok? && |w.value| == 1)
            && (w == Ok([]) ==> r == Err(NoSuchClient))
            && (w.Ok? && |w.value| > 1 ==> r == Err(Duplicate))
  {
    var s1 := OpenTable(s, ClientsTable).value;
    var w := WhereField(s1, ClientsTable, "uuid", Str(uuid));
    if w.Ok? && |w.value| == 1 {
      var e := w.value[0];
      assert e in w.value;
      Listed(s1, ClientsTable, e);
      ConfirmFails(s1, DropRequest(EntryTarget(e)));
    }
  }

  // ---------------------------------------------------------------------
  // Subscriptions

  /** `#_validate_subscription` as written: `subscription !== null`. The
      request body's member is None when it is absent (`undefined`), and
      strict inequality lets that through. */
  function SubscriptionAcceptedAsWritten(subscription: Option<Value>): (ok: bool)
  {
    subscription != Some(Null)
  }

  /** A subscribe request without a subscription passes the check as written. */
  lemma MissingSubscriptionAccepted()
    ensures SubscriptionAcceptedAsWritten(None)
    ensures !ValidateSubscription(None)
  {
  }

  /** The check the route's "no or invalid subscription" comment describes:
      a subscription must be present and not null. */
  function ValidateSubscription(subscription: Option<Value>): (ok: bool)
  {
    match subscription
    case None => false
    case Some(v) => v != Null
  }

  /** The corrected check rejects both missing and null subscriptions and
      otherwise agrees with the check as written. */
  lemma ValidateSubscriptionCorrect(subscription: Option<Value>)
    ensures ValidateSubscription(subscription) <==> subscription.Some? && subscription.value != Null
    ensures subscription.Some? ==> ValidateSubscription(subscription) == SubscriptionAcceptedAsWritten(subscription)
  {
  }

  // ---------------------------------------------------------------------
  // Listeners

  /** `{event, fn}`; the handler itself is opaque and named by a number. */
  datatype Listener = Listener(event: string, fn: nat)

  /** The events `on` accepts. */
  predicate KnownEvent(event: string)
  {
    event == "subscribe" || event == "update"
  }

  /** `#_get_listeners(event)`: the registered listeners for `event`, in
      registration order. */
  function ListenersFor(events: seq<Listener>, event: string): (r: seq<Listener>)
    ensures forall l :: l in r <==> l in events && l.event == event
    ensures |r| <= |events|
  {
    Selected(events, (l: Listener) => l.event == event)
  }

  /** Registering a listener appends it to its own event's listeners and
      leaves every other event's listeners as they were. */
  lemma ListenersAfterOn(events: seq<Listener>, l: Listener, event: string)
    ensures ListenersFor(events + [l], event)
            == ListenersFor(events, event) + (if l.event == event then [l] else [])
  {
    var p := (x: Listener) => x.event == event;
    FilterAppend(events, [l], p);
    assert [l][1..] == [];
  }

  /** Listeners registered in order come back in that order. */
  lemma {:induction false} ListenersInOrder(ls: seq<Listener>, event: string)
    requires forall i :: 0 <= i < |ls| ==> ls[i].event == event
    ensures ListenersFor(ls, event) == ls
  {
    if ls != [] {
      ListenersInOrder(ls[1..], event);
      assert [ls[0]] + ls[1..] == ls;
    }
  }

  /** The `PushybelServer`'s listener registry. */
  class PushybelServer {
    var events: seq<Listener>

    /** `this.#_events = []`. */
    constructor()
      ensures events == []
    {
      events := [];
    }

    /** `on(event, fn)`: throws for an event other than "subscribe" or
        "update"; otherwise appends `{event, fn}`. */
    method On(event: string, fn: nat) returns (r: Result<(), Error>)
      modifies this
      ensures r.Ok? <==> KnownEvent(event)
      ensures r.Err? ==> r.error == InvalidEvent && events == old(events)
      ensures r.Ok? ==> events == old(events) + [Listener(event, fn)]
      ensures forall e :: ListenersFor(events, e)
                == ListenersFor(old(events), e) + (if r.Ok? && e == event then [Listener(event, fn)] else [])
    {
      if !KnownEvent(event) {
        return Err(InvalidEvent);
      }
      ListenersAppended(events, Listener(event, fn));
      events := events + [Listener(event, fn)];
      return Ok(());
    }

    /** `#_get_listeners(event)`. */
    function Listeners(event: string): (r: seq<Listener>)
      reads this
      ensures forall l :: l in r <==> l in events && l.event == event
    {
      ListenersFor(events, event)
    }
  }

  /** ListenersAfterOn for every event at once. */
  lemma ListenersAppended(events: seq<Listener>, l: Listener)
    ensures forall e :: ListenersFor(events + [l], e)
              == ListenersFor(events, e) + (if e == l.event then [l] else [])
  {
    forall e {
      ListenersAfterOn(events, l, e);
    }
  }

  // ---------------------------------------------------------------------
  // Sessions

  /** `now < session.epoch + 24h`; an epoch that is not a number gives NaN
      and the comparison fails. */
  predicate EpochValid(session: Doc, now: int)
  {
    match Member(session, "epoch")
    case Some(Num(epoch)) => now < epoch + SessionLifetime
    case _ => false
  }

  /** `session.token == token`. */
  predicate TokenValid(session: Doc, token: string)
  {
    Member(session, "token") == Some(Str(token))
  }

  /** The second transaction of `#_validate_session`:
      `db.table("sessions").entry(entry_id).drop().confirm()`. */
  function Expire(s: Store, e: EntryRef): (r: Reply<()>)
  {
    var s1 := OpenTable(s, SessionsTable).value;
    match Construct(s1, SessionsTable, e.id, "")
    case Err(err) => Reply(Err(err), s1)
    case Ok(made) =>
      var (entry, s2) := made;
      match Confirm(s2, DropRequest(EntryTarget(entry)))
      case Ok(s3) => Reply(Ok(()), s3)
      case Err(err) => Reply(Err(err), s2)
  }

  /** `MissionControl.#_validate_session({uuid, token}, now)`: false without
      both credentials or without a session for the uuid; otherwise whether
      the token matches and the session is younger than 24 hours, deleting
      the session when it is not. The clock is the parameter `now`. */
  function ValidateSession(s: Store, uuid: string, token: string, now: int): (r: Reply<bool>)
  {
    if uuid == "" || token == "" then Reply(Ok(false), s)
    else
      var s1 := OpenTable(s, SessionsTable).value;
      match WhereField(s1, SessionsTable, "uuid", Str(uuid))
      case Err(err) => Reply(Err(err), s1)
      case Ok(es) =>
        if |es| > 1 then Reply(Err(Duplicate), s1)
        else if |es| == 0 then Reply(Ok(false), s1)
        else
          match Data(s1, es[0])
          case Err(err) => Reply(Err(err), s1)
          case Ok(session) =>
            if EpochValid(session, now) then Reply(Ok(TokenValid(session, token)), s1)
            else
              var dropped := Expire(s1, es[0]);
              match dropped.result
              case Ok(_) => Reply(Ok(false), dropped.store)
              case Err(err) => Reply(Err(err), dropped.store)
  }

  /** Expiring a listed session removes its file and no other. */
  lemma ExpireRemoves(s: Store, e: EntryRef)
    requires SessionsTable in s && e.table == SessionsTable && e.id != ""
    requires FileName(e.id) in s[SessionsTable].names
    ensures var r := Expire(s, e);
            && r.result.Ok?
            && SessionsTable in r.store
            && Data(r.store, e).Err? && FileName(e.id) !in r.store[SessionsTable].names
            && forall x: EntryRef :: x != e ==> Data(r.store, x) == Data(s, x)
  {
    ConstructExisting(s, SessionsTable, e.id, "");
    var req := DropRequest(EntryTarget(e));
    ConfirmFails(s, req);
    var s2 := Confirm(s, req).value;
    assert Expire(s, e) == Reply(Ok(()), s2);
    ConfirmRemoves(s, req, e);
    forall x: EntryRef | x != e
      ensures Data(s2, x) == Data(s, x)
    {
      FileNameInjective(x.id, e.id);
      ConfirmRemoves(s, req, x);
    }
  }

  /** Without both credentials, or without a session for the uuid, the
      answer is false and nothing is deleted. */
  lemma ValidateSessionRejects(s: Store, uuid: string, token: string, now: int)
    requires uuid == "" || token == "" ||
             WhereField(OpenTable(s, SessionsTable).value, SessionsTable, "uuid", Str(uuid)) == Ok([])
    ensures ValidateSession(s, uuid, token, now).result == Ok(false)
    ensures ValidateSession(s, uuid, token, now).store == (if uuid == "" || token == "" then s else OpenTable(s, SessionsTable).value)
  {
  }

  /** With the one session for the uuid, and that session younger than 24
      hours: the answer is whether its token matches, and nothing changes. */
  lemma ValidateSessionLive(s: Store, uuid: string, token: string, now: int, e: EntryRef)
    requires uuid != "" && token != ""
    requires WhereField(OpenTable(s, SessionsTable).value, SessionsTable, "uuid", Str(uuid)) == Ok([e])
    requires Data(OpenTable(s, SessionsTable).value, e).Ok?
    requires EpochValid(Data(OpenTable(s, SessionsTable).value, e).value, now)
    ensures var s1 := OpenTable(s, SessionsTable).value;
            ValidateSession(s, uuid, token, now) == Reply(Ok(TokenValid(Data(s1, e).value, token)), s1)
  {
    ValidateSessionUnique(s, uuid, token, now, e);
  }

  /** With the one session for the uuid, and that session 24 hours old or
      older: the answer is false, its file is deleted and no other entry
      changes. */
  lemma ValidateSessionExpired(s: Store, uuid: string, token: string, now: int, e: EntryRef)
    requires uuid != "" && token != ""
    requires WhereField(OpenTable(s, SessionsTable).value, SessionsTable, "uuid", Str(uuid)) == Ok([e])
    requires Data(OpenTable(s, SessionsTable).value, e).Ok?
    requires !EpochValid(Data(OpenTable(s, SessionsTable).value, e).value, now)
    ensures var s1, r := OpenTable(s, SessionsTable).value, ValidateSession(s, uuid, token, now);
            && r.result == Ok(false)
            && SessionsTable in r.store
            && Data(r.store, e).Err? && FileName(e.id) !in r.store[SessionsTable].names
            && forall x: EntryRef :: x != e ==> Data(r.store, x) == Data(s1, x)
  {
    var s1 := OpenTable(s, SessionsTable).value;
    assert e in [e];
    Listed(s1, SessionsTable, e);
    ExpireRemoves(s1, e);
    ValidateSessionUnique(s, uuid, token, now, e);
  }

  /** With the one session for the uuid, the answer is whether its token
      matches and it is younger than 24 hours. */
  lemma ValidateSessionMeaning(s: Store, uuid: string, token: string, now: int, e: EntryRef)
    requires uuid != "" && token != ""
    requires WhereField(OpenTable(s, SessionsTable).value, SessionsTable, "uuid", Str(uuid)) == Ok([e])
    ensures var s1 := OpenTable(s, SessionsTable).value;
            && Data(s1, e).Ok?
            && ValidateSession(s, uuid, token, now).result
               == Ok(TokenValid(Data(s1, e).value, token) && EpochValid(Data(s1, e).value, now))
  {
    var s1 := OpenTable(s, SessionsTable).value;
    assert e in [e];
    if EpochValid(Data(s1, e).value, now) {
      ValidateSessionLive(s, uuid, token, now, e);
    } else {
      ValidateSessionExpired(s, uuid, token, now, e);
    }
  }

  /** What `#_validate_session` does with the one session for the uuid. */
  lemma ValidateSessionUnique(s: Store, uuid: string, token: string, now: int, e: EntryRef)
    requires uuid != "" && token != ""
    requires WhereField(OpenTable(s, SessionsTable).value, SessionsTable, "uuid", Str(uuid)) == Ok([e])
    requires var s1 := OpenTable(s, SessionsTable).value;
             Data(s1, e).Ok? && (!EpochValid(Data(s1, e).value, now) ==> Expire(s1, e).result.Ok?)
    ensures var s1 := OpenTable(s, SessionsTable).value;
            var session := Data(s1, e).value;
            ValidateSession(s, uuid, token, now)
            == if EpochValid(session, now) then Reply(Ok(TokenValid(session, token)), s1)
               else Reply(Ok(false), Expire(s1, e).store)
  {
  }

  /** A true answer comes from the one session for the uuid, whose token
      matches and which is younger than 24 hours; nothing is deleted. */
  lemma ValidateSessionAccepts(s: Store, uuid: string, token: string, now: int) returns (e: EntryRef)
    requires ValidateSession(s, uuid, token, now).result == Ok(true)
    ensures var s1 := OpenTable(s, SessionsTable).value;
            && uuid != "" && token != ""
            && WhereField(s1, SessionsTable, "uuid", Str(uuid)) == Ok([e])
            && Data(s1, e).Ok?
            && TokenValid(Data(s1, e).value, token) && EpochValid(Data(s1, e).value, now)
            && ValidateSession(s, uuid, token, now).store == s1
  {
    var s1 := OpenTable(s, SessionsTable).value;
    var w := WhereField(s1, SessionsTable, "uuid", Str(uuid));
    assert uuid != "" && token != "";
    assert w.Ok? && |w.value| == 1;
    e := w.value[0];
    assert w.value == [e];
    assert e in w.value;
    if !EpochValid(Data(s1, e).value, now) {
      ValidateSessionExpired(s, uuid, token, now, e);
    } else {
      ValidateSessionLive(s, uuid, token, now, e);
    }
  }
}
