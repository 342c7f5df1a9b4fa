/** The file-system state a store works on, as values, and the meaning of
    every store operation as a function of that state (database.js).
    The namespace directory `<root>/.databases/db-<namespace>` holds one
    sub-directory per table; a table directory holds one `<id>.json` file per
    entry. The classes in module JsonDatabase are proved against these
    functions, and the transaction bodies of module Pushybel are written with
    them. */
module Disk {

  import opened Wrappers
  import opened Json

  /** What the store and its callers throw. */
  datatype Error =
    | MissingTableName   // table() without a name
    | ListFailed         // the table directory cannot be listed
    | EmptyEntryId       // a listed file name starts with ".json"
    | EntryMissing       // entry(id) whose `<id>.json` is absent
    | ReadFailed         // Entry.data: read or parse failure
    | WriteFailed        // Entry write failure
    | RemoveFailed       // DropRequest.confirm failure
    | IndexInvalid       // EntryCollection.at out of range
    | Duplicate          // more than one entry for a key that must be unique
    | NoSuchClient       // update/remove of a client that is not stored
    | InvalidEvent       // on() with an event that is not listened for

  /** The contents of one file: a JSON object, or text that does not parse as one. */
  datatype Content = Parsed(doc: Doc) | Unparsable

  /** One table directory: `names` is what a listing returns, in listing
      order; a listed name that is not a key of `files` is a sub-directory. */
  datatype Dir = Dir(names: seq<string>, files: map<string, Content>)

  /** Table name to table directory; a table that is not a key has no directory. */
  type Store = map<string, Dir>

  /** An Entry handle: the table it belongs to and its id; its file is
      `<table>/<id>.json`. Handles are never snapshots of the data. */
  datatype EntryRef = EntryRef(table: string, id: string)

  /** What a DropRequest deletes when confirmed. */
  datatype Target = TableTarget(name: string) | EntryTarget(entry: EntryRef)

  datatype DropRequest = DropRequest(target: Target)

  const Ext := ".json"

  function FileName(id: string): string { id + Ext }

  /** A listing never names a child twice and every file is listed. */
  ghost predicate WellFormed(d: Dir)
  {
    && (forall n :: n in d.files ==> n in d.names)
    && Distinct(d.names)
  }

  predicate Distinct(ns: seq<string>)
  {
    forall i, j :: 0 <= i < j < |ns| ==> ns[i] != ns[j]
  }

  ghost predicate StoreWellFormed(s: Store)
  {
    forall t :: t in s ==> WellFormed(s[t])
  }

  // ---------------------------------------------------------------------
  // File names and entry ids

  /** ".json" occurs in `s` at position `i`. */
  predicate ExtAt(s: string, i: nat)
  {
    i + |Ext| <= |s| && s[i..i + |Ext|] == Ext
  }

  /** `name.split(".json")[0]`: the part of a file name before the first
      ".json", or the whole name when it has none. */
  function IdOf(name: string): (id: string)
    ensures id <= name
    ensures forall i :: 0 <= i < |id| ==> !ExtAt(name, i)
    ensures id == name || ExtAt(name, |id|)
    decreases |name|
  {
    if |name| < |Ext| then name
    else if name[..|Ext|] == Ext then ""
    else
      var rest := IdOf(name[1..]);
      forall i | 1 <= i < |name| ensures ExtAt(name, i) == ExtAt(name[1..], i - 1) {
        ExtAtShift(name, i);
      }
      [name[0]] + rest
  }

  /** Dropping the first character shifts every occurrence of ".json" by one. */
  lemma ExtAtShift(name: string, i: nat)
    requires 1 <= i < |name|
    ensures ExtAt(name, i) == ExtAt(name[1..], i - 1)
  {
    var tail := name[1..];
    if i + |Ext| <= |name| {
      var a, b := name[i..i + |Ext|], tail[i - 1..i - 1 + |Ext|];
      assert |a| == |b|;
      forall k | 0 <= k < |a| ensures a[k] == b[k] {
        assert a[k] == name[i + k];
        assert b[k] == tail[i - 1 + k] == name[i + k];
      }
      assert a == b;
    }
  }

  /** Listing the file `<id>.json` gives back `id` exactly when ".json"
      occurs nowhere in `<id>.json` before the extension. */
  lemma IdOfFileName(id: string)
    ensures IdOf(FileName(id)) == id <==> forall i :: 0 <= i < |id| ==> !ExtAt(FileName(id), i)
  {
    var name, r := FileName(id), IdOf(FileName(id));
    assert ExtAt(name, |id|);
    if forall i :: 0 <= i < |id| ==> !ExtAt(name, i) {
      assert |r| == |id|;
      assert r == name[..|r|] == id;
    }
  }

  // ---------------------------------------------------------------------
  // Directory primitives (fs.existsSync, fs.writeFileSync, fs.rmSync)

  /** `fs.writeFileSync` of one file: fails on a sub-directory of that name;
      a new file is listed last, an existing one keeps its place. */
  function WriteFile(d: Dir, n: string, c: Content): (r: Result<Dir, Error>)
    ensures r.Err? <==> n in d.names && n !in d.files
    ensures r.Ok? ==> r.value.files == d.files[n := c]
    ensures r.Ok? && n in d.names ==> r.value.names == d.names
    ensures r.Ok? && n !in d.names ==> r.value.names == d.names + [n]
  {
    if n in d.names && n !in d.files then Err(WriteFailed)
    else if n in d.names then Ok(Dir(d.names, d.files[n := c]))
    else Ok(Dir(d.names + [n], d.files[n := c]))
  }

  /** `names` without `n`, order otherwise kept. */
  function Without(names: seq<string>, n: string): (r: seq<string>)
    ensures forall m :: m in r <==> m in names && m != n
    ensures |r| <= |names|
  {
    if names == [] then []
    else if names[0] == n then Without(names[1..], n)
    else [names[0]] + Without(names[1..], n)
  }

  /** `fs.rmSync(path, {recursive: true})` of one child: fails when nothing
      has that name. */
  function RemoveChild(d: Dir, n: string): (r: Result<Dir, Error>)
    ensures r.Err? <==> n !in d.names
    ensures r.Ok? ==> r.value.files == d.files - {n}
    ensures r.Ok? ==> forall m :: m in r.value.names <==> m in d.names && m != n
  {
    if n !in d.names then Err(RemoveFailed)
    else Ok(Dir(Without(d.names, n), d.files - {n}))
  }

  // ---------------------------------------------------------------------
  // Database.table, Table.entries, Table.entry

  /** `db.table(name)`: the table directory is created when missing. */
  function OpenTable(s: Store, name: string): (r: Result<Store, Error>)
    ensures r.Err? <==> name == ""
    ensures r.Ok? ==> name in r.value && r.value.Keys == s.Keys + {name}
    ensures r.Ok? ==> forall t :: t in s ==> r.value[t] == s[t]
    ensures r.Ok? && name !in s ==> r.value[name] == Dir([], map[])
  {
    if name == "" then Err(MissingTableName)
    else if name in s then Ok(s)
    else Ok(s[name := Dir([], map[])])
  }

  /** A listed file that the Entry constructor accepts: its id is not empty
      and `<id>.json` exists. */
  predicate Listable(d: Dir, n: string)
  {
    IdOf(n) != "" && FileName(IdOf(n)) in d.names
  }

  /** The non-directory names of `ns`, in order. */
  function FilesOf(d: Dir, ns: seq<string>): (r: seq<string>)
    ensures forall n :: n in r <==> n in ns && n in d.files
    ensures |r| <= |ns|
  {
    if ns == [] then []
    else if ns[0] in d.files then [ns[0]] + FilesOf(d, ns[1..])
    else FilesOf(d, ns[1..])
  }

  /** The listing of `ns` turned into Entry handles, as `Table.entries` does. */
  function ListFrom(t: string, d: Dir, ns: seq<string>): (r: Result<seq<EntryRef>, Error>)
    ensures r.Ok? <==> forall n :: n in ns && n in d.files ==> Listable(d, n)
    ensures r.Ok? ==> |r.value| == |FilesOf(d, ns)|
    ensures r.Ok? ==> forall i :: 0 <= i < |r.value| ==>
                        r.value[i] == EntryRef(t, IdOf(FilesOf(d, ns)[i]))
  {
    if ns == [] then Ok([])
    else if ns[0] !in d.files then ListFrom(t, d, ns[1..])
    else
      var id := IdOf(ns[0]);
      if id == "" then Err(EmptyEntryId)
      else if FileName(id) !in d.names then Err(EntryMissing)
      else
        var rest :- ListFrom(t, d, ns[1..]);
        Ok([EntryRef(t, id)] + rest)
  }

  /** `table.entries`: one handle per non-directory file, in listing order. */
  function Entries(s: Store, t: string): (r: Result<seq<EntryRef>, Error>)
    ensures t !in s ==> r == Err(ListFailed)
    ensures t in s ==> r == ListFrom(t, s[t], s[t].names)
  {
    if t !in s then Err(ListFailed) else ListFrom(t, s[t], s[t].names)
  }

  /** `new Entry(table, id)`: a non-empty id must name an existing
      `<id>.json`; an empty id allocates `uuid` (the random UUID the source draws) and writes
      `{}` unless `<uuid>.json` already exists. */
  function Construct(s: Store, t: string, id: string, uuid: string): (r: Result<(EntryRef, Store), Error>)
  {
    if id != "" then
      if t in s && FileName(id) in s[t].names then Ok((EntryRef(t, id), s)) else Err(EntryMissing)
    else if t in s && FileName(uuid) in s[t].names then Ok((EntryRef(t, uuid), s))
    else if t !in s then Err(WriteFailed)
    else
      match WriteFile(s[t], FileName(uuid), Parsed(map[]))
      case Ok(d) => Ok((EntryRef(t, uuid), s[t := d]))
      case Err(err) => Err(err)
  }

  // ---------------------------------------------------------------------
  // Entry.data, Entry.set, DropRequest

  /** `entry.data`: re-reads and parses the entry's file. */
  function Data(s: Store, e: EntryRef): (r: Result<Doc, Error>)
    ensures r.Ok? <==> e.table in s && FileName(e.id) in s[e.table].files
                       && s[e.table].files[FileName(e.id)].Parsed?
    ensures r.Ok? ==> r.value == s[e.table].files[FileName(e.id)].doc
  {
    if e.table !in s || FileName(e.id) !in s[e.table].files then Err(ReadFailed)
    else match s[e.table].files[FileName(e.id)]
      case Parsed(doc) => Ok(doc)
      case Unparsable => Err(ReadFailed)
  }

  /** `#_write(obj)`: replaces the entry's file with `obj`. */
  function Write(s: Store, e: EntryRef, obj: Doc): (r: Result<Store, Error>)
    ensures r.Ok? <==> e.table in s && (FileName(e.id) in s[e.table].names ==> FileName(e.id) in s[e.table].files)
    ensures r.Ok? ==> r.value.Keys == s.Keys && r.value[e.table].files == s[e.table].files[FileName(e.id) := Parsed(obj)]
  {
    if e.table !in s then Err(WriteFailed)
    else
      var d :- WriteFile(s[e.table], FileName(e.id), Parsed(obj));
      Ok(s[e.table := d])
  }

  /** `entry.set(doc, {overwrite})`: writes `doc` itself when overwriting,
      otherwise the current document with `doc` spread over it. */
  function Set(s: Store, e: EntryRef, doc: Doc, overwrite: bool): (r: Result<Store, Error>)
  {
    var obj :- if overwrite then Ok(doc) else
                 var cur :- Data(s, e);
                 Ok(Spread(cur, doc));
    Write(s, e, obj)
  }

  /** `DropRequest.confirm()`: removes the whole table directory, or the
      entry's one file. */
  function Confirm(s: Store, req: DropRequest): (r: Result<Store, Error>)
  {
    match req.target
    case TableTarget(name) =>
      if name in s then Ok(s - {name}) else Err(RemoveFailed)
    case EntryTarget(e) =>
      if e.table !in s then Err(RemoveFailed)
      else
        var d :- RemoveChild(s[e.table], FileName(e.id));
        Ok(s[e.table := d])
  }

  // ---------------------------------------------------------------------
  // Properties of the operations

  /** Writing a document makes it what the next `data` returns, and no
      other file changes. */
  lemma WriteThenData(s: Store, e: EntryRef, obj: Doc, other: EntryRef)
    requires Write(s, e, obj).Ok?
    ensures Data(Write(s, e, obj).value, e) == Ok(obj)
    ensures (other.table, FileName(other.id)) != (e.table, FileName(e.id)) ==>
              Data(Write(s, e, obj).value, other) == Data(s, other)
  {
  }

  /** `entry(id)` with a non-empty id succeeds exactly when `<id>.json`
      exists, and changes nothing. */
  lemma ConstructExisting(s: Store, t: string, id: string, uuid: string)
    requires id != ""
    ensures Construct(s, t, id, uuid).Ok? <==> t in s && FileName(id) in s[t].names
    ensures Construct(s, t, id, uuid).Ok? ==>
              Construct(s, t, id, uuid).value == (EntryRef(t, id), s)
  {
  }

  /** `entry()` in an existing table whose uuid name is unused writes `{}`:
      a following `data` returns the empty object, the new file is listed
      last, and nothing else changes. */
  lemma ConstructFresh(s: Store, t: string, uuid: string)
    requires t in s && FileName(uuid) !in s[t].names
    ensures Construct(s, t, "", uuid).Ok?
    ensures var (e, s') := Construct(s, t, "", uuid).value;
            && e == EntryRef(t, uuid)
            && Data(s', e) == Ok(map[])
            && s'.Keys == s.Keys
            && s'[t].names == s[t].names + [FileName(uuid)]
            && (forall u :: u in s && u != t ==> s'[u] == s[u])
            && (forall n :: n in s[t].files && n != FileName(uuid) ==>
                  n in s'[t].files && s'[t].files[n] == s[t].files[n])
  {
  }

  /** Merge: the keys of `doc` win, every other old key survives. */
  lemma SetMerge(s: Store, e: EntryRef, doc: Doc)
    requires Set(s, e, doc, false).Ok?
    ensures Data(s, e).Ok?
    ensures var now := Data(Set(s, e, doc, false).value, e);
            && now.Ok?
            && now.value.Keys == Data(s, e).value.Keys + doc.Keys
            && (forall k :: k in doc ==> now.value[k] == doc[k])
            && (forall k :: k in Data(s, e).value && k !in doc ==> now.value[k] == Data(s, e).value[k])
  {
    WriteThenData(s, e, Spread(Data(s, e).value, doc), e);
  }

  /** Overwrite: the entry holds exactly `doc` afterwards. */
  lemma SetOverwrite(s: Store, e: EntryRef, doc: Doc)
    requires Set(s, e, doc, true).Ok?
    ensures Data(Set(s, e, doc, true).value, e) == Ok(doc)
  {
    WriteThenData(s, e, doc, e);
  }

  /** `set` fails exactly when the merge cannot read the current document or
      the file cannot be written. */
  lemma SetFails(s: Store, e: EntryRef, doc: Doc, overwrite: bool)
    ensures Set(s, e, doc, overwrite).Err? <==>
              (!overwrite && Data(s, e).Err?)
              || e.table !in s
              || (FileName(e.id) in s[e.table].names && FileName(e.id) !in s[e.table].files)
  {
  }

  /** Setting an existing entry leaves the table's listing as it was. */
  lemma SetKeepsListing(s: Store, e: EntryRef, doc: Doc, overwrite: bool)
    requires StoreWellFormed(s)
    requires Data(s, e).Ok?
    ensures Set(s, e, doc, overwrite).Ok?
    ensures Set(s, e, doc, overwrite).value.Keys == s.Keys
    ensures Set(s, e, doc, overwrite).value[e.table].names == s[e.table].names
    ensures forall u :: u in s && u != e.table ==> Set(s, e, doc, overwrite).value[u] == s[u]
  {
  }

  /** Confirming an entry's drop removes its file and no other;
      confirming a table's drop removes its directory and no other. */
  lemma ConfirmRemoves(s: Store, req: DropRequest, other: EntryRef)
    requires Confirm(s, req).Ok?
    ensures req.target.EntryTarget? ==>
              var e := req.target.entry;
              && Data(Confirm(s, req).value, e).Err?
              && FileName(e.id) !in Confirm(s, req).value[e.table].names
              && ((other.table, FileName(other.id)) != (e.table, FileName(e.id)) ==>
                    Data(Confirm(s, req).value, other) == Data(s, other))
    ensures req.target.TableTarget? ==>
              && Entries(Confirm(s, req).value, req.target.name) == Err(ListFailed)
              && (other.table != req.target.name ==> Data(Confirm(s, req).value, other) == Data(s, other))
  {
  }

  /** `confirm` fails exactly when the target is already gone. */
  lemma ConfirmFails(s: Store, req: DropRequest)
    ensures Confirm(s, req).Err? <==>
              match req.target
              case TableTarget(name) => name !in s
              case EntryTarget(e) => e.table !in s || FileName(e.id) !in s[e.table].names
  {
  }

  lemma {:induction false} WithoutDistinct(names: seq<string>, n: string)
    requires Distinct(names)
    ensures Distinct(Without(names, n))
  {
    if names != [] {
      WithoutDistinct(names[1..], n);
      assert names[0] !in names[1..];
      var w := Without(names[1..], n);
      if names[0] != n {
        assert Without(names, n) == [names[0]] + w;
        assert forall j :: 0 <= j < |w| ==> w[j] in names[1..];
      }
    }
  }

  /** Every operation that changes the store keeps each listing free of
      repeats and every file listed. */
  lemma WellFormedKept(s: Store, name: string, e: EntryRef, obj: Doc, overwrite: bool,
                       t: string, id: string, uuid: string, req: DropRequest)
    requires StoreWellFormed(s)
    ensures OpenTable(s, name).Ok? ==> StoreWellFormed(OpenTable(s, name).value)
    ensures Set(s, e, obj, overwrite).Ok? ==> StoreWellFormed(Set(s, e, obj, overwrite).value)
    ensures Construct(s, t, id, uuid).Ok? ==> StoreWellFormed(Construct(s, t, id, uuid).value.1)
    ensures Confirm(s, req).Ok? ==> StoreWellFormed(Confirm(s, req).value)
  {
    if Set(s, e, obj, overwrite).Ok? {
      var doc := if overwrite then obj else Spread(Data(s, e).value, obj);
      assert Set(s, e, obj, overwrite) == Write(s, e, doc);
      var d := s[e.table];
      var d' := WriteFile(d, FileName(e.id), Parsed(doc)).value;
      assert WellFormed(d');
    }
    if Construct(s, t, id, uuid).Ok? && id == "" && FileName(uuid) !in s[t].names {
      var d' := WriteFile(s[t], FileName(uuid), Parsed(map[])).value;
      assert WellFormed(d');
    }
    if Confirm(s, req).Ok? && req.target.EntryTarget? {
      var e := req.target.entry;
      WithoutDistinct(s[e.table].names, FileName(e.id));
    }
  }


  // ---------------------------------------------------------------------
  // How listings change

  /** An id read from a listing lists back as itself: `<id>.json` has no
      ".json" before its extension, since any ".json" overlapping the
      extension would need a "." where the extension has a letter. */
  lemma IdOfStable(name: string)
    ensures IdOf(FileName(IdOf(name))) == IdOf(name)
  {
    var id := IdOf(name);
    var f := FileName(id);
    forall i | 0 <= i < |id|
      ensures !ExtAt(f, i)
    {
      if i + |Ext| <= |id| {
        assert !ExtAt(name, i);
        var a, b := f[i..i + |Ext|], name[i..i + |Ext|];
        forall k | 0 <= k < |Ext|
          ensures a[k] == b[k]
        {
          assert f[i + k] == id[i + k] == name[i + k];
        }
        assert a == b;
      } else {
        var k := |id| - i;
        assert 1 <= k < |Ext|;
        assert f[i..i + |Ext|][k] == f[|id|] == '.';
        assert Ext[k] != '.';
      }
    }
    IdOfFileName(id);
  }

  lemma FileNameInjective(a: string, b: string)
    ensures FileName(a) == FileName(b) ==> a == b
  {
    if FileName(a) == FileName(b) {
      assert |a| == |b|;
      assert a == FileName(a)[..|a|];
      assert b == FileName(b)[..|b|];
    }
  }

  lemma {:induction false} FilesOfAppend(d: Dir, a: seq<string>, b: seq<string>)
    ensures FilesOf(d, a + b) == FilesOf(d, a) + FilesOf(d, b)
  {
    if a == [] {
      assert a + b == b;
    } else {
      assert (a + b)[0] == a[0];
      assert (a + b)[1..] == a[1..] + b;
      FilesOfAppend(d, a[1..], b);
    }
  }

  lemma {:induction false} FilesOfAgree(d: Dir, d': Dir, ns: seq<string>)
    requires forall n :: n in ns ==> (n in d.files <==> n in d'.files)
    ensures FilesOf(d, ns) == FilesOf(d', ns)
  {
    if ns != [] {
      FilesOfAgree(d, d', ns[1..]);
    }
  }

  /** A listing depends only on the names and on which of them are files. */
  lemma {:induction false} ListFromShape(t: string, d: Dir, d': Dir, ns: seq<string>)
    requires d.names == d'.names
    requires forall n :: n in ns ==> (n in d.files <==> n in d'.files)
    ensures ListFrom(t, d, ns) == ListFrom(t, d', ns)
  {
    if ns != [] {
      ListFromShape(t, d, d', ns[1..]);
    }
  }

  /** What every listed handle satisfies. */
  lemma Listed(s: Store, t: string, x: EntryRef)
    requires Entries(s, t).Ok? && x in Entries(s, t).value
    ensures t in s && x.table == t && x.id != "" && FileName(x.id) in s[t].names
    ensures exists m :: m in s[t].names && m in s[t].files && x.id == IdOf(m)
  {
    var es := Entries(s, t).value;
    var i :| 0 <= i < |es| && es[i] == x;
    var m := FilesOf(s[t], s[t].names)[i];
    assert m in FilesOf(s[t], s[t].names);
  }

  /** A handle for every listed file. */
  lemma ListedFile(s: Store, t: string, m: string)
    requires Entries(s, t).Ok? && m in s[t].names && m in s[t].files
    ensures EntryRef(t, IdOf(m)) in Entries(s, t).value
  {
    var fs := FilesOf(s[t], s[t].names);
    assert m in fs;
    var j :| 0 <= j < |fs| && fs[j] == m;
    assert Entries(s, t).value[j] == EntryRef(t, IdOf(m));
  }

  /** Rewriting an existing file leaves the listing as it was. */
  lemma EntriesAfterRewrite(s: Store, s': Store, t: string)
    requires t in s && t in s'
    requires s'[t].names == s[t].names && s'[t].files.Keys == s[t].files.Keys
    ensures Entries(s', t) == Entries(s, t)
  {
    ListFromShape(t, s[t], s'[t], s[t].names);
  }

  /** A new file `<uuid>.json` adds one handle, at the end of the listing. */
  lemma EntriesAfterNewFile(s: Store, s': Store, t: string, uuid: string)
    requires t in s && t in s' && Entries(s, t).Ok?
    requires uuid != "" && IdOf(FileName(uuid)) == uuid
    requires FileName(uuid) !in s[t].names
    requires s'[t].names == s[t].names + [FileName(uuid)]
    requires s'[t].files.Keys == s[t].files.Keys + {FileName(uuid)}
    ensures Entries(s', t) == Ok(Entries(s, t).value + [EntryRef(t, uuid)])
  {
    var d, d', n := s[t], s'[t], FileName(uuid);
    NewFileListable(t, d, d', n);
    NewFileListing(t, d, d', n);
  }

  /** Every file stays listable when one more listable file is added. */
  lemma NewFileListable(t: string, d: Dir, d': Dir, n: string)
    requires ListFrom(t, d, d.names).Ok?
    requires IdOf(n) != "" && FileName(IdOf(n)) == n
    requires d'.names == d.names + [n]
    requires d'.files.Keys == d.files.Keys + {n}
    ensures ListFrom(t, d', d'.names).Ok?
  {
    forall m | m in d'.names && m in d'.files
      ensures Listable(d', m)
    {
      if m != n {
        assert m in d.names && m in d.files;
        assert Listable(d, m);
      }
    }
  }

  /** Adding one more file to a directory appends its entry to the listing. */
  lemma NewFileListing(t: string, d: Dir, d': Dir, n: string)
    requires ListFrom(t, d, d.names).Ok? && ListFrom(t, d', d'.names).Ok?
    requires n !in d.names
    requires d'.names == d.names + [n]
    requires d'.files.Keys == d.files.Keys + {n}
    ensures ListFrom(t, d', d'.names) == Ok(ListFrom(t, d, d.names).value + [EntryRef(t, IdOf(n))])
  {
    NewFileFiles(d, d', n);
    ListingByFiles(t, d, d.names, ListFrom(t, d, d.names).value);
    ListingByFiles(t, d', d'.names, ListFrom(t, d', d'.names).value);
    Appended(ListFrom(t, d, d.names).value, ListFrom(t, d', d'.names).value, EntryRef(t, IdOf(n)));
  }

  /** A successful listing is the entry handles of the file list. */
  lemma ListingByFiles(t: string, d: Dir, ns: seq<string>, es: seq<EntryRef>)
    requires ListFrom(t, d, ns) == Ok(es)
    ensures es == Handles(t, FilesOf(d, ns))
  {
    var fs := FilesOf(d, ns);
    assert |es| == |Handles(t, fs)|;
    forall i | 0 <= i < |es| ensures es[i] == Handles(t, fs)[i] {
    }
  }

  /** The Entry handles for a list of file names. */
  function Handles(t: string, fs: seq<string>): (r: seq<EntryRef>)
    ensures |r| == |fs|
    ensures forall i :: 0 <= i < |fs| ==> r[i] == EntryRef(t, IdOf(fs[i]))
  {
    seq(|fs|, i requires 0 <= i < |fs| => EntryRef(t, IdOf(fs[i])))
  }

  /** A list one longer that agrees with `a` on `a`'s positions and ends in `x` is `a + [x]`. */
  lemma Appended<T>(a: seq<T>, b: seq<T>, x: T)
    requires |b| == |a| + 1
    requires forall i :: 0 <= i < |a| ==> b[i] == a[i]
    requires b[|a|] == x
    ensures b == a + [x]
  {
  }

  /** Adding one more file to a directory appends it to the file list. */
  lemma NewFileFiles(d: Dir, d': Dir, n: string)
    requires n !in d.names
    requires d'.names == d.names + [n]
    requires d'.files.Keys == d.files.Keys + {n}
    ensures FilesOf(d', d'.names) == FilesOf(d, d.names) + [n]
  {
    FilesOfAppend(d', d.names, [n]);
    FilesOfAgree(d, d', d.names);
    assert FilesOf(d', [n]) == [n];
  }

  /** After a file is removed, every entry still listed was listed before
      and is not the removed one. */
  lemma EntriesAfterRemove(s: Store, s': Store, t: string, gone: string)
    requires t in s && t in s' && Entries(s, t).Ok? && Entries(s', t).Ok?
    requires forall m :: m in s'[t].names ==> m in s[t].names
    requires s'[t].files == s[t].files - {FileName(gone)}
    requires FileName(gone) !in s'[t].names
    ensures forall x :: x in Entries(s', t).value ==> x in Entries(s, t).value && x.id != gone
  {
    forall x | x in Entries(s', t).value
      ensures x in Entries(s, t).value && x.id != gone
    {
      Listed(s', t, x);
      var m :| m in s'[t].names && m in s'[t].files && x.id == IdOf(m);
      ListedFile(s, t, m);
    }
  }

  /** A table's entries are exactly its listable files, one handle each, in
      listing order, and listing fails when one file is not listable. */
  lemma EntriesListing(s: Store, t: string)
    requires t in s
    ensures Entries(s, t).Ok? <==> forall n :: n in s[t].files && n in s[t].names ==> Listable(s[t], n)
    ensures Entries(s, t).Ok? ==>
              && |Entries(s, t).value| == |FilesOf(s[t], s[t].names)|
              && forall i :: 0 <= i < |Entries(s, t).value| ==>
                   Entries(s, t).value[i].id == IdOf(FilesOf(s[t], s[t].names)[i])
  {
  }
}
