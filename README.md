# Pushybel's JSON file database and its storage services, in Dafny

Pushybel is a small web-push server. It keeps everything it knows in a
home-grown database (`database.js`):

- A database is a directory.
- A table is a sub-directory of it.
- An entry is one `<id>.json` file in a table.
- Every operation runs inside a transaction. The transactions of one
  database are queued and run one after another, in the order they were
  submitted.

On top of this database, the server (`pushybel.js`) stores configuration
keys, the subscribed clients, and the sessions of its mission-control
console.

This project models both layers:

- `wrappers.dfy`: `Option` and `Result`.
- `json.dfy`: JSON values and documents, object spread (`{...a, ...b}`)
  and member access, where a missing member is `undefined`.
- `disk.dfy`: the directory tree as a value (`Store`: table name to
  directory, with names in creation order and file contents), and the
  file operations of `Table`, `Entry`, `EntryCollection` and
  `DropRequest` as functions on it. Failures are `Err` values; in the
  source they are thrown errors. Lemmas state what each operation does
  to the tree: merge or overwrite, listing order, removal, and that the
  tree stays well formed.
- `database.dfy`:
  - the `TransactionQueue` class, whose `Add`/`Run` loop is proved
    against the function `Drain`, plus the FIFO and exactly-once lemmas
    about `Drain`;
  - the `EntryCollection` class (`filter`, `at`, `each`, `data`,
    `count`);
  - the `Database` class, whose methods update its directory tree
    in place.
- `pushybel.dfy`:
  - the server's storage services, each as a transaction body
    `Store -> (result, Store)`: `#_load_config`, `#_store_config`,
    `#_get_client`, `#_update_client`, `#_remove_client`;
  - mission control's `#_validate_session` (with `#_get_session`);
  - the subscription check;
  - the listener registry (`on`, `#_get_listeners`) as a class.

## Model

| member | source | states |
|---|---|---|
| Json.Spread | database.js:212-215 | the merged document has the keys of both; a key of the patch takes the patch's value, every other key keeps the base's |
| Json.SpreadOne | pushybel.js:240-243 | `{...doc, subscription}` is `doc` with only that member replaced, and spreading it over `doc` again gives the same document |
| Disk.IdOf | database.js:89-92 | the id read back from a file name is the part before the first `.json`: a prefix of the name with no `.json` inside it, followed by `.json` or by nothing |
| Disk.IdOfFileName | database.js:89-92 | the file `<id>.json` lists back as `id` exactly when no `.json` begins inside `id` |
| Disk.IdOfStable | database.js:89-92 | an id read from a listing lists back as itself once `.json` is appended |
| Disk.WriteFile | database.js:172-178 | writing fails exactly when the name is a sub-directory; afterwards the file holds the content, and its name is listed |
| Disk.RemoveChild | database.js:129-136 | removal fails exactly when nothing has that name; afterwards the name is gone from the listing and from the files, and everything else stays |
| Disk.OpenTable | database.js:59-78 | opening a table fails exactly when its name is empty; a missing table is created empty; existing tables are untouched |
| Disk.FilesOf | database.js:89-90 | the names kept are exactly the listed names that are files, not sub-directories |
| Disk.ListFrom | database.js:88-94 | listing succeeds exactly when every file has a non-empty id whose `<id>.json` is listed; it gives one entry handle per file, in directory order, whose id is the file's name before `.json` |
| Disk.EntriesListing | database.js:88-94 | an existing table lists exactly when each of its files is accepted as an entry, and then gives one handle per file, in directory order |
| Disk.Data | database.js:194-200 | reading fails exactly when the entry's file is missing or does not hold a parsed JSON object; otherwise it gives that object |
| Disk.Entries | database.js:88-94 | `entries` of a missing table fails; of an existing one it is the listing of its directory (specified by Disk.ListFrom and Disk.EntriesListing) |
| Disk.Construct | database.js:147-170 | the Entry constructor: specified by Disk.ConstructExisting (an id must name a listed file) and Disk.ConstructFresh (no id creates `<uuid>.json` holding `{}`) |
| Disk.Write | database.js:172-178 | `#_write` fails exactly when the table is missing or the entry's name is a sub-directory; otherwise the entry's file holds the object and the set of tables is unchanged |
| Disk.Set | database.js:206-220 | `set`: specified by Disk.SetMerge, Disk.SetOverwrite, Disk.SetFails and Disk.SetKeepsListing |
| Disk.Confirm | database.js:129-136 | `confirm`: specified by Disk.ConfirmRemoves and Disk.ConfirmFails |
| Disk.ConstructExisting | database.js:152-157 | `table.entry(id)` succeeds exactly when the table exists and `<id>.json` is listed in it; it then returns a handle to it and changes nothing |
| Disk.ConstructFresh | database.js:158-165 | `table.entry()` in an existing table writes a new file `<uuid>.json` holding `{}`, which is then listed, and leaves all other files unchanged |
| Disk.WriteThenData | database.js:172-200 | after writing an object to an entry, reading that entry gives the object, and reading any other entry gives what it gave before |
| Disk.SetMerge | database.js:206-220 | a successful `set(doc)` without overwrite read the old data, and the entry then holds the old data spread with `doc` |
| Disk.SetOverwrite | database.js:206-217 | `set(doc, true)` stores exactly `doc`, whatever was there before |
| Disk.SetFails | database.js:206-220 | `set` fails exactly when it merges and the old data cannot be read, when the table is missing, or when the entry's name is a sub-directory |
| Disk.SetKeepsListing | database.js:206-220 | a `set` of an entry whose data reads succeeds, and changes neither the table's listing nor any other table |
| Disk.ConfirmRemoves | database.js:129-136 | confirming an entry's drop removes its file, the entry no longer reads, and every other entry reads as before; confirming a table's drop removes the table and keeps the other tables' entries |
| Disk.ConfirmFails | database.js:129-136 | `confirm` fails exactly when the table, or the entry's name, is missing |
| Disk.WellFormedKept | database.js:59-178 | opening a table, creating an entry, setting an entry and removing a file all keep the tree well formed: distinct names, and every file listed |
| Disk.Listed | database.js:88-94 | every listed entry handle belongs to the table, has a non-empty id, and comes from a listed file |
| Disk.EntriesAfterRewrite | database.js:172-178 | a change that keeps the table's names and the set of its files keeps its listing |
| Disk.EntriesAfterNewFile | database.js:157-165 | creating a new entry adds exactly its handle to the table's listing (last, in the model's listing order) |
| Disk.EntriesAfterRemove | database.js:129-136 | after removing a file, every entry still listed was listed before and is not the removed one |
| JsonDatabase.DrainFifo | database.js:344-365 | every queued item settles exactly once, in submission order, whatever the outcomes; after them every transaction pushed while the queue drains settles exactly once, in push order; nothing else settles |
| JsonDatabase.DrainExactlyOnce | database.js:326-365 | a queue of plain transactions settles each one exactly once, in order |
| JsonDatabase.TransactionQueue.constructor | database.js:309-321 | a new queue is empty, idle, and bound to its database |
| JsonDatabase.TransactionQueue.Add | database.js:326-342 | while the queue runs, the transaction is only appended; otherwise the queue runs to empty and the outcomes and store are those of `Drain` on the old queue plus the new item |
| JsonDatabase.TransactionQueue.Run | database.js:344-365 | the loop empties the queue; its settlements and final store are exactly `Drain` of the queue, and it is idle again afterwards |
| JsonDatabase.Drain | database.js:344-365 | the loop of `run` as a function: specified by JsonDatabase.DrainFifo and JsonDatabase.DrainExactlyOnce, and equal to what TransactionQueue.Run leaves |
| JsonDatabase.Queued | database.js:326-342 | the transactions that bodies hand to `transact` while the queue drains, in push order (specified by JsonDatabase.DrainFifo) |
| JsonDatabase.Selected | database.js:265-271 | filtering keeps exactly the items the predicate accepts, each no more often than in the input, and never makes the list longer |
| JsonDatabase.FilterAppend | database.js:265-271 | filtering a concatenation filters each part |
| JsonDatabase.FilterTwice | database.js:265-271 | two filters in a row are the filter by both predicates, and the second one never adds an item |
| JsonDatabase.ReadAll | database.js:258-260 | reading every entry's data succeeds exactly when each entry reads, and gives their data in entry order |
| JsonDatabase.EntryCollection.constructor | database.js:239-248 | a collection holds the given entries |
| JsonDatabase.EntryCollection.Filter | database.js:265-271 | the collection now holds the filter of its old entries by the predicate, and its count did not grow |
| JsonDatabase.EntryCollection.At | database.js:291-296 | `at(i)` fails exactly when `i` is outside `0 <= i < count`; otherwise it gives the `i`-th entry |
| JsonDatabase.EntryCollection.Count | database.js:299-301 | `count` is the number of entries; JsonDatabase.EntryCollection.Filter states that it never grows |
| JsonDatabase.EntryCollection.Each | database.js:276-286 | the callback is called once per entry, in order, with the entry and its index |
| JsonDatabase.EntryCollection.DataIn | database.js:258-260 | the collection's `data` succeeds exactly when every entry reads, and lists their data in order |
| JsonDatabase.Database.constructor | database.js:20-29 | the database lives in `<base>/.databases/db-<namespace>` and starts with an empty, idle transaction queue |
| JsonDatabase.Database.Transact | database.js:40-42 | a transaction submitted while another runs is queued; otherwise the queue is drained and the store becomes `Drain`'s store |
| JsonDatabase.Database.Table | database.js:47-52 | `table(name)` fails exactly for an empty name; otherwise the directory tree becomes the one with that table opened |
| JsonDatabase.Database.Entries | database.js:88-94 | `entries` succeeds exactly when the table lists, and holds its listing in order |
| JsonDatabase.Database.Where | database.js:108-110 | `where(p)` holds exactly the listed entries that `p` accepts, in listing order |
| JsonDatabase.Database.Entry | database.js:99-101 | `entry(id)` returns the existing entry or creates a fresh one, and the tree becomes the one `Construct` gives |
| JsonDatabase.Database.Set | database.js:206-220 | the tree becomes the one `set` gives, and is unchanged when it fails |
| JsonDatabase.Database.Confirm | database.js:129-136 | the tree becomes the one `confirm` gives, and is unchanged when it fails |
| JsonDatabase.Database.Cancel | database.js:138-140 | `cancel` hands back the drop target and leaves the files as they were, so the entry still reads, or the table still lists, as before |
| JsonDatabase.Database.DataOf | database.js:194-200 | `data` succeeds exactly when the entry's file exists and holds a parsed JSON object, and then gives that object |
| Pushybel.WhereField | pushybel.js:180-183 | a lookup by a member's value succeeds exactly when the table lists and every entry reads; every entry found has that value |
| Pushybel.WhereFieldValue | database.js:108-110 | when every entry reads, the lookup is the filter of the listing by the member's value |
| Pushybel.ConfigDoc | pushybel.js:193-196 | the stored config document has `key` and `value` members holding the key and the value |
| Pushybel.LoadConfig | pushybel.js:159-175 | `#_load_config`: specified by Pushybel.LoadConfigOutcome and Pushybel.LoadUnique |
| Pushybel.LoadConfigOutcome | pushybel.js:159-175 | `#_load_config` answers null when no entry holds the key, throws when two or more do, succeeds exactly when the lookup finds at most one, and changes nothing but opening the config table |
| Pushybel.StoreConfig | pushybel.js:177-198 | `#_store_config`: specified by Pushybel.StoreConfigFound, Pushybel.StoreConfigEffect and Pushybel.StoreThenLoad |
| Pushybel.TableOpened | database.js:59-78 | opening a table keeps the tree well formed |
| Pushybel.RewriteKeepsUnique | pushybel.js:186-197 | rewriting the one entry matching a key with a document of the same key keeps it the only match, and it reads back the new document |
| Pushybel.NewEntryUnique | pushybel.js:188-197 | when no entry matches a key, a new entry written with that key becomes the only match |
| Pushybel.LoadUnique | pushybel.js:159-175 | with exactly one entry for the key, `#_load_config` returns that entry's `value` member and changes nothing |
| Pushybel.StoreConfigFound | pushybel.js:177-190 | `#_store_config` succeeds only when at most one entry holds the key; two or more throw |
| Pushybel.StoreConfigUpdates | pushybel.js:186-197 | merging the config document into the one matching entry makes it hold the key and the new value |
| Pushybel.StoreConfigEffect | pushybel.js:177-198 | in a well-formed tree, with a fresh uuid and at most one entry for the key, `#_store_config` succeeds, exactly one entry then holds the key with the new value, and every other entry reads as before |
| Pushybel.StoreThenLoad | pushybel.js:159-198 | storing a config value and then loading the key gives back that value |
| Pushybel.GetClientNone | pushybel.js:264-281 | `#_get_client` finds nothing exactly when every client reads and none has that uuid; two or more throw; it changes nothing but opening the clients table |
| Pushybel.GetClient | pushybel.js:264-281 | `#_get_client`: specified by Pushybel.GetClientNone, Pushybel.GetClientFound and Pushybel.GetUnique |
| Pushybel.UpdateClient | pushybel.js:230-248 | `#_update_client`: specified by Pushybel.UpdateClientOutcome and Pushybel.UpdateClientEffect |
| Pushybel.RemoveClient | pushybel.js:249-262 | `#_remove_client`: specified by Pushybel.RemoveClientOutcome and Pushybel.RemoveClientEffect |
| Pushybel.GetClientFound | pushybel.js:264-281 | a client found is the one client with that uuid, its data, whose `uuid` member is the uuid |
| Pushybel.GetUnique | pushybel.js:264-281 | with exactly one client for the uuid, `#_get_client` returns its data and changes nothing |
| Pushybel.UpdateClientOutcome | pushybel.js:230-248 | `#_update_client` succeeds exactly when one client has the uuid; none throws "no such client"; two or more throw |
| Pushybel.UpdateClientEffect | pushybel.js:230-248 | after an update the client's data is its old data with `subscription` replaced; every other entry is unchanged; `#_get_client` then returns the new data |
| Pushybel.RemoveClientOutcome | pushybel.js:249-262 | `#_remove_client` succeeds exactly when one client has the uuid; none throws "no such client"; two or more throw |
| Pushybel.RemoveClientEffect | pushybel.js:249-262 | removing a client deletes its file, keeps every other entry's data, and `#_get_client` for that uuid then finds nothing |
| Pushybel.OnlyFileOf | pushybel.js:252-257 | the one client matching a uuid owns the only listed file whose id is its id, since a second one would make the lookup find it twice |
| Pushybel.RemovalListable | pushybel.js:249-262 | removing the one matching client's file leaves the client table listable |
| Pushybel.SubscriptionAcceptedAsWritten | pushybel.js:144-148 | the check as written; specified by MissingSubscriptionAccepted and ValidateSubscriptionCorrect: it lets a missing subscription through, which the corrected check rejects, and agrees with the corrected check on every present value |
| Pushybel.MissingSubscriptionAccepted | pushybel.js:144-148 | a missing subscription passes the check as written but fails the corrected check |
| Pushybel.ValidateSubscriptionCorrect | pushybel.js:93-96 | the corrected check accepts exactly a present, non-null subscription, and agrees with the check as written on every present value |
| Pushybel.ListenersFor | pushybel.js:339-341 | the listeners of an event are exactly the registered listeners for that event, never more than are registered |
| Pushybel.ListenersAfterOn | pushybel.js:360-371 | registering a listener adds it at the end of its own event's listeners and leaves every other event's listeners unchanged |
| Pushybel.ListenersInOrder | pushybel.js:339-341 | when every listener is for the event, all of them are returned, in registration order |
| Pushybel.PushybelServer.constructor | pushybel.js:49 | a new server has no listeners |
| Pushybel.PushybelServer.On | pushybel.js:360-371 | `on` accepts exactly the two known events, `subscribe` and `update`, and appends the listener; an unknown event throws and registers nothing |
| Pushybel.PushybelServer.Listeners | pushybel.js:339-341 | the listeners returned are exactly the server's listeners for that event |
| Pushybel.Expire | pushybel.js:570-574 | the drop transaction of `#_validate_session`: specified by Pushybel.ExpireRemoves |
| Pushybel.ValidateSession | pushybel.js:559-578 | `#_validate_session`: specified by Pushybel.ValidateSessionRejects, Pushybel.ValidateSessionLive, Pushybel.ValidateSessionExpired, Pushybel.ValidateSessionMeaning and Pushybel.ValidateSessionAccepts |
| Pushybel.ExpireRemoves | pushybel.js:570-574 | expiring a session removes its file, keeps every other entry's data, and succeeds |
| Pushybel.ValidateSessionRejects | pushybel.js:559-578 | a missing uuid or token, or no session for the uuid, answers false; only the sessions table is opened |
| Pushybel.ValidateSessionLive | pushybel.js:559-578 | a session younger than 24 hours is accepted exactly when its token matches, and nothing is deleted |
| Pushybel.ValidateSessionExpired | pushybel.js:559-578 | a session of 24 hours or more answers false and its file is deleted, whatever the token |
| Pushybel.ValidateSessionMeaning | pushybel.js:559-578 | with one session for the uuid, the answer is "token matches and younger than 24 hours" |
| Pushybel.ValidateSessionAccepts | pushybel.js:559-578 | a true answer comes only from the one session for the uuid, whose token matches and which is younger than 24 hours; nothing is deleted |

## Left out

- `modules/encryption.js` and the other modules under `modules/` are not part of this model.
- The Express routes, the `webpush` sends and key loading, the sha256 client authentication, the notification queue of mission control, `#_create_client`, and the browser scripts are not part of this model.
- I/O is a value: the directory tree is a `Store`, and the clock is a parameter (`now`, in milliseconds).
- Path resolution (`path.resolve`, `..`, separators inside names) is not modelled: paths are joined with `/`.
- A failing `mkdir` is not modelled: creating a database or a table directory always succeeds.
- JSON text formatting (`JSON.stringify`, whitespace) is not modelled: a file holds a parsed value, or `Unparsable`. Numbers are integers, not floating point.
- Disk.ListFrom: a file named `.json` or `.json…` lists with an empty id, and the model reports `EmptyEntryId`. In the source, `entry("")` would instead allocate a fresh entry.
- JsonDatabase.Database.Where: the `limit` option is ignored, as in the source.
- JsonDatabase.EntryCollection.Each: the callback's effects are not modelled. The method records which calls are made, and in what order.
- Listing order: `fs.readdirSync` returns names in whatever order the file system gives, which is not promised to be creation order. The model lists a directory in creation order: a new file comes last and an existing name keeps its place. So "last" in Disk.WriteFile, Disk.ConstructFresh and Disk.EntriesAfterNewFile is a fact about the model, not a promise of the source.
- Disk.Data: a file holds a parsed JSON object or is `Unparsable`. `JSON.parse` also returns numbers, strings, arrays and `null` without throwing; a file holding such a value reads as an error here, where the source returns the value.
- Disk.SetKeepsListing: it is stated only for an entry whose data reads. An overwriting `set` of a dropped entry recreates its file, and the listing then grows by that name.
- Pushybel.LoadConfig: answers `None` both when no entry holds the key (the source returns `null`) and when the entry has no `value` member (the source returns `undefined`).
- Pushybel.UpdateClient: the subscription is always a value. The source can be called with `undefined`; `JSON.stringify` then drops the member, so the stored subscription is erased. That case is not modelled.
- The transaction bodies queued from inside a transaction are plain store functions (`Job`) and cannot queue further transactions. A `transact` call returns a promise; the model records its outcome in `settled` instead.
- The services in `pushybel.dfy` are modelled as transaction bodies on the store. The interleaving of other transactions between the two transactions of `#_validate_session` is not modelled.
- The `uuid` of a new entry (`crypto.randomUUID`) is a parameter. Pushybel.StoreConfigEffect assumes it is fresh in the table (`FreshIn`).
- `#_update_client` and `#_remove_client` take the client's uuid rather than the client object.
- The loose comparisons `==` (the client uuid in `#_update_client` and `#_remove_client`, the session token, `entries.count == 1`) are modelled as strict equality. They differ only when a stored member is not a string but converts to one that is equal, such as the number `5` against `"5"`.
- Pushybel.PushybelServer.On: the `fn instanceof Function` check is not modelled, because a listener is an opaque number. The method returns `Ok(())` instead of `this`.
- Pushybel.EpochValid: a session whose `epoch` is missing or is not a number is treated as expired. In the source `session.epoch + …` is `NaN` for a missing epoch, but would concatenate for a string epoch.
- The `if(entry_id)` test of `#_validate_session` always passes for a found session, because listing rejects empty ids (see Disk.ListFrom above).

## Findings

| source | as written | input that shows it | evidently intended | confidence | as-written member | corrected member |
|---|---|---|---|---|---|---|
| pushybel.js:144-148 | `#_validate_subscription` returns `subscription !== null`, so only an explicit `null` is rejected | a subscribe request whose body has no `subscription` member: it is `undefined`, which passes the check | the subscribe route rejects a missing or invalid subscription (pushybel.js:93-96), so `undefined` should be rejected too | medium, not executed | Pushybel.MissingSubscriptionAccepted | Pushybel.ValidateSubscriptionCorrect |
