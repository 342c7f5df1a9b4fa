/** The store's objects (database.js): Database, EntryCollection and
    TransactionQueue as classes over the file-system state of module Disk.
    Table, Entry and DropRequest hold nothing but a path, so they are the
    values Disk.EntryRef, a table name and Disk.DropRequest, and their
    operations are methods of the Database that owns the files. */
module JsonDatabase {

  import opened Wrappers
  import opened Json
  import opened Disk

  // ---------------------------------------------------------------------
  // Transactions

  /** How `transact`'s promise settles: resolved with the body's value, or
      rejected with what it threw. */
  datatype Outcome = Resolved(value: Value) | Rejected(error: Error)

  /** What a transaction body did: its outcome and the store it left (a
      body that throws keeps the writes it made before throwing). */
  datatype Leaf = Leaf(outcome: Outcome, store: Store)

  /** A transaction whose body queues no further transaction. */
  datatype Job = Job(tag: nat, body: Store -> Leaf)

  /** What a top-level body did, including the transactions it handed to
      `transact` while it ran. */
  datatype Step = Step(outcome: Outcome, store: Store, queued: seq<Job>)

  /** One queue slot: `tag` identifies the submission whose promise it settles. */
  datatype Item = Top(tag: nat, run: Store -> Step) | Inner(job: Job)
  {
    function Tag(): nat
    {
      match this
      case Top(tag, _) => tag
      case Inner(job) => job.tag
    }
  }

  /** The record of one settled promise. */
  datatype Settled = Settled(tag: nat, outcome: Outcome)

  function AsItems(jobs: seq<Job>): (r: seq<Item>)
    ensures |r| == |jobs|
    ensures forall i :: 0 <= i < |jobs| ==> r[i] == Inner(jobs[i])
  {
    if jobs == [] then [] else [Inner(jobs[0])] + AsItems(jobs[1..])
  }

  /** Number of queued items that may still queue more work. */
  function TopCount(q: seq<Item>): nat
  {
    if q == [] then 0 else (if q[0].Top? then 1 else 0) + TopCount(q[1..])
  }

  lemma {:induction false} TopCountAppend(a: seq<Item>, jobs: seq<Job>)
    ensures TopCount(a + AsItems(jobs)) == TopCount(a)
  {
    if a == [] {
      assert a + AsItems(jobs) == AsItems(jobs);
      NoTops(jobs);
    } else {
      assert (a + AsItems(jobs))[1..] == a[1..] + AsItems(jobs);
      TopCountAppend(a[1..], jobs);
    }
  }

  lemma {:induction false} NoTops(jobs: seq<Job>)
    ensures TopCount(AsItems(jobs)) == 0
  {
    if jobs != [] {
      assert AsItems(jobs)[1..] == AsItems(jobs[1..]);
      NoTops(jobs[1..]);
    }
  }

  /** The queue drained in FIFO order: every item runs once, on the store
      its predecessors left, and what a body queues joins the back. */
  function Drain(s: Store, q: seq<Item>): (r: (seq<Settled>, Store))
    decreases TopCount(q), |q|
  {
    if q == [] then ([], s)
    else match q[0]
      case Top(tag, run) =>
        var st := run(s);
        TopCountAppend(q[1..], st.queued);
        var rest := Drain(st.store, q[1..] + AsItems(st.queued));
        ([Settled(tag, st.outcome)] + rest.0, rest.1)
      case Inner(job) =>
        var l := job.body(s);
        var rest := Drain(l.store, q[1..]);
        ([Settled(job.tag, l.outcome)] + rest.0, rest.1)
  }

  /** The transactions handed to `transact` by the bodies that run while
      the queue drains, in the order they were pushed. */
  function Queued(s: Store, q: seq<Item>): seq<Job>
    decreases TopCount(q), |q|
  {
    if q == [] then []
    else match q[0]
      case Top(tag, run) =>
        var st := run(s);
        TopCountAppend(q[1..], st.queued);
        st.queued + Queued(st.store, q[1..] + AsItems(st.queued))
      case Inner(job) =>
        Queued(job.body(s).store, q[1..])
  }

  /** FIFO and exactly-once: every item of q settles once, in q's order,
      whatever the outcomes (a rejected transaction does not stop the
      ones after it); then every transaction pushed while the queue
      drains settles once, in push order, and nothing else settles. */
  lemma {:induction false} DrainFifo(s: Store, q: seq<Item>)
    ensures |Drain(s, q).0| == |q| + |Queued(s, q)|
    ensures forall i :: 0 <= i < |q| ==> Drain(s, q).0[i].tag == q[i].Tag()
    ensures forall j :: 0 <= j < |Queued(s, q)| ==> Drain(s, q).0[|q| + j].tag == Queued(s, q)[j].tag
    decreases TopCount(q), |q|
  {
    if q != [] {
      match q[0]
      case Top(tag, run) =>
        var st := run(s);
        var q' := q[1..] + AsItems(st.queued);
        TopCountAppend(q[1..], st.queued);
        DrainFifo(st.store, q');
        assert Drain(s, q).0 == [Settled(tag, st.outcome)] + Drain(st.store, q').0;
        assert Queued(s, q) == st.queued + Queued(st.store, q');
        SettledFront(Drain(st.store, q').0, Settled(tag, st.outcome), q, st.queued, Queued(st.store, q'));
      case Inner(job) =>
        var l := job.body(s);
        DrainFifo(l.store, q[1..]);
        assert q[1..] + AsItems([]) == q[1..];
        SettledFront(Drain(l.store, q[1..]).0, Settled(job.tag, l.outcome), q, [], Queued(l.store, q[1..]));
    }
  }

  /** One step of DrainFifo: settling the head in front of the settlements
      of the rest, whose queue has the head's pushed jobs at the back. */
  lemma SettledFront(d': seq<Settled>, x: Settled, q: seq<Item>, jobs: seq<Job>, w': seq<Job>)
    requires q != [] && x.tag == q[0].Tag()
    requires |d'| == |q| - 1 + |jobs| + |w'|
    requires forall i :: 0 <= i < |q| - 1 + |jobs| ==> d'[i].tag == (q[1..] + AsItems(jobs))[i].Tag()
    requires forall j :: 0 <= j < |w'| ==> d'[|q| - 1 + |jobs| + j].tag == w'[j].tag
    ensures |[x] + d'| == |q| + |jobs + w'|
    ensures forall i :: 0 <= i < |q| ==> ([x] + d')[i].tag == q[i].Tag()
    ensures forall j :: 0 <= j < |jobs + w'| ==> ([x] + d')[|q| + j].tag == (jobs + w')[j].tag
  {
    var d, w := [x] + d', jobs + w';
    forall i | 1 <= i < |q|
      ensures d[i].tag == q[i].Tag()
    {
      assert (q[1..] + AsItems(jobs))[i - 1] == q[i];
    }
    forall j | 0 <= j < |w|
      ensures d[|q| + j].tag == w[j].tag
    {
      if j < |jobs| {
        assert (q[1..] + AsItems(jobs))[|q| - 1 + j] == Inner(jobs[j]);
      }
    }
  }

  /** A queue of transactions that queue nothing settles each of them
      exactly once, in order, and nothing else. */
  lemma {:induction false} DrainExactlyOnce(s: Store, jobs: seq<Job>)
    ensures |Drain(s, AsItems(jobs)).0| == |jobs|
    ensures forall i :: 0 <= i < |jobs| ==> Drain(s, AsItems(jobs)).0[i].tag == jobs[i].tag
    decreases |jobs|
  {
    if jobs != [] {
      assert AsItems(jobs)[1..] == AsItems(jobs[1..]);
      DrainExactlyOnce(jobs[0].body(s).store, jobs[1..]);
    }
  }

  /** `TransactionQueue`: a FIFO of submitted transactions and the running
      flag; `settled` records how each submission's promise settled. */
  class TransactionQueue {
    const db: Database
    var queue: seq<Item>
    var running: bool
    var settled: seq<Settled>

    constructor(db: Database)
      ensures this.db == db && queue == [] && !running && settled == []
    {
      this.db := db;
      queue := [];
      running := false;
      settled := [];
    }

    /** `add(transaction)`: push, then `run()`. Inside a running
        transaction this only appends; otherwise the whole queue drains. */
    method Add(item: Item)
      modifies this, db`fs
      ensures old(running) ==> queue == old(queue) + [item] && running
                               && settled == old(settled) && db.fs == old(db.fs)
      ensures !old(running) ==>
                var (done, s) := Drain(old(db.fs), old(queue) + [item]);
                queue == [] && !running && settled == old(settled) + done && db.fs == s
    {
      queue := queue + [item];
      Run();
    }

    /** `run()`: a call while running returns at once; otherwise it drains
        the queue, head first, until it is empty, and clears the flag. */
    method Run()
      modifies this, db`fs
      ensures old(running) ==> queue == old(queue) && running
                               && settled == old(settled) && db.fs == old(db.fs)
      ensures !old(running) ==>
                var (done, s) := Drain(old(db.fs), old(queue));
                queue == [] && !running && settled == old(settled) + done && db.fs == s
    {
      if !running {
        running := true;
        while queue != []
          invariant running
          invariant settled + Drain(db.fs, queue).0 == old(settled) + Drain(old(db.fs), old(queue)).0
          invariant Drain(db.fs, queue).1 == Drain(old(db.fs), old(queue)).1
          decreases TopCount(queue), |queue|
        {
          match queue[0]
          case Top(tag, run) =>
            var st := run(db.fs);
            db.fs := st.store;
            settled := settled + [Settled(tag, st.outcome)];
            // transactions the body submitted were pushed while it ran
            TopCountAppend(queue[1..], st.queued);
            queue := queue[1..] + AsItems(st.queued);
          case Inner(job) =>
            var l := job.body(db.fs);
            db.fs := l.store;
            settled := settled + [Settled(job.tag, l.outcome)];
            queue := queue[1..];
        }
        running := false;
      }
    }
  }

  // ---------------------------------------------------------------------
  // EntryCollection

  /** `array.filter(p)`: the in-order subsequence of the items satisfying p. */
  function Selected<T(==,!new)>(s: seq<T>, p: T -> bool): (r: seq<T>)
    ensures |r| <= |s|
    ensures forall x :: x in r <==> x in s && p(x)
    ensures forall i :: 0 <= i < |r| ==> p(r[i])
    ensures multiset(r) <= multiset(s)
  {
    if s == [] then []
    else
      assert s == [s[0]] + s[1..];
      if p(s[0]) then [s[0]] + Selected(s[1..], p)
    else Selected(s[1..], p)
  }

  /** Nothing is selected when no item passes. */
  lemma {:induction false} SelectedNone<T(!new)>(s: seq<T>, p: T -> bool)
    requires forall i :: 0 <= i < |s| ==> !p(s[i])
    ensures Selected(s, p) == []
  {
    if s != [] {
      SelectedNone(s[1..], p);
    }
  }

  /** A passing item is selected as many times as it occurs. */
  lemma {:induction false} SelectedKeeps<T(!new)>(s: seq<T>, p: T -> bool, x: T)
    requires p(x)
    ensures multiset(Selected(s, p))[x] == multiset(s)[x]
  {
    if s != [] {
      SelectedKeeps(s[1..], p, x);
      assert s == [s[0]] + s[1..];
      if p(s[0]) {
        assert Selected(s, p) == [s[0]] + Selected(s[1..], p);
      }
    }
  }

  /** An item found at two different positions occurs at least twice. */
  lemma TwiceAt<T>(r: seq<T>, i: nat, j: nat)
    requires i < |r| && j < |r| && r[i] == r[j]
    ensures i != j ==> multiset(r)[r[i]] >= 2
  {
    if i != j {
      var lo, hi := if i < j then i else j, if i < j then j else i;
      assert r == r[..hi] + r[hi..];
      assert r[lo] in r[..hi];
      assert r[hi] in r[hi..];
    }
  }

  /** Appending the one passing item to a list where none pass selects
      exactly that item. */
  lemma SelectedOnlyLast<T(!new)>(s: seq<T>, x: T, p: T -> bool)
    requires forall i :: 0 <= i < |s| ==> !p(s[i])
    requires p(x)
    ensures Selected(s + [x], p) == [x]
  {
    FilterAppend(s, [x], p);
    SelectedNone(s, p);
    assert [x][1..] == [];
  }

  /** A one-item list is that item alone. */
  lemma Single<T>(s: seq<T>)
    requires |s| == 1
    ensures s == [s[0]]
  {
  }

  /** Filtering keeps order: filtering a concatenation filters each part. */
  lemma {:induction false} FilterAppend<T(!new)>(a: seq<T>, b: seq<T>, p: T -> bool)
    ensures Selected(a + b, p) == Selected(a, p) + Selected(b, p)
  {
    if a == [] {
      assert a + b == b;
    } else {
      assert (a + b)[0] == a[0];
      assert (a + b)[1..] == a[1..] + b;
      FilterAppend(a[1..], b, p);
    }
  }

  /** Filtering twice is filtering once by both predicates, so a second
      filter never raises the count. */
  lemma {:induction false} FilterTwice<T(!new)>(s: seq<T>, p: T -> bool, q: T -> bool)
    ensures Selected(Selected(s, p), q) == Selected(s, x => p(x) && q(x))
    ensures |Selected(Selected(s, p), q)| <= |Selected(s, p)|
  {
    if s != [] {
      FilterTwice(s[1..], p, q);
    }
  }

  /** Filtering only looks at the predicate's values on the items. */
  lemma {:induction false} SelectedAgree<T(!new)>(s: seq<T>, p: T -> bool, q: T -> bool)
    requires forall i :: 0 <= i < |s| ==> p(s[i]) == q(s[i])
    ensures Selected(s, p) == Selected(s, q)
  {
    if s != [] {
      SelectedAgree(s[1..], p, q);
    }
  }

  /** Every item's data, in item order; the first unreadable file throws. */
  function ReadAll(s: Store, es: seq<EntryRef>): (r: Result<seq<Doc>, Error>)
    ensures r.Ok? <==> forall i :: 0 <= i < |es| ==> Data(s, es[i]).Ok?
    ensures r.Ok? ==> |r.value| == |es| && forall i :: 0 <= i < |es| ==> r.value[i] == Data(s, es[i]).value
  {
    if es == [] then Ok([])
    else
      var d :- Data(s, es[0]);
      var rest :- ReadAll(s, es[1..]);
      Ok([d] + rest)
  }

  /** `EntryCollection`: the items narrow in place. */
  class EntryCollection {
    var items: seq<EntryRef>

    constructor(entries: seq<EntryRef>)
      ensures items == entries
    {
      items := entries;
    }

    /** `count` */
    function Count(): nat
      reads this
    {
      |items|
    }

    /** `filter(p)`: the items become those satisfying p, in order; the
        same collection is returned. */
    method Filter(p: EntryRef -> bool)
      modifies this
      ensures items == Selected(old(items), p)
      ensures Count() <= old(Count())
    {
      items := Selected(items, p);
    }

    /** `at(i)`: throws unless 0 <= i < count. */
    function At(i: int): (r: Result<EntryRef, Error>)
      reads this
      ensures r.Err? <==> !(0 <= i < |items|)
      ensures r.Ok? ==> r.value == items[i]
    {
      if 0 <= i < |items| then Ok(items[i]) else Err(IndexInvalid)
    }

    /** `each(fn)`: the calls `fn(item, i)` made, in the order they are made;
        the items are left as they were. */
    method Each() returns (calls: seq<(EntryRef, nat)>)
      ensures |calls| == |items|
      ensures forall i :: 0 <= i < |items| ==> calls[i] == (items[i], i)
    {
      calls := [];
      var i := 0;
      while i < |items|
        invariant 0 <= i <= |items|
        invariant |calls| == i
        invariant forall k :: 0 <= k < i ==> calls[k] == (items[k], k)
      {
        calls := calls + [(items[i], i)];
        i := i + 1;
      }
    }

    /** `data`: every item's document, re-read from `s`. */
    function DataIn(s: Store): (r: Result<seq<Doc>, Error>)
      reads this
      ensures r.Ok? <==> forall i :: 0 <= i < |items| ==> Data(s, items[i]).Ok?
      ensures r.Ok? ==> |r.value| == |items| && forall i :: 0 <= i < |items| ==> r.value[i] == Data(s, items[i]).value
    {
      ReadAll(s, items)
    }
  }

  // ---------------------------------------------------------------------
  // Database

  /** `Database`: the namespace directory's contents, and the queue that
      serializes transactions on them. */
  class Database {
    const root: string
    var fs: Store
    var txq: TransactionQueue?

    ghost predicate Valid()
      reads this, txq
    {
      txq != null && txq.db == this
    }

    /** `new Database(namespace, root)`; `found` is what is already on disk
        under the namespace directory (it is created empty when missing). */
    constructor(found: Store, namespace: string := "default", base: string := ".data")
      ensures root == base + "/.databases/db-" + namespace
      ensures fs == found && Valid() && fresh(txq)
      ensures txq.queue == [] && !txq.running && txq.settled == []
    {
      root := base + "/.databases/db-" + namespace;
      fs := found;
      new;
      txq := new TransactionQueue(this);
    }

    /** `transact(fn)`: hands the body to the queue. */
    method Transact(item: Item)
      requires Valid()
      modifies this, txq
      ensures Valid() && txq == old(txq)
      ensures old(txq.running) ==> txq.queue == old(txq.queue) + [item] && fs == old(fs)
                                   && txq.settled == old(txq.settled)
      ensures !old(txq.running) ==>
                var (done, s) := Drain(old(fs), old(txq.queue) + [item]);
                txq.queue == [] && !txq.running && txq.settled == old(txq.settled) + done && fs == s
    {
      txq.Add(item);
    }

    /** `table(name)`: creates the table directory when missing. */
    method Table(name: string) returns (r: Result<string, Error>)
      modifies this`fs
      ensures r.Err? <==> name == ""
      ensures r.Ok? ==> r.value == name && fs == OpenTable(old(fs), name).value
      ensures r.Err? ==> fs == old(fs)
    {
      var made := OpenTable(fs, name);
      if made.Err? {
        return Err(made.error);
      }
      fs := made.value;
      return Ok(name);
    }

    /** `table.entries`: a new collection over the listing. */
    method Entries(t: string) returns (r: Result<EntryCollection, Error>)
      ensures r.Ok? <==> Disk.Entries(fs, t).Ok?
      ensures r.Ok? ==> fresh(r.value) && r.value.items == Disk.Entries(fs, t).value
    {
      var listed := Disk.Entries(fs, t);
      if listed.Err? {
        return Err(listed.error);
      }
      var c := new EntryCollection(listed.value);
      return Ok(c);
    }

    /** `table.where(p, {limit})`: `entries.filter(p)`; `limit` has no effect. */
    method Where(t: string, p: EntryRef -> bool, limit: Option<nat> := None) returns (r: Result<EntryCollection, Error>)
      ensures r.Ok? <==> Disk.Entries(fs, t).Ok?
      ensures r.Ok? ==> fresh(r.value) && r.value.items == Selected(Disk.Entries(fs, t).value, p)
    {
      r := Entries(t);
      if r.Ok? {
        r.value.Filter(p);
      }
    }

    /** `table.entry(id)`; `uuid` stands for the fresh random id drawn when
        `id` is empty. */
    method Entry(t: string, id: string, uuid: string) returns (r: Result<EntryRef, Error>)
      modifies this`fs
      ensures var c := Construct(old(fs), t, id, uuid);
              && (r.Ok? <==> c.Ok?)
              && (c.Ok? ==> r.value == c.value.0 && fs == c.value.1)
              && (c.Err? ==> fs == old(fs))
    {
      var c := Construct(fs, t, id, uuid);
      if c.Err? {
        return Err(c.error);
      }
      fs := c.value.1;
      return Ok(c.value.0);
    }

    /** `entry.data` */
    function DataOf(e: EntryRef): (r: Result<Doc, Error>)
      reads this
      ensures r.Ok? <==> e.table in fs && FileName(e.id) in fs[e.table].files
                         && fs[e.table].files[FileName(e.id)].Parsed?
      ensures r.Ok? ==> r.value == fs[e.table].files[FileName(e.id)].doc
    {
      Data(fs, e)
    }

    /** `entry.set(doc, {overwrite})`: returns the same entry. */
    method Set(e: EntryRef, doc: Doc, overwrite: bool := false) returns (r: Result<EntryRef, Error>)
      modifies this`fs
      ensures var w := Disk.Set(old(fs), e, doc, overwrite);
              && (r.Ok? <==> w.Ok?)
              && (w.Ok? ==> r.value == e && fs == w.value)
              && (w.Err? ==> fs == old(fs))
    {
      var w := Disk.Set(fs, e, doc, overwrite);
      if w.Err? {
        return Err(w.error);
      }
      fs := w.value;
      return Ok(e);
    }

    /** `drop().confirm()`: removes the target and returns it. */
    method Confirm(req: DropRequest) returns (r: Result<Target, Error>)
      modifies this`fs
      ensures var c := Disk.Confirm(old(fs), req);
              && (r.Ok? <==> c.Ok?)
              && (c.Ok? ==> r.value == req.target && fs == c.value)
              && (c.Err? ==> fs == old(fs))
    {
      var c := Disk.Confirm(fs, req);
      if c.Err? {
        return Err(c.error);
      }
      fs := c.value;
      return Ok(req.target);
    }

    /** `DropRequest.cancel()`: the drop is abandoned. The files stay as
        they are, so the target still reads as it did, and the target
        comes back. */
    method Cancel(req: DropRequest) returns (r: Target)
      ensures r == req.target && fs == old(fs)
      ensures req.target.EntryTarget? ==> DataOf(req.target.entry) == old(DataOf(req.target.entry))
      ensures req.target.TableTarget? ==> Disk.Entries(fs, req.target.name) == old(Disk.Entries(fs, req.target.name))
    {
      return req.target;
    }
  }
}
