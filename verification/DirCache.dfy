/**
  The directory cache of one node under serial transactions: lookups, inserts and deletes
  through the cache, capacity eviction, and the list of cache actions that commit applies
  and abort throws away.
 */
module DirCache {
  import opened DirKeys

  const MAX_TO_COMMIT: nat := 4096
  const CLEAR_BEGIN: nat := 12      // per partition

  datatype LockMode = Exclusive | Shared | None

  datatype Entry = Entry(id: int, usage: int)

  datatype Action = Added(key: Key) | Updated(key: Key, id: int)

  datatype Code = Success | Exists | NotExists | Conflict | Failed

  /** One eviction attempt: the entries of a partition in bucket order and a random start. */
  datatype Sweep = Sweep(order: seq<Key>, start: nat)

  function LastUpdate(pending: seq<Action>, k: Key, default: int): int {
    if pending == [] then default
    else
      var last := pending[|pending| - 1];
      if last.Updated? && last.key == k then last.id else LastUpdate(pending[..|pending| - 1], k, default)
  }

  predicate IsUpdated(pending: seq<Action>, k: Key) {
    exists i :: 0 <= i < |pending| && pending[i].Updated? && pending[i].key == k
  }

  predicate SweepIsCurrent(sweep: Sweep, cache: map<Key, Entry>) {
    forall j :: 0 <= j < |sweep.order| ==> sweep.order[j] in cache
  }

  predicate AllLocked(sweep: Sweep, held: set<Key>) {
    forall j :: 0 <= j < |sweep.order| ==> sweep.order[j] in held
  }

  /** The index of some unlocked entry, or the length. */
  ghost function AnyUnlocked(order: seq<Key>, held: set<Key>): (w: nat)
    ensures w <= |order|
    ensures w < |order| ==> order[w] !in held
    ensures w == |order| ==> forall j :: 0 <= j < |order| ==> order[j] in held
  {
    if order == [] || order[0] !in held then 0 else 1 + AnyUnlocked(order[1..], held)
  }

  /** Entries may go, but not locked ones, and ids stay as they are. */
  predicate Shrunk(was: map<Key, Entry>, now: map<Key, Entry>, held: set<Key>) {
    && (forall k :: k in now ==> k in was && now[k].id == was[k].id)
    && (forall k :: k in was && k in held ==> k in now)
  }

  lemma {:induction false} NotUpdated(pending: seq<Action>, k: Key, default: int)
    requires !IsUpdated(pending, k)
    ensures LastUpdate(pending, k, default) == default
  {
    if pending != [] { NotUpdated(pending[..|pending| - 1], k, default); }
  }

  lemma {:induction false} AppendAdded(pending: seq<Action>, k: Key)
    ensures forall j, d :: LastUpdate(pending + [Added(k)], j, d) == LastUpdate(pending, j, d)
    ensures forall j :: IsUpdated(pending + [Added(k)], j) <==> IsUpdated(pending, j)
  {
    var now := pending + [Added(k)];
    assert now[..|pending|] == pending;
    forall j | IsUpdated(pending, j) ensures IsUpdated(now, j) {
      var i :| 0 <= i < |pending| && pending[i].Updated? && pending[i].key == j;
      assert now[i] == pending[i];
    }
  }

  lemma {:induction false} AppendUpdated(pending: seq<Action>, k: Key, id: int)
    ensures forall j, d ::
              LastUpdate(pending + [Updated(k, id)], j, d) == if j == k then id else LastUpdate(pending, j, d)
    ensures forall j :: IsUpdated(pending + [Updated(k, id)], j) <==> j == k || IsUpdated(pending, j)
  {
    var now := pending + [Updated(k, id)];
    assert now[..|pending|] == pending && now[|pending|] == Updated(k, id);
    forall j | IsUpdated(pending, j) ensures IsUpdated(now, j) {
      var i :| 0 <= i < |pending| && pending[i].Updated? && pending[i].key == j;
      assert now[i] == pending[i];
    }
  }

  // What a transaction does to the table when there is no cache

  datatype Op =
    | Peek(k: Key)                 // rename's first look at its source, without a lock
    | Look(k: Key)                 // a directory on the way to a target
    | MakeDir(k: Key, id: nat)
    | RemoveDir(k: Key)
    | MoveDir(src: Key, dst: Key)
    | AddRow(k: Key, id: nat, mode: LockMode)   // a worker's part of mkdir and rename, no look before
    | DropRow(k: Key, mode: LockMode)           // a worker's part of rename

  /** The committed table, the table with the changes so far, and the keys locked or changed. */
  datatype View = View(base: Table, work: Table, seen: set<Key>)

  function Perform(v: View, op: Op): (Code, View) {
    match op
    case Peek(k) => (Success, v)
    case Look(k) => (Success, v.(seen := v.seen + {k}))
    case MakeDir(k, id) =>
      if k in v.seen then (Exists, v)
      else if k in v.base then (Exists, v.(seen := v.seen + {k}))
      else (Success, v.(work := v.work[k := id], seen := v.seen + {k}))
    case RemoveDir(k) =>
      if k in v.seen then (Conflict, v)
      else if k !in v.base then (NotExists, v.(seen := v.seen + {k}))
      else (Success, v.(work := v.work - {k}, seen := v.seen + {k}))
    case MoveDir(src, dst) =>
      if src in v.seen then (Conflict, v)
      else if src !in v.base then (NotExists, v.(seen := v.seen + {src}))
      else if dst in v.seen || dst == src then (Exists, v.(seen := v.seen + {src}))
      else if dst in v.base then (Exists, v.(seen := v.seen + {src, dst}))
      else (Success, v.(work := (v.work - {src})[dst := v.base[src]], seen := v.seen + {src, dst}))
    case AddRow(k, id, mode) =>
      if k in v.seen then (Conflict, v)
      else if k in v.base then (Exists, v)
      else (Success, v.(work := v.work[k := id], seen := v.seen + {k}))
    case DropRow(k, mode) =>
      if k in v.seen then (Conflict, v)
      else if mode == Shared then (Failed, v)
      else if k !in v.base then (NotExists, v)
      else (Success, v.(work := v.work - {k}, seen := v.seen + {k}))
  }

  // The same as laws about single rows

  predicate Same(t: Table, t': Table, k: Key) { (k in t <==> k in t') && (k in t ==> t'[k] == t[k]) }

  ghost predicate KeptBut(t: Table, t': Table, ks: set<Key>) {
    forall k :: k !in ks ==> Same(t, t', k)
  }

  predicate Holds(t: Table, k: Key, id: nat) { k in t && t[k] == id }

  ghost predicate SeenAlso(v: View, v': View, ks: set<Key>) {
    forall k :: k in v'.seen <==> k in v.seen || k in ks
  }

  ghost predicate MakeLaw(v: View, k: Key, id: nat, code: Code, v': View) {
    && (code == Success <==> k !in v.seen && k !in v.base) && (code == Exists <==> k in v.seen || k in v.base)
    && (code == Success ==> Holds(v'.work, k, id) && KeptBut(v.work, v'.work, {k}))
    && (code != Success ==> v'.work == v.work)
    && SeenAlso(v, v', {k})
  }

  ghost predicate RemoveLaw(v: View, k: Key, code: Code, v': View) {
    && (code == Conflict <==> k in v.seen)
    && (code == NotExists <==> k !in v.seen && k !in v.base)
    && (code == Success <==> k !in v.seen && k in v.base)
    && (code == Success ==> k !in v'.work && KeptBut(v.work, v'.work, {k}))
    && (code != Success ==> v'.work == v.work)
    && SeenAlso(v, v', {k})
  }

  /** The row of the source is gone, the target has the id it had, all other rows are the same. */
  ghost predicate MoveLaw(v: View, src: Key, dst: Key, code: Code, v': View) {
    var taken := dst == src || dst in v.seen || dst in v.base;
    && (code == Conflict <==> src in v.seen)
    && (code == NotExists <==> src !in v.seen && src !in v.base)
    && (code == Exists <==> src !in v.seen && src in v.base && taken)
    && (code == Success <==> src !in v.seen && src in v.base && !taken)
    && (code == Success ==>
          src !in v'.work && Holds(v'.work, dst, v.base[src]) && KeptBut(v.work, v'.work, {src, dst}))
    && (code != Success ==> v'.work == v.work)
    && SeenAlso(v, v', {src} + if code == Success || (code == Exists && dst in v.base) then {dst} else {})
  }

  ghost predicate AddLaw(v: View, k: Key, id: nat, code: Code, v': View) {
    && (code == Conflict <==> k in v.seen)
    && (code == Exists <==> k !in v.seen && k in v.base)
    && (code == Success <==> k !in v.seen && k !in v.base)
    && (code == Success ==> Holds(v'.work, k, id) && KeptBut(v.work, v'.work, {k}) && SeenAlso(v, v', {k}))
    && (code != Success ==> v' == v)
  }

  ghost predicate DropLaw(v: View, k: Key, mode: LockMode, code: Code, v': View) {
    && (code == Conflict <==> k in v.seen)
    && (code == Failed <==> k !in v.seen && mode == Shared)
    && (code == NotExists <==> k !in v.seen && mode != Shared && k !in v.base)
    && (code == Success <==> k !in v.seen && mode != Shared && k in v.base)
    && (code == Success ==> k !in v'.work && KeptBut(v.work, v'.work, {k}) && SeenAlso(v, v', {k}))
    && (code != Success ==> v' == v)
  }

  ghost predicate Law(v: View, op: Op, code: Code, v': View) {
    && v'.base == v.base
    && match op
       case Peek(k) => code == Success && v' == v
       case Look(k) => code == Success && v'.work == v.work && SeenAlso(v, v', {k})
       case MakeDir(k, id) => MakeLaw(v, k, id, code, v')
       case RemoveDir(k) => RemoveLaw(v, k, code, v')
       case MoveDir(src, dst) => MoveLaw(v, src, dst, code, v')
       case AddRow(k, id, _) => AddLaw(v, k, id, code, v')
       case DropRow(k, mode) => DropLaw(v, k, mode, code, v')
  }

  lemma {:induction false} TablesAgree(t: Table, t': Table)
    requires forall k :: Same(t, t', k)
    ensures t == t'
  {
    forall k ensures k in t <==> k in t' { assert Same(t, t', k); }
    forall k | k in t ensures t[k] == t'[k] { assert Same(t, t', k); }
  }

  lemma {:induction false} PerformIsLawful(v: View, op: Op)
    ensures Law(v, op, Perform(v, op).0, Perform(v, op).1)
  {
    var r := Perform(v, op);
    forall k ensures Same(v.work, v.work, k) {}
    match op
    case MoveDir(src, dst) =>
      if r.0 == Success { assert KeptBut(v.work, r.1.work, {src, dst}); }
    case _ =>
  }

  lemma {:induction false} SeenIs(a: View, b: View, v: View, ks: set<Key>)
    requires SeenAlso(v, a, ks) && SeenAlso(v, b, ks)
    ensures a.seen == b.seen
  {}

  lemma {:induction false} WorkIs(v: View, a: View, b: View, ks: set<Key>)
    requires KeptBut(v.work, a.work, ks) && KeptBut(v.work, b.work, ks)
    requires forall k :: k in ks ==> Same(a.work, b.work, k)
    ensures a.work == b.work
  {
    forall k ensures Same(a.work, b.work, k) {
      assert k !in ks ==> Same(v.work, a.work, k) && Same(v.work, b.work, k);
    }
    TablesAgree(a.work, b.work);
  }

  /** The laws leave no choice. */
  lemma {:induction false} LawIsPerform(v: View, op: Op, code: Code, v': View)
    requires Law(v, op, code, v')
    ensures Perform(v, op) == (code, v')
  {
    PerformIsLawful(v, op);
    var r := Perform(v, op).1;
    match op
    case Peek(_) =>
    case Look(k) => SeenIs(r, v', v, {k});
    case MakeDir(k, _) =>
      SeenIs(r, v', v, {k});
      if code == Success { WorkIs(v, r, v', {k}); }
    case RemoveDir(k) =>
      SeenIs(r, v', v, {k});
      if code == Success { WorkIs(v, r, v', {k}); }
    case MoveDir(src, dst) =>
      SeenIs(r, v', v, {src} + if code == Success || (code == Exists && dst in v.base) then {dst} else {});
      if code == Success { WorkIs(v, r, v', {src, dst}); }
    case AddRow(k, _, _) =>
      if code == Success { SeenIs(r, v', v, {k}); WorkIs(v, r, v', {k}); }
    case DropRow(k, _) =>
      if code == Success { SeenIs(r, v', v, {k}); WorkIs(v, r, v', {k}); }
  }

  /** An error aborts the transaction, except that mkdir reports it per path. */
  predicate Aborts(op: Op, code: Code) {
    code == Failed || (code != Success && !op.MakeDir?)
  }

  /** An operation with what the cache's surroundings do meanwhile. */
  datatype Request = Request(op: Op, full: bool, sweeps: seq<Sweep>)

  /** `crowded` says at which of the recorded actions the table is full at commit. */
  datatype Txn = Txn(requests: seq<Request>, commits: bool, sweeps: seq<Sweep>, crowded: seq<bool>)

  predicate SweepsOk(sweeps: seq<Sweep>) {
    forall i :: 0 <= i < |sweeps| ==> sweeps[i].start <= |sweeps[i].order|
  }

  predicate TxnOk(t: Txn) {
    SweepsOk(t.sweeps) && forall i :: 0 <= i < |t.requests| ==> SweepsOk(t.requests[i].sweeps)
  }

  /** The requests one after the other; false when one of them aborts the transaction. */
  function PerformAll(v: View, requests: seq<Request>): (bool, View) {
    if requests == [] then (true, v)
    else
      var before := PerformAll(v, requests[..|requests| - 1]);
      if !before.0 then before
      else
        var op := requests[|requests| - 1].op;
        var r := Perform(before.1, op);
        (!Aborts(op, r.0), r.1)
  }

  /** The committed table after a transaction, cache or no cache. */
  function AfterTxn(table: Table, t: Txn): Table {
    var r := PerformAll(View(table, table, {}), t.requests);
    if r.0 && t.commits then r.1.work else table
  }

  function AfterTxns(table: Table, txns: seq<Txn>): Table {
    if txns == [] then table else AfterTxn(AfterTxns(table, txns[..|txns| - 1]), txns[|txns| - 1])
  }

  /** Each request of a transaction takes one view to the next, lawfully and without an abort. */
  ghost predicate GoesOn(requests: seq<Request>, views: seq<View>, i: nat)
    requires i < |requests| && i + 1 < |views|
  {
    exists code :: Law(views[i], requests[i].op, code, views[i + 1]) && !Aborts(requests[i].op, code)
  }

  ghost predicate IsHistory(table: Table, requests: seq<Request>, views: seq<View>, n: nat) {
    && n <= |requests| && n < |views| && views[0] == View(table, table, {})
    && forall i: nat :: i < n ==> GoesOn(requests, views, i)
  }

  lemma {:induction false} HistoryIsPerformAll(table: Table, requests: seq<Request>, views: seq<View>, n: nat)
    requires IsHistory(table, requests, views, n)
    ensures PerformAll(View(table, table, {}), requests[..n]) == (true, views[n])
  {
    if n > 0 {
      HistoryIsPerformAll(table, requests, views, n - 1);
      assert requests[..n][..n - 1] == requests[..n - 1];
      assert GoesOn(requests, views, n - 1);
      var code :| Law(views[n - 1], requests[n - 1].op, code, views[n]) && !Aborts(requests[n - 1].op, code);
      LawIsPerform(views[n - 1], requests[n - 1].op, code, views[n]);
    }
  }

  /** A transaction whose requests all go on leaves, if it commits, the table of its last view. */
  lemma {:induction false} CommittedTable(table: Table, t: Txn, views: seq<View>)
    requires IsHistory(table, t.requests, views, |t.requests|)
    ensures AfterTxn(table, t) == if t.commits then views[|t.requests|].work else table
  {
    HistoryIsPerformAll(table, t.requests, views, |t.requests|);
    assert t.requests[..|t.requests|] == t.requests;
  }

  /** A transaction with a request that aborts it leaves the table as it was. */
  lemma {:induction false} AbortedTable(table: Table, t: Txn, views: seq<View>, i: nat, code: Code, v: View)
    requires IsHistory(table, t.requests, views, i) && i < |t.requests|
    requires Law(views[i], t.requests[i].op, code, v) && Aborts(t.requests[i].op, code)
    ensures AfterTxn(table, t) == table
  {
    HistoryIsPerformAll(table, t.requests, views, i);
    LawIsPerform(views[i], t.requests[i].op, code, v);
    assert t.requests[..i + 1][..i] == t.requests[..i];
    AbortSticks(View(table, table, {}), t.requests, i + 1);
  }

  /** A row change without a look before it, which fails on the committed table. */
  predicate Refused(v: View, op: Op) {
    || (op.AddRow? && op.k !in v.seen && op.k in v.base)
    || (op.DropRow? && op.k !in v.seen && (op.mode == Shared || op.k !in v.base))
  }

  // No id gets a second name

  ghost predicate Distinct(t: Table) {
    forall j, k :: j in t && k in t && t[j] == t[k] ==> j == k
  }

  /** Rows not seen are as committed, and ids are committed ones or new ones given out so far. */
  ghost predicate ViewOk(v: View, used: set<nat>) {
    && Distinct(v.work) && (forall k :: k !in v.seen ==> Same(v.base, v.work, k))
    && (forall k :: k in v.work ==> v.work[k] in v.base.Values || v.work[k] in used)
  }

  function NewId(op: Op): set<nat> { if op.MakeDir? then {op.id} else {} }

  lemma {:induction false} StepKeepsIds(v: View, op: Op, code: Code, v': View, used: set<nat>)
    requires ViewOk(v, used) && Law(v, op, code, v') && !op.AddRow? && !op.DropRow?
    requires NewId(op) !! v.base.Values + used
    ensures ViewOk(v', used + NewId(op))
  {
    var ks := match op
      case MakeDir(k, _) => {k}
      case RemoveDir(k) => {k}
      case MoveDir(src, dst) => {src, dst}
      case _ => {};
    forall k ensures k !in ks ==> Same(v.work, v'.work, k) {}
    forall k | k !in v'.seen ensures Same(v.base, v'.work, k) {
      assert Same(v.base, v.work, k);
      if k in ks { assert v'.work == v.work; }
    }
    if op.MoveDir? && code == Success {
      assert Same(v.base, v.work, op.src);
      assert v.base[op.src] in v.base.Values;
    }
    forall k | k in v'.work ensures v'.work[k] in v.base.Values || v'.work[k] in used + NewId(op) {
      assert k !in ks ==> Same(v.work, v'.work, k);
    }
    forall j, k | j in v'.work && k in v'.work && v'.work[j] == v'.work[k] ensures j == k {
      assert (j !in ks ==> Same(v.work, v'.work, j)) && (k !in ks ==> Same(v.work, v'.work, k));
    }
  }

  function NewIds(requests: seq<Request>): set<nat> {
    if requests == [] then {} else NewIds(requests[..|requests| - 1]) + NewId(requests[|requests| - 1].op)
  }

  /** The coordinator's operations with ids that are new, each used once. */
  ghost predicate FreshRequests(table: Table, requests: seq<Request>) {
    forall i :: 0 <= i < |requests| ==>
      && !requests[i].op.AddRow? && !requests[i].op.DropRow?
      && NewId(requests[i].op) !! table.Values + NewIds(requests[..i])
  }

  lemma {:induction false} RequestsKeepIds(table: Table, requests: seq<Request>)
    requires Distinct(table) && FreshRequests(table, requests)
    ensures var r := PerformAll(View(table, table, {}), requests);
            r.1.base == table && ViewOk(r.1, NewIds(requests))
  {
    if requests != [] {
      var n := |requests| - 1;
      forall i | 0 <= i < n ensures requests[..n][..i] == requests[..i] {}
      RequestsKeepIds(table, requests[..n]);
      var before := PerformAll(View(table, table, {}), requests[..n]);
      var r := Perform(before.1, requests[n].op);
      PerformIsLawful(before.1, requests[n].op);
      if before.0 { StepKeepsIds(before.1, requests[n].op, r.0, r.1, NewIds(requests[..n])); }
    } else {
      forall k | k in table ensures table[k] in table.Values {}
    }
  }

  /** After a transaction of the coordinator every id still has one name. */
  lemma {:induction false} TxnKeepsIds(table: Table, t: Txn)
    requires Distinct(table) && FreshRequests(table, t.requests)
    ensures Distinct(AfterTxn(table, t))
  {
    RequestsKeepIds(table, t.requests);
  }

  /** An abort is final for its transaction. */
  lemma {:induction false} AbortSticks(v: View, requests: seq<Request>, i: nat)
    requires i <= |requests| && !PerformAll(v, requests[..i]).0
    ensures !PerformAll(v, requests).0
    decreases |requests|
  {
    if i == |requests| {
      assert requests[..i] == requests;
    } else {
      assert requests[..|requests| - 1][..i] == requests[..i];
      AbortSticks(v, requests[..|requests| - 1], i);
    }
  }

  class DirCache {
    var cache: map<Key, Entry>
    var held: set<Key>           // locked by the running transaction
    var pending: seq<Action>
    var committed: Table
    var working: Table           // the table with the running transaction's changes
    var changed: set<Key>        // the keys of those changes
    var failed: bool

    predicate Coherent()
      reads this
    {
      forall k :: k in cache ==> cache[k].id == UNKNOWN || cache[k].id == Lookup(committed, k)
    }

    /** What the table has for a key is the last recorded update; a change made while the
        cache had no room is not recorded, and its key stays out of the cache. */
    ghost predicate Recorded(k: Key)
      reads this
    {
      || Lookup(working, k) == LastUpdate(pending, k, Lookup(committed, k))
      || (k in changed && k !in cache && !IsUpdated(pending, k))
    }

    ghost predicate Valid()
      reads this
    {
      && Coherent()
      && (forall k :: k in held ==> k in cache)
      && (forall k :: IsUpdated(pending, k) ==> k in changed)
      && (!failed ==> forall k :: Recorded(k))
    }

    ghost predicate Idle()
      reads this
    {
      held == {} && pending == [] && working == committed && changed == {} && !failed
    }

    constructor (table: Table)
      ensures Valid() && Idle() && committed == table && cache == map[]
    {
      cache, held, pending, committed, working, changed, failed := map[], {}, [], table, table, {}, false;
    }

    // Eviction

    /** One pass over a partition: stops at the first unlocked entry whose usage ran out. */
    method FindNext(order: seq<Key>, start: nat) returns (i: nat, destroyable: nat)
      requires start <= |order|
      requires forall j :: 0 <= j < |order| ==> order[j] in cache
      modifies this`cache
      ensures cache.Keys == old(cache.Keys) && forall k :: k in cache ==> cache[k].id == old(cache[k].id)
      ensures start <= i <= |order|
      ensures i < |order| ==> order[i] !in held && destroyable > 0
      ensures destroyable > 0 ==> exists j :: start <= j < |order| && order[j] !in held
      ensures i == |order| ==>
                forall j :: start <= j < |order| && order[j] !in held ==>
                              destroyable > 0 && 0 <= cache[order[j]].usage < old(cache[order[j]].usage)
    {
      i, destroyable := start, 0;
      while i < |order|
        invariant start <= i <= |order|
        invariant cache.Keys == old(cache.Keys)
        invariant forall k :: k in cache ==> cache[k].id == old(cache[k].id) && cache[k].usage <= old(cache[k].usage)
        invariant destroyable > 0 ==> exists j :: start <= j < |order| && order[j] !in held
        invariant forall j :: start <= j < i && order[j] !in held ==>
                                destroyable > 0 && cache[order[j]].usage < old(cache[order[j]].usage)
        invariant forall j :: start <= j < i && order[j] !in held ==> 0 <= cache[order[j]].usage
      {
        var k := order[i];
        if k !in held {
          destroyable := destroyable + 1;
          cache := cache[k := cache[k].(usage := cache[k].usage - 1)];
          if cache[k].usage <= 0 { return; }
        }
        i := i + 1;
      }
    }

    /** Removes one unlocked entry, or nothing when the partition is small or all locked. */
    method Evict(sweep: Sweep) returns (evicted: bool)
      requires sweep.start <= |sweep.order|
      modifies this`cache
      ensures Shrunk(old(cache), cache, held)
      ensures evicted ==> exists k :: k in sweep.order && k !in held && cache.Keys == old(cache.Keys) - {k}
      ensures !evicted ==> cache.Keys == old(cache.Keys)
      ensures evicted <==> |sweep.order| > CLEAR_BEGIN && SweepIsCurrent(sweep, old(cache)) && !AllLocked(sweep, held)
    {
      var order := sweep.order;
      if |order| <= CLEAR_BEGIN || !SweepIsCurrent(sweep, cache) { return false; }
      var i, destroyable := FindNext(order, sweep.start);
      ghost var w := AnyUnlocked(order, held);
      while i == |order|
        invariant 0 <= i <= |order| && (i < |order| ==> order[i] !in held)
        invariant cache.Keys == old(cache.Keys) && forall k :: k in cache ==> cache[k].id == old(cache[k].id)
        decreases if i < |order| then 0 else 1,
                  if w < |order| && cache[order[w]].usage > 0 then cache[order[w]].usage else 0
      {
        i, destroyable := FindNext(order, 0);
        if destroyable == 0 { break; }
      }
      if i == |order| { return false; }
      cache := cache - {order[i]};
      return true;
    }

    // Going through the cache

    /** The loop that evicts until the table has room for a new entry. */
    method MakeRoom(sweeps: seq<Sweep>)
      requires SweepsOk(sweeps)
      modifies this`cache
      ensures Shrunk(old(cache), cache, held)
    {
      for i := 0 to |sweeps|
        invariant Shrunk(old(cache), cache, held)
      {
        var _ := Evict(sweeps[i]);
      }
    }

    /** A new entry, with the id read from the table or none known. */
    method Enter(k: Key, id: int, sweeps: seq<Sweep>)
      requires Valid() && !failed && k !in cache && k !in changed
      requires id == Lookup(committed, k) || id == UNKNOWN
      requires SweepsOk(sweeps)
      modifies this`cache, this`pending, this`failed
      ensures Valid() && k in cache && cache[k].id == id
      ensures forall j :: IsUpdated(pending, j) <==> IsUpdated(old(pending), j)
      ensures |pending| <= |old(pending)| + 1 && (failed ==> |pending| >= MAX_TO_COMMIT)
    {
      MakeRoom(sweeps);
      cache := cache[k := Entry(id, 0)];
      AppendAdded(pending, k);
      if |pending| >= MAX_TO_COMMIT {
        failed := true;
      } else {
        pending := pending + [Added(k)];
        forall j ensures Recorded(j) { assert old(Recorded(j)); }
      }
    }

    /** A key that this transaction has not changed reads as committed. */
    lemma {:induction false} StillCommitted(k: Key)
      requires Valid() && !failed && k !in changed
      ensures Lookup(working, k) == Lookup(committed, k) && (k in working <==> k in committed)
    {
      assert Recorded(k);
      NotUpdated(pending, k, Lookup(committed, k));
    }

    /** A lookup answers from the committed table, whatever the cache held; a key this
        transaction has changed is never looked up again (the path tree answers for it). */
    method Search(k: Key, mode: LockMode, full: bool, sweeps: seq<Sweep>) returns (id: int)
      requires Valid() && !failed && k !in changed
      requires SweepsOk(sweeps)
      modifies this
      ensures Valid()
      ensures committed == old(committed) && working == old(working) && changed == old(changed)
      ensures id == Lookup(committed, k)
      ensures !failed ==> held == if mode == None then old(held) else old(held) + {k}
      ensures |pending| <= |old(pending)| + 1 && (failed ==> |pending| >= MAX_TO_COMMIT)
    {
      StillCommitted(k);
      if k !in cache {
        id := Lookup(working, k);
        if full && mode == None { return; }
        Enter(k, id, if full then sweeps else []);
        if failed { return; }
      } else if cache[k].id == UNKNOWN {
        SetId(k, Lookup(working, k));
      }
      Use(k, mode);
      id := cache[k].id;
    }

    /** The cached id of a key becomes known. */
    method SetId(k: Key, id: int)
      requires Valid() && k in cache && id == Lookup(committed, k)
      modifies this`cache
      ensures Valid() && cache.Keys == old(cache.Keys) && cache[k].id == id
    {
      cache := cache[k := cache[k].(id := id)];
      assert forall j :: Recorded(j) <==> old(Recorded(j));
    }

    /** One more use of an entry, and its lock if one is asked for. */
    method Use(k: Key, mode: LockMode)
      requires Valid() && k in cache
      modifies this`cache, this`held
      ensures Valid() && cache.Keys == old(cache.Keys) && cache[k].id == old(cache[k].id)
      ensures held == if mode == None then old(held) else old(held) + {k}
    {
      cache := cache[k := cache[k].(usage := cache[k].usage + 1)];
      if mode != None { held := held + {k}; }
      assert forall j :: Recorded(j) <==> old(Recorded(j));
    }

    /** The row changes, and the new id is recorded for the commit. */
    method Record(k: Key, id: int, table: Table)
      requires Valid() && !failed && k !in changed && Lookup(table, k) == id
      requires forall j :: j != k ==> Lookup(table, j) == Lookup(working, j)
      modifies this`pending, this`working, this`changed, this`failed
      ensures Valid() && |pending| <= |old(pending)| + 1
      ensures if |old(pending)| >= MAX_TO_COMMIT then failed && pending == old(pending) && working == old(working)
              else !failed && working == table && changed == old(changed) + {k}
    {
      if |pending| >= MAX_TO_COMMIT {
        failed := true;
        return;
      }
      AppendUpdated(pending, k, id);
      working, changed := table, changed + {k};
      pending := pending + [Updated(k, id)];
      forall j ensures Recorded(j) { assert old(Recorded(j)); }
    }

    /** The row changes while the cache has no entry for it and no room for one. */
    method ChangeUncached(k: Key, table: Table)
      requires Valid() && !failed && k !in changed && k !in cache
      requires forall j :: j != k ==> Lookup(table, j) == Lookup(working, j)
      modifies this`working, this`changed
      ensures Valid() && working == table && changed == old(changed) + {k}
    {
      working, changed := table, changed + {k};
      forall j ensures Recorded(j) { assert old(Recorded(j)); }
    }

    /** Adding a row, with or without locking its key. */
    method Insert(k: Key, id: nat, mode: LockMode, full: bool, sweeps: seq<Sweep>)
      requires Valid() && !failed && k !in changed
      requires SweepsOk(sweeps)
      modifies this
      ensures Valid() && committed == old(committed)
      ensures k in committed ==> failed
      ensures |pending| <= |old(pending)| + if k in old(cache) then 1 else 2
      ensures failed && k !in committed ==> |pending| >= MAX_TO_COMMIT
      ensures !failed ==> working == old(working)[k := id] && changed == old(changed) + {k}
      ensures !failed ==> held == if mode == None then old(held) else old(held) + {k}
    {
      StillCommitted(k);
      if k !in cache {
        if k in working {
          failed := true;
          return;
        }
        if full && mode == None {
          ChangeUncached(k, working[k := id]);
          return;
        }
        Enter(k, NOT_EXIST, if full then sweeps else []);
        if failed { return; }
      } else if cache[k].id == UNKNOWN {
        if k in working {
          failed := true;
          return;
        }
        SetId(k, NOT_EXIST);
      }
      Use(k, mode);
      if k in working {
        failed := true;
        return;
      }
      Record(k, id, working[k := id]);
    }

    /** Removing a row, with or without locking its key. */
    method Delete(k: Key, mode: LockMode, full: bool, sweeps: seq<Sweep>)
      requires Valid() && !failed && k !in changed
      requires SweepsOk(sweeps)
      modifies this
      ensures Valid() && committed == old(committed)
      ensures k !in committed || mode == Shared ==> failed
      ensures |pending| <= |old(pending)| + if k in old(cache) then 1 else 2
      ensures failed && k in committed && mode != Shared ==> |pending| >= MAX_TO_COMMIT
      ensures !failed ==> working == old(working) - {k} && changed == old(changed) + {k}
      ensures !failed ==> held == if mode == None then old(held) else old(held) + {k}
    {
      StillCommitted(k);
      if mode == Shared {
        failed := true;
        return;
      }
      if k !in cache {
        if full && mode == None {
          if k !in working { failed := true; } else { ChangeUncached(k, working - {k}); }
          return;
        }
        Enter(k, UNKNOWN, if full then sweeps else []);
        if failed { return; }
      }
      Use(k, mode);
      if k !in working {
        failed := true;
        return;
      }
      Record(k, NOT_EXIST, working - {k});
    }

    // The end of a transaction

    method Commit(sweeps: seq<Sweep>, crowded: seq<bool>)
      requires Valid() && !failed
      requires SweepsOk(sweeps)
      modifies this
      ensures Valid() && Idle() && committed == old(working)
    {
      ghost var was := committed;
      committed := working;
      for i := 0 to |pending|
        invariant pending == old(pending) && held == old(held) && committed == working == old(working) && !failed
        invariant changed == old(changed)
        invariant forall k :: k in held ==> k in cache
        invariant forall k :: k in cache ==> k in old(cache) || IsUpdated(pending, k)
        invariant forall k :: k in cache ==>
                                cache[k].id == UNKNOWN || cache[k].id == LastUpdate(pending[..i], k, Lookup(was, k))
      {
        var a := pending[i];
        assert pending[..i + 1][..i] == pending[..i];
        match a {
          case Added(_) => if i < |sweeps| { var _ := Evict(sweeps[i]); }
          case Updated(k, id) =>
            if k in cache {
              cache := cache[k := cache[k].(id := id)];
            } else if !(i < |crowded| && crowded[i]) {
              cache := cache[k := Entry(id, 0)];
            }
        }
      }
      assert pending[..|pending|] == pending;
      forall k | k in cache ensures cache[k].id == UNKNOWN || cache[k].id == Lookup(committed, k) {
        assert old(Recorded(k));
      }
      pending, held, changed := [], {}, {};
    }

    method Abort()
      requires Valid()
      modifies this
      ensures Valid() && Idle() && committed == old(committed)
    {
      pending, held, working, changed, failed := [], {}, committed, {}, false;
    }

    // The handlers

    ghost function Seen(): View
      reads this
    {
      View(committed, working, held + changed)
    }

    method Handle(op: Op, full: bool, sweeps: seq<Sweep>) returns (code: Code)
      requires Valid() && !failed
      requires SweepsOk(sweeps)
      modifies this
      ensures Valid() && committed == old(committed)
      ensures failed <==> code == Failed
      ensures !failed ==> Law(old(Seen()), op, code, Seen())
      ensures |pending| <= |old(pending)| + 4
      ensures failed ==> |pending| >= MAX_TO_COMMIT || Refused(old(Seen()), op)
    {
      match op {
        case Peek(k) =>
          if k !in held && k !in changed { var _ := Search(k, None, full, sweeps); }
          code := if failed then Failed else Success;
        case Look(k) => code := HandleLook(k, full, sweeps);
        case MakeDir(k, id) => code := HandleMakeDir(k, id, full, sweeps);
        case RemoveDir(k) => code := HandleRemoveDir(k, full, sweeps);
        case MoveDir(src, dst) => code := HandleMoveDir(src, dst, full, sweeps);
        case AddRow(k, id, mode) =>
          if k in held || k in changed { return Conflict; }
          Insert(k, id, mode, full, sweeps);
          code := if failed then Failed else Success;
          assert !failed ==> held + changed == old(held) + old(changed) + {k};
        case DropRow(k, mode) =>
          if k in held || k in changed { return Conflict; }
          Delete(k, mode, full, sweeps);
          code := if failed then Failed else Success;
          assert !failed ==> held + changed == old(held) + old(changed) + {k};
      }
    }

    method HandleLook(k: Key, full: bool, sweeps: seq<Sweep>) returns (code: Code)
      requires Valid() && !failed
      requires SweepsOk(sweeps)
      modifies this
      ensures Valid() && committed == old(committed)
      ensures failed <==> code == Failed
      ensures !failed ==> Law(old(Seen()), Look(k), code, Seen())
      ensures |pending| <= |old(pending)| + 1
      ensures failed ==> |pending| >= MAX_TO_COMMIT
    {
      if k !in held && k !in changed { var _ := Search(k, Shared, full, sweeps); }
      code := if failed then Failed else Success;
      assert !failed ==> held + changed == old(held) + old(changed) + {k};
    }

    method HandleMakeDir(k: Key, id: nat, full: bool, sweeps: seq<Sweep>) returns (code: Code)
      requires Valid() && !failed
      requires SweepsOk(sweeps)
      modifies this
      ensures Valid() && committed == old(committed)
      ensures failed <==> code == Failed
      ensures !failed ==> Law(old(Seen()), MakeDir(k, id), code, Seen())
      ensures |pending| <= |old(pending)| + 2
      ensures failed ==> |pending| >= MAX_TO_COMMIT
    {
      if k in held || k in changed { return Exists; }
      var found := Search(k, Exclusive, full, sweeps);
      if failed { return Failed; }
      assert held + changed == old(held) + old(changed) + {k};
      if found != NOT_EXIST { return Exists; }
      Insert(k, id, None, full, sweeps);
      code := if failed then Failed else Success;
      assert !failed ==> held + changed == old(held) + old(changed) + {k};
    }

    method HandleRemoveDir(k: Key, full: bool, sweeps: seq<Sweep>) returns (code: Code)
      requires Valid() && !failed
      requires SweepsOk(sweeps)
      modifies this
      ensures Valid() && committed == old(committed)
      ensures failed <==> code == Failed
      ensures !failed ==> Law(old(Seen()), RemoveDir(k), code, Seen())
      ensures |pending| <= |old(pending)| + 2
      ensures failed ==> |pending| >= MAX_TO_COMMIT
    {
      if k in held || k in changed { return Conflict; }
      var found := Search(k, Exclusive, full, sweeps);
      if failed { return Failed; }
      assert held + changed == old(held) + old(changed) + {k};
      if found == NOT_EXIST { return NotExists; }
      Delete(k, None, full, sweeps);
      code := if failed then Failed else Success;
      assert !failed ==> held + changed == old(held) + old(changed) + {k};
    }

    method HandleMoveDir(src: Key, dst: Key, full: bool, sweeps: seq<Sweep>) returns (code: Code)
      requires Valid() && !failed
      requires SweepsOk(sweeps)
      modifies this
      ensures Valid() && committed == old(committed)
      ensures failed <==> code == Failed
      ensures !failed ==> Law(old(Seen()), MoveDir(src, dst), code, Seen())
      ensures |pending| <= |old(pending)| + 4
      ensures failed ==> |pending| >= MAX_TO_COMMIT
    {
      if src in held || src in changed { return Conflict; }
      var id := Search(src, Exclusive, full, sweeps);
      if failed { return Failed; }
      assert held + changed == old(held) + old(changed) + {src};
      if id == NOT_EXIST { return NotExists; }
      if dst in held || dst in changed { return Exists; }
      var found := Search(dst, Exclusive, full, sweeps);
      if failed { return Failed; }
      assert held + changed == old(held) + old(changed) + {src, dst};
      if found != NOT_EXIST { return Exists; }
      code := MoveRow(src, dst, id, full, sweeps);
    }

    /** The two row changes of a rename, both keys locked. */
    method MoveRow(src: Key, dst: Key, id: nat, full: bool, sweeps: seq<Sweep>) returns (code: Code)
      requires Valid() && !failed && src != dst && src in held && dst in held && src !in changed && dst !in changed
      requires SweepsOk(sweeps) && src in committed && dst !in committed
      modifies this
      ensures Valid() && committed == old(committed)
      ensures code == if failed then Failed else Success
      ensures !failed ==> working == (old(working) - {src})[dst := id] && held + changed == old(held) + old(changed)
      ensures |pending| <= |old(pending)| + 2 && (failed ==> |pending| >= MAX_TO_COMMIT)
    {
      Delete(src, None, full, sweeps);
      if failed { return Failed; }
      Insert(dst, id, None, full, sweeps);
      code := if failed then Failed else Success;
    }

    // Serial transactions

    /** The requests of a transaction up to its end or its first error. */
    method RunRequests(requests: seq<Request>) returns (ok: bool)
      requires Valid() && Idle()
      requires forall i :: 0 <= i < |requests| ==> SweepsOk(requests[i].sweeps)
      modifies this
      ensures Valid() && committed == old(committed)
      ensures ok ==> !failed && PerformAll(old(Seen()), requests) == (true, Seen())
      ensures !ok ==> !PerformAll(old(Seen()), requests).0 || 4 * |requests| >= MAX_TO_COMMIT
    {
      var i := 0;
      while i < |requests|
        invariant 0 <= i <= |requests| && Valid() && !failed && committed == old(committed)
        invariant PerformAll(old(Seen()), requests[..i]) == (true, Seen())
        invariant |pending| <= 4 * i
      {
        var r := requests[i];
        assert requests[..i + 1][..i] == requests[..i];
        ghost var was := Seen();
        var code := Handle(r.op, r.full, r.sweeps);
        if !failed { LawIsPerform(was, r.op, code, Seen()); }
        if Aborts(r.op, code) {
          if !PerformAll(old(Seen()), requests[..i + 1]).0 { AbortSticks(old(Seen()), requests, i + 1); }
          return false;
        }
        i := i + 1;
      }
      assert requests[..i] == requests;
      return true;
    }

    /** One transaction: the cache stays coherent, and unless the list of cache actions
        can overflow the table changes as it would without a cache. */
    method RunTxn(t: Txn)
      requires Valid() && Idle() && TxnOk(t)
      modifies this
      ensures Valid() && Idle()
      ensures 4 * |t.requests| < MAX_TO_COMMIT ==> committed == AfterTxn(old(committed), t)
    {
      assert held + changed == {};
      var ok := RunRequests(t.requests);
      if ok && t.commits { Commit(t.sweeps, t.crowded); } else { Abort(); }
    }

    /** Any serial sequence of transactions that fit the list of cache actions: every cached
        id is unknown or the committed one, and the table is what the operations say. */
    method RunTxns(txns: seq<Txn>)
      requires Valid() && Idle() && forall i :: 0 <= i < |txns| ==> TxnOk(txns[i])
      modifies this
      ensures Valid() && Idle()
      ensures Coherent()
      ensures (forall i :: 0 <= i < |txns| ==> 4 * |txns[i].requests| < MAX_TO_COMMIT) ==>
                committed == AfterTxns(old(committed), txns)
    {
      for n := 0 to |txns|
        invariant Valid() && Idle()
        invariant (forall i :: 0 <= i < |txns| ==> 4 * |txns[i].requests| < MAX_TO_COMMIT) ==>
                    committed == AfterTxns(old(committed), txns[..n])
      {
        assert txns[..n + 1][..n] == txns[..n];
        RunTxn(txns[n]);
      }
      assert txns[..|txns|] == txns;
    }
  }
}
