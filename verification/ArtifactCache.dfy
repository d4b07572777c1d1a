/**
 The cache from provider tasks to persisted artifacts, as a table.

 Every locked closure is one step. `created_at` is written as text and compared as text by SQL, but
 read back and subtracted as an instant by `get`; module `Timestamps` is what makes the two agree.
 Which rows survive the size eviction is SQLite's choice among equally old ones: it is an argument.
 */
module ArtifactCache {
  import opened Prelude
  import opened Timestamps

  /** (provider, task id) */
  type Key = (string, string)

  datatype Row<V> = Row(value: V, created: DateTime)

  type Rows<V> = map<Key, Row<V>>

  ghost predicate ValidRows<V>(rows: Rows<V>) {
    forall k <- rows :: Valid(rows[k].created)
  }

  predicate OlderText<V>(a: Row<V>, b: Row<V>) {
    TextLess(Iso(a.created), Iso(b.created))
  }

  /** What a lookup answers: rows older than the time to live are ignored. */
  function Lookup<V>(rows: Rows<V>, ttl: nat, key: Key, now: DateTime): Option<V>
    requires key in rows ==> Valid(rows[key].created)
    requires Valid(now)
  {
    if key in rows && Micros(now) - Micros(rows[key].created) <= ttl then Some(rows[key].value) else None
  }

  /** `keep` is a possible result of SELECT ... ORDER BY created_at DESC LIMIT n. */
  predicate IsNewest<V>(rows: Rows<V>, keep: set<Key>, n: nat) {
    && keep <= rows.Keys
    && |keep| == (if |rows| <= n then |rows| else n)
    && forall k <- keep, e <- rows.Keys - keep :: !OlderText(rows[k], rows[e])
  }

  function Restrict<V>(rows: Rows<V>, keys: set<Key>): Rows<V> {
    map k | k in rows && k in keys :: rows[k]
  }

  /** Upsert, then the size eviction if the table is over its limit. */
  function AfterSet<V>(rows: Rows<V>, n: nat, key: Key, value: V, now: DateTime, keep: set<Key>): Rows<V> {
    var upserted := rows[key := Row(value, now)];
    if |upserted| > n then Restrict(upserted, keep) else upserted
  }

  /** DELETE ... WHERE created_at < cutoff, compared as text. */
  function AfterPrune<V>(rows: Rows<V>, cutoff: DateTime): Rows<V> {
    map k | k in rows && !TextLess(Iso(rows[k].created), Iso(cutoff)) :: rows[k]
  }

  lemma OlderTextIsOlder<V>(a: Row<V>, b: Row<V>)
    requires Valid(a.created) && Valid(b.created)
    ensures OlderText(a, b) <==> Micros(a.created) < Micros(b.created)
  {
    TextOrderIsTimeOrder(a.created, b.created);
  }

  /** Some row is not newer than any other. */
  lemma {:induction false} OldestExists<V>(rows: Rows<V>) returns (oldest: Key)
    requires ValidRows(rows) && rows != map[]
    ensures oldest in rows && forall k <- rows :: !OlderText(rows[k], rows[oldest])
    decreases |rows|
  {
    hide Iso, TextLess, Micros;
    var first :| first in rows;
    var rest := rows - {first};
    oldest := first;
    if rest == map[] {
      assert forall k <- rows :: k == first by {
        assert forall k <- rows :: k != first ==> k in rest;
      }
      OlderTextIsOlder(rows[first], rows[first]);
    } else {
      var other := OldestExists(rest);
      forall k | k in rows ensures k in rest || k == first {}
      forall a, b | a in rows && b in rows ensures OlderText(rows[a], rows[b]) <==> Micros(rows[a].created) < Micros(rows[b].created) {
        OlderTextIsOlder(rows[a], rows[b]);
      }
      oldest := if Micros(rows[other].created) < Micros(rows[first].created) then other else first;
      forall k | k in rows ensures !OlderText(rows[k], rows[oldest]) {
        if k != first {
          assert !OlderText(rest[k], rest[other]);
        }
      }
    }
  }

  /** The selection always has a result. */
  lemma {:induction false} NewestExists<V>(rows: Rows<V>, n: nat) returns (keep: set<Key>)
    requires ValidRows(rows)
    ensures IsNewest(rows, keep, n)
    decreases |rows|
  {
    hide OlderText;
    if |rows| <= n {
      keep := rows.Keys;
      assert rows.Keys - keep == {};
    } else {
      var oldest := OldestExists(rows);
      var rest := rows - {oldest};
      assert rest.Keys == rows.Keys - {oldest};
      keep := NewestExists(rest, n);
      forall k, e | k in keep && e in rows.Keys - keep ensures !OlderText(rows[k], rows[e]) {
        if e != oldest {
          assert e in rest.Keys - keep && !OlderText(rest[k], rest[e]);
        }
      }
    }
  }

  lemma SubsetSize<T>(a: set<T>, b: set<T>)
    requires a <= b
    ensures |a| <= |b|
  {
    assert b == a + (b - a);
  }

  /** The text comparison of the prune is the comparison of instants. */
  lemma PruneByAge<V>(rows: Rows<V>, cutoff: DateTime)
    requires ValidRows(rows) && Valid(cutoff)
    ensures forall k :: k in AfterPrune(rows, cutoff) <==> k in rows && Micros(rows[k].created) >= Micros(cutoff)
    ensures forall k <- AfterPrune(rows, cutoff) :: AfterPrune(rows, cutoff)[k] == rows[k]
  {
    forall k | k in rows ensures TextLess(Iso(rows[k].created), Iso(cutoff)) <==> Micros(rows[k].created) < Micros(cutoff) {
      TextOrderIsTimeOrder(rows[k].created, cutoff);
    }
  }

  lemma SameSize<T>(a: set<T>, b: set<T>)
    requires a <= b
    ensures |a| == |b| ==> a == b
  {
    assert b == a + (b - a);
  }

  class SQLiteTaskArtifactCache<V(==)> {
    const ttl: nat       // microseconds
    const maxSize: nat
    var rows: Rows<V>

    ghost predicate Valid()
      reads this
    {
      ValidRows(rows)
    }

    constructor (ttl: nat, maxSize: nat)
      ensures Valid() && this.ttl == ttl && this.maxSize == maxSize && rows == map[]
    {
      this.ttl, this.maxSize, rows := ttl, maxSize, map[];
    }

    method Get(key: Key, now: DateTime) returns (value: Option<V>)
      requires Valid() && Timestamps.Valid(now)
      ensures value == Lookup(rows, ttl, key, now)
      ensures value.Some? <==> key in rows && Micros(now) - Micros(rows[key].created) <= ttl
      ensures value.Some? ==> value.value == rows[key].value
    {
      if key !in rows {
        return None;
      }
      var row := rows[key];
      if Micros(now) - Micros(row.created) > ttl {
        return None;
      }
      value := Some(row.value);
    }

    /** Some possible outcome of the eviction; never more rows than allowed, and never a newer one dropped. */
    method Set(key: Key, value: V, now: DateTime) returns (ghost keep: set<Key>)
      requires Valid() && Timestamps.Valid(now)
      modifies this
      ensures Valid()
      ensures IsNewest(old(rows)[key := Row(value, now)], keep, maxSize)
      ensures rows == AfterSet(old(rows), maxSize, key, value, now, keep)
      ensures |rows| <= maxSize && rows.Keys == keep
      ensures forall k <- rows :: rows[k] == if k == key then Row(value, now) else old(rows)[k]
    {
      rows := rows[key := Row(value, now)];
      keep := NewestExists(rows, maxSize);
      if |rows| > maxSize {
        var kept: set<Key> :| kept <= rows.Keys && IsNewest(rows, kept, maxSize);
        keep := kept;
        rows := Restrict(rows, kept);
        assert rows.Keys == kept;
      } else {
        SameSize(keep, rows.Keys);
      }
    }

    method Pop(key: Key, now: DateTime) returns (value: Option<V>)
      requires Valid() && Timestamps.Valid(now)
      modifies this
      ensures Valid() && value == Lookup(old(rows), ttl, key, now) && rows == old(rows) - {key}
      ensures value.Some? <==> key in old(rows) && Micros(now) - Micros(old(rows)[key].created) <= ttl
      ensures value.Some? ==> value.value == old(rows)[key].value
    {
      value := Get(key, now);
      if key in rows {
        rows := rows - {key};
      }
    }

    method Clear()
      modifies this
      ensures Valid() && rows == map[]
    {
      rows := map[];
    }

    /** Deletes exactly the rows whose age at `now` exceeds the time to live: those that a lookup at `now` ignores. */
    method PruneExpired(now: DateTime, cutoff: DateTime) returns (deleted: nat)
      requires Valid() && Timestamps.Valid(now) && Timestamps.Valid(cutoff) && Micros(cutoff) == Micros(now) - ttl
      modifies this
      ensures Valid() && rows == AfterPrune(old(rows), cutoff)
      ensures forall k :: k in rows <==> k in old(rows) && Micros(now) - Micros(old(rows)[k].created) <= ttl
      ensures forall k :: k in rows <==> Lookup(old(rows), ttl, k, now).Some?
      ensures forall k <- rows :: rows[k] == old(rows)[k]
      ensures deleted == |old(rows)| - |rows|
    {
      PruneByAge(rows, cutoff);
      var kept := AfterPrune(rows, cutoff);
      assert kept.Keys <= rows.Keys;
      SubsetSize(kept.Keys, rows.Keys);
      deleted := |rows| - |kept|;
      rows := kept;
    }
  }

  // ---------------------------------------------------------------------
  // Runs
  // ---------------------------------------------------------------------

  datatype Op<V> =
    | Set(key: Key, value: V, now: DateTime, keep: set<Key>)
    | Get(key: Key, now: DateTime)
    | Pop(key: Key, now: DateTime)
    | Clear(now: DateTime)
    | Prune(now: DateTime, cutoff: DateTime)

  /** The arguments fit the table; `keep` is what the eviction, if any, selects. */
  ghost predicate Enabled<V>(rows: Rows<V>, ttl: nat, n: nat, op: Op<V>) {
    && ValidRows(rows) && Valid(op.now)
    && match op {
         case Set(key, value, now, keep) => IsNewest(rows[key := Row(value, now)], keep, n)
         case Prune(now, cutoff) => Valid(cutoff) && Micros(cutoff) == Micros(now) - ttl
         case _ => true
       }
  }

  function Apply<V>(rows: Rows<V>, n: nat, op: Op<V>): Rows<V> {
    match op {
      case Set(key, value, now, keep) => AfterSet(rows, n, key, value, now, keep)
      case Get(_, _) => rows
      case Pop(key, _) => rows - {key}
      case Clear(_) => map[]
      case Prune(_, cutoff) => AfterPrune(rows, cutoff)
    }
  }

  ghost predicate Run<V>(rows: Rows<V>, ttl: nat, n: nat, ops: seq<Op<V>>, final: Rows<V>)
    decreases |ops|
  {
    if ops == [] then final == rows
    else Enabled(rows, ttl, n, ops[0]) && Run(Apply(rows, n, ops[0]), ttl, n, ops[1..], final)
  }

  function PlainStep<V>(last: Rows<V>, op: Op<V>): Rows<V> {
    match op {
      case Set(key, value, now, _) => last[key := Row(value, now)]
      case Pop(key, _) => last - {key}
      case Clear(_) => map[]
      case _ => last
    }
  }

  /** An ordinary map under the same operations: for every key what was set last, and when, unless it was popped or cleared since. */
  function Plain<V>(last: Rows<V>, ops: seq<Op<V>>): Rows<V>
    decreases |ops|
  {
    if ops == [] then last
    else Plain(PlainStep(last, ops[0]), ops[1..])
  }

  ghost predicate Refines<V>(rows: Rows<V>, last: Rows<V>) {
    ValidRows(rows) && forall k <- rows :: k in last && rows[k] == last[k]
  }

  lemma AfterSetFits<V>(rows: Rows<V>, n: nat, key: Key, value: V, now: DateTime, keep: set<Key>)
    requires IsNewest(rows[key := Row(value, now)], keep, n)
    ensures |AfterSet(rows, n, key, value, now, keep)| <= n
  {
    hide OlderText;
    var upserted := rows[key := Row(value, now)];
    if |upserted| > n {
      assert Restrict(upserted, keep).Keys == keep;
    }
  }

  lemma SetRefines<V>(rows: Rows<V>, last: Rows<V>, n: nat, key: Key, value: V, now: DateTime, keep: set<Key>)
    requires Refines(rows, last) && Valid(now)
    ensures Refines(AfterSet(rows, n, key, value, now, keep), last[key := Row(value, now)])
  {
    hide Valid;
  }

  lemma StepRefines<V>(rows: Rows<V>, last: Rows<V>, ttl: nat, n: nat, op: Op<V>)
    requires Refines(rows, last) && |rows| <= n && Enabled(rows, ttl, n, op)
    ensures Refines(Apply(rows, n, op), PlainStep(last, op)) && |Apply(rows, n, op)| <= n
  {
    hide Iso, Micros, TextLess, IsNewest, AfterSet, Valid;
    var next := Apply(rows, n, op);
    match op {
      case Set(key, value, now, keep) =>
        AfterSetFits(rows, n, key, value, now, keep);
        SetRefines(rows, last, n, key, value, now, keep);
      case Clear(_) =>
      case _ => SubsetSize(next.Keys, rows.Keys);
    }
  }

  /** Evicting is restricting to what the selection keeps, also when everything fits. */
  lemma AfterSetRestricts<V>(rows: Rows<V>, n: nat, key: Key, value: V, now: DateTime, keep: set<Key>)
    requires IsNewest(rows[key := Row(value, now)], keep, n)
    ensures AfterSet(rows, n, key, value, now, keep) == Restrict(rows[key := Row(value, now)], keep)
  {
    hide OlderText;
    var upserted := rows[key := Row(value, now)];
    if |upserted| <= n {
      SameSize(keep, upserted.Keys);
      assert Restrict(upserted, keep) == upserted;
    }
  }

  /** How a row leaves the table, exactly: it is not among the newest, it is popped or cleared, or a prune finds it too old. */
  lemma RowsLeaveExactly<V>(rows: Rows<V>, ttl: nat, n: nat, op: Op<V>, key: Key)
    requires Enabled(rows, ttl, n, op) && key in rows
    ensures key !in Apply(rows, n, op) <==>
            match op {
              case Set(_, _, _, keep) => key !in keep
              case Get(_, _) => false
              case Pop(popped, _) => popped == key
              case Clear(_) => true
              case Prune(now, _) => Micros(now) - Micros(rows[key].created) > ttl
            }
  {
    hide Iso, Micros, OlderText;
    match op {
      case Set(k, value, now, keep) =>
        AfterSetRestricts(rows, n, k, value, now, keep);
      case Prune(_, cutoff) =>
        PruneByAge(rows, cutoff);
      case _ =>
    }
  }

  lemma {:induction false} RunRefines<V>(rows: Rows<V>, last: Rows<V>, ttl: nat, n: nat, ops: seq<Op<V>>, final: Rows<V>)
    requires Refines(rows, last) && |rows| <= n && Run(rows, ttl, n, ops, final)
    ensures Refines(final, Plain(last, ops)) && |final| <= n
    decreases |ops|
  {
    hide Refines, Enabled, Apply, PlainStep;
    if ops == [] {
    } else {
      StepRefines(rows, last, ttl, n, ops[0]);
      RunRefines(Apply(rows, n, ops[0]), PlainStep(last, ops[0]), ttl, n, ops[1..], final);
    }
  }

  /**
   After every run from an empty table, which is within its size: a lookup of a key that is still in
   the table yields the value last set for it since that key was last popped or the table cleared,
   exactly up to the time to live after it was set; a lookup of any other key yields nothing.
   */
  lemma CacheRefinesMap<V>(ttl: nat, n: nat, ops: seq<Op<V>>, final: Rows<V>, key: Key, now: DateTime)
    requires Run(map[], ttl, n, ops, final) && Valid(now)
    ensures |final| <= n && ValidRows(final)
    ensures var last := Plain(map[], ops);
            && (key in final ==> key in last && Valid(last[key].created))
            && Lookup(final, ttl, key, now) ==
               if key in final && Micros(now) - Micros(last[key].created) <= ttl then Some(last[key].value) else None
  {
    RunRefines(map[], map[], ttl, n, ops, final);
  }

  /** The other rows that the eviction may rank with or before a row written at `now`. */
  ghost function NotOlder<V>(rows: Rows<V>, key: Key, now: DateTime): set<Key>
    requires ValidRows(rows) && Valid(now)
  {
    set k | k in rows && k != key && Micros(rows[k].created) >= Micros(now)
  }

  lemma KeptAreRivals<V>(rows: Rows<V>, others: Rows<V>, key: Key, now: DateTime, keep: set<Key>, n: nat, k: Key)
    requires ValidRows(rows) && Valid(now) && key in rows && rows[key].created == now && others == rows - {key}
    requires IsNewest(others, keep, n) && |others| >= n && |NotOlder(rows, key, now)| >= n && k in keep
    ensures k in NotOlder(rows, key, now)
  {
    hide Micros, OlderText;
    var rivals := NotOlder(rows, key, now);
    assert k !in rivals ==> |rivals + {k}| == |rivals| + 1;
    if k !in rivals {
      forall r | r in rivals ensures r in keep {
        assert r in others;
        OlderTextIsOlder(others[k], others[r]);
      }
      SubsetSize(rivals + {k}, keep);
    }
  }

  /**
   A value is not always there after it was set: the eviction may drop the very row just written,
   and it may do so exactly when the table is over its size and as many other rows as it may keep
   are stamped no earlier - ties included.
   */
  lemma FreshRowAtRisk<V>(rows: Rows<V>, key: Key, value: V, now: DateTime, n: nat)
    requires ValidRows(rows) && Valid(now)
    ensures
      var upserted := rows[key := Row(value, now)];
      (exists keep :: IsNewest(upserted, keep, n) && key !in AfterSet(rows, n, key, value, now, keep)) <==>
      |upserted| > n && |NotOlder(upserted, key, now)| >= n
  {
    hide Micros, OlderText;
    var upserted := rows[key := Row(value, now)];
    var rivals := NotOlder(upserted, key, now);
    if keep :| IsNewest(upserted, keep, n) && key !in AfterSet(rows, n, key, value, now, keep) {
      forall k | k in keep ensures k in rivals {
        OlderTextIsOlder(upserted[k], upserted[key]);
      }
      SubsetSize(keep, rivals);
    }
    if |upserted| > n && |rivals| >= n {
      var others := upserted - {key};
      assert others.Keys == upserted.Keys - {key};
      var keep := NewestExists(others, n);
      forall k | k in keep ensures k in rivals {
        KeptAreRivals(upserted, others, key, now, keep, n, k);
      }
      forall k, e | k in keep && e in upserted.Keys - keep ensures !OlderText(upserted[k], upserted[e]) {
        if e == key {
          OlderTextIsOlder(upserted[k], upserted[key]);
        } else {
          assert e in others.Keys - keep;
          assert !OlderText(others[k], others[e]);
        }
      }
      assert IsNewest(upserted, keep, n);
    }
  }

  // ---------------------------------------------------------------------
  // Prunes are invisible
  // ---------------------------------------------------------------------

  /** `pruned` lacks exactly rows that were already older than `bar`, and none of its own rows is. */
  ghost predicate Lagging<V>(rows: Rows<V>, pruned: Rows<V>, bar: int) {
    && ValidRows(rows)
    && pruned.Keys <= rows.Keys
    && (forall k <- pruned :: pruned[k] == rows[k] && Micros(rows[k].created) >= bar)
    && (forall k <- rows.Keys - pruned.Keys :: Micros(rows[k].created) < bar)
  }

  /** The same operation on a table that was pruned meanwhile: the eviction keeps what is still there. */
  function Follow<V>(pruned: Rows<V>, op: Op<V>): Op<V> {
    if op.Set? then op.(keep := op.keep * (pruned.Keys + {op.key})) else op
  }

  /** A selection that keeps a row below the bar keeps every row above it. */
  lemma BelowBarGoesFirst<V>(rows: Rows<V>, pruned: Rows<V>, bar: int, keep: set<Key>, n: nat)
    requires Lagging(rows, pruned, bar) && IsNewest(rows, keep, n)
    ensures keep <= pruned.Keys || pruned.Keys <= keep
  {
    hide Micros, OlderText;
    if !(keep <= pruned.Keys) {
      var e :| e in keep && e !in pruned.Keys;
      forall p | p in pruned.Keys ensures p in keep {
        OlderTextIsOlder(rows[e], rows[p]);
      }
    }
  }

  /** So the pruned table keeps just its part of what was kept. */
  lemma EvictionFollows<V>(rows: Rows<V>, pruned: Rows<V>, bar: int, keep: set<Key>, n: nat)
    requires Lagging(rows, pruned, bar) && IsNewest(rows, keep, n)
    ensures IsNewest(pruned, keep * pruned.Keys, n)
  {
    hide Micros, OlderText;
    BelowBarGoesFirst(rows, pruned, bar, keep, n);
    SubsetSize(pruned.Keys, rows.Keys);
    var mine := keep * pruned.Keys;
    if pruned.Keys <= keep {
      assert mine == pruned.Keys;
      SubsetSize(pruned.Keys, keep);
    } else {
      assert mine == keep;
      SubsetSize(keep, pruned.Keys);
      if |rows| <= n {
        SameSize(keep, rows.Keys);
      }
      SameSize(keep, pruned.Keys);
    }
    forall k, e | k in mine && e in pruned.Keys - mine ensures !OlderText(pruned[k], pruned[e]) {
      assert e in rows.Keys - keep;
    }
  }

  lemma RestrictLags<V>(rows: Rows<V>, pruned: Rows<V>, bar: int, keep: set<Key>)
    requires Lagging(rows, pruned, bar)
    ensures Lagging(Restrict(rows, keep), Restrict(pruned, keep * pruned.Keys), bar)
  {
    hide Micros;
  }

  lemma SetFollows<V>(rows: Rows<V>, pruned: Rows<V>, bar: int, ttl: nat, n: nat, op: Op<V>)
    requires op.Set? && Lagging(rows, pruned, bar) && Enabled(rows, ttl, n, op) && Micros(op.now) >= bar
    ensures Enabled(pruned, ttl, n, Follow(pruned, op))
    ensures Lagging(Apply(rows, n, op), Apply(pruned, n, Follow(pruned, op)), bar)
  {
    hide Micros, AfterSet, IsNewest, Restrict;
    var row := Row(op.value, op.now);
    var rows', pruned' := rows[op.key := row], pruned[op.key := row];
    assert pruned'.Keys == pruned.Keys + {op.key};
    assert Lagging(rows', pruned', bar);
    EvictionFollows(rows', pruned', bar, op.keep, n);
    AfterSetRestricts(rows, n, op.key, op.value, op.now, op.keep);
    AfterSetRestricts(pruned, n, op.key, op.value, op.now, op.keep * pruned'.Keys);
    RestrictLags(rows', pruned', bar, op.keep);
  }

  /** A prune at `now` raises the bar to its cutoff. */
  lemma PruneRaisesBar<V>(rows: Rows<V>, pruned: Rows<V>, bar: int, cutoff: DateTime)
    requires Lagging(rows, pruned, bar) && Valid(cutoff)
    ensures Lagging(rows, AfterPrune(pruned, cutoff), if Micros(cutoff) > bar then Micros(cutoff) else bar)
  {
    PruneByAge(pruned, cutoff);
  }

  /** What the lookups and pops of a run answer, in order. */
  function Answers<V>(rows: Rows<V>, ttl: nat, n: nat, ops: seq<Op<V>>): seq<Option<V>>
    requires ValidRows(rows) && forall op <- ops :: Valid(op.now)
    decreases |ops|
  {
    if ops == [] then []
    else
      (if ops[0].Get? || ops[0].Pop? then [Lookup(rows, ttl, ops[0].key, ops[0].now)] else [])
      + Answers(Apply(rows, n, ops[0]), ttl, n, ops[1..])
  }

  /** The operations as the pruned table takes them. */
  function Followed<V>(pruned: Rows<V>, n: nat, ops: seq<Op<V>>): (followed: seq<Op<V>>)
    ensures |followed| == |ops|
    ensures forall i | 0 <= i < |ops| :: followed[i].now == ops[i].now
    decreases |ops|
  {
    if ops == [] then []
    else
      var op := Follow(pruned, ops[0]);
      [op] + Followed(Apply(pruned, n, op), n, ops[1..])
  }

  function WithoutPrunes<V>(ops: seq<Op<V>>): (kept: seq<Op<V>>)
    ensures forall op <- kept :: op in ops
  {
    if ops == [] then []
    else (if ops[0].Prune? then [] else [ops[0]]) + WithoutPrunes(ops[1..])
  }

  /** The latest cutoff of the prunes so far. */
  function BarAfter<V>(bar: int, op: Op<V>): int
    requires op.Prune? ==> Valid(op.cutoff)
  {
    if op.Prune? && Micros(op.cutoff) > bar then Micros(op.cutoff) else bar
  }

  ghost predicate TimelyOp<V>(op: Op<V>, bar: int, ttl: nat) {
    && Valid(op.now)
    && match op {
         case Set(_, _, now, _) => Micros(now) >= bar
         case Prune(now, cutoff) => Valid(cutoff) && Micros(cutoff) == Micros(now) - ttl
         case Clear(_) => true
         case _ => Micros(op.now) >= bar + ttl
       }
  }

  /**
   Clock readings belong to the operations, in the order in which these reach the table: a lookup
   reads its clock no earlier than any prune before it did; a value that is set waited for the table
   no longer than it would live. Otherwise readings may come in any order.
   */
  ghost predicate Timely<V>(ops: seq<Op<V>>, bar: int, ttl: nat) {
    ops == [] || (TimelyOp(ops[0], bar, ttl) && Timely(ops[1..], BarAfter(bar, ops[0]), ttl))
  }

  lemma {:induction false} TimelyValid<V>(ops: seq<Op<V>>, bar: int, ttl: nat)
    requires Timely(ops, bar, ttl)
    ensures forall op <- ops :: Valid(op.now)
  {
    if ops == [] {
    } else {
      TimelyValid(ops[1..], BarAfter(bar, ops[0]), ttl);
    }
  }

  /** Behind the bar, tables that differ by a prune answer alike from the bar plus the time to live on. */
  lemma LookupsAgree<V>(rows: Rows<V>, pruned: Rows<V>, bar: int, ttl: nat, key: Key, now: DateTime)
    requires Lagging(rows, pruned, bar) && Valid(now) && Micros(now) >= bar + ttl
    ensures Lookup(rows, ttl, key, now) == Lookup(pruned, ttl, key, now)
  {
  }

  lemma StepLags<V>(rows: Rows<V>, pruned: Rows<V>, bar: int, ttl: nat, n: nat, op: Op<V>)
    requires Lagging(rows, pruned, bar) && TimelyOp(op, bar, ttl) && (!op.Prune? ==> Enabled(rows, ttl, n, op))
    ensures Enabled(pruned, ttl, n, Follow(pruned, op))
    ensures Lagging(if op.Prune? then rows else Apply(rows, n, op), Apply(pruned, n, Follow(pruned, op)), BarAfter(bar, op))
  {
    hide Iso, Micros, OlderText, AfterPrune, AfterSet;
    if op.Set? {
      SetFollows(rows, pruned, bar, ttl, n, op);
    } else if op.Prune? {
      PruneRaisesBar(rows, pruned, bar, op.cutoff);
    }
  }

  lemma LaggingValid<V>(rows: Rows<V>, pruned: Rows<V>, bar: int)
    requires Lagging(rows, pruned, bar)
    ensures ValidRows(rows) && ValidRows(pruned)
  {
  }

  lemma WithoutOnePrune<V>(ops: seq<Op<V>>)
    requires ops != []
    ensures ops[0].Prune? ==> WithoutPrunes(ops) == WithoutPrunes(ops[1..])
    ensures !ops[0].Prune? ==> WithoutPrunes(ops) != [] && WithoutPrunes(ops)[0] == ops[0] && WithoutPrunes(ops)[1..] == WithoutPrunes(ops[1..])
  {
  }

  lemma {:induction false} PrunedRuns<V>(rows: Rows<V>, pruned: Rows<V>, bar: int, ttl: nat, n: nat,
                                         ops: seq<Op<V>>, final: Rows<V>)
    requires Lagging(rows, pruned, bar) && Timely(ops, bar, ttl)
    requires Run(rows, ttl, n, WithoutPrunes(ops), final)
    ensures exists final' :: Run(pruned, ttl, n, Followed(pruned, n, ops), final')
    decreases |ops|
  {
    hide Iso, Micros, OlderText, Apply, Enabled, Lagging, BarAfter;
    if ops == [] {
      assert Run(pruned, ttl, n, Followed(pruned, n, ops), pruned);
    } else {
      var op, rest := ops[0], ops[1..];
      WithoutOnePrune(ops);
      StepLags(rows, pruned, bar, ttl, n, op);
      var op' := Follow(pruned, op);
      var rows', pruned' := if op.Prune? then rows else Apply(rows, n, op), Apply(pruned, n, op');
      PrunedRuns(rows', pruned', BarAfter(bar, op), ttl, n, rest, final);
      var final' :| Run(pruned', ttl, n, Followed(pruned', n, rest), final');
      var followed := Followed(pruned, n, ops);
      assert followed[0] == op' && followed[1..] == Followed(pruned', n, rest);
      assert Run(pruned, ttl, n, followed, final');
    }
  }

  lemma {:induction false} PrunedAnswers<V>(rows: Rows<V>, pruned: Rows<V>, bar: int, ttl: nat, n: nat,
                                            ops: seq<Op<V>>, final: Rows<V>)
    requires Lagging(rows, pruned, bar) && Timely(ops, bar, ttl)
    requires Run(rows, ttl, n, WithoutPrunes(ops), final)
    ensures ValidRows(pruned) && (forall op <- WithoutPrunes(ops) :: Valid(op.now)) && (forall op <- Followed(pruned, n, ops) :: Valid(op.now))
    ensures Answers(rows, ttl, n, WithoutPrunes(ops)) == Answers(pruned, ttl, n, Followed(pruned, n, ops))
    decreases |ops|
  {
    hide Iso, Micros, OlderText, Apply, Lookup, Enabled, Lagging, BarAfter;
    TimelyValid(ops, bar, ttl);
    LaggingValid(rows, pruned, bar);
    if ops == [] {
    } else {
      var op, rest := ops[0], ops[1..];
      WithoutOnePrune(ops);
      StepLags(rows, pruned, bar, ttl, n, op);
      var op' := Follow(pruned, op);
      var rows', pruned' := if op.Prune? then rows else Apply(rows, n, op), Apply(pruned, n, op');
      PrunedAnswers(rows', pruned', BarAfter(bar, op), ttl, n, rest, final);
      var followed := Followed(pruned, n, ops);
      assert followed[0] == op' && followed[1..] == Followed(pruned', n, rest);
      if op.Get? || op.Pop? {
        LookupsAgree(rows, pruned, bar, ttl, op.key, op.now);
      }
    }
  }

  /**
   Prunes may be inserted anywhere into a run without changing one answer: the run with prunes is a
   run (its evictions keep what they kept before, where it is still there), and every lookup and pop
   in it answers as in the run without them.
   */
  lemma PrunesNeverMatter<V>(rows: Rows<V>, pruned: Rows<V>, bar: int, ttl: nat, n: nat, ops: seq<Op<V>>, final: Rows<V>)
    requires Lagging(rows, pruned, bar) && Timely(ops, bar, ttl)
    requires Run(rows, ttl, n, WithoutPrunes(ops), final)
    ensures exists final' :: Run(pruned, ttl, n, Followed(pruned, n, ops), final')
    ensures ValidRows(pruned) && (forall op <- WithoutPrunes(ops) :: Valid(op.now)) && (forall op <- Followed(pruned, n, ops) :: Valid(op.now))
    ensures Answers(rows, ttl, n, WithoutPrunes(ops)) == Answers(pruned, ttl, n, Followed(pruned, n, ops))
  {
    hide Run, Lagging, Timely, Answers, Followed, WithoutPrunes;
    LaggingValid(rows, pruned, bar);
    PrunedRuns(rows, pruned, bar, ttl, n, ops, final);
    PrunedAnswers(rows, pruned, bar, ttl, n, ops, final);
  }
}
