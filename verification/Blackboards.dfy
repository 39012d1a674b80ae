/**
 The run's blackboard: a dictionary that counts writes per key, so that nodes can tell whether an entry was written
 since they last looked.
 */
module Blackboards {
  import opened Wrappers

  type Key = string

  datatype Board<V> = Board(items: map<Key, V>, versions: map<Key, nat>)

  datatype Op<V> =
    | Set(key: Key, value: V)
    | Delete(key: Key)            // raises for a missing key
    | Pop(key: Key)
    | SetDefault(key: Key, value: V)
    | Update(items: map<Key, V>)

  function Version<V>(b: Board<V>, k: Key): nat {
    if k in b.versions then b.versions[k] else 0
  }

  /** A blackboard that starts with these items. */
  function Begin<V>(items: map<Key, V>): Board<V> {
    Board(items, map k | k in items :: 1)
  }

  function Bumped<V>(b: Board<V>, k: Key): Board<V> {
    b.(versions := b.versions[k := Version(b, k) + 1])
  }

  function Put<V>(b: Board<V>, k: Key, v: V): Board<V> {
    Bumped(b.(items := b.items[k := v]), k)
  }

  function Do<V>(b: Board<V>, op: Op<V>): Board<V> {
    match op
    case Set(k, v) => Put(b, k, v)
    case Delete(k) => if k in b.items then Bumped(b.(items := b.items - {k}), k) else b
    case Pop(k) => Bumped(b.(items := b.items - {k}), k)
    case SetDefault(k, v) => if k in b.items then b else Put(b, k, v)
    case Update(m) =>
      Board(b.items + m, b.versions + map k | k in m :: Version(b, k) + 1)
  }

  function AfterOps<V>(b: Board<V>, ops: seq<Op<V>>): Board<V>
    decreases |ops|
  {
    if ops == [] then b else AfterOps(Do(b, ops[0]), ops[1..])
  }

  // ------------------------------------------------------------------- what counts

  /** Does this operation write the entry k? A pop counts even if there was nothing to pop. */
  predicate Writes<V>(b: Board<V>, op: Op<V>, k: Key) {
    match op
    case Set(key, _) => key == k
    case Delete(key) => key == k && k in b.items
    case Pop(key) => key == k
    case SetDefault(key, _) => key == k && k !in b.items
    case Update(m) => k in m
  }

  function WritesTo<V>(b: Board<V>, ops: seq<Op<V>>, k: Key): nat
    decreases |ops|
  {
    if ops == [] then 0 else (if Writes(b, ops[0], k) then 1 else 0) + WritesTo(Do(b, ops[0]), ops[1..], k)
  }

  function Entry<V>(b: Board<V>, k: Key): Option<V> {
    if k in b.items then Some(b.items[k]) else None
  }

  /** The version of an entry is exactly the number of its writes. */
  lemma {:induction false} VersionsCountWrites<V>(b: Board<V>, ops: seq<Op<V>>, k: Key)
    ensures Version(AfterOps(b, ops), k) == Version(b, k) + WritesTo(b, ops, k)
    decreases |ops|
  {
    if ops == [] {
    } else {
      VersionsCountWrites(Do(b, ops[0]), ops[1..], k);
    }
  }

  lemma {:induction false} UnwrittenStays<V>(b: Board<V>, ops: seq<Op<V>>, k: Key)
    requires WritesTo(b, ops, k) == 0
    ensures Entry(AfterOps(b, ops), k) == Entry(b, k)
    decreases |ops|
  {
    if ops == [] {
    } else {
      UnwrittenStays(Do(b, ops[0]), ops[1..], k);
    }
  }

  /** What an operation that writes the entry k leaves there. */
  function Leaves<V>(op: Op<V>, k: Key): Option<V> {
    match op
    case Set(_, v) => Some(v)
    case SetDefault(_, v) => Some(v)
    case Update(m) => if k in m then Some(m[k]) else None
    case _ => None
  }

  lemma {:induction false} AfterBoth<V>(b: Board<V>, x: seq<Op<V>>, y: seq<Op<V>>)
    ensures AfterOps(b, x + y) == AfterOps(AfterOps(b, x), y)
    decreases |x|
  {
    hide Do;
    if x == [] {
      assert x + y == y;
    } else {
      assert (x + y)[1..] == x[1..] + y;
      AfterBoth(Do(b, x[0]), x[1..], y);
    }
  }

  /** An entry is what the last operation that wrote it left there. */
  lemma LastWriteStands<V>(b: Board<V>, before: seq<Op<V>>, op: Op<V>, rest: seq<Op<V>>, k: Key)
    requires Writes(AfterOps(b, before), op, k)
    requires WritesTo(AfterOps(b, before + [op]), rest, k) == 0
    ensures Entry(AfterOps(b, before + [op] + rest), k) == Leaves(op, k)
  {
    AfterBoth(b, before, [op]);
    AfterBoth(b, before + [op], rest);
    UnwrittenStays(AfterOps(b, before + [op]), rest, k);
    assert AfterOps(AfterOps(b, before), [op]) == Do(AfterOps(b, before), op);
  }

  /** No change of an entry goes unnoticed, however often its value changed back and forth. */
  lemma ChangesAreNoticed<V>(b: Board<V>, ops: seq<Op<V>>, k: Key)
    ensures Version(AfterOps(b, ops), k) != Version(b, k) <==> WritesTo(b, ops, k) > 0
    ensures Entry(AfterOps(b, ops), k) != Entry(b, k) ==> Version(AfterOps(b, ops), k) > Version(b, k)
  {
    VersionsCountWrites(b, ops, k);
    if WritesTo(b, ops, k) == 0 {
      UnwrittenStays(b, ops, k);
    }
  }

  /** Every entry there is has a version, so an entry that was never written is missing. */
  ghost predicate AllCounted<V>(b: Board<V>) {
    forall k | k in b.items :: Version(b, k) > 0
  }

  lemma {:induction false} EntriesAreCounted<V>(items: map<Key, V>, ops: seq<Op<V>>)
    ensures AllCounted(AfterOps(Begin(items), ops))
  {
    AllStayCounted(Begin(items), ops);
  }

  lemma {:induction false} AllStayCounted<V>(b: Board<V>, ops: seq<Op<V>>)
    requires AllCounted(b)
    ensures AllCounted(AfterOps(b, ops))
    decreases |ops|
  {
    if ops == [] {
    } else {
      AllStayCounted(Do(b, ops[0]), ops[1..]);
    }
  }

  /** `WasEntryUpdated.update`: the answer, and what the node remembers. */
  function LookedUp(seen: Option<nat>, version: nat): (bool, Option<nat>) {
    (if seen.None? then version > 0 else version != seen.value, Some(version))
  }

  /** Every later look answers whether the entry was written since the look before; the first, whether it ever was. */
  lemma LooksTellWrites<V>(start: Board<V>, before: seq<Op<V>>, between: seq<Op<V>>, k: Key)
    ensures var b := AfterOps(start, before);
            var (first, seen) := LookedUp(None, Version(b, k));
            var (second, _) := LookedUp(seen, Version(AfterOps(b, between), k));
            && (first <==> Version(start, k) + WritesTo(start, before, k) > 0)
            && (second <==> WritesTo(b, between, k) > 0)
  {
    VersionsCountWrites(start, before, k);
    VersionsCountWrites(AfterOps(start, before), between, k);
  }

  /** A pop of a missing entry passes for an update, although nothing changed. */
  lemma PopOfNothingCounts<V>(b: Board<V>, k: Key)
    requires k !in b.items
    ensures Do(b, Pop(k)).items == b.items && Version(Do(b, Pop(k)), k) > Version(b, k)
  {
    assert b.items - {k} == b.items;
  }

  // ------------------------------------------------------------------ the dictionary

  class TrackedBlackboard<V> {
    var items: map<Key, V>
    var versions: map<Key, nat>

    ghost function State(): Board<V>
      reads this
    {
      Board(items, versions)
    }

    constructor (items: map<Key, V>)
      ensures State() == Begin(items)
    {
      this.items := items;
      this.versions := map k | k in items :: 1;
    }

    method Count(k: Key)
      modifies this`versions
      ensures State() == Bumped(old(State()), k)
    {
      versions := versions[k := (if k in versions then versions[k] else 0) + 1];
    }

    method SetItem(k: Key, v: V)
      modifies this
      ensures State() == Do(old(State()), Set(k, v))
    {
      items := items[k := v];
      Count(k);
    }

    /** Fails, as the dictionary does, before anything is counted. */
    method DeleteItem(k: Key) returns (ok: bool)
      modifies this
      ensures State() == Do(old(State()), Delete(k)) && ok == (k in old(items))
    {
      ok := k in items;
      if ok {
        items := items - {k};
        Count(k);
      }
    }

    /** Counted before the dictionary looks whether there is anything to pop. */
    method PopItem(k: Key) returns (v: Option<V>)
      modifies this
      ensures State() == Do(old(State()), Pop(k)) && v == Entry(old(State()), k)
    {
      Count(k);
      v := if k in items then Some(items[k]) else None;
      items := items - {k};
    }

    method Default(k: Key, v: V) returns (r: V)
      modifies this
      ensures State() == Do(old(State()), SetDefault(k, v))
      ensures Some(r) == Entry(State(), k)
    {
      if k !in items {
        SetItem(k, v);
      }
      r := items[k];
    }

    lemma UpdateIs(b: Board<V>, m: map<Key, V>, items: map<Key, V>, versions: map<Key, nat>)
      requires items.Keys == b.items.Keys + m.Keys && versions.Keys == b.versions.Keys + m.Keys
      requires forall k | k in items :: items[k] == if k in m then m[k] else b.items[k]
      requires forall k | k in versions :: versions[k] == if k in m then Version(b, k) + 1 else b.versions[k]
      ensures Board(items, versions) == Do(b, Update(m))
    {
      assert items == b.items + m;
      var more := map k | k in m :: Version(b, k) + 1;
      assert versions == b.versions + more;
    }

    method UpdateAll(m: map<Key, V>)
      modifies this
      ensures State() == Do(old(State()), Update(m))
    {
      hide Do;
      var todo := m.Keys;
      while todo != {}
        invariant todo <= m.Keys
        invariant items.Keys == old(items.Keys) + (m.Keys - todo)
        invariant versions.Keys == old(versions.Keys) + (m.Keys - todo)
        invariant forall k | k in items :: items[k] == if k in m && k !in todo then m[k] else old(items)[k]
        invariant forall k | k in versions ::
          versions[k] == if k in m && k !in todo then Version(old(State()), k) + 1 else old(versions)[k]
        decreases todo
      {
        var k :| k in todo;
        items := items[k := m[k]];
        Count(k);
        todo := todo - {k};
      }
      UpdateIs(old(State()), m, items, versions);
    }
  }
}
