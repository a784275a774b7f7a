/**
 * The string-keyed table of cutil/hash_table.c over the hash index.  Its
 * contents are the (key, datum) pairs in insertion order; while keys are
 * unique it is a finite map.
 */
module HashTable {
  import opened Wrappers
  import opened Reversal
  import opened UtHash
  import CursorList

  type Entry<V> = (string, V)

  predicate HasKey<V>(es: seq<Entry<V>>, key: string) {
    exists i :: 0 <= i < |es| && es[i].0 == key
  }

  predicate UniqueKeys<V>(es: seq<Entry<V>>) {
    forall i, j :: 0 <= i < j < |es| ==> es[i].0 != es[j].0
  }

  function AsMap<V>(es: seq<Entry<V>>): map<string, V> {
    if es == [] then map[]
    else AsMap(es[..|es| - 1])[es[|es| - 1].0 := es[|es| - 1].1]
  }

  function IndexOf<V>(es: seq<Entry<V>>, key: string): (i: nat)
    requires HasKey(es, key)
    ensures i < |es| && es[i].0 == key
  {
    if es[0].0 == key then 0
    else
      assert exists i :: 1 <= i < |es| && es[i].0 == key && es[1..][i - 1] == es[i];
      1 + IndexOf(es[1..], key)
  }

  datatype Op<V> = AddUnique(key: string, data: V) | Remove(key: string)

  // One operation on the entries, and on the plain finite map.
  function StepEntries<V>(es: seq<Entry<V>>, op: Op<V>): seq<Entry<V>> {
    match op
    case AddUnique(key, data) => if HasKey(es, key) then es else es + [(key, data)]
    case Remove(key) => if HasKey(es, key) then DropAt(es, IndexOf(es, key)) else es
  }

  function StepMap<V>(m: map<string, V>, op: Op<V>): map<string, V> {
    match op
    case AddUnique(key, data) => if key in m then m else m[key := data]
    case Remove(key) => m - {key}
  }

  function RunEntries<V>(ops: seq<Op<V>>): seq<Entry<V>> {
    if ops == [] then [] else StepEntries(RunEntries(ops[..|ops| - 1]), ops[|ops| - 1])
  }

  function RunMap<V>(ops: seq<Op<V>>): map<string, V> {
    if ops == [] then map[] else StepMap(RunMap(ops[..|ops| - 1]), ops[|ops| - 1])
  }

  lemma {:induction false} AsMapKeys<V>(es: seq<Entry<V>>, key: string)
    ensures key in AsMap(es) <==> HasKey(es, key)
  {
    if es != [] {
      var init, last := es[..|es| - 1], es[|es| - 1];
      AsMapKeys(init, key);
      if HasKey(init, key) {
        var i :| 0 <= i < |init| && init[i].0 == key;
        assert es[i].0 == key;
      }
      if last.0 == key {
        assert es[|es| - 1].0 == key;
      }
    }
  }

  lemma {:induction false} AsMapValue<V>(es: seq<Entry<V>>, i: nat)
    requires UniqueKeys(es) && i < |es|
    ensures es[i].0 in AsMap(es) && AsMap(es)[es[i].0] == es[i].1
  {
    if i < |es| - 1 {
      AsMapValue(es[..|es| - 1], i);
    }
  }

  lemma AsMapSnoc<V>(es: seq<Entry<V>>, e: Entry<V>)
    ensures AsMap(es + [e]) == AsMap(es)[e.0 := e.1]
  {
    assert (es + [e])[..|es|] == es;
  }

  lemma DropUnique<V>(es: seq<Entry<V>>, i: nat)
    requires UniqueKeys(es) && i < |es|
    ensures UniqueKeys(DropAt(es, i))
  {
  }

  lemma DropThenUpdate<K, T>(m: map<K, T>, k: K, l: K, v: T)
    requires k != l
    ensures (m - {k})[l := v] == m[l := v] - {k}
  {
  }

  lemma {:induction false} AsMapDrop<V>(es: seq<Entry<V>>, i: nat)
    requires UniqueKeys(es) && i < |es|
    ensures UniqueKeys(DropAt(es, i))
    ensures AsMap(DropAt(es, i)) == AsMap(es) - {es[i].0}
  {
    DropUnique(es, i);
    var last, init := es[|es| - 1], es[..|es| - 1];
    if i == |es| - 1 {
      assert DropAt(es, i) == init;
      AsMapKeys(init, last.0);
      assert last.0 !in AsMap(init);
    } else {
      AsMapDrop(init, i);
      assert DropAt(es, i) == DropAt(init, i) + [last];
      hide UniqueKeys, DropAt;
      AsMapSnoc(DropAt(init, i), last);
      DropThenUpdate(AsMap(init), es[i].0, last.0, last.1);
    }
  }

  // Through any history the entries have unique keys and are the finite map
  // the same history builds.
  lemma {:induction false} HistoryIsMap<V>(ops: seq<Op<V>>)
    ensures UniqueKeys(RunEntries(ops))
    ensures AsMap(RunEntries(ops)) == RunMap(ops)
  {
    if ops != [] {
      var init, op := ops[..|ops| - 1], ops[|ops| - 1];
      HistoryIsMap(init);
      var es := RunEntries(init);
      AsMapKeys(es, op.key);
      match op
      case AddUnique(key, data) =>
        AsMapSnoc(es, (key, data));
      case Remove(key) =>
        if HasKey(es, key) {
          AsMapDrop(es, IndexOf(es, key));
        }
    }
  }

  ghost function EntriesOf<V>(s: seq<Handle<V>>): seq<Entry<V>> {
    seq(|s|, i requires 0 <= i < |s| => (s[i].key, s[i].data))
  }

  function Values<V>(es: seq<Entry<V>>): seq<V> {
    seq(|es|, i requires 0 <= i < |es| => es[i].1)
  }

  class Table<V(==)> {
    const index: Index<V>
    ghost var Repr: set<object>

    ghost predicate Valid()
      reads this, Repr
      ensures Valid() ==> this in Repr
    {
      && this in Repr && index in Repr && index.Repr <= Repr && this !in index.Repr
      && index.Valid()
    }

    ghost function Entries(): seq<Entry<V>>
      reads this, index
    {
      EntriesOf(index.appOrder)
    }

    // ht_create
    constructor (hash: string -> U32)
      ensures Valid() && fresh(Repr) && Entries() == []
    {
      index := new Index(hash);
      new;
      Repr := {this} + index.Repr;
    }

    // ht_add_entry: appends whether or not the key is already there.
    method AddEntry(key: string, data: V) returns (err: int)
      requires Valid()
      modifies Repr
      ensures Valid() && fresh(Repr - old(Repr))
      ensures err == 0 && Entries() == old(Entries()) + [(key, data)]
    {
      hide Raised, Index.Grows, Index.GrowthStats, Index.Valid, HashValue;
      var entry := new Handle(key, data, HashValue(index.hash, key));
      index.AddKeyptr(entry);
      Repr := Repr + index.Repr;
      err := 0;
    }

    // ht_add_unique_entry
    method AddUniqueEntry(key: string, data: V) returns (err: int)
      requires Valid()
      modifies Repr
      ensures Valid() && fresh(Repr - old(Repr))
      ensures err == if HasKey(old(Entries()), key) then -1 else 0
      ensures Entries() == StepEntries(old(Entries()), AddUnique(key, data))
    {
      err := -1;
      var entry := index.Find(key);
      FoundIff(entry, key);
      if entry == null {
        var added := AddEntry(key, data);
        err := 0;
      }
    }

    // ht_remove_entry: removes one entry with the key; the only one while keys
    // are unique.
    method RemoveEntry(key: string) returns (err: int)
      requires Valid()
      modifies Repr
      ensures Valid() && Repr == old(Repr)
      ensures err == if HasKey(old(Entries()), key) then 0 else -1
      ensures err == -1 ==> Entries() == old(Entries())
      ensures err == 0 ==>
                var es := old(Entries());
                exists k :: 0 <= k < |es| && es[k].0 == key && Entries() == DropAt(es, k)
      ensures UniqueKeys(old(Entries())) ==> Entries() == StepEntries(old(Entries()), Remove(key))
    {
      hide EntriesOf, UniqueKeys, IndexOf, HasKey, DropAt;
      err := -1;
      var entry := index.Find(key);
      FoundIff(entry, key);
      if entry != null {
        ghost var order := index.appOrder;
        ghost var k := index.Delete(entry);
        EntryDropped(order, k, key);
        err := 0;
      }
    }

    static lemma EntryDropped(order: seq<Handle<V>>, k: nat, key: string)
      requires k < |order| && order[k].key == key
      ensures k < |EntriesOf(order)| && EntriesOf(order)[k].0 == key
      ensures EntriesOf(DropAt(order, k)) == DropAt(EntriesOf(order), k)
      ensures HasKey(EntriesOf(order), key)
      ensures UniqueKeys(EntriesOf(order)) ==> IndexOf(EntriesOf(order), key) == k
    {
      assert EntriesOf(DropAt(order, k)) == DropAt(EntriesOf(order), k);
    }

    // Any history of ht_add_unique_entry and ht_remove_entry, from the empty table.
    method Replay(ops: seq<Op<V>>)
      requires Valid() && Entries() == []
      modifies Repr
      ensures Valid() && fresh(Repr - old(Repr))
      ensures UniqueKeys(Entries()) && Entries() == RunEntries(ops) && AsMap(Entries()) == RunMap(ops)
    {
      for i := 0 to |ops|
        invariant Valid() && fresh(Repr - old(Repr))
        invariant Entries() == RunEntries(ops[..i])
      {
        assert ops[..i + 1][..i] == ops[..i];
        HistoryIsMap(ops[..i]);
        match ops[i]
        case AddUnique(key, data) =>
          var err := AddUniqueEntry(key, data);
        case Remove(key) =>
          var err := RemoveEntry(key);
      }
      assert ops[..|ops|] == ops;
      HistoryIsMap(ops);
    }

    // ht_has_entry
    method HasEntry(key: string) returns (res: bool)
      requires Valid()
      ensures res <==> HasKey(Entries(), key)
      ensures res <==> key in AsMap(Entries())
    {
      var entry := index.Find(key);
      FoundIff(entry, key);
      AsMapKeys(Entries(), key);
      res := entry != null;
    }

    // ht_get_entry: with unique keys, the lookup of the finite map.
    method GetEntry(key: string) returns (ret: Option<V>)
      requires Valid()
      ensures ret.Some? <==> HasKey(Entries(), key)
      ensures ret.Some? ==> (key, ret.value) in Entries()
      ensures UniqueKeys(Entries()) ==>
                ret == if key in AsMap(Entries()) then Some(AsMap(Entries())[key]) else None
    {
      var entry := index.Find(key);
      FoundIff(entry, key);
      AsMapKeys(Entries(), key);
      if entry == null {
        ret := None;
      } else {
        ret := Some(entry.data);
        ghost var i :| 0 <= i < |index.appOrder| && index.appOrder[i] == entry;
        assert Entries()[i] == (key, entry.data);
        if UniqueKeys(Entries()) {
          AsMapValue(Entries(), i);
        }
      }
    }

    lemma FoundIff(entry: Handle?<V>, key: string)
      requires entry == null ==> forall h :: h in index.appOrder ==> h.key != key
      requires entry != null ==> entry in index.appOrder && entry.key == key
      ensures entry != null <==> HasKey(Entries(), key)
    {
      if entry != null {
        var i :| 0 <= i < |index.appOrder| && index.appOrder[i] == entry;
        assert Entries()[i].0 == key;
      } else {
        forall i | 0 <= i < |Entries()|
          ensures Entries()[i].0 != key
        {
          assert index.appOrder[i] in index.appOrder;
        }
      }
    }

    // ht_to_list: each datum is added in front, so the newest comes first.
    method ToList() returns (l: CursorList.List<V>)
      requires Valid()
      ensures l.Valid() && fresh(l.Repr)
      ensures l.contents == Rev(Values(Entries()))
    {
      l := new CursorList.List();
      var entry := index.head;
      ghost var k := 0;
      ghost var order := index.appOrder;
      while entry != null
        invariant Valid() && index.appOrder == order && k <= |order|
        invariant entry == HandleAt(order, k)
        invariant l.Valid() && fresh(l.Repr)
        invariant l.contents == Rev(Values(EntriesOf(order[..k])))
        decreases |order| - k
      {
        assert order[k].next == HandleAt(order, k + 1);
        l.Add(entry.data);
        ToListStep(order, k);
        entry := entry.next;
        k := k + 1;
      }
      assert order[..k] == order;
    }

    static lemma ToListStep(order: seq<Handle<V>>, k: nat)
      requires k < |order|
      ensures Rev(Values(EntriesOf(order[..k + 1]))) == [order[k].data] + Rev(Values(EntriesOf(order[..k])))
    {
      RevAppend(Values(EntriesOf(order[..k])), order[k].data);
      assert Values(EntriesOf(order[..k + 1])) == Values(EntriesOf(order[..k])) + [order[k].data];
    }
  }
}
