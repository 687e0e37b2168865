/**
 A fixed number of slots handed out first come, first served and never taken back, each slot
 running its own little state machine over the events of one key.
 */
module SlotTable {
  datatype Entry<K, S> = Entry(key: K, state: S)

  datatype Machine<!S, !E> = Machine(slots: nat, init: S, step: (S, E) -> S)

  function Find<K(==), S>(t: seq<Entry<K, S>>, key: K): (i: nat)
    ensures i <= |t| && (i < |t| ==> t[i].key == key)
    ensures forall j :: 0 <= j < i ==> t[j].key != key
  {
    if t == [] || t[0].key == key then 0 else 1 + Find(t[1..], key)
  }

  /** The slot a key's event will use: its own, a fresh one, or none when all are taken. */
  function Claim<K(==), S, E>(m: Machine<S, E>, t: seq<Entry<K, S>>, key: K): seq<Entry<K, S>> {
    if Find(t, key) == |t| < m.slots then t + [Entry(key, m.init)] else t
  }

  function Touch<K(==), S, E>(m: Machine<S, E>, t: seq<Entry<K, S>>, key: K, e: E): seq<Entry<K, S>> {
    var (i, t') := (Find(t, key), Claim(m, t, key));
    if i < |t'| then t'[i := Entry(key, m.step(t'[i].state, e))] else t'
  }

  function TableAfter<K(==), S, E>(m: Machine<S, E>, es: seq<(K, E)>): seq<Entry<K, S>> {
    if es == [] then []
    else Touch(m, TableAfter(m, es[..|es|-1]), es[|es|-1].0, es[|es|-1].1)
  }

  // ---- one key at a time --------------------------------------------------

  function EventsOf<K(==), E>(es: seq<(K, E)>, key: K): seq<E> {
    if es == [] then []
    else EventsOf(es[..|es|-1], key) + if es[|es|-1].0 == key then [es[|es|-1].1] else []
  }

  function StateAfter<S, E>(m: Machine<S, E>, es: seq<E>): S {
    if es == [] then m.init else m.step(StateAfter(m, es[..|es|-1]), es[|es|-1])
  }

  /** The keys in the order of their first events. */
  function Arrivals<K(==), E>(es: seq<(K, E)>): seq<K> {
    if es == [] then []
    else
      var (before, key) := (Arrivals(es[..|es|-1]), es[|es|-1].0);
      if key in before then before else before + [key]
  }

  /** The keys that get a slot: first come, first served. */
  function Served<K(==), E>(slots: nat, es: seq<(K, E)>): seq<K> {
    if |Arrivals(es)| <= slots then Arrivals(es) else Arrivals(es)[..slots]
  }

  ghost predicate DistinctKeys<K, S>(t: seq<Entry<K, S>>) {
    forall i, j :: 0 <= i < j < |t| ==> t[i].key != t[j].key
  }

  ghost predicate HasKeys<K, S>(t: seq<Entry<K, S>>, keys: seq<K>) {
    |t| == |keys| && forall i :: 0 <= i < |t| ==> t[i].key == keys[i]
  }

  lemma FindIs<K, S>(t: seq<Entry<K, S>>, i: nat)
    requires DistinctKeys(t) && i < |t|
    ensures Find(t, t[i].key) == i
  {
  }

  lemma {:induction false} TouchKeys<K, S, E>(m: Machine<S, E>, es: seq<(K, E)>, t: seq<Entry<K, S>>)
    requires es != [] && DistinctKeys(t) && HasKeys(t, Served(m.slots, es[..|es|-1]))
    ensures var t' := Touch(m, t, es[|es|-1].0, es[|es|-1].1);
            DistinctKeys(t') && HasKeys(t', Served(m.slots, es))
  {
    var key, i := es[|es|-1].0, Find(t, es[|es|-1].0);
    var before := Arrivals(es[..|es|-1]);
    assert forall j :: 0 <= j < |t| ==> before[j] == t[j].key;
    if i == |t| && key in before {
      assert |t| == m.slots;
    }
  }

  /** The slots belong to the first keys that came, in that order. */
  lemma {:induction false} FirstComeFirstServed<K, S, E>(m: Machine<S, E>, es: seq<(K, E)>)
    ensures DistinctKeys(TableAfter(m, es)) && HasKeys(TableAfter(m, es), Served(m.slots, es))
  {
    if es != [] {
      FirstComeFirstServed(m, es[..|es|-1]);
      TouchKeys(m, es, TableAfter(m, es[..|es|-1]));
    }
  }

  /** A key's slot holds what its events make of it, and a key without one came too late. */
  ghost predicate Faithful<K, S, E>(m: Machine<S, E>, t: seq<Entry<K, S>>, es: seq<E>, key: K) {
    var i := Find(t, key);
    if i < |t| then t[i].state == StateAfter(m, es) else es == [] || |t| == m.slots
  }

  lemma {:induction false} TouchFaithful<K, S, E>(m: Machine<S, E>, t: seq<Entry<K, S>>, key: K, e: E, es: seq<E>, k: K)
    requires DistinctKeys(t) && |t| <= m.slots && Faithful(m, t, es, k)
    requires DistinctKeys(Touch(m, t, key, e))
    ensures Faithful(m, Touch(m, t, key, e), if key == k then es + [e] else es, k)
  {
    var t', i := Touch(m, t, key, e), Find(t, key);
    assert (es + [e])[..|es|] == es;
    if i < |t| || |t| < m.slots {
      FindIs(t', i);
      var j := Find(t, k);
      if k != key && j < |t| {
        FindIs(t', j);
      }
    }
  }

  /** Every served key's slot holds exactly what all its events make of it. */
  lemma {:induction false} EveryKeyFaithful<K, S, E>(m: Machine<S, E>, es: seq<(K, E)>, key: K)
    ensures Faithful(m, TableAfter(m, es), EventsOf(es, key), key)
  {
    if es != [] {
      var (before, e) := (es[..|es|-1], es[|es|-1]);
      EveryKeyFaithful(m, before, key);
      FirstComeFirstServed(m, before);
      FirstComeFirstServed(m, es);
      TouchFaithful(m, TableAfter(m, before), e.0, e.1, EventsOf(before, key), key);
      assert e.0 != key ==> EventsOf(es, key) == EventsOf(before, key);
    }
  }

  lemma {:induction false} SlotIffServed<K, S, E>(m: Machine<S, E>, es: seq<(K, E)>, key: K)
    ensures Find(TableAfter(m, es), key) < |TableAfter(m, es)| <==> key in Served(m.slots, es)
  {
    FirstComeFirstServed(m, es);
    var t, keys := TableAfter(m, es), Served(m.slots, es);
    if key in keys {
      var i :| 0 <= i < |keys| && keys[i] == key;
      FindIs(t, i);
    }
  }

  /**
   The last event of a stream runs its key's machine from the state all the key's earlier events
   left, if the key is among the first to come, and changes nothing otherwise.
   */
  lemma {:induction false} LastEvent<K, S, E>(m: Machine<S, E>, es: seq<(K, E)>, key: K, e: E)
    ensures var (t, i) := (TableAfter(m, es), Find(TableAfter(m, es), key));
            var c := Claim(m, t, key);
            && (key in Served(m.slots, es + [(key, e)]) <==> i < |c|)
            && (i < |c| ==> c[i].state == StateAfter(m, EventsOf(es, key)))
  {
    var t := TableAfter(m, es);
    assert (es + [(key, e)])[..|es|] == es;
    EveryKeyFaithful(m, es, key);
    SlotIffServed(m, es + [(key, e)], key);
    FirstComeFirstServed(m, es + [(key, e)]);
    var t', i := Touch(m, t, key, e), Find(t, key);
    if i < |t'| {
      FindIs(t', i);
    }
  }
}
