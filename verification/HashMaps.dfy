/** The chained hash map of `hash_map.c`: an array of linked lists, spliced and rehashed in place.
    Every method is tied to the table its chains spell out (module `Tables`). */
module HashMaps {
  import opened Bytes
  import opened Tables

  class Node<K, V> {
    const key: K
    var value: V
    var next: Node?<K, V>

    constructor (key: K, value: V)
      ensures this.key == key && this.value == value && next == null
    {
      this.key, this.value, next := key, value, null;
    }
  }

  // ---- Linked chains ----

  ghost function Nth<K, V>(c: seq<Node<K, V>>, j: nat): Node?<K, V> {
    if j < |c| then c[j] else null
  }

  ghost predicate Within<K, V>(c: seq<Node<K, V>>, R: set<object>) {
    forall j :: 0 <= j < |c| ==> c[j] in R
  }

  /** Following `next` from head visits exactly the nodes of c, and they hold the entries es. */
  ghost predicate Spells<K, V>(head: Node?<K, V>, c: seq<Node<K, V>>, es: Chain<K, V>)
    reads c
  {
    && head == Nth(c, 0)
    && |c| == |es|
    && forall j :: 0 <= j < |c| ==>
         c[j].next == Nth(c, j + 1) && c[j].key == es[j].key && c[j].value == es[j].value
  }

  lemma SpellsCons<K, V>(n: Node<K, V>, c: seq<Node<K, V>>, es: Chain<K, V>)
    requires Spells(n.next, c, es)
    ensures Spells(n, [n] + c, [Entry(n.key, n.value)] + es)
  {
  }

  lemma SpellsParts<K, V>(head: Node?<K, V>, c: seq<Node<K, V>>, es: Chain<K, V>)
    requires Spells(head, c, es)
    ensures head == Nth(c, 0) && |c| == |es|
    ensures forall j :: 0 <= j < |c| ==> c[j].key == es[j].key && c[j].value == es[j].value
    ensures forall j :: 0 <= j < |c| ==> c[j].next == Nth(c, j + 1)
  {
  }

  /** A new node n between the nodes p - 1 and p. */
  lemma SpellsSplice<K, V>(head: Node?<K, V>, c: seq<Node<K, V>>, n: Node<K, V>, es: Chain<K, V>, p: nat)
    requires 0 < p <= |c| == |es| && head == c[0]
    requires forall j :: 0 <= j < |c| ==> c[j].key == es[j].key && c[j].value == es[j].value
    requires forall j :: 0 <= j < |c| && j != p - 1 ==> c[j].next == Nth(c, j + 1)
    requires c[p - 1].next == n && n.next == Nth(c, p)
    ensures Spells(head, c[..p] + [n] + c[p..], es[..p] + [Entry(n.key, n.value)] + es[p..])
  {
  }

  /** A new value in node p. */
  lemma SpellsUpdate<K, V>(head: Node?<K, V>, c: seq<Node<K, V>>, es: Chain<K, V>, p: nat)
    requires p < |c| == |es| && head == c[0]
    requires forall j :: 0 <= j < |c| ==> c[j].key == es[j].key && c[j].next == Nth(c, j + 1)
    requires forall j :: 0 <= j < |c| && j != p ==> c[j].value == es[j].value
    ensures Spells(head, c, es[p := Entry(es[p].key, c[p].value)])
  {
  }

  /** The two pointer writes that put entry between the nodes p - 1 and p. */
  method Splice<K, V>(ghost head: Node?<K, V>, ghost c: seq<Node<K, V>>, ghost es: Chain<K, V>, ghost p: nat,
                      previous: Node<K, V>, entry: Node<K, V>, current: Node?<K, V>)
    requires Spells(head, c, es) && 0 < p <= |c|
    requires forall j, j' :: 0 <= j < j' < |c| ==> c[j] != c[j']
    requires previous == c[p - 1] && current == Nth(c, p) && entry !in c
    modifies previous`next, entry`next
    ensures Spells(head, c[..p] + [entry] + c[p..], es[..p] + [Entry(entry.key, entry.value)] + es[p..])
  {
    previous.next := entry;
    entry.next := current;
    SpellsSplice(head, c, entry, es, p);
  }

  lemma WithinMore<K, V>(c: seq<Node<K, V>>, R: set<object>, n: Node<K, V>)
    requires Within(c, R)
    ensures Within(c, R + {n})
    ensures n !in R ==> n !in c
  {
  }

  lemma WithinCons<K, V>(n: Node<K, V>, c: seq<Node<K, V>>, R: set<object>)
    requires Within(c, R) && n in R
    ensures Within([n] + c, R)
  {
  }

  lemma WithinSplice<K, V>(c: seq<Node<K, V>>, n: Node<K, V>, p: nat, R: set<object>)
    requires Within(c, R) && n in R && p <= |c|
    ensures Within(c[..p] + [n] + c[p..], R)
  {
  }

  /** Different chains share no node. */
  ghost predicate Apart<K, V>(cs: seq<seq<Node<K, V>>>) {
    forall i, i', n :: 0 <= i < |cs| && 0 <= i' < |cs| && i != i' && n in cs[i] ==> n !in cs[i']
  }

  /** The nodes that spell out a bucket of a table are distinct, because its keys are. */
  lemma SpellingNodesDiffer<K(!new), V>(f: Keying<K>, t: Table<K, V>, i: nat, head: Node?<K, V>, c: seq<Node<K, V>>)
    requires WellFormed(f, t) && i < |t.buckets| && Spells(head, c, t.buckets[i])
    ensures forall j, j' :: 0 <= j < j' < |c| ==> c[j] != c[j']
  {
    var es := t.buckets[i];
    assert BucketOk(f, t, i);
    forall j, j' | 0 <= j < j' < |c| ensures c[j] != c[j'] {
      assert f.cmp(es[j].key, es[j'].key) < 0;
    }
  }

  /** All nodes of the given chains. */
  ghost function NodesOf<K, V>(cs: seq<seq<Node<K, V>>>): set<Node<K, V>> {
    set i, n | 0 <= i < |cs| && n in cs[i] :: n
  }

  lemma NodesInsert<K, V>(cs: seq<seq<Node<K, V>>>, i: nat, p: nat, n: Node<K, V>)
    requires i < |cs| && p <= |cs[i]|
    ensures NodesOf(cs[i := cs[i][..p] + [n] + cs[i][p..]]) == NodesOf(cs) + {n}
  {
    var c := cs[i];
    var c' := c[..p] + [n] + c[p..];
    var cs' := cs[i := c'];
    assert forall x :: x in c' <==> x in c || x == n by {
      assert c == c[..p] + c[p..];
    }
    assert n in cs'[i];
    forall x | x in NodesOf(cs) ensures x in NodesOf(cs') {
      var j :| 0 <= j < |cs| && x in cs[j];
      assert x in cs'[j];
    }
    forall x | x in NodesOf(cs') ensures x in NodesOf(cs) + {n} {
      var j :| 0 <= j < |cs'| && x in cs'[j];
      assert j != i ==> x in cs[j];
    }
  }

  lemma NoNodes<K, V>(cs: seq<seq<Node<K, V>>>)
    ensures NodesOf(cs[..0]) == {}
  {
  }

  lemma NodesNext<K, V>(cs: seq<seq<Node<K, V>>>, i: nat)
    requires i < |cs|
    ensures NodesOf(cs[..i + 1]) == NodesOf(cs[..i]) + set n | n in cs[i]
  {
    forall x ensures x in NodesOf(cs[..i + 1]) <==> x in NodesOf(cs[..i]) || x in cs[i] {
      if x in NodesOf(cs[..i + 1]) {
        var j :| 0 <= j < i + 1 && x in cs[..i + 1][j];
        assert j < i ==> x in cs[..i][j];
      }
      if x in NodesOf(cs[..i]) {
        var j :| 0 <= j < i && x in cs[..i][j];
        assert x in cs[..i + 1][j];
      }
      if x in cs[i] {
        assert x in cs[..i + 1][i];
      }
    }
  }

  class HashMap<K(==, !new), V> {
    const keying: Keying<K>
    var entries: array<Node?<K, V>>
    var size: nat
    var nentries: nat
    ghost var chains: seq<seq<Node<K, V>>>
    ghost var table: Table<K, V>
    ghost var Repr: set<object>

    ghost predicate Valid()
      reads this, Repr
      ensures Valid() ==> this in Repr && WellFormed(keying, table) && keying.Valid() && 2 <= size
    {
      && this in Repr && entries in Repr
      && |chains| == |table.buckets| == entries.Length == size
      && nentries == table.nentries
      && WellFormed(keying, table)
      && (forall i :: 0 <= i < size ==> Within(chains[i], Repr))
      && (forall i :: 0 <= i < size ==> Spells(entries[i], chains[i], table.buckets[i]))
    }

    /** `create_hash_map`. */
    constructor (keying: Keying<K>)
      requires keying.Valid()
      ensures Valid() && fresh(Repr)
      ensures this.keying == keying && table == Empty(INITIAL_SIZE, 0)
    {
      this.keying := keying;
      entries := new Node?<K, V>[0];
      new;
      Init(INITIAL_SIZE, 0);
    }

    /** `init_hash_map`. */
    method Init(size: nat, ghost relocated: nat)
      requires keying.Valid() && 2 <= size
      modifies this
      ensures Valid() && Repr == {this, entries} && fresh(entries)
      ensures this.size == size && table == Empty(size, relocated) && NodesOf(chains) == {}
    {
      hide Keying.Valid;
      EmptyWellFormed<K, V>(keying, size, relocated);
      nentries := 0;
      this.size := size;
      entries := new Node?<K, V>[size](_ => null);
      chains, table := seq(size, _ => []), Empty(size, relocated);
      Repr := {this, entries};
    }

    method Get(k: K) returns (r: Option<V>)
      requires Valid()
      ensures r == Tables.Get(keying, table, k)
    {
      var index := keying.hash(k) % size;
      ghost var c, es := chains[index], table.buckets[index];
      assert Spells(entries[index], c, es);
      if entries[index] != null {
        var current := entries[index];
        ghost var j := 0;
        while current != null
          invariant 0 <= j <= |es| && current == Nth(c, j)
          invariant forall i :: 0 <= i < j ==> es[i].key != k
          decreases |es| - j
        {
          if keying.cmp(current.key, k) == 0 {
            FindAt(keying, es, j, k);
            return Some(current.value);
          }
          current := current.next;
          j := j + 1;
        }
      }
      FindAt(keying, es, |es|, k);
      r := None;
    }

    // ---- Splicing ----

    /** The scan of `hash_map_put_entry` has passed p smaller keys of the chain k belongs to. */
    ghost predicate Passed(k: K, index: nat, p: nat)
      reads this
    {
      && index < |table.buckets| && index == BucketOf(keying, k, |table.buckets|)
      && p <= |table.buckets[index]|
      && forall j :: 0 <= j < p ==> keying.cmp(table.buckets[index][j].key, k) < 0
    }

    /** ... and found a larger key, or the end. */
    ghost predicate StopsBefore(k: K, index: nat, p: nat)
      reads this
    {
      && Passed(k, index, p)
      && (p < |table.buckets[index]| ==> keying.cmp(table.buckets[index][p].key, k) > 0)
    }

    lemma NewKey(k: K, index: nat, p: nat)
      requires WellFormed(keying, table) && StopsBefore(k, index, p)
      ensures Tables.Get(keying, table, k) == None
    {
      var es := table.buckets[index];
      assert BucketOk(keying, table, index);
      forall j | 0 <= j < |es| ensures es[j].key != k {
        if j >= p {
          assert keying.cmp(k, es[p].key) < 0;
        }
      }
      FindAt(keying, es, |es|, k);
    }

    /** What a new entry at position p of its chain makes of the table. */
    ghost function Spliced(k: K, v: V, index: nat, p: nat): (t: Table<K, V>)
      reads this, Repr
      requires Valid() && !Full(table) && StopsBefore(k, index, p)
      ensures t == Add(keying, table, k, v) && WellFormed(keying, t)
      ensures t.nentries == table.nentries + 1
      ensures |t.buckets| == |table.buckets|
      ensures t.buckets[index] == table.buckets[index][..p] + [Entry(k, v)] + table.buckets[index][p..]
      ensures forall i :: 0 <= i < |t.buckets| && i != index ==> t.buckets[i] == table.buckets[i]
    {
      NewKey(k, index, p);
      InsertAt(keying, table.buckets[index], p, k, v);
      AddWellFormed(keying, table, k, v);
      Add(keying, table, k, v)
    }

    /** Chains of different buckets share no node. */
    lemma ChainsApart(i: nat, i': nat, j: nat)
      requires Valid() && i < size && i' < size && i != i' && j < |chains[i]|
      ensures chains[i][j] !in chains[i']
    {
      assert Spells(entries[i], chains[i], table.buckets[i]);
      assert Spells(entries[i'], chains[i'], table.buckets[i']);
      assert BucketOk(keying, table, i) && BucketOk(keying, table, i');
      assert table.buckets[i][j] in table.buckets[i];
      forall j' | 0 <= j' < |chains[i']| ensures chains[i][j] != chains[i'][j'] {
        assert table.buckets[i'][j'] in table.buckets[i'];
      }
    }

    lemma AllApart()
      requires Valid()
      ensures Apart(chains)
      ensures forall i, n :: 0 <= i < size && n in chains[i] ==> n in Repr
    {
      forall i, i', n | 0 <= i < size && 0 <= i' < size && i != i' && n in chains[i] ensures n !in chains[i'] {
        var j :| 0 <= j < |chains[i]| && chains[i][j] == n;
        ChainsApart(i, i', j);
      }
      forall i, n | 0 <= i < size && n in chains[i] ensures n in Repr {
        assert Within(chains[i], Repr);
      }
    }

    /** Puts entry at the head of its chain, which is empty or continues with current. */
    method LinkFirst(index: nat, entry: Node<K, V>, current: Node?<K, V>)
      requires Valid() && !Full(table) && StopsBefore(entry.key, index, 0)
      requires current == entries[index]
      requires entry !in Repr
      modifies this, entries, entry
      ensures Valid() && Repr == old(Repr) + {entry} && entries == old(entries)
      ensures NodesOf(chains) == old(NodesOf(chains)) + {entry}
      ensures table == Add(keying, old(table), entry.key, old(entry.value))
    {
      hide WellFormed, Add, Spells, Within, NodesOf;
      NodesInsert(chains, index, 0, entry);
      assert chains[index][..0] + [entry] + chains[index][0..] == [entry] + chains[index];
      ghost var t := Spliced(entry.key, entry.value, index, 0);
      ghost var c, es, R := chains[index], table.buckets[index], Repr + {entry};
      assert t.buckets[index] == [Entry(entry.key, entry.value)] + es;
      forall i | 0 <= i < size ensures Within(chains[i], R) && entry !in chains[i] {
        WithinMore(chains[i], Repr, entry);
      }
      entries[index] := entry;
      entry.next := current;
      nentries := nentries + 1;
      chains := chains[index := [entry] + c];
      table := t;
      Repr := R;
      SpellsCons(entry, c, es);
      WithinCons(entry, c, R);
    }

    /** Puts entry between the nodes at positions p - 1 and p of its chain. */
    method LinkAfter(ghost index: nat, ghost p: nat, previous: Node<K, V>, entry: Node<K, V>, current: Node?<K, V>)
      requires Valid() && !Full(table) && StopsBefore(entry.key, index, p)
      requires index < size && 0 < p <= |chains[index]|
      requires previous == chains[index][p - 1] && current == Nth(chains[index], p)
      requires entry !in Repr
      modifies this, previous, entry
      ensures Valid() && Repr == old(Repr) + {entry} && entries == old(entries)
      ensures chains == old(chains)[index := old(chains)[index][..p] + [entry] + old(chains)[index][p..]]
      ensures table == Add(keying, old(table), entry.key, old(entry.value))
    {
      hide WellFormed, Add, Spells, Within, StopsBefore, Keying.Valid, Full, BucketOf, Apart;
      ghost var t := Spliced(entry.key, entry.value, index, p);
      ghost var c, es, R := chains[index], table.buckets[index], Repr + {entry};
      forall i | 0 <= i < size ensures Within(chains[i], R) && entry !in chains[i] {
        WithinMore(chains[i], Repr, entry);
      }
      assert forall i :: 0 <= i < size && i != index ==> previous !in chains[i] by {
        AllApart();
        assert previous in chains[index];
      }
      SpellingNodesDiffer(keying, table, index, entries[index], c);
      Splice(entries[index], c, es, p, previous, entry, current);
      nentries := nentries + 1;
      chains := chains[index := c[..p] + [entry] + c[p..]];
      table := t;
      Repr := R;
      WithinSplice(c, entry, p, R);
    }

    /** A new node behind the first of its chain. */
    method AddNode(ghost index: nat, ghost p: nat, previous: Node<K, V>, entry: Node<K, V>, current: Node?<K, V>)
      requires Valid() && !Full(table) && StopsBefore(entry.key, index, p)
      requires index < size && 0 < p <= |chains[index]|
      requires previous == chains[index][p - 1] && current == Nth(chains[index], p)
      requires entry !in Repr
      modifies this, previous, entry
      ensures Valid() && Repr == old(Repr) + {entry}
      ensures NodesOf(chains) == old(NodesOf(chains)) + {entry}
      ensures table == Add(keying, old(table), entry.key, old(entry.value))
      ensures Tables.Get(keying, old(table), entry.key) == None
    {
      hide WellFormed, Add, Spells, Within, Tables.Get, Keying.Valid, NodesOf, Full, StopsBefore;
      NewKey(entry.key, index, p);
      NodesInsert(chains, index, p, entry);
      LinkAfter(index, p, previous, entry, current);
    }

    /** What a new value for the key at position p of its chain makes of the table. */
    ghost function Overwritten(k: K, v: V, index: nat, p: nat): (t: Table<K, V>)
      reads this, Repr
      requires Valid() && Passed(k, index, p)
      requires p < |table.buckets[index]| && table.buckets[index][p].key == k
      ensures t == Add(keying, table, k, v) && WellFormed(keying, t)
      ensures t.nentries == table.nentries && |t.buckets| == |table.buckets|
      ensures t.buckets == table.buckets[index := table.buckets[index][p := Entry(k, v)]]
      ensures Tables.Get(keying, table, k) == Some(table.buckets[index][p].value)
    {
      KeyAt(index, p, k);
      InsertAt(keying, table.buckets[index], p, k, v);
      ReplaceWellFormed(keying, table, k, v);
      Add(keying, table, k, v)
    }

    lemma KeyAt(index: nat, p: nat, k: K)
      requires Valid() && index < size && index == BucketOf(keying, k, size)
      requires p < |table.buckets[index]| && table.buckets[index][p].key == k
      ensures Tables.Get(keying, table, k) == Some(table.buckets[index][p].value)
    {
      var es := table.buckets[index];
      assert BucketOk(keying, table, index);
      forall j | 0 <= j < p ensures es[j].key != k {
        assert keying.cmp(es[j].key, es[p].key) < 0;
      }
      FindAt(keying, es, p, k);
    }

    /** Writes a new value into the node at position p, whose key the scan found equal. */
    method Overwrite(ghost index: nat, ghost p: nat, current: Node<K, V>, value: V)
      requires Valid() && Passed(current.key, index, p)
      requires index < size && p < |chains[index]| && current == chains[index][p]
      modifies this`table, current`value
      ensures Valid()
      ensures table == Add(keying, old(table), current.key, value)
      ensures Tables.Get(keying, old(table), current.key) == Some(old(current.value))
    {
      hide WellFormed, Add, Spells, Within, Passed, Tables.Get, Keying.Valid, Full, NodesOf;
      ghost var c, es := chains[index], table.buckets[index];
      SpellsParts(entries[index], c, es);
      assert forall i :: 0 <= i < size && i != index ==> current !in chains[i] by {
        AllApart();
        assert current in chains[index];
      }
      SpellingNodesDiffer(keying, table, index, entries[index], c);
      ghost var t := Overwritten(current.key, value, index, p);
      current.value := value;
      table := t;
      assert Spells(entries[index], c, t.buckets[index]) by {
        SpellsUpdate(entries[index], c, es, p);
      }
    }

    /** A table at its load limit can be doubled without leaving the range of a C int. */
    ghost predicate Fits()
      reads this
    {
      Full(table) ==> size * 2 < 0x8000_0000
    }

    // ---- Putting and rehashing ----

    /** `hash_map_put_entry`. The result is the value the key had before, if it had one. */
    method PutEntry(entry: Node<K, V>) returns (r: Option<V>)
      requires Valid() && Fits()
      requires entry !in Repr && entry.next == null
      modifies Repr, entry
      ensures Valid() && fresh(Repr - old(Repr) - {entry})
      ensures table == Tables.Put(keying, old(table), entry.key, old(entry.value))
      ensures r == Tables.Get(keying, old(table), entry.key)
      ensures !old(Full(table)) ==> Repr <= old(Repr) + {entry}
      ensures NodesOf(chains) == old(NodesOf(chains)) + if r == None then {entry} else {}
      decreases if nentries >= size / 2 then 3 else 0
    {
      hide WellFormed, Spells, Within, Add, Tables.Get, Tables.Rehash, Keying.Valid, NodesOf;
      RehashConserves(keying, table);
      if nentries >= size / 2 {
        Rehash(size * 2);
      }
      r := AddEntry(entry);
    }

    /** The part of `hash_map_put_entry` after the load check. */
    method AddEntry(entry: Node<K, V>) returns (r: Option<V>)
      requires Valid() && !Full(table)
      requires entry !in Repr && entry.next == null
      modifies Repr, entry
      ensures Valid() && old(Repr) <= Repr <= old(Repr) + {entry}
      ensures NodesOf(chains) == old(NodesOf(chains)) + if r == None then {entry} else {}
      ensures table == Add(keying, old(table), entry.key, old(entry.value))
      ensures r == Tables.Get(keying, old(table), entry.key)
    {
      hide WellFormed, Add, Tables.Get, Keying.Valid, NodesOf;
      var index := keying.hash(entry.key) % size;
      ghost var c := chains[index];
      assert Spells(entries[index], c, table.buckets[index]) && Within(c, Repr);
      if entries[index] == null {
        NewKey(entry.key, index, 0);
        LinkFirst(index, entry, null);
        r := None;
      } else {
        var current := entries[index];
        var res := keying.cmp(current.key, entry.key);
        if res > 0 {
          NewKey(entry.key, index, 0);
          LinkFirst(index, entry, current);
          r := None;
        } else if res == 0 {
          r := Some(current.value);
          keying.Same(current.key, entry.key);
          Overwrite(index, 0, current, entry.value);
        } else {
          r := AddBehind(index, entry, current);
        }
      }
    }

    /** The loop of `hash_map_put_entry`, which starts behind the first node of the chain. */
    method AddBehind(ghost index: nat, entry: Node<K, V>, first: Node<K, V>) returns (r: Option<V>)
      requires Valid() && !Full(table)
      requires index < size && Passed(entry.key, index, 1) && first == Nth(chains[index], 0)
      requires entry !in Repr && entry.next == null
      modifies Repr, entry
      ensures Valid() && old(Repr) <= Repr <= old(Repr) + {entry}
      ensures NodesOf(chains) == old(NodesOf(chains)) + if r == None then {entry} else {}
      ensures table == Add(keying, old(table), entry.key, old(entry.value))
      ensures r == Tables.Get(keying, old(table), entry.key)
    {
      hide WellFormed, Add, Tables.Get, Keying.Valid, NodesOf;
      ghost var c := chains[index];
      SpellsParts(entries[index], c, table.buckets[index]);
      assert Within(c, Repr);
      assert forall j :: 0 <= j < |c| ==> c[j] in Repr;
      hide Spells, Within;
      var previous := first;
      var current := first.next;
      ghost var p := 1;
      while current != null
        invariant 0 < p <= |c| && Passed(entry.key, index, p)
        invariant previous == c[p - 1] && current == Nth(c, p)
        decreases |c| - p
      {
        var res := keying.cmp(current.key, entry.key);
        if res > 0 {
          AddNode(index, p, previous, entry, current);
          return None;
        } else if res == 0 {
          r := Some(current.value);
          keying.Same(current.key, entry.key);
          Overwrite(index, p, current, entry.value);
          return;
        }
        previous := current;
        current := current.next;
        p := p + 1;
      }
      AddNode(index, p, previous, entry, null);
      r := None;
    }

    /** `hash_map_rehash`: a new array, into which every node is put again. */
    method Rehash(newSize: nat)
      requires Valid() && Full(table)
      requires newSize == size * 2 && 2 <= size
      modifies Repr
      ensures Valid() && fresh(Repr - old(Repr))
      ensures table == Tables.Rehash(keying, old(table), newSize)
      ensures NodesOf(chains) == old(NodesOf(chains))
      decreases 2
    {
      hide WellFormed, Keying.Valid, Tables.Get, Add, Moved, Tables.Rehash, Spells, Within, NodesOf;
      var oldEntries := entries;
      var oldSize := size;
      ghost var oldChains, t0, R := chains, table, Repr;
      AllApart();
      Init(newSize, t0.relocated);
      var i := 0;
      FirstBucket(keying, t0);
      NoNodes(oldChains);
      while i < oldSize
        invariant 0 <= i <= oldSize
        invariant Valid() && fresh(Repr - R)
        invariant oldEntries !in Repr
        invariant NodesOf(chains) == NodesOf(oldChains[..i])
        invariant table == if i < oldSize then Moved(keying, t0, i, 0) else Tables.Rehash(keying, t0, newSize)
        invariant forall i' :: i <= i' < oldSize ==> Spells(oldEntries[i'], oldChains[i'], t0.buckets[i'])
        invariant forall i', n :: i <= i' < oldSize && n in oldChains[i'] ==> n in R && n !in Repr
      {
        NextBucket(keying, t0, i);
        NodesNext(oldChains, i);
        MoveChain(oldEntries[i], oldChains[i], t0, i);
        i := i + 1;
      }
      assert oldChains[..i] == oldChains;
    }

    /** The inner loop of `hash_map_rehash`, over the chain of one old bucket. */
    method MoveChain(head: Node?<K, V>, ghost c: seq<Node<K, V>>, ghost t0: Table<K, V>, ghost i: nat)
      requires Valid() && WellFormed(keying, t0) && i < |t0.buckets|
      requires Spells(head, c, t0.buckets[i])
      requires forall n :: n in c ==> n !in Repr
      requires table == Moved(keying, t0, i, 0)
      modifies Repr, c
      ensures Valid() && Repr <= old(Repr) + set n | n in c
      ensures NodesOf(chains) == old(NodesOf(chains)) + set n | n in c
      ensures table == Moved(keying, t0, i, |t0.buckets[i]|)
      decreases 1, |c|
    {
      hide WellFormed, Keying.Valid, Moved, NodesOf;
      SpellsParts(head, c, t0.buckets[i]);
      SpellingNodesDiffer(keying, t0, i, head, c);
      var entry := head;
      ghost var j := 0;
      while entry != null
        invariant 0 <= j <= |c| && entry == Nth(c, j)
        invariant Valid() && Repr <= old(Repr) + set n | n in c[..j]
        invariant NodesOf(chains) == old(NodesOf(chains)) + set n | n in c[..j]
        invariant forall j' :: j <= j' < |c| ==> c[j'] !in Repr && c[j'].next == Nth(c, j' + 1)
        invariant forall j' :: j <= j' < |c| ==> c[j'].value == t0.buckets[i][j'].value
        invariant table == Moved(keying, t0, i, j)
        decreases |c| - j
      {
        var temp := entry.next;
        MoveNode(entry, t0, i, j);
        entry := temp;
        j := j + 1;
      }
    }

    method MoveNode(entry: Node<K, V>, ghost t0: Table<K, V>, ghost i: nat, ghost j: nat)
      requires Valid() && WellFormed(keying, t0) && i < |t0.buckets| && j < |t0.buckets[i]|
      requires entry !in Repr
      requires t0.buckets[i][j] == Entry(entry.key, entry.value)
      requires table == Moved(keying, t0, i, j)
      modifies Repr, entry
      ensures Valid() && Repr <= old(Repr) + {entry}
      ensures NodesOf(chains) == old(NodesOf(chains)) + {entry}
      ensures table == Moved(keying, t0, i, j + 1)
      decreases 1, 0
    {
      hide WellFormed, Keying.Valid, Tables.Get, Within, Moved, Spells, NodesOf;
      NextMove(keying, t0, i, j);
      entry.next := null;
      var _ := PutEntry(entry);
      table := table.(relocated := table.relocated + 1);
    }

    /** The map the table stands for. */
    ghost function Map(): map<K, V>
      requires Valid()
      reads this, Repr
    {
      Contents(keying, table)
    }

    /** A map of fewer than TOO_MANY keys can be put into. */
    lemma SmallFits()
      requires Valid() && Growth(table) && |Map()| < TOO_MANY
      ensures Fits()
    {
      ContentsSize(keying, table);
      if Full(table) {
        FewEntriesFit(table);
      }
    }

    /** `hash_map_put`. */
    method Put(key: K, value: V) returns (r: Option<V>)
      requires Valid() && Fits()
      modifies Repr
      ensures Valid() && fresh(Repr - old(Repr))
      ensures table == Tables.Put(keying, old(table), key, value)
      ensures Map() == old(Map())[key := value]
      ensures r == if key in old(Map()) then Some(old(Map())[key]) else None
      ensures old(Growth(table)) ==> Growth(table)
    {
      hide WellFormed, Spells, Within, Tables.Put, Tables.Get, Full, Keying.Valid, Growth, Contents, NodesOf;
      var entry := new Node(key, value);
      PutFacts(keying, table, key, value);
      r := PutEntry(entry);
    }

    /** `hash_map_get`. */
    method Lookup(k: K) returns (r: Option<V>)
      requires Valid()
      ensures r == if k in Map() then Some(Map()[k]) else None
    {
      r := Get(k);
    }

    // ---- Iteration ----

    /** it stands on a node of this map. */
    ghost predicate Points(it: Iterator<K, V>)
      reads this, it
    {
      && it !in Repr
      && 0 <= it.index < |chains| && 0 <= it.offset < |chains[it.index]|
      && it.entry == chains[it.index][it.offset]
    }

    /** The number of entries before it, in bucket order. */
    ghost function Position(it: Iterator<K, V>): nat
      requires Points(it) && |table.buckets| == |chains|
      reads this, it
    {
      |Flatten(table.buckets[..it.index])| + it.offset
    }

    /** `hash_map_get_iterator`: null starts, and null comes back after the last entry. */
    method GetIterator(it: Iterator?<K, V>) returns (r: Iterator?<K, V>)
      requires Valid() && (it != null ==> Points(it))
      modifies if it == null then {} else {it}
      ensures it == null ==> (if nentries == 0 then r == null else r != null && fresh(r) && Points(r) && Position(r) == 0)
      ensures it != null ==>
                if old(Position(it)) + 1 == nentries then r == null
                else r == it && Points(it) && Position(it) == old(Position(it)) + 1
    {
      hide WellFormed, Within, Flatten, Keying.Valid;
      EntryCount(keying, table);
      if it == null {
        r := new Iterator();
        assert table.buckets[..0] == [];
        FlattenEmpty(table.buckets[..0]);
        r := FirstFrom(r);
      } else {
        assert Spells(entries[it.index], chains[it.index], table.buckets[it.index]);
        FlattenPrefix(table.buckets, it.index, it.offset);
        if it.entry.next != null {
          FlattenPrefix(table.buckets, it.index, it.offset + 1);
          it.entry := it.entry.next;
          it.offset := it.offset + 1;
          r := it;
        } else {
          FlattenNext(table.buckets, it.index);
          r := FirstFrom(it);
        }
      }
    }

    /** The search for the next bucket in use. */
    method FirstFrom(it: Iterator<K, V>) returns (r: Iterator?<K, V>)
      requires Valid() && it !in Repr && -1 <= it.index < size
      modifies it
      ensures var n := |Flatten(old(table.buckets[..it.index + 1]))|;
              if n == nentries then r == null else r == it && Points(it) && Position(it) == n
    {
      hide WellFormed, Within, Flatten, Keying.Valid;
      EntryCount(keying, table);
      var i := it.index + 1;
      ghost var n := |Flatten(table.buckets[..i])|;
      while i < size
        invariant 0 <= i <= size
        invariant |Flatten(table.buckets[..i])| == n
        invariant it.index == old(it.index)
      {
        assert Spells(entries[i], chains[i], table.buckets[i]);
        FlattenNext(table.buckets, i);
        if entries[i] != null {
          FlattenPrefix(table.buckets, i, 1);
          it.entry := entries[i];
          it.index := i;
          it.offset := 0;
          return it;
        }
        i := i + 1;
      }
      assert table.buckets[..size] == table.buckets;
      r := null;
    }

    lemma EntryUnder(it: Iterator<K, V>)
      requires Valid() && Points(it)
      ensures it.entry != null && Position(it) < |Flatten(table.buckets)|
      ensures Flatten(table.buckets)[Position(it)] == Entry(it.entry.key, it.entry.value)
    {
      assert Spells(entries[it.index], chains[it.index], table.buckets[it.index]);
      FlattenPrefix(table.buckets, it.index, it.offset);
    }

    /** An entry is in the bucket the hash of its key gives, and every bucket is in key order. */
    lemma EntryPlace(e: Entry<K, V>, i: nat)
      requires Valid() && i < size
      ensures |table.buckets| == size
      ensures e in table.buckets[i] <==>
                keying.hash(e.key) % size == i && e.key in Map() && Map()[e.key] == e.value
      ensures forall j, k :: 0 <= j < k < |table.buckets[i]| ==>
                keying.cmp(table.buckets[i][j].key, table.buckets[i][k].key) < 0
    {
      BucketHas(keying, table, i, e);
      assert BucketOk(keying, table, i);
    }

    lemma EntriesAre()
      requires Valid()
      ensures DistinctKeys(Flatten(table.buckets))
      ensures forall k, v :: Entry(k, v) in Flatten(table.buckets) <==> k in Map() && Map()[k] == v
    {
      KeysOnce(keying, table);
      forall k, v ensures Entry(k, v) in Flatten(table.buckets) <==> k in Map() && Map()[k] == v {
        GetIs(keying, table, k, v);
      }
    }
  }

  class Iterator<K(==, !new), V> {
    var index: int
    var entry: Node?<K, V>
    ghost var offset: nat

    constructor ()
      ensures index == -1
    {
      index := -1;
      entry := null;
    }
  }

  /** The loop of `list_func`: every entry of an unmodified map, once. */
  method ListEntries<K(==, !new), V>(m: HashMap<K, V>) returns (out: Chain<K, V>)
    requires m.Valid()
    ensures out == Flatten(m.table.buckets) && |out| == m.nentries
    ensures DistinctKeys(out)
    ensures forall k, v :: Entry(k, v) in out <==> k in m.Map() && m.Map()[k] == v
  {
    hide WellFormed, Within, Flatten, Keying.Valid, Spells;
    ghost var all := Flatten(m.table.buckets);
    EntryCount(m.keying, m.table);
    out := [];
    var it := m.GetIterator(null);
    while it != null
      invariant m.Valid() && (it != null ==> fresh(it))
      invariant if it == null then |out| == |all| else m.Points(it) && m.Position(it) == |out|
      invariant |out| <= |all| && out == all[..|out|]
      decreases |all| - |out|, it != null
    {
      m.EntryUnder(it);
      out := out + [Entry(it.entry.key, it.entry.value)];
      it := m.GetIterator(it);
    }
    assert all[..|all|] == all;
    m.EntriesAre();
  }
}
