/** The hash table of `hash_map.c` as a value: buckets of entries in key order. `HashMap` shows that
    its linked chains always spell out such a table; here is what these tables mean. */
module Tables {
  import opened Bytes

  /** The two functions a table works with: the hash of a key before reduction modulo the table
      size, and the comparison it was created with. */
  datatype Keying<!K(!new)> = Keying(hash: K -> nat, cmp: (K, K) -> int) {
    /** Comparing equal means being equal, and the comparison is a strict order. */
    ghost predicate Valid() {
      && (forall a, b :: cmp(a, b) == 0 <==> a == b)
      && (forall a, b :: cmp(a, b) < 0 <==> cmp(b, a) > 0)
      && (forall a, b, c :: cmp(a, b) < 0 && cmp(b, c) < 0 ==> cmp(a, c) < 0)
    }

    lemma Same(a: K, b: K)
      requires Valid() && cmp(a, b) == 0
      ensures a == b
    {
    }
  }

  datatype Entry<K, V> = Entry(key: K, value: V)

  type Chain<K, V> = seq<Entry<K, V>>

  /** `relocated` counts the entries that rehashing has moved so far. */
  datatype Table<K, V> = Table(buckets: seq<Chain<K, V>>, nentries: nat, relocated: nat)

  // ---- Chains ----

  ghost predicate Sorted<K(!new), V>(f: Keying<K>, es: Chain<K, V>) {
    forall i, j :: 0 <= i < j < |es| ==> f.cmp(es[i].key, es[j].key) < 0
  }

  function Insert<K(!new), V>(f: Keying<K>, es: Chain<K, V>, k: K, v: V): Chain<K, V> {
    if es == [] then [Entry(k, v)]
    else
      var c := f.cmp(es[0].key, k);
      if c > 0 then [Entry(k, v)] + es
      else if c == 0 then [Entry(es[0].key, v)] + es[1..]
      else [es[0]] + Insert(f, es[1..], k, v)
  }

  function Find<K(!new), V>(f: Keying<K>, es: Chain<K, V>, k: K): Option<V> {
    if es == [] then None
    else if f.cmp(es[0].key, k) == 0 then Some(es[0].value)
    else Find(f, es[1..], k)
  }

  /** The position at which a scan for k stops decides the shape of the chain after an insertion. */
  lemma {:induction false} InsertAt<K(!new), V>(f: Keying<K>, es: Chain<K, V>, p: nat, k: K, v: V)
    requires p <= |es|
    requires forall j :: 0 <= j < p ==> f.cmp(es[j].key, k) < 0
    ensures p == |es| || f.cmp(es[p].key, k) > 0 ==> Insert(f, es, k, v) == es[..p] + [Entry(k, v)] + es[p..]
    ensures p < |es| && f.cmp(es[p].key, k) == 0 ==> Insert(f, es, k, v) == es[p := Entry(es[p].key, v)]
  {
    if p > 0 {
      var rest := es[1..];
      forall j | 0 <= j < p - 1 ensures f.cmp(rest[j].key, k) < 0 {
        assert rest[j] == es[j + 1];
      }
      InsertAt(f, rest, p - 1, k, v);
      assert es == [es[0]] + rest;
    }
  }

  lemma {:induction false} FindAt<K(!new), V>(f: Keying<K>, es: Chain<K, V>, p: nat, k: K)
    requires f.Valid() && p <= |es|
    requires forall j :: 0 <= j < p ==> es[j].key != k
    ensures p == |es| ==> Find(f, es, k) == None
    ensures p < |es| && es[p].key == k ==> Find(f, es, k) == Some(es[p].value)
  {
    if p > 0 {
      assert es[1..] == es[1..];
      FindAt(f, es[1..], p - 1, k);
    }
  }

  /** A chain offers k exactly when one of its entries has key k, and then that entry's value. */
  lemma FindIs<K(!new), V>(f: Keying<K>, es: Chain<K, V>, k: K)
    requires f.Valid() && Sorted(f, es)
    ensures Find(f, es, k).Some? <==> exists j :: 0 <= j < |es| && es[j].key == k
    ensures forall j :: 0 <= j < |es| && es[j].key == k ==> Find(f, es, k) == Some(es[j].value)
  {
    if j :| 0 <= j < |es| && es[j].key == k {
      FindAt(f, es, j, k);
    } else {
      FindAt(f, es, |es|, k);
    }
  }

  lemma SortedCons<K(!new), V>(f: Keying<K>, e: Entry<K, V>, es: Chain<K, V>)
    requires Sorted(f, es)
    requires forall x :: x in es ==> f.cmp(e.key, x.key) < 0
    ensures Sorted(f, [e] + es)
  {
  }

  lemma {:induction false} InsertKeys<K(!new), V>(f: Keying<K>, es: Chain<K, V>, k: K, v: V, x: Entry<K, V>)
    requires f.Valid() && x in Insert(f, es, k, v)
    ensures x == Entry(k, v) || x in es
  {
    if es != [] && f.cmp(es[0].key, k) < 0 && x != es[0] {
      InsertKeys(f, es[1..], k, v, x);
    }
  }

  lemma {:induction false} InsertSorted<K(!new), V>(f: Keying<K>, es: Chain<K, V>, k: K, v: V)
    requires f.Valid() && Sorted(f, es)
    ensures Sorted(f, Insert(f, es, k, v))
  {
    if es != [] {
      var e, rest := es[0], es[1..];
      var c := f.cmp(e.key, k);
      if c > 0 {
        forall x | x in es ensures f.cmp(k, x.key) < 0 {
          assert f.cmp(k, e.key) < 0;
        }
        SortedCons(f, Entry(k, v), es);
      } else if c == 0 {
        SortedCons(f, Entry(e.key, v), rest);
      } else {
        InsertSorted(f, rest, k, v);
        forall x | x in Insert(f, rest, k, v) ensures f.cmp(e.key, x.key) < 0 {
          InsertKeys(f, rest, k, v, x);
        }
        SortedCons(f, e, Insert(f, rest, k, v));
      }
    }
  }

  lemma {:induction false} InsertLength<K(!new), V>(f: Keying<K>, es: Chain<K, V>, k: K, v: V)
    requires f.Valid() && Sorted(f, es)
    ensures |Insert(f, es, k, v)| == |es| + (if Find(f, es, k).Some? then 0 else 1)
  {
    if es != [] {
      InsertLength(f, es[1..], k, v);
      if f.cmp(es[0].key, k) > 0 {
        FindIs(f, es, k);
      }
    }
  }

  lemma FindInsert<K(!new), V>(f: Keying<K>, es: Chain<K, V>, k: K, v: V, k': K)
    requires f.Valid()
    ensures Find(f, Insert(f, es, k, v), k') == if k' == k then Some(v) else Find(f, es, k')
  {
  }

  // ---- Tables ----

  function Flatten<X>(bs: seq<seq<X>>): seq<X> {
    if bs == [] then [] else Flatten(bs[..|bs| - 1]) + bs[|bs| - 1]
  }

  function BucketOf<K(!new)>(f: Keying<K>, k: K, size: nat): (i: nat)
    requires size > 0
    ensures i < size
  {
    f.hash(k) % size
  }

  /** Bucket i holds, in key order, only keys that hash to i. */
  ghost predicate BucketOk<K(!new), V>(f: Keying<K>, t: Table<K, V>, i: nat)
    requires i < |t.buckets|
  {
    && Sorted(f, t.buckets[i])
    && forall e :: e in t.buckets[i] ==> BucketOf(f, e.key, |t.buckets|) == i
  }

  ghost predicate WellFormed<K(!new), V>(f: Keying<K>, t: Table<K, V>) {
    && f.Valid()
    && 2 <= |t.buckets|
    && t.nentries == |Flatten(t.buckets)| <= |t.buckets| / 2
    && forall i :: 0 <= i < |t.buckets| ==> BucketOk(f, t, i)
  }

  function Get<K(!new), V>(f: Keying<K>, t: Table<K, V>, k: K): Option<V>
    requires |t.buckets| > 0
  {
    Find(f, t.buckets[BucketOf(f, k, |t.buckets|)], k)
  }

  /** The entry goes into its bucket; the table keeps its size. */
  function Add<K(!new), V>(f: Keying<K>, t: Table<K, V>, k: K, v: V): (t': Table<K, V>)
    requires |t.buckets| > 0
    ensures |t'.buckets| == |t.buckets|
  {
    var i := BucketOf(f, k, |t.buckets|);
    t.(buckets := t.buckets[i := Insert(f, t.buckets[i], k, v)],
       nentries := t.nentries + if Get(f, t, k).None? then 1 else 0)
  }

  function Move<K(!new), V>(f: Keying<K>, t: Table<K, V>, e: Entry<K, V>): (t': Table<K, V>)
    requires |t.buckets| > 0
    ensures |t'.buckets| == |t.buckets|
  {
    Add(f, t, e.key, e.value).(relocated := t.relocated + 1)
  }

  /** Rehashing moves entries one at a time. */
  function MoveAll<K(!new), V>(f: Keying<K>, t: Table<K, V>, es: Chain<K, V>): (t': Table<K, V>)
    requires |t.buckets| > 0
    ensures |t'.buckets| == |t.buckets|
  {
    if es == [] then t else Move(f, MoveAll(f, t, es[..|es| - 1]), es[|es| - 1])
  }

  function Empty<K(!new), V>(size: nat, relocated: nat): Table<K, V> {
    Table(seq(size, _ => []), 0, relocated)
  }

  function Rehash<K(!new), V>(f: Keying<K>, t: Table<K, V>, size: nat): Table<K, V>
    requires size > 0
  {
    MoveAll(f, Empty(size, t.relocated), Flatten(t.buckets))
  }

  predicate Full<K(!new), V>(t: Table<K, V>) {
    t.nentries >= |t.buckets| / 2
  }

  function Put<K(!new), V>(f: Keying<K>, t: Table<K, V>, k: K, v: V): Table<K, V>
    requires |t.buckets| > 0
  {
    Add(f, if Full(t) then Rehash(f, t, |t.buckets| * 2) else t, k, v)
  }

  // ---- Flattening ----

  lemma {:induction false} FlattenUpdate<X>(bs: seq<seq<X>>, i: nat, b: seq<X>)
    requires i < |bs|
    ensures |Flatten(bs[i := b])| == |Flatten(bs)| - |bs[i]| + |b|
  {
    var n := |bs| - 1;
    if i < n {
      assert bs[i := b][..n] == bs[..n][i := b];
      FlattenUpdate(bs[..n], i, b);
    } else {
      assert bs[i := b][..n] == bs[..n];
    }
  }

  lemma {:induction false} FlattenHas<X>(bs: seq<seq<X>>, x: X)
    ensures x in Flatten(bs) <==> exists i :: 0 <= i < |bs| && x in bs[i]
  {
    if bs != [] {
      var n := |bs| - 1;
      FlattenHas(bs[..n], x);
      if x in Flatten(bs[..n]) {
        var i :| 0 <= i < n && x in bs[..n][i];
        assert x in bs[i];
      } else if i :| 0 <= i < |bs| && x in bs[i] {
        if i < n {
          assert x in bs[..n][i];
        }
      }
    }
  }

  lemma {:induction false} FlattenEmpty<X>(bs: seq<seq<X>>)
    requires forall i :: 0 <= i < |bs| ==> bs[i] == []
    ensures Flatten(bs) == []
  {
    if bs != [] {
      FlattenEmpty(bs[..|bs| - 1]);
    }
  }

  // ---- One addition ----

  lemma AddKeepsBuckets<K(!new), V>(f: Keying<K>, t: Table<K, V>, k: K, v: V)
    requires WellFormed(f, t)
    ensures var t' := Add(f, t, k, v);
            && |Flatten(t'.buckets)| == t'.nentries
            && forall i :: 0 <= i < |t'.buckets| ==> BucketOk(f, t', i)
  {
    var i := BucketOf(f, k, |t.buckets|);
    var t' := Add(f, t, k, v);
    assert BucketOk(f, t, i);
    InsertSorted(f, t.buckets[i], k, v);
    InsertLength(f, t.buckets[i], k, v);
    FlattenUpdate(t.buckets, i, t'.buckets[i]);
    forall j | 0 <= j < |t'.buckets| ensures BucketOk(f, t', j) {
      assert BucketOk(f, t, j);
      if j == i {
        forall e | e in t'.buckets[i] ensures BucketOf(f, e.key, |t.buckets|) == i {
          InsertKeys(f, t.buckets[i], k, v, e);
        }
      }
    }
  }

  lemma AddWellFormed<K(!new), V>(f: Keying<K>, t: Table<K, V>, k: K, v: V)
    requires WellFormed(f, t) && !Full(t)
    ensures WellFormed(f, Add(f, t, k, v))
  {
    AddKeepsBuckets(f, t, k, v);
  }

  /** Overwriting needs no room. */
  lemma ReplaceWellFormed<K(!new), V>(f: Keying<K>, t: Table<K, V>, k: K, v: V)
    requires WellFormed(f, t) && Get(f, t, k).Some?
    ensures WellFormed(f, Add(f, t, k, v))
  {
    AddKeepsBuckets(f, t, k, v);
  }

  /** Adding changes what the table says about k, and about nothing else. */
  lemma GetAdd<K(!new), V>(f: Keying<K>, t: Table<K, V>, k: K, v: V, k': K)
    requires f.Valid() && |t.buckets| > 0
    ensures Get(f, Add(f, t, k, v), k') == if k' == k then Some(v) else Get(f, t, k')
  {
    FindInsert(f, t.buckets[BucketOf(f, k, |t.buckets|)], k, v, k');
  }

  /** A table offers exactly what its entries say. */
  lemma GetIs<K(!new), V>(f: Keying<K>, t: Table<K, V>, k: K, v: V)
    requires WellFormed(f, t)
    ensures Get(f, t, k) == Some(v) <==> Entry(k, v) in Flatten(t.buckets)
  {
    var i := BucketOf(f, k, |t.buckets|);
    assert BucketOk(f, t, i);
    FindIs(f, t.buckets[i], k);
    FlattenHas(t.buckets, Entry(k, v));
    if Entry(k, v) in Flatten(t.buckets) {
      var j :| 0 <= j < |t.buckets| && Entry(k, v) in t.buckets[j];
      assert BucketOk(f, t, j);
    }
  }

  // ---- Rehashing ----

  ghost predicate DistinctKeys<K(!new), V>(es: Chain<K, V>) {
    forall i, j :: 0 <= i < j < |es| ==> es[i].key != es[j].key
  }

  /** The value the last entry with key k gives. */
  function Assoc<K(==), V>(es: Chain<K, V>, k: K): Option<V> {
    if es == [] then None
    else if es[|es| - 1].key == k then Some(es[|es| - 1].value)
    else Assoc(es[..|es| - 1], k)
  }

  lemma {:induction false} AssocIs<K(!new), V>(es: Chain<K, V>, k: K)
    ensures Assoc(es, k).Some? ==> Entry(k, Assoc(es, k).value) in es
    ensures Assoc(es, k).None? ==> forall e :: e in es ==> e.key != k
  {
    if es != [] {
      AssocIs(es[..|es| - 1], k);
    }
  }

  lemma DistinctAppend<K(!new), V>(es: Chain<K, V>, fs: Chain<K, V>)
    requires DistinctKeys(es) && DistinctKeys(fs)
    requires forall x, y :: x in es && y in fs ==> x.key != y.key
    ensures DistinctKeys(es + fs)
  {
  }

  lemma {:induction false} FlattenDistinct<K(!new), V>(f: Keying<K>, t: Table<K, V>, n: nat)
    requires f.Valid() && n <= |t.buckets|
    requires forall i :: 0 <= i < |t.buckets| ==> BucketOk(f, t, i)
    ensures DistinctKeys(Flatten(t.buckets[..n]))
  {
    if n > 0 {
      var front, b := t.buckets[..n - 1], t.buckets[n - 1];
      assert t.buckets[..n][..n - 1] == front;
      FlattenDistinct(f, t, n - 1);
      assert BucketOk(f, t, n - 1);
      forall x: Entry<K, V>, y: Entry<K, V> | x in Flatten(front) && y in b ensures x.key != y.key {
        FlattenHas(front, x);
        var i :| 0 <= i < n - 1 && x in front[i];
        assert BucketOk(f, t, i);
      }
      DistinctAppend(Flatten(front), b);
    }
  }

  /** No key occurs twice in a table. */
  lemma KeysOnce<K(!new), V>(f: Keying<K>, t: Table<K, V>)
    requires WellFormed(f, t)
    ensures DistinctKeys(Flatten(t.buckets))
  {
    FlattenDistinct(f, t, |t.buckets|);
    assert t.buckets[..|t.buckets|] == t.buckets;
  }

  lemma {:induction false} GetMoveAll<K(!new), V>(f: Keying<K>, t: Table<K, V>, es: Chain<K, V>, k: K)
    requires f.Valid() && |t.buckets| > 0
    ensures Get(f, MoveAll(f, t, es), k) == if Assoc(es, k).Some? then Assoc(es, k) else Get(f, t, k)
  {
    if es != [] {
      var n := |es| - 1;
      GetMoveAll(f, t, es[..n], k);
      GetAdd(f, MoveAll(f, t, es[..n]), es[n].key, es[n].value, k);
    }
  }

  lemma EmptyWellFormed<K(!new), V>(f: Keying<K>, size: nat, relocated: nat)
    requires f.Valid() && 2 <= size
    ensures WellFormed(f, Empty<K, V>(size, relocated))
    ensures Flatten(Empty<K, V>(size, relocated).buckets) == []
    ensures forall k :: Get(f, Empty<K, V>(size, relocated), k) == None
  {
    FlattenEmpty(Empty<K, V>(size, relocated).buckets);
  }

  lemma MoveWellFormed<K(!new), V>(f: Keying<K>, t: Table<K, V>, e: Entry<K, V>)
    requires WellFormed(f, t) && !Full(t) && Get(f, t, e.key) == None
    ensures WellFormed(f, Move(f, t, e))
    ensures Move(f, t, e).nentries == t.nentries + 1
    ensures Move(f, t, e).relocated == t.relocated + 1
  {
    var t', u := Add(f, t, e.key, e.value), Move(f, t, e);
    AddWellFormed(f, t, e.key, e.value);
    assert u.buckets == t'.buckets && u.nentries == t'.nentries;
    forall i | 0 <= i < |u.buckets| ensures BucketOk(f, u, i) {
      assert BucketOk(f, t', i);
    }
  }

  lemma {:induction false} MoveAllWellFormed<K(!new), V>(f: Keying<K>, t: Table<K, V>, es: Chain<K, V>)
    requires WellFormed(f, t) && DistinctKeys(es)
    requires t.nentries + |es| <= |t.buckets| / 2
    requires forall e :: e in es ==> Get(f, t, e.key) == None
    ensures WellFormed(f, MoveAll(f, t, es))
    ensures MoveAll(f, t, es).nentries == t.nentries + |es|
    ensures MoveAll(f, t, es).relocated == t.relocated + |es|
  {
    if es != [] {
      var n := |es| - 1;
      MoveAllWellFormed(f, t, es[..n]);
      AssocIs(es[..n], es[n].key);
      GetMoveAll(f, t, es[..n], es[n].key);
      MoveWellFormed(f, MoveAll(f, t, es[..n]), es[n]);
    }
  }

  /** The i-th entry to be moved finds the table with room to spare and without its key. */
  lemma MoveFindsRoom<K(!new), V>(f: Keying<K>, t: Table<K, V>, es: Chain<K, V>, i: nat)
    requires WellFormed(f, t) && DistinctKeys(es) && i < |es|
    requires t.nentries + |es| <= |t.buckets| / 2
    requires forall e :: e in es ==> Get(f, t, e.key) == None
    ensures WellFormed(f, MoveAll(f, t, es[..i]))
    ensures !Full(MoveAll(f, t, es[..i])) && Get(f, MoveAll(f, t, es[..i]), es[i].key) == None
  {
    MoveAllWellFormed(f, t, es[..i]);
    AssocIs(es[..i], es[i].key);
    GetMoveAll(f, t, es[..i], es[i].key);
  }

  /** The puts a rehash is made of never find the new table full, so that they never rehash in
      turn, and never meet an equal key. */
  lemma RehashNeverNests<K(!new), V>(f: Keying<K>, t: Table<K, V>, i: nat)
    requires WellFormed(f, t) && i < t.nentries
    ensures var u := MoveAll(f, Empty(|t.buckets| * 2, t.relocated), Flatten(t.buckets)[..i]);
            WellFormed(f, u) && !Full(u) && Get(f, u, Flatten(t.buckets)[i].key) == None
  {
    EmptyWellFormed<K, V>(f, |t.buckets| * 2, t.relocated);
    KeysOnce(f, t);
    MoveFindsRoom(f, Empty(|t.buckets| * 2, t.relocated), Flatten(t.buckets), i);
  }

  /** The table halfway through a rehash of t: the buckets before i and j entries of bucket i have
      been moved. */
  function Moved<K(!new), V>(f: Keying<K>, t: Table<K, V>, i: nat, j: nat): (u: Table<K, V>)
    requires 0 < |t.buckets| && i < |t.buckets| && j <= |t.buckets[i]|
    ensures |u.buckets| == |t.buckets| * 2
  {
    MoveAll(f, Empty(|t.buckets| * 2, t.relocated), Flatten(t.buckets[..i]) + t.buckets[i][..j])
  }

  lemma {:induction false} FlattenPrefix<X>(bs: seq<seq<X>>, i: nat, j: nat)
    requires i < |bs| && j <= |bs[i]|
    ensures |Flatten(bs[..i])| + j <= |Flatten(bs)|
    ensures Flatten(bs)[..|Flatten(bs[..i])| + j] == Flatten(bs[..i]) + bs[i][..j]
    ensures j < |bs[i]| ==> |Flatten(bs[..i])| + j < |Flatten(bs)| && Flatten(bs)[|Flatten(bs[..i])| + j] == bs[i][j]
  {
    var n := |bs| - 1;
    if i < n {
      assert bs[..n][..i] == bs[..i];
      FlattenPrefix(bs[..n], i, j);
    }
  }

  lemma FlattenNext<X>(bs: seq<seq<X>>, i: nat)
    requires i < |bs|
    ensures Flatten(bs[..i + 1]) == Flatten(bs[..i]) + bs[i]
  {
    assert bs[..i + 1][..i] == bs[..i];
  }

  /** The next entry to move finds room and no equal key, so that its put is a plain move. */
  lemma NextMove<K(!new), V>(f: Keying<K>, t: Table<K, V>, i: nat, j: nat)
    requires WellFormed(f, t) && i < |t.buckets| && j < |t.buckets[i]|
    ensures var u, e := Moved(f, t, i, j), t.buckets[i][j];
            && !Full(u) && Get(f, u, e.key) == None
            && Put(f, u, e.key, e.value).(relocated := u.relocated + 1) == Moved(f, t, i, j + 1)
            && WellFormed(f, Moved(f, t, i, j + 1))
  {
    hide WellFormed, Get, Full, Add, Flatten;
    var front, b := Flatten(t.buckets[..i]), t.buckets[i];
    FlattenPrefix(t.buckets, i, j);
    EntryCount(f, t);
    RehashNeverNests(f, t, |front| + j);
    MoveWellFormed(f, Moved(f, t, i, j), b[j]);
    MovedStep(f, t, i, j);
  }

  lemma EntryCount<K(!new), V>(f: Keying<K>, t: Table<K, V>)
    requires WellFormed(f, t)
    ensures t.nentries == |Flatten(t.buckets)|
  {
  }

  lemma MovedStep<K(!new), V>(f: Keying<K>, t: Table<K, V>, i: nat, j: nat)
    requires i < |t.buckets| && j < |t.buckets[i]|
    ensures Moved(f, t, i, j + 1) == Move(f, Moved(f, t, i, j), t.buckets[i][j])
  {
    var front, b := Flatten(t.buckets[..i]), t.buckets[i];
    var es := front + b[..j + 1];
    assert es[..|es| - 1] == front + b[..j];
  }

  lemma FirstBucket<K(!new), V>(f: Keying<K>, t: Table<K, V>)
    requires 0 < |t.buckets|
    ensures Moved(f, t, 0, 0) == Empty(|t.buckets| * 2, t.relocated)
  {
  }

  lemma NextBucket<K(!new), V>(f: Keying<K>, t: Table<K, V>, i: nat)
    requires i < |t.buckets|
    ensures Moved(f, t, i, |t.buckets[i]|) ==
            if i + 1 < |t.buckets| then Moved(f, t, i + 1, 0) else Rehash(f, t, |t.buckets| * 2)
  {
    var b := t.buckets[i];
    assert b[..|b|] == b;
    assert t.buckets[..i + 1][..i] == t.buckets[..i];
    assert Flatten(t.buckets[..i + 1]) == Flatten(t.buckets[..i]) + b;
    if i + 1 < |t.buckets| {
      assert Flatten(t.buckets[..i + 1]) + t.buckets[i + 1][..0] == Flatten(t.buckets[..i + 1]);
    } else {
      assert t.buckets[..i + 1] == t.buckets;
    }
  }

  /** Rehashing conserves the contents and moves every entry exactly once. */
  lemma RehashConserves<K(!new), V>(f: Keying<K>, t: Table<K, V>)
    requires WellFormed(f, t)
    ensures var r := Rehash(f, t, |t.buckets| * 2);
            && WellFormed(f, r) && !Full(r)
            && r.nentries == t.nentries && r.relocated == t.relocated + t.nentries
            && forall k :: Get(f, r, k) == Get(f, t, k)
  {
    var empty := Empty<K, V>(|t.buckets| * 2, t.relocated);
    var es := Flatten(t.buckets);
    EmptyWellFormed<K, V>(f, |t.buckets| * 2, t.relocated);
    KeysOnce(f, t);
    MoveAllWellFormed(f, empty, es);
    forall k ensures Get(f, MoveAll(f, empty, es), k) == Get(f, t, k) {
      GetMoveAll(f, empty, es, k);
      AssocInTable(f, t, k);
    }
  }

  lemma AssocInTable<K(!new), V>(f: Keying<K>, t: Table<K, V>, k: K)
    requires WellFormed(f, t)
    ensures Assoc(Flatten(t.buckets), k) == Get(f, t, k)
  {
    var es := Flatten(t.buckets);
    AssocIs(es, k);
    if Assoc(es, k).Some? {
      GetIs(f, t, k, Assoc(es, k).value);
    } else if Get(f, t, k).Some? {
      GetIs(f, t, k, Get(f, t, k).value);
    }
  }

  // ---- Puts ----

  /** A put keeps the table well-formed and changes what it says about k alone. */
  lemma PutRefines<K(!new), V>(f: Keying<K>, t: Table<K, V>, k: K, v: V)
    requires WellFormed(f, t)
    ensures WellFormed(f, Put(f, t, k, v))
    ensures Put(f, t, k, v).nentries == t.nentries + if Get(f, t, k).None? then 1 else 0
    ensures forall k' :: Get(f, Put(f, t, k, v), k') == if k' == k then Some(v) else Get(f, t, k')
  {
    var u := if Full(t) then Rehash(f, t, |t.buckets| * 2) else t;
    RehashConserves(f, t);
    AddWellFormed(f, u, k, v);
    forall k' ensures Get(f, Put(f, t, k, v), k') == if k' == k then Some(v) else Get(f, t, k') {
      GetAdd(f, u, k, v, k');
    }
  }

  ghost function Keys<K, V>(es: Chain<K, V>): set<K> {
    set e | e in es :: e.key
  }

  lemma KeysAre<K(!new), V>(f: Keying<K>, t: Table<K, V>, k: K)
    requires WellFormed(f, t)
    ensures k in Keys(Flatten(t.buckets)) <==> Get(f, t, k).Some?
  {
    var es := Flatten(t.buckets);
    if k in Keys(es) {
      var e :| e in es && e.key == k;
      assert e == Entry(k, e.value);
      GetIs(f, t, k, e.value);
    }
    if Get(f, t, k).Some? {
      GetIs(f, t, k, Get(f, t, k).value);
    }
  }

  /** The map a table stands for. */
  ghost function Contents<K(!new), V>(f: Keying<K>, t: Table<K, V>): (m: map<K, V>)
    requires WellFormed(f, t)
    ensures forall k :: Get(f, t, k) == if k in m then Some(m[k]) else None
  {
    assert forall k :: k in Keys(Flatten(t.buckets)) <==> Get(f, t, k).Some? by {
      forall k ensures k in Keys(Flatten(t.buckets)) <==> Get(f, t, k).Some? {
        KeysAre(f, t, k);
      }
    }
    map k | k in Keys(Flatten(t.buckets)) :: Get(f, t, k).value
  }

  lemma PutContents<K(!new), V>(f: Keying<K>, t: Table<K, V>, k: K, v: V)
    requires WellFormed(f, t)
    ensures WellFormed(f, Put(f, t, k, v))
    ensures Contents(f, Put(f, t, k, v)) == Contents(f, t)[k := v]
  {
    PutRefines(f, t, k, v);
    var m, m' := Contents(f, t), Contents(f, Put(f, t, k, v));
    forall k' ensures k' in m' <==> k' in m[k := v] {
      assert Get(f, Put(f, t, k, v), k') == if k' == k then Some(v) else Get(f, t, k');
    }
    forall k' | k' in m' ensures m'[k'] == m[k := v][k'] {
      assert Get(f, Put(f, t, k, v), k') == if k' == k then Some(v) else Get(f, t, k');
    }
  }

  lemma {:induction false} DistinctCount<K(!new), V>(es: Chain<K, V>)
    requires DistinctKeys(es)
    ensures |Keys(es)| == |es|
  {
    if es != [] {
      var front, e := es[..|es| - 1], es[|es| - 1];
      DistinctCount(front);
      assert Keys(es) == Keys(front) + {e.key} by {
        assert es == front + [e];
      }
    }
  }

  /** `nentries` is the size of the map. */
  lemma ContentsSize<K(!new), V>(f: Keying<K>, t: Table<K, V>)
    requires WellFormed(f, t)
    ensures |Contents(f, t)| == t.nentries
  {
    KeysOnce(f, t);
    DistinctCount(Flatten(t.buckets));
    assert Contents(f, t).Keys == Keys(Flatten(t.buckets));
  }

  // ---- History independence ----

  lemma {:induction false} SortedUnique<K(!new), V>(f: Keying<K>, es: Chain<K, V>, fs: Chain<K, V>)
    requires f.Valid() && Sorted(f, es) && Sorted(f, fs)
    requires forall e :: e in es <==> e in fs
    ensures es == fs
  {
    EmptyTogether(es, fs);
    if es != [] {
      HeadsAgree(f, es, fs);
      forall e ensures e in es[1..] <==> e in fs[1..] {
        TailHas(f, es, e);
        TailHas(f, fs, e);
      }
      SortedUnique(f, es[1..], fs[1..]);
      assert es == [es[0]] + es[1..] && fs == [fs[0]] + fs[1..];
    }
  }

  lemma EmptyTogether<X>(es: seq<X>, fs: seq<X>)
    requires forall e :: e in es <==> e in fs
    ensures es == [] <==> fs == []
  {
    if es != [] {
      assert es[0] in es;
    }
    if fs != [] {
      assert fs[0] in fs;
    }
  }

  lemma HeadsAgree<K(!new), V>(f: Keying<K>, es: Chain<K, V>, fs: Chain<K, V>)
    requires f.Valid() && Sorted(f, es) && Sorted(f, fs) && es != [] && fs != []
    requires forall e :: e in es <==> e in fs
    ensures es[0] == fs[0]
  {
    assert es[0] in fs && fs[0] in es;
    HeadFirst(f, es, fs[0]);
    HeadFirst(f, fs, es[0]);
  }

  lemma HeadFirst<K(!new), V>(f: Keying<K>, es: Chain<K, V>, e: Entry<K, V>)
    requires Sorted(f, es) && e in es
    ensures e == es[0] || f.cmp(es[0].key, e.key) < 0
  {
  }

  lemma TailHas<K(!new), V>(f: Keying<K>, es: Chain<K, V>, e: Entry<K, V>)
    requires f.Valid() && Sorted(f, es) && es != []
    ensures e in es[1..] <==> e in es && e != es[0]
  {
    assert es == [es[0]] + es[1..];
    forall j | 0 <= j < |es[1..]| ensures es[1..][j] != es[0] {
      assert f.cmp(es[0].key, es[j + 1].key) < 0;
    }
  }

  /** Two tables of one size with the same contents have the same chains, whatever happened to
      them before. */
  lemma HistoryIndependent<K(!new), V>(f: Keying<K>, t: Table<K, V>, u: Table<K, V>)
    requires WellFormed(f, t) && WellFormed(f, u)
    requires |t.buckets| == |u.buckets| && Contents(f, t) == Contents(f, u)
    ensures t.buckets == u.buckets
  {
    forall i | 0 <= i < |t.buckets| ensures t.buckets[i] == u.buckets[i] {
      forall e ensures e in t.buckets[i] <==> e in u.buckets[i] {
        BucketHas(f, t, i, e);
        BucketHas(f, u, i, e);
      }
      assert BucketOk(f, t, i) && BucketOk(f, u, i);
      SortedUnique(f, t.buckets[i], u.buckets[i]);
    }
  }

  lemma BucketHas<K(!new), V>(f: Keying<K>, t: Table<K, V>, i: nat, e: Entry<K, V>)
    requires WellFormed(f, t) && i < |t.buckets|
    ensures e in t.buckets[i] <==>
            BucketOf(f, e.key, |t.buckets|) == i
            && e.key in Contents(f, t) && Contents(f, t)[e.key] == e.value
  {
    assert BucketOk(f, t, i);
    FindIs(f, t.buckets[i], e.key);
    assert Get(f, t, e.key) == if e.key in Contents(f, t) then Some(Contents(f, t)[e.key]) else None;
    if BucketOf(f, e.key, |t.buckets|) == i && Get(f, t, e.key) == Some(e.value) {
      var j :| 0 <= j < |t.buckets[i]| && t.buckets[i][j].key == e.key;
      assert t.buckets[i][j] == e;
    }
  }

  // ---- Growth, over any run of puts ----

  const INITIAL_SIZE: nat := 10

  /** How a table that started out empty has grown: its size is ten times a power of two, at most
      half of it and, after the first rehash, at least a quarter of it is in use, and all rehashes
      together have moved size / 2 - 5 entries. */
  ghost predicate Growth<K, V>(t: Table<K, V>) {
    && (exists j: nat :: |t.buckets| == INITIAL_SIZE * Pow2(j))
    && t.nentries <= |t.buckets| / 2
    && (|t.buckets| == INITIAL_SIZE || |t.buckets| <= 4 * t.nentries)
    && t.relocated == |t.buckets| / 2 - 5
  }

  lemma SizeIsEven(size: nat, j: nat)
    requires size == INITIAL_SIZE * Pow2(j)
    ensures size % 2 == 0 && 2 * size == INITIAL_SIZE * Pow2(j + 1)
  {
    assert size == 2 * (5 * Pow2(j));
  }

  lemma PutGrowth<K(!new), V>(f: Keying<K>, t: Table<K, V>, k: K, v: V)
    requires WellFormed(f, t) && Growth(t)
    ensures Growth(Put(f, t, k, v))
  {
    PutRefines(f, t, k, v);
    RehashConserves(f, t);
    var j: nat :| |t.buckets| == INITIAL_SIZE * Pow2(j);
    SizeIsEven(|t.buckets|, j);
    if Full(t) {
      assert |Put(f, t, k, v).buckets| == INITIAL_SIZE * Pow2(j + 1);
    }
  }

  /** The number of entries of a full table that can no longer be doubled within a C int. */
  const TOO_MANY: nat := 0x2800_0000

  lemma {:induction false} Pow2Grows(j: nat, k: nat)
    requires j <= k
    ensures Pow2(j) <= Pow2(k)
  {
    if j < k {
      Pow2Grows(j, k - 1);
    }
  }

  lemma Pow2Of27()
    ensures Pow2(27) == 0x800_0000
  {
    assert Pow2(9) == 0x200 && Pow2(18) == 0x200 * Pow2(9) && Pow2(27) == 0x200 * Pow2(18);
  }

  /** A table with fewer entries than that can be put into. */
  lemma FewEntriesFit<K(!new), V>(t: Table<K, V>)
    requires Growth(t) && t.nentries < TOO_MANY && Full(t)
    ensures |t.buckets| * 2 < 0x8000_0000
  {
    var j: nat :| |t.buckets| == INITIAL_SIZE * Pow2(j);
    SizeIsEven(|t.buckets|, j);
    Pow2Of27();
    if j >= 27 {
      Pow2Grows(27, j);
      assert false;
    }
    Pow2Grows(j, 26);
    assert Pow2(27) == 2 * Pow2(26);
  }

  /** Everything a client needs to know about one put. */
  lemma PutFacts<K(!new), V>(f: Keying<K>, t: Table<K, V>, k: K, v: V)
    requires WellFormed(f, t)
    ensures WellFormed(f, Put(f, t, k, v)) && Contents(f, Put(f, t, k, v)) == Contents(f, t)[k := v]
    ensures Get(f, t, k) == if k in Contents(f, t) then Some(Contents(f, t)[k]) else None
    ensures Put(f, t, k, v).nentries <= t.nentries + 1
    ensures Growth(t) ==> Growth(Put(f, t, k, v))
  {
    hide Put, Growth, Get;
    PutRefines(f, t, k, v);
    PutContents(f, t, k, v);
    if Growth(t) {
      PutGrowth(f, t, k, v);
    }
  }

  function PutAll<K(!new), V>(f: Keying<K>, puts: Chain<K, V>): (t: Table<K, V>)
    ensures |t.buckets| > 0
  {
    if puts == [] then Empty(INITIAL_SIZE, 0)
    else Put(f, PutAll(f, puts[..|puts| - 1]), puts[|puts| - 1].key, puts[|puts| - 1].value)
  }

  /** After any run of puts on a new table, a get returns what the last put of its key gave, and the
      table has grown as `Growth` says, so that relocating costs at most two moves an entry. */
  lemma {:induction false} RunsRefineAMap<K(!new), V>(f: Keying<K>, puts: Chain<K, V>)
    requires f.Valid()
    ensures WellFormed(f, PutAll(f, puts))
    ensures forall k :: Get(f, PutAll(f, puts), k) == Assoc(puts, k)
    ensures Growth(PutAll(f, puts))
    ensures PutAll(f, puts).relocated <= 2 * PutAll(f, puts).nentries
  {
    if puts == [] {
      EmptyWellFormed<K, V>(f, INITIAL_SIZE, 0);
      assert INITIAL_SIZE == INITIAL_SIZE * Pow2(0);
    } else {
      var n := |puts| - 1;
      var t, e := PutAll(f, puts[..n]), puts[n];
      RunsRefineAMap(f, puts[..n]);
      PutRefines(f, t, e.key, e.value);
      PutGrowth(f, t, e.key, e.value);
    }
  }

  // ---- The order of puts ----

  /** The size of a table into which n different keys were put. */
  function SizeAfter(n: nat): (size: nat)
    ensures size > 0
  {
    if n == 0 then INITIAL_SIZE
    else if n - 1 >= SizeAfter(n - 1) / 2 then SizeAfter(n - 1) * 2
    else SizeAfter(n - 1)
  }

  lemma PutSize<K(!new), V>(f: Keying<K>, t: Table<K, V>, k: K, v: V)
    requires |t.buckets| > 0
    ensures |Put(f, t, k, v).buckets| == if Full(t) then |t.buckets| * 2 else |t.buckets|
  {
    hide Add;
  }

  lemma {:induction false} DistinctPutsSize<K(!new), V>(f: Keying<K>, puts: Chain<K, V>)
    requires f.Valid() && DistinctKeys(puts)
    ensures PutAll(f, puts).nentries == |puts|
    ensures |PutAll(f, puts).buckets| == SizeAfter(|puts|)
  {
    hide WellFormed, Get, Put, Growth, Assoc;
    if puts != [] {
      var front, e := puts[..|puts| - 1], puts[|puts| - 1];
      DistinctPutsSize(f, front);
      RunsRefineAMap(f, front);
      AssocIs(front, e.key);
      PutRefines(f, PutAll(f, front), e.key, e.value);
      PutSize(f, PutAll(f, front), e.key, e.value);
    }
  }

  lemma AssocAgrees<K(!new), V>(es: Chain<K, V>, fs: Chain<K, V>, k: K)
    requires DistinctKeys(es) && DistinctKeys(fs)
    requires forall e :: e in es <==> e in fs
    ensures Assoc(es, k) == Assoc(fs, k)
  {
    AssocIs(es, k);
    AssocIs(fs, k);
  }

  /** Puts of different keys build the same table in any order: the same size, the same chains, and
      as many relocations on the way. */
  lemma OrderIrrelevant<K(!new), V>(f: Keying<K>, ps: Chain<K, V>, qs: Chain<K, V>)
    requires f.Valid() && DistinctKeys(ps) && DistinctKeys(qs)
    requires forall e :: e in ps <==> e in qs
    ensures PutAll(f, ps) == PutAll(f, qs)
  {
    hide WellFormed, Get, PutAll, Assoc, DistinctKeys;
    var t, u := PutAll(f, ps), PutAll(f, qs);
    SameLength(ps, qs);
    DistinctPutsSize(f, ps);
    DistinctPutsSize(f, qs);
    RunsRefineAMap(f, ps);
    RunsRefineAMap(f, qs);
    forall k ensures Get(f, t, k) == Get(f, u, k) {
      AssocAgrees(ps, qs, k);
    }
    SameContents(f, t, u);
    HistoryIndependent(f, t, u);
  }

  lemma SameLength<K(!new), V>(ps: Chain<K, V>, qs: Chain<K, V>)
    requires DistinctKeys(ps) && DistinctKeys(qs)
    requires forall e :: e in ps <==> e in qs
    ensures |ps| == |qs|
  {
    DistinctCount(ps);
    DistinctCount(qs);
    assert Keys(ps) == Keys(qs);
  }

  lemma SameContents<K(!new), V>(f: Keying<K>, t: Table<K, V>, u: Table<K, V>)
    requires WellFormed(f, t) && WellFormed(f, u)
    requires forall k :: Get(f, t, k) == Get(f, u, k)
    ensures Contents(f, t) == Contents(f, u)
  {
    hide Get, BucketOk, Flatten;
    var m, n := Contents(f, t), Contents(f, u);
    forall k ensures (k in m <==> k in n) && (k in m ==> m[k] == n[k]) {
      assert Get(f, t, k) == if k in m then Some(m[k]) else None;
      assert Get(f, u, k) == if k in n then Some(n[k]) else None;
    }
  }

  /** A repeated key spoils this: putting an entry again changes no content, but doubles the table
      exactly if it is full, as the first one is with five keys. */
  lemma OverwritingGrows<K(!new), V>(f: Keying<K>, puts: Chain<K, V>, e: Entry<K, V>)
    requires f.Valid() && DistinctKeys(puts) && e in puts
    ensures var t, u := PutAll(f, puts), PutAll(f, puts + [e]);
            && WellFormed(f, t) && WellFormed(f, u) && Contents(f, t) == Contents(f, u)
            && |u.buckets| == (if Full(t) then 2 * |t.buckets| else |t.buckets|)
            && (|puts| == 5 ==> Full(t))
  {
    hide WellFormed, Get, Growth, Put, Contents, DistinctKeys, Assoc;
    var t := PutAll(f, puts);
    assert (puts + [e])[..|puts|] == puts;
    DistinctPutsSize(f, puts);
    FirstSize();
    RunsRefineAMap(f, puts);
    AssocOf(puts, e);
    PutContents(f, t, e.key, e.value);
    PutSize(f, t, e.key, e.value);
    StoredAlready(f, t, e.key, e.value);
  }

  lemma AssocOf<K(!new), V>(es: Chain<K, V>, e: Entry<K, V>)
    requires DistinctKeys(es) && e in es
    ensures Assoc(es, e.key) == Some(e.value)
  {
    AssocIs(es, e.key);
  }

  lemma StoredAlready<K(!new), V>(f: Keying<K>, t: Table<K, V>, k: K, v: V)
    requires WellFormed(f, t) && Get(f, t, k) == Some(v)
    ensures Contents(f, t)[k := v] == Contents(f, t)
  {
    hide WellFormed, Get;
    SameUpdate(Contents(f, t), k, v);
  }

  lemma FirstSize()
    ensures SizeAfter(5) == 10
  {
    assert SizeAfter(1) == 10 && SizeAfter(2) == 10 && SizeAfter(3) == 10 && SizeAfter(4) == 10;
  }

  lemma SameUpdate<K, V>(m: map<K, V>, k: K, v: V)
    requires k in m && m[k] == v
    ensures m[k := v] == m
  {
  }
}
