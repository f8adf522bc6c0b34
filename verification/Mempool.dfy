/**
 The FIFO mempool (app/mempool/mempool_fifo.go): two linked queues, a lookup map for each, and an
 iterator over a snapshot. Maps, queues and iterators share the elements of the lists.
 */
module Mempool {
  import opened Wrappers
  import opened Clist

  datatype Key = Key(address: string, nonce: nat)

  /** A transaction: its sender key (None without a usable signature) and whether all messages are oracle messages. */
  datatype Tx = Tx(id: nat, key: Option<Key>, oracle: bool)

  type Entry = Element<Tx>

  datatype Error = MempoolTxMaxCapacity | NoSigner | TxNotFound

  // ---------- a queue and its map

  function KeyOf(e: Entry): Key {
    if e.value.key.Some? then e.value.key.value else Key("", 0)
  }

  /** The map looks every element of the queue up under its key, and nothing else. */
  ghost predicate Indexed(q: seq<Entry>, m: map<Key, Entry>) {
    && (forall i :: 0 <= i < |q| ==> q[i].value.key.Some? && KeyOf(q[i]) in m && m[KeyOf(q[i])] == q[i])
    && (forall k :: k in m ==> m[k] in q && KeyOf(m[k]) == k)
    && (forall i, j :: 0 <= i < j < |q| ==> KeyOf(q[i]) != KeyOf(q[j]))
  }

  function Txs(q: seq<Entry>): seq<Tx> {
    seq(|q|, i requires 0 <= i < |q| => q[i].value)
  }

  lemma IndexedPush(q: seq<Entry>, m: map<Key, Entry>, e: Entry)
    requires Indexed(q, m) && e.value.key.Some? && e !in q
    ensures Indexed(q + [e], m[KeyOf(e) := e]) <==> KeyOf(e) !in m
  {
    var q', m' := q + [e], m[KeyOf(e) := e];
    if KeyOf(e) in m {
      var i :| 0 <= i < |q| && q[i] == m[KeyOf(e)];
      assert q'[i] == q[i] && q'[|q|] == e;
    } else {
      forall k | k in m' ensures m'[k] in q' && KeyOf(m'[k]) == k {
        if k == KeyOf(e) {
          assert q'[|q|] == e;
        } else {
          var i :| 0 <= i < |q| && q[i] == m[k];
          assert q'[i] == q[i];
        }
      }
      assert forall i :: 0 <= i < |q| ==> KeyOf(q[i]) in m;
    }
  }

  lemma IndexedRemove(q: seq<Entry>, m: map<Key, Entry>, i: nat)
    requires Indexed(q, m) && i < |q|
    ensures Indexed(Without(q, i), m - {KeyOf(q[i])})
  {
    var q', m' := Without(q, i), m - {KeyOf(q[i])};
    forall j | 0 <= j < |q'| ensures q'[j] == q[if j < i then j else j + 1] {
    }
    forall k | k in m' ensures m'[k] in q' {
      var j :| 0 <= j < |q| && q[j] == m[k];
      assert j != i;
      assert q'[if j < i then j else j - 1] == q[j];
    }
  }

  // ---------- the iterator

  /** What an iterator still yields: each key in turn takes its oracle entry first, then its regular one. */
  ghost function Pending(keys: seq<Key>, oracle: map<Key, Entry>, regular: map<Key, Entry>): seq<Entry> {
    if keys == [] then []
    else if keys[0] in oracle then [oracle[keys[0]]] + Pending(keys[1..], oracle - {keys[0]}, regular)
    else if keys[0] in regular then [regular[keys[0]]] + Pending(keys[1..], oracle, regular - {keys[0]})
    else Pending(keys[1..], oracle, regular)
  }

  function Keys(q: seq<Entry>): seq<Key> {
    seq(|q|, i requires 0 <= i < |q| => KeyOf(q[i]))
  }

  lemma NoKeys(q: seq<Entry>)
    requires q == []
    ensures Keys(q) == []
  {
  }

  lemma KeysTail(q: seq<Entry>)
    requires q != []
    ensures Keys(q) == [KeyOf(q[0])] + Keys(q[1..])
  {
  }

  lemma IndexedTail(q: seq<Entry>, m: map<Key, Entry>)
    requires Indexed(q, m) && q != []
    ensures Indexed(q[1..], m - {KeyOf(q[0])})
  {
    IndexedRemove(q, m, 0);
    assert Without(q, 0) == q[1..];
  }

  /**
   A snapshot of two queues yields the oracle queue and then the regular queue, every element
   once, also when a key occurs in both queues.
   */
  lemma {:induction false} PendingOfSnapshot(o: seq<Entry>, mo: map<Key, Entry>, q: seq<Entry>, m: map<Key, Entry>)
    requires Indexed(o, mo) && Indexed(q, m)
    ensures Pending(Keys(o) + Keys(q), mo, m) == o + q
    decreases |o| + |q|
  {
    hide Indexed, Keys;
    if o != [] {
      IndexedHead(o, mo);
      IndexedTail(o, mo);
      KeysTail(o);
      PendingOfSnapshot(o[1..], mo - {KeyOf(o[0])}, q, m);
      PendingOracle(o[0], Keys(o[1..]) + Keys(q), mo, m);
      assert Keys(o) + Keys(q) == [KeyOf(o[0])] + (Keys(o[1..]) + Keys(q));
      assert o + q == [o[0]] + (o[1..] + q);
    } else if q != [] {
      IndexedHead(q, m);
      IndexedTail(q, m);
      KeysTail(q);
      IndexedEmpty(mo);
      PendingOfSnapshot(o, mo, q[1..], m - {KeyOf(q[0])});
      PendingRegular(q[0], Keys(q[1..]), m);
      NoKeys(o);
      assert [] + Keys(q) == Keys(q) && [] + Keys(q[1..]) == Keys(q[1..]);
      assert o + q == [q[0]] + (o + q[1..]);
    } else {
      NoKeys(o);
      NoKeys(q);
    }
  }

  lemma IndexedEmpty(m: map<Key, Entry>)
    requires Indexed([], m)
    ensures m == map[]
  {
  }

  lemma IndexedHead(q: seq<Entry>, m: map<Key, Entry>)
    requires Indexed(q, m) && q != []
    ensures KeyOf(q[0]) in m && m[KeyOf(q[0])] == q[0] && q[0].value.key.Some?
  {
  }

  lemma PendingOracle(e: Entry, keys: seq<Key>, mo: map<Key, Entry>, m: map<Key, Entry>)
    requires KeyOf(e) in mo && mo[KeyOf(e)] == e
    ensures Pending([KeyOf(e)] + keys, mo, m) == [e] + Pending(keys, mo - {KeyOf(e)}, m)
  {
    assert ([KeyOf(e)] + keys)[1..] == keys;
  }

  lemma PendingRegular(e: Entry, keys: seq<Key>, m: map<Key, Entry>)
    requires KeyOf(e) in m && m[KeyOf(e)] == e
    ensures Pending([KeyOf(e)] + keys, map[], m) == [e] + Pending(keys, map[], m - {KeyOf(e)})
  {
    assert ([KeyOf(e)] + keys)[1..] == keys;
  }

  class FifoIterator {
    var currentTx: Element?<Tx>
    var listTxKey: seq<Key>
    var mapTxs: map<Key, Entry>
    var mapTxsOracle: map<Key, Entry>

    constructor (keys: seq<Key>, oracle: map<Key, Entry>, regular: map<Key, Entry>)
      ensures listTxKey == keys && mapTxsOracle == oracle && mapTxs == regular
    {
      currentTx, listTxKey, mapTxsOracle, mapTxs := null, keys, oracle, regular;
    }

    ghost function Rest(): seq<Entry>
      reads this
    {
      Pending(listTxKey, mapTxsOracle, mapTxs)
    }

    /** Next (mempool_fifo.go:131-155); false stands for the nil iterator. */
    method Next() returns (more: bool)
      modifies this
      ensures more <==> old(Rest()) != []
      ensures more ==> currentTx == old(Rest())[0] && Rest() == old(Rest())[1..]
      ensures !more ==> Rest() == []
      decreases |listTxKey|
    {
      if |listTxKey| == 0 {
        return false;
      }
      var txKey := listTxKey[0];
      listTxKey := listTxKey[1..];
      if txKey in mapTxsOracle {
        currentTx := mapTxsOracle[txKey];
        mapTxsOracle := mapTxsOracle - {txKey};
        return true;
      }
      if txKey in mapTxs {
        currentTx := mapTxs[txKey];
        mapTxs := mapTxs - {txKey};
        return true;
      }
      more := Next();
    }
  }

  // ---------- the pool

  class FifoMempool {
    const maxTx: int
    const txs: List<Tx>
    const txsOracle: List<Tx>
    var txsMap: map<Key, Entry>
    var txsMapOracle: map<Key, Entry>

    ghost function Repr(): set<object>
      reads this, txs, txsOracle
    {
      {this, txs, txsOracle} + (set e | e in txs.nodes) + (set e | e in txsOracle.nodes)
    }

    /** The two lists are well linked, and each transaction is in the queue of its kind. */
    ghost predicate Linked()
      reads this, txs, txsOracle, txs.nodes, txsOracle.nodes
    {
      && txs != txsOracle && txs.Valid() && txsOracle.Valid()
      && (forall e :: e in txs.nodes ==> !e.value.oracle)
      && (forall e :: e in txsOracle.nodes ==> e.value.oracle)
    }

    /** Queues and maps are in bijection, and the count fits. */
    ghost predicate Valid()
      reads this, txs, txsOracle, txs.nodes, txsOracle.nodes
    {
      && Linked()
      && Indexed(txs.nodes, txsMap) && Indexed(txsOracle.nodes, txsMapOracle)
      && |txs.nodes| + |txsOracle.nodes| <= if maxTx < 0 then 0 else maxTx
    }

    ghost function Regular(): seq<Tx>
      reads this, txs
    {
      Txs(txs.nodes)
    }

    ghost function Oracle(): seq<Tx>
      reads this, txsOracle
    {
      Txs(txsOracle.nodes)
    }

    constructor (maxTx: int)
      ensures this.maxTx == maxTx && Valid() && Regular() == [] && Oracle() == [] && fresh(Repr())
    {
      this.maxTx := maxTx;
      txs := new List();
      txsOracle := new List();
      txsMap, txsMapOracle := map[], map[];
    }

    /** The pool takes a transaction: it is open, not full, and the transaction has a key. */
    ghost predicate Takes(tx: Tx)
      reads this, txs, txsOracle
    {
      0 <= |txs.nodes| + |txsOracle.nodes| < maxTx && tx.key.Some?
    }

    /** The key of a transaction is not yet in its queue. */
    predicate NewKey(tx: Tx)
      reads this
    {
      tx.key.Some? && if tx.oracle then tx.key.value !in txsMapOracle else tx.key.value !in txsMap
    }

    /** The first entry of the queues is the one its map holds. */
    lemma HeadPending(e: Entry)
      requires Valid()
      requires var all := txsOracle.nodes + txs.nodes; all != [] && e == all[0]
      ensures Indexed(txs.nodes, txsMap) && Indexed(txsOracle.nodes, txsMapOracle)
      ensures e.value.oracle == (txsOracle.nodes != [])
      ensures e.value.key == Some(KeyOf(e)) && !NewKey(e.value)
    {
      hide Indexed, List.Valid;
      if txsOracle.nodes != [] {
        IndexedHead(txsOracle.nodes, txsMapOracle);
      } else {
        IndexedHead(txs.nodes, txsMap);
      }
    }

    lemma Apart()
      requires Linked()
      ensures forall e :: e in txs.nodes ==> e !in txsOracle.nodes
      ensures forall e :: e in txsOracle.nodes ==> e !in txs.nodes
    {
    }

    /** Pushes a transaction on its queue and stores the element under its key (mempool_fifo.go:83-90). */
    method Push(tx: Tx)
      requires Valid() && tx.key.Some?
      modifies Repr()
      ensures Linked() && fresh(Repr() - old(Repr()))
      ensures Oracle() == old(Oracle()) + if tx.oracle then [tx] else []
      ensures Regular() == old(Regular()) + if tx.oracle then [] else [tx]
      ensures Indexed(txs.nodes, txsMap) && Indexed(txsOracle.nodes, txsMapOracle) <==> old(NewKey(tx))
      ensures |txs.nodes| + |txsOracle.nodes| == old(|txs.nodes| + |txsOracle.nodes|) + 1
    {
      hide Indexed, Txs, List.Valid;
      Apart();
      if tx.oracle {
        var m, e := PushOn(txsOracle, txsMapOracle, tx);
        TxsPush(old(txsOracle.nodes), e);
        txsMapOracle := m;
        txs.Untouched();
      } else {
        var m, e := PushOn(txs, txsMap, tx);
        TxsPush(old(txs.nodes), e);
        txsMap := m;
        txsOracle.Untouched();
      }
    }

    /**
     Insert (mempool_fifo.go:68-93) appends to the queue of the transaction's kind. It does
     not look for the key first: the pool stays in order exactly if the key was new.
     */
    method Insert(tx: Tx) returns (err: Option<Error>)
      requires Valid()
      modifies Repr()
      ensures Linked() && fresh(Repr() - old(Repr()))
      ensures err == if maxTx >= 0 && old(|txs.nodes| + |txsOracle.nodes|) >= maxTx then Some(MempoolTxMaxCapacity)
                     else if maxTx >= 0 && tx.key.None? then Some(NoSigner) else None
      ensures Oracle() == old(Oracle()) + if old(Takes(tx)) && tx.oracle then [tx] else []
      ensures Regular() == old(Regular()) + if old(Takes(tx)) && !tx.oracle then [tx] else []
      ensures Valid() <==> (old(Takes(tx)) ==> old(NewKey(tx)))
    {
      hide Indexed, Txs;
      var totalTxs := txs.len + txsOracle.len;
      if maxTx >= 0 && totalTxs >= maxTx {
        return Some(MempoolTxMaxCapacity);
      }
      if maxTx < 0 {
        return None;
      }
      if tx.key.None? {
        return Some(NoSigner);
      }
      Push(tx);
      err := None;
    }

    /** Takes the element stored under a key out of the map and unlinks it (mempool_fifo.go:169-180). */
    method Drop(oracle: bool, txKey: Key) returns (found: bool)
      requires Valid()
      modifies Repr()
      ensures Valid() && Repr() <= old(Repr())
      ensures found <==> txKey in if oracle then old(txsMapOracle) else old(txsMap)
      ensures !found ==> txs.nodes == old(txs.nodes) && txsOracle.nodes == old(txsOracle.nodes)
      ensures found && oracle ==>
        txs.nodes == old(txs.nodes) && Dropped(old(txsOracle.nodes), txsOracle.nodes, txKey)
      ensures found && !oracle ==>
        txsOracle.nodes == old(txsOracle.nodes) && Dropped(old(txs.nodes), txs.nodes, txKey)
    {
      hide Indexed, Dropped, List.Valid;
      Apart();
      if oracle {
        txsMapOracle, found := DropFrom(txsOracle, txsMapOracle, txKey);
        txs.Untouched();
      } else {
        txsMap, found := DropFrom(txs, txsMap, txKey);
        txsOracle.Untouched();
      }
    }

    /** Remove (mempool_fifo.go:161-183): unlinks the transaction with that key; the rest keeps its order. */
    method Remove(tx: Tx) returns (err: Option<Error>)
      requires Valid()
      modifies Repr()
      ensures Valid() && Repr() <= old(Repr())
      ensures err.None? <==> tx.key.Some? && !old(NewKey(tx))
      ensures err.Some? ==> err.value == if tx.key.None? then NoSigner else TxNotFound
      ensures err.Some? ==> txs.nodes == old(txs.nodes) && txsOracle.nodes == old(txsOracle.nodes)
      ensures err.None? && tx.oracle ==>
        txs.nodes == old(txs.nodes) && Dropped(old(txsOracle.nodes), txsOracle.nodes, tx.key.value)
      ensures err.None? && !tx.oracle ==>
        txsOracle.nodes == old(txsOracle.nodes) && Dropped(old(txs.nodes), txs.nodes, tx.key.value)
    {
      hide Indexed, Dropped;
      if tx.key.None? {
        return Some(NoSigner);
      }
      var found := Drop(tx.oracle, tx.key.value);
      err := if found then None else Some(TxNotFound);
    }

    /** CountTx (mempool_fifo.go:185-189). */
    method CountTx() returns (n: nat)
      requires Valid()
      ensures n == |Oracle()| + |Regular()| && (maxTx >= 0 ==> n <= maxTx)
    {
      n := txs.len + txsOracle.len;
    }

    /**
     Select (mempool_fifo.go:95-122): a fresh iterator over the oracle queue and then the
     regular queue as they are now. Later changes of the pool do not reach it.
     */
    method Select() returns (it: FifoIterator, more: bool)
      requires Valid()
      ensures fresh(it)
      ensures var all := txsOracle.nodes + txs.nodes;
        && (more <==> all != [])
        && (more ==> it.currentTx == all[0] && it.Rest() == all[1..])
        && (!more ==> it.Rest() == [])
    {
      hide Indexed;
      var oracleKeys, oracleMap := Snapshot(txsOracle, txsMapOracle);
      var regularKeys, regularMap := Snapshot(txs, txsMap);
      it := new FifoIterator(oracleKeys + regularKeys, oracleMap, regularMap);
      PendingOfSnapshot(txsOracle.nodes, oracleMap, txs.nodes, regularMap);
      more := it.Next();
    }
  }

  /** The same queue without the one element that had the key; the others keep their order. */
  ghost predicate Dropped(before: seq<Entry>, after: seq<Entry>, key: Key) {
    exists i :: 0 <= i < |before| && KeyOf(before[i]) == key && after == Without(before, i)
  }

  lemma HeadDropped(q: seq<Entry>, m: map<Key, Entry>, after: seq<Entry>)
    requires Indexed(q, m) && q != [] && Dropped(q, after, KeyOf(q[0]))
    ensures after == q[1..]
  {
    var i :| 0 <= i < |q| && KeyOf(q[i]) == KeyOf(q[0]) && after == Without(q, i);
    assert i == 0;
  }

  lemma TxsPush(q: seq<Entry>, e: Entry)
    ensures Txs(q + [e]) == Txs(q) + [e.value]
  {
  }

  /** A queue and its map with one more transaction. */
  method PushOn(l: List<Tx>, m: map<Key, Entry>, tx: Tx) returns (m': map<Key, Entry>, e: Entry)
    requires l.Valid() && Indexed(l.nodes, m) && tx.key.Some?
    modifies l, l.nodes
    ensures l.Valid() && l.nodes == old(l.nodes) + [e] && fresh(e) && e.value == tx
    ensures Indexed(l.nodes, m') <==> tx.key.value !in m
  {
    hide Indexed, Distinct, At;
    e := l.PushBack(tx);
    IndexedPush(old(l.nodes), m, e);
    m' := m[tx.key.value := e];
  }

  /** A queue and its map without what the map holds under a key. */
  method DropFrom(l: List<Tx>, m: map<Key, Entry>, txKey: Key) returns (m': map<Key, Entry>, found: bool)
    requires l.Valid() && Indexed(l.nodes, m)
    modifies l, l.nodes
    ensures l.Valid() && Indexed(l.nodes, m') && (found <==> txKey in m)
    ensures if found then Dropped(old(l.nodes), l.nodes, txKey) else l.nodes == old(l.nodes)
    ensures forall e :: e in l.nodes ==> e in old(l.nodes)
    ensures |l.nodes| <= |old(l.nodes)|
  {
    hide Indexed, Distinct, At;
    m', found := m, txKey in m;
    if found {
      IndexedEntry(l.nodes, m, txKey);
      ghost var k := l.Remove(m[txKey]);
      m' := m - {txKey};
      IndexedRemove(old(l.nodes), m, k);
    }
  }

  lemma IndexedEntry(q: seq<Entry>, m: map<Key, Entry>, k: Key)
    requires Indexed(q, m) && k in m
    ensures m[k] in q && KeyOf(m[k]) == k
  {
  }

  lemma IndexedAt(q: seq<Entry>, m: map<Key, Entry>, i: nat)
    requires Indexed(q, m) && i < |q|
    ensures KeyOf(q[i]) in m && m[KeyOf(q[i])] == q[i]
  {
  }

  /** One loop of Select (mempool_fifo.go:103-108, 109-114): walks a queue for its keys and entries. */
  method Snapshot(l: List<Tx>, ghost m: map<Key, Entry>) returns (keys: seq<Key>, entries: map<Key, Entry>)
    requires l.Valid() && Indexed(l.nodes, m)
    ensures keys == Keys(l.nodes) && entries == m
  {
    hide Indexed, Distinct, Keys, At;
    keys, entries := [], map[];
    var e := l.head;
    ghost var i := 0;
    KeysStart(l.nodes);
    AtWithin(l.nodes, 0);
    while e != null
      invariant 0 <= i <= |l.nodes| && e == At(l.nodes, i)
      invariant if i < |l.nodes| then e == l.nodes[i] else e == null
      invariant keys == Keys(l.nodes[..i])
      invariant forall j :: 0 <= j < i ==> KeyOf(l.nodes[j]) in entries
      invariant forall k :: k in entries ==> k in m && entries[k] == m[k]
      decreases |l.nodes| - i
    {
      IndexedAt(l.nodes, m, i);
      KeysStep(l.nodes, i);
      keys := keys + [KeyOf(e)];
      entries := entries[KeyOf(e) := e];
      e := e.next;
      i := i + 1;
      AtWithin(l.nodes, i);
    }
    assert l.nodes[..i] == l.nodes;
    forall k | k in m ensures k in entries {
      IndexedEntry(l.nodes, m, k);
      var j :| 0 <= j < |l.nodes| && l.nodes[j] == m[k];
      assert KeyOf(l.nodes[j]) in entries;
    }
  }

  lemma KeysStart(q: seq<Entry>)
    ensures Keys(q[..0]) == []
  {
  }

  lemma KeysStep(q: seq<Entry>, i: nat)
    requires i < |q|
    ensures Keys(q[..i + 1]) == Keys(q[..i]) + [KeyOf(q[i])]
  {
  }

  /**
   Iterating from Select to the end while removing every transaction as it comes, as a block
   proposer does: all transactions of the moment of Select appear once and in order, and the
   pool ends up empty.
   */
  method FetchAndRemoveAll(mp: FifoMempool) returns (fetched: seq<Tx>)
    requires mp.Valid()
    modifies mp.Repr()
    ensures fetched == old(mp.Oracle() + mp.Regular())
    ensures mp.Valid() && mp.Oracle() == [] && mp.Regular() == []
  {
    hide FifoMempool.Valid, FifoIterator.Rest, Txs;
    fetched := [];
    ghost var all, k := mp.txsOracle.nodes + mp.txs.nodes, 0;
    TxsAppend(mp.txsOracle.nodes, mp.txs.nodes);
    TxsStart(all);
    var it, more := mp.Select();
    while more
      invariant mp.Valid() && mp.Repr() <= old(mp.Repr()) && fresh(it)
      invariant 0 <= k <= |all| && |Txs(all)| == |all| && fetched == Txs(all)[..k]
      invariant mp.txsOracle.nodes + mp.txs.nodes == all[k..]
      invariant more ==> k < |all| && it.currentTx == all[k] && it.Rest() == all[k + 1..]
      invariant !more ==> k == |all|
      decreases |all| - k
    {
      var e := it.currentTx;
      RemoveHead(mp, e);
      assert all[k..][1..] == all[k + 1..];
      TxsStep(all, k);
      fetched := fetched + [e.value];
      k := k + 1;
      more := it.Next();
    }
    TxsStart(mp.txsOracle.nodes);
    TxsStart(mp.txs.nodes);
  }

  method RemoveAll(mp: FifoMempool, victims: seq<Tx>)
    requires mp.Valid()
    modifies mp.Repr()
    ensures mp.Valid() && mp.Repr() <= old(mp.Repr())
  {
    hide FifoMempool.Valid;
    for i := 0 to |victims|
      invariant mp.Valid() && mp.Repr() <= old(mp.Repr())
    {
      var err := mp.Remove(victims[i]);
    }
  }

  /**
   An iterator keeps its promise whatever is removed meanwhile: before each step any batch of
   transactions is removed, and still exactly the transactions of the moment of Select come,
   once and in order.
   */
  method FetchDespiteRemovals(mp: FifoMempool, victims: seq<seq<Tx>>) returns (fetched: seq<Tx>)
    requires mp.Valid()
    modifies mp.Repr()
    ensures fetched == old(mp.Oracle() + mp.Regular())
    ensures mp.Valid()
  {
    hide FifoMempool.Valid, FifoIterator.Rest, Txs;
    fetched := [];
    ghost var all, k := mp.txsOracle.nodes + mp.txs.nodes, 0;
    TxsAppend(mp.txsOracle.nodes, mp.txs.nodes);
    var it, more := mp.Select();
    var n := 0;
    TxsStart(all);
    while more
      invariant mp.Valid() && mp.Repr() <= old(mp.Repr()) && fresh(it)
      invariant 0 <= k <= |all| && |Txs(all)| == |all| && fetched == Txs(all)[..k]
      invariant more ==> k < |all| && it.currentTx == all[k] && it.Rest() == all[k + 1..]
      invariant !more ==> k == |all|
      decreases |all| - k
    {
      if n < |victims| {
        RemoveAll(mp, victims[n]);
        n := n + 1;
      }
      TxsStep(all, k);
      fetched := fetched + [it.currentTx.value];
      k := k + 1;
      more := it.Next();
    }
  }

  lemma TxsStart(q: seq<Entry>)
    ensures |Txs(q)| == |q|
  {
  }

  lemma TxsStep(q: seq<Entry>, k: nat)
    requires k < |q| && |Txs(q)| == |q|
    ensures Txs(q)[..k] + [q[k].value] == Txs(q)[..k + 1]
  {
  }

  lemma TxsAppend(q: seq<Entry>, r: seq<Entry>)
    ensures Txs(q + r) == Txs(q) + Txs(r)
  {
  }

  method RemoveHead(mp: FifoMempool, e: Entry)
    requires mp.Valid()
    requires var all := mp.txsOracle.nodes + mp.txs.nodes; all != [] && e == all[0]
    modifies mp.Repr()
    ensures mp.Valid() && mp.Repr() <= old(mp.Repr())
    ensures mp.txsOracle.nodes + mp.txs.nodes == old(mp.txsOracle.nodes + mp.txs.nodes)[1..]
  {
    hide *;
    ghost var o, mo, q, m := mp.txsOracle.nodes, mp.txsMapOracle, mp.txs.nodes, mp.txsMap;
    mp.HeadPending(e);
    var err := mp.Remove(e.value);
    HeadRemoved(o, mo, q, m, e, mp.txsOracle.nodes, mp.txs.nodes);
  }

  lemma HeadRemoved(o: seq<Entry>, mo: map<Key, Entry>, q: seq<Entry>, m: map<Key, Entry>, e: Entry,
                    o': seq<Entry>, q': seq<Entry>)
    requires Indexed(o, mo) && Indexed(q, m)
    requires o + q != [] && e == (o + q)[0]
    requires e.value.oracle == (o != []) && e.value.key == Some(KeyOf(e))
    requires e.value.oracle ==> q' == q && Dropped(o, o', KeyOf(e))
    requires !e.value.oracle ==> o' == o && Dropped(q, q', KeyOf(e))
    ensures o' + q' == (o + q)[1..]
  {
    hide Indexed, Dropped;
    if o != [] {
      HeadDropped(o, mo, o');
      assert (o + q)[1..] == o[1..] + q;
    } else {
      assert o + q == q;
      HeadDropped(q, m, q');
    }
  }
}
