/** The iterator of src/hash_table.c over an unmodified table. */
module HashTableIterators {
  import opened HashTables

  /** The value of `(unsigned)-1`, the bucket index before the first bucket. */
  const BEFORE_FIRST := 0xFFFF_FFFF

  /** All entries in the order of the buckets from `b` on. */
  ghost function From<T(0)>(chains: seq<seq<Entry<T>>>, b: nat): seq<Entry<T>>
    decreases |chains| - b
  {
    if b >= |chains| then [] else chains[b] + From(chains, b + 1)
  }

  /** The same, but without the first `pos` entries of bucket `b`. */
  ghost function Left<T(0)>(chains: seq<seq<Entry<T>>>, b: nat, pos: nat): seq<Entry<T>>
    requires b < |chains| && pos <= |chains[b]|
  {
    chains[b][pos..] + From(chains, b + 1)
  }

  lemma BucketEnds<T(0)>(chains: seq<seq<Entry<T>>>, b: nat)
    requires b < |chains|
    ensures Left(chains, b, |chains[b]|) == From(chains, b + 1)
    ensures Left(chains, b, 0) == From(chains, b)
  {
    assert chains[b][0..] == chains[b];
  }

  lemma OneLess<T(0)>(chains: seq<seq<Entry<T>>>, b: nat, pos: nat)
    requires b < |chains| && pos < |chains[b]|
    ensures Left(chains, b, pos) != [] && Left(chains, b, pos)[0] == chains[b][pos]
    ensures Left(chains, b, pos)[1..] == Left(chains, b, pos + 1)
  {
  }

  class TableIterator<T(0, !new)> {
    const table: HashTable<T>
    const nBuckets: nat
    var next: Entry?<T>
    var bucketIdx: nat
    ghost var pos: nat

    /** `next` is at position `pos` of the chain of bucket `bucketIdx`, if there is one. */
    ghost predicate Valid()
      reads this, table, table.Repr
    {
      && table.Valid() && this !in table.Repr && nBuckets == |table.chains|
      && (bucketIdx == BEFORE_FIRST ==> next == null)
      && (bucketIdx != BEFORE_FIRST ==> bucketIdx <= nBuckets)
      && (bucketIdx == nBuckets ==> next == null)
      && (bucketIdx < nBuckets ==> pos <= |table.chains[bucketIdx]| && next == At(table.chains[bucketIdx], pos))
    }

    /** The entries still to be returned. */
    ghost function Remaining(): seq<Entry<T>>
      requires Valid()
      reads this, table, table.Repr
    {
      if bucketIdx == BEFORE_FIRST then From(table.chains, 0)
      else if bucketIdx == nBuckets then []
      else Left(table.chains, bucketIdx, pos)
    }

    constructor (table: HashTable<T>)
      requires table.Valid()
      ensures Valid() && this.table == table
      ensures Remaining() == From(table.chains, 0) && !Done()
    {
      this.table := table;
      next := null;
      bucketIdx := BEFORE_FIRST;
      nBuckets := HT_PRIME[table.primeIdx];
      new;
      FewBuckets(table.primeIdx);
    }

    /** The iterator has returned null. Calling `Next` again would read past the last bucket. */
    predicate Done()
      reads this
    {
      bucketIdx == nBuckets
    }

    /** Returns the next entry (whose data the source returns), or null after the last one. */
    method Next() returns (entry: Entry?<T>)
      requires Valid() && !Done()
      modifies this
      ensures Valid()
      ensures old(Remaining()) == [] ==> entry == null && Done()
      ensures old(Remaining()) != [] ==>
        entry == old(Remaining())[0] && Remaining() == old(Remaining())[1..] && !Done()
    {
      hide HashTable.Valid, From, Left;
      while next == null
        invariant Valid() && !Done() && Remaining() == old(Remaining())
        decreases Unopened()
      {
        Advance();
        if bucketIdx == nBuckets {
          return null;
        }
      }
      NextIsAt(table, bucketIdx, pos);
      OneLess(table.chains, bucketIdx, pos);
      entry := next;
      next := next.next;
      pos := pos + 1;
    }

    /** The number of buckets still to be opened. */
    ghost function Unopened(): nat
      requires Valid()
      reads this, table, table.Repr
    {
      if bucketIdx == BEFORE_FIRST then nBuckets + 1 else nBuckets - bucketIdx
    }

    /** The part of `Next` that opens the next bucket, when the current one has no entries left. */
    method Advance()
      requires Valid() && !Done() && next == null
      modifies this
      ensures Valid() && Remaining() == old(Remaining()) && Unopened() < old(Unopened())
    {
      hide HashTable.Valid, From, Left;
      Layout(table);
      FewBuckets(table.primeIdx);
      NothingAfter(table.chains);
      if bucketIdx < nBuckets {
        BucketEnds(table.chains, bucketIdx);
      }
      bucketIdx := (bucketIdx + 1) % 0x1_0000_0000;
      if bucketIdx == nBuckets {
        return;
      }
      Layout(table);
      next := table.buckets[bucketIdx].next;
      pos := 0;
      BucketEnds(table.chains, bucketIdx);
    }
  }

  lemma NothingAfter<T(0)>(chains: seq<seq<Entry<T>>>)
    ensures From(chains, |chains|) == []
  {
  }

  lemma Layout<T(0, !new)>(table: HashTable<T>)
    requires table.Valid()
    ensures table.primeIdx < |HT_PRIME| && HT_PRIME[table.primeIdx] == table.buckets.Length == |table.chains|
    ensures forall b :: 0 <= b < |table.chains| ==> table.buckets[b].next == At(table.chains[b], 0)
  {
  }

  lemma NextIsAt<T(0, !new)>(table: HashTable<T>, b: nat, i: nat)
    requires table.Valid() && b < |table.chains| && i < |table.chains[b]|
    ensures table.chains[b][i].next == At(table.chains[b], i + 1)
  {
    assert Chain(table.buckets[b], table.chains[b]);
  }

  lemma FewBuckets(primeIdx: nat)
    requires primeIdx < |HT_PRIME|
    ensures 0 < HT_PRIME[primeIdx] < BEFORE_FIRST
  {
  }

  ghost predicate NoDuplicates<T(0)>(s: seq<Entry<T>>) {
    forall i, j :: 0 <= i < j < |s| ==> s[i] != s[j]
  }

  /** From bucket `b` on, every entry whose bucket is `b` or later comes exactly once. */
  lemma {:induction false} EachOnce<T(0)>(entries: set<Entry<T>>, chains: seq<seq<Entry<T>>>, b: nat)
    requires Placed(entries, chains) && b <= |chains|
    requires forall c :: 0 <= c < |chains| ==> NoDuplicates(chains[c])
    ensures NoDuplicates(From(chains, b))
    ensures forall e :: e in From(chains, b) <==> e in entries && e.hash % |chains| >= b
    decreases |chains| - b
  {
    if b == |chains| {
    } else {
      EachOnce(entries, chains, b + 1);
      assert From(chains, b) == chains[b] + From(chains, b + 1);
      forall i | 0 <= i < |chains[b]|
        ensures chains[b][i] in entries && chains[b][i].hash % |chains| == b
      {
      }
      forall e | e in entries && e.hash % |chains| == b
        ensures e in chains[b]
      {
      }
    }
  }

  lemma AllOnce<T(0, !new)>(table: HashTable<T>)
    requires table.Valid()
    ensures var all := From(table.chains, 0);
      NoDuplicates(all) && |all| == table.size && forall e :: e in all <==> e in table.entries
  {
    forall c | 0 <= c < |table.chains|
      ensures NoDuplicates(table.chains[c])
    {
      assert Chain(table.buckets[c], table.chains[c]);
    }
    EachOnce(table.entries, table.chains, 0);
    Cardinality(From(table.chains, 0), table.entries);
  }

  /** Iterates over a table that nobody modifies meanwhile. */
  method Collect<T(0, !new)>(table: HashTable<T>) returns (all: seq<Entry<T>>)
    requires table.Valid()
    ensures |all| == table.size && NoDuplicates(all)
    ensures forall e :: e in all <==> e in table.entries
  {
    hide HashTable.Valid, TableIterator.Remaining;
    var it := new TableIterator(table);
    all := [];
    var entry := it.Next();
    while entry != null
      invariant fresh(it) && it.Valid() && it.table == table
      invariant entry == null ==> all == From(table.chains, 0)
      invariant entry != null ==> !it.Done() && all + [entry] + it.Remaining() == From(table.chains, 0)
      decreases if entry == null then 0 else |it.Remaining()| + 1
    {
      all := all + [entry];
      entry := it.Next();
    }
    AllOnce(table);
  }

  lemma Cardinality<T(0)>(s: seq<Entry<T>>, es: set<Entry<T>>)
    requires NoDuplicates(s) && forall e :: e in s <==> e in es
    ensures |s| == |es|
    decreases |s|
  {
    if s == [] {
      assert es == {};
    } else {
      assert s[0] in es && s[0] !in s[1..];
      Cardinality(s[1..], es - {s[0]});
    }
  }
}
