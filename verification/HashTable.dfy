/** The chained hash set of src/hash_table.c.

    Every bucket is a sentinel entry that heads a doubly linked chain. The class keeps, as ghost
    state, the chain of every bucket; `Valid()` ties those chains to the `next` and `prev` fields,
    and `Contents()` is what a caller sees: the data held by each entry of the table. */
module HashTables {

  /** The numbers of buckets a table goes through as it grows. */
  const HT_PRIME: seq<nat> := [
    11, 23, 53, 97, 193, 389, 769, 1543,
    3079, 6151, 12289, 24593, 49157, 98317, 196613, 393241,
    786433, 1572869, 3145739, 6291469, 12582917, 25165843
  ]

  const LAST_PRIME := |HT_PRIME| - 1

  /** An entry of a chain, or the sentinel at the head of one (whose hash and data mean nothing).
      The table sets an entry's hash and data once, when it makes the entry. */
  class Entry<T(0)> {
    var next: Entry?<T>
    var prev: Entry?<T>
    const hash: nat
    const data: T

    /** A sentinel as `calloc` makes it. */
    constructor Sentinel()
      ensures next == null && prev == null
    {
      next, prev := null, null;
    }

    constructor (hash: nat, data: T)
      ensures next == null && prev == null && this.hash == hash && this.data == data
    {
      next, prev := null, null;
      this.hash, this.data := hash, data;
    }
  }

  // ----- Chains -----

  /** The entry at position `i` of a chain, or null past its end. */
  ghost function At<T(0)>(s: seq<Entry<T>>, i: nat): Entry?<T> {
    if i < |s| then s[i] else null
  }

  /** The chain headed by `head` consists of exactly the entries of `s`, in order, and `prev`
      undoes `next` all the way back to the sentinel. */
  ghost predicate Chain<T(0)>(head: Entry<T>, s: seq<Entry<T>>)
    reads head, s
  {
    && head !in s
    && (forall i, j :: 0 <= i < j < |s| ==> s[i] != s[j])
    && head.next == At(s, 0)
    && (forall i {:trigger s[i].next} :: 0 <= i < |s| ==> s[i].next == At(s, i + 1))
    && (forall i {:trigger s[i].prev} :: 0 <= i < |s| ==> s[i].prev == if i == 0 then head else s[i - 1])
  }

  /** The chains hold exactly `entries`, each in the chain that its hash selects. */
  ghost predicate Placed<T(0)>(entries: set<Entry<T>>, chains: seq<seq<Entry<T>>>)
  {
    && |chains| > 0
    && (forall b, i :: 0 <= b < |chains| && 0 <= i < |chains[b]| ==> chains[b][i] in entries)
    && (forall b, i :: 0 <= b < |chains| && 0 <= i < |chains[b]| ==> chains[b][i].hash % |chains| == b)
    && (forall e {:trigger e in entries} :: e in entries ==> e in chains[e.hash % |chains|])
  }

  lemma ChainsAreDisjoint<T(0)>(entries: set<Entry<T>>, chains: seq<seq<Entry<T>>>, b: nat)
    requires Placed(entries, chains) && b < |chains|
    ensures forall c, i :: 0 <= c < |chains| && c != b && 0 <= i < |chains[c]| ==> chains[c][i] !in chains[b]
  {
  }

  lemma PlacedPlus<T(0)>(entries: set<Entry<T>>, chains: seq<seq<Entry<T>>>, e: Entry<T>)
    requires Placed(entries, chains)
    ensures var b := e.hash % |chains|; Placed(entries + {e}, chains[b := [e] + chains[b]])
  {
    var b := e.hash % |chains|;
    var chains' := chains[b := [e] + chains[b]];
    forall x | x in entries + {e}
      ensures x in chains'[x.hash % |chains|]
    {
      if x == e {
        assert chains'[b][0] == x;
      } else {
        var c := x.hash % |chains|;
        var i :| 0 <= i < |chains[c]| && chains[c][i] == x;
        assert chains'[c][if c == b then i + 1 else i] == x;
      }
    }
  }

  lemma PlacedMinus<T(0)>(entries: set<Entry<T>>, chains: seq<seq<Entry<T>>>, b: nat, i: nat)
    requires Placed(entries, chains) && b < |chains| && i < |chains[b]|
    requires forall j, k :: 0 <= j < k < |chains[b]| ==> chains[b][j] != chains[b][k]
    ensures Placed(entries - {chains[b][i]}, chains[b := chains[b][..i] + chains[b][i + 1..]])
  {
    var e := chains[b][i];
    var s := chains[b][..i] + chains[b][i + 1..];
    var chains' := chains[b := s];
    ChainsAreDisjoint(entries, chains, b);
    assert forall j :: 0 <= j < |s| ==> s[j] == chains[b][if j < i then j else j + 1];
    forall x | x in entries - {e}
      ensures x in chains'[x.hash % |chains|]
    {
      var c := x.hash % |chains|;
      var j :| 0 <= j < |chains[c]| && chains[c][j] == x;
      assert chains'[c][if c == b && j > i then j - 1 else j] == x;
    }
  }

  /** The sentinels are distinct, none is an entry, and each heads its chain. */
  ghost predicate Linked<T(0)>(heads: seq<Entry<T>>, entries: set<Entry<T>>, chains: seq<seq<Entry<T>>>)
    requires forall b, i :: 0 <= b < |chains| && 0 <= i < |chains[b]| ==> chains[b][i] in entries
    reads heads, entries
  {
    && |heads| == |chains|
    && (forall b, c :: 0 <= b < c < |heads| ==> heads[b] != heads[c])
    && (forall b :: 0 <= b < |heads| ==> heads[b] !in entries)
    && (forall b :: 0 <= b < |chains| ==> Chain(heads[b], chains[b]))
  }

  ghost predicate Buckets<T(0)>(heads: seq<Entry<T>>, entries: set<Entry<T>>, chains: seq<seq<Entry<T>>>)
    reads heads, entries
  {
    Placed(entries, chains) && Linked(heads, entries, chains)
  }

  /** Makes `e` the first entry of the chain headed by `head`. */
  method LinkFront<T(0)>(head: Entry<T>, e: Entry<T>, ghost s: seq<Entry<T>>)
    requires Chain(head, s) && e != head && e !in s
    modifies head`next, e`next, e`prev, (set x: Entry<T> | x in s)`prev
    ensures Chain(head, [e] + s)
    ensures s == [] || forall x :: x in s && x != s[0] ==> x.prev == old(x.prev)
  {
    e.next := head.next;
    e.prev := head;
    if head.next != null {
      head.next.prev := e;
    }
    head.next := e;
  }

  /** Takes `s[i]` out of the chain headed by `head`. */
  method Unlink<T(0)>(ghost head: Entry<T>, e: Entry<T>, ghost s: seq<Entry<T>>, ghost i: nat)
    requires Chain(head, s) && i < |s| && e == s[i]
    modifies head`next, (set x: Entry<T> | x in s)`next, (set x: Entry<T> | x in s)`prev
    ensures Chain(head, s[..i] + s[i + 1..])
  {
    hide At;
    ghost var t := s[..i] + s[i + 1..];
    Without(s, i);
    ghost var before, after := if i == 0 then head else s[i - 1], At(s, i + 1);
    assert e.prev == before && e.next == after;
    e.prev.next := e.next;
    if e.next != null {
      e.next.prev := e.prev;
    }
    forall j | 0 <= j < |t|
      ensures t[j].next == At(t, j + 1)
      ensures t[j].prev == if j == 0 then head else t[j - 1]
    {
      assert t[j] == s[if j < i then j else j + 1];
      assert j > 0 ==> t[j - 1] == s[if j - 1 < i then j - 1 else j];
    }
  }

  /** The entries of a chain without the one at position `i`. */
  lemma Without<T(0)>(s: seq<Entry<T>>, i: nat)
    requires i < |s|
    requires forall j, k :: 0 <= j < k < |s| ==> s[j] != s[k]
    ensures var t := s[..i] + s[i + 1..];
      && (forall j {:trigger t[j]} :: 0 <= j < |t| ==> t[j] == s[if j < i then j else j + 1] && t[j] != s[i])
      && (forall j, k :: 0 <= j < k < |t| ==> t[j] != t[k])
      && (forall j {:trigger At(t, j)} :: 0 <= j <= |t| ==> At(t, j) == At(s, if j < i then j else j + 1))
    ensures if i + 1 < |s| then At(s, i + 1) == s[i + 1] else At(s, i + 1) == null
  {
  }

  /** Adds `e` to the front of the bucket its hash selects. */
  method Link<T(0)>(head: Entry<T>, e: Entry<T>,
      ghost heads: seq<Entry<T>>, ghost entries: set<Entry<T>>, ghost chains: seq<seq<Entry<T>>>)
    returns (ghost chains': seq<seq<Entry<T>>>)
    requires Buckets(heads, entries, chains) && e !in entries && e !in heads
    requires head == heads[e.hash % |heads|]
    modifies head`next, e`next, e`prev, entries`prev
    ensures Buckets(heads, entries + {e}, chains')
  {
    ghost var b := e.hash % |heads|;
    ChainsAreDisjoint(entries, chains, b);
    PlacedPlus(entries, chains, e);
    LinkFront(head, e, chains[b]);
    chains' := chains[b := [e] + chains[b]];
    assert Placed(entries + {e}, chains');
  }

  /** Takes `e` out of its bucket. */
  method Remove<T(0)>(e: Entry<T>,
      ghost heads: seq<Entry<T>>, ghost entries: set<Entry<T>>, ghost chains: seq<seq<Entry<T>>>)
    returns (ghost chains': seq<seq<Entry<T>>>)
    requires Buckets(heads, entries, chains) && e in entries
    modifies heads`next, entries`next, entries`prev
    ensures Buckets(heads, entries - {e}, chains')
  {
    ghost var b := e.hash % |heads|;
    ghost var i :| 0 <= i < |chains[b]| && chains[b][i] == e;
    ChainsAreDisjoint(entries, chains, b);
    PlacedMinus(entries, chains, b, i);
    Unlink(heads[b], e, chains[b], i);
    chains' := chains[b := chains[b][..i] + chains[b][i + 1..]];
  }

  /** Moves the entries of the old chain `s`, one by one, to the new buckets. */
  method Rehash<T(0)>(head: Entry<T>, newBuckets: array<Entry<T>>, ghost s: seq<Entry<T>>,
      ghost heads: seq<Entry<T>>, ghost moved: set<Entry<T>>, ghost chains: seq<seq<Entry<T>>>)
    returns (ghost moved': set<Entry<T>>, ghost chains': seq<seq<Entry<T>>>)
    requires newBuckets.Length > 0 && newBuckets[..] == heads && Buckets(heads, moved, chains) && Chain(head, s)
    requires forall i :: 0 <= i < |s| ==> s[i] !in moved && s[i] !in heads
    modifies heads`next, (set x: Entry<T> | x in s)`next, (set x: Entry<T> | x in s)`prev, moved`prev
    ensures newBuckets[..] == heads && Buckets(heads, moved', chains')
    ensures moved' == moved + set x | x in s
  {
    hide Buckets;
    moved', chains' := moved, chains;
    var entry := head.next;
    ghost var i := 0;
    while entry != null
      invariant i <= |s| && entry == At(s, i)
      invariant forall j {:trigger s[j].next} :: i <= j < |s| ==> s[j].next == At(s, j + 1)
      invariant newBuckets[..] == heads && Buckets(heads, moved', chains')
      invariant moved' == moved + set x | x in s[..i]
      decreases |s| - i
    {
      var next := entry.next;
      assert s[..i + 1] == s[..i] + [s[i]];
      chains' := Link(newBuckets[entry.hash % newBuckets.Length], entry, heads, moved', chains');
      moved' := moved' + {entry};
      entry := next;
      i := i + 1;
    }
    assert s[..i] == s;
  }

  /** The entries of the first `b` of `n` buckets. */
  ghost function Below<T(0)>(entries: set<Entry<T>>, n: nat, b: nat): set<Entry<T>>
    requires n > 0
  {
    set e | e in entries && e.hash % n < b
  }

  lemma BelowPlusOne<T(0)>(entries: set<Entry<T>>, chains: seq<seq<Entry<T>>>, b: nat)
    requires Placed(entries, chains) && b < |chains|
    ensures Below(entries, |chains|, b + 1) == Below(entries, |chains|, b) + set x | x in chains[b]
    ensures forall c, i :: b <= c < |chains| && 0 <= i < |chains[c]| ==> chains[c][i] !in Below(entries, |chains|, b)
    ensures forall c, i :: b < c < |chains| && 0 <= i < |chains[c]| ==> chains[c][i] !in chains[b]
  {
    ChainsAreDisjoint(entries, chains, b);
  }

  /** Moves all entries to the new buckets. */
  method RehashAll<T(0)>(oldBuckets: array<Entry<T>>, newBuckets: array<Entry<T>>,
      ghost entries: set<Entry<T>>, ghost chains: seq<seq<Entry<T>>>,
      ghost heads: seq<Entry<T>>, ghost empty: seq<seq<Entry<T>>>)
    returns (ghost chains': seq<seq<Entry<T>>>)
    requires Buckets(oldBuckets[..], entries, chains)
    requires newBuckets[..] == heads && Buckets(heads, {}, empty)
    requires forall h :: h in heads ==> h !in entries && h !in oldBuckets[..]
    modifies heads`next, entries`next, entries`prev
    ensures newBuckets[..] == heads && Buckets(heads, entries, chains')
  {
    hide Chain;
    chains' := empty;
    ghost var moved: set<Entry<T>> := {};
    for b := 0 to oldBuckets.Length
      invariant newBuckets[..] == heads && Buckets(heads, moved, chains')
      invariant moved == Below(entries, |chains|, b)
      invariant forall c :: b <= c < |chains| ==> Chain(oldBuckets[c], chains[c])
    {
      BelowPlusOne(entries, chains, b);
      moved, chains' := Rehash(oldBuckets[b], newBuckets, chains[b], heads, moved, chains');
    }
    assert moved == entries;
  }

  /** Makes new buckets and moves all entries to them. */
  method Resize<T(0)>(oldBuckets: array<Entry<T>>, newN: nat,
      ghost entries: set<Entry<T>>, ghost chains: seq<seq<Entry<T>>>)
    returns (newBuckets: array<Entry<T>>, ghost chains': seq<seq<Entry<T>>>)
    requires newN > 0 && Buckets(oldBuckets[..], entries, chains)
    modifies entries`next, entries`prev
    ensures fresh(newBuckets) && newBuckets.Length == newN && forall b :: 0 <= b < newN ==> fresh(newBuckets[b])
    ensures Buckets(newBuckets[..], entries, chains')
  {
    hide Buckets;
    newBuckets := NewBuckets<T>(newN);
    ghost var heads := newBuckets[..];
    assert forall b :: 0 <= b < newN ==> fresh(heads[b]);
    chains' := RehashAll(oldBuckets, newBuckets, entries, chains, heads, NoChains(newN));
  }

  /** The loop that looks for an entry equal to `data` in one chain. */
  method Search<T(0)>(cmp: (T, T) -> int, data: T, head: Entry<T>, ghost s: seq<Entry<T>>)
    returns (found: Entry?<T>)
    requires Chain(head, s)
    ensures found == null ==> forall e :: e in s ==> cmp(data, e.data) != 0
    ensures found != null ==> found in s && cmp(data, found.data) == 0
  {
    found := head.next;
    ghost var i := 0;
    while found != null
      invariant i <= |s| && found == At(s, i)
      invariant forall j :: 0 <= j < i ==> cmp(data, s[j].data) != 0
      decreases |s| - i
    {
      if cmp(data, found.data) == 0 {
        return;
      }
      found := found.next;
      i := i + 1;
    }
  }

  ghost function DataOf<T(0)>(entries: set<Entry<T>>): set<T> {
    set e | e in entries :: e.data
  }

  // ----- What the comparison and hash functions must satisfy -----

  ghost predicate IsEquivalence<T(!new)>(cmp: (T, T) -> int) {
    && (forall x :: cmp(x, x) == 0)
    && (forall x, y :: cmp(x, y) == 0 ==> cmp(y, x) == 0)
    && (forall x, y, z :: cmp(x, y) == 0 && cmp(y, z) == 0 ==> cmp(x, z) == 0)
  }

  ghost predicate Inequivalent<T(0, !new)>(cmp: (T, T) -> int, entries: set<Entry<T>>) {
    forall e, f :: e in entries && f in entries && e != f ==> cmp(e.data, f.data) != 0
  }

  lemma InequivalentPlus<T(0, !new)>(cmp: (T, T) -> int, entries: set<Entry<T>>, e: Entry<T>)
    requires IsEquivalence(cmp) && Inequivalent(cmp, entries)
    requires forall f :: f in entries ==> cmp(e.data, f.data) != 0
    ensures Inequivalent(cmp, entries + {e})
  {
  }

  ghost predicate EqualsHashAlike<T(!new)>(cmp: (T, T) -> int, hash: T -> nat) {
    forall x, y :: cmp(x, y) == 0 ==> hash(x) == hash(y)
  }

  datatype Insertion<T(0)> = Insertion(entry: Entry<T>, inserted: bool)

  class HashTable<T(0, !new)> {
    const cmpFn: (T, T) -> int
    const hashFn: T -> nat
    const maxLf: real
    var buckets: array<Entry<T>>
    var size: nat
    var primeIdx: nat

    ghost var chains: seq<seq<Entry<T>>>
    ghost var entries: set<Entry<T>>
    ghost var Repr: set<object>

    ghost predicate Valid()
      reads this, Repr
      ensures Valid() ==> this in Repr && entries <= Repr
    {
      && this in Repr && buckets in Repr && entries <= Repr
      && IsEquivalence(cmpFn) && EqualsHashAlike(cmpFn, hashFn) && maxLf > 0.0
      && primeIdx < |HT_PRIME| && buckets.Length == HT_PRIME[primeIdx]
      && (forall b :: 0 <= b < buckets.Length ==> buckets[b] in Repr)
      && Buckets(buckets[..], entries, chains)
      && (forall e {:trigger e in entries} :: e in entries ==> e.hash == hashFn(e.data))
      && Inequivalent(cmpFn, entries)
      && size == |entries|
    }

    /** What a caller sees: the data of the entries. */
    ghost function Elements(): set<T>
      reads this
    {
      DataOf(entries)
    }

    /** Makes an empty table with room for `estSize` entries. */
    constructor (maxLf: real, estSize: nat, cmpFn: (T, T) -> int, hashFn: T -> nat)
      requires maxLf > 0.0 && IsEquivalence(cmpFn) && EqualsHashAlike(cmpFn, hashFn)
      ensures Valid() && fresh(Repr)
      ensures this.maxLf == maxLf && this.cmpFn == cmpFn && this.hashFn == hashFn
      ensures entries == {} && size == 0
      ensures IsInitialPrime(maxLf, estSize, primeIdx)
    {
      hide Buckets;
      var p := InitialPrime(maxLf, estSize);
      var heads := NewBuckets<T>(HT_PRIME[p]);
      this.maxLf, this.cmpFn, this.hashFn := maxLf, cmpFn, hashFn;
      buckets, size, primeIdx := heads, 0, p;
      chains, entries := NoChains(HT_PRIME[p]), {};
      Repr := {this, heads} + set e | e in heads[..];
      new;
    }

    /** Returns an entry whose data compares equal to `data`, if the table has one. */
    method Find(data: T) returns (found: Entry?<T>)
      requires Valid()
      ensures found == null ==> forall e :: e in entries ==> cmpFn(data, e.data) != 0
      ensures found != null ==> found in entries && cmpFn(data, found.data) == 0
    {
      var hash := hashFn(data);
      ghost var b := hash % |chains|;
      found := Search(cmpFn, data, buckets[hash % HT_PRIME[primeIdx]], chains[b]);
      if found == null {
        BucketDecides(data);
      }
    }

    /** An entry equal to `data` can only be in the bucket that the hash of `data` selects. */
    lemma BucketDecides(data: T)
      requires Valid()
      requires forall e :: e in chains[hashFn(data) % |chains|] ==> cmpFn(data, e.data) != 0
      ensures forall e :: e in entries ==> cmpFn(data, e.data) != 0
    {
      forall e | e in entries
        ensures cmpFn(data, e.data) != 0
      {
        assert e in chains[e.hash % |chains|] && e.hash == hashFn(e.data);
      }
    }

    /** Adds `data` unless the table has an element that compares equal to it. */
    method Insert(data: T) returns (r: Insertion<T>)
      requires Valid()
      modifies Repr
      ensures Valid() && fresh(Repr - old(Repr))
      ensures r.inserted <==> forall e :: e in old(entries) ==> cmpFn(data, e.data) != 0
      ensures r.inserted ==> fresh(r.entry) && r.entry.data == data && entries == old(entries) + {r.entry}
      ensures !r.inserted ==> r.entry in entries && cmpFn(data, r.entry.data) == 0 && entries == old(entries)
      ensures size == old(size) + if r.inserted then 1 else 0
      ensures primeIdx == if r.inserted then PrimeAfterInsert(maxLf, old(primeIdx), size) else old(primeIdx)
    {
      hide Buckets, IsEquivalence, EqualsHashAlike;
      var found := Find(data);
      if found != null {
        return Insertion(found, false);
      }
      var hash := hashFn(data);
      var head := buckets[hash % HT_PRIME[primeIdx]];
      var entry := new Entry<T>(hash, data);
      Attach(entry, head);
      var lf := size as real / HT_PRIME[primeIdx] as real;
      if lf >= maxLf {
        Grow();
      }
      return Insertion(entry, true);
    }

    /** The part of `Insert` that adds a new entry to the front of its bucket. */
    method Attach(entry: Entry<T>, head: Entry<T>)
      requires Valid() && entry !in Repr
      requires entry.hash == hashFn(entry.data) && head == buckets[entry.hash % buckets.Length]
      requires forall e :: e in entries ==> cmpFn(entry.data, e.data) != 0
      modifies Repr, entry
      ensures Valid() && Repr == old(Repr) + {entry}
      ensures entries == old(entries) + {entry} && size == old(size) + 1 && primeIdx == old(primeIdx)
    {
      hide HashTable.Valid, Buckets, IsEquivalence, EqualsHashAlike, Inequivalent;
      Parts();
      InequivalentPlus(cmpFn, entries, entry);
      ghost var heads := buckets[..];
      chains := Link(head, entry, heads, entries, chains);
      assert buckets[..] == heads;
      entries := entries + {entry};
      Repr := Repr + {entry};
      size := size + 1;
      AttachedIsValid(entry);
    }

    lemma Parts()
      requires Valid()
      ensures this in Repr && buckets in Repr && entries <= Repr && buckets.Length > 0
      ensures forall h :: h in buckets[..] ==> h in Repr
      ensures Buckets(buckets[..], entries, chains) && IsEquivalence(cmpFn) && Inequivalent(cmpFn, entries)
    {
    }

    twostate lemma AttachedIsValid(entry: Entry<T>)
      requires old(Valid()) && entry !in old(Repr) && entry.hash == hashFn(entry.data)
      requires buckets == old(buckets) && buckets[..] == old(buckets[..]) && primeIdx == old(primeIdx)
      requires entries == old(entries) + {entry} && Repr == old(Repr) + {entry} && size == old(size) + 1
      requires Buckets(buckets[..], entries, chains) && Inequivalent(cmpFn, entries)
      ensures Valid()
    {
      hide Buckets, IsEquivalence, EqualsHashAlike, Inequivalent;
      assert forall b :: 0 <= b < buckets.Length ==> buckets[b] == buckets[..][b] && old(buckets[b]) == old(buckets[..])[b];
    }

    /** Moves every entry, the same object, to a larger array of buckets; does nothing to a table
        that already has the most buckets. */
    method Grow()
      requires Valid()
      modifies Repr
      ensures Valid() && fresh(Repr - old(Repr))
      ensures entries == old(entries) && size == old(size)
      ensures primeIdx == if old(primeIdx) < LAST_PRIME then old(primeIdx) + 1 else LAST_PRIME
    {
      hide Buckets, IsEquivalence, EqualsHashAlike;
      if primeIdx >= LAST_PRIME {
        return;
      }
      primeIdx := primeIdx + 1;
      var newN := HT_PRIME[primeIdx];
      buckets, chains := Resize(buckets, newN, entries, chains);
      Repr := Repr + {buckets} + set e | e in buckets[..];
    }

    /** Takes the entry out of the table. It must be one of the table's entries; growing the table
        since the caller obtained it makes no difference. */
    method Delete(entry: Entry<T>)
      requires Valid() && entry in entries
      modifies Repr
      ensures Valid() && Repr == old(Repr)
      ensures entries == old(entries) - {entry}
      ensures size == old(size) - 1 && primeIdx == old(primeIdx)
    {
      hide Buckets, IsEquivalence, EqualsHashAlike;
      ghost var heads := buckets[..];
      chains := Remove(entry, heads, entries, chains);
      assert buckets[..] == heads;
      entries := entries - {entry};
      size := size - 1;
    }
  }

  /** `p` is the first prime index at which `estSize` entries do not over-fill the table, or the
      last one if there is none. */
  ghost predicate IsInitialPrime(maxLf: real, estSize: nat, p: nat) {
    && p <= LAST_PRIME
    && (p == LAST_PRIME || HT_PRIME[p] as real * maxLf >= estSize as real)
    && forall q :: 0 <= q < p ==> HT_PRIME[q] as real * maxLf < estSize as real
  }

  method InitialPrime(maxLf: real, estSize: nat) returns (p: nat)
    ensures IsInitialPrime(maxLf, estSize, p)
  {
    p := 0;
    while p < LAST_PRIME && HT_PRIME[p] as real * maxLf < estSize as real
      invariant p <= LAST_PRIME
      invariant forall q :: 0 <= q < p ==> HT_PRIME[q] as real * maxLf < estSize as real
    {
      p := p + 1;
    }
  }

  ghost function NoChains<T(0)>(n: nat): seq<seq<Entry<T>>> {
    seq(n, _ => [])
  }

  /** An array of `n` new sentinels, as `calloc` makes it. */
  method NewBuckets<T(0)>(n: nat) returns (heads: array<Entry<T>>)
    requires n > 0
    ensures fresh(heads) && heads.Length == n && forall b :: 0 <= b < n ==> fresh(heads[b])
    ensures Buckets(heads[..], {}, NoChains(n))
  {
    var first := new Entry<T>.Sentinel();
    heads := new Entry<T>[n](_ => first);
    for i := 1 to n
      invariant fresh(heads) && forall b :: 0 <= b < n ==> fresh(heads[b]) && Chain(heads[b], [])
      invariant forall b :: i <= b < n ==> heads[b] == first
      invariant heads[0] == first
      invariant forall b, c :: 0 <= b < c < i ==> heads[b] != heads[c]
    {
      heads[i] := new Entry<T>.Sentinel();
    }
  }

  // ----- The load factor -----

  /** Inserting grows a table that the new entry brings to its maximum load factor, once. */
  function PrimeAfterInsert(maxLf: real, primeIdx: nat, newSize: nat): (p: nat)
    requires primeIdx < |HT_PRIME|
    ensures primeIdx <= p <= LAST_PRIME
  {
    if newSize as real / HT_PRIME[primeIdx] as real >= maxLf && primeIdx < LAST_PRIME then primeIdx + 1 else primeIdx
  }

  /** It grows exactly if the number of entries reaches the maximum for the buckets there are, and by
      one step only; with the most buckets it stays as it is. */
  lemma GrowsIff(maxLf: real, primeIdx: nat, newSize: nat)
    requires primeIdx < |HT_PRIME|
    ensures PrimeAfterInsert(maxLf, primeIdx, newSize) > primeIdx <==>
      primeIdx < LAST_PRIME && newSize as real >= maxLf * HT_PRIME[primeIdx] as real
    ensures PrimeAfterInsert(maxLf, primeIdx, newSize) <= primeIdx + 1
  {
    LoadBound(maxLf, HT_PRIME[primeIdx] as real, newSize as real);
  }

  /** A table is below its maximum load factor, unless it has the most buckets already. */
  ghost predicate WithinLoad(maxLf: real, primeIdx: nat, size: nat) {
    primeIdx < LAST_PRIME ==> size as real < maxLf * HT_PRIME[primeIdx] as real
  }

  /** One growth per insertion restores the load factor. */
  lemma OneGrowthSuffices(maxLf: real, primeIdx: nat, size: nat)
    requires 23.0 * maxLf > 1.0 && primeIdx < |HT_PRIME| && WithinLoad(maxLf, primeIdx, size)
    ensures WithinLoad(maxLf, PrimeAfterInsert(maxLf, primeIdx, size + 1), size + 1)
  {
    if primeIdx < LAST_PRIME {
      var n, n' := HT_PRIME[primeIdx] as real, HT_PRIME[primeIdx + 1] as real;
      LoadBound(maxLf, n, size as real + 1.0);
      if primeIdx == 0 {
        assert size == 0 || size as real >= 1.0;
      } else {
        assert n' - n >= 30.0;
        assert maxLf * n' == maxLf * n + maxLf * (n' - n);
        assert maxLf * (n' - n) >= maxLf * 30.0;
      }
    }
  }

  lemma LoadBound(maxLf: real, n: real, size: real)
    requires n > 0.0
    ensures size / n >= maxLf <==> size >= maxLf * n
  {
    assert size / n * n == size;
  }

  /** The least maximum load factor for which that is so is just above 1/23: with any smaller one,
      the first insertion into an empty table of 11 buckets leaves it over-full. */
  lemma OneGrowthSufficesIff(maxLf: real)
    requires maxLf > 0.0
    ensures (forall p: nat, size: nat :: p < |HT_PRIME| && WithinLoad(maxLf, p, size) ==>
               WithinLoad(maxLf, PrimeAfterInsert(maxLf, p, size + 1), size + 1))
            <==> 23.0 * maxLf > 1.0
  {
    if 23.0 * maxLf > 1.0 {
      forall p: nat, size: nat | p < |HT_PRIME| && WithinLoad(maxLf, p, size)
        ensures WithinLoad(maxLf, PrimeAfterInsert(maxLf, p, size + 1), size + 1)
      {
        OneGrowthSuffices(maxLf, p, size);
      }
    } else {
      assert WithinLoad(maxLf, 0, 0);
      LoadBound(maxLf, 11.0, 1.0);
      assert PrimeAfterInsert(maxLf, 0, 0 + 1) == 1;
      assert !WithinLoad(maxLf, 1, 0 + 1);
    }
  }
}
