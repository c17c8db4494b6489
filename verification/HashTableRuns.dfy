/** Whole runs of the hash set: any sequence of operations against a plain set. */
module HashTableRuns {
  import opened Wrappers
  import opened HashTables

  // ----- A plain set of elements, taken modulo the comparison function -----

  datatype Op<T> = InsertOp(x: T) | FindOp(x: T) | DeleteOp(x: T)

  ghost predicate Has<T(!new)>(cmp: (T, T) -> int, s: set<T>, x: T) {
    exists y :: y in s && cmp(x, y) == 0
  }

  ghost predicate Distinct<T(!new)>(cmp: (T, T) -> int, s: set<T>) {
    forall x, y :: x in s && y in s && x != y ==> cmp(x, y) != 0
  }

  ghost function After<T(!new)>(cmp: (T, T) -> int, s: set<T>, op: Op<T>): set<T> {
    match op
    case InsertOp(x) => if Has(cmp, s, x) then s else s + {x}
    case FindOp(_) => s
    case DeleteOp(x) => set y | y in s && cmp(x, y) != 0
  }

  ghost function AfterAll<T(!new)>(cmp: (T, T) -> int, s: set<T>, ops: seq<Op<T>>): set<T> {
    if ops == [] then s else After(cmp, AfterAll(cmp, s, ops[..|ops| - 1]), ops[|ops| - 1])
  }

  /** What an operation on `x` reports: the element equal to `x` that the set had before, if any.
      An insertion happened if and only if there was none. */
  ghost predicate Reports<T(!new)>(cmp: (T, T) -> int, s: set<T>, x: T, reply: Option<T>) {
    match reply
    case None => !Has(cmp, s, x)
    case Some(y) => y in s && cmp(x, y) == 0
  }

  /** Whether an element equal to `x` is there after `ops`, told from the last insertion or deletion
      of one alone. */
  ghost predicate Survives<T>(cmp: (T, T) -> int, had: bool, ops: seq<Op<T>>, x: T) {
    if ops == [] then had else
      var op, before := ops[|ops| - 1], ops[..|ops| - 1];
      if cmp(x, op.x) != 0 || op.FindOp? then Survives(cmp, had, before, x) else op.InsertOp?
  }

  lemma {:induction false} MembershipAfterAll<T(!new)>(cmp: (T, T) -> int, s: set<T>, ops: seq<Op<T>>, x: T)
    requires IsEquivalence(cmp) && Distinct(cmp, s)
    ensures Distinct(cmp, AfterAll(cmp, s, ops))
    ensures Has(cmp, AfterAll(cmp, s, ops), x) <==> Survives(cmp, Has(cmp, s, x), ops, x)
  {
    if ops == [] {
    } else {
      var op, before := ops[|ops| - 1], ops[..|ops| - 1];
      MembershipAfterAll(cmp, s, before, x);
      var t := AfterAll(cmp, s, before);
      var t' := AfterAll(cmp, s, ops);
      if op.InsertOp? && !Has(cmp, t, op.x) {
        assert op.x in t';
        forall y | y in t && cmp(x, y) == 0
          ensures y in t'
        {
        }
      }
      if op.DeleteOp? && cmp(x, op.x) != 0 && Has(cmp, t, x) {
        var y :| y in t && cmp(x, y) == 0;
        assert y in t';
      }
    }
  }

  // ----- The table against the plain set -----

  /** The entries of a table are as many as its elements. */
  lemma {:induction false} AsManyElements<T(0, !new)>(cmp: (T, T) -> int, es: set<Entry<T>>)
    requires IsEquivalence(cmp) && Inequivalent(cmp, es)
    ensures |DataOf(es)| == |es| && Distinct(cmp, DataOf(es))
    decreases |es|
  {
    if es == {} {
    } else {
      var e :| e in es;
      AsManyElements(cmp, es - {e});
      assert e.data !in DataOf(es - {e});
      assert DataOf(es) == DataOf(es - {e}) + {e.data};
    }
  }

  /** What a search finds among entries is what there is among their data. */
  lemma SearchReports<T(0, !new)>(cmp: (T, T) -> int, es: set<Entry<T>>, x: T, found: Entry?<T>)
    requires found == null ==> forall e :: e in es ==> cmp(x, e.data) != 0
    requires found != null ==> found in es && cmp(x, found.data) == 0
    ensures Reports(cmp, DataOf(es), x, if found == null then None else Some(found.data))
  {
    if found != null {
      assert found.data in DataOf(es);
    }
  }

  lemma DataMinus<T(0, !new)>(cmp: (T, T) -> int, es: set<Entry<T>>, e: Entry<T>, x: T)
    requires IsEquivalence(cmp) && Inequivalent(cmp, es) && e in es && cmp(x, e.data) == 0
    ensures DataOf(es - {e}) == After(cmp, DataOf(es), DeleteOp(x))
  {
    assert cmp(e.data, x) == 0;
    forall f | f in es && f != e
      ensures cmp(x, f.data) != 0
    {
      assert cmp(e.data, f.data) != 0;
    }
  }

  ghost predicate GrowsInTime(maxLf: real) {
    23.0 * maxLf > 1.0
  }

  method ExecuteOne<T(0, !new)>(t: HashTable<T>, op: Op<T>) returns (reply: Option<T>)
    requires t.Valid()
    modifies t.Repr
    ensures t.Valid() && fresh(t.Repr - old(t.Repr))
    ensures t.Elements() == After(t.cmpFn, old(t.Elements()), op)
    ensures Reports(t.cmpFn, old(t.Elements()), op.x, reply)
    ensures GrowsInTime(t.maxLf) && old(WithinLoad(t.maxLf, t.primeIdx, t.size)) ==>
      WithinLoad(t.maxLf, t.primeIdx, t.size)
    ensures t.size <= old(t.size) + 1
    ensures t.primeIdx == if t.size > old(t.size) then PrimeAfterInsert(t.maxLf, old(t.primeIdx), t.size) else old(t.primeIdx)
  {
    hide Buckets, IsEquivalence, EqualsHashAlike, Inequivalent, WithinLoad, PrimeAfterInsert;
    ghost var es := t.entries;
    ghost var p, n := t.primeIdx, t.size;
    match op
    case InsertOp(x) =>
      var r := t.Insert(x);
      SearchReports(t.cmpFn, es, x, if r.inserted then null else r.entry);
      reply := if r.inserted then None else Some(r.entry.data);
      if r.inserted {
        LoadAfterInsert(t.maxLf, p, n);
        assert DataOf(es + {r.entry}) == DataOf(es) + {x};
      }
    case FindOp(x) =>
      var found := t.Find(x);
      SearchReports(t.cmpFn, es, x, found);
      reply := if found == null then None else Some(found.data);
    case DeleteOp(x) =>
      var found := t.Find(x);
      SearchReports(t.cmpFn, es, x, found);
      reply := if found == null then None else Some(found.data);
      if found != null {
        DataMinus(t.cmpFn, es, found, x);
        t.Delete(found);
        LoadAfterDelete(t.maxLf, p, t.size);
      }
  }

  lemma LoadAfterInsert(maxLf: real, primeIdx: nat, size: nat)
    requires primeIdx < |HT_PRIME|
    ensures GrowsInTime(maxLf) && WithinLoad(maxLf, primeIdx, size) ==>
      WithinLoad(maxLf, PrimeAfterInsert(maxLf, primeIdx, size + 1), size + 1)
  {
    if GrowsInTime(maxLf) && WithinLoad(maxLf, primeIdx, size) {
      OneGrowthSuffices(maxLf, primeIdx, size);
    }
  }

  lemma LoadAfterDelete(maxLf: real, primeIdx: nat, size: nat)
    ensures WithinLoad(maxLf, primeIdx, size + 1) ==> WithinLoad(maxLf, primeIdx, size)
  {
  }

  // ----- When a table grows -----

  function Max(m: nat, n: nat): nat {
    if m < n then n else m
  }

  /** The most elements that the set has had. */
  ghost function Peak<T(!new)>(cmp: (T, T) -> int, s: set<T>, ops: seq<Op<T>>): nat {
    if ops == [] then |s| else Max(Peak(cmp, s, ops[..|ops| - 1]), |AfterAll(cmp, s, ops)|)
  }

  lemma OneMore<T(!new)>(cmp: (T, T) -> int, s: set<T>, ops: seq<Op<T>>, n: nat)
    requires n < |ops|
    ensures AfterAll(cmp, s, ops[..n + 1]) == After(cmp, AfterAll(cmp, s, ops[..n]), ops[n])
    ensures Peak(cmp, s, ops[..n + 1]) == Max(Peak(cmp, s, ops[..n]), |AfterAll(cmp, s, ops[..n + 1])|)
  {
    assert ops[..n + 1][..n] == ops[..n];
  }

  lemma NoOperations<T(!new)>(cmp: (T, T) -> int, s: set<T>, ops: seq<Op<T>>)
    ensures AfterAll(cmp, s, ops[..0]) == s && Peak(cmp, s, ops[..0]) == |s|
  {
  }

  lemma MaxIs(m: nat, n: nat)
    ensures m <= Max(m, n) && n <= Max(m, n) && Max(m, n) in {m, n}
  {
  }

  /** From `from` on, `p` is the first prime index at which `n` elements are below the maximum load
      factor, or the last index if there is none. */
  ghost predicate IsPrimeFor(maxLf: real, from: nat, n: nat, p: nat) {
    && from <= p <= LAST_PRIME
    && (p < LAST_PRIME ==> !IsFull(maxLf, p, n))
    && forall q :: from <= q < p ==> IsFull(maxLf, q, n)
  }

  /** With `n` elements, a table with the prime index `p` has reached its maximum load factor. */
  predicate IsFull(maxLf: real, p: nat, n: nat)
    requires p < |HT_PRIME|
  {
    n as real / HT_PRIME[p] as real >= maxLf
  }

  lemma FullWithMore(maxLf: real, p: nat, m: nat, n: nat)
    requires p < |HT_PRIME| && IsFull(maxLf, p, m) && m <= n
    ensures IsFull(maxLf, p, n)
  {
    LoadBound(maxLf, HT_PRIME[p] as real, m as real);
    LoadBound(maxLf, HT_PRIME[p] as real, n as real);
  }

  lemma WithinLoadIff(maxLf: real, p: nat, n: nat)
    requires p < |HT_PRIME|
    ensures WithinLoad(maxLf, p, n) <==> p == LAST_PRIME || !IsFull(maxLf, p, n)
  {
    LoadBound(maxLf, HT_PRIME[p] as real, n as real);
  }

  /** An insertion grows the table by one step exactly if it makes it full. */
  lemma InsertionGrowsIff(maxLf: real, p: nat, n: nat)
    requires p < |HT_PRIME|
    ensures PrimeAfterInsert(maxLf, p, n) == if p < LAST_PRIME && IsFull(maxLf, p, n) then p + 1 else p
  {
  }

  lemma InsertionKeepsPrime(maxLf: real, from: nat, peak: nat, size: nat, p: nat)
    requires IsPrimeFor(maxLf, from, peak, p) && size <= peak && GrowsInTime(maxLf)
    ensures IsPrimeFor(maxLf, from, Max(peak, size + 1), PrimeAfterInsert(maxLf, p, size + 1))
  {
    hide IsFull, WithinLoad, PrimeAfterInsert;
    var p' := PrimeAfterInsert(maxLf, p, size + 1);
    InsertionGrowsIff(maxLf, p, size + 1);
    WithinLoadIff(maxLf, p, peak);
    WithinLoadIff(maxLf, p, size);
    WithinLoadIff(maxLf, p', size + 1);
    if IsFull(maxLf, p, size) {
      FullWithMore(maxLf, p, size, peak);
    }
    if IsFull(maxLf, p, size + 1) && size < peak {
      FullWithMore(maxLf, p, size + 1, peak);
    }
    var peak' := Max(peak, size + 1);
    forall q | from <= q < p
      ensures IsFull(maxLf, q, peak')
    {
      FullWithMore(maxLf, q, peak, peak');
    }
    LoadAfterInsert(maxLf, p, size);
  }

  lemma PrimeAfterOne(maxLf: real, from: nat, peak: nat, size: nat, p: nat, size': nat)
    requires IsPrimeFor(maxLf, from, peak, p) && size <= peak && GrowsInTime(maxLf) && size' <= size + 1
    ensures IsPrimeFor(maxLf, from, Max(peak, size'), if size' > size then PrimeAfterInsert(maxLf, p, size') else p)
  {
    hide PrimeAfterInsert;
    InsertionKeepsPrime(maxLf, from, peak, size, p);
  }

  lemma PrimeIsRight<T(0, !new)>(t: HashTable<T>)
    requires t.Valid()
    ensures t.primeIdx <= LAST_PRIME
  {
  }

  lemma StartsWithPrime(maxLf: real, p: nat, size: nat)
    requires p <= LAST_PRIME && WithinLoad(maxLf, p, size)
    ensures IsPrimeFor(maxLf, p, size, p)
  {
    WithinLoadIff(maxLf, p, size);
  }

  /** Runs the operations one after the other: at every step the table answers as the set does. */
  method Execute<T(0, !new)>(t: HashTable<T>, ops: seq<Op<T>>) returns (replies: seq<Option<T>>)
    requires t.Valid()
    modifies t.Repr
    ensures t.Valid() && fresh(t.Repr - old(t.Repr))
    ensures t.Elements() == AfterAll(t.cmpFn, old(t.Elements()), ops)
    ensures t.size == |t.Elements()| && Distinct(t.cmpFn, t.Elements())
    ensures |replies| == |ops|
    ensures forall i :: 0 <= i < |ops| ==>
      Reports(t.cmpFn, AfterAll(t.cmpFn, old(t.Elements()), ops[..i]), ops[i].x, replies[i])
    ensures GrowsInTime(t.maxLf) && old(WithinLoad(t.maxLf, t.primeIdx, t.size)) ==>
      WithinLoad(t.maxLf, t.primeIdx, t.size)
    ensures GrowsInTime(t.maxLf) && old(WithinLoad(t.maxLf, t.primeIdx, t.size)) ==>
      IsPrimeFor(t.maxLf, old(t.primeIdx), Peak(t.cmpFn, old(t.Elements()), ops), t.primeIdx)
  {
    hide HashTable.Valid, Reports, WithinLoad, GrowsInTime, IsPrimeFor, PrimeAfterInsert, After, AfterAll, Distinct, Peak, Max;
    replies := [];
    NoOperations(t.cmpFn, t.Elements(), ops);
    SizeIsCardinality(t);
    ghost var peak := t.size;
    ghost var grows := GrowsInTime(t.maxLf) && WithinLoad(t.maxLf, t.primeIdx, t.size);
    PrimeIsRight(t);
    if grows {
      StartsWithPrime(t.maxLf, t.primeIdx, t.size);
    }
    for n := 0 to |ops|
      invariant t.Valid() && fresh(t.Repr - old(t.Repr))
      invariant t.Elements() == AfterAll(t.cmpFn, old(t.Elements()), ops[..n])
      invariant |replies| == n
      invariant forall i :: 0 <= i < n ==>
        Reports(t.cmpFn, AfterAll(t.cmpFn, old(t.Elements()), ops[..i]), ops[i].x, replies[i])
      invariant GrowsInTime(t.maxLf) && old(WithinLoad(t.maxLf, t.primeIdx, t.size)) ==>
        WithinLoad(t.maxLf, t.primeIdx, t.size)
      invariant t.size == |t.Elements()| <= peak && peak == Peak(t.cmpFn, old(t.Elements()), ops[..n])
      invariant grows ==> GrowsInTime(t.maxLf) && IsPrimeFor(t.maxLf, old(t.primeIdx), peak, t.primeIdx)
    {
      OneMore(t.cmpFn, old(t.Elements()), ops, n);
      ghost var size, p := t.size, t.primeIdx;
      var reply := ExecuteOne(t, ops[n]);
      SizeIsCardinality(t);
      if grows {
        PrimeAfterOne(t.maxLf, old(t.primeIdx), peak, size, p, t.size);
      }
      MaxIs(peak, t.size);
      peak := Max(peak, t.size);
      replies := replies + [reply];
    }
    assert ops[..|ops|] == ops;
    SizeIsCardinality(t);
  }

  /** An entry that the caller got before any number of insertions, which may grow the table many
      times, can still be deleted after them. */
  method DeleteAfterInsertions<T(0, !new)>(t: HashTable<T>, entry: Entry<T>, xs: seq<T>)
    requires t.Valid() && entry in t.entries
    modifies t.Repr
    ensures t.Valid() && fresh(t.Repr - old(t.Repr))
    ensures old(t.entries) - {entry} <= t.entries && entry !in t.entries
    ensures forall x :: x in xs && t.cmpFn(x, entry.data) != 0 ==> Has(t.cmpFn, t.Elements(), x)
    ensures !Has(t.cmpFn, t.Elements(), entry.data)
  {
    hide HashTable.Valid;
    for n := 0 to |xs|
      invariant t.Valid() && fresh(t.Repr - old(t.Repr)) && old(t.entries) <= t.entries
      invariant forall i :: 0 <= i < n ==> exists e :: e in t.entries && t.cmpFn(xs[i], e.data) == 0
    {
      var r := t.Insert(xs[n]);
      Lawful(t);
      assert r.entry in t.entries && t.cmpFn(xs[n], r.entry.data) == 0;
    }
    Lawful(t);
    t.Delete(entry);
  }

  lemma Lawful<T(0, !new)>(t: HashTable<T>)
    requires t.Valid()
    ensures IsEquivalence(t.cmpFn) && Inequivalent(t.cmpFn, t.entries)
  {
  }

  lemma SizeIsCardinality<T(0, !new)>(t: HashTable<T>)
    requires t.Valid()
    ensures t.size == |t.Elements()| && Distinct(t.cmpFn, t.Elements())
  {
    AsManyElements(t.cmpFn, t.entries);
  }
}
