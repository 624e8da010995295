/** The linked hash table of linkhash.c: open addressing with tombstones, and a doubly
    linked list in insertion order threaded through the slots.

    A slot pointer is its index in the table; NULL is -1. */
module LinkHash {
  import opened OrderedMap

  const NULL: int := -1

  datatype Slot<K, V> = Empty | Freed | Live(k: K, v: V, next: int, prev: int)

  // A slot without its value and links
  datatype Kind<K> = IsEmpty | IsFreed | Holds(k: K)

  function KindOf<K, V>(s: Slot<K, V>): Kind<K> {
    match s
    case Empty => IsEmpty
    case Freed => IsFreed
    case Live(k, _, _, _) => Holds(k)
  }

  // ---- the list ----

  ghost predicate Distinct(order: seq<int>) {
    forall i, j :: 0 <= i < j < |order| ==> order[i] != order[j]
  }

  function At(order: seq<int>, i: int): int {
    if 0 <= i < |order| then order[i] else NULL
  }

  // The i-th member of the list is a live slot, linked to its neighbours.
  ghost predicate LinkedAt<K, V>(s: seq<Slot<K, V>>, order: seq<int>, i: int) {
    && 0 <= i < |order| && 0 <= order[i] < |s|
    && var e := s[order[i]];
    e.Live? && e.next == At(order, i + 1) && e.prev == At(order, i - 1)
  }

  // The list visits exactly the live slots, each once, in this order; the links agree.
  ghost predicate Chain<K, V>(s: seq<Slot<K, V>>, order: seq<int>, head: int, tail: int) {
    && Distinct(order)
    && (forall i :: 0 <= i < |order| ==> LinkedAt(s, order, i))
    && (forall n :: 0 <= n < |s| && s[n].Live? ==> n in order)
    && head == At(order, 0) && tail == At(order, |order| - 1)
  }

  ghost function EntriesOf<K, V>(s: seq<Slot<K, V>>, order: seq<int>): (es: seq<(K, V)>)
    requires forall i :: 0 <= i < |order| ==> LinkedAt(s, order, i)
    ensures |es| == |order|
    ensures forall i :: 0 <= i < |es| ==> LinkedAt(s, order, i) && es[i] == (s[order[i]].k, s[order[i]].v)
  {
    seq(|order|, i requires 0 <= i < |order| => assert LinkedAt(s, order, i); (s[order[i]].k, s[order[i]].v))
  }

  // ---- probing ----

  // m is met before n by a probe that starts at h and wraps around.
  predicate Between(h: int, m: int, n: int) {
    if h <= n then h <= m < n else h <= m || m < n
  }

  // No live slot is cut off from its hash slot by an empty one.
  ghost predicate Reachable<K, V>(s: seq<Slot<K, V>>, hash: K -> nat)
    requires |s| > 0
  {
    forall n, m :: 0 <= n < |s| && 0 <= m < |s| && s[n].Live? && Between(hash(s[n].k) % |s|, m, n) ==> s[m] != Empty
  }

  ghost function Below(n: nat): (r: set<int>)
    ensures |r| == n && forall x :: x in r <==> 0 <= x < n
  {
    if n == 0 then {} else Below(n - 1) + {n - 1}
  }

  ghost function Elements(order: seq<int>): (r: set<int>)
    ensures forall x :: x in r <==> x in order
    ensures |r| <= |order| && (Distinct(order) ==> |r| == |order|)
  {
    if order == [] then {}
    else
      var front := order[..|order| - 1];
      assert order == front + [order[|order| - 1]];
      Elements(front) + {order[|order| - 1]}
  }

  // The number of list members tells whether the table is full.
  lemma ChainLength<K, V>(s: seq<Slot<K, V>>, order: seq<int>, head: int, tail: int)
    requires Chain(s, order, head, tail)
    ensures |order| <= |s|
    ensures |order| < |s| ==> exists n :: 0 <= n < |s| && !s[n].Live?
  {
    var members, all := Elements(order), Below(|s|);
    forall x | x in members ensures x in all {
      var i :| 0 <= i < |order| && order[i] == x;
      assert LinkedAt(s, order, i);
    }
    SubsetSize(members, all);
    if forall n :: 0 <= n < |s| ==> s[n].Live? {
      SubsetSize(all, members);
    }
  }

  lemma {:induction false} SubsetSize<T>(a: set<T>, b: set<T>)
    requires a <= b
    ensures |a| <= |b|
    decreases |a|
  {
    if a != {} {
      var x :| x in a;
      SubsetSize(a - {x}, b - {x});
    }
  }

  // ---- linking and unlinking a slot ----

  // lh_table_insert's last step: slot n becomes the tail.
  ghost predicate Linked<K, V>(s: seq<Slot<K, V>>, t: seq<Slot<K, V>>, tail: int, n: int, k: K, v: V) {
    && |t| == |s| && 0 <= n < |s| && NULL <= tail < |s| && tail != n
    && t[n] == Live(k, v, NULL, tail)
    && (tail != NULL ==> s[tail].Live? && t[tail] == s[tail].(next := n))
    && (forall m :: 0 <= m < |s| && m != n && m != tail ==> t[m] == s[m])
  }

  // Member i of the list extended by n, in table t, is the entry it was in s.
  ghost predicate Carried<K, V>(s: seq<Slot<K, V>>, t: seq<Slot<K, V>>, order: seq<int>, n: int, i: int)
    requires 0 <= i < |order|
  {
    && LinkedAt(t, order + [n], i) && LinkedAt(s, order, i) && order[i] != n
    && t[order[i]].k == s[order[i]].k && t[order[i]].v == s[order[i]].v
  }

  lemma LinkKeepsChain<K, V>(s: seq<Slot<K, V>>, t: seq<Slot<K, V>>, order: seq<int>, head: int, tail: int,
                             n: int, k: K, v: V)
    requires Chain(s, order, head, tail) && 0 <= n < |s| && !s[n].Live?
    requires Linked(s, t, tail, n, k, v)
    ensures Chain(t, order + [n], if head == NULL then n else head, n)
    ensures EntriesOf(t, order + [n]) == EntriesOf(s, order) + [(k, v)]
  {
    hide Linked, LinkedAt, Carried, Distinct;
    AllCarried(s, t, order, head, tail, n, k, v);
    LinkedIsListed(s, t, order, head, tail, n, k, v);
    EntriesWith(s, t, order, n);
  }

  lemma AllCarried<K, V>(s: seq<Slot<K, V>>, t: seq<Slot<K, V>>, order: seq<int>, head: int, tail: int,
                         n: int, k: K, v: V)
    requires Chain(s, order, head, tail) && 0 <= n < |s| && !s[n].Live?
    requires Linked(s, t, tail, n, k, v)
    ensures forall i :: 0 <= i < |order| ==> Carried(s, t, order, n, i)
    ensures LinkedAt(t, order + [n], |order|)
  {
    forall i | 0 <= i < |order| ensures Carried(s, t, order, n, i) {
      hide Carried;
      LinkKeepsOne(s, t, order, head, tail, n, k, v, i);
    }
  }

  lemma LinkedIsListed<K, V>(s: seq<Slot<K, V>>, t: seq<Slot<K, V>>, order: seq<int>, head: int, tail: int,
                             n: int, k: K, v: V)
    requires Chain(s, order, head, tail) && Linked(s, t, tail, n, k, v)
    ensures forall m :: 0 <= m < |t| && t[m].Live? ==> m in order + [n]
    ensures head == NULL <==> order == []
    ensures |t| == |s| && t[n] == Live(k, v, NULL, tail)
  {
    forall m | 0 <= m < |t| && t[m].Live? ensures m in order + [n] {
      assert m == n || s[m].Live?;
    }
    assert order != [] ==> LinkedAt(s, order, 0);
  }

  lemma EntriesWith<K, V>(s: seq<Slot<K, V>>, t: seq<Slot<K, V>>, order: seq<int>, n: int)
    requires forall i :: 0 <= i < |order| ==> LinkedAt(s, order, i)
    requires forall i :: 0 <= i < |order| ==> Carried(s, t, order, n, i)
    requires LinkedAt(t, order + [n], |order|)
    ensures forall i :: 0 <= i <= |order| ==> LinkedAt(t, order + [n], i)
    ensures EntriesOf(t, order + [n]) == EntriesOf(s, order) + [(t[n].k, t[n].v)]
    ensures Distinct(order) ==> Distinct(order + [n])
  {
    forall i | 0 <= i <= |order| ensures LinkedAt(t, order + [n], i) {
      assert i < |order| ==> Carried(s, t, order, n, i);
    }
    hide LinkedAt;
    forall i | 0 <= i < |order|
      ensures EntriesOf(t, order + [n])[i] == EntriesOf(s, order)[i] && order[i] != n
    {
      assert Carried(s, t, order, n, i);
    }
  }

  lemma LinkKeepsOne<K, V>(s: seq<Slot<K, V>>, t: seq<Slot<K, V>>, order: seq<int>, head: int, tail: int,
                           n: int, k: K, v: V, i: int)
    requires Chain(s, order, head, tail) && 0 <= n < |s| && !s[n].Live?
    requires Linked(s, t, tail, n, k, v) && 0 <= i < |order|
    ensures Carried(s, t, order, n, i)
  {
    assert LinkedAt(s, order, i);
    if i < |order| - 1 {
      assert order[i] != order[|order| - 1] == tail;
    }
  }

  lemma LinkKeepsReachable<K, V>(s: seq<Slot<K, V>>, t: seq<Slot<K, V>>, hash: K -> nat, tail: int, n: int, k: K, v: V)
    requires |s| > 0 && Reachable(s, hash) && Linked(s, t, tail, n, k, v)
    requires FirstFree(s, hash(k) % |s|, n)
    ensures Reachable(t, hash)
  {
    forall i, m | 0 <= i < |t| && 0 <= m < |t| && t[i].Live? && Between(hash(t[i].k) % |t|, m, i)
      ensures t[m] != Empty
    {
      if i != n {
        assert s[i].Live? && s[i].k == t[i].k;
      }
    }
  }

  function Without(order: seq<int>, i: int): seq<int>
    requires 0 <= i < |order|
  {
    order[..i] + order[i + 1..]
  }

  // lh_table_delete_entry: the neighbours of slot n are joined and n is freed.
  ghost predicate Unlinked<K, V>(s: seq<Slot<K, V>>, t: seq<Slot<K, V>>, n: int) {
    && |t| == |s| && 0 <= n < |s| && s[n].Live?
    && var (next, prev) := (s[n].next, s[n].prev);
    && NULL <= next < |s| && NULL <= prev < |s| && next != n && prev != n && (next == NULL || next != prev)
    && t[n] == Freed
    && (next != NULL ==> s[next].Live? && t[next] == s[next].(prev := prev))
    && (prev != NULL ==> s[prev].Live? && t[prev] == s[prev].(next := next))
    && (forall m :: 0 <= m < |s| && m != n && m != next && m != prev ==> t[m] == s[m])
  }

  lemma WithoutKeepsOthers(order: seq<int>, i: int)
    requires Distinct(order) && 0 <= i < |order|
    ensures Distinct(Without(order, i))
    ensures forall x :: x in order && x != order[i] ==> x in Without(order, i)
  {
    forall x | x in order && x != order[i] ensures x in Without(order, i) {
      var l :| 0 <= l < |order| && order[l] == x;
      assert Without(order, i)[if l < i then l else l - 1] == x;
    }
  }

  // Member j of the list without its i-th member, in table t, is the entry it was in s.
  ghost predicate Kept<K, V>(s: seq<Slot<K, V>>, t: seq<Slot<K, V>>, order: seq<int>, i: int, j: int)
    requires 0 <= i < |order| && 0 <= j < |order| - 1
  {
    var o, l := Without(order, i), if j < i then j else j + 1;
    && LinkedAt(t, o, j) && LinkedAt(s, order, l) && o[j] == order[l]
    && t[o[j]].k == s[order[l]].k && t[o[j]].v == s[order[l]].v
  }

  lemma UnlinkKeepsChain<K, V>(s: seq<Slot<K, V>>, t: seq<Slot<K, V>>, order: seq<int>, head: int, tail: int, i: int)
    requires Chain(s, order, head, tail) && 0 <= i < |order| && Unlinked(s, t, order[i])
    ensures var o := Without(order, i);
            && Chain(t, o, At(o, 0), At(o, |o| - 1))
            && EntriesOf(t, o) == EntriesOf(s, order)[..i] + EntriesOf(s, order)[i + 1..]
  {
    hide LinkedAt, Distinct, Unlinked;
    forall j | 0 <= j < |order| - 1 ensures Kept(s, t, order, i, j) {
      UnlinkKeepsOne(s, t, order, head, tail, i, j);
    }
    EntriesWithout(s, t, order, i);
    UnlinkedLive(s, t, order[i]);
    WithoutKeepsOthers(order, i);
  }

  lemma UnlinkedLive<K, V>(s: seq<Slot<K, V>>, t: seq<Slot<K, V>>, n: int)
    requires Unlinked(s, t, n)
    ensures |t| == |s| && forall m :: 0 <= m < |t| && t[m].Live? ==> s[m].Live? && m != n
  {
  }

  lemma EntriesWithout<K, V>(s: seq<Slot<K, V>>, t: seq<Slot<K, V>>, order: seq<int>, i: int)
    requires 0 <= i < |order| && forall l :: 0 <= l < |order| ==> LinkedAt(s, order, l)
    requires forall j :: 0 <= j < |order| - 1 ==> Kept(s, t, order, i, j)
    ensures forall j :: 0 <= j < |Without(order, i)| ==> LinkedAt(t, Without(order, i), j)
    ensures EntriesOf(t, Without(order, i)) == EntriesOf(s, order)[..i] + EntriesOf(s, order)[i + 1..]
  {
    forall j | 0 <= j < |Without(order, i)| ensures LinkedAt(t, Without(order, i), j) {
      assert Kept(s, t, order, i, j);
    }
    hide LinkedAt;
    forall j | 0 <= j < |Without(order, i)|
      ensures EntriesOf(t, Without(order, i))[j] == (EntriesOf(s, order)[..i] + EntriesOf(s, order)[i + 1..])[j]
    {
      assert Kept(s, t, order, i, j);
    }
  }

  lemma UnlinkKeepsOne<K, V>(s: seq<Slot<K, V>>, t: seq<Slot<K, V>>, order: seq<int>, head: int, tail: int,
                             i: int, j: int)
    requires Chain(s, order, head, tail) && 0 <= i < |order| && Unlinked(s, t, order[i]) && 0 <= j < |order| - 1
    ensures Kept(s, t, order, i, j)
  {
    var o, l := Without(order, i), if j < i then j else j + 1;
    assert LinkedAt(s, order, i) && LinkedAt(s, order, l);
    assert o[j] == order[l] && order[l] != order[i];
    assert At(o, j + 1) == At(order, if l == i - 1 then i + 1 else l + 1);
    assert At(o, j - 1) == At(order, if l == i + 1 then i - 1 else l - 1);
    if l != i + 1 {
      assert i + 1 < |order| ==> order[l] != order[i + 1];
    }
    if l != i - 1 {
      assert 0 <= i - 1 ==> order[l] != order[i - 1];
    }
  }

  lemma ReachedBeforeEmpty<K, V>(s: seq<Slot<K, V>>, hash: K -> nat, m: int, n: int)
    requires |s| > 0 && Reachable(s, hash) && 0 <= m < |s| && 0 <= n < |s| && s[m].Live? && s[n] == Empty
    ensures Between(hash(s[m].k) % |s|, m, n)
  {
  }

  lemma UnlinkKeepsReachable<K, V>(s: seq<Slot<K, V>>, t: seq<Slot<K, V>>, hash: K -> nat, n: int)
    requires |s| > 0 && Reachable(s, hash) && Unlinked(s, t, n)
    ensures Reachable(t, hash)
  {
    forall i, m | 0 <= i < |t| && 0 <= m < |t| && t[i].Live? && Between(hash(t[i].k) % |t|, m, i)
      ensures t[m] != Empty
    {
      assert s[i].Live? && s[i].k == t[i].k;
    }
  }

  // The two tables differ in slot at, apart from values and links.
  ghost predicate KindsBut<K, V>(s: seq<Slot<K, V>>, t: seq<Slot<K, V>>, at: int, kind: Kind<K>) {
    && |t| == |s| && 0 <= at < |s| && KindOf(t[at]) == kind
    && forall m :: 0 <= m < |s| && m != at ==> KindOf(t[m]) == KindOf(s[m])
  }

  // Slot n is the first one that is not live for a probe from h.
  ghost predicate FirstFree<K, V>(s: seq<Slot<K, V>>, h: int, n: int) {
    0 <= n < |s| && !s[n].Live? && forall m :: 0 <= m < |s| && Between(h, m, n) ==> s[m].Live?
  }

  lemma LinkKeepsKinds<K, V>(s: seq<Slot<K, V>>, t: seq<Slot<K, V>>, tail: int, n: int, k: K, v: V)
    requires Linked(s, t, tail, n, k, v)
    ensures KindsBut(s, t, n, Holds(k))
  {
  }

  lemma ListEnds<K, V>(s: seq<Slot<K, V>>, order: seq<int>, head: int, tail: int)
    requires Chain(s, order, head, tail)
    ensures head == NULL <==> tail == NULL
    ensures tail != NULL ==> 0 <= tail < |s| && s[tail].Live? && 0 <= head < |s| && s[head].Live?
  {
    if order != [] {
      assert LinkedAt(s, order, 0) && LinkedAt(s, order, |order| - 1);
    }
  }

  // What lh_table_delete_entry needs of the slots around n
  ghost predicate WellPlaced<K, V>(s: seq<Slot<K, V>>, head: int, tail: int, n: int) {
    && 0 <= n < |s| && s[n].Live?
    && var (next, prev) := (s[n].next, s[n].prev);
    && next != n && prev != n && (next == NULL || next != prev)
    && (next == NULL || (0 <= next < |s| && s[next].Live?)) && (prev == NULL || (0 <= prev < |s| && s[prev].Live?))
    && (head == n <==> prev == NULL) && (tail == n <==> next == NULL)
  }

  lemma NeighboursOf<K, V>(s: seq<Slot<K, V>>, order: seq<int>, head: int, tail: int, i: int)
    requires Chain(s, order, head, tail) && 0 <= i < |order|
    ensures WellPlaced(s, head, tail, order[i])
    ensures var o, n := Without(order, i), order[i];
            && At(o, 0) == (if head == n then s[n].next else head)
            && At(o, |o| - 1) == (if tail == n then s[n].prev else tail)
  {
    assert LinkedAt(s, order, i);
    assert i > 0 ==> LinkedAt(s, order, i - 1) && order[0] != order[i];
    assert i + 1 < |order| ==> LinkedAt(s, order, i + 1) && order[i] != order[|order| - 1];
  }

  lemma UnlinkKeepsKinds<K, V>(s: seq<Slot<K, V>>, t: seq<Slot<K, V>>, n: int)
    requires Unlinked(s, t, n)
    ensures KindsBut(s, t, n, IsFreed)
  {
  }

  lemma NoTombstoneButLive<K, V>(s: seq<Slot<K, V>>, t: seq<Slot<K, V>>, at: int, k: K)
    requires KindsBut(s, t, at, Holds(k)) && forall n :: 0 <= n < |s| ==> s[n] != Freed
    ensures forall n :: 0 <= n < |t| ==> t[n] != Freed
  {
    forall n | 0 <= n < |t| ensures t[n] != Freed {
      assert n != at ==> KindOf(t[n]) == KindOf(s[n]);
    }
  }

  // A probe for k does not stop at this slot.
  predicate GoesOn<K(==), V>(s: Slot<K, V>, k: K) {
    s.Freed? || (s.Live? && s.k != k)
  }

  // A probe for k that started at h has come to n.
  ghost predicate Passed<K, V>(s: seq<Slot<K, V>>, h: int, n: int, k: K) {
    0 <= n < |s| && forall m :: 0 <= m < |s| && Between(h, m, n) ==> GoesOn(s[m], k)
  }

  lemma PassedNothing<K, V>(s: seq<Slot<K, V>>, h: int, k: K)
    requires 0 <= h < |s|
    ensures Passed(s, h, h, k)
  {
  }

  lemma PassOn<K, V>(s: seq<Slot<K, V>>, h: int, n: int, k: K, steps: int)
    requires 0 <= h < |s| && 0 <= steps < |s| && n == if h + steps < |s| then h + steps else h + steps - |s|
    requires Passed(s, h, n, k) && GoesOn(s[n], k)
    ensures steps + 1 < |s| ==> Passed(s, h, if n + 1 == |s| then 0 else n + 1, k)
    ensures steps + 1 == |s| ==> forall m :: 0 <= m < |s| ==> GoesOn(s[m], k)
  {
  }

  // ---- the table ----

  class Table<K(==), V> {
    const hash: K -> nat
    var size: int
    var count: int
    var resizes: nat
    var head: int
    var tail: int
    var table: array<Slot<K, V>>
    ghost var order: seq<int>       // the slots from head to tail
    ghost var freed: seq<(K, V)>    // the entries given to free_fn so far

    ghost predicate Valid()
      reads this, table
    {
      && size == table.Length && size > 0
      && count == |order|
      && Chain(table[..], order, head, tail)
      && Reachable(table[..], hash)
    }

    // What the table stands for: its entries in list order
    ghost function Entries(): (es: seq<(K, V)>)
      requires Valid()
      reads this, table
      ensures |es| == count
    {
      EntriesOf(table[..], order)
    }

    // count > size * 0.66
    predicate Overloaded()
      reads this
    {
      100 * count > 66 * size
    }

    ghost predicate HasEmpty()
      reads this, table
    {
      exists n :: 0 <= n < table.Length && table[n] == Empty
    }

    ghost predicate NoTombstone()
      reads this, table
    {
      forall n :: 0 <= n < table.Length ==> table[n] != Freed
    }

    // The probe for k meets an empty slot or k itself.
    ghost predicate LookupEnds(k: K)
      requires Valid()
      reads this, table
    {
      HasEmpty() || Has(Entries(), k)
    }

    constructor (size: int, hash: K -> nat)
      requires size > 0
      ensures Valid() && fresh(table)
      ensures Entries() == [] && this.hash == hash && this.size == size && resizes == 0 && freed == []
      ensures NoTombstone()
      ensures forall n :: 0 <= n < size ==> table[n] == Empty
    {
      this.hash := hash;
      this.size := size;
      count, resizes, head, tail := 0, 0, NULL, NULL;
      table := new Slot<K, V>[size](_ => Empty);
      order, freed := [], [];
    }

    // lh_table_insert
    method Insert(k: K, v: V) returns (ghost at: int)
      requires Valid()
      modifies this, table
      ensures Valid() && (table == old(table) || fresh(table))
      ensures Entries() == old(Entries()) + [(k, v)] && freed == old(freed)
      ensures old(Overloaded()) <==> 100 * old(count) > 66 * old(size)
      ensures if old(Overloaded()) then size == 2 * old(size) && resizes == old(resizes) + 1 && NoTombstone()
              else table == old(table) && size == old(size) && resizes == old(resizes)
      ensures !old(Overloaded()) ==>
                && KindsBut(old(table[..]), table[..], at, Holds(k))
                && FirstFree(old(table[..]), hash(k) % size, at)
      decreases if Overloaded() then 1 else 0, 0
    {
      hide Chain, Reachable, KindsBut, FirstFree;
      ChainLength(table[..], order, head, tail);
      if Overloaded() {
        Resize(size * 2);
      }
      var n := FindFree(k);
      label linking:
      Link(n, k, v);
      at := n;
      if old(Overloaded()) {
        NoTombstoneButLive(old@linking(table[..]), table[..], at, k);
      }
    }

    // The probe of lh_table_insert
    method FindFree(k: K) returns (n: int)
      requires Valid() && count < size
      ensures FirstFree(table[..], hash(k) % size, n)
    {
      ChainLength(table[..], order, head, tail);
      hide Chain, Reachable;
      var start := hash(k) % size;
      n := start;
      ghost var steps := 0;
      while true
        invariant 0 <= steps < size && n == if start + steps < size then start + steps else start + steps - size
        invariant forall m :: 0 <= m < size && Between(start, m, n) ==> table[m].Live?
        decreases size - steps
      {
        if table[n].Empty? || table[n].Freed? {
          break;
        }
        assert steps == size - 1 ==> forall m :: 0 <= m < size ==> table[m].Live?;
        n := n + 1;
        if n == size {
          n := 0;
        }
        steps := steps + 1;
      }
    }

    // The rest of lh_table_insert: the free slot n is filled and becomes the tail.
    method Link(n: int, k: K, v: V)
      requires Valid() && FirstFree(table[..], hash(k) % size, n)
      modifies this, table
      ensures Valid() && table == old(table)
      ensures Entries() == old(Entries()) + [(k, v)] && freed == old(freed)
      ensures size == old(size) && resizes == old(resizes)
      ensures KindsBut(old(table[..]), table[..], n, Holds(k))
    {
      ghost var s := table[..];
      ListEnds(s, order, head, tail);
      LinkSlot(n, k, v);
      hide Chain, Reachable, FirstFree, Linked;
      LinkKeepsChain(s, table[..], order, old(head), old(tail), n, k, v);
      LinkKeepsReachable(s, table[..], hash, old(tail), n, k, v);
      LinkKeepsKinds(s, table[..], old(tail), n, k, v);
      order := order + [n];
    }

    method LinkSlot(n: int, k: K, v: V)
      requires 0 <= n < table.Length && (head == NULL <==> tail == NULL)
      requires tail != NULL ==> 0 <= tail < table.Length && table[tail].Live? && tail != n
      modifies this`head, this`tail, this`count, table
      ensures Linked(old(table[..]), table[..], old(tail), n, k, v)
      ensures head == (if old(head) == NULL then n else old(head)) && tail == n && count == old(count) + 1
    {
      table[n] := Live(k, v, NULL, NULL);
      count := count + 1;
      if head == NULL {
        head, tail := n, n;
      } else {
        table[tail] := table[tail].(next := n);
        table[n] := table[n].(prev := tail);
        tail := n;
      }
    }

    lemma ListStart()
      requires Valid()
      ensures head == At(order, 0) && count == |order| == |Entries()| <= size == table.Length && 0 < size
    {
      ChainLength(table[..], order, head, tail);
    }

    // The i-th entry and the slot that holds it
    lemma EntryAt(i: int)
      requires Valid() && 0 <= i < count
      ensures var n := order[i];
              && 0 <= n < table.Length && table[n].Live? && Entries()[i] == (table[n].k, table[n].v)
              && table[n].next == At(order, i + 1)
    {
      assert LinkedAt(table[..], order, i);
    }

    // lh_table_resize, as lh_table_insert calls it
    method Resize(newSize: int)
      requires Valid() && newSize == 2 * size
      modifies this
      ensures Valid() && fresh(table)
      ensures Entries() == old(Entries()) && count == old(count) && freed == old(freed)
      ensures size == newSize && resizes == old(resizes) + 1 && NoTombstone()
      decreases 0, 2
    {
      hide Chain, Reachable, EntriesOf;
      var t := new Table<K, V>(newSize, hash);
      CopyTo(t);
      table := t.table;
      size := newSize;
      head, tail := t.head, t.tail;
      resizes := resizes + 1;
      order := t.order;
    }

    // The loop of lh_table_resize: no insertion into the new table resizes it.
    method CopyTo(t: Table<K, V>)
      requires Valid() && t.Valid() && t != this && t.table != table
      requires t.hash == hash && t.size == 2 * size && t.Entries() == [] && t.count == 0 && t.NoTombstone()
      modifies t, t.table
      ensures t.Valid() && (t.table == old(t.table) || fresh(t.table))
      ensures t.Entries() == Entries() && t.size == old(t.size) && t.resizes == old(t.resizes) && t.NoTombstone()
      decreases 0, 1
    {
      hide Table.Valid, Table.Entries, KindsBut, FirstFree;
      ListStart();
      var ent := head;
      ghost var es, i := Entries(), 0;
      assert es[..0] == [];
      while ent != NULL
        invariant 0 <= i <= count && ent == At(order, i)
        invariant unchanged(this) && unchanged(table)
        invariant t.Valid() && (t.table == old(t.table) || fresh(t.table)) && t.count == i
        invariant t.Entries() == es[..i] && t.size == 2 * size && t.resizes == old(t.resizes) && t.NoTombstone()
        decreases count - i
      {
        EntryAt(i);
        ghost var slots := t.table[..];
        var at := t.Insert(table[ent].k, table[ent].v);
        NoTombstoneButLive(slots, t.table[..], at, table[ent].k);
        assert es[..i + 1] == es[..i] + [es[i]];
        ent := table[ent].next;
        i := i + 1;
      }
      if i < count {
        EntryAt(i);
      }
      assert es[..i] == es;
    }

    // ---- lookup ----

    // lh_table_lookup_entry; where LookupEnds fails the C loop runs for ever.
    method LookupEntry(k: K) returns (n: int)
      requires Valid() && LookupEnds(k)
      ensures n == NULL <==> !Has(Entries(), k)
      ensures n != NULL ==> 0 <= n < size == table.Length && table[n].Live? && table[n].k == k
    {
      hide Table.Valid, Table.Entries, Table.LookupEnds, Has, Passed;
      LookupMayNotEnd(k);
      ListStart();
      var start := hash(k) % size;
      n := start;
      ghost var steps := 0;
      PassedNothing(table[..], start, k);
      while true
        invariant 0 <= steps < size && n == if start + steps < size then start + steps else start + steps - size
        invariant Passed(table[..], start, n, k)
        decreases size - steps
      {
        if table[n].Empty? {
          EmptyEndsProbe(k, n);
          return NULL;
        }
        if !table[n].Freed? && table[n].k == k {
          LiveIsEntry(n);
          return;
        }
        PassOn(table[..], start, n, k, steps);
        n := n + 1;
        if n == size {
          n := 0;
        }
        steps := steps + 1;
      }
    }

    lemma LiveIsEntry(n: int)
      requires Valid() && 0 <= n < size && table[n].Live?
      ensures Has(Entries(), table[n].k)
    {
      var i := EntryOf(n);
    }

    lemma EntryOf(n: int) returns (i: int)
      requires Valid() && 0 <= n < size && table[n].Live?
      ensures 0 <= i < count && order[i] == n && Entries()[i] == (table[n].k, table[n].v)
    {
      assert table[..][n].Live? && n in order;
      i :| 0 <= i < |order| && order[i] == n;
      EntryAt(i);
    }

    lemma EmptyEndsProbe(k: K, n: int)
      requires Valid() && 0 <= n < size && table[n] == Empty
      requires Passed(table[..], hash(k) % size, n, k)
      ensures !Has(Entries(), k)
    {
      if i :| 0 <= i < |Entries()| && Entries()[i].0 == k {
        EntryAt(i);
        var m := order[i];
        ReachedBeforeEmpty(table[..], hash, m, n);
      }
    }

    // A probe for k stops at a slot exactly if LookupEnds holds: with neither an empty
    // slot nor k in the table it goes on at every slot.
    lemma LookupMayNotEnd(k: K)
      requires Valid()
      ensures LookupEnds(k) <==> exists n :: 0 <= n < size && !GoesOn(table[n], k)
    {
      hide Table.Valid, Table.Entries;
      ListStart();
      if n :| 0 <= n < size && !GoesOn(table[n], k) {
        if table[n].Live? {
          LiveIsEntry(n);
        }
      }
      if i :| 0 <= i < |Entries()| && Entries()[i].0 == k {
        EntryAt(i);
        assert !GoesOn(table[order[i]], k);
      }
      if n :| 0 <= n < table.Length && table[n] == Empty {
        assert !GoesOn(table[n], k);
      }
    }

    // lh_table_lookup
    method Lookup(k: K) returns (v: Option<V>)
      requires Valid() && LookupEnds(k) && Unique(Entries())
      ensures v == Get(Entries(), k)
    {
      GetAbsent(Entries(), k);
      var n := LookupEntry(k);
      if n == NULL {
        return None;
      }
      ghost var i := EntryOf(n);
      GetAt(Entries(), i);
      v := Some(table[n].v);
    }

    // ---- delete ----

    // lh_table_delete_entry. A position behind the table is not checked: there the C code
    // reads out of bounds, and outOfBounds is returned in its place.
    method DeleteEntry(n: int) returns (status: int, outOfBounds: bool, ghost i: int)
      requires Valid()
      modifies this, table
      ensures outOfBounds <==> n >= old(size)
      ensures Valid() && table == old(table) && size == old(size) && resizes == old(resizes)
      ensures !outOfBounds ==> status == if n < 0 then -2 else if !old(table[..])[n].Live? then -1 else 0
      ensures outOfBounds || status != 0 ==> unchanged(this) && unchanged(table)
      ensures !outOfBounds && status == 0 ==>
                && 0 <= i < |old(Entries())| && old(Entries())[i].0 == old(table[..])[n].k
                && Entries() == old(Entries())[..i] + old(Entries())[i + 1..]
                && freed == old(freed) + [old(Entries())[i]]
                && KindsBut(old(table[..]), table[..], n, IsFreed)
    {
      hide KindsBut, Chain, Reachable, EntriesOf;
      i, outOfBounds := -1, n >= size;
      if n < 0 {
        return -2, false, i;
      }
      if outOfBounds {
        return -1, true, i;
      }
      if table[n].Empty? || table[n].Freed? {
        return -1, false, i;
      }
      i := DeleteLive(n);
      status := 0;
    }

    method DeleteLive(n: int) returns (ghost i: int)
      requires Valid() && 0 <= n < size && table[n].Live?
      modifies this, table
      ensures Valid() && table == old(table) && size == old(size) && resizes == old(resizes)
      ensures 0 <= i < |old(Entries())| && old(Entries())[i].0 == old(table[..])[n].k
      ensures Entries() == old(Entries())[..i] + old(Entries())[i + 1..]
      ensures freed == old(freed) + [old(Entries())[i]]
      ensures KindsBut(old(table[..]), table[..], n, IsFreed)
    {
      hide Reachable, Chain, EntriesOf, WellPlaced, Unlinked, KindsBut, At;
      i := EntryOf(n);
      ghost var s := table[..];
      NeighboursOf(s, order, head, tail, i);
      freed := freed + [(table[n].k, table[n].v)];
      UnlinkSlot(n);
      UnlinkKeepsChain(s, table[..], order, old(head), old(tail), i);
      UnlinkKeepsReachable(s, table[..], hash, n);
      UnlinkKeepsKinds(s, table[..], n);
      order := Without(order, i);
    }

    method UnlinkSlot(n: int)
      requires 0 <= n < table.Length && table[n].Live?
      requires WellPlaced(table[..], head, tail, n)
      modifies this`head, this`tail, this`count, table
      ensures Unlinked(old(table[..]), table[..], n) && count == old(count) - 1
      ensures head == if old(head) == n then old(table[n].next) else old(head)
      ensures tail == if old(tail) == n then old(table[n].prev) else old(tail)
    {
      var next, prev := table[n].next, table[n].prev;
      count := count - 1;
      table[n] := Freed;
      if tail == n && head == n {
        head, tail := NULL, NULL;
      } else if head == n {
        table[next] := table[next].(prev := NULL);
        head := next;
      } else if tail == n {
        table[prev] := table[prev].(next := NULL);
        tail := prev;
      } else {
        table[prev] := table[prev].(next := next);
        table[next] := table[next].(prev := prev);
      }
    }

    // lh_table_delete
    method Delete(k: K) returns (status: int, ghost i: int, ghost at: int)
      requires Valid() && LookupEnds(k)
      modifies this, table
      ensures Valid() && table == old(table) && size == old(size) && resizes == old(resizes)
      ensures status == if old(Has(Entries(), k)) then 0 else -1
      ensures status != 0 ==> unchanged(this) && unchanged(table)
      ensures status == 0 ==>
                && 0 <= i < |old(Entries())| && old(Entries())[i].0 == k
                && Entries() == old(Entries())[..i] + old(Entries())[i + 1..]
                && freed == old(freed) + [old(Entries())[i]]
                && 0 <= at < old(table.Length) && KindOf(old(table[..])[at]) == Holds(k)
                && KindsBut(old(table[..]), table[..], at, IsFreed)
    {
      hide Table.Valid, Table.Entries, KindsBut, Has;
      i, at := -1, -1;
      var e := LookupEntry(k);
      if e == NULL {
        return -1, i, at;
      }
      at := e;
      var outOfBounds;
      status, outOfBounds, i := DeleteEntry(e);
    }

    // lh_foreach: the walk along the list meets every entry once, in order.
    method Visit() returns (es: seq<(K, V)>)
      requires Valid()
      ensures es == Entries()
    {
      hide Table.Valid, Table.Entries;
      ListStart();
      var c := head;
      ghost var i := 0;
      es := [];
      while c != NULL
        invariant 0 <= i <= count && c == At(order, i)
        invariant es == Entries()[..i]
        decreases count - i
      {
        EntryAt(i);
        es := es + [(table[c].k, table[c].v)];
        c := table[c].next;
        i := i + 1;
      }
      if i < count {
        EntryAt(i);
      }
    }

    // lh_table_free hands every entry to free_fn.
    method Free()
      requires Valid()
      modifies this`freed
      ensures freed == old(freed) + old(Entries())
    {
      hide Chain, Reachable, EntriesOf;
      var es := Visit();
      freed := freed + es;
    }

    // ---- json_object_object_add ----

    // The table of a JSON object that has only been filled with ObjectAdd
    ghost predicate ObjectTable()
      reads this, table
    {
      Valid() && Unique(Entries()) && NoTombstone() && 16 <= size && 100 * (count - 1) <= 66 * size
    }

    // Such a table always has an empty slot, so every lookup ends.
    lemma ObjectTableHasEmpty()
      requires ObjectTable()
      ensures HasEmpty()
    {
      ChainLength(table[..], order, head, tail);
      var n :| 0 <= n < |table[..]| && !table[..][n].Live?;
      assert table[n] == Empty;
    }

    // A new key goes to the end of the list, and a key that is there already moves there.
    // In a table that was only filled in this way it even gets back the very slot it had,
    // without a resize in between.
    method ObjectAdd(k: K, v: V)
      requires Valid() && Unique(Entries()) && LookupEnds(k)
      modifies this, table
      ensures Valid() && Unique(Entries()) && (table == old(table) || fresh(table))
      ensures Entries() == Add(old(Entries()), k, v)
      ensures freed == old(freed) + FreedWith(old(Entries()), k)
      ensures old(ObjectTable()) ==> ObjectTable() && HasEmpty()
      ensures old(ObjectTable()) && old(Has(Entries(), k)) ==>
                && table == old(table) && resizes == old(resizes)
                && forall m :: 0 <= m < size ==> KindOf(table[m]) == old(KindOf(table[m]))
    {
      hide Chain, Reachable, EntriesOf, KindsBut, FirstFree, Add, Remove;
      ghost var es, s := Entries(), table[..];
      var status, i, gone := Delete(k);
      AddIs(es, k, v, i);
      ghost var s' := table[..];
      var at := Insert(k, v);
      AddIsUpdate(es, k, v, k);
      if old(ObjectTable()) {
        if status == 0 {
          SlotIsReused(s, s', table[..], hash, k, gone, at);
        } else if table == old(table) {
          NoTombstoneButLive(s', table[..], at, k);
        }
        ObjectTableHasEmpty();
      }
    }

    // json_object_object_del
    method ObjectDel(k: K)
      requires Valid() && Unique(Entries()) && LookupEnds(k)
      modifies this, table
      ensures Valid() && Unique(Entries()) && table == old(table)
      ensures Entries() == Remove(old(Entries()), k)
      ensures freed == old(freed) + FreedWith(old(Entries()), k)
    {
      hide Chain, Reachable, EntriesOf, KindsBut, FirstFree, Remove;
      ghost var es := Entries();
      var status, i, gone := Delete(k);
      RemoveIs(es, k, i);
      RemoveUnique(es, k);
    }
  }

  // What is freed when the key is replaced or deleted
  function FreedWith<K(==), V>(es: seq<(K, V)>, k: K): seq<(K, V)> {
    match Get(es, k) case None => [] case Some(v) => [(k, v)]
  }

  lemma RemoveIs<K, V>(es: seq<(K, V)>, k: K, i: int)
    requires Unique(es) && (Has(es, k) ==> 0 <= i < |es| && es[i].0 == k)
    ensures Remove(es, k) == if Has(es, k) then es[..i] + es[i + 1..] else es
    ensures Get(es, k) == if Has(es, k) then Some(es[i].1) else None
  {
    GetAbsent(es, k);
    if Has(es, k) {
      RemoveAt(es, i);
      GetAt(es, i);
    } else {
      RemoveAbsent(es, k);
    }
  }

  lemma AddIs<K, V>(es: seq<(K, V)>, k: K, v: V, i: int)
    requires Unique(es) && (Has(es, k) ==> 0 <= i < |es| && es[i].0 == k)
    ensures Add(es, k, v) == (if Has(es, k) then es[..i] + es[i + 1..] else es) + [(k, v)]
    ensures Get(es, k) == if Has(es, k) then Some(es[i].1) else None
  {
    RemoveIs(es, k, i);
  }

  // In a table without tombstones the probe that follows a deletion stops at the freed
  // slot: every slot before it is live.
  lemma SlotIsReused<K, V>(s: seq<Slot<K, V>>, s': seq<Slot<K, V>>, t: seq<Slot<K, V>>, hash: K -> nat, k: K,
                           gone: int, at: int)
    requires |s| > 0 && Reachable(s, hash) && forall m :: 0 <= m < |s| ==> s[m] != Freed
    requires KindsBut(s, s', gone, IsFreed) && KindOf(s[gone]) == Holds(k)
    requires FirstFree(s', hash(k) % |s|, at) && KindsBut(s', t, at, Holds(k))
    ensures at == gone && |t| == |s| && forall m :: 0 <= m < |s| ==> KindOf(t[m]) == KindOf(s[m])
    ensures forall m :: 0 <= m < |t| ==> t[m] != Freed
  {
    var h := hash(k) % |s|;
    assert KindOf(s'[gone]) == IsFreed && s[gone].Live? && s[gone].k == k;
    assert !Between(h, gone, at);
    forall m | 0 <= m < |s| ensures KindOf(t[m]) == KindOf(s[m]) && t[m] != Freed {
      if m != at {
        assert KindOf(t[m]) == KindOf(s'[m]) == KindOf(s[m]);
      }
    }
  }

  // ---- whole runs ----

  function AddAll<K(==), V>(es: seq<(K, V)>, pairs: seq<(K, V)>): seq<(K, V)>
    decreases |pairs|
  {
    if pairs == [] then es else AddAll(Add(es, pairs[0].0, pairs[0].1), pairs[1..])
  }

  // The table of json_object_new_object
  method NewObject<K(==), V>(hash: K -> nat) returns (t: Table<K, V>)
    ensures fresh(t) && fresh(t.table) && t.ObjectTable() && t.HasEmpty()
    ensures t.Entries() == [] && t.size == 16 && t.freed == []
  {
    t := new Table<K, V>(16, hash);
    t.ObjectTableHasEmpty();
  }

  // An object filled only with json_object_object_add is the insertion-ordered map of
  // what was added, however often it was resized, and its lookups end.
  method FillObject<K(==), V>(hash: K -> nat, pairs: seq<(K, V)>) returns (t: Table<K, V>)
    ensures t.ObjectTable() && t.HasEmpty()
    ensures t.Entries() == AddAll([], pairs)
  {
    hide Chain, Reachable, EntriesOf, Add;
    t := NewObject(hash);
    for i := 0 to |pairs|
      invariant fresh(t) && fresh(t.table) && t.ObjectTable() && t.HasEmpty()
      invariant AddAll(t.Entries(), pairs[i..]) == AddAll([], pairs)
    {
      assert pairs[i..][0] == pairs[i] && pairs[i..][1..] == pairs[i + 1..];
      t.ObjectAdd(pairs[i].0, pairs[i].1);
    }
  }

  datatype Op<K, V> = AddOp(key: K, v: V) | DelOp(key: K)

  // The entries after the operations, and all that was freed by them
  function MapAfter<K(==), V>(ops: seq<Op<K, V>>): (seq<(K, V)>, seq<(K, V)>) {
    if ops == [] then ([], [])
    else
      var last := |ops| - 1;
      var (es, freed) := MapAfter(ops[..last]);
      match ops[last]
      case AddOp(k, v) => (Add(es, k, v), freed + FreedWith(es, k))
      case DelOp(k) => (Remove(es, k), freed + FreedWith(es, k))
  }

  // A run of additions and deletions on a new object, in any order: as many of them are
  // done as have a lookup that ends, and these make the table the ordered map they describe.
  method Run<K(==), V>(hash: K -> nat, ops: seq<Op<K, V>>) returns (t: Table<K, V>, done: nat)
    ensures t.Valid() && Unique(t.Entries()) && done <= |ops|
    ensures (t.Entries(), t.freed) == MapAfter(ops[..done])
    ensures done < |ops| ==> !t.LookupEnds(ops[done].key)
  {
    hide Table.Valid, Table.Entries, Table.LookupEnds, Table.ObjectTable, Add, Remove, FreedWith;
    t := NewObject(hash);
    done := 0;
    while done < |ops|
      invariant fresh(t) && fresh(t.table) && t.Valid() && Unique(t.Entries()) && done <= |ops|
      invariant (t.Entries(), t.freed) == MapAfter(ops[..done])
    {
      t.LookupMayNotEnd(ops[done].key);
      t.ListStart();
      if forall n :: 0 <= n < t.table.Length ==> GoesOn(t.table[n], ops[done].key) {
        return;
      }
      assert ops[..done + 1][..done] == ops[..done];
      match ops[done] {
        case AddOp(k, v) => t.ObjectAdd(k, v);
        case DelOp(k) => t.ObjectDel(k);
      }
      done := done + 1;
    }
  }

  // json_object_object_add of a key whose slot is empty, and json_object_object_del
  method InAndOut(t: Table<nat, bool>, i: nat)
    requires t.Valid() && t.Entries() == [] && i < 16 == t.size == t.table.Length
    requires t.hash(i) == i && t.table[i] == Empty && forall m :: 0 <= m < 16 ==> !t.table[m].Live?
    modifies t, t.table
    ensures t.Valid() && t.Entries() == [] && t.table == old(t.table) && t.size == 16 && t.resizes == old(t.resizes)
    ensures forall m :: 0 <= m < 16 ==> KindOf(t.table[m]) == if m == i then IsFreed else old(KindOf(t.table[m]))
  {
    hide Table.Valid, Table.Entries, Table.LookupEnds, KindsBut, FirstFree;
    t.ListStart();
    t.LookupMayNotEnd(i);
    ghost var empty := t.table[..];
    var status, j, gone := t.Delete(i);
    t.ListStart();
    assert t.table[..] == empty;
    var at := t.Insert(i, true);
    ghost var full := t.table[..];
    assert t.Entries()[0].0 == i;
    HomeSlot(empty, full, i, at);
    t.LookupMayNotEnd(i);
    status, j, gone := t.Delete(i);
    HomeSlotFreed(empty, full, t.table[..], i, gone);
  }

  lemma HomeSlot(s: seq<Slot<nat, bool>>, t: seq<Slot<nat, bool>>, i: nat, at: int)
    requires |s| == 16 && i < 16 && s[i] == Empty && FirstFree(s, i % 16, at) && KindsBut(s, t, at, Holds(i))
    ensures at == i && |t| == 16 && t[i].Live? && t[i].k == i
  {
    assert at != i ==> Between(i, i, at);
  }

  lemma HomeSlotFreed(s: seq<Slot<nat, bool>>, t: seq<Slot<nat, bool>>, u: seq<Slot<nat, bool>>, i: nat, gone: int)
    requires i < 16 == |s| && (forall m :: 0 <= m < 16 ==> !s[m].Live?)
    requires KindsBut(s, t, i, Holds(i)) && KindsBut(t, u, gone, IsFreed) && KindOf(t[gone]) == Holds(i)
    ensures |u| == 16 && forall m :: 0 <= m < 16 ==> KindOf(u[m]) == if m == i then IsFreed else KindOf(s[m])
  {
    assert !s[gone].Live?;
  }

  // Deletions between the additions break that: sixteen keys added and deleted in turn
  // leave an empty 16-slot table in which no lookup ends.
  method DeletesExhaustTheTable() returns (t: Table<nat, bool>)
    ensures t.Valid() && t.size == 16 && t.resizes == 0 && t.Entries() == []
    ensures forall k :: !t.LookupEnds(k)
  {
    hide Table.Valid, Table.Entries, Table.LookupEnds;
    var hash: nat -> nat := k => k;
    t := new Table<nat, bool>(16, hash);
    t.ListStart();
    for i := 0 to 16
      invariant fresh(t) && fresh(t.table) && t.Valid() && t.Entries() == []
      invariant t.size == t.table.Length == 16 && t.resizes == 0 && t.hash == hash
      invariant forall m :: 0 <= m < 16 ==> KindOf(t.table[m]) == if m < i then IsFreed else IsEmpty
    {
      InAndOut(t, i);
    }
    forall k ensures !t.LookupEnds(k) {
      t.LookupMayNotEnd(k);
    }
  }
}
