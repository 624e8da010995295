/** Reference counting in json_object.c.

    Objects are cells of a heap, addressed by index. refs is the multiset of references
    held outside the heap: each is one call of json_object_put that is still owed. */
module RefCount {
  import opened OrderedMap
  import opened Bytes
  import ArrayList

  type Ref = Option<nat>  // None is NULL, the JSON null

  datatype Node =
    | Scalar
    | Arr(slots: seq<Ref>, size: nat)  // size: the capacity
    | Obj(fields: seq<(bytes, Ref)>)

  // An object whose count is zero is being deleted.
  datatype Cell = Dead | Used(rc: nat, node: Node)

  function FieldRefs(fields: seq<(bytes, Ref)>): (r: seq<Ref>)
    ensures |r| == |fields| && forall i :: 0 <= i < |r| ==> r[i] == fields[i].1
  {
    seq(|fields|, i requires 0 <= i < |fields| => fields[i].1)
  }

  // The references a node holds
  function Children(n: Node): seq<Ref> {
    match n
    case Scalar => []
    case Arr(slots, _) => slots
    case Obj(fields) => FieldRefs(fields)
  }

  predicate IsLive(c: Cell) {
    c.Used? && c.rc > 0
  }

  function CountOf(c: Cell): nat {
    if c.Used? then c.rc else 0
  }

  ghost function Occurrences(c: Cell, n: nat): nat {
    if IsLive(c) then multiset(Children(c.node))[Some(n)] else 0
  }

  // How many slots of live containers refer to n
  ghost function SlotCount(cells: seq<Cell>, n: nat): nat {
    if cells == [] then 0
    else SlotCount(cells[..|cells| - 1], n) + Occurrences(cells[|cells| - 1], n)
  }

  ghost function LiveCount(cells: seq<Cell>): nat {
    if cells == [] then 0
    else LiveCount(cells[..|cells| - 1]) + if IsLive(cells[|cells| - 1]) then 1 else 0
  }

  // Every count is the number of slots and outside references to the object; nothing
  // refers to a dead or unallocated one.
  ghost predicate Conserved(cells: seq<Cell>, refs: multiset<nat>) {
    && (forall n :: 0 <= n < |cells| ==> CountOf(cells[n]) == SlotCount(cells, n) + refs[n])
    && (forall n :: n in refs ==> n < |cells|)
    && (forall n, m: nat :: 0 <= n < |cells| && IsLive(cells[n]) && Some(m) in Children(cells[n].node) ==> m < |cells|)
  }

  lemma {:induction false} SlotCountUpdate(cells: seq<Cell>, i: nat, c: Cell, n: nat)
    requires i < |cells|
    ensures SlotCount(cells[i := c], n) + Occurrences(cells[i], n) == SlotCount(cells, n) + Occurrences(c, n)
  {
    var last := |cells| - 1;
    if i == last {
      assert cells[i := c][..last] == cells[..last];
    } else {
      assert cells[i := c][..last] == cells[..last][i := c];
      SlotCountUpdate(cells[..last], i, c, n);
    }
  }

  lemma {:induction false} LiveCountUpdate(cells: seq<Cell>, i: nat, c: Cell)
    requires i < |cells|
    ensures LiveCount(cells[i := c]) + (if IsLive(cells[i]) then 1 else 0)
         == LiveCount(cells) + if IsLive(c) then 1 else 0
  {
    var last := |cells| - 1;
    if i == last {
      assert cells[i := c][..last] == cells[..last];
    } else {
      assert cells[i := c][..last] == cells[..last][i := c];
      LiveCountUpdate(cells[..last], i, c);
    }
  }

  ghost function One(r: Ref): multiset<nat> {
    match r
    case None => multiset{}
    case Some(n) => multiset{n}
  }

  // The references among rs, to be put one by one
  ghost function Owed(rs: seq<Ref>): multiset<nat> {
    if rs == [] then multiset{} else Owed(rs[1..]) + One(rs[0])
  }

  lemma OneCounts(r: Ref, n: nat)
    ensures One(r)[n] == multiset{r}[Some(n)] == if r == Some(n) then 1 else 0
  {
  }

  lemma {:induction false} OwedCounts(rs: seq<Ref>, n: nat)
    ensures Owed(rs)[n] == multiset(rs)[Some(n)]
  {
    hide One;
    if rs != [] {
      OwedCounts(rs[1..], n);
      SplitFirst(rs);
      OneCounts(rs[0], n);
    }
  }

  lemma SplitFirst<T>(s: seq<T>)
    requires s != []
    ensures multiset(s) == multiset{s[0]} + multiset(s[1..])
  {
    assert s == [s[0]] + s[1..];
  }

  // ---- single updates of the heap ----

  // A reference is taken or given up without a change of life.
  lemma Recount(cells: seq<Cell>, refs: multiset<nat>, i: nat, rc: nat, refs': multiset<nat>)
    requires Conserved(cells, refs) && i < |cells| && IsLive(cells[i]) && rc > 0
    requires cells[i].rc + refs'[i] == rc + refs[i]
    requires forall n :: n != i ==> refs'[n] == refs[n]
    ensures Conserved(cells[i := cells[i].(rc := rc)], refs')
  {
    var c := cells[i].(rc := rc);
    forall n | 0 <= n < |cells|
      ensures CountOf(cells[i := c][n]) == SlotCount(cells[i := c], n) + refs'[n]
    {
      SlotCountUpdate(cells, i, c, n);
    }
    assert forall n :: n in refs' && n != i ==> refs[n] > 0;
  }

  // The last reference is given up: what the object referred to is now owed.
  lemma Doom(cells: seq<Cell>, refs: multiset<nat>, i: nat)
    requires Conserved(cells, refs) && i in refs && i < |cells| && IsLive(cells[i]) && cells[i].rc == 1
    ensures Conserved(cells[i := cells[i].(rc := 0)], refs - multiset{i} + Owed(Children(cells[i].node)))
  {
    var c, kids := cells[i].(rc := 0), Children(cells[i].node);
    var refs' := refs - multiset{i} + Owed(kids);
    forall n | 0 <= n < |cells|
      ensures CountOf(cells[i := c][n]) == SlotCount(cells[i := c], n) + refs'[n]
    {
      SlotCountUpdate(cells, i, c, n);
      OwedCounts(kids, n);
    }
    forall n | n in refs' ensures n < |cells| {
      OwedCounts(kids, n);
      assert n in refs || Some(n) in kids;
    }
  }

  // The memory of a doomed object is given back.
  lemma Bury(cells: seq<Cell>, refs: multiset<nat>, i: nat)
    requires Conserved(cells, refs) && i < |cells| && cells[i].Used? && cells[i].rc == 0
    ensures Conserved(cells[i := Dead], refs)
  {
    forall n | 0 <= n < |cells|
      ensures CountOf(cells[i := Dead][n]) == SlotCount(cells[i := Dead], n) + refs[n]
    {
      SlotCountUpdate(cells, i, Dead, n);
    }
  }

  // A live container exchanges references with its surroundings.
  lemma SwapConserved(cells: seq<Cell>, refs: multiset<nat>, i: nat, node: Node, refs': multiset<nat>)
    requires Conserved(cells, refs) && i < |cells| && IsLive(cells[i])
    requires forall n: nat ::
               multiset(Children(cells[i].node))[Some(n)] + refs[n] == multiset(Children(node))[Some(n)] + refs'[n]
    ensures Conserved(cells[i := cells[i].(node := node)], refs')
  {
    hide Children;
    var c, old' := cells[i].(node := node), multiset(Children(cells[i].node));
    forall n | 0 <= n < |cells|
      ensures CountOf(cells[i := c][n]) == SlotCount(cells[i := c], n) + refs'[n]
    {
      SlotCountUpdate(cells, i, c, n);
      assert old'[Some(n)] + refs[n] == multiset(Children(node))[Some(n)] + refs'[n];
    }
    forall n: nat | n in refs' || Some(n) in Children(node) ensures n < |cells| {
      assert old'[Some(n)] + refs[n] == multiset(Children(node))[Some(n)] + refs'[n];
      assert Some(n) in Children(node) ==> Some(n) in multiset(Children(node));
      assert n in refs || Some(n) in old';
      assert Some(n) in old' ==> Some(n) in Children(cells[i].node);
    }
  }

  // ---- what a put may change ----

  // Objects are only counted down or buried; doomed ones stay as they are.
  ghost predicate Shrinks(a: seq<Cell>, b: seq<Cell>) {
    && |b| == |a|
    && forall n :: 0 <= n < |a| ==> ShrinksTo(a[n], b[n])
  }

  ghost predicate ShrinksTo(a: Cell, b: Cell) {
    if IsLive(a) then b == Dead || (IsLive(b) && b.rc <= a.rc && b.node == a.node) else b == a
  }

  // The log grows by each buried object, once.
  ghost predicate Logged(a: seq<Cell>, b: seq<Cell>, freed: seq<nat>, freed': seq<nat>) {
    && |b| == |a|
    && (forall n :: 0 <= n < |a| ==>
         multiset(freed')[n] == multiset(freed)[n] + if a[n].Used? && b[n].Dead? then 1 else 0)
    && (forall n :: |a| <= n ==> multiset(freed')[n] == multiset(freed)[n])
  }

  lemma WhatIsLogged(a: seq<Cell>, b: seq<Cell>, f: seq<nat>, g: seq<nat>)
    requires Logged(a, b, f, g)
    ensures |b| == |a| && forall n :: 0 <= n < |a| ==>
              multiset(g)[n] == multiset(f)[n] + if a[n].Used? && b[n].Dead? then 1 else 0
  {
  }

  // A proof that the graph has no cycle: references lead to smaller ranks.
  ghost predicate Ranked(cells: seq<Cell>, rank: nat -> nat) {
    forall n, m: nat :: 0 <= n < |cells| && IsLive(cells[n]) && Some(m) in Children(cells[n].node) ==> rank(m) < rank(n)
  }

  // Everything that does not rank below bound is untouched, but for object id.
  ghost predicate OnlyBelow(a: seq<Cell>, b: seq<Cell>, rank: nat -> nat, bound: nat, id: nat) {
    |b| == |a| && forall n :: 0 <= n < |a| && n != id && bound <= rank(n) ==> b[n] == a[n]
  }

  lemma {:induction false} ShrinksLiveCount(a: seq<Cell>, b: seq<Cell>)
    requires Shrinks(a, b)
    ensures LiveCount(b) <= LiveCount(a)
    decreases |a|
  {
    if a != [] {
      var last := |a| - 1;
      assert ShrinksTo(a[last], b[last]);
      forall n | 0 <= n < last ensures ShrinksTo(a[..last][n], b[..last][n]) {
        assert ShrinksTo(a[n], b[n]);
      }
      ShrinksLiveCount(a[..last], b[..last]);
    }
  }

  lemma ShrinksTrans(a: seq<Cell>, b: seq<Cell>, c: seq<Cell>)
    requires Shrinks(a, b) && Shrinks(b, c)
    ensures Shrinks(a, c)
  {
    forall n | 0 <= n < |a| ensures ShrinksTo(a[n], c[n]) {
      assert ShrinksTo(a[n], b[n]) && ShrinksTo(b[n], c[n]);
    }
  }

  lemma LoggedTrans(a: seq<Cell>, b: seq<Cell>, c: seq<Cell>, f: seq<nat>, g: seq<nat>, h: seq<nat>)
    requires Shrinks(a, b) && Shrinks(b, c) && Logged(a, b, f, g) && Logged(b, c, g, h)
    ensures Logged(a, c, f, h)
  {
    forall n | 0 <= n < |a|
      ensures multiset(h)[n] == multiset(f)[n] + if a[n].Used? && c[n].Dead? then 1 else 0
    {
      assert ShrinksTo(a[n], b[n]) && ShrinksTo(b[n], c[n]);
    }
  }

  lemma ShrinksRanked(a: seq<Cell>, b: seq<Cell>, rank: nat -> nat)
    requires Shrinks(a, b) && Ranked(a, rank)
    ensures Ranked(b, rank)
  {
    forall n, m: nat | 0 <= n < |b| && IsLive(b[n]) && Some(m) in Children(b[n].node) ensures rank(m) < rank(n) {
      assert ShrinksTo(a[n], b[n]);
    }
  }

  // ---- reachability ----

  ghost predicate Refers(cells: seq<Cell>, n: nat, m: nat) {
    n < |cells| && IsLive(cells[n]) && Some(m) in Children(cells[n].node)
  }

  ghost predicate Walk(cells: seq<Cell>, p: seq<nat>) {
    p != [] && forall i :: 0 <= i < |p| - 1 ==> Refers(cells, p[i], p[i + 1])
  }

  ghost predicate Reaches(cells: seq<Cell>, n: nat, m: nat) {
    exists p :: Walk(cells, p) && p[0] == n && p[|p| - 1] == m
  }

  ghost predicate Reachable(cells: seq<Cell>, refs: multiset<nat>, n: nat) {
    exists r :: r in refs && Reaches(cells, r, n)
  }

  // A live array refers to what is in its slots, a live object to what is under its keys.
  lemma RefersExactly(cells: seq<Cell>, n: nat, m: nat)
    ensures Refers(cells, n, m) <==>
              n < |cells| && cells[n].Used? && cells[n].rc > 0 &&
              match cells[n].node
              case Scalar => false
              case Arr(slots, _) => exists i :: 0 <= i < |slots| && slots[i] == Some(m)
              case Obj(fields) => exists i :: 0 <= i < |fields| && fields[i].1 == Some(m)
  {
    if n < |cells| && IsLive(cells[n]) && cells[n].node.Obj? {
      var fields := cells[n].node.fields;
      assert forall i :: 0 <= i < |fields| ==> FieldRefs(fields)[i] == fields[i].1;
    }
  }

  // An object reaches itself and whatever an object it refers to reaches, and nothing else.
  lemma ReachesExactly(cells: seq<Cell>, n: nat, m: nat)
    ensures Reaches(cells, n, m) <==> n == m || exists k :: Refers(cells, n, k) && Reaches(cells, k, m)
  {
    hide Refers;
    if n == m {
      assert Walk(cells, [n]) && [n][|[n]| - 1] == m;
    }
    if k :| Refers(cells, n, k) && Reaches(cells, k, m) {
      var p :| Walk(cells, p) && p[0] == k && p[|p| - 1] == m;
      assert Walk(cells, [n] + p) && ([n] + p)[|[n] + p| - 1] == m;
    }
    if Reaches(cells, n, m) && n != m {
      var p :| Walk(cells, p) && p[0] == n && p[|p| - 1] == m;
      assert Refers(cells, p[0], p[1]);
      forall i | 0 <= i < |p[1..]| - 1 ensures Refers(cells, p[1..][i], p[1..][i + 1]) {
        assert Refers(cells, p[i + 1], p[i + 2]);
      }
      assert Walk(cells, p[1..]) && p[1..][|p[1..]| - 1] == m;
    }
  }

  // No object has a key twice, and an array has the room of a new one at least.
  ghost predicate WellFormed(n: Node) {
    match n
    case Scalar => true
    case Arr(slots, size) => ArrayList.DEFAULT_SIZE <= size && |slots| <= size
    case Obj(fields) => Unique(fields)
  }

  // Nothing is being deleted, and every container is well formed.
  ghost predicate Settled(cells: seq<Cell>) {
    forall n :: 0 <= n < |cells| && cells[n].Used? ==>
      cells[n].rc > 0 && WellFormed(cells[n].node)
  }

  lemma {:induction false} SlotHolder(cells: seq<Cell>, n: nat) returns (i: nat)
    requires SlotCount(cells, n) > 0
    ensures Refers(cells, i, n)
  {
    var last := |cells| - 1;
    if Occurrences(cells[last], n) > 0 {
      assert Some(n) in multiset(Children(cells[last].node));
      i := last;
    } else {
      i := SlotHolder(cells[..last], n);
    }
  }

  lemma {:induction false} HolderCounts(cells: seq<Cell>, i: nat, n: nat)
    requires Refers(cells, i, n)
    ensures SlotCount(cells, n) > 0
  {
    var last := |cells| - 1;
    if i == last {
      assert Some(n) in multiset(Children(cells[last].node));
    } else {
      HolderCounts(cells[..last], i, n);
    }
  }

  lemma {:induction false} WalkEndsLive(cells: seq<Cell>, refs: multiset<nat>, p: seq<nat>)
    requires Conserved(cells, refs) && Walk(cells, p) && p[0] in refs
    ensures p[|p| - 1] < |cells| && IsLive(cells[p[|p| - 1]])
    decreases |p|
  {
    var last := |p| - 1;
    if last > 0 {
      var front := p[..last];
      assert forall i :: 0 <= i < |front| - 1 ==> Refers(cells, p[i], p[i + 1]);
      WalkEndsLive(cells, refs, front);
      assert Refers(cells, p[last - 1], p[last]);
      HolderCounts(cells, p[last - 1], p[last]);
    }
  }

  ghost function MaxRank(cells: seq<Cell>, rank: nat -> nat): (r: nat)
    ensures forall n :: 0 <= n < |cells| ==> rank(n) <= r
  {
    if cells == [] then 0
    else
      var last := |cells| - 1;
      Max(MaxRank(cells[..last], rank), rank(last))
  }

  // In a graph without cycles the way up from a live object ends outside the heap.
  lemma {:induction false} FindWalk(cells: seq<Cell>, refs: multiset<nat>, rank: nat -> nat, n: nat)
    returns (p: seq<nat>)
    requires Conserved(cells, refs) && Ranked(cells, rank) && n < |cells| && IsLive(cells[n])
    ensures Walk(cells, p) && p[0] in refs && p[|p| - 1] == n
    decreases MaxRank(cells, rank) - rank(n)
  {
    if n in refs {
      p := [n];
    } else {
      var m := SlotHolder(cells, n);
      p := FindWalk(cells, refs, rank, m);
      p := p + [n];
    }
  }

  // The objects in memory are exactly those that can still be reached.
  lemma LiveExactlyWhenReachable(cells: seq<Cell>, refs: multiset<nat>, rank: nat -> nat, n: nat)
    requires Conserved(cells, refs) && Ranked(cells, rank) && Settled(cells)
    ensures n < |cells| && cells[n].Used? <==> Reachable(cells, refs, n)
  {
    if n < |cells| && cells[n].Used? {
      var p := FindWalk(cells, refs, rank, n);
      assert Reaches(cells, p[0], n);
    }
    if r :| r in refs && Reaches(cells, r, n) {
      var p :| Walk(cells, p) && p[0] == r && p[|p| - 1] == n;
      WalkEndsLive(cells, refs, p);
    }
  }

  // A put changes nothing about what the remaining references reach.
  lemma {:induction false} WalkSurvives(a: seq<Cell>, b: seq<Cell>, refs: multiset<nat>, p: seq<nat>)
    requires Shrinks(a, b) && Conserved(b, refs) && Walk(a, p) && p[0] in refs
    ensures Walk(b, p)
    decreases |p|
  {
    var last := |p| - 1;
    if last > 0 {
      var front := p[..last];
      assert forall i :: 0 <= i < |front| - 1 ==> Refers(a, p[i], p[i + 1]);
      WalkSurvives(a, b, refs, front);
      WalkEndsLive(b, refs, front);
      assert Refers(a, p[last - 1], p[last]) && ShrinksTo(a[p[last - 1]], b[p[last - 1]]);
      forall i | 0 <= i < |p| - 1 ensures Refers(b, p[i], p[i + 1]) {
        assert i < last - 1 ==> Refers(b, front[i], front[i + 1]);
      }
    }
  }

  lemma WalkWasThere(a: seq<Cell>, b: seq<Cell>, p: seq<nat>)
    requires Shrinks(a, b) && Walk(b, p)
    ensures Walk(a, p)
  {
    forall i | 0 <= i < |p| - 1 ensures Refers(a, p[i], p[i + 1]) {
      assert Refers(b, p[i], p[i + 1]) && ShrinksTo(a[p[i]], b[p[i]]);
    }
  }

  lemma SameReach(a: seq<Cell>, b: seq<Cell>, refs: multiset<nat>, n: nat)
    requires Shrinks(a, b) && Conserved(b, refs)
    ensures Reachable(a, refs, n) <==> Reachable(b, refs, n)
  {
    if r :| r in refs && Reaches(a, r, n) {
      var p :| Walk(a, p) && p[0] == r && p[|p| - 1] == n;
      WalkSurvives(a, b, refs, p);
      assert Reaches(b, r, n);
    }
    if r :| r in refs && Reaches(b, r, n) {
      var p :| Walk(b, p) && p[0] == r && p[|p| - 1] == n;
      WalkWasThere(a, b, p);
      assert Reaches(a, r, n);
    }
  }

  // ---- linking keeps the graph free of cycles ----

  ghost function RankWith(cells: seq<Cell>, rank: nat -> nat, c: nat, v: nat): nat -> nat {
    (x: nat) => rank(x) + if Reaches(cells, x, c) then rank(v) + 1 else 0
  }

  lemma LinkRanked(cells: seq<Cell>, rank: nat -> nat, c: nat, node: Node, v: nat)
    requires Ranked(cells, rank) && c < |cells| && IsLive(cells[c]) && !Reaches(cells, v, c)
    requires forall m: nat :: Some(m) in Children(node) ==> m == v || Some(m) in Children(cells[c].node)
    ensures Ranked(cells[c := cells[c].(node := node)], RankWith(cells, rank, c, v))
  {
    var d, rank' := cells[c := cells[c].(node := node)], RankWith(cells, rank, c, v);
    assert Walk(cells, [c]);
    assert Reaches(cells, c, c) by { assert [c][|[c]| - 1] == c; }
    forall n, m: nat | 0 <= n < |d| && IsLive(d[n]) && Some(m) in Children(d[n].node) ensures rank'(m) < rank'(n) {
      if n != c && Reaches(cells, m, c) {
        var p :| Walk(cells, p) && p[0] == m && p[|p| - 1] == c;
        assert Refers(cells, n, m);
        assert Walk(cells, [n] + p);
        assert ([n] + p)[|[n] + p| - 1] == c;
        assert Reaches(cells, n, c);
      }
    }
  }

  // ---- containers ----

  // b holds what a does except for one reference r.
  ghost predicate Loses(a: Node, r: Ref, b: Node) {
    forall n: nat :: multiset(Children(a))[Some(n)] == multiset(Children(b))[Some(n)] + One(r)[n]
  }

  lemma LosesNothing(a: Node)
    ensures Loses(a, None, a)
  {
  }

  lemma PutLoses(slots: seq<Ref>, size: nat, idx: nat, val: Ref, size': nat)
    ensures var between := Arr(if idx < |slots| then slots[idx := None] else slots, size);
            && Loses(Arr(slots, size), ArrayList.At(slots, idx), between)
            && Loses(Arr(ArrayList.Put(slots, idx, val), size'), val, between)
  {
    hide Loses;
    if idx < |slots| {
      SetLoses(slots, idx, size, size);
      SetLoses(slots[idx := val], idx, size', size);
      assert slots[idx := val][idx := None] == slots[idx := None];
    } else {
      var padding: seq<Ref> := seq(idx - |slots|, _ => None);
      PadLoses(slots, padding, val, size', size);
      LosesNothing(Arr(slots, size));
    }
  }

  lemma SetLoses(slots: seq<Ref>, idx: nat, size: nat, size': nat)
    requires idx < |slots|
    ensures Loses(Arr(slots, size), slots[idx], Arr(slots[idx := None], size'))
  {
    hide One;
    var before, after := multiset(slots), multiset(slots[idx := None]);
    assert after == before - multiset{slots[idx]} + multiset{None} && slots[idx] in before;
    forall n: nat ensures before[Some(n)] == after[Some(n)] + One(slots[idx])[n] {
      OneCounts(slots[idx], n);
    }
  }

  lemma PadLoses(slots: seq<Ref>, padding: seq<Ref>, val: Ref, size: nat, size': nat)
    requires forall i :: 0 <= i < |padding| ==> padding[i] == None
    ensures Loses(Arr(slots + padding + [val], size), val, Arr(slots, size'))
  {
    forall n: nat ensures multiset(padding)[Some(n)] == 0 {
      assert Some(n) !in padding;
    }
    assert multiset(slots + padding + [val]) == multiset(slots) + multiset(padding) + multiset{val};
  }

  lemma AppendLoses(fields: seq<(bytes, Ref)>, key: bytes, val: Ref)
    ensures Loses(Obj(fields + [(key, val)]), val, Obj(fields))
  {
    assert FieldRefs(fields + [(key, val)]) == FieldRefs(fields) + [val];
  }

  lemma RemoveLoses(fields: seq<(bytes, Ref)>, key: bytes)
    requires Unique(fields)
    ensures var cur := match OrderedMap.Get(fields, key) case None => None case Some(r) => r;
            Loses(Obj(fields), cur, Obj(Remove(fields, key)))
  {
    GetAbsent(fields, key);
    if i :| 0 <= i < |fields| && fields[i].0 == key {
      RemoveAt(fields, i);
      GetAt(fields, i);
      DropLoses(fields, i);
    } else {
      RemoveAbsent(fields, key);
      LosesNothing(Obj(fields));
    }
  }

  lemma DropLoses(fields: seq<(bytes, Ref)>, i: nat)
    requires i < |fields|
    ensures Loses(Obj(fields), fields[i].1, Obj(fields[..i] + fields[i + 1..]))
  {
    var fs := FieldRefs(fields);
    assert FieldRefs(fields[..i] + fields[i + 1..]) == fs[..i] + fs[i + 1..];
    assert fs == fs[..i] + [fs[i]] + fs[i + 1..];
    assert multiset(fs) == multiset(fs[..i] + fs[i + 1..]) + multiset{fs[i]};
    hide FieldRefs;
    forall n: nat ensures One(fs[i])[n] == multiset{fs[i]}[Some(n)] {
      OneCounts(fs[i], n);
    }
  }

  lemma NewConserved(cells: seq<Cell>, refs: multiset<nat>, node: Node)
    requires Conserved(cells, refs) && Children(node) == []
    ensures Conserved(cells + [Used(1, node)], refs + multiset{|cells|})
  {
    var b := cells + [Used(1, node)];
    assert b[..|cells|] == cells;
    if SlotCount(cells, |cells|) > 0 {
      var i := SlotHolder(cells, |cells|);
    }
    forall n | 0 <= n < |b| ensures CountOf(b[n]) == SlotCount(b, n) + (refs + multiset{|cells|})[n] {
      assert n < |cells| ==> b[n] == cells[n];
    }
    forall n, m: nat | 0 <= n < |b| && IsLive(b[n]) && Some(m) in Children(b[n].node) ensures m < |b| {
      assert n < |cells| && b[n] == cells[n];
    }
  }

  lemma NewSettled(cells: seq<Cell>, rank: nat -> nat, node: Node)
    requires Settled(cells) && Ranked(cells, rank) && Children(node) == [] && WellFormed(node)
    ensures Settled(cells + [Used(1, node)]) && Ranked(cells + [Used(1, node)], rank)
  {
    assert node.Obj? ==> |FieldRefs(node.fields)| == 0;
  }

  lemma ArrayFits(cells: seq<Cell>, a: nat)
    requires Settled(cells) && a < |cells| && cells[a].Used? && cells[a].node.Arr?
    ensures ArrayList.DEFAULT_SIZE <= cells[a].node.size && |cells[a].node.slots| <= cells[a].node.size
  {
  }

  lemma KeysAreUnique(cells: seq<Cell>, o: nat)
    requires Settled(cells) && o < |cells| && cells[o].Used? && cells[o].node.Obj?
    ensures Unique(cells[o].node.fields)
  {
  }

  lemma ShrinksSettled(a: seq<Cell>, b: seq<Cell>)
    requires Shrinks(a, b) && Settled(a)
    ensures Settled(b)
  {
    forall n | 0 <= n < |b| && b[n].Used?
      ensures b[n].rc > 0 && WellFormed(b[n].node)
    {
      assert ShrinksTo(a[n], b[n]);
    }
  }

  lemma UnlinkConserved(a: seq<Cell>, refs: multiset<nat>, c: nat, cur: Ref, between: Node)
    requires Conserved(a, refs) && c < |a| && IsLive(a[c]) && Loses(a[c].node, cur, between)
    ensures Conserved(a[c := a[c].(node := between)], refs + One(cur))
  {
    hide Conserved, One, Children;
    SwapConserved(a, refs, c, between, refs + One(cur));
  }

  lemma OneIs(r: Ref)
    ensures forall m: nat :: One(r)[m] == if r == Some(m) then 1 else 0
  {
  }

  // The reference cur leaves container c and is owed from then on.
  lemma Unlink(a: seq<Cell>, refs: multiset<nat>, rank: nat -> nat, c: nat, cur: Ref, between: Node)
    requires Conserved(a, refs) && Settled(a) && Ranked(a, rank) && c < |a| && a[c].Used?
    requires Loses(a[c].node, cur, between) && WellFormed(between)
    ensures var s := a[c := a[c].(node := between)];
            Conserved(s, refs + One(cur)) && Settled(s) && Ranked(s, rank)
    ensures cur.Some? ==> cur.value in refs + One(cur) && rank(cur.value) < rank(c)
    ensures forall m: nat :: Some(m) in Children(between) ==> Some(m) in Children(a[c].node)
  {
    hide Conserved, One, Unique, Children;
    UnlinkConserved(a, refs, c, cur, between);
    OneIs(cur);
    forall m: nat | Some(m) in Children(between) || cur == Some(m) ensures Some(m) in Children(a[c].node) {
      assert multiset(Children(a[c].node))[Some(m)] == multiset(Children(between))[Some(m)] + One(cur)[m];
      assert Some(m) in Children(between) ==> Some(m) in multiset(Children(between));
      assert Some(m) in multiset(Children(a[c].node));
    }
  }

  // An operation on container c: other objects are at most counted down or deleted,
  // and each deletion is logged once.
  ghost predicate ContainerOp(a: seq<Cell>, b: seq<Cell>, c: nat, f: seq<nat>, g: seq<nat>) {
    && |b| == |a| && c < |a| && a[c].Used? && b[c].Used? && b[c].rc == a[c].rc && Logged(a, b, f, g)
    && forall n :: 0 <= n < |a| && n != c ==> ShrinksTo(a[n], b[n])
  }

  // What happens to the object n beside the container c
  lemma OthersShrink(a: seq<Cell>, b: seq<Cell>, c: nat, n: nat, f: seq<nat>, g: seq<nat>)
    requires ContainerOp(a, b, c, f, g) && n < |a| && n != c
    ensures |b| == |a| && b[c].Used? && b[c].rc == a[c].rc
    ensures a[n].Used? && a[n].rc > 0 ==>
              || (b[n] == Dead && multiset(g)[n] == multiset(f)[n] + 1)
              || (b[n].Used? && 0 < b[n].rc <= a[n].rc && b[n].node == a[n].node && multiset(g)[n] == multiset(f)[n])
    ensures a[n].Dead? ==> b[n] == Dead && multiset(g)[n] == multiset(f)[n]
  {
    assert ShrinksTo(a[n], b[n]);
  }

  lemma StoreLogsNothing(a: seq<Cell>, b: seq<Cell>, c: nat, after: Node, f: seq<nat>, g: seq<nat>)
    requires ContainerOp(a, b, c, f, g)
    ensures ContainerOp(a, b[c := b[c].(node := after)], c, f, g)
  {
  }

  lemma PutBack(refs: multiset<nat>, r: Ref)
    ensures refs + One(r) - One(r) == refs
  {
  }

  // a: at first; s: with cur unlinked; t: after cur was put, which cannot reach c
  lemma ContainerSurvives(a: seq<Cell>, s: seq<Cell>, t: seq<Cell>, rank: nat -> nat, c: nat, cur: Ref, between: Node,
                          f: seq<nat>, g: seq<nat>)
    requires c < |a| && a[c].Used? && s == a[c := a[c].(node := between)]
    requires forall m: nat :: Some(m) in Children(between) ==> Some(m) in Children(a[c].node)
    requires Shrinks(s, t) && Logged(s, t, f, g) && Settled(s) && Ranked(s, rank)
    requires cur.Some? ==> rank(cur.value) < rank(c) && OnlyBelow(s, t, rank, rank(cur.value), cur.value)
    requires cur.None? ==> t == s
    ensures |t| == |a| && t[c] == s[c] && ContainerOp(a, t, c, f, g) && Settled(t) && Ranked(t, rank)
    ensures forall v :: Reaches(t, v, c) ==> Reaches(a, v, c)
  {
    hide Settled, Ranked;
    ShrinksSettled(s, t);
    ShrinksRanked(s, t, rank);
    forall n | 0 <= n < |a| && n != c ensures ShrinksTo(a[n], t[n]) {
      assert ShrinksTo(s[n], t[n]);
    }
    forall v | Reaches(t, v, c) ensures Reaches(a, v, c) {
      var p :| Walk(t, p) && p[0] == v && p[|p| - 1] == c;
      WalkWasThere(s, t, p);
      forall i | 0 <= i < |p| - 1 ensures Refers(a, p[i], p[i + 1]) {
        assert Refers(s, p[i], p[i + 1]);
      }
    }
  }

  // The holder's reference val moves into container c.
  lemma LinkUp(t: seq<Cell>, refs: multiset<nat>, rank: nat -> nat, c: nat, val: Ref, after: Node)
    requires c < |t| && t[c].Used?
    requires Conserved(t, refs) && Settled(t) && Ranked(t, rank)
    requires val.Some? ==> val.value in refs && !Reaches(t, val.value, c)
    requires Loses(after, val, t[c].node) && WellFormed(after)
    ensures var u := t[c := t[c].(node := after)];
            && Conserved(u, refs - One(val)) && Settled(u)
            && Ranked(u, if val.Some? then RankWith(t, rank, c, val.value) else rank)
  {
    SwapConserved(t, refs, c, after, refs - One(val));
    forall m: nat | Some(m) in Children(after) ensures val == Some(m) || Some(m) in Children(t[c].node) {
      assert multiset(Children(after))[Some(m)] == multiset(Children(t[c].node))[Some(m)] + One(val)[m];
      assert Some(m) in multiset(Children(after));
      assert Some(m) in multiset(Children(t[c].node)) ==> Some(m) in Children(t[c].node);
    }
    if val.Some? {
      LinkRanked(t, rank, c, after, val.value);
    }
  }

  lemma OneMoreReference(cells: seq<Cell>, refs: multiset<nat>, rank: nat -> nat, id: nat)
    requires Conserved(cells, refs) && Settled(cells) && Ranked(cells, rank) && id < |cells| && cells[id].Used?
    ensures IsLive(cells[id])
    ensures var b := cells[id := cells[id].(rc := cells[id].rc + 1)];
            Conserved(b, refs + multiset{id}) && Settled(b) && Ranked(b, rank)
  {
    hide Conserved;
    Recount(cells, refs, id, cells[id].rc + 1, refs + multiset{id});
  }

  class Heap {
    var cells: seq<Cell>
    ghost var refs: multiset<nat>
    ghost var rank: nat -> nat
    ghost var freed: seq<nat>  // in the order of the calls of free

    // rank is a proof that there is no cycle.
    ghost predicate Valid()
      reads this
    {
      Conserved(cells, refs) && Settled(cells) && Ranked(cells, rank)
    }

    constructor ()
      ensures Valid() && cells == [] && refs == multiset{} && freed == []
    {
      cells, refs, freed := [], multiset{}, [];
      rank := n => 0;
    }

    // json_object_new_*: a scalar or an empty container
    method New(node: Node) returns (id: nat)
      requires Valid() && node in {Scalar, Arr([], ArrayList.DEFAULT_SIZE), Obj([])}
      modifies this
      ensures Valid() && id == |old(cells)| && cells == old(cells) + [Used(1, node)]
      ensures refs == old(refs) + multiset{id} && freed == old(freed)
    {
      hide Conserved, Settled, Ranked;
      id := |cells|;
      NewConserved(cells, refs, node);
      NewSettled(cells, rank, node);
      cells := cells + [Used(1, node)];
      refs := refs + multiset{id};
    }

    // json_object_get: one more reference to something that is held or stored
    method Get(r: Ref)
      requires Valid() && (r.Some? ==> r.value < |cells| && cells[r.value].Used?)
      modifies this
      ensures Valid() && refs == old(refs) + One(r) && freed == old(freed)
      ensures |cells| == |old(cells)|
      ensures forall n :: 0 <= n < |cells| ==>
                cells[n] == if r == Some(n) then old(cells)[n].(rc := old(cells)[n].rc + 1) else old(cells)[n]
    {
      hide Conserved, Settled, Ranked;
      if r.Some? {
        var id := r.value;
        var c := cells[id].(rc := cells[id].rc + 1);
        OneMoreReference(cells, refs, rank, id);
        cells := cells[id := c];
      }
      assert r == None ==> refs + One(r) == refs;
      refs := refs + One(r);
    }

    // json_object_put by a holder: exactly what can no longer be reached without this
    // reference is deleted, each object once.
    method Put(r: Ref)
      requires Valid() && (r.Some? ==> r.value in refs)
      modifies this
      ensures Valid() && refs == old(refs) - One(r)
      ensures |cells| == |old(cells)| && Logged(old(cells), cells, old(freed), freed)
      ensures forall n :: 0 <= n < |cells| ==>
                multiset(freed)[n] == multiset(old(freed))[n] + if old(cells)[n].Used? && cells[n].Dead? then 1 else 0
      ensures forall n :: 0 <= n < |cells| ==>
                (cells[n].Used? <==> old(cells)[n].Used? && Reachable(old(cells), refs, n))
      ensures forall n :: 0 <= n < |cells| && cells[n].Used? ==> cells[n].node == old(cells)[n].node
    {
      hide Conserved, Logged, OnlyBelow, Reachable;
      PutRef(r, refs, rank);
      WhatIsLogged(old(cells), cells, old(freed), freed);
      refs := refs - One(r);
      ShrinksRanked(old(cells), cells, rank);
      ShrinksSettled(old(cells), cells);
      forall n | 0 <= n < |cells|
        ensures cells[n].Used? <==> old(cells)[n].Used? && Reachable(old(cells), refs, n)
        ensures cells[n].Used? ==> cells[n].node == old(cells)[n].node
      {
        assert ShrinksTo(old(cells)[n], cells[n]);
        LiveExactlyWhenReachable(cells, refs, rank, n);
        SameReach(old(cells), cells, refs, n);
      }
    }

    // A container gives up the reference cur, which is put. (The C code puts it just
    // before it clears the slot; in a graph without cycles the put does not look there.)
    method TakeOut(c: nat, cur: Ref, between: Node)
      requires Valid() && c < |cells| && cells[c].Used?
      requires Loses(cells[c].node, cur, between) && WellFormed(between)
      modifies this`cells, this`freed
      ensures Valid() && ContainerOp(old(cells), cells, c, old(freed), freed)
      ensures cells[c] == old(cells)[c].(node := between)
      ensures forall v :: Reaches(cells, v, c) ==> Reaches(old(cells), v, c)
    {
      hide Conserved, Logged, Loses, Shrinks, Ranked, OnlyBelow, Settled, ShrinksTo, Reaches, Unique, One, ContainerOp;
      ghost var a, f := cells, freed;
      Unlink(a, refs, rank, c, cur, between);
      cells := cells[c := cells[c].(node := between)];
      ghost var s := cells;
      PutRef(cur, refs + One(cur), rank);
      PutBack(refs, cur);
      ContainerSurvives(a, s, cells, rank, c, cur, between, f, freed);
    }

    // A container takes the holder's reference val.
    method Store(c: nat, val: Ref, after: Node)
      requires Valid() && c < |cells| && cells[c].Used?
      requires val.Some? ==> val.value in refs && !Reaches(cells, val.value, c)
      requires Loses(after, val, cells[c].node) && WellFormed(after)
      modifies this`cells, this`refs, this`rank
      ensures Valid() && refs == old(refs) - One(val) && cells == old(cells)[c := old(cells)[c].(node := after)]
    {
      hide Conserved, Loses, Ranked, Settled, Reaches, Unique, One, RankWith;
      LinkUp(cells, refs, rank, c, val, after);
      ghost var s := cells;
      cells := cells[c := cells[c].(node := after)];
      refs := refs - One(val);
      if val.Some? {
        rank := RankWith(s, rank, c, val.value);
      }
    }

    // Both in turn
    method Exchange(c: nat, cur: Ref, between: Node, val: Ref, after: Node)
      requires Valid() && c < |cells| && cells[c].Used?
      requires val.Some? ==> val.value in refs && !Reaches(cells, val.value, c)
      requires Loses(cells[c].node, cur, between) && Loses(after, val, between)
      requires WellFormed(after)
      requires WellFormed(between)
      modifies this
      ensures Valid() && refs == old(refs) - One(val)
      ensures ContainerOp(old(cells), cells, c, old(freed), freed)
      ensures cells[c] == old(cells)[c].(node := after)
    {
      hide Conserved, Logged, Loses, Ranked, Settled, ShrinksTo, Reaches, Unique, One;
      TakeOut(c, cur, between);
      ghost var s := cells;
      Store(c, val, after);
      StoreLogsNothing(old(cells), s, c, after, old(freed), freed);
    }

    // json_object_array_put_idx. Outside twice the capacity the C code writes out of
    // bounds, and outOfBounds is returned in its place.
    method ArrayPutIdx(a: nat, idx: int, val: Ref) returns (outOfBounds: bool)
      requires Valid() && a < |cells| && cells[a].Used? && cells[a].node.Arr?
      requires val.Some? ==> val.value in refs && !Reaches(cells, val.value, a)
      modifies this
      ensures Valid() && (outOfBounds <==> idx < 0 || idx >= 2 * old(cells)[a].node.size)
      ensures outOfBounds ==> cells == old(cells) && refs == old(refs) && freed == old(freed)
      ensures !outOfBounds ==>
                && refs == old(refs) - One(val) && ContainerOp(old(cells), cells, a, old(freed), freed)
                && var was := old(cells)[a].node;
                   cells[a] == old(cells)[a].(node := Arr(ArrayList.Put(was.slots, idx, val),
                                                          if idx < was.size then was.size else 2 * was.size))
    {
      hide Conserved, Settled, Ranked, Loses, ContainerOp, Reaches, ArrayList.Put;
      ArrayFits(cells, a);
      var slots, size := cells[a].node.slots, cells[a].node.size;
      if idx < 0 || idx >= 2 * size {
        return true;
      }
      var size' := if idx < size then size else 2 * size;
      var cur := ArrayList.At(slots, idx);
      var between := Arr(if idx < |slots| then slots[idx := None] else slots, size);
      PutLoses(slots, size, idx, val, size');
      Exchange(a, cur, between, val, Arr(ArrayList.Put(slots, idx, val), size'));
      outOfBounds := false;
    }

    // json_object_array_add: never out of bounds
    method ArrayAdd(a: nat, val: Ref)
      requires Valid() && a < |cells| && cells[a].Used? && cells[a].node.Arr?
      requires val.Some? ==> val.value in refs && !Reaches(cells, val.value, a)
      modifies this
      ensures Valid() && refs == old(refs) - One(val)
      ensures ContainerOp(old(cells), cells, a, old(freed), freed)
      ensures cells[a].rc == old(cells)[a].rc && cells[a].node.Arr?
      ensures cells[a].node.slots == old(cells)[a].node.slots + [val]
    {
      ghost var slots := cells[a].node.slots;
      assert ArrayList.Put(slots, |slots|, val) == slots + [val];
      ArrayFits(cells, a);
      hide Conserved, Settled, Ranked, ContainerOp, Reaches;
      var outOfBounds := ArrayPutIdx(a, |cells[a].node.slots|, val);
    }

    // json_object_object_add
    method ObjectAdd(o: nat, key: bytes, val: Ref)
      requires Valid() && o < |cells| && cells[o].Used? && cells[o].node.Obj?
      requires val.Some? ==> val.value in refs && !Reaches(cells, val.value, o)
      modifies this
      ensures Valid() && refs == old(refs) - One(val)
      ensures ContainerOp(old(cells), cells, o, old(freed), freed)
      ensures cells[o] == old(cells)[o].(node := Obj(Add(old(cells)[o].node.fields, key, val)))
    {
      hide Conserved, Settled, Ranked, Loses, ContainerOp, Remove, Unique, Reaches;
      var fields := cells[o].node.fields;
      KeysAreUnique(cells, o);
      var cur := match OrderedMap.Get(fields, key) case None => None case Some(r) => r;
      RemoveLoses(fields, key);
      RemoveUnique(fields, key);
      AddIsUpdate(fields, key, val, key);
      AppendLoses(Remove(fields, key), key, val);
      Exchange(o, cur, Obj(Remove(fields, key)), val, Obj(Add(fields, key, val)));
    }

    // json_object_object_del
    method ObjectDel(o: nat, key: bytes)
      requires Valid() && o < |cells| && cells[o].Used? && cells[o].node.Obj?
      modifies this
      ensures Valid() && refs == old(refs)
      ensures ContainerOp(old(cells), cells, o, old(freed), freed)
      ensures cells[o] == old(cells)[o].(node := Obj(Remove(old(cells)[o].node.fields, key)))
    {
      hide Conserved, Settled, Ranked, Loses, ContainerOp, Remove, Unique, Reaches;
      var fields := cells[o].node.fields;
      KeysAreUnique(cells, o);
      var cur := match OrderedMap.Get(fields, key) case None => None case Some(r) => r;
      RemoveLoses(fields, key);
      RemoveUnique(fields, key);
      var node := Obj(Remove(fields, key));
      LosesNothing(node);
      Exchange(o, cur, node, None, node);
    }

    // json_object_put
    method PutRef(r: Ref, ghost refs: multiset<nat>, ghost rank: nat -> nat)
      requires Conserved(cells, refs) && (r.Some? ==> r.value in refs)
      modifies this`cells, this`freed
      ensures Conserved(cells, refs - One(r))
      ensures Shrinks(old(cells), cells) && Logged(old(cells), cells, old(freed), freed)
      ensures Ranked(old(cells), rank) && r.Some? ==> OnlyBelow(old(cells), cells, rank, rank(r.value), r.value)
      ensures r.None? ==> cells == old(cells)
      decreases LiveCount(cells), 1
    {
      hide SlotCount;
      if r == None {
        return;
      }
      var id := r.value;
      ghost var s, refs' := cells, refs - multiset{id};
      assert IsLive(cells[id]);
      cells := cells[id := cells[id].(rc := cells[id].rc - 1)];
      if cells[id].rc > 0 {
        Recount(s, refs, id, cells[id].rc, refs');
      } else {
        Doom(s, refs, id);
        LiveCountUpdate(s, id, cells[id]);
        ghost var t, f := cells, freed;
        Delete(id, refs', rank);
        FromDoomed(s, t, cells, id, f, freed, rank);
      }
    }

    // The _delete function of the object's type
    method Delete(id: nat, ghost refs: multiset<nat>, ghost rank: nat -> nat)
      requires id < |cells| && cells[id].Used? && cells[id].rc == 0
      requires Conserved(cells, refs + Owed(Children(cells[id].node)))
      modifies this`cells, this`freed
      ensures Conserved(cells, refs)
      ensures |cells| == |old(cells)| && cells[id] == Dead && Shrinks(old(cells), cells[id := old(cells)[id]])
      ensures Logged(old(cells), cells, old(freed), freed)
      ensures Ranked(old(cells), rank)
              && (forall m: nat :: Some(m) in Children(old(cells)[id].node) ==> rank(m) < rank(id))
              ==> OnlyBelow(old(cells), cells, rank, rank(id), id)
      decreases LiveCount(cells), 3
    {
      hide SlotCount, Conserved, Logged, Shrinks, OnlyBelow, Ranked, Children;
      ghost var a, f := cells, freed;
      PutAll(Children(cells[id].node), id, refs, rank);
      Bury(cells, refs, id);
      OneLogged(a, cells, id, f, freed, rank);
      cells := cells[id := Dead];
      freed := freed + [id];
    }

    // The loops of array_list_free and lh_table_free, for the doomed object id
    method PutAll(kids: seq<Ref>, ghost id: nat, ghost refs: multiset<nat>, ghost rank: nat -> nat)
      requires id < |cells| && cells[id].Used? && cells[id].rc == 0
      requires Conserved(cells, refs + Owed(kids))
      modifies this`cells, this`freed
      ensures Conserved(cells, refs)
      ensures |cells| == |old(cells)| && Shrinks(old(cells), cells) && cells[id] == old(cells)[id]
      ensures Logged(old(cells), cells, old(freed), freed)
      ensures Ranked(old(cells), rank) && (forall m: nat :: Some(m) in kids ==> rank(m) < rank(id))
              ==> OnlyBelow(old(cells), cells, rank, rank(id), id)
      decreases LiveCount(cells), 2
    {
      hide SlotCount, Conserved, Logged, Shrinks, OnlyBelow, Ranked;
      ghost var a, f := cells, freed;
      ghost var calm := Ranked(a, rank) && forall m: nat :: Some(m) in kids ==> rank(m) < rank(id);
      assert kids[0..] == kids;
      NothingChanged(a, freed, rank, id);
      for i := 0 to |kids|
        invariant Shrinks(a, cells) && Logged(a, cells, f, freed)
        invariant |cells| == |a| && cells[id] == a[id]
        invariant Conserved(cells, refs + Owed(kids[i..]))
        invariant calm ==> OnlyBelow(a, cells, rank, rank(id), id)
      {
        ghost var s, g := cells, freed;
        OwedFirst(kids, i, refs);
        ShrinksLiveCount(a, s);
        PutRef(kids[i], refs + Owed(kids[i..]), rank);
        OneKid(a, s, cells, f, g, freed, id, kids[i], rank);
      }
      assert kids[|kids|..] == [] && refs + Owed([]) == refs;
    }
  }

  // One more child of the doomed object id has been put.
  lemma OneKid(a: seq<Cell>, s: seq<Cell>, u: seq<Cell>, f: seq<nat>, g: seq<nat>, h: seq<nat>,
               id: nat, kid: Ref, rank: nat -> nat)
    requires Shrinks(a, s) && Shrinks(s, u) && Logged(a, s, f, g) && Logged(s, u, g, h)
    requires id < |s| && !IsLive(s[id])
    requires Ranked(s, rank) && kid.Some? ==> OnlyBelow(s, u, rank, rank(kid.value), kid.value)
    requires kid.None? ==> u == s
    ensures |u| == |s| && Shrinks(a, u) && Logged(a, u, f, h) && u[id] == s[id]
    ensures Ranked(a, rank) && (kid.Some? ==> rank(kid.value) < rank(id)) && OnlyBelow(a, s, rank, rank(id), id)
            ==> OnlyBelow(a, u, rank, rank(id), id)
  {
    LoggedTrans(a, s, u, f, g, h);
    ShrinksTrans(a, s, u);
    assert ShrinksTo(s[id], u[id]);
    if Ranked(a, rank) {
      ShrinksRanked(a, s, rank);
    }
  }

  lemma NothingChanged(a: seq<Cell>, f: seq<nat>, rank: nat -> nat, id: nat)
    ensures Logged(a, a, f, f) && Shrinks(a, a) && OnlyBelow(a, a, rank, rank(id), id)
  {
  }

  lemma OneLogged(a: seq<Cell>, b: seq<Cell>, id: nat, f: seq<nat>, g: seq<nat>, rank: nat -> nat)
    requires |a| == |b| && Shrinks(a, b) && Logged(a, b, f, g) && id < |a| && a[id].Used? && b[id] == a[id]
    ensures Logged(a, b[id := Dead], f, g + [id]) && Shrinks(a, b[id := Dead][id := a[id]])
    ensures OnlyBelow(a, b, rank, rank(id), id) ==> OnlyBelow(a, b[id := Dead], rank, rank(id), id)
  {
    assert b[id := Dead][id := a[id]] == b;
  }

  lemma OwedFirst(rs: seq<Ref>, i: nat, refs: multiset<nat>)
    requires i < |rs|
    ensures rs[i].Some? ==> rs[i].value in refs + Owed(rs[i..])
    ensures refs + Owed(rs[i..]) - One(rs[i]) == refs + Owed(rs[i + 1..])
  {
    assert rs[i..][1..] == rs[i + 1..];
  }

  // s: before the last put; t: with the object doomed; u: after its deletion
  lemma FromDoomed(s: seq<Cell>, t: seq<Cell>, u: seq<Cell>, id: nat, f: seq<nat>, g: seq<nat>, rank: nat -> nat)
    requires id < |s| && IsLive(s[id]) && t == s[id := s[id].(rc := 0)]
    requires |u| == |t| && u[id] == Dead && Shrinks(t, u[id := t[id]]) && Logged(t, u, f, g)
    requires Ranked(t, rank) && (forall m: nat :: Some(m) in Children(t[id].node) ==> rank(m) < rank(id))
             ==> OnlyBelow(t, u, rank, rank(id), id)
    ensures Shrinks(s, u) && Logged(s, u, f, g)
    ensures Ranked(s, rank) ==> OnlyBelow(s, u, rank, rank(id), id)
  {
    forall n | 0 <= n < |s| ensures ShrinksTo(s[n], u[n]) {
      assert ShrinksTo(t[n], u[id := t[id]][n]);
    }
    if Ranked(s, rank) {
      assert Ranked(t, rank);
    }
  }
}
