/** The growable pointer array of arraylist.c. None stands for a NULL pointer. */
module ArrayList {
  import opened Bytes
  import opened OrderedMap

  const DEFAULT_SIZE: nat := 32

  // The list after idx has been set: padded with NULL up to idx if it was shorter
  function Put<T>(s: seq<Option<T>>, idx: nat, data: Option<T>): (r: seq<Option<T>>)
    ensures |r| == Max(|s|, idx + 1)
    ensures forall i :: 0 <= i < |r| ==> r[i] == if i == idx then data else if i < |s| then s[i] else None
  {
    if idx < |s| then s[idx := data]
    else s + seq(idx - |s|, _ => None) + [data]
  }

  function At<T>(s: seq<Option<T>>, i: nat): Option<T> {
    if i < |s| then s[i] else None
  }

  function One<T>(d: Option<T>): seq<T> {
    match d case None => [] case Some(x) => [x]
  }

  // The elements that are not NULL
  function Elements<T>(s: seq<Option<T>>): seq<T> {
    if s == [] then []
    else
      var last := |s| - 1;
      Elements(s[..last]) + One(s[last])
  }

  lemma OneCount<T>(d: Option<T>, x: T)
    ensures multiset(One(d))[x] == multiset{d}[Some(x)] == if d == Some(x) then 1 else 0
  {
  }

  lemma {:induction false} ElementsCount<T>(s: seq<Option<T>>, x: T)
    ensures multiset(Elements(s))[x] == multiset(s)[Some(x)]
  {
    if s != [] {
      var front, last := s[..|s| - 1], s[|s| - 1];
      hide One;
      ElementsCount(front, x);
      OneCount(last, x);
      assert multiset(Elements(front) + One(last)) == multiset(Elements(front)) + multiset(One(last));
      assert s == front + [last];
    }
  }

  // What is put in, and what has to go out
  lemma OneElement<T>(x: T)
    ensures Elements([Some(x)]) == [x] && Elements<T>([None]) == [] && Elements<T>([]) == []
  {
    assert Elements<T>([]) + [x] == [x] && Elements<T>([]) + [] == [];
    var one, none: seq<Option<T>> := [Some(x)], [None];
    assert one[..0] == [] && none[..0] == [];
  }

  // Elements keeps the order.
  lemma {:induction false} ElementsInOrder<T>(a: seq<Option<T>>, b: seq<Option<T>>)
    ensures Elements(a + b) == Elements(a) + Elements(b)
    decreases |b|
  {
    hide One;
    if b == [] {
      assert a + b == a;
    } else {
      var front, last := b[..|b| - 1], b[|b| - 1];
      ElementsInOrder(a, front);
      assert (a + b)[..|a + b| - 1] == a + front && (a + b)[|a + b| - 1] == last;
      Regroup(Elements(a), Elements(front), One(last));
    }
  }

  lemma Regroup<T>(a: seq<T>, b: seq<T>, c: seq<T>)
    ensures a + b + c == a + (b + c)
  {
  }

  lemma SetExchanges<T>(s: seq<Option<T>>, idx: nat, data: Option<T>, x: T)
    requires idx < |s|
    ensures multiset(s[idx := data])[Some(x)] + multiset{s[idx]}[Some(x)]
         == multiset(s)[Some(x)] + multiset{data}[Some(x)]
  {
    assert multiset(s[idx := data]) == multiset(s) - multiset{s[idx]} + multiset{data};
    assert s[idx] in multiset(s);
  }

  lemma PadExchanges<T>(s: seq<Option<T>>, padding: seq<Option<T>>, data: Option<T>, x: T)
    requires forall i :: 0 <= i < |padding| ==> padding[i] == None
    ensures multiset(s + padding + [data])[Some(x)] == multiset(s)[Some(x)] + multiset{data}[Some(x)]
  {
    assert Some(x) !in padding;
    assert multiset(s + padding + [data]) == multiset(s) + multiset(padding) + multiset{data};
  }

  lemma PutExchanges<T>(s: seq<Option<T>>, idx: nat, data: Option<T>, x: T)
    ensures multiset(Elements(Put(s, idx, data)))[x] + multiset(One(At(s, idx)))[x]
         == multiset(Elements(s))[x] + multiset(One(data))[x]
  {
    hide Elements, One;
    ElementsCount(s, x);
    ElementsCount(Put(s, idx, data), x);
    OneCount(data, x);
    OneCount(At(s, idx), x);
    if idx < |s| {
      SetExchanges(s, idx, data, x);
    } else {
      PadExchanges(s, seq(idx - |s|, _ => None), data, x);
    }
  }

  // Every element stored is either in the list or has been freed, once.
  ghost predicate Accounted<T(!new)>(s: seq<Option<T>>, freed: seq<T>, stored: seq<T>) {
    forall x: T :: multiset(Elements(s))[x] + multiset(freed)[x] == multiset(stored)[x]
  }

  lemma PutIsAccounted<T(!new)>(s: seq<Option<T>>, freed: seq<T>, stored: seq<T>, idx: nat, data: Option<T>)
    requires Accounted(s, freed, stored)
    ensures Accounted(Put(s, idx, data), freed + One(At(s, idx)), stored + One(data))
  {
    hide Elements, Put, At, One;
    var out, in' := One(At(s, idx)), One(data);
    assert multiset(freed + out) == multiset(freed) + multiset(out);
    assert multiset(stored + in') == multiset(stored) + multiset(in');
    forall x: T
      ensures multiset(Elements(Put(s, idx, data)))[x] + multiset(freed + out)[x] == multiset(stored + in')[x]
    {
      PutExchanges(s, idx, data, x);
    }
  }

  // The list within its slots, before and after idx is set
  lemma PutInSlots<T>(s: seq<Option<T>>, slots: seq<Option<T>>, idx: nat, data: Option<T>, length: nat)
    requires |s| <= |slots| && idx < |slots| && length == Max(|s|, idx + 1)
    requires forall i :: 0 <= i < |slots| ==> slots[i] == At(s, i)
    ensures slots[idx := data][..length] == Put(s, idx, data)
  {
    hide Put;
    var after := slots[idx := data];
    forall i | 0 <= i < length ensures after[i] == Put(s, idx, data)[i] {
      assert i != idx ==> after[i] == At(s, i);
    }
  }

  class ArrayList<T> {
    var slots: array<Option<T>>
    var length: nat
    var size: nat
    ghost var freed: seq<T>  // what has been given to free_fn

    ghost predicate Valid()
      reads this, slots
    {
      && size == slots.Length && DEFAULT_SIZE <= size && length <= size
      && forall i :: length <= i < size ==> slots[i] == None
    }

    function Contents(): seq<Option<T>>
      requires Valid()
      reads this, slots
    {
      slots[..length]
    }

    constructor ()
      ensures Valid() && fresh(slots)
      ensures Contents() == [] && size == DEFAULT_SIZE == 32 && freed == []
    {
      size, length := DEFAULT_SIZE, 0;
      slots := new Option<T>[DEFAULT_SIZE](_ => None);
      freed := [];
    }

    lemma LengthOfContents()
      requires Valid()
      ensures length == |Contents()|
    {
    }

    // array_list_get_idx. Negative indices are not checked: there the C code reads out of
    // bounds, and outOfBounds is returned in its place.
    method GetIdx(i: int) returns (data: Option<T>, outOfBounds: bool)
      requires Valid()
      ensures outOfBounds <==> i < 0
      ensures !outOfBounds ==> data == At(Contents(), i)
    {
      if i >= length {
        return None, false;
      }
      if i < 0 {
        return None, true;
      }
      return slots[i], false;
    }

    // array_list_expand_internal
    method Expand(max: int)
      requires Valid()
      modifies this`slots, this`size
      ensures Valid() && (slots == old(slots) || fresh(slots))
      ensures Contents() == old(Contents())
      ensures size == if max < old(size) then old(size) else Max(2 * old(size), max)
    {
      if max < size {
        return;
      }
      var newSize := Max(size * 2, max);
      var t := new Option<T>[newSize](_ => None);
      forall i | 0 <= i < size {
        t[i] := slots[i];
      }
      slots := t;
      size := newSize;
    }

    // array_list_put_idx. Growing makes room for indices below twice the size only; at
    // any other index the C code writes outside the array, and outOfBounds is returned
    // in its place.
    method PutIdx(idx: int, data: Option<T>) returns (outOfBounds: bool)
      requires Valid()
      modifies this, slots
      ensures Valid() && (slots == old(slots) || fresh(slots))
      ensures outOfBounds <==> idx < 0 || idx >= 2 * old(size)
      ensures outOfBounds ==> Contents() == old(Contents()) && freed == old(freed)
      ensures !outOfBounds ==>
                && Contents() == Put(old(Contents()), idx, data)
                && freed == old(freed) + One(At(old(Contents()), idx))
      ensures !outOfBounds ==> size == if idx < old(size) then old(size) else 2 * old(size)
    {
      ghost var s := Contents();
      Expand(idx);
      if idx < 0 || idx >= size {
        return true;
      }
      ghost var was := slots[..];
      assert forall i :: 0 <= i < size ==> was[i] == At(s, i);
      hide Put, At;
      if slots[idx].Some? {
        freed := freed + [slots[idx].value];
      }
      slots[idx] := data;
      if length <= idx {
        length := idx + 1;
      }
      assert slots[..] == was[idx := data];
      PutInSlots(s, was, idx, data, length);
      outOfBounds := false;
    }

    // array_list_add. It is never out of bounds, frees nothing, and keeps the capacity
    // within twice the length.
    method Add(data: Option<T>)
      requires Valid()
      modifies this, slots
      ensures Valid() && (slots == old(slots) || fresh(slots))
      ensures Contents() == old(Contents()) + [data] && freed == old(freed)
      ensures old(size) <= Max(DEFAULT_SIZE, 2 * |old(Contents())|) ==> size <= Max(DEFAULT_SIZE, 2 * |Contents()|)
    {
      var outOfBounds := PutIdx(length, data);
    }

    // array_list_free: every element is given to free_fn, once
    method Free()
      requires Valid()
      modifies this`freed
      ensures freed == old(freed) + Elements(old(Contents()))
    {
      var i := 0;
      while i < length
        invariant 0 <= i <= length
        invariant freed == old(freed) + Elements(slots[..i])
      {
        assert slots[..i + 1] == slots[..i] + [slots[i]];
        if slots[i].Some? {
          freed := freed + [slots[i].value];
        }
        i := i + 1;
      }
    }
  }

  // ---- whole runs ----

  datatype Op<T> = AddOp(data: Option<T>) | PutOp(idx: nat, data: Option<T>)

  function Apply<T>(s: seq<Option<T>>, op: Op<T>): seq<Option<T>> {
    match op
    case AddOp(data) => s + [data]
    case PutOp(idx, data) => Put(s, idx, data)
  }

  function ApplyAll<T>(s: seq<Option<T>>, ops: seq<Op<T>>): seq<Option<T>>
    decreases |ops|
  {
    if ops == [] then s else ApplyAll(Apply(s, ops[0]), ops[1..])
  }

  // The capacity after each operation, or the first that is out of bounds
  function SizeAfter<T>(size: nat, length: nat, ops: seq<Op<T>>): Option<nat>
    decreases |ops|
  {
    if ops == [] then Some(size)
    else
      var idx := match ops[0] case AddOp(_) => length case PutOp(idx, _) => idx;
      if idx >= 2 * size then None
      else SizeAfter(if idx < size then size else 2 * size, Max(length, idx + 1), ops[1..])
  }

  function DataOf<T>(op: Op<T>): Option<T> {
    match op case AddOp(data) => data case PutOp(_, data) => data
  }

  // The elements that the operations store
  function Stored<T>(ops: seq<Op<T>>): seq<T> {
    if ops == [] then []
    else
      var last := |ops| - 1;
      Stored(ops[..last]) + One(DataOf(ops[last]))
  }

  // Additions append their elements in order.
  lemma {:induction false} AddingAppends<T>(s: seq<Option<T>>, ops: seq<Op<T>>)
    requires forall i :: 0 <= i < |ops| ==> ops[i].AddOp?
    ensures var r := ApplyAll(s, ops);
            && |r| == |s| + |ops| && r[..|s|] == s
            && forall i :: 0 <= i < |ops| ==> r[|s| + i] == ops[i].data
    decreases |ops|
  {
    if ops != [] {
      var t, rest := s + [ops[0].data], ops[1..];
      AddingAppends(t, rest);
      var r := ApplyAll(t, rest);
      assert s == t[..|s|] == r[..|t|][..|s|] == r[..|s|];
      assert r[|s|] == r[..|t|][|s|];
      forall i | 0 < i < |ops| ensures r[|s| + i] == ops[i].data {
        assert r[|t| + (i - 1)] == rest[i - 1].data;
      }
    }
  }

  // Adding alone is always in bounds, in at most twice the room that is needed.
  lemma {:induction false} AddingIsCheap<T>(size: nat, length: nat, ops: seq<Op<T>>)
    requires DEFAULT_SIZE <= size <= Max(DEFAULT_SIZE, 2 * length) && length <= size
    requires forall i :: 0 <= i < |ops| ==> ops[i].AddOp?
    ensures var r := SizeAfter(size, length, ops);
            r.Some? && length + |ops| <= r.value <= Max(DEFAULT_SIZE, 2 * (length + |ops|))
    decreases |ops|
  {
    if ops != [] {
      AddingIsCheap(if length < size then size else 2 * size, length + 1, ops[1..]);
    }
  }

  // A run on a new list is in bounds exactly when SizeAfter says so. Then the list is
  // the sparse sequence that was built, and every element stored is either in it or has
  // been freed, once.
  method Run<T(!new)>(ops: seq<Op<T>>) returns (l: ArrayList<T>, outOfBounds: bool)
    ensures l.Valid()
    ensures outOfBounds <==> SizeAfter(DEFAULT_SIZE, 0, ops) == None
    ensures !outOfBounds ==> l.Contents() == ApplyAll([], ops) && SizeAfter(DEFAULT_SIZE, 0, ops) == Some(l.size)
    ensures !outOfBounds ==> Accounted(l.Contents(), l.freed, Stored(ops))
  {
    hide ArrayList.Valid, ArrayList.Contents, Put, Accounted, One;
    l := new ArrayList<T>();
    outOfBounds := false;
    NothingStored<T>();
    for i := 0 to |ops|
      invariant fresh(l) && fresh(l.slots) && l.Valid() && !outOfBounds
      invariant ApplyAll(l.Contents(), ops[i..]) == ApplyAll([], ops)
      invariant SizeAfter(l.size, |l.Contents()|, ops[i..]) == SizeAfter(DEFAULT_SIZE, 0, ops)
      invariant Accounted(l.Contents(), l.freed, Stored(ops[..i]))
    {
      assert ops[i..][0] == ops[i] && ops[i..][1..] == ops[i + 1..];
      assert ops[..i + 1][..i] == ops[..i];
      ghost var s := l.Contents();
      l.LengthOfContents();
      var idx := match ops[i] case AddOp(_) => l.length case PutOp(idx, _) => idx;
      assert Put(s, |s|, DataOf(ops[i])) == s + [DataOf(ops[i])];
      PutIsAccounted(s, l.freed, Stored(ops[..i]), idx, DataOf(ops[i]));
      outOfBounds := l.PutIdx(idx, DataOf(ops[i]));
      if outOfBounds {
        return;
      }
    }
    assert ops[..|ops|] == ops;
  }

  lemma NothingStored<T(!new)>()
    ensures Accounted<T>([], [], [])
  {
  }
}
