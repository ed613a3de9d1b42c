/** OML's `STACK`: a growable array of `int64_t` with a size and a capacity,
    changed in place. The abstract value of a stack is `data[..size]`,
    bottom (index 0) to top (index size - 1). */
module Stacks {
  import opened Int64s

  const INITIAL_STACK_CAPACITY: nat := 16

  // ---------------------------------------------------------------------
  // The stack discipline on sequence values. These say what `stack_pop`
  // and friends do to the contents, and are used for the register stacks,
  // which the model keeps as values.
  // ---------------------------------------------------------------------

  /** What `stack_pop` and `stack_peek` return: the top, or 0 when empty. */
  function Top(s: seq<Int64>): Int64 {
    if s == [] then 0 else s[|s| - 1]
  }

  /** The contents left by `stack_pop`: an empty stack stays empty. */
  function Drop(s: seq<Int64>): seq<Int64> {
    if s == [] then [] else s[..|s| - 1]
  }

  /** The values returned by `n` successive `stack_pop`s, in the order returned. */
  function Popped(s: seq<Int64>, n: nat): (p: seq<Int64>)
    ensures |p| == n
  {
    if n == 0 then [] else [Top(s)] + Popped(Drop(s), n - 1)
  }

  /** The contents left by `n` successive `stack_pop`s. */
  function DropN(s: seq<Int64>, n: nat): (r: seq<Int64>)
    ensures n <= |s| ==> r == s[..|s| - n]
    ensures n >= |s| ==> r == []
  {
    if n == 0 then s else DropN(Drop(s), n - 1)
  }

  function Reverse(s: seq<Int64>): (r: seq<Int64>)
    ensures |r| == |s|
  {
    if s == [] then [] else [s[|s| - 1]] + Reverse(s[..|s| - 1])
  }

  /** Element `k` of a reversed sequence is element `|s| - 1 - k` of the original. */
  lemma {:induction false} ReverseAt(s: seq<Int64>, k: nat)
    requires k < |s|
    ensures Reverse(s)[k] == s[|s| - 1 - k]
  {
    if k > 0 {
      ReverseAt(s[..|s| - 1], k - 1);
    }
  }

  lemma ReverseReverse(s: seq<Int64>)
    ensures Reverse(Reverse(s)) == s
  {
    var r := Reverse(s);
    forall k | 0 <= k < |s| ensures Reverse(r)[k] == s[k] {
      ReverseAt(r, k);
      ReverseAt(s, |s| - 1 - k);
    }
  }

  /** Popping `|w|` values off `u + w` returns `w` top first and leaves `u`. */
  lemma {:induction false} PoppedSuffix(u: seq<Int64>, w: seq<Int64>)
    ensures Popped(u + w, |w|) == Reverse(w)
    ensures DropN(u + w, |w|) == u
  {
    if w != [] {
      var w' := w[..|w| - 1];
      assert (u + w)[..|u + w| - 1] == u + w';
      PoppedSuffix(u, w');
    }
  }

  /** Popping more values than a stack holds returns its elements top first, then zeros. */
  lemma {:induction false} PoppedAt(s: seq<Int64>, n: nat, k: nat)
    requires k < n
    ensures Popped(s, n)[k] == if k < |s| then s[|s| - 1 - k] else 0
  {
    if k > 0 {
      PoppedAt(Drop(s), n - 1, k - 1);
    }
  }

  /** One more pop returns the top of what `k` pops left behind. */
  lemma {:induction false} PoppedNext(s: seq<Int64>, k: nat)
    ensures Popped(s, k + 1) == Popped(s, k) + [Top(DropN(s, k))]
    ensures DropN(s, k + 1) == Drop(DropN(s, k))
  {
    if k > 0 {
      PoppedNext(Drop(s), k - 1);
    }
  }

  /** Reversal moves the first element to the end. */
  lemma ReverseCons(x: Int64, p: seq<Int64>)
    ensures Reverse([x] + p) == Reverse(p) + [x]
  {
    var r := Reverse([x] + p);
    forall k | 0 <= k < |r| ensures r[k] == (Reverse(p) + [x])[k] {
      ReverseAt([x] + p, k);
      if k < |p| {
        ReverseAt(p, k);
      }
    }
  }

  /** Reversal moves the last element to the front. */
  lemma ReverseSnoc(p: seq<Int64>, x: Int64)
    ensures Reverse(p + [x]) == [x] + Reverse(p)
  {
    assert (p + [x])[..|p|] == p;
  }

  // ---------------------------------------------------------------------
  // The array-backed stack.
  // ---------------------------------------------------------------------

  class Stack {
    var data: array<Int64>
    var size: nat
    var capacity: nat

    /** `size < capacity` holds after every operation: a push that fills
        the array doubles it at once. */
    ghost predicate Valid()
      reads this, data
    {
      capacity == data.Length && size < capacity
    }

    ghost function Contents(): seq<Int64>
      reads this, data
      requires Valid()
    {
      data[..size]
    }

    /** `stack_init` */
    constructor ()
      ensures Valid() && fresh(data)
      ensures Contents() == [] && capacity == INITIAL_STACK_CAPACITY
    {
      data := new Int64[INITIAL_STACK_CAPACITY];
      size := 0;
      capacity := INITIAL_STACK_CAPACITY;
    }

    /** `stack_resize`: a larger array holding the old one's elements. */
    method Resize()
      requires data.Length <= capacity
      modifies this
      ensures fresh(data) && data.Length == capacity
      ensures size == old(size) && capacity == old(capacity)
      ensures data[..old(data.Length)] == old(data[..])
    {
      var grown := new Int64[capacity];
      var k := 0;
      while k < data.Length
        modifies grown
        invariant 0 <= k <= data.Length
        invariant grown[..k] == data[..k]
      {
        grown[k] := data[k];
        k := k + 1;
      }
      assert data[..] == data[..data.Length];
      data := grown;
    }

    /** `stack_push`: write at `size`, then double the capacity if it is reached. */
    method Push(v: Int64)
      requires Valid()
      modifies this, data
      ensures Valid() && (data == old(data) || fresh(data))
      ensures Contents() == old(Contents()) + [v]
      ensures capacity == if old(size) + 1 == old(capacity) then 2 * old(capacity) else old(capacity)
    {
      data[size] := v;
      size := size + 1;
      if size >= capacity {
        capacity := capacity * 2;
        ghost var before := data[..];
        Resize();
        assert data[..size] == before[..size];
      }
    }

    /** `stack_unshift`: insert at the bottom, moving every element up one place. */
    method Unshift(v: Int64)
      requires Valid()
      modifies this, data
      ensures Valid() && (data == old(data) || fresh(data))
      ensures Contents() == [v] + old(Contents())
    {
      size := size + 1;
      if size >= capacity {
        capacity := capacity * 2;
        Resize();
      }
      assert data[..size - 1] == old(Contents());
      PutBottom(v, size);
    }

    /** The `memmove` and the store of `stack_unshift`: the first `n` slots
        move up one place and `v` goes into slot 0. */
    method PutBottom(v: Int64, n: nat)
      requires 0 < n < data.Length
      modifies data
      ensures data[..n] == [v] + old(data[..n - 1])
    {
      MoveUp(n);
      ghost var shifted := data[1..n];
      assert shifted == old(data[..n - 1]);
      data[0] := v;
      assert data[1..n] == shifted;
      assert data[..n] == [v] + data[1..n];
    }

    /** The `memmove` of `stack_unshift`: `data[..n]` moves up one place. */
    method MoveUp(n: nat)
      requires n < data.Length
      modifies data
      ensures data[1..n + 1] == old(data[..n])
      ensures data[0] == old(data[0]) && data[n + 1..] == old(data[n + 1..])
    {
      var k := n;
      while k > 0
        invariant 0 <= k <= n
        invariant forall j :: 0 <= j <= k || n < j < data.Length ==> data[j] == old(data[j])
        invariant forall j :: k < j <= n ==> data[j] == old(data[j - 1])
      {
        data[k] := data[k - 1];
        k := k - 1;
      }
    }

    /** `stack_pop` */
    method Pop() returns (v: Int64)
      requires Valid()
      modifies this
      ensures Valid() && data == old(data) && capacity == old(capacity)
      ensures v == Top(old(Contents())) && Contents() == Drop(old(Contents()))
    {
      if size == 0 {
        return 0;
      }
      size := size - 1;
      v := data[size];
    }

    /** `stack_shift`: remove the bottom element. The C code reads `data[0]`
        and decrements `size` without a check, so it needs a non-empty stack. */
    method Shift() returns (v: Int64)
      requires Valid() && size > 0
      modifies this, data
      ensures Valid() && data == old(data) && capacity == old(capacity)
      ensures v == old(Contents())[0] && Contents() == old(Contents())[1..]
    {
      v := data[0];
      size := size - 1;
      var k := 0;
      while k < size
        modifies data
        invariant 0 <= k <= size
        invariant forall j :: 0 <= j < k ==> data[j] == old(data[j + 1])
        invariant forall j :: k <= j < data.Length ==> data[j] == old(data[j])
      {
        data[k] := data[k + 1];
        k := k + 1;
      }
    }

    /** `stack_pop_from`: remove and return the element at `index`, the rest keeping their order. */
    method PopFrom(index: nat) returns (v: Int64)
      requires Valid() && index < size
      modifies this, data
      ensures Valid() && data == old(data) && capacity == old(capacity)
      ensures v == old(Contents())[index]
      ensures Contents() == old(Contents())[..index] + old(Contents())[index + 1..]
    {
      v := data[index];
      size := size - 1;
      var k := index;
      while k < size
        modifies data
        invariant index <= k <= size
        invariant forall j :: 0 <= j < index ==> data[j] == old(data[j])
        invariant forall j :: index <= j < k ==> data[j] == old(data[j + 1])
        invariant forall j :: k <= j < data.Length ==> data[j] == old(data[j])
      {
        data[k] := data[k + 1];
        k := k + 1;
      }
      assert Contents() == old(Contents())[..index] + old(Contents())[index + 1..];
    }

    /** `stack_peek`: the top, or 0 on an empty stack; nothing changes. */
    method Peek() returns (v: Int64)
      requires Valid()
      ensures v == Top(Contents())
    {
      if size == 0 {
        return 0;
      }
      v := data[size - 1];
    }

    /** `stack_clear` */
    method Clear()
      requires Valid()
      modifies this
      ensures Valid() && data == old(data) && Contents() == []
    {
      size := 0;
    }

    /** `stack_push_int_array`: push the elements first to last. */
    method PushAll(arr: seq<Int64>)
      requires Valid()
      modifies this, data
      ensures Valid() && (data == old(data) || fresh(data))
      ensures Contents() == old(Contents()) + arr
    {
      var k := 0;
      while k < |arr|
        invariant 0 <= k <= |arr|
        invariant Valid() && (data == old(data) || fresh(data))
        invariant Contents() == old(Contents()) + arr[..k]
      {
        Push(arr[k]);
        k := k + 1;
      }
      assert arr[..k] == arr;
    }
  }
}
