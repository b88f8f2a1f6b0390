/**
 * pkg/deque: a double-ended queue over a Go slice.
 *
 * `Deque[T]` is a slice type whose pointer-receiver methods reassign the
 * slice; here it is a class whose field `Items` is that slice. `Zero` is
 * the value Go's `*new(T)` yields, returned beside the `Empty` error.
 */
module Deque {

  class Deque<T> {
    var Items: seq<T>
    const Zero: T

    constructor (zero: T, items: seq<T>)
      ensures Items == items && Zero == zero
    {
      Zero := zero;
      Items := items;
    }

    /** Push appends one item at the back. */
    method Push(item: T)
      modifies this
      ensures Items == old(Items) + [item]
    {
      Items := Items + [item];
    }

    /** Append appends `items`, in order, at the back. */
    method Append(items: seq<T>)
      modifies this
      ensures Items == old(Items) + items
    {
      Items := Items + items;
    }

    /**
     * Pop removes and returns the back item; on an empty deque it returns
     * the zero value with the Empty error (`err`) and changes nothing.
     */
    method Pop() returns (item: T, err: bool)
      modifies this
      ensures err <==> old(Items) == []
      ensures err ==> item == Zero && Items == old(Items)
      ensures !err ==> item == old(Items)[|old(Items)| - 1] && Items == old(Items)[..|old(Items)| - 1]
    {
      if |Items| == 0 {
        return Zero, true;
      }
      item := Items[|Items| - 1];
      Items := Items[..|Items| - 1];
      err := false;
    }

    /** Peek returns the back item without removing it. */
    method Peek() returns (item: T, err: bool)
      ensures err <==> Items == []
      ensures err ==> item == Zero
      ensures !err ==> item == Items[|Items| - 1]
    {
      if |Items| == 0 {
        return Zero, true;
      }
      return Items[|Items| - 1], false;
    }

    /** Unshift inserts one item at the front. */
    method Unshift(item: T)
      modifies this
      ensures Items == [item] + old(Items)
    {
      Items := [item] + Items;
    }

    /** Prepend inserts `items`, in order, at the front. */
    method Prepend(items: seq<T>)
      modifies this
      ensures Items == items + old(Items)
    {
      Items := items + Items;
    }

    /**
     * Shift removes and returns the front item; on an empty deque it
     * returns the zero value with the Empty error and changes nothing.
     */
    method Shift() returns (item: T, err: bool)
      modifies this
      ensures err <==> old(Items) == []
      ensures err ==> item == Zero && Items == old(Items)
      ensures !err ==> item == old(Items)[0] && Items == old(Items)[1..]
    {
      if |Items| == 0 {
        return Zero, true;
      }
      item := Items[0];
      Items := Items[1..];
      err := false;
    }

    /** Front returns the front item without removing it. */
    method Front() returns (item: T, err: bool)
      ensures err <==> Items == []
      ensures err ==> item == Zero
      ensures !err ==> item == Items[0]
    {
      if |Items| == 0 {
        return Zero, true;
      }
      return Items[0], false;
    }

    /** Clear empties the deque (Go keeps the backing array). */
    method Clear()
      modifies this
      ensures Items == []
    {
      Items := Items[..0];
    }

    /** Init replaces the contents with `items`. */
    method Init(items: seq<T>)
      modifies this
      ensures Items == items
    {
      Clear();
      Append(items);
    }
  }

  /** EqualV compares two deques passed by value, element by element. */
  method EqualV<T(==)>(a: seq<T>, b: seq<T>) returns (eq: bool)
    ensures eq <==> a == b
  {
    if |a| != |b| {
      return false;
    }
    var i := 0;
    while i < |a|
      invariant 0 <= i <= |a|
      invariant a[..i] == b[..i]
    {
      if a[i] != b[i] {
        return false;
      }
      i := i + 1;
    }
    assert a == a[..i] && b == b[..i];
    return true;
  }

  /** EqualP compares the deques behind two pointers, element by element. */
  method EqualP<T(==)>(a: Deque<T>, b: Deque<T>) returns (eq: bool)
    ensures eq <==> a.Items == b.Items
  {
    if |a.Items| != |b.Items| {
      return false;
    }
    var i := 0;
    while i < |a.Items|
      invariant 0 <= i <= |a.Items|
      invariant forall j :: 0 <= j < i ==> a.Items[j] == b.Items[j]
    {
      if a.Items[i] != b.Items[i] {
        return false;
      }
      i := i + 1;
    }
    return true;
  }

  /** Equal is EqualP with the receiver as first operand. */
  method Equal<T(==)>(d: Deque<T>, a: Deque<T>) returns (eq: bool)
    ensures eq <==> d.Items == a.Items
  {
    eq := EqualP(d, a);
  }

  /** Pop after Push returns the pushed item and restores the deque. */
  method PushPopRestores<T>(d: Deque<T>, x: T) returns (y: T)
    modifies d
    ensures y == x && d.Items == old(d.Items)
  {
    d.Push(x);
    var err;
    y, err := d.Pop();
    assert old(d.Items) + [x] == d.Items + [y];
  }

  /** Shift after Unshift returns the item and restores the deque. */
  method UnshiftShiftRestores<T>(d: Deque<T>, x: T) returns (y: T)
    modifies d
    ensures y == x && d.Items == old(d.Items)
  {
    d.Unshift(x);
    var err;
    y, err := d.Shift();
  }
}
