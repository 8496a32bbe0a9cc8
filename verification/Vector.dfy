/** The growing array of external/freetype-gl/vector.c, as far as the texture atlas uses it. */
module Vectors {

  class Vector<T(0)> {
    var items: array<T>
    var size: nat

    /** Capacity is the length of items; doubling it needs at least one item. */
    ghost predicate Valid()
      reads this
    {
      size <= items.Length && items.Length >= 1
    }

    ghost function Contents(): (s: seq<T>)
      reads this, items
      requires Valid()
      ensures |s| == size
    {
      items[..size]
    }

    constructor ()
      ensures Valid() && fresh(items) && Contents() == []
    {
      items := new T[1];
      size := 0;
    }

    method Get(index: nat) returns (item: T)
      requires Valid() && index < size
      ensures item == Contents()[index]
    {
      item := items[index];
    }

    /** realloc keeps the items in front. */
    method Reserve(capacity: nat)
      requires Valid()
      modifies this
      ensures Valid() && (items == old(items) || fresh(items))
      ensures items.Length == if old(items.Length) < capacity then capacity else old(items.Length)
      ensures size == old(size) && Contents() == old(Contents())
    {
      if items.Length < capacity {
        var bigger := new T[capacity];
        forall i | 0 <= i < items.Length { bigger[i] := items[i]; }
        items := bigger;
      }
    }

    method Set(index: nat, item: T)
      requires Valid() && index < size
      modifies items
      ensures Contents() == old(Contents())[index := item]
    {
      items[index] := item;
    }

    method Insert(index: nat, item: T)
      requires Valid() && index <= size
      modifies this, items
      ensures Valid() && (items == old(items) || fresh(items))
      ensures Contents() == old(Contents()[..index] + [item] + Contents()[index..])
    {
      if items.Length <= size {
        Reserve(2 * items.Length);
      }
      if index < size {
        forall i | index <= i < size { items[i + 1] := items[i]; }
      }
      size := size + 1;
      Set(index, item);
    }

    method EraseRange(first: nat, last: nat)
      requires Valid() && first < last <= size
      modifies this, items
      ensures Valid() && items == old(items)
      ensures Contents() == old(Contents()[..first] + Contents()[last..])
    {
      forall i | 0 <= i < size - last { items[first + i] := items[last + i]; }
      size := size - (last - first);
    }

    method Erase(index: nat)
      requires Valid() && index < size
      modifies this, items
      ensures Valid() && items == old(items)
      ensures Contents() == old(Contents()[..index] + Contents()[index + 1..])
    {
      EraseRange(index, index + 1);
    }

    method PushBack(item: T)
      requires Valid()
      modifies this, items
      ensures Valid() && (items == old(items) || fresh(items))
      ensures Contents() == old(Contents()) + [item]
    {
      Insert(size, item);
    }

    method Clear()
      requires Valid()
      modifies this
      ensures Valid() && items == old(items) && Contents() == []
    {
      size := 0;
    }
  }
}
