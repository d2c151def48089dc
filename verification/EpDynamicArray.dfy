/** The dynamic array (epDynamicArray.h). EP_Malloc'ed memory is arbitrary, Memset memory is zero. */
module EpDynamicArray {
  import opened EpAlgorithm

  /** The elements s with as many zeros behind them as the index needs. */
  function Extended<T>(zero: T, s: seq<T>, idx: nat): (r: seq<T>)
    ensures |r| > idx && |r| >= |s|
  {
    s + Copies(zero, if idx < |s| then 0 else idx + 1 - |s|)
  }

  /** A capacity that was enough stays; else it becomes exactly what is needed. */
  function Capacity(size: nat, needed: nat): (r: nat)
    ensures r >= size && r >= needed && (r == size || r == needed)
  {
    if size < needed then needed else size
  }

  class DynamicArray<T(0)> {
    const zero: T
    /** m_head; its length is m_actualSize. */
    var head: array?<T>
    var numOfElements: nat

    function ActualSize(): nat
      reads this
    {
      if head == null then 0 else head.Length
    }

    /** The count never exceeds the capacity, and every slot between them is zero. */
    ghost predicate Valid()
      reads this, head
    {
      && numOfElements <= ActualSize()
      && (head != null ==> head.Length > 0 && forall i :: numOfElements <= i < head.Length ==> head[i] == zero)
    }

    ghost function Contents(): (s: seq<T>)
      requires Valid()
      reads this, head
      ensures |s| == numOfElements
    {
      if head == null then [] else head[..numOfElements]
    }

    constructor (zero: T, initialSize: nat)
      ensures Valid() && |Contents()| == initialSize == ActualSize() && this.zero == zero
      ensures head != null ==> fresh(head)
    {
      this.zero := zero;
      numOfElements := initialSize;
      if initialSize > 0 {
        head := new T[initialSize];
      } else {
        head := null;
      }
    }

    /** The source's Realloc: the old content in a larger block whose new part is then zeroed. */
    method Resize(newSize: nat) returns (r: bool)
      requires Valid()
      modifies this`head
      ensures Valid() && Contents() == old(Contents())
      ensures r <==> old(ActualSize()) < newSize
      ensures ActualSize() == if r then newSize else old(ActualSize())
      ensures r ==> fresh(head)
      ensures !r ==> head == old(head)
    {
      if ActualSize() >= newSize {
        return false;
      }
      var grown := new T[newSize];
      var block, size := head, ActualSize();
      for i := 0 to newSize
        invariant head == block && grown != block
        invariant block != null ==> block[..] == old(if head == null then [] else head[..])
        invariant forall j :: 0 <= j < i ==> grown[j] == if j < size then block[j] else zero
      {
        grown[i] := if i < size then block[i] else zero;
      }
      head := grown;
      assert Contents() == old(Contents());
      return true;
    }

    /** operator[] on a non-const array: the array grows to hold idx; the reference returned is the
        slot idx. Growing exposes zeros only. */
    method At(idx: nat) returns (r: T)
      requires Valid()
      modifies this
      ensures Valid() && idx < |Contents()| && r == Contents()[idx]
      ensures Contents() == Extended(zero, old(Contents()), idx)
      ensures ActualSize() == Capacity(old(ActualSize()), idx + 1)
      ensures if ActualSize() == old(ActualSize()) then head == old(head) else fresh(head)
    {
      if numOfElements <= idx {
        var grew := Resize(idx + 1);
        assert Contents() == old(Contents());
        numOfElements := idx + 1;
      }
      r := head[idx];
    }

    /** An assignment through the reference At returns. */
    method Put(idx: nat, data: T)
      requires Valid()
      modifies this, head
      ensures Valid()
      ensures Contents() == Extended(zero, old(Contents()), idx)[idx := data]
      ensures ActualSize() == Capacity(old(ActualSize()), idx + 1)
      ensures if ActualSize() == old(ActualSize()) then head == old(head) else fresh(head)
    {
      var slot := At(idx);
      head[idx] := data;
    }

    method Append(data: T)
      requires Valid()
      modifies this, head
      ensures Valid() && Contents() == old(Contents()) + [data]
      ensures ActualSize() == Capacity(old(ActualSize()), old(|Contents()|) + 1)
      ensures if ActualSize() == old(ActualSize()) then head == old(head) else fresh(head)
    {
      if ActualSize() < numOfElements + 1 {
        var grew := Resize(numOfElements + 1);
      }
      assert Contents() == old(Contents());
      head[numOfElements] := data;
      numOfElements := numOfElements + 1;
    }

    /** Appending an array, which may be this one: Memcpy reads dArr.m_head after the resize. */
    method AppendArray(dArr: DynamicArray<T>)
      requires Valid() && dArr.Valid()
      requires dArr != this && head != null ==> head != dArr.head
      modifies this, head
      ensures Valid() && Contents() == old(Contents()) + old(dArr.Contents())
      ensures ActualSize() == Capacity(old(ActualSize()), old(|Contents()| + |dArr.Contents()|))
      ensures if ActualSize() == old(ActualSize()) then head == old(head) else fresh(head)
    {
      ghost var mine, theirs := Contents(), dArr.Contents();
      if ActualSize() < numOfElements + dArr.numOfElements {
        var grew := Resize(numOfElements + dArr.numOfElements);
      }
      assert Contents() == mine && dArr.Contents() == theirs;
      if head != null && dArr.head != null && dArr.ActualSize() != 0 {
        CopyElements(head, numOfElements, dArr.head, dArr.numOfElements);
      }
      numOfElements := numOfElements + dArr.numOfElements;
      assert Contents() == mine + theirs;
    }

    /** Memcpy of the first n elements of src to the slots of dst from off on. */
    static method CopyElements(dst: array<T>, off: nat, src: array<T>, n: nat)
      requires off + n <= dst.Length && n <= src.Length && (dst == src ==> n <= off)
      modifies dst
      ensures forall j :: 0 <= j < dst.Length ==> dst[j] == old(if off <= j < off + n then src[j - off] else dst[j])
    {
      for i := 0 to n
        invariant forall j :: 0 <= j < dst.Length ==> dst[j] == old(if off <= j < off + i then src[j - off] else dst[j])
        invariant dst != src ==> src[..] == old(src[..])
      {
        dst[off + i] := src[i];
      }
    }

    /** operator+: a new array, the operands unchanged. */
    method Plus(b: DynamicArray<T>) returns (retArr: DynamicArray<T>)
      requires Valid() && b.Valid()
      ensures fresh(retArr) && retArr.Valid() && retArr.Contents() == Contents() + b.Contents()
      ensures retArr.ActualSize() == |retArr.Contents()|
    {
      retArr := new DynamicArray(zero, 0);
      retArr.AppendArray(this);
      retArr.AppendArray(b);
    }

    method Clear()
      requires Valid()
      modifies this, head
      ensures Valid() && Contents() == [] && ActualSize() == old(ActualSize())
    {
      if head != null {
        var block := head;
        for i := 0 to block.Length
          invariant head == block && forall j :: 0 <= j < i ==> block[j] == zero
        {
          block[i] := zero;
        }
      }
      numOfElements := 0;
    }

    method Delete()
      requires Valid()
      modifies this
      ensures Valid() && Contents() == [] && ActualSize() == 0
    {
      head := null;
      numOfElements := 0;
    }

    /** As written: true exactly when the array is not empty, the opposite of what is documented. */
    method IsEmpty() returns (r: bool)
      requires Valid()
      ensures r <==> Contents() != []
    {
      if numOfElements != 0 {
        return true;
      }
      return false;
    }
  }
}
