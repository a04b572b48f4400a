/**
 Buffer: a byte array on the heap that grows on demand.
 */
module ByteBuffer {
  import opened Words

  class Buffer {
    var size: nat
    var capacity: nat
    var data: array?<Byte>

    /** The stored sizes agree with each other and with the allocation. */
    ghost predicate IsConsistent()
      reads this
    {
      size <= capacity && if data == null then capacity == 0 else data.Length == capacity
    }

    ghost function Contents(): Bytes
      reads this, data
      requires IsConsistent()
    {
      if data == null then [] else data[..size]
    }

    /** A buffer of uninitialised bytes. */
    constructor (size: nat, capacity: nat)
      ensures IsConsistent() && this.size == size && fresh(data)
      ensures this.capacity == (if size > capacity then size else capacity)
    {
      this.size := size;
      this.capacity := if size > capacity then size else capacity;
      data := new Byte[if size > capacity then size else capacity];
    }

    method EnsureCapacity(capacity: nat)
      requires IsConsistent()
      modifies this`capacity, this`data
      ensures IsConsistent() && Contents() == old(Contents())
      ensures this.capacity == (if capacity > old(this.capacity) then capacity else old(this.capacity))
      ensures data == old(data) || fresh(data)
    {
      if capacity <= this.capacity {
        return;
      }
      var newData := new Byte[capacity];
      if data != null {
        forall i | 0 <= i < size {
          newData[i] := data[i];
        }
        assert newData[..size] == data[..size];
      }
      data := newData;
      this.capacity := capacity;
    }

    method SetSize(size: nat)
      requires IsConsistent()
      modifies this
      ensures IsConsistent() && this.size == size
      ensures data == old(data) || fresh(data)
      ensures if size <= old(this.size) then Contents() == old(Contents())[..size] else old(Contents()) <= Contents()
    {
      EnsureCapacity(size);
      this.size := size;
    }

    method AppendData(source: array<Byte>, count: nat)
      requires IsConsistent() && count <= source.Length && source != data
      modifies this, data
      ensures IsConsistent() && Contents() == old(Contents()) + source[..count]
      ensures data == old(data) || fresh(data)
    {
      var newSize := size + count;
      EnsureCapacity(newSize);
      if data != null {
        ghost var before := data[..size];
        forall i | 0 <= i < count {
          data[size + i] := source[i];
        }
        assert data[..newSize] == before + source[..count];
      }
      size := newSize;
    }

    method SetData(source: array<Byte>, count: nat)
      requires IsConsistent() && count <= source.Length && source != data
      modifies this, data
      ensures IsConsistent() && Contents() == source[..count]
      ensures data == old(data) || fresh(data)
    {
      size := 0;
      AppendData(source, count);
    }
  }
}
