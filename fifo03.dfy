/** `FeabhOS::Utility::FIFO<T, sz>` of the C++03 library: a plain array ring with read and
    write indices, an item count, and `flush`. */
module Fifo03 {

  import opened QueueSpec

  class Fifo<T> {
    /** The template parameter `sz`; a C++ array cannot have zero elements. */
    const sz: nat
    const buffer: array<T>
    var read: nat
    var write: nat
    var numItems: nat

    ghost predicate Valid()
      reads this
    {
      sz > 0 && buffer.Length == sz && RingIndices(sz, read, write, numItems)
    }

    /** The queued elements, oldest first. */
    ghost function Contents(): (s: seq<T>)
      reads this, buffer
      requires Valid()
      ensures |s| == numItems <= sz
    {
      RingContents(buffer[..], read, numItems)
    }

    /** `FIFO()`: value-initialises the array (`init` is `T()`) and then flushes. */
    constructor (size: nat, init: T)
      requires size > 0
      ensures Valid() && fresh(buffer) && sz == size
      ensures Contents() == [] && read == 0 && write == 0
    {
      sz := size;
      buffer := new T[size](_ => init);
      new;
      Flush();
    }

    /** `flush()`: forgets every element, whatever the contents; the array is not touched. */
    method Flush()
      requires buffer.Length == sz > 0
      modifies this`read, this`write, this`numItems
      ensures Valid() && Contents() == []
      ensures read == 0 && write == 0 && numItems == 0
    {
      read := 0;
      write := 0;
      numItems := 0;
    }

    method IsEmpty() returns (empty: bool)
      requires Valid()
      ensures empty <==> Contents() == []
    {
      empty := numItems == 0;
    }

    /** `add(value)`: FULL and no change when full; otherwise stored at `write`, which
        advances and wraps to 0 at `sz`. */
    method Add(x: T) returns (e: Status)
      requires Valid()
      modifies this, buffer
      ensures Valid()
      ensures (e, Contents()) == QueueSpec.Add(old(Contents()), sz, x)
      ensures e == Full ==> read == old(read) && write == old(write) && numItems == old(numItems)
                            && buffer[..] == old(buffer[..])
      ensures e == Ok ==> buffer[..] == old(buffer[..])[old(write) := x] && read == old(read)
                          && write == Next(old(write), sz) && numItems == old(numItems) + 1
    {
      if numItems == sz {
        return Full;
      }
      RingAdd(buffer[..], read, write, numItems, x);
      buffer[write] := x;
      numItems := numItems + 1;
      write := write + 1;
      if write == sz {
        write := 0;
      }
      e := Ok;
    }

    /** `get(value)`: EMPTY with the caller's value unchanged when empty; otherwise the value
        at `read`, which advances and wraps to 0 at `sz`. */
    method Get(inout: T) returns (e: Status, out: T)
      requires Valid()
      modifies this`read, this`numItems
      ensures Valid()
      ensures (e, out, Contents()) == QueueSpec.Get(old(Contents()), inout)
      ensures e == Empty ==> out == inout && read == old(read) && numItems == old(numItems)
      ensures e == Ok ==> out == buffer[old(read)] && read == Next(old(read), sz)
                          && numItems == old(numItems) - 1
    {
      if numItems == 0 {
        return Empty, inout;
      }
      RingGet(buffer[..], read, write, numItems);
      out := buffer[read];
      numItems := numItems - 1;
      read := read + 1;
      if read == sz {
        read := 0;
      }
      e := Ok;
    }
  }
}
