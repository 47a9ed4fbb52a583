/** `FeabhOS::Utility::FIFO<T, sz>` of the C++14 library: a `std::array` ring with read and
    write iterators (modelled as offsets from `begin(buffer)`) and an item count. */
module Fifo14 {

  import opened QueueSpec

  class Fifo<T> {
    /** The template parameter `sz`. */
    const sz: nat
    const buffer: array<T>
    var read: nat
    var write: nat
    var numItems: nat

    ghost predicate Valid()
      reads this
    {
      buffer.Length == sz && RingIndices(sz, read, write, numItems)
    }

    /** The queued elements, oldest first. */
    ghost function Contents(): (s: seq<T>)
      reads this, buffer
      requires Valid()
      ensures |s| == numItems <= sz
    {
      RingContents(buffer[..], read, numItems)
    }

    /** The default member initialisers: a value-initialised array (`init` is `T{}`) with both
        iterators at `begin` and no items. */
    constructor (size: nat, init: T)
      ensures Valid() && fresh(buffer) && sz == size
      ensures Contents() == [] && read == 0 && write == 0
    {
      sz := size;
      buffer := new T[size](_ => init);
      read, write, numItems := 0, 0, 0;
    }

    method IsEmpty() returns (empty: bool)
      requires Valid()
      ensures empty <==> Contents() == []
    {
      empty := numItems == 0;
    }

    method Size() returns (n: nat)
      requires Valid()
      ensures n == |Contents()| && n <= sz
    {
      n := numItems;
    }

    method Capacity() returns (n: nat)
      requires Valid()
      ensures n == sz && |Contents()| <= n
    {
      n := sz;
    }

    /** `add(in_val)`: FULL and no change when full; otherwise stored at `write`, which
        advances and wraps to `begin`. */
    method Add(x: T) returns (e: Status)
      requires Valid()
      modifies this, buffer
      ensures Valid()
      ensures (e, Contents()) == QueueSpec.Add(old(Contents()), sz, x)
      ensures e == Full ==> read == old(read) && write == old(write) && numItems == old(numItems)
                            && buffer[..] == old(buffer[..])
      ensures e == Ok ==> buffer[..] == old(buffer[..])[old(write) := x] && read == old(read)
                          && write == Next(old(write), sz) && numItems == old(numItems) + 1
    {
      if numItems == sz {
        return Full;
      }
      RingAdd(buffer[..], read, write, numItems, x);
      buffer[write] := x;
      numItems := numItems + 1;
      write := write + 1;
      if write == sz {
        write := 0;
      }
      e := Ok;
    }

    /** `get(inout_val)`: EMPTY with the caller's value unchanged when empty; otherwise the
        value at `read`, which advances and wraps to `begin`. The `std::move` out of the
        slot is modelled as a copy. */
    method Get(inout: T) returns (e: Status, out: T)
      requires Valid()
      modifies this
      ensures Valid() && buffer[..] == old(buffer[..]) && write == old(write)
      ensures (e, out, Contents()) == QueueSpec.Get(old(Contents()), inout)
      ensures e == Empty ==> out == inout && read == old(read) && numItems == old(numItems)
      ensures e == Ok ==> out == old(buffer[read]) && read == Next(old(read), sz)
                          && numItems == old(numItems) - 1
    {
      if numItems == 0 {
        return Empty, inout;
      }
      RingGet(buffer[..], read, write, numItems);
      out := buffer[read];
      numItems := numItems - 1;
      read := read + 1;
      if read == sz {
        read := 0;
      }
      e := Ok;
    }
  }
}
