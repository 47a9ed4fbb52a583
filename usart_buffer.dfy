/** The C ring buffer of the USART driver: four `uint32_t` slots and the module-static indices
    `next_in`, `next_out` and `num_items`. The module's state is one object of this class. */
module UsartBuffer {

  import opened QueueSpec

  /** `USART_BUFFER_SIZE`. */
  const BufferSize: nat := 4

  type Uint32 = x: int | 0 <= x < 0x1_0000_0000

  class UsartBuffer {
    const buffer: array<Uint32>
    var nextIn: nat
    var nextOut: nat
    var numItems: nat

    ghost predicate Valid()
      reads this
    {
      buffer.Length == BufferSize && RingIndices(BufferSize, nextOut, nextIn, numItems)
    }

    /** The buffered values, oldest first. */
    ghost function Contents(): (s: seq<Uint32>)
      reads this, buffer
      requires Valid()
      ensures |s| == numItems <= BufferSize
    {
      RingContents(buffer[..], nextOut, numItems)
    }

    /** The static initialisers: a zeroed array, both indices and the count at 0. */
    constructor ()
      ensures Valid() && fresh(buffer) && Contents() == []
      ensures nextIn == 0 && nextOut == 0
    {
      buffer := new Uint32[BufferSize](_ => 0);
      nextIn, nextOut, numItems := 0, 0, 0;
    }

    /** `usart_buffer_init()` has an empty body: it changes nothing. */
    method Init()
      requires Valid()
      ensures Valid() && Contents() == old(Contents())
    {
    }

    /** `usart_buffer_add(to_store)`: FULL without storing when all four slots are used;
        otherwise stored at `next_in`, which advances and wraps to 0. */
    method Add(x: Uint32) returns (e: Status)
      requires Valid()
      modifies this, buffer
      ensures Valid()
      ensures (e, Contents()) == QueueSpec.Add(old(Contents()), BufferSize, x)
      ensures e == Full ==> nextIn == old(nextIn) && nextOut == old(nextOut)
                            && numItems == old(numItems) && buffer[..] == old(buffer[..])
      ensures e == Ok ==> buffer[..] == old(buffer[..])[old(nextIn) := x] && nextOut == old(nextOut)
                          && nextIn == Next(old(nextIn), BufferSize) && numItems == old(numItems) + 1
    {
      if numItems == BufferSize {
        return Full;
      }
      RingAdd(buffer[..], nextOut, nextIn, numItems, x);
      buffer[nextIn] := x;
      nextIn := nextIn + 1;
      numItems := numItems + 1;
      if nextIn == BufferSize {
        nextIn := 0;
      }
      e := Ok;
    }

    /** `usart_buffer_get(value)`: EMPTY with `*value` untouched when empty; otherwise the
        value at `next_out`, which advances and wraps to 0. */
    method Get(inout: Uint32) returns (e: Status, out: Uint32)
      requires Valid()
      modifies this`nextOut, this`numItems
      ensures Valid()
      ensures (e, out, Contents()) == QueueSpec.Get(old(Contents()), inout)
      ensures e == Empty ==> out == inout && nextOut == old(nextOut) && numItems == old(numItems)
      ensures e == Ok ==> out == buffer[old(nextOut)] && nextOut == Next(old(nextOut), BufferSize)
                          && numItems == old(numItems) - 1
    {
      if numItems == 0 {
        return Empty, inout;
      }
      RingGet(buffer[..], nextOut, nextIn, numItems);
      out := buffer[nextOut];
      nextOut := nextOut + 1;
      numItems := numItems - 1;
      if nextOut == BufferSize {
        nextOut := 0;
      }
      e := Ok;
    }

    /** `usart_buffer_is_empty()`. */
    method IsEmpty() returns (empty: bool)
      requires Valid()
      ensures empty <==> Contents() == []
    {
      empty := numItems == 0;
    }
  }
}
