/** Buffered channels of goroutines. Unbuffered ones are meetings of both sides. */
module Channels {
  /** A buffered channel: what was sent and not yet received, the capacity, and whether it is closed. */
  datatype Channel<T> = Channel(buffer: seq<T>, capacity: nat, closed: bool)
  {
    predicate Full() { |buffer| >= capacity }

    function Send(x: T): Channel<T> { this.(buffer := buffer + [x]) }

    function Receive(): Channel<T>
      requires buffer != []
    {
      this.(buffer := buffer[1..])
    }
  }
}
