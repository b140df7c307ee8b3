/** The Lamport clock of one process. */
module LamportClock {
  import opened Words

  /** The counter after receiving `remote`. */
  function Received(counter: uint64, remote: uint64): uint64 {
    Inc64(if counter < remote then remote else counter)
  }

  class Clock {
    var counter: uint64

    constructor ()
      ensures counter == 0
    {
      counter := 0;
    }

    constructor At(start: uint64)
      ensures counter == start
    {
      counter := start;
    }

    method Tick() returns (t: uint64)
      modifies this
      ensures t == (old(counter) + 1) % 0x1_0000_0000_0000_0000
      ensures t == counter == Inc64(old(counter))
    {
      counter := Inc64(counter);
      t := counter;
    }

    method Send() returns (t: uint64)
      modifies this
      ensures t == (old(counter) + 1) % 0x1_0000_0000_0000_0000
      ensures t == counter == Inc64(old(counter))
    {
      counter := Inc64(counter);
      t := counter;
    }

    method Receive(remote: uint64) returns (t: uint64)
      modifies this
      ensures remote <= old(counter) ==> t == (old(counter) + 1) % 0x1_0000_0000_0000_0000
      ensures remote >= old(counter) ==> t == (remote + 1) % 0x1_0000_0000_0000_0000
      ensures t == counter == Received(old(counter), remote)
    {
      counter := Inc64(if counter < remote then remote else counter);
      t := counter;
    }
  }

  /** A receive is later than both clocks, by exactly one, unless the larger counter is the last `uint64`. */
  lemma ReceiveIncreasesIff(counter: uint64, remote: uint64)
    ensures (Received(counter, remote) > counter && Received(counter, remote) > remote)
            <==> (counter < TWO64 - 1 && remote < TWO64 - 1)
  {
  }
}
