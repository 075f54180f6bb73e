/** src/common/udp/UdpClient/UdpClient.cpp: the socket as a transfer loop sees
    it, with its back-off. Datagrams sent and events still to come stand for
    the network. */
module Udp {
  import opened Bytes

  /** What a blocking receive ends with. */
  datatype Event = Expired | Packet(datagram: seq<byte>)

  /** timeout_ and the timeout of the socket, which an option can set apart, in
      seconds, and the time spent so far in receives that expired. */
  datatype Timer = Timer(timeout: nat, socket: nat, waited: nat) {
    function Increased(): Timer {
      Timer(2 * timeout, 2 * timeout, waited)
    }

    function Reset(): Timer {
      Timer(1, 1, waited)
    }

    function Wait(): Timer {
      this.(waited := waited + socket)
    }
  }

  class UdpClient {
    var timeout: nat
    var socketTimeout: nat
    var waited: nat
    var sent: seq<seq<byte>>
    const incoming: seq<Event>
    var position: nat

    ghost predicate Valid()
      reads this
    {
      position <= |incoming|
    }

    function Clock(): Timer
      reads this
    {
      Timer(timeout, socketTimeout, waited)
    }

    constructor (incoming: seq<Event>)
      ensures Valid() && this.incoming == incoming && position == 0
      ensures Clock() == Timer(1, 1, 0) && sent == []
    {
      this.incoming := incoming;
      timeout, socketTimeout, waited, sent, position := 1, 1, 0, [], 0;
    }

    method Send(datagram: seq<byte>)
      modifies `sent
      ensures sent == old(sent) + [datagram]
    {
      sent := sent + [datagram];
    }

    method Receive() returns (event: Event)
      requires Valid() && position < |incoming|
      modifies `position, `waited
      ensures Valid() && position == old(position) + 1
      ensures event == incoming[old(position)]
      ensures Clock() == if event.Expired? then old(Clock()).Wait() else old(Clock())
    {
      event := incoming[position];
      position := position + 1;
      if event == Expired {
        waited := waited + socketTimeout;
      }
    }

    /** Sets the socket only: timeout_ keeps its value. */
    method ChangeTimeout(seconds: nat)
      modifies `socketTimeout
      ensures socketTimeout == seconds
    {
      socketTimeout := seconds;
    }

    method IncreaseTimeout(multiplier: nat := 2)
      modifies `timeout, `socketTimeout
      ensures multiplier == 2 ==> Clock() == old(Clock()).Increased()
      ensures timeout == socketTimeout == multiplier * old(timeout)
    {
      timeout := timeout * multiplier;
      ChangeTimeout(timeout);
    }

    method TimeoutReset()
      modifies `timeout, `socketTimeout
      ensures Clock() == old(Clock()).Reset()
    {
      timeout := 1;
      ChangeTimeout(timeout);
    }
  }
}
