/**
 * What an endpoint calls and this model does not contain: the clock, rand, the socket and the caller's result
 * functions. What goes out through it is kept in a log, which only the calls themselves add to.
 */
module Environments {
  import opened Bytes
  import opened Engine

  // What recvfrom has answered.
  datatype Reception = Reception(err: int, datagram: seq<byte>)

  class Environment {
    var now: real
    ghost var log: seq<Event>
    ghost var received: seq<Reception>
    ghost var drawn: seq<real>

    constructor ()
      ensures log == [] && received == [] && drawn == []
    {
      now, log, received, drawn := *, [], [], [];
    }

    // mn_gettime: the clock may stand still or advance, by any amount, but does not run backwards.
    method GetTime() returns (t: real)
      modifies this`now
      ensures t == now >= old(now)
    {
      t := *;
      if t < now {
        t := now;
      }
      now := t;
    }

    // rand() / RAND_MAX.
    method RandFraction() returns (f: real)
      modifies this`drawn
      ensures 0.0 <= f <= 1.0 && drawn == old(drawn) + [f]
    {
      f := *;
      if f < 0.0 || f > 1.0 {
        f := 0.0;
      }
      drawn := drawn + [f];
    }

    // mn_socket_sendto: any result. who is the confirmable message the datagram belongs to, if it is one's.
    method SendTo(data: seq<byte>, dest: Addr, ghost who: Option<nat>) returns (err: int, ghost x: Xmission)
      modifies this`log
      ensures x == Xmission(dest, data, now, err) && log == old(log) + [Sent(who, x)]
    {
      err := *;
      x := Xmission(dest, data, now, err);
      log := log + [Sent(who, x)];
    }

    // A result function of the caller's.
    method Call(resultfn: nat, msgid: u16, err: int, ghost about: nat)
      requires resultfn > 1
      modifies this`log
      ensures log == old(log) + [Told(about, Engine.Call(resultfn, msgid, err))]
    {
      log := log + [Told(about, Engine.Call(resultfn, msgid, err))];
    }

    // mn_socket_recvfrom: any result, and on success a datagram that fits the buffer.
    method RecvFrom(room: nat) returns (err: int, datagram: seq<byte>)
      modifies this`received
      ensures |datagram| <= room && received == old(received) + [Reception(err, datagram)]
    {
      err, datagram := *, *;
      if |datagram| > room {
        datagram := datagram[..room];
      }
      received := received + [Reception(err, datagram)];
    }
  }
}
