/**
 The operating system behind one descriptor, as an environment.

 Every answer the system gives is taken from a script: a sequence of answers fixed in advance and
 consumed one per call.  A statement proved for all scripts is a statement about every behaviour of
 the system: every way of splitting a transfer, every failure and every timeout.  A script that has
 run out answers with failure, which is one more behaviour.
 */
module Kernel {
  import opened Octets

  /** One answer to a transfer call.  `Moves(extra)` moves `1 + extra` bytes, or as many as there is room for. */
  datatype Reply = Moves(extra: nat) | Fails

  /** One answer to `select`: ready, timed out, or an error; and to the question for the out-of-band mark. */
  datatype Ready = Yes | No | Broken

  datatype Error = TimedOut | OsError | OutOfBand

  /** How a member function ends: it returns an int, or throws. */
  datatype Call = Returned(value: int) | Threw(error: Error)

  /** The integer that stands for end of file. */
  const EOF: int := -1

  /** The sending half of the connection: the bytes the system has accepted so far, and its scripts. */
  datatype Outgoing = Outgoing(sent: seq<byte>, writes: seq<Reply>, writable: seq<Ready>)

  /**
   The receiving half: everything the peer will still deliver before it closes, and the scripts for
   `read`, `select` and the out-of-band mark.
   */
  datatype Incoming = Incoming(data: seq<byte>, refills: seq<Reply>, readable: seq<Ready>, marks: seq<Ready>)

  function Head<T>(script: seq<T>, default: T): T {
    if script == [] then default else script[0]
  }

  function Tail<T>(script: seq<T>): seq<T> {
    if script == [] then [] else script[1..]
  }

  /** What `Moves(extra)` amounts to when at most `room` bytes can move. */
  function Granted(extra: nat, room: nat): (n: nat)
    ensures n <= room
    ensures room > 0 ==> n > 0
  {
    if 1 + extra <= room then 1 + extra else room
  }

  /** `::write` and `::send`: accept a non-empty prefix of the data, or return -1. */
  function SysWrite(k: Outgoing, data: seq<byte>): (r: (Outgoing, int))
    ensures r.1 == -1 || 0 <= r.1 <= |data|
    ensures r.1 != -1 && data != [] ==> r.1 > 0
    ensures r.0.sent == k.sent + (if r.1 == -1 then [] else data[..r.1])
  {
    var rest := k.(writes := Tail(k.writes));
    match Head(k.writes, Fails)
    case Fails => (rest, EOF)
    case Moves(extra) =>
      var n := Granted(extra, |data|);
      (rest.(sent := k.sent + data[..n]), n as int)
  }

  /** `::read` and `::recv`: deliver at most `len` bytes; none at end of file; -1 on failure. */
  function SysRead(k: Incoming, len: nat): (r: (Incoming, int))
    ensures r.1 == -1 || (0 <= r.1 <= len && r.1 <= |k.data|)
    ensures r.1 == 0 ==> len == 0 || k.data == []
    ensures r.0.data == if r.1 == -1 then k.data else k.data[r.1..]
  {
    var rest := k.(refills := Tail(k.refills));
    match Head(k.refills, Fails)
    case Fails => (rest, EOF)
    case Moves(extra) =>
      var n := Granted(extra, if len <= |k.data| then len else |k.data|);
      (rest.(data := k.data[n..]), n as int)
  }
}
