/**
 Pipe streams and `fork`: `iopipestream` keeps the streams whose processes have not been forked yet in a
 list, and one `fork` gives each of them its end in the parent and its other end in the child.
 */
module Pipes {
  import opened Basics

  /** The two descriptors of a socket pair: the parent keeps `near`, the child `far`. */
  datatype Pair = Pair(near: int, far: int)

  function Kept(p: Pair, pid: int): int {
    if pid > 0 then p.near else p.far
  }

  function Dropped(p: Pair, pid: int): int {
    if pid > 0 then p.far else p.near
  }

  // ---------------------------------------------------------------------------------------------
  // The list as a value
  // ---------------------------------------------------------------------------------------------

  /** A stream that has got its end; `pid` is what its `fork` returned. */
  datatype Attached = Attached(pair: Pair, pid: int)

  /** One process: its waiting streams, head first, those that have their end, and their open descriptors. */
  datatype State = State(waiting: seq<Pair>, attached: seq<Attached>, open: set<int>)

  function Attach(s: State, pid: int): State
    requires s.waiting != []
  {
    State(s.waiting[1..], s.attached + [Attached(s.waiting[0], pid)], s.open - {Dropped(s.waiting[0], pid)})
  }

  /** `fork` in one of the two processes; `closes` says which calls of `close` succeed. */
  function Drain(s: State, pid: int, closes: seq<bool>): (r: (State, bool))
    ensures r.1 ==> r.0.waiting == []
    decreases |s.waiting|
  {
    if s.waiting == [] then (s, true)
    else if closes == [] || !closes[0] then (s, false)
    else Drain(Attach(s, pid), pid, closes[1..])
  }

  // ---------------------------------------------------------------------------------------------
  // Runs
  // ---------------------------------------------------------------------------------------------

  /** A stream is made; or a fork, of which the process run is the parent if `pid` is positive, else the child. */
  datatype Step = Create(pair: Pair) | Fork(pid: int, closes: seq<bool>)

  function Apply(s: State, step: Step): State {
    match step
    case Create(p) => State([p] + s.waiting, s.attached, s.open + {p.near, p.far})
    case Fork(pid, closes) => if pid == -1 then s else Drain(s, pid, closes).0
  }

  function Run(s: State, steps: seq<Step>): State
    decreases |steps|
  {
    if steps == [] then s else Run(Apply(s, steps[0]), steps[1..])
  }

  /** The system only hands out descriptors that are not open. */
  ghost predicate FreshPairs(s: State, steps: seq<Step>)
    decreases |steps|
  {
    steps == [] ||
    (&& (steps[0].Create? ==>
           var p := steps[0].pair;
           p.near != p.far && p.near !in s.open && p.far !in s.open)
     && FreshPairs(Apply(s, steps[0]), steps[1..]))
  }

  /** Every descriptor in use: both ends of a waiting stream, the kept end of another. */
  function Uses(s: State, fd: int): nat {
    UsesOfWaiting(s.waiting, fd) + UsesOfAttached(s.attached, fd)
  }

  function UsesOfWaiting(ps: seq<Pair>, fd: int): nat {
    if ps == [] then 0
    else (if ps[0].near == fd then 1 else 0) + (if ps[0].far == fd then 1 else 0) + UsesOfWaiting(ps[1..], fd)
  }

  function UsesOfAttached(done: seq<Attached>, fd: int): nat {
    if done == [] then 0
    else UsesOfAttached(done[..|done| - 1], fd) + if Kept(done[|done| - 1].pair, done[|done| - 1].pid) == fd then 1 else 0
  }

  /** Each open descriptor is in use by exactly one stream, once, and nothing else is in use. */
  ghost predicate Sound(s: State) {
    forall fd :: SoundAt(s, fd)
  }

  ghost predicate SoundAt(s: State, fd: int) {
    Uses(s, fd) == if fd in s.open then 1 else 0
  }

  lemma AttachUses(s: State, pid: int, fd: int)
    requires s.waiting != []
    ensures Uses(s, fd) == Uses(Attach(s, pid), fd) + if Dropped(s.waiting[0], pid) == fd then 1 else 0
  {
    var done := s.attached + [Attached(s.waiting[0], pid)];
    assert done[..|done| - 1] == s.attached;
  }

  lemma AttachSound(s: State, pid: int)
    requires Sound(s) && s.waiting != []
    ensures Sound(Attach(s, pid))
  {
    hide Uses;
    forall fd ensures SoundAt(Attach(s, pid), fd) {
      assert SoundAt(s, fd);
      AttachUses(s, pid, fd);
    }
  }

  lemma {:induction false} DrainSound(s: State, pid: int, closes: seq<bool>)
    requires Sound(s)
    ensures Sound(Drain(s, pid, closes).0)
    decreases |s.waiting|
  {
    hide Sound, Attach;
    if s.waiting != [] && closes != [] && closes[0] {
      AttachSound(s, pid);
      AttachLeaves(s, pid);
      DrainSound(Attach(s, pid), pid, closes[1..]);
    }
  }

  lemma AttachLeaves(s: State, pid: int)
    requires s.waiting != []
    ensures Attach(s, pid).waiting == s.waiting[1..]
    ensures Attach(s, pid).attached == s.attached + [Attached(s.waiting[0], pid)]
  {
  }

  lemma DrainStep(s: State, pid: int, closes: seq<bool>)
    ensures Drain(s, pid, closes) ==
              if s.waiting == [] then (s, true)
              else if closes == [] || !closes[0] then (s, false)
              else Drain(Attach(s, pid), pid, closes[1..])
  {
  }

  lemma CreateSound(s: State, p: Pair)
    requires Sound(s) && p.near != p.far && p.near !in s.open && p.far !in s.open
    ensures Sound(Apply(s, Create(p)))
  {
    var s1 := Apply(s, Create(p));
    assert ([p] + s.waiting)[1..] == s.waiting;
    forall fd ensures SoundAt(s1, fd) {
      assert SoundAt(s, fd);
    }
  }

  /** In every reachable state, also after forks whose `close` failed half-way, no descriptor is lost or shared. */
  lemma {:induction false} RunSound(s: State, steps: seq<Step>)
    requires Sound(s) && FreshPairs(s, steps)
    ensures Sound(Run(s, steps))
    decreases |steps|
  {
    hide Sound;
    if steps != [] {
      match steps[0] {
        case Create(p) => CreateSound(s, p);
        case Fork(pid, closes) => DrainSound(s, pid, closes);
      }
      RunSound(Apply(s, steps[0]), steps[1..]);
    }
  }

  lemma NothingIsSound()
    ensures Sound(State([], [], {}))
  {
  }

  // ---------------------------------------------------------------------------------------------
  // The two sides of one fork
  // ---------------------------------------------------------------------------------------------

  function AllAttached(ps: seq<Pair>, pid: int): (r: seq<Attached>)
    ensures |r| == |ps|
    ensures forall i :: 0 <= i < |ps| ==> r[i] == Attached(ps[i], pid)
  {
    if ps == [] then [] else [Attached(ps[0], pid)] + AllAttached(ps[1..], pid)
  }

  /** A fork that fails, or one with no stream waiting, changes nothing. */
  lemma ForkOfNothing(s: State, pid: int, closes: seq<bool>)
    requires pid == -1 || s.waiting == []
    ensures Apply(s, Fork(pid, closes)) == s
  {
  }

  /** It stops only at a `close` that fails, and has then done all before it. */
  lemma {:induction false} DrainSucceeds(s: State, pid: int, closes: seq<bool>) returns (n: nat)
    ensures n <= |s.waiting| && n <= |closes| && Drain(s, pid, closes).0.waiting == s.waiting[n..]
    ensures forall i :: 0 <= i < n ==> closes[i]
    ensures if Drain(s, pid, closes).1 then n == |s.waiting| else n == |closes| || !closes[n]
    decreases |s.waiting|
  {
    DrainStep(s, pid, closes);
    n := 0;
    if s.waiting != [] && closes != [] && closes[0] {
      AttachLeaves(s, pid);
      hide Drain, Attach;
      var rest := closes[1..];
      n := DrainSucceeds(Attach(s, pid), pid, rest);
      assert forall i :: 0 < i < |closes| ==> closes[i] == rest[i - 1];
      n := n + 1;
    }
  }

  /** What a fork without failing `close` comes to: every waiting stream is attached, and its other end closed. */
  lemma {:induction false} DrainAttaches(s: State, pid: int, closes: seq<bool>)
    requires Drain(s, pid, closes).1
    ensures Drain(s, pid, closes).0.attached == s.attached + AllAttached(s.waiting, pid)
    decreases |s.waiting|
  {
    if s.waiting == [] {
      assert s.attached + AllAttached(s.waiting, pid) == s.attached;
    } else {
      var p, rest := s.waiting[0], s.waiting[1..];
      DrainStep(s, pid, closes);
      AttachLeaves(s, pid);
      hide Drain, Attach;
      DrainAttaches(Attach(s, pid), pid, closes[1..]);
      assert AllAttached(s.waiting, pid) == [Attached(p, pid)] + AllAttached(rest, pid);
      hide AllAttached;
      OneMore(s.attached, Attached(p, pid), AllAttached(rest, pid));
    }
  }

  lemma OneMore(a: seq<Attached>, x: Attached, b: seq<Attached>)
    ensures (a + [x]) + b == a + ([x] + b)
  {
  }

  lemma {:induction false} DrainCloses(s: State, pid: int, closes: seq<bool>)
    requires Drain(s, pid, closes).1
    ensures forall fd :: fd in Drain(s, pid, closes).0.open <==>
              fd in s.open && forall p :: p in s.waiting ==> Dropped(p, pid) != fd
    decreases |s.waiting|
  {
    if s.waiting != [] {
      DrainCloses(Attach(s, pid), pid, closes[1..]);
      hide Drain, Dropped;
      var p, rest := s.waiting[0], s.waiting[1..];
      assert forall q :: q in s.waiting <==> q == p || q in rest;
    }
  }

  lemma {:induction false} UsedByWaiting(ps: seq<Pair>, fd: int, k: nat)
    requires k < |ps| && UsesOfWaiting(ps, fd) <= 1 && (ps[k].near == fd || ps[k].far == fd)
    ensures UsesOfWaiting(ps, fd) == 1
    ensures !(ps[k].near == fd && ps[k].far == fd)
    ensures forall j :: 0 <= j < |ps| && j != k ==> ps[j].near != fd && ps[j].far != fd
    decreases |ps|
  {
    if k > 0 {
      UsedByWaiting(ps[1..], fd, k - 1);
      forall j | 1 <= j < |ps| && j != k ensures ps[j].near != fd && ps[j].far != fd {
        assert ps[j] == ps[1..][j - 1];
      }
    } else {
      forall j | 1 <= j < |ps| ensures ps[j].near != fd && ps[j].far != fd {
        if ps[j].near == fd || ps[j].far == fd {
          assert ps[j] == ps[1..][j - 1];
          UsedByWaiting(ps[1..], fd, j - 1);
        }
      }
    }
  }

  /**
   After one fork in which no `close` fails, each stream that was waiting has complementary ends: the parent
   has only the near one, the child only the far one, and each side's buffer is on the end it has.  Streams of
   an earlier fork keep their end in both.
   */
  lemma ForkSplitsPairs(s: State, pid: int, closes: seq<bool>, childCloses: seq<bool>, k: nat)
    requires Sound(s) && pid > 0 && k < |s.waiting|
    requires Drain(s, pid, closes).1 && Drain(s, 0, childCloses).1
    ensures var p, parent, child := s.waiting[k], Drain(s, pid, closes).0, Drain(s, 0, childCloses).0;
            && |parent.attached| == |child.attached| == |s.attached| + |s.waiting|
            && p.near in parent.open && p.far !in parent.open
            && p.far in child.open && p.near !in child.open
            && parent.attached[|s.attached| + k] == Attached(p, pid)
            && child.attached[|s.attached| + k] == Attached(p, 0)
  {
    var p := s.waiting[k];
    hide Drain;
    DrainAttaches(s, pid, closes);
    DrainAttaches(s, 0, childCloses);
    DrainCloses(s, pid, closes);
    DrainCloses(s, 0, childCloses);
    assert SoundAt(s, p.near) && SoundAt(s, p.far);
    UsedByWaiting(s.waiting, p.near, k);
    UsedByWaiting(s.waiting, p.far, k);
    assert p in s.waiting;
  }

  lemma {:induction false} UsedByAttached(done: seq<Attached>, fd: int, k: nat)
    requires k < |done| && Kept(done[k].pair, done[k].pid) == fd
    ensures UsesOfAttached(done, fd) >= 1
    decreases |done|
  {
    if k < |done| - 1 {
      UsedByAttached(done[..|done| - 1], fd, k);
    }
  }

  /** A stream that had its end before keeps it, in either process and even if the fork fails half-way. */
  lemma {:induction false} ForkKeepsEnds(s: State, pid: int, closes: seq<bool>, k: nat)
    requires Sound(s) && k < |s.attached|
    ensures var t := Drain(s, pid, closes).0;
            && k < |t.attached| && t.attached[k] == s.attached[k]
            && Kept(s.attached[k].pair, s.attached[k].pid) in t.open
    decreases |s.waiting|
  {
    if s.waiting != [] && closes != [] && closes[0] {
      AttachSound(s, pid);
      ForkKeepsEnds(Attach(s, pid), pid, closes[1..], k);
    } else {
      assert SoundAt(s, Kept(s.attached[k].pair, s.attached[k].pid));
      UsedByAttached(s.attached, Kept(s.attached[k].pair, s.attached[k].pid), k);
    }
  }

  // ---------------------------------------------------------------------------------------------
  // The list in memory
  // ---------------------------------------------------------------------------------------------

  class IoPipeStream {
    const sp: Pair
    var cpid: int
    var buf: Option<int>
    const next: IoPipeStream?

    constructor (sp: Pair, next: IoPipeStream?)
      ensures this.sp == sp && this.next == next && cpid == -1 && buf == None
    {
      this.sp, this.next, cpid, buf := sp, next, -1, None;
    }
  }

  /** From `head` through `next` one visits `nodes`. */
  ghost predicate Linked(head: IoPipeStream?, nodes: seq<IoPipeStream>) {
    if nodes == [] then head == null
    else head == nodes[0] && Linked(nodes[0].next, nodes[1..])
  }

  ghost function Pairs(nodes: seq<IoPipeStream>): (r: seq<Pair>)
    ensures |r| == |nodes|
  {
    seq(|nodes|, i requires 0 <= i < |nodes| => nodes[i].sp)
  }

  /** The static part: the head of the list and the open descriptors; `nodes` and `attached` describe the rest. */
  class PipeStreams {
    var head: IoPipeStream?
    var open: set<int>
    ghost var nodes: seq<IoPipeStream>
    ghost var attached: seq<Attached>

    constructor ()
      ensures Valid() && Value() == State([], [], {}) && Sound(Value())
    {
      NothingIsSound();
      head, open, nodes, attached := null, {}, [], [];
    }

    ghost predicate Valid()
      reads this
    {
      Linked(head, nodes) && NoDuplicates(nodes)
    }

    ghost function Value(): State
      reads this
    {
      State(Pairs(nodes), attached, open)
    }

    /** The constructor of a stream: `pair` is what `socketpair` made, if it did. */
    method Create(pair: Option<Pair>) returns (p: IoPipeStream?)
      requires Valid()
      modifies this
      ensures Valid()
      ensures pair.None? ==> p == null && Value() == old(Value()) && nodes == old(nodes)
      ensures pair.Some? ==> p != null && fresh(p) && p.cpid == -1 && p.buf == None
      ensures pair.Some? ==> nodes == [p] + old(nodes) && Value() == Apply(old(Value()), Step.Create(pair.value))
    {
      if pair.None? {
        return null;
      }
      p := new IoPipeStream(pair.value, head);
      open := open + {pair.value.near, pair.value.far};
      head := p;
      nodes := [p] + nodes;
      assert nodes[1..] == old(nodes);
      assert Pairs(nodes) == [pair.value] + Pairs(old(nodes));
    }

    /** One turn of either loop: the stream at the head gets its end, and leaves the list. */
    method AttachHead(pid: int)
      requires Valid() && nodes != []
      modifies this, nodes[0]
      ensures Valid() && nodes == old(nodes)[1..] && Value() == Attach(old(Value()), pid)
      ensures old(nodes)[0].cpid == pid && old(nodes)[0].buf == Some(Kept(old(nodes)[0].sp, pid))
    {
      var p := head;
      open := open - {Dropped(p.sp, pid)};
      p.cpid := pid;
      p.buf := Some(Kept(p.sp, pid));
      head := p.next;
      attached := attached + [Attached(p.sp, pid)];
      nodes := nodes[1..];
      assert Pairs(nodes) == Pairs(old(nodes))[1..];
    }

    /**
     `fork`: `pid` is what `fork` returned, `closes` says which calls of `close` succeed.  The streams taken off
     the list have their process and their end; those still on it are as they were.
     */
    method Fork(pid: int, closes: seq<bool>) returns (ok: bool)
      requires Valid() && pid >= -1
      modifies this, nodes
      ensures Valid()
      ensures pid == -1 ==> !ok && Value() == old(Value()) && nodes == old(nodes)
      ensures pid != -1 ==> (Value(), ok) == Drain(old(Value()), pid, closes)
      ensures |nodes| <= |old(nodes)| && nodes == old(nodes)[|old(nodes)| - |nodes|..]
      ensures forall p :: p in old(nodes) ==>
                if p in nodes then p.cpid == old(p.cpid) && p.buf == old(p.buf)
                else p.cpid == pid && p.buf == Some(Kept(p.sp, pid))
    {
      if pid == -1 {
        return false;
      }
      hide Linked, NoDuplicates, Drain, Attach;
      ghost var was, all := nodes, Drain(Value(), pid, closes);
      ghost var i := 0;
      var rest := closes;
      while head != null
        modifies this, was
        invariant Valid() && i <= |was| && nodes == was[i..]
        invariant Drain(Value(), pid, rest) == all
        invariant forall j :: i <= j < |was| ==> was[j].cpid == old(was[j].cpid) && was[j].buf == old(was[j].buf)
        invariant forall j :: 0 <= j < i ==> was[j].cpid == pid && was[j].buf == Some(Kept(was[j].sp, pid))
        decreases |nodes|
      {
        HeadOf(head, nodes);
        DrainStep(Value(), pid, rest);
        if rest == [] || !rest[0] {
          ok := false;
          NotInSuffix(was, i);
          return;
        }
        rest := rest[1..];
        AttachHead(pid);
        i := i + 1;
      }
      ok := true;
      HeadOf(head, nodes);
      DrainStep(Value(), pid, rest);
      NotInSuffix(was, i);
    }
  }

  lemma HeadOf(head: IoPipeStream?, nodes: seq<IoPipeStream>)
    requires Linked(head, nodes)
    ensures head == if nodes == [] then null else nodes[0]
  {
  }

  lemma NotInSuffix(nodes: seq<IoPipeStream>, i: nat)
    requires NoDuplicates(nodes) && i <= |nodes|
    ensures forall j :: 0 <= j < i ==> nodes[j] !in nodes[i..]
    ensures forall j :: i <= j < |nodes| ==> nodes[j] in nodes[i..]
  {
    forall j | i <= j < |nodes| ensures nodes[j] in nodes[i..] {
      assert nodes[i..][j - i] == nodes[j];
    }
  }
}
