/**
 The children of a process: the list `Fork::ForkProcess::list`, linked through the objects themselves,
 and what the constructor, the destructor and the two signal handlers do to it.
 */
module Fork {
  import opened Basics
  import opened Octets

  /** A child as a value. */
  datatype Child = Child(pid: int, killChild: bool, reason: bool)

  datatype Signal = SIGTERM | SIGKILL

  /** The calls with an effect outside: signals sent, children waited for, and reasons of death reported. */
  datatype Event = Kill(pid: int, signal: Signal) | Wait(pid: int) | Report(pid: int)

  // ---------------------------------------------------------------------------------------------
  // The list as a value
  // ---------------------------------------------------------------------------------------------

  ghost predicate Distinct(cs: seq<Child>) {
    forall i, j :: 0 <= i < j < |cs| ==> cs[i].pid != cs[j].pid
  }

  ghost predicate Living(cs: seq<Child>) {
    forall i :: 0 <= i < |cs| ==> cs[i].pid > 0
  }

  /** The list without the first child of that number. */
  function Remove(cs: seq<Child>, pid: int): (r: seq<Child>) {
    if cs == [] then []
    else if cs[0].pid == pid then cs[1..]
    else [cs[0]] + Remove(cs[1..], pid)
  }

  /** Is the first child of that number to be reported? */
  function Reported(cs: seq<Child>, pid: int): seq<Event> {
    if cs == [] then []
    else if cs[0].pid == pid then (if cs[0].reason then [Report(pid)] else [])
    else Reported(cs[1..], pid)
  }

  /** Exactly the child concerned goes, and the others keep their order. */
  lemma {:induction false} RemoveOne(cs: seq<Child>, pid: int, k: nat)
    requires k < |cs| && cs[k].pid == pid && forall i :: 0 <= i < k ==> cs[i].pid != pid
    ensures Remove(cs, pid) == cs[..k] + cs[k + 1..]
    ensures Reported(cs, pid) == if cs[k].reason then [Report(pid)] else []
  {
    if k > 0 {
      assert cs[0].pid != pid;
      RemoveOne(cs[1..], pid, k - 1);
      assert [cs[0]] + (cs[1..][..k - 1] + cs[1..][k..]) == cs[..k] + cs[k + 1..];
    }
  }

  lemma {:induction false} RemoveNone(cs: seq<Child>, pid: int)
    requires forall i :: 0 <= i < |cs| ==> cs[i].pid != pid
    ensures Remove(cs, pid) == cs && Reported(cs, pid) == []
  {
    if cs != [] {
      RemoveNone(cs[1..], pid);
    }
  }

  lemma DistinctTail(cs: seq<Child>)
    requires Distinct(cs) && cs != []
    ensures Distinct(cs[1..])
  {
    var t := cs[1..];
    forall i, j | 0 <= i < j < |t| ensures t[i].pid != t[j].pid {
      assert cs[i + 1].pid != cs[j + 1].pid;
    }
  }

  /** What the destructor does outside, for a child whose `waitpid` succeeds or not. */
  function Ended(c: Child, waited: bool): seq<Event> {
    (if c.killChild then [Kill(c.pid, SIGTERM)] else [])
    + [Wait(c.pid)] + (if waited && c.reason then [Report(c.pid)] else [])
  }

  /** `commit_suicide`: the events for the whole list; `waits` says which calls of `waitpid` succeed. */
  function Suicide(cs: seq<Child>, waits: seq<bool>): seq<Event> {
    if cs == [] then []
    else
      (if cs[0].killChild then [] else [Kill(cs[0].pid, SIGKILL)])
      + Ended(cs[0], waits != [] && waits[0])
      + Suicide(cs[1..], if waits == [] then [] else waits[1..])
  }

  lemma SuicideStep(log: seq<Event>, cs: seq<Child>, waits: seq<bool>)
    requires cs != []
    ensures var first := (if cs[0].killChild then [] else [Kill(cs[0].pid, SIGKILL)]);
            log + Suicide(cs, waits) ==
              (log + first + Ended(cs[0], waits != [] && waits[0]))
              + Suicide(cs[1..], if waits == [] then [] else waits[1..])
  {
    hide Ended;
    var first := if cs[0].killChild then [] else [Kill(cs[0].pid, SIGKILL)];
    var second := Ended(cs[0], waits != [] && waits[0]);
    var rest := Suicide(cs[1..], if waits == [] then [] else waits[1..]);
    assert Suicide(cs, waits) == first + second + rest;
    hide *;
    Assoc(log, first + second, rest);
    Assoc(log, first, second);
  }

  predicate IsKill(e: Event, pid: int) {
    e.Kill? && e.pid == pid
  }

  function Kills(es: seq<Event>, pid: int): nat {
    if es == [] then 0 else (if IsKill(es[0], pid) then 1 else 0) + Kills(es[1..], pid)
  }

  function Waits(es: seq<Event>, pid: int): nat {
    if es == [] then 0 else (if es[0] == Wait(pid) then 1 else 0) + Waits(es[1..], pid)
  }

  lemma {:induction false} CountAppend(a: seq<Event>, b: seq<Event>, pid: int)
    ensures Kills(a + b, pid) == Kills(a, pid) + Kills(b, pid)
    ensures Waits(a + b, pid) == Waits(a, pid) + Waits(b, pid)
  {
    if a == [] {
      assert a + b == b;
    } else {
      assert (a + b)[1..] == a[1..] + b;
      CountAppend(a[1..], b, pid);
    }
  }

  /** The events of one child: one signal and one wait for it, none for others. */
  lemma OneChild(c: Child, waited: bool, pid: int)
    ensures var es := (if c.killChild then [] else [Kill(c.pid, SIGKILL)]) + Ended(c, waited);
            && Kills(es, pid) == (if c.pid == pid then 1 else 0)
            && Waits(es, pid) == (if c.pid == pid then 1 else 0)
            && Kill(c.pid, if c.killChild then SIGTERM else SIGKILL) in es
  {
    var k := Kill(c.pid, if c.killChild then SIGTERM else SIGKILL);
    var tail := if waited && c.reason then [Report(c.pid)] else [];
    var es := (if c.killChild then [] else [Kill(c.pid, SIGKILL)]) + Ended(c, waited);
    assert es == [k] + ([Wait(c.pid)] + tail);
    assert es[1..] == [Wait(c.pid)] + tail;
    assert es[1..][1..] == tail;
    assert es[0] == k;
    CountAppend([k], [Wait(c.pid)] + tail, pid);
    CountAppend([Wait(c.pid)], tail, pid);
    assert [k][1..] == [] && [Wait(c.pid)][1..] == [];
    if tail != [] {
      assert tail[1..] == [];
    }
  }

  lemma {:induction false} SuicideOthers(cs: seq<Child>, waits: seq<bool>, pid: int)
    requires forall i :: 0 <= i < |cs| ==> cs[i].pid != pid
    ensures Kills(Suicide(cs, waits), pid) == 0 && Waits(Suicide(cs, waits), pid) == 0
    decreases |cs|
  {
    if cs != [] {
      var waited := waits != [] && waits[0];
      var rest := if waits == [] then [] else waits[1..];
      OneChild(cs[0], waited, pid);
      SuicideOthers(cs[1..], rest, pid);
      CountAppend((if cs[0].killChild then [] else [Kill(cs[0].pid, SIGKILL)]) + Ended(cs[0], waited),
                  Suicide(cs[1..], rest), pid);
    }
  }

  /**
   Before the process ends, each child gets exactly one signal, SIGTERM if it was to be killed with its
   parent and SIGKILL otherwise, and is waited for exactly once.
   */
  lemma {:induction false} SuicideEndsEachOnce(cs: seq<Child>, waits: seq<bool>, k: nat)
    requires Distinct(cs) && k < |cs|
    ensures Kills(Suicide(cs, waits), cs[k].pid) == 1
    ensures Waits(Suicide(cs, waits), cs[k].pid) == 1
    ensures Kill(cs[k].pid, if cs[k].killChild then SIGTERM else SIGKILL) in Suicide(cs, waits)
    decreases |cs|
  {
    var waited := waits != [] && waits[0];
    var rest := if waits == [] then [] else waits[1..];
    var pid := cs[k].pid;
    var first := (if cs[0].killChild then [] else [Kill(cs[0].pid, SIGKILL)]) + Ended(cs[0], waited);
    assert Suicide(cs, waits) == first + Suicide(cs[1..], rest);
    hide Suicide, Ended, Kills, Waits;
    OneChild(cs[0], waited, pid);
    CountAppend(first, Suicide(cs[1..], rest), pid);
    DistinctTail(cs);
    if k == 0 {
      forall i | 0 <= i < |cs[1..]| ensures cs[1..][i].pid != pid {
        assert cs[0].pid != cs[i + 1].pid;
      }
      SuicideOthers(cs[1..], rest, pid);
    } else {
      assert cs[0].pid != cs[k].pid;
      SuicideEndsEachOnce(cs[1..], rest, k - 1);
    }
  }

  /** The number of the child, signal, wait and report, in this order and next to each other. */
  lemma {:induction false} SuicideInOrder(cs: seq<Child>, waits: seq<bool>, k: nat) returns (before: seq<Event>, after: seq<Event>)
    requires k < |cs|
    ensures var c := cs[k];
            Suicide(cs, waits) ==
              before
              + ([Kill(c.pid, if c.killChild then SIGTERM else SIGKILL), Wait(c.pid)]
                 + (if k < |waits| && waits[k] && c.reason then [Report(c.pid)] else []))
              + after
    decreases k
  {
    var rest := if waits == [] then [] else waits[1..];
    var first := (if cs[0].killChild then [] else [Kill(cs[0].pid, SIGKILL)]) + Ended(cs[0], waits != [] && waits[0]);
    assert Suicide(cs, waits) == first + Suicide(cs[1..], rest);
    if k == 0 {
      before, after := [], Suicide(cs[1..], rest);
      assert first == [Kill(cs[0].pid, if cs[0].killChild then SIGTERM else SIGKILL), Wait(cs[0].pid)]
                      + (if waits != [] && waits[0] && cs[0].reason then [Report(cs[0].pid)] else []);
      hide Suicide;
      assert [] + first == first;
    } else {
      hide Suicide, Ended;
      var b, a := SuicideInOrder(cs[1..], rest, k - 1);
      before, after := first + b, a;
      OneMore(first, b, [Kill(cs[k].pid, if cs[k].killChild then SIGTERM else SIGKILL), Wait(cs[k].pid)]
                        + (if k < |waits| && waits[k] && cs[k].reason then [Report(cs[k].pid)] else []), a);
    }
  }

  lemma OneMore(a: seq<Event>, b: seq<Event>, c: seq<Event>, d: seq<Event>)
    ensures a + (b + c + d) == (a + b) + c + d
  {
  }

  // ---------------------------------------------------------------------------------------------
  // Runs
  // ---------------------------------------------------------------------------------------------

  /** A fork in the parent, the reaper that finds a child, a destructor. */
  datatype Step = Spawn(child: Child) | Reap(pid: int) | Destroy(pid: int)

  function Apply(cs: seq<Child>, s: Step): seq<Child> {
    match s
    case Spawn(c) => [c] + cs
    case Reap(pid) => Remove(cs, pid)
    case Destroy(pid) => Remove(cs, pid)
  }

  function Run(cs: seq<Child>, steps: seq<Step>): seq<Child> {
    if steps == [] then cs else Apply(Run(cs, steps[..|steps| - 1]), steps[|steps| - 1])
  }

  /** The system does not hand out the number of a child that has not been waited for. */
  ghost predicate FreshPids(steps: seq<Step>)
    decreases |steps|
  {
    steps == [] ||
    (&& FreshPids(steps[..|steps| - 1])
     && (steps[|steps| - 1].Spawn? ==>
           && steps[|steps| - 1].child.pid > 0
           && forall c :: c in Run([], steps[..|steps| - 1]) ==> c.pid != steps[|steps| - 1].child.pid))
  }

  predicate Ends(s: Step, pid: int) {
    (s.Reap? || s.Destroy?) && s.pid == pid
  }

  /** Spawned at step `i` and not reaped or destroyed since. */
  ghost predicate AliveSince(steps: seq<Step>, i: int, c: Child) {
    0 <= i < |steps| && steps[i] == Spawn(c) && forall j :: i < j < |steps| ==> !Ends(steps[j], c.pid)
  }

  lemma {:induction false} RemoveSubset(cs: seq<Child>, pid: int)
    requires Distinct(cs)
    ensures Distinct(Remove(cs, pid))
    ensures forall c :: c in Remove(cs, pid) <==> c in cs && c.pid != pid
    decreases |cs|
  {
    if cs != [] {
      DistinctTail(cs);
      RemoveSubset(cs[1..], pid);
      var r := Remove(cs[1..], pid);
      assert forall c :: c in cs <==> c == cs[0] || c in cs[1..];
      if cs[0].pid == pid {
        forall c | c in cs[1..] ensures c.pid != pid {
          var i :| 0 <= i < |cs[1..]| && cs[1..][i] == c;
          assert cs[0].pid != cs[i + 1].pid;
        }
      } else {
        forall i, j | 0 <= i < j < |[cs[0]] + r| ensures ([cs[0]] + r)[i].pid != ([cs[0]] + r)[j].pid {
          if i == 0 {
            assert r[j - 1] in cs[1..];
            var m :| 0 <= m < |cs[1..]| && cs[1..][m] == r[j - 1];
            assert cs[0].pid != cs[m + 1].pid;
          } else {
            assert r[i - 1].pid != r[j - 1].pid;
          }
        }
      }
    }
  }

  /**
   In every reachable state the list has no number twice and only positive ones, and it holds exactly
   the children that were spawned and have been neither reaped nor destroyed since.
   */
  lemma {:induction false} ListIsTheLiving(steps: seq<Step>)
    requires FreshPids(steps)
    ensures Distinct(Run([], steps)) && Living(Run([], steps))
    ensures forall c :: c in Run([], steps) <==> exists i :: AliveSince(steps, i, c)
    decreases |steps|
  {
    if steps != [] {
      var before, s := steps[..|steps| - 1], steps[|steps| - 1];
      var cs, r := Run([], before), Run([], steps);
      ListIsTheLiving(before);
      match s {
        case Spawn(d) =>
          assert forall c :: c in r <==> c == d || c in cs;
          forall i, j | 0 <= i < j < |r| ensures r[i].pid != r[j].pid {
            assert r[j] == cs[j - 1];
            if i > 0 { assert r[i] == cs[i - 1]; }
          }
        case Reap(pid) => RemoveSubset(cs, pid);
        case Destroy(pid) => RemoveSubset(cs, pid);
      }
      forall c ensures c in r <==> exists i :: AliveSince(steps, i, c) {
        AliveStep(steps, before, c, cs, r);
      }
      forall i | 0 <= i < |r| ensures r[i].pid > 0 {
        assert r[i] in r;
        if s.Spawn? && r[i] == s.child {
        } else {
          assert r[i] in cs;
        }
      }
    }
  }

  lemma AliveStep(steps: seq<Step>, before: seq<Step>, c: Child, cs: seq<Child>, r: seq<Child>)
    requires steps != [] && before == steps[..|steps| - 1]
    requires c in cs <==> exists i :: AliveSince(before, i, c)
    requires match steps[|steps| - 1]
             case Spawn(d) => c in r <==> c == d || c in cs
             case Reap(pid) => c in r <==> c in cs && c.pid != pid
             case Destroy(pid) => c in r <==> c in cs && c.pid != pid
    ensures c in r <==> exists i :: AliveSince(steps, i, c)
  {
    var n := |steps| - 1;
    if c in r {
      if steps[n] == Spawn(c) {
        assert AliveSince(steps, n, c);
      } else {
        var i :| AliveSince(before, i, c);
        assert AliveSince(steps, i, c);
      }
    }
    if i :| AliveSince(steps, i, c) {
      if i < n {
        assert AliveSince(before, i, c);
        assert !Ends(steps[n], c.pid);
      }
    }
  }

  // ---------------------------------------------------------------------------------------------
  // The list in memory
  // ---------------------------------------------------------------------------------------------

  class ForkProcess {
    var pid: int
    const killChild: bool
    const reason: bool
    var next: ForkProcess?

    constructor (kill: bool, giveReason: bool)
      ensures killChild == kill && reason == giveReason && next == null
    {
      pid := 0;
      killChild, reason, next := kill, giveReason, null;
    }

    function Value(): Child
      reads this`pid
    {
      Child(pid, killChild, reason)
    }
  }

  ghost function NextOf(nodes: seq<ForkProcess>, i: nat): ForkProcess?
    requires i < |nodes|
  {
    if i + 1 < |nodes| then nodes[i + 1] else null
  }

  /** Following `next` from `head` visits `nodes`. */
  ghost predicate Linked(head: ForkProcess?, nodes: seq<ForkProcess>)
    reads nodes`next
  {
    && head == (if nodes == [] then null else nodes[0])
    && forall i {:trigger nodes[i].next} :: 0 <= i < |nodes| ==> nodes[i].next == NextOf(nodes, i)
  }

  /** The nodes hold these children. */
  ghost predicate Hold(nodes: seq<ForkProcess>, cs: seq<Child>)
    reads nodes`pid
  {
    |cs| == |nodes| && forall i {:trigger nodes[i].pid} {:trigger cs[i]} :: 0 <= i < |nodes| ==> cs[i] == nodes[i].Value()
  }

  /** A sequence without the element at `k`. */
  function Without<T>(s: seq<T>, k: nat): (r: seq<T>)
    requires k < |s|
  {
    s[..k] + s[k + 1..]
  }

  /** Leaving out one child is what a `Destroy` or `Reap` of its number does. */
  lemma WithoutIsRemove(cs: seq<Child>, k: nat)
    requires Distinct(cs) && k < |cs|
    ensures Without(cs, k) == Remove(cs, cs[k].pid)
  {
    RemoveOne(cs, cs[k].pid, k);
  }

  lemma WithoutAt<T>(s: seq<T>, k: nat, i: nat)
    requires k < |s| && i < |s| - 1
    ensures |Without(s, k)| == |s| - 1
    ensures Without(s, k)[i] == s[if i < k then i else i + 1]
  {
  }

  lemma WithoutFirst<T>(s: seq<T>)
    requires s != []
    ensures Without(s, 0) == s[1..]
  {
  }

  lemma FirstIndex<T>(s: seq<T>, k: nat)
    requires NoDuplicates(s) && k < |s| && s[k] == s[0]
    ensures k == 0
  {
  }

  /** Leaving out one node keeps the others distinct, and that node is gone. */
  lemma WithoutNoDuplicates<T>(s: seq<T>, k: nat)
    requires k < |s| && NoDuplicates(s)
    ensures NoDuplicates(Without(s, k)) && s[k] !in Without(s, k)
  {
    var r := Without(s, k);
    forall i, j | 0 <= i < j < |r| ensures r[i] != r[j] {
      WithoutAt(s, k, i);
      WithoutAt(s, k, j);
    }
  }

  lemma WithoutHold(nodes: seq<ForkProcess>, cs: seq<Child>, k: nat)
    requires k < |nodes| && Hold(nodes, cs)
    ensures Hold(Without(nodes, k), Without(cs, k))
  {
    forall i | 0 <= i < |nodes| - 1 ensures Without(cs, k)[i] == Without(nodes, k)[i].Value() {
      WithoutAt(nodes, k, i);
      WithoutAt(cs, k, i);
    }
  }

  lemma WithoutLiving(cs: seq<Child>, k: nat)
    requires k < |cs| && Living(cs)
    ensures Living(Without(cs, k))
  {
  }

  lemma LinkedAt(head: ForkProcess?, nodes: seq<ForkProcess>, i: nat)
    requires Linked(head, nodes) && i < |nodes|
    ensures head == nodes[0] && nodes[i].next == NextOf(nodes, i)
  {
  }

  lemma LinkedHead(head: ForkProcess?, nodes: seq<ForkProcess>)
    requires Linked(head, nodes)
    ensures head == if nodes == [] then null else nodes[0]
  {
  }

  lemma LinkedFront(p: ForkProcess, head: ForkProcess?, nodes: seq<ForkProcess>)
    requires Linked(head, nodes) && p.next == head
    ensures Linked(p, [p] + nodes)
  {
  }

  lemma LinkedRest(head: ForkProcess?, nodes: seq<ForkProcess>)
    requires Linked(head, nodes) && nodes != []
    ensures Linked(nodes[0].next, Without(nodes, 0))
  {
    LinkedWithout(nodes, 0);
  }

  /** The list is linked again once the node before `k` skips it. */
  lemma LinkedWithout(nodes: seq<ForkProcess>, k: nat)
    requires k < |nodes|
    requires forall j {:trigger nodes[j].next} :: 0 <= j < |nodes| ==>
               nodes[j].next == NextOf(nodes, if j + 1 == k then k else j)
    ensures Linked(if k == 0 then NextOf(nodes, 0) else nodes[0], Without(nodes, k))
  {
    var r := Without(nodes, k);
    forall i | 0 <= i < |r| ensures r[i].next == NextOf(r, i) {
      WithoutAt(nodes, k, i);
      if i + 1 < |r| {
        WithoutAt(nodes, k, i + 1);
      }
    }
  }

  /** The static members: the head of the list and the outside world; `nodes` and `children` describe the list. */
  class Processes {
    var list: ForkProcess?
    var log: seq<Event>
    var waits: seq<bool>
    var reaperInstalled: bool
    var suicideInstalled: bool
    ghost var nodes: seq<ForkProcess>
    ghost var children: seq<Child>

    constructor (waits: seq<bool>)
      ensures Valid() && children == [] && log == []
    {
      list, log, nodes, children := null, [], [], [];
      this.waits := waits;
      reaperInstalled, suicideInstalled := false, false;
    }

    /** From `list` through `next` one visits `nodes`: no cycle, no node twice, only living children. */
    ghost predicate Valid()
      reads this`list, this`nodes, this`children, nodes
    {
      Linked(list, nodes) && NoDuplicates(nodes) && Hold(nodes, children) && Living(children)
    }

    /** `reap_child` */
    method ReapChild(p: ForkProcess)
      modifies this`log, this`waits
      ensures p.pid > 0 ==>
                && log == old(log) + [Wait(p.pid)]
                          + (if old(waits) != [] && old(waits)[0] && p.reason then [Report(p.pid)] else [])
                && waits == if old(waits) == [] then [] else old(waits)[1..]
      ensures p.pid <= 0 ==> log == old(log) && waits == old(waits)
    {
      if p.pid > 0 {
        log := log + [Wait(p.pid)];
        var ok := waits != [] && waits[0];
        waits := if waits == [] then [] else waits[1..];
        if ok && p.reason {
          log := log + [Report(p.pid)];
        }
      }
    }

    /**
     The destructor.  A living child is signalled if it is to die with its parent, waited for, and taken out
     of the list, where it was at index `k`; otherwise nothing happens.
     */
    method Delete(p: ForkProcess, ghost k: nat)
      requires p.pid > 0 ==> Valid() && k < |nodes| && nodes[k] == p
      modifies this`list, this`nodes, this`children, this`log, this`waits, nodes`next
      ensures old(p.pid) <= 0 ==>
                && list == old(list) && nodes == old(nodes) && children == old(children)
                && log == old(log) && waits == old(waits) && unchanged(nodes)
      ensures old(p.pid) > 0 ==>
                && Valid() && nodes == Without(old(nodes), k) && children == Without(old(children), k)
                && log == old(log) + Ended(old(p.Value()), old(waits) != [] && old(waits)[0])
                && waits == if old(waits) == [] then [] else old(waits)[1..]
      ensures old(p.pid) > 0 && Distinct(old(children)) ==> children == Apply(old(children), Destroy(old(p.pid)))
    {
      if p.pid > 0 {
        assert children[k] == p.Value();
        ghost var cs := children;
        if Distinct(cs) {
          WithoutIsRemove(cs, k);
        }
        hide Remove, Distinct, Hold, Living, Without;
        End(p, k);
      }
    }

    method End(p: ForkProcess, ghost k: nat)
      requires p.pid > 0 && Valid() && k < |nodes| && nodes[k] == p
      modifies this`list, this`nodes, this`children, this`log, this`waits, nodes`next
      ensures Valid() && nodes == Without(old(nodes), k) && children == Without(old(children), k)
      ensures log == old(log) + Ended(old(p.Value()), old(waits) != [] && old(waits)[0])
      ensures waits == if old(waits) == [] then [] else old(waits)[1..]
    {
      hide Valid, Without;
      if p.killChild {
        log := log + [Kill(p.pid, SIGTERM)];
      }
      ReapChild(p);
      Unlink(p, k);
    }

    /** Take a node out of the list: the head moves, or the predecessor is found and skips the node. */
    method Unlink(p: ForkProcess, ghost k: nat)
      requires Valid() && k < |nodes| && nodes[k] == p
      modifies this`list, this`nodes, this`children, nodes`next
      ensures Valid() && nodes == Without(old(nodes), k) && children == Without(old(children), k)
    {
      Bypass(p, k);
      Forget(k);
    }

    method Bypass(p: ForkProcess, ghost k: nat)
      requires Linked(list, nodes) && NoDuplicates(nodes) && k < |nodes| && nodes[k] == p
      modifies this`list, nodes`next
      ensures Linked(list, Without(nodes, k))
    {
      hide Linked, NextOf, NoDuplicates, Without;
      LinkedAt(list, nodes, 0);
      if list == p {
        FirstIndex(nodes, k);
        LinkedRest(list, nodes);
        list := list.next;
      } else {
        var q := Predecessor(p, k);
        Splice(q, p, nodes, k);
      }
    }

    /** The description of the list without the node that is no longer linked. */
    ghost method Forget(k: nat)
      requires k < |nodes| && Linked(list, Without(nodes, k))
      requires NoDuplicates(nodes) && Hold(nodes, children) && Living(children)
      modifies this`nodes, this`children
      ensures Valid() && nodes == Without(old(nodes), k) && children == Without(old(children), k)
    {
      hide Linked, NoDuplicates, Hold, Living;
      WithoutNoDuplicates(nodes, k);
      HoldLength(nodes, children);
      WithoutHold(nodes, children, k);
      WithoutLiving(children, k);
      nodes, children := Without(nodes, k), Without(children, k);
    }

    /** `q->next = p->next` for the predecessor `q` of `p` */
    method Splice(q: ForkProcess, p: ForkProcess, ghost was: seq<ForkProcess>, ghost k: nat)
      requires 0 < k < |was| && was[k] == p && was[k - 1] == q
      requires Linked(list, was) && NoDuplicates(was)
      modifies q`next
      ensures Linked(list, Without(was, k))
    {
      q.next := p.next;
      LinkedWithout(was, k);
    }

    /** The loop of the destructor, up to the node whose `next` is `p`. */
    method Predecessor(p: ForkProcess, ghost k: nat) returns (q: ForkProcess)
      requires Linked(list, nodes) && NoDuplicates(nodes) && 0 < k < |nodes| && nodes[k] == p
      ensures q == nodes[k - 1]
    {
      hide Linked;
      ghost var i := 0;
      LinkedAt(list, nodes, 0);
      q := list;
      while true
        invariant 0 <= i < k && q == nodes[i]
        decreases k - i
      {
        LinkedAt(list, nodes, i);
        if q.next == p {
          break;
        }
        q := q.next;
        i := i + 1;
      }
    }

    /**
     The constructor: `result` is what `fork` returned.  The parent puts the new child at the front; the
     child empties the list it has inherited, with no signal sent and nobody waited for.
     */
    method Spawn(kill: bool, giveReason: bool, result: int) returns (p: ForkProcess)
      requires Valid()
      modifies this, nodes
      ensures Valid() && fresh(p) && p.Value() == Child(result, kill, giveReason)
      ensures result > 0 ==> nodes == [p] + old(nodes) && children == [p.Value()] + old(children)
      ensures result == 0 ==> nodes == [] && children == []
      ensures result < 0 ==> nodes == old(nodes) && children == old(children)
      ensures log == old(log) && waits == old(waits)
      ensures reaperInstalled == (old(reaperInstalled) || old(list) == null)
      ensures suicideInstalled == (old(suicideInstalled) || (result == 0 && kill))
    {
      hide Linked, Hold, Living;
      p := new ForkProcess(kill, giveReason);
      if list == null {
        reaperInstalled := true;
      }
      p.pid := result;
      if result > 0 {
        PushFront(p);
      } else if result == 0 {
        ClearList();
        if kill {
          suicideInstalled := true;
        }
      }
    }

    method PushFront(p: ForkProcess)
      requires Valid() && p !in nodes && p.pid > 0
      modifies this`list, this`nodes, this`children, p`next
      ensures Valid() && nodes == [p] + old(nodes) && children == [p.Value()] + old(children)
    {
      p.next := list;
      LinkedFront(p, list, nodes);
      list := p;
      nodes, children := [p] + nodes, [p.Value()] + children;
    }

    /** The child's side of `fork`: every node gets the number 0, so that its destructor does nothing. */
    method ClearList()
      requires Valid()
      modifies this`list, this`nodes, this`children, this`log, this`waits, nodes
      ensures Valid() && nodes == [] && children == []
      ensures log == old(log) && waits == old(waits)
    {
      ghost var was := nodes;
      ghost var i := 0;
      var p := list;
      while p != null
        modifies this`list, this`nodes, this`children, this`log, this`waits, was
        invariant 0 <= i <= |was| && p == (if i < |was| then was[i] else null)
        invariant nodes == was && log == old(log) && waits == old(waits)
        invariant forall j {:trigger was[j].next} :: 0 <= j < |was| ==> was[j].next == NextOf(was, j)
        decreases |was| - i
      {
        var nxt := p.next;
        p.pid := 0;
        Delete(p, 0);
        p := nxt;
        i := i + 1;
      }
      list := null;
      nodes, children := [], [];
    }

    /**
     The handler of SIGCHLD: `wpid` is what `waitpid` returned.  The node of that child goes; its number
     is -1 from then on, so that its destructor does nothing.
     */
    method Reaper(isChild: bool, wpid: int)
      requires Valid()
      modifies this`list, this`nodes, this`children, this`log, this`waits, nodes
      ensures Valid() && waits == old(waits)
      ensures !isChild || wpid <= 0 ==> nodes == old(nodes) && children == old(children) && log == old(log)
      ensures isChild && wpid > 0 ==>
                && children == Remove(old(children), wpid)
                && log == old(log) + Reported(old(children), wpid)
    {
      if !isChild || wpid <= 0 {
        return;
      }
      ghost var was := nodes;
      ghost var i := 0;
      var prev: ForkProcess?, cur := null, list;
      while cur != null
        invariant 0 <= i <= |was| && cur == (if i < |was| then was[i] else null)
        invariant prev == if i == 0 then null else was[i - 1]
        invariant forall j :: 0 <= j < i ==> children[j].pid != wpid
        decreases |was| - i
      {
        assert cur.pid == children[i].pid;
        if cur.pid == wpid {
          Reaped(prev, cur, wpid, i);
          return;
        }
        prev, cur := cur, cur.next;
        i := i + 1;
      }
      RemoveNone(children, wpid);
    }

    /** The node `cur` of a child that is no more. */
    method Reaped(prev: ForkProcess?, cur: ForkProcess, wpid: int, ghost k: nat)
      requires Valid() && k < |nodes| && cur == nodes[k] && prev == (if k == 0 then null else nodes[k - 1])
      requires cur.pid == wpid && forall j :: 0 <= j < k ==> children[j].pid != wpid
      modifies this`list, this`nodes, this`children, this`log, this`waits, nodes`next, cur`pid
      ensures Valid() && waits == old(waits)
      ensures children == Remove(old(children), wpid)
      ensures log == old(log) + Reported(old(children), wpid)
    {
      assert children[k] == cur.Value();
      RemoveOne(children, wpid, k);
      hide Linked, NoDuplicates, Hold, Living, Remove, Reported;
      Cut(prev, cur, k);
      if cur.reason {
        log := log + [Report(wpid)];
      }
      Delete(cur, 0);
    }

    /** Mark the node and take it out of the list. */
    method Cut(prev: ForkProcess?, cur: ForkProcess, ghost k: nat)
      requires Valid() && k < |nodes| && cur == nodes[k] && prev == (if k == 0 then null else nodes[k - 1])
      modifies this`list, this`nodes, this`children, nodes`next, cur`pid
      ensures Valid() && cur.pid == -1 && nodes == Without(old(nodes), k) && children == Without(old(children), k)
    {
      CutLink(prev, cur, k);
      Forget(k);
      Mark(cur);
    }

    method Mark(cur: ForkProcess)
      requires Valid() && cur !in nodes
      modifies cur`pid
      ensures Valid() && cur.pid == -1
    {
      hide Linked, NoDuplicates, Living;
      cur.pid := -1;
    }

    /** `prev->next = cur->next`, or the head moves if there is no `prev`. */
    method CutLink(prev: ForkProcess?, cur: ForkProcess, ghost k: nat)
      requires Linked(list, nodes) && NoDuplicates(nodes) && k < |nodes|
      requires cur == nodes[k] && prev == (if k == 0 then null else nodes[k - 1])
      modifies this`list, nodes`next
      ensures Linked(list, Without(nodes, k)) && cur !in Without(nodes, k)
    {
      hide Linked, NextOf, Without, NoDuplicates;
      WithoutNoDuplicates(nodes, k);
      if prev != null {
        Splice(prev, cur, nodes, k);
      } else {
        LinkedAt(list, nodes, 0);
        LinkedRest(list, nodes);
        list := list.next;
      }
    }

    /** The handler of the signal to die: each child is killed, by its destructor or before, and waited for. */
    method CommitSuicide()
      requires Valid()
      modifies this`list, this`nodes, this`children, this`log, this`waits, nodes`next
      ensures Valid() && nodes == [] && children == []
      ensures log == old(log) + Suicide(old(children), old(waits))
    {
      ghost var all := log + Suicide(children, waits);
      ghost var was := nodes;
      ghost var i := 0;
      var p := list;
      while p != null
        modifies this`list, this`nodes, this`children, this`log, this`waits, was`next
        invariant Valid() && p == list && i <= |was| && nodes == was[i..]
        invariant log + Suicide(children, waits) == all
        decreases |was| - i
      {
        LinkedAt(list, nodes, 0);
        var next := p.next;
        SuicideStep(log, children, waits);
        Doom(p);
        p := next;
        i := i + 1;
      }
    }

    /** One turn of the loop. */
    method Doom(p: ForkProcess)
      requires Valid() && nodes != [] && p == nodes[0]
      modifies this`list, this`nodes, this`children, this`log, this`waits, nodes`next
      ensures Valid() && nodes == old(nodes)[1..] && list == old(p.next) && children == old(children)[1..]
      ensures log == old(log) + (if p.killChild then [] else [Kill(p.pid, SIGKILL)])
                     + Ended(p.Value(), old(waits) != [] && old(waits)[0])
      ensures waits == if old(waits) == [] then [] else old(waits)[1..]
    {
      LinkedAt(list, nodes, 0);
      hide Linked, Hold, Living, NoDuplicates, Ended, Without;
      ghost var log0 := log;
      if !p.killChild {
        log := log + [Kill(p.pid, SIGKILL)];
      } else {
        assert log0 + [] == log0;
      }
      WithoutFirst(nodes);
      WithoutFirst(children);
      Delete(p, 0);
      LinkedHead(list, nodes);
    }
  }

  lemma HoldLength(nodes: seq<ForkProcess>, cs: seq<Child>)
    requires Hold(nodes, cs)
    ensures |cs| == |nodes|
  {
  }
}
