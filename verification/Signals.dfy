/**
 The signal registry `sig`: for each signal a list of handler objects, kept in agreement with the
 dispositions and masks of the system, over every order of `set`, `unset`, `mask` and `unmask`.
 */
module Signals {
  import opened Basics

  /** A pointer to a handler object; 0 is the null pointer. */
  type Hnd = nat

  datatype Action = Default | Ours | Other(id: nat)

  /** What `sigaction` holds for one signal. */
  datatype Disposition = Disposition(action: Action, mask: set<int>)

  /**
   The system: a disposition for each signal there is, and the signals whose disposition can be changed;
   calls for other signals fail.  The unmaskable ones (SIGKILL and SIGSTOP) never enter a mask, without an error.
   */
  datatype System = System(table: map<int, Disposition>, changeable: set<int>, unmaskable: set<int>)

  /** The registry: the lists (`smap`), and the system. */
  datatype Registry = Registry(smap: map<int, seq<Hnd>>, os: System)

  datatype Result = Returned(value: bool) | Threw

  /** `smap[signo]`, which makes an empty list where there is none. */
  function Entry(r: Registry, signo: int): Registry {
    if signo in r.smap then r else r.(smap := r.smap[signo := []])
  }

  function List(r: Registry, signo: int): seq<Hnd> {
    if signo in r.smap then r.smap[signo] else []
  }

  predicate IsOurs(os: System, signo: int) {
    signo in os.table && os.table[signo].action == Ours
  }

  /** `sigaction(signo, &sa, 0)` */
  function SetAction(os: System, signo: int, d: Disposition): (r: (System, bool))
    ensures r.0.changeable == os.changeable && r.0.unmaskable == os.unmaskable
  {
    if signo in os.table && signo in os.changeable then
      (os.(table := os.table[signo := d.(mask := d.mask - os.unmaskable)]), true)
    else (os, false)
  }

  // ---------------------------------------------------------------------------------------------
  // The operations
  // ---------------------------------------------------------------------------------------------

  /** The first registration of a signal installs our function, unless it is installed already. */
  function Register(r: Registry, signo: int, h: Hnd): (Registry, Result) {
    if h == 0 then (r, Returned(false))
    else
      var r0 := Entry(r, signo);
      var v := List(r0, signo);
      if v == [] then
        if signo !in r0.os.table then (r0, Threw)
        else if r0.os.table[signo].action == Ours then (r0.(smap := r0.smap[signo := v + [h]]), Returned(true))
        else
          var (os, ok) := SetAction(r0.os, signo, Disposition(Ours, {}));
          if !ok then (r0, Threw) else (r0.(smap := r0.smap[signo := v + [h]], os := os), Returned(true))
      else if h in v then (r0, Returned(false))
      else (r0.(smap := r0.smap[signo := v + [h]]), Returned(true))
  }

  /** The list without the first occurrence. */
  function Erase(v: seq<Hnd>, h: Hnd): seq<Hnd> {
    if v == [] then [] else if v[0] == h then v[1..] else [v[0]] + Erase(v[1..], h)
  }

  function Unregister(r: Registry, signo: int, h: Hnd): (Registry, Result) {
    if h == 0 then (r, Returned(false))
    else
      var r0 := Entry(r, signo);
      var v := List(r0, signo);
      (r0.(smap := r0.smap[signo := Erase(v, h)]), Returned(h in v))
  }

  /** All handlers go, and our function with them. */
  function UnregisterAll(r: Registry, signo: int): (Registry, Result) {
    var r0 := r.(smap := r.smap[signo := []]);
    if signo !in r0.os.table then (r0, Threw)
    else if r0.os.table[signo].action != Ours then (r0, Returned(true))
    else
      var (os, ok) := SetAction(r0.os, signo, Disposition(Default, {}));
      (r0.(os := os), if ok then Returned(true) else Threw)
  }

  /** `mask(a, b)`: while `a` is handled, `b` waits; our function is installed for `a` if it is not yet. */
  function MaskIn(r: Registry, a: int, b: int): (Registry, Result) {
    if a !in r.os.table || b !in r.os.table then (r, Threw)
    else
      var mask := if IsOurs(r.os, a) then r.os.table[a].mask else {};
      var (os, ok) := SetAction(r.os, a, Disposition(Ours, mask + {b}));
      (r.(os := os), if ok then Returned(true) else Threw)
  }

  function UnmaskIn(r: Registry, a: int, b: int): (Registry, Result) {
    if a !in r.os.table || (IsOurs(r.os, a) && b !in r.os.table) then (r, Threw)
    else
      var mask := if IsOurs(r.os, a) then r.os.table[a].mask - {b} else {};
      var (os, ok) := SetAction(r.os, a, Disposition(Ours, mask));
      (r.(os := os), if ok then Returned(true) else Threw)
  }

  datatype Op =
    | OpSet(signo: int, h: Hnd)
    | OpUnset(signo: int, h: Hnd)
    | OpUnsetAll(signo: int)
    | OpMask(a: int, b: int)
    | OpUnmask(a: int, b: int)
    | OpKill(signo: int)

  function Apply(r: Registry, op: Op): (Registry, Result) {
    match op
    case OpSet(s, h) => Register(r, s, h)
    case OpUnset(s, h) => Unregister(r, s, h)
    case OpUnsetAll(s) => UnregisterAll(r, s)
    case OpMask(a, b) => MaskIn(r, a, b)
    case OpUnmask(a, b) => UnmaskIn(r, a, b)
    case OpKill(s) => (Entry(r, s), Returned(true))
  }

  /** The state after the operations, each of them caught if it throws. */
  function Run(r: Registry, ops: seq<Op>): Registry {
    if ops == [] then r else Apply(Run(r, ops[..|ops| - 1]), ops[|ops| - 1]).0
  }

  /** At the start no list and none of our functions, whatever else is installed. */
  ghost predicate Initial(r: Registry) {
    r.smap == map[] && r.os.changeable <= r.os.table.Keys && forall s :: s in r.os.table ==> r.os.table[s].action != Ours
  }

  // ---------------------------------------------------------------------------------------------
  // The invariant
  // ---------------------------------------------------------------------------------------------

  /** A list has no handler twice and no null pointer, and where one is not empty, our function is installed. */
  ghost predicate Agreement(r: Registry) {
    && r.os.changeable <= r.os.table.Keys
    && (forall s :: IsOurs(r.os, s) ==>
          s in r.os.changeable && r.os.table[s].mask <= r.os.table.Keys && r.os.table[s].mask !! r.os.unmaskable)
    && (forall s :: s in r.smap ==> NoDuplicates(r.smap[s]) && 0 !in r.smap[s])
    && (forall s :: s in r.smap && r.smap[s] != [] ==> IsOurs(r.os, s))
  }

  lemma {:induction false} EraseKeeps(v: seq<Hnd>, h: Hnd)
    requires NoDuplicates(v)
    ensures NoDuplicates(Erase(v, h))
    ensures forall x :: x in Erase(v, h) <==> x in v && x != h
    decreases |v|
  {
    if v != [] {
      var t := v[1..];
      forall i, j | 0 <= i < j < |t| ensures t[i] != t[j] {
        assert v[i + 1] != v[j + 1];
      }
      EraseKeeps(t, h);
      assert forall x :: x in v <==> x == v[0] || x in t;
      assert forall j :: 0 <= j < |t| ==> t[j] == v[j + 1] && v[0] != v[j + 1];
      if v[0] != h {
        var r := Erase(t, h);
        forall i, j | 0 <= i < j < |[v[0]] + r| ensures ([v[0]] + r)[i] != ([v[0]] + r)[j] {
          assert ([v[0]] + r)[j] == r[j - 1];
          if i == 0 {
            assert r[j - 1] in r;
          } else {
            assert r[i - 1] != r[j - 1];
          }
        }
      }
    }
  }

  lemma AppendKeeps(v: seq<Hnd>, h: Hnd)
    requires NoDuplicates(v) && h !in v
    ensures NoDuplicates(v + [h])
  {
  }

  ghost predicate KeepsAgreement(r: Registry, r': Registry) {
    && Agreement(r')
    && r'.os.table.Keys == r.os.table.Keys && r'.os.changeable == r.os.changeable && r'.os.unmaskable == r.os.unmaskable
  }

  /** One list changes, and perhaps the disposition of its signal to our function. */
  lemma ListKeepsAgreement(r: Registry, r': Registry, s: int, v: seq<Hnd>)
    requires Agreement(r) && r'.smap == r.smap[s := v] && NoDuplicates(v) && 0 !in v
    requires r'.os == r.os || r'.os == SetAction(r.os, s, Disposition(Ours, {})).0
    requires v != [] ==> IsOurs(r'.os, s)
    ensures KeepsAgreement(r, r')
  {
  }

  lemma SetKeepsAgreement(r: Registry, s: int, h: Hnd)
    requires Agreement(r)
    ensures KeepsAgreement(r, Register(r, s, h).0)
  {
    var r', v := Register(r, s, h).0, List(r, s);
    assert NoDuplicates(v) && 0 !in v;
    if h !in v {
      AppendKeeps(v, h);
    }
    if h != 0 {
      ListKeepsAgreement(r, r', s, r'.smap[s]);
    }
  }

  lemma UnsetKeepsAgreement(r: Registry, s: int, h: Hnd)
    requires Agreement(r)
    ensures KeepsAgreement(r, Unregister(r, s, h).0)
    ensures KeepsAgreement(r, UnregisterAll(r, s).0)
  {
    EraseKeeps(List(r, s), h);
  }

  lemma MaskKeepsAgreement(r: Registry, a: int, b: int)
    requires Agreement(r)
    ensures KeepsAgreement(r, MaskIn(r, a, b).0)
    ensures KeepsAgreement(r, UnmaskIn(r, a, b).0)
  {
  }

  lemma KillKeepsAgreement(r: Registry, s: int)
    requires Agreement(r)
    ensures KeepsAgreement(r, Entry(r, s))
  {
  }

  lemma ApplyKeepsAgreement(r: Registry, op: Op)
    requires Agreement(r)
    ensures KeepsAgreement(r, Apply(r, op).0)
  {
    hide Agreement, Entry, Register, Unregister, UnregisterAll, MaskIn, UnmaskIn;
    match op
    case OpSet(s, h) => SetKeepsAgreement(r, s, h);
    case OpUnset(s, h) => UnsetKeepsAgreement(r, s, h);
    case OpUnsetAll(s) => UnsetKeepsAgreement(r, s, 0);
    case OpMask(a, b) => MaskKeepsAgreement(r, a, b);
    case OpUnmask(a, b) => MaskKeepsAgreement(r, a, b);
    case OpKill(s) => KillKeepsAgreement(r, s);
  }

  /** In every reachable state lists and system agree. */
  lemma {:induction false} AlwaysAgreement(r: Registry, ops: seq<Op>)
    requires Initial(r)
    ensures Agreement(Run(r, ops))
    ensures Run(r, ops).os.table.Keys == r.os.table.Keys && Run(r, ops).os.changeable == r.os.changeable
    ensures Run(r, ops).os.unmaskable == r.os.unmaskable
    decreases |ops|
  {
    if ops != [] {
      var before := ops[..|ops| - 1];
      AlwaysAgreement(r, before);
      ApplyKeepsAgreement(Run(r, before), ops[|ops| - 1]);
    }
  }

  // ---------------------------------------------------------------------------------------------
  // What the history says
  // ---------------------------------------------------------------------------------------------

  /** `b` is masked while `a` is handled by us. */
  predicate Masked(r: Registry, a: int, b: int) {
    IsOurs(r.os, a) && b in r.os.table[a].mask
  }

  predicate Clears(op: Op, a: int, b: int) {
    op == OpUnmask(a, b) || op == OpUnsetAll(a)
  }

  /** `mask(a, b)` at step `i`, and since then neither `unmask(a, b)` nor `unset(a)`. */
  ghost predicate MaskedSince(ops: seq<Op>, i: int, a: int, b: int) {
    0 <= i < |ops| && ops[i] == OpMask(a, b) && forall j :: i < j < |ops| ==> !Clears(ops[j], a, b)
  }

  lemma MaskedStep(r: Registry, op: Op, a: int, b: int)
    requires Agreement(r)
    ensures Masked(Apply(r, op).0, a, b) <==>
              if op == OpMask(a, b) then a in r.os.changeable && b in r.os.table && b !in r.os.unmaskable
              else Masked(r, a, b) && !Clears(op, a, b)
  {
  }

  lemma MaskedSinceStep(ops: seq<Op>, before: seq<Op>, a: int, b: int)
    requires ops != [] && before == ops[..|ops| - 1]
    ensures (exists i :: MaskedSince(ops, i, a, b)) <==>
              ops[|ops| - 1] == OpMask(a, b) ||
              ((exists i :: MaskedSince(before, i, a, b)) && !Clears(ops[|ops| - 1], a, b))
  {
    var n := |ops| - 1;
    if i :| MaskedSince(ops, i, a, b) {
      if i < n {
        assert MaskedSince(before, i, a, b);
      }
    }
    if ops[n] == OpMask(a, b) {
      assert MaskedSince(ops, n, a, b);
    } else if (exists i :: MaskedSince(before, i, a, b)) && !Clears(ops[n], a, b) {
      var i :| MaskedSince(before, i, a, b);
      assert MaskedSince(ops, i, a, b);
    }
  }

  /**
   After any run, `b` is masked while `a` is handled exactly when `mask(a, b)` has been called, for signals
   the system has and lets change or mask, with no `unmask(a, b)` and no `unset(a)` since.
   */
  lemma {:induction false} MaskHistory(r: Registry, ops: seq<Op>, a: int, b: int)
    requires Initial(r)
    ensures Masked(Run(r, ops), a, b) <==>
              && a in r.os.changeable && b in r.os.table && b !in r.os.unmaskable
              && exists i :: MaskedSince(ops, i, a, b)
    decreases |ops|
  {
    if ops != [] {
      var before := ops[..|ops| - 1];
      MaskHistory(r, before, a, b);
      AlwaysAgreement(r, before);
      MaskedStep(Run(r, before), ops[|ops| - 1], a, b);
      MaskedSinceStep(ops, before, a, b);
    }
  }

  /** Does the operation see to it that our function is installed for `a`?  `known` are the signals there are. */
  predicate Installs(op: Op, a: int, known: set<int>) {
    match op
    case OpSet(s, h) => s == a && h != 0
    case OpMask(s, b) => s == a && b in known
    case OpUnmask(s, _) => s == a
    case _ => false
  }

  /** Such an operation at step `i`, and no `unset(a)` since. */
  ghost predicate InstalledSince(ops: seq<Op>, i: int, a: int, known: set<int>) {
    0 <= i < |ops| && Installs(ops[i], a, known) && forall j :: i < j < |ops| ==> ops[j] != OpUnsetAll(a)
  }

  lemma InstalledStep(r: Registry, op: Op, a: int)
    requires Agreement(r)
    ensures IsOurs(Apply(r, op).0.os, a) <==>
              if Installs(op, a, r.os.table.Keys) then a in r.os.changeable
              else IsOurs(r.os, a) && op != OpUnsetAll(a)
  {
  }

  lemma InstalledSinceStep(ops: seq<Op>, before: seq<Op>, a: int, known: set<int>)
    requires ops != [] && before == ops[..|ops| - 1]
    ensures (exists i :: InstalledSince(ops, i, a, known)) <==>
              Installs(ops[|ops| - 1], a, known) ||
              ((exists i :: InstalledSince(before, i, a, known)) && ops[|ops| - 1] != OpUnsetAll(a))
  {
    var n := |ops| - 1;
    if i :| InstalledSince(ops, i, a, known) {
      if i < n {
        assert InstalledSince(before, i, a, known);
      }
    }
    if Installs(ops[n], a, known) {
      assert InstalledSince(ops, n, a, known);
    } else if (exists i :: InstalledSince(before, i, a, known)) && ops[n] != OpUnsetAll(a) {
      var i :| InstalledSince(before, i, a, known);
      assert InstalledSince(ops, i, a, known);
    }
  }

  /**
   After any run our function is installed for `a` exactly when `a` can be changed and, with no `unset(a)` since,
   a handler has been set for it, or a signal there is has been masked for it, or any signal unmasked.
   */
  lemma {:induction false} InstallHistory(r: Registry, ops: seq<Op>, a: int)
    requires Initial(r)
    ensures IsOurs(Run(r, ops).os, a) <==>
              a in r.os.changeable && exists i :: InstalledSince(ops, i, a, r.os.table.Keys)
    decreases |ops|
  {
    if ops != [] {
      var before := ops[..|ops| - 1];
      InstallHistory(r, before, a);
      AlwaysAgreement(r, before);
      InstalledStep(Run(r, before), ops[|ops| - 1], a);
      InstalledSinceStep(ops, before, a, r.os.table.Keys);
    }
  }

  /**
   After any run, the disposition of each signal: ours as `InstallHistory` says; otherwise the default with nothing
   masked, if it has been ours; otherwise what it was at first, untouched.
   */
  lemma {:induction false} ActionHistory(r: Registry, ops: seq<Op>, a: int)
    requires Initial(r) && a in r.os.table
    ensures a in Run(r, ops).os.table
    ensures !IsOurs(Run(r, ops).os, a) ==>
              Run(r, ops).os.table[a] ==
                if a in r.os.changeable && EverInstalled(ops, a, r.os.table.Keys) then Disposition(Default, {})
                else r.os.table[a]
    decreases |ops|
  {
    if ops != [] {
      var n := |ops| - 1;
      var before := ops[..n];
      ActionHistory(r, before, a);
      AlwaysAgreement(r, before);
      InstallHistory(r, before, a);
      EverInstalledStep(ops, before, a, r.os.table.Keys);
      OursWasInstalled(before, a, r.os.table.Keys);
      ActionStep(Run(r, before), ops[n], a);
    }
  }

  ghost predicate EverInstalled(ops: seq<Op>, a: int, known: set<int>) {
    exists i :: 0 <= i < |ops| && Installs(ops[i], a, known)
  }

  lemma EverInstalledStep(ops: seq<Op>, before: seq<Op>, a: int, known: set<int>)
    requires ops != [] && before == ops[..|ops| - 1]
    ensures EverInstalled(ops, a, known) <==> EverInstalled(before, a, known) || Installs(ops[|ops| - 1], a, known)
  {
    hide Installs;
    if i :| 0 <= i < |ops| && Installs(ops[i], a, known) {
      assert i < |ops| - 1 ==> before[i] == ops[i];
    }
    if i :| 0 <= i < |before| && Installs(before[i], a, known) {
      assert ops[i] == before[i];
    }
  }

  lemma OursWasInstalled(ops: seq<Op>, a: int, known: set<int>)
    ensures (exists i :: InstalledSince(ops, i, a, known)) ==> EverInstalled(ops, a, known)
  {
  }

  /** One operation: a disposition that is not ours changes only to ours, and from ours only to the default. */
  lemma ActionStep(r: Registry, op: Op, a: int)
    requires Agreement(r) && a in r.os.table
    ensures var r' := Apply(r, op).0;
            && a in r'.os.table
            && (!IsOurs(r'.os, a) ==>
                  r'.os.table[a] == if IsOurs(r.os, a) then Disposition(Default, {}) else r.os.table[a])
            && (Installs(op, a, r.os.table.Keys) && a in r.os.changeable ==> IsOurs(r'.os, a))
  {
  }

  /** What each operation answers: true for a change, false for none, and a throw for a signal the system refuses. */
  lemma Answers(r: Registry, s: int, h: Hnd, b: int)
    requires Agreement(r)
    ensures Register(r, s, h).1 ==
              if h == 0 || h in List(r, s) then Returned(false)
              else if s in r.os.changeable then Returned(true) else Threw
    ensures Unregister(r, s, h).1 == Returned(h != 0 && h in List(r, s))
    ensures UnregisterAll(r, s).1 == if s in r.os.table then Returned(true) else Threw
    ensures MaskIn(r, s, b).1 == if s in r.os.changeable && b in r.os.table then Returned(true) else Threw
    ensures UnmaskIn(r, s, b).1 ==
              if s in r.os.changeable && (IsOurs(r.os, s) ==> b in r.os.table) then Returned(true) else Threw
  {
  }

  /** The step at which `h` entered the list of `s` it is now in, or -1. */
  function RegisteredAt(ops: seq<Op>, s: int, h: Hnd): (n: int)
    ensures -1 <= n < |ops|
  {
    if ops == [] then -1
    else
      var n := RegisteredAt(ops[..|ops| - 1], s, h);
      match ops[|ops| - 1]
      case OpSet(s', h') => if s' == s && h' == h && n == -1 then |ops| - 1 else n
      case OpUnset(s', h') => if s' == s && h' == h then -1 else n
      case OpUnsetAll(s') => if s' == s then -1 else n
      case _ => n
  }

  /** The list of `s` holds the registered handlers, in the order of registration. */
  ghost predicate InOrder(v: seq<Hnd>, ops: seq<Op>, s: int) {
    && (forall h :: h in v <==> h != 0 && RegisteredAt(ops, s, h) >= 0)
    && (forall i, j :: 0 <= i < j < |v| ==> RegisteredAt(ops, s, v[i]) < RegisteredAt(ops, s, v[j]))
  }

  lemma {:induction false} EraseOrder(v: seq<Hnd>, h: Hnd, ops: seq<Op>, s: int)
    requires forall i, j :: 0 <= i < j < |v| ==> RegisteredAt(ops, s, v[i]) < RegisteredAt(ops, s, v[j])
    ensures forall i, j :: 0 <= i < j < |Erase(v, h)| ==>
              RegisteredAt(ops, s, Erase(v, h)[i]) < RegisteredAt(ops, s, Erase(v, h)[j])
    ensures forall x :: x in Erase(v, h) ==> x in v
    decreases |v|
  {
    if v != [] && v[0] != h {
      var t := v[1..];
      EraseOrder(t, h, ops, s);
      var r := Erase(t, h);
      forall i, j | 0 <= i < j < |[v[0]] + r|
        ensures RegisteredAt(ops, s, ([v[0]] + r)[i]) < RegisteredAt(ops, s, ([v[0]] + r)[j])
      {
        if i == 0 {
          assert r[j - 1] in t;
          var m :| 0 <= m < |t| && t[m] == r[j - 1];
          assert RegisteredAt(ops, s, v[0]) < RegisteredAt(ops, s, v[m + 1]);
        }
      }
    }
  }

  /** What one operation does to the list `v` of a signal whose disposition can be changed. */
  function ListAfter(v: seq<Hnd>, op: Op, s: int): seq<Hnd> {
    match op
    case OpSet(s', h) => if s' == s && h != 0 && h !in v then v + [h] else v
    case OpUnset(s', h) => if s' == s && h != 0 then Erase(v, h) else v
    case OpUnsetAll(s') => if s' == s then [] else v
    case OpMask(_, _) => v
    case OpUnmask(_, _) => v
    case OpKill(_) => v
  }

  lemma ListStep(r: Registry, op: Op, s: int)
    requires Agreement(r) && s in r.os.changeable
    ensures List(Apply(r, op).0, s) == ListAfter(List(r, s), op, s)
  {
  }

  lemma OrderStep(v: seq<Hnd>, v': seq<Hnd>, ops: seq<Op>, before: seq<Op>, s: int)
    requires ops != [] && before == ops[..|ops| - 1] && NoDuplicates(v)
    requires InOrder(v, before, s) && v' == ListAfter(v, ops[|ops| - 1], s)
    ensures InOrder(v', ops, s)
  {
    hide InOrder;
    match ops[|ops| - 1]
    case OpSet(s', h) => OrderSet(v, ops, before, s);
    case OpUnset(s', h) => OrderUnset(v, ops, before, s);
    case OpUnsetAll(s') => OrderRest(v, ops, before, s);
    case OpMask(_, _) => OrderRest(v, ops, before, s);
    case OpUnmask(_, _) => OrderRest(v, ops, before, s);
    case OpKill(_) => OrderRest(v, ops, before, s);
  }

  /** The steps of the handlers in the list do not change. */
  lemma SameOrder(v: seq<Hnd>, ops: seq<Op>, before: seq<Op>, s: int)
    requires InOrder(v, before, s)
    requires forall h :: h != 0 ==> RegisteredAt(ops, s, h) == RegisteredAt(before, s, h)
    ensures InOrder(v, ops, s)
  {
    assert 0 !in v;
    forall i, j | 0 <= i < j < |v| ensures RegisteredAt(ops, s, v[i]) < RegisteredAt(ops, s, v[j]) {
      assert v[i] in v && v[j] in v;
    }
  }

  lemma OrderSet(v: seq<Hnd>, ops: seq<Op>, before: seq<Op>, s: int)
    requires ops != [] && before == ops[..|ops| - 1] && ops[|ops| - 1].OpSet? && InOrder(v, before, s)
    ensures InOrder(ListAfter(v, ops[|ops| - 1], s), ops, s)
  {
    var op := ops[|ops| - 1];
    if op.signo == s && op.h != 0 && op.h !in v {
      var v' := v + [op.h];
      assert forall x :: x in v' <==> x in v || x == op.h;
      forall i, j | 0 <= i < j < |v'| ensures RegisteredAt(ops, s, v'[i]) < RegisteredAt(ops, s, v'[j]) {
        assert v'[i] == v[i] && v[i] in v;
      }
    } else {
      SameOrder(v, ops, before, s);
    }
  }

  lemma OrderUnset(v: seq<Hnd>, ops: seq<Op>, before: seq<Op>, s: int)
    requires ops != [] && before == ops[..|ops| - 1] && ops[|ops| - 1].OpUnset? && InOrder(v, before, s)
    requires NoDuplicates(v)
    ensures InOrder(ListAfter(v, ops[|ops| - 1], s), ops, s)
  {
    var op := ops[|ops| - 1];
    if op.signo == s && op.h != 0 {
      var v' := Erase(v, op.h);
      EraseOrder(v, op.h, before, s);
      EraseKeeps(v, op.h);
      forall i, j | 0 <= i < j < |v'| ensures RegisteredAt(ops, s, v'[i]) < RegisteredAt(ops, s, v'[j]) {
        assert v'[i] in v' && v'[j] in v';
      }
    } else {
      SameOrder(v, ops, before, s);
    }
  }

  lemma OrderRest(v: seq<Hnd>, ops: seq<Op>, before: seq<Op>, s: int)
    requires ops != [] && before == ops[..|ops| - 1] && InOrder(v, before, s)
    requires !ops[|ops| - 1].OpSet? && !ops[|ops| - 1].OpUnset?
    ensures InOrder(ListAfter(v, ops[|ops| - 1], s), ops, s)
  {
    if ops[|ops| - 1] != OpUnsetAll(s) {
      SameOrder(v, ops, before, s);
    }
  }

  /**
   After any run the list of a signal whose disposition can be changed holds exactly the handlers that were
   registered and have not been removed since, in the order of registration.  For other signals it is empty.
   */
  lemma {:induction false} ListHistory(r: Registry, ops: seq<Op>, s: int)
    requires Initial(r)
    ensures if s in r.os.changeable then InOrder(List(Run(r, ops), s), ops, s) else List(Run(r, ops), s) == []
    decreases |ops|
  {
    if s !in r.os.changeable {
      AlwaysAgreement(r, ops);
    } else if ops != [] {
      var before := ops[..|ops| - 1];
      var r0 := Run(r, before);
      ListHistory(r, before, s);
      AlwaysAgreement(r, before);
      ListStep(r0, ops[|ops| - 1], s);
      OrderStep(List(r0, s), List(Run(r, ops), s), ops, before, s);
    }
  }

  // ---------------------------------------------------------------------------------------------
  // The object
  // ---------------------------------------------------------------------------------------------

  class Sig {
    var smap: map<int, seq<Hnd>>
    var os: System
    var calls: seq<(Hnd, int)>

    constructor (os: System)
      ensures State() == Registry(map[], os) && calls == []
    {
      smap, this.os, calls := map[], os, [];
    }

    function State(): Registry
      reads this
    {
      Registry(smap, os)
    }

    /** `find` */
    method Find(v: seq<Hnd>, h: Hnd) returns (j: nat)
      ensures j <= |v| && h !in v[..j] && (j < |v| ==> v[j] == h)
    {
      j := 0;
      while j < |v| && v[j] != h
        invariant j <= |v| && h !in v[..j]
      {
        j := j + 1;
      }
    }

    method Set(signo: int, h: Hnd) returns (r: Result)
      modifies this`smap, this`os
      ensures (State(), r) == Register(old(State()), signo, h)
    {
      if h == 0 {
        return Returned(false);
      }
      if signo !in smap {
        smap := smap[signo := []];
      }
      var v := smap[signo];
      if v == [] {
        if signo !in os.table {
          return Threw;
        }
        if os.table[signo].action != Ours {
          var ok;
          os, ok := SetAction(os, signo, Disposition(Ours, {})).0, SetAction(os, signo, Disposition(Ours, {})).1;
          if !ok {
            return Threw;
          }
        }
        smap := smap[signo := v + [h]];
        return Returned(true);
      }
      var j := Find(v, h);
      if j == |v| {
        assert v[..j] == v;
        smap := smap[signo := v + [h]];
        return Returned(true);
      }
      return Returned(false);
    }

    method Unset(signo: int, h: Hnd) returns (r: Result)
      modifies this`smap
      ensures (State(), r) == Unregister(old(State()), signo, h)
    {
      if h == 0 {
        return Returned(false);
      }
      if signo !in smap {
        smap := smap[signo := []];
      }
      var v := smap[signo];
      var j := Find(v, h);
      EraseAt(v, h, j);
      if j != |v| {
        smap := smap[signo := v[..j] + v[j + 1..]];
        return Returned(true);
      }
      assert v[..j] == v;
      assert smap == smap[signo := v];
      return Returned(false);
    }

    method UnsetSignal(signo: int) returns (r: Result)
      modifies this`smap, this`os
      ensures (State(), r) == UnregisterAll(old(State()), signo)
    {
      smap := smap[signo := []];
      if signo !in os.table {
        return Threw;
      }
      if os.table[signo].action == Ours {
        var ok;
        os, ok := SetAction(os, signo, Disposition(Default, {})).0, SetAction(os, signo, Disposition(Default, {})).1;
        if !ok {
          return Threw;
        }
      }
      return Returned(true);
    }

    method Mask(siga: int, sigb: int) returns (r: Result)
      modifies this`os
      ensures (State(), r) == MaskIn(old(State()), siga, sigb)
    {
      if siga !in os.table {
        return Threw;
      }
      var sa := os.table[siga];
      if sa.action != Ours {
        sa := Disposition(Ours, {});
      }
      if sigb !in os.table {
        return Threw;
      }
      sa := sa.(mask := sa.mask + {sigb});
      var ok;
      os, ok := SetAction(os, siga, sa).0, SetAction(os, siga, sa).1;
      return if ok then Returned(true) else Threw;
    }

    method Unmask(siga: int, sigb: int) returns (r: Result)
      modifies this`os
      ensures (State(), r) == UnmaskIn(old(State()), siga, sigb)
    {
      if siga !in os.table {
        return Threw;
      }
      var sa := os.table[siga];
      if sa.action != Ours {
        sa := Disposition(Ours, {});
      } else {
        if sigb !in os.table {
          return Threw;
        }
        sa := sa.(mask := sa.mask - {sigb});
      }
      var ok;
      os, ok := SetAction(os, siga, sa).0, SetAction(os, siga, sa).1;
      return if ok then Returned(true) else Threw;
    }

    /** `kill`: every handler of the signal is called once, in the order of the list. */
    method Kill(signo: int)
      modifies this`smap, this`calls
      ensures State() == Entry(old(State()), signo)
      ensures calls == old(calls) + Called(List(old(State()), signo), signo)
    {
      if signo !in smap {
        smap := smap[signo := []];
      }
      var v := smap[signo];
      var i := 0;
      while i < |v|
        modifies this`calls
        invariant 0 <= i <= |v|
        invariant calls == old(calls) + Called(v[..i], signo)
      {
        calls := calls + [(v[i], signo)];
        i := i + 1;
        assert v[..i][..i - 1] == v[..i - 1];
        CalledAppend(v[..i - 1], v[i - 1], signo);
        assert v[..i] == v[..i - 1] + [v[i - 1]];
      }
      assert v[..i] == v;
    }
  }

  function Called(v: seq<Hnd>, signo: int): (r: seq<(Hnd, int)>)
    ensures |r| == |v|
  {
    if v == [] then [] else [(v[0], signo)] + Called(v[1..], signo)
  }

  lemma {:induction false} CalledAt(v: seq<Hnd>, signo: int)
    ensures forall i :: 0 <= i < |v| ==> Called(v, signo)[i] == (v[i], signo)
  {
    if v != [] {
      CalledAt(v[1..], signo);
    }
  }

  /**
   When the signal comes after any run, the calls are made to exactly the handlers registered and not removed
   since, each once, the one registered first coming first.
   */
  lemma KillCallsEachOnce(r: Registry, ops: seq<Op>, s: int)
    requires Initial(r)
    ensures var calls := Called(List(Run(r, ops), s), s);
            && (forall h: Hnd :: (h, s) in calls <==>
                  s in r.os.changeable && h != 0 && RegisteredAt(ops, s, h) >= 0)
            && (forall i, j :: 0 <= i < j < |calls| ==>
                  RegisteredAt(ops, s, calls[i].0) < RegisteredAt(ops, s, calls[j].0))
  {
    var v := List(Run(r, ops), s);
    ListHistory(r, ops, s);
    CalledAt(v, s);
    var calls := Called(v, s);
    forall h: Hnd ensures (h, s) in calls <==> h in v {
      if (h, s) in calls {
        var i :| 0 <= i < |calls| && calls[i] == (h, s);
        assert v[i] == h;
      }
      if h in v {
        var i :| 0 <= i < |v| && v[i] == h;
        assert calls[i] == (h, s);
      }
    }
  }

  lemma {:induction false} CalledAppend(v: seq<Hnd>, h: Hnd, signo: int)
    ensures Called(v + [h], signo) == Called(v, signo) + [(h, signo)]
  {
    if v == [] {
      assert v + [h] == [h];
      assert [h][1..] == [];
    } else {
      assert (v + [h])[1..] == v[1..] + [h];
      CalledAppend(v[1..], h, signo);
    }
  }

  lemma {:induction false} EraseAt(v: seq<Hnd>, h: Hnd, j: nat)
    requires j <= |v| && h !in v[..j] && (j < |v| ==> v[j] == h)
    ensures Erase(v, h) == if j < |v| then v[..j] + v[j + 1..] else v
  {
    if v != [] && j > 0 {
      assert v[0] == v[..j][0];
      var t := v[1..];
      assert v[..j] == [v[0]] + t[..j - 1];
      EraseAt(t, h, j - 1);
      assert v == [v[0]] + t;
    }
  }
}
