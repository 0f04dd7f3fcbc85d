/**
 * The observable side of the two model base classes: the lock discipline,
 * the events they raise and the invocation lists behind those events.
 *
 * Nothing here is concurrent. The reader/writer lock of an instance is
 * reduced to the mode the running call holds it in, and a call's effect on
 * the lock and on the event subscribers is recorded as a sequence of steps.
 */
module Tracing {
  import opened Counting

  /** The mode in which the running call holds the instance's reader/writer lock. */
  datatype LockMode = Unlocked | Read | UpgradeableRead | Write

  /** The two property notifications: before the change and after it. */
  datatype EventKind = Changing | Changed

  /**
   * One entry of an event's invocation list. A parent subscribes its two
   * private forwarding handlers to each registered child; everything else a
   * listener subscribes is an opaque `Subscriber`.
   */
  datatype Handler =
    | Forwarder(parent: object, kind: EventKind)
    | Subscriber(id: nat)

  /** What invoking one handler for one event amounts to. */
  datatype Call =
    | ChildHook(parent: object, kind: EventKind, child: object, name: string)
    | Listener(id: nat, kind: EventKind, sender: object, name: string)

  /** One observable step of a call on a model instance. */
  datatype Step =
    | Enter(mode: LockMode)
    | Exit(mode: LockMode)
    | Raise(kind: EventKind, name: string, handlers: seq<Handler>)
    | Assign(name: string)
    | DisposeLock

  /**
   * The result of a lock-guarded accessor: its value, or the
   * ObjectDisposedException the lock throws once it has been disposed.
   */
  datatype Outcome<T> = Done(value: T) | LockDisposedError

  /** What a listener can tell apart in a history: events and assignments, each with the lock mode held. */
  datatype Observation =
    | Event(kind: EventKind, name: string, held: LockMode)
    | Wrote(name: string, held: LockMode)

  // ---------------------------------------------------------------------------
  // Lock modes along a trace

  /** The mode held after step `s`, starting from mode `m`. */
  function After(m: LockMode, s: Step): LockMode
  {
    match s
    case Enter(mode) => mode
    case Exit(mode) => if mode == Write then UpgradeableRead else Unlocked
    case _ => m
  }

  /** The mode held after running the steps `t` from mode `m`. */
  function HeldFrom(m: LockMode, t: seq<Step>): LockMode
  {
    if t == [] then m else After(HeldFrom(m, t[..|t| - 1]), t[|t| - 1])
  }

  /** The mode held after the whole history `t` of an instance. */
  function Held(t: seq<Step>): LockMode
  {
    HeldFrom(Unlocked, t)
  }

  /** No event is raised while the write lock is held. */
  ghost predicate NoEventUnderWriteLock(t: seq<Step>)
  {
    forall i :: 0 <= i < |t| && t[i].Raise? ==> Held(t[..i]) != Write
  }

  /** A field is assigned only while the write lock is held. */
  ghost predicate AssignOnlyUnderWriteLock(t: seq<Step>)
  {
    forall i :: 0 <= i < |t| && t[i].Assign? ==> Held(t[..i]) == Write
  }

  /** The lock discipline both model classes keep over their whole history. */
  ghost predicate LockDiscipline(t: seq<Step>)
  {
    Held(t) == Unlocked && NoEventUnderWriteLock(t) && AssignOnlyUnderWriteLock(t)
  }

  /**
   * The history every instance keeps between calls: the lock discipline, the
   * lock disposed at most once, and only on an instance that is disposed.
   */
  ghost predicate ValidHistory(t: seq<Step>, lockDisposed: bool, disposed: bool)
  {
    && LockDiscipline(t)
    && Count(t, DisposeLock) <= 1
    && lockDisposed == (DisposeLock in t)
    && (lockDisposed ==> disposed)
  }

  /** What a listener sees of step `s` taken in mode `m`. */
  function Observe(m: LockMode, s: Step): seq<Observation>
  {
    match s
    case Raise(k, n, _) => [Event(k, n, m)]
    case Assign(n) => [Wrote(n, m)]
    case _ => []
  }

  /** The events and assignments of the steps `t` run from mode `m`, in order. */
  function ObservedFrom(m: LockMode, t: seq<Step>): seq<Observation>
  {
    if t == [] then []
    else ObservedFrom(m, t[..|t| - 1]) + Observe(HeldFrom(m, t[..|t| - 1]), t[|t| - 1])
  }

  /** One more step: its mode follows from the mode before it, and it adds what it shows. */
  lemma Snoc(t: seq<Step>, s: Step)
    ensures Held(t + [s]) == After(Held(t), s)
    ensures Observed(t + [s]) == Observed(t) + Observe(Held(t), s)
  {
    assert (t + [s])[..|t|] == t;
  }

  function Observed(t: seq<Step>): seq<Observation>
  {
    ObservedFrom(Unlocked, t)
  }

  /**
   * The write-lock section of a property setter, entered from the upgradeable
   * read lock: the assignment is all it shows, under the write lock, and the
   * upgradeable read lock is held again afterwards.
   */
  lemma WriteSection(t: seq<Step>, name: string)
    requires Held(t) == UpgradeableRead
    ensures Held(t + [Enter(Write)] + [Assign(name)] + [Exit(Write)]) == UpgradeableRead
    ensures Observed(t + [Enter(Write)] + [Assign(name)] + [Exit(Write)]) == Observed(t) + [Wrote(name, Write)]
  {
    var t1 := t + [Enter(Write)];
    assert Held(t1) == Write && Observed(t1) == Observed(t) by {
      Snoc(t, Enter(Write));
    }
    var t2 := t1 + [Assign(name)];
    assert Held(t2) == Write && Observed(t2) == Observed(t) + [Wrote(name, Write)] by {
      Snoc(t1, Assign(name));
    }
    Snoc(t2, Exit(Write));
  }

  /** Seen from outside: every event outside the write lock, every assignment inside it. */
  ghost predicate DisciplinedObservations(obs: seq<Observation>)
  {
    forall o :: o in obs ==> (o.Event? ==> o.held != Write) && (o.Wrote? ==> o.held == Write)
  }

  /** Step `s` taken in mode `m` keeps the discipline. */
  predicate StepKeepsDiscipline(m: LockMode, s: Step)
  {
    (s.Raise? ==> m != Write) && (s.Assign? ==> m == Write)
  }

  lemma LastStepDiscipline(t: seq<Step>, s: Step)
    ensures NoEventUnderWriteLock(t + [s]) && AssignOnlyUnderWriteLock(t + [s]) <==>
            NoEventUnderWriteLock(t) && AssignOnlyUnderWriteLock(t) && StepKeepsDiscipline(Held(t), s)
  {
    var u := t + [s];
    assert forall i :: 0 <= i < |t| ==> u[..i] == t[..i] && u[i] == t[i];
    assert u[..|t|] == t;
  }

  /**
   * The lock discipline of a history is exactly what a listener can check
   * from its observations.
   */
  lemma {:induction false} DisciplineObserved(t: seq<Step>)
    ensures NoEventUnderWriteLock(t) && AssignOnlyUnderWriteLock(t) <==> DisciplinedObservations(Observed(t))
  {
    if t != [] {
      var t', s := t[..|t| - 1], t[|t| - 1];
      assert t == t' + [s];
      DisciplineObserved(t');
      LastStepDiscipline(t', s);
      Snoc(t', s);
      var last := Observe(Held(t'), s);
      assert DisciplinedObservations(last) <==> StepKeepsDiscipline(Held(t'), s);
      assert DisciplinedObservations(Observed(t') + last) <==>
             DisciplinedObservations(Observed(t')) && DisciplinedObservations(last);
    }
  }

  /** Running `t` and then `u` from `m` is running `u` from where `t` left off. */
  lemma {:induction false} HeldFromConcat(m: LockMode, t: seq<Step>, u: seq<Step>)
    ensures HeldFrom(m, t + u) == HeldFrom(HeldFrom(m, t), u)
  {
    if u == [] {
      assert t + u == t;
    } else {
      var u' := u[..|u| - 1];
      assert (t + u)[..|t + u| - 1] == t + u';
      HeldFromConcat(m, t, u');
    }
  }

  /** What `t` then `u` show is what `t` shows, then what `u` shows run from where `t` left off. */
  lemma {:induction false} ObservedFromConcat(m: LockMode, t: seq<Step>, u: seq<Step>)
    ensures ObservedFrom(m, t + u) == ObservedFrom(m, t) + ObservedFrom(HeldFrom(m, t), u)
  {
    if u == [] {
      assert t + u == t;
    } else {
      var u', s := u[..|u| - 1], u[|u| - 1];
      assert (t + u)[..|t + u| - 1] == t + u';
      ObservedFromConcat(m, t, u');
      HeldFromConcat(m, t, u');
    }
  }

  /**
   * A call made on an instance whose lock is released shows the same events
   * and assignments it shows on a fresh instance, after everything before it.
   */
  lemma ObservedAfterRelease(t: seq<Step>, u: seq<Step>)
    requires Held(t) == Unlocked
    ensures Held(t + u) == Held(u)
    ensures Observed(t + u) == Observed(t) + Observed(u)
  {
    ObservedFromConcat(Unlocked, t, u);
    HeldFromConcat(Unlocked, t, u);
  }

  /**
   * Appending a segment that keeps the lock discipline on its own to a history
   * that ends with the lock released keeps the discipline on the whole history.
   */
  lemma {:induction false} DisciplineConcat(t: seq<Step>, u: seq<Step>)
    requires LockDiscipline(t) && LockDiscipline(u)
    ensures LockDiscipline(t + u)
  {
    HeldFromConcat(Unlocked, t, u);
    forall i | 0 <= i < |t + u|
      ensures (t + u)[i].Raise? ==> Held((t + u)[..i]) != Write
      ensures (t + u)[i].Assign? ==> Held((t + u)[..i]) == Write
    {
      if i < |t| {
        assert (t + u)[..i] == t[..i];
      } else {
        var j := i - |t|;
        assert (t + u)[..i] == t + u[..j];
        HeldFromConcat(Unlocked, t, u[..j]);
        assert (t + u)[i] == u[j];
      }
    }
  }

  /**
   * A valid history extended by a segment that keeps the lock discipline and
   * does not dispose the lock is still valid, with the same disposal flags.
   */
  lemma ExtendHistory(t: seq<Step>, u: seq<Step>, lockDisposed: bool, disposed: bool)
    requires ValidHistory(t, lockDisposed, disposed)
    requires LockDiscipline(u) && DisposeLock !in u
    ensures ValidHistory(t + u, lockDisposed, disposed)
  {
    DisciplineConcat(t, u);
    CountConcat(t, u, DisposeLock);
  }

  /** Disposing a live lock once makes a valid history whose lock is disposed exactly once. */
  lemma DisposeHistory(t: seq<Step>, disposed: bool)
    requires ValidHistory(t, false, disposed)
    ensures ValidHistory(t + [DisposeLock], true, true)
    ensures Count(t + [DisposeLock], DisposeLock) == 1
  {
    CountConcat(t, [DisposeLock], DisposeLock);
    DisciplineConcat(t, [DisposeLock]);
  }

  // ---------------------------------------------------------------------------
  // Invocation lists: `+=` and `-=` on an event

  /** `-=` on an event: the last occurrence of `h` leaves the invocation list. */
  function RemoveLast<X(==)>(s: seq<X>, h: X): (r: seq<X>)
    ensures h !in s ==> r == s
    ensures h in s ==> |r| == |s| - 1
  {
    if s == [] then []
    else if s[|s| - 1] == h then s[..|s| - 1]
    else RemoveLast(s[..|s| - 1], h) + [s[|s| - 1]]
  }

  /** Removing a handler takes out exactly one of its occurrences and no other handler. */
  lemma {:induction false} RemoveLastCount<X>(s: seq<X>, h: X, x: X)
    ensures Count(RemoveLast(s, h), x) ==
            if x == h && h in s then Count(s, x) - 1 else Count(s, x)
  {
    if s != [] {
      var s', y := s[..|s| - 1], s[|s| - 1];
      assert s == s' + [y];
      assert Count(s, x) == Count(s', x) + (if y == x then 1 else 0) by {
        CountSnoc(s', y, x);
      }
      if y != h {
        assert RemoveLast(s, h) == RemoveLast(s', h) + [y];
        assert h in s <==> h in s';
        assert Count(RemoveLast(s', h), x) == if x == h && h in s' then Count(s', x) - 1 else Count(s', x) by {
          RemoveLastCount(s', h, x);
        }
        CountSnoc(RemoveLast(s', h), y, x);
      }
    }
  }

  /** Where the last occurrence of `h` in `s` sits. */
  function LastIndex<X(==)>(s: seq<X>, h: X): (j: nat)
    requires h in s
    ensures j < |s| && s[j] == h && h !in s[j + 1..]
  {
    var s', y := s[..|s| - 1], s[|s| - 1];
    if y == h then |s| - 1
    else
      assert s == s' + [y];
      var j := LastIndex(s', h);
      assert s[j + 1..] == s'[j + 1..] + [y];
      j
  }

  /** `-=` cuts the list at the last occurrence of the handler. */
  lemma {:induction false} RemoveLastAt<X>(s: seq<X>, h: X)
    requires h in s
    ensures RemoveLast(s, h) == s[..LastIndex(s, h)] + s[LastIndex(s, h) + 1..]
  {
    var s', y := s[..|s| - 1], s[|s| - 1];
    var j := LastIndex(s, h);
    if y != h {
      assert s == s' + [y];
      assert j == LastIndex(s', h);
      RemoveLastAt(s', h);
      assert s[..j] == s'[..j];
      assert s[j + 1..] == s'[j + 1..] + [y];
    }
  }

  /**
   * `-=` takes out the last occurrence of the handler and nothing else: the
   * entries before it and after it stay, in their order.
   */
  lemma RemoveLastIsLast<X>(s: seq<X>, h: X)
    requires h in s
    ensures exists j :: 0 <= j < |s| && s[j] == h && h !in s[j + 1..] && RemoveLast(s, h) == s[..j] + s[j + 1..]
  {
    var j := LastIndex(s, h);
    RemoveLastAt(s, h);
    assert s[j] == h && h !in s[j + 1..] && RemoveLast(s, h) == s[..j] + s[j + 1..];
  }

  /** `-=` undoes the `+=` just before it, whatever the list held. */
  lemma SubscribeThenUnsubscribe<X>(s: seq<X>, h: X)
    ensures RemoveLast(s + [h], h) == s
  {
    assert (s + [h])[..|s|] == s;
  }

  // ---------------------------------------------------------------------------
  // Raising an event

  /** Invoking one handler for event `kind` raised by `sender` about property `name`. */
  function Dispatch(h: Handler, kind: EventKind, sender: object, name: string): (c: Call)
    ensures c.ChildHook? <==> h.Forwarder?
    ensures c.ChildHook? ==> c.parent == h.parent && c.kind == h.kind && c.child == sender && c.name == name
    ensures c.Listener? ==> c.id == h.id && c.kind == kind && c.sender == sender && c.name == name
  {
    match h
    case Forwarder(parent, k) => ChildHook(parent, k, sender, name)
    case Subscriber(id) => Listener(id, kind, sender, name)
  }

  /** Invoking a whole invocation list, in order. */
  function Calls(hs: seq<Handler>, kind: EventKind, sender: object, name: string): (cs: seq<Call>)
    ensures |cs| == |hs|
    ensures forall i :: 0 <= i < |hs| ==> cs[i] == Dispatch(hs[i], kind, sender, name)
  {
    if hs == [] then []
    else Calls(hs[..|hs| - 1], kind, sender, name) + [Dispatch(hs[|hs| - 1], kind, sender, name)]
  }

  /**
   * A parent's hook is reached once per subscription of its forwarder: raising
   * an event reaches `OnChildPropertyChanging`/`OnChildPropertyChanged` of
   * `parent` for `(sender, name)` exactly as often as the forwarder occurs in
   * the invocation list.
   */
  lemma {:induction false} HookCallsMatchSubscriptions(
    hs: seq<Handler>, kind: EventKind, sender: object, name: string, parent: object, k: EventKind)
    ensures Count(Calls(hs, kind, sender, name), ChildHook(parent, k, sender, name)) ==
            Count(hs, Forwarder(parent, k))
  {
    if hs != [] {
      var hs' := hs[..|hs| - 1];
      HookCallsMatchSubscriptions(hs', kind, sender, name, parent, k);
      var cs := Calls(hs, kind, sender, name);
      assert cs[..|cs| - 1] == Calls(hs', kind, sender, name);
    }
  }
}
