/**
 * The record base class: the same lock-guarded accessors as the model base
 * class, but PropertyChanged is raised only once every lock is released,
 * and every changed property name is kept in a growing ledger.
 */
module ActiveRecords {
  import opened Counting
  import opened Tracing

  /**
   * The steps of one `Set` on a live lock: the upgradeable read lock around
   * the comparison; when the value differs, the Changing event under it and
   * the write lock around the assignment alone; the Changed event only after
   * the upgradeable lock is left.
   */
  function RecordSetSteps(differs: bool, name: string,
                          changing: seq<Handler>, changed: seq<Handler>): seq<Step>
  {
    if !differs then [Enter(UpgradeableRead), Exit(UpgradeableRead)]
    else [Enter(UpgradeableRead)] + [Raise(Changing, name, changing)]
         + [Enter(Write)] + [Assign(name)] + [Exit(Write)]
         + [Exit(UpgradeableRead)] + [Raise(Changed, name, changed)]
  }

  /**
   * What a listener sees of one record Set: nothing when the value is equal;
   * when it differs, exactly one Changing under the upgradeable read lock, the
   * assignment under the write lock, then exactly one Changed, for the same
   * name, with no lock held at all.
   */
  function RecordSetView(differs: bool, name: string): seq<Observation>
  {
    if !differs then []
    else [Event(Changing, name, UpgradeableRead), Wrote(name, Write), Event(Changed, name, Unlocked)]
  }

  class ActiveRecord {
    /** The invocation lists of the PropertyChanging and PropertyChanged events. */
    var propertyChanging: seq<Handler>
    var propertyChanged: seq<Handler>
    /** The names of every property that has changed. */
    var propertiesChanged: set<string>
    var disposed: bool
    /** Whether the instance's reader/writer lock has been disposed. */
    var lockDisposed: bool
    /** Everything this instance has done with its lock and its events. */
    ghost var trace: seq<Step>

    ghost predicate Valid()
      reads this`trace, this`disposed, this`lockDisposed
    {
      ValidHistory(trace, lockDisposed, disposed)
    }

    constructor ()
      ensures Valid() && !disposed && !lockDisposed && trace == []
      ensures propertyChanging == [] && propertyChanged == [] && propertiesChanged == {}
    {
      propertyChanging, propertyChanged := [], [];
      propertiesChanged := {};
      disposed, lockDisposed := false, false;
      trace := [];
    }

    /** `+=` of a listener on PropertyChanging or PropertyChanged. */
    method AddHandler(kind: EventKind, id: nat)
      modifies this`propertyChanging, this`propertyChanged
      ensures kind == Changing ==>
        propertyChanging == old(propertyChanging) + [Subscriber(id)] && propertyChanged == old(propertyChanged)
      ensures kind == Changed ==>
        propertyChanged == old(propertyChanged) + [Subscriber(id)] && propertyChanging == old(propertyChanging)
    {
      if kind == Changing {
        propertyChanging := propertyChanging + [Subscriber(id)];
      } else {
        propertyChanged := propertyChanged + [Subscriber(id)];
      }
    }

    /** `-=` of a listener on PropertyChanging or PropertyChanged. */
    method RemoveHandler(kind: EventKind, id: nat)
      modifies this`propertyChanging, this`propertyChanged
      ensures kind == Changing ==>
        propertyChanging == RemoveLast(old(propertyChanging), Subscriber(id)) && propertyChanged == old(propertyChanged)
      ensures kind == Changed ==>
        propertyChanged == RemoveLast(old(propertyChanged), Subscriber(id)) && propertyChanging == old(propertyChanging)
    {
      if kind == Changing {
        propertyChanging := RemoveLast(propertyChanging, Subscriber(id));
      } else {
        propertyChanged := RemoveLast(propertyChanged, Subscriber(id));
      }
    }

    /**
     * Dispose(disposing): only the first call does anything; it disposes the
     * lock when called from user code, and marks the instance disposed.
     */
    method Dispose(disposing: bool)
      requires Valid()
      modifies this`disposed, this`lockDisposed, this`trace
      ensures Valid() && disposed
      ensures old(disposed) ==> lockDisposed == old(lockDisposed) && trace == old(trace)
      ensures !old(disposed) ==>
        lockDisposed == disposing && trace == old(trace) + (if disposing then [DisposeLock] else [])
    {
      if disposed {
        return;
      }
      if disposing {
        DisposeHistory(trace, disposed);
        trace := trace + [DisposeLock];
        lockDisposed := true;
      }
      disposed := true;
    }

    /** OnPropertyChanging: raises PropertyChanging; never cancels. */
    method OnPropertyChanging(name: string) returns (proceed: bool)
      modifies this`trace
      ensures proceed
      ensures trace == old(trace) + [Raise(Changing, name, propertyChanging)]
    {
      trace := trace + [Raise(Changing, name, propertyChanging)];
      proceed := true;
    }

    /** OnPropertyChanged: records the name in the ledger, then raises PropertyChanged. */
    method OnPropertyChanged(name: string)
      modifies this`propertiesChanged, this`trace
      ensures propertiesChanged == old(propertiesChanged) + {name}
      ensures trace == old(trace) + [Raise(Changed, name, propertyChanged)]
    {
      propertiesChanged := propertiesChanged + {name};
      trace := trace + [Raise(Changed, name, propertyChanged)];
    }

    /**
     * Set(ref field, value, name): on a differing value the field takes the
     * value, the name joins the ledger and the result is true; on an equal one
     * nothing is raised, the ledger is unchanged and the result is false.
     */
    method Set<T(==)>(field: T, value: T, name: string) returns (result: Outcome<bool>, newField: T)
      requires Valid()
      modifies this`trace, this`propertiesChanged
      ensures Valid()
      ensures lockDisposed ==>
        result == LockDisposedError && newField == field
        && trace == old(trace) && propertiesChanged == old(propertiesChanged)
      ensures !lockDisposed ==> result == Done(field != value) && newField == value
      ensures !lockDisposed ==>
        propertiesChanged == old(propertiesChanged) + (if field != value then {name} else {})
      ensures !lockDisposed ==>
        trace == old(trace) + RecordSetSteps(field != value, name, propertyChanging, propertyChanged)
      ensures !lockDisposed ==> Observed(trace) == Observed(old(trace)) + RecordSetView(field != value, name)
    {
      newField := field;
      if lockDisposed {
        return LockDisposedError, newField;
      }
      ghost var before := trace;
      var propertyChangedFlag := false;
      ghost var done := [Enter(UpgradeableRead)];
      trace := before + done;
      if field != value {
        var _ := OnPropertyChanging(name);
        ghost var raised := [Raise(Changing, name, propertyChanging)];
        assert before + done + raised == before + (done + raised);
        done := done + raised + [Enter(Write)];
        newField := value;
        propertyChangedFlag := true;
        done := done + [Assign(name)] + [Exit(Write)];
      }
      done := done + [Exit(UpgradeableRead)];
      trace := before + done;
      if propertyChangedFlag {
        OnPropertyChanged(name);
        ghost var raised := [Raise(Changed, name, propertyChanged)];
        assert before + done + raised == before + (done + raised);
        done := done + raised;
      }
      result := Done(propertyChangedFlag);
      assert done == RecordSetSteps(field != value, name, propertyChanging, propertyChanged);
      RecordSetStepsKeepDiscipline(field != value, name, propertyChanging, propertyChanged);
      ExtendHistory(before, done, lockDisposed, disposed);
      RecordSetObservedInHistory(before, field != value, name, propertyChanging, propertyChanged);
    }

    /** Get(ref field): the field's value, read under the read lock; no other state changes. */
    method Get<T>(field: T) returns (result: Outcome<T>)
      requires Valid()
      modifies this`trace
      ensures Valid()
      ensures result == if lockDisposed then LockDisposedError else Done(field)
      ensures trace == if lockDisposed then old(trace) else old(trace) + [Enter(Read), Exit(Read)]
    {
      if lockDisposed {
        return LockDisposedError;
      }
      ghost var steps := [Enter(Read), Exit(Read)];
      assert Held(steps) == Unlocked by {
        assert steps[..1] == [Enter(Read)];
      }
      ExtendHistory(trace, steps, lockDisposed, disposed);
      trace := trace + steps;
      result := Done(field);
    }
  }

  // ---------------------------------------------------------------------------
  // What one Set amounts to

  lemma RecordSetStepsKeepDiscipline(differs: bool, name: string,
                                     changing: seq<Handler>, changed: seq<Handler>)
    ensures LockDiscipline(RecordSetSteps(differs, name, changing, changed))
    ensures DisposeLock !in RecordSetSteps(differs, name, changing, changed)
  {
    RecordSetObserved(differs, name, changing, changed);
    DisciplineObserved(RecordSetSteps(differs, name, changing, changed));
  }

  /** The part of a differing Set that runs under the upgradeable read lock. */
  lemma UnderUpgradeableLock(name: string, changing: seq<Handler>)
    ensures var t := [Enter(UpgradeableRead)] + [Raise(Changing, name, changing)]
                     + [Enter(Write)] + [Assign(name)] + [Exit(Write)];
            Held(t) == UpgradeableRead
            && Observed(t) == [Event(Changing, name, UpgradeableRead), Wrote(name, Write)]
  {
    var t0 := [Enter(UpgradeableRead)];
    assert Held(t0) == UpgradeableRead && Observed(t0) == [] by {
      Snoc([], Enter(UpgradeableRead));
      assert [] + [Enter(UpgradeableRead)] == t0;
    }
    var t1 := t0 + [Raise(Changing, name, changing)];
    assert Held(t1) == UpgradeableRead && Observed(t1) == [Event(Changing, name, UpgradeableRead)] by {
      Snoc(t0, Raise(Changing, name, changing));
    }
    WriteSection(t1, name);
  }

  /** What a listener sees of one record Set run from a released lock is `RecordSetView`. */
  lemma RecordSetObserved(differs: bool, name: string, changing: seq<Handler>, changed: seq<Handler>)
    ensures Held(RecordSetSteps(differs, name, changing, changed)) == Unlocked
    ensures Observed(RecordSetSteps(differs, name, changing, changed)) == RecordSetView(differs, name)
  {
    var U := UpgradeableRead;
    if !differs {
      var t0 := [Enter(U)];
      assert Held(t0) == U && Observed(t0) == [] by {
        Snoc([], Enter(U));
        assert [] + [Enter(U)] == t0;
      }
      assert RecordSetSteps(differs, name, changing, changed) == t0 + [Exit(U)];
      Snoc(t0, Exit(U));
    } else {
      var t4 := [Enter(U)] + [Raise(Changing, name, changing)]
                + [Enter(Write)] + [Assign(name)] + [Exit(Write)];
      UnderUpgradeableLock(name, changing);
      var t5 := t4 + [Exit(U)];
      Snoc(t4, Exit(U));
      assert RecordSetSteps(differs, name, changing, changed) == t5 + [Raise(Changed, name, changed)];
      Snoc(t5, Raise(Changed, name, changed));
    }
  }

  /**
   * On an instance whose history keeps the lock discipline, one more record
   * Set keeps it and shows `RecordSetView` after everything shown before.
   */
  lemma RecordSetObservedInHistory(t: seq<Step>, differs: bool, name: string,
                                   changing: seq<Handler>, changed: seq<Handler>)
    requires LockDiscipline(t)
    ensures LockDiscipline(t + RecordSetSteps(differs, name, changing, changed))
    ensures Observed(t + RecordSetSteps(differs, name, changing, changed)) ==
            Observed(t) + RecordSetView(differs, name)
  {
    var u := RecordSetSteps(differs, name, changing, changed);
    RecordSetStepsKeepDiscipline(differs, name, changing, changed);
    DisciplineConcat(t, u);
    RecordSetObserved(differs, name, changing, changed);
    ObservedAfterRelease(t, u);
  }
}
