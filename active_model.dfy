/**
 * The thread-safe, notifying, hierarchical model base class and the
 * observable collections it can register as a whole.
 *
 * A backing field that the source passes by reference is passed in and
 * handed back (`field` in, `newField` out). The reader/writer lock shows
 * up only in the ghost `trace`; .NET events are their invocation lists.
 */
module ActiveModels {
  import opened Counting
  import opened Tracing

  /** `+=` when `when` holds. */
  function SubscribeIf(hs: seq<Handler>, h: Handler, when: bool): seq<Handler>
  {
    if when then hs + [h] else hs
  }

  /** `-=` when `when` holds. */
  function UnsubscribeIf(hs: seq<Handler>, h: Handler, when: bool): seq<Handler>
  {
    if when then RemoveLast(hs, h) else hs
  }

  /** The steps of raising event `kind`, which happens only when notifications are on. */
  function Notify(notify: bool, kind: EventKind, name: string, hs: seq<Handler>): seq<Step>
  {
    if notify then [Raise(kind, name, hs)] else []
  }

  /**
   * The steps of one `Set` on a live lock: the upgradeable read lock around
   * the comparison; when the value differs, the Changing event, the write lock
   * around the assignment alone, then the Changed event before the upgradeable
   * lock is left.
   */
  function SetSteps(differs: bool, notify: bool, name: string,
                    changing: seq<Handler>, changed: seq<Handler>): seq<Step>
  {
    if !differs then [Enter(UpgradeableRead), Exit(UpgradeableRead)]
    else [Enter(UpgradeableRead)]
         + Notify(notify, Changing, name, changing)
         + [Enter(Write)] + [Assign(name)] + [Exit(Write)]
         + Notify(notify, Changed, name, changed)
         + [Exit(UpgradeableRead)]
  }

  /**
   * What a listener sees of one Set: nothing when the value is equal; when it
   * differs, the assignment under the write lock, and with notifications on,
   * exactly one Changing before it and one Changed after it, for the same
   * name, both under the upgradeable read lock.
   */
  function SetView(differs: bool, notify: bool, name: string): seq<Observation>
  {
    if !differs then []
    else if notify then
      [Event(Changing, name, UpgradeableRead), Wrote(name, Write), Event(Changed, name, UpgradeableRead)]
    else [Wrote(name, Write)]
  }

  /** An observable collection of models, with its CollectionChanged invocation list. */
  class ObservableCollection {
    var items: seq<ActiveModel>
    /** The owners whose ChildCollectionChanged handler is subscribed, in order. */
    var collectionChanged: seq<ActiveModel>

    constructor (items: seq<ActiveModel>)
      ensures this.items == items && collectionChanged == []
    {
      this.items := items;
      collectionChanged := [];
    }
  }

  class ActiveModel {
    /** Whether PropertyChanging and PropertyChanged are raised at all. */
    var shouldNotify: bool
    /** The invocation lists of the PropertyChanging and PropertyChanged events. */
    var propertyChanging: seq<Handler>
    var propertyChanged: seq<Handler>
    /** The registration ledger: children and child collections, keyed by reference. */
    var children: set<ActiveModel>
    var childCollections: set<ObservableCollection>
    var disposed: bool
    /** Whether the instance's reader/writer lock has been disposed. */
    var lockDisposed: bool
    /** Everything this instance has done with its lock and its events. */
    ghost var trace: seq<Step>

    ghost predicate Valid()
      reads this`trace, this`disposed, this`lockDisposed
    {
      ValidHistory(trace, lockDisposed, disposed)
    }

    /** The invocation list of event `k`. */
    function Handlers(k: EventKind): seq<Handler>
      reads this`propertyChanging, this`propertyChanged
    {
      if k == Changing then propertyChanging else propertyChanged
    }

    /**
     * This parent forwards the events of `c` once while `c` is a registered
     * child, and not at all otherwise: its forwarder occurs exactly once in
     * each of the two invocation lists of a child, and nowhere else.
     */
    ghost predicate Forwards(c: ActiveModel)
      reads this`children, c`propertyChanging, c`propertyChanged
    {
      && Count(c.propertyChanging, Forwarder(this, Changing)) == (if c in children then 1 else 0)
      && Count(c.propertyChanged, Forwarder(this, Changed)) == (if c in children then 1 else 0)
    }

    constructor ()
      ensures Valid() && shouldNotify && !disposed && !lockDisposed && trace == []
      ensures propertyChanging == [] && propertyChanged == []
      ensures children == {} && childCollections == {}
    {
      shouldNotify := true;
      propertyChanging, propertyChanged := [], [];
      children, childCollections := {}, {};
      disposed, lockDisposed := false, false;
      trace := [];
    }

    /** The protected ShouldNotify setter. */
    method SetShouldNotify(notify: bool)
      modifies this`shouldNotify
      ensures shouldNotify == notify
    {
      shouldNotify := notify;
    }

    /** `+=` of an outside listener on PropertyChanging or PropertyChanged. */
    method AddHandler(kind: EventKind, id: nat)
      modifies this`propertyChanging, this`propertyChanged
      ensures kind == Changing ==>
        propertyChanging == old(propertyChanging) + [Subscriber(id)] && propertyChanged == old(propertyChanged)
      ensures kind == Changed ==>
        propertyChanged == old(propertyChanged) + [Subscriber(id)] && propertyChanging == old(propertyChanging)
    {
      if kind == Changing {
        propertyChanging := propertyChanging + [Subscriber(id)];
      } else {
        propertyChanged := propertyChanged + [Subscriber(id)];
      }
    }

    /** `-=` of an outside listener on PropertyChanging or PropertyChanged. */
    method RemoveHandler(kind: EventKind, id: nat)
      modifies this`propertyChanging, this`propertyChanged
      ensures kind == Changing ==>
        propertyChanging == RemoveLast(old(propertyChanging), Subscriber(id)) && propertyChanged == old(propertyChanged)
      ensures kind == Changed ==>
        propertyChanged == RemoveLast(old(propertyChanged), Subscriber(id)) && propertyChanging == old(propertyChanging)
    {
      if kind == Changing {
        propertyChanging := RemoveLast(propertyChanging, Subscriber(id));
      } else {
        propertyChanged := RemoveLast(propertyChanged, Subscriber(id));
      }
    }

    /**
     * Dispose(disposing): only the first call does anything; it disposes the
     * lock when called from user code, and marks the instance disposed.
     */
    method Dispose(disposing: bool)
      requires Valid()
      modifies this`disposed, this`lockDisposed, this`trace
      ensures Valid() && disposed
      ensures old(disposed) ==> lockDisposed == old(lockDisposed) && trace == old(trace)
      ensures !old(disposed) ==>
        lockDisposed == disposing && trace == old(trace) + (if disposing then [DisposeLock] else [])
    {
      if disposed {
        return;
      }
      if disposing {
        DisposeHistory(trace, disposed);
        trace := trace + [DisposeLock];
        lockDisposed := true;
      }
      disposed := true;
    }

    /** OnPropertyChanging: raises PropertyChanging when notifications are on; never cancels. */
    method OnPropertyChanging(name: string) returns (proceed: bool)
      modifies this`trace
      ensures proceed
      ensures trace == old(trace) + Notify(shouldNotify, Changing, name, propertyChanging)
    {
      if shouldNotify {
        trace := trace + [Raise(Changing, name, propertyChanging)];
      }
      proceed := true;
    }

    /** OnPropertyChanged: raises PropertyChanged when notifications are on. */
    method OnPropertyChanged(name: string)
      modifies this`trace
      ensures trace == old(trace) + Notify(shouldNotify, Changed, name, propertyChanged)
    {
      if shouldNotify {
        trace := trace + [Raise(Changed, name, propertyChanged)];
      }
    }

    /**
     * Set(ref field, value, name): on a differing value the field takes the
     * value and the result is true; on an equal one nothing is raised and the
     * result is false. The lock discipline of the instance is kept.
     */
    method Set<T(==)>(field: T, value: T, name: string) returns (result: Outcome<bool>, newField: T)
      requires Valid()
      modifies this`trace
      ensures Valid()
      ensures lockDisposed ==> result == LockDisposedError && newField == field && trace == old(trace)
      ensures !lockDisposed ==> result == Done(field != value) && newField == value
      ensures !lockDisposed ==>
        trace == old(trace) + SetSteps(field != value, shouldNotify, name, propertyChanging, propertyChanged)
      ensures !lockDisposed ==>
        Observed(trace) == Observed(old(trace)) + SetView(field != value, shouldNotify, name)
    {
      newField := field;
      if lockDisposed {
        return LockDisposedError, newField;
      }
      ghost var before := trace;
      ghost var done := [Enter(UpgradeableRead)];
      trace := before + done;
      result := Done(false);
      if field != value {
        var _ := OnPropertyChanging(name);
        ghost var changing := Notify(shouldNotify, Changing, name, propertyChanging);
        assert before + done + changing == before + (done + changing);
        done := done + changing + [Enter(Write)];
        newField := value;
        done := done + [Assign(name)] + [Exit(Write)];
        trace := before + done;
        OnPropertyChanged(name);
        ghost var changed := Notify(shouldNotify, Changed, name, propertyChanged);
        assert before + done + changed == before + (done + changed);
        done := done + changed + [Exit(UpgradeableRead)];
        result := Done(true);
      } else {
        done := done + [Exit(UpgradeableRead)];
      }
      trace := before + done;
      assert done == SetSteps(field != value, shouldNotify, name, propertyChanging, propertyChanged);
      SetStepsKeepDiscipline(field != value, shouldNotify, name, propertyChanging, propertyChanged);
      ExtendHistory(before, done, lockDisposed, disposed);
      SetObservedInHistory(before, field != value, shouldNotify, name, propertyChanging, propertyChanged);
    }

    /** Get(ref field): the field's value, read under the read lock; no other state changes. */
    method Get<T>(field: T) returns (result: Outcome<T>)
      requires Valid()
      modifies this`trace
      ensures Valid()
      ensures result == if lockDisposed then LockDisposedError else Done(field)
      ensures trace == if lockDisposed then old(trace) else old(trace) + [Enter(Read), Exit(Read)]
    {
      if lockDisposed {
        return LockDisposedError;
      }
      ghost var steps := [Enter(Read), Exit(Read)];
      assert Held(steps) == Unlocked by {
        assert steps[..1] == [Enter(Read)];
      }
      ExtendHistory(trace, steps, lockDisposed, disposed);
      trace := trace + steps;
      result := Done(field);
    }

    /**
     * RegisterChild: true exactly when the child was not registered yet; then
     * this parent's two forwarders are appended to the child's events.
     */
    method RegisterChild(child: ActiveModel) returns (added: bool)
      modifies this`children, child`propertyChanging, child`propertyChanged
      ensures added == (child !in old(children))
      ensures children == old(children) + {child}
      ensures child.propertyChanging == SubscribeIf(old(child.propertyChanging), Forwarder(this, Changing), added)
      ensures child.propertyChanged == SubscribeIf(old(child.propertyChanged), Forwarder(this, Changed), added)
      ensures old(Forwards(child)) ==> Forwards(child)
    {
      added := child !in children;
      if added {
        var changing, changed := child.propertyChanging, child.propertyChanged;
        children := children + {child};
        child.propertyChanging := changing + [Forwarder(this, Changing)];
        child.propertyChanged := changed + [Forwarder(this, Changed)];
        SubscribeForwarding(changing, Forwarder(this, Changing));
        SubscribeForwarding(changed, Forwarder(this, Changed));
      }
    }

    /**
     * UnregisterChild: true exactly when the child was registered; then this
     * parent's two forwarders leave the child's events.
     */
    method UnregisterChild(child: ActiveModel) returns (removed: bool)
      modifies this`children, child`propertyChanging, child`propertyChanged
      ensures removed == (child in old(children))
      ensures children == old(children) - {child}
      ensures child.propertyChanging == UnsubscribeIf(old(child.propertyChanging), Forwarder(this, Changing), removed)
      ensures child.propertyChanged == UnsubscribeIf(old(child.propertyChanged), Forwarder(this, Changed), removed)
      ensures old(Forwards(child)) ==> Forwards(child)
    {
      removed := child in children;
      if removed {
        var changing, changed := child.propertyChanging, child.propertyChanged;
        children := children - {child};
        child.propertyChanged := RemoveLast(changed, Forwarder(this, Changed));
        child.propertyChanging := RemoveLast(changing, Forwarder(this, Changing));
        UnsubscribeForwarding(changing, Forwarder(this, Changing));
        UnsubscribeForwarding(changed, Forwarder(this, Changed));
      }
    }

    /** Registers every item in order, as the `foreach` over a batch does. */
    method RegisterEach(items: seq<ActiveModel>)
      modifies this`children, items`propertyChanging, items`propertyChanged
      ensures children == old(children) + (set c | c in items)
      ensures forall c :: c in items ==>
        c.propertyChanging == SubscribeIf(old(c.propertyChanging), Forwarder(this, Changing), c !in old(children))
      ensures forall c :: c in items ==>
        c.propertyChanged == SubscribeIf(old(c.propertyChanged), Forwarder(this, Changed), c !in old(children))
      ensures forall c :: c in items && old(Forwards(c)) ==> Forwards(c)
    {
      ghost var seen: set<ActiveModel> := {};
      for i := 0 to |items|
        invariant seen == set c | c in items[..i]
        invariant children == old(children) + seen
        invariant forall c {:trigger c in items} :: c in items ==>
          c.propertyChanging == SubscribeIf(old(c.propertyChanging), Forwarder(this, Changing), c in seen && c !in old(children))
        invariant forall c {:trigger c in items} :: c in items ==>
          c.propertyChanged == SubscribeIf(old(c.propertyChanged), Forwarder(this, Changed), c in seen && c !in old(children))
      {
        assert items[..i + 1] == items[..i] + [items[i]];
        var _ := RegisterChild(items[i]);
        seen := seen + {items[i]};
      }
      assert items[..|items|] == items;
      forall c | c in items && old(Forwards(c))
        ensures Forwards(c)
      {
        if c !in old(children) {
          SubscribeForwarding(old(c.propertyChanging), Forwarder(this, Changing));
        }
        if c !in old(children) {
          SubscribeForwarding(old(c.propertyChanged), Forwarder(this, Changed));
        }
      }
    }

    /** Unregisters every item in order, as the `foreach` over a batch does. */
    method UnregisterEach(items: seq<ActiveModel>)
      modifies this`children, items`propertyChanging, items`propertyChanged
      ensures children == old(children) - (set c | c in items)
      ensures forall c :: c in items ==>
        c.propertyChanging == UnsubscribeIf(old(c.propertyChanging), Forwarder(this, Changing), c in old(children))
      ensures forall c :: c in items ==>
        c.propertyChanged == UnsubscribeIf(old(c.propertyChanged), Forwarder(this, Changed), c in old(children))
      ensures forall c :: c in items && old(Forwards(c)) ==> Forwards(c)
    {
      ghost var seen: set<ActiveModel> := {};
      for i := 0 to |items|
        invariant seen == set c | c in items[..i]
        invariant children == old(children) - seen
        invariant forall c {:trigger c in items} :: c in items ==>
          c.propertyChanging == UnsubscribeIf(old(c.propertyChanging), Forwarder(this, Changing), c in seen && c in old(children))
        invariant forall c {:trigger c in items} :: c in items ==>
          c.propertyChanged == UnsubscribeIf(old(c.propertyChanged), Forwarder(this, Changed), c in seen && c in old(children))
      {
        assert items[..i + 1] == items[..i] + [items[i]];
        var _ := UnregisterChild(items[i]);
        seen := seen + {items[i]};
      }
      assert items[..|items|] == items;
      forall c | c in items && old(Forwards(c))
        ensures Forwards(c)
      {
        if c in old(children) {
          UnsubscribeForwarding(old(c.propertyChanging), Forwarder(this, Changing));
        }
        if c in old(children) {
          UnsubscribeForwarding(old(c.propertyChanged), Forwarder(this, Changed));
        }
      }
    }

    /**
     * RegisterChildCollection: true exactly when the collection was not
     * registered yet; then this parent listens to the collection and every
     * current item is registered as a child.
     */
    method RegisterChildCollection(coll: ObservableCollection) returns (added: bool)
      modifies this`childCollections, this`children, coll`collectionChanged
      modifies coll.items`propertyChanging, coll.items`propertyChanged
      ensures added == (coll !in old(childCollections))
      ensures childCollections == old(childCollections) + {coll}
      ensures coll.collectionChanged == if added then old(coll.collectionChanged) + [this] else old(coll.collectionChanged)
      ensures children == if added then old(children) + (set c | c in coll.items) else old(children)
      ensures forall c :: c in coll.items ==>
        c.propertyChanging == SubscribeIf(old(c.propertyChanging), Forwarder(this, Changing), added && c !in old(children))
      ensures forall c :: c in coll.items ==>
        c.propertyChanged == SubscribeIf(old(c.propertyChanged), Forwarder(this, Changed), added && c !in old(children))
      ensures forall c :: c in coll.items && old(Forwards(c)) ==> Forwards(c)
    {
      added := coll !in childCollections;
      if added {
        childCollections := childCollections + {coll};
        coll.collectionChanged := coll.collectionChanged + [this];
        RegisterEach(coll.items);
      }
    }

    /**
     * UnregisterChildCollection: true exactly when the collection was
     * registered; then this parent stops listening to it and every current
     * item is unregistered as a child.
     */
    method UnregisterChildCollection(coll: ObservableCollection) returns (removed: bool)
      modifies this`childCollections, this`children, coll`collectionChanged
      modifies coll.items`propertyChanging, coll.items`propertyChanged
      ensures removed == (coll in old(childCollections))
      ensures childCollections == old(childCollections) - {coll}
      ensures coll.collectionChanged == if removed then RemoveLast(old(coll.collectionChanged), this) else old(coll.collectionChanged)
      ensures children == if removed then old(children) - (set c | c in coll.items) else old(children)
      ensures forall c :: c in coll.items ==>
        c.propertyChanging == UnsubscribeIf(old(c.propertyChanging), Forwarder(this, Changing), removed && c in old(children))
      ensures forall c :: c in coll.items ==>
        c.propertyChanged == UnsubscribeIf(old(c.propertyChanged), Forwarder(this, Changed), removed && c in old(children))
      ensures forall c :: c in coll.items && old(Forwards(c)) ==> Forwards(c)
    {
      removed := coll in childCollections;
      if removed {
        childCollections := childCollections - {coll};
        coll.collectionChanged := RemoveLast(coll.collectionChanged, this);
        UnregisterEach(coll.items);
      }
    }

    /**
     * ChildCollectionChanged: a registered collection reports a batch; every
     * added item is registered, then every removed item is unregistered, so
     * an item in both batches ends up unregistered.
     */
    method ChildCollectionChanged(sender: ObservableCollection,
                                  newItems: seq<ActiveModel>, oldItems: seq<ActiveModel>)
      requires sender in childCollections
      modifies this`children
      modifies newItems`propertyChanging, newItems`propertyChanged
      modifies oldItems`propertyChanging, oldItems`propertyChanged
      ensures children == (old(children) + (set c | c in newItems)) - (set c | c in oldItems)
      ensures forall c :: c in oldItems ==> c !in children
      ensures forall c :: c in newItems + oldItems ==>
        c.propertyChanging == UnsubscribeIf(
          SubscribeIf(old(c.propertyChanging), Forwarder(this, Changing), c in newItems && c !in old(children)),
          Forwarder(this, Changing), c in oldItems && (c in old(children) || c in newItems))
      ensures forall c :: c in newItems + oldItems ==>
        c.propertyChanged == UnsubscribeIf(
          SubscribeIf(old(c.propertyChanged), Forwarder(this, Changed), c in newItems && c !in old(children)),
          Forwarder(this, Changed), c in oldItems && (c in old(children) || c in newItems))
      ensures forall c :: c in newItems + oldItems && old(Forwards(c)) ==> Forwards(c)
    {
      RegisterEach(newItems);
      UnregisterEach(oldItems);
    }

    /**
     * Registering a collection that was not registered and unregistering it
     * again restores both ledgers and the collection's listeners. Each item
     * that was not a child before gets its invocation lists back as they
     * were; an item that was already registered as a child on its own is
     * unregistered as well, so the round trip is the identity exactly when
     * no item was a child before.
     */
    method RegisterThenUnregisterCollection(coll: ObservableCollection) returns (added: bool, removed: bool)
      requires coll !in childCollections
      modifies this`childCollections, this`children, coll`collectionChanged
      modifies coll.items`propertyChanging, coll.items`propertyChanged
      ensures added && removed
      ensures childCollections == old(childCollections)
      ensures coll.collectionChanged == old(coll.collectionChanged)
      ensures children == old(children) - (set c | c in coll.items)
      ensures (forall c :: c in coll.items ==> c !in old(children)) ==> children == old(children)
      ensures forall c :: c in coll.items && c !in old(children) ==>
        c.propertyChanging == old(c.propertyChanging) && c.propertyChanged == old(c.propertyChanged)
      ensures forall c :: c in coll.items && c in old(children) ==>
        && c !in children
        && c.propertyChanging == RemoveLast(old(c.propertyChanging), Forwarder(this, Changing))
        && c.propertyChanged == RemoveLast(old(c.propertyChanged), Forwarder(this, Changed))
    {
      added := RegisterChildCollection(coll);
      SubscribeThenUnsubscribe(old(coll.collectionChanged), this);
      removed := UnregisterChildCollection(coll);
      forall c | c in coll.items && c !in old(children)
        ensures c.propertyChanging == old(c.propertyChanging) && c.propertyChanged == old(c.propertyChanged)
      {
        SubscribeThenUnsubscribe(old(c.propertyChanging), Forwarder(this, Changing));
        SubscribeThenUnsubscribe(old(c.propertyChanged), Forwarder(this, Changed));
      }
    }
  }

  // ---------------------------------------------------------------------------
  // What one Set amounts to

  /** Every Set keeps the lock discipline: lock released at the end, no event under the write lock. */
  lemma SetStepsKeepDiscipline(differs: bool, notify: bool, name: string,
                               changing: seq<Handler>, changed: seq<Handler>)
    ensures LockDiscipline(SetSteps(differs, notify, name, changing, changed))
    ensures DisposeLock !in SetSteps(differs, notify, name, changing, changed)
  {
    SetObserved(differs, notify, name, changing, changed);
    DisciplineObserved(SetSteps(differs, notify, name, changing, changed));
  }

  /** Raising an event when notifications are on shows it, in the mode held; otherwise nothing happens. */
  lemma NotifyObserved(t: seq<Step>, notify: bool, kind: EventKind, name: string, hs: seq<Handler>)
    ensures Held(t + Notify(notify, kind, name, hs)) == Held(t)
    ensures Observed(t + Notify(notify, kind, name, hs)) ==
      Observed(t) + (if notify then [Event(kind, name, Held(t))] else [])
  {
    if notify {
      Snoc(t, Raise(kind, name, hs));
    } else {
      assert t + Notify(notify, kind, name, hs) == t;
    }
  }

  /** What a listener sees of one Set run from a released lock is `SetView`, and the lock is released again. */
  lemma SetObserved(differs: bool, notify: bool, name: string,
                    changing: seq<Handler>, changed: seq<Handler>)
    ensures Held(SetSteps(differs, notify, name, changing, changed)) == Unlocked
    ensures Observed(SetSteps(differs, notify, name, changing, changed)) == SetView(differs, notify, name)
  {
    var U := UpgradeableRead;
    if !differs {
      var t0 := [Enter(U)];
      assert Held(t0) == U && Observed(t0) == [] by {
        Snoc([], Enter(U));
        assert [] + [Enter(U)] == t0;
      }
      assert SetSteps(differs, notify, name, changing, changed) == t0 + [Exit(U)];
      Snoc(t0, Exit(U));
    } else {
      var t5 := [Enter(U)] + Notify(notify, Changing, name, changing)
                + [Enter(Write)] + [Assign(name)] + [Exit(Write)]
                + Notify(notify, Changed, name, changed);
      ChangeObserved(notify, name, changing, changed);
      Snoc(t5, Exit(U));
    }
  }

  /**
   * On an instance whose history keeps the lock discipline, one more Set keeps
   * it and shows `SetView` after everything the history showed before.
   */
  lemma SetObservedInHistory(t: seq<Step>, differs: bool, notify: bool, name: string,
                             changing: seq<Handler>, changed: seq<Handler>)
    requires LockDiscipline(t)
    ensures LockDiscipline(t + SetSteps(differs, notify, name, changing, changed))
    ensures Observed(t + SetSteps(differs, notify, name, changing, changed)) ==
            Observed(t) + SetView(differs, notify, name)
  {
    var u := SetSteps(differs, notify, name, changing, changed);
    SetStepsKeepDiscipline(differs, notify, name, changing, changed);
    DisciplineConcat(t, u);
    SetObserved(differs, notify, name, changing, changed);
    ObservedAfterRelease(t, u);
  }

  /** The part of a differing Set that runs under the upgradeable read lock. */
  lemma ChangeObserved(notify: bool, name: string, changing: seq<Handler>, changed: seq<Handler>)
    ensures var t := [Enter(UpgradeableRead)] + Notify(notify, Changing, name, changing)
                     + [Enter(Write)] + [Assign(name)] + [Exit(Write)]
                     + Notify(notify, Changed, name, changed);
            Held(t) == UpgradeableRead
            && Observed(t) ==
               if notify then
                 [Event(Changing, name, UpgradeableRead), Wrote(name, Write), Event(Changed, name, UpgradeableRead)]
               else [Wrote(name, Write)]
  {
    var U := UpgradeableRead;
    var t0 := [Enter(U)];
    assert Held(t0) == U && Observed(t0) == [] by {
      Snoc([], Enter(U));
      assert [] + [Enter(U)] == t0;
    }
    var t1 := t0 + Notify(notify, Changing, name, changing);
    var seen1 := if notify then [Event(Changing, name, U)] else [];
    assert Held(t1) == U && Observed(t1) == seen1 by {
      NotifyObserved(t0, notify, Changing, name, changing);
    }
    var t4 := t1 + [Enter(Write)] + [Assign(name)] + [Exit(Write)];
    assert Held(t4) == U && Observed(t4) == seen1 + [Wrote(name, Write)] by {
      WriteSection(t1, name);
    }
    NotifyObserved(t4, notify, Changed, name, changed);
  }

  // ---------------------------------------------------------------------------
  // Forwarding follows registration

  /** Subscribing the forwarder of a parent to a child that carried none makes it occur exactly once. */
  lemma SubscribeForwarding(hs: seq<Handler>, f: Handler)
    ensures Count(hs, f) == 0 ==> Count(hs + [f], f) == 1
  {
    CountSnoc(hs, f, f);
  }

  /** Unsubscribing the forwarder from a child that carried it once leaves none. */
  lemma UnsubscribeForwarding(hs: seq<Handler>, f: Handler)
    ensures Count(hs, f) == 1 ==> Count(RemoveLast(hs, f), f) == 0
  {
    RemoveLastCount(hs, f, f);
  }

  /**
   * While a parent keeps its forwarding in step with its ledger, raising
   * either event of a child reaches the parent's hook exactly once when the
   * child is registered, and not at all when it is not.
   */
  lemma ForwardingFollowsRegistration(parent: ActiveModel, child: ActiveModel, k: EventKind, name: string)
    requires parent.Forwards(child)
    ensures Count(Calls(child.Handlers(k), k, child, name), ChildHook(parent, k, child, name)) ==
            if child in parent.children then 1 else 0
  {
    HookCallsMatchSubscriptions(child.Handlers(k), k, child, name, parent, k);
  }

  /**
   * A fresh parent and child: registering the child makes its PropertyChanged
   * reach the parent's hook once; registering it again is refused;
   * unregistering it stops the forwarding; unregistering it again is refused.
   */
  method RegistrationScenario(name: string)
    returns (first: bool, again: bool, whileRegistered: nat, gone: bool, goneAgain: bool, afterwards: nat)
    ensures first && !again && whileRegistered == 1
    ensures gone && !goneAgain && afterwards == 0
  {
    var parent := new ActiveModel();
    var child := new ActiveModel();
    assert parent.Forwards(child);
    first := parent.RegisterChild(child);
    assert child in parent.children && parent.Forwards(child);
    again := parent.RegisterChild(child);
    ForwardingFollowsRegistration(parent, child, Changed, name);
    whileRegistered := Count(Calls(child.Handlers(Changed), Changed, child, name), ChildHook(parent, Changed, child, name));
    gone := parent.UnregisterChild(child);
    assert child !in parent.children && parent.Forwards(child);
    goneAgain := parent.UnregisterChild(child);
    ForwardingFollowsRegistration(parent, child, Changed, name);
    afterwards := Count(Calls(child.Handlers(Changed), Changed, child, name), ChildHook(parent, Changed, child, name));
  }
}
