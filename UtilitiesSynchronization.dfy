/** Formix.Utilities.Synchronization's in-process semaphore: a named
    quantity and a LinkedList<SemaphoreTask> in arrival order, the
    Execute/Wait/Signal protocol of its abstract base class with an
    optional deadline, and the static registry behind Initialize.

    Each lock-held section of the source is one atomic step here. Entries
    are objects and the queue compares them by reference. The CanExecute of
    this revision is modelled as written; `VerdictCharacterised` states
    what it computes, which is not the FIFO test of the other revisions. */
module UtilitiesSynchronization {
  import opened Faults
  import opened Sequences
  import opened Admission
  import opened FormixToken

  const MinInt32: int := -0x8000_0000
  const MaxInt32: int := 0x7FFF_FFFF

  /** A C# `int`. */
  type Int32 = x: int | MinInt32 <= x <= MaxInt32

  /** C# `int` subtraction in the default unchecked context: the exact
      difference wrapped into 32 bits, which is the difference itself
      whenever that fits. */
  function Sub32(a: Int32, b: Int32): (r: Int32)
    ensures (r - (a - b)) % 0x1_0000_0000 == 0
    ensures MinInt32 <= a - b <= MaxInt32 ==> r == a - b
  {
    var d := a - b;
    if d > MaxInt32 then d - 0x1_0000_0000
    else if d < MinInt32 then d + 0x1_0000_0000
    else d
  }

  /** A SemaphoreTask of this revision: the caller's action with a usage
      that nothing checks, a Guid, and the flag its Execute raises while
      the action runs. */
  class SemaphoreTask {
    const id: Guid
    const usage: Int32
    var isRunning: bool

    constructor (id: Guid, usage: Int32)
      ensures this.id == id && this.usage == usage && !isRunning
    {
      this.id := id;
      this.usage := usage;
      isRunning := false;
    }
  }

  /** The usages of the entries, in queue order. */
  function Usages(s: seq<SemaphoreTask>): (us: seq<int>)
    ensures |us| == |s|
    ensures forall i :: 0 <= i < |s| ==> us[i] == s[i].usage
  {
    seq(|s|, i requires 0 <= i < |s| => s[i].usage)
  }

  /** The running flags of the entries, in queue order. */
  function RunningFlags(s: seq<SemaphoreTask>): (r: seq<bool>)
    reads s
    ensures |r| == |s|
    ensures forall i :: 0 <= i < |s| ==> r[i] == s[i].isRunning
  {
    if s == [] then [] else RunningFlags(s[..|s| - 1]) + [s[|s| - 1].isRunning]
  }

  /** What CanExecute's loop computes over the entries `es` still to visit,
      with `remains` and the flag `flag` as they stand: at each entry the
      flag is raised when it is the entry asked about and `remains` covers
      its usage, and lowered whenever `remains` drops to 0 or below. Both
      subtractions are on C# `int`s and wrap. Wrap or no wrap, a true
      answer needs the flag already up or the entry among those visited. */
  function Verdict(es: seq<SemaphoreTask>, entry: SemaphoreTask, remains: Int32, flag: bool): (r: bool)
    ensures r ==> flag || entry in es
  {
    if es == [] then flag
    else
      var raised := if es[0] == entry && Sub32(remains, entry.usage) >= 0 then true else flag;
      var left := Sub32(remains, es[0].usage);
      Verdict(es[1..], entry, left, if left <= 0 then false else raised)
  }

  /** With positive usages the loop's answer does not depend on where the
      entry stands: it is raised by any occurrence, and survives exactly
      when the usage of every queued entry, the entry's own included, leaves
      something over. This holds as long as `remains` minus all of that
      usage does not pass Int32.MinValue, so that no subtraction wraps. */
  lemma {:induction false} VerdictCharacterised(es: seq<SemaphoreTask>, entry: SemaphoreTask, remains: Int32, flag: bool)
    requires Positive(Usages(es)) && remains - Sum(Usages(es)) >= MinInt32
    ensures Verdict(es, entry, remains, flag) ==
      if es == [] then flag else remains - Sum(Usages(es)) > 0 && (flag || entry in es)
  {
    if es != [] {
      var rest := es[1..];
      UsagesCons(es);
      if rest != [] {
        UsagesSumPositive(rest);
      }
      var left := Sub32(remains, es[0].usage);
      assert left == remains - es[0].usage;
      var raised := if es[0] == entry && Sub32(remains, entry.usage) >= 0 then true else flag;
      VerdictCharacterised(rest, entry, left, if left <= 0 then false else raised);
      assert entry in es <==> es[0] == entry || entry in rest;
    }
  }

  /** The total usage splits into the head's and the rest's. */
  lemma UsagesCons(es: seq<SemaphoreTask>)
    requires es != [] && Positive(Usages(es))
    ensures Positive(Usages(es[1..]))
    ensures Sum(Usages(es)) == es[0].usage + Sum(Usages(es[1..]))
  {
    assert Usages(es[1..]) == Usages(es)[1..];
    SumCons(Usages(es));
  }

  /** A non-empty queue of positive usages has a positive total. */
  lemma UsagesSumPositive(es: seq<SemaphoreTask>)
    requires es != [] && Positive(Usages(es))
    ensures Sum(Usages(es)) > 0
  {
    SumPrefixGrows(Usages(es), 0, |es|);
    assert Usages(es)[..|es|] == Usages(es);
  }

  /** CanExecute's answer for the whole queue: the entry is queued and the
      total usage of all queued entries is below the quantity. */
  lemma Granted(es: seq<SemaphoreTask>, entry: SemaphoreTask, quantity: Int32)
    requires Positive(Usages(es)) && quantity - Sum(Usages(es)) >= MinInt32
    ensures Verdict(es, entry, quantity, false) <==> entry in es && Sum(Usages(es)) < quantity
  {
    VerdictCharacterised(es, entry, quantity, false);
  }

  /** Every queued entry gets the same answer, wherever it stands. */
  lemma SameVerdictForAll(es: seq<SemaphoreTask>, a: SemaphoreTask, b: SemaphoreTask, quantity: Int32)
    requires Positive(Usages(es)) && quantity - Sum(Usages(es)) >= MinInt32 && a in es && b in es
    ensures Verdict(es, a, quantity, false) == Verdict(es, b, quantity, false)
  {
    Granted(es, a, quantity);
    Granted(es, b, quantity);
  }

  /** An entry that would take the last unit is never granted, although it
      passes the FIFO test: with quantity 1 a single entry of usage 1
      waits forever. */
  lemma LastUnitNeverGranted(e: SemaphoreTask)
    requires e.usage > 0
    ensures !Verdict([e], e, e.usage, false)
    ensures Admissible(Usages([e]), e.usage, 0)
  {
    assert Usages([e]) == [e.usage];
    assert [e.usage][..0] == [];
  }

  /** A granted entry is admissible, in the FIFO sense, for one unit less
      than the quantity. */
  lemma GrantedIsAdmissible(es: seq<SemaphoreTask>, entry: SemaphoreTask, quantity: Int32)
    requires Positive(Usages(es)) && quantity - Sum(Usages(es)) >= MinInt32
    requires Verdict(es, entry, quantity, false)
    ensures entry in es && Admissible(Usages(es), quantity - 1, Position(es, entry))
  {
    Granted(es, entry, quantity);
    var p := Position(es, entry);
    SumStep(Usages(es), p);
    SumPrefixAtMost(Usages(es), p + 1);
  }

  /** A new entry is enqueued at the tail, where it is granted exactly when
      the usage already queued plus its own is below the quantity. */
  lemma GrantedAtTail(s: seq<SemaphoreTask>, e: SemaphoreTask, quantity: Int32)
    requires Positive(Usages(s)) && e.usage > 0 && quantity - Sum(Usages(s)) - e.usage >= MinInt32
    ensures Positive(Usages(s + [e]))
    ensures Verdict(s + [e], e, quantity, false) <==> Sum(Usages(s)) + e.usage < quantity
  {
    assert Usages(s + [e]) == Usages(s) + [e.usage];
    SumAppend(Usages(s), [e.usage]);
    assert [e.usage][..0] == [];
    Granted(s + [e], e, quantity);
  }

  lemma RunningFlagsRemove(s: seq<SemaphoreTask>, k: nat)
    requires k < |s|
    ensures RunningFlags(RemoveIndex(s, k)) == RemoveIndex(RunningFlags(s), k)
  {
    var r := RemoveIndex(s, k);
    var a, b := RunningFlags(r), RemoveIndex(RunningFlags(s), k);
    forall i | 0 <= i < |a| ensures a[i] == b[i] {
      if i < k {
        assert r[i] == s[i];
      } else {
        assert r[i] == s[i + 1];
      }
    }
  }

  lemma RunningFlagsAppend(s: seq<SemaphoreTask>, t: SemaphoreTask)
    ensures RunningFlags(s + [t]) == RunningFlags(s) + [t.isRunning]
  {
    assert (s + [t])[..|s|] == s;
  }

  /** The wait has passed its deadline at one of the clock readings taken
      after a failed poll: only when maxWaitTime is positive, and strictly
      after the reading at the start plus maxWaitTime. */
  ghost predicate TimedOut(clock: seq<int>, maxWaitTime: int)
    requires |clock| > 0
  {
    maxWaitTime > 0 && exists k :: 1 <= k < |clock| && clock[k] > clock[0] + maxWaitTime
  }

  class Semaphore {
    const name: string
    const quantity: Int32
    var delay: int
    var entries: seq<SemaphoreTask>

    /** The capacity invariant, for positive usages: no entry is queued
        twice, and every running entry passed the test at a quantity of one
        less. */
    ghost predicate WithinCapacity()
      reads this, entries
    {
      NoDuplicates(entries) && Positive(Usages(entries)) &&
      RunningAdmissible(Usages(entries), RunningFlags(entries), quantity - 1)
    }

    /** Total usage of the running entries. */
    ghost function RunningUsage(): int
      reads this, entries
    {
      RunningSum(Usages(entries), RunningFlags(entries))
    }

    /** CanExecute's `remains`, which starts at the quantity and loses every
        queued usage in turn, never passes Int32.MinValue, so none of its
        subtractions wraps. */
    ghost predicate Unwrapped()
      reads this
    {
      quantity - Sum(Usages(entries)) >= MinInt32
    }

    /** CanExecute's answer, as a predicate of the current queue. */
    ghost predicate Grants(entry: SemaphoreTask)
      reads this
    {
      Verdict(entries, entry, quantity, false)
    }

    /** The private constructor (with the base class's default Delay of 50);
        any quantity is accepted. */
    constructor (name: string, quantity: Int32)
      ensures this.name == name && this.quantity == quantity
      ensures entries == [] && delay == 50
      ensures WithinCapacity()
    {
      this.name := name;
      this.quantity := quantity;
      delay := 50;
      entries := [];
    }

    /** Under capacity, while anything runs the running usage stays below
        the quantity; otherwise it is 0. */
    lemma RunningUsageBelowQuantity()
      requires WithinCapacity()
      ensures true in RunningFlags(entries) ==> RunningUsage() < quantity
      ensures true !in RunningFlags(entries) ==> RunningUsage() == 0
    {
      CapacityBound(Usages(entries), RunningFlags(entries), quantity - 1);
    }

    /** Enqueue: AddLast, under the list's lock. */
    method Enqueue(entry: SemaphoreTask)
      modifies this
      ensures entries == old(entries) + [entry] && delay == old(delay)
      ensures old(WithinCapacity()) && entry.usage > 0 && !entry.isRunning && entry !in old(entries) ==>
        WithinCapacity()
    {
      ghost var before := entries;
      entries := entries + [entry];
      assert Usages(entries) == Usages(before) + [entry.usage];
      RunningFlagsAppend(before, entry);
      if RunningAdmissible(Usages(before), RunningFlags(before), quantity - 1) && !entry.isRunning {
        RunningAdmissibleAppend(Usages(before), RunningFlags(before), quantity - 1, entry.usage);
      }
    }

    /** Dequeue: LinkedList.Remove, which unlinks the first node holding
        the entry and does nothing when there is none. */
    method Dequeue(entry: SemaphoreTask)
      modifies this
      ensures entries == RemoveFirst(old(entries), entry) && delay == old(delay)
      ensures old(WithinCapacity()) ==> WithinCapacity()
    {
      ghost var before := entries;
      ghost var within := WithinCapacity();
      entries := RemoveFirst(entries, entry);
      if within {
        RemovePreservesCapacity(before, entry, quantity);
        assert RunningFlags(entries) == RunningFlags(RemoveFirst(before, entry));
      }
    }

    /** CanExecute: visits every entry, updating the flag and `remains` as
        `Verdict` says. */
    method CanExecute(entry: SemaphoreTask) returns (r: bool)
      ensures r == Verdict(entries, entry, quantity, false)
      ensures Positive(Usages(entries)) && Unwrapped() ==>
        (r <==> entry in entries && Sum(Usages(entries)) < quantity)
      ensures entry !in entries ==> !r
    {
      var canExecute := false;
      var remains := quantity;
      var i := 0;
      while i < |entries|
        invariant 0 <= i <= |entries|
        invariant Verdict(entries[i..], entry, remains, canExecute) == Verdict(entries, entry, quantity, false)
      {
        var e := entries[i];
        assert entries[i..][1..] == entries[i + 1..];
        if e == entry && Sub32(remains, entry.usage) >= 0 {
          canExecute := true;
        }
        remains := Sub32(remains, e.usage);
        if remains <= 0 {
          canExecute := false;
        }
        i := i + 1;
      }
      r := canExecute;
      if Positive(Usages(entries)) && Unwrapped() {
        Granted(entries, entry, quantity);
      }
      if entry !in entries {
        NeverRaised(entries, entry, quantity, false);
      }
    }

    /** One poll of Wait's loop: CanExecute, and once it says yes the
        entry's Execute raises its running flag. */
    method Admit(entry: SemaphoreTask) returns (ok: bool)
      modifies entry
      ensures ok == Grants(entry)
      ensures ok ==> entry.isRunning
      ensures !ok ==> entry.isRunning == old(entry.isRunning)
      ensures old(WithinCapacity()) && Unwrapped() ==> WithinCapacity()
    {
      ghost var flags := RunningFlags(entries);
      ghost var within := WithinCapacity() && Unwrapped();
      ok := CanExecute(entry);
      if ok {
        entry.isRunning := true;
        if within {
          GrantedIsAdmissible(entries, entry, quantity);
          var p := Position(entries, entry);
          assert forall i :: 0 <= i < |entries| && i != p ==> entries[i] != entry;
          RunningAdmissibleRaise(Usages(entries), flags, RunningFlags(entries), quantity - 1, p);
        }
      }
    }

    /** The end of the entry's Execute: its finally lowers the flag. */
    method Complete(entry: SemaphoreTask)
      modifies entry
      ensures !entry.isRunning
      ensures old(WithinCapacity()) ==> WithinCapacity()
    {
      ghost var flags := RunningFlags(entries);
      entry.isRunning := false;
      if RunningAdmissible(Usages(entries), flags, quantity - 1) {
        RunningAdmissibleLower(Usages(entries), flags, RunningFlags(entries), quantity - 1);
      }
    }

    /** Wait's polling loop: CanExecute (through Admit) until it says yes,
        or until a clock reading after a failed poll is strictly past the
        deadline while maxWaitTime is positive, or until the readings run
        out. */
    method Poll(entry: SemaphoreTask, maxWaitTime: int, clock: seq<int>) returns (ok: bool, expired: bool)
      requires |clock| > 0
      modifies entry
      ensures ok == Grants(entry)
      ensures ok ==> entry.isRunning && !expired
      ensures !ok ==> entry.isRunning == old(entry.isRunning)
      ensures !ok ==> (expired <==> TimedOut(clock, maxWaitTime))
    {
      var endTime := clock[0] + maxWaitTime;
      ok := Admit(entry);
      expired := false;
      var k := 1;
      while !ok && !expired && k < |clock|
        invariant 1 <= k <= |clock|
        invariant ok == Grants(entry)
        invariant ok ==> entry.isRunning && !expired
        invariant !ok ==> entry.isRunning == old(entry.isRunning)
        invariant expired ==> !ok && TimedOut(clock, maxWaitTime)
        invariant !expired ==> forall j :: 1 <= j < k ==> !(maxWaitTime > 0 && clock[j] > endTime)
        decreases |clock| - k
      {
        if maxWaitTime > 0 && clock[k] > endTime {
          expired := true;
        } else {
          ok := Admit(entry);
        }
        k := k + 1;
      }
    }

    /** Wait: enqueue, note the deadline `clock[0] + maxWaitTime`, and poll
        CanExecute; after each failed poll (and the delay) the next clock
        reading is compared with the deadline, and the wait gives up with
        false once it is strictly later, provided maxWaitTime is positive.
        Once granted, the entry's Execute runs the action (whose outcome is
        `actionThrows`) and Wait returns true. No other caller acts during
        one call of this sequential model, so every poll gives the first
        one's answer; when the clock readings run out the call is still
        waiting. Whatever CanExecute answers, the entry is idle again when
        Wait returns, so the capacity invariant holds afterwards even where
        a wrapped `remains` admitted too much. */
    method Wait(entry: SemaphoreTask, maxWaitTime: int, clock: seq<int>, actionThrows: bool)
      returns (c: Completion<bool>)
      requires |clock| > 0
      modifies this, entry
      ensures entries == old(entries) + [entry] && delay == old(delay)
      ensures Grants(entry) ==> c == if actionThrows then Threw(ActionFailed) else Returned(true)
      ensures Grants(entry) ==> !entry.isRunning
      ensures !Grants(entry) ==> c == if TimedOut(clock, maxWaitTime) then Returned(false) else StillWaiting
      ensures !Grants(entry) ==> entry.isRunning == old(entry.isRunning)
      ensures old(WithinCapacity()) && entry.usage > 0 && !old(entry.isRunning) && entry !in old(entries) ==>
        WithinCapacity()
    {
      ghost var within := WithinCapacity() && entry.usage > 0 && !entry.isRunning && entry !in entries;
      Enqueue(entry);
      ghost var flags := RunningFlags(entries);
      c := Run(entry, maxWaitTime, clock, actionThrows);
      if within {
        // Only the entry's own flag may have changed, and it is down again.
        forall i | 0 <= i < |entries| ensures entries[i].isRunning == flags[i] {
          if i < |old(entries)| {
            assert entries[i] in old(entries);
          }
        }
        assert RunningFlags(entries) == flags;
      }
    }

    /** Wait after the Enqueue: the polls, then the entry's Execute when
        they succeed. */
    method Run(entry: SemaphoreTask, maxWaitTime: int, clock: seq<int>, actionThrows: bool)
      returns (c: Completion<bool>)
      requires |clock| > 0
      modifies entry
      ensures Grants(entry) ==> c == if actionThrows then Threw(ActionFailed) else Returned(true)
      ensures Grants(entry) ==> !entry.isRunning
      ensures !Grants(entry) ==> c == if TimedOut(clock, maxWaitTime) then Returned(false) else StillWaiting
      ensures !Grants(entry) ==> entry.isRunning == old(entry.isRunning)
    {
      var ok, expired := Poll(entry, maxWaitTime, clock);
      if ok {
        Complete(entry);
        c := if actionThrows then Threw(ActionFailed) else Returned(true);
      } else if expired {
        c := Returned(false);
      } else {
        c := StillWaiting;
      }
    }

    /** Signal: Dequeue. */
    method Signal(entry: SemaphoreTask)
      modifies this
      ensures entries == RemoveFirst(old(entries), entry) && delay == old(delay)
      ensures old(WithinCapacity()) ==> WithinCapacity()
    {
      Dequeue(entry);
    }

    /** Execute: a usage above the quantity is rejected with
        ArgumentException before any entry exists (nothing else is checked);
        otherwise Wait runs inside a try whose finally always Signals, so
        once Execute returns (true, or false on timeout) or throws, the
        queue is what it was before the call. */
    method Execute(usage: Int32, id: Guid, maxWaitTime: int, clock: seq<int>, actionThrows: bool)
      returns (c: Completion<bool>)
      requires |clock| > 0
      modifies this
      ensures delay == old(delay)
      ensures usage > quantity ==> c == Threw(Argument) && entries == old(entries)
      ensures usage <= quantity && c != StillWaiting ==> entries == old(entries)
      ensures usage <= quantity ==> c != Threw(Argument) && c != Threw(InvalidOperation)
      ensures maxWaitTime <= 0 ==> c != Returned(false)
      ensures 0 < usage <= quantity && Positive(Usages(old(entries))) &&
              quantity - Sum(Usages(old(entries))) - usage >= MinInt32 ==>
        if Sum(Usages(old(entries))) + usage < quantity
        then c == if actionThrows then Threw(ActionFailed) else Returned(true)
        else c == if TimedOut(clock, maxWaitTime) then Returned(false) else StillWaiting
      ensures c == StillWaiting ==>
        |entries| == |old(entries)| + 1 && entries[..|old(entries)|] == old(entries) &&
        fresh(entries[|old(entries)|]) && entries[|old(entries)|].usage == usage
      ensures old(WithinCapacity()) && usage > 0 ==> WithinCapacity()
    {
      if usage > quantity {
        return Threw(Argument);
      }
      var entry := new SemaphoreTask(id, usage);
      c := Wait(entry, maxWaitTime, clock, actionThrows);
      if 0 < usage && Positive(Usages(old(entries))) && quantity - Sum(Usages(old(entries))) - usage >= MinInt32 {
        GrantedAtTail(old(entries), entry, quantity);
      }
      if c != StillWaiting {
        Signal(entry);
        RemoveFirstOfAppended(old(entries), entry);
      } else {
        assert (old(entries) + [entry])[..|old(entries)|] == old(entries);
      }
    }
  }

  /** An entry that is not queued never raises the flag, and the flag once
      lowered stays lowered. */
  lemma {:induction false} NeverRaised(es: seq<SemaphoreTask>, entry: SemaphoreTask, remains: Int32, flag: bool)
    requires entry !in es
    ensures Verdict(es, entry, remains, flag) ==> flag
  {
    if es != [] {
      var left := Sub32(remains, es[0].usage);
      assert entry !in es[1..];
      NeverRaised(es[1..], entry, left, if left <= 0 then false else flag);
    }
  }

  /** Where `remains` does wrap, CanExecute admits more than the quantity:
      with a quantity of 2,000,000,000 and four queued entries of
      1,500,000,000 each, the second subtraction leaves -1,000,000,000, the
      third wraps round to 1,794,967,296, and the third and fourth entries
      are both granted although together they use 3,000,000,000. */
  lemma WrapGrantsBeyondQuantity(a: SemaphoreTask, b: SemaphoreTask, c: SemaphoreTask, d: SemaphoreTask)
    requires a != b && a != c && a != d && b != c && b != d && c != d
    requires a.usage == b.usage == c.usage == d.usage == 1_500_000_000
    ensures !Verdict([a, b, c, d], a, 2_000_000_000, false)
    ensures !Verdict([a, b, c, d], b, 2_000_000_000, false)
    ensures Verdict([a, b, c, d], c, 2_000_000_000, false)
    ensures Verdict([a, b, c, d], d, 2_000_000_000, false)
    ensures c.usage + d.usage > 2_000_000_000
  {
    var q := [a, b, c, d];
    assert q[1..] == [b, c, d] && q[1..][1..] == [c, d] && q[1..][1..][1..] == [d];
    assert Sub32(2_000_000_000, 1_500_000_000) == 500_000_000;
    assert Sub32(500_000_000, 1_500_000_000) == -1_000_000_000;
    assert Sub32(-1_000_000_000, 1_500_000_000) == 1_794_967_296;
    assert Sub32(1_794_967_296, 1_500_000_000) == 294_967_296;
    forall e | e in {a, b, c, d}
      ensures Verdict(q, e, 2_000_000_000, false) ==
              Verdict([c, d], e, -1_000_000_000, false)
    {
      assert Verdict(q, e, 2_000_000_000, false) ==
             Verdict([b, c, d], e, 500_000_000, e == a);
    }
    assert Verdict([c, d], c, -1_000_000_000, false) == Verdict([d], c, 1_794_967_296, true);
    assert Verdict([c, d], d, -1_000_000_000, false) == Verdict([d], d, 1_794_967_296, false);
    assert Verdict([d], c, 1_794_967_296, true) == Verdict([], c, 294_967_296, true);
    assert Verdict([d], d, 1_794_967_296, false) == Verdict([], d, 294_967_296, true);
    assert !Verdict([c, d], a, -1_000_000_000, false) && !Verdict([c, d], b, -1_000_000_000, false) by {
      NeverRaised([c, d], a, -1_000_000_000, false);
      NeverRaised([c, d], b, -1_000_000_000, false);
    }
  }

  /** Removing an entry keeps the capacity invariant. */
  lemma RemovePreservesCapacity(s: seq<SemaphoreTask>, e: SemaphoreTask, quantity: int)
    requires NoDuplicates(s) && Positive(Usages(s))
    requires RunningAdmissible(Usages(s), RunningFlags(s), quantity - 1)
    ensures NoDuplicates(RemoveFirst(s, e)) && Positive(Usages(RemoveFirst(s, e)))
    ensures RunningAdmissible(Usages(RemoveFirst(s, e)), RunningFlags(RemoveFirst(s, e)), quantity - 1)
  {
    if e in s {
      var k := Position(s, e);
      var r := RemoveIndex(s, k);
      assert Usages(r) == RemoveIndex(Usages(s), k);
      RunningFlagsRemove(s, k);
      RemoveIndexKeepsNoDuplicates(s, k);
      PositiveRemoveIndex(Usages(s), k);
      RunningAdmissibleRemove(Usages(s), RunningFlags(s), quantity - 1, k);
    }
  }

  // ---------------------------------------------------------------------
  // The static registry

  /** The process-wide dictionary of semaphores by name. */
  class Registry {
    var semaphores: map<string, Semaphore>

    ghost predicate Valid()
      reads this, semaphores.Values
    {
      forall n :: n in semaphores ==> semaphores[n].name == n
    }

    constructor ()
      ensures Valid() && semaphores == map[]
    {
      semaphores := map[];
    }

    /** Initialize(name, quantity): a new name gets a new semaphore whatever
        the quantity; a known name gives back its semaphore when the
        quantities agree and fails with InvalidOperationException
        otherwise. */
    method Initialize(name: string, quantity: Int32) returns (r: Result<Semaphore>)
      requires Valid()
      modifies this
      ensures Valid()
      ensures name in old(semaphores) ==> semaphores == old(semaphores)
      ensures name in old(semaphores) && old(semaphores)[name].quantity == quantity ==>
        r == Ok(old(semaphores)[name])
      ensures name in old(semaphores) && old(semaphores)[name].quantity != quantity ==>
        r == Err(InvalidOperation)
      ensures name !in old(semaphores) ==>
        r.Ok? && fresh(r.value) && semaphores == old(semaphores)[name := r.value] &&
        r.value.name == name && r.value.quantity == quantity && r.value.entries == [] &&
        r.value.delay == 50
    {
      if name !in semaphores {
        var s := new Semaphore(name, quantity);
        semaphores := semaphores[name := s];
      }
      var semaphore := semaphores[name];
      if semaphore.quantity != quantity {
        return Err(InvalidOperation);
      }
      return Ok(semaphore);
    }
  }
}
