/** Formix.Synchronization's in-process semaphore: a named value and a
    LinkedList<SemaphoreTask> in arrival order, the Execute/Wait/Signal
    protocol of its abstract base class, and the static registry behind
    Initialize.

    Each lock-held section of the source is one atomic step here. Tasks are
    objects and the queue compares them by reference. */
module Synchronization {
  import opened Faults
  import opened Sequences
  import opened Admission
  import opened FormixToken

  /** A SemaphoreTask: the caller's action wrapped in a Task, with its
      usage and a settable id. `isRunning` is the task's running state,
      which CanExecute and the counters query. */
  class SemaphoreTask {
    var taskId: Guid
    const usage: Usage
    var isRunning: bool

    constructor (usage: Usage, taskId: Guid)
      ensures this.usage == usage && this.taskId == taskId && !isRunning
    {
      this.usage := usage;
      this.taskId := taskId;
      isRunning := false;
    }
  }

  /** The SemaphoreTask constructor: a usage that is not positive is
      rejected with ArgumentOutOfRangeException; the Guid.NewGuid() it reads
      is a parameter. */
  method NewTask(usage: int, taskId: Guid) returns (r: Result<SemaphoreTask>)
    ensures r.Err? <==> usage <= 0
    ensures r.Err? ==> r.fault == ArgumentOutOfRange
    ensures r.Ok? ==> fresh(r.value) && !r.value.isRunning
    ensures r.Ok? ==> r.value.usage == usage && r.value.taskId == taskId
  {
    if usage <= 0 {
      return Err(ArgumentOutOfRange);
    }
    var t := new SemaphoreTask(usage, taskId);
    return Ok(t);
  }

  /** The usages of the tasks, in queue order. */
  function Usages(s: seq<SemaphoreTask>): (us: seq<int>)
    ensures |us| == |s|
    ensures forall i :: 0 <= i < |s| ==> us[i] == s[i].usage
    ensures Positive(us) && NonNegative(us)
  {
    seq(|s|, i requires 0 <= i < |s| => s[i].usage)
  }

  /** The running states of the tasks, in queue order. */
  function RunningFlags(s: seq<SemaphoreTask>): (r: seq<bool>)
    reads s
    ensures |r| == |s|
    ensures forall i :: 0 <= i < |s| ==> r[i] == s[i].isRunning
  {
    if s == [] then [] else RunningFlags(s[..|s| - 1]) + [s[|s| - 1].isRunning]
  }

  lemma RunningFlagsRemove(s: seq<SemaphoreTask>, k: nat)
    requires k < |s|
    ensures RunningFlags(RemoveIndex(s, k)) == RemoveIndex(RunningFlags(s), k)
  {
    var r := RemoveIndex(s, k);
    var a, b := RunningFlags(r), RemoveIndex(RunningFlags(s), k);
    forall i | 0 <= i < |a| ensures a[i] == b[i] {
      if i < k {
        assert r[i] == s[i];
      } else {
        assert r[i] == s[i + 1];
      }
    }
  }

  lemma RunningFlagsAppend(s: seq<SemaphoreTask>, t: SemaphoreTask)
    ensures RunningFlags(s + [t]) == RunningFlags(s) + [t.isRunning]
  {
    assert (s + [t])[..|s|] == s;
  }

  class Semaphore {
    const name: string
    const value: int
    var delay: int
    var tasks: seq<SemaphoreTask>

    ghost predicate Valid()
      reads this
    {
      value > 0
    }

    /** The capacity invariant: no task is queued twice, and every running
        task passes the admission test where it stands. */
    ghost predicate WithinCapacity()
      reads this, tasks
    {
      NoDuplicates(tasks) && RunningAdmissible(Usages(tasks), RunningFlags(tasks), value)
    }

    /** The private constructor (with the base class's default Delay of 5). */
    constructor (name: string, value: int)
      requires value > 0
      ensures this.name == name && this.value == value
      ensures tasks == [] && delay == 5
      ensures Valid() && WithinCapacity()
    {
      this.name := name;
      this.value := value;
      delay := 5;
      tasks := [];
    }

    /** TotalTaskCount: the number of queued tasks. */
    function TotalTaskCount(): (n: nat)
      reads this
      ensures n == 0 <==> tasks == []
    {
      |tasks|
    }

    /** RunningTaskCount: how many queued tasks are running. */
    function RunningTaskCount(): (n: nat)
      reads this, tasks
      ensures n <= TotalTaskCount()
      ensures n == 0 <==> forall i :: 0 <= i < |tasks| ==> !tasks[i].isRunning
    {
      var flags := RunningFlags(tasks);
      assert true in flags ==> exists i :: 0 <= i < |tasks| && tasks[i].isRunning;
      CountTrue(flags)
    }

    /** RunningTaskUsage: the total usage of the running tasks. */
    function RunningTaskUsage(): (u: int)
      reads this, tasks
      ensures 0 <= u <= Sum(Usages(tasks))
    {
      RunningSumAtMostSum(Usages(tasks), RunningFlags(tasks));
      RunningSum(Usages(tasks), RunningFlags(tasks))
    }

    /** The interface's promise, which the tests check: the running usage
        never exceeds the value. */
    lemma RunningUsageWithinValue()
      requires Valid() && WithinCapacity()
      ensures RunningTaskUsage() <= value
    {
      CapacityBound(Usages(tasks), RunningFlags(tasks), value);
    }

    /** With value 1, at most one task runs, and only the head of the queue
        (the first enqueued) can. */
    lemma MutexRunsHeadOnly()
      requires WithinCapacity() && value == 1
      ensures RunningTaskCount() <= 1
      ensures forall i :: 0 < i < |tasks| ==> !tasks[i].isRunning
    {
      MutexRunsAlone(Usages(tasks), RunningFlags(tasks));
      forall i | 0 < i < |tasks| ensures !tasks[i].isRunning {
        if tasks[i].isRunning {
          MutexAdmitsOnlyHead(Usages(tasks), i);
        }
      }
    }

    /** Enqueue: AddLast, under the queue's lock. */
    method Enqueue(t: SemaphoreTask)
      modifies this
      ensures tasks == old(tasks) + [t] && delay == old(delay)
      ensures old(WithinCapacity()) && !t.isRunning && t !in old(tasks) ==> WithinCapacity()
    {
      ghost var before := tasks;
      tasks := tasks + [t];
      assert Usages(tasks) == Usages(before) + [t.usage];
      RunningFlagsAppend(before, t);
      if RunningAdmissible(Usages(before), RunningFlags(before), value) && !t.isRunning {
        RunningAdmissibleAppend(Usages(before), RunningFlags(before), value, t.usage);
      }
    }

    /** Dequeue: LinkedList.Remove, which unlinks the first node holding
        the task and does nothing when there is none. */
    method Dequeue(t: SemaphoreTask)
      modifies this
      ensures tasks == RemoveFirst(old(tasks), t) && delay == old(delay)
      ensures old(WithinCapacity()) ==> WithinCapacity()
    {
      ghost var before := tasks;
      ghost var within := WithinCapacity();
      tasks := RemoveFirst(tasks, t);
      if within {
        RemovePreservesCapacity(before, t, value);
        assert RunningFlags(tasks) == RunningFlags(RemoveFirst(before, t));
      }
    }

    /** CanExecute: fails with InvalidOperationException on a running task;
        otherwise walks the queue with `remains = value`, and answers whether
        the task passes the FIFO admission test at its first position. */
    method CanExecute(t: SemaphoreTask) returns (r: Result<bool>)
      ensures r.Err? <==> t.isRunning
      ensures r.Err? ==> r.fault == InvalidOperation
      ensures r.Ok? ==> (r.value <==> t in tasks && Admissible(Usages(tasks), value, Position(tasks, t)))
    {
      if t.isRunning {
        return Err(InvalidOperation);
      }
      ghost var us := Usages(tasks);
      var remains := value;
      var i := 0;
      while i < |tasks|
        invariant 0 <= i <= |tasks|
        invariant remains == value - Sum(us[..i])
        invariant t in tasks[..i] ==> !Admissible(us, value, Position(tasks, t))
      {
        var e := tasks[i];
        if e == t && remains >= t.usage {
          var p := Position(tasks, t);
          if p < i {
            PrefixClosed(us, value, i, p);
          }
          return Ok(true);
        }
        SumStep(us, i);
        remains := remains - e.usage;
        if remains <= 0 {
          if t in tasks {
            var p := Position(tasks, t);
            if p > i {
              SumPrefixGrows(us, i + 1, p);
            } else if p < i {
              assert tasks[..i][p] == t;
            }
          }
          return Ok(false);
        }
        if t in tasks[..i + 1] {
          var p := Position(tasks, t);
          if p < i {
            assert tasks[..i][p] == t;
          }
        }
        i := i + 1;
      }
      assert tasks[..i] == tasks;
      return Ok(false);
    }

    /** One poll of Wait's loop: CanExecute, and once it says yes the task
        is started. */
    method Admit(t: SemaphoreTask) returns (r: Result<bool>)
      modifies t
      ensures r.Err? <==> old(t.isRunning)
      ensures r.Err? ==> r.fault == InvalidOperation && t.isRunning
      ensures r.Ok? ==> (r.value <==> t in tasks && Admissible(Usages(tasks), value, Position(tasks, t)))
      ensures r.Ok? ==> t.isRunning == r.value
      ensures old(WithinCapacity()) ==> WithinCapacity()
    {
      ghost var flags := RunningFlags(tasks);
      ghost var within := WithinCapacity();
      r := CanExecute(t);
      if r == Ok(true) {
        ghost var p := Position(tasks, t);
        t.isRunning := true;
        if within {
          assert forall i :: 0 <= i < |tasks| && i != p ==> tasks[i] != t;
          RunningAdmissibleRaise(Usages(tasks), flags, RunningFlags(tasks), value, p);
        }
      }
    }

    /** The started task has run to its end (normally or by throwing): it
        is no longer running. */
    method Complete(t: SemaphoreTask)
      modifies t
      ensures !t.isRunning
      ensures old(WithinCapacity()) ==> WithinCapacity()
    {
      ghost var flags := RunningFlags(tasks);
      t.isRunning := false;
      if RunningAdmissible(Usages(tasks), flags, value) {
        RunningAdmissibleLower(Usages(tasks), flags, RunningFlags(tasks), value);
      }
    }

    /** Wait: enqueue, poll CanExecute until it says yes, start the task and
        await it. `fuel` bounds the polls after the first; since no other
        caller acts during one call of this sequential model, every poll
        gives the first one's answer. The action's outcome is the parameter
        `actionThrows`. */
    method Wait(t: SemaphoreTask, fuel: nat, actionThrows: bool) returns (c: Completion<()>)
      requires Valid()
      modifies this, t
      ensures Valid() && delay == old(delay)
      ensures tasks == old(tasks) + [t]
      ensures old(t.isRunning) ==> c == Threw(InvalidOperation) && t.isRunning
      ensures !old(t.isRunning) ==>
        (c != StillWaiting <==> Admissible(Usages(tasks), value, Position(tasks, t)))
      ensures !old(t.isRunning) && t !in old(tasks) ==>
        (c != StillWaiting <==> Sum(Usages(old(tasks))) + t.usage <= value)
      ensures !old(t.isRunning) && c != StillWaiting ==>
        c == if actionThrows then Threw(ActionFailed) else Returned(())
      ensures !old(t.isRunning) ==> !t.isRunning
      ensures old(WithinCapacity()) && !old(t.isRunning) && t !in old(tasks) ==> WithinCapacity()
    {
      ghost var was := t.isRunning;
      ghost var within := WithinCapacity() && !t.isRunning && t !in tasks;
      Enqueue(t);
      var r := Admit(t);
      var polls := fuel;
      while r == Ok(false) && polls > 0
        invariant tasks == old(tasks) + [t] && delay == old(delay)
        invariant r.Err? <==> was
        invariant r.Err? ==> r.fault == InvalidOperation && t.isRunning
        invariant r.Ok? ==> (r.value <==> t in tasks && Admissible(Usages(tasks), value, Position(tasks, t)))
        invariant r.Ok? ==> t.isRunning == r.value
        invariant within ==> WithinCapacity()
        decreases polls
      {
        r := Admit(t);
        polls := polls - 1;
      }
      if r.Err? {
        c := Threw(r.fault);
      } else if !r.value {
        c := StillWaiting;
      } else {
        Complete(t);
        c := if actionThrows then Threw(ActionFailed) else Returned(());
      }
      if t !in old(tasks) {
        AdmitAtTail(old(tasks), t, value);
      }
    }

    /** Signal: Dequeue. */
    method Signal(t: SemaphoreTask)
      modifies this
      ensures tasks == RemoveFirst(old(tasks), t) && delay == old(delay)
      ensures old(WithinCapacity()) ==> WithinCapacity()
    {
      Dequeue(t);
    }

    /** Execute: a usage above the value is rejected with ArgumentException,
        and a usage that is not positive by the task's constructor, in both
        cases before anything is queued; otherwise Wait runs inside a try
        whose finally always Signals, so once Execute returns or throws the
        queue is what it was before the call. */
    method Execute(usage: int, taskId: Guid, fuel: nat, actionThrows: bool) returns (c: Completion<()>)
      requires Valid()
      modifies this
      ensures Valid() && delay == old(delay)
      ensures usage > value ==> c == Threw(Argument) && tasks == old(tasks)
      ensures usage <= 0 ==> c == Threw(ArgumentOutOfRange) && tasks == old(tasks)
      ensures 0 < usage <= value ==>
        (c == StillWaiting <==> Sum(Usages(old(tasks))) + usage > value)
      ensures 0 < usage <= value && c != StillWaiting ==>
        c == (if actionThrows then Threw(ActionFailed) else Returned(())) && tasks == old(tasks)
      ensures c == StillWaiting ==>
        |tasks| == |old(tasks)| + 1 && tasks[..|old(tasks)|] == old(tasks) &&
        fresh(tasks[|old(tasks)|]) && tasks[|old(tasks)|].usage == usage
      ensures old(WithinCapacity()) ==> WithinCapacity()
    {
      if usage > value {
        return Threw(Argument);
      }
      var created := NewTask(usage, taskId);
      if created.Err? {
        return Threw(created.fault);
      }
      var t := created.value;
      c := Wait(t, fuel, actionThrows);
      if c != StillWaiting {
        Signal(t);
        RemoveFirstOfAppended(old(tasks), t);
      } else {
        assert (old(tasks) + [t])[..|old(tasks)|] == old(tasks);
      }
    }
  }

  /** Removing a task keeps the capacity invariant. */
  lemma RemovePreservesCapacity(s: seq<SemaphoreTask>, t: SemaphoreTask, value: int)
    requires NoDuplicates(s) && RunningAdmissible(Usages(s), RunningFlags(s), value)
    ensures NoDuplicates(RemoveFirst(s, t))
    ensures RunningAdmissible(Usages(RemoveFirst(s, t)), RunningFlags(RemoveFirst(s, t)), value)
  {
    if t in s {
      var k := Position(s, t);
      var r := RemoveIndex(s, k);
      assert Usages(r) == RemoveIndex(Usages(s), k);
      RunningFlagsRemove(s, k);
      RemoveIndexKeepsNoDuplicates(s, k);
      RunningAdmissibleRemove(Usages(s), RunningFlags(s), value, k);
    }
  }

  /** A task new to the queue is enqueued at the tail, where it passes
      exactly when the whole queue before it plus its own usage fits. */
  lemma AdmitAtTail(s: seq<SemaphoreTask>, t: SemaphoreTask, value: int)
    requires t !in s
    ensures Position(s + [t], t) == |s|
    ensures Admissible(Usages(s + [t]), value, |s|) <==> Sum(Usages(s)) + t.usage <= value
  {
    assert (s + [t])[..|s|] == s;
    assert Usages(s + [t]) == Usages(s) + [t.usage];
    AdmissibleAtTail(Usages(s), t.usage, value);
  }

  // ---------------------------------------------------------------------
  // The static registry

  /** Name of the semaphore the argument-less Initialize returns. */
  const MutexName: string := "$mutex"

  /** The process-wide dictionary of semaphores by name. */
  class Registry {
    var semaphores: map<string, Semaphore>

    ghost predicate Valid()
      reads this, semaphores.Values
    {
      forall n :: n in semaphores ==> semaphores[n].name == n && semaphores[n].Valid()
    }

    constructor ()
      ensures Valid() && semaphores == map[]
    {
      semaphores := map[];
    }

    /** Initialize(name, value): a value that is not positive is rejected
        before the dictionary is touched; a new name gets a new semaphore;
        a known name gives back its semaphore when the values agree and
        fails with InvalidOperationException otherwise. */
    method Initialize(name: string, value: int) returns (r: Result<Semaphore>)
      requires Valid()
      modifies this
      ensures Valid()
      ensures value <= 0 ==> r == Err(ArgumentOutOfRange) && semaphores == old(semaphores)
      ensures value > 0 && name in old(semaphores) ==> semaphores == old(semaphores)
      ensures value > 0 && name in old(semaphores) && old(semaphores)[name].value == value ==>
        r == Ok(old(semaphores)[name])
      ensures value > 0 && name in old(semaphores) && old(semaphores)[name].value != value ==>
        r == Err(InvalidOperation)
      ensures value > 0 && name !in old(semaphores) ==>
        r.Ok? && fresh(r.value) && semaphores == old(semaphores)[name := r.value] &&
        r.value.name == name && r.value.value == value && r.value.tasks == [] && r.value.delay == 5
      ensures r.Ok? ==> r.value.Valid() && r.value.name == name && r.value.value == value
    {
      if value <= 0 {
        return Err(ArgumentOutOfRange);
      }
      if name !in semaphores {
        var s := new Semaphore(name, value);
        semaphores := semaphores[name := s];
      }
      var semaphore := semaphores[name];
      if semaphore.value != value {
        return Err(InvalidOperation);
      }
      return Ok(semaphore);
    }

    /** Initialize(): the semaphore named "$mutex" with a value of 1. */
    method InitializeMutex() returns (r: Result<Semaphore>)
      requires Valid()
      modifies this
      ensures Valid()
      ensures MutexName in old(semaphores) ==> semaphores == old(semaphores)
      ensures MutexName in old(semaphores) && old(semaphores)[MutexName].value == 1 ==>
        r == Ok(old(semaphores)[MutexName])
      ensures MutexName in old(semaphores) && old(semaphores)[MutexName].value != 1 ==>
        r == Err(InvalidOperation)
      ensures MutexName !in old(semaphores) ==>
        r.Ok? && fresh(r.value) && semaphores == old(semaphores)[MutexName := r.value] &&
        r.value.name == MutexName && r.value.value == 1 && r.value.tasks == []
    {
      r := Initialize(MutexName, 1);
    }
  }
}
