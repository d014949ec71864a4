# Formix weighted semaphores, in Dafny

A model of the Formix named, weighted semaphore. Each queued unit of work
holds a usage. A queued entry may start once the usage of everything queued
ahead of it, plus its own, fits in the semaphore's value, so a cheap entry
never overtakes an expensive one. The repository has three revisions of this
semaphore, and each has its own module here:

- `FormixToken` and `FormixSemaphore` model Formix.Semaphore. The store is a
  `SortedSet<Token>` ordered by creation time. `Wait` marks a token running
  and `Signal` marks it done.
- `FixedLinkedLists` models Formix.Semaphore's `FixedLinkedList<T>`, an
  index-based `IList<T>` over a `LinkedList<T>`.
- `Synchronization` models Formix.Synchronization. The store is a
  `LinkedList<SemaphoreTask>` in arrival order, and callers go through
  `Execute`.
- `UtilitiesSynchronization` models Formix.Utilities.Synchronization. It has
  the same store, a `maxWaitTime` deadline, and a different `CanExecute`.

Three shared modules hold what the revisions have in common:

- `Faults` holds the .NET exceptions and the result shapes.
- `Sequences` holds first position, removal at a position, and
  `LinkedList.Remove`.
- `Admission` holds the FIFO admission test `Admissible` and the capacity
  invariant `RunningAdmissible`. That invariant says every running entry
  passes the test at its current position. The module also holds the lemmas
  that connect the two, including the bound "the running usage never
  exceeds the value".

Each lock-held section of the C# code is one atomic step of the model. The
objects the code updates in place are Dafny classes:

- the tokens or tasks, with their running and done flags;
- each semaphore, whose store is a `seq` field;
- each revision's static registry, a `map` from name to semaphore.

Token and task fields that C# declares get-only are `const`s.

`Wait` takes two extra parameters:

- `fuel`, the number of polls the model is allowed after the first;
- in Formix.Utilities.Synchronization, `clock`, the sequence of clock
  readings.

A `Wait` or `Execute` that has not returned within those polls ends in
`StillWaiting`. During one call no other caller acts, so every poll gives
the same answer.

The Formix.Utilities.Synchronization `CanExecute` is modelled as written, by
the function `Verdict`. `VerdictCharacterised` and `Granted` prove what it
computes when usages are positive and its `int` arithmetic does not wrap:
true exactly when the entry is queued and
the usage of **all** queued entries is below the quantity. So the answer does
not depend on position, and `LastUnitNeverGranted` shows that an entry that
would take the last unit is never admitted.

Where the code's own documentation comments and tests promise more than
the code does, the model follows the code:

- `Token` documents `Id` as the token's unique identifier
  (Formix.Semaphore/Token.cs:34-37). But `CompareTo` compares timestamps
  only (Formix.Semaphore/Token.cs:64-78), and it is the comparer of the
  `SortedSet<Token>` store. So `Add` of a token with a timestamp already
  stored leaves the set unchanged, and `Remove` deletes whichever stored
  token has that timestamp (`FormixSemaphore.Add`,
  `FormixSemaphore.Remove`, `FormixSemaphore.RemoveMatchesByTimeStamp`).
  This has two consequences:
  - A token whose timestamp collides with a stored one is never stored, so
    its `Wait` never returns (`FormixSemaphore.CollidingTokenNeverStored`).
  - Its `Signal` removes the other token, which stays running outside the
    store. The capacity invariant and the bound on the running usage then
    speak only of the tokens still in the store, and new tokens can be
    admitted beside the one that was dropped.
- The three `CanExecute`s guard differently:
  - Formix.Semaphore's throws `InvalidOperationException` for a running
    token and for a done one (Formix.Semaphore/Semaphore.cs:126-140).
  - Formix.Synchronization's throws it only for a running task
    (Formix.Synchronization/Semaphore.cs:124-130).
  - Formix.Utilities.Synchronization's checks neither
    (Formix.Utilities.Synchronization/Semaphore.cs:70-92).
- The first two revisions refuse a value of 0 or less with
  `ArgumentOutOfRangeException` (Formix.Semaphore/Semaphore.cs:43-47,
  Formix.Synchronization/Semaphore.cs:26-30). The Formix.Utilities.Synchronization
  tests expect the same for quantities 0 and -5
  (Formix.Utilities.Synchronization.Tests/SemaphoreTests.cs:19-31). But that
  revision's `Initialize` accepts any quantity
  (Formix.Utilities.Synchronization/Semaphore.cs:28-50), and its
  `SemaphoreTask` accepts any usage
  (Formix.Utilities.Synchronization/SemaphoreTask.cs:10-16).
- The same tests check that the running usage never exceeds the quantity
  (Formix.Utilities.Synchronization.Tests/SemaphoreTests.cs:125-126). That
  revision's `CanExecute` does its arithmetic in a C# `int` named `remains`
  (Formix.Utilities.Synchronization/Semaphore.cs:75-88). In the default
  unchecked context `remains` wraps, so the check fails for large usages.
  `Sub32` models the wrap, and `WrapGrantsBeyondQuantity` shows a queue
  where two entries are granted at once beyond the quantity. The lemmas
  about `Verdict` hold when the walk never passes `Int32.MinValue`
  (`Unwrapped`).
  - In Formix.Semaphore and Formix.Synchronization the same subtraction
    cannot wrap. Their walks stop as soon as what remains is not positive,
    and a usage is at most `Int32.MaxValue`.

`Execute` calls `Signal` in a `finally`
(Formix.Utilities.Synchronization/AbstractSemaphore.cs:28-35). So an entry
that timed out, or whose action threw, is dropped from the queue
(`UtilitiesSynchronization.Semaphore.Execute`).

## Model

| member | source | states |
|---|---|---|
| FormixToken.NewToken | Formix.Semaphore/Token.cs:19-32 | Fails with ArgumentOutOfRangeException exactly when the usage is not positive. Otherwise it gives a fresh token that is new (neither running nor done) and carries the given usage, id and timestamp. |
| FormixToken.Token.constructor | Formix.Semaphore/Token.cs:27-31 | The id, usage and timestamp are as given; the token is neither running nor done. |
| FormixToken.Sub64 | Formix.Semaphore/Token.cs:66 | C# unchecked `long` subtraction: a 64-bit value congruent to the exact difference modulo 2^64. |
| FormixToken.Token.IsNew | Formix.Semaphore/Token.cs:47 | A token is new exactly when it is neither running nor done. |
| FormixToken.Token.CompareTo | Formix.Semaphore/Token.cs:64-78 | The result is -1, 0 or 1 exactly as this timestamp is smaller than, equal to or greater than the other's. |
| FormixToken.CompareToTotalPreorder | Formix.Semaphore/Token.cs:64-78 | CompareTo is antisymmetric, transitive and reflexive, and it gives 0 for equal timestamps whatever the ids. |
| Sequences.Position | Formix.Semaphore/FixedLinkedList.cs:24-40 | The index of the first occurrence: the element is there and does not occur before it. |
| Sequences.RemoveFirst | Formix.Synchronization/Semaphore.cs:119 | LinkedList.Remove: if the element is absent the list is unchanged; otherwise exactly its first occurrence is removed and the others keep their order. |
| Sequences.RemoveFirstOfAppended | Formix.Synchronization/AbstractSemaphore.cs:40-48 | Removing an element that was just appended, and occurs nowhere else, gives back the list from before the append. |
| Admission.AdmittedFits | Formix.Semaphore/Semaphore.cs:145-158 | An admitted entry and every entry ahead of it together fit in the value. |
| Admission.PrefixClosed | Formix.Semaphore/Semaphore.cs:145-158 | FIFO: with positive usages, if an entry passes the test, every entry queued before it passes too. |
| Admission.MutexAdmitsOnlyHead | Formix.Synchronization/Semaphore.cs:136-152 | With a value of 1 and positive usages, only the head of the queue can pass. |
| Admission.AdmissibleAtTail | Formix.Synchronization/Semaphore.cs:136-152 | An entry appended at the tail passes exactly when the usage of the whole queue before it, plus its own, fits in the value. |
| Admission.AdmissibleAfterAppend | Formix.Synchronization/Semaphore.cs:108 | Appending at the tail does not take admission away from any earlier entry. |
| Admission.AdmissibleAfterRemove | Formix.Synchronization/Semaphore.cs:119 | Removing another entry keeps an admissible entry admissible at its shifted position. |
| Admission.RunningAdmissibleAppend | Formix.Synchronization/Semaphore.cs:104-111 | Appending an entry that is not running keeps the capacity invariant. |
| Admission.RunningAdmissibleRemove | Formix.Synchronization/Semaphore.cs:113-122 | Removing any entry keeps the capacity invariant. |
| Admission.RunningAdmissibleRaise | Formix.Semaphore/AbstractSemaphore.cs:41-45 | Starting an entry that passes the test keeps the capacity invariant. |
| Admission.RunningAdmissibleLower | Formix.Semaphore/AbstractSemaphore.cs:59-60 | Stopping entries keeps the capacity invariant. |
| Admission.CapacityBound | Formix.Semaphore/ISemaphore.cs:16-21 | Under the capacity invariant, the running usage is at most the value, and it is 0 when nothing runs. |
| Admission.RunningSumAtMostSum | Formix.Synchronization/Semaphore.cs:90-101 | The running usage lies between 0 and the total queued usage. |
| Admission.MutexRunsAlone | Formix.Semaphore/Semaphore.cs:23-26 | With a value of 1 under the capacity invariant, at most one entry runs. |
| Admission.NoOvertaking | Formix.Semaphore/Semaphore.cs:145-158 | With 5 units, the queue [2 running, 4, 1] admits the head but neither the 4 nor the 1, although the 3 free units would hold the 1. |
| FormixSemaphore.SortedHasNoDuplicates | Formix.Semaphore/Semaphore.cs:84 | A store ordered strictly by timestamp holds no token twice. |
| FormixSemaphore.Add | Formix.Semaphore/Semaphore.cs:97 | SortedSet.Add. The store stays strictly sorted by timestamp. When a token with an equal timestamp is stored, nothing changes; otherwise the store gains exactly this token. |
| FormixSemaphore.AddLatest | Formix.Semaphore/Semaphore.cs:97 | A token created after every stored one goes to the end of the store. |
| FormixSemaphore.AppendPreservesCapacity | Formix.Semaphore/Semaphore.cs:93-99 | Adding a token that is not running and was created after every stored one keeps the capacity invariant. |
| FormixSemaphore.AdmitLatest | Formix.Semaphore/Semaphore.cs:145-158 | A token created after every stored one is in the store after Add, and it passes exactly when the usage of the whole store before it, plus its own, fits in the value. |
| FormixSemaphore.Remove | Formix.Semaphore/Semaphore.cs:113 | SortedSet.Remove. The store stays sorted, it keeps no token with that timestamp, and it is unchanged when there was none. Otherwise it loses exactly one token: every token left was in the store, and every stored token with another timestamp is still there. |
| FormixSemaphore.RemovePreservesCapacity | Formix.Semaphore/Semaphore.cs:109-115 | Removing by timestamp keeps the capacity invariant. |
| FormixSemaphore.RemoveMatchesByTimeStamp | Formix.Semaphore/Semaphore.cs:113 | Removing a different token with the timestamp of a stored one removes the stored one, and the store shrinks by one. |
| FormixSemaphore.CollidingTokenNeverStored | Formix.Semaphore/Token.cs:64-78 | A token whose timestamp equals that of a different stored token is not added, and the store is unchanged. |
| FormixSemaphore.OlderTokenOvertakes | Formix.Semaphore/Semaphore.cs:143-160 | With a value of 5 and a running token of usage 4, a token of usage 3 with an earlier timestamp is sorted in front, passes with nothing ahead of it, and running beside the first it uses 7 units and breaks the capacity invariant. |
| FormixSemaphore.Semaphore.constructor | Formix.Semaphore/Semaphore.cs:80-85 | The name and value are as given, the store is empty, Delay is 5, and the object and capacity invariants hold. |
| FormixSemaphore.Semaphore.Enqueue | Formix.Semaphore/Semaphore.cs:93-99 | The store becomes Add(store, token). The capacity invariant is kept for a token created after every stored one that is not running. |
| FormixSemaphore.Semaphore.Dequeue | Formix.Semaphore/Semaphore.cs:109-115 | The store becomes Remove(store, token's timestamp), and the capacity invariant is kept. |
| FormixSemaphore.Semaphore.CanExecute | Formix.Semaphore/Semaphore.cs:126-162 | Throws InvalidOperationException exactly when the token is running or done. Otherwise it answers true exactly when the token is stored and passes the FIFO test at its position (false when the token is absent). It changes nothing. |
| FormixSemaphore.Semaphore.Admit | Formix.Semaphore/AbstractSemaphore.cs:41-45 | One poll: CanExecute's answer and faults. On true the token becomes running and not done; the flags are untouched on a fault; the capacity invariant is kept. |
| FormixSemaphore.Semaphore.Poll | Formix.Semaphore/AbstractSemaphore.cs:41-44 | The polling loop keeps polling while the answer is false and ends with Admit's result. |
| FormixSemaphore.Semaphore.Wait | Formix.Semaphore/AbstractSemaphore.cs:38-46 | The token is added first. A token that is not new makes Wait throw InvalidOperationException (it stays queued). A new token returns exactly when it passes the FIFO test (and is then running); for a token later than every stored one, that happens exactly when the stored usage plus its own fits. Otherwise the call is still waiting with the token new. The capacity invariant is kept for a token that is not running and has a timestamp strictly later than every stored one. |
| FormixSemaphore.Semaphore.Signal | Formix.Semaphore/AbstractSemaphore.cs:55-63 | The token becomes done and not running, and the stored token with its timestamp (the token itself, or another one created at the same instant) leaves the store, which is unchanged when there is none. The capacity invariant over the tokens in the store is kept. |
| FormixSemaphore.Semaphore.MutexRunsOne | Formix.Semaphore/Semaphore.cs:23-26 | The value-1 semaphore, under the capacity invariant, has at most one running token in its store. |
| FormixSemaphore.Semaphore.RunningUsageWithinValue | Formix.Semaphore/ISemaphore.cs:16-21 | Under the capacity invariant, the usage of the running tokens in the store lies between 0 and the value. |
| FormixSemaphore.Registry.constructor | Formix.Semaphore/Semaphore.cs:14-17 | The registry starts empty. |
| FormixSemaphore.Registry.Initialize | Formix.Semaphore/Semaphore.cs:41-69 | A value of 0 or less throws ArgumentOutOfRangeException and leaves the registry untouched. A new name registers a fresh semaphore with that value and an empty store. A known name returns the same instance when the values agree and throws InvalidOperationException otherwise; either way the registry is unchanged. |
| FormixSemaphore.Registry.InitializeMutex | Formix.Semaphore/Semaphore.cs:23-26 | Initialize("$mutex", 1), with the same three outcomes. |
| FixedLinkedLists.InsertBefore | Formix.Semaphore/FixedLinkedList.cs:44 | AddBefore: the element is at position i, the ones before are unchanged, and the ones after are shifted by one. |
| FixedLinkedLists.RemoveAfterInsert | Formix.Semaphore/FixedLinkedList.cs:42-50 | RemoveAt(i) undoes Insert(i, x). |
| FixedLinkedLists.InsertAfterRemove | Formix.Semaphore/FixedLinkedList.cs:42-50 | Insert(i, s[i]) undoes RemoveAt(i). |
| FixedLinkedLists.FixedLinkedList.CheckIndex | Formix.Semaphore/FixedLinkedList.cs:66-81 | Passes exactly when 0 <= index < Count, and otherwise throws ArgumentOutOfRangeException. |
| FixedLinkedLists.FixedLinkedList.GetAt | Formix.Semaphore/FixedLinkedList.cs:52-64 | Throws ArgumentOutOfRangeException exactly when the index is out of range; otherwise the walk reaches the node at that index. |
| FixedLinkedLists.FixedLinkedList.Get | Formix.Semaphore/FixedLinkedList.cs:14-17 | The indexer getter: element `index`, or ArgumentOutOfRangeException out of range. |
| FixedLinkedLists.FixedLinkedList.Set | Formix.Semaphore/FixedLinkedList.cs:18-21 | The indexer setter: replaces element `index` only, leaving the count and the other elements unchanged; out of range it throws and changes nothing. |
| FixedLinkedLists.FixedLinkedList.IndexOf | Formix.Semaphore/FixedLinkedList.cs:24-40 | Gives -1 exactly when no element equals the item, and otherwise its first position. |
| FixedLinkedLists.FixedLinkedList.Insert | Formix.Semaphore/FixedLinkedList.cs:42-45 | Places the item immediately before the element at `index` when 0 <= index < Count. Any other index, Count included, throws and changes nothing. |
| FixedLinkedLists.FixedLinkedList.RemoveAt | Formix.Semaphore/FixedLinkedList.cs:47-50 | Removes exactly the element at `index` and keeps the order of the rest; out of range it throws and changes nothing. |
| Synchronization.NewTask | Formix.Synchronization/SemaphoreTask.cs:14-25 | Fails with ArgumentOutOfRangeException exactly when the usage is not positive. Otherwise it gives a fresh task, not running, with the given usage and id. |
| Synchronization.SemaphoreTask.constructor | Formix.Synchronization/SemaphoreTask.cs:23-24 | The usage and id are as given, and the task is not running. |
| Synchronization.RemovePreservesCapacity | Formix.Synchronization/Semaphore.cs:113-122 | LinkedList.Remove keeps the queue free of duplicates and keeps the capacity invariant. |
| Synchronization.AdmitAtTail | Formix.Synchronization/Semaphore.cs:136-152 | A task new to the queue is appended at the tail, and it passes exactly when the queued usage plus its own fits in the value. |
| Synchronization.Semaphore.constructor | Formix.Synchronization/Semaphore.cs:59-64 | The name and value are as given, the queue is empty, Delay is 5, and the invariants hold. |
| Synchronization.Semaphore.TotalTaskCount | Formix.Synchronization/Semaphore.cs:66-75 | The queue length, which is 0 exactly when the queue is empty. |
| Synchronization.Semaphore.RunningTaskCount | Formix.Synchronization/Semaphore.cs:77-88 | The number of running tasks: at most TotalTaskCount, and 0 exactly when no queued task runs. |
| Synchronization.Semaphore.RunningTaskUsage | Formix.Synchronization/Semaphore.cs:90-101 | The usage of the running tasks, between 0 and the total queued usage. |
| Synchronization.Semaphore.RunningUsageWithinValue | Formix.Synchronization/Semaphore.cs:90-101 | Under the capacity invariant, RunningTaskUsage is at most the value. |
| Synchronization.Semaphore.MutexRunsHeadOnly | Formix.Synchronization/Semaphore.cs:136-152 | With a value of 1 under the capacity invariant, at most one task runs, and only the first enqueued one can. |
| Synchronization.Semaphore.Enqueue | Formix.Synchronization/Semaphore.cs:104-111 | AddLast: the task is appended. The capacity invariant is kept for a task that is not running and not yet queued. |
| Synchronization.Semaphore.Dequeue | Formix.Synchronization/Semaphore.cs:113-122 | The queue becomes RemoveFirst(queue, task), and the capacity invariant is kept. |
| Synchronization.Semaphore.CanExecute | Formix.Synchronization/Semaphore.cs:124-154 | Throws InvalidOperationException exactly when the task is running. Otherwise it answers true exactly when the task is queued and passes the FIFO test at its first position. It changes nothing. |
| Synchronization.Semaphore.Admit | Formix.Synchronization/AbstractSemaphore.cs:61-65 | One poll: CanExecute's answer, after which the task runs exactly when the answer was true; the capacity invariant is kept. |
| Synchronization.Semaphore.Complete | Formix.Synchronization/AbstractSemaphore.cs:66 | The awaited task has ended and no longer runs; the capacity invariant is kept. |
| Synchronization.Semaphore.Wait | Formix.Synchronization/AbstractSemaphore.cs:58-67 | The task is appended first. A running task makes it throw InvalidOperationException. Otherwise Wait finishes exactly when the task passes the FIFO test, which for a task new to the queue means the queued usage plus its own fits. It then returns, or throws the action's fault, with the task no longer running. The capacity invariant is kept for a task that is not running and not yet queued. |
| Synchronization.Semaphore.Signal | Formix.Synchronization/AbstractSemaphore.cs:76-79 | Dequeue. |
| Synchronization.Semaphore.Execute | Formix.Synchronization/AbstractSemaphore.cs:30-49 | A usage above the value throws ArgumentException, and a usage that is not positive throws ArgumentOutOfRangeException, both before anything is queued. Otherwise, exactly when the queued usage plus the usage fits, it ends with the action's outcome and the queue is back to what it was; if not, the fresh task is still queued at the tail. The capacity invariant is kept. |
| Synchronization.Registry.constructor | Formix.Synchronization/Semaphore.cs:13-16 | The registry starts empty. |
| Synchronization.Registry.Initialize | Formix.Synchronization/Semaphore.cs:24-52 | A value of 0 or less throws ArgumentOutOfRangeException and leaves the registry untouched. A new name registers a fresh semaphore. A known name returns the same instance when the values agree and throws InvalidOperationException otherwise, leaving the registry unchanged. |
| Synchronization.Registry.InitializeMutex | Formix.Synchronization/Semaphore.cs:19-22 | Initialize("$mutex", 1). |
| UtilitiesSynchronization.SemaphoreTask.constructor | Formix.Utilities.Synchronization/SemaphoreTask.cs:10-16 | The id and usage are as given, with no check on the usage, and the entry is not running. |
| UtilitiesSynchronization.Sub32 | Formix.Utilities.Synchronization/Semaphore.cs:79-84 | C# unchecked `int` subtraction: a 32-bit value congruent to the exact difference modulo 2^32, and equal to it whenever the difference fits. |
| UtilitiesSynchronization.WrapGrantsBeyondQuantity | Formix.Utilities.Synchronization/Semaphore.cs:75-88 | With a quantity of 2,000,000,000 and four distinct entries of usage 1,500,000,000, the walk wraps: the first two entries are refused, and the third and fourth are both granted although together they exceed the quantity. |
| UtilitiesSynchronization.Verdict | Formix.Utilities.Synchronization/Semaphore.cs:75-89 | CanExecute's walk as written, with both subtractions wrapping through `Sub32`. Whatever the usages, a true answer needs the flag already raised or the entry among the entries visited. `VerdictCharacterised` and `WrapGrantsBeyondQuantity` say what it computes without and with a wrap. |
| UtilitiesSynchronization.VerdictCharacterised | Formix.Utilities.Synchronization/Semaphore.cs:77-89 | With positive usages, and as long as the walk does not pass Int32.MinValue, the loop's result from any point on is the flag when nothing is left. Otherwise it is true exactly when what remains exceeds the usage still to visit and either the flag is up or the entry is among the entries still to visit. |
| UtilitiesSynchronization.Granted | Formix.Utilities.Synchronization/Semaphore.cs:70-92 | With positive usages and no wrap, CanExecute answers true exactly when the entry is queued and the usage of all queued entries is below the quantity. |
| UtilitiesSynchronization.SameVerdictForAll | Formix.Utilities.Synchronization/Semaphore.cs:77-89 | With positive usages and no wrap, every queued entry gets the same answer, wherever it stands. |
| UtilitiesSynchronization.LastUnitNeverGranted | Formix.Utilities.Synchronization/Semaphore.cs:79-88 | A single entry whose usage equals the quantity is refused, although it passes the FIFO test. |
| UtilitiesSynchronization.GrantedIsAdmissible | Formix.Utilities.Synchronization/Semaphore.cs:77-89 | With positive usages and no wrap, a granted entry is queued and passes the FIFO test for a quantity one lower. |
| UtilitiesSynchronization.GrantedAtTail | Formix.Utilities.Synchronization/Semaphore.cs:77-89 | With positive usages and no wrap, an entry appended at the tail is granted exactly when the queued usage plus its own is below the quantity. |
| UtilitiesSynchronization.NeverRaised | Formix.Utilities.Synchronization/Semaphore.cs:79-82 | An entry that is not queued never raises the flag. |
| UtilitiesSynchronization.RemovePreservesCapacity | Formix.Utilities.Synchronization/Semaphore.cs:61-68 | LinkedList.Remove keeps the queue free of duplicates, keeps usages positive and keeps the capacity invariant. |
| UtilitiesSynchronization.Semaphore.constructor | Formix.Utilities.Synchronization/Semaphore.cs:20-25 | The name and quantity are as given, the queue is empty, Delay is 50, and the capacity invariant holds. |
| UtilitiesSynchronization.Semaphore.RunningUsageBelowQuantity | Formix.Utilities.Synchronization/Semaphore.cs:77-89 | Under the capacity invariant, the running usage is below the quantity while anything runs, and 0 otherwise. |
| UtilitiesSynchronization.Semaphore.Enqueue | Formix.Utilities.Synchronization/Semaphore.cs:52-59 | AddLast: the entry is appended. The capacity invariant is kept for an entry with positive usage that is not running and not yet queued. |
| UtilitiesSynchronization.Semaphore.Dequeue | Formix.Utilities.Synchronization/Semaphore.cs:61-68 | The queue becomes RemoveFirst(queue, entry), and the capacity invariant is kept. |
| UtilitiesSynchronization.Semaphore.CanExecute | Formix.Utilities.Synchronization/Semaphore.cs:70-92 | The loop, with its wrapping subtractions, computes Verdict over the whole queue. With positive usages and no wrap (`Unwrapped`) it is true exactly when the entry is queued and the total usage is below the quantity. It is false for an entry that is not queued. It changes nothing. |
| UtilitiesSynchronization.Semaphore.Admit | Formix.Utilities.Synchronization/AbstractSemaphore.cs:42-50 | One poll: CanExecute's answer. On true the entry's Execute raises its flag; otherwise the flag is untouched. The capacity invariant is kept when the walk does not wrap. |
| UtilitiesSynchronization.Semaphore.Complete | Formix.Utilities.Synchronization/SemaphoreTask.cs:22-33 | The entry's Execute ends, normally or by throwing, with the flag lowered; the capacity invariant is kept. |
| UtilitiesSynchronization.Semaphore.Poll | Formix.Utilities.Synchronization/AbstractSemaphore.cs:41-49 | The polling loop: it ends granted exactly when CanExecute grants the entry, with the flag raised; otherwise it has expired exactly when maxWaitTime is positive and a reading after a failed poll is past the deadline, and the flag is untouched. |
| UtilitiesSynchronization.Semaphore.Run | Formix.Utilities.Synchronization/AbstractSemaphore.cs:41-51 | Wait after the Enqueue: true or the action's fault when granted, with the flag lowered; otherwise false on timeout or still waiting, with the flag untouched. |
| UtilitiesSynchronization.Semaphore.Wait | Formix.Utilities.Synchronization/AbstractSemaphore.cs:38-52 | The entry is appended first. If CanExecute grants it, Wait returns true (or throws the action's fault) however small maxWaitTime is, and the flag ends lowered. Otherwise Wait returns false exactly when maxWaitTime is positive and a clock reading after a failed poll is past the start reading plus maxWaitTime. If neither happens, it is still waiting. For an entry of positive usage that is not running and not yet queued, the capacity invariant is kept, wrap or no wrap, since the entry is idle again when Wait returns. |
| UtilitiesSynchronization.Semaphore.Signal | Formix.Utilities.Synchronization/AbstractSemaphore.cs:53-56 | Dequeue. |
| UtilitiesSynchronization.Semaphore.Execute | Formix.Utilities.Synchronization/AbstractSemaphore.cs:16-36 | A usage above the quantity throws ArgumentException before any entry exists; no other exception of its own is raised. With maxWaitTime 0 or less it never returns false. With positive usages and no wrap: when the queued usage plus the usage is below the quantity, it ends with the action's outcome; otherwise it returns false on timeout, or is still waiting. Whenever it ends, the queue is what it was. For a positive usage the capacity invariant is kept. |
| UtilitiesSynchronization.Registry.constructor | Formix.Utilities.Synchronization/Semaphore.cs:15-18 | The registry starts empty. |
| UtilitiesSynchronization.Registry.Initialize | Formix.Utilities.Synchronization/Semaphore.cs:28-50 | Any quantity is accepted. A new name registers a fresh semaphore with that quantity. A known name returns the same instance when the quantities agree and throws InvalidOperationException otherwise, leaving the registry unchanged. |

## Left out

- Formix.Semaphore.Sql/SqlSemaphore.cs is not part of this model. It is database I/O, and its ordered select is the sorted store already modelled.
- Threads, locks, `Thread.Sleep`, `Task.Delay`, `Task.Run` and async/await are not modelled. Each lock-held section is one atomic step, and the poll delay has no timing.
- The calls to `DateTime.Now` and `Guid.NewGuid()` become parameters: a timestamp, an id, and the `clock` readings of the deadline wait. The clock is not required to be non-decreasing, because the code does not rely on that.
- The caller's `Action` is reduced to whether it throws (`actionThrows`). Its effects and the fault it carries are not modelled.
- The ISemaphore interfaces, the unit-test projects and the console demos are not modelled. The interfaces are declarations. The first interface's promise on the running usage is `Admission.CapacityBound`.
- `FixedLinkedList` nodes are positions in a sequence. The model does not capture node identity, relinking, `null` nodes or the `LinkedList` members the class inherits unchanged.
- `FormixSemaphore.Semaphore.Wait`, `Synchronization.Semaphore.Wait`, `UtilitiesSynchronization.Semaphore.Wait` and the two `Execute` methods are bounded by `fuel` or by the clock readings. A C# call that would poll forever ends in `StillWaiting` here.
- FormixSemaphore.Semaphore.Wait: it keeps the capacity invariant only for a token whose timestamp is strictly later than every stored one. That holds only when each token is enqueued after every stored token and `DateTime.Now` gave it a later reading. The caller creates the token (Formix.Semaphore/Token.cs:31) before `Wait` enqueues it (Formix.Semaphore/AbstractSemaphore.cs:38-40). So concurrent callers can enqueue out of creation order, and `DateTime.Now` readings can be equal or go backwards. In either case Formix.Semaphore can run more than its value: an older token is sorted in front of running ones and passes with less ahead of it (`FormixSemaphore.OlderTokenOvertakes`).
- Default arguments are not modelled: `Token(int usage = 1)` (Formix.Semaphore/Token.cs:19), `Execute(Action, int usage = 1)` (Formix.Synchronization/AbstractSemaphore.cs:30) and `Execute(Action, int usage = 1, int maxWaitTime = 0)` (Formix.Utilities.Synchronization/AbstractSemaphore.cs:16). Every model parameter is passed explicitly, and a call relying on a default is the call with 1 or 0 written out.
- FormixSemaphore.Semaphore.Admit, Synchronization.Semaphore.Admit and UtilitiesSynchronization.Semaphore.Admit combine the last `CanExecute` with the step that follows it (`IsRunning = true`, `Start()`, the entry's `Execute` raising its flag). Together they are one atomic step.
- Synchronization.Semaphore.CanExecute: Formix.Synchronization/Semaphore.cs reads `IsRuning`, which Formix.Synchronization/SemaphoreTask.cs does not declare. It is modelled as a running flag on the task. The `Task` base class's other states (a second `Start()` throwing, for instance) are not modelled.
- UtilitiesSynchronization.Semaphore.CanExecute: its characterisation, and the capacity invariant of the Formix.Utilities.Synchronization semaphore, are stated only for positive usages. That revision does not check usages, and for other usages the contract is the Verdict equation alone.
- UtilitiesSynchronization.VerdictCharacterised, UtilitiesSynchronization.Granted, UtilitiesSynchronization.SameVerdictForAll, UtilitiesSynchronization.GrantedIsAdmissible, UtilitiesSynchronization.GrantedAtTail, UtilitiesSynchronization.Semaphore.CanExecute, UtilitiesSynchronization.Semaphore.Admit and UtilitiesSynchronization.Semaphore.Execute: their characterisations and capacity clauses assume that `remains` never passes Int32.MinValue. Where it wraps, `CanExecute` can grant beyond the quantity (`WrapGrantsBeyondQuantity`). The model then promises only the Verdict equation, and that Wait's and Execute's return leave the capacity invariant intact.
- FixedLinkedLists.FixedLinkedList.IndexOf: the C# loop calls `node.Value.Equals(item)` (Formix.Semaphore/FixedLinkedList.cs:28), which throws NullReferenceException when a stored element met before a match is null. The model has no null elements, so that fault is not modelled, and element equality is Dafny's `==` in place of a user-defined `Equals`.
- UtilitiesSynchronization.Registry.Initialize: as written, it accepts quantities of 0 or less. The unit tests of that revision expect ArgumentOutOfRangeException, and the model follows the code. That revision also has no argument-less `Initialize`.
