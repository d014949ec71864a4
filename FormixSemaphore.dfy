/** Formix.Semaphore's in-process semaphore: a named value, a store of tokens
    kept as a SortedSet<Token> ordered by timestamp, the Wait/Signal protocol
    of its abstract base class, and the static registry behind Initialize.

    Each lock-held section of the source is one atomic step here. The store
    is the sequence of tokens in the set's iteration order. */
module FormixSemaphore {
  import opened Faults
  import opened Sequences
  import opened Admission
  import opened FormixToken

  // ---------------------------------------------------------------------
  // The token store: a SortedSet<Token> under Token.CompareTo

  /** The order the SortedSet keeps. CompareTo is 0 on equal timestamps, so
      the set holds at most one token per timestamp. */
  predicate StrictlySorted(s: seq<Token>)
  {
    forall i, j :: 0 <= i < j < |s| ==> s[i].timeStamp < s[j].timeStamp
  }

  /** Some token in s compares equal to a token of timestamp ts. */
  predicate HasTimeStamp(s: seq<Token>, ts: int)
  {
    exists i :: 0 <= i < |s| && s[i].timeStamp == ts
  }

  /** Every token in s was created strictly before t. */
  predicate AllBefore(s: seq<Token>, t: Token)
  {
    forall i :: 0 <= i < |s| ==> s[i].timeStamp < t.timeStamp
  }

  lemma SortedHasNoDuplicates(s: seq<Token>)
    requires StrictlySorted(s)
    ensures NoDuplicates(s)
  {
  }

  /** The usages of the tokens, in store order. */
  function Usages(s: seq<Token>): (us: seq<int>)
    ensures |us| == |s|
    ensures forall i :: 0 <= i < |s| ==> us[i] == s[i].usage
    ensures Positive(us) && NonNegative(us)
  {
    seq(|s|, i requires 0 <= i < |s| => s[i].usage)
  }

  /** The IsRunning flags of the tokens, in store order. */
  function RunningFlags(s: seq<Token>): (r: seq<bool>)
    reads s
    ensures |r| == |s|
    ensures forall i :: 0 <= i < |s| ==> r[i] == s[i].isRunning
  {
    if s == [] then [] else RunningFlags(s[..|s| - 1]) + [s[|s| - 1].isRunning]
  }

  /** Where SortedSet<Token>.Add places a token of timestamp ts: after every
      stored token created earlier, before the rest. */
  function InsertionPoint(s: seq<Token>, ts: int): (k: nat)
    ensures k <= |s|
    ensures forall i :: 0 <= i < k ==> s[i].timeStamp < ts
    ensures k < |s| ==> ts <= s[k].timeStamp
  {
    if s == [] || ts <= s[0].timeStamp then 0
    else 1 + InsertionPoint(s[1..], ts)
  }

  /** SortedSet<Token>.Add: the token goes to its place in timestamp order;
      if a token with the same timestamp is already there, nothing changes. */
  function Add(s: seq<Token>, t: Token): (r: seq<Token>)
    requires StrictlySorted(s)
    ensures StrictlySorted(r)
    ensures HasTimeStamp(s, t.timeStamp) ==> r == s
    ensures !HasTimeStamp(s, t.timeStamp) ==> multiset(r) == multiset(s) + multiset{t}
  {
    var k := InsertionPoint(s, t.timeStamp);
    if k < |s| && s[k].timeStamp == t.timeStamp then s
    else
      InsertionPointFree(s, t.timeStamp);
      InsertKeepsSorted(s, t, k);
      assert s == s[..k] + s[k..];
      s[..k] + [t] + s[k..]
  }

  /** In a sorted store the insertion point is where an equal timestamp
      would be. */
  lemma InsertionPointFree(s: seq<Token>, ts: int)
    requires StrictlySorted(s)
    ensures var k := InsertionPoint(s, ts);
      HasTimeStamp(s, ts) <==> k < |s| && s[k].timeStamp == ts
  {
  }

  lemma InsertKeepsSorted(s: seq<Token>, t: Token, k: nat)
    requires StrictlySorted(s) && k <= |s|
    requires forall i :: 0 <= i < k ==> s[i].timeStamp < t.timeStamp
    requires k < |s| ==> t.timeStamp < s[k].timeStamp
    ensures StrictlySorted(s[..k] + [t] + s[k..])
  {
    var r := s[..k] + [t] + s[k..];
    forall i, j | 0 <= i < j < |r| ensures r[i].timeStamp < r[j].timeStamp {
      if i < k && j > k {
        assert r[j] == s[j - 1];
      } else if i > k {
        assert r[i] == s[i - 1] && r[j] == s[j - 1];
      }
    }
  }

  /** A token created after every stored one goes to the end of the store. */
  lemma AddLatest(s: seq<Token>, t: Token)
    requires StrictlySorted(s) && AllBefore(s, t)
    ensures Add(s, t) == s + [t]
  {
    assert InsertionPoint(s, t.timeStamp) == |s|;
    assert HasTimeStamp(s, t.timeStamp) ==> false;
  }

  /** Enqueuing a token that is not running, created after every stored
      one, keeps the capacity invariant. */
  lemma AppendPreservesCapacity(s: seq<Token>, t: Token, value: int)
    requires StrictlySorted(s) && AllBefore(s, t) && !t.isRunning
    requires RunningAdmissible(Usages(s), RunningFlags(s), value)
    ensures RunningAdmissible(Usages(Add(s, t)), RunningFlags(Add(s, t)), value)
  {
    AddLatest(s, t);
    UsagesAppend(s, t);
    RunningFlagsAppend(s, t);
    RunningAdmissibleAppend(Usages(s), RunningFlags(s), value, t.usage);
  }

  /** A token created after every stored one is enqueued at the tail, where
      it passes exactly when the whole store before it plus its own usage
      fits in the value. */
  lemma AdmitLatest(s: seq<Token>, t: Token, value: int)
    requires StrictlySorted(s) && AllBefore(s, t)
    ensures t in Add(s, t)
    ensures Admissible(Usages(Add(s, t)), value, Position(Add(s, t), t)) <==> Sum(Usages(s)) + t.usage <= value
  {
    AddLatest(s, t);
    UsagesAppend(s, t);
    assert t !in s;
    assert (s + [t])[..|s|] == s;
    AdmissibleAtTail(Usages(s), t.usage, value);
  }

  lemma UsagesAppend(s: seq<Token>, t: Token)
    ensures Usages(s + [t]) == Usages(s) + [t.usage]
  {
  }

  lemma RunningFlagsRemove(s: seq<Token>, k: nat)
    requires k < |s|
    ensures RunningFlags(RemoveIndex(s, k)) == RemoveIndex(RunningFlags(s), k)
  {
    var r := RemoveIndex(s, k);
    var a, b := RunningFlags(r), RemoveIndex(RunningFlags(s), k);
    forall i | 0 <= i < |a| ensures a[i] == b[i] {
      if i < k {
        assert r[i] == s[i];
      } else {
        assert r[i] == s[i + 1];
      }
    }
  }

  lemma UsagesRemove(s: seq<Token>, k: nat)
    requires k < |s|
    ensures Usages(RemoveIndex(s, k)) == RemoveIndex(Usages(s), k)
  {
    var r := RemoveIndex(s, k);
    var a, b := Usages(r), RemoveIndex(Usages(s), k);
    forall i | 0 <= i < |a| ensures a[i] == b[i] {
      if i < k {
        assert r[i] == s[i];
      } else {
        assert r[i] == s[i + 1];
      }
    }
  }

  lemma RunningFlagsAppend(s: seq<Token>, t: Token)
    ensures RunningFlags(s + [t]) == RunningFlags(s) + [t.isRunning]
  {
    assert (s + [t])[..|s|] == s;
  }

  /** The position of the token of timestamp ts. */
  function IndexOfTimeStamp(s: seq<Token>, ts: int): (k: nat)
    requires HasTimeStamp(s, ts)
    ensures k < |s| && s[k].timeStamp == ts
  {
    if s[0].timeStamp == ts then 0
    else
      assert HasTimeStamp(s[1..], ts) by {
        var i :| 0 <= i < |s| && s[i].timeStamp == ts;
        assert s[1..][i - 1] == s[i];
      }
      1 + IndexOfTimeStamp(s[1..], ts)
  }

  /** SortedSet<Token>.Remove: removes the token that compares equal, that
      is the one with the same timestamp, which need not be the same object;
      a no-op when there is none. */
  function Remove(s: seq<Token>, ts: int): (r: seq<Token>)
    requires StrictlySorted(s)
    ensures StrictlySorted(r)
    ensures !HasTimeStamp(r, ts)
    ensures !HasTimeStamp(s, ts) ==> r == s
    ensures HasTimeStamp(s, ts) ==> |r| == |s| - 1
    ensures forall i :: 0 <= i < |r| ==> r[i] in s && r[i].timeStamp != ts
    ensures forall i :: 0 <= i < |s| && s[i].timeStamp != ts ==> s[i] in r
    ensures |r| <= |s|
  {
    if HasTimeStamp(s, ts) then
      var k := IndexOfTimeStamp(s, ts);
      var r := RemoveIndex(s, k);
      assert forall i :: 0 <= i < |r| ==> r[i] == s[if i < k then i else i + 1];
      RemoveIndexKeepsOthers(s, k);
      r
    else s
  }

  /** Removing a token keeps the capacity invariant. */
  lemma RemovePreservesCapacity(s: seq<Token>, ts: int, value: int)
    requires StrictlySorted(s) && RunningAdmissible(Usages(s), RunningFlags(s), value)
    ensures RunningAdmissible(Usages(Remove(s, ts)), RunningFlags(Remove(s, ts)), value)
  {
    if HasTimeStamp(s, ts) {
      var k := IndexOfTimeStamp(s, ts);
      var r := RemoveIndex(s, k);
      assert Remove(s, ts) == r;
      UsagesRemove(s, k);
      RunningFlagsRemove(s, k);
      RunningAdmissibleRemove(Usages(s), RunningFlags(s), value, k);
    }
  }

  /** The comparer identifies tokens by timestamp alone: removing a token
      that is not in the store removes the stored token created at the same
      instant. */
  lemma RemoveMatchesByTimeStamp(s: seq<Token>, a: Token, b: Token)
    requires StrictlySorted(s) && a in s && a != b && a.timeStamp == b.timeStamp
    ensures b !in s
    ensures a !in Remove(s, b.timeStamp)
    ensures |Remove(s, b.timeStamp)| == |s| - 1
  {
    var i :| 0 <= i < |s| && s[i] == a;
    assert HasTimeStamp(s, b.timeStamp);
  }

  /** A token whose timestamp collides with a stored token of another
      identity is left out by Add, so CanExecute never finds it and its
      Wait never returns; the stored one still leaves on its Signal. */
  lemma CollidingTokenNeverStored(s: seq<Token>, a: Token, b: Token)
    requires StrictlySorted(s) && a in s && a != b && a.timeStamp == b.timeStamp
    ensures b !in Add(s, b)
    ensures Add(s, b) == s
  {
    var i :| 0 <= i < |s| && s[i] == a;
    assert HasTimeStamp(s, b.timeStamp);
  }

  /** An older token enqueued behind a running newer one overtakes it:
      with a value of 5, a running token of usage 4 and a stored order
      that respects the capacity invariant, a token of usage 3 with an
      earlier timestamp is sorted in front, passes the admission test with
      nothing ahead of it, and once it runs the store uses 7 units. */
  lemma OlderTokenOvertakes(a: Token, b: Token)
    requires a.timeStamp < b.timeStamp && a.usage == 3 && b.usage == 4
    ensures RunningAdmissible(Usages([b]), [true], 5)
    ensures Add([b], a) == [a, b]
    ensures Admissible(Usages([a, b]), 5, 0)
    ensures !RunningAdmissible(Usages([a, b]), [true, true], 5)
    ensures RunningSum(Usages([a, b]), [true, true]) == 7
  {
    assert InsertionPoint([b], a.timeStamp) == 0;
    var us := Usages([a, b]);
    assert us == [3, 4] && us[..0] == [] && us[..1] == [3];
    assert Sum([3]) == 3;
    assert !Admissible(us, 5, 1);
    assert [true, true][..1] == [true];
    assert Usages([b])[..0] == [];
  }

  // ---------------------------------------------------------------------
  // The semaphore

  class Semaphore {
    const name: string
    const value: int
    var delay: int
    var tokens: seq<Token>

    /** The object invariant: a positive value and a well-ordered store. */
    ghost predicate Valid()
      reads this
    {
      value > 0 && StrictlySorted(tokens)
    }

    /** The capacity invariant: every running token in the store passes the
        admission test where it stands. */
    ghost predicate WithinCapacity()
      reads this, tokens
    {
      RunningAdmissible(Usages(tokens), RunningFlags(tokens), value)
    }

    /** Sum of the usage of the running tokens in the store. */
    ghost function RunningUsage(): int
      reads this, tokens
    {
      RunningSum(Usages(tokens), RunningFlags(tokens))
    }

    /** The private constructor (with the base class's default Delay of 5). */
    constructor (name: string, value: int)
      requires value > 0
      ensures this.name == name && this.value == value
      ensures tokens == [] && delay == 5
      ensures Valid() && WithinCapacity()
    {
      this.name := name;
      this.value := value;
      delay := 5;
      tokens := [];
    }

    /** Adds the token to the store, under the store's lock. */
    method Enqueue(token: Token)
      requires Valid()
      modifies this
      ensures Valid() && delay == old(delay)
      ensures tokens == Add(old(tokens), token)
      ensures old(WithinCapacity()) && !token.isRunning && AllBefore(old(tokens), token) ==> WithinCapacity()
    {
      ghost var before := tokens;
      ghost var within := WithinCapacity();
      tokens := Add(tokens, token);
      if within && !token.isRunning && AllBefore(before, token) {
        AppendPreservesCapacity(before, token, value);
      }
    }

    /** Removes the token comparing equal to the given one, under the lock. */
    method Dequeue(token: Token)
      requires Valid()
      modifies this
      ensures Valid() && delay == old(delay)
      ensures tokens == Remove(old(tokens), token.timeStamp)
      ensures old(WithinCapacity()) ==> WithinCapacity()
    {
      ghost var before := tokens;
      ghost var within := WithinCapacity();
      tokens := Remove(tokens, token.timeStamp);
      if within {
        RemovePreservesCapacity(before, token.timeStamp, value);
        assert RunningFlags(tokens) == RunningFlags(Remove(before, token.timeStamp));
      }
    }

    /** CanExecute: fails with InvalidOperationException on a token that is
        running or done; otherwise walks the store with `remains = value`,
        and answers whether the token passes the FIFO admission test. */
    method CanExecute(token: Token) returns (r: Result<bool>)
      ensures r.Err? <==> !token.IsNew()
      ensures r.Err? ==> r.fault == InvalidOperation
      ensures r.Ok? ==> (r.value <==> token in tokens && Admissible(Usages(tokens), value, Position(tokens, token)))
    {
      if token.isRunning {
        return Err(InvalidOperation);
      }
      if token.isDone {
        return Err(InvalidOperation);
      }
      ghost var us := Usages(tokens);
      var remains := value;
      var i := 0;
      while i < |tokens|
        invariant 0 <= i <= |tokens|
        invariant remains == value - Sum(us[..i])
        invariant token in tokens[..i] ==> !Admissible(us, value, Position(tokens, token))
      {
        var e := tokens[i];
        if e == token && remains >= token.usage {
          var p := Position(tokens, token);
          if p < i {
            PrefixClosed(us, value, i, p);
          }
          return Ok(true);
        }
        SumStep(us, i);
        remains := remains - e.usage;
        if remains <= 0 {
          if token in tokens {
            var p := Position(tokens, token);
            if p > i {
              SumPrefixGrows(us, i + 1, p);
            } else if p < i {
              assert tokens[..i][p] == token;
            }
          }
          return Ok(false);
        }
        if token in tokens[..i + 1] {
          var p := Position(tokens, token);
          if p < i {
            assert tokens[..i][p] == token;
          }
        }
        i := i + 1;
      }
      assert tokens[..i] == tokens;
      return Ok(false);
    }

    /** One poll of Wait's loop: CanExecute, and once it says yes the token
        is marked running. */
    method Admit(token: Token) returns (r: Result<bool>)
      requires Valid()
      modifies token
      ensures r.Err? <==> old(!token.IsNew())
      ensures r.Err? ==> r.fault == InvalidOperation
      ensures r.Err? ==> token.isRunning == old(token.isRunning) && token.isDone == old(token.isDone)
      ensures r.Ok? ==> (r.value <==> token in tokens && Admissible(Usages(tokens), value, Position(tokens, token)))
      ensures r == Ok(true) ==> token.isRunning && !token.isDone
      ensures r == Ok(false) ==> token.IsNew()
      ensures old(WithinCapacity()) ==> WithinCapacity()
    {
      ghost var flags := RunningFlags(tokens);
      ghost var within := WithinCapacity();
      r := CanExecute(token);
      if r == Ok(true) {
        ghost var p := Position(tokens, token);
        token.isRunning := true;
        if within {
          SortedHasNoDuplicates(tokens);
          assert forall i :: 0 <= i < |tokens| && i != p ==> tokens[i] != token;
          RunningAdmissibleRaise(Usages(tokens), flags, RunningFlags(tokens), value, p);
        }
      }
    }

    /** Wait's polling loop: Admit until it says yes or fails, with `fuel`
        bounding the polls after the first. Since no other caller acts
        during one call of this sequential model, every poll gives the first
        one's answer. */
    method Poll(token: Token, fuel: nat) returns (r: Result<bool>)
      requires Valid()
      modifies token
      ensures r.Err? <==> old(!token.IsNew())
      ensures r.Err? ==> r.fault == InvalidOperation
      ensures r.Err? ==> token.isRunning == old(token.isRunning) && token.isDone == old(token.isDone)
      ensures r.Ok? ==> (r.value <==> token in tokens && Admissible(Usages(tokens), value, Position(tokens, token)))
      ensures r == Ok(true) ==> token.isRunning && !token.isDone
      ensures r == Ok(false) ==> token.IsNew()
      ensures old(WithinCapacity()) ==> WithinCapacity()
    {
      ghost var was := token.IsNew();
      ghost var within := WithinCapacity();
      r := Admit(token);
      var polls := fuel;
      while r == Ok(false) && polls > 0
        invariant r.Err? <==> !was
        invariant r.Err? ==> r.fault == InvalidOperation
        invariant r.Err? ==> token.isRunning == old(token.isRunning) && token.isDone == old(token.isDone)
        invariant r.Ok? ==> (r.value <==> token in tokens && Admissible(Usages(tokens), value, Position(tokens, token)))
        invariant r == Ok(true) ==> token.isRunning && !token.isDone
        invariant r == Ok(false) ==> token.IsNew()
        invariant within ==> WithinCapacity()
        decreases polls
      {
        r := Admit(token);
        polls := polls - 1;
      }
    }

    /** Wait: enqueue, then poll until CanExecute says yes, leaving the
        token running. */
    method Wait(token: Token, fuel: nat) returns (c: Completion<()>)
      requires Valid()
      modifies this, token
      ensures Valid() && delay == old(delay)
      ensures tokens == Add(old(tokens), token)
      ensures old(!token.IsNew()) ==> c == Threw(InvalidOperation)
      ensures old(!token.IsNew()) ==> token.isRunning == old(token.isRunning) && token.isDone == old(token.isDone)
      ensures old(token.IsNew()) ==>
        (c == Returned(()) <==> token in tokens && Admissible(Usages(tokens), value, Position(tokens, token)))
      ensures old(token.IsNew()) ==> c == Returned(()) || c == StillWaiting
      ensures c == Returned(()) ==> token.isRunning && !token.isDone
      ensures c == StillWaiting ==> token.IsNew()
      ensures old(token.IsNew()) && AllBefore(old(tokens), token) ==>
        (c == Returned(()) <==> Sum(Usages(old(tokens))) + token.usage <= value)
      ensures old(WithinCapacity()) && old(!token.isRunning) && AllBefore(old(tokens), token) ==> WithinCapacity()
    {
      Enqueue(token);
      var r := Poll(token, fuel);
      if r.Err? {
        c := Threw(r.fault);
      } else if r.value {
        c := Returned(());
      } else {
        c := StillWaiting;
      }
      if AllBefore(old(tokens), token) {
        AdmitLatest(old(tokens), token, value);
      }
    }

    /** Signal, under the store's lock: the token is marked done and not
        running, and the token comparing equal to it leaves the store. */
    method Signal(token: Token)
      requires Valid()
      modifies this, token
      ensures Valid() && delay == old(delay)
      ensures tokens == Remove(old(tokens), token.timeStamp)
      ensures !token.isRunning && token.isDone && token !in tokens
      ensures !HasTimeStamp(old(tokens), token.timeStamp) ==> tokens == old(tokens)
      ensures old(WithinCapacity()) ==> WithinCapacity()
    {
      ghost var flags := RunningFlags(tokens);
      token.isRunning := false;
      token.isDone := true;
      if RunningAdmissible(Usages(tokens), flags, value) {
        RunningAdmissibleLower(Usages(tokens), flags, RunningFlags(tokens), value);
      }
      Dequeue(token);
    }

    /** The mutex ("$mutex", value 1) runs one token at a time. */
    lemma MutexRunsOne()
      requires Valid() && WithinCapacity() && value == 1
      ensures CountTrue(RunningFlags(tokens)) <= 1
    {
      MutexRunsAlone(Usages(tokens), RunningFlags(tokens));
    }

    /** The interface's promise: the running usage never exceeds the value. */
    lemma RunningUsageWithinValue()
      requires Valid() && WithinCapacity()
      ensures 0 <= RunningUsage() <= value
    {
      CapacityBound(Usages(tokens), RunningFlags(tokens), value);
      RunningSumAtMostSum(Usages(tokens), RunningFlags(tokens));
    }
  }

  // ---------------------------------------------------------------------
  // The static registry

  /** Name of the semaphore the argument-less Initialize returns. */
  const MutexName: string := "$mutex"

  /** The process-wide dictionary of semaphores by name. */
  class Registry {
    var semaphores: map<string, Semaphore>

    ghost predicate Valid()
      reads this, semaphores.Values
    {
      forall n :: n in semaphores ==> semaphores[n].name == n && semaphores[n].Valid()
    }

    constructor ()
      ensures Valid() && semaphores == map[]
    {
      semaphores := map[];
    }

    /** Initialize(name, value): a value that is not positive is rejected
        before the dictionary is touched; a new name gets a new semaphore;
        a known name gives back its semaphore when the values agree and
        fails with InvalidOperationException otherwise. */
    method Initialize(name: string, value: int) returns (r: Result<Semaphore>)
      requires Valid()
      modifies this
      ensures Valid()
      ensures value <= 0 ==> r == Err(ArgumentOutOfRange) && semaphores == old(semaphores)
      ensures value > 0 && name in old(semaphores) ==> semaphores == old(semaphores)
      ensures value > 0 && name in old(semaphores) && old(semaphores)[name].value == value ==>
        r == Ok(old(semaphores)[name])
      ensures value > 0 && name in old(semaphores) && old(semaphores)[name].value != value ==>
        r == Err(InvalidOperation)
      ensures value > 0 && name !in old(semaphores) ==>
        r.Ok? && fresh(r.value) && semaphores == old(semaphores)[name := r.value] &&
        r.value.name == name && r.value.value == value && r.value.tokens == [] && r.value.delay == 5
      ensures r.Ok? ==> r.value.Valid() && r.value.name == name && r.value.value == value
    {
      if value <= 0 {
        return Err(ArgumentOutOfRange);
      }
      if name !in semaphores {
        var s := new Semaphore(name, value);
        semaphores := semaphores[name := s];
      }
      var semaphore := semaphores[name];
      if semaphore.value != value {
        return Err(InvalidOperation);
      }
      return Ok(semaphore);
    }

    /** Initialize(): the semaphore named "$mutex" with a value of 1. */
    method InitializeMutex() returns (r: Result<Semaphore>)
      requires Valid()
      modifies this
      ensures Valid()
      ensures MutexName in old(semaphores) ==> semaphores == old(semaphores)
      ensures MutexName in old(semaphores) && old(semaphores)[MutexName].value == 1 ==>
        r == Ok(old(semaphores)[MutexName])
      ensures MutexName in old(semaphores) && old(semaphores)[MutexName].value != 1 ==>
        r == Err(InvalidOperation)
      ensures MutexName !in old(semaphores) ==>
        r.Ok? && fresh(r.value) && semaphores == old(semaphores)[MutexName := r.value] &&
        r.value.name == MutexName && r.value.value == 1 && r.value.tokens == []
    {
      r := Initialize(MutexName, 1);
    }
  }
}
