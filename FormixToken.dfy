/** Formix.Semaphore's Token: an immutable request (id, usage, creation time)
    with two mutable execution flags, ordered by creation time. */
module FormixToken {
  import opened Faults

  const MinInt64: int := -0x8000_0000_0000_0000
  const MaxInt64: int := 0x7FFF_FFFF_FFFF_FFFF

  /** DateTime.MaxValue.Ticks, the largest value DateTime.Now.Ticks can take. */
  const MaxTicks: int := 3155378975999999999

  /** A C# `long`. */
  type Int64 = x: int | MinInt64 <= x <= MaxInt64

  /** A value of DateTime.Ticks: 100-nanosecond intervals since 0001-01-01. */
  type Ticks = t: int | 0 <= t <= MaxTicks

  /** A Guid, abstracted to a number; fresh identifiers are parameters. */
  type Guid = nat

  /** A usage, which the constructor only accepts when positive. */
  type Usage = n: int | n > 0 witness 1

  /** C# `long` subtraction in an unchecked context: the exact difference
      wrapped into 64 bits. */
  function Sub64(a: Int64, b: Int64): (r: Int64)
    ensures (r - (a - b)) % 0x1_0000_0000_0000_0000 == 0
  {
    var d := a - b;
    if d > MaxInt64 then d - 0x1_0000_0000_0000_0000
    else if d < MinInt64 then d + 0x1_0000_0000_0000_0000
    else d
  }

  class Token {
    const id: Guid
    const usage: Usage
    const timeStamp: Ticks
    var isRunning: bool
    var isDone: bool

    constructor (id: Guid, usage: Usage, timeStamp: Ticks)
      ensures this.id == id && this.usage == usage && this.timeStamp == timeStamp
      ensures !isRunning && !isDone
    {
      this.id := id;
      this.usage := usage;
      this.timeStamp := timeStamp;
      isRunning := false;
      isDone := false;
    }

    /** The token has neither started nor finished. */
    predicate IsNew()
      reads this
    {
      !isRunning && !isDone
    }

    /** IComparable<Token>.CompareTo: the sign of the (64-bit) difference of
        the timestamps. Ticks are never negative, so the subtraction cannot
        wrap and the sign is that of the true difference. */
    function CompareTo(other: Token): (r: int)
      ensures r == -1 <==> timeStamp < other.timeStamp
      ensures r == 0 <==> timeStamp == other.timeStamp
      ensures r == 1 <==> timeStamp > other.timeStamp
    {
      var diff := Sub64(timeStamp, other.timeStamp);
      if diff < 0 then -1
      else if diff > 0 then 1
      else 0
    }
  }

  /** The Token constructor: a usage that is not positive is rejected with
      ArgumentOutOfRangeException; the Guid and DateTime.Now.Ticks it reads
      are parameters. */
  method NewToken(usage: int, id: Guid, timeStamp: Ticks) returns (r: Result<Token>)
    ensures r.Err? <==> usage <= 0
    ensures r.Err? ==> r.fault == ArgumentOutOfRange
    ensures r.Ok? ==> fresh(r.value) && r.value.IsNew()
    ensures r.Ok? ==> r.value.usage == usage && r.value.id == id && r.value.timeStamp == timeStamp
  {
    if usage <= 0 {
      return Err(ArgumentOutOfRange);
    }
    var t := new Token(id, usage, timeStamp);
    return Ok(t);
  }

  /** CompareTo is a total preorder that identifies tokens by timestamp
      alone: antisymmetric, transitive, and 0 for equal timestamps whatever
      the ids. */
  lemma CompareToTotalPreorder(a: Token, b: Token, c: Token)
    ensures a.CompareTo(b) == -b.CompareTo(a)
    ensures a.CompareTo(b) <= 0 && b.CompareTo(c) <= 0 ==> a.CompareTo(c) <= 0
    ensures a.timeStamp == b.timeStamp ==> a.CompareTo(b) == 0
    ensures a.CompareTo(a) == 0
  {
  }
}
