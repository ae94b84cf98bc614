/** Times as seconds and nanoseconds: their order, and subtraction in place. */
module Timespecs {
  datatype Timespec = Timespec(sec: int, nsec: int) {
    /** The nanoseconds stay below a second, as everyone keeps them. */
    predicate Normal() {
      0 <= nsec < 1_000_000_000
    }

    function Nanoseconds(): int {
      sec * 1_000_000_000 + nsec
    }
  }

  datatype Comparison = Less | LessEqual | Equal | NotEqual | GreaterEqual | Greater

  predicate Compares(x: int, y: int, op: Comparison) {
    match op
    case Less => x < y
    case LessEqual => x <= y
    case Equal => x == y
    case NotEqual => x != y
    case GreaterEqual => x >= y
    case Greater => x > y
  }

  /** TIMESPEC_CMP, with the operator it is given. */
  predicate TimespecCmp(a: Timespec, b: Timespec, op: Comparison) {
    if a.sec == b.sec then Compares(a.nsec, b.nsec, op) else Compares(a.sec, b.sec, op)
  }

  /** On normal times the comparison is that of the instants, for every operator. */
  lemma CmpComparesInstants(a: Timespec, b: Timespec, op: Comparison)
    requires a.Normal() && b.Normal()
    ensures TimespecCmp(a, b, op) <==> Compares(a.Nanoseconds(), b.Nanoseconds(), op)
  {
    var d := a.sec - b.sec;
    assert a.Nanoseconds() - b.Nanoseconds() == d * 1_000_000_000 + (a.nsec - b.nsec);
  }

  class TimespecVar {
    var sec: int
    var nsec: int

    constructor (t: Timespec)
      ensures Value() == t
    {
      sec, nsec := t.sec, t.nsec;
    }

    function Value(): Timespec
      reads this
    {
      Timespec(sec, nsec)
    }
  }

  /** The difference, with a second borrowed when the nanoseconds run below zero. */
  function Difference(a: Timespec, b: Timespec): Timespec {
    if a.nsec < b.nsec then Timespec(a.sec - b.sec - 1, a.nsec - b.nsec + 1_000_000_000)
    else Timespec(a.sec - b.sec, a.nsec - b.nsec)
  }

  /** Of normal times it is normal, exact, and negative exactly when the first is earlier. */
  lemma DifferenceIsExact(a: Timespec, b: Timespec)
    requires a.Normal() && b.Normal()
    ensures Difference(a, b).Normal()
    ensures Difference(a, b).Nanoseconds() == a.Nanoseconds() - b.Nanoseconds()
    ensures Difference(a, b).sec < 0 <==> TimespecCmp(a, b, Less)
  {
  }

  /** TIMESPEC_SUB. The result may be either operand, or both. */
  method TimespecSub(a: TimespecVar, b: TimespecVar, result: TimespecVar)
    modifies result
    ensures result.Value() == old(Difference(a.Value(), b.Value()))
  {
    result.sec := a.sec - b.sec;
    result.nsec := a.nsec - b.nsec;
    if result.nsec < 0 {
      result.sec := result.sec - 1;
      result.nsec := result.nsec + 1_000_000_000;
    }
  }
}
