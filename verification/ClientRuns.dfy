/**
 Programs of calls on a set of BigUnsigned variables, with any operands aliased in any
 way: every run computes what the same run on plain numbers computes.
 */
module ClientRuns {
  import opened Exceptions
  import opened Powers
  import opened Blocks
  import opened ShiftAmounts
  import opened NumberBits
  import opened BigUnsigneds

  datatype Call =
    | Set(dst: nat, x: Blk)
    | Copy(dst: nat, src: nat)
    | Add(dst: nat, a: nat, b: nat)
    | Subtract(dst: nat, a: nat, b: nat)
    | Multiply(dst: nat, a: nat, b: nat)
    | Divide(dst: nat, q: nat, b: nat)
    | ShiftLeft(dst: nat, a: nat, amount: Int32)
    | ShiftRight(dst: nat, a: nat, amount: Int32)
    | Increment(dst: nat)
    | Decrement(dst: nat)
    | SetBit(dst: nat, bi: nat, bit: bool)
  {
    /** All variables named are among the n there are. */
    predicate Names(n: nat) {
      && dst < n
      && (Copy? ==> src < n)
      && (Add? || Subtract? || Multiply? ==> a < n && b < n)
      && (ShiftLeft? || ShiftRight? ==> a < n)
      && (Divide? ==> q < n && b < n)
    }
  }

  /**
   How a call or a run ends on plain numbers: what each call returned or threw, and the
   numbers afterwards, thrown or not.  A shift that leaves leading zeros ends a run.
   */
  datatype Outcome = Ends(statuses: seq<Status>, nums: seq<nat>) | LeadingZeros

  function Returns(nums: seq<nat>): Outcome {
    Ends([Done], nums)
  }

  function Throws(error: Error, nums: seq<nat>): Outcome {
    Ends([Thrown(error)], nums)
  }

  function ShiftOutcome(nums: seq<nat>, dst: nat, v: nat, amount: int): Outcome
    requires dst < |nums|
  {
    if v == 0 && amount >= N then LeadingZeros else Returns(nums[dst := ShiftNumber(v, amount)])
  }

  /** Quotient in q and remainder in d; a zero divisor leaves the dividend and makes the quotient zero. */
  function Divided(nums: seq<nat>, d: nat, q: nat, b: nat): seq<nat>
    requires d < |nums| && q < |nums| && b < |nums|
  {
    if nums[b] == 0 then nums[q := 0]
    else QuotientBound(nums[d], nums[b]); nums[q := nums[d] / nums[b]][d := nums[d] % nums[b]]
  }

  /** A difference; a negative one throws, and leaves zero unless the receiver is an operand or a is shorter. */
  function Subtracted(nums: seq<nat>, d: nat, a: nat, b: nat): Outcome
    requires d < |nums| && a < |nums| && b < |nums|
  {
    if nums[b] <= nums[a] then Returns(nums[d := nums[a] - nums[b]])
    else if d == a || d == b || BlockCount(nums[a]) < BlockCount(nums[b]) then Throws(NegativeResult, nums)
    else Throws(NegativeResult, nums[d := 0])
  }

  function CallOnNumbers(nums: seq<nat>, c: Call): (o: Outcome)
    requires c.Names(|nums|)
    ensures o.Ends? ==> |o.nums| == |nums| && |o.statuses| == 1
  {
    match c
    case Set(d, x) => Returns(nums[d := x])
    case Copy(d, s) => Returns(nums[d := nums[s]])
    case Add(d, a, b) => Returns(nums[d := nums[a] + nums[b]])
    case Subtract(d, a, b) => Subtracted(nums, d, a, b)
    case Multiply(d, a, b) => MulNonNegative(nums[a], nums[b]); Returns(nums[d := nums[a] * nums[b]])
    case Divide(d, q, b) =>
      if d == q then Throws(SameQuotientAndRemainder, nums) else Returns(Divided(nums, d, q, b))
    case ShiftLeft(d, a, k) =>
      if k == -0x8000_0000 then Throws(PathologicalShift, nums) else ShiftOutcome(nums, d, nums[a], k)
    case ShiftRight(d, a, k) =>
      if k == -0x8000_0000 then Throws(PathologicalShift, nums) else ShiftOutcome(nums, d, nums[a], -k)
    case Increment(d) => Returns(nums[d := nums[d] + 1])
    case Decrement(d) => if nums[d] == 0 then Throws(DecrementOfZero, nums) else Returns(nums[d := nums[d] - 1])
    case SetBit(d, bi, bit) => Returns(nums[d := WithBit(nums[d], bi, bit)])
  }

  /** The rest of a run whose calls so far ended with these statuses; every exception is caught. */
  function RunOnNumbers(statuses: seq<Status>, nums: seq<nat>, program: seq<Call>): Outcome
    requires forall c :: c in program ==> c.Names(|nums|)
    decreases |program|
  {
    if |program| == 0 then Ends(statuses, nums)
    else match CallOnNumbers(nums, program[0])
      case Ends(last, nums') => RunOnNumbers(statuses + last, nums', program[1..])
      case LeadingZeros => LeadingZeros
  }

  // ---- the variables

  /** Every variable is in canonical form and holds its number; no two share an object or an array. */
  ghost predicate Holds(vars: seq<BigUnsigned>, nums: seq<nat>)
    reads vars, set v | v in vars :: v.blk
  {
    && |vars| == |nums|
    && (forall i :: 0 <= i < |vars| ==> vars[i].Valid() && vars[i].Number() == nums[i])
    && (forall i, j :: 0 <= i < j < |vars| ==> vars[i] != vars[j] && vars[i].blk != vars[j].blk)
  }

  /** The call ended as it does on numbers, and left the same numbers. */
  ghost predicate Agrees(vars: seq<BigUnsigned>, nums: seq<nat>, c: Call, status: Status)
    requires c.Names(|nums|)
    reads vars, set v | v in vars :: v.blk
  {
    match CallOnNumbers(nums, c)
    case Ends(statuses, nums') => [status] == statuses && Holds(vars, nums')
    case LeadingZeros => true
  }

  /** Any of the three variables may be the same. */
  method CallAdd(vars: seq<BigUnsigned>, c: Call, ghost nums: seq<nat>) returns (status: Status)
    requires Holds(vars, nums) && c.Names(|vars|) && c.Add?
    modifies vars[c.dst], vars[c.dst].blk
    ensures vars[c.dst].blk == old(vars[c.dst].blk) || fresh(vars[c.dst].blk)
    ensures Agrees(vars, nums, c, status)
  {
    hide Val, Weight, Value, BigUnsigned.Number, BigUnsigned.Valid, Canonical;
    status := Done;
    vars[c.dst].Add(vars[c.a], vars[c.b]);
  }

  /** A negative result leaves the receiver as it was or zero. */
  method CallSubtract(vars: seq<BigUnsigned>, c: Call, ghost nums: seq<nat>) returns (status: Status)
    requires Holds(vars, nums) && c.Names(|vars|) && c.Subtract?
    modifies vars[c.dst], vars[c.dst].blk
    ensures vars[c.dst].blk == old(vars[c.dst].blk) || fresh(vars[c.dst].blk)
    ensures Agrees(vars, nums, c, status)
  {
    hide Val, Weight, Value, BigUnsigned.Number, BigUnsigned.Valid, Canonical;
    LengthIsBlockCount(vars[c.a]);
    LengthIsBlockCount(vars[c.b]);
    status := vars[c.dst].Subtract(vars[c.a], vars[c.b]);
    NoBlocksIsZero(vars[c.dst]);
  }

  lemma LengthIsBlockCount(v: BigUnsigned)
    requires v.Valid()
    ensures v.len == BlockCount(v.Number())
  {
    CanonicalLength(v.blk[..v.len]);
  }

  lemma NoBlocksIsZero(v: BigUnsigned)
    requires v.Wf()
    ensures v.len == 0 ==> v.Valid() && v.Number() == 0
  {
  }

  /** ... squaring in place included. */
  method CallMultiply(vars: seq<BigUnsigned>, c: Call, ghost nums: seq<nat>) returns (status: Status)
    requires Holds(vars, nums) && c.Names(|vars|) && c.Multiply?
    modifies vars[c.dst], vars[c.dst].blk
    ensures vars[c.dst].blk == old(vars[c.dst].blk) || fresh(vars[c.dst].blk)
    ensures Agrees(vars, nums, c, status)
  {
    hide Val, Weight, Value, BigUnsigned.Number, BigUnsigned.Valid, Canonical;
    status := Done;
    vars[c.dst].Multiply(vars[c.a], vars[c.b]);
  }

  /** The divisor may be the dividend or the quotient. */
  method CallDivide(vars: seq<BigUnsigned>, c: Call, ghost nums: seq<nat>) returns (status: Status)
    requires Holds(vars, nums) && c.Names(|vars|) && c.Divide?
    modifies vars[c.dst], vars[c.dst].blk, vars[c.q], vars[c.q].blk
    ensures vars[c.dst].blk == old(vars[c.dst].blk) || fresh(vars[c.dst].blk)
    ensures vars[c.q].blk == old(vars[c.q].blk) || fresh(vars[c.q].blk)
    ensures Agrees(vars, nums, c, status)
  {
    hide Val, Weight, Value, BigUnsigned.Number, BigUnsigned.Valid, Canonical;
    if c.dst == c.q {
      status := vars[c.dst].DivideWithRemainder(vars[c.b], vars[c.q]);
    } else {
      status := Done;
      DivideVariable(vars, c.dst, c.q, c.b, nums);
    }
  }

  /** Quotient and remainder in different variables; the divisor may be either. */
  method DivideVariable(vars: seq<BigUnsigned>, dst: nat, q: nat, b: nat, ghost nums: seq<nat>)
    requires Holds(vars, nums) && dst < |vars| && q < |vars| && b < |vars| && dst != q
    modifies vars[dst], vars[dst].blk, vars[q], vars[q].blk
    ensures vars[dst].blk == old(vars[dst].blk) || fresh(vars[dst].blk)
    ensures vars[q].blk == old(vars[q].blk) || fresh(vars[q].blk)
    ensures Holds(vars, Divided(nums, dst, q, b))
  {
    hide Val, Weight, Value, BigUnsigned.Number, BigUnsigned.Valid, Canonical, Divided;
    var _ := vars[dst].DivideWithRemainder(vars[b], vars[q]);
    DividedByEquation(nums, dst, q, b, vars[q].Number(), vars[dst].Number());
  }

  lemma DividedByEquation(nums: seq<nat>, d: nat, q: nat, b: nat, k: nat, r: nat)
    requires d < |nums| && q < |nums| && b < |nums| && d != q
    requires nums[d] == k * nums[b] + r && (if nums[b] == 0 then k == 0 else r < nums[b])
    ensures Divided(nums, d, q, b) == nums[q := k][d := r]
  {
    if nums[b] == 0 {
      assert k * nums[b] == 0;
    } else {
      DivisionUnique(nums[d], nums[b], k, r);
    }
  }

  /** In place or not, in either direction. */
  method CallShiftLeft(vars: seq<BigUnsigned>, c: Call, ghost nums: seq<nat>) returns (status: Status)
    requires Holds(vars, nums) && c.Names(|vars|) && c.ShiftLeft? && !CallOnNumbers(nums, c).LeadingZeros?
    modifies vars[c.dst], vars[c.dst].blk
    ensures vars[c.dst].blk == old(vars[c.dst].blk) || fresh(vars[c.dst].blk)
    ensures Agrees(vars, nums, c, status)
  {
    hide Val, Weight, Value, BigUnsigned.Number, BigUnsigned.Valid, Canonical, ShiftNumber;
    status := vars[c.dst].BitShiftLeft(vars[c.a], c.amount);
  }

  method CallShiftRight(vars: seq<BigUnsigned>, c: Call, ghost nums: seq<nat>) returns (status: Status)
    requires Holds(vars, nums) && c.Names(|vars|) && c.ShiftRight? && !CallOnNumbers(nums, c).LeadingZeros?
    modifies vars[c.dst], vars[c.dst].blk
    ensures vars[c.dst].blk == old(vars[c.dst].blk) || fresh(vars[c.dst].blk)
    ensures Agrees(vars, nums, c, status)
  {
    hide Val, Weight, Value, BigUnsigned.Number, BigUnsigned.Valid, Canonical, ShiftNumber;
    status := vars[c.dst].BitShiftRight(vars[c.a], c.amount);
  }

  /** Assignment of a block or of a variable, itself included. */
  method CallAssign(vars: seq<BigUnsigned>, c: Call, ghost nums: seq<nat>) returns (status: Status)
    requires Holds(vars, nums) && c.Names(|vars|) && (c.Set? || c.Copy?)
    modifies vars[c.dst], vars[c.dst].blk
    ensures vars[c.dst].blk == old(vars[c.dst].blk) || fresh(vars[c.dst].blk)
    ensures Agrees(vars, nums, c, status)
  {
    hide Val, Weight, Value, BigUnsigned.Number, Canonical;
    status := Done;
    match c {
      case Set(d, x) => vars[d].AssignBlk(x);
      case Copy(d, src) => vars[d].Assign(vars[src]);
    }
  }

  /** One up or one down. */
  method CallStep(vars: seq<BigUnsigned>, c: Call, ghost nums: seq<nat>) returns (status: Status)
    requires Holds(vars, nums) && c.Names(|vars|) && (c.Increment? || c.Decrement?)
    modifies vars[c.dst], vars[c.dst].blk
    ensures vars[c.dst].blk == old(vars[c.dst].blk) || fresh(vars[c.dst].blk)
    ensures Agrees(vars, nums, c, status)
  {
    hide Val, Weight, Value, BigUnsigned.Number, BigUnsigned.Valid, Canonical;
    status := Done;
    match c {
      case Increment(d) => vars[d].Increment();
      case Decrement(d) => status := vars[d].Decrement();
    }
  }

  /** One bit. */
  method CallSetBit(vars: seq<BigUnsigned>, c: Call, ghost nums: seq<nat>) returns (status: Status)
    requires Holds(vars, nums) && c.Names(|vars|) && c.SetBit?
    modifies vars[c.dst], vars[c.dst].blk
    ensures vars[c.dst].blk == old(vars[c.dst].blk) || fresh(vars[c.dst].blk)
    ensures Agrees(vars, nums, c, status)
  {
    hide Val, Weight, Value, BigUnsigned.Number, BigUnsigned.Valid, Canonical;
    status := Done;
    vars[c.dst].SetBit(c.bi, c.bit);
  }

  method Perform(vars: seq<BigUnsigned>, c: Call, ghost nums: seq<nat>) returns (status: Status)
    requires Holds(vars, nums) && c.Names(|vars|) && !CallOnNumbers(nums, c).LeadingZeros?
    modifies vars, set v | v in vars :: v.blk
    ensures forall v :: v in vars ==> v.blk == old(v.blk) || fresh(v.blk)
    ensures Agrees(vars, nums, c, status)
  {
    hide Val, Weight, Value, BigUnsigned.Number, BigUnsigned.Valid, Canonical, Agrees;
    match c {
      case Add(_, _, _) => status := CallAdd(vars, c, nums);
      case Subtract(_, _, _) => status := CallSubtract(vars, c, nums);
      case Multiply(_, _, _) => status := CallMultiply(vars, c, nums);
      case Divide(_, _, _) => status := CallDivide(vars, c, nums);
      case ShiftLeft(_, _, _) => status := CallShiftLeft(vars, c, nums);
      case ShiftRight(_, _, _) => status := CallShiftRight(vars, c, nums);
      case Set(_, _) => status := CallAssign(vars, c, nums);
      case Copy(_, _) => status := CallAssign(vars, c, nums);
      case SetBit(_, _, _) => status := CallSetBit(vars, c, nums);
      case _ => status := CallStep(vars, c, nums);
    }
  }

  /**
   Any program on any variables, every exception caught: the calls return and throw what
   they do in the same run on numbers, and the objects end holding its numbers, in
   canonical form throughout.
   */
  method Run(vars: seq<BigUnsigned>, program: seq<Call>, ghost nums0: seq<nat>) returns (statuses: seq<Status>)
    requires Holds(vars, nums0) && forall c :: c in program ==> c.Names(|vars|)
    requires !RunOnNumbers([], nums0, program).LeadingZeros?
    modifies vars, set v | v in vars :: v.blk
    ensures RunOnNumbers([], nums0, program).statuses == statuses
    ensures Holds(vars, RunOnNumbers([], nums0, program).nums)
  {
    hide Val, Weight, Value, BigUnsigned.Number, BigUnsigned.Valid, Canonical, Holds;
    ghost var nums := nums0;
    statuses := [];
    HoldsMany(vars, nums);
    for i := 0 to |program|
      invariant Holds(vars, nums) && |nums| == |vars|
      invariant forall v :: v in vars ==> v.blk == old(v.blk) || fresh(v.blk)
      invariant RunOnNumbers(statuses, nums, program[i..]) == RunOnNumbers([], nums0, program)
    {
      assert program[i..][0] == program[i] && program[i..][1..] == program[i + 1..];
      assert program[i] in program;
      var status := Perform(vars, program[i], nums);
      nums := CallOnNumbers(nums, program[i]).nums;
      statuses := statuses + [status];
    }
  }

  lemma HoldsMany(vars: seq<BigUnsigned>, nums: seq<nat>)
    requires Holds(vars, nums)
    ensures |vars| == |nums|
  {
  }

  function Zeros(n: nat): seq<nat> {
    seq(n, _ => 0)
  }

  /** A whole run, from the construction of its n variables. */
  method RunFromStart(n: nat, program: seq<Call>) returns (vars: seq<BigUnsigned>, statuses: seq<Status>)
    requires forall c :: c in program ==> c.Names(n)
    requires !RunOnNumbers([], Zeros(n), program).LeadingZeros?
    ensures Ends(statuses, RunOnNumbers([], Zeros(n), program).nums) == RunOnNumbers([], Zeros(n), program)
    ensures Holds(vars, RunOnNumbers([], Zeros(n), program).nums)
  {
    hide Val, Weight, Value, BigUnsigned.Number, BigUnsigned.Valid, Canonical, RunOnNumbers;
    vars := [];
    for i := 0 to n
      invariant Holds(vars, Zeros(i))
      invariant forall v :: v in vars ==> fresh(v) && fresh(v.blk)
    {
      var v := new BigUnsigned();
      vars := vars + [v];
    }
    statuses := Run(vars, program, Zeros(n));
  }
}
