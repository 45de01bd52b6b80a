/**
 Programs of calls on a set of BigInteger variables, with any operands aliased in any
 way: every run computes what the same run on integers computes, and keeps sign zero
 exactly for magnitude zero.
 */
module SignedRuns {
  import opened Exceptions
  import opened Powers
  import opened Blocks
  import opened BigUnsigneds
  import opened BigIntegers

  datatype Call =
    | Set(dst: nat, x: Blk, s: Sign)
    | Copy(dst: nat, a: nat)
    | Negate(dst: nat, a: nat)
    | Add(dst: nat, a: nat, b: nat)
    | Subtract(dst: nat, a: nat, b: nat)
    | Multiply(dst: nat, a: nat, b: nat)
    | Divide(dst: nat, q: nat, b: nat)
    | Increment(dst: nat)
    | Decrement(dst: nat)
  {
    /** All variables named are among the n there are. */
    predicate Names(n: nat) {
      && dst < n
      && (Copy? || Negate? || Add? || Subtract? || Multiply? ==> a < n)
      && (Add? || Subtract? || Multiply? || Divide? ==> b < n)
      && (Divide? ==> q < n)
    }
  }

  /** How a call ends on integers, and the integers afterwards. */
  datatype Outcome = Ends(status: Status, nums: seq<int>)

  /** The quotient of floor division. */
  function FloorDiv(x: int, y: int): int
    requires y != 0
  {
    if y > 0 then x / y else (-x) / (-y)
  }

  /** Quotient in q and remainder in d; a zero divisor leaves the dividend and makes the quotient zero. */
  function Divided(nums: seq<int>, d: nat, q: nat, b: nat): seq<int>
    requires d < |nums| && q < |nums| && b < |nums|
  {
    if nums[b] == 0 then nums[q := 0]
    else nums[q := FloorDiv(nums[d], nums[b])][d := FloorMod(nums[d], nums[b])]
  }

  function CallOnIntegers(nums: seq<int>, c: Call): (o: Outcome)
    requires c.Names(|nums|)
    ensures |o.nums| == |nums|
  {
    match c
    case Set(d, x, s) =>
      if s == Zero && x != 0 then Ends(Thrown(ZeroSignForNonzero), nums) else Ends(Done, nums[d := Signed(s, x)])
    case Copy(d, a) => Ends(Done, nums[d := nums[a]])
    case Negate(d, a) => Ends(Done, nums[d := -nums[a]])
    case Add(d, a, b) => Ends(Done, nums[d := nums[a] + nums[b]])
    case Subtract(d, a, b) => Ends(Done, nums[d := nums[a] - nums[b]])
    case Multiply(d, a, b) => Ends(Done, nums[d := nums[a] * nums[b]])
    case Divide(d, q, b) =>
      if d == q then Ends(Thrown(SameQuotientAndRemainder), nums) else Ends(Done, Divided(nums, d, q, b))
    case Increment(d) => Ends(Done, nums[d := nums[d] + 1])
    case Decrement(d) => Ends(Done, nums[d := nums[d] - 1])
  }

  /** The rest of a run whose calls so far ended with these statuses; every exception is caught. */
  function RunOnIntegers(statuses: seq<Status>, nums: seq<int>, program: seq<Call>): (seq<Status>, seq<int>)
    requires forall c :: c in program ==> c.Names(|nums|)
    decreases |program|
  {
    if |program| == 0 then (statuses, nums)
    else
      var o := CallOnIntegers(nums, program[0]);
      RunOnIntegers(statuses + [o.status], o.nums, program[1..])
  }

  // ---- the variables

  /** Every variable is valid and holds its integer; no two share an object or an array. */
  ghost predicate Holds(vars: seq<BigInteger>, nums: seq<int>)
    reads vars, set v | v in vars :: v.mag, set v | v in vars :: v.mag.blk
  {
    && |vars| == |nums|
    && (forall i :: 0 <= i < |vars| ==> vars[i].Valid() && vars[i].Int() == nums[i])
    && (forall i, j :: 0 <= i < j < |vars| ==>
          vars[i] != vars[j] && vars[i].mag != vars[j].mag && vars[i].mag.blk != vars[j].mag.blk)
  }

  /** The call ended as it does on integers, and left the same integers. */
  ghost predicate Agrees(vars: seq<BigInteger>, nums: seq<int>, c: Call, status: Status)
    requires c.Names(|nums|)
    reads vars, set v | v in vars :: v.mag, set v | v in vars :: v.mag.blk
  {
    status == CallOnIntegers(nums, c).status && Holds(vars, CallOnIntegers(nums, c).nums)
  }

  /** A sign and a block; a refused one leaves the variable as it was. */
  method CallSet(vars: seq<BigInteger>, c: Call, ghost nums: seq<int>) returns (status: Status)
    requires Holds(vars, nums) && c.Names(|vars|) && c.Set?
    modifies vars[c.dst], vars[c.dst].mag, vars[c.dst].mag.blk
    ensures vars[c.dst].mag.blk == old(vars[c.dst].mag.blk) || fresh(vars[c.dst].mag.blk)
    ensures Agrees(vars, nums, c, status)
  {
    hide Val, Weight, Value, BigUnsigned.Number, BigUnsigned.Valid, BigInteger.Int, BigInteger.Valid, Canonical;
    var x := new BigUnsigned.FromBlk(c.x);
    var r := BigInteger.FromSigned(x, c.s);
    if r.Err? {
      return Thrown(r.error);
    }
    vars[c.dst].Assign(r.value);
    return Done;
  }

  /** The variable may be its own operand. */
  method CallOnOne(vars: seq<BigInteger>, c: Call, ghost nums: seq<int>) returns (status: Status)
    requires Holds(vars, nums) && c.Names(|vars|) && (c.Copy? || c.Negate?)
    modifies vars[c.dst], vars[c.dst].mag, vars[c.dst].mag.blk
    ensures vars[c.dst].mag.blk == old(vars[c.dst].mag.blk) || fresh(vars[c.dst].mag.blk)
    ensures Agrees(vars, nums, c, status)
  {
    hide Val, Weight, Value, BigUnsigned.Number, BigUnsigned.Valid, Canonical, Signed, BigInteger.Int, BigInteger.Valid;
    if c.Copy? {
      vars[c.dst].Assign(vars[c.a]);
    } else {
      vars[c.dst].Negate(vars[c.a]);
    }
    return Done;
  }

  method CallAdd(vars: seq<BigInteger>, c: Call, ghost nums: seq<int>) returns (status: Status)
    requires Holds(vars, nums) && c.Names(|vars|) && c.Add?
    modifies vars[c.dst], vars[c.dst].mag, vars[c.dst].mag.blk
    ensures vars[c.dst].mag.blk == old(vars[c.dst].mag.blk) || fresh(vars[c.dst].mag.blk)
    ensures Agrees(vars, nums, c, status)
  {
    hide Val, Weight, Value, BigUnsigned.Number, BigUnsigned.Valid, Canonical, Signed, BigInteger.Int, BigInteger.Valid;
    vars[c.dst].Add(vars[c.a], vars[c.b]);
    return Done;
  }

  method CallSubtract(vars: seq<BigInteger>, c: Call, ghost nums: seq<int>) returns (status: Status)
    requires Holds(vars, nums) && c.Names(|vars|) && c.Subtract?
    modifies vars[c.dst], vars[c.dst].mag, vars[c.dst].mag.blk
    ensures vars[c.dst].mag.blk == old(vars[c.dst].mag.blk) || fresh(vars[c.dst].mag.blk)
    ensures Agrees(vars, nums, c, status)
  {
    hide Val, Weight, Value, BigUnsigned.Number, BigUnsigned.Valid, Canonical, Signed, BigInteger.Int, BigInteger.Valid;
    vars[c.dst].Subtract(vars[c.a], vars[c.b]);
    return Done;
  }

  method CallMultiply(vars: seq<BigInteger>, c: Call, ghost nums: seq<int>) returns (status: Status)
    requires Holds(vars, nums) && c.Names(|vars|) && c.Multiply?
    modifies vars[c.dst], vars[c.dst].mag, vars[c.dst].mag.blk
    ensures vars[c.dst].mag.blk == old(vars[c.dst].mag.blk) || fresh(vars[c.dst].mag.blk)
    ensures Agrees(vars, nums, c, status)
  {
    hide Val, Weight, Value, BigUnsigned.Number, BigUnsigned.Valid, Canonical, Signed, BigInteger.Int, BigInteger.Valid;
    vars[c.dst].Multiply(vars[c.a], vars[c.b]);
    return Done;
  }

  /** One up or one down. */
  method CallStep(vars: seq<BigInteger>, c: Call, ghost nums: seq<int>) returns (status: Status)
    requires Holds(vars, nums) && c.Names(|vars|) && (c.Increment? || c.Decrement?)
    modifies vars[c.dst], vars[c.dst].mag, vars[c.dst].mag.blk
    ensures vars[c.dst].mag.blk == old(vars[c.dst].mag.blk) || fresh(vars[c.dst].mag.blk)
    ensures Agrees(vars, nums, c, status)
  {
    hide Val, Weight, Value, BigUnsigned.Number, BigUnsigned.Valid, Canonical, Signed, BigInteger.Int, BigInteger.Valid;
    if c.Increment? {
      vars[c.dst].Increment();
    } else {
      vars[c.dst].Decrement();
    }
    return Done;
  }

  /** The divisor may be the dividend or the quotient. */
  method CallDivide(vars: seq<BigInteger>, c: Call, ghost nums: seq<int>) returns (status: Status)
    requires Holds(vars, nums) && c.Names(|vars|) && c.Divide?
    modifies vars[c.dst], vars[c.dst].mag, vars[c.dst].mag.blk
    modifies vars[c.q], vars[c.q].mag, vars[c.q].mag.blk
    ensures vars[c.dst].mag.blk == old(vars[c.dst].mag.blk) || fresh(vars[c.dst].mag.blk)
    ensures vars[c.q].mag.blk == old(vars[c.q].mag.blk) || fresh(vars[c.q].mag.blk)
    ensures Agrees(vars, nums, c, status)
  {
    hide Val, Weight, Value, BigUnsigned.Number, BigUnsigned.Valid, Canonical;
    hide Signed, BigInteger.Int, BigInteger.Valid, Divided;
    if c.dst == c.q {
      status := vars[c.dst].DivideWithRemainder(vars[c.b], vars[c.q]);
    } else {
      DivideVariable(vars, c.dst, c.q, c.b, nums);
      status := Done;
    }
  }

  /** Quotient and remainder in different variables; the divisor may be either. */
  method DivideVariable(vars: seq<BigInteger>, dst: nat, q: nat, b: nat, ghost nums: seq<int>)
    requires Holds(vars, nums) && dst < |vars| && q < |vars| && b < |vars| && dst != q
    modifies vars[dst], vars[dst].mag, vars[dst].mag.blk, vars[q], vars[q].mag, vars[q].mag.blk
    ensures vars[dst].mag.blk == old(vars[dst].mag.blk) || fresh(vars[dst].mag.blk)
    ensures vars[q].mag.blk == old(vars[q].mag.blk) || fresh(vars[q].mag.blk)
    ensures Holds(vars, Divided(nums, dst, q, b))
  {
    hide Val, Weight, Value, BigUnsigned.Number, BigUnsigned.Valid, Canonical;
    hide Signed, BigInteger.Int, BigInteger.Valid, Divided, FloorDivision;
    var _ := vars[dst].DivideWithRemainder(vars[b], vars[q]);
    DividedByEquation(nums, dst, q, b, vars[q].Int(), vars[dst].Int());
  }

  lemma DividedByEquation(nums: seq<int>, d: nat, q: nat, b: nat, k: int, r: int)
    requires d < |nums| && q < |nums| && b < |nums| && d != q
    requires FloorDivision(nums[d], nums[b], k, r)
    ensures Divided(nums, d, q, b) == nums[q := k][d := r]
  {
    if nums[b] == 0 {
      assert nums[b] * k == 0;
    } else {
      FloorModIsRemainder(nums[d], nums[b], k, r);
      FloorDivIsQuotient(nums[d], nums[b], k, r);
    }
  }

  lemma FloorDivIsQuotient(x: int, y: int, q: int, r: int)
    requires y != 0 && FloorDivision(x, y, q, r)
    ensures q == FloorDiv(x, y)
  {
    if y > 0 {
      DivisionUnique(x, y, q, r);
    } else {
      assert -x == q * -y + -r;
      DivisionUnique(-x, -y, q, -r);
    }
  }

  method Perform(vars: seq<BigInteger>, c: Call, ghost nums: seq<int>) returns (status: Status)
    requires Holds(vars, nums) && c.Names(|vars|)
    modifies vars, set v | v in vars :: v.mag, set v | v in vars :: v.mag.blk
    ensures forall v :: v in vars ==> v.mag.blk == old(v.mag.blk) || fresh(v.mag.blk)
    ensures Agrees(vars, nums, c, status)
  {
    hide Val, Weight, Value, BigUnsigned.Number, BigUnsigned.Valid, Canonical;
    hide Signed, BigInteger.Int, BigInteger.Valid, Agrees;
    match c {
      case Set(_, _, _) => status := CallSet(vars, c, nums);
      case Add(_, _, _) => status := CallAdd(vars, c, nums);
      case Subtract(_, _, _) => status := CallSubtract(vars, c, nums);
      case Multiply(_, _, _) => status := CallMultiply(vars, c, nums);
      case Divide(_, _, _) => status := CallDivide(vars, c, nums);
      case Copy(_, _) => status := CallOnOne(vars, c, nums);
      case Negate(_, _) => status := CallOnOne(vars, c, nums);
      case _ => status := CallStep(vars, c, nums);
    }
  }

  /**
   Any program on any variables, every exception caught: the calls return and throw what
   they do in the same run on integers, and the objects end holding its integers, valid
   throughout.
   */
  method Run(vars: seq<BigInteger>, program: seq<Call>, ghost nums0: seq<int>) returns (statuses: seq<Status>)
    requires Holds(vars, nums0) && forall c :: c in program ==> c.Names(|vars|)
    modifies vars, set v | v in vars :: v.mag, set v | v in vars :: v.mag.blk
    ensures RunOnIntegers([], nums0, program).0 == statuses
    ensures Holds(vars, RunOnIntegers([], nums0, program).1)
  {
    hide Val, Weight, Value, BigUnsigned.Number, BigUnsigned.Valid, Canonical;
    hide Signed, BigInteger.Int, BigInteger.Valid, Holds;
    ghost var nums := nums0;
    statuses := [];
    HoldsMany(vars, nums);
    for i := 0 to |program|
      invariant Holds(vars, nums) && |nums| == |vars|
      invariant forall v :: v in vars ==> v.mag.blk == old(v.mag.blk) || fresh(v.mag.blk)
      invariant RunOnIntegers(statuses, nums, program[i..]) == RunOnIntegers([], nums0, program)
    {
      assert program[i..][0] == program[i] && program[i..][1..] == program[i + 1..];
      assert program[i] in program;
      var status := Perform(vars, program[i], nums);
      nums := CallOnIntegers(nums, program[i]).nums;
      statuses := statuses + [status];
    }
  }

  lemma HoldsMany(vars: seq<BigInteger>, nums: seq<int>)
    requires Holds(vars, nums)
    ensures |vars| == |nums|
  {
  }

  function Zeros(n: nat): seq<int> {
    seq(n, _ => 0)
  }

  /** A whole run, from the construction of its n variables. */
  method RunFromStart(n: nat, program: seq<Call>) returns (vars: seq<BigInteger>, statuses: seq<Status>)
    requires forall c :: c in program ==> c.Names(n)
    ensures RunOnIntegers([], Zeros(n), program).0 == statuses
    ensures Holds(vars, RunOnIntegers([], Zeros(n), program).1)
  {
    hide Val, Weight, Value, BigUnsigned.Number, BigUnsigned.Valid, Canonical;
    hide Signed, BigInteger.Int, BigInteger.Valid, RunOnIntegers;
    vars := [];
    for i := 0 to n
      invariant Holds(vars, Zeros(i))
      invariant forall v :: v in vars ==> fresh(v) && fresh(v.mag) && fresh(v.mag.blk)
    {
      var v := new BigInteger();
      vars := vars + [v];
    }
    statuses := Run(vars, program, Zeros(n));
  }
}
