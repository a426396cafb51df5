/** What a measured frame is worth: a machine that executes the listing, probe
    loops included, and the condition on a listing under which the charge covers
    the real drop of SP. */
module PrologueMachine {
  import opened Wrappers
  import opened FrameBudget

  // ----- the machine

  /** `ne` is the condition flag that `b.ne` reads. */
  datatype Machine = Machine(pc: nat, sp: int, x9: int, ne: bool)

  function Below(base: int, o: Operand, v: int): int {
    if o.Imm? then base - Value(o) else v
  }

  function Rounded(x: int): int { x - x % 64 }

  /** `v` is what the instruction takes from outside the two registers. A callee gives SP back. */
  function Exec(m: Machine, i: Instr, v: int): Machine {
    var next := m.(pc := m.pc + 1);
    match i
    case PushSp(amt) => next.(sp := Below(m.sp, amt, v))
    case SubSp(amt) => next.(sp := Below(m.sp, amt, v))
    case SubX9Sp(amt) => next.(x9 := Below(m.sp, amt, v))
    case SubX9X9(amt) => next.(x9 := Below(m.x9, amt, v))
    case CmpSpX9 => next.(ne := m.sp != m.x9)
    case AndSp(fromX9, to64) => next.(sp := if !to64 then v else Rounded(if fromX9 then m.x9 else v))
    case LoopNe(back) => if m.ne && back <= m.pc then m.(pc := m.pc - back) else next
    case RaiseSp(amount) => next.(sp := m.sp + amount)
    case SetSp => next.(sp := v)
    case SetX9 => next.(x9 := v)
    case Call => next
    case Other => next.(ne := v != 0)
  }

  /** A run from the function's first instruction, stopped anywhere. */
  ghost predicate Execution(code: seq<Instr>, ms: seq<Machine>, vs: seq<int>) {
    && |ms| == |vs| + 1 && ms[0].pc == 0
    && forall k :: 0 <= k < |vs| ==> ms[k].pc < |code| && ms[k + 1] == Exec(ms[k], code[ms[k].pc], vs[k])
  }

  // ----- the listing

  /** x9 holds an address that has been charged. */
  predicate Target(code: seq<Instr>, k: nat)
    requires k <= |code|
  {
    k > 0 && (code[k - 1].SubX9Sp? ||
              (Target(code, k - 1) && !code[k - 1].SetX9? && (code[k - 1].SubX9X9? ==> Window(code, k - 1))))
  }

  function Targets(code: seq<Instr>, k: nat): nat
    requires k <= |code|
  {
    if k == 0 then 0 else Targets(code, k - 1) + if code[k - 1].SubX9Sp? then 1 else 0
  }

  lemma {:induction false} ChargeGrows(code: seq<Instr>, k: nat, l: nat)
    requires k <= l <= |code|
    ensures Charge(code, k) <= Charge(code, l) && Targets(code, k) <= Targets(code, l)
    decreases l
  {
    if k < l {
      ChargeGrows(code, k, l - 1);
    }
  }

  // ----- probe loops

  /** What may stand between an x9 target and the end of its window. */
  predicate Inner(i: Instr) {
    !i.SubX9Sp? && !Closes(i) && !i.LoopNe? && !i.Call?
  }

  predicate ClosesLoop(code: seq<Instr>, k: nat, i: nat) {
    k <= i < |code| && code[i].LoopNe? && forall j :: k <= j < i - 1 ==> Inner(code[j])
  }

  /** Instruction k stands in a window that ends in a probe loop, or is that loop's branch. */
  ghost predicate Looped(code: seq<Instr>, k: nat) {
    exists i: nat :: ClosesLoop(code, k, i)
  }

  /** A loop back into its own window that steps SP, leaves x9 alone and ends at `cmp sp, x9`. */
  predicate ProbeLoop(code: seq<Instr>, i: nat)
    requires i < |code| && code[i].LoopNe?
  {
    var back := code[i].back;
    && 1 <= back <= i && code[i - 1].CmpSpX9? && Window(code, i - back) && Target(code, i)
    && forall j :: i - back <= j < i - 1 ==> code[j].SubSp? || code[j].Other?
  }

  predicate ProbeLoops(code: seq<Instr>) {
    forall i: nat :: i < |code| && code[i].LoopNe? ==> ProbeLoop(code, i)
  }

  lemma LoopedInner(code: seq<Instr>, k: nat)
    requires k < |code| && Inner(code[k])
    ensures Looped(code, k) <==> Looped(code, k + 1)
  {
    if Looped(code, k) {
      var i: nat :| ClosesLoop(code, k, i);
      assert ClosesLoop(code, k + 1, i);
    }
    if Looped(code, k + 1) {
      var i: nat :| ClosesLoop(code, k + 1, i);
      assert ClosesLoop(code, k, i);
    }
  }

  lemma LoopedOuter(code: seq<Instr>, k: nat)
    requires ProbeLoops(code) && k < |code| && !Inner(code[k]) && Looped(code, k)
    ensures code[k].LoopNe? || (code[k].CmpSpX9? && k + 1 < |code| && code[k + 1].LoopNe?)
  {
    var i: nat :| ClosesLoop(code, k, i);
    assert ProbeLoop(code, i);
  }

  /** The body of a probe loop is free, and leaves window, target and counts as they were at its head. */
  lemma {:induction false} BodyIsFree(code: seq<Instr>, h: nat, j: nat, i: nat)
    requires h <= j < i < |code| && Window(code, h) && code[i - 1].CmpSpX9?
    requires forall k :: h <= k < i - 1 ==> code[k].SubSp? || code[k].Other?
    ensures Window(code, j) && Charge(code, j) == Charge(code, h) && Targets(code, j) == Targets(code, h)
    ensures Target(code, j) <==> Target(code, h)
    decreases j
  {
    if h < j {
      BodyIsFree(code, h, j - 1, i);
    }
  }

  lemma LoopHead(code: seq<Instr>, i: nat)
    requires ProbeLoops(code) && i < |code| && code[i].LoopNe?
    ensures ProbeLoop(code, i) && Window(code, i - 1)
    ensures var h := i - code[i].back;
            && Window(code, h) && Target(code, h) && Looped(code, h) && !code[h].LoopNe?
            && Charge(code, h) == Charge(code, i) && Targets(code, h) == Targets(code, i)
  {
    assert ProbeLoop(code, i);
    var h := i - code[i].back;
    BodyIsFree(code, h, i - 1, i);
    assert ClosesLoop(code, h, i);
  }

  /** What is looped is in a window, or is the loop's branch. */
  lemma LoopedInWindow(code: seq<Instr>, k: nat)
    requires ProbeLoops(code) && k <= |code| && Looped(code, k)
    ensures Window(code, k) || (0 < k < |code| && code[k].LoopNe? && code[k - 1].CmpSpX9?)
  {
    var i: nat :| ClosesLoop(code, k, i);
    LoopHead(code, i);
    if k < i {
      WindowBack(code, k, i - 1);
    }
  }

  lemma {:induction false} WindowBack(code: seq<Instr>, k: nat, l: nat)
    requires k <= l <= |code| && Window(code, l) && forall j :: k <= j < l ==> Inner(code[j])
    ensures Window(code, k)
    decreases l
  {
    if k < l {
      WindowBack(code, k, l - 1);
    }
  }

  // ----- the charge covers the drop

  /** SP changes that the scan does not charge stand in probe windows, and realignments start from a charged x9. */
  ghost predicate Safe(code: seq<Instr>, k: nat)
    requires k < |code|
  {
    match code[k]
    case SubSp(_) => Window(code, k) ==> Looped(code, k)
    case AndSp(fromX9, _) => if fromX9 then Target(code, k) else Looped(code, k)
    case SetSp => Looped(code, k)
    case _ => true
  }

  ghost predicate Guarded(code: seq<Instr>) {
    forall k: nat :: k < |code| ==> Safe(code, k)
  }

  /** What every state of a run keeps; `base` is SP on entry. */
  ghost predicate Covered(code: seq<Instr>, base: int, m: Machine) {
    && m.pc <= |code|
    && (Target(code, m.pc) ==> base - m.x9 <= Charge(code, m.pc) - 63)
    && (!Looped(code, m.pc) ==> base - m.sp <= Charge(code, m.pc))
    && (m.pc < |code| && code[m.pc].LoopNe? ==> (m.ne <==> m.sp != m.x9))
  }

  lemma LoopEnd(code: seq<Instr>, i: nat)
    requires ProbeLoops(code)
    ensures i < |code| && code[i].LoopNe? ==> 0 < i && code[i - 1].CmpSpX9? && Target(code, i)
  {
    assert i < |code| && code[i].LoopNe? ==> ProbeLoop(code, i);
  }

  /** Outside loops the flag says nothing: a branch stands right behind its comparison. */
  lemma NextBranch(code: seq<Instr>, k: nat)
    requires ProbeLoops(code) && k < |code| && !code[k].CmpSpX9?
    ensures k + 1 < |code| ==> !code[k + 1].LoopNe?
  {
    LoopEnd(code, k + 1);
  }

  lemma StepInner(code: seq<Instr>, base: int, m: Machine, v: int)
    requires ProbeLoops(code) && m.pc < |code| && Accepts(code, m.pc) && Safe(code, m.pc)
    requires Covered(code, base, m) && Inner(code[m.pc])
    ensures Covered(code, base, Exec(m, code[m.pc], v))
  {
    hide Looped, ProbeLoops;
    LoopedInner(code, m.pc);
    NextBranch(code, m.pc);
  }

  lemma StepOuter(code: seq<Instr>, base: int, m: Machine, v: int)
    requires ProbeLoops(code) && m.pc < |code| && Accepts(code, m.pc) && Safe(code, m.pc)
    requires Covered(code, base, m) && !Inner(code[m.pc]) && !code[m.pc].LoopNe?
    ensures Covered(code, base, Exec(m, code[m.pc], v))
  {
    var k := m.pc;
    hide Looped, ProbeLoops;
    if code[k].CmpSpX9? {
      if k + 1 < |code| && code[k + 1].LoopNe? {
        LoopedNext(code, k);
      } else if Looped(code, k) {
        LoopedOuter(code, k);
      }
    } else {
      NextBranch(code, k);
      if Looped(code, k) {
        LoopedOuter(code, k);
      }
    }
  }

  lemma LoopedNext(code: seq<Instr>, k: nat)
    requires k + 1 < |code| && code[k + 1].LoopNe?
    ensures Looped(code, k + 1)
  {
    assert ClosesLoop(code, k + 1, k + 1);
  }

  /** The loop goes back to its head, or leaves with SP at the charged target. */
  lemma StepLoop(code: seq<Instr>, base: int, m: Machine, v: int)
    requires ProbeLoops(code) && Covered(code, base, m) && m.pc < |code| && code[m.pc].LoopNe?
    ensures Covered(code, base, Exec(m, code[m.pc], v))
  {
    LoopHead(code, m.pc);
    NextBranch(code, m.pc);
    hide Looped, ProbeLoops;
  }

  lemma StepCovered(code: seq<Instr>, base: int, m: Machine, v: int)
    requires ProbeLoops(code) && AcceptsTo(code, |code|) && Guarded(code)
    requires Covered(code, base, m) && m.pc < |code|
    ensures Covered(code, base, Exec(m, code[m.pc], v))
  {
    assert Accepts(code, m.pc) && Safe(code, m.pc);
    hide Covered, Exec;
    if code[m.pc].LoopNe? {
      StepLoop(code, base, m, v);
    } else if Inner(code[m.pc]) {
      StepInner(code, base, m, v);
    } else {
      StepOuter(code, base, m, v);
    }
  }

  lemma {:induction false} RunCovered(code: seq<Instr>, ms: seq<Machine>, vs: seq<int>, k: nat)
    requires ProbeLoops(code) && AcceptsTo(code, |code|) && Guarded(code)
    requires Execution(code, ms, vs) && k < |ms|
    ensures Covered(code, ms[0].sp, ms[k])
    decreases k
  {
    if k == 0 {
      LoopEnd(code, 0);
    } else {
      RunCovered(code, ms, vs, k - 1);
      StepCovered(code, ms[0].sp, ms[k - 1], vs[k - 1]);
    }
  }

  /** Wherever a run stops outside a probe window, the charge so far covers the drop of SP. */
  ghost predicate ChargeCovers(code: seq<Instr>) {
    forall ms, vs :: Execution(code, ms, vs) ==> CoveredAt(code, ms)
  }

  ghost predicate CoveredAt(code: seq<Instr>, ms: seq<Machine>) {
    ms != [] && var m := ms[|ms| - 1];
    m.pc <= |code| && (!Looped(code, m.pc) ==> ms[0].sp - m.sp <= Charge(code, m.pc))
  }

  lemma GuardSuffices(code: seq<Instr>)
    requires ProbeLoops(code) && AcceptsTo(code, |code|) && Guarded(code)
    ensures ChargeCovers(code)
  {
    forall ms, vs | Execution(code, ms, vs) ensures CoveredAt(code, ms) {
      RunCovered(code, ms, vs, |ms| - 1);
    }
  }

  /** Inside windows SP only falls, by known amounts. */
  predicate Steady(code: seq<Instr>) {
    forall k: nat :: k < |code| && Window(code, k) ==>
      match code[k]
      case SubSp(amt) => amt.Imm?
      case RaiseSp(_) => false
      case SetSp => false
      case AndSp(fromX9, _) => fromX9
      case _ => true
  }

  lemma FallsInLoop(code: seq<Instr>, m: Machine, v: int)
    requires ProbeLoops(code) && AcceptsTo(code, |code|) && Steady(code) && m.pc < |code| && Looped(code, m.pc)
    ensures Exec(m, code[m.pc], v).sp <= m.sp
  {
    LoopedInWindow(code, m.pc);
    assert Accepts(code, m.pc);
    if !Inner(code[m.pc]) {
      LoopedOuter(code, m.pc);
    }
  }

  /** In a run that has left its loops no state was lower than the charge, those inside the loops included. */
  lemma {:induction false} PeakCovered(code: seq<Instr>, ms: seq<Machine>, vs: seq<int>, k: nat)
    requires ProbeLoops(code) && AcceptsTo(code, |code|) && Guarded(code) && Steady(code)
    requires Execution(code, ms, vs) && k < |ms| && !Looped(code, ms[|ms| - 1].pc)
    ensures ms[0].sp - ms[k].sp <= Charge(code, |code|)
    decreases |ms| - k
  {
    hide ProbeLoops, AcceptsTo, Guarded, Steady, Looped;
    RunCovered(code, ms, vs, k);
    if Looped(code, ms[k].pc) {
      assert ms[k + 1] == Exec(ms[k], code[ms[k].pc], vs[k]);
      FallsInLoop(code, ms[k], vs[k]);
      PeakCovered(code, ms, vs, k + 1);
    } else {
      ChargeGrows(code, ms[k].pc, |code|);
    }
  }

  // ----- and by little

  /** Every x9 target is used up by its own loop or realignment, and SP is not raised. */
  ghost predicate Snug(code: seq<Instr>, k: nat)
    requires k < |code|
  {
    match code[k]
    case PushSp(_) => !Window(code, k)
    case SubX9Sp(_) => !Window(code, k)
    case SetX9 => !Window(code, k)
    case SubSp(_) => Window(code, k) ==> Looped(code, k)
    case CmpSpX9 => Window(code, k) ==> k + 1 < |code| && code[k + 1].LoopNe?
    case AndSp(fromX9, _) => fromX9 && Window(code, k)
    case RaiseSp(_) => false
    case SetSp => false
    case _ => true
  }

  ghost predicate Tight(code: seq<Instr>) {
    !Window(code, |code|) && forall k: nat :: k < |code| ==> Snug(code, k)
  }

  lemma {:induction false} WindowHasTarget(code: seq<Instr>, k: nat)
    requires k <= |code| && forall j: nat :: j < k ==> Snug(code, j)
    ensures Window(code, k) ==> Target(code, k)
    decreases k
  {
    if k > 0 {
      assert Snug(code, k - 1);
      WindowHasTarget(code, k - 1);
    }
  }

  lemma TightIsGuarded(code: seq<Instr>)
    requires Tight(code)
    ensures Guarded(code)
  {
    forall k: nat | k < |code| ensures Safe(code, k) {
      assert Snug(code, k);
      WindowHasTarget(code, k);
    }
  }

  /** Where the charged address stands: in x9 until the loop or realignment is through, then in SP. */
  function Lowest(code: seq<Instr>, m: Machine): int
    requires m.pc <= |code|
  {
    if Window(code, m.pc) || (m.pc < |code| && code[m.pc].LoopNe?) then m.x9 else m.sp
  }

  ghost predicate Slack(code: seq<Instr>, base: int, m: Machine) {
    m.pc <= |code| && Charge(code, m.pc) <= base - Lowest(code, m) + 63 * Targets(code, m.pc)
  }

  lemma StepSlack(code: seq<Instr>, base: int, m: Machine, v: int)
    requires ProbeLoops(code) && m.pc < |code| && Accepts(code, m.pc) && Snug(code, m.pc)
    requires Covered(code, base, m) && Slack(code, base, m)
    ensures Slack(code, base, Exec(m, code[m.pc], v))
  {
    hide Looped, ProbeLoops;
    if code[m.pc].LoopNe? {
      LoopHead(code, m.pc);
      NextBranch(code, m.pc);
    } else if !code[m.pc].CmpSpX9? {
      NextBranch(code, m.pc);
    } else if m.pc + 1 < |code| && code[m.pc + 1].LoopNe? {
      LoopHead(code, m.pc + 1);
    }
  }

  lemma {:induction false} RunSlack(code: seq<Instr>, ms: seq<Machine>, vs: seq<int>, k: nat)
    requires ProbeLoops(code) && AcceptsTo(code, |code|) && Tight(code)
    requires Execution(code, ms, vs) && k < |ms|
    ensures Covered(code, ms[0].sp, ms[k]) && Slack(code, ms[0].sp, ms[k])
    decreases k
  {
    TightIsGuarded(code);
    RunCovered(code, ms, vs, k);
    if k == 0 {
      LoopEnd(code, 0);
    } else {
      RunSlack(code, ms, vs, k - 1);
      assert Accepts(code, ms[k - 1].pc) && Snug(code, ms[k - 1].pc);
      StepSlack(code, ms[0].sp, ms[k - 1], vs[k - 1]);
    }
  }

  /** Any run to the end of the prologue, with any number of loop rounds: the
      charge is at least the real drop and exceeds it by at most 63 per target. */
  lemma ChargeBoundsDrop(code: seq<Instr>, ms: seq<Machine>, vs: seq<int>)
    requires ProbeLoops(code) && AcceptsTo(code, |code|) && Tight(code)
    requires Execution(code, ms, vs) && ms[|ms| - 1].pc == |code|
    ensures var drop := ms[0].sp - ms[|ms| - 1].sp;
            drop <= Charge(code, |code|) <= drop + 63 * Targets(code, |code|)
  {
    RunSlack(code, ms, vs, |ms| - 1);
  }

  // ----- the guard is exact

  /** The instruction with its amount taken out. */
  function Bare(i: Instr): Instr {
    Scaled(i, 0)
  }

  function Scaled(i: Instr, n: nat): Instr {
    match i
    case PushSp(_) => PushSp(Imm(n, false))
    case SubSp(_) => SubSp(Imm(n, false))
    case SubX9Sp(_) => SubX9Sp(Imm(n, false))
    case SubX9X9(_) => SubX9X9(Imm(n, false))
    case RaiseSp(_) => RaiseSp(n)
    case _ => i
  }

  /** The same instructions with other amounts. */
  ghost predicate SameShape(a: seq<Instr>, b: seq<Instr>) {
    |a| == |b| && forall k :: 0 <= k < |a| ==> Bare(a[k]) == Bare(b[k])
  }

  lemma {:induction false} ShapeDecides(a: seq<Instr>, b: seq<Instr>, k: nat)
    requires SameShape(a, b) && k <= |a|
    ensures Window(a, k) == Window(b, k) && Target(a, k) == Target(b, k) && Aligned(a, k) == Aligned(b, k)
    ensures Targets(a, k) == Targets(b, k)
    decreases k
  {
    if k > 0 {
      assert Bare(a[k - 1]) == Bare(b[k - 1]);
      ShapeDecides(a, b, k - 1);
    }
  }

  lemma LoopedByShape(a: seq<Instr>, b: seq<Instr>, k: nat)
    requires SameShape(a, b) && Looped(a, k)
    ensures Looped(b, k)
  {
    var i: nat :| ClosesLoop(a, k, i);
    assert Bare(a[i]) == Bare(b[i]);
    assert forall j :: k <= j < i - 1 ==> Bare(a[j]) == Bare(b[j]) && Inner(a[j]);
    assert ClosesLoop(b, k, i);
  }

  lemma LoopsByShape(a: seq<Instr>, b: seq<Instr>)
    requires SameShape(a, b) && ProbeLoops(a)
    ensures ProbeLoops(b)
  {
    forall i: nat | i < |b| && b[i].LoopNe? ensures ProbeLoop(b, i) {
      assert Bare(a[i]) == Bare(b[i]) && ProbeLoop(a, i);
      assert Bare(a[i - 1]) == Bare(b[i - 1]);
      ShapeDecides(a, b, i - b[i].back);
      ShapeDecides(a, b, i);
      assert forall j :: i - b[i].back <= j < i - 1 ==> Bare(a[j]) == Bare(b[j]) && (a[j].SubSp? || a[j].Other?);
    }
  }

  lemma GuardByShape(a: seq<Instr>, b: seq<Instr>)
    requires SameShape(a, b) && Guarded(a)
    ensures Guarded(b)
  {
    forall k: nat | k < |b| ensures Safe(b, k) {
      assert Bare(a[k]) == Bare(b[k]) && Safe(a, k);
      ShapeDecides(a, b, k);
      if Looped(a, k) {
        LoopedByShape(a, b, k);
      }
    }
  }

  /** All amounts zero but the one at j. */
  function Inflated(code: seq<Instr>, j: nat, n: nat): (c: seq<Instr>)
    ensures |c| == |code| && forall k :: 0 <= k < |c| ==> c[k] == if k == j then Scaled(code[k], n) else Bare(code[k])
  {
    seq(|code|, k requires 0 <= k < |code| => if k == j then Scaled(code[k], n) else Bare(code[k]))
  }

  /** The scan takes no charge for instruction j. */
  predicate Free(code: seq<Instr>, j: nat)
    requires j < |code|
  {
    match code[j]
    case SubSp(_) => Window(code, j)
    case SubX9X9(_) => !Window(code, j)
    case AndSp(_, _) => true
    case SetSp => true
    case SetX9 => true
    case _ => false
  }

  lemma {:induction false} InflatedIsCheap(code: seq<Instr>, j: nat, n: nat, k: nat)
    requires AcceptsTo(code, |code|) && j < |code| && Free(code, j) && k <= |code|
    ensures var c := Inflated(code, j, n);
            SameShape(code, c) && AcceptsTo(c, k) && Charge(c, k) <= 63 * k && Charge(c, k) <= Charge(code, k)
    decreases k
  {
    if k > 0 {
      InflatedIsCheap(code, j, n, k - 1);
      ShapeDecides(code, Inflated(code, j, n), k - 1);
      assert Accepts(code, k - 1);
    }
  }

  /** The machine after k instructions, none of which branches back, from all zeros. */
  function Straight(code: seq<Instr>, vs: seq<int>, k: nat): Machine
    requires k <= |code| && k <= |vs|
  {
    if k == 0 then Machine(0, 0, 0, false) else Exec(Straight(code, vs, k - 1), code[k - 1], vs[k - 1])
  }

  ghost predicate GoesStraight(code: seq<Instr>, vs: seq<int>, k: nat) {
    k <= |code| && k <= |vs| && forall t: nat :: t <= k ==> Straight(code, vs, t).pc == t
  }

  lemma GoesOn(code: seq<Instr>, vs: seq<int>, k: nat, m: Machine)
    requires GoesStraight(code, vs, k) && k < |code| && k < |vs|
    requires m == Exec(Straight(code, vs, k), code[k], vs[k]) && m.pc == k + 1
    ensures GoesStraight(code, vs, k + 1) && Straight(code, vs, k + 1) == m
  {
    hide Exec;
    assert Straight(code, vs, k + 1) == m;
    hide Straight;
  }

  /** A straight run that ends too low outside a probe window. */
  lemma StraightRefutes(code: seq<Instr>, vs: seq<int>, k: nat)
    requires GoesStraight(code, vs, k) && !Looped(code, k) && -Straight(code, vs, k).sp > Charge(code, k)
    ensures !ChargeCovers(code)
  {
    var ms := Trail(code, vs, k);
    TrailRuns(code, vs, k);
    hide Execution, Looped, Charge, Straight;
    assert !CoveredAt(code, ms);
  }

  function Trail(code: seq<Instr>, vs: seq<int>, k: nat): (ms: seq<Machine>)
    requires k <= |code| && k <= |vs|
    ensures |ms| == k + 1 && forall t :: 0 <= t <= k ==> ms[t] == Straight(code, vs, t)
  {
    seq(k + 1, t requires 0 <= t <= k => Straight(code, vs, t))
  }

  lemma TrailRuns(code: seq<Instr>, vs: seq<int>, k: nat)
    requires GoesStraight(code, vs, k)
    ensures Execution(code, Trail(code, vs, k), vs[..k])
  {
    hide Exec;
    var ms := Trail(code, vs, k);
    forall t | 0 <= t < k ensures ms[t].pc < |code| && ms[t + 1] == Exec(ms[t], code[ms[t].pc], vs[..k][t]) {
      assert Straight(code, vs, t).pc == t && Straight(code, vs, t + 1) == Exec(Straight(code, vs, t), code[t], vs[t]);
    }
  }

  /** From outside comes one low address, at instruction j. */
  function Once(length: nat, j: nat, n: int): (vs: seq<int>)
    ensures |vs| == length && forall t :: 0 <= t < length ==> vs[t] == if t == j then -n else 0
  {
    seq(length, t => if t == j then -n else 0)
  }

  lemma IdleStep(t: nat, i: Instr)
    ensures Exec(Machine(t, 0, 0, false), Bare(i), 0) == Machine(t + 1, 0, 0, false)
  {
  }

  lemma {:induction false} IdleBefore(code: seq<Instr>, j: nat, n: int, t: nat)
    requires t <= j < |code| && 0 <= n
    ensures Straight(Inflated(code, j, n), Once(|code|, j, n), t) == Machine(t, 0, 0, false)
    decreases t
  {
    if t > 0 {
      IdleBefore(code, j, n, t - 1);
      hide Exec;
      IdleStep(t - 1, code[t - 1]);
    }
  }

  /** Larger than any charge of zero amounts, and aligned. */
  function Huge(code: seq<Instr>): int { 64 * (|code| + 1) }

  lemma DropStep(t: nat, i: Instr, n: int)
    requires 0 <= n && n % 64 == 0 && (i.SubSp? || i == AndSp(false, true) || i.SetSp?)
    ensures Exec(Machine(t, 0, 0, false), Scaled(i, n), -n) == Machine(t + 1, -n, 0, false)
  {
  }

  lemma DropRun(code: seq<Instr>, k: nat, n: int)
    requires k < |code| && 0 <= n && n % 64 == 0
    requires code[k].SubSp? || code[k] == AndSp(false, true) || code[k].SetSp?
    ensures var c, vs := Inflated(code, k, n), Once(|code|, k, n);
            GoesStraight(c, vs, k + 1) && Straight(c, vs, k + 1).sp == -n
  {
    var c, vs := Inflated(code, k, n), Once(|code|, k, n);
    hide Exec;
    forall t: nat | t <= k ensures Straight(c, vs, t) == Machine(t, 0, 0, false) {
      IdleBefore(code, k, n, t);
    }
    DropStep(k, code[k], n);
    hide Straight;
    GoesOn(c, vs, k, Machine(k + 1, -n, 0, false));
  }

  /** An uncharged drop outside a probe window defeats the charge. */
  lemma DropRefutes(code: seq<Instr>, k: nat) returns (c: seq<Instr>)
    requires AcceptsTo(code, |code|) && k < |code| && !Safe(code, k) && !Closes(code[k])
    ensures SameShape(code, c) && AcceptsTo(c, |c|) && !ChargeCovers(c)
  {
    var n := Huge(code);
    assert Accepts(code, k) && Free(code, k);
    c := Inflated(code, k, n);
    DropRun(code, k, n);
    InflatedIsCheap(code, k, n, |code|);
    InflatedIsCheap(code, k, n, k + 1);
    assert !Looped(c, k + 1) by {
      LoopedInner(c, k);
      if Looped(c, k) {
        LoopedByShape(c, code, k);
      }
    }
    hide ChargeCovers, Looped, Straight, AcceptsTo, Charge;
    StraightRefutes(c, Once(|code|, k, n), k + 1);
  }

  /** Between j and k nothing restores x9 or realigns from it. */
  ghost predicate Stale(code: seq<Instr>, j: nat, k: nat) {
    && j < k <= |code| && Free(code, j) && (code[j].SetX9? || code[j].SubX9X9?)
    && forall t: nat :: j < t < k ==> StaleAt(code, t)
  }

  predicate StaleAt(code: seq<Instr>, t: nat)
    requires t < |code|
  {
    !code[t].SubX9Sp? && !code[t].SetX9? && !code[t].LoopNe? && !(code[t].AndSp? && code[t].fromX9)
  }

  /** Since when x9 has not been a charged address. */
  lemma {:induction false} StaleSince(code: seq<Instr>, k: nat) returns (j: nat)
    requires ProbeLoops(code) && k <= |code| && Aligned(code, k) && !Target(code, k)
    requires forall t: nat :: t < k ==> Safe(code, t)
    ensures Stale(code, j, k)
    decreases k
  {
    var i := code[k - 1];
    if i.SetX9? || (i.SubX9X9? && !Window(code, k - 1)) {
      j := k - 1;
    } else {
      j := StaleSince(code, k - 1);
      assert Safe(code, k - 1);
      LoopEnd(code, k - 1);
    }
  }

  lemma StaleStep(m: Machine, i: Instr)
    requires m.sp == 0 && !i.SubX9Sp? && !i.SetX9? && !i.LoopNe? && !(i.AndSp? && i.fromX9)
    ensures var next := Exec(m, Bare(i), 0); next.pc == m.pc + 1 && next.sp == 0 && next.x9 == m.x9
  {
  }

  predicate At(m: Machine, pc: nat, sp: int, x9: int) {
    m.pc == pc && m.sp == sp && m.x9 == x9
  }

  lemma {:induction false} StaleBetween(code: seq<Instr>, j: nat, n: int, t: nat)
    requires Stale(code, j, t) && 0 <= n
    ensures At(Straight(Inflated(code, j, n), Once(|code|, j, n), t), t, 0, -n)
    decreases t
  {
    var c, vs := Inflated(code, j, n), Once(|code|, j, n);
    if t == j + 1 {
      IdleBefore(code, j, n, j);
    } else {
      assert StaleAt(code, t - 1);
      assert Stale(code, j, t - 1);
      StaleBetween(code, j, n, t - 1);
      hide Exec, Stale;
      StaleStep(Straight(c, vs, t - 1), code[t - 1]);
    }
  }

  lemma StaleStraight(code: seq<Instr>, j: nat, n: int, k: nat)
    requires Stale(code, j, k) && 0 <= n
    ensures GoesStraight(Inflated(code, j, n), Once(|code|, j, n), k)
  {
    hide Straight, Free, StaleAt;
    forall t: nat | t <= k ensures Straight(Inflated(code, j, n), Once(|code|, j, n), t).pc == t {
      if t <= j {
        IdleBefore(code, j, n, t);
      } else {
        assert Stale(code, j, t);
        StaleBetween(code, j, n, t);
      }
    }
  }

  /** The stale address reaches SP at the realignment k. */
  lemma StaleRun(code: seq<Instr>, j: nat, n: int, k: nat)
    requires Stale(code, j, k) && 0 <= n && n % 64 == 0 && k < |code| && code[k] == AndSp(true, true)
    ensures var c, vs := Inflated(code, j, n), Once(|code|, j, n);
            GoesStraight(c, vs, k + 1) && Straight(c, vs, k + 1).sp == -n
  {
    var c, vs := Inflated(code, j, n), Once(|code|, j, n);
    StaleStraight(code, j, n, k);
    StaleBetween(code, j, n, k);
    assert c[k] == AndSp(true, true) && vs[k] == 0;
    hide Exec, Stale, Straight, GoesStraight;
    RealignStep(Straight(c, vs, k), n);
    GoesOn(c, vs, k, Straight(c, vs, k).(pc := k + 1, sp := -n));
  }

  lemma RealignStep(m: Machine, n: int)
    requires m.x9 == -n && n % 64 == 0
    ensures Exec(m, AndSp(true, true), 0) == m.(pc := m.pc + 1, sp := -n)
  {
  }

  lemma NotLoopedAfter(code: seq<Instr>, c: seq<Instr>, k: nat)
    requires ProbeLoops(code) && SameShape(code, c) && k < |code| && code[k] == c[k] == AndSp(true, true)
    ensures !Looped(c, k + 1)
  {
    LoopsByShape(code, c);
    hide ProbeLoops, SameShape;
    if Looped(c, k + 1) {
      LoopedInWindow(c, k + 1);
    }
  }

  /** A realignment from an uncharged x9 defeats the charge. */
  lemma RealignRefutes(code: seq<Instr>, k: nat) returns (c: seq<Instr>)
    requires ProbeLoops(code) && AcceptsTo(code, |code|) && k < |code| && Closes(code[k]) && !Safe(code, k)
    requires forall t: nat :: t < k ==> Safe(code, t)
    ensures SameShape(code, c) && AcceptsTo(c, |c|) && !ChargeCovers(c)
  {
    assert Accepts(code, k);
    var j := StaleSince(code, k);
    var n := Huge(code);
    c := Inflated(code, j, n);
    InflatedIsCheap(code, j, n, |code|);
    InflatedIsCheap(code, j, n, k + 1);
    StaleRun(code, j, n, k);
    NotLoopedAfter(code, c, k);
    hide ChargeCovers, Looped, Straight, AcceptsTo, Charge;
    StraightRefutes(c, Once(|code|, j, n), k + 1);
  }

  lemma FirstUnsafe(code: seq<Instr>) returns (k: nat)
    requires !Guarded(code)
    ensures k < |code| && !Safe(code, k) && forall t: nat :: t < k ==> Safe(code, t)
  {
    k := 0;
    while Safe(code, k)
      invariant k < |code| && forall t: nat :: t < k ==> Safe(code, t)
      decreases |code| - k
    {
      k := k + 1;
    }
  }

  /** Of a listing whose backward branches are probe loops: the charge covers
      the drop for all amounts and all runs exactly when the listing is guarded. */
  lemma GuardExactly(code: seq<Instr>)
    requires ProbeLoops(code) && AcceptsTo(code, |code|)
    ensures Guarded(code) <==> forall c :: SameShape(code, c) && AcceptsTo(c, |c|) ==> ChargeCovers(c)
  {
    if Guarded(code) {
      forall c | SameShape(code, c) && AcceptsTo(c, |c|) ensures ChargeCovers(c) {
        LoopsByShape(code, c);
        GuardByShape(code, c);
        GuardSuffices(c);
      }
    } else {
      var k := FirstUnsafe(code);
      var c;
      if Closes(code[k]) {
        c := RealignRefutes(code, k);
      } else {
        c := DropRefutes(code, k);
      }
    }
  }

  // ----- reported frames

  /** The instructions that are measured: all, or those before the call that stops the scan. */
  function Part(code: seq<Instr>): (part: seq<Instr>)
    ensures part <= code
  {
    if Measure(code).Err? || Measure(code).value.prologue then code else Part(code[..|code| - 1])
  }

  lemma {:induction false} PartMeasured(code: seq<Instr>)
    requires Measure(code).Ok?
    ensures var part := Part(code);
            AcceptsTo(part, |part|) && Charge(part, |part|) == Measure(code).value.size
    decreases |code|
  {
    if Measure(code).value.prologue {
      MeasureExactly(code, |code|);
      assert code[..|code|] == code;
    } else {
      PartMeasured(code[..|code| - 1]);
    }
  }

  /** The reported frame covers the drop of SP in every run of the measured
      part that stops outside a probe window, at its end and, where windows only
      lower SP, all along; of a tight listing it exceeds the drop at the end by
      at most 63 per target. */
  lemma ReportedFrameCoversDrop(preface: seq<Line>, fs: seq<Fn>, i: nat, ms: seq<Machine>, vs: seq<int>)
    requires Listing(preface, fs) && AllMeasured(fs) && i < |fs|
    requires forall j :: i < j < |fs| ==> fs[j].name != fs[i].name
    requires var code := Part(Instrs(fs[i].body));
             ProbeLoops(code) && Guarded(code) && Execution(code, ms, vs) && !Looped(code, ms[|ms| - 1].pc)
    ensures Frames(Image(preface, fs)).Ok? && fs[i].name in Frames(Image(preface, fs)).value
    ensures var code, size := Part(Instrs(fs[i].body)), Frames(Image(preface, fs)).value[fs[i].name];
            var drop := ms[0].sp - ms[|ms| - 1].sp;
            drop <= size && (Tight(code) && ms[|ms| - 1].pc == |code| ==> size <= drop + 63 * Targets(code, |code|))
    ensures Steady(Part(Instrs(fs[i].body))) ==>
              forall k :: 0 <= k < |ms| ==> ms[0].sp - ms[k].sp <= Frames(Image(preface, fs)).value[fs[i].name]
  {
    var code := Part(Instrs(fs[i].body));
    FramesAre(preface, fs);
    SizeOf(fs, i);
    PartMeasured(Instrs(fs[i].body));
    hide Frames, Image, Sizes, Part, Measure, Instrs, Looped;
    RunCovered(code, ms, vs, |ms| - 1);
    ChargeGrows(code, ms[|ms| - 1].pc, |code|);
    if Tight(code) && ms[|ms| - 1].pc == |code| {
      ChargeBoundsDrop(code, ms, vs);
    }
    forall k | Steady(code) && 0 <= k < |ms| ensures ms[0].sp - ms[k].sp <= Charge(code, |code|) {
      PeakCovered(code, ms, vs, k);
    }
  }

  // ----- the shapes the compiler emits

  /** A save, a probe loop of two instructions, and the residual. */
  function ProbePrologue(save: Operand, target: Operand, step: Operand, residual: Operand): seq<Instr> {
    [PushSp(save), SubX9Sp(target), SubSp(step), Other, CmpSpX9, LoopNe(3), SubSp(residual), Other]
  }

  lemma ProbePrologueTight(save: Operand, target: Operand, step: Operand, residual: Operand)
    requires save.Imm? && target.Imm? && residual.Imm?
    ensures var code := ProbePrologue(save, target, step, residual);
            && ProbeLoops(code) && AcceptsTo(code, |code|) && Tight(code)
            && Charge(code, |code|) == Value(save) + 63 + Value(target) + Value(residual)
  {
    var code := ProbePrologue(save, target, step, residual);
    assert !Window(code, 0) && !Window(code, 1);
    assert Window(code, 2) && Target(code, 2);
    assert Window(code, 3) && Target(code, 3);
    assert Window(code, 4) && Target(code, 4);
    assert !Window(code, 5) && Target(code, 5);
    assert !Window(code, 6);
    assert !Window(code, 7);
    assert ClosesLoop(code, 2, 5);
    assert Charge(code, 1) == Value(save);
    assert Charge(code, 2) == Charge(code, 1) + 63 + Value(target);
    assert Charge(code, 3) == Charge(code, 2);
    assert Charge(code, 4) == Charge(code, 3);
    assert Charge(code, 5) == Charge(code, 4);
    assert Charge(code, 6) == Charge(code, 5);
    assert Charge(code, 7) == Charge(code, 6) + Value(residual);
  }

  /** A save, a target in two parts, and the realignment. */
  function RealignPrologue(save: Operand, target: Operand, more: Operand): seq<Instr> {
    [PushSp(save), SubX9Sp(target), SubX9X9(more), AndSp(true, true)]
  }

  lemma RealignPrologueTight(save: Operand, target: Operand, more: Operand)
    requires save.Imm? && target.Imm? && more.Imm?
    ensures var code := RealignPrologue(save, target, more);
            && ProbeLoops(code) && AcceptsTo(code, |code|) && Tight(code)
            && Charge(code, |code|) == Value(save) + 63 + Value(target) + Value(more)
  {
    var code := RealignPrologue(save, target, more);
    assert !Window(code, 0) && !Window(code, 1);
    assert Window(code, 2) && Aligned(code, 2);
    assert Window(code, 3) && Aligned(code, 3);
    assert Charge(code, 1) == Value(save);
    assert Charge(code, 2) == Charge(code, 1) + 63 + Value(target);
    assert Charge(code, 3) == Charge(code, 2) + Value(more);
  }

  // ----- listings the guard rejects, reported at 79 bytes

  function Lines(code: seq<Instr>): seq<Line> {
    if code == [] then [] else Lines(code[..|code| - 1]) + [Code(code[|code| - 1])]
  }

  /** A listing of one function. */
  function Alone(name: string, code: seq<Instr>): seq<Line> {
    [Header(name)] + Lines(code)
  }

  lemma {:induction false} InstrsOfLines(code: seq<Instr>)
    ensures Instrs(Lines(code)) == code && Headless(Lines(code))
    decreases |code|
  {
    if code != [] {
      InstrsOfLines(code[..|code| - 1]);
      assert Lines(code)[..|Lines(code)| - 1] == Lines(code[..|code| - 1]);
    }
  }

  lemma ReportedAlone(name: string, code: seq<Instr>)
    ensures Frames(Alone(name, code)) == var m := Measure(code); if m.Err? then Err else Ok(map[name := m.value.size])
  {
    var f := Fn(name, Lines(code));
    InstrsOfLines(code);
    hide Frames, Lines, Instrs, Measure;
    FramesAre([], [f]);
    assert [f][..0] == [];
    assert Image([], [f]) == Alone(name, code);
    assert Sizes([f]) == Sizes([])[name := if Measure(code).Ok? then Measure(code).value.size else 0];
  }

  function Then(r: Result<Meter>, i: Instr): Result<Meter> {
    if r.Err? then Err else Tick(r.value, i)
  }

  lemma MeasureThree(a: Instr, b: Instr, c: Instr)
    ensures Measure([a, b, c]) == Then(Then(Tick(FRESH, a), b), c)
  {
    hide Tick;
    assert [a, b, c][..2] == [a, b] && [a, b][..1] == [a] && [a][..0] == [];
    assert Measure([a]) == Tick(FRESH, a);
    assert Measure([a, b]) == Then(Tick(FRESH, a), b);
  }

  const TARGET := SubX9Sp(Imm(16, false))

  /** After an x9 target any realignment passes, from whatever register. */
  lemma UnchargedRealignment(name: string, low: nat) returns (ms: seq<Machine>)
    ensures var code := [TARGET, CmpSpX9, AndSp(false, true)];
            && Frames(Alone(name, code)) == Ok(map[name := 79])
            && Execution(code, ms, [0, 0, -64 * low]) && ms[0].sp - ms[3].sp == 64 * low
  {
    var code := [TARGET, CmpSpX9, AndSp(false, true)];
    ReportedAlone(name, code);
    MeasureThree(code[0], code[1], code[2]);
    hide Frames, Alone, Measure;
    ms := [Machine(0, 0, 0, false), Machine(1, 0, -16, false), Machine(2, 0, -16, true), Machine(3, -64 * low, -16, true)];
  }

  /** A step below an x9 target is free even when no loop follows. */
  lemma UnloopedStep(name: string, step: nat) returns (ms: seq<Machine>)
    ensures var code := [TARGET, SubSp(Imm(step, false)), Other];
            && Frames(Alone(name, code)) == Ok(map[name := 79])
            && Execution(code, ms, [0, 0, 0]) && ms[0].sp - ms[3].sp == step
  {
    var code := [TARGET, SubSp(Imm(step, false)), Other];
    ReportedAlone(name, code);
    MeasureThree(code[0], code[1], code[2]);
    hide Frames, Alone, Measure;
    ms := [Machine(0, 0, 0, false), Machine(1, 0, -16, false), Machine(2, 0 - step, -16, false), Machine(3, 0 - step, -16, false)];
  }

  /** Once its window is closed, x9 moves free and can still be realigned from. */
  lemma StaleRealignment(name: string, low: nat) returns (ms: seq<Machine>)
    ensures var code := [TARGET, CmpSpX9, SubX9X9(Imm(64 * low, false)), AndSp(true, true)];
            && Frames(Alone(name, code)) == Ok(map[name := 79])
            && Execution(code, ms, [0, 0, 0, 0]) && ms[0].sp - ms[4].sp == 64 * low + 64
  {
    var code := [TARGET, CmpSpX9, SubX9X9(Imm(64 * low, false)), AndSp(true, true)];
    ReportedAlone(name, code);
    MeasureThree(code[0], code[1], code[2]);
    assert code[..3] == [code[0], code[1], code[2]];
    assert Measure(code) == Then(Measure(code[..3]), code[3]);
    hide Frames, Alone, Measure;
    var x := -16 - 64 * low;
    ms := [Machine(0, 0, 0, false), Machine(1, 0, -16, false), Machine(2, 0, -16, true),
           Machine(3, 0, x, true), Machine(4, Rounded(x), x, true)];
  }
}
