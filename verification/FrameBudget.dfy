/** Measuring compiled stack frames from a disassembly listing (`Frames::parse`). */
module FrameBudget {
  import opened Wrappers

  /** An immediate with an optional `lsl #12`, or a register operand. */
  datatype Operand = Imm(amount: nat, shifted: bool) | Register

  datatype Instr =
    | PushSp(amt: Operand)             // stp/str ..., [sp, #-N]!
    | SubSp(amt: Operand)              // sub sp, sp, ...
    | SubX9Sp(amt: Operand)            // sub x9, sp, ...
    | SubX9X9(amt: Operand)            // sub x9, x9, ...
    | CmpSpX9                          // cmp sp, x9
    | AndSp(fromX9: bool, to64: bool)  // and sp, <reg>, #mask; to64: the mask clears the low six bits
    | LoopNe(back: nat)                // b.ne to so many instructions earlier
    | RaiseSp(amount: nat)             // add sp, sp, #N or a post-indexed load from sp
    | SetSp                            // any other instruction that writes sp
    | SetX9                            // any other instruction that writes x9
    | Call                             // bl, blr, or ret with an operand
    | Other                            // everything else, a bare ret included

  datatype Line = Header(name: string) | Code(instr: Instr) | Text

  /** What is known of the function being measured. */
  datatype Meter = Meter(size: nat, prologue: bool, aligned: bool, inProbe: bool)

  const FRESH := Meter(0, true, false, false)

  function Immediate(o: Operand): Result<nat> {
    if o.Register? then Err else Ok(if o.shifted then o.amount * 4096 else o.amount)
  }

  function Charged(m: Meter, o: Operand): Result<Meter> {
    var n := Immediate(o);
    if n.Err? then Err else Ok(m.(size := m.size + n.value))
  }

  function Tick(m: Meter, i: Instr): Result<Meter> {
    if !m.prologue then Ok(m)
    else match i
      case Call => Ok(if m.size > 0 then m.(prologue := false) else m)
      case PushSp(amt) => Charged(m, amt)
      case SubSp(amt) => if m.inProbe then Ok(m) else Charged(m, amt)
      case SubX9Sp(amt) => Charged(m.(aligned := true, inProbe := true, size := m.size + 63), amt)
      case SubX9X9(amt) => if m.inProbe then Charged(m, amt) else Ok(m)
      case CmpSpX9 => Ok(m.(inProbe := false))
      case AndSp(fromX9, to64) => if !m.aligned || !to64 then Err else Ok(if fromX9 then m.(inProbe := false) else m)
      case _ => Ok(m)
  }

  /** One function's instructions, on their own. */
  function Measure(code: seq<Instr>): Result<Meter> {
    if code == [] then Ok(FRESH)
    else
      var before := Measure(code[..|code| - 1]);
      if before.Err? then Err else Tick(before.value, code[|code| - 1])
  }

  /** The scanner's variables; `current` is the symbol being measured. */
  datatype Scan = Scan(frames: map<string, nat>, current: Option<string>, meter: Meter)

  function Flushed(s: Scan): map<string, nat> {
    if s.current.Some? then s.frames[s.current.value := s.meter.size] else s.frames
  }

  function ScanLine(s: Scan, line: Line): Result<Scan> {
    match line
    case Header(name) => Ok(Scan(Flushed(s), Some(name), FRESH))
    case Code(i) =>
      if s.current.None? then Ok(s)
      else
        var m := Tick(s.meter, i);
        if m.Err? then Err else Ok(s.(meter := m.value))
    case Text => Ok(s)
  }

  function Scanned(lines: seq<Line>): Result<Scan> {
    if lines == [] then Ok(Scan(map[], None, FRESH))
    else
      var before := Scanned(lines[..|lines| - 1]);
      if before.Err? then Err else ScanLine(before.value, lines[|lines| - 1])
  }

  /** The measured frames; a listing without any function is an error. */
  function Frames(lines: seq<Line>): Result<map<string, nat>> {
    var end := Scanned(lines);
    if end.Err? || Flushed(end.value) == map[] then Err else Ok(Flushed(end.value))
  }

  lemma {:induction false} FailedForGood(lines: seq<Line>, k: nat)
    requires k <= |lines| && Scanned(lines[..k]).Err?
    ensures Scanned(lines).Err?
    decreases |lines|
  {
    if k == |lines| {
      assert lines[..k] == lines;
    } else {
      assert lines[..|lines| - 1][..k] == lines[..k];
      FailedForGood(lines[..|lines| - 1], k);
    }
  }

  method Parse(lines: seq<Line>) returns (r: Result<map<string, nat>>)
    ensures r == Frames(lines)
  {
    var frames: map<string, nat> := map[];
    var current: Option<string> := None;
    var size, prologue, aligned, inProbe := 0, true, false, false;
    var i := 0;
    while i < |lines|
      invariant 0 <= i <= |lines|
      invariant size >= 0
      invariant Scanned(lines[..i]) == Ok(Scan(frames, current, Meter(size, prologue, aligned, inProbe)))
    {
      var line := lines[i];
      ghost var before := Scan(frames, current, Meter(size, prologue, aligned, inProbe));
      assert lines[..i + 1][..i] == lines[..i];
      assert Scanned(lines[..i + 1]) == ScanLine(before, line);
      if ScanLine(before, line).Err? { FailedForGood(lines, i + 1); }
      i := i + 1;
      if line.Header? {
        if current.Some? { frames := frames[current.value := size]; }
        current, size, prologue, aligned, inProbe := Some(line.name), 0, true, false, false;
        continue;
      }
      if current.None? || !prologue || line.Text? { continue; }
      var instr := line.instr;
      if instr.Call? && size > 0 {
        prologue := false;
        continue;
      }
      if instr.PushSp? {
        if instr.amt.Register? { return Err; }
        size := size + Immediate(instr.amt).value;
      }
      if instr.SubX9Sp? {
        aligned, inProbe, size := true, true, size + 63;
      }
      if (instr.SubSp? && !inProbe) || (inProbe && (instr.SubX9Sp? || instr.SubX9X9?)) {
        if instr.amt.Register? { return Err; }
        size := size + Immediate(instr.amt).value;
      }
      if instr.CmpSpX9? || (instr.AndSp? && instr.fromX9) {
        inProbe := false;
      }
      if instr.AndSp? && (!aligned || !instr.to64) { return Err; }
    }
    assert lines[..|lines|] == lines;
    if current.Some? { frames := frames[current.value := size]; }
    r := if frames == map[] then Err else Ok(frames);
  }

  // ----- the scan of one function, said of its instructions

  function Value(o: Operand): nat {
    if o.Register? then 0 else if o.shifted then o.amount * 4096 else o.amount
  }

  predicate Closes(i: Instr) {
    i.CmpSpX9? || (i.AndSp? && i.fromX9)
  }

  /** Between an x9 target and the comparison or realignment that ends it. */
  predicate Window(code: seq<Instr>, k: nat)
    requires k <= |code|
  {
    k > 0 && (code[k - 1].SubX9Sp? || (Window(code, k - 1) && !Closes(code[k - 1])))
  }

  predicate Aligned(code: seq<Instr>, k: nat)
    requires k <= |code|
  {
    k > 0 && (code[k - 1].SubX9Sp? || Aligned(code, k - 1))
  }

  function Cost(code: seq<Instr>, k: nat): nat
    requires k < |code|
  {
    match code[k]
    case PushSp(amt) => Value(amt)
    case SubSp(amt) => if Window(code, k) then 0 else Value(amt)
    case SubX9Sp(amt) => 63 + Value(amt)
    case SubX9X9(amt) => if Window(code, k) then Value(amt) else 0
    case _ => 0
  }

  function Charge(code: seq<Instr>, k: nat): nat
    requires k <= |code|
  {
    if k == 0 then 0 else Charge(code, k - 1) + Cost(code, k - 1)
  }

  /** The scan neither fails nor stops at instruction k. */
  predicate Accepts(code: seq<Instr>, k: nat)
    requires k < |code|
  {
    match code[k]
    case PushSp(amt) => amt.Imm?
    case SubSp(amt) => Window(code, k) || amt.Imm?
    case SubX9Sp(amt) => amt.Imm?
    case SubX9X9(amt) => !Window(code, k) || amt.Imm?
    case AndSp(_, to64) => to64 && Aligned(code, k)
    case Call => Charge(code, k) == 0
    case _ => true
  }

  predicate AcceptsTo(code: seq<Instr>, k: nat)
    requires k <= |code|
  {
    forall j :: 0 <= j < k ==> Accepts(code, j)
  }

  function Reading(code: seq<Instr>, k: nat): Meter
    requires k <= |code|
  {
    Meter(Charge(code, k), true, Aligned(code, k), Window(code, k))
  }

  lemma TickExactly(code: seq<Instr>, k: nat)
    requires k < |code|
    ensures var m := Tick(Reading(code, k), code[k]);
            (m.Ok? && m.value.prologue <==> Accepts(code, k)) && (Accepts(code, k) ==> m.value == Reading(code, k + 1))
  {
  }

  /** The scan, said of the listing: it goes through exactly the accepted
      instructions and its meter holds their charge. */
  lemma {:induction false} MeasureExactly(code: seq<Instr>, k: nat)
    requires k <= |code|
    ensures var m := Measure(code[..k]);
            && (m.Ok? && m.value.prologue <==> AcceptsTo(code, k))
            && (AcceptsTo(code, k) ==> m.value == Reading(code, k))
    decreases k
  {
    if k > 0 {
      MeasureExactly(code, k - 1);
      assert code[..k][..k - 1] == code[..k - 1];
      assert AcceptsTo(code, k) <==> AcceptsTo(code, k - 1) && Accepts(code, k - 1);
      TickExactly(code, k - 1);
      StaysStopped(Measure(code[..k - 1]), code[k - 1]);
      hide Reading, Tick, Accepts;
    }
  }

  lemma StaysStopped(m: Result<Meter>, i: Instr)
    ensures m.Ok? && !m.value.prologue ==> Tick(m.value, i) == m
  {
  }

  /** The scan gets to instruction k and fails there: an amount is missing or a realignment is not to 64 bytes. */
  ghost predicate FailsAt(code: seq<Instr>, k: nat) {
    k < |code| && AcceptsTo(code, k) && !Accepts(code, k) && !code[k].Call?
  }

  /** The scan gets to k and ends there: at the end, or at a call after something has been charged. */
  ghost predicate EndsAt(code: seq<Instr>, k: nat) {
    k <= |code| && AcceptsTo(code, k) && (k == |code| || (code[k].Call? && Charge(code, k) > 0))
  }

  lemma {:induction false} EndsOrFails(code: seq<Instr>, k: nat) returns (m: nat)
    requires k <= |code| && AcceptsTo(code, k)
    ensures EndsAt(code, m) || FailsAt(code, m)
    decreases |code| - k
  {
    if k == |code| || !Accepts(code, k) {
      m := k;
    } else {
      assert AcceptsTo(code, k + 1);
      m := EndsOrFails(code, k + 1);
    }
  }

  lemma {:induction false} MeasurePrefix(code: seq<Instr>, k: nat, n: nat)
    requires k <= n <= |code| && (Measure(code[..k]).Ok? ==> !Measure(code[..k]).value.prologue)
    ensures Measure(code[..n]) == Measure(code[..k])
    decreases n
  {
    if k < n {
      MeasurePrefix(code, k, n - 1);
      assert code[..n][..n - 1] == code[..n - 1];
      StaysStopped(Measure(code[..n - 1]), code[n - 1]);
      hide Tick;
    }
  }

  lemma StepAt(code: seq<Instr>, k: nat)
    requires k < |code| && AcceptsTo(code, k)
    ensures Measure(code[..k + 1]) == Tick(Reading(code, k), code[k])
  {
    MeasureExactly(code, k);
    hide Tick;
    assert code[..k + 1][..k] == code[..k];
  }

  lemma EndedMeasure(code: seq<Instr>, k: nat)
    requires EndsAt(code, k)
    ensures Measure(code).Ok? && Measure(code).value.size == Charge(code, k)
  {
    assert code[..|code|] == code;
    if k == |code| {
      MeasureExactly(code, k);
    } else {
      StepAt(code, k);
      MeasurePrefix(code, k + 1, |code|);
    }
  }

  lemma FailedMeasure(code: seq<Instr>, k: nat)
    requires FailsAt(code, k)
    ensures Measure(code).Err?
  {
    StepAt(code, k);
    assert code[..|code|] == code;
    MeasurePrefix(code, k + 1, |code|);
  }

  /** A function is measured exactly when its scan does not fail somewhere, and
      then at the charge of the instructions up to where the scan ends. */
  lemma MeasuredExactly(code: seq<Instr>)
    ensures Measure(code).Err? <==> exists k: nat :: FailsAt(code, k)
    ensures forall k: nat :: EndsAt(code, k) ==> Measure(code).Ok? && Measure(code).value.size == Charge(code, k)
    ensures Measure(code).Ok? ==> exists k: nat :: EndsAt(code, k)
  {
    hide Measure, AcceptsTo, Accepts;
    assert AcceptsTo(code, 0) by { NothingYet(code); }
    var m := EndsOrFails(code, 0);
    if EndsAt(code, m) {
      EndedMeasure(code, m);
    }
    forall k: nat | FailsAt(code, k) ensures Measure(code).Err? {
      FailedMeasure(code, k);
    }
    forall k: nat | EndsAt(code, k) ensures Measure(code).Ok? && Measure(code).value.size == Charge(code, k) {
      EndedMeasure(code, k);
    }
  }

  lemma NothingYet(code: seq<Instr>)
    ensures AcceptsTo(code, 0)
  {
  }

  // ----- a whole listing

  /** A symbol and every line up to the next header. */
  datatype Fn = Fn(name: string, body: seq<Line>)

  predicate Headless(lines: seq<Line>) {
    forall l :: l in lines ==> !l.Header?
  }

  predicate Listing(preface: seq<Line>, fs: seq<Fn>) {
    Headless(preface) && forall f :: f in fs ==> Headless(f.body)
  }

  function Image(preface: seq<Line>, fs: seq<Fn>): seq<Line> {
    if fs == [] then preface
    else Image(preface, fs[..|fs| - 1]) + [Header(fs[|fs| - 1].name)] + fs[|fs| - 1].body
  }

  function Instrs(lines: seq<Line>): seq<Instr> {
    if lines == [] then []
    else Instrs(lines[..|lines| - 1]) + if lines[|lines| - 1].Code? then [lines[|lines| - 1].instr] else []
  }

  /** Later symbols of the same name win, as in the source's map. */
  function Sizes(fs: seq<Fn>): map<string, nat> {
    if fs == [] then map[]
    else
      var m := Measure(Instrs(fs[|fs| - 1].body));
      Sizes(fs[..|fs| - 1])[fs[|fs| - 1].name := if m.Ok? then m.value.size else 0]
  }

  predicate AllMeasured(fs: seq<Fn>) {
    forall f :: f in fs ==> Measure(Instrs(f.body)).Ok?
  }

  /** Every listing is a preface and a sequence of functions. */
  lemma {:induction false} ListingOf(lines: seq<Line>) returns (preface: seq<Line>, fs: seq<Fn>)
    ensures Listing(preface, fs) && Image(preface, fs) == lines
    decreases |lines|
  {
    if lines == [] {
      preface, fs := [], [];
    } else {
      var front, last := lines[..|lines| - 1], lines[|lines| - 1];
      preface, fs := ListingOf(front);
      if last.Header? {
        var more := fs + [Fn(last.name, [])];
        assert more[..|fs|] == fs;
        fs := more;
      } else if fs == [] {
        preface := preface + [last];
      } else {
        var n := |fs| - 1;
        var more := fs[..n] + [fs[n].(body := fs[n].body + [last])];
        assert more[..n] == fs[..n] && fs[n] in fs;
        fs := more;
      }
    }
  }

  lemma {:induction false} ScanPreface(lines: seq<Line>)
    requires Headless(lines)
    ensures Scanned(lines) == Ok(Scan(map[], None, FRESH))
    decreases |lines|
  {
    if lines != [] {
      ScanPreface(lines[..|lines| - 1]);
    }
  }

  lemma MeasureStep(front: seq<Line>, last: Line)
    ensures Measure(Instrs(front + [last])) ==
            var m := Measure(Instrs(front));
            if m.Err? then Err else if last.Code? then Tick(m.value, last.instr) else m
  {
    hide Tick;
    assert (front + [last])[..|front|] == front;
    if last.Code? {
      assert (Instrs(front) + [last.instr])[..|Instrs(front)|] == Instrs(front);
    } else {
      assert Instrs(front + [last]) == Instrs(front);
    }
  }

  /** The scan after a function whose own measure is m. */
  function Entered(frames: map<string, nat>, name: string, m: Result<Meter>): Result<Scan> {
    if m.Err? then Err else Ok(Scan(frames, Some(name), m.value))
  }

  lemma EnteredStep(frames: map<string, nat>, name: string, front: seq<Line>, last: Line)
    requires !last.Header? && Measure(Instrs(front)).Ok?
    ensures ScanLine(Entered(frames, name, Measure(Instrs(front))).value, last) ==
            Entered(frames, name, Measure(Instrs(front + [last])))
  {
    hide Tick, Measure, Instrs;
    MeasureStep(front, last);
  }

  /** A function is measured on its own: nothing leaks in from the lines before its header. */
  lemma {:induction false} ScanFn(before: seq<Line>, name: string, body: seq<Line>)
    requires Scanned(before).Ok? && Headless(body)
    ensures Scanned(before + [Header(name)] + body) ==
            Entered(Flushed(Scanned(before).value), name, Measure(Instrs(body)))
    decreases |body|
  {
    var lines := before + [Header(name)] + body;
    if body == [] {
      assert lines[..|lines| - 1] == before;
    } else {
      var front, last := body[..|body| - 1], body[|body| - 1];
      assert lines[..|lines| - 1] == before + [Header(name)] + front && last in body;
      ScanFn(before, name, front);
      hide ScanLine, Flushed, Measure, Instrs;
      MeasureStep(front, last);
      assert body == front + [last];
      if Measure(Instrs(front)).Ok? {
        EnteredStep(Flushed(Scanned(before).value), name, front, last);
      }
    }
  }

  lemma {:induction false} ScanImage(preface: seq<Line>, fs: seq<Fn>)
    requires Listing(preface, fs)
    ensures var end := Scanned(Image(preface, fs));
            if AllMeasured(fs) then end.Ok? && Flushed(end.value) == Sizes(fs) else end.Err?
    decreases |fs|
  {
    if fs == [] {
      ScanPreface(preface);
    } else {
      hide Scanned, Measure, Instrs;
      var front, f := fs[..|fs| - 1], fs[|fs| - 1];
      var before := Image(preface, front);
      ScanImage(preface, front);
      assert AllMeasured(fs) <==> AllMeasured(front) && Measure(Instrs(f.body)).Ok? by {
        assert fs == front + [f];
      }
      if AllMeasured(front) {
        ScanFn(before, f.name, f.body);
      } else {
        var lines := Image(preface, fs);
        assert lines[..|before|] == before;
        FailedForGood(lines, |before|);
      }
    }
  }

  lemma FramesAre(preface: seq<Line>, fs: seq<Fn>)
    requires Listing(preface, fs)
    ensures Frames(Image(preface, fs)) == if fs == [] || !AllMeasured(fs) then Err else Ok(Sizes(fs))
  {
    ScanImage(preface, fs);
    assert fs != [] ==> fs[|fs| - 1].name in Sizes(fs);
  }

  lemma {:induction false} SizeOf(fs: seq<Fn>, i: nat)
    requires i < |fs| && AllMeasured(fs) && forall j :: i < j < |fs| ==> fs[j].name != fs[i].name
    ensures fs[i].name in Sizes(fs) && Measure(Instrs(fs[i].body)).Ok?
    ensures Sizes(fs)[fs[i].name] == Measure(Instrs(fs[i].body)).value.size
    decreases |fs|
  {
    if i < |fs| - 1 {
      SizeOf(fs[..|fs| - 1], i);
    }
  }

  lemma {:induction false} SizesNames(fs: seq<Fn>)
    ensures Sizes(fs).Keys == set f | f in fs :: f.name
    decreases |fs|
  {
    if fs != [] {
      var n := |fs| - 1;
      SizesNames(fs[..n]);
      assert fs == fs[..n] + [fs[n]];
    }
  }

  ghost predicate FailsIn(fs: seq<Fn>, f: Fn, k: nat) {
    f in fs && FailsAt(Instrs(f.body), k)
  }

  /** The function that a name stands for: later symbols of the same name win. */
  predicate Stands(fs: seq<Fn>, i: nat) {
    i < |fs| && forall j :: i < j < |fs| ==> fs[j].name != fs[i].name
  }

  /** Of every listing: the scan fails exactly when there is no function or the
      scan of some function fails at an instruction; otherwise every function is
      reported, at the charge of its own instructions up to where its scan ends. */
  lemma FramesExactly(preface: seq<Line>, fs: seq<Fn>)
    requires Listing(preface, fs)
    ensures Frames(Image(preface, fs)).Err? <==> fs == [] || exists f, k: nat :: FailsIn(fs, f, k)
    ensures Frames(Image(preface, fs)).Ok? ==>
      var frames := Frames(Image(preface, fs)).value;
      && frames.Keys == (set f | f in fs :: f.name)
      && forall i: nat, k: nat :: Stands(fs, i) && EndsAt(Instrs(fs[i].body), k) ==>
           fs[i].name in frames && frames[fs[i].name] == Charge(Instrs(fs[i].body), k)
  {
    FramesAre(preface, fs);
    SizesNames(fs);
    hide Frames, Image, Sizes, Measure, Instrs, EndsAt, FailsAt;
    forall f: Fn ensures
      && (Measure(Instrs(f.body)).Err? <==> exists k: nat :: FailsAt(Instrs(f.body), k))
      && forall k: nat :: EndsAt(Instrs(f.body), k) ==> Measure(Instrs(f.body)).Ok? && Measure(Instrs(f.body)).value.size == Charge(Instrs(f.body), k)
    {
      MeasuredExactly(Instrs(f.body));
    }
    forall f, k: nat | FailsIn(fs, f, k) ensures !AllMeasured(fs) {
      assert Measure(Instrs(f.body)).Err?;
    }
    if !AllMeasured(fs) {
      var f :| f in fs && Measure(Instrs(f.body)).Err?;
      var k: nat :| FailsAt(Instrs(f.body), k);
      assert FailsIn(fs, f, k);
    } else if fs != [] {
      forall i: nat | Stands(fs, i) ensures fs[i].name in Sizes(fs) && Measure(Instrs(fs[i].body)).Ok? &&
                                            Sizes(fs)[fs[i].name] == Measure(Instrs(fs[i].body)).value.size
      {
        SizeOf(fs, i);
      }
    }
  }
}
