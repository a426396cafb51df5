/** Replay of VM-generation and stage-2 map/unmap records, and the lifetime
    index built from it (`validate`, `stage2_contains`). Records are typed; the
    list of finished lifetimes is a multiset, since it is only ever searched. */
module Stage2Replay {
  import opened StableSort
  import opened Wrappers

  datatype Record =
    | Vm(ts: nat, pid: nat, operation: nat, generation: nat)
    | Stage2(ts: nat, pid: nat, vm: nat, phase: nat, ipa: nat, length: nat, host: nat, perms: nat)

  datatype Generation = Generation(number: nat, active: bool)
  datatype Extent = Extent(pid: nat, vm: nat, ipa: nat, length: nat)
  datatype Backing = Backing(since: nat, host: nat)
  datatype Lifetime = Lifetime(extent: Extent, since: nat, until: nat)
  datatype State = State(vms: map<nat, Generation>, live: map<Extent, Backing>, ended: multiset<Lifetime>)

  const INITIAL := State(map[], map[], multiset{})

  function CurrentVm(s: State, pid: nat): Generation {
    if pid in s.vms then s.vms[pid] else Generation(0, false)
  }

  predicate Overlap(a: nat, aLength: nat, b: nat, bLength: nat) {
    a < b + bLength && b < a + aLength
  }

  // ----- one record

  /** End the lifetimes of the extents in `es`. */
  function Close(s: State, es: set<Extent>, ts: nat): State
    requires es <= s.live.Keys
  {
    State(s.vms, s.live - es, s.ended + multiset(set e | e in es :: Lifetime(e, s.live[e].since, ts)))
  }

  function ExtentsOf(s: State, pid: nat, generation: nat): set<Extent> {
    set e | e in s.live && e.pid == pid && e.vm == generation
  }

  function StepVm(s: State, r: Record): Result<State>
    requires r.Vm?
  {
    var Generation(previous, active) := CurrentVm(s, r.pid);
    if r.pid == 0 || r.operation > 3 then Err
    else if r.operation == 0 then
      if active || r.generation != previous then Err else Ok(s)
    else if r.operation == 1 then
      if active || r.generation != previous + 1 then Err
      else Ok(s.(vms := s.vms[r.pid := Generation(r.generation, true)]))
    else if r.operation == 2 then
      if !active || r.generation != previous then Err else Ok(s)
    else
      if !active || r.generation != previous then Err
      else
        var closed := Close(s, ExtentsOf(s, r.pid, r.generation), r.ts);
        Ok(closed.(vms := s.vms[r.pid := Generation(r.generation, false)]))
  }

  predicate IpaClash(s: State, e: Extent) {
    exists x :: x in s.live && x.pid == e.pid && x.vm == e.vm && Overlap(x.ipa, x.length, e.ipa, e.length)
  }

  predicate HostClash(s: State, e: Extent, host: nat) {
    exists x :: x in s.live && x.pid == e.pid && x.vm == e.vm && Overlap(s.live[x].host, x.length, host, e.length)
  }

  function StepStage2(s: State, r: Record): Result<State>
    requires r.Stage2?
  {
    var e := Extent(r.pid, r.vm, r.ipa, r.length);
    if r.ipa == 0 || r.length == 0 then Err
    else if r.pid !in s.vms || s.vms[r.pid] != Generation(r.vm, true) then Err
    else if r.phase == 0 then
      if r.host == 0 || IpaClash(s, e) || HostClash(s, e, r.host) then Err
      else Ok(s.(live := s.live[e := Backing(r.ts, r.host)]))
    else if r.phase == 1 then
      if r.host != 0 || r.perms != 0 || e !in s.live then Err else Ok(Close(s, {e}, r.ts))
    else Err
  }

  function Step(s: State, r: Record): Result<State> {
    if r.Vm? then StepVm(s, r) else StepStage2(s, r)
  }

  /** The state after the records in order, or rejection. */
  function Run(rs: seq<Record>): Result<State> {
    if rs == [] then Ok(INITIAL)
    else
      var before := Run(rs[..|rs| - 1]);
      if before.Err? then Err else Step(before.value, rs[|rs| - 1])
  }

  function Time(r: Record): int { r.ts }

  /** The lifetime index of a capture; extents still live at the end reject it. */
  function Index(records: seq<Record>): Result<multiset<Lifetime>> {
    var end := Run(Sort(records, Time));
    if end.Err? || end.value.live != map[] then Err else Ok(end.value.ended)
  }

  // ----- what every step keeps

  ghost predicate Apart(s: State, x: Extent, y: Extent)
    requires x in s.live && y in s.live
  {
    && !Overlap(x.ipa, x.length, y.ipa, y.length)
    && !Overlap(s.live[x].host, x.length, s.live[y].host, y.length)
  }

  /** Live extents belong to the active generation of their process, and two of
      one process are disjoint both in IPA and in host memory. */
  ghost predicate Consistent(s: State) {
    && (forall e :: e in s.live ==>
          e.length > 0 && e.pid in s.vms && s.vms[e.pid] == Generation(e.vm, true))
    && (forall x, y :: x in s.live && y in s.live && x != y && x.pid == y.pid ==> Apart(s, x, y))
  }

  lemma StepConsistent(s: State, r: Record)
    requires Consistent(s) && Step(s, r).Ok?
    ensures Consistent(Step(s, r).value)
  {
    var s' := Step(s, r).value;
    if r.Stage2? && r.phase == 0 {
      var e := Extent(r.pid, r.vm, r.ipa, r.length);
      forall x, y | x in s'.live && y in s'.live && x != y && x.pid == y.pid ensures Apart(s', x, y) {
        if x != e && y != e {
          assert Apart(s, x, y);
        }
      }
    } else {
      forall x, y | x in s'.live && y in s'.live && x != y && x.pid == y.pid ensures Apart(s', x, y) {
        assert Apart(s, x, y);
      }
    }
  }

  lemma {:induction false} PrefixAccepted(rs: seq<Record>, k: nat)
    requires Run(rs).Ok? && k <= |rs|
    ensures Run(rs[..k]).Ok?
    decreases |rs|
  {
    if k < |rs| {
      PrefixAccepted(rs[..|rs| - 1], k);
      assert rs[..|rs| - 1][..k] == rs[..k];
    } else {
      assert rs[..k] == rs;
    }
  }

  lemma {:induction false} RunConsistent(rs: seq<Record>)
    requires Run(rs).Ok?
    ensures Consistent(Run(rs).value)
  {
    if rs != [] {
      RunConsistent(rs[..|rs| - 1]);
      StepConsistent(Run(rs[..|rs| - 1]).value, rs[|rs| - 1]);
    }
  }

  /** At every step of an accepted replay the live extents are consistent. */
  lemma EveryStepConsistent(rs: seq<Record>, k: nat)
    requires Run(rs).Ok? && k <= |rs|
    ensures Run(rs[..k]).Ok? && Consistent(Run(rs[..k]).value)
  {
    PrefixAccepted(rs, k);
    RunConsistent(rs[..k]);
  }

  /** Generations of the successful creates of one process, in order. */
  function Created(rs: seq<Record>, pid: nat): seq<nat> {
    if rs == [] then []
    else
      var r := rs[|rs| - 1];
      Created(rs[..|rs| - 1], pid) + if r.Vm? && r.pid == pid && r.operation == 1 then [r.generation] else []
  }

  /** What an accepted record does to the current generation of a process. */
  lemma CurrentVmStep(s: State, r: Record, pid: nat)
    requires Step(s, r).Ok?
    ensures var was, now := CurrentVm(s, pid), CurrentVm(Step(s, r).value, pid);
            if r.Vm? && r.pid == pid && r.operation == 1 then
              !was.active && r.generation == was.number + 1 && now == Generation(r.generation, true)
            else if r.Vm? && r.pid == pid && r.operation == 3 then was.active && now == was.(active := false)
            else now == was
  {
  }

  /** Generations of a process are created as 1, 2, 3, ... and the current one is the last created. */
  lemma {:induction false} GenerationsConsecutive(rs: seq<Record>, pid: nat)
    requires Run(rs).Ok?
    ensures CurrentVm(Run(rs).value, pid).number == |Created(rs, pid)|
    ensures forall i :: 0 <= i < |Created(rs, pid)| ==> Created(rs, pid)[i] == i + 1
    decreases |rs|
  {
    if rs != [] {
      GenerationsConsecutive(rs[..|rs| - 1], pid);
      CurrentVmStep(Run(rs[..|rs| - 1]).value, rs[|rs| - 1], pid);
      hide Step, CurrentVm;
    }
  }

  // ----- the replay, said of the records alone

  /** Generations of the successful destroys of one process, in order. */
  function Destroyed(rs: seq<Record>, pid: nat): seq<nat> {
    if rs == [] then []
    else
      var r := rs[|rs| - 1];
      Destroyed(rs[..|rs| - 1], pid) + if r.Vm? && r.pid == pid && r.operation == 3 then [r.generation] else []
  }

  /** One more generation has been created than destroyed. */
  predicate Open(rs: seq<Record>, pid: nat) {
    |Created(rs, pid)| == |Destroyed(rs, pid)| + 1
  }

  /** A generation is active exactly while one more has been created than destroyed. */
  lemma {:induction false} ActiveExactly(rs: seq<Record>, pid: nat)
    requires Run(rs).Ok?
    ensures CurrentVm(Run(rs).value, pid).active <==> Open(rs, pid)
    ensures !Open(rs, pid) ==> |Created(rs, pid)| == |Destroyed(rs, pid)|
    decreases |rs|
  {
    if rs != [] {
      ActiveExactly(rs[..|rs| - 1], pid);
      CurrentVmStep(Run(rs[..|rs| - 1]).value, rs[|rs| - 1], pid);
      hide Step, CurrentVm;
    }
  }

  predicate Maps(r: Record, e: Extent) {
    r.Stage2? && r.phase == 0 && e == Extent(r.pid, r.vm, r.ipa, r.length)
  }

  /** The record unmaps the extent or destroys its generation. */
  predicate Ends(r: Record, e: Extent) {
    if r.Vm? then r.operation == 3 && e.pid == r.pid && e.vm == r.generation
    else r.phase == 1 && e == Extent(r.pid, r.vm, r.ipa, r.length)
  }

  /** Record i maps the extent, and nothing after it has ended that. */
  ghost predicate Mapped(rs: seq<Record>, i: nat, e: Extent) {
    i < |rs| && Maps(rs[i], e) && forall j :: i < j < |rs| ==> !Ends(rs[j], e)
  }

  lemma MappedStep(rs: seq<Record>, i: nat, e: Extent)
    requires rs != []
    ensures var n := |rs| - 1;
            Mapped(rs, i, e) <==> if i == n then Maps(rs[n], e) else Mapped(rs[..n], i, e) && !Ends(rs[n], e)
  {
    var n := |rs| - 1;
    assert forall k :: 0 <= k < n ==> rs[..n][k] == rs[k];
  }

  /** The live extents are those mapped by a record and not ended since, each with that record's time and host. */
  ghost predicate LiveAreMapped(rs: seq<Record>, s: State) {
    && (forall e :: e in s.live ==> exists i: nat :: Mapped(rs, i, e))
    && (forall i: nat, e :: Mapped(rs, i, e) ==> e in s.live && s.live[e] == Backing(rs[i].ts, rs[i].host))
  }

  lemma StepMapped(rs: seq<Record>, s: State, r: Record)
    requires LiveAreMapped(rs, s) && Step(s, r).Ok?
    ensures LiveAreMapped(rs + [r], Step(s, r).value)
  {
    var n, all, s' := |rs|, rs + [r], Step(s, r).value;
    assert all[..n] == rs;
    forall i: nat, e ensures
      Mapped(all, i, e) <==> if i == n then Maps(r, e) else Mapped(rs, i, e) && !Ends(r, e)
    {
      MappedStep(all, i, e);
    }
    hide Mapped;
    forall e | e in s'.live ensures exists i: nat :: Mapped(all, i, e) {
      if Maps(r, e) {
        assert Mapped(all, n, e);
      } else {
        assert e in s.live && !Ends(r, e);
        var i: nat :| Mapped(rs, i, e);
        assert i != n by { MappedInside(rs, i, e); }
        assert Mapped(all, i, e);
      }
    }
    forall i: nat, e | Mapped(all, i, e) ensures e in s'.live && s'.live[e] == Backing(all[i].ts, all[i].host) {
      MappedInside(all, i, e);
      if i < n {
        assert s.live[e] == Backing(rs[i].ts, rs[i].host);
        NotMappedTwice(s, r, e);
      }
    }
  }

  lemma MappedInside(rs: seq<Record>, i: nat, e: Extent)
    requires Mapped(rs, i, e)
    ensures i < |rs|
  {
  }

  /** A live extent is not mapped again: it would clash with itself. */
  lemma NotMappedTwice(s: State, r: Record, e: Extent)
    requires e in s.live && Step(s, r).Ok?
    ensures !Maps(r, e)
  {
    assert Maps(r, e) ==> IpaClash(s, e);
  }

  lemma {:induction false} LiveExactly(rs: seq<Record>)
    requires Run(rs).Ok?
    ensures LiveAreMapped(rs, Run(rs).value)
    decreases |rs|
  {
    if rs != [] {
      var front, last := rs[..|rs| - 1], rs[|rs| - 1];
      LiveExactly(front);
      assert rs == front + [last];
      StepMapped(front, Run(front).value, last);
    }
  }

  predicate InRange(p: nat, a: nat, length: nat) {
    a <= p < a + length
  }

  /** Two ranges have an address in common. */
  ghost predicate Shares(a: nat, aLength: nat, b: nat, bLength: nat) {
    exists p: nat :: InRange(p, a, aLength) && InRange(p, b, bLength)
  }

  lemma OverlapShares(a: nat, aLength: nat, b: nat, bLength: nat)
    requires aLength > 0 && bLength > 0
    ensures Overlap(a, aLength, b, bLength) <==> Shares(a, aLength, b, bLength)
  {
    if Overlap(a, aLength, b, bLength) {
      var p := if a <= b then b else a;
      assert InRange(p, a, aLength) && InRange(p, b, bLength);
    }
  }

  /** No mapped extent of the same generation shares an address, or backing, with the new one. */
  ghost predicate Disjoint(rs: seq<Record>, r: Record)
    requires r.Stage2?
  {
    forall i: nat, x :: Mapped(rs, i, x) && x.pid == r.pid && x.vm == r.vm ==>
      !Shares(x.ipa, x.length, r.ipa, r.length) && !Shares(rs[i].host, x.length, r.host, r.length)
  }

  /** What the next record must look like after those in rs. */
  ghost predicate Admissible(rs: seq<Record>, r: Record) {
    var created := |Created(rs, r.pid)|;
    if r.Vm? then
      && r.pid != 0
      && match r.operation
         case 0 => !Open(rs, r.pid) && r.generation == created
         case 1 => !Open(rs, r.pid) && r.generation == created + 1
         case 2 => Open(rs, r.pid) && r.generation == created
         case 3 => Open(rs, r.pid) && r.generation == created
         case _ => false
    else
      && r.ipa != 0 && r.length != 0 && Open(rs, r.pid) && r.vm == created
      && match r.phase
         case 0 => r.host != 0 && Disjoint(rs, r)
         case 1 => r.host == 0 && r.perms == 0 && exists i: nat :: Mapped(rs, i, Extent(r.pid, r.vm, r.ipa, r.length))
         case _ => false
  }

  lemma ClashExactly(rs: seq<Record>, s: State, r: Record)
    requires LiveAreMapped(rs, s) && Consistent(s) && r.Stage2? && r.length > 0
    ensures var e := Extent(r.pid, r.vm, r.ipa, r.length);
            !IpaClash(s, e) && !HostClash(s, e, r.host) <==> Disjoint(rs, r)
  {
    var e := Extent(r.pid, r.vm, r.ipa, r.length);
    hide Mapped, Overlap, Shares;
    forall x | x in s.live ensures
      && (Overlap(x.ipa, x.length, r.ipa, r.length) <==> Shares(x.ipa, x.length, r.ipa, r.length))
      && (Overlap(s.live[x].host, x.length, r.host, r.length) <==> Shares(s.live[x].host, x.length, r.host, r.length))
    {
      OverlapShares(x.ipa, x.length, r.ipa, r.length);
      OverlapShares(s.live[x].host, x.length, r.host, r.length);
    }
    if Disjoint(rs, r) {
      forall x | x in s.live && x.pid == e.pid && x.vm == e.vm ensures
        !Overlap(x.ipa, x.length, e.ipa, e.length) && !Overlap(s.live[x].host, x.length, r.host, e.length)
      {
        var i: nat :| Mapped(rs, i, x);
      }
    }
  }

  lemma StepAdmissible(rs: seq<Record>, r: Record)
    requires Run(rs).Ok?
    ensures Step(Run(rs).value, r).Ok? <==> Admissible(rs, r)
  {
    var s := Run(rs).value;
    ActiveExactly(rs, r.pid);
    GenerationsConsecutive(rs, r.pid);
    LiveExactly(rs);
    RunConsistent(rs);
    hide Run, Created, Destroyed, Mapped, Disjoint, Consistent, IpaClash, HostClash;
    if r.Stage2? && r.length > 0 {
      ClashExactly(rs, s, r);
    }
  }

  /** A record is accepted exactly when it is admissible after those before it. */
  lemma AdmissibleExactly(rs: seq<Record>, r: Record)
    requires Run(rs).Ok?
    ensures Run(rs + [r]).Ok? <==> Admissible(rs, r)
  {
    assert (rs + [r])[..|rs|] == rs;
    StepAdmissible(rs, r);
  }

  ghost predicate AllAdmissible(rs: seq<Record>) {
    forall k :: 0 <= k < |rs| ==> Admissible(rs[..k], rs[k])
  }

  lemma AllAdmissibleStep(rs: seq<Record>)
    requires rs != []
    ensures var n := |rs| - 1; AllAdmissible(rs) <==> AllAdmissible(rs[..n]) && Admissible(rs[..n], rs[n])
  {
    hide Admissible;
    var n := |rs| - 1;
    assert forall k :: 0 <= k < n ==> rs[..n][..k] == rs[..k] && rs[..n][k] == rs[k];
  }

  lemma {:induction false} RunExactly(rs: seq<Record>)
    ensures Run(rs).Ok? <==> AllAdmissible(rs)
    decreases |rs|
  {
    if rs != [] {
      hide Admissible, AllAdmissible, Step;
      var n := |rs| - 1;
      RunExactly(rs[..n]);
      AllAdmissibleStep(rs);
      if Run(rs[..n]).Ok? {
        StepAdmissible(rs[..n], rs[n]);
      }
    }
  }

  /** Exactly the captures whose records, in time order, are each admissible after
      the earlier ones, and end with nothing mapped, have an index. */
  lemma IndexExactly(records: seq<Record>)
    ensures var rs := Sort(records, Time);
            Index(records).Ok? <==> AllAdmissible(rs) && forall i: nat, e :: !Mapped(rs, i, e)
  {
    var rs := Sort(records, Time);
    RunExactly(rs);
    hide AllAdmissible, Sort, Mapped, Run;
    if Run(rs).Ok? {
      LiveExactly(rs);
      var live := Run(rs).value.live;
      if live == map[] {
        forall i: nat, e ensures !Mapped(rs, i, e) {
        }
      } else {
        var e :| e in live;
        var i: nat :| Mapped(rs, i, e);
      }
    }
  }

  // ----- the index agrees with the replay

  predicate LiveAt(l: Lifetime, t: nat) {
    l.since <= t < l.until
  }

  predicate Spans(e: Extent, pid: nat, ipa: nat, length: nat) {
    e.pid == pid && e.ipa <= ipa && ipa + length <= e.ipa + e.length
  }

  predicate Stage2Contains(index: multiset<Lifetime>, t: nat, pid: nat, ipa: nat, length: nat) {
    exists l :: l in index && Spans(l.extent, pid, ipa, length) && LiveAt(l, t)
  }

  /** Some extent live in the replayed state covers the range. */
  ghost predicate CoveredIn(s: State, pid: nat, ipa: nat, length: nat) {
    exists e :: e in s.live && Spans(e, pid, ipa, length)
  }

  /** Everything recorded so far happened no later than t. */
  ghost predicate NoLaterThan(s: State, t: nat) {
    (forall e :: e in s.live ==> s.live[e].since <= t) && (forall l :: l in s.ended ==> l.until <= t)
  }

  lemma {:induction false} RunNoLaterThan(rs: seq<Record>, t: nat)
    requires Run(rs).Ok? && forall i :: 0 <= i < |rs| ==> rs[i].ts <= t
    ensures NoLaterThan(Run(rs).value, t)
    decreases |rs|
  {
    if rs != [] {
      RunNoLaterThan(rs[..|rs| - 1], t);
      assert rs[|rs| - 1].ts <= t;
    }
  }

  /** How a later state `s` remembers the state `p` that was current at time t:
      extents open since then are as they were, */
  ghost predicate KeepsOpen(p: State, s: State, t: nat) {
    forall e :: e in s.live && s.live[e].since <= t ==> e in p.live && p.live[e] == s.live[e]
  }

  /** a lifetime that spans t was open then, is recorded once and is over, */
  ghost predicate KeepsEnded(p: State, s: State, t: nat) {
    forall l :: l in s.ended && LiveAt(l, t) ==>
      && l.extent in p.live && p.live[l.extent].since == l.since && s.ended[l] == 1
      && !(l.extent in s.live && s.live[l.extent].since <= t)
  }

  /** no extent has two of them, */
  ghost predicate KeepsApart(s: State, t: nat) {
    forall l, m :: l in s.ended && m in s.ended && LiveAt(l, t) && LiveAt(m, t) && l.extent == m.extent ==> l == m
  }

  /** and every extent open then is still open or ended after t. */
  ghost predicate KeepsAll(p: State, s: State, t: nat) {
    forall e :: e in p.live ==> (e in s.live && s.live[e] == p.live[e]) || EndedAfter(s, e, p.live[e].since, t)
  }

  ghost predicate Remembers(p: State, s: State, t: nat) {
    KeepsOpen(p, s, t) && KeepsEnded(p, s, t) && KeepsApart(s, t) && KeepsAll(p, s, t)
  }

  ghost predicate EndedAfter(s: State, e: Extent, since: nat, t: nat) {
    exists l :: l in s.ended && l.extent == e && l.since == since && l.until > t
  }

  lemma CloseAdds(s: State, es: set<Extent>, ts: nat, l: Lifetime)
    requires es <= s.live.Keys
    ensures var added := l.extent in es && l == Lifetime(l.extent, s.live[l.extent].since, ts);
            Close(s, es, ts).ended[l] == s.ended[l] + if added then 1 else 0
  {
  }

  lemma CloseKeepsEnds(p: State, s: State, es: set<Extent>, ts: nat, t: nat, e: Extent)
    requires Remembers(p, s, t) && es <= s.live.Keys && t < ts && e in p.live
    ensures var s' := Close(s, es, ts);
            (e in s'.live && s'.live[e] == p.live[e]) || EndedAfter(s', e, p.live[e].since, t)
  {
    var s' := Close(s, es, ts);
    if e in s.live && s.live[e] == p.live[e] {
      CloseAdds(s, es, ts, Lifetime(e, s.live[e].since, ts));
    } else {
      var l :| l in s.ended && l.extent == e && l.since == p.live[e].since && l.until > t;
      assert l in s'.ended;
    }
  }

  lemma CloseKeepsEnded(p: State, s: State, es: set<Extent>, ts: nat, t: nat)
    requires KeepsOpen(p, s, t) && KeepsEnded(p, s, t) && es <= s.live.Keys && t < ts
    ensures KeepsEnded(p, Close(s, es, ts), t)
  {
    var s' := Close(s, es, ts);
    forall l | l in s'.ended && LiveAt(l, t)
      ensures && l.extent in p.live && p.live[l.extent].since == l.since && s'.ended[l] == 1
              && !(l.extent in s'.live && s'.live[l.extent].since <= t)
    {
      CloseAdds(s, es, ts, l);
    }
  }

  lemma CloseKeepsApart(p: State, s: State, es: set<Extent>, ts: nat, t: nat)
    requires KeepsEnded(p, s, t) && KeepsApart(s, t) && es <= s.live.Keys && t < ts
    ensures KeepsApart(Close(s, es, ts), t)
  {
    var s' := Close(s, es, ts);
    forall l, m | l in s'.ended && m in s'.ended && LiveAt(l, t) && LiveAt(m, t) && l.extent == m.extent ensures l == m {
      CloseAdds(s, es, ts, l);
      CloseAdds(s, es, ts, m);
    }
  }

  lemma CloseRemembers(p: State, s: State, es: set<Extent>, ts: nat, t: nat)
    requires Remembers(p, s, t) && es <= s.live.Keys && t < ts
    ensures Remembers(p, Close(s, es, ts), t)
  {
    hide EndedAfter, KeepsEnded, KeepsApart;
    CloseKeepsEnded(p, s, es, ts, t);
    CloseKeepsApart(p, s, es, ts, t);
    forall e | e in p.live
      ensures var s' := Close(s, es, ts);
              (e in s'.live && s'.live[e] == p.live[e]) || EndedAfter(s', e, p.live[e].since, t)
    {
      CloseKeepsEnds(p, s, es, ts, t, e);
    }
  }

  lemma EndedAfterSame(s: State, s': State, e: Extent, n: nat, t: nat)
    requires s'.ended == s.ended
    ensures EndedAfter(s, e, n, t) <==> EndedAfter(s', e, n, t)
  {
  }

  /** Changing generations, or mapping an extent after t, changes nothing that is remembered. */
  lemma MapRemembers(p: State, s: State, s': State, t: nat)
    requires Remembers(p, s, t) && s'.ended == s.ended
    requires forall e :: e in s.live ==> e in s'.live && s'.live[e] == s.live[e]
    requires forall e :: e in s'.live && e !in s.live ==> s'.live[e].since > t
    ensures Remembers(p, s', t)
  {
    hide EndedAfter;
    forall e, n | e in p.live ensures EndedAfter(s, e, n, t) <==> EndedAfter(s', e, n, t) {
      EndedAfterSame(s, s', e, n, t);
    }
  }

  lemma StepRemembers(p: State, s: State, r: Record, t: nat)
    requires Remembers(p, s, t) && Consistent(s) && Step(s, r).Ok? && t < r.ts
    ensures Remembers(p, Step(s, r).value, t)
  {
    hide Remembers;
    var s' := Step(s, r).value;
    if r.Vm? && r.operation == 3 {
      var closed := Close(s, ExtentsOf(s, r.pid, r.generation), r.ts);
      CloseRemembers(p, s, ExtentsOf(s, r.pid, r.generation), r.ts, t);
      MapRemembers(p, closed, s', t);
    } else if r.Stage2? && r.phase == 1 {
      CloseRemembers(p, s, {Extent(r.pid, r.vm, r.ipa, r.length)}, r.ts, t);
    } else if r.Stage2? {
      var e := Extent(r.pid, r.vm, r.ipa, r.length);
      assert e !in s.live by {
        assert e in s.live ==> Overlap(e.ipa, e.length, e.ipa, e.length);
      }
      MapRemembers(p, s, s', t);
    } else {
      MapRemembers(p, s, s', t);
    }
  }

  lemma {:induction false} RunRemembers(rs: seq<Record>, k: nat, t: nat)
    requires k <= |rs| && Run(rs).Ok?
    requires forall i :: 0 <= i < k ==> rs[i].ts <= t
    requires forall i :: k <= i < |rs| ==> t < rs[i].ts
    ensures Run(rs[..k]).Ok? && NoLaterThan(Run(rs[..k]).value, t)
    ensures Remembers(Run(rs[..k]).value, Run(rs).value, t)
    decreases |rs|
  {
    PrefixAccepted(rs, k);
    RunNoLaterThan(rs[..k], t);
    if k == |rs| {
      assert rs[..k] == rs;
    } else {
      var shorter := rs[..|rs| - 1];
      RunRemembers(shorter, k, t);
      assert shorter[..k] == rs[..k];
      RunConsistent(shorter);
      StepRemembers(Run(rs[..k]).value, Run(shorter).value, rs[|rs| - 1], t);
    }
  }

  /** How many records are stamped t or earlier; in an ordered capture they come first. */
  function UpTo(rs: seq<Record>, t: nat): (k: nat)
    requires Ordered(rs, Time)
    ensures k <= |rs| && (forall i :: 0 <= i < k ==> rs[i].ts <= t) && (forall i :: k <= i < |rs| ==> t < rs[i].ts)
  {
    if rs == [] then 0
    else if rs[|rs| - 1].ts <= t then
      assert forall i :: 0 <= i < |rs| - 1 ==> Time(rs[i]) <= Time(rs[|rs| - 1]);
      |rs|
    else UpTo(rs[..|rs| - 1], t)
  }

  /** In an accepted capture the index answers exactly what the replayed state at
      time t answers, and for a nonempty range the covering lifetime is unique,
      across generations and equal timestamps. */
  lemma IndexAgreesWithReplay(records: seq<Record>, t: nat, pid: nat, ipa: nat, length: nat)
    requires Index(records).Ok?
    ensures Ordered(Sort(records, Time), Time)
    ensures var rs := Sort(records, Time);
            var now := Run(rs[..UpTo(rs, t)]);
            now.Ok? && (Stage2Contains(Index(records).value, t, pid, ipa, length) <==> CoveredIn(now.value, pid, ipa, length))
    ensures forall l, m ::
              (&& l in Index(records).value && Spans(l.extent, pid, ipa, length) && LiveAt(l, t)
               && m in Index(records).value && Spans(m.extent, pid, ipa, length) && LiveAt(m, t) && length > 0) ==>
              l == m && Index(records).value[l] == 1
  {
    hide Run, Sort, UpTo, WithKey;
    SortIsStable(records, Time, 0);
    var rs := Sort(records, Time);
    var k := UpTo(rs, t);
    RunRemembers(rs, k, t);
    EveryStepConsistent(rs, k);
    var now, end := Run(rs[..k]).value, Run(rs).value;
    if CoveredIn(now, pid, ipa, length) {
      var e :| e in now.live && Spans(e, pid, ipa, length);
      assert EndedAfter(end, e, now.live[e].since, t);
    }
    forall l, m | l in end.ended && m in end.ended && length > 0 &&
      Spans(l.extent, pid, ipa, length) && LiveAt(l, t) && Spans(m.extent, pid, ipa, length) && LiveAt(m, t)
      ensures l == m && end.ended[l] == 1
    {
      assert l.extent != m.extent ==> Apart(now, l.extent, m.extent);
    }
  }

  /** Every address of the range lies in the extent. */
  ghost predicate Holds(e: Extent, ipa: nat, length: nat) {
    forall p: nat :: InRange(p, ipa, length) ==> InRange(p, e.ipa, e.length)
  }

  lemma SpansHolds(e: Extent, pid: nat, ipa: nat, length: nat)
    requires length > 0
    ensures Spans(e, pid, ipa, length) <==> e.pid == pid && Holds(e, ipa, length)
  {
    if Holds(e, ipa, length) {
      assert InRange(ipa, ipa, length) && InRange(ipa + length - 1, ipa, length);
    }
  }

  /** The index, said of the records: it holds a range at time t exactly when some
      record stamped t or earlier maps an extent around it that no later record
      stamped t or earlier has ended. */
  lemma IndexAgreesWithRecords(records: seq<Record>, t: nat, pid: nat, ipa: nat, length: nat)
    requires Index(records).Ok? && length > 0
    ensures var rs := Sort(records, Time);
            Ordered(rs, Time) &&
            (Stage2Contains(Index(records).value, t, pid, ipa, length) <==>
             exists i: nat, e :: Mapped(rs[..UpTo(rs, t)], i, e) && e.pid == pid && Holds(e, ipa, length))
  {
    IndexAgreesWithReplay(records, t, pid, ipa, length);
    var rs := Sort(records, Time);
    var k := UpTo(rs, t);
    var now := Run(rs[..k]).value;
    hide Run, Index, Sort, Mapped, Holds, Spans, Stage2Contains, UpTo;
    LiveExactly(rs[..k]);
    forall e ensures Spans(e, pid, ipa, length) <==> e.pid == pid && Holds(e, ipa, length) {
      SpansHolds(e, pid, ipa, length);
    }
    if CoveredIn(now, pid, ipa, length) {
      var e :| e in now.live && Spans(e, pid, ipa, length);
      var i: nat :| Mapped(rs[..k], i, e);
    }
  }

  // ----- the replay as the script runs it

  /** Pops the extents of one generation one by one, in any order. */
  method EndGeneration(s: State, pid: nat, generation: nat, ts: nat) returns (live: map<Extent, Backing>, ended: multiset<Lifetime>)
    ensures State(s.vms, live, ended) == Close(s, ExtentsOf(s, pid, generation), ts)
  {
    live, ended := s.live, s.ended;
    var keys := ExtentsOf(s, pid, generation);
    ghost var popped := {};
    while keys != {}
      invariant keys !! popped && keys + popped == ExtentsOf(s, pid, generation)
      invariant State(s.vms, live, ended) == Close(s, popped, ts)
      decreases keys
    {
      var e :| e in keys;
      CloseOneMore(s, popped, e, ts);
      ended := ended + multiset{Lifetime(e, live[e].since, ts)};
      live := live - {e};
      keys, popped := keys - {e}, popped + {e};
    }
    assert popped == ExtentsOf(s, pid, generation);
  }

  lemma CloseOneMore(s: State, es: set<Extent>, e: Extent, ts: nat)
    requires es <= s.live.Keys && e in s.live && e !in es
    ensures Close(s, es + {e}, ts) ==
            State(s.vms, s.live - es - {e}, Close(s, es, ts).ended + multiset{Lifetime(e, s.live[e].since, ts)})
  {
  }

  method ReplayVm(s: State, r: Record) returns (next: Result<State>)
    requires r.Vm?
    ensures next == Step(s, r)
  {
    var Generation(previous, active) := CurrentVm(s, r.pid);
    if r.pid == 0 || r.operation !in {0, 1, 2, 3} { return Err; }
    match r.operation {
      case 0 =>
        if active || r.generation != previous { return Err; }
        next := Ok(s);
      case 1 =>
        if active || r.generation != previous + 1 { return Err; }
        next := Ok(s.(vms := s.vms[r.pid := Generation(r.generation, true)]));
      case 2 =>
        if !active || r.generation != previous { return Err; }
        next := Ok(s);
      case _ =>
        if !active || r.generation != previous { return Err; }
        var live, ended := EndGeneration(s, r.pid, r.generation, r.ts);
        next := Ok(State(s.vms[r.pid := Generation(r.generation, false)], live, ended));
    }
  }

  method ReplayStage2(s: State, r: Record) returns (next: Result<State>)
    requires r.Stage2?
    ensures next == Step(s, r)
  {
    var e := Extent(r.pid, r.vm, r.ipa, r.length);
    if r.ipa == 0 || r.length == 0 { return Err; }
    if r.pid !in s.vms || s.vms[r.pid] != Generation(r.vm, true) { return Err; }
    if r.phase == 0 {
      if r.host == 0 { return Err; }
      var left := s.live.Keys;
      while left != {}
        invariant left <= s.live.Keys
        invariant forall x :: x in s.live && x !in left && x.pid == e.pid && x.vm == e.vm ==>
          !Overlap(x.ipa, x.length, e.ipa, e.length) && !Overlap(s.live[x].host, x.length, r.host, e.length)
        decreases left
      {
        var x :| x in left;
        if x.pid == e.pid && x.vm == e.vm &&
           (Overlap(x.ipa, x.length, e.ipa, e.length) || Overlap(s.live[x].host, x.length, r.host, e.length)) {
          return Err;
        }
        left := left - {x};
      }
      next := Ok(s.(live := s.live[e := Backing(r.ts, r.host)]));
    } else if r.phase == 1 {
      if r.host != 0 || r.perms != 0 || e !in s.live { return Err; }
      CloseOneMore(s, {}, e, r.ts);
      CloseNone(s, r.ts);
      assert {} + {e} == {e} && s.live - {} == s.live;
      next := Ok(State(s.vms, s.live - {e}, s.ended + multiset{Lifetime(e, s.live[e].since, r.ts)}));
    } else {
      next := Err;
    }
  }

  method Replay(records: seq<Record>) returns (index: Result<multiset<Lifetime>>)
    ensures index == Index(records)
  {
    var rs := Sort(records, Time);
    var s := INITIAL;
    var i := 0;
    while i < |rs|
      invariant 0 <= i <= |rs| && Run(rs[..i]) == Ok(s)
    {
      assert rs[..i + 1][..i] == rs[..i];
      var next;
      if rs[i].Vm? {
        next := ReplayVm(s, rs[i]);
      } else {
        next := ReplayStage2(s, rs[i]);
      }
      if next.Err? {
        RejectedForGood(rs, i + 1);
        return Err;
      }
      s, i := next.value, i + 1;
    }
    assert rs[..|rs|] == rs;
    index := if s.live != map[] then Err else Ok(s.ended);
  }

  lemma CloseNone(s: State, ts: nat)
    ensures Close(s, {}, ts) == s
  {
  }

  lemma RejectedForGood(rs: seq<Record>, k: nat)
    requires k <= |rs| && Run(rs[..k]).Err?
    ensures Run(rs).Err?
  {
    if Run(rs).Ok? {
      PrefixAccepted(rs, k);
    }
  }
}
