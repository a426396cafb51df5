/** The process-lineage replay (`parse_lineage`) and the live-state census
    (`advance_live_state_census`) of the one-carrier topology gate. */
module CarrierTopology {
  import opened StableSort
  import opened Wrappers

  datatype Event =
    | Create(time: int, parent: int, child: int)
    | Exec(time: int, pid: int, name: string)
    | Exit(time: int, pid: int)

  datatype Birth = Birth(parent: int, child: int)
  datatype Ledger = Ledger(target: int, births: seq<Birth>, execNames: map<int, string>, exited: set<int>)
  datatype Replay = Replay(ledger: Ledger, live: set<int>, created: set<int>)
  datatype Summary = Summary(target: int, births: int, exits: int, live: int, complete: int, errors: int)

  function AllPids(l: Ledger): set<int> {
    {l.target} + set b | b in l.births :: b.child
  }

  function Time(e: Event): int { e.time }

  function Start(target: int): Replay {
    Replay(Ledger(target, [], map[], {}), {target}, {})
  }

  function Step(r: Replay, e: Event): Result<Replay> {
    if e.time <= 0 then Err
    else match e
      case Create(_, parent, child) =>
        if parent !in r.live || child in r.live || child in r.created then Err
        else Ok(Replay(r.ledger.(births := r.ledger.births + [Birth(parent, child)]), r.live + {child}, r.created + {child}))
      case Exec(_, pid, name) =>
        if pid !in r.live || pid == r.ledger.target || name == "" || pid in r.ledger.execNames then Err
        else Ok(r.(ledger := r.ledger.(execNames := r.ledger.execNames[pid := name])))
      case Exit(_, pid) =>
        if pid !in r.live then Err
        else Ok(r.(live := r.live - {pid}, ledger := r.ledger.(exited := r.ledger.exited + {pid})))
  }

  function Run(target: int, es: seq<Event>): Result<Replay> {
    if es == [] then Ok(Start(target))
    else
      var before := Run(target, es[..|es| - 1]);
      if before.Err? then Err else Step(before.value, es[|es| - 1])
  }

  predicate Closes(r: Replay, s: Summary) {
    && s.target == r.ledger.target && s.errors == 0
    && s.births == |r.ledger.births| && s.exits == |r.ledger.exited|
    && r.live == {} && s.live == 0 && s.complete == 1
  }

  function Lineage(target: int, events: seq<Event>, s: Summary): Result<Ledger> {
    var end := Run(target, Sort(events, Time));
    if end.Err? || !Closes(end.value, s) || end.value.ledger.exited != AllPids(end.value.ledger) then Err
    else Ok(end.value.ledger)
  }

  method ParseLineage(target: int, events: seq<Event>, s: Summary) returns (r: Result<Ledger>)
    ensures r == Lineage(target, events, s)
  {
    var es := Sort(events, Time);
    var births: seq<Birth>, execNames: map<int, string>, exited: set<int> := [], map[], {};
    var live, created: set<int> := {target}, {};
    var i := 0;
    while i < |es|
      invariant 0 <= i <= |es|
      invariant Run(target, es[..i]) == Ok(Replay(Ledger(target, births, execNames, exited), live, created))
    {
      assert es[..i + 1][..i] == es[..i];
      ghost var before := Replay(Ledger(target, births, execNames, exited), live, created);
      assert Run(target, es[..i + 1]) == Step(before, es[i]);
      if Step(before, es[i]).Err? { RejectedForGood(target, es, i + 1); }
      if es[i].time <= 0 { return Err; }
      match es[i] {
        case Create(_, parent, child) =>
          if parent !in live { return Err; }
          if child in live || child in created { return Err; }
          births := births + [Birth(parent, child)];
          created := created + {child};
          live := live + {child};
        case Exec(_, pid, name) =>
          if pid !in live || pid == target || name == "" { return Err; }
          if pid in execNames { return Err; }
          execNames := execNames[pid := name];
        case Exit(_, pid) =>
          if pid !in live { return Err; }
          live := live - {pid};
          exited := exited + {pid};
      }
      i := i + 1;
    }
    assert es[..|es|] == es;
    var ledger := Ledger(target, births, execNames, exited);
    if s.target != target || s.errors != 0 || s.births != |births| || s.exits != |exited| { return Err; }
    if live != {} || s.live != 0 || s.complete != 1 { return Err; }
    if exited != AllPids(ledger) { return Err; }
    r := Ok(ledger);
  }

  lemma {:induction false} PrefixAccepted(target: int, es: seq<Event>, k: nat)
    requires Run(target, es).Ok? && k <= |es|
    ensures Run(target, es[..k]).Ok?
    decreases |es|
  {
    if k < |es| {
      PrefixAccepted(target, es[..|es| - 1], k);
      assert es[..|es| - 1][..k] == es[..k];
    } else {
      assert es[..k] == es;
    }
  }

  lemma RejectedForGood(target: int, es: seq<Event>, k: nat)
    requires k <= |es| && Run(target, es[..k]).Err?
    ensures Run(target, es).Err?
  {
    if Run(target, es).Ok? {
      PrefixAccepted(target, es, k);
    }
  }

  // ----- what the replay keeps

  /** The parent of birth i is the target or was itself born strictly earlier. */
  ghost predicate Rooted(l: Ledger, i: nat)
    requires i < |l.births|
  {
    l.births[i].parent == l.target || exists j :: 0 <= j < i && l.births[j].child == l.births[i].parent
  }

  ghost predicate Tracked(r: Replay) {
    var l := r.ledger;
    && r.live + l.exited == {l.target} + r.created
    && r.created == (set b | b in l.births :: b.child)
    && (forall i, j :: 0 <= i < j < |l.births| ==> l.births[i].child != l.births[j].child)
    && (forall i :: 0 <= i < |l.births| ==> Rooted(l, i))
    && l.execNames.Keys <= r.created
  }

  lemma StepTracked(r: Replay, e: Event)
    requires Tracked(r) && Step(r, e).Ok?
    ensures Tracked(Step(r, e).value)
  {
    var r' := Step(r, e).value;
    var l, l' := r.ledger, r'.ledger;
    if e.Create? {
      forall i | 0 <= i < |l'.births| ensures Rooted(l', i) {
        if i < |l.births| {
          assert Rooted(l, i);
          if l.births[i].parent != l.target {
            var j :| 0 <= j < i && l.births[j].child == l.births[i].parent;
            assert l'.births[j].child == l'.births[i].parent;
          }
        } else if e.parent != l.target {
          assert e.parent in r.created;
          var j :| 0 <= j < |l.births| && l.births[j].child == e.parent;
          assert l'.births[j].child == l'.births[i].parent;
        }
      }
      assert r'.created == set b | b in l'.births :: b.child;
    } else {
      forall i | 0 <= i < |l'.births| ensures Rooted(l', i) {
        assert Rooted(l, i);
      }
    }
  }

  lemma {:induction false} RunTracked(target: int, es: seq<Event>)
    requires Run(target, es).Ok?
    ensures Tracked(Run(target, es).value) && Run(target, es).value.ledger.target == target
    decreases |es|
  {
    if es != [] {
      RunTracked(target, es[..|es| - 1]);
      StepTracked(Run(target, es[..|es| - 1]).value, es[|es| - 1]);
    }
  }

  /** From every born process a chain of strictly earlier births leads to the target. */
  lemma {:induction false} ReachesTarget(l: Ledger, i: nat) returns (chain: seq<nat>)
    requires i < |l.births| && forall j :: 0 <= j < |l.births| ==> Rooted(l, j)
    ensures chain != [] && chain[0] == i && forall k :: 0 <= k < |chain| ==> chain[k] < |l.births|
    ensures forall k :: 0 <= k < |chain| - 1 ==>
              chain[k + 1] < chain[k] && l.births[chain[k + 1]].child == l.births[chain[k]].parent
    ensures l.births[chain[|chain| - 1]].parent == l.target
    decreases i
  {
    assert Rooted(l, i);
    if l.births[i].parent == l.target {
      chain := [i];
    } else {
      var j :| 0 <= j < i && l.births[j].child == l.births[i].parent;
      var rest := ReachesTarget(l, j);
      chain := [i] + rest;
    }
  }

  /** Each accepted birth had a parent live at that moment and a child never born before. */
  lemma BirthFromLiveParent(target: int, es: seq<Event>, k: nat)
    requires Run(target, es).Ok? && k < |es| && es[k].Create?
    ensures var before := Run(target, es[..k]);
            && before.Ok? && es[k].parent in before.value.live
            && es[k].child !in before.value.created && es[k].child !in before.value.live
  {
    PrefixAccepted(target, es, k + 1);
    assert es[..k + 1][..k] == es[..k];
  }

  /** Whenever nothing is left alive, births and exits already cover each other:
      the final coverage check cannot fail. */
  lemma CoverageImplied(target: int, es: seq<Event>)
    requires Run(target, es).Ok? && Run(target, es).value.live == {}
    ensures Run(target, es).value.ledger.exited == AllPids(Run(target, es).value.ledger)
  {
    RunTracked(target, es);
  }

  lemma {:induction false} ChildrenCount(births: seq<Birth>)
    requires forall i, j :: 0 <= i < j < |births| ==> births[i].child != births[j].child
    ensures |set b | b in births :: b.child| == |births|
    decreases |births|
  {
    if births != [] {
      var n := |births| - 1;
      var front := births[..n];
      ChildrenCount(front);
      assert births == front + [births[n]];
      assert (set b | b in births :: b.child) == (set b | b in front :: b.child) + {births[n].child};
    }
  }

  /** The creations among the events, in order. */
  function Births(es: seq<Event>): (births: seq<Birth>)
    ensures forall b :: b in births ==> exists e :: e in es && e.Create? && Birth(e.parent, e.child) == b
    ensures forall e :: e in es && e.Create? ==> Birth(e.parent, e.child) in births
  {
    if es == [] then []
    else
      var last := es[|es| - 1];
      Births(es[..|es| - 1]) + if last.Create? then [Birth(last.parent, last.child)] else []
  }

  lemma {:induction false} BirthsAreCreations(target: int, es: seq<Event>)
    requires Run(target, es).Ok?
    ensures Run(target, es).value.ledger.births == Births(es)
    decreases |es|
  {
    if es != [] {
      BirthsAreCreations(target, es[..|es| - 1]);
    }
  }

  /** Exits outnumber births by one exactly when no event creates the target's PID anew. */
  lemma ExitsCountBirths(target: int, events: seq<Event>, s: Summary)
    requires Lineage(target, events, s).Ok?
    ensures var l := Lineage(target, events, s).value;
            |l.exited| == |l.births| + 1 <==> forall e :: e in events && e.Create? ==> e.child != target
  {
    var es := Sort(events, Time);
    var l := Lineage(target, events, s).value;
    RunTracked(target, es);
    BirthsAreCreations(target, es);
    SortPermutes(events, Time);
    assert forall e :: (e in events <==> e in multiset(events)) && (e in es <==> e in multiset(es));
    ChildrenCount(l.births);
    var born := set b | b in l.births :: b.child;
    if target in born {
      assert AllPids(l) == born;
    } else {
      assert |AllPids(l)| == 1 + |born|;
    }
  }

  // ----- the lineage, said of the events alone

  /** The process appears at event i, or is the target with i -1, and does not exit after that. */
  ghost predicate AliveSince(target: int, es: seq<Event>, pid: int, i: int) {
    && -1 <= i < |es| && (if i == -1 then pid == target else es[i].Create? && es[i].child == pid)
    && forall j :: i < j < |es| ==> !(es[j].Exit? && es[j].pid == pid)
  }

  ghost predicate Alive(target: int, es: seq<Event>, pid: int) {
    exists i :: AliveSince(target, es, pid, i)
  }

  predicate EverCreated(es: seq<Event>, pid: int) {
    exists e :: e in es && e.Create? && e.child == pid
  }

  function ExitedPids(es: seq<Event>): set<int> {
    set e | e in es && e.Exit? :: e.pid
  }

  lemma AliveStep(target: int, es: seq<Event>, e: Event, pid: int)
    ensures Alive(target, es + [e], pid) <==>
            (e.Create? && e.child == pid) || (Alive(target, es, pid) && !(e.Exit? && e.pid == pid))
  {
    var n, all := |es|, es + [e];
    forall i ensures AliveSince(target, all, pid, i) <==>
      if i == n then e.Create? && e.child == pid
      else AliveSince(target, es, pid, i) && !(e.Exit? && e.pid == pid)
    {
      assert forall j :: 0 <= j < n ==> all[j] == es[j];
      assert all[n] == e;
    }
    if Alive(target, es, pid) && !(e.Exit? && e.pid == pid) {
      var i :| AliveSince(target, es, pid, i);
      assert AliveSince(target, all, pid, i);
    }
    if e.Create? && e.child == pid {
      assert AliveSince(target, all, pid, n);
    }
  }

  /** What the replay has gathered, in terms of the events. */
  ghost predicate Gathers(target: int, es: seq<Event>, r: Replay) {
    GathersPids(target, es, r) && GathersNames(es, r.ledger.execNames) && r.ledger.target == target
  }

  ghost predicate GathersPids(target: int, es: seq<Event>, r: Replay) {
    && (forall pid :: pid in r.live <==> Alive(target, es, pid))
    && (forall pid :: pid in r.created <==> EverCreated(es, pid))
    && r.ledger.births == Births(es) && r.ledger.exited == ExitedPids(es)
  }

  /** The names are those of the exec events, one for each process. */
  ghost predicate GathersNames(es: seq<Event>, names: map<int, string>) {
    && (forall pid :: pid in names ==> Execs(es, pid, names[pid]))
    && (forall e :: e in es && e.Exec? ==> e.pid in names && names[e.pid] == e.name)
  }

  ghost predicate Execs(es: seq<Event>, pid: int, name: string) {
    exists e :: e in es && e.Exec? && e.pid == pid && e.name == name
  }

  lemma StepCreated(es: seq<Event>, e: Event, pid: int)
    ensures EverCreated(es + [e], pid) <==> EverCreated(es, pid) || (e.Create? && e.child == pid)
  {
    assert forall x :: x in es + [e] <==> x in es || x == e;
    if e.Create? && e.child == pid {
      assert e in es + [e];
    }
  }

  lemma StepExited(es: seq<Event>, e: Event)
    ensures ExitedPids(es + [e]) == ExitedPids(es) + if e.Exit? then {e.pid} else {}
    ensures Births(es + [e]) == Births(es) + if e.Create? then [Birth(e.parent, e.child)] else []
  {
    assert forall x :: x in es + [e] <==> x in es || x == e;
    assert (es + [e])[..|es|] == es;
  }

  lemma StepPids(target: int, es: seq<Event>, r: Replay, e: Event)
    requires GathersPids(target, es, r) && Step(r, e).Ok?
    ensures GathersPids(target, es + [e], Step(r, e).value)
  {
    var all := es + [e];
    hide Alive, EverCreated, ExitedPids, Births;
    forall pid ensures
      && (Alive(target, all, pid) <==> (e.Create? && e.child == pid) || (Alive(target, es, pid) && !(e.Exit? && e.pid == pid)))
      && (EverCreated(all, pid) <==> EverCreated(es, pid) || (e.Create? && e.child == pid))
    {
      AliveStep(target, es, e, pid);
      StepCreated(es, e, pid);
    }
    StepExited(es, e);
  }

  lemma StepNames(es: seq<Event>, r: Replay, e: Event)
    requires GathersNames(es, r.ledger.execNames) && Step(r, e).Ok?
    ensures GathersNames(es + [e], Step(r, e).value.ledger.execNames)
  {
    var all, names, names' := es + [e], r.ledger.execNames, Step(r, e).value.ledger.execNames;
    assert forall x :: x in all <==> x in es || x == e;
    forall pid | pid in names' ensures Execs(all, pid, names'[pid]) {
      if pid in names {
        assert Execs(es, pid, names[pid]);
        var x :| x in es && x.Exec? && x.pid == pid && x.name == names[pid];
        assert x in all;
      } else {
        assert e in all && e.Exec?;
      }
    }
  }

  lemma StepGathers(target: int, es: seq<Event>, r: Replay, e: Event)
    requires Gathers(target, es, r) && Step(r, e).Ok?
    ensures Gathers(target, es + [e], Step(r, e).value)
  {
    StepPids(target, es, r, e);
    StepNames(es, r, e);
    hide GathersPids, GathersNames;
  }

  lemma StartGathers(target: int)
    ensures Gathers(target, [], Start(target))
  {
    forall pid ensures Alive(target, [], pid) <==> pid == target {
      if pid == target {
        assert AliveSince(target, [], pid, -1);
      }
    }
  }

  lemma {:induction false} RunGathers(target: int, es: seq<Event>)
    requires Run(target, es).Ok?
    ensures Gathers(target, es, Run(target, es).value)
    decreases |es|
  {
    hide Gathers, Step;
    if es == [] {
      StartGathers(target);
    } else {
      var front, last := es[..|es| - 1], es[|es| - 1];
      RunGathers(target, front);
      assert es == front + [last];
      StepGathers(target, front, Run(target, front).value, last);
    }
  }

  /** What the next event must look like after those in es. */
  ghost predicate Admissible(target: int, es: seq<Event>, e: Event) {
    && e.time > 0
    && match e
       case Create(_, parent, child) => Alive(target, es, parent) && !Alive(target, es, child) && !EverCreated(es, child)
       case Exec(_, pid, name) =>
         Alive(target, es, pid) && pid != target && name != "" && !exists x :: x in es && x.Exec? && x.pid == pid
       case Exit(_, pid) => Alive(target, es, pid)
  }

  lemma StepAdmissible(target: int, es: seq<Event>, r: Replay, e: Event)
    requires Gathers(target, es, r)
    ensures Step(r, e).Ok? <==> Admissible(target, es, e)
  {
    hide Alive, EverCreated;
    if e.Exec? && e.pid in r.ledger.execNames {
      assert Execs(es, e.pid, r.ledger.execNames[e.pid]);
    }
  }

  ghost predicate AllAdmissible(target: int, es: seq<Event>) {
    forall k :: 0 <= k < |es| ==> Admissible(target, es[..k], es[k])
  }

  lemma AllAdmissibleStep(target: int, es: seq<Event>)
    requires es != []
    ensures var n := |es| - 1;
            AllAdmissible(target, es) <==> AllAdmissible(target, es[..n]) && Admissible(target, es[..n], es[n])
  {
    hide Admissible;
    var n := |es| - 1;
    assert forall k :: 0 <= k < n ==> es[..n][..k] == es[..k] && es[..n][k] == es[k];
  }

  lemma {:induction false} RunExactly(target: int, es: seq<Event>)
    ensures Run(target, es).Ok? <==> AllAdmissible(target, es)
    decreases |es|
  {
    if es != [] {
      hide Admissible, AllAdmissible, Gathers, Step;
      var n := |es| - 1;
      RunExactly(target, es[..n]);
      AllAdmissibleStep(target, es);
      if Run(target, es[..n]).Ok? {
        RunGathers(target, es[..n]);
        StepAdmissible(target, es[..n], Run(target, es[..n]).value, es[n]);
      }
    }
  }

  lemma AnyOf(s: set<int>) returns (pid: int)
    requires s != {}
    ensures pid in s
  {
    assert (forall x: int :: x !in s) ==> s == {};
    pid :| pid in s;
  }

  /** The summary closes against the events: as many births as creations, as many
      exits as processes that exited, nobody left, no error. */
  ghost predicate SummaryCloses(target: int, es: seq<Event>, s: Summary) {
    && s.target == target && s.births == |Births(es)| && s.exits == |ExitedPids(es)|
    && s.live == 0 && s.errors == 0 && s.complete == 1
  }

  /** A lineage is accepted exactly when its events, in time order, are each
      admissible after the earlier ones, nobody is left alive and the summary
      closes; the ledger then holds the events' births, names and exits. */
  lemma LineageExactly(target: int, events: seq<Event>, s: Summary)
    ensures var es := Sort(events, Time);
            Lineage(target, events, s).Ok? <==>
              AllAdmissible(target, es) && SummaryCloses(target, es, s) && forall pid :: !Alive(target, es, pid)
    ensures Lineage(target, events, s).Ok? ==>
      var es, l := Sort(events, Time), Lineage(target, events, s).value;
      && l.target == target && l.births == Births(es) && l.exited == ExitedPids(es)
      && GathersNames(es, l.execNames)
  {
    var es := Sort(events, Time);
    RunExactly(target, es);
    hide Run, AllAdmissible, Sort, Alive, EverCreated, AllPids, Births, ExitedPids;
    if Run(target, es).Ok? {
      RunGathers(target, es);
      var r := Run(target, es).value;
      if r.live == {} {
        CoverageImplied(target, es);
      } else {
        var pid := AnyOf(r.live);
        assert Alive(target, es, pid);
      }
    }
  }

  /** The target's PID can be born again: the replay forbids reuse of live and of
      created PIDs, and an exited target is neither. */
  lemma TargetBornAgain(t: int, a: int)
    requires t != a
    ensures Lineage(t, [Create(1, t, a), Exit(2, t), Create(3, a, t), Exit(4, t), Exit(5, a)], Summary(t, 2, 2, 0, 1, 0)) ==
            Ok(Ledger(t, [Birth(t, a), Birth(a, t)], map[], {t, a}))
  {
    var e0, e1, e2, e3, e4 := Create(1, t, a), Exit(2, t), Create(3, a, t), Exit(4, t), Exit(5, a);
    SortOfOrdered([e0, e1, e2, e3, e4], Time);
    hide Sort, Run;
    var end := Ledger(t, [Birth(t, a), Birth(a, t)], map[], {t, a});
    RebornRun(t, a, e0, e1, e2, e3, e4, end);
    assert end.births[0] in end.births && end.births[1] in end.births;
    assert AllPids(end) == {t, a} && |{t, a}| == 2;
  }

  lemma RebornRun(t: int, a: int, e0: Event, e1: Event, e2: Event, e3: Event, e4: Event, end: Ledger)
    requires t != a && e0 == Create(1, t, a) && e1 == Exit(2, t) && e2 == Create(3, a, t) && e3 == Exit(4, t) && e4 == Exit(5, a)
    requires end == Ledger(t, [Birth(t, a), Birth(a, t)], map[], {t, a})
    ensures Run(t, [e0, e1, e2, e3, e4]) == Ok(Replay(end, {}, {a, t}))
  {
    assert Run(t, []) == Ok(Start(t));
    hide Run;
    Snoc(t, [], e0);
    Snoc(t, [e0], e1);
    Snoc(t, [e0, e1], e2);
    Snoc(t, [e0, e1, e2], e3);
    Snoc(t, [e0, e1, e2, e3], e4);
    assert [] + [e0] == [e0] && [e0] + [e1] == [e0, e1] && [e0, e1] + [e2] == [e0, e1, e2];
    assert [e0, e1, e2] + [e3] == [e0, e1, e2, e3] && [e0, e1, e2, e3] + [e4] == [e0, e1, e2, e3, e4];
    var s5 := Run(t, [e0, e1, e2, e3, e4]).value;
    assert s5.live == {} && s5.created == {a, t} && s5.ledger.exited == {t, a};
    assert s5.ledger.births == [Birth(t, a), Birth(a, t)];
    assert s5 == Replay(end, {}, {a, t});
  }

  lemma Snoc(target: int, es: seq<Event>, e: Event)
    ensures Run(target, es + [e]) == if Run(target, es).Err? then Err else Step(Run(target, es).value, e)
  {
  }

  // ----- the census

  /** One `ps` sample: process states by PID, and the PIDs live in the ledger then. */
  datatype Sample = Sample(now: real, states: map<int, string>, tracked: set<int>)

  /** A tracked process whose state starts with the letter. */
  predicate In(s: Sample, pid: int, letter: char) {
    pid in s.tracked && pid in s.states && s.states[pid] != "" && s.states[pid][0] == letter
  }

  /** The tracked processes whose state, cut to one character, is the text. */
  function Shown(s: Sample, text: string): set<int> {
    set pid | pid in s.tracked * s.states.Keys && Cut(s.states[pid]) == text
  }

  function Cut(state: string): string {
    if state == "" then "" else state[..1]
  }

  lemma ShownExactly(s: Sample, letter: char, pid: int)
    ensures pid in Shown(s, [letter]) <==> In(s, pid, letter)
  {
  }

  /** Zombies already pending keep their first time, new ones start now, all others are dropped. */
  function NextPending(s: Sample, pending: map<int, real>): map<int, real> {
    map pid | pid in Shown(s, "Z") :: if pid in pending then pending[pid] else s.now
  }

  function Advance(s: Sample, pending: map<int, real>, grace: real): Result<map<int, real>> {
    if Shown(s, "T") != {} then Err
    else
      var next := NextPending(s, pending);
      if exists pid :: pid in next && s.now - next[pid] >= grace then Err else Ok(next)
  }

  function Census(samples: seq<Sample>, grace: real): Result<map<int, real>> {
    if samples == [] then Ok(map[])
    else
      var before := Census(samples[..|samples| - 1], grace);
      if before.Err? then Err else Advance(samples[|samples| - 1], before.value, grace)
  }

  /** The process is a tracked zombie in every sample from i to j. */
  ghost predicate ZombieThroughout(samples: seq<Sample>, pid: int, i: nat, j: nat) {
    i <= j < |samples| && forall k :: i <= k <= j ==> In(samples[k], pid, 'Z')
  }

  ghost predicate Unbroken(samples: seq<Sample>, pid: int, i: nat, j: nat) {
    ZombieThroughout(samples, pid, i, j) && (i > 0 ==> !In(samples[i - 1], pid, 'Z'))
  }

  /** A zombie seen in every sample of a stretch at least the grace long. */
  ghost predicate Overstays(samples: seq<Sample>, grace: real, pid: int, i: nat, j: nat) {
    ZombieThroughout(samples, pid, i, j) && samples[j].now - samples[i].now >= grace
  }

  ghost predicate Offends(samples: seq<Sample>, grace: real, j: nat) {
    j < |samples| &&
    ((exists pid :: In(samples[j], pid, 'T')) || (exists pid, i: nat :: Overstays(samples, grace, pid, i, j)))
  }

  ghost predicate BeganAt(samples: seq<Sample>, pid: int, j: nat, began: real) {
    exists i: nat :: Unbroken(samples, pid, i, j) && samples[i].now == began
  }

  predicate Nondecreasing(samples: seq<Sample>) {
    forall i, j :: 0 <= i <= j < |samples| ==> samples[i].now <= samples[j].now
  }

  /** `pending` holds, for exactly the zombies of the last sample, the time their current run began. */
  ghost predicate HoldsRunStarts(samples: seq<Sample>, pending: map<int, real>) {
    if samples == [] then pending == map[]
    else
      var last := |samples| - 1;
      && (forall pid :: pid in pending <==> In(samples[last], pid, 'Z'))
      && (forall pid :: pid in pending ==> BeganAt(samples, pid, last, pending[pid]))
  }

  lemma {:induction false} PendingHoldsRunStarts(samples: seq<Sample>, grace: real)
    requires Census(samples, grace).Ok?
    ensures HoldsRunStarts(samples, Census(samples, grace).value)
    decreases |samples|
  {
    if samples != [] {
      var front, last := samples[..|samples| - 1], |samples| - 1;
      PendingHoldsRunStarts(front, grace);
      NextRunStarts(samples, Census(front, grace).value, Census(samples, grace).value);
    }
  }

  lemma NextRunStarts(samples: seq<Sample>, before: map<int, real>, after: map<int, real>)
    requires samples != [] && HoldsRunStarts(samples[..|samples| - 1], before)
    requires forall pid :: pid in after <==> In(samples[|samples| - 1], pid, 'Z')
    requires forall pid :: pid in after ==> after[pid] == if pid in before then before[pid] else samples[|samples| - 1].now
    ensures HoldsRunStarts(samples, after)
  {
    var front, last := samples[..|samples| - 1], |samples| - 1;
    forall pid | pid in after ensures BeganAt(samples, pid, last, after[pid]) {
      if pid in before {
        assert BeganAt(front, pid, last - 1, before[pid]);
        var i: nat :| Unbroken(front, pid, i, last - 1) && front[i].now == before[pid];
        assert Unbroken(samples, pid, i, last);
      } else {
        assert Unbroken(samples, pid, last, last);
      }
    }
  }

  /** No stretch ending at j reaches further back than the unbroken run. */
  lemma RunStartIsEarliest(samples: seq<Sample>, pid: int, i: nat, k: nat, j: nat)
    requires Unbroken(samples, pid, i, j) && ZombieThroughout(samples, pid, k, j)
    ensures i <= k
  {
  }

  /** The time a run began is overdue exactly when some stretch of it is too long. */
  lemma OverdueExactly(samples: seq<Sample>, grace: real, pid: int, j: nat, began: real)
    requires Nondecreasing(samples) && j < |samples| && BeganAt(samples, pid, j, began)
    ensures samples[j].now - began >= grace <==> exists i: nat :: Overstays(samples, grace, pid, i, j)
  {
    var i: nat :| Unbroken(samples, pid, i, j) && samples[i].now == began;
    if samples[j].now - began >= grace {
      assert Overstays(samples, grace, pid, i, j);
    }
    if k: nat :| Overstays(samples, grace, pid, k, j) {
      RunStartIsEarliest(samples, pid, i, k, j);
      assert samples[i].now <= samples[k].now;
    }
  }

  lemma AdvanceRejectsExactly(samples: seq<Sample>, pending: map<int, real>, grace: real)
    requires samples != [] && Nondecreasing(samples) && HoldsRunStarts(samples[..|samples| - 1], pending)
    ensures Advance(samples[|samples| - 1], pending, grace).Err? <==> Offends(samples, grace, |samples| - 1)
  {
    var last := |samples| - 1;
    var s := samples[last];
    var next := NextPending(s, pending);
    forall pid ensures (pid in Shown(s, "T") <==> In(s, pid, 'T')) && (pid in next <==> In(s, pid, 'Z')) {
      ShownExactly(s, 'T', pid);
      ShownExactly(s, 'Z', pid);
    }
    hide Shown, In;
    if Shown(s, "T") != {} {
      var pid := AnyOf(Shown(s, "T"));
      assert In(s, pid, 'T');
    }
    NextRunStarts(samples, pending, next);
    hide HoldsRunStarts, NextPending, Nondecreasing;
    forall pid | pid in next
      ensures s.now - next[pid] >= grace <==> exists i: nat :: Overstays(samples, grace, pid, i, last)
    {
      BeganInPending(samples, next, pid);
      OverdueExactly(samples, grace, pid, last, next[pid]);
    }
    forall pid, k: nat | Overstays(samples, grace, pid, k, last) ensures pid in next {
      assert In(samples[last], pid, 'Z');
    }
  }

  lemma BeganInPending(samples: seq<Sample>, pending: map<int, real>, pid: int)
    requires samples != [] && HoldsRunStarts(samples, pending) && pid in pending
    ensures BeganAt(samples, pid, |samples| - 1, pending[pid])
  {
  }

  /** Over any samples in time order the census rejects exactly when some sample offends. */
  lemma {:induction false} CensusRejectsExactly(samples: seq<Sample>, grace: real)
    requires Nondecreasing(samples)
    ensures Census(samples, grace).Err? <==> exists j: nat :: Offends(samples, grace, j)
    decreases |samples|
  {
    if samples != [] {
      var front, last := samples[..|samples| - 1], |samples| - 1;
      CensusRejectsExactly(front, grace);
      forall j | 0 <= j < last ensures Offends(front, grace, j) <==> Offends(samples, grace, j) {
        OffendsPrefix(samples, grace, last, j);
      }
      if Census(front, grace).Ok? {
        PendingHoldsRunStarts(front, grace);
        AdvanceRejectsExactly(samples, Census(front, grace).value, grace);
      } else {
        var j: nat :| Offends(front, grace, j);
        assert Offends(samples, grace, j);
      }
    }
  }

  lemma OffendsPrefix(samples: seq<Sample>, grace: real, n: nat, j: nat)
    requires j < n <= |samples|
    ensures Offends(samples[..n], grace, j) <==> Offends(samples, grace, j)
  {
    forall pid, i: nat ensures Overstays(samples[..n], grace, pid, i, j) <==> Overstays(samples, grace, pid, i, j) {
    }
  }
}
