/** What each command does, file by file, with no reference to how: when it
    succeeds, which files it leaves as they are, and what the others become. */
module ImageLaws {
  import opened GoldenImages

  /** Every file not excepted is as it was. */
  ghost predicate Others(s: State, t: State, except: Name -> bool) {
    forall n :: !except(n) ==> Same(s.files, t.files, n)
  }

  /** A new overlay on the present content of its backing file. */
  predicate NewOverlay(s: State, t: State, n: Name, backing: Name) {
    && backing in s.files && n in t.files && t.files[n].whole && s.next <= t.files[n].content < t.next
    && t.files[n].link == Backed(backing, s.files[backing].content)
  }

  /** A new image that stands alone. */
  predicate NewStandalone(s: State, t: State, n: Name, whole: bool) {
    n in t.files && t.files[n].whole == whole && s.next <= t.files[n].content < t.next && t.files[n].link == NoBacking
  }

  /** `up` keeps a present dev disk whatever happens, makes an absent one on the
      current golden, and leaves a guest running exactly when one was or it boots. */
  ghost predicate UpLaw(s: State, boots: bool, d: Done) {
    var t := d.state;
    && (d.ok <==> Golden in s.files && !s.running && boots)
    && (t.running <==> s.running || d.ok)
    && Others(s, t, n => n == Dev)
    && if Dev in s.files || Golden !in s.files then Same(s.files, t.files, Dev) else NewOverlay(s, t, Dev, Golden)
  }

  ghost predicate DownLaw(s: State, d: Done) {
    d.ok && !d.state.running && d.state.files == s.files
  }

  /** `fetch` refuses to replace the base of a golden; otherwise it has a base
      image at the end exactly when it succeeds, and replaces one only by force. */
  ghost predicate FetchLaw(s: State, force: bool, o: FetchOutcome, d: Done) {
    var t := d.state;
    var refused, present := force && Golden in s.files, Base in s.files && !force;
    && (t.running <==> s.running)
    && (d.ok <==> !refused && (present || o.Fetched?))
    && Others(s, t, n => n == Base || n == BasePart || n == Download)
    && (if !refused && !present && o.Fetched? then NewStandalone(s, t, Base, true) else Same(s.files, t.files, Base))
    && (if refused then Same(s.files, t.files, BasePart)
        else if !present && o.ConvertFails? && o.partial then NewStandalone(s, t, BasePart, false)
        else BasePart !in t.files)
    && (if refused || present || o.DownloadFails? || (o.ConvertFails? && !o.source) then Same(s.files, t.files, Download)
        else if o.Fetched? then Download !in t.files
        else NewStandalone(s, t, Download, true))
  }

  /** A gate run starts from a fresh overlay of golden for each attempt and leaves
      those whose cleanup failed; it touches nothing else. */
  ghost predicate GateLaw(s: State, pid: nat, attempts: nat, kept: set<nat>, d: Done) {
    var t := d.state;
    && (d.ok <==> Golden in s.files && !s.running) && (t.running <==> s.running)
    && if !d.ok then t == s
       else
         && Others(s, t, (n: Name) => n.Gate? && n.pid == pid && 1 <= n.attempt <= attempts)
         && forall a :: 1 <= a <= attempts ==>
              if a in kept then NewOverlay(s, t, Gate(pid, a), Golden) else Gate(pid, a) !in t.files
  }

  /** `destroy` refuses while a guest runs; else it keeps base, golden and
      golden.prev and removes the rest, or with --all removes everything. */
  ghost predicate DestroyLaw(s: State, all: bool, d: Done) {
    && (d.ok <==> !s.running) && (s.running ==> d.state == s)
    && (d.ok ==>
          && !d.state.running
          && forall n :: if !all && (n == Base || n == Golden || n == GoldenPrev) then Same(s.files, d.state.files, n)
                         else n !in d.state.files)
  }

  /** The consumers of the old golden after a publication: dev moved aside, gate overlays gone. */
  ghost predicate ConsumersGone(s: State, t: State, stamp: nat) {
    && Dev !in t.files && (forall n :: n in t.files ==> !n.Gate?)
    && (if Dev in s.files then DevStale(stamp) in t.files && t.files[DevStale(stamp)] == s.files[Dev]
        else Same(s.files, t.files, DevStale(stamp)))
  }

  predicate Consumer(n: Name, stamp: nat) { n == Dev || n.Gate? || n == DevStale(stamp) }

  /** `provision` builds on base and publishes an overlay of it; a guest found
      running, or a failing build, leaves only the work overlay behind. */
  ghost predicate ProvisionLaw(s: State, force: bool, o: BuildOutcome, stamp: nat, d: Done) {
    var t := d.state;
    var allowed := Base in s.files && (Golden in s.files ==> force);
    && (d.ok <==> allowed && !s.running && o == Built)
    && if !allowed then t == s
       else if !d.ok then !t.running && NewOverlay(s, t, Provision, Base) && Others(s, t, n => n == Provision)
       else
         && !t.running && NewOverlay(s, t, Golden, Base) && Provision !in t.files && ConsumersGone(s, t, stamp)
         && (if Golden in s.files then GoldenPrev in t.files && t.files[GoldenPrev] == s.files[Golden]
             else Same(s.files, t.files, GoldenPrev))
         && Others(s, t, n => n == Golden || n == GoldenPrev || n == Provision || Consumer(n, stamp))
  }

  /** `refresh-golden` builds on golden and publishes a flattened copy. */
  ghost predicate RefreshLaw(s: State, o: BuildOutcome, stamp: nat, d: Done) {
    var t := d.state;
    && (d.ok <==> Golden in s.files && !s.running && o == Built)
    && if Golden !in s.files then t == s
       else if !d.ok then
         && !t.running && NewOverlay(s, t, Provision, Golden)
         && (if s.running || o.BootFails? then Same(s.files, t.files, GoldenNew)
             else if o.FlattenFails? && o.partial then NewStandalone(s, t, GoldenNew, false)
             else GoldenNew !in t.files)
         && Others(s, t, n => n == Provision || n == GoldenNew)
       else
         && !t.running && NewStandalone(s, t, Golden, true) && ConsumersGone(s, t, stamp)
         && Provision !in t.files && GoldenNew !in t.files
         && GoldenPrev in t.files && t.files[GoldenPrev] == s.files[Golden]
         && Others(s, t, n => n == Golden || n == GoldenPrev || n == GoldenNew || n == Provision || Consumer(n, stamp))
  }

  ghost predicate Law(s: State, c: Command, d: Done) {
    match c
    case Fetch(force, o) => FetchLaw(s, force, o, d)
    case DoProvision(force, o, stamp) => ProvisionLaw(s, force, o, stamp, d)
    case Refresh(o, stamp) => RefreshLaw(s, o, stamp, d)
    case Up(boots) => UpLaw(s, boots, d)
    case Down => DownLaw(s, d)
    case RunGate(pid, retries, kept) => GateLaw(s, pid, retries + 1, kept, d)
    case Destroy(all) => DestroyLaw(s, all, d)
  }

  lemma UpHolds(s: State, boots: bool)
    ensures UpLaw(s, boots, UpEffect(s, boots))
  {
  }

  lemma FetchHolds(s: State, force: bool, o: FetchOutcome)
    ensures FetchLaw(s, force, o, FetchEffect(s, force, o))
  {
  }

  lemma GateHolds(s: State, pid: nat, attempts: nat, kept: set<nat>)
    ensures GateLaw(s, pid, attempts, kept, GateEffect(s, pid, attempts, kept))
  {
    var d := GateEffect(s, pid, attempts, kept);
    if d.ok {
      forall a | 1 <= a <= attempts ensures
        if a in kept then NewOverlay(s, d.state, Gate(pid, a), Golden) else Gate(pid, a) !in d.state.files
      {
        assert AttemptOf(Gate(pid, a), pid, attempts);
      }
    }
  }

  lemma DestroyHolds(s: State, all: bool)
    ensures DestroyLaw(s, all, DestroyEffect(s, all))
  {
  }

  predicate Touched(m: Name, n: Name, spent: set<Name>, stamp: nat) {
    m == Golden || m == GoldenPrev || m == n || m in spent || Consumer(m, stamp)
  }

  /** A publication, file by file: the rotation, the consumers, and nothing else. */
  ghost predicate PublishedLaw(s: State, n: Name, spent: set<Name>, stamp: nat, d: Done)
    requires n in s.files
  {
    var t := d.state;
    && d.ok && t.next == s.next && t.running == s.running && ConsumersGone(s, t, stamp)
    && Golden in t.files && t.files[Golden] == s.files[n] && n !in t.files && (forall m :: m in spent ==> m !in t.files)
    && (if Golden in s.files then GoldenPrev in t.files && t.files[GoldenPrev] == s.files[Golden]
        else Same(s.files, t.files, GoldenPrev))
    && forall m :: !Touched(m, n, spent, stamp) ==> Same(s.files, t.files, m)
  }

  lemma PublishedIs(s: State, n: Name, spent: set<Name>, stamp: nat)
    requires Sound(s) && Candidate(s, n)
    ensures Published(s, n, spent, stamp) == Done(s.(files := Invalidated(Rotated(s.files, n) - spent, stamp)), true)
  {
    CandidatesPublishable(s, n);
    PublishableExactly(s, n);
    hide Opens, Publishable, Rotated, Invalidated, Sound;
  }

  /** Rotation and invalidation, file by file. */
  lemma RotatedAndInvalidated(fs: Files, n: Name, spent: set<Name>, stamp: nat, m: Name)
    requires n in fs && (n == Provision || n == GoldenNew) && (GoldenPrev in fs ==> Golden in fs) && spent <= {Provision}
    ensures var gs := Invalidated(Rotated(fs, n) - spent, stamp);
            && (m == n || m in spent || m == Dev || m.Gate? ==> m !in gs)
            && (m == Golden ==> m in gs && gs[m] == fs[n])
            && (m == GoldenPrev ==> if Golden in fs then m in gs && gs[m] == fs[Golden] else Same(fs, gs, m))
            && (m == DevStale(stamp) ==> if Dev in fs then m in gs && gs[m] == fs[Dev] else Same(fs, gs, m))
            && (!Touched(m, n, spent, stamp) ==> Same(fs, gs, m))
  {
  }

  lemma PublishedHolds(s: State, n: Name, spent: set<Name>, stamp: nat)
    requires Sound(s) && Candidate(s, n) && spent <= {Provision}
    ensures PublishedLaw(s, n, spent, stamp, Published(s, n, spent, stamp))
  {
    PublishedIs(s, n, spent, stamp);
    assert GoldenPrev in s.files ==> Golden in s.files;
    assert n == Provision || n == GoldenNew;
    hide Published, Rotated, Invalidated, Sound, Candidate;
    var gs := Invalidated(Rotated(s.files, n) - spent, stamp);
    forall m ensures
      && (m == n || m in spent || m == Dev || m.Gate? ==> m !in gs)
      && (!Touched(m, n, spent, stamp) ==> Same(s.files, gs, m))
    {
      RotatedAndInvalidated(s.files, n, spent, stamp, m);
    }
    RotatedAndInvalidated(s.files, n, spent, stamp, Golden);
    RotatedAndInvalidated(s.files, n, spent, stamp, GoldenPrev);
    RotatedAndInvalidated(s.files, n, spent, stamp, DevStale(stamp));
  }

  /** In any state whatever: a candidate that cannot be read, or that names the
      destination as its backing file, is refused with nothing touched; one that
      does not open after the rename is reported; only the others succeed. */
  lemma PublicationChecked(s: State, n: Name, spent: set<Name>, stamp: nat)
    requires n in s.files && n !in PROTECTED
    ensures var d := Published(s, n, spent, stamp);
            var refused := !s.files[n].whole || (s.files[n].link.Backed? && s.files[n].link.path == Golden);
            && (refused ==> !d.ok && d.state == s)
            && (d.ok <==> !refused && exists chain :: ChainOf(Rotated(s.files, n), Golden, chain))
            && (!refused && !d.ok ==> d.state.files == Rotated(s.files, n))
  {
    OpensExactly(Rotated(s.files, n), Golden);
    hide ChainOf, Rotated, Opens, Invalidated;
  }

  lemma WorkHolds(s: State, backing: Name)
    requires Sound(s) && backing in s.files && (backing == Base || backing == Golden)
    ensures var w := Work(s, backing).(running := false);
            && Sound(w) && Provision in w.files && NewOverlay(s, w, Provision, backing) && w.next == s.next + 1
            && forall m :: m != Provision ==> Same(s.files, w.files, m)
  {
    WorkSound(s, backing);
    WorkKeeps(s, backing);
  }

  lemma ProvisionPublishes(s: State, w: State, stamp: nat)
    requires Sound(s) && Sound(w) && Base in s.files && NewOverlay(s, w, Provision, Base) && !w.running && !s.running
    requires (forall m :: m != Provision ==> Same(s.files, w.files, m)) && w.next == s.next + 1
    ensures Candidate(w, Provision)
    ensures PublishedLaw(w, Provision, {}, stamp, Published(w, Provision, {}, stamp)) ==>
            ProvisionLaw(s, true, Built, stamp, Published(w, Provision, {}, stamp))
  {
    assert Same(s.files, w.files, Base) && Same(s.files, w.files, Golden) && Same(s.files, w.files, GoldenPrev);
    assert Same(s.files, w.files, Dev) && Same(s.files, w.files, DevStale(stamp));
    hide Published, Sound;
    var d := Published(w, Provision, {}, stamp);
    if PublishedLaw(w, Provision, {}, stamp, d) {
      forall m | !(m == Golden || m == GoldenPrev || m == Provision || Consumer(m, stamp)) ensures Same(s.files, d.state.files, m) {
        assert Same(s.files, w.files, m);
        assert !Touched(m, Provision, {}, stamp);
      }
    }
  }

  lemma ProvisionHolds(s: State, force: bool, o: BuildOutcome, stamp: nat)
    requires Sound(s)
    ensures ProvisionLaw(s, force, o, stamp, ProvisionEffect(s, force, o, stamp))
  {
    if Base in s.files && (Golden in s.files ==> force) {
      WorkHolds(s, Base);
      hide Published, Work, Sound, PublishedLaw, Candidate;
      var w := Work(s, Base).(running := false);
      if !s.running && o == Built {
        ProvisionPublishes(s, w, stamp);
        PublishedHolds(w, Provision, {}, stamp);
      }
    }
  }

  lemma FlatHolds(w: State, whole: bool)
    requires Sound(w) && !w.running
    ensures var t := Flat(w, whole);
            && Sound(t) && !t.running && t.next == w.next + 1 && NewStandalone(w, t, GoldenNew, whole)
            && forall m :: m != GoldenNew ==> Same(w.files, t.files, m)
  {
    FlatSound(w, whole);
  }

  lemma RefreshPublishes(s: State, w: State, t: State, stamp: nat)
    requires Sound(t) && Golden in s.files && !s.running && !t.running && w.next == s.next + 1 && t.next == w.next + 1
    requires forall m :: m != Provision ==> Same(s.files, w.files, m)
    requires NewStandalone(w, t, GoldenNew, true) && forall m :: m != GoldenNew ==> Same(w.files, t.files, m)
    ensures Candidate(t, GoldenNew)
    ensures PublishedLaw(t, GoldenNew, {Provision}, stamp, Published(t, GoldenNew, {Provision}, stamp)) ==>
            RefreshLaw(s, Built, stamp, Published(t, GoldenNew, {Provision}, stamp))
  {
    assert Same(s.files, w.files, Golden) && Same(w.files, t.files, Golden);
    assert Same(s.files, w.files, GoldenPrev) && Same(w.files, t.files, GoldenPrev);
    assert Same(s.files, w.files, Dev) && Same(w.files, t.files, Dev);
    assert Same(s.files, w.files, DevStale(stamp)) && Same(w.files, t.files, DevStale(stamp));
    hide Published, Sound;
    var d := Published(t, GoldenNew, {Provision}, stamp);
    if PublishedLaw(t, GoldenNew, {Provision}, stamp, d) {
      forall m | !(m == Golden || m == GoldenPrev || m == GoldenNew || m == Provision || Consumer(m, stamp))
        ensures Same(s.files, d.state.files, m)
      {
        assert Same(s.files, w.files, m) && Same(w.files, t.files, m);
        assert !Touched(m, GoldenNew, {Provision}, stamp);
      }
    }
  }

  lemma FlattenFailsHolds(s: State, w: State, o: BuildOutcome, stamp: nat)
    requires Golden in s.files && !s.running && o.FlattenFails? && Sound(w) && w == Work(s, Golden).(running := false)
    requires NewOverlay(s, w, Provision, Golden) && w.next == s.next + 1
    requires forall m :: m != Provision ==> Same(s.files, w.files, m)
    ensures RefreshLaw(s, o, stamp, RefreshEffect(s, o, stamp))
  {
    FlatHolds(w, false);
    hide Sound, Work;
    var t := RefreshEffect(s, o, stamp).state;
    forall m | m != Provision && m != GoldenNew ensures Same(s.files, t.files, m) {
      assert Same(s.files, w.files, m);
    }
  }

  lemma RefreshHolds(s: State, o: BuildOutcome, stamp: nat)
    requires Sound(s)
    ensures RefreshLaw(s, o, stamp, RefreshEffect(s, o, stamp))
  {
    if Golden in s.files {
      WorkHolds(s, Golden);
      hide Published, Work, Sound, PublishedLaw, Candidate;
      var w := Work(s, Golden).(running := false);
      if !s.running && o == Built {
        FlatHolds(w, true);
        hide Flat;
        RefreshPublishes(s, w, Flat(w, true), stamp);
        PublishedHolds(Flat(w, true), GoldenNew, {Provision}, stamp);
      } else if !s.running && o.FlattenFails? {
        FlattenFailsHolds(s, w, o, stamp);
      }
    }
  }

  /** After any commands, the next one does exactly what its law says. */
  lemma EveryCommandLawful(cs: seq<Command>, c: Command)
    ensures Law(Run(cs), c, Apply(Run(cs), c))
  {
    RunSound(cs);
    var s := Run(cs);
    hide Run, Sound, UpLaw, FetchLaw, GateLaw, DestroyLaw, ProvisionLaw, RefreshLaw;
    match c
    case Fetch(force, o) => FetchHolds(s, force, o);
    case DoProvision(force, o, stamp) => ProvisionHolds(s, force, o, stamp);
    case Refresh(o, stamp) => RefreshHolds(s, o, stamp);
    case Up(boots) => UpHolds(s, boots);
    case Down =>
    case RunGate(pid, retries, kept) => GateHolds(s, pid, retries + 1, kept);
    case Destroy(all) => DestroyHolds(s, all);
  }
}
