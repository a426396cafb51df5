/** Golden image rotation (`bsdvm.py`): a directory of qcow2 files whose overlays
    name their backing file by path. Contents are numbered; a link also keeps the
    number its backing file had when the overlay was created, which the real
    header does not, so that a silent change of the backing file is visible. */
module GoldenImages {

  datatype Name =
    | Base | BasePart | Download
    | Golden | GoldenPrev | GoldenNew
    | Provision | Dev | DevStale(at: nat) | Gate(pid: nat, attempt: nat)

  datatype Link = NoBacking | Backed(path: Name, seen: nat)
  datatype Image = Image(content: nat, whole: bool, link: Link)
  type Files = map<Name, Image>

  /** `next` numbers the next content; `running` is a guest up on dev.qcow2. */
  datatype State = State(files: Files, next: nat, running: bool)
  datatype Done = Done(state: State, ok: bool)

  const PROTECTED := {Base, Golden, GoldenPrev}

  // ----- the file operations

  function Rename(fs: Files, a: Name, b: Name): Files
    requires a in fs
  {
    (fs - {a})[b := fs[a]]
  }

  /** An existing overlay is reused as it is. */
  function Overlay(s: State, name: Name, backing: Name): State
    requires backing in s.files
  {
    if name in s.files then s
    else s.(files := s.files[name := Image(s.next, true, Backed(backing, s.files[backing].content))], next := s.next + 1)
  }

  /** `qemu-img info --backing-chain`: the chain is walked to a standalone image; a loop or a gap fails. */
  predicate Opens(fs: Files, n: Name, seen: set<Name>)
    decreases fs.Keys - seen
  {
    n in fs && n !in seen && fs[n].whole && (fs[n].link.NoBacking? || Opens(fs, fs[n].link.path, seen + {n}))
  }

  /** The images from n along the links, all whole and all different, to one that stands alone. */
  ghost predicate ChainOf(fs: Files, n: Name, chain: seq<Name>) {
    && chain != [] && chain[0] == n && (forall i :: 0 <= i < |chain| ==> chain[i] in fs && fs[chain[i]].whole)
    && (forall i :: 0 <= i < |chain| - 1 ==> fs[chain[i]].link.Backed? && fs[chain[i]].link.path == chain[i + 1])
    && fs[chain[|chain| - 1]].link.NoBacking?
    && (forall i, j :: 0 <= i < j < |chain| ==> chain[i] != chain[j])
  }

  ghost predicate ChainOutside(fs: Files, n: Name, seen: set<Name>, chain: seq<Name>) {
    ChainOf(fs, n, chain) && forall i :: 0 <= i < |chain| ==> chain[i] !in seen
  }

  lemma {:induction false} OpensHasChain(fs: Files, n: Name, seen: set<Name>) returns (chain: seq<Name>)
    requires Opens(fs, n, seen)
    ensures ChainOutside(fs, n, seen, chain)
    decreases fs.Keys - seen
  {
    if fs[n].link.NoBacking? {
      chain := [n];
    } else {
      var rest := OpensHasChain(fs, fs[n].link.path, seen + {n});
      chain := [n] + rest;
      forall i | 0 <= i < |chain| - 1 ensures fs[chain[i]].link.Backed? && fs[chain[i]].link.path == chain[i + 1] {
        if i > 0 {
          assert chain[i] == rest[i - 1] && chain[i + 1] == rest[i - 1 + 1];
        }
      }
    }
  }

  lemma {:induction false} ChainIsOpen(fs: Files, n: Name, seen: set<Name>, chain: seq<Name>)
    requires ChainOutside(fs, n, seen, chain)
    ensures Opens(fs, n, seen)
    decreases |chain|
  {
    if |chain| > 1 {
      var rest := chain[1..];
      assert rest[0] == chain[0 + 1];
      forall i | 0 <= i < |rest| - 1 ensures fs[rest[i]].link.Backed? && fs[rest[i]].link.path == rest[i + 1] {
        assert rest[i] == chain[i + 1] && rest[i + 1] == chain[i + 1 + 1];
      }
      ChainIsOpen(fs, rest[0], seen + {n}, rest);
    }
  }

  /** An image opens exactly when its links lead, without a loop or a gap, to one that stands alone. */
  lemma OpensExactly(fs: Files, n: Name)
    ensures Opens(fs, n, {}) <==> exists chain :: ChainOf(fs, n, chain)
  {
    if Opens(fs, n, {}) {
      var chain := OpensHasChain(fs, n, {});
    }
    forall chain | ChainOf(fs, n, chain) ensures Opens(fs, n, {}) {
      ChainIsOpen(fs, n, {}, chain);
    }
  }

  predicate Publishable(fs: Files, candidate: Name, dest: Name) {
    candidate in fs && fs[candidate].whole && !(fs[candidate].link.Backed? && fs[candidate].link.path == dest)
  }

  predicate IsGate(n: Name) { n.Gate? }

  /** dev.qcow2 is moved aside, gate overlays are removed. */
  function Invalidated(fs: Files, stamp: nat): Files {
    var aside := if Dev in fs then Rename(fs, Dev, DevStale(stamp)) else fs;
    map n | n in aside && !IsGate(n) :: aside[n]
  }

  // ----- the commands

  datatype FetchOutcome = DownloadFails | ConvertFails(partial: bool, source: bool) | Fetched
  datatype BuildOutcome = BootFails | FlattenFails(partial: bool) | Built

  datatype Command =
    | Fetch(force: bool, fetched: FetchOutcome)
    | DoProvision(force: bool, outcome: BuildOutcome, stamp: nat)
    | Refresh(outcome: BuildOutcome, stamp: nat)
    | Up(boots: bool)
    | Down
    | RunGate(pid: nat, retries: nat, kept: set<nat>)
    | Destroy(all: bool)

  function Broken(s: State): Image { Image(s.next, false, NoBacking) }

  function FetchEffect(s: State, force: bool, o: FetchOutcome): Done {
    if force && Golden in s.files then Done(s, false)
    else
      var cleaned := s.(files := s.files - {BasePart});
      if Base in s.files && !force then Done(cleaned, true)
      else match o
        case DownloadFails => Done(cleaned, false)
        case ConvertFails(partial, source) =>
          var left := if source then cleaned.files[Download := Image(s.next + 1, true, NoBacking)] else cleaned.files;
          Done(cleaned.(files := if partial then left[BasePart := Broken(s)] else left, next := s.next + 2), false)
        case Fetched =>
          Done(cleaned.(files := (cleaned.files - {Download})[Base := Image(s.next, true, NoBacking)], next := s.next + 1), true)
  }

  /** The work overlay of a build; an earlier one is thrown away. */
  function Work(s: State, backing: Name): State
    requires backing in s.files && backing != Provision
  {
    Overlay(s.(files := s.files - {Provision}), Provision, backing)
  }

  /** Rotate golden to golden.prev by rename, then move the candidate onto golden. */
  function Rotated(fs: Files, candidate: Name): Files
    requires candidate in fs && candidate !in PROTECTED
  {
    var moved := if Golden in fs then Rename(fs - {GoldenPrev}, Golden, GoldenPrev) else fs;
    Rename(moved, candidate, Golden)
  }

  /** Publication: checked against the destination first, opened afterwards, consumers invalidated last. */
  function Published(s: State, candidate: Name, spent: set<Name>, stamp: nat): Done
    requires candidate in s.files && candidate !in PROTECTED
  {
    if !Publishable(s.files, candidate, Golden) then Done(s, false)
    else
      var rotated := Rotated(s.files, candidate);
      if !Opens(rotated, Golden, {}) then Done(s.(files := rotated), false)
      else Done(s.(files := Invalidated(rotated - spent, stamp)), true)
  }

  /** A guest already running makes the boot fail, and the failure path then stops that guest. */
  function ProvisionEffect(s: State, force: bool, o: BuildOutcome, stamp: nat): Done {
    if Base !in s.files || (Golden in s.files && !force) then Done(s, false)
    else
      var work := Work(s, Base).(running := false);
      if s.running || o != Built then Done(work, false) else Published(work, Provision, {}, stamp)
  }

  /** The flattened copy of the work overlay: standalone, whole unless the conversion broke off. */
  function Flat(w: State, whole: bool): (s: State)
    ensures GoldenNew in s.files
  {
    State((w.files - {GoldenNew})[GoldenNew := Image(w.next, whole, NoBacking)], w.next + 1, false)
  }

  function RefreshEffect(s: State, o: BuildOutcome, stamp: nat): Done {
    if Golden !in s.files then Done(s, false)
    else
      var work := Work(s, Golden).(running := false);
      if s.running || o.BootFails? then Done(work, false)
      else if o.FlattenFails? then
        Done(if o.partial then Flat(work, false) else State(work.files - {GoldenNew}, work.next + 1, false), false)
      else Published(Flat(work, true), GoldenNew, {Provision}, stamp)
  }

  function UpEffect(s: State, boots: bool): Done {
    if Golden !in s.files then Done(s, false)
    else
      var dev := Overlay(s, Dev, Golden);
      if s.running || !boots then Done(dev, false) else Done(dev.(running := true), true)
  }

  predicate AttemptOf(n: Name, pid: nat, attempts: nat) {
    n.Gate? && n.pid == pid && 1 <= n.attempt <= attempts
  }

  /** Each attempt starts from a fresh overlay and removes it again, unless its
      guarded cleanup failed: the attempts in `kept` leave theirs behind. */
  function GateFiles(s: State, pid: nat, attempts: nat, kept: set<nat>): Files
    requires Golden in s.files
  {
    var names := s.files.Keys + set a | a in kept && 1 <= a <= attempts :: Gate(pid, a);
    map n | n in names && (AttemptOf(n, pid, attempts) ==> n.attempt in kept) ::
      if AttemptOf(n, pid, attempts) then Image(s.next + n.attempt - 1, true, Backed(Golden, s.files[Golden].content))
      else s.files[n]
  }

  function GateEffect(s: State, pid: nat, attempts: nat, kept: set<nat>): Done {
    if Golden !in s.files || s.running then Done(s, false)
    else Done(s.(files := GateFiles(s, pid, attempts, kept), next := s.next + attempts), true)
  }

  function DestroyEffect(s: State, all: bool): Done {
    if s.running then Done(s, false)
    else Done(s.(files := map n | n in s.files && n in PROTECTED && !all :: s.files[n]), true)
  }

  function Apply(s: State, c: Command): Done {
    match c
    case Fetch(force, o) => FetchEffect(s, force, o)
    case DoProvision(force, o, stamp) => ProvisionEffect(s, force, o, stamp)
    case Refresh(o, stamp) => RefreshEffect(s, o, stamp)
    case Up(boots) => UpEffect(s, boots)
    case Down => Done(s.(running := false), true)
    case RunGate(pid, retries, kept) => GateEffect(s, pid, retries + 1, kept)
    case Destroy(all) => DestroyEffect(s, all)
  }

  const EMPTY := State(map[], 0, false)

  function Run(cs: seq<Command>): State {
    if cs == [] then EMPTY else Apply(Run(cs[..|cs| - 1]), cs[|cs| - 1]).state
  }

  // ----- what every command keeps

  predicate Same(fs: Files, gs: Files, n: Name) {
    if n in fs then n in gs && gs[n] == fs[n] else n !in gs
  }

  /** What a backing file may be, by the overlay's name. */
  predicate MayBack(n: Name, path: Name) {
    match n
    case Golden => path == Base
    case GoldenPrev => path == Base
    case Provision => path == Base || path == Golden
    case Dev => path == Golden
    case DevStale(_) => path == Golden
    case Gate(_, _) => path == Golden
    case _ => false
  }

  predicate MayBeBroken(n: Name) { n == BasePart || n == GoldenNew }

  /** Files whose backing must still be the very image they were created on. */
  predicate Consumed(n: Name) { n == Golden || n == GoldenPrev || n == Dev || n.Gate? }

  predicate FileOk(s: State, n: Name)
    requires n in s.files
  {
    var i := s.files[n];
    && i.content < s.next
    && (i.whole || MayBeBroken(n))
    && (i.link.Backed? ==>
          && MayBack(n, i.link.path) && i.link.path in s.files && i.link.seen < s.next
          && (Consumed(n) ==> s.files[i.link.path].content == i.link.seen))
    && (i.link.NoBacking? ==> n != Dev && !n.Gate?)
  }

  predicate Sound(s: State) {
    && (forall n :: n in s.files ==> FileOk(s, n))
    && (Golden in s.files ==> Base in s.files)
    && (GoldenPrev in s.files ==> Golden in s.files)
    && (s.running ==> Dev in s.files)
  }

  /** Links only ever point at present files of a lower rank. */
  function Rank(n: Name): nat {
    match n
    case Golden => 1
    case GoldenPrev => 1
    case Provision => 2
    case Dev => 2
    case DevStale(_) => 2
    case Gate(_, _) => 2
    case _ => 0
  }

  predicate Chained(fs: Files) {
    && (forall n :: n in fs && fs[n].link.Backed? ==> MayBack(n, fs[n].link.path) && fs[n].link.path in fs)
    && (forall n :: n in fs ==> fs[n].whole || MayBeBroken(n))
  }

  lemma {:induction false} ChainedOpens(fs: Files, n: Name, seen: set<Name>)
    requires Chained(fs) && n in fs && fs[n].whole
    requires forall m :: m in seen ==> Rank(m) > Rank(n)
    ensures Opens(fs, n, seen)
    decreases Rank(n)
  {
  }

  lemma SoundIsChained(s: State)
    requires Sound(s)
    ensures Chained(s.files)
  {
  }

  lemma FetchSound(s: State, force: bool, o: FetchOutcome)
    requires Sound(s)
    ensures Sound(FetchEffect(s, force, o).state)
  {
    var s' := FetchEffect(s, force, o).state;
    forall n | n in s'.files ensures FileOk(s', n) {
      if n in s.files {
        assert FileOk(s, n);
      }
    }
  }

  lemma WorkSound(s: State, backing: Name)
    requires Sound(s) && backing in s.files && (backing == Base || backing == Golden)
    ensures var w := Work(s, backing).(running := false);
            && Sound(w) && Provision in w.files && w.files[Provision].link == Backed(backing, s.files[backing].content)
            && w.files - {Provision} == s.files - {Provision} && w.next > s.next
            && w.files[Provision].content >= s.next
  {
  }

  /** The candidates that the two builds publish. */
  predicate Candidate(s: State, n: Name) {
    && n in s.files && s.files[n].whole
    && ((n == Provision && s.files[n].link.Backed? && s.files[n].link.path == Base && Base in s.files &&
         s.files[n].link.seen == s.files[Base].content) ||
        (n == GoldenNew && s.files[n].link.NoBacking? && Golden in s.files))
  }

  /** The check made before the rename decides exactly whether the image opens after it, for any candidate at all. */
  lemma PublishableExactly(s: State, n: Name)
    requires Sound(s) && n in s.files && n !in PROTECTED
    ensures Publishable(s.files, n, Golden) <==> Opens(Rotated(s.files, n), Golden, {})
  {
  }

  /** The candidates of the two builds pass it. */
  lemma CandidatesPublishable(s: State, n: Name)
    requires Sound(s) && Candidate(s, n)
    ensures Publishable(s.files, n, Golden)
  {
  }

  lemma RotatedFiles(fs: Files, n: Name)
    requires n in fs && n !in PROTECTED && (GoldenPrev in fs ==> Golden in fs)
    ensures var gs := Rotated(fs, n);
            && Golden in gs && gs[Golden] == fs[n] && n !in gs
            && (if Golden in fs then GoldenPrev in gs && gs[GoldenPrev] == fs[Golden] else GoldenPrev !in gs)
            && (forall m :: m != Golden && m != GoldenPrev && m != n ==> Same(fs, gs, m))
  {
  }

  lemma InvalidatedFiles(fs: Files, stamp: nat)
    ensures var gs := Invalidated(fs, stamp);
            && Dev !in gs && (forall m :: m in gs ==> !m.Gate?)
            && (forall m: Name :: !m.Gate? && m != Dev && m != DevStale(stamp) ==> Same(fs, gs, m))
            && (if Dev in fs then DevStale(stamp) in gs && gs[DevStale(stamp)] == fs[Dev] else Same(fs, gs, DevStale(stamp)))
  {
  }

  /** The net effect of a publication. */
  lemma PublishedFiles(s: State, n: Name, spent: set<Name>, stamp: nat)
    requires Sound(s) && Candidate(s, n) && spent <= {Provision}
    ensures var d := Published(s, n, spent, stamp);
            var fs := d.state.files;
            && d.ok && d.state == State(fs, s.next, s.running)
            && Golden in fs && fs[Golden] == s.files[n] && Dev !in fs && n !in fs
            && (Golden in s.files ==> GoldenPrev in fs && fs[GoldenPrev] == s.files[Golden])
            && (forall m :: m in fs && m != Golden && m != GoldenPrev && m != DevStale(stamp) ==>
                  m in s.files && fs[m] == s.files[m] && !m.Gate?)
            && (if Dev in s.files then DevStale(stamp) in fs && fs[DevStale(stamp)] == s.files[Dev]
                else Same(s.files, fs, DevStale(stamp)))
            && (Base in s.files ==> Base in fs)
            && (GoldenPrev in fs ==> Golden in s.files)
  {
    hide Opens, Publishable, Rotated, Invalidated, FileOk;
    CandidatesPublishable(s, n);
    PublishableExactly(s, n);
    assert GoldenPrev in s.files ==> Golden in s.files;
    RotatedFiles(s.files, n);
    var kept := Rotated(s.files, n) - spent;
    InvalidatedFiles(kept, stamp);
    var fs := Invalidated(kept, stamp);
    assert Same(kept, fs, Golden) && Same(kept, fs, GoldenPrev) && Same(kept, fs, Base) && Same(kept, fs, n);
    assert Same(s.files, Rotated(s.files, n), Base);
    forall m | m in fs && m != Golden && m != GoldenPrev && m != DevStale(stamp)
      ensures m in s.files && fs[m] == s.files[m] && !m.Gate?
    {
      assert Same(kept, fs, m) && Same(s.files, Rotated(s.files, n), m);
    }
    assert Same(s.files, Rotated(s.files, n), Dev) && Same(s.files, Rotated(s.files, n), DevStale(stamp));
  }

  lemma PublishedSound(s: State, n: Name, spent: set<Name>, stamp: nat)
    requires Sound(s) && !s.running && Candidate(s, n) && spent <= {Provision} && (n == GoldenNew ==> Provision in spent)
    ensures Sound(Published(s, n, spent, stamp).state)
  {
    hide Published;
    PublishedFiles(s, n, spent, stamp);
    var s' := Published(s, n, spent, stamp).state;
    forall m | m in s'.files ensures FileOk(s', m) {
      var was := if m == Golden then n else if m == GoldenPrev then Golden
                 else if m == DevStale(stamp) && Dev in s.files then Dev else m;
      assert was in s.files && s'.files[m] == s.files[was];
      assert FileOk(s, was);
    }
  }

  lemma ProvisionSound(s: State, force: bool, o: BuildOutcome, stamp: nat)
    requires Sound(s)
    ensures Sound(ProvisionEffect(s, force, o, stamp).state)
  {
    if Base in s.files {
      hide Sound, Published;
      WorkSound(s, Base);
      var w := Work(s, Base).(running := false);
      hide Work;
      if o == Built {
        BasePresent(s, w);
        PublishedSound(w, Provision, {}, stamp);
      }
    }
  }

  lemma BasePresent(s: State, w: State)
    requires Sound(w) && Base in s.files && w.files - {Provision} == s.files - {Provision}
    requires Provision in w.files && w.files[Provision].link == Backed(Base, s.files[Base].content)
    ensures Candidate(w, Provision)
  {
    assert Base in s.files - {Provision};
    assert FileOk(w, Provision);
  }

  lemma FlatSound(w: State, whole: bool)
    requires Sound(w)
    ensures Sound(Flat(w, whole)) && Sound(State(w.files - {GoldenNew}, w.next + 1, false))
    ensures Golden in w.files && whole ==> Candidate(Flat(w, whole), GoldenNew)
    ensures forall n :: n != GoldenNew ==> Same(w.files, Flat(w, whole).files, n)
  {
  }

  lemma RefreshSound(s: State, o: BuildOutcome, stamp: nat)
    requires Sound(s)
    ensures Sound(RefreshEffect(s, o, stamp).state)
  {
    if Golden in s.files {
      WorkSound(s, Golden);
      var w := Work(s, Golden).(running := false);
      assert Golden in w.files by { assert Golden in s.files - {Provision}; }
      FlatSound(w, o == Built);
      hide Sound, Published, Work, Flat, Candidate, FileOk;
      if !s.running && o == Built {
        PublishedSound(Flat(w, true), GoldenNew, {Provision}, stamp);
      }
    }
  }

  lemma UpSound(s: State, boots: bool)
    requires Sound(s)
    ensures Sound(UpEffect(s, boots).state)
  {
  }

  lemma GateSound(s: State, pid: nat, attempts: nat, kept: set<nat>)
    requires Sound(s)
    ensures Sound(GateEffect(s, pid, attempts, kept).state)
  {
    var s' := GateEffect(s, pid, attempts, kept).state;
    forall n | n in s'.files ensures FileOk(s', n) {
      assert n in s.files ==> FileOk(s, n);
      assert Golden in s.files ==> FileOk(s, Golden);
    }
  }

  lemma DestroySound(s: State, all: bool)
    requires Sound(s)
    ensures Sound(DestroyEffect(s, all).state)
  {
  }

  lemma DownSound(s: State)
    requires Sound(s)
    ensures Sound(s.(running := false))
  {
  }

  lemma ApplySound(s: State, c: Command)
    requires Sound(s)
    ensures Sound(Apply(s, c).state)
  {
    hide Sound, FetchEffect, ProvisionEffect, RefreshEffect, UpEffect, GateEffect, DestroyEffect;
    match c
    case Fetch(force, o) => FetchSound(s, force, o);
    case DoProvision(force, o, stamp) => ProvisionSound(s, force, o, stamp);
    case Refresh(o, stamp) => RefreshSound(s, o, stamp);
    case Up(boots) => UpSound(s, boots);
    case Down => DownSound(s);
    case RunGate(pid, retries, kept) => GateSound(s, pid, retries + 1, kept);
    case Destroy(all) => DestroySound(s, all);
  }

  lemma {:induction false} RunSound(cs: seq<Command>)
    ensures Sound(Run(cs))
  {
    if cs != [] {
      RunSound(cs[..|cs| - 1]);
      ApplySound(Run(cs[..|cs| - 1]), cs[|cs| - 1]);
    }
  }

  // ----- what holds over every sequence of commands

  /** Every finished image opens after any run: no loops, no gaps, a standalone end. */
  lemma EveryChainEnds(cs: seq<Command>, n: Name)
    requires n in Run(cs).files && !MayBeBroken(n)
    ensures Opens(Run(cs).files, n, {})
  {
    RunSound(cs);
    var s := Run(cs);
    SoundIsChained(s);
    assert FileOk(s, n);
    ChainedOpens(s.files, n, {});
  }

  /** A dev or gate overlay is backed by the very golden content it was created
      on, and that golden by the very base content it was built on. */
  lemma ConsumersBackedByTheirGolden(cs: seq<Command>, n: Name)
    requires n in Run(cs).files && (n == Dev || n.Gate?)
    ensures var fs := Run(cs).files;
            && Golden in fs && fs[n].link == Backed(Golden, fs[Golden].content)
            && (fs[Golden].link.Backed? ==> Base in fs && fs[Golden].link == Backed(Base, fs[Base].content))
  {
    RunSound(cs);
    var s := Run(cs);
    assert FileOk(s, n);
    assert FileOk(s, Golden);
  }

  /** Either golden, golden.prev and base are as they were, or golden has new
      content, the old golden is kept as golden.prev, dev.qcow2 has been moved
      aside intact and no gate overlay is left. */
  predicate PublishesOrLeaves(s: State, d: Done, stamp: nat) {
    var fs, gs := s.files, d.state.files;
    if d.ok then
      && Golden in gs && gs[Golden].content >= s.next
      && (Golden in fs ==> GoldenPrev in gs && gs[GoldenPrev] == fs[Golden])
      && Dev !in gs && (forall n :: n in gs ==> !n.Gate?)
      && (Dev in fs ==> DevStale(stamp) in gs && gs[DevStale(stamp)] == fs[Dev])
    else Same(fs, gs, Golden) && Same(fs, gs, GoldenPrev) && Same(fs, gs, Base)
  }

  lemma WorkKeeps(s: State, backing: Name)
    requires Sound(s) && backing in s.files && (backing == Base || backing == Golden)
    ensures forall n :: n != Provision ==> Same(s.files, Work(s, backing).files, n)
  {
  }

  lemma ProvisionPublishesOrLeaves(s: State, force: bool, o: BuildOutcome, stamp: nat)
    requires Sound(s)
    ensures PublishesOrLeaves(s, ProvisionEffect(s, force, o, stamp), stamp)
  {
    hide Published, Sound, Candidate;
    if Base in s.files {
      WorkSound(s, Base);
      WorkKeeps(s, Base);
      var w := Work(s, Base).(running := false);
      assert forall n :: n in {Golden, GoldenPrev, Base, Dev} ==> Same(s.files, w.files, n);
      assert Same(s.files, w.files, Dev) && Same(s.files, w.files, Golden);
      hide Work;
      if o == Built {
        BasePresent(s, w);
        PublishedFiles(w, Provision, {}, stamp);
      }
    }
  }

  lemma RefreshPublishesOrLeaves(s: State, o: BuildOutcome, stamp: nat)
    requires Sound(s)
    ensures PublishesOrLeaves(s, RefreshEffect(s, o, stamp), stamp)
  {
    hide Published, Sound, Candidate;
    if Golden in s.files {
      WorkSound(s, Golden);
      WorkKeeps(s, Golden);
      var w := Work(s, Golden).(running := false);
      assert Same(s.files, w.files, Dev) && Same(s.files, w.files, Golden);
      assert Same(s.files, w.files, GoldenPrev) && Same(s.files, w.files, Base);
      hide Work;
      if o == Built {
        FlatSound(w, true);
        assert Same(w.files, Flat(w, true).files, Dev) && Same(w.files, Flat(w, true).files, Golden);
        assert Flat(w, true).files[GoldenNew].content == w.next;
        hide Flat;
        PublishedFiles(Flat(w, true), GoldenNew, {Provision}, stamp);
      }
    }
  }

  /** After any run, a build that does not succeed leaves the golden chain alone
      and one that succeeds publishes new content. */
  lemma BuildPublishesOrLeaves(cs: seq<Command>, c: Command)
    requires c.DoProvision? || c.Refresh?
    ensures PublishesOrLeaves(Run(cs), Apply(Run(cs), c), c.stamp)
  {
    RunSound(cs);
    if c.DoProvision? {
      ProvisionPublishesOrLeaves(Run(cs), c.force, c.outcome, c.stamp);
    } else {
      RefreshPublishesOrLeaves(Run(cs), c.outcome, c.stamp);
    }
  }

  /** After any run, a build whose guest provisions cleanly always gets published:
      neither of the two image checks ever stops it. */
  lemma BuildSucceedsExactly(cs: seq<Command>, c: Command)
    requires c.DoProvision? || c.Refresh?
    ensures var s := Run(cs);
            Apply(s, c).ok <==>
              && c.outcome == Built && !s.running
              && if c.DoProvision? then Base in s.files && (Golden in s.files ==> c.force) else Golden in s.files
  {
    RunSound(cs);
    var s := Run(cs);
    hide Published, Sound, Candidate, Run;
    if c.outcome == Built && c.DoProvision? && Base in s.files {
      WorkSound(s, Base);
      var w := Work(s, Base).(running := false);
      BasePresent(s, w);
      PublishedFiles(w, Provision, {}, c.stamp);
    } else if c.outcome == Built && c.Refresh? && Golden in s.files {
      WorkSound(s, Golden);
      WorkKeeps(s, Golden);
      var w := Work(s, Golden).(running := false);
      assert Same(s.files, w.files, Golden);
      FlatSound(w, true);
      PublishedFiles(Flat(w, true), GoldenNew, {Provision}, c.stamp);
    }
  }

  /** Base content does not change while golden or golden.prev exists. */
  lemma BaseStable(cs: seq<Command>, c: Command)
    requires Golden in Run(cs).files || GoldenPrev in Run(cs).files
    ensures Base in Run(cs).files
    ensures var fs := Apply(Run(cs), c).state.files;
            (Base in fs ==> fs[Base] == Run(cs).files[Base]) && (Base !in fs ==> c == Destroy(true) && fs == map[])
  {
    RunSound(cs);
    if c.DoProvision? || c.Refresh? {
      BuildKeepsBase(cs, c);
    }
  }

  lemma BuildKeepsBase(cs: seq<Command>, c: Command)
    requires (c.DoProvision? || c.Refresh?) && Base in Run(cs).files
    ensures Same(Run(cs).files, Apply(Run(cs), c).state.files, Base)
  {
    RunSound(cs);
    var s := Run(cs);
    hide Sound, Run;
    var backing := if c.DoProvision? then Base else Golden;
    if backing in s.files {
      WorkSound(s, backing);
      assert Base in s.files - {Provision};
    }
  }

  /** No command touches a file in the chain of a guest running on dev, not even one that stops the guest. */
  lemma RunningDiskUntouched(cs: seq<Command>, c: Command)
    requires Run(cs).running
    ensures var fs, gs := Run(cs).files, Apply(Run(cs), c).state.files;
            Dev in fs && Same(fs, gs, Dev) && Same(fs, gs, Golden) && Same(fs, gs, Base)
  {
    RunSound(cs);
    var s := Run(cs);
    assert FileOk(s, Dev);
  }

  /** The rotation this code replaced: stack the work overlay on golden, unlink
      golden, rename the overlay onto it. The overlay opens before the rename, the
      result names itself and opens no more, and the check against the destination
      is the one that sees it coming. */
  lemma OldRotationRefersToItself(s: State)
    requires Sound(s) && Golden in s.files
    ensures var w := Work(s, Golden);
            && Opens(w.files, Provision, {})
            && !Publishable(w.files, Provision, Golden)
            && !Opens(Rename(w.files - {Golden}, Provision, Golden), Golden, {})
  {
  }
}
