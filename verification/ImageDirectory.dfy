/** The commands as they run: one file operation after another on the state
    directory of one VM, each proved against its net effect. */
module ImageDirectory {
  import opened GoldenImages

  lemma NoAttempts(s: State, pid: nat, kept: set<nat>)
    requires Golden in s.files
    ensures GateFiles(s, pid, 0, kept) == s.files
  {
  }

  /** An attempt's overlay stays if its cleanup failed. */
  function AfterAttempt(before: Files, overlay: Name, i: Image, keep: bool): Files {
    if keep then before[overlay := i] else before - {overlay}
  }

  lemma OneAttempt(s: State, pid: nat, a: nat, kept: set<nat>)
    requires Golden in s.files && a > 0
    ensures GateFiles(s, pid, a, kept) ==
            AfterAttempt(GateFiles(s, pid, a - 1, kept), Gate(pid, a),
                         Image(s.next + a - 1, true, Backed(Golden, s.files[Golden].content)), a in kept)
  {
  }

  class Directory {
    var files: Files
    var next: nat
    var running: bool

    ghost function Now(): State
      reads this
    {
      State(files, next, running)
    }

    constructor ()
      ensures Now() == EMPTY
    {
      files, next, running := map[], 0, false;
    }

    method Unlink(n: Name)
      modifies this`files
      ensures files == old(files) - {n}
    {
      files := files - {n};
    }

    method Move(a: Name, b: Name)
      requires a in files
      modifies this`files
      ensures files == Rename(old(files), a, b)
    {
      var image := files[a];
      files := files - {a};
      files := files[b := image];
    }

    /** A new standalone image, or the torso a failed conversion leaves. */
    method Convert(n: Name, whole: bool)
      modifies this`files, this`next
      ensures files == old(files)[n := Image(old(next), whole, NoBacking)] && next == old(next) + 1
    {
      files := files[n := Image(next, whole, NoBacking)];
      next := next + 1;
    }

    method CreateOverlay(name: Name, backing: Name)
      requires backing in files
      modifies this`files, this`next
      ensures Now() == Overlay(old(Now()), name, backing)
    {
      if name !in files {
        files := files[name := Image(next, true, Backed(backing, files[backing].content))];
        next := next + 1;
      }
    }

    method InvalidateConsumers(stamp: nat)
      modifies this`files
      ensures files == Invalidated(old(files), stamp)
    {
      if Dev in files {
        Move(Dev, DevStale(stamp));
      }
      ghost var aside := files;
      var gates := set n | n in files && IsGate(n);
      while gates != {}
        invariant forall n :: n in files <==> n in aside && (IsGate(n) ==> n in gates)
        invariant forall n :: n in files ==> files[n] == aside[n]
        decreases gates
      {
        var n :| n in gates;
        Unlink(n);
        gates := gates - {n};
      }
    }

    method Publish(candidate: Name, spent: set<Name>, stamp: nat) returns (ok: bool)
      requires candidate in files && candidate !in PROTECTED
      modifies this`files
      ensures Done(Now(), ok) == Published(old(Now()), candidate, spent, stamp)
    {
      if !Publishable(files, candidate, Golden) { return false; }
      if Golden in files {
        Unlink(GoldenPrev);
        Move(Golden, GoldenPrev);
      }
      Move(candidate, Golden);
      if !Opens(files, Golden, {}) { return false; }
      files := files - spent;
      InvalidateConsumers(stamp);
      ok := true;
    }

    method CmdFetch(force: bool, o: FetchOutcome) returns (ok: bool)
      modifies this
      ensures Done(Now(), ok) == FetchEffect(old(Now()), force, o)
    {
      if force && Golden in files { return false; }
      Unlink(BasePart);
      if Base in files && !force { return true; }
      match o {
        case DownloadFails => return false;
        case ConvertFails(partial, source) =>
          if partial {
            Convert(BasePart, false);
          } else {
            next := next + 1;
          }
          if source {
            files := files[Download := Image(next, true, NoBacking)];
          }
          next := next + 1;
          return false;
        case Fetched =>
          Convert(BasePart, true);
          Move(BasePart, Base);
          Unlink(Download);
          assert files == (old(files) - {BasePart} - {Download})[Base := Image(old(next), true, NoBacking)];
          return true;
      }
    }

    method CmdProvision(force: bool, o: BuildOutcome, stamp: nat) returns (ok: bool)
      modifies this
      ensures Done(Now(), ok) == ProvisionEffect(old(Now()), force, o, stamp)
    {
      if Base !in files { return false; }
      if Golden in files && !force { return false; }
      Unlink(Provision);
      CreateOverlay(Provision, Base);
      var booted := !running && o == Built;
      running := false;
      if !booted { return false; }
      ok := Publish(Provision, {}, stamp);
    }

    method CmdRefreshGolden(o: BuildOutcome, stamp: nat) returns (ok: bool)
      modifies this
      ensures Done(Now(), ok) == RefreshEffect(old(Now()), o, stamp)
    {
      if Golden !in files { return false; }
      Unlink(Provision);
      CreateOverlay(Provision, Golden);
      var booted := !running && !o.BootFails?;
      running := false;
      if !booted { return false; }
      Unlink(GoldenNew);
      if o.FlattenFails? {
        if o.partial {
          Convert(GoldenNew, false);
        } else {
          next := next + 1;
        }
        return false;
      }
      Convert(GoldenNew, true);
      ok := Publish(GoldenNew, {Provision}, stamp);
    }

    method CmdUp(boots: bool) returns (ok: bool)
      modifies this
      ensures Done(Now(), ok) == UpEffect(old(Now()), boots)
    {
      if Golden !in files { return false; }
      CreateOverlay(Dev, Golden);
      if running || !boots { return false; }
      running := true;
      ok := true;
    }

    method GateAttempt(pid: nat, attempt: nat, keep: bool)
      requires Golden in files && attempt > 0
      modifies this`files, this`next
      ensures next == old(next) + 1 && Golden in files && files[Golden] == old(files)[Golden]
      ensures files == AfterAttempt(old(files), Gate(pid, attempt),
                                    Image(old(next), true, Backed(Golden, old(files)[Golden].content)), keep)
    {
      Unlink(Gate(pid, attempt));
      CreateOverlay(Gate(pid, attempt), Golden);
      if !keep {
        Unlink(Gate(pid, attempt));
      }
    }

    method GateAttempts(pid: nat, attempts: nat, kept: set<nat>, ghost start: State)
      requires Golden in files && start == Now()
      modifies this`files, this`next
      ensures files == GateFiles(start, pid, attempts, kept) && next == start.next + attempts
    {
      hide GateFiles, AfterAttempt, AttemptOf;
      NoAttempts(start, pid, kept);
      var attempt := 0;
      while attempt < attempts
        invariant 0 <= attempt <= attempts && next == start.next + attempt
        invariant Golden in files && files[Golden] == start.files[Golden]
        invariant files == GateFiles(start, pid, attempt, kept)
      {
        attempt := attempt + 1;
        OneAttempt(start, pid, attempt, kept);
        GateAttempt(pid, attempt, attempt in kept);
      }
    }

    method CmdGate(pid: nat, retries: nat, kept: set<nat>) returns (ok: bool)
      modifies this
      ensures Done(Now(), ok) == GateEffect(old(Now()), pid, retries + 1, kept)
    {
      hide GateFiles;
      if Golden !in files { return false; }
      if running { return false; }
      GateAttempts(pid, retries + 1, kept, Now());
      ok := true;
    }

    method CmdDestroy(all: bool) returns (ok: bool)
      modifies this
      ensures Done(Now(), ok) == DestroyEffect(old(Now()), all)
    {
      if running { return false; }
      var left := files.Keys;
      while left != {}
        invariant left <= old(files).Keys && next == old(next) && !running
        invariant forall n :: n in files <==> n in old(files) && (n in left || (n in PROTECTED && !all))
        invariant forall n :: n in files ==> files[n] == old(files)[n]
        decreases left
      {
        var n :| n in left;
        if !(n in PROTECTED && !all) {
          Unlink(n);
        }
        left := left - {n};
      }
      ok := true;
    }

    method CmdDown() returns (ok: bool)
      modifies this`running
      ensures Done(Now(), ok) == Done(old(Now()).(running := false), true)
    {
      running := false;
      ok := true;
    }

    method Execute(c: Command) returns (ok: bool)
      modifies this
      ensures Done(Now(), ok) == Apply(old(Now()), c)
    {
      match c {
        case Fetch(force, o) => ok := CmdFetch(force, o);
        case DoProvision(force, o, stamp) => ok := CmdProvision(force, o, stamp);
        case Refresh(o, stamp) => ok := CmdRefreshGolden(o, stamp);
        case Up(boots) => ok := CmdUp(boots);
        case Down => ok := CmdDown();
        case RunGate(pid, retries, kept) => ok := CmdGate(pid, retries, kept);
        case Destroy(all) => ok := CmdDestroy(all);
      }
    }

    /** Any sequence of commands on a new directory, and the directory stays sound. */
    method RunCommands(cs: seq<Command>)
      requires Now() == EMPTY
      modifies this
      ensures Now() == Run(cs) && Sound(Now())
    {
      var i := 0;
      while i < |cs|
        invariant 0 <= i <= |cs| && Now() == Run(cs[..i])
      {
        var ok := Execute(cs[i]);
        assert cs[..i + 1][..i] == cs[..i];
        i := i + 1;
      }
      assert cs[..|cs|] == cs;
      RunSound(cs);
    }
  }
}
