/** Rebuild inputs of the embedded image (`cpl0_inputs.rs`): the closure of path
    dependencies, and the files that sources pull in by literal includes. */
module BuildInputs {
  import opened Wrappers

  type Path = seq<string>

  /** One entry of a (build-)dependencies table; `path` as written. */
  datatype Declaration = Declaration(name: string, inherited: bool, path: Option<Path>)

  /** What the file system holds. A manifest or path that is absent cannot be read or resolved. */
  datatype Workspace = Workspace(
    root: Path,
    shared: Option<map<string, Option<Path>>>,  // [workspace.dependencies] of the root manifest
    manifests: map<Path, seq<Declaration>>,
    canonical: map<Path, Path>)

  const IMAGE_PACKAGE := "carrick-x86-cpl0"

  function ImageDir(w: Workspace): Path {
    w.root + ["crates", IMAGE_PACKAGE]
  }

  /** The entry of dir's manifest names path p: its own path below the package,
      or the path its workspace entry gives below the workspace root. */
  ghost predicate PointsTo(w: Workspace, dir: Path, d: Declaration, p: Path) {
    if d.inherited then
      w.shared.Some? && d.name in w.shared.value && w.shared.value[d.name].Some? && p == w.root + w.shared.value[d.name].value
    else d.path.Some? && p == dir + d.path.value
  }

  /** A path dependency of a package directory, before it is resolved. */
  ghost predicate Names(w: Workspace, dir: Path, p: Path) {
    dir in w.manifests && exists d :: d in w.manifests[dir] && PointsTo(w, dir, d, p)
  }

  predicate Dangling(w: Workspace, d: Declaration) {
    d.inherited && (w.shared.None? || d.name !in w.shared.value)
  }

  /** The manifest is absent, or inherits an entry that the workspace does not have. */
  ghost predicate Missing(w: Workspace, dir: Path) {
    dir !in w.manifests || exists d :: d in w.manifests[dir] && Dangling(w, d)
  }

  /** A resolved dependency edge between package directories. */
  ghost predicate DependsOn(w: Workspace, dir: Path, dep: Path) {
    exists p :: Names(w, dir, p) && p in w.canonical && w.canonical[p] == dep
  }

  ghost predicate Chain(w: Workspace, dirs: seq<Path>) {
    && dirs != [] && ImageDir(w) in w.canonical && dirs[0] == w.canonical[ImageDir(w)]
    && forall i :: 0 <= i < |dirs| - 1 ==> DependsOn(w, dirs[i], dirs[i + 1])
  }

  ghost predicate Linked(w: Workspace, dir: Path) {
    exists dirs :: Chain(w, dirs) && dirs[|dirs| - 1] == dir
  }

  /** Something the closure needs cannot be read. */
  ghost predicate Unreadable(w: Workspace) {
    || w.shared.None? || ImageDir(w) !in w.canonical
    || exists dir :: Linked(w, dir) && Broken(w, dir)
  }

  ghost predicate Broken(w: Workspace, dir: Path) {
    Missing(w, dir) || exists p :: Names(w, dir, p) && p !in w.canonical
  }

  lemma LinkedExtends(w: Workspace, dir: Path, dep: Path)
    requires Linked(w, dir) && DependsOn(w, dir, dep)
    ensures Linked(w, dep)
  {
    var dirs :| Chain(w, dirs) && dirs[|dirs| - 1] == dir;
    assert Chain(w, dirs + [dep]);
    assert (dirs + [dep])[|dirs|] == dep;
  }

  lemma {:induction false} ClosedHoldsChain(w: Workspace, closed: set<Path>, dirs: seq<Path>)
    requires Chain(w, dirs) && dirs[0] in closed
    requires forall d, e :: d in closed && DependsOn(w, d, e) ==> e in closed
    ensures dirs[|dirs| - 1] in closed
    decreases |dirs|
  {
    if |dirs| > 1 {
      var front := dirs[..|dirs| - 1];
      assert Chain(w, front);
      ClosedHoldsChain(w, closed, front);
      assert DependsOn(w, dirs[|dirs| - 2], dirs[|dirs| - 1]);
    }
  }

  /** Everything on the worklist is the image package or a dependency of something visited. */
  ghost predicate Pending(w: Workspace, visited: set<Path>, p: Path) {
    p == ImageDir(w) || exists d :: d in visited && Names(w, d, p)
  }

  ghost predicate Exploring(w: Workspace, stack: seq<Path>, visited: set<Path>) {
    && (forall d :: d in visited ==> Linked(w, d) && !Missing(w, d))
    && (forall p :: p in stack ==> Pending(w, visited, p))
    && (forall p :: Pending(w, visited, p) ==> p in stack || (p in w.canonical && w.canonical[p] in visited))
  }

  lemma PoppedIsLinked(w: Workspace, stack: seq<Path>, visited: set<Path>, p: Path)
    requires Exploring(w, stack, visited) && Pending(w, visited, p)
    ensures p in w.canonical ==> Linked(w, w.canonical[p])
    ensures p !in w.canonical ==> Unreadable(w)
  {
    hide Names, Missing;
    if p == ImageDir(w) {
      if p in w.canonical {
        assert Chain(w, [w.canonical[p]]);
      }
    } else {
      var d :| d in visited && Names(w, d, p);
      if p in w.canonical {
        assert DependsOn(w, d, w.canonical[p]);
        LinkedExtends(w, d, w.canonical[p]);
      } else {
        assert Broken(w, d);
      }
    }
  }

  /** A package directory joins the visited ones, its dependencies the worklist. */
  lemma Visit(w: Workspace, stack: seq<Path>, visited: set<Path>, p: Path, deps: seq<Path>)
    requires Exploring(w, stack + [p], visited) && p in w.canonical && !Missing(w, w.canonical[p])
    requires forall q :: q in deps <==> Names(w, w.canonical[p], q)
    ensures Exploring(w, stack + deps, visited + {w.canonical[p]})
  {
    hide Names, Missing;
    assert (stack + [p])[|stack|] == p;
    PoppedIsLinked(w, stack + [p], visited, p);
    var visited' := visited + {w.canonical[p]};
    forall q | q in stack + deps ensures Pending(w, visited', q) {
      if q in stack {
        assert q in stack + [p];
        assert Pending(w, visited, q);
        if q != ImageDir(w) {
          var d :| d in visited && Names(w, d, q);
          assert d in visited';
        }
      }
    }
    forall q | Pending(w, visited', q) ensures q in stack + deps || (q in w.canonical && w.canonical[q] in visited') {
      if Pending(w, visited, q) {
        assert q in stack + [p] || (q in w.canonical && w.canonical[q] in visited);
      }
    }
  }

  lemma Skip(w: Workspace, stack: seq<Path>, visited: set<Path>, p: Path)
    requires Exploring(w, stack + [p], visited) && p in w.canonical && w.canonical[p] in visited
    ensures Exploring(w, stack, visited)
  {
  }

  /** With nothing pending the visited directories are exactly the linked ones. */
  lemma DoneExploring(w: Workspace, visited: set<Path>)
    requires Exploring(w, [], visited) && w.shared.Some?
    ensures !Unreadable(w)
    ensures forall d :: d in visited <==> Linked(w, d)
  {
    hide Names, Missing;
    assert Pending(w, visited, ImageDir(w));
    forall d, e | d in visited && DependsOn(w, d, e) ensures e in visited {
      var p :| Names(w, d, p) && p in w.canonical && w.canonical[p] == e;
      assert Pending(w, visited, p);
    }
    forall d | Linked(w, d) ensures d in visited && !Broken(w, d) {
      var dirs :| Chain(w, dirs) && dirs[|dirs| - 1] == d;
      ClosedHoldsChain(w, visited, dirs);
      forall p | Names(w, d, p) ensures p in w.canonical {
        assert Pending(w, visited, p);
      }
    }
  }

  /** The path dependencies a manifest declares, or an error when an inherited one is missing. */
  method ReadDependencies(w: Workspace, dir: Path) returns (r: Result<seq<Path>>)
    requires w.shared.Some?
    ensures r.Err? <==> Missing(w, dir)
    ensures r.Ok? ==> forall p :: p in r.value <==> Names(w, dir, p)
  {
    if dir !in w.manifests { return Err; }
    var entries := w.manifests[dir];
    var pushed: seq<Path> := [];
    var i := 0;
    while i < |entries|
      invariant 0 <= i <= |entries|
      invariant forall j :: 0 <= j < i ==> !Dangling(w, entries[j])
      invariant forall p :: p in pushed <==> exists j :: 0 <= j < i && PointsTo(w, dir, entries[j], p)
    {
      var name, base, path := entries[i].name, dir, entries[i].path;
      if entries[i].inherited {
        if name !in w.shared.value {
          assert entries[i] in entries && Dangling(w, entries[i]);
          return Err;
        }
        base, path := w.root, w.shared.value[name];
      }
      if path.Some? {
        pushed := pushed + [base + path.value];
      }
      i := i + 1;
    }
    r := Ok(pushed);
  }

  /** The directories reachable over path dependencies, or an error exactly when one of them cannot be read. */
  method ClosureDirs(w: Workspace) returns (r: Result<set<Path>>)
    ensures r.Err? <==> Unreadable(w)
    ensures r.Ok? ==> forall d :: d in r.value <==> Linked(w, d)
  {
    hide Names, Missing;
    if w.shared.None? { return Err; }
    var stack := [w.root + ["crates"] + [IMAGE_PACKAGE]];
    assert stack[0] == ImageDir(w);
    var visited: set<Path> := {};
    while stack != []
      invariant Exploring(w, stack, visited) && visited <= w.canonical.Values
      decreases w.canonical.Values - visited, |stack|
    {
      var p := stack[|stack| - 1];
      var rest := stack[..|stack| - 1];
      assert stack == rest + [p];
      PoppedIsLinked(w, stack, visited, p);
      stack := rest;
      if p !in w.canonical { return Err; }
      var dir := w.canonical[p];
      if dir in visited {
        Skip(w, rest, visited, p);
        continue;
      }
      var deps := ReadDependencies(w, dir);
      if deps.Err? {
        assert Broken(w, dir);
        return Err;
      }
      Visit(w, rest, visited, p, deps.value);
      visited := visited + {dir};
      stack := rest + deps.value;
    }
    DoneExploring(w, visited);
    r := Ok(visited);
  }

  // ----- literal includes

  /** Readable files and their literal includes: a resolved target, or the literal that did not resolve. */
  datatype Include = Resolved(target: Path) | Literal(text: string)
  type Sources = map<Path, seq<Include>>

  datatype Inputs = Inputs(packageDirs: set<Path>, externalFiles: set<Path>,
                           includes: seq<(Path, Path)>, unresolved: seq<(Path, string)>)

  ghost predicate Under(dirs: set<Path>, p: Path) {
    exists n: nat :: n <= |p| && p[..n] in dirs
  }

  ghost predicate Covers(i: Inputs, p: Path) {
    p in i.externalFiles || Under(i.packageDirs, p)
  }

  /** Watched through a package directory or directly. */
  method CoversPath(i: Inputs, p: Path) returns (covered: bool)
    ensures covered <==> Covers(i, p)
  {
    if p in i.externalFiles { return true; }
    var left := i.packageDirs;
    while left != {}
      invariant left <= i.packageDirs && forall d :: d in i.packageDirs && d !in left ==> !(d <= p)
      decreases left
    {
      var d :| d in left;
      if d <= p {
        assert p[..|d|] == d;
        return true;
      }
      left := left - {d};
    }
    forall n: nat | n <= |p| ensures p[..n] !in i.packageDirs {
      assert p[..n] <= p;
    }
    covered := false;
  }

  /** A file name ending in `.rs` with something before it. */
  predicate IsRust(p: Path) {
    p != [] && |p[|p| - 1]| > 3 && p[|p| - 1][|p[|p| - 1]| - 3..] == ".rs"
  }

  /** What follows the last dot of a file name, unless the name starts with that dot. */
  function Extension(name: string): Option<string> {
    if |name| <= 1 then None
    else if name[|name| - 1] == '.' then Some("")
    else
      var front := Extension(name[..|name| - 1]);
      if front.None? then None else Some(front.value + [name[|name| - 1]])
  }

  lemma ExtensionSnoc(front: string, c: char)
    ensures Extension(front + [c]) ==
            if front == [] then None
            else if c == '.' then Some("")
            else if Extension(front).None? then None else Some(Extension(front).value + [c])
  {
    assert (front + [c])[..|front|] == front;
  }

  lemma ExtensionOfRust(stem: string)
    ensures Extension(stem + ".rs") == if stem == [] then None else Some("rs")
  {
    ExtensionSnoc(stem, '.');
    ExtensionSnoc(stem + ".", 'r');
    ExtensionSnoc(stem + "." + "r", 's');
    assert stem + "." + "r" + "s" == stem + ".rs";
    assert "" + "r" + "s" == "rs";
  }

  lemma ExtensionExactly(name: string)
    ensures Extension(name) == Some("rs") <==> |name| > 3 && name[|name| - 3..] == ".rs"
  {
    var n := |name|;
    if n > 3 && name[n - 3..] == ".rs" {
      ExtensionOfRust(name[..n - 3]);
      assert name == name[..n - 3] + name[n - 3..];
    }
    if Extension(name) == Some("rs") {
      DotBefore(name, "rs");
      assert name[n - 3..] == ['.'] + name[n - 2..];
    }
  }

  lemma {:induction false} DotBefore(name: string, x: string)
    requires Extension(name) == Some(x)
    ensures |name| > |x| + 1 && name[|name| - |x| - 1] == '.' && name[|name| - |x|..] == x
    decreases |name|
  {
    var n := |name| - 1;
    if name[n] != '.' {
      var front := Extension(name[..n]).value;
      assert x == front + [name[n]];
      DotBefore(name[..n], front);
      assert name[|name| - |x|..] == name[..n][n - |front|..] + [name[n]];
    }
  }

  ghost predicate Includes(s: Sources, f: Path, t: Path) {
    f in s && Resolved(t) in s[f]
  }

  ghost predicate IncludedBy(s: Sources, done: set<Path>, t: Path) {
    exists f :: f in done && Includes(s, f, t)
  }

  /** Contains the package files and every Rust file that one of its readable files includes. */
  ghost predicate Closed(s: Sources, files: seq<Path>, scanned: set<Path>) {
    && (forall f :: f in files ==> f in scanned)
    && (forall f, t :: f in scanned && Includes(s, f, t) && IsRust(t) ==> t in scanned)
  }

  ghost predicate Least(s: Sources, files: seq<Path>, scanned: set<Path>) {
    Closed(s, files, scanned) && forall other :: Closed(s, files, other) ==> scanned <= other
  }

  /** What the inputs must hold once the files in `done` have been scanned. */
  ghost predicate Records(s: Sources, done: set<Path>, i: Inputs) {
    && (forall f, t :: (f, t) in i.includes <==> f in done && Includes(s, f, t))
    && (forall f, x :: (f, x) in i.unresolved <==> f in done && f in s && Literal(x) in s[f])
    && (forall t :: t in i.externalFiles <==> !Under(i.packageDirs, t) && IncludedBy(s, done, t))
  }

  /** Adding one include of file f. */
  ghost function Record(i: Inputs, f: Path, x: Include): (j: Inputs)
    ensures j.packageDirs == i.packageDirs
    ensures j.includes == i.includes + if x.Resolved? then [(f, x.target)] else []
    ensures j.unresolved == i.unresolved + if x.Literal? then [(f, x.text)] else []
  {
    match x
    case Literal(text) => i.(unresolved := i.unresolved + [(f, text)])
    case Resolved(t) =>
      var j := i.(includes := i.includes + [(f, t)]);
      if Covers(j, t) then j else j.(externalFiles := j.externalFiles + {t})
  }

  /** The same while the first n includes of f are in. */
  ghost predicate RecordsPartly(s: Sources, done: set<Path>, f: Path, n: nat, i: Inputs)
    requires f in s && n <= |s[f]|
  {
    && (forall g, t :: (g, t) in i.includes <==> (g in done && Includes(s, g, t)) || (g == f && Resolved(t) in s[f][..n]))
    && (forall g, x :: (g, x) in i.unresolved <==> (g in done && g in s && Literal(x) in s[g]) || (g == f && Literal(x) in s[f][..n]))
    && (forall t :: t in i.externalFiles <==>
          !Under(i.packageDirs, t) && (IncludedBy(s, done, t) || Resolved(t) in s[f][..n]))
  }

  lemma RecordOne(s: Sources, done: set<Path>, f: Path, n: nat, i: Inputs)
    requires f in s && n < |s[f]| && RecordsPartly(s, done, f, n, i)
    ensures RecordsPartly(s, done, f, n + 1, Record(i, f, s[f][n]))
  {
  }

  lemma RecordFile(s: Sources, done: set<Path>, f: Path, i: Inputs)
    requires f in s
    ensures Records(s, done, i) ==> RecordsPartly(s, done, f, 0, i)
    ensures RecordsPartly(s, done, f, |s[f]|, i) ==> Records(s, done + {f}, i)
  {
  }

  lemma RecordUnreadable(s: Sources, done: set<Path>, f: Path, i: Inputs)
    requires f !in s && Records(s, done, i)
    ensures Records(s, done + {f}, i)
  {
  }

  function Universe(s: Sources, files: seq<Path>): set<Path> {
    (set f | f in files) + set f, x | f in s && x in s[f] && x.Resolved? :: x.target
  }

  /** The Rust targets of one file, added to the worklist unless seen before. */
  ghost predicate Frontier(s: Sources, files: seq<Path>, seen: set<Path>, stack: seq<Path>, done: set<Path>) {
    && done + (set f | f in stack) == seen && seen <= Universe(s, files) && (forall f :: f in files ==> f in seen)
    && (forall f, t :: f in done && Includes(s, f, t) && IsRust(t) ==> t in seen)
    && (forall other :: Closed(s, files, other) ==> seen <= other)
  }

  // ----- how often a file is scanned, and what that lists

  /** The resolved includes among the given ones, each with its file. */
  function TargetsOf(f: Path, xs: seq<Include>): seq<(Path, Path)> {
    if xs == [] then []
    else
      var x := xs[|xs| - 1];
      TargetsOf(f, xs[..|xs| - 1]) + if x.Resolved? then [(f, x.target)] else []
  }

  function LiteralsOf(f: Path, xs: seq<Include>): seq<(Path, string)> {
    if xs == [] then []
    else
      var x := xs[|xs| - 1];
      LiteralsOf(f, xs[..|xs| - 1]) + if x.Literal? then [(f, x.text)] else []
  }

  lemma ListsSnoc(f: Path, xs: seq<Include>, x: Include)
    ensures TargetsOf(f, xs + [x]) == TargetsOf(f, xs) + if x.Resolved? then [(f, x.target)] else []
    ensures LiteralsOf(f, xs + [x]) == LiteralsOf(f, xs) + if x.Literal? then [(f, x.text)] else []
  {
    assert (xs + [x])[..|xs|] == xs;
  }

  lemma ListsNone(f: Path)
    ensures TargetsOf(f, []) == [] && LiteralsOf(f, []) == []
  {
  }

  function IncludesOf(s: Sources, f: Path): seq<Include> {
    if f in s then s[f] else []
  }

  /** The includes of the files in the order they were scanned. */
  ghost predicate Listed(s: Sources, order: seq<Path>, i: Inputs) {
    i.includes == AllTargets(s, order) && i.unresolved == AllLiterals(s, order)
  }

  ghost function AllTargets(s: Sources, order: seq<Path>): seq<(Path, Path)> {
    if order == [] then []
    else
      var f := order[|order| - 1];
      AllTargets(s, order[..|order| - 1]) + TargetsOf(f, IncludesOf(s, f))
  }

  ghost function AllLiterals(s: Sources, order: seq<Path>): seq<(Path, string)> {
    if order == [] then []
    else
      var f := order[|order| - 1];
      AllLiterals(s, order[..|order| - 1]) + LiteralsOf(f, IncludesOf(s, f))
  }

  lemma ListedMore(s: Sources, order: seq<Path>, f: Path, i: Inputs, j: Inputs)
    requires Listed(s, order, i) && Grown(i, f, IncludesOf(s, f), j)
    ensures Listed(s, order + [f], j)
  {
    assert (order + [f])[..|order|] == order;
  }

  /** Scans due: a listed file as often as it is listed, any other file once. */
  function Due(files: seq<Path>, f: Path): nat {
    if f in files then multiset(files)[f] else 1
  }

  ghost predicate Owed(files: seq<Path>, seen: set<Path>, stack: seq<Path>, order: seq<Path>) {
    && (forall f :: f in files ==> f in seen)
    && forall f :: multiset(order)[f] + multiset(stack)[f] == if f in seen then Due(files, f) else 0
  }

  lemma OwedPop(files: seq<Path>, seen: set<Path>, stack: seq<Path>, order: seq<Path>, f: Path)
    requires Owed(files, seen, stack + [f], order)
    ensures Owed(files, seen, stack, order + [f])
  {
    assert multiset(stack + [f]) == multiset(stack) + multiset{f} && multiset(order + [f]) == multiset(order) + multiset{f};
  }

  lemma OwedPush(files: seq<Path>, seen: set<Path>, stack: seq<Path>, order: seq<Path>, t: Path)
    requires Owed(files, seen, stack, order) && t !in seen
    ensures Owed(files, seen + {t}, stack + [t], order)
  {
    assert multiset(stack + [t]) == multiset(stack) + multiset{t};
  }

  /** Scans every readable Rust file reached from the package files, records every
      include it finds, covers every target, and lists as external exactly the
      targets outside all package directories. `order` is the order of the scans. */
  method Scan(s: Sources, packageDirs: set<Path>, files: seq<Path>)
    returns (inputs: Inputs, ghost scanned: set<Path>, ghost order: seq<Path>)
    ensures inputs.packageDirs == packageDirs
    ensures Least(s, files, scanned) && Records(s, scanned, inputs)
    ensures forall f, t :: (f, t) in inputs.includes ==> Covers(inputs, t)
    ensures Listed(s, order, inputs) && forall f :: multiset(order)[f] == if f in scanned then Due(files, f) else 0
  {
    hide Listed, Covers, Records, Frontier, Owed;
    inputs := Inputs(packageDirs, {}, [], []);
    var stack := files;
    var seen := set f | f in files;
    ghost var done: set<Path> := {};
    order := [];
    NothingScanned(s, files, inputs);
    while stack != []
      invariant inputs.packageDirs == packageDirs && Records(s, done, inputs) && Frontier(s, files, seen, stack, done)
      invariant Listed(s, order, inputs) && Owed(files, seen, stack, order)
      decreases Universe(s, files) - seen, |stack|
    {
      var f := stack[|stack| - 1];
      ghost var before := stack;
      stack := stack[..|stack| - 1];
      assert before == stack + [f];
      OwedPop(files, seen, stack, order, f);
      ghost var was := inputs;
      PoppedSeen(s, files, seen, stack, done, f);
      if f !in s {
        RecordUnreadable(s, done, f, inputs);
        NothingGrown(inputs, f, seen);
        PoppedUnreadable(s, files, seen, stack, done, f);
      } else {
        inputs, seen, stack := ScanFile(s, f, inputs, files, seen, stack, done, order + [f]);
      }
      ListedMore(s, order, f, was, inputs);
      assert inputs.packageDirs == packageDirs;
      SeenBounded(s, files, seen, stack, done + {f});
      done, order := done + {f}, order + [f];
    }
    scanned := done;
    AllScanned(s, files, seen, done, order);
    IncludesCovered(s, done, inputs);
  }

  lemma NothingScanned(s: Sources, files: seq<Path>, i: Inputs)
    requires i.includes == [] && i.unresolved == [] && i.externalFiles == {}
    ensures Listed(s, [], i) && Records(s, {}, i)
    ensures var seen := set f | f in files; Frontier(s, files, seen, files, {}) && Owed(files, seen, files, [])
  {
  }

  lemma AllScanned(s: Sources, files: seq<Path>, seen: set<Path>, done: set<Path>, order: seq<Path>)
    requires Frontier(s, files, seen, [], done) && Owed(files, seen, [], order)
    ensures Least(s, files, done) && forall f :: multiset(order)[f] == if f in done then Due(files, f) else 0
  {
    assert done == seen;
  }

  lemma PoppedUnreadable(s: Sources, files: seq<Path>, seen: set<Path>, stack: seq<Path>, done: set<Path>, f: Path)
    requires Frontier(s, files, seen, stack + [f], done) && f !in s
    ensures Frontier(s, files, seen, stack, done + {f})
  {
    FrontierDone(s, files, seen, stack, done, f);
  }

  lemma SeenBounded(s: Sources, files: seq<Path>, seen: set<Path>, stack: seq<Path>, done: set<Path>)
    requires Frontier(s, files, seen, stack, done)
    ensures seen <= Universe(s, files)
  {
  }

  lemma PoppedSeen(s: Sources, files: seq<Path>, seen: set<Path>, stack: seq<Path>, done: set<Path>, f: Path)
    requires Frontier(s, files, seen, stack + [f], done)
    ensures f in seen && seen <= Universe(s, files)
  {
    assert (stack + [f])[|stack|] == f;
  }

  lemma IncludesCovered(s: Sources, done: set<Path>, i: Inputs)
    requires Records(s, done, i)
    ensures forall f, t :: (f, t) in i.includes ==> Covers(i, t)
  {
    forall f, t | (f, t) in i.includes ensures Covers(i, t) {
      assert Includes(s, f, t) && f in done;
    }
  }

  /** What the includes xs of f have added to i. */
  ghost predicate Grown(i: Inputs, f: Path, xs: seq<Include>, j: Inputs) {
    && j.packageDirs == i.packageDirs && j.includes == i.includes + TargetsOf(f, xs)
    && j.unresolved == i.unresolved + LiteralsOf(f, xs)
  }

  lemma GrownMore(i: Inputs, f: Path, xs: seq<Include>, x: Include, j: Inputs)
    requires Grown(i, f, xs, j)
    ensures Grown(i, f, xs + [x], Record(j, f, x))
  {
    hide Record;
    ListsSnoc(f, xs, x);
  }

  ghost predicate RustSeen(xs: seq<Include>, seen: set<Path>) {
    forall t :: Resolved(t) in xs && IsRust(t) ==> t in seen
  }

  lemma RustSeenMore(xs: seq<Include>, x: Include, seen: set<Path>)
    requires RustSeen(xs, seen)
    ensures x.Literal? || !IsRust(x.target) || x.target in seen ==> RustSeen(xs + [x], seen)
    ensures x.Resolved? ==> RustSeen(xs + [x], seen + {x.target})
  {
  }

  method ScanFile(s: Sources, f: Path, i: Inputs, ghost files: seq<Path>, seen: set<Path>, stack: seq<Path>, ghost done: set<Path>,
                  ghost order: seq<Path>)
    returns (inputs: Inputs, seen': set<Path>, stack': seq<Path>)
    requires f in s && f in seen && Records(s, done, i) && Frontier(s, files, seen, stack + [f], done)
    requires Owed(files, seen, stack, order)
    ensures Records(s, done + {f}, inputs) && Grown(i, f, s[f], inputs)
    ensures Frontier(s, files, seen', stack', done + {f}) && Owed(files, seen', stack', order)
    ensures seen <= seen' && (seen' == seen ==> stack' == stack)
  {
    hide Records, RecordsPartly, Frontier, Owed, Record, IsRust, Grown, RustSeen;
    inputs, seen', stack' := i, seen, stack;
    var xs := s[f];
    RecordFile(s, done, f, i);
    assert xs[..0] == [];
    assert Grown(i, f, [], i) && RustSeen([], seen) by { NothingGrown(i, f, seen); }
    var n := 0;
    while n < |xs|
      invariant 0 <= n <= |xs| && RecordsPartly(s, done, f, n, inputs) && Grown(i, f, xs[..n], inputs)
      invariant Frontier(s, files, seen', stack' + [f], done) && Owed(files, seen', stack', order)
      invariant RustSeen(xs[..n], seen') && f in seen'
      invariant seen <= seen' && (seen' == seen ==> stack' == stack)
    {
      var x := xs[n];
      RecordOne(s, done, f, n, inputs);
      GrownMore(i, f, xs[..n], x, inputs);
      RustSeenMore(xs[..n], x, seen');
      assert xs[..n + 1] == xs[..n] + [x];
      inputs := RecordInclude(inputs, f, x);
      n := n + 1;
      if x.Literal? { continue; }
      var rust := HasRustExtension(x.target);
      if rust && x.target !in seen' {
        FrontierGrows(s, files, seen', stack', done, f, x.target);
        OwedPush(files, seen', stack', order, x.target);
        seen', stack' := seen' + {x.target}, stack' + [x.target];
      }
    }
    RecordFile(s, done, f, inputs);
    assert xs[..|xs|] == xs;
    FileDone(s, files, seen', stack', done, f);
  }

  lemma NothingGrown(i: Inputs, f: Path, seen: set<Path>)
    ensures Grown(i, f, [], i) && RustSeen([], seen)
  {
  }

  lemma FileDone(s: Sources, files: seq<Path>, seen: set<Path>, stack: seq<Path>, done: set<Path>, f: Path)
    requires f in s && Frontier(s, files, seen, stack + [f], done) && RustSeen(s[f], seen)
    ensures Frontier(s, files, seen, stack, done + {f})
  {
    FrontierDone(s, files, seen, stack, done, f);
  }

  method RecordInclude(i: Inputs, f: Path, x: Include) returns (inputs: Inputs)
    ensures inputs == Record(i, f, x)
  {
    hide Covers;
    inputs := i;
    if x.Literal? {
      inputs := inputs.(unresolved := inputs.unresolved + [(f, x.text)]);
      return;
    }
    inputs := inputs.(includes := inputs.includes + [(f, x.target)]);
    var covered := CoversPath(inputs, x.target);
    if !covered {
      inputs := inputs.(externalFiles := inputs.externalFiles + {x.target});
    }
  }

  method HasRustExtension(p: Path) returns (rust: bool)
    ensures rust <==> IsRust(p)
  {
    if p == [] { return false; }
    ExtensionExactly(p[|p| - 1]);
    rust := Extension(p[|p| - 1]) == Some("rs");
  }

  lemma FrontierGrows(s: Sources, files: seq<Path>, seen: set<Path>, stack: seq<Path>, done: set<Path>, f: Path, t: Path)
    requires Frontier(s, files, seen, stack + [f], done) && f in seen && Includes(s, f, t) && IsRust(t)
    ensures Frontier(s, files, seen + {t}, stack + [t] + [f], done)
  {
  }

  lemma FrontierDone(s: Sources, files: seq<Path>, seen: set<Path>, stack: seq<Path>, done: set<Path>, f: Path)
    requires Frontier(s, files, seen, stack + [f], done)
    requires forall t :: Includes(s, f, t) && IsRust(t) ==> t in seen
    ensures Frontier(s, files, seen, stack, done + {f})
  {
  }

  /** The Rust files below each package directory; a directory that cannot be listed has none. */
  function RustFiles(listing: map<Path, seq<Path>>, dir: Path): seq<Path> {
    if dir in listing then listing[dir] else []
  }

  ghost predicate InPackages(w: Workspace, listing: map<Path, seq<Path>>, f: Path) {
    exists d :: Linked(w, d) && f in RustFiles(listing, d)
  }

  /** The derivation from end to end: an error exactly when the closure cannot be
      read, and otherwise inputs that miss nothing the image's sources include. */
  method Derive(w: Workspace, listing: map<Path, seq<Path>>, s: Sources)
    returns (r: Result<Inputs>, ghost files: seq<Path>, ghost scanned: set<Path>, ghost order: seq<Path>)
    ensures r.Err? <==> Unreadable(w)
    ensures r.Ok? ==>
      && (forall d :: d in r.value.packageDirs <==> Linked(w, d))
      && (forall f :: f in files <==> InPackages(w, listing, f))
      && Least(s, files, scanned) && Records(s, scanned, r.value)
      && (forall f, t :: (f, t) in r.value.includes ==> Covers(r.value, t))
      && Listed(s, order, r.value) && (forall f :: multiset(order)[f] == if f in scanned then Due(files, f) else 0)
  {
    hide Covers, Listed;
    files, scanned, order := [], {}, [];
    var dirs := ClosureDirs(w);
    if dirs.Err? { return Err, [], {}, []; }
    var found: seq<Path> := [];
    var left := dirs.value;
    while left != {}
      invariant left <= dirs.value
      invariant forall f :: f in found <==> exists d :: d in dirs.value - left && f in RustFiles(listing, d)
      decreases left
    {
      var d :| d in left;
      ghost var before := dirs.value - left;
      found := found + RustFiles(listing, d);
      left := left - {d};
      assert dirs.value - left == before + {d};
    }
    assert dirs.value - left == dirs.value;
    files := found;
    var inputs;
    inputs, scanned, order := Scan(s, dirs.value, found);
    r := Ok(inputs);
  }
}
