/** From the hunks of a file's diff to its block counters (`parse_file_diff`),
    and what the reported line counts mean in lines of the diff. */
module DiffLines {
  import opened FiniteSums
  import opened Transport
  import opened HunkBlocks
  import opened MoveDetector
  import opened MoveCounts
  import opened Wrappers

  /** The removed lines, stripped, and the added lines of one hunk. */
  datatype Hunk = Hunk(removed: seq<string>, added: seq<Line>)

  function RemovedBlocks(hs: seq<Hunk>): seq<Block> {
    if hs == [] then [] else RemovedBlocks(hs[..|hs| - 1]) + Runs(Nonblank(hs[|hs| - 1].removed))
  }

  ghost function AddedBlocks(hs: seq<Hunk>, declarations: bool): seq<Block> {
    if hs == [] then []
    else
      var added := hs[|hs| - 1].added;
      AddedBlocks(hs[..|hs| - 1], declarations) + Runs(Marked(added, Marking(added, 0), declarations))
  }

  ghost function DiffOf(hs: seq<Hunk>): FileDiff {
    FileDiff(multiset(RemovedBlocks(hs)), multiset(AddedBlocks(hs, false)), multiset(AddedBlocks(hs, true)))
  }

  method ParseFileDiff(hs: seq<Hunk>) returns (d: FileDiff)
    ensures d == DiffOf(hs)
  {
    hide Runs, Marked, Marking, Nonblank;
    d := FileDiff(multiset{}, multiset{}, multiset{});
    var i := 0;
    while i < |hs|
      invariant 0 <= i <= |hs| && d == DiffOf(hs[..i])
    {
      assert hs[..i + 1][..i] == hs[..i];
      var removed := ClassifyRemoved(hs[i].removed);
      var required, declared := ClassifyAdded(hs[i].added);
      d := FileDiff(d.removed + removed, d.required + required, d.declared + declared);
      i := i + 1;
    }
    assert hs[..|hs|] == hs;
  }

  /** How often b is a maximal run of nonblank removed lines, over all hunks. */
  function RemovedIn(hs: seq<Hunk>, b: Block): nat {
    if hs == [] then 0 else RemovedIn(hs[..|hs| - 1], b) + |RemovedPlaces(hs[|hs| - 1].removed, b)|
  }

  ghost function AddedIn(hs: seq<Hunk>, b: Block, declared: bool): nat {
    if hs == [] then 0 else AddedIn(hs[..|hs| - 1], b, declared) + |AddedPlaces(hs[|hs| - 1].added, b, declared)|
  }

  /** The three counters, said of the lines of the hunks. */
  lemma {:induction false} DiffOfExactly(hs: seq<Hunk>, b: Block)
    ensures DiffOf(hs).removed[b] == RemovedIn(hs, b)
    ensures DiffOf(hs).required[b] == AddedIn(hs, b, false) && DiffOf(hs).declared[b] == AddedIn(hs, b, true)
    decreases |hs|
  {
    if hs != [] {
      var last := hs[|hs| - 1];
      DiffOfExactly(hs[..|hs| - 1], b);
      RemovedCounted(last.removed, b);
      AddedCounted(last.added, b, false);
      AddedCounted(last.added, b, true);
      hide Runs, Nonblank, Marked, Marking, RemovedPlaces, AddedPlaces;
    }
  }

  /** The nonblank removed lines of a diff, in order. */
  function RemovedText(hs: seq<Hunk>): seq<string> {
    if hs == [] then [] else RemovedText(hs[..|hs| - 1]) + Present(Nonblank(hs[|hs| - 1].removed))
  }

  lemma {:induction false} FlatAppend(a: seq<Block>, b: seq<Block>)
    ensures Flat(a + b) == Flat(a) + Flat(b)
    decreases |b|
  {
    if b == [] {
      assert a + b == a;
    } else {
      var n := |b| - 1;
      FlatAppend(a, b[..n]);
      assert (a + b)[..|a| + n] == a + b[..n] && (a + b)[|a| + n] == b[n];
      assert Flat(a + b) == Flat(a + b[..n]) + b[n].lines;
    }
  }

  /** The removed blocks of a diff hold exactly its nonblank removed lines, in order. */
  lemma {:induction false} RemovedTextConserved(hs: seq<Hunk>)
    ensures Flat(RemovedBlocks(hs)) == RemovedText(hs)
    decreases |hs|
  {
    if hs != [] {
      var front, last := hs[..|hs| - 1], hs[|hs| - 1];
      RemovedTextConserved(front);
      RunsConserve(Nonblank(last.removed));
      FlatAppend(RemovedBlocks(front), Runs(Nonblank(last.removed)));
    }
  }

  function CountedLines(m: multiset<Block>): Block -> nat {
    b => m[b] * |b.lines|
  }

  /** One more copy of x adds its lines and nothing else. */
  lemma OneMoreBlock(m: multiset<Block>, x: Block)
    ensures Sum(Distinct(m + multiset{x}), CountedLines(m + multiset{x})) == Sum(Distinct(m), CountedLines(m)) + |x.lines|
  {
    hide Sum;
    var more := m + multiset{x};
    assert Distinct(more) == Distinct(m) + {x};
    SumExtend(Distinct(m), Distinct(more), CountedLines(m));
    LinesIsProduct(m[x], x);
    LinesIsProduct(more[x], x);
    SumChange(Distinct(more), CountedLines(m), CountedLines(more), x);
  }

  /** Length times multiplicity, summed over the distinct blocks, counts every line once. */
  lemma {:induction false} MultiplicityCountsLines(bs: seq<Block>)
    ensures Sum(Distinct(multiset(bs)), CountedLines(multiset(bs))) == |Flat(bs)|
    decreases |bs|
  {
    if bs == [] {
      SumZero(Distinct(multiset(bs)), CountedLines(multiset(bs)));
    } else {
      var front, x := bs[..|bs| - 1], bs[|bs| - 1];
      MultiplicityCountsLines(front);
      assert bs == front + [x];
      OneMoreBlock(multiset(front), x);
    }
  }

  /** A file's removed lines, counted over its counter, are the nonblank removed lines of its diff. */
  lemma RemovedLinesOfDiff(d: Diffs, f: Path, hs: seq<Hunk>)
    requires f in d && d[f].removed == multiset(RemovedBlocks(hs))
    ensures RemovedLines(d)(f) == |RemovedText(hs)|
  {
    hide Sum, Flat, RemovedBlocks, RemovedText;
    var m := d[f].removed;
    forall b ensures Row(RemovedLinesIn(d), f)(b) == CountedLines(m)(b) {
      LinesIsProduct(m[b], b);
      assert RemovedLinesIn(d)(f, b) == Lines(Removed(d, b)(f), b);
    }
    SumSame(Distinct(m), Row(RemovedLinesIn(d), f), CountedLines(m));
    MultiplicityCountsLines(RemovedBlocks(hs));
    RemovedTextConserved(hs);
  }

  /** The nonblank added lines of a diff, in order. */
  function AddedText(hs: seq<Hunk>): seq<string> {
    if hs == [] then [] else AddedText(hs[..|hs| - 1]) + Present(Unblank(hs[|hs| - 1].added))
  }

  /** The two kinds of added block together hold exactly the nonblank added lines. */
  lemma {:induction false} AddedTextConserved(hs: seq<Hunk>)
    ensures multiset(Flat(AddedBlocks(hs, false))) + multiset(Flat(AddedBlocks(hs, true))) == multiset(AddedText(hs))
    decreases |hs|
  {
    if hs != [] {
      var front, added := hs[..|hs| - 1], hs[|hs| - 1].added;
      AddedTextConserved(front);
      AddedLinesConserved(added, Marking(added, 0));
      hide Flat, Runs, Marked, Present, Unblank, Marking;
      FlatAppend(AddedBlocks(front, false), Runs(Marked(added, Marking(added, 0), false)));
      FlatAppend(AddedBlocks(front, true), Runs(Marked(added, Marking(added, 0), true)));
    }
  }

  /** A file's required and declared lines, counted over its counters, are the nonblank added lines of its diff. */
  lemma AddedLinesOfDiff(hs: seq<Hunk>)
    ensures var d := DiffOf(hs);
            Sum(Distinct(d.required), CountedLines(d.required)) + Sum(Distinct(d.declared), CountedLines(d.declared)) ==
            |AddedText(hs)|
  {
    hide Sum, Flat, AddedBlocks, AddedText;
    MultiplicityCountsLines(AddedBlocks(hs, false));
    MultiplicityCountsLines(AddedBlocks(hs, true));
    AddedTextConserved(hs);
    assert |multiset(AddedText(hs))| == |AddedText(hs)|;
  }

  /** How many removed lines are not blank. */
  function RemovedLineCount(hs: seq<Hunk>): nat {
    if hs == [] then 0
    else
      var removed := hs[|hs| - 1].removed;
      RemovedLineCount(hs[..|hs| - 1]) + |set k: nat | k < |removed| && removed[k] != ""|
  }

  function AddedLineCount(hs: seq<Hunk>): nat {
    if hs == [] then 0
    else
      var added := hs[|hs| - 1].added;
      AddedLineCount(hs[..|hs| - 1]) + |set k: nat | k < |added| && added[k].text != ""|
  }

  function PresentPlaces(items: seq<Option<string>>): set<nat> {
    set k: nat | k < |items| && items[k].Some?
  }

  lemma PresentPlacesStep(items: seq<Option<string>>)
    requires items != []
    ensures var n := |items| - 1;
            |PresentPlaces(items)| == |PresentPlaces(items[..n])| + if items[n].Some? then 1 else 0
  {
    var n := |items| - 1;
    var before := PresentPlaces(items[..n]);
    assert PresentPlaces(items) == if items[n].Some? then before + {n} else before;
  }

  lemma {:induction false} PresentCount(items: seq<Option<string>>)
    ensures |Present(items)| == |PresentPlaces(items)|
    decreases |items|
  {
    if items != [] {
      PresentCount(items[..|items| - 1]);
      PresentPlacesStep(items);
      hide PresentPlaces;
    }
  }

  lemma {:induction false} LineCounts(hs: seq<Hunk>)
    ensures |RemovedText(hs)| == RemovedLineCount(hs) && |AddedText(hs)| == AddedLineCount(hs)
    decreases |hs|
  {
    if hs != [] {
      var removed, added := hs[|hs| - 1].removed, hs[|hs| - 1].added;
      LineCounts(hs[..|hs| - 1]);
      PresentCount(Nonblank(removed));
      PresentCount(Unblank(added));
      assert (set k: nat | k < |removed| && removed[k] != "") ==
             PresentPlaces(Nonblank(removed));
      assert (set k: nat | k < |added| && added[k].text != "") ==
             PresentPlaces(Unblank(added));
    }
  }

  function RemovedCount(diff: map<Path, seq<Hunk>>): Path -> nat {
    f => if f in diff then RemovedLineCount(diff[f]) else 0
  }

  predicate IsRust(f: Path) {
    |f.name| >= 3 && f.name[|f.name| - 3..] == ".rs"
  }

  predicate Changes(d: FileDiff) {
    d.removed != multiset{} || d.required != multiset{} || d.declared != multiset{}
  }

  /** The counters of the Rust files that add or remove anything. */
  ghost function DiffsOf(diff: map<Path, seq<Hunk>>): Diffs {
    map f | f in diff && IsRust(f) && Changes(DiffOf(diff[f])) :: DiffOf(diff[f])
  }

  lemma {:induction false} FlatEmpty(bs: seq<Block>)
    requires forall b :: b in bs ==> b.lines != []
    ensures Flat(bs) == [] <==> bs == []
  {
  }

  lemma {:induction false} NoEmptyBlocks(hs: seq<Hunk>)
    ensures forall b :: b in RemovedBlocks(hs) ==> b.lines != []
    ensures forall b :: b in AddedBlocks(hs, false) ==> b.lines != []
    ensures forall b :: b in AddedBlocks(hs, true) ==> b.lines != []
    decreases |hs|
  {
    if hs != [] {
      var added := hs[|hs| - 1].added;
      NoEmptyBlocks(hs[..|hs| - 1]);
      RunsConserve(Nonblank(hs[|hs| - 1].removed));
      RunsConserve(Marked(added, Marking(added, 0), false));
      RunsConserve(Marked(added, Marking(added, 0), true));
      hide Runs, Nonblank, Marked, Marking;
    }
  }

  /** A file enters exactly when it is a Rust file with a nonblank removed or added line. */
  lemma ChangesExactly(hs: seq<Hunk>)
    ensures Changes(DiffOf(hs)) <==> RemovedLineCount(hs) > 0 || AddedLineCount(hs) > 0
  {
    hide Flat, RemovedBlocks, AddedBlocks, RemovedText, AddedText;
    NoEmptyBlocks(hs);
    FlatEmpty(RemovedBlocks(hs));
    FlatEmpty(AddedBlocks(hs, false));
    FlatEmpty(AddedBlocks(hs, true));
    RemovedTextConserved(hs);
    AddedTextConserved(hs);
    LineCounts(hs);
    assert |multiset(AddedText(hs))| == |AddedText(hs)|;
    EmptyBlocks(RemovedBlocks(hs));
    EmptyBlocks(AddedBlocks(hs, false));
    EmptyBlocks(AddedBlocks(hs, true));
  }

  lemma EmptyBlocks(bs: seq<Block>)
    ensures multiset(bs) == multiset{} <==> bs == []
    ensures |multiset(Flat(bs))| == |Flat(bs)|
  {
    if bs != [] {
      assert bs[0] in multiset(bs);
    }
  }

  method CollectDiffs(diff: map<Path, seq<Hunk>>) returns (d: Diffs)
    ensures d == DiffsOf(diff)
  {
    hide DiffOf, Changes;
    d := map[];
    var left := diff.Keys;
    while left != {}
      invariant left <= diff.Keys
      invariant forall f :: f in d <==> f in diff && f !in left && IsRust(f) && Changes(DiffOf(diff[f]))
      invariant forall f :: f in d ==> d[f] == DiffOf(diff[f])
      decreases left
    {
      var f :| f in left;
      if IsRust(f) {
        var parsed := ParseFileDiff(diff[f]);
        if Changes(parsed) {
          d := d[f := parsed];
        }
      }
      left := left - {f};
    }
  }

  /** In the counters of a diff, removed lines are the nonblank removed lines. */
  lemma RemovedLinesAgree(diff: map<Path, seq<Hunk>>, c: set<Path>)
    requires c <= DiffsOf(diff).Keys
    ensures Sum(c, RemovedLines(DiffsOf(diff))) == Sum(c, RemovedCount(diff))
    ensures forall f :: f in c ==> RemovedLines(DiffsOf(diff))(f) == RemovedCount(diff)(f)
  {
    hide Sum, RemovedLines;
    forall f | f in c ensures RemovedLines(DiffsOf(diff))(f) == RemovedCount(diff)(f) {
      RemovedLinesOfDiff(DiffsOf(diff), f, diff[f]);
      LineCounts(diff[f]);
    }
    SumSame(c, RemovedLines(DiffsOf(diff)), RemovedCount(diff));
  }

  /** The whole detector on a diff: nothing when the covered files remove no line;
      otherwise the covered files, a pure move, each credited with the lines that
      leave it and that arrive, and in total exactly twice the nonblank lines they remove. */
  method DetectMoves(diff: map<Path, seq<Hunk>>) returns (moved: map<Path, nat>, ghost plans: map<Block, Plan>)
    ensures var d := DiffsOf(diff);
            var covered := Covered(d, d.Keys);
            if Sum(covered, RemovedCount(diff)) == 0 then moved == map[]
            else
              && moved.Keys == covered && PureMove(d, covered) && Credits(d, covered, plans, moved)
              && Sum(covered, At(moved)) == 2 * Sum(covered, RemovedCount(diff))
              && forall f :: f in covered ==> RemovedCount(diff)(f) <= moved[f]
  {
    hide Sum, Covered, PureMove, RemovedLines, RemovedCount, DiffsOf, Credits;
    var d := CollectDiffs(diff);
    moved, plans := DetectMoveCoveredFiles(d);
    RemovedLinesAgree(diff, Covered(d, d.Keys));
    forall f | f in moved ensures RemovedCount(diff)(f) <= moved[f] {
      OwnRemovalsCredited(d, moved.Keys, plans, moved, f);
    }
  }

  lemma OwnRemovalsCredited(d: Diffs, c: set<Path>, plans: map<Block, Plan>, moved: map<Path, nat>, f: Path)
    requires Credits(d, c, plans, moved) && f in c
    ensures RemovedLines(d)(f) <= moved[f]
  {
    hide Sum, AllBlocks, MovesBlock;
    OwnBlocksSuffice(d, c, f);
    forall b | b in AllBlocks(d, c) ensures Row(RemovedLinesIn(d), f)(b) <= Credit(d, c, plans, f)(b) {
      LinesIsProduct(Removed(d, b)(f), b);
      MoreCopies(Removed(d, b)(f), Incoming(c, plans[b], f), |b.lines|);
    }
    SumLeq(AllBlocks(d, c), Row(RemovedLinesIn(d), f), Credit(d, c, plans, f));
  }

  lemma MoreCopies(a: nat, more: nat, length: nat)
    ensures a * length <= (a + more) * length
  {
  }
}
