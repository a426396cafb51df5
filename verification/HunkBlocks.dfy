/** Splitting a diff hunk into blocks, and telling required additions from
    allowlisted `mod`/`use` declarations (`classify_hunk_*_blocks`). A line is its
    stripped text with what the regular expressions say about it. */
module HunkBlocks {
  import opened Wrappers

  /** An ordered run of stripped lines; the unit that moves. */
  datatype Block = Block(lines: seq<string>)

  datatype LineFacts = LineFacts(
    text: string,
    note: bool,    // a comment or outer attribute
    isMod: bool,   // a whole `mod name;`
    isUse: bool,   // starts with `use ...`
    ends: bool,    // ends with a semicolon
    headOk: bool,  // as first line of a use: nonempty body of allowed characters
    contOk: bool,  // as continuation line: likewise
    opens: nat, closes: nat)  // braces

  /** No expression matches a blank line, and none of the declarations a note. */
  type Line = l: LineFacts | (l.note || l.isMod || l.isUse ==> l.text != "") && !(l.note && (l.isMod || l.isUse))
    witness LineFacts("", false, false, false, false, false, false, 0, 0)

  /** Brace depth after the lines from `from` up to `to`. */
  function Depth(lines: seq<Line>, from: nat, to: nat): int
    requires from <= to <= |lines|
  {
    if from == to then 0 else Depth(lines, from, to - 1) + lines[to - 1].opens - lines[to - 1].closes
  }

  /** The declaration starts like a `use` that stays open up to `to`. */
  ghost predicate OpenUse(lines: seq<Line>, from: nat, to: nat)
    requires from < to <= |lines|
  {
    && lines[from].isUse && !lines[from].ends && lines[from].headOk
    && (forall m :: from < m < to ==> lines[m].text != "" && !lines[m].ends && lines[m].contOk)
    && (forall m :: from < m <= to ==> Depth(lines, from, m) > 0)
  }

  /** The lines from `from` to `to` are one declaration: a `mod`, a balanced one-line
      `use`, or a `use` whose braces close at its last line and at no earlier one. */
  ghost predicate IsDecl(lines: seq<Line>, from: nat, to: nat)
    requires from < to <= |lines|
  {
    var last := lines[to - 1];
    if lines[from].isMod then to == from + 1
    else
      && Depth(lines, from, to) == 0 && last.ends
      && if to == from + 1 then last.isUse && last.headOk
         else OpenUse(lines, from, to - 1) && last.text != "" && last.contOk
  }

  ghost predicate StartsDecl(lines: seq<Line>, from: nat)
    requires from < |lines|
  {
    exists to :: from < to <= |lines| && IsDecl(lines, from, to)
  }

  /** How many lines the declaration starting here has, 0 if none does. */
  ghost function DeclLength(lines: seq<Line>, from: nat): (n: nat)
    requires from < |lines|
    ensures n > 0 <==> StartsDecl(lines, from)
    ensures n > 0 ==> from + n <= |lines| && IsDecl(lines, from, from + n)
  {
    if StartsDecl(lines, from) then
      var to :| from < to <= |lines| && IsDecl(lines, from, to);
      to - from
    else 0
  }

  /** A declaration ends in one place only. */
  lemma DeclUnique(lines: seq<Line>, from: nat, a: nat, b: nat)
    requires from < a <= |lines| && IsDecl(lines, from, a)
    requires from < b <= |lines| && IsDecl(lines, from, b)
    ensures a == b
  {
  }

  lemma DeclLengthIs(lines: seq<Line>, from: nat, length: nat)
    requires from < |lines| && (length > 0 <==> StartsDecl(lines, from))
    requires length > 0 ==> from + length <= |lines| && IsDecl(lines, from, from + length)
    ensures length == DeclLength(lines, from)
  {
    if length > 0 {
      DeclUnique(lines, from, from + length, from + DeclLength(lines, from));
    }
  }

  /** Finds the declaration that starts at `index`, or 0 when none does; a
      declaration never runs past the hunk. */
  method MatchDeclAt(lines: seq<Line>, index: nat) returns (length: nat)
    requires index < |lines|
    ensures length > 0 ==> index + length <= |lines| && IsDecl(lines, index, index + length)
    ensures length > 0 <==> StartsDecl(lines, index)
  {
    var line := lines[index];
    assert Depth(lines, index, index + 1) == line.opens - line.closes;
    if line.isMod {
      assert IsDecl(lines, index, index + 1);
      return 1;
    }
    if !line.isUse { return 0; }
    if line.ends {
      if line.headOk && line.opens == line.closes {
        assert IsDecl(lines, index, index + 1);
        return 1;
      }
      return 0;
    }
    if !line.headOk { return 0; }
    var depth := line.opens - line.closes;
    if depth <= 0 { StaysClosed(lines, index, index + 1); return 0; }
    var cursor := index + 1;
    while cursor < |lines|
      invariant index < cursor <= |lines| && depth == Depth(lines, index, cursor) && OpenUse(lines, index, cursor)
    {
      var cont := lines[cursor];
      NoShorter(lines, index, cursor);
      if cont.text == "" { NotThrough(lines, index, cursor); return 0; }
      if cont.ends {
        depth := depth + cont.opens - cont.closes;
        if cont.contOk && depth == 0 {
          assert IsDecl(lines, index, cursor + 1);
          return cursor - index + 1;
        }
        NotThrough(lines, index, cursor);
        return 0;
      }
      if !cont.contOk { NotThrough(lines, index, cursor); return 0; }
      depth := depth + cont.opens - cont.closes;
      if depth <= 0 { NoShorter(lines, index, cursor); StaysClosed(lines, index, cursor + 1); return 0; }
      cursor := cursor + 1;
    }
    NoShorter(lines, index, cursor);
    length := 0;
  }

  /** An open use has not ended at any line so far. */
  lemma NoShorter(lines: seq<Line>, from: nat, cursor: nat)
    requires from < cursor <= |lines| && OpenUse(lines, from, cursor) && !lines[from].isMod
    ensures forall to :: from < to <= cursor ==> !IsDecl(lines, from, to)
  {
  }

  /** A line that no open use can contain and that does not end one stops every longer declaration too. */
  lemma NotThrough(lines: seq<Line>, from: nat, cursor: nat)
    requires from < cursor < |lines| && OpenUse(lines, from, cursor) && !lines[from].isMod
    requires lines[cursor].text == "" || lines[cursor].ends || !lines[cursor].contOk
    requires !IsDecl(lines, from, cursor + 1)
    ensures !StartsDecl(lines, from)
  {
  }

  lemma StaysClosed(lines: seq<Line>, from: nat, cursor: nat)
    requires from < cursor <= |lines| && lines[from].isUse && !lines[from].ends && !lines[from].isMod
    requires Depth(lines, from, cursor) <= 0 && !lines[cursor - 1].ends
    requires forall to :: from < to < cursor ==> !IsDecl(lines, from, to)
    ensures !StartsDecl(lines, from)
  {
  }

  // ----- blocks: the maximal runs

  /** Maximal runs of present items, in order. */
  function Runs(items: seq<Option<string>>): seq<Block> {
    var (done, open) := Split(items);
    if open == [] then done else done + [Block(open)]
  }

  /** Finished runs, and the run still open at the end. */
  function Split(items: seq<Option<string>>): (seq<Block>, seq<string>) {
    if items == [] then ([], [])
    else
      var (done, open) := Split(items[..|items| - 1]);
      Push(done, open, items[|items| - 1])
  }

  /** A present item extends the open run, a gap finishes it. */
  function Push(done: seq<Block>, open: seq<string>, item: Option<string>): (seq<Block>, seq<string>) {
    if item.Some? then (done, open + [item.value])
    else if open == [] then (done, [])
    else (done + [Block(open)], [])
  }

  lemma SplitStep(items: seq<Option<string>>, i: nat)
    requires i < |items|
    ensures Split(items[..i + 1]) == Push(Split(items[..i]).0, Split(items[..i]).1, items[i])
  {
    assert items[..i + 1][..i] == items[..i];
  }

  function Present(items: seq<Option<string>>): seq<string> {
    if items == [] then []
    else Present(items[..|items| - 1]) + if items[|items| - 1].Some? then [items[|items| - 1].value] else []
  }

  function Flat(blocks: seq<Block>): seq<string> {
    if blocks == [] then [] else Flat(blocks[..|blocks| - 1]) + blocks[|blocks| - 1].lines
  }

  lemma {:induction false} SplitConserves(items: seq<Option<string>>)
    ensures Flat(Split(items).0) + Split(items).1 == Present(items)
    ensures forall b :: b in Split(items).0 ==> b.lines != []
    decreases |items|
  {
    if items != [] {
      SplitConserves(items[..|items| - 1]);
      var (done, open) := Split(items[..|items| - 1]);
      assert (done + [Block(open)])[..|done|] == done;
    }
  }

  /** Every present line lands in exactly one block, in order, and no block is empty. */
  lemma RunsConserve(items: seq<Option<string>>)
    ensures Flat(Runs(items)) == Present(items) && forall b :: b in Runs(items) ==> b.lines != []
  {
    SplitConserves(items);
    var (done, open) := Split(items);
    assert (done + [Block(open)])[..|done|] == done;
  }

  /** [i, j) holds present items only and cannot be extended at either end. */
  predicate IsRun(items: seq<Option<string>>, i: nat, j: nat) {
    && i < j <= |items| && (forall k :: i <= k < j ==> items[k].Some?)
    && (i == 0 || items[i - 1].None?) && (j == |items| || items[j].None?)
  }

  predicate Holds(items: seq<Option<string>>, i: nat, text: seq<string>) {
    i + |text| <= |items| && forall k :: i <= k < i + |text| ==> items[k] == Some(text[k - i])
  }

  /** A maximal run from i, with its text. */
  predicate RunAt(items: seq<Option<string>>, i: nat, text: seq<string>) {
    IsRun(items, i, i + |text|) && Holds(items, i, text)
  }

  /** The blocks stand at these starts, in order, and every run that ends before `end` is one of them. */
  ghost predicate RunsAt(items: seq<Option<string>>, blocks: seq<Block>, starts: seq<nat>, end: nat) {
    && |starts| == |blocks|
    && (forall k :: 0 <= k < |starts| ==> RunAt(items, starts[k], blocks[k].lines))
    && (forall k, l :: 0 <= k < l < |starts| ==> starts[k] < starts[l])
    && (forall i: nat, j: nat :: j < end && IsRun(items, i, j) ==> i in starts)
  }

  /** The open run reaches to the end of the items and starts behind a gap. */
  predicate OpenAt(items: seq<Option<string>>, open: seq<string>, a: nat) {
    Holds(items, a, open) && a + |open| == |items| && (a == 0 || items[a - 1].None?)
  }

  predicate EndBefore(blocks: seq<Block>, starts: seq<nat>, a: nat) {
    |starts| == |blocks| && forall k :: 0 <= k < |starts| ==> starts[k] + |blocks[k].lines| < a
  }

  lemma FrontRuns(items: seq<Option<string>>, i: nat, j: nat)
    requires j < |items|
    ensures j < |items| - 1 ==> (IsRun(items[..|items| - 1], i, j) <==> IsRun(items, i, j))
    ensures IsRun(items, i, j) && j == |items| - 1 ==> IsRun(items[..|items| - 1], i, j)
  {
    var front := items[..|items| - 1];
    assert forall k :: 0 <= k < |front| ==> front[k] == items[k];
  }

  /** The only run that reaches to the end is the open one. */
  lemma RunToEnd(items: seq<Option<string>>, open: seq<string>, a: nat, i: nat)
    requires OpenAt(items, open, a) && IsRun(items, i, |items|)
    ensures i == a && open != []
  {
  }

  /** Closing the open run, if there is one, lists every run. */
  lemma CloseRun(items: seq<Option<string>>, done: seq<Block>, open: seq<string>, starts: seq<nat>, a: nat)
    requires RunsAt(items, done, starts, |items|) && OpenAt(items, open, a) && EndBefore(done, starts, a)
    ensures if open == [] then RunsAt(items, done, starts, |items| + 1) && EndBefore(done, starts, |items| + 1)
            else RunsAt(items, done + [Block(open)], starts + [a], |items| + 1) &&
                 EndBefore(done + [Block(open)], starts + [a], |items| + 1)
  {
    forall i: nat | IsRun(items, i, |items|) ensures i == a && open != [] {
      RunToEnd(items, open, a, i);
    }
    if open != [] {
      assert RunAt(items, a, open);
      assert a in starts + [a] && forall i :: i in starts ==> i in starts + [a];
    }
  }

  /** A further item leaves the listed runs alone; if it is a gap the runs that reached the end count too. */
  lemma KeepRuns(items: seq<Option<string>>, blocks: seq<Block>, starts: seq<nat>)
    requires items != []
    requires var last := items[|items| - 1];
             && RunsAt(items[..|items| - 1], blocks, starts, if last.None? then |items| else |items| - 1)
             && (last.Some? ==> EndBefore(blocks, starts, |items| - 1))
    ensures RunsAt(items, blocks, starts, |items|)
  {
    var front := items[..|items| - 1];
    assert forall k :: 0 <= k < |front| ==> front[k] == items[k];
    forall k | 0 <= k < |starts| ensures RunAt(items, starts[k], blocks[k].lines) {
      assert RunAt(front, starts[k], blocks[k].lines);
    }
    forall i: nat, j: nat | j < |items| && IsRun(items, i, j) ensures i in starts {
      FrontRuns(items, i, j);
    }
  }

  lemma OpenStep(items: seq<Option<string>>, open: seq<string>, a: nat)
    requires items != [] && OpenAt(items[..|items| - 1], open, a)
    ensures var last := items[|items| - 1];
            && a < |items|
            && if last.Some? then OpenAt(items, open + [last.value], a) else OpenAt(items, [], |items|)
  {
  }

  /** Finished runs and the open one, with their places. */
  ghost predicate SplitAt(items: seq<Option<string>>, done: seq<Block>, open: seq<string>, starts: seq<nat>, a: nat) {
    RunsAt(items, done, starts, |items|) && OpenAt(items, open, a) && EndBefore(done, starts, a)
  }

  lemma SplitAtStep(items: seq<Option<string>>, done: seq<Block>, open: seq<string>, starts: seq<nat>, a: nat)
      returns (starts': seq<nat>, a': nat)
    requires items != [] && SplitAt(items[..|items| - 1], done, open, starts, a)
    ensures var (done', open') := Push(done, open, items[|items| - 1]); SplitAt(items, done', open', starts', a')
  {
    var front, last := items[..|items| - 1], items[|items| - 1];
    hide RunsAt, OpenAt;
    OpenStep(items, open, a);
    if last.None? {
      CloseRun(front, done, open, starts, a);
      starts', a' := if open == [] then starts else starts + [a], |items|;
      KeepRuns(items, Push(done, open, last).0, starts');
    } else {
      starts', a' := starts, a;
      KeepRuns(items, done, starts);
    }
  }

  lemma {:induction false} SplitMaximal(items: seq<Option<string>>) returns (starts: seq<nat>, a: nat)
    ensures SplitAt(items, Split(items).0, Split(items).1, starts, a)
    decreases |items|
  {
    if items == [] {
      starts, a := [], 0;
    } else {
      var front := items[..|items| - 1];
      starts, a := SplitMaximal(front);
      hide SplitAt;
      starts, a := SplitAtStep(items, Split(front).0, Split(front).1, starts, a);
    }
  }

  /** The blocks are exactly the maximal runs of present items, each once, in order. */
  lemma RunsAreMaximal(items: seq<Option<string>>) returns (starts: seq<nat>)
    ensures RunsAt(items, Runs(items), starts, |items| + 1)
  {
    var a;
    starts, a := SplitMaximal(items);
    var (done, open) := Split(items);
    hide RunsAt;
    CloseRun(items, done, open, starts, a);
    starts := if open == [] then starts else starts + [a];
  }

  /** Where the text stands as a maximal run. */
  function Places(items: seq<Option<string>>, text: seq<string>): set<nat> {
    set i: nat | i < |items| && RunAt(items, i, text)
  }

  function StartsOf(items: seq<Option<string>>, starts: seq<nat>, text: seq<string>): set<nat> {
    set i | i in starts && RunAt(items, i, text)
  }

  lemma StartsOfSnoc(items: seq<Option<string>>, starts: seq<nat>, i: nat, text: seq<string>)
    requires i !in starts
    ensures |StartsOf(items, starts + [i], text)| == |StartsOf(items, starts, text)| + if RunAt(items, i, text) then 1 else 0
  {
    hide RunAt;
    var before := StartsOf(items, starts, text);
    assert StartsOf(items, starts + [i], text) == if RunAt(items, i, text) then before + {i} else before;
    assert i !in before;
  }

  lemma {:induction false} CountStarts(items: seq<Option<string>>, blocks: seq<Block>, starts: seq<nat>, b: Block)
    requires |starts| == |blocks| && forall k :: 0 <= k < |starts| ==> RunAt(items, starts[k], blocks[k].lines)
    requires forall k, l :: 0 <= k < l < |starts| ==> starts[k] < starts[l]
    ensures multiset(blocks)[b] == |StartsOf(items, starts, b.lines)|
    decreases |blocks|
  {
    hide RunAt, StartsOf;
    if blocks == [] {
      NoStarts(items, b.lines);
    } else {
      var n := |blocks| - 1;
      CountStarts(items, blocks[..n], starts[..n], b);
      StartsOfSnoc(items, starts[..n], starts[n], b.lines);
      RunTextUnique(items, starts[n], b.lines, blocks[n].lines);
      assert blocks == blocks[..n] + [blocks[n]] && starts == starts[..n] + [starts[n]];
    }
  }

  lemma NoStarts(items: seq<Option<string>>, text: seq<string>)
    ensures StartsOf(items, [], text) == {}
  {
  }

  lemma RunTextUnique(items: seq<Option<string>>, i: nat, a: seq<string>, b: seq<string>)
    requires RunAt(items, i, b)
    ensures RunAt(items, i, a) <==> a == b
  {
    if RunAt(items, i, a) {
      assert |a| == |b|;
      assert forall k :: 0 <= k < |a| ==> items[i + k] == Some(a[k]) == Some(b[k]);
    }
  }

  /** A block is counted once for every place where its text is a maximal run. */
  lemma RunsCounted(items: seq<Option<string>>, b: Block)
    ensures multiset(Runs(items))[b] == |Places(items, b.lines)|
  {
    var starts := RunsAreMaximal(items);
    CountStarts(items, Runs(items), starts, b);
    assert Places(items, b.lines) == StartsOf(items, starts, b.lines);
  }

  // ----- removed lines

  function Nonblank(lines: seq<string>): seq<Option<string>> {
    seq(|lines|, i requires 0 <= i < |lines| => if lines[i] == "" then None else Some(lines[i]))
  }

  /** Nothing stands at k: the line is blank, or there is none. */
  predicate BlankAt(lines: seq<string>, k: int) {
    0 <= k < |lines| ==> lines[k] == ""
  }

  /** The text stands at line i, nonblank, between blank lines or ends. */
  predicate RemovedAt(lines: seq<string>, i: nat, text: seq<string>) {
    && |text| > 0 && i + |text| <= |lines| && BlankAt(lines, i - 1) && BlankAt(lines, i + |text|)
    && forall k :: i <= k < i + |text| ==> !BlankAt(lines, k) && lines[k] == text[k - i]
  }

  function RemovedPlaces(lines: seq<string>, b: Block): set<nat> {
    set i: nat | i < |lines| && RemovedAt(lines, i, b.lines)
  }

  lemma NonblankAt(lines: seq<string>, k: nat)
    requires k < |lines|
    ensures |Nonblank(lines)| == |lines| && Nonblank(lines)[k] == if lines[k] == "" then None else Some(lines[k])
  {
  }

  /** What there is at k, to the items and to the lines. */
  lemma GapIsBlank(lines: seq<string>, k: nat)
    requires k < |lines|
    ensures |Nonblank(lines)| == |lines|
    ensures if BlankAt(lines, k) then Nonblank(lines)[k].None? else Nonblank(lines)[k] == Some(lines[k])
  {
    NonblankAt(lines, k);
  }

  lemma RunIsRemoved(lines: seq<string>, i: nat, text: seq<string>)
    requires RunAt(Nonblank(lines), i, text)
    ensures RemovedAt(lines, i, text)
  {
    var items := Nonblank(lines);
    assert |items| == |lines|;
    hide Nonblank, BlankAt;
    forall k | i <= k < i + |text| ensures !BlankAt(lines, k) && lines[k] == text[k - i] {
      assert items[k] == Some(text[k - i]);
      GapIsBlank(lines, k);
    }
    assert BlankAt(lines, i - 1) && BlankAt(lines, i + |text|) by {
      EdgeIsBlank(lines, i - 1);
      EdgeIsBlank(lines, i + |text|);
    }
  }

  lemma EdgeIsBlank(lines: seq<string>, k: int)
    ensures |Nonblank(lines)| == |lines|
    ensures BlankAt(lines, k) <==> (0 <= k < |lines| ==> Nonblank(lines)[k].None?)
  {
    if 0 <= k < |lines| {
      NonblankAt(lines, k);
    }
  }

  lemma RemovedIsRun(lines: seq<string>, i: nat, text: seq<string>)
    requires RemovedAt(lines, i, text)
    ensures RunAt(Nonblank(lines), i, text)
  {
    var items := Nonblank(lines);
    assert |items| == |lines|;
    hide Nonblank, BlankAt;
    forall k | i <= k < i + |text| ensures items[k] == Some(text[k - i]) {
      assert !BlankAt(lines, k) && lines[k] == text[k - i];
      GapIsBlank(lines, k);
    }
    EdgeIsBlank(lines, i - 1);
    EdgeIsBlank(lines, i + |text|);
  }

  lemma RemovedAtIs(lines: seq<string>, i: nat, text: seq<string>)
    ensures RemovedAt(lines, i, text) <==> RunAt(Nonblank(lines), i, text)
  {
    hide RemovedAt, RunAt;
    if RemovedAt(lines, i, text) {
      RemovedIsRun(lines, i, text);
    }
    if RunAt(Nonblank(lines), i, text) {
      RunIsRemoved(lines, i, text);
    }
  }

  /** The removed blocks, said of the lines. */
  lemma RemovedCounted(lines: seq<string>, b: Block)
    ensures multiset(Runs(Nonblank(lines)))[b] == |RemovedPlaces(lines, b)|
  {
    RunsCounted(Nonblank(lines), b);
    forall i: nat ensures RemovedAt(lines, i, b.lines) <==> RunAt(Nonblank(lines), i, b.lines) {
      RemovedAtIs(lines, i, b.lines);
    }
    assert Places(Nonblank(lines), b.lines) == RemovedPlaces(lines, b);
  }

  method ClassifyRemoved(lines: seq<string>) returns (blocks: multiset<Block>)
    ensures blocks == multiset(Runs(Nonblank(lines)))
    ensures forall b :: blocks[b] == |RemovedPlaces(lines, b)|
  {
    blocks := multiset{};
    var current: seq<string> := [];
    ghost var items := Nonblank(lines);
    var i := 0;
    while i < |lines|
      invariant 0 <= i <= |lines|
      invariant blocks == multiset(Split(items[..i]).0) && current == Split(items[..i]).1
    {
      SplitStep(items, i);
      if lines[i] == "" {
        if current != [] {
          blocks := blocks + multiset{Block(current)};
          current := [];
        }
      } else {
        current := current + [lines[i]];
      }
      i := i + 1;
    }
    assert items[..|lines|] == items;
    if current != [] {
      blocks := blocks + multiset{Block(current)};
    }
    hide Runs, Nonblank, RemovedPlaces;
    forall b ensures blocks[b] == |RemovedPlaces(lines, b)| {
      RemovedCounted(lines, b);
    }
  }

  // ----- added lines

  /** The end of the run of notes starting at i. */
  function NotesEnd(lines: seq<Line>, i: nat): (j: nat)
    requires i <= |lines|
    ensures i <= j <= |lines| && (forall k :: i <= k < j ==> lines[k].note && lines[k].text != "")
    ensures j == |lines| || !lines[j].note || lines[j].text == ""
    decreases |lines| - i
  {
    if i < |lines| && lines[i].text != "" && lines[i].note then NotesEnd(lines, i + 1) else i
  }

  /** Where the notes-and-declaration starting at line i ends; i itself when there is none. */
  ghost function MarkEnd(lines: seq<Line>, i: nat): (to: nat)
    requires i < |lines|
    ensures i <= to <= |lines|
  {
    var j := NotesEnd(lines, i);
    if j < |lines| && DeclLength(lines, j) > 0 then j + DeclLength(lines, j) else i + DeclLength(lines, i)
  }

  function All(n: nat, mark: bool): seq<bool> {
    seq(n, _ => mark)
  }

  /** The marks from line i on, taking declarations from left to right. */
  ghost function Marking(lines: seq<Line>, i: nat): (marks: seq<bool>)
    requires i <= |lines|
    ensures |marks| == |lines| - i
    decreases |lines| - i
  {
    if i == |lines| then []
    else if lines[i].text == "" || MarkEnd(lines, i) == i then [false] + Marking(lines, i + 1)
    else All(MarkEnd(lines, i) - i, true) + Marking(lines, MarkEnd(lines, i))
  }

  /** Line k is inside a declaration or the notes attached to one. */
  ghost predicate Attached(lines: seq<Line>, k: nat) {
    exists i, j, to :: Covers(lines, i, j, to, k)
  }

  ghost predicate Covers(lines: seq<Line>, i: nat, j: nat, to: nat, k: nat) {
    && i <= k < to <= |lines| && i <= j < to && IsDecl(lines, j, to)
    && forall m :: i <= m < j ==> lines[m].note && lines[m].text != ""
  }

  lemma MarkEndAttached(lines: seq<Line>, i: nat, k: nat)
    requires i < |lines| && i <= k < MarkEnd(lines, i)
    ensures Attached(lines, k)
  {
    var j := NotesEnd(lines, i);
    if j < |lines| && DeclLength(lines, j) > 0 {
      assert Covers(lines, i, j, MarkEnd(lines, i), k);
    } else {
      assert Covers(lines, i, i, MarkEnd(lines, i), k);
    }
  }

  /** No declaration reaches across the line before i into line i. */
  ghost predicate Clear(lines: seq<Line>, i: nat) {
    forall j, to :: 0 <= j < i < to <= |lines| ==> !IsDecl(lines, j, to)
  }

  /** Two declarations never overlap in part: the inner lines of one do not end, the last line of the other does. */
  lemma NoOverlap(lines: seq<Line>, a: nat, b: nat, c: nat, d: nat)
    requires a < b < c < d <= |lines| && IsDecl(lines, a, c)
    ensures !IsDecl(lines, b, d)
  {
    assert lines[c - 1].ends;
  }

  lemma StartMarks(lines: seq<Line>, i: nat, j: nat)
    requires i <= j < |lines| && StartsDecl(lines, j) && forall m :: i <= m < j ==> lines[m].note && lines[m].text != ""
    ensures MarkEnd(lines, i) == j + DeclLength(lines, j) && lines[i].text != ""
  {
    assert lines[j].isMod || lines[j].isUse;
    assert NotesEnd(lines, i) == j;
  }

  /** The scan never stops inside a declaration. */
  lemma StaysClear(lines: seq<Line>, i: nat)
    requires i < |lines| && Clear(lines, i)
    ensures Clear(lines, if lines[i].text == "" || MarkEnd(lines, i) == i then i + 1 else MarkEnd(lines, i))
  {
    var e := if lines[i].text == "" || MarkEnd(lines, i) == i then i + 1 else MarkEnd(lines, i);
    forall j, to | 0 <= j < e < to <= |lines| ensures !IsDecl(lines, j, to) {
      if i <= j {
        NotPast(lines, i, j, to, e);
      }
    }
  }

  lemma NotPast(lines: seq<Line>, i: nat, j: nat, to: nat, e: nat)
    requires i <= j < e < to <= |lines|
    requires e == if lines[i].text == "" || MarkEnd(lines, i) == i then i + 1 else MarkEnd(lines, i)
    ensures !IsDecl(lines, j, to)
  {
    var n := NotesEnd(lines, i);
    if IsDecl(lines, j, to) {
      assert StartsDecl(lines, j) && (lines[j].isMod || lines[j].isUse);
      if j <= n {
        DeclUnique(lines, j, to, j + DeclLength(lines, j));
        StartMarks(lines, i, j);
      } else if DeclLength(lines, n) > 0 {
        NoOverlap(lines, n, j, e, to);
      } else {
        NoOverlap(lines, i, j, e, to);
      }
    }
  }

  lemma NotAttached(lines: seq<Line>, i: nat)
    requires i < |lines| && Clear(lines, i) && (lines[i].text == "" || MarkEnd(lines, i) == i)
    ensures !Attached(lines, i)
  {
    hide IsDecl;
    forall a: nat, j: nat, to: nat ensures !Covers(lines, a, j, to, i) {
      if Covers(lines, a, j, to, i) {
        assert StartsDecl(lines, j);
        hide StartsDecl;
        StartMarks(lines, i, j);
      }
    }
  }

  lemma MarkingAt(lines: seq<Line>, i: nat, k: nat)
    requires i <= k < |lines|
    ensures var e := MarkEnd(lines, i);
            Marking(lines, i)[k - i] <==>
              if lines[i].text == "" || e == i then k > i && Marking(lines, i + 1)[k - i - 1]
              else k < e || Marking(lines, e)[k - e]
  {
    hide MarkEnd;
  }

  /** A line is marked exactly when it belongs to a declaration or to notes attached to one. */
  lemma {:induction false} MarkingExactly(lines: seq<Line>, i: nat, k: nat)
    requires i <= k < |lines| && Clear(lines, i)
    ensures Marking(lines, i)[k - i] <==> Attached(lines, k)
    decreases |lines| - i
  {
    hide Clear, Attached, MarkEnd, Marking;
    StaysClear(lines, i);
    MarkingAt(lines, i, k);
    if lines[i].text == "" || MarkEnd(lines, i) == i {
      if k > i {
        MarkingExactly(lines, i + 1, k);
      } else {
        NotAttached(lines, i);
      }
    } else if k < MarkEnd(lines, i) {
      MarkEndAttached(lines, i, k);
    } else {
      MarkingExactly(lines, MarkEnd(lines, i), k);
    }
  }

  /** The next line is a gap, or all lines up to the end of its declaration are marked. */
  lemma MarkingStep(lines: seq<Line>, i: nat, all: seq<bool>)
    requires i < |lines| == |all| && all[i..] == Marking(lines, i)
    ensures var to := if lines[i].text == "" then i else MarkEnd(lines, i);
            if to == i then !all[i] && all[i + 1..] == Marking(lines, i + 1)
            else (forall k :: i <= k < to ==> all[k]) && all[to..] == Marking(lines, to)
  {
    var to := if lines[i].text == "" then i else MarkEnd(lines, i);
    if to == i {
      assert all[i] == all[i..][0] && all[i + 1..] == all[i..][1..];
    } else {
      forall k | i <= k < to ensures all[k] {
        assert all[k] == all[i..][k - i];
      }
      assert all[to..] == all[i..][to - i..];
    }
  }

  method MarkRange(marks: array<bool>, from: nat, to: nat)
    requires from <= to <= marks.Length
    modifies marks
    ensures forall k :: 0 <= k < marks.Length ==> marks[k] == (old(marks[k]) || from <= k < to)
  {
    var k := from;
    while k < to
      invariant from <= k <= to
      invariant forall m :: 0 <= m < marks.Length ==> marks[m] == (old(marks[m]) || from <= m < k)
    {
      marks[k] := true;
      k := k + 1;
    }
  }

  method MarkDeclarations(lines: seq<Line>) returns (marks: array<bool>)
    ensures fresh(marks) && marks[..] == Marking(lines, 0)
  {
    marks := new bool[|lines|](_ => false);
    ghost var all := Marking(lines, 0);
    assert all[0..] == all;
    hide Marking, MarkEnd;
    var i := 0;
    while i < |lines|
      invariant 0 <= i <= |lines| == marks.Length && all[i..] == Marking(lines, i)
      invariant forall k :: 0 <= k < i ==> marks[k] == all[k]
      invariant forall k :: i <= k < marks.Length ==> !marks[k]
      decreases |lines| - i
    {
      MarkingStep(lines, i, all);
      var to := i;
      if lines[i].text != "" {
        to := FindMarkEnd(lines, i);
      }
      if to == i {
        i := i + 1;
      } else {
        MarkRange(marks, i, to);
        i := to;
      }
    }
  }

  method FindMarkEnd(lines: seq<Line>, i: nat) returns (to: nat)
    requires i < |lines|
    ensures to == MarkEnd(lines, i)
  {
    var j := i;
    while j < |lines| && lines[j].text != "" && lines[j].note
      invariant i <= j <= |lines| && NotesEnd(lines, i) == NotesEnd(lines, j)
    {
      j := j + 1;
    }
    if j < |lines| {
      var length := MatchDeclAt(lines, j);
      DeclLengthIs(lines, j, length);
      if length > 0 { return j + length; }
    }
    var length := MatchDeclAt(lines, i);
    DeclLengthIs(lines, i, length);
    to := i + length;
  }

  /** The nonblank lines whose mark is `which`; all others are gaps. */
  function Marked(lines: seq<Line>, marks: seq<bool>, which: bool): seq<Option<string>>
    requires |marks| == |lines|
  {
    seq(|lines|, i requires 0 <= i < |lines| =>
      if lines[i].text != "" && marks[i] == which then Some(lines[i].text) else None)
  }

  /** Line k separates blocks of that kind: it is blank or of the other kind. */
  ghost predicate Separates(lines: seq<Line>, k: nat, declared: bool)
    requires k < |lines|
  {
    lines[k].text == "" || (Attached(lines, k) <==> !declared)
  }

  /** The text stands at line i, all of one kind, between lines that separate. */
  ghost predicate AddedAt(lines: seq<Line>, i: nat, text: seq<string>, declared: bool) {
    && text != [] && i + |text| <= |lines|
    && (forall k :: i <= k < i + |text| ==> !Separates(lines, k, declared) && lines[k].text == text[k - i])
    && (i == 0 || Separates(lines, i - 1, declared)) && (i + |text| == |lines| || Separates(lines, i + |text|, declared))
  }

  ghost function AddedPlaces(lines: seq<Line>, b: Block, declared: bool): set<nat> {
    set i: nat | i < |lines| && AddedAt(lines, i, b.lines, declared)
  }

  /** What an added line is to the blocks of one kind: a gap, or its text. */
  ghost predicate ItemsOf(lines: seq<Line>, declared: bool, items: seq<Option<string>>) {
    |items| == |lines| &&
    forall k :: 0 <= k < |lines| ==> items[k] == if Separates(lines, k, declared) then None else Some(lines[k].text)
  }

  lemma MarkedItems(lines: seq<Line>, declared: bool)
    ensures ItemsOf(lines, declared, Marked(lines, Marking(lines, 0), declared))
  {
    forall k: nat | k < |lines| ensures Marking(lines, 0)[k] <==> Attached(lines, k) {
      MarkingExactly(lines, 0, k);
    }
    hide Marking, Attached;
  }

  lemma AddedAtIs(lines: seq<Line>, i: nat, text: seq<string>, declared: bool, items: seq<Option<string>>)
    requires ItemsOf(lines, declared, items)
    ensures AddedAt(lines, i, text, declared) <==> RunAt(items, i, text)
  {
    hide Separates;
  }

  /** The added blocks of either kind, said of the lines. */
  lemma AddedCounted(lines: seq<Line>, b: Block, declared: bool)
    ensures multiset(Runs(Marked(lines, Marking(lines, 0), declared)))[b] == |AddedPlaces(lines, b, declared)|
  {
    var items := Marked(lines, Marking(lines, 0), declared);
    RunsCounted(items, b);
    MarkedItems(lines, declared);
    hide AddedAt, RunAt, Marked, Marking;
    forall i: nat ensures AddedAt(lines, i, b.lines, declared) <==> RunAt(items, i, b.lines) {
      AddedAtIs(lines, i, b.lines, declared, items);
    }
    assert Places(items, b.lines) == AddedPlaces(lines, b, declared);
  }

  lemma MarkedAt(lines: seq<Line>, marks: seq<bool>, which: bool, i: nat)
    requires |marks| == |lines| && i < |lines|
    ensures |Marked(lines, marks, which)| == |lines|
    ensures Marked(lines, marks, which)[i] == if lines[i].text != "" && marks[i] == which then Some(lines[i].text) else None
  {
  }

  /** Required and declaration blocks are the maximal runs of unmarked and of marked lines. */
  method ClassifyAdded(lines: seq<Line>) returns (required: multiset<Block>, declared: multiset<Block>)
    ensures required == multiset(Runs(Marked(lines, Marking(lines, 0), false)))
    ensures declared == multiset(Runs(Marked(lines, Marking(lines, 0), true)))
    ensures forall b :: required[b] == |AddedPlaces(lines, b, false)| && declared[b] == |AddedPlaces(lines, b, true)|
  {
    var isDecl := MarkDeclarations(lines);
    ghost var marks := isDecl[..];
    hide Marking, Split;
    required, declared := multiset{}, multiset{};
    var currentReq: seq<string>, currentDecl: seq<string> := [], [];
    ghost var req, decl := Marked(lines, marks, false), Marked(lines, marks, true);
    hide Marked;
    SplitNone(req);
    SplitNone(decl);
    var i := 0;
    while i < |lines|
      invariant 0 <= i <= |lines| == |req| == |decl| && isDecl[..] == marks
      invariant required == multiset(Split(req[..i]).0) && currentReq == Split(req[..i]).1
      invariant declared == multiset(Split(decl[..i]).0) && currentDecl == Split(decl[..i]).1
    {
      MarkedAt(lines, marks, false, i);
      MarkedAt(lines, marks, true, i);
      SplitStep(req, i);
      SplitStep(decl, i);
      var line := lines[i];
      if line.text == "" || isDecl[i] {
        if currentReq != [] { required, currentReq := required + multiset{Block(currentReq)}, []; }
      }
      if line.text == "" || !isDecl[i] {
        if currentDecl != [] { declared, currentDecl := declared + multiset{Block(currentDecl)}, []; }
      }
      if line.text != "" {
        if isDecl[i] { currentDecl := currentDecl + [line.text]; } else { currentReq := currentReq + [line.text]; }
      }
      i := i + 1;
    }
    assert req[..|lines|] == req && decl[..|lines|] == decl;
    if currentReq != [] { required := required + multiset{Block(currentReq)}; }
    if currentDecl != [] { declared := declared + multiset{Block(currentDecl)}; }
    hide Runs, AddedPlaces;
    forall b ensures required[b] == |AddedPlaces(lines, b, false)| && declared[b] == |AddedPlaces(lines, b, true)| {
      AddedCounted(lines, b, false);
      AddedCounted(lines, b, true);
    }
  }

  lemma SplitNone(items: seq<Option<string>>)
    ensures Split(items[..0]) == ([], [])
  {
  }

  function Unblank(lines: seq<Line>): seq<Option<string>> {
    seq(|lines|, i requires 0 <= i < |lines| => if lines[i].text != "" then Some(lines[i].text) else None)
  }

  /** Every nonblank added line lands in exactly one block of one kind. */
  lemma AddedLinesConserved(lines: seq<Line>, marks: seq<bool>)
    requires |marks| == |lines|
    ensures multiset(Flat(Runs(Marked(lines, marks, false)))) + multiset(Flat(Runs(Marked(lines, marks, true)))) ==
            multiset(Present(Unblank(lines)))
  {
    RunsConserve(Marked(lines, marks, false));
    RunsConserve(Marked(lines, marks, true));
    PresentPartition(Marked(lines, marks, false), Marked(lines, marks, true), Unblank(lines));
  }

  lemma PresentSnoc(items: seq<Option<string>>)
    requires items != []
    ensures var front, last := items[..|items| - 1], items[|items| - 1];
            multiset(Present(items)) == multiset(Present(front)) + if last.Some? then multiset{last.value} else multiset{}
  {
  }

  lemma {:induction false} PresentPartition(a: seq<Option<string>>, b: seq<Option<string>>, all: seq<Option<string>>)
    requires |a| == |b| == |all|
    requires forall i :: 0 <= i < |all| ==> (a[i] == all[i] && b[i].None?) || (b[i] == all[i] && a[i].None?)
    ensures multiset(Present(a)) + multiset(Present(b)) == multiset(Present(all))
    decreases |all|
  {
    if all != [] {
      var n := |all| - 1;
      PresentPartition(a[..n], b[..n], all[..n]);
      assert (a[n] == all[n] && b[n].None?) || (b[n] == all[n] && a[n].None?);
      hide Present;
      PresentSnoc(a);
      PresentSnoc(b);
      PresentSnoc(all);
    }
  }
}
