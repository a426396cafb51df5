/** The detector as the script runs it: loops over sets in any order, the
    pruning rounds, and the greedy allocation behind the reported line counts. */
module MoveCounts {
  import opened FiniteSums
  import opened Transport
  import opened HunkBlocks
  import opened MoveDetector

  method Total(c: set<Path>, w: Path -> nat) returns (total: nat)
    ensures total == Sum(c, w)
  {
    total := 0;
    var left := c;
    while left != {}
      invariant left <= c && total + Sum(left, w) == Sum(c, w)
      decreases left
    {
      var f :| f in left;
      SumSplit(left, w, f);
      total := total + w(f);
      left := left - {f};
    }
  }

  method FindsTooMuch(d: Diffs, c: set<Path>, f: Path) returns (bad: bool)
    requires c <= d.Keys && f in d
    ensures bad == (RemovesTooMuch(d, c, f) || RequiresTooMuch(d, c, f))
  {
    hide Sum;
    var blocks := set b | b in d[f].removed;
    while blocks != {}
      invariant blocks <= set b | b in d[f].removed
      invariant forall b :: b in d[f].removed && b !in blocks ==> d[f].removed[b] <= Sum(c - {f}, Added(d, b))
      decreases blocks
    {
      var b :| b in blocks;
      var otherAdd := Total(c - {f}, Added(d, b));
      if d[f].removed[b] > otherAdd { return true; }
      blocks := blocks - {b};
    }
    blocks := set b | b in d[f].required;
    while blocks != {}
      invariant blocks <= set b | b in d[f].required
      invariant forall b :: b in d[f].required && b !in blocks ==> d[f].required[b] <= Sum(c - {f}, Removed(d, b))
      decreases blocks
    {
      var b :| b in blocks;
      var otherRem := Total(c - {f}, Removed(d, b));
      if d[f].required[b] > otherRem { return true; }
      blocks := blocks - {b};
    }
    bad := false;
  }

  method MonotoneBadFiles(d: Diffs, c: set<Path>) returns (bad: set<Path>)
    requires c <= d.Keys
    ensures bad == MonotoneBad(d, c)
  {
    hide Sum;
    bad := {};
    var left := c;
    while left != {}
      invariant left <= c && bad == MonotoneBad(d, c) - left
      decreases left
    {
      var f :| f in left;
      var tooMuch := FindsTooMuch(d, c, f);
      if tooMuch { bad := bad + {f}; }
      left := left - {f};
    }
  }

  method TestBlock(d: Diffs, c: set<Path>, b: Block) returns (ok: bool)
    requires c <= d.Keys
    ensures ok == BlockOk(d, c, b)
  {
    var totalRem := Total(c, Removed(d, b));
    var totalReq := Total(c, Required(d, b));
    var caps := Cap(d, b, totalRem);
    var totalCap := Total(c, caps);
    ok := totalReq <= totalRem <= totalCap;
    var left := if ok then c else {};
    while left != {}
      invariant left <= c && (!ok ==> !BlockOk(d, c, b)) && (left != {} ==> ok)
      invariant ok ==> totalReq <= totalRem <= totalCap
      invariant ok ==> forall f :: f in c - left ==>
        !(Removed(d, b)(f) + Required(d, b)(f) > totalRem || Removed(d, b)(f) > totalCap - caps(f))
      decreases left
    {
      var f :| f in left;
      if Removed(d, b)(f) + Required(d, b)(f) > totalRem || Removed(d, b)(f) > totalCap - caps(f) {
        ok := false;
        break;
      }
      left := left - {f};
    }
  }

  method MultiplicityBadFiles(d: Diffs, c: set<Path>) returns (bad: set<Path>)
    requires c <= d.Keys
    ensures bad == MultiplicityBad(d, c)
  {
    hide Sum, BlockOk, AllBlocks;
    bad := {};
    var left := AllBlocks(d, c);
    while left != {}
      invariant left <= AllBlocks(d, c)
      invariant bad == set f | f in c && exists b :: b in AllBlocks(d, c) - left && Culprit(d, c, f, b)
      decreases left
    {
      var b :| b in left;
      var ok := TestBlock(d, c, b);
      ghost var seen := AllBlocks(d, c) - left;
      if !ok {
        bad := bad + set f | f in c && (Removed(d, b)(f) > 0 || Required(d, b)(f) > 0);
      }
      left := left - {b};
      assert AllBlocks(d, c) - left == seen + {b};
    }
  }

  method Prune(d: Diffs) returns (candidates: set<Path>)
    ensures candidates == Covered(d, d.Keys)
  {
    candidates := d.Keys;
    while candidates != {}
      invariant candidates <= d.Keys && Covered(d, candidates) == Covered(d, d.Keys)
      decreases candidates
    {
      var monotone := MonotoneBadFiles(d, candidates);
      if monotone != {} {
        candidates := candidates - monotone;
        continue;
      }
      var bad := MultiplicityBadFiles(d, candidates);
      if bad == {} { return; }
      candidates := candidates - bad;
    }
  }

  lemma RequiredWithinCaps(d: Diffs, c: set<Path>, b: Block)
    requires c <= d.Keys && BlockOk(d, c, b)
    ensures forall f :: f in c ==> Required(d, b)(f) <= Cap(d, b, Sum(c, Removed(d, b)))(f)
    ensures Sum(c, Required(d, b)) <= Sum(c, Removed(d, b)) <= Sum(c, Cap(d, b, Sum(c, Removed(d, b))))
  {
  }

  /** Midway through the greedy fill: files outside `left` are filled to their caps unless nothing remains. */
  ghost predicate Filling(c: set<Path>, low: Path -> nat, caps: Path -> nat, total: nat,
                          matched: map<Path, nat>, left: set<Path>, remaining: nat) {
    && left <= c && matched.Keys == c && Sum(c, At(matched)) + remaining == total
    && (forall f :: f in c ==> low(f) <= matched[f] <= caps(f))
    && (forall f :: f in c && f !in left ==> matched[f] == caps(f) || remaining == 0)
  }

  lemma FillStep(c: set<Path>, low: Path -> nat, caps: Path -> nat, total: nat,
                 matched: map<Path, nat>, left: set<Path>, remaining: nat, f: Path, take: nat)
    requires Filling(c, low, caps, total, matched, left, remaining) && f in left
    requires take == if caps(f) - matched[f] < remaining then caps(f) - matched[f] else remaining
    ensures Filling(c, low, caps, total, matched[f := matched[f] + take], left - {f}, remaining - take)
  {
    hide Sum;
    SumChange(c, At(matched), At(matched[f := matched[f] + take]), f);
  }

  lemma FillDone(d: Diffs, c: set<Path>, b: Block, matched: map<Path, nat>, left: set<Path>, remaining: nat)
    requires c <= d.Keys && BlockOk(d, c, b) && (left == {} || remaining == 0)
    requires Filling(c, Required(d, b), Cap(d, b, Sum(c, Removed(d, b))), Sum(c, Removed(d, b)), matched, left, remaining)
    ensures IsAllocation(d, c, b, matched)
  {
    hide Sum, Cap, Removed, Required;
    RequiredWithinCaps(d, c, b);
    if remaining > 0 {
      SumSame(c, At(matched), Cap(d, b, Sum(c, Removed(d, b))));
    }
  }

  /** The greedy fill never runs out: `remaining` ends at zero. */
  method Allocate(d: Diffs, c: set<Path>, b: Block) returns (matched: map<Path, nat>)
    requires c <= d.Keys && BlockOk(d, c, b)
    ensures matched.Keys == c && IsAllocation(d, c, b, matched)
  {
    hide Sum, BlockOk;
    RequiredWithinCaps(d, c, b);
    var totalRem := Total(c, Removed(d, b));
    var caps := Cap(d, b, totalRem);
    matched := map f | f in c :: Required(d, b)(f);
    SumSame(c, At(matched), Required(d, b));
    var already := Total(c, At(matched));
    var remaining: nat := totalRem - already;
    var left := c;
    while left != {} && remaining > 0
      invariant matched.Keys == c && Filling(c, Required(d, b), caps, totalRem, matched, left, remaining)
      decreases left
    {
      var f :| f in left;
      var spare := caps(f) - matched[f];
      var take := if spare < remaining then spare else remaining;
      FillStep(c, Required(d, b), caps, totalRem, matched, left, remaining, f, take);
      matched, remaining := matched[f := matched[f] + take], remaining - take;
      left := left - {f};
    }
    FillDone(d, c, b, matched, left, remaining);
  }

  // ----- reported line counts

  function Matched(alloc: map<Block, map<Path, nat>>, b: Block): Path -> nat {
    f => if b in alloc && f in alloc[b] then alloc[b][f] else 0
  }

  /** The lines in so many copies of a block. */
  function Lines(copies: nat, b: Block): nat {
    if copies == 0 then 0 else |b.lines| + Lines(copies - 1, b)
  }

  lemma {:induction false} LinesIsProduct(copies: nat, b: Block)
    ensures Lines(copies, b) == copies * |b.lines|
  {
    if copies > 0 {
      LinesIsProduct(copies - 1, b);
    }
  }

  /** Lines moved in and out of f through block b. */
  function Moved(d: Diffs, alloc: map<Block, map<Path, nat>>): (Path, Block) -> nat {
    (f, b) => Lines(Removed(d, b)(f) + Matched(alloc, b)(f), b)
  }

  function RemovedLinesIn(d: Diffs): (Path, Block) -> nat {
    (f, b) => Lines(Removed(d, b)(f), b)
  }

  function Distinct(m: multiset<Block>): set<Block> {
    set b | b in m
  }

  /** Lines that f removes, over its own blocks. */
  ghost function RemovedLines(d: Diffs): Path -> nat {
    f => if f in d then Sum(Distinct(d[f].removed), Row(RemovedLinesIn(d), f)) else 0
  }

  /** Every block with removals has an allocation, and no other block has one. */
  ghost predicate AllocatesAll(d: Diffs, c: set<Path>, blocks: set<Block>, alloc: map<Block, map<Path, nat>>) {
    forall b :: b in blocks ==>
      if Sum(c, Removed(d, b)) == 0 then b !in alloc
      else b in alloc && alloc[b].Keys == c && IsAllocation(d, c, b, alloc[b])
  }

  ghost function BlockLines(d: Diffs, c: set<Path>): Block -> nat {
    b => Lines(Sum(c, Removed(d, b)), b)
  }

  /** An allocation matches as many additions as there are removals. */
  lemma MatchedTotal(d: Diffs, c: set<Path>, alloc: map<Block, map<Path, nat>>, b: Block)
    requires AllocatesAll(d, c, {b}, alloc)
    ensures Sum(c, Matched(alloc, b)) == Sum(c, Removed(d, b))
  {
    assert b in {b};
    if Sum(c, Removed(d, b)) == 0 {
      SumZero(c, Matched(alloc, b));
    } else {
      SumSame(c, Matched(alloc, b), At(alloc[b]));
    }
  }

  lemma BlockColumn(d: Diffs, c: set<Path>, alloc: map<Block, map<Path, nat>>, b: Block)
    requires AllocatesAll(d, c, {b}, alloc)
    ensures Sum(c, Column(Moved(d, alloc), b)) == BlockLines(d, c)(b) + BlockLines(d, c)(b)
  {
    hide Sum;
    MatchedTotal(d, c, alloc, b);
    var both := f => Removed(d, b)(f) + Matched(alloc, b)(f);
    SumAdd(c, Removed(d, b), Matched(alloc, b), both);
    LinesColumn(c, both, Column(Moved(d, alloc), b), b);
    LinesAdd(Sum(c, Removed(d, b)), Sum(c, Removed(d, b)), b);
  }

  lemma {:induction false} LinesAdd(m: nat, n: nat, b: Block)
    ensures Lines(m + n, b) == Lines(m, b) + Lines(n, b)
  {
    if m > 0 {
      LinesAdd(m - 1, n, b);
    }
  }

  lemma {:induction false} LinesColumn(c: set<Path>, w: Path -> nat, v: Path -> nat, b: Block)
    requires forall f :: f in c ==> v(f) == Lines(w(f), b)
    ensures Sum(c, v) == Lines(Sum(c, w), b)
    decreases c
  {
    if c != {} {
      var f :| f in c;
      SumSplit(c, w, f);
      SumSplit(c, v, f);
      LinesColumn(c - {f}, w, v, b);
      LinesAdd(w(f), Sum(c - {f}, w), b);
    }
  }

  /** Counting one more block adds that block's lines, and nothing else, to a file. */
  lemma RowExtends(d: Diffs, f: Path, done: set<Block>, b: Block,
                   before: map<Block, map<Path, nat>>, after: map<Block, map<Path, nat>>)
    requires b !in done && forall x :: x in done ==>
      (x in after <==> x in before) && (x in after ==> after[x] == before[x])
    ensures Sum(done + {b}, Row(Moved(d, after), f)) ==
            Sum(done, Row(Moved(d, before), f)) + Moved(d, after)(f, b)
  {
    hide Sum;
    SumSplit(done + {b}, Row(Moved(d, after), f), b);
    assert done + {b} - {b} == done;
    forall x | x in done ensures Row(Moved(d, after), f)(x) == Row(Moved(d, before), f)(x) {
      assert Matched(after, x)(f) == Matched(before, x)(f);
    }
    SumSame(done, Row(Moved(d, after), f), Row(Moved(d, before), f));
  }

  /** A file's removed lines may be summed over all blocks: those it does not remove add nothing. */
  lemma OwnBlocksSuffice(d: Diffs, c: set<Path>, f: Path)
    requires c <= d.Keys && f in c
    ensures RemovedLines(d)(f) == Sum(AllBlocks(d, c), Row(RemovedLinesIn(d), f))
  {
    hide Sum;
    forall b ensures Row(RemovedLinesIn(d), f)(b) == Lines(d[f].removed[b], b) {
      assert RemovedLinesIn(d)(f, b) == Lines(Removed(d, b)(f), b);
    }
    SumExtend(Distinct(d[f].removed), AllBlocks(d, c), Row(RemovedLinesIn(d), f));
  }

  /** Conservation: the counts add up to exactly twice the removed lines. */
  lemma MovedLinesConserved(d: Diffs, c: set<Path>, alloc: map<Block, map<Path, nat>>, moved: Path -> nat)
    requires c <= d.Keys && AllocatesAll(d, c, AllBlocks(d, c), alloc)
    requires forall f :: f in c ==> moved(f) == Sum(AllBlocks(d, c), Row(Moved(d, alloc), f))
    ensures Sum(c, moved) == 2 * Sum(c, RemovedLines(d))
  {
    hide Sum;
    var blocks := AllBlocks(d, c);
    var once := BlockLines(d, c);
    var twice := b => once(b) + once(b);
    forall b | b in blocks
      ensures twice(b) == Sum(c, Column(Moved(d, alloc), b)) && once(b) == Sum(c, Column(RemovedLinesIn(d), b))
    {
      BlockColumn(d, c, alloc, b);
      LinesColumn(c, Removed(d, b), Column(RemovedLinesIn(d), b), b);
    }
    forall f | f in c ensures RemovedLines(d)(f) == Sum(blocks, Row(RemovedLinesIn(d), f)) {
      OwnBlocksSuffice(d, c, f);
    }
    SumSwap(c, blocks, Moved(d, alloc), moved, twice);
    SumSwap(c, blocks, RemovedLinesIn(d), RemovedLines(d), once);
    SumAdd(blocks, once, once, twice);
  }

  /** The counts after the blocks in `done`. */
  ghost predicate Counted(d: Diffs, c: set<Path>, done: set<Block>,
                          alloc: map<Block, map<Path, nat>>, moved: map<Path, nat>) {
    && moved.Keys == c && alloc.Keys <= done && AllocatesAll(d, c, done, alloc)
    && forall f :: f in c ==> moved[f] == Sum(done, Row(Moved(d, alloc), f))
  }

  lemma NothingCounted(d: Diffs, c: set<Path>)
    ensures Counted(d, c, {}, map[], map f | f in c :: 0)
  {
  }

  lemma MovedNothing(d: Diffs, c: set<Path>, alloc: map<Block, map<Path, nat>>, f: Path, b: Block)
    requires f in c && b !in alloc && Sum(c, Removed(d, b)) == 0
    ensures Moved(d, alloc)(f, b) == 0
  {
  }

  lemma CountedSkip(d: Diffs, c: set<Path>, done: set<Block>, b: Block,
                    alloc: map<Block, map<Path, nat>>, moved: map<Path, nat>)
    requires Counted(d, c, done, alloc, moved) && b !in done && Sum(c, Removed(d, b)) == 0
    ensures Counted(d, c, done + {b}, alloc, moved)
  {
    hide Sum, Moved, IsAllocation;
    forall f | f in c ensures moved[f] == Sum(done + {b}, Row(Moved(d, alloc), f)) {
      MovedNothing(d, c, alloc, f, b);
      RowExtends(d, f, done, b, alloc, alloc);
    }
  }

  function AddLines(d: Diffs, b: Block, moved: map<Path, nat>, matched: map<Path, nat>): map<Path, nat>
    requires moved.Keys <= matched.Keys
  {
    map f | f in moved :: moved[f] + (Removed(d, b)(f) + matched[f]) * |b.lines|
  }

  lemma MovedIs(d: Diffs, alloc: map<Block, map<Path, nat>>, f: Path, b: Block)
    requires b in alloc && f in alloc[b]
    ensures Moved(d, alloc)(f, b) == Lines(Removed(d, b)(f) + alloc[b][f], b)
  {
  }

  lemma CountedMore(d: Diffs, c: set<Path>, done: set<Block>, b: Block, alloc: map<Block, map<Path, nat>>,
                    moved: map<Path, nat>, matched: map<Path, nat>)
    requires Counted(d, c, done, alloc, moved) && b !in done && Sum(c, Removed(d, b)) != 0
    requires matched.Keys == c && IsAllocation(d, c, b, matched)
    ensures Counted(d, c, done + {b}, alloc[b := matched], AddLines(d, b, moved, matched))
  {
    hide Sum, IsAllocation, Moved, Removed;
    var more, wider := AddLines(d, b, moved, matched), alloc[b := matched];
    assert AllocatesAll(d, c, done + {b}, wider);
    forall f | f in c ensures more[f] == Sum(done + {b}, Row(Moved(d, wider), f)) {
      RowExtends(d, f, done, b, alloc, wider);
      MovedIs(d, wider, f, b);
      LinesIsProduct(Removed(d, b)(f) + matched[f], b);
    }
  }

  method CountMoved(d: Diffs, c: set<Path>) returns (moved: map<Path, nat>, ghost alloc: map<Block, map<Path, nat>>)
    requires c <= d.Keys && PureMove(d, c)
    ensures Counted(d, c, AllBlocks(d, c), alloc, moved)
  {
    hide Counted, AllBlocks, BlockOk;
    alloc := map[];
    moved := map f | f in c :: 0;
    NothingCounted(d, c);
    var left := AllBlocks(d, c);
    ghost var done := {};
    while left != {}
      invariant left <= AllBlocks(d, c) && done == AllBlocks(d, c) - left && moved.Keys == c
      invariant Counted(d, c, done, alloc, moved)
      decreases left
    {
      var b :| b in left;
      var totalRem := Total(c, Removed(d, b));
      if totalRem == 0 {
        CountedSkip(d, c, done, b, alloc, moved);
      } else {
        BlockOkExactly(d, c, b);
        var matched := Allocate(d, c, b);
        CountedMore(d, c, done, b, alloc, moved, matched);
        alloc, moved := alloc[b := matched], AddLines(d, b, moved, matched);
      }
      done := done + {b};
      left := left - {b};
    }
    assert done == AllBlocks(d, c);
  }

  // ----- what the counts mean

  /** A cross-file plan for block b whose arrivals are the matched additions. */
  ghost predicate Realises(d: Diffs, c: set<Path>, alloc: map<Block, map<Path, nat>>, b: Block, plan: Plan) {
    MovesBlock(d, c, b, plan) && forall f :: f in c ==> Incoming(c, plan, f) == Matched(alloc, b)(f)
  }

  lemma RealisedBy(d: Diffs, c: set<Path>, alloc: map<Block, map<Path, nat>>, b: Block) returns (plan: Plan)
    requires c <= d.Keys && Movable(d, c, b) && AllocatesAll(d, c, {b}, alloc)
    ensures Realises(d, c, alloc, b, plan)
  {
    hide Sum;
    assert b in {b};
    if Sum(c, Removed(d, b)) == 0 {
      plan :| MovesBlock(d, c, b, plan);
      NothingArrives(d, c, b, plan);
    } else {
      plan := AllocationRealised(d, c, b, alloc[b]);
    }
  }

  lemma NothingArrives(d: Diffs, c: set<Path>, b: Block, plan: Plan)
    requires c <= d.Keys && MovesBlock(d, c, b, plan) && Sum(c, Removed(d, b)) == 0
    ensures forall f :: f in c ==> Incoming(c, plan, f) == 0
  {
    var arrivals := f => Incoming(c, plan, f);
    hide Sum;
    assert Ships(c, Removed(d, b), arrivals, plan);
    ShipsBalanced(c, Removed(d, b), arrivals, plan);
    forall f | f in c ensures arrivals(f) == 0 {
      SumTerm(c, arrivals, f);
    }
  }

  ghost function PlanOf(d: Diffs, c: set<Path>, alloc: map<Block, map<Path, nat>>, b: Block): (plan: Plan)
    requires exists p :: Realises(d, c, alloc, b, p)
    ensures Realises(d, c, alloc, b, plan)
  {
    var p :| Realises(d, c, alloc, b, p);
    p
  }

  /** The lines f is credited with through block b: those of the copies it removes and of those that arrive. */
  ghost function Credit(d: Diffs, c: set<Path>, plans: map<Block, Plan>, f: Path): Block -> nat
    requires f in d
  {
    b => (d[f].removed[b] + if b in plans then Incoming(c, plans[b], f) else 0) * |b.lines|
  }

  /** Every block moves by its plan, and every file is credited with what leaves it and what arrives. */
  ghost predicate Credits(d: Diffs, c: set<Path>, plans: map<Block, Plan>, moved: map<Path, nat>) {
    && c <= d.Keys && moved.Keys == c && plans.Keys == AllBlocks(d, c)
    && (forall b :: b in plans ==> MovesBlock(d, c, b, plans[b]))
    && (forall f :: f in c ==> moved[f] == Sum(AllBlocks(d, c), Credit(d, c, plans, f)))
  }

  ghost predicate AllRealised(d: Diffs, c: set<Path>, alloc: map<Block, map<Path, nat>>, plans: map<Block, Plan>) {
    forall b :: b in plans ==> Realises(d, c, alloc, b, plans[b])
  }

  lemma PlansExist(d: Diffs, c: set<Path>, alloc: map<Block, map<Path, nat>>, blocks: set<Block>)
      returns (plans: map<Block, Plan>)
    requires c <= d.Keys && PureMove(d, c) && AllocatesAll(d, c, blocks, alloc)
    ensures plans.Keys == blocks && AllRealised(d, c, alloc, plans)
  {
    hide Sum, Realises, IsAllocation;
    forall b | b in blocks ensures exists p :: Realises(d, c, alloc, b, p) {
      assert Movable(d, c, b) && AllocatesAll(d, c, {b}, alloc);
      hide Movable;
      var p := RealisedBy(d, c, alloc, b);
    }
    plans := map b | b in blocks :: PlanOf(d, c, alloc, b);
  }

  lemma CreditIs(d: Diffs, c: set<Path>, alloc: map<Block, map<Path, nat>>, plans: map<Block, Plan>, f: Path, b: Block)
    requires f in c && f in d && b in plans && Realises(d, c, alloc, b, plans[b])
    ensures Row(Moved(d, alloc), f)(b) == Credit(d, c, plans, f)(b)
  {
    hide MovesBlock;
    LinesIsProduct(Removed(d, b)(f) + Matched(alloc, b)(f), b);
  }

  lemma CountsAreCredits(d: Diffs, c: set<Path>, alloc: map<Block, map<Path, nat>>, moved: map<Path, nat>)
      returns (plans: map<Block, Plan>)
    requires c <= d.Keys && PureMove(d, c) && Counted(d, c, AllBlocks(d, c), alloc, moved)
    ensures Credits(d, c, plans, moved)
  {
    hide Sum, MovesBlock, AllocatesAll, AllBlocks, Moved, Credit, PureMove;
    var blocks := AllBlocks(d, c);
    plans := PlansExist(d, c, alloc, blocks);
    forall f | f in c ensures moved[f] == Sum(blocks, Credit(d, c, plans, f)) {
      forall b | b in blocks ensures Row(Moved(d, alloc), f)(b) == Credit(d, c, plans, f)(b) {
        CreditIs(d, c, alloc, plans, f, b);
      }
      SumSame(blocks, Row(Moved(d, alloc), f), Credit(d, c, plans, f));
    }
  }

  /** {path: moved lines}, empty when no covered file removes a line. The counts
      are the lines that plans without self-matches take out of and into each file. */
  method DetectMoveCoveredFiles(d: Diffs) returns (moved: map<Path, nat>, ghost plans: map<Block, Plan>)
    ensures moved == map[] <==> Sum(Covered(d, d.Keys), RemovedLines(d)) == 0
    ensures moved != map[] ==>
      && moved.Keys == Covered(d, d.Keys) && PureMove(d, moved.Keys) && Credits(d, moved.Keys, plans, moved)
      && Sum(moved.Keys, At(moved)) == 2 * Sum(moved.Keys, RemovedLines(d))
  {
    var c := Prune(d);
    CoveredIsPureMove(d, d.Keys);
    ghost var alloc;
    moved, alloc := CountMoved(d, c);
    plans := CountsAreCredits(d, c, alloc, moved);
    MovedLinesConserved(d, c, alloc, At(moved));
    var total := Total(c, At(moved));
    if total == 0 {
      moved := map[];
    } else {
      assert moved.Keys != {};
    }
  }
}
