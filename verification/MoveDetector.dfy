/** Which changed files are pure cross-file moves (`detect_move_covered_files`).
    A diff is three counters of blocks per file: removed, required additions and
    allowlisted declaration additions. */
module MoveDetector {
  import opened FiniteSums
  import opened Transport
  import opened HunkBlocks

  datatype FileDiff = FileDiff(removed: multiset<Block>, required: multiset<Block>, declared: multiset<Block>)
  type Diffs = map<Path, FileDiff>

  // ----- the counters, read as Python Counters: a missing key counts zero

  function Removed(d: Diffs, b: Block): Path -> nat {
    f => if f in d then d[f].removed[b] else 0
  }

  function Required(d: Diffs, b: Block): Path -> nat {
    f => if f in d then d[f].required[b] else 0
  }

  function Added(d: Diffs, b: Block): Path -> nat {
    f => if f in d then d[f].required[b] + d[f].declared[b] else 0
  }

  function CapOf(added: nat, removed: nat, totalRemoved: nat): nat {
    var foreign := if totalRemoved > removed then totalRemoved - removed else 0;
    if added <= foreign then added else foreign
  }

  function Cap(d: Diffs, b: Block, totalRemoved: nat): Path -> nat {
    f => CapOf(Added(d, b)(f), Removed(d, b)(f), totalRemoved)
  }

  function AllBlocks(d: Diffs, c: set<Path>): set<Block>
    requires c <= d.Keys
  {
    (set f, b | f in c && b in d[f].removed :: b) +
    (set f, b | f in c && b in d[f].required :: b) +
    (set f, b | f in c && b in d[f].declared :: b)
  }

  // ----- what a pure move is

  /** The plan sends every removed copy of b to an added copy in another file of c,
      uses up every required addition, and declaration additions only as needed. */
  ghost predicate MovesBlock(d: Diffs, c: set<Path>, b: Block, plan: Plan) {
    forall f :: f in c ==>
      && f in d && Flow(plan, f, f) == 0
      && Outgoing(c, plan, f) == d[f].removed[b]
      && d[f].required[b] <= Incoming(c, plan, f) <= d[f].required[b] + d[f].declared[b]
  }

  ghost predicate Movable(d: Diffs, c: set<Path>, b: Block) {
    exists plan :: MovesBlock(d, c, b, plan)
  }

  ghost predicate PureMove(d: Diffs, c: set<Path>) {
    forall b :: Movable(d, c, b)
  }

  // ----- the detector's own test

  ghost predicate BlockOk(d: Diffs, c: set<Path>, b: Block) {
    var totalRemoved := Sum(c, Removed(d, b));
    var caps := Cap(d, b, totalRemoved);
    && Sum(c, Required(d, b)) <= totalRemoved <= Sum(c, caps)
    && forall f :: f in c ==>
         !(Removed(d, b)(f) + Required(d, b)(f) > totalRemoved || Removed(d, b)(f) > Sum(c, caps) - caps(f))
  }

  /** The last disjunct of the test never decides: it is implied by the others. */
  lemma LastTestImplied(d: Diffs, c: set<Path>, b: Block, f: Path)
    requires f in c && Sum(c, Removed(d, b)) <= Sum(c, Cap(d, b, Sum(c, Removed(d, b))))
    ensures Removed(d, b)(f) <= Sum(c, Cap(d, b, Sum(c, Removed(d, b)))) - Cap(d, b, Sum(c, Removed(d, b)))(f)
  {
    SumTerm(c, Removed(d, b), f);
  }

  function At(m: map<Path, nat>): Path -> nat {
    f => if f in m then m[f] else 0
  }

  /** Additions chosen per file: at least the required ones, at most the cap, all removals used. */
  ghost predicate IsAllocation(d: Diffs, c: set<Path>, b: Block, chosen: map<Path, nat>) {
    && c <= chosen.Keys
    && (forall f :: f in c ==> Required(d, b)(f) <= chosen[f] <= Cap(d, b, Sum(c, Removed(d, b)))(f))
    && Sum(c, At(chosen)) == Sum(c, Removed(d, b))
  }

  /** Between two pointwise bounds every total in between is reached. */
  lemma {:induction false} Fill(c: set<Path>, low: Path -> nat, high: Path -> nat, total: nat)
      returns (chosen: map<Path, nat>)
    requires forall f :: f in c ==> low(f) <= high(f)
    requires Sum(c, low) <= total <= Sum(c, high)
    ensures chosen.Keys == c && Sum(c, At(chosen)) == total
    ensures forall f :: f in c ==> low(f) <= chosen[f] <= high(f)
    decreases c
  {
    if c == {} {
      chosen := map[];
    } else {
      var f :| f in c;
      SumSplit(c, low, f);
      SumSplit(c, high, f);
      SumLeq(c - {f}, low, high);
      var most := total - Sum(c - {f}, low);
      var take := if most < high(f) then most else high(f);
      var rest := Fill(c - {f}, low, high, total - take);
      chosen := rest[f := take];
      SumSplit(c, At(chosen), f);
      SumSame(c - {f}, At(chosen), At(rest));
    }
  }

  /** Every allocation is realised by a plan with exactly those additions matched. */
  lemma AllocationRealised(d: Diffs, c: set<Path>, b: Block, chosen: map<Path, nat>) returns (plan: Plan)
    requires c <= d.Keys && IsAllocation(d, c, b, chosen)
    ensures MovesBlock(d, c, b, plan) && Ships(c, Removed(d, b), At(chosen), plan)
  {
    forall f | f in c ensures Removed(d, b)(f) + At(chosen)(f) <= Sum(c, Removed(d, b)) {
      SumTerm(c, Removed(d, b), f);
    }
    plan := Ship(c, Removed(d, b), At(chosen));
  }

  lemma PlanPassesTest(d: Diffs, c: set<Path>, b: Block, plan: Plan)
    requires MovesBlock(d, c, b, plan)
    ensures BlockOk(d, c, b)
  {
    var matched := f => Incoming(c, plan, f);
    var removed := Removed(d, b);
    assert Ships(c, removed, matched, plan);
    ShipsBalanced(c, removed, matched, plan);
    var caps := Cap(d, b, Sum(c, removed));
    forall f | f in c ensures matched(f) <= caps(f) && removed(f) + matched(f) <= Sum(c, removed) {
      ShipsDiagonal(c, removed, matched, plan, f);
    }
    SumLeq(c, matched, caps);
    SumLeq(c, Required(d, b), matched);
    forall f | f in c ensures removed(f) <= Sum(c, caps) - caps(f) {
      LastTestImplied(d, c, b, f);
    }
  }

  /** The arithmetic test holds exactly when the block admits a cross-file matching. */
  lemma BlockOkExactly(d: Diffs, c: set<Path>, b: Block)
    requires c <= d.Keys
    ensures BlockOk(d, c, b) <==> Movable(d, c, b)
  {
    if BlockOk(d, c, b) {
      var total := Sum(c, Removed(d, b));
      var chosen := Fill(c, Required(d, b), Cap(d, b, total), total);
      var plan := AllocationRealised(d, c, b, chosen);
    }
    if plan :| MovesBlock(d, c, b, plan) {
      PlanPassesTest(d, c, b, plan);
    }
  }

  /** A failing block has a file to evict, so every round makes progress. */
  lemma FailingBlockHasCulprit(d: Diffs, c: set<Path>, b: Block) returns (f: Path)
    requires !BlockOk(d, c, b)
    ensures f in c && (Removed(d, b)(f) > 0 || Required(d, b)(f) > 0)
  {
    if forall g :: g in c ==> Removed(d, b)(g) == 0 && Required(d, b)(g) == 0 {
      SumZero(c, Removed(d, b));
      SumZero(c, Required(d, b));
      SumZero(c, Cap(d, b, 0));
      assert false;
    }
    f :| f in c && (Removed(d, b)(f) > 0 || Required(d, b)(f) > 0);
  }

  // ----- the pruning rounds

  ghost predicate RemovesTooMuch(d: Diffs, c: set<Path>, f: Path)
    requires f in d
  {
    exists b :: b in d[f].removed && d[f].removed[b] > Sum(c - {f}, Added(d, b))
  }

  ghost predicate RequiresTooMuch(d: Diffs, c: set<Path>, f: Path)
    requires f in d
  {
    exists b :: b in d[f].required && d[f].required[b] > Sum(c - {f}, Removed(d, b))
  }

  ghost function MonotoneBad(d: Diffs, c: set<Path>): (bad: set<Path>)
    requires c <= d.Keys
    ensures bad <= c
  {
    set f | f in c && (RemovesTooMuch(d, c, f) || RequiresTooMuch(d, c, f))
  }

  ghost predicate Culprit(d: Diffs, c: set<Path>, f: Path, b: Block) {
    !BlockOk(d, c, b) && (Removed(d, b)(f) > 0 || Required(d, b)(f) > 0)
  }

  ghost function MultiplicityBad(d: Diffs, c: set<Path>): (bad: set<Path>)
    requires c <= d.Keys
    ensures bad <= c
  {
    set f | f in c && exists b :: b in AllBlocks(d, c) && Culprit(d, c, f, b)
  }

  /** The files left when no round evicts any more. */
  ghost function Covered(d: Diffs, c: set<Path>): (covered: set<Path>)
    requires c <= d.Keys
    ensures covered <= c
    decreases c
  {
    if c == {} then {}
    else if MonotoneBad(d, c) != {} then Covered(d, c - MonotoneBad(d, c))
    else if MultiplicityBad(d, c) == {} then c
    else Covered(d, c - MultiplicityBad(d, c))
  }

  lemma UnseenBlock(d: Diffs, c: set<Path>, b: Block)
    requires c <= d.Keys && b !in AllBlocks(d, c)
    ensures BlockOk(d, c, b)
  {
    if !BlockOk(d, c, b) {
      var f := FailingBlockHasCulprit(d, c, b);
    }
  }

  lemma CulpritEvicted(d: Diffs, c: set<Path>, b: Block) returns (f: Path)
    requires c <= d.Keys && !BlockOk(d, c, b) && b in AllBlocks(d, c)
    ensures f in MultiplicityBad(d, c)
  {
    f := FailingBlockHasCulprit(d, c, b);
    assert Culprit(d, c, f, b);
  }

  lemma NoCulpritNoFailure(d: Diffs, c: set<Path>, b: Block)
    requires c <= d.Keys && MultiplicityBad(d, c) == {}
    ensures BlockOk(d, c, b)
  {
    if b !in AllBlocks(d, c) {
      UnseenBlock(d, c, b);
    } else if !BlockOk(d, c, b) {
      var f := CulpritEvicted(d, c, b);
    }
  }

  /** No culprit is left exactly when the candidates are a pure move. */
  lemma QuietExactly(d: Diffs, c: set<Path>)
    requires c <= d.Keys
    ensures MultiplicityBad(d, c) == {} <==> PureMove(d, c)
  {
    if MultiplicityBad(d, c) == {} {
      forall b ensures Movable(d, c, b) {
        NoCulpritNoFailure(d, c, b);
        BlockOkExactly(d, c, b);
      }
    }
    if PureMove(d, c) {
      forall b ensures BlockOk(d, c, b) {
        BlockOkExactly(d, c, b);
      }
    }
  }

  /** Other files could take in all the copies of b that f removes, and supply
      all that it requires, if they had nothing else to serve. */
  ghost predicate Placed(d: Diffs, c: set<Path>, f: Path, b: Block, put: map<Path, nat>, taken: map<Path, nat>)
    requires c <= d.Keys && f in c
  {
    && put.Keys == taken.Keys == c - {f}
    && (forall g :: g in put ==> put[g] <= d[g].required[b] + d[g].declared[b] && taken[g] <= d[g].removed[b])
    && Sum(c - {f}, At(put)) == d[f].removed[b] && Sum(c - {f}, At(taken)) == d[f].required[b]
  }

  ghost predicate Placeable(d: Diffs, c: set<Path>, f: Path, b: Block)
    requires c <= d.Keys && f in c
  {
    exists put, taken :: Placed(d, c, f, b, put, taken)
  }

  function Nothing(): Path -> nat {
    _ => 0
  }

  lemma PlaceableExactly(d: Diffs, c: set<Path>, f: Path, b: Block)
    requires c <= d.Keys && f in c
    ensures Placeable(d, c, f, b) <==>
            d[f].removed[b] <= Sum(c - {f}, Added(d, b)) && d[f].required[b] <= Sum(c - {f}, Removed(d, b))
  {
    hide Sum;
    var others := c - {f};
    if d[f].removed[b] <= Sum(others, Added(d, b)) && d[f].required[b] <= Sum(others, Removed(d, b)) {
      SumZero(others, Nothing());
      var put := Fill(others, Nothing(), Added(d, b), d[f].removed[b]);
      var taken := Fill(others, Nothing(), Removed(d, b), d[f].required[b]);
      assert Placed(d, c, f, b, put, taken);
    }
    if put, taken :| Placed(d, c, f, b, put, taken) {
      SumLeq(others, At(put), Added(d, b));
      SumLeq(others, At(taken), Removed(d, b));
    }
  }

  /** A round of phase 1 evicts exactly the files with a block that cannot be placed. */
  lemma MonotoneBadExactly(d: Diffs, c: set<Path>, f: Path)
    requires c <= d.Keys && f in c
    ensures f in MonotoneBad(d, c) <==> exists b :: !Placeable(d, c, f, b)
  {
    hide Sum, Placeable;
    forall b ensures !Placeable(d, c, f, b) <==>
      (d[f].removed[b] > Sum(c - {f}, Added(d, b)) || d[f].required[b] > Sum(c - {f}, Removed(d, b)))
    {
      PlaceableExactly(d, c, f, b);
    }
  }

  /** The file removes or requires a block that admits no matching. */
  ghost predicate Stuck(d: Diffs, c: set<Path>, f: Path, b: Block)
    requires f in d
  {
    !Movable(d, c, b) && (d[f].removed[b] > 0 || d[f].required[b] > 0)
  }

  /** A round of phase 2 evicts exactly the files with a stuck block. */
  lemma MultiplicityBadExactly(d: Diffs, c: set<Path>, f: Path)
    requires c <= d.Keys && f in c
    ensures f in MultiplicityBad(d, c) <==> exists b :: Stuck(d, c, f, b)
  {
    hide Movable, BlockOk;
    if b :| b in AllBlocks(d, c) && Culprit(d, c, f, b) {
      BlockOkExactly(d, c, b);
      assert Stuck(d, c, f, b);
    }
    if b :| Stuck(d, c, f, b) {
      BlockOkExactly(d, c, b);
      assert b in AllBlocks(d, c) && Culprit(d, c, f, b);
    }
  }

  /** What a round leaves: without the files that cannot be placed, or when there
      are none without the stuck ones. */
  ghost function Round(d: Diffs, c: set<Path>): (rest: set<Path>)
    requires c <= d.Keys
    ensures rest <= c
  {
    var unplaced := set f | f in c && exists b :: !Placeable(d, c, f, b);
    if unplaced != {} then c - unplaced else c - set f | f in c && exists b :: Stuck(d, c, f, b)
  }

  lemma RoundIs(d: Diffs, c: set<Path>)
    requires c <= d.Keys
    ensures Round(d, c) == if MonotoneBad(d, c) != {} then c - MonotoneBad(d, c) else c - MultiplicityBad(d, c)
  {
    hide MonotoneBad, MultiplicityBad, Placeable, Stuck;
    forall f | f in c ensures
      && (f in MonotoneBad(d, c) <==> exists b :: !Placeable(d, c, f, b))
      && (f in MultiplicityBad(d, c) <==> exists b :: Stuck(d, c, f, b))
    {
      MonotoneBadExactly(d, c, f);
      MultiplicityBadExactly(d, c, f);
    }
    assert MonotoneBad(d, c) == set f | f in c && exists b :: !Placeable(d, c, f, b);
    assert c - MultiplicityBad(d, c) == c - set f | f in c && exists b :: Stuck(d, c, f, b);
  }

  /** The rounds from c, each evicting somebody, until one evicts nobody. */
  ghost predicate Rounds(d: Diffs, rounds: seq<set<Path>>) {
    && rounds != [] && (forall i :: 0 <= i < |rounds| ==> rounds[i] <= d.Keys)
    && (forall i :: 0 <= i < |rounds| - 1 ==> rounds[i + 1] == Round(d, rounds[i]) && rounds[i + 1] != rounds[i])
    && Round(d, rounds[|rounds| - 1]) == rounds[|rounds| - 1]
  }

  lemma Smaller(c: set<Path>, bad: set<Path>)
    requires bad <= c
    ensures c - bad == c <==> bad == {}
  {
    if f :| f in bad {
      assert f in c && f !in c - bad;
    } else {
      assert c - bad == c;
    }
  }

  lemma CoveredRound(d: Diffs, c: set<Path>)
    requires c <= d.Keys
    ensures Covered(d, c) == if Round(d, c) == c then c else Covered(d, Round(d, c))
  {
    RoundIs(d, c);
    hide MonotoneBad, MultiplicityBad, Round;
    Smaller(c, MonotoneBad(d, c));
    Smaller(c, MultiplicityBad(d, c));
  }

  lemma MoreRounds(d: Diffs, c: set<Path>, rest: seq<set<Path>>)
    requires c <= d.Keys && Rounds(d, rest) && rest[0] == Round(d, c) != c
    ensures Rounds(d, [c] + rest)
  {
    hide Round;
    var rounds := [c] + rest;
    forall i | 0 <= i < |rounds| - 1 ensures rounds[i + 1] == Round(d, rounds[i]) && rounds[i + 1] != rounds[i] {
      if i > 0 {
        assert rounds[i] == rest[i - 1] && rounds[i + 1] == rest[i - 1 + 1];
      }
    }
  }

  /** What is reported is what the last round leaves. */
  lemma {:induction false} CoveredIsLastRound(d: Diffs, c: set<Path>) returns (rounds: seq<set<Path>>)
    requires c <= d.Keys
    ensures Rounds(d, rounds) && rounds[0] == c && rounds[|rounds| - 1] == Covered(d, c)
    decreases c
  {
    CoveredRound(d, c);
    hide Covered, Round;
    if Round(d, c) == c {
      rounds := [c];
    } else {
      var rest := CoveredIsLastRound(d, Round(d, c));
      MoreRounds(d, c, rest);
      rounds := [c] + rest;
    }
  }

  /** Phase 1 is safe: a file it evicts belongs to no pure move among the candidates. */
  lemma MonotoneEvictionSafe(d: Diffs, c: set<Path>, v: set<Path>, f: Path)
    requires c <= d.Keys && v <= c && PureMove(d, v) && f in v
    ensures f !in MonotoneBad(d, c)
  {
    forall b ensures Removed(d, b)(f) <= Sum(c - {f}, Added(d, b)) &&
                     Required(d, b)(f) <= Sum(c - {f}, Removed(d, b))
    {
      assert Movable(d, v, b);
      var plan :| MovesBlock(d, v, b, plan);
      var out, into := g => Flow(plan, f, g), g => Flow(plan, g, f);
      SumSplit(v, out, f);
      SumSplit(v, into, f);
      forall g | g in v - {f} ensures out(g) <= Added(d, b)(g) && into(g) <= Removed(d, b)(g) {
        SumTerm(v, h => Flow(plan, h, g), f);
        SumTerm(v, h => Flow(plan, g, h), f);
      }
      SumLeq(v - {f}, out, Added(d, b));
      SumLeq(v - {f}, into, Removed(d, b));
      SumMono(v - {f}, c - {f}, Added(d, b));
      SumMono(v - {f}, c - {f}, Removed(d, b));
    }
  }

  lemma {:induction false} SumMono(s: set<Path>, t: set<Path>, w: Path -> nat)
    requires s <= t
    ensures Sum(s, w) <= Sum(t, w)
  {
    var inside := f => if f in s then w(f) else 0;
    SumSame(s, w, inside);
    SumExtend(s, t, inside);
    SumLeq(t, inside, w);
  }

  /** What is reported is a pure move: every block of every survivor admits a matching. */
  lemma {:induction false} CoveredIsPureMove(d: Diffs, c: set<Path>)
    requires c <= d.Keys
    ensures PureMove(d, Covered(d, c))
    decreases c
  {
    if c == {} {
      QuietExactly(d, c);
    } else if MonotoneBad(d, c) != {} {
      CoveredIsPureMove(d, c - MonotoneBad(d, c));
    } else if MultiplicityBad(d, c) == {} {
      QuietExactly(d, c);
    } else {
      CoveredIsPureMove(d, c - MultiplicityBad(d, c));
    }
  }

  /** Nothing is evicted exactly when the candidates already are a pure move. */
  lemma KeepsAllExactly(d: Diffs, c: set<Path>)
    requires c <= d.Keys
    ensures Covered(d, c) == c <==> PureMove(d, c)
  {
    CoveredIsPureMove(d, c);
    if PureMove(d, c) {
      QuietExactly(d, c);
      forall f | f in c ensures f !in MonotoneBad(d, c) {
        MonotoneEvictionSafe(d, c, c, f);
      }
      assert MonotoneBad(d, c) == {};
    }
  }

  /** What phase 1 alone leaves of the candidates. */
  ghost function Core(d: Diffs, c: set<Path>): (core: set<Path>)
    requires c <= d.Keys
    ensures core <= c && MonotoneBad(d, core) == {}
    decreases c
  {
    if MonotoneBad(d, c) == {} then c else Core(d, c - MonotoneBad(d, c))
  }

  /** All rounds of phase 1 together: no pure move among the candidates loses a file. */
  lemma {:induction false} PureMovesSurvive(d: Diffs, c: set<Path>, v: set<Path>)
    requires c <= d.Keys && v <= c && PureMove(d, v)
    ensures v <= Core(d, c)
    decreases c
  {
    hide PureMove, MonotoneBad;
    forall f | f in v ensures f !in MonotoneBad(d, c) {
      MonotoneEvictionSafe(d, c, v, f);
    }
    if MonotoneBad(d, c) != {} {
      PureMovesSurvive(d, c - MonotoneBad(d, c), v);
    }
  }

  /** Phase 2 starts where phase 1 stopped. */
  lemma {:induction false} CoveredFromCore(d: Diffs, c: set<Path>)
    requires c <= d.Keys
    ensures Covered(d, c) == Covered(d, Core(d, c))
    decreases c
  {
    hide MonotoneBad, MultiplicityBad;
    if MonotoneBad(d, c) != {} {
      CoveredFromCore(d, c - MonotoneBad(d, c));
    }
  }

  /** Phase 2 evicts nothing exactly when the core is a pure move; the result is then the greatest pure move. */
  lemma GreatestMoveExactly(d: Diffs, c: set<Path>)
    requires c <= d.Keys
    ensures Covered(d, c) == Core(d, c) <==> PureMove(d, Core(d, c))
    ensures PureMove(d, Core(d, c)) ==> forall v :: v <= c && PureMove(d, v) ==> v <= Covered(d, c)
  {
    hide Covered, PureMove, Core;
    CoveredFromCore(d, c);
    KeepsAllExactly(d, Core(d, c));
    forall v | v <= c && PureMove(d, v) ensures v <= Core(d, c) {
      PureMovesSurvive(d, c, v);
    }
  }

  /** Pure moves have no greatest member, so the detector cannot return one: here
      two files require the same removed block, either alone is a pure move with
      its source, and the rounds evict all three. */
  lemma CompetingDestinations(b: Block, source: Path, left: Path, right: Path, d: Diffs)
    requires source != left && source != right && left != right && d.Keys == {source, left, right}
    requires d[source] == FileDiff(multiset{b}, multiset{}, multiset{})
    requires d[left] == d[right] == FileDiff(multiset{}, multiset{b}, multiset{})
    ensures PureMove(d, {source, left}) && PureMove(d, {source, right})
    ensures !PureMove(d, d.Keys) && Covered(d, d.Keys) == {}
  {
    hide Sum, Covered, MonotoneBad, PureMove;
    OneMove(b, source, left, d);
    OneMove(b, source, right, d);
    TwoWantOne(b, source, left, right, d);
    FailsOneBlock(d, d.Keys, b);
    forall f | f in d.Keys ensures f !in MonotoneBad(d, d.Keys) {
      MonotoneEvictionSafe(d, d.Keys, if f == right then {source, right} else {source, left}, f);
    }
    assert MonotoneBad(d, d.Keys) == {};
    EvictsEvery(b, source, d);
  }

  lemma FailsOneBlock(d: Diffs, c: set<Path>, b: Block)
    requires c <= d.Keys && !BlockOk(d, c, b)
    ensures !PureMove(d, c)
  {
    BlockOkExactly(d, c, b);
    assert !Movable(d, c, b);
  }

  lemma TwoWantOne(b: Block, source: Path, left: Path, right: Path, d: Diffs)
    requires source != left && source != right && left != right && d.Keys == {source, left, right}
    requires d[source].removed[b] == 1 && d[left].removed[b] == d[right].removed[b] == 0
    requires d[left].required[b] == d[right].required[b] == 1
    ensures !BlockOk(d, d.Keys, b)
  {
    ThreeTerms(source, left, right, Removed(d, b));
    ThreeTerms(source, left, right, Required(d, b));
  }

  lemma EvictsEvery(b: Block, source: Path, d: Diffs)
    requires source in d && b in d[source].removed && !BlockOk(d, d.Keys, b) && MonotoneBad(d, d.Keys) == {}
    requires forall f :: f in d ==> b in d[f].removed || b in d[f].required
    ensures Covered(d, d.Keys) == {}
  {
    assert b in AllBlocks(d, d.Keys);
    assert forall f :: f in d ==> Culprit(d, d.Keys, f, b);
    assert MultiplicityBad(d, d.Keys) == d.Keys;
    assert d.Keys - d.Keys == {};
  }

  lemma ThreeTerms(x: Path, y: Path, z: Path, w: Path -> nat)
    requires x != y && y != z && x != z
    ensures Sum({x, y, z}, w) == w(x) + w(y) + w(z)
  {
    SumSplit({x, y, z}, w, x);
    assert {x, y, z} - {x} == {y, z};
    TwoTerms(y, z, w);
  }

  lemma TwoTerms(x: Path, y: Path, w: Path -> nat)
    requires x != y
    ensures Sum({x, y}, w) == w(x) + w(y)
  {
    SumSplit({x, y}, w, x);
    assert {x, y} - {x} == {y};
    SumSplit({y}, w, y);
    assert {y} - {y} == {};
  }

  lemma OneMove(b: Block, source: Path, dest: Path, d: Diffs)
    requires source != dest && source in d && dest in d
    requires d[source] == FileDiff(multiset{b}, multiset{}, multiset{})
    requires d[dest] == FileDiff(multiset{}, multiset{b}, multiset{})
    ensures PureMove(d, {source, dest})
  {
    hide Sum;
    var c := {source, dest};
    forall x ensures Movable(d, c, x) {
      TwoTerms(source, dest, Removed(d, x));
      TwoTerms(source, dest, Required(d, x));
      TwoTerms(source, dest, Cap(d, x, Sum(c, Removed(d, x))));
      BlockOkExactly(d, c, x);
    }
  }
}
