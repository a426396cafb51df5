/** The transport problem with a forbidden diagonal that hides behind the
    arithmetic of the move detector: files supply removed copies of a block,
    files take up added copies of it, and no file may serve itself. */
module Transport {
  import opened FiniteSums

  datatype Path = Path(name: string)

  /** plan[(g, f)] copies move from file g to file f. */
  type Plan = map<(Path, Path), nat>

  function Flow(plan: Plan, g: Path, f: Path): nat {
    if (g, f) in plan then plan[(g, f)] else 0
  }

  ghost function Outgoing(c: set<Path>, plan: Plan, g: Path): nat {
    Sum(c, f => Flow(plan, g, f))
  }

  ghost function Incoming(c: set<Path>, plan: Plan, f: Path): nat {
    Sum(c, g => Flow(plan, g, f))
  }

  /** Every supply is sent out, every demand is met, nothing stays in its own file. */
  ghost predicate Ships(c: set<Path>, supply: Path -> nat, demand: Path -> nat, plan: Plan) {
    forall f :: f in c ==>
      Flow(plan, f, f) == 0 && Outgoing(c, plan, f) == supply(f) && Incoming(c, plan, f) == demand(f)
  }

  /** A shipment is balanced. */
  lemma ShipsBalanced(c: set<Path>, supply: Path -> nat, demand: Path -> nat, plan: Plan)
    requires Ships(c, supply, demand, plan)
    ensures Sum(c, supply) == Sum(c, demand)
  {
    var cell := (g, f) => Flow(plan, g, f);
    forall f | f in c ensures supply(f) == Sum(c, Row(cell, f)) && demand(f) == Sum(c, Column(cell, f)) {
      SumSame(c, y => Flow(plan, f, y), Row(cell, f));
      SumSame(c, x => Flow(plan, x, f), Column(cell, f));
    }
    SumSwap(c, c, cell, supply, demand);
  }

  /** In a shipment a file's own supply and demand together never exceed the total. */
  lemma ShipsDiagonal(c: set<Path>, supply: Path -> nat, demand: Path -> nat, plan: Plan, f: Path)
    requires Ships(c, supply, demand, plan) && f in c
    ensures supply(f) + demand(f) <= Sum(c, supply)
  {
    var into := g => Flow(plan, g, f);
    SumSplit(c, into, f);
    SumSplit(c, supply, f);
    forall g | g in c - {f} ensures into(g) <= supply(g) {
      SumTerm(c, h => Flow(plan, g, h), f);
    }
    SumLeq(c - {f}, into, supply);
  }

  function Less(w: Path -> nat, k: Path): Path -> nat {
    x => if x == k && w(x) > 0 then w(x) - 1 else w(x)
  }

  /** A pair whose copy can be shipped first: the file that is tight, if there is one, takes part. */
  lemma NextCopy(c: set<Path>, supply: Path -> nat, demand: Path -> nat) returns (g: Path, f: Path)
    requires Sum(c, supply) == Sum(c, demand) > 0
    requires forall h :: h in c ==> supply(h) + demand(h) <= Sum(c, supply)
    ensures g in c && f in c && g != f && supply(g) > 0 && demand(f) > 0
    ensures forall h :: h in c && h != g && h != f ==> supply(h) + demand(h) < Sum(c, supply)
  {
    var total := Sum(c, supply);
    if h :| h in c && supply(h) + demand(h) == total {
      SumSplit(c, supply, h);
      SumSplit(c, demand, h);
      if supply(h) > 0 {
        g := h;
        f := SumPositive(c - {h}, demand);
      } else {
        f := h;
        g := SumPositive(c - {h}, supply);
      }
      forall k | k in c && k != g && k != f ensures supply(k) + demand(k) < total {
        var both := x => supply(x) + demand(x);
        SumAdd(c, supply, demand, both);
        SumSplit(c, both, h);
        var other := if g == h then f else g;
        SumTwoTerms(c - {h}, both, k, other);
      }
    } else {
      g := SumPositive(c, supply);
      SumSplit(c, demand, g);
      f := SumPositive(c - {g}, demand);
    }
  }

  /** Add one copy from g to f to a shipment of everything else. */
  lemma ShipOneMore(c: set<Path>, supply: Path -> nat, demand: Path -> nat, rest: Plan, g: Path, f: Path)
      returns (plan: Plan)
    requires g in c && f in c && g != f && supply(g) > 0 && demand(f) > 0
    requires Ships(c, Less(supply, g), Less(demand, f), rest)
    ensures Ships(c, supply, demand, plan)
  {
    plan := rest[(g, f) := Flow(rest, g, f) + 1];
    forall h | h in c ensures Flow(plan, h, h) == 0 && Outgoing(c, plan, h) == supply(h) {
      if h == g {
        SumChange(c, k => Flow(rest, h, k), k => Flow(plan, h, k), f);
      } else {
        SumSame(c, k => Flow(rest, h, k), k => Flow(plan, h, k));
      }
    }
    forall h | h in c ensures Incoming(c, plan, h) == demand(h) {
      if h == f {
        SumChange(c, k => Flow(rest, k, h), k => Flow(plan, k, h), g);
      } else {
        SumSame(c, k => Flow(rest, k, h), k => Flow(plan, k, h));
      }
    }
  }

  /** Balance and the diagonal bound are all a shipment needs. */
  lemma {:induction false} Ship(c: set<Path>, supply: Path -> nat, demand: Path -> nat) returns (plan: Plan)
    requires Sum(c, supply) == Sum(c, demand)
    requires forall f :: f in c ==> supply(f) + demand(f) <= Sum(c, supply)
    ensures Ships(c, supply, demand, plan)
    decreases Sum(c, supply)
  {
    if Sum(c, supply) == 0 {
      plan := map[];
      forall f | f in c ensures Outgoing(c, plan, f) == supply(f) && Incoming(c, plan, f) == demand(f) {
        SumTerm(c, supply, f);
        SumTerm(c, demand, f);
        SumZero(c, k => Flow(plan, f, k));
        SumZero(c, k => Flow(plan, k, f));
      }
    } else {
      var g, f := NextCopy(c, supply, demand);
      SumChange(c, supply, Less(supply, g), g);
      SumChange(c, demand, Less(demand, f), f);
      var rest := Ship(c, Less(supply, g), Less(demand, f));
      plan := ShipOneMore(c, supply, demand, rest, g, f);
    }
  }

  /** Exactly the balanced problems within the diagonal bound can be shipped. */
  lemma ShippableExactly(c: set<Path>, supply: Path -> nat, demand: Path -> nat)
    ensures (exists plan :: Ships(c, supply, demand, plan)) <==>
            Sum(c, supply) == Sum(c, demand) && forall f :: f in c ==> supply(f) + demand(f) <= Sum(c, supply)
  {
    if plan :| Ships(c, supply, demand, plan) {
      ShipsBalanced(c, supply, demand, plan);
      forall f | f in c ensures supply(f) + demand(f) <= Sum(c, supply) {
        ShipsDiagonal(c, supply, demand, plan, f);
      }
    }
    if Sum(c, supply) == Sum(c, demand) && forall f :: f in c ==> supply(f) + demand(f) <= Sum(c, supply) {
      var plan := Ship(c, supply, demand);
    }
  }
}
