/** The join of COW triggers with COW transactions. A transaction is the list of
    its phase receipts; it starts at the earliest of them. */
module CowJoin {
  import opened StableSort

  datatype Group = Group(pid: nat, tid: nat, mm: nat, asid: nat, intent: nat, va: nat)
  datatype Transaction = Transaction(group: Group, oldFrame: nat, newFrame: nat, oldIpa: nat, newIpa: nat)
  datatype Receipt = Receipt(ts: nat, phase: nat)
  type Transactions = m: map<Transaction, seq<Receipt>> | forall k :: k in m ==> m[k] != []

  datatype TriggerClass = Stage1PermissionFault | SyscallGuestWrite | BackingMaintenance | PrivilegedInternal
  datatype Trigger = Trigger(ts: nat, pid: nat, tid: nat, mm: nat, asid: nat, kind: TriggerClass, va: nat, faultIpa: nat)

  const COMPOUND := 16 * 1024

  function Intent(c: TriggerClass): nat {
    match c
    case Stage1PermissionFault => 0
    case SyscallGuestWrite => 0
    case BackingMaintenance => 1
    case PrivilegedInternal => 2
  }

  function GroupOf(t: Trigger): Group {
    Group(t.pid, t.tid, t.mm, t.asid, Intent(t.kind), t.va)
  }

  function Earliest(rs: seq<Receipt>): (ts: nat)
    requires rs != []
    ensures (exists i :: 0 <= i < |rs| && rs[i].ts == ts) && forall i :: 0 <= i < |rs| ==> ts <= rs[i].ts
  {
    if |rs| == 1 then rs[0].ts
    else
      var rest := Earliest(rs[1..]);
      if rs[0].ts <= rest then rs[0].ts else rest
  }

  function Start(tx: Transactions, k: Transaction): nat
    requires k in tx
  {
    Earliest(tx[k])
  }

  // ----- phases of one transaction

  function ByPhase(r: Receipt): int { r.phase }
  function ByTime(r: Receipt): int { r.ts }

  /** Receipts ordered by time, ties by phase. */
  function InOrder(rs: seq<Receipt>): seq<Receipt> {
    Sort(Sort(rs, ByPhase), ByTime)
  }

  predicate PhasesComplete(rs: seq<Receipt>) {
    var o := InOrder(rs);
    |o| == 3 && o[0].phase == 0 && o[1].phase == 1 && o[2].phase == 2
  }

  /** One receipt per phase, in time order. */
  ghost predicate OnePerPhase(rs: seq<Receipt>, a: nat, b: nat, c: nat) {
    a <= b <= c && multiset(rs) == multiset{Receipt(a, 0), Receipt(b, 1), Receipt(c, 2)}
  }

  lemma CompleteHasOnePerPhase(rs: seq<Receipt>) returns (a: nat, b: nat, c: nat)
    requires PhasesComplete(rs)
    ensures OnePerPhase(rs, a, b, c)
  {
    hide Sort, WithKey;
    var o := InOrder(rs);
    SortIsStable(Sort(rs, ByPhase), ByTime, 0);
    SortPermutes(rs, ByPhase);
    SortPermutes(Sort(rs, ByPhase), ByTime);
    a, b, c := o[0].ts, o[1].ts, o[2].ts;
    assert o == [Receipt(a, 0), Receipt(b, 1), Receipt(c, 2)];
    assert ByTime(o[0]) <= ByTime(o[1]) <= ByTime(o[2]);
  }

  lemma SortedByPhase(p: seq<Receipt>, a: nat, b: nat, c: nat)
    requires Ordered(p, ByPhase) && multiset(p) == multiset{Receipt(a, 0), Receipt(b, 1), Receipt(c, 2)}
    ensures p == [Receipt(a, 0), Receipt(b, 1), Receipt(c, 2)]
  {
  }

  lemma OnePerPhaseIsComplete(rs: seq<Receipt>, a: nat, b: nat, c: nat)
    requires OnePerPhase(rs, a, b, c)
    ensures PhasesComplete(rs)
  {
    hide Sort, WithKey;
    SortIsStable(rs, ByPhase, 0);
    SortPermutes(rs, ByPhase);
    SortedByPhase(Sort(rs, ByPhase), a, b, c);
    SortOfOrdered(Sort(rs, ByPhase), ByTime);
  }

  /** The phase check passes exactly for one receipt per phase in time order, and
      such a transaction starts at its phase 0. */
  lemma PhasesExactly(rs: seq<Receipt>)
    ensures PhasesComplete(rs) <==> exists a, b, c :: OnePerPhase(rs, a, b, c)
    ensures forall a, b, c :: OnePerPhase(rs, a, b, c) ==> rs != [] && Earliest(rs) == a
  {
    if PhasesComplete(rs) {
      var a, b, c := CompleteHasOnePerPhase(rs);
    }
    forall a, b, c | OnePerPhase(rs, a, b, c) ensures PhasesComplete(rs) && rs != [] && Earliest(rs) == a {
      OnePerPhaseIsComplete(rs, a, b, c);
      assert |multiset(rs)| == |rs| == 3;
      assert forall i :: 0 <= i < |rs| ==> rs[i] in multiset(rs);
      assert Receipt(a, 0) in multiset(rs);
    }
  }

  // ----- the join

  function Candidates(tx: Transactions, t: Trigger): set<Transaction> {
    set k | k in tx && k.group == GroupOf(t) && t.ts <= Start(tx, k)
  }

  /** The candidates that start first. */
  function Matches(tx: Transactions, t: Trigger): set<Transaction> {
    set k | k in Candidates(tx, t) && forall c :: c in Candidates(tx, t) ==> Start(tx, k) <= Start(tx, c)
  }

  predicate NamesSource(t: Trigger, k: Transaction) {
    t.kind.Stage1PermissionFault? ==> k.oldIpa <= t.faultIpa < k.oldIpa + COMPOUND
  }

  /** Trigger by trigger, the one transaction each joins. */
  ghost predicate Joined(tx: Transactions, ts: seq<Trigger>, joined: seq<Transaction>) {
    |joined| == |ts| && forall i :: 0 <= i < |ts| ==> Matches(tx, ts[i]) == {joined[i]} && NamesSource(ts[i], joined[i])
  }

  /** The validator's verdict: every trigger joins, every transaction is joined once. */
  ghost predicate Accepted(tx: Transactions, ts: seq<Trigger>, joined: seq<Transaction>) {
    Joined(tx, ts, joined) && multiset(joined) == multiset(tx.Keys)
  }

  /** Which intent a trigger of each class has. */
  const INTENTS := {(Stage1PermissionFault, 0), (SyscallGuestWrite, 0), (BackingMaintenance, 1), (PrivilegedInternal, 2)}

  /** The trigger and the group are of one thread, address space, address and intent. */
  ghost predicate Belongs(t: Trigger, g: Group) {
    && g.pid == t.pid && g.tid == t.tid && g.mm == t.mm && g.asid == t.asid && g.va == t.va
    && (t.kind, g.intent) in INTENTS
  }

  /** A permission fault lies in the 16 KiB compound that the transaction copies. */
  ghost predicate FaultsIn(t: Trigger, k: Transaction) {
    t.kind.Stage1PermissionFault? ==> exists offset: nat :: FaultsAt(t, k, offset)
  }

  ghost predicate FaultsAt(t: Trigger, k: Transaction, offset: nat) {
    offset < 0x4000 && t.faultIpa == k.oldIpa + offset
  }

  lemma BelongsExactly(t: Trigger, g: Group)
    ensures Belongs(t, g) <==> g == GroupOf(t)
  {
  }

  lemma FaultsInExactly(t: Trigger, k: Transaction)
    ensures FaultsIn(t, k) <==> NamesSource(t, k)
  {
    if k.oldIpa <= t.faultIpa < k.oldIpa + COMPOUND {
      assert FaultsAt(t, k, t.faultIpa - k.oldIpa);
    }
  }

  /** Said without the search: a one-to-one pairing inside groups in which every
      trigger falls after the previous transaction of its group started and no
      later than its own, and no two transactions of a group start together. */
  ghost predicate Interleaved(tx: Transactions, ts: seq<Trigger>, pair: seq<Transaction>) {
    && |pair| == |ts| && multiset(pair) == multiset(tx.Keys)
    && (forall i :: 0 <= i < |ts| ==> pair[i] in tx)
    && (forall i :: 0 <= i < |ts| ==>
          Belongs(ts[i], pair[i].group) && ts[i].ts <= Start(tx, pair[i]) && FaultsIn(ts[i], pair[i]))
    && (forall i, k :: 0 <= i < |ts| && k in tx && k.group == pair[i].group && Start(tx, k) < Start(tx, pair[i]) ==>
          Start(tx, k) < ts[i].ts)
    && (forall k, l :: k in tx && l in tx && k != l && k.group == l.group ==> Start(tx, k) != Start(tx, l))
  }

  lemma EachOnce<T>(s: seq<T>, keys: set<T>, i: nat, j: nat)
    requires multiset(s) == multiset(keys) && i < j < |s|
    ensures s[i] != s[j]
  {
    assert s == s[..j] + s[j..];
    assert s[..j][i] in multiset(s[..j]) && s[j..][0] in multiset(s[j..]);
    assert multiset(s)[s[j]] == multiset(keys)[s[j]] <= 1;
  }

  lemma EveryKey<T>(s: seq<T>, keys: set<T>, k: T) returns (i: nat)
    requires multiset(s) == multiset(keys) && k in keys
    ensures i < |s| && s[i] == k
  {
    assert k in multiset(s);
    i :| i < |s| && s[i] == k;
  }

  lemma JoinedMember(tx: Transactions, ts: seq<Trigger>, joined: seq<Transaction>, i: nat)
    requires Joined(tx, ts, joined) && i < |ts|
    ensures joined[i] in tx && joined[i].group == GroupOf(ts[i]) && ts[i].ts <= Start(tx, joined[i])
    ensures forall k :: k in tx && k.group == GroupOf(ts[i]) && ts[i].ts <= Start(tx, k) && k != joined[i] ==>
              Start(tx, joined[i]) < Start(tx, k)
  {
    assert joined[i] in Matches(tx, ts[i]);
    forall k | k in tx && k.group == GroupOf(ts[i]) && ts[i].ts <= Start(tx, k) && k != joined[i]
      ensures Start(tx, joined[i]) < Start(tx, k)
    {
      assert k in Candidates(tx, ts[i]) && k !in Matches(tx, ts[i]);
    }
  }

  /** In an accepted capture the join is an interleaved pairing. */
  lemma AcceptedInterleaves(tx: Transactions, ts: seq<Trigger>, joined: seq<Transaction>)
    requires Accepted(tx, ts, joined)
    ensures Interleaved(tx, ts, joined)
  {
    hide Belongs, FaultsIn, NamesSource, GroupOf;
    forall i | 0 <= i < |ts|
      ensures joined[i] in tx && Belongs(ts[i], joined[i].group) && ts[i].ts <= Start(tx, joined[i]) && FaultsIn(ts[i], joined[i])
    {
      JoinedMember(tx, ts, joined, i);
      BelongsExactly(ts[i], joined[i].group);
      FaultsInExactly(ts[i], joined[i]);
    }
    forall i, k | 0 <= i < |ts| && k in tx && k.group == joined[i].group && Start(tx, k) < Start(tx, joined[i])
      ensures Start(tx, k) < ts[i].ts
    {
      JoinedMember(tx, ts, joined, i);
    }
    forall k, l | k in tx && l in tx && k != l && k.group == l.group ensures Start(tx, k) != Start(tx, l) {
      var i := EveryKey(joined, tx.Keys, k);
      JoinedMember(tx, ts, joined, i);
    }
  }

  /** An interleaved pairing is the join, so the capture is accepted. */
  lemma InterleavedAccepted(tx: Transactions, ts: seq<Trigger>, pair: seq<Transaction>)
    requires Interleaved(tx, ts, pair)
    ensures Accepted(tx, ts, pair)
  {
    hide Belongs, FaultsIn, NamesSource, GroupOf;
    forall i | 0 <= i < |ts| ensures pair[i].group == GroupOf(ts[i]) && NamesSource(ts[i], pair[i]) {
      BelongsExactly(ts[i], pair[i].group);
      FaultsInExactly(ts[i], pair[i]);
    }
    hide Start;
  }

  /** Exactly the captures with an interleaved pairing are accepted, and the pairing is the join. */
  lemma AcceptedExactly(tx: Transactions, ts: seq<Trigger>, pair: seq<Transaction>)
    ensures Accepted(tx, ts, pair) <==> Interleaved(tx, ts, pair)
  {
    if Accepted(tx, ts, pair) {
      AcceptedInterleaves(tx, ts, pair);
    }
    if Interleaved(tx, ts, pair) {
      InterleavedAccepted(tx, ts, pair);
    }
  }

  /** Within a group the join preserves time order, strictly. */
  lemma OrderPreserved(tx: Transactions, ts: seq<Trigger>, joined: seq<Transaction>, i: nat, j: nat)
    requires Accepted(tx, ts, joined) && i < |ts| && j < |ts| && i != j && GroupOf(ts[i]) == GroupOf(ts[j])
    ensures joined[i] in tx && joined[j] in tx
    ensures ts[i].ts < ts[j].ts <==> Start(tx, joined[i]) < Start(tx, joined[j])
    ensures ts[i].ts != ts[j].ts
  {
    AcceptedInterleaves(tx, ts, joined);
    assert joined[i] != joined[j] by {
      if i < j { EachOnce(joined, tx.Keys, i, j); } else { EachOnce(joined, tx.Keys, j, i); }
    }
    assert Start(tx, joined[i]) != Start(tx, joined[j]);
  }

  // ----- the k-th trigger joins the k-th transaction

  ghost function EarlierTriggers(ts: seq<Trigger>, i: nat): set<nat>
    requires i < |ts|
  {
    set j: nat | j < |ts| && GroupOf(ts[j]) == GroupOf(ts[i]) && ts[j].ts < ts[i].ts
  }

  ghost function EarlierTransactions(tx: Transactions, k: Transaction): set<Transaction>
    requires k in tx
  {
    set l | l in tx && l.group == k.group && Start(tx, l) < Start(tx, k)
  }

  lemma {:induction false} ImageSize(s: set<nat>, joined: seq<Transaction>)
    requires forall i :: i in s ==> i < |joined|
    requires forall i, j :: i in s && j in s && i != j ==> joined[i] != joined[j]
    ensures |set i | i in s :: joined[i]| == |s|
    decreases s
  {
    if s != {} {
      var i :| i in s;
      var rest := s - {i};
      ImageSize(rest, joined);
      assert (set j | j in s :: joined[j]) == (set j | j in rest :: joined[j]) + {joined[i]};
    }
  }

  lemma RanksAgree(tx: Transactions, ts: seq<Trigger>, joined: seq<Transaction>, i: nat)
    requires Accepted(tx, ts, joined) && i < |ts|
    ensures joined[i] in tx && |EarlierTriggers(ts, i)| == |EarlierTransactions(tx, joined[i])|
  {
    assert |joined| == |ts|;
    hide Joined;
    JoinedMember(tx, ts, joined, i);
    var before := EarlierTriggers(ts, i);
    forall a, b | a in before && b in before && a != b ensures joined[a] != joined[b] {
      if a < b { EachOnce(joined, tx.Keys, a, b); } else { EachOnce(joined, tx.Keys, b, a); }
    }
    ImageSize(before, joined);
    var image := set j | j in before :: joined[j];
    forall l | l in EarlierTransactions(tx, joined[i]) ensures l in image {
      var j := EarlierTransactionJoined(tx, ts, joined, i, l);
      assert j in before;
    }
    forall l | l in image ensures l in EarlierTransactions(tx, joined[i]) {
      var j :| j in before && joined[j] == l;
      EarlierTriggerJoins(tx, ts, joined, i, j);
    }
    assert EarlierTransactions(tx, joined[i]) == image;
  }

  lemma EarlierTransactionJoined(tx: Transactions, ts: seq<Trigger>, joined: seq<Transaction>, i: nat, l: Transaction)
      returns (j: nat)
    requires Accepted(tx, ts, joined) && i < |ts| && joined[i] in tx && l in EarlierTransactions(tx, joined[i])
    ensures j in EarlierTriggers(ts, i) && joined[j] == l
  {
    j := EveryKey(joined, tx.Keys, l);
    JoinedMember(tx, ts, joined, i);
    JoinedMember(tx, ts, joined, j);
    OrderPreserved(tx, ts, joined, j, i);
  }

  lemma EarlierTriggerJoins(tx: Transactions, ts: seq<Trigger>, joined: seq<Transaction>, i: nat, j: nat)
    requires Accepted(tx, ts, joined) && i < |ts| && joined[i] in tx && j in EarlierTriggers(ts, i)
    ensures joined[j] in EarlierTransactions(tx, joined[i])
  {
    JoinedMember(tx, ts, joined, i);
    JoinedMember(tx, ts, joined, j);
    OrderPreserved(tx, ts, joined, j, i);
  }

  // ----- the join as the script runs it

  method FirstMatches(tx: Transactions, t: Trigger) returns (matches: set<Transaction>)
    ensures matches == Matches(tx, t)
  {
    hide Start;
    matches := {};
    var left := Candidates(tx, t);
    while left != {}
      invariant left <= Candidates(tx, t)
      invariant matches == set k | k in Candidates(tx, t) - left &&
                  forall c :: c in Candidates(tx, t) - left ==> Start(tx, k) <= Start(tx, c)
      invariant left != Candidates(tx, t) ==> matches != {}
      decreases left
    {
      var c :| c in left;
      ghost var seen := Candidates(tx, t) - left;
      if matches == {} {
        assert seen == {};
        matches := {c};
      } else {
        var best :| best in matches;
        assert forall x :: x in seen ==> Start(tx, best) <= Start(tx, x);
        if Start(tx, c) < Start(tx, best) {
          matches := {c};
        } else if Start(tx, c) == Start(tx, best) {
          matches := matches + {c};
        }
      }
      left := left - {c};
      assert Candidates(tx, t) - left == seen + {c};
    }
    assert Candidates(tx, t) - left == Candidates(tx, t);
  }

  lemma JoinIsUnique(tx: Transactions, ts: seq<Trigger>, a: seq<Transaction>, b: seq<Transaction>)
    requires Joined(tx, ts, a) && Joined(tx, ts, b)
    ensures a == b
  {
  }

  /** One trigger that does not join rules every join out. */
  lemma NoJoin(tx: Transactions, ts: seq<Trigger>, i: nat, pair: seq<Transaction>)
    requires i < |ts|
    requires |Matches(tx, ts[i])| != 1 || exists k :: k in Matches(tx, ts[i]) && !NamesSource(ts[i], k)
    ensures !Joined(tx, ts, pair)
  {
  }

  /** Accepts with the join, or rejects when no join exists. */
  method JoinTriggers(tx: Transactions, ts: seq<Trigger>) returns (ok: bool, joined: seq<Transaction>)
    ensures ok ==> Accepted(tx, ts, joined)
    ensures !ok ==> forall pair :: !Accepted(tx, ts, pair)
  {
    hide Matches, NamesSource;
    joined := [];
    var counts: multiset<Transaction> := multiset{};
    var i := 0;
    while i < |ts|
      invariant 0 <= i <= |ts| && Joined(tx, ts[..i], joined) && counts == multiset(joined)
    {
      var matches := FirstMatches(tx, ts[i]);
      if |matches| != 1 {
        forall pair ensures !Joined(tx, ts, pair) { NoJoin(tx, ts, i, pair); }
        return false, joined;
      }
      var k :| k in matches;
      if !NamesSource(ts[i], k) {
        forall pair ensures !Joined(tx, ts, pair) { NoJoin(tx, ts, i, pair); }
        return false, joined;
      }
      OnlyMember(matches, k);
      joined, counts, i := joined + [k], counts + multiset{k}, i + 1;
    }
    assert ts[..|ts|] == ts;
    ok := counts == multiset(tx.Keys);
    if !ok {
      forall pair ensures !Accepted(tx, ts, pair) {
        if Joined(tx, ts, pair) {
          JoinIsUnique(tx, ts, pair, joined);
        }
      }
    }
  }

  lemma OnlyMember<T>(s: set<T>, x: T)
    requires |s| == 1 && x in s
    ensures s == {x}
  {
    assert |s - {x}| == 0;
  }

  // ----- the whole capture: phases and join

  ghost predicate Phased(rs: seq<Receipt>) {
    exists a, b, c :: OnePerPhase(rs, a, b, c)
  }

  /** What the validator accepts: complete phases and an exact join. */
  ghost predicate Genuine(tx: Transactions, ts: seq<Trigger>, joined: seq<Transaction>) {
    (forall k :: k in tx ==> PhasesComplete(tx[k])) && Accepted(tx, ts, joined)
  }

  lemma StartsAtPhaseZero(tx: Transactions, k: Transaction, r: Receipt)
    requires k in tx && Phased(tx[k])
    ensures r in tx[k] && r.phase == 0 <==> r == Receipt(Start(tx, k), 0)
  {
    PhasesExactly(tx[k]);
    var a, b, c :| OnePerPhase(tx[k], a, b, c);
    assert r in tx[k] <==> r in multiset(tx[k]);
  }

  /** A capture is accepted exactly when every transaction has one receipt per
      phase in time order and the pairing interleaves; the start in that
      pairing is then the time of the one phase-0 receipt. */
  lemma GenuineExactly(tx: Transactions, ts: seq<Trigger>, pair: seq<Transaction>)
    ensures Genuine(tx, ts, pair) <==> (forall k :: k in tx ==> Phased(tx[k])) && Interleaved(tx, ts, pair)
    ensures Genuine(tx, ts, pair) ==>
              forall k, r :: k in tx && r in tx[k] && r.phase == 0 ==> r.ts == Start(tx, k)
  {
    hide PhasesComplete, Accepted, Interleaved, Start;
    AcceptedExactly(tx, ts, pair);
    forall k | k in tx ensures PhasesComplete(tx[k]) <==> Phased(tx[k]) {
      PhasesExactly(tx[k]);
    }
    forall k, r | Genuine(tx, ts, pair) && k in tx && r in tx[k] && r.phase == 0 ensures r.ts == Start(tx, k) {
      StartsAtPhaseZero(tx, k, r);
    }
  }

  method Validate(tx: Transactions, ts: seq<Trigger>) returns (ok: bool, joined: seq<Transaction>)
    ensures ok ==> Genuine(tx, ts, joined)
    ensures !ok ==> forall pair :: !Genuine(tx, ts, pair)
  {
    hide PhasesComplete, Accepted;
    var left := tx.Keys;
    while left != {}
      invariant left <= tx.Keys && forall k :: k in tx.Keys - left ==> PhasesComplete(tx[k])
      decreases left
    {
      var k :| k in left;
      if !PhasesComplete(tx[k]) { return false, []; }
      left := left - {k};
    }
    assert tx.Keys - left == tx.Keys;
    ok, joined := JoinTriggers(tx, ts);
  }
}
