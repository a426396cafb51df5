/** Propagation of serial-host violations through test helpers: the fixpoint at
    the end of `scan_source` in the serial-test ratchet. Functions come already
    scanned, with their violations and the names they call. */
module SerialHelpers {
  import opened Wrappers

  /** A dictionary key: a plain identifier, or `Owner::name`. */
  datatype Key = Plain(id: string) | Scoped(owner: string, id: string)

  /** `owner` is the impl block's type, if the function is in one. */
  datatype FnItem = FnItem(name: string, owner: Option<string>, isTest: bool, isSerialHost: bool, isTestMod: bool,
                           violation: Option<string>, calls: set<Key>)

  const TRAIT_METHODS := {"drop", "deref", "clone", "default", "from", "into", "as_ref", "as_mut"}

  function Text(k: Key): string {
    match k
    case Plain(id) => id
    case Scoped(owner, id) => owner + "::" + id
  }

  ghost function QualName(f: FnItem): Key {
    if f.owner.Some? then Scoped(f.owner.value, f.name) else Plain(f.name)
  }

  ghost predicate Eligible(f: FnItem) {
    f.isTestMod || f.isTest || f.isSerialHost
  }

  /** The keys a tainted function stands under: its name unless a trait method, its qualified name, its type. */
  ghost function KeysOf(f: FnItem): set<Key> {
    {QualName(f)} +
    (if f.name !in TRAIT_METHODS then {Plain(f.name)} else {}) +
    (if f.owner.Some? then {Plain(f.owner.value)} else {})
  }

  ghost predicate Seeded(f: FnItem) {
    Eligible(f) && f.violation.Some?
  }

  ghost predicate CallsInto(f: FnItem, keys: set<Key>) {
    Eligible(f) && f.calls * keys != {}
  }

  /** Closed under seeding and calling, with no word about order or about names already known. */
  ghost predicate Closed(fns: seq<FnItem>, keys: set<Key>) {
    forall f :: f in fns && (Seeded(f) || CallsInto(f, keys)) ==> KeysOf(f) <= keys
  }

  ghost predicate LeastClosed(fns: seq<FnItem>, keys: set<Key>) {
    Closed(fns, keys) && forall other :: Closed(fns, other) ==> keys <= other
  }

  /** Two listings of the same functions, in any order and with any repetition, have the same least closed set. */
  lemma LeastClosedUnique(fns: seq<FnItem>, gs: seq<FnItem>, a: set<Key>, b: set<Key>)
    requires (forall f :: f in fns <==> f in gs) && LeastClosed(fns, a) && LeastClosed(gs, b)
    ensures a == b
  {
    assert forall k :: Closed(fns, k) <==> Closed(gs, k);
  }

  ghost function AllKeys(fns: seq<FnItem>): set<Key> {
    set f, k | f in fns && k in KeysOf(f) :: k
  }

  // ----- the dictionary

  type Helpers = map<Key, string>

  function Seed(h: Helpers, f: FnItem, reason: string): Helpers {
    var named := if f.name !in TRAIT_METHODS then h[Plain(f.name) := reason] else h;
    var qualified := named[if f.owner.Some? then Scoped(f.owner.value, f.name) else Plain(f.name) := reason];
    if f.owner.Some? then
      qualified[Plain(f.owner.value) := "instantiates " + f.owner.value + " (which calls " + reason + ")"]
    else qualified
  }

  /** A propagated reason never overwrites the one its type already has. */
  function Taint(h: Helpers, f: FnItem, desc: string): Helpers {
    var named := if f.name !in TRAIT_METHODS then h[Plain(f.name) := desc] else h;
    var qualified := named[if f.owner.Some? then Scoped(f.owner.value, f.name) else Plain(f.name) := desc];
    if f.owner.Some? && Plain(f.owner.value) !in qualified then
      qualified[Plain(f.owner.value) := "instantiates " + f.owner.value + " (which " + desc + ")"]
    else qualified
  }

  lemma AddsKeys(h: Helpers, f: FnItem, text: string)
    ensures Seed(h, f, text).Keys == h.Keys + KeysOf(f)
    ensures Taint(h, f, text).Keys == h.Keys + KeysOf(f)
  {
  }

  /** Why skipping a function whose qualified name is already known loses nothing. */
  ghost predicate SkipSafe(fns: seq<FnItem>, keys: set<Key>) {
    forall f :: f in fns && Eligible(f) && QualName(f) in keys ==> KeysOf(f) <= keys
  }

  /** A key set built from whole functions always is safe to skip on: a scoped
      name only enters with its own function's keys, and a function outside any
      impl has no other keys. */
  lemma SkipStaysSafe(fns: seq<FnItem>, keys: set<Key>, f: FnItem)
    requires SkipSafe(fns, keys)
    ensures SkipSafe(fns, keys + KeysOf(f))
  {
  }

  /** What every point of the loops keeps: nothing beyond the least closed set, and safe to skip on. */
  ghost predicate Within(fns: seq<FnItem>, keys: set<Key>) {
    && SkipSafe(fns, keys) && keys <= AllKeys(fns)
    && forall other :: Closed(fns, other) ==> keys <= other
  }

  lemma WithinGrows(fns: seq<FnItem>, keys: set<Key>, f: FnItem)
    requires Within(fns, keys) && f in fns && (Seeded(f) || CallsInto(f, keys))
    ensures Within(fns, keys + KeysOf(f))
  {
    SkipStaysSafe(fns, keys, f);
    forall other | Closed(fns, other) ensures keys + KeysOf(f) <= other {
      if CallsInto(f, keys) {
        var k :| k in f.calls * keys;
        assert k in f.calls * other;
      }
    }
  }

  method SeedHelpers(fns: seq<FnItem>) returns (helpers: Helpers)
    ensures Within(fns, helpers.Keys)
    ensures forall f :: f in fns && Seeded(f) ==> KeysOf(f) <= helpers.Keys
  {
    helpers := map[];
    var i := 0;
    while i < |fns|
      invariant 0 <= i <= |fns| && Within(fns, helpers.Keys)
      invariant forall j :: 0 <= j < i && Seeded(fns[j]) ==> KeysOf(fns[j]) <= helpers.Keys
    {
      var f := fns[i];
      if (f.isTestMod || f.isTest || f.isSerialHost) && f.violation.Some? {
        AddsKeys(helpers, f, f.violation.value);
        WithinGrows(fns, helpers.Keys, f);
        helpers := Seed(helpers, f, f.violation.value);
      }
      i := i + 1;
    }
  }

  /** One sweep over the functions; `changed` when some function was tainted. */
  method Sweep(fns: seq<FnItem>, before: Helpers) returns (helpers: Helpers, changed: bool)
    requires Within(fns, before.Keys)
    ensures Within(fns, helpers.Keys) && before.Keys <= helpers.Keys
    ensures changed ==> before.Keys < helpers.Keys
    ensures !changed ==> helpers == before && forall f :: f in fns && CallsInto(f, helpers.Keys) ==> QualName(f) in helpers
  {
    helpers, changed := before, false;
    var i := 0;
    while i < |fns|
      invariant 0 <= i <= |fns| && Within(fns, helpers.Keys) && before.Keys <= helpers.Keys
      invariant changed ==> before.Keys < helpers.Keys
      invariant !changed ==> helpers == before && forall j :: 0 <= j < i && CallsInto(fns[j], helpers.Keys) ==> QualName(fns[j]) in helpers
    {
      var f := fns[i];
      var qualName := if f.owner.Some? then Scoped(f.owner.value, f.name) else Plain(f.name);
      if qualName !in helpers && (f.isTestMod || f.isTest || f.isSerialHost) {
        var known := f.calls * helpers.Keys;
        if known != {} {
          var call :| call in known;
          var desc := "calls serial helper " + Text(call) + " (" + helpers[call] + ")";
          AddsKeys(helpers, f, desc);
          WithinGrows(fns, helpers.Keys, f);
          assert QualName(f) in KeysOf(f);
          helpers, changed := Taint(helpers, f, desc), true;
        }
      }
      i := i + 1;
    }
  }

  /** Terminates with exactly the least closed set of names as keys, whatever call is found first. */
  method Propagate(fns: seq<FnItem>) returns (helpers: Helpers)
    ensures LeastClosed(fns, helpers.Keys)
  {
    helpers := SeedHelpers(fns);
    ghost var seeds := helpers.Keys;
    var changed := true;
    while changed
      invariant Within(fns, helpers.Keys) && seeds <= helpers.Keys
      invariant !changed ==> forall f :: f in fns && CallsInto(f, helpers.Keys) ==> QualName(f) in helpers
      decreases AllKeys(fns) - helpers.Keys, changed
    {
      helpers, changed := Sweep(fns, helpers);
    }
  }

  // ----- diagnostics

  /** A test or test-only helper outside serial_host that reaches a violation. */
  ghost predicate Diagnosed(f: FnItem, keys: set<Key>) {
    (f.isTest || f.isTestMod) && !f.isSerialHost &&
    (f.violation.Some? || (f.isTest && Plain(f.name) in keys) || f.calls * keys != {})
  }

  ghost predicate DiagnosedWith(fns: seq<FnItem>, bad: seq<nat>, keys: set<Key>) {
    LeastClosed(fns, keys) && forall i: nat :: i in bad <==> i < |fns| && Diagnosed(fns[i], keys)
  }

  /** The indices of the functions that are diagnosed over the least closed set. */
  ghost predicate Diagnosis(fns: seq<FnItem>, bad: seq<nat>) {
    exists keys :: DiagnosedWith(fns, bad, keys)
  }

  /** Whether a function is diagnosed does not depend on where it stands, or on the order of the others. */
  lemma DiagnosisOrderFree(fns: seq<FnItem>, gs: seq<FnItem>, bad: seq<nat>, worse: seq<nat>, i: nat, j: nat)
    requires (forall f :: f in fns <==> f in gs) && Diagnosis(fns, bad) && Diagnosis(gs, worse)
    requires i < |fns| && j < |gs| && fns[i] == gs[j]
    ensures i in bad <==> j in worse
  {
    hide LeastClosed, Diagnosed;
    var a :| DiagnosedWith(fns, bad, a);
    var b :| DiagnosedWith(gs, worse, b);
    LeastClosedUnique(fns, gs, a, b);
  }

  /** The diagnosed functions, in file order. */
  method Diagnose(fns: seq<FnItem>) returns (bad: seq<nat>)
    ensures Diagnosis(fns, bad)
    ensures forall a, b :: 0 <= a < b < |bad| ==> bad[a] < bad[b]
  {
    var helpers := Propagate(fns);
    ghost var keys := helpers.Keys;
    bad := [];
    var i: nat := 0;
    while i < |fns|
      invariant i <= |fns|
      invariant forall k: nat :: k in bad <==> k < i && Diagnosed(fns[k], keys)
      invariant forall a, b :: 0 <= a < b < |bad| ==> bad[a] < bad[b]
      invariant forall a :: 0 <= a < |bad| ==> bad[a] < i
    {
      var f := fns[i];
      if (f.isTest || f.isTestMod) && !f.isSerialHost {
        if f.violation.Some? {
          bad := bad + [i];
        } else if f.isTest && Plain(f.name) in helpers {
          bad := bad + [i];
        } else if f.calls * helpers.Keys != {} {
          bad := bad + [i];
        }
      }
      i := i + 1;
    }
    assert DiagnosedWith(fns, bad, keys);
  }
}
