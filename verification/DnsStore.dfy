// The effect of `dns.apply_resources` on a DNS server's records (src/commands/dns.rs):
// an idempotent, conflict-detecting update, one planned record at a time.
//
// Names and values are in normal form here (case folded, no trailing dot); DnsRecords
// says how a planned record gets there.
module DnsStore {
  import opened Wrappers

  datatype Kind = A | Ptr | Cname

  datatype Key = Key(zone: string, kind: Kind, name: string)

  // One planned record. `creates`: it brings its zone along if that is missing.
  datatype Op = Op(key: Key, value: string, creates: bool)

  datatype Store = Store(zones: set<string>, records: map<Key, set<string>>)

  datatype Status = Created | Retained

  datatype ApplyError = Conflict | NoZone

  // What a script run leaves: the store, a status per record handled, and the throw that
  // stopped it, if any.
  datatype Applied = Applied(store: Store, statuses: seq<Status>, error: Option<ApplyError>)

  // Records live in zones.
  ghost predicate Valid(s: Store) {
    forall k | k in s.records :: k.zone in s.zones
  }

  function Existing(s: Store, k: Key): set<string> {
    if k in s.records then s.records[k] else {}
  }

  function ZonesWith(s: Store, op: Op): set<string> {
    if op.creates then s.zones + {op.key.zone} else s.zones
  }

  function ApplyOne(s: Store, op: Op): (Store, Result<Status, ApplyError>) {
    var s1 := s.(zones := ZonesWith(s, op));
    var existing := Existing(s, op.key);
    if existing != {} then
      (s1, if existing == {op.value} then Ok(Retained) else Err(Conflict))
    else if op.key.zone !in s1.zones then
      (s1, Err(NoZone))
    else
      (s1.(records := s1.records[op.key := {op.value}]), Ok(Created))
  }

  lemma ValidAfterOne(s: Store, op: Op)
    requires Valid(s)
    ensures Valid(ApplyOne(s, op).0)
  {
  }

  function Apply(s: Store, ops: seq<Op>): Applied
    decreases |ops|
  {
    if ops == [] then Applied(s, [], None)
    else
      var (s1, status) := ApplyOne(s, ops[0]);
      if status.Err? then Applied(s1, [], Some(status.error))
      else
        var rest := Apply(s1, ops[1..]);
        rest.(statuses := [status.value] + rest.statuses)
  }

  predicate Succeeds(s: Store, ops: seq<Op>) {
    Apply(s, ops).error.None?
  }

  // ---- When a plan goes through --------------------------------------------

  // Each key's existing and planned values agree on one value.
  ghost predicate Agrees(s: Store, ops: seq<Op>) {
    && (forall op | op in ops :: Existing(s, op.key) <= {op.value})
    && (forall a, b | a in ops && b in ops && a.key == b.key :: a.value == b.value)
  }

  predicate Brings(op: Op, zone: string) {
    op.creates && op.key.zone == zone
  }

  // Every record finds its zone: it exists, the record creates it, or an earlier one did.
  ghost predicate Ready(zones: set<string>, ops: seq<Op>, i: nat)
    requires i < |ops|
  {
    ops[i].key.zone in zones || exists j :: 0 <= j <= i && Brings(ops[j], ops[i].key.zone)
  }

  ghost predicate ZonesReady(zones: set<string>, ops: seq<Op>) {
    forall i: nat | i < |ops| :: Ready(zones, ops, i)
  }

  // The values a plan gives a key.
  ghost function Planned(ops: seq<Op>, k: Key): set<string> {
    set op | op in ops && op.key == k :: op.value
  }

  // The initial store joined with the plan; the order of the plan does not appear.
  ghost function Joined(s: Store, ops: seq<Op>): Store {
    Store(s.zones + (set op | op in ops && op.creates :: op.key.zone),
          map k | k in s.records.Keys + (set op | op in ops :: op.key) :: Existing(s, k) + Planned(ops, k))
  }

  lemma FirstAgrees(s: Store, ops: seq<Op>)
    requires ops != []
    ensures var (s1, status) := ApplyOne(s, ops[0]);
            status.Ok? ==> (Agrees(s, ops) <==> Agrees(s1, ops[1..]))
    ensures ApplyOne(s, ops[0]).1 == Err(Conflict) ==> !Agrees(s, ops)
  {
    var (s1, status) := ApplyOne(s, ops[0]);
    assert ops[0] in ops;
    assert forall op :: op in ops <==> op == ops[0] || op in ops[1..];
    if status.Ok? {
      assert Existing(s1, ops[0].key) == {ops[0].value};
      if Agrees(s1, ops[1..]) {
        forall op | op in ops[1..] && op.key == ops[0].key ensures op.value == ops[0].value {
          assert Existing(s1, op.key) <= {op.value};
          assert ops[0].value in Existing(s1, op.key);
        }
      }
    }
  }

  lemma ReadyRest(zones: set<string>, zones1: set<string>, ops: seq<Op>)
    requires ops != [] && ZonesReady(zones, ops)
    requires zones1 == if ops[0].creates then zones + {ops[0].key.zone} else zones
    ensures ZonesReady(zones1, ops[1..])
  {
    var rest := ops[1..];
    forall i: nat | i < |rest| ensures Ready(zones1, rest, i) {
      assert Ready(zones, ops, i + 1) && ops[i + 1] == rest[i];
      if rest[i].key.zone !in zones1 {
        var j :| 0 <= j <= i + 1 && Brings(ops[j], ops[i + 1].key.zone);
        assert Brings(rest[j - 1], rest[i].key.zone);
      }
    }
  }

  lemma ReadyWhole(zones: set<string>, zones1: set<string>, ops: seq<Op>)
    requires ops != [] && ZonesReady(zones1, ops[1..]) && ops[0].key.zone in zones1
    requires zones1 == if ops[0].creates then zones + {ops[0].key.zone} else zones
    ensures ZonesReady(zones, ops)
  {
    var rest := ops[1..];
    forall i: nat | i < |ops| ensures Ready(zones, ops, i) {
      if ops[i].key.zone in zones1 {
        assert ops[i].key.zone !in zones ==> Brings(ops[0], ops[i].key.zone);
      } else {
        assert Ready(zones1, rest, i - 1) && ops[i] == rest[i - 1];
        var j :| 0 <= j <= i - 1 && Brings(rest[j], rest[i - 1].key.zone);
        assert Brings(ops[j + 1], ops[i].key.zone);
      }
    }
  }

  lemma FirstZones(s: Store, ops: seq<Op>)
    requires Valid(s) && ops != []
    ensures var (s1, status) := ApplyOne(s, ops[0]);
            status.Ok? ==> Valid(s1) && (ZonesReady(s.zones, ops) <==> ZonesReady(s1.zones, ops[1..]))
    ensures ApplyOne(s, ops[0]).1 == Err(NoZone) ==> !ZonesReady(s.zones, ops)
  {
    var (s1, status) := ApplyOne(s, ops[0]);
    assert ZonesReady(s.zones, ops) ==> Ready(s.zones, ops, 0);
    if status.Ok? {
      if ZonesReady(s.zones, ops) { ReadyRest(s.zones, s1.zones, ops); }
      if ZonesReady(s1.zones, ops[1..]) { ReadyWhole(s.zones, s1.zones, ops); }
    }
  }

  ghost predicate PlansKey(ops: seq<Op>, k: Key) {
    exists op :: op in ops && op.key == k
  }

  lemma JoinedAt(s: Store, ops: seq<Op>, k: Key)
    ensures var r := Joined(s, ops).records;
            && (k in r <==> k in s.records || PlansKey(ops, k))
            && (k in r ==> r[k] == Existing(s, k) + Planned(ops, k))
  {
  }

  lemma PlannedFirst(ops: seq<Op>, k: Key)
    requires ops != []
    ensures Planned(ops, k) == (if ops[0].key == k then {ops[0].value} else {}) + Planned(ops[1..], k)
    ensures PlansKey(ops, k) <==> ops[0].key == k || PlansKey(ops[1..], k)
  {
    assert forall op :: op in ops <==> op == ops[0] || op in ops[1..];
  }

  lemma ExistingAfter(s: Store, op: Op, k: Key)
    requires ApplyOne(s, op).1.Ok?
    ensures Existing(ApplyOne(s, op).0, k) == Existing(s, k) + if op.key == k then {op.value} else {}
    ensures k in ApplyOne(s, op).0.records <==> k in s.records || k == op.key
  {
  }

  lemma FirstJoinsAt(s: Store, ops: seq<Op>, k: Key)
    requires ops != [] && ApplyOne(s, ops[0]).1.Ok?
    ensures var a, b := Joined(ApplyOne(s, ops[0]).0, ops[1..]).records, Joined(s, ops).records;
            (k in a <==> k in b) && (k in a ==> a[k] == b[k])
  {
    var s1 := ApplyOne(s, ops[0]).0;
    ExistingAfter(s, ops[0], k);
    PlannedFirst(ops, k);
    JoinedAt(s1, ops[1..], k);
    JoinedAt(s, ops, k);
  }

  lemma FirstJoinsRecords(s: Store, ops: seq<Op>)
    requires ops != [] && ApplyOne(s, ops[0]).1.Ok?
    ensures Joined(ApplyOne(s, ops[0]).0, ops[1..]).records == Joined(s, ops).records
  {
    var a, b := Joined(ApplyOne(s, ops[0]).0, ops[1..]).records, Joined(s, ops).records;
    forall k ensures (k in a <==> k in b) && (k in a ==> a[k] == b[k]) { FirstJoinsAt(s, ops, k); }
  }

  lemma FirstJoins(s: Store, ops: seq<Op>)
    requires ops != [] && ApplyOne(s, ops[0]).1.Ok?
    ensures Joined(ApplyOne(s, ops[0]).0, ops[1..]) == Joined(s, ops)
  {
    FirstJoinsRecords(s, ops);
    assert forall op :: op in ops <==> op == ops[0] || op in ops[1..];
    assert Joined(ApplyOne(s, ops[0]).0, ops[1..]).zones == Joined(s, ops).zones;
  }

  // A plan goes through exactly when its values agree with each other and with what is
  // there and every record finds its zone; what is then there is the initial store joined
  // with the plan.
  lemma {:induction false} SuccessIsAgreement(s: Store, ops: seq<Op>)
    requires Valid(s)
    ensures Succeeds(s, ops) <==> Agrees(s, ops) && ZonesReady(s.zones, ops)
    ensures Succeeds(s, ops) ==> Apply(s, ops).store == Joined(s, ops)
    decreases |ops|
  {
    if ops == [] {
      JoinedNothing(s);
    } else {
      var (s1, status) := ApplyOne(s, ops[0]);
      FirstAgrees(s, ops);
      FirstZones(s, ops);
      if status.Ok? {
        SuccessIsAgreement(s1, ops[1..]);
        FirstJoins(s, ops);
      }
    }
  }

  lemma JoinedNothing(s: Store)
    ensures Joined(s, []) == s
  {
    var none: seq<Op> := [];
    assert Joined(s, none).zones == s.zones;
    var a := Joined(s, none).records;
    forall k ensures (k in a <==> k in s.records) && (k in a ==> a[k] == s.records[k]) {
      JoinedAt(s, none, k);
      assert Planned(none, k) == {};
    }
    assert a == s.records;
  }

  // ---- Order ---------------------------------------------------------------

  ghost predicate Permutation(p: seq<Op>, ops: seq<Op>) {
    multiset(p) == multiset(ops)
  }

  // Whether every record that brings no zone finds its zone there already.
  ghost predicate DependentsHaveZones(s: Store, ops: seq<Op>) {
    forall op | op in ops && !op.creates :: op.key.zone in s.zones
  }

  // Whether some record's zone is neither there nor brought along by any record.
  ghost predicate SomeZoneNeverAppears(s: Store, ops: seq<Op>) {
    exists op :: op in ops && op.key.zone !in s.zones && forall c | c in ops :: !Brings(c, op.key.zone)
  }

  ghost predicate SameMembers(p: seq<Op>, ops: seq<Op>) {
    forall op :: op in p <==> op in ops
  }

  lemma PermutationMembers(p: seq<Op>, ops: seq<Op>)
    requires Permutation(p, ops)
    ensures SameMembers(p, ops)
  {
    assert forall op :: op in p <==> op in multiset(p);
    assert forall op :: op in ops <==> op in multiset(ops);
  }

  lemma MembersDecide(s: Store, p: seq<Op>, ops: seq<Op>)
    requires SameMembers(p, ops)
    ensures Agrees(s, p) <==> Agrees(s, ops)
    ensures Joined(s, p) == Joined(s, ops)
  {
    assert forall k :: Planned(p, k) == Planned(ops, k);
    assert (set op | op in p :: op.key) == (set op | op in ops :: op.key);
  }

  lemma DependentsAreReady(s: Store, ops: seq<Op>)
    requires DependentsHaveZones(s, ops)
    ensures ZonesReady(s.zones, ops)
  {
    forall i: nat | i < |ops| ensures Ready(s.zones, ops, i) {
      assert ops[i] in ops;
      assert ops[i].key.zone !in s.zones ==> Brings(ops[i], ops[i].key.zone);
    }
  }

  // Plans whose A and CNAME zones exist apply alike in every order (repeats, too, make no
  // difference): the same success, and on success the same store.
  lemma OrderDoesNotMatter(s: Store, ops: seq<Op>, p: seq<Op>)
    requires Valid(s) && DependentsHaveZones(s, ops) && SameMembers(p, ops)
    ensures Succeeds(s, p) <==> Succeeds(s, ops)
    ensures Succeeds(s, ops) <==> Agrees(s, ops)
    ensures Succeeds(s, ops) ==> Apply(s, p).store == Apply(s, ops).store == Joined(s, ops)
  {
    MembersDecide(s, p, ops);
    DependentsAreReady(s, ops);
    DependentsAreReady(s, p);
    SuccessIsAgreement(s, ops);
    SuccessIsAgreement(s, p);
  }

  function Keep(ops: seq<Op>, creates: bool): seq<Op> {
    if ops == [] then []
    else (if ops[0].creates == creates then [ops[0]] else []) + Keep(ops[1..], creates)
  }

  lemma {:induction false} KeepSplits(ops: seq<Op>, first: bool)
    ensures Permutation(Keep(ops, first) + Keep(ops, !first), ops)
  {
    if ops != [] {
      KeepSplits(ops[1..], first);
      assert ops == [ops[0]] + ops[1..];
    }
  }

  lemma {:induction false} KeepMembers(ops: seq<Op>, creates: bool)
    ensures forall op :: op in Keep(ops, creates) <==> op in ops && op.creates == creates
  {
    if ops != [] {
      KeepMembers(ops[1..], creates);
      assert ops == [ops[0]] + ops[1..];
    }
  }

  // With the records that bring zones in front, every zone that can appear does in time.
  lemma CreatorsFirst(s: Store, ops: seq<Op>)
    requires Valid(s) && Agrees(s, ops) && !SomeZoneNeverAppears(s, ops)
    ensures var p := Keep(ops, true) + Keep(ops, false); Permutation(p, ops) && Succeeds(s, p)
  {
    var p := Keep(ops, true) + Keep(ops, false);
    KeepSplits(ops, true);
    PermutationMembers(p, ops);
    MembersDecide(s, p, ops);
    CreatorsFirstReady(s, ops);
    SuccessIsAgreement(s, p);
  }

  lemma CreatorsFirstReady(s: Store, ops: seq<Op>)
    requires !SomeZoneNeverAppears(s, ops)
    ensures ZonesReady(s.zones, Keep(ops, true) + Keep(ops, false))
  {
    var p := Keep(ops, true) + Keep(ops, false);
    forall i: nat | i < |p| ensures Ready(s.zones, p, i) {
      var op := p[i];
      if op.key.zone !in s.zones {
        assert op in p;
        KeepMembers(ops, true);
        KeepMembers(ops, false);
        var c := Bringer(s, ops, op);
        BroughtInTime(s.zones, ops, i, c);
      }
    }
  }

  lemma Bringer(s: Store, ops: seq<Op>, op: Op) returns (c: Op)
    requires !SomeZoneNeverAppears(s, ops) && op in ops && op.key.zone !in s.zones
    ensures c in ops && Brings(c, op.key.zone)
  {
    c :| c in ops && Brings(c, op.key.zone);
  }

  lemma BroughtInTime(zones: set<string>, ops: seq<Op>, i: nat, c: Op)
    requires i < |Keep(ops, true) + Keep(ops, false)|
    requires c in ops && Brings(c, (Keep(ops, true) + Keep(ops, false))[i].key.zone)
    ensures Ready(zones, Keep(ops, true) + Keep(ops, false), i)
  {
    var first := Keep(ops, true);
    var p := first + Keep(ops, false);
    KeepMembers(ops, true);
    var j :| 0 <= j < |first| && first[j] == c;
    assert p[j] == c;
    if i < |first| {
      assert p[i] in first;
      assert Brings(p[i], p[i].key.zone);
    } else {
      assert Brings(p[j], p[i].key.zone);
    }
  }

  // With them behind, a record that needs one fails.
  lemma CreatorsLast(s: Store, ops: seq<Op>)
    requires Valid(s) && !DependentsHaveZones(s, ops)
    ensures var p := Keep(ops, false) + Keep(ops, true); Permutation(p, ops) && !Succeeds(s, p)
  {
    var first := Keep(ops, false);
    var p := first + Keep(ops, true);
    KeepSplits(ops, false);
    KeepMembers(ops, false);
    var op :| op in ops && !op.creates && op.key.zone !in s.zones;
    assert op in first;
    var i: nat :| i < |first| && first[i] == op;
    forall j | 0 <= j <= i ensures !Brings(p[j], op.key.zone) { assert p[j] == first[j] && first[j] in first; }
    assert !Ready(s.zones, p, i);
    SuccessIsAgreement(s, p);
  }

  lemma NeverReady(s: Store, ops: seq<Op>)
    requires SomeZoneNeverAppears(s, ops)
    ensures !ZonesReady(s.zones, ops)
  {
    var op :| op in ops && op.key.zone !in s.zones && forall c | c in ops :: !Brings(c, op.key.zone);
    var i: nat :| i < |ops| && ops[i] == op;
    forall j | 0 <= j <= i ensures !Brings(ops[j], op.key.zone) { assert ops[j] in ops; }
    assert !Ready(s.zones, ops, i);
  }

  lemma SameInEveryOrder(s: Store, ops: seq<Op>, p: seq<Op>)
    requires Valid(s) && Permutation(p, ops)
    requires !Agrees(s, ops) || DependentsHaveZones(s, ops) || SomeZoneNeverAppears(s, ops)
    ensures Succeeds(s, p) == Succeeds(s, ops)
  {
    PermutationMembers(p, ops);
    MembersDecide(s, p, ops);
    SuccessIsAgreement(s, ops);
    SuccessIsAgreement(s, p);
    if DependentsHaveZones(s, ops) {
      OrderDoesNotMatter(s, ops, p);
    } else if SomeZoneNeverAppears(s, ops) {
      NeverReady(s, ops);
      NeverReady(s, p);
    }
  }

  ghost predicate AlikeInEveryOrder(s: Store, ops: seq<Op>) {
    forall p | Permutation(p, ops) :: Succeeds(s, p) == Succeeds(s, ops)
  }

  lemma TwoOrders(s: Store, ops: seq<Op>, p: seq<Op>, q: seq<Op>)
    requires Permutation(p, ops) && Permutation(q, ops) && Succeeds(s, p) && !Succeeds(s, q)
    ensures !AlikeInEveryOrder(s, ops)
  {
  }

  lemma OrderMatters(s: Store, ops: seq<Op>)
    requires Valid(s) && Agrees(s, ops) && !DependentsHaveZones(s, ops) && !SomeZoneNeverAppears(s, ops)
    ensures !AlikeInEveryOrder(s, ops)
  {
    CreatorsFirst(s, ops);
    CreatorsLast(s, ops);
    TwoOrders(s, ops, Keep(ops, true) + Keep(ops, false), Keep(ops, false) + Keep(ops, true));
  }

  // Exactly which plans succeed or fail alike in every order: those in conflict, those
  // whose records without a zone of their own find it there, and those with a zone that
  // neither exists nor is brought along.
  lemma OrderIndependenceIsExact(s: Store, ops: seq<Op>)
    requires Valid(s)
    ensures AlikeInEveryOrder(s, ops)
            <==> !Agrees(s, ops) || DependentsHaveZones(s, ops) || SomeZoneNeverAppears(s, ops)
  {
    if Agrees(s, ops) && !DependentsHaveZones(s, ops) && !SomeZoneNeverAppears(s, ops) {
      OrderMatters(s, ops);
    } else {
      forall p | Permutation(p, ops) ensures Succeeds(s, p) == Succeeds(s, ops) {
        SameInEveryOrder(s, ops, p);
      }
    }
  }

  // ---- Order and what is left behind ---------------------------------------

  // A plan that throws keeps what it wrote before the throw, so its order can show in the
  // store even where it does not show in the verdict.
  ghost predicate SameStoreInEveryOrder(s: Store, ops: seq<Op>) {
    forall p | Permutation(p, ops) :: Apply(s, p).store == Apply(s, ops).store
  }

  // Applied first, the record would be written: nothing has its key, and its zone is there
  // or comes along.
  predicate Writable(s: Store, op: Op) {
    Existing(s, op.key) == {} && (op.creates || op.key.zone in s.zones)
  }

  // Where the k-th element comes from when element i is brought to the front.
  function Origin(i: nat, k: nat): nat {
    if k == 0 then i else if k <= i then k - 1 else k
  }

  function Front<T>(items: seq<T>, i: nat): (r: seq<T>)
    requires i < |items|
    ensures |r| == |items|
    ensures forall k | 0 <= k < |r| :: r[k] == items[Origin(i, k)]
  {
    [items[i]] + items[..i] + items[i + 1..]
  }

  lemma FrontIsPermutation<T>(items: seq<T>, i: nat)
    requires i < |items|
    ensures multiset(Front(items, i)) == multiset(items)
  {
    assert items == items[..i] + ([items[i]] + items[i + 1..]);
  }

  // Whichever record is brought to the front, the same store is left.
  ghost predicate SameStoreFromEveryFront(s: Store, ops: seq<Op>) {
    forall i: nat | i < |ops| :: Apply(s, Front(ops, i)).store == Apply(s, ops).store
  }

  lemma {:induction false} NothingWritable(s: Store, ops: seq<Op>)
    requires Valid(s) && forall op | op in ops :: !Writable(s, op)
    ensures Apply(s, ops).store == s
    decreases |ops|
  {
    if ops != [] {
      assert ops[0] in ops;
      var (s1, status) := ApplyOne(s, ops[0]);
      assert ops[0].key.zone in s.zones ==> s.zones + {ops[0].key.zone} == s.zones;
      assert s1 == s;
      NothingWritable(s, ops[1..]);
    }
  }

  // A record that can be written stays once it is brought to the front.
  lemma FirstIsWritten(s: Store, ops: seq<Op>)
    requires Valid(s) && ops != [] && Writable(s, ops[0])
    ensures Existing(Apply(s, ops).store, ops[0].key) == {ops[0].value}
  {
    var s1 := ApplyOne(s, ops[0]).0;
    NothingIsReplaced(s1, ops[1..]);
    assert Existing(s1, ops[0].key) == {ops[0].value};
  }

  lemma FirstFails(s: Store, ops: seq<Op>)
    requires Valid(s) && ops != [] && !Writable(s, ops[0]) && Existing(s, ops[0].key) != {ops[0].value}
    ensures Apply(s, ops).store == s
  {
    assert ops[0].key.zone in s.zones ==> s.zones + {ops[0].key.zone} == s.zones;
  }

  // One record can be written first and another fails first.
  lemma WriteOrFail(s: Store, ops: seq<Op>, i: nat, j: nat)
    requires Valid(s) && i < |ops| && j < |ops|
    requires Writable(s, ops[i])
    requires !Writable(s, ops[j]) && Existing(s, ops[j].key) != {ops[j].value}
    ensures !SameStoreFromEveryFront(s, ops)
  {
    FirstIsWritten(s, Front(ops, i));
    FirstFails(s, Front(ops, j));
    assert Apply(s, Front(ops, i)).store != Apply(s, Front(ops, j)).store;
  }

  // Two records can be written first, with different values under one key.
  lemma WriteEither(s: Store, ops: seq<Op>, i: nat, j: nat)
    requires Valid(s) && i < |ops| && j < |ops|
    requires Writable(s, ops[i]) && Writable(s, ops[j])
    requires ops[i].key == ops[j].key && ops[i].value != ops[j].value
    ensures !SameStoreFromEveryFront(s, ops)
  {
    FirstIsWritten(s, Front(ops, i));
    FirstIsWritten(s, Front(ops, j));
    assert {ops[i].value} != {ops[j].value} by { assert ops[i].value !in {ops[j].value}; }
    assert Apply(s, Front(ops, i)).store != Apply(s, Front(ops, j)).store;
  }

  lemma OrderShows(s: Store, ops: seq<Op>, i: nat)
    requires Valid(s) && i < |ops| && Writable(s, ops[i])
    requires !Agrees(s, ops) || !DependentsHaveZones(s, ops)
    ensures !SameStoreFromEveryFront(s, ops)
  {
    if j: nat :| j < |ops| && !Writable(s, ops[j]) && Existing(s, ops[j].key) != {ops[j].value} {
      WriteOrFail(s, ops, i, j);
    } else {
      assert DependentsHaveZones(s, ops);
      assert forall op | op in ops :: Existing(s, op.key) <= {op.value};
      var a, b :| a in ops && b in ops && a.key == b.key && a.value != b.value;
      var k: nat :| k < |ops| && ops[k] == a;
      var l: nat :| l < |ops| && ops[l] == b;
      assert Existing(s, a.key) == {} by {
        assert {a.value} != {b.value} by { assert a.value !in {b.value}; }
      }
      WriteEither(s, ops, k, l);
    }
  }

  lemma OrderDoesNotShow(s: Store, ops: seq<Op>, p: seq<Op>)
    requires Valid(s) && SameMembers(p, ops)
    requires (Agrees(s, ops) && DependentsHaveZones(s, ops)) || forall op | op in ops :: !Writable(s, op)
    ensures Apply(s, p).store == Apply(s, ops).store
  {
    if forall op | op in ops :: !Writable(s, op) {
      NothingWritable(s, ops);
      NothingWritable(s, p);
    } else {
      OrderDoesNotMatter(s, ops, p);
    }
  }

  // Exactly which plans leave the same store in every order, those that throw included:
  // those that go through in every order, and those none of whose records would be written.
  lemma StoreIndependenceIsExact(s: Store, ops: seq<Op>)
    requires Valid(s)
    ensures SameStoreInEveryOrder(s, ops) <==>
            (Agrees(s, ops) && DependentsHaveZones(s, ops)) || forall op | op in ops :: !Writable(s, op)
    ensures SameStoreInEveryOrder(s, ops) <==> SameStoreFromEveryFront(s, ops)
  {
    if (Agrees(s, ops) && DependentsHaveZones(s, ops)) || forall op | op in ops :: !Writable(s, op) {
      forall p | Permutation(p, ops) ensures Apply(s, p).store == Apply(s, ops).store {
        PermutationMembers(p, ops);
        OrderDoesNotShow(s, ops, p);
      }
    } else {
      var op :| op in ops && Writable(s, op);
      var i: nat :| i < |ops| && ops[i] == op;
      OrderShows(s, ops, i);
    }
    forall i: nat | i < |ops| ensures Permutation(Front(ops, i), ops) { FrontIsPermutation(ops, i); }
  }

  // Such a plan: one record conflicts with what is there, the other is new. In this order
  // nothing is written, in the other the new record is.
  lemma {:induction false} OrderShowsInAFailedPlan(s: Store, taken: Op, free: Op)
    requires Valid(s) && !taken.creates && Existing(s, taken.key) != {} && Existing(s, taken.key) != {taken.value}
    requires Writable(s, free) && !free.creates && free.key != taken.key
    ensures Apply(s, [taken, free]) == Applied(s, [], Some(Conflict))
    ensures Apply(s, [free, taken]) ==
            Applied(s.(records := s.records[free.key := {free.value}]), [Created], Some(Conflict))
  {
    var after := s.(records := s.records[free.key := {free.value}]);
    assert [free, taken][1..] == [taken];
    assert Apply(after, [taken]) == Applied(after, [], Some(Conflict));
  }

  // ---- Nothing is taken over -----------------------------------------------

  // On every run, a run that throws part-way included, zones only appear and no record
  // that was there is removed or altered; a run that throws has written exactly the records
  // before the one it throws at.
  lemma {:induction false} NothingIsReplaced(s: Store, ops: seq<Op>)
    requires Valid(s)
    ensures var r := Apply(s, ops);
            && Valid(r.store)
            && s.zones <= r.store.zones
            && (forall k | k in s.records && s.records[k] != {} ::
                  k in r.store.records && r.store.records[k] == s.records[k])
            && (r.error.None? ==> |r.statuses| == |ops|)
            && (r.error.Some? ==>
                  && |r.statuses| < |ops| && Succeeds(s, ops[..|r.statuses|])
                  && r.store.records == Apply(s, ops[..|r.statuses|]).store.records)
    decreases |ops|
  {
    if ops != [] {
      var (s1, status) := ApplyOne(s, ops[0]);
      if status.Ok? {
        NothingIsReplaced(s1, ops[1..]);
        var n := |Apply(s1, ops[1..]).statuses|;
        if Apply(s, ops).error.Some? {
          assert ops[..n + 1][0] == ops[0];
          assert ops[..n + 1][1..] == ops[1..][..n];
        }
      } else {
        assert ops[..0] == [];
      }
    }
  }

  // A record is reported created exactly if nothing had its key, before the run or from an
  // earlier record of it.
  lemma {:induction false} StatusesTell(s: Store, ops: seq<Op>, i: nat)
    requires i < |Apply(s, ops).statuses|
    ensures i < |ops|
    ensures Apply(s, ops).statuses[i] == Created
            <==> Existing(s, ops[i].key) == {} && forall j | 0 <= j < i :: ops[j].key != ops[i].key
    decreases |ops|
  {
    var (s1, status) := ApplyOne(s, ops[0]);
    if i > 0 {
      StatusesTell(s1, ops[1..], i - 1);
      assert ops[1..][i - 1] == ops[i];
      ExistingAfter(s, ops[0], ops[i].key);
      assert (forall j | 0 <= j < i :: ops[j].key != ops[i].key)
             <==> ops[0].key != ops[i].key && forall j | 0 <= j < i - 1 :: ops[1..][j].key != ops[i].key by {
        assert forall j | 0 <= j < i - 1 :: ops[1..][j] == ops[j + 1];
        assert forall j | 1 <= j < i :: ops[j] == ops[1..][j - 1];
      }
    }
  }

  // What a record of a run finds under its key: what was there before and what earlier
  // records of the run put there.
  ghost function Found(s: Store, ops: seq<Op>, n: nat): set<string>
    requires n < |ops|
  {
    Existing(s, ops[n].key) + Planned(ops[..n], ops[n].key)
  }

  lemma {:induction false} FoundLater(s: Store, ops: seq<Op>, n: nat)
    requires n + 1 < |ops| && ApplyOne(s, ops[0]).1.Ok?
    ensures Found(ApplyOne(s, ops[0]).0, ops[1..], n) == Found(s, ops, n + 1)
  {
    var key := ops[n + 1].key;
    assert ops[1..][n] == ops[n + 1];
    assert ops[..n + 1][1..] == ops[1..][..n] && ops[..n + 1][0] == ops[0];
    ExistingAfter(s, ops[0], key);
    PlannedFirst(ops[..n + 1], key);
  }

  lemma {:induction false} FoundFirst(s: Store, ops: seq<Op>)
    requires ops != []
    ensures Found(s, ops, 0) == Existing(s, ops[0].key)
  {
    assert Planned(ops[..0], ops[0].key) == {};
  }

  // A run throws a conflict exactly if the record it throws at finds a value under its key;
  // otherwise its zone is missing.
  lemma {:induction false} ThrowTells(s: Store, ops: seq<Op>)
    requires Valid(s) && Apply(s, ops).error.Some?
    ensures var n := |Apply(s, ops).statuses|;
            && n < |ops|
            && (Apply(s, ops).error == Some(Conflict) <==> Found(s, ops, n) != {})
            && Found(s, ops, n) != {ops[n].value}
            && (Found(s, ops, n) == {} ==> !ops[n].creates && ops[n].key.zone !in s.zones)
    decreases |ops|
  {
    var (s1, status) := ApplyOne(s, ops[0]);
    if status.Ok? {
      var n := |Apply(s1, ops[1..]).statuses|;
      ValidAfterOne(s, ops[0]);
      ThrowTells(s1, ops[1..]);
      FoundLater(s, ops, n);
      assert s.zones <= s1.zones;
    } else {
      FoundFirst(s, ops);
    }
  }

  ghost predicate InPlace(s: Store, ops: seq<Op>) {
    forall op | op in ops :: Existing(s, op.key) == {op.value} && op.key.zone in s.zones
  }

  lemma {:induction false} InPlaceIsRetained(s: Store, ops: seq<Op>)
    requires InPlace(s, ops)
    ensures Apply(s, ops).store == s && Apply(s, ops).error == None
    ensures |Apply(s, ops).statuses| == |ops|
    ensures forall i | 0 <= i < |ops| :: Apply(s, ops).statuses[i] == Retained
    decreases |ops|
  {
    if ops != [] {
      assert ops[0] in ops;
      assert ZonesWith(s, ops[0]) == s.zones;
      assert s.(zones := s.zones) == s;
      InPlaceIsRetained(s, ops[1..]);
    }
  }

  lemma SuccessIsInPlace(s: Store, ops: seq<Op>)
    requires Valid(s) && Succeeds(s, ops)
    ensures Valid(Apply(s, ops).store) && InPlace(Apply(s, ops).store, ops)
  {
    SuccessIsAgreement(s, ops);
    NothingIsReplaced(s, ops);
    var after := Apply(s, ops).store;
    forall op | op in ops ensures Existing(after, op.key) == {op.value} && op.key.zone in after.zones {
      assert op.key in after.records;
      assert op.value in after.records[op.key];
    }
  }

  // Applying again, in any order, after a success reports every record retained and
  // leaves the store alone.
  lemma ReapplyingIsIdempotent(s: Store, ops: seq<Op>, again: seq<Op>)
    requires Valid(s) && Succeeds(s, ops)
    requires forall op | op in again :: op in ops
    ensures var r := Apply(Apply(s, ops).store, again);
            && r.store == Apply(s, ops).store && r.error == None
            && |r.statuses| == |again|
            && forall i | 0 <= i < |again| :: r.statuses[i] == Retained
  {
    SuccessIsInPlace(s, ops);
    InPlaceIsRetained(Apply(s, ops).store, again);
  }
}
