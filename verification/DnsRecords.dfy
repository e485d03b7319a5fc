// `dns.apply_resources` and the record checks of `dns.verify` (src/commands/dns.rs) on
// planned records as they arrive: accepted by the Rust side, applied by the script.
module DnsRecords {
  import opened Wrappers
  import opened Text
  import opened Util
  import opened Numerals
  import opened Registry
  import opened Report
  import opened Grammar
  import opened ReverseZone
  import opened ZoneText
  import opened DnsStore

  datatype PlannedDnsRecord = PlannedDnsRecord(id: string, kind: Kind, zone: string, name: string, value: string)

  datatype RecordError = Missing | TooLarge | NotJson | BadCount | BadId | BadZone | BadA | BadPtr | BadCname

  const MAX_DNS_RESOURCES: nat := 32
  const MAX_RECORDS_TEXT: nat := 32 * 1024

  // ---- Acceptance ----------------------------------------------------------

  predicate ValidSingleLabel(value: string) {
    ValidDnsName(value) && '.' !in value
  }

  predicate ValidId(id: string) {
    id != [] && Utf8Len(id) <= 500 && forall c | c in id :: IsAlphanumeric(c) || c in ":_-"
  }

  predicate Fits(r: PlannedDnsRecord) {
    match r.kind
    case A => ValidSingleLabel(r.name) && ValidAddress(r.value)
    case Ptr => ValidReverseZone(r.zone) && ValidAddress(r.name) && ValidDnsName(r.value)
    case Cname => ValidSingleLabel(r.name) && ValidDnsName(r.value)
  }

  // The checks in the order of the code.
  function Verdict(id: bool, zone: bool, kind: Kind, fits: bool): Option<RecordError> {
    if !id then Some(BadId)
    else if !zone then Some(BadZone)
    else if fits then None
    else
      match kind
      case A => Some(BadA)
      case Ptr => Some(BadPtr)
      case Cname => Some(BadCname)
  }

  function CheckRecord(r: PlannedDnsRecord): (bad: Option<RecordError>)
    ensures bad.Some? ==> bad.value in {BadId, BadZone, BadA, BadPtr, BadCname}
  {
    Verdict(ValidId(r.id), ValidDnsName(r.zone), r.kind, Fits(r))
  }

  predicate Accepted(r: PlannedDnsRecord) {
    CheckRecord(r).None?
  }

  // ---- ... and what it amounts to ------------------------------------------

  ghost predicate GoodId(id: string) {
    1 <= |id| <= 500 && forall i | 0 <= i < |id| :: LabelCharacter(id[i]) || id[i] == ':' || id[i] == '_'
  }

  ghost predicate GoodA(r: PlannedDnsRecord) {
    LabelText(r.name) && AddressText(r.value)
  }

  ghost predicate GoodPtr(r: PlannedDnsRecord) {
    ReverseZoneText(r.zone) && AddressText(r.name) && DnsNameText(r.value)
  }

  ghost predicate GoodCname(r: PlannedDnsRecord) {
    LabelText(r.name) && DnsNameText(r.value)
  }

  ghost predicate GoodFit(r: PlannedDnsRecord) {
    match r.kind
    case A => GoodA(r)
    case Ptr => GoodPtr(r)
    case Cname => GoodCname(r)
  }

  ghost predicate GoodRecord(r: PlannedDnsRecord) {
    GoodId(r.id) && DnsNameText(r.zone) && GoodFit(r)
  }

  // Which error a record that is not good gets: the first of its faults in this order.
  ghost predicate Faulty(r: PlannedDnsRecord, error: RecordError) {
    match error
    case BadId => !GoodId(r.id)
    case BadZone => GoodId(r.id) && !DnsNameText(r.zone)
    case BadA => GoodId(r.id) && DnsNameText(r.zone) && r.kind == A && !GoodA(r)
    case BadPtr => GoodId(r.id) && DnsNameText(r.zone) && r.kind == Ptr && !GoodPtr(r)
    case BadCname => GoodId(r.id) && DnsNameText(r.zone) && r.kind == Cname && !GoodCname(r)
    case _ => false
  }

  lemma {:induction false} IdExactly(id: string)
    ensures ValidId(id) <==> GoodId(id)
  {
    if ValidId(id) {
      forall i | 0 <= i < |id| ensures LabelCharacter(id[i]) || id[i] == ':' || id[i] == '_' {
        assert id[i] in id;
      }
      AsciiLength(id);
    }
    if GoodId(id) {
      AsciiLength(id);
      assert ":_-"[0] == ':' && ":_-"[1] == '_' && ":_-"[2] == '-';
      forall c | c in id ensures IsAlphanumeric(c) || c in ":_-" {
        var i :| 0 <= i < |id| && id[i] == c;
      }
    }
  }

  lemma {:induction false} FitExactly(r: PlannedDnsRecord)
    requires DnsNameText(r.zone)
    ensures Fits(r) <==> GoodFit(r)
  {
    match r.kind
    case A =>
      SingleLabelExactly(r.name);
      AddressExactly(r.value);
    case Ptr =>
      DnsNameExactly(r.zone);
      ReverseZoneExactly(r.zone);
      AddressExactly(r.name);
      DnsNameExactly(r.value);
    case Cname =>
      SingleLabelExactly(r.name);
      DnsNameExactly(r.value);
  }

  lemma {:induction false} VerdictTells(r: PlannedDnsRecord)
    ensures var verdict := Verdict(GoodId(r.id), DnsNameText(r.zone), r.kind, GoodFit(r));
            && (verdict.None? <==> GoodRecord(r))
            && forall error :: verdict == Some(error) <==> Faulty(r, error)
  {
  }

  lemma VerdictAgrees(kind: Kind, id: bool, zone: bool, fits: bool, id': bool, zone': bool, fits': bool)
    requires id == id' && zone == zone' && (zone ==> fits == fits')
    ensures Verdict(id, zone, kind, fits) == Verdict(id', zone', kind, fits')
  {
  }

  // The code accepts exactly the good records, and names the first fault of any other.
  lemma {:induction false} CheckRecordExactly(r: PlannedDnsRecord)
    ensures Accepted(r) <==> GoodRecord(r)
    ensures forall error :: CheckRecord(r) == Some(error) <==> Faulty(r, error)
  {
    VerdictTells(r);
    IdExactly(r.id);
    DnsNameExactly(r.zone);
    if DnsNameText(r.zone) { FitExactly(r); }
    VerdictAgrees(r.kind, ValidId(r.id), ValidDnsName(r.zone), Fits(r), GoodId(r.id), DnsNameText(r.zone), GoodFit(r));
  }

  ghost predicate AllAccepted(records: seq<PlannedDnsRecord>) {
    forall r | r in records :: Accepted(r)
  }

  ghost predicate AllGood(records: seq<PlannedDnsRecord>) {
    forall i | 0 <= i < |records| :: GoodRecord(records[i])
  }

  lemma {:induction false} AcceptedAreGood(records: seq<PlannedDnsRecord>)
    ensures AllAccepted(records) <==> AllGood(records)
  {
    forall i | 0 <= i < |records| ensures Accepted(records[i]) <==> GoodRecord(records[i]) {
      CheckRecordExactly(records[i]);
    }
    if AllAccepted(records) {
      forall i | 0 <= i < |records| ensures GoodRecord(records[i]) { assert records[i] in records; }
    }
  }

  // The error is that of the first record that is not good.
  ghost predicate FirstFault(records: seq<PlannedDnsRecord>, error: RecordError) {
    exists i :: 0 <= i < |records| && Faulty(records[i], error) && forall j | 0 <= j < i :: GoodRecord(records[j])
  }

  lemma {:induction false} OneBadRecord(records: seq<PlannedDnsRecord>, i: nat)
    requires i < |records| && CheckRecord(records[i]).Some? && AllAccepted(records[..i])
    ensures !AllAccepted(records) && FirstFault(records, CheckRecord(records[i]).value)
  {
    assert records[i] in records && !Accepted(records[i]);
    AcceptedAreGood(records[..i]);
    CheckRecordExactly(records[i]);
    var front := records[..i];
    assert forall j | 0 <= j < i :: front[j] == records[j];
  }

  lemma {:induction false} GoodOneByOne(records: seq<PlannedDnsRecord>, n: nat)
    requires n <= |records|
    ensures AllAccepted(records[..n]) <==> forall k | 0 <= k < n :: Accepted(records[k])
  {
    var front := records[..n];
    forall k | 0 <= k < n ensures front[k] in front && front[k] == records[k] {}
  }

  lemma {:induction false} OneMoreGoodRecord(records: seq<PlannedDnsRecord>, i: nat)
    requires i < |records| && CheckRecord(records[i]).None? && AllAccepted(records[..i])
    ensures AllAccepted(records[..i + 1])
  {
    GoodOneByOne(records, i);
    GoodOneByOne(records, i + 1);
  }

  lemma {:induction false} FaultyIsNotGood(r: PlannedDnsRecord, error: RecordError)
    requires Faulty(r, error)
    ensures !GoodRecord(r) && forall other :: Faulty(r, other) <==> other == error
  {
    VerdictTells(r);
  }

  // A list has one first fault at most, and none if all its records are good.
  lemma {:induction false} FirstFaultIsOne(records: seq<PlannedDnsRecord>, one: RecordError, other: RecordError)
    requires FirstFault(records, one) && FirstFault(records, other)
    ensures one == other && !AllGood(records)
  {
    var i :| 0 <= i < |records| && Faulty(records[i], one) && forall k | 0 <= k < i :: GoodRecord(records[k]);
    var j :| 0 <= j < |records| && Faulty(records[j], other) && forall k | 0 <= k < j :: GoodRecord(records[k]);
    FaultyIsNotGood(records[i], one);
    FaultyIsNotGood(records[j], other);
  }

  // The checking loop: a list of records passes exactly when its size and every record do;
  // otherwise the first bad record decides.
  method CheckRecords(records: seq<PlannedDnsRecord>) returns (bad: Option<RecordError>)
    ensures bad.None? <==> 1 <= |records| <= MAX_DNS_RESOURCES && AllAccepted(records)
    ensures bad == Some(BadCount) <==> !(1 <= |records| <= MAX_DNS_RESOURCES)
    ensures bad.Some? && bad.value != BadCount ==> FirstFault(records, bad.value)
  {
    if records == [] || |records| > MAX_DNS_RESOURCES { return Some(BadCount); }
    for i := 0 to |records|
      invariant AllAccepted(records[..i])
    {
      bad := CheckRecord(records[i]);
      if bad.Some? {
        OneBadRecord(records, i);
        return;
      }
      OneMoreGoodRecord(records, i);
    }
    assert records[..|records|] == records;
    bad := None;
  }

  // The parameter's text with what decoding it as JSON gives. The text goes to the script
  // as it is.
  method ParsePlannedRecords(raw: Option<string>, decoded: Option<seq<PlannedDnsRecord>>)
      returns (plan: Result<(string, seq<PlannedDnsRecord>), RecordError>)
    ensures plan.Ok? <==>
              && raw.Some? && Utf8Len(raw.value) <= MAX_RECORDS_TEXT && decoded.Some?
              && 1 <= |decoded.value| <= MAX_DNS_RESOURCES && AllGood(decoded.value)
    ensures plan.Ok? ==> plan.value == (raw.value, decoded.value) && AllAccepted(decoded.value)
    ensures plan == Err(Missing) <==> raw.None?
    ensures plan == Err(TooLarge) <==> raw.Some? && Utf8Len(raw.value) > MAX_RECORDS_TEXT
    ensures plan == Err(NotJson) <==> raw.Some? && Utf8Len(raw.value) <= MAX_RECORDS_TEXT && decoded.None?
    ensures plan.Err? && plan.error !in {Missing, TooLarge, NotJson} ==>
              if 1 <= |decoded.value| <= MAX_DNS_RESOURCES then FirstFault(decoded.value, plan.error)
              else plan.error == BadCount
  {
    if raw.None? { return Err(Missing); }
    if Utf8Len(raw.value) > MAX_RECORDS_TEXT { return Err(TooLarge); }
    if decoded.None? { return Err(NotJson); }
    AcceptedAreGood(decoded.value);
    var bad := CheckRecords(decoded.value);
    if bad.Some? { return Err(bad.value); }
    plan := Ok((raw.value, decoded.value));
  }

  // ---- What a record asks for ----------------------------------------------

  // The update a record stands for, names and values in normal form. A PTR record brings
  // its zone when the network id computed from the zone's spelling makes that zone.
  function OpOf(r: PlannedDnsRecord): Op
    requires Accepted(r)
  {
    var zone := Fold(r.zone);
    match r.kind
    case A => Op(Key(zone, A, Fold(r.name)), r.value, false)
    case Cname => Op(Key(zone, Cname, Fold(r.name)), Fold(r.value), false)
    case Ptr =>
      Op(Key(zone, Ptr, RelativeName(r.zone, r.name)), Fold(r.value), ZoneOfNetwork(NetworkId(r.zone)) == Some(zone))
  }

  function OpsOf(records: seq<PlannedDnsRecord>): (ops: seq<Op>)
    requires forall r | r in records :: Accepted(r)
    ensures |ops| == |records|
    ensures forall i | 0 <= i < |records| :: ops[i] == OpOf(records[i])
  {
    if records == [] then [] else [OpOf(records[0])] + OpsOf(records[1..])
  }

  // ---- The script ----------------------------------------------------------

  method ReverseInPlace(a: array<string>)
    modifies a
    ensures a[..] == Reverse(old(a[..]))
  {
    var lo, hi := 0, a.Length;
    while lo + 1 < hi
      invariant lo + hi == a.Length && 0 <= lo <= hi + 1
      invariant forall k | 0 <= k < lo :: a[k] == old(a[a.Length - 1 - k]) && a[a.Length - 1 - k] == old(a[k])
      invariant forall k | lo <= k < hi :: a[k] == old(a[k])
    {
      a[lo], a[hi - 1] := a[hi - 1], a[lo];
      lo, hi := lo + 1, hi - 1;
    }
  }

  // The network id of a zone: labels reversed in place, then padded with zero octets.
  method ComputeNetworkId(zone: string) returns (id: string)
    ensures id == NetworkId(zone)
  {
    var parts := ZoneLabels(zone);
    var prefixLabels := new string[|parts|](i requires 0 <= i < |parts| => parts[i]);
    assert prefixLabels[..] == parts;
    ReverseInPlace(prefixLabels);
    var networkOctets := prefixLabels[..];
    while |networkOctets| < 4
      invariant Padded(networkOctets) == Padded(Reverse(parts))
    {
      networkOctets := networkOctets + ["0"];
    }
    id := Join(networkOctets, ".") + "/" + Decimal(prefixLabels.Length * 8);
  }

  class DnsServer {
    var zones: set<string>
    var records: map<Key, set<string>>

    function Contents(): Store
      reads this
    {
      Store(zones, records)
    }

    constructor (store: Store)
      ensures Contents() == store
    {
      zones, records := store.zones, store.records;
    }

    // Retains an identical value, refuses a different one, adds a missing one.
    method Put(key: Key, expected: string) returns (status: Result<Status, ApplyError>)
      modifies this`records
      ensures (Contents(), status) == ApplyOne(old(Contents()), Op(key, expected, false))
    {
      var existing := if key in records then records[key] else {};
      if existing != {} && existing != {expected} { return Err(Conflict); }
      if existing == {} {
        if key.zone !in zones { return Err(NoZone); }
        records := records[key := {expected}];
        status := Ok(Created);
      } else {
        status := Ok(Retained);
      }
    }

    // The zone of a PTR record, made from its network id if it is missing.
    method EnsureReverseZone(r: PlannedDnsRecord) returns (there: bool)
      requires Accepted(r) && r.kind.Ptr?
      modifies this`zones
      ensures there <==> Fold(r.zone) in old(zones) || OpOf(r).creates
      ensures zones == if there then old(zones) + {Fold(r.zone)} else old(zones)
    {
      var zone := Fold(r.zone);
      if zone in zones {
        assert zones + {zone} == zones;
        return true;
      }
      CreatesOrNot(r);
      var networkId := ComputeNetworkId(r.zone);
      var created := ZoneOfNetwork(networkId);
      if created.None? { return false; }
      zones := zones + {created.value};
      there := true;
    }

    method PutPtr(r: PlannedDnsRecord) returns (status: Result<Status, ApplyError>)
      requires Accepted(r) && r.kind.Ptr? && Valid(Contents())
      modifies this
      ensures (Contents(), status) == ApplyOne(old(Contents()), OpOf(r))
    {
      ghost var op := OpOf(r);
      PtrOp(r);
      ZoneFirst(Contents(), op);
      var there := EnsureReverseZone(r);
      if !there { return Err(NoZone); }
      var octets := Split(r.name, '.');
      var relativeName := Join(Reverse(Remaining(octets, |ZoneLabels(r.zone)|)), ".");
      status := Put(Key(Fold(r.zone), Ptr, relativeName), Fold(r.value));
    }

    method ApplyRecord(r: PlannedDnsRecord) returns (status: Result<Status, ApplyError>)
      requires Accepted(r) && Valid(Contents())
      modifies this
      ensures (Contents(), status) == ApplyOne(old(Contents()), OpOf(r))
      ensures Valid(Contents())
    {
      match r.kind {
        case Ptr => status := PutPtr(r);
        case A => status := Put(Key(Fold(r.zone), A, Fold(r.name)), r.value);
        case Cname => status := Put(Key(Fold(r.zone), Cname, Fold(r.name)), Fold(r.value));
      }
      ValidAfterOne(old(Contents()), OpOf(r));
    }

    // The whole script: records in order, stopping at the first throw.
    method ApplyResources(plan: seq<PlannedDnsRecord>) returns (statuses: seq<Status>, error: Option<ApplyError>)
      requires (forall r | r in plan :: Accepted(r)) && Valid(Contents())
      modifies this
      ensures Applied(Contents(), statuses, error) == Apply(old(Contents()), OpsOf(plan))
      ensures Valid(Contents())
    {
      ghost var ops := OpsOf(plan);
      ghost var before := Contents();
      statuses, error := [], None;
      assert ops[0..] == ops;
      AfterTwice([], [], Apply(before, ops));
      for i := 0 to |plan|
        invariant Valid(Contents()) && |statuses| == i
        invariant Apply(before, ops) == After(statuses, Apply(Contents(), ops[i..]))
      {
        assert ops[i..][0] == OpOf(plan[i]) && ops[i..][1..] == ops[i + 1..];
        assert plan[i] in plan;
        ApplyFirst(Contents(), ops[i..]);
        var status := ApplyRecord(plan[i]);
        AfterTwice(statuses, [], Applied(Contents(), [], None));
        if status.Err? { return statuses, Some(status.error); }
        AfterTwice(statuses, [status.value], Apply(Contents(), ops[i + 1..]));
        statuses := statuses + [status.value];
      }
      assert ops[|plan|..] == [];
    }
  }

  function Refusal(error: RecordError): CommandError {
    match error
    case Missing => MissingParam("records")
    case TooLarge => InvalidParam("records", "JSON payload is too large")
    case NotJson => InvalidParam("records", "must be a JSON array of DNS resources")
    case BadCount => InvalidParam("records", "must contain between 1 and 32 resources")
    case BadId => InvalidParam("records", "contains an invalid resource id")
    case BadZone => InvalidParam("records", "contains an invalid DNS zone")
    case BadA => InvalidParam("records", "contains an invalid A record")
    case BadPtr => InvalidParam("records", "contains an invalid PTR record")
    case BadCname => InvalidParam("records", "contains an invalid CNAME record")
  }

  // The text that goes with each fault.
  ghost predicate RecordRefusals<T>(records: seq<PlannedDnsRecord>, r: Result<T, CommandError>) {
    && (FirstFault(records, BadId) ==> r == Err(InvalidParam("records", "contains an invalid resource id")))
    && (FirstFault(records, BadZone) ==> r == Err(InvalidParam("records", "contains an invalid DNS zone")))
    && (FirstFault(records, BadA) ==> r == Err(InvalidParam("records", "contains an invalid A record")))
    && (FirstFault(records, BadPtr) ==> r == Err(InvalidParam("records", "contains an invalid PTR record")))
    && (FirstFault(records, BadCname) ==> r == Err(InvalidParam("records", "contains an invalid CNAME record")))
  }

  lemma {:induction false} RefusalFits(records: seq<PlannedDnsRecord>, error: RecordError)
    requires FirstFault(records, error)
    ensures var r: Result<seq<Status>, CommandError> := Err(Refusal(error)); RecordRefusals(records, r)
  {
    forall other | FirstFault(records, other) ensures other == error { FirstFaultIsOne(records, error, other); }
  }

  lemma {:induction false} GoodHasNoFault(records: seq<PlannedDnsRecord>)
    requires AllGood(records)
    ensures forall error :: !FirstFault(records, error)
  {
    forall error ensures !FirstFault(records, error) {
      if FirstFault(records, error) { FirstFaultIsOne(records, error, error); }
    }
  }

  // How a run of the handler goes outside the script: whether the shell starts, how much it
  // takes as one argument, and what it says on failure.
  datatype Shelled = Shelled(starts: bool, argumentLimit: nat, message: string)

  // `dns.apply_resources`: a plan that is accepted reaches the server only if its text fits
  // into one argument of the shell, which the check on its size does not see to; then the
  // handler reports success exactly if the script throws nowhere.
  method ApplyCommand(server: DnsServer, raw: Option<string>, decoded: Option<seq<PlannedDnsRecord>>, shell: Shelled)
      returns (r: Result<seq<Status>, CommandError>, reports: seq<OpRunState>)
    requires Valid(server.Contents())
    modifies server
    ensures Valid(server.Contents())
    ensures r.Ok? || r.error.Shell? <==>
              && raw.Some? && Utf8Len(raw.value) <= MAX_RECORDS_TEXT && decoded.Some?
              && 1 <= |decoded.value| <= MAX_DNS_RESOURCES && AllGood(decoded.value)
    ensures (r.Ok? || r.error.Shell?) ==> AllAccepted(decoded.value)
    ensures raw.None? ==> r == Err(MissingParam("records"))
    ensures raw.Some? && Utf8Len(raw.value) > MAX_RECORDS_TEXT ==>
              r == Err(InvalidParam("records", "JSON payload is too large"))
    ensures raw.Some? && Utf8Len(raw.value) <= MAX_RECORDS_TEXT && decoded.None? ==>
              r == Err(InvalidParam("records", "must be a JSON array of DNS resources"))
    ensures raw.Some? && Utf8Len(raw.value) <= MAX_RECORDS_TEXT && decoded.Some? ==>
              if 1 <= |decoded.value| <= MAX_DNS_RESOURCES then RecordRefusals(decoded.value, r)
              else r == Err(InvalidParam("records", "must contain between 1 and 32 resources"))
    ensures r.Ok? || r.error.Shell? ==>
              (r.Ok? <==>
                 && shell.starts && Utf8Len(raw.value) <= shell.argumentLimit
                 && Succeeds(old(server.Contents()), OpsOf(decoded.value)))
    ensures r.Ok? || r.error.Shell? ==>
              server.Contents() ==
              if shell.starts && Utf8Len(raw.value) <= shell.argumentLimit
              then Apply(old(server.Contents()), OpsOf(decoded.value)).store else old(server.Contents())
    ensures r.Ok? ==> r.value == Apply(old(server.Contents()), OpsOf(decoded.value)).statuses
    ensures r.Err? && !r.error.Shell? ==> server.Contents() == old(server.Contents())
    ensures r.Err? && r.error.Shell? ==> r.error.message == shell.message
    ensures ReportsDoneIffOk(reports, r.Ok?)
  {
    var plan := ParsePlannedRecords(raw, decoded);
    if plan.Err? {
      if plan.error !in {Missing, TooLarge, NotJson, BadCount} { RefusalFits(decoded.value, plan.error); }
      return Err(Refusal(plan.error)), [];
    }
    GoodHasNoFault(decoded.value);
    r, reports := ApplyAccepted(server, raw.value, decoded.value, shell);
  }

  // What follows the checks.
  method ApplyAccepted(server: DnsServer, text: string, plan: seq<PlannedDnsRecord>, shell: Shelled)
      returns (r: Result<seq<Status>, CommandError>, reports: seq<OpRunState>)
    requires Valid(server.Contents()) && forall p | p in plan :: Accepted(p)
    modifies server
    ensures Valid(server.Contents())
    ensures r.Ok? <==>
              && shell.starts && Utf8Len(text) <= shell.argumentLimit
              && Succeeds(old(server.Contents()), OpsOf(plan))
    ensures server.Contents() ==
            if shell.starts && Utf8Len(text) <= shell.argumentLimit
            then Apply(old(server.Contents()), OpsOf(plan)).store else old(server.Contents())
    ensures r.Ok? ==> r.value == Apply(old(server.Contents()), OpsOf(plan)).statuses
    ensures r.Err? ==> r.error == Shell(shell.message)
    ensures ReportsDoneIffOk(reports, r.Ok?)
  {
    reports := [InProgress("applying DNS resources", 30.0)];
    if !shell.starts || Utf8Len(text) > shell.argumentLimit { return Err(Shell(shell.message)), reports; }
    var statuses, error := server.ApplyResources(plan);
    if error.Some? { return Err(Shell(shell.message)), reports; }
    reports := reports + [Completed(Decimal(|plan|))];
    r := Ok(statuses);
  }

  lemma {:induction false} PtrOp(r: PlannedDnsRecord)
    requires Accepted(r) && r.kind.Ptr?
    ensures var name := Join(Reverse(Remaining(Split(r.name, '.'), |ZoneLabels(r.zone)|)), ".");
            OpOf(r).(creates := false) == Op(Key(Fold(r.zone), Ptr, name), Fold(r.value), false)
  {
  }

  lemma {:induction false} CreatesOrNot(r: PlannedDnsRecord)
    requires Accepted(r) && r.kind.Ptr?
    ensures ZoneOfNetwork(NetworkId(r.zone)) == if OpOf(r).creates then Some(Fold(r.zone)) else None
  {
    CreatesTheZoneAskedFor(r.zone);
  }

  // Making the zone and then putting the record is applying the record.
  lemma ZoneFirst(s: Store, op: Op)
    requires Valid(s)
    ensures op.key.zone in s.zones || op.creates ==>
              ApplyOne(s, op) == ApplyOne(s.(zones := s.zones + {op.key.zone}), op.(creates := false))
    ensures !(op.key.zone in s.zones || op.creates) ==> ApplyOne(s, op) == (s, Err(NoZone))
  {
    assert op.key.zone in s.zones ==> s.zones + {op.key.zone} == s.zones;
  }

  lemma ApplyFirst(s: Store, ops: seq<Op>)
    requires ops != []
    ensures var (s1, status) := ApplyOne(s, ops[0]);
            Apply(s, ops) == if status.Err? then Applied(s1, [], Some(status.error))
                             else After([status.value], Apply(s1, ops[1..]))
  {
  }

  lemma AfterTwice(a: seq<Status>, b: seq<Status>, rest: Applied)
    ensures After(a, After(b, rest)) == After(a + b, rest)
    ensures After([], rest) == rest
    ensures a + [] == a
  {
    assert a + (b + rest.statuses) == a + b + rest.statuses;
    assert [] + rest.statuses == rest.statuses;
  }

  function After(statuses: seq<Status>, rest: Applied): Applied {
    rest.(statuses := statuses + rest.statuses)
  }

  // ---- Order, on plans -----------------------------------------------------

  lemma SameOps(p: seq<PlannedDnsRecord>, q: seq<PlannedDnsRecord>)
    requires forall r | r in p || r in q :: Accepted(r)
    requires forall r | r in p :: r in q
    ensures forall op | op in OpsOf(p) :: op in OpsOf(q)
  {
    var ops := OpsOf(q);
    forall op | op in OpsOf(p) ensures op in ops {
      var i :| 0 <= i < |p| && OpsOf(p)[i] == op;
      assert p[i] in q;
      var j :| 0 <= j < |q| && q[j] == p[i];
      assert ops[j] == op;
    }
  }

  // The zone of a record exists, or the record is a PTR that creates it: spelled without
  // trailing dot and leading zeros.
  ghost predicate ZoneAtHand(s: Store, r: PlannedDnsRecord) {
    || Fold(r.zone) in s.zones
    || (r.kind.Ptr? && Undotted(r.zone) && forall part | part in ZoneLabels(r.zone) :: Canonical(part))
  }

  lemma ZoneAtHandOf(s: Store, r: PlannedDnsRecord)
    requires Accepted(r)
    ensures ZoneAtHand(s, r) <==> OpOf(r).creates || OpOf(r).key.zone in s.zones
  {
    if r.kind.Ptr? { CreatesTheZoneAskedFor(r.zone); }
  }

  lemma ZonesAtHand(s: Store, plan: seq<PlannedDnsRecord>)
    requires forall r | r in plan :: Accepted(r)
    ensures DependentsHaveZones(s, OpsOf(plan)) <==> forall r | r in plan :: ZoneAtHand(s, r)
  {
    var ops := OpsOf(plan);
    forall i | 0 <= i < |plan|
      ensures ZoneAtHand(s, plan[i]) <==> ops[i].creates || ops[i].key.zone in s.zones
    {
      ZoneAtHandOf(s, plan[i]);
    }
    forall r | r in plan && !ZoneAtHand(s, r) ensures !DependentsHaveZones(s, ops) {
      var i :| 0 <= i < |plan| && plan[i] == r;
      assert ops[i] in ops;
    }
  }

  // For plans whose zones are at hand: every order of the records has the same success,
  // and on success leaves the same store, the initial one joined with the plan.
  lemma {:induction false} PlanOrderDoesNotMatter(s: Store, plan: seq<PlannedDnsRecord>, p: seq<PlannedDnsRecord>)
    requires Valid(s) && forall r | r in plan :: Accepted(r) && ZoneAtHand(s, r)
    requires multiset(p) == multiset(plan)
    ensures forall r | r in p :: Accepted(r)
    ensures Succeeds(s, OpsOf(p)) <==> Succeeds(s, OpsOf(plan))
    ensures Succeeds(s, OpsOf(plan)) <==> Agrees(s, OpsOf(plan))
    ensures Succeeds(s, OpsOf(plan)) ==> Apply(s, OpsOf(p)).store == Joined(s, OpsOf(plan))
  {
    SameRecordsSameOps(plan, p);
    ZonesAtHand(s, plan);
    OrderDoesNotMatter(s, OpsOf(plan), OpsOf(p));
  }

  lemma SameRecordsSameOps(plan: seq<PlannedDnsRecord>, p: seq<PlannedDnsRecord>)
    requires AllAccepted(plan) && multiset(p) == multiset(plan)
    ensures AllAccepted(p) && SameMembers(OpsOf(p), OpsOf(plan))
  {
    assert forall r :: r in p <==> r in multiset(p);
    assert forall r :: r in plan <==> r in multiset(plan);
    SameOps(p, plan);
    SameOps(plan, p);
  }

  // Whether the records, in whatever order they come, leave the same store, a plan that
  // throws part-way included.
  ghost predicate SameStoreInEveryPlanOrder(s: Store, plan: seq<PlannedDnsRecord>)
    requires AllAccepted(plan)
  {
    forall p | multiset(p) == multiset(plan) && AllAccepted(p) ::
      Apply(s, OpsOf(p)).store == Apply(s, OpsOf(plan)).store
  }

  lemma {:induction false} FrontOfOps(plan: seq<PlannedDnsRecord>, i: nat)
    requires AllAccepted(plan) && i < |plan|
    ensures AllAccepted(Front(plan, i)) && OpsOf(Front(plan, i)) == Front(OpsOf(plan), i)
  {
    var p := Front(plan, i);
    FrontIsPermutation(plan, i);
    SameRecordsSameOps(plan, p);
    var a, b := OpsOf(p), Front(OpsOf(plan), i);
    forall k | 0 <= k < |p| ensures a[k] == b[k] {
      assert p[k] == plan[Origin(i, k)];
    }
  }

  // Exactly the plans whose values agree and whose zones are at hand, and those none of
  // whose records would be written.
  lemma {:induction false} PlanStoreIndependenceIsExact(s: Store, plan: seq<PlannedDnsRecord>)
    requires Valid(s) && AllAccepted(plan)
    ensures SameStoreInEveryPlanOrder(s, plan) <==>
            || (Agrees(s, OpsOf(plan)) && forall r | r in plan :: ZoneAtHand(s, r))
            || forall op | op in OpsOf(plan) :: !Writable(s, op)
  {
    var ops := OpsOf(plan);
    ZonesAtHand(s, plan);
    StoreIndependenceIsExact(s, ops);
    if SameStoreFromEveryFront(s, ops) {
      forall p | multiset(p) == multiset(plan) && AllAccepted(p)
        ensures Apply(s, OpsOf(p)).store == Apply(s, ops).store
      {
        SameRecordsSameOps(plan, p);
        OrderDoesNotShow(s, ops, OpsOf(p));
      }
    } else {
      var i: nat :| i < |ops| && Apply(s, Front(ops, i)).store != Apply(s, ops).store;
      FrontOfOps(plan, i);
      FrontIsPermutation(plan, i);
      assert !SameStoreInEveryPlanOrder(s, plan);
    }
  }

  function Alias(name: string, value: string): PlannedDnsRecord {
    PlannedDnsRecord("1", Cname, "z", name, value)
  }

  const TAKEN: PlannedDnsRecord := Alias("a", "y")
  const FREE: PlannedDnsRecord := Alias("b", "y")
  const BEFORE: Store := Store({"z"}, map[Key("z", Cname, "a") := {"x"}])

  // Two accepted CNAME records of one zone show it: the one conflicts with what is there,
  // the other is new.
  lemma {:induction false} OrderShowsInAFailedPlan()
    ensures AllAccepted([TAKEN, FREE]) && Valid(BEFORE) && ZoneAtHand(BEFORE, TAKEN) && ZoneAtHand(BEFORE, FREE)
    ensures Apply(BEFORE, OpsOf([TAKEN, FREE])) == Applied(BEFORE, [], Some(Conflict))
    ensures Apply(BEFORE, OpsOf([FREE, TAKEN])) ==
            Applied(BEFORE.(records := BEFORE.records[Key("z", Cname, "b") := {"y"}]), [Created], Some(Conflict))
  {
    AliasIsAccepted('a', 'y');
    AliasIsAccepted('b', 'y');
    assert [TAKEN, FREE][1..] == [FREE] && [FREE, TAKEN][1..] == [TAKEN];
    var one, other := OpOf(TAKEN), OpOf(FREE);
    assert OpsOf([TAKEN, FREE]) == [one, other] && OpsOf([FREE, TAKEN]) == [other, one];
    assert "a" != "b" by { assert "a"[0] != "b"[0]; }
    assert {"x"} != {"y"} by { assert "x"[0] != "y"[0]; assert "x" !in {"y"}; }
    DnsStore.OrderShowsInAFailedPlan(BEFORE, one, other);
  }

  lemma {:induction false} LetterIsAName(c: char)
    requires 'a' <= c <= 'z'
    ensures ValidDnsName([c]) && '.' !in [c] && Fold([c]) == [c]
  {
    SplitSolid([c], '.');
    assert ValidLabel([c]) by { WidthBound([c]); }
    WidthBound([c]);
  }

  lemma {:induction false} AliasIsAccepted(name: char, value: char)
    requires 'a' <= name <= 'z' && 'a' <= value <= 'z'
    ensures Accepted(Alias([name], [value]))
    ensures OpOf(Alias([name], [value])) == Op(Key("z", Cname, [name]), [value], false)
  {
    LetterIsAName('z');
    LetterIsAName(name);
    LetterIsAName(value);
    assert "z" == ['z'];
    assert ValidId("1") by { WidthBound("1"); }
  }

  // ---- dns.verify ----------------------------------------------------------

  // A lookup by full name finds a value when some record of that kind has that name.
  ghost predicate Answers(s: Store, kind: Kind, fullName: string, value: string) {
    exists k :: k in s.records && k.kind == kind && k.name + "." + k.zone == fullName && value in s.records[k]
  }

  // The check of one planned record: A and CNAME by name and zone, PTR by address.
  ghost predicate VerifyOk(s: Store, r: PlannedDnsRecord) {
    match r.kind
    case A => Answers(s, A, Fold(r.name + "." + r.zone), r.value)
    case Cname => Answers(s, Cname, Fold(r.name + "." + r.zone), Fold(r.value))
    case Ptr => Answers(s, Ptr, ReverseName(r.name), Fold(r.value))
  }

  // What looking up a full name gives.
  function Resolved(s: Store, kind: Kind, fullName: string): set<string> {
    set k, v | k in s.records && k.kind == kind && k.name + "." + k.zone == fullName && v in s.records[k] :: v
  }

  // The record checks of the script: one look-up per planned record, and a throw unless all
  // of them find the planned value.
  method VerifyRecords(server: DnsServer, plan: seq<PlannedDnsRecord>) returns (checks: seq<bool>, exited: bool)
    requires forall r | r in plan :: Accepted(r)
    ensures |checks| == |plan|
    ensures forall i | 0 <= i < |plan| :: checks[i] <==> VerifyOk(server.Contents(), plan[i])
    ensures exited <==> forall r | r in plan :: VerifyOk(server.Contents(), r)
  {
    checks, exited := [], true;
    for i := 0 to |plan|
      invariant |checks| == i
      invariant forall j | 0 <= j < i :: checks[j] <==> VerifyOk(server.Contents(), plan[j])
      invariant exited <==> forall j | 0 <= j < i :: checks[j]
    {
      var r := plan[i];
      var actual, expected;
      match r.kind {
        case Ptr =>
          actual := Resolved(server.Contents(), Ptr, ReverseName(r.name));
          expected := Fold(r.value);
        case A =>
          actual := Resolved(server.Contents(), A, Fold(r.name + "." + r.zone));
          expected := r.value;
        case Cname =>
          actual := Resolved(server.Contents(), Cname, Fold(r.name + "." + r.zone));
          expected := Fold(r.value);
      }
      checks := checks + [expected in actual];
      exited := exited && expected in actual;
    }
    assert forall r | r in plan :: exists i :: 0 <= i < |plan| && plan[i] == r;
  }

  // What a check holds of: for A and CNAME, some record of the kind whose full name is the
  // planned one and which has the planned value.
  lemma {:induction false} CheckReadsTheStore(s: Store, r: PlannedDnsRecord)
    requires Accepted(r) && !r.kind.Ptr?
    ensures VerifyOk(s, r) <==>
            exists k :: k in s.records && k.kind == r.kind && OpOf(r).value in s.records[k]
                        && k.name + "." + k.zone == Fold(r.name) + "." + Fold(r.zone)
  {
    FoldJoins(r.name, r.zone);
  }

  lemma {:induction false} TrimDotsConcat(a: string, b: string)
    ensures TrimDots(b) != [] ==> TrimDots(a + b) == a + TrimDots(b)
  {
    if b != [] && b[|b| - 1] == '.' {
      assert (a + b)[..|a + b| - 1] == a + b[..|b| - 1];
      TrimDotsConcat(a, b[..|b| - 1]);
    }
  }

  lemma TrimDotsSolid(name: string)
    requires '.' !in name
    ensures TrimDots(name) == name
  {
    if name != [] { assert name[|name| - 1] in name; }
  }

  lemma FoldJoins(name: string, zone: string)
    requires ValidSingleLabel(name) && ValidDnsName(zone)
    ensures Fold(name + "." + zone) == Fold(name) + "." + Fold(zone)
  {
    TrimDotsOnce(zone);
    TrimDotsConcat(name + ".", zone);
    TrimDotsSolid(name);
    ToLowerConcat(name + ".", TrimDots(zone));
    ToLowerConcat(name, ".");
    assert ToLower(".") == ".";
  }

  lemma InPlaceAnswers(s: Store, op: Op)
    requires Existing(s, op.key) == {op.value}
    ensures Answers(s, op.key.kind, op.key.name + "." + op.key.zone, op.value)
  {
    assert op.key in s.records && op.value in s.records[op.key];
  }

  // The script names a PTR record after its address.
  predicate PtrNamedRight(r: PlannedDnsRecord) {
    Under(WithoutFinalDot(r.zone), r.name) && (Undotted(r.zone) || |ZoneLabels(r.zone)| == 4)
  }

  // ---- When records meet ---------------------------------------------------

  lemma {:induction false} FoldExactly(a: string, b: string)
    requires ValidDnsName(a) && ValidDnsName(b)
    ensures Fold(a) == Fold(b) <==> SameIgnoringCase(WithoutFinalDot(a), WithoutFinalDot(b))
  {
    TrimDotsOnce(a);
    TrimDotsOnce(b);
    LoweredExactly(WithoutFinalDot(a), WithoutFinalDot(b));
  }

  lemma {:induction false} LabelFoldExactly(a: string, b: string)
    requires ValidSingleLabel(a) && ValidSingleLabel(b)
    ensures Fold(a) == Fold(b) <==> SameIgnoringCase(a, b)
  {
    TrimDotsSolid(a);
    TrimDotsSolid(b);
    LoweredExactly(a, b);
  }

  lemma {:induction false} ReverseNameExactly(a: string, b: string)
    requires ValidAddress(a) && ValidAddress(b)
    ensures ReverseName(a) == ReverseName(b) <==> a == b
  {
    var x, y := Split(a, '.'), Split(b, '.');
    SplitPieces(a, '.');
    SplitPieces(b, '.');
    forall part | part in Reverse(x) ensures '.' !in part { assert part in x; }
    forall part | part in Reverse(y) ensures '.' !in part { assert part in y; }
    SameSuffix(Join(Reverse(x), "."), Join(Reverse(y), "."), ARPA);
    JoinInjective(Reverse(x), Reverse(y));
    ReverseTwice(x);
    ReverseTwice(y);
    JoinSplit(a, '.');
    JoinSplit(b, '.');
  }

  lemma {:induction false} PtrKeyExactly(a: PlannedDnsRecord, b: PlannedDnsRecord)
    requires Accepted(a) && Accepted(b) && a.kind == b.kind == Ptr && PtrNamedRight(a) && PtrNamedRight(b)
    requires Fold(a.zone) == Fold(b.zone)
    ensures RelativeName(a.zone, a.name) == RelativeName(b.zone, b.name) <==> a.name == b.name
  {
    PtrNameExactly(a.zone, a.name);
    PtrNameExactly(b.zone, b.name);
    ReverseNameExactly(a.name, b.name);
    var x, y := RelativeName(a.zone, a.name), RelativeName(b.zone, b.name);
    Regroup(x, ".", Fold(a.zone));
    Regroup(y, ".", Fold(a.zone));
    SameSuffix(x, y, "." + Fold(a.zone));
  }

  lemma Regroup(a: string, b: string, c: string)
    ensures a + b + c == a + (b + c)
  {
  }

  // Two accepted records are updates of one entry exactly if they agree in kind, in zone but
  // for case and a final dot, and in name: but for case, or, of PTR records that get the
  // name of their address, in the address.
  lemma {:induction false} SameEntryExactly(a: PlannedDnsRecord, b: PlannedDnsRecord)
    requires Accepted(a) && Accepted(b)
    requires a.kind.Ptr? ==> PtrNamedRight(a)
    requires b.kind.Ptr? ==> PtrNamedRight(b)
    ensures OpOf(a).key == OpOf(b).key <==>
            && a.kind == b.kind
            && SameIgnoringCase(WithoutFinalDot(a.zone), WithoutFinalDot(b.zone))
            && if a.kind.Ptr? then a.name == b.name else SameIgnoringCase(a.name, b.name)
  {
    FoldExactly(a.zone, b.zone);
    if a.kind == b.kind && Fold(a.zone) == Fold(b.zone) {
      if a.kind.Ptr? {
        PtrKeyExactly(a, b);
      } else {
        LabelFoldExactly(a.name, b.name);
      }
    }
  }

  // ... and ask for the same value exactly if the values are one address, or one name but
  // for case and a final dot.
  lemma {:induction false} SameValueExactly(a: PlannedDnsRecord, b: PlannedDnsRecord)
    requires Accepted(a) && Accepted(b) && a.kind == b.kind
    ensures OpOf(a).value == OpOf(b).value <==>
            if a.kind.A? then a.value == b.value
            else SameIgnoringCase(WithoutFinalDot(a.value), WithoutFinalDot(b.value))
  {
    if !a.kind.A? { FoldExactly(a.value, b.value); }
  }

  // After a successful apply every record check of dns.verify holds, for A and CNAME
  // records always and for PTR records whose address lies under their zone, although the
  // two commands build PTR names in different ways.
  lemma VerifyHoldsAfterApply(s: Store, plan: seq<PlannedDnsRecord>, r: PlannedDnsRecord)
    requires Valid(s) && (forall p | p in plan :: Accepted(p)) && Succeeds(s, OpsOf(plan)) && r in plan
    requires r.kind.Ptr? ==> PtrNamedRight(r)
    ensures VerifyOk(Apply(s, OpsOf(plan)).store, r)
  {
    var ops := OpsOf(plan);
    var after := Apply(s, ops).store;
    SuccessIsInPlace(s, ops);
    var i :| 0 <= i < |plan| && plan[i] == r;
    assert ops[i] in ops;
    InPlaceAnswers(after, ops[i]);
    if r.kind.Ptr? {
      PtrNameExactly(r.zone, r.name);
    } else {
      FoldJoins(r.name, r.zone);
    }
  }

  lemma FirstRecordOfAServer(op: Op)
    ensures var applied := Apply(Store({}, map[]), [op]);
            && (applied.error.None? <==> op.creates)
            && (op.creates ==> applied.store == Store({op.key.zone}, map[op.key := {op.value}]))
  {
    var empty := Store({}, map[]);
    var (s1, _) := ApplyOne(empty, op);
    assert [op][1..] == [];
    assert Apply(s1, []).store == s1;
  }

  lemma OneRecordAnswers(key: Key, value: string, fullName: string)
    ensures Answers(Store({key.zone}, map[key := {value}]), key.kind, fullName, value)
            <==> key.name + "." + key.zone == fullName
  {
    var s := Store({key.zone}, map[key := {value}]);
    assert key in s.records && value in s.records[key];
  }

  // Some other record than the planned one answers its lookup.
  ghost predicate AnotherAnswers(s: Store, r: PlannedDnsRecord)
    requires Accepted(r) && r.kind.Ptr?
  {
    exists k :: k in s.records && k != OpOf(r).key && k.kind == Ptr
                && k.name + "." + k.zone == ReverseName(r.name) && Fold(r.value) in s.records[k]
  }

  // The condition is exact: after any successful apply on any store, the check of a PTR
  // record holds if and only if the record is named after its address or some other record
  // answers in its place.
  lemma {:induction false} PtrCheckIsExact(s: Store, plan: seq<PlannedDnsRecord>, r: PlannedDnsRecord)
    requires Valid(s) && AllAccepted(plan) && Succeeds(s, OpsOf(plan)) && r in plan && r.kind.Ptr?
    ensures var after := Apply(s, OpsOf(plan)).store;
            VerifyOk(after, r) <==> PtrNamedRight(r) || AnotherAnswers(after, r)
  {
    var after := Apply(s, OpsOf(plan)).store;
    PtrNameExactly(r.zone, r.name);
    if PtrNamedRight(r) {
      VerifyHoldsAfterApply(s, plan, r);
    } else if VerifyOk(after, r) {
      var k :| k in after.records && k.kind == Ptr && k.name + "." + k.zone == ReverseName(r.name)
               && Fold(r.value) in after.records[k];
      assert k != OpOf(r).key;
    }
  }

  // On an empty server no other record can answer: applying one accepted PTR record
  // succeeds and passes its check if and only if the address lies under the zone and the
  // zone is spelled without a trailing dot.
  lemma {:induction false} PtrCheckOnAnEmptyServer(r: PlannedDnsRecord)
    requires Accepted(r) && r.kind.Ptr?
    ensures var applied := Apply(Store({}, map[]), [OpOf(r)]);
            applied.error.None? && VerifyOk(applied.store, r) <==> Undotted(r.zone) && Under(r.zone, r.name)
  {
    var op := OpOf(r);
    FirstRecordOfAServer(op);
    OneRecordAnswers(op.key, op.value, ReverseName(r.name));
    CreatesTheZoneAskedFor(r.zone);
    PtrNameExactly(r.zone, r.name);
    if Under(r.zone, r.name) { UnderIsCanonical(r.zone, r.name); }
  }
}
