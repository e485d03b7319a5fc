// The command registry (src/registry.rs) and the layering of overrides on it (src/commands/mod.rs).
module Registry {
  import opened Wrappers
  import opened Authz

  // A handler is known to the registry by its name and capability; `implementation`
  // tells two handlers of one name apart.
  datatype Handler = Handler(name: string, capability: Capability, implementation: nat)

  datatype CommandError =
    | MissingParam(name: string)
    | InvalidParam(param: string, reason: string)
    | Shell(message: string)

  datatype DispatchError =
    | UnknownCommand(command: string)
    | Forbidden(name: string, role: Role, required: Capability)
    | Command(error: CommandError)

  type Catalog = seq<(string, Capability)>

  // ---- Specification -------------------------------------------------------

  // The handler map after a sequence of registrations.
  function Registered(registrations: seq<Handler>): map<string, Handler> {
    if registrations == [] then map[]
    else
      var last := registrations[|registrations| - 1];
      Registered(registrations[..|registrations| - 1])[last.name := last]
  }

  // Which handler a command reaches, or why it reaches none.
  function Lookup(handlers: map<string, Handler>, name: string, role: Role): Result<Handler, DispatchError> {
    if name !in handlers then Err(UnknownCommand(name))
    else
      var handler := handlers[name];
      if Has(role, handler.capability) then Ok(handler)
      else Err(Forbidden(name, role, handler.capability))
  }

  // Strict lexicographic order of names.
  predicate Less(a: string, b: string) {
    b != [] && (a == [] || a[0] < b[0] || (a[0] == b[0] && Less(a[1..], b[1..])))
  }

  ghost predicate DiffersFirstAt(a: string, b: string, k: nat) {
    k < |a| && k < |b| && a[..k] == b[..k] && a[k] < b[k]
  }

  lemma DiffersLater(a: string, b: string, k: nat)
    requires a != [] && b != [] && a[0] == b[0]
    ensures DiffersFirstAt(a[1..], b[1..], k) <==> DiffersFirstAt(a, b, k + 1)
  {
    if k < |a| - 1 && k < |b| - 1 {
      assert a[..k + 1] == [a[0]] + a[1..][..k] && b[..k + 1] == [b[0]] + b[1..][..k];
      assert a[1..][..k] == a[..k + 1][1..] && b[1..][..k] == b[..k + 1][1..];
    }
  }

  lemma DiffersAtOnce(a: string, b: string, k: nat)
    requires a != [] && b != [] && DiffersFirstAt(a, b, k)
    ensures k == 0 <==> a[0] != b[0]
  {
    if k > 0 { assert a[0] == a[..k][0] && b[0] == b[..k][0]; }
  }

  // The order of strings: a proper prefix comes first, otherwise the first difference decides.
  lemma {:induction false} LessExactly(a: string, b: string)
    ensures Less(a, b) <==> a < b || exists k: nat :: DiffersFirstAt(a, b, k)
  {
    if a != [] && b != [] {
      forall k: nat | DiffersFirstAt(a, b, k) ensures k == 0 <==> a[0] != b[0] { DiffersAtOnce(a, b, k); }
      if a[0] == b[0] {
        LessExactly(a[1..], b[1..]);
        assert a == [a[0]] + a[1..] && b == [b[0]] + b[1..];
        if k: nat :| DiffersFirstAt(a, b, k) { DiffersLater(a, b, k - 1); }
        if k: nat :| DiffersFirstAt(a[1..], b[1..], k) { DiffersLater(a, b, k); }
      } else {
        assert a[..0] == b[..0];
        assert DiffersFirstAt(a, b, 0) <==> a[0] < b[0];
      }
    }
  }

  ghost predicate StrictlySorted(entries: Catalog) {
    forall i, j | 0 <= i < j < |entries| :: Less(entries[i].0, entries[j].0)
  }

  // `entries` lists exactly the (name, capability) pairs of `handlers`, in name order.
  ghost predicate IsCatalog(entries: Catalog, handlers: map<string, Handler>) {
    && StrictlySorted(entries)
    && (forall e | e in entries :: e.0 in handlers && handlers[e.0].capability == e.1)
    && (forall name | name in handlers :: (name, handlers[name].capability) in entries)
  }

  // ---- Last registration wins ----------------------------------------------

  ghost predicate LastNamed(registrations: seq<Handler>, i: nat, name: string) {
    && i < |registrations|
    && registrations[i].name == name
    && forall j | i < j < |registrations| :: registrations[j].name != name
  }

  // A name is registered exactly when some registration carries it, and then it maps
  // to the last of them.
  lemma {:induction false} LastRegistrationWins(registrations: seq<Handler>, name: string)
    ensures name in Registered(registrations) <==> exists i: nat :: LastNamed(registrations, i, name)
    ensures forall i: nat | LastNamed(registrations, i, name) :: Registered(registrations)[name] == registrations[i]
  {
    if registrations != [] {
      var n := |registrations| - 1;
      var front := registrations[..n];
      LastRegistrationWins(front, name);
      if registrations[n].name == name {
        assert LastNamed(registrations, n, name);
      } else {
        forall i: nat ensures LastNamed(registrations, i, name) <==> LastNamed(front, i, name) {}
      }
    }
  }

  // What dispatch owes a command, told from the registrations: the last handler of its name
  // if the role holds that handler's capability, and otherwise the refusal that fits.
  ghost predicate Owed(registrations: seq<Handler>, name: string, role: Role, r: Result<Handler, DispatchError>) {
    && (forall i: nat | LastNamed(registrations, i, name) ::
          r == if Has(role, registrations[i].capability) then Ok(registrations[i])
               else Err(Forbidden(name, role, registrations[i].capability)))
    && ((forall i | 0 <= i < |registrations| :: registrations[i].name != name) ==> r == Err(UnknownCommand(name)))
  }

  lemma {:induction false} SomeLastNamed(registrations: seq<Handler>, name: string)
    ensures (forall i | 0 <= i < |registrations| :: registrations[i].name != name)
            <==> !(exists i: nat :: LastNamed(registrations, i, name))
  {
    if registrations != [] {
      var n := |registrations| - 1;
      SomeLastNamed(registrations[..n], name);
      if registrations[n].name == name {
        assert LastNamed(registrations, n, name);
      } else if i: nat :| LastNamed(registrations[..n], i, name) {
        assert LastNamed(registrations, i, name);
      }
    }
  }

  // Dispatch gives what it owes, and what it owes is one thing.
  lemma {:induction false} LookupIsOwed(registrations: seq<Handler>, name: string, role: Role,
                                       r: Result<Handler, DispatchError>)
    ensures r == Lookup(Registered(registrations), name, role) <==> Owed(registrations, name, role, r)
  {
    LastRegistrationWins(registrations, name);
    SomeLastNamed(registrations, name);
    if i: nat :| LastNamed(registrations, i, name) {
      assert Registered(registrations)[name] == registrations[i];
    }
  }

  lemma {:induction false} RegisteredConcat(base: seq<Handler>, over: seq<Handler>)
    ensures Registered(base + over) == Registered(base) + Registered(over)
  {
    if over == [] {
      assert base + over == base;
    } else {
      var n := |over| - 1;
      assert (base + over)[..|base + over| - 1] == base + over[..n];
      RegisteredConcat(base, over[..n]);
    }
  }

  // ---- Catalog -------------------------------------------------------------

  lemma {:induction false} LessTransitive(a: string, b: string, c: string)
    requires Less(a, b) && Less(b, c)
    ensures Less(a, c)
  {
    if a != [] && a[0] == b[0] && b[0] == c[0] {
      LessTransitive(a[1..], b[1..], c[1..]);
    }
  }

  lemma {:induction false} LessTotal(a: string, b: string)
    ensures Less(a, b) || Less(b, a) || a == b
    ensures !(Less(a, b) && Less(b, a))
    ensures !Less(a, a)
  {
    if a != [] {
      LessTotal(a[1..], a[1..]);
      if b != [] && a[0] == b[0] {
        LessTotal(a[1..], b[1..]);
        assert a == [a[0]] + a[1..] && b == [b[0]] + b[1..];
      }
    }
  }

  // The catalog is canonical: whatever order the hash map yields its values in, there is
  // one strictly name-sorted listing.
  lemma {:induction false} CatalogIsUnique(a: Catalog, b: Catalog, handlers: map<string, Handler>)
    requires IsCatalog(a, handlers) && IsCatalog(b, handlers)
    ensures a == b
  {
    SameMembersSameOrder(a, b);
  }

  lemma {:induction false} SameMembersSameOrder(a: Catalog, b: Catalog)
    requires StrictlySorted(a) && StrictlySorted(b)
    requires forall e :: e in a <==> e in b
    ensures a == b
  {
    assert |b| > 0 ==> b[0] in b;
    if a != [] {
      assert a[0] in a;
      var m, n := |a| - 1, |b| - 1;
      assert a[m] in b;
      assert b[n] in a;
      var i :| 0 <= i < |b| && b[i] == a[m];
      var j :| 0 <= j < |a| && a[j] == b[n];
      LessTotal(a[m].0, b[n].0);
      assert a[m] == b[n];
      forall e ensures e in a[..m] <==> e in b[..n] {
        LessTotal(a[m].0, a[m].0);
        if e in a[..m] { assert e in b; }
        if e in b[..n] { assert e in a; }
      }
      SameMembersSameOrder(a[..m], b[..n]);
      assert a == a[..m] + [a[m]] && b == b[..n] + [b[n]];
    }
  }

  lemma {:induction false} CatalogSize(entries: Catalog, handlers: map<string, Handler>)
    requires IsCatalog(entries, handlers)
    ensures |entries| == |handlers|
  {
    if entries == [] {
      assert forall name :: name !in handlers;
      assert handlers == map[];
    } else {
      var n := |entries| - 1;
      var last := entries[n].0;
      assert entries[n] in entries;
      var rest := handlers - {last};
      forall name | name in rest ensures (name, rest[name].capability) in entries[..n] {
        assert (name, handlers[name].capability) in entries;
      }
      forall e | e in entries[..n] ensures e.0 in rest && rest[e.0].capability == e.1 {
        assert e in entries;
        LessTotal(last, last);
      }
      CatalogSize(entries[..n], rest);
      assert rest.Keys == handlers.Keys - {last};
      assert |rest.Keys| == |handlers.Keys| - 1;
      assert |rest| == |rest.Keys| && |handlers| == |handlers.Keys|;
    }
  }

  // Whether an override list leaves the published catalog alone: each name it touches was
  // there before, with the capability its last override has.
  ghost predicate KeepsCatalog(base: seq<Handler>, over: seq<Handler>) {
    forall name | name in Registered(over) ::
      name in Registered(base) && Registered(base)[name].capability == Registered(over)[name].capability
  }

  // Layering a platform's overrides leaves the catalog and its size unchanged exactly when
  // every override keeps an existing name and its capability.
  lemma {:induction false} OverlayKeepsCatalog(base: seq<Handler>, over: seq<Handler>, entries: Catalog)
    requires IsCatalog(entries, Registered(base))
    ensures IsCatalog(entries, Registered(base + over)) <==> KeepsCatalog(base, over)
    ensures KeepsCatalog(base, over) ==> |Registered(base + over)| == |Registered(base)|
  {
    RegisteredConcat(base, over);
    var before, after := Registered(base), Registered(base + over);
    if KeepsCatalog(base, over) {
      forall name | name in after ensures (name, after[name].capability) in entries {
        assert (name, before[name].capability) in entries;
      }
      CatalogSize(entries, before);
      CatalogSize(entries, after);
    } else {
      var name :| name in Registered(over) &&
                  !(name in before && before[name].capability == Registered(over)[name].capability);
      var listed := (name, after[name].capability);
      assert IsCatalog(entries, after) ==> listed in entries;
    }
  }

  // ... while dispatch reaches the override itself, under the same gate as before.
  lemma {:induction false} OverlayRunsTheOverride(base: seq<Handler>, over: seq<Handler>, name: string, role: Role)
    requires KeepsCatalog(base, over)
    ensures Lookup(Registered(base + over), name, role).Ok? <==> Lookup(Registered(base), name, role).Ok?
    ensures Lookup(Registered(base + over), name, role) ==
            if name in Registered(over) then Lookup(Registered(over), name, role)
            else Lookup(Registered(base), name, role)
  {
    RegisteredConcat(base, over);
  }

  // ---- The registry object -------------------------------------------------

  class CommandRegistry {
    var handlers: map<string, Handler>
    ghost var registrations: seq<Handler>

    ghost predicate Valid()
      reads this
    {
      handlers == Registered(registrations)
    }

    constructor ()
      ensures Valid() && registrations == []
    {
      handlers := map[];
      registrations := [];
    }

    method Register(handler: Handler)
      requires Valid()
      modifies this
      ensures Valid() && registrations == old(registrations) + [handler]
    {
      handlers := handlers[handler.name := handler];
      registrations := registrations + [handler];
      assert registrations[..|registrations| - 1] == old(registrations);
    }

    // Registers a platform's overrides one by one, in order, over what is already there.
    method RegisterAll(over: seq<Handler>)
      requires Valid()
      modifies this
      ensures Valid() && registrations == old(registrations) + over
    {
      for i := 0 to |over|
        invariant Valid() && registrations == old(registrations) + over[..i]
      {
        Register(over[i]);
        assert over[..i + 1] == over[..i] + [over[i]];
      }
      assert over[..|over|] == over;
    }

    method Len() returns (n: nat)
      requires Valid()
      ensures forall entries | IsCatalog(entries, handlers) :: n == |entries|
    {
      n := |handlers|;
      forall entries | IsCatalog(entries, handlers) ensures n == |entries| {
        CatalogSize(entries, handlers);
      }
    }

    // Collects the handlers in whatever order the map yields them, then sorts by name.
    method Commands() returns (entries: Catalog)
      ensures IsCatalog(entries, handlers)
    {
      var collected: Catalog := [];
      var rest := handlers.Keys;
      while rest != {}
        invariant rest <= handlers.Keys
        invariant forall e | e in collected :: e.0 in handlers && e.0 !in rest && handlers[e.0].capability == e.1
        invariant forall name | name in handlers.Keys - rest :: (name, handlers[name].capability) in collected
        invariant forall i, j | 0 <= i < j < |collected| :: collected[i].0 != collected[j].0
        decreases rest
      {
        var name :| name in rest;
        collected := collected + [(name, handlers[name].capability)];
        rest := rest - {name};
      }
      entries := SortByName(collected);
    }

    method Dispatch(name: string, role: Role) returns (r: Result<Handler, DispatchError>)
      requires Valid()
      ensures r == Lookup(handlers, name, role)
      ensures Owed(registrations, name, role, r)
      ensures r.Ok? ==> Has(role, r.value.capability) &&
                        exists i: nat :: LastNamed(registrations, i, name) && r.value == registrations[i]
    {
      LastRegistrationWins(registrations, name);
      LookupIsOwed(registrations, name, role, Lookup(handlers, name, role));
      if name !in handlers { return Err(UnknownCommand(name)); }
      var handler := handlers[name];
      if !Has(role, handler.capability) { return Err(Forbidden(name, role, handler.capability)); }
      r := Ok(handler);
    }
  }

  method SortByName(entries: Catalog) returns (sorted: Catalog)
    requires forall i, j | 0 <= i < j < |entries| :: entries[i].0 != entries[j].0
    ensures StrictlySorted(sorted)
    ensures forall e :: e in sorted <==> e in entries
  {
    sorted := [];
    for i := 0 to |entries|
      invariant StrictlySorted(sorted)
      invariant forall e :: e in sorted <==> e in entries[..i]
    {
      assert forall e | e in sorted :: e.0 != entries[i].0 by {
        forall e | e in sorted ensures e.0 != entries[i].0 { assert e in entries[..i]; }
      }
      sorted := InsertByName(sorted, entries[i]);
      assert entries[..i + 1] == entries[..i] + [entries[i]];
    }
    assert entries[..|entries|] == entries;
  }

  method InsertByName(sorted: Catalog, entry: (string, Capability)) returns (result: Catalog)
    requires StrictlySorted(sorted)
    requires forall e | e in sorted :: e.0 != entry.0
    ensures StrictlySorted(result)
    ensures forall e :: e in result <==> e in sorted || e == entry
  {
    var k := 0;
    while k < |sorted| && Less(sorted[k].0, entry.0)
      invariant k <= |sorted|
      invariant forall i | 0 <= i < k :: Less(sorted[i].0, entry.0)
    {
      k := k + 1;
    }
    forall i | k <= i < |sorted| ensures Less(entry.0, sorted[i].0) {
      assert sorted[k] in sorted;
      LessTotal(sorted[k].0, entry.0);
      if k < i { LessTransitive(entry.0, sorted[k].0, sorted[i].0); }
    }
    result := sorted[..k] + [entry] + sorted[k..];
    assert sorted == sorted[..k] + sorted[k..];
  }
}
