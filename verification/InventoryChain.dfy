/**
The inventory against the token (cmd/hsm-pki-keytool): reading the listed keys, chaining the
versions and dates of successive documents, signing them with a key of another token, and
retiring a key the document lists as verify-only.
*/
module InventoryChain {
  import opened Certificate
  import opened Clock
  import opened Inventory
  import opened SigningKey
  import opened Text
  import opened Token
  import opened Wrappers

  import Ceremony

  datatype KeySpec = KeySpec(purpose: Purpose, name: string, status: Status)

  datatype ChainError =
    | BadFlags
    | PreviousInvalid(why: Invalid)
    | SameSerial
    | AlreadyAuthenticated
    | LoginFailed
    | SessionFailed
    | InventoryKeyHere
    | SearchFailed(findError: FindError)
    | NotListedBefore
    | StillOnToken
    | KeyUnusable(keyError: KeyError)
    | DocumentInvalid(invalid: Invalid)
    | SigningFailed
    | LogoutFailed
    | NotRetirable
    | UnknownCurve
    | NotTheListedKey

  function CurveName(c: Curve): string {
    match c case P256 => "P-256" case P384 => "P-384" case P521 => "P-521"
  }

  function ParseCurve(s: string): Option<Curve> {
    if s == "P-256" then Some(P256) else if s == "P-384" then Some(P384) else if s == "P-521" then Some(P521) else None
  }

  lemma CurveNames(s: string, c: Curve)
    ensures ParseCurve(s) == Some(c) <==> s == CurveName(c)
    ensures CurveName(c) == (if c == P256 then "P-256" else if c == P384 then "P-384" else "P-521")
  {
  }

  // Order by label.

  predicate LabelBelow(s: string, t: string) {
    if t == [] then false
    else if s == [] then true
    else s[0] < t[0] || (s[0] == t[0] && LabelBelow(s[1..], t[1..]))
  }

  lemma {:induction false} LabelsChain(s: string, t: string, u: string)
    requires !LabelBelow(t, s) && !LabelBelow(u, t)
    ensures !LabelBelow(u, s)
  {
    if s == [] || t == [] || u == [] {
    } else if s[0] == t[0] == u[0] {
      LabelsChain(s[1..], t[1..], u[1..]);
    }
  }

  predicate Ordered(keys: seq<Entry>) {
    forall i, j :: 0 <= i < j < |keys| ==> !LabelBelow(keys[j].name, keys[i].name)
  }

  // One entry put in its place among ordered ones.
  function Placed(e: Entry, keys: seq<Entry>): seq<Entry> {
    if keys == [] || !LabelBelow(keys[0].name, e.name) then [e] + keys
    else [keys[0]] + Placed(e, keys[1..])
  }

  function ByLabel(keys: seq<Entry>): seq<Entry> {
    if keys == [] then [] else Placed(keys[|keys| - 1], ByLabel(keys[..|keys| - 1]))
  }

  lemma {:induction false} PlacedKeepsAll(e: Entry, keys: seq<Entry>)
    ensures multiset(Placed(e, keys)) == multiset(keys) + multiset{e}
  {
    if keys == [] || !LabelBelow(keys[0].name, e.name) {
    } else {
      PlacedKeepsAll(e, keys[1..]);
      assert keys == [keys[0]] + keys[1..];
    }
  }

  // In order: what stands first is below nothing that follows.
  lemma FirstThenOrdered(e: Entry, rest: seq<Entry>)
    requires Ordered(rest) && forall j :: 0 <= j < |rest| ==> !LabelBelow(rest[j].name, e.name)
    ensures Ordered([e] + rest)
  {
  }

  lemma {:induction false} PlacedKeepsOrder(e: Entry, keys: seq<Entry>)
    requires Ordered(keys)
    ensures Ordered(Placed(e, keys))
  {
    if keys == [] {
    } else if !LabelBelow(keys[0].name, e.name) {
      forall j | 0 <= j < |keys| ensures !LabelBelow(keys[j].name, e.name) {
        if j > 0 {
          LabelsChain(e.name, keys[0].name, keys[j].name);
        }
      }
      FirstThenOrdered(e, keys);
    } else {
      var rest := Placed(e, keys[1..]);
      PlacedKeepsOrder(e, keys[1..]);
      PlacedKeepsAll(e, keys[1..]);
      BelowIsStrict(keys[0].name, e.name);
      forall j | 0 <= j < |rest| ensures !LabelBelow(rest[j].name, keys[0].name) {
        assert rest[j] in multiset(rest);
      }
      FirstThenOrdered(keys[0], rest);
    }
  }

  lemma {:induction false} BelowIsStrict(s: string, t: string)
    requires LabelBelow(s, t)
    ensures !LabelBelow(t, s)
  {
    if s == [] {
    } else if s[0] == t[0] {
      BelowIsStrict(s[1..], t[1..]);
    }
  }

  /** Sorting loses and repeats nothing, and leaves the labels in order. */
  lemma {:induction false} ByLabelSorts(keys: seq<Entry>)
    ensures multiset(ByLabel(keys)) == multiset(keys) && Ordered(ByLabel(keys))
  {
    if keys == [] {
    } else {
      var n := |keys| - 1;
      ByLabelSorts(keys[..n]);
      PlacedKeepsAll(keys[n], ByLabel(keys[..n]));
      PlacedKeepsOrder(keys[n], ByLabel(keys[..n]));
      assert keys == keys[..n] + [keys[n]];
    }
  }

  // Reading entries.

  // The entry a previous document held under a label: the last, should there be several.
  function Prior(keys: seq<Entry>, name: string): Option<Entry> {
    if keys == [] then None
    else if keys[|keys| - 1].name == name then Some(keys[|keys| - 1])
    else Prior(keys[..|keys| - 1], name)
  }

  function PriorIn(previous: Option<Inventory>, name: string): Option<Entry> {
    if previous.None? then None else Prior(previous.value.keys, name)
  }

  // A protected key the token holds alone under the label, as the entry lists it.
  ghost predicate ReadOff(objects: Objects, e: Entry, curve: Curve) {
    exists key: Key :: key.name == e.name && Describes(objects, key, curve) && Protected(key) && e.publicKey == PublicKeyPem(key.public)
  }

  // How an entry comes from its spec, the previous document and the token.
  ghost predicate ReadAs(e: Entry, spec: KeySpec, prior: Option<Entry>, objects: Objects, curve: Curve, now: Instant) {
    && e.name == spec.name && e.purpose == spec.purpose && e.status == spec.status && e.curve == CurveName(curve)
    && e.validFrom == (if prior.Some? then prior.value.validFrom else now)
    && (spec.status == Retired ==>
          && prior.Some? && Holding(objects, PrivateObject, e.name) == {}
          && e.publicKey == prior.value.publicKey
          && e.retiredAt == Some(if prior.value.retiredAt.Some? then prior.value.retiredAt.value else now))
    && (spec.status != Retired ==> e.retiredAt == None && ReadOff(objects, e, curve))
  }

  ghost predicate AllReadAs(entries: seq<Entry>, specs: seq<KeySpec>, previous: Option<Inventory>, objects: Objects, curve: Curve, now: Instant) {
    && |entries| == |specs|
    && forall i :: 0 <= i < |specs| ==> ReadAs(entries[i], specs[i], PriorIn(previous, specs[i].name), objects, curve, now)
  }

  // There is an entry to be read for the spec.
  ghost predicate SpecReads(spec: KeySpec, prior: Option<Entry>, objects: Objects, curve: Curve, now: Instant) {
    VersionedLabel(spec.name) && exists e: Entry :: ReadAs(e, spec, prior, objects, curve, now)
  }

  ghost predicate SpecsRead(specs: seq<KeySpec>, previous: Option<Inventory>, objects: Objects, curve: Curve, now: Instant) {
    forall i :: 0 <= i < |specs| ==> SpecReads(specs[i], PriorIn(previous, specs[i].name), objects, curve, now)
  }

  // An entry is read in one way only.
  lemma ReadOnce(e: Entry, f: Entry, spec: KeySpec, prior: Option<Entry>, objects: Objects, curve: Curve, now: Instant)
    requires ReadAs(e, spec, prior, objects, curve, now) && ReadAs(f, spec, prior, objects, curve, now)
    ensures e == f
  {
    if spec.status != Retired {
      var key: Key :| key.name == e.name && Describes(objects, key, curve) && Protected(key) && e.publicKey == PublicKeyPem(key.public);
      var other: Key :| other.name == f.name && Describes(objects, other, curve) && Protected(other) && f.publicKey == PublicKeyPem(other.public);
      DescribedOnce(objects, key, other, curve);
    }
  }

  lemma AllReadOnce(entries: seq<Entry>, others: seq<Entry>, specs: seq<KeySpec>, previous: Option<Inventory>, objects: Objects, curve: Curve, now: Instant)
    requires AllReadAs(entries, specs, previous, objects, curve, now) && AllReadAs(others, specs, previous, objects, curve, now)
    ensures entries == others
  {
    forall i | 0 <= i < |specs| ensures entries[i] == others[i] {
      ReadOnce(entries[i], others[i], specs[i], PriorIn(previous, specs[i].name), objects, curve, now);
    }
  }

  method ReadEntry(a: Adapter, ws: Workspace, curve: Curve, spec: KeySpec, prior: Option<Entry>, now: Instant)
    returns (e: Result<Entry, ChainError>)
    requires a.Present(ws) && a.TokenOf(ws) in a.authenticated
    modifies a`failures
    ensures a.failures >= old(a.failures)
    ensures a.failures == old(a.failures) ==> (e.Ok? <==> SpecReads(spec, prior, a.ObjectsOf(ws), curve, now))
    ensures e.Ok? ==> ReadAs(e.value, spec, prior, a.ObjectsOf(ws), curve, now) && VersionedLabel(spec.name)
  {
    if !VersionedLabel(spec.name) {
      return Err(KeyUnusable(BadLabel));
    }
    var entry := Entry(spec.name, spec.purpose, CurveName(curve), Unreadable, now, None, spec.status);
    if prior.Some? {
      entry := entry.(validFrom := prior.value.validFrom);
    }
    if spec.status == Retired {
      if prior.None? {
        return Err(NotListedBefore);
      }
      var free := a.LabelIsFree(ws, PrivateObject, spec.name);
      if free.Err? {
        return Err(SearchFailed(free.error));
      }
      if !free.value {
        return Err(StillOnToken);
      }
      var retiredAt := prior.value.retiredAt;
      if retiredAt.None? {
        retiredAt := Some(now);
      }
      e := Ok(entry.(publicKey := prior.value.publicKey, retiredAt := retiredAt));
      assert ReadAs(e.value, spec, prior, a.ObjectsOf(ws), curve, now);
      return;
    }
    var key := SigningKey.Verify(a, ws, spec.name, curve);
    if key.Err? {
      return Err(KeyUnusable(key.error));
    }
    e := Ok(entry.(publicKey := PublicKeyPem(key.value.public)));
    assert ReadAs(e.value, spec, prior, a.ObjectsOf(ws), curve, now);
  }

  // The previous document's entries by label.
  method PriorEntries(previous: Option<Inventory>) returns (prior: map<string, Entry>)
    ensures forall name: string :: (if name in prior then Some(prior[name]) else None) == PriorIn(previous, name)
  {
    prior := map[];
    var keys := if previous.Some? then previous.value.keys else [];
    for i := 0 to |keys|
      invariant forall name: string :: (if name in prior then Some(prior[name]) else None) == Prior(keys[..i], name)
    {
      prior := prior[keys[i].name := keys[i]];
      assert keys[..i + 1][..i] == keys[..i];
    }
    assert keys[..|keys|] == keys;
  }

  // Inside the login: the inventory key must not be here; then each spec in turn.
  method ReadInside(a: Adapter, ws: Workspace, curve: Curve, specs: seq<KeySpec>, previous: Option<Inventory>, invKeyLabel: string, now: Instant)
    returns (read: Result<seq<Entry>, ChainError>)
    requires a.Present(ws) && a.TokenOf(ws) in a.authenticated
    modifies a`failures
    ensures a.failures >= old(a.failures)
    ensures a.failures == old(a.failures) ==>
              (read.Ok? <==>
                 && Holding(a.ObjectsOf(ws), PrivateObject, invKeyLabel) == {}
                 && SpecsRead(specs, previous, a.ObjectsOf(ws), curve, now))
    ensures read.Ok? ==>
              && AllReadAs(read.value, specs, previous, a.ObjectsOf(ws), curve, now)
              && SpecsRead(specs, previous, a.ObjectsOf(ws), curve, now)
              && Holding(a.ObjectsOf(ws), PrivateObject, invKeyLabel) == {}
  {
    var prior := PriorEntries(previous);
    var opens := a.Works();
    if !opens {
      return Err(SessionFailed);
    }
    var free := a.LabelIsFree(ws, PrivateObject, invKeyLabel);
    if free.Err? {
      return Err(SearchFailed(free.error));
    }
    if !free.value {
      return Err(InventoryKeyHere);
    }
    read := ReadSpecs(a, ws, curve, specs, previous, prior, now);
  }

  ghost predicate ReadSoFar(entries: seq<Entry>, specs: seq<KeySpec>, previous: Option<Inventory>, objects: Objects, curve: Curve, now: Instant) {
    && |entries| <= |specs|
    && forall j :: 0 <= j < |entries| ==>
         VersionedLabel(specs[j].name) && ReadAs(entries[j], specs[j], PriorIn(previous, specs[j].name), objects, curve, now)
  }

  lemma ReadOneMore(entries: seq<Entry>, e: Entry, specs: seq<KeySpec>, previous: Option<Inventory>, objects: Objects, curve: Curve, now: Instant)
    requires ReadSoFar(entries, specs, previous, objects, curve, now) && |entries| < |specs|
    requires VersionedLabel(specs[|entries|].name)
    requires ReadAs(e, specs[|entries|], PriorIn(previous, specs[|entries|].name), objects, curve, now)
    ensures ReadSoFar(entries + [e], specs, previous, objects, curve, now)
  {
  }

  lemma ReadThemAll(entries: seq<Entry>, specs: seq<KeySpec>, previous: Option<Inventory>, objects: Objects, curve: Curve, now: Instant)
    requires ReadSoFar(entries, specs, previous, objects, curve, now) && |entries| == |specs|
    ensures AllReadAs(entries, specs, previous, objects, curve, now) && SpecsRead(specs, previous, objects, curve, now)
  {
    forall i | 0 <= i < |specs| ensures SpecReads(specs[i], PriorIn(previous, specs[i].name), objects, curve, now) {
      assert ReadAs(entries[i], specs[i], PriorIn(previous, specs[i].name), objects, curve, now);
    }
  }

  // Each spec in turn.
  method ReadSpecs(a: Adapter, ws: Workspace, curve: Curve, specs: seq<KeySpec>, ghost previous: Option<Inventory>, prior: map<string, Entry>, now: Instant)
    returns (read: Result<seq<Entry>, ChainError>)
    requires a.Present(ws) && a.TokenOf(ws) in a.authenticated
    requires forall name: string :: (if name in prior then Some(prior[name]) else None) == PriorIn(previous, name)
    modifies a`failures
    ensures a.failures >= old(a.failures)
    ensures a.failures == old(a.failures) ==> (read.Ok? <==> SpecsRead(specs, previous, a.ObjectsOf(ws), curve, now))
    ensures read.Ok? ==>
              && AllReadAs(read.value, specs, previous, a.ObjectsOf(ws), curve, now)
              && SpecsRead(specs, previous, a.ObjectsOf(ws), curve, now)
  {
    var entries: seq<Entry> := [];
    for i := 0 to |specs|
      invariant |entries| == i && a.failures >= old(a.failures)
      invariant ReadSoFar(entries, specs, previous, a.ObjectsOf(ws), curve, now)
    {
      var name := specs[i].name;
      var e := ReadEntry(a, ws, curve, specs[i], if name in prior then Some(prior[name]) else None, now);
      if e.Err? {
        return Err(e.error);
      }
      ReadOneMore(entries, e.value, specs, previous, a.ObjectsOf(ws), curve, now);
      entries := entries + [e.value];
    }
    ReadThemAll(entries, specs, previous, a.ObjectsOf(ws), curve, now);
    read := Ok(entries);
  }

  /** Reading the listed keys: between a login and a logout, sorted by label. */
  method ReadEntries(a: Adapter, ws: Workspace, curve: Curve, specs: seq<KeySpec>, previous: Option<Inventory>, invKeyLabel: string, now: Instant)
    returns (entries: Result<seq<Entry>, ChainError>, ghost unsorted: seq<Entry>)
    modifies a`anchor, a`authenticated, a`trace, a`failures
    ensures a.failures >= old(a.failures)
    ensures a.failures == old(a.failures) ==>
              (entries.Ok? <==>
                 && old(a.anchor) == None && a.Present(ws) && Holding(a.ObjectsOf(ws), PrivateObject, invKeyLabel) == {}
                 && SpecsRead(specs, previous, a.ObjectsOf(ws), curve, now))
    ensures a.anchor == old(a.anchor)
    ensures old(a.anchor).Some? ==> entries == Err(AlreadyAuthenticated)
    ensures entries.Ok? ==>
              && a.Present(ws) && entries.value == ByLabel(unsorted)
              && AllReadAs(unsorted, specs, previous, a.ObjectsOf(ws), curve, now)
              && SpecsRead(specs, previous, a.ObjectsOf(ws), curve, now)
              && Holding(a.ObjectsOf(ws), PrivateObject, invKeyLabel) == {}
  {
    unsorted := [];
    if a.anchor.Some? {
      return Err(AlreadyAuthenticated), [];
    }
    var ok := a.LoginToken(ws);
    if !ok {
      return Err(LoginFailed), [];
    }
    var read := ReadInside(a, ws, curve, specs, previous, invKeyLabel, now);
    if read.Ok? {
      unsorted := read.value;
      read := Ok(ByLabel(read.value));
    }
    ok := a.LogoutToken();
    entries := if read.Ok? && !ok then Err(LogoutFailed) else read;
  }

  // Signing the document on the offline token: the key that signed, which is the one read.
  method SignInventory(a: Adapter, ws: Workspace, keyLabel: string) returns (signer: Result<PublicKey, ChainError>)
    modifies a`anchor, a`authenticated, a`trace, a`failures
    ensures a.failures >= old(a.failures)
    ensures a.failures == old(a.failures) ==>
              (signer.Ok? <==> old(a.anchor) == None && a.Present(ws) && HoldsInventoryKey(a.ObjectsOf(ws), keyLabel))
    ensures a.anchor == old(a.anchor)
    ensures signer.Ok? ==>
              && a.Present(ws) && signer.value.Ec? && signer.value.curve == P256
              && exists h <- a.ObjectsOf(ws) :: Holding(a.ObjectsOf(ws), PrivateObject, keyLabel) == {h} && a.ObjectsOf(ws)[h].point == signer.value
  {
    if a.anchor.Some? {
      return Err(AlreadyAuthenticated);
    }
    var ok := a.LoginToken(ws);
    if !ok {
      return Err(LoginFailed);
    }
    var key := Ceremony.NewSigner(a, ws, keyLabel, P256);
    var signed := false;
    if key.Some? {
      signed := Ceremony.SignAs(a, ws, keyLabel, key.value);
    }
    ok := a.LogoutToken();
    if key.None? || !signed {
      return Err(SigningFailed);
    }
    signer := if ok then Ok(key.value) else Err(LogoutFailed);
  }

  // The chain between a document and the one generated from it.

  ghost predicate KeepsDates(previous: Inventory, doc: Inventory) {
    forall e <- previous.keys, f <- doc.keys :: e.name == f.name ==>
      f.validFrom == e.validFrom && (e.status == Retired && f.status == Retired ==> f.retiredAt == e.retiredAt && f.publicKey == e.publicKey)
  }

  ghost predicate Follows(previous: Option<Inventory>, doc: Inventory) {
    match previous
    case None => doc.version == 1 && forall e <- doc.keys :: e.status != Retired
    case Some(p) => doc.version == p.version + 1 && KeepsDates(p, doc) && RetiredWereListed(p, doc)
  }

  ghost predicate RetiredWereListed(previous: Inventory, doc: Inventory) {
    forall f <- doc.keys :: f.status == Retired ==> exists e <- previous.keys :: e.name == f.name && e.publicKey == f.publicKey
  }

  // What the document claims of the token is so.
  ghost predicate TrueOf(doc: Inventory, objects: Objects, curve: Curve) {
    forall e <- doc.keys ::
      (if e.status == Retired then Holding(objects, PrivateObject, e.name) == {} else ReadOff(objects, e, curve))
  }

  // The document lists what was asked for, read as asked, in the order of the labels.
  ghost predicate ReadFrom(doc: Inventory, specs: seq<KeySpec>, previous: Option<Inventory>, objects: Objects, curve: Curve, now: Instant) {
    exists unsorted: seq<Entry> :: AllReadAs(unsorted, specs, previous, objects, curve, now) && doc.keys == ByLabel(unsorted)
  }

  lemma PriorIsListed(keys: seq<Entry>, name: string)
    ensures Prior(keys, name).Some? <==> exists e <- keys :: e.name == name
    ensures Prior(keys, name).Some? ==> Prior(keys, name).value in keys && Prior(keys, name).value.name == name
  {
    if keys != [] {
      var n := |keys| - 1;
      assert keys == keys[..n] + [keys[n]];
      PriorIsListed(keys[..n], name);
    }
  }

  lemma PriorIsUnique(keys: seq<Entry>, e: Entry)
    requires KeyRules(keys) && e in keys
    ensures Prior(keys, e.name) == Some(e)
  {
    PriorIsListed(keys, e.name);
    var p := Prior(keys, e.name).value;
    var i :| 0 <= i < |keys| && keys[i] == e;
    var j :| 0 <= j < |keys| && keys[j] == p;
    KeysApart(keys, i, j);
  }

  lemma FromSpec(unsorted: seq<Entry>, specs: seq<KeySpec>, previous: Option<Inventory>, objects: Objects, curve: Curve, now: Instant, e: Entry)
    requires AllReadAs(unsorted, specs, previous, objects, curve, now) && e in ByLabel(unsorted)
    ensures exists spec <- specs :: spec.name == e.name && ReadAs(e, spec, PriorIn(previous, e.name), objects, curve, now)
  {
    ByLabelSorts(unsorted);
    assert e in multiset(ByLabel(unsorted));
    assert e in multiset(unsorted);
    var i :| 0 <= i < |unsorted| && unsorted[i] == e;
    assert ReadAs(unsorted[i], specs[i], PriorIn(previous, specs[i].name), objects, curve, now);
  }

  /** Nothing asked for is left out, and nothing is added. */
  lemma EverySpecIsListed(doc: Inventory, specs: seq<KeySpec>, previous: Option<Inventory>, objects: Objects, curve: Curve, now: Instant)
    requires ReadFrom(doc, specs, previous, objects, curve, now)
    ensures |doc.keys| == |specs|
    ensures forall spec <- specs :: exists e <- doc.keys :: ReadAs(e, spec, PriorIn(previous, spec.name), objects, curve, now)
    ensures forall e <- doc.keys :: exists spec <- specs :: ReadAs(e, spec, PriorIn(previous, e.name), objects, curve, now)
  {
    var unsorted :| AllReadAs(unsorted, specs, previous, objects, curve, now) && doc.keys == ByLabel(unsorted);
    ByLabelSorts(unsorted);
    assert |multiset(doc.keys)| == |multiset(unsorted)|;
    forall spec <- specs ensures exists e <- doc.keys :: ReadAs(e, spec, PriorIn(previous, spec.name), objects, curve, now) {
      var i :| 0 <= i < |specs| && specs[i] == spec;
      assert unsorted[i] in multiset(unsorted);
      assert unsorted[i] in multiset(doc.keys);
    }
    forall e <- doc.keys ensures exists spec <- specs :: ReadAs(e, spec, PriorIn(previous, e.name), objects, curve, now) {
      FromSpec(unsorted, specs, previous, objects, curve, now, e);
    }
  }

  /** Entries read against a valid document keep its dates, and retire only what it listed. */
  lemma ReadFollows(unsorted: seq<Entry>, specs: seq<KeySpec>, previous: Option<Inventory>, objects: Objects, curve: Curve, now: Instant, doc: Inventory)
    requires AllReadAs(unsorted, specs, previous, objects, curve, now) && doc.keys == ByLabel(unsorted)
    requires previous.Some? ==> Rules(previous.value)
    requires doc.version == if previous.Some? then previous.value.version + 1 else 1
    ensures Follows(previous, doc) && TrueOf(doc, objects, curve) && Ordered(doc.keys)
  {
    ByLabelSorts(unsorted);
    forall e <- doc.keys
      ensures if e.status == Retired then Holding(objects, PrivateObject, e.name) == {} else ReadOff(objects, e, curve)
      ensures e.status == Retired ==> previous.Some? && exists p <- previous.value.keys :: p.name == e.name && p.publicKey == e.publicKey
    {
      FromSpec(unsorted, specs, previous, objects, curve, now, e);
      if previous.Some? {
        PriorIsListed(previous.value.keys, e.name);
      }
    }
    if previous.Some? {
      forall e <- previous.value.keys, f <- doc.keys | e.name == f.name
        ensures f.validFrom == e.validFrom && (e.status == Retired && f.status == Retired ==> f.retiredAt == e.retiredAt && f.publicKey == e.publicKey)
      {
        FromSpec(unsorted, specs, previous, objects, curve, now, f);
        PriorIsUnique(previous.value.keys, e);
        assert EntryRules(e);
      }
    }
  }

  // The document a generation publishes over entries read in the order of the specs.
  ghost function DocumentOver(unsorted: seq<Entry>, previous: Option<Inventory>, validity: Span, now: Instant): Inventory {
    var generatedAt := TruncateToSecond(now);
    Published(SCHEMA, if previous.Some? then previous.value.version + 1 else 1, generatedAt, generatedAt + validity, ByLabel(unsorted))
  }

  // An entry is valid from when it was first listed, and retired since it first said so.
  predicate DatedFrom(e: Entry, prior: Option<Entry>, now: Instant) {
    && (prior.Some? ==> e.validFrom == prior.value.validFrom) && (prior.None? ==> e.validFrom == now)
    && (e.status == Retired ==> prior.Some? && e.retiredAt.Some?)
    && (e.status == Retired && prior.Some? && prior.value.retiredAt.Some? ==> e.retiredAt == prior.value.retiredAt)
    && (e.status == Retired && prior.Some? && prior.value.retiredAt.None? ==> e.retiredAt == Some(now))
  }

  // What a generation needs: flags, a valid previous document and two tokens by their
  // serials, nobody logged in, every spec readable into a valid document on a token without
  // the inventory key, and the inventory key's one pair on the other.
  ghost predicate CanGenerate(a: Adapter, ws: Workspace, invWs: Workspace, specs: seq<KeySpec>, curve: Curve, validity: Span,
                              previous: Option<Inventory>, invKeyLabel: string, readAt: Instant, now: Instant)
    reads a`tokens, a`anchor
  {
    && specs != [] && VersionedLabel(invKeyLabel) && validity > 0 && (previous.Some? ==> Rules(previous.value))
    && ws.serial != invWs.serial && CanRead(a, ws, specs, curve, validity, previous, invKeyLabel, readAt, now)
    && a.Present(invWs) && HoldsInventoryKey(a.ObjectsOf(invWs), invKeyLabel)
  }

  ghost predicate HoldsInventoryKey(objects: Objects, keyLabel: string) {
    exists key: PublicKey ::
      && key.Ec? && key.curve == P256
      && OnlyHolds(objects, PublicObject, keyLabel, key) && OnlyHolds(objects, PrivateObject, keyLabel, key)
  }

  /**
  generate-inventory. A document comes out only valid, one version above the one it was
  generated from, with that one's dates, true of the token it lists, and signed by a key of
  another token whatever the two tokens' serials say. When no call fails it
  comes out exactly when everything it needs is there.
  */
  method GenerateInventory(a: Adapter, ws: Workspace, invWs: Workspace, specs: seq<KeySpec>, curve: Curve, validity: Span,
                           previous: Option<Inventory>, invKeyLabel: string, readAt: Instant, now: Instant)
    returns (doc: Result<Inventory, ChainError>)
    modifies a`anchor, a`authenticated, a`trace, a`failures
    ensures a.failures >= old(a.failures)
    ensures a.failures == old(a.failures) ==> (doc.Ok? <==> old(CanGenerate(a, ws, invWs, specs, curve, validity, previous, invKeyLabel, readAt, now)))
    ensures a.anchor == old(a.anchor)
    ensures doc.Ok? ==> forall e <- doc.value.keys :: DatedFrom(e, PriorIn(previous, e.name), TruncateToSecond(readAt))
    ensures doc.Ok? ==>
              && Rules(doc.value) && Ordered(doc.value.keys)
              && (previous.Some? ==> Rules(previous.value)) && Follows(previous, doc.value)
              && doc.value.generatedAt == TruncateToSecond(now) && doc.value.validUntil == doc.value.generatedAt + validity
              && a.Present(ws) && TrueOf(doc.value, a.ObjectsOf(ws), curve)
              && ReadFrom(doc.value, specs, previous, a.ObjectsOf(ws), curve, TruncateToSecond(readAt))
              && a.Present(invWs) && a.TokenOf(invWs) != a.TokenOf(ws)
              && Holding(a.ObjectsOf(invWs), PrivateObject, invKeyLabel) != {}
  {
    if specs == [] || !VersionedLabel(invKeyLabel) || validity <= 0 {
      return Err(BadFlags);
    }
    if previous.Some? {
      var why := Validate(previous.value);
      if why.Some? {
        return Err(PreviousInvalid(why.value));
      }
    }
    if ws.serial == invWs.serial {
      return Err(SameSerial);
    }
    doc := ReadDocument(a, ws, specs, curve, validity, previous, invKeyLabel, readAt, now);
    if doc.Err? {
      return;
    }
    var signer := SignInventory(a, invWs, invKeyLabel);
    if signer.Err? {
      return Err(signer.error);
    }
  }

  // The entries can be read into a document that keeps the rules, off a token without the
  // inventory key.
  ghost predicate CanRead(a: Adapter, ws: Workspace, specs: seq<KeySpec>, curve: Curve, validity: Span,
                          previous: Option<Inventory>, invKeyLabel: string, readAt: Instant, now: Instant)
    reads a`tokens, a`anchor
  {
    && a.anchor == None && a.Present(ws) && Holding(a.ObjectsOf(ws), PrivateObject, invKeyLabel) == {}
    && ReadsInto(a.ObjectsOf(ws), specs, curve, validity, previous, TruncateToSecond(readAt), now)
  }

  ghost predicate ReadsInto(objects: Objects, specs: seq<KeySpec>, curve: Curve, validity: Span, previous: Option<Inventory>, readAt: Instant, now: Instant) {
    && SpecsRead(specs, previous, objects, curve, readAt)
    && exists unsorted: seq<Entry> ::
         AllReadAs(unsorted, specs, previous, objects, curve, readAt) && Rules(DocumentOver(unsorted, previous, validity, now))
  }

  lemma ReadsIntoOne(objects: Objects, unsorted: seq<Entry>, specs: seq<KeySpec>, curve: Curve, validity: Span,
                     previous: Option<Inventory>, readAt: Instant, now: Instant)
    requires AllReadAs(unsorted, specs, previous, objects, curve, readAt) && SpecsRead(specs, previous, objects, curve, readAt)
    ensures ReadsInto(objects, specs, curve, validity, previous, readAt, now) <==> Rules(DocumentOver(unsorted, previous, validity, now))
  {
    if ReadsInto(objects, specs, curve, validity, previous, readAt, now) {
      var other :| AllReadAs(other, specs, previous, objects, curve, readAt) && Rules(DocumentOver(other, previous, validity, now));
      AllReadOnce(unsorted, other, specs, previous, objects, curve, readAt);
    }
  }

  // What holds of a document by how it was read.
  ghost predicate ReadOffToken(doc: Inventory, objects: Objects, specs: seq<KeySpec>, curve: Curve, previous: Option<Inventory>, readAt: Instant) {
    && Ordered(doc.keys) && Follows(previous, doc) && TrueOf(doc, objects, curve)
    && ReadFrom(doc, specs, previous, objects, curve, readAt)
    && forall e <- doc.keys :: DatedFrom(e, PriorIn(previous, e.name), readAt)
  }

  lemma DocumentIsReadOff(objects: Objects, unsorted: seq<Entry>, specs: seq<KeySpec>, curve: Curve, validity: Span,
                          previous: Option<Inventory>, readAt: Instant, now: Instant)
    requires AllReadAs(unsorted, specs, previous, objects, curve, readAt) && (previous.Some? ==> Rules(previous.value))
    ensures ReadOffToken(DocumentOver(unsorted, previous, validity, now), objects, specs, curve, previous, readAt)
  {
    var doc := DocumentOver(unsorted, previous, validity, now);
    ReadFollows(unsorted, specs, previous, objects, curve, readAt, doc);
    forall e <- doc.keys ensures DatedFrom(e, PriorIn(previous, e.name), readAt) {
      FromSpec(unsorted, specs, previous, objects, curve, readAt, e);
    }
  }

  // Read, put together and validated, before it is signed.
  method ReadDocument(a: Adapter, ws: Workspace, specs: seq<KeySpec>, curve: Curve, validity: Span,
                      previous: Option<Inventory>, invKeyLabel: string, readAt: Instant, now: Instant)
    returns (doc: Result<Inventory, ChainError>)
    requires specs != [] && (previous.Some? ==> Rules(previous.value))
    modifies a`anchor, a`authenticated, a`trace, a`failures
    ensures a.failures >= old(a.failures)
    ensures a.failures == old(a.failures) ==> (doc.Ok? <==> old(CanRead(a, ws, specs, curve, validity, previous, invKeyLabel, readAt, now)))
    ensures a.anchor == old(a.anchor)
    ensures doc.Ok? ==>
              && old(a.anchor) == None && Rules(doc.value)
              && doc.value.generatedAt == TruncateToSecond(now) && doc.value.validUntil == doc.value.generatedAt + validity
              && a.Present(ws) && ReadOffToken(doc.value, a.ObjectsOf(ws), specs, curve, previous, TruncateToSecond(readAt))
              && Holding(a.ObjectsOf(ws), PrivateObject, invKeyLabel) == {}
  {
    ghost var unsorted;
    var entries;
    entries, unsorted := ReadEntries(a, ws, curve, specs, previous, invKeyLabel, TruncateToSecond(readAt));
    if entries.Err? {
      return Err(entries.error);
    }
    ReadsIntoOne(a.ObjectsOf(ws), unsorted, specs, curve, validity, previous, TruncateToSecond(readAt), now);
    DocumentIsReadOff(a.ObjectsOf(ws), unsorted, specs, curve, validity, previous, TruncateToSecond(readAt), now);
    var generatedAt := TruncateToSecond(now);
    var version := if previous.Some? then previous.value.version + 1 else 1;
    var document := Published(SCHEMA, version, generatedAt, generatedAt + validity, entries.value);
    var why := Validate(document);
    if why.Some? {
      return Err(DocumentInvalid(why.value));
    }
    doc := Ok(document);
  }

  // Retirement.

  // The entry under a label, when the document lists it as verify-only.
  method RetirableEntry(inv: Inventory, name: string) returns (entry: Option<Entry>)
    requires Rules(inv)
    ensures entry.Some? ==> entry.value in inv.keys && entry.value.name == name && entry.value.status == VerifyOnly
    ensures entry.None? ==> forall e <- inv.keys :: e.name == name ==> e.status != VerifyOnly
  {
    for i := 0 to |inv.keys|
      invariant forall j :: 0 <= j < i ==> inv.keys[j].name != name
    {
      var e := inv.keys[i];
      if e.name == name {
        forall j | 0 <= j < |inv.keys| && inv.keys[j].name == name ensures inv.keys[j] == e {
          KeysApart(inv.keys, i, j);
        }
        return if e.status == VerifyOnly then Some(e) else None;
      }
    }
    entry := None;
  }

  // Only the pair under the label went, each half the only one of its class there, the
  // private half if the public one did; and the public half carried the listed key.
  ghost predicate RemovesListed(objects: Objects, objects': Objects, name: string, listed: PublicKey) {
    && OnlyRemoves(objects, objects', name) && NoOrphan(objects, objects', name)
    && (objects' != objects ==>
          && (exists h <- objects :: Holding(objects, PublicObject, name) == {h} && objects[h].point == listed)
          && (exists h <- objects :: Holding(objects, PrivateObject, name) == {h}))
  }

  // The two halves under a label belong together.
  ghost predicate Paired(objects: Objects, name: string) {
    forall h <- Holding(objects, PublicObject, name), g <- Holding(objects, PrivateObject, name) ::
      objects[h].point == objects[g].point
  }

  // Nothing of another key went.
  ghost predicate RemovesOnly(objects: Objects, objects': Objects, key: PublicKey) {
    forall h <- objects :: h !in objects' ==> objects[h].point == key
  }

  /**
  On any token: a retirement that took a private half took the listed key and no other
  exactly when the two halves under the label belong together.
  */
  lemma RetireTakesListedIff(objects: Objects, objects': Objects, name: string, listed: PublicKey, g: Handle)
    requires RemovesListed(objects, objects', name, listed)
    requires g in objects && g !in objects' && objects[g].class_ == PrivateObject
    ensures RemovesOnly(objects, objects', listed) <==> Paired(objects, name)
  {
    var pub: Handle :| pub in objects && Holding(objects, PublicObject, name) == {pub} && objects[pub].point == listed;
    assert g in Holding(objects, PrivateObject, name) && pub in Holding(objects, PublicObject, name);
    forall h <- objects | h !in objects' ensures h == pub || h == g {
      assert objects[h].class_ == PublicObject ==> h in Holding(objects, PublicObject, name);
    }
  }

  /** A token on which it takes another key: someone paired the listed public half with a stranger's private one. */
  lemma RetireCanTakeAnother(name: string, curve: Curve, listed: PublicKey, other: PublicKey) returns (objects: Objects)
    requires listed.Ec? && listed.curve == curve && other != listed
    ensures exists key: Key :: key.name == name && key.public == listed && Describes(objects, key, curve)
    ensures Destroys(objects, true, name, Destroyed(true, true), map[])
    ensures RemovesListed(objects, map[], name, listed) && !RemovesOnly(objects, map[], listed)
  {
    objects := map[0 := KeyObject(PublicObject, name, listed, false, true), 1 := KeyObject(PrivateObject, name, other, true, false)];
    assert Holding(objects, PublicObject, name) == {0} && Holding(objects, PrivateObject, name) == {1};
    assert Describes(objects, Key(name, listed, true, false), curve);
    assert objects - {1} - {0} == map[];
    DestroysOnlyThePair(objects, true, name, Destroyed(true, true), map[]);
    NoOrphanIff(objects, true, name, Destroyed(true, true), map[]);
    assert objects[1].point != listed;
  }

  // The one object of its class under a live label is the provisioned key's.
  lemma OneUnderLive(objects: Objects, class_: ObjectClass, name: string, key: PublicKey, h: Handle)
    requires Holds(objects, class_, name, key) && h in objects && Holding(objects, class_, name) == {h}
    ensures objects[h].point == key
  {
    var held :| held in objects && Carries(objects[held], class_, name) && objects[held].point == key;
    assert held in Holding(objects, class_, name);
  }

  /** A provisioned label, of which no half was destroyed since, is such a pair: every object that goes is the listed key. */
  lemma RetiredIsListed(objects: Objects, objects': Objects, live: Live, name: string, listed: PublicKey)
    requires Kept(objects, live) && name in live && RemovesListed(objects, objects', name, listed) && objects' != objects
    ensures listed == live[name] && Paired(objects, name) && RemovesOnly(objects, objects', listed)
  {
    var pub: Handle :| pub in objects && Holding(objects, PublicObject, name) == {pub} && objects[pub].point == listed;
    var priv: Handle :| priv in objects && Holding(objects, PrivateObject, name) == {priv};
    OneUnderLive(objects, PublicObject, name, live[name], pub);
    OneUnderLive(objects, PrivateObject, name, live[name], priv);
    forall h <- objects | h !in objects' ensures objects[h].point == listed {
      assert if objects[h].class_ == PublicObject then h in Holding(objects, PublicObject, name) else h in Holding(objects, PrivateObject, name);
    }
  }

  // The listed key is the one pair under the label, on the curve.
  ghost predicate HoldsListed(objects: Objects, name: string, curve: Curve, listed: PublicKey) {
    exists key: Key :: key.name == name && key.public == listed && Describes(objects, key, curve)
  }

  method RetireSigningKey(a: Adapter, ws: Workspace, name: string, curve: Curve, listed: PublicKey)
    returns (destroyed: Destroyed, err: Option<ChainError>)
    modifies a`tokens, a`anchor, a`authenticated, a`trace, a`failures
    ensures a.failures >= old(a.failures)
    ensures a.failures == old(a.failures) ==> (err == None <==> old(a.anchor == None && a.Present(ws) && HoldsListed(a.ObjectsOf(ws), name, curve, listed)))
    ensures a.anchor == old(a.anchor) && a.tokens.Keys == old(a.tokens).Keys
    ensures !a.Present(ws) ==> a.tokens == old(a.tokens) && err.Some?
    ensures a.Present(ws) ==>
              && (forall t <- a.tokens :: t != a.TokenOf(ws) ==> a.tokens[t] == old(a.tokens)[t])
              && RemovesListed(old(a.ObjectsOf(ws)), a.ObjectsOf(ws), name, listed)
    ensures err == None || err == Some(LogoutFailed) ==>
              && a.Present(ws) && destroyed == Destroyed(true, true)
              && Holding(a.ObjectsOf(ws), PrivateObject, name) == {} && Holding(a.ObjectsOf(ws), PublicObject, name) == {}
  {
    destroyed := Destroyed(false, false);
    if a.anchor.Some? {
      return destroyed, Some(AlreadyAuthenticated);
    }
    var ok := a.LoginToken(ws);
    if !ok {
      return destroyed, Some(LoginFailed);
    }
    destroyed, err := DestroyListed(a, ws, name, curve, listed);
    ok := a.LogoutToken();
    if !ok && err == None {
      err := Some(LogoutFailed);
    }
  }

  lemma LoadedIsListed(objects: Objects, key: Key, curve: Curve, listed: PublicKey)
    requires Describes(objects, key, curve)
    ensures HoldsListed(objects, key.name, curve, listed) <==> key.public == listed
    ensures |Holding(objects, PublicObject, key.name)| == 1 && |Holding(objects, PrivateObject, key.name)| == 1
  {
    if |Holding(objects, PublicObject, key.name)| != 1 || |Holding(objects, PrivateObject, key.name)| != 1 {
      NotLoadable(objects, key.name, curve);
    }
    if other: Key :| other.name == key.name && other.public == listed && Describes(objects, other, curve) {
      DescribedOnce(objects, other, key, curve);
    }
  }

  // What a retirement needs: a label the document lists as verify-only with a key on a known
  // curve, nobody logged in, and that key alone under the label.
  ghost predicate CanRetire(a: Adapter, ws: Workspace, inv: Inventory, name: string)
    reads a`tokens, a`anchor
  {
    && VersionedLabel(name) && Rules(inv) && a.anchor == None && a.Present(ws)
    && exists e <- inv.keys ::
         && e.name == name && e.status == VerifyOnly && KeyOf(e).Some? && ParseCurve(e.curve).Some?
         && HoldsListed(a.ObjectsOf(ws), name, ParseCurve(e.curve).value, KeyOf(e).value)
  }

  // Inside the login. The key is loaded, not verified: one on its way out need not be protected.
  method DestroyListed(a: Adapter, ws: Workspace, name: string, curve: Curve, listed: PublicKey)
    returns (destroyed: Destroyed, err: Option<ChainError>)
    requires a.Present(ws) && a.TokenOf(ws) in a.authenticated
    modifies a`tokens, a`trace, a`failures
    ensures a.failures >= old(a.failures)
    ensures a.failures == old(a.failures) ==> (err == None <==> old(HoldsListed(a.ObjectsOf(ws), name, curve, listed)))
    ensures a.Present(ws) && a.tokens.Keys == old(a.tokens).Keys
    ensures forall t <- a.tokens :: t != a.TokenOf(ws) ==> a.tokens[t] == old(a.tokens)[t]
    ensures RemovesListed(old(a.ObjectsOf(ws)), a.ObjectsOf(ws), name, listed)
    ensures err != Some(LogoutFailed)
    ensures err == None ==>
              && destroyed == Destroyed(true, true)
              && Holding(a.ObjectsOf(ws), PrivateObject, name) == {} && Holding(a.ObjectsOf(ws), PublicObject, name) == {}
  {
    destroyed := Destroyed(false, false);
    var opens := a.Works();
    if !opens {
      return destroyed, Some(SessionFailed);
    }
    var key := Load(a, ws, name, curve);
    if key.Err? {
      return destroyed, Some(KeyUnusable(key.error));
    }
    LoadedIsListed(a.ObjectsOf(ws), key.value, curve, listed);
    if !SameKey(key.value.public, listed) {
      return destroyed, Some(NotTheListedKey);
    }
    var failed: Option<KeyError>;
    ghost var before := a.ObjectsOf(ws);
    destroyed, failed := SigningKey.Destroy(a, ws, name);
    DestroysOnlyThePair(before, true, name, destroyed, a.ObjectsOf(ws));
    err := if failed.Some? then Some(KeyUnusable(failed.value)) else None;
  }

  /** retire-signing-key: it removes only a key the document lists as verify-only. */
  method Retire(a: Adapter, ws: Workspace, inv: Inventory, name: string) returns (destroyed: Destroyed, err: Option<ChainError>)
    modifies a`tokens, a`anchor, a`authenticated, a`trace, a`failures
    ensures a.failures >= old(a.failures)
    ensures a.failures == old(a.failures) ==> (err == None <==> old(CanRetire(a, ws, inv, name)))
    ensures a.anchor == old(a.anchor) && a.tokens.Keys == old(a.tokens).Keys
    ensures !a.Present(ws) ==> a.tokens == old(a.tokens)
    ensures a.Present(ws) ==> forall t <- a.tokens :: t != a.TokenOf(ws) ==> a.tokens[t] == old(a.tokens)[t]
    ensures a.tokens != old(a.tokens) ==>
              && Rules(inv) && a.Present(ws)
              && exists e <- inv.keys ::
                   && e.name == name && e.status == VerifyOnly && KeyOf(e).Some?
                   && RemovesListed(old(a.ObjectsOf(ws)), a.ObjectsOf(ws), name, KeyOf(e).value)
    ensures err == None ==> a.Present(ws) && Holding(a.ObjectsOf(ws), PrivateObject, name) == {}
  {
    destroyed := Destroyed(false, false);
    if !VersionedLabel(name) {
      return destroyed, Some(KeyUnusable(BadLabel));
    }
    var why := Validate(inv);
    if why.Some? {
      return destroyed, Some(PreviousInvalid(why.value));
    }
    var entry := RetirableEntry(inv, name);
    if entry.None? {
      return destroyed, Some(NotRetirable);
    }
    var e := entry.value;
    assert EntryRules(e);
    var curve := ParseCurve(e.curve);
    if curve.None? {
      return destroyed, Some(UnknownCurve);
    }
    destroyed, err := RetireSigningKey(a, ws, name, curve.value, KeyOf(e).value);
  }

  // Runs.

  function LatestOf(docs: seq<Inventory>): Option<Inventory> {
    if docs == [] then None else Some(docs[|docs| - 1])
  }

  ghost predicate Linked(docs: seq<Inventory>, k: nat)
    requires k < |docs|
  {
    Rules(docs[k]) && Follows(LatestOf(docs[..k]), docs[k])
  }

  // Successive documents of one chain, the first generated from none.
  ghost predicate Chain(docs: seq<Inventory>) {
    forall k :: 0 <= k < |docs| ==> Linked(docs, k)
  }

  lemma LinkOne(docs: seq<Inventory>, doc: Inventory)
    requires Chain(docs) && Rules(doc) && Follows(LatestOf(docs), doc)
    ensures Chain(docs + [doc])
  {
    var longer := docs + [doc];
    assert longer[..|docs|] == docs && longer[|docs|] == doc;
    forall k | 0 <= k < |docs| ensures Linked(longer, k) {
      assert Linked(docs, k) && longer[..k] == docs[..k];
    }
  }

  /** Versions count the documents: they rise by one each time. */
  lemma {:induction false} VersionsCount(docs: seq<Inventory>, k: nat)
    requires Chain(docs) && k < |docs|
    ensures docs[k].version == k + 1
  {
    assert Linked(docs, k);
    if k == 0 {
    } else {
      VersionsCount(docs, k - 1);
    }
  }

  ghost predicate ListedThroughout(docs: seq<Inventory>, i: nat, j: nat, name: string) {
    forall k :: i <= k <= j && k < |docs| ==> exists e <- docs[k].keys :: e.name == name
  }

  /** A label listed in every document of a stretch has one valid_from throughout. */
  lemma {:induction false} DatesAreKept(docs: seq<Inventory>, i: nat, j: nat, e: Entry, f: Entry)
    requires Chain(docs) && i <= j < |docs| && e in docs[i].keys && f in docs[j].keys && e.name == f.name
    requires ListedThroughout(docs, i, j, e.name)
    ensures f.validFrom == e.validFrom
    decreases j
  {
    assert Linked(docs, j);
    if i == j {
      PriorIsUnique(docs[i].keys, e);
      PriorIsUnique(docs[i].keys, f);
    } else {
      var g :| g in docs[j - 1].keys && g.name == e.name;
      DatesAreKept(docs, i, j - 1, e, g);
    }
  }

  datatype KeytoolCommand =
    | ProvisionNew(name: string, curve: Curve)
    | GenerateNext(specs: seq<KeySpec>, curve: Curve, validity: Span, readAt: Instant, now: Instant)
    | RetireListed(name: string)
    | KeyByOther(name: string, curve: Curve)

  // One command as the token saw it: the latest document then, the one it generated, the
  // key it made, and the objects before and after.
  datatype TokenStep = TokenStep(
    command: KeytoolCommand,
    latest: Option<Inventory>,
    doc: Option<Inventory>,
    made: Option<PublicKey>,
    before: Objects,
    after: Objects
  )

  // The keys provisioned in a run of which no half was destroyed since.
  ghost function LiveThen(live: Live, step: TokenStep): Live {
    if step.command.ProvisionNew? && step.made.Some? then live[step.command.name := step.made.value]
    else if step.command.RetireListed? && step.after != step.before then live - {step.command.name}
    else live
  }

  ghost function LiveOver(history: seq<TokenStep>): Live {
    if history == [] then map[] else LiveThen(LiveOver(history[..|history| - 1]), history[|history| - 1])
  }

  // The documents generated in a run, in order.
  ghost function DocsOver(history: seq<TokenStep>): seq<Inventory> {
    if history == [] then []
    else
      var docs, doc := DocsOver(history[..|history| - 1]), history[|history| - 1].doc;
      if doc.Some? then docs + [doc.value] else docs
  }

  // What a document lists under a live label is the key provisioned there, and not as retired.
  ghost predicate ListsLive(doc: Inventory, live: Live) {
    forall e <- doc.keys :: e.name in live ==> e.status != Retired && e.publicKey == PublicKeyPem(live[e.name])
  }

  // A generated document keeps the rules, follows the latest one, and says of the token and
  // of the live keys what is so.
  ghost predicate Generates(step: TokenStep, doc: Inventory, live: Live)
    requires step.command.GenerateNext?
  {
    var c := step.command;
    && Rules(doc) && Follows(step.latest, doc)
    && TrueOf(doc, step.before, c.curve) && ListsLive(doc, live)
    && ReadFrom(doc, c.specs, step.latest, step.before, c.curve, TruncateToSecond(c.readAt))
  }

  // A change to the token by a retirement is the removal of a key the latest document lists
  // as verify-only; under a live label everything removed is that key.
  ghost predicate RetiresListed(step: TokenStep, live: Live)
    requires step.command.RetireListed?
  {
    step.after != step.before ==>
      && step.latest.Some?
      && exists e <- step.latest.value.keys ::
           && e.name == step.command.name && e.status == VerifyOnly && KeyOf(e).Some?
           && RemovesListed(step.before, step.after, e.name, KeyOf(e).value)
           && (e.name in live ==> live[e.name] == KeyOf(e).value && RemovesOnly(step.before, step.after, live[e.name]))
  }

  // What each command may do to the token.
  ghost predicate StepOk(step: TokenStep, live: Live) {
    match step.command
    case ProvisionNew(name, curve) =>
      && OnlyAdds(step.before, step.after, name) && (step.after != step.before ==> VersionedLabel(name))
      && (step.made.Some? ==> exists key: Key :: key.public == step.made.value && Provisioned(step.before, step.after, key, name, curve))
    case GenerateNext(_, _, _, _, _) => step.after == step.before && (step.doc.Some? ==> Generates(step, step.doc.value, live))
    case RetireListed(_) => RetiresListed(step, live)
    case KeyByOther(name, curve) => step.after == step.before || AddsPair(step.before, step.after, curve, name)
  }

  // Documents come from regenerations alone, and keys from provisionings.
  ghost predicate StepYields(step: TokenStep) {
    (step.doc.Some? ==> step.command.GenerateNext?) && (step.made.Some? ==> step.command.ProvisionNew?)
  }

  ghost predicate StepAt(history: seq<TokenStep>, k: nat)
    requires k < |history|
  {
    && StepOk(history[k], LiveOver(history[..k])) && StepYields(history[k])
    && history[k].latest == LatestOf(DocsOver(history[..k]))
  }

  // The steps lead from one token to the other.
  ghost predicate Joined(history: seq<TokenStep>, first: Objects, last: Objects) {
    && (if history == [] then last == first else history[0].before == first && history[|history| - 1].after == last)
    && (forall k :: 0 < k < |history| ==> history[k].before == history[k - 1].after)
  }

  // They lead there, each in order.
  ghost predicate History(history: seq<TokenStep>, first: Objects, last: Objects) {
    Joined(history, first, last) && forall k :: 0 <= k < |history| ==> StepAt(history, k)
  }

  lemma StepStaysOk(history: seq<TokenStep>, step: TokenStep, k: nat)
    requires k < |history| && StepAt(history, k)
    ensures StepAt(history + [step], k)
  {
    assert (history + [step])[..k] == history[..k];
  }

  lemma OverOneMore(history: seq<TokenStep>, step: TokenStep)
    ensures LiveOver(history + [step]) == LiveThen(LiveOver(history), step)
    ensures DocsOver(history + [step]) == if step.doc.Some? then DocsOver(history) + [step.doc.value] else DocsOver(history)
  {
    var longer := history + [step];
    assert longer[..|history|] == history && longer[|history|] == step;
  }

  lemma LastStepIsOk(history: seq<TokenStep>, step: TokenStep)
    requires StepOk(step, LiveOver(history)) && StepYields(step) && step.latest == LatestOf(DocsOver(history))
    ensures StepAt(history + [step], |history|)
  {
    OneMore(history, step);
  }

  lemma OneMore<T>(before: seq<T>, last: T)
    ensures (before + [last])[..|before|] == before && (before + [last])[|before|] == last
  {
  }

  lemma JoinOne(history: seq<TokenStep>, first: Objects, step: TokenStep)
    requires Joined(history, first, step.before)
    ensures Joined(history + [step], first, step.after)
  {
  }

  lemma OneMoreStep(history: seq<TokenStep>, first: Objects, step: TokenStep)
    requires History(history, first, step.before)
    requires StepOk(step, LiveOver(history)) && StepYields(step) && step.latest == LatestOf(DocsOver(history))
    ensures History(history + [step], first, step.after)
  {
    LastStepIsOk(history, step);
    JoinOne(history, first, step);
    forall k | 0 <= k < |history| ensures StepAt(history + [step], k) {
      StepStaysOk(history, step, k);
    }
  }

  // The labels of the CA hierarchy, whatever prefix a deployment puts before them.

  const ROOT_KEY := "ca-root-key-v"
  const INTERMEDIATE_KEY := "ca-intermediate-key-v"

  // The stem and a version, and nothing else.
  predicate Versioned(text: string, stem: string) {
    |stem| < |text| && text[..|stem|] == stem && forall c <- text[|stem|..] :: IsDigit(c)
  }

  predicate FromHere(text: string) {
    Versioned(text, ROOT_KEY) || Versioned(text, INTERMEDIATE_KEY)
  }

  predicate CaHierarchyLabel(name: string) {
    FromHere(name) || exists i :: 0 < i <= |name| && name[i - 1] == '-' && FromHere(name[i..])
  }

  predicate Spells(name: string, before: string, stem: string, version: string) {
    && name == before + stem + version && (before == "" || before[|before| - 1] == '-')
    && (stem == ROOT_KEY || stem == INTERMEDIATE_KEY)
    && version != "" && forall c <- version :: IsDigit(c)
  }

  lemma SpelledIsLabel(name: string, before: string, stem: string, version: string)
    requires Spells(name, before, stem, version)
    ensures CaHierarchyLabel(name)
  {
    var text := stem + version;
    assert text[..|stem|] == stem && text[|stem|..] == version;
    assert FromHere(text);
    assert name[|before|..] == text;
    if before == "" {
      assert name == text;
    } else {
      assert name[|before| - 1] == '-';
    }
  }

  lemma InThree(s: string, i: nat, k: nat)
    requires i + k <= |s|
    ensures s == s[..i] + s[i..][..k] + s[i..][k..]
  {
  }

  lemma LabelIsSpelled(name: string, i: nat, stem: string)
    requires i <= |name| && (i == 0 || name[i - 1] == '-') && (stem == ROOT_KEY || stem == INTERMEDIATE_KEY)
    requires Versioned(name[i..], stem)
    ensures exists before, version :: Spells(name, before, stem, version)
  {
    var before, version := name[..i], name[i..][|stem|..];
    InThree(name, i, |stem|);
    assert Spells(name, before, stem, version);
  }

  /** Exactly the ceremony's labels: a version after either stem, after nothing or a prefix that ends in a hyphen. */
  lemma CaLabelIff(name: string)
    ensures CaHierarchyLabel(name) <==> exists before, stem, version :: Spells(name, before, stem, version)
  {
    if before, stem, version :| Spells(name, before, stem, version) {
      SpelledIsLabel(name, before, stem, version);
    }
    if FromHere(name) {
      assert name[0..] == name;
      FoundIsSpelled(name, 0);
    } else if i :| 0 < i <= |name| && name[i - 1] == '-' && FromHere(name[i..]) {
      FoundIsSpelled(name, i);
    }
  }

  lemma FoundIsSpelled(name: string, i: nat)
    requires i <= |name| && (i == 0 || name[i - 1] == '-') && FromHere(name[i..])
    ensures exists before, stem, version :: Spells(name, before, stem, version)
  {
    LabelIsSpelled(name, i, if Versioned(name[i..], ROOT_KEY) then ROOT_KEY else INTERMEDIATE_KEY);
  }

  ghost predicate HoldsCaKey(objects: Objects) {
    exists h <- objects :: objects[h].class_ == PrivateObject && CaHierarchyLabel(objects[h].name)
  }

  // Nobody is logged in, the label is free and no CA key is on the token.
  ghost predicate CanProvision(a: Adapter, ws: Workspace, name: string)
    reads a`tokens, a`anchor
  {
    a.anchor == None && a.Present(ws) && Free(a.ObjectsOf(ws), name) && !HoldsCaKey(a.ObjectsOf(ws))
  }

  // A token holding a CA hierarchy's private key takes no signing key. A label that cannot
  // be read is one this cannot clear.
  method CheckNoCaHierarchyKey(a: Adapter, ws: Workspace) returns (ok: bool)
    requires a.Present(ws) && a.TokenOf(ws) in a.authenticated
    modifies a`failures
    ensures a.failures >= old(a.failures)
    ensures ok <==> !HoldsCaKey(a.ObjectsOf(ws)) && a.failures == old(a.failures)
  {
    var found := a.ListObjects(ws, PrivateObject);
    if found.None? {
      return false;
    }
    var handles := found.value;
    for i := 0 to |handles|
      invariant a.failures == old(a.failures)
      invariant forall j :: 0 <= j < i ==> !CaHierarchyLabel(a.ObjectsOf(ws)[handles[j]].name)
    {
      assert handles[i] in handles;
      var read := a.GetAttributes(ws, handles[i]);
      if read.None? || CaHierarchyLabel(read.value.name) {
        return false;
      }
    }
    ok := true;
  }

  /**
  Provisioning holds the login for one key and gives it back; a failed logout does not take
  the key back. No key is made on a token that holds one of the CA hierarchy's. When no call
  fails, a free label gets a key unless the one generated repeats another or is left
  readable or wrappable.
  */
  method ProvisionSigningKey(a: Adapter, ws: Workspace, name: string, curve: Curve) returns (made: Option<PublicKey>, err: Option<ChainError>)
    requires a.Present(ws)
    modifies a`tokens, a`anchor, a`authenticated, a`trace, a`made, a`failures
    ensures a.failures >= old(a.failures)
    ensures a.Present(ws) && (a.ObjectsOf(ws) != old(a.ObjectsOf(ws)) ==> old(!HoldsCaKey(a.ObjectsOf(ws))))
    ensures a.failures == old(a.failures) && VersionedLabel(name) && old(CanProvision(a, ws, name)) ==>
              && |a.made| == |old(a.made)| + 1
              && (|| (err == None && made == Some(a.made[|old(a.made)|]))
                  || (err.Some? && err.value.KeyUnusable? && RefusesPair(err.value.keyError)
                      && Settled(Err(err.value.keyError), old(a.ObjectsOf(ws)), a.ObjectsOf(ws), name, curve, a.made[|old(a.made)|], false)))
    ensures a.Present(ws) && a.anchor == old(a.anchor) && a.tokens.Keys == old(a.tokens).Keys
    ensures OnlyAdds(old(a.ObjectsOf(ws)), a.ObjectsOf(ws), name)
    ensures a.ObjectsOf(ws) != old(a.ObjectsOf(ws)) ==> VersionedLabel(name)
    ensures made.Some? ==> exists key: Key ::
              key.public == made.value && Provisioned(old(a.ObjectsOf(ws)), a.ObjectsOf(ws), key, name, curve)
    ensures made.Some? <==> err == None || err == Some(LogoutFailed)
  {
    if a.anchor.Some? {
      return None, Some(AlreadyAuthenticated);
    }
    var ok := a.LoginToken(ws);
    if !ok {
      return None, Some(LoginFailed);
    }
    made, err := None, Some(SessionFailed);
    var opens := a.Works();
    if opens {
      opens := CheckNoCaHierarchyKey(a, ws);
    }
    if opens {
      var key := Provision(a, ws, name, curve);
      if key.Ok? {
        made, err := Some(key.value.public), None;
      } else {
        err := Some(KeyUnusable(key.error));
      }
    }
    ok := a.LogoutToken();
    if !ok && err == None {
      err := Some(LogoutFailed);
    }
  }

  // A pair made by something else between two commands.
  method MakeOther(a: Adapter, ws: Workspace, name: string, curve: Curve)
    requires a.Present(ws)
    modifies a`tokens, a`anchor, a`authenticated, a`trace, a`made, a`failures
    ensures a.failures >= old(a.failures)
    ensures a.Present(ws)
    ensures a.ObjectsOf(ws) == old(a.ObjectsOf(ws)) || AddsPair(old(a.ObjectsOf(ws)), a.ObjectsOf(ws), curve, name)
  {
    var ok := a.LoginToken(ws);
    if ok {
      var _ := a.GenerateKeyPair(ws, curve, name, true);
      var _ := a.LogoutToken();
    }
  }

  // What is live stays on the token through each command.

  lemma ProvisionKeeps(step: TokenStep, live: Live)
    requires Kept(step.before, live) && step.command.ProvisionNew? && StepOk(step, live)
    ensures Kept(step.after, LiveThen(live, step))
  {
    if step.made.Some? {
      var key: Key :| key.public == step.made.value && Provisioned(step.before, step.after, key, step.command.name, step.command.curve);
      ProvisionedIsNew(step.before, step.after, live, key, step.command.name, step.command.curve);
    } else {
      KeptStays(step.before, step.after, live);
    }
  }

  lemma RetireKeeps(step: TokenStep, live: Live)
    requires Kept(step.before, live) && step.command.RetireListed? && RetiresListed(step, live)
    ensures Kept(step.after, LiveThen(live, step))
  {
    if step.after != step.before {
      assert OnlyRemoves(step.before, step.after, step.command.name);
      KeptStays(step.before, step.after, live - {step.command.name});
    }
  }

  lemma StepKeeps(step: TokenStep, live: Live)
    requires Kept(step.before, live) && StepOk(step, live)
    ensures Kept(step.after, LiveThen(live, step))
  {
    match step.command {
      case ProvisionNew(_, _) => ProvisionKeeps(step, live);
      case GenerateNext(_, _, _, _, _) =>
      case RetireListed(_) => RetireKeeps(step, live);
      case KeyByOther(_, _) => KeptStays(step.before, step.after, live);
    }
  }

  // On a token without unlabelled keys they stay distinct, unless others leave one there.
  lemma StepKeepsDistinct(step: TokenStep, live: Live)
    requires Kept(step.before, live) && StepOk(step, live)
    requires Distinct(live) && NoUnlabelled(step.before) && (step.command.KeyByOther? ==> step.command.name != "")
    ensures Distinct(LiveThen(live, step)) && NoUnlabelled(step.after)
  {
    match step.command {
      case ProvisionNew(name, curve) =>
        var answer := if step.made.Some? then Made(step.made.value) else NoChange;
        CommandKeepsDistinct(ProvisionKey(name, curve), answer, step.before, step.after, live);
      case GenerateNext(_, _, _, _, _) =>
      case RetireListed(name) =>
        if step.after != step.before {
          assert OnlyRemoves(step.before, step.after, name);
        }
      case KeyByOther(name, curve) =>
        CommandKeepsDistinct(Command.OtherKey(name, curve), NoChange, step.before, step.after, live);
    }
  }

  ghost predicate OthersLabelTheirs(commands: seq<KeytoolCommand>) {
    forall c <- commands :: c.KeyByOther? ==> c.name != ""
  }

  lemma OneLabels(commands: seq<KeytoolCommand>, i: nat)
    requires OthersLabelTheirs(commands) && i < |commands|
    ensures commands[i].KeyByOther? ==> commands[i].name != ""
  {
  }

  // A document true of the token is true of the keys provisioned there.
  lemma TrueOfLive(doc: Inventory, objects: Objects, curve: Curve, live: Live)
    requires TrueOf(doc, objects, curve) && Kept(objects, live)
    ensures ListsLive(doc, live)
  {
    forall e <- doc.keys | e.name in live ensures e.status != Retired && e.publicKey == PublicKeyPem(live[e.name]) {
      HeldIsTaken(objects, PrivateObject, e.name, live[e.name]);
      var key: Key :| key.name == e.name && Describes(objects, key, curve) && e.publicKey == PublicKeyPem(key.public);
      var h: Handle :| h in Holding(objects, PublicObject, key.name);
      LivePairIsWhole(objects, live, key, curve, h);
    }
  }

  // One command, against the latest document.
  method ExecuteKeytool(a: Adapter, ws: Workspace, invWs: Workspace, invKeyLabel: string, command: KeytoolCommand,
                        latest: Option<Inventory>, ghost live: Live)
    returns (doc: Option<Inventory>, made: Option<PublicKey>)
    requires a.Present(ws) && Kept(a.ObjectsOf(ws), live)
    modifies a`tokens, a`anchor, a`authenticated, a`trace, a`made, a`failures
    ensures a.failures >= old(a.failures)
    ensures a.failures == old(a.failures) ==>
              match command
              case ProvisionNew(name, curve) =>
                VersionedLabel(name) && old(CanProvision(a, ws, name)) ==>
                  && |a.made| == |old(a.made)| + 1
                  && (|| made == Some(a.made[|old(a.made)|])
                      || exists e :: RefusesPair(e) && a.Present(ws)
                                     && Settled(Err(e), old(a.ObjectsOf(ws)), a.ObjectsOf(ws), name, curve, a.made[|old(a.made)|], false))
              case GenerateNext(specs, curve, validity, readAt, now) =>
                doc.Some? <==> old(CanGenerate(a, ws, invWs, specs, curve, validity, latest, invKeyLabel, readAt, now))
              case RetireListed(name) =>
                (latest.Some? && old(CanRetire(a, ws, latest.value, name)) ==> a.Present(ws) && Holding(a.ObjectsOf(ws), PrivateObject, name) == {})
              case KeyByOther(_, _) => true
    ensures a.Present(ws)
    ensures
      var step := TokenStep(command, latest, doc, made, old(a.ObjectsOf(ws)), a.ObjectsOf(ws));
      StepOk(step, live) && StepYields(step)
  {
    ghost var before := a.ObjectsOf(ws);
    doc, made := None, None;
    match command {
      case ProvisionNew(name, curve) =>
        var err;
        made, err := ProvisionSigningKey(a, ws, name, curve);
      case GenerateNext(specs, curve, validity, readAt, now) =>
        var generated := GenerateInventory(a, ws, invWs, specs, curve, validity, latest, invKeyLabel, readAt, now);
        if generated.Ok? {
          doc := Some(generated.value);
          TrueOfLive(generated.value, before, curve, live);
        }
      case RetireListed(name) =>
        if latest.Some? {
          ghost var tokens := a.tokens;
          var _, _ := Retire(a, ws, latest.value, name);
          ghost var after := a.ObjectsOf(ws);
          if after != before {
            assert a.tokens != tokens;
            ghost var e :| e in latest.value.keys && e.name == name && e.status == VerifyOnly && KeyOf(e).Some?
                           && RemovesListed(before, after, name, KeyOf(e).value);
            if name in live {
              RetiredIsListed(before, after, live, name, KeyOf(e).value);
            }
          }
        }
      case KeyByOther(name, curve) =>
        MakeOther(a, ws, name, curve);
    }
  }

  /**
  Over every run of provisionings, regenerations from the latest document, retirements by it
  and keys made by others, for every schedule of faults and every generator: the documents
  are those the history generated and form one chain. Each was, when generated, read off the
  token as asked, with no retired label holding a private half and every live label listing
  its own key. Each retirement removed only a key the latest document lists as verify-only,
  and under a live label only objects of that key. Keys provisioned and not retired since
  are there, and distinct if the token held no unlabelled key at first and others left none.
  */
  method RunKeytool(a: Adapter, ws: Workspace, invWs: Workspace, invKeyLabel: string, commands: seq<KeytoolCommand>)
    returns (docs: seq<Inventory>, ghost history: seq<TokenStep>)
    requires a.Present(ws)
    modifies a`tokens, a`anchor, a`authenticated, a`trace, a`made, a`failures
    ensures a.failures >= old(a.failures)
    ensures Chain(docs) && forall k :: 0 <= k < |docs| ==> docs[k].version == k + 1
    ensures |history| == |commands| && forall k :: 0 <= k < |commands| ==> history[k].command == commands[k]
    ensures docs == DocsOver(history)
    ensures a.Present(ws) && History(history, old(a.ObjectsOf(ws)), a.ObjectsOf(ws))
    ensures Kept(a.ObjectsOf(ws), LiveOver(history))
    ensures old(NoUnlabelled(a.ObjectsOf(ws))) && OthersLabelTheirs(commands) ==> Distinct(LiveOver(history))
  {
    ghost var labelled := old(NoUnlabelled(a.ObjectsOf(ws))) && OthersLabelTheirs(commands);
    docs, history := [], [];
    for i := 0 to |commands|
      invariant a.Present(ws) && Chain(docs) && a.failures >= old(a.failures)
      invariant |history| == i && forall k :: 0 <= k < i ==> history[k].command == commands[k]
      invariant docs == DocsOver(history)
      invariant History(history, old(a.ObjectsOf(ws)), a.ObjectsOf(ws))
      invariant Kept(a.ObjectsOf(ws), LiveOver(history))
      invariant labelled ==> NoUnlabelled(a.ObjectsOf(ws)) && Distinct(LiveOver(history))
    {
      ghost var live, before := LiveOver(history), a.ObjectsOf(ws);
      var latest := LatestOf(docs);
      var doc, made := ExecuteKeytool(a, ws, invWs, invKeyLabel, commands[i], latest, live);
      ghost var step := TokenStep(commands[i], latest, doc, made, before, a.ObjectsOf(ws));
      StepKeeps(step, live);
      if labelled {
        OneLabels(commands, i);
        StepKeepsDistinct(step, live);
      }
      OneMoreStep(history, old(a.ObjectsOf(ws)), step);
      OverOneMore(history, step);
      history := history + [step];
      if doc.Some? {
        LinkOne(docs, doc.value);
        docs := docs + [doc.value];
      }
    }
    forall k | 0 <= k < |docs| ensures docs[k].version == k + 1 {
      VersionsCount(docs, k);
    }
  }
}
