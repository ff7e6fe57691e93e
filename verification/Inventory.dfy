/**
The published list of signing keys (internal/inventory): the validation loop against the
rules it stands for, the selectors a signer and a verifier use, and what holds of every
document that passes.
*/
module Inventory {
  import opened Certificate
  import opened Clock
  import opened Wrappers

  const SCHEMA := "hsm-pki-platform/key-inventory/v1"

  datatype Purpose = Image | Artifact | UnknownPurpose(text: string)

  datatype Status = Active | VerifyOnly | Retired | UnknownStatus(text: string)

  // A public_key field: one PUBLIC KEY block that parses, or anything else.
  datatype Pem = Unreadable | PublicKeyPem(key: PublicKey)

  datatype Entry = Entry(
    name: string,
    purpose: Purpose,
    curve: string,
    publicKey: Pem,
    validFrom: Instant,
    retiredAt: Option<Instant>,
    status: Status
  )

  datatype Inventory = Published(
    schema: string,
    version: int,
    generatedAt: Instant,
    validUntil: Instant,
    keys: seq<Entry>
  )

  datatype Invalid =
    | BadSchema | BadVersion | NoGeneratedAt | EmptyWindow | NoKeys
    | NoLabel | RepeatedLabel | BadPurpose | BadStatus | NoCurve | NoValidFrom
    | LifecycleMismatch | RetiredBeforeValid | BadKey | RepeatedKey

  datatype Expired = Expired

  function KeyOf(e: Entry): Option<PublicKey> {
    if e.publicKey.PublicKeyPem? && (e.publicKey.key.Ec? || e.publicKey.key.EcOther?) then Some(e.publicKey.key) else None
  }

  function Coordinates(e: Entry): (nat, nat)
    requires KeyOf(e).Some?
  {
    (e.publicKey.key.x, e.publicKey.key.y)
  }

  // The rules.

  predicate EntryRules(e: Entry) {
    && e.name != "" && !e.purpose.UnknownPurpose? && !e.status.UnknownStatus? && e.curve != ""
    && e.validFrom != ZERO_INSTANT
    && (e.status == Retired <==> e.retiredAt.Some?)
    && (e.retiredAt.Some? ==> e.validFrom <= e.retiredAt.value)
    && KeyOf(e).Some?
  }

  predicate HeaderRules(inv: Inventory) {
    && inv.schema == SCHEMA && inv.version >= 1 && inv.generatedAt != ZERO_INSTANT
    && inv.generatedAt < inv.validUntil && inv.keys != []
  }

  ghost predicate Apart(e: Entry, f: Entry)
    requires EntryRules(e) && EntryRules(f)
  {
    e.name != f.name && Coordinates(e) != Coordinates(f)
  }

  // Unique labels and pairwise distinct points, each entry sound.
  ghost predicate KeyRules(keys: seq<Entry>) {
    && (forall i :: 0 <= i < |keys| ==> EntryRules(keys[i]))
    && (forall i, j :: 0 <= i < j < |keys| ==> Apart(keys[i], keys[j]))
  }

  ghost predicate Rules(inv: Inventory) {
    HeaderRules(inv) && KeyRules(inv.keys)
  }

  /**
  The rules, one by one: the schema, a version, dates in order, and keys with labels and
  points of their own, each for a known purpose, in a known status, on a named curve, dated,
  retired exactly if it says when, which is not before it was valid, and an EC key.
  */
  lemma RulesAre(inv: Inventory)
    ensures Rules(inv) <==>
              && inv.schema == "hsm-pki-platform/key-inventory/v1" && inv.version > 0
              && inv.generatedAt != ZERO_INSTANT && inv.generatedAt < inv.validUntil && |inv.keys| > 0
              && (forall e <- inv.keys ::
                    && e.name != "" && e.curve != "" && e.purpose in {Image, Artifact} && e.status in {Active, VerifyOnly, Retired}
                    && e.validFrom != ZERO_INSTANT
                    && (e.status == Retired ==> e.retiredAt.Some? && e.retiredAt.value >= e.validFrom)
                    && (e.status != Retired ==> e.retiredAt.None?)
                    && e.publicKey.PublicKeyPem? && (e.publicKey.key.Ec? || e.publicKey.key.EcOther?))
              && (forall i, j :: 0 <= i < |inv.keys| && 0 <= j < |inv.keys| && i != j ==>
                    && inv.keys[i].name != inv.keys[j].name
                    && (inv.keys[i].publicKey.key.x, inv.keys[i].publicKey.key.y) != (inv.keys[j].publicKey.key.x, inv.keys[j].publicKey.key.y))
  {
    assert (forall e <- inv.keys :: EntryRules(e)) <==> forall i :: 0 <= i < |inv.keys| ==> EntryRules(inv.keys[i]);
    if Rules(inv) {
      forall i: nat, j: nat | i < |inv.keys| && j < |inv.keys| && i != j
        ensures inv.keys[i].name != inv.keys[j].name && Coordinates(inv.keys[i]) != Coordinates(inv.keys[j])
      {
        KeysApart(inv.keys, i, j);
      }
    }
  }

  method ValidateHeader(inv: Inventory) returns (err: Option<Invalid>)
    ensures err == None <==> HeaderRules(inv)
  {
    if inv.schema != SCHEMA {
      return Some(BadSchema);
    }
    if inv.version < 1 {
      return Some(BadVersion);
    }
    if inv.generatedAt == ZERO_INSTANT {
      return Some(NoGeneratedAt);
    }
    if inv.validUntil <= inv.generatedAt {
      return Some(EmptyWindow);
    }
    err := if |inv.keys| == 0 then Some(NoKeys) else None;
  }

  // The checks of one entry after its label.
  method ValidateEntry(e: Entry) returns (err: Option<Invalid>)
    requires e.name != ""
    ensures err == None <==> EntryRules(e)
  {
    match e.purpose {
      case Image =>
      case Artifact =>
      case UnknownPurpose(_) => return Some(BadPurpose);
    }
    match e.status {
      case Active =>
      case VerifyOnly =>
      case Retired =>
      case UnknownStatus(_) => return Some(BadStatus);
    }
    if e.curve == "" {
      return Some(NoCurve);
    }
    if e.validFrom == ZERO_INSTANT {
      return Some(NoValidFrom);
    }
    if e.status == Retired && e.retiredAt.None? {
      return Some(LifecycleMismatch);
    }
    if e.status != Retired && e.retiredAt.Some? {
      return Some(LifecycleMismatch);
    }
    if e.retiredAt.Some? && e.retiredAt.value < e.validFrom {
      return Some(RetiredBeforeValid);
    }
    err := if KeyOf(e).None? then Some(BadKey) else None;
  }

  /** The loop, with the labels and the points seen so far, accepts exactly the documents meeting the rules. */
  method Validate(inv: Inventory) returns (err: Option<Invalid>)
    ensures err == None <==> Rules(inv)
  {
    err := ValidateHeader(inv);
    if err.Some? {
      return;
    }
    var seenLabel: set<string> := {};
    var seenKey: map<(nat, nat), string> := map[];
    for i := 0 to |inv.keys|
      invariant KeyRules(inv.keys[..i])
      invariant forall name :: name in seenLabel <==> exists j :: 0 <= j < i && inv.keys[j].name == name
      invariant forall id :: id in seenKey <==> exists j :: 0 <= j < i && KeyOf(inv.keys[j]).Some? && Coordinates(inv.keys[j]) == id
    {
      var e := inv.keys[i];
      if e.name == "" {
        return Some(NoLabel);
      }
      if e.name in seenLabel {
        assert exists j :: 0 <= j < i && Repeats(inv.keys[j], e);
        RepeatBreaksRules(inv.keys, i);
        return Some(RepeatedLabel);
      }
      seenLabel := seenLabel + {e.name};
      err := ValidateEntry(e);
      if err.Some? {
        return;
      }
      var id := (e.publicKey.key.x, e.publicKey.key.y);
      if id in seenKey {
        assert exists j :: 0 <= j < i && Repeats(inv.keys[j], e);
        RepeatBreaksRules(inv.keys, i);
        return Some(RepeatedKey);
      }
      seenKey := seenKey[id := e.name];
      OneMoreKey(inv.keys, i);
    }
    assert inv.keys[..|inv.keys|] == inv.keys;
    err := None;
  }

  lemma KeysApart(keys: seq<Entry>, i: nat, j: nat)
    requires i < |keys| && j < |keys| && KeyRules(keys)
    ensures i != j ==> keys[i].name != keys[j].name && Coordinates(keys[i]) != Coordinates(keys[j])
  {
    if i < j {
      assert Apart(keys[i], keys[j]);
    } else if j < i {
      assert Apart(keys[j], keys[i]);
    }
  }

  predicate Repeats(e: Entry, f: Entry) {
    e.name == f.name || (KeyOf(e).Some? && KeyOf(f).Some? && Coordinates(e) == Coordinates(f))
  }

  lemma RepeatBreaksRules(keys: seq<Entry>, i: nat)
    requires i < |keys|
    requires exists j :: 0 <= j < i && Repeats(keys[j], keys[i])
    ensures !KeyRules(keys)
  {
    var j :| 0 <= j < i && Repeats(keys[j], keys[i]);
    assert KeyRules(keys) ==> Apart(keys[j], keys[i]);
  }

  lemma OneMoreKey(keys: seq<Entry>, i: nat)
    requires i < |keys| && KeyRules(keys[..i]) && EntryRules(keys[i])
    requires forall j :: 0 <= j < i ==> keys[j].name != keys[i].name
    requires forall j :: 0 <= j < i ==> KeyOf(keys[j]).Some? ==> Coordinates(keys[j]) != Coordinates(keys[i])
    ensures KeyRules(keys[..i + 1])
  {
    var before, after := keys[..i], keys[..i + 1];
    forall j | 0 <= j < |after| ensures EntryRules(after[j]) {
      assert j < i ==> after[j] == before[j];
    }
    forall j, k | 0 <= j < k < |after| ensures Apart(after[j], after[k]) {
      assert after[j] == before[j] && EntryRules(before[j]);
      if k < i {
        assert Apart(before[j], before[k]);
      }
    }
  }

  // Selection.

  // What a selector's loop keeps.
  datatype Rule = SignsFor(purpose: Purpose) | VerifiesFor(purpose: Purpose) | ValidBy(now: Instant)

  predicate Keeps(rule: Rule, e: Entry) {
    match rule
    case SignsFor(p) => e.purpose == p && e.status == Active
    case VerifiesFor(p) => e.purpose == p && (e.status == Active || e.status == VerifyOnly)
    case ValidBy(now) => e.validFrom <= now
  }

  function Chosen(keys: seq<Entry>, rule: Rule): (r: seq<Entry>)
    ensures forall e :: e in r <==> e in keys && Keeps(rule, e)
  {
    if keys == [] then []
    else
      var n := |keys| - 1;
      assert keys == keys[..n] + [keys[n]];
      Chosen(keys[..n], rule) + if Keeps(rule, keys[n]) then [keys[n]] else []
  }

  // What a signer may use, and what a verifier may accept, at an instant.
  function SelectedOn(inv: Inventory, rule: Rule, now: Instant): Result<seq<Entry>, Expired> {
    if now > inv.validUntil then Err(Expired) else Ok(Chosen(Chosen(inv.keys, rule), ValidBy(now)))
  }

  // The loop of every selector.
  method Filter(keys: seq<Entry>, rule: Rule) returns (out: seq<Entry>)
    ensures out == Chosen(keys, rule)
  {
    out := [];
    for i := 0 to |keys|
      invariant out == Chosen(keys[..i], rule)
    {
      assert keys[..i + 1][..i] == keys[..i];
      if Keeps(rule, keys[i]) {
        out := out + [keys[i]];
      }
    }
    assert keys[..|keys|] == keys;
  }

  method ActiveAt(inv: Inventory, p: Purpose, now: Instant) returns (out: Result<seq<Entry>, Expired>)
    ensures out == SelectedOn(inv, SignsFor(p), now)
    ensures out.Ok? <==> now <= inv.validUntil
    ensures out.Ok? ==> forall e :: e in out.value <==> e in inv.keys && e.purpose == p && e.status == Active && e.validFrom <= now
  {
    if now > inv.validUntil {
      return Err(Expired);
    }
    var active := Filter(inv.keys, SignsFor(p));
    var entries := Filter(active, ValidBy(now));
    out := Ok(entries);
  }

  method VerifiableAt(inv: Inventory, p: Purpose, now: Instant) returns (out: Result<seq<Entry>, Expired>)
    ensures out == SelectedOn(inv, VerifiesFor(p), now)
    ensures out.Ok? <==> now <= inv.validUntil
    ensures out.Ok? ==> forall e :: e in out.value <==>
              e in inv.keys && e.purpose == p && (e.status == Active || e.status == VerifyOnly) && e.validFrom <= now
  {
    if now > inv.validUntil {
      return Err(Expired);
    }
    var verifiable := Filter(inv.keys, VerifiesFor(p));
    var entries := Filter(verifiable, ValidBy(now));
    out := Ok(entries);
  }

  /** A verifier may accept every key a signer may use, and neither holds a retired key or one not yet valid. */
  lemma SignersAreVerifiable(inv: Inventory, p: Purpose, now: Instant)
    ensures SelectedOn(inv, SignsFor(p), now).Ok? <==> now <= inv.validUntil
    ensures SelectedOn(inv, VerifiesFor(p), now).Ok? <==> now <= inv.validUntil
    ensures now <= inv.validUntil ==>
              && (forall e <- SelectedOn(inv, SignsFor(p), now).value :: e in SelectedOn(inv, VerifiesFor(p), now).value)
              && (forall e <- SelectedOn(inv, VerifiesFor(p), now).value :: e in inv.keys && e.purpose == p && e.status != Retired && e.validFrom <= now)
              && (forall e <- SelectedOn(inv, SignsFor(p), now).value :: e.status == Active)
  {
    if now <= inv.validUntil {
      forall e <- SelectedOn(inv, SignsFor(p), now).value ensures e in SelectedOn(inv, VerifiesFor(p), now).value {
        assert e in Chosen(inv.keys, SignsFor(p)) && Keeps(VerifiesFor(p), e);
      }
      forall e <- SelectedOn(inv, VerifiesFor(p), now).value
        ensures e in inv.keys && e.purpose == p && e.status != Retired && e.validFrom <= now
      {
        assert e in Chosen(inv.keys, VerifiesFor(p)) && Keeps(VerifiesFor(p), e);
      }
    }
  }

  /** In a valid document no point is selectable for two purposes, at any two instants. */
  lemma NoPointServesTwo(inv: Inventory, p: Purpose, q: Purpose, now: Instant, later: Instant, e: Entry, f: Entry)
    requires Rules(inv) && now <= inv.validUntil && later <= inv.validUntil
    requires e in SelectedOn(inv, VerifiesFor(p), now).value && f in SelectedOn(inv, VerifiesFor(q), later).value
    requires KeyOf(e).Some? && KeyOf(f).Some? && Coordinates(e) == Coordinates(f)
    ensures e == f && p == q
  {
    SignersAreVerifiable(inv, p, now);
    SignersAreVerifiable(inv, q, later);
    var i :| 0 <= i < |inv.keys| && inv.keys[i] == e;
    var j :| 0 <= j < |inv.keys| && inv.keys[j] == f;
    KeysApart(inv.keys, i, j);
  }
}
