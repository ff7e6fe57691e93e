/**
The supply-chain signing keys on their own token (internal/signingkey): provisioning with a
read-back and a search for a repeated key, undoing a repeated one, and destruction, for
every schedule of faults and a generator free to return any key again.
*/
module SigningKey {
  import opened Certificate
  import opened Text
  import opened Token
  import opened Wrappers

  // What the token reports about a key, which need not be what was asked of it.
  datatype Key = Key(name: string, public: PublicKey, sensitive: bool, extractable: bool)

  datatype KeyError =
    | BadLabel
    | LabelTaken
    | TokenFailed
    | Lookup(error: FindError)
    | Undecodable
    | Readable
    | Wrappable
    | Duplicate(other: string, removed: bool)
    | NothingThere

  datatype Destroyed = Destroyed(private_: bool, public_: bool)

  predicate SameKey(a: PublicKey, b: PublicKey) {
    a == b
  }

  // The point of the one public object under a label, and the one private object's
  // protection.
  ghost predicate Describes(objects: Objects, key: Key, curve: Curve) {
    && key.public.Ec? && key.public.curve == curve
    && (exists h <- objects :: Holding(objects, PublicObject, key.name) == {h} && objects[h].point == key.public)
    && (exists h <- objects :: Holding(objects, PrivateObject, key.name) == {h}
                               && objects[h].sensitive == key.sensitive && objects[h].extractable == key.extractable)
  }

  predicate Protected(key: Key) {
    key.sensitive && !key.extractable
  }

  // Some public object other than those under the label own carries the key.
  ghost predicate HeldElsewhere(objects: Objects, key: PublicKey, own: string) {
    exists h <- objects :: objects[h].class_ == PublicObject && objects[h].name != own && objects[h].point == key
  }

  // Some public object without a label does.
  ghost predicate HeldUnlabelled(objects: Objects, key: PublicKey) {
    exists h <- objects :: Carries(objects[h], PublicObject, "") && objects[h].point == key
  }

  // Everything is still there, and everything new carries the label.
  ghost predicate OnlyAdds(objects: Objects, objects': Objects, name: string) {
    Extends(objects, objects') && forall h <- objects' :: h !in objects ==> objects'[h].name == name
  }

  // One public key on the curve and one private half under the label.
  ghost predicate Loadable(objects: Objects, name: string, curve: Curve) {
    exists key: Key :: key.name == name && Describes(objects, key, curve)
  }

  lemma DescribedOnce(objects: Objects, key: Key, other: Key, curve: Curve)
    requires key.name == other.name && Describes(objects, key, curve) && Describes(objects, other, curve)
    ensures key == other
  {
    var h: Handle :| h in objects && Holding(objects, PublicObject, key.name) == {h} && objects[h].point == key.public;
    var g: Handle :| g in objects && Holding(objects, PrivateObject, key.name) == {g}
                     && objects[g].sensitive == key.sensitive && objects[g].extractable == key.extractable;
    assert h in Holding(objects, PublicObject, other.name) && g in Holding(objects, PrivateObject, other.name);
  }

  // What stands in the way of a load.
  lemma NotLoadable(objects: Objects, name: string, curve: Curve)
    requires |Holding(objects, PublicObject, name)| != 1 || |Holding(objects, PrivateObject, name)| != 1
    ensures !Loadable(objects, name, curve)
  {
    if |Holding(objects, PublicObject, name)| != 1 {
      NotSole(Holding(objects, PublicObject, name));
    } else {
      NotSole(Holding(objects, PrivateObject, name));
    }
  }

  lemma UndecodableIsNot(objects: Objects, name: string, curve: Curve, h: Handle)
    requires h in objects && Holding(objects, PublicObject, name) == {h} && DecodePoint(curve, objects[h]).None?
    ensures !Loadable(objects, name, curve)
  {
    assert h in Holding(objects, PublicObject, name);
  }

  method Load(a: Adapter, ws: Workspace, name: string, curve: Curve) returns (key: Result<Key, KeyError>)
    modifies a`failures
    ensures a.failures >= old(a.failures)
    ensures a.failures == old(a.failures) ==> (key.Ok? <==> a.Present(ws) && a.TokenOf(ws) in a.authenticated && Loadable(a.ObjectsOf(ws), name, curve))
    ensures key.Ok? ==>
              && key.value.name == name && a.Present(ws) && a.TokenOf(ws) in a.authenticated
              && Describes(a.ObjectsOf(ws), key.value, curve)
    ensures key.Err? ==> key.error.Lookup? || key.error == TokenFailed || key.error == Undecodable
  {
    ghost var seen := a.Present(ws) && a.TokenOf(ws) in a.authenticated;
    if seen && (|a.Visible(ws, PublicObject, name)| != 1 || |a.Visible(ws, PrivateObject, name)| != 1) {
      NotLoadable(a.ObjectsOf(ws), name, curve);
    }
    var pub := a.FindKeyByLabel(ws, PublicObject, name);
    if pub.Err? {
      return Err(Lookup(pub.error));
    }
    var read := a.GetAttributes(ws, pub.value);
    if read.None? {
      return Err(TokenFailed);
    }
    var point := DecodePoint(curve, read.value);
    if point.None? {
      UndecodableIsNot(a.ObjectsOf(ws), name, curve, pub.value);
      return Err(Undecodable);
    }
    var priv := a.FindKeyByLabel(ws, PrivateObject, name);
    if priv.Err? {
      return Err(Lookup(priv.error));
    }
    assert priv.value in a.Visible(ws, PrivateObject, name);
    var protection := a.GetAttributes(ws, priv.value);
    if protection.None? {
      return Err(TokenFailed);
    }
    key := Ok(Key(name, point.value, protection.value.sensitive, protection.value.extractable));
    assert Describes(a.ObjectsOf(ws), key.value, curve);
  }

  method VerifyProtection(key: Key) returns (err: Option<KeyError>)
    ensures err == None <==> Protected(key)
    ensures err == Some(Readable) <==> !key.sensitive
    ensures err == Some(Wrappable) <==> key.sensitive && key.extractable
  {
    if !key.sensitive {
      return Some(Readable);
    }
    err := if key.extractable then Some(Wrappable) else None;
  }

  /** A key that is read back and still protected. */
  method Verify(a: Adapter, ws: Workspace, name: string, curve: Curve) returns (key: Result<Key, KeyError>)
    modifies a`failures
    ensures a.failures >= old(a.failures)
    ensures a.failures == old(a.failures) ==>
              (key.Ok? <==>
                 && a.Present(ws) && a.TokenOf(ws) in a.authenticated
                 && exists k: Key :: k.name == name && Describes(a.ObjectsOf(ws), k, curve) && Protected(k))
    ensures key.Ok? ==>
              && key.value.name == name && a.Present(ws) && a.TokenOf(ws) in a.authenticated
              && Describes(a.ObjectsOf(ws), key.value, curve) && Protected(key.value)
  {
    key := Load(a, ws, name, curve);
    if key.Ok? {
      var err := VerifyProtection(key.value);
      if err.Some? {
        key := Err(err.value);
      }
    }
  }

  // The label of the first object listed, but for those under own, that carries the key: ""
  // when none does, and also when that object has no label.
  function FirstCarrying(objects: Objects, listing: seq<Handle>, key: PublicKey, own: string): string
    requires forall h <- listing :: h in objects
  {
    if listing == [] then ""
    else
      var o := objects[listing[0]];
      if o.name != own && o.point == key then o.name else FirstCarrying(objects, listing[1..], key, own)
  }

  // What the first match says of the objects listed.
  lemma {:induction false} FirstIsThere(objects: Objects, listing: seq<Handle>, key: PublicKey, own: string)
    requires forall h <- listing :: h in objects
    ensures
      var first := FirstCarrying(objects, listing, key, own);
      && (first != "" ==> first != own && exists h <- listing :: objects[h].name == first && objects[h].point == key)
      && (first == "" && (exists h <- listing :: objects[h].name != own && objects[h].point == key) ==>
            own != "" && exists h <- listing :: objects[h].name == "" && objects[h].point == key)
    decreases listing
  {
    if listing == [] {
    } else {
      assert listing[0] in listing;
      FirstIsThere(objects, listing[1..], key, own);
      assert forall h <- listing :: h == listing[0] || h in listing[1..];
    }
  }

  // A listing of the public objects tells a point held elsewhere, but for an unlabelled one.
  lemma ScanSees(objects: Objects, listing: seq<Handle>, key: PublicKey, own: string)
    requires Lists(objects, PublicObject, listing)
    ensures
      var first := FirstCarrying(objects, listing, key, own);
      && (first != "" ==> first != own && Holds(objects, PublicObject, first, key) && HeldElsewhere(objects, key, own))
      && (first == "" && HeldElsewhere(objects, key, own) ==> own != "" && HeldUnlabelled(objects, key))
  {
    FirstIsThere(objects, listing, key, own);
  }

  // What the scan may answer, in one order of the objects or another.
  ghost predicate Answers(objects: Objects, key: PublicKey, own: string, answer: string) {
    exists listing :: Lists(objects, PublicObject, listing) && FirstCarrying(objects, listing, key, own) == answer
  }

  /**
  The scan for a repeated key. A key it cannot read is a key it cannot clear, and a point
  that does not decode on the curve is another key. It stops at the first match, and "" is
  its answer both for none and for one without a label.
  */
  method FindDuplicatePoint(a: Adapter, ws: Workspace, own: string, key: PublicKey, curve: Curve)
    returns (other: Result<string, KeyError>)
    requires key.Ec? && key.curve == curve
    modifies a`failures
    ensures a.failures >= old(a.failures)
    ensures other.Ok? <==> a.Present(ws) && a.failures == old(a.failures)
    ensures other.Ok? ==>
              && a.Present(ws)
              && Answers(a.ObjectsOf(ws), key, own, other.value)
    ensures other.Ok? && other.value != "" ==>
              && other.value != own && Holds(a.ObjectsOf(ws), PublicObject, other.value, key)
              && HeldElsewhere(a.ObjectsOf(ws), key, own)
    ensures other.Ok? && other.value == "" && HeldElsewhere(a.ObjectsOf(ws), key, own) ==>
              own != "" && HeldUnlabelled(a.ObjectsOf(ws), key)
    ensures other.Err? ==> other.error == TokenFailed
  {
    var found := a.ListObjects(ws, PublicObject);
    if found.None? {
      return Err(TokenFailed);
    }
    ghost var objects := a.ObjectsOf(ws);
    var handles := found.value;
    ScanSees(objects, handles, key, own);
    for i := 0 to |handles|
      invariant a.failures == old(a.failures)
      invariant FirstCarrying(objects, handles, key, own) == FirstCarrying(objects, handles[i..], key, own)
    {
      assert handles[i] in handles && handles[i..][0] == handles[i] && handles[i..][1..] == handles[i + 1..];
      var read := a.GetAttributes(ws, handles[i]);
      if read.None? {
        return Err(TokenFailed);
      }
      if read.value.name != own {
        var point := DecodePoint(curve, read.value);
        if point.Some? && SameKey(key, point.value) {
          assert FirstCarrying(objects, handles, key, own) == read.value.name;
          return Ok(read.value.name);
        }
      }
    }
    assert handles[|handles|..] == [] && FirstCarrying(objects, handles, key, own) == "";
    other := Ok("");
  }

  // One class of destroyKeyPair's loop.
  method DestroyHalf(a: Adapter, ws: Workspace, class_: ObjectClass, name: string) returns (ok: bool)
    requires a.Present(ws)
    modifies a`tokens, a`trace, a`failures
    ensures a.failures >= old(a.failures)
    ensures a.failures == old(a.failures) ==> (ok <==> |old(a.Visible(ws, class_, name))| <= 1)
    ensures a.Present(ws) && forall t <- a.tokens :: t != a.TokenOf(ws) ==> old(t in a.tokens) && a.tokens[t] == old(a.tokens)[t]
    ensures a.tokens.Keys == old(a.tokens).Keys
    ensures a.ObjectsOf(ws) == if ok then old(a.ObjectsOf(ws)) - old(a.Visible(ws, class_, name)) else old(a.ObjectsOf(ws))
  {
    var found := a.FindKeyByLabel(ws, class_, name);
    match found {
      case Err(KeyNotFound) =>
        assert a.ObjectsOf(ws) - {} == a.ObjectsOf(ws);
        ok := true;
      case Err(_) => ok := false;
      case Ok(h) => ok := a.DestroyObject(ws, h);
    }
  }

  // Undoing a generation: the public half, then the private one.
  method DestroyKeyPair(a: Adapter, ws: Workspace, name: string) returns (ok: bool)
    requires a.Present(ws)
    modifies a`tokens, a`trace, a`failures
    ensures a.failures >= old(a.failures)
    ensures a.failures == old(a.failures) ==> (ok <==> |old(a.Visible(ws, PublicObject, name))| <= 1 && |old(a.Visible(ws, PrivateObject, name))| <= 1)
    ensures a.Present(ws) && a.tokens.Keys == old(a.tokens).Keys
    ensures forall t <- a.tokens :: t != a.TokenOf(ws) ==> a.tokens[t] == old(a.tokens)[t]
    ensures ok ==> a.ObjectsOf(ws) == old(a.ObjectsOf(ws)) - old(a.Visible(ws, PublicObject, name)) - old(a.Visible(ws, PrivateObject, name))
    ensures !ok ==> a.ObjectsOf(ws) == old(a.ObjectsOf(ws)) || a.ObjectsOf(ws) == old(a.ObjectsOf(ws)) - old(a.Visible(ws, PublicObject, name))
  {
    ok := DestroyHalf(a, ws, PublicObject, name);
    if ok {
      assert a.Visible(ws, PrivateObject, name) == old(a.Visible(ws, PrivateObject, name));
      ok := DestroyHalf(a, ws, PrivateObject, name);
    }
  }

  // What provisioning promises of a key it hands out: protected, alone under its label, and
  // new on the token unless an unlabelled object carries it.
  ghost predicate Provisioned(objects: Objects, objects': Objects, key: Key, name: string, curve: Curve) {
    && key.name == name && AddsPair(objects, objects', curve, name)
    && Holding(objects, PublicObject, name) == {} && Holding(objects, PrivateObject, name) == {}
    && Describes(objects', key, curve) && Protected(key)
    && (HeldElsewhere(objects, key.public, name) ==> HeldUnlabelled(objects, key.public))
  }

  // A pair generated under a free label is all there is under it, and removing what is
  // there removes the pair and nothing else.
  lemma GeneratedPair(before: Objects, after: Objects, curve: Curve, name: string)
    requires AddsPair(before, after, curve, name)
    requires Holding(before, PublicObject, name) == {} && Holding(before, PrivateObject, name) == {}
    ensures OnlyAdds(before, after, name)
    ensures after - Holding(after, PublicObject, name) - Holding(after, PrivateObject, name) == before
    ensures OnlyAdds(before, after - Holding(after, PublicObject, name), name)
  {
    var pub: Handle, priv: Handle :|
      && pub !in before && priv !in before && pub != priv
      && after.Keys == before.Keys + {pub, priv} && Extends(before, after)
      && Carries(after[pub], PublicObject, name) && Carries(after[priv], PrivateObject, name);
    assert forall h <- before :: h !in Holding(before, PublicObject, name) && h !in Holding(before, PrivateObject, name);
    assert Holding(after, PublicObject, name) == {pub};
    assert Holding(after, PrivateObject, name) == {priv};
  }

  // What the scan sees of the token with the new pair on it, it says of the token before.
  lemma SeenBefore(before: Objects, after: Objects, key: PublicKey, name: string)
    requires OnlyAdds(before, after, name)
    ensures HeldElsewhere(before, key, name) <==> HeldElsewhere(after, key, name)
    ensures name != "" ==> (HeldUnlabelled(before, key) <==> HeldUnlabelled(after, key))
  {
    if HeldElsewhere(before, key, name) {
      var h :| h in before && before[h].class_ == PublicObject && before[h].name != name && before[h].point == key;
      assert after[h] == before[h];
    }
    if HeldUnlabelled(before, key) {
      var h :| h in before && Carries(before[h], PublicObject, "") && before[h].point == key;
      assert after[h] == before[h];
    }
  }

  // A pair generated under a free label is loaded as the point it was generated with, and
  // is all that is under the label.
  lemma PairIsRead(before: Objects, after: Objects, curve: Curve, name: string, point: PublicKey)
    requires AddsPair(before, after, curve, name) && AddsPairOf(before, after, name, point) && Free(before, name)
    ensures Loadable(after, name, curve)
    ensures forall key: Key :: key.name == name && Describes(after, key, curve) ==> key.public == point
  {
    PairIsAlone(before, after, curve, name);
    var pub: Handle, priv: Handle :|
      && pub !in before && priv !in before && pub != priv
      && after.Keys == before.Keys + {pub, priv} && Extends(before, after)
      && Carries(after[pub], PublicObject, name) && Carries(after[priv], PrivateObject, name)
      && after[pub].point == point && after[priv].point == point;
    assert pub in Holding(after, PublicObject, name) && priv in Holding(after, PrivateObject, name);
    assert Describes(after, Key(name, after[pub].point, after[priv].sensitive, after[priv].extractable), curve);
  }

  lemma PairIsAlone(before: Objects, after: Objects, curve: Curve, name: string)
    requires AddsPair(before, after, curve, name) && Free(before, name)
    ensures exists h: Handle :: Holding(after, PublicObject, name) == {h} && h in after && after[h].point.Ec? && after[h].point.curve == curve
    ensures exists h: Handle :: Holding(after, PrivateObject, name) == {h} && h in after
    ensures |Holding(after, PublicObject, name)| == 1 && |Holding(after, PrivateObject, name)| == 1
  {
    var pub: Handle, priv: Handle :|
      && pub !in before && priv !in before && pub != priv
      && after.Keys == before.Keys + {pub, priv} && Extends(before, after)
      && Carries(after[pub], PublicObject, name) && Carries(after[priv], PrivateObject, name)
      && after[pub].point.Ec? && after[pub].point.curve == curve;
    assert forall h <- before :: h !in Holding(before, PublicObject, name) && h !in Holding(before, PrivateObject, name);
    assert Holding(after, PublicObject, name) == {pub};
    assert Holding(after, PrivateObject, name) == {priv};
  }

  lemma HeldBefore(before: Objects, after: Objects, name: string, other: string, point: PublicKey)
    requires OnlyAdds(before, after, name) && other != name && Holds(after, PublicObject, other, point)
    ensures Holds(before, PublicObject, other, point)
  {
    var h :| h in after && Carries(after[h], PublicObject, other) && after[h].point == point;
    assert h in before && before[h] == after[h];
  }

  // What became of a generated pair: handed out, removed again as far as the calls that
  // remove it worked, or left as it is.
  ghost predicate Settled(key: Result<Key, KeyError>, before: Objects, after: Objects, name: string, curve: Curve, point: PublicKey, failed: bool) {
    match key
    case Ok(k) => Provisioned(before, after, k, name, curve) && k.public == point
    case Err(Duplicate(other, removed)) =>
      Holds(before, PublicObject, other, point) && other != name && if removed then after == before else failed
    case Err(Readable) => LeftWith(after, name, point, curve, false)
    case Err(Wrappable) => LeftWith(after, name, point, curve, true)
    case Err(_) => true
  }

  // The refusals of a generated pair.
  predicate RefusesPair(e: KeyError) {
    e.Duplicate? || e == Readable || e == Wrappable
  }

  // The pair is left on the token as it reports itself: readable, or not but wrappable.
  ghost predicate LeftWith(objects: Objects, name: string, point: PublicKey, curve: Curve, sensitive: bool) {
    exists key: Key ::
      && key.name == name && key.public == point && Describes(objects, key, curve)
      && key.sensitive == sensitive && (sensitive ==> key.extractable)
  }

  // A label is taken if either object holds it.
  method CheckLabel(a: Adapter, ws: Workspace, name: string) returns (err: Option<KeyError>)
    modifies a`failures
    ensures a.failures >= old(a.failures)
    ensures a.failures == old(a.failures) && a.Present(ws) ==>
              if a.Visible(ws, PublicObject, name) == {} && a.Visible(ws, PrivateObject, name) == {} then err == None
              else err == Some(LabelTaken) || err == Some(Lookup(AmbiguousLabel))
    ensures err == None ==> a.Present(ws) && a.Visible(ws, PublicObject, name) == {} && a.Visible(ws, PrivateObject, name) == {}
    ensures err.Some? ==> err.value == LabelTaken || err.value.Lookup?
  {
    var classes := [PublicObject, PrivateObject];
    for i := 0 to |classes|
      invariant a.failures == old(a.failures)
      invariant forall j :: 0 <= j < i ==> a.Present(ws) && a.Visible(ws, classes[j], name) == {}
    {
      var free := a.LabelIsFree(ws, classes[i], name);
      if free.Err? {
        assert a.failures == old(a.failures) && a.Present(ws) ==> |a.Visible(ws, classes[i], name)| > 1;
        return Some(Lookup(free.error));
      }
      if !free.value {
        return Some(LabelTaken);
      }
    }
    assert classes[0] == PublicObject && classes[1] == PrivateObject;
    err := None;
  }

  // Removing the pair just generated leaves the token as it was, unless a call fails.
  method UndoPair(a: Adapter, ws: Workspace, name: string, curve: Curve, ghost before: Objects) returns (removed: bool)
    requires a.Present(ws) && a.TokenOf(ws) in a.authenticated
    requires AddsPair(before, a.ObjectsOf(ws), curve, name) && Free(before, name)
    modifies a`tokens, a`trace, a`failures
    ensures a.failures >= old(a.failures) && (!removed ==> a.failures > old(a.failures))
    ensures a.Present(ws) && a.tokens.Keys == old(a.tokens).Keys
    ensures forall t <- a.tokens :: t != a.TokenOf(ws) ==> a.tokens[t] == old(a.tokens)[t]
    ensures OnlyAdds(before, a.ObjectsOf(ws), name) && (removed ==> a.ObjectsOf(ws) == before)
  {
    GeneratedPair(before, a.ObjectsOf(ws), curve, name);
    PairIsAlone(before, a.ObjectsOf(ws), curve, name);
    removed := DestroyKeyPair(a, ws, name);
  }

  // Everything Provision does once a pair is there: read it back, check its protection, and
  // remove it when it is a repeated one.
  method AcceptOrUndo(a: Adapter, ws: Workspace, name: string, curve: Curve, ghost before: Objects, ghost point: PublicKey)
    returns (key: Result<Key, KeyError>)
    requires a.Present(ws) && AddsPair(before, a.ObjectsOf(ws), curve, name) && name != ""
    requires Free(before, name) && AddsPairOf(before, a.ObjectsOf(ws), name, point)
    modifies a`tokens, a`trace, a`failures
    ensures a.failures >= old(a.failures)
    ensures a.Present(ws) && a.tokens.Keys == old(a.tokens).Keys
    ensures forall t <- a.tokens :: t != a.TokenOf(ws) ==> a.tokens[t] == old(a.tokens)[t]
    ensures OnlyAdds(before, a.ObjectsOf(ws), name)
    ensures Settled(key, before, a.ObjectsOf(ws), name, curve, point, a.failures > old(a.failures))
    ensures a.failures == old(a.failures) && old(a.TokenOf(ws) in a.authenticated) ==> key.Ok? || RefusesPair(key.error)
    ensures key.Err? ==> key.error != BadLabel && key.error != LabelTaken
  {
    ghost var after := a.ObjectsOf(ws);
    GeneratedPair(before, after, curve, name);
    PairIsRead(before, after, curve, name, point);
    key := Load(a, ws, name, curve);
    if key.Err? {
      return;
    }
    var err := VerifyProtection(key.value);
    if err.Some? {
      return Err(err.value);
    }
    err := RefuseRepeated(a, ws, key.value, curve, before);
    if err.Some? {
      key := Err(err.value);
    }
  }

  // The scan, and the undoing of a pair it finds repeated.
  method RefuseRepeated(a: Adapter, ws: Workspace, key: Key, curve: Curve, ghost before: Objects) returns (err: Option<KeyError>)
    requires a.Present(ws) && a.TokenOf(ws) in a.authenticated && key.public.Ec? && key.public.curve == curve
    requires AddsPair(before, a.ObjectsOf(ws), curve, key.name) && Free(before, key.name) && key.name != ""
    modifies a`tokens, a`trace, a`failures
    ensures a.failures >= old(a.failures)
    ensures a.Present(ws) && a.tokens.Keys == old(a.tokens).Keys
    ensures forall t <- a.tokens :: t != a.TokenOf(ws) ==> a.tokens[t] == old(a.tokens)[t]
    ensures OnlyAdds(before, a.ObjectsOf(ws), key.name)
    ensures err == None ==>
              && a.ObjectsOf(ws) == old(a.ObjectsOf(ws))
              && (HeldElsewhere(before, key.public, key.name) ==> HeldUnlabelled(before, key.public))
    ensures err.Some? ==> err.value.Duplicate? || (err.value == TokenFailed && a.failures > old(a.failures))
    ensures err.Some? && err.value.Duplicate? ==>
              && Holds(before, PublicObject, err.value.other, key.public) && err.value.other != key.name
              && if err.value.removed then a.ObjectsOf(ws) == before else a.failures > old(a.failures)
  {
    ghost var after := a.ObjectsOf(ws);
    GeneratedPair(before, after, curve, key.name);
    SeenBefore(before, after, key.public, key.name);
    var other := FindDuplicatePoint(a, ws, key.name, key.public, curve);
    if other.Err? {
      return Some(other.error);
    }
    if other.value == "" {
      return None;
    }
    HeldBefore(before, after, key.name, other.value, key.public);
    var removed := UndoPair(a, ws, key.name, curve, before);
    err := Some(Duplicate(other.value, removed));
  }

  /**
  Provision. It returns a key only when the token made one that no labelled object carries,
  or that an unlabelled one carries too. A repeated key it sees is removed again, which
  leaves the token as it was unless a call that removes it fails. When no call fails it is
  told apart from a taken label and from a key the token does not protect, and nothing else
  is refused. Nothing that was on the token is ever lost, and nothing is left there under
  another label.
  */
  method Provision(a: Adapter, ws: Workspace, name: string, curve: Curve) returns (key: Result<Key, KeyError>)
    requires a.Present(ws)
    modifies a`tokens, a`trace, a`made, a`failures
    ensures a.failures >= old(a.failures)
    ensures a.Present(ws) && a.tokens.Keys == old(a.tokens).Keys
    ensures forall t <- a.tokens :: t != a.TokenOf(ws) ==> a.tokens[t] == old(a.tokens)[t]
    ensures OnlyAdds(old(a.ObjectsOf(ws)), a.ObjectsOf(ws), name)
    ensures key.Ok? ==> VersionedLabel(name) && Provisioned(old(a.ObjectsOf(ws)), a.ObjectsOf(ws), key.value, name, curve)
    ensures key.Ok? || RefusesPair(key.error) ==>
              && |a.made| == |old(a.made)| + 1
              && Settled(key, old(a.ObjectsOf(ws)), a.ObjectsOf(ws), name, curve, a.made[|old(a.made)|], a.failures > old(a.failures))
    ensures a.failures == old(a.failures) && VersionedLabel(name) && old(a.TokenOf(ws) in a.authenticated) ==>
              if old(Free(a.ObjectsOf(ws), name)) then key.Ok? || RefusesPair(key.error)
              else key == Err(LabelTaken) || key == Err(Lookup(AmbiguousLabel))
    ensures key.Err? && (key.error == BadLabel || key.error == LabelTaken) ==> a.tokens == old(a.tokens)
    ensures !VersionedLabel(name) ==> key == Err(BadLabel)
  {
    if !VersionedLabel(name) {
      return Err(BadLabel);
    }
    var taken := CheckLabel(a, ws, name);
    if taken.Some? {
      return Err(taken.value);
    }
    key := GenerateKey(a, ws, name, curve);
  }

  // A pair under a label no search finds taken, and what becomes of it.
  method GenerateKey(a: Adapter, ws: Workspace, name: string, curve: Curve) returns (key: Result<Key, KeyError>)
    requires a.Present(ws) && VersionedLabel(name)
    requires a.Visible(ws, PublicObject, name) == {} && a.Visible(ws, PrivateObject, name) == {}
    modifies a`tokens, a`trace, a`made, a`failures
    ensures a.failures >= old(a.failures)
    ensures a.Present(ws) && a.tokens.Keys == old(a.tokens).Keys
    ensures forall t <- a.tokens :: t != a.TokenOf(ws) ==> a.tokens[t] == old(a.tokens)[t]
    ensures OnlyAdds(old(a.ObjectsOf(ws)), a.ObjectsOf(ws), name)
    ensures key.Ok? || RefusesPair(key.error) ==>
              && |a.made| == |old(a.made)| + 1
              && Settled(key, old(a.ObjectsOf(ws)), a.ObjectsOf(ws), name, curve, a.made[|old(a.made)|], a.failures > old(a.failures))
    ensures a.failures == old(a.failures) && old(a.TokenOf(ws) in a.authenticated) ==> key.Ok? || RefusesPair(key.error)
    ensures key.Err? ==> key.error != BadLabel && key.error != LabelTaken
  {
    ghost var before := a.ObjectsOf(ws);
    var ok := a.GenerateKeyPair(ws, curve, name, false);
    if !ok {
      return Err(TokenFailed);
    }
    ghost var point :| a.made == old(a.made) + [point] && AddsPairOf(before, a.ObjectsOf(ws), name, point);
    key := AcceptOrUndo(a, ws, name, curve, before, point);
  }

  // The private half of the label went if its public half did.
  ghost predicate NoOrphan(objects: Objects, objects': Objects, name: string) {
    (exists h <- objects :: h !in objects' && objects[h].class_ == PublicObject) ==> Holding(objects', PrivateObject, name) == {}
  }

  // Only objects under the label are gone, at most one of each class.
  ghost predicate OnlyRemoves(objects: Objects, objects': Objects, name: string) {
    && Extends(objects', objects)
    && (forall h <- objects :: h !in objects' ==> objects[h].name == name)
    && (forall h, g :: h in objects && g in objects && h !in objects' && g !in objects' && objects[h].class_ == objects[g].class_ ==> h == g)
  }

  // What Destroy did when it reports done: the halves it names were all that a search found
  // of their class, and are all that is gone; it names no public half before a private one
  // it could see.
  ghost predicate Destroys(objects: Objects, loggedIn: bool, name: string, done: Destroyed, objects': Objects) {
    var priv, pub := Seen(objects, loggedIn, PrivateObject, name), Seen(objects, loggedIn, PublicObject, name);
    && (done.private_ ==> |priv| == 1) && (done.public_ ==> |pub| == 1 && (priv == {} || done.private_))
    && objects' == objects - (if done.private_ then priv else {}) - (if done.public_ then pub else {})
  }

  /** However far Destroy got, it removed at most one object of each class, all under the label. */
  lemma DestroysOnlyThePair(objects: Objects, loggedIn: bool, name: string, done: Destroyed, objects': Objects)
    requires Destroys(objects, loggedIn, name, done, objects')
    ensures OnlyRemoves(objects, objects', name)
    ensures objects' == objects <==> !done.private_ && !done.public_
  {
    if done.private_ {
      OnlyOne(Seen(objects, loggedIn, PrivateObject, name));
    }
    if done.public_ {
      OnlyOne(Seen(objects, loggedIn, PublicObject, name));
    }
  }

  lemma OnlyOne(s: set<Handle>)
    requires |s| == 1
    ensures s != {} && forall h, g :: h in s && g in s ==> h == g
  {
    forall h, g | h in s && g in s ensures h == g {
      assert |s - {h}| == 0;
    }
  }

  /**
  When Destroy leaves a private half whose public half it removed: exactly when it removed a
  public half on a token that is not logged in and that holds a private one. Logged in, no
  fault can bring that about.
  */
  lemma NoOrphanIff(objects: Objects, loggedIn: bool, name: string, done: Destroyed, objects': Objects)
    requires Destroys(objects, loggedIn, name, done, objects')
    ensures NoOrphan(objects, objects', name) <==>
            !done.public_ || loggedIn || Holding(objects, PrivateObject, name) == {}
  {
    DestroysOnlyThePair(objects, loggedIn, name, done, objects');
    var priv, pub := Holding(objects, PrivateObject, name), Holding(objects, PublicObject, name);
    if done.public_ {
      OnlyOne(pub);
      var h :| h in pub;
      assert h !in objects' && objects[h].class_ == PublicObject;
    }
    if !done.private_ {
      assert Holding(objects', PrivateObject, name) == priv;
    }
  }

  /** Such a token: one pair, nobody logged in, and a call that removes all it can see. */
  lemma OrphanWithoutLogin(name: string, key: PublicKey) returns (objects: Objects)
    ensures Destroys(objects, false, name, Destroyed(false, true), objects - {0})
    ensures Seen(objects, false, PrivateObject, name) == {} && Seen(objects, false, PublicObject, name) == {0}
    ensures !NoOrphan(objects, objects - {0}, name)
  {
    objects := map[0 := KeyObject(PublicObject, name, key, false, true), 1 := KeyObject(PrivateObject, name, key, true, false)];
    assert Holding(objects, PublicObject, name) == {0};
    assert 1 in Holding(objects, PrivateObject, name);
    NoOrphanIff(objects, false, name, Destroyed(false, true), objects - {0});
  }

  /**
  Destroy. What it reports removed is removed and nothing else, on every path; the private
  half goes first. An ambiguous label destroys nothing.
  */
  method Destroy(a: Adapter, ws: Workspace, name: string) returns (done: Destroyed, err: Option<KeyError>)
    requires a.Present(ws)
    modifies a`tokens, a`trace, a`failures
    ensures a.failures >= old(a.failures)
    ensures a.failures == old(a.failures) ==>
              (err == None <==>
                 && |old(a.Visible(ws, PublicObject, name))| <= 1 && |old(a.Visible(ws, PrivateObject, name))| <= 1
                 && (old(a.Visible(ws, PublicObject, name)) != {} || old(a.Visible(ws, PrivateObject, name)) != {}))
    ensures a.Present(ws) && a.tokens.Keys == old(a.tokens).Keys
    ensures forall t <- a.tokens :: t != a.TokenOf(ws) ==> a.tokens[t] == old(a.tokens)[t]
    ensures Destroys(old(a.ObjectsOf(ws)), a.TokenOf(ws) in a.authenticated, name, done, a.ObjectsOf(ws))
    ensures !done.private_ && !done.public_ ==> a.tokens == old(a.tokens)
    ensures NoOrphan(old(a.ObjectsOf(ws)), a.ObjectsOf(ws), name) <==>
            !done.public_ || a.TokenOf(ws) in a.authenticated || old(Holding(a.ObjectsOf(ws), PrivateObject, name)) == {}
    ensures |old(a.Visible(ws, PublicObject, name))| > 1 || |old(a.Visible(ws, PrivateObject, name))| > 1 ==> err.Some? && a.tokens == old(a.tokens)
    ensures err == None ==>
              && a.Visible(ws, PublicObject, name) == {} && a.Visible(ws, PrivateObject, name) == {}
              && done == Destroyed(old(a.Visible(ws, PrivateObject, name)) != {}, old(a.Visible(ws, PublicObject, name)) != {})
              && (done.private_ || done.public_)
  {
    ghost var before, loggedIn := a.ObjectsOf(ws), a.TokenOf(ws) in a.authenticated;
    done, err := DestroyHalves(a, ws, name);
    NoOrphanIff(before, loggedIn, name, done, a.ObjectsOf(ws));
    if !done.private_ && !done.public_ {
      assert a.tokens == old(a.tokens);
    }
  }

  method DestroyHalves(a: Adapter, ws: Workspace, name: string) returns (done: Destroyed, err: Option<KeyError>)
    requires a.Present(ws)
    modifies a`tokens, a`trace, a`failures
    ensures a.failures >= old(a.failures)
    ensures a.failures == old(a.failures) ==>
              (err == None <==>
                 && |old(a.Visible(ws, PublicObject, name))| <= 1 && |old(a.Visible(ws, PrivateObject, name))| <= 1
                 && (old(a.Visible(ws, PublicObject, name)) != {} || old(a.Visible(ws, PrivateObject, name)) != {}))
    ensures a.Present(ws) && a.tokens.Keys == old(a.tokens).Keys
    ensures forall t <- a.tokens :: t != a.TokenOf(ws) ==> a.tokens[t] == old(a.tokens)[t]
    ensures Destroys(old(a.ObjectsOf(ws)), a.TokenOf(ws) in a.authenticated, name, done, a.ObjectsOf(ws))
    ensures !done.private_ && !done.public_ ==> a.tokens == old(a.tokens)
    ensures |old(a.Visible(ws, PublicObject, name))| > 1 || |old(a.Visible(ws, PrivateObject, name))| > 1 ==> err.Some? && a.tokens == old(a.tokens)
    ensures err == None ==>
              && done == Destroyed(old(a.Visible(ws, PrivateObject, name)) != {}, old(a.Visible(ws, PublicObject, name)) != {})
              && (done.private_ || done.public_)
              && a.Visible(ws, PublicObject, name) == {} && a.Visible(ws, PrivateObject, name) == {}
  {
    done := Destroyed(false, false);
    ghost var before, seen := a.ObjectsOf(ws), a.Visible(ws, PrivateObject, name);
    assert before - {} - {} == before;
    var priv := a.FindKeyByLabel(ws, PrivateObject, name);
    if priv.Err? && priv.error != KeyNotFound {
      return done, Some(Lookup(priv.error));
    }
    var pub := a.FindKeyByLabel(ws, PublicObject, name);
    if pub.Err? && pub.error != KeyNotFound {
      return done, Some(Lookup(pub.error));
    }
    if priv.Err? && pub.Err? {
      return done, Some(NothingThere);
    }
    if priv.Ok? {
      assert priv.value in seen;
      var ok := a.DestroyObject(ws, priv.value);
      if !ok {
        return done, Some(TokenFailed);
      }
      done := done.(private_ := true);
    }
    assert a.ObjectsOf(ws) == before - seen;
    if pub.Ok? {
      assert pub.value in Holding(before, PublicObject, name);
      var ok := a.DestroyObject(ws, pub.value);
      if !ok {
        return done, Some(TokenFailed);
      }
      done := done.(public_ := true);
    }
    err := None;
  }

  // Runs.

  // The keys provisioned and not destroyed since, by label.
  type Live = map<string, PublicKey>

  // What a run does next: a provisioning, a destruction, a key made by something else, or a
  // login or logout between them.
  datatype Command =
    | ProvisionKey(name: string, curve: Curve)
    | DestroyKey(name: string)
    | OtherKey(name: string, curve: Curve)
    | LogIn
    | LogOut

  // What a command answered: the key a provisioning made, or that a destruction removed some
  // half; a call that failed with nothing done is NoChange.
  datatype Answer = NoChange | Made(key: PublicKey) | Removed

  function LiveNext(live: Live, command: Command, answer: Answer): Live {
    if command.ProvisionKey? && answer.Made? then live[command.name := answer.key]
    else if command.DestroyKey? && answer.Removed? then live - {command.name}
    else live
  }

  // What an answer says of the token before and after its command.
  ghost predicate Accounts(command: Command, answer: Answer, before: Objects, after: Objects) {
    match command
    case ProvisionKey(name, curve) =>
      && OnlyAdds(before, after, name) && (after != before ==> VersionedLabel(name))
      && (answer.Made? ==> exists key: Key :: key.public == answer.key && Provisioned(before, after, key, name, curve))
    case DestroyKey(name) => OnlyRemoves(before, after, name) && (answer.Removed? <==> after != before)
    case OtherKey(name, curve) => after == before || AddsPair(before, after, curve, name)
    case _ => after == before
  }

  // What is live after a run, from what each command answered.
  function LiveAfter(commands: seq<Command>, answers: seq<Answer>): Live
    requires |commands| == |answers|
  {
    if commands == [] then map[]
    else
      var n := |commands| - 1;
      LiveNext(LiveAfter(commands[..n], answers[..n]), commands[n], answers[n])
  }

  ghost predicate Holds(objects: Objects, class_: ObjectClass, name: string, key: PublicKey) {
    exists h <- objects :: Carries(objects[h], class_, name) && objects[h].point == key
  }

  // Every live label's key is on the token, both halves.
  ghost predicate Kept(objects: Objects, live: Live) {
    forall name <- live :: Holds(objects, PublicObject, name, live[name]) && Holds(objects, PrivateObject, name, live[name])
  }

  ghost predicate Distinct(live: Live) {
    forall n <- live, m <- live :: n != m ==> live[n] != live[m]
  }

  lemma HoldsStays(objects: Objects, objects': Objects, class_: ObjectClass, name: string, key: PublicKey)
    requires Holds(objects, class_, name, key)
    requires forall h <- objects :: objects[h].name == name ==> h in objects' && objects'[h] == objects[h]
    ensures Holds(objects', class_, name, key)
  {
    var h :| h in objects && Carries(objects[h], class_, name) && objects[h].point == key;
    assert Carries(objects'[h], class_, name);
  }

  lemma HeldIsTaken(objects: Objects, class_: ObjectClass, name: string, key: PublicKey)
    requires Holds(objects, class_, name, key)
    ensures Holding(objects, class_, name) != {}
  {
    var h :| h in objects && Carries(objects[h], class_, name);
    assert h in Holding(objects, class_, name);
  }

  /** Live keys stay on a token that only gains objects, and on one that loses another label's. */
  lemma KeptStays(objects: Objects, objects': Objects, live: Live)
    requires Kept(objects, live)
    requires forall h <- objects :: objects[h].name in live ==> h in objects' && objects'[h] == objects[h]
    ensures Kept(objects', live)
  {
    forall name <- live
      ensures Holds(objects', PublicObject, name, live[name]) && Holds(objects', PrivateObject, name, live[name])
    {
      HoldsStays(objects, objects', PublicObject, name, live[name]);
      HoldsStays(objects, objects', PrivateObject, name, live[name]);
    }
  }

  /**
  A provisioned key is kept with the live ones and its label is none of theirs; and it
  differs from every live one unless an unlabelled object carries it.
  */
  lemma ProvisionedIsNew(objects: Objects, objects': Objects, live: Live, key: Key, name: string, curve: Curve)
    requires Kept(objects, live) && Provisioned(objects, objects', key, name, curve)
    ensures name !in live && Kept(objects', live[name := key.public])
    ensures !HeldUnlabelled(objects, key.public) ==> forall n <- live :: live[n] != key.public
  {
    forall n <- live ensures n != name && (live[n] == key.public ==> HeldElsewhere(objects, key.public, name)) {
      HeldIsTaken(objects, PublicObject, n, live[n]);
      var h :| h in objects && Carries(objects[h], PublicObject, n) && objects[h].point == live[n];
    }
    assert Extends(objects, objects');
    KeptStays(objects, objects', live);
    PairHeld(objects, objects', key, name, curve);
  }

  lemma PairHeld(objects: Objects, objects': Objects, key: Key, name: string, curve: Curve)
    requires Provisioned(objects, objects', key, name, curve)
    ensures Holds(objects', PublicObject, name, key.public) && Holds(objects', PrivateObject, name, key.public)
  {
    var pub: Handle, priv: Handle :|
      && pub !in objects && priv !in objects && pub != priv
      && objects'.Keys == objects.Keys + {pub, priv} && Extends(objects, objects')
      && Carries(objects'[pub], PublicObject, name) && Carries(objects'[priv], PrivateObject, name)
      && objects'[pub].point == objects'[priv].point;
    assert pub in Holding(objects', PublicObject, name);
    assert Carries(objects'[priv], PrivateObject, name);
  }

  /** Under a live label that is read as one pair, both halves are the provisioned key. */
  lemma LivePairIsWhole(objects: Objects, live: Live, key: Key, curve: Curve, h: Handle)
    requires Kept(objects, live) && key.name in live && Describes(objects, key, curve)
    requires h in Holding(objects, PublicObject, key.name) || h in Holding(objects, PrivateObject, key.name)
    ensures key.public == live[key.name] == objects[h].point
  {
    var pub :| pub in objects && Carries(objects[pub], PublicObject, key.name) && objects[pub].point == live[key.name];
    var priv :| priv in objects && Carries(objects[priv], PrivateObject, key.name) && objects[priv].point == live[key.name];
    assert pub in Holding(objects, PublicObject, key.name) && priv in Holding(objects, PrivateObject, key.name);
  }

  // No public object is without a label, but for those that are no key on a curve.
  ghost predicate NoUnlabelled(objects: Objects) {
    forall h <- objects :: objects[h].class_ == PublicObject && objects[h].point.Ec? ==> objects[h].name != ""
  }

  lemma LabelsAreNotEmpty(name: string)
    requires VersionedLabel(name)
    ensures name != ""
  {
  }

  lemma PairIsAdded(before: Objects, after: Objects, curve: Curve, name: string)
    requires AddsPair(before, after, curve, name)
    ensures OnlyAdds(before, after, name)
  {
  }

  // One command, and what it answered, keeps the live keys on the token.
  lemma CommandKeeps(command: Command, answer: Answer, before: Objects, after: Objects, live: Live)
    requires Accounts(command, answer, before, after) && Kept(before, live)
    ensures Kept(after, LiveNext(live, command, answer))
  {
    match command {
      case ProvisionKey(name, curve) =>
        if answer.Made? {
          var key: Key :| key.public == answer.key && Provisioned(before, after, key, name, curve);
          ProvisionedIsNew(before, after, live, key, name, curve);
        } else {
          KeptStays(before, after, live);
        }
      case DestroyKey(name) =>
        if answer.Removed? {
          KeptStays(before, after, live - {name});
        }
      case OtherKey(name, curve) => KeptStays(before, after, live);
      case _ =>
    }
  }

  // On a token without unlabelled keys it also keeps them distinct, unless it leaves an
  // unlabelled key itself.
  lemma CommandKeepsDistinct(command: Command, answer: Answer, before: Objects, after: Objects, live: Live)
    requires Accounts(command, answer, before, after) && Kept(before, live)
    requires Distinct(live) && NoUnlabelled(before) && (command.OtherKey? ==> command.name != "")
    ensures Distinct(LiveNext(live, command, answer)) && NoUnlabelled(after)
  {
    match command {
      case ProvisionKey(name, curve) =>
        if after != before {
          LabelsAreNotEmpty(name);
        }
        if answer.Made? {
          var key: Key :| key.public == answer.key && Provisioned(before, after, key, name, curve);
          ProvisionedIsNew(before, after, live, key, name, curve);
        }
      case DestroyKey(name) =>
      case OtherKey(name, curve) =>
        if after != before {
          PairIsAdded(before, after, curve, name);
        }
      case _ =>
    }
  }

  ghost predicate AccountsAt(commands: seq<Command>, answers: seq<Answer>, states: seq<Objects>, i: nat)
    requires i < |commands| == |answers| && i + 1 < |states|
  {
    Accounts(commands[i], answers[i], states[i], states[i + 1])
  }

  // The states between the commands bear the answers out.
  ghost predicate AllAccounted(commands: seq<Command>, answers: seq<Answer>, states: seq<Objects>) {
    && |answers| == |commands| && |states| == |answers| + 1
    && forall i :: 0 <= i < |commands| ==> AccountsAt(commands, answers, states, i)
  }

  lemma AccountOne(commands: seq<Command>, answers: seq<Answer>, states: seq<Objects>, command: Command, answer: Answer, state: Objects)
    requires AllAccounted(commands, answers, states) && Accounts(command, answer, states[|commands|], state)
    ensures AllAccounted(commands + [command], answers + [answer], states + [state])
    ensures LiveAfter(commands + [command], answers + [answer]) == LiveNext(LiveAfter(commands, answers), command, answer)
  {
    var n := |commands|;
    forall i | 0 <= i <= n ensures AccountsAt(commands + [command], answers + [answer], states + [state], i) {
      assert i < n ==> AccountsAt(commands, answers, states, i);
    }
    assert (commands + [command])[..n] == commands && (answers + [answer])[..n] == answers;
  }

  lemma AccountedBefore(commands: seq<Command>, answers: seq<Answer>, states: seq<Objects>)
    requires AllAccounted(commands, answers, states) && commands != []
    ensures
      var n := |commands| - 1;
      && AllAccounted(commands[..n], answers[..n], states[..n + 1])
      && Accounts(commands[n], answers[n], states[n], states[n + 1])
  {
    var n := |commands| - 1;
    var commands', answers', states' := commands[..n], answers[..n], states[..n + 1];
    forall i | 0 <= i < n ensures AccountsAt(commands', answers', states', i) {
      assert AccountsAt(commands, answers, states, i);
    }
    assert AccountsAt(commands, answers, states, n);
  }

  /** Over every run the keys provisioned of which no half was destroyed since are on the token, both halves. */
  lemma {:induction false} RunKeeps(commands: seq<Command>, answers: seq<Answer>, states: seq<Objects>)
    requires AllAccounted(commands, answers, states)
    ensures Kept(states[|commands|], LiveAfter(commands, answers))
    decreases |commands|
  {
    if commands == [] {
    } else {
      var n := |commands| - 1;
      AccountedBefore(commands, answers, states);
      RunKeeps(commands[..n], answers[..n], states[..n + 1]);
      CommandKeeps(commands[n], answers[n], states[n], states[n + 1], LiveAfter(commands[..n], answers[..n]));
    }
  }

  ghost predicate OthersLabel(commands: seq<Command>) {
    forall c <- commands :: c.OtherKey? ==> c.name != ""
  }

  /** From a token without unlabelled keys, if others leave none on it either, no two of them hold one point. */
  lemma {:induction false} RunKeepsDistinct(commands: seq<Command>, answers: seq<Answer>, states: seq<Objects>)
    requires AllAccounted(commands, answers, states) && NoUnlabelled(states[0]) && OthersLabel(commands)
    ensures Distinct(LiveAfter(commands, answers)) && NoUnlabelled(states[|commands|])
    decreases |commands|
  {
    if commands == [] {
    } else {
      var n := |commands| - 1;
      AccountedBefore(commands, answers, states);
      RunKeepsDistinct(commands[..n], answers[..n], states[..n + 1]);
      RunKeeps(commands[..n], answers[..n], states[..n + 1]);
      assert commands[n] in commands;
      CommandKeepsDistinct(commands[n], answers[n], states[n], states[n + 1], LiveAfter(commands[..n], answers[..n]));
    }
  }

  // One command, and what it answered.
  method Execute(a: Adapter, ws: Workspace, command: Command) returns (answer: Answer)
    requires a.Present(ws) && (a.anchor.Some? ==> a.Present(a.anchor.value))
    modifies a`tokens, a`anchor, a`authenticated, a`trace, a`made, a`failures
    ensures a.failures >= old(a.failures)
    ensures a.Present(ws) && (a.anchor.Some? ==> a.Present(a.anchor.value))
    ensures Accounts(command, answer, old(a.ObjectsOf(ws)), a.ObjectsOf(ws))
  {
    answer := NoChange;
    match command {
      case ProvisionKey(name, curve) =>
        var key := Provision(a, ws, name, curve);
        if key.Ok? {
          answer := Made(key.value.public);
        }
      case DestroyKey(name) =>
        ghost var before, loggedIn := a.ObjectsOf(ws), a.TokenOf(ws) in a.authenticated;
        var done, _ := Destroy(a, ws, name);
        DestroysOnlyThePair(before, loggedIn, name, done, a.ObjectsOf(ws));
        answer := if done.private_ || done.public_ then Removed else NoChange;
      case OtherKey(name, curve) =>
        var _ := a.GenerateKeyPair(ws, curve, name, true);
      case LogIn =>
        var _ := a.LoginToken(ws);
      case LogOut =>
        var _ := a.LogoutToken();
    }
  }

  /**
  Over every run of provisionings, destructions, keys made by others, logins and logouts,
  for every schedule of faults and every generator: the token's states between the commands
  bear the answers out, and the keys provisioned of which no half was destroyed since are
  all on the token, both halves. No two of them hold one point if the token held no
  unlabelled key at first and others left none on it.
  */
  method RunCommands(a: Adapter, ws: Workspace, commands: seq<Command>) returns (answers: seq<Answer>, ghost states: seq<Objects>)
    requires a.Present(ws) && (a.anchor.Some? ==> a.Present(a.anchor.value))
    modifies a`tokens, a`anchor, a`authenticated, a`trace, a`made, a`failures
    ensures a.failures >= old(a.failures)
    ensures a.Present(ws) && AllAccounted(commands, answers, states)
    ensures states[0] == old(a.ObjectsOf(ws)) && states[|commands|] == a.ObjectsOf(ws)
    ensures Kept(a.ObjectsOf(ws), LiveAfter(commands, answers))
    ensures old(NoUnlabelled(a.ObjectsOf(ws))) && OthersLabel(commands) ==> Distinct(LiveAfter(commands, answers))
  {
    answers := [];
    states := [a.ObjectsOf(ws)];
    for i := 0 to |commands|
      invariant a.failures >= old(a.failures)
      invariant a.Present(ws) && (a.anchor.Some? ==> a.Present(a.anchor.value))
      invariant AllAccounted(commands[..i], answers, states) && states[0] == old(a.ObjectsOf(ws)) && states[i] == a.ObjectsOf(ws)
    {
      var answer := Execute(a, ws, commands[i]);
      AccountOne(commands[..i], answers, states, commands[i], answer, a.ObjectsOf(ws));
      assert commands[..i + 1] == commands[..i] + [commands[i]];
      answers, states := answers + [answer], states + [a.ObjectsOf(ws)];
    }
    assert commands[..|commands|] == commands;
    RunKeeps(commands, answers, states);
    if old(NoUnlabelled(a.ObjectsOf(ws))) && OthersLabel(commands) {
      RunKeepsDistinct(commands, answers, states);
    }
  }
}
