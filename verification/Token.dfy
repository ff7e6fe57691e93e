/**
Tokens behind one PKCS#11 adapter, under faults (internal/pkcs11). A token is the objects it
holds; an adapter keeps at most one token logged in, as far as it knows. Any call may fail,
the key generator may return any point, one it returned before included, a token may ignore
the protection it was asked for, and two workspaces may address one token whatever their
serials say. The trace records what was done to which token, made what the generator gave,
and failures how many calls failed although nothing on the token stood in their way; no code
reads them.
*/
module Token {
  import opened Certificate
  import opened Wrappers

  datatype ObjectClass = PublicObject | PrivateObject

  // point is the key's own point; only a public object lets it be read.
  datatype KeyObject = KeyObject(class_: ObjectClass, name: string, point: PublicKey, sensitive: bool, extractable: bool)

  type Handle = nat
  type TokenId = nat
  type Objects = map<Handle, KeyObject>

  datatype Workspace = Workspace(slot: nat, name: string, serial: string)

  datatype Call =
    | Login(token: TokenId, already: set<TokenId>)
    | Logout
    | Search(token: TokenId, name: string, present: bool)
    | Generate(token: TokenId, name: string, extractable: bool)
    | Destroy(token: TokenId, object: KeyObject)
    | CrlSigned

  datatype FindError = KeyNotFound | AmbiguousLabel | FindFailed

  predicate Carries(o: KeyObject, class_: ObjectClass, name: string) {
    o.class_ == class_ && o.name == name
  }

  // The handles under which objects holds a class and label.
  function Holding(objects: Objects, class_: ObjectClass, name: string): set<Handle> {
    set h | h in objects && Carries(objects[h], class_, name)
  }

  // Nothing carries the label.
  predicate Free(objects: Objects, name: string) {
    Holding(objects, PublicObject, name) == {} && Holding(objects, PrivateObject, name) == {}
  }

  // The one object of a class under a label carries the key.
  ghost predicate OnlyHolds(objects: Objects, class_: ObjectClass, name: string, key: PublicKey) {
    exists h <- objects :: Holding(objects, class_, name) == {h} && objects[h].point == key
  }

  // None or several are not one.
  lemma NotSole(found: set<Handle>)
    requires |found| != 1
    ensures forall h <- found :: found != {h}
  {
    forall h | h in found ensures found != {h} {
      assert |{h}| == 1;
    }
  }

  // Those a search finds. Private objects are visible only on a token that is logged in.
  function Seen(objects: Objects, loggedIn: bool, class_: ObjectClass, name: string): set<Handle> {
    if class_ == PrivateObject && !loggedIn then {} else Holding(objects, class_, name)
  }

  // A listing of all objects of a class, in some order.
  predicate Lists(objects: Objects, class_: ObjectClass, listing: seq<Handle>) {
    && (forall h <- listing :: h in objects && objects[h].class_ == class_)
    && (forall h <- objects :: objects[h].class_ == class_ ==> h in listing)
    && forall i, j :: 0 <= i < j < |listing| ==> listing[i] != listing[j]
  }

  // Nothing is replaced or removed.
  ghost predicate Extends(objects: Objects, objects': Objects) {
    forall h <- objects :: h in objects' && objects'[h] == objects[h]
  }

  // objects' is objects and one fresh pair under the label, on the curve.
  ghost predicate AddsPair(objects: Objects, objects': Objects, curve: Curve, name: string) {
    exists pub: Handle, priv: Handle ::
      && pub !in objects && priv !in objects && pub != priv
      && objects'.Keys == objects.Keys + {pub, priv} && Extends(objects, objects')
      && Carries(objects'[pub], PublicObject, name) && Carries(objects'[priv], PrivateObject, name)
      && objects'[pub].point == objects'[priv].point
      && objects'[pub].point.Ec? && objects'[pub].point.curve == curve
  }

  // The same, of one given point.
  ghost predicate AddsPairOf(objects: Objects, objects': Objects, name: string, point: PublicKey) {
    exists pub: Handle, priv: Handle ::
      && pub !in objects && priv !in objects && pub != priv
      && objects'.Keys == objects.Keys + {pub, priv} && Extends(objects, objects')
      && Carries(objects'[pub], PublicObject, name) && Carries(objects'[priv], PrivateObject, name)
      && objects'[pub].point == point && objects'[priv].point == point
  }

  // Under a label that was free in its class the pair's half is found, and under one that
  // was not nothing is.
  lemma PairIsFound(objects: Objects, objects': Objects, curve: Curve, name: string)
    requires AddsPair(objects, objects', curve, name)
    ensures Holding(objects, PublicObject, name) == {} ==>
              exists point: PublicKey :: point.Ec? && point.curve == curve && OnlyHolds(objects', PublicObject, name, point)
    ensures (exists point: PublicKey :: OnlyHolds(objects', PublicObject, name, point)) ==> Holding(objects, PublicObject, name) == {}
  {
    var pub: Handle, priv: Handle :|
      && pub !in objects && priv !in objects && pub != priv
      && objects'.Keys == objects.Keys + {pub, priv} && Extends(objects, objects')
      && Carries(objects'[pub], PublicObject, name) && Carries(objects'[priv], PrivateObject, name)
      && objects'[pub].point.Ec? && objects'[pub].point.curve == curve;
    assert pub in Holding(objects', PublicObject, name);
    forall h | h in Holding(objects, PublicObject, name) ensures h in Holding(objects', PublicObject, name) && h != pub {
    }
    if Holding(objects, PublicObject, name) == {} {
      assert forall h <- objects :: h !in Holding(objects, PublicObject, name);
      assert Holding(objects', PublicObject, name) == {pub};
      assert OnlyHolds(objects', PublicObject, name, objects'[pub].point);
    }
  }

  function HandlesOf(objects: Objects, class_: ObjectClass): set<Handle> {
    set h | h in objects && objects[h].class_ == class_
  }

  lemma {:induction false} SomeListing(left: set<Handle>) returns (listing: seq<Handle>)
    ensures (forall h :: h in listing <==> h in left) && forall i, j :: 0 <= i < j < |listing| ==> listing[i] != listing[j]
    decreases left
  {
    if left == {} {
      listing := [];
    } else {
      var h :| h in left;
      var rest := SomeListing(left - {h});
      listing := [h] + rest;
    }
  }

  function DecodePoint(curve: Curve, o: KeyObject): Option<PublicKey> {
    if o.point.Ec? && o.point.curve == curve then Some(o.point) else None
  }

  class Adapter {
    var tokens: map<TokenId, Objects>
    // tokenLoggedIn and the anchor's workspace.
    var anchor: Option<Workspace>
    // The tokens that treat this application as logged in.
    var authenticated: set<TokenId>
    ghost var trace: seq<Call>
    ghost var made: seq<PublicKey>
    ghost var failures: nat
    const slots: map<nat, TokenId>

    predicate Present(ws: Workspace)
      reads this`tokens
    {
      ws.slot in slots && slots[ws.slot] in tokens
    }

    function TokenOf(ws: Workspace): TokenId
      reads this`tokens
      requires Present(ws)
    {
      slots[ws.slot]
    }

    function ObjectsOf(ws: Workspace): Objects
      reads this`tokens
      requires Present(ws)
    {
      tokens[slots[ws.slot]]
    }

    // What a search on the workspace finds.
    function Visible(ws: Workspace, class_: ObjectClass, name: string): set<Handle>
      reads this`tokens, this`authenticated
      requires Present(ws)
    {
      Seen(ObjectsOf(ws), TokenOf(ws) in authenticated, class_, name)
    }

    // The objects a search of a class looks through.
    function SeenObjects(ws: Workspace, class_: ObjectClass): Objects
      reads this`tokens, this`authenticated
      requires Present(ws)
    {
      if class_ == PrivateObject && TokenOf(ws) !in authenticated then map[] else ObjectsOf(ws)
    }

    constructor (tokens: map<TokenId, Objects>, slots: map<nat, TokenId>)
      ensures this.tokens == tokens && this.slots == slots && anchor == None && authenticated == {} && trace == []
    {
      this.tokens := tokens;
      this.slots := slots;
      anchor := None;
      authenticated := {};
      trace := [];
      made := [];
      failures := 0;
    }

    // Whether a call the token, the PIN source or the session gets through to works.
    method Works() returns (works: bool)
      modifies this`failures
      ensures works <==> failures == old(failures)
      ensures failures >= old(failures)
    {
      works := *;
      if !works {
        failures := failures + 1;
      }
    }

    method LoginToken(ws: Workspace) returns (ok: bool)
      modifies this`anchor, this`authenticated, this`trace, this`failures
      ensures failures >= old(failures)
      ensures ok <==> old(anchor) == None && Present(ws) && failures == old(failures)
      ensures ok ==>
                && old(anchor) == None && Present(ws) && anchor == Some(ws)
                && authenticated == old(authenticated) + {TokenOf(ws)}
                && trace == old(trace) + [Login(TokenOf(ws), old(authenticated))]
      ensures !ok ==> anchor == old(anchor) && authenticated == old(authenticated) && trace == old(trace)
    {
      if anchor.Some? || !Present(ws) {
        return false;
      }
      var works := Works();
      if !works {
        return false;
      }
      trace := trace + [Login(TokenOf(ws), authenticated)];
      anchor := Some(ws);
      authenticated := authenticated + {TokenOf(ws)};
      ok := true;
    }

    // The flag is cleared whatever the token answers. A logout that fails may leave the
    // token logged in.
    method LogoutToken() returns (ok: bool)
      requires anchor.Some? ==> Present(anchor.value)
      modifies this`anchor, this`authenticated, this`trace, this`failures
      ensures failures >= old(failures) && (ok <==> failures == old(failures))
      ensures anchor == None
      ensures old(anchor) == None ==> ok && authenticated == old(authenticated) && trace == old(trace)
      ensures old(anchor).Some? ==>
                && trace == old(trace) + [Logout]
                && old(authenticated) - {old(TokenOf(anchor.value))} <= authenticated <= old(authenticated)
                && (ok ==> authenticated == old(authenticated) - {old(TokenOf(anchor.value))})
    {
      if anchor == None {
        return true;
      }
      var token := TokenOf(anchor.value);
      ok := Works();
      var leaves := *;
      if ok || leaves {
        authenticated := authenticated - {token};
      }
      anchor := None;
      trace := trace + [Logout];
    }

    // Every matching object, whatever the batches it came in.
    method FindObjects(ws: Workspace, class_: ObjectClass, name: string) returns (found: Option<set<Handle>>)
      modifies this`failures
      ensures failures >= old(failures)
      ensures found.Some? <==> Present(ws) && failures == old(failures)
      ensures found.Some? ==> found.value == Visible(ws, class_, name)
    {
      var works := Works();
      found := if works && Present(ws) then Some(Visible(ws, class_, name)) else None;
    }

    // Every object of a class a search finds, in whatever order the token gives them.
    method ListObjects(ws: Workspace, class_: ObjectClass) returns (found: Option<seq<Handle>>)
      modifies this`failures
      ensures failures >= old(failures)
      ensures found.Some? <==> Present(ws) && failures == old(failures)
      ensures found.Some? ==> Lists(SeenObjects(ws, class_), class_, found.value)
    {
      var works := Works();
      if !works || !Present(ws) {
        return None;
      }
      ghost var some := SomeListing(HandlesOf(SeenObjects(ws, class_), class_));
      assert Lists(SeenObjects(ws, class_), class_, some);
      var listing: seq<Handle> :| Lists(SeenObjects(ws, class_), class_, listing);
      found := Some(listing);
    }

    // An object's attributes, as the token reports them.
    method GetAttributes(ws: Workspace, h: Handle) returns (o: Option<KeyObject>)
      modifies this`failures
      ensures failures >= old(failures)
      ensures o.Some? <==> Present(ws) && h in ObjectsOf(ws) && failures == old(failures)
      ensures o.Some? ==> o.value == ObjectsOf(ws)[h]
    {
      var works := Works();
      o := if works && Present(ws) && h in ObjectsOf(ws) then Some(ObjectsOf(ws)[h]) else None;
    }

    method GenerateKeyPair(ws: Workspace, curve: Curve, name: string, extractable: bool) returns (ok: bool)
      modifies this`tokens, this`trace, this`made, this`failures
      ensures tokens.Keys == old(tokens).Keys && failures >= old(failures)
      ensures ok <==> old(Present(ws)) && TokenOf(ws) in authenticated && failures == old(failures)
      ensures ok ==>
                && Present(ws) && old(Present(ws))
                && (exists point :: made == old(made) + [point] && AddsPairOf(old(ObjectsOf(ws)), ObjectsOf(ws), name, point))
                && tokens == old(tokens)[TokenOf(ws) := ObjectsOf(ws)]
                && AddsPair(old(ObjectsOf(ws)), ObjectsOf(ws), curve, name)
                && trace == old(trace) + [Generate(TokenOf(ws), name, extractable)]
      ensures !ok ==> tokens == old(tokens) && trace == old(trace) && made == old(made)
    {
      var works := Works();
      if !works || !Present(ws) || TokenOf(ws) !in authenticated {
        return false;
      }
      var objects := ObjectsOf(ws);
      var x: nat, y: nat, sensitive: bool, wrappable: bool := *, *, *, *;
      var pub := Fresh(objects.Keys);
      var priv := Fresh(objects.Keys + {pub});
      var point := Ec(curve, x, y);
      var added := objects[pub := KeyObject(PublicObject, name, point, false, true)]
                          [priv := KeyObject(PrivateObject, name, point, sensitive, wrappable)];
      trace := trace + [Generate(TokenOf(ws), name, extractable)];
      made := made + [point];
      tokens := tokens[TokenOf(ws) := added];
      assert AddsPairOf(objects, added, name, point) && AddsPair(objects, added, curve, name);
      ok := true;
    }

    method DestroyObject(ws: Workspace, h: Handle) returns (ok: bool)
      modifies this`tokens, this`trace, this`failures
      ensures failures >= old(failures)
      ensures ok <==> old(Present(ws)) && h in old(ObjectsOf(ws)) && failures == old(failures)
      ensures ok ==>
                && tokens == old(tokens)[old(TokenOf(ws)) := old(ObjectsOf(ws)) - {h}]
                && trace == old(trace) + [Destroy(old(TokenOf(ws)), old(ObjectsOf(ws))[h])]
      ensures !ok ==> tokens == old(tokens) && trace == old(trace)
    {
      var works := Works();
      if !works || !Present(ws) || h !in ObjectsOf(ws) {
        return false;
      }
      trace := trace + [Destroy(TokenOf(ws), ObjectsOf(ws)[h])];
      tokens := tokens[TokenOf(ws) := ObjectsOf(ws) - {h}];
      ok := true;
    }

    // Signing with the private object h: the key that made the signature.
    method Sign(ws: Workspace, h: Handle) returns (signer: Option<PublicKey>)
      modifies this`failures
      ensures failures >= old(failures)
      ensures signer.Some? <==> Present(ws) && h in ObjectsOf(ws) && failures == old(failures)
      ensures signer.Some? ==> signer.value == ObjectsOf(ws)[h].point
    {
      var works := Works();
      signer := if works && Present(ws) && h in ObjectsOf(ws) then Some(ObjectsOf(ws)[h].point) else None;
    }

    // The one object of a class under a label: none and several are both errors, told apart.
    method FindKeyByLabel(ws: Workspace, class_: ObjectClass, name: string) returns (found: Result<Handle, FindError>)
      modifies this`failures
      ensures failures >= old(failures)
      ensures found == Err(FindFailed) <==> !Present(ws) || failures > old(failures)
      ensures found.Ok? ==> Present(ws) && Visible(ws, class_, name) == {found.value}
      ensures found.Err? && found.error != FindFailed ==> |Visible(ws, class_, name)| != 1
      ensures found == Err(KeyNotFound) ==> Present(ws) && Visible(ws, class_, name) == {}
      ensures found == Err(AmbiguousLabel) ==> Present(ws) && |Visible(ws, class_, name)| > 1
    {
      var handles := FindObjects(ws, class_, name);
      if handles.None? {
        return Err(FindFailed);
      }
      if |handles.value| == 0 {
        return Err(KeyNotFound);
      }
      if |handles.value| > 1 {
        return Err(AmbiguousLabel);
      }
      var h :| h in handles.value;
      assert handles.value == {h} by {
        assert |handles.value - {h}| == 0;
      }
      found := Ok(h);
    }

    // Whether nothing carries the label. An ambiguous label is not free.
    method LabelIsFree(ws: Workspace, class_: ObjectClass, name: string) returns (free: Result<bool, FindError>)
      modifies this`failures
      ensures failures >= old(failures)
      ensures free.Ok? ==> Present(ws) && failures == old(failures) && (free.value <==> Visible(ws, class_, name) == {})
      ensures failures == old(failures) && Present(ws) ==> (free.Err? <==> |Visible(ws, class_, name)| > 1)
      ensures free == Err(FindFailed) <==> !Present(ws) || failures > old(failures)
      ensures free.Err? ==> free.error == FindFailed || free.error == AmbiguousLabel
    {
      var found := FindKeyByLabel(ws, class_, name);
      match found {
        case Ok(_) => free := Ok(false);
        case Err(KeyNotFound) => free := Ok(true);
        case Err(e) => free := Err(e);
      }
    }
  }

  // A handle the token has not used.
  method Fresh(used: set<Handle>) returns (h: Handle)
    ensures h !in used
  {
    h := 0;
    var left := used;
    while h in used
      invariant forall k :: 0 <= k < h ==> k in used
      invariant left == set k | k in used && k >= h
      decreases |left|
    {
      assert h in left;
      left := left - {h};
      h := h + 1;
    }
  }
}
