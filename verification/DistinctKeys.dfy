/**
How far provisioning keeps keys apart (findDuplicatePoint in internal/signingkey): the scan's
answer "" stands for no match and for a match without a label, so that an unlabelled public
object hides a repeated point. When that can happen, exactly, for one scan, for one
provisioning and for all runs from a token.
*/
module DistinctKeys {
  import opened Certificate
  import opened SigningKey
  import opened Text
  import opened Token

  // One scan.

  // A token may list the unlabelled object first, and the scan then answers "".
  lemma UnlabelledFirst(objects: Objects, key: PublicKey, own: string) returns (listing: seq<Handle>)
    requires own != "" && HeldUnlabelled(objects, key)
    ensures Lists(objects, PublicObject, listing) && FirstCarrying(objects, listing, key, own) == ""
  {
    var h: Handle :| h in objects && Carries(objects[h], PublicObject, "") && objects[h].point == key;
    var rest := SomeListing(HandlesOf(objects, PublicObject) - {h});
    listing := [h] + rest;
    assert Lists(objects, PublicObject, listing);
  }

  lemma PublicListing(objects: Objects) returns (listing: seq<Handle>)
    ensures Lists(objects, PublicObject, listing)
  {
    listing := SomeListing(HandlesOf(objects, PublicObject));
  }

  ghost predicate Tells(objects: Objects, listing: seq<Handle>, key: PublicKey, own: string)
    requires Lists(objects, PublicObject, listing)
  {
    FirstCarrying(objects, listing, key, own) != "" <==> HeldElsewhere(objects, key, own)
  }

  /**
  In whatever order the token lists its objects, the scan tells a point held under another
  label from one that is not, if and only if no unlabelled public object carries the point.
  */
  lemma ScanTellsIff(objects: Objects, key: PublicKey, own: string)
    requires own != ""
    ensures (forall listing :: Lists(objects, PublicObject, listing) ==> Tells(objects, listing, key, own))
       <==> !HeldUnlabelled(objects, key)
  {
    if HeldUnlabelled(objects, key) {
      var listing := UnlabelledFirst(objects, key, own);
      assert !Tells(objects, listing, key, own) by {
        var h: Handle :| h in objects && Carries(objects[h], PublicObject, "") && objects[h].point == key;
        assert HeldElsewhere(objects, key, own);
      }
    } else {
      forall listing | Lists(objects, PublicObject, listing) ensures Tells(objects, listing, key, own) {
        ScanSees(objects, listing, key, own);
      }
    }
  }

  /** The scan may answer "" exactly when no other object carries the point or an unlabelled one does. */
  lemma PassesIff(objects: Objects, key: PublicKey, own: string)
    requires own != ""
    ensures Answers(objects, key, own, "")
       <==> (HeldElsewhere(objects, key, own) ==> HeldUnlabelled(objects, key))
  {
    if Answers(objects, key, own, "") {
      var listing :| Lists(objects, PublicObject, listing) && FirstCarrying(objects, listing, key, own) == "";
      ScanSees(objects, listing, key, own);
    }
    if HeldUnlabelled(objects, key) {
      var listing := UnlabelledFirst(objects, key, own);
    } else if !HeldElsewhere(objects, key, own) {
      var listing := PublicListing(objects);
      ScanSees(objects, listing, key, own);
    }
  }

  // One provisioning.

  lemma {:induction false} AboveAll(used: set<Handle>) returns (bound: Handle)
    ensures forall h <- used :: h < bound
    decreases used
  {
    if used == {} {
      bound := 0;
    } else {
      var h :| h in used;
      var rest := AboveAll(used - {h});
      bound := if h < rest then rest else h + 1;
      assert forall g <- used :: g == h || g in used - {h};
    }
  }

  // The token with a fresh protected pair under a label.
  ghost predicate WithPair(objects: Objects, name: string, key: PublicKey, objects': Objects) {
    exists pub: Handle, priv: Handle ::
      && pub !in objects && priv !in objects && pub != priv
      && objects' == objects[pub := KeyObject(PublicObject, name, key, false, true)][priv := KeyObject(PrivateObject, name, key, true, false)]
  }

  lemma MakePair(objects: Objects, name: string, key: PublicKey) returns (objects': Objects)
    ensures WithPair(objects, name, key, objects')
  {
    var pub := AboveAll(objects.Keys);
    assert pub !in objects.Keys && pub + 1 !in objects.Keys;
    objects' := objects[pub := KeyObject(PublicObject, name, key, false, true)][pub + 1 := KeyObject(PrivateObject, name, key, true, false)];
  }

  lemma PairAdds(objects: Objects, name: string, key: PublicKey, objects': Objects)
    requires WithPair(objects, name, key, objects') && key.Ec?
    ensures AddsPair(objects, objects', key.curve, name) && objects' != objects
    ensures name == "" ==> HeldUnlabelled(objects', key)
    ensures HeldUnlabelled(objects, key) ==> HeldUnlabelled(objects', key)
  {
    var pub: Handle, priv: Handle :|
      && pub !in objects && priv !in objects && pub != priv
      && objects' == objects[pub := KeyObject(PublicObject, name, key, false, true)][priv := KeyObject(PrivateObject, name, key, true, false)];
    assert objects'[pub].point == key && pub in objects' && priv in objects';
    if HeldUnlabelled(objects, key) {
      var h: Handle :| h in objects && Carries(objects[h], PublicObject, "") && objects[h].point == key;
      assert objects'[h] == objects[h];
    }
  }

  // A repeated key that provisioning hands out, as an unlabelled object carries it.
  lemma RepeatedIsProvisioned(objects: Objects, name: string, key: PublicKey, objects': Objects)
    requires WithPair(objects, name, key, objects') && key.Ec? && Free(objects, name) && HeldUnlabelled(objects, key)
    ensures Provisioned(objects, objects', Key(name, key, true, false), name, key.curve)
  {
    PairAdds(objects, name, key, objects');
    var pub: Handle, priv: Handle :|
      && pub !in objects && priv !in objects && pub != priv
      && objects' == objects[pub := KeyObject(PublicObject, name, key, false, true)][priv := KeyObject(PrivateObject, name, key, true, false)];
    assert forall h <- objects :: h !in Holding(objects, PublicObject, name) && h !in Holding(objects, PrivateObject, name);
    assert Holding(objects', PublicObject, name) == {pub};
    assert Holding(objects', PrivateObject, name) == {priv};
  }

  // The token may make the live key under n again.
  lemma LiveIsRepeated(objects: Objects, live: Live, name: string, n: string)
    requires n in live && n != name && live[n].Ec? && Free(objects, name) && HeldUnlabelled(objects, live[n])
    ensures !StaysDistinct(objects, live, name, live[n].curve)
  {
    var objects' := MakePair(objects, name, live[n]);
    RepeatedIsProvisioned(objects, name, live[n], objects');
    var live' := live[name := live[n]];
    assert n in live' && name in live' && live'[n] == live'[name];
  }

  ghost predicate StaysDistinct(objects: Objects, live: Live, name: string, curve: Curve) {
    forall objects': Objects, key: Key ::
      Provisioned(objects, objects', key, name, curve) ==> Distinct(live[name := key.public])
  }

  /**
  The next provisioning under a free label keeps the live keys distinct, whatever the token
  generates, if and only if no unlabelled public object carries a live key of its curve.
  */
  lemma StaysDistinctIff(objects: Objects, live: Live, name: string, curve: Curve)
    requires Kept(objects, live) && Distinct(live) && Free(objects, name)
    ensures StaysDistinct(objects, live, name, curve)
       <==> forall n <- live :: live[n].Ec? && live[n].curve == curve ==> !HeldUnlabelled(objects, live[n])
  {
    forall n <- live ensures n != name {
      HeldIsTaken(objects, PublicObject, n, live[n]);
    }
    if n :| n in live && live[n].Ec? && live[n].curve == curve && HeldUnlabelled(objects, live[n]) {
      LiveIsRepeated(objects, live, name, n);
    } else {
      forall objects': Objects, key: Key | Provisioned(objects, objects', key, name, curve)
        ensures Distinct(live[name := key.public])
      {
        ProvisionedIsNew(objects, objects', live, key, name, curve);
      }
    }
  }

  // All runs.

  function As(k: nat): string {
    if k == 0 then [] else ['a'] + As(k - 1)
  }

  function LongLabel(k: nat): string {
    As(k) + "a-v1"
  }

  lemma {:induction false} LongLabelSplits(k: nat)
    ensures Split(LongLabel(k), '-') == [As(k + 1), "v1"] && |LongLabel(k)| == k + 4
    decreases k
  {
    if k == 0 {
      SplitShortest();
      assert As(0) + "a-v1" == "a-v1" && As(1) == "a";
    } else {
      LongLabelSplits(k - 1);
      assert LongLabel(k) == ['a'] + LongLabel(k - 1);
      SplitLonger('a', LongLabel(k - 1), '-');
      assert ['a'] + As(k) == As(k + 1);
    }
  }

  lemma {:induction false} AsAreLower(k: nat)
    ensures |As(k)| == k && forall c <- As(k) :: LowerOrDigit(c)
  {
    if k == 0 {
    } else {
      AsAreLower(k - 1);
    }
  }

  lemma LongLabelIsVersioned(k: nat)
    ensures VersionedLabel(LongLabel(k)) && |LongLabel(k)| == k + 4
  {
    LongLabelSplits(k);
    AsAreLower(k + 1);
    assert "v1"[1..] == "1";
  }

  // One character in front.
  lemma SplitLonger(c: char, s: string, sep: char)
    ensures
      var parts := Split(s, sep);
      Split([c] + s, sep) == if c == sep then [[]] + parts else [[c] + parts[0]] + parts[1..]
  {
    assert ([c] + s)[1..] == s;
  }

  lemma SplitShortest()
    ensures Split("a-v1", '-') == ["a", "v1"]
  {
    SplitLonger('1', "", '-');
    assert ['1'] + "" == "1";
    SplitLonger('v', "1", '-');
    assert ['v'] + "1" == "v1";
    SplitLonger('-', "v1", '-');
    assert ['-'] + "v1" == "-v1";
    SplitLonger('a', "-v1", '-');
    assert ['a'] + "-v1" == "a-v1" && ['a'] + "" == "a";
  }

  lemma {:induction false} LongerThanAll(objects: Objects, left: set<Handle>) returns (k: nat)
    requires left <= objects.Keys
    ensures forall h <- left :: |objects[h].name| < k
    decreases left
  {
    if left == {} {
      k := 0;
    } else {
      var h :| h in left;
      var rest := LongerThanAll(objects, left - {h});
      k := if |objects[h].name| < rest then rest else |objects[h].name| + 1;
      assert forall g <- left :: g == h || g in left - {h};
    }
  }

  lemma FreeLabel(objects: Objects) returns (name: string)
    ensures VersionedLabel(name) && Free(objects, name)
  {
    var k := LongerThanAll(objects, objects.Keys);
    name := LongLabel(k);
    LongLabelIsVersioned(k);
  }

  ghost predicate RunFrom(objects: Objects, commands: seq<Command>, answers: seq<Answer>, states: seq<Objects>) {
    AllAccounted(commands, answers, states) && states[0] == objects
  }

  // One more provisioning of a key that an unlabelled object carries: it is handed out.
  lemma ProvisionAgain(objects: Objects, commands: seq<Command>, answers: seq<Answer>, states: seq<Objects>, key: PublicKey)
    returns (name: string, commands': seq<Command>, answers': seq<Answer>, states': seq<Objects>)
    requires RunFrom(objects, commands, answers, states)
    requires key.Ec? && HeldUnlabelled(states[|commands|], key)
    ensures commands' == commands + [ProvisionKey(name, key.curve)]
    ensures RunFrom(objects, commands', answers', states') && HeldUnlabelled(states'[|commands'|], key)
    ensures name !in LiveAfter(commands, answers)
    ensures LiveAfter(commands', answers') == LiveAfter(commands, answers)[name := key]
  {
    var last := states[|commands|];
    name := FreeLabel(last);
    var after := MakePair(last, name, key);
    PairAdds(last, name, key, after);
    PairIsAdded(last, after, key.curve, name);
    RepeatedIsProvisioned(last, name, key, after);
    RunKeeps(commands, answers, states);
    ProvisionedIsNew(last, after, LiveAfter(commands, answers), Key(name, key, true, false), name, key.curve);
    AccountOne(commands, answers, states, ProvisionKey(name, key.curve), Made(key), after);
    commands', answers', states' := commands + [ProvisionKey(name, key.curve)], answers + [Made(key)], states + [after];
  }

  // Two provisionings then hand the same key out twice.
  lemma TwiceProvisioned(objects: Objects, commands: seq<Command>, answers: seq<Answer>, states: seq<Objects>, key: PublicKey)
    returns (n: string, m: string, commands': seq<Command>, answers': seq<Answer>, states': seq<Objects>)
    requires RunFrom(objects, commands, answers, states)
    requires key.Ec? && HeldUnlabelled(states[|commands|], key)
    ensures commands' == commands + [ProvisionKey(n, key.curve), ProvisionKey(m, key.curve)]
    ensures RunFrom(objects, commands', answers', states') && !Distinct(LiveAfter(commands', answers'))
  {
    n, commands', answers', states' := ProvisionAgain(objects, commands, answers, states, key);
    m, commands', answers', states' := ProvisionAgain(objects, commands', answers', states', key);
    assert commands + [ProvisionKey(n, key.curve)] + [ProvisionKey(m, key.curve)]
        == commands + [ProvisionKey(n, key.curve), ProvisionKey(m, key.curve)];
    var live := LiveAfter(commands', answers');
    assert n in live && m in live && n != m && live[n] == live[m];
  }

  // A run that has logged in and done nothing else.
  lemma LoggedIn(objects: Objects)
    ensures RunFrom(objects, [LogIn], [NoChange], [objects, objects])
    ensures LiveAfter([LogIn], [NoChange]) == map[]
  {
    AccountOne([], [], [objects], LogIn, NoChange, objects);
    assert [] + [LogIn] == [LogIn] && [] + [NoChange] == [NoChange] && [objects] + [objects] == [objects, objects];
  }

  // From this token every run in which others label their keys keeps the live ones distinct.
  ghost predicate AlwaysDistinct(objects: Objects) {
    forall commands: seq<Command>, answers: seq<Answer>, states: seq<Objects> ::
      OthersLabel(commands) && RunFrom(objects, commands, answers, states) ==> Distinct(LiveAfter(commands, answers))
  }

  /**
  From a token, every run in which others leave no unlabelled key keeps all keys provisioned
  and not destroyed since distinct, if and only if the token holds no unlabelled public key.
  */
  lemma AlwaysDistinctIff(objects: Objects)
    ensures AlwaysDistinct(objects) <==> NoUnlabelled(objects)
  {
    if NoUnlabelled(objects) {
      forall commands: seq<Command>, answers: seq<Answer>, states: seq<Objects>
        | OthersLabel(commands) && RunFrom(objects, commands, answers, states)
        ensures Distinct(LiveAfter(commands, answers))
      {
        RunKeepsDistinct(commands, answers, states);
      }
    } else {
      var h: Handle :| h in objects && objects[h].class_ == PublicObject && objects[h].point.Ec? && objects[h].name == "";
      var key := objects[h].point;
      LoggedIn(objects);
      var n, m, commands, answers, states := TwiceProvisioned(objects, [LogIn], [NoChange], [objects, objects], key);
      assert OthersLabel(commands);
    }
  }

  /** From any token, one unlabelled key made by others is enough to have the same key handed out twice. */
  lemma UnlabelledHidesRepeats(objects: Objects, key: PublicKey)
    returns (n: string, m: string, answers: seq<Answer>, states: seq<Objects>)
    requires key.Ec?
    ensures
      var commands := [LogIn, Command.OtherKey("", key.curve), ProvisionKey(n, key.curve), ProvisionKey(m, key.curve)];
      RunFrom(objects, commands, answers, states) && !Distinct(LiveAfter(commands, answers))
  {
    LoggedIn(objects);
    var held := MakePair(objects, "", key);
    PairAdds(objects, "", key, held);
    var other := Command.OtherKey("", key.curve);
    AccountOne([LogIn], [NoChange], [objects, objects], other, NoChange, held);
    var commands: seq<Command>;
    n, m, commands, answers, states :=
      TwiceProvisioned(objects, [LogIn] + [other], [NoChange] + [NoChange], [objects, objects] + [held], key);
    assert commands == [LogIn, other, ProvisionKey(n, key.curve), ProvisionKey(m, key.curve)];
  }
}
