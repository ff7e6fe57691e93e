/**
Name patterns compiled to regular expressions (internal/entitlement/entitlement.go). The
expression text the compiler emits is parsed by a reader of the subset of the syntax it
uses and run with the library's search semantics; what it accepts is compared with a direct
reading of the glob. Case folding is any relation between characters.
*/
module Glob {
  import opened Text
  import opened Wrappers

  type Fold = (char, char) -> bool

  predicate Exactly(c: char, d: char) {
    c == d
  }

  // Compilation.

  const META: string := "\\.+*?()|[]{}^$"

  function QuotedChar(c: char): (quoted: string)
    ensures quoted != []
  {
    if c in META then ['\\', c] else [c]
  }

  function Quoted(part: string): string {
    if part == [] then [] else QuotedChar(part[0]) + Quoted(part[1..])
  }

  function QuotedAll(parts: seq<string>): (quoted: seq<string>)
    ensures |quoted| == |parts|
    ensures forall i :: 0 <= i < |parts| ==> quoted[i] == Quoted(parts[i])
  {
    seq(|parts|, i requires 0 <= i < |parts| => Quoted(parts[i]))
  }

  function Expression(glob: string, fold: bool): string {
    (if fold then "(?i)" else "") + "^" + Join(QuotedAll(Split(glob, '*')), ".*") + "$"
  }

  // The compiler: quote the pieces between stars in place, and join them.
  method GlobRegexp(glob: string, fold: bool) returns (expr: string)
    ensures expr == Expression(glob, fold)
  {
    var parts := Split(glob, '*');
    for i := 0 to |parts|
      invariant |parts| == |Split(glob, '*')|
      invariant forall j :: 0 <= j < i ==> parts[j] == Quoted(Split(glob, '*')[j])
      invariant forall j :: i <= j < |parts| ==> parts[j] == Split(glob, '*')[j]
    {
      parts := parts[i := Quoted(parts[i])];
    }
    assert parts == QuotedAll(Split(glob, '*'));
    expr := "^" + Join(parts, ".*") + "$";
    if fold {
      expr := "(?i)" + expr;
    }
  }

  // The reader.

  datatype Item = Begin | End | Dot | DotStar | Literal(c: char)

  predicate Alphanumeric(c: char) {
    '0' <= c <= '9' || 'a' <= c <= 'z' || 'A' <= c <= 'Z'
  }

  // The items of an expression in the subset: anchors, dots, starred dots, escaped
  // punctuation and plain characters. Anything else is outside it.
  function Items(expr: string): Option<seq<Item>> {
    if expr == [] then Some([])
    else if expr[0] == '^' then Prepend(Begin, Items(expr[1..]))
    else if expr[0] == '$' then Prepend(End, Items(expr[1..]))
    else if expr[0] == '.' && |expr| > 1 && expr[1] == '*' then Prepend(DotStar, Items(expr[2..]))
    else if expr[0] == '.' then Prepend(Dot, Items(expr[1..]))
    else if expr[0] == '\\' then
      if |expr| > 1 && expr[1] < '\U{80}' && !Alphanumeric(expr[1]) then Prepend(Literal(expr[1]), Items(expr[2..])) else None
    else if expr[0] in META then None
    else Prepend(Literal(expr[0]), Items(expr[1..]))
  }

  function Prepend(item: Item, rest: Option<seq<Item>>): Option<seq<Item>> {
    if rest.None? then None else Some([item] + rest.value)
  }

  datatype Regexp = Regexp(fold: bool, items: seq<Item>)

  function Parse(expr: string): Option<Regexp> {
    var fold := "(?i)" <= expr;
    var items := Items(if fold then expr[4..] else expr);
    if items.None? then None else Some(Regexp(fold, items.value))
  }

  // Whether the items match name from position i on. A dot stands for any character but a
  // newline, and the anchors for the two ends of the text.
  predicate MatchesAt(items: seq<Item>, name: string, i: nat, same: Fold)
    requires i <= |name|
    decreases |items|, |name| - i
  {
    if items == [] then true
    else
      match items[0]
      case Begin => i == 0 && MatchesAt(items[1..], name, i, same)
      case End => i == |name| && MatchesAt(items[1..], name, i, same)
      case Dot => i < |name| && name[i] != '\n' && MatchesAt(items[1..], name, i + 1, same)
      case DotStar =>
        || MatchesAt(items[1..], name, i, same)
        || (i < |name| && name[i] != '\n' && MatchesAt(items, name, i + 1, same))
      case Literal(c) => i < |name| && same(c, name[i]) && MatchesAt(items[1..], name, i + 1, same)
  }

  predicate MatchesSomewhere(items: seq<Item>, name: string, same: Fold) {
    exists i :: 0 <= i <= |name| && MatchesAt(items, name, i, same)
  }

  // MatchString: a match anywhere in the text.
  predicate MatchString(expr: string, name: string, folds: Fold) {
    Parse(expr).Some? && MatchesSomewhere(Parse(expr).value.items, name, if Parse(expr).value.fold then folds else Exactly)
  }

  // The direct reading: a star is any run of characters that are not newlines, anything
  // else is itself.
  predicate GlobMatches(glob: string, name: string, same: Fold)
    decreases |glob| + |name|
  {
    if glob == [] then name == []
    else if glob[0] == '*' then
      || GlobMatches(glob[1..], name, same)
      || (name != [] && name[0] != '\n' && GlobMatches(glob, name[1..], same))
    else name != [] && same(glob[0], name[0]) && GlobMatches(glob[1..], name[1..], same)
  }

  // What the compiler emits for each character, and what the reader makes of it.

  function EmittedChar(c: char): string {
    if c == '*' then ".*" else QuotedChar(c)
  }

  function ItemOf(c: char): Item {
    if c == '*' then DotStar else Literal(c)
  }

  function Emitted(glob: string): string {
    if glob == [] then [] else EmittedChar(glob[0]) + Emitted(glob[1..])
  }

  function ItemsOf(glob: string): seq<Item> {
    if glob == [] then [] else [ItemOf(glob[0])] + ItemsOf(glob[1..])
  }

  lemma JoinAfterStar(parts: seq<string>, sep: string)
    requires parts != []
    ensures Join([[]] + parts, sep) == sep + Join(parts, sep)
  {
    assert ([[]] + parts)[1..] == parts;
    assert [] + sep + Join(parts, sep) == sep + Join(parts, sep);
  }

  lemma JoinAfterText(parts: seq<string>, text: string, sep: string)
    requires parts != []
    ensures Join([text + parts[0]] + parts[1..], sep) == text + Join(parts, sep)
  {
    var longer := [text + parts[0]] + parts[1..];
    assert longer[1..] == parts[1..];
    if |parts| > 1 {
      assert (text + parts[0]) + sep + Join(parts[1..], sep) == text + (parts[0] + sep + Join(parts[1..], sep));
    }
  }

  /** Quoting the pieces and joining them is the same as translating character by character. */
  lemma {:induction false} JoinedIsEmitted(glob: string)
    ensures Join(QuotedAll(Split(glob, '*')), ".*") == Emitted(glob)
  {
    if glob == [] {
      assert QuotedAll([[]]) == [[]];
    } else {
      JoinedIsEmitted(glob[1..]);
      var quotedRest := QuotedAll(Split(glob[1..], '*'));
      if glob[0] == '*' {
        assert QuotedAll(Split(glob, '*')) == [[]] + quotedRest;
        JoinAfterStar(quotedRest, ".*");
      } else {
        QuotedHead(glob);
        JoinAfterText(quotedRest, QuotedChar(glob[0]), ".*");
      }
    }
  }

  lemma QuotedPrefix(c: char, parts: seq<string>)
    requires parts != []
    ensures QuotedAll([[c] + parts[0]] + parts[1..]) == [QuotedChar(c) + Quoted(parts[0])] + QuotedAll(parts)[1..]
  {
    assert ([c] + parts[0])[1..] == parts[0];
    assert Quoted([c] + parts[0]) == QuotedChar(c) + Quoted(parts[0]);
  }

  lemma QuotedHead(glob: string)
    requires glob != [] && glob[0] != '*'
    ensures
      var rest := QuotedAll(Split(glob[1..], '*'));
      QuotedAll(Split(glob, '*')) == [QuotedChar(glob[0]) + rest[0]] + rest[1..]
  {
    QuotedPrefix(glob[0], Split(glob[1..], '*'));
  }

  lemma EmittedCons(glob: string, tail: string, items: seq<Item>)
    requires glob != []
    ensures Emitted(glob) + tail == EmittedChar(glob[0]) + (Emitted(glob[1..]) + tail)
    ensures ItemsOf(glob) + items == [ItemOf(glob[0])] + (ItemsOf(glob[1..]) + items)
  {
    Regroup(EmittedChar(glob[0]), Emitted(glob[1..]), tail);
    Regroup([ItemOf(glob[0])], ItemsOf(glob[1..]), items);
  }

  lemma Regroup<T>(a: seq<T>, b: seq<T>, c: seq<T>)
    ensures (a + b) + c == a + (b + c)
  {
  }

  lemma CharIsRead(c: char, rest: string)
    ensures Items(EmittedChar(c) + rest) == Prepend(ItemOf(c), Items(rest))
  {
    if c == '*' {
      StarIsRead(rest);
    } else {
      QuotedIsRead(c, rest);
    }
  }

  /** The reader makes of the emitted text one item for each character of the glob. */
  lemma {:induction false} EmittedIsRead(glob: string, tail: string, items: seq<Item>)
    requires Items(tail) == Some(items)
    ensures Items(Emitted(glob) + tail) == Some(ItemsOf(glob) + items)
  {
    if glob == [] {
      assert Emitted(glob) + tail == tail && ItemsOf(glob) + items == items;
    } else {
      EmittedIsRead(glob[1..], tail, items);
      CharIsRead(glob[0], Emitted(glob[1..]) + tail);
      EmittedCons(glob, tail, items);
    }
  }

  lemma StarIsRead(rest: string)
    ensures Items(".*" + rest) == Prepend(DotStar, Items(rest))
  {
    var expr := ".*" + rest;
    assert expr[0] == '.' && expr[1] == '*' && expr[2..] == rest;
  }

  lemma QuotedIsRead(c: char, rest: string)
    ensures Items(QuotedChar(c) + rest) == Prepend(Literal(c), Items(rest))
  {
    var expr := QuotedChar(c) + rest;
    if c in META {
      assert expr == ['\\', c] + rest;
      assert expr[0] == '\\' && expr[1] == c && expr[2..] == rest;
      MetaIsPunctuation(c);
    } else {
      assert expr == [c] + rest;
      assert expr[0] == c && expr[1..] == rest;
      assert META[1] == '.' && META[0] == '\\' && META[12] == '^' && META[13] == '$';
    }
  }

  lemma MetaIsPunctuation(c: char)
    requires c in META
    ensures c < '\U{80}' && !Alphanumeric(c)
  {
  }

  lemma AnchorsAreRead(glob: string)
    ensures Items("^" + Emitted(glob) + "$") == Some([Begin] + ItemsOf(glob) + [End])
  {
    DollarIsRead();
    EmittedIsRead(glob, "$", [End]);
    BeginIsRead(Emitted(glob) + "$");
    assert "^" + (Emitted(glob) + "$") == "^" + Emitted(glob) + "$";
    assert [Begin] + (ItemsOf(glob) + [End]) == [Begin] + ItemsOf(glob) + [End];
  }

  lemma DollarIsRead()
    ensures Items("$") == Some([End])
  {
    var expr := "$";
    assert expr[0] == '$' && expr[1..] == [];
    assert Items([]) == Some([]);
    assert [End] + [] == [End];
  }

  lemma BeginIsRead(rest: string)
    ensures Items("^" + rest) == Prepend(Begin, Items(rest))
  {
    var expr := "^" + rest;
    assert expr[0] == '^' && expr[1..] == rest;
  }

  /** The compiled expression is in the subset, and is the glob between the two anchors. */
  lemma ExpressionIsRead(glob: string, fold: bool)
    ensures Parse(Expression(glob, fold)) == Some(Regexp(fold, [Begin] + ItemsOf(glob) + [End]))
  {
    JoinedIsEmitted(glob);
    AnchorsAreRead(glob);
    var body := "^" + Emitted(glob) + "$";
    if fold {
      assert Expression(glob, true) == "(?i)" + body;
      assert ("(?i)" + body)[4..] == body;
    } else {
      assert Expression(glob, false) == body;
      assert body[0] == '^';
    }
  }

  lemma {:induction false} ItemsMatchAsGlob(glob: string, name: string, i: nat, same: Fold)
    requires i <= |name|
    ensures MatchesAt(ItemsOf(glob) + [End], name, i, same) <==> GlobMatches(glob, name[i..], same)
    decreases |glob|, |name| - i
  {
    var items := ItemsOf(glob) + [End];
    if glob == [] {
      assert items == [End] && items[1..] == [];
    } else {
      assert items[1..] == ItemsOf(glob[1..]) + [End];
      ItemsMatchAsGlob(glob[1..], name, i, same);
      if i < |name| {
        assert name[i..][1..] == name[i + 1..];
        if glob[0] == '*' {
          ItemsMatchAsGlob(glob, name, i + 1, same);
        } else {
          ItemsMatchAsGlob(glob[1..], name, i + 1, same);
        }
      }
    }
  }

  /**
  The translation keeps the meaning: for every glob, name and fold, the compiled expression
  accepts the name exactly when the direct reading of the glob does.
  */
  lemma CompiledMatchesAsGlob(glob: string, name: string, fold: bool, folds: Fold)
    ensures MatchString(Expression(glob, fold), name, folds) <==> GlobMatches(glob, name, if fold then folds else Exactly)
  {
    var same := if fold then folds else Exactly;
    ExpressionIsRead(glob, fold);
    var items := [Begin] + ItemsOf(glob) + [End];
    assert items[1..] == ItemsOf(glob) + [End];
    ItemsMatchAsGlob(glob, name, 0, same);
    assert name[0..] == name;
    assert MatchesAt(items, name, 0, same) <==> GlobMatches(glob, name, same);
  }

  // The reading the documentation gives a star: any run of characters at all.
  predicate StarsMatchAnything(glob: string, name: string, same: Fold)
    decreases |glob| + |name|
  {
    if glob == [] then name == []
    else if glob[0] == '*' then
      StarsMatchAnything(glob[1..], name, same) || (name != [] && StarsMatchAnything(glob, name[1..], same))
    else name != [] && same(glob[0], name[0]) && StarsMatchAnything(glob[1..], name[1..], same)
  }

  lemma {:induction false} NarrowerThanDocumented(glob: string, name: string, same: Fold)
    ensures GlobMatches(glob, name, same) ==> StarsMatchAnything(glob, name, same)
    ensures '\n' !in name ==> (GlobMatches(glob, name, same) <==> StarsMatchAnything(glob, name, same))
    decreases |glob| + |name|
  {
    if glob == [] {
    } else {
      NarrowerThanDocumented(glob[1..], name, same);
      if name != [] {
        NarrowerThanDocumented(glob, name[1..], same);
        NarrowerThanDocumented(glob[1..], name[1..], same);
      }
    }
  }

  lemma {:induction false} LoneStar(name: string, same: Fold)
    ensures StarsMatchAnything("*", name, same)
    ensures GlobMatches("*", name, same) <==> '\n' !in name
  {
    assert "*"[1..] == "";
    if name == [] {
    } else {
      LoneStar(name[1..], same);
      assert name == [name[0]] + name[1..];
    }
  }

  /**
  Where the two readings part: the code and its documentation agree on every glob exactly
  for the names without a newline.
  */
  lemma AgreesWithDocumentation(name: string, same: Fold)
    ensures '\n' !in name <==> forall glob: string :: GlobMatches(glob, name, same) <==> StarsMatchAnything(glob, name, same)
  {
    LoneStar(name, same);
    forall glob: string
      ensures '\n' !in name ==> (GlobMatches(glob, name, same) <==> StarsMatchAnything(glob, name, same))
    {
      NarrowerThanDocumented(glob, name, same);
    }
    assert GlobMatches("*", name, same) <==> '\n' !in name;
  }
}
