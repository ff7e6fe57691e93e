/** Splitting and joining text, and the shape of a key label (internal/pkcs11/adapters.go). */
module Text {

  // The pieces of s between occurrences of sep; always at least one.
  function Split(s: string, sep: char): (parts: seq<string>)
    ensures |parts| >= 1
  {
    if s == [] then [[]]
    else
      var rest := Split(s[1..], sep);
      if s[0] == sep then [[]] + rest else [[s[0]] + rest[0]] + rest[1..]
  }

  function Join(parts: seq<string>, sep: string): string {
    if parts == [] then []
    else if |parts| == 1 then parts[0]
    else parts[0] + sep + Join(parts[1..], sep)
  }

  /** Splitting cuts at every separator and nowhere else: joining the pieces restores the text. */
  lemma {:induction false} SplitJoin(s: string, sep: char)
    ensures Join(Split(s, sep), [sep]) == s
    ensures forall part <- Split(s, sep) :: sep !in part
  {
    if s == [] {
    } else {
      SplitJoin(s[1..], sep);
      var rest := Split(s[1..], sep);
      var parts := Split(s, sep);
      assert s == [s[0]] + s[1..];
      if s[0] == sep {
        assert parts[1..] == rest;
      } else if |rest| > 1 {
        assert parts[1..] == rest[1..];
      }
    }
  }

  /** Joining pieces that hold no separator and splitting again gives the pieces. */
  lemma {:induction false} JoinSplit(parts: seq<string>, sep: char)
    requires parts != [] && forall part <- parts :: sep !in part
    ensures Split(Join(parts, [sep]), sep) == parts
    decreases parts
  {
    assert parts[0] in parts;
    if |parts| == 1 {
      SplitWithout(parts[0], [], sep);
      assert parts[0] + [] == parts[0] && parts == [parts[0]];
    } else {
      assert forall part <- parts[1..] :: part in parts;
      JoinSplit(parts[1..], sep);
      var rest := Join(parts[1..], [sep]);
      assert ([sep] + rest)[1..] == rest;
      SplitWithout(parts[0], [sep] + rest, sep);
      assert parts[0] + [sep] + rest == parts[0] + ([sep] + rest);
      assert parts == [parts[0]] + parts[1..];
    }
  }

  // A piece in front, up to the first separator or the end.
  lemma {:induction false} SplitWithout(piece: string, rest: string, sep: char)
    requires sep !in piece && (rest == [] || rest[0] == sep)
    ensures Split(piece + rest, sep) == [piece] + Split(rest, sep)[1..]
    decreases piece
  {
    if piece == [] {
      assert piece + rest == rest;
      assert Split(rest, sep)[0] == [];
    } else {
      SplitWithout(piece[1..], rest, sep);
      assert (piece + rest)[1..] == piece[1..] + rest && piece == [piece[0]] + piece[1..];
    }
  }

  predicate LowerOrDigit(c: char) {
    'a' <= c <= 'z' || '0' <= c <= '9'
  }

  predicate IsDigit(c: char) {
    '0' <= c <= '9'
  }

  predicate LabelWord(word: string): (ok: bool)
    ensures ok <==> word != "" && forall i :: 0 <= i < |word| ==> 'a' <= word[i] <= 'z' || '0' <= word[i] <= '9'
  {
    assert forall i :: 0 <= i < |word| ==> word[i] in word;
    word != [] && forall c <- word :: LowerOrDigit(c)
  }

  predicate VersionWord(word: string): (ok: bool)
    ensures ok <==> exists digits: string :: word == "v" + digits && digits != "" && forall c <- digits :: '0' <= c <= '9'
  {
    assert |word| >= 1 && word[0] == 'v' ==> word == "v" + word[1..];
    |word| >= 2 && word[0] == 'v' && forall c <- word[1..] :: IsDigit(c)
  }

  // Lowercase words joined by hyphens, ending in a version, such as ca-root-key-v1.
  predicate VersionedLabel(name: string) {
    WordsOfLabel(Split(name, '-'))
  }

  predicate WordsOfLabel(words: seq<string>) {
    |words| >= 2 && (forall w <- words :: LabelWord(w)) && VersionWord(words[|words| - 1])
  }

  /** Exactly the texts that join two words or more, the last of them a version, with hyphens. */
  lemma VersionedLabelIff(name: string)
    ensures VersionedLabel(name) <==> exists words :: WordsOfLabel(words) && Join(words, "-") == name
  {
    SplitJoin(name, '-');
    if words :| WordsOfLabel(words) && Join(words, "-") == name {
      WordsComeApart(words);
    }
  }

  lemma WordsComeApart(words: seq<string>)
    requires WordsOfLabel(words)
    ensures Split(Join(words, "-"), '-') == words
  {
    forall w <- words ensures '-' !in w {
      assert LabelWord(w) && !LowerOrDigit('-');
    }
    JoinSplit(words, '-');
  }
}
