/** The string operations of Python's `str` that the message engine applies:
    `replace` of one character by another, `split` on one separator, `lower` and
    `title`, together with `Join`, the inverse of `Split`.
    Case mapping covers the ASCII letters only. */
module Text {

  /** A word token: the name of one recorded clip. */
  type Token = string

  /** `s.replace(a, b)` for single characters: every `a` becomes `b`. */
  function Replace(s: string, a: char, b: char): string
  {
    seq(|s|, i requires 0 <= i < |s| => if s[i] == a then b else s[i])
  }

  lemma ReplaceAppend(x: string, y: string, a: char, b: char)
    ensures Replace(x + y, a, b) == Replace(x, a, b) + Replace(y, a, b)
  {
    assert forall i :: 0 <= i < |x + y| ==> (x + y)[i] == if i < |x| then x[i] else y[i - |x|];
  }

  lemma ReplaceAbsent(s: string, a: char, b: char)
    requires a !in s
    ensures Replace(s, a, b) == s
  {
  }

  /** `s.split(sep)` with an explicit separator: the pieces between the
      separators, keeping empty pieces, so there is always at least one. */
  function Split(s: string, sep: char): (r: seq<string>)
    ensures |r| >= 1
  {
    if s == [] then [[]]
    else
      var rest := Split(s[1..], sep);
      if s[0] == sep then [[]] + rest else [[s[0]] + rest[0]] + rest[1..]
  }

  /** `sep.join(ts)`. */
  function Join(ts: seq<string>, sep: char): string
    requires |ts| >= 1
  {
    if |ts| == 1 then ts[0] else ts[0] + [sep] + Join(ts[1..], sep)
  }

  /** No piece of a split contains the separator. */
  lemma {:induction false} SplitPiecesLackSeparator(s: string, sep: char)
    ensures forall i :: 0 <= i < |Split(s, sep)| ==> sep !in Split(s, sep)[i]
  {
    if s != [] {
      SplitPiecesLackSeparator(s[1..], sep);
    }
  }

  /** A character absent from a string is absent from every piece of its split. */
  lemma {:induction false} SplitPiecesWithin(s: string, sep: char, c: char)
    requires c !in s
    ensures forall i :: 0 <= i < |Split(s, sep)| ==> c !in Split(s, sep)[i]
  {
    if s != [] {
      assert s == [s[0]] + s[1..];
      SplitPiecesWithin(s[1..], sep, c);
    }
  }

  /** Joining the pieces of a split gives back the string. */
  lemma {:induction false} JoinSplit(s: string, sep: char)
    ensures Join(Split(s, sep), sep) == s
  {
    if s != [] {
      var rest := Split(s[1..], sep);
      JoinSplit(s[1..], sep);
      if s[0] == sep {
        assert ([[]] + rest)[1..] == rest;
      } else if |rest| > 1 {
        var r := [[s[0]] + rest[0]] + rest[1..];
        assert r[1..] == rest[1..];
        assert Join(rest, sep) == rest[0] + [sep] + Join(rest[1..], sep);
      }
    }
  }

  /** Splitting at a separator splits the two sides independently. */
  lemma {:induction false} SplitConcat(x: string, y: string, sep: char)
    ensures Split(x + [sep] + y, sep) == Split(x, sep) + Split(y, sep)
  {
    if x == [] {
      assert x + [sep] + y == [sep] + y;
      assert ([sep] + y)[1..] == y;
    } else {
      assert (x + [sep] + y)[1..] == x[1..] + [sep] + y;
      SplitConcat(x[1..], y, sep);
    }
  }

  lemma {:induction false} SplitAbsent(w: string, sep: char)
    requires sep !in w
    ensures Split(w, sep) == [w]
  {
    if w != [] {
      SplitAbsent(w[1..], sep);
      assert [w[0]] + w[1..] == w;
    }
  }

  /** Splitting a join of separator-free pieces gives back the pieces. */
  lemma {:induction false} SplitJoin(ts: seq<string>, sep: char)
    requires |ts| >= 1
    requires forall i :: 0 <= i < |ts| ==> sep !in ts[i]
    ensures Split(Join(ts, sep), sep) == ts
  {
    if |ts| == 1 {
      SplitAbsent(ts[0], sep);
    } else {
      SplitAbsent(ts[0], sep);
      SplitJoin(ts[1..], sep);
      SplitConcat(ts[0], Join(ts[1..], sep), sep);
      assert [ts[0]] + ts[1..] == ts;
    }
  }

  /** A word: non-empty, free of the separators a number phrase uses, and
      free of '/', so that it names one clip file. */
  predicate IsWord(w: string)
  {
    w != [] && forall i :: 0 <= i < |w| ==> w[i] != '-' && w[i] != ' ' && w[i] != '/'
  }

  /** Every token of a message is a word. */
  predicate AllWords(ts: seq<Token>)
  {
    forall i :: 0 <= i < |ts| ==> IsWord(ts[i])
  }

  lemma AllWordsAppend(a: seq<Token>, b: seq<Token>)
    requires AllWords(a) && AllWords(b)
    ensures AllWords(a + b)
  {
    forall i | 0 <= i < |a + b|
      ensures IsWord((a + b)[i])
    {
      if i >= |a| {
        assert (a + b)[i] == b[i - |a|];
      }
    }
  }

  /** `s.replace('-', ' ').split(' ')`: the word tokens of a phrase. */
  function Words(s: string): seq<Token>
  {
    Split(Replace(s, '-', ' '), ' ')
  }

  /** The word tokens of a phrase rejoined with blanks give the phrase with
      its hyphens turned into blanks. */
  lemma WordsRejoin(s: string)
    ensures Join(Words(s), ' ') == Replace(s, '-', ' ')
    ensures forall i :: 0 <= i < |Words(s)| ==> '-' !in Words(s)[i] && ' ' !in Words(s)[i]
  {
    JoinSplit(Replace(s, '-', ' '), ' ');
    SplitPiecesLackSeparator(Replace(s, '-', ' '), ' ');
    SplitPiecesWithin(Replace(s, '-', ' '), ' ', '-');
  }

  lemma WordsOfWord(w: string)
    requires IsWord(w)
    ensures Words(w) == [w]
  {
    ReplaceAbsent(w, '-', ' ');
    SplitAbsent(w, ' ');
  }

  /** A hyphen or a blank between two phrases separates their words. */
  lemma WordsConcat(x: string, c: char, y: string)
    requires c == '-' || c == ' '
    ensures Words(x + [c] + y) == Words(x) + Words(y)
  {
    ReplaceAppend(x + [c], y, '-', ' ');
    ReplaceAppend(x, [c], '-', ' ');
    assert Replace([c], '-', ' ') == [' '];
    SplitConcat(Replace(x, '-', ' '), Replace(y, '-', ' '), ' ');
  }

  /** Two words joined by a hyphen or a blank split into the two words. */
  lemma WordsOfTwo(a: string, c: char, b: string)
    requires IsWord(a) && IsWord(b) && (c == '-' || c == ' ')
    ensures Words(a + [c] + b) == [a, b]
  {
    WordsConcat(a, c, b);
    WordsOfWord(a);
    WordsOfWord(b);
  }

  /** Three words joined by blanks split into the three words. */
  lemma WordsOfThree(a: string, b: string, c: string)
    requires IsWord(a) && IsWord(b) && IsWord(c)
    ensures Words(a + [' '] + b + [' '] + c) == [a, b, c]
  {
    assert a + [' '] + b + [' '] + c == a + [' '] + (b + [' '] + c);
    WordsConcat(a, ' ', b + [' '] + c);
    WordsOfTwo(b, ' ', c);
    WordsOfWord(a);
  }

  predicate IsAsciiLetter(c: char)
  {
    'a' <= c <= 'z' || 'A' <= c <= 'Z'
  }

  function LowerChar(c: char): char
  {
    if 'A' <= c <= 'Z' then (c as int + 32) as char else c
  }

  function UpperChar(c: char): char
  {
    if 'a' <= c <= 'z' then (c as int - 32) as char else c
  }

  /** `s.lower()`. */
  function Lower(s: string): string
  {
    seq(|s|, i requires 0 <= i < |s| => LowerChar(s[i]))
  }

  /** Lower-casing keeps a word a word: it changes only the letters A to Z. */
  lemma LowerWord(s: string)
    requires IsWord(s)
    ensures IsWord(Lower(s))
  {
    forall i | 0 <= i < |s|
      ensures Lower(s)[i] != '-' && Lower(s)[i] != ' ' && Lower(s)[i] != '/'
    {
      assert s[i] in s;
    }
  }

  /** `s.title()` scanning left to right: a letter is upper-cased when the
      character before it (or `prevCased` at the start) is not a letter, and
      lower-cased otherwise; other characters are kept. */
  function TitleFrom(s: string, prevCased: bool): string
  {
    if s == [] then []
    else
      var c := if !IsAsciiLetter(s[0]) then s[0]
               else if prevCased then LowerChar(s[0])
               else UpperChar(s[0]);
      [c] + TitleFrom(s[1..], IsAsciiLetter(s[0]))
  }

  /** What `title` makes of the character at position `i`, looking only at it
      and at its left neighbour. */
  function TitleAt(s: string, i: nat): char
    requires i < |s|
  {
    if !IsAsciiLetter(s[i]) then s[i]
    else if i > 0 && IsAsciiLetter(s[i - 1]) then LowerChar(s[i])
    else UpperChar(s[i])
  }

  lemma {:induction false} TitleFromAt(s: string, prevCased: bool, i: nat)
    requires i < |s|
    requires i > 0 || !prevCased
    ensures |TitleFrom(s, prevCased)| == |s|
    ensures TitleFrom(s, prevCased)[i] == TitleAt(s, i)
  {
    if i == 0 {
      TitleFromLength(s[1..], IsAsciiLetter(s[0]));
    } else {
      TitleFromAtWithLeft(s[1..], IsAsciiLetter(s[0]), i - 1, s[0]);
    }
  }

  lemma {:induction false} TitleFromLength(s: string, prevCased: bool)
    ensures |TitleFrom(s, prevCased)| == |s|
  {
    if s != [] {
      TitleFromLength(s[1..], IsAsciiLetter(s[0]));
    }
  }

  /** Position `i` of `TitleFrom(s, IsAsciiLetter(left))` is what `title` makes
      of position `i + 1` of `[left] + s`. */
  lemma {:induction false} TitleFromAtWithLeft(s: string, prevCased: bool, i: nat, left: char)
    requires i < |s|
    requires prevCased == IsAsciiLetter(left)
    ensures |TitleFrom(s, prevCased)| == |s|
    ensures TitleFrom(s, prevCased)[i] == TitleAt([left] + s, i + 1)
  {
    TitleFromLength(s, prevCased);
    if i > 0 {
      TitleFromAtWithLeft(s[1..], IsAsciiLetter(s[0]), i - 1, s[0]);
      assert ([s[0]] + s[1..])[i] == s[i] && s[1..][i - 1] == s[i];
    }
    assert ([left] + s)[i + 1] == s[i];
    assert ([left] + s)[i] == if i == 0 then left else s[i - 1];
  }

  /** `s.title()`: each letter that starts a run of letters is upper-cased and
      every other letter lower-cased. */
  function Title(s: string): (r: string)
    ensures |r| == |s|
    ensures forall i :: 0 <= i < |s| ==> r[i] == TitleAt(s, i)
  {
    TitleFromLength(s, false);
    forall i | 0 <= i < |s|
      ensures TitleFrom(s, false)[i] == TitleAt(s, i)
    {
      TitleFromAt(s, false, i);
    }
    TitleFrom(s, false)
  }
}
