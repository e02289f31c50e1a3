/** Who speaks which greeting and in what order the clips are played. Each
    word of a greeting is one recorded clip of one child's voice, stored at
    `/home/pi/<child>/<word>.wav`; playing a greeting plays its clips in word
    order. The two voices are shuffled, and the four greetings alternate
    between them. */
module Playback {
  import opened Wrappers
  import opened Text
  import opened Phrases

  const Root: string := "/home/pi/"
  const Extension: string := ".wav"

  /** The clip of `word` in the voice of `child`. */
  function AssetPath(child: string, word: Token): string
  {
    Root + child + "/" + word + Extension
  }

  /** The position of the first `c` in `s`, or `|s|` when there is none. */
  function IndexOf(s: string, c: char): (k: nat)
    ensures k <= |s|
    ensures k < |s| ==> s[k] == c
    ensures forall i :: 0 <= i < k ==> s[i] != c
  {
    if s == [] then 0
    else if s[0] == c then 0
    else 1 + IndexOf(s[1..], c)
  }

  /** Reads a clip path back as the voice and the word: the voice is the
      directory under the root, the word is the rest without the extension. */
  function ParsePath(path: string): Option<(string, Token)>
  {
    if |path| < |Root| + |Extension| || path[..|Root|] != Root
       || path[|path| - |Extension|..] != Extension then None
    else
      var body := path[|Root|..|path| - |Extension|];
      var k := IndexOf(body, '/');
      if k == |body| then None else Some((body[..k], body[k + 1..]))
  }

  lemma IndexOfFirst(x: string, c: char, y: string)
    requires c !in x
    ensures IndexOf(x + [c] + y, c) == |x|
  {
    var s := x + [c] + y;
    assert s[|x|] == c;
    assert forall i :: 0 <= i < |x| ==> s[i] == x[i];
  }

  /** A clip path of a voice whose name has no '/' reads back as that voice
      and that word. */
  lemma ParseAssetPath(child: string, word: Token)
    requires '/' !in child
    ensures ParsePath(AssetPath(child, word)) == Some((child, word))
  {
    var p := AssetPath(child, word);
    var body := child + "/" + word;
    assert p == Root + body + Extension;
    assert p[..|Root|] == Root;
    assert p[|p| - |Extension|..] == Extension;
    assert p[|Root|..|p| - |Extension|] == body;
    IndexOfFirst(child, '/', word);
    assert body[..|child|] == child;
    assert body[|child| + 1..] == word;
  }

  /** Every path that reads back is the clip path of what it reads back as,
      and it names a voice without '/'. */
  lemma ParsePathExact(path: string)
    requires ParsePath(path).Some?
    ensures var (child, word) := ParsePath(path).value;
      '/' !in child && path == AssetPath(child, word)
  {
    var body := path[|Root|..|path| - |Extension|];
    var k := IndexOf(body, '/');
    var (child, word) := ParsePath(path).value;
    assert '/' !in child by {
      forall i | 0 <= i < |child|
        ensures child[i] != '/'
      {
        assert child[i] == body[i];
      }
    }
    assert body == child + "/" + word;
    assert path == path[..|Root|] + body + path[|path| - |Extension|..];
  }

  /** Two clips are the same file only when they are the same word in the
      same voice. */
  lemma AssetPathInjective(c1: string, w1: Token, c2: string, w2: Token)
    requires '/' !in c1 && '/' !in c2
    requires AssetPath(c1, w1) == AssetPath(c2, w2)
    ensures c1 == c2 && w1 == w2
  {
    ParseAssetPath(c1, w1);
    ParseAssetPath(c2, w2);
  }

  /** The clips of a greeting in one voice, one per word, in word order. */
  function Paths(child: string, msg: seq<Token>): seq<string>
  {
    seq(|msg|, i requires 0 <= i < |msg| => AssetPath(child, msg[i]))
  }

  lemma PathsAppend(child: string, a: seq<Token>, b: seq<Token>)
    ensures Paths(child, a + b) == Paths(child, a) + Paths(child, b)
  {
    assert forall i :: 0 <= i < |a + b| ==> (a + b)[i] == if i < |a| then a[i] else b[i - |a|];
  }

  /** `play_files`: plays the clip of every word of `msg` in the voice of
      `child`, in order; the result is the sequence of clips played. */
  method PlayFiles(child: string, msg: seq<Token>) returns (played: seq<string>)
    ensures played == Paths(child, msg)
  {
    played := [];
    for i := 0 to |msg|
      invariant played == Paths(child, msg[..i])
    {
      var filepath := Root + child + "/" + msg[i] + Extension;
      assert msg[..i + 1] == msg[..i] + [msg[i]];
      PathsAppend(child, msg[..i], [msg[i]]);
      played := played + [filepath];
    }
    assert msg[..|msg|] == msg;
  }

  /** The greeting's words read back, in order, from the clips played for
      it, and how many clips are played. */
  lemma PathsReadBack(child: string, msg: seq<Token>)
    requires '/' !in child
    ensures |Paths(child, msg)| == |msg|
    ensures forall i :: 0 <= i < |msg| ==> ParsePath(Paths(child, msg)[i]) == Some((child, msg[i]))
  {
    forall i | 0 <= i < |msg|
      ensures ParsePath(Paths(child, msg)[i]) == Some((child, msg[i]))
    {
      ParseAssetPath(child, msg[i]);
    }
  }

  /** Different greetings give different clip sequences in the same voice. */
  lemma PathsInjective(child: string, m1: seq<Token>, m2: seq<Token>)
    requires '/' !in child
    requires Paths(child, m1) == Paths(child, m2)
    ensures m1 == m2
  {
    PathsReadBack(child, m1);
    PathsReadBack(child, m2);
    forall i | 0 <= i < |m1|
      ensures m1[i] == m2[i]
    {
      assert Paths(child, m1)[i] == Paths(child, m2)[i];
    }
  }

  /** `random.shuffle` of the two voices, with the outcome given as `swap`. */
  method Shuffle(children: array<string>, swap: bool)
    requires children.Length == 2
    modifies children
    ensures children[..] == if swap then [old(children[1]), old(children[0])] else old(children[..])
    ensures multiset(children[..]) == multiset(old(children[..]))
  {
    if swap {
      children[0], children[1] := children[1], children[0];
    }
  }

  /** The voices after shuffling `["child1", "child2"]`. */
  function Voices(swap: bool): seq<string>
  {
    if swap then ["child2", "child1"] else ["child1", "child2"]
  }

  /** Both voices take part, each once: the first and second speaker differ. */
  lemma VoicesDistinct(swap: bool)
    ensures |Voices(swap)| == 2 && Voices(swap)[0] != Voices(swap)[1]
    ensures multiset(Voices(swap)) == multiset(["child1", "child2"])
    ensures forall i :: 0 <= i < 2 ==> '/' !in Voices(swap)[i]
  {
  }

  /** The clips of a list of greetings, the first in voice `first`, the second
      in voice `second`, the third in `first` again, and so on. */
  function Schedule(first: string, second: string, greetings: seq<seq<Token>>): seq<string>
    decreases |greetings|
  {
    if greetings == [] then []
    else Paths(first, greetings[0]) + Schedule(second, first, greetings[1..])
  }

  /** The number of words in the first `k` greetings, where the clips of
      greeting `k` start. */
  function Offset(greetings: seq<seq<Token>>, k: nat): nat
    requires k <= |greetings|
  {
    if k == 0 then 0 else |greetings[0]| + Offset(greetings[1..], k - 1)
  }

  /** The voice of greeting `k`: `first` for even `k`, `second` for odd. */
  function Speaker(first: string, second: string, k: nat): string
  {
    if k % 2 == 0 then first else second
  }

  /** The schedule plays one clip per word of all greetings, and never more. */
  lemma {:induction false} ScheduleLength(first: string, second: string, greetings: seq<seq<Token>>)
    ensures |Schedule(first, second, greetings)| == Offset(greetings, |greetings|)
    decreases |greetings|
  {
    if greetings != [] {
      ScheduleLength(second, first, greetings[1..]);
    }
  }

  /** Word `j` of greeting `k` is played as clip `Offset(greetings, k) + j`,
      in the voice of the greeting's turn: greetings alternate between the
      voices and are played in order. */
  lemma {:induction false} ScheduleAt(first: string, second: string, greetings: seq<seq<Token>>, k: nat, j: nat)
    requires k < |greetings| && j < |greetings[k]|
    ensures Offset(greetings, k) + j < |Schedule(first, second, greetings)|
    ensures Schedule(first, second, greetings)[Offset(greetings, k) + j]
      == AssetPath(Speaker(first, second, k), greetings[k][j])
    decreases |greetings|
  {
    var rest := Schedule(second, first, greetings[1..]);
    assert Schedule(first, second, greetings) == Paths(first, greetings[0]) + rest;
    if k == 0 {
      ScheduleLength(second, first, greetings[1..]);
    } else {
      ScheduleAt(second, first, greetings[1..], k - 1, j);
      assert greetings[1..][k - 1] == greetings[k];
      assert Speaker(second, first, k - 1) == Speaker(first, second, k);
    }
  }

  /** Four greetings in the schedule are the four greetings' clips joined. */
  lemma ScheduleOfFour(first: string, second: string, g1: seq<Token>, g2: seq<Token>, g3: seq<Token>, g4: seq<Token>)
    ensures Schedule(first, second, [g1, g2, g3, g4])
      == Paths(first, g1) + Paths(second, g2) + Paths(first, g3) + Paths(second, g4)
  {
    var gs := [g1, g2, g3, g4];
    assert gs[1..] == [g2, g3, g4];
    assert [g2, g3, g4][1..] == [g3, g4];
    assert [g3, g4][1..] == [g4];
    assert Schedule(second, first, [g4]) == Paths(second, g4) + Schedule(first, second, []);
    assert Schedule(first, second, [g3, g4]) == Paths(first, g3) + Paths(second, g4);
    assert Schedule(second, first, [g2, g3, g4]) == Paths(second, g2) + Paths(first, g3) + Paths(second, g4);
  }

  /** The greetings of one run: the date, the time, and the temperatures at
      the two locations. */
  function Greetings(now: Moment, lookup: string -> Option<Reading>): seq<seq<Token>>
  {
    [DateMsg(now), TimeMsg(now.hour, now.minute),
     TempMsg("waynesboro", lookup(PlaceName("waynesboro"))),
     TempMsg("ocean_city", lookup(PlaceName("ocean_city")))]
  }

  /** Every token of every greeting of a run names one clip: it is not empty
      and holds no '/', so its path is a file directly in the voice's folder. */
  lemma GreetingTokensAreClipNames(now: Moment, lookup: string -> Option<Reading>)
    ensures |Greetings(now, lookup)| == 4
    ensures forall k, i :: 0 <= k < 4 && 0 <= i < |Greetings(now, lookup)[k]| ==>
      Greetings(now, lookup)[k][i] != [] && '/' !in Greetings(now, lookup)[k][i]
  {
    var g := Greetings(now, lookup);
    forall k | 0 <= k < 4
      ensures AllWords(g[k])
    {
      if k == 0 {
        DateTokensAreWords(now);
      } else if k == 1 {
        TimeTokensAreWords(now.hour, now.minute);
      } else if k == 2 {
        LocationWords();
        TempTokensAreWords("waynesboro", lookup(PlaceName("waynesboro")));
      } else {
        LocationWords();
        TempTokensAreWords("ocean_city", lookup(PlaceName("ocean_city")));
      }
    }
    forall k, i | 0 <= k < 4 && 0 <= i < |g[k]|
      ensures g[k][i] != [] && '/' !in g[k][i]
    {
      assert IsWord(g[k][i]);
    }
  }

  lemma LocationWords()
    ensures IsWord("waynesboro") && IsWord("ocean_city")
  {
  }

  /** One run of the assistant: composes the four greetings, shuffles the two
      voices and plays the greetings in order, alternating the voices. */
  method GenerateMessages(now: Moment, lookup: string -> Option<Reading>, swap: bool)
    returns (played: seq<string>)
    ensures played == Schedule(Voices(swap)[0], Voices(swap)[1], Greetings(now, lookup))
  {
    var greeting1 := GenerateDateMsg(now);
    var greeting2 := GenerateTimeMsg(now);
    var greeting3 := GenerateTempMsg(lookup, "waynesboro");
    var greeting4 := GenerateTempMsg(lookup, "ocean_city");
    assert [greeting1, greeting2, greeting3, greeting4] == Greetings(now, lookup);

    var children := new string[] ["child1", "child2"];
    Shuffle(children, swap);
    assert children[..] == Voices(swap);

    var played1 := PlayFiles(children[0], greeting1);
    var played2 := PlayFiles(children[1], greeting2);
    var played3 := PlayFiles(children[0], greeting3);
    var played4 := PlayFiles(children[1], greeting4);
    played := played1 + played2 + played3 + played4;
    ScheduleOfFour(children[0], children[1], greeting1, greeting2, greeting3, greeting4);
  }

  /** In a run of four greetings, word `j` of greeting `k` is heard in the
      voice of turn `k`: the first voice speaks the date and the first
      temperature, the second voice the time and the second temperature; the
      clip reads back as that voice and word. */
  lemma WhoSpeaks(swap: bool, greetings: seq<seq<Token>>, k: nat, j: nat)
    requires |greetings| == 4 && k < 4 && j < |greetings[k]|
    ensures var played := Schedule(Voices(swap)[0], Voices(swap)[1], greetings);
      Offset(greetings, k) + j < |played| &&
      ParsePath(played[Offset(greetings, k) + j])
        == Some((if k == 0 || k == 2 then Voices(swap)[0] else Voices(swap)[1], greetings[k][j]))
  {
    var first, second := Voices(swap)[0], Voices(swap)[1];
    ScheduleAt(first, second, greetings, k, j);
    VoicesDistinct(swap);
    var voice := Speaker(first, second, k);
    assert voice == if k == 0 || k == 2 then first else second;
    assert '/' !in voice;
    ParseAssetPath(voice, greetings[k][j]);
  }

  /** A run of four greetings plays exactly one clip per word. */
  lemma RunLength(swap: bool, greetings: seq<seq<Token>>)
    requires |greetings| == 4
    ensures |Schedule(Voices(swap)[0], Voices(swap)[1], greetings)|
      == |greetings[0]| + |greetings[1]| + |greetings[2]| + |greetings[3]|
  {
    var gs := greetings;
    assert gs == [gs[0], gs[1], gs[2], gs[3]];
    ScheduleOfFour(Voices(swap)[0], Voices(swap)[1], gs[0], gs[1], gs[2], gs[3]);
  }
}
