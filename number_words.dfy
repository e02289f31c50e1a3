/** The number-to-words conversion the engine takes from the inflect library,
    for 0 <= n < 1000 in inflect's default style: `number_to_words(n)` gives
    "seven", "forty", "twenty-two", "one hundred", "one hundred and five";
    `number_to_words(ordinal(n))` gives the same words with the final one in
    its ordinal form ("twenty-two" becomes "twenty-second"). The library is
    modelled by its word tables and the shape of its wording, not by its
    algorithm.

    A number is first spelled as a sequence of `Word`s (`Spelling`), each of
    which is one clip name (`Spell`). Beside inflect's strings (`Cardinal`,
    `Ordinal`) this module has the word tokens they split into
    (`CardinalTokens`, `OrdinalTokens`) and decoders (`CardinalValue`,
    `OrdinalValue`) that read a number back from its tokens: every number
    has exactly one spelling and no two numbers share one. */
module NumberWords {
  import opened Wrappers
  import opened Text

  /** The words for 0 to 19. */
  const Units: seq<Token> :=
    ["zero", "one", "two", "three", "four"] +
    ["five", "six", "seven", "eight", "nine"] +
    ["ten", "eleven", "twelve", "thirteen", "fourteen"] +
    ["fifteen", "sixteen", "seventeen", "eighteen", "nineteen"]

  /** The words for 20, 30, ..., 90; `TensWords[k]` is the word for 10 * (k + 2). */
  const TensWords: seq<Token> :=
    ["twenty", "thirty", "forty", "fifty"] +
    ["sixty", "seventy", "eighty", "ninety"]

  /** The ordinal forms of `Units`, position by position. */
  const OrdinalUnits: seq<Token> :=
    ["zeroth", "first", "second", "third", "fourth"] +
    ["fifth", "sixth", "seventh", "eighth", "ninth"] +
    ["tenth", "eleventh", "twelfth", "thirteenth", "fourteenth"] +
    ["fifteenth", "sixteenth", "seventeenth", "eighteenth", "nineteenth"]

  /** The ordinal forms of `TensWords`, position by position. */
  const OrdinalTens: seq<Token> :=
    ["twentieth", "thirtieth", "fortieth", "fiftieth"] +
    ["sixtieth", "seventieth", "eightieth", "ninetieth"]

  /** The numbers whose wording is modelled. */
  type Small = n: nat | n < 1000

  // ---------------------------------------------------------------------
  // Table lookup

  /** No entry of `table` occurs twice. */
  predicate Distinct(table: seq<Token>)
  {
    forall i, j :: 0 <= i < j < |table| ==> table[i] != table[j]
  }

  /** The position of the first entry of `table` equal to `w`, if there is one. */
  function IndexIn(table: seq<Token>, w: Token): (r: Option<nat>)
    ensures r.Some? ==> r.value < |table|
  {
    if table == [] then None
    else if table[0] == w then Some(0)
    else match IndexIn(table[1..], w)
      case Some(i) => Some(i + 1)
      case None => None
  }

  /** `IndexIn` finds an entry equal to `w` exactly when `w` is in the table. */
  lemma {:induction false} IndexInSpec(table: seq<Token>, w: Token)
    ensures IndexIn(table, w).Some? ==> table[IndexIn(table, w).value] == w
    ensures IndexIn(table, w).None? <==> w !in table
  {
    if table != [] && table[0] != w {
      IndexInSpec(table[1..], w);
      assert table == [table[0]] + table[1..];
    }
  }

  /** In a table without repetitions every entry is found at its own position. */
  lemma {:induction false} IndexInDistinct(table: seq<Token>, i: nat)
    requires Distinct(table) && i < |table|
    ensures IndexIn(table, table[i]) == Some(i)
  {
    if i > 0 {
      assert table[0] != table[i];
      IndexInDistinct(table[1..], i - 1);
    }
  }

  // ---------------------------------------------------------------------
  // Facts about the tables

  lemma UnitsDistinct()
    ensures |Units| == 20 && Distinct(Units)
  {
  }

  lemma TensDistinct()
    ensures |TensWords| == 8 && Distinct(TensWords)
  {
  }

  lemma OrdinalUnitsDistinct()
    ensures |OrdinalUnits| == 20 && Distinct(OrdinalUnits)
  {
  }

  lemma OrdinalTensDistinct()
    ensures |OrdinalTens| == 8 && Distinct(OrdinalTens)
  {
  }

  /** A unit word is a word of at least three letters, and none of the other
      words a number or a message uses. */
  lemma UnitWord(i: nat)
    requires i < 20
    ensures IsWord(Units[i]) && |Units[i]| >= 3
    ensures Units[i] != "minus" && Units[i] != "hundred" && Units[i] != "and"
  {
  }

  lemma TensWord(j: nat)
    requires j < 8
    ensures IsWord(TensWords[j]) && |TensWords[j]| >= 3 && TensWords[j] !in Units
    ensures TensWords[j] != "minus" && TensWords[j] != "hundred" && TensWords[j] != "and"
  {
  }

  lemma OrdinalUnitWord(i: nat)
    requires i < 20
    ensures IsWord(OrdinalUnits[i])
  {
  }

  lemma OrdinalTensWord(j: nat)
    requires j < 8
    ensures IsWord(OrdinalTens[j]) && OrdinalTens[j] !in OrdinalUnits
  {
  }

  lemma FixedWords()
    ensures IsWord("hundred") && IsWord("hundredth") && IsWord("and")
  {
  }

  lemma HundredNotATableWord()
    ensures "hundred" !in Units && "hundred" !in TensWords
  {
  }

  lemma AndNotATableWord()
    ensures "and" !in Units && "and" !in TensWords
  {
  }

  lemma HundredthNotATableWord()
    ensures "hundredth" !in OrdinalUnits && "hundredth" !in OrdinalTens
  {
  }

  // ---------------------------------------------------------------------
  // The words of a number

  /** One word of inflect's wording of a number below 1000. */
  datatype Word = Unit(u: nat) | Ten(t: nat) | Hundred | And

  predicate ValidWord(w: Word)
  {
    match w
    case Unit(u) => u < 20
    case Ten(t) => t < 8
    case _ => true
  }

  predicate AllValid(ws: seq<Word>)
  {
    forall i :: 0 <= i < |ws| ==> ValidWord(ws[i])
  }

  /** Below 100: a unit word, a tens word, or a tens word and a unit word. */
  function UnderHundredSpelling(n: nat): seq<Word>
    requires n < 100
  {
    if n < 20 then [Unit(n)]
    else if n % 10 == 0 then [Ten(n / 10 - 2)]
    else [Ten(n / 10 - 2), Unit(n % 10)]
  }

  /** inflect's wording of a number as a sequence of words: "<h> hundred",
      "<h> hundred and <rest>", or the wording below 100. */
  function Spelling(n: Small): seq<Word>
  {
    if n < 100 then UnderHundredSpelling(n)
    else if n % 100 == 0 then [Unit(n / 100), Hundred]
    else [Unit(n / 100), Hundred, And] + UnderHundredSpelling(n % 100)
  }

  /** Reads a number below 100 back from its words. */
  function UnderHundredValue(ws: seq<Word>): (r: Option<nat>)
    ensures r.Some? ==> r.value < 100
  {
    if |ws| == 1 && ws[0].Unit? && ws[0].u < 20 then Some(ws[0].u)
    else if |ws| == 1 && ws[0].Ten? && ws[0].t < 8 then Some(10 * (ws[0].t + 2))
    else if |ws| == 2 && ws[0].Ten? && ws[0].t < 8 && ws[1].Unit? && 1 <= ws[1].u <= 9 then
      Some(10 * (ws[0].t + 2) + ws[1].u)
    else None
  }

  /** Reads a number back from its words. */
  function SpellingValue(ws: seq<Word>): Option<Small>
  {
    if |ws| >= 2 && ws[0].Unit? && 1 <= ws[0].u <= 9 && ws[1] == Hundred then
      if |ws| == 2 then Some(100 * ws[0].u)
      else if ws[2] != And then None
      else
        match UnderHundredValue(ws[3..])
        case None => None
        case Some(v) => if v == 0 then None else Some(100 * ws[0].u + v)
    else match UnderHundredValue(ws)
      case None => None
      case Some(v) => Some(v)
  }

  lemma TensDigits(t: nat, u: nat)
    requires u < 10
    ensures (10 * (t + 2) + u) / 10 - 2 == t && (10 * (t + 2) + u) % 10 == u
  {
  }

  lemma HundredsDigits(h: nat, v: nat)
    requires v < 100
    ensures (100 * h + v) / 100 == h && (100 * h + v) % 100 == v
  {
  }

  /** The digits of a number from 20 to 99. */
  lemma TwoDigits(n: nat)
    requires 20 <= n < 100
    ensures n / 10 - 2 < 8 && n % 10 < 10 && n == 10 * ((n / 10 - 2) + 2) + n % 10
  {
  }

  /** The digits of a number from 100 to 999. */
  lemma ThreeDigits(n: Small)
    requires n >= 100
    ensures 1 <= n / 100 <= 9 && n % 100 < 100 && n == 100 * (n / 100) + n % 100
  {
  }

  lemma UnderHundredSpellingValid(n: nat)
    requires n < 100
    ensures 1 <= |UnderHundredSpelling(n)| <= 2 && AllValid(UnderHundredSpelling(n))
    ensures forall i :: 0 <= i < |UnderHundredSpelling(n)| ==> UnderHundredSpelling(n)[i].Unit? || UnderHundredSpelling(n)[i].Ten?
  {
    if n >= 20 {
      TwoDigits(n);
    }
  }

  /** The words of a number are valid, its first word is a unit or tens word
      and its last word is not "and". */
  lemma SpellingValid(n: Small)
    ensures |Spelling(n)| >= 1 && AllValid(Spelling(n))
    ensures Spelling(n)[0].Unit? || Spelling(n)[0].Ten?
    ensures !Spelling(n)[|Spelling(n)| - 1].And?
  {
    if n < 100 {
      UnderHundredSpellingValid(n);
    } else {
      ThreeDigits(n);
      if n % 100 != 0 {
        var ws := Spelling(n);
        var rest := UnderHundredSpelling(n % 100);
        UnderHundredSpellingValid(n % 100);
        assert forall i :: 3 <= i < |ws| ==> ws[i] == rest[i - 3];
      }
    }
  }

  lemma UnderHundredRoundTrip(n: nat)
    requires n < 100
    ensures UnderHundredValue(UnderHundredSpelling(n)) == Some(n)
  {
    if n >= 20 {
      TwoDigits(n);
    }
  }

  /** What `UnderHundredValue` reads back is that number's own words. */
  lemma UnderHundredValueExact(ws: seq<Word>)
    ensures UnderHundredValue(ws).Some? ==> ws == UnderHundredSpelling(UnderHundredValue(ws).value)
  {
    if |ws| == 1 && !(ws[0].Unit? && ws[0].u < 20) && ws[0].Ten? && ws[0].t < 8 {
      TensDigits(ws[0].t, 0);
    } else if |ws| == 2 && UnderHundredValue(ws).Some? {
      TensDigits(ws[0].t, ws[1].u);
    }
  }

  lemma HundredsRoundTrip(n: Small)
    requires n >= 100
    ensures SpellingValue(Spelling(n)) == Some(n)
  {
    ThreeDigits(n);
    if n % 100 != 0 {
      var ws := Spelling(n);
      UnderHundredRoundTrip(n % 100);
      assert ws[3..] == UnderHundredSpelling(n % 100);
    }
  }

  /** Every number is read back from its words. */
  lemma SpellingRoundTrip(n: Small)
    ensures SpellingValue(Spelling(n)) == Some(n)
  {
    if n < 100 {
      UnderHundredRoundTrip(n);
      UnderHundredSpellingValid(n);
    } else {
      HundredsRoundTrip(n);
    }
  }

  lemma HundredsExact(ws: seq<Word>)
    requires |ws| >= 2 && ws[0].Unit? && 1 <= ws[0].u <= 9 && ws[1] == Hundred
    ensures SpellingValue(ws).Some? ==> ws == Spelling(SpellingValue(ws).value)
  {
    var h := ws[0].u;
    if |ws| == 2 {
      HundredsDigits(h, 0);
    } else if SpellingValue(ws).Some? {
      var rest := ws[3..];
      var v := UnderHundredValue(rest).value;
      UnderHundredValueExact(rest);
      HundredsDigits(h, v);
      assert ws == [ws[0], ws[1], ws[2]] + rest;
    }
  }

  /** What `SpellingValue` reads back is that number's own words: no other
      word sequence is read as a number. */
  lemma SpellingValueExact(ws: seq<Word>)
    ensures SpellingValue(ws).Some? ==> ws == Spelling(SpellingValue(ws).value)
  {
    if |ws| >= 2 && ws[0].Unit? && 1 <= ws[0].u <= 9 && ws[1] == Hundred {
      HundredsExact(ws);
    } else {
      UnderHundredValueExact(ws);
    }
  }

  // ---------------------------------------------------------------------
  // From words to clip names and back

  /** The clip name of a word. */
  function Spell(w: Word): Token
    requires ValidWord(w)
  {
    match w
    case Unit(u) => Units[u]
    case Ten(t) => TensWords[t]
    case Hundred => "hundred"
    case And => "and"
  }

  /** The clip name of the ordinal form of a final word. */
  function SpellOrdinal(w: Word): Token
    requires ValidWord(w) && !w.And?
  {
    match w
    case Unit(u) => OrdinalUnits[u]
    case Ten(t) => OrdinalTens[t]
    case Hundred => "hundredth"
  }

  function SpellAll(ws: seq<Word>): seq<Token>
    requires AllValid(ws)
  {
    seq(|ws|, i requires 0 <= i < |ws| => Spell(ws[i]))
  }

  /** The word a clip name stands for. */
  function Unspell(w: Token): Option<Word>
  {
    match IndexIn(Units, w)
    case Some(u) => Some(Unit(u))
    case None =>
      match IndexIn(TensWords, w)
      case Some(t) => Some(Ten(t))
      case None =>
        if w == "hundred" then Some(Hundred)
        else if w == "and" then Some(And)
        else None
  }

  /** The final word an ordinal clip name stands for. */
  function UnspellOrdinal(w: Token): Option<Word>
  {
    match IndexIn(OrdinalUnits, w)
    case Some(u) => Some(Unit(u))
    case None =>
      match IndexIn(OrdinalTens, w)
      case Some(t) => Some(Ten(t))
      case None => if w == "hundredth" then Some(Hundred) else None
  }

  function UnspellAll(ts: seq<Token>): Option<seq<Word>>
  {
    if ts == [] then Some([])
    else
      match Unspell(ts[0])
      case None => None
      case Some(w) =>
        match UnspellAll(ts[1..])
        case None => None
        case Some(ws) => Some([w] + ws)
  }

  lemma UnspellUnit(u: nat)
    requires u < 20
    ensures Unspell(Units[u]) == Some(Unit(u))
  {
    UnitsDistinct();
    IndexInDistinct(Units, u);
  }

  lemma UnspellTen(t: nat)
    requires t < 8
    ensures Unspell(TensWords[t]) == Some(Ten(t))
  {
    TensWord(t);
    IndexInSpec(Units, TensWords[t]);
    TensDistinct();
    IndexInDistinct(TensWords, t);
  }

  lemma UnspellFixed()
    ensures Unspell("hundred") == Some(Hundred) && Unspell("and") == Some(And)
  {
    HundredNotATableWord();
    AndNotATableWord();
    IndexInSpec(Units, "hundred");
    IndexInSpec(TensWords, "hundred");
    IndexInSpec(Units, "and");
    IndexInSpec(TensWords, "and");
  }

  /** `Unspell` undoes `Spell`. */
  lemma UnspellSpell(w: Word)
    requires ValidWord(w)
    ensures Unspell(Spell(w)) == Some(w)
  {
    match w
    case Unit(u) => UnspellUnit(u);
    case Ten(t) => UnspellTen(t);
    case _ => UnspellFixed();
  }

  /** `Spell` undoes `Unspell`: a clip name that stands for a word is that
      word's name. */
  lemma SpellUnspell(w: Token)
    ensures Unspell(w).Some? ==> ValidWord(Unspell(w).value) && Spell(Unspell(w).value) == w
  {
    IndexInSpec(Units, w);
    IndexInSpec(TensWords, w);
  }

  lemma UnspellOrdinalUnit(u: nat)
    requires u < 20
    ensures UnspellOrdinal(OrdinalUnits[u]) == Some(Unit(u))
  {
    OrdinalUnitsDistinct();
    IndexInDistinct(OrdinalUnits, u);
  }

  lemma UnspellOrdinalTen(t: nat)
    requires t < 8
    ensures UnspellOrdinal(OrdinalTens[t]) == Some(Ten(t))
  {
    OrdinalTensWord(t);
    IndexInSpec(OrdinalUnits, OrdinalTens[t]);
    OrdinalTensDistinct();
    IndexInDistinct(OrdinalTens, t);
  }

  lemma UnspellOrdinalFixed()
    ensures UnspellOrdinal("hundredth") == Some(Hundred)
  {
    HundredthNotATableWord();
    IndexInSpec(OrdinalUnits, "hundredth");
    IndexInSpec(OrdinalTens, "hundredth");
  }

  /** `UnspellOrdinal` undoes `SpellOrdinal`. */
  lemma UnspellSpellOrdinal(w: Word)
    requires ValidWord(w) && !w.And?
    ensures UnspellOrdinal(SpellOrdinal(w)) == Some(w)
  {
    match w
    case Unit(u) => UnspellOrdinalUnit(u);
    case Ten(t) => UnspellOrdinalTen(t);
    case Hundred => UnspellOrdinalFixed();
  }

  /** `SpellOrdinal` undoes `UnspellOrdinal`. */
  lemma SpellOrdinalUnspell(w: Token)
    ensures UnspellOrdinal(w).Some? ==>
      ValidWord(UnspellOrdinal(w).value) && !UnspellOrdinal(w).value.And? &&
      SpellOrdinal(UnspellOrdinal(w).value) == w
  {
    IndexInSpec(OrdinalUnits, w);
    IndexInSpec(OrdinalTens, w);
  }

  lemma SpellAllAppend(xs: seq<Word>, ys: seq<Word>)
    requires AllValid(xs) && AllValid(ys)
    ensures AllValid(xs + ys) && SpellAll(xs + ys) == SpellAll(xs) + SpellAll(ys)
  {
    assert forall i :: 0 <= i < |xs + ys| ==> (xs + ys)[i] == if i < |xs| then xs[i] else ys[i - |xs|];
  }

  lemma {:induction false} UnspellAllSpelled(ws: seq<Word>)
    requires AllValid(ws)
    ensures UnspellAll(SpellAll(ws)) == Some(ws)
  {
    if ws != [] {
      var ts := SpellAll(ws);
      assert ts[1..] == SpellAll(ws[1..]);
      UnspellSpell(ws[0]);
      UnspellAllSpelled(ws[1..]);
      assert [ws[0]] + ws[1..] == ws;
    }
  }

  lemma {:induction false} SpelledUnspellAll(ts: seq<Token>)
    ensures UnspellAll(ts).Some? ==>
      AllValid(UnspellAll(ts).value) && SpellAll(UnspellAll(ts).value) == ts
  {
    if ts != [] && UnspellAll(ts).Some? {
      SpellUnspell(ts[0]);
      SpelledUnspellAll(ts[1..]);
      var w := Unspell(ts[0]).value;
      var ws := UnspellAll(ts[1..]).value;
      assert UnspellAll(ts).value == [w] + ws;
      SpellAllAppend([w], ws);
      assert [ts[0]] + ts[1..] == ts;
    }
  }

  // ---------------------------------------------------------------------
  // Tokens of a number

  /** The word tokens of a number: the clips that speak it. */
  function CardinalTokens(n: Small): seq<Token>
  {
    SpellingValid(n);
    SpellAll(Spelling(n))
  }

  /** The ordinal tokens of a number: its tokens with the last one in its
      ordinal form. */
  function OrdinalTokens(n: Small): seq<Token>
  {
    SpellingValid(n);
    var ws := Spelling(n);
    SpellAll(ws[..|ws| - 1]) + [SpellOrdinal(ws[|ws| - 1])]
  }

  /** Reads a number back from its tokens. */
  function CardinalValue(ts: seq<Token>): Option<Small>
  {
    match UnspellAll(ts)
    case None => None
    case Some(ws) => SpellingValue(ws)
  }

  /** Reads a number back from its ordinal tokens. */
  function OrdinalValue(ts: seq<Token>): Option<Small>
  {
    if ts == [] then None
    else
      match UnspellAll(ts[..|ts| - 1])
      case None => None
      case Some(front) =>
        match UnspellOrdinal(ts[|ts| - 1])
        case None => None
        case Some(last) => SpellingValue(front + [last])
  }

  /** Every number is read back from its tokens. */
  lemma CardinalRoundTrip(n: Small)
    ensures CardinalValue(CardinalTokens(n)) == Some(n)
  {
    SpellingValid(n);
    UnspellAllSpelled(Spelling(n));
    SpellingRoundTrip(n);
  }

  /** What `CardinalValue` reads back is that number's own tokens: no other
      token sequence is read as a number. */
  lemma CardinalValueExact(ts: seq<Token>)
    ensures CardinalValue(ts).Some? ==> ts == CardinalTokens(CardinalValue(ts).value)
  {
    if CardinalValue(ts).Some? {
      SpelledUnspellAll(ts);
      SpellingValueExact(UnspellAll(ts).value);
    }
  }

  /** Two numbers with the same tokens are equal. */
  lemma CardinalTokensInjective(m: Small, n: Small)
    requires CardinalTokens(m) == CardinalTokens(n)
    ensures m == n
  {
    CardinalRoundTrip(m);
    CardinalRoundTrip(n);
  }

  /** Every number is read back from its ordinal tokens. */
  lemma OrdinalRoundTrip(n: Small)
    ensures OrdinalValue(OrdinalTokens(n)) == Some(n)
  {
    SpellingValid(n);
    var ws := Spelling(n);
    var k := |ws| - 1;
    var ts := OrdinalTokens(n);
    assert ts[..|ts| - 1] == SpellAll(ws[..k]) && ts[|ts| - 1] == SpellOrdinal(ws[k]);
    UnspellAllSpelled(ws[..k]);
    UnspellSpellOrdinal(ws[k]);
    assert ws[..k] + [ws[k]] == ws;
    SpellingRoundTrip(n);
  }

  /** What `OrdinalValue` reads back is that number's own ordinal tokens. */
  lemma OrdinalValueExact(ts: seq<Token>)
    ensures OrdinalValue(ts).Some? ==> ts == OrdinalTokens(OrdinalValue(ts).value)
  {
    if OrdinalValue(ts).Some? {
      var front := UnspellAll(ts[..|ts| - 1]).value;
      var last := UnspellOrdinal(ts[|ts| - 1]).value;
      var n := OrdinalValue(ts).value;
      SpelledUnspellAll(ts[..|ts| - 1]);
      SpellOrdinalUnspell(ts[|ts| - 1]);
      SpellingValueExact(front + [last]);
      var ws := Spelling(n);
      assert ws[..|ws| - 1] == front && ws[|ws| - 1] == last;
      assert ts == ts[..|ts| - 1] + [ts[|ts| - 1]];
    }
  }

  /** Two numbers with the same ordinal tokens are equal. */
  lemma OrdinalTokensInjective(m: Small, n: Small)
    requires OrdinalTokens(m) == OrdinalTokens(n)
    ensures m == n
  {
    OrdinalRoundTrip(m);
    OrdinalRoundTrip(n);
  }

  // ---------------------------------------------------------------------
  // inflect's strings

  function UnderHundred(n: nat): string
    requires n < 100
  {
    if n < 20 then Units[n]
    else if n % 10 == 0 then TensWords[n / 10 - 2]
    else TensWords[n / 10 - 2] + "-" + Units[n % 10]
  }

  /** "<h> hundred and", the head of the wording of a number above 100 that is
      not a multiple of 100. */
  function HundredsAnd(h: Token): string
  {
    h + " hundred and"
  }

  /** inflect's `number_to_words(n)`. */
  function Cardinal(n: Small): string
  {
    if n < 100 then UnderHundred(n)
    else if n % 100 == 0 then Units[n / 100] + " hundred"
    else HundredsAnd(Units[n / 100]) + " " + UnderHundred(n % 100)
  }

  function UnderHundredOrdinal(n: nat): string
    requires n < 100
  {
    if n < 20 then OrdinalUnits[n]
    else if n % 10 == 0 then OrdinalTens[n / 10 - 2]
    else TensWords[n / 10 - 2] + "-" + OrdinalUnits[n % 10]
  }

  /** inflect's `number_to_words(ordinal(n))`. */
  function Ordinal(n: Small): string
  {
    if n < 100 then UnderHundredOrdinal(n)
    else if n % 100 == 0 then Units[n / 100] + " hundredth"
    else HundredsAnd(Units[n / 100]) + " " + UnderHundredOrdinal(n % 100)
  }

  /** The words "<h> hundred and" split into three tokens. */
  lemma HundredAndWords(h: Token)
    requires IsWord(h)
    ensures Words(HundredsAnd(h)) == [h, "hundred", "and"]
  {
    FixedWords();
    assert HundredsAnd(h) == h + [' '] + "hundred" + [' '] + "and";
    WordsOfThree(h, "hundred", "and");
  }

  lemma UnderHundredSplits(n: nat)
    requires n < 100
    ensures AllValid(UnderHundredSpelling(n))
    ensures Words(UnderHundred(n)) == SpellAll(UnderHundredSpelling(n))
  {
    UnderHundredSpellingValid(n);
    if n < 20 {
      UnitWord(n);
      WordsOfWord(Units[n]);
    } else if n % 10 == 0 {
      TensWord(n / 10 - 2);
      WordsOfWord(TensWords[n / 10 - 2]);
    } else {
      TensWord(n / 10 - 2);
      UnitWord(n % 10);
      WordsOfTwo(TensWords[n / 10 - 2], '-', Units[n % 10]);
    }
  }

  lemma HundredAndSplits(n: Small)
    requires n >= 100 && n % 100 != 0
    ensures Words(Cardinal(n)) == CardinalTokens(n)
  {
    ThreeDigits(n);
    var h := n / 100;
    var r := n % 100;
    UnitWord(h);
    UnderHundredSplits(r);
    HundredAndWords(Units[h]);
    WordsConcat(HundredsAnd(Units[h]), ' ', UnderHundred(r));
    SpellAllAppend([Unit(h), Hundred, And], UnderHundredSpelling(r));
  }

  /** Splitting inflect's wording on hyphens and blanks gives the tokens. */
  lemma CardinalSplits(n: Small)
    ensures Words(Cardinal(n)) == CardinalTokens(n)
  {
    if n < 100 {
      UnderHundredSplits(n);
    } else if n % 100 == 0 {
      ThreeDigits(n);
      UnitWord(n / 100);
      FixedWords();
      assert Units[n / 100] + " hundred" == Units[n / 100] + [' '] + "hundred";
      WordsOfTwo(Units[n / 100], ' ', "hundred");
    } else {
      HundredAndSplits(n);
    }
  }

  lemma UnderHundredOrdinalSplits(n: nat)
    requires n < 100
    ensures AllValid(UnderHundredSpelling(n))
    ensures var ws := UnderHundredSpelling(n);
      Words(UnderHundredOrdinal(n)) == SpellAll(ws[..|ws| - 1]) + [SpellOrdinal(ws[|ws| - 1])]
  {
    UnderHundredSpellingValid(n);
    if n < 20 {
      OrdinalUnitWord(n);
      WordsOfWord(OrdinalUnits[n]);
    } else if n % 10 == 0 {
      OrdinalTensWord(n / 10 - 2);
      WordsOfWord(OrdinalTens[n / 10 - 2]);
    } else {
      TensWord(n / 10 - 2);
      OrdinalUnitWord(n % 10);
      WordsOfTwo(TensWords[n / 10 - 2], '-', OrdinalUnits[n % 10]);
    }
  }

  lemma HundredAndOrdinalSplits(n: Small)
    requires n >= 100 && n % 100 != 0
    ensures Words(Ordinal(n)) == OrdinalTokens(n)
  {
    ThreeDigits(n);
    var h := n / 100;
    var r := n % 100;
    UnitWord(h);
    var rest := UnderHundredSpelling(r);
    UnderHundredOrdinalSplits(r);
    HundredAndWords(Units[h]);
    WordsConcat(HundredsAnd(Units[h]), ' ', UnderHundredOrdinal(r));
    var ws := Spelling(n);
    assert ws[..|ws| - 1] == [Unit(h), Hundred, And] + rest[..|rest| - 1];
    assert ws[|ws| - 1] == rest[|rest| - 1];
    SpellAllAppend([Unit(h), Hundred, And], rest[..|rest| - 1]);
  }

  /** Splitting inflect's ordinal wording on hyphens and blanks gives the
      ordinal tokens. */
  lemma OrdinalSplits(n: Small)
    ensures Words(Ordinal(n)) == OrdinalTokens(n)
  {
    if n < 100 {
      UnderHundredOrdinalSplits(n);
    } else if n % 100 == 0 {
      ThreeDigits(n);
      UnitWord(n / 100);
      FixedWords();
      assert Units[n / 100] + " hundredth" == Units[n / 100] + [' '] + "hundredth";
      WordsOfTwo(Units[n / 100], ' ', "hundredth");
    } else {
      HundredAndOrdinalSplits(n);
    }
  }

  /** The tokens of a number are words, none shorter than three letters
      (so none is "am", "pm" or "oh"), and none is "minus". */
  lemma CardinalTokensAreWords(n: Small)
    ensures |CardinalTokens(n)| >= 1
    ensures forall i :: 0 <= i < |CardinalTokens(n)| ==> IsWord(CardinalTokens(n)[i])
    ensures forall i :: 0 <= i < |CardinalTokens(n)| ==> |CardinalTokens(n)[i]| >= 3
    ensures forall i :: 0 <= i < |CardinalTokens(n)| ==> CardinalTokens(n)[i] != "minus"
  {
    SpellingValid(n);
    var ws := Spelling(n);
    forall i | 0 <= i < |ws|
      ensures IsWord(Spell(ws[i])) && |Spell(ws[i])| >= 3 && Spell(ws[i]) != "minus"
    {
      FixedWords();
      match ws[i]
      case Unit(u) => UnitWord(u);
      case Ten(t) => TensWord(t);
      case _ =>
    }
  }

  /** The ordinal tokens of a number are words. */
  lemma OrdinalTokensAreWords(n: Small)
    ensures |OrdinalTokens(n)| >= 1
    ensures forall i :: 0 <= i < |OrdinalTokens(n)| ==> IsWord(OrdinalTokens(n)[i])
  {
    SpellingValid(n);
    var ws := Spelling(n);
    var ts := OrdinalTokens(n);
    forall i | 0 <= i < |ts|
      ensures IsWord(ts[i])
    {
      FixedWords();
      if i < |ws| - 1 {
        match ws[i]
        case Unit(u) => UnitWord(u);
        case Ten(t) => TensWord(t);
        case _ =>
      } else {
        match ws[|ws| - 1]
        case Unit(u) => OrdinalUnitWord(u);
        case Ten(t) => OrdinalTensWord(t);
        case _ =>
      }
    }
  }

  /** Below 20 a number is one word of `Units`. */
  lemma UnitCardinal(n: Small)
    requires n < 20
    ensures Cardinal(n) == Units[n] && CardinalTokens(n) == [Units[n]]
    ensures IsWord(Cardinal(n)) && |Cardinal(n)| >= 3
  {
    UnitWord(n);
  }
}
