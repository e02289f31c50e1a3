# nana-poppy greeting engine, modelled in Dafny

The nana-poppy assistant greets two listeners with four spoken greetings:
- the date ("good morning nana_and_poppy today is april twenty second");
- the time ("the_time is eight oh five am");
- the temperature at two locations ("the_current_temperature_for waynesboro is minus five degrees").

Each greeting is a list of word tokens. Each token names a recorded clip in one of two children's voices. The two voices are shuffled. The greetings are then played in order, alternating between the voices, one clip file `/home/pi/<child>/<word>.wav` per word.

This project models that engine from `assistant_grpc_demo.py` and proves what it promises:
- the exact shape of each greeting;
- its branches: the part-of-day cut-offs, the 12-hour clock, the "oh" for minutes 1 to 9, the sign of the temperature, and the fixed "minus minus" when the weather lookup fails;
- which voice speaks which greeting, and in what order the clips play.

Modules:
- `Wrappers` (wrappers.dfy): `Option` and `Result`.
- `Text` (text.dfy): the Python string operations the engine uses. These are `replace` of one character, `split(' ')` keeping empty pieces, `lower`, and `title`. It also has `Join`, the inverse of `Split`.
- `NumberWords` (number_words.dfy): inflect's `number_to_words` and `ordinal` for 0 to 999, as word tables. A number's wording is a sequence of `Word`s, spelled into clip names and read back by a decoder.
- `Phrases` (phrases.dfy): the three message builders. Each is an imperative method that builds the list step by step, as the program does. Each is proved equal to a specification function. Lemmas give the shape of each message, and decoders read each message's inputs back.
- `Playback` (playback.dfy):
  - `play_files`, as a loop producing the clip paths it plays in order;
  - the in-place shuffle of the two-element voice array;
  - `generate_messages`.
- `Arguments` (arguments.dfy): the `volume` argument check.

Details of the code that the model keeps:
- Line 114 appends `number_to_words(hour)` as one token, while lines 97, 122 and 142 split their wording on hyphens and blanks into several tokens. `TimeMsg` keeps the hour as one token. For the hours 1 to 12 the wording is a single word, so the token is the same either way.
- The place name passed to the weather lookup gets the fixed qualifier `", US"` (line 132).
- Clip paths are rooted at `/home/pi/` (line 174).
- The day's words are `number_to_words(ordinal(day))` (line 97). That composition is modelled as one function, `NumberWords.Ordinal`, giving inflect's ordinal wording such as "twenty-second".

## Model

| member | source | states |
|---|---|---|
| Text.SplitJoin | assistant_grpc_demo.py:97 | splitting on a separator a join of pieces that lack it gives back the pieces |
| Text.JoinSplit | assistant_grpc_demo.py:97 | joining the pieces of a split with the separator gives back the string |
| Text.SplitPiecesLackSeparator | assistant_grpc_demo.py:97 | no piece of `split(sep)` contains `sep` |
| Text.SplitConcat | assistant_grpc_demo.py:97 | splitting `x + sep + y` splits `x` and `y` independently and concatenates the pieces |
| Text.WordsRejoin | assistant_grpc_demo.py:97 | the tokens of `replace('-', ' ').split(' ')` hold no blank or hyphen and rejoin with blanks to the phrase with its hyphens turned into blanks |
| Text.WordsConcat | assistant_grpc_demo.py:122 | a hyphen or a blank between two phrases separates their tokens |
| Text.ReplaceAppend | assistant_grpc_demo.py:132 | `replace` acts on a concatenation piece by piece |
| Text.Title | assistant_grpc_demo.py:132 | `title()` keeps the length; a letter is upper-cased when the character before it is not a letter, and lower-cased otherwise |
| NumberWords.SpellingRoundTrip | assistant_grpc_demo.py:122 | the structure of every number below 1000 in inflect's wording ("h hundred and t-u") reads back as the number |
| NumberWords.SpellingValueExact | assistant_grpc_demo.py:122 | whatever reads back as a number is exactly that number's wording |
| NumberWords.UnspellSpell | assistant_grpc_demo.py:122 | every word of the wording reads back from its clip name |
| NumberWords.UnspellSpellOrdinal | assistant_grpc_demo.py:97 | every last word of an ordinal reads back from its ordinal clip name |
| NumberWords.CardinalRoundTrip | assistant_grpc_demo.py:122 | the cardinal tokens of `n` read back as `n` |
| NumberWords.CardinalValueExact | assistant_grpc_demo.py:142 | tokens that read back as a number are that number's cardinal tokens |
| NumberWords.CardinalTokensInjective | assistant_grpc_demo.py:142 | different numbers have different cardinal tokens |
| NumberWords.OrdinalRoundTrip | assistant_grpc_demo.py:97 | the ordinal tokens of `n` read back as `n` |
| NumberWords.OrdinalValueExact | assistant_grpc_demo.py:97 | tokens that read back as an ordinal are that number's ordinal tokens |
| NumberWords.OrdinalTokensInjective | assistant_grpc_demo.py:97 | different days have different ordinal tokens |
| NumberWords.CardinalSplits | assistant_grpc_demo.py:122 | `number_to_words(n).replace('-', ' ').split(' ')` is exactly the cardinal tokens of `n` |
| NumberWords.OrdinalSplits | assistant_grpc_demo.py:97 | the ordinal wording of `n` split on hyphens and blanks is exactly the ordinal tokens of `n` |
| NumberWords.CardinalTokensAreWords | assistant_grpc_demo.py:142 | every cardinal wording has at least one token, and no token is empty, holds a blank, a hyphen or a '/', or is "minus" |
| NumberWords.OrdinalTokensAreWords | assistant_grpc_demo.py:97 | every ordinal wording has at least one token, and no token is empty or holds a blank, a hyphen or a '/' |
| NumberWords.UnitCardinal | assistant_grpc_demo.py:114 | numbers below 20, the hours among them, are worded as one token |
| Phrases.GenerateDateMsg | assistant_grpc_demo.py:76-98 | builds exactly `DateMsg(now)` |
| Phrases.PartOfDayRanges | assistant_grpc_demo.py:81-88 | "morning" iff hour < 12, "afternoon" iff 12 <= hour < 17, "evening" iff 17 <= hour < 20, "night" iff hour >= 20 |
| Phrases.DateMsgShape | assistant_grpc_demo.py:77-97 | "good", the part of day, "nana_and_poppy", "today", "is", the lower-case month name, then the day's ordinal tokens |
| Phrases.DateTokensAreWords | assistant_grpc_demo.py:90-97 | every token of the date greeting is non-empty and holds no blank, hyphen or '/' |
| Phrases.DateDayRejoins | assistant_grpc_demo.py:97 | the day's tokens rejoin with blanks to the ordinal wording with hyphens as blanks; none holds a separator |
| Phrases.DateRoundTrip | assistant_grpc_demo.py:76-98 | the part of day, the month token and the day read back from the date message |
| Phrases.DateMsgDeterminesDay | assistant_grpc_demo.py:96-97 | equal date messages mean the same day and part of day |
| Phrases.DateExample | assistant_grpc_demo.py:76-98 | 08:05 on 22 April gives "good morning nana_and_poppy today is april twenty second" |
| Phrases.Hour12 | assistant_grpc_demo.py:110-112 | the spoken hour lies in 1..12 and agrees with the hour modulo 12 |
| Phrases.Hour12Examples | assistant_grpc_demo.py:110-112 | hours 0 and 12 are spoken as twelve, 13 as one, 23 as eleven |
| Phrases.GenerateTimeMsg | assistant_grpc_demo.py:100-125 | builds exactly `TimeMsg(hour, minute)` |
| Phrases.MinuteTokensShape | assistant_grpc_demo.py:116-122 | no minute words at minute 0; "oh" then the minute's tokens for 1 to 9; the minute's tokens otherwise |
| Phrases.TimeMsgShape | assistant_grpc_demo.py:101-124 | "the_time", "is", the 12-hour word, the minute tokens, then "am" iff hour <= 11 and "pm" iff hour > 11 |
| Phrases.TimeTokensAreWords | assistant_grpc_demo.py:101-124 | every token of the time greeting is non-empty and holds no blank, hyphen or '/' |
| Phrases.MeridiemOnce | assistant_grpc_demo.py:105-107 | the last token is "am" or "pm", and neither occurs anywhere else |
| Phrases.OhRule | assistant_grpc_demo.py:118-119 | "oh" is the token after the hour iff 1 <= minute <= 9, occurs in the message iff so, and the message has four tokens iff minute is 0 |
| Phrases.TimeRoundTrip | assistant_grpc_demo.py:100-125 | the hour (from the 12-hour word and am/pm) and the minute read back from the time message |
| Phrases.TimeMsgInjective | assistant_grpc_demo.py:100-125 | different times of day give different time messages |
| Phrases.TimeExample | assistant_grpc_demo.py:100-125 | 08:05 gives "the_time is eight oh five am" |
| Phrases.GenerateTempMsg | assistant_grpc_demo.py:127-148 | builds exactly `TempMsg(location, lookup(PlaceName(location)))`; the lookup gets the derived place name |
| Phrases.PlaceNameShape | assistant_grpc_demo.py:132 | the place name is the location with underscores as blanks, title-cased, followed by ", US" |
| Phrases.WaynesboroPlace | assistant_grpc_demo.py:132 | "waynesboro" is looked up as "Waynesboro, US" |
| Phrases.OceanCityPlace | assistant_grpc_demo.py:132 | "ocean_city" is looked up as "Ocean City, US" |
| Phrases.ReadingTokensShape | assistant_grpc_demo.py:138-142 | a negative reading gives "minus" then the tokens of its magnitude; any other gives the cardinal tokens alone; the first token is "minus" iff the reading is negative |
| Phrases.TempMsgShape | assistant_grpc_demo.py:128-147 | "the_current_temperature_for", the location, "is", the reading tokens, and "degrees" last |
| Phrases.TempTokensAreWords | assistant_grpc_demo.py:128-147 | for a location that is a word, every token of the temperature greeting is non-empty and holds no blank, hyphen or '/', whether the lookup succeeded or failed |
| Phrases.TempFailure | assistant_grpc_demo.py:143-147 | a failed lookup gives exactly "minus", "minus" between "is" and "degrees" |
| Phrases.TempRoundTrip | assistant_grpc_demo.py:127-148 | the location and the lookup's outcome, success or failure, read back from the temperature message |
| Phrases.FailureDistinguishable | assistant_grpc_demo.py:143-145 | the failure message differs from the message of every reading |
| Phrases.TempExampleNegative | assistant_grpc_demo.py:138-142 | a reading of -5 is spoken "minus five degrees" |
| Phrases.TempExamplePositive | assistant_grpc_demo.py:142 | a reading of 72 is spoken "seventy two degrees" |
| Playback.ParseAssetPath | assistant_grpc_demo.py:174 | a clip path reads back as its voice and word |
| Playback.ParsePathExact | assistant_grpc_demo.py:174 | every path that reads back is the clip path of that voice and word |
| Playback.AssetPathInjective | assistant_grpc_demo.py:174 | two clips are the same file only for the same voice and word |
| Playback.PlayFiles | assistant_grpc_demo.py:172-175 | plays one clip per word, in word order: exactly `Paths(child, msg)` |
| Playback.PathsAppend | assistant_grpc_demo.py:173 | the clips of concatenated words are the concatenated clips |
| Playback.PathsReadBack | assistant_grpc_demo.py:172-175 | as many clips as words, and clip `i` reads back as the voice and word `i` |
| Playback.GreetingTokensAreClipNames | assistant_grpc_demo.py:154-174 | every token of each of the four greetings of a run is non-empty and holds no '/', so each clip path names one file in the voice's folder |
| Playback.PathsInjective | assistant_grpc_demo.py:172-175 | different greetings give different clip sequences |
| Playback.Shuffle | assistant_grpc_demo.py:165 | the two voices are swapped or kept, and the array holds a permutation of its old contents |
| Playback.VoicesDistinct | assistant_grpc_demo.py:164-165 | after the shuffle the two speakers differ and are `child1` and `child2` in some order |
| Playback.ScheduleLength | assistant_grpc_demo.py:167-170 | the schedule plays as many clips as the greetings have words |
| Playback.ScheduleAt | assistant_grpc_demo.py:167-170 | word `j` of greeting `k` is played at position `Offset(k) + j`, in the first voice for even `k` and the second for odd `k` |
| Playback.ScheduleOfFour | assistant_grpc_demo.py:167-170 | four greetings are played as greeting 1, 2, 3, 4 in the voices first, second, first, second |
| Playback.GenerateMessages | assistant_grpc_demo.py:150-170 | plays exactly the schedule of the date, time and two temperature messages in the shuffled voices |
| Playback.WhoSpeaks | assistant_grpc_demo.py:167-170 | the first voice speaks greetings 1 and 3 and the second voice greetings 2 and 4; each clip reads back as its speaker and word |
| Playback.RunLength | assistant_grpc_demo.py:167-170 | a run plays exactly as many clips as the four greetings have words |
| Arguments.Volume | assistant_grpc_demo.py:42-46 | accepts a value iff it is in 0..100; it is then returned unchanged, and otherwise rejected with "Volume must be in [0...100] range." |
| Arguments.VolumeBounds | assistant_grpc_demo.py:44 | 0 and 100 are accepted; -1 and 101 are rejected |

## Left out

- `main`, the trigger loop, the board LED, the button and signal handling, and the assistant conversation (lines 52-74) are hardware and network plumbing.
- `locale_language` (lines 48-50) is an environment lookup.
- `volume`'s `int(string)` conversion is not modelled. `Arguments.Volume` takes the integer that conversion would produce.
- The OpenWeatherMap client, its API key and the network call (lines 135, 158-159) are replaced by the parameter `lookup`. It maps a place name to the rounded reading, or to `None` when anything in the fetch fails.
- `round` of the floating-point temperature (line 136) is not modelled; the lookup returns the rounded integer.
- Phrases.Reading: readings are limited to -999..999. This is the range whose inflect wording (no thousands) is modelled.
- inflect itself is a foreign library. `NumberWords` reproduces its wording for 0 to 999: "twenty-one", "one hundred", "one hundred and five", "twenty-second", "one hundredth". Numbers of 1000 and above are not modelled.
- `datetime.now()` is replaced by the parameter `now`, holding hour, minute, month and day. `strftime("%B")` is modelled as the English month names.
- `lower` and `title` map only ASCII letters. Other letters are kept as they are, and `title` does not count them as letters when it decides where a word starts: Python gives "éa".title() == "Éa", while `Title` gives "éA". The greetings use only ASCII text.
- `random.shuffle` is modelled by its outcome, the parameter `swap`. The uniform choice between the two orders is a statistical property and is not stated.
- `play_wav` (line 175) is audio output. `PlayFiles` returns the sequence of paths it would play, in order.
- A failure inside `except` other than at the fetch (lines 135-136) is not modelled. The fetch is the only step there that can fail.
