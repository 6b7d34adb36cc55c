# ODD extraction core in Dafny

This project models the text-analysis core of an Operational Design Domain (ODD) generator. The generator turns a free-text scenario description into an ODD record. Two functions of `main.py` are modelled, together with the helper next to them:

- `extract_detailed_odd_info` runs over the named-entity recognizer's mentions. Each mention is cleaned and gets a normalised label. It is classified as `Entity`, `Environment`, `Object` or `Vehicle`, given a counter-based id such as `vehicle_0`, and registered in a lookup keyed by its lower-cased text. A second pass then binds every adjective token, as an attribute, to the entity its syntactic head names.
- `parse_value_and_unit` finds the leftmost number in a text. It returns that number and the trimmed unit after it.
- `preprocess_text_spacy` keeps the lower-cased lemmas of the alphabetic, non-stop-word tokens.

The two language models are not modelled. Their outputs are inputs here: `Analysis.Mention` is one recognizer entry, and `Analysis.Token` is one token together with its head's text.

Module layout:

- `Text` holds the ASCII string operations the code borrows from Python's `str`.
- `Classification` holds tag normalisation and the type rule.
- `Analysis` holds the two models' outputs and the preprocessing filter.
- `Extraction` holds the extraction as a specification function `Extracted`, the imperative method `ExtractDetailedOddInfo` proved equal to it, and lemmas about `Extracted`.
- `ValueUnit` holds `parse_value_and_unit`.
- `Scenario` holds worked examples.

In the program, the lookup holds the same dictionaries that sit in the result list. Writing an attribute through the lookup therefore changes the list entry. The model keeps the entities in a sequence, and the lookup maps each key to an index into that sequence.

Three behaviours of the code worth noting, because a reader might expect otherwise:

- The `ner_type` attribute holds the normalised label, not the recognizer's raw label: every `B-` and then every `I-` is removed once, left to right, and the result is capitalized. For the recognizer's `B-`/`I-` + tag labels this leaves the capitalized bare tag (e.g. `Misc`); a label such as `BB--LOC` still gives `B-loc` (`Classification.NormaliseNested`).
- The `##` sub-word marker is deleted from the word. The piece is not merged with the previous mention; it stays a separate entity.
- A later mention whose lower-cased text repeats an earlier one replaces it in the lookup. Later adjectives then bind only to the later one, and the earlier entity keeps just `ner_type` (`Extraction.ShadowedEntity`).

## Model

| member | source | states |
|---|---|---|
| Extraction.ExtractDetailedOddInfo | main.py:95-133 | The result is exactly `Extracted(mentions, tokens)`: one entity per mention, relationships and top-level attributes empty. |
| Extraction.RegisterMentions | main.py:98-124 | The first loop returns the entity list `InitialEntities` and the lookup `EntityMap`. The loop invariants tie the id counter, the list and the lookup to each prefix of the mentions. |
| Extraction.BuildEntity | main.py:103-122 | One mention and the counter value give exactly the entity `NewEntity` describes. Its text is the `##`-free word. |
| Extraction.BindAdjectiveTokens | main.py:126-131 | The second loop returns `BindAdjectives`: the tokens are applied in order, each writing through the lookup. |
| Extraction.InitialEntitiesSnoc | main.py:123 | Registering one more mention appends its entity to the list. |
| Extraction.EntityMapSnoc | main.py:124 | Registering one more mention sets the lookup at its key to its index, overwriting any earlier entry. |
| Extraction.EntityMapSpec | main.py:124 | The lookup's keys are exactly the mentions' lower-cased texts. Each key maps to the last mention that has that key. |
| Extraction.EntityMapBounded | main.py:124 | Every index in the lookup falls inside the entity list. The program's dictionary holds the entity itself; the model holds its index, and this lemma makes that index always name an entity. |
| Extraction.EntityMapOwner | main.py:124 | The lookup maps a key to entity `i` if and only if `i` is the last mention with that key. |
| Extraction.BindFrame | main.py:126-131 | Binding adjectives keeps the number and order of the entities, and every id, type and text. |
| Extraction.BindUntouched | main.py:126-131 | An entity that no adjective's head names is left unchanged. |
| Extraction.BindUnwritten | main.py:126-131 | When no token writes attribute `name` onto entity `i`, that attribute is as before, present or absent. |
| Extraction.BindLastWriter | main.py:126-131 | When tokens write attribute `name` onto entity `i`, the attribute holds the text of the last of them. |
| Extraction.BindWellKeyed | main.py:129-131 | Binding stores every attribute under its own name. |
| Extraction.BindLowerKeyed | main.py:129-131 | Binding keeps every attribute name lower-case when it was before: the new name is `token.text.lower()`. |
| Extraction.ExtractionLowerKeyed | main.py:121-131 | Every attribute name of every extracted entity is lower-case (`ner_type` and the lower-cased adjectives). |
| Extraction.ExtractionShape | main.py:97-123 | One entity per mention, in order, with the id, type (per the classification rule) and `##`-free text of its mention. There are never any relationships or top-level attributes. |
| Extraction.ExtractionUnbound | main.py:102-131 | Stated against the mentions alone, without the lookup. An adjective for entity `i` and `name` is tagged `ADJ`, its head text lower-cases to the key entity `i` owns, and its own text lower-cases to `name`. With none, attribute `name` is present only for `ner_type`, which holds the normalised label. |
| Extraction.ExtractionLastAdjective | main.py:102-131 | With adjectives as above, entity `i`'s attribute `name` holds the text of the last one. |
| Extraction.ShadowedEntity | main.py:124-131 | An entity whose lower-cased text a later mention repeats gets no adjective: its attributes stay exactly `{ner_type}`. |
| Extraction.ExtractionWellKeyed | main.py:121-131 | Every attribute of every extracted entity is stored under its own name. |
| Extraction.IdsDistinct | main.py:115-116 | The ids of one extraction are pairwise distinct. |
| Extraction.EntityIdInjective | main.py:115 | An id `<type>_<counter>` determines the counter it was built from. |
| Extraction.TextUnmarked | main.py:103 | A word without `##` becomes the entity text unchanged. |
| Extraction.EntityTextUnmarked | main.py:103 | No entity text contains `##`. |
| Extraction.NewEntity | main.py:115-122 | The entity built for one mention from the counter value. Its id, type and text are characterised by `BuildEntity`, `ExtractionShape`, `LowerTypeName` and `EntityIdInjective`. |
| Extraction.EntityId | main.py:115 | The id `<lower-cased type>_<counter>`. Its prefixes are listed by `LowerTypeName`, and `EntityIdInjective` shows it determines the counter. |
| Extraction.EntityMap | main.py:124 | The lookup after the first loop. Its keys, indices and bounds are characterised by `EntityMapSpec`, `EntityMapOwner` and `EntityMapBounded`. |
| Extraction.BindToken | main.py:127-131 | One step of the second loop. Its effect is characterised by `BindFrame`, `BindUntouched`, `BindUnwritten` and `BindLastWriter`. |
| Extraction.BindAdjectives | main.py:126-131 | The second loop over all tokens, characterised by the same lemmas. |
| Extraction.Extracted | main.py:95-133 | The whole extraction as a function. `ExtractDetailedOddInfo` is proved equal to it, and `ExtractionShape`, `ExtractionUnbound`, `ExtractionLastAdjective`, `ShadowedEntity` and `IdsDistinct` state its properties. |
| Extraction.EntityText | main.py:103 | The word with every `##` removed. `EntityTextUnmarked` shows no `##` is left, and `TextUnmarked` shows a word without `##` is kept. |
| Extraction.NerType | main.py:104 | The normalised label `entity_type_raw` that `ner_type` holds. Described, for the recognizer's tags, by `NormaliseTags`, and in the result by `ExtractionUnbound`. |
| Extraction.MentionType | main.py:105-114 | The type the rule assigns to the mention's normalised label and cleaned word. `ClassifySpec` describes it one category at a time, and `ExtractionShape` puts it in each entity. |
| Extraction.Key | main.py:124 | The lookup key `word.lower()`. `EntityMapSpec` and `EntityMapOwner` describe the lookup in terms of it. |
| Extraction.InitialAttributes | main.py:121 | The single `ner_type` attribute an entity starts with. `ExtractionUnbound` and `ShadowedEntity` state when it is all an entity ends with. |
| Extraction.InitialEntities | main.py:102-123 | The entity list after the first loop: the `i`-th mention's entity built with counter `i`, one per mention, in order. Described by `InitialEntitiesSnoc` and `RegisterMentions`, and after binding by `ExtractionShape`. |
| Extraction.Binds | main.py:127 | The guard: the token is tagged `ADJ` and its head's lower-cased text is a lookup key. Used by `Targets` and `Writes`, so `BindUntouched`, `BindUnwritten`, `BindLastWriter` and `ExtractionUnbound` describe what the guard lets through. |
| Extraction.LowerTypeName | main.py:105-115 | The id prefixes are `entity`, `environment`, `object` and `vehicle`. |
| Classification.ClassifySpec | main.py:105-114 | The type rule, one category at a time, each as an if-and-only-if. `Environment` for Loc/Gpe/Org, or Misc naming weather but no vehicle. `Object` for Per. `Vehicle` for Misc whose lower-cased word contains car, vehicle or truck. `Entity` otherwise. |
| Classification.NormaliseTags | main.py:104 | LOC, ORG, GPE, PER and MISC normalise to Loc, Org, Gpe, Per and Misc, bare or with a `B-` or `I-` prefix. |
| Classification.NormaliseUnprefixed | main.py:104 | Removing a `B-` or `I-` prefix and capitalizing gives the capitalized tag, for any tag with no `-`. |
| Classification.NormaliseNested | main.py:104 | One left-to-right pass per pattern: `BB--LOC` normalises to `B-loc`, not to `Loc`. |
| Classification.NormaliseLabel | main.py:104 | The normalised label is never longer than the raw one. Its values are described, for the recognizer's tags, by `NormaliseTags` and `NormaliseUnprefixed`, and for a doubled prefix by `NormaliseNested`. |
| Classification.ContainsAny | main.py:111-113 | `any(x in w for x in words)`, described by `ContainsAnyIff`. |
| Classification.ContainsAnyIff | main.py:111-113 | The `any(x in w for x in words)` test holds exactly when some listed word occurs in `w`. |
| Classification.TypeName | main.py:105-114 | Each type name is non-empty and starts with a capital letter. Its lower-cased values are listed by `LowerTypeName`. |
| Classification.Classify | main.py:105-114 | The type rule, characterised one category at a time by `ClassifySpec`. |
| ValueUnit.SearchNumber | main.py:78 | The search finds nothing exactly when the text has no digit. Otherwise the match starts at the first digit and takes the longest digit run, plus `.` and the following digits only when a digit follows the `.`. |
| ValueUnit.LeftmostUnique | main.py:78 | At most one match fits that description of the leftmost match. |
| ValueUnit.ValueOf | main.py:82-83 | The value is an integer exactly when the matched text has no `.`, and it is then the number the digits denote. Otherwise it is a decimal whose non-empty integer and fraction digits, joined by `.`, make up the matched text. |
| ValueUnit.IntegerTooLong | main.py:83-85 | The `ValueError` condition: the match has no `.` and more than 4300 digits. `Convert` and `NoValueIff` state that it is exactly the case with no value. |
| ValueUnit.Convert | main.py:81-85 | The conversion fails exactly when the match is an integer of more than 4300 digits, the default limit of CPython's `int()`. Otherwise it gives `ValueOf`. |
| ValueUnit.ParseValueAndUnit | main.py:77-90 | A text without a digit gives neither value nor unit. A value or a unit implies a digit in the text. A unit, when present, is non-empty with no whitespace at either end. |
| ValueUnit.NoValueIff | main.py:78-85 | There is no value exactly when the text has no digit, or its leftmost number is an integer too long for `int()`. |
| ValueUnit.ParseValueAndUnitSpec | main.py:77-90 | Any match fitting the leftmost-match description fixes the result: the value converted from the match, and the unit cut from the text after it, whether or not the conversion failed. The unit is a substring of that text. |
| ValueUnit.UnitAfter | main.py:86-89 | The unit, when present, is non-empty and has no whitespace at either end. |
| ValueUnit.UnitOccurs | main.py:88-89 | The unit is a substring of the text it was cut from. |
| ValueUnit.SkipNonDigits | main.py:78 | Returns the first digit position at or after `i`, or the end of the text. |
| ValueUnit.SkipDigits | main.py:78 | Returns the end of the digit run that starts at `i`. |
| Analysis.Kept | main.py:75 | The filter `token.is_alpha and not token.is_stop`. `PreprocessMembers` states that the result holds exactly the lemmas of kept tokens. |
| Analysis.Preprocess | main.py:73-75 | At most one lemma per token, each lower-case. |
| Analysis.PreprocessAppend | main.py:75 | The filter works token by token: it distributes over concatenation of token sequences. |
| Analysis.PreprocessMembers | main.py:75 | A string is in the result exactly when it is the lower-cased lemma of an alphabetic, non-stop-word token. |
| Text.LowerChar | main.py:111 | Per-character `lower()`: an upper-case ASCII letter moves up 32 code points, every other character is unchanged, and the result is never upper-case. |
| Text.Lower | main.py:111 | `lower()` keeps the length, maps each character and leaves no upper-case letter. |
| Text.Capitalize | main.py:104 | `capitalize()` keeps the length, upper-cases the first character and lower-cases the rest. |
| Text.UpperChar | main.py:104 | A lower-case letter maps to the upper-case letter 32 code points below it; every other character is unchanged. |
| Text.Contains | main.py:111-113 | The substring test `x in s`, characterised by `ContainsIff`. |
| Text.ContainsIff | main.py:111-113 | The substring test `x in s` holds exactly when `x` occurs at some index of `s`. |
| Text.RemoveAll | main.py:103-104 | `replace(pat, "")` never lengthens a string. Its effect is described, for these special cases, by `RemoveAllAbsent`, `RemoveAllMissingChar`, `RemoveAllPrefix` and `NoMarkerLeft`. |
| Text.NoMarkerLeft | main.py:103 | After `replace("##", "")` the result contains no `##`, even where removing one copy brings two `#` together. |
| Text.RemoveAllAbsent | main.py:103-104 | `replace(pat, "")` leaves a string in which `pat` does not occur unchanged. |
| Text.RemoveAllMissingChar | main.py:103-104 | `replace(pat, "")` leaves a string lacking some character of `pat` unchanged. |
| Text.RemoveAllPrefix | main.py:104 | `replace(pat, "")` removes a leading copy of `pat`. |
| Text.LStrip | main.py:89 | `lstrip` never lengthens, and the result is empty or starts with a character outside the strip set. |
| Text.RStrip | main.py:89 | `rstrip` never lengthens, and the result is empty or ends with a character outside the strip set. |
| Text.LStripSpec | main.py:89 | `lstrip` keeps a suffix, and every character it drops is in the strip set. |
| Text.RStripSpec | main.py:89 | `rstrip` keeps a prefix, and every character it drops is in the strip set. |
| Text.IsSpace | main.py:88-89 | The characters `str.isspace()` accepts among ASCII: tab through carriage return, 0x1c-0x1f and space. `Strip` and `Trimmed` are stated in terms of it. |
| Text.StripOccurs | main.py:88-89 | Stripping both ends leaves a substring of the original. |
| Text.Strip | main.py:88-89 | `strip()` returns an empty string, or one with no whitespace at either end. |
| Text.DigitsValue | main.py:83 | `int(value_str)` on a string of digits, leading zeros allowed. `ValueOf` states the integer value in terms of it, and `NatToStringRoundTrip` shows it inverts `str(n)`. |
| Text.NatToString | main.py:115 | `str(n)` is non-empty, all digits, with no leading zero. |
| Text.NatToStringRoundTrip | main.py:115 | Reading back `str(n)` gives `n`. |
| Text.NatToStringInjective | main.py:115 | Distinct counters render to distinct strings. |
| Scenario.ScenarioExtraction | main.py:95-133 | "The red car stopped near the old building." with car/MISC and building/LOC gives `vehicle_0` {ner_type Misc, red} and `environment_1` {ner_type Loc, old}. |
| Scenario.ParseSpeed | main.py:77-90 | "50 km/h" parses to 50 and "km/h". |
| Scenario.ParseDecimal | main.py:77-90 | "at 3.5 / m/s." parses to 3.5 and "m/s": the leading "/ " and the trailing "." are trimmed. |
| Scenario.ParseTrailingDot | main.py:77-90 | "5." parses to 5 with no unit: a `.` with no digit after it is not part of the number. |
| Scenario.ParseNoNumber | main.py:77-90 | "fast" has neither value nor unit. |
| Scenario.ParseLongInteger | main.py:81-89 | 4301 ones followed by " km" give no value (the `ValueError` branch) but still the unit "km". |

## Left out

- The spaCy and Hugging Face models (`nlp`, `ner_pipeline`, `perform_ner`) are outside the model. Their outputs are the inputs `seq<Mention>` and `seq<Token>`.
- `create_odd_structure` and the dataclasses it fills are not modelled. They hold constants, floating-point fields and a `datetime.now()` timestamp.
- `convert_odd_to_yaml` (YAML serialisation), the ipywidgets notebook GUI (main.py:190-226) and its empty-input check are I/O.
- Python's string operations are modelled on ASCII only. `lower()`, `capitalize()`, `isspace()`/`strip()` and the regex `\d` are Unicode-aware in Python; here other characters are never letters, digits or whitespace.
- ValueUnit.ValueOf: a decimal is kept as its two digit strings instead of being converted to a floating-point number, because floating point is not modelled.
- ValueUnit.Convert: the `ValueError` branch is modelled with CPython's default limit of 4300 digits for `int()`. A program that changed the limit with `sys.set_int_max_str_digits`, or a Python version without a limit, would convert every integer; `float()` has no such limit.
- The attribute `{'name': n, 'value': {'value': v}}` is flattened to `Attribute(n, v)`.
- The order of keys in the attribute dictionaries is not modelled; maps are unordered.
- `relationships` is always empty in the code, so its element type is left as a string placeholder.
- `preprocess_text_spacy`'s caller discards its result, so it is modelled as a function on tokens alone, with no link to the extraction.
