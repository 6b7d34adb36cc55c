/** How one recognizer mention is normalised and sorted into one of the four ODD
    entity types (main.py, `extract_detailed_odd_info`, the body of its first loop). */
module Classification {
  import opened Text

  /** The closed set of ODD entity types; `Entity` is the fallback. */
  datatype OddType = Entity | Environment | Object | Vehicle

  /** The type's name as the program spells it. */
  function TypeName(t: OddType): (name: string)
    ensures |name| > 0 && IsUpper(name[0])
  {
    match t
    case Entity => "Entity"
    case Environment => "Environment"
    case Object => "Object"
    case Vehicle => "Vehicle"
  }

  /** The recognizer's label with every "B-" and then every "I-" removed and the
      result capitalized. */
  function NormaliseLabel(raw: string): (norm: string)
    ensures |norm| <= |raw|
  {
    Capitalize(RemoveAll(RemoveAll(raw, "B-"), "I-"))
  }

  /** Python `any(x in s for x in words)`. */
  function ContainsAny(s: string, words: seq<string>): bool
  {
    if words == [] then false else Contains(s, words[0]) || ContainsAny(s, words[1..])
  }

  lemma {:induction false} ContainsAnyIff(s: string, words: seq<string>)
    ensures ContainsAny(s, words) <==> exists k :: 0 <= k < |words| && Contains(s, words[k])
  {
    if words != [] {
      ContainsAnyIff(s, words[1..]);
      assert forall k :: 1 <= k < |words| ==> words[k] == words[1..][k - 1];
    }
  }

  const VEHICLE_WORDS: seq<string> := ["car", "vehicle", "truck"]
  const WEATHER_WORDS: seq<string> := ["weather", "rain", "sunny"]

  /** The priority rule, first match wins, with `tag` already normalised. */
  function Classify(tag: string, word: string): OddType
  {
    if tag in ["Loc", "Gpe", "Org"] then Environment
    else if tag in ["Per"] then Object
    else if tag == "Misc" then
      if ContainsAny(Lower(word), VEHICLE_WORDS) then Vehicle
      else if ContainsAny(Lower(word), WEATHER_WORDS) then Environment
      else Entity
    else Entity
  }

  /** `w` occurs somewhere in the lower-cased `word`. */
  ghost predicate Mentions(word: string, w: string)
  {
    exists i :: OccursAt(Lower(word), w, i)
  }

  ghost predicate MentionsVehicle(word: string)
  {
    Mentions(word, "car") || Mentions(word, "vehicle") || Mentions(word, "truck")
  }

  ghost predicate MentionsWeather(word: string)
  {
    Mentions(word, "weather") || Mentions(word, "rain") || Mentions(word, "sunny")
  }

  lemma WordTests(word: string)
    ensures ContainsAny(Lower(word), VEHICLE_WORDS) <==> MentionsVehicle(word)
    ensures ContainsAny(Lower(word), WEATHER_WORDS) <==> MentionsWeather(word)
  {
    ContainsAnyIff(Lower(word), VEHICLE_WORDS);
    ContainsAnyIff(Lower(word), WEATHER_WORDS);
    forall w | w in VEHICLE_WORDS + WEATHER_WORDS
      ensures Contains(Lower(word), w) <==> Mentions(word, w)
    {
      ContainsIff(Lower(word), w);
    }
  }

  /** The classification rule, stated category by category in terms of the
      substrings the lower-cased word contains. The four cases are exhaustive and
      exclusive, so every mention gets exactly one of the four types. */
  lemma ClassifySpec(tag: string, word: string)
    ensures Classify(tag, word) == Environment <==>
      tag in {"Loc", "Gpe", "Org"} ||
      (tag == "Misc" && !MentionsVehicle(word) && MentionsWeather(word))
    ensures Classify(tag, word) == Object <==> tag == "Per"
    ensures Classify(tag, word) == Vehicle <==> tag == "Misc" && MentionsVehicle(word)
    ensures Classify(tag, word) == Entity <==>
      (tag !in {"Loc", "Gpe", "Org", "Per", "Misc"}) ||
      (tag == "Misc" && !MentionsVehicle(word) && !MentionsWeather(word))
  {
    WordTests(word);
  }

  /** The recognizer's tags, with or without a begin/inside prefix, normalise to
      their capitalized form. */
  lemma NormaliseTags(p: string)
    requires p in ["", "B-", "I-"]
    ensures NormaliseLabel(p + "LOC") == "Loc"
    ensures NormaliseLabel(p + "ORG") == "Org"
    ensures NormaliseLabel(p + "GPE") == "Gpe"
    ensures NormaliseLabel(p + "PER") == "Per"
    ensures NormaliseLabel(p + "MISC") == "Misc"
  {
    CapitalizedTags();
    NormaliseUnprefixed(p, "LOC");
    NormaliseUnprefixed(p, "ORG");
    NormaliseUnprefixed(p, "GPE");
    NormaliseUnprefixed(p, "PER");
    NormaliseUnprefixed(p, "MISC");
  }

  lemma CapitalizedTags()
    ensures Capitalize("LOC") == "Loc" && Capitalize("ORG") == "Org" && Capitalize("GPE") == "Gpe"
    ensures Capitalize("PER") == "Per" && Capitalize("MISC") == "Misc"
  {
  }

  /** A tag without '-' keeps its letters when a "B-" or "I-" prefix is removed. */
  lemma NormaliseUnprefixed(p: string, tag: string)
    requires p in ["", "B-", "I-"] && '-' !in tag
    ensures NormaliseLabel(p + tag) == Capitalize(tag)
  {
    RemoveAllMissingChar(tag, "B-", '-');
    RemoveAllMissingChar(tag, "I-", '-');
    if p == "B-" {
      RemoveAllPrefix("B-", tag);
    } else if p == "I-" {
      var s := p + tag;
      assert s[..2] == "I-" && s[1..] == "-" + tag;
      if tag != [] {
        assert ("-" + tag)[..2] != "B-";
        assert ("-" + tag)[1..] == tag;
      }
      assert RemoveAll(s, "B-") == s;
      RemoveAllPrefix("I-", tag);
    } else {
      assert p + tag == tag;
    }
  }

  /** Each pattern is removed in one left-to-right pass, so removing one copy can
      bring a new one together: the doubled prefix of "BB--LOC" leaves "B-". */
  lemma NormaliseNested()
    ensures NormaliseLabel("BB--LOC") == "B-loc"
  {
    assert "BB--LOC"[..2] != "B-" && "BB--LOC"[1..] == "B--LOC";
    assert "B--LOC"[..2] == "B-" && "B--LOC"[2..] == "-LOC";
    RemoveAllMissingChar("-LOC", "B-", 'B');
    assert RemoveAll("BB--LOC", "B-") == "B-LOC";
    RemoveAllMissingChar("B-LOC", "I-", 'I');
    assert Capitalize("B-LOC") == "B-loc";
  }
}
