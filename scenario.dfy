/** Worked examples: the sentence "The red car stopped near the old building." with
    the recognizer reporting "car" as MISC and "building" as LOC, and a few inputs of
    `parse_value_and_unit`. */
module Scenario {
  import opened Text
  import opened Classification
  import opened Analysis
  import opened Extraction
  import opened ValueUnit

  const MENTIONS: seq<Mention> := [Mention("car", "MISC"), Mention("building", "LOC")]

  const RED := Token("red", "red", "ADJ", true, false, "car")
  const OLD := Token("old", "old", "ADJ", true, false, "building")

  /** The analyser's tokens for the sentence, each with its head's text. */
  const DOC: seq<Token> := [
    Token("The", "the", "DET", true, true, "car"),
    RED,
    Token("car", "car", "NOUN", true, false, "stopped"),
    Token("stopped", "stop", "VERB", true, false, "stopped"),
    Token("near", "near", "ADP", true, false, "stopped"),
    Token("the", "the", "DET", true, true, "building"),
    OLD,
    Token("building", "building", "NOUN", true, false, "near"),
    Token(".", ".", "PUNCT", false, false, "stopped")
  ]

  /** Binding `a + b` binds `a`, then `b`. */
  lemma {:induction false} BindConcat(es: seq<ExtractedEntity>, lookup: map<string, nat>, a: seq<Token>, b: seq<Token>)
    ensures BindAdjectives(es, lookup, a + b) == BindAdjectives(BindAdjectives(es, lookup, a), lookup, b)
    decreases |b|
  {
    if b == [] {
      assert a + b == a;
    } else {
      assert (a + b)[..|a + b| - 1] == a + b[..|b| - 1];
      BindConcat(es, lookup, a, b[..|b| - 1]);
    }
  }

  /** Tokens that are not adjectives bind nothing. */
  lemma {:induction false} NoAdjectives(es: seq<ExtractedEntity>, lookup: map<string, nat>, doc: seq<Token>)
    requires forall k :: 0 <= k < |doc| ==> doc[k].pos != "ADJ"
    ensures BindAdjectives(es, lookup, doc) == es
  {
    if doc != [] {
      NoAdjectives(es, lookup, doc[..|doc| - 1]);
    }
  }

  lemma OneToken(es: seq<ExtractedEntity>, lookup: map<string, nat>, t: Token)
    ensures BindAdjectives(es, lookup, [t]) == BindToken(es, lookup, t)
  {
    assert [t][..0] == [];
  }

  function Car(): ExtractedEntity
  {
    ExtractedEntity("vehicle_0", Vehicle, "car", map["ner_type" := Attribute("ner_type", "Misc")])
  }

  function Building(): ExtractedEntity
  {
    ExtractedEntity("environment_1", Environment, "building", map["ner_type" := Attribute("ner_type", "Loc")])
  }

  /** The first loop over two mentions, unfolded. */
  lemma TwoMentions(a: Mention, b: Mention)
    ensures InitialEntities([a, b]) == [NewEntity(a, 0), NewEntity(b, 1)]
    ensures EntityMap([a, b]) == map[Key(a) := 0][Key(b) := 1]
  {
    assert [a, b][..1] == [a];
    assert [a][..0] == [];
    assert EntityMap([a]) == map[Key(a) := 0];
  }

  lemma CarText()
    ensures EntityText(MENTIONS[0]) == "car"
  {
    RemoveAllMissingChar("car", "##", '#');
  }

  lemma CarNerType()
    ensures NerType(MENTIONS[0]) == "Misc"
  {
    NormaliseTags("");
    assert "" + "MISC" == "MISC";
  }

  lemma LowerCar()
    ensures Lower("car") == "car"
  {
  }

  lemma CarIsVehicle()
    ensures Classify("Misc", "car") == Vehicle
  {
    LowerCar();
    assert Contains("car", "car");
    assert ContainsAny("car", VEHICLE_WORDS);
  }

  lemma CarType()
    ensures MentionType(MENTIONS[0]) == Vehicle
  {
    CarText();
    CarNerType();
    CarIsVehicle();
  }

  lemma CarId()
    ensures EntityId(Vehicle, 0) == "vehicle_0"
  {
    LowerTypeName(Vehicle);
    assert NatToString(0) == "0";
  }

  lemma CarMention()
    ensures NewEntity(MENTIONS[0], 0) == Car() && Key(MENTIONS[0]) == "car"
  {
    CarText();
    CarNerType();
    CarType();
    CarId();
    LowerCar();
  }

  lemma BuildingText()
    ensures EntityText(MENTIONS[1]) == "building"
  {
    RemoveAllMissingChar("building", "##", '#');
  }

  lemma BuildingNerType()
    ensures NerType(MENTIONS[1]) == "Loc"
  {
    NormaliseTags("");
    assert "" + "LOC" == "LOC";
  }

  lemma LowerBuilding()
    ensures Lower("building") == "building"
  {
  }

  lemma BuildingType()
    ensures MentionType(MENTIONS[1]) == Environment
  {
    BuildingText();
    BuildingNerType();
  }

  lemma BuildingId()
    ensures EntityId(Environment, 1) == "environment_1"
  {
    LowerTypeName(Environment);
    assert NatToString(1) == "1";
  }

  lemma BuildingMention()
    ensures NewEntity(MENTIONS[1], 1) == Building() && Key(MENTIONS[1]) == "building"
  {
    BuildingText();
    BuildingNerType();
    BuildingType();
    BuildingId();
    LowerBuilding();
  }

  /** The first loop turns the two mentions into vehicle_0 and environment_1. */
  lemma ScenarioEntities()
    ensures InitialEntities(MENTIONS) == [Car(), Building()]
    ensures EntityMap(MENTIONS) == LOOKUP
  {
    TwoMentions(MENTIONS[0], MENTIONS[1]);
    CarMention();
    BuildingMention();
  }

  const LOOKUP := map["car" := 0, "building" := 1]

  function CarRed(): ExtractedEntity
  {
    Car().(attributes := Car().attributes["red" := Attribute("red", "red")])
  }

  function BuildingOld(): ExtractedEntity
  {
    Building().(attributes := Building().attributes["old" := Attribute("old", "old")])
  }

  lemma BindRed()
    ensures BindToken([Car(), Building()], LOOKUP, RED) == [CarRed(), Building()]
  {
    assert Lower("car") == "car" && Lower("red") == "red";
  }

  lemma BindOld()
    ensures BindToken([CarRed(), Building()], LOOKUP, OLD) == [CarRed(), BuildingOld()]
  {
    LowerBuilding();
    assert Lower("old") == "old";
  }

  lemma DocParts()
    ensures DOC == [DOC[0]] + [RED] + DOC[2..6] + [OLD] + DOC[7..]
    ensures DOC[0].pos != "ADJ"
    ensures forall k :: 0 <= k < |DOC[2..6]| ==> DOC[2..6][k].pos != "ADJ"
    ensures forall k :: 0 <= k < |DOC[7..]| ==> DOC[7..][k].pos != "ADJ"
  {
  }

  /** "red" (head "car") and "old" (head "building") are bound; nothing else is. */
  lemma ScenarioBinding()
    ensures BindAdjectives([Car(), Building()], LOOKUP, DOC) == [CarRed(), BuildingOld()]
  {
    var es0 := [Car(), Building()];
    var es1 := [CarRed(), Building()];
    var es2 := [CarRed(), BuildingOld()];
    DocParts();
    var p0, p2, p4 := [DOC[0]], DOC[2..6], DOC[7..];
    BindConcat(es0, LOOKUP, p0 + [RED] + p2 + [OLD], p4);
    BindConcat(es0, LOOKUP, p0 + [RED] + p2, [OLD]);
    BindConcat(es0, LOOKUP, p0 + [RED], p2);
    BindConcat(es0, LOOKUP, p0, [RED]);
    NoAdjectives(es0, LOOKUP, p0);
    OneToken(es0, LOOKUP, RED);
    BindRed();
    NoAdjectives(es1, LOOKUP, p2);
    OneToken(es1, LOOKUP, OLD);
    BindOld();
    NoAdjectives(es2, LOOKUP, p4);
  }

  /** The whole example: vehicle_0 "car" with ner_type "Misc" and red = "red", and
      environment_1 "building" with ner_type "Loc" and old = "old". */
  lemma ScenarioExtraction()
    ensures Extracted(MENTIONS, DOC) == ExtractionResult(
      [ExtractedEntity("vehicle_0", Vehicle, "car",
         map["ner_type" := Attribute("ner_type", "Misc"), "red" := Attribute("red", "red")]),
       ExtractedEntity("environment_1", Environment, "building",
         map["ner_type" := Attribute("ner_type", "Loc"), "old" := Attribute("old", "old")])],
      [], map[])
  {
    ScenarioEntities();
    ScenarioBinding();
  }

  // ---------------------------------------------------------------------------
  // parse_value_and_unit

  lemma ParseNoNumber()
    ensures ParseValueAndUnit("fast") == (None, None)
  {
  }

  lemma SpeedMatch()
    ensures IsLeftmostNumber("50 km/h", NumberMatch(0, 2, 2))
  {
  }

  lemma SpeedValue()
    ensures ValueOf("50 km/h", NumberMatch(0, 2, 2)) == Int(50)
  {
    SpeedMatch();
    assert "50 km/h"[0..2] == "50";
    assert DigitsValue("50") == 50 by {
      assert "50"[..1] == "5";
    }
  }

  lemma SpeedUnit()
    ensures UnitAfter(" km/h") == Some("km/h")
  {
    assert Strip(" km/h") == "km/h";
    assert LStrip("km/h", IsSlashOrSpace) == "km/h";
    assert RStrip("km/h", IsDot) == "km/h";
    assert Strip("km/h") == "km/h";
  }

  lemma ParseSpeed()
    ensures ParseValueAndUnit("50 km/h") == (Some(Int(50)), Some("km/h"))
  {
    SpeedMatch();
    ParseValueAndUnitSpec("50 km/h", NumberMatch(0, 2, 2));
    SpeedValue();
    assert "50 km/h"[2..] == " km/h";
    SpeedUnit();
  }

  lemma TrailingDotMatch()
    ensures IsLeftmostNumber("5.", NumberMatch(0, 1, 1))
  {
  }

  /** A '.' with no digit after it is not part of the number; the unit then strips to nothing. */
  lemma ParseTrailingDot()
    ensures ParseValueAndUnit("5.") == (Some(Int(5)), None)
  {
    TrailingDotMatch();
    ParseValueAndUnitSpec("5.", NumberMatch(0, 1, 1));
    assert "5."[0..1] == "5";
    assert "5."[1..] == ".";
  }

  lemma SlashUnit()
    ensures UnitAfter(" / m/s.") == Some("m/s")
  {
    SlashStrip();
    SlashLStrip();
    DotRStrip();
    assert Strip("m/s") == "m/s";
  }

  lemma SlashStrip()
    ensures Strip(" / m/s.") == "/ m/s."
  {
    assert " / m/s."[1..] == "/ m/s.";
    assert LStrip(" / m/s.", IsSpace) == LStrip("/ m/s.", IsSpace) == "/ m/s.";
  }

  lemma SlashLStrip()
    ensures LStrip("/ m/s.", IsSlashOrSpace) == "m/s."
  {
    assert "/ m/s."[1..] == " m/s." && " m/s."[1..] == "m/s.";
    assert LStrip(" m/s.", IsSlashOrSpace) == LStrip("m/s.", IsSlashOrSpace) == "m/s.";
  }

  lemma DotRStrip()
    ensures RStrip("m/s.", IsDot) == "m/s"
  {
    assert "m/s."[..3] == "m/s";
    assert RStrip("m/s.", IsDot) == RStrip("m/s", IsDot) == "m/s";
  }

  lemma DecimalMatch()
    ensures IsLeftmostNumber("at 3.5 / m/s.", NumberMatch(3, 4, 6))
  {
  }

  lemma DecimalValue()
    ensures ValueOf("at 3.5 / m/s.", NumberMatch(3, 4, 6)) == Dec("3", "5")
  {
    var text := "at 3.5 / m/s.";
    DecimalMatch();
    assert text[3..6] == "3.5";
    assert text[3..4] == "3" && text[5..6] == "5";
  }

  lemma DecimalConvert()
    ensures IsLeftmostNumber("at 3.5 / m/s.", NumberMatch(3, 4, 6))
    ensures Convert("at 3.5 / m/s.", NumberMatch(3, 4, 6)) == Some(Dec("3", "5"))
  {
    DecimalMatch();
    assert "at 3.5 / m/s."[3..6] == "3.5";
    assert !IntegerTooLong("at 3.5 / m/s.", NumberMatch(3, 4, 6));
    DecimalValue();
  }

  /** A decimal keeps its digits; leading "/ " and trailing '.' are trimmed from the unit. */
  lemma ParseDecimal()
    ensures ParseValueAndUnit("at 3.5 / m/s.") == (Some(Dec("3", "5")), Some("m/s"))
  {
    DecimalMatch();
    ParseValueAndUnitSpec("at 3.5 / m/s.", NumberMatch(3, 4, 6));
    DecimalConvert();
    assert "at 3.5 / m/s."[6..] == " / m/s.";
    SlashUnit();
  }

  /** 4301 ones: one digit more than `int(..)` converts. */
  const LONG_DIGITS: string := seq(INT_MAX_STR_DIGITS + 1, _ => '1')

  lemma LongMatch()
    ensures IsLeftmostNumber(LONG_DIGITS + " km", NumberMatch(0, 4301, 4301))
  {
    var text := LONG_DIGITS + " km";
    assert forall k :: 0 <= k < 4301 ==> text[k] == '1';
    assert text[4301] == ' ';
  }

  lemma LongTooLong()
    ensures IntegerTooLong(LONG_DIGITS + " km", NumberMatch(0, 4301, 4301))
  {
    var text := LONG_DIGITS + " km";
    assert text[0..4301] == LONG_DIGITS;
    assert forall k :: 0 <= k < |LONG_DIGITS| ==> LONG_DIGITS[k] != '.';
  }

  lemma KmUnit()
    ensures UnitAfter(" km") == Some("km")
  {
    assert Strip(" km") == "km";
    assert LStrip("km", IsSlashOrSpace) == "km";
    assert RStrip("km", IsDot) == "km";
    assert Strip("km") == "km";
  }

  /** An integer too long for `int(..)` gives no value, but the unit after it is
      still returned. */
  lemma ParseLongInteger()
    ensures ParseValueAndUnit(LONG_DIGITS + " km") == (None, Some("km"))
  {
    var text := LONG_DIGITS + " km";
    LongMatch();
    ParseValueAndUnitSpec(text, NumberMatch(0, 4301, 4301));
    LongTooLong();
    assert text[4301..] == " km";
    KmUnit();
  }
}
