/** `extract_detailed_odd_info` (main.py:95-133): every recognizer mention becomes
    one classified entity with a counter-based id, entities are registered in a
    lookup keyed by their lower-cased text, and adjectives are then bound as
    attributes onto the entity the lookup names for their syntactic head.

    The program's lookup dictionary holds the very entity dictionaries that sit in
    the result list, so writing an attribute through the lookup changes the list
    entry. Here the entities are a sequence and the lookup maps each key to an
    index into it; writing through the lookup updates the entity at that index. */
module Extraction {
  import opened Text
  import opened Classification
  import opened Analysis

  /** One bound attribute; the program stores it as {'name': n, 'value': {'value': v}}. */
  datatype Attribute = Attribute(name: string, value: string)

  datatype ExtractedEntity = ExtractedEntity(
    id: string,
    oddType: OddType,
    text: string,
    attributes: map<string, Attribute>)

  /** The program never adds a relationship, so their element type is left as text. */
  datatype ExtractionResult = ExtractionResult(
    entities: seq<ExtractedEntity>,
    relationships: seq<string>,
    attributes: map<string, Attribute>)

  // ---------------------------------------------------------------------------
  // Specification of the first loop (main.py:102-124)

  /** The mention's word with every "##" removed. */
  function EntityText(m: Mention): string { RemoveAll(m.word, "##") }

  /** The label after prefix removal and capitalization; this is what `ner_type` holds. */
  function NerType(m: Mention): string { NormaliseLabel(m.entity) }

  function MentionType(m: Mention): OddType { Classify(NerType(m), EntityText(m)) }

  /** The key under which the mention's entity is registered in the lookup. */
  function Key(m: Mention): string { Lower(EntityText(m)) }

  function EntityId(t: OddType, n: nat): string { Lower(TypeName(t)) + "_" + NatToString(n) }

  /** The attributes an entity is created with. */
  function InitialAttributes(m: Mention): map<string, Attribute>
  {
    map["ner_type" := Attribute("ner_type", NerType(m))]
  }

  /** The entity created for the `n`-th mention. */
  function NewEntity(m: Mention, n: nat): ExtractedEntity
  {
    ExtractedEntity(EntityId(MentionType(m), n), MentionType(m), EntityText(m), InitialAttributes(m))
  }

  /** `f` applied to every element of `xs` together with its index. */
  function Indexed<A, B>(xs: seq<A>, f: (A, nat) -> B): (r: seq<B>)
    ensures |r| == |xs|
    ensures forall i :: 0 <= i < |xs| ==> r[i] == f(xs[i], i)
  {
    seq(|xs|, i requires 0 <= i < |xs| => f(xs[i], i))
  }

  /** The entity list after the first loop: one entity per mention, in mention
      order, the `i`-th built from the `i`-th mention and the counter value `i`. */
  function InitialEntities(ms: seq<Mention>): seq<ExtractedEntity>
  {
    Indexed(ms, NewEntity)
  }

  /** The lookup after the first loop: a later mention overwrites an earlier one with the same key. */
  function EntityMap(ms: seq<Mention>): map<string, nat>
  {
    if ms == [] then map[]
    else EntityMap(ms[..|ms| - 1])[Key(ms[|ms| - 1]) := |ms| - 1]
  }

  // ---------------------------------------------------------------------------
  // Specification of the second loop (main.py:126-131)

  /** The token is an adjective whose head's lower-cased text is a lookup key. */
  predicate Binds(t: Token, lookup: map<string, nat>)
  {
    t.pos == "ADJ" && Lower(t.headText) in lookup
  }

  /** The effect of one token on the entity list. The bound on the index has no
      counterpart in the program; it only makes the function total, and it always
      holds on the lookup the first loop builds (see EntityMapBounded). */
  function BindToken(es: seq<ExtractedEntity>, lookup: map<string, nat>, t: Token): seq<ExtractedEntity>
  {
    if Binds(t, lookup) && lookup[Lower(t.headText)] < |es| then
      var i := lookup[Lower(t.headText)];
      var name := Lower(t.text);
      es[i := es[i].(attributes := es[i].attributes[name := Attribute(name, t.text)])]
    else es
  }

  /** The entity list after the tokens of `doc`, in order, have been bound. */
  function BindAdjectives(es: seq<ExtractedEntity>, lookup: map<string, nat>, doc: seq<Token>): seq<ExtractedEntity>
  {
    if doc == [] then es
    else BindToken(BindAdjectives(es, lookup, doc[..|doc| - 1]), lookup, doc[|doc| - 1])
  }

  /** The whole extraction, as a function of the two models' outputs. */
  function Extracted(ms: seq<Mention>, doc: seq<Token>): ExtractionResult
  {
    ExtractionResult(BindAdjectives(InitialEntities(ms), EntityMap(ms), doc), [], map[])
  }

  // ---------------------------------------------------------------------------
  // The program

  /** main.py:95-133, with the two models' outputs passed in. The two loops are
      the methods below. */
  method ExtractDetailedOddInfo(nerEntities: seq<Mention>, doc: seq<Token>) returns (extracted: ExtractionResult)
    ensures extracted == Extracted(nerEntities, doc)
    ensures |extracted.entities| == |nerEntities|
    ensures extracted.relationships == [] && extracted.attributes == map[]
  {
    var entities, entityMap := RegisterMentions(nerEntities);
    EntityMapBounded(nerEntities);
    entities := BindAdjectiveTokens(entities, entityMap, doc);
    BindFrame(InitialEntities(nerEntities), entityMap, doc);
    extracted := ExtractionResult(entities, [], map[]);
  }

  /** The first loop (main.py:98-124): classify each mention, give it the next id
      and register it in the lookup under its lower-cased text. */
  method RegisterMentions(nerEntities: seq<Mention>) returns (entities: seq<ExtractedEntity>, entityMap: map<string, nat>)
    ensures entities == InitialEntities(nerEntities)
    ensures entityMap == EntityMap(nerEntities)
  {
    entities := [];
    entityMap := map[];
    var entityIdCounter: nat := 0;

    var i := 0;
    while i < |nerEntities|
      invariant 0 <= i <= |nerEntities|
      invariant entityIdCounter == i
      invariant entities == InitialEntities(nerEntities[..i])
      invariant entityMap == EntityMap(nerEntities[..i])
    {
      var newEntity := BuildEntity(nerEntities[i], entityIdCounter);
      entityIdCounter := entityIdCounter + 1;
      entities := entities + [newEntity];
      entityMap := entityMap[Lower(newEntity.text) := i];
      EntityMapSnoc(nerEntities, i);
      InitialEntitiesSnoc(nerEntities, i);
      i := i + 1;
    }
    assert nerEntities[..i] == nerEntities;
  }

  /** Registering one more mention appends its entity. */
  lemma InitialEntitiesSnoc(ms: seq<Mention>, i: nat)
    requires i < |ms|
    ensures InitialEntities(ms[..i + 1]) == InitialEntities(ms[..i]) + [NewEntity(ms[i], i)]
  {
    IndexedSnoc(ms, NewEntity, i);
  }

  lemma IndexedSnoc<A, B>(xs: seq<A>, f: (A, nat) -> B, i: nat)
    requires i < |xs|
    ensures Indexed(xs[..i + 1], f) == Indexed(xs[..i], f) + [f(xs[i], i)]
  {
    var longer, shorter := xs[..i + 1], xs[..i];
    assert forall k :: 0 <= k < i ==> longer[k] == shorter[k];
  }

  /** Registering one more mention updates the lookup at that mention's key. */
  lemma EntityMapSnoc(ms: seq<Mention>, i: nat)
    requires i < |ms|
    ensures EntityMap(ms[..i + 1]) == EntityMap(ms[..i])[Key(ms[i]) := i]
  {
    assert ms[..i + 1][..i] == ms[..i];
  }

  /** The body of the first loop (main.py:103-122) for one mention and the current
      counter value. */
  method BuildEntity(nerEntity: Mention, entityIdCounter: nat) returns (newEntity: ExtractedEntity)
    ensures newEntity == NewEntity(nerEntity, entityIdCounter)
    ensures newEntity.text == EntityText(nerEntity) && !Contains(newEntity.text, "##")
  {
    EntityTextUnmarked(nerEntity);
    var word := RemoveAll(nerEntity.word, "##");
    var entityTypeRaw := NormaliseLabel(nerEntity.entity);
    var oddType := Classify(entityTypeRaw, word);
    var entityId := Lower(TypeName(oddType)) + "_" + NatToString(entityIdCounter);
    newEntity := ExtractedEntity(entityId, oddType, word,
      map["ner_type" := Attribute("ner_type", entityTypeRaw)]);
  }

  /** The second loop (main.py:126-131): every adjective whose head's lower-cased
      text is in the lookup writes its lower-cased text, with its own text as the
      value, onto the entity the lookup names. The lookup only names entities
      that exist. */
  method BindAdjectiveTokens(entities0: seq<ExtractedEntity>, entityMap: map<string, nat>, doc: seq<Token>)
    returns (entities: seq<ExtractedEntity>)
    requires forall k :: k in entityMap ==> entityMap[k] < |entities0|
    ensures entities == BindAdjectives(entities0, entityMap, doc)
  {
    entities := entities0;
    var j := 0;
    while j < |doc|
      invariant 0 <= j <= |doc|
      invariant entities == BindAdjectives(entities0, entityMap, doc[..j])
      invariant |entities| == |entities0|
    {
      var token := doc[j];
      if token.pos == "ADJ" && Lower(token.headText) in entityMap {
        var idx := entityMap[Lower(token.headText)];
        var attrName := Lower(token.text);
        var entity := entities[idx];
        entities := entities[idx := entity.(attributes := entity.attributes[attrName := Attribute(attrName, token.text)])];
      }
      assert doc[..j + 1][..j] == doc[..j];
      j := j + 1;
    }
    assert doc[..j] == doc;
  }

  // ---------------------------------------------------------------------------
  // The first loop

  /** The `i`-th entity is the last with its key: no later mention has the same lower-cased text. */
  ghost predicate Owner(ms: seq<Mention>, key: string, i: int)
  {
    0 <= i < |ms| && Key(ms[i]) == key && forall j :: i < j < |ms| ==> Key(ms[j]) != key
  }

  /** The lookup's keys are exactly the mentions' keys, and each key is mapped to the
      last mention that has it. */
  lemma {:induction false} EntityMapSpec(ms: seq<Mention>, key: string)
    ensures key in EntityMap(ms) <==> exists i :: 0 <= i < |ms| && Key(ms[i]) == key
    ensures key in EntityMap(ms) ==> Owner(ms, key, EntityMap(ms)[key])
  {
    if ms != [] {
      var init := ms[..|ms| - 1];
      EntityMapSpec(init, key);
      assert forall i :: 0 <= i < |init| ==> init[i] == ms[i];
    }
  }

  lemma EntityMapBounded(ms: seq<Mention>)
    ensures forall key :: key in EntityMap(ms) ==> EntityMap(ms)[key] < |ms|
  {
    forall key | key in EntityMap(ms)
      ensures EntityMap(ms)[key] < |ms|
    {
      EntityMapSpec(ms, key);
    }
  }

  /** The lookup names entity `i` for `key` exactly when `i` is the key's owner. */
  lemma EntityMapOwner(ms: seq<Mention>, key: string, i: int)
    ensures (key in EntityMap(ms) && EntityMap(ms)[key] == i) <==> Owner(ms, key, i)
  {
    EntityMapSpec(ms, key);
    if Owner(ms, key, i) {
      assert key in EntityMap(ms);
      var o := EntityMap(ms)[key];
      assert Owner(ms, key, o);
      assert !(o < i) && !(i < o);
    }
  }

  // ---------------------------------------------------------------------------
  // The second loop

  /** Token `t` writes through the lookup onto entity `i`. */
  ghost predicate Targets(lookup: map<string, nat>, t: Token, i: int)
  {
    Binds(t, lookup) && lookup[Lower(t.headText)] == i
  }

  /** Token `t` writes attribute `name` onto entity `i`. */
  ghost predicate Writes(lookup: map<string, nat>, t: Token, i: int, name: string)
  {
    Targets(lookup, t, i) && Lower(t.text) == name
  }

  /** Binding keeps the number and order of the entities and every id, type and text. */
  lemma {:induction false} BindFrame(es: seq<ExtractedEntity>, lookup: map<string, nat>, doc: seq<Token>)
    ensures |BindAdjectives(es, lookup, doc)| == |es|
    ensures forall i :: 0 <= i < |es| ==>
      var e := BindAdjectives(es, lookup, doc)[i];
      e.id == es[i].id && e.oddType == es[i].oddType && e.text == es[i].text
  {
    if doc != [] {
      BindFrame(es, lookup, doc[..|doc| - 1]);
    }
  }

  /** An entity no token targets is left exactly as it was. */
  lemma {:induction false} BindUntouched(es: seq<ExtractedEntity>, lookup: map<string, nat>, doc: seq<Token>, i: int)
    requires 0 <= i < |es|
    requires forall j :: 0 <= j < |doc| ==> !Targets(lookup, doc[j], i)
    ensures |BindAdjectives(es, lookup, doc)| == |es|
    ensures BindAdjectives(es, lookup, doc)[i] == es[i]
  {
    if doc != [] {
      var init := doc[..|doc| - 1];
      assert forall j :: 0 <= j < |init| ==> init[j] == doc[j];
      BindUntouched(es, lookup, init, i);
      assert !Targets(lookup, doc[|doc| - 1], i);
    }
  }

  /** Attribute `name` of entity `i` is left as it was, present or absent, when no
      token writes it. */
  lemma {:induction false} BindUnwritten(es: seq<ExtractedEntity>, lookup: map<string, nat>, doc: seq<Token>, i: int, name: string)
    requires 0 <= i < |es|
    requires forall j :: 0 <= j < |doc| ==> !Writes(lookup, doc[j], i, name)
    ensures |BindAdjectives(es, lookup, doc)| == |es|
    ensures name in BindAdjectives(es, lookup, doc)[i].attributes <==> name in es[i].attributes
    ensures name in es[i].attributes ==>
      BindAdjectives(es, lookup, doc)[i].attributes[name] == es[i].attributes[name]
  {
    BindFrame(es, lookup, doc);
    if doc != [] {
      var init := doc[..|doc| - 1];
      assert forall j :: 0 <= j < |init| ==> init[j] == doc[j];
      BindUnwritten(es, lookup, init, i, name);
      BindFrame(es, lookup, init);
      assert !Writes(lookup, doc[|doc| - 1], i, name);
    }
  }

  /** Attribute `name` of entity `i` holds the text of the last token that writes it. */
  lemma {:induction false} BindLastWriter(es: seq<ExtractedEntity>, lookup: map<string, nat>, doc: seq<Token>, i: int, name: string, j: int)
    requires 0 <= i < |es|
    requires 0 <= j < |doc| && Writes(lookup, doc[j], i, name)
    requires forall j' :: j < j' < |doc| ==> !Writes(lookup, doc[j'], i, name)
    ensures |BindAdjectives(es, lookup, doc)| == |es|
    ensures name in BindAdjectives(es, lookup, doc)[i].attributes
    ensures BindAdjectives(es, lookup, doc)[i].attributes[name] == Attribute(name, doc[j].text)
  {
    BindFrame(es, lookup, doc);
    var init := doc[..|doc| - 1];
    assert forall k :: 0 <= k < |init| ==> init[k] == doc[k];
    BindFrame(es, lookup, init);
    if j < |doc| - 1 {
      BindLastWriter(es, lookup, init, i, name, j);
      assert !Writes(lookup, doc[|doc| - 1], i, name);
    }
  }

  /** Every attribute is stored under its own name. */
  ghost predicate WellKeyed(es: seq<ExtractedEntity>)
  {
    forall i, k :: 0 <= i < |es| && k in es[i].attributes ==> es[i].attributes[k].name == k
  }

  lemma {:induction false} BindWellKeyed(es: seq<ExtractedEntity>, lookup: map<string, nat>, doc: seq<Token>)
    requires WellKeyed(es)
    ensures WellKeyed(BindAdjectives(es, lookup, doc))
  {
    if doc != [] {
      BindWellKeyed(es, lookup, doc[..|doc| - 1]);
    }
  }

  // ---------------------------------------------------------------------------
  // Properties of the whole extraction

  /** One entity per mention, in mention order; the `i`-th has id
      "<type lower-cased>_<i>", its mention's type and its mention's text. No
      relationship and no top-level attribute is ever produced. */
  lemma ExtractionShape(ms: seq<Mention>, doc: seq<Token>)
    ensures |Extracted(ms, doc).entities| == |ms|
    ensures Extracted(ms, doc).relationships == [] && Extracted(ms, doc).attributes == map[]
    ensures forall i :: 0 <= i < |ms| ==>
      var e := Extracted(ms, doc).entities[i];
      e.id == Lower(TypeName(MentionType(ms[i]))) + "_" + NatToString(i) &&
      e.oddType == MentionType(ms[i]) &&
      e.oddType == Classify(NormaliseLabel(ms[i].entity), RemoveAll(ms[i].word, "##")) &&
      e.text == RemoveAll(ms[i].word, "##") &&
      !Contains(e.text, "##")
  {
    forall i | 0 <= i < |ms| { EntityTextUnmarked(ms[i]); }
    BindFrame(InitialEntities(ms), EntityMap(ms), doc);
  }

  /** A word without "##" becomes the entity text unchanged. */
  lemma TextUnmarked(m: Mention)
    requires !Contains(m.word, "##")
    ensures EntityText(m) == m.word
  {
    RemoveAllAbsent(m.word, "##");
  }

  /** No entity text contains the sub-word marker. */
  lemma EntityTextUnmarked(m: Mention)
    ensures !Contains(EntityText(m), "##")
  {
    NoMarkerLeft(m.word);
    ContainsIff(EntityText(m), "##");
  }

  /** The id prefixes: the type names lower-cased. */
  lemma LowerTypeName(t: OddType)
    ensures Lower(TypeName(t)) ==
      match t
      case Entity => "entity"
      case Environment => "environment"
      case Object => "object"
      case Vehicle => "vehicle"
  {
    match t
    case Entity => assert Lower("Entity") == "entity";
    case Environment => assert Lower("Environment") == "environment";
    case Object => assert Lower("Object") == "object";
    case Vehicle => assert Lower("Vehicle") == "vehicle";
  }

  /** The lower-cased type names contain no '_'. */
  lemma TypePrefix(t: OddType)
    ensures '_' !in Lower(TypeName(t))
  {
    LowerTypeName(t);
  }

  /** A string of the form p + [c] + d, with no `c` in p, splits back uniquely. */
  lemma SplitAtFirst(p1: string, d1: string, p2: string, d2: string, c: char)
    requires c !in p1 && c !in p2
    requires p1 + [c] + d1 == p2 + [c] + d2
    ensures p1 == p2 && d1 == d2
  {
    var s := p1 + [c] + d1;
    assert forall k :: 0 <= k < |p1| ==> s[k] == p1[k];
    assert forall k :: 0 <= k < |p2| ==> s[k] == p2[k];
    assert s[|p1|] == c && s[|p2|] == c;
    assert |p1| == |p2|;
    assert p1 == s[..|p1|] && p2 == s[..|p2|];
    assert d1 == s[|p1| + 1..] && d2 == s[|p2| + 1..];
  }

  /** An id determines the counter value it was made from. */
  lemma EntityIdInjective(t1: OddType, n1: nat, t2: OddType, n2: nat)
    requires EntityId(t1, n1) == EntityId(t2, n2)
    ensures n1 == n2
  {
    TypePrefix(t1);
    TypePrefix(t2);
    assert EntityId(t1, n1) == Lower(TypeName(t1)) + ['_'] + NatToString(n1);
    assert EntityId(t2, n2) == Lower(TypeName(t2)) + ['_'] + NatToString(n2);
    SplitAtFirst(Lower(TypeName(t1)), NatToString(n1), Lower(TypeName(t2)), NatToString(n2), '_');
    NatToStringInjective(n1, n2);
  }

  /** All ids in one extraction are distinct. */
  lemma IdsDistinct(ms: seq<Mention>, doc: seq<Token>)
    ensures forall i, j :: 0 <= i < j < |Extracted(ms, doc).entities| ==>
      Extracted(ms, doc).entities[i].id != Extracted(ms, doc).entities[j].id
  {
    ExtractionShape(ms, doc);
    var es := Extracted(ms, doc).entities;
    forall i, j | 0 <= i < j < |es|
      ensures es[i].id != es[j].id
    {
      if es[i].id == es[j].id {
        EntityIdInjective(MentionType(ms[i]), i, MentionType(ms[j]), j);
      }
    }
  }

  /** An adjective token that writes attribute `name` onto entity `i`: its head's
      lower-cased text is the key that entity `i` owns. */
  ghost predicate AdjectiveFor(ms: seq<Mention>, t: Token, i: int, name: string)
  {
    t.pos == "ADJ" && Owner(ms, Lower(t.headText), i) && Lower(t.text) == name
  }

  lemma WritesIff(ms: seq<Mention>, t: Token, i: int, name: string)
    ensures Writes(EntityMap(ms), t, i, name) <==> AdjectiveFor(ms, t, i, name)
  {
    EntityMapOwner(ms, Lower(t.headText), i);
  }

  /** With no adjective written onto the `i`-th entity under `name`, its attribute
      `name` is what the entity was created with: only `ner_type` is present, and
      it holds the normalised label. */
  lemma ExtractionUnbound(ms: seq<Mention>, doc: seq<Token>, i: int, name: string)
    requires 0 <= i < |ms|
    requires forall j :: 0 <= j < |doc| ==> !AdjectiveFor(ms, doc[j], i, name)
    ensures |Extracted(ms, doc).entities| == |ms|
    ensures name in Extracted(ms, doc).entities[i].attributes <==> name == "ner_type"
    ensures name in Extracted(ms, doc).entities[i].attributes ==>
      Extracted(ms, doc).entities[i].attributes[name] == Attribute("ner_type", NormaliseLabel(ms[i].entity))
  {
    forall j | 0 <= j < |doc|
      ensures !Writes(EntityMap(ms), doc[j], i, name)
    {
      WritesIff(ms, doc[j], i, name);
    }
    BindUnwritten(InitialEntities(ms), EntityMap(ms), doc, i, name);
  }

  /** The `i`-th entity's attribute `name` holds the text of the last adjective
      written onto it under that name. */
  lemma ExtractionLastAdjective(ms: seq<Mention>, doc: seq<Token>, i: int, name: string, j: int)
    requires 0 <= i < |ms|
    requires 0 <= j < |doc| && AdjectiveFor(ms, doc[j], i, name)
    requires forall j' :: j < j' < |doc| ==> !AdjectiveFor(ms, doc[j'], i, name)
    ensures |Extracted(ms, doc).entities| == |ms|
    ensures name in Extracted(ms, doc).entities[i].attributes
    ensures Extracted(ms, doc).entities[i].attributes[name] == Attribute(name, doc[j].text)
  {
    forall j' | 0 <= j' < |doc|
      ensures Writes(EntityMap(ms), doc[j'], i, name) <==> AdjectiveFor(ms, doc[j'], i, name)
    {
      WritesIff(ms, doc[j'], i, name);
    }
    BindLastWriter(InitialEntities(ms), EntityMap(ms), doc, i, name, j);
  }

  /** An entity whose lower-cased text a later mention repeats is shadowed in the
      lookup: it keeps only its `ner_type` attribute. */
  lemma ShadowedEntity(ms: seq<Mention>, doc: seq<Token>, i: int, j: int)
    requires 0 <= i < j < |ms| && Key(ms[i]) == Key(ms[j])
    ensures |Extracted(ms, doc).entities| == |ms|
    ensures Extracted(ms, doc).entities[i].attributes == InitialAttributes(ms[i])
  {
    forall k | 0 <= k < |doc|
      ensures !Targets(EntityMap(ms), doc[k], i)
    {
      EntityMapOwner(ms, Lower(doc[k].headText), i);
    }
    BindUntouched(InitialEntities(ms), EntityMap(ms), doc, i);
  }

  /** Every attribute key is lower-case. */
  ghost predicate LowerKeyed(es: seq<ExtractedEntity>)
  {
    forall i, k :: 0 <= i < |es| && k in es[i].attributes ==> IsLowerCase(k)
  }

  lemma {:induction false} BindLowerKeyed(es: seq<ExtractedEntity>, lookup: map<string, nat>, doc: seq<Token>)
    requires LowerKeyed(es)
    ensures LowerKeyed(BindAdjectives(es, lookup, doc))
  {
    if doc != [] {
      BindLowerKeyed(es, lookup, doc[..|doc| - 1]);
    }
  }

  /** Every attribute key of every extracted entity is lower-case: `ner_type`, or an
      adjective's lower-cased text. */
  lemma ExtractionLowerKeyed(ms: seq<Mention>, doc: seq<Token>)
    ensures LowerKeyed(Extracted(ms, doc).entities)
  {
    InitialLowerKeyed(ms);
    BindLowerKeyed(InitialEntities(ms), EntityMap(ms), doc);
  }

  /** Before binding, every entity has just the `ner_type` attribute. */
  lemma InitialLowerKeyed(ms: seq<Mention>)
    ensures LowerKeyed(InitialEntities(ms))
  {
    assert IsLowerCase("ner_type");
    forall i | 0 <= i < |ms|
      ensures InitialEntities(ms)[i].attributes == InitialAttributes(ms[i])
    {
      assert InitialEntities(ms)[i] == NewEntity(ms[i], i);
    }
  }

  /** Every attribute of every extracted entity is stored under its own name. */
  lemma ExtractionWellKeyed(ms: seq<Mention>, doc: seq<Token>)
    ensures WellKeyed(Extracted(ms, doc).entities)
  {
    BindWellKeyed(InitialEntities(ms), EntityMap(ms), doc);
  }
}
