/** Lookup of the game's own vocabulary: the key built from a type's pattern
    and the fragments derived from game objects, the per-language fallback
    chain, and the key itself as the answer when nothing is found. */
module Minecraft {
  import opened Wrappers
  import opened Text
  import Languages

  type Language = Languages.Language

  /** The game translation file of each language whose file could be read:
      key to text. A language outside the map holds no keys; which languages
      are in it (the available ones) and the file reading are not modelled. */
  type Catalogue = map<Language, map<string, string>>

  /** `LangReader.containsKey`. */
  predicate ContainsKey(cat: Catalogue, l: Language, key: string) {
    l in cat && key in cat[l]
  }

  /** What the lookup reads from outside: the files, the server language,
      the built-in English entry and each language's similar list. */
  datatype Env = Env(
    catalogue: Catalogue,
    server: Language,
    english: Language,
    similarOf: Language -> seq<Language>)

  /** The language a lookup settled on and the text found there, if any. */
  datatype Found = Found(language: Language, result: Option<string>)

  /** The first language of `similar`, other than `l`, that holds the key. */
  function FirstSimilar(cat: Catalogue, l: Language, similar: seq<Language>, key: string): (r: Option<Language>)
    ensures r.Some? ==> r.value in similar && r.value != l && ContainsKey(cat, r.value, key)
    ensures r.None? ==> forall x :: x in similar && x != l ==> !ContainsKey(cat, x, key)
  {
    if similar == [] then None
    else if similar[0] != l && ContainsKey(cat, similar[0], key) then Some(similar[0])
    else FirstSimilar(cat, l, similar[1..], key)
  }

  /** `FindTask.task`: exact, then the first similar language, then the server
      language when it differs, then English when it differs; otherwise the
      requested language with nothing found. */
  function Find(env: Env, l: Language, key: string): (r: Found)
    ensures r.result.Some? ==> ContainsKey(env.catalogue, r.language, key) &&
                               r.result.value == env.catalogue[r.language][key]
    ensures r.result.None? ==> r.language == l
    ensures ContainsKey(env.catalogue, l, key) ==> r == Found(l, Some(env.catalogue[l][key]))
    ensures r.result.None? <==>
      !ContainsKey(env.catalogue, l, key) &&
      (forall x :: x in env.similarOf(l) ==> !ContainsKey(env.catalogue, x, key)) &&
      !ContainsKey(env.catalogue, env.server, key) &&
      !ContainsKey(env.catalogue, env.english, key)
    ensures r.language in [l] + env.similarOf(l) + [env.server, env.english]
  {
    var cat := env.catalogue;
    if ContainsKey(cat, l, key) then Found(l, Some(cat[l][key]))
    else match FirstSimilar(cat, l, env.similarOf(l), key)
      case Some(x) => Found(x, Some(cat[x][key]))
      case None =>
        if l != env.server && ContainsKey(cat, env.server, key) then
          Found(env.server, Some(cat[env.server][key]))
        else if l != env.english && ContainsKey(cat, env.english, key) then
          Found(env.english, Some(cat[env.english][key]))
        else Found(l, None)
  }

  /** Reference reading of the chain: the first candidate, in the order
      requested, similar, server, English, that holds the key. */
  function FirstHolder(cat: Catalogue, candidates: seq<Language>, key: string): Option<Language>
  {
    if candidates == [] then None
    else if ContainsKey(cat, candidates[0], key) then Some(candidates[0])
    else FirstHolder(cat, candidates[1..], key)
  }

  lemma {:induction false} FirstHolderSkipsSimilar(cat: Catalogue, l: Language, similar: seq<Language>,
                                                   rest: seq<Language>, key: string)
    requires !ContainsKey(cat, l, key)
    ensures FirstHolder(cat, similar + rest, key) ==
      (if FirstSimilar(cat, l, similar, key).Some? then FirstSimilar(cat, l, similar, key)
       else FirstHolder(cat, rest, key))
    decreases |similar|
  {
    if similar != [] {
      assert (similar + rest)[0] == similar[0];
      assert (similar + rest)[1..] == similar[1..] + rest;
      FirstHolderSkipsSimilar(cat, l, similar[1..], rest, key);
    } else {
      assert similar + rest == rest;
    }
  }

  /** The chain's exclusions (a similar entry equal to the language, a server
      or English language equal to it) change nothing: the lookup settles on
      the first candidate that holds the key. */
  lemma FindIsFirstHolder(env: Env, l: Language, key: string)
    ensures var h := FirstHolder(env.catalogue, [l] + env.similarOf(l) + [env.server, env.english], key);
            var r := Find(env, l, key);
            (r.result.Some? <==> h.Some?) && (h.Some? ==> r.language == h.value)
  {
    var cat := env.catalogue;
    var cands := [l] + env.similarOf(l) + [env.server, env.english];
    if !ContainsKey(cat, l, key) {
      assert cands[1..] == env.similarOf(l) + [env.server, env.english];
      FirstHolderSkipsSimilar(cat, l, env.similarOf(l), [env.server, env.english], key);
      var tail := [env.server, env.english];
      assert tail[1..] == [env.english];
      assert [env.english][1..] == [];
      assert FirstHolder(cat, [env.english], key) ==
        (if ContainsKey(cat, env.english, key) then Some(env.english) else None);
      assert FirstHolder(cat, tail, key) ==
        (if ContainsKey(cat, env.server, key) then Some(env.server)
         else FirstHolder(cat, [env.english], key));
    } else {
      assert cands[0] == l;
    }
  }

  /** `Result.getFinalResult`: the text found, or the key itself. */
  function FinalResult(f: Found, key: string): (r: string)
    ensures f.result.Some? ==> r == f.result.value
    ensures f.result.None? ==> r == key
  {
    f.result.GetOr(key)
  }

  /** `Result.isFound`. */
  predicate IsFound(f: Found) {
    f.result.Some?
  }

  /** The language a lookup starts from: a missing one becomes the server
      language. */
  function StartLanguage(env: Env, l: Option<Language>): (r: Language)
    ensures l.Some? ==> r == l.value
    ensures l.None? ==> r == env.server
  {
    l.GetOr(env.server)
  }

  /** A miss is reported as the key itself, never as an empty text. */
  lemma MissAnswersWithKey(env: Env, l: Option<Language>, key: string)
    requires !IsFound(Find(env, StartLanguage(env, l), key))
    ensures FinalResult(Find(env, StartLanguage(env, l), key), key) == key
    ensures !ContainsKey(env.catalogue, env.server, key) && !ContainsKey(env.catalogue, env.english, key)
  {
  }

  // ----- Keys -----

  /** The single-fragment types and their key patterns. */
  datatype SingleType =
    | CUSTOM | LANGUAGE_DETAIL | BIOME | BLOCK | ITEM | POTION_EFFECT | ENCHANTMENT_LEVEL
    | ENCHANTMENT_NAME | ENTITY_TYPE | ENTITY_VILLAGER_PROFESSION | TROPICAL_FISH_TYPE
    | COLOR_NAME | WORLD_TYPE | DIFFICULTY | GAME_MODE | SHIELD_NAME | TIPPED_ARROW_EFFECT
    | POTION_POTENCY | MERCHANT_LEVEL | STATISTIC | INVENTORY_TYPE | ITEM_GROUP
    | DEATH_SCREEN | DEATH_MESSAGE | FILLED_MAP | ATTRIBUTE
  {
    /** The text before the `%f` marker, which ends every single pattern. */
    function Prefix(): string {
      match this
      case CUSTOM => ""
      case LANGUAGE_DETAIL => "language."
      case BIOME => "biome.minecraft."
      case BLOCK => "block.minecraft."
      case ITEM => "item.minecraft."
      case POTION_EFFECT => "effect.minecraft."
      case ENCHANTMENT_LEVEL => "enchantment.level."
      case ENCHANTMENT_NAME => "enchantment.minecraft."
      case ENTITY_TYPE => "entity.minecraft."
      case ENTITY_VILLAGER_PROFESSION => "entity.minecraft.villager."
      case TROPICAL_FISH_TYPE => "entity.minecraft.tropical_fish.type."
      case COLOR_NAME => "color.minecraft."
      case WORLD_TYPE => "generator.minecraft."
      case DIFFICULTY => "options.difficulty."
      case GAME_MODE => "gameMode."
      case SHIELD_NAME => "item.minecraft.shield."
      case TIPPED_ARROW_EFFECT => "item.minecraft.tipped_arrow.effect."
      case POTION_POTENCY => "potion.potency."
      case MERCHANT_LEVEL => "merchant.level."
      case STATISTIC => "stat.minecraft."
      case INVENTORY_TYPE => "container."
      case ITEM_GROUP => "itemGroup."
      case DEATH_SCREEN => "deathScreen."
      case DEATH_MESSAGE => "death."
      case FILLED_MAP => "filled_map."
      case ATTRIBUTE => "attribute.name."
    }

    function Pattern(): string {
      Prefix() + "%f"
    }

    /** Types whose first object is a potion effect type. */
    predicate IsEffectType() {
      this == POTION_EFFECT || this == TIPPED_ARROW_EFFECT
    }
  }

  /** The two-fragment types: the text before `%f`, between `%f` and `%s`. */
  datatype BiType = BANNER_PATTERN | ITEM_POTION_NAME | TEAM_OPTION {
    function Head(): string {
      match this
      case BANNER_PATTERN => "block.minecraft.banner."
      case ITEM_POTION_NAME => "item.minecraft."
      case TEAM_OPTION => "team."
    }

    function Middle(): string {
      match this
      case BANNER_PATTERN => "."
      case ITEM_POTION_NAME => ".effect."
      case TEAM_OPTION => "."
    }

    function Pattern(): string {
      Head() + "%f" + Middle() + "%s"
    }
  }

  datatype KeyError =
    | NoFirstFragment
    | NoSecondFragment
    | LevelOutOfRange(level: int)
    | UnsupportedTeamOption
    | NotAnItem
    | EmptyCode
    | IllegalReplacement(fragment: string)

  /** The first occurrence of a `%`-marker in text whose only `%` is that
      marker is where the text before it ends. */
  lemma MarkerFill(p: string, marker: string, rest: string, x: string)
    requires |marker| == 2 && marker[0] == '%'
    requires '%' !in p
    ensures IndexOf(p + marker + rest, marker) == Some(|p|)
    ensures ReplaceFirst(p + marker + rest, marker, x) == p + x + rest
  {
    var s := p + marker + rest;
    assert s[|p|..|p| + 2] == marker;
    assert OccursAt(s, marker, |p|);
    forall j: nat | j < |p|
      ensures !OccursAt(s, marker, j)
    {
      assert s[j] == p[j];
    }
    var i := IndexOf(s, marker).value;
    assert i == |p|;
    assert s[..i] == p;
    assert s[i + 2..] == rest;
  }

  /** The no-effect and unknown-entity fragments are full keys on their own. */
  predicate IsFullKey(t: SingleType, f: string) {
    (t.IsEffectType() && f == "effect.none") || (t == ENTITY_TYPE && f == "entity.notFound")
  }

  /** `SingleMinecraftTranslation.generateKey`: a missing or empty fragment
      is an error; a full key stands as it is; otherwise the fragment is the
      replacement for the pattern's `%f` in `replaceFirst`, so its `\` and
      `$` are read as escapes and group references. */
  function SingleKey(t: SingleType, f: Option<string>): (r: Result<string, KeyError>)
    ensures r.Failure? <==>
      f.None? || f.value == "" || (!IsFullKey(t, f.value) && Replacement(f.value, "%f").None?)
    ensures f.None? || f.value == "" ==> r == Failure(NoFirstFragment)
    ensures r.Failure? && f.Some? && f.value != "" ==> r.error == IllegalReplacement(f.value)
    ensures r.Success? && IsFullKey(t, f.value) ==> r.value == f.value
    ensures r.Success? && !IsFullKey(t, f.value) ==> r.value == t.Prefix() + Replacement(f.value, "%f").value
  {
    if f.None? || f.value == "" then Failure(NoFirstFragment)
    else if IsFullKey(t, f.value) then Success(f.value)
    else
      PrefixWithoutMarker(t);
      MarkerFill(t.Prefix(), "%f", "", Replacement(f.value, "%f").GetOr(""));
      assert t.Prefix() + "%f" + "" == t.Pattern();
      match ReplaceFirstRegex(t.Pattern(), "%f", f.value)
      case None => Failure(IllegalReplacement(f.value))
      case Some(k) =>
        assert k == t.Prefix() + Replacement(f.value, "%f").value + "";
        Success(k)
  }

  /** A fragment without `\` and `$` is put in place of `%f` as it is. */
  lemma {:induction false} SingleKeyOfPlainFragment(t: SingleType, f: string)
    requires f != "" && !IsFullKey(t, f)
    requires IsLiteralReplacement(f)
    ensures SingleKey(t, Some(f)) == Success(t.Prefix() + f)
  {
    assert Replacement(f, "%f") == Some(f);
  }

  /** No single pattern has a `%` before its marker; checked a few types at
      a time. */
  lemma PrefixWithoutMarker(t: SingleType)
    ensures '%' !in t.Prefix()
  {
    if t == CUSTOM || t == LANGUAGE_DETAIL || t == BIOME || t == BLOCK || t == ITEM || t == POTION_EFFECT {
      PrefixWithoutMarkerPart1(t);
    } else if t == ENCHANTMENT_LEVEL || t == ENCHANTMENT_NAME || t == ENTITY_TYPE || t == ENTITY_VILLAGER_PROFESSION {
      PrefixWithoutMarkerPart2(t);
    } else if t == TROPICAL_FISH_TYPE || t == COLOR_NAME {
      PrefixWithoutMarkerPart3(t);
    } else if t == WORLD_TYPE || t == DIFFICULTY || t == GAME_MODE {
      PrefixWithoutMarkerPart6(t);
    } else if t == SHIELD_NAME || t == TIPPED_ARROW_EFFECT || t == POTION_POTENCY || t == MERCHANT_LEVEL {
      PrefixWithoutMarkerPart4(t);
    } else {
      PrefixWithoutMarkerPart5(t);
    }
  }

  lemma PrefixWithoutMarkerPart1(t: SingleType)
    requires t == CUSTOM || t == LANGUAGE_DETAIL || t == BIOME || t == BLOCK || t == ITEM || t == POTION_EFFECT
    ensures '%' !in t.Prefix()
  {
  }

  lemma PrefixWithoutMarkerPart2(t: SingleType)
    requires t == ENCHANTMENT_LEVEL || t == ENCHANTMENT_NAME || t == ENTITY_TYPE || t == ENTITY_VILLAGER_PROFESSION
    ensures '%' !in t.Prefix()
  {
  }

  lemma PrefixWithoutMarkerPart3(t: SingleType)
    requires t == TROPICAL_FISH_TYPE || t == COLOR_NAME
    ensures '%' !in t.Prefix()
  {
  }

  lemma PrefixWithoutMarkerPart6(t: SingleType)
    requires t == WORLD_TYPE || t == DIFFICULTY || t == GAME_MODE
    ensures '%' !in t.Prefix()
  {
  }

  lemma PrefixWithoutMarkerPart4(t: SingleType)
    requires t == SHIELD_NAME || t == TIPPED_ARROW_EFFECT || t == POTION_POTENCY || t == MERCHANT_LEVEL
    ensures '%' !in t.Prefix()
  {
  }

  lemma PrefixWithoutMarkerPart5(t: SingleType)
    requires t == STATISTIC || t == INVENTORY_TYPE || t == ITEM_GROUP || t == DEATH_SCREEN || t == DEATH_MESSAGE || t == FILLED_MAP || t == ATTRIBUTE
    ensures '%' !in t.Prefix()
  {
  }

  /** Every two-fragment pattern is its head, `%f`, its middle and `%s`,
      with no other `%`. */
  lemma BiPatternShape(t: BiType)
    ensures '%' !in t.Head() && '%' !in t.Middle()
    ensures t.Pattern() == t.Head() + "%f" + (t.Middle() + "%s" + "")
  {
  }

  /** Filling `%f` and then `%s` in a two-fragment pattern. */
  lemma BiFill(t: BiType, f: string, s: string)
    requires '%' !in f
    ensures ReplaceFirst(ReplaceFirst(t.Pattern(), "%f", f), "%s", s) == t.Head() + f + t.Middle() + s
  {
    BiPatternShape(t);
    MarkerFill(t.Head(), "%f", t.Middle() + "%s" + "", f);
    assert t.Head() + f + (t.Middle() + "%s" + "") == (t.Head() + f + t.Middle()) + "%s" + "";
    assert '%' !in t.Head() + f + t.Middle();
    MarkerFill(t.Head() + f + t.Middle(), "%s", "", s);
  }

  /** `BiMinecraftTranslation.generateKey`: both fragments are checked, the
      first before the second; then `%f` and `%s` are replaced in turn, each
      fragment read as a `replaceFirst` replacement. */
  function BiKey(t: BiType, f: Option<string>, s: Option<string>): (r: Result<string, KeyError>)
    ensures r.Failure? <==> f.None? || f.value == "" || s.None? || s.value == "" ||
                            Replacement(f.value, "%f").None? || Replacement(s.value, "%s").None?
    ensures (f.None? || f.value == "") ==> r == Failure(NoFirstFragment)
    ensures r.Success? && '%' !in Replacement(f.value, "%f").value ==>
      r.value == t.Head() + Replacement(f.value, "%f").value + t.Middle() + Replacement(s.value, "%s").value
  {
    if f.None? || f.value == "" then Failure(NoFirstFragment)
    else if s.None? || s.value == "" then Failure(NoSecondFragment)
    else
      var f1 := Replacement(f.value, "%f");
      var s1 := Replacement(s.value, "%s");
      match ReplaceFirstRegex(t.Pattern(), "%f", f.value)
      case None =>
        FirstMarkerFound(t);
        Failure(IllegalReplacement(f.value))
      case Some(k1) =>
        SecondMarkerFound(t, f1.GetOr(""));
        match ReplaceFirstRegex(k1, "%s", s.value)
        case None => Failure(IllegalReplacement(s.value))
        case Some(k2) =>
          if '%' !in f1.value then BiFill(t, f1.value, s1.GetOr("")); Success(k2) else Success(k2)
  }

  lemma FirstMarkerFound(t: BiType)
    ensures IndexOf(t.Pattern(), "%f").Some?
  {
    BiPatternShape(t);
    MarkerFill(t.Head(), "%f", t.Middle() + "%s" + "", "");
  }

  /** After `%f` is filled, `%s` still occurs, whatever the fragment. */
  lemma SecondMarkerFound(t: BiType, f: string)
    ensures IndexOf(t.Pattern(), "%f").Some?
    ensures IndexOf(ReplaceFirst(t.Pattern(), "%f", f), "%s").Some?
  {
    BiPatternShape(t);
    MarkerFill(t.Head(), "%f", t.Middle() + "%s" + "", f);
    var k := t.Head() + f + (t.Middle() + "%s" + "");
    assert k[|k| - 2..] == "%s";
    IndexOfWitness(k, "%s", |k| - 2);
  }

  /** Fragments without escapes, the first also without `%`, fill the
      pattern as they are. */
  lemma BiKeyOfPlainFragments(t: BiType, f: string, s: string)
    requires f != "" && s != "" && '%' !in f
    requires IsLiteralReplacement(f) && IsLiteralReplacement(s)
    ensures BiKey(t, Some(f), Some(s)) == Success(t.Head() + f + t.Middle() + s)
  {
  }

  /** The custom pattern is the marker alone: a custom code is read as a
      replacement, so a code without `\` and `$` is its own key. */
  lemma CustomKeyIsCode(code: string)
    requires code != ""
    ensures SingleKey(CUSTOM, Some(code)).Success? <==> Replacement(code, "%f").Some?
    ensures SingleKey(CUSTOM, Some(code)).Success? ==> SingleKey(CUSTOM, Some(code)).value == Replacement(code, "%f").value
    ensures IsLiteralReplacement(code) ==> SingleKey(CUSTOM, Some(code)) == Success(code)
  {
    assert !IsFullKey(CUSTOM, code);
    assert CUSTOM.Prefix() == "";
  }

  /** A code that is a group reference names the pattern's own marker, and a
      `$` before a letter makes the key function throw. */
  lemma CustomKeyEscapes()
    ensures SingleKey(CUSTOM, Some("x$0")) == Success("x%f")
    ensures SingleKey(CUSTOM, Some("a$b")) == Failure(IllegalReplacement("a$b"))
  {
    ReplacementGroupZero();
    ReplacementThrows();
    CustomKeyIsCode("x$0");
  }

  // ----- Fragments derived from game objects -----

  datatype TeamOption = COLLISION_RULE | NAME_TAG_VISIBILITY | DEATH_MESSAGE_VISIBILITY
  datatype OptionStatus = ALWAYS | NEVER | FOR_OTHER_TEAMS | FOR_OWN_TEAM

  /** The `TEAM_OPTION` first fragment: only two options are supported. */
  function TeamOptionFragment(o: TeamOption): (r: Result<string, KeyError>)
    ensures r.Success? <==> o != DEATH_MESSAGE_VISIBILITY
  {
    match o
    case COLLISION_RULE => Success("collision")
    case NAME_TAG_VISIBILITY => Success("visibility")
    case DEATH_MESSAGE_VISIBILITY => Failure(UnsupportedTeamOption)
  }

  /** The `TEAM_OPTION` second fragment: the per-team statuses are named
      after the option. */
  function TeamStatusFragment(o: TeamOption, s: OptionStatus): (r: Option<string>)
    ensures r.None? <==> o == DEATH_MESSAGE_VISIBILITY && (s == FOR_OWN_TEAM || s == FOR_OTHER_TEAMS)
  {
    match s
    case NEVER => Some("never")
    case ALWAYS => Some("always")
    case FOR_OWN_TEAM =>
      (match o
       case COLLISION_RULE => Some("pushOwnTeam")
       case NAME_TAG_VISIBILITY => Some("hideForOwnTeam")
       case DEATH_MESSAGE_VISIBILITY => None)
    case FOR_OTHER_TEAMS =>
      (match o
       case COLLISION_RULE => Some("pushOtherTeams")
       case NAME_TAG_VISIBILITY => Some("hideForOtherTeams")
       case DEATH_MESSAGE_VISIBILITY => None)
  }

  /** The `TEAM_OPTION` key: the option's fragment function runs first and
      throws for an unsupported option. */
  function TeamOptionKey(o: TeamOption, s: OptionStatus): (r: Result<string, KeyError>)
    ensures r.Success? <==> o != DEATH_MESSAGE_VISIBILITY
    ensures r.Failure? ==> r.error == UnsupportedTeamOption
    ensures r.Success? ==>
      r.value == "team." + TeamOptionFragment(o).value + "." + TeamStatusFragment(o, s).value
  {
    var f :- TeamOptionFragment(o);
    TeamFragmentsPlain(o, s);
    var st := TeamStatusFragment(o, s).value;
    BiKeyOfPlainFragments(TEAM_OPTION, f, st);
    BiKey(TEAM_OPTION, Some(f), Some(st))
  }

  /** The supported options' fragments are plain words. */
  lemma TeamFragmentsPlain(o: TeamOption, s: OptionStatus)
    requires o != DEATH_MESSAGE_VISIBILITY
    ensures TeamStatusFragment(o, s).Some?
    ensures var f := TeamOptionFragment(o).value; f != "" && '%' !in f && IsLiteralReplacement(f)
    ensures var st := TeamStatusFragment(o, s).value; st != "" && IsLiteralReplacement(st)
  {
  }

  /** Every supported option and status pair has its own key. */
  lemma TeamOptionKeysDistinct(o1: TeamOption, s1: OptionStatus, o2: TeamOption, s2: OptionStatus)
    requires o1 != DEATH_MESSAGE_VISIBILITY && o2 != DEATH_MESSAGE_VISIBILITY
    requires (o1, s1) != (o2, s2)
    ensures TeamOptionKey(o1, s1).value != TeamOptionKey(o2, s2).value
  {
    var f1 := TeamOptionFragment(o1).value;
    var f2 := TeamOptionFragment(o2).value;
    var t1 := TeamStatusFragment(o1, s1).value;
    var t2 := TeamStatusFragment(o2, s2).value;
    TeamKeyParts(f1, t1);
    TeamKeyParts(f2, t2);
    if o1 != o2 {
      assert f1[0] != f2[0];
    } else {
      assert f1 == f2;
      assert t1 != t2;
    }
  }

  lemma TeamKeyParts(f: string, t: string)
    requires f != ""
    ensures ("team." + f + "." + t)[5] == f[0]
    ensures ("team." + f + "." + t)[6 + |f|..] == t
  {
  }

  /** The collision rule for a player's own team reads `team.collision.pushOwnTeam`. */
  lemma TeamOptionKeyExamples()
    ensures TeamOptionKey(COLLISION_RULE, FOR_OWN_TEAM) == Success("team.collision.pushOwnTeam")
  {
    var f := TeamOptionFragment(COLLISION_RULE).value;
    assert f == "collision";
    var t := TeamStatusFragment(COLLISION_RULE, FOR_OWN_TEAM).value;
    assert t == "pushOwnTeam";
    assert "team." + f + "." + t == "team.collision.pushOwnTeam";
  }

  /** Inventory types with a key name of their own, and every other type by
      its enum constant name. */
  datatype InventoryType =
    | ENDER_CHEST | SHULKER_BOX | CARTOGRAPHY | ENCHANTING | GRINDSTONE | ANVIL
    | SMITHING | SMITHING_NEW | OtherInventory(name: string)

  /** The `INVENTORY_TYPE` fragment: the eight renamed types, otherwise the
      lower-cased constant name. */
  function InventoryFragment(t: InventoryType): (r: string)
    ensures t.OtherInventory? ==> r == Lower(t.name)
    ensures !t.OtherInventory? ==> r != ""
    ensures IsLower(r) || r == "shulkerBox"
  {
    match t
    case ENDER_CHEST => "enderchest"
    case SHULKER_BOX => "shulkerBox"
    case CARTOGRAPHY => "cartography_table"
    case ENCHANTING => "enchant"
    case GRINDSTONE => "grindstone_title"
    case ANVIL => "repair"
    case SMITHING | SMITHING_NEW => "upgrade"
    case OtherInventory(n) => LowerIsLower(n); Lower(n)
  }

  /** Both smithing tables read the same key; a named type gives the key
      `container.` and its fragment, as long as the name has no `\` or `$`
      (none of the eight renamed types has). */
  lemma InventoryKeys(t: InventoryType)
    requires t.OtherInventory? ==> t.name != ""
    ensures IsLiteralReplacement(InventoryFragment(t)) <==> !t.OtherInventory? || IsLiteralReplacement(t.name)
    ensures IsLiteralReplacement(InventoryFragment(t)) ==>
      SingleKey(INVENTORY_TYPE, Some(InventoryFragment(t))) == Success("container." + InventoryFragment(t))
    ensures InventoryFragment(SMITHING) == InventoryFragment(SMITHING_NEW)
  {
    InventoryPrefix();
    if t.OtherInventory? {
      LowerKeepsReplacement(t.name);
    }
  }

  lemma InventoryPrefix()
    ensures INVENTORY_TYPE.Prefix() == "container."
    ensures !INVENTORY_TYPE.IsEffectType() && INVENTORY_TYPE != ENTITY_TYPE
  {
  }

  /** A material as far as key building needs it. */
  datatype Material = Material(key: string, isBlock: bool, isItem: bool)

  /** `getMaterial`: blocks use the block pattern; anything else the item
      pattern, whose fragment function refuses a material that is no item. */
  function MaterialKey(m: Material): (r: Result<string, KeyError>)
    ensures r.Success? <==> (m.isBlock || m.isItem) && m.key != "" && Replacement(m.key, "%f").Some?
    ensures r.Success? && m.isBlock ==> r.value == "block.minecraft." + Replacement(m.key, "%f").value
    ensures r.Success? && !m.isBlock ==> r.value == "item.minecraft." + Replacement(m.key, "%f").value
    ensures !m.isBlock && !m.isItem ==> r == Failure(NotAnItem)
  {
    if m.isBlock then
      assert !IsFullKey(BLOCK, m.key) && BLOCK.Prefix() == "block.minecraft.";
      SingleKey(BLOCK, Some(m.key))
    else if !m.isItem then Failure(NotAnItem)
    else
      assert !IsFullKey(ITEM, m.key) && ITEM.Prefix() == "item.minecraft.";
      SingleKey(ITEM, Some(m.key))
  }

  /** The level-style fragment functions: enchantment levels 1 to 10, potion
      potency and merchant level 1 to 5. */
  function LevelFragment(t: SingleType, n: int): (r: Result<string, KeyError>)
    requires t == ENCHANTMENT_LEVEL || t == POTION_POTENCY || t == MERCHANT_LEVEL
    ensures r.Success? <==> 1 <= n <= (if t == ENCHANTMENT_LEVEL then 10 else 5)
    ensures r.Success? ==> r.value == IntToString(n)
    ensures r.Failure? ==> r.error == LevelOutOfRange(n)
  {
    var top := if t == ENCHANTMENT_LEVEL then 10 else 5;
    if n < 1 || n > top then Failure(LevelOutOfRange(n)) else Success(IntToString(n))
  }

  /** Looking up a generated key: the final text of the result. */
  function Lookup(env: Env, l: Option<Language>, key: string): (r: string)
    ensures IsFound(Find(env, StartLanguage(env, l), key)) ==>
      r == Find(env, StartLanguage(env, l), key).result.value
    ensures !IsFound(Find(env, StartLanguage(env, l), key)) ==> r == key
  {
    FinalResult(Find(env, StartLanguage(env, l), key), key)
  }

  /** `getTranslation(language, type, object)` for a single type, given the
      fragment the type's function produced. */
  function Translate(env: Env, l: Option<Language>, t: SingleType, f: Option<string>): (r: Result<string, KeyError>)
    ensures r.Success? <==> SingleKey(t, f).Success?
    ensures r.Success? ==> r.value == Lookup(env, l, SingleKey(t, f).value)
  {
    var key :- SingleKey(t, f);
    Success(Lookup(env, l, key))
  }

  /** `getTranslation(language, code)`: the code goes through the custom
      pattern, so the key is the code read as a replacement. */
  function CustomTranslation(env: Env, l: Option<Language>, code: string): (r: Result<string, KeyError>)
    ensures r.Failure? <==> code == "" || Replacement(code, "%f").None?
    ensures code == "" ==> r == Failure(NoFirstFragment)
    ensures r.Failure? && code != "" ==> r.error == IllegalReplacement(code)
    ensures r.Success? ==> r.value == Lookup(env, l, Replacement(code, "%f").value)
    ensures code != "" && IsLiteralReplacement(code) ==> r == Success(Lookup(env, l, code))
    ensures r.Success? && IsLiteralReplacement(code) && ContainsKey(env.catalogue, StartLanguage(env, l), code) ==>
      r.value == env.catalogue[StartLanguage(env, l)][code]
  {
    if code == "" then Failure(NoFirstFragment)
    else
      CustomKeyIsCode(code);
      Translate(env, l, CUSTOM, Some(code))
  }

  /** `getPotionPotency`: out of 1 to 5 the number itself, without a lookup. */
  function PotionPotency(env: Env, l: Option<Language>, n: int): (r: string)
    ensures (n < 1 || n > 5) ==> r == IntToString(n)
    ensures 1 <= n <= 5 ==> r == Lookup(env, l, "potion.potency." + IntToString(n))
  {
    if n < 1 || n > 5 then IntToString(n)
    else Translate(env, l, POTION_POTENCY, Some(LevelFragment(POTION_POTENCY, n).value)).value
  }

  /** `getEnchantmentLevel`: out of 1 to 10 the number itself. */
  function EnchantmentLevel(env: Env, l: Option<Language>, n: int): (r: string)
    ensures (n < 1 || n > 10) ==> r == IntToString(n)
    ensures 1 <= n <= 10 ==> r == Lookup(env, l, "enchantment.level." + IntToString(n))
  {
    if n < 1 || n > 10 then IntToString(n)
    else Translate(env, l, ENCHANTMENT_LEVEL, Some(LevelFragment(ENCHANTMENT_LEVEL, n).value)).value
  }

  /** `getMerchantLevel` has no guard: out of range it fails. */
  function MerchantLevel(env: Env, l: Option<Language>, n: int): (r: Result<string, KeyError>)
    ensures r.Failure? <==> n < 1 || n > 5
    ensures r.Success? ==> r.value == Lookup(env, l, "merchant.level." + IntToString(n))
  {
    var f :- LevelFragment(MERCHANT_LEVEL, n);
    MerchantPrefix();
    Translate(env, l, MERCHANT_LEVEL, Some(f))
  }

  lemma MerchantPrefix()
    ensures MERCHANT_LEVEL.Prefix() == "merchant.level."
    ensures !MERCHANT_LEVEL.IsEffectType() && MERCHANT_LEVEL != ENTITY_TYPE
  {
  }

  /** The guards of the potency and enchantment-level getters admit exactly
      the values their key functions accept, so the getters never fail. */
  lemma LevelGuardsMatchKeyFunctions(n: int)
    ensures (1 <= n <= 5) <==> LevelFragment(POTION_POTENCY, n).Success?
    ensures (1 <= n <= 10) <==> LevelFragment(ENCHANTMENT_LEVEL, n).Success?
  {
  }
}
