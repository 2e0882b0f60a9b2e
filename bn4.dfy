/** The four Mega Man Battle Network 4 games (tango/src/game/bn4.rs): their
    identities, which saves each accepts, how a WRAM snapshot is tagged, and
    which charset and modcard table their ROM assets are read with. */
module Bn4 {
  import opened Bytes

  datatype Game = EXE4RS | EXE4BM | BN4RS | BN4BM

  /** The region and variant the BN4 save module reads out of a save; a save
      can also be region-free. */
  datatype Region = US | JP | Any

  datatype Variant = RedSun | BlueMoon

  datatype GameInfo = GameInfo(region: Region, variant: Variant)

  // ---------------------------------------------------------------------
  // Identities

  /** `rom_code_and_revision`. */
  function RomCodeAndRevision(g: Game): (r: (string, byte))
    ensures |r.0| == 4 && r.0[..2] == "B4"
  {
    match g
    case EXE4RS => ("B4WJ", 0x01)
    case EXE4BM => ("B4BJ", 0x00)
    case BN4RS => ("B4WE", 0x00)
    case BN4BM => ("B4BE", 0x00)
  }

  /** `family_and_variant`. */
  function FamilyAndVariant(g: Game): (r: (string, nat))
    ensures r.1 < 2
  {
    match g
    case EXE4RS => ("exe4", 0)
    case EXE4BM => ("exe4", 1)
    case BN4RS => ("bn4", 0)
    case BN4BM => ("bn4", 1)
  }

  /** `language`: Japanese for the EXE4 releases, US English for BN4. */
  function Language(g: Game): (r: string)
    ensures r == "ja-JP" <==> RegionOf(g) == JP
    ensures r == "en-US" <==> RegionOf(g) == US
  {
    match g
    case EXE4RS => "ja-JP"
    case EXE4BM => "ja-JP"
    case BN4RS => "en-US"
    case BN4BM => "en-US"
  }

  /** `expected_crc32`: each ROM's checksum; the two JP ROMs have the first
      two of the four values. */
  function ExpectedCrc32(g: Game): (r: u32)
    ensures r in {0xcf0e8b05, 0xed7c5b50, 0x2120695c, 0x758a46e9}
    ensures r in {0xcf0e8b05, 0xed7c5b50} <==> RegionOf(g) == JP
  {
    match g
    case EXE4RS => 0xcf0e8b05
    case EXE4BM => 0xed7c5b50
    case BN4RS => 0x2120695c
    case BN4BM => 0x758a46e9
  }

  const MATCH_TYPES: seq<nat> := [2, 2]

  /** `match_types`: every BN4 game offers two match types with two
      settings each. */
  function MatchTypes(g: Game): (r: seq<nat>)
    ensures r == [2, 2]
  {
    MATCH_TYPES
  }

  /** The variant each game is. */
  function VariantOf(g: Game): (v: Variant)
  {
    if g == EXE4RS || g == BN4RS then RedSun else BlueMoon
  }

  /** The region each game is sold in. */
  function RegionOf(g: Game): (r: Region)
    ensures r != Any
  {
    if g == EXE4RS || g == EXE4BM then JP else US
  }

  /** The four games are told apart by ROM code, by family and variant, and
      by checksum; the family decides the language, and the variant number
      the variant. */
  lemma GamesDistinct(g: Game, h: Game)
    ensures g != h ==>
              RomCodeAndRevision(g).0 != RomCodeAndRevision(h).0
              && FamilyAndVariant(g) != FamilyAndVariant(h)
              && ExpectedCrc32(g) != ExpectedCrc32(h)
    ensures FamilyAndVariant(g).0 == "exe4" <==> Language(g) == "ja-JP"
    ensures FamilyAndVariant(g).1 == 0 <==> VariantOf(g) == RedSun
    ensures FamilyAndVariant(g).0 == "exe4" <==> RegionOf(g) == JP
  {
    assert "exe4"[0] != "bn4"[0];
    assert "ja-JP"[0] != "en-US"[0];
    assert RomCodeAndRevision(EXE4RS).0[2] != RomCodeAndRevision(EXE4BM).0[2];
    assert RomCodeAndRevision(EXE4RS).0[3] != RomCodeAndRevision(BN4RS).0[3];
    assert RomCodeAndRevision(EXE4BM).0[3] != RomCodeAndRevision(BN4BM).0[3];
    assert RomCodeAndRevision(BN4RS).0[2] != RomCodeAndRevision(BN4BM).0[2];
    assert RomCodeAndRevision(EXE4RS).0[2] != RomCodeAndRevision(BN4BM).0[2];
    assert RomCodeAndRevision(EXE4BM).0[2] != RomCodeAndRevision(BN4RS).0[2];
  }

  // ---------------------------------------------------------------------
  // parse_save and save_from_wram

  datatype Error =
    | Load(message: string)
    | NotCompatible(info: GameInfo)

  /** `parse_save`: `loaded` is what the BN4 save module made of the bytes
      (the save and the game info it read), passed in because that module is
      not part of this model. A load error is passed through; otherwise each
      game keeps the save only if it has the game's variant and its region
      or no region. */
  function ParseSave<S>(g: Game, loaded: Result<(S, GameInfo), string>): (r: Result<S, Error>)
    ensures loaded.Err? ==> r == Err(Load(loaded.error))
    ensures loaded.Ok? ==> (r == Ok(loaded.value.0) || r == Err(NotCompatible(loaded.value.1)))
  {
    match loaded
    case Err(e) => Err(Load(e))
    case Ok((save, info)) =>
      var compatible :=
        match g
        case EXE4RS => !(info.variant != RedSun || (info.region != JP && info.region != Any))
        case EXE4BM => !(info.variant != BlueMoon || (info.region != JP && info.region != Any))
        case BN4RS => !(info.variant != RedSun || (info.region != US && info.region != Any))
        case BN4BM => !(info.variant != BlueMoon || (info.region != US && info.region != Any));
      if compatible then Ok(save) else Err(NotCompatible(info))
  }

  /** Whether game `g` keeps a loaded save with this game info. */
  predicate Accepts(g: Game, info: GameInfo)
  {
    ParseSave(g, Ok((0, info))).Ok?
  }

  /** The acceptance rule, uniformly: the variant must be the game's and the
      region the game's own or none. */
  lemma {:induction false} AcceptsCharacterised<S>(g: Game, save: S, info: GameInfo)
    ensures ParseSave(g, Ok((save, info))).Ok? <==>
              info.variant == VariantOf(g) && (info.region == RegionOf(g) || info.region == Any)
    ensures Accepts(g, info) <==> ParseSave(g, Ok((save, info))).Ok?
  {
  }

  /** A Red Sun save is never kept by a Blue Moon game, nor the reverse. */
  lemma {:induction false} VariantsExclusive(g: Game, info: GameInfo)
    requires Accepts(g, info)
    ensures info.variant == VariantOf(g)
  {
    AcceptsCharacterised(g, 0, info);
  }

  /** A region-free save is kept by both the Japanese and the US game of its
      variant, and a save with a region by exactly one game. */
  lemma {:induction false} AcceptingGames(info: GameInfo)
    ensures info.region == Any ==>
              (set g | Accepts(g, info)) == set g | VariantOf(g) == info.variant
    ensures info.region != Any ==>
              (set g | Accepts(g, info)) == {if info.variant == RedSun then (if info.region == JP then EXE4RS else BN4RS)
                                                   else (if info.region == JP then EXE4BM else BN4BM)}
  {
    AcceptsCharacterised(EXE4RS, 0, info);
    AcceptsCharacterised(EXE4BM, 0, info);
    AcceptsCharacterised(BN4RS, 0, info);
    AcceptsCharacterised(BN4BM, 0, info);
  }

  /** `save_from_wram`: the game info a WRAM snapshot is tagged with, the
      game's own region and variant. */
  function WramTag(g: Game): (r: GameInfo)
    ensures r.region == RegionOf(g) && r.variant == VariantOf(g)
  {
    match g
    case EXE4RS => GameInfo(JP, RedSun)
    case EXE4BM => GameInfo(JP, BlueMoon)
    case BN4RS => GameInfo(US, RedSun)
    case BN4BM => GameInfo(US, BlueMoon)
  }

  /** A snapshot tagged by one game is kept by that game and by no other. */
  lemma {:induction false} WramTagOwnGameOnly(g: Game, h: Game)
    ensures Accepts(h, WramTag(g)) <==> h == g
  {
    AcceptsCharacterised(h, 0, WramTag(g));
  }

  // ---------------------------------------------------------------------
  // load_rom_assets

  datatype Charset = JaCharset | EnCharset | OverrideCharset(chars: seq<string>)

  datatype ModcardTable = JaModcards | EnModcards | LanguageModcards(language: string)

  datatype Overrides = Overrides(language: Option<string>, charset: Option<seq<string>>)

  /** What `load_rom_assets` hands to the ROM reader besides the ROM itself:
      the offsets of the game's own ROM, the modcard table and the charset.
      `hasModcards` says for which languages the modcard module has a table
      (that module is not part of this model). */
  datatype AssetsSetup = AssetsSetup(offsets: Game, modcards: ModcardTable, charset: Charset)

  function LoadRomAssets(g: Game, overrides: Overrides, hasModcards: string -> bool): (r: AssetsSetup)
    ensures r.offsets == g
    ensures overrides.charset.Some? ==> r.charset == OverrideCharset(overrides.charset.value)
    ensures overrides.charset.None? ==> (r.charset == JaCharset <==> Language(g) == "ja-JP")
    ensures overrides.charset.None? ==> (r.charset == EnCharset <==> Language(g) == "en-US")
    ensures overrides.language.Some? && hasModcards(overrides.language.value) ==>
              r.modcards == LanguageModcards(overrides.language.value)
    ensures !(overrides.language.Some? && hasModcards(overrides.language.value)) ==>
              (r.modcards == JaModcards <==> Language(g) == "ja-JP")
              && (r.modcards == EnModcards <==> Language(g) == "en-US")
  {
    var japanese := FamilyAndVariant(g).0 == "exe4";
    GamesDistinct(g, g);
    assert "ja-JP" != "en-US" by { assert "ja-JP"[0] != "en-US"[0]; }
    var modcards :=
      if overrides.language.Some? && hasModcards(overrides.language.value)
      then LanguageModcards(overrides.language.value)
      else if japanese then JaModcards else EnModcards;
    var charset :=
      if overrides.charset.Some? then OverrideCharset(overrides.charset.value)
      else if japanese then JaCharset else EnCharset;
    AssetsSetup(g, modcards, charset)
  }
}
