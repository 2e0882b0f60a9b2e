/** The Mega Man Battle Network 6 save (tango/src/game/bn6/save.rs): the
    masked SRAM window of a 64 KiB save file, the game recognised from its
    name field, its checksum, and the chips, NaviCust and modcard views. */
module Bn6Save {
  import opened Bytes
  import opened Saves

  const SRAM_START_OFFSET: nat := 0x0100
  const SRAM_SIZE: nat := 0x6710
  const MASK_OFFSET: nat := 0x1064
  const GAME_NAME_OFFSET: nat := 0x1c70
  const CHECKSUM_OFFSET: nat := 0x1c6c
  /** Length of the file `to_vec` writes. */
  const FILE_SIZE: nat := 0x1_0000

  datatype Region = US | JP

  datatype Variant = Gregar | Falzar

  datatype GameInfo = GameInfo(region: Region, variant: Variant)

  /** `Save { buf: [u8; SRAM_SIZE], game_info }`. */
  type Sram = s: seq<byte> | |s| == 0x6710 witness Zeros(0x6710)

  datatype Save = Save(buf: Sram, gameInfo: GameInfo)

  datatype Error =
    | WrongSize
    | UnknownGameName(name: seq<byte>)
    | ChecksumMismatch(expected: u32, computed: nat)

  // ---------------------------------------------------------------------
  // Recognising the game

  /** The 20-byte name each game writes at `GAME_NAME_OFFSET`. */
  function GameName(info: GameInfo): (r: seq<byte>)
    ensures |r| == 20
    ensures r[..6] == Ascii("REXE6 ") && r[18..] == Ascii(if info.region == JP then "JP" else "US")
  {
    match info
    case GameInfo(JP, Gregar) => Ascii("REXE6 G 20050924a JP")
    case GameInfo(JP, Falzar) => Ascii("REXE6 F 20050924a JP")
    case GameInfo(US, Gregar) => Ascii("REXE6 G 20060110a US")
    case GameInfo(US, Falzar) => Ascii("REXE6 F 20060110a US")
  }

  /** The `match` on the name field in `Save::new`: a name is recognised
      exactly when it is one of the four games' names, and then it names
      that game. */
  function GameInfoOfName(name: seq<byte>): (r: Option<GameInfo>)
    ensures forall info :: r == Some(info) <==> name == GameName(info)
  {
    var jg := GameName(GameInfo(JP, Gregar));
    var jf := GameName(GameInfo(JP, Falzar));
    var ug := GameName(GameInfo(US, Gregar));
    var uf := GameName(GameInfo(US, Falzar));
    assert jg[6] != jf[6] && ug[6] != uf[6] && jg[6] != uf[6] && jf[6] != ug[6];
    assert jg[18] != ug[18] && jf[18] != uf[18];
    if name == jg then Some(GameInfo(JP, Gregar))
    else if name == jf then Some(GameInfo(JP, Falzar))
    else if name == ug then Some(GameInfo(US, Gregar))
    else if name == uf then Some(GameInfo(US, Falzar))
    else None
  }

  // ---------------------------------------------------------------------
  // Checksum

  /** `Save::checksum`: the stored little-endian word at `CHECKSUM_OFFSET`;
      writing it back little-endian reproduces the four stored bytes. */
  function Checksum(s: Save): (r: u32)
    ensures LeBytes32(r) == s.buf[CHECKSUM_OFFSET..CHECKSUM_OFFSET + 4]
  {
    LeBytes32OfLeU32(s.buf, CHECKSUM_OFFSET);
    LeU32(s.buf, CHECKSUM_OFFSET)
  }

  function VariantChecksumBase(v: Variant): (r: nat)
  {
    match v
    case Gregar => 0x72
    case Falzar => 0x18
  }

  /** `Save::compute_checksum`: the sum of every byte outside the checksum
      word plus 0x72 for Gregar or 0x18 for Falzar; the u32 addition of the
      source never overflows. */
  function ComputeChecksum(s: Save): (r: nat)
    ensures r == Sum(s.buf[..CHECKSUM_OFFSET]) + Sum(s.buf[CHECKSUM_OFFSET + 4..])
                 + (if s.gameInfo.variant == Gregar then 0x72 else 0x18)
    ensures r < 0x1_0000_0000
  {
    ComputeSaveRawChecksum(s.buf, CHECKSUM_OFFSET) + VariantChecksumBase(s.gameInfo.variant)
  }

  /** A save whose name field names its game and whose stored checksum is the
      computed one: exactly what `Save::new` accepts once unmasked. */
  predicate Consistent(s: Save)
  {
    s.buf[GAME_NAME_OFFSET..GAME_NAME_OFFSET + 20] == GameName(s.gameInfo)
    && Checksum(s) == ComputeChecksum(s)
  }

  /** Writing the computed checksum into the checksum word makes the stored
      and computed checksums agree, and changes no other byte. */
  function Resealed(s: Save): (r: Save)
    ensures Checksum(r) == ComputeChecksum(r)
    ensures r.gameInfo == s.gameInfo
    ensures forall i :: 0 <= i < SRAM_SIZE && !(CHECKSUM_OFFSET <= i < CHECKSUM_OFFSET + 4) ==> r.buf[i] == s.buf[i]
  {
    var c := ComputeChecksum(s);
    var buf := s.buf[..CHECKSUM_OFFSET] + LeBytes32(c) + s.buf[CHECKSUM_OFFSET + 4..];
    var r := Save(buf, s.gameInfo);
    assert buf[CHECKSUM_OFFSET..CHECKSUM_OFFSET + 4] == LeBytes32(c);
    assert buf[..CHECKSUM_OFFSET] == s.buf[..CHECKSUM_OFFSET];
    assert buf[CHECKSUM_OFFSET + 4..] == s.buf[CHECKSUM_OFFSET + 4..];
    r
  }

  // ---------------------------------------------------------------------
  // Save::new

  /** What `Save::new(b)` returns. */
  function Parse(b: seq<byte>): (r: Result<Save, Error>)
    ensures r == Err(WrongSize) <==> |b| < SRAM_START_OFFSET + SRAM_SIZE
    ensures r.Ok? ==>
              |b| >= SRAM_START_OFFSET + SRAM_SIZE
              && r.value.buf == Masked(b[SRAM_START_OFFSET..SRAM_START_OFFSET + SRAM_SIZE], MASK_OFFSET)
              && Consistent(r.value)
    ensures r.Err? && r.error.UnknownGameName? ==>
              forall info :: r.error.name != GameName(info)
    ensures |b| >= SRAM_START_OFFSET + SRAM_SIZE ==>
              var w := Masked(b[SRAM_START_OFFSET..SRAM_START_OFFSET + SRAM_SIZE], MASK_OFFSET);
              (forall info :: Consistent(Save(w, info)) ==> r == Ok(Save(w, info)))
              && ((forall info :: w[GAME_NAME_OFFSET..GAME_NAME_OFFSET + 20] != GameName(info)) ==>
                    r == Err(UnknownGameName(w[GAME_NAME_OFFSET..GAME_NAME_OFFSET + 20])))
  {
    if |b| < SRAM_START_OFFSET + SRAM_SIZE then Err(WrongSize)
    else
      var buf: Sram := Masked(b[SRAM_START_OFFSET..SRAM_START_OFFSET + SRAM_SIZE], MASK_OFFSET);
      match GameInfoOfName(buf[GAME_NAME_OFFSET..GAME_NAME_OFFSET + 20])
      case None => Err(UnknownGameName(buf[GAME_NAME_OFFSET..GAME_NAME_OFFSET + 20]))
      case Some(info) =>
        var s := Save(buf, info);
        if Checksum(s) != ComputeChecksum(s) then Err(ChecksumMismatch(Checksum(s), ComputeChecksum(s)))
        else Ok(s)
  }

  /** `Save::new`: copies the SRAM window out of the file, unmasks it in
      place, recognises the game and checks the checksum. */
  method New(b: seq<byte>) returns (r: Result<Save, Error>)
    ensures r == Parse(b)
  {
    if |b| < SRAM_START_OFFSET + SRAM_SIZE {
      return Err(WrongSize);
    }
    var buf := Unmasked(b[SRAM_START_OFFSET..SRAM_START_OFFSET + SRAM_SIZE]);
    var info := GameInfoOfName(buf[GAME_NAME_OFFSET..GAME_NAME_OFFSET + 20]);
    if info.None? {
      return Err(UnknownGameName(buf[GAME_NAME_OFFSET..GAME_NAME_OFFSET + 20]));
    }
    var s := Save(buf, info.value);
    var computed := ComputeChecksum(s);
    if Checksum(s) != computed {
      return Err(ChecksumMismatch(Checksum(s), computed));
    }
    return Ok(s);
  }

  /** The SRAM window copied into a fresh buffer and unmasked in place. */
  method Unmasked(window: seq<byte>) returns (buf: Sram)
    requires |window| == SRAM_SIZE
    ensures buf == Masked(window, MASK_OFFSET)
  {
    var a := new byte[SRAM_SIZE](i requires 0 <= i < SRAM_SIZE => window[i]);
    assert a[..] == window;
    MaskSave(a, 0, SRAM_SIZE, MASK_OFFSET);
    assert a[..0] == [] && a[SRAM_SIZE..] == [];
    buf := a[..];
  }

  /** `Save::from_wram`: the first `SRAM_SIZE` bytes of WRAM, verbatim, with
      the game given by the caller; no unmasking and no checks. */
  function FromWram(buf: seq<byte>, info: GameInfo): (r: Result<Save, Error>)
    ensures r.Err? <==> |buf| < SRAM_SIZE
    ensures r.Err? ==> r.error == WrongSize
    ensures r.Ok? ==> AsRawWram(r.value) == buf[..SRAM_SIZE] && r.value.gameInfo == info
  {
    if |buf| < SRAM_SIZE then Err(WrongSize) else Ok(Save(buf[..SRAM_SIZE], info))
  }

  /** `Save::as_raw_wram`. */
  function AsRawWram(s: Save): (r: seq<byte>)
    ensures |r| == SRAM_SIZE
  {
    s.buf
  }

  /** Reloading a save from its own WRAM image gives the same save. */
  lemma FromWramOfAsRawWram(s: Save)
    ensures FromWram(AsRawWram(s), s.gameInfo) == Ok(s)
  {
    assert s.buf[..SRAM_SIZE] == s.buf;
  }

  // ---------------------------------------------------------------------
  // to_vec

  /** The file `to_vec` writes: zeros, the masked SRAM window at
      `SRAM_START_OFFSET`, zeros up to 64 KiB. */
  function Serialized(s: Save): (r: seq<byte>)
    ensures |r| == FILE_SIZE
  {
    Zeros(SRAM_START_OFFSET) + Masked(s.buf, MASK_OFFSET) + Zeros(FILE_SIZE - SRAM_START_OFFSET - SRAM_SIZE)
  }

  /** `Save::to_vec`: a zeroed 64 KiB buffer, the SRAM copied in and masked in
      place. */
  method ToVec(s: Save) returns (r: seq<byte>)
    ensures r == Serialized(s)
  {
    var a := new byte[FILE_SIZE](_ => 0);
    forall i | 0 <= i < SRAM_SIZE {
      a[SRAM_START_OFFSET + i] := s.buf[i];
    }
    assert a[SRAM_START_OFFSET..SRAM_START_OFFSET + SRAM_SIZE] == s.buf;
    assert a[..SRAM_START_OFFSET] == Zeros(SRAM_START_OFFSET);
    assert a[SRAM_START_OFFSET + SRAM_SIZE..] == Zeros(FILE_SIZE - SRAM_START_OFFSET - SRAM_SIZE);
    MaskSave(a, SRAM_START_OFFSET, SRAM_START_OFFSET + SRAM_SIZE, MASK_OFFSET);
    r := a[..];
  }

  /** Writing a loaded save back reproduces the file's SRAM window exactly
      and zeroes everything around it. */
  lemma {:induction false} ToVecOfNew(b: seq<byte>)
    requires Parse(b).Ok?
    ensures |Serialized(Parse(b).value)| == FILE_SIZE
    ensures Serialized(Parse(b).value)[SRAM_START_OFFSET..SRAM_START_OFFSET + SRAM_SIZE]
            == b[SRAM_START_OFFSET..SRAM_START_OFFSET + SRAM_SIZE]
    ensures forall i :: 0 <= i < SRAM_START_OFFSET || SRAM_START_OFFSET + SRAM_SIZE <= i < FILE_SIZE ==>
              Serialized(Parse(b).value)[i] == 0
  {
    var s := Parse(b).value;
    MaskedInvolutive(b[SRAM_START_OFFSET..SRAM_START_OFFSET + SRAM_SIZE], MASK_OFFSET);
    var r := Serialized(s);
    assert r[SRAM_START_OFFSET..SRAM_START_OFFSET + SRAM_SIZE] == Masked(s.buf, MASK_OFFSET);
  }

  /** A save survives being written out and read back in exactly when it is
      consistent (its name field names its game and its checksum matches). */
  lemma {:induction false} NewOfToVec(s: Save)
    ensures Parse(Serialized(s)) == Ok(s) <==> Consistent(s)
  {
    var r := Serialized(s);
    assert r[SRAM_START_OFFSET..SRAM_START_OFFSET + SRAM_SIZE] == Masked(s.buf, MASK_OFFSET);
    MaskedInvolutive(s.buf, MASK_OFFSET);
    if Consistent(s) {
      assert GameInfoOfName(s.buf[GAME_NAME_OFFSET..GAME_NAME_OFFSET + 20]) == Some(s.gameInfo);
    }
  }

  /** Resealing a save whose name field names its game gives a save that
      survives being written out and read back in. */
  lemma {:induction false} ResealedRoundTrips(s: Save)
    requires s.buf[GAME_NAME_OFFSET..GAME_NAME_OFFSET + 20] == GameName(s.gameInfo)
    ensures Parse(Serialized(Resealed(s))) == Ok(Resealed(s))
  {
    var r := Resealed(s);
    assert r.buf[GAME_NAME_OFFSET..GAME_NAME_OFFSET + 20] == s.buf[GAME_NAME_OFFSET..GAME_NAME_OFFSET + 20];
    assert Consistent(r);
    NewOfToVec(r);
  }

  // ---------------------------------------------------------------------
  // Views

  /** The views a BN6 save offers: chips and NaviCust always, modcards only
      for the Japanese release, and the trait defaults otherwise (its navi
      view is not offered). */
  function ViewsOf(s: Save): (r: Views)
    ensures r.chips && r.navicust
    ensures r.modcards <==> s.gameInfo.region == JP
    ensures r.darkAi == DefaultViews().darkAi && r.navi == DefaultViews().navi
  {
    DefaultViews().(chips := true, navicust := true, modcards := s.gameInfo.region == JP)
  }

  /** `NaviView::navi`: the id of the current navi, kept at 0x1b81. */
  function Navi(s: Save): (r: byte)
    ensures r == s.buf[0x1b81]
  {
    s.buf[0x1b81]
  }

  /** `Save::navi_stats_offset`: the JP or US base, one 0x64-byte record
      further on for any navi other than MegaMan (id 0). */
  function NaviStatsOffset(s: Save, id: nat): (r: nat)
    ensures r + 0x100 <= SRAM_SIZE
  {
    (if s.gameInfo.region == JP then 0x478c else 0x47cc) + 0x64 * (if id == 0 then 0 else 1)
  }

  /** Offset of the current navi's stats: MegaMan's record when the navi
      byte is 0, the record after it for any other navi. */
  function CurrentNaviStats(s: Save): (r: nat)
    ensures r + 0x100 <= SRAM_SIZE
    ensures r == (if s.gameInfo.region == JP then 0x478c else 0x47cc) <==> s.buf[0x1b81] == 0
    ensures r == (if s.gameInfo.region == JP then 0x478c else 0x47cc) + 0x64 <==> s.buf[0x1b81] != 0
  {
    NaviStatsOffset(s, Navi(s))
  }

  /** `ChipsView::num_folders`: the folder count kept at 0x1c09. */
  function NumFolders(s: Save): (r: byte)
    ensures r == s.buf[0x1c09]
  {
    s.buf[0x1c09]
  }

  /** `ChipsView::equipped_folder_index`: byte 0x2d of the current navi's
      stats. */
  function EquippedFolderIndex(s: Save): (r: byte)
    ensures s.buf[0x1b81] == 0 ==> r == s.buf[(if s.gameInfo.region == JP then 0x478c else 0x47cc) + 0x2d]
    ensures s.buf[0x1b81] != 0 ==> r == s.buf[(if s.gameInfo.region == JP then 0x478c else 0x47cc) + 0x64 + 0x2d]
  {
    s.buf[CurrentNaviStats(s) + 0x2d]
  }

  /** The constant answers of the BN6 chips view. */
  function ChipsShapeOf(s: Save): (r: ChipsShape)
    ensures r.numFolders == NumFolders(s) && r.equippedFolder == EquippedFolderIndex(s)
    ensures r.regularChipInPlace && r.chipsHaveMb
  {
    ChipsShapeWithDefaults(NumFolders(s), EquippedFolderIndex(s), true)
  }

  /** `ChipsView::regular_chip_index`: the stored index, unless it is not a
      folder position (30 or more). */
  function RegularChipIndex(s: Save, folderIndex: nat): (r: Option<nat>)
    requires CurrentNaviStats(s) + 0x2e + folderIndex < SRAM_SIZE
    ensures r.None? <==> s.buf[CurrentNaviStats(s) + 0x2e + folderIndex] >= 30
    ensures r.Some? ==> r.value < 30 && r.value == s.buf[CurrentNaviStats(s) + 0x2e + folderIndex]
  {
    var idx := s.buf[CurrentNaviStats(s) + 0x2e + folderIndex];
    if idx >= 30 then None else Some(idx)
  }

  /** `ChipsView::tag_chip_indexes`: the two stored indexes, unless either is
      the empty marker 0xff. */
  function TagChipIndexes(s: Save, folderIndex: nat): (r: Option<(nat, nat)>)
    requires CurrentNaviStats(s) + 0x56 + folderIndex * 2 + 1 < SRAM_SIZE
    ensures r.None? <==>
              s.buf[CurrentNaviStats(s) + 0x56 + folderIndex * 2] == 0xff
              || s.buf[CurrentNaviStats(s) + 0x56 + folderIndex * 2 + 1] == 0xff
    ensures r.Some? ==>
              r.value == (s.buf[CurrentNaviStats(s) + 0x56 + folderIndex * 2] as nat,
                          s.buf[CurrentNaviStats(s) + 0x56 + folderIndex * 2 + 1] as nat)
              && r.value.0 < 0xff && r.value.1 < 0xff
  {
    var o := CurrentNaviStats(s) + 0x56 + folderIndex * 2;
    var idx1 := s.buf[o];
    var idx2 := s.buf[o + 1];
    if idx1 == 0xff || idx2 == 0xff then None else Some((idx1 as nat, idx2 as nat))
  }

  /** The chip codes, indexed by the top seven bits of a folder entry. */
  const CHIP_CODES: string := "ABCDEFGHIJKLMNOPQRSTUVWXYZ*"

  /** The code table is the letters A to Z in order, then `*`. */
  lemma ChipCodesLayout()
    ensures |CHIP_CODES| == 27 && CHIP_CODES[26] == '*'
    ensures forall i :: 0 <= i < 26 ==> CHIP_CODES[i] as int == 'A' as int + i
  {
  }

  /** Position of a code in `CHIP_CODES`. */
  function CodeIndex(c: char): (r: nat)
    requires c in CHIP_CODES
    ensures r < |CHIP_CODES| && CHIP_CODES[r] == c
  {
    ChipCodesLayout();
    if c == '*' then 26 else (c as int - 'A' as int) as nat
  }

  /** A folder entry: chip id in the low nine bits, code index above. */
  function ChipOfRaw(raw: u16): (r: Chip)
    requires raw / 0x200 < |CHIP_CODES|
    ensures r.id < 0x200 && r.code in CHIP_CODES
  {
    Chip(raw % 0x200, CHIP_CODES[raw / 0x200])
  }

  /** The folder entry a chip is stored as. */
  function RawOfChip(c: Chip): (raw: u16)
    requires c.id < 0x200 && c.code in CHIP_CODES
    ensures raw / 0x200 < |CHIP_CODES|
  {
    c.id + 0x200 * CodeIndex(c.code)
  }

  /** An entry decodes to a chip that encodes back to the entry. */
  lemma RawChipRoundTrip(raw: u16)
    requires raw / 0x200 < |CHIP_CODES|
    ensures RawOfChip(ChipOfRaw(raw)) == raw
  {
    var k := raw / 0x200;
    var code := CHIP_CODES[k];
    assert CodeIndex(code) == k by {
      ChipCodesLayout();
    }
    DivMod512(raw);
  }

  /** A chip encodes to an entry that decodes back to the chip. */
  lemma ChipChipRoundTrip(c: Chip)
    requires c.id < 0x200 && c.code in CHIP_CODES
    ensures ChipOfRaw(RawOfChip(c)) == c
  {
    var k := CodeIndex(c.code);
    var raw := RawOfChip(c);
    assert raw == c.id + 0x200 * k;
    Compose512(c.id, k);
    assert raw / 0x200 == k && raw % 0x200 == c.id;
    assert CHIP_CODES[k] == c.code;
  }

  lemma DivMod512(x: nat)
    ensures x % 0x200 + 0x200 * (x / 0x200) == x
  {
  }

  lemma Compose512(lo: nat, hi: nat)
    requires lo < 0x200
    ensures (lo + 0x200 * hi) / 0x200 == hi && (lo + 0x200 * hi) % 0x200 == lo
  {
  }

  /** Offset of a folder entry. */
  function ChipOffset(folderIndex: nat, chipIndex: nat): (r: nat)
  {
    0x2178 + folderIndex * (30 * 2) + chipIndex * 2
  }

  /** `ChipsView::chip`: no chip outside the save's folders or past the 30th
      position; otherwise the folder entry at `0x2178 + folder * 60 + chip * 2`,
      decoded. The source indexes the code table with the entry's top bits,
      so it is only defined when they name a code. */
  function FolderChip(s: Save, folderIndex: nat, chipIndex: nat): (r: Option<Chip>)
    requires folderIndex < NumFolders(s) && chipIndex < 30 ==>
               LeU16(s.buf, ChipOffset(folderIndex, chipIndex)) / 0x200 < |CHIP_CODES|
    ensures r.None? <==> folderIndex >= NumFolders(s) || chipIndex >= 30
    ensures r.Some? ==>
              ChipOffset(folderIndex, chipIndex) + 2 <= SRAM_SIZE
              && r.value.id < 0x200 && r.value.code in CHIP_CODES
              && RawOfChip(r.value) == LeU16(s.buf, ChipOffset(folderIndex, chipIndex))
  {
    if folderIndex >= NumFolders(s) || chipIndex >= 30 then None
    else
      var raw := LeU16(s.buf, ChipOffset(folderIndex, chipIndex));
      RawChipRoundTrip(raw);
      Some(ChipOfRaw(raw))
  }

  /** `Modcard56sView::count`: the modcard count kept at 0x65f0. */
  function ModcardCount(s: Save): (r: byte)
    ensures r == s.buf[0x65f0]
  {
    s.buf[0x65f0]
  }

  /** A modcard slot byte: the id in the low seven bits, the top bit set
      when the card is disabled. */
  function ModcardOfRaw(raw: byte): (r: Modcard)
    ensures r.id < 0x80
  {
    Modcard(raw % 0x80, raw / 0x80 == 0)
  }

  function RawOfModcard(m: Modcard): (raw: byte)
    requires m.id < 0x80
  {
    m.id + (if m.enabled then 0 else 0x80)
  }

  /** Slot bytes and modcards correspond one to one. */
  lemma ModcardRawRoundTrip(raw: byte, m: Modcard)
    requires m.id < 0x80
    ensures RawOfModcard(ModcardOfRaw(raw)) == raw
    ensures ModcardOfRaw(RawOfModcard(m)) == m
  {
  }

  /** `Modcard56sView::modcard`: no card at or past `count`, otherwise the
      slot byte at `0x6620 + slot`, decoded. The source indexes the buffer
      directly, so a count above 240 would make it read past the SRAM. */
  function SlotModcard(s: Save, slot: nat): (r: Option<Modcard>)
    requires slot < ModcardCount(s) ==> 0x6620 + slot < SRAM_SIZE
    ensures r.None? <==> slot >= ModcardCount(s)
    ensures r.Some? ==> r.value.id < 0x80 && RawOfModcard(r.value) == s.buf[0x6620 + slot]
  {
    if slot >= ModcardCount(s) then None
    else
      ModcardRawRoundTrip(s.buf[0x6620 + slot], ModcardOfRaw(s.buf[0x6620 + slot]));
      Some(ModcardOfRaw(s.buf[0x6620 + slot]))
  }

  /** The constant answers of the BN6 NaviCust view. */
  function NavicustShapeOf(): (r: NavicustShape)
    ensures r.width == 7 && r.height == 7 && r.commandLine == 3 && r.hasOutOfBounds
    ensures r.count == 25 && r.style == None
  {
    NavicustShapeWithDefaults(7, 7, 3, true)
  }

  /** Where the 8-byte NaviCust records start. */
  function NavicustOffset(s: Save): (r: nat)
  {
    if s.gameInfo.region == JP then 0x4150 else 0x4190
  }

  /** `NavicustView::navicust_part`: no part past the 25th record or in a
      record whose first byte is 0; otherwise part id and variant packed in
      the first byte (`id * 4 + variant`), position and rotation in bytes 3
      to 5, and byte 6 as the compression flag. */
  function NavicustPartAt(s: Save, i: nat): (r: Option<NavicustPart>)
    ensures i < 25 ==> NavicustOffset(s) + (i + 1) * 8 <= SRAM_SIZE
    ensures r.None? <==> i >= 25 || s.buf[NavicustOffset(s) + i * 8] == 0
    ensures r.Some? ==>
              var rec := s.buf[NavicustOffset(s) + i * 8..NavicustOffset(s) + (i + 1) * 8];
              r.value.id * 4 + r.value.variant == rec[0] && r.value.variant < 4
              && r.value.col == rec[3] && r.value.row == rec[4] && r.value.rot == rec[5]
              && (r.value.compressed <==> rec[6] != 0)
  {
    if i >= 25 then None
    else
      var rec := s.buf[NavicustOffset(s) + i * 8..NavicustOffset(s) + (i + 1) * 8];
      var raw := rec[0];
      if raw == 0 then None
      else Some(NavicustPart(raw / 4, raw % 4, rec[3], rec[4], rec[5], rec[6] != 0))
  }
}
