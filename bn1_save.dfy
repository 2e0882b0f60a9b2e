/** The Mega Man Battle Network 1 save (tango/src/game/bn1/save.rs): an
    unmasked SRAM image, the release recognised from its name field, its
    checksum, and a chips view with a single folder. */
module Bn1Save {
  import opened Bytes
  import Saves

  const SRAM_SIZE: nat := 0x2308
  const GAME_NAME_OFFSET: nat := 0x03fc
  const CHECKSUM_OFFSET: nat := 0x03f0
  /** Where the folder's 30 two-byte entries start. */
  const FOLDER_OFFSET: nat := 0x01c0
  const FOLDER_LENGTH: nat := 30

  datatype Region = US | JP

  datatype GameInfo = GameInfo(region: Region)

  type Sram = s: seq<byte> | |s| == 0x2308 witness Zeros(0x2308)

  /** `Save { buf }`: the game is not stored but read back from the name
      field whenever it is asked for. */
  datatype Save = Save(buf: Sram)

  datatype Error =
    | WrongSize
    | UnknownGameName(name: seq<byte>)
    | ChecksumMismatch(expected: u32, computed: nat)

  /** The 20-byte name each release writes at `GAME_NAME_OFFSET`. */
  function GameName(info: GameInfo): (r: seq<byte>)
    ensures |r| == 20
  {
    match info.region
    case JP => Ascii("ROCKMAN EXE 20010120")
    case US => Ascii("ROCKMAN EXE 20010727")
  }

  /** `Save::game_info`: the release whose name is in the name field, or an
      error naming the unrecognised bytes. */
  function GameInfoOf(s: Save): (r: Result<GameInfo, Error>)
    ensures forall info :: r == Ok(info) <==> s.buf[GAME_NAME_OFFSET..GAME_NAME_OFFSET + 20] == GameName(info)
    ensures r.Err? ==> r.error == UnknownGameName(s.buf[GAME_NAME_OFFSET..GAME_NAME_OFFSET + 20])
  {
    var name := s.buf[GAME_NAME_OFFSET..GAME_NAME_OFFSET + 20];
    var jp := GameName(GameInfo(JP));
    var us := GameName(GameInfo(US));
    assert jp[17] != us[17];
    if name == jp then Ok(GameInfo(JP))
    else if name == us then Ok(GameInfo(US))
    else Err(UnknownGameName(name))
  }

  /** `Save::checksum`: the stored little-endian word at `CHECKSUM_OFFSET`;
      writing it back little-endian reproduces the four stored bytes. */
  function Checksum(s: Save): (r: u32)
    ensures LeBytes32(r) == s.buf[CHECKSUM_OFFSET..CHECKSUM_OFFSET + 4]
  {
    LeBytes32OfLeU32(s.buf, CHECKSUM_OFFSET);
    LeU32(s.buf, CHECKSUM_OFFSET)
  }

  /** `Save::compute_checksum`: the sum of every byte outside the checksum
      word plus 0x16; the u32 addition of the source never overflows. */
  function ComputeChecksum(s: Save): (r: nat)
    ensures r == Sum(s.buf[..CHECKSUM_OFFSET]) + Sum(s.buf[CHECKSUM_OFFSET + 4..]) + 0x16
    ensures r < 0x1_0000_0000
  {
    Saves.ComputeSaveRawChecksum(s.buf, CHECKSUM_OFFSET) + 0x16
  }

  /** What `Save::new` accepts: a known name and a matching checksum. */
  predicate Consistent(s: Save)
  {
    GameInfoOf(s).Ok? && Checksum(s) == ComputeChecksum(s)
  }

  /** `Save::new`: the first `SRAM_SIZE` bytes, kept only if the name is
      known and the checksum matches. */
  function Parse(b: seq<byte>): (r: Result<Save, Error>)
    ensures r == Err(WrongSize) <==> |b| < SRAM_SIZE
    ensures r.Ok? ==> r.value.buf == b[..SRAM_SIZE] && Consistent(r.value)
    ensures |b| >= SRAM_SIZE && !Consistent(Save(b[..SRAM_SIZE])) ==> r.Err?
  {
    if |b| < SRAM_SIZE then Err(WrongSize)
    else
      var s := Save(b[..SRAM_SIZE]);
      match GameInfoOf(s)
      case Err(e) => Err(e)
      case Ok(_) =>
        if Checksum(s) != ComputeChecksum(s) then Err(ChecksumMismatch(Checksum(s), ComputeChecksum(s)))
        else Ok(s)
  }

  /** Loading only depends on the first `SRAM_SIZE` bytes: a loaded save
      loads again from its own image, and anything after the image is
      ignored. */
  lemma {:induction false} ParseOwnImage(s: Save, tail: seq<byte>)
    ensures Parse(s.buf + tail) == (if Consistent(s) then Ok(s) else Parse(s.buf))
  {
    assert (s.buf + tail)[..SRAM_SIZE] == s.buf;
    assert s.buf[..SRAM_SIZE] == s.buf;
  }

  /** Writing the computed checksum into the checksum word of an image with a
      known name gives an image `Save::new` accepts. */
  lemma {:induction false} ResealedAccepted(s: Save)
    requires GameInfoOf(s).Ok?
    ensures var c := ComputeChecksum(s);
            var b := s.buf[..CHECKSUM_OFFSET] + LeBytes32(c) + s.buf[CHECKSUM_OFFSET + 4..];
            Parse(b).Ok? && Parse(b).value.buf == b
  {
    var c := ComputeChecksum(s);
    var b := s.buf[..CHECKSUM_OFFSET] + LeBytes32(c) + s.buf[CHECKSUM_OFFSET + 4..];
    Saves.WordWritten(s.buf, CHECKSUM_OFFSET, c);
    Saves.RawChecksumIgnoresWord(s.buf, b, CHECKSUM_OFFSET);
    assert b[..SRAM_SIZE] == b;
    var t := Save(b);
    assert b[GAME_NAME_OFFSET..GAME_NAME_OFFSET + 20] == s.buf[GAME_NAME_OFFSET..GAME_NAME_OFFSET + 20];
    assert GameInfoOf(t) == GameInfoOf(s);
    assert Checksum(t) == c == ComputeChecksum(t);
  }

  // ---------------------------------------------------------------------
  // Chips view

  /** The BN1 folder entry: chip id and code variant, one byte each. */
  datatype Chip = Chip(id: byte, variant: byte)

  /** `ChipsView::chip_codes`: the 26 letters, without the `*` code. */
  const CHIP_CODES: string := "ABCDEFGHIJKLMNOPQRSTUVWXYZ"

  /** The BN1 codes are the letters A to Z in order; unlike later games
      there is no `*` code. */
  lemma ChipCodesLayout()
    ensures |CHIP_CODES| == 26 && '*' !in CHIP_CODES
    ensures forall i :: 0 <= i < 26 ==> CHIP_CODES[i] as int == 'A' as int + i
  {
  }

  /** The constant answers of the BN1 chips view: one folder, equipped, and
      no regular chip kept in place. */
  function ChipsShapeOf(): (r: Saves.ChipsShape)
    ensures r.numFolders == 1 && r.equippedFolder == 0
    ensures !r.regularChipInPlace && r.chipsHaveMb
  {
    Saves.ChipsShapeWithDefaults(1, 0, false)
  }

  /** `ChipsView::regular_chip_index`: BN1 has no regular chip. */
  function RegularChipIndex(s: Save, folderIndex: nat): (r: Option<nat>)
    ensures r.None?
  {
    None
  }

  /** `ChipsView::tag_chip_indexes`: BN1 has no tag chips. */
  function TagChipIndexes(s: Save, folderIndex: nat): (r: Option<(nat, nat)>)
    ensures r.None?
  {
    None
  }

  /** `ChipsView::chip` as written: it turns away folders past the first and
      chip indexes above 30, so index 30 is let through. */
  function FolderChipAsWritten(s: Save, folderIndex: nat, chipIndex: nat): (r: Option<Chip>)
    ensures r.None? <==> folderIndex > 0 || chipIndex > 30
    ensures r.Some? ==>
              r.value == Chip(s.buf[FOLDER_OFFSET + chipIndex * 2], s.buf[FOLDER_OFFSET + chipIndex * 2 + 1])
  {
    if folderIndex > 0 || chipIndex > 30 then None
    else Some(Chip(s.buf[FOLDER_OFFSET + chipIndex * 2], s.buf[FOLDER_OFFSET + chipIndex * 2 + 1]))
  }

  /** The 31st position the source lets through reads the two bytes just
      after the 30-entry folder. */
  lemma ChipIndex30ReadsPastFolder(s: Save)
    ensures FolderChipAsWritten(s, 0, FOLDER_LENGTH).Some?
    ensures FolderChipAsWritten(s, 0, FOLDER_LENGTH).value
            == Chip(s.buf[FOLDER_OFFSET + FOLDER_LENGTH * 2], s.buf[FOLDER_OFFSET + FOLDER_LENGTH * 2 + 1])
  {
  }

  /** `ChipsView::chip` with the bound the folder size calls for (and that the
      BN6 view uses): a chip exactly for positions 0 to 29 of the one folder,
      read from inside the folder's entries. */
  function FolderChip(s: Save, folderIndex: nat, chipIndex: nat): (r: Option<Chip>)
    ensures r.None? <==> folderIndex > 0 || chipIndex >= FOLDER_LENGTH
    ensures r.Some? ==>
              FOLDER_OFFSET + chipIndex * 2 + 2 <= FOLDER_OFFSET + FOLDER_LENGTH * 2
              && r.value == Chip(s.buf[FOLDER_OFFSET + chipIndex * 2], s.buf[FOLDER_OFFSET + chipIndex * 2 + 1])
  {
    if folderIndex > 0 || chipIndex >= FOLDER_LENGTH then None
    else Some(Chip(s.buf[FOLDER_OFFSET + chipIndex * 2], s.buf[FOLDER_OFFSET + chipIndex * 2 + 1]))
  }

  /** The corrected view differs from the written one at position 30 only. */
  lemma FolderChipAgreesBelow30(s: Save, folderIndex: nat, chipIndex: nat)
    ensures FolderChip(s, folderIndex, chipIndex) == FolderChipAsWritten(s, folderIndex, chipIndex)
            <==> !(folderIndex == 0 && chipIndex == FOLDER_LENGTH)
  {
  }
}
