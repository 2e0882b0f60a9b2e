# Tango save, ROM and netplay core in Dafny

Tango is a netplay launcher for the Mega Man Battle Network games. It finds
the save files on disk, tells which game each one belongs to, reads chips,
the NaviCust and modcards out of a save and out of the ROM, and hooks the
emulated game so that two players can link over the network. This project
models these parts of Tango and proves properties about them:

- `saves.dfy` (module `Saves`) covers the code shared by every game. It models:
  - save masking, which XORs every byte with the mask word's low byte;
  - the raw checksum;
  - the defaults of the save views;
  - `scan_saves`. A file is registered under every game whose parser
    accepts it. Each game's list is then sorted, deepest paths first and
    then by components.
- `bn6_save.dfy` (module `Bn6Save`) is the Battle Network 6 save. It
  covers:
  - loading a masked 64 KiB file and writing it back;
  - recognising the game from its name field;
  - the variant-dependent checksum;
  - the chips, NaviCust and modcard views.
- `bn1_save.dfy` (module `Bn1Save`) is the Battle Network 1 save. It is
  unmasked, has one folder, and its release is read from the name field.
- `bn4.dfy` (module `Bn4`) covers the four Battle Network 4 games:
  - their identities;
  - which saves each one accepts;
  - how a WRAM snapshot is tagged;
  - which charset and modcard table the ROM assets are read with.
- `bn6_rom.dfy` (module `Bn6Rom`) is the Battle Network 6 ROM reader. It
  decodes chip, NaviCust part and modcard records. Text comes from the
  override tables when there are any, otherwise from the ROM.
- `bn2_hooks.dfy` (module `Bn2Hooks`) covers the Battle Network 2 netplay
  hooks. It includes:
  - the game's RNG and how each side seeds it;
  - the battle background;
  - the rx packets written into the link;
  - the tick checks on input pairs;
  - the round results.

  The hooks of the primary (the local player's emulator), the shadow (the
  emulator that runs the opponent's side) and the replayer are classes.
  Their fields are the state the hooks update.
- `bytes.dfy` (module `Bytes`) holds shared helpers:
  - bytes as integers;
  - little-endian words;
  - sums;
  - a bitwise XOR defined arithmetically.

Some inputs come from parts of Tango that are not modelled here: the
emulator core, the text parser, the memory mapper, the BN4 save module,
and random number draws. Each such input is a parameter of the member
that needs it.

## Model

| member | source | states |
|---|---|---|
| Saves.Masked | tango/src/save.rs:136-142 | masking keeps the four bytes of the mask word and XORs every other byte with the mask word's low byte |
| Saves.MaskedInvolutive | tango/src/save.rs:136-142 | masking a masked buffer gives the original back, so the same function masks and unmasks |
| Saves.MaskedCharacterised | tango/src/save.rs:136-142 | any buffer that keeps the mask word and XORs every other byte with its low byte is the masked buffer |
| Saves.MaskSave | tango/src/save.rs:136-142 | masking a window of an array in place leaves exactly `Masked` of the old window there, and nothing outside the window changes |
| Saves.XorRange | tango/src/save.rs:138-140 | the loop XORs every byte of the range with the mask and touches nothing else |
| Saves.ComputeSaveRawChecksum | tango/src/save.rs:144-150 | the raw checksum is the sum of every byte outside the checksum word; it is at most 0xff times that many bytes, so the u32 sum never wraps for these saves |
| Saves.RawChecksumIgnoresWord | tango/src/save.rs:144-150 | the raw checksum does not depend on the checksum word's own bytes |
| Saves.DefaultViews | tango/src/save.rs:109-128 | by default a save offers no chips, modcards, NaviCust, dark AI or navi view |
| Saves.ChipsShapeWithDefaults | tango/src/save.rs:158-168 | a chips view keeps the default `chips_have_mb` of true |
| Saves.NavicustShapeWithDefaults | tango/src/save.rs:199-211 | a NaviCust view keeps the defaults of 25 parts and no style |
| Saves.StrLeTotal | tango/src/save.rs:70-79 | any two path components compare |
| Saves.StrLeAntisymmetric | tango/src/save.rs:70-79 | two components that are each at most the other are equal |
| Saves.StrLeTransitive | tango/src/save.rs:70-79 | the order on components is transitive |
| Saves.ComponentsLeTotal | tango/src/save.rs:70-79 | any two component lists compare lexicographically |
| Saves.ComponentsLeTransitive | tango/src/save.rs:70-79 | the lexicographic order on component lists is transitive |
| Saves.KeyLeTotal | tango/src/save.rs:70-79 | the sort key `(-(number of components), components)` orders any two paths |
| Saves.KeyLeTransitive | tango/src/save.rs:70-79 | the sort-key order is transitive |
| Saves.SortByKey | tango/src/save.rs:70-79 | sorting a list of scanned saves in place leaves it ordered by the key and a permutation of the input |
| Saves.InsertIntoSorted | tango/src/save.rs:70-79 | one insertion step extends the sorted prefix by one element and keeps the same elements |
| Saves.RegisteredAt | tango/src/save.rs:38-67 | after registration a game has an entry exactly when it had one or accepted the file; the file is appended to its list exactly when it accepted it |
| Saves.RegisteredUnderAccepting | tango/src/save.rs:38-67 | the registered map's games are the old ones plus those that accepted the file; every other game's list is unchanged |
| Saves.Scan.constructor | tango/src/save.rs:14 | the scan starts with no saves listed |
| Saves.Scan.Register | tango/src/save.rs:38-67 | for one file, the map becomes the registration of the file under the accepting games; `ok` holds exactly when some game accepted it; otherwise every game's error is reported, in game order |
| Saves.Scan.SortAll | tango/src/save.rs:70-79 | every game's list ends up ordered by the key and is a permutation of what it was; the set of games is unchanged |
| Bn6Save.GameInfoOfName | tango/src/game/bn6/save.rs:43-63 | a name field identifies a region and variant exactly when it is that game's 20-byte name |
| Bn6Save.GameName | tango/src/game/bn6/save.rs:43-63 | each game's name field is 20 bytes, starts `REXE6 ` and ends with its region, `JP` or `US` |
| Bn6Save.ComputeChecksum | tango/src/game/bn6/save.rs:97-103 | the checksum is the raw checksum plus 0x72 for Gregar or 0x18 for Falzar, and it fits in a u32 |
| Bn6Save.Checksum | tango/src/game/bn6/save.rs:93-95 | the stored checksum is the little-endian word whose four bytes are the checksum field |
| Bn6Save.Resealed | tango/src/game/bn6/save.rs:93-103 | writing the computed checksum into the checksum word makes the stored and computed checksums agree; no other byte changes |
| Bn6Save.ResealedRoundTrips | tango/src/game/bn6/save.rs:36-77 | a resealed save whose name field names its game is read back unchanged from the file `to_vec` writes |
| Bn6Save.Parse | tango/src/game/bn6/save.rs:36-77 | `Save::new` reports a wrong size exactly for buffers shorter than the SRAM window's end; a loaded save is the unmasked window, names its game and has a matching checksum; conversely, when the unmasked window with some game info is consistent, that save is loaded; when its name field matches no game, the error is an unknown name carrying that field; an unknown name error always carries a name that matches no game |
| Bn6Save.New | tango/src/game/bn6/save.rs:36-77 | the imperative load, which copies the window and unmasks it in place, returns what `Parse` specifies |
| Bn6Save.Unmasked | tango/src/game/bn6/save.rs:37-41 | unmasking the window copied into an array gives `Masked` of the window |
| Bn6Save.FromWram | tango/src/game/bn6/save.rs:79-87 | `from_wram` fails exactly when the buffer is shorter than the SRAM; otherwise it keeps the first SRAM bytes and the given game info |
| Bn6Save.AsRawWram | tango/src/game/bn6/save.rs:135-137 | the raw WRAM is exactly SRAM-sized |
| Bn6Save.FromWramOfAsRawWram | tango/src/game/bn6/save.rs:79-137 | a save rebuilt from its own raw WRAM and game info is the same save |
| Bn6Save.Serialized | tango/src/game/bn6/save.rs:139-144 | the written file is 64 KiB long |
| Bn6Save.ToVec | tango/src/game/bn6/save.rs:139-144 | the imperative write (zeroed buffer, SRAM copied in, masked in place) returns `Serialized` |
| Bn6Save.ToVecOfNew | tango/src/game/bn6/save.rs:36-144 | writing a loaded save back reproduces the file's SRAM window byte for byte and zeroes everything else |
| Bn6Save.NewOfToVec | tango/src/game/bn6/save.rs:36-144 | a save reads back unchanged from the file it writes exactly when its name field names its game and its checksum matches |
| Bn6Save.ViewsOf | tango/src/game/bn6/save.rs:114-133 | a BN6 save offers chips and NaviCust views; it offers modcards exactly for the JP release; the dark AI and navi views keep their defaults |
| Bn6Save.NaviStatsOffset | tango/src/game/bn6/save.rs:105-111 | the stats record of any navi, in either region, lies inside the SRAM with 0x100 bytes to spare |
| Bn6Save.Navi | tango/src/game/bn6/save.rs:275-277 | the current navi is the byte at 0x1b81 |
| Bn6Save.CurrentNaviStats | tango/src/game/bn6/save.rs:156-159 | the current navi's stats are MegaMan's record (0x478c in JP, 0x47cc in US) exactly when the navi byte is 0, and the record 0x64 bytes further on exactly when it is not; the record lies inside the SRAM |
| Bn6Save.NumFolders | tango/src/game/bn6/save.rs:152-154 | the folder count is the byte at 0x1c09 |
| Bn6Save.EquippedFolderIndex | tango/src/game/bn6/save.rs:156-159 | the equipped folder is byte 0x2d of MegaMan's stats record when the navi byte is 0, and of the next record otherwise |
| Bn6Save.ChipsShapeOf | tango/src/game/bn6/save.rs:152-163 | the folder count and equipped folder are read from the save; the regular chip is kept in place; chips have MB |
| Bn6Save.RegularChipIndex | tango/src/game/bn6/save.rs:165-173 | there is no regular chip exactly when the folder's byte is 30 or more; otherwise the index is that byte, below 30 |
| Bn6Save.TagChipIndexes | tango/src/game/bn6/save.rs:175-184 | there are no tag chips exactly when either byte is 0xff; otherwise the two bytes are the indexes |
| Bn6Save.ChipCodesLayout | tango/src/game/bn6/save.rs:186-198 | the code table is A to Z in order followed by `*` |
| Bn6Save.CodeIndex | tango/src/game/bn6/save.rs:186-198 | a code's index in the table names that code |
| Bn6Save.ChipOfRaw | tango/src/game/bn6/save.rs:186-198 | a folder entry decodes to an id below 0x200 and a code from the table |
| Bn6Save.RawOfChip | tango/src/game/bn6/save.rs:186-198 | an encoded chip has a code index inside the table |
| Bn6Save.RawChipRoundTrip | tango/src/game/bn6/save.rs:186-198 | re-encoding a decoded folder entry gives the entry back |
| Bn6Save.ChipChipRoundTrip | tango/src/game/bn6/save.rs:186-198 | decoding an encoded chip gives the chip back |
| Bn6Save.FolderChip | tango/src/game/bn6/save.rs:186-198 | there is no chip exactly past the save's folders or at position 30 or more; otherwise the chip encodes to the u16 folder entry inside the SRAM |
| Bn6Save.ModcardOfRaw | tango/src/game/bn6/save.rs:210-219 | a slot byte decodes to an id below 0x80 |
| Bn6Save.ModcardRawRoundTrip | tango/src/game/bn6/save.rs:210-219 | slot bytes and (id, enabled) pairs correspond one to one |
| Bn6Save.ModcardCount | tango/src/game/bn6/save.rs:206-208 | the modcard count is the byte at 0x65f0 |
| Bn6Save.SlotModcard | tango/src/game/bn6/save.rs:206-219 | there is no card exactly at or past the count; otherwise the card encodes to the slot byte |
| Bn6Save.NavicustShapeOf | tango/src/game/bn6/save.rs:227-241 | the NaviCust is 7 by 7 with its command line on row 3 and out-of-bounds cells; the count and style keep the defaults |
| Bn6Save.NavicustPartAt | tango/src/game/bn6/save.rs:243-268 | there is no part exactly past the 25th record or where the record's first byte is 0; otherwise the id and variant pack into that byte, position and rotation are bytes 3 to 5, and byte 6 is the compression flag |
| Bn1Save.GameName | tango/src/game/bn1/save.rs:46-54 | each release's name is 20 bytes long |
| Bn1Save.GameInfoOf | tango/src/game/bn1/save.rs:46-54 | a release is recognised exactly when its name is in the name field; otherwise the error carries the unrecognised bytes |
| Bn1Save.ComputeChecksum | tango/src/game/bn1/save.rs:60-62 | the checksum is the raw checksum plus 0x16, and it fits in a u32 |
| Bn1Save.Checksum | tango/src/game/bn1/save.rs:56-58 | the stored checksum is the little-endian word whose four bytes are the checksum field |
| Bn1Save.Parse | tango/src/game/bn1/save.rs:25-44 | `Save::new` reports a wrong size exactly for buffers shorter than the SRAM; a loaded save is the first SRAM bytes, with a known name and a matching checksum; an inconsistent image is refused |
| Bn1Save.ParseOwnImage | tango/src/game/bn1/save.rs:25-44 | loading depends only on the first SRAM bytes; a consistent save loads again from its own image |
| Bn1Save.ResealedAccepted | tango/src/game/bn1/save.rs:25-62 | an image with a known name, with the computed checksum written into its checksum word, is accepted as it is |
| Bn1Save.ChipsShapeOf | tango/src/game/bn1/save.rs:80-90 | BN1 has one folder, which is equipped; its regular chip is not kept in place; chips have MB |
| Bn1Save.ChipCodesLayout | tango/src/game/bn1/save.rs:76-78 | the BN1 codes are the 26 letters A to Z in order, with no `*` code |
| Bn1Save.RegularChipIndex | tango/src/game/bn1/save.rs:92-94 | BN1 has no regular chip |
| Bn1Save.TagChipIndexes | tango/src/game/bn1/save.rs:96-98 | BN1 has no tag chips |
| Bn1Save.FolderChipAsWritten | tango/src/game/bn1/save.rs:100-109 | as written, the view refuses folders past the first and chip indexes above 30, and reads the two entry bytes otherwise |
| Bn1Save.ChipIndex30ReadsPastFolder | tango/src/game/bn1/save.rs:100-109 | as written, position 30 is let through and reads the two bytes after the 30-entry folder |
| Bn1Save.FolderChip | tango/src/game/bn1/save.rs:100-109 | corrected: a chip exists exactly for positions 0 to 29 of the one folder, and is read from inside the folder |
| Bn1Save.FolderChipAgreesBelow30 | tango/src/game/bn1/save.rs:100-109 | the corrected and the written view differ exactly at folder 0, position 30 |
| Bn4.RomCodeAndRevision | tango/src/game/bn4.rs:13-15 | every BN4 ROM code is four characters long and starts with `B4` (likewise in the other three games' impls) |
| Bn4.FamilyAndVariant | tango/src/game/bn4.rs:17-19 | the variant number is 0 or 1 |
| Bn4.Language | tango/src/game/bn4.rs:21-23 | the language is Japanese exactly for the JP releases and US English exactly for the US releases (likewise at lines 94-96, 167-169 and 240-242) |
| Bn4.ExpectedCrc32 | tango/src/game/bn4.rs:25-27 | each ROM's checksum is one of the four published values, and it is one of the two JP values exactly for the JP releases (likewise at lines 98-100, 171-173 and 244-246) |
| Bn4.MatchTypes | tango/src/game/bn4.rs:7 | every game offers two match types with two settings each |
| Bn4.RegionOf | tango/src/game/bn4.rs:48-56 | each game is sold in a region, never region-free |
| Bn4.GamesDistinct | tango/src/game/bn4.rs:12-31 | the four games have distinct ROM codes, family and variant pairs and CRC32s; the family decides the language and region; the variant number decides the variant |
| Bn4.ParseSave | tango/src/game/bn4.rs:37-46 | a load error is passed through; a loaded save is either kept as it is or refused with its game info |
| Bn4.AcceptsCharacterised | tango/src/game/bn4.rs:37-46 | a game keeps a save exactly when it has the game's variant and either the game's region or no region |
| Bn4.VariantsExclusive | tango/src/game/bn4.rs:37-46 | a Red Sun save is never kept by a Blue Moon game, nor the reverse |
| Bn4.AcceptingGames | tango/src/game/bn4.rs:37-46 | a region-free save is kept by both games of its variant; a save with a region is kept by exactly one game |
| Bn4.WramTag | tango/src/game/bn4.rs:48-56 | a WRAM snapshot is tagged with the game's own region and variant |
| Bn4.WramTagOwnGameOnly | tango/src/game/bn4.rs:37-56 | a snapshot tagged by one game is kept by that game and by no other |
| Bn4.LoadRomAssets | tango/src/game/bn4.rs:58-79 | the assets use the game's own offsets; the override charset is used when there is one, otherwise the language's charset; the override language's modcard table is used when one exists, otherwise the language's table |
| Bn6Rom.TextCharset | tango/src/game/bn6/rom.rs:446-451 | the text parser uses the override charset when there is one, otherwise the default |
| Bn6Rom.PlainTextAppend | tango/src/game/bn6/rom.rs:133-155 | the text of two runs of parts is the two texts concatenated |
| Bn6Rom.PlainTextOfCommands | tango/src/game/bn6/rom.rs:133-155 | commands contribute no text |
| Bn6Rom.OverrideField | tango/src/game/bn6/rom.rs:123-128 | an override table gives the entry's field, or `???` when the entry or the field is missing |
| Bn6Rom.EntryText | tango/src/game/bn6/rom.rs:133-155 | an entry the parser rejects reads as `???`; otherwise the text is the entry's string parts |
| Bn6Rom.ChipHandle | tango/src/game/bn6/rom.rs:594-603 | a chip exists exactly for ids below 411 |
| Bn6Rom.ChipRawInfo | tango/src/game/bn6/rom.rs:114-119 | a chip's record is the 0x2c bytes at `id * 0x2c` of the chip data |
| Bn6Rom.DescriptionPartText | tango/src/game/bn6/rom.rs:157-213 | in a description, text stands for itself, commands other than the e-Reader command stand for nothing, and the e-Reader command stands for its card's text |
| Bn6Rom.DescriptionTextPlain | tango/src/game/bn6/rom.rs:157-213 | a description without e-Reader commands reads like any other text |
| Bn6Rom.ChipTextIgnoresRom | tango/src/game/bn6/rom.rs:122-213 | with a chip override table, a chip's name and description do not depend on the ROM |
| Bn6Rom.ChipName | tango/src/game/bn6/rom.rs:122-155 | with an override table, the name is the table's name field for the id; otherwise it is `???` when text block `id / 0x100` has no entry `id % 0x100`, and that entry's plain text when it has |
| Bn6Rom.ChipDescription | tango/src/game/bn6/rom.rs:157-213 | with an override table, the description is the table's description field for the id; otherwise it is `???` without a ROM entry, the entry with e-Reader commands expanded when there is one, and just its plain text when it holds no e-Reader command |
| Bn6Rom.CodesOf | tango/src/game/bn6/rom.rs:250-258 | the codes of a run of code bytes are table codes, at most one per byte, and there are none exactly when every byte is 0xff |
| Bn6Rom.CodeBytesAppend | tango/src/game/bn6/rom.rs:250-258 | two runs of decodable code bytes concatenate to a decodable run |
| Bn6Rom.CodesOfAppend | tango/src/game/bn6/rom.rs:250-258 | decoding code bytes piecewise gives the same codes |
| Bn6Rom.CodesOfByte | tango/src/game/bn6/rom.rs:250-258 | a single 0xff byte names no code and any other byte `b` names `CHIP_CODES[b]`; with `CodesOfAppend` this fixes the decoding of every run |
| Bn6Rom.ChipCodes | tango/src/game/bn6/rom.rs:250-258 | a chip's codes are the codes of record bytes 0, 1, 2 and 3 in that order, each 0xff byte skipped and each other byte `b` giving `CHIP_CODES[b]`; there are at most four |
| Bn6Rom.ChipElement | tango/src/game/bn6/rom.rs:260-263 | the element is byte 6 of the chip's record |
| Bn6Rom.ClassByteRoundTrip | tango/src/game/bn6/rom.rs:265-274 | class bytes 0 to 4 and chip classes correspond one to one |
| Bn6Rom.ChipClassOf | tango/src/game/bn6/rom.rs:265-274 | the class is the one named by byte 7 of the chip's record |
| Bn6Rom.ChipDark | tango/src/game/bn6/rom.rs:276-278 | BN6 has no dark chips |
| Bn6Rom.ChipMb | tango/src/game/bn6/rom.rs:280-283 | the MB is byte 8 of the chip's record |
| Bn6Rom.ChipDamage | tango/src/game/bn6/rom.rs:285-293 | the damage is below 1000; it is the u16 at 0x1a when that is below 1000, and 0 otherwise |
| Bn6Rom.ElementIconHandle | tango/src/game/bn6/rom.rs:605-608 | an element icon exists exactly for ids below 11 |
| Bn6Rom.NavicustPartHandle | tango/src/game/bn6/rom.rs:619-633 | a part exists exactly for ids below 47 and variants below 4 |
| Bn6Rom.NavicustRecordIndex | tango/src/game/bn6/rom.rs:303-305 | a part's record index `id * 4 + variant` determines its id and its variant |
| Bn6Rom.NavicustRawInfo | tango/src/game/bn6/rom.rs:303-309 | a part's record is the 16 bytes at its record index |
| Bn6Rom.NavicustTextIgnoresRom | tango/src/game/bn6/rom.rs:312-372 | with a part override table, a part's name and description do not depend on the ROM |
| Bn6Rom.NavicustPartName | tango/src/game/bn6/rom.rs:312-341 | with an override table, the name is the table's name field for the id; otherwise it is `???` without a ROM entry and the entry's plain text with one |
| Bn6Rom.NavicustPartDescription | tango/src/game/bn6/rom.rs:343-372 | with an override table, the description is the table's description field for the id; otherwise it is `???` without a ROM entry and the entry's plain text with one |
| Bn6Rom.ColorOfByte | tango/src/game/bn6/rom.rs:374-387 | a colour byte names a colour exactly when it is 1 to 6 |
| Bn6Rom.ColorByteRoundTrip | tango/src/game/bn6/rom.rs:374-387 | colour bytes 1 to 6 and colours correspond one to one |
| Bn6Rom.NavicustPartColorOf | tango/src/game/bn6/rom.rs:374-387 | a part has a colour exactly when byte 3 of its record is 1 to 6, and that colour is the one the byte names |
| Bn6Rom.NavicustPartIsSolid | tango/src/game/bn6/rom.rs:389-392 | a part is solid exactly when byte 1 of its record is 0 |
| Bn6Rom.SavedPartRecord | tango/src/game/bn6/rom.rs:303-309 | a part placed in a save is found in the ROM at the record index the save stores |
| Bn6Rom.Modcard56Handle | tango/src/game/bn6/rom.rs:639-648 | a modcard exists exactly for ids below 118 |
| Bn6Rom.ModcardRawInfo | tango/src/game/bn6/rom.rs:477-482 | a modcard's record is the data between the offsets in table entries `id` and `id + 1` |
| Bn6Rom.Modcard56Name | tango/src/game/bn6/rom.rs:486-519 | modcard 0 has an empty name; with an override table the name is the table's entry or `???`; without one it is `???` when the ROM has no entry and the entry's plain text when it has |
| Bn6Rom.Modcard56Mb | tango/src/game/bn6/rom.rs:521-528 | modcard 0 has MB 0; any other has byte 1 of its record |
| Bn6Rom.Decimal | tango/src/game/bn6/rom.rs:574 | a number prints as at least one decimal digit, with no leading zero unless it is 0 |
| Bn6Rom.DecimalRoundTrip | tango/src/game/bn6/rom.rs:574 | reading back the printed digits gives the number |
| Bn6Rom.RenderPart | tango/src/game/bn6/rom.rs:565-582 | template text stands for itself; variable 1 prints the parameter, times ten for effects 0 and 2; any other variable prints nothing |
| Bn6Rom.RenderTemplateIgnoresParameter | tango/src/game/bn6/rom.rs:565-582 | a template without variable 1 renders the same whatever the parameter |
| Bn6Rom.EffectTemplate | tango/src/game/bn6/rom.rs:543-563 | with an effects override table, the template is the table's entry or `???`; without one it is the ROM's template for the effect, or `???` when the ROM has none |
| Bn6Rom.EffectOf | tango/src/game/bn6/rom.rs:538-587 | a three-byte effect record gives id and parameter; it is a debuff exactly when byte 2 is 1 and an ability exactly when the id is above 0x15; its name is the rendered template |
| Bn6Rom.Chunks3 | tango/src/game/bn6/rom.rs:536-537 | cutting a run into threes gives the consecutive three-byte slices |
| Bn6Rom.Chunks3Flatten | tango/src/game/bn6/rom.rs:536-537 | the chunks concatenate back to the run they were cut from |
| Bn6Rom.EffectsOf | tango/src/game/bn6/rom.rs:536-589 | there is one effect per three-byte chunk, in order |
| Bn6Rom.Modcard56Effects | tango/src/game/bn6/rom.rs:530-590 | modcard 0 has no effects; any other has one effect per three-byte record after the first three bytes, and effect `k` is `EffectOf` of record `k`: its id, parameter, debuff flag, ability flag and the name rendered from its template |
| Bn2Hooks.StepRng | tango/src/game/bn2/hooks.rs:31-34 | one step rotates the state left by one bit, adds one (wrapping) and XORs with 0x873ca9e5 |
| Bn2Hooks.StepRngBijective | tango/src/game/bn2/hooks.rs:31-34 | the step is a permutation of the 2^32 states: it has an inverse on both sides |
| Bn2Hooks.RngIterAdd | tango/src/game/bn2/hooks.rs:36-42 | `m + n` steps are `m` steps followed by `n` steps |
| Bn2Hooks.RngIterInjective | tango/src/game/bn2/hooks.rs:36-42 | distinct seeds stay distinct after any number of steps |
| Bn2Hooks.GenerateRngState | tango/src/game/bn2/hooks.rs:36-42 | the generated state is the initial state stepped as many times as the draw |
| Bn2Hooks.PrimaryRngState | tango/src/game/bn2/hooks.rs:105-130 | the offerer's primary takes the state of the first draw, the answerer's that of the second |
| Bn2Hooks.ShadowRngState | tango/src/game/bn2/hooks.rs:490-497 | the offerer's shadow takes the state of the second draw and the answerer's shadow that of the first |
| Bn2Hooks.ShadowSeedsLikeOpponent | tango/src/game/bn2/hooks.rs:483-500 | with the same draws, a side's shadow starts from the state the opponent's primary starts from |
| Bn2Hooks.RandomBackground | tango/src/game/bn2/hooks.rs:26-29 | the background is one of the eight battle backgrounds |
| Bn2Hooks.EveryBackgroundDrawable | tango/src/game/bn2/hooks.rs:26-29 | every battle background can be drawn |
| Bn2Hooks.PredictedRx | tango/src/game/bn2/hooks.rs:893-901 | a non-input packet is unchanged; for an input packet the little-endian sequence number at 0xc goes up by one, wrapping at 2^32, and no other byte changes |
| Bn2Hooks.PredictRx | tango/src/game/bn2/hooks.rs:893-901 | the in-place update leaves the array holding `PredictedRx` of its old contents |
| Bn2Hooks.ReplayerIdleRx | tango/src/game/bn2/hooks.rs:688-694 | the idle packet is a 16-byte input packet with the fixed idle header and the sequence number at 0xc |
| Bn2Hooks.PredictIdleRx | tango/src/game/bn2/hooks.rs:893-901 | predicting from an idle packet gives the idle packet of the next sequence number |
| Bn2Hooks.CheckPair | tango/src/game/bn2/hooks.rs:438-455 | a pair passes exactly when both inputs are for the current tick; a local and remote mismatch is reported first |
| Bn2Hooks.CheckPairAndPacket | tango/src/game/bn2/hooks.rs:438-465 | a pair passes this check exactly when both inputs and the saved packet are for the current tick; a failed pair check is reported as it is |
| Bn2Hooks.InjectedJoyflags | tango/src/game/bn2/hooks.rs:614-616 | the injected value keeps the input's ten button bits and sets the six top bits |
| Bn2Hooks.PrimaryResult | tango/src/game/bn2/hooks.rs:137-215 | the primary records a win for either win signal and a loss for either loss signal; on a damage-judge draw it records what the round decides |
| Bn2Hooks.ShadowResult | tango/src/game/bn2/hooks.rs:507-545 | the shadow records a loss for either win signal, a win for either loss signal, and on a damage-judge draw what the round decides for draws |
| Bn2Hooks.ReplayerResult | tango/src/game/bn2/hooks.rs:855-889 | the replayer records a win for either win signal, a loss for either loss signal, and a draw on a damage-judge draw |
| Bn2Hooks.ResultsAgree | tango/src/game/bn2/hooks.rs:137-889 | the shadow records the opposite of the primary on every decided round and the same on a draw; the replayer agrees with the primary and records draws as draws |
| Bn2Hooks.ReportedPlayerIndex | tango/src/game/bn2/hooks.rs:275-296 | the primary and the replayer report the local seat and the shadow the other seat; the index is 0 or 1 |
| Bn2Hooks.SeatsConsistent | tango/src/game/bn2/hooks.rs:275-769 | a primary and its shadow report different seats; the shadow reports the seat the opponent's primary reports; a replay reports the recorder's seat |
| Bn2Hooks.Primary.CommMenuInit | tango/src/game/bn2/hooks.rs:105-130 | in a match, the RNG state becomes this side's generated state and the background a drawn one; without a match nothing changes |
| Bn2Hooks.Primary.SendAndReceive | tango/src/game/bn2/hooks.rs:87-103 | data is reported ready (3) during a match and not ready (0) otherwise |
| Bn2Hooks.Primary.CommMenuSendAndReceive | tango/src/game/bn2/hooks.rs:358-368 | both rx slots get the comm-menu packet and data is reported ready |
| Bn2Hooks.Primary.LinkIsP2 | tango/src/game/bn2/hooks.rs:275-296 | during a round the hook reports the local seat; otherwise the register is untouched |
| Bn2Hooks.Primary.ReadJoyflags | tango/src/game/bn2/hooks.rs:297-349 | the first read of a round while linking sets a fresh generated RNG state and commits; any other read changes neither |
| Bn2Hooks.Primary.SetResult | tango/src/game/bn2/hooks.rs:137-215 | in a match the recorded result becomes the primary's reading of the signal; otherwise it is untouched |
| Bn2Hooks.Primary.IncrementTick | tango/src/game/bn2/hooks.rs:376-403 | the tick advances by one exactly in a round whose state is committed |
| Bn2Hooks.Primary.StartRound | tango/src/game/bn2/hooks.rs:259-273 | in a match a round begins; without a match nothing changes |
| Bn2Hooks.Primary.EndRound | tango/src/game/bn2/hooks.rs:216-256 | in a match the round is over afterwards; without a match nothing changes |
| Bn2Hooks.ShadowInjection | tango/src/game/bn2/hooks.rs:408-480 | a pair one tick behind is skipped; a pair is injected exactly when both inputs and the saved remote packet are for the current tick; any other pair fails with the first failed check |
| Bn2Hooks.Shadow.CommMenuInit | tango/src/game/bn2/hooks.rs:483-500 | the RNG state becomes the other side's generated state and the background a drawn one |
| Bn2Hooks.Shadow.SendAndReceive | tango/src/game/bn2/hooks.rs:408-480 | outside a round nothing is taken and data is not ready; in a round the next pair is taken, and according to `ShadowInjection` the rx slots and saved packet are written, the error is recorded, or nothing else changes |
| Bn2Hooks.Shadow.ReadJoyflags | tango/src/game/bn2/hooks.rs:567-623 | before the first commit a non-linking read sets a fresh RNG state and a linking read commits; after it a failing pair records its error, and otherwise the remote buttons are injected and an injected input's state is applied at the current tick |
| Bn2Hooks.Shadow.CommMenuSendAndReceive | tango/src/game/bn2/hooks.rs:632-641 | both rx slots get the comm-menu packet and data is reported ready |
| Bn2Hooks.Shadow.LinkIsP2 | tango/src/game/bn2/hooks.rs:553-566 | during a round the hook reports the remote seat |
| Bn2Hooks.Shadow.SetResult | tango/src/game/bn2/hooks.rs:507-545 | the recorded result is the shadow's (mirrored) reading of the signal |
| Bn2Hooks.Shadow.StartRound | tango/src/game/bn2/hooks.rs:501-506 | a round begins |
| Bn2Hooks.Shadow.EndRound | tango/src/game/bn2/hooks.rs:546-552 | the round ends and the applied state is marked as tick 0 |
| Bn2Hooks.Shadow.IncrementTick | tango/src/game/bn2/hooks.rs:649-664 | the tick advances by one exactly in a round whose first state is committed |
| Bn2Hooks.ReplayerStep | tango/src/game/bn2/hooks.rs:669-747 | the replayer idles exactly when the round is not ending and no input is left; it replays exactly when the next pair and the saved local packet are for the current tick; otherwise it fails with the first failed check |
| Bn2Hooks.Replayer.SendAndReceive | tango/src/game/bn2/hooks.rs:669-747 | data is always ready; according to `ReplayerStep`, nothing changes, both slots get the idle packet, the error is recorded, or the local packet and the shadow's rx are written and the outgoing packet is saved |
| Bn2Hooks.Replayer.ReadJoyflags | tango/src/game/bn2/hooks.rs:797-839 | the committed state is saved at the commit tick; a failing pair records its error; otherwise the local buttons are injected and the dirty state is saved at the dirty tick |
| Bn2Hooks.Replayer.LinkIsP2 | tango/src/game/bn2/hooks.rs:761-769 | the hook reports the recorded side's seat |
| Bn2Hooks.Replayer.SetRoundEnding | tango/src/game/bn2/hooks.rs:770-789 | the round is marked as ending |
| Bn2Hooks.Replayer.SetRoundEnded | tango/src/game/bn2/hooks.rs:790-796 | the round is marked as ended |
| Bn2Hooks.Replayer.SetResult | tango/src/game/bn2/hooks.rs:855-889 | the recorded result is the replayer's reading of the signal |
| Bn2Hooks.Replayer.IncrementTick | tango/src/game/bn2/hooks.rs:848-854 | the tick always advances by one |

## Left out

- The file system walk of `scan_saves`, which skips unreadable entries and files, and its logging: `Saves.Scan.Register` takes one file's path and each game's parse outcome.
- Saves.SortByKey: states sortedness and permutation, not the stability of `sort_by_key`. The insertion sort is stable, but this is not proved.
- Saves.StrLe: compares file name components character by character, by code point, where the program compares the bytes of the operating system's file names. For UTF-8 names the two orders agree; file names that are not valid UTF-8 are not modelled.
- The game list of `scan_saves` is modelled as indexes `0..n`, one per game. The saves a game lists are generic.
- Saves.MaskSave and Saves.XorRange work on `int` bytes. The XOR is defined bit by bit rather than taken from the machine.
- Image, tile, palette and bitmap decoding: chip icons and images, element icons (beyond the id bound), NaviCust bitmaps and `navicust_bg`. These are pixel data with no logic beyond indexing.
- The text parser (`rom::text::parse_entry`, `parse_modcard56_effect`), the memory mapper and the pointer tables of the offsets files. A text table is passed in as what the parser makes of each entry. A data table is passed in as the bytes the mapper returns.
- Bn6Rom.ChipCodes: the `CHIP_CODES` index panic for a code byte outside the table is a `requires`.
- The charsets `EN_CHARSET` and `JA_CHARSET` and the modcard tables: they are data, passed in or named.
- `hooks()` of each BN4 game, the BN4 save module and the BN4 ROM reader. `Bn4.ParseSave` takes what the save module loaded as a parameter. The save module's result is therefore a parameter.
- Bn4.LoadRomAssets: `hasModcards` stands for `modcards::for_language`, which is not part of this model.
- BN1 `to_vec` and `as_raw_wram`: these parts of the BN1 save are not part of this model.
- The BN1 `Chip` entry: its layout (one id byte and one code-variant byte) is modelled as the BN1 source reads it. The shared `save::Chip` of the other games has an id and a code character instead.
- Panics: Rust slice indexing out of range and the code-table index become `requires` clauses that state exactly the in-bounds condition. Two examples:
  - a BN6 modcard count above 240 would read past the SRAM;
  - a chip's code byte outside the table would panic.
- The emulator: registers other than r0 and the joypad register, program-counter changes, the `thumb_pc` skips, `init_sio_call`, `skip_logo` and the other common traps, and `prepare_for_fastforward`.
- The munger's tx packet and the link's sequence number are parameters of the send-and-receive hooks.
- The conversion of an rx packet to the munger's fixed-size packet, which panics on a packet of the wrong length: rx packets are byte sequences here.
- The netplay session and its locks: `add_local_input_and_fastforward`, `advance_shadow_until_round_end` and match cancellation. The primary's round and match state are boolean fields.
- Bn2Hooks.Primary.StartRound, Bn2Hooks.Primary.EndRound and Bn2Hooks.Shadow.StartRound: they set only the in-round flag. What `start_round` and `end_round` do to the round's own bookkeeping (its tick and committed state) is in the match and shadow modules, which are not part of this model.
- The primary's `match_end_ret` hook, which completes the match's completion token: the token belongs to the session, which is not part of this model.
- The replayer's `apply_shadow_input`: the packet it returns is the `shadowRx` parameter of `Replayer.SendAndReceive`, because the replayer's shadow emulator is not part of this model.
- Random draws: `rand` is replaced by draws passed in, each within the range the source draws from.
- The replayer's `battle_start_play_music` hook (`disable_bgm`), which only skips a call in the emulator.
- Bn2Hooks.PredictRx: models the release-build wrap-around of the sequence number at 2^32, where a debug build would panic on overflow.
- `view_dark_ai` and `view_navi` of BN6, which the source has commented out.
- Discord integration, the GUI, the server and the theme.

## Findings

| source | as written | input that shows it | evidently intended | confidence | as-written member | corrected member |
|---|---|---|---|---|---|---|
| tango/src/game/bn1/save.rs:100-109 | `ChipsView::chip` refuses only `chip_index > 30` | folder 0, chip 30 is accepted and reads bytes 0x1fc and 0x1fd, just past the 30-entry folder at 0x1c0 | refuse `chip_index >= 30`, as the BN6 view does | medium, not executed | Bn1Save.FolderChipAsWritten | Bn1Save.FolderChip |
