/** The Mega Man Battle Network 6 ROM reader (tango/src/game/bn6/rom.rs):
    chip records, NaviCust part records and modcard records decoded from
    the ROM's data tables, with names and descriptions taken from the
    override tables when there are any and from the ROM's text otherwise.

    The memory mapper and the text parser are not part of this model: a
    data table is the run of bytes the mapper returns at its address, and a
    text table is what the parser makes of each entry (a missing entry is
    one the parser rejects). */
module Bn6Rom {
  import opened Bytes
  import Bn6Save

  const NUM_CHIPS: nat := 411
  const CHIP_RECORD_SIZE: nat := 0x2c
  const NUM_ELEMENT_ICONS: nat := 11
  const NUM_NAVICUST_PARTS: nat := 47
  const NUM_NAVICUST_VARIANTS: nat := 4
  const NAVICUST_RECORD_SIZE: nat := 0x10
  const NUM_MODCARD56S: nat := 118

  /** One piece of a parsed text entry. */
  datatype Part = Text(s: string) | Command(op: byte, params: seq<byte>)

  /** One piece of a modcard effect's name template. */
  datatype TemplatePart = TemplateText(s: string) | PrintVar(v: nat)

  /** A user-supplied name and description for one chip, part or modcard. */
  datatype TextOverride = TextOverride(name: Option<string>, description: Option<string>)

  datatype Overrides = Overrides(
    chips: Option<seq<TextOverride>>,
    navicustParts: Option<seq<TextOverride>>,
    modcard56s: Option<seq<TextOverride>>,
    modcard56Effects: Option<seq<Option<seq<TemplatePart>>>>,
    charset: Option<seq<string>>)

  /** What the ROM reader sees of the ROM and WRAM. Chip name and
      description tables are split in blocks of 0x100 entries, so they are
      indexed by (block, entry). */
  datatype Rom = Rom(
    chipData: seq<byte>,
    ncpData: seq<byte>,
    modcardData: seq<byte>,
    chipNames: map<(nat, nat), seq<Part>>,
    chipDescriptions: map<(nat, nat), seq<Part>>,
    ereaderDescriptions: map<nat, seq<Part>>,
    ncpNames: map<nat, seq<Part>>,
    ncpDescriptions: map<nat, seq<Part>>,
    modcardNames: map<nat, seq<Part>>,
    modcardEffectTemplates: map<nat, seq<TemplatePart>>)

  datatype Assets = Assets(rom: Rom, overrides: Overrides)

  /** A ROM whose chip and NaviCust tables hold every record the lookups can
      ask for. */
  predicate WellFormed(a: Assets)
  {
    |a.rom.chipData| >= NUM_CHIPS * CHIP_RECORD_SIZE
    && |a.rom.ncpData| >= NUM_NAVICUST_PARTS * NUM_NAVICUST_VARIANTS * NAVICUST_RECORD_SIZE
  }

  /** `Assets::new`: the text parser's charset is the override charset when
      there is one, the game's default otherwise. */
  function TextCharset(overrides: Overrides, defaultCharset: seq<string>): (r: seq<string>)
    ensures overrides.charset.Some? ==> r == overrides.charset.value
    ensures overrides.charset.None? ==> r == defaultCharset
  {
    match overrides.charset
    case Some(c) => c
    case None => defaultCharset
  }

  // ---------------------------------------------------------------------
  // Text

  /** The text of a parsed entry: its string parts in order, commands
      dropped. */
  function PlainText(parts: seq<Part>): (r: string)
  {
    if parts == [] then ""
    else PlainText(parts[..|parts| - 1]) + (match parts[|parts| - 1] case Text(s) => s case Command(_, _) => "")
  }

  /** The text of two runs of parts is the text of each, concatenated. */
  lemma {:induction false} PlainTextAppend(p: seq<Part>, q: seq<Part>)
    ensures PlainText(p + q) == PlainText(p) + PlainText(q)
    decreases |q|
  {
    if q == [] {
      assert p + q == p;
    } else {
      assert (p + q)[..|p + q| - 1] == p + q[..|q| - 1];
      PlainTextAppend(p, q[..|q| - 1]);
    }
  }

  /** Commands contribute nothing to the text. */
  lemma {:induction false} PlainTextOfCommands(parts: seq<Part>)
    requires forall i :: 0 <= i < |parts| ==> parts[i].Command?
    ensures PlainText(parts) == ""
  {
    if parts != [] {
      PlainTextOfCommands(parts[..|parts| - 1]);
    }
  }

  /** An override table's field for entry `id`: "???" when the table has no
      such entry or the entry leaves the field out. */
  function OverrideField(table: seq<TextOverride>, id: nat, name: bool): (r: string)
    ensures id >= |table| ==> r == "???"
    ensures id < |table| && name && table[id].name.Some? ==> r == table[id].name.value
    ensures id < |table| && !name && table[id].description.Some? ==> r == table[id].description.value
    ensures id < |table| && (if name then table[id].name.None? else table[id].description.None?) ==> r == "???"
  {
    if id >= |table| then "???"
    else
      var field := if name then table[id].name else table[id].description;
      match field
      case Some(s) => s
      case None => "???"
  }

  /** The plain text of a ROM text entry, "???" when it does not parse. */
  function EntryText<K>(table: map<K, seq<Part>>, key: K): (r: string)
    ensures key !in table ==> r == "???"
    ensures key in table ==> r == PlainText(table[key])
  {
    if key in table then PlainText(table[key]) else "???"
  }

  // ---------------------------------------------------------------------
  // Chips

  /** `Assets::chip`: a chip exists for ids below 411. */
  function ChipHandle(id: nat): (r: Option<nat>)
    ensures r.Some? <==> id < NUM_CHIPS
    ensures r.Some? ==> r.value == id
  {
    if id >= NUM_CHIPS then None else Some(id)
  }

  /** `Chip::raw_info`: the chip's 0x2c-byte record. */
  function ChipRawInfo(a: Assets, id: nat): (r: seq<byte>)
    requires WellFormed(a) && id < NUM_CHIPS
    ensures |r| == CHIP_RECORD_SIZE
    ensures forall k :: 0 <= k < CHIP_RECORD_SIZE ==> r[k] == a.rom.chipData[id * CHIP_RECORD_SIZE + k]
  {
    a.rom.chipData[id * CHIP_RECORD_SIZE..(id + 1) * CHIP_RECORD_SIZE]
  }

  /** `Chip::name`: from the override table when there is one, else the
      entry `id % 0x100` of text block `id / 0x100`. */
  function ChipName(a: Assets, id: nat): (r: string)
    ensures a.overrides.chips.Some? ==> r == OverrideField(a.overrides.chips.value, id, true)
    ensures a.overrides.chips.None? && (id / 0x100, id % 0x100) !in a.rom.chipNames ==> r == "???"
    ensures a.overrides.chips.None? && (id / 0x100, id % 0x100) in a.rom.chipNames ==>
              r == PlainText(a.rom.chipNames[(id / 0x100, id % 0x100)])
  {
    match a.overrides.chips
    case Some(table) => OverrideField(table, id, true)
    case None => EntryText(a.rom.chipNames, (id / 0x100, id % 0x100))
  }

  /** One part of a chip description: an e-Reader command stands for the
      text stored for the card number in its second parameter. */
  function DescriptionPartText(a: Assets, p: Part): (r: string)
    requires p.Command? && p.op == 0xff ==> |p.params| >= 2
    ensures p.Text? ==> r == p.s
    ensures p.Command? && p.op != 0xff ==> r == ""
  {
    match p
    case Text(s) => s
    case Command(op, params) =>
      if op == 0xff then EntryText(a.rom.ereaderDescriptions, params[1] as nat) else ""
  }

  predicate EreaderCommandsWellFormed(parts: seq<Part>)
  {
    forall i :: 0 <= i < |parts| ==> parts[i].Command? && parts[i].op == 0xff ==> |parts[i].params| >= 2
  }

  function DescriptionText(a: Assets, parts: seq<Part>): (r: string)
    requires EreaderCommandsWellFormed(parts)
  {
    if parts == [] then ""
    else DescriptionText(a, parts[..|parts| - 1]) + DescriptionPartText(a, parts[|parts| - 1])
  }

  /** Without e-Reader commands a description reads like any other text. */
  lemma {:induction false} DescriptionTextPlain(a: Assets, parts: seq<Part>)
    requires forall i :: 0 <= i < |parts| ==> !(parts[i].Command? && parts[i].op == 0xff)
    ensures EreaderCommandsWellFormed(parts)
    ensures DescriptionText(a, parts) == PlainText(parts)
  {
    if parts != [] {
      DescriptionTextPlain(a, parts[..|parts| - 1]);
    }
  }

  /** `Chip::description`: from the override table when there is one, else
      the ROM entry with e-Reader commands expanded. The text parser gives
      every e-Reader command its two parameters. */
  function ChipDescription(a: Assets, id: nat): (r: string)
    requires a.overrides.chips.None? && (id / 0x100, id % 0x100) in a.rom.chipDescriptions ==>
               EreaderCommandsWellFormed(a.rom.chipDescriptions[(id / 0x100, id % 0x100)])
    ensures a.overrides.chips.Some? ==> r == OverrideField(a.overrides.chips.value, id, false)
    ensures a.overrides.chips.None? && (id / 0x100, id % 0x100) !in a.rom.chipDescriptions ==> r == "???"
    ensures a.overrides.chips.None? && (id / 0x100, id % 0x100) in a.rom.chipDescriptions ==>
              r == DescriptionText(a, a.rom.chipDescriptions[(id / 0x100, id % 0x100)])
    ensures a.overrides.chips.None? && (id / 0x100, id % 0x100) in a.rom.chipDescriptions
            && (forall p :: p in a.rom.chipDescriptions[(id / 0x100, id % 0x100)] ==> !(p.Command? && p.op == 0xff)) ==>
              r == PlainText(a.rom.chipDescriptions[(id / 0x100, id % 0x100)])
  {
    match a.overrides.chips
    case Some(table) => OverrideField(table, id, false)
    case None =>
      var key := (id / 0x100, id % 0x100);
      if key in a.rom.chipDescriptions then
        var parts := a.rom.chipDescriptions[key];
        if forall p :: p in parts ==> !(p.Command? && p.op == 0xff) then
          DescriptionTextPlain(a, parts);
          DescriptionText(a, parts)
        else DescriptionText(a, parts)
      else "???"
  }

  /** With an override table, a chip's name and description do not depend on
      the ROM at all. */
  lemma ChipTextIgnoresRom(a: Assets, b: Assets, id: nat)
    requires a.overrides.chips.Some? && a.overrides == b.overrides
    ensures ChipName(a, id) == ChipName(b, id)
    ensures ChipDescription(a, id) == ChipDescription(b, id)
  {
  }

  const CHIP_CODES: string := "ABCDEFGHIJKLMNOPQRSTUVWXYZ*"

  /** Code bytes the code table can decode: 0xff marks an unused slot. */
  predicate CodeBytes(s: seq<byte>)
  {
    forall i :: 0 <= i < |s| ==> s[i] == 0xff || s[i] < |CHIP_CODES|
  }

  /** The codes named by a run of code bytes, unused slots skipped. */
  function CodesOf(s: seq<byte>): (r: string)
    requires CodeBytes(s)
    ensures |r| <= |s|
    ensures forall i :: 0 <= i < |r| ==> r[i] in CHIP_CODES
    ensures r == [] <==> forall i :: 0 <= i < |s| ==> s[i] == 0xff
  {
    if s == [] then []
    else
      var rest := CodesOf(s[1..]);
      if s[0] == 0xff then rest else [CHIP_CODES[s[0]]] + rest
  }

  lemma CodeBytesAppend(s: seq<byte>, t: seq<byte>)
    requires CodeBytes(s) && CodeBytes(t)
    ensures CodeBytes(s + t)
  {
    var u := s + t;
    forall i | 0 <= i < |u|
      ensures u[i] == 0xff || u[i] < |CHIP_CODES|
    {
      if i < |s| { assert u[i] == s[i]; } else { assert u[i] == t[i - |s|]; }
    }
  }

  /** Decoding code bytes piecewise gives the same codes. */
  lemma {:induction false} CodesOfAppend(s: seq<byte>, t: seq<byte>)
    requires CodeBytes(s) && CodeBytes(t)
    ensures CodeBytes(s + t)
    ensures CodesOf(s + t) == CodesOf(s) + CodesOf(t)
  {
    CodeBytesAppend(s, t);
    if s == [] {
      assert s + t == t;
    } else {
      var u := s + t;
      assert u[0] == s[0] && u[1..] == s[1..] + t;
      assert CodeBytes(s[1..]);
      CodesOfAppend(s[1..], t);
      var head: string := if s[0] == 0xff then [] else [CHIP_CODES[s[0]]];
      assert CodesOf(u) == head + CodesOf(s[1..] + t);
      assert CodesOf(s) == head + CodesOf(s[1..]);
    }
  }

  /** One code byte on its own: nothing for 0xff, else its table entry. */
  lemma CodesOfByte(b: byte)
    requires b == 0xff || b < |CHIP_CODES|
    ensures CodeBytes([b])
    ensures CodesOf([b]) == if b == 0xff then "" else [CHIP_CODES[b]]
  {
  }

  /** The code one byte names: none for 0xff, else its table entry. */
  function ByteCode(b: byte): (r: string)
    requires b == 0xff || b < |CHIP_CODES|
    ensures r == [] <==> b == 0xff
    ensures r != [] ==> r == [CHIP_CODES[b]]
  {
    if b == 0xff then "" else [CHIP_CODES[b]]
  }

  /** `Chip::codes`: the codes named by record bytes 0 to 3, in order, with
      every 0xff byte skipped. */
  function ChipCodes(a: Assets, id: nat): (r: string)
    requires WellFormed(a) && id < NUM_CHIPS
    requires CodeBytes(ChipRawInfo(a, id)[..4])
    ensures |r| <= 4
    ensures var raw := ChipRawInfo(a, id);
            r == ByteCode(raw[0]) + ByteCode(raw[1]) + ByteCode(raw[2]) + ByteCode(raw[3])
  {
    var raw := ChipRawInfo(a, id)[..4];
    assert raw == [raw[0]] + [raw[1]] + [raw[2]] + [raw[3]];
    CodesOfByte(raw[0]);
    CodesOfByte(raw[1]);
    CodesOfByte(raw[2]);
    CodesOfByte(raw[3]);
    CodesOfAppend([raw[0]], [raw[1]]);
    CodesOfAppend([raw[0]] + [raw[1]], [raw[2]]);
    CodesOfAppend([raw[0]] + [raw[1]] + [raw[2]], [raw[3]]);
    CodesOf(raw)
  }

  /** `Chip::element`: record byte 6. */
  function ChipElement(a: Assets, id: nat): (r: byte)
    requires WellFormed(a) && id < NUM_CHIPS
    ensures r == a.rom.chipData[id * CHIP_RECORD_SIZE + 6]
  {
    ChipRawInfo(a, id)[6]
  }

  datatype ChipClass = Standard | Mega | Giga | NoClass | ProgramAdvance

  /** The class byte's meaning; the source indexes a five-entry table with
      it. */
  function ClassOfByte(b: byte): (r: ChipClass)
    requires b < 5
  {
    [Standard, Mega, Giga, NoClass, ProgramAdvance][b]
  }

  function ClassByte(c: ChipClass): (b: byte)
  {
    match c
    case Standard => 0
    case Mega => 1
    case Giga => 2
    case NoClass => 3
    case ProgramAdvance => 4
  }

  /** Class bytes 0 to 4 and chip classes correspond one to one. */
  lemma ClassByteRoundTrip(b: byte, c: ChipClass)
    requires b < 5
    ensures ClassByte(ClassOfByte(b)) == b
    ensures ClassOfByte(ClassByte(c)) == c
  {
  }

  /** `Chip::class`: the class named by record byte 7. */
  function ChipClassOf(a: Assets, id: nat): (r: ChipClass)
    requires WellFormed(a) && id < NUM_CHIPS
    requires ChipRawInfo(a, id)[7] < 5
    ensures ClassByte(r) == a.rom.chipData[id * CHIP_RECORD_SIZE + 7]
  {
    ClassByteRoundTrip(ChipRawInfo(a, id)[7], Standard);
    ClassOfByte(ChipRawInfo(a, id)[7])
  }

  /** `Chip::dark`: BN6 has no dark chips. */
  function ChipDark(a: Assets, id: nat): (r: bool)
    ensures !r
  {
    false
  }

  /** `Chip::mb`: record byte 8. */
  function ChipMb(a: Assets, id: nat): (r: byte)
    requires WellFormed(a) && id < NUM_CHIPS
    ensures r == a.rom.chipData[id * CHIP_RECORD_SIZE + 8]
  {
    ChipRawInfo(a, id)[8]
  }

  /** `Chip::damage`: the little-endian u16 at 0x1a when it is below 1000,
      0 when it is not (a placeholder value). */
  function ChipDamage(a: Assets, id: nat): (r: nat)
    requires WellFormed(a) && id < NUM_CHIPS
    ensures r < 1000
    ensures LeU16(ChipRawInfo(a, id), 0x1a) < 1000 ==> r == LeU16(ChipRawInfo(a, id), 0x1a)
    ensures LeU16(ChipRawInfo(a, id), 0x1a) >= 1000 ==> r == 0
  {
    var damage := LeU16(ChipRawInfo(a, id), 0x1a);
    if damage < 1000 then damage else 0
  }

  /** `Assets::element_icon`: an icon exists for element ids below 11. */
  function ElementIconHandle(id: nat): (r: Option<nat>)
    ensures r.Some? <==> id < NUM_ELEMENT_ICONS
    ensures r.Some? ==> r.value == id
  {
    if id >= NUM_ELEMENT_ICONS then None else Some(id)
  }

  // ---------------------------------------------------------------------
  // NaviCust parts

  /** `Assets::navicust_part`: a part exists for ids below 47 and variants
      below 4. */
  function NavicustPartHandle(id: nat, variant: nat): (r: Option<(nat, nat)>)
    ensures r.Some? <==> id < NUM_NAVICUST_PARTS && variant < NUM_NAVICUST_VARIANTS
    ensures r.Some? ==> r.value == (id, variant)
  {
    if id >= NUM_NAVICUST_PARTS || variant >= NUM_NAVICUST_VARIANTS then None else Some((id, variant))
  }

  /** Index of a part's record: four variants per part. */
  function NavicustRecordIndex(id: nat, variant: nat): (i: nat)
    requires variant < NUM_NAVICUST_VARIANTS
    ensures i / NUM_NAVICUST_VARIANTS == id && i % NUM_NAVICUST_VARIANTS == variant
  {
    id * 4 + variant
  }

  /** `NavicustPart::raw_info`: the part's 16-byte record. */
  function NavicustRawInfo(a: Assets, id: nat, variant: nat): (r: seq<byte>)
    requires WellFormed(a) && id < NUM_NAVICUST_PARTS && variant < NUM_NAVICUST_VARIANTS
    ensures |r| == NAVICUST_RECORD_SIZE
    ensures forall k :: 0 <= k < NAVICUST_RECORD_SIZE ==>
              r[k] == a.rom.ncpData[NavicustRecordIndex(id, variant) * NAVICUST_RECORD_SIZE + k]
  {
    var i := NavicustRecordIndex(id, variant);
    a.rom.ncpData[i * NAVICUST_RECORD_SIZE..(i + 1) * NAVICUST_RECORD_SIZE]
  }

  /** `NavicustPart::name`: from the override table when there is one, else
      the part's ROM text entry. */
  function NavicustPartName(a: Assets, id: nat): (r: string)
    ensures a.overrides.navicustParts.Some? ==> r == OverrideField(a.overrides.navicustParts.value, id, true)
    ensures a.overrides.navicustParts.None? && id !in a.rom.ncpNames ==> r == "???"
    ensures a.overrides.navicustParts.None? && id in a.rom.ncpNames ==> r == PlainText(a.rom.ncpNames[id])
  {
    match a.overrides.navicustParts
    case Some(table) => OverrideField(table, id, true)
    case None => EntryText(a.rom.ncpNames, id)
  }

  /** `NavicustPart::description`: from the override table when there is
      one, else the part's ROM description entry. */
  function NavicustPartDescription(a: Assets, id: nat): (r: string)
    ensures a.overrides.navicustParts.Some? ==> r == OverrideField(a.overrides.navicustParts.value, id, false)
    ensures a.overrides.navicustParts.None? && id !in a.rom.ncpDescriptions ==> r == "???"
    ensures a.overrides.navicustParts.None? && id in a.rom.ncpDescriptions ==> r == PlainText(a.rom.ncpDescriptions[id])
  {
    match a.overrides.navicustParts
    case Some(table) => OverrideField(table, id, false)
    case None => EntryText(a.rom.ncpDescriptions, id)
  }

  /** With an override table, a part's name and description do not depend on
      the ROM. */
  lemma NavicustTextIgnoresRom(a: Assets, b: Assets, id: nat)
    requires a.overrides.navicustParts.Some? && a.overrides == b.overrides
    ensures NavicustPartName(a, id) == NavicustPartName(b, id)
    ensures NavicustPartDescription(a, id) == NavicustPartDescription(b, id)
  {
  }

  datatype NavicustPartColor = White | Yellow | Pink | Red | Blue | Green

  /** The colour byte's meaning: 1 to 6 name a colour, anything else none. */
  function ColorOfByte(b: byte): (r: Option<NavicustPartColor>)
    ensures r.Some? <==> 1 <= b <= 6
  {
    match b
    case 1 => Some(White)
    case 2 => Some(Yellow)
    case 3 => Some(Pink)
    case 4 => Some(Red)
    case 5 => Some(Blue)
    case 6 => Some(Green)
    case _ => None
  }

  function ColorByte(c: NavicustPartColor): (b: byte)
  {
    match c
    case White => 1
    case Yellow => 2
    case Pink => 3
    case Red => 4
    case Blue => 5
    case Green => 6
  }

  /** Colour bytes 1 to 6 and colours correspond one to one. */
  lemma ColorByteRoundTrip(b: byte, c: NavicustPartColor)
    ensures ColorOfByte(ColorByte(c)) == Some(c)
    ensures ColorOfByte(b).Some? ==> ColorByte(ColorOfByte(b).value) == b
  {
  }

  /** `NavicustPart::color`: the colour named by record byte 3. */
  function NavicustPartColorOf(a: Assets, id: nat, variant: nat): (r: Option<NavicustPartColor>)
    requires WellFormed(a) && id < NUM_NAVICUST_PARTS && variant < NUM_NAVICUST_VARIANTS
    ensures r.Some? <==> 1 <= NavicustRawInfo(a, id, variant)[3] <= 6
    ensures r.Some? ==> ColorByte(r.value) == NavicustRawInfo(a, id, variant)[3]
  {
    ColorByteRoundTrip(NavicustRawInfo(a, id, variant)[3], White);
    ColorOfByte(NavicustRawInfo(a, id, variant)[3])
  }

  /** `NavicustPart::is_solid`: record byte 1 is zero. */
  function NavicustPartIsSolid(a: Assets, id: nat, variant: nat): (r: bool)
    requires WellFormed(a) && id < NUM_NAVICUST_PARTS && variant < NUM_NAVICUST_VARIANTS
    ensures r <==> a.rom.ncpData[NavicustRecordIndex(id, variant) * NAVICUST_RECORD_SIZE + 1] == 0
  {
    NavicustRawInfo(a, id, variant)[1] == 0
  }

  /** A part placed in a save's NaviCust is looked up in the ROM by the
      record index the save stores: the first byte of the save's part
      record is the ROM record index. */
  lemma {:induction false} SavedPartRecord(s: Bn6Save.Save, i: nat, a: Assets)
    requires WellFormed(a)
    requires Bn6Save.NavicustPartAt(s, i).Some?
    requires Bn6Save.NavicustPartAt(s, i).value.id < NUM_NAVICUST_PARTS
    ensures var p := Bn6Save.NavicustPartAt(s, i).value;
            NavicustPartHandle(p.id, p.variant) == Some((p.id, p.variant))
            && NavicustRecordIndex(p.id, p.variant) == s.buf[Bn6Save.NavicustOffset(s) + i * 8]
  {
    var p := Bn6Save.NavicustPartAt(s, i).value;
    var rec := s.buf[Bn6Save.NavicustOffset(s) + i * 8..Bn6Save.NavicustOffset(s) + (i + 1) * 8];
    assert rec[0] == s.buf[Bn6Save.NavicustOffset(s) + i * 8];
  }

  // ---------------------------------------------------------------------
  // Modcards

  /** `Assets::modcard56`: a modcard exists for ids below 118. */
  function Modcard56Handle(id: nat): (r: Option<nat>)
    ensures r.Some? <==> id < NUM_MODCARD56S
    ensures r.Some? ==> r.value == id
  {
    if id >= NUM_MODCARD56S then None else Some(id)
  }

  /** The offset table at the start of the modcard data has entries `id` and
      `id + 1`, and they bound a slice of the data. */
  predicate ModcardRecordInRange(a: Assets, id: nat)
  {
    var buf := a.rom.modcardData;
    (id + 2) * 2 <= |buf| && LeU16(buf, id * 2) <= LeU16(buf, (id + 1) * 2) <= |buf|
  }

  /** `Modcard56::raw_info`: the data between the offsets in table entries
      `id` and `id + 1`. */
  function ModcardRawInfo(a: Assets, id: nat): (r: seq<byte>)
    requires ModcardRecordInRange(a, id)
    ensures |r| == LeU16(a.rom.modcardData, (id + 1) * 2) - LeU16(a.rom.modcardData, id * 2)
    ensures forall k :: 0 <= k < |r| ==> r[k] == a.rom.modcardData[LeU16(a.rom.modcardData, id * 2) + k]
  {
    var buf := a.rom.modcardData;
    buf[LeU16(buf, id * 2)..LeU16(buf, (id + 1) * 2)]
  }

  /** `Modcard56::name`: empty for modcard 0, else from the override table
      when there is one, else the modcard's ROM text entry. */
  function Modcard56Name(a: Assets, id: nat): (r: string)
    ensures id == 0 ==> r == ""
    ensures id != 0 && a.overrides.modcard56s.Some? ==> r == OverrideField(a.overrides.modcard56s.value, id, true)
    ensures id != 0 && a.overrides.modcard56s.None? && id !in a.rom.modcardNames ==> r == "???"
    ensures id != 0 && a.overrides.modcard56s.None? && id in a.rom.modcardNames ==>
              r == PlainText(a.rom.modcardNames[id])
  {
    if id == 0 then ""
    else
      match a.overrides.modcard56s
      case Some(table) => OverrideField(table, id, true)
      case None => EntryText(a.rom.modcardNames, id)
  }

  /** `Modcard56::mb`: 0 for modcard 0, else byte 1 of its record. */
  function Modcard56Mb(a: Assets, id: nat): (r: byte)
    requires id != 0 ==> ModcardRecordInRange(a, id) && |ModcardRawInfo(a, id)| >= 2
    ensures id == 0 ==> r == 0
    ensures id != 0 ==> r == a.rom.modcardData[LeU16(a.rom.modcardData, id * 2) + 1]
  {
    if id == 0 then 0 else ModcardRawInfo(a, id)[1]
  }

  datatype Modcard56Effect = Modcard56Effect(id: byte, name: string, parameter: byte, isDebuff: bool, isAbility: bool)

  /** Decimal digits of `n`, most significant first, as `format!("{}", n)`
      writes them. */
  function Decimal(n: nat): (r: string)
    ensures |r| >= 1
    ensures forall i :: 0 <= i < |r| ==> '0' <= r[i] <= '9'
    ensures r[0] == '0' ==> n == 0
  {
    if n < 10 then ['0' + n as char] else Decimal(n / 10) + ['0' + (n % 10) as char]
  }

  /** The number a string of decimal digits denotes. */
  function DecimalValue(s: string): (n: nat)
    requires forall i :: 0 <= i < |s| ==> '0' <= s[i] <= '9'
  {
    if s == [] then 0 else 10 * DecimalValue(s[..|s| - 1]) + (s[|s| - 1] - '0') as nat
  }

  /** Reading back the digits gives the number. */
  lemma {:induction false} DecimalRoundTrip(n: nat)
    ensures DecimalValue(Decimal(n)) == n
  {
    var d := Decimal(n);
    if n >= 10 {
      DecimalRoundTrip(n / 10);
      assert d[..|d| - 1] == Decimal(n / 10);
    }
  }

  /** A `PrintVar` placeholder with its value: variable 1 is the effect's
      parameter, scaled by ten for effects 0x00 and 0x02; any other variable
      renders as nothing. */
  function RenderPart(p: TemplatePart, effectId: byte, parameter: byte): (r: string)
    ensures p.TemplateText? ==> r == p.s
    ensures p.PrintVar? && p.v != 1 ==> r == ""
    ensures p.PrintVar? && p.v == 1 ==>
              (forall i :: 0 <= i < |r| ==> '0' <= r[i] <= '9') &&
              DecimalValue(r) == (if effectId == 0x00 || effectId == 0x02 then parameter * 10 else parameter)
  {
    match p
    case TemplateText(s) => s
    case PrintVar(v) =>
      if v == 1 then
        var value := if effectId == 0x00 || effectId == 0x02 then parameter * 10 else parameter;
        DecimalRoundTrip(value);
        Decimal(value)
      else ""
  }

  function RenderTemplate(t: seq<TemplatePart>, effectId: byte, parameter: byte): (r: string)
  {
    if t == [] then "" else RenderTemplate(t[..|t| - 1], effectId, parameter) + RenderPart(t[|t| - 1], effectId, parameter)
  }

  /** A template that prints no parameter renders the same whatever the
      parameter is. */
  lemma {:induction false} RenderTemplateIgnoresParameter(t: seq<TemplatePart>, effectId: byte, p: byte, q: byte)
    requires forall i :: 0 <= i < |t| ==> t[i] != PrintVar(1)
    ensures RenderTemplate(t, effectId, p) == RenderTemplate(t, effectId, q)
  {
    if t != [] {
      RenderTemplateIgnoresParameter(t[..|t| - 1], effectId, p, q);
    }
  }

  /** The name template of an effect: from the override table when there is
      one ("???" for a missing entry), else the ROM's template ("???" when
      the entry does not parse). */
  function EffectTemplate(a: Assets, effectId: byte): (r: seq<TemplatePart>)
    ensures a.overrides.modcard56Effects.Some? ==>
              var table := a.overrides.modcard56Effects.value;
              r == if effectId < |table| && table[effectId].Some? then table[effectId].value
                   else [TemplateText("???")]
    ensures a.overrides.modcard56Effects.None? ==>
              r == if effectId as nat in a.rom.modcardEffectTemplates then a.rom.modcardEffectTemplates[effectId as nat]
                   else [TemplateText("???")]
  {
    match a.overrides.modcard56Effects
    case Some(table) =>
      if effectId < |table| && table[effectId].Some? then table[effectId].value else [TemplateText("???")]
    case None =>
      if effectId as nat in a.rom.modcardEffectTemplates then a.rom.modcardEffectTemplates[effectId as nat]
      else [TemplateText("???")]
  }

  /** One three-byte effect record: effect id, parameter, and 1 for a
      debuff; effects above 0x15 are abilities. */
  function EffectOf(a: Assets, c0: byte, c1: byte, c2: byte): (e: Modcard56Effect)
    ensures e.id == c0 && e.parameter == c1
    ensures e.isDebuff <==> c2 == 1
    ensures e.isAbility <==> c0 > 0x15
    ensures e.name == RenderTemplate(EffectTemplate(a, c0), c0, c1)
  {
    Modcard56Effect(c0, RenderTemplate(EffectTemplate(a, c0), c0, c1), c1, c2 == 1, c0 > 0x15)
  }

  /** `s.chunks(3)` on a run whose length is a multiple of three: the
      consecutive three-byte pieces, in order. */
  function Chunks3(s: seq<byte>): (r: seq<seq<byte>>)
    requires |s| % 3 == 0
    ensures |r| == |s| / 3
    ensures forall k :: 0 <= k < |r| ==> r[k] == s[3 * k..3 * k + 3]
    decreases |s|
  {
    if s == [] then []
    else
      var rest := Chunks3(s[3..]);
      assert forall k :: 1 <= k <= |rest| ==> s[3..][3 * (k - 1)..3 * (k - 1) + 3] == s[3 * k..3 * k + 3];
      [s[..3]] + rest
  }

  /** The chunks concatenate back to the run they were cut from. */
  lemma {:induction false} Chunks3Flatten(s: seq<byte>)
    requires |s| % 3 == 0
    ensures Flatten(Chunks3(s)) == s
    decreases |s|
  {
    if s != [] {
      Chunks3Flatten(s[3..]);
      assert Chunks3(s) == [s[..3]] + Chunks3(s[3..]);
      assert s == s[..3] + s[3..];
    }
  }

  function Flatten(c: seq<seq<byte>>): (r: seq<byte>)
  {
    if c == [] then [] else c[0] + Flatten(c[1..])
  }

  /** The effect records in `chunks`, in order. */
  function EffectsOf(a: Assets, chunks: seq<byte>): (r: seq<Modcard56Effect>)
    requires |chunks| % 3 == 0
    ensures |r| == |chunks| / 3
    ensures forall k :: 0 <= k < |r| ==> r[k] == EffectOf(a, chunks[3 * k], chunks[3 * k + 1], chunks[3 * k + 2])
  {
    var pieces := Chunks3(chunks);
    assert forall k :: 0 <= k < |pieces| ==>
             pieces[k][0] == chunks[3 * k] && pieces[k][1] == chunks[3 * k + 1] && pieces[k][2] == chunks[3 * k + 2];
    seq(|pieces|, k requires 0 <= k < |pieces| => EffectOf(a, pieces[k][0], pieces[k][1], pieces[k][2]))
  }

  /** `Modcard56::effects`: none for modcard 0; otherwise the record after
      its three header bytes, cut into three-byte effects. The source indexes
      every chunk up to its third byte, so the record must split evenly. */
  function Modcard56Effects(a: Assets, id: nat): (r: seq<Modcard56Effect>)
    requires id != 0 ==>
               ModcardRecordInRange(a, id) && |ModcardRawInfo(a, id)| >= 3 && (|ModcardRawInfo(a, id)| - 3) % 3 == 0
    ensures id == 0 ==> r == []
    ensures id != 0 ==> |r| == (|ModcardRawInfo(a, id)| - 3) / 3
    ensures id != 0 ==> forall k :: 0 <= k < |r| ==>
              r[k].id == ModcardRawInfo(a, id)[3 + 3 * k]
              && r[k].parameter == ModcardRawInfo(a, id)[3 + 3 * k + 1]
              && (r[k].isDebuff <==> ModcardRawInfo(a, id)[3 + 3 * k + 2] == 1)
              && (r[k].isAbility <==> r[k].id > 0x15)
    ensures id != 0 ==> forall k :: 0 <= k < |r| ==>
              var raw := ModcardRawInfo(a, id);
              r[k] == EffectOf(a, raw[3 + 3 * k], raw[3 + 3 * k + 1], raw[3 + 3 * k + 2])
  {
    if id == 0 then []
    else
      var raw := ModcardRawInfo(a, id);
      var r := EffectsOf(a, raw[3..]);
      assert forall k :: 0 <= k < |r| ==>
               raw[3..][3 * k] == raw[3 + 3 * k]
               && raw[3..][3 * k + 1] == raw[3 + 3 * k + 1]
               && raw[3..][3 * k + 2] == raw[3 + 3 * k + 2];
      r
  }
}
