/** The game-independent save-file layer (tango/src/save.rs): the SRAM XOR
    mask, the raw additive checksum, the record types the save views return,
    the defaults every save view starts from, and the bookkeeping of a save
    scan (which games a file is registered under, and the order of the saves
    listed for each game). */
module Saves {
  import opened Bytes

  // ---------------------------------------------------------------------
  // mask_save

  /** The buffer after `mask_save(buf, maskOffset)`: every byte is XORed with
      the low byte of the little-endian word at `maskOffset`, and that word is
      then written back, so the mask itself survives. */
  function Masked(buf: seq<byte>, maskOffset: nat): (r: seq<byte>)
    requires maskOffset + 4 <= |buf|
    ensures |r| == |buf|
    ensures r[maskOffset..maskOffset + 4] == buf[maskOffset..maskOffset + 4]
    ensures forall i :: 0 <= i < |buf| && !(maskOffset <= i < maskOffset + 4) ==>
              r[i] == Xor(buf[i], buf[maskOffset])
  {
    var mask := LeU32(buf, maskOffset);
    LeU32LowByte(buf, maskOffset);
    LeBytes32OfLeU32(buf, maskOffset);
    var xored := seq(|buf|, i requires 0 <= i < |buf| => Xor(buf[i], mask % 0x100));
    xored[..maskOffset] + LeBytes32(mask) + xored[maskOffset + 4..]
  }

  /** Masking twice restores the original buffer. */
  lemma MaskedInvolutive(buf: seq<byte>, maskOffset: nat)
    requires maskOffset + 4 <= |buf|
    ensures Masked(Masked(buf, maskOffset), maskOffset) == buf
  {
    var once := Masked(buf, maskOffset);
    var twice := Masked(once, maskOffset);
    assert once[maskOffset] == once[maskOffset..maskOffset + 4][0] == buf[maskOffset];
    forall i | 0 <= i < |buf|
      ensures twice[i] == buf[i]
    {
      if maskOffset <= i < maskOffset + 4 {
        assert twice[i] == twice[maskOffset..maskOffset + 4][i - maskOffset];
        assert buf[i] == buf[maskOffset..maskOffset + 4][i - maskOffset];
      } else {
        XorInvolutive(buf[i], buf[maskOffset]);
      }
    }
  }

  /** A buffer that keeps the mask word and XORs every other byte with the
      word's first byte is the masked buffer. */
  lemma MaskedCharacterised(buf: seq<byte>, maskOffset: nat, r: seq<byte>)
    requires maskOffset + 4 <= |buf| == |r|
    requires forall i :: maskOffset <= i < maskOffset + 4 ==> r[i] == buf[i]
    requires forall i :: 0 <= i < |buf| && !(maskOffset <= i < maskOffset + 4) ==>
               r[i] == Xor(buf[i], buf[maskOffset])
    ensures r == Masked(buf, maskOffset)
  {
    var m := Masked(buf, maskOffset);
    forall i | maskOffset <= i < maskOffset + 4
      ensures m[i] == buf[i]
    {
      assert m[i] == m[maskOffset..maskOffset + 4][i - maskOffset];
      assert buf[i] == buf[maskOffset..maskOffset + 4][i - maskOffset];
    }
  }

  /** `mask_save` applied to the slice `a[lo..hi]` of a mutable buffer, the
      mask word sitting at `maskOffset` within the slice. */
  method MaskSave(a: array<byte>, lo: nat, hi: nat, maskOffset: nat)
    requires lo <= hi <= a.Length
    requires maskOffset + 4 <= hi - lo
    modifies a
    ensures a[..] == old(a[..lo]) + Masked(old(a[lo..hi]), maskOffset) + old(a[hi..])
  {
    ghost var before := a[..];
    var mask := LeU32(a[lo..hi], maskOffset);
    MaskWordFacts(before, lo, hi, maskOffset);
    XorRange(a, lo, hi, mask % 0x100);
    ghost var mid := a[..];
    WriteLeU32(a, lo + maskOffset, mask);
    MaskSteps(before, mid, a[..], lo, hi, maskOffset);
  }

  /** The mask word of the window, read as a little-endian u32: its low byte
      is the window's mask byte and writing it back restores the word. */
  lemma MaskWordFacts(before: seq<byte>, lo: nat, hi: nat, maskOffset: nat)
    requires lo <= hi <= |before|
    requires maskOffset + 4 <= hi - lo
    ensures LeU32(before[lo..hi], maskOffset) % 0x100 == before[lo + maskOffset]
    ensures forall j :: 0 <= j < 4 ==> LeBytes32(LeU32(before[lo..hi], maskOffset))[j] == before[lo + maskOffset + j]
  {
    LeU32LowByte(before[lo..hi], maskOffset);
    LeBytes32OfLeU32(before[lo..hi], maskOffset);
  }

  /** The two steps of `mask_save` on snapshots of the buffer: `mid` after the
      XOR loop, `after` once the mask word is written back. */
  lemma MaskSteps(before: seq<byte>, mid: seq<byte>, after: seq<byte>, lo: nat, hi: nat, maskOffset: nat)
    requires lo <= hi <= |before| == |mid| == |after|
    requires maskOffset + 4 <= hi - lo
    requires forall k :: lo <= k < hi ==> mid[k] == Xor(before[k], LeU32(before[lo..hi], maskOffset) % 0x100)
    requires forall k :: 0 <= k < lo || hi <= k < |before| ==> mid[k] == before[k]
    requires forall j :: 0 <= j < 4 ==> after[lo + maskOffset + j] == LeBytes32(LeU32(before[lo..hi], maskOffset))[j]
    requires forall k :: 0 <= k < |after| && !(lo + maskOffset <= k < lo + maskOffset + 4) ==> after[k] == mid[k]
    ensures after == before[..lo] + Masked(before[lo..hi], maskOffset) + before[hi..]
  {
    MaskWordFacts(before, lo, hi, maskOffset);
    forall k | lo + maskOffset <= k < lo + maskOffset + 4
      ensures after[k] == before[k]
    {
      var j := k - lo - maskOffset;
      assert 0 <= j < 4 && k == lo + maskOffset + j;
      assert after[lo + maskOffset + j] == LeBytes32(LeU32(before[lo..hi], maskOffset))[j];
    }
    MaskedWindow(before, after, lo, hi, maskOffset);
  }

  /** The effect of the two steps of `mask_save` on the whole buffer: the
      window XORed with the mask byte, then the mask word restored. */
  lemma MaskedWindow(before: seq<byte>, after: seq<byte>, lo: nat, hi: nat, maskOffset: nat)
    requires lo <= hi <= |before| == |after|
    requires maskOffset + 4 <= hi - lo
    requires forall k :: lo <= k < hi && !(lo + maskOffset <= k < lo + maskOffset + 4) ==>
               after[k] == Xor(before[k], before[lo + maskOffset])
    requires forall k :: lo + maskOffset <= k < lo + maskOffset + 4 ==> after[k] == before[k]
    requires forall k :: 0 <= k < lo || hi <= k < |before| ==> after[k] == before[k]
    ensures after == before[..lo] + Masked(before[lo..hi], maskOffset) + before[hi..]
  {
    var window := before[lo..hi];
    var r := after[lo..hi];
    MaskedCharacterised(window, maskOffset, r);
  }

  /** The loop of `mask_save`: XOR every byte of `a[lo..hi]` with `m`. */
  method XorRange(a: array<byte>, lo: nat, hi: nat, m: byte)
    requires lo <= hi <= a.Length
    modifies a
    ensures forall k :: lo <= k < hi ==> a[k] == Xor(old(a[k]), m)
    ensures forall k :: 0 <= k < lo || hi <= k < a.Length ==> a[k] == old(a[k])
  {
    var i := lo;
    while i < hi
      invariant lo <= i <= hi
      invariant forall k :: lo <= k < i ==> a[k] == Xor(old(a[k]), m)
      invariant forall k :: 0 <= k < lo || i <= k < a.Length ==> a[k] == old(a[k])
    {
      a[i] := Xor(a[i], m);
      i := i + 1;
    }
  }

  /** `byteorder::LittleEndian::write_u32(&mut a[at..at + 4], v)`. */
  method WriteLeU32(a: array<byte>, at: nat, v: u32)
    requires at + 4 <= a.Length
    modifies a
    ensures forall j :: 0 <= j < 4 ==> a[at + j] == LeBytes32(v)[j]
    ensures forall k :: 0 <= k < a.Length && !(at <= k < at + 4) ==> a[k] == old(a[k])
  {
    var word := LeBytes32(v);
    a[at] := word[0];
    a[at + 1] := word[1];
    a[at + 2] := word[2];
    a[at + 3] := word[3];
  }

  // ---------------------------------------------------------------------
  // compute_save_raw_checksum

  /** The sum of all bytes less the sum of the four checksum bytes: the sum of
      every byte outside the checksum word. The subtraction never underflows,
      and the result fits a u32 for any buffer below 16 MiB. */
  function ComputeSaveRawChecksum(buf: seq<byte>, checksumOffset: nat): (r: nat)
    requires checksumOffset + 4 <= |buf|
    ensures r == Sum(buf[..checksumOffset]) + Sum(buf[checksumOffset + 4..])
    ensures r <= 0xff * (|buf| - 4)
  {
    SumAroundWord(buf, checksumOffset);
    SumBound(buf[..checksumOffset]);
    SumBound(buf[checksumOffset + 4..]);
    Sum(buf) - Sum(buf[checksumOffset..checksumOffset + 4])
  }

  /** Rewriting the checksum word does not change the raw checksum. */
  lemma RawChecksumIgnoresWord(a: seq<byte>, b: seq<byte>, checksumOffset: nat)
    requires checksumOffset + 4 <= |a| == |b|
    requires forall i :: 0 <= i < |a| && !(checksumOffset <= i < checksumOffset + 4) ==> a[i] == b[i]
    ensures ComputeSaveRawChecksum(a, checksumOffset) == ComputeSaveRawChecksum(b, checksumOffset)
  {
    assert a[..checksumOffset] == b[..checksumOffset];
    assert a[checksumOffset + 4..] == b[checksumOffset + 4..];
  }

  /** Writing a little-endian word into a buffer: the word reads back, and
      no other byte changes. */
  lemma WordWritten(buf: seq<byte>, o: nat, v: u32)
    requires o + 4 <= |buf|
    ensures var b := buf[..o] + LeBytes32(v) + buf[o + 4..];
            |b| == |buf| && LeU32(b, o) == v
            && forall i :: 0 <= i < |buf| && !(o <= i < o + 4) ==> b[i] == buf[i]
  {
    var w := LeBytes32(v);
    var b := buf[..o] + w + buf[o + 4..];
    assert b[o] == w[0] && b[o + 1] == w[1] && b[o + 2] == w[2] && b[o + 3] == w[3];
    forall i | 0 <= i < |buf| && !(o <= i < o + 4)
      ensures b[i] == buf[i]
    {
      if i < o {
        assert b[i] == buf[..o][i];
      } else {
        assert b[i] == buf[o + 4..][i - o - 4];
      }
    }
  }

  // ---------------------------------------------------------------------
  // What the save views return

  datatype Chip = Chip(id: nat, code: char)

  datatype Modcard = Modcard(id: nat, enabled: bool)

  datatype NavicustPart = NavicustPart(id: nat, variant: nat, col: byte, row: byte, rot: byte, compressed: bool)

  /** Which optional views a save offers (`Save::view_chips`, `view_modcards`,
      `view_navicust`, `view_dark_ai`, `view_navi`). */
  datatype Views = Views(chips: bool, modcards: bool, navicust: bool, darkAi: bool, navi: bool)

  /** The trait's defaults: a save offers no view unless its game says so. */
  function DefaultViews(): (v: Views)
    ensures !v.chips && !v.modcards && !v.navicust && !v.darkAi && !v.navi
  {
    Views(false, false, false, false, false)
  }

  /** The constant answers of a chips view: number of folders, the equipped
      folder, whether the regular chip stays in place, and whether chips
      carry MB. */
  datatype ChipsShape = ChipsShape(numFolders: nat, equippedFolder: nat, regularChipInPlace: bool, chipsHaveMb: bool)

  /** A chips view that keeps the trait default for `chips_have_mb`. */
  function ChipsShapeWithDefaults(numFolders: nat, equippedFolder: nat, regularChipInPlace: bool): (c: ChipsShape)
    ensures c.chipsHaveMb
    ensures c.numFolders == numFolders && c.equippedFolder == equippedFolder
    ensures c.regularChipInPlace == regularChipInPlace
  {
    ChipsShape(numFolders, equippedFolder, regularChipInPlace, true)
  }

  /** The constant answers of a NaviCust view. */
  datatype NavicustShape = NavicustShape(count: nat, style: Option<nat>, width: nat, height: nat, commandLine: nat, hasOutOfBounds: bool)

  /** A NaviCust view that keeps the trait defaults for `count` and `style`. */
  function NavicustShapeWithDefaults(width: nat, height: nat, commandLine: nat, hasOutOfBounds: bool): (n: NavicustShape)
    ensures n.count == 25 && n.style == None
    ensures n.width == width && n.height == height
    ensures n.commandLine == commandLine && n.hasOutOfBounds == hasOutOfBounds
  {
    NavicustShape(25, None, width, height, commandLine, hasOutOfBounds)
  }

  // ---------------------------------------------------------------------
  // scan_saves: ordering of the saves listed for one game

  /** A path as the list of its components. */
  type Path = seq<string>

  datatype ScannedSave<S> = ScannedSave(path: Path, save: S)

  /** Lexicographic order on one path component (code-point order, which is
      the byte order of the component's UTF-8 encoding). */
  predicate StrLe(a: string, b: string)
  {
    a == [] || (b != [] && (a[0] < b[0] || (a[0] == b[0] && StrLe(a[1..], b[1..]))))
  }

  /** Lexicographic order on lists of components. */
  predicate ComponentsLe(a: Path, b: Path)
  {
    a == [] || (b != [] && ((a[0] != b[0] && StrLe(a[0], b[0])) || (a[0] == b[0] && ComponentsLe(a[1..], b[1..]))))
  }

  /** The order `sort_by_key` establishes with the key
      `(-(number of components), components)`: deeper paths first, then
      lexicographic by components. */
  predicate KeyLe(a: Path, b: Path)
  {
    |a| > |b| || (|a| == |b| && ComponentsLe(a, b))
  }

  lemma {:induction false} StrLeTotal(a: string, b: string)
    ensures StrLe(a, b) || StrLe(b, a)
  {
    if a != [] && b != [] && a[0] == b[0] {
      StrLeTotal(a[1..], b[1..]);
    }
  }

  lemma {:induction false} StrLeAntisymmetric(a: string, b: string)
    requires StrLe(a, b) && StrLe(b, a)
    ensures a == b
  {
    if a != [] {
      StrLeAntisymmetric(a[1..], b[1..]);
      assert a == [a[0]] + a[1..];
      assert b == [b[0]] + b[1..];
    }
  }

  lemma {:induction false} StrLeTransitive(a: string, b: string, c: string)
    requires StrLe(a, b) && StrLe(b, c)
    ensures StrLe(a, c)
  {
    if a != [] && a[0] == b[0] && b[0] == c[0] {
      StrLeTransitive(a[1..], b[1..], c[1..]);
    }
  }

  lemma {:induction false} ComponentsLeTotal(a: Path, b: Path)
    ensures ComponentsLe(a, b) || ComponentsLe(b, a)
  {
    if a != [] && b != [] {
      if a[0] == b[0] {
        ComponentsLeTotal(a[1..], b[1..]);
      } else {
        StrLeTotal(a[0], b[0]);
      }
    }
  }

  lemma {:induction false} ComponentsLeTransitive(a: Path, b: Path, c: Path)
    requires ComponentsLe(a, b) && ComponentsLe(b, c)
    ensures ComponentsLe(a, c)
  {
    if a != [] {
      if a[0] == b[0] && b[0] == c[0] {
        ComponentsLeTransitive(a[1..], b[1..], c[1..]);
      } else if a[0] == b[0] || b[0] == c[0] {
      } else {
        StrLeTransitive(a[0], b[0], c[0]);
        if a[0] == c[0] {
          StrLeAntisymmetric(a[0], b[0]);
        }
      }
    }
  }

  lemma KeyLeTotal(a: Path, b: Path)
    ensures KeyLe(a, b) || KeyLe(b, a)
  {
    ComponentsLeTotal(a, b);
  }

  lemma KeyLeTransitive(a: Path, b: Path, c: Path)
    requires KeyLe(a, b) && KeyLe(b, c)
    ensures KeyLe(a, c)
  {
    if |a| == |b| == |c| {
      ComponentsLeTransitive(a, b, c);
    }
  }

  ghost predicate SortedByKey<S>(s: seq<ScannedSave<S>>)
  {
    forall i, j :: 0 <= i < j < |s| ==> KeyLe(s[i].path, s[j].path)
  }

  /** `saves.sort_by_key(...)`, in place (an insertion sort, which is stable
      like the source's). */
  method SortByKey<S>(a: array<ScannedSave<S>>)
    modifies a
    ensures SortedByKey(a[..])
    ensures multiset(a[..]) == multiset(old(a[..]))
  {
    var i := 0;
    while i < a.Length
      invariant 0 <= i <= a.Length
      invariant forall x, y :: 0 <= x < y < i ==> KeyLe(a[x].path, a[y].path)
      invariant multiset(a[..]) == multiset(old(a[..]))
    {
      InsertIntoSorted(a, i);
      i := i + 1;
    }
  }

  /** One insertion step: `a[i]` moves down past every element above it in
      the order, so that `a[..i + 1]` is ordered. */
  method InsertIntoSorted<S>(a: array<ScannedSave<S>>, i: nat)
    requires i < a.Length
    requires forall x, y :: 0 <= x < y < i ==> KeyLe(a[x].path, a[y].path)
    modifies a
    ensures forall x, y :: 0 <= x < y <= i ==> KeyLe(a[x].path, a[y].path)
    ensures multiset(a[..]) == multiset(old(a[..]))
  {
    var j := i;
    while j > 0 && !KeyLe(a[j - 1].path, a[j].path)
      invariant 0 <= j <= i
      invariant forall x, y :: 0 <= x < y <= i && x != j && y != j ==> KeyLe(a[x].path, a[y].path)
      invariant forall y :: j < y <= i ==> KeyLe(a[j].path, a[y].path)
      invariant multiset(a[..]) == multiset(old(a[..]))
    {
      KeyLeTotal(a[j - 1].path, a[j].path);
      a[j - 1], a[j] := a[j], a[j - 1];
      j := j - 1;
    }
    forall x | 0 <= x < j
      ensures KeyLe(a[x].path, a[j].path)
    {
      if x < j - 1 {
        KeyLeTransitive(a[x].path, a[j - 1].path, a[j].path);
      }
    }
  }

  // ---------------------------------------------------------------------
  // scan_saves: registration of one file under the games that accept it

  /** The saves map after the first `n` games have had their say on one
      file: each game that accepted it gets the file appended to its list. */
  function Registered<S>(m: map<nat, seq<ScannedSave<S>>>, path: Path, outcomes: seq<Result<S, string>>, n: nat): map<nat, seq<ScannedSave<S>>>
    requires n <= |outcomes|
  {
    if n == 0 then m
    else
      var before := Registered(m, path, outcomes, n - 1);
      match outcomes[n - 1]
      case Ok(save) =>
        before[n - 1 := (if n - 1 in before then before[n - 1] else []) + [ScannedSave(path, save)]]
      case Err(_) => before
  }

  /** One game's entry after registration: the game has an entry if it had
      one or accepted the file, and the file is appended to its list exactly
      if it accepted it. */
  lemma {:induction false} RegisteredAt<S>(m: map<nat, seq<ScannedSave<S>>>, path: Path, outcomes: seq<Result<S, string>>, n: nat, g: nat)
    requires n <= |outcomes|
    ensures g in Registered(m, path, outcomes, n) <==> g in m || (g < n && outcomes[g].Ok?)
    ensures g in Registered(m, path, outcomes, n) ==>
              Registered(m, path, outcomes, n)[g] ==
                if g < n && outcomes[g].Ok?
                then (if g in m then m[g] else []) + [ScannedSave(path, outcomes[g].value)]
                else m[g]
  {
    if n > 0 {
      RegisteredAt(m, path, outcomes, n - 1, g);
    }
  }

  /** A file is listed once more under exactly the games that accepted it;
      every other game's list is untouched. */
  lemma RegisteredUnderAccepting<S>(m: map<nat, seq<ScannedSave<S>>>, path: Path, outcomes: seq<Result<S, string>>, n: nat)
    requires n <= |outcomes|
    ensures Registered(m, path, outcomes, n).Keys == m.Keys + set g | 0 <= g < n && outcomes[g].Ok?
    ensures forall g :: g in Registered(m, path, outcomes, n) ==>
              Registered(m, path, outcomes, n)[g] ==
                if g < n && outcomes[g].Ok?
                then (if g in m then m[g] else []) + [ScannedSave(path, outcomes[g].value)]
                else m[g]
  {
    var r := Registered(m, path, outcomes, n);
    var accepted := set g | 0 <= g < n && outcomes[g].Ok?;
    forall g: nat
      ensures g in r <==> g in m || g in accepted
      ensures g in r ==>
                r[g] == if g < n && outcomes[g].Ok?
                        then (if g in m then m[g] else []) + [ScannedSave(path, outcomes[g].value)]
                        else m[g]
    {
      RegisteredAt(m, path, outcomes, n, g);
    }
    assert r.Keys == m.Keys + accepted;
  }

  /** The map from game (its index in the game list) to the saves found for
      it, as `scan_saves` builds it. */
  class Scan<S> {
    var saves: map<nat, seq<ScannedSave<S>>>

    constructor ()
      ensures saves == map[]
    {
      saves := map[];
    }

    /** One file: `outcomes[g]` is what game `g`'s `parse_save` made of its
        bytes. The file is appended under every game that accepted it;
        `recognised` is false exactly when no game did, and then every
        game's error is reported, in game order. */
    method Register(path: Path, outcomes: seq<Result<S, string>>) returns (recognised: bool, errors: seq<(nat, string)>)
      modifies this
      ensures saves == Registered(old(saves), path, outcomes, |outcomes|)
      ensures recognised <==> exists g :: 0 <= g < |outcomes| && outcomes[g].Ok?
      ensures !recognised ==>
                |errors| == |outcomes| && forall g :: 0 <= g < |outcomes| ==> errors[g] == (g, outcomes[g].error)
    {
      recognised := false;
      errors := [];
      var g := 0;
      while g < |outcomes|
        invariant 0 <= g <= |outcomes|
        invariant saves == Registered(old(saves), path, outcomes, g)
        invariant recognised <==> exists h :: 0 <= h < g && outcomes[h].Ok?
        invariant !recognised ==>
                    |errors| == g && forall h :: 0 <= h < g ==> errors[h] == (h, outcomes[h].error)
      {
        match outcomes[g] {
          case Ok(save) =>
            var listed := if g in saves then saves[g] else [];
            saves := saves[g := listed + [ScannedSave(path, save)]];
            recognised := true;
          case Err(e) =>
            errors := errors + [(g, e)];
        }
        g := g + 1;
      }
    }

    /** The final pass of `scan_saves`: every game's list is sorted by key. */
    method SortAll()
      modifies this
      ensures saves.Keys == old(saves).Keys
      ensures forall g :: g in saves ==>
                SortedByKey(saves[g]) && multiset(saves[g]) == multiset(old(saves)[g])
    {
      var todo := saves.Keys;
      while todo != {}
        invariant todo <= saves.Keys
        invariant saves.Keys == old(saves).Keys
        invariant forall g :: g in saves && g !in todo ==>
                    SortedByKey(saves[g]) && multiset(saves[g]) == multiset(old(saves)[g])
        invariant forall g :: g in todo ==> saves[g] == old(saves)[g]
        decreases todo
      {
        var g :| g in todo;
        var listed := saves[g];
        var a := new ScannedSave<S>[|listed|](i requires 0 <= i < |listed| => listed[i]);
        assert a[..] == listed;
        SortByKey(a);
        saves := saves[g := a[..]];
        todo := todo - {g};
      }
    }
  }
}
