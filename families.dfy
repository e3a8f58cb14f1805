/**
 * The two save families and their variants: the per-family layout constants, the
 * closed table of game names, and the per-version checksum seeds and loaded keys.
 */
module Families {
  import opened Wrappers
  import opened Bytes

  /** Size of the full memory image `export` produces. */
  const ImageSize: nat := 0x10000

  /** Length of the game name embedded in the window. */
  const GameNameLength: nat := 20

  /** Number of patch-card ids a slot byte can name (its low 7 bits). */
  const CardIds: nat := 0x80

  datatype Version = Protoman | Colonel | Falzar | Gregar

  datatype Region = US | JP

  /** What a game name identifies: the version and, for the bn5 family, the region. */
  datatype GameInfo = GameInfo(region: Option<Region>, version: Version)

  /** One entry of the closed table of known game names. */
  datatype GameName = GameName(name: seq<byte>, info: GameInfo)

  /** `CHECKSUM_START`: the value the checksum accumulator starts from, a byte value. */
  function Seed(v: Version): (r: nat)
    ensures r < 0x100
  {
    match v
    case Protoman => 0x72
    case Colonel => 0x18
    case Falzar => 0x18
    case Gregar => 0x72
  }

  /**
   * The constant a loaded card's baseline byte is XOR-ed with in the loaded bitfield. It
   * differs from 0xFF, the constant of an unloaded card, so the two states can be told apart.
   */
  function LoadedKey(v: Version): (r: byte)
    ensures r != 0xFF
  {
    match v
    case Colonel => 0x8D
    case Protoman => 0x43
    case Falzar => 0x8D
    case Gregar => 0x43
  }

  /** The layout of one family's save window; every offset is relative to the window. */
  datatype Family = Family(
    start: nat,          // where the window begins in the full image
    size: nat,           // length of the window
    maskOffset: nat,     // 32-bit mask
    checksumOffset: nat, // 32-bit checksum
    gameNameOffset: nat, // 20-byte game name
    baselineOffset: nat, // per-id baseline bytes of the loaded bitfield
    loadedOffset: nat,   // per-id loaded bitfield
    countOffset: nat,    // patch-card slot count
    slotsOffset: nat,    // patch-card slots, one byte each
    gameNames: seq<GameName>)
  {
    /**
     * The regions of the window lie in this order without overlapping, and the
     * window fits in the exported image. Both families are laid out this way.
     */
    predicate WellFormed()
    {
      && baselineOffset + CardIds <= maskOffset
      && maskOffset + 4 <= checksumOffset
      && checksumOffset + 4 <= gameNameOffset
      && gameNameOffset + GameNameLength <= loadedOffset
      && loadedOffset + CardIds <= countOffset
      && countOffset < slotsOffset < size
      && start + size <= ImageSize
    }
  }

  /** `w` is a save window of family `f`. */
  predicate IsWindow(f: Family, w: seq<byte>)
  {
    f.WellFormed() && |w| == f.size
  }

  /** The 20 game-name bytes of a window. */
  function GameNameOf(f: Family, w: seq<byte>): (r: seq<byte>)
    requires IsWindow(f, w)
    ensures |r| == GameNameLength
  {
    w[f.gameNameOffset..f.gameNameOffset + GameNameLength]
  }

  /** A string of ASCII characters as the bytes that spell it. */
  function Ascii(s: string): (r: seq<byte>)
    requires forall i :: 0 <= i < |s| ==> s[i] as int < 0x80
    ensures |r| == |s|
    ensures forall i :: 0 <= i < |s| ==> r[i] as int == s[i] as int
  {
    seq(|s|, i requires 0 <= i < |s| => s[i] as int as byte)
  }

  /**
   * The game name lookup (`hasOwnProperty` on the game-name table). The name bytes are
   * compared with the ASCII bytes of the keys, which is what comparing the decoded
   * text with the pure-ASCII keys amounts to.
   */
  function LookupGameName(table: seq<GameName>, name: seq<byte>): (r: Option<GameInfo>)
    ensures r.Some? ==> exists k :: 0 <= k < |table| && table[k].name == name && table[k].info == r.value
    ensures r.None? <==> forall k :: 0 <= k < |table| ==> table[k].name != name
  {
    if table == [] then None
    else if table[0].name == name then Some(table[0].info)
    else
      var r := LookupGameName(table[1..], name);
      assert forall k :: 1 <= k < |table| ==> table[k] == table[1..][k - 1];
      r
  }

  /** No two entries of a lookup table share a key. */
  predicate KeysDistinct(table: seq<GameName>)
  {
    forall k, l :: 0 <= k < l < |table| ==> table[k].name != table[l].name
  }

  /** With distinct keys, each key resolves to its own entry. */
  lemma LookupOwnKey(table: seq<GameName>, k: nat)
    requires KeysDistinct(table) && k < |table|
    ensures LookupGameName(table, table[k].name) == Some(table[k].info)
  {
    var r := LookupGameName(table, table[k].name);
    assert r.Some?;
    var l :| 0 <= l < |table| && table[l].name == table[k].name && table[l].info == r.value;
    assert l == k;
  }

  const Bn5: Family := Family(
    0x0100, 0x7C14, 0x1A34, 0x29DC, 0x29E0, 0x1220, 0x60DC, 0x79A0, 0x79D0,
    [ GameName(Ascii("REXE5TOB 20041006 US"), GameInfo(Some(US), Protoman)),
      GameName(Ascii("REXE5TOK 20041006 US"), GameInfo(Some(US), Colonel)),
      GameName(Ascii("REXE5TOB 20041104 JP"), GameInfo(Some(JP), Protoman)),
      GameName(Ascii("REXE5TOK 20041104 JP"), GameInfo(Some(JP), Colonel)) ])

  const Bn6: Family := Family(
    0x0100, 0x6710, 0x1064, 0x1C6C, 0x1C70, 0x06C0, 0x5048, 0x65F0, 0x6620,
    [ GameName(Ascii("REXE6 F 20050924a JP"), GameInfo(None, Falzar)),
      GameName(Ascii("REXE6 G 20050924a JP"), GameInfo(None, Gregar)) ])

  lemma FamiliesWellFormed()
    ensures Bn5.WellFormed() && Bn6.WellFormed()
  {
  }

  /**
   * The bn5 layout: the window constants, and the offsets `getPatchCardCount`,
   * `getPatchCard` and `setPatchCardLoaded` use inline, with four known game names.
   */
  lemma Bn5Layout()
    ensures Bn5.start == 0x0100 && Bn5.size == 0x7C14
    ensures Bn5.maskOffset == 0x1A34 && Bn5.checksumOffset == 0x29DC && Bn5.gameNameOffset == 0x29E0
    ensures Bn5.countOffset == 0x79A0 && Bn5.slotsOffset == 0x79D0
    ensures Bn5.loadedOffset == 0x60DC && Bn5.baselineOffset == 0x1220
    ensures |Bn5.gameNames| == 4
  {
  }

  /**
   * The bn6 layout: the window constants, and the offsets `getPatchCardCount`,
   * `getPatchCard` and `setPatchCardLoaded` use inline, with two known game names.
   */
  lemma Bn6Layout()
    ensures Bn6.start == 0x0100 && Bn6.size == 0x6710
    ensures Bn6.maskOffset == 0x1064 && Bn6.checksumOffset == 0x1C6C && Bn6.gameNameOffset == 0x1C70
    ensures Bn6.countOffset == 0x65F0 && Bn6.slotsOffset == 0x6620
    ensures Bn6.loadedOffset == 0x5048 && Bn6.baselineOffset == 0x06C0
    ensures |Bn6.gameNames| == 2
  {
  }

  /** The bn5 keys differ in the version letter (byte 7, `B` or `K`) or in the date (byte 14, `0` or `1`). */
  lemma Bn5KeysDistinct()
    ensures KeysDistinct(Bn5.gameNames)
  {
    var t := Bn5.gameNames;
    assert t[0].name[7] == 0x42 && t[0].name[14] == 0x30;
    assert t[1].name[7] == 0x4B && t[1].name[14] == 0x30;
    assert t[2].name[7] == 0x42 && t[2].name[14] == 0x31;
    assert t[3].name[7] == 0x4B && t[3].name[14] == 0x31;
  }

  /** The bn6 keys differ in the version letter (byte 6, `F` or `G`). */
  lemma Bn6KeysDistinct()
    ensures KeysDistinct(Bn6.gameNames)
  {
    var t := Bn6.gameNames;
    assert t[0].name[6] == 0x46 && t[1].name[6] == 0x47;
  }

  /** Every key of both tables is 20 bytes long and resolves to its own game. */
  lemma TablesResolve(f: Family, k: nat)
    requires f == Bn5 || f == Bn6
    requires k < |f.gameNames|
    ensures |f.gameNames[k].name| == GameNameLength
    ensures LookupGameName(f.gameNames, f.gameNames[k].name) == Some(f.gameNames[k].info)
  {
    Bn5KeysDistinct();
    Bn6KeysDistinct();
    LookupOwnKey(f.gameNames, k);
  }
}
