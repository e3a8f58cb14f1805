/**
 * The codec facade of one family: decoding a full image into an editable save bound to
 * its variant, rebuilding the derived state, and exporting a fresh masked image.
 */
module Codec {
  import opened Wrappers
  import opened Bytes
  import opened Mask
  import opened Checksums
  import opened Families
  import opened PatchCards

  /** Why a decode produced no save (the two exceptions the constructor throws). */
  datatype DecodeError = UnknownGameName(name: seq<byte>) | ChecksumMismatch

  /** A decoded save: the game bound at decode time and the unmasked window. */
  datatype Save = Save(info: GameInfo, window: seq<byte>)

  /** The checksum a window of this family should store for game `info`. */
  function ExpectedChecksum(f: Family, w: seq<byte>, info: GameInfo): nat
    requires IsWindow(f, w)
  {
    Checksum(w, f.checksumOffset, Seed(info.version))
  }

  /** The window of a full image, unmasked: slice, then toggle. */
  function Unmasked(f: Family, image: seq<byte>): (w: seq<byte>)
    requires f.WellFormed() && f.start + f.size <= |image|
    ensures IsWindow(f, w)
  {
    Toggled(image[f.start..f.start + f.size], f.maskOffset)
  }

  /**
   * The checks of the constructor on an already unmasked window: game name first, then
   * checksum. A success keeps the window as it is and binds the game its name resolves to.
   */
  function DecodeWindow(f: Family, w: seq<byte>): (r: Result<Save, DecodeError>)
    requires IsWindow(f, w)
    ensures LookupGameName(f.gameNames, GameNameOf(f, w)).None? ==> r == Failure(UnknownGameName(GameNameOf(f, w)))
    ensures r.Success? <==>
      var found := LookupGameName(f.gameNames, GameNameOf(f, w));
      found.Some? && ReadU32(w, f.checksumOffset) == ExpectedChecksum(f, w, found.value)
    ensures r.Success? ==> r.value.window == w && LookupGameName(f.gameNames, GameNameOf(f, w)) == Some(r.value.info)
  {
    match LookupGameName(f.gameNames, GameNameOf(f, w))
    case None => Failure(UnknownGameName(GameNameOf(f, w)))
    case Some(info) =>
      if ReadU32(w, f.checksumOffset) != ExpectedChecksum(f, w, info) then Failure(ChecksumMismatch)
      else Success(Save(info, w))
  }

  /**
   * The `Editor` constructor as a function of the caller's image: unmask a copy of the
   * window, look the game name up, then compare the stored and computed checksums.
   */
  function Decode(f: Family, image: seq<byte>): (r: Result<Save, DecodeError>)
    requires f.WellFormed() && f.start + f.size <= |image|
    ensures r.Success? ==> r.value.window == Unmasked(f, image)
    ensures r.Success? ==> Toggled(r.value.window, f.maskOffset) == image[f.start..f.start + f.size]
  {
    UnmaskedRemasks(f, image);
    DecodeWindow(f, Unmasked(f, image))
  }

  /** An unknown game name is reported before the checksum is looked at. */
  lemma UnknownNameFailsFirst(f: Family, image: seq<byte>)
    requires f.WellFormed() && f.start + f.size <= |image|
    requires forall k :: 0 <= k < |f.gameNames| ==> f.gameNames[k].name != GameNameOf(f, Unmasked(f, image))
    ensures Decode(f, image) == Failure(UnknownGameName(GameNameOf(f, Unmasked(f, image))))
  {
  }

  /** Decoding succeeds exactly when the game name is known and the stored checksum matches. */
  lemma DecodeSucceeds(f: Family, image: seq<byte>)
    requires f.WellFormed() && f.start + f.size <= |image|
    ensures Decode(f, image).Success? <==>
      var w := Unmasked(f, image);
      var found := LookupGameName(f.gameNames, GameNameOf(f, w));
      found.Some? && ReadU32(w, f.checksumOffset) == ExpectedChecksum(f, w, found.value)
  {
  }

  /**
   * A successful decode holds the unmasked window, bound to the game its name resolves to,
   * and that window masks back to exactly the bytes of the caller's image.
   */
  lemma DecodedSave(f: Family, image: seq<byte>)
    requires f.WellFormed() && f.start + f.size <= |image| && Decode(f, image).Success?
    ensures var s := Decode(f, image).value;
      && s.window == Unmasked(f, image)
      && LookupGameName(f.gameNames, GameNameOf(f, s.window)) == Some(s.info)
      && Toggled(s.window, f.maskOffset) == image[f.start..f.start + f.size]
  {
    UnmaskedRemasks(f, image);
  }

  /** Masking the unmasked window gives back the bytes of the image. */
  lemma UnmaskedRemasks(f: Family, image: seq<byte>)
    requires f.WellFormed() && f.start + f.size <= |image|
    ensures Toggled(Unmasked(f, image), f.maskOffset) == image[f.start..f.start + f.size]
  {
    ToggledSelfInverse(image[f.start..f.start + f.size], f.maskOffset);
  }

  /** Decoding reads nothing of the image outside the window. */
  lemma DecodeReadsOnlyWindow(f: Family, image: seq<byte>, other: seq<byte>)
    requires f.WellFormed() && f.start + f.size <= |image| && f.start + f.size <= |other|
    requires image[f.start..f.start + f.size] == other[f.start..f.start + f.size]
    ensures Decode(f, image) == Decode(f, other)
  {
    assert Unmasked(f, image) == Unmasked(f, other);
  }

  /** `rebuild`: mark every referenced card loaded, then store the recomputed checksum. */
  function Rebuilt(f: Family, info: GameInfo, w: seq<byte>): (r: seq<byte>)
    requires IsWindow(f, w) && SlotsInWindow(f, w)
    ensures IsWindow(f, r) && GameNameOf(f, r) == GameNameOf(f, w)
    ensures SlotsInWindow(f, r)
  {
    var m := RebuiltLoaded(f, w, LoadedKey(info.version));
    StoreKeepsGameName(f, m, ExpectedChecksum(f, m, info));
    WriteU32(m, f.checksumOffset, ExpectedChecksum(f, m, info))
  }

  /** The checksum fits in 32 bits, so the field stores it without loss. */
  lemma ChecksumFits(f: Family, w: seq<byte>, info: GameInfo)
    requires IsWindow(f, w)
    ensures ExpectedChecksum(f, w, info) < U32Limit
  {
    assert Seed(info.version) < 0x100;
  }

  /** Storing the computed checksum of a window makes it valid: the field is not part of the sum. */
  lemma StoreValidates(f: Family, m: seq<byte>, info: GameInfo)
    requires IsWindow(f, m)
    ensures var r := WriteU32(m, f.checksumOffset, ExpectedChecksum(f, m, info));
      IsWindow(f, r) && ReadU32(r, f.checksumOffset) == ExpectedChecksum(f, r, info)
  {
    var c := ExpectedChecksum(f, m, info);
    var r := WriteU32(m, f.checksumOffset, c);
    ChecksumFits(f, m, info);
    assert ReadU32(r, f.checksumOffset) == c;
    ChecksumIgnoresField(m, r, f.checksumOffset, Seed(info.version));
  }

  /** The checksum field lies before the game name, so storing it keeps the name. */
  lemma StoreKeepsGameName(f: Family, w: seq<byte>, v: int)
    requires IsWindow(f, w)
    ensures GameNameOf(f, WriteU32(w, f.checksumOffset, v)) == GameNameOf(f, w)
  {
  }

  /** After a rebuild the stored checksum is the computed one. */
  lemma RebuildValidates(f: Family, info: GameInfo, w: seq<byte>)
    requires IsWindow(f, w) && SlotsInWindow(f, w)
    ensures ReadU32(Rebuilt(f, info, w), f.checksumOffset) == ExpectedChecksum(f, Rebuilt(f, info, w), info)
  {
    StoreValidates(f, RebuiltLoaded(f, w, LoadedKey(info.version)), info);
  }

  /** Rebuilding an already rebuilt window changes nothing. */
  lemma RebuildIdempotent(f: Family, info: GameInfo, w: seq<byte>)
    requires IsWindow(f, w) && SlotsInWindow(f, w)
    ensures Rebuilt(f, info, Rebuilt(f, info, w)) == Rebuilt(f, info, w)
  {
    var key := LoadedKey(info.version);
    var m := RebuiltLoaded(f, w, key);
    var r := Rebuilt(f, info, w);
    RebuiltIsFixpoint(f, info, w);
    assert RebuiltLoaded(f, r, key) == r;
    ChecksumIgnoresField(m, r, f.checksumOffset, Seed(info.version));
    RebuildValidates(f, info, w);
    WriteU32Unchanged(r, f.checksumOffset);
  }

  /** The loaded rebuild leaves a rebuilt window as it is. */
  lemma RebuiltIsFixpoint(f: Family, info: GameInfo, w: seq<byte>)
    requires IsWindow(f, w) && SlotsInWindow(f, w)
    ensures RebuiltLoaded(f, Rebuilt(f, info, w), LoadedKey(info.version)) == Rebuilt(f, info, w)
  {
    var key := LoadedKey(info.version);
    var m := RebuiltLoaded(f, w, key);
    var r := Rebuilt(f, info, w);
    RebuildLoadedIdempotent(f, w, key);
    var rr := RebuiltLoaded(f, r, key);
    forall j | 0 <= j < |r|
      ensures rr[j] == r[j]
    {
      if f.checksumOffset <= j < f.checksumOffset + 4 {
        RebuildOnlySets(f, r, key, j);
      } else {
        RebuildIgnoresChecksumField(f, m, r, key, j);
      }
    }
  }

  /** A run of zero bytes. */
  function Zeros(n: nat): (r: seq<byte>)
    ensures |r| == n && forall i :: 0 <= i < n ==> r[i] == 0
  {
    seq(n, _ => 0)
  }

  /** The image `export` returns for a rebuilt window: zero except for the masked window at `start`. */
  function Image(f: Family, w: seq<byte>): (r: seq<byte>)
    requires IsWindow(f, w)
    ensures |r| == ImageSize
    ensures forall p :: 0 <= p < ImageSize && !(f.start <= p < f.start + f.size) ==> r[p] == 0
    ensures r[f.start..f.start + f.size] == Toggled(w, f.maskOffset)
  {
    var r := Zeros(f.start) + Toggled(w, f.maskOffset) + Zeros(ImageSize - f.start - f.size);
    assert r[f.start..f.start + f.size] == Toggled(w, f.maskOffset);
    r
  }

  /**
   * Export then decode: the exported image of a save decodes to the same game and to
   * exactly the rebuilt window.
   */
  lemma ExportRoundTrip(f: Family, info: GameInfo, w: seq<byte>)
    requires IsWindow(f, w) && SlotsInWindow(f, w)
    requires LookupGameName(f.gameNames, GameNameOf(f, w)) == Some(info)
    ensures Decode(f, Image(f, Rebuilt(f, info, w))) == Success(Save(info, Rebuilt(f, info, w)))
  {
    var r := Rebuilt(f, info, w);
    var image := Image(f, r);
    ToggledSelfInverse(r, f.maskOffset);
    assert Unmasked(f, image) == r;
    RebuildValidates(f, info, w);
  }

  /** An editable save of one family, holding its own unmasked copy of the window. */
  class Editor {
    const family: Family
    const info: GameInfo
    const dv: array<byte>

    /** The window belongs to the family and its game name still resolves to the bound game. */
    ghost predicate Valid()
      reads dv
    {
      IsWindow(family, dv[..]) && LookupGameName(family.gameNames, GameNameOf(family, dv[..])) == Some(info)
    }

    /** Binds an already validated window (the end of the source's constructor). */
    constructor FromWindow(family: Family, info: GameInfo, dv: array<byte>)
      requires IsWindow(family, dv[..]) && LookupGameName(family.gameNames, GameNameOf(family, dv[..])) == Some(info)
      ensures this.family == family && this.info == info && this.dv == dv
      ensures Valid()
    {
      this.family := family;
      this.info := info;
      this.dv := dv;
    }

    /**
     * The constructor: copy the window out of the caller's buffer, unmask it, resolve
     * the game name, validate the checksum. A failure yields no editor.
     */
    static method Open(family: Family, buffer: array<byte>) returns (r: Result<Editor, DecodeError>)
      requires family.WellFormed() && family.start + family.size <= buffer.Length
      ensures buffer[..] == old(buffer[..])
      ensures r.Success? <==> Decode(family, buffer[..]).Success?
      ensures r.Failure? ==> r.error == Decode(family, buffer[..]).error
      ensures r.Success? ==>
        && fresh(r.value.dv) && r.value.Valid() && r.value.family == family
        && Save(r.value.info, r.value.dv[..]) == Decode(family, buffer[..]).value
    {
      var w := UnmaskedCopy(family, buffer);
      ghost var u := Unmasked(family, buffer[..]);
      var name := w[family.gameNameOffset..family.gameNameOffset + GameNameLength];
      assert name == GameNameOf(family, u);
      var found := LookupGameName(family.gameNames, name);
      if found.None? {
        return Failure(UnknownGameName(name));
      }
      var stored := ReadU32(w[..], family.checksumOffset);
      var computed := Checksums.ComputeChecksum(w, family.checksumOffset, Seed(found.value.version));
      if stored != computed {
        return Failure(ChecksumMismatch);
      }
      var e := new Editor.FromWindow(family, found.value, w);
      return Success(e);
    }

    /** `buffer.slice` of the window followed by `maskSave` on the copy. */
    static method UnmaskedCopy(family: Family, buffer: array<byte>) returns (w: array<byte>)
      requires family.WellFormed() && family.start + family.size <= buffer.Length
      ensures fresh(w) && w[..] == Unmasked(family, buffer[..])
    {
      ghost var image := buffer[..];
      w := new byte[family.size];
      forall i | 0 <= i < family.size {
        w[i] := buffer[family.start + i];
      }
      assert w[..] == image[family.start..family.start + family.size];
      MaskWindow(w, family.maskOffset);
    }

    /** `computeChecksum` for the bound game's seed. */
    method ComputeChecksum() returns (checksum: nat)
      requires Valid()
      ensures checksum == ExpectedChecksum(family, dv[..], info)
      ensures checksum < U32Limit
    {
      checksum := Checksums.ComputeChecksum(dv, family.checksumOffset, Seed(info.version));
      ChecksumFits(family, dv[..], info);
    }

    /** `getChecksum`: the stored field. */
    function GetChecksum(): (r: nat)
      reads dv
      requires Valid()
      ensures r < U32Limit
    {
      ReadU32(dv[..], family.checksumOffset)
    }

    /** `getPatchCardCount`. */
    function GetPatchCardCount(): (r: nat)
      reads dv
      requires Valid()
      ensures r < 0x100
    {
      Count(family, dv[..])
    }

    /** `getPatchCard`: absent for `i` at or beyond the count. */
    function GetPatchCard(i: nat): (r: Option<PatchCard>)
      reads dv
      requires Valid() && (i < Count(family, dv[..]) ==> family.slotsOffset + i < family.size)
      ensures r.None? <==> i >= GetPatchCardCount()
    {
      CardAt(family, dv[..], i)
    }

    /** `setPatchCardCount`. */
    method SetPatchCardCount(n: int)
      requires Valid()
      modifies dv
      ensures Valid()
      ensures dv[..] == WithCount(family, old(dv[..]), n)
    {
      dv[family.countOffset] := (n % 0x100) as byte;
      assert dv[..] == WithCount(family, old(dv[..]), n);
    }

    /** `setPatchCard`. */
    method SetPatchCard(i: nat, id: int, enabled: bool)
      requires Valid() && family.slotsOffset + i < family.size
      modifies dv
      ensures Valid()
      ensures dv[..] == WithSlot(family, old(dv[..]), i, id, enabled)
    {
      dv[family.slotsOffset + i] := EncodeSlot(id, enabled);
      assert dv[..] == WithSlot(family, old(dv[..]), i, id, enabled);
    }

    /** `setPatchCardLoaded`, with the bound game's loaded key. */
    method SetPatchCardLoaded(id: nat, loaded: bool)
      requires Valid() && family.loadedOffset + id < family.size
      modifies dv
      ensures Valid()
      ensures dv[..] == WithLoaded(family, old(dv[..]), LoadedKey(info.version), id, loaded)
    {
      dv[family.loadedOffset + id] := Xor(dv[family.baselineOffset + id], if loaded then LoadedKey(info.version) else 0xFF);
      assert dv[..] == WithLoaded(family, old(dv[..]), LoadedKey(info.version), id, loaded);
    }

    /** `rebuildPatchCardsLoaded`: marks the id of every slot below the count loaded. */
    method RebuildPatchCardsLoaded()
      requires Valid() && SlotsInWindow(family, dv[..])
      modifies dv
      ensures Valid()
      ensures dv[..] == RebuiltLoaded(family, old(dv[..]), LoadedKey(info.version))
    {
      ghost var w := dv[..];
      ProgressStart(family, w, LoadedKey(info.version));
      var i := 0;
      while i < GetPatchCardCount()
        invariant Valid() && Progress(family, w, LoadedKey(info.version), dv[..], i)
        decreases Count(family, w) - i
      {
        MarkReferenced(w, i);
        i := i + 1;
      }
      ProgressDone(family, w, LoadedKey(info.version), dv[..], i);
    }

    /** One round of `rebuildPatchCardsLoaded`: read slot `i` and mark its id loaded. */
    method MarkReferenced(ghost w: seq<byte>, i: nat)
      requires Valid() && Progress(family, w, LoadedKey(info.version), dv[..], i) && i < Count(family, w)
      modifies dv
      ensures Valid() && Progress(family, w, LoadedKey(info.version), dv[..], i + 1)
      ensures Count(family, dv[..]) == Count(family, w)
    {
      ProgressStep(family, w, LoadedKey(info.version), dv[..], i);
      var card := GetPatchCard(i);
      SetPatchCardLoaded(card.value.id, true);
    }

    /** `rebuildChecksum`: stores the recomputed checksum. */
    method RebuildChecksum()
      requires Valid()
      modifies dv
      ensures Valid()
      ensures dv[..] == WriteU32(old(dv[..]), family.checksumOffset, ExpectedChecksum(family, old(dv[..]), info))
      ensures GetChecksum() == ExpectedChecksum(family, dv[..], info)
    {
      ghost var w := dv[..];
      var checksum := ComputeChecksum();
      StoreU32(dv, family.checksumOffset, checksum);
      StoreValidates(family, w, info);
      StoreKeepsGameName(family, w, checksum);
    }

    /** `rebuild`. */
    method Rebuild()
      requires Valid() && SlotsInWindow(family, dv[..])
      modifies dv
      ensures Valid() && SlotsInWindow(family, dv[..])
      ensures dv[..] == Rebuilt(family, info, old(dv[..]))
      ensures GetChecksum() == ExpectedChecksum(family, dv[..], info)
    {
      RebuildPatchCardsLoaded();
      RebuildChecksum();
    }

    /** The image `export` builds from a window: zeros, the window at `start`, masked in place. */
    static method MaskedImage(family: Family, w: array<byte>) returns (image: array<byte>)
      requires IsWindow(family, w[..])
      ensures fresh(image) && image[..] == Image(family, w[..])
    {
      image := PlacedImage(family, w);
      ghost var right := ImageSize - family.start - family.size;
      ghost var before := image[..];
      assert before[..family.start] == Zeros(family.start);
      assert before[family.start..family.start + family.size] == w[..];
      assert before[family.start + family.size..] == Zeros(right);
      MaskSave(image, family.start, family.size, family.maskOffset);
    }

    /** A zeroed full image with the window copied in at `start` (`arr.set`). */
    static method PlacedImage(family: Family, w: array<byte>) returns (image: array<byte>)
      requires IsWindow(family, w[..])
      ensures fresh(image)
      ensures image[..] == Zeros(family.start) + w[..] + Zeros(ImageSize - family.start - family.size)
    {
      image := new byte[ImageSize](_ => 0);
      forall i | 0 <= i < family.size {
        image[family.start + i] := w[i];
      }
    }

    /**
     * `export`: rebuild, copy the window into a zeroed full image at `start`, and mask
     * that range. The image decodes back to this editor's game and window.
     */
    method Export() returns (image: array<byte>)
      requires Valid() && SlotsInWindow(family, dv[..])
      modifies dv
      ensures fresh(image)
      ensures Valid()
      ensures dv[..] == Rebuilt(family, info, old(dv[..]))
      ensures image[..] == Image(family, dv[..])
      ensures family.start + family.size <= image.Length
      ensures Decode(family, image[..]) == Success(Save(info, dv[..]))
    {
      ghost var w := dv[..];
      Rebuild();
      image := MaskedImage(family, dv);
      ExportRoundTrip(family, info, w);
    }
  }
}
