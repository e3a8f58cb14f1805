# bn5 / bn6 save codec in Dafny

This project models the byte-level codec of the bn5 and bn6 save editors
(`editor/bn5.ts`, `editor/bn6.ts`) and proves its properties. The two files implement the
same codec with different constants. The model therefore has one generic codec and passes
the differences in as a `Family` value, one for each game family (`Families.Bn5`,
`Families.Bn6`). A `Family` holds:

- the window start and size;
- the mask, checksum, game-name, baseline, loaded-bitfield, count and slot offsets;
- the game-name table.

A save image is a buffer of bytes. The editor works on a *window* of it: the `size` bytes
starting at `0x100`.

- **Mask** (`maskSave`). The window is obfuscated by XOR-ing every byte with the low byte
  of a 32-bit little-endian mask stored inside it. The mask is then written back.
  - `Mask.Toggled` is that transform on a sequence.
  - `Mask.MaskSave` is the in-place loop on an array, proved equal to `Toggled` on the
    affected range.
- **Checksum** (`computeChecksum`, `getChecksum`, `rebuildChecksum`). The checksum is a
  per-version seed plus the sum of every window byte except the four bytes of the
  checksum field.
  - `Checksums.Checksum` is the specification.
  - `Checksums.ComputeChecksum` is the loop, including its `i += 3; continue` skip.
- **Decoding** (the `Editor` constructor). It copies the window, unmasks it, and looks up
  the 20-byte game name in the family's table. An unknown name fails first; a checksum
  mismatch fails second.
  - `Codec.Decode` is the specification on sequences.
  - `Codec.Editor.Open` is the constructor, returning a `Result` instead of throwing.
- **Patch cards.** The store has three parts:
  - a count byte;
  - a slot array, whose bytes hold an id in the low 7 bits and a disabled flag in bit 7;
  - a loaded bitfield, whose entry for an id is `baseline[id] XOR K`. `K` is the
    version's loaded key when the card is loaded and `0xFF` when it is not.

  `PatchCards` gives a window-level function for each accessor and each setter.
  `PatchCards.LoadedState` is the model's own reading of a bitfield entry; it exists to
  state what a write records. `rebuildPatchCardsLoaded` is modelled twice:
  - as the recursive specification `PatchCards.MarkedUpTo`;
  - as the loop `Codec.Editor.RebuildPatchCardsLoaded`, which re-reads the count on
    every round, as the source does.
- **Rebuild and export.** The rebuild is `Codec.Rebuilt`; the exported image is
  `Codec.Image`. `Codec.Editor.Export` returns a fresh zeroed `0x10000`-byte image, with
  the masked window copied in at `0x100`. It is proved to decode back to the same game
  and to exactly the rebuilt window.

`Codec.Editor` is an object holding its own unmasked copy of the window (the source's
`dv`) in an `array`, plus the game it was bound to. Its setters change that array in
place, and each one is specified by the window-level function of the same operation.

Bytes are the newtype `Bytes.byte` (0..255). Byte XOR is defined arithmetically, bit by
bit, in `Bytes.XorBits`. Little-endian 32-bit fields are read and written by
`Bytes.ReadU32` and `Bytes.WriteU32`; `WriteU32` reduces the value modulo 2^32, as `setUint32`
does.

The checksum is an unbounded sum, as in the code: the code adds into a JavaScript number
and compares it with the stored `getUint32` value. `Codec.ChecksumFits` proves the sum
stays below 2^32, so a 32-bit wrapping sum would give the same value.

## Model

| member | source | states |
|---|---|---|
| Bytes.Xor | editor/bn5.ts:18 | byte XOR is zero exactly when the two bytes are equal, and its low bit is the parity of their low bits |
| Bytes.XorBitsZero | editor/bn6.ts:32 | the XOR of two `n`-bit values is zero exactly when the values are equal |
| Bytes.XorInvolutive | editor/bn5.ts:17-19 | XOR-ing a byte twice with the same key gives the byte back, and XOR-ing the result with the original byte gives the key |
| Bytes.ReadU32 | editor/bn5.ts:24-26 | a little-endian `getUint32` of four bytes is below 2^32 |
| Bytes.WriteU32 | editor/bn5.ts:245-247 | `setUint32` keeps the window length, changes no byte outside the four-byte field, and reads back as the value modulo 2^32 |
| Bytes.WriteU32Unchanged | editor/bn5.ts:20-21 | writing back the 32-bit value just read leaves the window exactly as it was |
| Bytes.StoreU32 | editor/bn5.ts:245-247 | the in-place `setUint32` on an array leaves it equal to `WriteU32` of its old contents |
| Bytes.SumUpdate | editor/bn6.ts:13-25 | replacing one byte changes a byte sum by exactly the difference of the new and old byte |
| Mask.Toggled | editor/bn5.ts:14-22 | `maskSave` as a function of the window keeps its length; its bytes are given by `Mask.ToggledBytes` |
| Mask.LowByteOfMask | editor/bn6.ts:30-33 | the key `mask & 0xff` of the 32-bit mask is the mask's first byte in the window |
| Mask.ToggledBytes | editor/bn5.ts:14-22 | after the toggle the four mask bytes hold their old values and every other byte is its old value XOR the low byte of the mask |
| Mask.ToggledKeepsMask | editor/bn5.ts:20-21 | the toggled window stores the same 32-bit mask as before |
| Mask.ToggledIgnoresUpperMask | editor/bn6.ts:30-33 | windows that differ only in the upper three mask bytes toggle to the same bytes outside the mask field |
| Mask.ToggledSelfInverse | editor/bn6.ts:27-36 | toggling twice returns the original window, so the same transform masks and unmasks |
| Mask.XorRange | editor/bn5.ts:17-19 | the XOR loop turns every byte of the range into its value XOR the key and touches nothing outside the range |
| Mask.MaskSave | editor/bn5.ts:14-22 | in place over the range `[start, start+len)` of an array, the bytes become the toggle of their old values; bytes outside the range are unchanged |
| Mask.MaskWindow | editor/bn5.ts:188 | `maskSave` over a buffer holding exactly one window leaves it equal to the toggle of its old contents |
| Checksums.Checksum | editor/bn5.ts:28-40 | the checksum of a window lies between the seed and the seed plus 255 for each of the bytes outside the field |
| Checksums.ComputeChecksum | editor/bn5.ts:28-40 | the loop returns the seed plus the sum of all bytes except the four bytes of the checksum field |
| Checksums.ChecksumIgnoresField | editor/bn6.ts:13-25 | windows that differ only inside the checksum field have the same checksum |
| Checksums.ChecksumDelta | editor/bn6.ts:13-25 | changing one byte outside the checksum field changes the checksum by exactly that byte's change |
| Families.Seed | editor/bn5.ts:42-45 | every `CHECKSUM_START` seed is a byte value |
| Families.Bn5Layout | editor/bn5.ts:8-12 | the bn5 window starts at `0x100` with size `0x7C14`; the mask, checksum and name sit at `0x1A34`, `0x29DC` and `0x29E0`; the inline offsets (editor/bn5.ts:250, 266, 279-280) place the count at `0x79A0`, the slots at `0x79D0`, the bitfield at `0x60DC` and the baseline at `0x1220`; the table has four names |
| Families.Bn6Layout | editor/bn6.ts:3-7 | the bn6 window starts at `0x100` with size `0x6710`; the mask, checksum and name sit at `0x1064`, `0x1C6C` and `0x1C70`; the inline offsets (editor/bn6.ts:235, 251, 264-265) place the count at `0x65F0`, the slots at `0x6620`, the bitfield at `0x5048` and the baseline at `0x06C0`; the table has two names |
| Families.LoadedKey | editor/bn5.ts:277-288 | the loaded key of every version differs from the unloaded constant `0xFF` |
| Families.LookupGameName | editor/bn5.ts:199-206 | the lookup finds an entry exactly when some key equals the name, and then returns that entry's game |
| Families.LookupOwnKey | editor/bn5.ts:47-64 | in a table with distinct keys, each key resolves to its own entry |
| Families.Bn5KeysDistinct | editor/bn5.ts:47-64 | the four bn5 keys are pairwise distinct |
| Families.Bn6KeysDistinct | editor/bn6.ts:163-166 | the two bn6 keys are distinct |
| Families.TablesResolve | editor/bn6.ts:163-166 | every key of both tables is 20 bytes long and resolves to its own game |
| Families.FamiliesWellFormed | editor/bn5.ts:8-12 | both layouts (bn5 here, bn6 at editor/bn6.ts:3-7, with the inline offsets of both) fit in the `0x10000` image, and their mask, checksum, game name, baseline, bitfield, count and slots do not overlap |
| PatchCards.DecodeSlot | editor/bn5.ts:266-270 | a slot byte decodes to an id below 128 and an enabled flag that holds exactly when bit 7 is clear, and the byte is the id plus `0x80` for a disabled card |
| PatchCards.Count | editor/bn5.ts:249-251 | the count is a byte value |
| PatchCards.EncodeSlot | editor/bn5.ts:273-275 | for an id below 128, the stored slot byte decodes back to that id and flag |
| PatchCards.EncodeDecodeSlot | editor/bn5.ts:261-271 | every slot byte decodes to an id below 128, and re-encoding the decoded card gives the same byte |
| PatchCards.CardAt | editor/bn5.ts:261-271 | `getPatchCard(i)` is absent exactly when `i` is at or beyond the count; otherwise its id is below 128 and encodes to the stored slot byte |
| PatchCards.WithCount | editor/bn5.ts:253-255 | `setPatchCardCount(n)` stores `n` modulo 256 and changes no other byte |
| PatchCards.WithSlot | editor/bn6.ts:258-260 | `setPatchCard` changes only the slot byte and keeps the game name |
| PatchCards.WithLoaded | editor/bn6.ts:262-273 | `setPatchCardLoaded` changes only the bitfield entry of the id and keeps the game name |
| PatchCards.SetCountThenGet | editor/bn5.ts:249-271 | after setting the count to `n`, `getPatchCard(i)` returns the card stored in slot `i` exactly when `i` is below `n` modulo 256, and nothing otherwise |
| PatchCards.SetThenGetSlot | editor/bn5.ts:261-275 | for an id below 128 and a slot below the count, setting then getting returns the same card; the count and every other slot are unchanged |
| PatchCards.SetThenGetLoaded | editor/bn5.ts:277-288 | after `setPatchCardLoaded(id, l)` the bitfield entry reads back as state `l` |
| PatchCards.MarkedUpTo | editor/bn5.ts:239-243 | the first `n` rounds of the rebuild loop keep the window layout and the game name, and change no byte outside the loaded bitfield |
| PatchCards.MarkedUpToAt | editor/bn5.ts:239-243 | after `n` rounds, the entry of every id named by one of the first `n` slots is its baseline XOR the key, and every other byte is unchanged |
| PatchCards.RebuiltLoaded | editor/bn5.ts:239-243 | the rebuild of the loaded bitfield keeps the layout and the game name, and changes no byte outside the bitfield |
| PatchCards.RebuildMarksReferenced | editor/bn5.ts:239-243 | after the rebuild, the id of every slot below the count reads as loaded, whether or not the slot is enabled |
| PatchCards.RebuildOnlySets | editor/bn6.ts:224-228 | the rebuild leaves every byte unchanged except the entries of the ids named by the slots below the count |
| PatchCards.RebuildLoadedIdempotent | editor/bn6.ts:224-228 | running the rebuild loop twice gives the same window as running it once |
| PatchCards.RebuildIgnoresChecksumField | editor/bn5.ts:222-225 | windows that differ only in the checksum field rebuild to windows that differ only there |
| PatchCards.Bn5SlotsFit | editor/bn5.ts:249-271 | in bn5 every slot below any count lies inside the window |
| PatchCards.Bn6SlotsFit | editor/bn6.ts:246-256 | in bn6 slot `i` lies inside the window exactly when `i < 0xF0`, so the slots below the count fit exactly when the count is at most `0xF0` |
| Codec.Unmasked | editor/bn5.ts:187-188 | the sliced and unmasked copy of an image is a window of the family |
| Codec.DecodeWindow | editor/bn5.ts:191-215 | an unknown name fails with that name; otherwise decoding succeeds exactly when the stored checksum equals the computed one for the game's seed, and then binds that game to the unchanged window |
| Codec.Decode | editor/bn5.ts:186-216 | a successful decode holds the unmasked window, and that window masks back to the caller's bytes |
| Codec.UnknownNameFailsFirst | editor/bn5.ts:199-206 | an unknown game name is reported whatever the checksum holds |
| Codec.DecodeSucceeds | editor/bn6.ts:174-201 | decoding succeeds exactly when the unmasked name is in the table and the stored checksum equals the computed one for that game's seed |
| Codec.DecodedSave | editor/bn5.ts:186-216 | a decoded save holds the unmasked window, is bound to the game its name resolves to, and masks back to the caller's bytes |
| Codec.UnmaskedRemasks | editor/bn5.ts:187-189 | masking the unmasked copy gives back the window bytes of the caller's buffer |
| Codec.DecodeReadsOnlyWindow | editor/bn5.ts:187 | images that agree on the window decode alike |
| Codec.Rebuilt | editor/bn5.ts:222-225 | the rebuild keeps the layout, the game name and the slot bound |
| Codec.ChecksumFits | editor/bn5.ts:245-247 | the computed checksum is below 2^32, so `setUint32` stores it exactly |
| Codec.StoreValidates | editor/bn6.ts:230-232 | storing a window's computed checksum makes the stored checksum equal to the computed one |
| Codec.RebuildValidates | editor/bn5.ts:222-225 | after the rebuild the stored checksum equals the computed checksum |
| Codec.RebuiltIsFixpoint | editor/bn6.ts:224-228 | the rebuild loop leaves an already rebuilt window unchanged |
| Codec.RebuildIdempotent | editor/bn6.ts:207-210 | rebuilding a rebuilt window changes nothing |
| Codec.Image | editor/bn5.ts:227-233 | the exported image is `0x10000` bytes long, zero outside the window, and holds the masked window at `0x100` |
| Codec.ExportRoundTrip | editor/bn6.ts:212-218 | the exported image of a save decodes to the same game and to exactly the rebuilt window |
| Codec.Editor.FromWindow | editor/bn5.ts:215 | binding a validated window gives an editor in a valid state, bound to the window's game |
| Codec.Editor.Open | editor/bn5.ts:186-216 | the constructor succeeds exactly when `Decode` does, fails with the same error otherwise, and leaves the caller's buffer unchanged; on success the editor holds a fresh copy equal to the decoded window and is bound to the decoded game |
| Codec.Editor.UnmaskedCopy | editor/bn6.ts:175-177 | the slice and unmask yield a fresh array equal to the unmasked window of the buffer |
| Codec.Editor.ComputeChecksum | editor/bn5.ts:218-220 | returns the checksum of the window for the bound game's seed, below 2^32 |
| Codec.Editor.GetChecksum | editor/bn5.ts:235-237 | the stored checksum is a 32-bit value |
| Codec.Editor.GetPatchCardCount | editor/bn5.ts:249-251 | the count is a byte value |
| Codec.Editor.GetPatchCard | editor/bn6.ts:246-256 | absent exactly when `i` is at or beyond the count |
| Codec.Editor.SetPatchCardCount | editor/bn6.ts:238-240 | the window becomes `WithCount` of the old window and the editor stays valid |
| Codec.Editor.SetPatchCard | editor/bn5.ts:273-275 | the window becomes `WithSlot` of the old window and the editor stays valid |
| Codec.Editor.SetPatchCardLoaded | editor/bn5.ts:277-288 | the window becomes `WithLoaded` of the old window with the bound version's key, and the editor stays valid |
| Codec.Editor.RebuildPatchCardsLoaded | editor/bn5.ts:239-243 | the loop leaves the window equal to the recursive specification of the rebuild applied to the old window |
| Codec.Editor.MarkReferenced | editor/bn5.ts:241 | one round reads slot `i` and marks its id loaded, advancing the loop's progress by one slot while keeping the count |
| Codec.Editor.RebuildChecksum | editor/bn5.ts:245-247 | stores the recomputed checksum in the field, after which the stored and computed checksums agree |
| Codec.Editor.Rebuild | editor/bn5.ts:222-225 | the window becomes `Rebuilt` of the old window, and the stored checksum equals the computed one |
| Codec.Editor.PlacedImage | editor/bn5.ts:229-230 | a fresh `0x10000`-byte image of zeros with the window copied in at `0x100` |
| Codec.Editor.MaskedImage | editor/bn6.ts:214-216 | the placed image with its window range masked in place equals `Image` of the window |
| Codec.Editor.Export | editor/bn5.ts:227-233 | rebuilds, then returns a fresh image equal to `Image` of the rebuilt window, which decodes to the editor's game and window |

## Left out

- `PATCH_CARD_INFOS` and `getPatchCardInfos` (editor/bn5.ts:66-178, editor/bn6.ts:38-156) are not modelled. They are static catalogue data with no logic.
- The `EditorBase` interface in `./index`, the `NAME` constants, the user interface, and file loading and saving are not part of this model. They are outside collaborators.
- `ArrayBuffer`, `DataView` and `Uint8Array` are replaced by Dafny arrays and sequences. The model does not capture views that alias one buffer; each view is an explicit offset and length.
- The thrown strings `"unknown game name: " + gn` and `"checksum mismatch"` become the two `DecodeError` cases of a `Result`. The unknown-name case carries the raw name bytes; the formatted message is not modelled.
- `TextDecoder("ascii")` is not modelled. The name is compared as raw bytes against the ASCII bytes of the keys. Every key is plain ASCII and the decoder maps each byte to one character, so the two comparisons agree.
- The `RangeError` of an access outside the window, and a too-short buffer given to the constructor, are preconditions here rather than error results:
  - the buffer holds at least `0x100 + size` bytes;
  - a slot index and a loaded id lie inside the window;
  - `getPatchCard` below the count and `rebuildPatchCardsLoaded` need the slots below the count to fit, which in bn6 means a count of at most `0xF0`.
- Indices and ids are `nat`, and `setPatchCard`'s id and `setPatchCardCount`'s argument are integers of any sign (stored through the byte conversion of `setUint8`). Negative or fractional slot indices and loaded ids are excluded. The source does not reject them: it truncates a fraction and reads or writes the byte at the shifted offset (`getPatchCard(-1)` in bn5 decodes the byte at `0x79CF`). Fractional ids and counts are not modelled either.
- The two `Editor` classes are modelled as one class over a `Family` value. bn6 records no region, so its games carry `None` where bn5 carries US or JP.
