# cuby_midp record stores, sprites and images in Dafny

This project models three classes of a MIDP 2.0 class library (the Java
profile for mobile phones). It then proves properties of that model.

- **`javax.microedition.rms.RecordStore`** is the record management
  system. A record store belongs to a MIDlet suite and is named by that
  suite. It holds byte records under integer ids:
  - the first id is 1;
  - each new record gets the id after the previous one;
  - ids are never reused.

  A store has a version that rises with every change. It counts its opens
  and is open until every open has been balanced by a close. Listeners are
  told of each change. An authorization mode decides whether other suites
  may open the store and whether they may write it. Enumerations traverse
  the records a filter accepts, in a comparator's order, forwards or
  backwards.
- **`javax.microedition.lcdui.game.Sprite`** cuts an image into equal raw
  frames, numbered in row-major order. It keeps a frame sequence, either
  the default `0 .. n-1` or a custom one, with a current index that wraps
  around. It also keeps a transform code and a collision rectangle.
- **`javax.microedition.lcdui.Image`** has static factories that check their
  arguments. The model covers the size a transformed region gets and the
  row-major layout `P(a, b) = rgb[a + b * width]` of ARGB data.

Most method bodies in the repository are placeholders. The model follows
their documented contracts and the checks the code does perform. The
argument guards of three `Image` factories are the exception: the model
uses exact integer arithmetic where the code's 32-bit sums and products
can wrap. The as-written guards are modelled separately (see
"## Findings").

Files and modules:

| file | module | contents |
|---|---|---|
| `java_lang.dfy` | `JavaLang` | `int`/`byte` ranges, 32-bit wrap-around, the exceptions, `Result`/`Outcome`/`Option` |
| `transform.dfy` | `Transform` | the eight transform codes and the two bit masks `Image` tests |
| `images.dfy` | `Images` | the `Image` factories, their guards as intended and as written |
| `sprite.dfy` | `Sprite` | frame grid, frame sequences, the `Sprite` class |
| `record_table.dfy` | `RecordTable` | a store's records, next id and version as a value; runs of changes |
| `store_rules.dfy` | `StoreRules` | names, suites, authorization, record payloads, listener lists |
| `record_order.dfy` | `RecordOrder` | which ids an enumeration traverses, in which order, and its cursor |
| `record_store.dfy` | `RecordStores` | the `RecordStore` and `RecordEnumeration` classes |
| `registry.dfy` | `StoreRegistry` | all stores by owner and name; the static open, delete and list operations |

Design decisions:

- **Who is calling.** The calling suite is an explicit `caller: Suite`
  argument. On the device the platform supplies it implicitly.
- **Exceptions.** A thrown exception is a value: `Err(e)` or `Fail(e)`.
- **`null`.** A `null` reference is `None`.
- **Listeners.** Each listener call is recorded in the store's
  `callbacks` log.
- **Store sessions.** The registry maps each `(owner, name)` to the store
  object of its current session. Opening a store that is already open
  returns the same object with its open count raised. Opening a fully
  closed store starts a new session object that carries the saved table
  and mode. References and enumerations from the old session therefore
  stay closed.
- **Name length.** The documentation allows "between one and 32 Unicode
  characters". The code measures names with `String.length()`
  (RecordStore.java:311), which counts UTF-16 code units, so a character
  above the basic plane counts twice. The model follows the code for every
  name check.
- **Order of checks.** When several errors apply, the model reports them
  in a fixed order:
  - a changing operation reports "not open", then "may not write"
    (SecurityException), then a bad payload, then an unknown id;
  - `setMode` reports "not open", then a caller that is not the owner,
    then an invalid mode.
- **Enumerations.**
  - Without a comparator the order is ascending id. The documentation
    leaves that order undefined.
  - Ties under a comparator are broken by id.
  - A kept-updated enumeration rebuilds before each step. Its cursor
    moves to the last record it has returned that is still enumerated,
    so deleting records never brings back one already returned.
  - On a closed store every enumeration step is RecordStoreNotOpen.
  - Past either end a step is InvalidRecordIDException.
- **`createImage(byte[], int, int)`.** The code and its documentation
  differ here; the model follows the code. The code's guard
  `imageOffset >= imageData.length` rejects every call on an empty array,
  and it accepts a zero `imageLength` at a valid offset.
- **Shared open.** In `openRecordStore(name, create, authmode, writable)`
  the call that sets the mode on the platform peer is commented out. The
  model keeps the step. It calls `setMode` on the new store and then takes
  an optional platform failure as a parameter, `platformFailure`. Either
  failure triggers the rollback. The code closes the new store
  (RecordStore.java:219-223), but the delete that should follow is also
  commented out (RecordStore.java:226-229). The model performs that
  delete as well, so a failed shared open leaves no store behind.

## Model

| member | source | states |
|---|---|---|
| JavaLang.Wrap32 | cuby_midp/src/javax/microedition/lcdui/Image.java:442-447 | the `int` a Java expression yields differs from the mathematical value by a multiple of 2^32 and equals it when in range |
| Transform.ValidIffInRange | cuby_midp/src/javax/microedition/lcdui/Image.java:230-233 | the `INVALID_TRANSFORM_BITS` mask test accepts exactly the codes 0..7; every negative `int` is rejected |
| Transform.TransformCodes | cuby_midp/src/javax/microedition/lcdui/game/Sprite.java:156-206 | the eight `TRANS_*` constants are distinct and are exactly the codes the mask test accepts |
| Transform.SwapIffQuarterTurn | cuby_midp/src/javax/microedition/lcdui/Image.java:235-238 | among valid codes the swap-axis bit is set exactly for ROT90, ROT270, MIRROR_ROT90 and MIRROR_ROT270 |
| Images.CreateImage | cuby_midp/src/javax/microedition/lcdui/Image.java:240-258 | succeeds iff both sizes are positive (else IllegalArgumentException); the image is mutable and of that size |
| Images.CreateImageCopy | cuby_midp/src/javax/microedition/lcdui/Image.java:260-287 | the copy is immutable and has the source's size |
| Images.RejectsBytesIffOutside | cuby_midp/src/javax/microedition/lcdui/Image.java:353-357 | the byte-range guard throws iff the offset or some index of the range lies outside the array |
| Images.CreateImageFromBytes | cuby_midp/src/javax/microedition/lcdui/Image.java:312-360 | succeeds iff the range lies inside the array, else ArrayIndexOutOfBoundsException; hands over exactly the bytes of the range |
| Images.RejectsBytesAsWrittenAgrees | cuby_midp/src/javax/microedition/lcdui/Image.java:353-357 | the guard as written, with 32-bit addition, agrees with the intended guard whenever `offset + length` does not overflow, and never rejects more |
| Images.BytesOverflowSlipsThrough | cuby_midp/src/javax/microedition/lcdui/Image.java:353-357 | offset 1 and length `Integer.MAX_VALUE` on a 10-byte array pass the guard as written though the range is outside |
| Images.RejectsRegionIffOutside | cuby_midp/src/javax/microedition/lcdui/Image.java:442-447 | the region guard throws iff the region is empty or some pixel of it lies outside the image |
| Images.CreateImageRegion | cuby_midp/src/javax/microedition/lcdui/Image.java:362-456 | succeeds iff the transform is valid and the region is non-empty and inside the image, else IllegalArgumentException; the result is immutable and the region's size, with width and height exchanged exactly for swapping transforms |
| Images.WholeImageIsCopy | cuby_midp/src/javax/microedition/lcdui/Image.java:449-452 | the whole image with TRANS_NONE yields the same as `createImage(image)`: an immutable image of the same size (pixels are not modelled, so this holds for the shortcut and the general branch alike) |
| Images.Rot90SwapsSize | cuby_midp/src/javax/microedition/lcdui/Image.java:400-405 | a 100 x 50 region under TRANS_ROT90 yields a 50 x 100 image |
| Images.RejectsRegionAsWrittenAgrees | cuby_midp/src/javax/microedition/lcdui/Image.java:442-447 | the region guard as written agrees with the intended one when `x + width` and `y + height` do not overflow, and never rejects more |
| Images.RegionOverflowSlipsThrough | cuby_midp/src/javax/microedition/lcdui/Image.java:442-447 | a region at x = 1 of width `Integer.MAX_VALUE` in a 10 x 10 image passes the guard as written though it lies outside |
| Images.PixelIndexInBounds | cuby_midp/src/javax/microedition/lcdui/Image.java:510-535 | every pixel of a width x height image reads an index below `width * height` |
| Images.PixelIndexInverse | cuby_midp/src/javax/microedition/lcdui/Image.java:510-535 | the pixel is recovered from its index as `(i % width, i / width)`, so distinct pixels read distinct entries |
| Images.IndexIsPixel | cuby_midp/src/javax/microedition/lcdui/Image.java:510-535 | every index below `width * height` is the index of a pixel of the image |
| Images.CreateRGBImage | cuby_midp/src/javax/microedition/lcdui/Image.java:488-565 | succeeds iff both sizes are positive and the array holds `width * height` values; IllegalArgumentException for the sizes, else ArrayIndexOutOfBoundsException; the image is immutable and of that size |
| Images.RGBPixels | cuby_midp/src/javax/microedition/lcdui/Image.java:510-535 | pixel `P(a, b)` of the created image is `rgb[a + b * width]`, and that index lies inside the array |
| Images.RGBOverflowSlipsThrough | cuby_midp/src/javax/microedition/lcdui/Image.java:556-562 | 65536 x 65536 over an empty array passes the length guard as written (the product wraps to 0) though the intended check fails |
| Sprite.FrameGrid | cuby_midp/src/javax/microedition/lcdui/game/Sprite.java:227-271 | an accepted frame size tiles the image exactly in columns and rows, with at least one raw frame |
| Sprite.RowMajorFrames | cuby_midp/src/javax/microedition/lcdui/game/Sprite.java:29-33 | the frame at grid column `col`, row `row` has number `col + row * columns`, which is a raw frame whose origin is `(col * frameWidth, row * frameHeight)`, and the frame lies inside the image |
| Sprite.DefaultSequence | cuby_midp/src/javax/microedition/lcdui/game/Sprite.java:36-40 | the default sequence has one entry per raw frame and entry k is frame k |
| Sprite.DefaultIsFrameSequence | cuby_midp/src/javax/microedition/lcdui/game/Sprite.java:36-40 | the default sequence is a usable frame sequence |
| Sprite.KeptSequenceStillValid | cuby_midp/src/javax/microedition/lcdui/game/Sprite.java:527-596 | a custom sequence stays valid when the new image has at least as many raw frames |
| Sprite.Reframe | cuby_midp/src/javax/microedition/lcdui/game/Sprite.java:527-596 | after a change of image the sequence is valid for the new frames; with fewer frames the index is 0 and the default sequence is used; otherwise index and custom sequence are kept |
| Sprite.NextIndex | cuby_midp/src/javax/microedition/lcdui/game/Sprite.java:433-445 | the next index is `(i + 1) mod n`: the last entry wraps to the first |
| Sprite.PrevIndex | cuby_midp/src/javax/microedition/lcdui/game/Sprite.java:447-459 | the previous index is `(i - 1) mod n`: the first entry wraps to the last |
| Sprite.PrevUndoesNext | cuby_midp/src/javax/microedition/lcdui/game/Sprite.java:433-459 | `prevFrame` undoes `nextFrame` and vice versa |
| Sprite.AdvanceIsModular | cuby_midp/src/javax/microedition/lcdui/game/Sprite.java:433-445 | k calls of `nextFrame` land on `(i + k) mod n` |
| Sprite.FullCycle | cuby_midp/src/javax/microedition/lcdui/game/Sprite.java:433-445 | n calls of `nextFrame` on a sequence of length n return to the start |
| Sprite.Sprite.Init | cuby_midp/src/javax/microedition/lcdui/game/Sprite.java:227-271 | initial state: default sequence at index 0, TRANS_NONE, collision rectangle of one frame |
| Sprite.Sprite.Create | cuby_midp/src/javax/microedition/lcdui/game/Sprite.java:227-271 | fails with IllegalArgumentException iff the frame size is not positive or does not divide the image; otherwise a sprite on frame 0 of the default sequence, with no transform and the whole frame as collision rectangle |
| Sprite.Sprite.CreateSingleFrame | cuby_midp/src/javax/microedition/lcdui/game/Sprite.java:210-225 | a sprite of one frame, the whole image, with sequence `[0]`, no transform and the whole image as collision rectangle |
| Sprite.Sprite.Copy | cuby_midp/src/javax/microedition/lcdui/game/Sprite.java:273-296 | every attribute of the source sprite is duplicated |
| Sprite.Sprite.GetRawFrameCount | cuby_midp/src/javax/microedition/lcdui/game/Sprite.java:407-418 | at least one raw frame, and the frames' total area is the image's area |
| Sprite.Sprite.GetFrameSequenceLength | cuby_midp/src/javax/microedition/lcdui/game/Sprite.java:420-431 | at least 1, and the raw frame count while the default sequence is in use |
| Sprite.Sprite.GetFrame | cuby_midp/src/javax/microedition/lcdui/game/Sprite.java:394-405 | the current index is an index of the frame sequence and names a raw frame |
| Sprite.Sprite.SetFrame | cuby_midp/src/javax/microedition/lcdui/game/Sprite.java:374-392 | IndexOutOfBoundsException iff the index is outside the sequence, nothing changed; otherwise it becomes the current index |
| Sprite.Sprite.NextFrame | cuby_midp/src/javax/microedition/lcdui/game/Sprite.java:433-445 | the index advances circularly |
| Sprite.Sprite.PrevFrame | cuby_midp/src/javax/microedition/lcdui/game/Sprite.java:447-459 | the index steps back circularly |
| Sprite.Sprite.SetFrameSequence | cuby_midp/src/javax/microedition/lcdui/game/Sprite.java:491-525 | `null` restores the default sequence; an empty array is IllegalArgumentException; an entry that is no raw frame is ArrayIndexOutOfBoundsException; on failure nothing changes; on success the entries are copied and the index is 0 |
| Sprite.Sprite.SetImage | cuby_midp/src/javax/microedition/lcdui/game/Sprite.java:527-596 | the constructor's frame checks, nothing changed on failure; fewer frames reset index and sequence, otherwise both are kept; a changed frame size resets the collision rectangle to the frame, an unchanged one keeps it |
| Sprite.Sprite.DefineCollisionRectangle | cuby_midp/src/javax/microedition/lcdui/game/Sprite.java:598-629 | IllegalArgumentException iff width or height is negative, nothing changed; otherwise the rectangle is set |
| Sprite.Sprite.SetTransform | cuby_midp/src/javax/microedition/lcdui/game/Sprite.java:631-672 | IllegalArgumentException iff the code is not one of the eight `TRANS_*` values; otherwise it is the new transform |
| RecordTable.Empty | cuby_midp/src/javax/microedition/rms/RecordStore.java:58-67 | a new store has no records and its first id is 1 |
| RecordTable.Add | cuby_midp/src/javax/microedition/rms/RecordStore.java:557-587 | the record is stored under `nextId`, an id not in use; `nextId` rises by one and the version rises |
| RecordTable.Set | cuby_midp/src/javax/microedition/rms/RecordStore.java:679-709 | InvalidRecordIDException iff the id is not in use; otherwise only that record's data changes and the version rises |
| RecordTable.Delete | cuby_midp/src/javax/microedition/rms/RecordStore.java:589-607 | InvalidRecordIDException iff the id is not in use; otherwise exactly that record is removed, `nextId` is kept and the version rises |
| RecordTable.IssuedConsecutive | cuby_midp/src/javax/microedition/rms/RecordStore.java:58-67 | over any run of changes the added records get consecutive ids from `nextId` on, and `nextId` ends one past the last |
| RecordTable.FirstIdIsOne | cuby_midp/src/javax/microedition/rms/RecordStore.java:58-67 | from a new store the k-th added record gets id k |
| RecordTable.NeverReissued | cuby_midp/src/javax/microedition/rms/RecordStore.java:531-555 | an id handed out before a run is not handed out again in it |
| RecordTable.DeletedStaysDeleted | cuby_midp/src/javax/microedition/rms/RecordStore.java:589-607 | a deleted id stays absent through any run of changes |
| RecordTable.VersionCountsChanges | cuby_midp/src/javax/microedition/rms/RecordStore.java:422-443 | after a run the version has risen at least once per successful change, and a run without changes leaves it as it was |
| StoreRules.Utf16Length | cuby_midp/src/javax/microedition/rms/RecordStore.java:311-313 | a name's length as `String.length()` counts it: at least one unit per character, at most two, and zero exactly for the empty name |
| StoreRules.Utf16LengthAppend | cuby_midp/src/javax/microedition/rms/RecordStore.java:311-313 | the length of a concatenation is the sum of the lengths |
| StoreRules.Utf16LengthExtremes | cuby_midp/src/javax/microedition/rms/RecordStore.java:311-313 | basic-plane characters count one unit each, characters above it two each |
| StoreRules.SurrogatePairsCount | cuby_midp/src/javax/microedition/rms/RecordStore.java:311-313 | seventeen characters above the basic plane exceed the 32-unit limit |
| StoreRules.OpenRule | cuby_midp/src/javax/microedition/rms/RecordStore.java:253-268 | a private store opens only for its owner; an AUTHMODE_ANY store opens for every suite |
| StoreRules.Payload | cuby_midp/src/javax/microedition/rms/RecordStore.java:557-587 | `null` data is the empty record when `numBytes` is 0, else NullPointerException; a range outside the array is ArrayIndexOutOfBoundsException; otherwise exactly the bytes of the range |
| StoreRules.WholePayload | cuby_midp/src/javax/microedition/rms/RecordStore.java:557-587 | passing a whole array hands over exactly its contents |
| StoreRules.AddListener | cuby_midp/src/javax/microedition/rms/RecordStore.java:507-517 | the listener is registered afterwards; one already registered is not added a second time; duplicates never arise |
| StoreRules.RemoveListener | cuby_midp/src/javax/microedition/rms/RecordStore.java:519-529 | the listener is no longer registered, every other one stays; an unregistered one leaves the list as it is |
| StoreRules.AddIdempotent | cuby_midp/src/javax/microedition/rms/RecordStore.java:507-517 | registering twice is registering once |
| StoreRules.RemoveUndoesAdd | cuby_midp/src/javax/microedition/rms/RecordStore.java:507-529 | adding a new listener and removing it restores the list |
| StoreRules.Fanout | cuby_midp/src/javax/microedition/rms/RecordStore.java:557-587 | one change calls every registered listener once, in registration order |
| RecordOrder.Matching | cuby_midp/src/javax/microedition/rms/RecordStore.java:711-773 | the ids in range of records the filter accepts, each once, ascending |
| RecordOrder.BeforeTotal | cuby_midp/src/javax/microedition/rms/RecordStore.java:711-773 | under a consistent comparator, of two different records one comes before the other |
| RecordOrder.Insert | cuby_midp/src/javax/microedition/rms/RecordStore.java:711-773 | inserting adds exactly that id and keeps the ids sorted |
| RecordOrder.Sort | cuby_midp/src/javax/microedition/rms/RecordStore.java:711-773 | the sorted ids are a permutation of the input, and sorted in the comparator's order when the comparator is consistent |
| RecordOrder.EnumerationOrder | cuby_midp/src/javax/microedition/rms/RecordStore.java:711-773 | an enumeration holds every record the filter accepts exactly once: ascending without a comparator, in the comparator's order with one |
| RecordOrder.NextPosition | cuby_midp/src/javax/microedition/rms/RecordStore.java:711-773 | `nextRecord` starts at the first record and has none left exactly after the last |
| RecordOrder.PrevPosition | cuby_midp/src/javax/microedition/rms/RecordStore.java:711-773 | `previousRecord` starts at the last record and has none left exactly after the first |
| RecordOrder.ForwardFrom | cuby_midp/src/javax/microedition/rms/RecordStore.java:711-773 | repeated `nextRecord` visits the following records in order up to the last |
| RecordOrder.BackwardFrom | cuby_midp/src/javax/microedition/rms/RecordStore.java:711-773 | repeated `previousRecord` visits the preceding records in reverse order down to the first |
| RecordOrder.FreshWalks | cuby_midp/src/javax/microedition/rms/RecordStore.java:711-773 | on a new enumeration k calls of `nextRecord` give the first k records; k calls of `previousRecord` give the last k, last first |
| RecordOrder.StepsReverse | cuby_midp/src/javax/microedition/rms/RecordStore.java:711-773 | a step back after a step forward (or the reverse) returns to the record returned before |
| RecordOrder.IndexOf | cuby_midp/src/javax/microedition/rms/RecordStore.java:711-773 | the first position of an id in the enumeration |
| RecordOrder.Follow | cuby_midp/src/javax/microedition/rms/RecordStore.java:711-773 | after a rebuild the cursor is on the last already-returned record that is still enumerated, and before the first record when none is left |
| RecordOrder.Without | cuby_midp/src/javax/microedition/rms/RecordStore.java:711-773 | the enumeration after deleting records holds exactly the ids not deleted, without repeats |
| RecordOrder.MatchingAfterDelete | cuby_midp/src/javax/microedition/rms/RecordStore.java:711-773 | without a comparator, the enumeration rebuilt after `deleteRecord` is the old one with the deleted ids taken out, in the same order |
| RecordOrder.FollowKeepsConsumed | cuby_midp/src/javax/microedition/rms/RecordStore.java:711-773 | after deletions the records up to the cursor are exactly the returned ones that survive, and `nextRecord` then gives a record not returned before |
| RecordOrder.LiveSeesAdded | cuby_midp/src/javax/microedition/rms/RecordStore.java:711-773 | after `addRecord` of accepted data the enumeration of the store holds the new record |
| RecordStores.RecordStore.Create | cuby_midp/src/javax/microedition/rms/RecordStore.java:111-142 | a new store: empty table with first id 1, opened once, no listeners |
| RecordStores.RecordStore.Reopen | cuby_midp/src/javax/microedition/rms/RecordStore.java:369-392 | a closed store opened again keeps its records and mode, without the old listeners |
| RecordStores.RecordStore.Notify | cuby_midp/src/javax/microedition/rms/RecordStore.java:557-587 | every registered listener is called once, in order |
| RecordStores.RecordStore.GetName | cuby_midp/src/javax/microedition/rms/RecordStore.java:411-420 | RecordStoreNotOpenException iff closed; otherwise the store's name |
| RecordStores.RecordStore.GetVersion | cuby_midp/src/javax/microedition/rms/RecordStore.java:422-443 | RecordStoreNotOpenException iff closed; otherwise the current version |
| RecordStores.RecordStore.GetNumRecords | cuby_midp/src/javax/microedition/rms/RecordStore.java:445-455 | RecordStoreNotOpenException iff closed; otherwise the number of records |
| RecordStores.RecordStore.GetNextRecordID | cuby_midp/src/javax/microedition/rms/RecordStore.java:531-555 | RecordStoreNotOpenException iff closed; otherwise an id above every id in use, and the one `addRecord` hands out next |
| RecordStores.RecordStore.GetRecordSize | cuby_midp/src/javax/microedition/rms/RecordStore.java:609-629 | not open, then InvalidRecordIDException iff the id is not in use; otherwise the record's length |
| RecordStores.RecordStore.GetRecord | cuby_midp/src/javax/microedition/rms/RecordStore.java:657-677 | not open, then InvalidRecordIDException iff the id is not in use; `null` exactly for a record without data, otherwise its data |
| RecordStores.RecordStore.GetRecordInto | cuby_midp/src/javax/microedition/rms/RecordStore.java:631-655 | not open, then unknown id, then ArrayIndexOutOfBoundsException iff the data does not fit; on success the buffer holds the data from `offset` on, is unchanged elsewhere, and the length is returned |
| RecordStores.RecordStore.AddRecord | cuby_midp/src/javax/microedition/rms/RecordStore.java:557-587 | not open, then SecurityException for a read-only caller, then the payload's errors; otherwise the table is `Add` of the old one, the old `nextId` is returned and every listener is told; on failure nothing changes |
| RecordStores.RecordStore.SetRecord | cuby_midp/src/javax/microedition/rms/RecordStore.java:679-709 | the same refusals, then the payload, then InvalidRecordIDException; on success the table is `Set` of the old one and every listener is told; on failure nothing changes |
| RecordStores.RecordStore.DeleteRecord | cuby_midp/src/javax/microedition/rms/RecordStore.java:589-607 | the same refusals, then InvalidRecordIDException; on success the table is `Delete` of the old one and every listener is told; on failure nothing changes |
| RecordStores.RecordStore.AddRecordListener | cuby_midp/src/javax/microedition/rms/RecordStore.java:507-517 | the listener list becomes `AddListener` of the old one |
| RecordStores.RecordStore.RemoveRecordListener | cuby_midp/src/javax/microedition/rms/RecordStore.java:519-529 | the listener list becomes `RemoveListener` of the old one |
| RecordStores.RecordStore.SetMode | cuby_midp/src/javax/microedition/rms/RecordStore.java:332-367 | not open, then SecurityException unless the owner calls, then IllegalArgumentException iff the mode is invalid; on success the mode and writability are set, on failure kept |
| RecordStores.RecordStore.CloseRecordStore | cuby_midp/src/javax/microedition/rms/RecordStore.java:369-392 | RecordStoreNotOpenException iff already closed; one close per open; the last close removes every listener |
| RecordStores.RecordStore.EnumerateRecords | cuby_midp/src/javax/microedition/rms/RecordStore.java:711-773 | RecordStoreNotOpenException iff closed; otherwise a new enumeration of the store's accepted records in order, before its first record |
| RecordStores.RecordEnumeration.constructor | cuby_midp/src/javax/microedition/rms/RecordStore.java:711-773 | the enumeration's ids are those of the store's accepted records, and it stands before the first |
| RecordStores.RecordEnumeration.CurrentCursor | cuby_midp/src/javax/microedition/rms/RecordStore.java:711-773 | the cursor of a kept-updated enumeration is valid over the store's current records |
| RecordStores.RecordEnumeration.NumRecords | cuby_midp/src/javax/microedition/rms/RecordStore.java:711-773 | RecordStoreNotOpenException iff the store is closed; otherwise the number of records enumerated now, the store's current count of accepted records when kept updated |
| RecordStores.RecordEnumeration.Refresh | cuby_midp/src/javax/microedition/rms/RecordStore.java:711-773 | a kept-updated enumeration takes up the store's current records and keeps its place |
| RecordStores.RecordEnumeration.Fetch | cuby_midp/src/javax/microedition/rms/RecordStore.java:711-773 | a record is read from the store when returned; one deleted meanwhile is InvalidRecordIDException |
| RecordStores.RecordEnumeration.NextRecord | cuby_midp/src/javax/microedition/rms/RecordStore.java:711-773 | not open when the store is closed; otherwise the next record by `NextPosition`, and InvalidRecordIDException past the end |
| RecordStores.RecordEnumeration.PreviousRecord | cuby_midp/src/javax/microedition/rms/RecordStore.java:711-773 | not open when the store is closed; otherwise the previous record by `PrevPosition`, and InvalidRecordIDException before the start |
| RecordStores.RecordEnumeration.Rebuild | cuby_midp/src/javax/microedition/rms/RecordStore.java:711-773 | not open when the store is closed; otherwise the ids are rebuilt from the store and the cursor starts over |
| StoreRegistry.Registry.Attach | cuby_midp/src/javax/microedition/rms/RecordStore.java:111-142 | an open store is returned as the same object with one more open; a closed one gets a new session with its saved records and mode |
| StoreRegistry.Registry.OpenRecordStore | cuby_midp/src/javax/microedition/rms/RecordStore.java:111-142 | IllegalArgumentException for a bad name; RecordStoreNotFoundException for a missing store without creation; otherwise an open store, either the existing one with its records or a new empty private one; nothing changes on failure |
| StoreRegistry.Registry.OpenRecordStoreShared | cuby_midp/src/javax/microedition/rms/RecordStore.java:199-242 | an existing store opens with its mode unchanged; a created one gets the requested mode; if setting the mode fails, that failure is returned and no store is left behind |
| StoreRegistry.Registry.CreateShared | cuby_midp/src/javax/microedition/rms/RecordStore.java:212-238 | creation followed by `setMode`; on failure the store is closed and deleted again, and the registry is as before |
| StoreRegistry.Registry.OpenRecordStoreOf | cuby_midp/src/javax/microedition/rms/RecordStore.java:296-318 | IllegalArgumentException without vendor or suite; NullPointerException without a name; IllegalArgumentException for a bad name; not found; SecurityException iff the mode does not admit the caller; otherwise the store opens with its state kept |
| StoreRegistry.Registry.DeleteRecordStore | cuby_midp/src/javax/microedition/rms/RecordStore.java:83-109 | `null` or empty name and a missing store are RecordStoreNotFoundException; an open store is RecordStoreException; otherwise exactly that store is removed, with no listener called |
| StoreRegistry.Registry.ListRecordStores | cuby_midp/src/javax/microedition/rms/RecordStore.java:394-409 | `null` iff the caller owns no store; otherwise each of the caller's store names exactly once |

## Left out

- Persistence is not modelled: the registry is in memory, and the sizes (`getSize`, `getSizeAvailable`), the last-modified time stamp and RecordStoreFullException are left out.
- Concurrency and the platform's serialization of store operations are not modelled.
- The version starts at 0 and rises by exactly 1. The source leaves the initial value and the increment to the implementation; the lemmas only use "rises".
- Record ids, `nextId` and the version are unbounded integers. Overflow after 2^31 records is not modelled.
- `RecordEnumeration.java`, `RecordFilter`, `RecordComparator` and `RecordListener` are not part of this model. Their roles are played by functions and a listener identity.
  - Enumeration methods other than `nextRecord`, `previousRecord`, `numRecords` and `rebuild` are not modelled. These are `nextRecordId`, `hasNextElement`, `reset`, `keepUpdated(boolean)` and `destroy`.
- RecordStores.RecordStore.SetMode: failure of the store layer (RecordStoreException) is not modelled. Only the owner, mode and open checks are.
- `Sprite` positioning, the reference pixel, `paint` and the `collidesWith` pixel tests are not modelled. They draw or read pixels through `Graphics` and `Layer`, which are not part of this model.
- Image decoding (PNG) is not modelled. This covers `createImage(String)`, `createImage(InputStream)`, alpha processing, `getGraphics` and pixel contents other than the ARGB layout of `createRGBImage`. Images.CreateImageFromBytes returns the bytes it would decode.
- `null` arguments of the `Image` factories and `Sprite` constructors (NullPointerException) are not modelled. Images are values that are always present.
- RecordStores.RecordStore.GetRecordInto: a `null` buffer (NullPointerException in `getRecord(int, byte[], int)`) is not modelled. The buffer is an array that is always present.
- Images.CreateImageFromBytes: the range guard uses exact arithmetic. The code's `imageOffset + imageLength` can wrap past 2^31 and let a range through; that behaviour is modelled separately (see "## Findings").
- Images.CreateImageRegion: the region guard uses exact arithmetic. The code's `x + width` and `y + height` can wrap; that behaviour is modelled separately (see "## Findings").
- Images.CreateRGBImage: the array-length guard uses the exact product. The code's `width * height` can wrap; that behaviour is modelled separately (see "## Findings").
- `Connector`, `StringItem` and `AlertType` are not part of this model.

## Findings

| source | as written | input that shows it | evidently intended | confidence | as-written member | corrected member |
|---|---|---|---|---|---|---|
| cuby_midp/src/javax/microedition/lcdui/Image.java:353-357 | `imageOffset + imageLength > imageData.length` in 32-bit `int` arithmetic | 10-byte array, offset 1, length `Integer.MAX_VALUE`: the sum wraps negative and the guard passes | reject every range that runs past the array | not executed | Images.BytesOverflowSlipsThrough | Images.CreateImageFromBytes |
| cuby_midp/src/javax/microedition/lcdui/Image.java:442-447 | `(x + width) > image.getWidth()` (and the same for y) in `int` arithmetic | 10 x 10 image, x = 1, width `Integer.MAX_VALUE`: `x + width` wraps negative and the region is accepted | reject every region that leaves the image | not executed | Images.RegionOverflowSlipsThrough | Images.CreateImageRegion |
| cuby_midp/src/javax/microedition/lcdui/Image.java:556-562 | `(width * height) > rgb.length` in `int` arithmetic | 65536 x 65536 with an empty array: the product wraps to 0 and the guard passes | throw ArrayIndexOutOfBoundsException whenever the array has fewer than `width * height` values | not executed | Images.RGBOverflowSlipsThrough | Images.CreateRGBImage |
