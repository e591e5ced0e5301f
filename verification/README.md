# Verification of the GXP CHIF service and three kernel structures beneath it

This project models the host/BMC service of the GXP CHIF channel in Dafny and proves what its
callers rely on: the persistent store of BIOS environment variables (EVs) and its packet protocol,
the SMBIOS upload session, the firmware volume and PlatDef walkers that run at start-up, the daemon
loop that ties the services together, and, from the kernel, the CHIF packet queue, the UMAC receive
ring and the GPIO output path.

Run `dafny verify dfyconfig.toml` to check everything.

## How the model is built

- Code that changes state is a class with methods, loops and in-place buffer writes. Each method is
  proved against a function of its inputs and the old state; the promises are proved about those
  functions, over all inputs and over all runs.
- Files, the flash image and the channel are byte sequences. A stream is a read position with a
  failure flag that stays set (`Streams`).
- External calls are parameters: how a save, a directory creation, an I2C transfer or an allocation
  went, what the clock said, which frames arrived when. Theorems hold for every choice.
- Closing the SMBIOS file may lose its tail, because nothing is checked after that.
- A save that fails while copying leaves the old file or a prefix of the new one, because the code
  copies the temporary file over the real one.
- The GPIO ownership registers determine which CPU controls a line, so a write to a data register
  changes only the lines whose ownership bit is set.
- Casts to narrower integers truncate explicitly (`Le16`, `Le32`); the theorems show where nothing
  is lost.

| file | models |
|---|---|
| `Bytes.dfy`, `Streams.dfy`, `Packet.dfy` | little-endian fields, C strings, buffers, input streams, packet headers |
| `EvFormat.dfy`, `EvStore.dfy`, `EvRuns.dfy` | the EV file, `EvStorage`, and all its runs |
| `Smif.dfy`, `SmifRuns.dfy`, `SmifWire.dfy` | `SmifService`, what the host can rely on, and the protocol told by the bytes alone |
| `Smbios.dfy`, `Rom.dfy` | `SmbiosWriter`, `RomService`, and all sessions |
| `Daemon.dfy`, `WholeSystem.dfy` | `ChifDaemon`, each service seen through it, and what `main` sets up |
| `UefiFv.dfy`, `UefiImage.dfy` | `extractFfsFile`, and images to extract from |
| `PlatDef.dfy` | `parseI2cSegments` and the join with the mux topology |
| `ChifQueue.dfy`, `UmacRing.dfy`, `Gpio.dfy` | the kernel structures |

## Where code and documentation differ

- `ev_storage.hpp` promises that mutations persist by an atomic rename. The code copies instead.
  `EvRuns.AcknowledgedValueLost` gives a run in which an acknowledged value is lost;
  `EvRuns.SurvivesCut` says exactly when a value survives an interrupted copy, and
  `SmifRuns.ValueSurvives` when it survives a run. A restart that fails to open the file goes on with
  an empty store, so that the next save replaces a file that was whole (`EvRuns.UnopenedFileLost`).
- `smbios_writer.hpp` promises an atomic write. The code checks the stream before closing it, not
  after, so bytes lost at close leave a cut file that is renamed into place and announced
  (`Rom.CutFileAnnounced`); `Rom.RomSession` says exactly when the file is whole.
- A Set, Delete or DeleteAll whose save fails is answered as an error and takes effect all the same
  (`SmifRuns.FailedSaveStillApplies`, `SmifRuns.FailedDeleteStillApplies`,
  `SmifRuns.FailedDeleteAllStillApplies`), a Set or DeleteAll with the code for an over-long name.
- `rom_service.hpp` describes the End response as sent before the file is written; the code writes
  first.
- In `extractFfsFile`, going on to the next volume after a short read has no effect: the stream stays
  failed and the next read ends the scan.
- `umac_rx` gives a descriptor back before it resets the descriptor's length. A frame that arrives
  between the two stores in a full ring is later delivered with length 1514
  (`UmacRing.FullRingWindow`); `UmacRing.RunRing` says exactly when no length is changed.
- `umac_rx` counts a failed allocation as a dropped frame, but the frame stays in the ring and is
  delivered later.

## Model

| member | source | states |
|---|---|---|
| EvFormat.TornFileRecovery | meta-canopy/meta-hpe/meta-common/recipes-hpe/gxp-chif-service/gxp-chif-service/src/ev_storage.cpp:25-107 | cut the saved file after any k bytes: with at least 4 bytes left, loading succeeds with exactly the entries lying wholly inside them; with fewer it fails with the empty store |
| EvFormat.RoundTrip | meta-canopy/meta-hpe/meta-common/recipes-hpe/gxp-chif-service/gxp-chif-service/src/ev_storage.cpp:215-248 | loading what save wrote succeeds and gives the store back, entry for entry and in order |
| EvFormat.Canonicalisation | meta-canopy/meta-hpe/meta-common/recipes-hpe/gxp-chif-service/gxp-chif-service/src/ev_storage.cpp:51-102 | any bytes whatever load to a store within every limit, with NUL-free names, and saving and loading that store again changes nothing, even with repeated or empty names |
| EvFormat.LoadTakesLongestRun | meta-canopy/meta-hpe/meta-common/recipes-hpe/gxp-chif-service/gxp-chif-service/src/ev_storage.cpp:51-102 | any file of at least 8 bytes loads if and only if it starts with EVS1 and counts at most 10000 entries; the entries are then the longest leading run of whole entries within the limits, and -1 and none otherwise |
| EvFormat.EntryAtExactly | meta-canopy/meta-hpe/meta-common/recipes-hpe/gxp-chif-service/gxp-chif-service/src/ev_storage.cpp:72-101 | an entry is accepted if and only if its name of at most 31 bytes, its length and its data lie at offsets 0, 32 and 34 of the bytes there, inside file and budget |
| EvFormat.SerializedLength | meta-canopy/meta-hpe/meta-common/recipes-hpe/gxp-chif-service/gxp-chif-service/src/ev_storage.cpp:205-213 | the size that the space check works with is the length of the file that save writes |
| EvFormat.CountBound | meta-canopy/meta-hpe/meta-common/recipes-hpe/gxp-chif-service/gxp-chif-service/src/ev_storage.cpp:63-67 | a store within 65536 bytes has at most 1927 entries, so the loader's guard of 10000 never rejects a saved file |
| EvFormat.WholeEntriesUnique | meta-canopy/meta-hpe/meta-common/recipes-hpe/gxp-chif-service/gxp-chif-service/src/ev_storage.cpp:70-102 | the number of entries lying wholly inside a prefix of the file is determined by the prefix length |
| EvFormat.WholeEntriesExist | meta-canopy/meta-hpe/meta-common/recipes-hpe/gxp-chif-service/gxp-chif-service/src/ev_storage.cpp:70-102 | and there always is such a number |
| EvFormat.EncodedFields | meta-canopy/meta-hpe/meta-common/recipes-hpe/gxp-chif-service/gxp-chif-service/src/ev_storage.cpp:234-248 | an encoded entry shows its own name, length and data at their offsets |
| EvFormat.EntryAt | meta-canopy/meta-hpe/meta-common/recipes-hpe/gxp-chif-service/gxp-chif-service/src/ev_storage.cpp:72-101 | an entry accepted by the loader ends inside the file and the 65536-byte budget, and has a NUL-free name of at most 31 bytes and at most 3966 bytes of data |
| Bytes.LittleEndian | meta-canopy/meta-hpe/meta-common/recipes-hpe/gxp-chif-service/gxp-chif-service/src/packet.hpp:16-24 | what 16-, 32- and 64-bit fields read, byte by byte, the byte at the lowest offset counting least |
| EvStore.Find | meta-canopy/meta-hpe/meta-common/recipes-hpe/gxp-chif-service/gxp-chif-service/src/ev_storage.cpp:118-127 | the first entry with the name, or none exactly when no entry has it |
| EvStore.EvStorage.Load | meta-canopy/meta-hpe/meta-common/recipes-hpe/gxp-chif-service/gxp-chif-service/src/ev_storage.cpp:25-107 | from any file, missing or unreadable files included, the entry list becomes what the format's parser gives, with its return code |
| EvStore.EvStorage.ReadEntry | meta-canopy/meta-hpe/meta-common/recipes-hpe/gxp-chif-service/gxp-chif-service/src/ev_storage.cpp:70-102 | one turn of the load loop on the stream gives the entry at the cursor, or stops exactly where it is torn or over a limit |
| EvStore.EvStorage.Save | meta-canopy/meta-hpe/meta-common/recipes-hpe/gxp-chif-service/gxp-chif-service/src/ev_storage.cpp:215-274 | the file becomes the serialized store on success, and on failure stays or holds a prefix of it; only success is reported as true |
| EvStore.EvStorage.SerializedBytes | meta-canopy/meta-hpe/meta-common/recipes-hpe/gxp-chif-service/gxp-chif-service/src/ev_storage.cpp:205-213 | the loop's total is the header plus the size of every entry |
| EvStore.EvStorage.RemainingSize | meta-canopy/meta-hpe/meta-common/recipes-hpe/gxp-chif-service/gxp-chif-service/src/ev_storage.cpp:199-203 | bytes left and bytes used add up to 65536 |
| EvStore.EvStorage.Set | meta-canopy/meta-hpe/meta-common/recipes-hpe/gxp-chif-service/gxp-chif-service/src/ev_storage.cpp:129-173 | a set takes effect exactly when its arguments are well-formed and the resulting store fits in 65536 bytes, updating in place or appending, whether or not its save succeeds; true is returned exactly when it took effect and was saved |
| EvStore.EvStorage.Del | meta-canopy/meta-hpe/meta-common/recipes-hpe/gxp-chif-service/gxp-chif-service/src/ev_storage.cpp:175-186 | exactly the first entry of that name goes, the others closing up; false and no change when there is none |
| EvStore.EvStorage.DeleteAll | meta-canopy/meta-hpe/meta-common/recipes-hpe/gxp-chif-service/gxp-chif-service/src/ev_storage.cpp:188-192 | the list is emptied whatever the save does |
| EvStore.PutSize | meta-canopy/meta-hpe/meta-common/recipes-hpe/gxp-chif-service/gxp-chif-service/src/ev_storage.cpp:140-168 | the size of the store after a set, for updates by the difference and for insertions by the whole entry |
| EvStore.RemoveSize | meta-canopy/meta-hpe/meta-common/recipes-hpe/gxp-chif-service/gxp-chif-service/src/ev_storage.cpp:175-186 | a deletion never makes the store larger |
| EvRuns.RunRefinesMap | meta-canopy/meta-hpe/meta-common/recipes-hpe/gxp-chif-service/gxp-chif-service/src/ev_storage.cpp:109-192 | over every run of sets, deletes and clears, with any save outcomes, the entry list means what a finite map with insertion order means, and names stay unique |
| EvRuns.LookupRefines | meta-canopy/meta-hpe/meta-common/recipes-hpe/gxp-chif-service/gxp-chif-service/src/ev_storage.cpp:118-127 | getByName is lookup in that map |
| EvRuns.StepRefines | meta-canopy/meta-hpe/meta-common/recipes-hpe/gxp-chif-service/gxp-chif-service/src/ev_storage.cpp:129-192 | each single operation refines update, remove or clear on the map: an update keeps its place, an insertion appends, a deletion removes one name |
| EvRuns.SetAcceptedRefines | meta-canopy/meta-hpe/meta-common/recipes-hpe/gxp-chif-service/gxp-chif-service/src/ev_storage.cpp:145-168 | the space check passes exactly when the map after the update would fit in the budget |
| EvRuns.RunInvariant | meta-canopy/meta-hpe/meta-common/recipes-hpe/gxp-chif-service/gxp-chif-service/src/ev_storage.cpp:25-258 | over every run with failed saves, torn files and restarts anywhere: unique NUL-free names, every limit, at most 1927 entries, and the loader accepts what the service saved |
| EvRuns.RunFromEmpty | meta-canopy/meta-hpe/meta-common/recipes-hpe/gxp-chif-service/gxp-chif-service/src/ev_storage.cpp:109-274 | from the empty store every run means what the same run does on the empty map, within every limit |
| EvRuns.Durability | meta-canopy/meta-hpe/meta-common/recipes-hpe/gxp-chif-service/gxp-chif-service/src/ev_storage.cpp:129-274 | after every mutation that reports success the file is the serialized store, and a restart reproduces the store |
| EvRuns.SurvivesCut | meta-canopy/meta-hpe/meta-common/recipes-hpe/gxp-chif-service/gxp-chif-service/src/ev_storage.cpp:260-272 | after a failed copy that left k bytes, a restart finds the value of a name if and only if the last byte of its entry is among them |
| EvRuns.DiskLookup | meta-canopy/meta-hpe/meta-common/recipes-hpe/gxp-chif-service/gxp-chif-service/src/ev_storage.cpp:215-274 | what a restart finds after any save that changed the file, cut or not |
| EvRuns.AcknowledgedValueLost | meta-canopy/meta-hpe/meta-common/recipes-hpe/gxp-chif-service/gxp-chif-service/src/ev_storage.hpp:35-37 | the promised atomic persistence is not what the code does: an acknowledged value is lost by a later failed set of another name and a restart |
| EvRuns.UnopenedFileLost | meta-canopy/meta-hpe/meta-common/recipes-hpe/gxp-chif-service/gxp-chif-service/src/ev_storage.cpp:43-49 | a value saved whole is lost from memory and from the file when a restart fails to open the file and another name is then set with success |
| Packet.HeaderRoundTrip | meta-canopy/meta-hpe/meta-common/recipes-hpe/gxp-chif-service/gxp-chif-service/src/packet.hpp:41-56 | a header reads back from its bytes and the payload is what follows, for every header |
| Packet.FieldPlaces | meta-canopy/meta-hpe/meta-common/recipes-hpe/gxp-chif-service/gxp-chif-service/src/packet.hpp:18-46 | a number stored at offset 0, 2 or 4 of a packet is its size, its sequence number or its command; bytes 6 and 7 are service and version |
| Packet.EncodedPlaces | meta-canopy/meta-hpe/meta-common/recipes-hpe/gxp-chif-service/gxp-chif-service/src/packet.hpp:18-24 | the bytes of a header hold each field at its offset |
| Packet.InitResponse | meta-canopy/meta-hpe/meta-common/recipes-hpe/gxp-chif-service/gxp-chif-service/src/packet.hpp:60-70 | size, sequence number, and command with 0x8000 at offsets 0, 2 and 4, service and version at 6 and 7; the rest of the buffer stays |
| Packet.InitRomResponse | meta-canopy/meta-hpe/meta-common/recipes-hpe/gxp-chif-service/gxp-chif-service/src/packet.hpp:74-84 | the same with the command unchanged |
| Smif.SmifService.BuildSimpleResponse | meta-canopy/meta-hpe/meta-common/recipes-hpe/gxp-chif-service/gxp-chif-service/src/smif_service.cpp:30-44 | twelve bytes with the error code, or no answer and no change when they do not fit |
| Smif.SmifService.BuildEvDataResponse | meta-canopy/meta-hpe/meta-common/recipes-hpe/gxp-chif-service/gxp-chif-service/src/smif_service.cpp:46-87 | header, code 0, padded name, length and data side by side, four zero bytes for an empty value, whatever the buffer held; the fallback code when it does not fit |
| Smif.SmifService.HandleGetEvByIndex | meta-canopy/meta-hpe/meta-common/recipes-hpe/gxp-chif-service/gxp-chif-service/src/smif_service.cpp:98-116 | the entry at the index, noSuchEv beyond the end, deviceError without a store or an index |
| Smif.SmifService.ApplySetDelete | meta-canopy/meta-hpe/meta-common/recipes-hpe/gxp-chif-service/gxp-chif-service/src/smif_service.cpp:118-197 | the flag order, every error code and every store change of the set, delete and delete-all branches |
| Smif.SmifService.HandleGetEvByName | meta-canopy/meta-hpe/meta-common/recipes-hpe/gxp-chif-service/gxp-chif-service/src/smif_service.cpp:199-225 | the first entry of that name, with the error codes for short, unterminated and unknown names |
| Smif.SmifService.HandleEvStats | meta-canopy/meta-hpe/meta-common/recipes-hpe/gxp-chif-service/gxp-chif-service/src/smif_service.cpp:227-259 | bytes left, entry count and 64 KiB, or zeros without a store |
| Smif.SmifService.HandleI2cProxy | meta-canopy/meta-hpe/meta-common/recipes-hpe/gxp-chif-service/gxp-chif-service/src/smif_service.cpp:370-494 | a 57-byte answer that echoes address and segment, with the error code of the first check that fails or the bytes read |
| Smif.SmifService.Handle | meta-canopy/meta-hpe/meta-common/recipes-hpe/gxp-chif-service/gxp-chif-service/src/smif_service.cpp:529-578 | for any buffer, the bytes answered and the new store are functions of request, store and external outcomes alone; bytes behind the answer are untouched |
| SmifRuns.DispatchWellFormed | meta-canopy/meta-hpe/meta-common/recipes-hpe/gxp-chif-service/gxp-chif-service/src/smif_service.cpp:529-578 | every answer fits the buffer, is 12 to 4096 bytes long, announces its own length, echoes sequence, service and version and sets the response bit; only a buffer under 132 bytes can go unanswered |
| SmifRuns.FallbackUnreachable | meta-canopy/meta-hpe/meta-common/recipes-hpe/gxp-chif-service/gxp-chif-service/src/smif_service.cpp:58-61 | with a 4096-byte buffer the too-small fallback is never taken for a stored entry; below the needed size it always is |
| SmifRuns.EvDataDecodes | meta-canopy/meta-hpe/meta-common/recipes-hpe/gxp-chif-service/gxp-chif-service/src/smif_service.cpp:46-87 | a host decoding the answer gets exactly the entry's name, length and data |
| SmifRuns.SetRequestMeans | meta-canopy/meta-hpe/meta-common/recipes-hpe/gxp-chif-service/gxp-chif-service/src/smif_service.cpp:155-190 | the Set packet a host builds is read by the handler as exactly that name and data |
| SmifRuns.PutLookup | meta-canopy/meta-hpe/meta-common/recipes-hpe/gxp-chif-service/gxp-chif-service/src/ev_storage.cpp:129-173 | a set changes the value of its own name and of no other |
| SmifRuns.RemoveLookup | meta-canopy/meta-hpe/meta-common/recipes-hpe/gxp-chif-service/gxp-chif-service/src/ev_storage.cpp:175-186 | a deletion leaves the value of every other name |
| SmifRuns.UntouchedLookup | meta-canopy/meta-hpe/meta-common/recipes-hpe/gxp-chif-service/gxp-chif-service/src/smif_service.cpp:118-197 | a packet that neither sets nor deletes a name nor deletes everything leaves that name's value alone, whatever its save does |
| SmifRuns.ValueSurvives | meta-canopy/meta-hpe/meta-common/recipes-hpe/gxp-chif-service/gxp-chif-service/src/ev_storage.cpp:25-274 | over every run of packets that do not touch the name, with any save outcomes and restarts that open the file or fail to: the value is there if and only if the last restart opened the file and the last save before it that changed the file kept the value's bytes and was made while it was there; and it is in the file if and only if the last save that changed the file was of that kind |
| SmifRuns.ComesBack | meta-canopy/meta-hpe/meta-common/recipes-hpe/gxp-chif-service/gxp-chif-service/src/ev_storage.cpp:43-49 | a restart that fails to open the file empties the store; exactly the values still in the file come back at the next restart that opens it |
| SmifRuns.IntactFilesSurvive | meta-canopy/meta-hpe/meta-common/recipes-hpe/gxp-chif-service/gxp-chif-service/src/ev_storage.cpp:25-274 | so nothing is lost in a run without restarts, or one in which every restart opens the file and no failed copy touched it |
| SmifRuns.EndToEnd | meta-canopy/meta-hpe/meta-common/recipes-hpe/gxp-chif-service/gxp-chif-service/src/smif_service.cpp:118-225 | after a Set packet answered with success and any packets that do not touch the name, with any save outcomes and restarts that open the file or fail to: if the value survives in that sense, GetEvByName is answered by a packet that decodes to exactly the name, length and data, and otherwise by noSuchEv |
| SmifRuns.SetAcknowledged | meta-canopy/meta-hpe/meta-common/recipes-hpe/gxp-chif-service/gxp-chif-service/src/smif_service.cpp:155-194 | a Set packet whose result fits is acknowledged if and only if its save succeeds |
| SmifRuns.FailedSaveStillApplies | meta-canopy/meta-hpe/meta-common/recipes-hpe/gxp-chif-service/gxp-chif-service/src/smif_service.cpp:190-193 | Set answers success if and only if it fits and is saved; the value is nevertheless stored if and only if it fits (or was there before), so a failed save is answered as an error and still takes effect |
| SmifRuns.FailedDeleteStillApplies | meta-canopy/meta-hpe/meta-common/recipes-hpe/gxp-chif-service/gxp-chif-service/src/smif_service.cpp:135-182 | a deletion takes out the named entry and no other whether or not its save works, and is answered with success if and only if the name was there and the save worked; a Set without data deletes and always answers success |
| SmifRuns.FailedDeleteAllStillApplies | meta-canopy/meta-hpe/meta-common/recipes-hpe/gxp-chif-service/gxp-chif-service/src/smif_service.cpp:129-134 | DeleteAll empties the store whatever its save does, and its answer alone tells the two apart |
| SmifRuns.RequestIsOperation | meta-canopy/meta-hpe/meta-common/recipes-hpe/gxp-chif-service/gxp-chif-service/src/smif_service.cpp:118-197 | every request acts on the store as at most one set, delete or clear, on a NUL-free name |
| SmifRuns.ServiceKeepsInvariant | meta-canopy/meta-hpe/meta-common/recipes-hpe/gxp-chif-service/gxp-chif-service/src/smif_service.cpp:118-197 | over every run of packets, save outcomes and restarts that open the file or fail to, the store and the file keep unique names and every limit |
| SmifRuns.Enumerate | meta-canopy/meta-hpe/meta-common/recipes-hpe/gxp-chif-service/gxp-chif-service/src/smif_service.cpp:98-116 | asking for index 0, 1, ... until noSuchEv terminates and lists every entry exactly once in insertion order |
| SmifRuns.EnumerationAgrees | meta-canopy/meta-hpe/meta-common/recipes-hpe/gxp-chif-service/gxp-chif-service/src/smif_service.cpp:199-225 | with unique names, asking by name and asking by index give the same answer for every entry |
| SmifRuns.StatsExact | meta-canopy/meta-hpe/meta-common/recipes-hpe/gxp-chif-service/gxp-chif-service/src/smif_service.cpp:227-259 | the 16-bit count in EvStats is the exact number of entries and the bytes left complement the bytes used |
| SmifRuns.DecodesExactly | meta-canopy/meta-hpe/meta-common/recipes-hpe/gxp-chif-service/gxp-chif-service/src/smif_service.cpp:50-52 | a host decoding the answer gets the entry's own data back if and only if that data is not empty; an empty value reads as four zero bytes |
| SmifWire.SetDeleteOnBytes | meta-canopy/meta-hpe/meta-common/recipes-hpe/gxp-chif-service/gxp-chif-service/src/smif_service.cpp:118-197 | by the bits of the flag byte: bit 2 clears the store, else bit 1 deletes the name at offset 12, else bit 0 sets it to the data at offset 46, else nothing; each with its error code and every refusal |
| SmifWire.SetDeleteRefused | meta-canopy/meta-hpe/meta-common/recipes-hpe/gxp-chif-service/gxp-chif-service/src/smif_service.cpp:118-125 | without a store or without flags the answer is 2 and nothing changes |
| SmifWire.HostDeletes | meta-canopy/meta-hpe/meta-common/recipes-hpe/gxp-chif-service/gxp-chif-service/src/smif_service.cpp:129-153 | a host's delete packet (flag byte 2) removes exactly its name and its delete-all packet (flag byte 4) everything, whatever their saves do |
| SmifWire.IndexOnBytes | meta-canopy/meta-hpe/meta-common/recipes-hpe/gxp-chif-service/gxp-chif-service/src/smif_service.cpp:98-116 | any 32-bit index below the count carries that entry, any other is answered with 2, and 1 comes without a store or an index |
| SmifWire.NameOnBytes | meta-canopy/meta-hpe/meta-common/recipes-hpe/gxp-chif-service/gxp-chif-service/src/smif_service.cpp:199-225 | the value stored for the name at offset 8, or code 2, 1 or 3 of the first check that fails |
| SmifWire.FixedOnBytes | meta-canopy/meta-hpe/meta-common/recipes-hpe/gxp-chif-service/gxp-chif-service/src/smif_service.cpp:227-312 | commands 0x0132, 0x0133, 0x012D and 0x0200 are answered with exactly their bytes, the stats with what the store holds |
| SmifWire.OtherOnBytes | meta-canopy/meta-hpe/meta-common/recipes-hpe/gxp-chif-service/gxp-chif-service/src/smif_service.cpp:529-578 | every other command is answered with code 0 and nothing else |
| SmifWire.OnlySetDeleteChanges | meta-canopy/meta-hpe/meta-common/recipes-hpe/gxp-chif-service/gxp-chif-service/src/smif_service.cpp:529-578 | only command 0x012C with a flag set changes the store |
| SmifWire.UnansweredExactly | meta-canopy/meta-hpe/meta-common/recipes-hpe/gxp-chif-service/gxp-chif-service/src/smif_service.cpp:529-578 | a request goes unanswered if and only if it has no header or the fixed answer of its command does not fit the buffer |
| SmifWire.I2cOnBytes | meta-canopy/meta-hpe/meta-common/recipes-hpe/gxp-chif-service/gxp-chif-service/src/smif_service.cpp:370-494 | address and segment come back at their offsets, with the code of the first check that fails or the bytes read, and zeros elsewhere |
| Smbios.BlobTakesLongestRun | meta-canopy/meta-hpe/meta-common/recipes-hpe/gxp-chif-service/gxp-chif-service/src/smbios_writer.cpp:22-66 | a blob adds the longest leading run of non-empty records inside it, among its first 1000 and within 1 MiB in total: the records taken are such a run, and every such run is a prefix of them |
| Smbios.UnwrapWrapped | meta-canopy/meta-hpe/meta-common/recipes-hpe/gxp-chif-service/gxp-chif-service/src/smbios_writer.cpp:22-66 | unwrapping a wrapped record list within the limits gives the list back |
| Smbios.SmbiosWriter.AddRecord | meta-canopy/meta-hpe/meta-common/recipes-hpe/gxp-chif-service/gxp-chif-service/src/smbios_writer.cpp:22-66 | the loop appends exactly those records, concatenated |
| Smbios.SmbiosWriter.ComputeChecksum | meta-canopy/meta-hpe/meta-common/recipes-hpe/gxp-chif-service/gxp-chif-service/src/smbios_writer.cpp:78-93 | whatever the checksum field holds, putting the result there makes all bytes sum to zero modulo 256 |
| Smbios.SmbiosWriter.Finalize | meta-canopy/meta-hpe/meta-common/recipes-hpe/gxp-chif-service/gxp-chif-service/src/smbios_writer.cpp:95-185 | a file is renamed into place, and true returned, exactly when there are records and every checked file step works; bytes lost at the unchecked close cut the file without changing the result; the version advances even when writing then fails |
| Smbios.EntryPointSumsToZero | meta-canopy/meta-hpe/meta-common/recipes-hpe/gxp-chif-service/gxp-chif-service/src/smbios_writer.cpp:78-93 | the 24 bytes of the entry point sum to zero modulo 256 for every table size, and no other checksum byte does that |
| Smbios.SmbiosFileFields | meta-canopy/meta-hpe/meta-common/recipes-hpe/gxp-chif-service/gxp-chif-service/src/smbios_writer.cpp:113-160 | file length 34+n, MDR data size 24+n, table size n, anchor, version, checksum and data tail at their offsets, with no size truncated up to 1 MiB |
| Smbios.FileAfterClose | meta-canopy/meta-hpe/meta-common/recipes-hpe/gxp-chif-service/gxp-chif-service/src/smbios_writer.cpp:145-180 | the renamed file is whole if and only if nothing was lost at close; else it is cut where the loss began |
| Rom.RomService.Handle | meta-canopy/meta-hpe/meta-common/recipes-hpe/gxp-chif-service/gxp-chif-service/src/rom_service.cpp:16-47 | each command changes the writer as its handler says and is answered by its own 8-byte header, unknown commands by nothing; other buffer bytes are untouched, and the MDR bridge is notified exactly when the command wrote the file |
| Rom.RomService.HandleEnd | meta-canopy/meta-hpe/meta-common/recipes-hpe/gxp-chif-service/gxp-chif-service/src/rom_service.cpp:74-96 | finalizes and notifies the MDR bridge exactly when a file was written |
| Rom.RunAccumulates | meta-canopy/meta-hpe/meta-common/recipes-hpe/gxp-chif-service/gxp-chif-service/src/rom_service.cpp:49-114 | over every run the accumulated bytes are the concatenation of the records accepted since the last Begin |
| Rom.VersionCounts | meta-canopy/meta-hpe/meta-common/recipes-hpe/gxp-chif-service/gxp-chif-service/src/smbios_writer.cpp:95-131 | over every run the directory version is the starting one plus the number of End commands that found records and a directory, modulo 256 |
| Rom.RomOnBytes | meta-canopy/meta-hpe/meta-common/recipes-hpe/gxp-chif-service/gxp-chif-service/src/rom_service.cpp:16-47 | by command number: 3 begins, 4 and 12 append, 5 finalizes, nothing else changes the session; 3 to 7 and 12 are answered by the request's header with size 8 |
| Rom.RomSession | meta-canopy/meta-hpe/meta-common/recipes-hpe/gxp-chif-service/gxp-chif-service/src/rom_service.cpp:16-114 | over every run, the file renamed into place at End is whole, with exactly the records since the last Begin behind correct headers and checksum and the number of finalizations as its first byte, if and only if nothing was lost at close; n is at most 1 MiB, and nothing else writes the file |
| Rom.BeginForgets | meta-canopy/meta-hpe/meta-common/recipes-hpe/gxp-chif-service/gxp-chif-service/src/rom_service.cpp:49-56 | what came before a Begin has no influence on the session |
| Rom.BlobSessionWritten | meta-canopy/meta-hpe/meta-common/recipes-hpe/gxp-chif-service/gxp-chif-service/src/rom_service.cpp:16-114 | a host that sends Begin, its records in wrapped blobs and End, whatever came before, gets a file announced to the MDR bridge; it is whole with exactly its records if and only if nothing was lost at close |
| Rom.CutFileAnnounced | meta-canopy/meta-hpe/meta-common/recipes-hpe/gxp-chif-service/gxp-chif-service/src/smbios_writer.hpp:64-66 | the promised atomic write is not what the code does: a session whose file lost its records at close is answered and announced like any other |
| Daemon.ChifDaemon.Run | meta-canopy/meta-hpe/meta-common/recipes-hpe/gxp-chif-service/gxp-chif-service/src/chif_daemon.cpp:31-146 | the packets offered to the channel and the state of the services after any script of reads are the ones the request-by-request semantics gives, independent of stale buffer contents |
| Daemon.ChifDaemon.RegisterHandler | meta-canopy/meta-hpe/meta-common/recipes-hpe/gxp-chif-service/gxp-chif-service/src/chif_daemon.cpp:25-29 | a handler replaces any earlier one for its service id and no other |
| Daemon.DaemonTrace | meta-canopy/meta-hpe/meta-common/recipes-hpe/gxp-chif-service/gxp-chif-service/src/chif_daemon.cpp:39-143 | the offered packets are, in order, the answers to exactly the answered reads, one each, every one a whole packet echoing its request's sequence number |
| Daemon.AnsweredExactly | meta-canopy/meta-hpe/meta-common/recipes-hpe/gxp-chif-service/gxp-chif-service/src/chif_daemon.cpp:73-105 | a read is answered if and only if it holds a header for a registered service, and for the ROM service a known command |
| Daemon.RespondEchoes | meta-canopy/meta-hpe/meta-common/recipes-hpe/gxp-chif-service/gxp-chif-service/src/chif_daemon.cpp:104-129 | every answer announces its own length and echoes sequence, service and version |
| Daemon.HealthHandle | meta-canopy/meta-hpe/meta-common/recipes-hpe/gxp-chif-service/gxp-chif-service/src/health_service.cpp:21-41 | every command is answered with error code 0 |
| Daemon.HealthOnBytes | meta-canopy/meta-hpe/meta-common/recipes-hpe/gxp-chif-service/gxp-chif-service/src/health_service.cpp:21-41 | twelve bytes with error code 0 for every command |
| WholeSystem.DaemonEndToEnd | meta-canopy/meta-hpe/meta-common/recipes-hpe/gxp-chif-service/gxp-chif-service/src/chif_daemon.cpp:39-143 | through the daemon: after an acknowledged Set packet, and any reads to any service that leave the name alone, the packet offered for GetEvByName decodes to exactly the stored value |
| WholeSystem.Separation | meta-canopy/meta-hpe/meta-common/recipes-hpe/gxp-chif-service/gxp-chif-service/src/chif_daemon.cpp:39-143 | after any script of reads the ROM service and the EV store are each where their own packets alone would have brought them |
| WholeSystem.DaemonRomSession | meta-canopy/meta-hpe/meta-common/recipes-hpe/gxp-chif-service/gxp-chif-service/src/rom_service.cpp:16-114 | the ROM session theorem with any other traffic in between |
| WholeSystem.DaemonKeepsInvariant | meta-canopy/meta-hpe/meta-common/recipes-hpe/gxp-chif-service/gxp-chif-service/src/chif_daemon.cpp:39-143 | the EV store keeps unique names and every limit through any script of reads |
| WholeSystem.MainServices | meta-canopy/meta-hpe/meta-common/recipes-hpe/gxp-chif-service/gxp-chif-service/src/main.cpp:108-114 | with the handlers main registers, byte 6 picks SMIF for 0x00, ROM for 0x02 and health for 0x10 |
| WholeSystem.MainAnswers | meta-canopy/meta-hpe/meta-common/recipes-hpe/gxp-chif-service/gxp-chif-service/src/main.cpp:108-114 | with the handlers main registers, a read is answered if and only if it is a packet for SMIF or health, or a known ROM command |
| WholeSystem.StartService | meta-canopy/meta-hpe/meta-common/recipes-hpe/gxp-chif-service/gxp-chif-service/src/main.cpp:91-114 | main loads the store, builds the bus map from the PlatDef blob and registers exactly the three services |
| WholeSystem.RunService | meta-canopy/meta-hpe/meta-common/recipes-hpe/gxp-chif-service/gxp-chif-service/src/main.cpp:91-126 | the packets the whole program offers are the request-by-request answers from that start, and a service-written file gives a store with every invariant at the end |
| UefiFv.ExtractFfsFile | meta-canopy/meta-hpe/meta-common/recipes-hpe/gxp-chif-service/gxp-chif-service/src/uefi_fv.cpp:89-252 | the volume scan terminates and returns what the recursive scan gives, including that a short read ends the whole scan |
| UefiFv.WalkVolume | meta-canopy/meta-hpe/meta-common/recipes-hpe/gxp-chif-service/gxp-chif-service/src/uefi_fv.cpp:153-246 | the file walk terminates and returns what the recursive walk gives, with the state of the stream |
| UefiFv.ReadPayload | meta-canopy/meta-hpe/meta-common/recipes-hpe/gxp-chif-service/gxp-chif-service/src/uefi_fv.cpp:190-243 | raw sections lose 4 bytes, GUID-defined ones 20, other files are taken whole, and a short read gives nothing |
| UefiFv.ExtractSound | meta-canopy/meta-hpe/meta-common/recipes-hpe/gxp-chif-service/gxp-chif-service/src/uefi_fv.cpp:89-252 | any non-empty result is a contiguous image slice behind an FFS header carrying fileGuid, the first such header on the chain of files of a 64 KiB-aligned FFS2 volume named fvGuid; that volume is on the chain of volumes, and no volume before it named fvGuid has such a file to extract |
| UefiFv.ExtractComplete | meta-canopy/meta-hpe/meta-common/recipes-hpe/gxp-chif-service/gxp-chif-service/src/uefi_fv.cpp:89-252 | and conversely such a file, if it is not empty, is what comes out, on any image |
| UefiFv.ExtractEmpty | meta-canopy/meta-hpe/meta-common/recipes-hpe/gxp-chif-service/gxp-chif-service/src/uefi_fv.cpp:89-252 | the result is empty if and only if the chain of volumes, past volumes named fvGuid without a file to extract, comes to the end of the ROM, to a short read, or to a volume named fvGuid whose first match is empty or runs off the image |
| UefiFv.ExtractFirstMatch | meta-canopy/meta-hpe/meta-common/recipes-hpe/gxp-chif-service/gxp-chif-service/src/uefi_fv.cpp:89-252 | on every image laid out from well-formed volumes, foreign volumes and gaps, the result is the contents of the first ordinary file named fileGuid in the first volume named fvGuid that has one |
| UefiFv.VolumeStep | meta-canopy/meta-hpe/meta-common/recipes-hpe/gxp-chif-service/gxp-chif-service/src/uefi_fv.cpp:110-119 | the step to the next volume is the least positive multiple of 64 KiB that covers the volume length |
| UefiFv.VolumeHeaderPlaces | meta-canopy/meta-hpe/meta-common/recipes-hpe/gxp-chif-service/gxp-chif-service/src/uefi_fv.cpp:20-31 | where a volume header holds file system, length, signature and extended header offset, for all contents |
| UefiFv.FileHeaderPlaces | meta-canopy/meta-hpe/meta-common/recipes-hpe/gxp-chif-service/gxp-chif-service/src/uefi_fv.cpp:40-48 | where a file header holds name, type, attributes and its 24-bit size |
| UefiFv.Spelled | meta-canopy/meta-hpe/meta-common/recipes-hpe/gxp-chif-service/gxp-chif-service/src/uefi_fv.cpp:58-67 | the FFS2 GUID and the signature in their written form |
| UefiImage.ExtractFromEncoded | meta-canopy/meta-hpe/meta-common/recipes-hpe/gxp-chif-service/gxp-chif-service/src/uefi_fv.cpp:89-252 | extracting from an encoded list of volumes gives the first match of that list |
| PlatDef.ParseI2cSegments | meta-canopy/meta-hpe/meta-common/recipes-hpe/gxp-chif-service/gxp-chif-service/src/platdef_extract.cpp:328-423 | for every byte vector the walk terminates and returns the last-wins map of the segments reached |
| PlatDef.ParsedMeans | meta-canopy/meta-hpe/meta-common/recipes-hpe/gxp-chif-service/gxp-chif-service/src/platdef_extract.cpp:328-423 | told by the bytes: behind a first record of 112 bytes, an id is mapped if and only if the walk reaches a CPLD-mux segment for it inside an engine record, and to the mapping of the last one, by position of its record and then by its number there |
| PlatDef.SegmentsReachedMembers | meta-canopy/meta-hpe/meta-common/recipes-hpe/gxp-chif-service/gxp-chif-service/src/platdef_extract.cpp:353-418 | a segment is collected if and only if it lies wholly inside an I2CEngine record that the chain of records reaches |
| PlatDef.LastWinsMeans | meta-canopy/meta-hpe/meta-common/recipes-hpe/gxp-chif-service/gxp-chif-service/src/platdef_extract.cpp:403-406 | an id is mapped if and only if some CPLD-mux segment has it, and to the last such segment's register and channel |
| PlatDef.ParseOfEncoded | meta-canopy/meta-hpe/meta-common/recipes-hpe/gxp-chif-service/gxp-chif-service/src/platdef_extract.cpp:328-423 | encoding any well-formed record list and walking it gives exactly the list's segments in order |
| PlatDef.BuildSegmentBusMap | meta-canopy/meta-hpe/meta-common/recipes-hpe/gxp-chif-service/gxp-chif-service/src/platdef_extract.cpp:544-582 | a segment has bus t if and only if its register is 0x84 + mux and the topology holds t for that mux and its channel, in whatever order the map is visited |
| PlatDef.MuxKeyDigits | meta-canopy/meta-hpe/meta-common/recipes-hpe/gxp-chif-service/gxp-chif-service/src/platdef_extract.cpp:557-559 | the key is the number with quotient mux and remainder channel by 256, for register 0x84 + mux |
| PlatDef.MuxKeyInjective | meta-canopy/meta-hpe/meta-common/recipes-hpe/gxp-chif-service/gxp-chif-service/src/platdef_extract.cpp:557-559 | distinct mux and channel pairs never share a key |
| ChifQueue.Queue.PushPacket | meta-canopy/meta-hpe/meta-gxp/recipes-kernel/linux/linux-stable-6.18/0027-soc-hpe-add-GXP-CHIF-driver.patch:201-219 | -1 exactly when all slots are used, else -2 exactly when the packet is oversize, both changing nothing; else 0 and a copy of the packet is appended |
| ChifQueue.Queue.PopPacket | meta-canopy/meta-hpe/meta-gxp/recipes-kernel/linux/linux-stable-6.18/0027-soc-hpe-add-GXP-CHIF-driver.patch:221-240 | -3 exactly when empty, else -4 exactly when the buffer is too small, both changing nothing; else the oldest packet, intact in its slot |
| ChifQueue.Queue.RunOps | meta-canopy/meta-hpe/meta-gxp/recipes-kernel/linux/linux-stable-6.18/0027-soc-hpe-add-GXP-CHIF-driver.patch:201-240 | every sequence of calls behaves, result for result, like a bounded FIFO of byte strings |
| ChifQueue.Queue.TailIsModulo | meta-canopy/meta-hpe/meta-gxp/recipes-kernel/linux/linux-stable-6.18/0027-soc-hpe-add-GXP-CHIF-driver.patch:214-216 | tail is (head + size) modulo the number of slots |
| ChifQueue.FifoConserves | meta-canopy/meta-hpe/meta-gxp/recipes-kernel/linux/linux-stable-6.18/0027-soc-hpe-add-GXP-CHIF-driver.patch:201-240 | over every run, earlier contents followed by accepted pushes equal the packets handed out followed by the contents left: nothing lost, duplicated or reordered, and never over capacity |
| UmacRing.RxRing.constructor | meta-canopy/meta-hpe/meta-gxp/recipes-kernel/linux/linux-stable-6.18/0010-net-ethernet-add-HPE-GXP-UMAC-driver.patch:527-538 | the ring starts with every descriptor owned by hardware and nothing pending |
| UmacRing.RxRing.HwFill | meta-canopy/meta-hpe/meta-gxp/recipes-kernel/linux/linux-stable-6.18/0010-net-ethernet-add-HPE-GXP-UMAC-driver.patch:527-538 | the hardware's side of the ownership protocol, at any point of the driver's turn: the next descriptor takes the frame if hardware owns it, else the frame is missed, which happens only when all 256 descriptors are pending |
| UmacRing.RxRing.TestOwner | meta-canopy/meta-hpe/meta-gxp/recipes-kernel/linux/linux-stable-6.18/0010-net-ethernet-add-HPE-GXP-UMAC-driver.patch:708 | the loop test sees a frame exactly when one is pending |
| UmacRing.RxRing.TakeFrame | meta-canopy/meta-hpe/meta-gxp/recipes-kernel/linux/linux-stable-6.18/0010-net-ethernet-add-HPE-GXP-UMAC-driver.patch:709-723 | a failed allocation only counts a drop; otherwise the oldest frame goes out and its descriptor goes back to hardware, its length not yet reset |
| UmacRing.RxRing.FinishTurn | meta-canopy/meta-hpe/meta-gxp/recipes-kernel/linux/linux-stable-6.18/0010-net-ethernet-add-HPE-GXP-UMAC-driver.patch:724-731 | resetting the length leaves every frame alone unless the descriptor was filled again with another length in between; the statistics count the frame |
| UmacRing.BytesCounted | meta-canopy/meta-hpe/meta-gxp/recipes-kernel/linux/linux-stable-6.18/0010-net-ethernet-add-HPE-GXP-UMAC-driver.patch:726-727 | the byte statistics count the bytes of all frames delivered |
| UmacRing.RxRing.ReceiveTurn | meta-canopy/meta-hpe/meta-gxp/recipes-kernel/linux/linux-stable-6.18/0010-net-ethernet-add-HPE-GXP-UMAC-driver.patch:708-738 | one turn with arrivals before the test, before the store to status and between the two stores: it goes through exactly its steps, and delivers one frame unless nothing is pending or the allocation fails |
| UmacRing.RxRing.UmacRx | meta-canopy/meta-hpe/meta-gxp/recipes-kernel/linux/linux-stable-6.18/0010-net-ethernet-add-HPE-GXP-UMAC-driver.patch:695-743 | with frames arriving between any two steps, a call goes through whole turns, delivers at most max(budget, 1) frames and counts them exactly; it ends early only when nothing is pending or an allocation failed, and then the frame is still pending |
| UmacRing.HardwareFills | meta-canopy/meta-hpe/meta-gxp/recipes-kernel/linux/linux-stable-6.18/0010-net-ethernet-add-HPE-GXP-UMAC-driver.patch:527-538 | filling the descriptor at the hardware pointer extends the software-owned cyclic range by exactly that frame |
| UmacRing.StatusStored | meta-canopy/meta-hpe/meta-gxp/recipes-kernel/linux/linux-stable-6.18/0010-net-ethernet-add-HPE-GXP-UMAC-driver.patch:723 | the store that gives the descriptor at rx_cur back removes exactly the oldest frame from the range |
| UmacRing.CountStored | meta-canopy/meta-hpe/meta-gxp/recipes-kernel/linux/linux-stable-6.18/0010-net-ethernet-add-HPE-GXP-UMAC-driver.patch:724 | the store that resets the length behind it changes a pending frame only if the range goes all the way round, and then the newest one |
| UmacRing.DeliveredOnce | meta-canopy/meta-hpe/meta-gxp/recipes-kernel/linux/linux-stable-6.18/0010-net-ethernet-add-HPE-GXP-UMAC-driver.patch:695-743 | in the queue, over every interleaving of arrivals and driver steps, delivered frames followed by pending ones are the earlier ones followed by the received ones, with at most 256 pending: nothing lost, duplicated or reordered |
| UmacRing.WindowTurn | meta-canopy/meta-hpe/meta-gxp/recipes-kernel/linux/linux-stable-6.18/0010-net-ethernet-add-HPE-GXP-UMAC-driver.patch:716-731 | a turn leaves every length alone if and only if, of the frames arriving between its two stores, the one that fills the ring, if any, has length 1514 |
| UmacRing.FullRingWindow | meta-canopy/meta-hpe/meta-gxp/recipes-kernel/linux/linux-stable-6.18/0010-net-ethernet-add-HPE-GXP-UMAC-driver.patch:723-724 | in a full ring one frame of any other length between the two stores is enough |
| UmacRing.RunRing | meta-canopy/meta-hpe/meta-gxp/recipes-kernel/linux/linux-stable-6.18/0010-net-ethernet-add-HPE-GXP-UMAC-driver.patch:695-743 | over every interleaving of hardware and driver steps, the descriptor ring does what the queue does if and only if no frame of another length than 1514 reaches a released descriptor before its length is reset; in any case every frame received is delivered or pending once and in order, and only lengths may differ |
| Gpio.CsmGpio.Set | meta-canopy/meta-hpe/meta-gxp/recipes-kernel/linux/linux-stable-6.18/0014-gpio-add-HPE-GXP-GPIO-controller-driver.patch:152-229 | exactly the addressed bit of the addressed data word changes, and all four ownership words end as they were |
| Gpio.LinePlaces | meta-canopy/meta-hpe/meta-gxp/recipes-kernel/linux/linux-stable-6.18/0014-gpio-add-HPE-GXP-GPIO-controller-driver.patch:103-150 | which bit of which register serves which line: 32 lines each from two input and four output words, then the software reset |
| Gpio.ReadAfterSet | meta-canopy/meta-hpe/meta-gxp/recipes-kernel/linux/linux-stable-6.18/0014-gpio-add-HPE-GXP-GPIO-controller-driver.patch:103-229 | setting a line changes what that line reads, if it is writable, and no other line |
| Gpio.CsmGpio.SetOutput | meta-canopy/meta-hpe/meta-gxp/recipes-kernel/linux/linux-stable-6.18/0014-gpio-add-HPE-GXP-GPIO-controller-driver.patch:158-171 | borrowing the ownership bit makes the write to the data register take effect, and giving it back leaves the ownership words bit for bit as they were |
| Gpio.CsmGpio.SetAll | meta-canopy/meta-hpe/meta-gxp/recipes-kernel/linux/linux-stable-6.18/0014-gpio-add-HPE-GXP-GPIO-controller-driver.patch:103-229 | over every sequence of sets, each output line reads back its last written value, no other line changes, and ownership is unchanged |
| Gpio.UpdateOneBit | meta-canopy/meta-hpe/meta-gxp/recipes-kernel/linux/linux-stable-6.18/0014-gpio-add-HPE-GXP-GPIO-controller-driver.patch:163-170 | a masked update of one bit sets that bit and no other |
| Gpio.BorrowAndReturn | meta-canopy/meta-hpe/meta-gxp/recipes-kernel/linux/linux-stable-6.18/0014-gpio-add-HPE-GXP-GPIO-controller-driver.patch:160-170 | taking a bit and writing back what it was restores the word |
| Gpio.LoanNeeded | meta-canopy/meta-hpe/meta-gxp/recipes-kernel/linux/linux-stable-6.18/0014-gpio-add-HPE-GXP-GPIO-controller-driver.patch:158-171 | without the loan the line reads as before unless its bit was owned |
| Gpio.GatedUpdate | meta-canopy/meta-hpe/meta-gxp/recipes-kernel/linux/linux-stable-6.18/0013-soc-hpe-add-GXP-SoC-infrastructure-drivers.patch:1672-1682 | a masked write through the ownership register takes effect whole where the masked bits are owned, and not at all where none is |
| Gpio.MaskedReturn | meta-canopy/meta-hpe/meta-gxp/recipes-kernel/linux/linux-stable-6.18/0014-gpio-add-HPE-GXP-GPIO-controller-driver.patch:160-170 | setting any masked bits and writing back what they were restores the word |

## Left out

- Real files, streams, logging, D-Bus, zlib, sysfs and I2C ioctls: replaced by byte sequences and outcome parameters.
- The PlatDef decompression between the firmware walker and the record walker, and the sysfs scan that yields the mux topology, which is a parameter here.
- Offsets that wrap the size type: firmware volume lengths and offsets are unbounded integers, so a volume length near 2^32 on a 32-bit target is not modelled.
- The daemon's error counters and back-off delay, which have no effect on packets; a read error only makes the loop go round.
- When the daemon stops: a run is the finite script of reads up to `stop()`.
- Read errors in the middle of a file that opened, and exceptions thrown by file system calls.
- What the I2C proxy puts on the bus (device, shifted address, written bytes): only its checks and its answer are modelled.
- Power loss between a completed save and the medium: no code path syncs, and a save that reports success counts as stored.
- Threads and signal timing: the daemon is single-threaded, and locking in the kernel code is not modelled.
- CHIF shared-memory draining (`consume_packet`, `get_occupied_entry`) and `chif_read`/`chif_write` around the queue.
- The popped CHIF buffer after later pushes: `PopPacket` says what the slot holds on return, not until when.
- UMAC transmit, interrupt and doorbell registers, DMA ordering, and the checksum and control fields of descriptors.
- The device-tree, VUHC and direction parts of the GPIO driver; register access errors are ignored as the driver ignores them.
- Duplicate names in a foreign EV file: the loader keeps them, so uniqueness is proved only for stores that started empty or service-written.
- Power control, fan, regulator and XREG drivers, recipes, configuration, device trees, web UI and boot-loader parts of the repository.
