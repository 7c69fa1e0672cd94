# Keyboard firmware model

A Dafny model of the parts of a keyboard firmware that keep hand-packed data structures in serial
EEPROM, scan keys, and run programs, with proofs about them. The model follows the C and C++ code:
imperative code is a class with methods proved against a specification, and what the specification
promises is proved beside it.

- `PagedMemory`, `SpiEeprom`, `I2cEeprom`: serial EEPROM whose write address wraps inside a page, and
  the drivers that make flat writes, fills, moves and streams out of page writes.
- `MacroIndex`, `Packing`, `MacroHeap`, `MacroSession`, `MacroStore`: recorded macros. A compacting heap
  and a sorted index are shown to be a finite map from key combinations to macros and programs.
- `LayoutTheory`, `LayoutSession`, `SavedLayouts`: up to ten saved layouts, kept as packed differences from
  a default table.
- `Sorting`: the bottom-up heapsort and the insertion sort.
- `ExtraReport`, `Playback`: the six-key side report, its merging into the USB report, macro playback.
- `StackMachine`, `FrameLayout`, `MachineRuns`, `VirtualMachine`, `VmReports`: the bytecode interpreter. Frames
  with saved pointers in one byte array are shown to be a list of frames with locals and operands.
- `Debouncing`, `KeyEvents`, `KeySlots`, `KeyState`: the debouncer, the slot table, layers, and press and
  release events.
- `TriggerCodec`, `TriggerUpload`: the host's encoding of triggers into the images the firmware uses, and their
  upload into the macro store.
- `RecordingStates`: the states of the main loop as far as recording goes.

Assumptions that the code leaves to its callers are preconditions: storage writes succeed; a recorded
event fits in the macro region (`HasRoom`, checked before each append in `MacroStore.Store.Run`; without it
`MacroStore.Store.Append` writes behind the region); a program
keeps to its own locals, operands and globals and writes inside the stack (`StackMachine.Safe`); the debounce
length and the base key definitions do not change; regions of one EEPROM do not overlap. The SPI chip may
still be writing when an operation ends; a new recording, load, save or delete starts after it is done, as
key presses are many milliseconds apart.

Where the code does not do what one might expect, the model keeps the code and states exactly when it does.
The interpreter's overflow check lets a short be pushed one byte past the stack, and lets a call write its frame
header there (`MachineRuns.RoomIff` says exactly when; `MachineRuns.ShortPastEnd` and `MachineRuns.CallPastEnd` are
instances). A program that presses key code 0 can open a gap in the report and make another program's key
disappear (`VmReports.MergesWellIff`, `VmReports.AllMergedIff` and `VmReports.ZeroLosesKey`). A macro that has more
than six ordinary keys down at once is not played as it was recorded (`Playback.PlayedRightIff` and
`Playback.SeventhKeyLost`). A macro that begins behind the first 32 KB of the image reads back as a program
(`TriggerCodec.EncodeAndRead` and `TriggerCodec.LateMacroLost`). The SPI driver moves data upwards wrongly; both of
its callers move data down (`SpiEeprom.MoveIsRightIff` and `SpiEeprom.UpwardMoveFails`). A key turned on while all
fourteen slots are taken is not tracked, also when one of them is freed by the same scan (`KeySlots.AllServedIff`,
`KeyState.Keyboard.Update` and `KeySlots.FreedTooLate`).

## Model

| member | source | states |
|---|---|---|
| `PagedMemory.PageWriteIsFlat` | storage/spi_eeprom.c:83-87 | a run of bytes that stays inside one page of the wrapping device is a flat write, for every page size and start |
| `PagedMemory.PageWriteWraps` | storage/spi_eeprom.c:125-138 | why chunking is needed: the second byte of a run that starts on the last byte of a page lands at the start of that page |
| `PagedMemory.PageWriteBelow` | storage/spi_eeprom.c:83-87 | a page write of any length that begins below a page boundary changes nothing from the boundary on |
| `PagedMemory.MoveDownChunk` | storage/spi_eeprom.c:262-274 | one chunk of a downward move on overlapping data reads what the source held before the move |
| `PagedMemory.MoveUpChunk` | storage/i2c_eeprom.c:229-278 | one chunk of an upward move, worked from the end, reads what the source held before the move |
| `PagedMemory.AdvanceInPage` | storage/spi_eeprom.c:146-157 | the device address counter after a run that ends before its page does |
| `SpiEeprom.Chip.constructor` | storage/spi_eeprom.c:129-143 | a chip at power-up has no open transaction and no write in progress |
| `SpiEeprom.Chip.EnableWrite` | storage/spi_eeprom.c:73-77 | setting the write-enable latch needs a chip that is not writing |
| `SpiEeprom.Chip.TransferByte` | storage/spi_eeprom.c:83-87 | one byte goes to the address counter, which wraps inside its page |
| `SpiEeprom.Chip.SlaveOff` | storage/spi_eeprom.c:187-195 | closing a transaction drops the latch and starts a write cycle of unknown length |
| `SpiEeprom.Chip.WaitForLastWriteEnd` | storage/spi_eeprom.c:117-123 | polling the status ends, with the write cycle over |
| `SpiEeprom.Chip.StartWrite` | storage/spi_eeprom.c:129-138 | opens a write transaction at an address; only allowed when no write is in progress |
| `SpiEeprom.Chip.CheckedStartWrite` | storage/spi_eeprom.c:140-143 | waits for the last write before it opens one |
| `SpiEeprom.Chip.ContinueWrite` | storage/spi_eeprom.c:83-87 | the byte loop has exactly the wrapping effect of a page write |
| `SpiEeprom.Chip.Read` | storage/spi_eeprom.c:162-171 | reads a run of bytes of a chip that is not writing |
| `SpiEeprom.Chip.WritePage` | storage/spi_eeprom.c:187-195 | a page write has the wrapping effect of the device, which is a flat write where the run stays in its page, and leaves no transaction open |
| `SpiEeprom.Chip.Write` | storage/spi_eeprom.c:197-214 | the chunk loop equals one flat write for every alignment and length, reports the length, and starts no page write while one is in progress |
| `SpiEeprom.Chip.MemSet` | storage/spi_eeprom.c:216-230 | the chunk loop fills exactly the given range |
| `SpiEeprom.Chip.WriteByte` | storage/spi_eeprom.c:232-236 | waits, then writes one byte |
| `SpiEeprom.Chip.WriteShort` | storage/spi_eeprom.c:238-246 | a little-endian word is written flat on either side of, or across, a page boundary |
| `SpiEeprom.Chip.MemMove` | storage/spi_eeprom.c:248-275 | downwards the chunked move equals an overlap-safe flat move for every alignment and count; upwards it is the sequence of wrapping page writes that begins at the low ends of the data |
| `SpiEeprom.BackwardsStaysBelow` | storage/spi_eeprom.c:248-275 | an upward move changes no byte from its destination on |
| `SpiEeprom.MoveIsRightIff` | storage/spi_eeprom.c:248-275 | the driver moves as memmove does, whatever the memory holds, if and only if it moves down or moves nothing |
| `SpiEeprom.UpwardMoveFails` | storage/spi_eeprom.c:248-275 | an upward move of data whose last byte is not already in place is never what memmove promises |
| `SpiEeprom.Chip.WriteStep` | storage/spi_eeprom.c:146-157 | one streamed step opens a page at its start, writes flat, and closes at the page end or on the last byte |
| `SpiEeprom.Chip.Stream` | lufa/spi_eeprom_endpoint_stream.c:6-21 | byte-by-byte streaming of any length from any address equals one flat write and leaves no transaction open |
| `I2cEeprom.Chip.ContinueWrite` | storage/i2c_eeprom.c:112-122 | the byte loop has exactly the wrapping effect of a page write |
| `I2cEeprom.Chip.WritePage` | storage/i2c_eeprom.c:133-149 | a page write is a flat write and ends the bus transaction |
| `I2cEeprom.Chip.Write` | storage/i2c_eeprom.c:158-177 | the chunk loop equals one flat write and reports the length |
| `I2cEeprom.Chip.MemSet` | storage/i2c_eeprom.c:280-299 | the chunk loop fills exactly the given range |
| `I2cEeprom.Chip.MemMove` | storage/i2c_eeprom.c:229-278 | in both directions the chunked move equals an overlap-safe flat move for every alignment and count; no chunk wraps and the loops end |
| `I2cEeprom.Chip.WriteStep` | storage/i2c_eeprom.c:209-227 | one streamed step writes flat and keeps the transaction open exactly until the page end or the last byte |
| `I2cEeprom.Chip.Stream` | storage/i2c_eeprom.c:199-227 | streaming any length from any address equals one flat write and closes the transaction |
| `I2cEeprom.Chip.Read` | storage/i2c_eeprom.c:301-335 | reads a run of bytes and closes the transaction |
| `MacroIndex.CompareIsRankOrder` | macro_index.c:129-135 | byte-wise comparison of four keys is a total order, and equal only on equal combinations |
| `MacroIndex.FormatKey` | macro_index.c:116-124 | the pressed keys come out sorted and padded; valid exactly when there is a first key |
| `MacroIndex.FormatIsCanonical` | macro_index.c:116-124 | two orders of pressing the same keys give the same combination |
| `MacroIndex.OrderAcrossArray` | macro_index.c:129-146 | empty entries compare after every used one, so the whole array can be searched |
| `MacroIndex.Index.Lookup` | macro_index.c:138-146 | binary search over the whole array, empties included, agrees with a linear scan, and fails exactly on unmapped combinations |
| `MacroIndex.Index.GetData` | macro_index.c:148-154 | the top bit of a value tells a program id from a macro offset |
| `MacroIndex.Index.SetData` | macro_index.c:156-163 | changes the value of one key combination and no other, and reads back |
| `MacroIndex.Index.Remove` | macro_index.c:168-189 | closing the gap keeps the order and the empty tail and is deletion from the map |
| `MacroIndex.Index.Create` | macro_index.c:195-230 | opening a gap keeps the order and is insertion into the map; it fails, changing nothing, exactly when the array is full |
| `MacroIndex.Index.Iterate` | macro_index.c:232-238 | applies a function to every used entry and to no other |
| `MacroIndex.InsertRefinesUpdate` | macro_index.c:195-230 | a sorted insertion of a new combination is a map update |
| `MacroIndex.RemoveRefinesDelete` | macro_index.c:168-189 | removing an entry is deletion of its combination |
| `MacroIndex.NextDefault` | macro_index.c:75-86 | finds the default trigger with the smallest key above a bound, if there is one |
| `MacroIndex.PickedEntriesMap` | macro_index.c:91-114 | repeatedly taking the next larger key lists every default once, in sorted order, with its own offset |
| `MacroIndex.Index.ResetDefaults` | macro_index.c:91-114 | the reset index is well formed and maps every default trigger to the offset of its place in the table |
| `Packing.PackedWithout` | macro.c:137-174 | closing the gap of one block leaves every other block packed, in order, with its contents |
| `Packing.StartWithout` | macro.c:122-131 | exactly the blocks above the deleted one move, by exactly its length |
| `MacroHeap.DeleteAgrees` | macro.c:122-174 | after the offsets above the gap are lowered, index and heap agree again |
| `MacroHeap.DeleteRemovesBinding` | macro.c:137-174 | deleting a macro removes its binding and no other, although other macros have moved |
| `MacroHeap.PendingBegins` | macro.c:184-214 | an entry that points at the end of the heap adds no binding while its macro is recorded |
| `MacroHeap.CommitBinds` | macro.c:222-247 | a committed block binds its key to its events and changes nothing else |
| `MacroHeap.RecordingCommitted` | macro.c:222-247 | writing the length word in front of recorded events completes a block of the heap |
| `MacroHeap.DefaultsAgree` | macro.c:87-103 | index order and heap order of the defaults differ, yet every offset is right |
| `MacroHeap.DefaultsBound` | macro.c:87-103 | each default trigger reads as its own three events |
| `MacroHeap.OnlyDefaults` | macro.c:87-103 | the factory macros determine all bindings after a reset |
| `MacroHeap.MacrosCoverHeap` | macro.c:122-259 | every byte below the end offset belongs to a macro of the index, and none above it does |
| `MacroHeap.MacrosDoNotOverlap` | macro.c:122-259 | no byte belongs to two macros |
| `MacroStore.Store.constructor` | macro.c:60-79 | an empty index and a zero end offset bind nothing |
| `MacroStore.Store.ResetDefaults` | macro.c:87-103 | the whole store invariant holds after a reset, and exactly the defaults are bound |
| `MacroStore.Store.DeleteMacroData` | macro.c:137-174 | drops the macro of one entry; every other binding is kept and memory outside the region is untouched |
| `MacroStore.Store.StartMacro` | macro.c:184-214 | starts recording with nothing recorded and the key unbound; fails, changing nothing, exactly when the key is new and the index full |
| `MacroStore.Store.Append` | macro.c:254-259 | writes one event at the cursor without looking for room: given room the recording grows by it and no binding changes; memory outside the region changes exactly when there is none and the byte differs |
| `MacroStore.Store.CommitMacro` | macro.c:222-247 | binds the key to the recorded events, or leaves it unbound when there are none; without a recording it does nothing |
| `MacroStore.Store.AbortMacro` | macro.c:249-252 | forgets the recording and keeps all bindings |
| `MacroStore.Store.ResetFully` | config.c:162-164 | a full reset binds exactly the factory macros, whatever was bound |
| `MacroStore.Store.Perform` | macro.c:184-259 | each operation is the corresponding step of the abstract map |
| `MacroStore.Store.Run` | macro.c:184-259 | every run of start, append, commit, abort and full reset refines the run on the abstract map |
| `MacroStore.Store.Tiled` | macro.c:122-259 | in every reachable state the macros of the index tile the heap below the end offset, and the entry being recorded points there |
| `MacroStore.Store.BoundMacro` | macro_index.c:138-154 | a bound macro is what lies at the offset its index entry holds |
| `MacroSession.OtherKeysKept` | macro.c:137-252 | over any run a key that was not recorded keeps its binding until a full reset, which binds it to its factory macro or to nothing |
| `MacroSession.RecordingBinds` | macro.c:184-259 | start, any events, then commit binds exactly those events; an empty commit or an abort unbinds the key; for a new key and a full index all of it does nothing |
| `LayoutTheory.DiffAt` | config.c:281-295 | each record names a key whose code differs from the default and holds that code |
| `LayoutTheory.DiffIncreases` | config.c:281-295 | records come in strictly increasing key order |
| `LayoutTheory.NoDiffIsDefault` | config.c:296-305 | there are no records exactly when the mapping is the default |
| `LayoutTheory.MergeStep` | config.c:327-343 | in the one-pass merge the record in hand is for the current key exactly when that key differs from the default |
| `LayoutTheory.DeleteAgrees` | config.c:231-245 | after a deletion the shifted inclusive ranges tile the records again |
| `LayoutTheory.AppendAgrees` | config.c:296-299 | a new range right behind the others keeps the tiling |
| `LayoutTheory.EndOfRanges` | config.c:269-278 | the highest end of any range is where the next layout starts |
| `LayoutTheory.EndBehind` | config.c:231-248 | the highest end seen while shifting is the end of all records |
| `LayoutTheory.PairsMoved` | config.c:247-254 | moving the bytes down closes the gap in the record table |
| `LayoutSession.UsedIsTotal` | config.c:269-278 | the room in use is the sum over the saved layouts, in whatever order they were saved |
| `LayoutSession.OtherSlotsKept` | config.c:214-346 | over any run of saves, deletes, loads, remaps and resets, a slot that is not itself saved or deleted keeps its layout |
| `LayoutSession.LoadRestoresSave` | config.c:214-346 | a successful save, anything done to other slots and to the mapping, then a load restores exactly the mapping at save time |
| `SavedLayouts.Layouts.constructor` | config.c:154-156 | clearing the index leaves no saved layout, whatever memory held |
| `SavedLayouts.Layouts.ForgetAll` | config.c:154-156 | clearing the index empties all slots |
| `SavedLayouts.Layouts.ShiftRanges` | config.c:231-245 | lowers exactly the ranges behind the deleted one and finds the last end |
| `SavedLayouts.Layouts.RemoveRange` | config.c:224-255 | clears, shifts and moves down: index and records are those without the slot |
| `SavedLayouts.Layouts.DeleteLayout` | config.c:214-258 | empties one slot and no other; succeeds exactly when the slot held a layout |
| `SavedLayouts.Layouts.FindEnd` | config.c:269-278 | finds the first record behind all saved layouts |
| `SavedLayouts.Layouts.WriteDiffs` | config.c:278-295 | writes exactly the differences; gives up exactly when they do not fit below the last record |
| `SavedLayouts.Layouts.SaveLayout` | config.c:260-306 | saves exactly the mapping in force; fails exactly for no difference, no room or no such slot, and then its own slot is empty and the others unchanged |
| `SavedLayouts.Layouts.Merge` | config.c:321-343 | one pass over keys and records rebuilds the whole saved mapping |
| `SavedLayouts.Layouts.LoadLayout` | config.c:308-346 | puts the saved mapping in force; an empty slot changes nothing |
| `SavedLayouts.Layouts.Remap` | config.c:116-118 | changes one key of the mapping in force |
| `SavedLayouts.Layouts.ResetMapping` | config.c:121-135 | the chunked copy puts the default table in force |
| `SavedLayouts.Layouts.Perform` | config.c:116-346 | each operation is the corresponding step on the user view |
| `SavedLayouts.Layouts.Run` | config.c:116-346 | every run of the packed store refines the run on the user view, and touches no memory outside its two tables |
| `SavedLayouts.Layouts.RangesTile` | config.c:214-306 | in every reachable state the ranges tile the records in use, whose number stays below the capacity |
| `SavedLayouts.Layouts.RangeRecords` | config.c:281-299 | in every reachable state a range holds increasing keys with codes that differ from the default |
| `Sorting.InsertionSort` | sort.c:162-172 | sorts a prefix in place, as a permutation, and leaves the rest alone |
| `Sorting.SiftDown` | sort.c:88-108 | swapping an item down restores the heap below it |
| `Sorting.BuildHeap` | sort.c:88-108 | makes a heap out of any array |
| `Sorting.SinkHole` | sort.c:137-145 | moving the larger child up takes the hole to a leaf and keeps the order of all others |
| `Sorting.ClimbHole` | sort.c:146-156 | the displaced item climbs from the leaf to a place that makes a heap |
| `Sorting.ExtractMax` | sort.c:115-158 | one round moves the maximum behind the heap and restores it |
| `Sorting.HeapSort` | sort.c:75-160 | for every length below 32768 the bottom-up heapsort sorts and permutes, with all indices in 16 bits |
| `Sorting.SortedUnique` | sort.c:75-172 | a sorted permutation is unique |
| `Sorting.SortBothWays` | sort.c:75-172 | heapsort and insertion sort agree |
| `ExtraReport.ExtraKeyboardReport.constructor` | extrareport.c:50-53 | a new side report holds no key |
| `ExtraReport.ExtraKeyboardReport.Clear` | extrareport.c:50-53 | no key is held afterwards |
| `ExtraReport.ExtraKeyboardReport.Add` | extrareport.c:55-72 | holds the key, unless it is a seventh ordinary one; no other key is affected |
| `ExtraReport.ExtraKeyboardReport.Remove` | extrareport.c:74-86 | the key is released; no other key is affected |
| `ExtraReport.ExtraKeyboardReport.Toggle` | extrareport.c:88-109 | the key changes state, unless there is no place for it; no other key is affected |
| `ExtraReport.OneKeyChanges` | extrareport.c:55-109 | pressing, releasing and toggling change the state of one key only, and exactly as far as there is a slot or modifier bit for it |
| `ExtraReport.KeyboardReport.Append` | extrareport.c:111-130 | the merge loops write exactly the new keys behind the codes in use, as far as there is room |
| `ExtraReport.NewKeysAre` | extrareport.c:120-129 | the keys written are the held keys not yet present, each once |
| `ExtraReport.GaplessIff` | extrareport.c:111-130 | merging into a report without gaps leaves none exactly when no zero is written in front of another key |
| `ExtraReport.MergeKeys` | extrareport.c:111-130 | codes already present stay in front, no gaps, no repeats, and a held key is missing only from a full report |
| `Playback.DownIsOdd` | macro.c:275-287 | the keys down after some events are those that occur an odd number of times |
| `Playback.NextExact` | extrareport.c:88-109 | one more event keeps the side report exact if and only if its key is down or finds a place |
| `Playback.ExactIff` | macro.c:275-287 | the side report holds exactly the keys down throughout playback if and only if all events are real key codes and never more than six ordinary keys are down |
| `Playback.Player.StartPlayback` | macro.c:264-273 | playback starts at the first event with no key down |
| `Playback.Player.FillNextReport` | macro.c:275-287 | whatever the events are, each report toggles the next one in the side report and merges it; more follows exactly while events remain |
| `Playback.PlayMacro` | macro.c:264-287 | playback sends one report for each event, showing the side report that the events so far leave |
| `Playback.ReportsIff` | extrareport.c:111-130 | a report merged from one side report shows exactly the given keys if and only if the side report holds exactly them, key code 0 and unassigned codes aside |
| `Playback.PlayedRightIff` | macro.c:275-287 | the reports sent show exactly the keys down all along if and only if each key that goes down finds a place; without key code 0, if and only if never more than six ordinary keys are down |
| `Playback.SeventhKeyLost` | macro.c:275-287 | a macro that presses seven or more different ordinary keys one after another is not shown as it was recorded |
| `Playback.PlayBinding` | macro.c:264-287 | looking up a bound combination and playing it plays what was recorded; the reports show exactly the keys down all along if and only if each key finds a place, and without key code 0 if and only if never more than six ordinary keys are down |
| `FrameLayout.EnterLayout` | interpreter.c:756-766 | three saved words and the arguments right above the operands make a new frame and disturb none below |
| `FrameLayout.LeaveLayout` | interpreter.c:213-217 | the saved words of a frame are the end and the start of the frame below it |
| `FrameLayout.LowerFramesCarried` | interpreter.c:202-217 | frames whose bytes are untouched stay where they are |
| `StackMachine.RootedCall` | interpreter.c:740-768 | a called frame never looks like main |
| `StackMachine.RootedReturn` | interpreter.c:770-802 | only main has return address zero, so any other return has a caller |
| `MachineRuns.TickFrames` | interpreter.c:242-909 | no step but a call or a return touches any frame below the last one |
| `MachineRuns.RunKeepsLower` | interpreter.c:242-909 | through any run that stays above them, frames keep their locals, operands and return addresses |
| `MachineRuns.CallFacts` | interpreter.c:740-768 | argument i is local i of the callee, which starts with no operands and returns behind the call |
| `MachineRuns.CallThenReturn` | interpreter.c:740-802 | a call, any run of the callee and its return leave the caller as it was, with the arguments replaced by 0, 1 or 2 result bytes |
| `MachineRuns.PressWaits` | interpreter.c:807-816 | pressing a key waits for a report exactly when the key is not special |
| `MachineRuns.GrowthIs` | interpreter.c:203-209 | by how many bytes each executed instruction, calls and returns included, moves the top of the stack |
| `MachineRuns.ReportBeforeNextInstruction` | interpreter.c:143-152 | between such a press and the next executed instruction a report is filled with the same keys |
| `MachineRuns.RoomIff` | interpreter.c:248-252 | a step that has passed the overflow check writes behind the stack if and only if it pushes a short in the very last place or calls a method within six bytes of the end |
| `MachineRuns.OnlyCallsOutgrow` | interpreter.c:248-252 | only the locals of a called method can leave the top outside the stack, and then the next step crashes the machine as it is |
| `MachineRuns.ShortPastEnd` | interpreter.c:248-252 | a machine that starting produces can pass the check in that place and push a short past the end of the stack |
| `MachineRuns.CallPastEnd` | interpreter.c:740-768 | a machine that starting produces can pass the check and call a method whose frame header does not fit, three bytes below that place |
| `VirtualMachine.Vm.constructor` | interpreter.c:71-86 | a fresh machine is stopped with a clear stack |
| `VirtualMachine.Vm.PushByte` | interpreter.c:203-205 | adds an operand to the last frame and changes nothing else |
| `VirtualMachine.Vm.PopByte` | interpreter.c:203-204 | takes the last operand |
| `VirtualMachine.Vm.PushShort` | interpreter.c:207-209 | adds two operand bytes, the lower one first |
| `VirtualMachine.Vm.PopShort` | interpreter.c:207-208 | takes two operand bytes as a word |
| `VirtualMachine.Vm.StoreLocal` | interpreter.c:323-327 | changes one local of the last frame |
| `VirtualMachine.Vm.StoreGlobal` | interpreter.c:437-442 | changes one global and no frame |
| `VirtualMachine.Vm.ExecLocal` | interpreter.c:323-433 | local loads and stores, both widths |
| `VirtualMachine.Vm.ExecGlobal` | interpreter.c:437-463 | global loads and stores, both widths |
| `VirtualMachine.Vm.ExecConst` | interpreter.c:467-503 | pushes a value from the opcode or the code |
| `VirtualMachine.Vm.ExecBinary` | interpreter.c:531-670 | replaces two operands by the result of the operation |
| `VirtualMachine.Vm.ExecCompare` | interpreter.c:593-684 | replaces two operands by their signed comparison |
| `VirtualMachine.Vm.ExecShift` | interpreter.c:601-698 | shifts a byte or a short |
| `VirtualMachine.Vm.ExecOperands` | interpreter.c:506-712 | any instruction on operands alone changes only the operands of the last frame |
| `VirtualMachine.Vm.ExecBranch` | interpreter.c:713-735 | jumps by the signed offset exactly when the operand meets the condition |
| `VirtualMachine.Vm.PopArgs` | interpreter.c:744-754 | takes the arguments off the stack in reverse |
| `VirtualMachine.Vm.EnterFrame` | interpreter.c:756-766 | a new frame with the arguments in front of its locals, which may end behind the stack |
| `VirtualMachine.Vm.DoReturn` | interpreter.c:213-217 | restores the frame below from the saved pointers |
| `VirtualMachine.Vm.ExecCall` | interpreter.c:740-768 | moves the arguments to a new frame and goes to the callee, also when the locals of the callee do not fit the stack |
| `VirtualMachine.Vm.ExecReturn` | interpreter.c:770-802 | moves the result to the caller; when main returns it stops without looking at operands |
| `VirtualMachine.Vm.ExecSystem` | interpreter.c:807-907 | system calls consume their arguments and set what the machine waits for |
| `VirtualMachine.Vm.Step` | interpreter.c:242-909 | one step of the byte machine is one step of the structured machine; a machine whose last frame does not fit crashes without touching the stack |
| `VirtualMachine.Vm.Start` | interpreter.c:88-114 | starts main, keeping globals of an earlier run; refuses a running machine or one without a program; a main whose locals do not fit leaves a machine that the next step crashes |
| `VirtualMachine.Vm.AppendTo` | interpreter.c:143-152 | merges the held keys into a report and ends the wait for one |
| `VirtualMachine.Vm.Run` | interpreter.c:242-909 | every run of the byte machine is a run of the structured machine until the program halts |
| `VmReports.AllMerged` | interpreter.c:143-152 | over any number of running machines without a key behind key code 0: present codes stay in front, no gaps, no repeats, nothing unsent, and a key is missing only from a full report |
| `VmReports.MergesWellIff` | extrareport.c:111-130 | one merge keeps the codes in front, leaves no gap, repeats nothing and loses a key only to a full report, for every report, if and only if no key is held in a slot behind key code 0 |
| `VmReports.AllMergedIff` | interpreter.c:143-152 | that merge holds for every report and every choice of running machines if and only if no machine holds a key in a slot behind key code 0 |
| `VmReports.AppendKeyboardReport` | interpreter.c:143-152 | the loop over the machines is that merge, and ends their waits |
| `VmReports.GapFreeIff` | extrareport.c:111-130 | merging keeps every report without gaps exactly when no key is held in a slot behind key code 0 |
| `VmReports.ZeroLosesKey` | interpreter.c:143-152 | two machines of which one has pressed key code 0 before another key: that other key is lost |
| `Debouncing.ChangeNeedsAgreement` | keystate.c:207-217 | a key changes state only when all kept scans agree |
| `Debouncing.Debouncer.constructor` | keystate.c:74-81 | all keys start off |
| `Debouncing.Debouncer.ReadMatrix` | keystate.c:187-206 | one row of bits holds exactly the keys that are down |
| `Debouncing.Debouncer.CombineRows` | keystate.c:209-214 | the words of bits that are set in all rows and in some row |
| `Debouncing.Debouncer.DebounceWord` | keystate.c:208-217 | one combination of words steps eight keys as their own automata |
| `Debouncing.Debouncer.Update` | keystate.c:185-217 | for every scan history the bit-parallel ring debouncer refines a per-key automaton, and reports exactly the rising edges |
| `KeyEvents.LayerKeysReturn` | keystate.c:152-174 | letting go of a shift key returns to the base layer unless the layer is locked, and so does unlocking |
| `KeyEvents.OneMoreEvent` | keystate.c:117-131 | events keep alternating |
| `KeyEvents.ReleaseMatchesPress` | keystate.c:117-144 | every release has its press: same key, same code, nothing of that key in between |
| `KeySlots.SlotEvents` | keystate.c:133-144 | the events of one slot take listeners from what they believed before the scan to what holds after it, across layer changes |
| `KeySlots.EventsSparse` | keystate.c:251-264 | a scan reports a key at most once, or as a release followed by a press when the layer changes |
| `KeySlots.EventMeansChange` | keystate.c:251-264 | without a layer change only keys that changed are reported |
| `KeySlots.ScanTracks` | keystate.c:218-264 | after a scan a key is tracked if it was and is still on; a key the scan turned on is tracked exactly when the new keys up to it are no more than the slots that were free before |
| `KeySlots.RecordedInOrder` | keystate.c:225-242 | new keys take the free slots in the order of their codes, until there are no more of either |
| `KeySlots.AllServedIff` | keystate.c:225-242 | no key that a scan turned on is missed if and only if there are no more of them than slots free before the scan |
| `KeySlots.FreedTooLate` | keystate.c:225-242 | all fourteen slots taken, one key goes up and another down in the same scan: the new key is not tracked, although a slot becomes free |
| `KeyState.Keyboard.constructor` | keystate.c:88-91 | no key is tracked at the start |
| `KeyState.Keyboard.MarkReleased` | keystate.c:218-224 | marks exactly the tracked keys that went off |
| `KeyState.Keyboard.RecordPresses` | keystate.c:225-242 | puts the new keys into free slots; misses one only when there is none |
| `KeyState.Keyboard.DecodeLayer` | keystate.c:243-250 | layer keys that changed act in slot order |
| `KeyState.Keyboard.NotifyAboutKeyChange` | keystate.c:133-144 | tells listeners of one slot and keeps the count |
| `KeyState.Keyboard.NotifySlots` | keystate.c:251-264 | tells listeners of all slots and frees those of released keys |
| `KeyState.Keyboard.Update` | keystate.c:184-266 | after every scan slots hold distinct keys that are debounced on, the count is right, and listeners agree with the slots; exactly the new keys for which there are enough slots free before the scan, in the order of their codes, are tracked |
| `KeyState.Keyboard.Run` | keystate.c:184-266 | this holds after any number of scans |
| `KeyState.Keyboard.ListenersAgree` | keystate.c:108-149 | what listeners believe of each key, with its code on the layer in force, and that the count is the number of keys they believe down |
| `KeyState.Keyboard.HideKey` | keystate.c:268-273 | hides one tracked key and changes nothing else |
| `KeyState.Keyboard.IsKeyHidden` | keystate.c:275-281 | a key is hidden when its slot says so or when it is not tracked |
| `TriggerCodec.TriggerEditor.ToggleKey` | qtclient/trigger.cc:13-23 | adds an absent key while there is room and removes a present one; the list stays increasing |
| `TriggerCodec.InOrderKeeps` | qtclient/trigger.cc:173-192 | the encoded list is sorted and holds exactly the triggers that have keys |
| `TriggerCodec.RequiredInOrder` | qtclient/trigger.cc:173-192 | sorting does not change the storage needed |
| `TriggerCodec.EncodeTrigger` | qtclient/trigger.cc:128-149 | writes one entry and its macro at the cursors |
| `TriggerCodec.EncodeAll` | qtclient/trigger.cc:194-213 | after every trigger the images hold exactly the triggers so far |
| `TriggerCodec.EncodeTriggers` | qtclient/trigger.cc:153-216 | fails exactly when an image does not fit, saying how much is needed; otherwise yields the images of the sorted list, for every list of triggers and every storage size the device can report |
| `TriggerCodec.ImagesUsable` | qtclient/trigger.cc:153-216 | images of less than 32768 bytes of macros satisfy the index and heap invariants of the firmware store, and bind each combination to its trigger and nothing else |
| `TriggerCodec.ReadKeys` | qtclient/trigger.cc:43-52 | reads the keys of an entry up to the first unused place |
| `TriggerCodec.ReadTriggers` | qtclient/trigger.cc:32-74 | reads one trigger per used entry, in order, up to an empty entry or the end of the index |
| `TriggerCodec.RoundTrip` | qtclient/trigger.cc:32-216 | every entry of an image reads back as its trigger, except that a macro offset or program number of 16 bits reads as a 15-bit program number |
| `TriggerCodec.ReadAsIff` | qtclient/trigger.cc:54-69 | an offset or program number that needs 16 bits is exactly what cannot be read back |
| `TriggerCodec.EncodeAndRead` | qtclient/trigger.cc:32-216 | whenever the images fit, encoding and then reading yields the triggers with keys, in key order, if and only if every macro begins in the first 32 KB and every program number has 15 bits |
| `TriggerCodec.LateMacroLost` | qtclient/trigger.cc:128-216 | two proper triggers that fit into the storage a device can report, of which the second does not come back |
| `TriggerUpload.Upload` | lufa/lufa_main.c:240-253 | encoding triggers and streaming the images into index and EEPROM leaves a valid macro store that binds exactly those triggers; if they do not fit, nothing changes |
| `RecordingStates.Main.constructor` | Keyboard.c:72-82 | at power-up nothing is being recorded |
| `RecordingStates.Main.HandleRecordTrigger` | Keyboard.c:460-502 | starts a recording exactly when keys are let go, there are not too many, and the first is a key |
| `RecordingStates.Main.RecordHook` | Keyboard.c:506-523 | records ordinary keys while the program key is up; a failed append aborts and stops listening |
| `RecordingStates.Main.HandleRecord` | Keyboard.c:525-539 | listens to key changes until the stop chord, which commits |
| `RecordingStates.Main.HandleNormal` | Keyboard.c:204-395 | a command leaves for its state; the full reset resets the macro store, and no other command touches it |
| `RecordingStates.Main.HandleWaiting` | Keyboard.c:152-158 | leaves for the next state once the keys are up |
| `RecordingStates.Main.HandleProgramming` | Keyboard.c:427-458 | remapping alternates between source and destination |
| `RecordingStates.Main.FillKeyboardReport` | Keyboard.c:546-578 | the end of playback waits for the keys to come up |
| `RecordingStates.Main.Loop` | Keyboard.c:109-192 | one pass keeps: a macro is pending exactly in, or on the way to, the recording state, and the recorder listens only there |
| `RecordingStates.Main.Run` | Keyboard.c:109-192 | over any run, full resets included, the store is never used out of order: no append, commit or abort without a started macro, no start and no reset with one pending |
| `RecordingStates.Replay` | Keyboard.c:460-539 | what the main loop issued, run on the bytes of the store, ends as the loop believes, and stops early only at an append without room |

## Left out

- SpiEeprom.Chip.MemMove: the addresses of an upward move must not fall below zero.
- MacroStore.Store.Append: behind the region it says which byte of the chip changes, but not what later operations then do; the chip must have that byte.
- VirtualMachine.Vm.Start: globals and the header of main's frame must fit the stack; the code writes a header that does not fit behind the stack.
- Storage failures: short reads and failed writes, and the error codes that report them; the recording states do model a failed append.
- Host writes to the index, the macros or the programs, and a full reset asked for by the host, while a macro is being recorded.
- What a full reset does to anything but the macros and, in `SavedLayouts`, the saved layouts and the mapping.
- Mouse reports and the buzzer: the interpreter's mouse and buzzer calls take their arguments and wait, but no movement, button or tone is modelled.
- Uptime and delays are natural numbers: the wrap-around of the 32-bit millisecond counter is not modelled.
- Signed 16-bit overflow in multiplication and division wraps, as on the target, where C leaves it undefined; division by zero and shifts by 16 or more are outside `StackMachine.Safe`.
- MachineRuns.CallThenReturn: says nothing of a callee that writes outside its own locals, operands and globals, which byte code can do.
- VirtualMachine.Vm.Step: reads of program storage past its end, which crash a program, are excluded by the precondition.
- The code in the normal state that turns pressed keys into a command is one parameter of a pass through the main loop; which keys become a recorded trigger is another.
- States entered under KATY_DEBUG only, among them the photosensor's printing state.
- RecordingStates.Main.Run: uses the macro store through its user's view, which RecordingStates.Replay runs on the bytes; whether an append fails is a parameter, since the code reports only storage errors and not a lack of room.
- `key_press_counter`, the shown number of key presses, and the LCD, LED and buzzer side effects of a scan.
- The keyboard and mouse reports built directly from the slots, and `keystate_check_key`, which stops at the first match.
- Debounce lengths that change between scans.
- The C library's binary search and Qt's sort are written out as the algorithms their documentation promises.
- TriggerCodec.ReadTriggers: asks for whole entries and for offsets inside the data, since the code reads whatever lies behind them; at the end of a full index it takes Qt's release behaviour, as a debug build stops there.
- TriggerUpload.Upload: asks for program numbers of 15 bits, of which the firmware has far fewer, and for no recording in progress.
- The number of keys in a trigger is four, as in the firmware; the host takes it from the device.
- USB keep-alive calls, descriptors, drivers, the user interface and the disassembler.
