# Verified engines of a QMK/Vial keyboard firmware

Dafny models of the stateful engines in this firmware that need no hardware to be understood, and of
its UF2 converter, with proofs about all their inputs and all their runs. `dafny verify dfyconfig.toml`
checks everything.

Code that updates state in place is modelled twice: as a function on values, and as a class or method
with the source's fields, arrays and loops that is proved to go exactly where the function goes. The
theorems are about the functions, and hold of the classes through the methods' contracts.

| area | files |
|---|---|
| Tap-hold engine (`quantum/action_tapping.c`) | `TapHold`, `TapHoldTheorems`, `TapHoldTrace`, `TapHoldOrder`, `TapHoldPairing`, `TapHoldTyping`, `TapHoldRetained`, `TapHoldEngine`, `ActionCode` |
| Deferred executor (`quantum/deferred_exec.c`) | `DeferredExec`, `DeferredExecTheorems`, `DeferredExecTiming`, `DeferredExecTable` |
| Keymap in EEPROM, macros (`quantum/dynamic_keymap.c`) | `KeymapLayout`, `KeymapBuffer`, `KeymapStore`, `Macros`, `MacroDecoder`, `MacroPlayer` |
| UF2 and Intel HEX converter (`util/uf2conv.py`) | `Uf2`, `Uf2Theorems`, `Uf2Files`, `Uf2Families`, `IntelHex`, `IntelHexText`, `IntelHexTheorems`, `Uf2Converter` |
| Matrix scan and ghost filter (`quantum/keyboard.c`) | `RowBits`, `Matrix`, `MatrixScanner` |
| Layers (`quantum/action_layer.c`, `quantum/keymap_common.c`, `quantum/action_code.h`, `quantum/action.c`) | `SourceLayers`, `LayerRuns`, `LayerCache`, `LayerActions` |
| Vial unlock, settings enumeration (`quantum/vial.c`, `quantum/qmk_settings.c`) | `VialUnlock`, `SettingsQuery` |
| CRC-8 (`quantum/crc.c`) | `Crc8` |

The outside world enters as parameters: the keymap and the tap-hold callbacks may depend on everything
processed so far, deferred callbacks are arbitrary lists of API calls that may look at the whole table,
clocks are real times read modulo 2^16 or 2^32.

Where the code does not do what one might expect of it, the exact condition is proved:

- A deferred callback that queues a new job keeps it exactly unless the new job takes row and token of the
  callback's own one; then it is shifted, or erased if the callback returns zero (`RequeueSurvives`, and
  `RequeueCanBeLost` for a run from the empty table in which that happens).
- Asked for one family of a UF2 file that holds several, the decoder puts what it keeps of each stretch of
  sectors one after the other: the image of a wanted stretch without the gap to the wanted one before it,
  and one zero for every byte of gap within any other stretch; and it returns the address of the last wanted
  stretch. So the family comes out as from a file of its own if and only if every stretch decodes, the
  family stands in one stretch at most, and the pages of every other stretch are contiguous
  (`DecodeStretches`, `SelectionIsExact`; `SecondIsDisplaced` says where the bytes then stand, and
  `SelectionCanMiss` and `InterleavedIsMissed` are files that break either half of the condition).
- A HEX file decodes again if and only if its pages never go back and never leave over 10 MB
  (`HexToUf2ToBinary`, and `GoingBackDoesNotDecode` for a file that is converted in vain).
- Sending a macro does not always stay inside its area, as the comment at `quantum/dynamic_keymap.c:507`
  has it. Closed by two zeros, an area with more zeros than `id` is read inside whatever it holds, and the
  second zero is needed (`SendStaysInside`, `ClosingBytes`, and `SendCanReadOutside` for two areas).
- LM turns on its layer exactly if its mods are left-hand ones or the layer is odd: the flag for right-hand mods
  falls into the layer field (`LayerModsHitsItsLayer`, and `LayerModsCanMiss` for a key that turns on its
  neighbour).
- The tap-hold engine keeps a key's presses and releases in order exactly as long as every event finds
  nothing of its own key waiting, or a tap-hold key pending, or the last tap's term over
  (`OrderKeptExactly` for a call, `KeysKeepTheirOrder` for runs, and `ReleaseCanOvertakeItsPress` for a
  run in which a key's release is passed on before its press).

A key is released the way it was pressed under one condition more, that no release arrives while another
of its key waits (`KeysAreReleasedAsPressed`, and `ReleaseMustBeAlone` for a run that shows it is needed).

The comment at `quantum/action_tapping.c:547` expects an empty buffer there; the code can have events
waiting (`EventsCanWaitBehindATap`), and the model follows the code.

Modelling note: every exception that ends a conversion is an error of the model, which does not tell an
AssertionError from the TypeError that building its message raises (`util/uf2conv.py:52`,
`util/uf2conv.py:59`).

## Model

| member | source | states |
|---|---|---|
| TapHoldTheorems.RunKeepsValid | quantum/action_tapping.c:119-152 | in every reachable state at most seven events wait, waiting presses are untouched, and the tapping key is empty, down, or up with at least one tap |
| TapHoldTheorems.StepKeepsValid | quantum/action_tapping.c:205-568 | one call of the state machine keeps those states, whatever record it is handed |
| TapHoldTheorems.StepAccount | quantum/action_tapping.c:205-568 | a step passes on its event exactly when it consumes it, and otherwise only settles the tapping key |
| TapHoldTheorems.DrainConserves | quantum/action_tapping.c:136-148 | the drain loop neither loses nor repeats an event |
| TapHoldTheorems.EnqueueConserves | quantum/action_tapping.c:574-590 | enqueueing keeps every event, or accounts for all it throws away on overflow |
| TapHoldTheorems.Conservation | quantum/action_tapping.c:119-152 | over any run the real events fed in are exactly those passed on once, held as the tapping key, waiting, or lost in an overflow |
| TapHoldTrace.SyntheticReleasesAnswer | quantum/action_tapping.c:438-457 | every made-up release is for a key passed on as a tap of count two or more and not released since |
| TapHoldTrace.PendingStep | quantum/action_tapping.c:249-436 | while a key is pending a step passes on at most a release, or that key's press first |
| TapHoldTrace.NoPressOvertakesPending | quantum/action_tapping.c:205-568 | over any run no press is passed on before that of a pending tap-hold key, unless an overflow lost the key |
| TapHoldTrace.TicksFlush | quantum/action_tapping.c:119-152 | as many late ticks as the backlog leave nothing held back |
| TapHoldTrace.EventualDelivery | quantum/action_tapping.c:119-152 | fifteen late ticks after any typing, every event has been passed on exactly once or was lost in an overflow |
| TapHoldTrace.DropsOnlyWhenFull | quantum/action_tapping.c:126-134 | events are lost only when a real event is refused with seven waiting, and then the engine is reset |
| TapHoldOrder.TakenAtOnce | quantum/action_tapping.c:205-568 | exactly when a real event is taken at once instead of being made to wait |
| TapHoldOrder.StepOrder | quantum/action_tapping.c:205-568 | a step puts the event it takes behind all of its key that has been passed on or is pending, and reorders no key |
| TapHoldOrder.DrainOrder | quantum/action_tapping.c:140-148 | the drain loop never changes the order of a key's events |
| TapHoldOrder.OrderKeptExactly | quantum/action_tapping.c:119-152 | a call that loses nothing keeps its key's events in order if and only if nothing of the key waits, or a key is pending, or the last tap's term is over; other keys keep theirs anyway |
| TapHoldOrder.KeysKeepTheirOrder | quantum/action_tapping.c:119-152 | over any run without overflow whose keys alternate, all keys are at all times in the order typed if and only if every event arrived under that condition |
| TapHoldOrder.PassedOnInOrder | quantum/action_tapping.c:119-152 | and then what has been passed on of a key is the beginning of what was typed on it |
| TapHoldOrder.ReleaseCanOvertakeItsPress | quantum/action_tapping.c:140-148 | a concrete run outside the condition whose plain key is released before it is pressed |
| TapHoldOrder.EventsCanWaitBehindATap | quantum/action_tapping.c:546-551 | a concrete run in which an event still waits where the comment expects none |
| TapHoldPairing.StepPairs | quantum/action_tapping.c:205-568 | a step keeps, for every key, that the press last passed on and what waits of the key agree on the tap count |
| TapHoldPairing.KeysAreReleasedAsPressed | quantum/action_tapping.c:249-460 | over any run in order and without loss in which no release arrives behind another of its key, every release is passed on with the tap count of its press, unless one was made up before |
| TapHoldPairing.ReleaseMustBeAlone | quantum/action_tapping.c:535-538 | a run in order, with constant callbacks, that taps a key and releases it as a hold because a restarted tap is not scanned for its release |
| TapHoldTyping.TapWithinTermElseHold | quantum/action_tapping.c:199-268 | a lone tap-hold key is a tap, on press and release, if released within its term, and a hold otherwise |
| TapHoldTyping.LateTickHolds | quantum/action_tapping.c:468-477 | a tick after the term settles the pending key as a hold, before anything that waits behind it, and an earlier tick settles nothing |
| TapHoldTyping.ReleaseOfTap | quantum/action_tapping.c:387-424 | a tapped key's release goes out with its tap count, and the key is remembered for another tap exactly if its term is not over |
| TapHoldTyping.LateReleaseEndsTapping | quantum/action_tapping.c:410-415 | a tap-hold key pressed again after a late release starts anew |
| TapHoldTyping.OtherKeyAfterTap | quantum/action_tapping.c:425-560 | what any event of another key does while a tap is being followed, with the key down or up, in its term or after it |
| TapHoldTyping.PressAgain | quantum/action_tapping.c:520-566 | a repeated tap counts up to fifteen within both terms and undisturbed, is held back like a first press within the tapping term otherwise, and starts anew after it |
| TapHoldTyping.StepFollowsVerdict | quantum/action_tapping.c:249-477 | a pending key is settled as tap or hold, or kept, exactly as the hold options promise |
| TapHoldTyping.NestedKey | quantum/action_tapping.c:288-436 | what comes out of a key typed inside the term of a pending tap-hold key, for every answer of the hold options at every call, and for other keys that are tap-hold themselves |
| TapHoldRetained.EarlierRelease | quantum/action_tapping.c:326-372 | while a key is undecided, the release of a key pressed before it is held back exactly if its action word, given by ranges, is a modifier, modifiers alone, a held mod-tap or a layer switch, and is passed on at once otherwise |
| TapHoldRetained.RolledOver | quantum/action_tapping.c:326-372 | so a tap rolled over any such key comes out before that key's release, and over any other key after it |
| TapHoldRetained.ShiftIsKept | quantum/action_tapping.c:342-351 | a tap rolled over Left Shift comes out shifted |
| ActionCode.TapHoldWords | quantum/action.c:1159-1182 | which 16-bit action words are tap-hold, by ranges |
| TapHoldEngine.Engine.IsTyped | quantum/action_tapping.c:605-612 | the ring scan finds the opposite event of a key exactly if it waits |
| TapHoldEngine.Engine.Enq | quantum/action_tapping.c:574-590 | appends to the ring, or refuses when seven records wait |
| TapHoldEngine.Engine.WaitingBufferScanTap | quantum/action_tapping.c:629-656 | the scan settles the tapping key by the first matching release in the ring |
| TapHoldEngine.Engine.ProcessTapping | quantum/action_tapping.c:205-568 | the method on fields and ring goes exactly where the machine of the theorems goes |
| TapHoldEngine.Engine.ActionTappingProcess | quantum/action_tapping.c:119-152 | so does a whole call, drain loop and overflow included |
| DeferredExecTheorems.AllocateIsFirst | quantum/deferred_exec.c:18-40 | allocation ends, returns the first usable token in cyclic order, and fails exactly when all 255 are in use |
| DeferredExecTheorems.FreeRowFreeToken | quantum/deferred_exec.c:30-40 | at most 255 rows with a free one leave a usable token |
| DeferredExecTheorems.DeferSucceeds | quantum/deferred_exec.c:46-73 | queueing fails only for bad arguments or a full table, and takes one free row with an unused token |
| DeferredExecTheorems.DeferMovesOn | quantum/deferred_exec.c:46-73 | a queued job leaves the counter at its token, and a refused one changes nothing but, if no token is usable, the counter |
| DeferredExecTheorems.TokenIsNotReused | quantum/deferred_exec.c:30-40 | a job queued after one that is queued and cancelled gets another token while another one is usable |
| DeferredExecTheorems.UnknownTokenIsRefused | quantum/deferred_exec.c:75-116 | extending or cancelling returns true exactly for a token of the table, with a delay, and otherwise changes nothing |
| DeferredExecTheorems.RunKeepsValid | quantum/deferred_exec.c:46-157 | over any run live tokens stay distinct and free rows clear, whatever callbacks call |
| DeferredExecTheorems.PassFiresDueOnce | quantum/deferred_exec.c:125-155 | a pass calls back exactly the rows due when visited, each once, in row order |
| DeferredExecTheorems.NotDueWaits | quantum/deferred_exec.c:125-155 | a live row that is not due and not named by callbacks is left alone by a pass |
| DeferredExecTiming.DueIsReached | quantum/deferred_exec.c:131 | within 2^31 ms the signed wrapped difference is that of the real times, so the test compares them |
| DeferredExecTiming.PassFollowsClock | quantum/deferred_exec.c:118-157 | a pass at real time now calls back a live job of real trigger time t exactly once if t is reached and not at all if not, within 2^31 ms |
| DeferredExecTiming.DueFiresOnce | quantum/deferred_exec.c:125-155 | a row due at the start of a pass fires in it exactly once, with its own trigger |
| DeferredExecTiming.RepeatsWithoutDrift | quantum/deferred_exec.c:141-146 | a repeating job is never lost and its trigger is its first one plus all delays returned |
| DeferredExecTiming.OneShotEnds | quantum/deferred_exec.c:147-153 | a callback that returns zero ends its job |
| DeferredExecTiming.OnlyItsOwnRow | quantum/deferred_exec.c:75-116 | extending or cancelling a token changes the row of that token and no other |
| DeferredExecTiming.QueuedIsNotDue | quantum/deferred_exec.c:131 | a job queued during a pass is not due for it exactly if elapsed time and delay stay below 2^31 |
| DeferredExecTiming.QueuedByCallbackWaits | quantum/deferred_exec.c:125-155 | a job queued at any point of any callback stands untouched and unfired when the pass ends, unless it took its caller's row and token, a later call of the pass names it, or elapsed time and delay reach 2^31 |
| DeferredExecTiming.RequeueSurvives | quantum/deferred_exec.c:133-154 | a job queued at any point of any callback outlives the visit unchanged exactly unless it takes its caller's row and token, and what becomes of it then |
| DeferredExecTiming.RequeueCanBeLost | quantum/deferred_exec.c:133-154 | a run from an empty one-row table, with another table allocating in between, that ends with the new job erased |
| DeferredExecTable.Executors.TokenCanBeUsed | quantum/deferred_exec.c:18-28 | the scan accepts exactly the valid tokens that no row holds |
| DeferredExecTable.Executors.AllocateToken | quantum/deferred_exec.c:30-40 | the wrapping loop returns the allocated token and leaves the counter as specified |
| DeferredExecTable.Executors.DeferExec | quantum/deferred_exec.c:46-73 | the array version queues as specified |
| DeferredExecTable.Executors.ExtendExec | quantum/deferred_exec.c:75-93 | the array version extends as specified |
| DeferredExecTable.Executors.CancelExec | quantum/deferred_exec.c:95-116 | the array version cancels as specified |
| DeferredExecTable.Executors.AdvancedTask | quantum/deferred_exec.c:118-157 | a task is a pass if the clock has moved on, and nothing otherwise |
| KeymapLayout.CellsAreDisjoint | quantum/dynamic_keymap.c:139-164 | distinct keys and encoder directions never share an EEPROM byte |
| KeymapLayout.EveryCellIsAKey | quantum/dynamic_keymap.c:139-142 | every two-byte cell of the keymap area is some key's |
| KeymapLayout.SetThenGet | quantum/dynamic_keymap.c:144-182 | a set is seen by gets of its position only and changes no other byte |
| KeymapLayout.OutsideTheMap | quantum/dynamic_keymap.c:144-182 | positions outside the map read as KC_NO and cannot be set |
| KeymapLayout.GetReturnsLastSet | quantum/dynamic_keymap.c:144-182 | after any sequence of sets a get returns the last one for its position |
| KeymapBuffer.ReadIsTheMap | quantum/dynamic_keymap.c:321-334 | a buffer read is the map in layer, row, column order, high byte first, then zeros |
| KeymapBuffer.CellAfterWrite | quantum/dynamic_keymap.c:336-392 | a locked buffer write leaves no touched cell equal to QK_BOOT, stores all others as asked, and leaves untouched cells alone |
| KeymapBuffer.LockedWriteStoresNoBoot | quantum/dynamic_keymap.c:336-392 | the same for every key and encoder of the map |
| KeymapBuffer.BeyondArea | quantum/dynamic_keymap.c:336-392 | nothing outside the written range, or beyond the area, changes |
| KeymapBuffer.RefusedWrite | quantum/dynamic_keymap.c:341-344 | a write that starts behind the area or ends behind it changes nothing |
| KeymapStore.Store.GetKeycode | quantum/dynamic_keymap.c:144-151 | reads the keycode of a position, zero out of range |
| KeymapStore.Store.SetKeycode | quantum/dynamic_keymap.c:153-160 | writes two bytes, or nothing out of range |
| KeymapStore.Store.GetBuffer | quantum/dynamic_keymap.c:321-334 | fills the caller's buffer with the read of the area and no more |
| KeymapStore.Store.CensorBuffer | quantum/dynamic_keymap.c:348-380 | edits exactly the bytes of cells that would become QK_BOOT, half covered ones too |
| KeymapStore.Store.SetBuffer | quantum/dynamic_keymap.c:336-392 | the in-place write stores what the specification says, locked or not |
| KeymapStore.Store.Reset | quantum/dynamic_keymap.c:268-319 | afterwards every key and encoder reads as in flash, and the lock state is as before |
| Macros.ExtendedStorable | quantum/dynamic_keymap.c:464-469 | which 16-bit keycodes a macro can hold: exactly those some pair of non-zero bytes decodes to |
| Macros.EncodingDetermines | quantum/dynamic_keymap.c:509-559 | the stored form is a prefix code |
| Macros.AreaDetermines | quantum/dynamic_keymap.c:484-505 | the macro area determines the list of macros |
| MacroPlayer.Player.SkipMacros | quantum/dynamic_keymap.c:484-503 | the loop moves behind the id-th zero byte, or reports that the area ends before it, for any bytes |
| MacroDecoder.SkipFindsMacro | quantum/dynamic_keymap.c:484-503 | in an area of well-formed macros that is the start of macro id |
| MacroDecoder.EncodedIsSent | quantum/dynamic_keymap.c:464-561 | bytes that start with an encoded macro and a zero are sent as exactly that macro |
| MacroDecoder.StoredMacroIsSent | quantum/dynamic_keymap.c:471-562 | so an area of well-formed macros sends macro id as it was stored |
| MacroDecoder.DelayStorable | quantum/dynamic_keymap.c:545-554 | which delays a macro can hold: exactly those that some pair of non-zero bytes stands for |
| MacroDecoder.SentBefore | quantum/dynamic_keymap.c:509-561 | an encoded macro is sent before whatever the bytes behind it make the loop do |
| MacroDecoder.BytesOfActions | quantum/dynamic_keymap.c:509-561 | what is sent for the bytes of every kind of action, behind any macro and before any rest |
| MacroDecoder.CutShort | quantum/dynamic_keymap.c:513-554 | a zero ends a macro behind the prefix and in a delay, but in place of a keycode byte it drops the action and what follows is sent too |
| MacroDecoder.CallPlaysMacro | quantum/dynamic_keymap.c:471-562 | a call plays exactly macro id if id is in range and the area finished, and nothing if not |
| MacroDecoder.TooFewZerosPlayNothing | quantum/dynamic_keymap.c:488-503 | nor does it play anything of an area with fewer than id zeros |
| MacroDecoder.SkipStaysInside | quantum/dynamic_keymap.c:484-507 | in an area that ends in a zero it lies inside exactly if there are more than id zeros, and at the end exactly if there are id |
| MacroDecoder.ClosingBytes | quantum/dynamic_keymap.c:505-561 | sending stays inside every area that ends in a given byte and a zero exactly if that byte is zero too |
| MacroDecoder.SendStaysInside | quantum/dynamic_keymap.c:471-562 | in an area closed by two zeros, whatever it holds, a send reads inside exactly if there are more than id zeros |
| MacroDecoder.SendCanReadOutside | quantum/dynamic_keymap.c:480-561 | two areas of over 100 bytes, accepted with their one closing zero, that a send reads past |
| MacroPlayer.Player.PlayMacro | quantum/dynamic_keymap.c:505-561 | the loop carries out exactly what the decoder makes of the bytes, well-formed or not |
| MacroPlayer.Player.Send | quantum/dynamic_keymap.c:471-562 | sends what stands at macro id, or nothing for a bad id, an unfinished write or an area with too few zeros |
| Uf2.SectorFields | util/uf2conv.py:121-166 | a sector field by field: magic words, flags, address, size, number, count, family, data, device type extension, zeros, final magic word |
| Uf2Theorems.DecodeAnyFile | util/uf2conv.py:47-113 | any file of flash blocks of one family or none, with up to 476 bytes each, decodes to its assembled data, errors included |
| Uf2Files.BadBlockStops | util/uf2conv.py:51-60 | a wrong magic word, or over 476 bytes in a flash block, ends the decoding with its own error |
| Uf2Files.DecodeSkips | util/uf2conv.py:54-113 | blocks not for flash might as well not be there, but that one at the end keeps a file of several families from being cleared |
| Uf2Theorems.DecodeIsAssemble | util/uf2conv.py:37-109 | decoding any pages' sectors gives the assembled bytes and first address, or the error of the first page out of place |
| Uf2Theorems.AssembleIsFlat | util/uf2conv.py:71-82 | pages decode exactly if they ascend with gaps of at most 10 MB, and then give the flat image, zero in the gaps |
| Uf2Theorems.RoundTrip | util/uf2conv.py:121-142 | content to UF2 and back is the content padded to whole pages, with the base address restored |
| Uf2Theorems.ConvertsIfItFits | util/uf2conv.py:123-136 | binary content converts exactly if it is empty or the pages of its first and last byte have 32-bit addresses |
| Uf2Theorems.ContentIsNumbered | util/uf2conv.py:121-142 | every block of the file carries its number, the block count, the address and the bytes of its page |
| Uf2Families.DecodeStretches | util/uf2conv.py:37-109 | what decoding any stretches of sectors of any families returns or fails with, whatever family is asked for |
| Uf2Families.SelectionIsExact | util/uf2conv.py:64-82 | a family comes out as from a file of its own exactly if it stands in one stretch at most and all others are contiguous |
| Uf2Families.TwoFamilies | util/uf2conv.py:64-87 | the same written out for one stretch each of two families |
| Uf2Families.SecondIsDisplaced | util/uf2conv.py:64-87 | with one stretch each, the family stored second comes out shifted by the first one's gaps against the address returned |
| Uf2Families.TwoSelectionsAreExact | util/uf2conv.py:71-82 | with one stretch each, either family comes out exactly if the other's pages are contiguous |
| Uf2Families.SelectionCanMiss | util/uf2conv.py:71-82 | a three-page file in which the page asked for comes out with zeros before it, or behind it |
| Uf2Families.InterleavedIsMissed | util/uf2conv.py:66-70 | a page of another family between two pages of the one asked for drops the gap between them and changes the address |
| IntelHexText.LineReads | util/uf2conv.py:175-204 | a printed record is read as what it means, with or without carriage return |
| IntelHexText.FileReads | util/uf2conv.py:174-204 | a printed file is read as the meaning of its records up to the end-of-file record |
| IntelHexText.AnyBytesRead | util/uf2conv.py:177-194 | what a line of any bytes does: byte count and checksum are not looked at, too few bytes end the conversion, unknown types are skipped |
| IntelHexText.LastPairRead | util/uf2conv.py:178-181 | a digit paired with a carriage return counts for itself; pairs without a digit, or with a colon, end the conversion |
| IntelHexText.LineInAnyCase | util/uf2conv.py:180 | upper and lower case digits read the same |
| IntelHexText.OtherLinesRead | util/uf2conv.py:175-176 | a line without a colon is skipped, an empty one ends the conversion |
| IntelHexText.StartIsFirstRecord | util/uf2conv.py:190-192 | the start address is that of the first data record |
| IntelHexText.ConversionReturnsStart | util/uf2conv.py:168-205 | a file of printed records converts exactly if all its bytes have 32-bit addresses (and its blocks a 32-bit count), and returns that start address |
| IntelHexTheorems.PacksIfItFits | util/uf2conv.py:156-158 | the blocks pack exactly if every byte has a 32-bit address and their number fits |
| IntelHexTheorems.CollectAscends | util/uf2conv.py:196-202 | the blocks ascend exactly if the pages of the data bytes do |
| IntelHexTheorems.CollectIsImage | util/uf2conv.py:196-202 | the blocks hold the last byte written to each address |
| IntelHexTheorems.HexToUf2ToBinary | util/uf2conv.py:168-205 | HEX to UF2 to binary works exactly if pages never go back nor leave over 10 MB, and gives the memory image |
| IntelHexTheorems.HexIsNumbered | util/uf2conv.py:203-205 | the blocks of a converted HEX file carry their numbers and the block count |
| IntelHexText.GoingBackDoesNotDecode | util/uf2conv.py:196-202 | a two-record HEX file that is converted and does not decode |
| Uf2Converter.Block.Encode | util/uf2conv.py:149-166 | a block becomes its 512-byte sector, or fails on an address over 32 bits |
| Uf2Converter.Converter.ConvertToUf2 | util/uf2conv.py:121-142 | the loops build the specified file |
| Uf2Converter.Converter.TakeBlock | util/uf2conv.py:57-90 | the loop body changes the decoder as specified |
| Uf2Converter.Converter.ConvertFromUf2 | util/uf2conv.py:37-109 | the loop returns the specified bytes and start address |
| Uf2Converter.Converter.ParseLine | util/uf2conv.py:177-181 | the character loop reads the pairs of the line |
| Uf2Converter.Converter.StoreByte | util/uf2conv.py:196-200 | one data byte into the current block or a new one |
| Uf2Converter.Converter.ConvertFromHexToUf2 | util/uf2conv.py:168-205 | the loops over lines, bytes and Block objects build the specified file |
| RowBits.MoreThanOneIsTwo | quantum/keyboard.c:241-244 | the bit trick holds exactly if two different columns are on |
| Matrix.RunIsConsistent | quantum/keyboard.c:585-638 | over any snapshots replaying the events gives the hidden matrix, and each key alternates press and release |
| Matrix.RowsAfterScan | quantum/keyboard.c:613-635 | row by row the hidden matrix becomes the snapshot, except in rows with a ghost rectangle |
| Matrix.GhostFreePass | quantum/keyboard.c:613-635 | after a pass without ghosts the hidden matrix is the snapshot |
| Matrix.RunEndsWithSnapshot | quantum/keyboard.c:585-638 | whatever came before, after a pass without ghosts the hidden matrix is its snapshot |
| Matrix.SilentPass | quantum/keyboard.c:600-632 | a side that does not process keys emits nothing |
| Matrix.RectangleHasFourCorners | quantum/keyboard.c:246-268 | what a ghost is: four closed and mapped switches in two rows and two columns |
| MatrixScanner.Scanner.GetRealKeys | quantum/keyboard.c:229-239 | the column loop keeps exactly the pressed and mapped keys |
| MatrixScanner.Scanner.HasGhostInRow | quantum/keyboard.c:246-268 | true exactly if some other row and two columns make a rectangle of pressed, mapped keys |
| MatrixScanner.Scanner.EmitRow | quantum/keyboard.c:621-632 | the moving column mask emits exactly the changed columns |
| MatrixScanner.Scanner.MatrixTask | quantum/keyboard.c:585-638 | a pass scans as specified and reports change exactly if the matrix changed |
| SourceLayers.TopBelowIsHighest | quantum/action_layer.c:335-355 | the layer found is the highest active one not transparent at the key, or 0 |
| SourceLayers.TopLayerIsTop | quantum/action_layer.c:335-355 | of all 32 layers the lookup finds the highest active one not transparent at the key, or 0 |
| SourceLayers.WriteThenRead | quantum/action_layer.c:236-258 | the bit-sliced cache is a plain table, although eight entries share each byte |
| LayerRuns.MatrixSlotsDiffer | quantum/action_layer.c:269-272 | different matrix positions use different cache entries |
| LayerRuns.ReleaseFindsPress | quantum/action_layer.c:311-329 | over any run a release is resolved on the layer of its press, whatever happens to the layers in between |
| LayerRuns.RunsArePaired | quantum/action_layer.c:311-329 | every release of a run from the blank cache is resolved on the layer of its slot's last press |
| LayerRuns.LastPressOfKey | quantum/action_layer.c:311-329 | for a matrix key that layer is the top layer at that key's own last press |
| LayerRuns.KeyIsReleasedOnItsLayer | quantum/action_layer.c:264-329 | every key of the matrix, by row and column, is released on the layer that was on top at its own last press, whatever happens to layers and keymap in between |
| LayerRuns.EncoderIsReleasedOnItsLayer | quantum/action_layer.c:275-300 | and every encoder, by number, on that of its last press in either direction |
| LayerRuns.OtherPositionsAreReleasedOnZero | quantum/action_layer.c:285-300 | releases of Vial's own row and of any other position are resolved on layer 0 |
| LayerCache.Cache.Update | quantum/action_layer.c:236-242 | the bit loop writes the layer's bits of one entry |
| LayerCache.Cache.Read | quantum/action_layer.c:248-258 | the bit loop reads them back |
| LayerCache.LayerEngine.LayerSwitchGetLayer | quantum/action_layer.c:335-355 | the downward loop finds the top layer |
| LayerCache.LayerEngine.StoreOrGetAction | quantum/action_layer.c:311-329 | the method on byte cells resolves and remembers as specified |
| LayerActions.LayerWordBits | quantum/action.c:573-617 | for every layer word and every layer: which of the two masks it changes, on which edge, and to what, by its operation and its operand |
| LayerActions.TapWordBits | quantum/action.c:618-736 | for every other action word, tap count and setting: what becomes of every layer |
| LayerActions.LayerKeycodes | quantum/keymap_common.c:90-163 | the keycodes compiled to layer actions are two ranges, and each of them is a layer key's |
| LayerActions.KeycodeIsOwn | quantum/quantum_keycodes.h:80-125 | different layer keys have different keycodes |
| LayerActions.LayerTapWord | quantum/action_code.h:214-243 | all five layer bits survive the spill into the kind bits, and so does the code |
| LayerActions.BitOpWord | quantum/action_code.h:213-239 | the operand of a single-layer operation has that layer's bit and no other |
| LayerActions.LayerModsWord | quantum/action_code.h:230 | right-hand mods move the layer of a layer-mods word to the odd one of its pair |
| LayerActions.LayerKeysMeanWhatTheySay | quantum/keymap_common.c:90-163 | for all layers, any state, tap count and setting, MO, TG, TO, DF, TT, LT and LM do to every single layer what their names say, but for LM with right-hand mods |
| LayerActions.LayerModsHitsItsLayer | quantum/keymap_common.c:159-163 | LM turns its layer on if and only if its mods are left-hand ones or the layer is odd |
| LayerActions.LayerModsCanMiss | quantum/keymap_common.c:159-163 | LM(2, MOD_RCTL) turns on layer 3 instead |
| LayerActions.LayerTapOfOperation | quantum/action_code.h:205-212 | LT with an operation code is another layer key |
| LayerActions.TapToggle | quantum/action.c:630-641 | holding TT leaves the layers alone in the end; taps flip its layer exactly once, at the one numbered by the setting |
| LayerActions.LayerGlobals.Process | quantum/action.c:572-739 | the nested switches update the two masks as specified |
| VialUnlock.WhileInProgress | quantum/vial.c:155-186 | in progress the counter is in 1..50 and counts the current streak of good polls |
| VialUnlock.UnlockTakesFiftyPolls | quantum/vial.c:161-186 | unlocking takes fifty good polls in a row since the last start, so at least 5050 ms of real time |
| VialUnlock.SteadyPollsUnlock | quantum/vial.c:155-186 | fifty polls each over 100 ms after the command before it, all held, do unlock, and fewer do not |
| VialUnlock.LockLocks | quantum/vial.c:187-192 | a lock command locks at once and leaves the handshake as it is |
| VialUnlock.OnlyGoodPollsUnlock | quantum/vial.c:155-186 | what a start and a poll that is too early, misses a key or comes outside a handshake change, and that the lock is not among it |
| VialUnlock.Vial.Poll | quantum/vial.c:161-186 | the combo loop and the counter update one poll as specified |
| SettingsQuery.EnumerationIsComplete | quantum/qmk_settings.c:201-219 | page after page lists every id above the start exactly once, in order, for any page of two bytes or more |
| SettingsQuery.EnumerationListsAll | quantum/qmk_settings.c:201-219 | started from zero it lists the whole table |
| SettingsQuery.QmkSettingsQuery | quantum/qmk_settings.c:201-219 | the loop fills the buffer with the ids that fit and 0xFF behind them |
| Crc8.TableIsStep | quantum/crc.c:27-44 | every one of the 256 table entries is the division of its index by 0x07 |
| Crc8.CrcIsLinear | quantum/crc.c:47-74 | the CRC is linear in register and data |
| Crc8.ResidueIsZero | quantum/crc.c:47-74 | appending the CRC leaves remainder zero |
| Crc8.OneByteIsDetected | quantum/crc.c:47-74 | messages of one length that differ in one byte have different CRCs |
| Crc8.BurstIsDetected | quantum/crc.c:47-74 | so do messages whose differences lie within eight consecutive bits |
| Crc8.Crc8WithTable | quantum/crc.c:46-57 | the table loop computes bit-by-bit division by 0x07 |
| Crc8.Crc8Bitwise | quantum/crc.c:59-74 | the nested loops compute division by 0x31 |

## Left out

- Tap-hold variants CHORDAL_HOLD, RETRO_SHIFT, AUTO_SHIFT and COMBO, and macros that re-enter the engine: more branches of the same kind.
- Changes that process_record makes to the record it is given, and the swap-hands hint: process_record is an append to a trace.
- Order between different keys: the engine reorders by design; order is proved key by key, and for a pending key against all presses (`NoPressOvertakesPending`).
- Tables other than the one modelled: they appear as calls that leave any value in the shared token counter.
- A null table pointer and the fixed eight-row table of the basic deferred API: a table of any length stands for both.
- The other areas that dynamic_keymap_reset clears (settings, tap dances, combos, key overrides).
- KeymapStore.Store.SetBuffer: excludes the empty write at an odd offset of the area while locked, where the source reads and edits outside the caller's buffer.
- MacroPlayer.Player.Send: assumes that the bytes it decodes end the macro inside the area; what follows the area in EEPROM is not modelled. Words are read low byte first.
- MacroPlayer.Player.PlayMacro: assumes the same of the bytes it starts from.
- The summary that the UF2 decoder prints, the family list it loads for it, C array output, drive discovery and command line of the converter.
- UF2 files that mix blocks without a family among those of families.
- Splitting HEX text into lines, and characters that is_hex rejects.
- Layer masks narrower than 32 bits; disable_action_cache; persistent default layers; one-shot layers, which are taken to be switched off; what the magic options swap.
- The user and keyboard hooks on layer changes: the weak defaults are the identity.
- The commands of vial.c that carry data, and what the USB side rejects while an unlock is in progress.
- USB, GPIO, EEPROM drivers, timers as hardware, LEDs, audio and pointing devices.
