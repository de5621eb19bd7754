# A verified model of the WinDOS kernel's data structures

Dafny models of the stateful parts of a small operating system, with proofs of what its code and
comments promise. One module or pair of modules per source file; classes keep the source's fields
and arrays, and each method is tied to a specification whose properties are proved as lemmas.

* **Compositor** (`Layers`, `Screens`, `Compositor`): a z-ordered array of sheets, an owner map and a
  frame, both kept up by partial redraws. `Layers` says what the passes do to one pixel, `Screens` to
  a rectangle, `Compositor.Ctl` is the controller. The main result is `Ctl.Run`: after any run of
  commands the order, the pool and the sheets are those of a state machine on values
  (`Compositor.AfterAll`), and the caches are what the stack of sheets says, without reference to any
  redrawn rectangle. The commands include an owner's new pixels with their redraw and the full refresh.
  Shadow pixels are covered by the full refresh (`Layers.FullRefreshIsPainter`) and by redraws at the
  top of the stack (`Screens.SlideTopPaints`, `Screens.ShowTopPaints`); for the other incremental
  operations the frame is claimed at every pixel that no shadow has lain on since the last one.
* **Window manager** (`Desktop`, `Taskbar`, `WindowManager`): a state machine on values with its
  invariants, the taskbar's pixels, and the class `Wm` that performs both on the controller. `Wm.Run`
  says that after any run of events the state is the machine's (`Desktop.AfterEvents`), the owner map
  is right, and the frame too where no shadow lay before or after one of the events since a window was
  last closed; and the whole frame, shadows included, if only the pointer has moved since.
  `Taskbar.LitMeansShown` ties the pixel of a button to its window's place in the order.
* **exFAT** (`ExfatDir`, `ExfatDisk`, `ExfatWrite`, `ExfatVolume`): parsing and writing entry sets, FAT
  chains, the allocation bitmap, and the three-stage write. The device in `ExfatVolume.Volume` refuses
  an arbitrary but fixed set of its accesses, and a failed write may leave anything in its sectors;
  `WriteFile` speaks of the disk after every completed sector write and gives the exact code. Formats
  follow sections 7.1, 7.4, 7.6 and 7.7 of the Microsoft exFAT specification as far as the code does;
  bit c of the bitmap stands for cluster c, as in the code.
* **Boot image** (`BootImage`): the image builder and the loader's search, and that they agree.
* **Allocators** (`SlabState`, `Slabs`, `PagePool`): free lists threaded through the heap's own bytes,
  with every block accounted for as free, live or lost; first-fit page runs over a packed bitmap.
* **NVMe** (`NvmeQueue`, `Nvme`): host and controller interleaved on two rings with a phase tag
  (sections 4.1 and 4.6 of NVM Express revision 1.4). Before each look at the completion ring the
  controller does an arbitrary but fixed list of deeds.
* **Drawing, log, mouse, scheduler** (`Draw`, `LogDisk`, `Ps2`, `Tasks`).
* `Words`, `Bits`, `Orders`: machine words, little-endian bytes, buffers, C strings, packed bits,
  inserting into and taking out of a sequence.

Where code and comments disagree the model follows the code. `exfat_write_file` is described as
creating or overwriting; it always adds a record, so an older file of the same name keeps being found
(`ExfatWrite.WriteThenFind`). `shtctl_refresh_all` is described as skipping the background sheet; it
draws it. `logdisk.h` speaks of 2 MB and writes at most 1024 sectors. The image builder fills the
region it declares as FAT with a bitmap, which the loader does not read.

Assumptions that stand behind the contracts: signed coordinates do not overflow; the volume lies on
the device with 512-byte sectors, at most 16 sectors to a cluster and a bitmap that fits one cluster
(`ExfatWrite.Geometry`); results about earlier files ask for a root and a bitmap cluster that differ
and are marked used (`ExfatWrite.Consistent`). Device failures and the controller's progress are
arbitrary, and so is the font. The desktop's sheet is as large as the screen, has no transparent colour
and a buffer of its own, as the kernel sets it up (`WindowManager.DesktopSheet`). What the hook of a
full refresh does to the desktop's pixels is arbitrary in `Compositor` and the taskbar's painting in
`WindowManager`.

## Model

| member | source | states |
|---|---|---|
| Layers.MapPassFindsTop | kernel/window/window.h:96-143 | an ownership pass over a height range leaves at a pixel the id of the highest sheet of the range that has content there |
| Layers.DrawPassShowsTop | kernel/window/window.h:159-202 | with no shadow at the pixel, a draw pass over a right owner cell paints the owner if its height is drawn and else leaves the pixel |
| Layers.UpdatePixel | kernel/window/window.h:209-293 | what makes every partial redraw right: if the new topmost sheet at a pixel lies in the redone heights or was topmost before, map and frame come out right |
| Layers.RestackPixel | kernel/window/window.h:215-252 | redoing only a sheet's own rectangle, from the height and over the heights that sheet_updown picks, makes both caches right for the new order |
| Layers.SlidePixel | kernel/window/window.h:289-292 | the two ownership passes and two draw passes of a slide, over the old and the new rectangle, make both caches right |
| Layers.LoweredIs | kernel/window/window.h:217-221 | shifting up and storing is taking the sheet out of the order and putting it back lower |
| Layers.ConcealedIs | kernel/window/window.h:225-231 | shifting down and shortening is taking the sheet out of the order |
| Layers.RaisedIs | kernel/window/window.h:237-241 | shifting down and storing is taking the sheet out of the order and putting it back higher |
| Layers.ShownIs | kernel/window/window.h:243-248 | shifting up and lengthening is putting the sheet into the order |
| Layers.RaisingPastTop | kernel/window/window.h:212-241 | asked to raise a visible sheet past the top, the loop reads the stale entry above the top; the order (map and frame apart) comes out right exactly when that entry is the sheet itself |
| Layers.PastTopPixel | kernel/window/window.h:209-252 | when a visible sheet was asked past the top and the order came out right, the owner map is right at a pixel exactly when the sheet has no content there or had none above it; the frame, where no shadow lies, exactly when that holds or the colour was the sheet's already |
| Layers.DarkenAdds | kernel/window/window.h:184-194 | darkening by two depths in turn is darkening by their sum, in every channel, saturation included: stacked shadows commute |
| Layers.DarkenSaturates | kernel/window/window.h:191-193 | a total depth of 255 or more is black |
| Layers.ShadowsDrift | IDEAS.md:103-106 | redrawing a shadow n times in place darkens n times: the documented drift, as a formula |
| Layers.DrawPassClosedForm | kernel/window/window.h:159-202 | a draw pass and the painter's fold both give the topmost content darkened by the depths of the shadows above it |
| Layers.FullRefreshIsPainter | kernel/window/window.h:323-324 | one ownership pass and one draw pass over all heights give the painter's picture, shadows included, whatever map and frame held |
| Layers.FullRefreshErasesOldFrame | kernel/window/window.h:310-325 | the result of a full refresh does not depend on the old frame exactly when the topmost content is no shadow value or the depths sum to 255 |
| Layers.DarkenLowers | kernel/window/window.h:184-194 | darkening by d makes red, green and blue, bits 16 to 23, 8 to 15 and 0 to 7, each less by d, 0 at least |
| Layers.DrawnPixel | kernel/window/window.h:180-198 | in numbers: a covered buffer element whose top byte is not zero lowers the three channels of the cell by its low byte; any other is put there if the layer owns the cell |
| Screens.UpdownKeeps | kernel/window/window.h:209-253 | for the whole screen: wherever the map was right it is right after sheet_updown, and so is the frame where no shadow lies |
| Screens.PastTopScreen | kernel/window/window.h:209-252 | the owner map and the frame of a screen after such a call, pixel by pixel: right exactly on that condition |
| Screens.SlideKeeps | kernel/window/window.h:283-294 | for the whole screen: wherever the map was right it is right after sheet_slide, and so is the frame where no shadow lies |
| Screens.SlideTopPaints | kernel/window/window.h:283-294 | sliding the topmost sheet over a screen painted in full leaves it painted in full, shadows included |
| Screens.ShowTopPaints | kernel/window/window.h:240-252 | showing a sheet on top of a screen painted in full leaves it so |
| Screens.RedrawOneShows | kernel/window/window.h:257-260 | a redraw of one height makes that sheet's own pixels in the rectangle right and spoils no other |
| Screens.RegionStaysShown | kernel/window/window.h:261-272 | redrawing overlapping shadowed sheets leaves the redrawn region right |
| Screens.EditNeedsSameMask | kernel/window/window.h:255-260 | sheet_refresh leaves the map alone: after an edit of the buffer the map is right at a pixel exactly when the content mask there is unchanged, or hidden, or nothing has content any more |
| Screens.SheetRepainted | kernel/window/window.h:257-275 | new pixels in a part of a sheet whose content mask stays, then that part redrawn: map and frame agree with the new stack, pixels under a shadow collected |
| Screens.PaintedAgrees | kernel/window/window.h:310-325 | a full refresh empties the set of pixels excepted from the frame claim down to those under a shadow now |
| Screens.AgreesOn | kernel/window/window.h:209-294 | the agreement of map and frame with the stack carries over every step, shadowed pixels being collected |
| Screens.CarriesOn | kernel/window/window.h:209-300 | what several operations in a row keep: the map where it was right, the frame where no shadow lies before or after |
| Screens.PlainCastsNoShade | kernel/window/window.h:183-183 | buffers without a pixel whose top byte is set never shade a pixel |
| Screens.RefreshAllPaints | kernel/window/window.h:323-324 | both passes over the whole screen leave owner and painter's picture at every pixel |
| Screens.RefreshShows | kernel/window/window.h:184-325 | in numbers, for any stack: where the topmost content is p and the pixels above it are transparent or 0xFF000000 + d, a full refresh leaves p with each channel lowered by the sum of the d, and the map names the sheet |
| Screens.AgreementShows | kernel/window/window.h:84-204 | in numbers what the incremental operations keep: the map names the sheet of the topmost content, and the frame element holds its pixel unless the place is excepted |
| Screens.DesktopIs | kernel/window/window.h:318-321 | element y * bw + x is 0x8080 above the last 40 rows, 0 in them, unchanged behind the last row; with fewer than 40 rows there is no strip |
| Screens.PaintedCarries | kernel/window/window.h:323-324 | after a full refresh the map is right everywhere and the frame wherever no shadow lies, whatever came before |
| Screens.BottomRepainted | kernel/kernel.cpp:245-246 | new pixels in a part of the bottom sheet, then that part redrawn: the map stays right, and the frame where no shadow lies |
| Compositor.Pigeonhole | kernel/window/window.h:64-74 | distinct ids below n are at most n: the array of visible sheets cannot outgrow the pool |
| Compositor.FreeSlot | kernel/window/window.h:65-66 | the first entry with flags 0, or none |
| Compositor.RaisedPlaces | kernel/window/window.h:209-249 | what sheet_updown makes of the order in the state machine: the other sheets keep theirs, and the sheet itself ends at the height asked for, cut to the room there is, or is gone |
| Compositor.CommandDoes | kernel/window/window.h:64-325 | command by command: the sheet it is for becomes what was asked, and no other sheet, flag or buffer of its own is touched |
| Compositor.PlainRunsCastNoShade | kernel/window/window.h:183-183 | a run in which no buffer holds a shadow pixel, neither at first nor by a command, leaves no pixel excepted that was not excepted before |
| Compositor.Ctl.constructor | kernel/window/window.h:51-61 | an empty order, no sheet in use, and caches that agree with it whatever they hold |
| Compositor.Ctl.RegisterRow | kernel/window/window.h:110-141 | one row: exactly the pixels of the sheet with content, in the clipped range, are given to it |
| Compositor.Ctl.RegisterLayer | kernel/window/window.h:97-143 | one sheet, in the clipped rectangle |
| Compositor.Ctl.RefreshMap | kernel/window/window.h:87-145 | sheet_refreshmap is the ownership pass from h0 upwards at every pixel of the rectangle and changes no other pixel |
| Compositor.Ctl.DrawRow | kernel/window/window.h:173-200 | one row: owned pixels painted, shadow pixels darkening what is there |
| Compositor.Ctl.DrawLayer | kernel/window/window.h:160-202 | one sheet, in the clipped rectangle |
| Compositor.Ctl.RefreshSub | kernel/window/window.h:150-204 | sheet_refreshsub is the draw pass over heights h0 to h1 at every pixel of the rectangle and changes no other pixel |
| Compositor.Ctl.RoomForOneMore | kernel/window/window.h:242-249 | while some sheet is hidden the order has a free entry, so showing it stays inside the 16 entries |
| Compositor.Ctl.ShiftUp | kernel/window/window.h:217-220 | the upward shift of entries, with the heights told to the sheets moved |
| Compositor.Ctl.ShiftDown | kernel/window/window.h:226-229 | the downward shift of entries, with the heights told to the sheets moved |
| Compositor.Ctl.LowerTo | kernel/window/window.h:216-221 | the lowering branch keeps entries and heights in step |
| Compositor.Ctl.Conceal | kernel/window/window.h:224-231 | the hiding branch keeps entries and heights in step |
| Compositor.Ctl.RaiseTo | kernel/window/window.h:236-241 | the raising branch keeps entries and heights in step |
| Compositor.Ctl.ShowAt | kernel/window/window.h:242-249 | the showing branch keeps entries and heights in step |
| Compositor.Ctl.Shuffle | kernel/window/window.h:215-249 | all four branches are one thing: the sheet out of the order and in again at the height |
| Compositor.Ctl.Updown | kernel/window/window.h:209-253 | sheet_updown restacks at the clamped height, the sheet knows its height, map and frame stay right although only one rectangle and a height range are redone, and every pixel of both is what redoing exactly these heights there makes of it |
| Compositor.Ctl.LiftPastTop | kernel/window/window.h:209-241 | the array part of sheet_updown for a visible sheet asked above the top: entries, heights, and that they are in step again exactly when the stale entry was the sheet itself |
| Compositor.Ctl.UpdownPastTop | kernel/window/window.h:209-252 | the whole call: the order as above, the map untouched, the sheet drawn at a height that is its own only if it left the order |
| Compositor.Ctl.Slide | kernel/window/window.h:283-294 | sheet_slide moves the sheet and keeps map and frame right; every pixel of both is what two ownership passes and two draw passes make of it, and a hidden sheet changes neither |
| Compositor.Ctl.Alloc | kernel/window/window.h:64-74 | the lowest free pool slot, or null exactly when all 16 are in use; nothing visible changes |
| Compositor.Ctl.SetBuf | kernel/window/window.h:77-82 | a sheet gets its pixels; on a hidden sheet nothing visible changes |
| Compositor.Ctl.Free | kernel/window/window.h:297-300 | the sheet leaves the order and the pool, map and frame stay right |
| Compositor.Ctl.Refresh | kernel/window/window.h:257-275 | the redrawn part shows, right pixels stay right, the map is untouched; the frame is what drawing the part and then, whole and in order, each listed shadow sheet that shows and meets the part makes of it; a hidden sheet redraws nothing |
| Compositor.Ctl.LinkedComplete | kernel/window/window.h:262-273 | these redraws are complete at a place of the part when every sheet above that casts a shadow there is listed, none twice, and no listed sheet below casts one there |
| Screens.LinkedShadowsPaint | kernel/window/window.h:257-275 | where they are complete and the sheet is the topmost content, the place shows its pixel under all shadows above, as after a full refresh |
| Compositor.Ctl.FillDesktop | kernel/window/window.h:318-321 | the desktop colour down to the last 40 rows, black there, what lies behind the last row untouched |
| Compositor.Ctl.RefreshAll | kernel/window/window.h:310-325 | a full refresh paints the stack over the freshly filled desktop, whatever map and frame held |
| Compositor.Ctl.Step | kernel/window/window.h:64-325 | a command, sheet_refresh with new pixels and the full refresh included, leaves exactly the order, flags, faces and buffers that the state machine says, and both caches right outside the pixels shaded since the last full refresh |
| Compositor.Ctl.Run | kernel/window/window.h:64-325 | any run of commands: order, flags, faces and buffers are those of the state machine after the same commands; every map cell names the topmost sheet with content, and every frame pixel shows that sheet's colour except those that lay under a shadow in one of the stacks passed through since the last full refresh, which the commands determine; without shadow pixels that is the whole screen |
| Desktop.PacketKeeps | kernel/sys/isr.h:66-123 | every packet keeps the desktop lowest, the cursor sheet highest, the pointer on screen, and min set exactly for hidden windows |
| Desktop.PressPlacesWindow | kernel/sys/isr.h:74-103 | by the place pressed, in pixels from the edges of the window's buffer: the close button destroys it, unless it is the login window; the minimize button hides it; elsewhere it ends directly below the cursor, and its title bar starts a drag; the others keep their order and entries |
| Desktop.TaskbarToggles | kernel/kernel.cpp:229-249 | a click on a taskbar button hides or shows its window, a second one undoes it, the others keep their order |
| Desktop.MinimizeKeeps | kernel/kernel.cpp:254-271 | minimizing keeps all that and moves nobody else |
| Desktop.CloseKeeps | kernel/kernel.cpp:274-290 | closing keeps all that and takes the window out of order and table |
| Desktop.MinimizeDoes | kernel/kernel.cpp:254-271 | the whole step: a visible window in the table leaves the order, its entry says so, a drag of it ends, only the desktop's pixels change; for any other sheet nothing happens |
| Desktop.CloseDoes | kernel/kernel.cpp:274-290 | the whole step: order, pool and table lose exactly this window, the login window is forgotten only with its entry, a drag is not ended here, only the desktop's pixels change |
| Desktop.RunKeeps | kernel/sys/isr.h:59-125 | over any run of packets and minimize keys all of that holds at every moment |
| Desktop.CursorFaceStays | kernel/sys/isr.h:66-116 | whatever the button does, the cursor's own sheet is left alone until the pointer moves |
| Desktop.PointerGoes | kernel/sys/isr.h:117-122 | a packet moves the pointer by exactly (dx, dy) as long as that keeps it 32 pixels from the right and the lower edge; it stops at 0 on the left and at the top and jumps to the last pixel on the other sides |
| Desktop.PointerFollows | kernel/sys/isr.h:59-125 | over a run that stays that far inside the pointer is at its start plus the sum of all movements |
| Desktop.DragFollows | kernel/sys/isr.h:106-122 | over any run of packets with the button held the dragged window keeps its distance to the place noted, which is within a pixel of the pointer before the last packet |
| Desktop.ReleaseEndsDrag | kernel/sys/isr.h:114-122 | without the button a packet ends a drag, moves the pointer and its sheet, and does nothing else |
| Desktop.PressOnNothing | kernel/sys/isr.h:69-105 | a press on the bare desktop or beside the taskbar buttons does nothing |
| Desktop.HitIs | kernel/sys/isr.h:77-80 | a click lands on a sheet that covers the place with a pixel other than 0x00FF00FF |
| Desktop.SceneOfBar | kernel/kernel.cpp:208-227 | drawing the taskbar changes the desktop's pixels in the bar and no other layer |
| Desktop.RunShowsBar | kernel/kernel.cpp:229-290 | at every moment of a run the desktop holds the buttons of the table as it then is: no window is hidden, shown or closed without its button being redrawn |
| Taskbar.PutStr | kernel/sys/draw.h:81-84 | the letters up to the zero, one over the other in order, 8 pixels apart |
| Taskbar.Paint | kernel/kernel.cpp:211-222 | entry by entry, the fill and the title over it; entries without a title are passed over, their place stays empty |
| Taskbar.LettersShow | kernel/sys/draw.h:66-84 | a pixel has the colour exactly when the letter it falls into has that dot |
| Taskbar.BarShows | kernel/kernel.cpp:211-233 | what is seen after painting, for every pixel, table and title length: on a button, that entry's ground and title, and the entry is the one taskbar_click finds there; elsewhere white where a long title runs on, else what was there |
| Taskbar.TitlesFit | kernel/kernel.cpp:215-219 | titles of up to 16 letters stay on their buttons |
| Taskbar.BarTwice | kernel/kernel.cpp:211-222 | painting the same table again changes nothing |
| Taskbar.InTheBar | kernel/kernel.cpp:211-222 | whatever the table and the titles, only the lowest 40 rows are painted |
| Taskbar.LitMeansShown | kernel/kernel.cpp:211-249 | in a sound state whose taskbar shows its table, a button is lit exactly when its window is on the screen, dim exactly when it is hidden |
| Desktop.TopHit | kernel/sys/isr.h:74-80 | the hit is the highest sheet above the desktop, cursor aside, with a pixel under the pointer that is not the key colour |
| Desktop.ButtonAt | kernel/kernel.cpp:231-233 | the first titled button under the position; -1 exactly when there is none |
| WindowManager.Wm.constructor | kernel/kernel.cpp:684-692 | desktop below and as large as the screen, cursor on top, empty table, screen drawn: a sound start |
| WindowManager.Wm.TakeOut | kernel/kernel.cpp:242-242 | hiding a window through the compositor takes it out of the order; the map stays right everywhere, and the frame wherever it was right and no shadow lies before or after |
| WindowManager.Wm.RaiseVisible | kernel/sys/isr.h:81-82 | raising a visible window ends it directly below the cursor; the map stays right everywhere, and the frame wherever it was right and no shadow lies before or after |
| WindowManager.Wm.ShowHidden | kernel/kernel.cpp:238-239 | showing a hidden window ends it directly below the cursor; the map stays right everywhere, and the frame wherever it was right and no shadow lies before or after |
| WindowManager.Wm.TaskbarDraw | kernel/kernel.cpp:211-246 | the desktop's buffer gets the buttons, pixel for pixel, and its bottom rows are redrawn; the map stays right everywhere, and the frame wherever it was right and no shadow lies before or after |
| WindowManager.Wm.Register | kernel/kernel.cpp:695-700 | a visible window gets the next taskbar slot |
| WindowManager.Wm.MinimizeWindow | kernel/kernel.cpp:254-271 | win_minimize is the state machine's step on the real sheet table; the map stays right everywhere, and the frame wherever it was right and no shadow lies before or after |
| WindowManager.Wm.ClickTaskbar | kernel/kernel.cpp:229-249 | taskbar_click is the state machine's step: the first button under the pointer toggles its window; the map stays right everywhere, and the frame wherever it was right and no shadow lies before or after |
| WindowManager.Wm.RemoveEntry | kernel/kernel.cpp:282-290 | win_remove is the state machine's step: the table closes up over the entry |
| WindowManager.Wm.CloseWindow | kernel/kernel.cpp:274-279 | win_closed is the state machine's step, and the screen is then fully painted |
| WindowManager.Wm.FindHit | kernel/sys/isr.h:74-80 | the downward search over the sheets finds the top hit |
| WindowManager.Wm.PressWindow | kernel/sys/isr.h:81-100 | raise first, then close before minimize before drag; the map stays right everywhere, and the frame wherever it was right and no shadow lies before or after |
| WindowManager.Wm.LeftClick | kernel/sys/isr.h:69-105 | taskbar or hit window, by the pointer's row; the map stays right everywhere, and the frame wherever it was right and no shadow lies before or after |
| WindowManager.Wm.DragOn | kernel/sys/isr.h:106-112 | the dragged window moves by as much as the pointer has, once that is more than a pixel; no other sheet moves; the map stays right everywhere, and the frame wherever it was right and no shadow lies before or after |
| WindowManager.Wm.MovePointer | kernel/sys/isr.h:117-122 | the pointer moves, is kept on screen, and the cursor sheet is where the pointer is; the map stays right everywhere, and the frame wherever it was right and no shadow lies before or after; a screen that was painted in full, shadows included, stays so |
| WindowManager.Wm.OnPacket | kernel/sys/isr.h:66-123 | a whole packet: the button at the old position, then the pointer; the map stays right everywhere, and the frame wherever it was right and no shadow lies before or after; after a packet that closes a window, or moves the pointer with no button over a screen painted in full, the screen is painted in full |
| WindowManager.Wm.Run | kernel/sys/isr.h:59-125 | any run of packets and minimize keys: the manager's state, every sheet's place and the desktop's pixels are those of the state machine after the same events; all invariants and the owner map are right, and every frame pixel that lay under no shadow before or after one of the events since a window was last closed; if only the pointer has moved since then, the whole screen is right, shadows included; if the taskbar showed its table at first, it does at the end |
| Words.Le64Reads | kernel/fs/exfat.cpp:137-138 | eight little-endian bytes read back as the number written |
| Words.Le32Is | kernel/fs/exfat.cpp:137-137 | the lowest byte comes first |
| Bits.NumberOfBits | kernel/fs/exfat.cpp:242-242 | bit k of a number counts 2 to the k |
| Words.Le64Is | kernel/fs/exfat.cpp:138-138 | the lower word comes first |
| Words.InCStr | kernel/fs/exfat.cpp:24-27 | where a zero-terminated text ends |
| ExfatDir.CollectName | kernel/fs/exfat.cpp:142-146 | low bytes of up to 15 characters, up to the first zero character, 255 in all |
| ExfatDir.CollectGroup | kernel/fs/exfat.cpp:127-153 | one file from its 0x85 entry and the 0xC0 and 0xC1 entries behind it |
| ExfatDir.ParseDirCluster | kernel/fs/exfat.cpp:119-161 | parse_dir_cluster lists the groups in order up to the end mark, at most max |
| ExfatDir.EntrySetIsListed | kernel/fs/exfat.cpp:127-153 | in bytes: the entry set 0x85, 0xC0, 0xC1 at off is listed with the word at off + 52, the double word at off + 56, the characters of the name entry, and as a directory exactly when bit 4 of byte off + 2 is set |
| ExfatDir.OthersArePassed | kernel/fs/exfat.cpp:125-157 | a tag of 0 ends the directory; any other tag but 0x85 is passed over, 32 bytes on |
| ExfatDir.NameCharsAre | kernel/fs/exfat.cpp:142-146 | the characters of a name entry are its low bytes before the first character that is zero, 15 at most |
| ExfatDir.ParseLess | kernel/fs/exfat.cpp:123-160 | with room for one record less the same files are listed, except perhaps the last |
| ExfatDir.NameReadsBack | kernel/fs/exfat.cpp:275-280 | the stored name reads back character by character, up to 15, running on into stale bytes when shorter |
| ExfatDir.NameSurvives | kernel/fs/exfat.cpp:275-281 | the name listed is the name written exactly when it has 15 characters, or fewer and the slot behind it is blank |
| ExfatDir.StoredFields | kernel/fs/exfat.cpp:266-281 | an entry set byte by byte: tags, attribute, name length, valid length, first cluster, length, the name, the end mark; every other byte is as before |
| ExfatDir.AppendedFileIsListed | kernel/fs/exfat.cpp:262-281 | whatever the directory held, after the entry set is written a parse gives the old list and one new record behind it |
| ExfatDir.EndMoves | kernel/fs/exfat.cpp:264-281 | the directory then ends right behind the new entry set |
| ExfatDir.WritesAreListed | kernel/fs/exfat.cpp:262-281 | files registered one by one in a directory with a blank tail are listed in that order under their names, sizes and clusters |
| ExfatDir.FindEnd | kernel/fs/exfat.cpp:263-264 | the search stops at the first end mark or the end of the cluster; it asks only that the last byte it reads is in the buffer |
| ExfatDir.StoreStream | kernel/fs/exfat.cpp:269-274 | name length, both lengths and the first cluster go where a reader looks for them |
| ExfatDir.StoreName | kernel/fs/exfat.cpp:275-281 | two bytes a character, then the new end mark |
| ExfatDir.StoreEntry | kernel/fs/exfat.cpp:266-281 | all stores together make the cluster with the entry set and change nothing else of it; it asks only that the stores lie in the buffer |
| ExfatDir.StaysInside | kernel/fs/exfat.cpp:262-281 | every byte read or stored lies in a root buffer of a given size exactly when the end mark, the new end mark and the name do |
| ExfatDisk.ReadsTheChain | kernel/fs/exfat.cpp:195-210 | a file whose chain is long enough reads as the first size bytes of its clusters joined |
| ExfatDisk.OnlyReadsChains | kernel/fs/exfat.cpp:195-210 | a file that reads at all has such a chain, no longer than needed |
| ExfatDisk.NextIsFatWord | kernel/fs/exfat.cpp:106-112 | on a volume with a FAT the successor of c is the little-endian word at byte 4c of the FAT |
| ExfatDisk.FatWordsApart | kernel/fs/exfat.cpp:106-112 | the words of different clusters share no byte |
| ExfatDisk.NextIsNumber | kernel/fs/exfat.cpp:115-115 | without a FAT the next cluster is the next number |
| ExfatDisk.ClusterIs | kernel/fs/exfat.cpp:86-101 | cluster c is spc sectors from sector partition + heap + (c - 2) * spc on |
| ExfatDisk.FatChainReads | kernel/fs/exfat.cpp:104-210 | a file whose clusters are linked by these words reads as its clusters, one after the other |
| ExfatWrite.FirstFreeIs | kernel/fs/exfat.cpp:240-243 | the lowest free cluster, 0 exactly when none is free |
| ExfatWrite.UsedIs | kernel/fs/exfat.cpp:242-242 | bit k of byte i stands for cluster 8i + k |
| ExfatWrite.BitmapAtIs | kernel/fs/exfat.cpp:228-234 | the bitmap is in the cluster that the word at byte 20 of the first 0x81 entry names, 0 if the directory ends before one |
| ExfatWrite.MarkAdds | kernel/fs/exfat.cpp:259-259 | marking a free cluster adds its bit to its byte and changes no other byte |
| ExfatWrite.Marked | kernel/fs/exfat.cpp:259-259 | marking a cluster changes its bit and no other |
| ExfatWrite.ClustersApart | kernel/fs/exfat.cpp:86-91 | different clusters of the heap share no sector |
| ExfatWrite.FatBelowHeap | kernel/fs/exfat.cpp:106-112 | the FAT entry of a cluster lies before the heap |
| ExfatWrite.ThreePlaces | kernel/fs/exfat.cpp:225-244 | on a consistent volume root, bitmap and new cluster are three different clusters and the new one was free |
| ExfatWrite.ClusterKept | kernel/fs/exfat.cpp:246-286 | at every moment of a write every other cluster holds its old bytes |
| ExfatWrite.FilesKept | kernel/fs/exfat.cpp:246-286 | at every moment every earlier file reads the same bytes through the same clusters |
| ExfatWrite.ListingKept | kernel/fs/exfat.cpp:164-286 | at every moment of a write a directory lists what it did, unless the directory entry is written and the root cluster is one of those listed |
| ExfatWrite.FullDirectoryLeaks | kernel/fs/exfat.cpp:259-265 | when the directory is full (-6) the bitmap already has one more bit and the directory is as before: the cluster is lost |
| ExfatWrite.AfterDone | kernel/fs/exfat.cpp:246-287 | a completed write leaves exactly the entry set in the root, one more bit in the bitmap and the data in the new cluster |
| ExfatWrite.EntryOnDisk | kernel/fs/exfat.cpp:262-286 | the same on the disk after a completed write, at the old end of the directory: both lengths are the data's, the name length the name's, and no byte outside the fields stored is changed |
| ExfatWrite.OneMoreUsed | kernel/fs/exfat.cpp:259-260 | one more cluster used, the new one |
| ExfatWrite.DataReadsBack | kernel/fs/exfat.cpp:195-256 | the new cluster reads back as the bytes written |
| ExfatWrite.RootListsNewFile | kernel/fs/exfat.cpp:262-287 | the root cluster lists the old files and the new one |
| ExfatWrite.ListingLess | kernel/fs/exfat.cpp:164-177 | with room for one record less the listing reads a beginning of the same clusters and lists the same files, except perhaps the last |
| ExfatWrite.WholeListing | kernel/fs/exfat.cpp:164-287 | the whole listing of a root directory that goes on in further clusters: the new file comes behind those of the first cluster and before the further ones; a listed file is pushed out exactly when the listing was full and not by the first cluster alone, and it is the last one; behind a first cluster without files the further ones come to light; for a chain that runs on into the clusters written see ListingThen |
| ExfatWrite.ClusterThen | kernel/fs/exfat.cpp:246-286 | what every cluster of the heap holds at every stage of a write, the three being written included |
| ExfatWrite.ListingThen | kernel/fs/exfat.cpp:164-286 | what a directory lists at every stage of a write, even if its chain runs on into the very clusters being written, as on a volume without a FAT it may: the new data is then read as directory entries |
| ExfatWrite.SmallVolume | kernel/fs/exfat.cpp:217-288 | a volume of ten clusters on which all these results apply |
| ExfatWrite.FirstNamedIs | kernel/fs/exfat.cpp:185-190 | the record found is the first of its name |
| ExfatWrite.WriteThenFind | kernel/fs/exfat.cpp:180-288 | after a write a lookup gives the new file exactly when fewer than 64 files came before and none had that name; then reading it gives the bytes written. The comment above the function promises overwriting; the code adds a second record |
| ExfatWrite.StaysConsistent | kernel/fs/exfat.cpp:217-288 | a completed write leaves a consistent volume |
| ExfatWrite.RunKeepsFile | kernel/fs/exfat.cpp:217-288 | a file there before a run of writes reads the same after it |
| ExfatWrite.RunReadsBack | kernel/fs/exfat.cpp:195-288 | after a run of writes every file of the run reads back |
| ExfatWrite.RunIsListed | kernel/fs/exfat.cpp:119-288 | and on a blank tail the run is listed, names, lengths and clusters, behind what was there |
| ExfatVolume.StrCmp | kernel/fs/exfat.cpp:24-27 | zero exactly for equal texts, else the difference of the first two characters that differ |
| ExfatVolume.NameLength | kernel/fs/exfat.cpp:220-221 | the text up to its zero, at most 255 |
| ExfatVolume.FindBitmap | kernel/fs/exfat.cpp:228-234 | the first 0x81 entry before the end mark, or 0 |
| ExfatVolume.FindFree | kernel/fs/exfat.cpp:241-243 | the scan is the lowest free cluster |
| ExfatVolume.Volume.SecRd | kernel/fs/exfat.cpp:55-63 | a sector read fails exactly when the device refuses that access or the sector is not on it |
| ExfatVolume.Volume.SecWr | kernel/fs/exfat.cpp:65-72 | a sector write fails exactly when the device refuses that access or the sectors are not on it; a failed one may leave anything in the sectors it was for |
| ExfatVolume.Volume.ReadCluster | kernel/fs/exfat.cpp:94-101 | the cluster's bytes, exactly when it lies on the device and none of these reads was refused |
| ExfatVolume.Volume.NextCluster | kernel/fs/exfat.cpp:104-116 | the FAT entry, or the next number without a FAT; exactly a refused read ends the chain |
| ExfatVolume.Volume.ListDir | kernel/fs/exfat.cpp:164-177 | ends on every FAT, cyclic ones included, after at most 17 reads for each file and 17 more; the whole listing unless one of these reads was refused, else a beginning of it, never more than max |
| ExfatVolume.Volume.Find | kernel/fs/exfat.cpp:180-192 | the first record of the name among the first 64, or nothing, unless one of the reads of this call was refused; what is found is right even then |
| ExfatVolume.Volume.ReadFile | kernel/fs/exfat.cpp:195-210 | ends on every FAT; exactly the file's bytes, or -1 when the chain is too short or one of the reads of this call was refused; the buffer beyond is untouched |
| ExfatVolume.Volume.Prepare | kernel/fs/exfat.cpp:222-244 | the refusals -2, -3, -4, -1 and -5 in that order, each for the accesses and contents that cause it, before anything is written |
| ExfatVolume.Volume.PutInSector | kernel/fs/exfat.cpp:252-254 | read, change, write back puts the bytes in the sector and leaves its rest; -2 exactly for a refused read, -3 exactly for a refused write |
| ExfatVolume.Volume.WriteChunk | kernel/fs/exfat.cpp:250-254 | one sector of it, from one stage of the data to the next |
| ExfatVolume.Volume.WriteData | kernel/fs/exfat.cpp:248-255 | sector by sector; at every moment a beginning of the data is in the cluster and nothing else has changed; the code is that of the first access refused |
| ExfatVolume.Volume.WriteContents | kernel/fs/exfat.cpp:246-260 | data before bitmap; the code of the first access refused |
| ExfatVolume.Volume.WriteEntry | kernel/fs/exfat.cpp:262-286 | the directory last; -6 exactly when it is full, -5 exactly when that write is refused |
| ExfatVolume.Volume.WriteFile | kernel/fs/exfat.cpp:217-288 | for every course of device failures: the exact code, as a function of the disk and the accesses refused; the disk after each write tried (the last apart if refused), each of them a stage of the write; and that only the new, the bitmap and the root cluster change |
| ExfatVolume.EveryMoment | kernel/fs/exfat.cpp:246-286 | on the disk after any completed sector write every earlier file reads as before, and the directory lists the old files, followed at most by the new one |
| ExfatVolume.EveryListing | kernel/fs/exfat.cpp:164-286 | on each of these disks the whole root directory, further clusters included, lists what it did or, once its first cluster is written, the new file behind the files of that cluster (root chains that keep clear of the clusters written) |
| ExfatVolume.EveryListingAt | kernel/fs/exfat.cpp:164-286 | on each of these disks what any directory lists whose chain stays in the heap, also when it runs into the clusters written |
| ExfatVolume.CodeBeforeWriting | kernel/fs/exfat.cpp:222-244 | the refusals before anything is written, each by its cause and number |
| ExfatVolume.CodeOfSector | kernel/fs/exfat.cpp:250-254 | if sector i of the data is the first to fail, -2 for its read and -3 for its write |
| ExfatVolume.CodeAfterData | kernel/fs/exfat.cpp:259-287 | if all data went well, -4 for the bitmap, -6 for a full directory, -5 for its write, else 0 |
| ExfatVolume.Volume.WriteAndReadBack | kernel/kernel.cpp:872-887 | write, look up, read: with no access refused the bytes come back exactly when the write is planned and the directory has room; after a successful write only a refused read keeps them from coming back (a new name with room in the directory) |
| BootImage.FileEntry | tools/mkmemdisk.py:35-45 | the fields go to their offsets and the rest stays |
| BootImage.NameEntry | tools/mkmemdisk.py:48-56 | tag with the length cut to six bits, length and at most 15 characters, two bytes each |
| BootImage.MakeBpb | tools/mkmemdisk.py:67-82 | every field of the parameter block reads back at its offset, jump, signature, serial number and label are there, and all else is zero |
| BootImage.MakeFat | tools/mkmemdisk.py:87-91 | exactly the first n bits are set; fails exactly when they do not fit the region |
| BootImage.MakeRoot | tools/mkmemdisk.py:94-97 | the entry sets of HELLO.TXT and KERNEL.BIN with both lengths, allocation and cluster, nothing else; the first match for the loader is the kernel's |
| BootImage.MakeMbr | tools/mkmemdisk.py:103-108 | signature, type, partition start and sector count read back, and all else is zero |
| BootImage.FillStops | tools/mkmemdisk.py:63-107 | the fill stops with exactly the sector count the parameter block states; the image ends on a sector boundary exactly when the kernel does |
| BootImage.Build | tools/mkmemdisk.py:59-109 | for every kernel: an image laid out as the loader expects, or failure exactly when the bitmap region is too small |
| BootImage.HeadersInNumbers | tools/mkmemdisk.py:67-109 | the boot record and, at 64 KiB, the parameter block, field by field in numbers |
| BootImage.BitmapInNumbers | tools/mkmemdisk.py:87-91 | the bitmap 4 KiB behind it: cluster c is marked exactly when c < 4 + the clusters of the kernel |
| BootImage.DirectoryInNumbers | tools/mkmemdisk.py:93-100 | the directory 8 KiB behind it names cluster 4 and the kernel's length, and the kernel's bytes lie 9 KiB behind it |
| BootImage.NameMatches | src/main.rs:153-158 | the byte-wise comparison is equality with KERNEL.BIN |
| BootImage.ScanFinds | src/main.rs:145-175 | in an arbitrary image the search finds something exactly when some entry set for KERNEL.BIN is preceded only by entries that are no end mark and no such set, and then it is that one |
| BootImage.KernEntry | src/main.rs:148-163 | such a set is: tags 0x81, 0x85 or 0x05, and 0xC0 or more, length 10, and the ten characters in UTF-16 |
| BootImage.FindKern | src/main.rs:120-175 | every outcome of exfat_find_kern on every byte string: no boot sector or partition, a root directory beyond the image (a panic), else the first entry set for KERNEL.BIN, or nothing exactly when there is none |
| BootImage.KernelIsFound | src/main.rs:120-175 | in an image laid out for a kernel the search returns an offset and a length whose slice is the kernel |
| BootImage.RoundTrip | tools/mkmemdisk.py:59-109 | build, then find: the kernel comes back, for every kernel that can be built |
| SlabState.PopKeeps | kernel/desk/memory.h:63-65 | handing out the head keeps all books |
| SlabState.PushKeeps | kernel/desk/memory.h:77-80 | taking back a block of the current chunk keeps all books |
| SlabState.DropKeeps | kernel/desk/memory.h:72-83 | a block of an earlier chunk is lost, and all books stay true |
| SlabState.PopUndoesPush | kernel/desk/memory.h:63-80 | a block given back is the next one handed out, and all books are then as before |
| SlabState.GrowKeeps | kernel/desk/memory.h:38-55 | a new chunk adds 64 free blocks apart from all others |
| SlabState.WritesInBlock | kernel/desk/memory.h:57-67 | whatever a holder writes into its block, every free list stays as it was |
| SlabState.ChainHolds | kernel/desk/memory.h:49-54 | following the next pointers in the heap bytes visits the free blocks one after the other and ends in null: no cycle |
| SlabState.Accounted | kernel/desk/memory.h:10-15 | free lists of different slabs are disjoint, no free block is live, all lie in the current chunk, and total = free + live + lost |
| SlabState.BlocksApart | kernel/desk/memory.h:57-67 | a live block shares no byte with any other live or free block |
| Slabs.Heap.constructor | kernel/desk/memory.h:22-29 | empty slabs, nothing held |
| Slabs.Heap.BuildList | kernel/desk/memory.h:49-54 | the chunk's blocks chained in order through their own bytes |
| Slabs.Heap.SlabGrow | kernel/desk/memory.h:38-55 | a chunk if the heap has room for it, else no change |
| Slabs.Heap.Kmalloc | kernel/desk/memory.h:57-67 | null exactly when the size fits no slab or the slab is empty and the heap full; else the list head, and no live block's bytes change |
| Slabs.Heap.Kfree | kernel/desk/memory.h:69-84 | back to the head of its slab's list exactly when it lies in the current chunk, else lost; other addresses change nothing; no other live block's bytes change |
| Slabs.Heap.Store | kernel/desk/memory.h:57-67 | an owner's write into its block keeps everything |
| Slabs.SlabIndex | kernel/desk/memory.h:32-35 | the first size class large enough |
| Slabs.FindSlab | kernel/desk/memory.h:32-35 | the scan returns the first size class that is large enough, or -1 |
| PagePool.CountMarks | kernel/desk/page.h:32-34 | marking or clearing one page moves the free count by one |
| PagePool.RunCounts | kernel/desk/page.h:38-38 | a run of n free pages means a free count of at least n, so the early return is right |
| PagePool.SameBitmap | kernel/desk/page.h:32-34 | bitmaps that mark the same pages are the same bytes |
| PagePool.UsedIs | kernel/desk/page.h:32-34 | bit k of byte i stands for page 8i + k |
| PagePool.HeldMore | kernel/desk/page.h:37-50 | handing out a run of free pages keeps the ranges disjoint, in the pool, and just the used pages |
| PagePool.HeldLess | kernel/desk/page.h:53-61 | giving one range back keeps the ranges disjoint, in the pool, and just the used pages |
| PagePool.FreeUndoesAlloc | kernel/desk/page.h:37-61 | freeing a range right after its allocation restores the bitmap it had before, byte by byte |
| PagePool.CallsKeep | kernel/desk/page.h:37-61 | over any run of allocations and frees the ranges held stay disjoint, in the pool, and just the used pages, and bits beyond the pool never change |
| PagePool.FreesUndoAllocs | kernel/desk/page.h:37-61 | after any run of allocations and frees, in any order, that ends with the same ranges held, the bitmap is the same byte for byte |
| PagePool.HeldDecides | kernel/desk/page.h:37-61 | the pages in use depend only on the ranges held, not on the history |
| PagePool.Pages.Init | kernel/desk/page.h:21-30 | refusals, the cut to 32 bits and the limit, and an empty bitmap |
| PagePool.Pages.FindRun | kernel/desk/page.h:39-42 | the first end of a run of n free pages |
| PagePool.Pages.PageAlloc | kernel/desk/page.h:37-50 | 0 exactly when no n contiguous pages are free; else the lowest run, page-aligned, exactly its pages marked, and the count right |
| PagePool.Pages.PageFree | kernel/desk/page.h:53-61 | exactly the used pages of the range cleared and counted, whether or not it was handed out as such; one that was is given back; null, misaligned and outside addresses change nothing |
| NvmeQueue.Dw3Reads | kernel/fs/nvme.h:181-184 | phase, status code and status code type come out of the last completion word as they went in |
| NvmeQueue.PhaseTells | kernel/fs/nvme.h:180-187 | the entry at the head carries the host's phase exactly when there is an unconsumed completion, and then it is that one |
| NvmeQueue.PostKeeps | kernel/fs/nvme.h:180-189 | a completion posted on a ring that is not full spoils no unconsumed one |
| NvmeQueue.UnpackedIs | kernel/fs/nvme.h:172-174 | the controller reads the sixteen words the host wrote as eight |
| NvmeQueue.SubmitKeeps | kernel/fs/nvme.h:172-176 | a command written at the tail spoils no unfetched one |
| Nvme.Queue.constructor | kernel/fs/nvme.h:204-208 | zeroed rings, indices 0, phase 1: a right start |
| Nvme.Queue.Submit | kernel/fs/nvme.h:172-178 | the tail encodes the number submitted, and the doorbell has it |
| Nvme.Queue.Identify | kernel/fs/nvme.h:168-170 | the upper half of the first word becomes the low half of the identifier due, zero replaced by 1, and the counter goes on by one |
| Nvme.IdOfFresh | kernel/fs/nvme.h:168-170 | counting from 0, command n carries n + 1 |
| Nvme.IdsDiffer | kernel/fs/nvme.h:168-170 | identifiers less than 65535 commands apart differ in their low halves, also where the 32-bit counter wraps and leaves out zero |
| Nvme.Queue.OutstandingDiffer | kernel/fs/nvme.h:168-178 | no two commands whose completions have not been consumed carry the same identifier |
| Nvme.Queue.Look | kernel/fs/nvme.h:181-191 | the bits of the entry at the head that are compared and returned, in numbers; head and phase encode the number consumed; a completion is consumed exactly when there is one, and its status returned |
| Nvme.Queue.Poll | kernel/fs/nvme.h:180-195 | gives up (-2) exactly when the controller posts nothing in the gaps before 20000000 looks, and then after that many; else a completion is consumed, and with nothing outstanding before it is that of the command just submitted |
| Nvme.Queue.IoCmd | kernel/fs/nvme.h:165-196 | in every interleaving: the identifier due in the command, -2 exactly when the controller stays silent over 20000000 looks, the command submitted, the completion returned; its own exactly when nothing was outstanding, if the controller completes in order |
| Nvme.Queue.Rw | kernel/fs/nvme.h:239-250 | the controller reads the operation, namespace, buffer, first block and, for 1 to 65536 blocks, the right count |
| Nvme.Queue.RwAll | kernel/fs/nvme.h:239-250 | every request gets the status of its own completion, in order, up to the first timeout; a short list of codes means exactly that: one command submitted, and 20000000 looks that found nothing |
| Draw.ClipRect | kernel/sys/draw.h:22-31 | whether anything is on the canvas, and exactly that part |
| Draw.FillRect | kernel/sys/draw.h:34-41 | exactly the rectangle's pixels on the canvas get the colour |
| Draw.Blit | kernel/sys/draw.h:45-63 | exactly the non-key pixels of the visible part change, each from the source pixel the unclipped copy would use |
| Draw.ImagePixel | kernel/sys/draw.h:45-63 | pixel (u, v) of an image comes from element v * stride + u of the source, unless that is the key colour |
| Draw.DrawnElement | kernel/sys/draw.h:34-80 | drawing sets element y * stride + x of the buffer for each pixel of the canvas that has a colour, and no other |
| Draw.PutChar | kernel/sys/draw.h:66-80 | exactly the glyph's set bits on the canvas get the colour |
| Draw.DotColor | kernel/sys/draw.h:92-105 | every pixel of a dot's square has the dot's bit |
| Draw.PutCharScaled | kernel/sys/draw.h:87-110 | a pixel is set exactly when the nearest-neighbour scaled glyph bit is on and it lies on the canvas |
| LogDisk.OneMoreWrite | kernel/sys/logdisk.h:25-29 | a write stays in sectors 2048 to 3071 and behind all earlier ones, and adds its text |
| LogDisk.DroppedExactly | kernel/sys/logdisk.h:23-43 | text is dropped exactly when some was before, a write failed, or a flush found the region full |
| LogDisk.Capacity | kernel/sys/logdisk.h:23-43 | on a device that refuses nothing exactly the first 528384 characters of a fresh log fit, 8 sectors to each full buffer |
| LogDisk.RegionInNumbers | kernel/sys/logdisk.h:13-29 | all writes lie in sectors 2048 to 3071 and none overlaps another |
| LogDisk.Log.Init | kernel/sys/logdisk.h:47-54 | a fresh log when the disk is ready |
| LogDisk.Log.Flush | kernel/sys/logdisk.h:23-33 | the buffer goes to the next sectors, or is dropped exactly when the region is full or the device refuses that write |
| LogDisk.Log.Put | kernel/sys/logdisk.h:38-41 | one character: flushed first when the buffer is full, then stored |
| LogDisk.Log.Sink | kernel/sys/logdisk.h:36-43 | the text joins the stream; while nothing was dropped, text on disk followed by the buffer is the whole stream; text is dropped exactly when some was before, a write of this call failed, or a flush of it found the region full |
| Ps2.Fifo.Put | kernel/sys/ps2.h:10-10 | queued at the back, dropped when 32 bytes wait |
| Ps2.Fifo.Get | kernel/sys/ps2.h:11-11 | taken from the front, or nothing |
| Ps2.Mouse.Md | kernel/sys/ps2.h:45-55 | one byte takes the decoder one step: marker test on a first byte, sign bits applied, y negated on the third |
| Ps2.Mouse.Feed | kernel/sys/isr.h:62-66 | the events the interrupt acts on, byte by byte |
| Ps2.ReportDecoded | kernel/sys/ps2.h:50-53 | one three-byte report makes one event, nine-bit signs restored, y negated, whatever was decoded before |
| Ps2.ReportsComeThrough | kernel/sys/ps2.h:44-55 | any list of reports comes out, whatever bytes with bit 6 or 7 set or bit 3 clear lie in between them, as exactly that list |
| Ps2.BeforeAcknowledge | kernel/sys/ps2.h:46-54 | before 0xFA every byte is answered -1 and so repeats the last packet |
| Tasks.CountsDown | kernel/desk/task.h:69-78 | each yield takes one off the ready tasks ahead of a waiting one |
| Tasks.Scheduler.Create | kernel/desk/task.h:48-67 | the first free slot becomes ready with its record, the next identifier and a first stack frame at its own saved stack pointer that starts at the entry point, or none is free |
| Tasks.Scheduler.Yield | kernel/desk/task.h:69-78 | the turn goes to the nearest ready task behind the current one; exactly one task runs, the current one |
| Tasks.Scheduler.YieldUntil | kernel/desk/task.h:69-78 | a ready task runs after exactly as many yields as there are ready tasks up to it |

## Left out

- Compositor.Ctl.Updown: asks that a visible sheet is not raised past the top, as the callers do; Compositor.Ctl.UpdownPastTop is that call, with Layers.RaisingPastTop for the order and Screens.PastTopScreen for the caches.
- Compositor.Ctl.UpdownPastTop: asks that there is a slot above the top and that its stale entry names a sheet of the pool; the source follows whatever pointer is there.
- Compositor.Ctl.Run: says nothing of frame pixels a shadow has lain on since the last full refresh, because each incremental redraw darkens again (Layers.ShadowsDrift).
- Compositor.Ctl.Step: commands on sheets not in use, a new buffer for a visible sheet and a raise of a visible sheet past the top count as doing nothing in a run (the last one is Compositor.Ctl.UpdownPastTop); a sheet_refresh asks what its callers answer for (Compositor.Proper).
- Compositor.Ctl.SetBuf: in a run it is given to hidden sheets only; on a visible sheet the source redraws nothing either.
- Compositor.Ctl.constructor: the pool's structs are a value array with height and flags in arrays of their own, and a sheet is its pool index, not an address.
- WindowManager.Wm.CloseWindow: the login window's removal after a login takes the same steps and is not modelled apart.
- ExfatVolume.Volume.constructor: exfat_init's probing of drives and reading of the boot sector are not modelled; the boot fields are given.
- ExfatDir.StoreEntry: asks that the stores lie in the buffer, and the model's root buffer has room behind an 8192-byte cluster; when the source's 8192 bytes are enough is ExfatDir.StaysInside, what else its stores hit is not modelled.
- ExfatVolume.Volume.Prepare: the bitmap buffer is compared only where the bitmap cluster was read; a cluster count beyond it is excluded by ExfatWrite.Geometry.
- ExfatVolume.Volume.WriteFile: the time stamps, checksums and name hashes of the exFAT specification, names beyond one entry and FAT updates are absent from the code too.
- BootImage.FindKern: arithmetic wraps around as in a release build; a debug build panics instead, never on a built image.
- BootImage.Build: the 256 KB limit that main enforces afterwards and the file access around build are not modelled.
- Slabs.Heap.Kfree: a second kfree of a block that is already free corrupts the list; callers are asked not to do it.
- PagePool.Pages.PageFree: asks for an address not below the pool and a page number that with n fits 32 bits; the wrap-around of others is not modelled.
- Nvme.Queue.IoCmd: stands also for nvme_admin_cmd, which runs the same protocol on the admin rings; fewer than 63 commands may be outstanding from earlier timeouts.
- Nvme.Queue.Complete: memory barriers, doorbell addresses and controller initialisation are not modelled; queue memory and doorbells are shared variables.
- Nvme.Queue.constructor: the identifier counter starts at any number, because the admin queue, which is not modelled, shares it.
- Tasks.Scheduler.Yield: the stack switch and the first dispatch are not modelled.
- Draw.Blit: source and destination are different buffers.
- Ps2.Mouse.Feed: port access and the keyboard's scan codes are not modelled.
- ATA transfers, page tables, interrupt and descriptor tables, the system call entry and user mode are hardware semantics and are left out.
- UEFI calls, mode selection and device path parsing in the loader are left out.
- The login dialogue, the clock in the taskbar, serial logging, the exception screen, the font's dots and the embedded disk image are left out.
