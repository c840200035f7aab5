# DevilCore: a verified model of its kernel structures

DevilCore is a kernel with a graphical user interface. This project models the parts of it
that keep state under an invariant, and proves what they are there for.

- **The CFS run queue** (`CfsTree.dfy`, `CfsScheduler.dfy`). Nodes are objects with left, right and
  parent pointers, edited as `cfs_scheduler.c` edits them. As ghosts, an inductive tree and the
  path from its root to a node say what the pointers mean. Keys may repeat and rotations move equal keys
  to the left, so the order is that of the in-order sequence: a stable queue of all arrivals.
- **The compositor** (`Rects.dfy`, `Scene.dfy`, `Compositor.dfy`). `Scene` defines what the screen ought to
  show, pixel by pixel, and the compositor as a machine over values; `Compositor` is the code with its
  linked list, damage array and drawing loops, each method proved to take the step of that machine. The central
  invariant is that every undamaged pixel already is that of the scene.
- **The event queue and the timers** (`EventQueue.dfy`, `EventThreads.dfy`, `Timers.dfy`). The ring buffer is an object
  for one thread, and a state machine over atomic steps for any number of threads that take the spin lock.
- **The widget forest** (`WidgetForest.dfy`, `WidgetGeometry.dfy`, `Widgets.dfy`). Trees of parents and child arrays, and one
  doubly linked list of all widgets, edited together. Every widget has a ghost path from its root;
  the widgets under another are those whose path extends its path.
- **Animations** (`Easing.dfy`, `Animations.dfy`), **the ARP table** (`ArpHistory.dfy`, `Arp.dfy`), **the calculator**
  (`Decimal.dfy`, `Calculator.dfy`) and **text** (`Font.dfy`).
- `Machine.dfy` holds the integer types of C. Arithmetic that the code does in 32 or 64 bits wraps around where
  the model says `Wrap32`, `Wrap64`, `Signed32` or `Signed64`.

All files are checked together: `dafny verify dfyconfig.toml`.

## What the code does not do

Some natural claims do not hold of the code. The model keeps the code as it is; for each there is a lemma with
the exact condition under which the claim holds, or with the inputs that show it.

- A resize reports only the new rectangle of a surface, and a destruction reports nothing. Creating a surface does not put
  it into the list: raising, lowering or reordering one that is not in it makes it the only one there, and destroying
  such a one empties the list (`Compositor.Compositor.SurfaceRaise`, `Compositor.Compositor.SurfaceDestroy`). A raise
  then reports no more than the new surface.
- After any of these steps the screen can be trusted exactly if every on-screen pixel that is lost is covered by damage
  all the same: damage that was pending, or what the report is merged into. Lost are the pixels of a visible surface
  that a resize or its destruction takes from it; those of all visible surfaces of the list, when one that is not in it
  is raised or destroyed; those of a visible cursor that is destroyed; and all pixels, when a wallpaper is that has any. Otherwise
  there are surfaces of the same places and sizes with which a stale pixel stays (`Scene.ReportedExactly`).
  `Scene.ShrinkLeavesPicture`, `Scene.DestroyLeavesPicture`, `Scene.RaiseLeavesPicture` and `Scene.CursorTakesStack` are
  small examples.
- So a list that starts empty never holds more than one surface (`Scene.RunLean`), and one that is pushed out is linked to
  no other (`Compositor.Compositor.AloneIsLoose`).
- The load of the run queue is the sum over the queued tasks only if no task is queued twice and only queued tasks are
  reweighed (`CfsScheduler.RunQueue.EnqueueTask`, `CfsScheduler.RunQueue.SetPriority`).
- Adding a widget that has a parent, or under one of its own descendants, is not refused and leaves no forest
  (`WidgetForest.AttachBreaks`).
- When more than 32 animations finish in one tick the rest stay in the list, inactive, and no later tick takes them out
  (`Animations.AllTakenOut`).
- An animated number does not end at its target unless its distance, wrapped to 32 bits, fits into 16 signed bits
  (`Easing.TweenEnds`). It moves one way from end to end exactly over distances of 16 signed bits, and from one end of
  the 32-bit range to the other (`Easing.MovesExactly`).
- A second pass over the timers at the same time fires again exactly the due repeating timers of interval 0
  (`Timers.SecondPass`).
- If the clock does not move between packets, the ARP table can forget the sender heard last
  (`ArpHistory.CachesNext`, `ArpHistory.ForgetsTheLatest`).
- The code takes up the sender of every packet it understands. Section "Packet Reception" of RFC 826 updates a sender
  that is known, and adds an unknown one only if this host is the target of the packet, whatever the opcode. The two
  agree exactly if the sender is known or this host is the target (`Arp.KeepsToRfc`); `Arp.TakesUpOverheard` is a
  packet with which they differ.
- The least 64-bit number prints as a bare minus sign (`Decimal.PrintedReads`), and a decimal point only changes the
  display, not the value (`Calculator.PressShows`).
- Nothing bounds what is typed: the text of the display and its end stay within the 64 bytes of the buffer exactly if no
  button adds a character to 63 of them (`Calculator.PressFits`, `Calculator.RunFits`), and digits can be typed
  without end (`Calculator.DigitsOverrun`).
- Bytes from 128 on are measured but not drawn, since `char` is signed (`Font.MeasuredAsDrawn`).

## Model

| member | source | states |
|---|---|---|
| `CfsTree.RotateLeftKeepsOrder` | src/kernel/cfs_scheduler.c:71-81 | A left rotation leaves the in-order sequence as it is, and a right rotation undoes it |
| `CfsTree.RotateRightKeepsOrder` | src/kernel/cfs_scheduler.c:83-93 | The same for a right rotation |
| `CfsTree.NewLeafFixable` | src/kernel/cfs_scheduler.c:139-161 | A red leaf hung into a red-black tree breaks no rule but, perhaps, that its parent is not red |
| `CfsTree.Relatives` | src/kernel/cfs_scheduler.c:96-98 | When the parent is red there is a black grandparent, so the loop dereferences no null pointer |
| `CfsTree.RecolorStep` | src/kernel/cfs_scheduler.c:99-103 | With a red uncle, repainting moves the only broken rule up to the grandparent and changes no order and no black height |
| `CfsTree.StraightenLeft` | src/kernel/cfs_scheduler.c:105-108 | The first rotation of the left case keeps the order and keeps the broken rule repairable |
| `CfsTree.StraightenRight` | src/kernel/cfs_scheduler.c:121-124 | The same for the mirrored case |
| `CfsTree.FinishLeft` | src/kernel/cfs_scheduler.c:109-111 | Repainting and the second rotation of the left case leave no red parent: the loop ends |
| `CfsTree.FinishRight` | src/kernel/cfs_scheduler.c:125-127 | The same for the mirrored case |
| `CfsTree.RepairDone` | src/kernel/cfs_scheduler.c:130-131 | Once the loop has ended, painting the root black gives a red-black tree with the order kept |
| `CfsTree.BlackHeightBounds` | src/kernel/cfs_scheduler.c:95-164 | A balanced tree without two reds in a row has at least 2^h - 1 nodes and at most twice its black height, plus one under a red root |
| `CfsTree.HeightIsLogarithmic` | src/kernel/cfs_scheduler.c:134-164 | A red-black tree of n nodes is at most 2 log2(n + 1) high |
| `CfsTree.DescentStep` | src/kernel/cfs_scheduler.c:146-150 | Each step of the descent keeps what goes before the hole at or below the new key, and what goes after it above |
| `CfsTree.NewLeafInOrder` | src/kernel/cfs_scheduler.c:146-161 | Hanging the new leaf where the descent ends is a stable insertion into the in-order sequence |
| `CfsTree.NewLeafFirst` | src/kernel/cfs_scheduler.c:153-161 | The new leaf is first in order exactly when it hangs to the left of the old first node |
| `CfsTree.InsertSortedKeeps` | src/kernel/cfs_scheduler.c:134-164 | The inserted sequence is sorted again and holds the same entries and the new one |
| `CfsTree.QueueOfSorted` | src/kernel/cfs_scheduler.c:134-164 | For every history of arrivals the queue is sorted and a permutation of them |
| `CfsTree.QueueOfStable` | src/kernel/cfs_scheduler.c:134-164 | Of two arrivals, the earlier one stands before the later one unless its vruntime is greater |
| `CfsTree.HeadIsEarliestMinimum` | src/kernel/cfs_scheduler.c:166-178 | The head of the queue is the earliest arrival among those of least vruntime |
| `CfsScheduler.WeightsDecrease` | src/kernel/cfs_scheduler.c:55-61 | A higher nice value never gives a higher weight, and equal weights occur only beyond the ends of the range |
| `CfsScheduler.RunQueue.constructor` | src/kernel/cfs_scheduler.c:39-53 | The queue starts empty, valid and with balanced books |
| `CfsScheduler.RunQueue.RotateLeft` | src/kernel/cfs_scheduler.c:71-81 | The pointer writes turn the tree at any place of the queue into its left rotation, all parent pointers included |
| `CfsScheduler.RunQueue.RotateRight` | src/kernel/cfs_scheduler.c:83-93 | The same for the right rotation |
| `CfsScheduler.RunQueue.FixLeft` | src/kernel/cfs_scheduler.c:97-112 | One turn of the loop with the parent on the left: the depth falls, the order stays, the tree stays repairable |
| `CfsScheduler.RunQueue.FixRight` | src/kernel/cfs_scheduler.c:113-129 | The mirrored turn |
| `CfsScheduler.RunQueue.InsertFixup` | src/kernel/cfs_scheduler.c:95-132 | The repair ends, and the pointers spell out a red-black tree with the order it had |
| `CfsScheduler.RunQueue.Descend` | src/kernel/cfs_scheduler.c:143-150 | The walk ends at the place of a stable insertion, in no more steps than the tree is high |
| `CfsScheduler.RunQueue.Attach` | src/kernel/cfs_scheduler.c:134-161 | The new node hangs where its key belongs, and `leftmost` is the first node in order |
| `CfsScheduler.RunQueue.RbInsert` | src/kernel/cfs_scheduler.c:134-164 | The pointers form a red-black tree whose order is the stable queue of all arrivals, `leftmost` is its first node, and the descent took at most 2 log2(n + 1) steps |
| `CfsScheduler.RunQueue.FirstIsEarliestMinimum` | src/kernel/cfs_scheduler.c:166-170 | `leftmost` is null exactly when the queue is empty, else the earliest arrival of least vruntime |
| `CfsScheduler.RunQueue.PickNextTask` | src/kernel/cfs_scheduler.c:166-178 | Returns the task of that node, stamps its start time, touches no other task and keeps the books |
| `CfsScheduler.RunQueue.PostInitEntity` | src/kernel/cfs_scheduler.c:215-227 | A new record has weight 1024, nice value 0 and the current minimum vruntime |
| `CfsScheduler.RunQueue.PlaceEntity` | src/kernel/cfs_scheduler.c:195-213 | The task is queued at its vruntime, but not below the minimum, and its record shows the key of its node |
| `CfsScheduler.RunQueue.EnqueueTask` | src/kernel/cfs_scheduler.c:180-193 | The task is queued as placed; the counters are those of the queued tasks exactly when it was not queued already, and so is the load alone if it weighs anything |
| `CfsScheduler.RunQueue.SetPriority` | src/kernel/cfs_scheduler.c:230-247 | The weight follows the nice value; the books stay balanced exactly when the task is queued or its weight does not change |
| `CfsScheduler.BooksAfterEnqueue` | src/kernel/cfs_scheduler.c:189-192 | After an enqueue, nr_running counts the queued tasks, load_weight sums their weights and keys match records exactly when the task was not queued; the load alone goes wrong exactly for a queued task of positive weight |
| `CfsScheduler.TaskCountIs` | src/kernel/cfs_scheduler.c:189-190 | What is counted is the set of queued tasks |
| `CfsScheduler.BooksAfterReweighing` | src/kernel/cfs_scheduler.c:241-246 | The same after a change of priority, exactly for a queued task or an unchanged weight |
| `Rects.IntersectsMeaning` | src/kernel/compositor.h:152-157 | Two non-empty rectangles intersect exactly when they share a pixel |
| `Rects.MergeIsLeast` | src/kernel/compositor.h:167-178 | The merged rectangle is the least that contains both |
| `Rects.ClipMeaning` | src/kernel/compositor.c:383-401 | Clipping keeps exactly the pixels on the screen, and gives a non-empty rectangle within it |
| `Rects.AddDamageCovers` | src/kernel/compositor.c:380-420 | Covered pixels stay covered, the on-screen part of the new rectangle becomes covered, and the damage stays well-formed: at most 64 non-empty rectangles on the screen, none when all is damaged |
| `Rects.AddDamageAlone` | src/kernel/compositor.c:380-420 | The first rectangle covers exactly its on-screen pixels |
| `Scene.Mix` | src/kernel/compositor.c:452-455 | A blended channel lies between the two it is blended from |
| `Scene.StackedWithout` | src/kernel/compositor.c:551-558 | A surface that does not show at a pixel can leave the stack without changing it |
| `Scene.StackedRaised` | src/kernel/compositor.c:551-558 | ... and can move to the top without changing it |
| `Scene.MoveHonest` | src/kernel/compositor.c:160-177 | A move changes no pixel outside the damage it leaves |
| `Scene.RaiseHonest` | src/kernel/compositor.c:240-264 | The same for raising a surface |
| `Scene.ResizeHonest` | src/kernel/compositor.c:179-217 | The same for a resize, provided that every on-screen pixel it gives up is covered by damage |
| `Scene.DestroyHonest` | src/kernel/compositor.c:126-158 | The same for a destruction, provided that every on-screen pixel of the surface was damaged already |
| `Scene.RaiseUnlistedHonest` | src/kernel/compositor.c:240-264 | Raising a surface that is not in the list, which becomes all of it, changes no pixel outside the damage, provided that every on-screen pixel of the surfaces it displaces is covered |
| `Scene.DestroyUnlistedHonest` | src/kernel/compositor.c:126-158 | The same for destroying one, which empties the list and may be the cursor or the wallpaper |
| `Scene.MoveCursorHonest` | src/kernel/compositor.c:640-667 | The same for moving the cursor |
| `Scene.SetCursorHonest` | src/kernel/compositor.c:612-638 | The same for changing the cursor |
| `Scene.RenderUpToDate` | src/kernel/compositor.c:579-599 | After rendering, every pixel of the composition buffer is that of the full scene, overlapping regions or not |
| `Scene.StepUpToDate` | src/kernel/compositor.c:160-341 | Every operation, on listed surfaces or others, keeps each undamaged pixel equal to that of the scene, provided that what it takes from the screen is covered by damage |
| `Scene.RunUpToDate` | src/kernel/compositor.c:160-341 | The same through every run of such operations |
| `Scene.FrameShowsScene` | src/kernel/compositor.c:579-610 | After any such run from the initial state, render and present make every pixel of the frame buffer that of the scene |
| `Scene.RefreshUpToDate` | src/kernel/compositor.c:579-610 | Render and present bring any up-to-date state to a frame that shows the scene |
| `Scene.IncrementalIsFull` | src/kernel/compositor.c:582-595 | Redrawing only what is damaged gives the picture that redrawing everything gives |
| `Scene.ReportedExactly` | src/kernel/compositor.c:126-217 | For places, sizes, visibility and damage as they are, a step keeps the screen right whatever the pixels are exactly if every on-screen pixel that it takes from the list, the cursor or the wallpaper is covered by damage |
| `Scene.ShrinkLeavesPicture` | src/kernel/compositor.c:179-217 | A white surface of two pixels, shrunk to one, leaves the other on the screen, undamaged |
| `Scene.DestroyLeavesPicture` | src/kernel/compositor.c:126-158 | A white surface that fills the screen stays on it, undamaged, when it is destroyed |
| `Scene.RaiseLeavesPicture` | src/kernel/compositor.c:240-264 | A surface of one pixel, raised from outside the list, displaces a white one of two and leaves its second pixel on the screen, undamaged |
| `Scene.CursorTakesStack` | src/kernel/compositor.c:126-158 | Destroying a cursor of no size empties the list and leaves its picture on the screen, undamaged |
| `Scene.FirstRaise` | src/kernel/compositor.c:240-264 | The first surface that is raised into an empty list is always reported in full, and is then the list |
| `Scene.RunLean` | src/kernel/compositor.c:126-326 | From an empty list on there is never more than one surface in it |
| `Scene.BelowMeaning` | src/kernel/compositor.c:306-312 | The insertion point is the first place with a surface above z, or the end |
| `Scene.RestackedSorted` | src/kernel/compositor.c:291-326 | In a list sorted by z the surface is sorted in again, behind its equals, and all others keep their order |
| `Compositor.Compositor.constructor` | src/kernel/compositor.c:10-60 | The new compositor is valid, and all of its screen is damaged |
| `Compositor.Compositor.AddDamage` | src/kernel/compositor.c:380-420 | The array of rectangles, its count and the flag become what `Rects.AddDamage` says |
| `Compositor.Compositor.ForceRedraw` | src/kernel/compositor.c:433-437 | All is damaged and no rectangle is kept |
| `Compositor.Compositor.NeedsRedraw` | src/kernel/compositor.c:428-431 | True exactly when some damage is pending |
| `Compositor.Compositor.BlitSurfaceRegion` | src/kernel/compositor.c:461-510 | Exactly the pixels of the surface within the region are blended over what was there; every access is in bounds |
| `Compositor.Compositor.RenderWallpaper` | src/kernel/compositor.c:513-542 | The region shows the tiled wallpaper, or black; nothing else changes |
| `Compositor.Compositor.RenderRegion` | src/kernel/compositor.c:545-577 | Within the region every pixel is that of the scene, outside nothing changes, and the cursor is back in its place |
| `Compositor.Compositor.RenderRegions` | src/kernel/compositor.c:589-594 | After all regions exactly the pixels covered by some rectangle are redrawn |
| `Compositor.Compositor.Render` | src/kernel/compositor.c:579-599 | The state becomes the rendered one: what was damaged shows the scene, and no damage is left |
| `Compositor.Compositor.Present` | src/kernel/compositor.c:601-610 | The frame buffer shows the composition buffer on the screen, and keeps what lies beyond the screen width |
| `Compositor.Compositor.SurfaceMove` | src/kernel/compositor.c:160-177 | The step of the scene: new place, both places reported if visible; of a surface that is not in the list only the reports are seen |
| `Compositor.Compositor.SurfaceShow` | src/kernel/compositor.c:219-228 | The step of the scene: visible, and reported if it was not; the same report for a surface that is not in the list |
| `Compositor.Compositor.SurfaceHide` | src/kernel/compositor.c:230-238 | The step of the scene: hidden, and reported if it was not; the same report for a surface that is not in the list |
| `Compositor.Compositor.SurfaceSwapBuffers` | src/kernel/compositor.c:328-341 | The step of the scene: buffers exchanged, reported if visible, in the list or not |
| `Compositor.Compositor.SurfaceResize` | src/kernel/compositor.c:179-217 | The step of the scene: blank buffers of the new size, only the new rectangle reported, in the list or not |
| `Compositor.Compositor.SurfaceRaise` | src/kernel/compositor.c:240-264 | A listed surface is last in a well-formed doubly linked list, the others in their order; an unlisted one becomes the only one in the list, and the links of those it displaces stay |
| `Compositor.Compositor.SurfaceLower` | src/kernel/compositor.c:266-289 | A listed surface is first in a well-formed doubly linked list, the others in their order; an unlisted one becomes the only one in the list, and the links of those it displaces stay |
| `Compositor.Compositor.SurfaceSetZOrder` | src/kernel/compositor.c:291-326 | A listed surface is relinked at its insertion point in a well-formed doubly linked list; an unlisted one becomes the only one in the list, unless its z stays |
| `Compositor.Compositor.SurfaceDestroy` | src/kernel/compositor.c:126-158 | A listed surface leaves the list; one that is not listed empties it |
| `Compositor.Compositor.Unlink` | src/kernel/compositor.c:138-148 | The list stays doubly linked without the surface; an unlinked surface wipes out head and tail |
| `Compositor.Compositor.AloneIsLoose` | src/kernel/compositor.c:126-326 | A surface that is alone in the list is linked to no other, and so can be raised again once it is displaced |
| `Compositor.Compositor.FindPlace` | src/kernel/compositor.c:305-312 | The walk stops at the first surface above z, with the one before it |
| `Compositor.Compositor.MoveCursor` | src/kernel/compositor.c:640-667 | The step of the scene: both places of the cursor are reported |
| `Compositor.Compositor.SetCursor` | src/kernel/compositor.c:612-638 | The step of the scene: the old and the new cursor are reported |
| `Compositor.Compositor.SetWallpaper` | src/kernel/compositor.c:669-673 | The step of the scene: the new wallpaper, everything damaged |
| `Compositor.Compositor.Refresh` | src/kernel/compositor.c:579-610 | From an up-to-date state, one frame leaves the frame buffer showing the scene and no damage |
| `EventQueue.RingPush` | src/kernel/event_loop.c:63-65 | Writing at the tail appends to the ring and disturbs nothing in it |
| `EventQueue.RingPop` | src/kernel/event_loop.c:79-81 | Advancing the head takes the first event off the ring |
| `EventQueue.EventQueue.Push` | src/kernel/event_loop.c:56-69 | The stamped event is appended, and the caller finds the stamp in its own; with 256 pending, exactly, it is dropped as it came |
| `EventQueue.EventQueue.Poll` | src/kernel/event_loop.c:71-85 | The oldest event is returned and removed; none exactly when the queue is empty |
| `EventThreads.InitialInv` | src/kernel/event_loop.c:37-44 | The initial state satisfies the invariant |
| `EventThreads.StepInv` | src/kernel/event_loop.c:46-85 | Every atomic step of every thread keeps the invariant, for any number of threads |
| `EventThreads.StepRecorded` | src/kernel/event_loop.c:46-85 | Every step keeps the history of calls, critical sections and returns in order for each thread, with the log as part of it |
| `EventThreads.RunInv` | src/kernel/event_loop.c:46-85 | The invariant holds in every reachable state |
| `EventThreads.FirstInFirstOut` | src/kernel/event_loop.c:56-85 | In a sequential log, accepted events are those delivered, in order, and then those pending; never more than 256 are pending |
| `EventThreads.Linearizable` | src/kernel/event_loop.c:46-85 | In every reachable state at most one thread is inside the lock, the log in lock order is a sequential history of the queue and part of the history of calls and returns, accepted timestamps never decrease, and while the lock is free tail == (head + count) mod 256 |
| `EventThreads.RealTime` | src/kernel/event_loop.c:46-85 | In such a history an operation that returned before another was called stands before it in the log; it returned what the log says, and the payload logged is the one handed in |
| `Timers.FiredInTurn` | src/kernel/event_loop.c:177-210 | Each due timer fires exactly once, after the due ones before it, and no other fires |
| `Timers.RemainingInTurn` | src/kernel/event_loop.c:197-208 | Exactly the due one-shot timers go; the others keep their order, due ones with a new time |
| `Timers.SecondPass` | src/kernel/event_loop.c:177-210 | A second pass at the same time fires exactly the due repeating timers of interval 0, in list order, and is silent exactly if there are none |
| `Timers.AnnouncedPrefix` | src/kernel/event_loop.c:189-195 | The timer events are appended in order, as many as there is room for |
| `Timers.TimerList.AddTimer` | src/kernel/event_loop.c:212-227 | The new timer stands in front, with the next id and its first time |
| `Timers.TimerList.RemoveTimer` | src/kernel/event_loop.c:229-243 | The first timer of that id leaves the list, the others keep their order |
| `Timers.TimerList.ProcessTimers` | src/kernel/event_loop.c:177-210 | The walk over the links fires, reschedules, cuts out and announces exactly as the specification of a pass says |
| `WidgetForest.ChildOnPath` | src/kernel/devilui.c:93-96 | What lies below a widget lies under one of its children |
| `WidgetForest.DetachTraces` | src/kernel/devilui.c:141-156 | Removing a child leaves a forest |
| `WidgetForest.DetachSplits` | src/kernel/devilui.c:141-156 | The removed tree keeps its members, and all other widgets their paths |
| `WidgetForest.AttachTraces` | src/kernel/devilui.c:115-139 | Adding a root outside whose tree the parent lies leaves a forest |
| `WidgetForest.AttachBreaks` | src/kernel/devilui.c:133-135 | In all other cases, which the code does not rule out, there is no forest any more |
| `WidgetForest.DetachUndoesAttach` | src/kernel/devilui.c:133-155 | Removing the child just added restores the shape |
| `WidgetForest.RemovedAt` | src/kernel/devilui.c:144-152 | The other children keep their order |
| `WidgetForest.PruneSteps` | src/kernel/devilui.c:93-96 | Destroying the first child removes exactly its tree |
| `WidgetForest.PruneEnds` | src/kernel/devilui.c:83-113 | When no child is left, exactly the tree under the widget is gone, and it has left its parent |
| `Widgets.KeptButOne` | src/kernel/devilui.c:100-103 | Without one member, what stands before and after it in the list remains |
| `Widgets.Ui.Create` | src/kernel/devilui.c:40-81 | A new widget stands alone, first in the list, with the next id |
| `Widgets.Ui.CutChild` | src/kernel/devilui.c:146-151 | The shifting loop takes exactly the child at that place out of the array |
| `Widgets.Ui.RemoveChild` | src/kernel/devilui.c:141-156 | A child that is there is detached, its siblings in their order; else nothing changes |
| `Widgets.Ui.Unlink` | src/kernel/devilui.c:100-103 | The doubly linked list stays well-formed without the widget |
| `Widgets.Ui.DestroyChildren` | src/kernel/devilui.c:93-96 | Everything strictly below a root is destroyed and nothing else; the rest of the list keeps its order |
| `Widgets.Ui.Destroy` | src/kernel/devilui.c:83-113 | Exactly the tree under the widget is gone, from the forest and from the list, whose rest keeps its order; it has left its parent; focus and hover are cleared exactly if they pointed into it |
| `Widgets.Ui.Shutdown` | src/kernel/devilui.c:32-37 | Nothing is left |
| `Widgets.Ui.SetFocus` | src/kernel/devilui.c:170-190 | The focus is the widget, and no link changes |
| `Widgets.Ui.AddChild` | src/kernel/devilui.c:115-139 | The child is last among the children, the forest stays one, every write is within the grown array, and the tree under the parent is laid out |
| `Widgets.Ui.ArrangeVertically` | src/kernel/devilui.c:219-237 | The loop gives every child the box that the layout prescribes |
| `Widgets.Ui.ArrangeHorizontally` | src/kernel/devilui.c:238-257 | The same along the other axis |
| `Widgets.Ui.Layout` | src/kernel/devilui.c:212-263 | Every widget of the tree has placed its children by its own final box, and nothing else has moved |
| `WidgetGeometry.ArrangedTwice` | src/kernel/devilui.c:219-257 | Placing children twice is placing them once, even where 32-bit sums wrap around |
| `WidgetGeometry.SpacedApart` | src/kernel/devilui.c:219-257 | Without wrap-around, consecutive visible children with their margins are exactly `spacing` apart along the axis |
| `WidgetGeometry.LayoutTwice` | src/kernel/devilui.c:212-263 | Layout of a whole tree that is laid out changes nothing |
| `WidgetGeometry.LayoutDetermined` | src/kernel/devilui.c:212-263 | What layout promises leaves one outcome only |
| `WidgetGeometry.PaintedIffShown` | src/kernel/devilui.c:265-293 | A widget is painted exactly when it and all on the way down to it are visible |
| `WidgetGeometry.TopmostIsLast` | src/kernel/devilui.c:296-317 | The topmost widget is the last in paint order that contains the point, and there is none exactly when none contains it |
| `Widgets.Ui.HitTest` | src/kernel/devilui.c:296-311 | Returns the topmost widget of the paint order at that point |
| `Easing.EasingInRange` | src/kernel/animation.c:25-56 | Every easing maps its range into itself and fixes both ends |
| `Easing.EasingMonotone` | src/kernel/animation.c:25-56 | No easing ever goes back |
| `Easing.EasingMirrored` | src/kernel/animation.c:29-46 | Ease-in and ease-out of mirrored times sum to exactly one, and so does ease-in-out |
| `Easing.EaseInPrecise` | src/kernel/animation.c:17-31 | Ease-in is at most t^3 / 2^32, and falls below it by less than two units |
| `Easing.TweenMoves` | src/kernel/animation.c:187-190 | With a range of 16 signed bits an animated number stays between its ends, moves one way and ends at its target |
| `Easing.TweenEnds` | src/kernel/animation.c:187-190 | It ends at its target exactly when the range fits into 16 signed bits |
| `Easing.MovesExactly` | src/kernel/animation.c:187-190 | An animated number moves one way, between its ends and to its target, exactly over distances of 16 signed bits and from one end of the 32-bit range to the other |
| `Animations.ChannelMoves` | src/kernel/animation.c:192-208 | A color channel stays between its ends, moves one way and ends at its target |
| `Animations.WrittenMoves` | src/kernel/animation.c:161-209 | As time passes the written value moves one way between start and target |
| `Animations.WrittenEnds` | src/kernel/animation.c:168-209 | A complete animation has written exactly its target value: a color always, a number exactly if its distance fits into 16 signed bits |
| `Animations.AllTakenOut` | src/kernel/animation.c:219-230 | Everything that finishes in a tick leaves the list exactly when no more than 32 finish; what is left behind is inactive and is never taken out |
| `Animations.AnimationList.Animate` | src/kernel/animation.c:112-144 | A new animation starts from the present value, in front of the list, and the count goes up by one; none for a duration of 0 |
| `Animations.AnimationList.Free` | src/kernel/animation.c:78-93 | The animation leaves the list, wherever it stands, the others keep their order, and the count falls by one |
| `Animations.AnimationList.Walk` | src/kernel/animation.c:151-224 | Every active animation has written its target, the last in the list wins, and the first 32 that finish are picked; all others hold what they held |
| `Animations.AnimationList.Tick` | src/kernel/animation.c:146-231 | The same, the picked ones, and no others, are out of the list, and the count has fallen by their number |
| `Animations.AnimationList.Stop` | src/kernel/animation.c:233-237 | A stopped animation is inactive and out of the list, the others in their order |
| `ArpHistory.SendersAreLast` | src/kernel/arp.c:40-68 | The senders by recency are exactly those heard, each as last heard |
| `ArpHistory.SendersByAge` | src/kernel/arp.c:40-68 | ... the latest heard first |
| `ArpHistory.Caches` | src/kernel/arp.c:40-68 | If the clock moves between packets, the used slots come first and hold exactly the up to 32 most recently heard senders, each once, as last heard |
| `ArpHistory.CachesNext` | src/kernel/arp.c:50-67 | With a clock that may stand still, the next packet keeps this exactly when its sender is known, there is room, or no slot before that of the sender heard longest ago is as old |
| `ArpHistory.ForgetsTheLatest` | src/kernel/arp.c:50-67 | When 33 senders are heard at one tick, the table can forget the one heard last of all |
| `ArpHistory.LookupAgrees` | src/kernel/arp.c:70-77 | A lookup finds what was last heard from that sender, and nothing exactly when the sender is not held |
| `ArpHistory.LookupJustHeard` | src/kernel/arp.c:40-77 | Whoever was just heard is found, whatever the clock shows |
| `Arp.DecodeEncode` | src/kernel/arp.c:24-34 | An encoded packet decodes to itself |
| `Arp.Cache.Update` | src/kernel/arp.c:40-68 | The array is what the whole history makes of an empty table |
| `Arp.Cache.LookUp` | src/kernel/arp.c:70-77 | The scan finds what the history says |
| `Arp.Cache.HandlePacket` | src/kernel/arp.c:109-144 | A short or foreign packet does nothing; any other teaches its sender, and is answered exactly if it is a request for this address, with a reply in a frame from this host to who asked |
| `Arp.KeepsToRfc` | src/kernel/arp.c:109-120 | The table becomes what section "Packet Reception" of RFC 826 asks for exactly if the sender is known or this host is the target of the packet |
| `Arp.TakesUpOverheard` | src/kernel/arp.c:109-120 | Overhearing a request between two other hosts, the code takes up its sender, which the RFC does not |
| `Arp.Resolve` | src/kernel/arp.c:79-144 | Request, reply and the handling of both leave each of two devices knowing the address of the other |
| `Decimal.ParseText` | src/kernel/calculator.c:25-51 | Decimal text reads back as the number |
| `Decimal.TextFits` | src/kernel/calculator.c:25-51 | No 64-bit number takes more than 20 characters |
| `Decimal.PrintedReads` | src/kernel/calculator.c:25-51 | What `int_to_str` prints reads back as the number exactly for every number but the least, which prints as a bare minus sign |
| `Decimal.SplitDigits` | src/kernel/calculator.c:33-39 | The loop finds the digits from the last to the first |
| `Decimal.IntToStr` | src/kernel/calculator.c:25-51 | The buffer holds the text, terminated |
| `Calculator.PressShows` | src/kernel/calculator.c:144-211 | The display goes on showing the current value exactly when the button is no new decimal point, no digit too many and no result that cannot be printed |
| `Calculator.RunShows` | src/kernel/calculator.c:144-211 | Through every run of such buttons the display is the decimal text of the current value, within its buffer |
| `Calculator.PressFits` | src/kernel/calculator.c:144-211 | A button leaves the display within its 64 bytes exactly if it does not add a character to 63 |
| `Calculator.RunFits` | src/kernel/calculator.c:144-211 | A run of buttons stays within them all the time exactly if no button of it does that |
| `Calculator.DigitsOverrun` | src/kernel/calculator.c:162-170 | Typing one digit n times makes the display n characters long, for every n |
| `Calculator.TypesNumber` | src/kernel/calculator.c:162-170 | Typing the digits of a number enters it |
| `Calculator.Computes` | src/kernel/calculator.c:162-210 | A calculation typed in full shows its exact result, and its history line tells it |
| `Calculator.OperandTold` | src/kernel/calculator.c:185-191 | A history line tells an operand as it was exactly if it fits into 32 bits |
| `Calculator.LineFits` | src/kernel/calculator.c:190-208 | Every history line fits into its buffer |
| `Calculator.Calculator.Shift` | src/kernel/calculator.c:131-138 | The loop moves the lines down by one |
| `Calculator.Calculator.AddHistory` | src/kernel/calculator.c:129-142 | The history holds the last 20 lines at most, the newest first |
| `Calculator.Calculator.HandleButton` | src/kernel/calculator.c:144-211 | Every button takes the step of the specification, and adds its line to the history if it completes a calculation |
| `Font.MeasureString` | src/kernel/font.c:196-225 | Width of the widest line and height of all lines |
| `Font.CursorBehind` | src/kernel/font.c:203-214 | The drawing cursor never gets ahead of the measured width, whatever the bytes |
| `Font.MeasuredAsDrawn` | src/kernel/font.c:212-256 | A line is drawn as wide as it is measured exactly when it has no byte from 128 on |
| `Font.CellsInBox` | src/kernel/font.c:196-261 | Every glyph drawn lies in the measured box |
| `Font.CellsApart` | src/kernel/font.c:239-261 | No two glyphs of a text touch the same pixel |
| `Font.PaintedCell` | src/kernel/font.c:119-156 | In the cell of a glyph the screen shows that glyph alone, whatever is drawn before and after it |
| `Font.PaintedInBox` | src/kernel/font.c:196-261 | Outside the measured box nothing changes |
| `Font.RenderGlyph` | src/kernel/font.c:119-156 | Exactly the pixels of the glyph are written, clipped at the left and at the top |
| `Font.DrawString` | src/kernel/font.c:239-283 | If the measured box has room to the right and below, the buffer shows the text over what it held, every write is within it, and what has changed lies in the box |

A method that the source writes as one function is often several here, each changing one thing; the row stands
for the one with the name of the function, and for its loops.

## Left out

- Failing allocations: every allocation succeeds.
- Callbacks and vtable hooks of widgets, timers, surfaces and animations: they are taken not to touch what is modelled.
- Memory that is freed: a destroyed object is no longer reachable from the structures, and nothing more is said about it.
- min_vruntime: nothing shown advances it, so it is an arbitrary number; the functions that would dequeue tasks are declared but not defined.
- The scheduling record of a task is a value in the task, not an object that several tasks could share.
- CfsScheduler.RunQueue.PostInitEntity: the fields of the record that are zeroed and never read afterwards are not modelled.
- Printing and placeholder code, such as `cfs_print_stats` and `cfs_prio_to_wmult`.
- Opacity, scale and animation progress are floats in the source. Opacity is an integer from 0 to 255 here, progress an exact quotient rounded down; `animate_float`, the window animations and scaling are left out.
- Animations.AnimationList.Walk: progress is an exact quotient rounded down, not a float; float targets are left out.
- Animations.AnimationList.Tick: the same as for the walk.
- Easing.TweenMoves: requires a distance of 16 signed bits; `Easing.MovesExactly` says what holds beyond it.
- Animations.WrittenMoves: requires the same of numbers.
- Coordinates and sizes of surfaces are unbounded integers: sums that overflow 32 bits are not modelled there.
- Buffers of a surface are sequences held in fields; swapping them swaps the sequences.
- The compositor is the global one, and its screen is no wider than its stride; neither cursor nor wallpaper is in the surface list.
- Compositor.Compositor.SurfaceMove: requires a surface that is neither the cursor nor the wallpaper; of these the code reports the place of the surface, not that of the cursor or of the tiles.
- Compositor.Compositor.SurfaceShow: requires a surface that is neither the cursor nor the wallpaper; of these the code reports the place of the surface, not that of the cursor or of the tiles.
- Compositor.Compositor.SurfaceHide: requires a surface that is neither the cursor nor the wallpaper; of these the code reports the place of the surface, not that of the cursor or of the tiles.
- Compositor.Compositor.SurfaceSwapBuffers: requires a surface that is neither the cursor nor the wallpaper; of these the code reports the place of the surface, not that of the cursor or of the tiles.
- Compositor.Compositor.SurfaceResize: requires a surface that is neither the cursor nor the wallpaper; of these the code reports the place of the surface, not that of the cursor or of the tiles.
- Compositor.Compositor.SurfaceRaise: requires that a surface that is not in the list is neither cursor nor wallpaper, and is linked to no other, as all are that come from the operations shown; the links of one that was displaced from a list of several would lead back into it.
- Compositor.Compositor.SurfaceLower: requires that a surface that is not in the list is neither cursor nor wallpaper, and is linked to no other, as all are that come from the operations shown; the links of one that was displaced from a list of several would lead back into it.
- Compositor.Compositor.SurfaceSetZOrder: requires that a surface that is not in the list is neither cursor nor wallpaper, and is linked to no other, as all are that come from the operations shown; the links of one that was displaced from a list of several would lead back into it.
- Compositor.Compositor.SurfaceDestroy: requires that a surface that is not in the list is linked to no other, for the same reason.
- Compositor.Compositor.Unlink: requires that a surface that is not in the list is linked to no other, for the same reason.
- Compositor.Compositor.SetCursor: requires a surface that is not in the list; the code skips a listed cursor when it draws the list, but does not report the place it leaves there.
- Compositor.Compositor.SetWallpaper: requires a surface with pixels, since the code takes remainders by its size, and one that is not in the list.
- `compositor_add_surface_damage`, `compositor_destroy`, `surface_count` (never increased in the source), vsync and the frame statistics.
- The spin lock is modelled for safety only: that a waiting thread gets in some day is not claimed, nor anything about interrupts.
- EventThreads.Linearizable: atomic steps are the single reads and writes of the fields under the lock, in program order; weaker memory orders are not modelled.
- The events are a payload and a timestamp; `event_dispatch` and the main loop are left out.
- Widgets.Ui.SetFocus: only the pointer is modelled, not the `focused` flags, the focus callbacks and the damage.
- Widgets.Ui.AddChild: requires a root as child, and a parent outside its tree, which the code does not check; `WidgetForest.AttachBreaks` says what happens otherwise. Child arrays are sequences with a capacity.
- Widgets.Ui.Create: names, themes, size limits and the enabled flag of a widget are left out.
- WidgetGeometry.PaintedIffShown: only the order of painting, not the drawing itself, its clipping and its translation.
- WidgetGeometry.SpacedApart: requires that the children fit into the coordinate range, since 32-bit sums wrap around beyond it.
- Arp.Cache.HandlePacket: packets are byte sequences; sending is the value returned. Addresses are compared as they lie in memory.
- Arp.Resolve: two caches are handled by one method, with both packets delivered.
- The buttons of the scientific mode have no effect in the source; drawing the calculator and its mouse and key handling are left out.
- Signed arithmetic that overflows is undefined in C; where the model says `Signed32` or `Signed64` it is taken to wrap around.
- Calculator.Calculator.HandleButton: `sprintf` is taken to print `%d` as decimal text; the display is a value of any length, and `Calculator.PressFits` says when it fits its buffer; dividing the least 64-bit number by -1 wraps around here, where the machine raises an exception.
- Font.RenderGlyph: requires room to the right and below, as the code checks only the left and the top; what it does beyond the end of a row is not modelled.
- Font.DrawString: requires that the measured box has room to the right and below, for the same reason; coordinates are unbounded integers. The two drawing functions of the source differ only in the background color, which is a parameter here. The anti-aliased glyphs, font loading and the registry are left out.
- Drivers, file systems, paging, the window manager, the other applications and the icons.
