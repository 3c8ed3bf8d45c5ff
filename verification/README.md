# ZTermy: models and proofs

ZTermy is a terminal application for Windows.  Under its user interface lie a number of protocols and
list algorithms that have to be right in every order of events.  This project models them in Dafny, with
the source's own branches, limits and failure paths, and proves what they promise.

| file | models |
|---|---|
| `TabListModel.dfy` | the tab strip's row model: an edit script in place, with one notification for each step |
| `WorkspaceState.dfy`, `PaneTree.dfy` | the saved workspaces: split trees stored as flat node lists, the validator, and the tree it recognises |
| `WorkspaceTransfer.dfy`, `PaneOrder.dfy`, `PaneClosing.dfy`, `TransferOrder.dfy` | closing, moving, swapping, extracting and merging panes: what is conserved, what happens to the tree, and in which order the panes end up |
| `PaneScreen.dfy`, `TransferScreen.dfy` | what each tab shows before and after: the panes, and the splits between them with their directions and proportions |
| `LayoutParts.dfy`, `PaneAssembly.dfy`, `PaneSwaps.dfy`, `TransferSuccess.dfy` | what a valid tab is made of, and when these operations succeed |
| `TabOrder.dfy`, `WorkspaceWindows.dfy`, `WorkspaceOutcomes.dfy` | the tabs of all windows interleaved in one list; the registry of sessions that has to follow every operation; what each operation of the controller achieves |
| `LaunchScheduler.dfy`, `LaunchOutcomes.dfy`, `ShellQuoting.dfy`, `InstanceRequests.dfy` | launch requests: the single-instance buffer, the queue with its asynchronous waits, how each request ends, and the remote start command |
| `DiagnosticsMailbox.dfy`, `SnapshotWorker.dfy` | two hand-offs between threads, as transition systems with one step for each critical section |
| `LifeCycleCounters.dfy`, `NotificationLimiter.dfy` | counters of created and destroyed objects; the rate limit of desktop notifications |
| `IconWriter.dfy` | the two-pass ICO writer, against a reader of the format |
| `OpenSshImport.dfy`, `OpenSshFields.dfy`, `OpenSshReimport.dfy`, `OpenSshConfig.dfy` | merging OpenSSH hosts into the stored profiles, what is stored field by field, importing the same hosts twice, and what the loader delivers |
| `Themes.dfy` | the active colour scheme and the copies of it in the sessions |
| `Lists.dfy`, `Texts.dfy` | removing from and inserting into sequences; trimming texts |

Objects that the source updates in place are classes here.  Each of their methods is proved equal to a function
on the abstract value of the object (`Script`, `ProcessNext`, `MoveTab`, `Import`, ...), and the properties of
whole runs are proved about these functions.  What comes from outside (whether a file could be written, a
credential read or a terminal opened; fresh identifiers; clocks; case folding; the profile validator) is a
parameter, so that the theorems hold for every outcome.

## What is proved

* Tab strip: following the notifications from a copy of the old rows is legal at every step and ends with exactly
  the new rows, and the views are told once at the end.  A surviving tab is never removed or inserted; it is moved
  exactly if another survivor has been overtaken by it, and reported as changed exactly if its value differs.
* Split trees: the validator accepts exactly the node lists that are one binary tree without sharing, whose leaves
  and restore intents correspond one to one.  Closing, moving, inserting and swapping panes are shown to succeed
  exactly under conditions on their inputs, although each of them ends with a validation of what it has built.
* Transfers: whatever the kind of transfer, every pane keeps its restore intent, none is created, lost or doubled,
  and every tab of the result, whether it takes part or not, shows exactly what the request asks for: which panes, in
  which order, and in which direction and proportion each split divides them.  A pane that leaves gives its room, and the
  focus if it had it, to its neighbour.  Which requests succeed is decided by the state and the request alone.
* Windows: dragging a tab and re-inserting it give every window the same tabs in the same order, although the
  global lists differ; dragging back restores the whole list; detaching and reattaching restores every window.
  In every run the session registry, the pinned tabs, the active tab and the focus agree with the layouts.  Each
  operation of the controller answers true exactly under stated conditions and then achieves what it is for; an answer of
  false leaves everything as it was.
* Launches: no wake-up is lost, at most one wait is open, the queue never exceeds 32, every accepted request has one
  outcome, in the order of acceptance, and once submissions stop a decreasing measure empties the queue.  Whether a
  request is opened, fails, is cancelled, waits for its file or is asked about is given, for every event of every run, by
  its fields and what the surroundings decide then.
* Hand-offs: every diagnostics snapshot is taken, dropped or in the slot, and the last one is taken before the
  thread ends; every capture gets its own operation's result, and no wake-up is lost.
* Printers and their readers: the remote start command read by the shell's quoting rules gives back the directory,
  and the icon file read back gives the same images, with the exact condition for it.
* OpenSSH import: profiles outside the group stay, the profile of an imported host holds, field by field, what the last
  valid host with its id configures, jumps lead to the profiles they name, and a second import of the same hosts changes
  nothing exactly under a condition on the stored profiles and the list.
* Notifications: one goes out exactly if it is new to its tab and none went out in the two seconds before; so all tabs
  together never exceed the rate.
* Themes: the sessions keep the colours of the theme that previews, policy, system and catalog select, and each operation
  has the effect on that selection that it is named for.

### Where the code falls short

* After start-up an acknowledged request is not always accepted: acknowledging looks at the instance's own buffer, but the
  scheduler's queue may be full.  `ToldAndLost` gives the run: one request that the user is asked about, 32 more, and every
  further sender is told "ok" while its request is lost.  `ToldAreAcceptedExactly` states, for every run of a ready instance
  and its scheduler, that all acknowledged requests are accepted if and only if the queue had room each time.  The requests
  buffered before readiness always are (`BufferedRequestsAreAccepted`).
* Importing a theme file does not push colours to the sessions.  If a saved slot names a removed theme and a theme with
  that id is imported, the sessions keep the old colours (`ImportCanLeaveSessionsBehind`); `ImportEffect` gives
  the exact condition.
* Importing an unchanged OpenSSH configuration again can change the profiles.  The loader sorts the hosts by alias and drops
  neighbours that are equal up to case, so "DB", "a" and "db" are all delivered; the first import stores a profile for each
  of the twins, and the second writes both over the first of them, which is renamed (`CaseTwinsAreNotFixed`).
  `ReimportIsFixedExactly` gives the exact condition for arbitrary lists: in every class of aliases equal up to case that
  is not stored yet, the first and the last host have the same alias, and what the last host of a class jumps through is no
  host of the list, or stored, or the first of its class.  For the lists that the loader delivers it comes down to this:
  twins are stored already (`ReloadIsFixedExactly`).

## Model

| member | source | states |
|---|---|---|
| TabListModel.TerminalTabListModel.constructor | src/ui/TerminalTabListModel.cpp:33-49 | the model starts without rows and without notifications, in a state that `SetTabs` keeps valid |
| TabListModel.TerminalTabListModel.Tabs | src/ui/TerminalTabListModel.cpp:24-31 | the copy handed out has the shown rows in their order |
| TabListModel.TerminalTabListModel.SetTabs | src/ui/TerminalTabListModel.cpp:33-88 | a list with a missing or repeated id changes nothing and tells nobody; any other list becomes the rows, announced by exactly the edit script from the old rows |
| TabListModel.TerminalTabListModel.CollectIds | src/ui/TerminalTabListModel.cpp:38-48 | the validating loop gets through exactly if ids are present and distinct |
| TabListModel.TerminalTabListModel.RemoveStale | src/ui/TerminalTabListModel.cpp:51-59 | the backward loop leaves the surviving rows in their old order and announces one removal for each other row at its current index |
| TabListModel.TerminalTabListModel.PlaceAll | src/ui/TerminalTabListModel.cpp:60-86 | the forward loop ends with the target rows and no row behind them |
| TabListModel.TerminalTabListModel.PlaceRow | src/ui/TerminalTabListModel.cpp:62-85 | one round makes the next row of the prefix right and leaves the other rows not placed yet in their order |
| TabListModel.TerminalTabListModel.FindFrom | src/ui/TerminalTabListModel.cpp:63-65 | the inner search finds the first row with the id at or behind the start, or the row count |
| TabListModel.ScriptLeadsToNewRows | src/ui/TerminalTabListModel.cpp:51-87 | for all old rows with distinct ids and all acceptable new rows, replaying the script is legal at every step, keeps ids distinct throughout and yields exactly the new rows |
| TabListModel.ScriptDisturbsOnlyAsNeeded | src/ui/TerminalTabListModel.cpp:51-86 | per tab: removed once iff it goes, inserted once iff it comes, moved once iff a survivor before it in the old list is behind it in the new one, changed once iff it survives with another value |
| TabListModel.AcceptedExactly | src/ui/TerminalTabListModel.cpp:35-48 | a list is accepted iff every row has a non-empty id and no two rows the same |
| TabListModel.ToldOnceAtTheEnd | src/ui/TerminalTabListModel.cpp:49-87 | equal rows send nothing; otherwise the signal that the tabs changed is sent once, after all changes of rows |
| WorkspaceState.ValidTerminalWorkspaceLayout | src/domain/workbench/WorkspaceState.cpp:194-267 | the validator's loop with its stack decides the recursive validity, which `PaneTree.ValidExactlyIfWellFormed` gives its meaning |
| WorkspaceState.ValidWorkspaceState | src/domain/workbench/WorkspaceState.cpp:128-192 | the validator's loops over tabs and quarantined intents decide the validity of the whole state |
| LayoutParts.StateValidExactly | src/domain/workbench/WorkspaceState.cpp:128-192 | a state is valid iff its at most 32 tabs are valid and distinct and have at most 32 restore intents together, the quarantined and attempted intents are intents of these tabs, none quarantined twice, and the active tab is one of them; without tabs there is nothing else |
| PaneTree.ValidExactlyIfWellFormed | src/domain/workbench/WorkspaceState.cpp:194-267 | a layout is accepted iff its header and nodes are in order, all nodes form one binary tree from the root without sharing or leftovers, leaves and intents match one to one, and the active pane is a leaf |
| PaneTree.WalkGrowsForest | src/domain/workbench/WorkspaceState.cpp:217-263 | from any state of the walk that succeeds, the nodes on the stack are the roots of disjoint trees that cover exactly the nodes not visited yet |
| PaneTree.ForestIsWalked | src/domain/workbench/WorkspaceState.cpp:217-263 | and conversely the walk succeeds on every such forest |
| PaneTree.StackFits | src/domain/workbench/WorkspaceState.cpp:255-260 | the stack's capacity of 15 is never what rejects a tree |
| PaneClosing.TerminalPaneOrder | src/domain/workbench/WorkspaceState.cpp:517-540 | the unchecked stack of the traversal stays within its array, and the result is the leaves of the layout's tree from left to right; nothing for an invalid layout |
| PaneOrder.CloseRemovesFromOrder | src/domain/workbench/WorkspaceState.cpp:345-399 | closing prunes the tree: the pane's sibling takes the place of their parent and the other panes keep their order |
| PaneClosing.CloseSucceedsExactly | src/domain/workbench/WorkspaceState.cpp:345-399 | closing succeeds iff the layout is valid, has more than one restore intent and the id is one of its leaves; the final validation and the search for the next active pane never fail then |
| PaneScreen.CloseShows | src/domain/workbench/WorkspaceState.cpp:345-399 | closing gives the pane's room to what shares a split with it, with all other splits in their directions and proportions, and the focus to the first pane there if the closed one had it; titles and window stay |
| PaneClosing.NextActiveIsLeaf | src/domain/workbench/WorkspaceState.cpp:379-391 | the descent along first children ends at a leaf of the remaining tree |
| WorkspaceTransfer.CloseTakesThePane | src/domain/workbench/WorkspaceState.cpp:345-399 | closing takes exactly the pane and its own restore intent out of the tab |
| PaneOrder.MoveRearrangesOrder | src/domain/workbench/WorkspaceState.cpp:446-515 | moving inside a tab takes the pane out of the order and puts it beside the target on the requested side; the shortcut that leaves the layout alone gives the same order (the direction of the new split: `PaneScreen.MoveShows`) |
| PaneAssembly.MoveSucceedsExactly | src/domain/workbench/WorkspaceState.cpp:446-515 | moving inside a tab succeeds iff the tab is valid, pane and target are two of its panes and the split id is a bounded new one; the final validation never fails then |
| PaneScreen.MoveShows | src/domain/workbench/WorkspaceState.cpp:446-515 | a move closes the pane's old place and halves the target's room in the requested direction, with the pane on the requested side; exactly if the two already share a split of this direction in this order, the tab stays as it is |
| WorkspaceTransfer.MoveInsideKeeps | src/domain/workbench/WorkspaceState.cpp:446-515 | moving inside a tab keeps all its panes and restore intents |
| PaneOrder.InsertJoinsOrder | src/domain/workbench/TerminalWorkspaceTransfer.cpp:22-51 | inserting grafts the whole source tree beside the target leaf: its panes come in their order, before or after it as requested (the direction of the new split: `PaneScreen.InsertShows`) |
| PaneAssembly.InsertSucceedsExactly | src/domain/workbench/TerminalWorkspaceTransfer.cpp:35-51 | inserting succeeds iff the target is a pane, the split id is bounded and new, the two share no node or intent id, and nodes and intents fit the limits together |
| PaneScreen.InsertShows | src/domain/workbench/TerminalWorkspaceTransfer.cpp:35-51 | inserting halves the target pane's room in the requested direction for the source's whole screen; every other split keeps direction and proportion, and the source's active pane becomes the active one |
| PaneSwaps.SwapInsideExchanges | src/domain/workbench/TerminalWorkspaceTransfer.cpp:53-71 | swapping two panes of a valid tab always leaves a valid tab, with the two exchanged in the order |
| PaneOrder.SubstituteRenames | src/domain/workbench/TerminalWorkspaceTransfer.cpp:73-88 | a pane that comes from another tab takes the very place of the one it replaces |
| PaneSwaps.SubstituteIsValidExactly | src/domain/workbench/TerminalWorkspaceTransfer.cpp:73-88 | a tab that takes another tab's pane and intent in place of its own is valid afterwards iff it did not have that pane id or that intent id already |
| PaneScreen.SwapShows | src/domain/workbench/TerminalWorkspaceTransfer.cpp:53-71 | swapping inside a tab exchanges the two panes on the screen and leaves every split as it is |
| PaneScreen.SubstituteShows | src/domain/workbench/TerminalWorkspaceTransfer.cpp:73-88 | a pane from another tab is shown where the replaced one was, between the same splits |
| WorkspaceTransfer.TransferConserves | src/domain/workbench/TerminalWorkspaceTransfer.cpp:94-158 | for each kind of transfer, every pane with its intent id and every restore intent is held by all tabs together exactly as often as before |
| WorkspaceTransfer.TransferKeepsPanesApart | src/domain/workbench/TerminalWorkspaceTransfer.cpp:146-158 | if no pane id occurs twice in the state, none does after the transfer |
| TransferSuccess.TransferSucceedsExactly | src/domain/workbench/TerminalWorkspaceTransfer.cpp:94-158 | for every state and request: the transfer succeeds iff the state is valid and the request meets, for its kind, the listed conditions on tabs, panes, ids and room; beyond them the validation of the whole state never refuses |
| TransferSuccess.CandidateIsValid | src/domain/workbench/WorkspaceState.cpp:128-192 | a state whose tabs are valid, distinct and not too many stays valid with its quarantined and attempted intents, because nothing is lost |
| WorkspaceTransfer.PaneDeterminesTab | src/domain/workbench/TerminalWorkspaceTransfer.cpp:53-92 | when no pane id occurs twice, two leaves with the same id are in the same tab |
| TransferOrder.TransferArranges | src/domain/workbench/TerminalWorkspaceTransfer.cpp:94-158 | after a successful transfer each tab, whether source, target or neither, has exactly the promised panes in the promised order, also where the source tab disappears with its last pane (the splits between them: `TransferScreen.TransferShows`) |
| TransferOrder.TransferFocuses | src/domain/workbench/TerminalWorkspaceTransfer.cpp:94-158 | the transferred pane is the active one of the target tab; after a merge, the one that was active in the source |
| TransferScreen.TransferShows | src/domain/workbench/TerminalWorkspaceTransfer.cpp:94-158 | after a successful transfer of any kind, every tab shows exactly what is promised for it: panes, direction and proportion of each split, active pane, titles, window and return address; None where the tab is gone |
| TransferScreen.TransferKeepsTabOrder | src/domain/workbench/TerminalWorkspaceTransfer.cpp:94-158 | the tabs keep their order in the list, a tab that gave away its last pane or was merged is gone and an extracted pane comes last; the target tab is the active one and nothing else of the state changes |
| TabOrder.MovedWithinOrder | src/application/AppControllerWorkspaceTransfers.cpp:42-60 | dragging puts the tab at the target rank of its window with the others in order, and gives every other window its tabs unchanged |
| TabOrder.MovedWithinPlaces | src/application/AppControllerWorkspaceTransfers.cpp:57-60 | tabs of other windows keep their global positions, every position keeps its window, and the list is a permutation |
| TabOrder.MovedBack | src/application/AppControllerWorkspaceTransfers.cpp:42-60 | dragging the tab back to its old rank restores the whole global list |
| TabOrder.RotateIsMove | src/application/AppControllerWorkspaceTransfers.cpp:53-56 | the two rotations both take one element out and put it back at the target index |
| TabOrder.ReinsertedEffect | src/application/AppControllerWorkspaceTransfers.cpp:204-217 | erase and re-insert: the tab leaves its window's order and enters the target window at the index, or at the end if the index is too large |
| TabOrder.DragAndInsertAgree | src/application/AppControllerWorkspaceTransfers.cpp:42-60 | inside one window the slot-preserving rotation and erase/re-insert give every window the same order, for every index in range |
| TabOrder.DragAndInsertDifferGlobally | src/application/AppControllerWorkspaceTransfers.cpp:204-217 | though their global lists differ, as an example with three tabs shows |
| WorkspaceWindows.AppController.CollectWindow | src/application/AppControllerWorkspaceTransfers.cpp:43-46 | the collected tabs are those of the window in global order |
| WorkspaceWindows.AppController.RotateInto | src/application/AppControllerWorkspaceTransfers.cpp:53-56 | whichever way it rotates, the tab ends at the destination with the rest in order |
| WorkspaceWindows.AppController.OverwriteWindow | src/application/AppControllerWorkspaceTransfers.cpp:57-60 | the loop fills the window's slots with the new order and touches no other slot |
| WorkspaceWindows.AppController.MoveTerminalTab | src/application/AppControllerWorkspaceTransfers.cpp:35-66 | the new view and the answer for every id, index and outcome of the save |
| WorkspaceWindows.AppController.DetachTerminalWorkspace | src/application/AppControllerWorkspaceTransfers.cpp:132-153 | the new view and the answer; a tab alone in its own window stays |
| WorkspaceWindows.AppController.ReattachTerminalWorkspace | src/application/AppControllerWorkspaceTransfers.cpp:155-187 | the new view and the answer, for both ways back: as a pane of the tab it came from, or as a tab of the main window |
| WorkspaceWindows.AppController.FindInsertion | src/application/AppControllerWorkspaceTransfers.cpp:209-216 | the loop finds the position of the window's tab with the target index, or the end |
| WorkspaceWindows.AppController.InsertTerminalWorkspace | src/application/AppControllerWorkspaceTransfers.cpp:189-224 | the new view and the answer, with an unknown window refused |
| WorkspaceWindows.AppController.ApplyTerminalTransfer | src/application/AppControllerWorkspaceTransfers.cpp:76-92 | the method computes the view and the answer that `WorkspaceOutcomes.TransferOutcome` is about; a transfer without effect only focuses the pane |
| WorkspaceWindows.AppController.DetachTerminalPane | src/application/AppControllerWorkspaceTransfers.cpp:104-130 | the new view and the id of the tab that holds the pane now; nothing changes on failure |
| WorkspaceWindows.AppController.ActivateTerminalPane | src/application/AppController.cpp:5414-5438 | focus, active tab and saved active tab move together |
| WorkspaceWindows.AppController.ToggleActiveTerminalTabPinned | src/application/AppController.cpp:5304-5316 | only an existing tab can be pinned |
| WorkspaceWindows.AppController.PublishTerminalOwnership | src/application/AppControllerWorkspaceTransfers.cpp:235-259 | the nested loops register the sessions as the published view says, whatever tab they were registered under before |
| WorkspaceWindows.ClaimAllOwns | src/application/AppControllerWorkspaceTransfers.cpp:240-251 | if no pane is in two tabs, afterwards every session whose pane is a leaf of some tab is registered under this tab |
| WorkspaceWindows.PublishedIsCoherent | src/application/AppControllerWorkspaceTransfers.cpp:235-259 | publishing makes any state with distinct tabs and panes and an existing active tab coherent: registry, pins, active tab and focused session |
| WorkspaceWindows.StepKeepsCoherent | src/application/AppControllerWorkspaceTransfers.cpp:35-259 | every operation keeps the view coherent, whether or not its save succeeds |
| WorkspaceWindows.RunKeepsCoherent | src/application/AppControllerWorkspaceTransfers.cpp:35-259 | and so does every run of operations: each session is registered under the tab that shows its pane, pins and the active tab exist, and the focused session is that of the active tab's active pane |
| WorkspaceWindows.MoveAndInsertAgree | src/application/AppControllerWorkspaceTransfers.cpp:189-224 | `moveTerminalTab` and `insertTerminalWorkspace` into the tab's own window both succeed and give every window the same tabs in the same order |
| WorkspaceWindows.DetachThenReattach | src/application/AppControllerWorkspaceTransfers.cpp:132-187 | detaching a main-window tab opens a window with just this tab, and reattaching restores every window's order, the registry and the pins; all that is left is that the tab is active and focused and its return address is cleared |
| WorkspaceOutcomes.TransferOutcome | src/application/AppControllerWorkspaceTransfers.cpp:76-92 | false leaves the view as it was; true needs free tabs, a possible request and a save (or no change), and then every tab shows what was promised, each session is registered under the tab of its pane, and the transferred pane's session is in the active tab with the focus |
| WorkspaceOutcomes.ActivateOutcome | src/application/AppController.cpp:5414-5438 | true iff the pane has a session in an existing tab; then this tab and session are active, the pane is the tab's active one, and nothing else changes |
| WorkspaceOutcomes.DetachOutcome | src/application/AppControllerWorkspaceTransfers.cpp:132-153 | true iff the tab exists, is free and is saved or alone in a window already; otherwise it gets the new window without return address, and every other tab stays |
| WorkspaceOutcomes.ReattachOutcome | src/application/AppControllerWorkspaceTransfers.cpp:155-187 | when it is true; a single pane goes to the right of the active pane of the tab it came from, if that has room, with the focus; any other tab comes back to the main window as the active one |
| WorkspaceOutcomes.InsertOutcome | src/application/AppControllerWorkspaceTransfers.cpp:189-224 | when it is true; then the window's other tabs keep their order with the tab at the index or behind them, it is active, and its return address is gone iff it changed windows |
| WorkspaceOutcomes.DetachPaneOutcome | src/application/AppControllerWorkspaceTransfers.cpp:104-130 | the only pane of a tab takes the tab along; another one becomes the last tab, active, in a window of its own, and remembers the tab it came from, which gives its room to the neighbour; the answer is the tab's id, or empty and nothing has changed |
| WorkspaceOutcomes.MoveOutcome | src/application/AppControllerWorkspaceTransfers.cpp:35-66 | the tab is named by its id or by one of its sessions; true iff the rank exists in its window and it is saved or there already; then it has this rank, its window's other tabs keep their order, and so do all other windows |
| WorkspaceOutcomes.ToggleOutcome | src/application/AppController.cpp:5304-5316 | exactly the active tab's pin changes, if there is an active tab |
| LaunchScheduler.LaunchController.OpenRequest | src/application/AppControllerLaunch.cpp:10-17 | whether the request is taken, and the state after the first attempt to serve it |
| LaunchScheduler.LaunchController.ProcessNextLaunch | src/application/AppControllerLaunch.cpp:19-99 | the method makes the one attempt that `LaunchOutcomes.TurnExactly` is about, in every combination of request, catalog and outside outcome |
| LaunchScheduler.LaunchController.StartLaunchConnection | src/application/AppControllerLaunch.cpp:129-176 | whether a connection started, with the outcome told once, also where the detach fails |
| LaunchScheduler.LaunchController.DeliverCallback | src/application/AppControllerLaunch.cpp:34-44 | a posted callback is used up before it tries the next request |
| LaunchScheduler.LaunchController.FinishLaunchCredentialRead | src/application/AppControllerLaunch.cpp:101-114 | a finished read ends its request with one outcome and goes on, unless the application is shutting down |
| LaunchScheduler.LaunchController.CompleteLaunchAuthentication | src/application/AppControllerLaunch.cpp:116-127 | an answer ends the pending request only if it cancels or connects; a failed attempt keeps the prompt |
| LaunchScheduler.LaunchController.BeginShutdown | src/application/AppController.cpp:2755-2766 | shutting down drops what waits |
| LaunchScheduler.InitialIsGood | src/application/AppControllerLaunch.cpp:10-127 | the initial state satisfies the invariant of `NextKeepsGood` |
| LaunchScheduler.NextKeepsGood | src/application/AppControllerLaunch.cpp:10-127 | each event keeps the invariant: a non-empty queue has a read in flight, a prompt or a posted callback; never both busy and pending; at most 32 queued; accepted = served in order, then the waiting one, then the queue; outcomes are signalled once each |
| LaunchScheduler.RunsAreGood | src/application/AppControllerLaunch.cpp:10-176 | so the invariant holds after every run |
| LaunchScheduler.OnePromptAtATime | src/application/AppControllerLaunch.cpp:92-99 | while a prompt is unanswered no event asks for another |
| LaunchScheduler.NothingAfterShutdown | src/application/AppControllerLaunch.cpp:12-22 | after the shutdown began nothing is accepted, served, asked or signalled any more |
| LaunchScheduler.DrainingMakesProgress | src/application/AppControllerLaunch.cpp:19-127 | each callback, finished read and ending answer lowers the measure |
| LaunchScheduler.EverythingIsServed | src/application/AppControllerLaunch.cpp:19-127 | once submissions stop, at most that many events follow, and when none is left all accepted requests have been served in the order of acceptance |
| LaunchOutcomes.TurnExactly | src/application/AppControllerLaunch.cpp:19-99 | what becomes of the request whose turn it is: a local one opens iff its shell is automatic or available, the terminal opens and the window works; a password file is read first; an agent's or a profile's connection opens iff its profile exists, it builds, starts and the window works; the user is asked iff no file and no agent is given and no profile, or one that exists but does not connect |
| LaunchOutcomes.EventExactly | src/application/AppControllerLaunch.cpp:10-176 | for every state and event: which requests end and as what, what is told and asked, in this order, and what is queued, read, asked about and posted afterwards |
| LaunchOutcomes.RunsEndAsDue | src/application/AppControllerLaunch.cpp:10-176 | in every run the requests served are exactly those that its events end, each with the outcome due in that event |
| ShellQuoting.StartupCommandReadsBack | src/application/AppControllerLaunch.cpp:157-164 | by the quoting rules of POSIX.1-2017, sections 2.2.1 and 2.2.2 of the Shell Command Language, the command line is the words `cd`, `--` and the directory itself, and the old start command follows untouched; without a directory it is all there is |
| ShellQuoting.QuotingIsInjective | src/application/AppControllerLaunch.cpp:159-163 | different directories give different commands |
| InstanceRequests.ApplicationInstance.constructor | src/application/ApplicationInstance.cpp:22-53 | the server starts not ready, with nothing acknowledged and nothing dispatched |
| InstanceRequests.ApplicationInstance.Receive | src/application/ApplicationInstance.cpp:28-47 | the sender is answered iff the message is valid and there is room; every answered request is pending or dispatched, once and in order |
| InstanceRequests.ApplicationInstance.Dispatch | src/application/ApplicationInstance.cpp:123-131 | the signals of one request |
| InstanceRequests.ApplicationInstance.SetReady | src/application/ApplicationInstance.cpp:133-139 | everything acknowledged so far has been dispatched exactly once, in order |
| InstanceRequests.ApplicationInstance.Release | src/application/ApplicationInstance.cpp:95-101 | back to the initial state |
| InstanceRequests.SignalsLaunchTargets | src/application/ApplicationInstance.cpp:123-139 | the launch signals hand over exactly the requests with a target, once each and in order |
| InstanceRequests.SignalsExactly | src/application/ApplicationInstance.cpp:123-131 | one request emits, in this order and once each: its launch iff it has a directory, host or profile, its directory iff it has one, and an activation iff it is neither in the background nor detached |
| InstanceRequests.FirstAreBuffered | src/application/ApplicationInstance.cpp:28-47 | until the instance is ready exactly the first 32 requests that parse are acknowledged and kept, in order |
| InstanceRequests.DeliveredAreAccepted | src/application/ApplicationLaunchIntegration.h:43-46 | the scheduler accepts all of a batch that fits its queue |
| InstanceRequests.BufferedRequestsAreAccepted | src/main.cpp:4794-4803 | with at most one own launch opened first, all buffered requests with a target are accepted when the instance becomes ready |
| InstanceRequests.ToldAreAcceptedExactly | src/application/ApplicationInstance.cpp:28-47 | for every run of arrivals at a ready instance and events of its scheduler: the requests with a target whose senders were told "ok" are all accepted, in order, iff the queue had room and no shutdown had begun each time; otherwise fewer are |
| InstanceRequests.WaitingOnlyQueues | src/application/AppControllerLaunch.cpp:10-22 | while a prompt or a read is open, arrivals are queued and accepted in order up to the limit of 32 |
| InstanceRequests.FullDropsAll | src/application/AppControllerLaunch.cpp:10-17 | whatever arrives at a full queue changes nothing |
| InstanceRequests.ToldAndLost | src/application/AppControllerLaunch.cpp:10-17 | from the start: after any request that asks the user and any 32 more with a target, every further one is answered "ok" and changes nothing |
| DiagnosticsMailbox.NextKeepsGood | src/ui/AiMemoryDiagnostics.h:34-56 | each step of either thread keeps the accounting, the order and the bond between the stop flag and the last snapshot |
| DiagnosticsMailbox.RunsAreGood | src/ui/AiMemoryDiagnostics.h:34-173 | so they hold in every interleaving |
| DiagnosticsMailbox.EverySnapshotIsAccountedFor | src/ui/AiMemoryDiagnostics.h:150-173 | flushed = taken + dropped + the one in the slot, and those taken are an in-order selection of those flushed |
| DiagnosticsMailbox.FinalSnapshotIsTaken | src/ui/AiMemoryDiagnostics.h:67-75 | if the file opened, the thread ends only after taking the snapshot that `finish` flushed, with an empty slot; without write errors the file has exactly the taken snapshots |
| DiagnosticsMailbox.OnlySuccessfulWritesCount | src/ui/AiMemoryDiagnostics.h:51-52 | a run without a successful write leaves the list of written snapshots as it was |
| DiagnosticsMailbox.NothingTakenWithoutFile | src/ui/AiMemoryDiagnostics.h:35-40 | if the file did not open, nothing is taken or written, the failure is recorded and the counts still add up |
| DiagnosticsMailbox.WriterEndsAfterStop | src/ui/AiMemoryDiagnostics.h:42-55 | after the stop request the writer is never blocked and every step brings it closer to its end |
| DiagnosticsMailbox.FewWriterStepsAfterStop | src/ui/AiMemoryDiagnostics.h:67-75 | in any run the writer makes at most three steps after the stop request, and then `join` returns |
| LifeCycleCounters.Counters.Track | src/ui/AiMemoryDiagnostics.h:77-140 | tracking registers the object and its document, and does nothing for what is registered already |
| LifeCycleCounters.Counters.Register | src/ui/AiMemoryDiagnostics.h:79-93 | one registration changes the counters of its own key only and keeps them equal to what the history says |
| LifeCycleCounters.Counters.ObjectDestroyed | src/ui/AiMemoryDiagnostics.h:88-93 | the handler settles the object under the key it was registered with |
| LifeCycleCounters.Counters.CountersAddUp | src/ui/AiMemoryDiagnostics.h:84-92 | for every key: created = live + destroyed, live is the number of objects registered under it, and the peak is the largest live count of the whole history, reached at some time |
| LifeCycleCounters.RegisterOne | src/ui/AiMemoryDiagnostics.h:85-87 | the peak stays the largest live count of the history when an object comes |
| LifeCycleCounters.UnregisterOne | src/ui/AiMemoryDiagnostics.h:88-93 | and when one goes |
| IconWriter.ByteVector.AppendWord | tools/WindowsIconGenerator.cpp:36-40 | two bytes, the lower one first |
| IconWriter.ByteVector.AppendDword | tools/WindowsIconGenerator.cpp:42-46 | four bytes, the lowest first |
| IconWriter.WordReadsBack | tools/WindowsIconGenerator.cpp:36-40 | reading the two bytes of any value gives it modulo 2^16 |
| IconWriter.DwordReadsBack | tools/WindowsIconGenerator.cpp:42-46 | reading the four bytes of any value gives it modulo 2^32 |
| IconWriter.WriteDirectory | tools/WindowsIconGenerator.cpp:136-154 | the first pass completes iff every image's byte count fits an entry, with offsets that wrap at 32 bits |
| IconWriter.WriteImages | tools/WindowsIconGenerator.cpp:156-162 | the second pass appends the images back to back |
| IconWriter.CreateIcon | tools/WindowsIconGenerator.cpp:126-164 | fails iff some image is too large; otherwise the file is header, directory and images |
| IconWriter.ImageInPlace | tools/WindowsIconGenerator.cpp:136-162 | for any images: where the second pass writes an image, and that the entry of the first pass holds this position modulo 2^32 |
| IconWriter.ImagesTileTheFile | tools/WindowsIconGenerator.cpp:136-162 | the images follow each other without gap from 6 + 16n to the end of the file |
| IconWriter.IconRoundTrip | tools/WindowsIconGenerator.cpp:126-164 | a reader of the format gets back the same sizes and images, for fewer than 2^16 images of size 1 to 256 that each fit an entry and start below 2^32; only the last may end beyond |
| IconWriter.RoundTripExactly | tools/WindowsIconGenerator.cpp:126-164 | whenever the writer succeeds, the file reads back as the images iff the count is below 2^16, the sizes are 1 to 256 and every image starts below 2^32, or has its bytes by coincidence also where the wrapped offset points |
| OpenSshImport.HostProfiles.ApplyOpenSshConfigImport | src/application/AppControllerWorkspace.cpp:107-173 | a reported error or a failed save leaves the profiles alone; otherwise the two loops do the import whose result `OpenSshFields.ImportStores` describes |
| OpenSshImport.AssignProfileIds | src/application/AppControllerWorkspace.cpp:116-127 | the first loop reuses the id of the first imported profile with the same name up to case, else takes the fresh one; a repeated alias gets the last |
| OpenSshImport.UpsertHosts | src/application/AppControllerWorkspace.cpp:128-162 | the second loop is the host-by-host upsert in which an invalid host is skipped; what it stores is `OpenSshFields.ImportStores` |
| OpenSshImport.ImportKeepsOtherProfiles | src/application/AppControllerWorkspace.cpp:116-162 | in any import, profiles outside the group are unchanged and in place, every stored profile keeps its place and id, ids stay distinct, and new ones are in the group |
| OpenSshImport.NoJumpThroughItself | src/application/AppControllerWorkspace.cpp:149-155 | no written profile jumps through itself |
| OpenSshImport.JumpAliasReads | src/application/AppControllerWorkspace.cpp:150-153 | of a jump written with or without user and port, exactly the host is looked up |
| OpenSshReimport.JumpLeadsToNamedHost | src/application/AppControllerWorkspace.cpp:129-162 | with aliases distinct up to case, a host that jumps through another imported host gets exactly that host's profile as its jump |
| OpenSshReimport.JumpsLeadSomewhere | src/application/AppControllerWorkspace.cpp:129-162 | for arbitrary valid hosts: every alias has its profile, and its jumps lead to other profiles that exist |
| OpenSshReimport.HostContent | src/application/AppControllerWorkspace.cpp:129-162 | for arbitrary valid hosts: the profile of an alias holds what the last host with the same id makes of what was stored before the import (field by field: `OpenSshFields.HoldsExactly`) |
| OpenSshReimport.IdsShared | src/application/AppControllerWorkspace.cpp:117-127 | the first pass gives two aliases the same id iff they are the same, or equal up to case and stored; an id is a stored one iff the alias is stored |
| OpenSshReimport.PassedContent | src/application/AppControllerWorkspace.cpp:129-162 | for arbitrary hosts: each id ends up with what its last valid writer makes of what was stored at first, and is untouched if it has none |
| OpenSshFields.HoldsExactly | src/application/AppControllerWorkspace.cpp:135-155 | what a host makes is the one profile with the alias as name, the group "OpenSSH", the host name, the port in 16 bits, the user without white space around it or the default user if that is blank, the key path, Agent iff there is none, no passphrase and no references, the jump to another listed host, and all other options as stored |
| OpenSshFields.ImportStores | src/application/AppControllerWorkspace.cpp:107-173 | for arbitrary stored profiles with distinct ids and arbitrary hosts: under every id the import leaves the profile of the last host with this id that can be stored, and what was there if there is none |
| Texts.TrimmedExactly | src/application/AppControllerWorkspace.cpp:141-142 | trimming takes the white space off both ends, all of it and nothing else |
| OpenSshReimport.LaterIds | src/application/AppControllerWorkspace.cpp:117-127 | a second import finds, for every alias, the stored profile of its class or the one made for the first host of its class, whatever fresh ids are offered |
| OpenSshReimport.ReimportIsFixedExactly | src/application/AppControllerWorkspace.cpp:107-173 | for arbitrary stored profiles with distinct ids and arbitrary valid hosts, repeated and alike aliases included: a second import changes nothing iff the list is settled |
| OpenSshReimport.ReimportIsFixedPoint | src/application/AppControllerWorkspace.cpp:107-173 | so with aliases distinct up to case, distinct stored ids and valid hosts, importing the same list again changes nothing |
| OpenSshReimport.TwinIsRenamed | src/application/AppControllerWorkspace.cpp:121-126 | otherwise, in a class not stored before, the profile of the first host takes the name of the last one |
| OpenSshConfig.LoaderDeliversExactly | src/infrastructure/ssh/OpenSshConfigImporter.cpp:130-135 | sorting and dropping neighbours deliver exactly the lists that are strictly sorted by alias without neighbours equal up to case |
| OpenSshConfig.LoaderKeeps | src/infrastructure/ssh/OpenSshConfigImporter.cpp:130-135 | of the parsed hosts with one alias only the first is delivered, and no alias is lost but to one equal up to case that is delivered directly before its place |
| OpenSshConfig.SettledIfTwinsStored | src/infrastructure/ssh/OpenSshConfigImporter.cpp:130-135 | for such lists the condition comes down to: hosts equal up to case have a name that is stored already |
| OpenSshConfig.ReloadIsFixedExactly | src/application/AppControllerWorkspace.cpp:107-173 | importing an unchanged configuration twice changes nothing the second time iff that holds |
| OpenSshConfig.CaseTwinsAreNotFixed | src/infrastructure/ssh/OpenSshConfigImporter.cpp:130-135 | the loader delivers "DB", "a", "db", and importing them twice into any store without such a name renames the profile "DB" to "db" |
| OpenSshConfig.ValidHostsAreImportable | src/domain/ssh/SshProfile.cpp:206-247 | hosts whose fields pass the validator's checks are valid in both imports, from any store with distinct well-formed ids |
| OpenSshConfig.ReimportOfValidHosts | src/application/AppControllerWorkspace.cpp:107-173 | for such hosts the stored profiles and the list alone decide whether a second import changes anything |
| Themes.ActiveFollowsPolicy | src/application/AppControllerThemes.cpp:56-87 | without a preview the active theme is the one the shown policy names, and in system mode it is as dark as the system |
| Themes.PreviewShows | src/application/AppControllerThemes.cpp:197-216 | a preview shows the named theme whatever the policy, an unknown one changes nothing, and ending it shows the saved theme |
| Themes.SavedThemeStays | src/application/AppControllerThemes.cpp:172-195 | a saved theme is shown whatever was previewed and whatever the system switches to; when it is removed later, the built-in theme that is as dark takes its place |
| Themes.RemovalExactly | src/application/AppControllerThemes.cpp:236-256 | removing takes exactly this theme out of the catalog, ends its preview and no other, and changes the active theme only if it was this one |
| Themes.SwitchShows | src/application/AppControllerThemes.cpp:111-118 | the system's darkness decides that of the active theme in system mode without preview, and nothing otherwise |
| Themes.PersistShows | src/application/AppController.cpp:17059-17124 | saved settings are the policy shown from then on, as far as their themes exist in the right darkness; unsaved ones change nothing |
| Themes.ImportOffers | src/application/AppControllerThemes.cpp:218-234 | imported themes can be previewed by their ids, and no other theme is touched |
| Themes.ThemeController.OpenSession | src/application/AppControllerThemes.cpp:120-133 | a new session starts with the active colours |
| Themes.ThemeController.ApplyTerminalThemeToSessions | src/application/AppControllerThemes.cpp:135-142 | makes all sessions coherent from any state |
| Themes.ThemeController.SetSystemDarkMode | src/application/AppControllerThemes.cpp:111-118 | sessions stay coherent although nothing is pushed in a fixed mode or during a preview |
| Themes.ThemeController.PersistApplicationSettings | src/application/AppController.cpp:17059-17124 | a failed save changes nothing; otherwise the settings change and the sessions stay coherent, also during a preview |
| Themes.ThemeController.SaveTerminalTheme | src/application/AppControllerThemes.cpp:172-195 | succeeds iff the theme exists and the save does, and then this theme is active, without a preview, in the mode of its darkness |
| Themes.ThemeController.SaveThemePolicy | src/application/AppControllerThemes.cpp:89-109 | succeeds iff the mode is known, all themes exist, light and dark ones are so and the save succeeds; the policy shown afterwards is the one saved |
| Themes.ThemeController.PreviewTerminalTheme | src/application/AppControllerThemes.cpp:197-206 | an unknown theme changes nothing; sessions stay coherent |
| Themes.ThemeController.EndTerminalThemePreview | src/application/AppControllerThemes.cpp:208-216 | the sessions return to the saved theme |
| Themes.ThemeController.RemoveTerminalTheme | src/application/AppControllerThemes.cpp:236-256 | succeeds iff the theme is an imported one whose file goes; the test of the three slots suffices to keep all sessions coherent |
| Themes.ThemeController.ImportTerminalThemeFile | src/application/AppControllerThemes.cpp:218-234 | the sessions stay coherent iff the condition of `ImportEffect` holds or there are none |
| Themes.ThemeController.Perform | src/application/AppControllerThemes.cpp:89-256 | every sequence of these operations keeps every session in the active colours, if none of its imports is of the harmful kind |
| Themes.ImportEffect | src/application/AppControllerThemes.cpp:218-234 | an import keeps the active colours iff a preview is shown, the slot in effect is not among the new ids, the new theme has the wrong darkness for the system, or its colours equal the default's |
| Themes.ImportCanLeaveSessionsBehind | src/application/AppControllerThemes.cpp:218-234 | an import under a saved id that had no theme changes the active colours without telling the sessions |
| SnapshotWorker.NextKeepsGood | tools/terminal_image_memory_probe.cpp:35-73 | each step of either thread, spurious wake-ups included, keeps the invariant of the hand-off |
| SnapshotWorker.RunsAreGood | tools/terminal_image_memory_probe.cpp:35-73 | so it holds in every interleaving |
| SnapshotWorker.EachCaptureGetsItsOwnResult | tools/terminal_image_memory_probe.cpp:56-66 | the k-th capture returns what the k-th operation gave in its one and only execution |
| SnapshotWorker.SlotIsEmptyAtDeposit | tools/terminal_image_memory_probe.cpp:60-63 | no task is ever overwritten |
| SnapshotWorker.NothingIsLeftUnrun | tools/terminal_image_memory_probe.cpp:42-50 | when the worker has ended, every operation has run and every call has its result |
| SnapshotWorker.NeverStuck | tools/terminal_image_memory_probe.cpp:56-66 | no wake-up is lost: a call or destruction in progress always has a next step besides a spurious wake-up |
| SnapshotWorker.CallsReturn | tools/terminal_image_memory_probe.cpp:35-73 | a call or destruction ends after at most seven steps of the two threads, beyond two for each spurious wake-up |
| NotificationLimiter.StatusController.UpdateTerminalStatus | src/application/AppControllerTerminalStatus.cpp:7-35 | the method makes the decision that `GoesOutExactly` is about, for one snapshot, and stores the limiter's next state |
| NotificationLimiter.EmissionsAreSpaced | src/application/AppControllerTerminalStatus.cpp:17-24 | in every run over all tabs, emissions are at least two seconds apart, whatever the clock does |
| NotificationLimiter.GoesOutExactly | src/application/AppControllerTerminalStatus.cpp:7-25 | in every run over all tabs, whatever the clock does: a notification goes out iff the tab's previous snapshot, if it had one, did not show it, no shutdown has begun, the pause pending at the start is over and every notification that went out before did so at least two seconds ago |
| NotificationLimiter.RateIsLimited | src/application/AppControllerTerminalStatus.cpp:19-24 | in any interval of T milliseconds all tabs together emit at most T/2000 + 1 notifications |
| NotificationLimiter.ReplaysAreSilent | src/application/AppControllerTerminalStatus.cpp:11-18 | as long as a tab keeps showing the same notification, whatever the others do, it emits nothing |
| NotificationLimiter.NowOrNever | src/application/AppControllerTerminalStatus.cpp:17-24 | a notification goes out with the snapshot that first shows it or not at all: one that falls into the pause is lost |
| NotificationLimiter.SilentAfterShutdown | src/application/AppControllerTerminalStatus.cpp:17-18 | after the shutdown began nothing is emitted |

## Left out

- Everything drawn: Qt widgets, QML, viewports, SVG and PNG rendering, translations, clipboard, fonts, and the signals whose only effect is a repaint.
- Sockets, lock files, process start, foreground rights and the JSON forms of requests and themes; whether a message parses is a parameter.
- Parsing OpenSSH configuration files; what the loader does with the parsed hosts is modelled.
- The validity of a launch request itself (`request.valid()`), of a profile (`validSshProfile`) and of a connection request, and case folding: parameters.
- WorkspaceTransfer.TransferTerminalWorkspace: returns the new state instead of assigning it; the source works on a copy and assigns it as a whole, so the update in place of that copy is not modelled.
- WorkspaceState.ValidState: does not cover profiles, collapsed host sections and window geometry, which no modelled operation touches.
- White space at the ends of texts is the ASCII one; the source's trimming also takes other Unicode spaces.
- Encodings: texts are sequences of characters, and the limits on their length count characters, not the source's UTF-8 bytes.  Ratios are reals, so the test for NaN and infinities has no counterpart.
- Sessions are records in a sequence.  The source owns each by a unique pointer and the modelled operations never share one, so aliasing cannot arise.  Viewports and the focused terminal widget are not part of the view.
- Opening, closing and splitting tabs, resizing splits, restoring a saved workspace and `rememberTerminalWindow`.
- Handlers are taken to run to completion without calling back into the modelled objects; a nested event loop inside a signal handler is not modelled.
- The content of credential files, secrets, host keys and the connection itself; opening a terminal or a connection is one outcome.
- ShellQuoting.StartupCommandReadsBack: quoting is that of a POSIX shell reading the line; other remote shells and terminals that alter the bytes are not modelled.
- DiagnosticsMailbox.NextKeepsGood: waiting is a step that is possible once its condition holds; the condition variable behind it is modelled only in `SnapshotWorker`.
- LifeCycleCounters.Counters.Track: does not model the counters of sizes, layouts and text updates; counter names are pairs of key and counter, so clashes between concatenated names are not modelled.
- Themes.ThemeController.ImportTerminalThemeFile: the reload after an import or removal is taken to find what the application itself wrote; theme files changed by others meanwhile are not modelled.
- The text of a notification and the window it names; the measured clock is a parameter.
