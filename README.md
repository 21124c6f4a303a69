# Replication bookkeeping of the collaborative editor's controller

This project models the replication bookkeeping of the peer-to-peer editor's
`Controller` (`lib/controller.js`). The controller sits between the operations
peers send and the local document. The model covers four parts:

- **Gate and causal delivery buffer.** A received operation whose version is
  already applied is dropped. An insert is applied at once. A delete is
  appended to the buffer. The buffer is then swept once, in place: a delete is
  applied and spliced out exactly when the insert it targets counts as applied.
  The operation is then passed on to the mesh.
- **Membership table.** This is the list of `{peerId, siteId}` rows.
  - Adding de-duplicates on the site id.
  - Removing drops the first row of a peer.
  - Re-linking picks among the rows whose peer is neither connected outbound
    nor this peer.
- **Sync adoption.** Every row of a received table is merged. The received
  document and versions are adopted only when the local document is empty.
- **Editor coordinates.**
  - A typed run of characters moves a `{line, ch}` cursor. After a newline it
    goes to column 0 of the next line.
  - The range handed to the editor for a remote insert is empty.
  - The range for a remote newline delete reaches the start of the next line.

The collaborators the controller calls are modelled by their observable
interface, not their internals:

- The version vector is the set of `(siteId, counter)` stamps it counts as
  applied. Its applied check is set membership and its update adds a stamp.
- The document store, the broadcast layer, the editor widget and the peer-list
  widget are recorded as the sequences of calls the controller makes into them.

Files:

- `wire.dfy`: the records exchanged: characters, operations, versions, rows,
  coordinates, and the call records.
- `causal.dfy`: the sweep as a function on values, its properties, the
  in-place loop as a function, and the receive step.
- `membership.dfy`: adding, merging and removing rows, and re-link candidates.
- `vector.dfy`: the stamps a wire version stands for.
- `editor_coords.dfy`: coordinate arithmetic and its reference definition.
  `PosAfter(prefix)` is the coordinate of the gap right after `prefix`.
- `seqs.dfy`: order-preserving subsequences.
- `controller.dfy`: the `Controller` class. Its fields `buffer`, `network`,
  `applied` and the call logs are updated in place by its methods.

Behaviour of `lib/controller.js` worth noting:

- The buffer is swept once per received operation, in a single left-to-right
  pass. It is not repeated until a pass makes no progress.
  `Causal.SweepReachesFixedPoint` shows that the single pass already reaches
  the fixed point when applying one delete never unblocks another.
- An operation whose type is neither insert nor delete is not applied. It is
  not buffered and does not reach the version vector, but it still triggers
  the sweep and is passed on to the mesh.
- A delete that arrives again while it is still waiting in the buffer passes
  the version check again. The reason is that its version is recorded only
  once it is applied. It is then buffered a second time
  (`Causal.ReceiveDeleteAgain`).
- The local site's own row is in the table (a sync message lists it) but has
  no entry in the peer list. Removing that row splices it out and then fails
  when the list entry is taken away, so the cursor removal and the removal
  announcement never happen (`Replication.Controller.RemoveFromNetwork`).

## Model

| member | source | states |
|---|---|---|
| Replication.Controller.constructor | lib/controller.js:15-43 | A new controller starts with an empty buffer, an empty table and no applied stamps. It points the page at the target peer and satisfies the class invariant. |
| Replication.Controller.ApplyOperation | lib/controller.js:964-976 | An insert reaches the store as a remote insert. A delete reaches it as a remote delete tagged with the version's site. Any other kind reaches nothing. In every case the operation's version is added to the vector. |
| Replication.Controller.ProcessDeletionBuffer | lib/controller.js:943-957 | The in-place splice loop leaves exactly the buffer, vector and store calls of one pass of `Causal.Sweep` over the old buffer. The buffer never grows and still holds deletes only. |
| Replication.Controller.HandleRemoteOperation | lib/controller.js:930-941 | The new buffer, vector, store calls and broadcasts are those of `Causal.Receive` on the old state, and the buffer still holds only deletes. |
| Causal.SweepFromIsSweep | lib/controller.js:944-956 | The splice-in-place loop, run from any index, keeps the examined prefix. It then ends with what one pass over the rest keeps, applies and sends to the store, in order. |
| Causal.SweepPartition | lib/controller.js:943-957 | Every buffered entry is either kept or applied, never both and never lost (as multisets). Both parts keep their original relative order. The buffer never grows. The vector gains exactly the versions of the applied entries. |
| Causal.SweepAppliesOnlySatisfied | lib/controller.js:950-962 | An entry is applied only if its target was in the vector at the moment it was examined: the starting stamps plus the versions of the entries applied before it. |
| Causal.SweepKeepsUnsatisfied | lib/controller.js:950-955 | No entry left in the buffer has its target in the set the sweep started from. |
| Causal.SweepAppend | lib/controller.js:947-956 | A pass over two runs of entries is the pass over the first, then the pass over the second from the applied set the first leaves. |
| Causal.SweepDecidesAtExamination | lib/controller.js:950-962 | Each entry is decided against the applied set as the entries before it leave it. With its target missing from that set it is kept, right after the entries kept before it. Otherwise it is applied, right after the entries applied before it. |
| Causal.SweepNoProgress | lib/controller.js:947-956 | When no buffered target is applied, the sweep changes nothing. |
| Causal.SweepReachesFixedPoint | lib/controller.js:943-957 | If applying a delete never unblocks another one, every entry left after one pass is still blocked, and a second pass changes nothing. |
| Causal.ReceiveDeleteAgain | lib/controller.js:930-937 | A delete delivered again while it still waits, with nothing in the buffer unblocked, passes the version check and is appended a second time: the buffer then holds one more copy of it. |
| Causal.SweepSnoc | lib/controller.js:936-962 | A delete appended at the end of the buffer is examined last. It is applied exactly when its target is in the vector as the earlier entries leave it; otherwise it stays at the end. |
| Causal.ReceiveDuplicate | lib/controller.js:931 | An operation whose version is already applied changes nothing: not the buffer, the vector or the store, and it is not passed on. |
| Causal.ReceiveInsert | lib/controller.js:930-941 | A new insert reaches the store before anything else the call does, and its version is recorded. Every buffered delete that targets it leaves the buffer. The buffer does not grow. The insert is passed on exactly once. |
| Causal.ReceiveDelete | lib/controller.js:930-941 | A new delete is never applied ahead of the deletes already waiting. It is applied in this call exactly when its target is applied after the earlier entries; otherwise it waits at the end of the buffer. It is passed on exactly once. |
| Replication.Controller.AddToNetwork | lib/controller.js:269-279 | A known site leaves the table, the peer list and the broadcasts unchanged. An unknown site appends one row and is announced to the mesh. It is shown in the peer list unless it is the local site. At most one row per site is kept. |
| Membership.AddMemberSpec | lib/controller.js:270-271 | Adding keeps one row per site and leaves the site present. A known site leaves the table unchanged; an unknown one appends exactly `{peerId, siteId}` at the end. |
| Membership.AddMembersSpec | lib/controller.js:900 | Merging a list of rows keeps the old table as a prefix and one row per site. Every merged site is present afterwards, and every row comes from one side or the other. |
| Replication.Controller.RemoveFromNetwork | lib/controller.js:280-289 | With no row for the peer, nothing changes. Otherwise the first row of the peer is spliced out. When that row is the local site's own, which has no peer-list entry, the call fails there and makes no other call. Otherwise the entry leaves the peer list, the cursor of that row's site is removed, and the removal is announced. |
| Membership.FirstPeerIndex | lib/controller.js:281-282 | Returns -1 exactly when no row belongs to the peer. Otherwise it returns the index of the first row that does. |
| Membership.RemoveMemberFirstMatch | lib/controller.js:281-285 | Removing drops exactly the first row of the peer and keeps all other rows in order. |
| Membership.RemoveMemberNoMatch | lib/controller.js:283-284 | With no row for the peer, the table is unchanged. |
| Membership.RemoveMemberKeepsRows | lib/controller.js:281-285 | The remaining rows are a subsequence of the old table, and one row per site still holds. |
| Membership.Unconnected | lib/controller.js:879-882 | Keeps exactly the rows whose peer has no outbound connection, each as often as in the table, in table order. |
| Membership.NotPeer | lib/controller.js:884-886 | Keeps exactly the rows whose peer is not the local peer, each as often as before, in order. |
| Membership.Candidates | lib/controller.js:878-886 | The re-link candidates are exactly the rows whose peer is neither connected outbound nor the local peer, each as often as in the table, in table order. |
| Replication.Controller.FindNewTarget | lib/controller.js:878-894 | With no candidate, it waits for an inbound connection. Otherwise it picks a candidate by an in-bounds index and requests a connection from it with the local peer and site. The target is never connected and never the local peer. |
| Replication.Controller.MergeNetwork | lib/controller.js:900 | Adds every received row in order. The table becomes the merge of the received rows, and the old table stays a prefix. Each appended row is announced, and each appended row of another site is shown. |
| Replication.MergeStep | lib/controller.js:900 | Adding one more received row keeps the merge on track: the table, its announcements and its shown peers are those of merging the longer prefix. |
| Replication.Controller.HandleSync | lib/controller.js:897-909 | The page points at the sender. Every received row is merged through the single-row add. The document and versions are adopted exactly when the local document is empty; otherwise the store, editor and vector are untouched. |
| Replication.Controller.PopulateCRDT | lib/controller.js:245-256 | The received document replaces the store's content, and the editor is shown that content. |
| Replication.Controller.PopulateVersionVector | lib/controller.js:258-267 | The vector gains exactly the stamps the received versions cover. |
| Vector.CoveredAllSpec | lib/controller.js:258-267 | A stamp is covered exactly when some received version of its site reaches its counter and does not list it as an exception. |
| Replication.Controller.LocalInsert | lib/controller.js:982-991 | Each character goes to the store at the position the reference placement gives it. The cursor ends one column right of the last character placed. |
| EditorCoords.PlacementStep | lib/controller.js:983-990 | The first character goes at the start. A character after a newline goes to column 0 of the next line; any other goes one column right of its predecessor. Its line is the start line plus the newlines before it. |
| EditorCoords.PlacementsInText | lib/controller.js:983-990 | Placed at the gap after some text, each character lands at the coordinate it actually has in the resulting text. |
| EditorCoords.FinalCursorAfterText | lib/controller.js:982-991 | The line moves once per newline among all characters but the last. The cursor ends right after the text unless the text ends in a newline, in which case it stays on that newline's line. |
| Replication.Controller.InsertIntoEditor | lib/controller.js:1013-1026 | The editor is asked to insert the value over an empty range at the given coordinate. |
| Replication.Controller.DeleteFromEditor | lib/controller.js:1028-1056 | The editor is asked to delete over the range `DeleteRange`: to the start of the next line for a newline, one column right for anything else. |
| EditorCoords.DeleteRangeCoversChar | lib/controller.js:1013-1056 | At any gap the insert range is empty. The delete range of a character placed there runs from the gap before it to the gap after it in the text: exactly that one character, a newline included. |

## Left out

- Browser presentation is not modelled:
  - the DOM, clipboard and modal dragging;
  - the shared-link display;
  - the rendering of the peer list. Only which peers are shown or hidden is kept.
- Video calling and media handling are not modelled. They are asynchronous device and UI plumbing.
- `connectToPeer` and `showConnectStatus` are not modelled. They are network I/O driven by timers.
- `syncCompleted`, `enableEditor` and the browser history update inside `updatePageURL` are not modelled. They are transport and page I/O. Only the `urlId` assignment is kept.
- `localDelete` and `broadcastDeletion` forward their arguments to collaborators. `broadcastInsertion` also stamps the operation with the vector's local version (lib/controller.js:997). How the local site's own stamps enter the vector is not shown, so `applied` gains stamps only from received operations and sync. These three are not part of this model.
- The internals of the document store, version vector, identifier, character and broadcast classes are not modelled, because their source is not part of this model:
  - The store is the list of calls it receives.
  - `totalChars()` is an input of `HandleSync`.
  - Copying a character and its identifiers into fresh objects is the identity.
- The vector's own representation (one clock per site with exceptions) and its handling of duplicate site entries are not modelled. Only the set of stamps it counts as applied is kept.
- `Replication.Controller.PopulateVersionVector`: this reading means that pushing the received versions unions their stamps into that set.
- `Replication.Controller.LocalInsert`: the store receives each coordinate as a value. The aliasing of the one cursor object, which the store could keep and observe changing, is not modelled.
- `Replication.Controller.LocalInsert`: one model `char` stands for one UTF-16 code unit of the JavaScript string, which is what the loop indexes and counts. A character outside the Basic Multilingual Plane is two code units in the source, giving two store calls and two columns, where the model gives one of each.
- `Replication.Controller.RemoveFromNetwork`: the model takes the peer-list entry of a removed row to exist exactly when the row belongs to another site. A table in which two rows share a peer id, so that an earlier removal already took the entry away, is not modelled. The failure is reported as a result; how the exception reaches the caller is not modelled.
- `Replication.Controller.FindNewTarget`: the random choice is a nondeterministic in-bounds index. The uniform distribution is not modelled.
- `Replication.Controller.FindNewTarget`: the callback that re-points the page when an inbound connection arrives is recorded as a wait for a connection. It is not run.
- Window, server and permission bootstrapping (`electron-main.js`: the Express server, the mounted peer server, the window and the permission handlers) is not part of this model; it is process start-up and I/O. Object and configuration construction (`lib/main.js`, `lib/demo.js`, `lib/peerConfig.js`) is not part of this model either; it holds no controller logic.
