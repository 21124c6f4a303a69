/**
 * The replication controller: the layer between received operations and the
 * document. It owns the delete buffer and the membership table; the version
 * vector is its set of applied stamps, and the document store, the broadcast
 * layer, the editor widget and the peer list are recorded as the calls the
 * controller makes into them.
 */
module Replication {
  import opened Wire
  import opened Seqs
  import opened Causal
  import opened Membership
  import opened EditorCoords
  import opened Vector

  /** A {line, ch} record that the insert loop moves in place. */
  class Cursor {
    var line: nat
    var ch: nat

    constructor (line: nat, ch: nat)
      ensures this.line == line && this.ch == ch
    {
      this.line := line;
      this.ch := ch;
    }
  }

  /** The store calls of a local multi-character insert starting at `start`. */
  function LocalInserts(chars: string, start: Pos): (calls: seq<CrdtCall>)
    ensures |calls| == |chars|
  {
    seq(|chars|, i requires 0 <= i < |chars| => HandleLocalInsert(chars[i], Placements(chars, start)[i]))
  }

  /** The broadcast announcements of rows appended to the table. */
  function Announcements(ms: seq<Member>): seq<BroadcastCall>
  {
    if ms == [] then []
    else Announcements(ms[..|ms| - 1]) + [AnnounceMember(ms[|ms| - 1].peerId, ms[|ms| - 1].siteId)]
  }

  /** The peer-list entries shown for rows appended to the table; the local site is not listed. */
  function ShownPeers(ms: seq<Member>, localSite: SiteId): seq<PeerListCall>
  {
    if ms == [] then []
    else
      var m := ms[|ms| - 1];
      ShownPeers(ms[..|ms| - 1], localSite) + (if m.siteId != localSite then [ShowPeer(m.siteId, m.peerId)] else [])
  }

  /**
   * After merging `merged` into the table `net0`: the table is `net0` with the
   * rows of new sites appended, each appended row was announced, and each
   * appended row of another site was shown in the peer list.
   */
  ghost predicate MergedSoFar(net0: seq<Member>, sent0: seq<BroadcastCall>, shown0: seq<PeerListCall>,
                              merged: seq<Member>, localSite: SiteId,
                              net: seq<Member>, sent: seq<BroadcastCall>, shown: seq<PeerListCall>)
  {
    && net == AddMembers(net0, merged)
    && |net0| <= |net| && net[..|net0|] == net0
    && sent == sent0 + Announcements(net[|net0|..])
    && shown == shown0 + ShownPeers(net[|net0|..], localSite)
  }

  /** Merging one more row, with the effects of adding a single row, keeps the merge on track. */
  lemma MergeStep(net0: seq<Member>, sent0: seq<BroadcastCall>, shown0: seq<PeerListCall>,
                  entries: seq<Member>, i: nat, localSite: SiteId,
                  net: seq<Member>, sent: seq<BroadcastCall>, shown: seq<PeerListCall>,
                  net': seq<Member>, sent': seq<BroadcastCall>, shown': seq<PeerListCall>)
    requires i < |entries|
    requires MergedSoFar(net0, sent0, shown0, entries[..i], localSite, net, sent, shown)
    requires net' == AddMember(net, entries[i].peerId, entries[i].siteId)
    requires HasSite(net, entries[i].siteId) ==> shown' == shown && sent' == sent
    requires !HasSite(net, entries[i].siteId) ==>
      && shown' == shown + (if entries[i].siteId != localSite then [ShowPeer(entries[i].siteId, entries[i].peerId)] else [])
      && sent' == sent + [AnnounceMember(entries[i].peerId, entries[i].siteId)]
    ensures MergedSoFar(net0, sent0, shown0, entries[..i + 1], localSite, net', sent', shown')
  {
    var e := entries[i];
    assert entries[..i + 1][..i] == entries[..i];
    if !HasSite(net, e.siteId) {
      AppendRow(net0, net, Member(e.peerId, e.siteId), localSite);
    }
  }

  /** Appending a row to a table that extends `net0` announces it and, for another site, shows it. */
  lemma AppendRow(net0: seq<Member>, net: seq<Member>, m: Member, localSite: SiteId)
    requires |net0| <= |net| && net[..|net0|] == net0
    ensures (net + [m])[..|net0|] == net0
    ensures Announcements((net + [m])[|net0|..]) == Announcements(net[|net0|..]) + [AnnounceMember(m.peerId, m.siteId)]
    ensures ShownPeers((net + [m])[|net0|..], localSite) ==
      ShownPeers(net[|net0|..], localSite) + (if m.siteId != localSite then [ShowPeer(m.siteId, m.peerId)] else [])
  {
    var tail := (net + [m])[|net0|..];
    assert tail == net[|net0|..] + [m];
    assert tail[..|tail| - 1] == net[|net0|..];
  }

  class Controller {
    /** This site's identity. */
    const siteId: SiteId
    /** This site's transport address (the broadcast layer's peer id). */
    const ownPeerId: PeerId
    /** The peer id shown in the page address. */
    var urlId: PeerId
    /** Remote deletes waiting for the insert they target. */
    var buffer: seq<Operation>
    /** The membership table. */
    var network: seq<Member>
    /** The version vector: every (site, counter) stamp counted as applied. */
    var applied: set<Stamp>
    /** Calls made into the document store, in order. */
    var crdtLog: seq<CrdtCall>
    /** Calls made into the broadcast layer, in order. */
    var sent: seq<BroadcastCall>
    /** Calls made into the editor widget, in order. */
    var editorLog: seq<EditorCall>
    /** Changes made to the on-screen peer list, in order. */
    var peerList: seq<PeerListCall>

    /** The buffer holds deletes only, and the table holds at most one row per site. */
    ghost predicate Valid()
      reads this
    {
      AllDeletes(buffer) && UniqueSites(network)
    }

    /** The part of the state that receiving operations touches. */
    function State(): Bookkeeping
      reads this
    {
      Bookkeeping(buffer, applied, crdtLog, sent)
    }

    constructor (targetPeerId: PeerId, siteId: SiteId, ownPeerId: PeerId)
      ensures Valid()
      ensures this.siteId == siteId && this.ownPeerId == ownPeerId && urlId == targetPeerId
      ensures buffer == [] && network == [] && applied == {}
      ensures crdtLog == [] && sent == [] && editorLog == [] && peerList == []
    {
      this.siteId := siteId;
      this.ownPeerId := ownPeerId;
      urlId := targetPeerId;
      buffer := [];
      network := [];
      applied := {};
      crdtLog := [];
      sent := [];
      editorLog := [];
      peerList := [];
    }

    /** The insert that created the character `op` carries has been applied here. */
    predicate HasInsertionBeenApplied(op: Operation)
      reads this
    {
      TargetStamp(op) in applied
    }

    /** Hand an operation to the store and record its version as applied. */
    method ApplyOperation(op: Operation)
      modifies this`crdtLog, this`applied
      ensures crdtLog == old(crdtLog) + Effect(op)
      ensures applied == old(applied) + {VersionStamp(op)}
    {
      crdtLog := crdtLog + Effect(op);
      applied := applied + {VersionStamp(op)};
    }

    /**
     * One sweep over the buffer: each delete whose target counts as applied
     * when it is examined is applied and spliced out; the others stay, in order.
     */
    method ProcessDeletionBuffer()
      requires Valid()
      modifies this`buffer, this`crdtLog, this`applied
      ensures Valid()
      ensures var r := Sweep(old(buffer), old(applied));
        buffer == r.kept && applied == r.applied && crdtLog == old(crdtLog) + Effects(r.done)
      ensures |buffer| <= |old(buffer)|
    {
      ghost var goal := SweepFrom(State(), 0);
      SweepFromIsSweep(State(), 0);
      assert buffer[0..] == buffer && buffer[..0] + Sweep(buffer, applied).kept == Sweep(buffer, applied).kept;
      SweepPartition(buffer, applied);
      var i := 0;
      while i < |buffer|
        invariant SweepFrom(State(), i) == goal
        invariant AllDeletes(buffer)
        decreases |buffer| - i
      {
        var op := buffer[i];
        if HasInsertionBeenApplied(op) {
          SpliceDeletes(buffer, i);
          ApplyOperation(op);
          buffer := buffer[..i] + buffer[i + 1..];
        } else {
          i := i + 1;
        }
      }
    }

    /**
     * Receive an operation from a peer: drop it when its version is already
     * applied; otherwise apply an insert at once or buffer a delete, sweep the
     * buffer, and pass the operation on.
     */
    method HandleRemoteOperation(op: Operation)
      requires Valid()
      modifies this`buffer, this`crdtLog, this`applied, this`sent
      ensures Valid()
      ensures State() == Receive(old(State()), op)
    {
      if VersionStamp(op) in applied {
        return;
      }
      match op.kind {
        case Insert => ApplyOperation(op);
        case Delete => buffer := buffer + [op];
        case Other(_) =>
      }
      ProcessDeletionBuffer();
      sent := sent + [Send(op)];
    }

    /** Add {peerId, siteId} to the table unless the site is already listed. */
    method AddToNetwork(peerId: PeerId, siteId: SiteId)
      requires Valid()
      modifies this`network, this`peerList, this`sent
      ensures Valid()
      ensures network == AddMember(old(network), peerId, siteId)
      ensures HasSite(old(network), siteId) ==> peerList == old(peerList) && sent == old(sent)
      ensures !HasSite(old(network), siteId) ==>
        && peerList == old(peerList) + (if siteId != this.siteId then [ShowPeer(siteId, peerId)] else [])
        && sent == old(sent) + [AnnounceMember(peerId, siteId)]
    {
      AddMemberSpec(network, peerId, siteId);
      if !HasSite(network, siteId) {
        network := network + [Member(peerId, siteId)];
        if siteId != this.siteId {
          peerList := peerList + [ShowPeer(siteId, peerId)];
        }
        sent := sent + [AnnounceMember(peerId, siteId)];
      }
    }

    /**
     * Remove the first row of `peerId`, if any, with its list entry, its cursor
     * and an announcement. The local site's own row has no list entry, so
     * taking that entry away fails right after the row is spliced out, and the
     * cursor and the announcement are skipped; `failed` reports that.
     */
    method RemoveFromNetwork(peerId: PeerId) returns (failed: bool)
      requires Valid()
      modifies this`network, this`peerList, this`editorLog, this`sent
      ensures Valid()
      ensures network == RemoveMember(old(network), peerId)
      ensures var k := FirstPeerIndex(old(network), peerId);
        && (k < 0 ==> !failed && peerList == old(peerList) && editorLog == old(editorLog) && sent == old(sent))
        && (0 <= k && old(network)[k].siteId == siteId ==>
              failed && peerList == old(peerList) && editorLog == old(editorLog) && sent == old(sent))
        && (0 <= k && old(network)[k].siteId != siteId ==>
              && !failed
              && peerList == old(peerList) + [HidePeer(peerId)]
              && editorLog == old(editorLog) + [RemoveCursor(old(network)[k].siteId)]
              && sent == old(sent) + [AnnounceRemoval(peerId)])
    {
      RemoveMemberKeepsRows(network, peerId);
      failed := false;
      var idx := FirstPeerIndex(network, peerId);
      if idx >= 0 {
        var deleted := network[idx];
        network := network[..idx] + network[idx + 1..];
        if deleted.siteId == siteId {
          failed := true;
          return;
        }
        peerList := peerList + [HidePeer(peerId)];
        editorLog := editorLog + [RemoveCursor(deleted.siteId)];
        sent := sent + [AnnounceRemoval(peerId)];
      }
    }

    /**
     * Pick a known member to connect to: one whose peer is neither connected
     * outbound nor this peer. With no such member, wait for an inbound connection.
     */
    method FindNewTarget(connected: seq<PeerId>) returns (target: Option<PeerId>)
      modifies this`sent
      ensures var candidates := Candidates(network, connected, ownPeerId);
        && (candidates == [] ==> target == None && sent == old(sent) + [AwaitConnection])
        && (candidates != [] ==>
              && target.Some?
              && (exists k :: 0 <= k < |candidates| && candidates[k].peerId == target.value)
              && sent == old(sent) + [RequestConnection(target.value, ownPeerId, siteId)])
      ensures target.Some? ==>
        && target.value !in connected && target.value != ownPeerId
        && exists m :: m in network && m.peerId == target.value
    {
      var candidates := Candidates(network, connected, ownPeerId);
      if |candidates| == 0 {
        target := None;
        sent := sent + [AwaitConnection];
      } else {
        var k :| 0 <= k < |candidates|;
        assert candidates[k] in candidates;
        target := Some(candidates[k].peerId);
        sent := sent + [RequestConnection(candidates[k].peerId, ownPeerId, siteId)];
      }
    }

    /** Adopt a document snapshot: the store takes it and the editor shows it. */
    method PopulateCRDT(initialStruct: seq<seq<Char>>)
      modifies this`crdtLog, this`editorLog
      ensures crdtLog == old(crdtLog) + [ReplaceStruct(initialStruct)]
      ensures editorLog == old(editorLog) + [ReplaceText(initialStruct)]
    {
      crdtLog := crdtLog + [ReplaceStruct(initialStruct)];
      editorLog := editorLog + [ReplaceText(initialStruct)];
    }

    /** Adopt a snapshot of versions: every stamp they cover counts as applied. */
    method PopulateVersionVector(initialVersions: seq<Version>)
      modifies this`applied
      ensures applied == old(applied) + CoveredAll(initialVersions)
    {
      for i := 0 to |initialVersions|
        invariant applied == old(applied) + CoveredAll(initialVersions[..i])
      {
        assert initialVersions[..i + 1][..i] == initialVersions[..i];
        applied := applied + Covered(initialVersions[i]);
      }
      assert initialVersions[..|initialVersions|] == initialVersions;
    }

    /** Add every row of a received table, in order (the loop of a sync). */
    method MergeNetwork(entries: seq<Member>)
      requires Valid()
      modifies this`network, this`peerList, this`sent
      ensures Valid()
      ensures network == AddMembers(old(network), entries)
      ensures |old(network)| <= |network| && network[..|old(network)|] == old(network)
      ensures sent == old(sent) + Announcements(network[|old(network)|..])
      ensures peerList == old(peerList) + ShownPeers(network[|old(network)|..], siteId)
    {
      ghost var net0, sent0, shown0 := network, sent, peerList;
      assert entries[..0] == [] && network[|network|..] == [] && network[..|network|] == network;
      for i := 0 to |entries|
        invariant Valid()
        invariant MergedSoFar(net0, sent0, shown0, entries[..i], siteId, network, sent, peerList)
      {
        ghost var net, snt, shown := network, sent, peerList;
        AddToNetwork(entries[i].peerId, entries[i].siteId);
        MergeStep(net0, sent0, shown0, entries, i, siteId, net, snt, shown, network, sent, peerList);
      }
      assert entries[..|entries|] == entries;
    }

    /**
     * Handle a sync message: point the page at the sender, merge every row of
     * its table, and adopt its document and versions only when the local
     * document is empty (`totalChars` is the store's character count).
     */
    method HandleSync(sync: SyncMessage, totalChars: nat)
      requires Valid()
      modifies this`urlId, this`network, this`peerList, this`sent, this`crdtLog, this`editorLog, this`applied
      ensures Valid()
      ensures urlId == sync.peerId
      ensures network == AddMembers(old(network), sync.network)
      ensures |old(network)| <= |network| && network[..|old(network)|] == old(network)
      ensures sent == old(sent) + Announcements(network[|old(network)|..])
      ensures peerList == old(peerList) + ShownPeers(network[|old(network)|..], siteId)
      ensures totalChars == 0 ==>
        && crdtLog == old(crdtLog) + [ReplaceStruct(sync.initialStruct)]
        && editorLog == old(editorLog) + [ReplaceText(sync.initialStruct)]
        && applied == old(applied) + CoveredAll(sync.initialVersions)
      ensures totalChars != 0 ==>
        crdtLog == old(crdtLog) && editorLog == old(editorLog) && applied == old(applied)
    {
      if sync.peerId != urlId {
        urlId := sync.peerId;
      }
      MergeNetwork(sync.network);
      if totalChars == 0 {
        PopulateCRDT(sync.initialStruct);
        PopulateVersionVector(sync.initialVersions);
      }
    }

    /**
     * Insert `chars` typed locally, one character at a time, moving `startPos`
     * along: after a newline the next character goes to column 0 of the next line.
     */
    method LocalInsert(chars: string, startPos: Cursor)
      modifies this`crdtLog, startPos
      ensures crdtLog == old(crdtLog) + LocalInserts(chars, Pos(old(startPos.line), old(startPos.ch)))
      ensures Pos(startPos.line, startPos.ch) == FinalCursor(chars, Pos(old(startPos.line), old(startPos.ch)))
    {
      ghost var start := Pos(startPos.line, startPos.ch);
      ghost var places := Placements(chars, start);
      for i := 0 to |chars|
        invariant crdtLog == old(crdtLog) + LocalInserts(chars, start)[..i]
        invariant i == 0 ==> Pos(startPos.line, startPos.ch) == start
        invariant 0 < i ==> Pos(startPos.line, startPos.ch) == Pos(places[i - 1].line, places[i - 1].ch + 1)
      {
        if i > 0 && chars[i - 1] == '\n' {
          startPos.line := startPos.line + 1;
          startPos.ch := 0;
        }
        PlacementStep(chars, start, i);
        assert Pos(startPos.line, startPos.ch) == places[i];
        assert LocalInserts(chars, start)[..i + 1] == LocalInserts(chars, start)[..i] + [HandleLocalInsert(chars[i], places[i])];
        crdtLog := crdtLog + [HandleLocalInsert(chars[i], Pos(startPos.line, startPos.ch))];
        startPos.ch := startPos.ch + 1;
      }
      assert LocalInserts(chars, start)[..|chars|] == LocalInserts(chars, start);
    }

    /** Show a remote insert of `value` at `pos`: an empty range at that coordinate. */
    method InsertIntoEditor(value: string, pos: Pos, siteId: SiteId)
      modifies this`editorLog
      ensures editorLog == old(editorLog) + [InsertText(value, InsertRange(pos), siteId)]
      ensures InsertRange(pos).from == pos && InsertRange(pos).to == pos
    {
      editorLog := editorLog + [InsertText(value, InsertRange(pos), siteId)];
    }

    /** Show a remote delete of `value` at `pos`: a newline reaches into the next line. */
    method DeleteFromEditor(value: string, pos: Pos, siteId: SiteId)
      modifies this`editorLog
      ensures editorLog == old(editorLog) + [DeleteText(value, DeleteRange(value, pos), siteId)]
    {
      editorLog := editorLog + [DeleteText(value, DeleteRange(value, pos), siteId)];
    }
  }
}
