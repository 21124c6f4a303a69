/**
 * Values exchanged between the replication controller and its collaborators:
 * characters, operations, version stamps, membership entries, editor
 * coordinates, and the records of calls made to the document store, the
 * broadcast layer, the editor widget and the peer list.
 */
module Wire {

  datatype Option<T> = None | Some(value: T)

  type SiteId = string
  type PeerId = string

  /** One level of a position path: a digit and the site that allocated it. */
  datatype Identifier = Identifier(digit: int, siteId: SiteId)

  /**
   * A character as carried by an operation. Its identity for causal matching
   * is (siteId, counter); its sort key is the position path.
   */
  datatype Char = Char(value: string, counter: nat, siteId: SiteId, position: seq<Identifier>)

  /** A site's clock as carried on the wire. */
  datatype Version = Version(siteId: SiteId, counter: nat, exceptions: seq<nat>)

  /** The `type` field of an operation; anything but insert or delete is `Other`. */
  datatype OpKind = Insert | Delete | Other(name: string)

  datatype Operation = Operation(kind: OpKind, ch: Char, version: Version)

  /** A (site, counter) pair: the unit the version vector records as applied. */
  datatype Stamp = Stamp(siteId: SiteId, counter: nat)

  /** The stamp under which an operation itself is recorded once applied. */
  function VersionStamp(op: Operation): Stamp
  {
    Stamp(op.version.siteId, op.version.counter)
  }

  /** The stamp of the insert that created the character an operation carries. */
  function TargetStamp(op: Operation): Stamp
  {
    Stamp(op.ch.siteId, op.ch.counter)
  }

  /** One row of the network membership table. */
  datatype Member = Member(peerId: PeerId, siteId: SiteId)

  /** An editor coordinate: zero-based line and column. */
  datatype Pos = Pos(line: nat, ch: nat)

  /** The `from`/`to` pair handed to the editor widget. */
  datatype Range = Range(from: Pos, to: Pos)

  /** Calls made into the document store (the CRDT). */
  datatype CrdtCall =
    | RemoteInsert(ch: Char)
    | RemoteDelete(ch: Char, originSite: SiteId)
    | HandleLocalInsert(value: char, at: Pos)
    | ReplaceStruct(struct: seq<seq<Char>>)

  /** Calls made into the broadcast layer. */
  datatype BroadcastCall =
    | Send(op: Operation)
    | AnnounceMember(peerId: PeerId, siteId: SiteId)
    | AnnounceRemoval(peerId: PeerId)
    | RequestConnection(target: PeerId, fromPeer: PeerId, fromSite: SiteId)
    | AwaitConnection

  /** Calls made into the editor widget. */
  datatype EditorCall =
    | InsertText(value: string, range: Range, siteId: SiteId)
    | DeleteText(value: string, range: Range, siteId: SiteId)
    | ReplaceText(struct: seq<seq<Char>>)
    | RemoveCursor(siteId: SiteId)

  /** Changes to the on-screen list of peers. */
  datatype PeerListCall = ShowPeer(siteId: SiteId, peerId: PeerId) | HidePeer(peerId: PeerId)

  /** The sync payload a newcomer receives. */
  datatype SyncMessage = SyncMessage(
    peerId: PeerId,
    network: seq<Member>,
    initialStruct: seq<seq<Char>>,
    initialVersions: seq<Version>)
}
