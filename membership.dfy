/**
 * The network membership table: rows {peerId, siteId}, at most one per site,
 * kept in the order they were added.
 */
module Membership {
  import opened Wire
  import opened Seqs

  /** Some row of the table belongs to `siteId`. */
  predicate HasSite(network: seq<Member>, siteId: SiteId)
  {
    exists m :: m in network && m.siteId == siteId
  }

  /** No two rows share a site id. */
  predicate UniqueSites(network: seq<Member>)
  {
    forall i, j :: 0 <= i < j < |network| ==> network[i].siteId != network[j].siteId
  }

  /** The table after adding {peerId, siteId}: a row is appended only for an unknown site. */
  function AddMember(network: seq<Member>, peerId: PeerId, siteId: SiteId): seq<Member>
  {
    if HasSite(network, siteId) then network else network + [Member(peerId, siteId)]
  }

  /**
   * Adding keeps at most one row per site and leaves the site present. A known
   * site leaves the table as it was; an unknown one gets exactly one row,
   * {peerId, siteId}, at the end.
   */
  lemma AddMemberSpec(network: seq<Member>, peerId: PeerId, siteId: SiteId)
    requires UniqueSites(network)
    ensures var r := AddMember(network, peerId, siteId);
      && UniqueSites(r)
      && HasSite(r, siteId)
      && (HasSite(network, siteId) ==> r == network)
      && (!HasSite(network, siteId) ==>
            |r| == |network| + 1 && r[..|network|] == network && r[|network|] == Member(peerId, siteId))
  {
    var r := AddMember(network, peerId, siteId);
    if !HasSite(network, siteId) {
      assert r[|network|] in r;
      forall i, j | 0 <= i < j < |r|
        ensures r[i].siteId != r[j].siteId
      {
        if j == |network| {
          assert network[i] in network;
        }
      }
    }
  }

  /** The table after adding each of `entries` in order. */
  function AddMembers(network: seq<Member>, entries: seq<Member>): seq<Member>
  {
    if entries == [] then network
    else
      var e := entries[|entries| - 1];
      AddMember(AddMembers(network, entries[..|entries| - 1]), e.peerId, e.siteId)
  }

  /**
   * Merging a list of rows keeps the existing rows as a prefix, keeps one row
   * per site, makes every merged site present, and adds no row that came from
   * neither side.
   */
  lemma {:induction false} AddMembersSpec(network: seq<Member>, entries: seq<Member>)
    requires UniqueSites(network)
    ensures var r := AddMembers(network, entries);
      && UniqueSites(r)
      && |network| <= |r| && r[..|network|] == network
      && (forall e :: e in entries ==> HasSite(r, e.siteId))
      && (forall m :: m in r ==> m in network || m in entries)
    decreases |entries|
  {
    if entries != [] {
      var init, e := entries[..|entries| - 1], entries[|entries| - 1];
      var prev := AddMembers(network, init);
      AddMembersSpec(network, init);
      AddMemberSpec(prev, e.peerId, e.siteId);
      var r := AddMember(prev, e.peerId, e.siteId);
      assert entries == init + [e];
      forall x | x in entries
        ensures HasSite(r, x.siteId)
      {
        if x != e {
          assert x in init;
          var m :| m in prev && m.siteId == x.siteId;
          assert m in r;
        }
      }
    }
  }

  /**
   * The index of the first row whose peer is `peerId`, or -1 when there is
   * none (find followed by indexOf).
   */
  function FirstPeerIndex(network: seq<Member>, peerId: PeerId): (i: int)
    ensures -1 <= i < |network|
    ensures i == -1 <==> forall j :: 0 <= j < |network| ==> network[j].peerId != peerId
    ensures 0 <= i ==> network[i].peerId == peerId && forall j :: 0 <= j < i ==> network[j].peerId != peerId
  {
    if network == [] then -1
    else if network[0].peerId == peerId then 0
    else
      var k := FirstPeerIndex(network[1..], peerId);
      if k < 0 then -1 else k + 1
  }

  /** The table after removing the row of `peerId`, if any. */
  function RemoveMember(network: seq<Member>, peerId: PeerId): seq<Member>
  {
    var i := FirstPeerIndex(network, peerId);
    if 0 <= i then network[..i] + network[i + 1..] else network
  }

  /** Row `i` is the first row whose peer is `peerId`. */
  predicate IsFirstMatch(network: seq<Member>, peerId: PeerId, i: int)
  {
    0 <= i < |network| && network[i].peerId == peerId &&
    forall j :: 0 <= j < i ==> network[j].peerId != peerId
  }

  /** Removing drops exactly the first row whose peer is `peerId`, keeping the rest in order. */
  lemma RemoveMemberFirstMatch(network: seq<Member>, peerId: PeerId, i: int)
    requires IsFirstMatch(network, peerId, i)
    ensures RemoveMember(network, peerId) == network[..i] + network[i + 1..]
    ensures |RemoveMember(network, peerId)| == |network| - 1
  {
    var k := FirstPeerIndex(network, peerId);
    assert k == i;
  }

  /** When no row belongs to `peerId`, removing leaves the table as it was. */
  lemma RemoveMemberNoMatch(network: seq<Member>, peerId: PeerId)
    requires forall j :: 0 <= j < |network| ==> network[j].peerId != peerId
    ensures RemoveMember(network, peerId) == network
  {
  }

  /** Removing keeps the other rows in order, and at most one row per site. */
  lemma RemoveMemberKeepsRows(network: seq<Member>, peerId: PeerId)
    ensures IsSubsequence(RemoveMember(network, peerId), network)
    ensures UniqueSites(network) ==> UniqueSites(RemoveMember(network, peerId))
  {
    var k := FirstPeerIndex(network, peerId);
    var r := RemoveMember(network, peerId);
    if 0 <= k {
      DropOneIsSubsequence(network, k);
      if UniqueSites(network) {
        forall i, j | 0 <= i < j < |r|
          ensures r[i].siteId != r[j].siteId
        {
          var i' := if i < k then i else i + 1;
          var j' := if j < k then j else j + 1;
          assert r[i] == network[i'] && r[j] == network[j'];
        }
      }
    } else {
      SubsequenceRefl(network);
    }
  }

  /** Dropping the element at `k` leaves a subsequence. */
  lemma {:induction false} DropOneIsSubsequence<T>(s: seq<T>, k: nat)
    requires k < |s|
    ensures IsSubsequence(s[..k] + s[k + 1..], s)
    decreases k
  {
    if k == 0 {
      assert s[..0] + s[1..] == s[1..];
      SubsequenceRefl(s[1..]);
    } else {
      DropOneIsSubsequence(s[1..], k - 1);
      var t := s[..k] + s[k + 1..];
      assert t[0] == s[0];
      assert t[1..] == s[1..][..k - 1] + s[1..][k..];
    }
  }

  /** Rows whose peer is not among `connected` (the first filter of findNewTarget). */
  function Unconnected(network: seq<Member>, connected: seq<PeerId>): (r: seq<Member>)
    ensures forall m :: m in r <==> m in network && m.peerId !in connected
    ensures forall m :: multiset(r)[m] == if m.peerId in connected then 0 else multiset(network)[m]
    ensures IsSubsequence(r, network)
  {
    if network == [] then []
    else
      assert network == [network[0]] + network[1..];
      var rest := Unconnected(network[1..], connected);
      if network[0].peerId !in connected then [network[0]] + rest else rest
  }

  /** Rows whose peer is not `self` (the second filter of findNewTarget). */
  function NotPeer(members: seq<Member>, self: PeerId): (r: seq<Member>)
    ensures forall m :: m in r <==> m in members && m.peerId != self
    ensures forall m :: multiset(r)[m] == if m.peerId == self then 0 else multiset(members)[m]
    ensures IsSubsequence(r, members)
  {
    if members == [] then []
    else
      assert members == [members[0]] + members[1..];
      var rest := NotPeer(members[1..], self);
      if members[0].peerId != self then [members[0]] + rest else rest
  }

  /**
   * The re-link candidates: exactly the rows whose peer is neither connected
   * outbound nor this peer, each as often as in the table, in table order.
   */
  function Candidates(network: seq<Member>, connected: seq<PeerId>, self: PeerId): (r: seq<Member>)
    ensures forall m :: m in r <==> m in network && m.peerId !in connected && m.peerId != self
    ensures forall m :: multiset(r)[m] == if m.peerId in connected || m.peerId == self then 0 else multiset(network)[m]
    ensures IsSubsequence(r, network)
  {
    SubsequenceTrans(NotPeer(Unconnected(network, connected), self), Unconnected(network, connected), network);
    NotPeer(Unconnected(network, connected), self)
  }
}
