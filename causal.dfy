/**
 * The causal delivery buffer: pending deletes are swept once, left to right,
 * and each is applied (and dropped from the buffer) exactly when the insert it
 * targets counts as applied at the moment it is examined. Applying an entry
 * records its own version, which later entries of the same sweep may observe.
 */
module Causal {
  import opened Wire
  import opened Seqs

  /** What the store receives when an operation is applied. */
  function Effect(op: Operation): seq<CrdtCall>
  {
    match op.kind
    case Insert => [RemoteInsert(op.ch)]
    case Delete => [RemoteDelete(op.ch, op.version.siteId)]
    case Other(_) => []
  }

  /** The store calls made by applying `ops` in order. */
  function Effects(ops: seq<Operation>): seq<CrdtCall>
  {
    if ops == [] then [] else Effects(ops[..|ops| - 1]) + Effect(ops[|ops| - 1])
  }

  /** The stamps recorded by applying `ops`. */
  function Stamps(ops: seq<Operation>): set<Stamp>
  {
    set op | op in ops :: VersionStamp(op)
  }

  /** Entries that stay, entries applied (in order), and the applied set afterwards. */
  datatype SweepResult = SweepResult(kept: seq<Operation>, done: seq<Operation>, applied: set<Stamp>)

  /** One pass over the buffer, as the sweep loop performs it. */
  function Sweep(pending: seq<Operation>, applied: set<Stamp>): SweepResult
    decreases |pending|
  {
    if pending == [] then SweepResult([], [], applied)
    else if TargetStamp(pending[0]) in applied then
      var r := Sweep(pending[1..], applied + {VersionStamp(pending[0])});
      SweepResult(r.kept, [pending[0]] + r.done, r.applied)
    else
      var r := Sweep(pending[1..], applied);
      SweepResult([pending[0]] + r.kept, r.done, r.applied)
  }

  /**
   * The sweep splits the buffer: every entry is either kept or applied, both
   * parts keep their original relative order, the buffer never grows, and the
   * applied set gains exactly the versions of the applied entries.
   */
  lemma {:induction false} SweepPartition(pending: seq<Operation>, applied: set<Stamp>)
    ensures var r := Sweep(pending, applied);
      && |r.kept| + |r.done| == |pending|
      && multiset(r.kept) + multiset(r.done) == multiset(pending)
      && IsSubsequence(r.kept, pending)
      && IsSubsequence(r.done, pending)
      && r.applied == applied + Stamps(r.done)
    decreases |pending|
  {
    if pending != [] {
      var p0, rest := pending[0], pending[1..];
      assert pending == [p0] + rest;
      if TargetStamp(p0) in applied {
        var r := Sweep(rest, applied + {VersionStamp(p0)});
        SweepPartition(rest, applied + {VersionStamp(p0)});
        assert Stamps([p0] + r.done) == {VersionStamp(p0)} + Stamps(r.done);
      } else {
        SweepPartition(rest, applied);
      }
    }
  }

  /**
   * Each of `done`, applied in order starting from `applied`, found its target
   * already applied: in the starting set or recorded by an earlier entry.
   */
  predicate SatisfiedInOrder(done: seq<Operation>, applied: set<Stamp>)
  {
    forall j :: 0 <= j < |done| ==> TargetStamp(done[j]) in applied + Stamps(done[..j])
  }

  /**
   * An entry is applied only if its target counts as applied at the moment it
   * is examined: the starting set plus the versions of the entries applied
   * before it.
   */
  lemma {:induction false} SweepAppliesOnlySatisfied(pending: seq<Operation>, applied: set<Stamp>)
    ensures SatisfiedInOrder(Sweep(pending, applied).done, applied)
    decreases |pending|
  {
    if pending != [] {
      var p0, rest := pending[0], pending[1..];
      if TargetStamp(p0) in applied {
        var a1 := applied + {VersionStamp(p0)};
        var r := Sweep(rest, a1);
        SweepAppliesOnlySatisfied(rest, a1);
        var done := [p0] + r.done;
        forall j | 0 <= j < |done|
          ensures TargetStamp(done[j]) in applied + Stamps(done[..j])
        {
          if j > 0 {
            assert TargetStamp(r.done[j - 1]) in a1 + Stamps(r.done[..j - 1]);
            assert done[j] == r.done[j - 1];
            assert done[..j] == [p0] + r.done[..j - 1];
            assert Stamps(done[..j]) == {VersionStamp(p0)} + Stamps(r.done[..j - 1]);
          }
        }
      } else {
        SweepAppliesOnlySatisfied(rest, applied);
      }
    }
  }

  /**
   * Examining the buffer left to right: the last entry is applied exactly when
   * its target is in the applied set as the earlier entries left it.
   */
  lemma {:induction false} SweepSnoc(pending: seq<Operation>, op: Operation, applied: set<Stamp>)
    ensures var s := Sweep(pending, applied);
      Sweep(pending + [op], applied) ==
        if TargetStamp(op) in s.applied
        then SweepResult(s.kept, s.done + [op], s.applied + {VersionStamp(op)})
        else SweepResult(s.kept + [op], s.done, s.applied)
    decreases |pending|
  {
    if pending == [] {
      assert [] + [op] == [op];
    } else {
      var p0, rest := pending[0], pending[1..];
      assert (pending + [op])[1..] == rest + [op];
      if TargetStamp(p0) in applied {
        SweepSnoc(rest, op, applied + {VersionStamp(p0)});
      } else {
        SweepSnoc(rest, op, applied);
      }
    }
  }

  /** An entry left in the buffer was not satisfied by the set the sweep started from. */
  lemma {:induction false} SweepKeepsUnsatisfied(pending: seq<Operation>, applied: set<Stamp>)
    ensures forall op :: op in Sweep(pending, applied).kept ==> TargetStamp(op) !in applied
    decreases |pending|
  {
    if pending != [] {
      var p0, rest := pending[0], pending[1..];
      if TargetStamp(p0) in applied {
        SweepKeepsUnsatisfied(rest, applied + {VersionStamp(p0)});
      } else {
        SweepKeepsUnsatisfied(rest, applied);
      }
    }
  }

  /**
   * A pass over `a + b` is the pass over `a` followed by the pass over `b`,
   * starting from the applied set that `a` leaves.
   */
  lemma {:induction false} SweepAppend(a: seq<Operation>, b: seq<Operation>, applied: set<Stamp>)
    ensures var s := Sweep(a, applied);
      var t := Sweep(b, s.applied);
      Sweep(a + b, applied) == SweepResult(s.kept + t.kept, s.done + t.done, t.applied)
    decreases |a|
  {
    if a == [] {
      assert a + b == b;
    } else {
      var p0 := a[0];
      assert (a + b)[0] == p0 && (a + b)[1..] == a[1..] + b;
      var a1 := if TargetStamp(p0) in applied then applied + {VersionStamp(p0)} else applied;
      SweepAppend(a[1..], b, a1);
      var s' := Sweep(a[1..], a1);
      var t := Sweep(b, s'.applied);
      assert [p0] + (s'.kept + t.kept) == ([p0] + s'.kept) + t.kept;
      assert [p0] + (s'.done + t.done) == ([p0] + s'.done) + t.done;
    }
  }

  /**
   * Entry `j` is decided against the applied set as the entries before it
   * leave it: when its target is not in that set it is kept, right after the
   * entries kept before it; otherwise it is applied, right after the entries
   * applied before it.
   */
  lemma SweepDecidesAtExamination(pending: seq<Operation>, applied: set<Stamp>, j: int)
    requires 0 <= j < |pending|
    ensures var s := Sweep(pending[..j], applied);
      var r := Sweep(pending, applied);
      && (TargetStamp(pending[j]) !in s.applied ==>
            |s.kept| < |r.kept| && r.kept[..|s.kept| + 1] == s.kept + [pending[j]])
      && (TargetStamp(pending[j]) in s.applied ==>
            |s.done| < |r.done| && r.done[..|s.done| + 1] == s.done + [pending[j]])
  {
    var s := Sweep(pending[..j], applied);
    assert pending == pending[..j] + pending[j..];
    SweepAppend(pending[..j], pending[j..], applied);
    assert pending[j..][0] == pending[j];
  }

  /** A buffer none of whose targets is applied passes through a sweep untouched. */
  lemma {:induction false} SweepNoProgress(pending: seq<Operation>, applied: set<Stamp>)
    requires forall op :: op in pending ==> TargetStamp(op) !in applied
    ensures Sweep(pending, applied) == SweepResult(pending, [], applied)
    decreases |pending|
  {
    if pending != [] {
      SweepNoProgress(pending[1..], applied);
      assert [pending[0]] + pending[1..] == pending;
    }
  }

  /**
   * No operation's own version is the target of an operation in the buffer:
   * applying a delete never unblocks another delete.
   */
  predicate DeletesIndependent(pending: seq<Operation>)
  {
    forall op, other :: op in pending && other in pending ==> VersionStamp(op) != TargetStamp(other)
  }

  /**
   * When applying an entry never unblocks another, one pass reaches the fixed
   * point: every entry left is still unsatisfied after the sweep, and sweeping
   * again changes nothing.
   */
  lemma SweepReachesFixedPoint(pending: seq<Operation>, applied: set<Stamp>)
    requires DeletesIndependent(pending)
    ensures var r := Sweep(pending, applied);
      && (forall op :: op in r.kept ==> TargetStamp(op) !in r.applied)
      && Sweep(r.kept, r.applied) == SweepResult(r.kept, [], r.applied)
  {
    var r := Sweep(pending, applied);
    SweepPartition(pending, applied);
    SweepKeepsUnsatisfied(pending, applied);
    SubsequenceBounds(r.kept, pending);
    SubsequenceBounds(r.done, pending);
    forall op | op in r.kept
      ensures TargetStamp(op) !in r.applied
    {
      assert forall d :: d in r.done ==> VersionStamp(d) != TargetStamp(op);
    }
    SweepNoProgress(r.kept, r.applied);
  }

  /**
   * What receiving operations touches: the delete buffer, the applied stamps
   * (the version vector), the calls made into the store and the calls made
   * into the broadcast layer.
   */
  datatype Bookkeeping = Bookkeeping(
    buffer: seq<Operation>,
    applied: set<Stamp>,
    log: seq<CrdtCall>,
    sent: seq<BroadcastCall>)

  /** Applying one operation: its effect reaches the store and its version is recorded. */
  function Apply(s: Bookkeeping, op: Operation): Bookkeeping
  {
    s.(applied := s.applied + {VersionStamp(op)}, log := s.log + Effect(op))
  }

  /**
   * Receiving a remote operation: drop it if its version is already applied;
   * otherwise apply an insert at once, append a delete to the buffer, sweep the
   * buffer, and pass the operation on.
   */
  function Receive(s: Bookkeeping, op: Operation): Bookkeeping
  {
    if VersionStamp(op) in s.applied then s
    else
      var staged :=
        match op.kind
        case Insert => Apply(s, op)
        case Delete => s.(buffer := s.buffer + [op])
        case Other(_) => s;
      var r := Sweep(staged.buffer, staged.applied);
      Bookkeeping(r.kept, r.applied, staged.log + Effects(r.done), staged.sent + [Send(op)])
  }

  /** An operation whose version is already applied changes nothing and is not passed on. */
  lemma ReceiveDuplicate(s: Bookkeeping, op: Operation)
    requires VersionStamp(op) in s.applied
    ensures Receive(s, op) == s
  {
  }

  /**
   * A new insert reaches the store before anything else this call does, its
   * version is recorded, every buffered delete waiting for it leaves the
   * buffer, the buffer does not grow, and the insert is passed on once.
   */
  lemma ReceiveInsert(s: Bookkeeping, op: Operation)
    requires op.kind == Insert && VersionStamp(op) !in s.applied
    ensures var t := Receive(s, op);
      && |s.log| < |t.log| && t.log[..|s.log| + 1] == s.log + [RemoteInsert(op.ch)]
      && VersionStamp(op) in t.applied
      && (forall d :: d in s.buffer && TargetStamp(d) == VersionStamp(op) ==> d !in t.buffer)
      && |t.buffer| <= |s.buffer|
      && t.sent == s.sent + [Send(op)]
  {
    var a1 := s.applied + {VersionStamp(op)};
    var r := Sweep(s.buffer, a1);
    SweepPartition(s.buffer, a1);
    SweepKeepsUnsatisfied(s.buffer, a1);
    var t := Receive(s, op);
    assert t.log == (s.log + [RemoteInsert(op.ch)]) + Effects(r.done);
  }

  /**
   * A new delete is never applied ahead of the deletes already waiting: it is
   * appended to the buffer and examined last, against the applied set the
   * earlier entries leave. It is applied in this call exactly when its target
   * is in that set; otherwise it stays, at the end of the buffer.
   */
  lemma ReceiveDelete(s: Bookkeeping, op: Operation)
    requires op.kind == Delete && VersionStamp(op) !in s.applied
    ensures var r := Sweep(s.buffer, s.applied);
      var t := Receive(s, op);
      && t.sent == s.sent + [Send(op)]
      && (TargetStamp(op) in r.applied ==>
            && t.buffer == r.kept
            && t.applied == r.applied + {VersionStamp(op)}
            && t.log == s.log + Effects(r.done) + [RemoteDelete(op.ch, op.version.siteId)])
      && (TargetStamp(op) !in r.applied ==>
            && t.buffer == r.kept + [op]
            && t.applied == r.applied
            && t.log == s.log + Effects(r.done))
  {
    var r := Sweep(s.buffer, s.applied);
    SweepSnoc(s.buffer, op, s.applied);
    if TargetStamp(op) in r.applied {
      assert (r.done + [op])[..|r.done|] == r.done;
    }
  }

  /**
   * A delete delivered again while it still waits passes the version check,
   * since its version is recorded only once it is applied, and is buffered a
   * second time.
   */
  lemma ReceiveDeleteAgain(s: Bookkeeping, op: Operation)
    requires op.kind == Delete && op in s.buffer && VersionStamp(op) !in s.applied
    requires forall d :: d in s.buffer ==> TargetStamp(d) !in s.applied
    ensures Receive(s, op).buffer == s.buffer + [op]
    ensures multiset(Receive(s, op).buffer)[op] == multiset(s.buffer)[op] + 1
  {
    SweepNoProgress(s.buffer, s.applied);
    SweepSnoc(s.buffer, op, s.applied);
  }

  /** Every buffered entry is a delete. */
  predicate AllDeletes(ops: seq<Operation>)
  {
    forall op :: op in ops ==> op.kind == Delete
  }

  /** Splicing an entry out of a buffer of deletes leaves a buffer of deletes. */
  lemma SpliceDeletes(buffer: seq<Operation>, i: int)
    requires AllDeletes(buffer) && 0 <= i < |buffer|
    ensures AllDeletes(buffer[..i] + buffer[i + 1..])
  {
    assert forall x :: x in buffer[..i] + buffer[i + 1..] ==> x in buffer;
  }

  /** The store calls of two runs of operations are those of the first, then those of the second. */
  lemma {:induction false} EffectsAppend(a: seq<Operation>, b: seq<Operation>)
    ensures Effects(a + b) == Effects(a) + Effects(b)
    decreases |b|
  {
    if b == [] {
      assert a + b == a;
    } else {
      var b' := b[..|b| - 1];
      assert (a + b)[..|a + b| - 1] == a + b';
      EffectsAppend(a, b');
    }
  }

  /**
   * The sweep loop as it runs on the bookkeeping in place: with the entries
   * before index `i` examined and kept, examine entry `i`; when its target is
   * applied, apply it and splice it out, so the next entry moves to index `i`;
   * otherwise step past it.
   */
  function SweepFrom(s: Bookkeeping, i: nat): Bookkeeping
    decreases |s.buffer| - i
  {
    if i >= |s.buffer| then s
    else if TargetStamp(s.buffer[i]) in s.applied then
      SweepFrom(Apply(s, s.buffer[i]).(buffer := s.buffer[..i] + s.buffer[i + 1..]), i)
    else SweepFrom(s, i + 1)
  }

  /** Applying the entry at index `i`: the pass over the rest starts by recording it. */
  lemma SweepFromApplied(s: Bookkeeping, i: nat)
    requires i < |s.buffer| && TargetStamp(s.buffer[i]) in s.applied
    ensures var op := s.buffer[i];
      var b' := s.buffer[..i] + s.buffer[i + 1..];
      var r' := Sweep(b'[i..], s.applied + {VersionStamp(op)});
      var r := Sweep(s.buffer[i..], s.applied);
      && |b'| == |s.buffer| - 1 && b'[..i] == s.buffer[..i]
      && r == SweepResult(r'.kept, [op] + r'.done, r'.applied)
      && (s.log + Effect(op)) + Effects(r'.done) == s.log + Effects(r.done)
  {
    var b, op := s.buffer, s.buffer[i];
    var b' := b[..i] + b[i + 1..];
    assert b[i..][0] == op && b[i..][1..] == b[i + 1..];
    assert b'[i..] == b[i + 1..] && b'[..i] == b[..i];
    var r' := Sweep(b[i + 1..], s.applied + {VersionStamp(op)});
    EffectsAppend([op], r'.done);
    assert Effects([op]) == Effect(op) by {
      assert [op][..0] == [];
    }
  }

  /** Stepping past the entry at index `i`: the pass over the rest starts by keeping it. */
  lemma SweepFromKept(s: Bookkeeping, i: nat)
    requires i < |s.buffer| && TargetStamp(s.buffer[i]) !in s.applied
    ensures var r' := Sweep(s.buffer[i + 1..], s.applied);
      var r := Sweep(s.buffer[i..], s.applied);
      && r == SweepResult([s.buffer[i]] + r'.kept, r'.done, r'.applied)
      && s.buffer[..i + 1] + r'.kept == s.buffer[..i] + r.kept
  {
    var b := s.buffer;
    assert b[i..][0] == b[i] && b[i..][1..] == b[i + 1..];
    assert b[..i + 1] == b[..i] + [b[i]];
  }

  /** At the end of the buffer the pass over the rest does nothing. */
  lemma SweepFromEnd(s: Bookkeeping)
    ensures var r := Sweep(s.buffer[|s.buffer|..], s.applied);
      s == Bookkeeping(s.buffer[..|s.buffer|] + r.kept, r.applied, s.log + Effects(r.done), s.sent)
  {
    var b := s.buffer;
    assert b[|b|..] == [];
    assert b[..|b|] + [] == b;
    assert s.log + Effects([]) == s.log;
  }

  /**
   * The in-place loop computes the sweep: from index `i` it keeps the examined
   * prefix, ends with the entries the pass over the rest keeps, records the
   * versions it applies, and sends the store their effects in order.
   */
  lemma {:induction false} SweepFromIsSweep(s: Bookkeeping, i: nat)
    requires i <= |s.buffer|
    ensures var r := Sweep(s.buffer[i..], s.applied);
      SweepFrom(s, i) == Bookkeeping(s.buffer[..i] + r.kept, r.applied, s.log + Effects(r.done), s.sent)
    decreases |s.buffer| - i
  {
    var b := s.buffer;
    if i == |b| {
      SweepFromEnd(s);
    } else if TargetStamp(b[i]) in s.applied {
      SweepFromApplied(s, i);
      SweepFromIsSweep(Apply(s, b[i]).(buffer := b[..i] + b[i + 1..]), i);
    } else {
      SweepFromKept(s, i);
      SweepFromIsSweep(s, i + 1);
    }
  }
}
