/** Which packets of a frame can be known from the packets that arrived. */
module Availability {
  import opened Bytes
  import opened EvrtFec
  import opened EvrtVideo
  import opened FrameAssembly

  /** Every group mate of `i` among `n` packets is in `a`. */
  ghost predicate MatesIn(n: nat, a: set<nat>, i: nat) {
    forall j: nat :: GroupBase(i) <= j < GroupBase(i) + FEC_GROUP_SIZE && j < n && j != i ==> j in a
  }

  /** Packet `i` arrived, or the parity of its group did together with all its group mates. */
  ghost predicate Avail(n: nat, a: set<nat>, f: set<nat>, i: nat) {
    i in a || (i / FEC_GROUP_SIZE in f && MatesIn(n, a, i))
  }

  /** The loss pattern is repairable: `a` are the data packets that arrived, `f` the parity packets. */
  ghost predicate Recoverable(n: nat, a: set<nat>, f: set<nat>) {
    forall i: nat :: i < n ==> Avail(n, a, f, i)
  }

  ghost predicate Holds(parts: seq<Part>, a: set<nat>, f: set<nat>) {
    forall i :: 0 <= i < |parts| ==> (parts[i].Some? <==> Avail(|parts|, a, f, i))
  }

  /** Between what arrived and what can be known. */
  ghost predicate Bounded(parts: seq<Part>, a: set<nat>, f: set<nat>) {
    forall i :: 0 <= i < |parts| ==> (i in a ==> parts[i].Some?) && (parts[i].Some? ==> Avail(|parts|, a, f, i))
  }

  /** One round of recovery over the groups in `f`. */
  ghost predicate RecoveredBy(before: seq<Part>, f: set<nat>, after: seq<Part>) {
    |after| == |before| && forall i :: 0 <= i < |before| ==>
      (after[i].Some? <==> before[i].Some? || (i / FEC_GROUP_SIZE in f && Lone(before, i)))
  }

  lemma AvailMonotone(n: nat, a: set<nat>, f: set<nat>, a': set<nat>, f': set<nat>)
    requires a <= a' && f <= f'
    ensures forall i: nat :: Avail(n, a, f, i) ==> Avail(n, a', f', i)
  {
    hide GroupBase;
  }

  lemma SameGroup(i: nat, j: nat)
    requires GroupBase(i) <= j < GroupBase(i) + FEC_GROUP_SIZE
    ensures GroupBase(j) == GroupBase(i) && j / FEC_GROUP_SIZE == i / FEC_GROUP_SIZE
  {
  }

  /** A part known only through parity has all its mates among the arrivals. */
  lemma LoneMatesArrived(parts: seq<Part>, a: set<nat>, f: set<nat>, i: nat)
    requires Bounded(parts, a, f) && Lone(parts, i)
    ensures MatesIn(|parts|, a, i)
  {
    forall j: nat | GroupBase(i) <= j < GroupBase(i) + FEC_GROUP_SIZE && j < |parts| && j != i ensures j in a {
      hide GroupBase;
      SameGroup(i, j);
      assert Avail(|parts|, a, f, j);
      assert i !in a;
    }
  }

  /** A single round of recovery makes available everything that can be known. */
  lemma OneRoundSuffices(before: seq<Part>, a: set<nat>, f: set<nat>, after: seq<Part>)
    requires Bounded(before, a, f) && RecoveredBy(before, f, after)
    ensures Holds(after, a, f)
  {
    forall i | 0 <= i < |after| ensures after[i].Some? <==> Avail(|after|, a, f, i) {
      hide GroupBase;
      if Lone(before, i) {
        LoneMatesArrived(before, a, f, i);
      }
    }
  }

  /** A packet that was already known adds nothing. */
  lemma KnownAddsNothing(parts: seq<Part>, a: set<nat>, f: set<nat>, k: nat)
    requires Holds(parts, a, f) && k < |parts| && parts[k].Some?
    ensures Holds(parts, a + {k}, f)
  {
    AvailMonotone(|parts|, a, f, a + {k}, f);
    if k in a {
      assert a + {k} == a;
    } else {
      assert MatesIn(|parts|, a, k);
      forall i | 0 <= i < |parts| && Avail(|parts|, a + {k}, f, i) ensures Avail(|parts|, a, f, i) {
        hide GroupBase;
        if GroupBase(i) <= k < GroupBase(i) + FEC_GROUP_SIZE {
          SameGroup(i, k);
        } else if i !in a {
          assert MatesIn(|parts|, a, i);
        }
      }
    }
  }

  lemma HoldsIsBounded(parts: seq<Part>, a: set<nat>, f: set<nat>)
    requires Holds(parts, a, f)
    ensures Bounded(parts, a, f)
  {
  }

  /** Storing packet `i` and one round of recovery account for the arrival of packet `i`. */
  lemma AfterData(before: seq<Part>, a: set<nat>, f: set<nat>, i: nat, payload: seq<byte>, after: seq<Part>)
    requires Bounded(before, a, f) && i < |before| && RecoveredBy(before[i := Some(payload)], f, after)
    ensures |after| == |before| && Holds(after, a + {i}, f)
  {
    hide GroupBase, Lone;
    AvailMonotone(|before|, a, f, a + {i}, f);
    assert Bounded(before[i := Some(payload)], a + {i}, f);
    OneRoundSuffices(before[i := Some(payload)], a + {i}, f, after);
  }

  /** One round of recovery accounts for the arrival of the parity of group `g`. */
  lemma AfterParity(before: seq<Part>, a: set<nat>, f: set<nat>, g: nat, after: seq<Part>)
    requires Bounded(before, a, f) && RecoveredBy(before, f + {g}, after)
    ensures |after| == |before| && Holds(after, a, f + {g})
  {
    hide GroupBase, Lone;
    AvailMonotone(|before|, a, f, a, f + {g});
    assert Bounded(before, a, f + {g});
    OneRoundSuffices(before, a, f + {g}, after);
  }

  lemma CompleteIffRecoverable(parts: seq<Part>, a: set<nat>, f: set<nat>)
    requires Holds(parts, a, f)
    ensures (forall i :: 0 <= i < |parts| ==> parts[i].Some?) <==> Recoverable(|parts|, a, f)
  {
    hide Avail;
  }

  // ----- the part that one arrival makes recoverable

  /** The only part that parity of the groups `f` can recover now, if there is just one. */
  ghost predicate IsNew(parts: seq<Part>, f: set<nat>, m: Option<nat>) {
    forall i: nat :: i / FEC_GROUP_SIZE in f && Lone(parts, i) <==> m == Some(i)
  }

  lemma LoneInGroup(parts: seq<Part>, i: nat, j: nat)
    requires Lone(parts, i) && Lone(parts, j) && i / FEC_GROUP_SIZE == j / FEC_GROUP_SIZE
    ensures i == j
  {
  }

  /** In a state that is saturated nothing can be recovered. */
  lemma NoneLone(parts: seq<Part>, a: set<nat>, f: set<nat>, i: nat)
    requires Holds(parts, a, f) && i / FEC_GROUP_SIZE in f
    ensures !Lone(parts, i)
  {
    HoldsIsBounded(parts, a, f);
    if Lone(parts, i) {
      LoneIsAvail(parts, a, f, i);
    }
  }

  lemma LoneIsAvail(parts: seq<Part>, a: set<nat>, f: set<nat>, i: nat)
    requires Bounded(parts, a, f) && i / FEC_GROUP_SIZE in f && Lone(parts, i)
    ensures i < |parts| && parts[i].None? && Avail(|parts|, a, f, i)
  {
    LoneMatesArrived(parts, a, f, i);
  }

  /** Among empty slots with one part stored, a part can only be alone in the last group. */
  lemma LoneIsLast(parts: seq<Part>, i: nat, j: nat)
    requires i < |parts| && forall k :: 0 <= k < |parts| && k != i ==> parts[k].None?
    ensures Lone(parts, j) ==> j / FEC_GROUP_SIZE == (|parts| - 1) / FEC_GROUP_SIZE
  {
    var base := GroupBase(j);
    if base + FEC_GROUP_SIZE < |parts| {
      var k := if base != i && base != j then base else if base + 1 != i && base + 1 != j then base + 1 else base + 2;
      assert parts[k].None? && k != j;
    }
  }

  /** One more data packet makes at most one other part recoverable. */
  lemma NewAfterData(parts: seq<Part>, a: set<nat>, f: set<nat>, i: nat, payload: seq<byte>) returns (m: Option<nat>)
    requires i < |parts| && parts[i].None?
    requires Holds(parts, a, f) || forall k :: 0 <= k < |parts| ==> parts[k].None?
    ensures IsNew(parts[i := Some(payload)], f, m)
  {
    var parts' := parts[i := Some(payload)];
    if j: nat :| j / FEC_GROUP_SIZE in f && Lone(parts', j) {
      m := Some(j);
      forall k: nat | k / FEC_GROUP_SIZE in f && Lone(parts', k) ensures k == j {
        if Holds(parts, a, f) {
          GroupOfNew(parts, a, f, i, payload, j);
          GroupOfNew(parts, a, f, i, payload, k);
        } else {
          LoneIsLast(parts', i, j);
          LoneIsLast(parts', i, k);
        }
        LoneInGroup(parts', j, k);
      }
    } else {
      m := None;
    }
  }

  lemma GroupOfNew(parts: seq<Part>, a: set<nat>, f: set<nat>, i: nat, payload: seq<byte>, j: nat)
    requires i < |parts| && parts[i].None? && Holds(parts, a, f)
    requires j / FEC_GROUP_SIZE in f && Lone(parts[i := Some(payload)], j)
    ensures j / FEC_GROUP_SIZE == i / FEC_GROUP_SIZE
  {
    hide GroupBase;
    if GroupBase(j) <= i < GroupBase(j) + FEC_GROUP_SIZE {
      SameGroup(j, i);
    } else {
      LoneFar(parts, i, payload, j);
      NoneLone(parts, a, f, j);
    }
  }

  lemma LoneFar(parts: seq<Part>, i: nat, payload: seq<byte>, j: nat)
    requires i < |parts| && !(GroupBase(j) <= i < GroupBase(j) + FEC_GROUP_SIZE)
    ensures Lone(parts[i := Some(payload)], j) ==> Lone(parts, j)
  {
    var parts' := parts[i := Some(payload)];
    assert forall k :: 0 <= k < |parts| && k != i ==> parts[k] == parts'[k];
  }

  /** One more parity packet makes at most one part recoverable. */
  lemma NewAfterParity(parts: seq<Part>, a: set<nat>, f: set<nat>, g: nat) returns (m: Option<nat>)
    requires Holds(parts, a, f)
    ensures IsNew(parts, f + {g}, m)
  {
    hide Lone;
    var all: set<nat> := f + {g};
    forall j: nat | j / FEC_GROUP_SIZE in all && Lone(parts, j) ensures j / FEC_GROUP_SIZE == g {
      if j / FEC_GROUP_SIZE in f {
        NoneLone(parts, a, f, j);
      }
    }
    if j: nat :| j / FEC_GROUP_SIZE in all && Lone(parts, j) {
      m := Some(j);
      forall k: nat | k / FEC_GROUP_SIZE in all && Lone(parts, k) ensures k == j {
        LoneInGroup(parts, j, k);
      }
    } else {
      m := None;
      assert forall k: nat :: k / FEC_GROUP_SIZE in all && Lone(parts, k) ==> false;
    }
    assert IsNew(parts, all, m);
  }

  /** With the new part one round of recovery is done. */
  lemma NewIsRound(parts: seq<Part>, f: set<nat>, m: Option<nat>, parts': seq<Part>)
    requires IsNew(parts, f, m) && |parts'| == |parts|
    requires forall j :: 0 <= j < |parts| ==> (parts'[j].Some? <==> parts[j].Some? || m == Some(j))
    ensures RecoveredBy(parts, f, parts')
  {
    hide Lone;
  }

  // ----- the bytes of what can be known

  /** The parts that can be known from the arrivals. */
  ghost function KnownParts(chunks: seq<seq<byte>>, a: set<nat>, f: set<nat>): (parts: seq<Part>)
    ensures |parts| == |chunks|
  {
    seq(|chunks|, i requires 0 <= i < |chunks| => if Avail(|chunks|, a, f, i) then Some(chunks[i]) else None)
  }

  ghost function KnownBytes(chunks: seq<seq<byte>>, a: set<nat>, f: set<nat>): nat {
    SumBytes(KnownParts(chunks, a, f))
  }

  lemma HoldsIsKnown(s: SentFrame, parts: seq<Part>, a: set<nat>, f: set<nat>)
    requires GenuineParts(s, parts) && Holds(parts, a, f)
    ensures parts == KnownParts(s.chunks, a, f)
  {
    hide Avail;
  }
}
