/** One frame being put together from data packets and parity. */
module FrameAssembly {
  import opened Bytes
  import opened XorParity
  import opened EvrtFec
  import opened EvrtVideo

  type Part = Option<seq<byte>>

  datatype Assembly = Assembly(count: nat, key: bool, time: u64, parts: seq<Part>, received: nat, buffered: nat) {

    predicate HasPart(index: nat) {
      index < |parts| ==> parts[index].Some?
    }

    /** Stores a missing part; the caller has checked that it is missing. */
    function Set(index: nat, payload: seq<byte>): Assembly
      requires !HasPart(index)
    {
      this.(parts := parts[index := Some(payload)], received := received + 1, buffered := buffered + |payload|)
    }

    predicate IsComplete() {
      received == count
    }

    function Join(): seq<byte> {
      if count == 1 && |parts| > 0 then (if parts[0].Some? then parts[0].value else [])
      else JoinParts(parts)
    }
  }

  function NewAssembly(count: nat, key: bool, time: u64): Assembly {
    Assembly(count, key, time, seq(count, _ => None), 0, 0)
  }

  function JoinParts(parts: seq<Part>): seq<byte> {
    if parts == [] then []
    else (if parts[0].Some? then parts[0].value else []) + JoinParts(parts[1..])
  }

  function CountSome(parts: seq<Part>): (n: nat)
    ensures n <= |parts|
  {
    if parts == [] then 0
    else CountSome(parts[..|parts| - 1]) + (if parts[|parts| - 1].Some? then 1 else 0)
  }

  function SumBytes(parts: seq<Part>): nat {
    if parts == [] then 0
    else SumBytes(parts[..|parts| - 1]) + (if parts[|parts| - 1].Some? then |parts[|parts| - 1].value| else 0)
  }

  lemma {:induction false} NoParts(n: nat)
    ensures CountSome(seq(n, _ => None)) == 0 && SumBytes(seq(n, _ => None)) == 0
  {
    if n > 0 {
      NoParts(n - 1);
      assert seq<Part>(n, _ => None)[..n - 1] == seq(n - 1, _ => None);
    }
  }

  lemma {:induction false} OneMorePart(parts: seq<Part>, i: nat, payload: seq<byte>)
    requires i < |parts| && parts[i].None?
    ensures CountSome(parts[i := Some(payload)]) == CountSome(parts) + 1
    ensures SumBytes(parts[i := Some(payload)]) == SumBytes(parts) + |payload|
  {
    var last := |parts| - 1;
    if i < last {
      OneMorePart(parts[..last], i, payload);
      assert parts[i := Some(payload)][..last] == parts[..last][i := Some(payload)];
    } else {
      assert parts[i := Some(payload)][..last] == parts[..last];
    }
  }

  lemma {:induction false} AllCounted(parts: seq<Part>)
    ensures CountSome(parts) == |parts| <==> forall i :: 0 <= i < |parts| ==> parts[i].Some?
  {
    if parts != [] {
      var last := |parts| - 1;
      AllCounted(parts[..last]);
      assert parts == parts[..last] + [parts[last]];
    }
  }

  lemma {:induction false} JoinAll(parts: seq<Part>, chunks: seq<seq<byte>>)
    requires |parts| == |chunks| && forall i :: 0 <= i < |parts| ==> parts[i] == Some(chunks[i])
    ensures JoinParts(parts) == Flatten(chunks)
  {
    if parts != [] {
      JoinAll(parts[1..], chunks[1..]);
    }
  }

  /** One slot per packet, and accurate counters. */
  ghost predicate Shape(a: Assembly) {
    |a.parts| == a.count && a.received == CountSome(a.parts) && a.buffered == SumBytes(a.parts)
  }

  /** The assembly holds nothing but parts of the sent frame. */
  ghost predicate Assembled(s: SentFrame, a: Assembly) {
    Shape(a) && a.key == s.key && a.time == s.time && GenuineParts(s, a.parts)
  }

  ghost predicate GenuineParts(s: SentFrame, parts: seq<Part>) {
    |parts| == |s.chunks| && forall i :: 0 <= i < |parts| && parts[i].Some? ==> parts[i].value == s.chunks[i]
  }

  lemma AssembledParts(s: SentFrame, a: Assembly)
    requires Assembled(s, a)
    ensures GenuineParts(s, a.parts) && |a.parts| == |s.chunks| && a.count == |s.chunks|
            && a.key == s.key && a.time == s.time
  {
  }

  lemma EmptyShape(count: nat, key: bool, time: u64)
    ensures Shape(NewAssembly(count, key, time))
  {
    NoParts(count);
  }

  lemma SetShape(a: Assembly, i: nat, payload: seq<byte>)
    requires Shape(a) && !a.HasPart(i)
    ensures Shape(a.Set(i, payload))
  {
    OneMorePart(a.parts, i, payload);
  }

  lemma SetAssembled(s: SentFrame, a: Assembly, i: nat)
    requires Assembled(s, a) && !a.HasPart(i)
    ensures Assembled(s, a.Set(i, s.chunks[i]))
  {
    SetShape(a, i, s.chunks[i]);
  }

  /** A complete assembly joins to the frame. */
  lemma CompleteJoins(s: SentFrame, a: Assembly)
    requires WellFormed(s) && Assembled(s, a)
    ensures a.IsComplete() <==> forall i :: 0 <= i < |a.parts| ==> a.parts[i].Some?
    ensures a.IsComplete() ==> a.Join() == Flatten(s.chunks)
  {
    AllCounted(a.parts);
    if a.IsComplete() {
      JoinAll(a.parts, s.chunks);
      if a.count == 1 {
        assert s.chunks == [s.chunks[0]] && s.chunks[1..] == [];
      }
    }
  }

  // ----- recovery inside one assembly

  /** The first index of the group that packet `i` belongs to. */
  function GroupBase(i: nat): (base: nat)
    ensures base <= i < base + FEC_GROUP_SIZE && base % FEC_GROUP_SIZE == 0
  {
    i / FEC_GROUP_SIZE * FEC_GROUP_SIZE
  }

  /** Part `i` is the only one its group lacks. */
  ghost predicate Lone(parts: seq<Part>, i: nat) {
    && i < |parts| && parts[i].None?
    && forall j :: GroupBase(i) <= j < GroupBase(i) + FEC_GROUP_SIZE && j < |parts| && j != i ==> parts[j].Some?
  }

  /** The parts of group `g` at hand, in index order. */
  method PresentParts(fec: FecMeta, parts: seq<Part>) returns (present: seq<(u16, seq<byte>)>)
    ensures forall k :: 0 <= k < |present| ==>
      InGroup(fec, present[k].0) && present[k].0 < |parts| && parts[present[k].0] == Some(present[k].1)
    ensures forall k, l :: 0 <= k < l < |present| ==> present[k].0 < present[l].0
    ensures forall i: u16 :: InGroup(fec, i) && i < |parts| && parts[i].Some? ==>
      exists k :: 0 <= k < |present| && present[k].0 == i
  {
    present := [];
    var end := GroupEnd(fec);
    var index: nat := fec.base;
    while index < end
      invariant fec.base <= index
      invariant forall k :: 0 <= k < |present| ==>
        InGroup(fec, present[k].0) && present[k].0 < index
        && present[k].0 < |parts| && parts[present[k].0] == Some(present[k].1)
      invariant forall k, l :: 0 <= k < l < |present| ==> present[k].0 < present[l].0
      invariant forall i: u16 :: InGroup(fec, i) && i < index && i < |parts| && parts[i].Some? ==>
        exists k :: 0 <= k < |present| && present[k].0 == i
    {
      if index < |parts| && parts[index].Some? {
        ghost var before := present;
        present := present + [(index, parts[index].value)];
        assert present[|before|].0 == index;
        assert forall k :: 0 <= k < |before| ==> present[k] == before[k];
      }
      index := index + 1;
    }
  }

  /** The members of group `g` that are at hand. */
  ghost function AtHand(parts: seq<Part>, base: nat, size: nat): set<nat>
    requires base + size <= |parts|
  {
    set o | o in Below(size) && parts[base + o].Some?
  }

  lemma SeenIsAtHand(fec: FecMeta, parts: seq<Part>, present: seq<(u16, seq<byte>)>)
    requires fec.base + fec.groupSize <= |parts| && fec.base + fec.groupSize <= 0xFFFF
    requires forall k :: 0 <= k < |present| ==>
      InGroup(fec, present[k].0) && present[k].0 < |parts| && parts[present[k].0] == Some(present[k].1)
    requires forall i: u16 :: InGroup(fec, i) && i < |parts| && parts[i].Some? ==>
      exists k :: 0 <= k < |present| && present[k].0 == i
    ensures Seen(fec, present) == AtHand(parts, fec.base, fec.groupSize)
  {
    var offsets := Offsets(fec, present);
    forall o | o in AtHand(parts, fec.base, fec.groupSize) ensures o in Seen(fec, present) {
      var i: u16 := fec.base + o;
      assert InGroup(fec, i);
      var k :| 0 <= k < |present| && present[k].0 == i;
      assert offsets[k] == o;
    }
    forall o | o in Seen(fec, present) ensures o in AtHand(parts, fec.base, fec.groupSize) {
      var k :| 0 <= k < |offsets| && offsets[k] == o;
      assert present[k].0 == fec.base + o;
    }
  }

  lemma OneMissing(parts: seq<Part>, base: nat, size: nat, m: nat)
    requires base <= m < base + size <= |parts| && parts[m].None?
    ensures |AtHand(parts, base, size)| + 1 == size <==>
            forall j :: base <= j < base + size && j != m ==> parts[j].Some?
  {
    var have := AtHand(parts, base, size);
    if forall j :: base <= j < base + size && j != m ==> parts[j].Some? {
      assert have == Below(size) - {m - base};
    } else {
      var j :| base <= j < base + size && j != m && parts[j].None?;
      var missing := {m - base, j - base};
      assert have <= Below(size) - missing;
      SubsetSize(have, Below(size) - missing);
      assert missing <= Below(size) && |missing| == 2;
    }
  }

  /** A group lacks exactly one part precisely when the part it lacks is a lone one. */
  lemma LoneIsOneMissing(parts: seq<Part>, base: nat, size: nat, m: nat)
    requires 0 < size <= FEC_GROUP_SIZE && base + size <= |parts|
    requires size < FEC_GROUP_SIZE ==> base + size == |parts|
    requires base <= m < base + size && GroupBase(m) == base && m - base !in AtHand(parts, base, size)
    ensures |AtHand(parts, base, size)| + 1 == size <==> Lone(parts, m)
  {
    hide GroupBase, Below;
    assert parts[m].None?;
    OneMissing(parts, base, size, m);
  }

  lemma LoneIsMissing(parts: seq<Part>, base: nat, size: nat, i: nat)
    requires base + size <= |parts| && (size < FEC_GROUP_SIZE ==> base + size == |parts|)
    requires Lone(parts, i) && GroupBase(i) == base
    ensures base <= i < base + size && i - base !in AtHand(parts, base, size)
  {
    hide GroupBase, Below;
  }

  lemma LoneIsUnique(parts: seq<Part>, i: nat, k: nat)
    requires Lone(parts, i) && Lone(parts, k) && GroupBase(i) == GroupBase(k)
    ensures i == k
  {
  }

  /** The group of parity `g`, seen from one of its members. */
  lemma GroupSpan(s: SentFrame, g: nat)
    requires WellFormed(s) && g < GroupCount(|s.chunks|)
    ensures var base, size := g * FEC_GROUP_SIZE, |Group(s.chunks, g)|;
            && base + size <= |s.chunks| && ProtectedGroup(base, Group(s.chunks, g))
            && (forall i: nat :: i < |s.chunks| ==> (GroupBase(i) == base <==> base <= i < base + size))
            && (size < FEC_GROUP_SIZE ==> base + size == |s.chunks|)
  {
    hide GroupBase, MaxLen, GroupCount;
    GroupsAreSmall(s, g);
    GroupMembers(|s.chunks|, g);
  }

  /** The packets of group `g` among `n`. */
  lemma GroupMembers(n: nat, g: nat)
    requires g < GroupCount(n)
    ensures var base, end := g * FEC_GROUP_SIZE, Min((g + 1) * FEC_GROUP_SIZE, n);
            && base < end && forall i: nat :: i < n ==> (GroupBase(i) == base <==> base <= i < end)
  {
    hide DivCeil;
  }

  lemma RecoverPartExact(parts: seq<Part>, present: seq<(u16, seq<byte>)>, r: Option<(u16, seq<byte>)>,
                         s: SentFrame, g: nat)
    requires WellFormed(s) && g < GroupCount(|s.chunks|) && GenuineParts(s, parts)
    requires IsRecovery(GroupParity(s, g), present, r)
    requires forall k :: 0 <= k < |present| ==>
      InGroup(GroupParity(s, g), present[k].0) && present[k].0 < |parts| && parts[present[k].0] == Some(present[k].1)
    requires forall k, l :: 0 <= k < l < |present| ==> present[k].0 < present[l].0
    requires Seen(GroupParity(s, g), present) == AtHand(parts, g * FEC_GROUP_SIZE, GroupParity(s, g).groupSize)
    ensures r.Some? ==> GroupBase(r.value.0) == g * FEC_GROUP_SIZE && Lone(parts, r.value.0)
                        && r.value.1 == s.chunks[r.value.0]
    ensures forall i :: GroupBase(i) == g * FEC_GROUP_SIZE && Lone(parts, i) ==> r.Some? && r.value.0 == i
  {
    hide Seen, IsRecovery, ParityBytes, ParityLen, MaxLen, GroupBase, AtHand, Lone;
    var base, group := g * FEC_GROUP_SIZE, Group(s.chunks, g);
    GroupSpan(s, g);
    assert GroupParity(s, g) == ParityOf(base, group);
    RecoveryOfDistinct(base, group, present, r);
    if r.Some? {
      LoneIsOneMissing(parts, base, |group|, r.value.0);
    }
    forall i | GroupBase(i) == base && Lone(parts, i) ensures r.Some? && r.value.0 == i {
      LoneIsMissing(parts, base, |group|, i);
      LoneIsOneMissing(parts, base, |group|, i);
      LoneIsUnique(parts, i, r.value.0);
    }
  }

  /** Recovery of one group from the parts at hand. With the parity of group `g` and genuine parts it
      succeeds exactly when the group lacks one part, and returns that part of the sent frame. */
  method RecoverPart(fec: FecMeta, parts: seq<Part>, ghost honest: bool, ghost s: SentFrame, ghost g: nat)
    returns (r: Option<(u16, seq<byte>)>)
    requires fec.groupSize <= FEC_GROUP_SIZE
    requires honest ==>
      WellFormed(s) && g < GroupCount(|s.chunks|) && fec == GroupParity(s, g) && GenuineParts(s, parts)
    ensures honest && r.Some? ==> GroupBase(r.value.0) == g * FEC_GROUP_SIZE && Lone(parts, r.value.0)
                                  && r.value.1 == s.chunks[r.value.0]
    ensures honest ==>
            forall i :: GroupBase(i) == g * FEC_GROUP_SIZE && Lone(parts, i) ==> r.Some? && r.value.0 == i
  {
    hide Seen, IsRecovery, ParityBytes, ParityLen, MaxLen, AtHand, GroupBase, Lone;
    var present := PresentParts(fec, parts);
    r := FecRecoverOne(fec, present);
    if honest {
      GroupSpan(s, g);
      SeenIsAtHand(fec, parts, present);
      RecoverPartExact(parts, present, r, s, g);
    }
  }
}
