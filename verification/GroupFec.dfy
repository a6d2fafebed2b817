/** The second parity scheme: repair packet `r` of `k` is the XOR of the data packets whose index is
    `r` modulo `k`. A loss is repaired when it is the only one of its residue class. */
module GroupFec {
  import opened Bytes
  import opened XorParity

  datatype Repair = Repair(repairIdx: u8, covers: seq<u16>, xorPayload: seq<byte>, payloadLen: nat)

  /** The residue class of packet `i` among `k`. */
  function Residue(i: nat, k: nat): nat
    requires k > 0
  {
    i % k
  }

  /** The indices below `n` that are `r` modulo `k`, in order. */
  function CoverList(n: nat, k: nat, r: nat): (s: seq<nat>)
    requires k > 0
    ensures forall i :: i in s <==> 0 <= i < n && Residue(i, k) == r
    ensures forall a, b :: 0 <= a < b < |s| ==> s[a] < s[b]
  {
    if n == 0 then []
    else
      var init := CoverList(n - 1, k, r);
      assert forall a :: 0 <= a < |init| ==> init[a] in init;
      if Residue(n - 1, k) == r then init + [n - 1] else init
  }

  /** The same indices, as a set. */
  ghost function Class(n: nat, k: nat, r: nat): (s: set<nat>)
    requires k > 0
    ensures forall i: nat :: i in s <==> i < n && Residue(i, k) == r
  {
    set i | i in Below(n) && Residue(i, k) == r
  }

  function LongestOf(data: seq<seq<byte>>): (m: nat)
    ensures forall i :: 0 <= i < |data| ==> |data[i]| <= m
  {
    if data == [] then 0
    else
      var last := |data| - 1;
      assert data == data[..last] + [data[last]];
      Max(LongestOf(data[..last]), |data[last]|)
  }

  ghost function RepairByte(data: seq<seq<byte>>, k: nat, r: nat, j: nat): byte
    requires k > 0
  {
    Pow2Values();
    XorOverFits(Column(data, j), Class(|data|, k, r), 8);
    XorOver(Column(data, j), Class(|data|, k, r))
  }

  /** Indices of a group that starts at slot `start` of a frame. */
  function Shifted(start: nat, s: seq<nat>): (t: seq<nat>)
    ensures |t| == |s| && forall c :: 0 <= c < |s| ==> t[c] == start + s[c]
  {
    seq(|s|, c requires 0 <= c < |s| => start + s[c])
  }

  /** Repair packet `r` of a group of packets that starts at slot `start`. */
  ghost predicate IsRepair(data: seq<seq<byte>>, start: nat, k: nat, r: nat, p: Repair)
    requires k > 0
  {
    && r < k && p.covers == Shifted(start, CoverList(|data|, k, r))
    && |p.xorPayload| == p.payloadLen == LongestOf(data)
    && forall j :: 0 <= j < p.payloadLen ==> p.xorPayload[j] == RepairByte(data, k, r, j)
  }

  /** `xor_into`: the accumulator grows to the length of the packet if it is shorter. */
  method XorInto(acc: seq<byte>, data: seq<byte>) returns (acc': seq<byte>)
    ensures |acc'| == Max(|acc|, |data|)
    ensures forall j :: 0 <= j < |acc'| ==> acc'[j] == Xor(PaddedAt(acc, j), PaddedAt(data, j))
  {
    acc' := acc;
    if |data| > |acc'| {
      acc' := acc' + seq(|data| - |acc'|, _ => 0);
    }
    ghost var start := acc';
    for i := 0 to |data|
      invariant |acc'| == |start|
      invariant forall j :: 0 <= j < i ==> acc'[j] == Xor(start[j], data[j])
      invariant forall j :: i <= j < |start| ==> acc'[j] == start[j]
    {
      acc' := acc'[i := XorByte(acc'[i], data[i])];
    }
    forall j | |data| <= j < |start| ensures Xor(start[j], 0) == start[j] {
      XorZero(start[j]);
    }
  }

  ghost function ClassBelow(i: nat, n: nat, k: nat, r: nat): (s: set<nat>)
    requires k > 0
  {
    set x | x in Class(n, k, r) && x < i
  }

  lemma ClassBelowEnds(n: nat, k: nat, r: nat)
    requires k > 0
    ensures ClassBelow(0, n, k, r) == {}
    ensures ClassBelow(n, n, k, r) == Class(n, k, r)
  {
  }

  lemma ClassBelowStep(i: nat, n: nat, k: nat, r: nat)
    requires k > 0 && i < n
    ensures ClassBelow(i + 1, n, k, r)
         == if Residue(i, k) == r then ClassBelow(i, n, k, r) + {i} else ClassBelow(i, n, k, r)
    ensures i !in ClassBelow(i, n, k, r)
  {
  }

  method EncodeRepair(data: seq<seq<byte>>, k: nat, r: nat, payloadLen: nat) returns (p: Repair)
    requires 0 <= r < k && |data| <= 0x1_0000 && payloadLen == LongestOf(data)
    ensures IsRepair(data, 0, k, r, p) && p.repairIdx == r % 256
  {
    hide RepairByte, XorOver, LongestOf, ClassBelow, Class;
    var xorPayload: seq<byte> := seq(payloadLen, _ => 0);
    var covers: seq<u16> := [];
    StartColumns(data);
    ClassBelowEnds(|data|, k, r);
    for i := 0 to |data|
      invariant |xorPayload| == payloadLen
      invariant covers == CoverList(i, k, r)
      invariant forall j :: 0 <= j < payloadLen ==>
        xorPayload[j] == XorOver(Column(data, j), ClassBelow(i, |data|, k, r))
    {
      ClassBelowStep(i, |data|, k, r);
      if Residue(i, k) == r {
        AddColumn(data, ClassBelow(i, |data|, k, r), i);
        xorPayload := XorInto(xorPayload, data[i]);
        covers := covers + [AsU16(i)];
      }
    }
    RepairBytes(data, k, r);
    assert Shifted(0, covers) == covers;
    p := Repair(r % 256, covers, xorPayload, payloadLen);
  }

  lemma StartColumns(data: seq<seq<byte>>)
    ensures forall j: nat :: XorOver(Column(data, j), {}) == 0
  {
    forall j: nat ensures XorOver(Column(data, j), {}) == 0 {
      XorOverEmpty(Column(data, j));
    }
  }

  lemma AddColumn(data: seq<seq<byte>>, s: set<nat>, i: nat)
    requires i < |data| && i !in s
    ensures forall j: nat :: XorOver(Column(data, j), s + {i}) == Xor(XorOver(Column(data, j), s), PaddedAt(data[i], j))
  {
    forall j: nat
      ensures XorOver(Column(data, j), s + {i}) == Xor(XorOver(Column(data, j), s), PaddedAt(data[i], j))
    {
      XorOverAdd(Column(data, j), s, i);
    }
  }

  lemma RepairBytes(data: seq<seq<byte>>, k: nat, r: nat)
    requires k > 0
    ensures forall j: nat :: RepairByte(data, k, r, j) == XorOver(Column(data, j), Class(|data|, k, r))
  {
  }

  /** Repair packet `r` of `k`, byte by byte: it covers the packets whose index leaves remainder `r`, in order, is as
      long as the longest packet of all, and holds the XOR of the covered ones, zero-padded. */
  ghost predicate RepairSays(p: Repair, data: seq<seq<byte>>, k: nat, r: nat)
    requires k > 0
  {
    && p.repairIdx == r % 256 && p.payloadLen == |p.xorPayload|
    && (forall i :: i in p.covers <==> 0 <= i < |data| && i % k == r)
    && (forall a, b :: 0 <= a < b < |p.covers| ==> p.covers[a] < p.covers[b])
    && (forall i :: 0 <= i < |data| ==> |data[i]| <= |p.xorPayload|)
    && (exists i :: 0 <= i < |data| && |data[i]| == |p.xorPayload|)
    && forall j: nat :: j < |p.xorPayload| ==> p.xorPayload[j] == XorFrom(0, CoveredColumn(data, k, r, j))
  }

  /** Byte `j` of every covered packet, and 0 for the others. */
  function CoveredColumn(data: seq<seq<byte>>, k: nat, r: nat, j: nat): (c: seq<nat>)
    requires k > 0
    ensures |c| == |data|
    ensures forall i :: 0 <= i < |data| ==> c[i] == if i % k == r && j < |data[i]| then data[i][j] else 0
  {
    seq(|data|, i requires 0 <= i < |data| => if i % k == r && j < |data[i]| then data[i][j] else 0)
  }

  lemma RepairIsSaid(p: Repair, data: seq<seq<byte>>, k: nat, r: nat)
    requires k > 0 && data != [] && IsRepair(data, 0, k, r, p) && p.repairIdx == r % 256
    ensures RepairSays(p, data, k, r)
  {
    hide RepairByte, XorFrom, CoveredColumn;
    assert Shifted(0, CoverList(|data|, k, r)) == CoverList(|data|, k, r);
    LongestIsOne(data);
    forall j: nat | j < |p.xorPayload| ensures p.xorPayload[j] == XorFrom(0, CoveredColumn(data, k, r, j)) {
      RepairByteIs(data, k, r, j);
    }
  }

  lemma {:induction false} LongestIsOne(data: seq<seq<byte>>)
    requires data != []
    ensures exists i :: 0 <= i < |data| && |data[i]| == LongestOf(data)
  {
    var last := |data| - 1;
    if last > 0 && LongestOf(data[..last]) > |data[last]| {
      LongestIsOne(data[..last]);
      var i :| 0 <= i < last && |data[..last][i]| == LongestOf(data[..last]);
      assert |data[i]| == LongestOf(data);
    } else {
      assert |data[last]| == LongestOf(data);
    }
  }

  lemma RepairByteIs(data: seq<seq<byte>>, k: nat, r: nat, j: nat)
    requires k > 0
    ensures RepairByte(data, k, r, j) == XorFrom(0, CoveredColumn(data, k, r, j))
  {
    hide XorOver, XorFrom;
    XorOverMask(Column(data, j), Class(|data|, k, r), CoveredColumn(data, k, r, j));
  }

  method EncodeRepairs(data: seq<seq<byte>>, k: nat) returns (repairs: seq<Repair>)
    requires |data| <= 0x1_0000
    ensures k == 0 || data == [] ==> repairs == []
    ensures k > 0 && data != [] ==> |repairs| == k && forall r :: 0 <= r < k ==> IsRepair(data, 0, k, r, repairs[r])
    ensures k > 0 && data != [] ==> forall r :: 0 <= r < k ==> RepairSays(repairs[r], data, k, r)
  {
    repairs := [];
    if k == 0 || data == [] {
      return;
    }
    hide IsRepair, RepairSays;
    var payloadLen := LongestOf(data);
    for r := 0 to k
      invariant |repairs| == r
      invariant forall q :: 0 <= q < r ==> IsRepair(data, 0, k, q, repairs[q]) && RepairSays(repairs[q], data, k, q)
    {
      var p := EncodeRepair(data, k, r, payloadLen);
      RepairIsSaid(p, data, k, r);
      repairs := repairs + [p];
    }
  }

  // ----- recovery

  /** The slots still empty. */
  ghost function Losses(data: seq<Option<seq<byte>>>): set<nat> {
    set i | i in Below(|data|) && data[i].None?
  }

  /** The only loss of its residue class. */
  ghost predicate Single(losses: set<nat>, k: nat, i: nat)
    requires k > 0
  {
    i in losses && forall j :: j in losses && j != i ==> Residue(j, k) != Residue(i, k)
  }

  /** The packet, zero-padded or cut to `n` bytes. */
  ghost function Cut(packet: seq<byte>, n: nat): (s: seq<byte>)
    ensures |s| == n && forall j :: 0 <= j < n ==> s[j] == PaddedAt(packet, j)
  {
    seq(n, j requires 0 <= j < n => PaddedAt(packet, j))
  }

  /** Cutting gives the packet itself exactly at its own length. */
  lemma CutIsWhole(packet: seq<byte>, n: nat)
    ensures Cut(packet, n) == packet <==> n == |packet|
  {
  }

  /** What recovery puts into slot `i` of a group when the caller's bound on its length is `len`. */
  ghost function Rebuilt(orig: seq<seq<byte>>, i: nat, len: nat): seq<byte>
    requires i < |orig|
  {
    Cut(orig[i], Min(len, LongestOf(orig)))
  }

  lemma RebuiltIsWhole(orig: seq<seq<byte>>, i: nat, len: nat)
    requires i < |orig|
    ensures Rebuilt(orig, i, len) == orig[i] <==> Min(len, LongestOf(orig)) == |orig[i]|
    ensures len == |orig[i]| ==> Rebuilt(orig, i, len) == orig[i]
  {
    CutIsWhole(orig[i], Min(len, LongestOf(orig)));
  }

  /** Of a group, the packets that arrived are as they were sent and those that were lost before are empty or
      rebuilt. */
  ghost predicate Restored(orig: seq<seq<byte>>, lens: seq<nat>, slots: seq<Option<seq<byte>>>, before: set<nat>) {
    && |slots| == |orig| == |lens|
    && forall i :: 0 <= i < |slots| && slots[i].Some? ==>
         slots[i].value == if i in before then Rebuilt(orig, i, lens[i]) else orig[i]
  }

  /** The covered slots that are empty. */
  method MissingOf(data: seq<Option<seq<byte>>>, covers: seq<nat>) returns (missing: seq<nat>)
    requires forall i :: i in covers ==> i < |data|
    requires forall a, b :: 0 <= a < b < |covers| ==> covers[a] < covers[b]
    ensures forall i :: i in missing <==> i in covers && i < |data| && data[i].None?
    ensures forall a, b :: 0 <= a < b < |missing| ==> missing[a] < missing[b]
  {
    missing := [];
    for c := 0 to |covers|
      invariant forall i :: i in missing <==> i in covers[..c] && i < |data| && data[i].None?
      invariant forall a, b :: 0 <= a < b < |missing| ==> missing[a] < missing[b]
    {
      assert covers[..c + 1] == covers[..c] + [covers[c]];
      assert covers[c] in covers;
      if data[covers[c]].None? {
        assert forall a :: 0 <= a < |missing| ==> missing[a] in covers[..c];
        missing := missing + [covers[c]];
      }
    }
    assert covers[..|covers|] == covers;
  }

  lemma NotBefore(covers: seq<nat>, c: nat)
    requires c < |covers| && forall a, b :: 0 <= a < b < |covers| ==> covers[a] < covers[b]
    ensures covers[c] !in covers[..c]
  {
  }

  method XorIntoTruncating(acc: seq<byte>, data: seq<byte>) returns (acc': seq<byte>)
    ensures |acc'| == |acc|
    ensures forall j :: 0 <= j < |acc| ==> acc'[j] == Xor(acc[j], PaddedAt(data, j))
  {
    acc' := acc;
    for i := 0 to Min(|acc|, |data|)
      invariant |acc'| == |acc|
      invariant forall j :: 0 <= j < i ==> acc'[j] == Xor(acc[j], data[j])
      invariant forall j :: i <= j < |acc| ==> acc'[j] == acc[j]
    {
      acc' := acc'[i := XorByte(acc'[i], data[i])];
    }
    forall j | |data| <= j < |acc| ensures Xor(acc[j], 0) == acc[j] {
      XorZero(acc[j]);
    }
  }

  /** The repair payload with the packets `done` taken out. */
  ghost predicate Partial(acc: seq<byte>, orig: seq<seq<byte>>, k: nat, r: nat, done: set<nat>)
    requires k > 0
  {
    && |acc| == LongestOf(orig)
    && forall j :: 0 <= j < |acc| ==> acc[j] == Xor(RepairByte(orig, k, r, j), XorOver(Column(orig, j), done))
  }

  lemma PartialStart(orig: seq<seq<byte>>, start: nat, k: nat, r: nat, repair: Repair)
    requires k > 0 && IsRepair(orig, start, k, r, repair)
    ensures Partial(repair.xorPayload, orig, k, r, {})
  {
    hide XorOver, LongestOf, RepairByte;
    StartColumns(orig);
    forall j | 0 <= j < |repair.xorPayload| ensures Xor(repair.xorPayload[j], 0) == repair.xorPayload[j] {
      XorZero(repair.xorPayload[j]);
    }
  }

  lemma PartialStep(acc: seq<byte>, acc': seq<byte>, orig: seq<seq<byte>>, k: nat, r: nat, done: set<nat>, i: nat)
    requires k > 0 && Partial(acc, orig, k, r, done) && i < |orig| && i !in done && |acc'| == |acc|
    requires forall j :: 0 <= j < |acc| ==> acc'[j] == Xor(acc[j], PaddedAt(orig[i], j))
    ensures Partial(acc', orig, k, r, done + {i})
  {
    hide XorOver, LongestOf, RepairByte;
    AddColumn(orig, done, i);
    forall j | 0 <= j < |acc|
      ensures acc'[j] == Xor(RepairByte(orig, k, r, j), XorOver(Column(orig, j), done + {i}))
    {
      XorAssociates(RepairByte(orig, k, r, j), XorOver(Column(orig, j), done), PaddedAt(orig[i], j));
    }
  }

  lemma PartialEnd(acc: seq<byte>, orig: seq<seq<byte>>, k: nat, r: nat, t: nat, len: nat)
    requires k > 0 && t in Class(|orig|, k, r) && Partial(acc, orig, k, r, Class(|orig|, k, r) - {t})
    ensures acc[..Min(len, |acc|)] == Rebuilt(orig, t, len)
  {
    hide XorOver, LongestOf;
    RepairBytes(orig, k, r);
    forall j | 0 <= j < |acc| ensures acc[j] == PaddedAt(orig[t], j) {
      XorOverSolve(Column(orig, j), Class(|orig|, k, r), t);
    }
    assert acc[..Min(len, |acc|)] == Rebuilt(orig, t, len);
  }

  /** Rebuilds the one missing packet of a class from its repair packet and the others. */
  method Rebuild(data: seq<Option<seq<byte>>>, len: nat, repair: Repair, target: nat,
                 ghost orig: seq<seq<byte>>, ghost start: nat, ghost k: nat, ghost r: nat)
    returns (packet: seq<byte>)
    requires k > 0 && IsRepair(orig, start, k, r, repair) && start + |orig| <= |data|
    requires start <= target && target - start in Class(|orig|, k, r)
    requires forall i :: i in Class(|orig|, k, r) && i != target - start ==> data[start + i] == Some(orig[i])
    ensures packet == Rebuilt(orig, target - start, len)
  {
    hide Partial, LongestOf, RepairByte, Rebuilt, Residue;
    ghost var t := target - start;
    var acc := repair.xorPayload;
    var covers := repair.covers;
    ghost var list := CoverList(|orig|, k, r);
    ghost var done: set<nat> := {};
    PartialStart(orig, start, k, r, repair);
    for c := 0 to |covers|
      invariant forall i :: i in done <==> i in list[..c] && i != t
      invariant Partial(acc, orig, k, r, done)
    {
      ghost var i := list[c];
      assert list[..c + 1] == list[..c] + [i];
      assert i in list;
      if covers[c] != target {
        NotBefore(list, c);
        ghost var before := acc;
        acc := XorIntoTruncating(acc, data[covers[c]].value);
        PartialStep(before, acc, orig, k, r, done, i);
        done := done + {i};
      }
    }
    assert list[..|list|] == list;
    assert done == Class(|orig|, k, r) - {t};
    PartialEnd(acc, orig, k, r, t, len);
    packet := acc[..Min(len, |acc|)];
  }

  /** The slots of a class that are empty, and whether that is just one. */
  lemma OneMissing(slots: seq<Option<seq<byte>>>, start: nat, k: nat, r: nat, missing: seq<nat>)
    requires k > 0
    requires forall x :: x in missing ==> start <= x < start + |slots|
    requires forall i: nat :: i < |slots| ==> (start + i in missing <==> Residue(i, k) == r && slots[i].None?)
    requires forall a, b :: 0 <= a < b < |missing| ==> missing[a] < missing[b]
    ensures |missing| == 1 <==> exists i: nat :: Single(Losses(slots), k, i) && Residue(i, k) == r
    ensures |missing| == 1 ==> missing[0] >= start
                               && Single(Losses(slots), k, missing[0] - start) && Residue(missing[0] - start, k) == r
  {
    hide Residue;
    var losses := Losses(slots);
    assert forall i: nat :: i < |slots| ==> (start + i in missing <==> i in losses && Residue(i, k) == r);
    if |missing| == 1 {
      var t := missing[0] - start;
      assert missing[0] in missing;
      forall j | j in losses && j != t ensures Residue(j, k) != Residue(t, k) {
        assert missing == [missing[0]];
        assert Residue(j, k) == r ==> start + j in missing;
      }
      assert Single(losses, k, t);
    } else if |missing| >= 2 {
      var x, y := missing[0] - start, missing[1] - start;
      assert missing[0] in missing && missing[1] in missing && missing[0] < missing[1];
      assert x in losses && y in losses && Residue(x, k) == r == Residue(y, k);
    } else {
      assert forall i: nat :: i in losses ==> Residue(i, k) != r;
    }
  }

  /** What is left after some recoveries: slots that were filled had to be single losses of a class
      whose repair packet arrived. */
  ghost predicate Explained(before: set<nat>, now: set<nat>, k: nat, arrived: set<nat>)
    requires k > 0
  {
    now <= before && forall i :: i in before && i !in now ==> Single(before, k, i) && Residue(i, k) in arrived
  }

  lemma SingleNowSingleBefore(before: set<nat>, now: set<nat>, k: nat, arrived: set<nat>, i: nat)
    requires k > 0 && Explained(before, now, k, arrived) && Single(now, k, i)
    ensures Single(before, k, i)
  {
    forall j | j in before && j != i ensures Residue(j, k) != Residue(i, k) {
      if j !in now {
        assert Single(before, k, j);
      }
    }
  }

  lemma NothingLeft(before: set<nat>, now: set<nat>, k: nat, arrived: set<nat>)
    requires k > 0 && Explained(before, now, k, arrived)
    requires forall i: nat :: Single(now, k, i) ==> Residue(i, k) !in arrived
    ensures forall i: nat :: i in now <==> i in before && !(Single(before, k, i) && Residue(i, k) in arrived)
  {
    forall i: nat | i in now && Single(before, k, i) ensures Residue(i, k) !in arrived {
      assert Single(now, k, i);
    }
  }

  /** The `n` entries from `start` on. */
  ghost function Window<T>(s: seq<T>, start: nat, n: nat): (w: seq<T>)
    requires start + n <= |s|
    ensures |w| == n && forall i :: 0 <= i < n ==> w[i] == s[start + i]
  {
    s[start..start + n]
  }

  /** Where a recovery stands: the group in its slots, and every other slot as it was. */
  ghost predicate Underway(data: seq<Option<seq<byte>>>, was: seq<Option<seq<byte>>>, lens: seq<nat>,
                           orig: seq<seq<byte>>, start: nat, k: nat, arrived: set<nat>)
    requires k > 0
  {
    && start + |orig| <= |data| == |was| == |lens|
    && var before := Losses(Window(was, start, |orig|));
    && Restored(orig, Window(lens, start, |orig|), Window(data, start, |orig|), before)
    && Explained(before, Losses(Window(data, start, |orig|)), k, arrived)
    && data[..start] == was[..start] && data[start + |orig|..] == was[start + |orig|..]
  }

  /** Uses one repair packet, if exactly one of the packets it covers is missing. */
  method TryRepair(data: array<Option<seq<byte>>>, lens: seq<nat>, repair: Repair, ghost was: seq<Option<seq<byte>>>,
                   ghost orig: seq<seq<byte>>, ghost start: nat, ghost k: nat, ghost r: nat, ghost arrived: set<nat>)
    returns (progressed: bool)
    requires k > 0 && IsRepair(orig, start, k, r, repair) && r in arrived
    requires Underway(data[..], was, lens, orig, start, k, arrived)
    modifies data
    ensures Underway(data[..], was, lens, orig, start, k, arrived)
    ensures progressed ==> |Losses(Window(data[..], start, |orig|))| < |Losses(Window(old(data[..]), start, |orig|))|
    ensures !progressed ==> data[..] == old(data[..])
    ensures !progressed ==>
      forall i: nat :: Single(Losses(Window(data[..], start, |orig|)), k, i) ==> Residue(i, k) != r
  {
    hide XorOver, LongestOf, RepairByte, Single, Explained, Rebuilt, Residue, Window, IsRepair, Restored;
    ghost var n := |orig|;
    ghost var slots := Window(data[..], start, n);
    CoversInside(orig, start, k, r, repair);
    var missing := MissingOf(data[..], repair.covers);
    OneMissing(slots, start, k, r, missing);
    if |missing| != 1 {
      return false;
    }
    var target := missing[0];
    ghost var t := target - start;
    assert missing[0] in missing;
    ghost var before := Losses(Window(was, start, n));
    SingleNowSingleBefore(before, Losses(slots), k, arrived, t);
    OthersArrived(orig, Window(lens, start, n), slots, before, k, r, t, arrived);
    var packet := Rebuild(data[..], lens[target], repair, target, orig, start, k, r);
    UnderwayStep(data[..], was, lens, orig, start, k, arrived, t, packet);
    data[target] := Some(packet);
    assert data[..] == old(data[..])[target := Some(packet)];
    return true;
  }

  /** Filling a slot that is the only loss of its class. */
  lemma UnderwayStep(data: seq<Option<seq<byte>>>, was: seq<Option<seq<byte>>>, lens: seq<nat>, orig: seq<seq<byte>>,
                     start: nat, k: nat, arrived: set<nat>, t: nat, packet: seq<byte>)
    requires k > 0 && Underway(data, was, lens, orig, start, k, arrived)
    requires t < |orig| && data[start + t].None? && packet == Rebuilt(orig, t, lens[start + t])
    requires Single(Losses(Window(was, start, |orig|)), k, t) && Residue(t, k) in arrived
    ensures var data' := data[start + t := Some(packet)];
            && Underway(data', was, lens, orig, start, k, arrived)
            && |Losses(Window(data', start, |orig|))| < |Losses(Window(data, start, |orig|))|
  {
    hide Single, Explained, Rebuilt, Residue, Losses;
    var n := |orig|;
    var slots, before := Window(data, start, n), Losses(Window(was, start, n));
    var data' := data[start + t := Some(packet)];
    FillSlot(slots, t, packet);
    assert Window(data', start, n) == slots[t := Some(packet)];
    ExplainedStep(before, Losses(slots), k, arrived, t);
    SingleIsLost(before, k, t);
    assert data'[..start] == data[..start] && data'[start + n..] == data[start + n..];
  }

  lemma SingleIsLost(losses: set<nat>, k: nat, t: nat)
    requires k > 0 && Single(losses, k, t)
    ensures t in losses
  {
  }

  lemma CoversInside(orig: seq<seq<byte>>, start: nat, k: nat, r: nat, repair: Repair)
    requires k > 0 && IsRepair(orig, start, k, r, repair)
    ensures forall x :: x in repair.covers ==> start <= x < start + |orig|
    ensures forall i: nat :: i < |orig| ==> (start + i in repair.covers <==> Residue(i, k) == r)
    ensures forall a, b :: 0 <= a < b < |repair.covers| ==> repair.covers[a] < repair.covers[b]
  {
    var list := CoverList(|orig|, k, r);
    forall x | x in repair.covers ensures start <= x < start + |orig| {
      var c :| 0 <= c < |list| && repair.covers[c] == x;
      assert list[c] in list;
    }
    forall i: nat | i < |orig| ensures start + i in repair.covers <==> Residue(i, k) == r {
      if Residue(i, k) == r {
        assert i in list;
        var c :| 0 <= c < |list| && list[c] == i;
        assert repair.covers[c] == start + i;
      }
      if start + i in repair.covers {
        var c :| 0 <= c < |list| && repair.covers[c] == start + i;
        assert list[c] in list && list[c] == i;
      }
    }
  }

  lemma ExplainedStep(before: set<nat>, now: set<nat>, k: nat, arrived: set<nat>, t: nat)
    requires k > 0 && Explained(before, now, k, arrived) && Single(before, k, t) && Residue(t, k) in arrived
    ensures Explained(before, now - {t}, k, arrived)
  {
    hide Single;
  }

  /** The other packets of the class of a single loss all arrived. */
  lemma OthersArrived(orig: seq<seq<byte>>, lens: seq<nat>, slots: seq<Option<seq<byte>>>, before: set<nat>,
                      k: nat, r: nat, t: nat, arrived: set<nat>)
    requires k > 0 && Restored(orig, lens, slots, before) && Single(before, k, t) && Residue(t, k) == r
    requires Explained(before, Losses(slots), k, arrived)
    ensures forall i :: i in Class(|orig|, k, r) && i != t ==> slots[i] == Some(orig[i])
  {
    hide Rebuilt;
    forall i | i in Class(|orig|, k, r) && i != t ensures slots[i] == Some(orig[i]) {
      assert i !in before;
      assert i !in Losses(slots);
    }
  }

  lemma FillSlot(data: seq<Option<seq<byte>>>, i: nat, packet: seq<byte>)
    requires i < |data| && data[i].None?
    ensures Losses(data[i := Some(packet)]) == Losses(data) - {i}
    ensures i in Losses(data) && |Losses(data) - {i}| < |Losses(data)|
  {
    assert i in Losses(data);
  }

  /** What recovery leaves in the slots of a group: a lost packet is rebuilt exactly if it is the only loss of
      its class and a repair packet of its class is at hand. */
  ghost function Recovered(slots: seq<Option<seq<byte>>>, orig: seq<seq<byte>>, lens: seq<nat>, k: nat,
                           classes: seq<nat>): (s: seq<Option<seq<byte>>>)
    requires k > 0 && |slots| == |orig| == |lens|
    ensures |s| == |slots|
  {
    seq(|slots|, i requires 0 <= i < |slots| =>
      if slots[i].Some? then slots[i]
      else if Single(Losses(slots), k, i) && Residue(i, k) in classes then Some(Rebuilt(orig, i, lens[i]))
      else None)
  }

  /** The packets of the group that are there are those that were sent. */
  ghost predicate Faithful(orig: seq<seq<byte>>, slots: seq<Option<seq<byte>>>) {
    |slots| == |orig| && forall i :: 0 <= i < |slots| && slots[i].Some? ==> slots[i].value == orig[i]
  }

  /** `recover`, for a group that starts at any slot of a frame and with any bounds on the packet lengths. It
      terminates; the repair packets may come in any order and more than once; slots outside the group keep
      their contents. */
  method Recover(data: array<Option<seq<byte>>>, lens: seq<nat>, repairs: seq<Repair>,
                 ghost orig: seq<seq<byte>>, ghost start: nat, ghost k: nat, ghost classes: seq<nat>)
    requires k > 0 && start + |orig| <= data.Length == |lens| && Faithful(orig, Window(data[..], start, |orig|))
    requires |classes| == |repairs|
    requires forall t :: 0 <= t < |repairs| ==> IsRepair(orig, start, k, classes[t], repairs[t])
    modifies data
    ensures Window(data[..], start, |orig|)
         == Recovered(Window(old(data[..]), start, |orig|), orig, Window(lens, start, |orig|), k, classes)
    ensures data[..start] == old(data[..start]) && data[start + |orig|..] == old(data[start + |orig|..])
  {
    hide IsRepair, Underway, Recovered, Single, Residue, Window;
    ghost var arrived := set r | r in classes;
    ghost var was, n := data[..], |orig|;
    Begin(was, lens, orig, start, k, arrived);
    var progressed := true;
    while progressed
      invariant Underway(data[..], was, lens, orig, start, k, arrived)
      invariant !progressed ==>
        forall i: nat :: Single(Losses(Window(data[..], start, n)), k, i) ==> Residue(i, k) !in arrived
      decreases |Losses(Window(data[..], start, n))|, progressed
    {
      progressed := false;
      ghost var now := data[..];
      for t := 0 to |repairs|
        invariant Underway(data[..], was, lens, orig, start, k, arrived)
        invariant !progressed ==> data[..] == now
        invariant progressed ==> |Losses(Window(data[..], start, n))| < |Losses(Window(now, start, n))|
        invariant !progressed ==>
          forall i: nat :: Single(Losses(Window(data[..], start, n)), k, i) ==> Residue(i, k) !in classes[..t]
      {
        var p := TryRepair(data, lens, repairs[t], was, orig, start, k, classes[t], arrived);
        assert classes[..t + 1] == classes[..t] + [classes[t]];
        progressed := progressed || p;
      }
      assert classes[..|repairs|] == classes;
    }
    End(data[..], was, lens, orig, start, k, classes, arrived);
  }

  lemma Begin(was: seq<Option<seq<byte>>>, lens: seq<nat>, orig: seq<seq<byte>>, start: nat, k: nat, arrived: set<nat>)
    requires k > 0 && start + |orig| <= |was| == |lens| && Faithful(orig, Window(was, start, |orig|))
    ensures Underway(was, was, lens, orig, start, k, arrived)
  {
    hide Rebuilt, Single;
  }

  lemma End(data: seq<Option<seq<byte>>>, was: seq<Option<seq<byte>>>, lens: seq<nat>, orig: seq<seq<byte>>,
            start: nat, k: nat, classes: seq<nat>, arrived: set<nat>)
    requires k > 0 && start + |orig| <= |was| && Faithful(orig, Window(was, start, |orig|))
    requires Underway(data, was, lens, orig, start, k, arrived) && arrived == (set r | r in classes)
    requires forall i: nat :: Single(Losses(Window(data, start, |orig|)), k, i) ==> Residue(i, k) !in arrived
    ensures Window(data, start, |orig|)
         == Recovered(Window(was, start, |orig|), orig, Window(lens, start, |orig|), k, classes)
    ensures data[..start] == was[..start] && data[start + |orig|..] == was[start + |orig|..]
  {
    hide Rebuilt, Single;
    var n := |orig|;
    var slots, before, now := Window(data, start, n), Losses(Window(was, start, n)), Losses(Window(data, start, n));
    NothingLeft(before, now, k, arrived);
    forall i: nat | i < n
      ensures slots[i] == Recovered(Window(was, start, n), orig, Window(lens, start, n), k, classes)[i]
    {
      assert i in now <==> slots[i].None?;
      assert i in before <==> Window(was, start, n)[i].None?;
    }
  }

  // ----- a whole group

  /** What survives of a group: packet `i` arrived unless `lost[i]`. */
  method Surviving(orig: seq<seq<byte>>, lost: seq<bool>) returns (data: array<Option<seq<byte>>>)
    requires |lost| == |orig|
    ensures fresh(data) && data.Length == |orig|
    ensures forall i :: 0 <= i < |orig| ==> data[i] == if lost[i] then None else Some(orig[i])
  {
    data := new Option<seq<byte>>[|orig|](i requires 0 <= i < |orig| == |lost| =>
      if lost[i] then None else Some(orig[i]));
  }

  ghost function LostSet(lost: seq<bool>): set<nat> {
    set i | i in Below(|lost|) && lost[i]
  }

  /** What a group looks like after losses and recovery. */
  ghost predicate GroupResult(result: seq<Option<seq<byte>>>, orig: seq<seq<byte>>, k: nat, lost: seq<bool>,
                              picks: seq<nat>, lens: seq<nat>)
    requires k > 0 && |lost| == |orig| == |lens|
  {
    && |result| == |orig|
    && forall i :: 0 <= i < |orig| ==>
         result[i] == if !lost[i] then Some(orig[i])
                      else if Single(LostSet(lost), k, i) && Residue(i, k) in picks then Some(Rebuilt(orig, i, lens[i]))
                      else None
  }

  /** A group is encoded, any packets are lost, and any of the repair packets arrive, in any order and any
      number of times (`picks`). Slot `i` stays empty exactly if packet `i` was lost and is not the only loss
      of its class or has no repair packet; a slot that is filled again holds the packet, zero-padded or cut
      to the caller's bound or the group's longest packet. */
  method RepairGroup(orig: seq<seq<byte>>, k: nat, lost: seq<bool>, picks: seq<nat>, lens: seq<nat>)
    returns (result: seq<Option<seq<byte>>>)
    requires orig != [] && |orig| <= 0x1_0000 && |lost| == |orig| == |lens| && k > 0
    requires forall t :: 0 <= t < |picks| ==> picks[t] < k
    ensures GroupResult(result, orig, k, lost, picks, lens)
  {
    hide IsRepair, Single, Rebuilt, Residue;
    var all := EncodeRepairs(orig, k);
    var repairs := seq(|picks|, t requires 0 <= t < |picks| && |all| == k && picks[t] < k => all[picks[t]]);
    var data := Surviving(orig, lost);
    ghost var slots := data[..];
    assert Window(slots, 0, |orig|) == slots && Window(lens, 0, |orig|) == lens;
    assert Losses(slots) == LostSet(lost);
    Recover(data, lens, repairs, orig, 0, k, picks);
    result := data[..];
    assert result == Window(result, 0, |orig|);
  }

  /** With the true lengths at hand every slot that is filled holds its packet. */
  method RepairExactly(orig: seq<seq<byte>>, k: nat, lost: seq<bool>, picks: seq<nat>)
    returns (result: seq<Option<seq<byte>>>)
    requires orig != [] && |orig| <= 0x1_0000 && |lost| == |orig| && k > 0
    requires forall t :: 0 <= t < |picks| ==> picks[t] < k
    ensures |result| == |orig|
    ensures forall i :: 0 <= i < |orig| ==>
      result[i] == if !lost[i] || (Single(LostSet(lost), k, i) && Residue(i, k) in picks) then Some(orig[i]) else None
  {
    hide Single, Rebuilt, Residue;
    var lens := seq(|orig|, i requires 0 <= i < |orig| => |orig[i]|);
    result := RepairGroup(orig, k, lost, picks, lens);
    forall i | 0 <= i < |orig| ensures Rebuilt(orig, i, lens[i]) == orig[i] {
      RebuiltIsWhole(orig, i, lens[i]);
    }
  }

  // ----- what the scheme can and cannot repair

  /** The whole group comes back exactly when no class has two losses and every class with a loss has its
      repair packet. */
  method RepairsAll(orig: seq<seq<byte>>, k: nat, lost: seq<bool>, picks: seq<nat>)
    returns (result: seq<Option<seq<byte>>>, all: bool)
    requires orig != [] && |orig| <= 0x1_0000 && |lost| == |orig| && k > 0
    requires forall t :: 0 <= t < |picks| ==> picks[t] < k
    ensures |result| == |orig| && (all <==> forall i :: 0 <= i < |orig| ==> result[i] == Some(orig[i]))
    ensures all <==>
      && (forall i, j :: 0 <= i < j < |orig| && lost[i] && lost[j] ==> Residue(i, k) != Residue(j, k))
      && (forall i :: 0 <= i < |orig| && lost[i] ==> Residue(i, k) in picks)
  {
    hide Residue, Single;
    result := RepairExactly(orig, k, lost, picks);
    all := true;
    for i := 0 to |orig|
      invariant all <==> forall j :: 0 <= j < i ==> result[j] == Some(orig[j])
    {
      all := all && result[i].Some?;
    }
    forall i: nat | i < |orig| && lost[i]
      ensures Single(LostSet(lost), k, i) <==>
              forall j: nat | j < |orig| && lost[j] && j != i :: Residue(j, k) != Residue(i, k)
    {
      SingleIs(lost, k, i);
    }
  }

  lemma SingleIs(lost: seq<bool>, k: nat, i: nat)
    requires k > 0 && i < |lost| && lost[i]
    ensures Single(LostSet(lost), k, i) <==>
            forall j: nat | j < |lost| && lost[j] && j != i :: Residue(j, k) != Residue(i, k)
  {
    hide Residue;
    var losses := LostSet(lost);
    assert forall j: nat :: j in losses <==> j < |lost| && lost[j];
  }

  /** Two packets of a group are lost and all repair packets arrive: both come back if their indices differ
      modulo `k`, and otherwise neither does. */
  method TwoLosses(orig: seq<seq<byte>>, k: nat, i: nat, j: nat) returns (result: seq<Option<seq<byte>>>)
    requires i < j < |orig| <= 0x1_0000 && k > 0
    ensures |result| == |orig| && forall m :: 0 <= m < |orig| && m != i && m != j ==> result[m] == Some(orig[m])
    ensures result[i] == Some(orig[i]) <==> i % k != j % k
    ensures result[j] == Some(orig[j]) <==> i % k != j % k
    ensures i % k == j % k ==> result[i] == None && result[j] == None
  {
    hide Single;
    var lost := seq(|orig|, m => m == i || m == j);
    var picks := seq(k, t => t);
    result := RepairExactly(orig, k, lost, picks);
    SingleIs(lost, k, i);
    SingleIs(lost, k, j);
    ModBound(i, k);
    ModBound(j, k);
    assert picks[i % k] == i % k && picks[j % k] == j % k;
  }

  lemma ModBound(i: nat, k: nat)
    requires k > 0
    ensures 0 <= i % k < k
  {
  }

  /** Two repair packets do not recover any two losses: of a group of six or eight packets, those of the two
      modes that use the scheme, packets 0 and 2 are lost, both repair packets arrive, and neither comes back. */
  method TwoRepairsMissTwoLosses(orig: seq<seq<byte>>) returns (result: seq<Option<seq<byte>>>)
    requires |orig| == 6 || |orig| == 8
    ensures |result| == |orig| && result[0] == None && result[2] == None
  {
    result := TwoLosses(orig, 2, 0, 2);
  }

  // ----- the session's use of it

  const LEN_PREFIX_BYTES: nat := 2

  /** `[true_len: u16 BE][chunk bytes]` */
  function Unit(chunk: seq<byte>): (u: seq<byte>)
    requires |chunk| < 0x1_0000
  {
    [|chunk| / 256, |chunk| % 256] + chunk
  }

  function Stripped(u: seq<byte>): Option<seq<byte>> {
    if |u| < LEN_PREFIX_BYTES then None
    else
      var len := 256 * (u[0] as int) + u[1] as int;
      if LEN_PREFIX_BYTES + len <= |u| then Some(u[LEN_PREFIX_BYTES..LEN_PREFIX_BYTES + len]) else None
  }

  /** The length of a unit stands in its first two bytes, the high one first; what follows may be longer. */
  lemma StrippedSays(u: seq<byte>, chunk: seq<byte>)
    ensures Stripped(u) == Some(chunk) <==>
            |u| >= 2 + |chunk| && Be16(u, 0) == |chunk| && u[2..2 + |chunk|] == chunk
  {
  }

  /** The prefix gives the chunk back from any padded copy of its unit, and from no shorter one. */
  lemma StripsPadding(chunk: seq<byte>, n: nat)
    requires |chunk| < 0x1_0000
    ensures n >= |Unit(chunk)| ==> Stripped(Cut(Unit(chunk), n)) == Some(chunk)
    ensures LEN_PREFIX_BYTES <= n < |Unit(chunk)| ==> Stripped(Cut(Unit(chunk), n)) == None
    ensures |Unit(chunk)| == 2 + |chunk| && Be16(Unit(chunk), 0) == |chunk| && Unit(chunk)[2..] == chunk
  {
    var u := Cut(Unit(chunk), n);
    if n >= |Unit(chunk)| {
      assert u[LEN_PREFIX_BYTES..LEN_PREFIX_BYTES + |chunk|] == chunk;
    }
  }

  /** The receiver's reconstruction of a repair packet of the group in slots `start` to `end`. */
  method SessionRepair(start: nat, end: nat, k: nat, repairIdx: u8, payload: seq<byte>,
                       ghost orig: seq<seq<byte>>, ghost sent: Repair)
    returns (p: Repair)
    requires k > 0 && start + |orig| == end <= 0x1_0000
    requires IsRepair(orig, 0, k, repairIdx, sent) && payload == sent.xorPayload
    ensures IsRepair(orig, start, k, repairIdx, p)
  {
    hide IsRepair, CoverList, Shifted, Residue;
    var covers: seq<u16> := [];
    NoCovers(start, k, repairIdx);
    for i := start to end
      invariant covers == Shifted(start, CoverList(i - start, k, repairIdx))
    {
      CoverStep(start, i - start, k, repairIdx);
      if Residue(i - start, k) == repairIdx {
        covers := covers + [AsU16(i)];
      }
    }
    p := Repair(repairIdx, covers, payload, |payload|);
    Relocated(orig, start, k, repairIdx, sent, p);
  }

  lemma NoCovers(start: nat, k: nat, r: nat)
    requires k > 0
    ensures Shifted(start, CoverList(0, k, r)) == []
  {
  }

  lemma CoverStep(start: nat, m: nat, k: nat, r: nat)
    requires k > 0
    ensures Shifted(start, CoverList(m + 1, k, r))
         == Shifted(start, CoverList(m, k, r)) + if Residue(m, k) == r then [start + m] else []
  {
    hide Residue;
  }

  lemma Relocated(orig: seq<seq<byte>>, start: nat, k: nat, r: nat, sent: Repair, p: Repair)
    requires k > 0 && IsRepair(orig, 0, k, r, sent) && p.covers == Shifted(start, CoverList(|orig|, k, r))
    requires p.xorPayload == sent.xorPayload && p.payloadLen == |p.xorPayload|
    ensures IsRepair(orig, start, k, r, p)
  {
    hide RepairByte, LongestOf, CoverList, Shifted;
  }

  /** A group of length-prefixed units, with the bound that the session uses for every slot: anything at
      least as long as the longest unit. Whatever is filled yields its chunk. */
  method RepairUnits(chunks: seq<seq<byte>>, k: nat, lost: seq<bool>, picks: seq<nat>, bound: nat)
    returns (result: seq<Option<seq<byte>>>)
    requires 0 < |chunks| == |lost| <= 0x1_0000 && k > 0
    requires forall i :: 0 <= i < |chunks| ==> |chunks[i]| < 0x1_0000 && |chunks[i]| + LEN_PREFIX_BYTES <= bound
    requires forall t :: 0 <= t < |picks| ==> picks[t] < k
    ensures |result| == |chunks|
    ensures forall i :: 0 <= i < |chunks| ==>
      if !lost[i] || (Single(LostSet(lost), k, i) && Residue(i, k) in picks)
      then result[i].Some? && Stripped(result[i].value) == Some(chunks[i])
      else result[i].None?
  {
    hide Single, Residue, Stripped, Cut, Unit;
    var units := seq(|chunks|, i requires 0 <= i < |chunks| && |chunks[i]| < 0x1_0000 => Unit(chunks[i]));
    var lens := seq(|chunks|, _ => bound);
    result := RepairGroup(units, k, lost, picks, lens);
    forall i | 0 <= i < |chunks|
      ensures Stripped(units[i]) == Some(chunks[i]) && Stripped(Rebuilt(units, i, bound)) == Some(chunks[i])
    {
      UnitLength(chunks[i]);
      StripsPadding(chunks[i], |units[i]|);
      CutIsWhole(units[i], |units[i]|);
      StripsPadding(chunks[i], Min(bound, LongestOf(units)));
    }
  }

  lemma UnitLength(chunk: seq<byte>)
    requires |chunk| < 0x1_0000
    ensures |Unit(chunk)| == |chunk| + LEN_PREFIX_BYTES
  {
  }
}
