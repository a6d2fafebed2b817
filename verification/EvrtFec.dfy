/** XOR-parity forward error correction of EVRT frames: one parity packet per group of up to
    eight data packets, from which exactly one lost packet can be rebuilt. */
module EvrtFec {
  import opened Bytes
  import opened XorParity
  import opened EvrtWire

  const FEC_GROUP_SIZE: nat := 8
  const FEC_HEADER_LEN: nat := 5

  datatype FecMeta = FecMeta(base: u16, groupSize: u8, xorLen: u16, xorPayload: seq<byte>)

  function GroupCount(n: nat): nat {
    DivCeil(n, FEC_GROUP_SIZE)
  }

  /** The data chunks that parity packet `g` covers. */
  function Group(chunks: seq<seq<byte>>, g: nat): (group: seq<seq<byte>>)
    requires g < GroupCount(|chunks|)
    ensures 0 < |group| <= FEC_GROUP_SIZE
  {
    chunks[g * FEC_GROUP_SIZE..Min((g + 1) * FEC_GROUP_SIZE, |chunks|)]
  }

  function MaxLen(group: seq<seq<byte>>): (m: nat)
    ensures forall i :: 0 <= i < |group| ==> |group[i]| <= m
    ensures group != [] ==> exists i :: 0 <= i < |group| && |group[i]| == m
  {
    if group == [] then 0
    else
      var last := |group| - 1;
      assert group == group[..last] + [group[last]];
      Max(MaxLen(group[..last]), |group[last]|)
  }

  ghost function ParityByte(group: seq<seq<byte>>, j: nat): byte {
    Pow2Values();
    XorOverFits(Column(group, j), Below(|group|), 8);
    XorOver(Column(group, j), Below(|group|))
  }

  /** The XOR of the zero-padded packets of a group. */
  ghost function ParityBytes(group: seq<seq<byte>>, len: nat): (s: seq<byte>)
    ensures |s| == len
    ensures forall j :: 0 <= j < len ==> s[j] == ParityByte(group, j)
  {
    seq(len, j requires 0 <= j < len => ParityByte(group, j))
  }

  /** The XOR of the packet lengths of a group. */
  ghost function ParityLen(group: seq<seq<byte>>): u16
    requires forall i :: 0 <= i < |group| ==> |group[i]| < 0x1_0000
  {
    Pow2Values();
    XorOverFits(Lengths(group), Below(|group|), 16);
    XorOver(Lengths(group), Below(|group|))
  }

  /** The parity metadata of a group that starts at packet index `base`. */
  ghost function ParityOf(base: u16, group: seq<seq<byte>>): FecMeta
    requires |group| <= FEC_GROUP_SIZE && MaxLen(group) < 0x1_0000
  {
    FecMeta(base, |group|, ParityLen(group), ParityBytes(group, MaxLen(group)))
  }

  function FecPayload(m: FecMeta): seq<byte> {
    ToBE(m.base, 2) + [m.groupSize] + ToBE(m.xorLen, 2) + m.xorPayload
  }

  function ParseFecPayload(payload: seq<byte>): Option<FecMeta> {
    if |payload| < FEC_HEADER_LEN then None
    else
      var groupSize := payload[2];
      if groupSize == 0 || groupSize > FEC_GROUP_SIZE then None
      else Some(FecMeta(FieldU16(payload[0..2]), groupSize, FieldU16(payload[3..5]), payload[FEC_HEADER_LEN..]))
  }

  /** The payload byte by byte: the first covered packet, how many are covered, the XOR of their lengths, and from byte
      5 on the XOR of their zero-padded bytes, as long as the longest of them. */
  ghost predicate ParityLaidOut(payload: seq<byte>, first: nat, group: seq<seq<byte>>) {
    && |payload| >= 5 && Be16(payload, 0) == first && payload[2] == |group|
    && Be16(payload, 3) == XorFrom(0, Lengths(group))
    && (forall i :: 0 <= i < |group| ==> |group[i]| <= |payload| - 5)
    && (exists i :: 0 <= i < |group| && |group[i]| == |payload| - 5)
    && forall j: nat :: j < |payload| - 5 ==> payload[5 + j] == XorFrom(0, Column(group, j))
  }

  lemma FecPayloadLaidOut(base: u16, group: seq<seq<byte>>)
    requires 0 < |group| <= FEC_GROUP_SIZE && MaxLen(group) < 0x1_0000
    ensures ParityLaidOut(FecPayload(ParityOf(base, group)), base, group)
  {
    hide XorFrom, MaxLen, Column, Lengths, ParityByte, ParityLen, ToBE;
    var m := ParityOf(base, group);
    var p := FecPayload(m);
    Be16Reads(base);
    Be16Reads(m.xorLen);
    BeInside(p, 0, ToBE(base, 2));
    BeInside(p, 3, ToBE(m.xorLen, 2));
    XorOfLengths(group);
    forall j: nat | j < |p| - 5 ensures p[5 + j] == XorFrom(0, Column(group, j)) {
      assert p[5 + j] == ParityByte(group, j);
      XorOfColumn(group, j);
    }
  }

  lemma XorOfLengths(group: seq<seq<byte>>)
    requires forall i :: 0 <= i < |group| ==> |group[i]| < 0x1_0000
    ensures ParityLen(group) == XorFrom(0, Lengths(group))
  {
    hide XorFrom, XorOver, Below;
    XorOverAll(Lengths(group), |group|);
    assert Lengths(group)[..|group|] == Lengths(group);
  }

  lemma XorOfColumn(group: seq<seq<byte>>, j: nat)
    ensures ParityByte(group, j) == XorFrom(0, Column(group, j))
  {
    hide XorFrom, XorOver, Below;
    XorOverAll(Column(group, j), |group|);
    assert Column(group, j)[..|group|] == Column(group, j);
  }

  lemma FecPayloadExact(payload: seq<byte>, m: FecMeta)
    ensures ParseFecPayload(payload) == Some(m) <==>
            payload == FecPayload(m) && 0 < m.groupSize <= FEC_GROUP_SIZE
  {
    Widths();
    if payload == FecPayload(m) {
      BERoundTrip(m.base, 2);
      BERoundTrip(m.xorLen, 2);
      assert payload[0..2] == ToBE(m.base, 2);
      assert payload[3..5] == ToBE(m.xorLen, 2);
      assert payload[5..] == m.xorPayload;
    }
    if ParseFecPayload(payload) == Some(m) {
      BEBytes(payload[0..2]);
      BEBytes(payload[3..5]);
      assert payload == payload[0..2] + [payload[2]] + payload[3..5] + payload[5..];
    }
  }

  // ----- building parity

  /** XORs a packet into the accumulator; the missing tail counts as zero. */
  method XorInto(acc: array<byte>, chunk: seq<byte>)
    requires |chunk| <= acc.Length
    modifies acc
    ensures forall j :: 0 <= j < acc.Length ==> acc[j] == Xor(old(acc[j]), PaddedAt(chunk, j))
  {
    for i := 0 to |chunk|
      invariant forall j :: 0 <= j < i ==> acc[j] == Xor(old(acc[j]), PaddedAt(chunk, j))
      invariant forall j :: i <= j < acc.Length ==> acc[j] == old(acc[j])
    {
      acc[i] := XorByte(acc[i], chunk[i]);
    }
    forall j | |chunk| <= j < acc.Length ensures Xor(old(acc[j]), 0) == acc[j] {
      XorZero(acc[j]);
    }
  }

  lemma ColumnsStart(group: seq<seq<byte>>)
    ensures forall j: nat :: XorOver(Column(group, j), {}) == 0
    ensures XorOver(Lengths(group), {}) == 0
  {
    forall j: nat ensures XorOver(Column(group, j), {}) == 0 {
      XorOverEmpty(Column(group, j));
    }
    XorOverEmpty(Lengths(group));
  }

  lemma ColumnsStep(group: seq<seq<byte>>, c: nat)
    requires c < |group|
    ensures forall j: nat :: XorOver(Column(group, j), Below(c + 1))
                          == Xor(XorOver(Column(group, j), Below(c)), PaddedAt(group[c], j))
    ensures XorOver(Lengths(group), Below(c + 1)) == Xor(XorOver(Lengths(group), Below(c)), |group[c]|)
  {
    assert Below(c + 1) == Below(c) + {c};
    forall j: nat ensures XorOver(Column(group, j), Below(c + 1))
                       == Xor(XorOver(Column(group, j), Below(c)), PaddedAt(group[c], j)) {
      XorOverAdd(Column(group, j), Below(c), c);
    }
    XorOverAdd(Lengths(group), Below(c), c);
  }

  method XorGroup(group: seq<seq<byte>>, maxLen: nat) returns (xorPayload: seq<byte>, xorLen: u16)
    requires |group| <= FEC_GROUP_SIZE && maxLen == MaxLen(group) < 0x1_0000
    ensures xorPayload == ParityBytes(group, maxLen)
    ensures xorLen == ParityLen(group)
  {
    hide XorOver, Xor, Column, Lengths, MaxLen;
    var acc := new byte[maxLen](_ => 0);
    xorLen := 0;
    ColumnsStart(group);
    for c := 0 to |group|
      invariant forall j :: 0 <= j < maxLen ==> acc[j] == XorOver(Column(group, j), Below(c))
      invariant xorLen == XorOver(Lengths(group), Below(c))
    {
      ColumnsStep(group, c);
      XorInto(acc, group[c]);
      xorLen := XorU16(xorLen, AsU16(|group[c]|));
    }
    xorPayload := acc[..];
  }

  /** The parity packet of group `g`. */
  ghost function ParityPacket(flags: u16, frameId: u32, time: u64, chunks: seq<seq<byte>>, g: nat): Packet
    requires g < GroupCount(|chunks|) && MaxLen(Group(chunks, g)) < 0x1_0000
  {
    Packet(Header(TYPE_FEC, flags, frameId, AsU16(g), AsU16(GroupCount(|chunks|)), time),
           FecPayload(ParityOf(AsU16(g * FEC_GROUP_SIZE), Group(chunks, g))))
  }

  /** Whether the parity of group `g` fits one datagram; otherwise the group goes unprotected. */
  predicate GroupFits(chunks: seq<seq<byte>>, auth: Auth, g: nat)
    requires g < GroupCount(|chunks|)
  {
    FEC_HEADER_LEN + MaxLen(Group(chunks, g)) <= MaxPayload(auth)
  }

  /** The datagrams of the parity packets of the first `n` groups, unprotected groups skipped. */
  ghost function ParityDatagrams(flags: u16, frameId: u32, time: u64, chunks: seq<seq<byte>>, auth: Auth, n: nat)
    : seq<seq<byte>>
    requires n <= GroupCount(|chunks|)
  {
    if n == 0 then []
    else
      ParityDatagrams(flags, frameId, time, chunks, auth, n - 1)
      + (if GroupFits(chunks, auth, n - 1)
         then [BuildAuthenticated(ParityPacket(flags, frameId, time, chunks, n - 1), auth)]
         else [])
  }

  method BuildFecPacket(frameId: u32, time: u64, flags: u16, chunks: seq<seq<byte>>, g: nat)
    returns (p: Packet)
    requires g < GroupCount(|chunks|) && MaxLen(Group(chunks, g)) < 0x1_0000
    ensures p == ParityPacket(flags, frameId, time, chunks, g)
  {
    var group := Group(chunks, g);
    var base := AsU16(g * FEC_GROUP_SIZE);
    var xorPayload, xorLen := XorGroup(group, MaxLen(group));
    var meta := FecMeta(base, |group|, xorLen, xorPayload);
    p := Packet(Header(TYPE_FEC, flags, frameId, AsU16(g), AsU16(GroupCount(|chunks|)), time), FecPayload(meta));
  }

  method BuildFecPackets(frameId: u32, time: u64, flags: u16, chunks: seq<seq<byte>>, auth: Auth)
    returns (out: seq<seq<byte>>)
    ensures out == if GroupCount(|chunks|) > MAX_FRAME_PACKET_COUNT then []
                   else ParityDatagrams(flags, frameId, time, chunks, auth, GroupCount(|chunks|))
  {
    hide BuildAuthenticated, ParityPacket, MaxLen, Group;
    out := [];
    var totalGroups := GroupCount(|chunks|);
    if totalGroups > MAX_FRAME_PACKET_COUNT {
      return;
    }
    for g := 0 to totalGroups
      invariant out == ParityDatagrams(flags, frameId, time, chunks, auth, g)
    {
      if FEC_HEADER_LEN + MaxLen(Group(chunks, g)) > MaxPayload(auth) {
        continue;
      }
      var p := BuildFecPacket(frameId, time, flags, chunks, g);
      out := out + [BuildAuthenticated(p, auth)];
    }
  }

  // ----- recovering a lost packet

  /** One past the last index of the group; the addition saturates. */
  function GroupEnd(fec: FecMeta): u16 {
    Min(fec.base + fec.groupSize, 0xFFFF)
  }

  predicate InGroup(fec: FecMeta, index: u16) {
    fec.base <= index < GroupEnd(fec)
  }

  /** The offset of a group member, or an offset outside the group for any other index. */
  function OffsetOf(fec: FecMeta, index: u16): nat {
    if InGroup(fec, index) then index - fec.base else fec.groupSize
  }

  function Offsets(fec: FecMeta, present: seq<(u16, seq<byte>)>): (s: seq<nat>)
    ensures |s| == |present|
  {
    seq(|present|, k requires 0 <= k < |present| => OffsetOf(fec, present[k].0))
  }

  /** The group members that occur in `present`. */
  ghost function Seen(fec: FecMeta, present: seq<(u16, seq<byte>)>): set<nat> {
    set p | p in Offsets(fec, present) && p < fec.groupSize
  }

  /** The values that entry by entry are XORed into byte `j` of the parity. */
  function ByteTerms(fec: FecMeta, present: seq<(u16, seq<byte>)>, j: nat): (s: seq<nat>)
    ensures |s| == |present|
  {
    seq(|present|, k requires 0 <= k < |present| =>
      if InGroup(fec, present[k].0) then PaddedAt(present[k].1, j) else 0)
  }

  function LenTerms(fec: FecMeta, present: seq<(u16, seq<byte>)>): (s: seq<nat>)
    ensures |s| == |present|
  {
    seq(|present|, k requires 0 <= k < |present| =>
      if InGroup(fec, present[k].0) then AsU16(|present[k].1|) else 0)
  }

  /** What recovery returns: nothing unless exactly one group member is absent and the resulting
      length is plausible; otherwise that member's index and the parity XORed with all entries. */
  ghost predicate IsRecovery(fec: FecMeta, present: seq<(u16, seq<byte>)>, r: Option<(u16, seq<byte>)>) {
    var len := XorFrom(fec.xorLen, LenTerms(fec, present));
    && (r.Some? <==> |Seen(fec, present)| + 1 == fec.groupSize && len <= |fec.xorPayload|)
    && (r.Some? ==>
          && 0 <= r.value.0 - fec.base < fec.groupSize
          && r.value.0 - fec.base !in Seen(fec, present)
          && |r.value.1| == len
          && forall j :: 0 <= j < len ==> r.value.1[j] == XorFrom(fec.xorPayload[j], ByteTerms(fec, present, j)))
  }

  /** The distinct offsets seen so far, and how many they are. */
  method CountSeen(fec: FecMeta, present: seq<(u16, seq<byte>)>) returns (seen: array<bool>, count: nat)
    requires fec.groupSize <= FEC_GROUP_SIZE
    ensures fresh(seen) && seen.Length == FEC_GROUP_SIZE
    ensures forall o :: 0 <= o < FEC_GROUP_SIZE ==> (seen[o] <==> o in Seen(fec, present))
    ensures count == |Seen(fec, present)|
  {
    hide Seen, GroupEnd;
    seen := new bool[FEC_GROUP_SIZE](_ => false);
    count := 0;
    NoneSeen(fec);
    assert present[..0] == [];
    for k := 0 to |present|
      invariant forall o :: 0 <= o < FEC_GROUP_SIZE ==> (seen[o] <==> o in Seen(fec, present[..k]))
      invariant count == |Seen(fec, present[..k])|
    {
      var index := present[k].0;
      SeenStep(fec, present, k);
      if index >= fec.base && index < GroupEnd(fec) {
        var off := index - fec.base;
        if off < FEC_GROUP_SIZE && !seen[off] {
          seen[off] := true;
          count := count + 1;
        }
      }
    }
    assert present[..|present|] == present;
  }

  lemma NoneSeen(fec: FecMeta)
    ensures Seen(fec, []) == {}
  {
  }

  lemma SeenStep(fec: FecMeta, present: seq<(u16, seq<byte>)>, k: nat)
    requires k < |present| && fec.groupSize <= FEC_GROUP_SIZE
    ensures var seen := Seen(fec, present[..k]);
            && Seen(fec, present[..k + 1])
               == (if InGroup(fec, present[k].0) then seen + {present[k].0 - fec.base} else seen)
            && (InGroup(fec, present[k].0) ==> present[k].0 - fec.base < FEC_GROUP_SIZE)
            && |Seen(fec, present[..k + 1])|
               == |seen| + if InGroup(fec, present[k].0) && present[k].0 - fec.base !in seen then 1 else 0
  {
    var seen := Seen(fec, present[..k]);
    assert InGroup(fec, present[k].0) && present[k].0 - fec.base in seen ==> seen + {present[k].0 - fec.base} == seen;
    assert Offsets(fec, present[..k + 1]) == Offsets(fec, present[..k]) + [OffsetOf(fec, present[k].0)];
  }

  method FecRecoverOne(fec: FecMeta, present: seq<(u16, seq<byte>)>) returns (r: Option<(u16, seq<byte>)>)
    requires fec.groupSize <= FEC_GROUP_SIZE
    ensures IsRecovery(fec, present, r)
  {
    hide XorFrom, ByteTerms, LenTerms, Seen, Below, GroupEnd;
    var seen, count := CountSeen(fec, present);
    if count + 1 != fec.groupSize {
      return None;
    }
    ghost var m := TheMissingOffset(fec, present);
    var missing := 0;
    while seen[missing]
      invariant 0 <= missing <= m
      decreases m - missing
    {
      missing := missing + 1;
    }
    MissingIndexFits(fec, present);
    var recovered, len := XorPresent(fec, present);
    if len > |recovered| {
      return None;
    }
    return Some((fec.base + missing, recovered[..len]));
  }

  /** XORs every group member of `present` into a copy of the parity. */
  method XorPresent(fec: FecMeta, present: seq<(u16, seq<byte>)>) returns (recovered: seq<byte>, len: u16)
    ensures |recovered| == |fec.xorPayload|
    ensures forall j :: 0 <= j < |recovered| ==>
      recovered[j] == XorFrom(fec.xorPayload[j], ByteTerms(fec, present, j))
    ensures len == XorFrom(fec.xorLen, LenTerms(fec, present))
  {
    hide XorFrom, ByteTerms, LenTerms, Xor;
    var acc := new byte[|fec.xorPayload|](j requires 0 <= j < |fec.xorPayload| => fec.xorPayload[j]);
    len := fec.xorLen;
    forall j | 0 <= j < acc.Length ensures XorFrom(fec.xorPayload[j], ByteTerms(fec, present, j)[..0]) == acc[j] {
      XorFromStart(fec.xorPayload[j], ByteTerms(fec, present, j));
    }
    XorFromStart(fec.xorLen, LenTerms(fec, present));
    for k := 0 to |present|
      invariant forall j :: 0 <= j < acc.Length ==>
        acc[j] == XorFrom(fec.xorPayload[j], ByteTerms(fec, present, j)[..k])
      invariant len == XorFrom(fec.xorLen, LenTerms(fec, present)[..k])
    {
      TermsStep(fec, present, k);
      var (index, payload) := present[k];
      if index >= fec.base && index < GroupEnd(fec) {
        XorInto(acc, payload[..Min(|payload|, acc.Length)]);
        len := XorU16(len, AsU16(|payload|));
      }
    }
    forall j | 0 <= j < acc.Length ensures ByteTerms(fec, present, j)[..|present|] == ByteTerms(fec, present, j) {
    }
    assert LenTerms(fec, present)[..|present|] == LenTerms(fec, present);
    recovered := acc[..];
  }

  lemma TermsStep(fec: FecMeta, present: seq<(u16, seq<byte>)>, k: nat)
    requires k < |present|
    ensures forall j: nat, x: nat ::
      XorFrom(x, ByteTerms(fec, present, j)[..k + 1])
      == if InGroup(fec, present[k].0)
         then Xor(XorFrom(x, ByteTerms(fec, present, j)[..k]), PaddedAt(present[k].1, j))
         else XorFrom(x, ByteTerms(fec, present, j)[..k])
    ensures XorFrom(fec.xorLen, LenTerms(fec, present)[..k + 1])
      == if InGroup(fec, present[k].0) then Xor(XorFrom(fec.xorLen, LenTerms(fec, present)[..k]), AsU16(|present[k].1|))
         else XorFrom(fec.xorLen, LenTerms(fec, present)[..k])
  {
    forall j: nat, x: nat
      ensures XorFrom(x, ByteTerms(fec, present, j)[..k + 1])
        == if InGroup(fec, present[k].0)
           then Xor(XorFrom(x, ByteTerms(fec, present, j)[..k]), PaddedAt(present[k].1, j))
           else XorFrom(x, ByteTerms(fec, present, j)[..k])
    {
      XorFromStep(x, ByteTerms(fec, present, j), k);
    }
    XorFromStep(fec.xorLen, LenTerms(fec, present), k);
  }

  lemma XorFromStart(x: nat, terms: seq<nat>)
    ensures XorFrom(x, terms[..0]) == x
  {
  }

  lemma XorFromStep(x: nat, terms: seq<nat>, k: nat)
    requires k < |terms|
    ensures XorFrom(x, terms[..k + 1]) == Xor(XorFrom(x, terms[..k]), terms[k])
    ensures terms[k] == 0 ==> XorFrom(x, terms[..k + 1]) == XorFrom(x, terms[..k])
  {
    assert terms[..k + 1][..k] == terms[..k];
    XorZero(XorFrom(x, terms[..k]));
  }

  lemma TheMissingOffset(fec: FecMeta, present: seq<(u16, seq<byte>)>) returns (m: nat)
    requires |Seen(fec, present)| + 1 == fec.groupSize
    ensures m < fec.groupSize && m !in Seen(fec, present)
    ensures Seen(fec, present) == Below(fec.groupSize) - {m}
  {
    var seen: set<nat> := Seen(fec, present);
    var all := Below(fec.groupSize);
    assert seen <= all && |all - seen| == 1;
    m :| m in all - seen;
    assert |all - seen - {m}| == 0;
    assert seen == all - {m};
  }

  /** The saturating end of the group leaves no way to miss exactly one member of a group that
      would run past index 65535. */
  lemma MissingIndexFits(fec: FecMeta, present: seq<(u16, seq<byte>)>)
    requires |Seen(fec, present)| + 1 == fec.groupSize
    ensures fec.base + fec.groupSize <= 0x1_0000
  {
    var reach: nat := Max(GroupEnd(fec) - fec.base, 0);
    assert Seen(fec, present) <= Below(reach);
    SubsetSize(Seen(fec, present), Below(reach));
  }

  lemma SubsetSize(a: set<nat>, b: set<nat>)
    requires a <= b
    ensures |a| <= |b|
  {
    assert b == a + (b - a);
  }

  // ----- correctness of recovery

  /** Entries of `present` that belong to the group carry the group's packets. */
  ghost predicate Genuine(base: u16, group: seq<seq<byte>>, present: seq<(u16, seq<byte>)>) {
    forall k :: 0 <= k < |present| && base <= present[k].0 < base + |group| ==>
      present[k].1 == group[present[k].0 - base]
  }

  /** The group members that are listed, but an even number of times: they cancel out of the sums. */
  ghost function Cancelled(base: u16, group: seq<seq<byte>>, present: seq<(u16, seq<byte>)>): set<nat>
    requires ProtectedGroup(base, group)
  {
    var fec := ParityOf(base, group);
    Seen(fec, present) - Odd(Offsets(fec, present), |group|)
  }

  /** What cancelled adds up to nothing in the bytes and the length of packet `m`. */
  ghost predicate Harmless(group: seq<seq<byte>>, cancelled: set<nat>, m: nat)
    requires m < |group|
  {
    && XorOver(Lengths(group), cancelled) == 0
    && forall j :: 0 <= j < |group[m]| ==> XorOver(Column(group, j), cancelled) == 0
  }

  ghost predicate ProtectedGroup(base: u16, group: seq<seq<byte>>) {
    0 < |group| <= FEC_GROUP_SIZE && base + |group| <= 0xFFFF && MaxLen(group) < 0x1_0000
  }

  lemma OffsetFacts(base: u16, group: seq<seq<byte>>, present: seq<(u16, seq<byte>)>)
    requires ProtectedGroup(base, group) && Genuine(base, group, present)
    ensures var offsets := Offsets(ParityOf(base, group), present);
            forall k :: 0 <= k < |present| && offsets[k] < |group| ==>
              present[k].0 == base + offsets[k] && present[k].1 == group[offsets[k]]
  {
    hide ParityBytes, ParityLen, MaxLen;
    var fec := ParityOf(base, group);
    assert fec.base == base && fec.groupSize == |group|;
    hide ParityOf;
  }

  /** Taking the listed members out of the sum over the group leaves the missing one and what cancelled. */
  lemma SumLeft(col: seq<nat>, seen: set<nat>, odd: set<nat>, m: nat)
    requires m < |col| && seen == Below(|col|) - {m} && odd <= seen
    ensures Xor(XorOver(col, Below(|col|)), XorOver(col, odd)) == Xor(XorOver(col, seen - odd), col[m])
  {
    hide XorOver, Xor;
    XorOverDiff(col, Below(|col|), odd);
    assert Below(|col|) - odd == (seen - odd) + {m};
    XorOverAdd(col, seen - odd, m);
  }

  lemma OddAmongSeen(base: u16, group: seq<seq<byte>>, present: seq<(u16, seq<byte>)>)
    requires ProtectedGroup(base, group)
    ensures Odd(Offsets(ParityOf(base, group), present), |group|) <= Seen(ParityOf(base, group), present)
  {
  }

  lemma LeftByte(base: u16, group: seq<seq<byte>>, present: seq<(u16, seq<byte>)>, m: nat, j: nat)
    requires ProtectedGroup(base, group) && Genuine(base, group, present)
    requires m < |group| && Seen(ParityOf(base, group), present) == Below(|group|) - {m}
    ensures XorFrom(ParityByte(group, j), ByteTerms(ParityOf(base, group), present, j))
         == Xor(XorOver(Column(group, j), Cancelled(base, group, present)), PaddedAt(group[m], j))
  {
    hide XorOver, Xor, XorFrom, Odd, Seen, ParityBytes, ParityLen;
    var fec := ParityOf(base, group);
    OffsetFacts(base, group, present);
    OddAmongSeen(base, group, present);
    XorFromOdd(ParityByte(group, j), Column(group, j), Offsets(fec, present), ByteTerms(fec, present, j));
    SumLeft(Column(group, j), Seen(fec, present), Odd(Offsets(fec, present), |group|), m);
  }

  lemma LeftLength(base: u16, group: seq<seq<byte>>, present: seq<(u16, seq<byte>)>, m: nat)
    requires ProtectedGroup(base, group) && Genuine(base, group, present)
    requires m < |group| && Seen(ParityOf(base, group), present) == Below(|group|) - {m}
    ensures XorFrom(ParityLen(group), LenTerms(ParityOf(base, group), present))
         == Xor(XorOver(Lengths(group), Cancelled(base, group, present)), |group[m]|)
  {
    hide XorOver, Xor, XorFrom, Odd, Seen, ParityBytes;
    var fec := ParityOf(base, group);
    OffsetFacts(base, group, present);
    OddAmongSeen(base, group, present);
    XorFromOdd(ParityLen(group), Lengths(group), Offsets(fec, present), LenTerms(fec, present));
    SumLeft(Lengths(group), Seen(fec, present), Odd(Offsets(fec, present), |group|), m);
  }

  /** Given the parity of a group and genuine entries, in any order and listed any number of times, recovery
      returns the right packet if and only if exactly one member is missing and the members that are listed
      an even number of times add up to nothing. */
  lemma RecoveryExact(base: u16, group: seq<seq<byte>>, present: seq<(u16, seq<byte>)>, m: nat,
                      r: Option<(u16, seq<byte>)>)
    requires ProtectedGroup(base, group) && Genuine(base, group, present) && m < |group|
    requires IsRecovery(ParityOf(base, group), present, r)
    ensures r == Some((base + m, group[m])) <==>
            && Seen(ParityOf(base, group), present) == Below(|group|) - {m}
            && Harmless(group, Cancelled(base, group, present), m)
    ensures r.Some? ==> |Seen(ParityOf(base, group), present)| + 1 == |group|
  {
    hide Seen, IsRecovery, MaxLen, ParityBytes, ParityLen, Cancelled, Harmless, Below, Genuine;
    var fec := ParityOf(base, group);
    assert fec.base == base && fec.groupSize == |group|;
    hide ParityOf;
    RecoveredWhen(fec, present, r);
    if |Seen(fec, present)| + 1 == |group| {
      var missing := TheMissingOffset(fec, present);
      RightPacket(base, group, present, missing, r);
      OnlyMissing(|group|, missing, m);
    } else {
      OneLess(|group|, m);
    }
  }

  lemma RecoveredWhen(fec: FecMeta, present: seq<(u16, seq<byte>)>, r: Option<(u16, seq<byte>)>)
    requires IsRecovery(fec, present, r)
    ensures r.Some? ==> |Seen(fec, present)| + 1 == fec.groupSize
    ensures r.Some? ==> 0 <= r.value.0 - fec.base < fec.groupSize && r.value.0 - fec.base !in Seen(fec, present)
  {
  }

  /** The packet that is returned for the missing member is right exactly if nothing harmful cancelled. */
  lemma RightPacket(base: u16, group: seq<seq<byte>>, present: seq<(u16, seq<byte>)>, m: nat,
                    r: Option<(u16, seq<byte>)>)
    requires ProtectedGroup(base, group) && Genuine(base, group, present) && m < |group|
    requires Seen(ParityOf(base, group), present) == Below(|group|) - {m}
    requires IsRecovery(ParityOf(base, group), present, r)
    ensures r.Some? ==> r.value.0 == base + m
    ensures r.Some? && r.value.1 == group[m] <==> Harmless(group, Cancelled(base, group, present), m)
  {
    hide Seen, XorFrom, ByteTerms, LenTerms, MaxLen, ParityByte, ParityLen, Cancelled, XorOver, Xor, Genuine;
    var fec, cancelled := ParityOf(base, group), Cancelled(base, group, present);
    OneLess(|group|, m);
    LeftLength(base, group, present, m);
    XorKeeps(XorOver(Lengths(group), cancelled), |group[m]|);
    forall j | 0 <= j < |group[m]|
      ensures XorFrom(ParityByte(group, j), ByteTerms(fec, present, j)) == group[m][j]
         <==> XorOver(Column(group, j), cancelled) == 0
    {
      LeftByte(base, group, present, m, j);
      XorKeeps(XorOver(Column(group, j), cancelled), group[m][j]);
    }
  }

  lemma OnlyMissing(n: nat, a: nat, b: nat)
    requires a < n && b < n
    ensures Below(n) - {a} == Below(n) - {b} <==> a == b
  {
    assert a in Below(n) && b in Below(n);
    if a != b {
      assert b in Below(n) - {a} && b !in Below(n) - {b};
    }
  }

  lemma OneLess(n: nat, m: nat)
    requires m < n
    ensures |Below(n) - {m}| + 1 == n
  {
  }

  /** No group member is listed twice. */
  ghost predicate Distinct(base: u16, group: seq<seq<byte>>, present: seq<(u16, seq<byte>)>) {
    forall k, l :: 0 <= k < l < |present| && base <= present[k].0 < base + |group| ==>
      present[k].0 != present[l].0
  }

  /** With distinct entries nothing cancels: recovery succeeds exactly when one member is missing, and then
      returns that member's index and payload. */
  lemma {:induction false} RecoveryOfDistinct(base: u16, group: seq<seq<byte>>, present: seq<(u16, seq<byte>)>,
                                              r: Option<(u16, seq<byte>)>)
    requires ProtectedGroup(base, group) && Genuine(base, group, present) && Distinct(base, group, present)
    requires IsRecovery(ParityOf(base, group), present, r)
    ensures var seen := Seen(ParityOf(base, group), present);
            && (r.Some? <==> |seen| + 1 == |group|)
            && (r.Some? ==> base <= r.value.0 < base + |group| && r.value.0 - base !in seen
                            && r.value.1 == group[r.value.0 - base])
  {
    hide IsRecovery, MaxLen, ParityBytes, ParityLen, Genuine, Seen, Distinct, Below;
    if |Seen(ParityOf(base, group), present)| + 1 == |group| {
      var m := DistinctRecovered(base, group, present, r);
    } else {
      RecoveryExact(base, group, present, 0, r);
    }
  }

  lemma DistinctRecovered(base: u16, group: seq<seq<byte>>, present: seq<(u16, seq<byte>)>, r: Option<(u16, seq<byte>)>)
    returns (m: nat)
    requires ProtectedGroup(base, group) && Genuine(base, group, present) && Distinct(base, group, present)
    requires IsRecovery(ParityOf(base, group), present, r)
    requires |Seen(ParityOf(base, group), present)| + 1 == |group|
    ensures m < |group| && m !in Seen(ParityOf(base, group), present) && r == Some((base + m, group[m]))
  {
    hide IsRecovery, MaxLen, ParityBytes, ParityLen, Cancelled, Harmless, Genuine, Seen, Distinct, Below;
    m := TheMissingOffset(ParityOf(base, group), present);
    NothingCancels(base, group, present, m);
    RecoveryExact(base, group, present, m, r);
  }

  lemma NothingCancels(base: u16, group: seq<seq<byte>>, present: seq<(u16, seq<byte>)>, m: nat)
    requires ProtectedGroup(base, group) && Distinct(base, group, present) && m < |group|
    ensures Harmless(group, Cancelled(base, group, present), m)
  {
    hide XorOver, MaxLen, ParityBytes, ParityLen;
    var fec := ParityOf(base, group);
    DistinctIsOdd(Offsets(fec, present), |group|);
    assert Cancelled(base, group, present) == {};
    ColumnsStart(group);
  }

  /** What cancelling does: a survivor that is listed twice drops out of the sums. In a group of
      any two packets of equal, positive length, recovery then returns an empty packet in place of the
      missing one. */
  lemma RepeatedEntryCancels(base: u16, a: seq<byte>, b: seq<byte>, r: Option<(u16, seq<byte>)>)
    requires 0 < |a| == |b| < 0x1_0000 && base + 2 <= 0xFFFF
    requires MaxLen([a, b]) < 0x1_0000 && IsRecovery(ParityOf(base, [a, b]), [(base, a), (base, a)], r)
    ensures r == Some((base + 1, []))
  {
    hide MaxLen, ParityBytes, ParityLen, ByteTerms, LenTerms, Seen, XorFrom;
    EqualLengthsCancel(a, b);
    TwiceSeen(ParityOf(base, [a, b]), a);
    TwiceLength(ParityOf(base, [a, b]), a);
  }

  lemma TwiceSeen(fec: FecMeta, a: seq<byte>)
    requires fec.groupSize == 2 && fec.base + 2 <= 0xFFFF
    ensures var seen := Seen(fec, [(fec.base, a), (fec.base, a)]); seen == {0} && |seen| == 1
  {
    var present := [(fec.base, a), (fec.base, a)];
    assert Offsets(fec, present) == [0, 0];
    assert Seen(fec, present) == {0};
  }

  lemma TwiceLength(fec: FecMeta, a: seq<byte>)
    requires fec.groupSize == 2 && fec.base + 2 <= 0xFFFF && |a| < 0x1_0000
    ensures XorFrom(0, LenTerms(fec, [(fec.base, a), (fec.base, a)])) == 0
  {
    hide XorFrom;
    var terms := LenTerms(fec, [(fec.base, a), (fec.base, a)]);
    assert terms == [|a|, |a|];
    XorFromStart(0, terms);
    XorFromStep(0, terms, 0);
    XorFromStep(0, terms, 1);
    assert terms[..2] == terms;
    XorCancel(0, |a|);
  }

  lemma EqualLengthsCancel(a: seq<byte>, b: seq<byte>)
    requires |a| == |b| < 0x1_0000
    ensures ParityLen([a, b]) == 0
  {
    var col := Lengths([a, b]);
    ColumnsStart([a, b]);
    ColumnsStep([a, b], 0);
    ColumnsStep([a, b], 1);
    XorCancel(0, |a|);
  }
}
