/** The receiver's reassembler: it rebuilds frames from packets that arrive in any order, with
    losses and duplicates, across several frames in flight. */
module Reassembler {
  import opened Bytes
  import opened EvrtWire
  import opened EvrtFec
  import opened EvrtVideo
  import opened FrameAssembly
  import opened Availability
  import opened ReceiveBuffer

  const REORDER_WINDOW: nat := 4
  const U32_MAX: u32 := 0xFFFF_FFFF

  datatype Output = Output(id: u32, bytes: seq<byte>, key: bool, time: u64)

  predicate IsKey(p: Packet) {
    p.header.flags % 2 == 1
  }

  function SaturatingSub(a: nat, b: nat): nat {
    if a < b then 0 else a - b
  }

  function WrappingSub(a: u32, b: u32): u32 {
    (a - b) % 0x1_0000_0000
  }

  /** Parity metadata of some group of the frame. */
  ghost predicate IsParity(s: SentFrame, m: FecMeta)
    requires WellFormed(s)
  {
    m.base / FEC_GROUP_SIZE < GroupCount(|s.chunks|) && m == GroupParity(s, m.base / FEC_GROUP_SIZE)
  }

  /** The groups that a list of parity metadata covers. */
  ghost function GroupsOf(fecs: seq<FecMeta>): set<nat> {
    set m | m in fecs :: m.base / FEC_GROUP_SIZE
  }

  lemma GroupsOfSnoc(fecs: seq<FecMeta>, k: nat)
    requires k < |fecs|
    ensures GroupsOf(fecs[..k + 1]) == GroupsOf(fecs[..k]) + {fecs[k].base / FEC_GROUP_SIZE}
  {
    assert fecs[..k + 1] == fecs[..k] + [fecs[k]];
  }

  ghost function With(s: set<nat>, i: nat): set<nat> {
    s + {i}
  }

  lemma NotEmpty(a: set<nat>, i: nat)
    ensures With(a, i) != {}
  {
    assert i in With(a, i);
  }

  lemma NoGroups()
    ensures GroupsOf([]) == {}
  {
  }

  lemma GroupsOfPrefix(fecs: seq<FecMeta>, k: nat)
    requires k <= |fecs|
    ensures GroupsOf(fecs[..k]) <= GroupsOf(fecs)
  {
  }

  lemma GroupOfBase(g: nat)
    ensures forall i: nat :: GroupBase(i) == g * FEC_GROUP_SIZE <==> i / FEC_GROUP_SIZE == g
  {
  }

  /** The only part that group `g` lacks, if there is just one. */
  ghost predicate IsLone(parts: seq<Part>, g: nat, m: Option<nat>) {
    match m
    case Some(i) => i / FEC_GROUP_SIZE == g && Lone(parts, i)
    case None => forall i: nat :: i / FEC_GROUP_SIZE == g ==> !Lone(parts, i)
  }

  lemma LoneIsAbsent(parts: seq<Part>, i: nat)
    requires Lone(parts, i)
    ensures i < |parts| && parts[i].None?
  {
  }

  method Oldest(s: set<u32>) returns (m: u32)
    requires s != {}
    ensures IsOldest(s, m)
  {
    m :| m in s;
    var todo := s - {m};
    while todo != {}
      invariant m in s && todo <= s
      invariant forall k :: k in s && k !in todo ==> m <= k
      decreases |todo|
    {
      var k :| k in todo;
      if k < m {
        m := k;
      }
      todo := todo - {k};
    }
  }

  /** Whether a complete frame can be decoded: a key frame always, a delta frame only with no loss pending
      and directly after the last completed frame, if there is one. */
  predicate Decodable(key: bool, waiting: bool, completed: Option<u32>, id: u32) {
    key || (!waiting && (completed.Some? ==> completed.value + 1 == id))
  }

  lemma FewerFrames(frames: map<u32, Assembly>, k: u32)
    requires k in frames
    ensures |frames - {k}| < |frames|
  {
    assert (frames - {k}).Keys == frames.Keys - {k};
  }

  /** Of the frames other than `id` exactly the survivors are left, and the parity of the others is gone. */
  ghost predicate Evicted(before: map<u32, Assembly>, after: map<u32, Assembly>, parity: map<u32, seq<FecMeta>>,
                          parity': map<u32, seq<FecMeta>>, id: u32, need: nat)
  {
    && SubMap(after, before)
    && Sizes(after - {id}) == Survivors(Sizes(before - {id}), need)
    && parity' == parity - (before.Keys - after.Keys)
  }

  /** Room was made for `need` bytes of frame `id`, which was given up if that did not succeed. */
  ghost predicate Reserved(before: map<u32, Assembly>, after: map<u32, Assembly>, parity: map<u32, seq<FecMeta>>,
                           parity': map<u32, seq<FecMeta>>, id: u32, need: nat, ok: bool)
  {
    && SubMap(after - {id}, before)
    && Sizes(after - {id}) == Survivors(Sizes(before - {id}), need)
    && (id in before ==> (id in after <==> ok))
    && parity' == parity - (before.Keys - after.Keys) - (if ok then {} else {id})
  }

  lemma EvictedReserves(before: map<u32, Assembly>, after: map<u32, Assembly>, parity: map<u32, seq<FecMeta>>,
                        parity': map<u32, seq<FecMeta>>, id: u32, need: nat)
    requires Evicted(before, after, parity, parity', id, need) && (id in before ==> id in after)
    ensures Reserved(before, after, parity, parity', id, need, true)
    ensures Reserved(before, after - {id}, parity, parity' - {id}, id, need, false)
  {
    hide Survivors, Sizes;
    assert after - {id} - {id} == after - {id};
    SubMapDrop(after, before, id);
    assert parity' - {id} == parity - (before.Keys - (after - {id}).Keys) - {id};
    assert parity' == parity' - {};
  }

  /** Part `m` of frame `id` was stored, or the frame was given up for lack of room. */
  ghost predicate PartTaken(before: map<u32, Assembly>, after: map<u32, Assembly>, parity: map<u32, seq<FecMeta>>,
                            parity': map<u32, seq<FecMeta>>, id: u32, m: nat, payload: seq<byte>,
                            waiting: bool, waiting': bool)
    requires id in before && !before[id].HasPart(m)
  {
    var a := before[id];
    var ok := HasRoom(before, id, |payload|);
    && Reserved(before, after, parity, parity', id, a.buffered + |payload|, ok)
    && (id in after ==> after[id] == a.Set(m, payload) && waiting' == waiting)
    && (id !in after ==> waiting' == (waiting || !a.key))
  }

  /** There is room for `bytes` more bytes of frame `id`, for a key frame at the cost of others. */
  ghost predicate HasRoom(frames: map<u32, Assembly>, id: u32, bytes: nat)
    requires id in frames
  {
    || Total(frames) + bytes <= MAX_BUFFERED_BYTES
    || (frames[id].key && frames[id].buffered + bytes <= MAX_BUFFERED_BYTES)
  }

  lemma StoredIsTaken(before: map<u32, Assembly>, mid: map<u32, Assembly>, parity: map<u32, seq<FecMeta>>,
                      parity': map<u32, seq<FecMeta>>, id: u32, m: nat, payload: seq<byte>, waiting: bool)
    requires id in before && !before[id].HasPart(m) && SubMap(mid, before) && id in mid
    requires Reserved(before, mid, parity, parity', id, before[id].buffered + |payload|, true)
    requires HasRoom(before, id, |payload|)
    ensures PartTaken(before, mid[id := mid[id].Set(m, payload)], parity, parity', id, m, payload, waiting, waiting)
  {
    hide Survivors, Sizes, HasRoom;
    SamePut(mid, id, mid[id].Set(m, payload));
    assert mid[id := mid[id].Set(m, payload)].Keys == mid.Keys;
  }

  lemma RefusedIsTaken(before: map<u32, Assembly>, after: map<u32, Assembly>, parity: map<u32, seq<FecMeta>>,
                       parity': map<u32, seq<FecMeta>>, id: u32, m: nat, payload: seq<byte>, waiting: bool)
    requires id in before && !before[id].HasPart(m) && id !in after
    requires Reserved(before, after, parity, parity', id, before[id].buffered + |payload|, false)
    requires !HasRoom(before, id, |payload|)
    ensures PartTaken(before, after, parity, parity', id, m, payload, waiting, waiting || !before[id].key)
  {
    hide HasRoom, Reserved;
  }

  lemma ChunkFits(s: SentFrame, i: nat)
    requires WellFormed(s) && i < |s.chunks|
    ensures |s.chunks[i]| <= MAX_BUFFERED_BYTES
  {
  }

  /** The part, if its group is among `f`. */
  ghost function Tried(m: Option<nat>, f: set<nat>): Option<nat> {
    if m.Some? && m.value / FEC_GROUP_SIZE in f then m else None
  }

  /** The part `m` was recovered and stored, or the frame was given up for lack of room; without one nothing
      happened. */
  ghost predicate NewTaken(s: SentFrame, before: map<u32, Assembly>, after: map<u32, Assembly>,
                           parity: map<u32, seq<FecMeta>>, parity': map<u32, seq<FecMeta>>, id: u32, m: Option<nat>,
                           waiting: bool, waiting': bool)
  {
    && id in before
    && match m
       case None => after == before && parity' == parity && waiting' == waiting
       case Some(i) =>
         && i < |s.chunks| && !before[id].HasPart(i)
         && PartTaken(before, after, parity, parity', id, i, s.chunks[i], waiting, waiting')
  }

  lemma NothingTaken(s: SentFrame, frames: map<u32, Assembly>, parity: map<u32, seq<FecMeta>>, id: u32,
                     m: Option<nat>, waiting: bool, parts: seq<Part>)
    requires id in frames
    ensures NewTaken(s, frames, frames, parity, parity, id, Tried(m, {}), waiting, waiting)
    ensures IsNew(parts, {}, m) ==> m.None?
    ensures Tried(m, {}).None?
  {
  }

  lemma NothingNew(parts: seq<Part>, f: set<nat>, m: Option<nat>)
    requires forall i :: 0 <= i < |parts| ==> parts[i].Some?
    ensures IsNew(parts, f, m) ==> m.None?
  {
  }

  lemma AllTried(parts: seq<Part>, f: set<nat>, m: Option<nat>)
    ensures IsNew(parts, f, m) ==> Tried(m, f) == m
  {
    hide Lone;
    if IsNew(parts, f, m) && m.Some? {
      assert m.value / FEC_GROUP_SIZE in f;
    }
  }

  lemma GoneIsTaken(s: SentFrame, before: map<u32, Assembly>, after: map<u32, Assembly>,
                    parity: map<u32, seq<FecMeta>>, parity': map<u32, seq<FecMeta>>, id: u32, m: Option<nat>,
                    f: set<nat>, waiting: bool, waiting': bool)
    requires NewTaken(s, before, after, parity, parity', id, Tried(m, f), waiting, waiting') && id !in after
    ensures NewTaken(s, before, after, parity, parity', id, m, waiting, waiting')
  {
    hide PartTaken;
  }

  lemma CompleteIsTaken(s: SentFrame, before: map<u32, Assembly>, after: map<u32, Assembly>,
                        parity: map<u32, seq<FecMeta>>, parity': map<u32, seq<FecMeta>>, id: u32, m: Option<nat>,
                        f: set<nat>, all: set<nat>, waiting: bool, waiting': bool)
    requires NewTaken(s, before, after, parity, parity', id, Tried(m, f), waiting, waiting') && id in after
    requires IsNew(before[id].parts, all, m)
    requires forall i :: 0 <= i < |after[id].parts| ==> after[id].parts[i].Some?
    ensures NewTaken(s, before, after, parity, parity', id, m, waiting, waiting')
    ensures Tried(m, f) == m
  {
    hide PartTaken;
    if m.Some? {
      assert Lone(before[id].parts, m.value);
    }
  }

  /** The parity of one more group was tried. */
  lemma OneMoreTried(s: SentFrame, before: map<u32, Assembly>, cur: map<u32, Assembly>, after: map<u32, Assembly>,
                     parity: map<u32, seq<FecMeta>>, pending: map<u32, seq<FecMeta>>, parity': map<u32, seq<FecMeta>>,
                     id: u32, m: Option<nat>, f: set<nat>, g: nat, all: set<nat>, lone: Option<nat>,
                     waiting: bool, between: bool, waiting': bool)
    requires NewTaken(s, before, cur, parity, pending, id, Tried(m, f), waiting, between) && id in cur
    requires IsNew(before[id].parts, all, m) && f + {g} <= all && IsLone(cur[id].parts, g, lone)
    requires NewTaken(s, cur, after, pending, parity', id, lone, between, waiting')
    ensures NewTaken(s, before, after, parity, parity', id, Tried(m, f + {g}), waiting, waiting')
    ensures Tried(m, f + {g}).Some? <==> Tried(m, f).Some? || lone.Some?
    ensures (Tried(m, f).Some? ==> lone.None?) && (lone.None? ==> id in after)
  {
    hide Reserved, HasRoom, Lone;
    if Tried(m, f).None? {
      assert lone.Some? ==> Lone(before[id].parts, lone.value) && lone.value / FEC_GROUP_SIZE in all;
      if m.Some? {
        assert Lone(before[id].parts, m.value);
      }
    } else {
      assert Lone(before[id].parts, m.value);
      NoMoreLone(before[id].parts, cur[id].parts, m.value, all, g, lone);
    }
  }

  /** Once the only lone part is stored, no group that was received lacks just one part. */
  lemma NoMoreLone(parts: seq<Part>, parts': seq<Part>, m: nat, all: set<nat>, g: nat, lone: Option<nat>)
    requires IsNew(parts, all, Some(m)) && Lone(parts, m) && g in all && IsLone(parts', g, lone)
    requires |parts'| == |parts| && parts'[m].Some? && forall i :: 0 <= i < |parts| && i != m ==> parts'[i] == parts[i]
    ensures lone.None?
  {
    hide Lone;
    if lone.Some? {
      LoneElsewhere(parts, parts', m, lone.value);
    }
  }

  lemma LoneElsewhere(parts: seq<Part>, parts': seq<Part>, m: nat, i: nat)
    requires Lone(parts, m) && |parts'| == |parts| && parts'[m].Some?
    requires forall j :: 0 <= j < |parts| && j != m ==> parts'[j] == parts[j]
    ensures Lone(parts', i) ==> Lone(parts, i) && i != m
  {
    hide GroupBase;
    if GroupBase(i) <= m < GroupBase(i) + FEC_GROUP_SIZE {
      SameGroup(i, m);
    }
  }

  /** There is room for `need` bytes of frame `id`, for a key frame at the cost of others. */
  ghost predicate Fitting(before: map<u32, Assembly>, id: u32, key: bool, need: nat) {
    key || Sum(Sizes(before - {id})) + need <= MAX_BUFFERED_BYTES
  }

  /** What becomes of frame `id` and of the others when it comes to need `need` bytes, and `first` of them first. A
      delta frame that does not fit is given up, and the others are evicted all the same. */
  ghost predicate Outcome(before: map<u32, Assembly>, after: map<u32, Assembly>, parity: map<u32, seq<FecMeta>>,
                          parity': map<u32, seq<FecMeta>>, id: u32, key: bool, first: nat, need: nat, whole: bool)
  {
    var others, fits := Sizes(before - {id}), Fitting(before, id, key, need);
    && SubMap(after - {id}, before)
    && Sizes(after - {id})
       == Survivors(others, if fits || Sum(others) + first <= MAX_BUFFERED_BYTES then need else first)
    && (id in after <==> fits && !whole)
    && parity' == parity - (before.Keys - {id} - after.Keys) - (if fits && !whole then {} else {id})
  }

  /** Whether all parts are there, with part `m` if it is recovered. */
  ghost predicate WholeWith(parts: seq<Part>, m: Option<nat>) {
    forall i :: 0 <= i < |parts| ==> parts[i].Some? || m == Some(i)
  }

  ghost function BytesWith(s: SentFrame, a: Assembly, m: Option<nat>): nat {
    a.buffered + if m.Some? && m.value < |s.chunks| then |s.chunks[m.value]| else 0
  }

  ghost function PartsWith(s: SentFrame, parts: seq<Part>, m: Option<nat>): seq<Part> {
    if m.Some? && m.value < |s.chunks| && m.value < |parts| then parts[m.value := Some(s.chunks[m.value])] else parts
  }

  lemma WholeIs(s: SentFrame, parts: seq<Part>, m: Option<nat>)
    requires |parts| == |s.chunks| && (m.Some? ==> m.value < |parts|)
    ensures var parts' := PartsWith(s, parts, m);
            WholeWith(parts, m) <==> forall i :: 0 <= i < |parts'| ==> parts'[i].Some?
  {
    var parts' := PartsWith(s, parts, m);
    assert forall i :: 0 <= i < |parts| ==> (parts'[i].Some? <==> parts[i].Some? || m == Some(i));
  }

  /** What can be known of a frame is at most the frame. */
  lemma KnownFits(s: SentFrame, a: set<nat>, f: set<nat>)
    ensures KnownBytes(s.chunks, a, f) <= FrameBytes(s)
  {
    hide Avail;
    StoredBytes(KnownParts(s.chunks, a, f), s.chunks);
  }

  lemma TakenOutcome(s: SentFrame, before: map<u32, Assembly>, mid: map<u32, Assembly>,
                     parity: map<u32, seq<FecMeta>>, parity': map<u32, seq<FecMeta>>, id: u32, m: Option<nat>,
                     waiting: bool, waiting': bool, whole: bool)
    requires NewTaken(s, before, mid, parity, parity', id, m, waiting, waiting') && Total(before) <= MAX_BUFFERED_BYTES
    requires s.key == before[id].key && (s.key ==> BytesWith(s, before[id], m) <= MAX_BUFFERED_BYTES)
    ensures var first, need := before[id].buffered, BytesWith(s, before[id], m);
            && (id in mid <==> Fitting(before, id, s.key, need))
            && waiting' == (waiting || id !in mid)
            && (id in mid ==>
                  && mid[id].parts == PartsWith(s, before[id].parts, m)
                  && Outcome(before, mid, parity, parity', id, s.key, first, need, false)
                  && Outcome(before, mid - {id}, parity, parity' - {id}, id, s.key, first, need, true))
            && (id !in mid ==> Outcome(before, mid, parity, parity', id, s.key, first, need, whole))
  {
    hide Sum, Survivors, Sizes, SubMap;
    TotalSplit(before, id);
    assert mid - {id} - {id} == mid - {id};
    if m.None? {
      SurvivorsFit(Sizes(before - {id}), before[id].buffered);
      SubMapFacts(before, id);
      assert parity' == parity' - {};
      assert before.Keys - {id} - before.Keys == {};
    } else {
      assert before.Keys - mid.Keys == before.Keys - {id} - mid.Keys + if id in mid then {} else {id};
    }
  }

  /** A new data packet and what it makes recoverable are all that becomes known. */
  lemma KnownAfterData(s: SentFrame, parts: seq<Part>, a: set<nat>, f: set<nat>, i: nat, m: Option<nat>)
    requires GenuineParts(s, parts) && Bounded(parts, a, f) && i < |parts| && parts[i].None?
    requires IsNew(parts[i := Some(s.chunks[i])], f, m)
    ensures var parts' := parts[i := Some(s.chunks[i])];
            && PartsWith(s, parts', m) == KnownParts(s.chunks, With(a, i), f)
            && Holds(PartsWith(s, parts', m), With(a, i), f)
            && (m.Some? ==> m.value < |parts| && parts'[m.value].None?)
  {
    hide Avail, Bounded, Holds;
    var parts' := parts[i := Some(s.chunks[i])];
    if m.Some? {
      assert Lone(parts', m.value);
    }
    NewIsRound(parts', f, m, PartsWith(s, parts', m));
    AfterData(parts, a, f, i, s.chunks[i], PartsWith(s, parts', m));
    HoldsIsKnown(s, PartsWith(s, parts', m), With(a, i), f);
  }

  lemma KnownAfterParity(s: SentFrame, parts: seq<Part>, a: set<nat>, f: set<nat>, g: nat, m: Option<nat>)
    requires GenuineParts(s, parts) && Holds(parts, a, f) && IsNew(parts, With(f, g), m)
    ensures PartsWith(s, parts, m) == KnownParts(s.chunks, a, With(f, g))
    ensures Holds(PartsWith(s, parts, m), a, With(f, g)) && (m.Some? ==> m.value < |parts| && parts[m.value].None?)
  {
    hide Avail, Holds;
    if m.Some? {
      assert Lone(parts, m.value);
    }
    HoldsIsBounded(parts, a, f);
    NewIsRound(parts, With(f, g), m, PartsWith(s, parts, m));
    AfterParity(parts, a, f, g, PartsWith(s, parts, m));
    HoldsIsKnown(s, PartsWith(s, parts, m), a, With(f, g));
  }

  /** The bytes with part `m`. */
  lemma PartsWithBytes(s: SentFrame, a: Assembly, m: Option<nat>)
    requires Shape(a) && |a.parts| == |s.chunks| && (m.Some? ==> m.value < |a.parts| && a.parts[m.value].None?)
    ensures SumBytes(PartsWith(s, a.parts, m)) == BytesWith(s, a, m)
  {
    if m.Some? {
      OneMorePart(a.parts, m.value, s.chunks[m.value]);
    }
  }

  /** What is in place with the packet's own part and what it makes recoverable. */
  lemma KnownWithPart(s: SentFrame, slot: Assembly, a: set<nat>, f: set<nat>, i: nat, m: Option<nat>)
    requires GenuineParts(s, slot.parts) && Shape(slot) && Bounded(slot.parts, a, f)
    requires i < |s.chunks| && !slot.HasPart(i) && IsNew(slot.parts[i := Some(s.chunks[i])], f, m)
    ensures var stored := slot.Set(i, s.chunks[i]);
            && Holds(PartsWith(s, stored.parts, m), With(a, i), f)
            && BytesWith(s, stored, m) == KnownBytes(s.chunks, With(a, i), f) >= slot.buffered + |s.chunks[i]|
            && (WholeWith(stored.parts, m) <==> Recoverable(|s.chunks|, With(a, i), f))
  {
    hide Recoverable, Bounded, Lone, KnownParts, Holds;
    var stored := slot.Set(i, s.chunks[i]);
    KnownAfterData(s, slot.parts, a, f, i, m);
    SetShape(slot, i, s.chunks[i]);
    PartsWithBytes(s, stored, m);
    WholeIs(s, stored.parts, m);
    CompleteIffRecoverable(PartsWith(s, stored.parts, m), With(a, i), f);
  }

  /** The packet's own part does not fit. */
  lemma RefusedOutcome(s: SentFrame, held: map<u32, Assembly>, slot: Assembly, after: map<u32, Assembly>,
                       parity: map<u32, seq<FecMeta>>, parity': map<u32, seq<FecMeta>>, id: u32, i: nat,
                       need: nat, whole: bool, waiting: bool, waiting': bool)
    requires i < |s.chunks| && !slot.HasPart(i) && slot.key == s.key && id !in after
    requires PartTaken(held[id := slot], after, parity, parity', id, i, s.chunks[i], waiting, waiting')
    requires s.key ==> slot.buffered + |s.chunks[i]| <= MAX_BUFFERED_BYTES
    requires slot.buffered + |s.chunks[i]| <= need
    ensures !Fitting(held, id, s.key, need) && waiting'
    ensures Outcome(held, after, parity, parity', id, s.key, slot.buffered + |s.chunks[i]|, need, whole)
  {
    hide Sum, Survivors, Sizes, SubMap;
    SamePut(held, id, slot);
    TotalPut(held, id, slot);
    assert after - {id} == after;
    SubMapPut(after, held, id, slot);
    assert held[id := slot].Keys - after.Keys == (held.Keys - {id} - after.Keys) + {id};
  }

  lemma SubMapPut(m: map<u32, Assembly>, n: map<u32, Assembly>, id: u32, a: Assembly)
    requires SubMap(m, n[id := a]) && id !in m
    ensures SubMap(m, n)
  {
  }

  /** The packet's own part was stored, and then what it makes recoverable. */
  lemma StoredOutcome(s: SentFrame, held: map<u32, Assembly>, slot: Assembly, mid: map<u32, Assembly>,
                      after: map<u32, Assembly>, parity: map<u32, seq<FecMeta>>, pending: map<u32, seq<FecMeta>>,
                      parity': map<u32, seq<FecMeta>>, id: u32, i: nat, need: nat, whole: bool, waiting: bool,
                      between: bool)
    requires i < |s.chunks| && !slot.HasPart(i) && slot.key == s.key && id in mid
    requires PartTaken(held[id := slot], mid, parity, pending, id, i, s.chunks[i], waiting, between)
    requires slot.buffered + |s.chunks[i]| <= need
    requires Outcome(mid, after, pending, parity', id, s.key, slot.buffered + |s.chunks[i]|, need, whole)
    ensures Fitting(mid, id, s.key, need) <==> Fitting(held, id, s.key, need)
    ensures Outcome(held, after, parity, parity', id, s.key, slot.buffered + |s.chunks[i]|, need, whole)
  {
    hide Sum, Survivors, Sizes, SubMap;
    var first := slot.buffered + |s.chunks[i]|;
    SamePut(held, id, slot);
    TotalPut(held, id, slot);
    SurvivorsTwice(Sizes(held - {id}), first, need);
    if Sum(Sizes(held - {id})) + first <= MAX_BUFFERED_BYTES {
      SurvivorsFit(Sizes(held - {id}), first);
    }
    SubMapThrough(after, mid, held, id, slot);
    assert held[id := slot].Keys - mid.Keys == held.Keys - {id} - mid.Keys;
    GoneTogether(held.Keys, mid.Keys, after.Keys, id, parity);
  }

  /** A frame that needs no more than it holds keeps its room, and so do the others. */
  lemma NothingMoves(frames: map<u32, Assembly>, parity: map<u32, seq<FecMeta>>, id: u32, key: bool)
    requires id in frames && Total(frames) <= MAX_BUFFERED_BYTES
    ensures var need := frames[id].buffered;
            Fitting(frames, id, key, need) && Outcome(frames, frames, parity, parity, id, key, need, need, false)
  {
    hide Sum, Survivors, Sizes;
    TotalSplit(frames, id);
    SurvivorsFit(Sizes(frames - {id}), frames[id].buffered);
    assert parity - (frames.Keys - {id} - frames.Keys) - {} == parity;
  }

  lemma GoneTogether(held: set<u32>, mid: set<u32>, after: set<u32>, id: u32, parity: map<u32, seq<FecMeta>>)
    requires after - {id} <= mid - {id} <= held - {id}
    ensures parity - (held - {id} - mid) - (mid - {id} - after) == parity - (held - {id} - after)
  {
    forall k ensures k in held - {id} - after <==> k in held - {id} - mid || k in mid - {id} - after {
      assert k in after - {id} ==> k in mid - {id};
      assert k in mid - {id} ==> k in held - {id};
    }
  }

  lemma SubMapThrough(after: map<u32, Assembly>, mid: map<u32, Assembly>, held: map<u32, Assembly>, id: u32,
                      slot: Assembly)
    requires SubMap(after - {id}, mid) && SubMap(mid - {id}, held[id := slot])
    ensures SubMap(after - {id}, held)
    ensures after.Keys - {id} <= mid.Keys - {id} <= held.Keys - {id}
  {
    forall k | k in after - {id} ensures k in held && (after - {id})[k] == held[k] {
      assert k in mid - {id};
      assert k in held[id := slot];
    }
    forall k | k in mid.Keys - {id} ensures k in held.Keys - {id} {
      assert k in mid - {id};
      assert k in held[id := slot];
    }
    forall k | k in after.Keys - {id} ensures k in mid.Keys - {id} {
      assert k in after - {id};
    }
  }

  /** The parity of a frame that stays is kept. */
  lemma ParityStays(held: map<u32, Assembly>, after: map<u32, Assembly>, parity: map<u32, seq<FecMeta>>,
                    parity': map<u32, seq<FecMeta>>, id: u32, key: bool, first: nat, need: nat)
    ensures Outcome(held, after, parity, parity', id, key, first, need, false) && Fitting(held, id, key, need) ==>
              (id in parity' <==> id in parity) && (id in parity ==> parity'[id] == parity[id])
  {
    hide Sum, Survivors, Sizes, Fitting, SubMap;
  }

  lemma MoreGone(all: map<u32, Assembly>, before: map<u32, Assembly>, parity: map<u32, seq<FecMeta>>, k: u32)
    requires k in before && SubMap(before, all)
    ensures parity - (all.Keys - before.Keys) - {k} == parity - (all.Keys - (before - {k}).Keys)
  {
    assert all.Keys - (before - {k}).Keys == (all.Keys - before.Keys) + {k};
  }

  /** Some of the oldest other frames were evicted, and the ones that are to go are still the same. */
  ghost predicate Evicting(all: map<u32, Assembly>, now: map<u32, Assembly>, parity: map<u32, seq<FecMeta>>,
                           parity': map<u32, seq<FecMeta>>, id: u32, need: nat)
  {
    && SubMap(now, all) && SubMap(parity', parity) && (id in all ==> id in now)
    && Survivors(Sizes(now - {id}), need) == Survivors(Sizes(all - {id}), need)
    && parity' == parity - (all.Keys - now.Keys)
  }

  lemma EvictStarts(all: map<u32, Assembly>, parity: map<u32, seq<FecMeta>>, id: u32, need: nat)
    ensures Evicting(all, all, parity, parity, id, need)
  {
    assert all.Keys - all.Keys == {} && parity - {} == parity;
  }

  lemma EvictStep(all: map<u32, Assembly>, now: map<u32, Assembly>, parity: map<u32, seq<FecMeta>>,
                  parity': map<u32, seq<FecMeta>>, id: u32, need: nat, k: u32)
    requires Evicting(all, now, parity, parity', id, need) && Total(now - {id}) + need > MAX_BUFFERED_BYTES
    requires k in now && k != id && IsOldest(now.Keys - {id}, k)
    ensures Evicting(all, now - {k}, parity, parity' - {k}, id, need) && |now - {k}| < |now|
  {
    hide Sum, Survivors, Sizes, SubMap, IsOldest, Total;
    EvictOne(now, id, need, k);
    SubMapDrop(now, all, k);
    SubMapDrop(parity', parity, k);
    FewerFrames(now, k);
    MoreGone(all, now, parity, k);
  }

  /** How one packet of frame `id` moves the completion state. A frame that completes is emitted exactly if
      it is decodable, and a loss is pending afterwards exactly if it is not; `opens` tells whether the
      packet is a data packet of a key frame that is let in, which ends a pending loss at once. */
  ghost predicate Step(id: u32, key: bool, opens: bool, completed: Option<u32>, waiting: bool,
                       completed': Option<u32>, waiting': bool, r: Option<Output>)
  {
    && (completed' == completed || (completed' == Some(id) && (completed.Some? ==> completed.value < id)))
    && (r.Some? ==> r.value.id == id && r.value.key == key && completed' != completed)
    && (completed' != completed ==> (r.Some? <==> Decodable(key, waiting, completed, id)) && (waiting' <==> r.None?))
    && (key && completed' == completed ==> waiting' == (waiting && !opens))
    && (!key && waiting ==> waiting')
  }

  /** A packet that is refused moves nothing but perhaps into a pending loss. */
  lemma StepRefused(id: u32, key: bool, completed: Option<u32>, waiting: bool, waiting': bool)
    requires waiting ==> waiting'
    requires key ==> waiting' == waiting
    ensures Step(id, key, false, completed, waiting, completed, waiting', None)
  {
  }

  /** Admission clears a pending loss, which only a key frame can do. */
  lemma StepAdmitted(id: u32, key: bool, completed: Option<u32>, waiting: bool, completed': Option<u32>,
                     waiting': bool, r: Option<Output>)
    requires Step(id, key, false, completed, false, completed', waiting', r) && (waiting ==> key)
    ensures Step(id, key, key, completed, waiting, completed', waiting', r)
  {
  }

  lemma StepFacts(id: u32, key: bool, opens: bool, completed: Option<u32>, waiting: bool,
                  completed': Option<u32>, waiting': bool, r: Option<Output>)
    requires Step(id, key, opens, completed, waiting, completed', waiting', r)
    ensures completed' != completed ==> (r.Some? <==> Decodable(key, waiting, completed, id)) && (waiting' <==> r.None?)
    ensures completed' == completed ==> r.None?
  {
  }

  lemma DataFacts(sent: map<u32, SentFrame>, p: Packet)
    requires IsData(sent, p)
    ensures p.header.frameId in sent && p.header.index < |sent[p.header.frameId].chunks|
    ensures p.payload == sent[p.header.frameId].chunks[p.header.index]
    ensures ValidFragment(p.header) && IsKey(p) == sent[p.header.frameId].key
  {
  }

  /** A data packet of the sender. */
  ghost predicate IsData(sent: map<u32, SentFrame>, p: Packet) {
    && p.header.frameId in sent && WellFormed(sent[p.header.frameId])
    && p.header.index < |sent[p.header.frameId].chunks|
    && p == DataPacket(p.header.frameId, sent[p.header.frameId], p.header.index)
  }

  /** A parity packet of the sender. */
  ghost predicate IsFec(sent: map<u32, SentFrame>, p: Packet) {
    && p.header.frameId in sent && WellFormed(sent[p.header.frameId])
    && p.header.index < GroupCount(|sent[p.header.frameId].chunks|)
    && p == FecPacket(p.header.frameId, sent[p.header.frameId], p.header.index)
  }

  class ChannelReassembler {
    /** What the sender sent, and whether every packet so far came from it. */
    ghost const sent: map<u32, SentFrame>
    ghost var honest: bool
    var frames: map<u32, Assembly>
    var codecConfig: Option<seq<byte>>
    var latestSeen: Option<u32>
    var latestCompleted: Option<u32>
    var waitingAfterLoss: bool
    var droppedFrames: nat
    var lastDropped: Option<u32>
    var buffered: nat
    var pendingFec: map<u32, seq<FecMeta>>
    var fecRecovered: nat

    /** The buffer account is that of the stored frames. */
    ghost predicate Accounted()
      reads this`frames, this`buffered
    {
      buffered == Total(frames)
    }

    /** Whatever arrives, at most 24 MiB of payload are held, and the frames in flight lie in the reorder
        window behind the newest frame seen. */
    ghost predicate Valid()
      reads this`frames, this`pendingFec, this`honest, this`buffered, this`latestSeen
    {
      Kept() && Windowed()
    }

    ghost predicate Kept()
      reads this`frames, this`pendingFec, this`honest, this`buffered
    {
      && Accounted() && buffered <= MAX_BUFFERED_BYTES
      && (forall id :: id in frames ==> Shape(frames[id]))
      && (forall id :: id in pendingFec ==> forall m :: m in pendingFec[id] ==> m.groupSize <= FEC_GROUP_SIZE)
      && (honest ==> Sincere())
    }

    ghost predicate Windowed()
      reads this`frames, this`latestSeen
    {
      forall id :: id in frames ==> latestSeen.Some? && id <= latestSeen.value <= id + REORDER_WINDOW
    }

    ghost predicate Sincere()
      reads this`frames, this`pendingFec
    {
      && (forall id :: id in sent ==> WellFormed(sent[id]))
      && (forall id :: id in frames ==> id in sent && Assembled(sent[id], frames[id]))
      && (forall id :: id in pendingFec ==> id in sent && forall m :: m in pendingFec[id] ==> IsParity(sent[id], m))
    }

    constructor (ghost sent: map<u32, SentFrame>)
      requires forall id :: id in sent ==> WellFormed(sent[id])
      ensures Valid() && this.sent == sent && honest
      ensures frames == map[] && pendingFec == map[] && buffered == 0 && !waitingAfterLoss
      ensures latestSeen == None && latestCompleted == None && codecConfig == None
    {
      this.sent := sent;
      frames, pendingFec, buffered, waitingAfterLoss := map[], map[], 0, false;
      latestSeen, latestCompleted, codecConfig, lastDropped := None, None, None, None;
      droppedFrames, fecRecovered, honest := 0, 0, true;
    }

    method SetCodecConfig(payload: seq<byte>)
      modifies this`codecConfig
      ensures codecConfig == Some(payload)
    {
      codecConfig := Some(payload);
    }

    /** A frame is counted as dropped once, however often in a row it is reported. */
    method MarkFrameDropped(id: u32)
      modifies this`lastDropped, this`droppedFrames
      ensures lastDropped == Some(id)
      ensures droppedFrames == old(droppedFrames) + if old(lastDropped) == Some(id) then 0 else 1
    {
      if lastDropped != Some(id) {
        lastDropped := Some(id);
        droppedFrames := droppedFrames + 1;
      }
    }

    /** The bytes held for frame `id`. */
    function HeldFor(id: u32): nat
      reads this`frames
    {
      if id in frames then frames[id].buffered else 0
    }

    method DropFrame(id: u32) returns (dropped: bool)
      requires Accounted()
      modifies this`frames, this`pendingFec, this`buffered, this`lastDropped, this`droppedFrames
      ensures Accounted()
      ensures frames == old(frames) - {id} && pendingFec == old(pendingFec) - {id}
      ensures dropped <==> id in old(frames)
      ensures buffered == old(buffered) - old(HeldFor(id))
    {
      pendingFec := pendingFec - {id};
      TotalSplit(frames, id);
      if id in frames {
        var assembly := frames[id];
        frames := frames - {id};
        buffered := SaturatingSub(buffered, assembly.buffered);
        MarkFrameDropped(id);
        return true;
      }
      return false;
    }

    method DropOlderThan(id: u32) returns (count: nat)
      requires Accounted()
      modifies this`frames, this`pendingFec, this`buffered, this`lastDropped, this`droppedFrames
      ensures Accounted()
      ensures frames == From(old(frames), id) && pendingFec == From(old(pendingFec), id)
      ensures count == |OlderKeys(old(frames), id)|
    {
      hide Accounted;
      pendingFec := pendingFec - OlderKeys(pendingFec, id);
      var older := OlderKeys(frames, id);
      count := |older|;
      var todo := older;
      while todo != {}
        invariant Accounted() && todo <= older
        invariant frames == old(frames) - (older - todo)
        invariant pendingFec == From(old(pendingFec), id)
        decreases |todo|
      {
        var k :| k in todo;
        var _ := DropFrame(k);
        todo := todo - {k};
      }
    }

    /** `DropOlderThan` keeps what the invariant says of the stored frames. */
    method ForgetOlderThan(id: u32) returns (count: nat)
      requires Kept()
      modifies this`frames, this`pendingFec, this`buffered, this`lastDropped, this`droppedFrames
      ensures Kept()
      ensures frames == From(old(frames), id) && pendingFec == From(old(pendingFec), id)
      ensures count == |OlderKeys(old(frames), id)|
    {
      hide Shape, Assembled, IsParity, WellFormed, Total;
      count := DropOlderThan(id);
      TotalSub(frames, old(frames));
    }

    method DropOldestExcept(keep: u32) returns (dropped: bool)
      requires Accounted()
      modifies this`frames, this`pendingFec, this`buffered, this`lastDropped, this`droppedFrames
      ensures Accounted()
      ensures !dropped ==> old(frames).Keys <= {keep}
      ensures !dropped ==> frames == old(frames) && pendingFec == old(pendingFec) && buffered == old(buffered)
      ensures dropped ==>
              exists k :: k in old(frames) && k != keep && IsOldest(old(frames).Keys - {keep}, k)
                          && frames == old(frames) - {k} && pendingFec == old(pendingFec) - {k}
    {
      hide Accounted;
      var candidates := frames.Keys - {keep};
      if candidates == {} {
        return false;
      }
      var oldest := Oldest(candidates);
      dropped := DropFrame(oldest);
    }

    /** Makes room for `bytes` more bytes, at the cost of other frames, the oldest first; a delta frame that
        would need that is given up instead. It fails exactly for a delta frame that does not fit beside
        the others, and for a key frame that does not fit by itself. */
    method ReserveBuffer(bytes: nat, id: u32, key: bool) returns (ok: bool)
      requires Accounted()
      modifies this`frames, this`pendingFec, this`buffered, this`lastDropped, this`droppedFrames, this`waitingAfterLoss
      ensures Accounted() && SubMap(frames, old(frames)) && SubMap(pendingFec, old(pendingFec))
      ensures ok <==> old(buffered) + bytes <= MAX_BUFFERED_BYTES
                      || (key && old(HeldFor(id)) + bytes <= MAX_BUFFERED_BYTES)
      ensures ok ==> buffered + bytes <= MAX_BUFFERED_BYTES && (id in old(frames) ==> id in frames)
      ensures !ok ==> id !in frames
      ensures waitingAfterLoss == (old(waitingAfterLoss) || (!ok && !key))
      ensures old(buffered) + bytes <= MAX_BUFFERED_BYTES ==> frames == old(frames) && pendingFec == old(pendingFec)
      ensures bytes <= MAX_BUFFERED_BYTES ==>
              Reserved(old(frames), frames, old(pendingFec), pendingFec, id, old(HeldFor(id)) + bytes, ok)
    {
      hide Accounted, Total, SubMap, Evicted, Reserved, Sizes, Survivors;
      SubMapFacts(frames, id);
      SubMapFacts(pendingFec, id);
      HeldIsBuffered(id);
      if bytes > MAX_BUFFERED_BYTES {
        var _ := DropFrame(id);
        if !key {
          waitingAfterLoss := true;
        }
        return false;
      }
      var fits, droppedAny := EvictOthers(bytes, id);
      SubMapDrop(frames, old(frames), id);
      SubMapDrop(pendingFec, old(pendingFec), id);
      EvictedReserves(old(frames), frames, old(pendingFec), pendingFec, id, old(HeldFor(id)) + bytes);
      if !fits {
        var _ := DropFrame(id);
        if !key {
          waitingAfterLoss := true;
        }
        return false;
      }
      if droppedAny && !key {
        var _ := DropFrame(id);
        MarkFrameDropped(id);
        waitingAfterLoss := true;
        return false;
      }
      return true;
    }

    /** Gives up other frames, the oldest first, until `bytes` more bytes fit or no other frame is left. */
    method EvictOthers(bytes: nat, id: u32) returns (fits: bool, droppedAny: bool)
      requires Accounted()
      modifies this`frames, this`pendingFec, this`buffered, this`lastDropped, this`droppedFrames
      ensures Accounted() && SubMap(frames, old(frames)) && SubMap(pendingFec, old(pendingFec))
      ensures Evicted(old(frames), frames, old(pendingFec), pendingFec, id, old(HeldFor(id)) + bytes)
      ensures id in old(frames) ==> id in frames
      ensures fits <==> buffered + bytes <= MAX_BUFFERED_BYTES
      ensures fits <==> old(HeldFor(id)) + bytes <= MAX_BUFFERED_BYTES
      ensures old(buffered) + bytes <= MAX_BUFFERED_BYTES ==> fits && !droppedAny
      ensures fits && !droppedAny ==> old(buffered) + bytes <= MAX_BUFFERED_BYTES
      ensures !droppedAny ==> frames == old(frames) && pendingFec == old(pendingFec)
    {
      hide Accounted, Total, IsOldest, Evicting, Evicted;
      ghost var need := HeldFor(id) + bytes;
      EvictStarts(frames, pendingFec, id, need);
      SameHeld(frames, pendingFec, id, need);
      droppedAny := false;
      while buffered + bytes > MAX_BUFFERED_BYTES
        invariant Accounted() && Evicting(old(frames), frames, old(pendingFec), pendingFec, id, need)
        invariant if droppedAny then old(buffered) + bytes > MAX_BUFFERED_BYTES
                  else frames == old(frames) && pendingFec == old(pendingFec) && buffered == old(buffered)
        decreases |frames|
      {
        ghost var before, parity := frames, pendingFec;
        SameHeld(old(frames), old(pendingFec), id, need);
        OthersOver(id, bytes);
        var dropped := DropOldestExcept(id);
        if dropped {
          droppedAny := true;
          ghost var k :| k in before && k != id && IsOldest(before.Keys - {id}, k) && frames == before - {k}
                         && pendingFec == parity - {k};
          EvictStep(old(frames), before, old(pendingFec), parity, id, need, k);
        } else {
          OnlyFrame(id);
          NothingElse(old(frames), old(pendingFec), id, need);
          return false, droppedAny;
        }
      }
      SameHeld(old(frames), old(pendingFec), id, need);
      HeldIsBuffered(id);
      EnoughLeft(old(frames), old(pendingFec), id, bytes, need);
      fits := true;
    }

    lemma OthersOver(id: u32, bytes: nat)
      requires Accounted() && buffered + bytes > MAX_BUFFERED_BYTES
      ensures Total(frames - {id}) + HeldFor(id) + bytes > MAX_BUFFERED_BYTES
    {
      hide Total;
      TotalSplit(frames, id);
    }

    lemma NothingElse(before: map<u32, Assembly>, parity: map<u32, seq<FecMeta>>, id: u32, need: nat)
      requires frames.Keys <= {id} && Evicting(before, frames, parity, pendingFec, id, need)
      ensures Evicted(before, frames, parity, pendingFec, id, need) && (id in before ==> id in frames)
      ensures SubMap(frames, before) && SubMap(pendingFec, parity)
    {
      assert frames - {id} == map[];
    }

    lemma EnoughLeft(before: map<u32, Assembly>, parity: map<u32, seq<FecMeta>>, id: u32, bytes: nat, need: nat)
      requires Accounted() && buffered + bytes <= MAX_BUFFERED_BYTES && HeldFor(id) + bytes == need
      requires Evicting(before, frames, parity, pendingFec, id, need)
      ensures Evicted(before, frames, parity, pendingFec, id, need) && (id in before ==> id in frames)
      ensures SubMap(frames, before) && SubMap(pendingFec, parity)
    {
      hide Sum;
      TotalSplit(frames, id);
      SurvivorsFit(Sizes(frames - {id}), need);
    }

    lemma SameHeld(before: map<u32, Assembly>, parity: map<u32, seq<FecMeta>>, id: u32, need: nat)
      ensures Evicting(before, frames, parity, pendingFec, id, need) ==>
                HeldFor(id) == if id in before then before[id].buffered else 0
    {
      hide Survivors, Sizes;
    }

    lemma OnlyFrame(id: u32)
      requires Accounted() && frames.Keys <= {id}
      ensures buffered == HeldFor(id)
    {
      TotalSplit(frames, id);
      assert frames - {id} == map[];
    }

    lemma HeldIsBuffered(id: u32)
      requires Accounted()
      ensures HeldFor(id) <= buffered
    {
      TotalSplit(frames, id);
    }

    /** `ReserveBuffer` keeps the invariant. */
    method MakeRoom(bytes: nat, id: u32, key: bool) returns (ok: bool)
      requires Valid() && id in frames
      modifies this`frames, this`pendingFec, this`buffered, this`lastDropped, this`droppedFrames, this`waitingAfterLoss
      ensures Valid() && SubMap(frames, old(frames)) && SubMap(pendingFec, old(pendingFec))
      ensures ok ==> id in frames && buffered + bytes <= MAX_BUFFERED_BYTES
      ensures !ok ==> id !in frames && old(buffered) + bytes > MAX_BUFFERED_BYTES
      ensures waitingAfterLoss == (old(waitingAfterLoss) || (!ok && !key))
      ensures old(buffered) + bytes <= MAX_BUFFERED_BYTES ==> frames == old(frames) && pendingFec == old(pendingFec)
      ensures ok <==> old(buffered) + bytes <= MAX_BUFFERED_BYTES
                      || (key && old(HeldFor(id)) + bytes <= MAX_BUFFERED_BYTES)
      ensures bytes <= MAX_BUFFERED_BYTES ==>
              Reserved(old(frames), frames, old(pendingFec), pendingFec, id, old(HeldFor(id)) + bytes, ok)
    {
      hide Shape, Assembled, IsParity, WellFormed, Total, Reserved;
      ok := ReserveBuffer(bytes, id, key);
      TotalSub(frames, old(frames));
    }

    /** Tries the parity of one group; `m` is the only part it lacks, if there is just one. */
    method RecoverGroup(id: u32, fec: FecMeta) returns (ghost m: Option<nat>)
      requires Valid() && id in frames && fec.groupSize <= FEC_GROUP_SIZE
      requires honest ==> id in sent && WellFormed(sent[id]) && IsParity(sent[id], fec)
      modifies this`frames, this`pendingFec, this`buffered, this`lastDropped, this`droppedFrames,
               this`waitingAfterLoss, this`fecRecovered
      ensures Valid()
      ensures SubMap(pendingFec, old(pendingFec)) && (old(waitingAfterLoss) ==> waitingAfterLoss)
      ensures id in frames ==> waitingAfterLoss == old(waitingAfterLoss) && frames[id].key == old(frames)[id].key
      ensures old(frames)[id].key ==> waitingAfterLoss == old(waitingAfterLoss)
      ensures honest ==> IsLone(old(frames[id].parts), fec.base / FEC_GROUP_SIZE, m)
      ensures honest ==>
              id in sent && NewTaken(sent[id], old(frames), frames, old(pendingFec), pendingFec, id, m,
                                     old(waitingAfterLoss), waitingAfterLoss)
      ensures honest ==> fecRecovered == old(fecRecovered) + if m.Some? && id in frames then 1 else 0
    {
      hide Lone, GroupParity, GroupBase, Assembled, Shape, Kept, Windowed, Total, FrameBytes, Reserved, PartTaken;
      m := None;
      if honest {
        KeyOf(id);
      }
      ghost var s := if honest then sent[id] else SentFrame([], false, 0);
      var r := RecoverPart(fec, frames[id].parts, honest, s, fec.base / FEC_GROUP_SIZE);
      GroupOfBase(fec.base / FEC_GROUP_SIZE);
      if r.Some? {
        var (missing, recovered) := r.value;
        m := Some(missing as int);
        if honest {
          LoneIsAbsent(frames[id].parts, missing);
          ChunkFits(sent[id], missing);
        }
        if frames[id].HasPart(missing) {
          var _ := MakeRoom(|recovered|, id, frames[id].key);
        } else {
          var added := AddPart(id, missing, recovered, frames[id].key);
          fecRecovered := fecRecovered + if added then 1 else 0;
        }
      }
    }

    /** Makes room for a missing part and stores it. */
    method AddPart(id: u32, m: nat, payload: seq<byte>, key: bool) returns (ok: bool)
      requires Valid() && id in frames && !frames[id].HasPart(m)
      requires honest ==> id in sent && m < |sent[id].chunks| && payload == sent[id].chunks[m]
      modifies this`frames, this`pendingFec, this`buffered, this`lastDropped, this`droppedFrames, this`waitingAfterLoss
      ensures Valid() && (ok <==> id in frames) && SubMap(pendingFec, old(pendingFec))
      ensures SubMap(frames - {id}, old(frames))
      ensures waitingAfterLoss == (old(waitingAfterLoss) || (!ok && !key))
      ensures ok ==> frames[id] == old(frames)[id].Set(m, payload)
      ensures old(buffered) + |payload| <= MAX_BUFFERED_BYTES ==>
              ok && frames == old(frames)[id := old(frames)[id].Set(m, payload)] && pendingFec == old(pendingFec)
      ensures |payload| <= MAX_BUFFERED_BYTES && key == old(frames)[id].key ==>
              PartTaken(old(frames), frames, old(pendingFec), pendingFec, id, m, payload, old(waitingAfterLoss),
                        waitingAfterLoss)
    {
      hide Assembled, Shape, Kept, Windowed, Total, Reserved, PartTaken, HasRoom, SubMap;
      RoomIs(id, |payload|);
      ok := MakeRoom(|payload|, id, key);
      SubMapDrop(frames, old(frames), id);
      SubMapAt(frames, old(frames), id);
      if !ok {
        if |payload| <= MAX_BUFFERED_BYTES && key == old(frames)[id].key {
          RefusedIsTaken(old(frames), frames, old(pendingFec), pendingFec, id, m, payload, old(waitingAfterLoss));
        }
        assert frames - {id} == frames;
        return;
      }
      if |payload| <= MAX_BUFFERED_BYTES && key == old(frames)[id].key {
        StoredIsTaken(old(frames), frames, old(pendingFec), pendingFec, id, m, payload, old(waitingAfterLoss));
      }
      SamePut(frames, id, frames[id].Set(m, payload));
      StorePart(id, m, payload);
    }

    lemma RoomIs(id: u32, bytes: nat)
      requires Valid() && id in frames
      ensures HasRoom(frames, id, bytes) <==>
              buffered + bytes <= MAX_BUFFERED_BYTES
              || (frames[id].key && HeldFor(id) + bytes <= MAX_BUFFERED_BYTES)
    {
      hide Total;
    }

    /** Stores a missing part and accounts for its bytes. */
    method StorePart(id: u32, index: nat, payload: seq<byte>)
      requires Valid() && id in frames && !frames[id].HasPart(index)
      requires buffered + |payload| <= MAX_BUFFERED_BYTES
      requires honest ==> id in sent && index < |sent[id].chunks| && payload == sent[id].chunks[index]
      modifies this`frames, this`buffered
      ensures Valid()
      ensures frames == old(frames)[id := old(frames)[id].Set(index, payload)]
      ensures buffered == old(buffered) + |payload|
    {
      hide Shape, Assembled, IsParity, WellFormed, Total;
      SetShape(frames[id], index, payload);
      if honest {
        SetAssembled(sent[id], frames[id], index);
      }
      TotalSplit(frames, id);
      TotalPut(frames, id, frames[id].Set(index, payload));
      frames := frames[id := frames[id].Set(index, payload)];
      buffered := buffered + |payload|;
    }

    /** One round of recovery over the parity received for the frame; a part that is recovered and stored is
        counted. */
    method TryFecRecover(id: u32, ghost m: Option<nat>)
      requires Valid() && id in frames
      modifies this`frames, this`pendingFec, this`buffered, this`lastDropped, this`droppedFrames,
               this`waitingAfterLoss, this`fecRecovered
      ensures Valid()
      ensures SubMap(pendingFec, old(pendingFec)) && (old(waitingAfterLoss) ==> waitingAfterLoss)
      ensures id in frames ==> waitingAfterLoss == old(waitingAfterLoss) && frames[id].key == old(frames)[id].key
      ensures old(frames)[id].key ==> waitingAfterLoss == old(waitingAfterLoss)
      ensures honest && IsNew(old(frames[id].parts), old(ParityReceived(id)), m) ==>
              id in sent && NewTaken(sent[id], old(frames), frames, old(pendingFec), pendingFec, id, m,
                                     old(waitingAfterLoss), waitingAfterLoss)
      ensures honest && IsNew(old(frames[id].parts), old(ParityReceived(id)), m) ==>
              fecRecovered == old(fecRecovered) + if m.Some? && id in frames then 1 else 0
    {
      hide IsParity, Kept, Windowed, Total, FrameBytes, GroupsOf, SubMap, PartTaken, IsNew, NewTaken;
      ghost var before := frames[id].parts;
      SubMapFacts(pendingFec, id);
      if honest {
        KeyOf(id);
        NothingTaken(sent[id], frames, pendingFec, id, m, waitingAfterLoss, before);
      }
      if id !in pendingFec {
        return;
      }
      PendingFacts(id);
      var fecs := pendingFec[id];
      assert fecs[..0] == [];
      NoGroups();
      for k := 0 to |fecs|
        invariant Valid()
        invariant SubMap(pendingFec, old(pendingFec)) && (old(waitingAfterLoss) ==> waitingAfterLoss)
        invariant id in frames ==> waitingAfterLoss == old(waitingAfterLoss) && frames[id].key == old(frames)[id].key
        invariant old(frames)[id].key ==> waitingAfterLoss == old(waitingAfterLoss)
        invariant forall m :: m in fecs ==>
          m.groupSize <= FEC_GROUP_SIZE && (honest ==> id in sent && WellFormed(sent[id]) && IsParity(sent[id], m))
        invariant honest && IsNew(before, GroupsOf(fecs), m) ==>
                  id in sent && NewTaken(sent[id], old(frames), frames, old(pendingFec), pendingFec, id,
                                         Tried(m, GroupsOf(fecs[..k])), old(waitingAfterLoss), waitingAfterLoss)
        invariant honest && IsNew(before, GroupsOf(fecs), m) ==>
                  fecRecovered == old(fecRecovered)
                                  + if Tried(m, GroupsOf(fecs[..k])).Some? && id in frames then 1 else 0
      {
        if id !in frames {
          if honest && IsNew(before, GroupsOf(fecs), m) {
            GoneIsTaken(sent[id], old(frames), frames, old(pendingFec), pendingFec, id, m, GroupsOf(fecs[..k]),
                        old(waitingAfterLoss), waitingAfterLoss);
          }
          return;
        }
        if frames[id].IsComplete() {
          if honest {
            KeyOf(id);
            if IsNew(before, GroupsOf(fecs), m) {
              CompleteIsTaken(sent[id], old(frames), frames, old(pendingFec), pendingFec, id, m, GroupsOf(fecs[..k]),
                              GroupsOf(fecs), old(waitingAfterLoss), waitingAfterLoss);
            }
          }
          return;
        }
        ghost var pending, held, waiting := pendingFec, frames, waitingAfterLoss;
        ghost var lone := RecoverGroup(id, fecs[k]);
        SubMapTrans(pendingFec, pending, old(pendingFec));
        GroupsOfSnoc(fecs, k);
        if honest && IsNew(before, GroupsOf(fecs), m) {
          GroupsOfPrefix(fecs, k + 1);
          OneMoreTried(sent[id], old(frames), held, frames, old(pendingFec), pending, pendingFec, id, m,
                       GroupsOf(fecs[..k]), fecs[k].base / FEC_GROUP_SIZE, GroupsOf(fecs), lone,
                       old(waitingAfterLoss), waiting, waitingAfterLoss);
        }
      }
      assert fecs[..|fecs|] == fecs;
      AllTried(before, GroupsOf(fecs), m);
    }

    lemma PendingFacts(id: u32)
      requires Valid() && id in pendingFec
      ensures forall m :: m in pendingFec[id] ==> m.groupSize <= FEC_GROUP_SIZE
      ensures honest ==> id in sent && WellFormed(sent[id]) && forall m :: m in pendingFec[id] ==> IsParity(sent[id], m)
    {
      hide IsParity, WellFormed;
    }

    /** The parity kept for frame `id`, in order of arrival and repeated if it arrived repeatedly. */
    function Pending(id: u32): seq<FecMeta>
      reads this`pendingFec
    {
      if id in pendingFec then pendingFec[id] else []
    }

    /** The parity received for frame `id`, by group. */
    ghost function ParityReceived(id: u32): set<nat>
      reads this`pendingFec
    {
      if id in pendingFec then GroupsOf(pendingFec[id]) else {}
    }

    /** What an emitted frame carries: a key frame is preceded by the codec configuration. */
    ghost function OutputOf(id: u32): Output
      requires id in sent
      reads this`codecConfig
    {
      var s := sent[id];
      var bytes := Flatten(s.chunks);
      Output(id, if s.key && codecConfig.Some? then codecConfig.value + bytes else bytes, s.key, s.time)
    }

    /** Removes a complete frame from the buffers. */
    method TakeFrame(id: u32) returns (assembly: Assembly)
      requires Valid() && id in frames && frames[id].IsComplete()
      modifies this`frames, this`pendingFec, this`buffered
      ensures Valid()
      ensures assembly == old(frames)[id]
      ensures frames == old(frames) - {id} && pendingFec == old(pendingFec) - {id}
      ensures honest ==> id in sent && assembly.Join() == Flatten(sent[id].chunks)
                         && assembly.key == sent[id].key && assembly.time == sent[id].time
    {
      hide Shape, Assembled, IsParity, WellFormed, Flatten, JoinParts, Total;
      assembly := frames[id];
      if honest {
        CompleteJoins(sent[id], assembly);
        AssembledParts(sent[id], assembly);
      }
      TotalSplit(frames, id);
      frames := frames - {id};
      pendingFec := pendingFec - {id};
      buffered := SaturatingSub(buffered, assembly.buffered);
    }

    /** Emits the frame if it is complete and decodable at this point. */
    method FinalizeFrame(id: u32) returns (r: Option<Output>)
      requires Valid() && (latestCompleted.Some? ==> latestCompleted.value < id)
      modifies this`frames, this`pendingFec, this`buffered, this`lastDropped, this`droppedFrames,
               this`waitingAfterLoss, this`latestCompleted
      ensures Valid()
      ensures r.Some? ==> r.value.id == id && id in old(frames) && old(frames)[id].IsComplete()
      ensures r.Some? && honest ==> id in sent && r.value == OutputOf(id)
      ensures id in old(frames) && old(frames)[id].IsComplete() ==>
              && latestCompleted == Some(id)
              && frames == old(frames) - {id} && pendingFec == old(pendingFec) - {id}
              && (r.Some? <==> Decodable(old(frames)[id].key, old(waitingAfterLoss), old(latestCompleted), id))
              && (r.None? <==> waitingAfterLoss)
              && (r.Some? ==> r.value.key == old(frames)[id].key)
      ensures !(id in old(frames) && old(frames)[id].IsComplete()) ==>
              && r.None? && frames == old(frames) && pendingFec == old(pendingFec)
              && waitingAfterLoss == old(waitingAfterLoss) && latestCompleted == old(latestCompleted)
    {
      hide Kept, Windowed, Sincere, Flatten, JoinParts;
      if id !in frames || !frames[id].IsComplete() {
        return None;
      }
      var assembly := TakeFrame(id);
      var previous := latestCompleted;
      latestCompleted := Some(id);
      var bytes := assembly.Join();
      if assembly.key {
        waitingAfterLoss := false;
        if codecConfig.Some? {
          return Some(Output(id, codecConfig.value + bytes, true, assembly.time));
        }
        return Some(Output(id, bytes, true, assembly.time));
      }
      if waitingAfterLoss {
        MarkFrameDropped(id);
        return None;
      }
      if previous.Some? {
        if WrappingSub(id, previous.value) != 1 {
          waitingAfterLoss := true;
          MarkFrameDropped(id);
          return None;
        }
      }
      return Some(Output(id, bytes, false, assembly.time));
    }

    // ----- admission

    /** Frame `id` was completed, or overtaken by a completed one, or has left the reorder window. */
    predicate Stale(id: u32)
      reads this`latestCompleted, this`latestSeen
    {
      || (latestCompleted.Some? && id <= latestCompleted.value)
      || (latestSeen.Some? && Min(id + REORDER_WINDOW, U32_MAX) < latestSeen.value)
    }

    predicate Newest(id: u32)
      reads this`latestSeen
    {
      latestSeen.None? || id > latestSeen.value
    }

    /** A delta packet of a newer frame shows that frames left the window without being completed. */
    predicate Overdue(p: Packet)
      reads this`latestCompleted, this`latestSeen, this`waitingAfterLoss, this`frames
    {
      && ValidFragment(p.header) && !Stale(p.header.frameId) && !waitingAfterLoss && !IsKey(p)
      && Newest(p.header.frameId) && OlderKeys(frames, SaturatingSub(p.header.frameId, REORDER_WINDOW)) != {}
    }

    /** A data packet is let in unless it is malformed, stale, a delta packet while a loss is pending, or the
        one that reveals a loss. */
    predicate Admissible(p: Packet)
      reads this`latestCompleted, this`latestSeen, this`waitingAfterLoss, this`frames
    {
      && ValidFragment(p.header) && !Stale(p.header.frameId) && (waitingAfterLoss ==> IsKey(p)) && !Overdue(p)
    }

    /** The frames below this number are forgotten when the packet is let in. */
    function Cutoff(p: Packet): u32
      reads this`latestSeen
    {
      if IsKey(p) then p.header.frameId
      else if Newest(p.header.frameId) then SaturatingSub(p.header.frameId, REORDER_WINDOW)
      else 0
    }

    /** The newest frame seen, this packet included. */
    function SeenWith(id: u32): Option<u32>
      reads this`latestSeen
    {
      if Newest(id) then Some(id) else latestSeen
    }

    /** The checks on a data packet before it is stored, and the effect of a newer frame or a key frame on
        the older ones. */
    method Admit(p: Packet) returns (ok: bool)
      requires Valid()
      modifies this`frames, this`pendingFec, this`buffered, this`lastDropped, this`droppedFrames,
               this`waitingAfterLoss, this`latestSeen
      ensures Valid()
      ensures ok <==> old(Admissible(p))
      ensures ok ==>
              && frames == From(old(frames), old(Cutoff(p))) && pendingFec == From(old(pendingFec), old(Cutoff(p)))
              && !waitingAfterLoss && latestSeen == old(SeenWith(p.header.frameId))
      ensures old(Overdue(p)) ==>
              var next := Min(p.header.frameId + 1, U32_MAX);
              && frames == From(old(frames), next) && pendingFec == From(old(pendingFec), next)
              && waitingAfterLoss && latestSeen == Some(p.header.frameId)
      ensures !ok && !old(Overdue(p)) ==>
              && frames == old(frames) && pendingFec == old(pendingFec)
              && waitingAfterLoss == old(waitingAfterLoss) && latestSeen == old(latestSeen)
    {
      hide Kept, Windowed, ValidFragment, IsKey, From, OlderKeys, Cutoff, SeenWith;
      var h := p.header;
      FragmentIs(h);
      if h.count == 0 || h.index >= h.count || h.count > MAX_FRAME_PACKET_COUNT {
        MarkFrameDropped(h.frameId);
        return false;
      }
      if latestCompleted.Some? && h.frameId <= latestCompleted.value {
        return false;
      }
      if latestSeen.Some? && Min(h.frameId + REORDER_WINDOW, U32_MAX) < latestSeen.value {
        return false;
      }
      if waitingAfterLoss && !IsKey(p) {
        MarkFrameDropped(h.frameId);
        return false;
      }
      ok := MoveOn(p);
    }

    /** The effect of a packet that passed the checks on the older frames. */
    method MoveOn(p: Packet) returns (ok: bool)
      requires Valid() && ValidFragment(p.header) && !Stale(p.header.frameId) && (waitingAfterLoss ==> IsKey(p))
      modifies this`frames, this`pendingFec, this`buffered, this`lastDropped, this`droppedFrames,
               this`waitingAfterLoss, this`latestSeen
      ensures Valid()
      ensures ok <==> !old(Overdue(p))
      ensures ok ==>
              && frames == From(old(frames), old(Cutoff(p))) && pendingFec == From(old(pendingFec), old(Cutoff(p)))
              && !waitingAfterLoss && latestSeen == old(SeenWith(p.header.frameId))
      ensures !ok ==>
              var next := Min(p.header.frameId + 1, U32_MAX);
              && frames == From(old(frames), next) && pendingFec == From(old(pendingFec), next)
              && waitingAfterLoss && latestSeen == Some(p.header.frameId)
    {
      hide Kept, ValidFragment, IsKey, From, Stale;
      var h := p.header;
      var lost := 0;
      if latestSeen.None? || h.frameId > latestSeen.value {
        lost := AdvanceSeen(h.frameId);
        if lost > 0 && !IsKey(p) {
          waitingAfterLoss := true;
          FromTwice(old(frames), SaturatingSub(h.frameId, REORDER_WINDOW), Min(h.frameId + 1, U32_MAX));
          FromTwice(old(pendingFec), SaturatingSub(h.frameId, REORDER_WINDOW), Min(h.frameId + 1, U32_MAX));
          var _ := ForgetOlderThan(Min(h.frameId + 1, U32_MAX));
          MarkFrameDropped(h.frameId);
          return false;
        }
      } else {
        FromZero(frames);
        FromZero(pendingFec);
      }
      if IsKey(p) {
        waitingAfterLoss := false;
        FromTwice(old(frames), SaturatingSub(h.frameId, REORDER_WINDOW), h.frameId);
        FromTwice(old(pendingFec), SaturatingSub(h.frameId, REORDER_WINDOW), h.frameId);
        var _ := ForgetOlderThan(h.frameId);
      }
      return true;
    }

    /** A newer frame moves the reorder window on. */
    method AdvanceSeen(id: u32) returns (lost: nat)
      requires Valid() && Newest(id)
      modifies this`frames, this`pendingFec, this`buffered, this`lastDropped, this`droppedFrames, this`latestSeen
      ensures Valid() && latestSeen == Some(id)
      ensures frames == From(old(frames), SaturatingSub(id, REORDER_WINDOW))
      ensures pendingFec == From(old(pendingFec), SaturatingSub(id, REORDER_WINDOW))
      ensures lost > 0 <==> OlderKeys(old(frames), SaturatingSub(id, REORDER_WINDOW)) != {}
    {
      hide Kept, From;
      latestSeen := Some(id);
      lost := ForgetOlderThan(SaturatingSub(id, REORDER_WINDOW));
    }

    // ----- storing

    /** The slots of frame `id`, which are all empty before its first packet. */
    ghost function Slots(id: u32): seq<Part>
      requires id in sent
      reads this`frames
    {
      if id in frames then frames[id].parts else seq(|sent[id].chunks|, _ => None)
    }

    /** The assembly of the frame of a packet, opened by it if there is none. */
    function Opened(p: Packet): Assembly
      reads this`frames
    {
      if p.header.frameId in frames then frames[p.header.frameId]
      else NewAssembly(p.header.count, IsKey(p), p.header.time)
    }

    /** Opens an assembly for the frame of a packet if there is none. */
    method OpenFrame(p: Packet)
      requires Valid() && (honest ==> IsData(sent, p))
      requires latestSeen.Some? && p.header.frameId <= latestSeen.value <= p.header.frameId + REORDER_WINDOW
      modifies this`frames
      ensures Valid() && frames == old(frames)[p.header.frameId := old(Opened(p))]
    {
      hide Shape, Assembled, IsParity, WellFormed, Total, IsKey;
      var id := p.header.frameId;
      if id !in frames {
        EmptyShape(p.header.count, IsKey(p), p.header.time);
        TotalPut(frames, id, NewAssembly(p.header.count, IsKey(p), p.header.time));
        assert frames - {id} == frames;
        if honest {
          EmptyAssembled(p);
        }
        frames := frames[id := NewAssembly(p.header.count, IsKey(p), p.header.time)];
      } else {
        assert frames[id := frames[id]] == frames;
      }
    }

    lemma EmptyAssembled(p: Packet)
      requires IsData(sent, p)
      ensures Assembled(sent[p.header.frameId], NewAssembly(p.header.count, IsKey(p), p.header.time))
    {
      EmptyShape(p.header.count, IsKey(p), p.header.time);
    }

    /** Puts the payload of any packet into its slot. A packet that disagrees on the packet count ends the
        frame, a duplicate changes nothing, and a packet that does not fit is not stored unless its frame is
        a key frame that fits by itself. */
    method StorePacket(p: Packet) returns (stored: bool)
      requires Valid() && (honest ==> IsData(sent, p)) && ValidFragment(p.header)
      requires latestSeen.Some? && p.header.frameId <= latestSeen.value <= p.header.frameId + REORDER_WINDOW
      modifies this`frames, this`pendingFec, this`buffered, this`lastDropped, this`droppedFrames,
               this`waitingAfterLoss
      ensures Valid()
      ensures !old(Opened(p)).HasPart(p.header.index) ==> p.header.index < |old(Opened(p)).parts|
      ensures var id, before := p.header.frameId, old(Opened(p));
              && (before.count != p.header.count ==>
                    && !stored && frames == old(frames) - {id} && pendingFec == old(pendingFec) - {id}
                    && waitingAfterLoss == (old(waitingAfterLoss) || !IsKey(p)))
              && (before.count == p.header.count && before.HasPart(p.header.index) ==>
                    && !stored && frames == old(frames) && pendingFec == old(pendingFec)
                    && waitingAfterLoss == old(waitingAfterLoss))
              && (before.count == p.header.count && !before.HasPart(p.header.index) ==>
                    && (stored <==> id in frames)
                    && (stored ==> frames[id] == before.Set(p.header.index, p.payload))
                    && SubMap(frames - {id}, old(frames)) && SubMap(pendingFec, old(pendingFec))
                    && waitingAfterLoss == (old(waitingAfterLoss) || (!stored && !IsKey(p)))
                    && (old(buffered) + |p.payload| <= MAX_BUFFERED_BYTES ==>
                          && stored && pendingFec == old(pendingFec)
                          && frames == old(frames)[id := before.Set(p.header.index, p.payload)])
                    && (|p.payload| <= MAX_BUFFERED_BYTES && IsKey(p) == before.key ==>
                          PartTaken(old(frames)[id := before], frames, old(pendingFec), pendingFec, id, p.header.index,
                                    p.payload, old(waitingAfterLoss), waitingAfterLoss)))
    {
      hide Shape, Assembled, IsParity, WellFormed, Sincere, Total, IsKey, Windowed, PartTaken;
      var id := p.header.frameId;
      OpenedShape(p);
      OpenFrame(p);
      if honest {
        DataFacts(sent, p);
        AssembledSlots(id);
      }
      if frames[id].count != p.header.count {
        DropMismatched(id, IsKey(p));
        assert frames == old(frames) - {id};
        return false;
      }
      if frames[id].HasPart(p.header.index) {
        assert frames == old(frames);
        return false;
      }
      stored := AddPart(id, p.header.index, p.payload, IsKey(p));
    }

    lemma OpenedShape(p: Packet)
      requires Valid()
      ensures |Opened(p).parts| == Opened(p).count
      ensures p.header.frameId !in frames && p.header.index < p.header.count ==> !Opened(p).HasPart(p.header.index)
      ensures Total(frames[p.header.frameId := Opened(p)]) == Total(frames)
    {
      var id := p.header.frameId;
      TotalPut(frames, id, Opened(p));
      TotalSplit(frames, id);
    }

    lemma AssembledSlots(id: u32)
      requires Valid() && honest && id in frames
      ensures id in sent && |frames[id].parts| == |sent[id].chunks| && frames[id].count == |sent[id].chunks|
    {
      AssembledParts(sent[id], frames[id]);
    }

    /** Packets that disagree on the frame's size: the frame is given up. */
    method DropMismatched(id: u32, key: bool)
      requires Valid()
      modifies this`frames, this`pendingFec, this`buffered, this`lastDropped, this`droppedFrames,
               this`waitingAfterLoss
      ensures Valid() && frames == old(frames) - {id} && pendingFec == old(pendingFec) - {id}
      ensures waitingAfterLoss == (old(waitingAfterLoss) || !key)
    {
      hide Shape, Assembled, IsParity, WellFormed, Total;
      var _ := DropFrame(id);
      TotalSub(frames, old(frames));
      if !key {
        waitingAfterLoss := true;
      }
    }

    // ----- taking packets in

    /** The data packets `a` and the parity packets `f` of frame `id` have arrived so far; everything that
        can be known from them is in place, and that is not the whole frame. */
    ghost predicate Tracks(id: u32, a: set<nat>, f: set<nat>)
      reads this`honest, this`frames, this`pendingFec
    {
      && honest && id in sent && ParityReceived(id) == f
      && (id in frames <==> a != {})
      && (id in frames ==> Holds(frames[id].parts, a, f) && !frames[id].IsComplete())
    }

    /** All of the packet's frame fits beside the frames that stay when the packet is let in. */
    ghost predicate FitsAfter(p: Packet)
      reads this`frames, this`latestSeen
    {
      && p.header.frameId in sent
      && Total(From(frames, Cutoff(p)) - {p.header.frameId}) + FrameBytes(sent[p.header.frameId]) <= MAX_BUFFERED_BYTES
    }

    /** Records whether the packet at hand came from the sender. */
    ghost method Judge(genuine: bool)
      requires Valid()
      modifies this`honest
      ensures Valid() && honest == (old(honest) && genuine)
    {
      honest := honest && genuine;
    }

    /** Recovery and completion after a packet of frame `id` was taken in; `m` is the part that is recovered. */
    method Settle(id: u32, ghost m: Option<nat>) returns (r: Option<Output>)
      requires Valid() && id in frames && (latestCompleted.Some? ==> latestCompleted.value < id)
      modifies this`frames, this`pendingFec, this`buffered, this`lastDropped, this`droppedFrames,
               this`waitingAfterLoss, this`fecRecovered, this`latestCompleted
      ensures Valid()
      ensures honest && r.Some? ==> id in sent && r.value == OutputOf(id)
      ensures Step(id, old(frames)[id].key, false, old(latestCompleted), old(waitingAfterLoss),
                   latestCompleted, waitingAfterLoss, r)
      ensures honest && IsNew(old(frames[id].parts), old(ParityReceived(id)), m) ==>
              && id in sent
              && SettledAs(old(frames), old(pendingFec), id, m, old(latestCompleted), old(waitingAfterLoss), r)
    {
      hide Kept, Windowed, Sincere, OutputOf, Total, FrameBytes, SubMap, NewTaken, Outcome, IsNew, Fitting;
      hide SettledAs, WholeWith, GenuineParts, Shape, BytesWith;
      ghost var held, parity := frames, pendingFec;
      ghost var known := honest && IsNew(frames[id].parts, ParityReceived(id), m);
      if known {
        NeedIsBounded(id, m);
      }
      if !frames[id].IsComplete() {
        TryFecRecover(id, m);
      } else if honest {
        KeyOf(id);
        NothingNew(frames[id].parts, ParityReceived(id), m);
        NothingTaken(sent[id], frames, pendingFec, id, None, waitingAfterLoss, frames[id].parts);
      }
      ghost var mid, pending, waiting := frames, pendingFec, waitingAfterLoss;
      if honest && id in frames {
        KeyOf(id);
      }
      r := FinalizeFrame(id);
      if known {
        Concluded(held, mid, parity, pending, id, m, old(latestCompleted), old(waitingAfterLoss), waiting, r);
      }
    }

    lemma Concluded(held: map<u32, Assembly>, mid: map<u32, Assembly>, parity: map<u32, seq<FecMeta>>,
                    pending: map<u32, seq<FecMeta>>, id: u32, m: Option<nat>, completed: Option<u32>, waiting: bool,
                    between: bool, r: Option<Output>)
      requires id in sent && id in held && NewTaken(sent[id], held, mid, parity, pending, id, m, waiting, between)
      requires sent[id].key == held[id].key && Total(held) <= MAX_BUFFERED_BYTES
      requires |held[id].parts| == |sent[id].chunks| && BytesWith(sent[id], held[id], m) <= MAX_BUFFERED_BYTES
      requires m.Some? ==> m.value < |held[id].parts|
      requires id in mid ==>
                 (mid[id].IsComplete() <==> forall i :: 0 <= i < |mid[id].parts| ==> mid[id].parts[i].Some?)
      requires if id in mid && mid[id].IsComplete() then
                 latestCompleted == Some(id) && frames == mid - {id} && pendingFec == pending - {id}
               else
                 && r.None? && frames == mid && pendingFec == pending && waitingAfterLoss == between
                 && latestCompleted == completed
      ensures SettledAs(held, parity, id, m, completed, waiting, r)
    {
      hide Outcome, NewTaken, Sum, Survivors;
      TakenOutcome(sent[id], held, mid, parity, pending, id, m, waiting, between, WholeWith(held[id].parts, m));
      WholeIs(sent[id], held[id].parts, m);
    }

    lemma NeedIsBounded(id: u32, m: Option<nat>)
      requires Valid() && honest && id in frames && IsNew(frames[id].parts, ParityReceived(id), m)
      ensures id in sent && sent[id].key == frames[id].key && Total(frames) <= MAX_BUFFERED_BYTES
      ensures |frames[id].parts| == |sent[id].chunks| && BytesWith(sent[id], frames[id], m) <= MAX_BUFFERED_BYTES
      ensures m.Some? ==> m.value < |frames[id].parts|
    {
      hide Total, Lone;
      KeyOf(id);
      OneFrameFits(sent[id]);
      AssembledBytes(sent[id], frames[id]);
      if m.Some? {
        assert Lone(frames[id].parts, m.value);
        LoneIsAbsent(frames[id].parts, m.value);
        MissingFits(sent[id], frames[id], m.value);
      }
    }

    /** A frame of the sender in which at most part `m` can be recovered: it gets its room or is given up, and it
        is completed if all parts are there. */
    ghost predicate SettledAs(before: map<u32, Assembly>, parity: map<u32, seq<FecMeta>>, id: u32, m: Option<nat>,
                              completed: Option<u32>, waiting: bool, r: Option<Output>)
      requires id in before && id in sent
      reads this`frames, this`pendingFec, this`latestCompleted, this`waitingAfterLoss
    {
      var s, a := sent[id], before[id];
      var need, whole := BytesWith(s, a, m), WholeWith(a.parts, m);
      var fits := Fitting(before, id, s.key, need);
      && Outcome(before, frames, parity, pendingFec, id, s.key, a.buffered, need, whole)
      && (fits && whole ==> latestCompleted == Some(id))
      && (!(fits && whole) ==>
            r.None? && latestCompleted == completed && waitingAfterLoss == (waiting || !fits))
      && (fits && !whole ==>
            id in frames && frames[id].parts == PartsWith(s, a.parts, m) && !frames[id].IsComplete())
    }

    lemma OpenedSlots(p: Packet)
      requires Valid() && honest && IsData(sent, p)
      ensures p.header.frameId in sent && Opened(p).parts == Slots(p.header.frameId)
      ensures Opened(p).count == p.header.count && Opened(p).key == IsKey(p)
      ensures |Slots(p.header.frameId)| == |sent[p.header.frameId].chunks| && p.header.index < |Slots(p.header.frameId)|
    {
      hide Windowed, Total;
      if p.header.frameId in frames {
        KeyOf(p.header.frameId);
      }
      DataFacts(sent, p);
    }

    /** The data packets `a` and the parity packets `f` of frame `id` have now been let in: the frame gets its room
        or is given up, it is completed if it can be rebuilt, and otherwise all that can be known is in place. */
    ghost predicate TakenAs(before: map<u32, Assembly>, parity: map<u32, seq<FecMeta>>, id: u32, first: nat,
                            a: set<nat>, f: set<nat>, completed: Option<u32>, waiting: bool, r: Option<Output>)
      requires id in sent
      reads this`honest, this`frames, this`pendingFec, this`latestCompleted, this`waitingAfterLoss
    {
      var s := sent[id];
      var need, whole := KnownBytes(s.chunks, a, f), Recoverable(|s.chunks|, a, f);
      var fits := Fitting(before, id, s.key, need);
      && Outcome(before, frames, parity, pendingFec, id, s.key, first, need, whole)
      && (fits && whole ==> latestCompleted == Some(id))
      && (!(fits && whole) ==>
            r.None? && latestCompleted == completed && waitingAfterLoss == (waiting || !fits))
      && (fits && !whole ==> Tracks(id, a, f))
    }

    /** A frame for which there is room in any case evicts nothing. */
    lemma RoomyTaken(before: map<u32, Assembly>, parity: map<u32, seq<FecMeta>>, id: u32, first: nat, a: set<nat>,
                     f: set<nat>, completed: Option<u32>, waiting: bool, r: Option<Output>)
      requires id in sent && TakenAs(before, parity, id, first, a, f, completed, waiting, r)
      requires Total(before - {id}) + FrameBytes(sent[id]) <= MAX_BUFFERED_BYTES
      ensures if Recoverable(|sent[id].chunks|, a, f) then
                latestCompleted == Some(id) && frames == before - {id} && pendingFec == parity - {id}
              else
                && r.None? && latestCompleted == completed && waitingAfterLoss == waiting
                && frames - {id} == before - {id} && pendingFec == parity && Tracks(id, a, f)
    {
      hide Recoverable, Sum, Survivors, KnownBytes, Tracks;
      var s, others := sent[id], Sizes(before - {id});
      KnownFits(s, a, f);
      SurvivorsFit(others, KnownBytes(s.chunks, a, f));
      assert (frames - {id}).Keys == (before - {id}).Keys by { assert Sizes(frames - {id}) == others; }
      assert frames - {id} == before - {id};
      assert before.Keys - {id} - frames.Keys == {};
      assert parity - {} == parity;
    }

    lemma TakenDuplicate(id: u32, a: set<nat>, f: set<nat>, i: nat)
      requires Valid() && Tracks(id, a, f) && !waitingAfterLoss && i < |Slots(id)| && Slots(id)[i].Some?
      ensures TakenAs(frames, pendingFec, id, HeldFor(id), With(a, i), f, latestCompleted, false, None)
    {
      hide Holds, Recoverable, Windowed, Total, KnownParts, Outcome, Fitting;
      SlotKnown(id, a, f, i);
      KeyOf(id);
      HoldsIsKnown(sent[id], frames[id].parts, With(a, i), f);
      NothingMoves(frames, pendingFec, id, sent[id].key);
    }

    /** What the packet's frame holds, and that its next part fits for a key frame. */
    lemma SlotFacts(p: Packet, a: set<nat>, f: set<nat>)
      requires Valid() && honest && IsData(sent, p) && Tracks(p.header.frameId, a, f)
      ensures var id, slot := p.header.frameId, Opened(p);
              && id in sent && slot.key == sent[id].key && slot.buffered == HeldFor(id) && slot.parts == Slots(id)
              && Shape(slot) && GenuineParts(sent[id], slot.parts) && Bounded(slot.parts, a, f)
              && (Holds(slot.parts, a, f) || forall k :: 0 <= k < |slot.parts| ==> slot.parts[k].None?)
              && (!slot.HasPart(p.header.index) ==>
                    slot.buffered + |sent[id].chunks[p.header.index]| <= MAX_BUFFERED_BYTES)
    {
      hide Holds, Windowed, Total, FrameBytes;
      var id := p.header.frameId;
      DataFacts(sent, p);
      OpenedSlots(p);
      SlotsBounded(id, a, f);
      EmptyAssembled(p);
      OneFrameFits(sent[id]);
      assert Assembled(sent[id], Opened(p));
      if !Opened(p).HasPart(p.header.index) {
        MissingFits(sent[id], Opened(p), p.header.index);
      }
    }

    /** The bytes that the packet's frame needs first: those it holds and the packet's own. */
    function FirstNeed(p: Packet): nat
      reads this`frames
    {
      HeldFor(p.header.frameId) + if Opened(p).HasPart(p.header.index) then 0 else |p.payload|
    }

    lemma TakenKeepsParity(before: map<u32, Assembly>, after: map<u32, Assembly>, parity: map<u32, seq<FecMeta>>,
                           parity': map<u32, seq<FecMeta>>, id: u32, i: nat, payload: seq<byte>, waiting: bool)
      requires id in before && !before[id].HasPart(i) && id in after
      requires PartTaken(before, after, parity, parity', id, i, payload, waiting, waiting)
      ensures (id in parity' <==> id in parity) && (id in parity ==> parity'[id] == parity[id])
    {
      hide HasRoom, Survivors, Sizes, SubMap;
    }

    /** The packet's own part did not fit. */
    lemma TakenRefused(held: map<u32, Assembly>, parity: map<u32, seq<FecMeta>>, slot: Assembly, id: u32, a: set<nat>,
                       f: set<nat>, i: nat, m: Option<nat>)
      requires id in sent && GenuineParts(sent[id], slot.parts) && Shape(slot) && Bounded(slot.parts, a, f)
      requires i < |sent[id].chunks| && !slot.HasPart(i) && slot.key == sent[id].key && id !in frames
      requires slot.buffered + |sent[id].chunks[i]| <= MAX_BUFFERED_BYTES
      requires IsNew(slot.parts[i := Some(sent[id].chunks[i])], f, m)
      requires PartTaken(held[id := slot], frames, parity, pendingFec, id, i, sent[id].chunks[i], false,
                         waitingAfterLoss)
      ensures TakenAs(held, parity, id, slot.buffered + |sent[id].chunks[i]|, With(a, i), f, latestCompleted, false,
                      None)
    {
      hide Recoverable, Outcome, PartTaken, Fitting, Bounded, Lone, KnownParts;
      var s := sent[id];
      KnownAfterData(s, slot.parts, a, f, i, m);
      SetShape(slot, i, s.chunks[i]);
      PartsWithBytes(s, slot.Set(i, s.chunks[i]), m);
      RefusedOutcome(s, held, slot, frames, parity, pendingFec, id, i, KnownBytes(s.chunks, With(a, i), f),
                     Recoverable(|s.chunks|, With(a, i), f), false, waitingAfterLoss);
    }

    /** The packet's own part was stored, and what it makes recoverable was tried. */
    lemma TakenStored(held: map<u32, Assembly>, mid: map<u32, Assembly>, parity: map<u32, seq<FecMeta>>,
                      pending: map<u32, seq<FecMeta>>, slot: Assembly, id: u32, a: set<nat>, f: set<nat>, i: nat,
                      m: Option<nat>, completed: Option<u32>, r: Option<Output>)
      requires honest && id in sent && GenuineParts(sent[id], slot.parts) && Shape(slot) && Bounded(slot.parts, a, f)
      requires i < |sent[id].chunks| && !slot.HasPart(i) && slot.key == sent[id].key && id in mid
      requires IsNew(slot.parts[i := Some(sent[id].chunks[i])], f, m)
      requires PartTaken(held[id := slot], mid, parity, pending, id, i, sent[id].chunks[i], false, false)
      requires SettledAs(mid, pending, id, m, completed, false, r)
      requires f == if id in parity then GroupsOf(parity[id]) else {}
      ensures TakenAs(held, parity, id, slot.buffered + |sent[id].chunks[i]|, With(a, i), f, completed, false, r)
    {
      hide Recoverable, Outcome, Reserved, Fitting, Bounded, KnownBytes, Holds, GroupsOf, GenuineParts, Shape, IsNew;
      hide PartsWith, BytesWith, WholeWith;
      var s := sent[id];
      KnownWithPart(s, slot, a, f, i, m);
      StoredOutcome(s, held, slot, mid, frames, parity, pending, pendingFec, id, i, KnownBytes(s.chunks, With(a, i), f),
                    Recoverable(|s.chunks|, With(a, i), f), false, false);
      ParityStays(held, frames, parity, pendingFec, id, s.key, slot.buffered + |s.chunks[i]|,
                  KnownBytes(s.chunks, With(a, i), f));
      NotEmpty(a, i);
    }

    /** Stores a packet that was let in, and emits its frame if that is now complete and decodable. */
    method TakeIn(p: Packet, ghost a: set<nat>, ghost f: set<nat>) returns (r: Option<Output>)
      requires Valid() && ValidFragment(p.header) && (honest ==> IsData(sent, p)) && !waitingAfterLoss
      requires latestSeen.Some? && p.header.frameId <= latestSeen.value <= p.header.frameId + REORDER_WINDOW
      requires latestCompleted.Some? ==> latestCompleted.value < p.header.frameId
      modifies this`frames, this`pendingFec, this`buffered, this`lastDropped, this`droppedFrames,
               this`waitingAfterLoss, this`fecRecovered, this`latestCompleted
      ensures Valid()
      ensures honest && r.Some? ==> p.header.frameId in sent && r.value == OutputOf(p.header.frameId)
      ensures honest ==> Step(p.header.frameId, IsKey(p), false, old(latestCompleted), false,
                              latestCompleted, waitingAfterLoss, r)
      ensures honest && old(Tracks(p.header.frameId, a, f)) ==>
              TakenAs(old(frames), old(pendingFec), p.header.frameId, old(FirstNeed(p)), With(a, p.header.index), f,
                      old(latestCompleted), false, r)
    {
      hide Kept, Windowed, Sincere, OutputOf, Holds, Bounded, Recoverable, Step, IsData, IsKey, TakenAs;
      hide Total, FrameBytes, ValidFragment, SubMap, NewAssembly, PartTaken, IsNew, SettledAs, GenuineParts, Shape;
      var id := p.header.frameId;
      ghost var tracked := honest && Tracks(id, a, f);
      ghost var held, parity, slot, m := frames, pendingFec, Opened(p), None;
      if honest {
        OpenedSlots(p);
        DataFacts(sent, p);
      }
      if tracked {
        SlotFacts(p, a, f);
        if !slot.HasPart(p.header.index) {
          m := NewAfterData(slot.parts, a, f, p.header.index, p.payload);
        }
      }
      var stored := StorePacket(p);
      if !stored {
        StepRefused(id, IsKey(p), latestCompleted, false, waitingAfterLoss);
        if tracked {
          if slot.HasPart(p.header.index) {
            TakenDuplicate(id, a, f, p.header.index);
          } else {
            TakenRefused(held, parity, slot, id, a, f, p.header.index, m);
          }
        }
        return None;
      }
      ghost var mid, pending := frames, pendingFec;
      if tracked {
        TakenKeepsParity(held[id := slot], mid, parity, pending, id, p.header.index, p.payload, false);
      }
      r := Settle(id, m);
      if tracked {
        TakenStored(held, mid, parity, pending, slot, id, a, f, p.header.index, m, old(latestCompleted), r);
      }
    }

    /** A duplicate adds nothing to what is known. */
    lemma SlotKnown(id: u32, a: set<nat>, f: set<nat>, i: nat)
      requires Valid() && Tracks(id, a, f) && i < |Slots(id)| && Slots(id)[i].Some?
      ensures !Recoverable(|sent[id].chunks|, a + {i}, f) && Tracks(id, a + {i}, f)
    {
      hide Holds, Recoverable, Kept, Windowed;
      SlotsBounded(id, a, f);
      KnownAddsNothing(Slots(id), a, f, i);
      CompleteIffRecoverable(Slots(id), a + {i}, f);
    }

    lemma SlotsBounded(id: u32, a: set<nat>, f: set<nat>)
      requires Valid() && honest && Tracks(id, a, f)
      ensures Bounded(Slots(id), a, f)
      ensures id in frames ==> Holds(Slots(id), a, f)
      ensures |Slots(id)| == |sent[id].chunks|
      ensures id in frames ==> exists i :: 0 <= i < |Slots(id)| && Slots(id)[i].None?
      ensures id !in frames ==> forall i :: 0 <= i < |Slots(id)| ==> Slots(id)[i].None?
    {
      hide Kept, Windowed;
      if id in frames {
        KeyOf(id);
        HoldsIsBounded(frames[id].parts, a, f);
      }
    }

    /** Accepts one data packet. */
    method OnPacket(p: Packet, ghost a: set<nat>, ghost f: set<nat>) returns (r: Option<Output>)
      requires Valid()
      modifies this
      ensures Valid() && honest == (old(honest) && IsData(sent, p)) && codecConfig == old(codecConfig)
      ensures honest && r.Some? ==> p.header.frameId in sent && r.value == OutputOf(p.header.frameId)
      ensures honest ==> Step(p.header.frameId, IsKey(p), IsKey(p) && old(Admissible(p)), old(latestCompleted),
                              old(waitingAfterLoss), latestCompleted, waitingAfterLoss, r)
      ensures old(Admissible(p)) ==> latestSeen == old(SeenWith(p.header.frameId))
      ensures !old(Admissible(p)) ==>
              && r.None? && latestCompleted == old(latestCompleted)
              && (if old(Overdue(p)) then
                    var next := Min(p.header.frameId + 1, U32_MAX);
                    && frames == From(old(frames), next) && pendingFec == From(old(pendingFec), next)
                    && waitingAfterLoss && latestSeen == Some(p.header.frameId)
                  else
                    && frames == old(frames) && pendingFec == old(pendingFec)
                    && waitingAfterLoss == old(waitingAfterLoss) && latestSeen == old(latestSeen))
      ensures honest && old(Admissible(p)) && old(Tracks(p.header.frameId, a, f)) ==>
              TakenAs(From(old(frames), old(Cutoff(p))), From(old(pendingFec), old(Cutoff(p))), p.header.frameId,
                      old(FirstNeed(p)), With(a, p.header.index), f, old(latestCompleted), false, r)
    {
      hide Kept, Sincere, OutputOf, Holds, Recoverable, Step, IsData, IsKey, ValidFragment, Total, FrameBytes, From;
      hide TakenAs, NewAssembly, With;
      Judge(IsData(sent, p));
      var id := p.header.frameId;
      var admitted := Admit(p);
      if !admitted {
        StepRefused(id, IsKey(p), latestCompleted, old(waitingAfterLoss), waitingAfterLoss);
        return None;
      }
      FromKeeps(old(frames), old(Cutoff(p)), id);
      FromKeeps(old(pendingFec), old(Cutoff(p)), id);
      r := TakeIn(p, a, f);
      if honest {
        StepAdmitted(id, IsKey(p), old(latestCompleted), old(waitingAfterLoss), latestCompleted, waitingAfterLoss, r);
      }
    }

    lemma FecReadBack(p: Packet)
      requires IsFec(sent, p)
      ensures p.header.frameId in sent && WellFormed(sent[p.header.frameId])
      ensures var m := ParseFecPayload(p.payload);
              && m.Some? && m.value.base / FEC_GROUP_SIZE == p.header.index && IsParity(sent[p.header.frameId], m.value)
      ensures IsKey(p) == sent[p.header.frameId].key
    {
      hide FecPayload, ParseFecPayload, ParityBytes, ParityLen, MaxLen, Group;
      var s, g := sent[p.header.frameId], p.header.index;
      GroupsAreSmall(s, g);
      FecPayloadExact(p.payload, GroupParity(s, g));
    }

    /** Keeps the parity of a frame until it is complete or given up. */
    method KeepParity(id: u32, m: FecMeta)
      requires Valid() && m.groupSize <= FEC_GROUP_SIZE
      requires honest ==> id in sent && WellFormed(sent[id]) && IsParity(sent[id], m)
      modifies this`pendingFec
      ensures Valid()
      ensures ParityReceived(id) == old(ParityReceived(id)) + {m.base / FEC_GROUP_SIZE}
      ensures pendingFec == old(pendingFec)[id := old(Pending(id)) + [m]]
    {
      hide Shape, Assembled, IsParity, WellFormed, Total, Windowed;
      var known := if id in pendingFec then pendingFec[id] else [];
      assert forall x :: x in known + [m] <==> x in known || x == m;
      pendingFec := pendingFec[id := known + [m]];
    }

    /** Keeps parity that was parsed, and emits its frame if that is now complete and decodable. */
    method TakeInFec(id: u32, m: FecMeta, ghost key: bool, ghost a: set<nat>, ghost f: set<nat>)
      returns (r: Option<Output>)
      requires Valid() && m.groupSize <= FEC_GROUP_SIZE && (latestCompleted.Some? ==> latestCompleted.value < id)
      requires honest ==> id in sent && WellFormed(sent[id]) && IsParity(sent[id], m) && key == sent[id].key
      modifies this`frames, this`pendingFec, this`buffered, this`lastDropped, this`droppedFrames,
               this`waitingAfterLoss, this`fecRecovered, this`latestCompleted
      ensures Valid()
      ensures honest && r.Some? ==> id in sent && r.value == OutputOf(id)
      ensures honest ==> Step(id, key, false, old(latestCompleted), old(waitingAfterLoss), latestCompleted,
                              waitingAfterLoss, r)
      ensures id !in old(frames) ==>
              && r.None? && frames == old(frames) && pendingFec == old(pendingFec)[id := old(Pending(id)) + [m]]
              && latestCompleted == old(latestCompleted) && waitingAfterLoss == old(waitingAfterLoss)
      ensures honest && old(Tracks(id, a, f)) && a == {} ==> Tracks(id, a, With(f, m.base / FEC_GROUP_SIZE))
      ensures honest && old(Tracks(id, a, f)) && a != {} ==>
              TakenAs(old(frames), old(pendingFec)[id := old(Pending(id)) + [m]], id, old(HeldFor(id)), a,
                      With(f, m.base / FEC_GROUP_SIZE), old(latestCompleted), old(waitingAfterLoss), r)
    {
      hide Kept, Sincere, OutputOf, Holds, Recoverable, IsParity, Step, WellFormed, GenuineParts, IsNew;
      hide Total, FrameBytes, Windowed, SettledAs, TakenAs, Shape;
      StepRefused(id, key, latestCompleted, waitingAfterLoss, waitingAfterLoss);
      ghost var tracked := honest && Tracks(id, a, f);
      KeepParity(id, m);
      SamePut(old(pendingFec), id, old(Pending(id)) + [m]);
      if id !in frames {
        return None;
      }
      ghost var held, parity, completed, waiting := frames, pendingFec, latestCompleted, waitingAfterLoss;
      ghost var lone := None;
      if honest {
        KeyOf(id);
      }
      if tracked {
        lone := NewAfterParity(frames[id].parts, a, f, m.base / FEC_GROUP_SIZE);
      }
      r := Settle(id, lone);
      if tracked {
        TakenParity(held, parity, id, a, f, m.base / FEC_GROUP_SIZE, lone, completed, waiting, r);
      }
    }

    /** Parity was kept, and what it makes recoverable was tried. */
    lemma TakenParity(held: map<u32, Assembly>, parity: map<u32, seq<FecMeta>>, id: u32, a: set<nat>, f: set<nat>,
                      g: nat, m: Option<nat>, completed: Option<u32>, waiting: bool, r: Option<Output>)
      requires honest && id in sent && id in held && id in parity && GroupsOf(parity[id]) == With(f, g) && a != {}
      requires GenuineParts(sent[id], held[id].parts) && Shape(held[id]) && Holds(held[id].parts, a, f)
      requires IsNew(held[id].parts, With(f, g), m) && SettledAs(held, parity, id, m, completed, waiting, r)
      ensures TakenAs(held, parity, id, held[id].buffered, a, With(f, g), completed, waiting, r)
    {
      hide Recoverable, Outcome, Reserved, Fitting, Bounded, Lone, KnownParts, Holds, GroupsOf;
      var s := sent[id];
      KnownAfterParity(s, held[id].parts, a, f, g, m);
      PartsWithBytes(s, held[id], m);
      WholeIs(s, held[id].parts, m);
      CompleteIffRecoverable(PartsWith(s, held[id].parts, m), a, With(f, g));
      ParityStays(held, frames, parity, pendingFec, id, s.key, held[id].buffered, KnownBytes(s.chunks, a, With(f, g)));
    }

    /** Accepts one parity packet. */
    method OnFecPacket(p: Packet, ghost a: set<nat>, ghost f: set<nat>) returns (r: Option<Output>)
      requires Valid()
      modifies this
      ensures Valid() && honest == (old(honest) && IsFec(sent, p)) && codecConfig == old(codecConfig)
      ensures latestSeen == old(latestSeen)
      ensures honest && r.Some? ==> p.header.frameId in sent && r.value == OutputOf(p.header.frameId)
      ensures honest ==> Step(p.header.frameId, IsKey(p), false, old(latestCompleted), old(waitingAfterLoss),
                              latestCompleted, waitingAfterLoss, r)
      ensures var id, m := p.header.frameId, ParseFecPayload(p.payload);
              old(Stale(id)) || m.None? || id !in old(frames) ==>
                && r.None? && frames == old(frames)
                && pendingFec == (if old(Stale(id)) || m.None? then old(pendingFec)
                                  else old(pendingFec)[id := old(Pending(id)) + [m.value]])
                && latestCompleted == old(latestCompleted) && waitingAfterLoss == old(waitingAfterLoss)
      ensures honest && old(Tracks(p.header.frameId, a, f)) && !old(Stale(p.header.frameId)) && a == {} ==>
              Tracks(p.header.frameId, a, With(f, p.header.index))
      ensures honest && old(Tracks(p.header.frameId, a, f)) && !old(Stale(p.header.frameId)) && a != {} ==>
              var id, m := p.header.frameId, ParseFecPayload(p.payload);
              && m.Some?
              && TakenAs(old(frames), old(pendingFec)[id := old(Pending(id)) + [m.value]], id, old(HeldFor(id)), a,
                         With(f, p.header.index), old(latestCompleted), old(waitingAfterLoss), r)
    {
      hide Kept, Sincere, OutputOf, Holds, Recoverable, IsParity, IsFec, ParseFecPayload, Step, WellFormed;
      hide IsKey, Total, FrameBytes, Windowed, Pending, TakenAs, HeldFor;
      Judge(IsFec(sent, p));
      var id := p.header.frameId;
      StepRefused(id, IsKey(p), latestCompleted, waitingAfterLoss, waitingAfterLoss);
      if latestCompleted.Some? && id <= latestCompleted.value {
        return None;
      }
      if latestSeen.Some? && Min(id + REORDER_WINDOW, U32_MAX) < latestSeen.value {
        return None;
      }
      if honest {
        FecReadBack(p);
      }
      FecGroupSize(p.payload);
      var meta := ParseFecPayload(p.payload);
      if meta.None? {
        return None;
      }
      r := TakeInFec(id, meta.value, IsKey(p), a, f);
    }

    lemma FecGroupSize(payload: seq<byte>)
      ensures ParseFecPayload(payload).Some? ==> ParseFecPayload(payload).value.groupSize <= FEC_GROUP_SIZE
    {
    }

    /** The key flag of a stored frame is that of the sent frame. */
    lemma KeyOf(id: u32)
      requires Valid() && honest && id in frames
      ensures id in sent && WellFormed(sent[id]) && GenuineParts(sent[id], frames[id].parts)
      ensures frames[id].key == sent[id].key && frames[id].count == |sent[id].chunks|
      ensures frames[id].IsComplete() <==> forall i :: 0 <= i < |frames[id].parts| ==> frames[id].parts[i].Some?
      ensures |frames[id].parts| == |sent[id].chunks| && Shape(frames[id])
    {
      AssembledParts(sent[id], frames[id]);
      CompleteJoins(sent[id], frames[id]);
    }

    lemma FragmentIs(h: Header)
      ensures ValidFragment(h) <==> !(h.count == 0 || h.index >= h.count || h.count > MAX_FRAME_PACKET_COUNT)
    {
    }
  }
}
