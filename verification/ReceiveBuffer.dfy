/** The byte account of the frames that are being put together. */
module ReceiveBuffer {
  import opened Bytes
  import opened EvrtVideo
  import opened FrameAssembly

  const MAX_BUFFERED_BYTES: nat := 24 * 1024 * 1024

  ghost predicate SubMap<K, V>(m: map<K, V>, n: map<K, V>) {
    forall k :: k in m ==> k in n && m[k] == n[k]
  }

  lemma SubMapFacts<K, V>(m: map<K, V>, k: K)
    ensures SubMap(m, m) && SubMap(m - {k}, m)
  {
  }

  lemma SubMapDrop<K, V>(m: map<K, V>, n: map<K, V>, k: K)
    requires SubMap(m, n)
    ensures SubMap(m - {k}, n)
  {
  }

  lemma SubMapAt<K, V>(m: map<K, V>, n: map<K, V>, k: K)
    requires SubMap(m, n)
    ensures k in m ==> k in n && m[k] == n[k]
  {
  }

  lemma SubMapTrans<K, V>(l: map<K, V>, m: map<K, V>, n: map<K, V>)
    requires SubMap(l, m) && SubMap(m, n)
    ensures SubMap(l, n)
  {
  }

  function OlderKeys<V>(m: map<u32, V>, id: nat): set<u32> {
    set k | k in m && k < id
  }

  /** The entries from number `id` on. */
  function From<V>(m: map<u32, V>, id: nat): (n: map<u32, V>)
    ensures forall k :: k in n <==> k in m && k >= id
    ensures forall k :: k in n ==> n[k] == m[k]
  {
    m - OlderKeys(m, id)
  }

  lemma FromTwice<V>(m: map<u32, V>, a: nat, b: nat)
    requires a <= b
    ensures From(From(m, a), b) == From(m, b)
  {
  }

  lemma FromZero<V>(m: map<u32, V>)
    ensures From(m, 0) == m
  {
  }

  lemma FromKeeps<V>(m: map<u32, V>, cutoff: nat, id: u32)
    requires cutoff <= id
    ensures id in From(m, cutoff) <==> id in m
    ensures id in m ==> From(m, cutoff)[id] == m[id]
  {
  }

  lemma SamePut<V>(m: map<u32, V>, id: u32, v: V)
    ensures m[id := v] - {id} == m - {id}
  {
  }

  lemma KeysWithout<V>(m: map<u32, V>, id: u32)
    ensures (m - {id}).Keys == m.Keys - {id}
    ensures id in m ==> m.Keys == (m.Keys - {id}) + {id}
  {
  }

  // ----- the account

  ghost function Sum(sizes: map<u32, nat>): nat
    decreases |sizes|
  {
    if sizes == map[] then 0
    else
      assert sizes.Keys != {};
      var id :| id in sizes;
      assert (sizes - {id}).Keys == sizes.Keys - {id};
      sizes[id] + Sum(sizes - {id})
  }

  lemma {:induction false} SumRemove(sizes: map<u32, nat>, id: u32)
    requires id in sizes
    ensures Sum(sizes) == sizes[id] + Sum(sizes - {id})
    decreases |sizes|
  {
    var first :| first in sizes && Sum(sizes) == sizes[first] + Sum(sizes - {first});
    if first != id {
      assert (sizes - {first}).Keys == sizes.Keys - {first} && (sizes - {id}).Keys == sizes.Keys - {id};
      SumRemove(sizes - {first}, id);
      SumRemove(sizes - {id}, first);
      assert sizes - {first} - {id} == sizes - {id} - {first};
    }
  }

  lemma SumPut(sizes: map<u32, nat>, id: u32, bytes: nat)
    requires id !in sizes
    ensures Sum(sizes[id := bytes]) == Sum(sizes) + bytes
  {
    SumRemove(sizes[id := bytes], id);
    assert sizes[id := bytes] - {id} == sizes;
  }

  lemma EmptySum()
    ensures Sum(map[]) == 0
  {
  }

  lemma {:induction false} SumSub(m: map<u32, nat>, n: map<u32, nat>)
    requires SubMap(m, n)
    ensures Sum(m) <= Sum(n)
    decreases |n|
  {
    if n == map[] {
      assert m == map[];
    } else {
      assert n.Keys != {};
      var id :| id in n;
      assert (n - {id}).Keys == n.Keys - {id};
      SumSub(m - {id}, n - {id});
      SumRemove(n, id);
      if id in m {
        SumRemove(m, id);
      } else {
        assert m - {id} == m;
      }
    }
  }

  /** The bytes held for each frame. */
  ghost function Sizes(frames: map<u32, Assembly>): (sizes: map<u32, nat>)
    ensures sizes.Keys == frames.Keys
  {
    map id | id in frames :: frames[id].buffered
  }

  /** The bytes held for all frames together. */
  ghost function Total(frames: map<u32, Assembly>): nat {
    Sum(Sizes(frames))
  }

  lemma SizesWithout(frames: map<u32, Assembly>, id: u32)
    ensures Sizes(frames - {id}) == Sizes(frames) - {id}
  {
  }

  lemma NoBytes()
    ensures Total(map[]) == 0
  {
  }

  lemma TotalRemove(frames: map<u32, Assembly>, id: u32)
    requires id in frames
    ensures Total(frames) == frames[id].buffered + Total(frames - {id})
  {
    SizesWithout(frames, id);
    SumRemove(Sizes(frames), id);
  }

  lemma TotalPut(frames: map<u32, Assembly>, id: u32, a: Assembly)
    ensures Total(frames[id := a]) == Total(frames - {id}) + a.buffered
  {
    TotalRemove(frames[id := a], id);
    assert frames[id := a] - {id} == frames - {id};
  }

  /** The account of one frame and of all others. */
  lemma TotalSplit(frames: map<u32, Assembly>, id: u32)
    ensures Total(frames) == Total(frames - {id}) + if id in frames then frames[id].buffered else 0
  {
    if id in frames {
      TotalRemove(frames, id);
    } else {
      assert frames - {id} == frames;
    }
  }

  lemma TotalSub(m: map<u32, Assembly>, n: map<u32, Assembly>)
    requires SubMap(m, n)
    ensures Total(m) <= Total(n)
  {
    SumSub(Sizes(m), Sizes(n));
  }

  // ----- eviction

  ghost predicate IsOldest(s: set<u32>, m: u32) {
    m in s && forall k :: k in s ==> m <= k
  }

  lemma {:induction false} HasOldest(s: set<u32>)
    requires s != {}
    ensures exists m :: IsOldest(s, m)
    decreases |s|
  {
    var k :| k in s;
    if s == {k} {
      assert IsOldest(s, k);
    } else {
      var rest := s - {k};
      assert rest != {};
      HasOldest(rest);
      var m :| IsOldest(rest, m);
      var o := if k < m then k else m;
      forall j | j in s ensures o <= j {
        assert j == k || j in rest;
      }
      assert IsOldest(s, o);
    }
  }

  ghost function OldestOf(s: set<u32>): (m: u32)
    requires s != {}
    ensures IsOldest(s, m)
  {
    HasOldest(s);
    var m :| IsOldest(s, m);
    m
  }

  /** The frames that stay beside one that needs `bytes` bytes: the others go, the oldest first, until it fits or
      none is left. */
  ghost function Survivors(sizes: map<u32, nat>, bytes: nat): (left: map<u32, nat>)
    ensures SubMap(left, sizes)
    decreases |sizes|
  {
    if sizes == map[] || Sum(sizes) + bytes <= MAX_BUFFERED_BYTES then sizes
    else
      assert sizes.Keys != {};
      var k := OldestOf(sizes.Keys);
      assert (sizes - {k}).Keys == sizes.Keys - {k};
      Survivors(sizes - {k}, bytes)
  }

  lemma SurvivorsStep(sizes: map<u32, nat>, bytes: nat, k: u32)
    requires Sum(sizes) + bytes > MAX_BUFFERED_BYTES && IsOldest(sizes.Keys, k)
    ensures Survivors(sizes, bytes) == Survivors(sizes - {k}, bytes)
  {
    assert OldestOf(sizes.Keys) == k;
  }

  /** Making room twice is making room once for the larger need. */
  lemma {:induction false} SurvivorsTwice(sizes: map<u32, nat>, first: nat, need: nat)
    requires first <= need
    ensures Survivors(Survivors(sizes, first), need) == Survivors(sizes, need)
    decreases |sizes|
  {
    if sizes != map[] && Sum(sizes) + first > MAX_BUFFERED_BYTES {
      assert sizes.Keys != {};
      var k := OldestOf(sizes.Keys);
      assert (sizes - {k}).Keys == sizes.Keys - {k};
      SurvivorsTwice(sizes - {k}, first, need);
    }
  }

  /** One frame is evicted for frame `id`, which holds `held` bytes and needs `bytes` more. */
  lemma EvictOne(frames: map<u32, Assembly>, id: u32, need: nat, k: u32)
    requires IsOldest(frames.Keys - {id}, k) && Total(frames - {id}) + need > MAX_BUFFERED_BYTES
    ensures Survivors(Sizes(frames - {id}), need) == Survivors(Sizes(frames - {k} - {id}), need)
  {
    hide Sum, Survivors;
    assert (frames - {id}).Keys == frames.Keys - {id};
    assert Sizes(frames - {k} - {id}) == Sizes(frames - {id}) - {k};
    SurvivorsStep(Sizes(frames - {id}), need, k);
  }

  /** Who stays: the newest frames, as many as fit into 24 MiB with the `bytes`, and not one fewer. */
  lemma {:induction false} SurvivorsAreNewest(sizes: map<u32, nat>, bytes: nat)
    ensures NewestFit(sizes, Survivors(sizes, bytes), bytes)
    decreases |sizes|
  {
    hide NewestFit;
    if sizes != map[] && Sum(sizes) + bytes > MAX_BUFFERED_BYTES {
      assert sizes.Keys != {};
      var k := OldestOf(sizes.Keys);
      assert (sizes - {k}).Keys == sizes.Keys - {k};
      SurvivorsAreNewest(sizes - {k}, bytes);
      NewestFitStep(sizes, k, Survivors(sizes - {k}, bytes), bytes);
    } else {
      NewestFitAll(sizes, bytes);
    }
  }

  ghost predicate NewestFit(sizes: map<u32, nat>, left: map<u32, nat>, bytes: nat) {
    && SubMap(left, sizes) && (left == map[] || Sum(left) + bytes <= 25_165_824)
    && (forall a, b :: a in left && b in sizes && b !in left ==> b < a)
    && forall b :: b in sizes && b !in left ==> Sum(From(sizes, b)) + bytes > 25_165_824
  }

  lemma NewestFitAll(sizes: map<u32, nat>, bytes: nat)
    requires sizes == map[] || Sum(sizes) + bytes <= MAX_BUFFERED_BYTES
    ensures NewestFit(sizes, sizes, bytes)
  {
    hide Sum;
  }

  lemma NewestFitStep(sizes: map<u32, nat>, k: u32, left: map<u32, nat>, bytes: nat)
    requires IsOldest(sizes.Keys, k) && Sum(sizes) + bytes > MAX_BUFFERED_BYTES
    requires NewestFit(sizes - {k}, left, bytes)
    ensures NewestFit(sizes, left, bytes)
  {
    hide Sum;
    var rest := sizes - {k};
    assert From(sizes, k) == sizes;
    forall b | b in sizes && b !in left ensures Sum(From(sizes, b)) + bytes > 25_165_824 {
      if b != k {
        assert b in rest && From(rest, b) == From(sizes, b);
      }
    }
  }

  lemma SurvivorsFit(sizes: map<u32, nat>, bytes: nat)
    requires Sum(sizes) + bytes <= MAX_BUFFERED_BYTES
    ensures Survivors(sizes, bytes) == sizes
  {
  }

  // ----- the frames of the sender

  /** The payload of a sent frame. */
  ghost function FrameBytes(s: SentFrame): nat {
    |Flatten(s.chunks)|
  }

  lemma {:induction false} StoredBytes(parts: seq<Part>, chunks: seq<seq<byte>>)
    requires |parts| == |chunks| && forall i :: 0 <= i < |parts| && parts[i].Some? ==> parts[i].value == chunks[i]
    ensures SumBytes(parts) <= |Flatten(chunks)|
  {
    if parts != [] {
      var last := |parts| - 1;
      StoredBytes(parts[..last], chunks[..last]);
      FlattenSnoc(chunks[..last], chunks[last]);
      assert chunks == chunks[..last] + [chunks[last]];
    }
  }

  lemma AssembledBytes(s: SentFrame, a: Assembly)
    requires Assembled(s, a)
    ensures a.buffered <= FrameBytes(s)
  {
    StoredBytes(a.parts, s.chunks);
  }

  /** A part that is still missing has its place in the frame's bytes. */
  lemma MissingFits(s: SentFrame, a: Assembly, i: nat)
    requires Assembled(s, a) && !a.HasPart(i)
    ensures a.buffered + |s.chunks[i]| <= FrameBytes(s)
  {
    SetAssembled(s, a, i);
    AssembledBytes(s, a.Set(i, s.chunks[i]));
  }

  lemma {:induction false} FlattenBound(chunks: seq<seq<byte>>, max: nat)
    requires forall i :: 0 <= i < |chunks| ==> |chunks[i]| <= max
    ensures |Flatten(chunks)| <= |chunks| * max
  {
    if chunks != [] {
      FlattenBound(chunks[1..], max);
      assert |chunks| * max == (|chunks| - 1) * max + max;
    }
  }

  /** The payload bytes of the `n` frames from number `lo` on, as far as they were sent. */
  ghost function SentBytes(sent: map<u32, SentFrame>, lo: nat, n: nat): nat {
    if n == 0 then 0
    else SentBytes(sent, lo, n - 1) + if lo + n - 1 in sent then FrameBytes(sent[lo + n - 1]) else 0
  }

  /** What is held is at most the sent frames from number `lo` on. */
  ghost predicate HeldOf(sizes: map<u32, nat>, sent: map<u32, SentFrame>, lo: nat, n: nat) {
    forall id :: id in sizes ==> lo <= id < lo + n && id in sent && sizes[id] <= FrameBytes(sent[id])
  }

  lemma {:induction false} HeldBytes(sizes: map<u32, nat>, sent: map<u32, SentFrame>, lo: nat, n: nat)
    requires HeldOf(sizes, sent, lo, n)
    ensures Sum(sizes) <= SentBytes(sent, lo, n)
  {
    hide FrameBytes;
    if n == 0 {
      assert sizes == map[];
    } else if lo + n - 1 in sizes {
      var id: u32 := lo + n - 1;
      HeldBytes(sizes - {id}, sent, lo, n - 1);
      SumRemove(sizes, id);
    } else {
      HeldBytes(sizes, sent, lo, n - 1);
    }
  }

  /** If the payloads fit, there is room for a frame beside what is held of the others. */
  lemma {:induction false} HeldBeside(sizes: map<u32, nat>, sent: map<u32, SentFrame>, id: u32, lo: nat, n: nat)
    requires HeldOf(sizes, sent, lo, n) && id !in sizes && id in sent && lo <= id < lo + n
    ensures Sum(sizes) + FrameBytes(sent[id]) <= SentBytes(sent, lo, n)
  {
    hide FrameBytes;
    if lo + n - 1 == id {
      HeldBytes(sizes, sent, lo, n - 1);
    } else if lo + n - 1 in sizes {
      var last: u32 := lo + n - 1;
      HeldBeside(sizes - {last}, sent, id, lo, n - 1);
      SumRemove(sizes, last);
    } else {
      HeldBeside(sizes, sent, id, lo, n - 1);
    }
  }

  /** A frame of the sender never exhausts the receive buffer by itself. */
  lemma OneFrameFits(s: SentFrame)
    requires WellFormed(s)
    ensures FrameBytes(s) <= MAX_BUFFERED_BYTES
  {
    FlattenBound(s.chunks, 1171);
    assert |s.chunks| * 1171 <= 16384 * 1171;
  }
}
