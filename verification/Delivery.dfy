/** Whole transfers: the sender, a network that loses, repeats and reorders, and the reassembler. */
module Delivery {
  import opened Bytes
  import opened EvrtWire
  import opened EvrtPacketizer
  import opened EvrtFec
  import opened EvrtVideo
  import opened FrameAssembly
  import opened Availability
  import opened ReceiveBuffer
  import opened Reassembler
  import opened StreamModel
  import opened BufferedStream
  import opened FrameChain

  /** A datagram of a frame, as it reaches the receiver. */
  datatype Arrival = Data(i: nat) | Parity(g: nat)

  ghost function DataArrived(arrivals: seq<Arrival>): set<nat> {
    set x | x in arrivals && x.Data? :: x.i
  }

  ghost function ParityArrived(arrivals: seq<Arrival>): set<nat> {
    set x | x in arrivals && x.Parity? :: x.g
  }

  lemma ArrivalsStep(arrivals: seq<Arrival>, k: nat)
    requires k < |arrivals|
    ensures arrivals[k].Data? ==>
            && DataArrived(arrivals[..k + 1]) == With(DataArrived(arrivals[..k]), arrivals[k].i)
            && ParityArrived(arrivals[..k + 1]) == ParityArrived(arrivals[..k])
    ensures arrivals[k].Parity? ==>
            && ParityArrived(arrivals[..k + 1]) == With(ParityArrived(arrivals[..k]), arrivals[k].g)
            && DataArrived(arrivals[..k + 1]) == DataArrived(arrivals[..k])
  {
    assert arrivals[..k + 1] == arrivals[..k] + [arrivals[k]];
  }

  lemma NoArrivals()
    ensures DataArrived([]) == {} && ParityArrived([]) == {}
  {
  }

  /** Parity alone never suffices. */
  lemma NeedsData(n: nat, f: set<nat>)
    requires n >= 2 || f == {}
    requires n > 0
    ensures !Recoverable(n, {}, f)
  {
    var none: set<nat> := {};
    if n >= 2 {
      assert GroupBase(0) == 0 && (1 as nat) !in none;
    }
    assert !Avail(n, none, f, 0);
  }

  // ----- one frame of a session

  /** What the arrivals `a` and `f` amount to for frame `s`. */
  ghost function GotOf(s: SentFrame, a: set<nat>, f: set<nat>): Got {
    Got(s.key, a != {}, Recoverable(|s.chunks|, a, f), if a == {} then 0 else KnownBytes(s.chunks, a, f))
  }

  /** More arrivals make more known; of a frame that can be rebuilt all is known. */
  lemma KnownGrows(s: SentFrame, a: set<nat>, f: set<nat>, a': set<nat>, f': set<nat>)
    requires a <= a' && f <= f'
    ensures KnownBytes(s.chunks, a, f) <= KnownBytes(s.chunks, a', f')
    ensures Recoverable(|s.chunks|, a, f) ==>
              Recoverable(|s.chunks|, a', f') && KnownBytes(s.chunks, a', f') == KnownBytes(s.chunks, a, f)
  {
    hide Avail;
    var n := |s.chunks|;
    AvailMonotone(n, a, f, a', f');
    PartsGrow(KnownParts(s.chunks, a, f), KnownParts(s.chunks, a', f'));
    if Recoverable(n, a, f) {
      assert KnownParts(s.chunks, a', f') == KnownParts(s.chunks, a, f);
    }
  }

  lemma {:induction false} PartsGrow(parts: seq<Part>, parts': seq<Part>)
    requires |parts| == |parts'| && forall i :: 0 <= i < |parts| && parts[i].Some? ==> parts'[i] == parts[i]
    ensures SumBytes(parts) <= SumBytes(parts')
  {
    if parts != [] {
      PartsGrow(parts[..|parts| - 1], parts'[..|parts| - 1]);
    }
  }

  lemma GotGrows(s: SentFrame, a: set<nat>, f: set<nat>, a': set<nat>, f': set<nat>)
    requires a <= a' && f <= f'
    ensures var g, g' := GotOf(s, a, f), GotOf(s, a', f');
            && g.bytes <= g'.bytes && (g.touched ==> g'.touched)
            && (g.touched && g.whole ==> g'.whole && g'.bytes == g.bytes)
  {
    hide Recoverable, KnownBytes;
    KnownGrows(s, a, f, a', f');
  }

  ghost function LinkOf(h: Held): Link {
    Link(h.rx.completed, h.rx.waiting, if h.rx.waiting then map[] else h.bytes)
  }

  /** Nothing is known of frame `id` or of a later one. */
  ghost predicate Upto(h: Held, id: nat) {
    && SameFrames(h) && (h.rx.seen.Some? ==> h.rx.seen.value < id)
    && (forall k :: k in h.rx.parity ==> k < id) && (forall k :: k in h.rx.data ==> k < id)
    && Before(LinkOf(h), id)
  }

  /** Of frame `id`, which is `s`, the data packets `a` and the parity packets `f` have arrived; before it the
      link was `l`. */
  ghost predicate InFrame(h: Held, s: SentFrame, l: Link, id: u32, a: set<nat>, f: set<nat>) {
    var x, g := h.rx, GotOf(s, a, f);
    && |s.chunks| > 0 && (|s.chunks| < 2 ==> f == {})
    && Before(l, id) && LinkOf(h) == Turn(l, id, g) && SameFrames(h)
    && (forall k :: k in x.parity ==> k <= id) && (forall k :: k in x.data ==> k <= id)
    && (x.seen.Some? ==> x.seen.value <= id)
    && (!g.touched ==> (x.seen.Some? ==> x.seen.value < id) && id !in x.data && GroupsKnown(x, id) == f)
    && (g.touched && !Refused(l, id, g) ==> x.seen == Some(id))
    && (g.touched && (Refused(l, id, g) || g.whole) ==> id !in x.data)
    && (g.touched && !Refused(l, id, g) && !g.whole ==>
          id in x.data && x.data[id] == a && GroupsKnown(x, id) == f)
  }

  lemma StayIfFit(others: map<u32, nat>, key: bool, first: nat, need: nat)
    requires key ==> others == map[]
    ensures FitsBeside(others, key, need) ==> Staying(others, key, first, need) == others
  {
    if Sum(others) + need <= MAX_BUFFERED_BYTES {
      SurvivorsFit(others, need);
    }
  }

  /** The packet's frame gets its room or is given up: what that does to the link. */
  lemma HousedTurn(y: Rx, bytes: map<u32, nat>, s: SentFrame, first: nat, l: Link, id: u32, a: set<nat>, f: set<nat>)
    requires Before(l, id) && bytes - {id} == (if s.key then map[] else l.open)
    requires s.key || (!l.waiting && !Overtakes(l, id))
    requires id in y.data && y.data[id] == a != {} && GroupsKnown(y, id) == f
    requires !y.waiting && y.completed == l.completed
    ensures var g, h' := GotOf(s, a, f), Housed(y, bytes, id, s, first);
            && LinkOf(h') == Turn(l, id, g) && (Emission(y, h'.rx) <==> Emits(l, id, g))
            && (Refused(l, id, g) <==> !FitsBeside(bytes - {id}, s.key, g.bytes))
  {
    hide Sum, Recoverable, KnownBytes, GroupsKnown, Housed, Overtakes, Staying;
    HousedIs(y, bytes, id, s, first);
    StayIfFit(bytes - {id}, s.key, first, KnownBytes(s.chunks, a, f));
  }

  lemma HousedLink(y: Rx, bytes: map<u32, nat>, s: SentFrame, first: nat, l: Link, id: u32, a: set<nat>, f: set<nat>)
    requires Before(l, id) && bytes - {id} == (if s.key then map[] else l.open)
    requires s.key || (!l.waiting && !Overtakes(l, id))
    requires |s.chunks| > 0 && (|s.chunks| < 2 ==> f == {})
    requires id in y.data && y.data[id] == a != {} && GroupsKnown(y, id) == f
    requires bytes.Keys - {id} == y.data.Keys - {id}
    requires !y.waiting && y.completed == l.completed && y.seen == Some(id)
    requires (forall k :: k in y.parity ==> k <= id) && (forall k :: k in y.data ==> k <= id)
    ensures InFrame(Housed(y, bytes, id, s, first), s, l, id, a, f)
    ensures Emission(y, Housed(y, bytes, id, s, first).rx) <==> Emits(l, id, GotOf(s, a, f))
  {
    hide Sum, Recoverable, KnownBytes, GroupsKnown, Housed, Overtakes, Staying, Turn, LinkOf, Emits, Refused;
    hide FitsBeside;
    HousedIs(y, bytes, id, s, first);
    HousedParity(y, bytes, id, s, first);
    HousedTurn(y, bytes, s, first, l, id, a, f);
  }

  /** The state before housing, when a data packet is let in. */
  lemma WithDataIs(h: Held, id: u32, key: bool, i: nat)
    requires SameFrames(h) && LetIn(h.rx, id, key)
    ensures var x, y, bound := h.rx, WithData(h.rx, id, key, i), Bound(h.rx, id, key);
            && bound <= id && id in y.data && y.data[id] == With(DataOf(x, id), i)
            && GroupsKnown(y, id) == GroupsKnown(x, id) && y.completed == x.completed && !y.waiting
            && y.seen == (if Newer(x, id) then Some(id) else x.seen)
            && y.data.Keys - {id} == From(h.bytes, bound).Keys - {id}
            && (forall k :: k in y.data ==> k == id || k in x.data) && (forall k :: k in y.parity ==> k in x.parity)
  {
    hide With, GroupsOf, Reveals;
    ForgetKeeps(h.rx, Bound(h.rx, id, key), id);
  }

  /** The bytes of the frames that stay when a data packet of the newest frame is let in. */
  lemma BytesBeside(bytes: map<u32, nat>, open: map<u32, nat>, id: u32, key: bool, bound: nat)
    requires bytes - {id} == open && forall k :: k in bytes ==> k <= id
    requires if key then bound == id else forall k :: k in bytes ==> k >= bound
    ensures From(bytes, bound) - {id} == if key then map[] else open
  {
  }

  /** With the first data packet of a frame the frame is begun, or refused. */
  lemma FirstData(h: Held, s: SentFrame, l: Link, id: u32, f: set<nat>, i: nat)
    requires InFrame(h, s, l, id, {}, f)
    ensures var h', g' := BufferData(h, id, s, i), GotOf(s, With({}, i), f);
            InFrame(h', s, l, id, With({}, i), f) && (Emission(h.rx, h'.rx) <==> Emits(l, id, g'))
  {
    hide Sum, Recoverable, KnownBytes, GroupsKnown, Housed, FirstBytes, With, WithData, From;
    var x, bound := h.rx, Bound(h.rx, id, s.key);
    NotEmpty({}, i);
    NeedsData(|s.chunks|, f);
    assert LinkOf(h) == l;
    assert !Late(x, id) && Newer(x, id);
    if LetIn(x, id, s.key) {
      assert h.bytes - {id} == h.bytes;
      WithDataIs(h, id, s.key, i);
      BytesBeside(h.bytes, h.bytes, id, s.key, bound);
      HousedLink(WithData(x, id, s.key, i), From(h.bytes, bound), s, FirstBytes(h, id, s, i), l, id, With({}, i), f);
    } else {
      assert From(h.bytes, Min(id + 1, U32_MAX)) == map[];
    }
  }

  /** Further data packets of a frame that was begun. */
  lemma MoreData(h: Held, s: SentFrame, l: Link, id: u32, a: set<nat>, f: set<nat>, i: nat)
    requires InFrame(h, s, l, id, a, f) && a != {}
    requires var g := GotOf(s, a, f); !Refused(l, id, g) && !g.whole
    ensures var h', g' := BufferData(h, id, s, i), GotOf(s, With(a, i), f);
            InFrame(h', s, l, id, With(a, i), f) && (Emission(h.rx, h'.rx) <==> Emits(l, id, g'))
  {
    hide Sum, Recoverable, KnownBytes, GroupsKnown, Housed, FirstBytes, With, WithData, From, Overtakes;
    var x, bound := h.rx, Bound(h.rx, id, s.key);
    var open := if s.key then map[] else l.open;
    NotEmpty(a, i);
    OpenBytes(h, s, l, id, a, f);
    WithDataIs(h, id, s.key, i);
    BytesBeside(h.bytes, open, id, s.key, bound);
    HousedLink(WithData(x, id, s.key, i), From(h.bytes, bound), s, FirstBytes(h, id, s, i), l, id, With(a, i), f);
  }

  /** What is held while a frame is being put together. */
  lemma OpenBytes(h: Held, s: SentFrame, l: Link, id: u32, a: set<nat>, f: set<nat>)
    requires InFrame(h, s, l, id, a, f) && a != {}
    requires var g := GotOf(s, a, f); !Refused(l, id, g) && !g.whole
    ensures h.bytes - {id} == if s.key then map[] else l.open
    ensures h.rx.completed == l.completed && !h.rx.waiting && h.rx.seen == Some(id) && !Late(h.rx, id)
    ensures LetIn(h.rx, id, s.key) && DataOf(h.rx, id) == a && GroupsKnown(h.rx, id) == f
    ensures s.key || (!l.waiting && !Overtakes(l, id))
  {
    hide Sum, Recoverable, KnownBytes, GroupsKnown, Overtakes;
    var open := if s.key then map[] else l.open;
    assert open[id := KnownBytes(s.chunks, a, f)] - {id} == open;
  }

  /** A frame that was refused or completed stays so, and its further packets change nothing in the link. */
  lemma Closed(l: Link, id: u32, s: SentFrame, a: set<nat>, f: set<nat>, a': set<nat>, f': set<nat>)
    requires a != {} && a <= a' && f <= f'
    requires var g := GotOf(s, a, f); Refused(l, id, g) || g.whole
    ensures var g, g' := GotOf(s, a, f), GotOf(s, a', f');
            && g'.touched && (Refused(l, id, g') <==> Refused(l, id, g)) && (!Refused(l, id, g) ==> g'.whole)
            && Turn(l, id, g') == Turn(l, id, g) && (Emits(l, id, g') <==> Emits(l, id, g))
  {
    hide Sum, Recoverable, KnownBytes, Overtakes;
    GotGrows(s, a, f, a', f');
  }

  /** One data packet of the frame. */
  lemma DataEnters(h: Held, s: SentFrame, l: Link, id: u32, a: set<nat>, f: set<nat>, i: nat)
    requires InFrame(h, s, l, id, a, f)
    ensures var h', g, g' := BufferData(h, id, s, i), GotOf(s, a, f), GotOf(s, With(a, i), f);
            && InFrame(h', s, l, id, With(a, i), f)
            && (Emission(h.rx, h'.rx) <==> Emits(l, id, g') && !Emits(l, id, g))
  {
    hide Sum, Recoverable, KnownBytes, GroupsKnown, Housed, FirstBytes, BufferData, Overtakes, InFrame, Turn;
    if a == {} {
      FirstData(h, s, l, id, f, i);
    } else if Refused(l, id, GotOf(s, a, f)) || GotOf(s, a, f).whole {
      Closed(l, id, s, a, f, With(a, i), f);
      ClosedTo(h, s, l, id, a, f, i);
    } else {
      MoreData(h, s, l, id, a, f, i);
    }
  }

  lemma ClosedTo(h: Held, s: SentFrame, l: Link, id: u32, a: set<nat>, f: set<nat>, i: nat)
    requires InFrame(h, s, l, id, a, f) && a != {}
    requires var g := GotOf(s, a, f); Refused(l, id, g) || g.whole
    ensures BufferData(h, id, s, i) == h && InFrame(h, s, l, id, With(a, i), f)
  {
    hide Sum, Recoverable, KnownBytes, GroupsKnown, Overtakes, Reveals;
    Closed(l, id, s, a, f, With(a, i), f);
  }

  /** One parity packet of the frame. */
  lemma ParityEnters(h: Held, s: SentFrame, l: Link, id: u32, a: set<nat>, f: set<nat>, m: FecMeta)
    requires InFrame(h, s, l, id, a, f) && |s.chunks| >= 2
    ensures var h', f' := BufferParity(h, id, s, m), With(f, m.base / FEC_GROUP_SIZE);
            && InFrame(h', s, l, id, a, f')
            && (Emission(h.rx, h'.rx) <==> Emits(l, id, GotOf(s, a, f')) && !Emits(l, id, GotOf(s, a, f)))
  {
    hide Sum, Recoverable, KnownBytes, GroupsKnown, Housed, Overtakes, InFrame, Turn, WithParity;
    if a != {} && !Refused(l, id, GotOf(s, a, f)) && !GotOf(s, a, f).whole {
      MoreParity(h, s, l, id, a, f, m);
    } else {
      ParityAside(h, s, l, id, a, f, m);
    }
  }

  lemma MoreParity(h: Held, s: SentFrame, l: Link, id: u32, a: set<nat>, f: set<nat>, m: FecMeta)
    requires InFrame(h, s, l, id, a, f) && |s.chunks| >= 2 && a != {}
    requires var g := GotOf(s, a, f); !Refused(l, id, g) && !g.whole
    ensures var h', f' := BufferParity(h, id, s, m), With(f, m.base / FEC_GROUP_SIZE);
            && InFrame(h', s, l, id, a, f') && (Emission(h.rx, h'.rx) <==> Emits(l, id, GotOf(s, a, f')))
  {
    hide Sum, Recoverable, KnownBytes, GroupsOf, Housed, With, Overtakes;
    OpenBytes(h, s, l, id, a, f);
    GroupsWith(ParityListOf(h.rx, id), m);
    HousedLink(WithParity(h.rx, id, m), h.bytes, s, BytesOf(h, id), l, id, a, With(f, m.base / FEC_GROUP_SIZE));
  }

  /** Parity of a frame that has not begun or is closed. */
  lemma ParityAside(h: Held, s: SentFrame, l: Link, id: u32, a: set<nat>, f: set<nat>, m: FecMeta)
    requires InFrame(h, s, l, id, a, f) && |s.chunks| >= 2
    requires var g := GotOf(s, a, f); a == {} || Refused(l, id, g) || g.whole
    ensures var h', f' := BufferParity(h, id, s, m), With(f, m.base / FEC_GROUP_SIZE);
            && InFrame(h', s, l, id, a, f') && h'.rx.completed == h.rx.completed
            && (Emits(l, id, GotOf(s, a, f')) <==> Emits(l, id, GotOf(s, a, f)))
  {
    hide Sum, Recoverable, KnownBytes, GroupsOf, Overtakes;
    GroupsWith(ParityListOf(h.rx, id), m);
    var f' := With(f, m.base / FEC_GROUP_SIZE);
    if a == {} {
      NeedsData(|s.chunks|, f);
      NeedsData(|s.chunks|, f');
    } else {
      Closed(l, id, s, a, f, a, f');
    }
    if !Late(h.rx, id) {
      NotHoused(WithParity(h.rx, id, m), h.bytes, id, s, BytesOf(h, id));
    }
  }

  // ----- datagrams of one frame

  /** The datagrams carry the packets of the frame. */
  ghost predicate Carries(id: u32, s: SentFrame, auth: Auth, data: seq<seq<byte>>, fec: seq<seq<byte>>) {
    && WellFormed(s) && |data| == |s.chunks|
    && |fec| == (if |s.chunks| >= 2 then GroupCount(|s.chunks|) else 0)
    && (forall i :: 0 <= i < |data| ==> ParseAuthenticated(data[i], |data[i]|, auth) == Some(DataPacket(id, s, i)))
    && (forall g :: 0 <= g < |fec| ==> ParseAuthenticated(fec[g], |fec[g]|, auth) == Some(FecPacket(id, s, g)))
  }

  predicate OfFrame(x: Arrival, n: nat) {
    match x
    case Data(i) => i < n
    case Parity(g) => n >= 2 && g < GroupCount(n)
  }

  ghost function DataWith(x: Arrival, a: set<nat>): set<nat> {
    if x.Data? then With(a, x.i) else a
  }

  ghost function ParityWith(x: Arrival, f: set<nat>): set<nat> {
    if x.Parity? then With(f, x.g) else f
  }

  /** One datagram arrives, is parsed and handed to the reassembler. */
  method Arrive(receiver: ChannelReassembler, x: Arrival, data: seq<seq<byte>>, fec: seq<seq<byte>>, auth: Auth,
                ghost h: Held, ghost l: Link, ghost id: u32, ghost a: set<nat>, ghost f: set<nat>)
    returns (r: Option<Output>, ghost h': Held)
    requires Mirrors(receiver, h) && id in receiver.sent && InFrame(h, receiver.sent[id], l, id, a, f)
    requires Carries(id, receiver.sent[id], auth, data, fec) && OfFrame(x, |receiver.sent[id].chunks|)
    modifies receiver
    ensures var a', f', s := DataWith(x, a), ParityWith(x, f), receiver.sent[id];
            && Mirrors(receiver, h') && InFrame(h', s, l, id, a', f')
            && receiver.codecConfig == old(receiver.codecConfig)
            && (r.Some? <==> Emits(l, id, GotOf(s, a', f')) && !Emits(l, id, GotOf(s, a, f)))
            && (r.Some? ==> r.value == receiver.OutputOf(id))
  {
    hide InFrame, ParseAuthenticated, FecPayload, GroupParity, WellFormed, GotOf, Emits, With, Mirrors, Emission;
    hide BufferData, BufferParity, ChannelReassembler.OutputOf;
    ghost var s := receiver.sent[id];
    match x {
      case Data(i) =>
        var p := ParseAuthenticated(data[i], |data[i]|, auth);
        assert IsData(receiver.sent, p.value);
        r := HandData(receiver, p.value, h);
        h' := BufferData(h, id, s, i);
        DataEnters(h, s, l, id, a, f, i);
      case Parity(g) =>
        var p := ParseAuthenticated(fec[g], |fec[g]|, auth);
        assert IsFec(receiver.sent, p.value);
        r := HandParity(receiver, p.value, h);
        h' := BufferParity(h, id, s, GroupParity(s, g));
        GroupOfParity(s, g);
        ParityEnters(h, s, l, id, a, f, GroupParity(s, g));
    }
  }

  lemma GroupOfParity(s: SentFrame, g: nat)
    requires WellFormed(s) && g < GroupCount(|s.chunks|)
    ensures GroupParity(s, g).base / FEC_GROUP_SIZE == g
  {
  }

  // ----- sessions

  datatype FrameInput = FrameInput(time: u64, key: bool, payload: seq<byte>)

  predicate Sendable(x: FrameInput, auth: Auth) {
    0 < |x.payload| <= ProtectedChunkSize(auth) * MAX_FRAME_PACKET_COUNT
  }

  function FrameOf(x: FrameInput, auth: Auth): SentFrame {
    SentFrame(Chunks(x.payload, ProtectedChunkSize(auth)), x.key, x.time)
  }

  lemma FrameOfFacts(x: FrameInput, auth: Auth)
    requires Sendable(x, auth)
    ensures WellFormed(FrameOf(x, auth)) && Flatten(FrameOf(x, auth).chunks) == x.payload
    ensures |FrameOf(x, auth).chunks| == DivCeil(|x.payload|, ProtectedChunkSize(auth)) > 0
  {
    hide Flatten;
    ChunksJoin(x.payload, ProtectedChunkSize(auth));
    CountWithinLimit(|x.payload|, ProtectedChunkSize(auth), MAX_FRAME_PACKET_COUNT);
  }

  /** The first `n` frames by their numbers. */
  ghost function SentMap(first: nat, inputs: seq<FrameInput>, auth: Auth, n: nat): (m: map<u32, SentFrame>)
    requires Numbered(first, |inputs|) && n <= |inputs|
    ensures forall id :: id in m <==> first <= id < first + n
    ensures forall id :: id in m ==> m[id] == FrameOf(inputs[id - first], auth)
  {
    if n == 0 then map[] else SentMap(first, inputs, auth, n - 1)[first + n - 1 := FrameOf(inputs[n - 1], auth)]
  }

  /** A session: consecutive frames of admissible sizes, and what arrives of each. */
  ghost predicate IsSession(first: nat, inputs: seq<FrameInput>, auth: Auth, arrivals: seq<seq<Arrival>>) {
    && Numbered(first, |inputs|) && |arrivals| == |inputs|
    && (forall k :: 0 <= k < |inputs| ==> Sendable(inputs[k], auth))
    && (forall k, x :: 0 <= k < |inputs| && x in arrivals[k] ==>
          OfFrame(x, DivCeil(|inputs[k].payload|, ProtectedChunkSize(auth))))
  }

  ghost function Gots(inputs: seq<FrameInput>, auth: Auth, arrivals: seq<seq<Arrival>>): (got: seq<Got>)
    requires |arrivals| == |inputs|
    ensures |got| == |inputs|
  {
    seq(|inputs|, k requires 0 <= k < |inputs| =>
      GotOf(FrameOf(inputs[k], auth), DataArrived(arrivals[k]), ParityArrived(arrivals[k])))
  }

  /** What a frame looks like when it comes out; key frames carry the codec configuration in front. */
  function OutputFor(id: u32, x: FrameInput, config: Option<seq<byte>>): Output {
    Output(id, if x.key && config.Some? then config.value + x.payload else x.payload, x.key, x.time)
  }

  /** The frames that the frame-level machine emits, in order. */
  ghost function SessionOutput(first: nat, inputs: seq<FrameInput>, got: seq<Got>, config: Option<seq<byte>>, n: nat)
    : seq<Output>
    requires Numbered(first, |inputs|) && |got| == |inputs| && n <= |inputs|
  {
    if n == 0 then []
    else
      SessionOutput(first, inputs, got, config, n - 1)
      + (if EmittedAt(first, got, n - 1) then [OutputFor(first + n - 1, inputs[n - 1], config)] else [])
  }

  /** Between two frames: the receiver is where the frame-level machine says. */
  ghost predicate Between(receiver: ChannelReassembler, h: Held, first: nat, inputs: seq<FrameInput>, auth: Auth,
                          l: Link, k: nat)
    requires Numbered(first, |inputs|)
    reads receiver
  {
    && Mirrors(receiver, h) && receiver.sent == SentMap(first, inputs, auth, |inputs|)
    && k <= |inputs| && LinkOf(h) == l && Upto(h, first + k)
  }

  lemma FrameStarts(h: Held, s: SentFrame, id: u32)
    requires Upto(h, id) && WellFormed(s)
    ensures InFrame(h, s, LinkOf(h), id, {}, {})
  {
    hide Recoverable, Sum;
    NeedsData(|s.chunks|, {});
    NoGroups();
  }

  lemma FrameEnds(h: Held, s: SentFrame, l: Link, id: u32, a: set<nat>, f: set<nat>)
    requires InFrame(h, s, l, id, a, f)
    ensures Upto(h, id + 1) && LinkOf(h) == Turn(l, id, GotOf(s, a, f))
  {
    hide Recoverable, Sum, KnownBytes, Turn;
    TurnStaysBefore(l, id, GotOf(s, a, f));
  }

  lemma FrameKey(x: FrameInput, auth: Auth)
    ensures FrameOf(x, auth).key == x.key
  {
  }

  /** A session of any length: its frames reach the receiver one after the other, and the datagrams of each
      in any order, any number of times, or not at all. The output is exactly what the frame-level machine
      emits. */
  method DeliverSession(first: nat, inputs: seq<FrameInput>, auth: Auth, config: Option<seq<byte>>,
                        arrivals: seq<seq<Arrival>>)
    returns (out: seq<Output>)
    requires IsSession(first, inputs, auth, arrivals)
    ensures out == SessionOutput(first, inputs, Gots(inputs, auth, arrivals), config, |inputs|)
  {
    hide Between, Gots, FrameOf, Sendable, OfFrame, LinkAfter, EmittedAt, SentMap;
    ghost var got := Gots(inputs, auth, arrivals);
    var receiver := Connect(first, inputs, auth, config);
    ghost var h := EMPTY;
    out := [];
    assert got[..0] == [];
    NoFrames(first);
    for k := 0 to |inputs|
      invariant fresh(receiver) && receiver.codecConfig == config
      invariant Between(receiver, h, first, inputs, auth, LinkAfter(first, got[..k]), k)
      invariant out == SessionOutput(first, inputs, got, config, k)
    {
      var r;
      r, h := DeliverNext(receiver, first, inputs, auth, arrivals[k], h, LinkAfter(first, got[..k]), k);
      SessionStep(first, inputs, auth, arrivals, k);
      if r.Some? {
        out := out + [r.value];
      }
    }
    assert got[..|inputs|] == got;
  }

  lemma NoFrames(first: nat)
    requires Numbered(first, 0)
    ensures LinkAfter(first, []) == START
  {
  }

  lemma SessionStep(first: nat, inputs: seq<FrameInput>, auth: Auth, arrivals: seq<seq<Arrival>>, k: nat)
    requires Numbered(first, |inputs|) && |arrivals| == |inputs| && k < |inputs|
    ensures var got := Gots(inputs, auth, arrivals);
            var g := GotOf(FrameOf(inputs[k], auth), DataArrived(arrivals[k]), ParityArrived(arrivals[k]));
            && LinkAfter(first, got[..k + 1]) == Turn(LinkAfter(first, got[..k]), first + k, g)
            && (EmittedAt(first, got, k) <==> Emits(LinkAfter(first, got[..k]), first + k, g))
  {
    hide Recoverable, FrameOf;
    var got := Gots(inputs, auth, arrivals);
    assert got[..k + 1][..k] == got[..k];
  }

  method Connect(ghost first: nat, ghost inputs: seq<FrameInput>, ghost auth: Auth, config: Option<seq<byte>>)
    returns (receiver: ChannelReassembler)
    requires Numbered(first, |inputs|) && forall k :: 0 <= k < |inputs| ==> Sendable(inputs[k], auth)
    ensures fresh(receiver) && receiver.codecConfig == config
    ensures Between(receiver, EMPTY, first, inputs, auth, START, 0)
  {
    hide FrameOf, Sendable, WellFormed, Mirrors;
    forall k | 0 <= k < |inputs| ensures WellFormed(FrameOf(inputs[k], auth)) {
      FrameOfFacts(inputs[k], auth);
    }
    receiver := Listen(SentMap(first, inputs, auth, |inputs|), config);
  }

  /** The next frame of a session, from the sender to the receiver. */
  method DeliverNext(receiver: ChannelReassembler, first: nat, inputs: seq<FrameInput>, auth: Auth,
                     arrivals: seq<Arrival>, ghost h: Held, ghost l: Link, k: nat)
    returns (r: Option<Output>, ghost h': Held)
    requires Numbered(first, |inputs|) && k < |inputs| && Between(receiver, h, first, inputs, auth, l, k)
    requires forall j :: 0 <= j < |inputs| ==> Sendable(inputs[j], auth)
    requires forall x :: x in arrivals ==> OfFrame(x, DivCeil(|inputs[k].payload|, ProtectedChunkSize(auth)))
    modifies receiver
    ensures var g := GotOf(FrameOf(inputs[k], auth), DataArrived(arrivals), ParityArrived(arrivals));
            && Between(receiver, h', first, inputs, auth, Turn(l, first + k, g), k + 1)
            && receiver.codecConfig == old(receiver.codecConfig)
            && (r.Some? <==> Emits(l, first + k, g))
            && (r.Some? ==> r.value == OutputFor(first + k, inputs[k], receiver.codecConfig))
  {
    hide InFrame, Mirrors, OfFrame, WellFormed, Sendable, GotOf, Emits, Turn, DivCeil, Upto, LinkOf;
    hide ParseAuthenticated, Flatten, DataPacket, FecPacket, Chunks, GroupCount, ProtectedChunkSize;
    var x := inputs[k];
    var id: u32 := first + k;
    FrameOfFacts(x, auth);
    SendableIs(x, auth);
    var data, fec, s := PacketizeVideoWithFec(id, x.time, x.key, x.payload, auth);
    assert Carries(id, s, auth, data, fec);
    hide Carries;
    FrameStarts(h, s, id);
    r, h' := None, h;
    ghost var a: set<nat>, f: set<nat> := {}, {};
    assert arrivals[..0] == [];
    NoArrivals();
    NothingYet(l, id, s);
    for j := 0 to |arrivals|
      invariant receiver.codecConfig == old(receiver.codecConfig)
      invariant Mirrors(receiver, h') && InFrame(h', s, l, id, a, f)
      invariant a == DataArrived(arrivals[..j]) && f == ParityArrived(arrivals[..j])
      invariant r.Some? <==> Emits(l, id, GotOf(s, a, f))
      invariant r.Some? ==> r.value == receiver.OutputOf(id)
    {
      ArrivalsStep(arrivals, j);
      var emitted;
      EmitsGrows(l, id, s, a, f, arrivals[j]);
      emitted, h' := Arrive(receiver, arrivals[j], data, fec, auth, h', l, id, a, f);
      if emitted.Some? {
        r := emitted;
      }
      a, f := DataWith(arrivals[j], a), ParityWith(arrivals[j], f);
    }
    assert arrivals[..|arrivals|] == arrivals;
    FrameEnds(h', s, l, id, a, f);
  }

  lemma SendableIs(x: FrameInput, auth: Auth)
    requires Sendable(x, auth)
    ensures 0 < |x.payload| <= ProtectedChunkSize(auth) * MAX_FRAME_PACKET_COUNT
  {
  }

  lemma NothingYet(l: Link, id: u32, s: SentFrame)
    ensures !Emits(l, id, GotOf(s, {}, {}))
  {
  }

  lemma EmitsGrows(l: Link, id: u32, s: SentFrame, a: set<nat>, f: set<nat>, x: Arrival)
    ensures Emits(l, id, GotOf(s, a, f)) ==> Emits(l, id, GotOf(s, DataWith(x, a), ParityWith(x, f)))
  {
    hide Recoverable, KnownBytes, Overtakes, Sum;
    GotGrows(s, a, f, DataWith(x, a), ParityWith(x, f));
  }

  /** Frame `k` comes out exactly if it can be rebuilt and is a key frame, or follows a frame that came out, or
      is the first of which anything arrived. */
  ghost predicate FollowsRule(first: nat, inputs: seq<FrameInput>, auth: Auth, arrivals: seq<seq<Arrival>>, k: nat)
    requires Numbered(first, |inputs|) && |arrivals| == |inputs| && k < |inputs|
  {
    var got := Gots(inputs, auth, arrivals);
    EmittedAt(first, got, k) <==>
      && Recoverable(DivCeil(|inputs[k].payload|, ProtectedChunkSize(auth)),
                     DataArrived(arrivals[k]), ParityArrived(arrivals[k]))
      && (|| inputs[k].key
          || (forall j :: 0 <= j < k ==> DataArrived(arrivals[j]) == {})
          || (k > 0 && EmittedAt(first, got, k - 1)))
  }

  /** All frames of a session follow the rule if and only if no delta is premature: none that can be rebuilt
      comes at most four frames after a key frame, or after the first frame at all, of which only a part
      arrived, while no key frame, and not the first frame, could be rebuilt, and all that arrived since fits the
      receive buffer. */
  lemma SessionRule(first: nat, inputs: seq<FrameInput>, auth: Auth, arrivals: seq<seq<Arrival>>)
    requires IsSession(first, inputs, auth, arrivals)
    ensures (forall k :: 0 <= k < |inputs| ==> FollowsRule(first, inputs, auth, arrivals, k)) <==>
            (forall k :: 0 <= k < |inputs| ==> !Premature(Gots(inputs, auth, arrivals), k))
  {
    hide Recoverable, EmittedAt, DivCeil, Sendable, FollowsRule, Premature, RuleAt, Gots;
    var got := Gots(inputs, auth, arrivals);
    SensibleSession(first, inputs, auth, arrivals);
    ChainOfFrames(first, got);
    forall k | 0 <= k < |inputs| ensures RuleAt(first, got, k) <==> FollowsRule(first, inputs, auth, arrivals, k) {
      RuleOnArrivals(first, inputs, auth, arrivals, k);
    }
  }

  lemma SensibleSession(first: nat, inputs: seq<FrameInput>, auth: Auth, arrivals: seq<seq<Arrival>>)
    requires IsSession(first, inputs, auth, arrivals)
    ensures Sensible(Gots(inputs, auth, arrivals))
  {
    hide Recoverable, DivCeil, Sendable, FrameOf;
    var got := Gots(inputs, auth, arrivals);
    forall j | 0 <= j < |inputs|
      ensures (got[j].whole ==> got[j].touched) && (!got[j].touched ==> got[j].bytes == 0)
      ensures got[j].bytes <= MAX_BUFFERED_BYTES
    {
      WholeIsTouched(inputs[j], auth, arrivals[j]);
      GotFits(inputs[j], auth, DataArrived(arrivals[j]), ParityArrived(arrivals[j]));
    }
  }

  /** What becomes known of a frame is at most its payload, which the receive buffer can hold. */
  lemma GotFits(x: FrameInput, auth: Auth, a: set<nat>, f: set<nat>)
    requires Sendable(x, auth)
    ensures GotOf(FrameOf(x, auth), a, f).bytes <= |x.payload|
    ensures GotOf(FrameOf(x, auth), a, f).bytes <= MAX_BUFFERED_BYTES
  {
    hide Recoverable, KnownBytes, FrameOf, Sendable;
    FrameOfFacts(x, auth);
    KnownFits(FrameOf(x, auth), a, f);
    OneFrameFits(FrameOf(x, auth));
  }

  lemma RuleOnArrivals(first: nat, inputs: seq<FrameInput>, auth: Auth, arrivals: seq<seq<Arrival>>, k: nat)
    requires IsSession(first, inputs, auth, arrivals) && k < |inputs|
    ensures RuleAt(first, Gots(inputs, auth, arrivals), k) <==> FollowsRule(first, inputs, auth, arrivals, k)
  {
    hide Recoverable, EmittedAt, DivCeil, Sendable;
    var got := Gots(inputs, auth, arrivals);
    FrameOfFacts(inputs[k], auth);
    assert forall j :: 0 <= j < k ==> (got[j].touched <==> DataArrived(arrivals[j]) != {});
  }

  lemma WholeIsTouched(x: FrameInput, auth: Auth, arrivals: seq<Arrival>)
    requires Sendable(x, auth)
    requires forall y :: y in arrivals ==> OfFrame(y, DivCeil(|x.payload|, ProtectedChunkSize(auth)))
    ensures var g := GotOf(FrameOf(x, auth), DataArrived(arrivals), ParityArrived(arrivals)); g.whole ==> g.touched
  {
    hide Recoverable, FrameOf, OfFrame, Sendable, DivCeil;
    FrameOfFacts(x, auth);
    var s := FrameOf(x, auth);
    NoParityForOne(s, arrivals);
    if DataArrived(arrivals) == {} {
      NeedsData(|s.chunks|, ParityArrived(arrivals));
    }
  }

  /** One frame by itself: the receiver emits exactly the payload, once, if every packet group lacks at most
      one data packet and lacks none unless its parity arrived; otherwise it emits nothing. */
  method DeliverFrame(id: u32, time: u64, key: bool, payload: seq<byte>, auth: Auth, arrivals: seq<Arrival>)
    returns (out: seq<Output>)
    requires 0 < |payload| <= ProtectedChunkSize(auth) * MAX_FRAME_PACKET_COUNT
    requires forall x :: x in arrivals ==> OfFrame(x, DivCeil(|payload|, ProtectedChunkSize(auth)))
    ensures out == if Recoverable(DivCeil(|payload|, ProtectedChunkSize(auth)),
                                  DataArrived(arrivals), ParityArrived(arrivals))
                   then [Output(id, payload, key, time)] else []
  {
    hide Recoverable, OfFrame, DivCeil, FrameOf;
    var x := FrameInput(time, key, payload);
    FrameOfFacts(x, auth);
    SingleFrame(id, x, auth, arrivals);
    out := DeliverSession(id, [x], auth, None, [arrivals]);
  }

  lemma SingleFrame(id: u32, x: FrameInput, auth: Auth, arrivals: seq<Arrival>)
    requires Sendable(x, auth) && forall y :: y in arrivals ==> OfFrame(y, |FrameOf(x, auth).chunks|)
    ensures var whole := Recoverable(|FrameOf(x, auth).chunks|, DataArrived(arrivals), ParityArrived(arrivals));
            SessionOutput(id, [x], Gots([x], auth, [arrivals]), None, 1)
            == if whole then [Output(id, x.payload, x.key, x.time)] else []
  {
    hide Recoverable, FrameOf, OfFrame, Sendable, KnownBytes, Sum;
    FrameOfFacts(x, auth);
    GotFits(x, auth, DataArrived(arrivals), ParityArrived(arrivals));
    EmptySum();
    var got := Gots([x], auth, [arrivals]);
    var s := FrameOf(x, auth);
    assert got[..0] == [];
    assert SessionOutput(id, [x], got, None, 0) == [];
    if DataArrived(arrivals) == {} {
      NoParityForOne(s, arrivals);
      NeedsData(|s.chunks|, ParityArrived(arrivals));
    }
  }

  lemma NoParityForOne(s: SentFrame, arrivals: seq<Arrival>)
    requires forall y :: y in arrivals ==> OfFrame(y, |s.chunks|)
    ensures |s.chunks| < 2 ==> ParityArrived(arrivals) == {}
  {
  }

  // ----- a session that starts badly

  /** Of key frame 0 only the first of two packets arrives, and then five delta frames arrive whole. Frames 1 to
      4 come out, the first of them with nothing to build on, and frame 5 does not, although frame 4 did. */
  method BadStartRun(payloads: seq<seq<byte>>, time: u64, auth: Auth) returns (out: seq<Output>)
    requires |payloads| == 6
    requires ProtectedChunkSize(auth) < |payloads[0]| <= 2 * ProtectedChunkSize(auth)
    requires forall k :: 1 <= k < 6 ==> 0 < |payloads[k]| <= ProtectedChunkSize(auth)
    ensures out == [Output(1, payloads[1], false, time), Output(2, payloads[2], false, time),
                    Output(3, payloads[3], false, time), Output(4, payloads[4], false, time)]
  {
    hide Sendable, Gots, EmittedAt, ProtectedChunkSize, OfFrame, Recoverable, DivCeil;
    var inputs := seq(6, k requires 0 <= k < 6 == |payloads| => FrameInput(time, k == 0, payloads[k]));
    var arrivals: seq<seq<Arrival>> := [[Data(0)], [Data(0)], [Data(0)], [Data(0)], [Data(0)], [Data(0)]];
    BadSession(inputs, auth, arrivals);
    out := DeliverSession(0, inputs, auth, None, arrivals);
    BadOutput(inputs, Gots(inputs, auth, arrivals));
  }

  lemma {:induction false} BadSession(inputs: seq<FrameInput>, auth: Auth, arrivals: seq<seq<Arrival>>)
    requires |inputs| == 6 && arrivals == [[Data(0)], [Data(0)], [Data(0)], [Data(0)], [Data(0)], [Data(0)]]
    requires forall k :: 0 <= k < 6 ==> (inputs[k].key <==> k == 0)
    requires ProtectedChunkSize(auth) < |inputs[0].payload| <= 2 * ProtectedChunkSize(auth)
    requires forall k :: 1 <= k < 6 ==> 0 < |inputs[k].payload| <= ProtectedChunkSize(auth)
    ensures IsSession(0, inputs, auth, arrivals) && StartsBadly(Gots(inputs, auth, arrivals))
  {
    hide Sendable, FrameOf, Recoverable, DivCeil, GotOf, OfFrame, ProtectedChunkSize;
    forall k | 0 <= k < 6
      ensures arrivals[k] == [Data(0)] && Sendable(inputs[k], auth)
      ensures OfFrame(Data(0), DivCeil(|inputs[k].payload|, ProtectedChunkSize(auth)))
      ensures var g := Gots(inputs, auth, arrivals)[k];
              g.key == (k == 0) && g.touched && (g.whole <==> k > 0) && g.bytes <= 2400
    {
      OnePacketArrives(inputs[k], auth);
    }
  }

  /** The first packet of a frame of one packet is all of it, and of a frame of two only a part. */
  lemma OnePacketArrives(x: FrameInput, auth: Auth)
    requires 0 < |x.payload| <= 2 * ProtectedChunkSize(auth)
    ensures Sendable(x, auth) && OfFrame(Data(0), DivCeil(|x.payload|, ProtectedChunkSize(auth)))
    ensures var g := GotOf(FrameOf(x, auth), DataArrived([Data(0)]), ParityArrived([Data(0)]));
            && g.key == x.key && g.touched && g.bytes <= 2400
            && (g.whole <==> |x.payload| <= ProtectedChunkSize(auth))
  {
    hide FrameOf, Recoverable, DivCeil, KnownBytes;
    var size := ProtectedChunkSize(auth);
    FrameOfFacts(x, auth);
    FrameKey(x, auth);
    DivCeilIs(|x.payload|, size, if |x.payload| <= size then 1 else 2);
    assert Data(0) in [Data(0)];
    FirstOfFew(DataArrived([Data(0)]), ParityArrived([Data(0)]));
    GotFits(x, auth, DataArrived([Data(0)]), ParityArrived([Data(0)]));
  }

  lemma FirstOfFew(a: set<nat>, f: set<nat>)
    requires (forall i :: i in a <==> i == 0) && f == {}
    ensures a != {} && Recoverable(1, a, f) && !Recoverable(2, a, f)
  {
    assert (0 as nat) in a;
    assert !Avail(2, a, f, 1);
  }

  lemma {:induction false} BadOutput(inputs: seq<FrameInput>, got: seq<Got>)
    requires |inputs| == 6 == |got| && StartsBadly(got)
    ensures SessionOutput(0, inputs, got, None, 6)
         == [OutputFor(1, inputs[1], None), OutputFor(2, inputs[2], None), OutputFor(3, inputs[3], None),
             OutputFor(4, inputs[4], None)]
  {
    hide EmittedAt, OutputFor, StartsBadly;
    BadStart(got);
    assert SessionOutput(0, inputs, got, None, 0) == [];
    assert SessionOutput(0, inputs, got, None, 1) == [];
    assert SessionOutput(0, inputs, got, None, 2) == [OutputFor(1, inputs[1], None)];
    assert SessionOutput(0, inputs, got, None, 4)
        == [OutputFor(1, inputs[1], None), OutputFor(2, inputs[2], None), OutputFor(3, inputs[3], None)];
  }
}
