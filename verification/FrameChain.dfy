/** What the reassembler makes of a session whose frames reach it one after the other: a state machine over
    frames instead of packets, and the set of frames that it lets through. */
module FrameChain {
  import opened Bytes
  import opened ReceiveBuffer
  import opened Reassembler

  /** The last completed frame, whether a loss is pending, and, while none is, the bytes held of the frames that
      were begun but not completed. */
  datatype Link = Link(completed: Option<u32>, waiting: bool, open: map<u32, nat>)

  const START: Link := Link(None, false, map[])

  /** What arrives of a frame: any data at all, enough to rebuild it, and the payload bytes that become known. */
  datatype Got = Got(key: bool, touched: bool, whole: bool, bytes: nat)

  /** Frame `id` shows that an open frame has left the reorder window. */
  predicate Overtakes(l: Link, id: u32) {
    exists o :: o in l.open && o + REORDER_WINDOW < id
  }

  /** There is no room for the frame beside the open ones. */
  ghost predicate Overflows(l: Link, g: Got) {
    Sum(l.open) + g.bytes > MAX_BUFFERED_BYTES
  }

  /** A delta frame is not let in while a loss is pending, or when it reveals one, and it is given up when there is
      no room for it. */
  ghost predicate Refused(l: Link, id: u32, g: Got) {
    !g.key && (l.waiting || Overtakes(l, id) || Overflows(l, g))
  }

  ghost function Turn(l: Link, id: u32, g: Got): Link {
    if !g.touched then l
    else if Refused(l, id, g) then Link(l.completed, true, map[])
    else
      var open := if g.key then map[] else l.open;
      if !g.whole then Link(l.completed, false, open[id := g.bytes])
      else if Decodable(g.key, l.waiting, l.completed, id) then Link(Some(id), false, open)
      else Link(Some(id), true, map[])
  }

  ghost predicate Emits(l: Link, id: u32, g: Got) {
    g.touched && g.whole && !Refused(l, id, g) && Decodable(g.key, l.waiting, l.completed, id)
  }

  /** Everything in the link is older than frame `id`. */
  predicate Before(l: Link, id: nat) {
    && (l.completed.Some? ==> l.completed.value < id) && (l.waiting ==> l.open == map[])
    && forall o :: o in l.open ==> o < id
  }

  lemma TurnStaysBefore(l: Link, id: u32, g: Got)
    requires Before(l, id)
    ensures Before(Turn(l, id, g), id + 1)
  {
    hide Sum;
  }

  predicate Numbered(first: nat, n: nat) {
    first + n <= 0x1_0000_0000
  }

  /** The link after frames `first`, `first + 1` and so on. */
  ghost function LinkAfter(first: nat, got: seq<Got>): (l: Link)
    requires Numbered(first, |got|)
    ensures Before(l, first + |got|)
  {
    if got == [] then START
    else
      var k := |got| - 1;
      var l := LinkAfter(first, got[..k]);
      TurnStaysBefore(l, first + k, got[k]);
      Turn(l, first + k, got[k])
  }

  ghost predicate EmittedAt(first: nat, got: seq<Got>, k: nat)
    requires Numbered(first, |got|) && k < |got|
  {
    Emits(LinkAfter(first, got[..k]), first + k, got[k])
  }

  // ----- which frames are let through

  predicate Untouched(got: seq<Got>, k: nat)
    requires k <= |got|
  {
    forall j :: 0 <= j < k ==> !got[j].touched
  }

  /** A frame of which nothing arrives cannot be rebuilt and takes no room, and one alone always has room. */
  predicate Sensible(got: seq<Got>) {
    forall k :: 0 <= k < |got| ==>
      (got[k].whole ==> got[k].touched) && (!got[k].touched ==> got[k].bytes == 0)
      && got[k].bytes <= MAX_BUFFERED_BYTES
  }

  /** The rule: a frame comes out exactly if it can be rebuilt and is a key frame, or follows a frame that came
      out, or is the first of which anything arrived. */
  ghost predicate RuleAt(first: nat, got: seq<Got>, k: nat)
    requires Numbered(first, |got|) && k < |got|
  {
    EmittedAt(first, got, k) <==>
      got[k].whole && (got[k].key || Untouched(got, k) || (k > 0 && EmittedAt(first, got, k - 1)))
  }

  /** The last key frame of which something arrived before frame `k`, or else the first frame at all. */
  function Begun(got: seq<Got>, k: nat): (b: Option<nat>)
    requires k <= |got|
    ensures b.Some? ==> b.value < k && got[b.value].touched
    ensures b.None? <==> Untouched(got, k)
  {
    if k == 0 then None
    else if got[k - 1].touched && (got[k - 1].key || Begun(got, k - 1).None?) then Some(k - 1)
    else Begun(got, k - 1)
  }

  /** Before frame `k` no key frame could be rebuilt, nor the first frame at all. */
  predicate NoneWhole(got: seq<Got>, k: nat)
    requires k <= |got|
  {
    forall j :: 0 <= j < k && got[j].whole ==> !got[j].key && !Untouched(got, j)
  }

  /** The bytes that become known of the frames from `b` up to but not including `k`. */
  function BytesFrom(got: seq<Got>, b: nat, k: nat): nat
    requires k <= |got|
  {
    if k <= b then 0 else BytesFrom(got, b, k - 1) + got[k - 1].bytes
  }

  /** From frame `b` up to and including frame `k` no frame leaves the reorder window, and all fit the buffer. */
  predicate InReach(got: seq<Got>, b: nat, k: nat)
    requires k < |got|
  {
    k <= b + REORDER_WINDOW && BytesFrom(got, b, k + 1) <= MAX_BUFFERED_BYTES
  }

  /** A delta frame that can be rebuilt at the start of a session, while the frame that began it is incomplete
      and still in the reorder window, and there is room for all that came since. */
  predicate Premature(got: seq<Got>, k: nat)
    requires k < |got|
  {
    && got[k].whole && !got[k].key && NoneWhole(got, k)
    && Begun(got, k).Some? && InReach(got, Begun(got, k).value, k)
  }

  /** Something arrived of a frame that is out of reach of frame `b`. */
  predicate StartLost(got: seq<Got>, b: nat, k: nat)
    requires k <= |got|
  {
    exists j :: b < j < k && got[j].touched && !InReach(got, b, j)
  }

  /** The link before frame `k`: as at the start; in a session that is not properly begun; ready for a delta;
      or not ready for it. */
  ghost predicate LinkShape(first: nat, got: seq<Got>, k: nat)
    requires Numbered(first, |got|) && k <= |got|
  {
    var l, b := LinkAfter(first, got[..k]), Begun(got, k);
    if b.None? then l == START
    else if NoneWhole(got, k) then
      if StartLost(got, b.value, k) then l == Link(None, true, map[])
      else
        && l.completed.None? && !l.waiting && first + b.value in l.open && Sum(l.open) == BytesFrom(got, b.value, k)
        && forall o :: o in l.open ==> o >= first + b.value
    else if k > 0 && EmittedAt(first, got, k - 1) then l == Link(Some(first + k - 1), false, map[])
    else l.completed.Some? && (l.waiting || l.completed.value + 1 != first + k)
  }

  lemma {:induction false} LinkShapes(first: nat, got: seq<Got>, k: nat)
    requires Numbered(first, |got|) && k <= |got| && Sensible(got)
    requires forall j :: 0 <= j < k ==> !Premature(got, j)
    ensures LinkShape(first, got, k)
  {
    if k > 0 {
      LinkShapes(first, got, k - 1);
      ShapeStep(first, got, k - 1);
    }
  }

  lemma ShapeStep(first: nat, got: seq<Got>, k: nat)
    requires Numbered(first, |got|) && k < |got| && Sensible(got) && !Premature(got, k) && LinkShape(first, got, k)
    ensures LinkShape(first, got, k + 1)
  {
    hide Begun, LinkShape, Sensible;
    if Begun(got, k).Some? && NoneWhole(got, k) {
      ShapeAtStart(first, got, k);
    } else {
      ShapeLater(first, got, k);
    }
  }

  lemma LinkStep(first: nat, got: seq<Got>, k: nat)
    requires Numbered(first, |got|) && k < |got|
    ensures var l := LinkAfter(first, got[..k]);
            && LinkAfter(first, got[..k + 1]) == Turn(l, first + k, got[k]) && Before(l, first + k)
            && (!got[k].touched ==> LinkAfter(first, got[..k + 1]) == l)
  {
    assert got[..k + 1][..k] == got[..k];
  }

  /** A session that is not properly begun. */
  lemma ShapeAtStart(first: nat, got: seq<Got>, k: nat)
    requires Numbered(first, |got|) && k < |got| && Sensible(got) && !Premature(got, k) && LinkShape(first, got, k)
    requires Begun(got, k).Some? && NoneWhole(got, k)
    ensures LinkShape(first, got, k + 1)
  {
    hide Begun, Sum, Overtakes, StartLost, InReach;
    BegunStep(got, k);
    LinkStep(first, got, k);
    var l, g, b := LinkAfter(first, got[..k]), got[k], Begun(got, k).value;
    SumPut(l.open, first + k, g.bytes);
    SumPut(map[], first + k, g.bytes);
    EmptySum();
    assert BytesFrom(got, k, k + 1) == BytesFrom(got, k, k) + g.bytes == g.bytes;
    StartLostStep(got, b, k);
    if !StartLost(got, b, k) {
      RefusedAtStart(l, first, got, b, k);
    }
  }

  /** Before the first frame, or after one that was completed. */
  lemma ShapeLater(first: nat, got: seq<Got>, k: nat)
    requires Numbered(first, |got|) && k < |got| && Sensible(got) && LinkShape(first, got, k)
    requires Begun(got, k).None? || !NoneWhole(got, k)
    ensures LinkShape(first, got, k + 1)
  {
    hide Begun, Sum, StartLost;
    BegunStep(got, k);
    LinkStep(first, got, k);
    SumPut(map[], first + k, got[k].bytes);
    EmptySum();
    assert BytesFrom(got, k, k + 1) == BytesFrom(got, k, k) + got[k].bytes == got[k].bytes;
  }

  /** At the start of a session a delta is refused exactly if it is out of reach. */
  lemma RefusedAtStart(l: Link, first: nat, got: seq<Got>, b: nat, k: nat)
    requires Numbered(first, |got|) && b < k < |got| && !l.waiting && first + b in l.open
    requires Sum(l.open) == BytesFrom(got, b, k) && forall o :: o in l.open ==> o >= first + b
    ensures !got[k].key ==> (Refused(l, first + k, got[k]) <==> !InReach(got, b, k))
  {
    hide Sum;
    if k > b + REORDER_WINDOW {
      assert first + b in l.open && first + b + REORDER_WINDOW < first + k;
    }
  }

  lemma BegunStep(got: seq<Got>, k: nat)
    requires k < |got|
    ensures Begun(got, k + 1)
         == if got[k].touched && (got[k].key || Begun(got, k).None?) then Some(k) else Begun(got, k)
    ensures NoneWhole(got, k + 1) <==>
            NoneWhole(got, k) && (got[k].whole ==> !got[k].key && Begun(got, k).Some?)
    ensures !StartLost(got, k, k + 1)
  {
  }

  lemma StartLostStep(got: seq<Got>, b: nat, k: nat)
    requires b < k < |got|
    ensures StartLost(got, b, k + 1) <==> StartLost(got, b, k) || (got[k].touched && !InReach(got, b, k))
  {
    hide InReach;
  }

  /** What is out of reach stays so. */
  lemma LostStaysLost(got: seq<Got>, b: nat, k: nat)
    requires k < |got| && StartLost(got, b, k)
    ensures !InReach(got, b, k)
  {
    var j :| b < j < k && got[j].touched && !InReach(got, b, j);
    BytesGrow(got, b, j + 1, k + 1);
  }

  lemma {:induction false} BytesGrow(got: seq<Got>, b: nat, j: nat, k: nat)
    requires j <= k <= |got|
    ensures BytesFrom(got, b, j) <= BytesFrom(got, b, k)
  {
    if j < k {
      BytesGrow(got, b, j, k - 1);
    }
  }

  /** As long as no premature delta has arrived the rule holds; the first one breaks it. */
  lemma RuleUpto(first: nat, got: seq<Got>, k: nat)
    requires Numbered(first, |got|) && k < |got| && Sensible(got)
    requires forall j :: 0 <= j < k ==> !Premature(got, j)
    ensures RuleAt(first, got, k) <==> !Premature(got, k)
  {
    hide Sum;
    LinkShapes(first, got, k);
    var l := LinkAfter(first, got[..k]);
    if k > 0 {
      assert got[..k][..k - 1] == got[..k - 1];
      assert l == Turn(LinkAfter(first, got[..k - 1]), first + k - 1, got[k - 1]);
    }
    EmptySum();
    var b := Begun(got, k);
    if b.Some? && NoneWhole(got, k) {
      if StartLost(got, b.value, k) {
        LostStaysLost(got, b.value, k);
      } else {
        RefusedAtStart(l, first, got, b.value, k);
      }
    }
  }

  /** The rule holds of every frame of a session if and only if no delta of it is premature. */
  lemma ChainOfFrames(first: nat, got: seq<Got>)
    requires Numbered(first, |got|) && Sensible(got)
    ensures (forall k :: 0 <= k < |got| ==> RuleAt(first, got, k)) <==>
            (forall k :: 0 <= k < |got| ==> !Premature(got, k))
  {
    hide RuleAt, Premature;
    if exists k :: 0 <= k < |got| && Premature(got, k) {
      var k := FirstPremature(got);
      RuleUpto(first, got, k);
    } else {
      forall k | 0 <= k < |got| ensures RuleAt(first, got, k) {
        RuleUpto(first, got, k);
      }
    }
  }

  lemma FirstPremature(got: seq<Got>) returns (k: nat)
    requires exists j :: 0 <= j < |got| && Premature(got, j)
    ensures k < |got| && Premature(got, k) && forall j :: 0 <= j < k ==> !Premature(got, j)
  {
    hide Premature;
    k := 0;
    while !Premature(got, k)
      invariant k < |got| && forall j :: 0 <= j < k ==> !Premature(got, j)
      decreases |got| - k
    {
      k := k + 1;
    }
  }

  /** With any start: a complete key frame always comes out. */
  lemma KeyFramesComeOut(first: nat, got: seq<Got>, k: nat)
    requires Numbered(first, |got|) && k < |got| && got[k].key && got[k].touched
    ensures EmittedAt(first, got, k) <==> got[k].whole
  {
  }

  /** A session with premature deltas: of a key frame only a part arrives, and the deltas that follow come out
      without it until it leaves the reorder window. */
  predicate StartsBadly(got: seq<Got>) {
    && |got| == 6 && got[0].key && got[0].touched && !got[0].whole && got[0].bytes <= 2400
    && forall k :: 1 <= k < 6 ==> !got[k].key && got[k].touched && got[k].whole && got[k].bytes <= 2400
  }

  lemma BadStart(got: seq<Got>)
    requires StartsBadly(got)
    ensures !EmittedAt(0, got, 0) && EmittedAt(0, got, 1) && EmittedAt(0, got, 2)
    ensures EmittedAt(0, got, 3) && EmittedAt(0, got, 4) && !EmittedAt(0, got, 5)
  {
    hide Sum;
    BadStartLink(got, 1);
    BadStartLink(got, 2);
    BadStartLink(got, 3);
    BadStartLink(got, 4);
    BadStartLink(got, 5);
    assert 0 in LinkAfter(0, got[..5]).open;
  }

  lemma {:induction false} BadStartLink(got: seq<Got>, k: nat)
    requires StartsBadly(got) && 1 <= k <= 5
    ensures LinkAfter(0, got[..k]) == Link(if k == 1 then None else Some(k - 1), false, map[0 := got[0].bytes])
    ensures Sum(map[0 := got[0].bytes]) == got[0].bytes
  {
    hide Sum;
    assert got[..k][..k - 1] == got[..k - 1];
    SumPut(map[], 0, got[0].bytes);
    EmptySum();
    if k > 1 {
      BadStartLink(got, k - 1);
    }
  }
}
