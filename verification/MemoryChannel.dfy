/** A bounded two-way stream in memory, with checkpoints and notifications.
 *
 * `epochs[s]` is the open notification of side s; smaller numbers are closed ones.
 */
module MemoryChannel {
  import opened Bytes

  datatype Answer = Done(n: nat) | Got(data: bytes) | WouldBlock | Closed | Eof

  type Side = s: nat | s < 2

  function Peer(s: Side): Side { 1 - s }

  /** What a checkpoint keeps: the queues toward each side, and which sides are closed. */
  datatype State = State(data: seq<bytes>, closed: seq<bool>)

  /** Queues that fit. */
  ghost predicate Shaped(s: State, maximum: nat) {
    |s.data| == 2 == |s.closed| && |s.data[0]| <= maximum && |s.data[1]| <= maximum
  }

  /** A notification handed out: nothing to read there, or so much room, at that time. */
  datatype Watch = Empty(side: Side, epoch: nat) | Room(side: Side, epoch: nat, room: int)

  ghost predicate Holds(w: Watch, s: State, maximum: nat)
    requires |s.data| == 2 == |s.closed|
  {
    && !s.closed[0] && !s.closed[1]
    && match w
       case Empty(side, _) => s.data[side] == []
       case Room(side, _, room) => maximum - |s.data[side]| == room
  }

  // ----- what a pair does

  /** A pair with its checkpoints; and since the last restore the queues then, and what was written and read. */
  datatype Duct = Duct(state: State, epochs: seq<nat>, saved: seq<State>, base: seq<bytes>, written: seq<bytes>, read: seq<bytes>)

  const NEW := Duct(State([[], []], [false, false]), [0, 0], [], [[], []], [[], []], [[], []])

  ghost predicate Whole(d: Duct) {
    |d.state.data| == |d.state.closed| == |d.epochs| == |d.base| == |d.written| == |d.read| == 2
  }

  datatype Event = Reads(side: Side, n: nat) | Writes(side: Side,
      p: bytes) | Closes(side: Side) | Captures | Restores(k: nat) | Watches(side: Side) | Measures(side: Side)

  /** What a read or a write answers. */
  function Reply(maximum: nat, s: State, e: Event): Answer
    requires |s.data| == |s.closed| == 2
  {
    match e
    case Reads(side, n) =>
      if n == 0 then Done(0)
      else if s.closed[side] then Closed
      else if s.data[side] != [] then Got(s.data[side][..if n < |s.data[side]| then n else |s.data[side]|])
      else if s.closed[Peer(side)] then Eof
      else WouldBlock
    case Writes(side, p) =>
      if s.closed[0] || s.closed[1] then Closed
      else if |p| > maximum - |s.data[Peer(side)]| then WouldBlock
      else Done(|p|)
    case _ => Done(0)
  }

  /** The notification a caller is handed, if any. */
  function Handed(maximum: nat, d: Duct, e: Event): seq<Watch>
    requires Whole(d)
  {
    match e
    case Watches(side) => if d.state.data[side] != [] || d.state.closed[0] || d.state.closed[1] then [] else [Empty(side, d.epochs[side])]
    case Measures(side) => if d.state.closed[0] || d.state.closed[1] then [] else [Room(Peer(side), d.epochs[Peer(side)],
        maximum - |d.state.data[Peer(side)]|)]
    case _ => []
  }

  function Told(epochs: seq<nat>, side: Side): seq<nat>
    requires |epochs| == 2
  {
    epochs[side := epochs[side] + 1]
  }

  function ToldBoth(epochs: seq<nat>): seq<nat>
    requires |epochs| == 2
  {
    [epochs[0] + 1, epochs[1] + 1]
  }

  /** The checkpoint a restore names is there. */
  predicate Enabled(d: Duct, e: Event) { e.Restores? ==> e.k < |d.saved| }

  function Next(maximum: nat, d: Duct, e: Event): Duct
    requires Whole(d) && Enabled(d, e)
  {
    var s := d.state;
    match e
    case Reads(side, n) =>
      (match Reply(maximum, s, e)
       case Got(data) => d.(state := s.(data := s.data[side := s.data[side][|data|..]]), epochs := Told(d.epochs, side),
           read := d.read[side := d.read[side] + data])
       case _ => d)
    case Writes(side, p) =>
      if !Reply(maximum, s, e).Done? then d
      else
        var peer := Peer(side);
        d.(state := s.(data := s.data[peer := s.data[peer] + p]), epochs := if p == [] then d.epochs else Told(d.epochs, peer),
            written := d.written[peer := d.written[peer] + p])
    case Closes(side) => if s.closed[side] then d else d.(state := s.(closed := s.closed[side := true]), epochs := ToldBoth(d.epochs))
    case Captures => d.(saved := d.saved + [s])
    case Restores(k) => d.(state := d.saved[k], epochs := ToldBoth(d.epochs), base := d.saved[k].data, written := [[], []],
        read := [[], []])
    case _ => d
  }

  /** The queues and the checkpoints fit, and bytes are conserved. */
  ghost predicate Safe(maximum: nat, d: Duct) {
    && Whole(d) && Shaped(d.state, maximum) && (forall k :: 0 <= k < |d.saved| ==> Shaped(d.saved[k], maximum))
    && (forall s :: 0 <= s < 2 ==> d.base[s] + d.written[s] == d.read[s] + d.state.data[s])
  }

  lemma NextSafe(maximum: nat, d: Duct, e: Event)
    requires Safe(maximum, d) && Enabled(d, e)
    ensures Safe(maximum, Next(maximum, d, e))
  {
    match e {
      case Reads(side, n) =>
        var q := d.state.data[side];
        if Reply(maximum, d.state, e).Got? {
          var data := Reply(maximum, d.state, e).data;
          assert q == data + q[|data|..];
          assert d.read[side] + (data + q[|data|..]) == (d.read[side] + data) + q[|data|..];
        }
      case Writes(side, p) =>
        var peer := Peer(side);
        assert d.base[peer] + (d.written[peer] + p) == (d.base[peer] + d.written[peer]) + p;
        assert d.read[peer] + (d.state.data[peer] + p) == (d.read[peer] + d.state.data[peer]) + p;
      case _ =>
    }
  }

  /** A notification is closed or still tells the truth. */
  ghost predicate True(maximum: nat, d: Duct, w: Watch)
    requires Whole(d)
  {
    w.epoch <= d.epochs[w.side] && (w.epoch == d.epochs[w.side] ==> Holds(w, d.state, maximum))
  }

  lemma StaysTrue(maximum: nat, d: Duct, e: Event, w: Watch)
    requires Safe(maximum, d) && Enabled(d, e) && Whole(Next(maximum, d, e)) && True(maximum, d, w)
    ensures True(maximum, Next(maximum, d, e), w)
  {
    if e.Writes? && e.p == [] { assert d.state.data[Peer(e.side)] + e.p == d.state.data[Peer(e.side)]; }
  }

  lemma HandedTrue(maximum: nat, d: Duct, e: Event, w: Watch)
    requires Safe(maximum, d) && w in Handed(maximum, d, e)
    ensures True(maximum, d, w)
  {
  }

  // ----- whole runs

  /** The pair after some events; a restore of a checkpoint that was not taken is passed over. */
  ghost function After(maximum: nat, es: seq<Event>): (d: Duct)
    ensures Safe(maximum, d)
  {
    if es == [] then NEW
    else
      var n := |es| - 1;
      var d := After(maximum, es[..n]);
      if Enabled(d, es[n]) then NextSafe(maximum, d, es[n]); Next(maximum, d, es[n]) else d
  }

  predicate Answered(e: Event) { e.Reads? || e.Writes? }

  ghost function Replies(maximum: nat, es: seq<Event>): seq<Answer> {
    if es == [] then []
    else
      var n := |es| - 1;
      Replies(maximum, es[..n]) + if Answered(es[n]) then [Reply(maximum, After(maximum, es[..n]).state, es[n])] else []
  }

  /** The notifications handed out. */
  ghost function Seen(maximum: nat, es: seq<Event>): seq<Watch> {
    if es == [] then []
    else
      var n := |es| - 1;
      Seen(maximum, es[..n]) + Handed(maximum, After(maximum, es[..n]), es[n])
  }

  lemma AfterStep(maximum: nat, es: seq<Event>, e: Event)
    ensures var d, all := After(maximum, es), es + [e];
            && After(maximum, all) == (if Enabled(d, e) then Next(maximum, d, e) else d)
            && Replies(maximum, all) == Replies(maximum, es) + (if Answered(e) then [Reply(maximum, d.state, e)] else [])
            && Seen(maximum, all) == Seen(maximum, es) + Handed(maximum, d, e)
  {
    assert (es + [e])[..|es|] == es;
  }

  /** In any run, however checkpoints are taken and used, every notification still open tells the truth. */
  lemma {:induction false} SeenTrue(maximum: nat, es: seq<Event>, w: Watch)
    requires w in Seen(maximum, es)
    ensures True(maximum, After(maximum, es), w)
  {
    hide Safe, Next, Handed, True, Enabled;
    var n := |es| - 1;
    var before, e := es[..n], es[n];
    assert es == before + [e];
    AfterStep(maximum, before, e);
    var d := After(maximum, before);
    SafeWhole(maximum, d);
    SafeWhole(maximum, After(maximum, es));
    if w in Seen(maximum, before) { SeenTrue(maximum, before, w); } else { HandedTrue(maximum, d, e, w); }
    if Enabled(d, e) { StaysTrue(maximum, d, e, w); }
  }

  lemma SafeWhole(maximum: nat, d: Duct)
    requires Safe(maximum, d)
    ensures Whole(d)
  {
  }

  // ----- checkpoints

  /** A checkpoint stays what it was, whatever happens after it. */
  lemma {:induction false} SavedKept(maximum: nat, es: seq<Event>, more: seq<Event>, k: nat)
    requires k < |After(maximum, es).saved|
    ensures k < |After(maximum, es + more).saved| && After(maximum, es + more).saved[k] == After(maximum, es).saved[k]
  {
    hide Safe, Next, Enabled;
    if more == [] {
      assert es + more == es;
    } else {
      var n := |more| - 1;
      SavedKept(maximum, es, more[..n], k);
      assert es + more == (es + more[..n]) + [more[n]];
      AfterStep(maximum, es + more[..n], more[n]);
      var d := After(maximum, es + more[..n]);
      SafeWhole(maximum, d);
      if Enabled(d, more[n]) { NextSaved(maximum, d, more[n]); }
    }
  }

  lemma NextSaved(maximum: nat, d: Duct, e: Event)
    requires Whole(d) && Enabled(d, e)
    ensures d.saved <= Next(maximum, d, e).saved
  {
  }

  /** Going back to a checkpoint gives the pair as it was when it was taken. */
  lemma RestoresBack(maximum: nat, es: seq<Event>, more: seq<Event>)
    ensures var k := |After(maximum, es).saved|; After(maximum, es + [Captures] + more + [Restores(k)]).state == After(maximum, es).state
  {
    hide Safe;
    var k := |After(maximum, es).saved|;
    SafeWhole(maximum, After(maximum, es));
    SafeWhole(maximum, After(maximum, es + [Captures] + more));
    AfterStep(maximum, es, Captures);
    SavedKept(maximum, es + [Captures], more, k);
    AfterStep(maximum, es + [Captures] + more, Restores(k));
  }

  /** Two pairs that look alike. */
  ghost predicate Alike(a: Duct, b: Duct) { a.state == b.state && a.saved == b.saved }

  /** Pairs that look alike answer alike, and go on looking alike: a checkpoint can be used again and again. */
  lemma {:induction false} Replay(maximum: nat, es: seq<Event>, fs: seq<Event>, more: seq<Event>)
    requires Alike(After(maximum, es), After(maximum, fs))
    ensures Alike(After(maximum, es + more), After(maximum, fs + more))
    ensures |Replies(maximum, es)| <= |Replies(maximum, es + more)| && |Replies(maximum, fs)| <= |Replies(maximum, fs + more)|
    ensures Replies(maximum, es + more)[|Replies(maximum, es)|..] == Replies(maximum, fs + more)[|Replies(maximum, fs)|..]
  {
    hide Safe, Reply;
    if more == [] {
      assert es + more == es && fs + more == fs;
    } else {
      var n := |more| - 1;
      var e := more[n];
      Replay(maximum, es, fs, more[..n]);
      assert es + more == (es + more[..n]) + [e] && fs + more == (fs + more[..n]) + [e];
      AfterStep(maximum, es + more[..n], e);
      AfterStep(maximum, fs + more[..n], e);
      var a, b := After(maximum, es + more[..n]), After(maximum, fs + more[..n]);
      SafeWhole(maximum, a);
      SafeWhole(maximum, b);
      if Enabled(a, e) { NextAlike(maximum, a, b, e); }
      var tail := if Answered(e) then [Reply(maximum, a.state, e)] else [];
      SuffixMore(Replies(maximum, es + more[..n]), |Replies(maximum, es)|, tail);
      SuffixMore(Replies(maximum, fs + more[..n]), |Replies(maximum, fs)|, tail);
    }
  }

  lemma SuffixMore(a: seq<Answer>, k: nat, tail: seq<Answer>)
    requires k <= |a|
    ensures (a + tail)[k..] == a[k..] + tail
  {
  }

  lemma NextAlike(maximum: nat, a: Duct, b: Duct, e: Event)
    requires Whole(a) && Whole(b) && Alike(a, b) && Enabled(a, e)
    ensures Alike(Next(maximum, a, e), Next(maximum, b, e))
  {
  }

  // ----- the pair in memory

  class Pair {
    const maximum: nat
    var state: State
    var epochs: seq<nat>

    constructor (maximum: nat)
      requires 0 < maximum
      ensures this.maximum == maximum && state == NEW.state && epochs == NEW.epochs
    {
      this.maximum, state, epochs := maximum, State([[], []], [false, false]), [0, 0];
    }

    /** The pair is this one. */
    ghost predicate Is(d: Duct)
      reads this
    {
      Whole(d) && state == d.state && epochs == d.epochs
    }

    method ReadReady(side: Side, ghost d: Duct) returns (ready: bool, epoch: nat)
      requires Is(d)
      ensures Handed(maximum, d, Watches(side)) == if ready then [] else [Empty(side, epoch)]
    {
      ready, epoch := state.data[side] != [] || state.closed[side] || state.closed[Peer(side)], 0;
      if !ready { epoch := epochs[side]; }
    }

    method WriteCapacity(side: Side, ghost d: Duct) returns (room: int, epoch: nat, closed: bool)
      requires Is(d)
      ensures Handed(maximum, d, Measures(side)) == if closed then [] else [Room(Peer(side), epoch, room)]
    {
      room, epoch, closed := 0, 0, state.closed[side] || state.closed[Peer(side)];
      if !closed { room, epoch := maximum - |state.data[Peer(side)]|, epochs[Peer(side)]; }
    }

    method Notify(side: Side)
      requires |epochs| == 2
      modifies this`epochs
      ensures epochs == Told(old(epochs), side)
    {
      epochs := epochs[side := epochs[side] + 1];
    }

    method Read(side: Side, n: nat, ghost d: Duct) returns (answer: Answer)
      requires Is(d)
      modifies this
      ensures Is(Next(maximum, d, Reads(side, n))) && answer == Reply(maximum, d.state, Reads(side, n))
    {
      if n == 0 {
        return Done(0);
      }
      if state.closed[side] {
        return Closed;
      }
      var data := state.data[side];
      if data == [] {
        return if state.closed[Peer(side)] then Eof else WouldBlock;
      }
      var k := if n < |data| then n else |data|;
      state := state.(data := state.data[side := data[k..]]);
      Notify(side);
      answer := Got(data[..k]);
    }

    method Write(side: Side, p: bytes, ghost d: Duct) returns (answer: Answer)
      requires Is(d)
      modifies this
      ensures Is(Next(maximum, d, Writes(side, p))) && answer == Reply(maximum, d.state, Writes(side, p))
    {
      var peer := Peer(side);
      if state.closed[side] || state.closed[peer] {
        return Closed;
      }
      if |p| > maximum - |state.data[peer]| {
        return WouldBlock;
      }
      state := state.(data := state.data[peer := state.data[peer] + p]);
      if p != [] { Notify(peer); }
      answer := Done(|p|);
    }

    method Close(side: Side, ghost d: Duct)
      requires Is(d)
      modifies this
      ensures Is(Next(maximum, d, Closes(side)))
    {
      if !state.closed[side] {
        state := state.(closed := state.closed[side := true]);
        Notify(0);
        Notify(1);
      }
    }

    method Capture() returns (saved: State)
      ensures saved == state
    {
      saved := state;
    }

    /** Goes back to a checkpoint; whoever watches is woken. */
    method Restore(saved: State)
      requires |epochs| == 2
      modifies this
      ensures state == saved && epochs == ToldBoth(old(epochs))
    {
      state := saved;
      Notify(0);
      Notify(1);
    }
  }

  /** Runs any events on a new pair: its state, its answers and the notifications it hands out are what they say. */
  method Run(maximum: nat, events: seq<Event>) returns (c: Pair, answers: seq<Answer>, seen: seq<Watch>)
    requires 0 < maximum
    ensures c.maximum == maximum && c.Is(After(maximum, events)) && answers == Replies(maximum, events) && seen == Seen(maximum, events)
  {
    hide Safe, Reply, Handed;
    c := new Pair(maximum);
    answers, seen := [], [];
    var saved: seq<State>, i := [], 0;
    assert events[..0] == [];
    while i < |events|
      invariant 0 <= i <= |events| && fresh(c) && c.maximum == maximum && c.Is(After(maximum, events[..i]))
                && saved == After(maximum, events[..i]).saved
      invariant answers == Replies(maximum, events[..i]) && seen == Seen(maximum, events[..i])
    {
      assert events[..i + 1] == events[..i] + [events[i]];
      AfterStep(maximum, events[..i], events[i]);
      ghost var d := After(maximum, events[..i]);
      HandedNone(maximum, d, events[i]);
      match events[i] {
        case Reads(side, n) => var r := c.Read(side, n, d); answers := answers + [r];
        case Writes(side, p) => var r := c.Write(side, p, d); answers := answers + [r];
        case Closes(side) => c.Close(side, d);
        case Captures => var s := c.Capture(); saved := saved + [s];
        case Restores(k) => if k < |saved| { c.Restore(saved[k]); }
        case Watches(side) =>
          var ready, epoch := c.ReadReady(side, d);
          if !ready { seen := seen + [Empty(side, epoch)]; }
        case Measures(side) =>
          var room, epoch, closed := c.WriteCapacity(side, d);
          if !closed { seen := seen + [Room(Peer(side), epoch, room)]; }
      }
      SafeWhole(maximum, After(maximum, events[..i + 1]));
      i := i + 1;
    }
    assert events[..|events|] == events;
  }

  lemma HandedNone(maximum: nat, d: Duct, e: Event)
    requires Whole(d)
    ensures !e.Watches? && !e.Measures? ==> Handed(maximum, d, e) == []
  {
  }
}
