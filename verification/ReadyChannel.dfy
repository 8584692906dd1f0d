/** A bounded queue between one producer loop and any number of readers.
 *
 * Each method is one region under the lock, so a run is any sequence of calls.
 * A notification channel is the number of its generation: `epoch` is the open
 * one, and every smaller number stands for a closed channel. The readiness
 * channel holds at most one token, `ready`.
 */
module ReadyChannel {
  import opened Bytes

  datatype Phase = Checking | Parked(epoch: nat) | Reading(available: nat) | Stopped

  datatype Answer = Got(data: bytes) | Ended(error: nat) | Waits

  /** The error a reader sees after the channel was closed. */
  const CLOSED: nat := 0

  // ----- what a channel does

  /** What counts of a channel: the bytes queued, how it ended, and who waits for which notification. */
  datatype Chan = Chan(queue: bytes, terminal: Option<nat>, closing: bool, epoch: nat, producer: Phase, waiting: map<nat, nat>, ready: bool)

  const NEW := Chan([], None, false, 0, Checking, map[], false)

  /** A read would not wait. */
  predicate Readable(s: Chan) { s.queue != [] || s.terminal.Some? }

  datatype Event =
    | ProducerChecks | ProducerResumes | Arrives(data: bytes, error: Option<nat>)
    | Reads(id: nat, n: nat) | Wakes(id: nat) | Closes | Deadline | Asks | TakesToken

  predicate Enabled(s: Chan, e: Event) {
    match e
    case ProducerChecks => s.producer.Checking?
    case ProducerResumes => s.producer.Parked? && s.producer.epoch < s.epoch
    case Arrives(data, _) => s.producer.Reading? && |data| <= s.producer.available
    case Reads(id, _) => id !in s.waiting
    case Wakes(id) => id in s.waiting && s.waiting[id] < s.epoch
    case TakesToken => s.ready
    case _ => true
  }

  /** What a read answers. */
  function Reply(s: Chan, n: nat): Answer {
    if n == 0 then Got([])
    else if s.queue != [] then Got(s.queue[..Min(n, |s.queue|)])
    else if s.terminal.Some? then Ended(s.terminal.value)
    else Waits
  }

  function Next(maximum: nat, s: Chan, e: Event): Chan {
    match e
    case ProducerChecks =>
      s.(producer := if s.terminal.Some? then Stopped
                     else if |s.queue| >= maximum then Parked(s.epoch)
                     else Reading(Min(maximum - |s.queue|, Min(maximum, 0x1_0000))))
    case ProducerResumes => s.(producer := Checking)
    case Arrives(data, error) =>
      var told := (if data != [] then 1 else 0) + (if error.Some? then 1 else 0);
      s.(queue := s.queue + data, terminal := if error.Some? then error else s.terminal, epoch := s.epoch + told,
         producer := if error.Some? then Stopped else Checking, ready := s.ready || told > 0)
    case Reads(id, n) =>
      (match Reply(s, n)
       case Got(data) => if n == 0 then s else s.(queue := s.queue[|data|..], epoch := s.epoch + 1, ready := |data| < |s.queue|)
       case Ended(_) => s
       case Waits => s.(waiting := s.waiting[id := s.epoch]))
    case Wakes(id) => s.(waiting := s.waiting - {id})
    case Closes => if s.closing then s else s.(closing := true, terminal := if s.terminal.Some? then s.terminal else Some(CLOSED),
        epoch := s.epoch + 1, ready := true)
    case Deadline => s.(epoch := s.epoch + 1)
    case Asks => s.(ready := s.ready || Readable(s))
    case TakesToken => s.(ready := false)
  }

  /** The bounds hold, nobody sleeps through what they wait for, and a token means that there is something to read. */
  ghost predicate Safe(maximum: nat, s: Chan) {
    && |s.queue| <= maximum
    && (s.producer.Reading? ==> |s.queue| + s.producer.available <= maximum)
    && (s.producer.Parked? ==> s.producer.epoch <= s.epoch && (s.producer.epoch == s.epoch ==> |s.queue| == maximum && s.terminal.None?))
    && (forall id :: id in s.waiting ==> s.waiting[id] <= s.epoch && (s.waiting[id] == s.epoch ==> !Readable(s)))
    && (s.ready ==> Readable(s))
  }

  lemma NextSafe(maximum: nat, s: Chan, e: Event)
    requires 0 < maximum && Safe(maximum, s) && Enabled(s, e)
    ensures Safe(maximum, Next(maximum, s, e))
  {
  }

  // ----- nobody waits for what is there

  /** Whoever waits while there is something to read can wake, and then gets an answer. */
  lemma ReaderProgress(maximum: nat, s: Chan, id: nat, n: nat)
    requires Safe(maximum, s) && id in s.waiting && Readable(s)
    ensures Enabled(s, Wakes(id))
    ensures var woken := Next(maximum, s, Wakes(id)); Enabled(woken, Reads(id, n)) && !Reply(woken, n).Waits?
  {
  }

  /** A parked producer can go on as soon as there is room or the end has come, and then it reads or stops. */
  lemma ProducerProgress(maximum: nat, s: Chan)
    requires Safe(maximum, s) && s.producer.Parked? && (|s.queue| < maximum || s.terminal.Some?)
    ensures Enabled(s, ProducerResumes)
    ensures var woken := Next(maximum, s, ProducerResumes);
            && Enabled(woken, ProducerChecks)
            && var next := Next(maximum, woken, ProducerChecks).producer; if s.terminal.Some? then next.Stopped? else next.Reading? && next.available > 0
  {
  }

  // ----- the token

  /** After a caller has asked for it, the token is there exactly if a read would not wait. */
  lemma AskedIsExact(maximum: nat, s: Chan)
    requires Safe(maximum, s)
    ensures Next(maximum, s, Asks).ready <==> Readable(s)
  {
  }

  /** What can be read has its token. */
  predicate Announced(s: Chan) { Readable(s) ==> s.ready }

  /** A read that takes the last bytes of a channel that has ended. */
  predicate DrainsEnd(s: Chan, e: Event) { e.Reads? && 0 < |s.queue| <= e.n && s.terminal.Some? }

  /** While what can be read has its token, this stays so exactly until the token is taken or the last bytes of an ended channel are. */
  lemma AnnouncedUntil(maximum: nat, s: Chan, e: Event)
    requires Safe(maximum, s) && Enabled(s, e) && Announced(s)
    ensures Announced(Next(maximum, s, e)) <==> !e.TakesToken? && !DrainsEnd(s, e)
  {
  }

  /** Such a channel: the end is there to be read, and there is no token. */
  lemma EndUnannounced(maximum: nat, data: bytes, error: nat)
    requires 0 < |data| <= maximum && |data| <= 0x1_0000
    ensures var es := [ProducerChecks, Arrives(data, Some(error)), Reads(7, |data|)];
            After(maximum, es) == Chan([], Some(error), false, 3, Stopped, map[], false) && Replies(maximum, es) == [Got(data)]
  {
    hide After, Replies, Arrived;
    var a, b, c: Event := ProducerChecks, Arrives(data, Some(error)), Reads(7, |data|);
    NothingYet(maximum);
    AfterStep(maximum, [], a);
    AfterStep(maximum, [a], b);
    AfterStep(maximum, [a, b], c);
    assert [] + [a] == [a] && [a] + [b] == [a, b] && [a, b] + [c] == [a, b, c];
    var one := After(maximum, [a]);
    assert one == Chan([], None, false, 0, Reading(Min(maximum, Min(maximum, 0x1_0000))), map[], false);
    var two := After(maximum, [a, b]);
    assert [] + data == data;
    assert two == Chan(data, Some(error), false, 2, Stopped, map[], true);
    assert data[..|data|] == data && data[|data|..] == [];
  }

  lemma NothingYet(maximum: nat)
    ensures After(maximum, []) == NEW && Replies(maximum, []) == []
  {
  }

  /** What becomes readable gets its token. */
  lemma BecomesReadable(maximum: nat, s: Chan, e: Event)
    requires Enabled(s, e) && !Readable(s) && Readable(Next(maximum, s, e))
    ensures Next(maximum, s, e).ready
  {
  }

  // ----- whole runs

  /** The state after a schedule; an event that cannot happen where it comes is passed over. */
  function After(maximum: nat, es: seq<Event>): Chan {
    if es == [] then NEW
    else
      var n := |es| - 1;
      var s := After(maximum, es[..n]);
      if Enabled(s, es[n]) then Next(maximum, s, es[n]) else s
  }

  /** What the reads of a schedule answer. */
  function Replies(maximum: nat, es: seq<Event>): seq<Answer> {
    if es == [] then []
    else
      var n := |es| - 1;
      var s := After(maximum, es[..n]);
      Replies(maximum, es[..n]) + if es[n].Reads? && Enabled(s, es[n]) then [Reply(s, es[n].n)] else []
  }

  /** The bytes that come in. */
  function Arrived(maximum: nat, es: seq<Event>): bytes {
    if es == [] then []
    else
      var n := |es| - 1;
      Arrived(maximum, es[..n]) + if es[n].Arrives? && Enabled(After(maximum, es[..n]), es[n]) then es[n].data else []
  }

  lemma AfterStep(maximum: nat, es: seq<Event>, e: Event)
    ensures var s, all := After(maximum, es), es + [e];
            && After(maximum, all) == (if Enabled(s, e) then Next(maximum, s, e) else s)
            && Replies(maximum, all) == Replies(maximum, es) + (if e.Reads? && Enabled(s, e) then [Reply(s, e.n)] else [])
            && Arrived(maximum, all) == Arrived(maximum, es) + if e.Arrives? && Enabled(s, e) then e.data else []
  {
    assert (es + [e])[..|es|] == es;
  }

  function Joined(answers: seq<Answer>): bytes {
    if answers == [] then [] else Joined(answers[..|answers| - 1]) + if answers[|answers| - 1].Got? then answers[|answers| - 1].data else []
  }

  lemma JoinedStep(answers: seq<Answer>, a: Answer)
    ensures Joined(answers + [a]) == Joined(answers) + if a.Got? then a.data else []
  {
    assert (answers + [a])[..|answers|] == answers;
  }

  /** In every run the bounds hold, nobody sleeps through anything, and what the readers got, in order, with what is still queued, are the
    * bytes that came in. */
  lemma {:induction false} RunSafe(maximum: nat, es: seq<Event>)
    requires 0 < maximum
    ensures Safe(maximum, After(maximum, es)) && Joined(Replies(maximum, es)) + After(maximum, es).queue == Arrived(maximum, es)
  {
    hide Safe, Next, Enabled;
    if es == [] {
      NewSafe(maximum);
    } else {
      var n := |es| - 1;
      var before, e := es[..n], es[n];
      RunSafe(maximum, before);
      assert es == before + [e];
      AfterStep(maximum, before, e);
      var s := After(maximum, before);
      assert Replies(maximum, before) + [] == Replies(maximum, before) && Arrived(maximum, before) + [] == Arrived(maximum, before);
      if Enabled(s, e) {
        NextSafe(maximum, s, e);
        StepConserves(maximum, s, e, Replies(maximum, before), Arrived(maximum, before));
      }
    }
  }

  lemma NewSafe(maximum: nat)
    ensures Safe(maximum, NEW) && NEW.queue == []
  {
  }

  lemma StepConserves(maximum: nat, s: Chan, e: Event, answers: seq<Answer>, arrived: bytes)
    requires Enabled(s, e) && Joined(answers) + s.queue == arrived
    ensures Joined(answers + if e.Reads? then [Reply(s, e.n)] else []) + Next(maximum, s,
            e).queue == arrived + if e.Arrives? then e.data else []
  {
    hide Joined;
    assert answers + [] == answers && arrived + [] == arrived;
    if e.Reads? {
      JoinedStep(answers, Reply(s, e.n));
      match Reply(s, e.n) {
        case Got(data) =>
          if e.n > 0 { assert s.queue == data + s.queue[|data|..]; }
          assert Joined(answers) + (data + s.queue[|data|..]) == (Joined(answers) + data) + s.queue[|data|..];
        case _ =>
      }
    } else if e.Arrives? {
      assert Joined(answers) + (s.queue + e.data) == (Joined(answers) + s.queue) + e.data;
    }
  }

  // ----- the channel in memory

  class Channel {
    const maximum: nat
    var buffer: bytes
    var offset: nat
    var capacity: nat
    var terminal: Option<nat>
    var closing: bool
    var epoch: nat
    var producer: Phase
    /** The readers that wait, with the notification each waits for. */
    var waiting: map<nat, nat>
    var ready: bool

    function State(): Chan
      reads this
      requires offset <= |buffer|
    {
      Chan(buffer[offset..], terminal, closing, epoch, producer, waiting, ready)
    }

    /** The storage is bounded too. */
    ghost predicate Valid()
      reads this
    {
      0 < maximum && offset <= |buffer| <= capacity <= maximum && Safe(maximum, State())
    }

    constructor (maximum: int)
      ensures Valid() && State() == NEW && this.maximum == if maximum <= 0 then 0x80_0000 else maximum
    {
      this.maximum := if maximum <= 0 then 0x80_0000 else maximum;
      buffer, offset, capacity, terminal, closing, epoch := [], 0, 0, None, false, 0;
      producer, waiting, ready := Checking, map[], false;
      new;
      NewSafe(this.maximum);
    }

    /** The producer looks for room: it waits, stops, or goes to read without the lock. */
    method Check()
      requires Valid() && Enabled(State(), ProducerChecks)
      modifies this`producer
      ensures Valid() && State() == Next(maximum, old(State()), ProducerChecks)
    {
      NextSafe(maximum, State(), ProducerChecks);
      var buffered := |buffer| - offset;
      if buffered >= maximum && terminal == None {
        producer := Parked(epoch);
      } else if terminal != None {
        producer := Stopped;
      } else {
        producer := Reading(Min(maximum - buffered, Min(maximum, 0x1_0000)));
      }
    }

    /** A waiting producer goes on once its notification is closed. */
    method Resume()
      requires Valid() && Enabled(State(), ProducerResumes)
      modifies this`producer
      ensures Valid() && State() == Next(maximum, old(State()), ProducerResumes)
    {
      NextSafe(maximum, State(), ProducerResumes);
      producer := Checking;
    }

    /** Puts bytes at the end, making room within the bound. */
    method Append(data: bytes)
      requires offset <= |buffer| <= capacity <= maximum && |buffer| - offset + |data| <= maximum
      modifies this`buffer, this`offset, this`capacity
      ensures offset <= |buffer| <= capacity <= maximum && buffer[offset..] == old(buffer[offset..]) + data
    {
      if |data| > capacity - |buffer| && offset > 0 {
        buffer, offset := buffer[offset..], 0;
      }
      var needed := |buffer| + |data|;
      if needed > capacity {
        capacity := Max(needed, capacity + Min(capacity / 2, maximum - capacity));
      }
      buffer := buffer + data;
    }

    method Notify()
      modifies this`epoch, this`ready
      ensures epoch == old(epoch) + 1 && ready
    {
      epoch, ready := epoch + 1, true;
    }

    /** What the producer read, and perhaps an error, arrives. */
    method Deliver(data: bytes, error: Option<nat>)
      requires Valid() && Enabled(State(), Arrives(data, error))
      modifies this
      ensures Valid() && State() == Next(maximum, old(State()), Arrives(data, error))
    {
      NextSafe(maximum, State(), Arrives(data, error));
      hide Min, Max, Readable;
      assert State().queue + [] == State().queue;
      if data != [] {
        Append(data);
        Notify();
      }
      producer := Checking;
      if error.Some? {
        terminal := error;
        Notify();
        producer := Stopped;
      }
    }

    /** A reader takes what is queued, or learns of the end, or starts to wait. */
    method Read(id: nat, n: nat) returns (answer: Answer)
      requires Valid() && Enabled(State(), Reads(id, n))
      modifies this
      ensures Valid() && State() == Next(maximum, old(State()), Reads(id, n)) && answer == Reply(old(State()), n)
    {
      hide Safe;
      NextSafe(maximum, State(), Reads(id, n));
      if n == 0 {
        return Got([]);
      }
      ghost var queue := State().queue;
      var available := |buffer| - offset;
      if available > 0 {
        var count := Min(available, n);
        var data := buffer[offset..offset + count];
        assert data == queue[..count];
        offset := offset + count;
        if offset == |buffer| {
          buffer, offset, ready := [], 0, false;
        } else {
          ready := true;
        }
        assert buffer[offset..] == queue[count..];
        epoch := epoch + 1;
        answer := Got(data);
      } else if terminal != None {
        answer := Ended(terminal.value);
      } else {
        waiting := waiting[id := epoch];
        answer := Waits;
      }
    }

    /** A waiting reader tries again once its notification is closed. */
    method Wake(id: nat)
      requires Valid() && Enabled(State(), Wakes(id))
      modifies this`waiting
      ensures Valid() && State() == Next(maximum, old(State()), Wakes(id))
    {
      NextSafe(maximum, State(), Wakes(id));
      waiting := waiting - {id};
    }

    method Close()
      requires Valid()
      modifies this
      ensures Valid() && State() == Next(maximum, old(State()), Closes)
    {
      NextSafe(maximum, State(), Closes);
      if !closing {
        closing := true;
        if terminal == None { terminal := Some(CLOSED); }
        Notify();
      }
    }

    /** A changed deadline wakes everybody to look at it. */
    method SetDeadline()
      requires Valid()
      modifies this`epoch
      ensures Valid() && State() == Next(maximum, old(State()), Deadline)
    {
      NextSafe(maximum, State(), Deadline);
      epoch := epoch + 1;
    }

    /** A caller asks for the readiness channel. */
    method ReadReady()
      requires Valid()
      modifies this`ready
      ensures Valid() && State() == Next(maximum, old(State()), Asks)
    {
      NextSafe(maximum, State(), Asks);
      if |buffer| - offset > 0 || terminal != None { ready := true; }
    }

    /** A caller takes the token from the readiness channel. */
    method TakeToken()
      requires Valid() && Enabled(State(), TakesToken)
      modifies this`ready
      ensures Valid() && State() == Next(maximum, old(State()), TakesToken)
    {
      NextSafe(maximum, State(), TakesToken);
      ready := false;
    }
  }

  /** Runs any schedule on a new channel: its state and its answers are what the schedule says. */
  method Run(maximum: int, schedule: seq<Event>) returns (c: Channel, answers: seq<Answer>)
    ensures c.Valid() && c.maximum == (if maximum <= 0 then 0x80_0000 else maximum)
    ensures c.State() == After(c.maximum, schedule) && answers == Replies(c.maximum, schedule)
  {
    hide Safe, Next, Reply;
    c := new Channel(maximum);
    answers := [];
    var i := 0;
    assert schedule[..0] == [];
    while i < |schedule|
      invariant 0 <= i <= |schedule| && fresh(c) && c.Valid() && c.State() == After(c.maximum, schedule[..i])
                && answers == Replies(c.maximum, schedule[..i])
    {
      assert schedule[..i + 1] == schedule[..i] + [schedule[i]];
      AfterStep(c.maximum, schedule[..i], schedule[i]);
      if Enabled(c.State(), schedule[i]) {
        match schedule[i] {
          case ProducerChecks => c.Check();
          case ProducerResumes => c.Resume();
          case Arrives(data, error) => c.Deliver(data, error);
          case Reads(id, n) =>
            var answer := c.Read(id, n);
            answers := answers + [answer];
          case Wakes(id) => c.Wake(id);
          case Closes => c.Close();
          case Deadline => c.SetDeadline();
          case Asks => c.ReadReady();
          case TakesToken => c.TakeToken();
        }
      }
      i := i + 1;
    }
    assert schedule[..|schedule|] == schedule;
  }
}
