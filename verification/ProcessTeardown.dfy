/// Child processes and their pipes: who counts what, and when the exit of a process is announced,
/// under every interleaving of the event loop's callbacks.
module ProcessTeardown {
  function Sum(s: seq<nat>): nat {
    if s == [] then 0 else s[0] + Sum(s[1..])
  }

  lemma {:induction false} SumWithout(s: seq<nat>, i: nat)
    requires i < |s|
    ensures Sum(s) == s[i] + Sum(s[..i] + s[i + 1..])
  {
    if i > 0 {
      SumWithout(s[1..], i - 1);
      var rest := s[..i] + s[i + 1..];
      assert rest[0] == s[0] && s[1..][i - 1] == s[i];
      assert rest[1..] == s[1..][..i - 1] + s[1..][i..];
    } else {
      assert s[..0] + s[1..] == s[1..];
    }
  }

  lemma {:induction false} SumAppend(s: seq<nat>, x: nat)
    ensures Sum(s + [x]) == Sum(s) + x
  {
    if s != [] {
      assert (s + [x])[1..] == s[1..] + [x];
      SumAppend(s[1..], x);
    }
  }

  // A pipe. The handle behind it is closed by the event loop in two steps: the request (closing)
  // and, later, the callback (gone).
  class Stream {
    var closed: bool
    var pending: nat
    var curmem: nat
    var maxmem: nat
    ghost var closing: bool
    ghost var gone: bool
    ghost var inFlight: seq<nat>  // the sizes of the writes that have not been completed
    ghost var lost: nat           // the sizes of the writes that the loop refused

    // The handle is being closed exactly when the stream is closed and has no writes left.
    ghost predicate Valid()
      reads this
    {
      && pending == |inFlight| && curmem == Sum(inFlight) + lost
      && (closing <==> closed && pending == 0) && (gone ==> closing)
    }

    // wstream_init. Without a limit of its own a stream takes the default one.
    constructor (limit: nat)
      ensures Valid() && !closed && pending == 0 && lost == 0 && curmem == 0
      ensures maxmem == if limit == 0 then 10485760 else limit
    {
      closed, pending, curmem, maxmem := false, 0, 0, if limit == 0 then 1024 * 1024 * 10 else limit;
      closing, gone, inFlight, lost := false, false, [], 0;
    }

    // uv_close: once, and never under a write.
    method CloseHandle()
      requires !closing && pending == 0
      modifies `closing
      ensures closing
    {
      closing := true;
    }

    method Close()
      requires Valid() && !closed
      modifies `closed, `closing
      ensures Valid() && closed && (closing <==> pending == 0)
    {
      closed := true;
      if pending == 0 {
        CloseHandle();
      }
    }

    // wstream_write. The loop refuses writes to a handle that is being closed, and may refuse
    // others; the memory of a refused write stays accounted for.
    method Write(size: nat, takes: bool) returns (ok: bool)
      requires Valid()
      modifies `pending, `curmem, `inFlight, `lost
      ensures Valid() && (ok <==> old(curmem) <= maxmem && takes && !closing)
      ensures ok ==> inFlight == old(inFlight) + [size] && lost == old(lost)
      ensures !ok ==> pending == old(pending) && inFlight == old(inFlight)
      ensures !ok ==> lost == old(lost) + if old(curmem) > maxmem then 0 else size
    {
      if curmem > maxmem {
        return false;
      }
      curmem := curmem + size;
      ok := takes && !(closed && pending == 0);
      if ok {
        SumAppend(inFlight, size);
        inFlight := inFlight + [size];
        pending := pending + 1;
      } else {
        lost := lost + size;
      }
    }

    // The loop's callback for the handle.
    method HandleGone()
      requires Valid() && closing
      modifies `gone
      ensures Valid() && gone
    {
      gone := true;
    }

    // Once every write is completed, all memory is accounted as free exactly when the loop never
    // refused a write of any size.
    lemma MemoryReturned()
      requires Valid() && pending == 0
      ensures curmem == 0 <==> lost == 0
    {
    }

    // write_cb: the last write that a closed stream waited for closes its handle.
    method WriteDone(ghost i: nat, size: nat)
      requires Valid() && i < |inFlight| && size == inFlight[i]
      modifies `pending, `curmem, `inFlight, `closing
      ensures Valid() && inFlight == old(inFlight)[..i] + old(inFlight)[i + 1..]
    {
      SumWithout(inFlight, i);
      curmem := curmem - size;
      pending := pending - 1;
      inFlight := inFlight[..i] + inFlight[i + 1..];
      if closed && pending == 0 {
        CloseHandle();
      }
    }
  }

  class Process {
    const input: Stream?
    const output: Stream?
    const error: Stream?
    ghost const streams: set<Stream>  // those of them that there are
    var refcount: int
    var stopped: bool
    var stoppedAt: nat
    var termSent: bool
    var closed: bool
    ghost var exited: bool
    ghost var gone: bool       // the callback for the process handle has come
    ghost var announced: bool  // the exit event has been queued

    constructor (input: Stream?, output: Stream?, error: Stream?)
      ensures this.input == input && this.output == output && this.error == error && Pipes()
      ensures refcount == 0 && !stopped && stoppedAt == 0 && !termSent && !closed && !exited && !gone && !announced
    {
      this.input, this.output, this.error := input, output, error;
      streams := (if input != null then {input} else {}) + (if output != null then {output} else {})
        + (if error != null then {error} else {});
      refcount, stopped, stoppedAt, termSent, closed, exited, gone, announced :=
        0, false, 0, false, false, false, false, false;
    }

    // Not spawned yet, with pipes of its own.
    ghost predicate Fresh()
      reads this, streams
    {
      && Pipes() && (input != null ==> input != output && input != error) && (output != null ==> output != error)
      && (forall s :: s in streams ==> s.Valid() && !s.gone)
      && refcount == 0 && !stopped && !termSent && !closed && !exited && !gone && !announced
    }

    ghost predicate Pipes() {
      streams == (if input != null then {input} else {}) + (if output != null then {output} else {})
        + (if error != null then {error} else {})
    }

    ghost function Open(s: Stream?): nat
      reads s
    {
      if s != null && !s.gone then 1 else 0
    }

    // Between spawning and the announcement the reference count is the number of handles that
    // are not closed yet.
    ghost predicate Valid()
      reads this, streams
    {
      && Pipes() && (input != null ==> input != output && input != error) && (output != null ==> output != error)
      && (forall s :: s in streams ==> s.Valid())
      && refcount == Open(input) + Open(output) + Open(error) + (if gone then 0 else 1)
      && (gone ==> closed) && (closed ==> exited && forall s :: s in streams ==> s.closed)
      && (announced <==> refcount == 0)
    }

    // CLOSE_PROC_STREAM
    method ClosePipe(s: Stream?)
      requires Valid() && (s != null ==> s in streams)
      modifies (if s == null then {} else {s})`closed, (if s == null then {} else {s})`closing
      ensures Valid() && (s != null ==> s.closed)
    {
      if s != null && !s.closed {
        s.Close();
      }
    }

    // process_close_handles
    method CloseHandles()
      requires Valid() && exited
      modifies `closed, streams`closed, streams`closing
      ensures Valid() && closed && forall s :: s in streams ==> s.closed
    {
      hide Valid, Stream.Valid;
      PipesValid();
      InStreams();
      ClosePipe(input);
      ClosePipe(output);
      ClosePipe(error);
      AllClosed();
      label Before:
      closed := true;
      NowClosed@Before();
    }

    lemma AllClosed()
      requires Valid() && (input != null ==> input.closed) && (output != null ==> output.closed)
      requires (error != null ==> error.closed)
      ensures forall s :: s in streams ==> s.closed
    {
    }

    twostate lemma NowClosed()
      requires old(Valid()) && closed && exited && refcount == old(refcount) && gone == old(gone)
      requires announced == old(announced)
      requires forall s :: s in streams ==> unchanged(s) && s.closed
      ensures Valid()
    {
      hide Stream.Valid;
    }

    method AskToStop(now: nat)
      requires Valid()
      modifies `stopped, `stoppedAt, (if input == null then {} else {input})`closed
      modifies (if input == null then {} else {input})`closing
      ensures Valid() && stopped && stoppedAt == now && (input != null ==> input.closed)
    {
      hide Stream.Valid, Valid;
      label Before:
      stopped, stoppedAt := true, now;
      StillValid@Before();
      PipesValid();
      InStreams();
      ClosePipe(input);
    }

    method CountHandles()
      requires Fresh()
      modifies `refcount
      ensures Valid() && refcount > 0
    {
      hide Stream.Valid;
      if input != null {
        refcount := refcount + 1;
      }
      if output != null {
        refcount := refcount + 1;
      }
      if error != null {
        refcount := refcount + 1;
      }
      refcount := refcount + 1;
    }

    lemma InStreams()
      requires Pipes()
      ensures input != null ==> input in streams
      ensures output != null ==> output in streams
      ensures error != null ==> error in streams
    {
    }

    lemma PipesValid()
      requires Valid()
      ensures Pipes() && forall s :: s in streams ==> s.Valid()
    {
    }

    lemma PipeValid(s: Stream)
      requires Valid() && s in streams
      ensures s.Valid()
    {
    }

    lemma NotClosed()
      requires Valid() && !exited
      ensures !closed
    {
    }

    // A handle that is not closed yet is counted.
    lemma Counts(s: Stream?)
      requires Valid() && if s == null then !gone else s in streams && !s.gone
      ensures refcount > 0 && !announced
    {
    }

    // Being asked to stop, or exiting, changes no count.
    twostate lemma StillValid()
      requires old(Valid()) && (old(exited) ==> exited) && refcount == old(refcount) && closed == old(closed)
      requires gone == old(gone)
      requires announced == old(announced) && forall s :: s in streams ==> unchanged(s)
      ensures Valid()
    {
    }

    twostate lemma PipeChanged(s: Stream)
      requires old(Valid()) && unchanged(this) && s in streams && s.Valid() && s.closed == old(s.closed)
      requires s.gone == old(s.gone)
      requires forall t :: t in streams && t != s ==> unchanged(t)
      ensures Valid()
    {
    }

    // One handle less, counted.
    twostate lemma Dropped(s: Stream?)
      requires old(Valid()) && refcount == old(refcount) - 1 && (announced <==> refcount == 0)
      requires closed == old(closed) && exited == old(exited)
      requires if s == null then gone && !old(gone) && closed
        else gone == old(gone) && s in streams && s.gone && !old(s.gone)
      requires s != null ==> s.Valid() && s.closed == old(s.closed)
      requires forall t :: t in streams && t != s ==> unchanged(t)
      ensures Valid()
    {
    }

    // Every handle closed in order, none under a write, and the exit known.
    lemma AnnouncedAfterAll()
      requires Valid() && announced
      ensures exited && closed && gone && forall s :: s in streams ==> s.gone && s.closed && s.pending == 0
    {
    }

    // What is left to wait for when the exit is not announced yet.
    lemma AnnouncedOrWaiting()
      requires Valid()
      ensures announced
        || !closed || !gone
        || exists s :: s in streams && (s.pending > 0 || (s.closing && !s.gone))
    {
      if closed && gone && !announced {
        var s := if Open(input) > 0 then input else if Open(output) > 0 then output else error;
        assert s != null && s in streams && !s.gone;
      }
    }
  }

  datatype Event = CloseHandles(proc: Process) | Exited(proc: Process)

  datatype Signal = Term(proc: Process) | Kill(proc: Process)

  const TERM_TIMEOUT := 1000000000
  const KILL_TIMEOUT := TERM_TIMEOUT * 2

  predicate NoTwice<T(==)>(s: seq<T>) {
    forall i, j :: 0 <= i < j < |s| ==> s[i] != s[j]
  }

  lemma Distinct<T>(s: seq<T>, i: nat)
    requires NoTwice(s) && i < |s|
    ensures forall j :: i < j < |s| ==> s[j] != s[i]
  {
  }

  ghost predicate InOrder(s: seq<Signal>) {
    forall i :: 0 <= i < |s| && s[i].Kill? ==> Term(s[i].proc) in s[..i]
  }

  // A second until SIGTERM, and two until SIGKILL, in nanoseconds.
  ghost predicate InTime(x: Signal, at: nat, firstAsked: map<Process, nat>) {
    x.proc in firstAsked && at >= firstAsked[x.proc] + if x.Term? then 1000000000 else 2000000000
  }

  ghost predicate SentAt(before: seq<nat>, after: seq<nat>, now: nat) {
    before <= after && forall i :: |before| <= i < |after| ==> after[i] == now
  }

  // What is sent to a process in one go, and whether SIGTERM had been, and has been, sent to it.
  ghost predicate Reminder(p: Process, more: seq<Signal>, before: bool, after: bool) {
    if more == [Term(p)] then !before && after
    else before == after && (more == [] || (before && more == [Kill(p)]))
  }

  lemma InOrderMore(s: seq<Signal>, more: seq<Signal>, p: Process)
    requires InOrder(s) && |more| <= 1 && (more == [Kill(p)] ==> Term(p) in s)
    requires |more| == 1 ==> more[0].proc == p
    ensures InOrder(s + more)
  {
    forall i | 0 <= i < |s + more| && (s + more)[i].Kill? ensures Term((s + more)[i].proc) in (s + more)[..i] {
      if i < |s| {
        assert (s + more)[..i] == s[..i];
      } else {
        assert (s + more)[..i] == s;
      }
    }
  }

  lemma RemoveOne<T>(s: seq<T>, i: nat)
    requires i < |s| && NoTwice(s)
    ensures NoTwice(s[..i] + s[i + 1..]) && s[i] !in s[..i] + s[i + 1..]
    ensures forall x :: x in s[..i] + s[i + 1..] <==> x in s && x != s[i]
  {
    var r := s[..i] + s[i + 1..];
    forall x | x in s && x != s[i] ensures x in r {
      var k :| 0 <= k < |s| && s[k] == x;
      assert k < i ==> r[k] == x;
      assert k > i ==> r[k - 1] == x;
    }
  }

  // The event loop with the processes it has spawned.
  class Loop {
    var children: seq<Process>
    var stopRequests: nat
    var timerOn: bool
    var events: seq<Event>
    var signals: seq<Signal>
    ghost var procs: set<Process>
    ghost var pipes: set<Stream>    // all of theirs
    ghost var queued: seq<Event>    // every event ever queued
    ghost var waiting: set<Process> // asked to stop, and not exited
    ghost var late: set<Process>    // asked to stop after they had exited
    ghost var firstAsked: map<Process, nat>  // when each process was asked to stop for the first time
    ghost var times: seq<nat>       // when each signal was sent

    ghost predicate Procs()
      reads `procs, `pipes, procs, pipes
    {
      && (forall p :: p in procs ==> p.streams <= pipes && p.Valid())
      && (forall p, q :: p in procs && q in procs && p != q ==> p.streams !! q.streams)
    }

    // A process is on the list until its exit is announced; each exit queues one event that closes
    // the handles, and each announcement is queued once.
    ghost predicate Queues()
      reads `children, `events, `queued, `procs, procs
    {
      && NoTwice(children) && (forall p :: p in children ==> p in procs)
      && (forall p :: p in procs ==> (p in children <==> p.refcount > 0))
      && (forall p :: p in procs ==> multiset(events)[CloseHandles(p)] == if p.exited && !p.closed then 1 else 0)
      && (forall p :: p in procs ==> multiset(queued)[CloseHandles(p)] == if p.exited then 1 else 0)
      && (forall p :: p in procs ==> multiset(queued)[Exited(p)] == if p.announced then 1 else 0)
      && (forall e :: e in queued ==> e.proc in procs) && (forall e :: e in events ==> e in queued)
    }

    // The requests that keep the timer going.
    ghost predicate Stops()
      reads `stopRequests, `timerOn, `waiting, `late, `procs, procs
    {
      && stopRequests == |waiting| + |late| && (timerOn <==> stopRequests > 0)
      && waiting <= procs && (forall p :: p in procs ==> (p in waiting <==> p.stopped && !p.exited))
      && (forall p :: p in late ==> p in procs && p.stopped && p.exited)
    }

    // No process is asked twice, and none is killed that has not been asked.
    ghost predicate Asked()
      reads `signals, `procs, procs`termSent
    {
      && (forall p :: p in procs ==> multiset(signals)[Term(p)] == if p.termSent then 1 else 0)
      && InOrder(signals) && (forall x :: x in signals ==> x.proc in procs)
    }

    // The first request sets the clock of a process, and no signal comes before its time.
    ghost predicate Timely()
      reads `signals, `times, `firstAsked, `procs, procs`stopped, procs`stoppedAt
    {
      && |times| == |signals| && firstAsked.Keys <= procs
      && (forall p :: p in procs ==> (p in firstAsked <==> p.stopped))
      && (forall p :: p in firstAsked ==> p.stoppedAt == firstAsked[p])
      && (forall i :: 0 <= i < |signals| ==> InTime(signals[i], times[i], firstAsked))
    }

    ghost predicate Inv()
      reads this, procs, pipes
    {
      Procs() && Queues() && Stops() && Asked() && Timely()
    }

    constructor ()
      ensures Inv() && procs == {} && !timerOn && signals == [] && events == []
    {
      children, stopRequests, timerOn, events, signals := [], 0, false, [], [];
      procs, pipes, queued, waiting, late, firstAsked, times := {}, {}, [], {}, {}, map[], [];
    }

    method Enqueue(e: Event)
      modifies `events, `queued
      ensures events == old(events) + [e] && queued == old(queued) + [e]
    {
      events := events + [e];
      queued := queued + [e];
    }

    // What the end of a handle adds to the queue.
    ghost predicate Announced(p: Process, children: seq<Process>, events: seq<Event>, queued: seq<Event>)
      reads `children, `events, `queued, p
    {
      if p.refcount != 0 then this.children == children && this.events == events && this.queued == queued
      else
        && this.events == events + [Exited(p)] && this.queued == queued + [Exited(p)]
        && exists i :: 0 <= i < |children| && children[i] == p && this.children == children[..i] + children[i + 1..]
    }

    // decref
    method Decref(p: Process)
      requires p in procs && Queues() && p.refcount > 0 && !p.announced
      modifies `children, `events, `queued, p`refcount, p`announced
      ensures Queues() && p.refcount == old(p.refcount) - 1 && (p.announced <==> p.refcount == 0)
      ensures Announced(p, old(children), old(events), old(queued))
    {
      p.refcount := p.refcount - 1;
      if p.refcount != 0 {
        return;
      }
      var node := 0;
      while children[node] != p
        invariant 0 <= node < |children|
        invariant forall i :: 0 <= i < node ==> children[i] != p
        decreases |children| - node
      {
        node := node + 1;
      }
      RemoveOne(children, node);
      children := children[..node] + children[node + 1..];
      p.announced := true;
      Enqueue(Exited(p));
    }

    // process_spawn. When the loop cannot start the process, nothing is counted.
    method Spawn(p: Process, starts: bool) returns (ok: bool)
      requires Inv() && p !in procs && p.Fresh() && p.streams !! pipes
      requires forall e :: e in queued ==> e.proc != p
      modifies `children, `procs, `pipes, p`refcount
      ensures Inv() && ok == starts
      ensures ok ==> children == [p] + old(children) && procs == old(procs) + {p} && pipes == old(pipes) + p.streams
      ensures !ok ==> unchanged(this) && unchanged(p)
    {
      hide Process.Valid, Stream.Valid, Queues, Stops, Asked, Timely;
      ok := starts;
      if !ok {
        return;
      }
      p.CountHandles();
      children := [p] + children;
      procs := procs + {p};
      pipes := pipes + p.streams;
      SpawnedApart(p);
      SpawnQueued(p);
      SpawnAsked(p);
      SpawnStops(p);
      SpawnTimely(p);
    }

    twostate lemma SpawnTimely(p: Process)
      requires old(Timely()) && p !in old(procs) && procs == old(procs) + {p}
      requires signals == old(signals) && times == old(times) && firstAsked == old(firstAsked)
      requires !p.stopped && forall q :: q in old(procs) ==> unchanged(q)
      ensures Timely()
    {
    }

    twostate lemma SpawnStops(p: Process)
      requires old(Stops()) && p !in old(procs) && procs == old(procs) + {p} && waiting == old(waiting)
      requires late == old(late)
      requires stopRequests == old(stopRequests) && timerOn == old(timerOn)
      requires !p.stopped && forall q :: q in old(procs) ==> unchanged(q)
      ensures Stops()
    {
    }

    twostate lemma SpawnAsked(p: Process)
      requires old(Asked()) && p !in old(procs) && procs == old(procs) + {p} && signals == old(signals)
      requires !p.termSent && forall q :: q in old(procs) ==> q.termSent == old(q.termSent)
      ensures Asked()
    {
      assert Term(p) !in signals;
    }

    twostate lemma SpawnQueued(p: Process)
      requires old(Queues()) && p !in old(procs) && procs == old(procs) + {p} && children == [p] + old(children)
      requires events == old(events) && queued == old(queued) && forall e :: e in queued ==> e.proc != p
      requires p.refcount > 0 && !p.exited && !p.closed && !p.announced && forall q :: q in old(procs) ==> unchanged(q)
      ensures Queues()
    {
      assert CloseHandles(p) !in queued && Exited(p) !in queued && CloseHandles(p) !in events;
    }

    twostate lemma SpawnedApart(p: Process)
      requires old(Procs()) && p !in old(procs) && procs == old(procs) + {p} && p.Valid()
      requires p.streams !! old(pipes) && pipes == old(pipes) + p.streams
      requires forall q :: q in old(procs) ==> q.Valid()
      ensures Procs()
    {
      hide Process.Valid;
    }

    lemma ProcValid(p: Process)
      requires Procs() && p in procs
      ensures p.Valid()
    {
    }

    // A step of one process and its pipes leaves the others alone.
    twostate lemma OneStep(p: Process)
      requires old(Procs()) && procs == old(procs) && pipes == old(pipes) && p in procs && p.Valid()
      requires forall q :: q in procs && q != p ==> unchanged(q)
      requires forall s :: s in pipes && s !in p.streams ==> unchanged(s)
      ensures Procs()
    {
      hide Process.Valid;
      forall q | q in procs && q != p ensures q.Valid() {
        assert q.streams <= pipes && q.streams !! p.streams;
      }
    }

    // process_close_in, process_close_out and process_close_err, at any time.
    method ClosePipe(p: Process, s: Stream?)
      requires Inv() && p in procs && (s != null ==> s in p.streams)
      modifies (if s == null then {} else {s})`closed, (if s == null then {} else {s})`closing
      ensures Inv() && (s != null ==> s.closed)
    {
      hide Process.Valid, Stream.Valid, Queues, Stops, Procs, Asked, Timely;
      ProcValid(p);
      p.ClosePipe(s);
      OneStep(p);
    }

    // process_stop. The first request takes the time and closes the pipe to the process, a later one
    // does nothing.
    method Stop(p: Process, now: nat)
      requires Inv() && p in procs
      modifies `stopRequests, `timerOn, `waiting, `late, `firstAsked, p`stopped, p`stoppedAt
      modifies p.streams`closed, p.streams`closing
      ensures Inv() && p.stopped
      ensures old(p.stopped) ==> unchanged(this) && unchanged(p) && unchanged(p.streams)
      ensures !old(p.stopped) ==> p.stoppedAt == now && firstAsked == old(firstAsked)[p := now]
      ensures !old(p.stopped) && p.input != null ==> p.input.closed
      ensures forall s :: s in p.streams && s != p.input ==> unchanged(s)
      ensures late == old(late) + if p.exited && !old(p.stopped) then {p} else {}
    {
      hide Process.Valid, Stream.Valid, Queues, Stops, Procs, Asked, Timely;
      if p.stopped {
        return;
      }
      Ask(p, now);
      label Asked:
      Request(p);
      firstAsked := firstAsked[p := now];
      ProcsKept@Asked();
      StopQueues(p);
      StopCounted(p);
      StopTimely(p);
      AskedKept();
    }

    twostate lemma ProcsKept()
      requires old(Procs()) && procs == old(procs) && pipes == old(pipes)
      requires (forall q :: q in procs ==> unchanged(q)) && forall s :: s in pipes ==> unchanged(s)
      ensures Procs()
    {
      hide Process.Valid;
      forall q | q in procs ensures q.Valid() {
        assert q.streams <= pipes;
      }
    }

    twostate lemma SignalsKept(p: Process)
      requires old(Asked()) && old(Timely()) && signals == old(signals) && times == old(times) && OthersKept(p)
      requires firstAsked == old(firstAsked)
      requires p.stopped == old(p.stopped) && p.stoppedAt == old(p.stoppedAt) && p.termSent == old(p.termSent)
      ensures Asked() && Timely()
    {
    }

    twostate lemma AskedKept()
      requires old(Asked()) && procs == old(procs) && signals == old(signals)
      requires forall q :: q in procs ==> q.termSent == old(q.termSent)
      ensures Asked()
    {
    }

    twostate lemma StopTimely(p: Process)
      requires old(Timely()) && procs == old(procs) && p in procs && !old(p.stopped) && p.stopped
      requires firstAsked == old(firstAsked)[p := p.stoppedAt]
      requires signals == old(signals) && times == old(times) && OthersKept(p)
      ensures Timely()
    {
    }

    // The process alone is told to stop.
    method Ask(p: Process, now: nat)
      requires Procs() && p in procs
      modifies p`stopped, p`stoppedAt, p.streams`closed, p.streams`closing
      ensures Procs() && p.stopped && p.stoppedAt == now && OthersKept(p) && Counted(p)
      ensures p.input != null ==> p.input.closed
      ensures forall s :: s in p.streams && s != p.input ==> unchanged(s)
    {
      hide Process.Valid, Stream.Valid, Procs;
      ProcValid(p);
      p.PipesValid();
      p.InStreams();
      p.AskToStop(now);
      OneStep(p);
    }

    twostate predicate OthersKept(p: Process)
      reads this, procs
    {
      procs == old(procs) && forall q :: q in procs && q != p ==> unchanged(q)
    }

    twostate predicate Counted(p: Process)
      reads p
    {
      p.refcount == old(p.refcount) && p.exited == old(p.exited)
      && p.closed == old(p.closed) && p.announced == old(p.announced)
    }

    twostate lemma StopQueues(p: Process)
      requires old(Queues()) && procs == old(procs) && children == old(children)
      requires events == old(events) && queued == old(queued) && OthersKept(p) && Counted(p)
      ensures Queues()
    {
      hide Queues;
      QueuesKept();
    }

    method Request(p: Process)
      modifies `stopRequests, `timerOn, `waiting, `late
      ensures stopRequests == old(stopRequests) + 1 && timerOn == (old(timerOn) || old(stopRequests) == 0)
      ensures waiting == old(waiting) + (if p.exited then {} else {p})
      ensures late == old(late) + if p.exited then {p} else {}
    {
      if stopRequests == 0 {
        timerOn := true;
      }
      stopRequests := stopRequests + 1;
      if p.exited {
        late := late + {p};
      } else {
        waiting := waiting + {p};
      }
    }

    method Release(p: Process)
      requires p.stopped ==> stopRequests > 0
      modifies `stopRequests, `timerOn, `waiting
      ensures stopRequests == old(stopRequests) - (if p.stopped then 1 else 0)
      ensures timerOn == if p.stopped && stopRequests == 0 then false else old(timerOn)
      ensures waiting == old(waiting) - {p}
    {
      if p.stopped && stopRequests != 0 {
        stopRequests := stopRequests - 1;
        if stopRequests == 0 {
          timerOn := false;
        }
      }
      waiting := waiting - {p};
    }

    twostate lemma StopCounted(p: Process)
      requires old(Stops()) && procs == old(procs) && p in procs && !old(p.stopped) && p.stopped
      requires p.exited == old(p.exited)
      requires stopRequests == old(stopRequests) + 1 && timerOn == (old(timerOn) || old(stopRequests) == 0)
      requires waiting == old(waiting) + (if p.exited then {} else {p})
      requires late == old(late) + if p.exited then {p} else {}
      requires OthersKept(p)
      ensures Stops()
    {
    }

    twostate lemma QueuesKept()
      requires old(Queues()) && procs == old(procs) && children == old(children)
      requires events == old(events) && queued == old(queued)
      requires forall q :: q in procs ==>
        && q.refcount == old(q.refcount) && q.exited == old(q.exited)
        && q.closed == old(q.closed) && q.announced == old(q.announced)
      ensures Queues()
    {
    }

    twostate lemma StopsKept()
      requires old(Stops()) && procs == old(procs) && waiting == old(waiting) && late == old(late)
      requires stopRequests == old(stopRequests) && timerOn == old(timerOn)
      requires forall q :: q in procs ==> q.stopped == old(q.stopped) && q.exited == old(q.exited)
      ensures Stops()
    {
    }

    // The loop reports that the process has exited.
    method Exit(p: Process)
      requires Inv() && p in procs && !p.exited
      modifies `stopRequests, `timerOn, `events, `queued, `waiting, p`exited
      ensures Inv() && p.exited
      ensures queued == old(queued) + [CloseHandles(p)] && events == old(events) + [CloseHandles(p)]
    {
      hide Process.Valid, Stream.Valid, Queues, Stops, Procs, Asked, Timely;
      Retire(p);
      SignalsKept(p);
    }

    // Its requests are taken back, and the handles are to be closed.
    method Retire(p: Process)
      requires Procs() && Queues() && Stops() && p in procs && !p.exited
      modifies `stopRequests, `timerOn, `events, `queued, `waiting, p`exited
      ensures Procs() && Queues() && Stops() && p.exited && OthersKept(p)
      ensures queued == old(queued) + [CloseHandles(p)] && events == old(events) + [CloseHandles(p)]
    {
      hide Process.Valid, Stream.Valid, Queues, Stops, Procs;
      if p.stopped {
        StopPending(p);
      }
      MarkExited(p);
      label Marked:
      Release(p);
      Enqueue(CloseHandles(p));
      ProcsKept@Marked();
      ExitQueued(p);
      ExitCounted(p);
    }

    method MarkExited(p: Process)
      requires Procs() && p in procs && !p.exited
      modifies p`exited
      ensures Procs() && p.exited && !p.closed && OthersKept(p)
    {
      hide Process.Valid, Procs;
      ProcValid(p);
      p.NotClosed();
      p.exited := true;
      p.StillValid();
      OneStep(p);
    }

    lemma StopPending(p: Process)
      requires Stops() && p in procs && p.stopped && !p.exited
      ensures p in waiting && stopRequests > 0
    {
    }

    twostate lemma ExitCounted(p: Process)
      requires old(Stops()) && procs == old(procs) && p in procs && !old(p.exited) && p.exited
      requires p.stopped == old(p.stopped)
      requires stopRequests == old(stopRequests) - (if p.stopped then 1 else 0)
      requires timerOn == if p.stopped && stopRequests == 0 then false else old(timerOn)
      requires waiting == old(waiting) - {p} && late == old(late) && OthersKept(p)
      ensures Stops()
    {
    }

    twostate lemma ExitQueued(p: Process)
      requires old(Queues()) && p in procs && procs == old(procs) && children == old(children)
      requires p.exited && !old(p.exited) && !p.closed
      requires p.refcount == old(p.refcount) && p.announced == old(p.announced) && p.closed == old(p.closed)
      requires OthersKept(p) && events == old(events) + [CloseHandles(p)] && queued == old(queued) + [CloseHandles(p)]
      ensures Queues()
    {
    }

    // The next event of the queue: process_close_handles, or the callback of the owner.
    method RunEvent() returns (e: Event)
      requires Inv() && events != []
      modifies `events, events[0].proc`closed, events[0].proc.streams`closed, events[0].proc.streams`closing
      ensures Inv() && e == old(events[0]) && events == old(events[1..])
      ensures e.CloseHandles? ==> e.proc.closed && forall s :: s in e.proc.streams ==> s.closed
      ensures e.Exited? ==> unchanged(e.proc) && unchanged(e.proc.streams)
    {
      hide Process.Valid, Stream.Valid, Queues, Stops, Procs, Asked, Timely;
      Head();
      e := events[0];
      ProcValid(e.proc);
      events := events[1..];
      if e.CloseHandles? {
        e.proc.CloseHandles();
      }
      HeadRun(e);
      StopsKept();
      OneStep(e.proc);
    }

    lemma Head()
      requires Queues() && events != []
      ensures events[0].proc in procs && (events[0].CloseHandles? ==> events[0].proc.exited)
    {
      assert events[0] in events;
      assert multiset(events)[events[0]] > 0;
    }

    twostate lemma HeadRun(e: Event)
      requires old(Queues()) && procs == old(procs) && children == old(children) && queued == old(queued)
      requires old(events) != [] && e == old(events)[0] && events == old(events)[1..] && e.proc in procs
      requires forall q :: q in procs ==>
        && q.refcount == old(q.refcount) && q.exited == old(q.exited)
        && q.announced == old(q.announced) && (e != CloseHandles(q) ==> q.closed == old(q.closed))
      requires e.CloseHandles? ==> e.proc.closed
      ensures Queues()
    {
      assert old(events) == [e] + events;
      assert multiset(old(events)) == multiset{e} + multiset(events);
    }

    // The callback for the handle of a pipe (close_cb in stream.c).
    method PipeGone(p: Process, s: Stream)
      requires Inv() && p in procs && s in p.streams && s.closing && !s.gone
      modifies `children, `events, `queued, p`refcount, p`announced, s`gone
      ensures Inv() && s.gone && (p.announced <==> p.refcount == 0)
      ensures Announced(p, old(children), old(events), old(queued))
    {
      hide Process.Valid, Stream.Valid, Queues, Stops, Procs, Asked, Timely;
      DropPipe(p, s);
      SignalsKept(p);
    }

    method DropPipe(p: Process, s: Stream)
      requires Procs() && Queues() && Stops() && p in procs && s in p.streams && s.closing && !s.gone
      modifies `children, `events, `queued, p`refcount, p`announced, s`gone
      ensures Procs() && Queues() && Stops() && OthersKept(p) && s.gone && (p.announced <==> p.refcount == 0)
      ensures Announced(p, old(children), old(events), old(queued))
    {
      hide Process.Valid, Stream.Valid, Queues, Stops, Procs;
      ProcValid(p);
      p.PipeValid(s);
      p.Counts(s);
      s.HandleGone();
      Decref(p);
      p.Dropped(s);
      StopsKept();
      OneStep(p);
    }

    // The callback for the handle of the process (close_cb in uv_process.c).
    method ProcessGone(p: Process)
      requires Inv() && p in procs && p.closed && !p.gone
      modifies `children, `events, `queued, p`refcount, p`announced, p`gone
      ensures Inv() && p.gone && (p.announced <==> p.refcount == 0)
      ensures Announced(p, old(children), old(events), old(queued))
    {
      hide Process.Valid, Stream.Valid, Queues, Stops, Procs, Asked, Timely;
      DropHandle(p);
      SignalsKept(p);
    }

    method DropHandle(p: Process)
      requires Procs() && Queues() && Stops() && p in procs && p.closed && !p.gone
      modifies `children, `events, `queued, p`refcount, p`announced, p`gone
      ensures Procs() && Queues() && Stops() && OthersKept(p) && p.gone && (p.announced <==> p.refcount == 0)
      ensures Announced(p, old(children), old(events), old(queued))
    {
      hide Process.Valid, Stream.Valid, Queues, Stops, Procs;
      ProcValid(p);
      p.Counts(null);
      p.gone := true;
      QueuesKept();
      Decref(p);
      p.Dropped(null);
      StopsKept();
      OneStep(p);
    }

    method Write(p: Process, s: Stream, size: nat, takes: bool) returns (ok: bool)
      requires Inv() && p in procs && s in p.streams
      modifies s`pending, s`curmem, s`inFlight, s`lost
      ensures Inv() && (ok <==> old(s.curmem) <= s.maxmem && takes && !s.closing)
      ensures s.inFlight == old(s.inFlight) + if ok then [size] else []
      ensures s.lost == old(s.lost) + if ok || old(s.curmem) > s.maxmem then 0 else size
    {
      hide Process.Valid, Stream.Valid, Queues, Stops, Procs, Asked, Timely;
      ProcValid(p);
      p.PipeValid(s);
      ok := s.Write(size, takes);
      p.PipeChanged(s);
      OneStep(p);
    }

    method WriteDone(p: Process, s: Stream, ghost i: nat, size: nat)
      requires Inv() && p in procs && s in p.streams && i < |s.inFlight| && size == s.inFlight[i]
      modifies s`pending, s`curmem, s`inFlight, s`closing
      ensures Inv() && s.inFlight == old(s.inFlight)[..i] + old(s.inFlight)[i + 1..]
    {
      hide Process.Valid, Stream.Valid, Queues, Stops, Procs, Asked, Timely;
      ProcValid(p);
      p.PipeValid(s);
      s.WriteDone(i, size);
      p.PipeChanged(s);
      OneStep(p);
    }

    // The exit is announced once, and only after every handle was closed, none of them under a write.
    lemma AnnouncedOnce(p: Process)
      requires Inv() && p in procs && Exited(p) in queued
      ensures multiset(queued)[Exited(p)] == 1 && multiset(queued)[CloseHandles(p)] == 1
      ensures p.exited && p.gone && forall s :: s in p.streams ==> s.gone && s.closed && s.pending == 0
    {
      assert multiset(queued)[Exited(p)] > 0;
      p.AnnouncedAfterAll();
    }

    // Once the exit event has run, no write is left and every callback has come, it is announced.
    lemma AnnouncedAtLast(p: Process)
      requires Inv() && p in procs && p.exited && CloseHandles(p) !in events
      requires p.closed ==> p.gone
      requires forall s :: s in p.streams ==> s.pending == 0 && (s.closing ==> s.gone)
      ensures p.announced && multiset(queued)[Exited(p)] == 1 && p !in children
    {
      assert multiset(events)[CloseHandles(p)] == 0;
      p.AnnouncedOrWaiting();
    }

    // When every process has exited the timer still runs exactly if one of them was asked to stop
    // after its exit: that request is never taken back.
    lemma TimerAtRest()
      requires Inv() && forall p :: p in procs ==> p.exited
      ensures timerOn <==> late != {}
    {
      assert waiting == {};
    }

    lemma NothingQueued(p: Process)
      requires Inv() && procs == {}
      ensures forall e :: e in queued ==> e.proc != p
    {
    }

    lemma NoneLate()
      requires Inv() && forall p :: p in procs ==> !p.exited
      ensures late == {}
    {
      assert forall p :: p in late ==> p in procs;
    }

    // What the timer has in store for a process.
    ghost function Due(p: Process, now: nat): seq<Signal>
      reads p
    {
      if !p.stopped then []
      else if !p.termSent && now - p.stoppedAt >= TERM_TIMEOUT then [Term(p)]
      else if now - p.stoppedAt >= KILL_TIMEOUT then [Kill(p)]
      else []
    }

    ghost function DueAll(ps: seq<Process>, now: nat): seq<Signal>
      reads ps
    {
      if ps == [] then [] else Due(ps[0], now) + DueAll(ps[1..], now)
    }

    twostate lemma AskedOne(p: Process)
      requires old(Asked()) && procs == old(procs) && p in procs && old(signals) <= signals
      requires forall q :: q in procs && q != p ==> q.termSent == old(q.termSent)
      requires Reminder(p, signals[|old(signals)|..], old(p.termSent), p.termSent)
      ensures Asked()
    {
      var more := signals[|old(signals)|..];
      assert signals == old(signals) + more;
      assert more == [Kill(p)] ==> multiset(old(signals))[Term(p)] > 0;
      InOrderMore(old(signals), more, p);
    }

    lemma Listed(i: nat)
      requires Queues() && i < |children|
      ensures children[i] in procs && NoTwice(children)
    {
    }

    method KillOne(p: Process, now: nat)
      requires Inv() && p in procs
      modifies `signals, `times, p`termSent
      ensures Inv() && signals == old(signals) + old(Due(p, now))
      ensures SentAt(old(times), times, now)
    {
      hide Process.Valid, Stream.Valid, Queues, Stops, Procs, Asked, Timely;
      ghost var due := Due(p, now);
      Clock(p);
      SameLength();
      Remind(p, now);
      Reminded(p);
      assert signals[|old(signals)|..] == due;
      AskedOne(p);
      RemindedInTime();
    }

    lemma SameLength()
      requires Timely()
      ensures |times| == |signals|
    {
    }

    // The clock of a process that is due.
    lemma Clock(p: Process)
      requires Timely() && p in procs
      ensures p.stopped ==> p in firstAsked && firstAsked[p] == p.stoppedAt
    {
    }

    twostate lemma RemindedInTime()
      requires old(Timely()) && procs == old(procs) && firstAsked == old(firstAsked)
      requires forall q :: q in procs ==> q.stopped == old(q.stopped) && q.stoppedAt == old(q.stoppedAt)
      requires old(signals) <= signals && old(times) <= times && |times| - |old(times)| == |signals| - |old(signals)|
      requires forall i :: |old(signals)| <= i < |signals| ==> InTime(signals[i], times[i], firstAsked)
      ensures Timely()
    {
    }

    twostate lemma Reminded(p: Process)
      requires old(Procs() && Queues() && Stops()) && p in procs && procs == old(procs) && pipes == old(pipes)
      requires children == old(children) && events == old(events) && queued == old(queued)
      requires stopRequests == old(stopRequests) && timerOn == old(timerOn) && waiting == old(waiting)
      requires late == old(late)
      requires p.refcount == old(p.refcount) && p.stopped == old(p.stopped) && p.exited == old(p.exited)
      requires p.closed == old(p.closed) && p.gone == old(p.gone) && p.announced == old(p.announced)
      requires (forall q :: q in procs && q != p ==> unchanged(q)) && forall t :: t in pipes ==> unchanged(t)
      ensures Procs() && Queues() && Stops()
    {
      hide Process.Valid, Stream.Valid, Queues, Stops;
      assert p.streams <= pipes;
      p.StillValid();
      OneStep(p);
      QueuesKept();
      StopsKept();
    }

    method Remind(p: Process, now: nat)
      modifies `signals, `times, p`termSent
      ensures signals == old(signals) + old(Due(p, now))
      ensures SentAt(old(times), times, now) && |times| - |old(times)| == |signals| - |old(signals)|
      ensures p.termSent == (old(p.termSent) || old(Due(p, now)) == [Term(p)])
    {
      if p.stopped {
        var elapsed := now - p.stoppedAt;
        if !p.termSent && elapsed >= TERM_TIMEOUT {
          signals, times := signals + [Term(p)], times + [now];
          p.termSent := true;
        } else if elapsed >= KILL_TIMEOUT {
          signals, times := signals + [Kill(p)], times + [now];
        }
      }
    }

    // children_kill_cb
    method KillTick(now: nat)
      requires Inv()
      modifies `signals, `times, procs`termSent
      ensures Inv() && signals == old(signals) + old(DueAll(children, now))
      ensures SentAt(old(times), times, now)
    {
      hide Process.Valid, Queues, Stops, Asked, Timely, Due, Procs, NoTwice;
      assert children[0..] == children;
      for i := 0 to |children|
        invariant Inv()
        invariant SentAt(old(times), times, now)
        invariant forall j :: i <= j < |children| ==> unchanged(children[j])
        invariant signals + old(DueAll(children[i..], now)) == old(signals) + old(DueAll(children, now))
      {
        Listed(i);
        Distinct(children, i);
        assert children[i..][1..] == children[i + 1..];
        assert old(DueAll(children[i..], now)) == old(Due(children[i], now)) + old(DueAll(children[i + 1..], now));
        KillOne(children[i], now);
      }
    }
  }

  // A write to a closed stream: it is refused, and its memory is never free again.
  method RefusedWrite() returns (s: Stream)
    ensures s.Valid() && s.pending == 0 && s.curmem == 5
  {
    s := new Stream(0);
    s.Close();
    var ok := s.Write(5, true);
  }

  // A process that is asked to stop after its exit: no process runs, and the timer does.
  method LateStop() returns (l: Loop, p: Process)
    ensures l.Inv() && l.procs == {p} && p.exited && l.timerOn
  {
    hide Process.Valid, Loop.Queues, Loop.Procs, Loop.Stops, Loop.Asked, Loop.Timely;
    l := new Loop();
    p := new Process(null, null, null);
    l.NothingQueued(p);
    var started := l.Spawn(p, true);
    l.NoneLate();
    l.Exit(p);
    l.Stop(p, 0);
    l.TimerAtRest();
  }
}
