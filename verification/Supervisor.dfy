/**
  The supervisor's pipes: what a sandboxed program writes goes to sinks with limits, while it
  runs and, once it is over, until everything is drained.
 */
module Supervisor {
  import opened Options
  import opened Utf8
  import Counters
  import Response

  datatype Kind = StdStreams | Regular | CopyFile

  datatype Handler = StreamsInit | Streams | Splice | NoSplice

  /** A destination: how much it may still get, and what it has got. */
  datatype Sink = Sink(kind: Kind, handler: Handler, limit: nat, out: seq<byte>)

  datatype Origin = Stdout | Stderr | Stranger

  datatype Input = Again | End | Data(bytes: seq<byte>, origin: Origin)

  /** What the system answers to one attempt to read. */
  datatype Event = Event(isSocket: bool, canSplice: bool, input: Input)

  predicate IsEvent(e: Event) {
    e.input.Data? ==> 0 < |e.input.bytes| < 0x8000_0000
  }

  function Min(a: nat, b: nat): nat { if a < b then a else b }

  /** The four bytes before a packet: its length, and in the top bit where it comes from. */
  function Header(n: nat, origin: Origin): (h: seq<byte>)
    requires n < 0x8000_0000
    ensures |h| == 4
  {
    [(if origin == Stderr then 0x80 else 0) + n / 0x100_0000, n / 0x1_0000 % 256, n / 256 % 256, n % 256]
  }

  function Framed(packet: seq<byte>, origin: Origin): (f: seq<byte>)
    requires |packet| < 0x8000_0000
  {
    Header(|packet|, origin) + packet
  }

  /** A reader of the stream gets the length of each packet and its origin back. */
  lemma HeaderReadsBack(n: nat, origin: Origin)
    requires n < 0x8000_0000 && origin != Stranger
    ensures var h := Header(n, origin);
            && (h[0] >= 0x80 <==> origin == Stderr)
            && ((h[0] as nat % 128 * 256 + h[1] as nat) * 256 + h[2] as nat) * 256 + h[3] as nat == n
  {
    var a, b, c := n / 256, n / 0x1_0000, n / 0x100_0000;
    assert b == a / 256 && c == b / 256 && c < 128;
    assert Header(n, origin)[0] % 128 == c;
  }

  // ----- one pipe -----

  /** Of all that was taken from a source, its sink has what the quota allows; a pipe that took
      more is closed. */
  predicate IsConserved(sink: Sink, isOpen: bool, taken: seq<byte>, quota: nat) {
    && sink.out == taken[..Min(quota, |taken|)]
    && (if |taken| <= quota then sink.limit == quota - |taken| else !isOpen)
  }

  lemma TakesMore(sink: Sink, taken: seq<byte>, quota: nat, b: seq<byte>)
    requires IsConserved(sink, true, taken, quota) && |taken| <= quota
    ensures var more := sink.(out := sink.out + b[..Min(|b|, sink.limit)]);
            if |b| <= sink.limit then IsConserved(more.(limit := sink.limit - |b|), true, taken + b, quota)
            else IsConserved(more, false, taken + b, quota) && |taken + b| > quota
  {
    if |b| <= sink.limit {
      assert b[..|b|] == b && taken[..|taken|] == taken && (taken + b)[..|taken + b|] == taken + b;
    } else {
      assert (taken + b)[..quota] == taken + b[..quota - |taken|];
      assert taken[..|taken|] == taken;
    }
  }

  // ----- all pipes -----

  /** What the response will say. */
  datatype Report = FromSpawner(text: seq<byte>) | MemoryLimit | PidsLimit | TimeLimit | OutputLimit | TooBig

  class Pipes {
    const sinks: array<Sink>
    const isOpen: array<bool>
    var exiting: bool
    /** The pipes that are looked at are those below this index. */
    var polled: int
    var copyFiles: nat
    var report: Report
    /** What the system will answer, in order; afterwards every source has ended. */
    var events: seq<Event>
    /** How much each write takes; 0 is a write that was interrupted. */
    var writes: seq<nat>

    /** What each source has given, and whether it has nothing to give right now. */
    ghost var taken: seq<seq<byte>>
    ghost var stalled: seq<bool>
    ghost const quota: seq<nat>
    ghost const kinds: seq<Kind>

    constructor (all: seq<Sink>, events: seq<Event>, writes: seq<nat>)
      requires forall i :: 0 <= i < |all| ==> all[i].out == []
      requires forall i :: 0 <= i < |events| ==> IsEvent(events[i])
      ensures Valid() && fresh(sinks) && fresh(isOpen) && sinks[..] == all && !exiting && polled == 0 && copyFiles == 0
      ensures report == FromSpawner([])
      ensures forall i :: 0 <= i < |all| ==> taken[i] == [] && quota[i] == all[i].limit && kinds[i] == all[i].kind
    {
      sinks := new Sink[|all|](i requires 0 <= i < |all| => all[i]);
      isOpen := new bool[|all|](_ => false);
      exiting, polled, copyFiles, report := false, 0, 0, FromSpawner([]);
      this.events, this.writes := events, writes;
      taken := seq(|all|, _ => []);
      stalled := seq(|all|, _ => false);
      quota := seq(|all|, i requires 0 <= i < |all| => all[i].limit);
      kinds := seq(|all|, i requires 0 <= i < |all| => all[i].kind);
    }

    ghost predicate Shaped()
      reads this`events, this`taken, this`stalled, this`polled, sinks, isOpen
    {
      && isOpen.Length == sinks.Length == |taken| == |quota| == |stalled|
      && polled <= sinks.Length && |kinds| == sinks.Length &&
         (forall i :: 0 <= i < |kinds| ==> sinks[i].kind == kinds[i])
      && forall i :: 0 <= i < |events| ==> IsEvent(events[i])
    }

    ghost predicate Conserved(i: nat)
      requires Shaped() && i < sinks.Length
      reads this`events, this`taken, this`stalled, this`polled, sinks, isOpen
    {
      IsConserved(sinks[i], isOpen[i], taken[i], quota[i])
    }

    ghost predicate Valid()
      reads this`events, this`taken, this`stalled, this`polled, sinks, isOpen
    {
      Shaped() && forall i :: 0 <= i < sinks.Length ==> Conserved(i)
    }

    ghost predicate Overran(i: nat)
      requires Shaped() && i < sinks.Length
      reads this`events, this`taken, this`stalled, this`polled, sinks, isOpen
    {
      |taken[i]| > quota[i]
    }

    method NextEvent() returns (e: Event)
      requires forall i :: 0 <= i < |events| ==> IsEvent(events[i])
      modifies this`events
      ensures IsEvent(e) && (forall i :: 0 <= i < |events| ==> IsEvent(events[i]))
      ensures old(events) == [] ==> e.input == End && events == []
      ensures old(events) != [] ==> |events| < |old(events)|
    {
      if events == [] { return Event(true, true, End); }
      e, events := events[0], events[1..];
    }

    /** Write what the limit allows; the writes may be partial or interrupted. */
    method SinkPush(i: nat, buf: seq<byte>) returns (rc: nat)
      requires Shaped() && i < sinks.Length
      modifies this`writes, sinks
      ensures rc == |buf| && Shaped()
      ensures sinks[..] == old(sinks[..][i := sinks[i].(out := sinks[i].out + buf[..Min(|buf|, sinks[i].limit)])])
    {
      ghost var sink := sinks[i];
      var p, e := 0, if |buf| > sinks[i].limit then sinks[i].limit else |buf|;
      assert sink.out + buf[..0] == sink.out;
      while p != e
        invariant 0 <= p <= e && Shaped()
        invariant sinks[..] == old(sinks[..])[i := sink.(out := sink.out + buf[..p])]
        decreases e - p, |writes|
      {
        var n := e - p;
        if writes != [] {
          n, writes := Min(writes[0], n), writes[1..];
        }
        assert sink.out + buf[..p + n] == sink.out + buf[..p] + buf[p..p + n];
        sinks[i] := sinks[i].(out := sinks[i].out + buf[p..p + n]);
        p := p + n;
      }
      rc := |buf|;
    }

    /** What a handler may do: change nothing but its own kind and report that there is nothing
        yet, or take some bytes and pass on what the limit allows. */
    twostate predicate Handled(i: nat, rc: int)
      requires old(Shaped()) && Shaped() && i < sinks.Length
      reads this, sinks, isOpen
    {
      && (forall j :: 0 <= j < sinks.Length && j != i ==> sinks[j] == old(sinks[j]) && taken[j] == old(taken[j]))
      && if rc < 0 then
           taken[i] == old(taken[i]) && sinks[i] == old(sinks[i]).(handler := sinks[i].handler)
         else
           && |taken[i]| == old(|taken[i]|) + rc && taken[i][..old(|taken[i]|)] == old(taken[i])
           && var written := taken[i][old(|taken[i]|)..][..Min(rc, old(sinks[i].limit))];
              sinks[i] == old(sinks[i]).(handler := sinks[i].handler, out := old(sinks[i].out) + written)
    }

    /** Take these bytes from source `i` and push them. */
    method Pass(i: nat, bytes: seq<byte>) returns (rc: nat)
      requires Shaped() && i < sinks.Length
      modifies this`writes, this`taken, sinks
      ensures rc == |bytes| && Shaped() && Handled(i, rc)
    {
      rc := SinkPush(i, bytes);
      taken := taken[i := taken[i] + bytes];
      assert taken[i][old(|taken[i]|)..] == bytes;
    }

    method ReadAndPush(i: nat) returns (rc: int)
      requires Shaped() && i < sinks.Length
      modifies this`events, this`writes, this`taken, sinks
      ensures Shaped() && Handled(i, rc)
    {
      var e := NextEvent();
      rc := Receive(i, e.input);
    }

    /** The answer to a read, pushed to the sink. */
    method Receive(i: nat, input: Input) returns (rc: int)
      requires Shaped() && i < sinks.Length
      modifies this`writes, this`taken, sinks
      ensures Shaped() && Handled(i, rc)
    {
      match input
      case Again => rc := -1;
      case End => rc := Pass(i, []);
      case Data(bytes, _) => rc := Pass(i, bytes);
    }

    /** Splicing moves no more than the limit, straight into the sink. */
    method SpliceOver(i: nat) returns (rc: int)
      requires Shaped() && i < sinks.Length
      modifies this`events, this`writes, this`taken, sinks
      ensures Shaped() && Handled(i, rc)
    {
      if sinks[i].limit == 0 {
        rc := ReadAndPush(i);
        return;
      }
      var e := NextEvent();
      if !e.canSplice {
        sinks[i] := sinks[i].(handler := NoSplice);
        rc := ReadAndPush(i);
        return;
      }
      match e.input
      case Again => rc := -1;
      case End => rc := 0;
      case Data(bytes, _) =>
        var moved := bytes[..Min(|bytes|, sinks[i].limit)];
        sinks[i] := sinks[i].(out := sinks[i].out + moved);
        taken := taken[i := taken[i] + moved];
        assert taken[i][old(|taken[i]|)..] == moved == moved[..|moved|];
        rc := |moved|;
    }

    /** Packets from the two known addresses are framed; others are dropped, and while the program
        runs the next one has to wait. */
    method StreamsOver(i: nat) returns (rc: int)
      requires Shaped() && i < sinks.Length
      modifies this`events, this`writes, this`taken, sinks
      ensures Shaped() && Handled(i, rc)
    {
      while true
        invariant Shaped() && sinks[..] == old(sinks[..]) && taken == old(taken)
        decreases |events|
      {
        var e := NextEvent();
        if !e.input.Data? {
          rc := Receive(i, e.input);
          return;
        }
        if e.input.origin != Stranger {
          rc := Pass(i, Framed(e.input.bytes, e.input.origin));
          return;
        }
        if !exiting { return -1; }
      }
    }

    /** Call the handler of sink `i`. */
    method Handle(i: nat) returns (rc: int)
      requires Shaped() && i < sinks.Length
      modifies this`events, this`writes, this`taken, sinks
      ensures Shaped() && Handled(i, rc)
    {
      if sinks[i].handler == StreamsInit {
        var e := NextEvent();
        sinks[i] := sinks[i].(handler := if e.isSocket then Streams else Splice);
      }
      if sinks[i].handler == Streams {
        rc := StreamsOver(i);
      } else if sinks[i].handler == NoSplice {
        rc := ReadAndPush(i);
      } else {
        rc := SpliceOver(i);
      }
    }

    /** Nothing changed but pipe `i`. */
    twostate predicate OthersStay(i: int)
      requires old(Shaped()) && Shaped()
      reads this, sinks, isOpen
    {
      && polled == old(polled) && exiting == old(exiting) && copyFiles == old(copyFiles)
      && forall j :: 0 <= j < sinks.Length && j != i ==>
           && sinks[j] == old(sinks[j]) && isOpen[j] == old(isOpen[j])
           && taken[j] == old(taken[j]) && stalled[j] == old(stalled[j])
    }

    /** One turn of an open pipe: its handler, and what follows from the result. */
    method TakeTurn(i: nat) returns (goesOn: bool, over: bool)
      requires Valid() && i < sinks.Length && isOpen[i]
      modifies this`events, this`writes, this`taken, this`stalled, sinks, isOpen
      ensures Valid() && OthersStay(i)
      ensures over <==> Overran(i)
      ensures goesOn ==> isOpen[i] && sinks[i].limit < old(sinks[i].limit)
      ensures |old(taken[i])| <= |taken[i]|
      ensures !goesOn ==> !isOpen[i] || stalled[i]
    {
      assert Conserved(i);
      ghost var was := taken[i];
      goesOn, over := false, false;
      var rc := Handle(i);
      stalled := stalled[i := rc < 0];
      if rc >= 0 {
        TakesMore(old(sinks[i]), was, quota[i], taken[i][|was|..]);
        assert was + taken[i][|was|..] == taken[i];
        if 0 < rc <= sinks[i].limit {
          sinks[i] := sinks[i].(limit := sinks[i].limit - rc);
          goesOn := true;
        } else {
          isOpen[i] := false;
          over := rc > 0;
        }
      }
      assert Conserved(i);
      assert forall j :: 0 <= j < sinks.Length && j != i ==> Conserved(j) == old(Conserved(j));
    }

    /** A turn, and what it leaves of the pipes before and behind. */
    method Serve(i: nat, ghost sinks0: seq<Sink>, ghost open0: seq<bool>, ghost taken0: seq<seq<byte>>)
      returns (goesOn: bool, over: bool)
      requires Valid() && i < polled && isOpen[i] && StaysFrom(polled, sinks0, open0, taken0) && Grows(taken0, taken)
      modifies this`events, this`writes, this`taken, this`stalled, sinks, isOpen
      ensures Valid() && StaysFrom(polled, sinks0, open0, taken0) && Grows(taken0, taken)
      ensures polled == old(polled) && |taken| == |old(taken)|
      ensures forall j :: 0 <= j < |taken| && j != i ==> taken[j] == old(taken[j])
      ensures over <==> Overran(i)
      ensures goesOn ==> isOpen[i] && sinks[i].limit < old(sinks[i].limit)
      ensures old(Drained(i + 1)) ==> Drained(i + 1) && (!goesOn ==> Drained(i))
    {
      hide IsConserved, Grows;
      goesOn, over := TakeTurn(i);
      GrowsOn(taken0, old(taken), taken, i);
    }

    /** Serve the pipes from the last to the first; once the program is over, each one until it is
        drained or over its limit. */
    method DoPipes(ready: seq<bool>) returns (over: bool)
      requires Valid() && |ready| == sinks.Length
      modifies this`events, this`writes, this`taken, this`stalled, this`report, sinks, isOpen
      ensures Valid() && StaysFrom(polled, old(sinks[..]), old(isOpen[..]), old(taken))
      ensures Grows(old(taken), taken) && (over <==> NewlyOver(old(taken), taken, quota))
      ensures report == if over then OutputLimit else old(report)
      ensures exiting ==> Drained(0)
    {
      hide CountCopies, IsConserved, NewlyOver, Grows;
      NothingNew(taken, quota);
      GrowsFromItself(taken);
      ghost var sinks0, open0, taken0 := sinks[..], isOpen[..], taken;
      over := false;
      var i := polled - 1;
      while i >= 0
        invariant i < polled && Valid() && StaysFrom(polled, sinks0, open0, taken0)
        invariant Grows(taken0, taken) && (over <==> NewlyOver(taken0, taken, quota))
        invariant report == if over then OutputLimit else old(report)
        invariant exiting ==> Drained(i + 1)
        decreases i, if i >= 0 then sinks[i].limit else 0
      {
        if isOpen[i] && (ready[i] || exiting) {
          ghost var taken1 := taken;
          OpenIsUnder(i);
          var goesOn, o := Serve(i, sinks0, open0, taken0);
          OverStep(taken0, taken1, taken, quota, i);
          if o {
            over, report := true, OutputLimit;
          }
          if goesOn && exiting { continue; }
        }
        i := i - 1;
      }
    }

    lemma OpenIsUnder(i: nat)
      requires Valid() && i < sinks.Length && isOpen[i]
      ensures |taken[i]| <= quota[i]
    {
      assert Conserved(i);
    }

    /** Before the descriptors arrive no pipe is served; afterwards all but the files are. */
    ghost predicate Listening()
      requires Shaped()
      reads this`events, this`taken, this`stalled, this`polled, this`copyFiles, this`exiting, sinks, isOpen
    {
      && !exiting && NoneOver(taken, quota) && CopiesWait(taken, kinds)
      && if copyFiles == 0 && polled == 0 then true
         else polled == sinks.Length - copyFiles && copyFiles >= CountCopies(kinds)
    }

    /** Serve the pipes while the program runs. */
    method ServeRound(ready: seq<bool>) returns (over: bool)
      requires Valid() && Listening() && |ready| == sinks.Length
      modifies this`events, this`writes, this`taken, this`stalled, this`report, sinks, isOpen
      ensures Valid() && CopiesWait(taken, kinds) && (!over ==> Listening())
      ensures over <==> !NoneOver(taken, quota)
      ensures report == if over then OutputLimit else old(report)
    {
      over := DoPipes(ready);
      OverMeans(old(taken), taken, quota);
    }

    /** The program is over: serve all pipes, the files among them, until they are drained. */
    method Finish()
      requires Valid() && !exiting && polled + copyFiles <= sinks.Length
      requires report == OutputLimit <==> !NoneOver(taken, quota)
      modifies this`exiting, this`polled, this`events, this`writes, this`taken, this`stalled, this`report, sinks, isOpen
      ensures Valid() && exiting && Drained(0) && polled == old(polled) + copyFiles
      ensures report == OutputLimit <==> !NoneOver(taken, quota)
      ensures report == old(report) || report == OutputLimit
    {
      exiting := true;
      Poll(polled + copyFiles);
      ghost var before := taken;
      var over := DoPipes(seq(sinks.Length, _ => false));
      StaysOver(before, taken, quota);
      if NoneOver(before, quota) {
        OverMeans(before, taken, quota);
      }
    }

    /** A run, round by round, and its end. Nothing is lost on the way to a sink but what is over
        its limit. The response says so exactly when some sink was offered too much; otherwise it
        is that of the first round that ends the run. */
    method Supervise(rounds: seq<Round>) returns (outcome: Outcome)
      requires Valid() && !exiting && polled == 0 && copyFiles == 0 && report == FromSpawner([])
      requires forall j :: 0 <= j < |taken| ==> taken[j] == []
      requires forall k :: 0 <= k < |rounds| ==> |rounds[k].ready| == sinks.Length
      modifies this, sinks, isOpen
      ensures Valid()
      ensures outcome == Running ==>
                NoneOver(taken, quota) && CopiesWait(taken, kinds) && FirstEnd(rounds, [], sinks.Length).None?
      ensures outcome == Finished ==> exiting && Drained(0) && (polled == 0 || polled == sinks.Length)
      ensures outcome == Finished ==> (report == OutputLimit <==> !NoneOver(taken, quota))
      ensures outcome == Finished && NoneOver(taken, quota) ==>
                var end := FirstEnd(rounds, [], sinks.Length); end.Some? && report == Sent(end.value)
      ensures outcome == Failed ==> NoneOver(taken, quota) && FirstEnd(rounds, [], sinks.Length).None?
    {
      hide CountCopies, NoneOver, IsConserved, CopiesWait;
      StartsListening();
      var k := 0;
      ghost var text: seq<byte> := [];
      while k < |rounds|
        invariant 0 <= k <= |rounds| && Valid() && Listening() && report == FromSpawner(text)
        invariant FirstEnd(rounds[k..], text, sinks.Length) == FirstEnd(rounds, [], sinks.Length)
        decreases |rounds| - k
      {
        assert rounds[k..][1..] == rounds[k + 1..];
        var step := Listen(rounds[k], report.text, sinks.Length);
        if step == Fails { return Failed; }
        if step.Ends? {
          report := step.report;
          ReportIsNoLimit(rounds[k], text, sinks.Length);
          Finish();
          Send();
          return Finished;
        }
        if step.HandsOver? { HandOver(); }
        report := FromSpawner(step.text);
        text := step.text;
        var over := ServeRound(rounds[k].ready);
        if over {
          Finish();
          Send();
          return Finished;
        }
        k := k + 1;
      }
      outcome := Running;
    }

    /** Send the response. */
    method Send()
      requires Valid()
      modifies this`report
      ensures Valid() && report == Sent(old(report))
    {
      if report.FromSpawner? && |report.text| > Response.CAPACITY {
        report := TooBig;
      }
    }

    lemma StartsListening()
      requires Valid() && !exiting && polled == 0 && copyFiles == 0 && forall j :: 0 <= j < |taken| ==> taken[j] == []
      ensures Listening()
    {
    }

    /** The pipes from `n` on are as they were. */
    ghost predicate StaysFrom(n: int, sinks0: seq<Sink>, open0: seq<bool>, taken0: seq<seq<byte>>)
      reads this`events, this`taken, this`stalled, this`polled, sinks, isOpen
    {
      && |sinks0| == sinks.Length && |open0| == isOpen.Length && |taken0| == |taken|
      && (forall j :: 0 <= j < |sinks0| && j >= n ==> sinks[j] == sinks0[j])
      && (forall j :: 0 <= j < |open0| && j >= n ==> isOpen[j] == open0[j])
      && (forall j :: 0 <= j < |taken0| && j >= n ==> taken[j] == taken0[j])
    }

    /** The pipes from `n` on that are looked at are closed or have nothing to give. */
    ghost predicate Drained(n: int)
      requires Shaped()
      reads this`events, this`taken, this`stalled, this`polled, sinks, isOpen
    {
      forall j :: 0 <= j < polled && j >= n ==> !isOpen[j] || stalled[j]
    }

    // ----- the run -----

    /** The descriptors of all pipes have arrived. */
    method HandOver()
      requires Valid() && NoneOver(taken, quota)
      modifies this`polled, this`copyFiles, isOpen
      ensures Valid() && copyFiles == old(copyFiles) + CountCopies(kinds) && polled == sinks.Length - copyFiles
    {
      var i := 0;
      while i < sinks.Length
        invariant 0 <= i <= sinks.Length && Valid() && NoneOver(taken, quota)
        invariant copyFiles == old(copyFiles) + CountCopies(kinds[..i])
        modifies this`copyFiles, isOpen
      {
        assert kinds[..i + 1][..i] == kinds[..i];
        Open(i);
        if sinks[i].kind == CopyFile { copyFiles := copyFiles + 1; }
        i := i + 1;
      }
      assert kinds[..i] == kinds;
      Poll(sinks.Length - copyFiles);
    }

    method Open(i: nat)
      requires Valid() && i < sinks.Length && |taken[i]| <= quota[i]
      modifies isOpen
      ensures Valid()
    {
      assert Conserved(i);
      isOpen[i] := true;
      assert Conserved(i);
      assert forall j :: 0 <= j < sinks.Length && j != i ==> Conserved(j) == old(Conserved(j));
    }

    method Poll(n: int)
      requires Valid() && n <= sinks.Length
      modifies this`polled
      ensures Valid() && polled == n
    {
      polled := n;
      assert forall j :: 0 <= j < sinks.Length ==> Conserved(j) == old(Conserved(j));
    }
  }

  /** Nothing has been taken from a file: files are copied when the program is over. */
  ghost predicate CopiesWait(taken: seq<seq<byte>>, kinds: seq<Kind>)
    requires |taken| == |kinds|
  {
    forall j :: 0 <= j < |kinds| && j >= |kinds| - CountCopies(kinds) ==> taken[j] == []
  }

  ghost predicate NoneOver(taken: seq<seq<byte>>, quota: seq<nat>)
    requires |taken| == |quota|
  {
    forall j :: 0 <= j < |taken| ==> |taken[j]| <= quota[j]
  }

  function CountCopies(kinds: seq<Kind>): (n: nat)
    ensures n <= |kinds|
  {
    if kinds == [] then 0
    else CountCopies(kinds[..|kinds| - 1]) + if kinds[|kinds| - 1] == CopyFile then 1 else 0
  }

  /** The files to copy come last. */
  predicate CopiesLast(kinds: seq<Kind>) {
    forall j :: 0 <= j < |kinds| ==> (kinds[j] == CopyFile <==> j >= |kinds| - CountCopies(kinds))
  }

  /** The sinks in the order in which a request's pipes are visited: the framed streams, the
      pipes, the files. */
  method CollectSinks(streams: Option<nat>, pipes: seq<nat>, files: seq<nat>) returns (all: seq<Sink>)
    ensures |all| == (if streams.Some? then 1 else 0) + |pipes| + |files|
    ensures forall i :: 0 <= i < |all| ==> all[i].out == []
    ensures CopiesLast(seq(|all|, i requires 0 <= i < |all| => all[i].kind))
    ensures CountCopies(seq(|all|, i requires 0 <= i < |all| => all[i].kind)) == |files|
  {
    all := [];
    if streams.Some? {
      all := [Sink(StdStreams, StreamsInit, streams.value, [])];
    }
    var k := 0;
    while k < |pipes|
      invariant 0 <= k <= |pipes| && |all| == (if streams.Some? then 1 else 0) + k
      invariant forall i :: 0 <= i < |all| ==> all[i].kind != CopyFile && all[i].out == []
    {
      all := all + [Sink(Regular, Splice, pipes[k], [])];
      k := k + 1;
    }
    ghost var first := |all|;
    k := 0;
    while k < |files|
      invariant 0 <= k <= |files| && |all| == first + k
      invariant forall i :: 0 <= i < |all| ==> (all[i].kind == CopyFile <==> i >= first) && all[i].out == []
    {
      all := all + [Sink(CopyFile, Splice, files[k], [])];
      k := k + 1;
    }
    CountsLast(seq(|all|, i requires 0 <= i < |all| => all[i].kind), first);
  }

  lemma {:induction false} CountsLast(kinds: seq<Kind>, first: nat)
    requires first <= |kinds| && forall j :: 0 <= j < |kinds| ==> (kinds[j] == CopyFile <==> j >= first)
    ensures CountCopies(kinds) == |kinds| - first
    decreases |kinds|
  {
    if kinds != [] {
      var n := |kinds| - 1;
      CountsLast(kinds[..n], if first <= n then first else n);
    }
  }

  // ----- what ends a run -----

  /** What the spawner's socket holds: nothing yet, its end, or a message, perhaps with
      descriptors. */
  datatype SpawnerEvent = Quiet | Closed | Message(text: seq<byte>, descriptors: Option<nat>)

  /** What one call of poll finds: the counters of cgroups that have changed, the timer, the
      spawner, the pipes; and the counters once the spawner is done. */
  datatype Round = Round(memory: Option<bool>, pids: Option<bool>, timer: bool, spawner: SpawnerEvent,
                         ready: seq<bool>, pidsAtEnd: bool, memoryAtEnd: bool)

  datatype Step = Continues(text: seq<byte>) | HandsOver(text: seq<byte>) | Ends(report: Report) | Fails

  datatype Outcome = Running | Failed | Finished

  /** The last counter that is looked at has the last word. */
  function AtEnd(r: Round, text: seq<byte>): Report {
    if r.memoryAtEnd then MemoryLimit else if r.pidsAtEnd then PidsLimit else FromSpawner(text)
  }

  /** What a round comes to before the pipes are served. */
  function Listen(r: Round, text: seq<byte>, npipe: nat): Step {
    if r.memory == Some(true) then Ends(MemoryLimit)
    else if r.pids == Some(true) then Ends(PidsLimit)
    else if r.timer then Ends(TimeLimit)
    else match r.spawner
      case Quiet => Continues(text)
      case Closed => if text == [] then Fails else Ends(AtEnd(r, text))
      case Message(t, descriptors) =>
        var got := Received(text, t);
        if got == [] then if text == [] then Fails else Ends(AtEnd(r, text))
        else if descriptors == Some(npipe) then HandsOver(text)
        else if got[|got| - 1] == Counters.NEWLINE then Ends(AtEnd(r, text + got))
        else Continues(text + got)
  }

  /** What is received of a message: as much as the response buffer takes and one byte more. */
  function Received(text: seq<byte>, t: seq<byte>): (got: seq<byte>) {
    var room := if |text| <= Response.CAPACITY then Response.CAPACITY + 1 - |text| else 0;
    if |t| <= room then t else t[..room]
  }

  /** What goes out: a text that has run over the buffer is not sent but reported. */
  function Sent(report: Report): (sent: Report) {
    if report.FromSpawner? && |report.text| > Response.CAPACITY then TooBig else report
  }

  lemma ReportIsNoLimit(r: Round, text: seq<byte>, npipe: nat)
    ensures Listen(r, text, npipe).Ends? ==> Listen(r, text, npipe).report != OutputLimit
  {
  }

  /** The report of the first round that ends the run. */
  function FirstEnd(rounds: seq<Round>, text: seq<byte>, npipe: nat): Option<Report>
    decreases |rounds|
  {
    if rounds == [] then None
    else match Listen(rounds[0], text, npipe)
      case Continues(t) => FirstEnd(rounds[1..], t, npipe)
      case HandsOver(t) => FirstEnd(rounds[1..], t, npipe)
      case Ends(report) => Some(report)
      case Fails => None
  }

  /** The text in what the spawner sends in a round. */
  function Heard(r: Round, npipe: nat): seq<byte> {
    if r.spawner.Message? && r.spawner.descriptors != Some(npipe) then r.spawner.text else []
  }

  /** All text up to the round that ends the run. */
  function Said(rounds: seq<Round>, text: seq<byte>, npipe: nat): seq<byte>
    decreases |rounds|
  {
    if rounds == [] then []
    else match Listen(rounds[0], text, npipe)
      case Continues(t) => Heard(rounds[0], npipe) + Said(rounds[1..], t, npipe)
      case HandsOver(t) => Said(rounds[1..], t, npipe)
      case Ends(_) => Heard(rounds[0], npipe)
      case Fails => []
  }

  /** One round of it: the text is whole, or too long for good. */
  lemma HeardIsKept(r: Round, text: seq<byte>, npipe: nat)
    ensures match Listen(r, text, npipe)
            case Continues(t) => t == text + Heard(r, npipe) || |text + Heard(r, npipe)| >= |t| > Response.CAPACITY
            case HandsOver(t) => t == text
            case Ends(report) => report.FromSpawner? ==>
              || report.text == text + Heard(r, npipe)
              || |text + Heard(r, npipe)| >= |report.text| > Response.CAPACITY
            case Fails => true
  {
  }

  /** A report of the spawner has all it said if the response buffer has room for that, and is too
      big for it otherwise. */
  lemma {:induction false} TextIsWhole(rounds: seq<Round>, text: seq<byte>, npipe: nat)
    requires FirstEnd(rounds, text, npipe).Some? && FirstEnd(rounds, text, npipe).value.FromSpawner?
    ensures var (whole, got) := (text + Said(rounds, text, npipe), FirstEnd(rounds, text, npipe).value.text);
            got == whole || |whole| >= |got| > Response.CAPACITY
    decreases |rounds|
  {
    hide Listen, Heard;
    HeardIsKept(rounds[0], text, npipe);
    match Listen(rounds[0], text, npipe)
    case Continues(t) =>
      TextIsWhole(rounds[1..], t, npipe);
      assert text + Heard(rounds[0], npipe) + Said(rounds[1..], t, npipe) == text + Said(rounds, text, npipe);
    case HandsOver(t) => TextIsWhole(rounds[1..], t, npipe);
    case Ends(_) =>
    case Fails =>
  }

  ghost predicate Grows(before: seq<seq<byte>>, after: seq<seq<byte>>) {
    |before| == |after| && forall j :: 0 <= j < |before| ==> |before[j]| <= |after[j]|
  }

  /** Some source has gone over its quota. */
  ghost predicate NewlyOver(before: seq<seq<byte>>, after: seq<seq<byte>>, quota: seq<nat>)
    requires |before| == |after| == |quota|
  {
    exists j :: 0 <= j < |before| && |before[j]| <= quota[j] < |after[j]|
  }

  lemma OverMeans(before: seq<seq<byte>>, after: seq<seq<byte>>, quota: seq<nat>)
    requires |before| == |after| == |quota| && NoneOver(before, quota)
    ensures NewlyOver(before, after, quota) <==> !NoneOver(after, quota)
  {
    if !NoneOver(after, quota) {
      var j :| 0 <= j < |after| && |after[j]| > quota[j];
      assert |before[j]| <= quota[j] < |after[j]|;
    }
  }

  lemma StaysOver(before: seq<seq<byte>>, after: seq<seq<byte>>, quota: seq<nat>)
    requires |before| == |after| == |quota| && Grows(before, after)
    ensures !NoneOver(before, quota) ==> !NoneOver(after, quota)
  {
    if !NoneOver(before, quota) {
      var j :| 0 <= j < |before| && |before[j]| > quota[j];
      assert |after[j]| > quota[j];
    }
  }

  lemma GrowsFromItself(taken: seq<seq<byte>>)
    ensures Grows(taken, taken)
  {
  }

  lemma GrowsOn(before: seq<seq<byte>>, now: seq<seq<byte>>, after: seq<seq<byte>>, i: nat)
    requires Grows(before, now) && |after| == |now| && i < |now| && |now[i]| <= |after[i]|
    requires forall j :: 0 <= j < |now| && j != i ==> after[j] == now[j]
    ensures Grows(before, after)
  {
  }

  lemma NothingNew(taken: seq<seq<byte>>, quota: seq<nat>)
    requires |taken| == |quota|
    ensures !NewlyOver(taken, taken, quota)
  {
  }

  lemma OverStep(before: seq<seq<byte>>, now: seq<seq<byte>>, after: seq<seq<byte>>, quota: seq<nat>, i: nat)
    requires i < |before| == |now| == |after| == |quota| && |now[i]| <= quota[i] && Grows(before, now)
    requires forall j :: 0 <= j < |now| && j != i ==> after[j] == now[j]
    ensures NewlyOver(before, after, quota) <==> NewlyOver(before, now, quota) || |after[i]| > quota[i]
  {
    if |after[i]| > quota[i] {
      assert |before[i]| <= quota[i] < |after[i]|;
    }
    if NewlyOver(before, now, quota) {
      var j :| 0 <= j < |before| && |before[j]| <= quota[j] < |now[j]|;
      assert |before[j]| <= quota[j] < |after[j]|;
    }
  }
}
