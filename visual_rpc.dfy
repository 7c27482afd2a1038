/** The Visual Studio package that drives the Discord session: RpcPackage
    (RpcPackage.cs).  Its update thread initializes the Discord client, runs
    one presence cycle after another while the close flag is down, and shuts
    the client down once it sees the flag; QueryClose raises the flag.

    The calls into the Discord client are recorded, with their arguments, in a
    ghost trace.  The two threads are modelled sequentially: the close flag
    can only change between cycles, which is where the update thread reads
    it. */
module VisualRpc {
  import opened DotNet
  import opened PresenceCycle

  /** The Discord application id passed to DiscordRpc.Initialize. */
  const ApplicationId: string := "410943600705273856"

  /** A call from the update thread into the Discord client. */
  datatype Call =
    | Initialize(applicationId: string, autoRegister: bool)
    | RunCallbacks
    | UpdatePresence(presence: RichPresence)
    | Shutdown

  /** Where the update thread is: before initializing the client, inside the
      update loop, or after shutting the client down (terminal). */
  datatype Phase = Created | Running | Stopped

  /** The calls the loop makes for the records it published, in order: each
      cycle runs the callbacks, then publishes its record. */
  function CycleCalls(published: seq<RichPresence>): (calls: seq<Call>)
    ensures |calls| == 2 * |published|
  {
    if published == [] then []
    else CycleCalls(published[..|published| - 1]) +
         [RunCallbacks, UpdatePresence(published[|published| - 1])]
  }

  /** The whole trace of a session that published `published`:
      initialization, the cycles, and the shutdown once it has stopped. */
  function SessionCalls(published: seq<RichPresence>, stopped: bool): seq<Call> {
    [Initialize(ApplicationId, true)] + CycleCalls(published) +
    (if stopped then [Shutdown] else [])
  }

  /** One more cycle appends its two calls to a running session's trace. */
  lemma SessionCallsGrow(published: seq<RichPresence>, r: RichPresence)
    ensures SessionCalls(published + [r], false) ==
      SessionCalls(published, false) + [RunCallbacks, UpdatePresence(r)]
  {
    var more := published + [r];
    assert more[..|more| - 1] == published;
  }

  /** Stopping appends the Shutdown to a running session's trace. */
  lemma SessionCallsStop(published: seq<RichPresence>)
    ensures SessionCalls(published, true) == SessionCalls(published, false) + [Shutdown]
  {
  }

  /** Cycle k sits at positions 2k and 2k + 1 of the cycle calls. */
  lemma {:induction false} CycleCallsAt(published: seq<RichPresence>, k: nat)
    requires k < |published|
    ensures CycleCalls(published)[2 * k] == RunCallbacks
    ensures CycleCalls(published)[2 * k + 1] == UpdatePresence(published[k])
  {
    var n := |published| - 1;
    if k < n {
      CycleCallsAt(published[..n], k);
    }
  }

  /** Position i of a session trace, for 0 < i <= 2 * |published|: a
      RunCallbacks at odd i, the publish of cycle (i - 1) / 2 at even i. */
  lemma SessionCallAt(published: seq<RichPresence>, stopped: bool, i: nat)
    requires 0 < i <= 2 * |published|
    ensures SessionCalls(published, stopped)[i] ==
      if i % 2 == 1 then RunCallbacks else UpdatePresence(published[(i - 1) / 2])
  {
    CycleCallsAt(published, (i - 1) / 2);
  }

  /** The client is initialized by the first call and never again. */
  ghost predicate InitializedFirst(trace: seq<Call>) {
    |trace| > 0 && trace[0].Initialize? &&
    forall i :: 0 < i < |trace| ==> !trace[i].Initialize?
  }

  /** Every publish directly follows a RunCallbacks. */
  ghost predicate CallbacksBeforeEachPublish(trace: seq<Call>) {
    forall i :: 0 <= i < |trace| && trace[i].UpdatePresence? ==> i > 0 && trace[i - 1].RunCallbacks?
  }

  /** Shutdown is the last call, it occurs once, and only when `stopped`. */
  ghost predicate ShutdownOnceAtEnd(trace: seq<Call>, stopped: bool) {
    forall i :: 0 <= i < |trace| ==> (trace[i].Shutdown? <==> stopped && i == |trace| - 1)
  }

  /** Every published record carries the session epoch, the logo and an
      absent or whitelisted icon. */
  ghost predicate PublishesWellFormed(trace: seq<Call>, epoch: int) {
    forall i :: 0 <= i < |trace| && trace[i].UpdatePresence? ==> Publishable(trace[i].presence, epoch)
  }

  /** Initialize is the first call of a session and is never repeated. */
  lemma SessionInitializesFirst(published: seq<RichPresence>, stopped: bool)
    ensures InitializedFirst(SessionCalls(published, stopped))
  {
    var trace := SessionCalls(published, stopped);
    forall i | 0 < i < |trace|
      ensures !trace[i].Initialize?
    {
      if i <= 2 * |published| {
        SessionCallAt(published, stopped, i);
      }
    }
  }

  /** Each publish of a session directly follows its RunCallbacks. */
  lemma SessionRunsCallbacksBeforePublish(published: seq<RichPresence>, stopped: bool)
    ensures CallbacksBeforeEachPublish(SessionCalls(published, stopped))
  {
    var trace := SessionCalls(published, stopped);
    forall i | 0 <= i < |trace| && trace[i].UpdatePresence?
      ensures i > 0 && trace[i - 1].RunCallbacks?
    {
      SessionCallAt(published, stopped, i);
      SessionCallAt(published, stopped, i - 1);
    }
  }

  /** A stopped session ends with its one Shutdown, after the last publish; a
      running one has not shut down. */
  lemma SessionShutsDownOnceAtEnd(published: seq<RichPresence>, stopped: bool)
    ensures ShutdownOnceAtEnd(SessionCalls(published, stopped), stopped)
  {
    var trace := SessionCalls(published, stopped);
    forall i | 0 < i <= 2 * |published|
      ensures !trace[i].Shutdown?
    {
      SessionCallAt(published, stopped, i);
    }
  }

  /** A session whose records are all publishable publishes nothing else. */
  lemma SessionPublishesWellFormed(published: seq<RichPresence>, stopped: bool, epoch: int)
    requires forall k :: 0 <= k < |published| ==> Publishable(published[k], epoch)
    ensures PublishesWellFormed(SessionCalls(published, stopped), epoch)
  {
    var trace := SessionCalls(published, stopped);
    forall i | 0 <= i < |trace| && trace[i].UpdatePresence?
      ensures Publishable(trace[i].presence, epoch)
    {
      SessionCallAt(published, stopped, i);
    }
  }

  /** `published` holds, record by record, what Presence derives from the
      snapshots `hosts` in a session started at `epoch`. */
  ghost predicate PublishedFrom(published: seq<RichPresence>, hosts: seq<Snapshot>, epoch: int) {
    |published| == |hosts| &&
    forall k {:trigger Presence(hosts[k], epoch)} :: 0 <= k < |hosts| ==> published[k] == Presence(hosts[k], epoch)
  }

  /** A cycle on one more snapshot publishes that snapshot's record. */
  lemma PublishedFromGrow(published: seq<RichPresence>, hosts: seq<Snapshot>, host: Snapshot, epoch: int)
    requires PublishedFrom(published, hosts, epoch)
    ensures PublishedFrom(published + [Presence(host, epoch)], hosts + [host], epoch)
  {
    var more := published + [Presence(host, epoch)];
    forall k | 0 <= k < |hosts|
      ensures more[k] == Presence(hosts[k], epoch)
    {
      assert more[k] == published[k];
    }
  }

  /** A stopped session whose records Presence derived from the snapshots
      `hosts`: initialized once and first, callbacks before each publish, one
      Shutdown at the end, and only publishable records. */
  lemma StoppedSessionIsWellFormed(published: seq<RichPresence>, hosts: seq<Snapshot>, epoch: int)
    requires PublishedFrom(published, hosts, epoch)
    ensures var trace := SessionCalls(published, true);
      InitializedFirst(trace) && CallbacksBeforeEachPublish(trace) &&
      ShutdownOnceAtEnd(trace, true) && PublishesWellFormed(trace, epoch)
  {
    SessionInitializesFirst(published, true);
    SessionRunsCallbacksBeforePublish(published, true);
    SessionShutsDownOnceAtEnd(published, true);
    forall k | 0 <= k < |published|
      ensures Publishable(published[k], epoch)
    {
      assert published[k] == Presence(hosts[k], epoch);
    }
    SessionPublishesWellFormed(published, true, epoch);
  }

  /** What the IDE thread does before the update thread tests the close flag
      for the k-th time (k = 0, 1, ...): whether QueryClose has been called by
      then, and the snapshot the k-th cycle will sample if it runs. */
  datatype Tick = Tick(closeRequested: bool, host: Snapshot)

  /** The number of cycles the loop runs under `ticks`: the index of the first
      tick with a close request (|ticks| when there is none). */
  function CyclesRun(ticks: seq<Tick>): (n: nat)
    ensures n <= |ticks|
    ensures forall i :: 0 <= i < n ==> !ticks[i].closeRequested
    ensures n < |ticks| ==> ticks[n].closeRequested
  {
    if ticks == [] || ticks[0].closeRequested then 0
    else 1 + CyclesRun(ticks[1..])
  }

  /** The snapshots of the first `n` ticks, in order: what n cycles sample. */
  function SampledUpTo(ticks: seq<Tick>, n: nat): (sampled: seq<Snapshot>)
    requires n <= |ticks|
    ensures |sampled| == n
    ensures forall i :: 0 <= i < n ==> sampled[i] == ticks[i].host
  {
    if n == 0 then [] else SampledUpTo(ticks, n - 1) + [ticks[n - 1].host]
  }

  /** The snapshots the loop samples under `ticks`. */
  function Sampled(ticks: seq<Tick>): (sampled: seq<Snapshot>)
    ensures |sampled| == CyclesRun(ticks)
    ensures forall i :: 0 <= i < |sampled| ==> sampled[i] == ticks[i].host
  {
    SampledUpTo(ticks, CyclesRun(ticks))
  }

  /** Requesting close again, at or after the first request, changes nothing:
      QueryClose is idempotent. */
  lemma RepeatedCloseRequestIsIgnored(ticks: seq<Tick>, j: nat)
    requires CyclesRun(ticks) <= j < |ticks|
    ensures var again := ticks[j := ticks[j].(closeRequested := true)];
      CyclesRun(again) == CyclesRun(ticks) && Sampled(again) == Sampled(ticks)
  {
    var again := ticks[j := ticks[j].(closeRequested := true)];
    var n := CyclesRun(ticks);
    assert ticks[n].closeRequested;
    assert again[n].closeRequested;
  }

  class RpcPackage {
    /** Raised by QueryClose, read by the update loop once per cycle. */
    var close: bool
    /** The unix time the session started at; written once, by Start. */
    var epoch: int
    /** The record the cycles rewrite and publish. */
    var rpc: RichPresence
    /** Where the update thread is: before, in or after its loop. */
    ghost var phase: Phase
    /** The snapshots the cycles have sampled so far, in order. */
    ghost var hosts: seq<Snapshot>
    /** The records published so far, in order. */
    ghost var published: seq<RichPresence>
    /** The calls made into the Discord client so far. */
    ghost var trace: seq<Call>

    ghost predicate Valid()
      reads this`epoch, this`rpc, this`phase, this`hosts, this`published, this`trace
    {
      (phase == Created ==> trace == [] && hosts == []) &&
      (phase != Created ==> trace == SessionCalls(published, phase == Stopped)) &&
      PublishedFrom(published, hosts, epoch) &&
      (published != [] ==> rpc == published[|published| - 1])
    }

    /** The package constructor: the flag is down and the update thread has
        not made any call yet. */
    constructor ()
      ensures Valid() && phase == Created && !close && trace == []
    {
      close := false;
      epoch := 0;
      rpc := Blank;
      phase := Created;
      hosts := [];
      published := [];
      trace := [];
    }

    /** QueryClose: raise the close flag; nothing else changes, so a second
        call has no further effect. */
    method QueryClose()
      modifies this`close
      ensures close
    {
      close := true;
    }

    /** The update thread before its loop: a blank record, the epoch taken
        from the clock reading `now`, and the client initialized. */
    method Start(now: int)
      requires Valid() && phase == Created
      modifies this`epoch, this`rpc, this`phase, this`trace
      ensures Valid() && phase == Running && epoch == now && rpc == Blank
      ensures hosts == [] && published == [] && trace == [Initialize(ApplicationId, true)]
    {
      rpc := Blank;
      epoch := now;
      trace := trace + [Initialize(ApplicationId, true)];
      phase := Running;
    }

    /** One pass of the update loop, entered after reading the flag down:
        run the callbacks, rebuild the record from `host`, and publish it.
        The new record depends only on `host` and the epoch. */
    method Cycle(host: Snapshot)
      requires Valid() && phase == Running && !close
      modifies this`rpc, this`trace, this`hosts, this`published
      ensures Valid()
      ensures rpc == Presence(host, epoch)
      ensures hosts == old(hosts) + [host] && published == old(published) + [rpc]
      ensures trace == old(trace) + [RunCallbacks, UpdatePresence(rpc)]
    {
      ghost var before := trace;
      trace := trace + [RunCallbacks];
      Refresh(host);
      trace := trace + [UpdatePresence(rpc)];
      assert trace == before + [RunCallbacks, UpdatePresence(rpc)];
      SessionCallsGrow(published, rpc);
      PublishedFromGrow(published, hosts, host, epoch);
      hosts := hosts + [host];
      published := published + [rpc];
    }

    /** The body of a pass between the callbacks and the publish: every field
        of the record is first cleared or overwritten, then filled in from
        `host`.  Reading the active document and computing the icon key may
        throw; the catch keeps whatever was written before the throw. */
    method Refresh(host: Snapshot)
      modifies this`rpc
      ensures rpc == Presence(host, epoch)
    {
      rpc := rpc.(details := "");
      if host.Dte? && host.solution.Some? && host.solution.value.fullName != "" {
        rpc := rpc.(details := "Working on " + FileNameWithoutExtension(host.solution.value.fileName));
      }

      rpc := rpc.(state := "");
      rpc := rpc.(smallImageKey := "");
      if host.Dte? {
        match host.activeDocument
        case NoActiveDocument =>
        case ActiveDocumentThrows =>
          // caught: state and icon stay empty
        case Document(name) =>
          rpc := rpc.(state := "Editing " + name);
          var attempt := IconKey(name);
          match attempt
          case Threw(_) =>
            // caught: the state is already written, the icon stays empty
          case Returned(imgKey) =>
            if Listed(imgKey, KnownNames) {
              rpc := rpc.(smallImageKey := imgKey);
            }
      }

      rpc := rpc.(largeImageKey := LargeImageKey);
      rpc := rpc.(startTimestamp := epoch);
    }

    /** After the loop has read the flag up: shut the client down. */
    method Finish()
      requires Valid() && phase == Running && close
      modifies this`phase, this`trace
      ensures Valid() && phase == Stopped
      ensures trace == old(trace) + [Shutdown]
    {
      SessionCallsStop(published);
      trace := trace + [Shutdown];
      phase := Stopped;
    }

    /** One pass of the update loop under the schedule `ticks`, the i-th
        (counting from 0): a cycle on the snapshot of tick i, after which the
        IDE thread calls QueryClose if tick i + 1 says it has by then. */
    method Pass(ticks: seq<Tick>, i: nat)
      requires i + 1 < |ticks|
      requires Valid() && phase == Running && !close && hosts == SampledUpTo(ticks, i)
      modifies this`close, this`rpc, this`trace, this`hosts, this`published
      ensures Valid() && phase == Running && hosts == SampledUpTo(ticks, i + 1)
      ensures close <==> ticks[i + 1].closeRequested
    {
      Cycle(ticks[i].host);
      if ticks[i + 1].closeRequested {
        QueryClose();
      }
    }

    /** The update loop: while the flag is down, run one cycle on the snapshot
        of the current tick, then let the IDE thread act.  It runs exactly
        CyclesRun(ticks) cycles, the k-th sampling the snapshot of tick k. */
    method UpdateLoop(ticks: seq<Tick>)
      requires Valid() && phase == Running && !close && hosts == []
      requires CyclesRun(ticks) < |ticks|
      modifies this`close, this`rpc, this`trace, this`hosts, this`published
      ensures Valid() && phase == Running && close
      ensures hosts == Sampled(ticks)
    {
      var last := CyclesRun(ticks);
      var i := 0;
      if ticks[0].closeRequested {
        QueryClose();
      }
      while !close
        invariant Valid() && phase == Running
        invariant i <= last && (close <==> i == last)
        invariant hosts == SampledUpTo(ticks, i)
        decreases last - i
      {
        Pass(ticks, i);
        i := i + 1;
      }
    }

    /** RpcUpdate, the body of the update thread, run against the schedule
        `ticks` of close requests and host snapshots (some close request must
        eventually come, or the loop never ends).  It initializes the client,
        publishes one record per tick before the first close request, each
        derived from that tick's snapshot and the fixed epoch, and then shuts
        the client down. */
    method RpcUpdate(now: int, ticks: seq<Tick>)
      requires Valid() && phase == Created && !close
      requires exists k :: 0 <= k < |ticks| && ticks[k].closeRequested
      modifies this
      ensures Valid() && phase == Stopped && close && epoch == now
      ensures hosts == Sampled(ticks) && PublishedFrom(published, hosts, now)
      ensures trace == SessionCalls(published, true)
      ensures InitializedFirst(trace) && CallbacksBeforeEachPublish(trace)
      ensures ShutdownOnceAtEnd(trace, true) && PublishesWellFormed(trace, now)
    {
      Start(now);
      UpdateLoop(ticks);
      Finish();
      StoppedSessionIsWellFormed(published, hosts, now);
    }
  }
}
