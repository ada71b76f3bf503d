/**
 * The monitor object: the fields the presence logic updates in place, and
 * the methods that update them, each proved against the functions of
 * Tracker and InitialDetection.
 */
module FaceMonitor {
  import opened Wrappers
  import Tracker
  import InitialDetection

  class FaceMonitorSystem {
    var userPresent: bool
    var lastDetection: Option<int>
    var screenLocked: bool
    const absenceTimeout: nat
    const initializationTimeout: nat

    /** The presence fields as one value. */
    function State(): Tracker.State
      reads this
    {
      Tracker.State(userPresent, lastDetection, screenLocked)
    }

    ghost predicate Valid()
      reads this
    {
      Tracker.Inv(State())
    }

    /** A monitor with the given timeouts, nobody seen yet and the screen not locked. */
    constructor (absenceTimeout: nat, initializationTimeout: nat)
      ensures Valid() && State() == Tracker.Initial
      ensures this.absenceTimeout == absenceTimeout && this.initializationTimeout == initializationTimeout
    {
      this.absenceTimeout := absenceTimeout;
      this.initializationTimeout := initializationTimeout;
      userPresent := false;
      lastDetection := None;
      screenLocked := false;
    }

    /** The monitor as the program builds it: ten seconds of absence, sixty of initialization. */
    constructor Default()
      ensures Valid() && State() == Tracker.Initial
      ensures absenceTimeout == Tracker.SourceAbsenceTimeout
      ensures initializationTimeout == InitialDetection.SourceInitializationTimeout
    {
      absenceTimeout := Tracker.SourceAbsenceTimeout;
      initializationTimeout := InitialDetection.SourceInitializationTimeout;
      userPresent := false;
      lastDetection := None;
      screenLocked := false;
    }

    /**
     * Run the OS lock command unless the screen is already marked locked;
     * `commandSucceeds` stands for the command's result.
     */
    method LockScreen(commandSucceeds: bool) returns (commandIssued: bool)
      modifies this`screenLocked
      ensures Tracker.LockScreen(old(screenLocked), commandSucceeds) == Tracker.LockResult(screenLocked, commandIssued)
      ensures old(Valid()) && !userPresent ==> Valid()
    {
      commandIssued := false;
      if !screenLocked {
        commandIssued := true;
        if commandSucceeds {
          screenLocked := true;
        }
      }
    }

    /** One steady-state tick whose frame was read and checked for a face. */
    method Tick(faceFound: bool, now: int, lockSucceeds: bool) returns (attempted: bool, commandIssued: bool)
      modifies this
      ensures Tracker.Tick(old(State()), faceFound, now, absenceTimeout, lockSucceeds)
        == Tracker.Outcome(State(), attempted, commandIssued)
      ensures old(Valid()) ==> Valid()
    {
      attempted, commandIssued := false, false;
      if faceFound {
        if !userPresent {
          screenLocked := false;
        }
        userPresent := true;
        lastDetection := Some(now);
      } else {
        if userPresent {
          userPresent := false;
        }
        if Tracker.LockDue(lastDetection, now, absenceTimeout) {
          attempted := true;
          commandIssued := LockScreen(lockSucceeds);
        }
      }
    }

    /**
     * The steady-state loop over a stream of readings: it stops when the
     * camera is lost or the stream ends, skips unreadable frames, and counts
     * the lock commands it runs and those that succeed.
     */
    method MonitorUserPresence(readings: seq<Tracker.Reading>) returns (commands: nat, locks: nat, cameraLost: bool)
      modifies this
      ensures Tracker.Run(old(State()), readings, absenceTimeout)
        == Tracker.RunResult(State(), commands, locks, cameraLost)
      ensures old(Valid()) ==> Valid()
    {
      commands, locks, cameraLost := 0, 0, false;
      var i := 0;
      while i < |readings| && !cameraLost
        invariant 0 <= i <= |readings|
        invariant old(Valid()) ==> Valid()
        invariant cameraLost ==>
          Tracker.Run(old(State()), readings, absenceTimeout) == Tracker.RunResult(State(), commands, locks, true)
        invariant !cameraLost ==>
          var r := Tracker.Run(State(), readings[i..], absenceTimeout);
          Tracker.Run(old(State()), readings, absenceTimeout)
            == Tracker.RunResult(r.final, commands + r.commands, locks + r.locks, r.cameraLost)
      {
        assert readings[i..][1..] == readings[i + 1..];
        match readings[i] {
          case CameraLost =>
            cameraLost := true;
          case FrameFailed =>
          case Frame(faceFound, now, ok) =>
            var attempted, issued := Tick(faceFound, now, ok);
            if issued {
              commands := commands + 1;
              if ok {
                locks := locks + 1;
              }
            }
        }
        i := i + 1;
      }
      if !cameraLost {
        assert readings[i..] == [];
      }
    }

    /**
     * The initial-detection phase, started at clock reading `start`: on the
     * first face inside the window the user is marked present and seen at
     * that poll's time; on any other ending nothing changes.
     */
    method WaitForInitialDetection(start: int, polls: seq<InitialDetection.Poll>) returns (outcome: InitialDetection.InitOutcome)
      modifies this
      ensures outcome == InitialDetection.Scan(polls, start, initializationTimeout)
      ensures outcome.Detected? ==>
        userPresent && lastDetection == Some(outcome.at) && screenLocked == old(screenLocked)
      ensures !outcome.Detected? ==> State() == old(State())
      ensures old(Valid()) && !old(screenLocked) ==> Valid()
    {
      var i := 0;
      outcome := InitialDetection.PollsExhausted;
      while i < |polls|
        invariant 0 <= i <= |polls|
        invariant State() == old(State())
        invariant InitialDetection.Scan(polls, start, initializationTimeout)
          == InitialDetection.Scan(polls[i..], start, initializationTimeout)
      {
        var p := polls[i];
        assert polls[i..][1..] == polls[i + 1..];
        if !(p.now - start < initializationTimeout) {
          outcome := InitialDetection.TimedOut;
          return;
        }
        if !p.cameraOpen {
          outcome := InitialDetection.CameraUnavailable;
          return;
        }
        if p.frameOk && p.faceFound {
          userPresent := true;
          lastDetection := Some(p.now);
          outcome := InitialDetection.Detected(p.now);
          return;
        }
        i := i + 1;
      }
      assert polls[i..] == [];
    }
  }
}
