/**
 * The presence / auto-lock decision of the face monitor, as pure functions of
 * the previous state and one tick's inputs: the face-detected flag, the tick's
 * timestamp (an abstract integer clock) and whether the OS lock command, if it
 * is run, succeeds.
 */
module Tracker {
  import opened Wrappers

  /** The absence timeout, in clock units (seconds), that the monitor is configured with. */
  const SourceAbsenceTimeout: nat := 10

  /** The three fields of FaceMonitorSystem that the presence logic updates. */
  datatype State = State(userPresent: bool, lastDetection: Option<int>, screenLocked: bool)

  /** The state a freshly constructed monitor starts in. */
  const Initial: State := State(false, None, false)

  /**
   * The invariant every tick keeps: the screen counts as locked only while the
   * user is away, and a present user has been seen at some time.
   */
  predicate Inv(s: State) {
    (s.screenLocked ==> !s.userPresent) && (s.userPresent ==> s.lastDetection.Some?)
  }

  /** Absence is long enough for a lock: some detection happened, and the boundary is inclusive. */
  predicate LockDue(last: Option<int>, now: int, timeout: nat): (due: bool)
    ensures due ==> last.Some?
    ensures last.Some? && now - last.value == timeout ==> due
    ensures last.Some? && now - last.value < timeout ==> !due
  {
    last.Some? && now - last.value >= timeout
  }

  /**
   * The guard as the monitor spells it, `last_detection_time and elapsed >= timeout`:
   * Python's truthiness also rejects a detection stamped exactly 0.
   */
  predicate LockDueAsWritten(last: Option<int>, now: int, timeout: nat): (due: bool)
    ensures due ==> LockDue(last, now, timeout)
    ensures last == Some(0) ==> !due
  {
    last.Some? && last.value != 0 && now - last.value >= timeout
  }

  /** A detection stamped 0 never makes the as-written guard fire, although its timeout does elapse. */
  lemma ZeroStampNeverDue(now: int, timeout: nat)
    ensures !LockDueAsWritten(Some(0), now, timeout)
    ensures now >= timeout ==> LockDue(Some(0), now, timeout)
  {
  }

  /** Away from timestamp 0 the two guards agree. */
  lemma AsWrittenAgreesOffZero(last: Option<int>, now: int, timeout: nat)
    requires last != Some(0)
    ensures LockDueAsWritten(last, now, timeout) == LockDue(last, now, timeout)
  {
  }

  /** What `lock_screen` leaves behind: the new lock flag, and whether the OS command ran. */
  datatype LockResult = LockResult(screenLocked: bool, commandIssued: bool)

  /**
   * The lock guard: the command runs only while the screen is not marked locked,
   * and the mark is set only when the command succeeds.
   */
  function LockScreen(screenLocked: bool, commandSucceeds: bool): (r: LockResult)
    ensures r.commandIssued <==> !screenLocked
    ensures screenLocked ==> r.screenLocked
    ensures !screenLocked ==> (r.screenLocked <==> commandSucceeds)
  {
    if screenLocked then LockResult(true, false)
    else LockResult(commandSucceeds, true)
  }

  /**
   * One tick's result: the new state, whether `lock_screen` was called, and
   * whether it actually ran the OS command.
   */
  datatype Outcome = Outcome(next: State, attempted: bool, commandIssued: bool)

  /** The body of one steady-state tick whose frame was read. */
  function Tick(s: State, faceFound: bool, now: int, timeout: nat, lockSucceeds: bool): (o: Outcome)
    ensures o.next.userPresent == faceFound
    ensures o.next.lastDetection == if faceFound then Some(now) else s.lastDetection
    ensures o.attempted <==> !faceFound && LockDue(s.lastDetection, now, timeout)
    ensures o.commandIssued <==> o.attempted && !s.screenLocked
    ensures faceFound ==> (o.next.screenLocked <==> s.userPresent && s.screenLocked)
    ensures !faceFound ==> (o.next.screenLocked <==> s.screenLocked || (o.commandIssued && lockSucceeds))
    ensures Inv(s) ==> Inv(o.next) && (faceFound ==> !o.next.screenLocked)
  {
    if faceFound then
      var locked := if !s.userPresent then false else s.screenLocked;
      Outcome(State(true, Some(now), locked), false, false)
    else if LockDue(s.lastDetection, now, timeout) then
      var l := LockScreen(s.screenLocked, lockSucceeds);
      Outcome(State(false, s.lastDetection, l.screenLocked), true, l.commandIssued)
    else
      Outcome(State(false, s.lastDetection, s.screenLocked), false, false)
  }

  /**
   * What one pass of the steady-state loop sees: the camera gone (the loop
   * stops), a frame that could not be read (the tick is skipped), or a frame
   * with its detection result, the time it was taken at and the lock
   * command's success should one be run.
   */
  datatype Reading = CameraLost | FrameFailed | Frame(faceFound: bool, now: int, lockSucceeds: bool)

  predicate ShowsFace(r: Reading) {
    r.Frame? && r.faceFound
  }

  /** A stretch of readings with no face in it: one continuous absence episode. */
  predicate NoFace(rs: seq<Reading>) {
    forall i :: 0 <= i < |rs| ==> !ShowsFace(rs[i])
  }

  predicate AllFace(rs: seq<Reading>) {
    forall i :: 0 <= i < |rs| ==> rs[i].Frame? ==> rs[i].faceFound
  }

  predicate NoCameraLoss(rs: seq<Reading>) {
    forall i :: 0 <= i < |rs| ==> !rs[i].CameraLost?
  }

  /** A no-face frame at which a lock for a detection at `t` is due and the command would succeed. */
  predicate LockableAt(r: Reading, t: int, timeout: nat) {
    r.Frame? && !r.faceFound && r.lockSucceeds && r.now - t >= timeout
  }

  /** Final state, OS commands run, successful locks, and whether the loop stopped for lack of a camera. */
  datatype RunResult = RunResult(final: State, commands: nat, locks: nat, cameraLost: bool)

  function Count(b: bool): nat { if b then 1 else 0 }

  /** The steady-state loop over a finite stream of readings; the stream's end is the stop signal. */
  function Run(s: State, rs: seq<Reading>, timeout: nat): (r: RunResult)
    ensures r.cameraLost ==> !NoCameraLoss(rs)
    ensures s.lastDetection.Some? ==> r.final.lastDetection.Some?
    decreases |rs|
  {
    if rs == [] then RunResult(s, 0, 0, false)
    else match rs[0]
      case CameraLost => RunResult(s, 0, 0, true)
      case FrameFailed => Run(s, rs[1..], timeout)
      case Frame(faceFound, now, ok) =>
        var o := Tick(s, faceFound, now, timeout, ok);
        var r := Run(o.next, rs[1..], timeout);
        RunResult(r.final, Count(o.commandIssued) + r.commands,
                  Count(o.commandIssued && ok) + r.locks, r.cameraLost)
  }

  /** Every reachable state satisfies the invariant. */
  lemma {:induction false} RunPreservesInv(s: State, rs: seq<Reading>, timeout: nat)
    requires Inv(s)
    ensures Inv(Run(s, rs, timeout).final)
    decreases |rs|
  {
    if rs != [] {
      match rs[0]
      case CameraLost =>
      case FrameFailed => RunPreservesInv(s, rs[1..], timeout);
      case Frame(f, now, ok) => RunPreservesInv(Tick(s, f, now, timeout, ok).next, rs[1..], timeout);
    }
  }

  /** A lock is counted only when a command was run. */
  lemma {:induction false} LocksNeedCommands(s: State, rs: seq<Reading>, timeout: nat)
    ensures Run(s, rs, timeout).locks <= Run(s, rs, timeout).commands
    decreases |rs|
  {
    if rs != [] {
      match rs[0]
      case CameraLost =>
      case FrameFailed => LocksNeedCommands(s, rs[1..], timeout);
      case Frame(f, now, ok) => LocksNeedCommands(Tick(s, f, now, timeout, ok).next, rs[1..], timeout);
    }
  }

  /** While every frame shows a face, no lock command is ever run. */
  lemma {:induction false} NoLockWhilePresent(s: State, rs: seq<Reading>, timeout: nat)
    requires AllFace(rs)
    ensures Run(s, rs, timeout).commands == 0
    decreases |rs|
  {
    if rs != [] {
      assert AllFace(rs[1..]) by {
        forall i | 0 <= i < |rs[1..]| ensures rs[1..][i].Frame? ==> rs[1..][i].faceFound {
          assert rs[1..][i] == rs[i + 1];
        }
      }
      match rs[0]
      case CameraLost =>
      case FrameFailed => NoLockWhilePresent(s, rs[1..], timeout);
      case Frame(f, now, ok) => NoLockWhilePresent(Tick(s, f, now, timeout, ok).next, rs[1..], timeout);
    }
  }

  lemma NoFaceTail(rs: seq<Reading>)
    requires rs != [] && NoFace(rs)
    ensures NoFace(rs[1..]) && !ShowsFace(rs[0])
  {
    forall i | 0 <= i < |rs[1..]| ensures !ShowsFace(rs[1..][i]) {
      assert rs[1..][i] == rs[i + 1];
    }
  }

  /** Once the screen is marked locked, the rest of the absence episode runs no command at all. */
  lemma {:induction false} LockedStaysSilent(s: State, rs: seq<Reading>, timeout: nat)
    requires s.screenLocked && NoFace(rs)
    ensures Run(s, rs, timeout).commands == 0 && Run(s, rs, timeout).locks == 0
    ensures Run(s, rs, timeout).final.screenLocked
    decreases |rs|
  {
    if rs != [] {
      NoFaceTail(rs);
      match rs[0]
      case CameraLost =>
      case FrameFailed => LockedStaysSilent(s, rs[1..], timeout);
      case Frame(f, now, ok) => LockedStaysSilent(Tick(s, f, now, timeout, ok).next, rs[1..], timeout);
    }
  }

  /** Within one absence episode there is at most one successful lock, and none if the screen is already locked. */
  lemma {:induction false} AtMostOneLockPerAbsence(s: State, rs: seq<Reading>, timeout: nat)
    requires NoFace(rs)
    ensures Run(s, rs, timeout).locks <= Count(!s.screenLocked)
    decreases |rs|
  {
    if rs != [] {
      NoFaceTail(rs);
      match rs[0]
      case CameraLost =>
      case FrameFailed => AtMostOneLockPerAbsence(s, rs[1..], timeout);
      case Frame(f, now, ok) =>
        var o := Tick(s, f, now, timeout, ok);
        if o.next.screenLocked {
          LockedStaysSilent(o.next, rs[1..], timeout);
        } else {
          AtMostOneLockPerAbsence(o.next, rs[1..], timeout);
        }
    }
  }

  /**
   * An absence episode after a detection at `t` that reaches, with the camera
   * still there, a frame at which the lock is due and the command succeeds
   * locks the screen exactly once (or not at all, if it was already locked):
   * a failed command is retried on every later absent tick until one
   * succeeds. Readings after that frame may include a lost camera.
   */
  lemma {:induction false} OneLockPerAbsence(s: State, rs: seq<Reading>, timeout: nat, t: int)
    requires NoFace(rs)
    requires s.lastDetection == Some(t)
    requires exists k :: 0 <= k < |rs| && LockableAt(rs[k], t, timeout) && NoCameraLoss(rs[..k])
    ensures Run(s, rs, timeout).locks == Count(!s.screenLocked)
    ensures Run(s, rs, timeout).final.screenLocked
    decreases |rs|
  {
    var k :| 0 <= k < |rs| && LockableAt(rs[k], t, timeout) && NoCameraLoss(rs[..k]);
    NoFaceTail(rs);
    if k > 0 {
      assert rs[..k][0] == rs[0];
      assert rs[1..][k - 1] == rs[k];
      var before := rs[1..][..k - 1];
      assert NoCameraLoss(before) by {
        forall i | 0 <= i < |before| ensures !before[i].CameraLost? {
          assert before[i] == rs[..k][i + 1];
        }
      }
    }
    assert !rs[0].CameraLost?;
    match rs[0]
    case FrameFailed =>
      OneLockPerAbsence(s, rs[1..], timeout, t);
    case Frame(f, now, ok) =>
      var o := Tick(s, f, now, timeout, ok);
      if o.next.screenLocked {
        LockedStaysSilent(o.next, rs[1..], timeout);
      } else {
        assert k > 0;
        OneLockPerAbsence(o.next, rs[1..], timeout, t);
      }
  }

  /**
   * After the user returns at `t`, a later absence episode that reaches, with
   * the camera still there, a due tick whose command succeeds locks again,
   * whatever the lock flag was before the return.
   */
  lemma RelockAfterReturn(s: State, t: int, ok: bool, rs: seq<Reading>, timeout: nat)
    requires Inv(s)
    requires NoFace(rs)
    requires exists k :: 0 <= k < |rs| && LockableAt(rs[k], t, timeout) && NoCameraLoss(rs[..k])
    ensures Run(s, [Frame(true, t, ok)] + rs, timeout).locks == 1
  {
    var back := Tick(s, true, t, timeout, ok).next;
    assert ([Frame(true, t, ok)] + rs)[1..] == rs;
    OneLockPerAbsence(back, rs, timeout, t);
  }

  /** Running two stretches of readings one after the other is running their concatenation. */
  lemma {:induction false} RunAppend(s: State, a: seq<Reading>, b: seq<Reading>, timeout: nat)
    ensures var ra := Run(s, a, timeout);
      Run(s, a + b, timeout) ==
        if ra.cameraLost then ra
        else
          var rb := Run(ra.final, b, timeout);
          RunResult(rb.final, ra.commands + rb.commands, ra.locks + rb.locks, rb.cameraLost)
    decreases |a|
  {
    if a == [] {
      assert a + b == b;
    } else {
      assert (a + b)[0] == a[0] && (a + b)[1..] == a[1..] + b;
      match a[0]
      case CameraLost =>
      case FrameFailed => RunAppend(s, a[1..], b, timeout);
      case Frame(f, now, ok) => RunAppend(Tick(s, f, now, timeout, ok).next, a[1..], b, timeout);
    }
  }

  /**
   * Before the absence timeout has elapsed since the detection at `t`, an
   * absence episode runs no lock command and leaves the detection time and
   * the lock flag as they were.
   */
  lemma {:induction false} NoLockBeforeTimeout(s: State, rs: seq<Reading>, timeout: nat, t: int)
    requires s.lastDetection == Some(t)
    requires NoFace(rs) && NoCameraLoss(rs)
    requires forall i :: 0 <= i < |rs| ==> rs[i].Frame? ==> rs[i].now - t < timeout
    ensures Run(s, rs, timeout).commands == 0 && !Run(s, rs, timeout).cameraLost
    ensures Run(s, rs, timeout).final.lastDetection == Some(t)
    ensures Run(s, rs, timeout).final.screenLocked == s.screenLocked
    decreases |rs|
  {
    if rs != [] {
      NoFaceTail(rs);
      assert NoCameraLoss(rs[1..]) && forall i :: 0 <= i < |rs[1..]| ==> rs[1..][i].Frame? ==> rs[1..][i].now - t < timeout by {
        forall i | 0 <= i < |rs[1..]| ensures !rs[1..][i].CameraLost? && (rs[1..][i].Frame? ==> rs[1..][i].now - t < timeout) {
          assert rs[1..][i] == rs[i + 1];
        }
      }
      assert !rs[0].CameraLost?;
      match rs[0]
      case FrameFailed => NoLockBeforeTimeout(s, rs[1..], timeout, t);
      case Frame(f, now, ok) => NoLockBeforeTimeout(Tick(s, f, now, timeout, ok).next, rs[1..], timeout, t);
    }
  }

  /** A monitor that has never seen the user never locks while the user stays away. */
  lemma {:induction false} NeverSeenNeverLocks(s: State, rs: seq<Reading>, timeout: nat)
    requires s.lastDetection == None && NoFace(rs)
    ensures Run(s, rs, timeout).commands == 0
    decreases |rs|
  {
    if rs != [] {
      NoFaceTail(rs);
      match rs[0]
      case CameraLost =>
      case FrameFailed => NeverSeenNeverLocks(s, rs[1..], timeout);
      case Frame(f, now, ok) => NeverSeenNeverLocks(Tick(s, f, now, timeout, ok).next, rs[1..], timeout);
    }
  }

  /**
   * The shape of a whole absence episode after a detection at `t`: nothing
   * happens while less than the timeout has elapsed, the first due tick runs
   * the lock command, and once it succeeds the rest of the episode runs none.
   */
  lemma FirstLockAtTimeout(s: State, t: int, pre: seq<Reading>, now: int, post: seq<Reading>, timeout: nat)
    requires s.lastDetection == Some(t) && !s.screenLocked
    requires NoFace(pre) && NoCameraLoss(pre) && NoFace(post)
    requires forall i :: 0 <= i < |pre| ==> pre[i].Frame? ==> pre[i].now - t < timeout
    requires now - t >= timeout
    ensures Run(s, pre, timeout).commands == 0
    ensures Run(s, pre + [Frame(false, now, true)] + post, timeout).commands == 1
    ensures Run(s, pre + [Frame(false, now, true)] + post, timeout).locks == 1
  {
    var x := Frame(false, now, true);
    NoLockBeforeTimeout(s, pre, timeout, t);
    LocksNeedCommands(s, pre, timeout);
    assert pre + [x] + post == pre + ([x] + post);
    RunAppend(s, pre, [x] + post, timeout);
    var mid := Run(s, pre, timeout).final;
    assert ([x] + post)[0] == x && ([x] + post)[1..] == post;
    var o := Tick(mid, false, now, timeout, true);
    LockedStaysSilent(o.next, post, timeout);
    assert Run(mid, [x] + post, timeout).locks == 1 + Run(o.next, post, timeout).locks;
  }

  /**
   * A lock command that fails leaves the flag clear, so the next absent tick
   * at a time no earlier runs the command again.
   */
  lemma RetryAfterFailedLock(s: State, now: int, later: int, ok: bool, timeout: nat)
    requires !s.screenLocked && LockDue(s.lastDetection, now, timeout) && later >= now
    ensures Tick(s, false, now, timeout, false).commandIssued
    ensures !Tick(s, false, now, timeout, false).next.screenLocked
    ensures Tick(Tick(s, false, now, timeout, false).next, false, later, timeout, ok).commandIssued
  {
  }

  /** The readings without the skipped ticks. */
  function DropFailed(rs: seq<Reading>): (r: seq<Reading>)
    ensures |r| <= |rs|
  {
    if rs == [] then []
    else if rs[0].FrameFailed? then DropFailed(rs[1..])
    else [rs[0]] + DropFailed(rs[1..])
  }

  /** Ticks whose frame read failed leave the state and the lock decisions untouched. */
  lemma {:induction false} FrameFailuresIgnored(s: State, rs: seq<Reading>, timeout: nat)
    ensures Run(s, DropFailed(rs), timeout) == Run(s, rs, timeout)
    decreases |rs|
  {
    if rs != [] {
      if rs[0].FrameFailed? {
        FrameFailuresIgnored(s, rs[1..], timeout);
      } else {
        var d := [rs[0]] + DropFailed(rs[1..]);
        assert d[0] == rs[0] && d[1..] == DropFailed(rs[1..]);
        match rs[0]
        case CameraLost =>
        case Frame(f, now, ok) => FrameFailuresIgnored(Tick(s, f, now, timeout, ok).next, rs[1..], timeout);
      }
    }
  }
}
