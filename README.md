# Face monitor presence / auto-lock model

A Dafny model of the presence state machine of `FaceMonitorSystem`, a watchdog that
watches a camera and locks the Windows screen once the user has been away for the
absence timeout. The model covers three parts:

- the per-tick presence update of the steady-state loop (`monitor_user_presence`);
- the lock guard (`lock_screen`);
- the initial-detection phase (`wait_for_initial_detection`).

It proves what these parts promise:

- a lock happens only after the timeout, and the boundary is inclusive;
- each continuous absence episode locks the screen at most once, and exactly once when it reaches a due tick
  whose lock command succeeds (it may lock zero times: it ends before the timeout, nobody was ever seen, the
  screen was already locked, or every command failed);
- a failed lock command is retried;
- only a detected return re-arms the lock;
- unreadable frames change nothing;
- the initial phase succeeds exactly on the first face seen inside its window.

Layout:

- `wrappers.dfy` (module `Wrappers`): the `Option` type standing for Python's `None`.
- `tracker.dfy` (module `Tracker`): the presence state as a value. It holds the tick
  as a function (`Tick`), the lock guard (`LockScreen`) and the steady-state loop over
  a finite stream of readings (`Run`), with the lemmas about them.
- `initial_detection.dfy` (module `InitialDetection`): the polling loop of the initial
  phase as a function (`Scan`) over a finite stream of polls, with its lemmas.
- `face_monitor.dfy` (module `FaceMonitor`): the class `FaceMonitorSystem`. It has the
  fields `userPresent`, `lastDetection`, `screenLocked` and the two timeouts, and
  imperative methods that update those fields in place. Each method is proved equal
  to the functions above.

The model's inputs are abstract:

- the detector's answer is a boolean;
- the clock is an integer;
- a frame read succeeds or fails;
- the camera is open or not;
- the OS lock command succeeds or fails.

The end of the readings stream stands for `is_running` becoming false. The absence
timeout is a constructor parameter. `Default()` uses the values the program sets:
10 for the absence timeout and 60 for initialization. The code's comment calls the
absence timeout one minute; the model follows the code's value of 10.

A supervisor restart in `run` calls `monitor_user_presence` again on the same
object. In the model that is another `MonitorUserPresence` call on the same
`FaceMonitorSystem`, so the presence state carries over, as it does in the program.

## Model

| member | source | states |
|---|---|---|
| `Tracker.LockDue` | face_monitor.py:153-154 | The absence guard the model uses: it fires only when a detection exists. It fires when elapsed equals the timeout (inclusive boundary), and not while less than the timeout has elapsed. |
| `Tracker.LockDueAsWritten` | face_monitor.py:153-154 | The guard with Python's truthiness: it fires only when the model's guard does, and never for a detection stamped 0. |
| `Tracker.Tick` | face_monitor.py:136-157 | A face tick marks the user present and stamps the detection with the tick's time. It clears the lock flag only if the user was away, and never tries to lock. A no-face tick marks the user away and keeps the detection time. It calls the lock exactly when a detection exists and elapsed >= timeout (inclusive). The OS command runs exactly when that call finds the flag clear. The flag becomes set only by a successful command. Each tick keeps the invariant (locked implies away; present implies seen). |
| `Tracker.LockScreen` | face_monitor.py:76-91 | The command runs exactly when the screen is not marked locked. The mark is set only when the command succeeds, and a failure leaves it clear. |
| `Tracker.Run` | face_monitor.py:124-164 | The steady-state loop over a finite stream of readings: it stops early only when a reading reports the camera lost, and once a detection is recorded it is never forgotten. Its per-tick behaviour is `Tracker.Tick`; the lemmas below state what whole episodes do. |
| `Tracker.RunPreservesInv` | face_monitor.py:139-150 | Every state the steady-state loop reaches satisfies the invariant. |
| `Tracker.LocksNeedCommands` | face_monitor.py:79-86 | Successful locks never outnumber the OS commands run. |
| `Tracker.NoLockWhilePresent` | face_monitor.py:139-145 | While every frame shows a face, no lock command is run. |
| `Tracker.LockedStaysSilent` | face_monitor.py:79 | Once the screen is locked, the rest of an absence episode runs no command and the screen stays locked. |
| `Tracker.AtMostOneLockPerAbsence` | face_monitor.py:147-157 | An absence episode has at most one successful lock, and none if the screen was already locked. |
| `Tracker.OneLockPerAbsence` | face_monitor.py:147-157 | An absence episode that reaches, with no camera loss before it, a due tick whose command succeeds locks exactly once, or not at all if already locked, and ends locked. Earlier failed commands count for nothing, and a lost camera after that tick changes nothing. |
| `Tracker.RelockAfterReturn` | face_monitor.py:139-145 | From any state satisfying the invariant, after a detected return at t, an absence episode that reaches, with no camera loss before it, a due tick (elapsed since t >= timeout) whose command succeeds locks exactly once, whatever the flag was before. |
| `Tracker.RunAppend` | face_monitor.py:124-164 | Running two stretches of readings in turn equals running their concatenation, and camera loss stops the loop. |
| `Tracker.NoLockBeforeTimeout` | face_monitor.py:152-157 | While less than the timeout has elapsed since the last detection, an absence episode runs no command. It keeps the detection time and the lock flag. |
| `Tracker.NeverSeenNeverLocks` | face_monitor.py:153 | With no detection ever recorded, no absence locks the screen. |
| `Tracker.FirstLockAtTimeout` | face_monitor.py:147-157 | In an absence episode that starts unlocked, after a detection at t, ticks before the timeout run no command. If the first due tick's command succeeds, the episode runs exactly one command and locks once; no tick after it runs another. |
| `Tracker.RetryAfterFailedLock` | face_monitor.py:79-91 | A due tick whose command fails leaves the flag clear. The next absent tick, at a time no earlier, runs the command again. |
| `Tracker.FrameFailuresIgnored` | face_monitor.py:130-134 | Dropping the ticks whose frame read failed changes no state, no count and no outcome. |
| `Tracker.ZeroStampNeverDue` | face_monitor.py:153-154 | As written, the guard never fires for a detection stamped 0, even though the timeout has elapsed for it. |
| `Tracker.AsWrittenAgreesOffZero` | face_monitor.py:153-154 | Away from timestamp 0, the guard as written and the model's guard agree. |
| `InitialDetection.Scan` | face_monitor.py:93-118 | A detection always lies strictly inside the window. If the first poll is inside the window with the camera closed, the phase fails with CameraUnavailable. If the first poll is at or past the deadline, the phase fails with TimedOut. |
| `InitialDetection.CameraLossEndsPhase` | face_monitor.py:98-101 | The camera closing on any poll inside the window, after every earlier poll went round the loop again, ends the phase with CameraUnavailable, whatever the later polls hold. |
| `InitialDetection.DetectedIff` | face_monitor.py:98-113 | The phase succeeds at t exactly when some poll inside the window, with the camera open, sees a face at t, and every earlier poll went round the loop again. |
| `InitialDetection.DecidedByDeadline` | face_monitor.py:98-118 | Once a poll reaches the deadline, the outcome is decided: no later poll matters, and the phase is not left waiting. |
| `InitialDetection.TimesOutWithoutFace` | face_monitor.py:98-118 | With the camera open and no face before the deadline, the phase ends with TimedOut. |
| `FaceMonitor.FaceMonitorSystem.constructor` | face_monitor.py:27-36 | A new monitor has nobody present, no detection, an unlocked screen and the given timeouts. |
| `FaceMonitor.FaceMonitorSystem.Default` | face_monitor.py:27-36 | The program's monitor: absence timeout 10, initialization timeout 60. |
| `FaceMonitor.FaceMonitorSystem.LockScreen` | face_monitor.py:76-91 | Updates the lock flag in place exactly as `Tracker.LockScreen` and reports whether the command ran. It keeps the invariant when called while the user is away, the only way `Tick` calls it. |
| `FaceMonitor.FaceMonitorSystem.Tick` | face_monitor.py:136-157 | Updates the three fields in place to `Tracker.Tick`'s next state, reports the lock attempt and the command, and keeps the invariant. |
| `FaceMonitor.FaceMonitorSystem.MonitorUserPresence` | face_monitor.py:120-164 | The loop leaves the fields as `Tracker.Run` does. It returns Run's command count, success count and camera-loss flag, and keeps the invariant. |
| `FaceMonitor.FaceMonitorSystem.WaitForInitialDetection` | face_monitor.py:93-118 | Returns `InitialDetection.Scan`'s outcome. On success the user is present and seen at the detecting poll's time. Otherwise nothing changes. |

## Findings

| source | as written | input that shows it | evidently intended | confidence | as-written member | corrected member |
|---|---|---|---|---|---|---|
| face_monitor.py:153-154 | `self.last_detection_time and …` tests the timestamp's truthiness, so a detection stamped 0 counts as none | detection at time 0, then absent ticks at any time >= absence timeout: no lock is ever attempted | test only that a detection exists (`is not None`) | low; not executed; a wall clock measured from the epoch never reads 0, but any clock that starts at 0 does | `Tracker.ZeroStampNeverDue` | `Tracker.OneLockPerAbsence` |

The rest of the model uses the corrected guard `Tracker.LockDue`.

## Left out

- Face detection (`detect_face`, face_monitor.py:60-74): an external OpenCV cascade call. It is the boolean `faceFound`. An exception inside it yields "no face", and the boolean can express that.
- Camera handling (`initialize_camera`, `camera.read`, `release`, `cleanup`, face_monitor.py:38-58, 214-224): device I/O. It is the `CameraLost`/`FrameFailed` readings and the `cameraOpen`/`frameOk` flags of a poll. `wait_for_initial_detection` has no handler of its own, so an exception from `camera.isOpened()` or `camera.read()` (face_monitor.py:99, 103) ends the run through `run`'s handler (face_monitor.py:205-207). The model treats it as a poll with `cameraOpen` false, which has the same outcome: the phase fails at once and the state is unchanged.
- The PowerShell lock command (face_monitor.py:81-85): a foreign OS call. It is the `lockSucceeds` input. Both caught exception kinds leave the flag clear.
- The catch-all handler of the steady-state loop (face_monitor.py:162-164): `detect_face` and `lock_screen` catch their own errors, so an exception there comes from the camera before any field changes. The model folds it into `FrameFailed`.
- The monitoring thread, the liveness-poll restart loop in `run`, `stop` and `is_running` (face_monitor.py:166-212, 226-228): concurrency. Ticks are a sequential stream, and the stream's end is the stop signal.
- `time.sleep` back-offs and float `time.time()` stamps: timing only. Timestamps are integers.
- The log messages, including the "user returned" and "user absent" events: output only.
- `WaitForInitialDetection`: the program reads the clock once for the loop test (line 98) and again for the detection stamp (line 111). The model uses one clock reading per poll for both.
- `InitialDetection.Scan`: the program's loop polls until it decides. The model's finite stream of polls can end first, giving the extra outcome `PollsExhausted`. `DecidedByDeadline` shows that this cannot happen once a poll reaches the deadline.
- `setup_windows_startup`, `main`'s argument handling and exit codes, and the logging setup (face_monitor.py:17-24, 231-286): OS plumbing and I/O.
