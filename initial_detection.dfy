/**
 * The initial-detection phase: poll the camera until a face is seen, the
 * camera disappears, or the initialization window closes.
 */
module InitialDetection {

  /** The initialization window, in clock units (seconds), that the monitor is configured with. */
  const SourceInitializationTimeout: nat := 60

  /**
   * One pass of the polling loop: the clock reading, whether the camera is
   * still open, whether a frame was read, and whether that frame shows a face.
   */
  datatype Poll = Poll(now: int, cameraOpen: bool, frameOk: bool, faceFound: bool)

  /**
   * How the phase ends. `PollsExhausted` means the finite stream of polls
   * ended before any of the other three happened.
   */
  datatype InitOutcome = Detected(at: int) | CameraUnavailable | TimedOut | PollsExhausted

  /** The loop condition: the window is open while strictly less than `timeout` has elapsed. */
  predicate InWindow(p: Poll, start: int, timeout: nat) {
    p.now - start < timeout
  }

  predicate SeesFace(p: Poll) {
    p.frameOk && p.faceFound
  }

  /** A poll after which the loop goes round again. */
  predicate Continues(p: Poll, start: int, timeout: nat) {
    InWindow(p, start, timeout) && p.cameraOpen && !SeesFace(p)
  }

  /** The polling loop over a finite stream of polls. */
  function Scan(polls: seq<Poll>, start: int, timeout: nat): (r: InitOutcome)
    ensures r.Detected? ==> r.at - start < timeout
    ensures polls != [] && InWindow(polls[0], start, timeout) && !polls[0].cameraOpen ==> r == CameraUnavailable
    ensures polls != [] && !InWindow(polls[0], start, timeout) ==> r == TimedOut
    decreases |polls|
  {
    if polls == [] then PollsExhausted
    else
      var p := polls[0];
      if !InWindow(p, start, timeout) then TimedOut
      else if !p.cameraOpen then CameraUnavailable
      else if SeesFace(p) then Detected(p.now)
      else Scan(polls[1..], start, timeout)
  }

  /**
   * The phase succeeds at time `t` exactly when some poll inside the window,
   * with the camera open, sees a face at `t`, and every poll before it went
   * round the loop again.
   */
  lemma {:induction false} DetectedIff(polls: seq<Poll>, start: int, timeout: nat, t: int)
    ensures Scan(polls, start, timeout) == Detected(t) <==>
      exists k :: 0 <= k < |polls| && polls[k].now == t && InWindow(polls[k], start, timeout) &&
        polls[k].cameraOpen && SeesFace(polls[k]) &&
        forall j :: 0 <= j < k ==> Continues(polls[j], start, timeout)
    decreases |polls|
  {
    if polls != [] {
      DetectedIff(polls[1..], start, timeout, t);
      if Scan(polls, start, timeout) == Detected(t) && !SeesFace(polls[0]) {
        var k' :| 0 <= k' < |polls[1..]| && polls[1..][k'].now == t && InWindow(polls[1..][k'], start, timeout) &&
          polls[1..][k'].cameraOpen && SeesFace(polls[1..][k']) &&
          forall j :: 0 <= j < k' ==> Continues(polls[1..][j], start, timeout);
        assert forall j :: 0 <= j < k' + 1 ==> Continues(polls[j], start, timeout) by {
          forall j | 0 <= j < k' + 1 ensures Continues(polls[j], start, timeout) {
            if j > 0 { assert polls[j] == polls[1..][j - 1]; }
          }
        }
        assert polls[k' + 1] == polls[1..][k'];
      }
      if exists k :: 0 <= k < |polls| && polls[k].now == t && InWindow(polls[k], start, timeout) &&
          polls[k].cameraOpen && SeesFace(polls[k]) &&
          forall j :: 0 <= j < k ==> Continues(polls[j], start, timeout) {
        var k :| 0 <= k < |polls| && polls[k].now == t && InWindow(polls[k], start, timeout) &&
          polls[k].cameraOpen && SeesFace(polls[k]) &&
          forall j :: 0 <= j < k ==> Continues(polls[j], start, timeout);
        if k > 0 {
          assert Continues(polls[0], start, timeout);
          assert polls[1..][k - 1] == polls[k];
          assert forall j :: 0 <= j < k - 1 ==> Continues(polls[1..][j], start, timeout) by {
            forall j | 0 <= j < k - 1 ensures Continues(polls[1..][j], start, timeout) {
              assert polls[1..][j] == polls[j + 1];
            }
          }
        }
      }
    }
  }

  /**
   * Once a poll reaches the end of the window the phase has decided: it does
   * not depend on any later poll, and it is not left waiting.
   */
  lemma {:induction false} DecidedByDeadline(polls: seq<Poll>, start: int, timeout: nat, k: nat)
    requires k < |polls| && !InWindow(polls[k], start, timeout)
    ensures Scan(polls, start, timeout) == Scan(polls[..k + 1], start, timeout)
    ensures Scan(polls, start, timeout) != PollsExhausted
    decreases k
  {
    if k > 0 {
      assert polls[1..][k - 1] == polls[k];
      assert polls[..k + 1][1..] == polls[1..][..k];
      DecidedByDeadline(polls[1..], start, timeout, k - 1);
    }
  }

  /**
   * With the camera open and no face in any poll inside the window, the phase
   * fails by timeout as soon as a poll lies at or past the deadline.
   */
  lemma {:induction false} TimesOutWithoutFace(polls: seq<Poll>, start: int, timeout: nat, k: nat)
    requires k < |polls| && !InWindow(polls[k], start, timeout)
    requires forall j :: 0 <= j < k ==> polls[j].cameraOpen && !SeesFace(polls[j])
    ensures Scan(polls, start, timeout) == TimedOut
    decreases k
  {
    if k > 0 && InWindow(polls[0], start, timeout) {
      assert polls[1..][k - 1] == polls[k];
      assert forall j :: 0 <= j < k - 1 ==> polls[1..][j].cameraOpen && !SeesFace(polls[1..][j]) by {
        forall j | 0 <= j < k - 1 ensures polls[1..][j].cameraOpen && !SeesFace(polls[1..][j]) {
          assert polls[1..][j] == polls[j + 1];
        }
      }
      TimesOutWithoutFace(polls[1..], start, timeout, k - 1);
    }
  }

  /**
   * The camera closing on any poll inside the window, after every earlier
   * poll went round the loop again, ends the phase at once with
   * CameraUnavailable, whatever later polls hold.
   */
  lemma {:induction false} CameraLossEndsPhase(polls: seq<Poll>, start: int, timeout: nat, k: nat)
    requires k < |polls| && InWindow(polls[k], start, timeout) && !polls[k].cameraOpen
    requires forall j :: 0 <= j < k ==> Continues(polls[j], start, timeout)
    ensures Scan(polls, start, timeout) == CameraUnavailable
    decreases k
  {
    if k > 0 {
      assert Continues(polls[0], start, timeout);
      assert polls[1..][k - 1] == polls[k];
      assert forall j :: 0 <= j < k - 1 ==> Continues(polls[1..][j], start, timeout) by {
        forall j | 0 <= j < k - 1 ensures Continues(polls[1..][j], start, timeout) {
          assert polls[1..][j] == polls[j + 1];
        }
      }
      CameraLossEndsPhase(polls[1..], start, timeout, k - 1);
    }
  }
}
