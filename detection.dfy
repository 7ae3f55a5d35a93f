/** The polling loop of `detectScreenChanges` (SlackNotify.java:122-164): a baseline taken
    from the first capture, a previous frame replaced on every confirmed change, and one
    decision per tick. */
module Detection {
  import opened Bitmaps
  import Notifier

  /** The two frames the loop keeps between ticks. */
  datatype Frames = Frames(baseline: Image, previous: Image)

  /** The state right after the first capture: it is both the baseline and the previous
      frame, so a tick that shows that same picture again confirms no change. */
  function Start(first: Image): (s: Frames)
    ensures s.baseline == first && s.previous == s.baseline
    ensures !IsChange(s, first)
  {
    MatchesReflexive(first);
    Frames(first, first)
  }

  /** A tick confirms a change when the current frame equals neither the previous frame
      nor the baseline. For frames of one size that is: the current bitmap is a different
      bitmap from both. */
  ghost predicate IsChange(s: Frames, current: Image): (changed: bool)
    ensures changed ==> current != s.previous && current != s.baseline
    ensures SameSize(current, s.previous) && SameSize(current, s.baseline) ==>
      (changed <==> current != s.previous && current != s.baseline)
  {
    MatchesReflexive(current);
    MatchesIsEquality(current, s.previous);
    MatchesIsEquality(current, s.baseline);
    !Matches(current, s.previous) && !Matches(current, s.baseline)
  }

  /** The state after one tick: a confirmed change replaces the previous frame. The
      baseline stays, and a second tick with the same frame confirms no change. */
  ghost function Next(s: Frames, current: Image): (t: Frames)
    ensures t.baseline == s.baseline
    ensures t.previous == current || t.previous == s.previous
    ensures !IsChange(t, current)
  {
    MatchesReflexive(current);
    if IsChange(s, current) then s.(previous := current) else s
  }

  /** Whether each tick of a run over `frames` sends a notification. */
  ghost function Notifications(s: Frames, frames: seq<Image>): (fired: seq<bool>)
    ensures |fired| == |frames|
    decreases |frames|
  {
    if frames == [] then [] else [IsChange(s, frames[0])] + Notifications(Next(s, frames[0]), frames[1..])
  }

  /** The state after a run over `frames`: the baseline is never replaced, and the
      previous frame is the initial one or one of the captures. */
  ghost function After(s: Frames, frames: seq<Image>): (t: Frames)
    ensures t.baseline == s.baseline
    ensures t.previous == s.previous || t.previous in frames
    decreases |frames|
  {
    if frames == [] then s else After(Next(s, frames[0]), frames[1..])
  }

  /** Unfolds the run functions for a run of one tick; a helper for the proofs below
      and for `Watcher.Poll`. */
  lemma TickDecision(s: Frames, current: Image)
    ensures Notifications(s, [current]) == [IsChange(s, current)]
    ensures After(s, [current]) == Next(s, current)
    ensures Next(s, current).baseline == s.baseline
    ensures Next(s, current).previous == if IsChange(s, current) then current else s.previous
  {
    assert [current][1..] == [];
  }

  /** A frame equal to the baseline never notifies and leaves the state as it was. */
  lemma BaselineNeverNotifies(s: Frames, current: Image)
    requires Matches(current, s.baseline)
    ensures !IsChange(s, current) && Next(s, current) == s
  {
  }

  /** A run over `a` and then `b` is the run over `a + b`. */
  lemma {:induction false} RunAppend(s: Frames, a: seq<Image>, b: seq<Image>)
    ensures Notifications(s, a + b) == Notifications(s, a) + Notifications(After(s, a), b)
    ensures After(s, a + b) == After(After(s, a), b)
    decreases |a|
  {
    if a == [] {
      assert a + b == b;
    } else {
      assert (a + b)[0] == a[0];
      assert (a + b)[1..] == a[1..] + b;
      RunAppend(Next(s, a[0]), a[1..], b);
    }
  }

  /** A run over frames that each equal the previous frame or the baseline sends nothing
      and leaves the state as it was. */
  lemma {:induction false} QuietRun(s: Frames, frames: seq<Image>)
    requires forall i :: 0 <= i < |frames| ==> Matches(frames[i], s.previous) || Matches(frames[i], s.baseline)
    ensures forall i :: 0 <= i < |frames| ==> !Notifications(s, frames)[i]
    ensures After(s, frames) == s
    decreases |frames|
  {
    if frames != [] {
      assert Next(s, frames[0]) == s;
      QuietRun(s, frames[1..]);
    }
  }

  /** A persistent change notifies once: after a tick that confirms a change, ticks that
      keep showing that same picture notify no more. */
  lemma PersistentChangeNotifiesOnce(s: Frames, changed: Image, rest: seq<Image>)
    requires IsChange(s, changed)
    requires forall i :: 0 <= i < |rest| ==> Matches(rest[i], changed)
    ensures Notifications(s, [changed] + rest) == [true] + Notifications(Next(s, changed), rest)
    ensures forall i :: 0 <= i < |rest| ==> !Notifications(Next(s, changed), rest)[i]
    ensures After(s, [changed] + rest).previous == changed
  {
    var s1 := Next(s, changed);
    assert ([changed] + rest)[1..] == rest;
    QuietRun(s1, rest);
  }

  /** A scene that returns to the baseline does not notify, even though it differs from
      the previous frame. */
  lemma RevertToBaselineSilent(s: Frames, frames: seq<Image>)
    requires forall i :: 0 <= i < |frames| ==> Matches(frames[i], s.baseline)
    ensures forall i :: 0 <= i < |frames| ==> !Notifications(s, frames)[i]
    ensures After(s, frames) == s
  {
    QuietRun(s, frames);
  }

  /** Every frame that notifies differs from the baseline. */
  lemma {:induction false} NotifiedFramesDifferFromBaseline(s: Frames, frames: seq<Image>)
    ensures forall i :: 0 <= i < |frames| && Notifications(s, frames)[i] ==> !Matches(frames[i], s.baseline)
    decreases |frames|
  {
    if frames != [] {
      var s1 := Next(s, frames[0]);
      NotifiedFramesDifferFromBaseline(s1, frames[1..]);
      assert s1.baseline == s.baseline;
      forall i | 1 <= i < |frames| && Notifications(s, frames)[i]
        ensures !Matches(frames[i], s.baseline)
      {
        assert Notifications(s, frames)[i] == Notifications(s1, frames[1..])[i - 1];
      }
    }
  }

  /** No tick of the run notifies. */
  ghost predicate NoneNotified(s: Frames, frames: seq<Image>) {
    forall i :: 0 <= i < |frames| ==> !Notifications(s, frames)[i]
  }

  /** Tick `i` is the last tick of the run that notifies, and its frame is the previous
      frame after the run. */
  ghost predicate LastNotifiedAt(s: Frames, frames: seq<Image>, i: int) {
    0 <= i < |frames| && Notifications(s, frames)[i] && After(s, frames).previous == frames[i] &&
    forall j :: i < j < |frames| ==> !Notifications(s, frames)[j]
  }

  /** After a run, the previous frame is the last frame that notified, or the initial
      previous frame when none did. */
  lemma {:induction false} PreviousIsLastNotified(s: Frames, frames: seq<Image>)
    ensures (NoneNotified(s, frames) && After(s, frames).previous == s.previous) ||
            exists i :: LastNotifiedAt(s, frames, i)
    decreases |frames|
  {
    if frames != [] {
      var s1 := Next(s, frames[0]);
      var tail := frames[1..];
      var fired := Notifications(s, frames);
      var rest := Notifications(s1, tail);
      assert fired == [IsChange(s, frames[0])] + rest;
      assert After(s, frames) == After(s1, tail);
      PreviousIsLastNotified(s1, tail);
      if NoneNotified(s1, tail) {
        if !IsChange(s, frames[0]) {
          forall i | 0 <= i < |frames| ensures !fired[i] {
            if i > 0 { assert fired[i] == rest[i - 1]; }
          }
        } else {
          forall j | 0 < j < |frames| ensures !fired[j] {
            assert fired[j] == rest[j - 1];
          }
          assert LastNotifiedAt(s, frames, 0);
        }
      } else {
        var k :| LastNotifiedAt(s1, tail, k);
        forall j | k + 1 < j < |frames| ensures !fired[j] {
          assert fired[j] == rest[j - 1];
        }
        assert LastNotifiedAt(s, frames, k + 1);
      }
    }
  }

  /** Two successive notifications are for frames that differ: only the transition to a
      new picture is reported. */
  lemma SuccessiveNotificationsDiffer(s: Frames, frames: seq<Image>, i: nat, j: nat)
    requires i < j < |frames|
    requires Notifications(s, frames)[i] && Notifications(s, frames)[j]
    requires forall k :: i < k < j ==> !Notifications(s, frames)[k]
    ensures !Matches(frames[j], frames[i])
  {
    var fired := Notifications(s, frames);
    var upTo := frames[..j];
    assert frames == upTo + ([frames[j]] + frames[j + 1..]);
    RunAppend(s, upTo, [frames[j]] + frames[j + 1..]);
    RunAppend(After(s, upTo), [frames[j]], frames[j + 1..]);
    TickDecision(After(s, upTo), frames[j]);
    var firedUpTo := Notifications(s, upTo);
    assert fired == firedUpTo + Notifications(After(s, upTo), [frames[j]] + frames[j + 1..]);
    assert fired[j] == IsChange(After(s, upTo), frames[j]);
    assert forall m :: 0 <= m < j ==> firedUpTo[m] == fired[m];
    assert !NoneNotified(s, upTo) by { assert firedUpTo[i]; }
    PreviousIsLastNotified(s, upTo);
    var k :| LastNotifiedAt(s, upTo, k);
    assert k == i;
  }

  /** One-pixel images used by the scenario below. */
  function Pixel(rgb: int): Image {
    Bitmap(1, 1, [[rgb]])
  }

  /** Five ticks that show the baseline send nothing; a sixth tick that differs in its one
      pixel sends exactly one notification and becomes the previous frame; a seventh tick
      back at the baseline sends nothing although it differs from that previous frame. */
  lemma PollingScenario()
    ensures
      var base := Pixel(0);
      var changed := Pixel(1);
      var frames := [base, base, base, base, base, changed, base];
      Notifications(Start(base), frames) == [false, false, false, false, false, true, false] &&
      After(Start(base), frames) == Frames(base, changed)
  {
    var base := Pixel(0);
    var changed := Pixel(1);
    var s := Start(base);
    var quiet := [base, base, base, base, base];
    var tail := [changed] + [base];
    assert [base, base, base, base, base, changed, base] == quiet + tail;
    RunAppend(s, quiet, tail);
    RevertToBaselineSilent(s, quiet);
    assert Notifications(s, quiet) == [false, false, false, false, false];
    assert !Matches(changed, base) by { assert InBounds(changed, 0, 0); }
    assert IsChange(s, changed);
    var s1 := Next(s, changed);
    RunAppend(s, [changed], [base]);
    TickDecision(s, changed);
    TickDecision(s1, base);
    BaselineNeverNotifies(s1, base);
    assert Notifications(s, tail) == [true, false];
    assert After(s, tail) == s1;
  }

  /** The scenario's run posts exactly one body, the configured message's payload. */
  lemma ScenarioPostsOnce(message: string)
    ensures Sent(message, [false, false, false, false, false, true, false]) == [Notifier.Payload(message)]
  {
    var quiet: seq<bool> := [];
    for n := 0 to 5
      invariant quiet == seq(n, _ => false) && Sent(message, quiet) == []
    {
      SentAppend(message, quiet, false);
      quiet := quiet + [false];
    }
    SentAppend(message, quiet, true);
    SentAppend(message, quiet + [true], false);
    assert quiet + [true] + [false] == [false, false, false, false, false, true, false];
  }

  datatype Option<T> = None | Some(value: T)

  /** The program's detection state: the static `firstScreenshot`, the loop's local
      `lastScreenshot` (both unset until the first capture), the configured message, and
      the bodies handed to the webhook so far. */
  class Watcher {
    var firstScreenshot: Option<Image>
    var lastScreenshot: Option<Image>
    const message: string
    var outbox: seq<string>

    /** Both frames come from the same fixed region, so they have the same size. */
    ghost predicate Valid()
      reads this
    {
      lastScreenshot.Some? ==> firstScreenshot.Some? && SameSize(firstScreenshot.value, lastScreenshot.value)
    }

    /** The first capture has been taken. */
    predicate Ready()
      reads this
    {
      firstScreenshot.Some? && lastScreenshot.Some?
    }

    ghost function State(): Frames
      reads this
      requires Ready()
    {
      Frames(firstScreenshot.value, lastScreenshot.value)
    }

    /** The program as it starts: no screenshot yet, nothing sent. */
    constructor (message: string)
      ensures Valid() && !Ready()
      ensures firstScreenshot == None && lastScreenshot == None
      ensures this.message == message && outbox == []
    {
      this.message := message;
      firstScreenshot := None;
      lastScreenshot := None;
      outbox := [];
    }

    /** The first capture becomes the previous frame and, if no baseline was set before,
        the baseline. */
    method Begin(capture: Image)
      requires Valid()
      requires firstScreenshot.Some? ==> SameSize(firstScreenshot.value, capture)
      modifies this
      ensures Valid() && Ready()
      ensures lastScreenshot == Some(capture)
      ensures firstScreenshot == if old(firstScreenshot).None? then Some(capture) else old(firstScreenshot)
      ensures old(firstScreenshot).None? ==> State() == Start(capture)
      ensures outbox == old(outbox)
    {
      lastScreenshot := Some(capture);
      if firstScreenshot.None? {
        firstScreenshot := Some(capture);
      }
    }

    /** One poll tick with the frame just captured: notify when it differs from both the
        previous frame and the baseline, and then make it the previous frame. */
    method Tick(current: Image) returns (notify: bool)
      requires Valid() && Ready()
      requires SameSize(current, firstScreenshot.value)
      modifies this
      ensures Valid() && Ready()
      ensures notify == IsChange(old(State()), current)
      ensures State() == Next(old(State()), current)
      ensures outbox == old(outbox) + if notify then [Notifier.Payload(message)] else []
    {
      var againstLast := AreEqual(current, lastScreenshot.value);
      notify := false;
      if againstLast == Returned(false) {
        var againstFirst := AreEqual(current, firstScreenshot.value);
        notify := againstFirst == Returned(false);
      }
      if notify {
        outbox := outbox + [Notifier.Payload(message)];
        lastScreenshot := Some(current);
      }
    }

    /** The polling loop over a finite sequence of captures, one per tick. */
    method Poll(frames: seq<Image>) returns (fired: seq<bool>)
      requires Valid() && Ready()
      requires forall i :: 0 <= i < |frames| ==> SameSize(frames[i], firstScreenshot.value)
      modifies this
      ensures Valid() && Ready()
      ensures fired == Notifications(old(State()), frames)
      ensures State() == After(old(State()), frames)
      ensures outbox == old(outbox) + Sent(message, fired)
    {
      ghost var s0 := State();
      fired := [];
      for i := 0 to |frames|
        invariant Valid() && Ready()
        invariant firstScreenshot == old(firstScreenshot)
        invariant fired == Notifications(s0, frames[..i])
        invariant State() == After(s0, frames[..i])
        invariant outbox == old(outbox) + Sent(message, fired)
      {
        var notify := Tick(frames[i]);
        assert frames[..i + 1] == frames[..i] + [frames[i]];
        RunAppend(s0, frames[..i], [frames[i]]);
        TickDecision(After(s0, frames[..i]), frames[i]);
        SentAppend(message, fired, notify);
        fired := fired + [notify];
      }
      assert frames[..|frames|] == frames;
    }
  }

  /** The number of ticks that notify. */
  function CountTrue(fired: seq<bool>): nat {
    if fired == [] then 0 else CountTrue(fired[..|fired| - 1]) + (if fired[|fired| - 1] then 1 else 0)
  }

  /** The bodies posted for the notifications `fired`, in order: one per notifying tick. */
  function Sent(message: string, fired: seq<bool>): (bodies: seq<string>)
    ensures |bodies| == CountTrue(fired) <= |fired|
    ensures forall k :: 0 <= k < |bodies| ==> bodies[k] == Notifier.Payload(message)
  {
    if fired == [] then []
    else Sent(message, fired[..|fired| - 1]) + (if fired[|fired| - 1] then [Notifier.Payload(message)] else [])
  }

  lemma SentAppend(message: string, fired: seq<bool>, notify: bool)
    ensures Sent(message, fired + [notify]) == Sent(message, fired) + if notify then [Notifier.Payload(message)] else []
  {
    assert (fired + [notify])[..|fired|] == fired;
  }
}
