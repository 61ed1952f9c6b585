/**
 * The home screen's ETA countdown: the train-status and ETA observers, the
 * one-second countdown task and the progress bar computed from the ETA.
 * `Float` values are exact reals here; the handler's queue is reduced to
 * whether the countdown task is posted.
 */
module Countdown {
  import opened Text
  import opened Numbers
  import Crossing

  /** The initial largest ETA, in seconds, against which progress is measured. */
  const DefaultMaxEta: real := 30.0

  /** The status observer's test: the text mentions an approaching or moving train, in any case. */
  predicate IsApproaching(status: string)
  {
    ContainsIgnoringCase(status, "Approaching") || ContainsIgnoringCase(status, "Moving")
  }

  // ---------------------------------------------------------------------------
  // Which statuses start the countdown

  lemma DetectedIsApproaching()
    ensures IsApproaching("Train Approaching")
  {
    assert RegionMatches("Train Approaching", 6, "Approaching", 0);
  }

  lemma MovingIsApproaching()
    ensures IsApproaching("Train Moving towards Gate")
  {
    assert RegionMatches("Train Moving towards Gate", 6, "Moving", 0);
  }

  lemma LoadingDoesNotMentionMoving()
    ensures !ContainsIgnoringCase(Crossing.Loading, "Moving")
  {
    assert !ContainsFrom("Loading Update...", "Moving", 9);
    assert !ContainsFrom("Loading Update...", "Moving", 6);
    assert !ContainsFrom("Loading Update...", "Moving", 3);
  }

  lemma LoadingDoesNotMentionApproaching()
    ensures !ContainsIgnoringCase(Crossing.Loading, "Approaching")
  {
    assert !ContainsFrom("Loading Update...", "Approaching", 3);
  }

  lemma LoadingIsNotApproaching()
    ensures !IsApproaching(Crossing.Loading)
  {
    LoadingDoesNotMentionMoving();
    LoadingDoesNotMentionApproaching();
  }

  lemma CrossedIsNotApproaching()
    ensures !IsApproaching("Train Crossed")
  {
  }

  lemma ResetIsNotApproaching()
    ensures !IsApproaching("No Train Nearby")
  {
  }

  lemma OpenedIsNotApproaching()
    ensures !IsApproaching("Gate Opened")
  {
  }

  lemma ClosedIsNotApproaching()
    ensures !IsApproaching("Gate Closed")
  {
  }

  lemma OpeningIsNotApproaching()
    ensures !IsApproaching("Gate Opening")
  {
  }

  lemma ClosingIsNotApproaching()
    ensures !IsApproaching("Gate Closing")
  {
  }

  lemma UnknownIsNotApproaching()
    ensures !IsApproaching("Unknown Event")
  {
  }

  /**
   * Of the texts the repository can post as train status, exactly those of
   * `train_detected` and `speed_calculated` start the countdown; the loading
   * text does not.
   */
  lemma ApproachingStatuses(event: string)
    ensures IsApproaching(Crossing.TrainStatusText(event)) <==> event == "train_detected" || event == "speed_calculated"
    ensures !IsApproaching(Crossing.Loading)
  {
    LoadingIsNotApproaching();
    Crossing.TrainStatusCases(event);
    var t := Crossing.TrainStatusText(event);
    if event == "train_detected" {
      DetectedIsApproaching();
    } else if event == "speed_calculated" {
      MovingIsApproaching();
    } else if event == "train_crossed" {
      CrossedIsNotApproaching();
    } else if event == "system_reset" {
      ResetIsNotApproaching();
    } else if event == "gate_opened" {
      OpenedIsNotApproaching();
    } else if event == "gate_closed" {
      ClosedIsNotApproaching();
    } else if event == "gate_opening" {
      OpeningIsNotApproaching();
    } else if event == "gate_closing" {
      ClosingIsNotApproaching();
    } else {
      assert event !in Crossing.EventLabels;
      UnknownIsNotApproaching();
    }
  }

  // ---------------------------------------------------------------------------
  // Progress

  function Clamp(n: int, lo: int, hi: int): (c: int)
    requires lo <= hi
    ensures lo <= c <= hi
    ensures lo <= n <= hi ==> c == n
    ensures n < lo ==> c == lo
    ensures n > hi ==> c == hi
  {
    if n < lo then lo else if n > hi then hi else n
  }

  /** The share of `maxEta` already covered, in percent, truncated and clamped to 0..100. */
  function Progress(maxEta: real, eta: real): int
  {
    if maxEta > 0.0 then Clamp(Truncate((maxEta - eta) / maxEta * 100.0), 0, 100) else 0
  }

  lemma DivideMonotone(x: real, y: real, m: real)
    requires x <= y && m > 0.0
    ensures x / m <= y / m
  {
    assert x / m * m == x && y / m * m == y;
  }

  lemma TruncateMonotone(x: real, y: real)
    requires x <= y
    ensures Truncate(x) <= Truncate(y)
  {
  }

  /**
   * The bar is full at an ETA of zero or less, empty at an ETA of `maxEta`
   * or more, always within 0..100, and it never moves back as the ETA falls.
   */
  lemma ProgressBounds(maxEta: real, eta: real, later: real)
    requires maxEta > 0.0
    ensures 0 <= Progress(maxEta, eta) <= 100
    ensures eta <= 0.0 ==> Progress(maxEta, eta) == 100
    ensures eta >= maxEta ==> Progress(maxEta, eta) == 0
    ensures later <= eta ==> Progress(maxEta, eta) <= Progress(maxEta, later)
  {
    var share := (maxEta - eta) / maxEta * 100.0;
    if eta <= 0.0 {
      DivideMonotone(maxEta, maxEta - eta, maxEta);
      assert maxEta / maxEta == 1.0;
      assert share >= 100.0;
    }
    if eta >= maxEta {
      DivideMonotone(maxEta - eta, 0.0, maxEta);
      assert share <= 0.0;
    }
    if later <= eta {
      DivideMonotone(maxEta - eta, maxEta - later, maxEta);
      TruncateMonotone(share, (maxEta - later) / maxEta * 100.0);
    }
  }

  // ---------------------------------------------------------------------------
  // The countdown on its own

  /** One tick's effect on a positive ETA: one second less, never below zero. */
  function TickEta(eta: real): (next: real)
    ensures eta > 0.0 ==> 0.0 <= next < eta
    ensures eta <= 0.0 ==> next == eta
  {
    if eta > 0.0 then (if eta - 1.0 < 0.0 then 0.0 else eta - 1.0) else eta
  }

  /** The ETA after `n` ticks while the train keeps approaching. */
  function AfterTicks(eta: real, n: nat): real
    decreases n
  {
    if n == 0 then eta else AfterTicks(TickEta(eta), n - 1)
  }

  /** Left running, a countdown from a non-negative ETA reaches zero within ETA ticks and stays there. */
  lemma {:induction false} CountdownReachesZero(eta: real, n: nat)
    requires eta >= 0.0 && n as real >= eta
    ensures AfterTicks(eta, n) == 0.0
    decreases n
  {
    if n > 0 {
      var next := TickEta(eta);
      assert next >= 0.0 && (n - 1) as real >= next;
      CountdownReachesZero(next, n - 1);
    }
  }

  // ---------------------------------------------------------------------------
  // The fragment's state

  /**
   * The countdown's own `%.2f` text reads back as the ETA rounded to two
   * decimals, so each tick sets the bar from the rounded ETA.
   */
  lemma ShownEtaReadsBack(eta: real)
    ensures ParseFloatOrZero(Fixed2(eta)) == Round2(eta)
  {
    Fixed2ParsesBack(eta);
  }

  class EtaCountdown {
    var isTrainApproaching: bool
    var currentEta: real
    var lastFirebaseEta: real
    var maxEta: real
    /** Whether the countdown task is posted on the handler. */
    var scheduled: bool
    /** The ETA text on screen. */
    var etaText: string
    /** The progress bar's value. */
    var progress: int

    /**
     * The largest ETA never drops below its default, the bar stays within
     * 0..100, and the countdown is only ever posted while a train approaches.
     */
    ghost predicate Valid()
      reads this
    {
      && maxEta >= DefaultMaxEta
      && 0 <= progress <= 100
      && (scheduled ==> isTrainApproaching)
    }

    constructor ()
      ensures Valid()
      ensures !isTrainApproaching && currentEta == 0.0 && lastFirebaseEta == 0.0
      ensures maxEta == DefaultMaxEta && !scheduled && progress == 0 && etaText == ""
    {
      isTrainApproaching := false;
      currentEta, lastFirebaseEta := 0.0, 0.0;
      maxEta := DefaultMaxEta;
      scheduled := false;
      etaText := "";
      progress := 0;
    }

    /**
     * `updateETAProgress`: the largest ETA is raised to the parsed ETA if
     * that is larger, the bar is set from it, and an ETA of exactly zero
     * puts the largest ETA back to its default.
     */
    method UpdateEtaProgress(text: string)
      requires Valid()
      modifies this
      ensures Valid()
      ensures var eta := ParseFloatOrZero(text);
              var raised := if eta > old(maxEta) then eta else old(maxEta);
              && progress == Progress(raised, eta)
              && maxEta == (if eta == 0.0 then DefaultMaxEta else raised)
      ensures isTrainApproaching == old(isTrainApproaching) && scheduled == old(scheduled)
      ensures currentEta == old(currentEta) && lastFirebaseEta == old(lastFirebaseEta) && etaText == old(etaText)
    {
      var eta := ParseFloatOrZero(text);
      if eta > maxEta {
        maxEta := eta;
      }
      ProgressBounds(maxEta, eta, eta);
      progress := Progress(maxEta, eta);
      if eta == 0.0 && maxEta > 0.0 {
        maxEta := DefaultMaxEta;
      }
    }

    /** The train-status observer: a status that is not approaching stops the countdown and zeroes both ETAs. */
    method OnTrainStatus(status: string)
      requires Valid()
      modifies this
      ensures Valid()
      ensures isTrainApproaching == IsApproaching(status)
      ensures !IsApproaching(status) ==> !scheduled && currentEta == 0.0 && lastFirebaseEta == 0.0
      ensures IsApproaching(status) ==>
                scheduled == old(scheduled) && currentEta == old(currentEta) && lastFirebaseEta == old(lastFirebaseEta)
      ensures maxEta == old(maxEta) && progress == old(progress) && etaText == old(etaText)
    {
      isTrainApproaching := IsApproaching(status);
      if !isTrainApproaching {
        scheduled := false;
        currentEta := 0.0;
        lastFirebaseEta := 0.0;
      }
    }

    /**
     * The ETA observer: an ETA equal to the one counting down changes
     * nothing; a different one (unparseable text counting as zero) replaces
     * both ETAs, is shown, updates the bar, and restarts the countdown when a
     * train approaches and the ETA is positive.
     */
    method OnEta(text: string)
      requires Valid()
      modifies this
      ensures Valid()
      ensures ParseFloatOrZero(text) == old(currentEta) ==> unchanged(this)
      ensures ParseFloatOrZero(text) != old(currentEta) ==>
                && currentEta == ParseFloatOrZero(text) && lastFirebaseEta == currentEta
                && etaText == text && isTrainApproaching == old(isTrainApproaching)
                && scheduled == (old(scheduled) || (isTrainApproaching && currentEta > 0.0))
                && var raised := if currentEta > old(maxEta) then currentEta else old(maxEta);
                   && progress == Progress(raised, currentEta)
                   && maxEta == (if currentEta == 0.0 then DefaultMaxEta else raised)
    {
      var newEta := ParseFloatOrZero(text);
      if newEta != currentEta {
        lastFirebaseEta := newEta;
        currentEta := newEta;
        etaText := text;
        UpdateEtaProgress(text);
        if isTrainApproaching && currentEta > 0.0 {
          scheduled := true;
        }
      }
    }

    /**
     * One run of the countdown task. While a train approaches and the ETA is
     * positive it takes one second off (never going below zero), shows the
     * new ETA as `%.2f` text, updates the bar from that text and posts
     * itself again; otherwise it changes nothing and is not posted again.
     */
    method Tick()
      requires Valid() && scheduled
      modifies this
      ensures Valid()
      ensures old(isTrainApproaching && currentEta > 0.0) ==>
                && currentEta == TickEta(old(currentEta)) && 0.0 <= currentEta < old(currentEta)
                && etaText == Fixed2(currentEta) && scheduled
                && var read := ParseFloatOrZero(etaText);
                   var raised := if read > old(maxEta) then read else old(maxEta);
                   && progress == Progress(raised, read)
                   && maxEta == (if read == 0.0 then DefaultMaxEta else raised)
      ensures !old(isTrainApproaching && currentEta > 0.0) ==>
                !scheduled && currentEta == old(currentEta) && maxEta == old(maxEta)
                && progress == old(progress) && etaText == old(etaText)
      ensures isTrainApproaching == old(isTrainApproaching) && lastFirebaseEta == old(lastFirebaseEta)
      ensures old(currentEta) >= 0.0 ==> currentEta >= 0.0
    {
      if isTrainApproaching && currentEta > 0.0 {
        currentEta := currentEta - 1.0;
        if currentEta < 0.0 {
          currentEta := 0.0;
        }
        var shown := Fixed2(currentEta);
        etaText := shown;
        UpdateEtaProgress(shown);
        scheduled := true;
      } else {
        scheduled := false;
      }
    }

    /** Tearing the view down removes the countdown task and leaves the rest alone. */
    method OnDestroyView()
      requires Valid()
      modifies this
      ensures Valid() && !scheduled
      ensures isTrainApproaching == old(isTrainApproaching) && currentEta == old(currentEta)
      ensures lastFirebaseEta == old(lastFirebaseEta) && maxEta == old(maxEta)
      ensures progress == old(progress) && etaText == old(etaText)
    {
      scheduled := false;
    }
  }
}
