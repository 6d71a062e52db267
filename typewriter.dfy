/** The rotating headline of the hero section: a typewriter that types a
    phrase character by character, deletes it again and moves on to the
    next phrase, driven by a self-rescheduling timeout. */
module Typewriter {

  datatype Option<T> = None | Some(value: T)

  /** The role titles the headline cycles through, in order. */
  const RotatingHeadlines: seq<string> :=
    ["Mobile App Developer", "Full-Stack Developer", "Electrical and Information Engineer"]

  /** The three state cells of the headline: which phrase, the text shown, and the mode. */
  datatype Headline = Headline(index: nat, typed: string, deleting: bool)

  /** The state on mount: first phrase, nothing shown, typing. */
  const Initial: Headline := Headline(0, "", false)

  /** A phrase list the headline can cycle through: at least one phrase, none empty. */
  predicate WellFormed(phrases: seq<string>) {
    |phrases| > 0 && forall k :: 0 <= k < |phrases| ==> |phrases[k]| > 0
  }

  lemma RotatingHeadlinesWellFormed()
    ensures WellFormed(RotatingHeadlines) && |RotatingHeadlines| == 3
    ensures |RotatingHeadlines[0]| == 20 && |RotatingHeadlines[1]| == 20 && |RotatingHeadlines[2]| == 35
  {
  }

  /** JavaScript's `s.slice(0, end)`: a negative end counts back from the end of
      the string, and the end is clamped to the string. */
  function SliceTo(s: string, end: int): (r: string)
    ensures r <= s
  {
    var e := if end < 0 then (if |s| + end < 0 then 0 else |s| + end)
             else if end > |s| then |s| else end;
    s[..e]
  }

  /** The delay in milliseconds of the timeout the effect schedules for state `h`. */
  function Delay(phrases: seq<string>, h: Headline): (ms: nat)
    requires h.index < |phrases|
    ensures ms == 1200 <==> !h.deleting && h.typed == phrases[h.index]
    ensures ms == 300 <==> h.deleting && h.typed == []
    ensures ms == 90 <==> !h.deleting && h.typed != phrases[h.index]
    ensures ms == 45 <==> h.deleting && h.typed != []
  {
    var delay := if h.deleting then 45 else 90;
    var delay := if !h.deleting && h.typed == phrases[h.index] then 1200 else delay;
    if h.deleting && |h.typed| == 0 then 300 else delay
  }

  /** One timeout callback, as written: a typing tick shows one more character
      and switches to deleting in the same tick once the phrase is complete; a
      deleting tick shows one character less and, once the text is empty,
      switches back to typing and advances to the next phrase. */
  function Step(phrases: seq<string>, h: Headline): (next: Headline)
    requires h.index < |phrases|
    ensures next.index < |phrases|
    ensures next.typed <= phrases[h.index]
  {
    var current := phrases[h.index];
    if !h.deleting then
      var nextText := SliceTo(current, |h.typed| + 1);
      Headline(h.index, nextText, nextText == current)
    else
      var nextText := SliceTo(current, |h.typed| - 1);
      if |nextText| == 0 then Headline((h.index + 1) % |phrases|, nextText, false)
      else Headline(h.index, nextText, true)
  }

  /** The corrected callback: a complete phrase first waits one tick (the
      1200 ms pause) before deletion starts, and an empty text waits one tick
      (the 300 ms pause) before the next phrase is typed. */
  function PausingStep(phrases: seq<string>, h: Headline): (next: Headline)
    requires h.index < |phrases|
    ensures next.index < |phrases|
  {
    var current := phrases[h.index];
    if !h.deleting then
      if h.typed == current then h.(deleting := true)
      else Headline(h.index, SliceTo(current, |h.typed| + 1), false)
    else
      if |h.typed| == 0 then Headline((h.index + 1) % |phrases|, "", false)
      else Headline(h.index, SliceTo(current, |h.typed| - 1), true)
  }

  /** Which callback drives the headline: the code as written, or the corrected one. */
  datatype Revision = AsWritten | WithPauses

  function Next(rev: Revision, phrases: seq<string>, h: Headline): (next: Headline)
    requires h.index < |phrases|
    ensures next.index < |phrases|
  {
    match rev
    case AsWritten => Step(phrases, h)
    case WithPauses => PausingStep(phrases, h)
  }

  /** The state after `n` ticks from `h`. */
  function Run(rev: Revision, phrases: seq<string>, h: Headline, n: nat): (r: Headline)
    requires h.index < |phrases|
    ensures r.index < |phrases|
    decreases n
  {
    if n == 0 then h else Run(rev, phrases, Next(rev, phrases, h), n - 1)
  }

  /** The text shown in each of the first `n` states from `h`. */
  function Texts(rev: Revision, phrases: seq<string>, h: Headline, n: nat): (ts: seq<string>)
    requires h.index < |phrases|
    ensures |ts| == n
    decreases n
  {
    if n == 0 then [] else [h.typed] + Texts(rev, phrases, Next(rev, phrases, h), n - 1)
  }

  /** What holds of every state reachable from the initial one: the index is in
      range, the text is a prefix of the current phrase, typing never shows the
      whole phrase and deleting never shows the empty text. */
  predicate Inv(phrases: seq<string>, h: Headline) {
    h.index < |phrases| &&
    h.typed <= phrases[h.index] &&
    (if h.deleting then 1 <= |h.typed| else |h.typed| < |phrases[h.index]|)
  }

  lemma InitialInv(phrases: seq<string>)
    requires WellFormed(phrases)
    ensures Inv(phrases, Initial)
  {
  }

  /** A tick keeps the invariant and changes the length of the text by exactly one. */
  lemma StepKeepsInv(phrases: seq<string>, h: Headline)
    requires WellFormed(phrases) && Inv(phrases, h)
    ensures Inv(phrases, Step(phrases, h))
    ensures |Step(phrases, h).typed| == if h.deleting then |h.typed| - 1 else |h.typed| + 1
  {
    var current := phrases[h.index];
    if !h.deleting {
      assert SliceTo(current, |h.typed| + 1) == current[..|h.typed| + 1];
    } else {
      assert SliceTo(current, |h.typed| - 1) == current[..|h.typed| - 1];
      var next := (h.index + 1) % |phrases|;
      assert |phrases[next]| > 0;
    }
  }

  /** No reachable state is a fixed point: the headline never stops. */
  lemma NoTerminalState(phrases: seq<string>, h: Headline)
    requires WellFormed(phrases) && Inv(phrases, h)
    ensures Step(phrases, h) != h
  {
    StepKeepsInv(phrases, h);
  }

  lemma {:induction false} RunKeepsInv(phrases: seq<string>, h: Headline, n: nat)
    requires WellFormed(phrases) && Inv(phrases, h)
    ensures Inv(phrases, Run(AsWritten, phrases, h, n))
    decreases n
  {
    if n > 0 {
      StepKeepsInv(phrases, h);
      RunKeepsInv(phrases, Step(phrases, h), n - 1);
    }
  }

  /** In every reachable state the delay is 90 ms while typing and 45 ms while
      deleting: the 1200 ms and 300 ms pauses are never scheduled. */
  lemma ReachableDelay(phrases: seq<string>, n: nat)
    requires WellFormed(phrases)
    ensures var h := Run(AsWritten, phrases, Initial, n);
            Delay(phrases, h) == (if h.deleting then 45 else 90)
    ensures Delay(phrases, Run(AsWritten, phrases, Initial, n)) !in {1200, 300}
  {
    RunKeepsInv(phrases, Initial, n);
  }

  lemma {:induction false} RunAdditive(rev: Revision, phrases: seq<string>, h: Headline, m: nat, n: nat)
    requires h.index < |phrases|
    ensures Run(rev, phrases, h, m + n) == Run(rev, phrases, Run(rev, phrases, h, m), n)
    decreases m
  {
    if m > 0 {
      RunAdditive(rev, phrases, Next(rev, phrases, h), m - 1, n);
    }
  }

  /** Typing from a prefix of length k reaches the whole phrase, in deleting mode, in |p| - k ticks. */
  lemma {:induction false} TypingPhase(phrases: seq<string>, i: nat, k: nat)
    requires i < |phrases| && k < |phrases[i]|
    ensures Run(AsWritten, phrases, Headline(i, phrases[i][..k], false), |phrases[i]| - k)
            == Headline(i, phrases[i], true)
    decreases |phrases[i]| - k
  {
    var p := phrases[i];
    var h := Headline(i, p[..k], false);
    assert SliceTo(p, k + 1) == p[..k + 1];
    if k + 1 == |p| {
      assert p[..k + 1] == p;
    } else {
      assert Step(phrases, h) == Headline(i, p[..k + 1], false);
      TypingPhase(phrases, i, k + 1);
    }
  }

  /** Deleting from a prefix of length k >= 1 reaches the empty text of the next phrase in k ticks. */
  lemma {:induction false} DeletingPhase(phrases: seq<string>, i: nat, k: nat)
    requires i < |phrases| && 1 <= k <= |phrases[i]|
    ensures Run(AsWritten, phrases, Headline(i, phrases[i][..k], true), k)
            == Headline((i + 1) % |phrases|, "", false)
    decreases k
  {
    var p := phrases[i];
    var h := Headline(i, p[..k], true);
    assert SliceTo(p, k - 1) == p[..k - 1];
    if k == 1 {
      assert Step(phrases, h) == Headline((i + 1) % |phrases|, "", false);
    } else {
      assert Step(phrases, h) == Headline(i, p[..k - 1], true);
      DeletingPhase(phrases, i, k - 1);
    }
  }

  /** From the empty text of phrase i in typing mode, exactly 2·|phrase i| ticks
      reach the empty text of the next phrase in typing mode. */
  lemma PhraseCycle(phrases: seq<string>, i: nat)
    requires WellFormed(phrases) && i < |phrases|
    ensures Run(AsWritten, phrases, Headline(i, "", false), 2 * |phrases[i]|)
            == Headline((i + 1) % |phrases|, "", false)
  {
    var p := phrases[i];
    assert |p| > 0;
    assert p[..0] == "";
    TypingPhase(phrases, i, 0);
    RunAdditive(AsWritten, phrases, Headline(i, "", false), |p|, |p|);
    assert p[..|p|] == p;
    DeletingPhase(phrases, i, |p|);
  }

  lemma WrapIndex(m: nat, n: nat)
    requires 0 < n && m <= n
    ensures m % n == if m < n then m else 0
  {
  }

  /** Ticks needed to type and delete the first m phrases. */
  function CycleLength(phrases: seq<string>, m: nat): nat
    requires m <= |phrases|
  {
    if m == 0 then 0 else CycleLength(phrases, m - 1) + 2 * |phrases[m - 1]|
  }

  lemma {:induction false} PrefixCycles(phrases: seq<string>, m: nat)
    requires WellFormed(phrases) && m <= |phrases|
    ensures Run(AsWritten, phrases, Initial, CycleLength(phrases, m))
            == Headline(if m < |phrases| then m else 0, "", false)
  {
    if m > 0 {
      var before := CycleLength(phrases, m - 1);
      var phrase := 2 * |phrases[m - 1]|;
      var mid := Headline(m - 1, "", false);
      PrefixCycles(phrases, m - 1);
      assert Run(AsWritten, phrases, mid, phrase) == Headline(if m < |phrases| then m else 0, "", false) by {
        PhraseCycle(phrases, m - 1);
        WrapIndex(m, |phrases|);
      }
      assert CycleLength(phrases, m) == before + phrase;
      RunAdditive(AsWritten, phrases, Initial, before, phrase);
    } else {
      assert CycleLength(phrases, m) == 0;
    }
  }

  /** After typing and deleting every phrase once, the headline is back in its
      initial state: the sequence of states is periodic and never ends. */
  lemma FullCycle(phrases: seq<string>, n: nat)
    requires WellFormed(phrases)
    ensures Run(AsWritten, phrases, Initial, CycleLength(phrases, |phrases|)) == Initial
    ensures Run(AsWritten, phrases, Initial, n + CycleLength(phrases, |phrases|))
            == Run(AsWritten, phrases, Initial, n)
  {
    var len := CycleLength(phrases, |phrases|);
    PrefixCycles(phrases, |phrases|);
    RunAdditive(AsWritten, phrases, Initial, len, n);
    assert n + len == len + n;
  }

  /** For the site's three headlines the period is 150 ticks. */
  lemma RotatingHeadlinesPeriod()
    ensures Run(AsWritten, RotatingHeadlines, Initial, 150) == Initial
  {
    RotatingHeadlinesWellFormed();
    FullCycle(RotatingHeadlines, 0);
    assert CycleLength(RotatingHeadlines, 3) == 150;
  }

  /** With the phrases "A" and "BC" the code as written shows no pauses: a
      complete or emptied text is left on the very next tick. */
  lemma AsWrittenTrace()
    ensures Texts(AsWritten, ["A", "BC"], Initial, 8) == ["", "A", "", "B", "BC", "B", "", "A"]
  {
    var ps := ["A", "BC"];
    var h0 := Initial;
    var h1 := Headline(0, "A", true);
    var h2 := Headline(1, "", false);
    var h3 := Headline(1, "B", false);
    var h4 := Headline(1, "BC", true);
    var h5 := Headline(1, "B", true);
    var h6 := Headline(0, "", false);
    var h7 := Headline(0, "A", true);
    assert Step(ps, h0) == h1;
    assert Step(ps, h1) == h2;
    assert Step(ps, h2) == h3;
    assert Step(ps, h3) == h4;
    assert Step(ps, h4) == h5;
    assert Step(ps, h5) == h6;
    assert Step(ps, h6) == h7;
    assert Texts(AsWritten, ps, h7, 1) == ["A"];
  }

  // ---- the corrected callback ----

  /** What holds of every state the corrected callback reaches: the index is in
      range and the text is a prefix of the current phrase. */
  predicate PausingInv(phrases: seq<string>, h: Headline) {
    h.index < |phrases| && h.typed <= phrases[h.index]
  }

  lemma {:induction false} PausingTypingPhase(phrases: seq<string>, i: nat, k: nat)
    requires i < |phrases| && k <= |phrases[i]|
    ensures Run(WithPauses, phrases, Headline(i, phrases[i][..k], false), |phrases[i]| - k)
            == Headline(i, phrases[i], false)
    decreases |phrases[i]| - k
  {
    var p := phrases[i];
    if k < |p| {
      var h := Headline(i, p[..k], false);
      assert p[..k] != p by { assert |p[..k]| < |p|; }
      assert SliceTo(p, k + 1) == p[..k + 1];
      assert PausingStep(phrases, h) == Headline(i, p[..k + 1], false);
      PausingTypingPhase(phrases, i, k + 1);
    } else {
      assert p[..k] == p;
    }
  }

  lemma {:induction false} PausingDeletingPhase(phrases: seq<string>, i: nat, k: nat)
    requires i < |phrases| && k <= |phrases[i]|
    ensures Run(WithPauses, phrases, Headline(i, phrases[i][..k], true), k) == Headline(i, "", true)
    decreases k
  {
    var p := phrases[i];
    if k > 0 {
      var h := Headline(i, p[..k], true);
      assert SliceTo(p, k - 1) == p[..k - 1];
      assert PausingStep(phrases, h) == Headline(i, p[..k - 1], true);
      PausingDeletingPhase(phrases, i, k - 1);
    }
  }

  /** The corrected callback shows the complete phrase for one 1200 ms pause and
      the empty text for one 300 ms pause, and moves to the next phrase after
      2·|phrase i| + 2 ticks. */
  lemma PausingPhraseCycle(phrases: seq<string>, i: nat)
    requires i < |phrases|
    ensures var start := Headline(i, "", false);
            var p := phrases[i];
            && Run(WithPauses, phrases, start, |p|) == Headline(i, p, false)
            && Delay(phrases, Run(WithPauses, phrases, start, |p|)) == 1200
            && Run(WithPauses, phrases, start, 2 * |p| + 1) == Headline(i, "", true)
            && Delay(phrases, Run(WithPauses, phrases, start, 2 * |p| + 1)) == 300
            && Run(WithPauses, phrases, start, 2 * |p| + 2) == Headline((i + 1) % |phrases|, "", false)
  {
    var p := phrases[i];
    var start := Headline(i, "", false);
    assert p[..0] == "";
    PausingTypingPhase(phrases, i, 0);
    var full := Headline(i, p, false);
    assert Run(WithPauses, phrases, full, 1) == Headline(i, p, true);
    RunAdditive(WithPauses, phrases, start, |p|, 1);
    assert p[..|p|] == p;
    PausingDeletingPhase(phrases, i, |p|);
    RunAdditive(WithPauses, phrases, start, |p| + 1, |p|);
    assert Run(WithPauses, phrases, Headline(i, "", true), 1) == Headline((i + 1) % |phrases|, "", false);
    RunAdditive(WithPauses, phrases, start, 2 * |p| + 1, 1);
  }

  /** With the phrases "A" and "BC" the corrected callback shows each complete
      phrase and each emptied text twice, the second time during its pause. */
  lemma WithPausesTrace()
    ensures Texts(WithPauses, ["A", "BC"], Initial, 12)
            == ["", "A", "A", "", "", "B", "BC", "BC", "B", "", "", "A"]
  {
    var ps := ["A", "BC"];
    var h0 := Initial;
    var h1 := Headline(0, "A", false);
    var h2 := Headline(0, "A", true);
    var h3 := Headline(0, "", true);
    var h4 := Headline(1, "", false);
    var h5 := Headline(1, "B", false);
    var h6 := Headline(1, "BC", false);
    var h7 := Headline(1, "BC", true);
    var h8 := Headline(1, "B", true);
    var h9 := Headline(1, "", true);
    var h10 := Headline(0, "", false);
    var h11 := Headline(0, "A", false);
    assert PausingStep(ps, h0) == h1;
    assert PausingStep(ps, h1) == h2;
    assert PausingStep(ps, h2) == h3;
    assert PausingStep(ps, h3) == h4;
    assert PausingStep(ps, h4) == h5;
    assert PausingStep(ps, h5) == h6;
    assert PausingStep(ps, h6) == h7;
    assert PausingStep(ps, h7) == h8;
    assert PausingStep(ps, h8) == h9;
    assert PausingStep(ps, h9) == h10;
    assert PausingStep(ps, h10) == h11;
    assert Texts(WithPauses, ps, h11, 1) == ["A"];
  }

  /** A tick of the corrected callback keeps the text a prefix of the current phrase. */
  lemma PausingStepKeepsInv(phrases: seq<string>, h: Headline)
    requires PausingInv(phrases, h)
    ensures PausingInv(phrases, PausingStep(phrases, h))
    ensures |PausingStep(phrases, h).typed| <= |h.typed| + 1
  {
  }

  /** The corrected callback has no fixed point either: the headline never stops. */
  lemma PausingNoTerminalState(phrases: seq<string>, h: Headline)
    requires PausingInv(phrases, h)
    ensures PausingStep(phrases, h) != h
  {
    var current := phrases[h.index];
    if !h.deleting && h.typed != current {
      assert |h.typed| < |current|;
      assert |SliceTo(current, |h.typed| + 1)| == |h.typed| + 1;
    }
  }

  /** What holds of every state a revision reaches from the initial one. */
  predicate Reachable(rev: Revision, phrases: seq<string>, h: Headline) {
    match rev
    case AsWritten => Inv(phrases, h)
    case WithPauses => PausingInv(phrases, h)
  }

  // ---- the component ----

  /** The hero headline as mounted: its three state cells and the one timeout
      the effect keeps pending. `revision` selects the callback: the code as
      written, or the corrected one. */
  class HeadlineRotator {
    const revision: Revision
    var headlineIndex: nat
    var typedHeadline: string
    var isDeleting: bool
    /** The delay of the pending timeout; None once the component is unmounted. */
    var timer: Option<nat>

    function State(): Headline
      reads this
    {
      Headline(headlineIndex, typedHeadline, isDeleting)
    }

    ghost predicate Valid()
      reads this
    {
      Reachable(revision, RotatingHeadlines, State()) &&
      headlineIndex < |RotatingHeadlines| &&
      (timer.Some? ==> timer.value == Delay(RotatingHeadlines, State()))
    }

    /** Mount: the state cells take their initial values and the effect
        schedules the first tick. */
    constructor (revision: Revision)
      ensures Valid() && this.revision == revision
      ensures State() == Initial && timer == Some(90)
    {
      this.revision := revision;
      headlineIndex, typedHeadline, isDeleting := 0, "", false;
      timer := Some(Delay(RotatingHeadlines, Initial));
    }

    /** The pending timeout fires: the callback updates the state cells. The
        state always changes, so the effect, which depends on all three cells,
        runs again and schedules the next timeout. As written, that timeout is
        always 45 or 90 ms. */
    method Tick()
      requires Valid() && timer.Some?
      modifies this
      ensures Valid()
      ensures State() == Next(revision, RotatingHeadlines, old(State()))
      ensures State() != old(State())
      ensures timer == Some(Delay(RotatingHeadlines, State()))
      ensures revision == AsWritten ==> timer == Some(if isDeleting then 45 else 90)
    {
      ghost var before := State();
      RotatingHeadlinesWellFormed();
      if revision == AsWritten {
        StepKeepsInv(RotatingHeadlines, before);
        NoTerminalState(RotatingHeadlines, before);
      } else {
        PausingStepKeepsInv(RotatingHeadlines, before);
        PausingNoTerminalState(RotatingHeadlines, before);
      }
      var currentHeadline := RotatingHeadlines[headlineIndex];
      if !isDeleting {
        if revision == WithPauses && typedHeadline == currentHeadline {
          isDeleting := true;
        } else {
          var nextText := SliceTo(currentHeadline, |typedHeadline| + 1);
          typedHeadline := nextText;
          if revision == AsWritten && nextText == currentHeadline {
            isDeleting := true;
          }
        }
      } else {
        if revision == WithPauses && |typedHeadline| == 0 {
          isDeleting := false;
          headlineIndex := (headlineIndex + 1) % |RotatingHeadlines|;
        } else {
          var nextText := SliceTo(currentHeadline, |typedHeadline| - 1);
          typedHeadline := nextText;
          if revision == AsWritten && |nextText| == 0 {
            isDeleting := false;
            headlineIndex := (headlineIndex + 1) % |RotatingHeadlines|;
          }
        }
      }
      assert State() == Next(revision, RotatingHeadlines, before);
      timer := Some(Delay(RotatingHeadlines, State()));
    }

    /** Unmount: the effect's cleanup clears the pending timeout, so no tick
        can change the state afterwards. */
    method Unmount()
      modifies this
      ensures timer == None && State() == old(State())
    {
      timer := None;
    }
  }
}
