/**
 * The secret answer's progressive reveal: a click counter saturating at 15
 * that sets the element's scale, and the part of question navigation that
 * shows or hides the element without touching the counter.
 */
module SecretReveal {
  import JsText

  const MaxLevel: nat := 15
  const ScaleStart: real := 0.85
  const ScaleStep: real := 0.12

  /** `Math.min(level + 1, 15)`. */
  function NextLevel(level: nat): (r: nat)
    ensures r <= MaxLevel
    ensures level < MaxLevel ==> r == level + 1
    ensures level >= MaxLevel ==> r == MaxLevel
  {
    if level + 1 < MaxLevel then level + 1 else MaxLevel
  }

  /** The `--secret-reveal-scale` value for a level. */
  function Scale(level: nat): real {
    ScaleStart + level as real * ScaleStep
  }

  /** The counter never decreases, and a click below the cap raises it by one. */
  lemma NextLevelMonotone(level: nat)
    requires level <= MaxLevel
    ensures level <= NextLevel(level) <= MaxLevel
    ensures NextLevel(level) == level <==> level == MaxLevel
  {
  }

  /** The scale grows by 0.12 per level, from 0.85 at level 0 to 2.65 at the cap. */
  lemma ScaleGrowsLinearly(a: nat, b: nat)
    requires a <= b <= MaxLevel
    ensures Scale(a) <= Scale(b)
    ensures Scale(b) - Scale(a) == (b - a) as real * ScaleStep
    ensures ScaleStart <= Scale(a) && Scale(b) <= 2.65
  {
  }

  /**
   * A page interaction that concerns the counter: a reveal click, or moving to
   * a question, together with whether the page has that question's panel.
   */
  datatype Event = RevealClick | ShowQuestion(questionNumber: int, panelPresent: bool)

  /** The level after a session of events, from level `start`, on a page that has the element. */
  function LevelAfterEvents(start: nat, events: seq<Event>): nat {
    if events == [] then start
    else
      var before := LevelAfterEvents(start, events[..|events| - 1]);
      if events[|events| - 1].RevealClick? then NextLevel(before) else before
  }

  function ClickCount(events: seq<Event>): nat {
    if events == [] then 0
    else ClickCount(events[..|events| - 1]) + (if events[|events| - 1].RevealClick? then 1 else 0)
  }

  /**
   * Navigating between questions never resets the counter: whatever the
   * interleaving, the level is min(start + reveal clicks, 15).
   */
  lemma {:induction false} NavigationNeverResets(start: nat, events: seq<Event>)
    requires start <= MaxLevel
    ensures LevelAfterEvents(start, events)
            == if start + ClickCount(events) < MaxLevel then start + ClickCount(events) else MaxLevel
  {
    if events != [] {
      NavigationNeverResets(start, events[..|events| - 1]);
    }
  }

  /** More clicks never give a smaller level, and the level never falls during a session. */
  lemma LevelNeverFalls(start: nat, events: seq<Event>, more: seq<Event>)
    requires start <= MaxLevel
    ensures start <= LevelAfterEvents(start, events) <= MaxLevel
    ensures ClickCount(events) <= ClickCount(more) ==>
      LevelAfterEvents(start, events) <= LevelAfterEvents(start, more)
  {
    NavigationNeverResets(start, events);
    NavigationNeverResets(start, more);
  }

  /** The secret-answer element and the module-level counter that drives it. */
  class Reveal {
    /** Whether the page has a secret-answer element at all. */
    const present: bool
    var level: nat
    var revealed: bool
    var hidden: bool
    var scale: real
    var levelAttribute: string

    ghost predicate Valid()
      reads this
    {
      level <= MaxLevel
      && (revealed ==> scale == Scale(level) && levelAttribute == JsText.DecimalString(level))
    }

    constructor (present: bool, hidden: bool)
      ensures Valid()
      ensures this.present == present && this.hidden == hidden
      ensures level == 0 && !revealed
    {
      this.present := present;
      this.hidden := hidden;
      level := 0;
      revealed := false;
      scale := ScaleStart;
      levelAttribute := "";
    }

    /** revealSecretAnswer: bump the counter, show the element, set its scale and level attribute. */
    method RevealSecretAnswer()
      requires Valid()
      modifies this
      ensures Valid()
      ensures !present ==> unchanged(this)
      ensures present ==> level == NextLevel(old(level)) && revealed
      ensures present ==> scale == Scale(level) && levelAttribute == JsText.DecimalString(level)
      ensures hidden == old(hidden)
      ensures old(level) <= level
    {
      if !present {
        return;
      }
      level := if level + 1 < MaxLevel then level + 1 else MaxLevel;
      revealed := true;
      scale := ScaleStart + level as real * ScaleStep;
      levelAttribute := JsText.DecimalString(level);
    }

    /**
     * The secret-answer part of showNextQuestion: hidden on every question but
     * the first. `panelPresent` says whether the page has a panel for that
     * question; without one the script throws before it reaches the secret
     * answer, and `thrown` is true with nothing changed. The counter, scale and
     * attribute are never touched, so a return to question 1 shows the element
     * at the size it had.
     */
    method ShowNextQuestion(questionNumber: int, panelPresent: bool) returns (thrown: bool)
      requires Valid()
      modifies this`hidden
      ensures Valid()
      ensures thrown == !panelPresent
      ensures panelPresent && present ==> hidden == (questionNumber != 1)
      ensures !panelPresent || !present ==> hidden == old(hidden)
      ensures level == old(level) && revealed == old(revealed) && scale == old(scale)
    {
      if !panelPresent {
        return true;
      }
      thrown := false;
      if present {
        hidden := questionNumber != 1;
      }
    }

    /**
     * A session on the page: each event calls revealSecretAnswer or
     * showNextQuestion in turn. With the element present the level ends at
     * min(old level + clicks, 15) whatever the navigation in between; without
     * it the level never moves.
     */
    method Run(events: seq<Event>)
      requires Valid()
      modifies this
      ensures Valid()
      ensures present ==> level == LevelAfterEvents(old(level), events)
      ensures present ==> level == if old(level) + ClickCount(events) < MaxLevel
                                   then old(level) + ClickCount(events) else MaxLevel
      ensures !present ==> level == old(level)
    {
      ghost var start := level;
      var i := 0;
      while i < |events|
        invariant 0 <= i <= |events|
        invariant Valid()
        invariant present ==> level == LevelAfterEvents(start, events[..i])
        invariant !present ==> level == start
      {
        assert events[..i + 1][..i] == events[..i];
        match events[i] {
          case RevealClick =>
            RevealSecretAnswer();
          case ShowQuestion(n, panelPresent) =>
            var thrown := ShowNextQuestion(n, panelPresent);
        }
        i := i + 1;
      }
      assert events[..i] == events;
      NavigationNeverResets(start, events);
    }
  }
}
