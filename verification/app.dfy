/** The screens of root/js/main.js wired together: category choice, the four-step
    countdown, the word load, the game (timer ticks and tilts) and the results,
    back to the menu. Each callback the browser would run is one `Event`, and an
    arbitrary sequence of events stands for any interleaving of the timers and the
    sensor. The DOM and audio are reduced to the `Effect`s each callback emits. */
module App {
  import opened Wrappers
  import Shuffle
  import Tilt
  import opened GameSession

  /** The labels `startCountdown` shows, one per second. */
  const CountdownLabels: seq<string> := ["3", "2", "1", "Go!"]

  datatype Phase =
    | Menu
    | Countdown(step: nat, category: string)   // showing CountdownLabels[step]
    | Loading(category: string)                // `startGame` awaiting the fetch
    | Playing(session: Session)
    | Ended(session: Session)                  // results shown; `gameState` kept until the menu button

  /** The whole program state: the screen phase and the global `tiltCooldown`. */
  datatype App = App(phase: Phase, cooldown: Tilt.Cooldown)

  datatype Event =
    | SelectCategory(category: string)                 // click on a category
    | CountdownTick                                    // the countdown interval fires
    | WordsLoaded(words: seq<string>, draws: seq<real>) // the fetch resolves; draws feed `shuffle`
    | GameTick                                         // the game interval fires
    | Motion(now: int, z: Option<real>)                // a `devicemotion` sample at `now` ms
    | MenuButton                                       // click on the results menu button

  datatype Screen = MenuScreen | CountdownScreen | GameScreen | ResultsScreen

  datatype Effect =
    | Show(screen: Screen)
    | ShowCountdownLabel(text: string)
    | ShowWord(word: Answer)
    | ShowTimer(seconds: int)
    | ShowResults(view: ResultsView)
    | FetchWords(category: string)
    | PlayCountdown | PlayCorrect | PlaySkip | PlayTicking | PlayGameOver

  datatype Trace = Trace(app: App, effects: seq<Effect>)

  const Init: App := App(Menu, Tilt.Ready)

  /** The only event that carries a precondition is the load: `Math.random` yields draws in [0, 1). */
  predicate WellFormed(e: Event) {
    e.WordsLoaded? ==> Shuffle.DrawsFor(|e.words|, e.draws)
  }

  predicate AllWellFormed(evs: seq<Event>) {
    forall k :: 0 <= k < |evs| ==> WellFormed(evs[k])
  }

  /** The callbacks that can run in each phase. The countdown interval, the pending
      fetch, the game interval and the motion listener exist only in their phase. The
      category and menu-button click handlers stay bound for good, but a click reaches
      only the visible screen: category buttons on the menu, the menu button on the
      results screen. A second category click while the permission request is still
      pending is not modelled. */
  predicate Listens(p: Phase, e: Event) {
    match p
    case Menu => e.SelectCategory?
    case Countdown(_, _) => e.CountdownTick?
    case Loading(_) => e.WordsLoaded?
    case Playing(_) => e.GameTick? || e.Motion?
    case Ended(_) => e.MenuButton?
  }

  /** The position of a phase in the cycle menu, countdown, loading, game, results. */
  function Rank(p: Phase): nat {
    match p
    case Menu => 0
    case Countdown(_, _) => 1
    case Loading(_) => 2
    case Playing(_) => 3
    case Ended(_) => 4
  }

  /** The screen visible in each phase; the countdown screen stays up during the load. */
  function ScreenOf(p: Phase): Screen {
    match p
    case Menu => MenuScreen
    case Countdown(_, _) => CountdownScreen
    case Loading(_) => CountdownScreen
    case Playing(_) => GameScreen
    case Ended(_) => ResultsScreen
  }

  /** `startCountdown`: the countdown screen with its first label and sound. */
  function StartCountdown(a: App, c: string): (t: Trace)
    ensures t.app.phase.Countdown? && t.app.phase.category == c
    ensures t.app.phase.step < |CountdownLabels| && CountdownLabels[t.app.phase.step] == "3"
    ensures t.app.cooldown == a.cooldown
    ensures t.effects == [Show(ScreenOf(t.app.phase)), ShowCountdownLabel("3"), PlayCountdown]
  {
    Trace(a.(phase := Countdown(0, c)), [Show(CountdownScreen), ShowCountdownLabel(CountdownLabels[0]), PlayCountdown])
  }

  /** The countdown interval: the next label, or after the last one the interval is
      cleared and `startGame` begins with the fetch. */
  function CountdownInterval(a: App): (t: Trace)
    requires a.phase.Countdown?
    ensures t.app.cooldown == a.cooldown
    ensures t.app.phase.Countdown? <==> a.phase.step + 1 < |CountdownLabels|
    ensures t.app.phase.Countdown? ==>
      && t.app.phase == Countdown(a.phase.step + 1, a.phase.category)
      && t.effects == [ShowCountdownLabel(CountdownLabels[a.phase.step + 1]), PlayCountdown]
    ensures !t.app.phase.Countdown? ==>
      t.app.phase == Loading(a.phase.category) && t.effects == [FetchWords(a.phase.category)]
  {
    var i := a.phase.step;
    var c := a.phase.category;
    if i + 1 < |CountdownLabels| then
      Trace(a.(phase := Countdown(i + 1, c)), [ShowCountdownLabel(CountdownLabels[i + 1]), PlayCountdown])
    else
      Trace(a.(phase := Loading(c)), [FetchWords(c)])
  }

  /** The rest of `startGame` once the words have arrived: the record, the first
      word and the timer display; the tilt listener is attached. */
  function StartGame(a: App, words: seq<string>, draws: seq<real>): (t: Trace)
    requires Shuffle.DrawsFor(|words|, draws)
    ensures t.app.phase.Playing? && t.app.cooldown == a.cooldown
    ensures var s := t.app.phase.session;
      && multiset(s.words) == multiset(words)
      && s.wordIndex == 0 && s.correct == [] && s.skipped == []
      && s.timeRemaining == GameDuration && !s.tickingPlayed
    ensures var s := t.app.phase.session;
      t.effects == [Show(GameScreen), ShowTimer(GameDuration), ShowWord(WordAt(s.words, 0))]
    ensures t.effects[2].word.Some? <==> |words| > 0
  {
    var s := Start(words, draws);
    Trace(a.(phase := Playing(s)), [Show(GameScreen), ShowTimer(s.timeRemaining), ShowWord(CurrentWord(s))])
  }

  /** The game interval; on expiry `endGame` and `showResults` run in the same callback. */
  function GameInterval(a: App): (t: Trace)
    requires a.phase.Playing?
    ensures t.app.cooldown == a.cooldown
    ensures var s := a.phase.session;
      t.app.phase.Ended? <==> s.timeRemaining <= 1
    ensures var s := a.phase.session;
      !t.app.phase.Ended? ==>
        t.app.phase == Playing(s.(timeRemaining := s.timeRemaining - 1,
                                  tickingPlayed := s.tickingPlayed || s.timeRemaining - 1 == TickingAt))
    ensures t.app.phase.Ended? ==>
      && t.app.phase.session.correct == a.phase.session.correct
      && t.app.phase.session.timeRemaining == a.phase.session.timeRemaining - 1
      && |t.effects| >= 4
      && t.effects[|t.effects| - 3..] == [PlayGameOver, ShowResults(Results(t.app.phase.session)), Show(ResultsScreen)]
    ensures |t.effects| > 0 && t.effects[0] == ShowTimer(a.phase.session.timeRemaining - 1)
    ensures var s := a.phase.session;
      (|t.effects| > 1 && t.effects[1] == PlayTicking) <==> s.timeRemaining - 1 == TickingAt && !s.tickingPlayed
  {
    var o := Tick(a.phase.session);
    var shown := [ShowTimer(o.session.timeRemaining)] + (if o.ticking then [PlayTicking] else []);
    if o.expired then
      var f := EndGame(o.session);
      Trace(a.(phase := Ended(f)), shown + [PlayGameOver, ShowResults(Results(f)), Show(ResultsScreen)])
    else
      Trace(a.(phase := Playing(o.session)), shown)
  }

  /** `handleMotion` and, for an accepted tilt, `triggerAction` and `nextWord`. */
  function MotionSample(a: App, now: int, z: Option<real>): (t: Trace)
    requires a.phase.Playing?
    ensures t.app.phase.Playing?
    ensures var s, s' := a.phase.session, t.app.phase.session;
      var act := Tilt.Classify(Tilt.AxisZ(z));
      && (s' != s <==> !Tilt.Active(a.cooldown, now) && act.Some?)
      && (act == Some(Tilt.Correct) && s' != s ==>
            && s'.correct == s.correct + [CurrentWord(s)] && s'.skipped == s.skipped
            && |t.effects| > 0 && t.effects[0] == PlayCorrect)
      && (act == Some(Tilt.Skip) && s' != s ==>
            && s'.skipped == s.skipped + [CurrentWord(s)] && s'.correct == s.correct
            && |t.effects| > 0 && t.effects[0] == PlaySkip)
      && (s' != s ==> s'.wordIndex == s.wordIndex + 1 && t.app.cooldown == Tilt.Cooling(now + Tilt.TiltCooldownMs))
      && (s' == s ==> t.effects == [] && t.app.cooldown == Tilt.Settle(a.cooldown, now))
    ensures var s' := t.app.phase.session;
      t.effects != [] ==>
        && (|t.effects| == 2 <==> s'.wordIndex < |s'.words|)
        && (|t.effects| == 2 ==> t.effects[1] == ShowWord(Some(s'.words[s'.wordIndex])))
  {
    var r := Tilt.HandleMotion(a.cooldown, true, now, z);
    match r.action
    case None => Trace(a.(cooldown := r.cooldown), [])
    case Some(act) =>
      var s' := NextWord(a.phase.session, act == Tilt.Correct);
      var cue := if act == Tilt.Correct then PlayCorrect else PlaySkip;
      var shown := if s'.wordIndex < |s'.words| then [ShowWord(CurrentWord(s'))] else [];
      Trace(App(Playing(s'), r.cooldown), [cue] + shown)
  }

  /** The results menu button: `gameState = null` and the menu screen. */
  function BackToMenu(a: App): (t: Trace)
    ensures t.app.phase == Menu && t.effects == [Show(MenuScreen)]
    ensures t.app.cooldown == a.cooldown
  {
    Trace(a.(phase := Menu), [Show(MenuScreen)])
  }

  /** One callback. An event without a listener in the current phase changes nothing. */
  function Step(a: App, e: Event): (t: Trace)
    requires WellFormed(e)
  {
    if !Listens(a.phase, e) then Trace(a, [])
    else
      match e
      case SelectCategory(c) => StartCountdown(a, c)
      case CountdownTick => CountdownInterval(a)
      case WordsLoaded(words, draws) => StartGame(a, words, draws)
      case GameTick => GameInterval(a)
      case Motion(now, z) => MotionSample(a, now, z)
      case MenuButton => BackToMenu(a)
  }

  function Run(a: App, evs: seq<Event>): (t: Trace)
    requires AllWellFormed(evs)
    decreases |evs|
  {
    if evs == [] then Trace(a, [])
    else
      var t1 := Step(a, evs[0]);
      var t2 := Run(t1.app, evs[1..]);
      Trace(t2.app, t1.effects + t2.effects)
  }
}

module AppProperties {
  import opened Wrappers
  import Shuffle
  import Tilt
  import opened GameSession
  import opened App

  /** What holds of every reachable state. */
  predicate Inv(a: App) {
    match a.phase
    case Menu => true
    case Countdown(i, _) => i < |CountdownLabels|
    case Loading(_) => true
    case Playing(s) =>
      && Tallied(s)
      && 1 <= s.timeRemaining <= GameDuration
      && (s.tickingPlayed <==> s.timeRemaining <= TickingAt)
    case Ended(s) =>
      && |s.correct| + |s.skipped| == s.wordIndex + (if Truthy(CurrentWord(s)) then 1 else 0)
      && s.timeRemaining == 0
      && s.tickingPlayed
  }

  lemma StepPreservesInv(a: App, e: Event)
    requires Inv(a) && WellFormed(e)
    ensures Inv(Step(a, e).app)
  {
  }

  /** A callback's trace keeps to the cycle: the phase stays or moves one place along
      menu, countdown, loading, game, results; every screen switch shows the screen of
      the phase reached, and a change of screen is shown. */
  predicate FollowsCycle(a: App, t: Trace) {
    && (Rank(t.app.phase) == Rank(a.phase) || Rank(t.app.phase) == (Rank(a.phase) + 1) % 5)
    && (forall k :: 0 <= k < |t.effects| && t.effects[k].Show? ==> t.effects[k].screen == ScreenOf(t.app.phase))
    && (ScreenOf(t.app.phase) != ScreenOf(a.phase) ==> Show(ScreenOf(t.app.phase)) in t.effects)
  }

  lemma GameIntervalFollowsCycle(a: App)
    requires a.phase.Playing?
    ensures FollowsCycle(a, GameInterval(a))
  {
    var o := Tick(a.phase.session);
    var t := GameInterval(a);
    if o.expired {
      assert t.effects[|t.effects| - 1] == Show(ResultsScreen);
    }
  }

  /** Beyond the two lists and the index, an accepted tilt leaves the game record alone:
      `triggerAction` and `nextWord` touch neither the words, the clock nor the cue flag. */
  lemma MotionSampleFrame(a: App, now: int, z: Option<real>)
    requires a.phase.Playing?
    ensures var s, s' := a.phase.session, MotionSample(a, now, z).app.phase.session;
      s'.words == s.words && s'.timeRemaining == s.timeRemaining && s'.tickingPlayed == s.tickingPlayed
  {
  }

  /** The effects of one game tick, exactly: the clock display, the ticking cue only
      on the first reach of 15, and the game-over sound and results only on expiry. */
  lemma GameIntervalEffects(a: App)
    requires a.phase.Playing?
    ensures var s, t := a.phase.session, GameInterval(a);
      t.effects
        == [ShowTimer(s.timeRemaining - 1)]
         + (if s.timeRemaining - 1 == TickingAt && !s.tickingPlayed then [PlayTicking] else [])
         + (if t.app.phase.Ended?
            then [PlayGameOver, ShowResults(Results(t.app.phase.session)), Show(ResultsScreen)]
            else [])
  {
  }

  /** A tilt emits at most its sound and the next word: nothing for a rejected sample,
      and no word display once the words have run out. */
  lemma MotionSampleEffects(a: App, now: int, z: Option<real>)
    requires a.phase.Playing?
    ensures var t := MotionSample(a, now, z);
      && |t.effects| <= 2
      && (t.effects != [] ==> t.effects[0] == PlayCorrect || t.effects[0] == PlaySkip)
      && (t.app.phase.session.wordIndex >= |t.app.phase.session.words| ==> |t.effects| <= 1)
  {
  }

  /** The expiring tick runs `endGame`: the words and index are kept, and only a
      truthy word on screen joins the skipped list. */
  lemma GameIntervalEndsGame(a: App)
    requires a.phase.Playing? && a.phase.session.timeRemaining <= 1
    ensures var s, f := a.phase.session, GameInterval(a).app.phase.session;
      && GameInterval(a).app.phase.Ended?
      && f.words == s.words && f.wordIndex == s.wordIndex && f.correct == s.correct
      && f.skipped == s.skipped + (if Truthy(CurrentWord(s)) then [CurrentWord(s)] else [])
  {
  }

  lemma MotionSampleFollowsCycle(a: App, now: int, z: Option<real>)
    requires a.phase.Playing?
    ensures FollowsCycle(a, MotionSample(a, now, z))
  {
  }

  lemma StepCycleGameTick(a: App)
    requires a.phase.Playing?
    ensures FollowsCycle(a, Step(a, GameTick))
  {
    assert Step(a, GameTick) == GameInterval(a);
    GameIntervalFollowsCycle(a);
  }

  lemma StepCycleMotion(a: App, now: int, z: Option<real>)
    requires a.phase.Playing?
    ensures FollowsCycle(a, Step(a, Motion(now, z)))
  {
    assert Step(a, Motion(now, z)) == MotionSample(a, now, z);
    MotionSampleFollowsCycle(a, now, z);
  }

  lemma StepCycleCountdown(a: App, e: Event)
    requires WellFormed(e) && Listens(a.phase, e) && (e.SelectCategory? || e.CountdownTick?)
    ensures FollowsCycle(a, Step(a, e))
  {
    if e.SelectCategory? {
      assert Step(a, e) == StartCountdown(a, e.category);
    } else {
      assert Step(a, e) == CountdownInterval(a);
    }
  }

  lemma StepCycleLoadOrMenu(a: App, e: Event)
    requires WellFormed(e) && Listens(a.phase, e) && (e.WordsLoaded? || e.MenuButton?)
    ensures FollowsCycle(a, Step(a, e))
  {
    if e.WordsLoaded? {
      assert Step(a, e) == StartGame(a, e.words, e.draws);
    } else {
      assert Step(a, e) == BackToMenu(a);
    }
  }

  lemma StepCycle(a: App, e: Event)
    requires WellFormed(e)
    ensures FollowsCycle(a, Step(a, e))
  {
    if !Listens(a.phase, e) {
      assert Step(a, e) == Trace(a, []);
    } else if e.GameTick? {
      StepCycleGameTick(a);
    } else if e.Motion? {
      StepCycleMotion(a, e.now, e.z);
    } else if e.SelectCategory? || e.CountdownTick? {
      StepCycleCountdown(a, e);
    } else {
      StepCycleLoadOrMenu(a, e);
    }
  }

  lemma StepCooldown(a: App, e: Event)
    requires WellFormed(e)
    ensures !e.Motion? ==> Step(a, e).app.cooldown == a.cooldown
  {
  }

  /** The phase either stays or moves one place along the cycle menu, countdown,
      loading, game, results; every screen switch shows the screen of the phase
      reached, and a phase change that changes the screen shows it; only motion
      samples touch the cooldown. */
  lemma StepFollowsCycle(a: App, e: Event)
    requires WellFormed(e)
    ensures !Listens(a.phase, e) ==> Step(a, e) == Trace(a, [])
    ensures var p := Step(a, e).app.phase;
      Rank(p) == Rank(a.phase) || Rank(p) == (Rank(a.phase) + 1) % 5
    ensures var t := Step(a, e);
      forall k :: 0 <= k < |t.effects| && t.effects[k].Show? ==> t.effects[k].screen == ScreenOf(t.app.phase)
    ensures var t := Step(a, e);
      ScreenOf(t.app.phase) != ScreenOf(a.phase) ==> Show(ScreenOf(t.app.phase)) in t.effects
    ensures !e.Motion? ==> Step(a, e).app.cooldown == a.cooldown
  {
    StepCycle(a, e);
    StepCooldown(a, e);
  }

  /** The invariant is kept by any sequence of callbacks from a state that has it. */
  lemma {:induction false} RunPreservesInv(a: App, evs: seq<Event>)
    requires Inv(a) && AllWellFormed(evs)
    ensures Inv(Run(a, evs).app)
    decreases |evs|
  {
    if evs != [] {
      StepPreservesInv(a, evs[0]);
      RunPreservesInv(Step(a, evs[0]).app, evs[1..]);
    }
  }

  /** Every state reachable from the start (the menu, cooldown clear) satisfies the invariant. */
  lemma ReachableInv(evs: seq<Event>)
    requires AllWellFormed(evs)
    ensures Inv(Init)
    ensures Inv(Run(Init, evs).app)
  {
    RunPreservesInv(Init, evs);
  }

  lemma AllWellFormedAppend(xs: seq<Event>, ys: seq<Event>)
    requires AllWellFormed(xs) && AllWellFormed(ys)
    ensures AllWellFormed(xs + ys)
  {
  }

  lemma {:induction false} RunAppend(a: App, xs: seq<Event>, ys: seq<Event>)
    requires AllWellFormed(xs) && AllWellFormed(ys)
    ensures AllWellFormed(xs + ys)
    ensures Run(a, xs + ys).app == Run(Run(a, xs).app, ys).app
    ensures Run(a, xs + ys).effects == Run(a, xs).effects + Run(Run(a, xs).app, ys).effects
    decreases |xs|
  {
    AllWellFormedAppend(xs, ys);
    if xs == [] {
      assert xs + ys == ys;
    } else {
      assert (xs + ys)[0] == xs[0];
      assert (xs + ys)[1..] == xs[1..] + ys;
      AllWellFormedAppend(xs[1..], ys);
      RunAppend(Step(a, xs[0]).app, xs[1..], ys);
    }
  }

  lemma RunSingle(a: App, e: Event)
    requires WellFormed(e)
    ensures AllWellFormed([e])
    ensures Run(a, [e]) == Step(a, e)
  {
    assert [e][1..] == [];
  }

  /** How many times `x` occurs in `xs`. */
  function Count<T(==)>(xs: seq<T>, x: T): nat
    decreases |xs|
  {
    if xs == [] then 0 else (if xs[0] == x then 1 else 0) + Count(xs[1..], x)
  }

  lemma {:induction false} CountAppend<T>(xs: seq<T>, ys: seq<T>, x: T)
    ensures Count(xs + ys, x) == Count(xs, x) + Count(ys, x)
    decreases |xs|
  {
    if xs == [] {
      assert xs + ys == ys;
    } else {
      assert (xs + ys)[1..] == xs[1..] + ys;
      CountAppend(xs[1..], ys, x);
    }
  }

  lemma CountPair<T>(u: T, v: T, x: T)
    ensures Count([u, v], x) == (if u == x then 1 else 0) + (if v == x then 1 else 0)
  {
    assert [u, v][1..] == [v] && [v][1..] == [];
    assert Count([v], x) == (if v == x then 1 else 0) + Count([v][1..], x);
    assert Count([u, v], x) == (if u == x then 1 else 0) + Count([u, v][1..], x);
  }

  function Repeat(e: Event, k: nat): (evs: seq<Event>)
    ensures |evs| == k && forall i :: 0 <= i < k ==> evs[i] == e
  {
    seq(k, _ => e)
  }

  // ---------------------------------------------------------------------------
  // Countdown

  /** One countdown interval tick: the next label, or the fetch after the last one. */
  lemma CountdownTickStep(i: nat, c: string, cd: Tilt.Cooldown)
    requires i < |CountdownLabels|
    ensures i + 1 < |CountdownLabels| ==>
      Step(App(Countdown(i, c), cd), CountdownTick) ==
      Trace(App(Countdown(i + 1, c), cd), [ShowCountdownLabel(CountdownLabels[i + 1]), PlayCountdown])
    ensures i + 1 == |CountdownLabels| ==>
      Step(App(Countdown(i, c), cd), CountdownTick) == Trace(App(Loading(c), cd), [FetchWords(c)])
  {
  }

  lemma RunRepeat(a: App, e: Event, k: nat)
    requires k > 0 && WellFormed(e)
    ensures AllWellFormed(Repeat(e, k))
    ensures Run(a, Repeat(e, k)) ==
      Trace(Run(Step(a, e).app, Repeat(e, k - 1)).app, Step(a, e).effects + Run(Step(a, e).app, Repeat(e, k - 1)).effects)
  {
    assert Repeat(e, k)[1..] == Repeat(e, k - 1);
  }

  /** The countdown moves one label per interval tick and hands over to the load
      on the fourth; later ticks have no listener. */
  lemma {:induction false} CountdownTicksPhase(i: nat, c: string, cd: Tilt.Cooldown, k: nat)
    requires i < |CountdownLabels|
    ensures Run(App(Countdown(i, c), cd), Repeat(CountdownTick, k)).app ==
      (if i + k < |CountdownLabels| then App(Countdown(i + k, c), cd) else App(Loading(c), cd))
    decreases k
  {
    if k == 0 {
      assert Repeat(CountdownTick, k) == [];
    } else {
      RunRepeat(App(Countdown(i, c), cd), CountdownTick, k);
      CountdownTickStep(i, c, cd);
      if i + 1 < |CountdownLabels| {
        CountdownTicksPhase(i + 1, c, cd, k - 1);
      } else {
        LoadingIgnoresTicks(c, cd, k - 1);
      }
    }
  }

  /** How often an effect occurs in a run of `k` copies of one event: first step, then the rest. */
  lemma RunRepeatCount(a: App, e: Event, k: nat, x: Effect)
    requires k > 0 && WellFormed(e)
    ensures AllWellFormed(Repeat(e, k))
    ensures Count(Run(a, Repeat(e, k)).effects, x) ==
      Count(Step(a, e).effects, x) + Count(Run(Step(a, e).app, Repeat(e, k - 1)).effects, x)
  {
    RunRepeat(a, e, k);
    var t1 := Step(a, e);
    var rest := Run(t1.app, Repeat(e, k - 1));
    CountAppend(t1.effects, rest.effects, x);
  }

  /** The game is started (its words fetched) exactly once, on the fourth interval tick. */
  lemma {:induction false} CountdownFetchesOnce(i: nat, c: string, cd: Tilt.Cooldown, k: nat)
    requires i < |CountdownLabels|
    ensures Count(Run(App(Countdown(i, c), cd), Repeat(CountdownTick, k)).effects, FetchWords(c)) ==
      (if i + k < |CountdownLabels| then 0 else 1)
    decreases k
  {
    if k == 0 {
      assert Repeat(CountdownTick, k) == [];
    } else {
      var a := App(Countdown(i, c), cd);
      RunRepeatCount(a, CountdownTick, k, FetchWords(c));
      CountdownTickStep(i, c, cd);
      var t1 := Step(a, CountdownTick);
      if i + 1 < |CountdownLabels| {
        CountdownFetchesOnce(i + 1, c, cd, k - 1);
        CountPair(ShowCountdownLabel(CountdownLabels[i + 1]), PlayCountdown, FetchWords(c));
      } else {
        LoadingIgnoresTicks(c, cd, k - 1);
        assert Count(t1.effects, FetchWords(c)) == 1;
      }
    }
  }

  /** The countdown sound plays once for each label shown after the first. */
  lemma {:induction false} CountdownSounds(i: nat, c: string, cd: Tilt.Cooldown, k: nat)
    requires i < |CountdownLabels|
    ensures Count(Run(App(Countdown(i, c), cd), Repeat(CountdownTick, k)).effects, PlayCountdown) ==
      (if i + k < |CountdownLabels| then k else |CountdownLabels| - 1 - i)
    decreases k
  {
    if k == 0 {
      assert Repeat(CountdownTick, k) == [];
    } else {
      var a := App(Countdown(i, c), cd);
      RunRepeatCount(a, CountdownTick, k, PlayCountdown);
      CountdownTickStep(i, c, cd);
      var t1 := Step(a, CountdownTick);
      if i + 1 < |CountdownLabels| {
        CountdownSounds(i + 1, c, cd, k - 1);
        CountPair(ShowCountdownLabel(CountdownLabels[i + 1]), PlayCountdown, PlayCountdown);
      } else {
        LoadingIgnoresTicks(c, cd, k - 1);
        assert Count(t1.effects, PlayCountdown) == 0;
      }
    }
  }

  lemma {:induction false} LoadingIgnoresTicks(c: string, cd: Tilt.Cooldown, k: nat)
    ensures Run(App(Loading(c), cd), Repeat(CountdownTick, k)) == Trace(App(Loading(c), cd), [])
    decreases k
  {
    if k > 0 {
      assert Repeat(CountdownTick, k)[1..] == Repeat(CountdownTick, k - 1);
      LoadingIgnoresTicks(c, cd, k - 1);
    }
  }

  /** While counting down, tilts, game ticks, loads and clicks are ignored. */
  lemma CountdownIgnoresOtherEvents(a: App, e: Event)
    requires a.phase.Countdown? && !e.CountdownTick? && WellFormed(e)
    ensures Step(a, e) == Trace(a, [])
  {
  }

  // ---------------------------------------------------------------------------
  // The game clock

  function GameTicks(evs: seq<Event>): nat {
    Count(evs, GameTick)
  }

  /** Whatever tilts arrive in between, the game is still on after fewer game ticks
      than the seconds remaining, its clock down by exactly one per tick; without
      tilts the answers are untouched. */
  lemma {:induction false} PlayingUntilTimeRunsOut(a: App, evs: seq<Event>)
    requires a.phase.Playing? && AllWellFormed(evs)
    requires GameTicks(evs) < a.phase.session.timeRemaining
    ensures Run(a, evs).app.phase.Playing?
    ensures Run(a, evs).app.phase.session.timeRemaining == a.phase.session.timeRemaining - GameTicks(evs)
    ensures (forall k :: 0 <= k < |evs| ==> !evs[k].Motion?) ==>
      var s' := Run(a, evs).app.phase.session;
      var s := a.phase.session;
      s'.words == s.words && s'.wordIndex == s.wordIndex && s'.correct == s.correct && s'.skipped == s.skipped
    decreases |evs|
  {
    if evs != [] {
      PlayingUntilTimeRunsOut(Step(a, evs[0]).app, evs[1..]);
    }
  }

  lemma {:induction false} RepeatCount(e: Event, k: nat)
    ensures Count(Repeat(e, k), e) == k
    decreases k
  {
    if k == 0 {
      assert Repeat(e, k) == [];
    } else {
      assert Repeat(e, k)[1..] == Repeat(e, k - 1);
      RepeatCount(e, k - 1);
    }
  }

  /** With no tilts, a game with `T` seconds left ends on the `T`-th tick, and only
      the word then on screen is added, to the skipped list, when it is truthy. */
  lemma TimeRunsOut(a: App)
    requires a.phase.Playing? && a.phase.session.timeRemaining >= 1
    ensures AllWellFormed(Repeat(GameTick, a.phase.session.timeRemaining))
    ensures
      var s := a.phase.session;
      var e := Run(a, Repeat(GameTick, s.timeRemaining)).app.phase;
      && e.Ended?
      && e.session.wordIndex == s.wordIndex
      && e.session.correct == s.correct
      && e.session.skipped == s.skipped + (if Truthy(CurrentWord(s)) then [CurrentWord(s)] else [])
  {
    var n := a.phase.session.timeRemaining;
    var before := Repeat(GameTick, n - 1);
    RepeatCount(GameTick, n - 1);
    PlayingUntilTimeRunsOut(a, before);
    assert Repeat(GameTick, n) == before + [GameTick];
    RunAppend(a, before, [GameTick]);
    var m := Run(a, before).app;
    RunSingle(m, GameTick);
    LastTickEnds(m);
  }

  /** The tick that finds one second left ends the game, adding only the truthy word
      on screen to the skipped list. */
  lemma LastTickEnds(m: App)
    requires m.phase.Playing? && m.phase.session.timeRemaining == 1
    ensures
      var s := m.phase.session;
      var e := Step(m, GameTick).app.phase;
      && e.Ended?
      && e.session.wordIndex == s.wordIndex
      && e.session.correct == s.correct
      && e.session.skipped == s.skipped + (if Truthy(CurrentWord(s)) then [CurrentWord(s)] else [])
  {
    assert Step(m, GameTick) == GameInterval(m);
  }

  /** The game ends on the tick that uses up the last second, not before. */
  lemma EndsOnLastTick(a: App, evs: seq<Event>)
    requires a.phase.Playing? && AllWellFormed(evs)
    requires GameTicks(evs) == a.phase.session.timeRemaining - 1
    ensures AllWellFormed(evs + [GameTick])
    ensures Run(a, evs + [GameTick]).app.phase.Ended?
  {
    PlayingUntilTimeRunsOut(a, evs);
    RunAppend(a, evs, [GameTick]);
  }

  /** From the load, a game lasts exactly `GameDuration` game ticks. */
  lemma GameLastsDuration(c: string, cd: Tilt.Cooldown, words: seq<string>, draws: seq<real>, evs: seq<Event>)
    requires Shuffle.DrawsFor(|words|, draws) && AllWellFormed(evs)
    ensures AllWellFormed([WordsLoaded(words, draws)] + evs)
    ensures GameTicks(evs) < GameDuration ==>
      Run(App(Loading(c), cd), [WordsLoaded(words, draws)] + evs).app.phase.Playing?
    ensures GameTicks(evs) == GameDuration - 1 ==>
      AllWellFormed([WordsLoaded(words, draws)] + evs + [GameTick]) &&
      Run(App(Loading(c), cd), [WordsLoaded(words, draws)] + evs + [GameTick]).app.phase.Ended?
  {
    var load := [WordsLoaded(words, draws)];
    var a := App(Loading(c), cd);
    RunAppend(a, load, evs);
    var b := Run(a, load).app;
    if GameTicks(evs) < GameDuration {
      PlayingUntilTimeRunsOut(b, evs);
    }
    if GameTicks(evs) == GameDuration - 1 {
      RunAppend(a, load, evs + [GameTick]);
      assert load + evs + [GameTick] == load + (evs + [GameTick]);
      EndsOnLastTick(b, evs);
    }
  }

  // ---------------------------------------------------------------------------
  // Tilts during the game

  /** Two spikes less than the cooldown apart advance the word once. */
  lemma TwoSpikesOneAdvance(a: App, t1: int, z1: Option<real>, t2: int, z2: Option<real>)
    requires a.phase.Playing?
    requires Tilt.HandleMotion(a.cooldown, true, t1, z1).action.Some?
    requires t1 <= t2 < t1 + Tilt.TiltCooldownMs
    ensures Step(Step(a, Motion(t1, z1)).app, Motion(t2, z2)).app.phase.Playing?
    ensures Step(Step(a, Motion(t1, z1)).app, Motion(t2, z2)).app.phase.session.wordIndex ==
      a.phase.session.wordIndex + 1
  {
    Tilt.TwoSpikes(a.cooldown, t1, z1, t2, z2);
  }

  // ---------------------------------------------------------------------------
  // After the game

  /** Once the game has ended nothing but the menu button has a listener, so a
      tilt or tick that comes after the last tick changes nothing. */
  lemma {:induction false} EndedIsFinal(a: App, evs: seq<Event>)
    requires a.phase.Ended? && AllWellFormed(evs)
    requires forall k :: 0 <= k < |evs| ==> evs[k] != MenuButton
    ensures Run(a, evs) == Trace(a, [])
    decreases |evs|
  {
    if evs != [] {
      EndedIsFinal(a, evs[1..]);
    }
  }

  /** The menu button drops the game record. */
  lemma MenuClearsGame(a: App)
    requires a.phase.Ended?
    ensures Step(a, MenuButton) == Trace(a.(phase := Menu), [Show(MenuScreen)])
  {
  }

  lemma {:induction false} MenuStepThenChoose(a: App, c: string)
    requires a.phase.Ended?
    ensures AllWellFormed([MenuButton, SelectCategory(c)])
    ensures Run(a, [MenuButton, SelectCategory(c)])
      == Trace(StartCountdown(BackToMenu(a).app, c).app,
               BackToMenu(a).effects + StartCountdown(BackToMenu(a).app, c).effects)
  {
    var evs := [MenuButton, SelectCategory(c)];
    assert evs[1..] == [SelectCategory(c)];
    assert evs[1..][1..] == [];
    assert Step(a, MenuButton) == BackToMenu(a);
    var m := BackToMenu(a);
    var cd := StartCountdown(m.app, c);
    assert Step(m.app, SelectCategory(c)) == cd;
    assert Run(cd.app, []) == Trace(cd.app, []);
    assert Run(m.app, [SelectCategory(c)]) == Trace(cd.app, cd.effects + []);
    assert Run(a, evs) == Trace(cd.app, m.effects + (cd.effects + []));
    assert cd.effects + [] == cd.effects;
  }

  /** Nothing of a finished game survives the menu button except the tilt cooldown:
      two results screens with the same cooldown lead, through the menu and a category
      choice, to the same countdown with the same effects. */
  lemma {:induction false} MenuForgetsGame(a: App, b: App, c: string)
    requires a.phase.Ended? && b.phase.Ended? && a.cooldown == b.cooldown
    ensures Run(a, [MenuButton, SelectCategory(c)]) == Run(b, [MenuButton, SelectCategory(c)])
    ensures Run(a, [MenuButton, SelectCategory(c)]).app == App(Countdown(0, c), a.cooldown)
  {
    MenuStepThenChoose(a, c);
    MenuStepThenChoose(b, c);
    assert BackToMenu(a).app == BackToMenu(b).app;
  }
}

/** Worked runs of the game on concrete inputs. */
module Scenarios {
  import opened Wrappers
  import Shuffle
  import Tilt
  import opened GameSession
  import opened App
  import opened AppProperties

  /** Draws 0.9, 0.9 pick j = 2 for i = 2 and j = 1 for i = 1: the order is kept. */
  lemma CatDogFoxDeck()
    ensures Shuffle.DrawsFor(3, [0.9, 0.9])
    ensures Start(["cat", "dog", "fox"], [0.9, 0.9]).words == ["cat", "dog", "fox"]
  {
    assert Shuffle.RandomIndex(0.9, 3) == 2;
    assert Shuffle.RandomIndex(0.9, 2) == 1;
  }

  /** The load keeps the order under draws 0.9, 0.9, and a -5 m/s² tilt marks "cat" correct. */
  lemma CatDogFoxOpening()
    ensures AllWellFormed([WordsLoaded(["cat", "dog", "fox"], [0.9, 0.9]), Motion(0, Some(-5.0))])
    ensures
      var a := Run(App(Loading("animals"), Tilt.Ready), [WordsLoaded(["cat", "dog", "fox"], [0.9, 0.9]), Motion(0, Some(-5.0))]).app;
      a.phase.Playing? &&
      a.phase.session.words == ["cat", "dog", "fox"] &&
      a.phase.session.wordIndex == 1 &&
      a.phase.session.correct == [Some("cat")] &&
      a.phase.session.skipped == [] &&
      a.phase.session.timeRemaining == GameDuration
  {
    var words := ["cat", "dog", "fox"];
    var draws := [0.9, 0.9];
    var a0 := App(Loading("animals"), Tilt.Ready);
    CatDogFoxDeck();
    var a1 := Step(a0, WordsLoaded(words, draws)).app;
    assert a1.phase == Playing(Start(words, draws));
    RunSingle(a0, WordsLoaded(words, draws));
    RunSingle(a1, Motion(0, Some(-5.0)));
    assert [WordsLoaded(words, draws), Motion(0, Some(-5.0))] == [WordsLoaded(words, draws)] + [Motion(0, Some(-5.0))];
    RunAppend(a0, [WordsLoaded(words, draws)], [Motion(0, Some(-5.0))]);
  }

  /** Continuing: the clock runs out while "dog" is on screen. The results hold one
      correct word and one skipped word, and "fox" is never reached. */
  lemma CatDogFox()
    ensures
      var evs := [WordsLoaded(["cat", "dog", "fox"], [0.9, 0.9]), Motion(0, Some(-5.0))]
        + Repeat(GameTick, GameDuration);
      AllWellFormed(evs) &&
      var t := Run(App(Loading("animals"), Tilt.Ready), evs);
      t.app.phase.Ended? &&
      t.app.phase.session.correct == [Some("cat")] &&
      t.app.phase.session.skipped == [Some("dog")] &&
      t.app.phase.session.wordIndex == 1
  {
    var a0 := App(Loading("animals"), Tilt.Ready);
    var prefix := [WordsLoaded(["cat", "dog", "fox"], [0.9, 0.9]), Motion(0, Some(-5.0))];
    CatDogFoxOpening();
    var a2 := Run(a0, prefix).app;
    TimeRunsOut(a2);
    RunAppend(a0, prefix, Repeat(GameTick, GameDuration));
  }

  /** A -5 m/s² spike registers as correct; the same spike 200 ms later is ignored;
      1100 ms after the first it registers again. */
  lemma SpikeCooldown()
    ensures
      var r1 := Tilt.HandleMotion(Tilt.Ready, true, 0, Some(-5.0));
      var r2 := Tilt.HandleMotion(r1.cooldown, true, 200, Some(-5.0));
      var r3 := Tilt.HandleMotion(r2.cooldown, true, 1100, Some(-5.0));
      r1.action == Some(Tilt.Correct) && r2.action == None && r3.action == Some(Tilt.Correct)
  {
  }
}
