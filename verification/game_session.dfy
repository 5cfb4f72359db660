/** The `gameState` record of root/js/main.js and the pure steps that change it:
    `nextWord`, the 1 Hz timer tick of `startGame`, `endGame` and the list that
    `showResults` assembles. */
module GameSession {
  import opened Wrappers
  import Shuffle

  /** Seconds a game lasts: the timer starts here and ticks once per second. */
  const GameDuration: int := 16
  /** The remaining time at which the ticking cue plays. */
  const TickingAt: int := 15

  /** An answer is whatever `words[wordIndex]` read: `None` is JavaScript's `undefined`. */
  type Answer = Option<string>

  datatype Session = Session(
    words: seq<string>,
    wordIndex: nat,
    correct: seq<Answer>,
    skipped: seq<Answer>,
    timeRemaining: int,
    tickingPlayed: bool)

  /** A JavaScript array read: `undefined` past the end. */
  function WordAt(words: seq<string>, k: nat): (w: Answer)
    ensures w.Some? <==> k < |words|
    ensures w.Some? ==> w.value == words[k]
  {
    if k < |words| then Some(words[k]) else None
  }

  function CurrentWord(s: Session): Answer {
    WordAt(s.words, s.wordIndex)
  }

  /** JavaScript truthiness of the word read: `undefined` and `""` are falsy. */
  predicate Truthy(w: Answer) {
    w.Some? && w.value != ""
  }

  /** Every word passed so far is recorded in one of the two lists. */
  predicate Tallied(s: Session) {
    |s.correct| + |s.skipped| == s.wordIndex
  }

  /** The record built by `startGame` once the word list has arrived. */
  function Start(words: seq<string>, draws: seq<real>): (s: Session)
    requires Shuffle.DrawsFor(|words|, draws)
    ensures multiset(s.words) == multiset(words)
    ensures s.wordIndex == 0 && s.correct == [] && s.skipped == []
    ensures s.timeRemaining == GameDuration && !s.tickingPlayed
    ensures Tallied(s)
  {
    Session(Shuffle.Shuffle(words, draws), 0, [], [], GameDuration, false)
  }

  /** `nextWord(correct)`: records the word on screen, with no bounds check. */
  function NextWord(s: Session, correct: bool): (r: Session)
    ensures r.wordIndex == s.wordIndex + 1
    ensures correct ==> r.correct == s.correct + [CurrentWord(s)] && r.skipped == s.skipped
    ensures !correct ==> r.skipped == s.skipped + [CurrentWord(s)] && r.correct == s.correct
    ensures r.words == s.words && r.timeRemaining == s.timeRemaining && r.tickingPlayed == s.tickingPlayed
    ensures Tallied(s) <==> Tallied(r)
  {
    var w := CurrentWord(s);
    if correct then s.(correct := s.correct + [w], wordIndex := s.wordIndex + 1)
    else s.(skipped := s.skipped + [w], wordIndex := s.wordIndex + 1)
  }

  /** Past the last word a tilt still counts, recording `undefined`. */
  lemma NextWordPastEnd(s: Session, correct: bool)
    requires s.wordIndex >= |s.words|
    ensures correct ==> NextWord(s, correct).correct == s.correct + [None]
    ensures !correct ==> NextWord(s, correct).skipped == s.skipped + [None]
    ensures NextWord(s, correct).wordIndex > |s.words|
  {
  }

  // ---------------------------------------------------------------------------
  // A run of verdicts from the fresh record

  /** Applies `nextWord` once per verdict, in order (true = correct). */
  function Judge(s: Session, verdicts: seq<bool>): (r: Session)
    decreases |verdicts|
  {
    if verdicts == [] then s
    else NextWord(Judge(s, verdicts[..|verdicts| - 1]), verdicts[|verdicts| - 1])
  }

  /** The positions, in increasing order, whose verdict is `want`. */
  function Positions(verdicts: seq<bool>, want: bool): (ps: seq<nat>)
    ensures forall k :: 0 <= k < |ps| ==> ps[k] < |verdicts| && verdicts[ps[k]] == want
    ensures forall k, l :: 0 <= k < l < |ps| ==> ps[k] < ps[l]
    ensures forall p :: 0 <= p < |verdicts| && verdicts[p] == want ==> p in ps
    decreases |verdicts|
  {
    if verdicts == [] then []
    else
      var n := |verdicts| - 1;
      Positions(verdicts[..n], want) + (if verdicts[n] == want then [n] else [])
  }

  /** Each position is either correct or skipped, never both, never neither. */
  lemma {:induction false} PositionsPartition(verdicts: seq<bool>)
    ensures |Positions(verdicts, true)| + |Positions(verdicts, false)| == |verdicts|
    decreases |verdicts|
  {
    if verdicts != [] {
      PositionsPartition(verdicts[..|verdicts| - 1]);
    }
  }

  /** The words at the given positions, as the array reads them. */
  function WordsAt(words: seq<string>, ps: seq<nat>): (ws: seq<Answer>)
    ensures |ws| == |ps|
    ensures forall k :: 0 <= k < |ps| ==> ws[k] == WordAt(words, ps[k])
  {
    seq(|ps|, k requires 0 <= k < |ps| => WordAt(words, ps[k]))
  }

  /** From a fresh record, the correct list holds exactly the words judged correct
      and the skipped list exactly the words judged skipped, each in order. */
  lemma {:induction false} JudgeHistory(s: Session, verdicts: seq<bool>)
    requires s.wordIndex == 0 && s.correct == [] && s.skipped == []
    ensures Judge(s, verdicts).wordIndex == |verdicts|
    ensures Judge(s, verdicts).correct == WordsAt(s.words, Positions(verdicts, true))
    ensures Judge(s, verdicts).skipped == WordsAt(s.words, Positions(verdicts, false))
    ensures Judge(s, verdicts).words == s.words
    ensures Tallied(Judge(s, verdicts))
    decreases |verdicts|
  {
    if verdicts != [] {
      var n := |verdicts| - 1;
      JudgeHistory(s, verdicts[..n]);
      PositionsPartition(verdicts[..n]);
      var prev := Judge(s, verdicts[..n]);
      if verdicts[n] {
        assert Positions(verdicts, true) == Positions(verdicts[..n], true) + [n];
        assert Positions(verdicts, false) == Positions(verdicts[..n], false);
      } else {
        assert Positions(verdicts, false) == Positions(verdicts[..n], false) + [n];
        assert Positions(verdicts, true) == Positions(verdicts[..n], true);
      }
    }
  }

  // ---------------------------------------------------------------------------
  // The 1 Hz timer

  datatype TickOutcome = TickOutcome(session: Session, ticking: bool, expired: bool)

  /** One firing of the game interval: the clock drops by one second, the ticking
      cue plays the first time it reads 15, and the game ends once it reads 0 or less. */
  function Tick(s: Session): (o: TickOutcome)
    ensures o.session.timeRemaining == s.timeRemaining - 1
    ensures o.ticking <==> o.session.timeRemaining == TickingAt && !s.tickingPlayed
    ensures o.session.tickingPlayed <==> s.tickingPlayed || o.ticking
    ensures o.expired <==> o.session.timeRemaining <= 0
    ensures o.session.words == s.words && o.session.wordIndex == s.wordIndex
    ensures o.session.correct == s.correct && o.session.skipped == s.skipped
  {
    var t := s.timeRemaining - 1;
    var cue := t == TickingAt && !s.tickingPlayed;
    TickOutcome(s.(timeRemaining := t, tickingPlayed := s.tickingPlayed || cue), cue, t <= 0)
  }

  /** How many ticking cues `n` successive ticks play, stopping when the game ends. */
  function TickingCues(s: Session, n: nat): nat
    decreases n
  {
    if n == 0 then 0
    else
      var o := Tick(s);
      (if o.ticking then 1 else 0) + (if o.expired then 0 else TickingCues(o.session, n - 1))
  }

  /** The ticking cue plays at most once per game, and never once it has played. */
  lemma {:induction false} TickingCueAtMostOnce(s: Session, n: nat)
    ensures TickingCues(s, n) <= (if s.tickingPlayed then 0 else 1)
    decreases n
  {
    if n > 0 {
      var o := Tick(s);
      if !o.expired {
        TickingCueAtMostOnce(o.session, n - 1);
      }
    }
  }

  /** From a fresh game the cue plays on the very first tick (16 to 15). */
  lemma TickingCueOnFirstTick(words: seq<string>, draws: seq<real>)
    requires Shuffle.DrawsFor(|words|, draws)
    ensures Tick(Start(words, draws)).ticking
    ensures !Tick(Start(words, draws)).expired
  {
  }

  // ---------------------------------------------------------------------------
  // End of game and results

  /** `endGame`: the word on screen counts as skipped only when it is truthy. */
  function EndGame(s: Session): (r: Session)
    ensures r.correct == s.correct
    ensures Truthy(CurrentWord(s)) ==> r.skipped == s.skipped + [CurrentWord(s)]
    ensures !Truthy(CurrentWord(s)) ==> r.skipped == s.skipped
    ensures r.words == s.words && r.wordIndex == s.wordIndex
    ensures r.timeRemaining == s.timeRemaining && r.tickingPlayed == s.tickingPlayed
  {
    var w := CurrentWord(s);
    if Truthy(w) then s.(skipped := s.skipped + [w]) else s
  }

  /** An empty word, or no word left, is not counted at the end. */
  lemma EndGameSkipsOnlyRealWords(s: Session)
    requires s.wordIndex >= |s.words| || s.words[s.wordIndex] == ""
    ensures EndGame(s) == s
  {
  }

  datatype ResultItem = ResultItem(word: Answer, correct: bool)

  /** What `showResults` shows: the two counts of the summary line and the list. */
  datatype ResultsView = ResultsView(correctCount: nat, skippedCount: nat, items: seq<ResultItem>)

  function Tag(ws: seq<Answer>, correct: bool): (items: seq<ResultItem>)
    ensures |items| == |ws|
    ensures forall k :: 0 <= k < |ws| ==> items[k] == ResultItem(ws[k], correct)
  {
    seq(|ws|, k requires 0 <= k < |ws| => ResultItem(ws[k], correct))
  }

  function Untag(items: seq<ResultItem>): (ws: seq<Answer>)
    ensures |ws| == |items|
    ensures forall k :: 0 <= k < |items| ==> ws[k] == items[k].word
  {
    seq(|items|, k requires 0 <= k < |items| => items[k].word)
  }

  /** `showResults`: correct words in order, then skipped words in order. */
  function Results(s: Session): (v: ResultsView)
    ensures v.correctCount == |s.correct| && v.skippedCount == |s.skipped|
    ensures |v.items| == v.correctCount + v.skippedCount
    ensures forall k :: 0 <= k < |v.items| ==> (v.items[k].correct <==> k < v.correctCount)
  {
    ResultsView(|s.correct|, |s.skipped|, Tag(s.correct, true) + Tag(s.skipped, false))
  }

  /** The list splits back into the two answer lists at the correct count. */
  lemma ResultsRoundTrip(s: Session)
    ensures Untag(Results(s).items[..Results(s).correctCount]) == s.correct
    ensures Untag(Results(s).items[Results(s).correctCount..]) == s.skipped
  {
    var v := Results(s);
    assert v.items[..v.correctCount] == Tag(s.correct, true);
    assert v.items[v.correctCount..] == Tag(s.skipped, false);
  }
}
