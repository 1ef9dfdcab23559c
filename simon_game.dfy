/** The game engine of the Simon memory game: a growing sequence of colours
    is played back on four buttons and the player must repeat it. Every
    timer the engine starts is an event method here; the caller fires it. */
module SimonGame {
  import opened ScoreDisplay

  /** The signal colours. */
  datatype Colour = Green | Red | Yellow | Blue

  /** The colours in the order of the page's four buttons. */
  const Colours: seq<Colour> := [Green, Red, Yellow, Blue]

  /** The status indicator: red for stop, green for go. */
  datatype Status = Stop | Go

  // Timer delays in milliseconds. The model orders timer events but does
  // not measure time; these name the delays each event method stands for.
  const ArmingDelayMs: nat := 3000
  const PlaybackTickMs: nat := 1000
  const HighlightMs: nat := 500
  const ResponseDeadlineMs: nat := 5000
  const RoundDelayMs: nat := 1000
  const FlashIntervalMs: nat := 250
  const ResetDelayMs: nat := 2500

  /** How many times the buttons flash at game over. */
  const GameOverFlashes: nat := 5

  function Max(a: nat, b: nat): nat
  {
    if a < b then b else a
  }

  /** Every button's active flag flipped. */
  function Toggled(a: seq<bool>): (r: seq<bool>)
    ensures |r| == |a|
  {
    seq(|a|, i requires 0 <= i < |a| => !a[i])
  }

  /** The active flags after n toggles of all buttons. */
  function ToggledTimes(a: seq<bool>, n: nat): (r: seq<bool>)
    ensures |r| == |a|
  {
    if n == 0 then a else Toggled(ToggledTimes(a, n - 1))
  }

  /** After n toggles a button is active exactly when it started active and
      n is even, or started inactive and n is odd. */
  lemma {:induction false} ToggledTimesAt(a: seq<bool>, n: nat, i: nat)
    requires i < |a|
    ensures ToggledTimes(a, n)[i] == (a[i] != (n % 2 == 1))
  {
    if n > 0 {
      ToggledTimesAt(a, n - 1, i);
    }
  }

  /** Toggling every button n times restores all of them exactly when n is
      even; in particular 2 * t toggles of a flash-all animation of t
      flashes leave every button as it was. */
  lemma ToggledTimesIdentity(a: seq<bool>, n: nat)
    requires a != []
    ensures ToggledTimes(a, n) == a <==> n % 2 == 0
  {
    ToggledTimesAt(a, n, 0);
    if n % 2 == 0 {
      forall i | 0 <= i < |a| ensures ToggledTimes(a, n)[i] == a[i] {
        ToggledTimesAt(a, n, i);
      }
    }
  }

  /** Appending c to a prefix u of s keeps it a prefix exactly when c is the
      colour s holds at u's length: the check a press makes. */
  lemma ExtendPrefix(s: seq<Colour>, u: seq<Colour>, c: Colour)
    requires u <= s && |u| < |s|
    ensures u + [c] <= s <==> c == s[|u|]
  {
  }

  /** The game state: the page script's module-level variables, the state of
      the page elements it writes, and the timers it has pending. */
  class Game {
    /** The colours to repeat, one appended per round. */
    var sequence: seq<Colour>
    /** The colours pressed in the current round. */
    var userSequence: seq<Colour>
    var highScore: nat
    var gameStarted: bool

    // What the page shows.
    var status: Status
    var buttonsDisabled: bool
    var currentScoreText: string
    var highScoreText: string
    /** The colours highlighted since the current playback began, in order. */
    var flashed: seq<Colour>
    /** Each button's "active" class, as toggled by the flash-all animation. */
    const active: array<bool>

    // Pending timers.
    /** The delay between start and the first colour. */
    var armingPending: bool
    /** The playback interval, and the index of the next colour it shows. */
    var playing: bool
    var cursor: nat
    /** The response deadline. */
    var responseArmed: bool
    /** The delay between a completed round and the next colour. */
    var roundDelayPending: bool
    /** The reset scheduled at game over. */
    var resetPending: bool
    /** The flash-all interval, its tick count and the flashes asked for. */
    var flashing: bool
    var flashCount: nat
    var flashTimes: nat
    /** The active flags when the current flash-all animation began. */
    ghost var activeBefore: seq<bool>

    /** Not started, nothing pending. */
    ghost predicate Idle()
      reads this
    {
      && !gameStarted && status == Stop && sequence == [] && userSequence == []
      && !armingPending && !playing && !responseArmed && !roundDelayPending && !resetPending
    }

    /** Started, waiting for the first colour. */
    ghost predicate Armed()
      reads this
    {
      && gameStarted && status == Go && sequence == [] && userSequence == [] && !flashing
      && armingPending && !playing && !responseArmed && !roundDelayPending && !resetPending
    }

    /** Playing the sequence back; what has been shown is the sequence up to
        the cursor. */
    ghost predicate InPlayback()
      reads this
    {
      && gameStarted && status == Go && 0 < |sequence| <= highScore + 1 && userSequence == [] && !flashing
      && !armingPending && playing && !responseArmed && !roundDelayPending && !resetPending
      && cursor <= |sequence| && flashed == sequence[..cursor]
    }

    /** The whole sequence has been shown; the player is part way through
        repeating it and the response deadline runs. */
    ghost predicate AwaitingInput()
      reads this
    {
      && gameStarted && status == Go && |sequence| <= highScore + 1 && !flashing
      && userSequence <= sequence && |userSequence| < |sequence| && flashed == sequence
      && !armingPending && !playing && responseArmed && !roundDelayPending && !resetPending
    }

    /** The player repeated the whole sequence; it is scored and the next
        colour is due. */
    ghost predicate RoundDelay()
      reads this
    {
      && gameStarted && status == Go && 0 < |sequence| <= highScore && !flashing
      && userSequence == sequence && currentScoreText == ScoreText(|sequence|)
      && !armingPending && !playing && !responseArmed && roundDelayPending && !resetPending
    }

    /** The game is lost: scored, and the reset is due. */
    ghost predicate GameOverPending()
      reads this
    {
      && !gameStarted && status == Stop && |sequence| <= highScore
      && currentScoreText == ScoreText(|sequence|)
      && !armingPending && !playing && !responseArmed && !roundDelayPending && resetPending
    }

    /** What holds between any two statements of the page script. */
    ghost predicate Consistent()
      reads this, active
    {
      && active.Length == |Colours|
      && highScoreText == ScoreText(highScore)
      && |userSequence| <= |sequence|
      && buttonsDisabled == playing
      && |activeBefore| == active.Length
      && active[..] == ToggledTimes(activeBefore, flashCount)
      && (flashing ==> flashTimes == 0 || flashCount < 2 * flashTimes)
      && (!flashing ==> flashCount == 2 * flashTimes)
    }

    /** The invariant between events: consistent, in exactly one phase (so,
        the flash-all interval aside, at most one timer role is pending, and
        exactly one while started), and
        while the game runs the presses are a prefix of the sequence. */
    ghost predicate Valid()
      reads this, active
    {
      && Consistent()
      && (gameStarted ==> userSequence <= sequence)
      && (Idle() || Armed() || InPlayback() || AwaitingInput() || RoundDelay() || GameOverPending())
    }

    /** The number of timer roles pending, the flash animation aside. */
    ghost function PendingTimers(): nat
      reads this
    {
      (if armingPending then 1 else 0) + (if playing then 1 else 0) + (if responseArmed then 1 else 0)
      + (if roundDelayPending then 1 else 0) + (if resetPending then 1 else 0)
    }

    /** The state as the page script loads. */
    constructor ()
      ensures Valid() && Idle()
      ensures highScore == 0 && highScoreText == ScoreText(0) && currentScoreText == ScoreText(0)
      ensures !buttonsDisabled && flashed == [] && cursor == 0
      ensures !flashing && flashCount == 0 && flashTimes == 0
      ensures fresh(active) && active[..] == [false, false, false, false] && activeBefore == active[..]
    {
      sequence, userSequence := [], [];
      highScore := 0;
      gameStarted := false;
      status := Stop;
      buttonsDisabled := false;
      currentScoreText, highScoreText := ScoreText(0), ScoreText(0);
      flashed := [];
      active := new bool[|Colours|](_ => false);
      armingPending, playing, cursor := false, false, 0;
      responseArmed, roundDelayPending, resetPending := false, false, false;
      flashing, flashCount, flashTimes := false, 0, 0;
      activeBefore := [false, false, false, false];
      new;
      assert active[..] == activeBefore;
    }

    /** Invariant consequence: apart from the flash-all interval, at most one
        timer role is pending, exactly one while the game runs; the flash-all
        interval runs only while no game runs. */
    lemma OneTimerRole()
      requires Valid()
      ensures gameStarted ==> PendingTimers() == 1
      ensures !gameStarted ==> PendingTimers() <= 1
      ensures flashing ==> !gameStarted
    {
    }

    /** Clears both sequences, stops the game, shows red and cancels the
        response deadline. */
    method InitializeGame()
      requires Consistent()
      modifies this
      ensures Consistent()
      ensures sequence == [] && userSequence == [] && !gameStarted && status == Stop && !responseArmed
      ensures unchanged(this`highScore, this`buttonsDisabled, this`currentScoreText, this`highScoreText, this`flashed)
      ensures unchanged(this`armingPending, this`playing, this`cursor, this`roundDelayPending, this`resetPending)
      ensures unchanged(this`flashing, this`flashCount, this`flashTimes, this`activeBefore)
    {
      sequence := [];
      userSequence := [];
      gameStarted := false;
      status := Stop;
      responseArmed := false;
    }

    /** The start button. Ignored while a game runs; otherwise resets, shows
        green and schedules the first colour. */
    method Start()
      requires Valid() && !resetPending && !flashing
      modifies this
      ensures Valid()
      ensures old(gameStarted) ==> unchanged(this)
      ensures !old(gameStarted) ==> Armed()
      ensures unchanged(this`highScore, this`buttonsDisabled, this`currentScoreText, this`highScoreText, this`flashed)
      ensures unchanged(this`cursor, this`flashing, this`flashCount, this`flashTimes, this`activeBefore)
    {
      if gameStarted {
        return;
      }
      InitializeGame();
      gameStarted := true;
      status := Go;
      armingPending := true;
    }

    /** Appends the colour Colours[pick] and starts playing the sequence back. */
    method AddSequence(pick: nat)
      requires Consistent() && pick < |Colours|
      requires gameStarted && status == Go && |sequence| <= highScore && !flashing
      requires !armingPending && !playing && !roundDelayPending && !resetPending
      modifies this
      ensures Consistent() && InPlayback()
      ensures sequence == old(sequence) + [Colours[pick]]
      ensures cursor == 0 && flashed == []
      ensures unchanged(this`highScore, this`currentScoreText, this`highScoreText)
      ensures unchanged(this`flashCount, this`flashTimes, this`activeBefore)
    {
      responseArmed := false;
      sequence := sequence + [Colours[pick]];
      PlaySequence();
    }

    /** Starts the playback: clears the presses, disables the buttons and
        sets the playback interval going from the first colour. */
    method PlaySequence()
      requires Consistent()
      modifies this
      ensures Consistent()
      ensures userSequence == [] && buttonsDisabled && playing && cursor == 0 && flashed == []
      ensures unchanged(this`sequence, this`highScore, this`gameStarted, this`status)
      ensures unchanged(this`currentScoreText, this`highScoreText)
      ensures unchanged(this`armingPending, this`responseArmed, this`roundDelayPending, this`resetPending)
      ensures unchanged(this`flashing, this`flashCount, this`flashTimes, this`activeBefore)
    {
      cursor := 0;
      flashed := [];
      userSequence := [];
      buttonsDisabled := true;
      playing := true;
    }

    /** The start delay elapses: the first colour, drawn as Colours[pick]. */
    method ArmingElapsed(pick: nat)
      requires Valid() && armingPending && pick < |Colours|
      modifies this
      ensures Valid() && InPlayback()
      ensures sequence == [Colours[pick]] && cursor == 0 && flashed == []
      ensures unchanged(this`highScore, this`currentScoreText, this`highScoreText)
      ensures unchanged(this`flashCount, this`flashTimes, this`activeBefore)
    {
      armingPending := false;
      AddSequence(pick);
    }

    /** The delay after a completed round elapses: one more colour, drawn as
        Colours[pick], and the sequence is played again from the start. */
    method RoundDelayElapsed(pick: nat)
      requires Valid() && roundDelayPending && pick < |Colours|
      modifies this
      ensures Valid() && InPlayback()
      ensures sequence == old(sequence) + [Colours[pick]] && cursor == 0 && flashed == []
      ensures unchanged(this`highScore, this`currentScoreText, this`highScoreText)
      ensures unchanged(this`flashCount, this`flashTimes, this`activeBefore)
    {
      roundDelayPending := false;
      AddSequence(pick);
    }

    /** A tick of the playback interval: highlights the next colour, or, once
        all are shown, stops, enables the buttons and arms the deadline. */
    method PlaybackTick()
      requires Valid() && playing
      modifies this
      ensures Valid()
      ensures old(cursor) < |sequence| ==>
        InPlayback() && cursor == old(cursor) + 1 && flashed == old(flashed) + [sequence[old(cursor)]]
      ensures old(cursor) >= |sequence| ==>
        AwaitingInput() && userSequence == [] && !buttonsDisabled && flashed == sequence && cursor == old(cursor)
      ensures unchanged(this`sequence, this`userSequence, this`highScore, this`gameStarted, this`status)
      ensures unchanged(this`currentScoreText, this`highScoreText)
      ensures unchanged(this`flashing, this`flashCount, this`flashTimes, this`activeBefore)
    {
      if cursor >= |sequence| {
        playing := false;
        buttonsDisabled := false;
        WaitForUserResponse();
        return;
      }
      assert sequence[..cursor + 1] == sequence[..cursor] + [sequence[cursor]];
      flashed := flashed + [sequence[cursor]];
      cursor := cursor + 1;
    }

    /** Arms the response deadline. */
    method WaitForUserResponse()
      modifies this
      ensures responseArmed
      ensures unchanged(this`sequence, this`userSequence, this`highScore, this`gameStarted, this`status)
      ensures unchanged(this`buttonsDisabled, this`currentScoreText, this`highScoreText, this`flashed)
      ensures unchanged(this`armingPending, this`playing, this`cursor, this`roundDelayPending, this`resetPending)
      ensures unchanged(this`flashing, this`flashCount, this`flashTimes, this`activeBefore)
    {
      responseArmed := true;
    }

    /** The response deadline passes without a press: game over. */
    method ResponseTimeout()
      requires Valid() && responseArmed
      modifies this
      ensures Valid() && GameOverPending()
      ensures sequence == old(sequence) && userSequence == old(userSequence)
      ensures highScore == Max(old(highScore), |sequence|)
      ensures flashing && flashCount == 0 && flashTimes == GameOverFlashes && activeBefore == active[..]
      ensures unchanged(this`buttonsDisabled, this`cursor, this`flashed)
    {
      responseArmed := false;
      GameOver();
    }

    /** Everything one press does, as a relation between the states before
        and after it. */
    twostate predicate Pressed(c: Colour)
      reads this, active
    {
      var s, u := old(sequence), old(userSequence);
      if !old(gameStarted) || |u| >= |s| then
        unchanged(this)
      else if c != s[|u|] then
        && GameOverPending() && sequence == s && userSequence == u + [c]
        && highScore == Max(old(highScore), |s|)
        && flashing && flashCount == 0 && flashTimes == GameOverFlashes && activeBefore == active[..]
        && unchanged(this`buttonsDisabled, this`cursor, this`flashed)
      else if |u| + 1 == |s| then
        && RoundDelay() && sequence == s && userSequence == s
        && highScore == Max(old(highScore), |s|)
        && unchanged(this`buttonsDisabled, this`cursor, this`flashed)
        && unchanged(this`flashing, this`flashCount, this`flashTimes, this`activeBefore)
      else
        && AwaitingInput() && sequence == s && userSequence == u + [c]
        && unchanged(this`highScore, this`currentScoreText, this`highScoreText)
        && unchanged(this`buttonsDisabled, this`cursor, this`flashed)
        && unchanged(this`flashing, this`flashCount, this`flashTimes, this`activeBefore)
    }

    /** The player presses colour c. Cancels the deadline; ignored when no
        game runs or the round is already entered in full; otherwise records
        the press, ending the game on a wrong colour. An ignored press
        changes nothing at all: no deadline is pending in those phases. */
    method OnButtonPress(c: Colour)
      requires Valid() && !buttonsDisabled
      modifies this
      ensures Valid()
      ensures Pressed(c)
      ensures gameStarted ==> userSequence <= sequence
      ensures |userSequence| <= |sequence|
    {
      responseArmed := false;
      if !gameStarted || |userSequence| >= |sequence| {
        return;
      }
      ExtendPrefix(sequence, userSequence, c);
      userSequence := userSequence + [c];
      var index := |userSequence| - 1;
      if userSequence[index] != sequence[index] {
        GameOver();
        return;
      }
      HandleCorrectInput();
    }

    /** After a correct press: a complete round is scored and the next colour
        scheduled; otherwise the deadline is armed again. */
    method HandleCorrectInput()
      requires Consistent() && gameStarted && status == Go && !flashing
      requires userSequence <= sequence && 0 < |userSequence| && |sequence| <= highScore + 1
      requires flashed == sequence
      requires !armingPending && !playing && !responseArmed && !roundDelayPending && !resetPending
      modifies this
      ensures Consistent()
      ensures |userSequence| == |sequence| ==> RoundDelay() && highScore == Max(old(highScore), |sequence|)
      ensures |userSequence| < |sequence| ==> AwaitingInput() && unchanged(this`highScore, this`currentScoreText)
      ensures unchanged(this`sequence, this`userSequence, this`buttonsDisabled, this`cursor, this`flashed)
      ensures unchanged(this`flashing, this`flashCount, this`flashTimes, this`activeBefore)
    {
      if |userSequence| == |sequence| {
        UpdateScore();
        roundDelayPending := true;
      } else {
        WaitForUserResponse();
      }
    }

    /** The current score is the sequence length; the high score keeps the
        largest score shown. */
    method UpdateScore()
      requires Consistent()
      modifies this
      ensures Consistent()
      ensures currentScoreText == ScoreText(|sequence|)
      ensures highScore == Max(old(highScore), |sequence|) && highScore >= old(highScore)
      ensures unchanged(this`sequence, this`userSequence, this`gameStarted, this`status)
      ensures unchanged(this`buttonsDisabled, this`flashed)
      ensures unchanged(this`armingPending, this`playing, this`cursor, this`responseArmed)
      ensures unchanged(this`roundDelayPending, this`resetPending)
      ensures unchanged(this`flashing, this`flashCount, this`flashTimes, this`activeBefore)
    {
      var currentScore := |sequence|;
      currentScoreText := ScoreText(currentScore);
      if currentScore > highScore {
        highScore := currentScore;
        highScoreText := ScoreText(highScore);
      }
    }

    /** Game over: flash every button, stop, show red, refresh the score from
        the sequence length (the unfinished round included) and schedule the
        reset. */
    method GameOver()
      requires Consistent() && gameStarted && !flashing
      requires !armingPending && !playing && !responseArmed && !roundDelayPending && !resetPending
      modifies this
      ensures Consistent() && GameOverPending()
      ensures sequence == old(sequence) && userSequence == old(userSequence)
      ensures highScore == Max(old(highScore), |sequence|)
      ensures flashing && flashCount == 0 && flashTimes == GameOverFlashes && activeBefore == active[..]
      ensures unchanged(this`buttonsDisabled, this`cursor, this`flashed)
    {
      FlashAllButtons(GameOverFlashes);
      gameStarted := false;
      status := Stop;
      UpdateScore();
      resetPending := true;
    }

    /** The reset scheduled at game over. */
    method ResetElapsed()
      requires Valid() && resetPending
      modifies this
      ensures Valid() && Idle()
      ensures unchanged(this`highScore, this`buttonsDisabled, this`currentScoreText, this`highScoreText, this`flashed)
      ensures unchanged(this`cursor, this`flashing, this`flashCount, this`flashTimes, this`activeBefore)
    {
      resetPending := false;
      InitializeGame();
    }

    /** Sets the flash-all interval going for the given number of flashes. */
    method FlashAllButtons(times: nat)
      requires Consistent() && !flashing
      modifies this
      ensures Consistent()
      ensures flashing && flashCount == 0 && flashTimes == times && activeBefore == active[..]
      ensures unchanged(this`sequence, this`userSequence, this`highScore, this`gameStarted, this`status)
      ensures unchanged(this`buttonsDisabled, this`currentScoreText, this`highScoreText, this`flashed)
      ensures unchanged(this`armingPending, this`playing, this`cursor, this`responseArmed)
      ensures unchanged(this`roundDelayPending, this`resetPending)
    {
      flashCount := 0;
      flashTimes := times;
      flashing := true;
      activeBefore := active[..];
    }

    /** Flips every button's active flag. */
    method ToggleAllButtons()
      modifies active
      ensures active[..] == Toggled(old(active[..]))
    {
      for k := 0 to active.Length
        invariant forall j | 0 <= j < k :: active[j] == !old(active[j])
        invariant forall j | k <= j < active.Length :: active[j] == old(active[j])
      {
        active[k] := !active[k];
      }
    }

    /** A tick of the flash-all interval: toggles every button; after twice
        the number of flashes the interval stops, every button back in the
        state the animation found it in. */
    method FlashTick()
      requires Valid() && flashing
      modifies this, active
      ensures Valid()
      ensures active[..] == Toggled(old(active[..]))
      ensures flashCount == old(flashCount) + 1
      ensures flashing <==> flashCount != 2 * flashTimes
      ensures !flashing ==> active[..] == activeBefore
      ensures unchanged(this`sequence, this`userSequence, this`highScore, this`gameStarted, this`status)
      ensures unchanged(this`buttonsDisabled, this`currentScoreText, this`highScoreText, this`flashed)
      ensures unchanged(this`armingPending, this`playing, this`cursor, this`responseArmed)
      ensures unchanged(this`roundDelayPending, this`resetPending, this`flashTimes, this`activeBefore)
    {
      ToggleAllButtons();
      flashCount := flashCount + 1;
      if flashCount == 2 * flashTimes {
        flashing := false;
        ToggledTimesIdentity(activeBefore, flashCount);
      }
    }

    /** A click on the button at index: the browser delivers no click to a
        disabled button, and the listener forwards the click only while a
        game runs. */
    method Click(index: nat)
      requires Valid() && index < |Colours|
      modifies this
      ensures Valid()
      ensures old(buttonsDisabled) || !old(gameStarted) ==> unchanged(this)
      ensures !old(buttonsDisabled) ==> Pressed(Colours[index])
    {
      if buttonsDisabled {
        return;
      }
      if gameStarted {
        OnButtonPress(Colours[index]);
      }
    }
  }
}
