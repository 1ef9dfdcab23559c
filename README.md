# Simon memory game: a verified model of the game engine

The page script `assignment-02.js` runs a Simon game. Each round adds one random colour
(green, red, yellow or blue) to a sequence and plays the sequence back on four buttons.
The player must then press the colours in the same order: the first within five
seconds of the end of playback, each later one within five seconds of the previous
one. A wrong colour or a missed deadline ends the game. The buttons then flash five
times, and the game resets 2.5 seconds later. The current score is the
sequence length and the high score is the largest score shown so far. Both are shown
as two-digit text.

The model has three modules:

- `ScoreDisplay` (`score_display.dfy`) is the score text: a leading zero below ten,
  plain decimal from ten on. It is proved to read back as the number it shows.
- `SimonGame` (`simon_game.dfy`) holds the class `Game`. Its fields are the script's
  module-level variables (`sequence`, `userSequence`, `highScore`, `gameStarted`), the
  page state the script writes and the timers it has pending. Each timer becomes a flag
  plus an event method that the caller fires:
  - `ArmingElapsed`: the 3000 ms start delay.
  - `PlaybackTick`: the 1000 ms playback interval, whose index `i` is `cursor`.
  - `ResponseTimeout`: the 5000 ms `responseTimer`.
  - `RoundDelayElapsed`: the 1000 ms delay after a completed round.
  - `ResetElapsed`: the 2500 ms reset after game over.
  - `FlashTick`: the 250 ms flash-all interval, whose counter is `flashCount`.

  The random colour is an argument `pick < 4`, an index into `Colours`.
- `Scenarios` (`scenarios.dfy`) plays whole games through these methods. It uses only
  their contracts.

Every event method keeps `Game.Valid()`. It says:
- The engine is in exactly one phase: `Idle`, `Armed`, `InPlayback`, `AwaitingInput`,
  `RoundDelay` or `GameOverPending`. Each phase fixes which timer is pending. Apart from the flash-all
  interval, at most one timer role is pending, and exactly one while a game runs. The
  flash-all interval runs only while no game runs, so after a game over it runs beside
  the pending reset.
- `|userSequence| <= |sequence|` always holds.
- While a game runs, `userSequence` is a prefix of `sequence`.
- The high-score text is always the text of `highScore`.
- The buttons are disabled exactly while playback runs.
- The flash-all animation has toggled the buttons `flashCount` times since it began.

## Model

| member | source | states |
|---|---|---|
| `ScoreDisplay.Decimal` | assignment-02.js:113-114 | the decimal text of a number, which is how a score of ten or more is shown: digits only, at least one, one digit exactly below ten, a leading `0` only for zero |
| `ScoreDisplay.ScoreText` | assignment-02.js:113-114 | the score text is all digits and at least two long; it is two long exactly below 100; it starts with `0` exactly below ten |
| `ScoreDisplay.ParseDecimalOfDecimal` | assignment-02.js:113-114 | reading the decimal text of n gives n back |
| `ScoreDisplay.ScoreTextRoundTrip` | assignment-02.js:113-117 | reading a score display, padding included, gives back the score it was made from |
| `ScoreDisplay.ScoreTextInjective` | assignment-02.js:113-117 | two scores have the same text exactly when they are equal |
| `SimonGame.ToggledTimesAt` | assignment-02.js:133-138 | after n toggles, a button is active exactly when its starting state differs from "n is odd" |
| `SimonGame.ToggledTimesIdentity` | assignment-02.js:133-138 | toggling every button n times restores all of them exactly when n is even, so 2·t toggles always do |
| `SimonGame.ExtendPrefix` | assignment-02.js:87-92 | for a prefix u of the sequence, u plus the pressed colour is still a prefix exactly when the colour equals the sequence entry at u's length |
| `SimonGame.Game.constructor` | assignment-02.js:13-17 | initial state: both sequences empty, high score 0, not started, nothing pending, so `Valid()` and `Idle()` hold |
| `SimonGame.Game.OneTimerRole` | assignment-02.js:39-127 | apart from the flash-all interval, at most one of the timers of lines 39-41, 57-66, 78-80, 103 and 127 is pending in a valid state, and exactly one while the game runs; the flash-all interval runs only while no game runs |
| `SimonGame.Game.InitializeGame` | assignment-02.js:20-26 | empties both sequences, stops the game, shows red and cancels the response deadline; the high score and everything else are unchanged |
| `SimonGame.Game.Start` | assignment-02.js:34-42 | while a game runs nothing changes (idempotent); otherwise the state is `Armed`: empty sequences, started, green, no deadline, first colour scheduled; the high score is unchanged |
| `SimonGame.Game.AddSequence` | assignment-02.js:45-50 | the new sequence is the old one plus exactly the chosen colour, earlier entries untouched; the deadline is cancelled and playback starts from index 0 |
| `SimonGame.Game.PlaySequence` | assignment-02.js:53-56 | empties `userSequence`, disables the buttons and starts the playback interval at index 0 |
| `SimonGame.Game.ArmingElapsed` | assignment-02.js:39-41 | after the start delay the sequence is exactly the one chosen colour and playback runs |
| `SimonGame.Game.RoundDelayElapsed` | assignment-02.js:103 | after a completed round the sequence grows by exactly the chosen colour and is played again from the start |
| `SimonGame.Game.PlaybackTick` | assignment-02.js:57-66 | tick k ≤ n flashes `sequence[k-1]`, so the flashes so far are always `sequence[..cursor]`; tick n+1 stops after showing exactly the sequence, re-enables the buttons and arms the deadline |
| `SimonGame.Game.WaitForUserResponse` | assignment-02.js:77-81 | arms the response deadline and changes nothing else |
| `SimonGame.Game.ResponseTimeout` | assignment-02.js:78-80 | a missed deadline leads to game over: stopped, red, score refreshed from the sequence length, high score the maximum of the old one and that length, flashing, reset pending |
| `SimonGame.Game.OnButtonPress` | assignment-02.js:84-96 | the press has the effect `Pressed` describes. Ignored (nothing changes, since no deadline is pending then) when no game runs or the round is fully entered. A wrong colour leads to game over. A correct final colour completes the round: scored, next colour scheduled. A correct earlier colour extends the prefix and re-arms the deadline. Afterwards the presses are no longer than the sequence, and are a prefix of it while a game runs |
| `SimonGame.Game.HandleCorrectInput` | assignment-02.js:99-108 | a complete round sets the high score to the maximum of the old one and the sequence length, shows the score and schedules the next colour; an incomplete one re-arms the deadline with scores unchanged |
| `SimonGame.Game.UpdateScore` | assignment-02.js:111-119 | the current-score text is the text of the sequence length; the high score becomes the maximum of its old value and that length, so it never decreases; its text follows it |
| `SimonGame.Game.GameOver` | assignment-02.js:122-130 | stopped, red, score refreshed from the sequence length (the unfinished round included), high score the maximum, a five-flash animation started, reset scheduled |
| `SimonGame.Game.ResetElapsed` | assignment-02.js:127 | the scheduled reset returns the engine to `Idle` with the high score kept |
| `SimonGame.Game.FlashAllButtons` | assignment-02.js:133-135 | starts the flash-all interval for the given number of flashes, recording the buttons' state |
| `SimonGame.Game.ToggleAllButtons` | assignment-02.js:136 | every button's active flag is flipped, and only that |
| `SimonGame.Game.FlashTick` | assignment-02.js:135-138 | each tick toggles every button; the interval stops exactly at tick 2·t, with every button back in the state the animation found it in |
| `SimonGame.Game.Click` | assignment-02.js:143-149 | a click on a disabled button, or while no game runs, changes nothing; otherwise it is the press of that button's colour |

## Left out

- The page itself: element lookup, styles, classes and event listeners. The status
  indicator, the buttons' `disabled` flag, the score texts and each button's `active`
  class are fields.
- `flashButton`'s 500 ms highlight. A highlight is recorded as an entry in `flashed`,
  the log of the current playback, and the per-button `active` flags are not set by it.
- Real time. No delay is measured. The delays are named constants, and each timer firing
  is an event method that requires its timer to be pending.
- Several instances of one timer role. In the script these arise only from timing races,
  so the model holds one playback interval, one flash-all interval and one of each
  timeout.
- `SimonGame.Game.Start`: requires the game-over reset and the flash animation to have
  finished. The script also accepts a start click in the 2.5 s after game over. Its stale
  `initializeGame` then fires after the restart and stops the new game. This timing race
  is not modelled.
- `SimonGame.Game.OnButtonPress`: requires the buttons to be enabled. The browser
  delivers no click to a disabled button, so its only caller, the click listener, never
  reaches it during playback. `Click` models that suppression.
- `Math.random`: the chosen colour is the argument `pick`, an index below 4.
- The commented-out game-over alert.
- The page's initial markup is not part of this model. The constructor assumes a red
  status indicator, enabled and inactive buttons, and score texts `00`. It also assumes
  the buttons appear on the page in the order green, red, yellow, blue, the order of
  `Colours`.
- `flashAllButtons(0)` is modelled as written: its interval never stops. Game over
  always asks for five flashes.
- Three behaviours of the script that one might not expect, which the model keeps:
  - A start turns the status indicator green (assignment-02.js:38).
  - The game-over reset cancels only the response deadline (assignment-02.js:25).
  - Every press cancels the deadline. Only a correct press that leaves the round
    incomplete arms it again (assignment-02.js:85, 106).
