/** Games played through the engine's event methods, using only their
    contracts: what a caller can conclude about a run. */
module Scenarios {
  import opened ScoreDisplay
  import opened SimonGame

  /** The sequence is [red]; the player presses red: the round is complete,
      the score is 1 and the next colour makes the sequence two long. */
  method OneRoundWon()
  {
    var g := new Game();
    g.Start();
    g.ArmingElapsed(1);
    assert g.sequence == [Red];
    g.PlaybackTick();
    assert g.flashed == [Red];
    g.PlaybackTick();
    assert g.AwaitingInput() && !g.buttonsDisabled;
    g.Click(1);
    assert g.RoundDelay() && g.highScore == 1 && g.currentScoreText == ScoreText(1);
    g.RoundDelayElapsed(3);
    assert g.sequence == [Red, Blue] && g.InPlayback();
  }

  /** The sequence is [red, blue]; the player presses red, then green: the
      game is over at once, scored 2, and the reset discards both lists. */
  method MismatchEndsGame()
  {
    var g := new Game();
    g.Start();
    g.ArmingElapsed(1);
    g.PlaybackTick();
    g.PlaybackTick();
    g.Click(1);
    g.RoundDelayElapsed(3);
    assert g.sequence == [Red, Blue];
    g.PlaybackTick();
    g.PlaybackTick();
    g.PlaybackTick();
    assert g.flashed == [Red, Blue];
    g.Click(1);
    assert g.AwaitingInput() && g.userSequence == [Red];
    g.Click(0);
    assert g.GameOverPending() && !g.gameStarted && g.status == Stop;
    assert g.highScore == 2 && g.currentScoreText == ScoreText(2);
    g.ResetElapsed();
    assert g.Idle() && g.sequence == [] && g.userSequence == [] && g.highScore == 2;
  }

  /** A press during playback is ignored; a second start while running
      changes nothing; a missed deadline ends the game. */
  method IgnoredInputs()
  {
    var g := new Game();
    g.Start();
    g.Start();
    assert g.Armed();
    g.Click(2);
    assert g.Armed() && g.userSequence == [];
    g.ArmingElapsed(2);
    g.Click(2);
    assert g.InPlayback() && g.userSequence == [] && g.cursor == 0;
    g.PlaybackTick();
    g.PlaybackTick();
    g.ResponseTimeout();
    assert g.GameOverPending() && g.highScore == 1 && g.flashing;
  }
}
