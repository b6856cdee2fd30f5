/** Properties of the reading controller: the invariant every transition
    keeps, what each command and callback does to the position and asks of
    the engine, and the consequences of the controller having no notion of
    which utterance a callback belongs to. */
module PlaybackProperties {
  import opened Wrappers
  import opened Text
  import opened Segmenter
  import opened Boundary
  import opened Dom
  import opened Readability
  import opened Extraction
  import opened Playback

  /** Taking the words of a sentence in range gives at least one word. */
  lemma ProcessedHasWords(p: Player)
    requires Valid(p) && p.sentenceIndex < |p.sentences|
    ensures Valid(ProcessCurrentSentence(p).(isReading := true))
  {
    TrimmedHasWord(p.sentences[p.sentenceIndex]);
  }

  lemma StopValid(p: Player)
    requires Valid(p)
    ensures Valid(Stop(p).player)
  {
  }

  lemma BeginReadingValid(p: Player, text: string)
    ensures Valid(BeginReading(p, text).player)
  {
    if |Sentences(text)| > 0 {
      SentenceHasWord(text, 0);
    }
  }

  /** Speaking never moves the position; past the end it stops. */
  lemma SpeakCurrentValid(p: Player)
    requires Valid(p)
    ensures Valid(SpeakCurrent(p).player)
  {
  }

  lemma ContinueValid(p: Player, before: seq<Action>)
    requires AllTrimmed(p.sentences)
    ensures Valid(Continue(p, before).player)
  {
    if p.sentenceIndex < |p.sentences| {
      TrimmedHasWord(p.sentences[p.sentenceIndex]);
    }
  }

  lemma SkipPreviousValid(p: Player)
    requires Valid(p)
    ensures Valid(SkipPrevious(p).player)
  {
    var i := if p.sentenceIndex == 0 then 0 else p.sentenceIndex - 1;
    if i < |p.sentences| {
      TrimmedHasWord(p.sentences[i]);
    }
  }

  lemma ToggleValid(p: Player)
    requires Valid(p)
    ensures Valid(Toggle(p).player)
  {
    if p.isPaused {
      SpeakCurrentValid(p.(isPaused := false));
    }
  }

  /** While reading, the sentence has words, so the scan lands on one of
      them. */
  lemma BoundaryAsWrittenValid(p: Player, name: string, charIndex: nat)
    requires Valid(p)
    ensures Valid(HandleBoundaryAsWritten(p, name, charIndex).player)
  {
  }

  lemma BoundaryValid(p: Player, name: string, charIndex: nat)
    requires Valid(p)
    ensures Valid(HandleBoundary(p, name, charIndex).player)
  {
  }

  lemma SettingsValid(p: Player, settings: Settings)
    requires Valid(p)
    ensures Valid(ApplySettings(p, settings))
  {
  }

  lemma StartReadingAsWrittenValid(p: Player, doc: Document)
    ensures Valid(StartReadingAsWritten(p, doc).player)
  {
    BeginReadingValid(p, TextAt(doc, doc.body));
  }

  lemma StartReadingValid(p: Player, doc: Document)
    ensures Valid(StartReading(p, doc).player)
  {
    BeginReadingValid(p, ExtractIntended(doc).textContent);
  }

  lemma SkipNextValid(p: Player)
    requires Valid(p)
    ensures Valid(SkipNext(p).player)
  {
    ContinueValid(p.(sentenceIndex := p.sentenceIndex + 1), [Cancel, ClearHighlight]);
  }

  lemma EndValid(p: Player)
    requires Valid(p)
    ensures Valid(HandleEnd(p).player)
  {
    ContinueValid(p.(sentenceIndex := p.sentenceIndex + 1), [ClearHighlight]);
  }

  /** Every command and callback, as written, keeps the invariant. */
  lemma HandleValid(p: Player, e: Event)
    requires Valid(p)
    ensures Valid(Handle(p, e).player)
  {
    match e
    case StartReadingCommand(doc) => StartReadingAsWrittenValid(p, doc);
    case ReadSelectedCommand(text) => BeginReadingValid(p, text);
    case StopCommand => StopValid(p);
    case ToggleCommand => ToggleValid(p);
    case SkipNextCommand => SkipNextValid(p);
    case SkipPreviousCommand => SkipPreviousValid(p);
    case BoundaryEvent(name, c) => BoundaryAsWrittenValid(p, name, c);
    case EndEvent => EndValid(p);
    case ErrorEvent => StopValid(p);
    case SettingsChange(s) => SettingsValid(p, s);
    case SettingsMessage(_) => SettingsValid(p, p.settings);
  }

  /** With the three corrections, every command and callback keeps the invariant
      too. */
  lemma HandleIntendedValid(p: Player, e: Event)
    requires Valid(p)
    ensures Valid(HandleIntended(p, e).player)
  {
    match e
    case StartReadingCommand(doc) => StartReadingValid(p, doc);
    case BoundaryEvent(name, c) => BoundaryValid(p, name, c);
    case SettingsMessage(s) => SettingsValid(p, s);
    case _ => HandleValid(p, e);
  }

  /** Any sequence of events from a valid state ends in a valid state. */
  lemma {:induction false} RunValid(p: Player, events: seq<Event>)
    requires Valid(p)
    ensures Valid(Run(p, events).player)
    decreases |events|
  {
    if |events| > 0 {
      HandleValid(p, events[0]);
      RunValid(Handle(p, events[0]).player, events[1..]);
    }
  }

  /** Stopping twice is stopping once. */
  lemma StopIdempotent(p: Player)
    ensures Stop(Stop(p).player) == Stop(p)
  {
  }

  /** Start and selected-text reading stop first, and read only when the
      text has a sentence: then they speak its first sentence. */
  lemma BeginReadingSpeaksFirst(p: Player, text: string)
    ensures BeginReading(p, text).actions[0] == Cancel
    ensures BeginReading(p, text).player.isReading <==> |Sentences(text)| > 0
    ensures |Sentences(text)| > 0 ==>
              && BeginReading(p, text).player.sentenceIndex == 0
              && BeginReading(p, text).actions[2].Speak?
              && BeginReading(p, text).actions[2].utterance.text == Sentences(text)[0]
  {
  }

  /** The two boundary handlers agree wherever the scan finds a word. */
  lemma BoundaryHandlersAgree(p: Player, name: string, charIndex: nat)
    requires charIndex < SpokenLength(p.words, |p.words|)
    ensures HandleBoundary(p, name, charIndex) == HandleBoundaryAsWritten(p, name, charIndex)
  {
  }

  /** `skipNextSentence` cancels first. Before the last sentence it moves to
      the next and speaks it exactly when reading and not paused; from the
      last sentence it stops. */
  lemma SkipNextMoves(p: Player)
    requires Valid(p)
    ensures SkipNext(p).actions[..2] == [Cancel, ClearHighlight]
    ensures p.sentenceIndex + 1 < |p.sentences| ==>
              && SkipNext(p).player.sentenceIndex == p.sentenceIndex + 1
              && SkipNext(p).player.words == Words(p.sentences[p.sentenceIndex + 1])
              && (|SkipNext(p).actions| == 3 <==> p.isReading && !p.isPaused)
              && (|SkipNext(p).actions| == 3 ==> SkipNext(p).actions[2].Speak? && SkipNext(p).actions[2].sentence == p.sentenceIndex + 1)
    ensures p.sentenceIndex + 1 >= |p.sentences| ==>
              && !SkipNext(p).player.isReading && SkipNext(p).player.sentenceIndex == 0
              && SkipNext(p).actions == [Cancel, ClearHighlight, Cancel, ClearHighlight]
  {
  }

  /** `skipPreviousSentence` cancels first, moves back one sentence but never
      below the first, and speaks exactly when reading and not paused. */
  lemma SkipPreviousMoves(p: Player)
    requires Valid(p)
    ensures SkipPrevious(p).actions[..2] == [Cancel, ClearHighlight]
    ensures SkipPrevious(p).player.sentenceIndex == if p.sentenceIndex == 0 then 0 else p.sentenceIndex - 1
    ensures |SkipPrevious(p).actions| == 3 <==> p.isReading && !p.isPaused
    ensures |SkipPrevious(p).actions| == 3 ==>
              SkipPrevious(p).actions[2].Speak? && SkipPrevious(p).actions[2].sentence == SkipPrevious(p).player.sentenceIndex
  {
  }

  /** The end of an utterance advances by exactly one sentence and speaks it
      when reading and not paused; after the last sentence it stops. */
  lemma EndAdvancesByOne(p: Player)
    requires Valid(p)
    ensures HandleEnd(p).actions[0] == ClearHighlight
    ensures p.sentenceIndex + 1 < |p.sentences| ==>
              && HandleEnd(p).player.sentenceIndex == p.sentenceIndex + 1
              && HandleEnd(p).player.isReading == p.isReading
              && (|HandleEnd(p).actions| == 2 <==> p.isReading && !p.isPaused)
              && (|HandleEnd(p).actions| == 2 ==> HandleEnd(p).actions[1].Speak? && HandleEnd(p).actions[1].sentence == p.sentenceIndex + 1)
    ensures p.sentenceIndex + 1 >= |p.sentences| ==>
              && !HandleEnd(p).player.isReading && !HandleEnd(p).player.isPaused
              && HandleEnd(p).player.sentenceIndex == 0 && HandleEnd(p).player.wordIndex == 0
              && HandleEnd(p).actions == [ClearHighlight, Cancel, ClearHighlight]
  {
  }

  /** An engine error always stops and resets. */
  lemma ErrorStops(p: Player)
    ensures HandleError(p).actions == [Cancel, ClearHighlight]
    ensures !HandleError(p).player.isReading && !HandleError(p).player.isPaused
    ensures HandleError(p).player.sentenceIndex == 0 && HandleError(p).player.wordIndex == 0
  {
  }

  /** While reading, a "word" boundary highlights a word of the sentence,
      with either mapping; any other boundary leaves the state alone. */
  lemma BoundaryStaysInSentence(p: Player, name: string, charIndex: nat)
    requires Valid(p) && p.isReading
    ensures name == "word" ==> HandleBoundaryAsWritten(p, name, charIndex).player.wordIndex < |p.words|
    ensures name == "word" ==> HandleBoundary(p, name, charIndex).player.wordIndex < |p.words|
    ensures name != "word" ==> HandleBoundaryAsWritten(p, name, charIndex).player == p
  {
  }

  /** Nothing ties a callback to its utterance: when the utterance a skip
      cancelled reports its end, the controller advances again, so one skip
      and that late end move two sentences on. */
  lemma StaleEndSkipsTwo(p: Player)
    requires Valid(p) && p.isReading && !p.isPaused
    requires p.sentenceIndex + 2 < |p.sentences|
    ensures Run(p, [SkipNextCommand, EndEvent]).player.sentenceIndex == p.sentenceIndex + 2
  {
    SkipThenEnd(p);
    var s1 := SkipNext(p);
    assert s1.player.sentenceIndex == p.sentenceIndex + 1 && s1.player.isReading && !s1.player.isPaused;
    assert HandleEnd(s1.player).player.sentenceIndex == p.sentenceIndex + 2;
  }

  lemma SkipThenEnd(p: Player)
    ensures Run(p, [SkipNextCommand, EndEvent]).player == HandleEnd(SkipNext(p).player).player
  {
    var es := [SkipNextCommand, EndEvent];
    assert es[0] == SkipNextCommand && es[1..] == [EndEvent];
    var s1 := SkipNext(p);
    assert Handle(p, SkipNextCommand) == s1;
    assert Handle(s1.player, EndEvent) == HandleEnd(s1.player);
  }

  /** Pausing and resuming: the first toggle only pauses the engine; the
      second speaks the current sentence again from its start, without
      cancelling or resuming the paused utterance. */
  lemma ToggleTwiceRestartsSentence(p: Player)
    requires Valid(p) && p.isReading && !p.isPaused
    ensures Toggle(p).actions == [PauseEngine]
    ensures var resumed := Toggle(Toggle(p).player);
            && resumed.actions == [Speak(p.sentenceIndex, MakeUtterance(p.sentences[p.sentenceIndex], p.settings, p.voices))]
            && resumed.player.isReading && !resumed.player.isPaused
            && resumed.player.sentenceIndex == p.sentenceIndex && resumed.player.wordIndex == p.wordIndex
  {
  }

  /** The toggle has no guard: from an idle controller with sentences left
      over, two toggles speak while the controller is not reading. */
  lemma ToggleSpeaksWhenIdle(p: Player)
    requires Valid(p) && !p.isReading && !p.isPaused && |p.sentences| > 0
    ensures Toggle(p) == Step(p.(isPaused := true), [PauseEngine])
    ensures var resumed := Toggle(Toggle(p).player);
            && !resumed.player.isReading
            && resumed.actions == [Speak(p.sentenceIndex, MakeUtterance(p.sentences[p.sentenceIndex], p.settings, p.voices))]
  {
  }

  /** A settings change updates the current utterance's rate, pitch and
      volume, and keeps its voice when the selected voice is unavailable. */
  lemma SettingsKeepVoiceWhenMissing(p: Player, settings: Settings)
    requires p.utterance.Some?
    requires forall k :: 0 <= k < |p.voices| ==> p.voices[k].voiceURI != settings.selectedVoiceURI
    ensures ApplySettings(p, settings).utterance.value.voice == p.utterance.value.voice
    ensures ApplySettings(p, settings).utterance.value.rate == settings.speechRate
  {
  }

  /** The popup's settings message, as written, leaves the stored settings
      in force: a current utterance goes on at the stored rate, whatever
      rate the popup sent. With the correction it takes the popup's rate. */
  lemma PopupRateIgnored(p: Player, settings: Settings)
    requires p.utterance.Some?
    ensures Handle(p, SettingsMessage(settings)).player.settings == p.settings
    ensures Handle(p, SettingsMessage(settings)).player.utterance.value.rate == p.settings.speechRate
    ensures HandleIntended(p, SettingsMessage(settings)).player.settings == settings
    ensures HandleIntended(p, SettingsMessage(settings)).player.utterance.value.rate == settings.speechRate
  {
  }
}
