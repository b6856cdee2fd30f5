/** The reading controller of extension/content/content-script.js: the
    playback fields, one transition per command or speech-engine callback,
    and what each transition asks of the engine and of the highlighting.
    The engine appears only through the actions the controller emits and
    the events it delivers. */
module Playback {
  import opened Wrappers
  import opened Text
  import opened Segmenter
  import opened Boundary
  import opened Dom
  import opened Readability
  import opened Extraction

  datatype Voice = Voice(voiceURI: string, name: string)

  /** Rate, pitch and volume pass through to the engine unchanged. */
  datatype Settings = Settings(speechRate: real, speechPitch: real, selectedVoiceURI: string, playbackVolume: real)

  datatype Utterance = Utterance(text: string, rate: real, pitch: real, volume: real, voice: Option<Voice>)

  /** What a transition asks for, in order: cancel speech, pause the engine,
      speak sentence `sentence`, clear the word highlight, highlight word
      `word`. */
  datatype Action =
    | Cancel
    | PauseEngine
    | Speak(sentence: nat, utterance: Utterance)
    | ClearHighlight
    | Highlight(word: nat)

  datatype Player = Player(
    isReading: bool,
    isPaused: bool,
    sentenceIndex: nat,
    wordIndex: nat,
    sentences: seq<string>,
    words: seq<string>,
    utterance: Option<Utterance>,
    settings: Settings,
    voices: seq<Voice>)

  datatype Step = Step(player: Player, actions: seq<Action>)

  /** The controller before any command. */
  function Init(settings: Settings, voices: seq<Voice>): (p: Player)
    ensures Valid(p)
    ensures !p.isReading && !p.isPaused && p.sentences == [] && p.utterance.None?
  {
    Player(false, false, 0, 0, [], [], None, settings, voices)
  }

  ghost predicate AllTrimmed(ss: seq<string>) {
    forall k :: 0 <= k < |ss| ==> ss[k] != [] && Trim(ss[k]) == ss[k]
  }

  /** The controller's invariant: every sentence is non-empty and trimmed;
      the index is in range or zero; and while reading, the index names a
      sentence, the words are that sentence's words and the word index names
      one of them. */
  ghost predicate Valid(p: Player) {
    && AllTrimmed(p.sentences)
    && (p.sentenceIndex < |p.sentences| || p.sentenceIndex == 0)
    && (p.isReading ==>
          && p.sentenceIndex < |p.sentences|
          && p.words == Words(p.sentences[p.sentenceIndex])
          && p.wordIndex < |p.words|)
  }

  /** A transition keeps the text, the settings and the voice list. */
  ghost predicate Keeps(p: Player, q: Player) {
    q.sentences == p.sentences && q.settings == p.settings && q.voices == p.voices
  }

  // ---------------------------------------------------------------------
  // Voice choice

  /** The first available voice with the given URI. */
  function FindVoice(voices: seq<Voice>, uri: string): (v: Option<Voice>)
    ensures v.Some? <==> exists k :: 0 <= k < |voices| && voices[k].voiceURI == uri
    ensures v.Some? ==> v.value in voices && v.value.voiceURI == uri
    ensures v.Some? ==> exists k :: 0 <= k < |voices| && voices[k] == v.value &&
                          forall m :: 0 <= m < k ==> voices[m].voiceURI != uri
  {
    if |voices| == 0 then None
    else if voices[0].voiceURI == uri then
      Some(voices[0])
    else
      var v := FindVoice(voices[1..], uri);
      assert forall k :: 1 <= k < |voices| ==> voices[k] == voices[1..][k - 1];
      if v.Some? then
        var k :| 0 <= k < |voices[1..]| && voices[1..][k] == v.value &&
                 forall m :: 0 <= m < k ==> voices[1..][m].voiceURI != uri;
        assert voices[k + 1] == v.value;
        assert forall m :: 0 <= m < k + 1 ==> voices[m].voiceURI != uri by {
          forall m | 0 <= m < k + 1
            ensures voices[m].voiceURI != uri
          {
            if m > 0 {
              assert voices[m] == voices[1..][m - 1];
            }
          }
        }
        v
      else v
  }

  /** The voice an utterance gets: one is chosen only when a voice URI is
      selected and an available voice has it; otherwise the engine's default
      is kept (`None`). */
  function ChooseVoice(settings: Settings, voices: seq<Voice>): (v: Option<Voice>)
    ensures v.Some? <==>
              settings.selectedVoiceURI != "" && exists k :: 0 <= k < |voices| && voices[k].voiceURI == settings.selectedVoiceURI
    ensures v.Some? ==> v.value in voices && v.value.voiceURI == settings.selectedVoiceURI
  {
    if settings.selectedVoiceURI != "" then FindVoice(voices, settings.selectedVoiceURI) else None
  }

  function MakeUtterance(sentence: string, settings: Settings, voices: seq<Voice>): (u: Utterance)
    ensures u.text == sentence
    ensures u.rate == settings.speechRate && u.pitch == settings.speechPitch && u.volume == settings.playbackVolume
    ensures u.voice == ChooseVoice(settings, voices)
  {
    Utterance(sentence, settings.speechRate, settings.speechPitch, settings.playbackVolume, ChooseVoice(settings, voices))
  }

  // ---------------------------------------------------------------------
  // Transitions

  /** `stopReading`: cancel speech, clear the flags and both indices, remove
      the highlight. The sentence and word lists stay as they are. */
  function Stop(p: Player): (s: Step)
    ensures s.actions == [Cancel, ClearHighlight]
    ensures !s.player.isReading && !s.player.isPaused
    ensures s.player.sentenceIndex == 0 && s.player.wordIndex == 0
    ensures s.player.sentences == p.sentences && s.player.words == p.words
    ensures s.player.settings == p.settings && s.player.voices == p.voices && s.player.utterance == p.utterance
  {
    Step(p.(isReading := false, isPaused := false, sentenceIndex := 0, wordIndex := 0), [Cancel, ClearHighlight])
  }

  /** `processCurrentSentence`: the words of the current sentence, from the
      first word; with the index out of range, no words and the word index
      left as it was. */
  function ProcessCurrentSentence(p: Player): (q: Player)
    ensures p.sentenceIndex < |p.sentences| ==> q.words == Words(p.sentences[p.sentenceIndex]) && q.wordIndex == 0
    ensures p.sentenceIndex >= |p.sentences| ==> q.words == [] && q.wordIndex == p.wordIndex
    ensures q == p.(words := q.words, wordIndex := q.wordIndex)
  {
    if p.sentenceIndex < |p.sentences| then p.(words := Words(p.sentences[p.sentenceIndex]), wordIndex := 0)
    else p.(words := [])
  }

  /** `processText`: the text's sentences, both indices at zero, and the
      first sentence's words when there is one. */
  function ProcessText(p: Player, text: string): (q: Player)
    ensures q.sentences == Sentences(text) && q.sentenceIndex == 0 && q.wordIndex == 0
    ensures |q.sentences| > 0 ==> q.words == Words(q.sentences[0])
    ensures q.isReading == p.isReading && q.isPaused == p.isPaused && q.settings == p.settings
    ensures q.voices == p.voices && q.utterance == p.utterance
  {
    var q := p.(sentences := Sentences(text), sentenceIndex := 0, wordIndex := 0);
    if |q.sentences| > 0 then ProcessCurrentSentence(q) else q
  }

  /** `speakCurrentSentence`: with the index past the last sentence, stop;
      otherwise build an utterance of the current sentence with the current
      settings and speak it. */
  function SpeakCurrent(p: Player): (s: Step)
    ensures p.sentenceIndex >= |p.sentences| ==> s == Stop(p)
    ensures p.sentenceIndex < |p.sentences| ==>
              && s.actions == [Speak(p.sentenceIndex, MakeUtterance(p.sentences[p.sentenceIndex], p.settings, p.voices))]
              && s.player == p.(utterance := Some(MakeUtterance(p.sentences[p.sentenceIndex], p.settings, p.voices)))
  {
    if p.sentenceIndex >= |p.sentences| then Stop(p)
    else
      var u := MakeUtterance(p.sentences[p.sentenceIndex], p.settings, p.voices);
      Step(p.(utterance := Some(u)), [Speak(p.sentenceIndex, u)])
  }

  /** The common part of `startReading` and `readSelectedText`: stop, segment
      the text, and when there is a sentence, start reading it. */
  function BeginReading(p: Player, text: string): (s: Step)
    ensures s.player.isReading <==> |Sentences(text)| > 0
    ensures s.player.sentences == Sentences(text) && !s.player.isPaused && s.player.sentenceIndex == 0
    ensures |s.actions| >= 2 && s.actions[..2] == [Cancel, ClearHighlight]
    ensures |Sentences(text)| > 0 ==>
              s.actions == [Cancel, ClearHighlight, Speak(0, MakeUtterance(Sentences(text)[0], p.settings, p.voices))]
    ensures |Sentences(text)| == 0 ==> s.actions == [Cancel, ClearHighlight]
    ensures s.player.settings == p.settings && s.player.voices == p.voices
  {
    var stopped := Stop(p);
    var q := ProcessText(stopped.player, text);
    if |q.sentences| > 0 then
      var spoken := SpeakCurrent(q.(isReading := true, isPaused := false));
      Step(spoken.player, stopped.actions + spoken.actions)
    else Step(q, stopped.actions)
  }

  /** `startReading` as written: read the text extraction returns, which is
      always the body's because the reader's `parse` throws. */
  function StartReadingAsWritten(p: Player, doc: Document): (s: Step)
    ensures s == BeginReading(p, TextAt(doc, doc.body))
  {
    BeginReading(p, ExtractArticleContent(doc).textContent)
  }

  /** `startReading` with a reader whose readerability method is reachable:
      read the text of the content selected on the clone when the page has a
      site-name meta, and the body's text otherwise. */
  function StartReading(p: Player, doc: Document): (s: Step)
    ensures HasSiteNameMeta(doc) ==>
              s == BeginReading(p, TextOf(CloneDocument(doc), Parse(CloneDocument(doc)).content))
    ensures !HasSiteNameMeta(doc) ==> s == BeginReading(p, TextAt(doc, doc.body))
  {
    BeginReading(p, ExtractIntended(doc).textContent)
  }

  /** `readSelectedText`: stop, segment the given text and read its first
      sentence, if it has one. */
  function ReadSelectedText(p: Player, text: string): (s: Step)
    ensures s.player.sentences == Sentences(text) && s.player.sentenceIndex == 0 && !s.player.isPaused
    ensures s.player.isReading <==> |Sentences(text)| > 0
    ensures |Sentences(text)| > 0 ==>
              s.actions == [Cancel, ClearHighlight, Speak(0, MakeUtterance(Sentences(text)[0], p.settings, p.voices))]
    ensures |Sentences(text)| == 0 ==> s.actions == [Cancel, ClearHighlight]
  {
    BeginReading(p, text)
  }

  /** `togglePlayPause`, whatever the state: when paused, clear the flag and
      speak the current sentence again from its start, or stop when the
      index is past the last sentence; otherwise set the flag and pause the
      engine. */
  function Toggle(p: Player): (s: Step)
    ensures Keeps(p, s.player)
    ensures p.isPaused && p.sentenceIndex < |p.sentences| ==>
              var u := MakeUtterance(p.sentences[p.sentenceIndex], p.settings, p.voices);
              && !s.player.isPaused && s.player.isReading == p.isReading
              && s.player.sentenceIndex == p.sentenceIndex && s.player.words == p.words && s.player.wordIndex == p.wordIndex
              && s.player.utterance == Some(u) && s.actions == [Speak(p.sentenceIndex, u)]
    ensures p.isPaused && p.sentenceIndex >= |p.sentences| ==>
              && !s.player.isReading && !s.player.isPaused && s.player.sentenceIndex == 0
              && s.actions == [Cancel, ClearHighlight]
    ensures !p.isPaused ==>
              && s.player.isPaused && s.player.isReading == p.isReading
              && s.player.sentenceIndex == p.sentenceIndex && s.player.words == p.words && s.player.wordIndex == p.wordIndex
              && s.player.utterance == p.utterance && s.actions == [PauseEngine]
  {
    if p.isPaused then SpeakCurrent(p.(isPaused := false))
    else Step(p.(isPaused := true), [PauseEngine])
  }

  /** What speaking sentence `i` asks of the engine, when reading and not
      paused; nothing otherwise. */
  function SpeakIfPlaying(p: Player, i: nat): seq<Action>
    requires i < |p.sentences|
  {
    if p.isReading && !p.isPaused then [Speak(i, MakeUtterance(p.sentences[i], p.settings, p.voices))] else []
  }

  /** After the index has moved: stop past the last sentence; otherwise take
      the new sentence's words and speak it if reading and not paused. The
      actions already taken come first. */
  function Continue(p: Player, before: seq<Action>): (s: Step)
    ensures Keeps(p, s.player)
    ensures p.sentenceIndex >= |p.sentences| ==>
              && !s.player.isReading && !s.player.isPaused && s.player.sentenceIndex == 0 && s.player.wordIndex == 0
              && s.actions == before + [Cancel, ClearHighlight]
    ensures p.sentenceIndex < |p.sentences| ==>
              && s.player.isReading == p.isReading && s.player.isPaused == p.isPaused
              && s.player.sentenceIndex == p.sentenceIndex
              && s.player.words == Words(p.sentences[p.sentenceIndex]) && s.player.wordIndex == 0
              && s.actions == before + SpeakIfPlaying(p, p.sentenceIndex)
  {
    if p.sentenceIndex >= |p.sentences| then
      var stopped := Stop(p);
      Step(stopped.player, before + stopped.actions)
    else
      var q := ProcessCurrentSentence(p);
      if q.isReading && !q.isPaused then
        var spoken := SpeakCurrent(q);
        Step(spoken.player, before + spoken.actions)
      else Step(q, before)
  }

  /** `skipNextSentence`: cancel and clear the highlight, then move to the
      next sentence and speak it when reading and not paused, or stop from
      the last sentence. */
  function SkipNext(p: Player): (s: Step)
    ensures Keeps(p, s.player)
    ensures p.sentenceIndex + 1 >= |p.sentences| ==>
              && !s.player.isReading && !s.player.isPaused && s.player.sentenceIndex == 0
              && s.actions == [Cancel, ClearHighlight, Cancel, ClearHighlight]
    ensures p.sentenceIndex + 1 < |p.sentences| ==>
              && s.player.isReading == p.isReading && s.player.isPaused == p.isPaused
              && s.player.sentenceIndex == p.sentenceIndex + 1
              && s.player.words == Words(p.sentences[p.sentenceIndex + 1]) && s.player.wordIndex == 0
              && s.actions == [Cancel, ClearHighlight] + SpeakIfPlaying(p, p.sentenceIndex + 1)
  {
    Continue(p.(sentenceIndex := p.sentenceIndex + 1), [Cancel, ClearHighlight])
  }

  /** `skipPreviousSentence`: cancel and clear the highlight, then move back
      one sentence, never below the first, and speak it when reading and not
      paused. */
  function SkipPrevious(p: Player): (s: Step)
    ensures Keeps(p, s.player)
    ensures |s.actions| >= 2 && s.actions[..2] == [Cancel, ClearHighlight]
    ensures var i := if p.sentenceIndex == 0 then 0 else p.sentenceIndex - 1;
            i < |p.sentences| ==>
              && s.player.isReading == p.isReading && s.player.isPaused == p.isPaused
              && s.player.sentenceIndex == i
              && s.player.words == Words(p.sentences[i]) && s.player.wordIndex == 0
              && s.actions == [Cancel, ClearHighlight] + SpeakIfPlaying(p, i)
  {
    var i := if p.sentenceIndex == 0 then 0 else p.sentenceIndex - 1;
    var q := ProcessCurrentSentence(p.(sentenceIndex := i));
    if q.isReading && !q.isPaused then
      var spoken := SpeakCurrent(q);
      Step(spoken.player, [Cancel, ClearHighlight] + spoken.actions)
    else Step(q, [Cancel, ClearHighlight])
  }

  /** `handleBoundary` as written: a "word" boundary moves the highlight to
      the word the scan finds, which is the first word when the index is
      past the characters the scan credits; any other boundary changes
      nothing. */
  function HandleBoundaryAsWritten(p: Player, name: string, charIndex: nat): (s: Step)
    ensures name != "word" ==> s == Step(p, [])
    ensures name == "word" ==> s.player == p.(wordIndex := s.player.wordIndex) && s.actions == [Highlight(s.player.wordIndex)]
    ensures name == "word" && charIndex < SpokenLength(p.words, |p.words|) ==> Covers(p.words, s.player.wordIndex, charIndex)
    ensures name == "word" && SpokenLength(p.words, |p.words|) <= charIndex ==> s.player.wordIndex == 0
  {
    if name == "word" then
      var w := WordIndexAt(p.words, charIndex);
      Step(p.(wordIndex := w), [Highlight(w)])
    else Step(p, [])
  }

  /** `handleBoundary` with the clamped mapping: past the credited characters
      the highlight stays on the last word. */
  function HandleBoundary(p: Player, name: string, charIndex: nat): (s: Step)
    ensures name != "word" ==> s == Step(p, [])
    ensures name == "word" ==> s.player == p.(wordIndex := s.player.wordIndex) && s.actions == [Highlight(s.player.wordIndex)]
    ensures name == "word" && |p.words| > 0 ==> s.player.wordIndex < |p.words|
    ensures name == "word" && charIndex < SpokenLength(p.words, |p.words|) ==> Covers(p.words, s.player.wordIndex, charIndex)
    ensures name == "word" && |p.words| > 0 && SpokenLength(p.words, |p.words|) <= charIndex ==>
              s.player.wordIndex == |p.words| - 1
  {
    if name == "word" then
      var w := ClampedWordIndexAt(p.words, charIndex);
      Step(p.(wordIndex := w), [Highlight(w)])
    else Step(p, [])
  }

  /** `handleUtteranceEnd`: advance by one sentence and clear the
      highlight; then stop past the last sentence, or take the next
      sentence's words and speak it when reading and not paused. The
      callback belongs to whichever utterance ended; nothing tells a
      cancelled utterance's end from the current one's. */
  function HandleEnd(p: Player): (s: Step)
    ensures Keeps(p, s.player)
    ensures p.sentenceIndex + 1 >= |p.sentences| ==>
              && !s.player.isReading && !s.player.isPaused && s.player.sentenceIndex == 0
              && s.actions == [ClearHighlight, Cancel, ClearHighlight]
    ensures p.sentenceIndex + 1 < |p.sentences| ==>
              && s.player.isReading == p.isReading && s.player.isPaused == p.isPaused
              && s.player.sentenceIndex == p.sentenceIndex + 1
              && s.player.words == Words(p.sentences[p.sentenceIndex + 1]) && s.player.wordIndex == 0
              && s.actions == [ClearHighlight] + SpeakIfPlaying(p, p.sentenceIndex + 1)
  {
    Continue(p.(sentenceIndex := p.sentenceIndex + 1), [ClearHighlight])
  }

  /** `handleUtteranceError`: always stop, whatever the state. */
  function HandleError(p: Player): (s: Step)
    ensures Keeps(p, s.player) && s.player.words == p.words
    ensures !s.player.isReading && !s.player.isPaused && s.player.sentenceIndex == 0 && s.player.wordIndex == 0
    ensures s.actions == [Cancel, ClearHighlight]
  {
    Stop(p)
  }

  /** Stores `settings` as the controller's settings, then `updateSettings`
      re-applies rate, pitch and volume to the current utterance, and its
      voice when the selected voice is available; otherwise the utterance
      keeps the voice it had. */
  function ApplySettings(p: Player, settings: Settings): (q: Player)
    ensures q == p.(settings := settings, utterance := q.utterance)
    ensures p.utterance.None? <==> q.utterance.None?
    ensures q.utterance.Some? ==>
              var u := p.utterance.value;
              var v := q.utterance.value;
              && v.text == u.text
              && v.rate == settings.speechRate && v.pitch == settings.speechPitch && v.volume == settings.playbackVolume
              && v.voice == (if ChooseVoice(settings, p.voices).Some? then ChooseVoice(settings, p.voices) else u.voice)
  {
    var q := p.(settings := settings);
    match p.utterance
    case None => q
    case Some(u) =>
      var chosen := ChooseVoice(settings, p.voices);
      var voice := if chosen.Some? then chosen else u.voice;
      q.(utterance := Some(u.(rate := settings.speechRate, pitch := settings.speechPitch,
                              volume := settings.playbackVolume, voice := voice)))
  }

  // ---------------------------------------------------------------------
  // Events

  datatype Event =
    | StartReadingCommand(doc: Document)
    | ReadSelectedCommand(text: string)
    | StopCommand
    | ToggleCommand
    | SkipNextCommand
    | SkipPreviousCommand
    | BoundaryEvent(name: string, charIndex: nat)
    | EndEvent
    | ErrorEvent
    // the settings panel assigns the new value, then calls `updateSettings`
    | SettingsChange(settings: Settings)
    // the popup's "updateSettings" message, which carries the popup's settings
    | SettingsMessage(settings: Settings)

  /** One event as the controller handles it: `startReading` as written,
      the boundary handler as written, and the popup's settings message as
      written: the listener passes the message's settings to
      `updateSettings`, which takes no parameter, so the stored settings are
      re-applied and the message's are dropped. Only the two read commands
      change the text, only a settings panel change changes the settings, a
      boundary moves only the word index, and the voice list never
      changes. */
  function Handle(p: Player, e: Event): (s: Step)
    ensures s.player.voices == p.voices
    ensures e.SettingsChange? ==> s.player.settings == e.settings && s.player.sentences == p.sentences && s.actions == []
    ensures !e.SettingsChange? ==> s.player.settings == p.settings
    ensures e.SettingsMessage? ==> s.player.sentences == p.sentences && s.actions == []
    ensures !e.StartReadingCommand? && !e.ReadSelectedCommand? ==> s.player.sentences == p.sentences
    ensures e.StartReadingCommand? ==> s.player.sentences == Sentences(TextAt(e.doc, e.doc.body))
    ensures e.ReadSelectedCommand? ==> s.player.sentences == Sentences(e.text)
    ensures e.BoundaryEvent? ==> s.player == p.(wordIndex := s.player.wordIndex)
  {
    match e
    case StartReadingCommand(doc) => StartReadingAsWritten(p, doc)
    case ReadSelectedCommand(text) => ReadSelectedText(p, text)
    case StopCommand => Stop(p)
    case ToggleCommand => Toggle(p)
    case SkipNextCommand => SkipNext(p)
    case SkipPreviousCommand => SkipPrevious(p)
    case BoundaryEvent(name, c) => HandleBoundaryAsWritten(p, name, c)
    case EndEvent => HandleEnd(p)
    case ErrorEvent => HandleError(p)
    case SettingsChange(s) => Step(ApplySettings(p, s), [])
    case SettingsMessage(_) => Step(ApplySettings(p, p.settings), [])
  }

  /** One event with the three corrections: the reader's readerability
      method reachable, the clamped boundary mapping, and the popup's
      settings stored before they are re-applied. */
  function HandleIntended(p: Player, e: Event): (s: Step)
    ensures s.player.voices == p.voices
    ensures e.SettingsChange? || e.SettingsMessage? ==>
              s.player.settings == e.settings && s.player.sentences == p.sentences && s.actions == []
    ensures !e.SettingsChange? && !e.SettingsMessage? ==> s.player.settings == p.settings
    ensures !e.StartReadingCommand? && !e.ReadSelectedCommand? ==> s.player.sentences == p.sentences
    ensures e.BoundaryEvent? ==> s.player == p.(wordIndex := s.player.wordIndex)
    ensures e.BoundaryEvent? && e.name == "word" && |p.words| > 0 ==> s.player.wordIndex < |p.words|
  {
    match e
    case StartReadingCommand(doc) => StartReading(p, doc)
    case BoundaryEvent(name, c) => HandleBoundary(p, name, c)
    case SettingsMessage(s) => Step(ApplySettings(p, s), [])
    case _ => Handle(p, e)
  }

  /** A sequence of events, collecting the actions in order. Without a
      read command the text stays; without a settings panel change the
      settings stay; the voice list never changes. */
  function Run(p: Player, events: seq<Event>): (s: Step)
    ensures s.player.voices == p.voices
    ensures (forall k :: 0 <= k < |events| ==> !events[k].StartReadingCommand? && !events[k].ReadSelectedCommand?) ==>
              s.player.sentences == p.sentences
    ensures (forall k :: 0 <= k < |events| ==> !events[k].SettingsChange?) ==> s.player.settings == p.settings
    decreases |events|
  {
    if |events| == 0 then Step(p, [])
    else
      var first := Handle(p, events[0]);
      var rest := Run(first.player, events[1..]);
      Step(rest.player, first.actions + rest.actions)
  }
}
