/** The recording controller of audio_capture.py (`AudioProcessor`): the
    `is_recording` / `ready_to_record` flags, the block list the audio
    callback fills, the held-key set of the hotkey listener, and what a
    finished recording leads to. The audio device, the recogniser, the file
    system, the clipboard and the sounds are replaced by an `Outcomes` value
    and an event log. */
module Capture {
  import opened Common
  import opened PyText
  import Transcript

  /** One block of 16-bit samples, as `callback` stores it. */
  type Block = seq<int>

  // ---------------------------------------------------------------------
  // Audio blocks

  /** `np.concatenate(frames)`: the blocks one after another. */
  function Concat(frames: seq<Block>): seq<int> {
    if frames == [] then [] else Concat(frames[..|frames| - 1]) + frames[|frames| - 1]
  }

  /** Sample `j` of block `i` sits in the concatenation right after all the
      samples of the blocks before it: arrival order and sample order are
      both kept. */
  lemma {:induction false} ConcatIndex(frames: seq<Block>, i: nat, j: nat)
    requires i < |frames| && j < |frames[i]|
    ensures |Concat(frames[..i])| + j < |Concat(frames)|
    ensures Concat(frames)[|Concat(frames[..i])| + j] == frames[i][j]
  {
    var n := |frames| - 1;
    assert frames[..n + 1] == frames;
    if i < n {
      ConcatIndex(frames[..n], i, j);
      assert frames[..n][..i] == frames[..i];
    } else {
      assert frames[..i] == frames[..n];
    }
  }

  /** Blocks of equal size `m` concatenate to `m` samples per block. */
  lemma {:induction false} ConcatUniformLength(frames: seq<Block>, m: nat)
    requires forall i :: 0 <= i < |frames| ==> |frames[i]| == m
    ensures |Concat(frames)| == m * |frames|
  {
    if frames != [] {
      var n := |frames| - 1;
      ConcatUniformLength(frames[..n], m);
      assert |Concat(frames)| == |Concat(frames[..n])| + m;
      assert m * (n + 1) == m * n + m;
    }
  }

  // ---------------------------------------------------------------------
  // Hotkey

  /** The special keys the hotkey needs, and any other one. */
  datatype SpecialKey = Cmd | Shift | OtherSpecial(code: nat)

  /** What the listener passes: a `KeyCode` (whose `char` may be `None`),
      a special `Key`, or no key at all (`None`). */
  datatype KeyEvent = KeyCode(ch: Option<char>) | Special(key: SpecialKey) | NoKey

  /** What `keys_pressed` holds: a lowercased character, a special key, or
      the `None` a key-less press adds. */
  datatype HeldKey = CharKey(c: char) | HeldSpecial(key: SpecialKey) | HeldNone

  /** The set entry a press of `k` adds, if any. */
  function HeldForm(k: KeyEvent): Option<HeldKey> {
    match k
    case KeyCode(None) => None
    case KeyCode(Some(c)) => Some(CharKey(Lower(c)))
    case Special(s) => Some(HeldSpecial(s))
    case NoKey => Some(HeldNone)
  }

  /** Command, Shift and '9' are all held. */
  predicate HotkeyHeld(keys: set<HeldKey>) {
    HeldSpecial(Cmd) in keys && HeldSpecial(Shift) in keys && CharKey('9') in keys
  }

  /** The set after `on_press(k)` has added the key. */
  function AfterPress(keys: set<HeldKey>, k: KeyEvent): set<HeldKey> {
    match HeldForm(k)
    case None => keys
    case Some(h) => keys + {h}
  }

  /** The set after `on_release(k)` has discarded the key. */
  function AfterRelease(keys: set<HeldKey>, k: KeyEvent): set<HeldKey> {
    if k.NoKey? then keys
    else match HeldForm(k)
      case None => keys
      case Some(h) => keys - {h}
  }

  /** A press fires the toggle exactly when each of Command, Shift and '9'
      was already held or is the key being pressed. */
  lemma PressFiresExactly(keys: set<HeldKey>, k: KeyEvent)
    ensures HotkeyHeld(AfterPress(keys, k)) <==>
      && (HeldSpecial(Cmd) in keys || k == Special(Cmd))
      && (HeldSpecial(Shift) in keys || k == Special(Shift))
      && (CharKey('9') in keys || k == KeyCode(Some('9')))
  {
    if k.KeyCode? && k.ch.Some? && Lower(k.ch.value) == '9' {
      assert k.ch.value == '9';
    }
  }

  /** Releasing a key undoes pressing it, whatever was held before. */
  lemma ReleaseUndoesPress(keys: set<HeldKey>, k: KeyEvent)
    requires !k.NoKey?
    ensures AfterRelease(AfterPress(keys, k), k) == AfterRelease(keys, k)
    ensures HeldForm(k).Some? ==> HeldForm(k).value in AfterPress(keys, k) && HeldForm(k).value !in AfterRelease(keys, k)
  {
  }

  /** Releasing a key that is not held changes nothing. */
  lemma ReleaseAbsentKey(keys: set<HeldKey>, k: KeyEvent)
    requires HeldForm(k).None? || HeldForm(k).value !in keys
    ensures AfterRelease(keys, k) == keys
  {
  }

  /** A key-less press leaves `None` in the set for good: no release removes
      it, and it never counts towards the hotkey. */
  lemma NoKeyStaysHeld(keys: set<HeldKey>, k: KeyEvent)
    requires HeldNone in keys
    ensures HeldNone in AfterRelease(keys, k) && HeldNone in AfterPress(keys, k)
    ensures HotkeyHeld(keys) == HotkeyHeld(keys - {HeldNone})
  {
  }

  /** Character keys are stored lowercased, so both cases are one key. */
  lemma CharKeysIgnoreCase(keys: set<HeldKey>, c: char)
    requires 'A' <= c <= 'Z'
    ensures AfterPress(keys, KeyCode(Some(c))) == AfterPress(keys, KeyCode(Some((c as int + 32) as char)))
  {
  }

  // ---------------------------------------------------------------------
  // What a finished recording leads to

  /** The result of asking the recogniser: the model could not be loaded,
      the transcription raised, or the texts of the segments it produced. */
  datatype Recognition = ModelUnavailable | RecognitionFailed | Segments(texts: seq<string>)

  /** The outcomes of everything outside the controller for one call:
      whether the input stream fails to open, whether writing the WAV file
      fails, what the recogniser does, and whether deleting the file fails. */
  datatype Outcomes = Outcomes(streamFails: bool, saveFails: bool, recognition: Recognition, removeFails: bool)

  /** An observable effect: a sound played, text put on the clipboard, a
      recording file written with these samples, a deletion of the recording
      file attempted (and whether it worked). */
  datatype Event = Played(sound: Sound) | Copied(text: string) | Saved(samples: seq<int>) | Removed(ok: bool)

  /** What `transcribe_audio` returns. */
  function TranscriptOf(rec: Recognition): Option<string> {
    match rec
    case Segments(texts) => Transcript.TranscriptText(texts)
    case _ => None
  }

  /** A transcript worth delivering: present and non-empty (`if transcript:`). */
  predicate Delivered(t: Option<string>) {
    t.Some? && t.value != []
  }

  /** The error sound `ensure_model_loaded` plays when the model cannot be
      loaded. */
  function LoadEvents(rec: Recognition): seq<Event> {
    if rec.ModelUnavailable? then [Played(Error)] else []
  }

  /** What `handle_transcription` does with transcript `t`: the clipboard
      copy and the success sound, or the error sound; then the deletion
      attempt, with an error sound if it failed. */
  function DeliveryEvents(t: Option<string>, removeFails: bool): seq<Event> {
    (if Delivered(t) then [Copied(t.value), Played(Success)] else [Played(Error)])
    + [Removed(!removeFails)]
    + (if removeFails then [Played(Error)] else [])
  }

  /** The events of `handle_transcription`. */
  function HandlingEvents(rec: Recognition, removeFails: bool): seq<Event> {
    LoadEvents(rec) + DeliveryEvents(TranscriptOf(rec), removeFails)
  }

  /** The events of `process_recorded_audio` on `frames`. */
  function ProcessingEvents(frames: seq<Block>, o: Outcomes): seq<Event> {
    if frames == [] || o.saveFails then [Played(Error)]
    else [Saved(Concat(frames))] + HandlingEvents(o.recognition, o.removeFails)
  }

  /** Success is reported, and text reaches the clipboard, only for a
      non-empty transcript; and the deletion of the recording is attempted
      on every path. */
  lemma HandlingReportsSuccessOnlyForText(rec: Recognition, removeFails: bool)
    ensures var ev, t := HandlingEvents(rec, removeFails), TranscriptOf(rec);
      && (Played(Success) in ev <==> Delivered(t))
      && (forall s :: Copied(s) in ev ==> Delivered(t) && s == t.value)
      && Removed(!removeFails) in ev
      && (!Delivered(t) ==> Played(Error) in ev)
  {
    var t := TranscriptOf(rec);
    DeliveryReportsSuccessOnlyForText(t, removeFails);
    var pre := LoadEvents(rec);
    assert Played(Success) !in pre;
    assert forall s :: Copied(s) !in pre;
  }

  lemma DeliveryReportsSuccessOnlyForText(t: Option<string>, removeFails: bool)
    ensures var ev := DeliveryEvents(t, removeFails);
      && (Played(Success) in ev <==> Delivered(t))
      && (forall s :: Copied(s) in ev ==> Delivered(t) && s == t.value)
      && Removed(!removeFails) in ev
      && (!Delivered(t) ==> Played(Error) in ev)
  {
    var mid := if Delivered(t) then [Copied(t.value), Played(Success)] else [Played(Error)];
    var post := [Removed(!removeFails)] + (if removeFails then [Played(Error)] else []);
    assert DeliveryEvents(t, removeFails) == mid + post;
    assert Played(Success) !in post;
    assert forall s :: Copied(s) !in post;
  }

  /** Silence: when every segment strips to nothing, nothing is copied and
      the error sound plays. */
  lemma SilenceIsNotDelivered(texts: seq<string>, removeFails: bool)
    requires forall k :: 0 <= k < |texts| ==> Strip(texts[k]) == []
    ensures forall s :: Copied(s) !in HandlingEvents(Segments(texts), removeFails)
    ensures Played(Error) in HandlingEvents(Segments(texts), removeFails)
  {
    Transcript.NoSpeechIffAllBlank(texts);
    HandlingReportsSuccessOnlyForText(Segments(texts), removeFails);
  }

  /** What reaches the clipboard is the normalised join of the spoken texts. */
  lemma ClipboardGetsNormalisedText(texts: seq<string>, removeFails: bool, s: string)
    requires Copied(s) in HandlingEvents(Segments(texts), removeFails)
    ensures s == Transcript.ProcessedText(Join(Transcript.SpokenTexts(texts), ' '))
    ensures s != []
  {
    HandlingReportsSuccessOnlyForText(Segments(texts), removeFails);
  }

  // ---------------------------------------------------------------------
  // The controller

  class AudioProcessor {
    var isRecording: bool
    var readyToRecord: bool
    /** The captured blocks, in arrival order. */
    var frames: seq<Block>
    var keysPressed: set<HeldKey>
    /** Everything observable the controller has done, oldest first. */
    var events: seq<Event>

    /** `initialize_attributes`: idle, ready, nothing captured or held. */
    constructor()
      ensures !isRecording && readyToRecord && frames == [] && keysPressed == {} && events == []
    {
      isRecording := false;
      readyToRecord := true;
      frames := [];
      keysPressed := {};
      events := [];
    }

    /** `toggle_recording`: starts a capture when idle and ready, stops the
        one in progress, and otherwise does nothing. */
    method ToggleRecording(o: Outcomes)
      modifies this`isRecording, this`readyToRecord, this`frames, this`events
      ensures old(!isRecording && readyToRecord) ==>
        && isRecording == !o.streamFails && readyToRecord && frames == []
        && events == old(events) + [Played(Start)] + (if o.streamFails then [Played(Error)] else [])
      ensures old(isRecording) ==>
        && !isRecording && frames == old(frames)
        && readyToRecord == (old(readyToRecord) || old(frames) != [])
        && events == old(events) + [Played(Stop)] + (if old(frames) != [] then ProcessingEvents(old(frames), o) else [])
      ensures old(!isRecording && !readyToRecord) ==>
        isRecording == old(isRecording) && readyToRecord == old(readyToRecord) && frames == old(frames) && events == old(events)
    {
      if !isRecording && readyToRecord {
        StartRecording(o.streamFails);
      } else if isRecording {
        StopRecording(o);
      }
    }

    /** `start_recording`: under the same guard, clears the blocks and sets
        the flag; a stream that fails to open puts the flag back. */
    method StartRecording(streamFails: bool)
      modifies this`isRecording, this`frames, this`events
      ensures old(!isRecording && readyToRecord) ==>
        && isRecording == !streamFails && frames == []
        && events == old(events) + [Played(Start)] + (if streamFails then [Played(Error)] else [])
      ensures old(isRecording || !readyToRecord) ==>
        isRecording == old(isRecording) && frames == old(frames) && events == old(events)
    {
      if !isRecording && readyToRecord {
        frames := [];
        isRecording := true;
        events := events + [Played(Start)];
        if streamFails {
          RecordingFailed();
        }
      }
    }

    /** The `except` branch of `start_recording`, for a stream that fails
        while it is open: the flag is cleared and the error sound plays; the
        blocks are kept but never transcribed. */
    method RecordingFailed()
      modifies this`isRecording, this`events
      ensures !isRecording
      ensures events == old(events) + [Played(Error)]
    {
      isRecording := false;
      events := events + [Played(Error)];
    }

    /** `stop_recording`: clears the flag, plays the stop sound, and
        processes the recording only if some block arrived. */
    method StopRecording(o: Outcomes)
      modifies this`isRecording, this`readyToRecord, this`events
      ensures !isRecording
      ensures readyToRecord == (old(readyToRecord) || old(frames) != [])
      ensures events == old(events) + [Played(Stop)] + (if old(frames) != [] then ProcessingEvents(old(frames), o) else [])
    {
      isRecording := false;
      events := events + [Played(Stop)];
      if frames != [] {
        ProcessRecordedAudio(o);
      }
    }

    /** `callback`: appends exactly one block at the end. */
    method Callback(block: Block)
      modifies this`frames
      ensures frames == old(frames) + [block]
    {
      frames := frames + [block];
    }

    /** `process_recorded_audio`: saves, transcribes and delivers, and
        always ends with the gate open. */
    method ProcessRecordedAudio(o: Outcomes)
      modifies this`readyToRecord, this`events
      ensures readyToRecord
      ensures events == old(events) + ProcessingEvents(old(frames), o)
    {
      var audio := SaveAudio(o.saveFails);
      if audio.Some? {
        HandleTranscription(o.recognition, o.removeFails);
      } else {
        events := events + [Played(Error)];
      }
      readyToRecord := true;
    }

    /** `save_audio`: nothing without blocks or when writing fails, else the
        concatenation of the blocks in arrival order, which is also what the
        file receives. */
    method SaveAudio(saveFails: bool) returns (audio: Option<Block>)
      modifies this`events
      ensures audio.None? <==> frames == [] || saveFails
      ensures audio.Some? ==> audio.value == Concat(frames)
      ensures events == old(events) + (if audio.Some? then [Saved(audio.value)] else [])
    {
      if frames == [] {
        return None;
      }
      if saveFails {
        return None;
      }
      var samples := Concat(frames);
      events := events + [Saved(samples)];
      return Some(samples);
    }

    /** `transcribe_audio`: the transcript, or `None` when the model cannot
        be loaded (which also plays the error sound) or recognition fails. */
    method TranscribeAudio(rec: Recognition) returns (t: Option<string>)
      modifies this`events
      ensures t == TranscriptOf(rec)
      ensures events == old(events) + LoadEvents(rec)
    {
      match rec
      case ModelUnavailable =>
        events := events + [Played(Error)];
        t := None;
      case RecognitionFailed =>
        t := None;
      case Segments(texts) =>
        t := Transcript.ProcessTranscriptionSegments(texts);
    }

    /** `handle_transcription`: delivers a non-empty transcript, reports an
        error otherwise, and in every case tries to delete the recording. */
    method HandleTranscription(rec: Recognition, removeFails: bool)
      modifies this`events
      ensures events == old(events) + HandlingEvents(rec, removeFails)
    {
      var transcript := TranscribeAudio(rec);
      ghost var loaded := events;
      DeliverTranscript(transcript, removeFails);
      assert events == loaded + DeliveryEvents(TranscriptOf(rec), removeFails);
    }

    /** The rest of `handle_transcription` once the transcript is known: the
        clipboard and the success sound for a non-empty transcript, the error
        sound otherwise, then (the `finally` block) the deletion attempt. */
    method DeliverTranscript(transcript: Option<string>, removeFails: bool)
      modifies this`events
      ensures events == old(events) + DeliveryEvents(transcript, removeFails)
    {
      if transcript.Some? && transcript.value != [] {
        events := events + [Copied(transcript.value), Played(Success)];
      } else {
        events := events + [Played(Error)];
      }
      events := events + [Removed(!removeFails)];
      if removeFails {
        events := events + [Played(Error)];
      }
    }

    /** `on_press`: records the key, then toggles when the hotkey is held;
        the toggle's three cases are those of `ToggleRecording`. */
    method OnPress(k: KeyEvent, o: Outcomes)
      modifies this`keysPressed, this`isRecording, this`readyToRecord, this`frames, this`events
      ensures keysPressed == AfterPress(old(keysPressed), k)
      ensures !HotkeyHeld(keysPressed) || old(!isRecording && !readyToRecord) ==>
        isRecording == old(isRecording) && readyToRecord == old(readyToRecord)
        && frames == old(frames) && events == old(events)
      ensures HotkeyHeld(keysPressed) && old(isRecording) ==>
        && !isRecording && frames == old(frames)
        && readyToRecord == (old(readyToRecord) || old(frames) != [])
        && events == old(events) + [Played(Stop)] + (if old(frames) != [] then ProcessingEvents(old(frames), o) else [])
      ensures HotkeyHeld(keysPressed) && old(!isRecording && readyToRecord) ==>
        && isRecording == !o.streamFails && readyToRecord && frames == []
        && events == old(events) + [Played(Start)] + (if o.streamFails then [Played(Error)] else [])
    {
      keysPressed := AfterPress(keysPressed, k);
      if HotkeyHeld(keysPressed) {
        ToggleRecording(o);
      }
    }

    /** `on_release`: forgets the key; forgetting one not held is harmless. */
    method OnRelease(k: KeyEvent)
      modifies this`keysPressed
      ensures keysPressed == AfterRelease(old(keysPressed), k)
    {
      keysPressed := AfterRelease(keysPressed, k);
    }
  }
}
