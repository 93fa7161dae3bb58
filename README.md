# Audio Transcriber — a Dafny model of its core

Audio Transcriber is a macOS menu-bar tool. Command+Shift+9 starts and stops a
microphone recording. The recording is saved as a WAV file and transcribed
with a Whisper model. The recogniser's text is normalised into capitalised,
terminated sentences and copied to the clipboard. A first-run setup flow lets
the user pick one of five Whisper models and download it. A model manager
resolves where a model is installed and which one is active.

This project models that core in Dafny and proves properties of the model:

| file | module | models |
|---|---|---|
| `common.dfy` | `Common` | shared `Option`, `Result` and the four notification sounds |
| `pytext.dfy` | `PyText` | the Python `str` operations used: `isspace`, `strip`, ASCII `upper`/`lower`, `split`, `join`, `replace` |
| `transcript.dfy` | `Transcript` | `process_text` and `process_transcription_segments` |
| `capture.dfy` | `Capture` | the `AudioProcessor` recording controller, as a class |
| `models.dfy` | `Models` | `ModelManager`: the model table, model paths and locations, selection, download checks |
| `menubar.dfy` | `MenuBar` | the `AudioTranscriberApp` state machine and icon animation |
| `setup.dfy` | `Setup` | `SetupManager`: the model prompt, the download gate and the setup loop |

**How each kind of code is modelled.**
- **Pure text post-processing** is a specification function.
- **Loops with accumulators** are also a method with a loop. Each such method is proved to compute its function (`ProcessText`, `ProcessTranscriptionSegments`, `GetUserModelChoice`).
- **Objects whose methods update fields in place** are classes: `AudioProcessor`, `ModelManager` and `AudioTranscriberApp`.
- **The setup loop** is `RunSetup`, a method proved equal to the specification function `SetupOutcome`.

**What stands in for the outside world.** It is either a parameter or an event log.
- **Parameters:** whether the audio stream fails, whether writing a file fails, what the recogniser returns, the disk-space answer, the download outcome, the lines the user types, and the clock in milliseconds.
- **The event log** records the sounds played, the clipboard copies, the recordings written and the deletion attempts.

**Behaviour of the source that the model keeps as written.**
- `ready_to_record` is only ever set to `True` (audio_capture.py:129, :217). The "ready" half of the recording guard is therefore always true.
- A key press with no key at all adds `None` to `keys_pressed`. `on_release` never removes it, because it skips `None` (audio_capture.py:354, :368).
- `get_model_path` with no model selected fails in `Path / None`. The model returns that `TypeError` as an error value.
- Speech made only of periods is "detected", yet `process_text` turns it into the empty string. The caller then reports a failed transcription (`OnlyPeriodsGiveEmptyTranscript`).
- The `". "` → `"."` rewrite in `process_text` is redundant. The `strip()` of each fragment removes the same space (`ReplaceIsRedundant`).

## Model

| member | source | states |
|---|---|---|
| PyText.UpperFixes | audio_capture.py:320 | `upper()` changes exactly the letters `a` to `z`, and uppercasing twice is uppercasing once |
| PyText.UpperStrIdempotent | audio_capture.py:320 | `s.upper().upper() == s.upper()` for every string |
| PyText.LowerIsLetter | setup_manager.py:86 | `s.lower()` equals a one-letter lowercase string exactly when `s` is that letter in either case |
| PyText.TrimLeftSpec | audio_capture.py:314 | `lstrip` keeps a suffix that does not start with whitespace, and everything it drops is whitespace |
| PyText.TrimRightSpec | audio_capture.py:314 | `rstrip` keeps a prefix that does not end with whitespace, and everything it drops is whitespace |
| PyText.StripSpec | audio_capture.py:314-317 | `strip` returns the slice between the leading and the trailing whitespace; that slice is empty exactly when the string is all whitespace |
| PyText.StripStripped | audio_capture.py:295 | stripping twice is the same as stripping once |
| PyText.StripKeepsFree | audio_capture.py:317 | stripping never introduces a character the input lacks |
| PyText.Split | audio_capture.py:311 | `split('.')` returns at least one piece, and no piece contains the separator |
| PyText.JoinSplit | audio_capture.py:311 | joining the pieces of a split with the separator gives back the original string |
| PyText.SplitJoin | audio_capture.py:327 | splitting a join of separator-free pieces gives back the pieces |
| Transcript.Capitalize | audio_capture.py:320 | the first character is uppercased and the rest kept; a one-character fragment is uppercased entirely |
| Transcript.Terminate | audio_capture.py:322-323 | the result ends in `.`, `!` or `?`; a period is added exactly when none of these was last; the fragment is a prefix of the result, and the one character added is `.` |
| Transcript.CleanFragmentShape | audio_capture.py:317-323 | a kept fragment is its stripped part, first letter uppercased, rest unchanged, ending in a terminator, one period longer only when unterminated |
| Transcript.ProcessedText | audio_capture.py:306-308 | the empty text is returned unchanged |
| Transcript.ProcessText | audio_capture.py:306-327 | the loop over the parts computes `ProcessedText`: split on `.` after the `". "` rewrite, blank parts skipped, each kept part cleaned, joined with single spaces |
| Transcript.CleanFragmentIsSentence | audio_capture.py:317-323 | a cleaned fragment of a period-free part is a finished sentence: non-empty, no leading whitespace, terminated, no earlier period |
| Transcript.SentencesEmpty | audio_capture.py:313-315 | no sentence comes out exactly when every part strips to nothing |
| Transcript.SentencesAppend | audio_capture.py:313-325 | sentences come out in the order of their parts: the sentences of `a + b` are those of `a` followed by those of `b` |
| Transcript.SentencesAreSentences | audio_capture.py:313-325 | every sentence produced from period-free parts is a finished sentence |
| Transcript.SentencesOnlySeeStripped | audio_capture.py:314-317 | parts that strip to the same text give the same sentences |
| Transcript.SplitAfterReplace | audio_capture.py:311 | splitting after the `". "` rewrite gives the same number of pieces; each piece is unchanged or lost one leading space |
| Transcript.ReplaceIsRedundant | audio_capture.py:311-317 | `process_text` gives the same result with or without the `". "` → `"."` rewrite |
| Transcript.ProcessedTextIsSentences | audio_capture.py:306-327 | the result is the single-space join of finished sentences; a non-empty result starts with a non-space character and ends in a terminator |
| Transcript.CleanFragmentIsEmitted | audio_capture.py:317-323 | a cleaned fragment of a period-free part is a finished sentence whose first character is already uppercase and whose closing period, if any, follows a character that is neither whitespace nor a terminator |
| Transcript.SentencesAreEmitted | audio_capture.py:313-325 | every sentence produced from period-free parts has that form |
| Transcript.EmittedReprocess | audio_capture.py:306-327 | the single-space join of such sentences comes back unchanged from another split, clean and join |
| Transcript.ProcessedTextIdempotent | audio_capture.py:306-327 | `process_text(process_text(t)) == process_text(t)` for every text |
| Transcript.ProcessTextExample | audio_capture.py:306-327 | `"hello world. this is a test"` becomes `"Hello world. This is a test."` |
| Transcript.ProcessTranscriptionSegments | audio_capture.py:292-304 | the loop over the segments computes `TranscriptText`: non-blank stripped texts in segment order, joined by spaces and processed, or `None` |
| Transcript.NoSpeechIffAllBlank | audio_capture.py:299-304 | the result is `None` exactly when every segment strips to nothing |
| Transcript.SpokenTextsAppend | audio_capture.py:293-297 | segment texts are kept in segment order |
| Transcript.SpokenTextsStripped | audio_capture.py:295-297 | every kept segment text is already stripped |
| Transcript.OnlyPeriodsGiveEmptyTranscript | audio_capture.py:292-327 | a segment `" ..."` counts as speech, yet the transcript is the empty string |
| Capture.ConcatIndex | audio_capture.py:219-224 | sample `j` of block `i` sits in the concatenation right after the samples of all earlier blocks |
| Capture.ConcatUniformLength | audio_capture.py:219-224 | blocks of equal size `m` concatenate to `m` samples per block |
| Capture.PressFiresExactly | audio_capture.py:348-359 | a press toggles exactly when Command, Shift and `'9'` are each already held or are the key being pressed |
| Capture.ReleaseUndoesPress | audio_capture.py:363-369 | releasing a key undoes pressing it, whatever was held before |
| Capture.ReleaseAbsentKey | audio_capture.py:363-369 | releasing a key that is not held changes nothing |
| Capture.NoKeyStaysHeld | audio_capture.py:348-369 | a key-less press leaves `None` in the set for good, and it never counts towards the hotkey |
| Capture.CharKeysIgnoreCase | audio_capture.py:350-352 | character keys are stored lowercased, so both cases of a letter are one key |
| Capture.DeliveryReportsSuccessOnlyForText | audio_capture.py:239-251 | success and a clipboard copy happen exactly for a non-empty transcript; otherwise the error sound plays; deleting the recording is attempted on every path |
| Capture.HandlingReportsSuccessOnlyForText | audio_capture.py:236-251 | the same holds for the whole of `handle_transcription`, including a model that fails to load |
| Capture.SilenceIsNotDelivered | audio_capture.py:236-304 | when every segment is blank, nothing is copied and the error sound plays |
| Capture.ClipboardGetsNormalisedText | audio_capture.py:238-240 | what reaches the clipboard is the processed join of the spoken segment texts, and it is non-empty |
| Capture.AudioProcessor.constructor | audio_capture.py:118-135 | the controller starts idle and ready, with no blocks and no held keys |
| Capture.AudioProcessor.ToggleRecording | audio_capture.py:159-165 | starts a recording only when idle and ready, stops one in progress, and otherwise changes nothing |
| Capture.AudioProcessor.StartRecording | audio_capture.py:167-189 | under the guard, clears the blocks, sets the flag and plays the start sound; a failing stream clears the flag again and plays the error sound |
| Capture.AudioProcessor.RecordingFailed | audio_capture.py:185-189 | the failure path clears the recording flag and plays the error sound |
| Capture.AudioProcessor.StopRecording | audio_capture.py:191-196 | clears the flag, plays the stop sound, and processes the recording only if some block arrived |
| Capture.AudioProcessor.Callback | audio_capture.py:198-203 | appends exactly one block at the end |
| Capture.AudioProcessor.ProcessRecordedAudio | audio_capture.py:205-217 | saves, transcribes and delivers, or plays the error sound; always ends with `ready_to_record` set |
| Capture.AudioProcessor.SaveAudio | audio_capture.py:219-234 | `None` without blocks or when writing fails, else the concatenation of the blocks in arrival order, which is also what is written |
| Capture.AudioProcessor.TranscribeAudio | audio_capture.py:253-265 | the processed transcript, or `None` when the model cannot be loaded (with the error sound) or recognition fails |
| Capture.AudioProcessor.HandleTranscription | audio_capture.py:236-251 | the events are exactly those of loading, delivering and deleting |
| Capture.AudioProcessor.DeliverTranscript | audio_capture.py:239-251 | a non-empty transcript is copied and the success sound plays, otherwise the error sound; then the deletion is attempted |
| Capture.AudioProcessor.OnPress | audio_capture.py:348-361 | records the key; without the hotkey held, or when neither recording nor ready, nothing else changes; with it held, the new flags, blocks and events are those of a stop (and processing) or of a start, as for `ToggleRecording` |
| Capture.AudioProcessor.OnRelease | audio_capture.py:363-371 | forgets the released key |
| Models.CatalogueSize | model_manager.py:20-51 | the download sizes in table order are 150, 400, 900, 3000 and 6000 MB |
| Models.CatalogueOrderedBySize | model_manager.py:20-51 | the table lists five distinct models from the smallest download to the largest |
| Models.ModelManager.constructor | model_manager.py:53-68 | the current model is the `current_model` of the configuration, or none |
| Models.ModelManager.CacheModelPath | model_manager.py:106-108 | the cache folder is under the home folder and named `faster-whisper-<name>` |
| Models.ModelManager.AppModelPath | model_manager.py:110-112 | the application folder is under the home folder and named after the model |
| Models.TableNamesAreComponents | model_manager.py:20-51 | every name in the model table is one plain path component: non-empty, without `/`, and neither `.` nor `..` |
| Models.ModelManager.ModelPathsAreDistinct | model_manager.py:106-112 | with a model name taken as one path component, a cache folder and an application folder never coincide, and each determines its model |
| Models.ModelManager.CheckModelLocation | model_manager.py:114-135 | `(False, 'none')` for no model; `ValueError` for an unknown name; otherwise the cache first, then the application folder; the flag is true exactly when the location is not `'none'` |
| Models.ModelManager.GetModelPath | model_manager.py:182-188 | the cache path exactly when the location is `'cache'`, else the application path; an error for no model or an unknown one |
| Models.ModelManager.ModelPathExistsIffInstalled | model_manager.py:182-188 | the path returned exists exactly when the selected model is installed somewhere |
| Models.ModelManager.GetModelInfo | model_manager.py:194-198 | the table entry of a known model; a `ValueError` with the list of models otherwise |
| Models.ModelManager.SetActiveModel | model_manager.py:200-216 | an unknown or missing model changes nothing; an installed one becomes current and is written to the configuration, keeping its other keys |
| Models.ModelManager.DownloadModel | model_manager.py:159-180 | an unknown name is refused before anything is fetched; success is reported exactly when the model is found afterwards |
| MenuBar.ParseStateNames | app/ui/menu_bar.py:13-18 | a name is accepted exactly when it is one of the four state names, and then it stands for that state |
| MenuBar.Phase | app/ui/menu_bar.py:80 | `int(elapsed * 2) % 2` is always 0 or 1 |
| MenuBar.PhaseAlternates | app/ui/menu_bar.py:77-88 | after a state change the glyph flips every half second |
| MenuBar.HalfSecondsSymmetric | app/ui/menu_bar.py:80 | `int()` truncates toward zero, so the half-second count is symmetric about the last change |
| MenuBar.AudioTranscriberApp.constructor | app/ui/menu_bar.py:23-31 | the app starts idle with the idle icon |
| MenuBar.AudioTranscriberApp.SetState | app/ui/menu_bar.py:49-61 | an unknown name changes nothing; a known one switches state, shows its icon and restarts the clock; the start sound plays only for `recording`, the success sound only for `completed` |
| MenuBar.AudioTranscriberApp.RefreshIcon | app/ui/menu_bar.py:64-92 | `completed` falls back to `idle` after three seconds, else keeps its icon; `processing` and `recording` alternate their glyphs by half-second parity; the state changes only from `completed` to `idle` |
| Setup.Decimal | setup_manager.py:41 | the decimal numeral of a number is a non-empty run of digits |
| Setup.DigitsValueOfDecimal | setup_manager.py:41 | reading the digits of a decimal numeral gives back the number |
| Setup.ParseIntOfDecimal | setup_manager.py:41 | `int()` reads every decimal numeral back as its number |
| Setup.QuitIffQ | setup_manager.py:38-39 | a line quits exactly when it is `q` or `Q` |
| Setup.ConfirmIffY | setup_manager.py:86-88 | the confirmation (and the retry question at :96-97) accepts exactly `y` and `Y` |
| Setup.MenuNumbersPick | setup_manager.py:41-45 | menu number `k` picks the `k`-th model; 0 and numbers past the menu are refused |
| Setup.ChoiceOfPaddedNumber | setup_manager.py:41-43 | surrounding whitespace is ignored: `" 2\t"` picks `base` |
| Setup.ChoiceOfPlusSign | setup_manager.py:41-43 | a plus sign is accepted: `"+3"` picks `small` |
| Setup.ChoiceOfUnderscore | setup_manager.py:41-43 | a single underscore between digits is accepted: `"0_4"` picks `medium` |
| Setup.ChoiceOfMalformedNumbers | setup_manager.py:41-47 | `"1__0"`, `"2.0"` and `"-1"` ask again |
| Setup.PickIsOffered | setup_manager.py:41-43 | a picked model is one of the offered ones |
| Setup.FirstChoice | setup_manager.py:34-47 | a prompt that ends in a decision consumes at least one line |
| Setup.FirstDecisive | setup_manager.py:34-47 | every line before the first decisive one asks again, and that line quits or picks |
| Setup.FirstChoiceSpec | setup_manager.py:34-47 | the prompt answers with the first line that quits or picks, and leaves the lines after it; without one the input runs out |
| Setup.ChosenIsAvailable | setup_manager.py:41-43 | a model chosen at the prompt is in the model table |
| Setup.GetUserModelChoice | setup_manager.py:30-47 | the loop returns the prompt's answer and the remaining lines |
| Setup.HandleModelDownload | setup_manager.py:49-67 | without disk space, the space message and no download; otherwise exactly `download_model`'s answer and effect |
| Setup.SetupCompletesOnlyInstalled | setup_manager.py:88-94 | setup completes exactly when it made a model active, and that model is offered and installed; existing paths stay |
| Setup.QuitEndsSetup | setup_manager.py:76-80 | a first line that quits ends setup with `False` and downloads nothing |
| Setup.NoInputNoSetup | setup_manager.py:34-36 | without input, setup ends before any model is picked |
| Setup.DeclinedChoiceAsksAgain | setup_manager.py:82-101 | a pick followed by a confirmation other than `y` returns to the model prompt with nothing downloaded |
| Setup.RunSetup | setup_manager.py:69-101 | the loop ends as `SetupOutcome` says; the model it selects becomes current and is written to the configuration; otherwise the selection and configuration are unchanged |

## Left out

- Case mapping is ASCII only. `str.upper()`/`lower()` on other letters, and Unicode digits accepted by `int()`, are not modelled.
- The float-to-int16 sample conversion in `callback` (audio_capture.py:202) is floating point. Blocks are sequences of already converted integers.
- The sounddevice stream, the `time.sleep` polling loop, `Thread` and the one-second pause after success are device I/O and concurrency. A failing stream is an input flag of `start_recording`.
- Whisper inference and `ensure_model_loaded` call code outside these files, including `get_model`, which is not part of this model. Their result is a `Recognition` input.
- Writing the recording's WAV file and its `os.remove` in `handle_transcription` are file I/O. Each becomes an event and a failure flag (`Saved` with `saveFails`, `Removed` with `removeFails`).
- The temporary copy `temp_recording.wav` that `transcribe_audio` and `perform_transcription` write and delete (audio_capture.py:257, 268, 282-290) has no event or flag of its own. A failure to write or delete it is an exception inside `transcribe_audio`, so it is folded into `RecognitionFailed`.
- `pyperclip.copy` failing is not modelled.
- Icon titles set through `icon_state`, `refresh_icon_state` and the rumps timers are UI with sleeps. They have no effect on the modelled state.
- `check_disk_space` uses psutil and a floating-point margin. Its answer is a `SpaceCheck` input.
- Directory creation and JSON reading and writing are file I/O. The configuration is a `map<string, string>`, and an unreadable file reads as missing. A non-string JSON value is not modelled.
- `display_model_options` only prints. The `get_model_info` call in `run_setup` only feeds that printing, so `RunSetup` does not make it.
- The launcher, the log set-up, the cache clean-up and the entry script are infrastructure, not core logic.
- `time.time()` is a float read anew at each call. The clock is one integer millisecond value per call.
- Models.ModelManager.ModelPathsAreDistinct: a path is a list of components and a model name is one component. `pathlib` on a name holding `/`, an absolute name or `..` is not modelled; `TableNamesAreComponents` shows that every name in the model table is such a component.
- Models.ModelManager.DownloadModel: the download itself is an input `DownloadOutcome` (paths added, or the exception text). The progress callback is not modelled.

