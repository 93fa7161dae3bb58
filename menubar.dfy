/** The menu-bar state machine of app/ui/menu_bar.py
    (`AudioTranscriberApp`): the current state, the title shown in the menu
    bar and the time of the last state change. The clock is passed in as
    integer milliseconds; notification sounds are recorded in order. */
module MenuBar {
  import opened Common

  /** The keys of `APP_STATES`. */
  datatype AppState = Idle | Recording | Processing | Completed

  /** The state's name, as `set_state` receives it. */
  function StateName(s: AppState): string {
    match s
    case Idle => "idle"
    case Recording => "recording"
    case Processing => "processing"
    case Completed => "completed"
  }

  /** `state in APP_STATES`, as a lookup. */
  function ParseState(name: string): Option<AppState> {
    if name == "idle" then Some(Idle)
    else if name == "recording" then Some(Recording)
    else if name == "processing" then Some(Processing)
    else if name == "completed" then Some(Completed)
    else None
  }

  /** A name is accepted exactly when it is the name of a state, and then it
      stands for that state. */
  lemma ParseStateNames(name: string, s: AppState)
    ensures ParseState(StateName(s)) == Some(s)
    ensures ParseState(name) == Some(s) ==> name == StateName(s)
    ensures ParseState(name).None? <==> name !in {"idle", "recording", "processing", "completed"}
  {
  }

  /** The icons of `APP_STATES`. */
  function StateIcon(s: AppState): string {
    match s
    case Idle => "\U{1F3A4}"
    case Recording => "\U{1F534}"
    case Processing => "\U{23F3}"
    case Completed => "\U{2705}"
  }

  /** The second processing glyph and the dark recording glyph. */
  const HourglassDone: string := "\U{231B}"
  const RecordingDark: string := "\U{26AB}"

  /** How long `completed` stays on screen, in milliseconds (3.0 s). */
  const CompletedTimeoutMs: int := 3000

  /** `int(elapsed * 2)` for an elapsed time in milliseconds: whole
      half-seconds, truncated toward zero as `int()` does. */
  function HalfSeconds(elapsedMs: int): int {
    if elapsedMs >= 0 then elapsedMs / 500 else -((-elapsedMs) / 500)
  }

  /** `int(elapsed * 2) % 2` with Python's `%`, which for a positive
      divisor never gives a negative result. */
  function Phase(elapsedMs: int): (p: int)
    ensures p == 0 || p == 1
  {
    HalfSeconds(elapsedMs) % 2
  }

  /** After a state change the glyph flips every half second: it is the
      same on each whole-second step and different half a second later. */
  lemma PhaseAlternates(elapsedMs: int)
    requires elapsedMs >= 0
    ensures Phase(elapsedMs + 500) != Phase(elapsedMs)
    ensures Phase(elapsedMs + 1000) == Phase(elapsedMs)
  {
    var q := elapsedMs / 500;
    var r := elapsedMs % 500;
    assert elapsedMs == 500 * q + r && 0 <= r < 500;
    assert elapsedMs + 500 == 500 * (q + 1) + r;
    assert (elapsedMs + 500) / 500 == q + 1;
    assert elapsedMs + 1000 == 500 * (q + 2) + r;
    assert (elapsedMs + 1000) / 500 == q + 2;
  }

  /** The half-second count is symmetric around the last state change, as
      truncation toward zero makes it. */
  lemma HalfSecondsSymmetric(elapsedMs: int)
    ensures HalfSeconds(-elapsedMs) == -HalfSeconds(elapsedMs)
    ensures -500 < elapsedMs < 500 ==> HalfSeconds(elapsedMs) == 0
  {
  }

  class AudioTranscriberApp {
    var currentState: AppState
    /** The menu-bar title. */
    var title: string
    /** `last_state_change`, in milliseconds. */
    var lastStateChange: int
    /** The sounds played, oldest first. */
    var sounds: seq<Sound>

    /** `__init__`: idle, with the idle icon, changed at `now`. */
    constructor(now: int)
      ensures currentState == Idle && title == StateIcon(Idle) && lastStateChange == now && sounds == []
    {
      currentState := Idle;
      title := StateIcon(Idle);
      lastStateChange := now;
      sounds := [];
    }

    /** `set_state`: an unknown name changes nothing; a known one switches
        to it, shows its icon, restarts the clock, and plays the start sound
        for `recording` and the success sound for `completed`. */
    method SetState(name: string, now: int)
      modifies this
      ensures ParseState(name).None? ==>
        currentState == old(currentState) && title == old(title)
        && lastStateChange == old(lastStateChange) && sounds == old(sounds)
      ensures ParseState(name).Some? ==>
        var s := ParseState(name).value;
        && currentState == s && title == StateIcon(s) && lastStateChange == now
        && sounds == old(sounds) + (if s == Recording then [Start] else if s == Completed then [Success] else [])
    {
      var state := ParseState(name);
      if state.Some? {
        currentState := state.value;
        title := StateIcon(state.value);
        lastStateChange := now;
        if state.value == Recording {
          sounds := sounds + [Start];
        } else if state.value == Completed {
          sounds := sounds + [Success];
        }
      }
    }

    /** `refresh_icon`: `completed` falls back to `idle` once three seconds
        have passed and otherwise keeps its icon; `processing` alternates
        its two hourglasses and `recording` blinks, each by the parity of
        the half-seconds elapsed; `idle` is left alone. The state changes
        only from `completed` to `idle`. */
    method RefreshIcon(now: int)
      modifies this`currentState, this`title, this`lastStateChange
      ensures currentState == old(currentState) || (old(currentState) == Completed && currentState == Idle)
      ensures old(currentState) == Completed && now - old(lastStateChange) >= CompletedTimeoutMs ==>
        currentState == Idle && title == StateIcon(Idle) && lastStateChange == now
      ensures old(currentState) == Completed && now - old(lastStateChange) < CompletedTimeoutMs ==>
        currentState == Completed && title == StateIcon(Completed) && lastStateChange == old(lastStateChange)
      ensures old(currentState) == Processing ==>
        title == (if Phase(now - lastStateChange) == 0 then StateIcon(Processing) else HourglassDone)
      ensures old(currentState) == Recording ==>
        title == (if Phase(now - lastStateChange) == 0 then StateIcon(Recording) else RecordingDark)
      ensures old(currentState) == Idle ==> title == old(title)
      ensures old(currentState) != Completed ==> lastStateChange == old(lastStateChange)
    {
      if currentState == Completed {
        var elapsed := now - lastStateChange;
        if elapsed >= CompletedTimeoutMs {
          currentState := Idle;
          title := StateIcon(Idle);
          lastStateChange := now;
          return;
        }
      }
      if currentState == Processing {
        var elapsed := now - lastStateChange;
        var glyphs := [StateIcon(Processing), HourglassDone];
        title := glyphs[HalfSeconds(elapsed) % |glyphs|];
      } else if currentState == Recording {
        var elapsed := now - lastStateChange;
        if HalfSeconds(elapsed) % 2 == 0 {
          title := StateIcon(Recording);
        } else {
          title := RecordingDark;
        }
      } else if currentState == Completed {
        title := StateIcon(Completed);
      }
    }
  }
}
