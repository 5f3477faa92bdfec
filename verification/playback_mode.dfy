/**
 * The run mode (lib/commands/functions/getPlaybackMode.js and
 * isPlaybackMode.js). The Cypress environment value `PLAYBACK_MODE` and the
 * configuration's `isInteractive` flag are parameters.
 */
module PlaybackMode {
  import opened Wrappers
  import opened JsValues
  import opened Errors

  /** Record live responses, replay recorded ones, or both. */
  datatype Mode = Record | Playback | Hybrid

  /** The name the source uses for a mode (the list `modeTypes`). */
  function ModeName(m: Mode): string
  {
    match m
    case Record => "record"
    case Playback => "playback"
    case Hybrid => "hybrid"
  }

  /** The mode a value names, if it is one of the three names (`modeTypes.includes(v)`, a strict comparison). */
  function ModeNamed(v: Value): (r: Option<Mode>)
    ensures r.Some? ==> v == Str(ModeName(r.value))
    ensures r.None? ==> forall m: Mode :: v != Str(ModeName(m))
  {
    if v == Str("record") then Some(Record)
    else if v == Str("playback") then Some(Playback)
    else if v == Str("hybrid") then Some(Hybrid)
    else None
  }

  /**
   * getPlaybackMode: a set (truthy) mode must name a mode and is returned;
   * otherwise a headless run plays back and an interactive one is hybrid.
   */
  function GetPlaybackMode(envMode: Value, isInteractive: Value): (r: Outcome<Mode>)
    ensures Truthy(envMode) ==> (r.Ok? <==> ModeNamed(envMode).Some?)
    ensures Truthy(envMode) && r.Ok? ==> envMode == Str(ModeName(r.value))
    ensures r.Err? ==> Truthy(envMode) && r.error == InvalidPlaybackMode(envMode)
    ensures !Truthy(envMode) ==> r.Ok? && (r.value == Hybrid <==> Truthy(isInteractive))
    ensures !Truthy(envMode) ==> r.Ok? && r.value != Record
  {
    if Truthy(envMode) then
      match ModeNamed(envMode)
      case Some(m) => Ok(m)
      case None => Err(InvalidPlaybackMode(envMode))
    else if !Truthy(isInteractive) then Ok(Playback)
    else Ok(Hybrid)
  }

  /**
   * Whether a run in `current` mode does what `wanted` asks for: each mode
   * does itself, and hybrid does both recording and playback.
   */
  predicate Covers(current: Mode, wanted: Mode)
  {
    current == wanted || current == Hybrid
  }

  /** isPlaybackMode, with the current mode as input. */
  function IsPlaybackMode(query: Value, current: Mode): (r: Outcome<bool>)
    ensures r.Err? <==> ModeNamed(query).None?
    ensures r.Err? ==> r.error == InvalidModeQuery(query)
    ensures r.Ok? ==> (r.value <==> Covers(current, ModeNamed(query).value))
  {
    if query == Str("playback") then Ok(current == Playback || current == Hybrid)
    else if query == Str("record") then Ok(current == Record || current == Hybrid)
    else if query == Str("hybrid") then Ok(Hybrid == current)
    else Err(InvalidModeQuery(query))
  }

  /** isPlaybackMode as the source runs it: the current mode is read first, so its error comes first. */
  function IsPlaybackModeNow(query: Value, envMode: Value, isInteractive: Value): (r: Outcome<bool>)
    ensures GetPlaybackMode(envMode, isInteractive).Err? ==> r == Err(GetPlaybackMode(envMode, isInteractive).error)
    ensures GetPlaybackMode(envMode, isInteractive).Ok? ==> r == IsPlaybackMode(query, GetPlaybackMode(envMode, isInteractive).value)
  {
    var current :- GetPlaybackMode(envMode, isInteractive);
    IsPlaybackMode(query, current)
  }

  /** Every mode named in the environment is returned as is, whatever the interactivity. */
  lemma SetModeIsKept(m: Mode, isInteractive: Value)
    ensures GetPlaybackMode(Str(ModeName(m)), isInteractive) == Ok(m)
  {
  }

  /** Asking for a mode by its own name answers whether the current mode covers it. */
  lemma QueryByName(wanted: Mode, current: Mode)
    ensures IsPlaybackMode(Str(ModeName(wanted)), current) == Ok(Covers(current, wanted))
  {
  }

  /** The nine answers of the mode table; only hybrid answers both "playback" and "record". */
  lemma ModeTable()
    ensures IsPlaybackMode(Str("playback"), Playback) == Ok(true)
    ensures IsPlaybackMode(Str("record"), Playback) == Ok(false)
    ensures IsPlaybackMode(Str("hybrid"), Playback) == Ok(false)
    ensures IsPlaybackMode(Str("playback"), Hybrid) == Ok(true)
    ensures IsPlaybackMode(Str("record"), Hybrid) == Ok(true)
    ensures IsPlaybackMode(Str("hybrid"), Hybrid) == Ok(true)
    ensures IsPlaybackMode(Str("playback"), Record) == Ok(false)
    ensures IsPlaybackMode(Str("record"), Record) == Ok(true)
    ensures IsPlaybackMode(Str("hybrid"), Record) == Ok(false)
  {
  }

  /** The `playback` and `record` queries both hold only in hybrid mode. */
  lemma PlaybackAndRecordOnlyInHybrid(current: Mode)
    ensures (IsPlaybackMode(Str("playback"), current) == Ok(true) && IsPlaybackMode(Str("record"), current) == Ok(true))
      <==> current == Hybrid
  {
  }
}
