/** The player's state and its event handlers, as values.

    `View` is the component's display state (its `useState` hooks),
    `Element` the part of the video element the handlers read and write, and
    `Player` the two together; `video` is `None` when the component holds no
    element. Each handler is a function from the state before to the state
    after. `PlayerView` runs the same handlers as methods on objects and is
    proved to agree with these functions. */
module Playback {
  import opened Numbers

  /** The commands the handlers send to the element. */
  datatype Command = Play | Pause

  datatype Element = Element(
    position: real,        // currentTime, always a finite double
    duration: Num,         // NaN until metadata is known, +Infinity for a stream
    muted: bool,
    volume: real,
    commands: seq<Command> // the play/pause calls received, oldest first
  )

  datatype View = View(
    isPlaying: bool,
    isMuted: bool,
    currentTime: real,
    duration: Num,
    progress: Num,         // a percentage of the duration
    volume: real,
    showControls: bool
  )

  datatype Player = Player(view: View, video: Option<Element>)

  /** The display state when the component is created. */
  function InitialView(): (v: View)
    ensures !v.isPlaying && !v.isMuted && v.showControls
    ensures v.currentTime == 0.0 && v.duration == Finite(0.0) && v.progress == Finite(0.0)
    ensures v.volume == 1.0
  {
    View(false, false, 0.0, Finite(0.0), Finite(0.0), 1.0, true)
  }

  /** The first render's commit followed by the mount effect. The commit
      writes the `muted` prop onto the element; the effect then copies the
      duration when the element already knows a truthy one (neither NaN nor
      zero). */
  function Mount(p: Player): (q: Player)
    ensures q.video.Some? <==> p.video.Some?
    ensures p.video.Some? ==> q.video.value == p.video.value.(muted := p.view.isMuted)
    ensures q.view.(duration := p.view.duration) == p.view
    ensures p.video.Some? && Truthy(p.video.value.duration) ==> q.view.duration == p.video.value.duration
    ensures p.video.None? || !Truthy(p.video.value.duration) ==> q.view == p.view
  {
    match p.video
    case None => p
    case Some(e) =>
      var e' := e.(muted := p.view.isMuted);
      if Truthy(e'.duration)
      then Player(p.view.(duration := e'.duration), Some(e'))
      else Player(p.view, Some(e'))
  }

  /** `timeupdate`: the display takes the element's position, and the
      progress is that position as a percentage of the element's duration,
      with no guard against an unknown or zero duration. */
  function UpdateTime(p: Player): (q: Player)
    requires p.video.Some?
    ensures q.video == p.video
    ensures q.view.(currentTime := p.view.currentTime, progress := p.view.progress) == p.view
    ensures var e := p.video.value;
      && q.view.currentTime == e.position
      && (e.duration.Finite? && e.duration.value != 0.0 ==>
            q.view.progress.Finite? && q.view.progress.value * e.duration.value == 100.0 * e.position)
      && (e.duration.NaN? ==> q.view.progress.NaN?)
      && (e.duration == Finite(0.0) ==> (q.view.progress.NaN? <==> e.position == 0.0))
      && (e.duration == Finite(0.0) && e.position > 0.0 ==> q.view.progress.PosInf?)
      && (e.duration == Finite(0.0) && e.position < 0.0 ==> q.view.progress.NegInf?)
      && (!e.duration.Finite? && !e.duration.NaN? ==> q.view.progress == Finite(0.0))
  {
    var e := p.video.value;
    p.(view := p.view.(currentTime := e.position, progress := Times(Quotient(e.position, e.duration), 100.0)))
  }

  /** `loadedmetadata`: the display takes the element's duration as it is. */
  function UpdateDuration(p: Player): (q: Player)
    requires p.video.Some?
    ensures q.video == p.video
    ensures q.view.duration == p.video.value.duration
    ensures q.view.(duration := p.view.duration) == p.view
  {
    p.(view := p.view.(duration := p.video.value.duration))
  }

  /** `ended`: the display shows paused, whatever it showed before. */
  function Ended(p: Player): (q: Player)
    ensures !q.view.isPlaying
    ensures q.video == p.video
    ensures q.view.(isPlaying := p.view.isPlaying) == p.view
  {
    p.(view := p.view.(isPlaying := false))
  }

  /** togglePlay: without an element nothing happens; otherwise the element is
      sent `pause` if the display showed playing and `play` if not, and the
      display flips to the state it asked for. */
  function TogglePlay(p: Player): (q: Player)
    ensures p.video.None? ==> q == p
    ensures p.video.Some? ==> && q.video.Some?
                              && q.view.isPlaying == !p.view.isPlaying
                              && q.view.(isPlaying := p.view.isPlaying) == p.view
    ensures p.video.Some? ==>
      var cs := q.video.value.commands;
      && |cs| == |p.video.value.commands| + 1
      && cs[..|cs| - 1] == p.video.value.commands
      && cs[|cs| - 1] == (if q.view.isPlaying then Play else Pause)
      && q.video.value.(commands := p.video.value.commands) == p.video.value
  {
    match p.video
    case None => p
    case Some(e) =>
      var command := if p.view.isPlaying then Pause else Play;
      Player(p.view.(isPlaying := !p.view.isPlaying), Some(e.(commands := e.commands + [command])))
  }

  /** The value a handler assigns to `video.currentTime`: the attribute is a
      restricted double, so a non-finite value is refused (the assignment
      throws and the handler stops there). */
  function Seek(e: Element, t: Num): (r: Option<Element>)
    ensures r.Some? <==> t.Finite?
    ensures r.Some? ==> r.value == e.(position := t.value)
  {
    if t.Finite? then Some(e.(position := t.value)) else None
  }

  /** handleProgressClick, given where the click fell as a fraction of the
      bar's width: ignored without an element or when the displayed duration
      is zero or NaN (and, for an infinite duration, refused by the element);
      otherwise the element and the display move together to the clicked
      percentage of the duration. */
  function ProgressClick(p: Player, fraction: real): (q: Player)
    ensures p.video.None? || !p.view.duration.Finite? || p.view.duration == Finite(0.0) ==> q == p
    ensures q.video.Some? <==> p.video.Some?
    ensures p.video.Some? && p.view.duration.Finite? && p.view.duration.value != 0.0 ==>
      && q.video.value == p.video.value.(position := q.view.currentTime)
      && q.view == p.view.(currentTime := q.view.currentTime, progress := Finite(fraction * 100.0))
      && q.view.currentTime == p.view.duration.value * (q.view.progress.value / 100.0)
  {
    match p.video
    case None => p
    case Some(e) =>
      if p.view.duration == Finite(0.0) || p.view.duration.NaN? then p
      else
        var newProgress := fraction * 100.0;
        var newTime := Times(p.view.duration, newProgress / 100.0);
        match Seek(e, newTime)
        case None => p
        case Some(e') =>
          Player(p.view.(currentTime := newTime.value, progress := Finite(newProgress)), Some(e'))
  }

  /** A click at a fraction of the bar seeks to that fraction of the
      duration, and a click inside the bar stays within [0, duration]. */
  lemma ProgressClickTarget(p: Player, fraction: real)
    requires p.video.Some? && p.view.duration.Finite? && p.view.duration.value != 0.0
    ensures ProgressClick(p, fraction).view.currentTime == fraction * p.view.duration.value
    ensures ProgressClick(p, fraction).video.value.position == fraction * p.view.duration.value
    ensures 0.0 <= fraction <= 1.0 && p.view.duration.value > 0.0 ==>
      0.0 <= ProgressClick(p, fraction).view.currentTime <= p.view.duration.value
  {
    var d, q := p.view.duration.value, ProgressClick(p, fraction);
    assert q.view.progress.value == fraction * 100.0;
    assert q.view.currentTime == d * (fraction * 100.0 / 100.0);
    FractionOfDuration(fraction, d);
  }

  lemma FractionOfDuration(fraction: real, d: real)
    ensures d * (fraction * 100.0 / 100.0) == fraction * d
    ensures 0.0 <= fraction <= 1.0 && d > 0.0 ==> 0.0 <= fraction * d <= d
  {
    assert fraction * 100.0 / 100.0 == fraction;
    if 0.0 <= fraction <= 1.0 && d > 0.0 {
      assert (1.0 - fraction) * d >= 0.0;
    }
  }

  /** skipTime: the element moves by `seconds`, clamped below by zero and
      above by the displayed duration; the display is left for the next
      `timeupdate`. A NaN duration makes the target NaN, which the element
      refuses. */
  function SkipTime(p: Player, seconds: real): (q: Player)
    ensures q.view == p.view
    ensures p.video.None? || p.view.duration.NaN? ==> q == p
    ensures p.video.Some? && !p.view.duration.NaN? ==>
      var e, t := p.video.value, p.video.value.position + seconds;
      && q.video.Some?
      && q.video.value == e.(position := q.video.value.position)
      && 0.0 <= q.video.value.position
      && (t < 0.0 ==> q.video.value.position == 0.0)
      && (p.view.duration.Finite? && p.view.duration.value >= 0.0 ==>
            q.video.value.position <= p.view.duration.value
            && (t > p.view.duration.value ==> q.video.value.position == p.view.duration.value))
      && (0.0 <= t && AtMost(Finite(t), p.view.duration) ==> q.video.value.position == t)
  {
    match p.video
    case None => p
    case Some(e) =>
      var newTime := Max(Finite(0.0), Min(p.view.duration, Finite(e.position + seconds)));
      match Seek(e, newTime)
      case None => p
      case Some(e') => p.(video := Some(e'))
  }

  /** toggleMute: the element's flag is negated and the display copies the
      element's new flag. */
  function ToggleMute(p: Player): (q: Player)
    ensures p.video.None? ==> q == p
    ensures p.video.Some? ==>
      && q.video.Some?
      && q.video.value == p.video.value.(muted := !p.video.value.muted)
      && q.view.isMuted == q.video.value.muted
      && q.view.(isMuted := p.view.isMuted) == p.view
  {
    match p.video
    case None => p
    case Some(e) =>
      var e' := e.(muted := !e.muted);
      Player(p.view.(isMuted := e'.muted), Some(e'))
  }

  /** The value a handler assigns to `video.volume`: outside [0, 1] the
      assignment throws and the handler stops there. */
  function SetVolume(e: Element, level: real): (r: Option<Element>)
    ensures r.Some? <==> 0.0 <= level <= 1.0
    ensures r.Some? ==> r.value == e.(volume := level)
  {
    if 0.0 <= level <= 1.0 then Some(e.(volume := level)) else None
  }

  /** The re-render after a handler: the `muted` prop is written onto the
      element when the displayed flag changed, and left alone otherwise. */
  function CommitMuted(e: Element, before: bool, after: bool): (e': Element)
    ensures e'.(muted := e.muted) == e
    ensures before != after ==> e'.muted == after
    ensures before == after ==> e' == e
  {
    if before != after then e.(muted := after) else e
  }

  /** handleVolumeChange: the element and the display take the new level, and
      the display shows muted exactly when the level is zero. The handler
      leaves the element's own flag alone, but the re-render that follows
      writes the changed `muted` prop onto it. */
  function VolumeChange(p: Player, level: real): (q: Player)
    ensures p.video.None? || !(0.0 <= level <= 1.0) ==> q == p
    ensures p.video.Some? && 0.0 <= level <= 1.0 ==>
      && q.video.Some?
      && q.video.value.(muted := p.video.value.muted) == p.video.value.(volume := level)
      && q.view.volume == level
      && (q.view.isMuted <==> level == 0.0)
      && (q.view.isMuted != p.view.isMuted ==> q.video.value.muted == q.view.isMuted)
      && (q.view.isMuted == p.view.isMuted ==> q.video.value.muted == p.video.value.muted)
      && q.view.(volume := p.view.volume, isMuted := p.view.isMuted) == p.view
  {
    match p.video
    case None => p
    case Some(e) =>
      match SetVolume(e, level)
      case None => p
      case Some(e') =>
        var muted := level == 0.0;
        Player(p.view.(volume := level, isMuted := muted), Some(CommitMuted(e', p.view.isMuted, muted)))
  }

  /** The pointer entering (`true`) or leaving (`false`) the player shows or
      hides the control bar. */
  function Hover(p: Player, inside: bool): (q: Player)
    ensures q.view.showControls == inside
    ensures q.video == p.video
    ensures q.view.(showControls := p.view.showControls) == p.view
  {
    p.(view := p.view.(showControls := inside))
  }

  // ---------------------------------------------------------------------
  // Properties of single handlers

  /** Two toggles restore the display and send opposite commands. */
  lemma TogglePlayTwice(p: Player)
    ensures TogglePlay(TogglePlay(p)).view == p.view
    ensures p.video.Some? ==>
      TogglePlay(TogglePlay(p)).video.value.commands
        == p.video.value.commands + (if p.view.isPlaying then [Pause, Play] else [Play, Pause])
  {
  }

  /** The worked skip examples: at 5 s of a 20 s video, skipping back 10 s
      stops at 0 and skipping ahead 1000 s stops at 20. */
  lemma SkipTimeExamples(e: Element)
    requires e.position == 5.0
    ensures var p := Player(InitialView().(duration := Finite(20.0)), Some(e));
      && SkipTime(p, -10.0).video.value.position == 0.0
      && SkipTime(p, 1000.0).video.value.position == 20.0
      && SkipTime(p, 10.0).video.value.position == 15.0
  {
  }

  /** Volume 0 shows muted and volume 0.5 does not, whatever was shown before. */
  lemma VolumeChangeExamples(p: Player)
    requires p.video.Some?
    ensures VolumeChange(p, 0.0).view.isMuted
    ensures !VolumeChange(p, 0.5).view.isMuted
  {
  }

  /** At 30 s of 120 s the progress is 25 percent. */
  lemma UpdateTimeExample(p: Player)
    requires p.video.Some? && p.video.value.position == 30.0 && p.video.value.duration == Finite(120.0)
    ensures UpdateTime(p).view.progress == Finite(25.0)
    ensures UpdateTime(p).view.currentTime == 30.0
  {
  }

  // ---------------------------------------------------------------------
  // Runs of events

  /** Everything that reaches a handler: element events, pointer gestures on
      the controls, and the mount effect. `TimeUpdated` carries the position
      playback has reached and `MetadataLoaded` the duration the element has
      learnt; the element takes them before its handler runs. */
  datatype Event =
    | Mounted
    | TimeUpdated(position: real)
    | MetadataLoaded(duration: Num)
    | MediaEnded
    | PlayToggled
    | ProgressClicked(fraction: real)
    | Skipped(seconds: real)
    | MuteToggled
    | VolumeChanged(level: real)
    | PointerEntered
    | PointerLeft

  /** One event. Element events come only from a present element, so without
      one they cannot occur and change nothing. No event attaches or detaches
      the element. */
  function Step(p: Player, ev: Event): (q: Player)
    ensures q.video.Some? <==> p.video.Some?
    ensures p.video.None? && !(ev.PointerEntered? || ev.PointerLeft?) ==> q == p
  {
    match ev
    case Mounted => Mount(p)
    case TimeUpdated(position) =>
      if p.video.Some? then UpdateTime(p.(video := Some(p.video.value.(position := position)))) else p
    case MetadataLoaded(duration) =>
      if p.video.Some? then UpdateDuration(p.(video := Some(p.video.value.(duration := duration)))) else p
    case MediaEnded => if p.video.Some? then Ended(p) else p
    case PlayToggled => TogglePlay(p)
    case ProgressClicked(fraction) => ProgressClick(p, fraction)
    case Skipped(seconds) => SkipTime(p, seconds)
    case MuteToggled => ToggleMute(p)
    case VolumeChanged(level) => VolumeChange(p, level)
    case PointerEntered => Hover(p, true)
    case PointerLeft => Hover(p, false)
  }

  /** The events in order, oldest first. The element stays attached or
      absent throughout. */
  function Run(p: Player, events: seq<Event>): (q: Player)
    ensures q.video.Some? <==> p.video.Some?
  {
    if events == [] then p else Step(Run(p, events[..|events| - 1]), events[|events| - 1])
  }

  /** The play toggles that came after the last end of media. */
  function TogglesSinceEnded(events: seq<Event>): nat {
    if events == [] then 0
    else
      var rest := TogglesSinceEnded(events[..|events| - 1]);
      match events[|events| - 1]
      case MediaEnded => 0
      case PlayToggled => rest + 1
      case _ => rest
  }

  /** Only a toggle or the end of media with an element present move the
      playing flag. */
  lemma StepPlaying(p: Player, ev: Event)
    ensures Step(p, ev).view.isPlaying == match ev
      case MediaEnded => p.view.isPlaying && p.video.None?
      case PlayToggled => p.view.isPlaying != p.video.Some?
      case _ => p.view.isPlaying
  {
  }

  /** The two-state machine: starting paused, the display shows playing
      exactly when an element is present and an odd number of toggles came
      after the last end of media. No other event moves the flag. */
  lemma {:induction false} PlayingFollowsTogglesAndEnd(video: Option<Element>, events: seq<Event>)
    ensures Run(Player(InitialView(), video), events).video.Some? == video.Some?
    ensures Run(Player(InitialView(), video), events).view.isPlaying
            <==> video.Some? && TogglesSinceEnded(events) % 2 == 1
  {
    if events != [] {
      var init := events[..|events| - 1];
      PlayingFollowsTogglesAndEnd(video, init);
      StepPlaying(Run(Player(InitialView(), video), init), events[|events| - 1]);
    }
  }

  /** What every reachable state satisfies: volumes stay in [0, 1], the
      displayed muted flag is the element's, and the display shows playing
      only if the last command sent was `play`. */
  predicate Invariant(p: Player) {
    && 0.0 <= p.view.volume <= 1.0
    && (p.video.Some? ==> 0.0 <= p.video.value.volume <= 1.0)
    && (p.video.Some? ==> p.view.isMuted == p.video.value.muted)
    && (p.view.isPlaying ==>
          p.video.Some? && |p.video.value.commands| > 0
          && p.video.value.commands[|p.video.value.commands| - 1] == Play)
  }

  /** Once mounted, the component is in the invariant for any element whose
      volume is in range, whatever its muted flag was. */
  lemma InitialInvariant(video: Option<Element>)
    requires video.Some? ==> 0.0 <= video.value.volume <= 1.0
    ensures Invariant(Mount(Player(InitialView(), video)))
  {
  }

  lemma StepInvariant(p: Player, ev: Event)
    requires Invariant(p)
    ensures Invariant(Step(p, ev))
  {
  }

  /** Every run of events keeps the invariant. */
  lemma {:induction false} RunInvariant(p: Player, events: seq<Event>)
    requires Invariant(p)
    ensures Invariant(Run(p, events))
  {
    if events != [] {
      RunInvariant(p, events[..|events| - 1]);
      StepInvariant(Run(p, events[..|events| - 1]), events[|events| - 1]);
    }
  }
}
