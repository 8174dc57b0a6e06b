/** The `Home` component as objects: the display state lives in fields that
    the handlers assign, and the video element is a separate object the
    component holds a reference to (null before it is attached). Every
    handler is proved to move `Snapshot()` exactly as the corresponding
    function of `Playback` does, so the lemmas proved there hold of these
    methods too. */
module PlayerView {
  import opened Numbers
  import Playback

  /** The part of the HTML video element the handlers use. */
  class VideoElement {
    var currentTime: real
    var duration: Num
    var muted: bool
    var volume: real
    var commands: seq<Playback.Command>

    function State(): Playback.Element
      reads this
    {
      Playback.Element(currentTime, duration, muted, volume, commands)
    }

    constructor (duration: Num, muted: bool, volume: real)
      requires 0.0 <= volume <= 1.0
      ensures State() == Playback.Element(0.0, duration, muted, volume, [])
    {
      this.currentTime := 0.0;
      this.duration := duration;
      this.muted := muted;
      this.volume := volume;
      this.commands := [];
    }

    method Play()
      modifies this
      ensures State() == old(State()).(commands := old(commands) + [Playback.Play])
    {
      commands := commands + [Playback.Play];
    }

    method Pause()
      modifies this
      ensures State() == old(State()).(commands := old(commands) + [Playback.Pause])
    {
      commands := commands + [Playback.Pause];
    }

    /** Assigning `currentTime`; `ok` is false when the assignment throws. */
    method SetCurrentTime(t: Num) returns (ok: bool)
      modifies this
      ensures ok == t.Finite?
      ensures ok ==> Playback.Seek(old(State()), t) == Some(State())
      ensures !ok ==> State() == old(State())
    {
      ok := t.Finite?;
      if ok {
        currentTime := t.value;
      }
    }

    method SetMuted(m: bool)
      modifies this
      ensures State() == old(State()).(muted := m)
    {
      muted := m;
    }

    /** Assigning `volume`; `ok` is false when the assignment throws. */
    method SetVolume(level: real) returns (ok: bool)
      modifies this
      ensures ok == (0.0 <= level <= 1.0)
      ensures ok ==> Playback.SetVolume(old(State()), level) == Some(State())
      ensures !ok ==> State() == old(State())
    {
      ok := 0.0 <= level <= 1.0;
      if ok {
        volume := level;
      }
    }
  }

  class Home {
    var video: VideoElement?
    var isPlaying: bool
    var isMuted: bool
    var currentTime: real
    var duration: Num
    var progress: Num
    var volume: real
    var showControls: bool

    function Display(): Playback.View
      reads this
    {
      Playback.View(isPlaying, isMuted, currentTime, duration, progress, volume, showControls)
    }

    /** The whole state the handlers see: the display and, when attached,
        the element's current state. */
    function Snapshot(): Playback.Player
      reads this, video
    {
      Playback.Player(Display(), if video == null then None else Some(video.State()))
    }

    /** The component's first render: the `useState` initial values. */
    constructor (video: VideoElement?)
      ensures this.video == video
      ensures Snapshot() == Playback.Player(Playback.InitialView(), if video == null then None else Some(video.State()))
    {
      this.video := video;
      isPlaying := false;
      isMuted := false;
      currentTime := 0.0;
      duration := Finite(0.0);
      progress := Finite(0.0);
      volume := 1.0;
      showControls := true;
    }

    /** The first commit, which writes the `muted` prop onto the element,
        and the mount effect's initial read of the duration. */
    method Mount()
      modifies this, video
      ensures video == old(video)
      ensures video != null ==> video.muted == isMuted
      ensures Snapshot() == Playback.Mount(old(Snapshot()))
    {
      if video == null {
        return;
      }
      video.SetMuted(isMuted);
      if Truthy(video.duration) {
        duration := video.duration;
      }
    }

    method UpdateTime()
      requires video != null
      modifies this
      ensures video == old(video)
      ensures Snapshot() == Playback.UpdateTime(old(Snapshot()))
    {
      currentTime := video.currentTime;
      progress := Times(Quotient(video.currentTime, video.duration), 100.0);
    }

    method UpdateDuration()
      requires video != null
      modifies this
      ensures video == old(video)
      ensures Snapshot() == Playback.UpdateDuration(old(Snapshot()))
    {
      duration := video.duration;
    }

    method HandleEnded()
      modifies this
      ensures video == old(video) && !isPlaying
      ensures Snapshot() == Playback.Ended(old(Snapshot()))
    {
      isPlaying := false;
    }

    method TogglePlay()
      modifies this, video
      ensures video == old(video)
      ensures video != null ==> isPlaying == !old(isPlaying)
      ensures Snapshot() == Playback.TogglePlay(old(Snapshot()))
    {
      if video == null {
        return;
      }
      if isPlaying {
        video.Pause();
      } else {
        video.Play();
      }
      isPlaying := !isPlaying;
    }

    /** `fraction` is the click's offset across the bar over the bar's width. */
    method HandleProgressClick(fraction: real)
      modifies this, video
      ensures video == old(video)
      ensures Snapshot() == Playback.ProgressClick(old(Snapshot()), fraction)
    {
      if video == null || duration == Finite(0.0) || duration.NaN? {
        return;
      }
      var newProgress := fraction * 100.0;
      var newTime := Times(duration, newProgress / 100.0);
      var ok := video.SetCurrentTime(newTime);
      if !ok {
        return;
      }
      currentTime := newTime.value;
      progress := Finite(newProgress);
    }

    method SkipTime(seconds: real)
      modifies video
      ensures video == old(video)
      ensures Snapshot() == Playback.SkipTime(old(Snapshot()), seconds)
    {
      if video == null {
        return;
      }
      var newTime := Max(Finite(0.0), Min(duration, Finite(video.currentTime + seconds)));
      var ok := video.SetCurrentTime(newTime);
    }

    method ToggleMute()
      modifies this, video
      ensures video == old(video)
      ensures video != null ==> video.muted == !old(video.muted) && isMuted == video.muted
      ensures Snapshot() == Playback.ToggleMute(old(Snapshot()))
    {
      if video == null {
        return;
      }
      video.SetMuted(!video.muted);
      isMuted := video.muted;
    }

    /** The handler, then the re-render's write of a changed `muted` prop. */
    method HandleVolumeChange(level: real)
      modifies this, video
      ensures video == old(video)
      ensures video != null && 0.0 <= level <= 1.0 ==> volume == level && isMuted == (level == 0.0)
      ensures Snapshot() == Playback.VolumeChange(old(Snapshot()), level)
    {
      if video == null {
        return;
      }
      var ok := video.SetVolume(level);
      if !ok {
        return;
      }
      var wasMuted := isMuted;
      volume := level;
      isMuted := level == 0.0;
      if isMuted != wasMuted {
        video.SetMuted(isMuted);
      }
    }

    method MouseEnter()
      modifies this
      ensures video == old(video) && showControls
      ensures Snapshot() == Playback.Hover(old(Snapshot()), true)
    {
      showControls := true;
    }

    method MouseLeave()
      modifies this
      ensures video == old(video) && !showControls
      ensures Snapshot() == Playback.Hover(old(Snapshot()), false)
    {
      showControls := false;
    }
  }
}
