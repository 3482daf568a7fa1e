/**
 * The media player screen of `src/providers/music.rs`: which player to follow, the frame
 * drawn for each playback update (template by status, progress bar, scrolling title and
 * artist), and the connection loop of its stream. Templates, the progress bar's pixels
 * and the font are inputs; the player's answers come through `Mpris`.
 */
module Music {
  import opened Geometry
  import opened Wrappers
  import opened Strings
  import Device
  import Text
  import Mpris

  const PREFERRED_PLAYER_KEY: string := "mpris2.preferred_player"

  /** `register_callback`: the configured player name, if the key is set. */
  function PreferredPlayer(config: Settings): (r: Option<string>)
    ensures r.Some? <==> PREFERRED_PLAYER_KEY in config
    ensures r.Some? ==> r.value == config[PREFERRED_PLAYER_KEY]
  {
    if PREFERRED_PLAYER_KEY in config then Some(config[PREFERRED_PLAYER_KEY]) else None
  }

  const UNKNOWN_TITLE: string := "Unknown title"
  const UNKNOWN_ARTIST: string := "Unknown artist"
  /** Blank columns after the title or artist before it repeats. */
  const SPACING: nat := 10
  const TITLE_POSITION: Point := Point(5 + 3 + 24, 3)
  const ARTIST_POSITION: Point := Point(5 + 3 + 24, 3 + 10)
  /** Sixteen characters of the six-pixel-wide font, one line high. */
  const PROJECTION: Size := Size(16 * 6, 10)
  /** Texts longer than this many bytes scroll. */
  const SCROLL_THRESHOLD: nat := 16

  /** The options of both lines: spacing 10, one line of sixteen characters at `at`. */
  function LineBuilder(at: Point, text: string): Text.ScrollableBuilder {
    Text.ScrollableBuilder(Some(SPACING), Some(at), Some(PROJECTION), text)
  }

  /** The font draws every string at least one projection high, as the 6x10 font does. */
  ghost predicate LineHigh(render: Text.Renderer) {
    forall t :: render(t).size.height >= PROJECTION.height
  }

  /** `MediaPlayerRenderer`: the two scrolling lines. */
  datatype MediaPlayerRenderer = MediaPlayerRenderer(artist: Text.StatefulScrollable, title: Text.StatefulScrollable)

  /** A line built with the options for `at`, drawable there. */
  predicate LineAt(st: Text.StatefulScrollable, at: Point) {
    st.builder == LineBuilder(at, st.builder.text) &&
    st.text.position == at && st.text.projection == PROJECTION && Text.Renderable(st.text)
  }

  predicate Valid(m: MediaPlayerRenderer) {
    LineAt(m.title, TITLE_POSITION) && LineAt(m.artist, ARTIST_POSITION)
  }

  /** `MediaPlayerRenderer::new`: "Unknown artist" below "Unknown title", unscrolled. */
  function NewRenderer(render: Text.Renderer): (m: MediaPlayerRenderer)
    requires LineHigh(render)
    ensures Valid(m)
    ensures m.title.builder.text == UNKNOWN_TITLE && m.artist.builder.text == UNKNOWN_ARTIST
    ensures m.title.text.scroll == 0 && m.artist.text.scroll == 0
  {
    MediaPlayerRenderer(
      Text.FromBuilder(LineBuilder(ARTIST_POSITION, UNKNOWN_ARTIST), render),
      Text.FromBuilder(LineBuilder(TITLE_POSITION, UNKNOWN_TITLE), render))
  }

  /** One line's update: a new text rebuilds it unscrolled; the same text scrolls it by one
      column when it is longer than 16 bytes and leaves it alone otherwise. */
  function Refresh(st: Text.StatefulScrollable, text: string, render: Text.Renderer): (r: Text.StatefulScrollable)
    ensures r.builder == st.builder.(text := text)
    ensures text != st.builder.text ==> r.text == Text.Build(r.builder, render) && r.text.scroll == 0
    ensures text == st.builder.text && Utf8Len(text) > SCROLL_THRESHOLD ==>
      r.text == st.text.(scroll := st.text.scroll + 1)
    ensures text == st.builder.text && Utf8Len(text) <= SCROLL_THRESHOLD ==> r == st
  {
    var (rebuilt, next) := Text.Update(st, text, render);
    if !rebuilt && Utf8Len(text) > SCROLL_THRESHOLD then next.(text := Text.Scroll(next.text)) else next
  }

  /** A refreshed line stays drawable at its place. */
  lemma RefreshKeepsLine(st: Text.StatefulScrollable, at: Point, text: string, render: Text.Renderer)
    requires LineAt(st, at) && LineHigh(render)
    ensures LineAt(Refresh(st, text, render), at)
  {
    var r := Refresh(st, text, render);
    assert r.builder == LineBuilder(at, text);
    if text != st.builder.text {
      assert render(text).size.height >= PROJECTION.height;
      assert r.text.canvas.height == render(text).size.height;
      assert r.text.projection == PROJECTION;
      assert r.text.canvas.width >= SPACING;
    }
  }

  /** `k` updates in a row with the same text. */
  function Repeat(st: Text.StatefulScrollable, text: string, render: Text.Renderer, k: nat): Text.StatefulScrollable {
    if k == 0 then st else Refresh(Repeat(st, text, render, k - 1), text, render)
  }

  /** The scroll counter of a line counts the updates since its text last changed: after
      `k >= 1` updates with the same text, a long text has scrolled `k - 1` columns past a
      fresh build (or `k` past where it was, if the text did not change), and a short text
      has not moved. */
  lemma {:induction false} ScrollCountsRepeats(st: Text.StatefulScrollable, text: string,
                                               render: Text.Renderer, k: nat)
    requires k >= 1
    ensures Repeat(st, text, render, k).builder.text == text
    ensures text != st.builder.text && Utf8Len(text) > SCROLL_THRESHOLD ==>
      Repeat(st, text, render, k).text.scroll == k - 1
    ensures text == st.builder.text && Utf8Len(text) > SCROLL_THRESHOLD ==>
      Repeat(st, text, render, k).text.scroll == st.text.scroll + k
    ensures Utf8Len(text) <= SCROLL_THRESHOLD ==>
      Repeat(st, text, render, k) == Repeat(st, text, render, 1)
  {
    if k > 1 {
      ScrollCountsRepeats(st, text, render, k - 1);
    }
  }

  /** The three base frames: the player template with the note icon (`play`) or the pause
      icon (`pause`), and the pause frame with "No player found" (`idle`). */
  datatype Templates = Templates(play: Device.FrameBuffer, pause: Device.FrameBuffer, idle: Device.FrameBuffer)

  /** The progress bar's pixels for a track length and position; its width is computed in
      floating point. */
  type ProgressBar = (nat, int) -> seq<Pixel>

  /** The template for a status: the play icon while playing, the pause icon otherwise. */
  function Base(status: Mpris.PlaybackStatus, templates: Templates): (fb: Device.FrameBuffer)
    ensures status == Mpris.Playing ==> fb == templates.play
    ensures status != Mpris.Playing ==> fb == templates.pause
  {
    match status
    case Playing => templates.play
    case Paused => templates.pause
    case Stopped => templates.pause
  }

  /** `MediaPlayerRenderer::update`: fails, leaving the lines as they were, when the length,
      the artists or the title cannot be read, in that order; otherwise refreshes both lines
      and draws the title, then the artist, over the template and the progress bar. */
  function Update(m: MediaPlayerRenderer, p: Mpris.Progress, templates: Templates,
                  bar: ProgressBar, render: Text.Renderer): (r: (Result<Device.FrameBuffer>, MediaPlayerRenderer))
    requires Valid(m) && LineHigh(render) && Mpris.WellTyped(p.metadata)
    ensures Valid(r.1)
    ensures r.0.Err? <==>
      !Mpris.HasLength(p.metadata) || !Mpris.HasArtists(p.metadata) || !Mpris.HasTitle(p.metadata)
    ensures r.0.Err? ==> r.1 == m
    ensures !Mpris.HasLength(p.metadata) ==> r.0 == Err(Mpris.NO_LENGTH)
    ensures Mpris.HasLength(p.metadata) && !Mpris.HasArtists(p.metadata) ==> r.0 == Err(Mpris.NO_ARTIST)
    ensures Mpris.HasLength(p.metadata) && Mpris.HasArtists(p.metadata) && !Mpris.HasTitle(p.metadata) ==>
      r.0 == Err(Mpris.NO_TITLE)
    ensures r.0.Ok? ==>
      r.1.title.builder.text == p.metadata[Mpris.TITLE_KEY].s &&
      r.1.artist.builder.text == Mpris.Artists(p.metadata).value
  {
    var display := Base(p.status, templates);
    match Mpris.Length(p.metadata)
    case Err(_) => (Err(Mpris.NO_LENGTH), m)
    case Ok(length) =>
      var withBar := Device.DrawIter(display, bar(length, p.position));
      match Mpris.Artists(p.metadata)
      case Err(e) => (Err(e), m)
      case Ok(artists) =>
        match Mpris.Title(p.metadata)
        case Err(e) => (Err(e), m)
        case Ok(title) =>
          RefreshKeepsLine(m.artist, ARTIST_POSITION, artists, render);
          RefreshKeepsLine(m.title, TITLE_POSITION, title, render);
          var next := MediaPlayerRenderer(Refresh(m.artist, artists, render), Refresh(m.title, title, render));
          (Ok(Text.Draw(next.artist.text, Text.Draw(next.title.text, withBar))), next)
  }

  /** The title's window: 96 columns from x = 32, rows 3 to 12. */
  predicate InTitleWindow(x: int, y: int) {
    TITLE_POSITION.x <= x < TITLE_POSITION.x + PROJECTION.width &&
    TITLE_POSITION.y <= y < TITLE_POSITION.y + PROJECTION.height
  }

  /** The artist's window: the same columns, rows 13 to 22. */
  predicate InArtistWindow(x: int, y: int) {
    ARTIST_POSITION.x <= x < ARTIST_POSITION.x + PROJECTION.width &&
    ARTIST_POSITION.y <= y < ARTIST_POSITION.y + PROJECTION.height
  }

  /** A line's drawing touches nothing outside its window. */
  lemma DrawOutsideWindow(s: Text.Scrollable, fb: Device.FrameBuffer, x: int, y: int)
    requires Text.Renderable(s) && Device.InRange(x, y)
    requires !(s.position.x <= x < s.position.x + s.projection.width &&
               s.position.y <= y < s.position.y + s.projection.height)
    ensures Device.Get(Text.Draw(s, fb), x, y) == Device.Get(fb, x, y)
  {
    var px := Text.AtTick(s, s.scroll);
    Text.AtTickInProjection(s, s.scroll);
    forall i | 0 <= i < |px| ensures px[i].at != Point(x, y) {
      assert Text.InProjection(s, px[i], 0);
    }
    Device.DrawIterUntouched(fb, px, x, y);
  }

  /** The frame of a successful update is layered: outside both windows it is the template
      with the progress bar; inside the title's window it is what drawing the title there
      gives, untouched by the artist drawn after it; inside the artist's window it is what
      drawing the artist gives. */
  lemma UpdateLayers(m: MediaPlayerRenderer, p: Mpris.Progress, templates: Templates,
                     bar: ProgressBar, render: Text.Renderer, x: int, y: int)
    requires Valid(m) && LineHigh(render) && Mpris.WellTyped(p.metadata)
    requires Update(m, p, templates, bar, render).0.Ok? && Device.InRange(x, y)
    ensures var r := Update(m, p, templates, bar, render);
      var withBar := Device.DrawIter(Base(p.status, templates), bar(Mpris.Length(p.metadata).value, p.position));
      (!InTitleWindow(x, y) && !InArtistWindow(x, y) ==> Device.Get(r.0.value, x, y) == Device.Get(withBar, x, y)) &&
      (InTitleWindow(x, y) ==> Device.Get(r.0.value, x, y) == Device.Get(Text.Draw(r.1.title.text, withBar), x, y))
  {
    var r := Update(m, p, templates, bar, render);
    var withBar := Device.DrawIter(Base(p.status, templates), bar(Mpris.Length(p.metadata).value, p.position));
    var titled := Text.Draw(r.1.title.text, withBar);
    assert r.0.value == Text.Draw(r.1.artist.text, titled);
    if !InArtistWindow(x, y) {
      DrawOutsideWindow(r.1.artist.text, titled, x, y);
    }
    if !InTitleWindow(x, y) && !InArtistWindow(x, y) {
      DrawOutsideWindow(r.1.title.text, withBar, x, y);
    }
  }

  /** What one connection attempt of the stream sees: the result of waiting for a player,
      then the result of `progress()` at each tracker event, up to the tracker's end. */
  datatype Session = Session(player: Result<string>, progresses: seq<Result<Mpris.Progress>>)

  predicate WellTypedProgresses(ps: seq<Result<Mpris.Progress>>) {
    forall i :: 0 <= i < |ps| ==> ps[i].Ok? ==> Mpris.WellTyped(ps[i].value.metadata)
  }

  /** The tracker loop: each readable progress is drawn and a drawn frame yielded (a failed
      draw yields nothing); the first unreadable progress ends the attempt. */
  function Track(ps: seq<Result<Mpris.Progress>>, m: MediaPlayerRenderer, templates: Templates,
                 bar: ProgressBar, render: Text.Renderer): (r: (seq<Device.FrameBuffer>, MediaPlayerRenderer))
    requires Valid(m) && LineHigh(render) && WellTypedProgresses(ps)
    ensures Valid(r.1) && |r.0| <= |ps|
  {
    if |ps| == 0 || ps[0].Err? then ([], m)
    else
      var u := Update(m, ps[0].value, templates, bar, render);
      var rest := Track(ps[1..], u.1, templates, bar, render);
      ((if u.0.Ok? then [u.0.value] else []) + rest.0, rest.1)
  }

  /** A failed `progress()` ends the attempt: nothing after it is looked at. */
  lemma {:induction false} TrackStopsAtFailure(ps: seq<Result<Mpris.Progress>>, k: nat, m: MediaPlayerRenderer,
                                               templates: Templates, bar: ProgressBar, render: Text.Renderer)
    requires Valid(m) && LineHigh(render) && WellTypedProgresses(ps)
    requires k < |ps| && ps[k].Err?
    ensures Track(ps, m, templates, bar, render) == Track(ps[..k], m, templates, bar, render)
  {
    if k > 0 && ps[0].Ok? {
      assert ps[..k][1..] == ps[1..][..k - 1];
      assert ps[..k][0] == ps[0];
      var u := Update(m, ps[0].value, templates, bar, render);
      TrackStopsAtFailure(ps[1..], k - 1, u.1, templates, bar, render);
    }
  }

  /** The stream's items: frames, or the error that ends it. */
  datatype Item = Frame(fb: Device.FrameBuffer) | Failed(error: string)

  function Frames(fbs: seq<Device.FrameBuffer>): (r: seq<Item>)
    ensures |r| == |fbs|
    ensures forall i :: 0 <= i < |fbs| ==> r[i] == Frame(fbs[i])
  {
    seq(|fbs|, i requires 0 <= i < |fbs| => Frame(fbs[i]))
  }

  /** The `'outer` loop of `stream` over the connection attempts it makes: each attempt
      yields the idle template first; a failed wait for a player ends the stream with its
      error; otherwise the tracker loop runs and the next attempt follows. The renderer is
      shared by all attempts. */
  function Stream(sessions: seq<Session>, m: MediaPlayerRenderer, templates: Templates,
                  bar: ProgressBar, render: Text.Renderer): (r: seq<Item>)
    requires Valid(m) && LineHigh(render)
    requires forall i :: 0 <= i < |sessions| ==> WellTypedProgresses(sessions[i].progresses)
    ensures |sessions| > 0 ==> |r| > 0 && r[0] == Frame(templates.idle)
  {
    if |sessions| == 0 then []
    else
      var s := sessions[0];
      match s.player
      case Err(e) => [Frame(templates.idle), Failed(e)]
      case Ok(_) =>
          var t := Track(s.progresses, m, templates, bar, render);
        [Frame(templates.idle)] + Frames(t.0) + Stream(sessions[1..], t.1, templates, bar, render)
  }

  /** The renderer after the attempts, when each of them found a player. */
  function After(sessions: seq<Session>, m: MediaPlayerRenderer, templates: Templates,
                 bar: ProgressBar, render: Text.Renderer): (r: MediaPlayerRenderer)
    requires Valid(m) && LineHigh(render)
    requires forall i :: 0 <= i < |sessions| ==> WellTypedProgresses(sessions[i].progresses)
    ensures Valid(r)
  {
    if |sessions| == 0 || sessions[0].player.Err? then m
    else
      After(sessions[1..], Track(sessions[0].progresses, m, templates, bar, render).1, templates, bar, render)
  }

  /** Attempts follow one another: after attempts that all found a player, the stream goes
      on exactly as a stream of the remaining attempts would, starting with the idle frame
      (by `Stream`'s contract) and keeping the renderer the earlier attempts left. */
  lemma {:induction false} StreamContinues(a: seq<Session>, b: seq<Session>, m: MediaPlayerRenderer,
                                           templates: Templates, bar: ProgressBar, render: Text.Renderer)
    requires Valid(m) && LineHigh(render)
    requires forall i :: 0 <= i < |a| ==> WellTypedProgresses(a[i].progresses) && a[i].player.Ok?
    requires forall i :: 0 <= i < |b| ==> WellTypedProgresses(b[i].progresses)
    ensures forall i :: 0 <= i < |a + b| ==> WellTypedProgresses((a + b)[i].progresses)
    ensures Stream(a + b, m, templates, bar, render) ==
      Stream(a, m, templates, bar, render) + Stream(b, After(a, m, templates, bar, render), templates, bar, render)
  {
    assert forall i :: 0 <= i < |a + b| ==> WellTypedProgresses((a + b)[i].progresses) by {
      forall i | 0 <= i < |a + b| ensures WellTypedProgresses((a + b)[i].progresses) {
        if i < |a| { assert (a + b)[i] == a[i]; } else { assert (a + b)[i] == b[i - |a|]; }
      }
    }
    if |a| == 0 {
      assert a + b == b;
    } else {
      var s := a[0];
      assert (a + b)[0] == s && (a + b)[1..] == a[1..] + b;
      var t := Track(s.progresses, m, templates, bar, render);
      var head := [Frame(templates.idle)] + Frames(t.0);
      assert Stream(a + b, m, templates, bar, render) == head + Stream(a[1..] + b, t.1, templates, bar, render);
      assert Stream(a, m, templates, bar, render) == head + Stream(a[1..], t.1, templates, bar, render);
      assert After(a, m, templates, bar, render) == After(a[1..], t.1, templates, bar, render);
      StreamContinues(a[1..], b, t.1, templates, bar, render);
    }
  }

  /** A failure ends the stream: an error can only be its last item, and it comes right
      after the idle frame of the attempt whose wait failed. */
  lemma {:induction false} FailureEndsStream(sessions: seq<Session>, m: MediaPlayerRenderer,
                                             templates: Templates, bar: ProgressBar, render: Text.Renderer)
    requires Valid(m) && LineHigh(render)
    requires forall i :: 0 <= i < |sessions| ==> WellTypedProgresses(sessions[i].progresses)
    ensures forall i :: 0 <= i < |Stream(sessions, m, templates, bar, render)| ==>
      Stream(sessions, m, templates, bar, render)[i].Failed? ==>
      i == |Stream(sessions, m, templates, bar, render)| - 1 && i >= 1 &&
      Stream(sessions, m, templates, bar, render)[i - 1] == Frame(templates.idle)
  {
    if |sessions| > 0 && sessions[0].player.Ok? {
      var s := sessions[0];
      var t := Track(s.progresses, m, templates, bar, render);
      FailureEndsStream(sessions[1..], t.1, templates, bar, render);
      var rest := Stream(sessions[1..], t.1, templates, bar, render);
      var r := Stream(sessions, m, templates, bar, render);
      var head := [Frame(templates.idle)] + Frames(t.0);
      assert r == head + rest;
      assert forall i :: 0 <= i < |head| ==> r[i].Frame? by {
        forall i | 0 <= i < |head| ensures r[i].Frame? {
          assert r[i] == head[i];
          assert i == 0 || head[i] == Frames(t.0)[i - 1];
        }
      }
      forall i | |head| <= i < |r| && r[i].Failed?
        ensures i == |r| - 1 && i >= 1 && r[i - 1] == Frame(templates.idle)
      {
        var k := i - |head|;
        assert r[i] == rest[k];
        assert r[i - 1] == rest[k - 1];
      }
    } else if |sessions| > 0 {
      var r := Stream(sessions, m, templates, bar, render);
      assert r == [Frame(templates.idle), Failed(sessions[0].player.error)];
      forall i | 0 <= i < |r| && r[i].Failed?
        ensures i == |r| - 1 && i >= 1 && r[i - 1] == Frame(templates.idle)
      {
        assert i != 0;
      }
    } else {
      assert Stream(sessions, m, templates, bar, render) == [];
    }
  }
}
