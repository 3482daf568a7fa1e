/**
 * The MPRIS2 client of `apex-mpris2/src/player.rs`: parsing a player's playback status,
 * reading title, artists and length out of its metadata property map, picking the bus
 * names of media players, choosing the player to follow, and assembling a `Progress`.
 * The D-Bus calls themselves are inputs: each is given as the `Result` it returned.
 */
module Mpris {
  import opened Wrappers
  import opened Strings

  /** `PlaybackStatus` of `apex-music`. */
  datatype PlaybackStatus = Stopped | Paused | Playing

  /** The D-Bus spelling of each status. */
  function StatusName(p: PlaybackStatus): string {
    match p
    case Playing => "Playing"
    case Paused => "Paused"
    case Stopped => "Stopped"
  }

  const BAD_STATUS: string := "Bad playback status!"

  /** `playback_status`: the three exact spellings parse, anything else is an error. */
  function ParseStatus(s: string): (r: Result<PlaybackStatus>)
    ensures r.Ok? <==> s == "Playing" || s == "Paused" || s == "Stopped"
    ensures r.Ok? ==> StatusName(r.value) == s
    ensures r.Err? ==> r.error == BAD_STATUS
  {
    match s
    case "Playing" => Ok(Playing)
    case "Paused" => Ok(Paused)
    case "Stopped" => Ok(Stopped)
    case _ => Err(BAD_STATUS)
  }

  /** Parsing inverts the spelling: every status survives the trip through its name, and
      no two statuses share one. */
  lemma StatusRoundTrip(p: PlaybackStatus, q: PlaybackStatus)
    ensures ParseStatus(StatusName(p)) == Ok(p)
    ensures StatusName(p) == StatusName(q) ==> p == q
  {
  }

  /** A value of the metadata property map, by D-Bus type; `prop_cast::<T>` yields a value
      only when the stored variant has type `T`. */
  datatype PropValue = Str(s: string) | StrList(items: seq<string>) | I64(i: int) | U64(u: nat) | OtherValue

  /** `dbus::arg::PropMap`. */
  type PropMap = map<string, PropValue>

  const TITLE_KEY: string := "xesam:title"
  const ARTIST_KEY: string := "xesam:artist"
  const LENGTH_KEY: string := "mpris:length"
  const NO_TITLE: string := "Couldn't get title!"
  const NO_ARTIST: string := "Couldn't get artist!"
  const NO_LENGTH: string := "Couldn't get length!"
  const U64_LIMIT: nat := 0x1_0000_0000_0000_0000
  const I64_MIN: int := -0x8000_0000_0000_0000
  const I64_LIMIT: int := 0x8000_0000_0000_0000

  predicate HasTitle(m: PropMap) {
    TITLE_KEY in m && m[TITLE_KEY].Str?
  }

  predicate HasArtists(m: PropMap) {
    ARTIST_KEY in m && m[ARTIST_KEY].StrList?
  }

  predicate HasLength(m: PropMap) {
    LENGTH_KEY in m && (m[LENGTH_KEY].U64? || m[LENGTH_KEY].I64?)
  }

  /** `Metadata::title`: the `xesam:title` string. */
  function Title(m: PropMap): (r: Result<string>)
    ensures r.Ok? <==> HasTitle(m)
    ensures r.Ok? ==> r.value == m[TITLE_KEY].s
    ensures r.Err? ==> r.error == NO_TITLE
  {
    if HasTitle(m) then Ok(m[TITLE_KEY].s) else Err(NO_TITLE)
  }

  /** `Metadata::artists`: the `xesam:artist` list joined with ", ". */
  function Artists(m: PropMap): (r: Result<string>)
    ensures r.Ok? <==> HasArtists(m)
    ensures r.Ok? ==> r.value == Join(m[ARTIST_KEY].items, ", ")
    ensures r.Err? ==> r.error == NO_ARTIST
  {
    if HasArtists(m) then Ok(Join(m[ARTIST_KEY].items, ", ")) else Err(NO_ARTIST)
  }

  /** A single artist is shown as is; two are shown with ", " between them. */
  lemma ArtistsJoin(m: PropMap, a: string, b: string)
    ensures Artists(m[ARTIST_KEY := StrList([a])]) == Ok(a)
    ensures Artists(m[ARTIST_KEY := StrList([a, b])]) == Ok(a + ", " + b)
    ensures Artists(m[ARTIST_KEY := StrList([])]) == Ok("")
  {
    assert [a, b][1..] == [b];
  }

  /** One more artist in the list appends ", " and that artist to the shown text. */
  lemma ArtistsAppend(m: PropMap, artists: seq<string>, next: string)
    requires |artists| >= 1
    ensures Artists(m[ARTIST_KEY := StrList(artists + [next])]).value ==
      Artists(m[ARTIST_KEY := StrList(artists)]).value + ", " + next
  {
    JoinAppend(artists, next, ", ");
  }

  /** `i64 as u64`: the two's complement bits read as unsigned. */
  function I64AsU64(i: int): (r: nat)
    requires I64_MIN <= i < I64_LIMIT
    ensures r < U64_LIMIT
    ensures i >= 0 ==> r == i
    ensures i < 0 ==> r == i + U64_LIMIT && r >= I64_LIMIT
  {
    if i >= 0 then i else i + U64_LIMIT
  }

  /** The stored integers fit the D-Bus type they are stored as. */
  predicate WellTyped(m: PropMap) {
    LENGTH_KEY in m ==>
      (m[LENGTH_KEY].I64? ==> I64_MIN <= m[LENGTH_KEY].i < I64_LIMIT) &&
      (m[LENGTH_KEY].U64? ==> m[LENGTH_KEY].u < U64_LIMIT)
  }

  /** `Metadata::length`: a `u64` value as is, else an `i64` value cast to `u64`, else an
      error. */
  function Length(m: PropMap): (r: Result<nat>)
    requires WellTyped(m)
    ensures r.Ok? <==> HasLength(m)
    ensures r.Ok? ==> r.value < U64_LIMIT
    ensures r.Err? ==> r.error == NO_LENGTH
  {
    if LENGTH_KEY in m && m[LENGTH_KEY].U64? then Ok(m[LENGTH_KEY].u)
    else if LENGTH_KEY in m && m[LENGTH_KEY].I64? then Ok(I64AsU64(m[LENGTH_KEY].i))
    else Err(NO_LENGTH)
  }

  /** The length in microseconds is read back unchanged whether the player stores it as
      `u64` or as a non-negative `i64`; a negative `i64` comes back as a length of at least
      2^63. */
  lemma LengthOfStored(m: PropMap, n: nat, i: int)
    requires n < U64_LIMIT && I64_MIN <= i < I64_LIMIT
    requires WellTyped(m)
    ensures Length(m[LENGTH_KEY := U64(n)]) == Ok(n)
    ensures i >= 0 ==> Length(m[LENGTH_KEY := I64(i)]) == Ok(i)
    ensures i < 0 ==> Length(m[LENGTH_KEY := I64(i)]).value >= I64_LIMIT
  {
  }

  const MPRIS_PREFIX: string := "org.mpris.MediaPlayer2."

  predicate IsPlayerName(name: string) {
    StartsWith(name, MPRIS_PREFIX)
  }

  /** `list_names` after the bus call: the names that start with the MPRIS prefix. */
  function ListNames(names: seq<string>): (r: seq<string>)
    ensures |r| <= |names|
    ensures forall i :: 0 <= i < |r| ==> IsPlayerName(r[i])
    ensures forall n :: n in r <==> n in names && IsPlayerName(n)
  {
    if |names| == 0 then []
    else (if IsPlayerName(names[0]) then [names[0]] else []) + ListNames(names[1..])
  }

  /** The filter keeps the bus's order: filtering a concatenation concatenates the
      filtered parts. */
  lemma {:induction false} ListNamesKeepsOrder(a: seq<string>, b: seq<string>)
    ensures ListNames(a + b) == ListNames(a) + ListNames(b)
  {
    if |a| > 0 {
      assert (a + b)[1..] == a[1..] + b;
      ListNamesKeepsOrder(a[1..], b);
    } else {
      assert a + b == b;
    }
  }

  /** Filtering twice changes nothing. */
  lemma {:induction false} ListNamesIdempotent(names: seq<string>)
    ensures ListNames(ListNames(names)) == ListNames(names)
  {
    if |names| > 0 {
      ListNamesIdempotent(names[1..]);
      var head := if IsPlayerName(names[0]) then [names[0]] else [];
      ListNamesKeepsOrder(head, ListNames(names[1..]));
      if IsPlayerName(names[0]) {
        assert [names[0]][1..] == [];
      }
    }
  }

  /** The criterion a listed name must meet to be chosen: containing the preference when
      there is one, else reporting `Playing` or `Paused`. A status call that fails or
      reports `Stopped` disqualifies the player. */
  predicate Wanted(preference: Option<string>, status: string -> Result<PlaybackStatus>, name: string) {
    match preference
    case Some(p) => Contains(name, p)
    case None => status(name) == Ok(Playing) || status(name) == Ok(Paused)
  }

  /** The index of the first name from `from` on that meets the criterion. */
  function FirstWanted(names: seq<string>, preference: Option<string>,
                       status: string -> Result<PlaybackStatus>, from: nat): (r: Option<nat>)
    requires from <= |names|
    ensures r.Some? ==> from <= r.value < |names| && Wanted(preference, status, names[r.value])
    ensures r.Some? ==> forall j :: from <= j < r.value ==> !Wanted(preference, status, names[j])
    ensures r.None? ==> forall j :: from <= j < |names| ==> !Wanted(preference, status, names[j])
    decreases |names| - from
  {
    if from == |names| then None
    else if Wanted(preference, status, names[from]) then Some(from)
    else FirstWanted(names, preference, status, from + 1)
  }

  /** One pass of `wait_for_player`'s loop over the listed players: the first one that
      meets the criterion, or `None` to wait and list again. */
  function SelectPlayer(names: seq<string>, preference: Option<string>,
                        status: string -> Result<PlaybackStatus>): (r: Option<string>)
    ensures r.None? <==> forall j :: 0 <= j < |names| ==> !Wanted(preference, status, names[j])
    ensures r.Some? ==>
      exists k :: 0 <= k < |names| && names[k] == r.value && Wanted(preference, status, names[k]) &&
                  forall j :: 0 <= j < k ==> !Wanted(preference, status, names[j])
  {
    match FirstWanted(names, preference, status, 0)
    case Some(k) => Some(names[k])
    case None => None
  }

  /** What one pass of the loop sees: the result of the `ListNames` bus call, and each
      player's answer to the status query at that time. */
  datatype Round = Round(busNames: Result<seq<string>>, status: string -> Result<PlaybackStatus>)

  /** `wait_for_player` over the passes it makes: a failing bus call ends it with that
      error, a pass that finds a player ends it with that player, and `Ok(None)` means it
      is still waiting after the last pass given. */
  function WaitForPlayer(rounds: seq<Round>, preference: Option<string>): (r: Result<Option<string>>)
    ensures r.Ok? && r.value.Some? ==> IsPlayerName(r.value.value)
    ensures r.Ok? && r.value.None? ==>
      forall i :: 0 <= i < |rounds| ==>
        rounds[i].busNames.Ok? &&
        SelectPlayer(ListNames(rounds[i].busNames.value), preference, rounds[i].status).None?
  {
    if |rounds| == 0 then Ok(None)
    else match rounds[0].busNames
      case Err(e) => Err(e)
      case Ok(names) =>
        var pick := SelectPlayer(ListNames(names), preference, rounds[0].status);
        if pick.Some? then Ok(pick) else WaitForPlayer(rounds[1..], preference)
  }

  /** A player `wait_for_player` returns was listed under the MPRIS prefix in some pass and
      met the criterion in that same pass; an error is the error of some pass's bus call. */
  lemma {:induction false} WaitForPlayerSound(rounds: seq<Round>, preference: Option<string>)
    ensures var r := WaitForPlayer(rounds, preference);
      r.Ok? && r.value.Some? ==>
        exists i :: 0 <= i < |rounds| && rounds[i].busNames.Ok? &&
                    r.value.value in rounds[i].busNames.value && IsPlayerName(r.value.value) &&
                    Wanted(preference, rounds[i].status, r.value.value)
    ensures var r := WaitForPlayer(rounds, preference);
      r.Err? ==> exists i :: 0 <= i < |rounds| && rounds[i].busNames == Err(r.error)
  {
    if |rounds| > 0 && rounds[0].busNames.Ok? {
      var pick := SelectPlayer(ListNames(rounds[0].busNames.value), preference, rounds[0].status);
      if pick.None? {
        WaitForPlayerSound(rounds[1..], preference);
        var r := WaitForPlayer(rounds, preference);
        if r.Ok? && r.value.Some? {
          var i :| 0 <= i < |rounds[1..]| && rounds[1..][i].busNames.Ok? &&
            r.value.value in rounds[1..][i].busNames.value && IsPlayerName(r.value.value) &&
            Wanted(preference, rounds[1..][i].status, r.value.value);
          assert rounds[i + 1] == rounds[1..][i];
        }
        if r.Err? {
          var i :| 0 <= i < |rounds[1..]| && rounds[1..][i].busNames == Err(r.error);
          assert rounds[i + 1] == rounds[1..][i];
        }
      }
    }
  }

  /** The first pass that finds a player decides: later passes are never made. */
  lemma {:induction false} WaitForPlayerStopsAtFirstFind(rounds: seq<Round>, more: seq<Round>, preference: Option<string>)
    requires WaitForPlayer(rounds, preference).Err? || WaitForPlayer(rounds, preference).value.Some?
    ensures WaitForPlayer(rounds + more, preference) == WaitForPlayer(rounds, preference)
  {
    assert |rounds| > 0;
    assert (rounds + more)[0] == rounds[0];
    if rounds[0].busNames.Ok? {
      var pick := SelectPlayer(ListNames(rounds[0].busNames.value), preference, rounds[0].status);
      if pick.None? {
        assert (rounds + more)[1..] == rounds[1..] + more;
        WaitForPlayerStopsAtFirstFind(rounds[1..], more, preference);
      }
    }
  }

  /** With a preference, a player is found in the first pass that lists a name containing
      it, and the status of the players is never consulted. */
  lemma {:induction false} PreferenceIgnoresStatus(rounds: seq<Round>, rounds': seq<Round>, p: string)
    requires |rounds| == |rounds'|
    requires forall i :: 0 <= i < |rounds| ==> rounds[i].busNames == rounds'[i].busNames
    ensures WaitForPlayer(rounds, Some(p)) == WaitForPlayer(rounds', Some(p))
  {
    if |rounds| > 0 {
      var names := rounds[0].busNames;
      if names.Ok? {
        var ln := ListNames(names.value);
        assert forall j :: 0 <= j < |ln| ==>
          (Wanted(Some(p), rounds[0].status, ln[j]) <==> Wanted(Some(p), rounds'[0].status, ln[j]));
        SelectSame(ln, Some(p), rounds[0].status, rounds'[0].status, 0);
        PreferenceIgnoresStatus(rounds[1..], rounds'[1..], p);
      }
    }
  }

  /** Two status oracles that agree on every name give the same choice. */
  lemma {:induction false} SelectSame(names: seq<string>, preference: Option<string>,
                                      s1: string -> Result<PlaybackStatus>,
                                      s2: string -> Result<PlaybackStatus>, from: nat)
    requires from <= |names|
    requires forall j :: 0 <= j < |names| ==>
      (Wanted(preference, s1, names[j]) <==> Wanted(preference, s2, names[j]))
    ensures FirstWanted(names, preference, s1, from) == FirstWanted(names, preference, s2, from)
    decreases |names| - from
  {
    if from < |names| {
      SelectSame(names, preference, s1, s2, from + 1);
    }
  }

  /** `Progress` of `apex-music`: the metadata, the position in microseconds, the status. */
  datatype Progress = Progress(metadata: PropMap, position: int, status: PlaybackStatus)

  /** `Player::progress`: the metadata call, the position call and the status call, in
      that order, the first failure ending it. The status call's string goes through
      `playback_status`'s parser. */
  function GetProgress(metadata: Result<PropMap>, position: Result<int>, status: Result<string>): (r: Result<Progress>)
    ensures r.Ok? <==> metadata.Ok? && position.Ok? && status.Ok? && ParseStatus(status.value).Ok?
    ensures r.Ok? ==> (r.value.metadata == metadata.value && r.value.position == position.value &&
      StatusName(r.value.status) == status.value)
    ensures metadata.Err? ==> r == Err(metadata.error)
    ensures metadata.Ok? && position.Err? ==> r == Err(position.error)
    ensures metadata.Ok? && position.Ok? && status.Err? ==> r == Err(status.error)
    ensures metadata.Ok? && position.Ok? && status.Ok? && ParseStatus(status.value).Err? ==> r == Err(BAD_STATUS)
  {
    match metadata
    case Err(e) => Err(e)
    case Ok(m) =>
      match position
      case Err(e) => Err(e)
      case Ok(pos) =>
        match status
        case Err(e) => Err(e)
        case Ok(s) =>
          match ParseStatus(s)
          case Err(e) => Err(e)
          case Ok(st) => Ok(Progress(m, pos, st))
  }
}
