/** The track queue of the music cog (bot/cogs/Music.py): a list of tracks
    that is changed in place, an integer cursor `pos` that marks the current
    track, and a repeat mode. The cursor is a plain Python int that the
    commands also write directly, so it can go negative; Python's negative
    indexing and slicing are modelled where the queue reads through it. */
module MusicQueue {
  import opened Wrappers

  /** A track as the search provider returns it (an opaque record). */
  datatype Track = Track(title: string, uri: string, length: int, author: string, thumb: string)

  /** `RepeatMode`: NONE, ONE, ALL. */
  datatype RepeatMode = NoRepeat | One | All

  /** The cog's exception classes, plus the Python failures the music code
      can run into: an `IndexError` from a list subscript, the failure of
      `play(None)` when there is no track at the cursor, the
      `AttributeError` of reading the members of a missing channel, and the
      `OverflowError` of a duration beyond what a `timedelta` holds. */
  datatype MusicError =
    | AlreadyConnectedToChannel
    | NoVoiceChannel
    | QueueIsEmpty
    | NoTracksFound
    | PlayerAlreadyPaused
    | PlayerAlreadyPlaying
    | NoMoreTracks
    | NoPreviousTracks
    | InvalidRepeatMode
    | InvalidTimeString
    | IndexError
    | NothingToPlay
    | AttributeError
    | OverflowError

  // -----------------------------------------------------------------------
  // Python list indexing and slicing
  // -----------------------------------------------------------------------

  /** Where Python puts a slice bound `i` on a list of length `n`: negative
      bounds count from the end, and bounds are clamped to `[0, n]`. */
  function SliceBound(i: int, n: nat): (b: nat)
    ensures b <= n
  {
    if i < 0 then (if i + n < 0 then 0 else i + n)
    else if i > n then n
    else i
  }

  /** `s[i:]`. */
  function SliceFrom<T>(s: seq<T>, i: int): seq<T> {
    s[SliceBound(i, |s|)..]
  }

  /** `s[:i]`. */
  function SliceTo<T>(s: seq<T>, i: int): seq<T> {
    s[..SliceBound(i, |s|)]
  }

  /** `s[i]`: negative indices count from the end; None is an IndexError. */
  function PyIndex<T>(s: seq<T>, i: int): (r: Option<T>)
    ensures r.Some? <==> -|s| <= i < |s|
  {
    if 0 <= i < |s| then Some(s[i])
    else if -|s| <= i < 0 then Some(s[|s| + i])
    else None
  }

  // -----------------------------------------------------------------------
  // The queue's views and its advance rule, on values
  // -----------------------------------------------------------------------

  /** `current_track`: QueueIsEmpty on an empty list; the track at `pos`
      while `pos` is at most the last index (Python indexing, so -1 is the
      last track); nothing once `pos` is past the end. */
  function CurrentOf(items: seq<Track>, pos: int): (r: Result<Option<Track>, MusicError>)
    ensures r == Err(QueueIsEmpty) <==> items == []
    ensures items != [] && 0 <= pos < |items| ==> r == Ok(Some(items[pos]))
    ensures items != [] && pos >= |items| ==> r == Ok(None)
    ensures items != [] && -|items| <= pos < 0 ==> r == Ok(Some(items[|items| + pos]))
    ensures items != [] && pos < -|items| ==> r == Err(IndexError)
  {
    if items == [] then Err(QueueIsEmpty)
    else if pos <= |items| - 1 then
      (match PyIndex(items, pos) case Some(t) => Ok(Some(t)) case None => Err(IndexError))
    else Ok(None)
  }

  /** `upcoming_tracks`: `_queue[pos + 1:]`. */
  function UpcomingOf(items: seq<Track>, pos: int): (r: Result<seq<Track>, MusicError>)
    ensures r == Err(QueueIsEmpty) <==> items == []
    ensures items != [] && -1 <= pos < |items| ==> r == Ok(items[pos + 1..])
    ensures items != [] && pos >= |items| - 1 ==> r == Ok([])
  {
    if items == [] then Err(QueueIsEmpty)
    else
      assert pos >= |items| - 1 ==> SliceFrom(items, pos + 1) == [];
      Ok(SliceFrom(items, pos + 1))
  }

  /** `previous_tracks`: `_queue[:pos]`. */
  function PreviousOf(items: seq<Track>, pos: int): (r: Result<seq<Track>, MusicError>)
    ensures r == Err(QueueIsEmpty) <==> items == []
    ensures items != [] && 0 <= pos <= |items| ==> r == Ok(items[..pos])
    ensures items != [] && pos == 0 ==> r == Ok([])
  {
    if items == [] then Err(QueueIsEmpty) else Ok(SliceTo(items, pos))
  }

  /** With the cursor on a track, the history, the current track and the
      upcoming tracks make up the whole queue, in order. */
  lemma ViewsPartition(items: seq<Track>, pos: int)
    requires 0 <= pos < |items|
    ensures PreviousOf(items, pos).Ok? && UpcomingOf(items, pos).Ok?
    ensures PreviousOf(items, pos).value + [items[pos]] + UpcomingOf(items, pos).value == items
  {
    assert items[..pos] + [items[pos]] + items[pos + 1..] == items;
  }

  /** The cursor after `get_next_track` on a non-empty list of `n` tracks:
      one step forward, and back to 0 past the end under ALL. */
  function NextPos(pos: int, n: nat, mode: RepeatMode): (p: int)
    requires n > 0
    ensures p == pos + 1 || (p == 0 && mode == All && pos + 1 >= n)
  {
    if pos + 1 > n - 1 && mode == All then 0 else pos + 1
  }

  /** What `get_next_track` returns on a non-empty list: the track at the
      new cursor, or nothing when the cursor is before the start or past the
      end. */
  function NextTrack(items: seq<Track>, pos: int, mode: RepeatMode): (r: Option<Track>)
    requires items != []
    ensures r.Some? ==> r.value in items
    ensures mode == All && pos >= -1 ==> r.Some?
    ensures mode != All && pos >= |items| - 1 ==> r == None
    ensures pos < -1 ==> r == None
  {
    var p := NextPos(pos, |items|, mode);
    if 0 <= p < |items| then Some(items[p]) else None
  }

  /** The cursor after `k` advances. */
  function AdvanceN(pos: int, n: nat, mode: RepeatMode, k: nat): int
    requires n > 0
    decreases k
  {
    if k == 0 then pos else NextPos(AdvanceN(pos, n, mode, k - 1), n, mode)
  }

  /** The remainder is determined by any decomposition `x == q * n + r`
      with `0 <= r < n`. */
  lemma ModUnique(x: int, n: int, q: int, r: int)
    requires n > 0 && 0 <= r < n && x == q * n + r
    ensures x % n == r
  {
    var q0, r0 := x / n, x % n;
    assert x == q0 * n + r0;
    assert (q - q0) * n == r0 - r;
    if q - q0 >= 1 {
      assert false;
    } else if q - q0 <= -1 {
      assert false;
    }
  }

  lemma StepMod(a: nat, n: nat)
    requires n > 0
    ensures (if a % n + 1 > n - 1 then 0 else a % n + 1) == (a + 1) % n
  {
    var q, r := a / n, a % n;
    assert a == q * n + r;
    if r + 1 == n {
      ModUnique(a + 1, n, q + 1, 0);
    } else {
      ModUnique(a + 1, n, q, r + 1);
    }
  }

  /** Under ALL the cursor moves cyclically: `k` advances from a track
      position land on `(pos + k) % n`. */
  lemma {:induction false} AllCycles(pos: int, n: nat, k: nat)
    requires 0 <= pos < n
    ensures AdvanceN(pos, n, All, k) == (pos + k) % n
  {
    if k > 0 {
      AllCycles(pos, n, k - 1);
      StepMod(pos + k - 1, n);
    }
  }

  /** Under ALL, `n` advances on a queue of `n` tracks bring the cursor back
      to where it started, and the `k`-th advance plays `items[(pos + k) % n]`. */
  lemma AllReturnsAfterLength(items: seq<Track>, pos: int, k: nat)
    requires 0 <= pos < |items| && k >= 1
    ensures AdvanceN(pos, |items|, All, |items|) == pos
    ensures NextTrack(items, AdvanceN(pos, |items|, All, k - 1), All) == Some(items[(pos + k) % |items|])
  {
    var n := |items|;
    AllCycles(pos, n, n);
    ModUnique(pos + n, n, 1, pos);
    AllCycles(pos, n, k - 1);
    StepMod(pos + k - 1, n);
  }

  /** Without ALL the cursor only moves forward: `k` advances add `k`, and
      once the cursor is past the last track every advance yields nothing. */
  lemma {:induction false} NoWrapWithoutAll(items: seq<Track>, pos: int, mode: RepeatMode, k: nat)
    requires items != [] && mode != All
    ensures AdvanceN(pos, |items|, mode, k) == pos + k
    ensures pos + k >= |items| ==> NextTrack(items, AdvanceN(pos, |items|, mode, k), mode) == None
  {
    if k > 0 {
      NoWrapWithoutAll(items, pos, mode, k - 1);
    }
  }

  // -----------------------------------------------------------------------
  // What the stop event does to the queue (on_player_stop)
  // -----------------------------------------------------------------------

  /** The effect of `on_player_stop` on the queue: the new cursor, the track
      handed to `play` (if any), and the exception the handler ends with. */
  datatype StopEffect = StopEffect(pos: int, played: Option<Track>, error: Option<MusicError>)

  /** `on_player_stop`: under ONE, `repeat_track` plays `current_track` and
      leaves the cursor; its QueueIsEmpty, an IndexError, or a missing track
      (`play(None)`) end the handler. Otherwise `advance` calls
      `get_next_track`, swallows QueueIsEmpty, and plays what it returns. */
  function OnStop(items: seq<Track>, pos: int, mode: RepeatMode): (e: StopEffect)
    ensures mode == One ==> e.pos == pos
    ensures mode != One ==> e.error == None
    ensures mode != One && items == [] ==> e == StopEffect(pos, None, None)
  {
    if mode == One then
      match CurrentOf(items, pos)
      case Err(err) => StopEffect(pos, None, Some(err))
      case Ok(None) => StopEffect(pos, None, Some(NothingToPlay))
      case Ok(Some(t)) => StopEffect(pos, Some(t), None)
    else if items == [] then StopEffect(pos, None, None)
    else StopEffect(NextPos(pos, |items|, mode), NextTrack(items, pos, mode), None)
  }

  /** "previous" writes `pos - 2` and stops the player; unless the mode is
      ONE, the stop event's advance lands on the track before the one that
      was current and plays it. */
  lemma PreviousLandsOnPriorTrack(items: seq<Track>, pos: int, mode: RepeatMode)
    requires 1 <= pos <= |items| && mode != One
    ensures OnStop(items, pos - 2, mode) == StopEffect(pos - 1, Some(items[pos - 1]), None)
  {
  }

  /** Under ONE the stop event replays the track at the written cursor
      instead of advancing, so "previous" goes back two tracks, and from the
      second track it wraps round to the last one (Python's index -1). */
  lemma PreviousUnderRepeatOne(items: seq<Track>, pos: int)
    requires 1 <= pos <= |items|
    ensures pos >= 2 ==> OnStop(items, pos - 2, One) == StopEffect(pos - 2, Some(items[pos - 2]), None)
    ensures pos == 1 ==> OnStop(items, pos - 2, One) == StopEffect(-1, Some(items[|items| - 1]), None)
  {
  }

  /** "previous" from cursor -1 (left there by "skipto 1" or an earlier
      "previous") passes its guard on two or more tracks. Under ONE the replay
      then reads index -3: the third track from the end, or an IndexError
      in the listener on exactly two tracks. */
  lemma PreviousFromMinusOneUnderOne(items: seq<Track>)
    requires |items| >= 2
    ensures PreviousOf(items, -1).Ok? && PreviousOf(items, -1).value != []
    ensures |items| == 2 ==> OnStop(items, -3, One) == StopEffect(-3, None, Some(IndexError))
    ensures |items| >= 3 ==> OnStop(items, -3, One) == StopEffect(-3, Some(items[|items| - 3]), None)
  {
  }

  /** "skipto idx" writes `idx - 2` and stops the player: unless the mode is
      ONE, the advance plays the idx-th track counting from 1, and for idx 0
      it plays nothing and leaves the cursor at -1. */
  lemma SkipToLandsOnIndex(items: seq<Track>, idx: int, mode: RepeatMode)
    requires items != [] && 0 <= idx <= |items| && mode != One
    ensures idx >= 1 ==> OnStop(items, idx - 2, mode) == StopEffect(idx - 1, Some(items[idx - 1]), None)
    ensures idx == 0 ==> OnStop(items, idx - 2, mode) == StopEffect(-1, None, None)
  {
  }

  // -----------------------------------------------------------------------
  // Shuffle
  // -----------------------------------------------------------------------

  /** `random.shuffle` as CPython runs it (Fisher-Yates from the back), with
      the random index left open: the result is some permutation. */
  method RandomShuffle<T>(s: seq<T>) returns (r: seq<T>)
    ensures |r| == |s|
    ensures multiset(r) == multiset(s)
  {
    r := s;
    var i := |r| - 1;
    while i >= 1
      invariant -1 <= i < |r|
      invariant |r| == |s|
      invariant multiset(r) == multiset(s)
    {
      var j :| 0 <= j <= i;
      r := r[i := r[j]][j := r[i]];
      i := i - 1;
    }
  }

  /** What `shuffle` promises about the list it leaves: same length, the
      slice up to and including the cursor untouched, and the upcoming slice
      a permutation of what it was. */
  ghost predicate ShuffledAfter(before: seq<Track>, after: seq<Track>, pos: int) {
    var c := SliceBound(pos + 1, |before|);
    |after| == |before| && after[..c] == before[..c] && multiset(after[c..]) == multiset(before[c..])
  }

  /** A shuffle changes neither the history nor the current track, and the
      upcoming tracks stay the same multiset. This needs the cursor not to
      be -1: there `_queue[pos + 1:]` is the whole list while
      `current_track` is the last track (see ShuffleAtMinusOne). */
  lemma ShuffleKeepsViews(before: seq<Track>, after: seq<Track>, pos: int)
    requires ShuffledAfter(before, after, pos) && pos != -1
    ensures PreviousOf(after, pos) == PreviousOf(before, pos)
    ensures CurrentOf(after, pos) == CurrentOf(before, pos)
    ensures UpcomingOf(after, pos).Ok? == UpcomingOf(before, pos).Ok?
    ensures UpcomingOf(after, pos).Ok? ==>
              multiset(UpcomingOf(after, pos).value) == multiset(UpcomingOf(before, pos).value)
  {
    var n := |before|;
    var c := SliceBound(pos + 1, n);
    if n > 0 {
      var h := SliceBound(pos, n);
      assert h <= c;
      assert after[..h] == after[..c][..h];
      assert before[..h] == before[..c][..h];
      if 0 <= pos < n {
        assert after[pos] == after[..c][pos];
        assert before[pos] == before[..c][pos];
      } else if -n <= pos < 0 {
        assert after[n + pos] == after[..c][n + pos];
        assert before[n + pos] == before[..c][n + pos];
      }
    }
  }

  /** With the cursor at -1 (where "previous" from the second track under
      ONE, or "skipto 0", leaves it) the slice after the cursor is the whole
      queue, so a shuffle may move every track, the one `current_track`
      reports included. */
  lemma ShuffleAtMinusOne(before: seq<Track>, after: seq<Track>)
    requires |before| == |after| && multiset(after) == multiset(before)
    ensures ShuffledAfter(before, after, -1)
  {
    assert before[0..] == before && after[0..] == after;
  }

  // -----------------------------------------------------------------------
  // Repeat modes
  // -----------------------------------------------------------------------

  /** `Queue._REPEAT_MODES`: exactly "none", "1", "one" and "all". */
  function RepeatModeNamed(mode: string): (r: Option<RepeatMode>)
    ensures r.Some? <==> mode in {"none", "1", "one", "all"}
    ensures r == Some(NoRepeat) <==> mode == "none"
    ensures r == Some(One) <==> mode == "1" || mode == "one"
    ensures r == Some(All) <==> mode == "all"
  {
    if mode == "none" then Some(NoRepeat)
    else if mode == "1" || mode == "one" then Some(One)
    else if mode == "all" then Some(All)
    else None
  }

  // -----------------------------------------------------------------------
  // The queue object
  // -----------------------------------------------------------------------

  /** `Queue`: `items` is `_queue`. */
  class Queue {
    var items: seq<Track>
    var pos: int
    var repeatMode: RepeatMode

    constructor ()
      ensures items == [] && pos == 0 && repeatMode == NoRepeat
    {
      items := [];
      pos := 0;
      repeatMode := NoRepeat;
    }

    function Length(): (n: nat)
      reads this
      ensures n == |items|
    {
      |items|
    }

    predicate IsEmpty()
      reads this
    {
      items == []
    }

    /** `first_track`. */
    function FirstTrack(): (r: Result<Track, MusicError>)
      reads this
      ensures r.Ok? <==> items != []
      ensures r.Ok? ==> r.value == items[0]
      ensures r.Err? ==> r.error == QueueIsEmpty
    {
      if items == [] then Err(QueueIsEmpty) else Ok(items[0])
    }

    /** `current_track`. */
    function CurrentTrack(): Result<Option<Track>, MusicError>
      reads this
    {
      CurrentOf(items, pos)
    }

    /** `upcoming_tracks`. */
    function UpcomingTracks(): Result<seq<Track>, MusicError>
      reads this
    {
      UpcomingOf(items, pos)
    }

    /** `previous_tracks`. */
    function PreviousTracks(): Result<seq<Track>, MusicError>
      reads this
    {
      PreviousOf(items, pos)
    }

    /** `get_next_track`. */
    method GetNextTrack() returns (r: Result<Option<Track>, MusicError>)
      modifies this
      ensures items == old(items) && repeatMode == old(repeatMode)
      ensures items == [] ==> r == Err(QueueIsEmpty) && pos == old(pos)
      ensures items != [] ==> pos == NextPos(old(pos), |items|, repeatMode)
                              && r == Ok(NextTrack(items, old(pos), repeatMode))
      ensures items != [] && old(pos) + 1 < 0 ==> pos == old(pos) + 1 && r == Ok(None)
      ensures items != [] && 0 <= old(pos) + 1 < |items| ==> pos == old(pos) + 1 && r == Ok(Some(items[pos]))
      ensures items != [] && old(pos) + 1 >= |items| && repeatMode == All ==> pos == 0 && r == Ok(Some(items[0]))
      ensures items != [] && old(pos) + 1 >= |items| && repeatMode != All ==> pos == old(pos) + 1 && r == Ok(None)
    {
      if items == [] {
        return Err(QueueIsEmpty);
      }
      pos := pos + 1;
      if pos < 0 {
        return Ok(None);
      } else if pos > |items| - 1 {
        if repeatMode == All {
          pos := 0;
        } else {
          return Ok(None);
        }
      }
      return Ok(Some(items[pos]));
    }

    /** `shuffle`: permutes the tracks after the cursor. */
    method Shuffle() returns (r: Result<(), MusicError>)
      modifies this
      ensures pos == old(pos) && repeatMode == old(repeatMode)
      ensures old(items) == [] ==> r == Err(QueueIsEmpty) && items == old(items)
      ensures old(items) != [] ==> r == Ok(()) && ShuffledAfter(old(items), items, pos)
    {
      if items == [] {
        return Err(QueueIsEmpty);
      }
      var upcoming := SliceFrom(items, pos + 1);
      upcoming := RandomShuffle(upcoming);
      ghost var c := SliceBound(pos + 1, |items|);
      items := SliceTo(items, pos + 1) + upcoming;
      assert items[..c] == old(items)[..c];
      assert items[c..] == upcoming;
      return Ok(());
    }

    /** `set_repeat_mode`: an unknown name raises InvalidRepeatMode and
        leaves the mode as it was. */
    method SetRepeatMode(mode: string) returns (r: Result<(), MusicError>)
      modifies this
      ensures items == old(items) && pos == old(pos)
      ensures RepeatModeNamed(mode).Some? ==> r == Ok(()) && repeatMode == RepeatModeNamed(mode).value
      ensures RepeatModeNamed(mode).None? ==> r == Err(InvalidRepeatMode) && repeatMode == old(repeatMode)
    {
      match RepeatModeNamed(mode)
      case Some(m) =>
        repeatMode := m;
        return Ok(());
      case None =>
        return Err(InvalidRepeatMode);
    }

    /** `add_track(*tracks)`. */
    method AddTrack(tracks: seq<Track>)
      modifies this
      ensures items == old(items) + tracks
      ensures pos == old(pos) && repeatMode == old(repeatMode)
    {
      items := items + tracks;
    }

    /** `clear`. */
    method Clear()
      modifies this
      ensures items == [] && pos == 0
      ensures repeatMode == old(repeatMode)
    {
      pos := 0;
      items := [];
    }
  }

  /** Usage example of `AllReturnsAfterLength` on the queue class: queue
      [A, B, C] with the cursor on A and mode ALL; three advances give B, C
      and then A again. */
  method ScenarioRepeatAllWraps(a: Track, b: Track, c: Track)
  {
    var q := new Queue();
    q.AddTrack([a, b, c]);
    var ok := q.SetRepeatMode("all");
    assert ok == Ok(());
    var t := q.GetNextTrack();
    assert t == Ok(Some(b));
    t := q.GetNextTrack();
    assert t == Ok(Some(c));
    t := q.GetNextTrack();
    assert t == Ok(Some(a)) && q.pos == 0;
  }
}
