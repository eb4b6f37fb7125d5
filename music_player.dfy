/** The per-guild player of the music cog (bot/cogs/Music.py) and the
    command and event handlers that move its queue's cursor. The audio node
    is not modelled: what the player asks of it is recorded, in order, in
    `sent`, and `isConnected`, `isPaused` and `isPlaying` stand for the
    node client's state. A node "stop" is followed at once by the track-end
    event, handled by `OnPlayerStop`. */
module MusicPlayer {
  import opened Wrappers
  import opened MusicQueue
  import PyText
  import UtilDuration

  type ChannelId = nat
  type GuildId = nat

  /** `ctx.author.voice`: the author's voice state, whose `channel` may be
      None. */
  datatype VoiceState = VoiceState(channel: Option<ChannelId>)

  /** A guild member as the voice-state listener sees it. */
  datatype Member = Member(isBot: bool)

  /** What the player asks of the audio node. */
  datatype NodeCommand =
    | JoinChannel(channel: ChannelId)
    | Play(track: Track)
    | Stop
    | SetPause(pause: bool)
    | Seek(ms: int)
    | Destroy

  /** What `get_tracks` resolves a query to: nothing, a playlist, or a list
      of search results. */
  datatype SearchResult = NoResult | Playlist(tracks: seq<Track>) | TrackList(tracks: seq<Track>)

  /** The reaction `choose_track` accepts: one of the five number emoji of
      OPTIONS, as an index 0..4. */
  type Choice = i: nat | i < 5

  /** The number of emoji `choose_track` offers for `n` results. */
  function OfferedChoices(n: nat): (k: nat)
    ensures k <= 5 && k <= n
    ensures k == 5 || k == n
  {
    if n < 5 then n else 5
  }

  /** The channel `connect` joins: `getattr(ctx.author.voice, "channel",
      channel)`. The author's voice state wins whenever there is one, even
      when its channel is None; only without one does the requested channel
      count. */
  function ConnectTarget(authorVoice: Option<VoiceState>, requested: Option<ChannelId>): (c: Option<ChannelId>)
    ensures authorVoice.Some? ==> c == authorVoice.value.channel
    ensures authorVoice.None? ==> c == requested
    ensures c.Some? ==> c == requested || (authorVoice.Some? && c == authorVoice.value.channel)
  {
    match authorVoice
    case Some(v) => v.channel
    case None => requested
  }

  /** What `add_tracks` appends for a search result: NoTracksFound for no
      result or an empty list; a playlist's tracks, all of them; the one
      track of a one-element list; for a longer list the track whose emoji
      the requester picked, or nothing on time-out. The reaction check
      admits all five emoji even when fewer tracks were offered, so a pick
      beyond the list is an IndexError. */
  function Appended(result: SearchResult, reaction: Option<Choice>): (r: Result<seq<Track>, MusicError>)
    ensures r == Err(NoTracksFound) <==> result.NoResult? || (result.TrackList? && result.tracks == [])
    ensures result.Playlist? ==> r == Ok(result.tracks)
    ensures result.TrackList? && |result.tracks| == 1 ==> r == Ok(result.tracks)
    ensures result.TrackList? && |result.tracks| > 1 && r.Ok? ==>
              |r.value| <= 1 && (r.value == [] <==> reaction.None?)
              && (reaction.Some? && reaction.value < |result.tracks| ==> r.value == [result.tracks[reaction.value]])
    ensures r == Err(IndexError) <==>
              result.TrackList? && |result.tracks| > 1 && reaction.Some? && reaction.value >= |result.tracks|
  {
    match result
    case NoResult => Err(NoTracksFound)
    case Playlist(ts) => Ok(ts)
    case TrackList(ts) =>
      if |ts| == 0 then Err(NoTracksFound)
      else if |ts| == 1 then assert [ts[0]] == ts; Ok([ts[0]])
      else match reaction
        case None => Ok([])
        case Some(i) => if i < |ts| then Ok([ts[i]]) else Err(IndexError)
  }

  /** A pick among the emoji `choose_track` offers appends exactly that
      track and never fails; only an emoji it did not offer for a short
      list can be an IndexError. */
  lemma OfferedPickAppends(ts: seq<Track>, pick: Choice)
    requires |ts| > 1
    ensures pick < OfferedChoices(|ts|) ==> Appended(TrackList(ts), Some(pick)) == Ok([ts[pick]])
    ensures Appended(TrackList(ts), Some(pick)) == Err(IndexError) ==> pick >= OfferedChoices(|ts|) && |ts| < 5
  {
  }

  /** `on_voice_state_update`: a member who is not a bot left voice
      (`after.channel is None`) and no member who is not a bot is left in
      the channel they left. It does not look at which channel the bot is
      in. `beforeMembers` is None when `before.channel` is None, where the
      listener fails with an AttributeError. */
  function TeardownTriggered(member: Member, afterChannel: Option<ChannelId>, beforeMembers: Option<seq<Member>>)
    : (r: Result<bool, MusicError>)
    ensures r == Ok(true) <==>
              !member.isBot && afterChannel.None? && beforeMembers.Some?
              && forall m :: m in beforeMembers.value ==> m.isBot
    ensures r.Err? <==> !member.isBot && afterChannel.None? && beforeMembers.None?
  {
    if member.isBot || afterChannel.Some? then Ok(false)
    else match beforeMembers
      case None => Err(AttributeError)
      case Some(ms) => Ok(forall m :: m in ms ==> m.isBot)
  }

  /** `Player`. */
  class Player {
    const queue: Queue
    var isConnected: bool
    var isPaused: bool
    var isPlaying: bool
    /** The commands sent to the audio node, oldest first. */
    var sent: seq<NodeCommand>
    /** Exceptions raised inside the track-event listener, which never
        reach a command. */
    var listenerErrors: seq<MusicError>

    constructor ()
      ensures fresh(queue)
      ensures queue.items == [] && queue.pos == 0 && queue.repeatMode == NoRepeat
      ensures !isConnected && !isPaused && !isPlaying && sent == [] && listenerErrors == []
    {
      queue := new Queue();
      isConnected, isPaused, isPlaying := false, false, false;
      sent, listenerErrors := [], [];
    }

    /** `connect`. */
    method Connect(authorVoice: Option<VoiceState>, requested: Option<ChannelId>)
      returns (r: Result<ChannelId, MusicError>)
      modifies this
      ensures isPaused == old(isPaused) && isPlaying == old(isPlaying) && listenerErrors == old(listenerErrors)
      ensures old(isConnected) ==> r == Err(AlreadyConnectedToChannel) && isConnected && sent == old(sent)
      ensures !old(isConnected) && ConnectTarget(authorVoice, requested).None? ==>
                r == Err(NoVoiceChannel) && !isConnected && sent == old(sent)
      ensures !old(isConnected) && ConnectTarget(authorVoice, requested).Some? ==>
                r == Ok(ConnectTarget(authorVoice, requested).value) && isConnected
                && sent == old(sent) + [JoinChannel(r.value)]
    {
      if isConnected {
        return Err(AlreadyConnectedToChannel);
      }
      match ConnectTarget(authorVoice, requested)
      case None =>
        return Err(NoVoiceChannel);
      case Some(c) =>
        sent := sent + [JoinChannel(c)];
        isConnected := true;
        return Ok(c);
    }

    /** `teardown`: clears the queue and destroys the node player. */
    method Teardown()
      modifies this, queue
      ensures queue.items == [] && queue.pos == 0 && queue.repeatMode == old(queue.repeatMode)
      ensures !isConnected && !isPlaying && isPaused == old(isPaused)
      ensures sent == old(sent) + [Destroy] && listenerErrors == old(listenerErrors)
    {
      queue.Clear();
      sent := sent + [Destroy];
      isConnected, isPlaying := false, false;
    }

    /** `start_playback` and `repeat_track`, which have the same body:
        `play(current_track)`. */
    method PlayCurrent() returns (r: Result<(), MusicError>)
      modifies this
      ensures isConnected == old(isConnected) && isPaused == old(isPaused)
      ensures listenerErrors == old(listenerErrors)
      ensures match queue.CurrentTrack()
              case Ok(Some(t)) => r == Ok(()) && sent == old(sent) + [Play(t)] && isPlaying
              case Ok(None) => r == Err(NothingToPlay) && sent == old(sent) && isPlaying == old(isPlaying)
              case Err(e) => r == Err(e) && sent == old(sent) && isPlaying == old(isPlaying)
    {
      match queue.CurrentTrack()
      case Ok(Some(t)) =>
        sent := sent + [Play(t)];
        isPlaying := true;
        return Ok(());
      case Ok(None) =>
        return Err(NothingToPlay);
      case Err(e) =>
        return Err(e);
    }

    /** `advance`: the QueueIsEmpty of `get_next_track` is swallowed, and a
        returned track is played. */
    method Advance()
      modifies this, queue
      ensures queue.items == old(queue.items) && queue.repeatMode == old(queue.repeatMode)
      ensures isConnected == old(isConnected) && isPaused == old(isPaused)
      ensures listenerErrors == old(listenerErrors)
      ensures queue.items == [] ==> queue.pos == old(queue.pos) && sent == old(sent) && isPlaying == old(isPlaying)
      ensures queue.items != [] ==>
                queue.pos == NextPos(old(queue.pos), |queue.items|, queue.repeatMode)
                && match NextTrack(queue.items, old(queue.pos), queue.repeatMode)
                   case Some(t) => sent == old(sent) + [Play(t)] && isPlaying
                   case None => sent == old(sent) && isPlaying == old(isPlaying)
    {
      var next := queue.GetNextTrack();
      match next
      case Ok(Some(t)) =>
        sent := sent + [Play(t)];
        isPlaying := true;
      case Ok(None) =>
      case Err(_) =>
    }

    /** `on_player_stop`, the listener for track end, track stuck and track
        exception: its effect is `OnStop` of the queue it finds, and an
        exception it raises is recorded in `listenerErrors`. */
    method OnPlayerStop()
      modifies this, queue
      ensures queue.items == old(queue.items) && queue.repeatMode == old(queue.repeatMode)
      ensures isConnected == old(isConnected) && isPaused == old(isPaused)
      ensures var e := OnStop(old(queue.items), old(queue.pos), old(queue.repeatMode));
              queue.pos == e.pos
              && sent == old(sent) + (if e.played.Some? then [Play(e.played.value)] else [])
              && listenerErrors == old(listenerErrors) + (if e.error.Some? then [e.error.value] else [])
              && isPlaying == (e.played.Some? || old(isPlaying))
    {
      if queue.repeatMode == One {
        var r := PlayCurrent();
        if r.Err? {
          listenerErrors := listenerErrors + [r.error];
        }
      } else {
        Advance();
      }
    }

    /** `stop` on the node, followed by the track-end event it causes. */
    method StopAndAdvance()
      modifies this, queue
      ensures queue.items == old(queue.items) && queue.repeatMode == old(queue.repeatMode)
      ensures isConnected == old(isConnected) && isPaused == old(isPaused)
      ensures var e := OnStop(old(queue.items), old(queue.pos), old(queue.repeatMode));
              queue.pos == e.pos
              && sent == old(sent) + [Stop] + (if e.played.Some? then [Play(e.played.value)] else [])
              && listenerErrors == old(listenerErrors) + (if e.error.Some? then [e.error.value] else [])
              && isPlaying == e.played.Some?
    {
      sent := sent + [Stop];
      isPlaying := false;
      OnPlayerStop();
    }

    /** `add_tracks`: appends what `Appended` says and, when nothing is
        playing and the queue is not empty, starts playback. */
    method AddTracks(result: SearchResult, reaction: Option<Choice>) returns (r: Result<(), MusicError>)
      modifies this, queue
      ensures queue.pos == old(queue.pos) && queue.repeatMode == old(queue.repeatMode)
      ensures isConnected == old(isConnected) && isPaused == old(isPaused)
      ensures listenerErrors == old(listenerErrors)
      ensures Appended(result, reaction).Err? ==>
                r == Err(Appended(result, reaction).error) && queue.items == old(queue.items) && sent == old(sent)
                && isPlaying == old(isPlaying)
      ensures Appended(result, reaction).Ok? ==>
                queue.items == old(queue.items) + Appended(result, reaction).value
      ensures Appended(result, reaction).Ok? && (old(isPlaying) || queue.items == []) ==>
                r == Ok(()) && sent == old(sent) && isPlaying == old(isPlaying)
      ensures Appended(result, reaction).Ok? && !old(isPlaying) && queue.items != [] ==>
                match CurrentOf(queue.items, queue.pos)
                case Ok(Some(t)) => r == Ok(()) && sent == old(sent) + [Play(t)] && isPlaying
                case Ok(None) => r == Err(NothingToPlay) && sent == old(sent) && isPlaying == old(isPlaying)
                case Err(e) => r == Err(e) && sent == old(sent) && isPlaying == old(isPlaying)
    {
      var add := Appended(result, reaction);
      if add.Err? {
        return Err(add.error);
      }
      queue.AddTrack(add.value);
      if !isPlaying && !queue.IsEmpty() {
        r := PlayCurrent();
      } else {
        r := Ok(());
      }
    }

    // ---------------------------------------------------------------------
    // Command handlers of the cog
    // ---------------------------------------------------------------------

    /** "play" without a query: connect if needed, then resume a paused
        player. */
    method ResumeCommand(authorVoice: Option<VoiceState>) returns (r: Result<(), MusicError>)
      modifies this
      ensures listenerErrors == old(listenerErrors) && isPlaying == old(isPlaying)
      ensures !old(isConnected) && ConnectTarget(authorVoice, None).None? ==>
                r == Err(NoVoiceChannel) && sent == old(sent) && isPaused == old(isPaused)
      ensures (old(isConnected) || ConnectTarget(authorVoice, None).Some?) ==>
                isConnected
                && var connected := if old(isConnected) then old(sent)
                                    else old(sent) + [JoinChannel(ConnectTarget(authorVoice, None).value)];
                   if queue.items == [] then r == Err(QueueIsEmpty) && sent == connected && isPaused == old(isPaused)
                   else if !old(isPaused) then r == Err(PlayerAlreadyPlaying) && sent == connected && !isPaused
                   else r == Ok(()) && sent == connected + [SetPause(false)] && !isPaused
    {
      if !isConnected {
        var c := Connect(authorVoice, None);
        if c.Err? {
          return Err(c.error);
        }
      }
      if queue.IsEmpty() {
        return Err(QueueIsEmpty);
      }
      if !isPaused {
        return Err(PlayerAlreadyPlaying);
      }
      sent := sent + [SetPause(false)];
      isPaused := false;
      return Ok(());
    }

    /** "play" with a query whose search gave `result`: connect if needed,
        then `add_tracks`. */
    method PlayCommand(authorVoice: Option<VoiceState>, result: SearchResult, reaction: Option<Choice>)
      returns (r: Result<(), MusicError>)
      modifies this, queue
      ensures listenerErrors == old(listenerErrors) && queue.pos == old(queue.pos)
      ensures isPaused == old(isPaused) && queue.repeatMode == old(queue.repeatMode)
      ensures !old(isConnected) && ConnectTarget(authorVoice, None).None? ==>
                r == Err(NoVoiceChannel) && queue.items == old(queue.items) && sent == old(sent)
                && !isConnected && isPlaying == old(isPlaying)
      ensures (old(isConnected) || ConnectTarget(authorVoice, None).Some?) ==>
                isConnected
                && var connected := if old(isConnected) then old(sent)
                                    else old(sent) + [JoinChannel(ConnectTarget(authorVoice, None).value)];
                   var add := Appended(result, reaction);
                   (add.Err? ==>
                      r == Err(add.error) && queue.items == old(queue.items) && sent == connected
                      && isPlaying == old(isPlaying))
                   && (add.Ok? ==> queue.items == old(queue.items) + add.value)
                   && (add.Ok? && (old(isPlaying) || queue.items == []) ==>
                         r == Ok(()) && sent == connected && isPlaying == old(isPlaying))
                   && (add.Ok? && !old(isPlaying) && queue.items != [] ==>
                         match CurrentOf(queue.items, queue.pos)
                         case Ok(Some(t)) => r == Ok(()) && sent == connected + [Play(t)] && isPlaying
                         case Ok(None) => r == Err(NothingToPlay) && sent == connected && isPlaying == old(isPlaying)
                         case Err(e) => r == Err(e) && sent == connected && isPlaying == old(isPlaying))
    {
      if !isConnected {
        var c := Connect(authorVoice, None);
        if c.Err? {
          return Err(c.error);
        }
      }
      r := AddTracks(result, reaction);
    }

    /** "pause". */
    method PauseCommand() returns (r: Result<(), MusicError>)
      modifies this
      ensures isConnected == old(isConnected) && isPlaying == old(isPlaying)
      ensures listenerErrors == old(listenerErrors)
      ensures old(isPaused) ==> r == Err(PlayerAlreadyPaused) && sent == old(sent) && isPaused
      ensures !old(isPaused) ==> r == Ok(()) && sent == old(sent) + [SetPause(true)] && isPaused
    {
      if isPaused {
        return Err(PlayerAlreadyPaused);
      }
      sent := sent + [SetPause(true)];
      isPaused := true;
      return Ok(());
    }

    /** "stop": clears the queue, then stops the node. Under ONE the
        track-end listener then fails on the empty queue. */
    method StopCommand()
      modifies this, queue
      ensures queue.items == [] && queue.pos == 0 && queue.repeatMode == old(queue.repeatMode)
      ensures isConnected == old(isConnected) && isPaused == old(isPaused)
      ensures sent == old(sent) + [Stop] && !isPlaying
      ensures listenerErrors == old(listenerErrors) + (if queue.repeatMode == One then [QueueIsEmpty] else [])
    {
      queue.Clear();
      StopAndAdvance();
    }

    /** "next": QueueIsEmpty on an empty queue, NoMoreTracks when nothing
        is upcoming, otherwise a node stop whose event advances. */
    method NextCommand() returns (r: Result<(), MusicError>)
      modifies this, queue
      ensures isConnected == old(isConnected) && isPaused == old(isPaused)
      ensures r.Err? ==> listenerErrors == old(listenerErrors) && isPlaying == old(isPlaying)
      ensures queue.items == old(queue.items) && queue.repeatMode == old(queue.repeatMode)
      ensures queue.items == [] ==> r == Err(QueueIsEmpty) && queue.pos == old(queue.pos) && sent == old(sent)
      ensures queue.items != [] && SliceFrom(queue.items, old(queue.pos) + 1) == [] ==>
                r == Err(NoMoreTracks) && queue.pos == old(queue.pos) && sent == old(sent)
      ensures queue.items != [] && SliceFrom(queue.items, old(queue.pos) + 1) != [] ==>
                r == Ok(())
                && var e := OnStop(queue.items, old(queue.pos), queue.repeatMode);
                   queue.pos == e.pos
                   && sent == old(sent) + [Stop] + (if e.played.Some? then [Play(e.played.value)] else [])
                   && listenerErrors == old(listenerErrors) + (if e.error.Some? then [e.error.value] else [])
                   && isPlaying == e.played.Some?
    {
      var upcoming := queue.UpcomingTracks();
      if upcoming.Err? {
        return Err(upcoming.error);
      }
      if upcoming.value == [] {
        return Err(NoMoreTracks);
      }
      StopAndAdvance();
      return Ok(());
    }

    /** "previous": QueueIsEmpty on an empty queue, NoPreviousTracks when
        `previous_tracks` is empty, otherwise `pos -= 2` and a node stop. */
    method PreviousCommand() returns (r: Result<(), MusicError>)
      modifies this, queue
      ensures isConnected == old(isConnected) && isPaused == old(isPaused)
      ensures r.Err? ==> listenerErrors == old(listenerErrors) && isPlaying == old(isPlaying)
      ensures queue.items == old(queue.items) && queue.repeatMode == old(queue.repeatMode)
      ensures queue.items == [] ==> r == Err(QueueIsEmpty) && queue.pos == old(queue.pos) && sent == old(sent)
      ensures queue.items != [] && SliceTo(queue.items, old(queue.pos)) == [] ==>
                r == Err(NoPreviousTracks) && queue.pos == old(queue.pos) && sent == old(sent)
      ensures queue.items != [] && SliceTo(queue.items, old(queue.pos)) != [] ==>
                r == Ok(())
                && var e := OnStop(queue.items, old(queue.pos) - 2, queue.repeatMode);
                   queue.pos == e.pos
                   && sent == old(sent) + [Stop] + (if e.played.Some? then [Play(e.played.value)] else [])
                   && listenerErrors == old(listenerErrors) + (if e.error.Some? then [e.error.value] else [])
                   && isPlaying == e.played.Some?
      ensures queue.items != [] && 1 <= old(queue.pos) <= |queue.items| && queue.repeatMode != One ==>
                r == Ok(()) && queue.pos == old(queue.pos) - 1
                && sent == old(sent) + [Stop, Play(queue.items[old(queue.pos) - 1])]
    {
      var previous := queue.PreviousTracks();
      if previous.Err? {
        return Err(previous.error);
      }
      if previous.value == [] {
        return Err(NoPreviousTracks);
      }
      queue.pos := queue.pos - 2;
      if 1 <= queue.pos + 2 <= |queue.items| && queue.repeatMode != One {
        PreviousLandsOnPriorTrack(queue.items, queue.pos + 2, queue.repeatMode);
      }
      StopAndAdvance();
      return Ok(());
    }

    /** "skipto idx": QueueIsEmpty on an empty queue, NoMoreTracks unless
        `0 <= idx <= length`, otherwise `pos = idx - 2` and a node stop. */
    method SkipToCommand(idx: int) returns (r: Result<(), MusicError>)
      modifies this, queue
      ensures isConnected == old(isConnected) && isPaused == old(isPaused)
      ensures r.Err? ==> listenerErrors == old(listenerErrors) && isPlaying == old(isPlaying)
      ensures queue.items == old(queue.items) && queue.repeatMode == old(queue.repeatMode)
      ensures queue.items == [] ==> r == Err(QueueIsEmpty) && queue.pos == old(queue.pos) && sent == old(sent)
      ensures queue.items != [] && !(0 <= idx <= |queue.items|) ==>
                r == Err(NoMoreTracks) && queue.pos == old(queue.pos) && sent == old(sent)
      ensures queue.items != [] && 0 <= idx <= |queue.items| ==>
                r == Ok(())
                && var e := OnStop(queue.items, idx - 2, queue.repeatMode);
                   queue.pos == e.pos
                   && sent == old(sent) + [Stop] + (if e.played.Some? then [Play(e.played.value)] else [])
                   && listenerErrors == old(listenerErrors) + (if e.error.Some? then [e.error.value] else [])
                   && isPlaying == e.played.Some?
      ensures queue.items != [] && 1 <= idx <= |queue.items| && queue.repeatMode != One ==>
                queue.pos == idx - 1 && sent == old(sent) + [Stop, Play(queue.items[idx - 1])]
    {
      if queue.IsEmpty() {
        return Err(QueueIsEmpty);
      }
      if !(0 <= idx <= queue.Length()) {
        return Err(NoMoreTracks);
      }
      queue.pos := idx - 2;
      if queue.repeatMode != One {
        SkipToLandsOnIndex(queue.items, idx, queue.repeatMode);
      }
      StopAndAdvance();
      return Ok(());
    }

    /** "shuffle". */
    method ShuffleCommand() returns (r: Result<(), MusicError>)
      modifies queue
      ensures queue.pos == old(queue.pos) && queue.repeatMode == old(queue.repeatMode)
      ensures old(queue.items) == [] ==> r == Err(QueueIsEmpty) && queue.items == []
      ensures old(queue.items) != [] ==> r == Ok(()) && ShuffledAfter(old(queue.items), queue.items, queue.pos)
    {
      r := queue.Shuffle();
    }

    /** "repeat mode": the name is lower-cased and must be one of "none",
        "one", "1" and "all". */
    method RepeatCommand(mode: string) returns (r: Result<(), MusicError>)
      modifies queue
      ensures queue.items == old(queue.items) && queue.pos == old(queue.pos)
      ensures RepeatModeNamed(PyText.Lower(mode)).None? ==>
                r == Err(InvalidRepeatMode) && queue.repeatMode == old(queue.repeatMode)
      ensures RepeatModeNamed(PyText.Lower(mode)).Some? ==>
                r == Ok(()) && queue.repeatMode == RepeatModeNamed(PyText.Lower(mode)).value
    {
      var lowered := PyText.Lower(mode);
      if lowered !in {"none", "one", "1", "all"} {
        return Err(InvalidRepeatMode);
      }
      r := queue.SetRepeatMode(lowered);
    }

    /** "seek": QueueIsEmpty on an empty queue, otherwise a seek to the
        parsed time string, in milliseconds; a duration too long for a
        `timedelta` fails with OverflowError before anything is sent. */
    method SeekCommand(time: string) returns (r: Result<nat, MusicError>)
      modifies this
      ensures isConnected == old(isConnected) && isPaused == old(isPaused) && isPlaying == old(isPlaying)
      ensures listenerErrors == old(listenerErrors)
      ensures queue.items == [] ==> r == Err(QueueIsEmpty) && sent == old(sent)
      ensures queue.items != [] ==>
                match UtilDuration.TimeStringToSeconds(time)
                case None => r == Err(OverflowError) && sent == old(sent)
                case Some(secs) => r == Ok(secs) && sent == old(sent) + [Seek(1000 * secs)]
    {
      if queue.IsEmpty() {
        return Err(QueueIsEmpty);
      }
      match UtilDuration.TimeStringToSeconds(time)
      case None =>
        return Err(OverflowError);
      case Some(secs) =>
        sent := sent + [Seek(1000 * secs)];
        return Ok(secs);
    }

    /** "restart": QueueIsEmpty on an empty queue, otherwise a seek to 0. */
    method RestartCommand() returns (r: Result<(), MusicError>)
      modifies this
      ensures isConnected == old(isConnected) && isPaused == old(isPaused) && isPlaying == old(isPlaying)
      ensures listenerErrors == old(listenerErrors)
      ensures queue.items == [] ==> r == Err(QueueIsEmpty) && sent == old(sent)
      ensures queue.items != [] ==> r == Ok(()) && sent == old(sent) + [Seek(0)]
    {
      if queue.IsEmpty() {
        return Err(QueueIsEmpty);
      }
      sent := sent + [Seek(0)];
      return Ok(());
    }
  }

  /** The node client's registry of players, one per guild, as `get_player`
      and `destroy` use it: a player is made on first use and forgotten on
      teardown. */
  class Registry {
    var players: map<GuildId, Player>

    constructor ()
      ensures players == map[]
    {
      players := map[];
    }

    /** `get_player`: the guild's player, made fresh when it has none. */
    method GetPlayer(g: GuildId) returns (p: Player)
      modifies this
      ensures g in players && players[g] == p
      ensures g in old(players) ==> players == old(players)
      ensures g !in old(players) ==>
                players == old(players)[g := p] && fresh(p) && fresh(p.queue)
                && p.queue.items == [] && p.queue.pos == 0 && p.queue.repeatMode == NoRepeat
                && !p.isConnected && !p.isPaused && !p.isPlaying && p.sent == []
    {
      if g in players {
        p := players[g];
      } else {
        p := new Player();
        players := players[g := p];
      }
    }

    /** `on_voice_state_update`: when `TeardownTriggered` holds, the
        guild's player (made on the spot if there was none) is torn down and
        leaves the registry, so the next command gets a fresh one. */
    method OnVoiceStateUpdate(g: GuildId, member: Member, afterChannel: Option<ChannelId>,
                              beforeMembers: Option<seq<Member>>) returns (r: Result<bool, MusicError>)
      modifies this, if g in players then {players[g], players[g].queue} else {}
      ensures r == TeardownTriggered(member, afterChannel, beforeMembers)
      ensures r != Ok(true) ==> players == old(players)
      ensures r == Ok(true) ==> players == old(players) - {g}
      ensures r == Ok(true) && g in old(players) ==>
                old(players[g]).queue.items == [] && !old(players[g]).isConnected
                && old(players[g]).sent == old(players[g].sent) + [Destroy]
    {
      r := TeardownTriggered(member, afterChannel, beforeMembers);
      if r == Ok(true) {
        var p := GetPlayer(g);
        p.Teardown();
        players := players - {g};
      }
    }
  }

  /** Usage example of `Registry.OnVoiceStateUpdate` and `Registry.GetPlayer`:
      after a teardown the guild's next command finds a fresh player with an
      empty queue. */
  method ScenarioTeardownThenFreshPlayer(reg: Registry, g: GuildId, stranger: Member)
    requires !stranger.isBot
    modifies reg, if g in reg.players then {reg.players[g], reg.players[g].queue} else {}
  {
    var r := reg.OnVoiceStateUpdate(g, stranger, None, Some([]));
    assert r == Ok(true) && g !in reg.players;
    var p := reg.GetPlayer(g);
    assert fresh(p) && p.queue.items == [] && !p.isConnected;
  }

  /** Usage example of `Player.OnPlayerStop`: a track error with mode NONE
      and one upcoming track; the cursor moves once and the upcoming track is
      played, with nothing raised. */
  method ScenarioTrackErrorAdvances(a: Track, b: Track)
  {
    var p := new Player();
    var r := p.AddTracks(TrackList([a]), None);
    assert p.sent == [Play(a)];
    r := p.AddTracks(TrackList([b]), None);
    assert p.queue.items == [a, b] && p.queue.pos == 0;
    p.OnPlayerStop();
    assert p.queue.pos == 1 && p.sent == [Play(a), Play(b)] && p.listenerErrors == [];
  }
}
