/** The over-the-air update in OTA_Handler.h: chunks are requested one by one, flashed and hashed, with timeouts,
    retries and restarts. */
module OtaHandler {
  import opened Bytes

  /** What the user's callback object is asked for. */
  datatype Config = Config(chunk_retries: nat, chunk_size: nat)

  datatype Response = RETRY_CHUNK | RETRY_UPDATE | RETRY_NOTHING

  /** How the updater, the hash and the user answer while one packet is handled: whether `begin` works, how many
      bytes are written, whether the hash is updated, whether the user stops the update, and whether `end` works. */
  datatype Answers = Answers(begun: bool, written: nat, hashed: bool, stopped: bool, ended: bool)

  /** The handler's fields, what the updater and the hash hold, and the history of the run: the chunks accepted, how
      often the next one has been requested, whether `end` has worked, and what was reported last. */
  datatype State = State(
    config: Option<Config>,
    checksum: Text,
    total: nat,
    requested: nat,
    retries: nat,
    armed: bool,
    flashed: Text,
    hashed: Text,
    accepted: seq<Text>,
    requests: nat,
    ended: bool,
    outcome: Option<bool>)

  // ---------------------------------------------------------------------------------------------
  // What each method does to the state
  // ---------------------------------------------------------------------------------------------

  function Report(s: State, success: bool): State {
    s.(outcome := Some(success))
  }

  /** The first packet is requested (again). */
  function Restarted(s: State): State
    requires s.config.Some?
  {
    s.(requested := 0, retries := s.config.value.chunk_retries, hashed := [], flashed := [], accepted := [],
       requests := 1, armed := true)
  }

  function UpdateRetried(s: State): State
    requires s.config.Some?
  {
    if s.retries == 0 then Report(s, false) else Restarted(s)
  }

  function Finished(s: State, hash: Text -> Text, endWorks: bool): State
    requires s.config.Some?
  {
    if s.checksum != hash(s.hashed) || !endWorks then UpdateRetried(s) else Report(s.(ended := true), true)
  }

  function NextRequested(s: State, hash: Text -> Text, endWorks: bool): State
    requires s.config.Some?
  {
    if s.requested >= s.total then Finished(s, hash, endWorks) else s.(armed := true, requests := s.requests + 1)
  }

  function ChunkRetried(s: State, hash: Text -> Text, endWorks: bool): State
    requires s.config.Some?
  {
    if s.retries == 0 then Report(s, false) else NextRequested(s.(retries := s.retries - 1), hash, endWorks)
  }

  function Handled(s: State, response: Response, hash: Text -> Text, endWorks: bool): State
    requires s.config.Some?
  {
    match response
    case RETRY_CHUNK => ChunkRetried(s, hash, endWorks)
    case RETRY_UPDATE => UpdateRetried(s)
    case RETRY_NOTHING => Report(s.(retries := if s.retries == 0 then 0 else s.retries - 1), false)
  }

  function TotalChunks(fw_size: nat, chunk_size: nat): nat
    requires chunk_size > 0
  {
    fw_size / chunk_size + 1
  }

  function Started(s: State, config: Config, fw_size: nat, checksum: Text, usable: bool, hash: Text -> Text): State
    requires config.chunk_size > 0
  {
    var t := s.(config := Some(config), checksum := checksum, total := TotalChunks(fw_size, config.chunk_size),
                ended := false, outcome := None);
    if usable then Restarted(t) else Handled(t, RETRY_NOTHING, hash, false)
  }

  function Stopped(s: State, hash: Text -> Text): State
    requires s.config.Some?
  {
    Handled(s.(armed := false, flashed := []), RETRY_NOTHING, hash, false).(config := None)
  }

  function TimedOut(s: State, hash: Text -> Text, endWorks: bool): State
    requires s.config.Some?
  {
    Handled(s.(armed := false), RETRY_CHUNK, hash, endWorks)
  }

  function Prefix(payload: Text, n: nat): Text {
    if n <= |payload| then payload[..n] else payload
  }

  function Processed(s: State, index: nat, payload: Text, a: Answers, hash: Text -> Text): State
    requires s.config.Some?
  {
    if index != s.requested then s else
    var t := s.(armed := false);
    if index == 0 && !a.begun then UpdateRetried(t) else
    var begun := if index == 0 then t.(flashed := []) else t;
    var flashed := begun.(flashed := begun.flashed + Prefix(payload, a.written));
    if a.written != |payload| || !a.hashed then UpdateRetried(flashed) else
    Taken(flashed, index, payload, a, hash)
  }

  /** A chunk that has been flashed is hashed and accepted. */
  function Taken(s: State, index: nat, payload: Text, a: Answers, hash: Text -> Text): State
    requires s.config.Some?
  {
    var taken := s.(hashed := s.hashed + payload, requested := index + 1, accepted := s.accepted + [payload]);
    if a.stopped then Stopped(taken, hash) else
    NextRequested(taken.(retries := taken.config.value.chunk_retries, requests := 0), hash, a.ended)
  }

  lemma StoppedForgets(s: State, hash: Text -> Text)
    requires s.config.Some?
    ensures Stopped(s, hash).config == None
  {}

  // ---------------------------------------------------------------------------------------------
  // The handler
  // ---------------------------------------------------------------------------------------------

  class OtaHandler {
    const hash: Text -> Text
    var m_fw_callback: Option<Config>
    var m_fw_checksum: Text
    var m_total_chunks: nat
    var m_requested_chunks: nat
    var m_retries: nat
    var m_watchdog: bool
    /** What the updater has written since it was begun or reset, and the hash was fed since it was started. */
    var m_fw_updater: Text
    var m_hash: Text
    ghost var accepted: seq<Text>
    ghost var requests: nat
    ghost var ended: bool
    var reported: Option<bool>

    ghost function Now(): State
      reads this
    {
      State(m_fw_callback, m_fw_checksum, m_total_chunks, m_requested_chunks, m_retries, m_watchdog, m_fw_updater,
            m_hash, accepted, requests, ended, reported)
    }

    constructor (hash: Text -> Text)
      ensures this.hash == hash
      ensures Now() == State(None, [], 0, 0, 0, false, [], [], [], 0, false, None)
    {
      this.hash := hash;
      m_fw_callback, m_fw_checksum, m_total_chunks := None, [], 0;
      m_requested_chunks, m_retries, m_watchdog := 0, 0, false;
      m_fw_updater, m_hash, accepted, requests, ended, reported := [], [], [], 0, false, None;
    }

    method CallCallbackAndFinish(success: bool)
      modifies this`reported
      ensures Now() == Report(old(Now()), success)
    {
      reported := Some(success);
    }

    method StartFirmwareUpdate(fw_callback: Config, fw_size: nat, fw_checksum: Text, usable: bool)
      requires fw_callback.chunk_size > 0
      modifies this
      ensures Now() == Started(old(Now()), fw_callback, fw_size, fw_checksum, usable, hash)
    {
      m_fw_callback := Some(fw_callback);
      m_total_chunks := fw_size / fw_callback.chunk_size + 1;
      m_fw_checksum := fw_checksum;
      ended, reported := false, None;
      if !usable {
        HandleFailure(RETRY_NOTHING, false);
        return;
      }
      RequestFirstFirmwarePacket();
    }

    method StopFirmwareUpdate()
      requires m_fw_callback.Some? && m_total_chunks > 0
      modifies this
      ensures Now() == Stopped(old(Now()), hash)
    {
      m_watchdog := false;
      m_fw_updater := [];
      HandleFailure(RETRY_NOTHING, false);
      m_fw_callback := None;
    }

    method ProcessFirmwarePacket(current_chunk: nat, payload: Text, a: Answers)
      requires m_fw_callback.Some? && m_total_chunks > 0
      modifies this
      ensures Now() == Processed(old(Now()), current_chunk, payload, a, hash)
    {
      hide UpdateRetried, NextRequested, Stopped, Prefix;
      if current_chunk != m_requested_chunks {
        return;
      }
      m_watchdog := false;
      if current_chunk == 0 {
        if !a.begun {
          HandleFailure(RETRY_UPDATE, a.ended);
          return;
        }
        m_fw_updater := [];
      }
      m_fw_updater := m_fw_updater + Prefix(payload, a.written);
      if a.written != |payload| {
        HandleFailure(RETRY_UPDATE, a.ended);
        return;
      }
      if !a.hashed {
        HandleFailure(RETRY_UPDATE, a.ended);
        return;
      }
      AcceptPacket(current_chunk, payload, a);
    }

    /** The end of `Process_Firmware_Packet`: the chunk has been flashed and hashed. */
    method AcceptPacket(current_chunk: nat, payload: Text, a: Answers)
      requires m_fw_callback.Some? && m_total_chunks > 0
      modifies this
      ensures Now() == Taken(old(Now()), current_chunk, payload, a, hash)
    {
      hide NextRequested, Stopped;
      m_hash := m_hash + payload;
      m_requested_chunks := current_chunk + 1;
      accepted := accepted + [payload];
      if a.stopped {
        StopFirmwareUpdate();
        StoppedForgets(old(Now()).(hashed := old(m_hash) + payload, requested := current_chunk + 1,
                                   accepted := old(accepted) + [payload]), hash);
      }
      if m_fw_callback.None? {
        return;
      }
      m_retries := m_fw_callback.value.chunk_retries;
      requests := 0;
      RequestNextFirmwarePacket(a.ended);
    }

    method RequestFirstFirmwarePacket()
      requires m_fw_callback.Some? && m_total_chunks > 0
      modifies this
      ensures Now() == Restarted(old(Now()))
      decreases 1
    {
      m_requested_chunks := 0;
      m_retries := m_fw_callback.value.chunk_retries;
      m_hash := [];
      m_watchdog := false;
      m_fw_updater := [];
      accepted, requests := [], 0;
      RequestNextFirmwarePacket(false);
    }

    method RequestNextFirmwarePacket(endWorks: bool)
      requires m_fw_callback.Some? && m_total_chunks > 0
      modifies this
      ensures Now() == NextRequested(old(Now()), hash, endWorks)
      decreases if m_requested_chunks >= m_total_chunks then 4 else 0
    {
      if m_requested_chunks >= m_total_chunks {
        FinishFirmwareUpdate(endWorks);
        return;
      }
      requests := requests + 1;
      m_watchdog := true;
    }

    method FinishFirmwareUpdate(endWorks: bool)
      requires m_fw_callback.Some? && m_total_chunks > 0
      modifies this
      ensures Now() == Finished(old(Now()), hash, endWorks)
      decreases 3
    {
      var calculated_hash := hash(m_hash);
      if m_fw_checksum != calculated_hash {
        HandleFailure(RETRY_UPDATE, endWorks);
        return;
      }
      if !endWorks {
        HandleFailure(RETRY_UPDATE, endWorks);
        return;
      }
      ended := true;
      CallCallbackAndFinish(true);
    }

    method HandleFailure(failure_response: Response, endWorks: bool)
      requires m_fw_callback.Some? && m_total_chunks > 0
      modifies this
      ensures Now() == Handled(old(Now()), failure_response, hash, endWorks)
      decreases if failure_response == RETRY_CHUNK then 5 else 2
    {
      if m_retries <= 0 {
        CallCallbackAndFinish(false);
        return;
      }
      m_retries := m_retries - 1;
      match failure_response {
        case RETRY_CHUNK =>
          RequestNextFirmwarePacket(endWorks);
        case RETRY_UPDATE =>
          RequestFirstFirmwarePacket();
        case RETRY_NOTHING =>
          CallCallbackAndFinish(false);
      }
    }

    method HandleRequestTimeout(endWorks: bool)
      requires m_fw_callback.Some? && m_total_chunks > 0
      modifies this
      ensures Now() == TimedOut(old(Now()), hash, endWorks)
    {
      m_watchdog := false;
      HandleFailure(RETRY_CHUNK, endWorks);
    }
  }

  // ---------------------------------------------------------------------------------------------
  // Runs
  // ---------------------------------------------------------------------------------------------

  datatype Event =
    | Packet(index: nat, payload: Text, answers: Answers)
    | Timeout(endWorks: bool)
    | Stop

  function After(s: State, e: Event, hash: Text -> Text): State
    requires s.config.Some?
  {
    match e
    case Packet(index, payload, a) => Processed(s, index, payload, a, hash)
    case Timeout(endWorks) => TimedOut(s, hash, endWorks)
    case Stop => Stopped(s, hash)
  }

  /** An update from its start on, for as long as nothing has been reported: any packets, in any order and however
      often, and timeouts while the watchdog is armed. */
  ghost predicate IsRun(run: seq<State>, hash: Text -> Text) {
    && run != []
    && (exists s: State, config: Config, fw_size: nat,
        checksum: Text {:trigger Started(s, config, fw_size, checksum, true, hash)} ::
          config.chunk_size > 0 && run[0] == Started(s, config, fw_size, checksum, true, hash))
    && forall i :: 0 < i < |run| ==> StepAt(run, i, hash)
  }

  ghost predicate StepAt(run: seq<State>, i: int, hash: Text -> Text)
    requires 0 < i < |run|
  {
    Successor(run[i - 1], run[i], hash)
  }

  ghost predicate Successor(s: State, s': State, hash: Text -> Text) {
    && s.config.Some? && s.outcome.None?
    && exists e: Event {:trigger After(s, e, hash)} :: (e.Timeout? ==> s.armed) && s' == After(s, e, hash)
  }

  function Concat(chunks: seq<Text>): Text {
    if chunks == [] then [] else Concat(chunks[..|chunks| - 1]) + chunks[|chunks| - 1]
  }

  lemma ConcatAppend(chunks: seq<Text>, chunk: Text)
    ensures Concat(chunks + [chunk]) == Concat(chunks) + chunk
  {
    assert (chunks + [chunk])[..|chunks|] == chunks;
  }

  predicate Running(s: State) {
    && s.config.Some? && s.armed
    && s.flashed == s.hashed == Concat(s.accepted) && s.requested == |s.accepted| < s.total
    && s.requests + s.retries == 1 + s.config.value.chunk_retries && s.requests > 0
  }

  predicate Inv(s: State, hash: Text -> Text) {
    match s.outcome
    case None => Running(s)
    case Some(true) =>
      && s.ended && hash(s.flashed) == s.checksum && s.flashed == s.hashed == Concat(s.accepted)
      && s.requested == |s.accepted| == s.total && s.config.Some? && !s.armed
    case Some(false) => !s.armed && (s.config.None? ==> s.flashed == [])
  }

  lemma RetryInv(s: State, hash: Text -> Text)
    requires s.config.Some? && s.outcome.None? && s.total > 0 && !s.armed
    ensures Inv(UpdateRetried(s), hash)
  {
    assert Concat([]) == [];
  }

  /** All that has been accepted agrees, and the next chunk may be requested. */
  predicate Ready(s: State) {
    && s.config.Some? && s.outcome.None? && s.total > 0 && !s.armed
    && s.flashed == s.hashed == Concat(s.accepted) && s.requested == |s.accepted| <= s.total
    && s.requests + s.retries == s.config.value.chunk_retries
  }

  lemma NextInv(s: State, hash: Text -> Text, endWorks: bool)
    requires Ready(s)
    ensures Inv(NextRequested(s, hash, endWorks), hash)
  {
    hide Concat, UpdateRetried;
    RetryInv(s, hash);
  }

  lemma TimeoutInv(s: State, hash: Text -> Text, endWorks: bool)
    requires Inv(s, hash) && s.outcome.None?
    ensures Inv(TimedOut(s, hash, endWorks), hash)
  {
    hide Concat, NextRequested;
    if s.retries > 0 {
      NextInv(s.(armed := false, retries := s.retries - 1), hash, endWorks);
    }
  }

  lemma StopInv(s: State, hash: Text -> Text)
    requires s.config.Some?
    ensures Inv(Stopped(s, hash), hash)
  {}

  lemma TakenInv(s: State, index: nat, payload: Text, a: Answers, hash: Text -> Text)
    requires s.config.Some? && s.outcome.None? && !s.armed && s.flashed == Concat(s.accepted) + payload
    requires s.hashed == Concat(s.accepted) && index == |s.accepted| < s.total
    ensures Inv(Taken(s, index, payload, a, hash), hash)
  {
    ConcatAppend(s.accepted, payload);
    hide Concat, NextRequested, Stopped, Inv;
    var taken := s.(hashed := s.hashed + payload, requested := index + 1, accepted := s.accepted + [payload]);
    if a.stopped {
      StopInv(taken, hash);
    } else {
      NextInv(taken.(retries := taken.config.value.chunk_retries, requests := 0), hash, a.ended);
    }
  }

  lemma PacketInv(s: State, index: nat, payload: Text, a: Answers, hash: Text -> Text)
    requires Inv(s, hash) && s.outcome.None?
    ensures Inv(Processed(s, index, payload, a, hash), hash)
  {
    hide UpdateRetried, Taken;
    if index == s.requested {
      var t := s.(armed := false);
      assert index == 0 ==> Concat(s.accepted) == [];
      var begun := if index == 0 then t.(flashed := []) else t;
      var flashed := begun.(flashed := begun.flashed + Prefix(payload, a.written));
      RetryInv(t, hash);
      RetryInv(flashed, hash);
      if a.written == |payload| && a.hashed && (index == 0 ==> a.begun) {
        assert Prefix(payload, a.written) == payload;
        TakenInv(flashed, index, payload, a, hash);
      }
    }
  }

  lemma StepInv(s: State, e: Event, hash: Text -> Text)
    requires Inv(s, hash) && s.outcome.None? && s.config.Some?
    ensures Inv(After(s, e, hash), hash)
  {
    match e {
      case Packet(index, payload, a) => PacketInv(s, index, payload, a, hash);
      case Timeout(endWorks) => TimeoutInv(s, hash, endWorks);
      case Stop =>
    }
  }

  lemma StartInv(s: State, config: Config, fw_size: nat, checksum: Text, hash: Text -> Text)
    requires config.chunk_size > 0
    ensures Inv(Started(s, config, fw_size, checksum, true, hash), hash)
  {
    assert Concat([]) == [];
  }

  lemma {:induction false} RunInv(run: seq<State>, i: nat, hash: Text -> Text)
    requires IsRun(run, hash) && i < |run|
    ensures Inv(run[i], hash)
    decreases i
  {
    hide Inv, Started, After;
    if i == 0 {
      var s: State, config: Config, fw_size: nat, checksum: Text :|
        config.chunk_size > 0 && run[0] == Started(s, config, fw_size, checksum, true, hash);
      StartInv(s, config, fw_size, checksum, hash);
    } else {
      RunInv(run, i - 1, hash);
      assert StepAt(run, i, hash);
      var e: Event :| (e.Timeout? ==> run[i - 1].armed) && run[i] == After(run[i - 1], e, hash);
      StepInv(run[i - 1], e, hash);
    }
  }

  /** Until something is reported, what was flashed since `begin`, what was hashed since the hash was started, and the
      accepted chunks in order are the same bytes; a request for the next chunk is out, and was made at most as often as
      there are retries, and once. */
  lemma FlashedIsHashed(run: seq<State>, i: nat, hash: Text -> Text)
    requires IsRun(run, hash) && i < |run| && run[i].outcome.None?
    ensures run[i].flashed == run[i].hashed == Concat(run[i].accepted)
    ensures run[i].requested == |run[i].accepted| < run[i].total && run[i].armed && run[i].config.Some?
    ensures 1 <= run[i].requests <= 1 + run[i].config.value.chunk_retries
  {
    RunInv(run, i, hash);
  }

  /** Success is reported only when all chunks have been accepted, the flashed bytes have the expected checksum, and
      `end` has worked. */
  lemma SuccessIsEarned(run: seq<State>, i: nat, hash: Text -> Text)
    requires IsRun(run, hash) && i < |run| && run[i].outcome == Some(true)
    ensures |run[i].accepted| == run[i].total && run[i].flashed == Concat(run[i].accepted)
    ensures hash(run[i].flashed) == run[i].checksum && run[i].ended
  {
    RunInv(run, i, hash);
  }

  /** Once an end has been reported no watchdog is armed, so that no timeout follows; and if the user has stopped the
      update, the updater is reset and failure reported. */
  lemma QuietAfterReport(run: seq<State>, i: nat, hash: Text -> Text)
    requires IsRun(run, hash) && i < |run| && run[i].outcome.Some?
    ensures !run[i].armed
    ensures run[i].config.None? ==> run[i].flashed == [] && run[i].outcome == Some(false)
  {
    RunInv(run, i, hash);
  }

  /** Stopping disarms the watchdog, resets the updater, reports failure and forgets the user's callbacks, whatever has
      gone before; nothing is requested any more. */
  lemma StopAborts(s: State, hash: Text -> Text)
    requires s.config.Some?
    ensures var t := After(s, Stop, hash);
            && !t.armed && t.flashed == [] && t.outcome == Some(false) && t.config == None
            && t.requests == s.requests && t.requested == s.requested && t.hashed == s.hashed
            && t.accepted == s.accepted
  {}

  /** An update that lacks a callback or an updater reports failure at once, and requests and arms nothing. */
  lemma UnusableStartFails(s: State, config: Config, fw_size: nat, checksum: Text, hash: Text -> Text)
    requires config.chunk_size > 0
    ensures var t := Started(s, config, fw_size, checksum, false, hash);
            && t.outcome == Some(false) && t.armed == s.armed && t.requests == s.requests && t.flashed == s.flashed
            && t.config == Some(config) && t.checksum == checksum
  {}

  /** If the updater cannot be begun, does not write all bytes, or the hash fails, the update starts over with all the
      retries, nothing flashed, hashed or accepted, and chunk 0 requested once; without a retry left failure is
      reported and nothing requested. */
  lemma FailureRestarts(s: State, payload: Text, a: Answers, hash: Text -> Text)
    requires s.config.Some? && s.outcome.None?
    requires (s.requested == 0 && !a.begun) || a.written != |payload| || !a.hashed
    ensures var t := After(s, Packet(s.requested, payload, a), hash);
            && t.config == s.config && t.checksum == s.checksum && t.total == s.total
            && (s.retries == 0 ==> t.outcome == Some(false) && !t.armed && t.requests == s.requests)
            && (s.retries > 0 ==>
                  && t.outcome.None? && t.armed && t.requested == 0 && t.requests == 1
                  && t.retries == s.config.value.chunk_retries && t.flashed == t.hashed == [] && t.accepted == [])
            && (s.requested == 0 && !a.begun && s.retries == 0 ==> t.flashed == s.flashed)
  {}

  /** A packet with any other index changes nothing at all. */
  lemma OthersIgnored(s: State, index: nat, payload: Text, a: Answers, hash: Text -> Text)
    requires s.config.Some? && index != s.requested
    ensures After(s, Packet(index, payload, a), hash) == s
  {}

  // ---------------------------------------------------------------------------------------------
  // An undisturbed update
  // ---------------------------------------------------------------------------------------------

  function InOrder(s: State, chunks: seq<Text>, hash: Text -> Text): State
    requires s.config.Some?
    decreases |chunks|
  {
    if chunks == [] then s else
    var t := After(s, Packet(s.requested, chunks[0], Answers(true, |chunks[0]|, true, false, true)), hash);
    if t.config.None? then t else InOrder(t, chunks[1..], hash)
  }

  lemma AcceptOne(s: State, chunk: Text, hash: Text -> Text)
    requires Running(s)
    ensures var t := After(s, Packet(s.requested, chunk, Answers(true, |chunk|, true, false, true)), hash);
            && t.config == s.config && t.total == s.total && t.checksum == s.checksum
            && (s.requested + 1 < s.total ==>
                  Running(t) && t.outcome == s.outcome && t.accepted == s.accepted + [chunk])
            && (s.requested + 1 == s.total && s.checksum == hash(Concat(s.accepted + [chunk])) ==>
                  t.outcome == Some(true) && t.flashed == Concat(s.accepted + [chunk]))
            && (s.requested + 1 == s.total && s.checksum != hash(Concat(s.accepted + [chunk])) ==>
                  t.outcome != Some(true) || s.outcome == Some(true))
  {
    ConcatAppend(s.accepted, chunk);
    assert s.requested == 0 ==> Concat(s.accepted) == [];
    assert Prefix(chunk, |chunk|) == chunk;
  }

  lemma FirstOfRest(accepted: seq<Text>, chunks: seq<Text>)
    requires chunks != []
    ensures accepted + chunks == accepted + [chunks[0]] + chunks[1..]
    ensures |chunks| == 1 ==> accepted + chunks == accepted + [chunks[0]] && chunks[1..] == []
  {}

  /** If the remaining chunks come in order and nothing fails, success is reported exactly if the checksum fits. */
  lemma {:induction false} CompletesInOrder(s: State, chunks: seq<Text>, hash: Text -> Text)
    requires Running(s) && s.outcome == None && |chunks| == s.total - s.requested
    ensures var t := InOrder(s, chunks, hash);
            && (t.outcome == Some(true) <==> s.checksum == hash(Concat(s.accepted + chunks)))
            && (t.outcome == Some(true) ==> t.flashed == Concat(s.accepted + chunks))
    decreases |chunks|
  {
    AcceptOne(s, chunks[0], hash);
    hide After, Running;
    var t := After(s, Packet(s.requested, chunks[0], Answers(true, |chunks[0]|, true, false, true)), hash);
    FirstOfRest(s.accepted, chunks);
    if |chunks| == 1 {
      assert InOrder(t, [], hash) == t;
    } else {
      assert Running(t) && t.requested == s.requested + 1 by { RunningCounts(s, t); }
      CompletesInOrder(t, chunks[1..], hash);
    }
  }

  lemma RunningCounts(s: State, t: State)
    requires Running(s) && Running(t) && |t.accepted| == |s.accepted| + 1
    ensures t.requested == s.requested + 1 && t.config.Some?
  {}

  // ---------------------------------------------------------------------------------------------
  // Giving up
  // ---------------------------------------------------------------------------------------------

  /** What an undisturbed pass comes to if the checksum is wrong: the end if chunks are not retried at all, and
      otherwise a new start with all the retries. */
  lemma {:induction false} WrongChecksumRestarts(s: State, chunks: seq<Text>, hash: Text -> Text)
    requires Running(s) && s.outcome == None && |chunks| == s.total - s.requested
    requires s.checksum != hash(Concat(s.accepted + chunks))
    ensures var t := InOrder(s, chunks, hash);
            && (t.outcome == Some(false) <==> s.config.value.chunk_retries == 0)
            && (s.config.value.chunk_retries > 0 ==>
                  && Running(t) && t.outcome == None && t.requested == 0 && t.requests == 1
                  && t.config == s.config && t.checksum == s.checksum && t.total == s.total)
    decreases |chunks|
  {
    var t := After(s, Packet(s.requested, chunks[0], Answers(true, |chunks[0]|, true, false, true)), hash);
    AcceptOne(s, chunks[0], hash);
    FirstOfRest(s.accepted, chunks);
    if |chunks| == 1 {
      LastFails(s, chunks[0], hash);
      hide After, Running;
      assert InOrder(t, [], hash) == t;
    } else {
      hide After, Running;
      RunningCounts(s, t);
      WrongChecksumRestarts(t, chunks[1..], hash);
    }
  }

  lemma LastFails(s: State, chunk: Text, hash: Text -> Text)
    requires Running(s) && s.outcome == None && s.requested + 1 == s.total
    requires s.checksum != hash(Concat(s.accepted + [chunk]))
    ensures var t := After(s, Packet(s.requested, chunk, Answers(true, |chunk|, true, false, true)), hash);
            if s.config.value.chunk_retries == 0 then t.outcome == Some(false)
            else
              && Running(t) && t.outcome == None && t.requested == 0 && t.requests == 1
              && t.config == s.config && t.checksum == s.checksum && t.total == s.total
  {
    ConcatAppend(s.accepted, chunk);
    assert s.requested == 0 ==> Concat(s.accepted) == [];
    assert Prefix(chunk, |chunk|) == chunk;
    assert Concat([]) == [];
  }

  function Passes(s: State, passes: seq<seq<Text>>, hash: Text -> Text): State
    requires s.config.Some?
    decreases |passes|
  {
    if passes == [] then s else
    var t := InOrder(s, passes[0], hash);
    if t.config.None? then t else Passes(t, passes[1..], hash)
  }

  /** So with retries an update whose checksum never fits never comes to an end, however often all chunks come. */
  lemma {:induction false} NeverGivesUp(s: State, passes: seq<seq<Text>>, hash: Text -> Text)
    requires Running(s) && s.outcome == None && s.requested == 0 && s.config.value.chunk_retries > 0
    requires forall p :: p in passes ==> |p| == s.total && hash(Concat(p)) != s.checksum
    ensures var t := Passes(s, passes, hash); Running(t) && t.outcome == None && t.requested == 0
    decreases |passes|
  {
    if passes != [] {
      assert s.accepted == [] && [] + passes[0] == passes[0];
      WrongChecksumRestarts(s, passes[0], hash);
      NeverGivesUp(InOrder(s, passes[0], hash), passes[1..], hash);
    }
  }

  lemma FailureOfStep(s: State, e: Event, hash: Text -> Text)
    requires Running(s) && s.outcome.None? && After(s, e, hash).outcome == Some(false)
    ensures s.requests == 1 + s.config.value.chunk_retries || After(s, e, hash).config.None?
  {}

  /** Failure is reported only when the user has stopped the update, or when the chunk that is waited for has been
      requested once and for every retry. */
  lemma FailureIsEarned(run: seq<State>, i: nat, hash: Text -> Text)
    requires IsRun(run, hash) && 0 < i < |run| && run[i].outcome == Some(false)
    ensures run[i - 1].config.Some?
    ensures run[i].config.None? || run[i - 1].requests == 1 + run[i - 1].config.value.chunk_retries
  {
    hide Running, Started, After;
    assert StepAt(run, i, hash);
    RunInv(run, i - 1, hash);
    var e: Event :| (e.Timeout? ==> run[i - 1].armed) && run[i] == After(run[i - 1], e, hash);
    FailureOfStep(run[i - 1], e, hash);
  }

  // ---------------------------------------------------------------------------------------------
  // The last chunk
  // ---------------------------------------------------------------------------------------------

  function CarryingBytes(chunks: seq<Text>): nat {
    if chunks == [] then 0
    else CarryingBytes(chunks[..|chunks| - 1]) + if chunks[|chunks| - 1] == [] then 0 else 1
  }

  function Times(n: nat, size: nat): nat {
    n * size
  }

  lemma TimesNext(n: nat, size: nat)
    ensures Times(0, size) == 0 && Times(n + 1, size) == Times(n, size) + size
  {}

  lemma Division(a: nat, size: nat)
    requires size > 0
    ensures a == Times(a / size, size) + a % size
  {}

  lemma {:induction false} FullChunks(chunks: seq<Text>, size: nat)
    requires size > 0 && forall i :: 0 <= i < |chunks| ==> |chunks[i]| == size
    ensures |Concat(chunks)| == Times(|chunks|, size) && CarryingBytes(chunks) == |chunks|
    decreases |chunks|
  {
    hide Times;
    if chunks == [] {
      TimesNext(0, size);
    } else {
      TimesNext(|chunks| - 1, size);
      FullChunks(chunks[..|chunks| - 1], size);
    }
  }

  /** The image in full chunks and one more, as many as are waited for: that last one holds what is left over. If the
      chunk size divides the size of the image, nothing is, and all bytes have come with the chunk before. */
  lemma LastChunk(chunks: seq<Text>, fw_size: nat, chunk_size: nat)
    requires chunk_size > 0 && |chunks| == TotalChunks(fw_size, chunk_size) && |Concat(chunks)| == fw_size
    requires forall i :: 0 <= i < |chunks| - 1 ==> |chunks[i]| == chunk_size
    ensures |chunks[|chunks| - 1]| == fw_size % chunk_size
    ensures CarryingBytes(chunks) == |chunks| - 1 <==> fw_size % chunk_size == 0
  {
    var full, last := chunks[..|chunks| - 1], chunks[|chunks| - 1];
    FullChunks(full, chunk_size);
    hide Times;
    Division(fw_size, chunk_size);
  }

  /** So an update whose size the chunk size divides succeeds only with an empty packet behind the image. */
  lemma SuccessNeedsRemainder(run: seq<State>, i: nat, fw_size: nat, chunk_size: nat, hash: Text -> Text)
    requires IsRun(run, hash) && i < |run| && run[i].outcome == Some(true)
    requires chunk_size > 0 && run[i].total == TotalChunks(fw_size, chunk_size) && |run[i].flashed| == fw_size
    requires forall j :: 0 <= j < |run[i].accepted| - 1 ==> |run[i].accepted[j]| == chunk_size
    ensures run[i].accepted != [] && |run[i].accepted[|run[i].accepted| - 1]| == fw_size % chunk_size
  {
    SuccessIsEarned(run, i, hash);
    LastChunk(run[i].accepted, fw_size, chunk_size);
  }
}
