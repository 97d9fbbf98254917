/** The server's session with one client (handle_client): position the ships, expect START_GAME,
    answer with POSITIONING_SHIPS and SHIPS_IN_POSITION, then answer every SHOT with HIT, MISS or an
    ERROR until all 14 ship cells are hit, and close with GAME_OVER and the score. Any other message,
    a frame that does not parse, or a disconnect ends the session with one ERROR. The received
    messages are a parameter, and so are the samples that position_ships would draw. */
module Server {
  import opened Wrappers
  import opened Ascii
  import opened GameModel
  import opened Coordinates
  import P = Protocol

  /** The error texts the session sends. */
  const InvalidCoordinate: string := "Invalid coordinate format"
  const InternalError: string := "Internal server error"

  /** send_message(ERROR, {'message': text}). */
  function ErrorFrame(text: string): P.Frame
  {
    P.CreateMessage(P.Error, Some(map["message" := P.JString(text)]))
  }

  /** send_message(t) without a payload. */
  function Reply(t: P.MessageType): P.Frame
  {
    P.CreateMessage(t, None)
  }

  /** send_message(GAME_OVER, {'score': score}). */
  function GameOverFrame(score: nat): P.Frame
  {
    P.CreateMessage(P.GameOver, Some(map["score" := P.JNumber(score)]))
  }

  /** Replies without a payload are told apart by their type. */
  lemma RepliesDistinct(t: P.MessageType, u: P.MessageType)
    ensures Reply(t) == Reply(u) ==> t == u
  {
    P.TagRoundTrip(t);
    P.TagRoundTrip(u);
  }

  /** An ERROR carries a "message" in its payload and GAME_OVER a "score"; a bare reply carries
      neither. */
  lemma PayloadsDiffer(text: string, score: nat, t: P.MessageType)
    ensures ErrorFrame(text) != Reply(t) && GameOverFrame(score) != Reply(t)
  {
    assert "message" in ErrorFrame(text).doc.value.fields["data"].fields;
    assert "score" in GameOverFrame(score).doc.value.fields["data"].fields;
  }

  // ---------------------------------------------------------------------------------------------
  // The coordinate of a SHOT

  /** What the shot loop does with a SHOT's payload: shoot at a coordinate, answer "Invalid coordinate
      format", or fail with an exception that is not a ProtocolError. */
  datatype Target = Aim(coord: string) | Rejected | Fault

  /** `data.get('coordinate', '')`, validate_coordinate, and process_shot's _coord_to_indices, on
      whatever JSON the payload holds. A payload that is not an object has no `.get`. A two-element
      list of strings can pass validate_coordinate; _coord_to_indices then accepts it only when both
      are single characters (`ALPHABET.index` needs one letter, and a longer digit string indexes
      past the grid). */
  function ShotTarget(data: P.JValue): (r: Target)
    ensures r.Aim? ==> Indexable(r.coord)
    ensures data.JObject? && "coordinate" in data.fields && data.fields["coordinate"].JString? ==>
      r == if P.ValidateCoordinate(data.fields["coordinate"].str) then Aim(data.fields["coordinate"].str) else Rejected
    ensures data.JObject? && "coordinate" !in data.fields ==> r == Rejected
    ensures !data.JObject? ==> r == Fault
  {
    match data
    case JObject(fields) =>
      var v := if "coordinate" in fields then fields["coordinate"] else P.JString("");
      (match P.CheckCoordinate(v)
       case Reject => Rejected
       case Raise => Fault
       case Accept =>
         if v.JString? then
           ValidIsIndexable(v.str);
           Aim(v.str)
         else
           var col, row := v.items[0].str, v.items[1].str;
           if |col| == 1 && |row| == 1 then
             ListCoordinate(col, row);
             Aim(col + row)
           else Fault)
    case _ => Fault
  }

  // ---------------------------------------------------------------------------------------------
  // The session as a function of the received messages

  /** How a session ends: GAME_OVER sent; ended by an error; still waiting for a message when the
      messages run out; or still positioning ships when the samples run out. */
  datatype SessionEnd = Completed | Aborted | Waiting | Unplaced

  /** The frames sent, how the session ended, and how many messages it read. */
  datatype Trace = Trace(out: seq<P.Frame>, end: SessionEnd, read: nat)

  /** `f` sent before the rest of the session. */
  function Then(f: P.Frame, t: Trace): (r: Trace)
    ensures r.out == [f] + t.out && r.end == t.end && r.read == t.read
  {
    Trace([f] + t.out, t.end, t.read)
  }

  /** The shot loop's answer to one message: a frame, and either the board to continue with or the
      end of the session. */
  datatype Response = Continue(frame: P.Frame, next: BoardState) | Stop(frame: P.Frame)

  /** One pass of the shot loop on board `s` that has read `m`. Only a valid SHOT changes the board;
      a SHOT with a bad coordinate gets "Invalid coordinate format" and the loop goes on; anything
      else ends the session with an ERROR. */
  function Respond(s: BoardState, m: P.Received): (r: Response)
    requires Consistent(s)
    ensures r.Continue? ==> Consistent(r.next) && Fleet(r.next.cells) == Fleet(s.cells)
    ensures r.Continue? <==> m.Got? && m.kind == P.Shot && !ShotTarget(m.data).Fault?
    ensures r.Continue? && ShotTarget(m.data).Rejected? ==> r == Continue(ErrorFrame(InvalidCoordinate), s)
    ensures r.Continue? && ShotTarget(m.data).Aim? ==> var n := CellOf(ShotTarget(m.data).coord);
      r == Continue(Reply(if s.cells[n] == Ship then P.Hit else P.Miss), Shoot(s, n).0)
  {
    match m
    case Got(kind, data) =>
      if kind != P.Shot then Stop(ErrorFrame("Expected SHOT, got " + P.TagText(kind)))
      else
        (match ShotTarget(data)
         case Rejected => Continue(ErrorFrame(InvalidCoordinate), s)
         case Fault => Stop(ErrorFrame(InternalError))
         case Aim(coord) =>
           ShootResolves(s, CellOf(coord));
           var (s', r) := Shoot(s, CellOf(coord));
           Continue(Reply(if r.isHit then P.Hit else P.Miss), s'))
    case ProtocolError(text) => Stop(ErrorFrame(text))
    case Crash => Stop(ErrorFrame(InternalError))
  }

  /** The shot loop from board `s` with msgs[pos..] still to read: `while not game.is_game_over()`,
      then GAME_OVER with the score. */
  function ShotLoop(s: BoardState, msgs: seq<P.Received>, pos: nat): (t: Trace)
    requires Consistent(s) && pos <= |msgs|
    ensures pos <= t.read <= |msgs|
    decreases |msgs| - pos
  {
    if IsOver(s) then Trace([GameOverFrame(s.shots)], Completed, pos)
    else if pos == |msgs| then Trace([], Waiting, pos)
    else
      match Respond(s, msgs[pos])
      case Continue(f, s') => Then(f, ShotLoop(s', msgs, pos + 1))
      case Stop(f) => Trace([f], Aborted, pos + 1)
  }

  /** The board the shot loop from `s` is left with when it ends: the board it completes on, the board
      before the message that ends the session, or the board reached when the messages run out. */
  function FinalBoard(s: BoardState, msgs: seq<P.Received>, pos: nat): (f: BoardState)
    requires Consistent(s) && pos <= |msgs|
    ensures Consistent(f) && Fleet(f.cells) == Fleet(s.cells)
    decreases |msgs| - pos
  {
    if IsOver(s) || pos == |msgs| then s
    else
      match Respond(s, msgs[pos])
      case Continue(_, s') => FinalBoard(s', msgs, pos + 1)
      case Stop(_) => s
  }

  /** handle_client after position_ships, on board `s`. */
  function Session(s: BoardState, msgs: seq<P.Received>): (t: Trace)
    requires Consistent(s)
    ensures t.read <= |msgs|
  {
    if msgs == [] then Trace([], Waiting, 0)
    else
      match msgs[0]
      case Got(kind, _) =>
        if kind == P.StartGame then Then(Reply(P.PositioningShips), Then(Reply(P.ShipsInPosition), ShotLoop(s, msgs, 1)))
        else Trace([ErrorFrame("Expected START_GAME, got " + P.TagText(kind))], Aborted, 1)
      case ProtocolError(text) => Trace([ErrorFrame(text)], Aborted, 1)
      case Crash => Trace([ErrorFrame(InternalError)], Aborted, 1)
  }

  /** The board position_ships leaves from the samples `draws`, or None when they run out first. */
  function Positioned(draws: seq<Draw>): (r: Option<BoardState>)
    ensures r.Some? ==> Consistent(r.value) && Fleet(r.value.cells) == ShipCells && r.value.hits == 0 && r.value.shots == 0
  {
    PositionOnFreshBoard(draws);
    match Arrange(EmptyCells(), Catalogue(), 0, draws, 0)
    case Some((cells, _)) => Some(BoardState(cells, 0, 0))
    case None => None
  }

  // ---------------------------------------------------------------------------------------------
  // What the session promises

  /** A board whose ships occupy 14 cells, with counters that agree with its cells. */
  predicate Deployed(s: BoardState)
  {
    Consistent(s) && Fleet(s.cells) == ShipCells
  }

  /** The number of HIT replies among `out`. */
  function Hits(out: seq<P.Frame>): nat
  {
    if out == [] then 0 else (if out[0] == Reply(P.Hit) then 1 else 0) + Hits(out[1..])
  }

  /** If the first message is not START_GAME the server sends one ERROR, nothing else, and stops.
      The ERROR names what it got, or carries the parse error, or says "Internal server error". */
  lemma HandshakeRejected(s: BoardState, msgs: seq<P.Received>)
    requires Consistent(s) && |msgs| > 0
    requires !(msgs[0].Got? && msgs[0].kind == P.StartGame)
    ensures var t := Session(s, msgs); var m := msgs[0];
      && t.end == Aborted && t.read == 1 && |t.out| == 1 && Reply(P.PositioningShips) !in t.out
      && (m.Got? ==> t.out[0] == ErrorFrame("Expected START_GAME, got " + P.TagText(m.kind)))
      && (m.ProtocolError? ==> t.out[0] == ErrorFrame(m.text))
      && (m.Crash? ==> t.out[0] == ErrorFrame(InternalError))
  {
    match msgs[0] {
      case Got(k, _) => PayloadsDiffer("Expected START_GAME, got " + P.TagText(k), 0, P.PositioningShips);
      case ProtocolError(text) => PayloadsDiffer(text, 0, P.PositioningShips);
      case Crash => PayloadsDiffer(InternalError, 0, P.PositioningShips);
    }
  }

  /** After START_GAME the first two frames are POSITIONING_SHIPS then SHIPS_IN_POSITION. */
  lemma HandshakeAccepted(s: BoardState, msgs: seq<P.Received>)
    requires Consistent(s) && |msgs| > 0 && msgs[0].Got? && msgs[0].kind == P.StartGame
    ensures var t := Session(s, msgs);
      |t.out| >= 2 && t.out[0] == Reply(P.PositioningShips) && t.out[1] == Reply(P.ShipsInPosition) && t.read >= 1
  {
  }

  /** Every message the shot loop reads gets exactly one frame back, and GAME_OVER is one more. */
  lemma {:induction false} LoopRepliesOncePerRead(s: BoardState, msgs: seq<P.Received>, pos: nat)
    requires Consistent(s) && pos <= |msgs|
    ensures var t := ShotLoop(s, msgs, pos);
      |t.out| == t.read - pos + (if t.end == Completed then 1 else 0) && t.end != Unplaced
    decreases |msgs| - pos
  {
    if !IsOver(s) && pos < |msgs| {
      match Respond(s, msgs[pos]) {
        case Continue(_, s') => LoopRepliesOncePerRead(s', msgs, pos + 1);
        case Stop(_) =>
      }
    }
  }

  /** Over a whole session: two acknowledgements, then one frame per message read after START_GAME,
      and GAME_OVER; a rejected first message gets its one ERROR. */
  lemma RepliesOncePerRead(s: BoardState, msgs: seq<P.Received>)
    requires Consistent(s)
    ensures var t := Session(s, msgs);
      if |msgs| > 0 && msgs[0].Got? && msgs[0].kind == P.StartGame
      then |t.out| == t.read + 1 + (if t.end == Completed then 1 else 0)
      else |t.out| == t.read
  {
    if |msgs| > 0 && msgs[0].Got? && msgs[0].kind == P.StartGame {
      LoopRepliesOncePerRead(s, msgs, 1);
    }
  }

  /** A valid SHOT gets one reply, HIT when its cell held a ship and MISS otherwise, and the loop goes
      on with the shot resolved. */
  lemma ValidShotReply(s: BoardState, msgs: seq<P.Received>, pos: nat)
    requires Consistent(s) && !IsOver(s) && pos < |msgs|
    requires msgs[pos].Got? && msgs[pos].kind == P.Shot
    requires ShotTarget(msgs[pos].data).Aim?
    ensures var n := CellOf(ShotTarget(msgs[pos].data).coord);
      ShotLoop(s, msgs, pos) == Then(Reply(if s.cells[n] == Ship then P.Hit else P.Miss), ShotLoop(Shoot(s, n).0, msgs, pos + 1))
  {
  }

  /** A SHOT at a cell already shot at gets MISS and changes nothing. */
  lemma RepeatShotMisses(s: BoardState, msgs: seq<P.Received>, pos: nat)
    requires Consistent(s) && !IsOver(s) && pos < |msgs|
    requires msgs[pos].Got? && msgs[pos].kind == P.Shot
    requires ShotTarget(msgs[pos].data).Aim?
    requires var n := CellOf(ShotTarget(msgs[pos].data).coord); s.cells[n] == Hit || s.cells[n] == Miss
    ensures ShotLoop(s, msgs, pos) == Then(Reply(P.Miss), ShotLoop(s, msgs, pos + 1))
  {
  }

  /** Two SHOTs in a row at the same cell: unless the first ends the game, the second gets MISS. */
  lemma SecondShotMisses(s: BoardState, msgs: seq<P.Received>, pos: nat)
    requires Consistent(s) && !IsOver(s) && pos + 1 < |msgs|
    requires forall k | pos <= k <= pos + 1 :: msgs[k].Got? && msgs[k].kind == P.Shot
    requires ShotTarget(msgs[pos].data).Aim? && ShotTarget(msgs[pos + 1].data).Aim?
    requires CellOf(ShotTarget(msgs[pos].data).coord) == CellOf(ShotTarget(msgs[pos + 1].data).coord)
    requires !IsOver(Shoot(s, CellOf(ShotTarget(msgs[pos].data).coord)).0)
    ensures |ShotLoop(s, msgs, pos).out| >= 2 && ShotLoop(s, msgs, pos).out[1] == Reply(P.Miss)
  {
    var n := CellOf(ShotTarget(msgs[pos].data).coord);
    ShootResolves(s, n);
    ValidShotReply(s, msgs, pos);
    RepeatShotMisses(Shoot(s, n).0, msgs, pos + 1);
  }

  /** A SHOT whose coordinate is missing or invalid gets "Invalid coordinate format" and the loop goes
      on with the board unchanged. */
  lemma InvalidCoordinateContinues(s: BoardState, msgs: seq<P.Received>, pos: nat)
    requires Consistent(s) && !IsOver(s) && pos < |msgs|
    requires msgs[pos].Got? && msgs[pos].kind == P.Shot
    requires ShotTarget(msgs[pos].data).Rejected?
    ensures ShotLoop(s, msgs, pos) == Then(ErrorFrame(InvalidCoordinate), ShotLoop(s, msgs, pos + 1))
  {
  }

  /** In the shot loop, a message that is not a SHOT, or a frame that does not parse, gets one ERROR
      and ends the session. */
  lemma LoopErrorEnds(s: BoardState, msgs: seq<P.Received>, pos: nat)
    requires Consistent(s) && !IsOver(s) && pos < |msgs|
    requires !(msgs[pos].Got? && msgs[pos].kind == P.Shot)
    ensures var t := ShotLoop(s, msgs, pos); var m := msgs[pos];
      && t.end == Aborted && t.read == pos + 1 && |t.out| == 1
      && (m.Got? ==> t.out[0] == ErrorFrame("Expected SHOT, got " + P.TagText(m.kind)))
      && (m.ProtocolError? ==> t.out[0] == ErrorFrame(m.text))
      && (m.Crash? ==> t.out[0] == ErrorFrame(InternalError))
  {
  }

  /** One pass of the shot loop, on a board where the game is not over and a message is left. */
  lemma LoopStep(s: BoardState, msgs: seq<P.Received>, pos: nat)
    requires Consistent(s) && !IsOver(s) && pos < |msgs|
    ensures var r := Respond(s, msgs[pos]);
      ShotLoop(s, msgs, pos) == if r.Continue? then Then(r.frame, ShotLoop(r.next, msgs, pos + 1)) else Trace([r.frame], Aborted, pos + 1)
  {
  }

  /** A pass that continues: the loop is its frame followed by the loop from the next board, and it
      ends on the board that loop ends on. */
  lemma LoopContinues(s: BoardState, msgs: seq<P.Received>, pos: nat, f: P.Frame, s': BoardState)
    requires Consistent(s) && !IsOver(s) && pos < |msgs| && Respond(s, msgs[pos]) == Continue(f, s')
    ensures Consistent(s')
    ensures ShotLoop(s, msgs, pos) == Then(f, ShotLoop(s', msgs, pos + 1))
    ensures FinalBoard(s, msgs, pos) == FinalBoard(s', msgs, pos + 1)
  {
  }

  /** Sending one more frame first keeps the last frame of a session that sends any. */
  lemma LastOfThen(f: P.Frame, t: Trace)
    ensures |t.out| > 0 ==> Then(f, t).out[|Then(f, t).out| - 1] == t.out[|t.out| - 1]
  {
  }

  /** Counting HITs frame by frame. */
  lemma HitsThen(f: P.Frame, t: Trace)
    ensures Hits(Then(f, t).out) == (if f == Reply(P.Hit) then 1 else 0) + Hits(t.out)
  {
    assert Then(f, t).out[1..] == t.out;
  }

  /** HIT replies count the ship cells hit: never more than remain, and when the loop completes
      exactly that many. */
  lemma {:induction false} LoopHits(s: BoardState, msgs: seq<P.Received>, pos: nat)
    requires Deployed(s) && pos <= |msgs|
    ensures s.hits <= ShipCells
    ensures var t := ShotLoop(s, msgs, pos);
      Hits(t.out) <= ShipCells - s.hits && (t.end == Completed ==> Hits(t.out) == ShipCells - s.hits)
    decreases |msgs| - pos
  {
    BoardBounds(s);
    if IsOver(s) {
      PayloadsDiffer("", s.shots, P.Hit);
      HitsThen(GameOverFrame(s.shots), Trace([], Completed, pos));
    } else if pos < |msgs| {
      var m := msgs[pos];
      var r := Respond(s, m);
      LoopStep(s, msgs, pos);
      if r.Continue? {
        LoopHits(r.next, msgs, pos + 1);
        HitsThen(r.frame, ShotLoop(r.next, msgs, pos + 1));
        ContinueHits(s, m);
      } else {
        StopHits(s, m);
        HitsThen(r.frame, Trace([], Aborted, pos + 1));
      }
    }
  }

  /** GAME_OVER with a score a completed game can have: every one of the 14 ship cells was shot at,
      and no cell more than once. */
  predicate ClosesGame(f: P.Frame)
  {
    exists score: nat | ShipCells <= score <= CellCount :: f == GameOverFrame(score)
  }

  /** A loop that completes sends GAME_OVER last, with the shot_count of the board it ends on, where
      every ship cell is hit. */
  lemma {:induction false} LoopFinalScore(s: BoardState, msgs: seq<P.Received>, pos: nat)
    requires Consistent(s) && pos <= |msgs|
    ensures var t := ShotLoop(s, msgs, pos); var f := FinalBoard(s, msgs, pos);
      t.end == Completed ==> |t.out| > 0 && t.out[|t.out| - 1] == GameOverFrame(f.shots) && IsOver(f)
    decreases |msgs| - pos
  {
    if !IsOver(s) && pos < |msgs| && Respond(s, msgs[pos]).Continue? {
      var r := Respond(s, msgs[pos]);
      LoopContinues(s, msgs, pos, r.frame, r.next);
      LoopFinalScore(r.next, msgs, pos + 1);
      LastOfThen(r.frame, ShotLoop(r.next, msgs, pos + 1));
    }
  }

  /** A loop that completes ends with GAME_OVER whose score is get_score() on the board it completes on:
      the number of cells that board holds as HIT or MISS, with no SHIP cell left, so between 14 and 81. */
  lemma LoopEndsWithGameOver(s: BoardState, msgs: seq<P.Received>, pos: nat)
    requires Deployed(s) && pos <= |msgs|
    ensures var t := ShotLoop(s, msgs, pos); var f := FinalBoard(s, msgs, pos);
      t.end == Completed ==>
        && |t.out| > 0 && t.out[|t.out| - 1] == GameOverFrame(f.shots)
        && f.shots == Count(f.cells, Hit) + Count(f.cells, Miss)
        && IsOver(f) && Count(f.cells, Ship) == 0
        && ClosesGame(t.out[|t.out| - 1])
  {
    var f := FinalBoard(s, msgs, pos);
    LoopFinalScore(s, msgs, pos);
    BoardBounds(f);
  }

  /** When a ship cell was still afloat, a loop that completes sends the HIT that sank the last one
      right before GAME_OVER. */
  lemma {:induction false} LoopLastHit(s: BoardState, msgs: seq<P.Received>, pos: nat)
    requires Deployed(s) && !IsOver(s) && pos <= |msgs|
    ensures var t := ShotLoop(s, msgs, pos); t.end == Completed ==> |t.out| >= 2 && t.out[|t.out| - 2] == Reply(P.Hit)
    decreases |msgs| - pos
  {
    if pos < |msgs| {
      var m := msgs[pos];
      var r := Respond(s, m);
      LoopStep(s, msgs, pos);
      if r.Continue? {
        var t := ShotLoop(s, msgs, pos);
        var rest := ShotLoop(r.next, msgs, pos + 1);
        if IsOver(r.next) {
          LastShotHits(s, m);
          assert t.out == [r.frame, GameOverFrame(r.next.shots)];
        } else {
          LoopLastHit(r.next, msgs, pos + 1);
          if rest.end == Completed {
            assert t.out[|t.out| - 2] == rest.out[|rest.out| - 2];
          }
        }
      }
    }
  }

  /** A pass that ends the game was a HIT. */
  lemma LastShotHits(s: BoardState, m: P.Received)
    requires Deployed(s) && !IsOver(s) && Respond(s, m).Continue? && IsOver(Respond(s, m).next)
    ensures Respond(s, m).frame == Reply(P.Hit)
  {
    ContinueHits(s, m);
  }

  /** A pass that continues sends HIT exactly when it hits, and then adds one hit. */
  lemma ContinueHits(s: BoardState, m: P.Received)
    requires Consistent(s) && Respond(s, m).Continue?
    ensures var r := Respond(s, m);
      (r.frame == Reply(P.Hit) ==> r.next.hits == s.hits + 1) && (r.frame != Reply(P.Hit) ==> r.next.hits == s.hits)
  {
    PayloadsDiffer(InvalidCoordinate, 0, P.Hit);
    RepliesDistinct(P.Miss, P.Hit);
    if ShotTarget(m.data).Aim? {
      ShootResolves(s, CellOf(ShotTarget(m.data).coord));
    }
  }

  /** A pass that ends the session sends an ERROR, which is not a HIT. */
  lemma StopHits(s: BoardState, m: P.Received)
    requires Consistent(s) && Respond(s, m).Stop?
    ensures Respond(s, m).frame != Reply(P.Hit)
  {
    match m {
      case Got(k, _) =>
        PayloadsDiffer("Expected SHOT, got " + P.TagText(k), 0, P.Hit);
        PayloadsDiffer(InternalError, 0, P.Hit);
      case ProtocolError(text) => PayloadsDiffer(text, 0, P.Hit);
      case Crash => PayloadsDiffer(InternalError, 0, P.Hit);
    }
  }

  /** A session on a freshly positioned board sends at most 14 HITs; one that completes sends exactly
      14 of them and ends with GAME_OVER whose score is the final board's shot_count, the number of
      cells fired at, between 14 and 81. */
  lemma SessionHits(s: BoardState, msgs: seq<P.Received>)
    requires Deployed(s) && s.hits == 0
    ensures var t := Session(s, msgs);
      && Hits(t.out) <= ShipCells
      && (t.end == Completed ==>
            && |msgs| > 0 && Hits(t.out) == ShipCells
            && t.out[|t.out| - 1] == GameOverFrame(FinalBoard(s, msgs, 1).shots)
            && FinalBoard(s, msgs, 1).shots == Count(FinalBoard(s, msgs, 1).cells, Hit) + Count(FinalBoard(s, msgs, 1).cells, Miss)
            && IsOver(FinalBoard(s, msgs, 1))
            && ClosesGame(t.out[|t.out| - 1]))
  {
    var t := Session(s, msgs);
    if |msgs| > 0 && msgs[0].Got? && msgs[0].kind == P.StartGame {
      LoopHits(s, msgs, 1);
      LoopEndsWithGameOver(s, msgs, 1);
      var loop := ShotLoop(s, msgs, 1);
      assert t == Then(Reply(P.PositioningShips), Then(Reply(P.ShipsInPosition), loop));
      HitsThen(Reply(P.PositioningShips), Then(Reply(P.ShipsInPosition), loop));
      HitsThen(Reply(P.ShipsInPosition), loop);
      RepliesDistinct(P.PositioningShips, P.Hit);
      RepliesDistinct(P.ShipsInPosition, P.Hit);
      if t.end == Completed {
        assert t.out[|t.out| - 1] == loop.out[|loop.out| - 1];
      }
    } else if |msgs| > 0 {
      StopFrame(s, msgs);
    }
  }

  /** A session that does not start sends no HIT. */
  lemma StopFrame(s: BoardState, msgs: seq<P.Received>)
    requires Consistent(s) && |msgs| > 0
    requires !(msgs[0].Got? && msgs[0].kind == P.StartGame)
    ensures Hits(Session(s, msgs).out) == 0
  {
    match msgs[0] {
      case Got(k, _) => PayloadsDiffer("Expected START_GAME, got " + P.TagText(k), 0, P.Hit);
      case ProtocolError(text) => PayloadsDiffer(text, 0, P.Hit);
      case Crash => PayloadsDiffer(InternalError, 0, P.Hit);
    }
  }

  // ---------------------------------------------------------------------------------------------
  // The session as the server runs it

  /** The frames `sent` so far, followed by the rest of the session `t`. */
  function Prepend(sent: seq<P.Frame>, t: Trace): (r: Trace)
    ensures r.out == sent + t.out && r.end == t.end && r.read == t.read
  {
    Trace(sent + t.out, t.end, t.read)
  }

  /** A session that starts with START_GAME sends the two acknowledgements, then runs the shot loop. */
  lemma SessionStarts(s: BoardState, msgs: seq<P.Received>)
    requires Consistent(s) && |msgs| > 0 && msgs[0].Got? && msgs[0].kind == P.StartGame
    ensures Session(s, msgs) == Prepend([Reply(P.PositioningShips), Reply(P.ShipsInPosition)], ShotLoop(s, msgs, 1))
  {
    var loop := ShotLoop(s, msgs, 1);
    assert [Reply(P.PositioningShips)] + ([Reply(P.ShipsInPosition)] + loop.out)
        == [Reply(P.PositioningShips), Reply(P.ShipsInPosition)] + loop.out;
  }

  /** handle_client: builds and positions a board, then receives the frames of `inbox` one at a time and
      returns the frames it sent, how the session ended and how many messages it read. */
  method HandleClient(draws: seq<Draw>, inbox: seq<P.Incoming>) returns (outbox: seq<P.Frame>, end: SessionEnd, read: nat)
    ensures Positioned(draws).None? ==> outbox == [] && end == Unplaced && read == 0
    ensures Positioned(draws).Some? ==> Trace(outbox, end, read) == Session(Positioned(draws).value, P.ReceiveEach(inbox))
  {
    var game := new GameBoard();
    var ok := game.PositionShips(draws);
    if !ok {
      return [], Unplaced, 0;
    }
    assert Positioned(draws) == Some(game.State());
    var msgs := P.ReceiveEach(inbox);
    if msgs == [] {
      return [], Waiting, 0;
    }
    match msgs[0] {
      case ProtocolError(text) =>
        return [ErrorFrame(text)], Aborted, 1;
      case Crash =>
        return [ErrorFrame(InternalError)], Aborted, 1;
      case Got(kind, _) =>
        if kind != P.StartGame {
          return [ErrorFrame("Expected START_GAME, got " + P.TagText(kind))], Aborted, 1;
        }
    }
    SessionStarts(game.State(), msgs);
    var sent;
    sent, end, read := ServeShots(game, msgs, 1);
    outbox := [Reply(P.PositioningShips), Reply(P.ShipsInPosition)] + sent;
  }

  /** The `while not game.is_game_over()` loop of handle_client and the GAME_OVER after it, reading
      from msgs[start..]: returns the frames it sent, how it ended and where it stopped reading. */
  method ServeShots(game: GameBoard, msgs: seq<P.Received>, start: nat) returns (sent: seq<P.Frame>, end: SessionEnd, read: nat)
    requires game.Valid() && start <= |msgs|
    modifies game, game.board
    ensures game.Valid()
    ensures Trace(sent, end, read) == ShotLoop(old(game.State()), msgs, start)
    ensures game.State() == FinalBoard(old(game.State()), msgs, start) && game.ships == old(game.ships)
  {
    sent := [];
    var pos := start;
    while true
      invariant game.Valid() && start <= pos <= |msgs|
      invariant Prepend(sent, ShotLoop(game.State(), msgs, pos)) == ShotLoop(old(game.State()), msgs, start)
      invariant FinalBoard(game.State(), msgs, pos) == FinalBoard(old(game.State()), msgs, start)
      invariant game.ships == old(game.ships)
      decreases |msgs| - pos
    {
      if game.IsGameOver() {
        CataloguedTotal(game.ships);
        return sent + [GameOverFrame(game.GetScore())], Completed, pos;
      }
      if pos == |msgs| {
        return sent, Waiting, pos;
      }
      ghost var before := game.State();
      var reply, stop := Answer(game, msgs[pos]);
      pos := pos + 1;
      if stop {
        return sent + [reply], Aborted, pos;
      }
      ghost var rest := ShotLoop(game.State(), msgs, pos);
      LoopContinues(before, msgs, pos - 1, reply, game.State());
      assert sent + ([reply] + rest.out) == (sent + [reply]) + rest.out;
      sent := sent + [reply];
    }
  }

  /** One pass of the shot loop's body after the message `m` has been read: the reply it sends and
      whether the session ends, with the board updated for a valid SHOT. */
  method Answer(game: GameBoard, m: P.Received) returns (reply: P.Frame, stop: bool)
    requires game.Valid()
    modifies game, game.board
    ensures game.Valid()
    ensures Respond(old(game.State()), m) == if stop then Stop(reply) else Continue(reply, game.State())
    ensures stop ==> game.State() == old(game.State())
    ensures game.ships == old(game.ships)
  {
    match m {
      case ProtocolError(text) =>
        return ErrorFrame(text), true;
      case Crash =>
        return ErrorFrame(InternalError), true;
      case Got(kind, data) =>
        if kind != P.Shot {
          return ErrorFrame("Expected SHOT, got " + P.TagText(kind)), true;
        }
        match ShotTarget(data) {
          case Rejected =>
            return ErrorFrame(InvalidCoordinate), false;
          case Fault =>
            return ErrorFrame(InternalError), true;
          case Aim(coord) =>
            var isHit, _ := game.ProcessShot(coord);
            return Reply(if isHit then P.Hit else P.Miss), false;
        }
    }
  }
}
