/** The client's game logic (BattleshipClient): the shots of auto mode, the next shot in either mode,
    and play's handshake and answer to each reply. The server's frames, the console lines and the
    random draws of random.shuffle are parameters; what the client sends is returned. */
module Client {
  import opened Wrappers
  import opened Ascii
  import opened GameModel
  import opened Coordinates
  import P = Protocol

  // ---------------------------------------------------------------------------------------------
  // The coordinates of auto mode

  /** The list _generate_shots builds before shuffling: A1..A9, B1..B9, ..., I1..I9. */
  function AllCoordinates(): (r: seq<string>)
    ensures |r| == CellCount
  {
    seq(CellCount, k requires 0 <= k < CellCount => CoordName(k / GridSize, k % GridSize))
  }

  /** The coordinates the client may send: they pass validate_coordinate, are upper-case, and so
      name a cell. */
  predicate Aimable(c: string)
  {
    P.ValidateCoordinate(c) && Upper(c) == c && Indexable(c)
  }

  /** Naming a cell adds nothing to passing validate_coordinate upper-cased. */
  lemma AimableExactly(c: string)
    ensures Aimable(c) <==> P.ValidateCoordinate(c) && Upper(c) == c
  {
    if P.ValidateCoordinate(c) {
      ValidIsIndexable(c);
    }
  }

  /** The k-th coordinate names the k-th cell, so the 81 coordinates are the whole board, each once. */
  lemma CoordinateCells(k: nat)
    requires k < CellCount
    ensures Indexable(AllCoordinates()[k]) && CellOf(AllCoordinates()[k]) == k
  {
    CoordNameRoundTrip(k / GridSize, k % GridSize);
  }

  /** A string is one of the 81 coordinates exactly when it passes validate_coordinate and is
      upper-case. */
  lemma AllCoordinatesExactly(c: string)
    ensures c in AllCoordinates() <==> P.ValidateCoordinate(c) && Upper(c) == c
  {
    P.ValidateExactly(c);
    if c in AllCoordinates() {
      var k :| 0 <= k < CellCount && AllCoordinates()[k] == c;
      assert c == CoordName(k / GridSize, k % GridSize);
      assert Upper(c) == [UpperChar(c[0]), UpperChar(c[1])];
    }
    if P.ValidateCoordinate(c) && Upper(c) == c {
      assert UpperChar(c[0]) == Upper(c)[0] == c[0];
      var k := (c[0] as int - 'A' as int) * GridSize + (c[1] as int - '1' as int);
      assert AllCoordinates()[k] == CoordName(k / GridSize, k % GridSize);
      assert AllCoordinates()[k] == c;
    }
  }

  /** A slice starting at `i` is its first entry followed by the slice after it. */
  lemma SliceFirst<T>(s: seq<T>, i: nat, j: nat)
    requires i < j <= |s|
    ensures s[i..j] == [s[i]] + s[i + 1..j]
  {
  }

  /** No two entries of `s` are equal. */
  predicate Distinct<T(==)>(s: seq<T>)
  {
    forall i, j | 0 <= i < j < |s| :: s[i] != s[j]
  }

  lemma AllCoordinatesDistinct()
    ensures Distinct(AllCoordinates())
  {
    forall i, j | 0 <= i < j < CellCount
      ensures AllCoordinates()[i] != AllCoordinates()[j]
    {
      CoordinateCells(i);
      CoordinateCells(j);
    }
  }

  // ---------------------------------------------------------------------------------------------
  // random.shuffle

  /** randbelow(bound) as the k-th of the draws: reduced below the bound; a missing draw counts as 0. */
  function Below(draws: seq<nat>, k: nat, bound: nat): (j: nat)
    requires bound > 0
    ensures j < bound
  {
    (if k < |draws| then draws[k] else 0) % bound
  }

  /** `s` with positions i and j exchanged. */
  function Swap<T>(s: seq<T>, i: nat, j: nat): (r: seq<T>)
    requires i < |s| && j < |s|
    ensures |r| == |s| && r[i] == s[j] && r[j] == s[i]
    ensures forall k | 0 <= k < |s| && k != i && k != j :: r[k] == s[k]
  {
    s[i := s[j]][j := s[i]]
  }

  lemma SwapPermutes<T>(s: seq<T>, i: nat, j: nat)
    requires i < |s| && j < |s|
    ensures multiset(Swap(s, i, j)) == multiset(s)
    ensures Distinct(s) ==> Distinct(Swap(s, i, j))
  {
    var r := Swap(s, i, j);
    assert r == s[i := s[j]][j := s[i]];
    if Distinct(s) {
      forall a, b | 0 <= a < b < |r|
        ensures r[a] != r[b]
      {
        var a' := if a == i then j else if a == j then i else a;
        var b' := if b == i then j else if b == j then i else b;
        assert r[a] == s[a'] && r[b] == s[b'];
        if a' < b' { assert s[a'] != s[b']; } else { assert s[b'] != s[a']; }
      }
    }
  }

  /** The swaps random.shuffle makes for positions i, i - 1, ..., 1: position i is exchanged with a
      position drawn at or below it. */
  function ShuffleDown<T>(s: seq<T>, draws: seq<nat>, i: nat): seq<T>
    requires i < |s|
    decreases i
  {
    if i == 0 then s else ShuffleDown(Swap(s, i, Below(draws, |s| - 1 - i, i + 1)), draws, i - 1)
  }

  /** One swap of the shuffle, then the rest. */
  lemma ShuffleDownStep<T>(s: seq<T>, draws: seq<nat>, i: nat, j: nat)
    requires 0 < i < |s| && j == Below(draws, |s| - 1 - i, i + 1)
    ensures ShuffleDown(s, draws, i) == ShuffleDown(Swap(s, i, j), draws, i - 1)
  {
  }

  /** random.shuffle(s) with the draws `draws`. */
  function Shuffled<T>(s: seq<T>, draws: seq<nat>): seq<T>
  {
    if s == [] then s else ShuffleDown(s, draws, |s| - 1)
  }

  lemma {:induction false} ShuffleDownPermutes<T>(s: seq<T>, draws: seq<nat>, i: nat)
    requires i < |s|
    ensures |ShuffleDown(s, draws, i)| == |s| && multiset(ShuffleDown(s, draws, i)) == multiset(s)
    ensures Distinct(s) ==> Distinct(ShuffleDown(s, draws, i))
    decreases i
  {
    if i > 0 {
      var j := Below(draws, |s| - 1 - i, i + 1);
      SwapPermutes(s, i, j);
      ShuffleDownPermutes(Swap(s, i, j), draws, i - 1);
    }
  }

  /** Shuffling rearranges: the same elements, each as often as before. */
  lemma ShufflePermutes<T>(s: seq<T>, draws: seq<nat>)
    ensures |Shuffled(s, draws)| == |s| && multiset(Shuffled(s, draws)) == multiset(s)
    ensures Distinct(s) ==> Distinct(Shuffled(s, draws))
  {
    if s != [] {
      ShuffleDownPermutes(s, draws, |s| - 1);
    }
  }

  /** `x[i], x[j] = x[j], x[i]` on a list. */
  method Exchange<T>(a: array<T>, i: nat, j: nat)
    requires i < a.Length && j < a.Length
    modifies a
    ensures a[..] == Swap(old(a[..]), i, j)
  {
    a[i], a[j] := a[j], a[i];
  }

  /** random.shuffle on a list, in place. */
  method Shuffle<T>(a: array<T>, draws: seq<nat>)
    modifies a
    ensures a[..] == Shuffled(old(a[..]), draws)
  {
    if a.Length == 0 {
      return;
    }
    ghost var goal := Shuffled(a[..], draws);
    ghost var cur := a[..];
    var i := a.Length - 1;
    while i > 0
      invariant 0 <= i < a.Length && |cur| == a.Length
      invariant a[..] == cur && ShuffleDown(cur, draws, i) == goal
    {
      var j := Below(draws, a.Length - 1 - i, i + 1);
      Exchange(a, i, j);
      ShuffleDownStep(cur, draws, i, j);
      cur := Swap(cur, i, j);
      i := i - 1;
    }
  }

  /** The shots of auto mode: 81 coordinates, each one the client may send, every cell once. */
  lemma ShuffledShots(draws: seq<nat>)
    ensures var shots := Shuffled(AllCoordinates(), draws);
      && |shots| == CellCount && Distinct(shots)
      && multiset(shots) == multiset(AllCoordinates())
      && (forall c :: c in shots <==> Aimable(c))
      && AllAimable(shots)
  {
    var shots := Shuffled(AllCoordinates(), draws);
    AllCoordinatesDistinct();
    ShufflePermutes(AllCoordinates(), draws);
    forall c
      ensures c in shots <==> Aimable(c)
    {
      AllCoordinatesExactly(c);
      AimableExactly(c);
      assert c in shots <==> c in multiset(shots);
      assert c in AllCoordinates() <==> c in multiset(AllCoordinates());
    }
    forall k | 0 <= k < |shots|
      ensures Aimable(shots[k])
    {
      assert shots[k] in shots;
    }
  }

  // ---------------------------------------------------------------------------------------------
  // The client's state as a value

  /** How play ends: GAME_OVER with its score; a ProtocolError with its text; any other exception
      (IndexError, EOFError, a payload without `.get`, a disconnect); or still waiting for a reply
      when the server's frames run out. */
  datatype Outcome = Finished(score: P.JValue) | ProtocolFailure(text: string) | Unexpected | Blocked

  /** The client's mutable state: the local board, shot_index, and how many console lines are read. */
  datatype View = View(local: BoardState, index: nat, line: nat)

  /** The local board is a GameBoard whose ships are never positioned: no cell is SHIP or HIT. */
  predicate Unarmed(s: BoardState)
  {
    Consistent(s) && Fleet(s.cells) == 0
  }

  /** The shot list only holds coordinates the client may send. */
  predicate AllAimable(shots: seq<string>)
  {
    forall k | 0 <= k < |shots| :: Aimable(shots[k])
  }

  /** get_next_shot in interactive mode: the first of console[line..] that passes validate_coordinate
      once upper-cased, and the line after it; None when the console runs out (EOFError). */
  function Prompt(console: seq<string>, line: nat): (r: (Option<string>, nat))
    requires line <= |console|
    ensures line <= r.1 <= |console|
    ensures r.0.Some? ==> Aimable(r.0.value)
    decreases |console| - line
  {
    if line == |console| then (None, line)
    else if P.ValidateCoordinate(Upper(console[line])) then
      UpperIdempotent(console[line]);
      ValidIsIndexable(Upper(console[line]));
      (Some(Upper(console[line])), line + 1)
    else Prompt(console, line + 1)
  }

  /** The prompt returns the first line that passes once upper-cased, upper-cased, and the line after
      it; every line before it fails; when none passes it has read the whole console. */
  lemma {:induction false} PromptFinds(console: seq<string>, line: nat)
    requires line <= |console|
    ensures var r := Prompt(console, line);
      && (r.0.Some? ==> r.1 > line && r.0.value == Upper(console[r.1 - 1]))
      && (r.0.None? ==> r.1 == |console|)
      && (forall k | line <= k < r.1 - (if r.0.Some? then 1 else 0) :: !P.ValidateCoordinate(Upper(console[k])))
    decreases |console| - line
  {
    if line < |console| && !P.ValidateCoordinate(Upper(console[line])) {
      PromptFinds(console, line + 1);
    }
  }

  /** get_next_shot: in auto mode shots[shot_index], advancing shot_index by one (None when the list
      is used up: IndexError); otherwise the console prompt. Only the mode's own counter moves. */
  function NextShot(auto: bool, shots: seq<string>, console: seq<string>, v: View): (r: (Option<string>, View))
    requires v.line <= |console| && AllAimable(shots)
    ensures r.1.local == v.local && r.1.line <= |console|
    ensures r.0.Some? ==> Aimable(r.0.value)
  {
    if auto then
      if v.index < |shots| then (Some(shots[v.index]), v.(index := v.index + 1)) else (None, v)
    else
      var (c, line) := Prompt(console, v.line);
      (c, v.(line := line))
  }

  /** In auto mode the next shot is shots[shot_index] and shot_index moves on by one, or the list is
      used up and nothing moves; in interactive mode it is the prompt's, and shot_index stays. */
  lemma NextShotModes(auto: bool, shots: seq<string>, console: seq<string>, v: View)
    requires v.line <= |console| && AllAimable(shots)
    ensures var r := NextShot(auto, shots, console, v);
      && (auto ==> r.1.line == v.line && (r.0.Some? <==> v.index < |shots|))
      && (auto && r.0.Some? ==> r.0.value == shots[v.index] && r.1.index == v.index + 1)
      && (auto && r.0.None? ==> r.1.index == v.index)
      && (!auto ==> r.1.index == v.index && (r.0, r.1.line) == Prompt(console, v.line))
  {
  }

  /** What play does after sending a shot: go on with the next shot, or end. */
  datatype Step = Again(view: View) | Done(outcome: Outcome, view: View)

  /** play's answer to the reply `m` to the shot at `coord`. An ERROR is logged and the loop goes on
      with the board unchanged; any other message resolves the shot on the local board, where it can
      only be a MISS, and GAME_OVER then ends the game with data.get('score', 0). An ERROR or GAME_OVER
      whose payload is not an object has no `.get`. */
  function React(v: View, coord: string, m: P.Received): (r: Step)
    requires |v.local.cells| == CellCount && Indexable(coord)
    ensures |r.view.local.cells| == CellCount && r.view.index == v.index && r.view.line == v.line
    ensures v.local.shots <= r.view.local.shots <= v.local.shots + 1
  {
    match m
    case Got(kind, data) =>
      if kind == P.Error then
        if data.JObject? then Again(v) else Done(Unexpected, v)
      else
        var n := CellOf(coord);
        var v' := v.(local := Shoot(v.local, n).0);
        if kind != P.GameOver then Again(v')
        else if data.JObject? then Done(Finished(if "score" in data.fields then data.fields["score"] else P.JNumber(0)), v')
        else Done(Unexpected, v')
    case ProtocolError(text) => Done(ProtocolFailure(text), v)
    case Crash => Done(Unexpected, v)
  }

  /** What play does with each kind of reply: an ERROR with an object payload goes on and changes
      nothing; any other message resolves the shot on the local board, as a MISS; the loop goes on
      exactly for those and for replies other than GAME_OVER; it finishes exactly on GAME_OVER with an
      object payload, whose "score" it reports (0 when absent); a parse error is reported as such. */
  lemma ReactMeaning(v: View, coord: string, m: P.Received)
    requires |v.local.cells| == CellCount && Indexable(coord)
    ensures var r := React(v, coord, m);
      && (m.Got? && m.kind == P.Error && m.data.JObject? ==> r == Again(v))
      && (m.Got? && m.kind != P.Error ==> r.view.local == Shoot(v.local, CellOf(coord)).0)
      && (!m.Got? || m.kind == P.Error ==> r.view.local == v.local)
      && (r.Again? <==> m.Got? && m.kind != P.GameOver && (m.kind == P.Error ==> m.data.JObject?))
      && (r.Done? && r.outcome.Finished? <==> m.Got? && m.kind == P.GameOver && m.data.JObject?)
      && (r.Done? && r.outcome.Finished? ==>
            r.outcome.score == if "score" in m.data.fields then m.data.fields["score"] else P.JNumber(0))
      && (r.Done? && r.outcome.ProtocolFailure? <==> m.ProtocolError?)
      && (m.ProtocolError? ==> r == Done(ProtocolFailure(m.text), v))
  {
  }

  /** The local board never gets a ship: each reply other than ERROR resolves the shot as a MISS. */
  lemma ReactMisses(v: View, coord: string, m: P.Received)
    requires Unarmed(v.local) && Indexable(coord)
    ensures var r := React(v, coord, m);
      && Unarmed(r.view.local)
      && (m.Got? && m.kind != P.Error ==> r.view.local.cells[CellOf(coord)] == Miss)
      && forall k | 0 <= k < CellCount && k != CellOf(coord) :: r.view.local.cells[k] == v.local.cells[k]
  {
    if m.Got? && m.kind != P.Error {
      ShootResolves(v.local, CellOf(coord));
      CountZero(v.local.cells, Ship);
      CountZero(v.local.cells, Hit);
    }
  }

  // ---------------------------------------------------------------------------------------------
  // play as a function of the server's frames

  /** The coordinates sent in SHOT messages, how play ended, and the state it ended in. */
  datatype Run = Run(fired: seq<string>, outcome: Outcome, last: View)

  /** `fired` sent before the rest of the run. */
  function Prepend(fired: seq<string>, r: Run): (q: Run)
    ensures q.fired == fired + r.fired && q.outcome == r.outcome && q.last == r.last
  {
    Run(fired + r.fired, r.outcome, r.last)
  }

  /** One pass of the game loop: the shot sent and the state to go on from, or the shots sent in this
      pass and how play ends. */
  datatype Turn = Next(shot: string, view: View) | Stop(fired: seq<string>, outcome: Outcome, view: View)

  /** One pass of the game loop from state `v`, msgs[pos] being the reply to its shot: take the next
      shot (or fail to), send it, and answer the reply (or wait for one that never comes). */
  function Pass(auto: bool, shots: seq<string>, console: seq<string>, v: View, msgs: seq<P.Received>, pos: nat): (t: Turn)
    requires |v.local.cells| == CellCount && v.line <= |console| && AllAimable(shots) && pos <= |msgs|
    ensures |t.view.local.cells| == CellCount && t.view.line <= |console|
  {
    var (c, v1) := NextShot(auto, shots, console, v);
    if c.None? then Stop([], Unexpected, v1)
    else if pos == |msgs| then Stop([c.value], Blocked, v1)
    else
      match React(v1, c.value, msgs[pos])
      case Again(v2) => Next(c.value, v2)
      case Done(o, v2) => Stop([c.value], o, v2)
  }

  /** Prepending twice is prepending the concatenation. */
  lemma PrependTwice(a: seq<string>, b: seq<string>, r: Run)
    ensures Prepend(a, Prepend(b, r)) == Prepend(a + b, r)
  {
    assert a + (b + r.fired) == (a + b) + r.fired;
  }

  /** The game loop from state `v` with msgs[pos..] still to come. */
  function Rounds(auto: bool, shots: seq<string>, console: seq<string>, v: View, msgs: seq<P.Received>, pos: nat): (r: Run)
    requires |v.local.cells| == CellCount && v.line <= |console| && AllAimable(shots) && pos <= |msgs|
    ensures |r.last.local.cells| == CellCount && r.last.line <= |console|
    decreases |msgs| - pos
  {
    match Pass(auto, shots, console, v, msgs, pos)
    case Next(c, v2) =>
      assert pos < |msgs|;
      Prepend([c], Rounds(auto, shots, console, v2, msgs, pos + 1))
    case Stop(fired, o, v2) => Run(fired, o, v2)
  }

  /** The InvalidMessageError texts of the handshake, up to the message that came instead. */
  const ExpectedPositioning: string := "Expected POSITIONING_SHIPS, got "
  const ExpectedInPosition: string := "Expected SHIPS_IN_POSITION, got "

  /** The handshake's check of one reply: None when it is the expected message; otherwise how play
      ends (InvalidMessageError naming what came, the parse error, or another exception). */
  function Expect(m: P.Received, t: P.MessageType, complaint: string): (r: Option<Outcome>)
    ensures r.None? <==> m.Got? && m.kind == t
    ensures r.Some? ==> !r.value.Finished? && !r.value.Blocked?
  {
    match m
    case Got(kind, _) =>
      if kind == t then None else Some(ProtocolFailure(complaint + P.TagText(kind)))
    case ProtocolError(text) => Some(ProtocolFailure(text))
    case Crash => Some(Unexpected)
  }

  /** play after sending START_GAME: POSITIONING_SHIPS, then SHIPS_IN_POSITION, then the game loop. */
  function Session(auto: bool, shots: seq<string>, console: seq<string>, v: View, msgs: seq<P.Received>): (r: Run)
    requires |v.local.cells| == CellCount && v.line <= |console| && AllAimable(shots)
    ensures |r.last.local.cells| == CellCount
  {
    if |msgs| == 0 then Run([], Blocked, v)
    else
      var first := Expect(msgs[0], P.PositioningShips, ExpectedPositioning);
      if first.Some? then Run([], first.value, v)
      else if |msgs| == 1 then Run([], Blocked, v)
      else
        var second := Expect(msgs[1], P.ShipsInPosition, ExpectedInPosition);
        if second.Some? then Run([], second.value, v)
        else Rounds(auto, shots, console, v, msgs, 2)
  }

  /** The frame send_message(SHOT, {'coordinate': coord}) writes. */
  function ShotFrame(coord: string): P.Frame
  {
    P.CreateMessage(P.Shot, Some(map["coordinate" := P.JString(coord)]))
  }

  /** The SHOT frames for the coordinates `fired`, in order. */
  function ShotFrames(fired: seq<string>): (r: seq<P.Frame>)
    ensures |r| == |fired| && forall k | 0 <= k < |fired| :: r[k] == ShotFrame(fired[k])
  {
    seq(|fired|, k requires 0 <= k < |fired| => ShotFrame(fired[k]))
  }

  // ---------------------------------------------------------------------------------------------
  // What play promises

  /** No SHOT is sent unless the first reply is POSITIONING_SHIPS and the second SHIPS_IN_POSITION. */
  lemma HandshakeGuards(auto: bool, shots: seq<string>, console: seq<string>, v: View, msgs: seq<P.Received>)
    requires |v.local.cells| == CellCount && v.line <= |console| && AllAimable(shots)
    ensures Session(auto, shots, console, v, msgs).fired != [] ==>
      && |msgs| >= 2
      && msgs[0].Got? && msgs[0].kind == P.PositioningShips
      && msgs[1].Got? && msgs[1].kind == P.ShipsInPosition
  {
  }

  /** A first reply other than POSITIONING_SHIPS ends play with InvalidMessageError naming it. */
  lemma FirstReplyWrong(auto: bool, shots: seq<string>, console: seq<string>, v: View, msgs: seq<P.Received>)
    requires |v.local.cells| == CellCount && v.line <= |console| && AllAimable(shots)
    requires |msgs| > 0 && msgs[0].Got? && msgs[0].kind != P.PositioningShips
    ensures Session(auto, shots, console, v, msgs)
      == Run([], ProtocolFailure(ExpectedPositioning + P.TagText(msgs[0].kind)), v)
  {
  }

  /** A second reply other than SHIPS_IN_POSITION ends play with InvalidMessageError naming it. */
  lemma SecondReplyWrong(auto: bool, shots: seq<string>, console: seq<string>, v: View, msgs: seq<P.Received>)
    requires |v.local.cells| == CellCount && v.line <= |console| && AllAimable(shots)
    requires |msgs| > 1 && msgs[0].Got? && msgs[0].kind == P.PositioningShips
    requires msgs[1].Got? && msgs[1].kind != P.ShipsInPosition
    ensures Session(auto, shots, console, v, msgs)
      == Run([], ProtocolFailure(ExpectedInPosition + P.TagText(msgs[1].kind)), v)
  {
  }

  /** The game loop is its first pass followed, when that goes on, by the rest of the loop. */
  lemma RoundsUnfold(auto: bool, shots: seq<string>, console: seq<string>, v: View, msgs: seq<P.Received>, pos: nat)
    requires |v.local.cells| == CellCount && v.line <= |console| && AllAimable(shots) && pos <= |msgs|
    ensures var t := Pass(auto, shots, console, v, msgs, pos);
      && (t.Next? ==> pos < |msgs| && Rounds(auto, shots, console, v, msgs, pos)
                                        == Prepend([t.shot], Rounds(auto, shots, console, t.view, msgs, pos + 1)))
      && (t.Stop? ==> Rounds(auto, shots, console, v, msgs, pos) == Run(t.fired, t.outcome, t.view))
  {
  }

  /** After the shots `before`, the rest of the game loop is its next pass and then, when that goes
      on, the loop from the state that pass leaves. */
  lemma RoundsResume(auto: bool, shots: seq<string>, console: seq<string>, v: View, msgs: seq<P.Received>, pos: nat, before: seq<string>)
    requires |v.local.cells| == CellCount && v.line <= |console| && AllAimable(shots) && pos <= |msgs|
    ensures var t := Pass(auto, shots, console, v, msgs, pos);
      var goal := Prepend(before, Rounds(auto, shots, console, v, msgs, pos));
      && (t.Next? ==> pos < |msgs| && Prepend(before + [t.shot], Rounds(auto, shots, console, t.view, msgs, pos + 1)) == goal)
      && (t.Stop? ==> Run(before + t.fired, t.outcome, t.view) == goal)
  {
    RoundsUnfold(auto, shots, console, v, msgs, pos);
    var t := Pass(auto, shots, console, v, msgs, pos);
    if t.Next? {
      PrependTwice(before, [t.shot], Rounds(auto, shots, console, t.view, msgs, pos + 1));
    }
  }

  /** Every coordinate the game loop sends passes validate_coordinate and is upper-case. */
  lemma {:induction false} RoundsAimable(auto: bool, shots: seq<string>, console: seq<string>, v: View, msgs: seq<P.Received>, pos: nat)
    requires |v.local.cells| == CellCount && v.line <= |console| && AllAimable(shots) && pos <= |msgs|
    ensures AllAimable(Rounds(auto, shots, console, v, msgs, pos).fired)
    decreases |msgs| - pos
  {
    var t := Pass(auto, shots, console, v, msgs, pos);
    if t.Next? {
      RoundsAimable(auto, shots, console, t.view, msgs, pos + 1);
    }
  }

  /** At most one SHOT goes out per reply, plus one awaiting its reply. */
  lemma {:induction false} OneShotPerReply(auto: bool, shots: seq<string>, console: seq<string>, v: View, msgs: seq<P.Received>, pos: nat)
    requires |v.local.cells| == CellCount && v.line <= |console| && AllAimable(shots) && pos <= |msgs|
    ensures |Rounds(auto, shots, console, v, msgs, pos).fired| <= |msgs| - pos + 1
    decreases |msgs| - pos
  {
    var t := Pass(auto, shots, console, v, msgs, pos);
    if t.Next? {
      OneShotPerReply(auto, shots, console, t.view, msgs, pos + 1);
    }
  }

  /** In auto mode a pass sends shots[shot_index] and, on a HIT or MISS, goes on with shot_index
      moved on by one; with the list used up it ends in the IndexError. */
  lemma AutoPass(shots: seq<string>, console: seq<string>, v: View, msgs: seq<P.Received>, pos: nat)
    requires |v.local.cells| == CellCount && v.line <= |console| && AllAimable(shots) && pos <= |msgs|
    requires v.index <= |shots|
    ensures var t := Pass(true, shots, console, v, msgs, pos);
      && (v.index == |shots| ==> t == Stop([], Unexpected, v))
      && (v.index < |shots| && pos < |msgs| && msgs[pos].Got? && (msgs[pos].kind == P.Hit || msgs[pos].kind == P.Miss) ==>
            t.Next?)
      && (t.Next? ==> v.index < |shots| && t.shot == shots[v.index] && t.view.index == v.index + 1)
      && (t.Stop? && t.fired != [] ==> v.index < |shots| && t.fired == [shots[v.index]] && t.view.index == v.index + 1)
      && (t.Stop? && t.fired == [] ==> t.view.index == v.index)
  {
    NextShotModes(true, shots, console, v);
  }

  /** In auto mode the loop sends the shot list in order, from shot_index up to where shot_index ends. */
  lemma {:induction false} AutoFiresInOrder(shots: seq<string>, console: seq<string>, v: View, msgs: seq<P.Received>, pos: nat)
    requires |v.local.cells| == CellCount && v.line <= |console| && AllAimable(shots) && pos <= |msgs|
    requires v.index <= |shots|
    ensures var r := Rounds(true, shots, console, v, msgs, pos);
      v.index <= r.last.index <= |shots| && r.fired == shots[v.index..r.last.index]
    decreases |msgs| - pos
  {
    AutoPass(shots, console, v, msgs, pos);
    RoundsUnfold(true, shots, console, v, msgs, pos);
    var t := Pass(true, shots, console, v, msgs, pos);
    if t.Next? {
      AutoFiresInOrder(shots, console, t.view, msgs, pos + 1);
      SliceFirst(shots, v.index, Rounds(true, shots, console, t.view, msgs, pos + 1).last.index);
    } else if t.fired != [] {
      SliceFirst(shots, v.index, v.index + 1);
    }
  }

  /** In auto mode from a fresh shot list no cell is shot at twice, and at most 81 SHOTs are sent. */
  lemma AutoNeverRepeats(draws: seq<nat>, console: seq<string>, v: View, msgs: seq<P.Received>)
    requires |v.local.cells| == CellCount && v.line <= |console| && v.index == 0
    ensures AllAimable(Shuffled(AllCoordinates(), draws))
    ensures var r := Session(true, Shuffled(AllCoordinates(), draws), console, v, msgs);
      Distinct(r.fired) && |r.fired| <= CellCount
  {
    var shots := Shuffled(AllCoordinates(), draws);
    ShuffledShots(draws);
    if |msgs| >= 2 && Expect(msgs[0], P.PositioningShips, ExpectedPositioning).None? && Expect(msgs[1], P.ShipsInPosition, ExpectedInPosition).None? {
      AutoFiresInOrder(shots, console, v, msgs, 2);
      var r := Rounds(true, shots, console, v, msgs, 2);
      forall i, j | 0 <= i < j < |r.fired|
        ensures r.fired[i] != r.fired[j]
      {
        assert r.fired[i] == shots[i] && r.fired[j] == shots[j];
      }
    }
  }

  /** Every reply from msgs[pos] on is a HIT or a MISS. */
  predicate HitsOrMisses(msgs: seq<P.Received>, pos: nat)
  {
    forall k | pos <= k < |msgs| :: msgs[k].Got? && (msgs[k].kind == P.Hit || msgs[k].kind == P.Miss)
  }

  /** In auto mode, when every reply is HIT or MISS the loop goes on until the shot list is used up
      and then fails on the next index (IndexError). */
  lemma {:induction false} AutoRunsDry(shots: seq<string>, console: seq<string>, v: View, msgs: seq<P.Received>, pos: nat)
    requires |v.local.cells| == CellCount && v.line <= |console| && AllAimable(shots) && v.index <= |shots|
    requires pos <= |msgs| && |shots| - v.index <= |msgs| - pos && HitsOrMisses(msgs, pos)
    ensures var r := Rounds(true, shots, console, v, msgs, pos);
      r.outcome == Unexpected && r.last.index == |shots|
    decreases |shots| - v.index
  {
    AutoPass(shots, console, v, msgs, pos);
    RoundsUnfold(true, shots, console, v, msgs, pos);
    if v.index < |shots| {
      var t := Pass(true, shots, console, v, msgs, pos);
      AutoRunsDry(shots, console, t.view, msgs, pos + 1);
    }
  }

  /** In auto mode, when every reply is HIT or MISS the shot list runs out: the client sends each of
      its remaining shots and then fails on the next index (IndexError) instead of shooting again.
      The server sends GAME_OVER right after the HIT that sinks the last ship, but the client reads a
      reply only after firing its next shot; so a game whose last ship cell is the 81st coordinate
      ends this way, with GAME_OVER never read. */
  lemma AutoRunsOut(shots: seq<string>, console: seq<string>, v: View, msgs: seq<P.Received>, pos: nat)
    requires |v.local.cells| == CellCount && v.line <= |console| && AllAimable(shots) && v.index <= |shots|
    requires pos <= |msgs| && |shots| - v.index <= |msgs| - pos && HitsOrMisses(msgs, pos)
    ensures var r := Rounds(true, shots, console, v, msgs, pos);
      r.outcome == Unexpected && r.fired == shots[v.index..]
  {
    AutoRunsDry(shots, console, v, msgs, pos);
    AutoFiresInOrder(shots, console, v, msgs, pos);
  }

  /** Each reply resolves at most one cell of the local board: across the loop its shot count grows
      by at most the number of SHOTs sent. */
  lemma {:induction false} LocalShotsBounded(auto: bool, shots: seq<string>, console: seq<string>, v: View, msgs: seq<P.Received>, pos: nat)
    requires |v.local.cells| == CellCount && v.line <= |console| && AllAimable(shots) && pos <= |msgs|
    ensures var r := Rounds(auto, shots, console, v, msgs, pos);
      v.local.shots <= r.last.local.shots <= v.local.shots + |r.fired|
    decreases |msgs| - pos
  {
    var t := Pass(auto, shots, console, v, msgs, pos);
    if t.Next? {
      LocalShotsBounded(auto, shots, console, t.view, msgs, pos + 1);
    }
  }

  /** The local board stays without ships through the whole game loop. */
  lemma {:induction false} RoundsUnarmed(auto: bool, shots: seq<string>, console: seq<string>, v: View, msgs: seq<P.Received>, pos: nat)
    requires Unarmed(v.local) && v.line <= |console| && AllAimable(shots) && pos <= |msgs|
    ensures Unarmed(Rounds(auto, shots, console, v, msgs, pos).last.local)
    decreases |msgs| - pos
  {
    var (c, v1) := NextShot(auto, shots, console, v);
    if c.Some? && pos < |msgs| {
      ReactMisses(v1, c.value, msgs[pos]);
      var t := Pass(auto, shots, console, v, msgs, pos);
      if t.Next? {
        RoundsUnarmed(auto, shots, console, t.view, msgs, pos + 1);
      }
    }
  }

  // ---------------------------------------------------------------------------------------------
  // The client object

  /** BattleshipClient: the mode, the local board, and the shot list with its index. */
  class BattleshipClient {
    const auto: bool
    const game: GameBoard
    var shots: seq<string>
    var shotIndex: nat

    ghost predicate Valid()
      reads this, game, game.board
    {
      game.Valid() && Unarmed(game.State()) && AllAimable(shots) && shotIndex <= |shots|
    }

    /** The state as a value, with `line` console lines read. */
    ghost function ViewAt(line: nat): View
      reads this, game
    {
      View(game.State(), shotIndex, line)
    }

    /** A client with a fresh local board; in auto mode the shot list is shuffled with `draws`. */
    constructor (auto: bool, draws: seq<nat>)
      ensures Valid() && fresh(game) && fresh(game.board) && this.auto == auto
      ensures game.cells == EmptyCells() && game.hitCount == 0 && game.shotCount == 0 && shotIndex == 0
      ensures shots == if auto then Shuffled(AllCoordinates(), draws) else []
    {
      this.auto := auto;
      game := new GameBoard();
      shots := [];
      shotIndex := 0;
      new;
      FreshBoard(game.State());
      if auto {
        GenerateShots(draws);
      }
    }

    /** _generate_shots: the 81 coordinates, shuffled. */
    method GenerateShots(draws: seq<nat>)
      modifies this
      ensures shots == Shuffled(AllCoordinates(), draws) && AllAimable(shots)
      ensures shotIndex == old(shotIndex)
    {
      var a := new string[CellCount](k requires 0 <= k < CellCount => AllCoordinates()[k]);
      assert a[..] == AllCoordinates();
      Shuffle(a, draws);
      shots := a[..];
      ShuffledShots(draws);
    }

    /** get_next_shot, with `line` console lines already read; `next` is the count after it. */
    method GetNextShot(console: seq<string>, line: nat) returns (coord: Option<string>, next: nat)
      requires Valid() && line <= |console|
      modifies this
      ensures Valid() && shots == old(shots)
      ensures (coord, ViewAt(next)) == NextShot(auto, shots, console, old(ViewAt(line)))
    {
      next := line;
      if auto {
        if shotIndex < |shots| {
          coord := Some(shots[shotIndex]);
          shotIndex := shotIndex + 1;
        } else {
          coord := None;
        }
        return;
      }
      while true
        invariant line <= next <= |console|
        invariant Prompt(console, next) == Prompt(console, line)
        decreases |console| - next
      {
        if next == |console| {
          return None, next;
        }
        var c := Upper(console[next]);
        next := next + 1;
        if P.ValidateCoordinate(c) {
          return Some(c), next;
        }
      }
    }

    /** One reply of the game loop to the shot at `coord`: None to go on, or how play ends. */
    method Answer(coord: string, m: P.Received) returns (stop: Option<Outcome>)
      requires Valid() && Indexable(coord)
      modifies game, game.board
      ensures Valid() && shots == old(shots) && shotIndex == old(shotIndex) && game.ships == old(game.ships)
      ensures var r := React(old(ViewAt(0)), coord, m);
        game.State() == r.view.local && (stop.None? <==> r.Again?) && (stop.Some? ==> stop.value == r.outcome)
    {
      ShootResolves(game.State(), CellOf(coord));
      match m {
        case Got(kind, data) =>
          if kind == P.Error {
            stop := if data.JObject? then None else Some(Unexpected);
          } else {
            var _, _ := game.ProcessShot(coord);
            if kind != P.GameOver {
              stop := None;
            } else if data.JObject? {
              stop := Some(Finished(if "score" in data.fields then data.fields["score"] else P.JNumber(0)));
            } else {
              stop := Some(Unexpected);
            }
          }
        case ProtocolError(text) => stop := Some(ProtocolFailure(text));
        case Crash => stop := Some(Unexpected);
      }
    }

    /** One pass of play's game loop, msgs[at] being the reply to its shot: the shots it sent
        (one, or none when get_next_shot fails), and None to go on or how play ends. */
    method Round(msgs: seq<P.Received>, console: seq<string>, at: nat, line: nat) returns (sent: seq<string>, stop: Option<Outcome>, read: nat)
      requires Valid() && at <= |msgs| && line <= |console|
      modifies this, game, game.board
      ensures Valid() && shots == old(shots) && game.ships == old(game.ships)
      ensures var t := Pass(auto, old(shots), console, old(ViewAt(line)), msgs, at);
        && ViewAt(read) == t.view && (stop.None? <==> t.Next?)
        && (t.Next? ==> sent == [t.shot]) && (t.Stop? ==> sent == t.fired && stop == Some(t.outcome))
    {
      var c;
      c, read := GetNextShot(console, line);
      if c.None? {
        return [], Some(Unexpected), read;
      }
      sent := [c.value];
      if at == |msgs| {
        return sent, Some(Blocked), read;
      }
      stop := Answer(c.value, msgs[at]);
    }

    /** The game loop of play from msgs[pos..], with `line` console lines read. */
    method Battle(msgs: seq<P.Received>, console: seq<string>, pos: nat, line: nat) returns (fired: seq<string>, outcome: Outcome, read: nat)
      requires Valid() && pos <= |msgs| && line <= |console|
      modifies this, game, game.board
      ensures Valid() && shots == old(shots) && game.ships == old(game.ships)
      ensures Run(fired, outcome, ViewAt(read)) == Rounds(auto, old(shots), console, old(ViewAt(line)), msgs, pos)
    {
      ghost var list, fleet := shots, game.ships;
      ghost var goal := Rounds(auto, list, console, ViewAt(line), msgs, pos);
      ghost var now := ViewAt(line);
      var at: nat := pos;
      read := line;
      fired := [];
      var stop: Option<Outcome> := None;
      while stop.None?
        invariant Valid() && shots == list && at <= |msgs| && read <= |console|
        invariant game.ships == fleet
        invariant ViewAt(read) == now && |now.local.cells| == CellCount && now.line <= |console|
        invariant goal == Rounds(auto, old(shots), console, old(ViewAt(line)), msgs, pos)
        invariant stop.None? ==> Prepend(fired, Rounds(auto, list, console, now, msgs, at)) == goal
        invariant stop.Some? ==> Run(fired, stop.value, now) == goal
        decreases |msgs| - at + (if stop.None? then 1 else 0)
      {
        ghost var t := Pass(auto, list, console, now, msgs, at);
        RoundsResume(auto, list, console, now, msgs, at, fired);
        var sent;
        sent, stop, read := Round(msgs, console, at, read);
        fired := fired + sent;
        if stop.None? {
          at := at + 1;
        }
        now := t.view;
      }
      outcome := stop.value;
    }

    /** play: sends START_GAME, checks the two handshake replies, then runs the game loop. Returns the
        frames sent and how play ended; the client's state afterwards is the run's last state. */
    method Play(replies: seq<P.Incoming>, console: seq<string>) returns (sent: seq<P.Frame>, outcome: Outcome)
      requires Valid()
      modifies this, game, game.board
      ensures Valid() && shots == old(shots) && game.ships == old(game.ships)
      ensures var r := Session(auto, old(shots), console, old(ViewAt(0)), P.ReceiveEach(replies));
        sent == [P.CreateMessage(P.StartGame, None)] + ShotFrames(r.fired) && outcome == r.outcome
        && ViewAt(r.last.line) == r.last
    {
      sent := [P.CreateMessage(P.StartGame, None)];
      var msgs := P.ReceiveEach(replies);
      if |msgs| == 0 {
        return sent, Blocked;
      }
      var first := Expect(msgs[0], P.PositioningShips, ExpectedPositioning);
      if first.Some? {
        return sent, first.value;
      }
      if |msgs| == 1 {
        return sent, Blocked;
      }
      var second := Expect(msgs[1], P.ShipsInPosition, ExpectedInPosition);
      if second.Some? {
        return sent, second.value;
      }
      var fired, read;
      fired, outcome, read := Battle(msgs, console, 2, 0);
      sent := sent + ShotFrames(fired);
    }
  }
}
