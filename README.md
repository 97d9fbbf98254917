# Battleship session model

A Dafny model of a two-party Battleship game played over one connection. The server holds a hidden
9 by 9 board with four ships (sizes 5, 4, 3 and 2, 14 cells in all). The client fires shots at
coordinates such as `B7` until every ship cell is hit.

The model covers:

- **The board** (`GameModel`, game_model.dfy). `GameBoard` is a class over a 9 by 9 array, with
  its hit and shot counters and its ship records. The model includes:
  - random ship placement without overlap;
  - shot resolution;
  - the end-of-game test, the score, and coordinate conversion.

  The methods are proved against value functions on `BoardState`, and the lemmas state what those
  functions guarantee.
- **The codec** (`Protocol`, protocol.dfy). It covers:
  - the eight message tags;
  - `create_message`, and `parse_message` with its three rejections and its uncaught TypeError;
  - `validate_coordinate`, both on strings and on any JSON value;
  - `receive_message`.

  JSON text is abstract: a frame carries the decoded JSON value, or the decoder's error text.
- **The server session** (`Server`, server.dfy). `handle_client` runs over a sequence of received
  frames: the handshake, the shot loop and the closing GAME_OVER, or the single ERROR that ends a
  session. The `HandleClient` and `ServeShots` methods are proved equal to the value functions
  `Session` and `ShotLoop`. Lemmas cover:
  - the handshake;
  - one reply per message read;
  - HIT replies counting the ship cells they sink;
  - repeat shots;
  - invalid coordinates;
  - the GAME_OVER score: the final board's shot_count, between 14 and 81.
- **The client** (`Client`, client.dfy). It covers:
  - `_generate_shots`, including CPython's `random.shuffle` on an array, with the draws given as a
    parameter;
  - `get_next_shot` in auto mode and interactive mode;
  - `play`: its handshake checks and its answer to each reply.

  `BattleshipClient.Play` and `Battle` are proved equal to the value functions `Session` and
  `Rounds`. Lemmas cover:
  - the handshake guard;
  - the auto-mode order of shots, no cell shot twice, and running out of shots;
  - only valid, upper-case coordinates being sent;
  - the local board never holding a ship.

Common helpers:

- `Wrappers` (common.dfy) holds `Option`.
- `Ascii` (common.dfy) holds Python's ASCII `upper`, `strip` white space and the substring test.
- `Coordinates` (coordinates.dfy) links `validate_coordinate` to `_coord_to_indices`.

Behaviour of the code worth noting:

- **Repeat shots.** A shot at a cell already HIT or MISS changes nothing, not even `shot_count`
  (game_model.py:86-87). `ShootTwice` states this.
- **Disconnects.** When the peer disconnects, the server still tries to send an
  "Internal server error" ERROR (server.py:120-123).
- **A missing "data" field** is accepted and read as `{}` (protocol.py:44).
- **A frame whose JSON value is not an object** raises a TypeError that `parse_message` does not
  catch. The server answers it with "Internal server error".
- **The final shot.** After the shot that sinks the last ship, the server sends HIT and then
  GAME_OVER. The client takes its next shot before it reads GAME_OVER. So in auto mode, if the last
  ship cell is the 81st coordinate, the client fails with IndexError (`AutoRunsOut`).

## Model

| member | source | states |
|---|---|---|
| Ascii.UpperChar | src/protocol.py:56 | `c.upper()` folds exactly the ASCII lower-case letters, to the letter 32 code points below; every other character is kept |
| Ascii.Upper | src/client.py:87 | `s.upper()` keeps the length and upper-cases each character |
| Ascii.UpperIdempotent | src/client.py:87-88 | upper-casing twice is upper-casing once, so the console line `get_next_shot` returns is what it validated |
| Ascii.IsSpace | src/protocol.py:42 | the characters `message.strip()` removes, those of `str.isspace()`; stated by `ParseIgnoresBlanks` |
| Ascii.Contains | src/protocol.py:57-58 | Python's substring `in` on strings; stated by `ContainsChar` and `ValidateExactly` |
| Ascii.ContainsChar | src/protocol.py:57-58 | `c in s` on a one-character string holds exactly when the character occurs in `s` |
| GameModel.Catalogue | src/game_model.py:34-40 | four ships, unplaced, each of size 1..9 (the assert on GRID_SIZE), 14 cells in all |
| GameModel.CataloguedTotal | src/game_model.py:89-91 | the catalogue's ships total 14 cells however they are placed, the target of `is_game_over` |
| GameModel.CountPartition | src/game_model.py:10-14 | each cell is in exactly one of EMPTY, SHIP, HIT, MISS: the four counts add up to the number of cells |
| GameModel.CanPlace | src/game_model.py:52-58 | `_is_valid_placement` only accepts a run that lies inside the grid |
| GameModel.CanPlaceExactly | src/game_model.py:52-58 | `_is_valid_placement` is true exactly when the run is inside the grid and every cell along it is EMPTY |
| GameModel.PlaceRun | src/game_model.py:64-67 | `_place_ship`'s slice assignment on the value board; stated by `PlaceRunCells` and `PlaceRunCounts` |
| GameModel.PlaceRunCells | src/game_model.py:64-67 | `_place_ship` sets exactly the cells of the ship's run to SHIP and keeps every other cell |
| GameModel.PlaceRunCounts | src/game_model.py:60-67 | placing on a valid run turns exactly `size` EMPTY cells into SHIP, leaving HIT and MISS counts unchanged |
| GameModel.Arrange | src/game_model.py:42-50 | `position_ships` on the value board with the given samples; stated by `FirstFit`, `ArrangeLaysOut`, `ArrangeBack` and `PositionOnFreshBoard` |
| GameModel.FirstFit | src/game_model.py:45-50 | the sample taken is the first one at or after the current position that is a valid placement, and every sample skipped is invalid |
| GameModel.Placed | src/game_model.py:62-63 | placing a ship sets only its position and direction |
| GameModel.AnyCoversExists | src/game_model.py:43 | "covered by an earlier ship" means some ship in the list covers the cell |
| GameModel.LaidOutDisjoint | src/game_model.py:43 | no two placed ships share a cell |
| GameModel.LaidOutStep | src/game_model.py:48-49 | placing the next ship on a valid sample grows a well-formed layout by that ship |
| GameModel.ArrangeLaysOut | src/game_model.py:42-50 | if `position_ships` finishes, every ship is placed inside the grid, none overlap, SHIP cells are exactly the covered cells, and only positions changed |
| GameModel.ArrangeBack | src/game_model.py:44-50 | a full layout after placing ship k is a full layout of the ships as they were before that step |
| GameModel.EmptyCells | src/game_model.py:31 | the fresh grid has 81 cells, all EMPTY |
| GameModel.FreshLaidOut | src/game_model.py:30-39 | a fresh board holds no ship yet and no HIT or MISS |
| GameModel.FullLayoutCount | src/game_model.py:42-50 | a complete layout of the catalogue keeps the catalogue's ships and has 14 SHIP cells |
| GameModel.PositionOnFreshBoard | src/game_model.py:42-50 | `position_ships` on a fresh board, when it finishes, lays out all four ships without overlap on exactly 14 SHIP cells |
| GameModel.FreshBoard | src/game_model.py:31-33 | an all-EMPTY board with zero counters is consistent and holds no ship cell |
| GameModel.Shoot | src/game_model.py:69-87 | `process_shot` on the value board; what it does is stated by `ShootResolves` and `ShootTwice` |
| GameModel.ShootResolves | src/game_model.py:69-87 | `process_shot` leaves its cell HIT or MISS and touches no other cell; it is a hit exactly on a SHIP cell, game over exactly on a hit that reaches 14; hit_count grows on a hit; shot_count grows only on a SHIP or EMPTY cell; counters stay consistent and the fleet size kept |
| GameModel.ShootTwice | src/game_model.py:86-87 | a second shot at the same cell changes nothing and is neither a hit nor game over |
| GameModel.IsOver | src/game_model.py:89-91 | `is_game_over` on the value board; stated by `BoardBounds` and `CataloguedTotal` |
| GameModel.BoardBounds | src/game_model.py:89-91 | with 14 ship cells: hits never exceed 14, shots lie between hits and 81, and the game is over exactly when no SHIP cell is left |
| GameModel.Alphabet | src/game_model.py:28 | ALPHABET is the nine letters from `A` on |
| GameModel.CoordToIndices | src/game_model.py:93-97 | `_coord_to_indices` gives the upper-cased letter's place in ALPHABET and the digit minus one; naming the result gives back the upper-cased coordinate |
| GameModel.CoordName | src/client.py:44-45 | the name `f'{c}{n}'` of a cell; stated by `CoordNameRoundTrip` and `CoordToIndices` |
| GameModel.CoordNameRoundTrip | src/game_model.py:93-97 | converting a cell's name such as `B7` back gives that cell |
| GameModel.GameBoard.constructor | src/game_model.py:30-39 | a new board is all EMPTY with zero counters and the unplaced catalogue |
| GameModel.GameBoard.IsValidPlacement | src/game_model.py:52-58 | `_is_valid_placement` on the array agrees with `CanPlace` on the cells |
| GameModel.GameBoard.PlaceShip | src/game_model.py:60-67 | `_place_ship` records the anchor and direction, sets exactly the run's cells of the array to SHIP, keeps the counters, and keeps the board valid |
| GameModel.GameBoard.PositionShips | src/game_model.py:42-50 | `position_ships` succeeds exactly when `Arrange` does, and then leaves `Arrange`'s cells and ship records |
| GameModel.GameBoard.ProcessShot | src/game_model.py:69-87 | `process_shot` on the array moves the board and results exactly as `Shoot` does on the value, and keeps the board valid |
| GameModel.GameBoard.IsGameOver | src/game_model.py:89-91 | `is_game_over` holds exactly when 14 cells are HIT |
| GameModel.GameBoard.GetStateAt | src/game_model.py:99-102 | `get_state_at` returns the state of the named cell |
| GameModel.GameBoard.GetScore | src/game_model.py:104-106 | `get_score` is the number of HIT and MISS cells |
| Protocol.TagText | src/server.py:90-100 | `str(msg_type)` in the "Expected …, got …" texts of server and client (client.py:123-127 too), `MessageType.` and the name; stated by `TagTextDistinct` |
| Protocol.TagTextDistinct | src/protocol.py:9-17 | two tags print the same text exactly when they are the same tag |
| Protocol.TagName | src/protocol.py:9-17 | the `MessageType` values as they travel in "type"; stated by `TagOf` and `TagRoundTrip` |
| Protocol.TagOf | src/protocol.py:9-17 | `MessageType(value)` finds the tag whose value is `value`, if one exists |
| Protocol.TagRoundTrip | src/protocol.py:9-17 | every tag's value names that tag |
| Protocol.CreateMessage | src/protocol.py:27-35 | the frame is a JSON object with exactly "type" and "data": the type is the tag's value, a missing payload becomes `{}`, and the frame ends in a newline |
| Protocol.ParseMessage | src/protocol.py:37-47 | text that is not JSON gives InvalidMessageError with the decoder's text; a non-object gives the uncaught TypeError; it parses exactly when "type" names one of the eight tags; "data" defaults to `{}` |
| Protocol.ParseCreate | src/protocol.py:27-47 | parsing what `create_message` built gives back its tag and payload |
| Protocol.ParseIgnoresBlanks | src/protocol.py:42 | white space around the JSON, the trailing newline included, does not change the parse |
| Protocol.ParseRejects | src/protocol.py:41-47 | the three InvalidMessageError texts: decoder error, missing "type" (KeyError `'type'`), and a type value that is not a tag (ValueError) |
| Protocol.Repr | src/protocol.py:42-46 | the `%r` of the "type" value in the Enum's ValueError text; stated by `StrRepr`, `PlainRepr`, `ReprLists`, `ReprApostrophe`, `ReprEscapes` and `ParseUnknownTag` |
| Protocol.QuoteFor | src/protocol.py:42-46 | the string repr in the ValueError text uses double quotes exactly when the string holds a single quote and no double quote |
| Protocol.StrRepr | src/protocol.py:42-46 | a string's repr opens and closes with that quote |
| Protocol.EscapeChar | src/protocol.py:42-46 | inside the repr, any character other than the enclosing quote that is printable ASCII, the other quote, or non-ASCII, stands for itself |
| Protocol.PlainRepr | src/protocol.py:42-46 | a string of printable ASCII without quotes or backslash has the repr `'…'` around it unchanged |
| Protocol.ReprLists | src/protocol.py:42-46 | a list's repr is its items' reprs in brackets: `['X']`, `[]` |
| Protocol.ReprApostrophe | src/protocol.py:42-46 | `it's` has the repr `"it's"` |
| Protocol.ReprEscapes | src/protocol.py:42-46 | with both quotes the apostrophe is escaped, a newline is shown as `\n`, and `é` is kept as it is |
| Protocol.ParseUnknownTag | src/protocol.py:42-46 | an unknown tag is reported as "'FIRE' is not a valid MessageType" |
| Protocol.ParseWithoutData | src/protocol.py:44 | a message without "data" is parsed with the empty payload |
| Protocol.ValidateCoordinate | src/protocol.py:49-58 | `validate_coordinate` on a string; stated by `ValidateExactly` and `ValidateExamples` |
| Protocol.ValidateExactly | src/protocol.py:49-58 | `validate_coordinate` accepts exactly two-character strings whose upper-cased first character is A..I and whose second is 1..9 |
| Protocol.SpansInOrder | src/protocol.py:57-58 | the column letters run from A and the row digits from 1, one after another |
| Protocol.ValidateExamples | src/protocol.py:49-58 | "", "A", "A10", "J1" and "A0" are rejected; "A1", "i9" and "b7" are accepted |
| Protocol.Truthy | src/protocol.py:53 | Python's truthiness of the value that `not coord` tests; stated by `FalsyValues` |
| Protocol.FalsyValues | src/protocol.py:53 | `not coord` holds exactly for null, false, 0, the empty string, the empty list and the empty object |
| Protocol.CheckCoordinate | src/protocol.py:49-58 | on a JSON string, `validate_coordinate` accepts exactly what `ValidateCoordinate` accepts and never raises |
| Protocol.Receive | src/server.py:70-79 | `receive_message` returns the parsed message exactly when a chunk arrived and parses; InvalidMessageError with its text exactly when the chunk is rejected; any other exception (disconnect, decode error, TypeError) otherwise |
| Protocol.ReceiveEach | src/server.py:70-79 | one received message for each frame, in order |
| Protocol.ReceiveCreate | src/protocol.py:27-47 | a frame built by `create_message` is received as exactly that message |
| Coordinates.ColumnLetter | src/game_model.py:95 | a column letter that `validate_coordinate` accepts is found in ALPHABET |
| Coordinates.RowDigit | src/game_model.py:96 | a row digit that `validate_coordinate` accepts is 1..9, so the row index is 0..8 |
| Coordinates.ValidIsIndexable | src/protocol.py:49-58 | every coordinate `validate_coordinate` accepts can be converted by `_coord_to_indices` |
| Coordinates.ListCoordinate | src/server.py:102-108 | a pair of one-character strings that passes `validate_coordinate` names a cell once joined |
| Server.ErrorFrame | src/server.py:104-123 | `send_message(ERROR, {'message': text})`; stated by `PayloadsDiffer` |
| Server.Reply | src/server.py:93-110 | `send_message(t)` without a payload; stated by `RepliesDistinct` |
| Server.GameOverFrame | src/server.py:113-114 | `send_message(GAME_OVER, {'score': score})`; stated by `PayloadsDiffer` and `LoopEndsWithGameOver` |
| Server.RepliesDistinct | src/server.py:109-110 | payload-less replies of different types are different frames |
| Server.PayloadsDiffer | src/server.py:104-114 | an ERROR or GAME_OVER frame is never a payload-less reply |
| Server.ShotTarget | src/server.py:102-108 | a string coordinate is shot at if it passes `validate_coordinate` and otherwise rejected; a missing coordinate is rejected; a payload that is not an object is an unexpected error; whatever is shot at names a cell |
| Server.Respond | src/server.py:97-110 | the loop goes on exactly for a SHOT whose coordinate raises nothing: "Invalid coordinate format" with the board unchanged, or HIT on a SHIP cell and MISS otherwise, with the shot resolved; counters stay consistent |
| Server.ShotLoop | src/server.py:96-114 | the shot loop reads only messages available from `pos` on |
| Server.Session | src/server.py:81-123 | a session reads no more messages than it is given |
| Server.Positioned | src/server.py:83-84 | the positioned board is consistent, has 14 ship cells and zero hits and shots |
| Server.HandshakeRejected | src/server.py:88-90 | a first message other than START_GAME gets one ERROR, naming what came (or the parse error, or "Internal server error"), no POSITIONING_SHIPS, and ends the session |
| Server.HandshakeAccepted | src/server.py:92-94 | after START_GAME the first two frames are POSITIONING_SHIPS and SHIPS_IN_POSITION |
| Server.LoopRepliesOncePerRead | src/server.py:96-114 | in the shot loop each message read gets exactly one frame, plus GAME_OVER when the game completes |
| Server.RepliesOncePerRead | src/server.py:81-123 | over a session: two acknowledgements, one frame per message after START_GAME, and GAME_OVER; a rejected start gets its single ERROR |
| Server.ValidShotReply | src/server.py:108-110 | a valid SHOT gets HIT when its cell held a ship and MISS otherwise, and the loop goes on from the resolved board |
| Server.RepeatShotMisses | src/server.py:108-110 | a SHOT at a cell already shot at gets MISS and the board is unchanged |
| Server.SecondShotMisses | src/server.py:108-110 | two SHOTs in a row at one cell: unless the first ends the game, the second gets MISS |
| Server.InvalidCoordinateContinues | src/server.py:102-106 | a missing or invalid coordinate gets "Invalid coordinate format" and the loop continues with the board unchanged |
| Server.LoopErrorEnds | src/server.py:98-100 | in the loop, a message that is not a SHOT (or a frame that fails) gets one ERROR, naming what came, and ends the session |
| Server.LoopStep | src/server.py:97-110 | a pass of the loop is the response to one message followed by the rest of the loop, or the end |
| Server.HitsThen | src/server.py:110 | HIT frames are counted one reply at a time |
| Server.LoopHits | src/server.py:96-114 | the HITs the loop sends never exceed the ship cells left, and equal them when the loop completes |
| Server.FinalBoard | src/server.py:96-111 | the board the shot loop ends on stays consistent and keeps its 14 ship cells; its meaning is in `LoopFinalScore` and `ServeShots` |
| Server.LoopFinalScore | src/server.py:96-114 | a completed loop sends GAME_OVER last, carrying the shot_count of the board it ends on, where every ship cell is hit |
| Server.LoopContinues | src/server.py:96-111 | a pass that continues is its frame followed by the loop from the next board, and ends on the same board |
| Server.LoopEndsWithGameOver | src/server.py:112-114 | a completed loop ends with GAME_OVER whose score is `get_score()` on the final board: its number of HIT plus MISS cells, with no SHIP cell left, so between 14 and 81 |
| Server.LoopLastHit | src/server.py:97-114 | if a ship cell was still afloat, a completed loop sends the sinking HIT right before GAME_OVER |
| Server.LastShotHits | src/server.py:108-110 | the pass that ends the game is a HIT |
| Server.ContinueHits | src/server.py:108-110 | a pass that continues sends HIT exactly when it adds a hit |
| Server.StopHits | src/server.py:117-123 | a pass that ends the session sends an ERROR, never a HIT |
| Server.SessionHits | src/server.py:81-123 | a session sends at most 14 HITs; a completed one sends exactly 14 and ends with GAME_OVER whose score is the final board's shot_count, the HIT plus MISS cells, between 14 and 81 |
| Server.StopFrame | src/server.py:88-90 | a session that does not start sends no HIT |
| Server.SessionStarts | src/server.py:92-97 | after START_GAME, the two acknowledgements are followed by the shot loop |
| Server.HandleClient | src/server.py:81-123 | `handle_client` sends exactly the frames of `Session`, ends and reads as it does; if the placement samples run out it sends nothing |
| Server.ServeShots | src/server.py:96-114 | the loop on the board object sends what `ShotLoop` sends, ends where it ends, and leaves the board `FinalBoard` names, its ship records kept |
| Server.Answer | src/server.py:98-110 | one pass on the board object gives `Respond`'s frame, stops exactly when it stops, otherwise leaves its board, changes nothing when it stops, and keeps the ship records |
| Client.AllCoordinates | src/client.py:44-45 | the list has 81 coordinates |
| Client.AimableExactly | src/client.py:87-89 | a coordinate the client may send is exactly an upper-case one that passes `validate_coordinate` |
| Client.CoordinateCells | src/client.py:44-45 | the k-th coordinate names the k-th cell |
| Client.AllCoordinatesExactly | src/client.py:44-45 | a string is in the list exactly when it passes `validate_coordinate` and is upper-case |
| Client.AllCoordinatesDistinct | src/client.py:44-45 | the 81 coordinates are pairwise different |
| Client.Below | src/client.py:46 | a draw used by `random.shuffle` is below its bound |
| Client.Swap | src/client.py:46 | swapping exchanges two positions and keeps the others |
| Client.SwapPermutes | src/client.py:46 | a swap keeps the multiset of elements and keeps them distinct |
| Client.Shuffled | src/client.py:46 | CPython's `random.shuffle` with the given draws; stated by `ShufflePermutes`, `Shuffle` and `ShuffledShots` |
| Client.ShuffleDown | src/client.py:46 | the shuffle's swaps from position i down to 1; stated by `ShuffleDownStep` and `ShuffleDownPermutes` |
| Client.ShuffleDownStep | src/client.py:46 | the shuffle is the swap at position i followed by the shuffle below it |
| Client.ShuffleDownPermutes | src/client.py:46 | the swaps down to position 1 keep the length, the multiset, and distinctness |
| Client.ShufflePermutes | src/client.py:46 | `random.shuffle` rearranges: same length, same elements as often as before, distinct stays distinct |
| Client.Exchange | src/client.py:46 | the in-place exchange on the array is `Swap` |
| Client.Shuffle | src/client.py:46 | `random.shuffle` in place leaves exactly `Shuffled` of the old contents |
| Client.ShuffledShots | src/client.py:42-46 | the auto-mode list has 81 coordinates, distinct, a permutation of the full list, containing exactly the sendable ones |
| Client.Prompt | src/client.py:85-90 | the prompt reads forward only, and the coordinate it returns is sendable |
| Client.PromptFinds | src/client.py:85-90 | the prompt returns the first line that validates once upper-cased, upper-cased, with every earlier line failing; when none does, it has read the whole console |
| Client.NextShot | src/client.py:77-90 | `get_next_shot` never touches the local board and returns only sendable coordinates |
| Client.NextShotModes | src/client.py:77-90 | auto mode returns `shots[shot_index]` and moves the index by one, or has run out and moves nothing; interactive mode is the prompt, keeping the index |
| Client.React | src/client.py:137-149 | answering a reply keeps shot_index and the console position, and resolves at most one shot on the local board |
| Client.ReactMeaning | src/client.py:137-149 | an ERROR with an object payload goes on unchanged; any other message resolves the shot; the loop goes on exactly for ERROR objects and non-GAME_OVER messages; it finishes exactly on GAME_OVER with an object payload, with `score` defaulting to 0; a parse error is reported as such |
| Client.ReactMisses | src/client.py:143-144 | the local board stays without ships; any reply that is not ERROR marks the shot's cell MISS and nothing else |
| Client.Pass | src/client.py:130-149 | a pass keeps the local board's shape and reads the console only forward |
| Client.Rounds | src/client.py:130-149 | the game loop keeps the local board's shape and reads the console only forward |
| Client.Expect | src/client.py:121-127 | the handshake check passes exactly for the expected type; otherwise play ends with an error, never with GAME_OVER or waiting |
| Client.Session | src/client.py:118-149 | `play` keeps the local board's shape |
| Client.ShotFrame | src/client.py:135 | `send_message(SHOT, {'coordinate': coord})`; stated by `ShotFrames` and `HandshakeGuards` |
| Client.ShotFrames | src/client.py:135 | one SHOT frame per coordinate fired, in order, each carrying that coordinate |
| Client.HandshakeGuards | src/client.py:121-127 | no SHOT is sent unless the first reply is POSITIONING_SHIPS and the second SHIPS_IN_POSITION |
| Client.FirstReplyWrong | src/client.py:121-123 | a wrong first reply ends play with "Expected POSITIONING_SHIPS, got …" naming it, and nothing fired |
| Client.SecondReplyWrong | src/client.py:125-127 | a wrong second reply ends play with "Expected SHIPS_IN_POSITION, got …" naming it, and nothing fired |
| Client.RoundsUnfold | src/client.py:130-149 | the loop is its first pass followed, when that goes on, by the rest of the loop |
| Client.RoundsResume | src/client.py:130-149 | after the shots already sent, the rest of the loop is its next pass, then the loop from there |
| Client.RoundsAimable | src/client.py:132-135 | every coordinate sent passes `validate_coordinate` and is upper-case |
| Client.OneShotPerReply | src/client.py:132-138 | at most one SHOT goes out per reply, plus one waiting for its reply |
| Client.AutoPass | src/client.py:79-83 | an auto-mode pass sends `shots[shot_index]` and moves the index by one, goes on after HIT or MISS, and fails with nothing sent once the list is used up |
| Client.AutoFiresInOrder | src/client.py:79-83 | auto mode sends the shot list in order, from shot_index up to where the index ends |
| Client.AutoNeverRepeats | src/client.py:42-46 | from a freshly generated list, auto mode never shoots at a cell twice and sends at most 81 SHOTs |
| Client.AutoRunsDry | src/client.py:80 | with only HIT or MISS replies, auto mode uses up its list and then fails with IndexError |
| Client.AutoRunsOut | src/client.py:79-83 | with only HIT or MISS replies, auto mode sends all its remaining shots, then fails with IndexError |
| Client.LocalShotsBounded | src/client.py:143-144 | the local board's shot count grows by at most the number of SHOTs sent |
| Client.RoundsUnarmed | src/client.py:143-144 | the local board stays without ships for the whole game loop |
| Client.BattleshipClient.constructor | src/client.py:29-40 | a new client has a fresh local board and shot_index 0, and in auto mode the shuffled list |
| Client.BattleshipClient.GenerateShots | src/client.py:42-46 | `_generate_shots` leaves the 81 coordinates shuffled with the given draws |
| Client.BattleshipClient.GetNextShot | src/client.py:77-94 | `get_next_shot` on the object returns and moves what `NextShot` does |
| Client.BattleshipClient.Answer | src/client.py:137-149 | the answer to a reply on the object leaves `React`'s board and goes on or ends as it does; the shot list, index and ship records are kept |
| Client.BattleshipClient.Round | src/client.py:130-149 | one pass on the object sends and ends as `Pass` does and leaves its state; the shot list and ship records are kept |
| Client.BattleshipClient.Battle | src/client.py:130-149 | the game loop on the object fires, ends and leaves its state exactly as `Rounds` does; the shot list and ship records are kept |
| Client.BattleshipClient.Play | src/client.py:112-156 | `play` sends START_GAME and then one SHOT frame per coordinate of `Session`, ends as it does, and leaves its last state; the shot list and ship records are kept |

## Left out

- Sockets: connect, accept, send, close, `recv(1024)` chunking and `.decode()` are left out. Each received chunk is one
  `Incoming` value (a frame, an undecodable chunk, or a closed connection). Chunks that join or split
  frames are not modelled.
- JSON text: the grammar, string escapes and floating-point numbers are left out. A frame carries the decoded
  value or the decoder's error text, and dictionary key order is not modelled.
- Randomness: `np.random.randint`/`choice` samples and `random.shuffle`'s `randbelow` values are
  parameters. Each shuffle draw is reduced modulo its bound, and a missing draw counts as 0.
- GameModel.GameBoard.PositionShips, Server.HandleClient: the supplied samples are finite. When they
  run out before every ship is placed, the model stops (`Unplaced`); the source keeps drawing until a
  sample fits (game_model.py:45-50).
- Ascii.UpperChar: folds ASCII letters only; Python's full Unicode `upper` is not modelled.
- Logging, `display_board`, argparse, `main`, the server's `run` loop and `client_connection` are
  left out. One logging argument is kept: client.py:140 evaluates `data.get('message', …)` for an
  ERROR reply, so an ERROR whose payload is not an object ends `play` as an unexpected error
  (`Client.React`).
- KeyboardInterrupt and `sys.exit` in `get_next_shot` are left out. An exhausted console (EOFError)
  ends `play` as an unexpected error.
- A `send_message` failure (the peer gone while the server sends) is left out. The server's outbox
  lists every frame it attempts, including the "Internal server error" after a disconnect.
- The server's `Session` covers `handle_client` after `position_ships`. The board is positioned
  before START_GAME is read, as in the source.
- Server.HandleClient, Client.BattleshipClient.Play: both turn the whole sequence of incoming frames
  into received messages (`Protocol.ReceiveEach`) before the loop, rather than one at a time; each
  frame gives the same message either way, and only the ones the loop reads affect the result.
- Protocol.ParseMessage, Protocol.ParseRejects, Protocol.Repr: the repr in the text of an unknown
  "type" is exact for null, booleans, integers, ASCII strings and lists of these. Non-ASCII characters
  are kept as they are, while Python escapes the non-printable ones (its Unicode printability table
  is not modelled). A dict is shown as `{...}`, because key order is not modelled.
- `display_board`'s reading of the local board is left out; `GetStateAt` models `get_state_at`.
