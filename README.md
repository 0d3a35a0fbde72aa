# Snake game core in Dafny

A model of the deterministic core of a single-player Snake game. The game
runs on a square board of `board_size` x `board_size` cells. Each tick of
the engine moves the snake one cell in its current direction. A move off
the board or into the snake's own body ends the game. Eating the food scores
10 points, grows the snake by one cell and places new food on a free cell.
When a game ends with a positive score, that score enters a ranked list of
the ten best.

Files and modules:

- `wrappers.dfy`, module `Wrappers`: `Option` (Python's `Optional`) and
  `Result` (a construction that may raise).
- `game_state.dfy`, module `GameModels` (from `models/game_state.py`):
  `Direction`, its step `Delta` and its reversal `Opposite`; `Position`;
  Pydantic's checked construction `MakePosition`; the position `__eq__`
  as `SameCell`; the initial snake; and the `GameState` class with its
  `Reset` method.
- `high_scores.dfy`, module `Scores` (from `models/game_state.py`):
  `HighScore`, then Python's stable `list.sort(key=score, reverse=True)`
  as the insertion sort `SortDesc`, then the cut to ten entries, then the
  `HighScores` class with `AddScore` and `GetHighScore`.
- `game_engine.dfy`, module `GameEngine` (from `core/game_engine.py`): the
  `SnakeGameEngine` class. It holds one `GameState` and one `HighScores`,
  and carries the invariant `Valid()`:
  - the board size is at least 4;
  - the snake is non-empty, lies on the board and never repeats a cell;
  - food is set, on the board and off the snake;
  - the score is a non-negative multiple of 10;
  - a finished game is never paused.

  Each of its methods states its whole new state in terms of the old one.

Cells are plain integers, so that the engine's bounds check can be stated
as written. The source's `ge=0` constraint on `Position` is `ValidPosition`
together with `MakePosition`; see "## Findings".

Food placement stands for the source's `random.randint` retry loop. It
chooses, nondeterministically, any board cell the snake does not cover.
`Update` therefore requires that such a cell still exists whenever the tick
eats (`CanRespawn`). On a full board the source's loop never terminates.

The high-score timestamp (`datetime.now()` in the source) is the `now`
parameter of `Update` and the `date` parameter of `AddScore`.

## Model

| member | source | states |
|---|---|---|
| `GameModels.Delta` | core/game_engine.py:94-99 | each heading moves exactly one unit along exactly one axis |
| `GameModels.Opposite` | core/game_engine.py:44-49 | the reverse heading differs from the heading and has the negated step |
| `GameModels.OppositeCharacterized` | core/game_engine.py:44-51 | reversing twice is the identity; a heading is the opposite exactly when its step is the negated step |
| `GameModels.MakePosition` | models/game_state.py:21-24 | building a position succeeds exactly when both coordinates are at least 0, and then keeps them; otherwise it raises |
| `GameModels.SameCell` | models/game_state.py:26-29 | a position equals another value exactly when that value is a position with the same x and y; it never equals `None` |
| `GameModels.NextPosition` | core/game_engine.py:92-102 | the next cell is at distance exactly 1 from the current one |
| `GameModels.NextPositionReversible` | core/game_engine.py:92-102 | a step followed by a step in the opposite heading returns to the start cell, and a step always changes the cell |
| `GameModels.InitialSnake` | models/game_state.py:47-52 | three cells on row `board_size / 2`, head at column `board_size / 2`, then one and two columns to its left |
| `GameModels.InitialSnakeWellFormed` | models/game_state.py:45-52 | from board size 4 up, the initial snake is on the board and has no repeated cell, and a free cell remains for food |
| `GameModels.InitialSnakeValidIff` | models/game_state.py:47-52 | every initial cell satisfies `ge=0` exactly when the board size is at least 4 |
| `GameModels.GameState.constructor` | models/game_state.py:35-43 | a new state has an empty snake, no food, heading RIGHT, score 0 and both flags false |
| `GameModels.GameState.Reset` | models/game_state.py:45-57 | the snake becomes the centred initial snake; heading RIGHT, score 0, both flags false, no food; nothing else |
| `Scores.InsertDescSplits` | models/game_state.py:78-79 | an entry inserted into a list goes after the leading entries that score at least as much and before the rest |
| `Scores.LeadAtLeastSplits` | models/game_state.py:79 | the entries before the insertion point score at least the new entry's score; in a sorted list every later entry scores less |
| `Scores.InsertDescSorted` | models/game_state.py:79 | inserting into a sorted list keeps it sorted |
| `Scores.InsertDescStable` | models/game_state.py:79 | inserting into a sorted list keeps each group of equal scores in order, with the new entry last in its group |
| `Scores.SortDesc` | models/game_state.py:79 | the stable descending sort; same length as its input (sortedness, permutation and stability in `Scores.SortDescSorted`, `Scores.SortDescPermutes`, `Scores.SortDescStable`) |
| `Scores.SortDescSorted` | models/game_state.py:79 | the sort's result is non-increasing by score |
| `Scores.SortDescPermutes` | models/game_state.py:79 | the sort's result is a permutation of its input |
| `Scores.SortDescStable` | models/game_state.py:79 | the sort is stable: for every score, the entries with that score keep their input order |
| `Scores.SortDescOfSorted` | models/game_state.py:79 | sorting an already sorted list leaves it unchanged |
| `Scores.InsertDescAtEnd` | models/game_state.py:79 | an entry that scores no more than every held entry is placed last |
| `Scores.Top` | models/game_state.py:80 | the cut keeps the first `min(length, 10)` entries, in order |
| `Scores.WithEntry` | models/game_state.py:78-80 | after adding a score the list is non-increasing and has length `min(old length + 1, 10)` |
| `Scores.WithEntryKeepsBest` | models/game_state.py:78-80 | the kept entries are the front of a permutation of the old entries plus the new one, and no dropped entry scores more than a kept one |
| `Scores.AddToSorted` | models/game_state.py:78-80 | on a sorted list, the new entry is inserted after every entry scoring at least as much; it is kept exactly when fewer than 10 of those are ahead of it |
| `Scores.NewEntryAfterTies` | models/game_state.py:78-79 | after the sort, the entries tied with the new one are the old ties in their old order, followed by the new entry |
| `Scores.AddScoreTiesAfterOld` | models/game_state.py:78-80 | below the cap, the same holds for the list `add_score` leaves |
| `Scores.AddLowestGoesLast` | models/game_state.py:78-80 | below the cap, a score no higher than every held score is appended at the end |
| `Scores.AddBestGoesFirst` | models/game_state.py:78-80 | below the cap, a score higher than every held score goes first |
| `Scores.HighScores.constructor` | models/game_state.py:67-69 | a collection holds exactly the entries it is given |
| `Scores.HighScores.AddScore` | models/game_state.py:71-80 | the list becomes the old entries plus the new `(score, date, player)` entry, stably sorted by descending score and cut to 10; it is sorted and its length is `min(old + 1, 10)` |
| `Scores.HighScores.GetHighScore` | models/game_state.py:82-84 | 0 for an empty list, otherwise the first entry's score; on a sorted list no entry scores more |
| `GameEngine.NextPositionAsWritten` | core/game_engine.py:101-102 | building the next head as the source does raises exactly when a coordinate becomes negative; otherwise it gives `NextPosition` |
| `GameEngine.AsWrittenRaisesAtTopLeftEdges` | core/game_engine.py:66-72 | from a board cell, the as-written step raises exactly on moves over the left or top edge, and each of those moves also leaves the board |
| `GameEngine.LeftEdgeRaisesAsWritten` | core/game_engine.py:66-72 | heading LEFT from (0, 10) raises a validation error for (-1, 10), and that cell is off a 20x20 board |
| `GameEngine.WallCheckCatchesEveryEdge` | core/game_engine.py:68-72 | from a board cell, the next head leaves the board exactly when the move crosses one of the four edges |
| `GameEngine.Advance` | core/game_engine.py:79-88 | a successful move puts the new head first, then the old snake without its tail, or the whole old snake when food is eaten; the length grows by one only when eating |
| `GameEngine.AdvanceWellFormed` | core/game_engine.py:79-88 | a move onto a free board cell keeps the snake legal; the covered cells become the new head plus the old cells, minus the old tail when not eating |
| `GameEngine.SnakeGameEngine.constructor` | core/game_engine.py:15-18 | a new engine holds the given high scores, the centred initial snake heading RIGHT, score 0, both flags false, and food on a free cell |
| `GameEngine.SnakeGameEngine.ResetGame` | core/game_engine.py:20-23 | from any state with board size at least 4: the initial snake, heading RIGHT, score 0, both flags false, food on a free board cell |
| `GameEngine.SnakeGameEngine.SpawnFood` | core/game_engine.py:25-36 | food is set to a board cell not on the snake; nothing else changes |
| `GameEngine.SnakeGameEngine.ChangeDirection` | core/game_engine.py:38-52 | nothing changes when the game is over or paused; otherwise the heading becomes the new one unless it is the opposite of the current one; nothing else changes |
| `GameEngine.SnakeGameEngine.TogglePause` | core/game_engine.py:54-57 | the pause flag flips unless the game is over, in which case nothing changes |
| `GameEngine.SnakeGameEngine.Update` | core/game_engine.py:59-90 | see the three cases below |
| `GameEngine.SnakeGameEngine.GameOver` | core/game_engine.py:104-111 | the game-over flag is set and nothing else in the state changes; the score is added to the high scores only when positive |
| `GameEngine.SnakeGameEngine.GetHighScore` | core/game_engine.py:117-119 | 0 with no scores, otherwise the first entry's score, and the maximum when the list is sorted |

The three cases of `Update`:

1. Paused or over: the result is false, and the state and the high scores
   are unchanged.
2. The next head is off the board, or on any snake cell including the
   current tail: the result is false and the game is over. The snake,
   food, score and heading are unchanged. A positive score is recorded.
3. Otherwise the result is true and the snake is
   `Advance(old snake, next head, eats)`. The score rises by 10 exactly
   when eating. Without eating, the food is unchanged. The heading and
   the flags are unchanged. `Valid()` holds again, so the food is off the
   new snake.

## Findings

| source | as written | input that shows it | evidently intended | confidence | as-written member | corrected member |
|---|---|---|---|---|---|---|
| core/game_engine.py:102 | the next head is built as a `Position`, whose coordinates must be at least 0, so a step over the left or top edge raises a validation error before the `< 0` tests of the wall check at lines 69-70 can run; the game is not marked over and no score is recorded | snake head at (0, 10) heading LEFT on the 20x20 board | a step over any edge ends the game through the wall check | high (not executed) | `GameEngine.NextPositionAsWritten` | `GameModels.NextPosition` |

On the as-written side, `GameEngine.AsWrittenRaisesAtTopLeftEdges` proves
that the construction raises on exactly those edge moves, and
`GameEngine.LeftEdgeRaisesAsWritten` is the concrete case. On the corrected
side, the model uses `NextPosition` on unbounded integers, and
`GameEngine.WallCheckCatchesEveryEdge` proves that the wall check then
catches all four edges. `Update` is built on the corrected definition.

Two behaviours of the source worth knowing:

- Only `GameEngine.NextPositionAsWritten` raises on a step over the left or
  top edge, as the source does. `GameEngine.SnakeGameEngine.Update` follows
  the intended behaviour of the wall check: a step over any of the four
  edges ends the game and records a positive score.
- A high-score list read from storage is kept exactly as read. It is sorted
  and cut to ten entries only at the next `add_score`. The model therefore
  does not include sortedness in any invariant of `HighScores`.

## Left out

- `HighScores.save_to_file` and `HighScores.load_from_file`: file I/O and
  JSON. The engine's constructor takes the loaded entries as a parameter.
  The source's load yields an empty list when the file is missing or
  corrupt. The save at the end of a game is not modelled.
- `datetime.now()`: wall-clock time. The formatted date is a string
  parameter (`now`, `date`).
- `random.randint`: randomness. Food placement is a nondeterministic choice
  of a free board cell, so uniformity is not modelled.
- `GameEngine.SnakeGameEngine.Update`: at the left and top edges it
  models the corrected wall check, not the source's validation error raised
  at core/game_engine.py:102 (see "## Findings"; the raising step is
  `GameEngine.NextPositionAsWritten`).
- `GameEngine.SnakeGameEngine.Update`: requires `CanRespawn()`, that is, a
  free cell must remain whenever the tick eats. On a full board the
  source's retry loop never ends, and a model of that would not terminate.
- `GameEngine.SnakeGameEngine.ResetGame`,
  `GameEngine.SnakeGameEngine.constructor` and `GameModels.GameState.Reset`:
  require a board size of at least 4. For smaller boards the source's reset raises a validation error
  (`GameModels.InitialSnakeValidIff`).
- `GameEngine.SnakeGameEngine.ChangeDirection`, `TogglePause`, `Update`,
  `GameOver`: require `Valid()`. The source states no such precondition,
  but every state its own operations reach satisfies it.
- `Scores.AddScoreTiesAfterOld`: stated only below the cap of ten. At the
  cap, `Scores.NewEntryAfterTies` gives the order before the cut, and the
  cut keeps a prefix (`Scores.Top`).
- `get_game_state` and `get_high_scores`: they only return the engine's
  objects, which are the public fields `gameState` and `highScores` here.
  Aliasing between the engine and its renderers is not modelled.
- `Position.__hash__` (models/game_state.py:31-32): no hashed collection of positions occurs in the core, so it is not modelled.
- `HighScores.add_score`'s default `player="Player"` is the explicit
  argument `Scores.DefaultPlayer`. The engine's game-over hook passes it.
- The user interface (`app/main.py`, `app/components/`), the settings
  (`app/config.py`, whose board size is a constructor parameter here) and
  the entry point (`main.py`) are not part of this model.
