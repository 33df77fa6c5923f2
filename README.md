# Astronomy games: a verified model of the three game engines

This project models the logic of the three browser games of the astro-galaxy-explorer
application and proves properties of that model in Dafny.

- **Word search** (`wordsearch.dfy`, module `WordSearch`). This is the main engine.
  `generateGrid` builds a 12x12 grid. It writes each of the eight vocabulary words
  along a horizontal, vertical or down-right diagonal run. The start of each run is
  drawn at random, and a start is retried until the run stays inside the grid and
  meets no different letter. Every cell left empty then gets a random letter A..Z.
  During play, a click toggles a cell in or out of the ordered selection. "Verify"
  reads the selected letters in order. It accepts the first vocabulary word equal
  to those letters or to their reversal, and records that word if it was not found
  before. The selection is cleared afterwards.
- **Sliding-tile puzzle** (`puzzle.dfy`, module `Puzzle`). A 3x3 board holds nine
  tiles, and tile 8 is the blank. A shuffle runs Fisher-Yates over the identity
  board. A click swaps the clicked tile with the blank when its index is the
  blank's index plus or minus 1 or 3. The code does not check that a step of 1
  stays on the same row, and the model keeps that quirk. A move counter runs, and
  the game is won when every tile is at its own index.
- **Quiz** (`quiz.dfy`, module `Quiz`). A fixed table holds ten questions. A class
  holds the five state fields (`currentQuestion`, `selectedAnswer`, `score`,
  `showResult`, `answered`), and the answer, next and reset handlers update them.

`wrappers.dfy` holds the `Option` datatype.

How the model is shaped:

- The generator works in place on an `array2<char>`: `CanPlaceWord`, `PlaceWord`,
  `FillEmpty` and `GenerateGrid`. Its specification functions (`CanPlace`, `Place`,
  `Fill`, `LiesOn`) work on the grid as rows (`Grid = seq<seq<char>>`), and
  `ToRows` reads an array as rows.
- The empty string that marks an unwritten cell is the character `EmptyCell`
  (`'\0'`). `SelectedLetters` joins nothing for such a cell, as the code's
  `join("")` does.
- A cell id `"r-c"` becomes a `Cell(row, col)` value. The string form is injective
  on grid coordinates, so no information is lost.
- `handleCellClick` and `checkWord` only compute new lists. They become the
  functions `HandleCellClick` and `CheckWord` on a `Session` value. `CheckWord` also
  returns an `Outcome`: `Matched(word, completed)`, `AlreadyFound(word)` or
  `NoMatch`. In the code, the last two both just clear the selection.
  `completed` is the code's test `foundWords.length + 1 === words.length`,
  taken on the list as it was before the update.
- Each React handler is one atomic transition.
- Randomness is an explicit input:
  - a sequence of placement candidates (direction, row, column), used in turn across all words;
  - a letter draw `draw(r, c)` in [0, 26) for every cell;
  - a Fisher-Yates draw `draw(i)` in [0, i].

Two facts about the code shape the model:

- The code has no up-front rejection of a word longer than the grid. Such a word only
  makes the retry loop spin. In the model it uses up all the candidates
  (`LongWordNeverFits`, and `GenerateGrid` reports failure).
- The code does not tell "found before" apart from "no match". Both only clear the
  selection.

## Model

| member | source | states |
|---|---|---|
| `WordSearch.WithinGridIsInGrid` | client/src/components/games/WordSearchGame.tsx:43-54 | the edge tests at lines 44, 49 and 54 (column for horizontal, row for vertical, both for diagonal), from a start inside the grid, keeps every cell of the run inside the grid |
| `WordSearch.LongWordNeverFits` | client/src/components/games/WordSearchGame.tsx:18-27 | a word longer than the grid side fails every placement check, so the code's retry loop could never end for it |
| `WordSearch.CanPlaceWord` | client/src/components/games/WordSearchGame.tsx:42-60 | returns true exactly when the run stays within the grid edge for its direction and every cell on it is empty or already holds that position's letter |
| `WordSearch.PlaceWord` | client/src/components/games/WordSearchGame.tsx:62-72 | the array afterwards is `Place` of the array before: each run cell gets its letter and every other cell is unchanged |
| `WordSearch.PlaceSpellsWord` | client/src/components/games/WordSearchGame.tsx:62-72 | after placing, the cells (r, c+i), (r+i, c) or (r+i, c+i), for i in [0, len), spell the word in order |
| `WordSearch.PlaceLeavesOtherCells` | client/src/components/games/WordSearchGame.tsx:62-72 | placing changes no cell off the run |
| `WordSearch.PlaceKeepsLetters` | client/src/components/games/WordSearchGame.tsx:23-24 | placing after a successful check never changes the letter of a non-empty cell |
| `WordSearch.PlaceKeepsEarlierWord` | client/src/components/games/WordSearchGame.tsx:16-28 | a word already lying on a run still lies on it after a later word is placed |
| `WordSearch.PlaceKeepsClean` | client/src/components/games/WordSearchGame.tsx:62-72 | placing an upper-case word keeps every cell empty or an upper-case letter |
| `WordSearch.LetterOf` | client/src/components/games/WordSearchGame.tsx:34 | `String.fromCharCode(65 + k)` for k in [0, 26) is the upper-case letter k places after 'A' |
| `WordSearch.FillEmpty` | client/src/components/games/WordSearchGame.tsx:31-37 | the nested loops give each empty cell its drawn letter and leave the other cells unchanged (the array afterwards is `Fill` of the array before) |
| `WordSearch.FillIsFull` | client/src/components/games/WordSearchGame.tsx:31-37 | after the fill no cell is empty and every cell is a letter in 'A'..'Z' |
| `WordSearch.FillKeepsWord` | client/src/components/games/WordSearchGame.tsx:31-37 | the fill leaves every placed word intact |
| `WordSearch.GenerateGrid` | client/src/components/games/WordSearchGame.tsx:11-40 | succeeds exactly when the first-fit `Layout` of the words over the candidates succeeds, and the grid is then that layout with its empty cells filled. On success, every cell is an upper-case letter, every word lies on some straight run, and no word is longer than the side. On failure, some word's remaining candidates all fail the placement check on a clean square grid that already holds every earlier word |
| `WordSearch.PlaceWords` | client/src/components/games/WordSearchGame.tsx:16-28 | the word loop turns the grid into the first-fit `Layout` of the words and fails exactly when that layout does. On success each word lies on its candidate run. On failure it is `Stuck`: the failing word's remaining candidates all fail on a clean grid holding every earlier word |
| `WordSearch.PlaceOne` | client/src/components/games/WordSearchGame.tsx:17-27 | the retry loop for one word writes it at the first candidate from `next` on that passes the check (`FirstFit`), or leaves the grid unchanged when none does |
| `WordSearch.FirstFitIsFirst` | client/src/components/games/WordSearchGame.tsx:18-26 | the index `FirstFit` finds is the first candidate from `next` on that passes the placement check, and None means that none from `next` on passes |
| `WordSearch.FittingCandidateIsTaken` | client/src/components/games/WordSearchGame.tsx:18-26 | a word with a fitting candidate is placed, so generation cannot fail on such an input ("SOL" at the top-left corner of an empty 12x12 grid) |
| `WordSearch.PlacingKeepsPlaced` | client/src/components/games/WordSearchGame.tsx:23-25 | placing a word where the check passes keeps every earlier word on its run, puts the new word on its run and keeps the grid clean |
| `WordSearch.LayoutStep` | client/src/components/games/WordSearchGame.tsx:16-28 | the layout places the first word at its first fitting candidate and continues the next word's search after it, or fails when no candidate fits |
| `WordSearch.VocabularyIsWords` | client/src/components/games/WordSearchGame.tsx:9 | every vocabulary word is a non-empty run of upper-case letters |
| `WordSearch.VocabularyIsReversalFree` | client/src/components/games/WordSearchGame.tsx:9 | the vocabulary repeats no word and holds no word that is another's reversal |
| `WordSearch.ResetGame` | client/src/components/games/WordSearchGame.tsx:89-93 | a new game has a 12x12 grid containing every word, no word found and nothing selected, and it satisfies the session invariant. A game comes back exactly when the vocabulary's first-fit layout succeeds, and its grid is that layout filled; otherwise some word's remaining candidates all fail on the grid it met |
| `WordSearch.HandleCellClick` | client/src/components/games/WordSearchGame.tsx:95-102 | the clicked cell's membership flips and no other cell's membership changes. A newly selected cell goes at the end, and a cell clicked again is filtered out of the selection with the others kept in order |
| `WordSearch.Without` | client/src/components/games/WordSearchGame.tsx:98 | the filtered selection holds exactly the cells other than the clicked one |
| `WordSearch.WithoutAt` | client/src/components/games/WordSearchGame.tsx:98 | in a duplicate-free selection, filtering out the cell at index k leaves the cells before k followed by the cells after k |
| `WordSearch.ClickKeepsOrder` | client/src/components/games/WordSearchGame.tsx:97-98 | clicking a selected cell again removes just it and keeps the other cells in click order |
| `WordSearch.WithoutKeepsDistinct` | client/src/components/games/WordSearchGame.tsx:98 | filtering a cell out of a duplicate-free selection leaves it duplicate-free |
| `WordSearch.ClickKeepsValid` | client/src/components/games/WordSearchGame.tsx:95-102 | a click keeps the session invariant, so the selection never contains a cell twice |
| `WordSearch.Reverse` | client/src/components/games/WordSearchGame.tsx:113 | the reversal has the same length, and its letter i is letter n-1-i of the input |
| `WordSearch.SelectedLetters` | client/src/components/games/WordSearchGame.tsx:105-110 | the joined text of the selected cells has at most one letter per cell, since an empty cell joins nothing |
| `WordSearch.Matches` | client/src/components/games/WordSearchGame.tsx:113 | a word fits the letters exactly when the letters spell it forwards or backwards, and then the two have the same length |
| `WordSearch.LettersOfFullCells` | client/src/components/games/WordSearchGame.tsx:105-110 | on non-empty cells the joined letters are the cells' letters in selection order |
| `WordSearch.Find` | client/src/components/games/WordSearchGame.tsx:112-114 | returns nothing exactly when no word equals the letters or their reversal, and otherwise the first word that does |
| `WordSearch.CheckWord` | client/src/components/games/WordSearchGame.tsx:104-131 | the selection is cleared and the grid kept. A first-matching word not found before is appended and reported, with `completed` exactly when the list reaches the vocabulary's length. Otherwise the found list is unchanged, and NoMatch is reported exactly when no word matches |
| `WordSearch.CheckKeepsValid` | client/src/components/games/WordSearchGame.tsx:116-117 | verification keeps the found list a duplicate-free part of the vocabulary, and the old list is a prefix of the new one |
| `WordSearch.AllFoundIffSameLength` | client/src/components/games/WordSearchGame.tsx:121 | a duplicate-free found list drawn from a duplicate-free vocabulary has the vocabulary's length exactly when it holds every word |
| `WordSearch.CompletedIffAllFound` | client/src/components/games/WordSearchGame.tsx:121-127 | the completion branch fires exactly when the new word makes every vocabulary word found |
| `WordSearch.OnlyItselfFits` | client/src/components/games/WordSearchGame.tsx:112-114 | in a reversal-free vocabulary, only the word itself fits a word or its reversal |
| `WordSearch.SameWordAt` | client/src/components/games/WordSearchGame.tsx:112-114 | in a reversal-free vocabulary, two indices fitting the same word or its reversal are equal |
| `WordSearch.FindsWordEitherWay` | client/src/components/games/WordSearchGame.tsx:112-114 | the search finds a vocabulary word as itself, whether it is read forwards or backwards |
| `WordSearch.RunSpellsWord` | client/src/components/games/WordSearchGame.tsx:105-110 | the cells of a placed word, in order, read as the word |
| `WordSearch.ReversedRunSpellsReversal` | client/src/components/games/WordSearchGame.tsx:105-110 | the same cells in reverse order read as the reversed word |
| `WordSearch.CheckReportsFoundWord` | client/src/components/games/WordSearchGame.tsx:116-130 | letters that find w report w as new, with the completion test, or as found before |
| `WordSearch.SelectingWordMatches` | client/src/components/games/WordSearchGame.tsx:104-131 | selecting a placed word's cells forwards or backwards reports that word: Matched if it is new, AlreadyFound otherwise |
| `WordSearch.RematchIsIdempotent` | client/src/components/games/WordSearchGame.tsx:116-130 | checking again the cells that just matched reports AlreadyFound and leaves the found list unchanged |
| `Puzzle.Identity` | client/src/components/games/PuzzleGame.tsx:31 | the starting board holds piece i at index i |
| `Puzzle.IndexOf` | client/src/components/games/PuzzleGame.tsx:42 | `indexOf`: -1 exactly when the value is absent, otherwise the first index holding it |
| `Puzzle.Swap` | client/src/components/games/PuzzleGame.tsx:52 | the two entries are exchanged, all others are unchanged, and the multiset is kept |
| `Puzzle.Shuffled` | client/src/components/games/PuzzleGame.tsx:30-35 | the board the shuffle deals has nine entries and the multiset of the identity board |
| `Puzzle.FisherYates` | client/src/components/games/PuzzleGame.tsx:32-35 | the swap loop keeps the length and the multiset of the board |
| `Puzzle.ShuffledIsPermutation` | client/src/components/games/PuzzleGame.tsx:31-35 | a shuffled board is a permutation of 0..8 |
| `Puzzle.ShuffledPieces` | client/src/components/games/PuzzleGame.tsx:31-35 | the in-place loop on the fresh array yields the Fisher-Yates board for the draws, a permutation of 0..8 |
| `Puzzle.PuzzleGame.constructor` | client/src/components/games/PuzzleGame.tsx:16-18 | the initial state has an empty board, 0 moves and is not complete |
| `Puzzle.PuzzleGame.ShufflePuzzle` | client/src/components/games/PuzzleGame.tsx:30-39 | the board becomes the shuffled permutation, `moves` is 0 and `isComplete` is false |
| `Puzzle.TwiceInMultiset` | client/src/components/games/PuzzleGame.tsx:42 | a value at two different indices occurs at least twice |
| `Puzzle.BlankIsUnique` | client/src/components/games/PuzzleGame.tsx:42 | a permutation has exactly one blank, and `indexOf(8)` finds it |
| `Puzzle.MoveKeepsPermutation` | client/src/components/games/PuzzleGame.tsx:51-53 | swapping the clicked index with the blank keeps a permutation and puts the blank on the clicked index |
| `Puzzle.IsSolved` | client/src/components/games/PuzzleGame.tsx:56 | the win test holds exactly when the board is 0, 1, 2, ... in order |
| `Puzzle.SolvedIsIdentity` | client/src/components/games/PuzzleGame.tsx:56 | the win test holds exactly of the identity board |
| `Puzzle.IsValidMove` | client/src/components/games/PuzzleGame.tsx:43-50 | a click index is among the listed moves exactly when it lies at distance 1 or 3 from the blank |
| `Puzzle.ValidMoveIsAdjacentOrWrap` | client/src/components/games/PuzzleGame.tsx:43-50 | the click rule accepts exactly the edge neighbours of the blank plus the two row-wrap steps |
| `Puzzle.RowWrapAccepted` | client/src/components/games/PuzzleGame.tsx:43-50 | the rule accepts index 3 for a blank at index 2 although those cells share no edge |
| `Puzzle.PuzzleGame.HandlePieceClick` | client/src/components/games/PuzzleGame.tsx:41-67 | an invalid click changes nothing. A valid one swaps exactly the clicked index with the blank, adds 1 to `moves`, and sets `isComplete` when the new board is solved. The board stays a permutation |
| `Quiz.TableIsWellFormed` | client/src/components/games/QuizGame.tsx:11-72 | the table has ten questions, and each one's correct index lies within its options |
| `Quiz.QuizGame.constructor` | client/src/components/games/QuizGame.tsx:75-79 | the five fields start at question 0, nothing selected, score 0, no result and not answered |
| `Quiz.QuizGame.SelectAnswer` | client/src/components/games/QuizGame.tsx:170-173 | the radio group sets the selection to the chosen option and changes nothing else |
| `Quiz.QuizGame.HandleAnswer` | client/src/components/games/QuizGame.tsx:87-99 | with no selection nothing changes. Otherwise `answered` is set, the score rises by 1 exactly when the selection is the correct index, and nothing else changes. Answering an unanswered question keeps the invariant |
| `Quiz.QuizGame.HandleNext` | client/src/components/games/QuizGame.tsx:101-113 | before the last question it advances by one and clears the selection and `answered`. On the last it sets `showResult` and does not advance |
| `Quiz.QuizGame.ResetQuiz` | client/src/components/games/QuizGame.tsx:115-121 | all five fields return to their initial values |
| `Quiz.QuizGame.ScoreBound` | client/src/components/games/QuizGame.tsx:87-113 | in every state the buttons keep, score <= currentQuestion + 1 <= number of questions |
| `Quiz.CountCorrectBound` | client/src/components/games/QuizGame.tsx:91-94 | the count of right choices is at most the number of choices |
| `Quiz.PlayRound` | client/src/components/games/QuizGame.tsx:210-222 | a round played in the order the page offers ends with the number of right choices as the score, at most the number of questions |

## Left out

- Rendering, CSS and layout of all three games. This includes the grid buttons, the puzzle's background offsets and the quiz's result page.
- The `saveProgress` mutations and the `toast` messages, which are network and UI effects. The completion event appears as `Outcome.Matched.completed`, `PuzzleGame.isComplete` and `QuizGame.showResult`. The payloads sent to the server are not modelled.
- `Math.random`, which cannot be modelled: placement candidates, filler letters and swap indices are explicit inputs.
- GenerateGrid: the code retries forever, but the model works through a finite candidate sequence and reports failure when it is used up. This is a way to make the loop terminate, not behaviour of the component. The filler letters are drawn per cell (`draw(r, c)`), whereas the code takes draws one by one only for empty cells. That is the same distribution of grids.
- GenerateGrid: the code reads the constant vocabulary and the size 12, and the model takes both as parameters. `ResetGame` passes `Words` and `Size`.
- The puzzle's image choice, and the effect that shuffles again when the image changes (PuzzleGame.tsx:15, 26-28, 127-136). The image has no effect on the game logic, and a re-shuffle is a call of `ShufflePuzzle`.
- Puzzle.PuzzleGame.HandlePieceClick: requires a shuffled board, because before the mount effect runs no tile is rendered, so nothing can be clicked. It ignores `isComplete`, because the code only disables the buttons in rendering.
- Quiz.QuizGame.HandleAnswer: the code's handler does not check `answered`. A second call would add a second point, and only the page's button swap prevents that, so the invariant is promised only for an unanswered question.
- WordSearch.CheckWord: requires every selected cell to be a grid cell, because selections only come from clicks on rendered cells (the session invariant keeps this).
- WordSearch.CheckWord: treats a found word as a match, where the code tests its truthiness (WordSearchGame.tsx:116). The two differ only for an empty vocabulary word, and no word of `Words` is empty.
- Quiz `progress` and `percentage` and the 80/60 thresholds, which are floating-point display values.
- React batching and stale closures: each handler is one atomic transition on its state.
- The server, the database schema, the chat assistant and the other pages are not part of this model.
