# Cliché bingo, modelled in Dafny

A model of the cliché-bingo console game: a 5×5 board filled with phrases
drawn at random from a dictionary around a fixed `FREE SQUARE`, a move that
marks a square with `X`, the padded text rendering of the board, and the
game loop that reads `x,y` moves until `exit`.

Files, one module each:

- `outcomes.dfy` — `Outcomes`: `Option` and `Result`, used for the values the Java code may lack and the exceptions it throws.
- `java_text.dfy` — `JavaText`: the two library routines the loop uses to read a move, `String.split(",")` and `Integer.parseInt`, and decimal printing as their partner.
- `bingo_board.dfy` — `BingoBoard`: the `BingoBoard` inner class (construction, `setSquare`, `print`) and what construction, marking and rendering guarantee.
- `cliche_bingo_app.dfy` — `ClicheBingoApp`: one pass of the loop in `play()`, a whole session over a list of typed tokens, and start-up from the loaded dictionary.

Randomness is a parameter. The caller supplies the 24 values `nextInt` returns, one per draw. `ValidChoices` requires each value to lie below the bound in force at that draw. When that bound is not positive, `nextInt` throws and the value is never used. Construction is parameterised by a `Sampler`. `AsWritten` draws with `nextInt(size - 1)`, as the source does. `Corrected` draws with `nextInt(size)`; see Findings. Console input is a sequence of tokens and standard output a sequence of lines.

Behaviour of the code that the model keeps exactly:

- A dictionary needs at least 25 entries. With 24, the 24th draw calls `nextInt(0)`, which throws.
- A typed token can end the program with an uncaught `ArrayIndexOutOfBoundsException` in three ways. A token with no parts at all, such as `,`, faults on `coords[0]`. A single numeric part, such as `3`, faults on `coords[1]`. A negative coordinate with neither coordinate 5 or more, such as `-1,0`, faults in `setSquare` when the grid is indexed. The model gives the last one its own error, `IndexOutOfBounds`, and all three the step outcome `Fault`.
- `setSquare` tests only the upper bound. A negative coordinate paired with one of 5 or more, such as `-1,7`, gets the reply `Board is of size 5`, because that test throws `IllegalArgumentException` before the grid is indexed.

## Model

| member | source | states |
|---|---|---|
| JavaText.Split | src/com/rogueitem/clichebingo/app/ClicheBingoApp.java:90 | `split(",")` gives the whole token when it has no comma; no part contains a comma; when a comma occurs, the last remaining part is non-empty (trailing empty parts are dropped) |
| JavaText.DropTrailingEmpty | src/com/rogueitem/clichebingo/app/ClicheBingoApp.java:90 | the result is the longest prefix that does not end in an empty string, and everything cut off is empty |
| JavaText.JoinFields | src/com/rogueitem/clichebingo/app/ClicheBingoApp.java:90 | joining the comma-separated fields of a token with commas gives the token back |
| JavaText.FieldsJoin | src/com/rogueitem/clichebingo/app/ClicheBingoApp.java:90 | the other direction: comma-free fields are recovered exactly from their join |
| JavaText.SplitPair | src/com/rogueitem/clichebingo/app/ClicheBingoApp.java:90-91 | a token `a,b` with comma-free parts and non-empty `b` splits into exactly `[a, b]` |
| JavaText.ParseInt | src/com/rogueitem/clichebingo/app/ClicheBingoApp.java:95-96 | a parsed value fits a 32-bit `int`; success needs a digit at the end and only digits after an optional leading sign; a negative value has a leading `-`; a leading character that is neither digit nor sign is rejected |
| JavaText.ParseIntShape | src/com/rogueitem/clichebingo/app/ClicheBingoApp.java:95-96 | a string `parseInt` accepts is an optional sign, some leading zeros, and the decimal text of the value's magnitude; a positive value has no `-` |
| JavaText.ParseNumeral | src/com/rogueitem/clichebingo/app/ClicheBingoApp.java:95-96 | the converse: an optional sign, any number of leading zeros and the decimal text of a number whose signed value fits an `int` parse to exactly that signed value |
| JavaText.ShowInt | src/com/rogueitem/clichebingo/app/ClicheBingoApp.java:102 | the decimal text of an `int` starts with `-` iff it is negative, and is otherwise digits only |
| JavaText.ParseShowInt | src/com/rogueitem/clichebingo/app/ClicheBingoApp.java:95-96 | every 32-bit `int` printed in decimal parses back to itself |
| BingoBoard.RemoveAtContents | src/com/rogueitem/clichebingo/app/ClicheBingoApp.java:132 | `dict.remove(key)` takes out exactly the entry at `key`: earlier entries keep their place, later ones move down by one |
| BingoBoard.Draw | src/com/rogueitem/clichebingo/app/ClicheBingoApp.java:130-132 | the draws succeed iff the bound at the last draw is positive; on success there is one word per draw and the dictionary shrinks by the number of draws |
| BingoBoard.DrawPermutes | src/com/rogueitem/clichebingo/app/ClicheBingoApp.java:130-132 | the drawn words plus what is left of the dictionary are a permutation of the dictionary |
| BingoBoard.Layout | src/com/rogueitem/clichebingo/app/ClicheBingoApp.java:124-134 | row-major, square 12 (row 2, column 2) is `FREE SQUARE` and the other 24 squares take the draws in drawing order |
| BingoBoard.Rows | src/com/rogueitem/clichebingo/app/ClicheBingoApp.java:124-125 | the grid is 5×5 and square `(i, j)` is the `5i + j`-th in row-major order |
| BingoBoard.RunningLongestIsMax | src/com/rogueitem/clichebingo/app/ClicheBingoApp.java:135 | the running update of `longestWord` ends at the largest square length (or at its start value if no square is longer) |
| BingoBoard.Build | src/com/rogueitem/clichebingo/app/ClicheBingoApp.java:122-138 | construction succeeds iff the bound of the 24th draw is positive; the board is 5×5 with `FREE SQUARE` at the centre and the dictionary is 24 entries shorter |
| BingoBoard.NewBoard | src/com/rogueitem/clichebingo/app/ClicheBingoApp.java:122-138 | the constructor as written succeeds iff the dictionary has at least 25 entries |
| BingoBoard.NewBoardFixed | src/com/rogueitem/clichebingo/app/ClicheBingoApp.java:130 | with `nextInt(dict.size())` construction succeeds iff the dictionary has at least 24 entries |
| BingoBoard.DrawFollowsPool | src/com/rogueitem/clichebingo/app/ClicheBingoApp.java:130-132 | every drawn index is valid for the dictionary as it then stands; the t-th word is the entry at the t-th index after t removals; the remainder is the dictionary after all removals |
| BingoBoard.ConstructionConsumesDictionary | src/com/rogueitem/clichebingo/app/ClicheBingoApp.java:127-134 | the centre takes no entry; each other square holds the entry at its drawn index, which is removed; the remainder is 24 shorter; the 24 words plus the remainder are a permutation of the dictionary |
| BingoBoard.ConstructionPermutes | src/com/rogueitem/clichebingo/app/ClicheBingoApp.java:130-134 | the 24 non-centre squares plus the remaining dictionary form the same multiset as the original dictionary |
| BingoBoard.ConstructionLongestIsMax | src/com/rogueitem/clichebingo/app/ClicheBingoApp.java:126-135 | after construction no square is longer than `longestWord`, some square is exactly that long, and `longestWord` is at least 11 (`FREE SQUARE`) |
| BingoBoard.ConstructionDistinct | src/com/rogueitem/clichebingo/app/ClicheBingoApp.java:130-134 | a duplicate-free dictionary gives 24 pairwise distinct drawn squares; if it also lacks `FREE SQUARE`, all 25 squares are pairwise distinct |
| BingoBoard.LastEntryStaysLast | src/com/rogueitem/clichebingo/app/ClicheBingoApp.java:130-132 | under `nextInt(size - 1)` the dictionary's last entry is never removed: it is still the last entry of what remains |
| BingoBoard.LastEntryNeverOnBoard | src/com/rogueitem/clichebingo/app/ClicheBingoApp.java:130-134 | for a duplicate-free dictionary, the last entry is on no drawn square, whatever `nextInt` returns |
| BingoBoard.TwentyFourEntries | src/com/rogueitem/clichebingo/app/ClicheBingoApp.java:130 | with exactly 24 entries the constructor as written throws, and the full-range constructor succeeds |
| BingoBoard.EveryEntryReachable | src/com/rogueitem/clichebingo/app/ClicheBingoApp.java:130 | with the full range, any entry of a dictionary of 24 or more can be put on square (0, 0) by a valid sequence of draws |
| BingoBoard.SetSquare | src/com/rogueitem/clichebingo/app/ClicheBingoApp.java:151-155 | a coordinate of 5 or more gives `IllegalArgumentException` (and only that does); success iff both coordinates are in `[0, 5)`; then square `(x, y)` is `X`, every other square and `longestWord` are unchanged |
| BingoBoard.SetSquareIdempotent | src/com/rogueitem/clichebingo/app/ClicheBingoApp.java:154 | marking the same square twice gives the same board as marking it once |
| BingoBoard.SetSquareCommutes | src/com/rogueitem/clichebingo/app/ClicheBingoApp.java:154 | two marks give the same board in either order |
| BingoBoard.SetSquareKeepsFit | src/com/rogueitem/clichebingo/app/ClicheBingoApp.java:154 | since `X` is one character, marking keeps every square within `longestWord` |
| BingoBoard.Spaces | src/com/rogueitem/clichebingo/app/ClicheBingoApp.java:165-169 | the padding is `pad` spaces, or none when `pad` is not positive |
| BingoBoard.RenderCell | src/com/rogueitem/clichebingo/app/ClicheBingoApp.java:164-170 | a rendered square is as long as the larger of the word and `longestWord`, plus the two characters of `"| "` |
| BingoBoard.RenderCellLayout | src/com/rogueitem/clichebingo/app/ClicheBingoApp.java:164-170 | a rendered square starts with the word, ends with `"| "`, and holds only spaces in between |
| BingoBoard.RenderRowEndsWithSeparator | src/com/rogueitem/clichebingo/app/ClicheBingoApp.java:162-171 | a printed row ends with the `"| "` of its last square |
| BingoBoard.UnpadRenderCell | src/com/rogueitem/clichebingo/app/ClicheBingoApp.java:164-170 | a word that fits the width and has no trailing space is recovered from its rendered square by dropping `"| "` and the padding |
| BingoBoard.RenderRowAligned | src/com/rogueitem/clichebingo/app/ClicheBingoApp.java:162-171 | when every square fits, a rendered row is `longestWord + 2` characters per square, and its j-th slice of that width is square j rendered |
| BingoBoard.Render | src/com/rogueitem/clichebingo/app/ClicheBingoApp.java:161-174 | `print` writes one line per row, five in all |
| BingoBoard.RenderRowReadsBack | src/com/rogueitem/clichebingo/app/ClicheBingoApp.java:162-171 | a row whose squares fit is printed as `PrintsRow` says: `longestWord + 2` characters per square, slice j is square j rendered, and a square with no trailing space is read back exactly from its slice |
| BingoBoard.RenderReadsBack | src/com/rogueitem/clichebingo/app/ClicheBingoApp.java:161-174 | for a board whose squares fit, each of the five printed lines prints its row in that sense, so every square without a trailing space can be read back from the printed text |
| ClicheBingoApp.Step | src/com/rogueitem/clichebingo/app/ClicheBingoApp.java:86-103 | the `Exit` outcome (the normal end of the loop) happens iff the token is `exit`; any other token may instead end the loop by an uncaught fault (`,`, a lone number, `-1,0`); for any token other than `exit` the pattern warning is printed iff the token does not split into two parts; a step that does not mark leaves the board as it was; a step changes no square except to `X` and never changes `longestWord` |
| ClicheBingoApp.Reply | src/com/rogueitem/clichebingo/app/ClicheBingoApp.java:91-102 | after the prompt a step prints the pattern warning as its first line iff the token did not split into two parts; then one numbers-only line, one size line, or the five reprinted board lines; a fault prints only the warning, if any, and `exit` prints nothing |
| ClicheBingoApp.SizeMessage | src/com/rogueitem/clichebingo/app/ClicheBingoApp.java:102 | the reply to an out-of-range move is `Board is of size 5` |
| ClicheBingoApp.StepReadsCoordinates | src/com/rogueitem/clichebingo/app/ClicheBingoApp.java:90-103 | a move `x,y` marks and reprints when both are in `[0, 5)`, replies with the board size (board unchanged, no reprint) when either is 5 or more, and otherwise faults |
| ClicheBingoApp.StepRejectsNonNumbers | src/com/rogueitem/clichebingo/app/ClicheBingoApp.java:94-100 | a two-part token with a non-numeric part leaves the board unchanged and prints only the numbers-only message |
| ClicheBingoApp.LettersAreRejected | src/com/rogueitem/clichebingo/app/ClicheBingoApp.java:99-100 | the token `a,b` leaves the board unchanged and prints only the numbers-only message |
| ClicheBingoApp.StepSinglePart | src/com/rogueitem/clichebingo/app/ClicheBingoApp.java:90-96 | a comma-free token other than `exit` warns and goes on: a non-number gets the numbers-only reply, a number faults on `coords[1]` |
| ClicheBingoApp.StepExtraParts | src/com/rogueitem/clichebingo/app/ClicheBingoApp.java:90-98 | `1,2,3` warns about the pattern and still marks square (1, 2) |
| ClicheBingoApp.Play | src/com/rogueitem/clichebingo/app/ClicheBingoApp.java:82-105 | a session keeps the board 5×5 and `longestWord` fixed, ends by exit only if `exit` was typed, ends by exit whenever `exit` is typed and no earlier token faults, runs out of input only if `exit` was never typed, never unmarks a square, and keeps every square within `longestWord` |
| ClicheBingoApp.PlayStopsAtExit | src/com/rogueitem/clichebingo/app/ClicheBingoApp.java:85-88 | tokens after `exit` have no effect on the session |
| ClicheBingoApp.MarkThenExitAt | src/com/rogueitem/clichebingo/app/ClicheBingoApp.java:85-98 | a move inside the board then `exit` prints prompt, reprinted board, prompt, makes exactly that one mark and ends normally |
| ClicheBingoApp.MarkThenExit | src/com/rogueitem/clichebingo/app/ClicheBingoApp.java:85-98 | the input `1,1` then `exit` marks square (1, 1) only, reprints once and ends normally |
| ClicheBingoApp.Run | src/com/rogueitem/clichebingo/app/ClicheBingoApp.java:25-61 | as written, the program gets past start-up iff the dictionary was read and has at least 25 entries (24 with the full range); a failed read is a `NullPointerException`; a started program prints the constructed board first, and the rest of its output, final board and ending are those of `play()` run on that board; the final board is 5×5 and fitting |
| ClicheBingoApp.MarkCornerThenExit | src/com/rogueitem/clichebingo/app/ClicheBingoApp.java:25-28 | from 25 or more entries, `0,0` then `exit` prints the initial board first, ends normally, and leaves only square (0, 0) changed, to `X`, with the centre still free |

## Left out

- Reading `dictionary.txt` (`loadFile`) is file I/O. The dictionary is an input, and a failed read is `None`.
- The messages written to standard error during loading, and stack traces of uncaught exceptions, are not modelled. Only standard output is.
- `java.util.Random` is replaced by the caller's sequence of `nextInt` results. Uniformity of the draws is not modelled.
- `Scanner` tokenising is replaced by a sequence of tokens. Input running out (`NoSuchElementException`) ends a session as `InputExhausted`.
- `System.exit(0)` in `main`, and `main` itself, are process plumbing.
- The `DEBUG` block in `init` is compiled out, because the flag is a `false` constant.
- `setBoard` and `getBoard` are plain field access. `getBoardSize` is the constant `Size`, used in the size reply.
- JavaText.Split: only the one-character, non-regex case of `String.split` that the program uses is modelled.
- JavaText.ParseInt: only ASCII digits are accepted. Java's `Character.digit` also accepts other Unicode decimal digits.
- BingoBoard.Render: its own contract states only the line count. The line contents are stated by `RenderRowAligned` and `RenderReadsBack`.

## Findings

| source | as written | input that shows it | evidently intended | confidence | as-written member | corrected member |
|---|---|---|---|---|---|---|
| src/com/rogueitem/clichebingo/app/ClicheBingoApp.java:130 | `rnd.nextInt(dict.size() - 1)` draws from `[0, size - 1)` | A dictionary of exactly 24 entries: the 24th draw calls `nextInt(0)`, which throws. With any dictionary, the last entry never reaches the board. | `rnd.nextInt(dict.size())`: every remaining entry can be drawn, and 24 entries suffice | high; not executed | BingoBoard.NewBoard, BingoBoard.LastEntryNeverOnBoard | BingoBoard.NewBoardFixed, BingoBoard.EveryEntryReachable |

The game loop's `Run` takes the sampler as a parameter, so every session property holds for either range.
