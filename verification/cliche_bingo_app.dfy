/**
  The game loop of `ClicheBingoApp`: what one token typed by the player does
  to the board and what it prints, a whole session over a list of tokens,
  and start-up from the loaded dictionary.

  Console reads and writes become values: tokens are a sequence, and the
  text written to standard output is a sequence of lines. Lines written to
  standard error and stack traces are not modelled.
*/
module ClicheBingoApp {
  import opened Outcomes
  import opened JavaText
  import opened BingoBoard

  const Prompt: string := "What's the next square (x,y)? Type 'exit' to quit"
  const ExitCommand: string := "exit"
  const PatternMessage: string := "expecting coordinates in the pattern x,y"
  const NumbersMessage: string := "Only numbers are permitted for x and y"

  /** The reply to an out-of-range move, built from `getBoardSize()`. */
  function SizeMessage(): (message: string)
    ensures message == "Board is of size 5"
  {
    "Board is of size " + ShowInt(Size)
  }

  /** What a token that does not end the program led to. */
  datatype Event =
    | NotNumbers   // a `NumberFormatException` from `parseInt`
    | OutOfRange   // `setSquare`'s `IllegalArgumentException`
    | Marked       // the square was marked and the board reprinted

  /**
    The result of one pass through the loop body. `warned` records that the
    token did not split into exactly two parts, which prints a message but
    does not stop the body. `Fault` is an uncaught
    `ArrayIndexOutOfBoundsException`, which ends the program.
  */
  datatype Outcome =
    | Exit
    | Continue(warned: bool, event: Event, board: Board)
    | Fault(warned: bool)

  /** The loop body for one token read from standard input. */
  function Step(token: string, b: Board): (o: Outcome)
    requires Shaped(b)
    ensures o.Exit? <==> token == ExitCommand
    ensures !o.Exit? ==> (o.warned <==> |Split(token, ',')| != 2)
    ensures o.Continue? ==> Shaped(o.board) && o.board.longestWord == b.longestWord
    ensures o.Continue? && o.event != Marked ==> o.board == b
    ensures o.Continue? ==> forall i, j | 0 <= i < Size && 0 <= j < Size ::
              o.board.grid[i][j] == b.grid[i][j] || o.board.grid[i][j] == Marker
  {
    if token == ExitCommand then Exit
    else
      var coords := Split(token, ',');
      var warned := |coords| != 2;
      if |coords| == 0 then Fault(warned)
      else
        match ParseInt(coords[0])
        case None => Continue(warned, NotNumbers, b)
        case Some(x) =>
          if |coords| < 2 then Fault(warned)
          else
            match ParseInt(coords[1])
            case None => Continue(warned, NotNumbers, b)
            case Some(y) =>
              match SetSquare(b, x, y)
              case Ok(marked) => Continue(warned, Marked, marked)
              case Thrown(InvalidCoordinates) => Continue(warned, OutOfRange, b)
              case Thrown(IndexOutOfBounds) => Fault(warned)
  }

  function Warning(warned: bool): seq<string> {
    if warned then [PatternMessage] else []
  }

  /**
    The lines printed in answer to one token (after the prompt): the pattern
    warning first when the token did not have two parts, then the
    numbers-only message, the size message, or the reprinted board.
  */
  function Reply(o: Outcome): (lines: seq<string>)
    requires o.Continue? ==> Shaped(o.board)
    ensures o.Exit? ==> lines == []
    ensures !o.Exit? ==> (o.warned <==> |lines| > 0 && lines[0] == PatternMessage)
    ensures o.Fault? ==> |lines| == (if o.warned then 1 else 0)
    ensures o.Continue? && o.event == NotNumbers ==>
              |lines| == (if o.warned then 1 else 0) + 1 && lines[|lines| - 1] == NumbersMessage
    ensures o.Continue? && o.event == OutOfRange ==>
              |lines| == (if o.warned then 1 else 0) + 1 && lines[|lines| - 1] == SizeMessage()
    ensures o.Continue? && o.event == Marked ==>
              |lines| == (if o.warned then 1 else 0) + Size && lines[|lines| - Size..] == Render(o.board)
  {
    match o
    case Exit => []
    case Fault(warned) => Warning(warned)
    case Continue(warned, event, board) =>
      var answer :=
        match event
        case NotNumbers => [NumbersMessage]
        case OutOfRange => [SizeMessage()]
        case Marked => Render(board);
      assert answer[0] != PatternMessage by {
        assert PatternMessage[|PatternMessage| - 1] == 'y';
        if event == Marked {
          RenderRowEndsWithSeparator(board.grid[0], board.longestWord);
        } else {
          assert answer[0][0] != PatternMessage[0];
        }
      }
      Warning(warned) + answer
  }

  /** How a session ends: the exit command, an uncaught fault, or input running out in `Scanner.next`. */
  datatype Ending = Exited | Crashed | InputExhausted

  /** Everything printed to standard output, the final board, and how the session ended. */
  datatype Session = Session(output: seq<string>, board: Board, ending: Ending)

  /** `play()`: prompt, read a token, act on it, until the program stops. */
  function Play(tokens: seq<string>, b: Board): (r: Session)
    requires Shaped(b)
    ensures Shaped(r.board) && r.board.longestWord == b.longestWord
    ensures r.ending == Exited ==> ExitCommand in tokens
    ensures ExitCommand in tokens && r.ending != Crashed ==> r.ending == Exited
    ensures r.ending == InputExhausted ==> ExitCommand !in tokens
    ensures forall i, j | 0 <= i < Size && 0 <= j < Size && b.grid[i][j] == Marker :: r.board.grid[i][j] == Marker
    ensures Fits(b) && b.longestWord >= |Marker| ==> Fits(r.board)
    decreases |tokens|
  {
    if tokens == [] then Session([Prompt], b, InputExhausted)
    else
      var o := Step(tokens[0], b);
      match o
      case Exit => Session([Prompt], b, Exited)
      case Fault(_) => Session([Prompt] + Reply(o), b, Crashed)
      case Continue(_, _, next) =>
        var rest := Play(tokens[1..], next);
        assert ExitCommand in tokens <==> ExitCommand in tokens[1..];
        Session([Prompt] + Reply(o) + rest.output, rest.board, rest.ending)
  }

  /** Why the program dies before the first prompt. */
  datatype StartupFault =
    | MissingDictionary   // the file could not be read, so `new BingoBoard(null)` throws a `NullPointerException`
    | DictionaryTooSmall  // `nextInt` was handed a bound that is not positive

  /**
    The whole program: `loaded` is the dictionary read at start-up (`None`
    when reading failed), `cs` what `nextInt` returns, `tokens` the input.
    The initial board is printed before the first prompt. `s` selects the
    draw range: `AsWritten` is the program as it stands.
  */
  function Run(s: Sampler, loaded: Option<seq<string>>, cs: seq<int>, tokens: seq<string>): (r: Result<Session, StartupFault>)
    requires |cs| == Draws
    requires loaded.Some? ==> ValidChoices(s, |loaded.value|, cs)
    ensures s == AsWritten ==> (r.Ok? <==> loaded.Some? && |loaded.value| >= Draws + 1)
    ensures s == Corrected ==> (r.Ok? <==> loaded.Some? && |loaded.value| >= Draws)
    ensures loaded.None? ==> r == Thrown(MissingDictionary)
    ensures r.Ok? ==> loaded.Some? && Build(s, loaded.value, cs).Ok?
    ensures r.Ok? ==>
              var start := Build(s, loaded.value, cs).value.board;
              var session := Play(tokens, start);
              && |r.value.output| >= Size
              && r.value.output[..Size] == Render(start)
              && r.value.output[Size..] == session.output
              && r.value.board == session.board
              && r.value.ending == session.ending
    ensures r.Ok? ==> |r.value.output| > Size && r.value.board.longestWord >= |FreeSquare|
    ensures r.Ok? ==> Shaped(r.value.board) && Fits(r.value.board)
  {
    match loaded
    case None => Thrown(MissingDictionary)
    case Some(dict) =>
      match Build(s, dict, cs)
      case Thrown(_) => Thrown(DictionaryTooSmall)
      case Ok(built) =>
        ConstructionLongestIsMax(s, dict, cs);
        var session := Play(tokens, built.board);
        Ok(Session(Render(built.board) + session.output, session.board, session.ending))
  }

  // ---------------------------------------------------------------------------
  // Properties of a step and of a session
  // ---------------------------------------------------------------------------

  /** The text a player types for the move `(x, y)`. */
  function MoveToken(x: int, y: int): string {
    ShowInt(x) + "," + ShowInt(y)
  }

  lemma NoCommaInNumber(n: int)
    ensures ',' !in ShowInt(n)
  {
    var s := ShowInt(n);
    forall k | 0 <= k < |s| ensures s[k] != ',' {
      assert IsDigit(s[k]) || s[k] == '-';
    }
  }

  /** The move `x,y` reaches `setSquare(x, y)` with no warning; the step follows its outcome. */
  lemma StepOnMove(x: int, y: int, b: Board)
    requires IsInt32(x) && IsInt32(y) && Shaped(b)
    ensures var r := SetSquare(b, x, y);
            Step(MoveToken(x, y), b)
              == if r.Ok? then Continue(false, Marked, r.value)
                 else if r.error == InvalidCoordinates then Continue(false, OutOfRange, b)
                 else Fault(false)
  {
    var token := MoveToken(x, y);
    NoCommaInNumber(x);
    NoCommaInNumber(y);
    SplitPair(ShowInt(x), ShowInt(y), ',');
    ParseShowInt(x);
    ParseShowInt(y);
    assert token != ExitCommand by {
      assert token[|ShowInt(x)|] == ',';
    }
    var coords := Split(token, ',');
    assert coords == [ShowInt(x), ShowInt(y)];
    assert ParseInt(coords[0]) == Some(x) && ParseInt(coords[1]) == Some(y);
  }

  /**
    A well-formed move `x,y` marks the square and reprints when both are in
    `[0, 5)`, replies with the board size when either is 5 or more, and
    otherwise (a negative coordinate) faults; no format warning is printed.
  */
  lemma StepReadsCoordinates(x: int, y: int, b: Board)
    requires IsInt32(x) && IsInt32(y) && Shaped(b)
    ensures 0 <= x < Size && 0 <= y < Size ==>
              Step(MoveToken(x, y), b) == Continue(false, Marked, SetSquare(b, x, y).value)
    ensures x >= Size || y >= Size ==> Step(MoveToken(x, y), b) == Continue(false, OutOfRange, b)
    ensures x < Size && y < Size && (x < 0 || y < 0) ==> Step(MoveToken(x, y), b) == Fault(false)
  {
    StepOnMove(x, y, b);
  }

  /** A two-part token with a part that is not a number changes nothing and says so. */
  lemma StepRejectsNonNumbers(a: string, c: string, b: Board)
    requires ',' !in a && ',' !in c && c != "" && Shaped(b)
    requires ParseInt(a).None? || ParseInt(c).None?
    ensures Step(a + "," + c, b) == Continue(false, NotNumbers, b)
    ensures Reply(Step(a + "," + c, b)) == [NumbersMessage]
  {
    SplitPair(a, c, ',');
    assert a + "," + c != ExitCommand by {
      assert (a + "," + c)[|a|] == ',';
    }
  }

  /** The input `a,b` leaves the board alone and prints only the numbers-only message. */
  lemma LettersAreRejected(b: Board)
    requires Shaped(b)
    ensures Step("a,b", b) == Continue(false, NotNumbers, b)
    ensures Reply(Step("a,b", b)) == [NumbersMessage]
  {
    StepRejectsNonNumbers("a", "b", b);
    assert "a" + "," + "b" == "a,b";
  }

  /**
    A token with no comma warns about the pattern and still goes on: a
    non-number is rejected as such, while a number reaches `coords[1]` and
    faults.
  */
  lemma StepSinglePart(token: string, b: Board)
    requires ',' !in token && token != ExitCommand && Shaped(b)
    ensures ParseInt(token).None? ==> Step(token, b) == Continue(true, NotNumbers, b)
    ensures ParseInt(token).Some? ==> Step(token, b) == Fault(true)
  {
  }

  /** Extra parts after the second warn about the pattern but are otherwise ignored. */
  lemma StepExtraParts(b: Board)
    requires Shaped(b)
    ensures Step("1,2,3", b) == Continue(true, Marked, SetSquare(b, 1, 2).value)
  {
    SplitThreeParts();
    OneAndTwo();
  }

  lemma SplitThreeParts()
    ensures Split("1,2,3", ',') == ["1", "2", "3"]
  {
    SplitTriple("1", "2", "3", ',');
    assert "1" + [','] + "2" + [','] + "3" == "1,2,3";
  }

  lemma OneAndTwo()
    ensures ParseInt("1") == Some(1) && ParseInt("2") == Some(2)
  {
    ParseShowInt(1);
    ParseShowInt(2);
    assert ShowInt(1) == "1" && ShowInt(2) == "2";
  }

  /** Nothing typed after `exit` has any effect. */
  lemma {:induction false} PlayStopsAtExit(ts: seq<string>, more: seq<string>, b: Board)
    requires Shaped(b)
    ensures Play(ts + [ExitCommand] + more, b) == Play(ts + [ExitCommand], b)
    decreases |ts|
  {
    var long := ts + [ExitCommand] + more;
    var short := ts + [ExitCommand];
    if ts == [] {
      assert long[0] == ExitCommand && short[0] == ExitCommand;
    } else {
      assert long[0] == short[0] == ts[0];
      match Step(ts[0], b)
      case Exit =>
      case Fault(_) =>
      case Continue(_, _, next) =>
        assert long[1..] == ts[1..] + [ExitCommand] + more;
        assert short[1..] == ts[1..] + [ExitCommand];
        PlayStopsAtExit(ts[1..], more, next);
    }
  }

  /** The input `1,1` then `exit` marks one square, reprints once and ends normally. */
  lemma MarkThenExit(b: Board)
    requires Shaped(b)
    ensures SetSquare(b, 1, 1).Ok?
    ensures Play(["1,1", ExitCommand], b)
         == Session([Prompt] + Render(SetSquare(b, 1, 1).value) + [Prompt], SetSquare(b, 1, 1).value, Exited)
  {
    SmallMove(1, 1);
    MarkThenExitAt(1, 1, b);
  }

  /** A move with single-digit coordinates is typed as the two digits around a comma. */
  lemma SmallMove(x: nat, y: nat)
    requires x < 10 && y < 10
    ensures MoveToken(x, y) == [DigitChar(x), ',', DigitChar(y)]
  {
    assert ShowInt(x) == [DigitChar(x)];
    assert ShowInt(y) == [DigitChar(y)];
  }

  /** A move inside the board followed by `exit`: one mark, one reprint, a normal end. */
  lemma MarkThenExitAt(x: int, y: int, b: Board)
    requires 0 <= x < Size && 0 <= y < Size && Shaped(b)
    ensures Play([MoveToken(x, y), ExitCommand], b)
         == Session([Prompt] + Render(SetSquare(b, x, y).value) + [Prompt], SetSquare(b, x, y).value, Exited)
  {
    var marked := SetSquare(b, x, y).value;
    StepReadsCoordinates(x, y, b);
    var ts := [MoveToken(x, y), ExitCommand];
    var o := Step(ts[0], b);
    assert o == Continue(false, Marked, marked);
    assert Reply(o) == Render(marked);
    assert ts[1..] == [ExitCommand];
    var rest := Play(ts[1..], marked);
    assert rest == Session([Prompt], marked, Exited);
    assert Play(ts, b) == Session([Prompt] + Reply(o) + rest.output, rest.board, rest.ending);
  }

  /**
    From a dictionary of 25 entries or more the program starts, shows the
    board, and after `0,0` then `exit` only square (0, 0) differs from the
    board it started with.
  */
  lemma MarkCornerThenExit(s: Sampler, dict: seq<string>, cs: seq<int>)
    requires |dict| >= Draws + 1 && |cs| == Draws && ValidChoices(s, |dict|, cs)
    ensures Build(s, dict, cs).Ok? && Run(s, Some(dict), cs, ["0,0", ExitCommand]).Ok?
    ensures var start := Build(s, dict, cs).value.board;
            var end := Run(s, Some(dict), cs, ["0,0", ExitCommand]).value;
            && end.ending == Exited
            && end.board.grid[0][0] == Marker
            && end.board.grid[Centre][Centre] == FreeSquare
            && (forall i, j | 0 <= i < Size && 0 <= j < Size && (i, j) != (0, 0) :: end.board.grid[i][j] == start.grid[i][j])
            && end.output[..Size] == Render(start)
  {
    var start := Build(s, dict, cs).value.board;
    SmallMove(0, 0);
    MarkThenExitAt(0, 0, start);
  }
}
