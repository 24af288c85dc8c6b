/** The one-line text form of a position: "x,y,walls;x,y,walls;turn"
    followed by one "wx,wy,V" or "wx,wy,H" per wall, and the reader that
    turns such a line back into a state, reporting what is wrong with it
    instead of throwing. */
module Serial {
  import opened Wrappers
  import opened Geometry
  import opened Game
  import Board

  // ---------------------------------------------------------------------
  // Text primitives

  /** The pieces of `s` between occurrences of the separator `c`, as a
      one-character `split` cuts them: empty pieces are kept and there is
      always at least one piece. */
  function Split(s: string, c: char): (parts: seq<string>)
    ensures |parts| >= 1
    ensures forall k :: 0 <= k < |parts| ==> c !in parts[k]
  {
    if |s| == 0 then [""]
    else
      var rest := Split(s[1..], c);
      if s[0] == c then [""] + rest
      else [[s[0]] + rest[0]] + rest[1..]
  }

  /** The pieces glued together with `c` between neighbours. */
  function Join(parts: seq<string>, c: char): string
  {
    if |parts| == 0 then ""
    else if |parts| == 1 then parts[0]
    else parts[0] + [c] + Join(parts[1..], c)
  }

  lemma {:induction false} SplitAround(p: string, c: char, t: string)
    requires c !in p
    ensures Split(p + [c] + t, c) == [p] + Split(t, c)
  {
    if |p| == 0 {
      assert p + [c] + t == [c] + t;
      assert ([c] + t)[1..] == t;
    } else {
      SplitAround(p[1..], c, t);
      assert (p + [c] + t)[1..] == p[1..] + [c] + t;
      assert [p[0]] + p[1..] == p;
    }
  }

  lemma {:induction false} SplitWhole(p: string, c: char)
    requires c !in p
    ensures Split(p, c) == [p]
  {
    if |p| > 0 {
      SplitWhole(p[1..], c);
      assert [p[0]] + p[1..] == p;
    }
  }

  /** Splitting undoes joining when no piece holds the separator. */
  lemma {:induction false} SplitJoin(parts: seq<string>, c: char)
    requires |parts| >= 1 && forall k :: 0 <= k < |parts| ==> c !in parts[k]
    ensures Split(Join(parts, c), c) == parts
  {
    if |parts| == 1 {
      SplitWhole(parts[0], c);
    } else {
      SplitJoin(parts[1..], c);
      SplitAround(parts[0], c, Join(parts[1..], c));
      assert [parts[0]] + parts[1..] == parts;
    }
  }

  /** A character that no piece holds and that is not the glue does not
      occur in the joined text. */
  lemma {:induction false} JoinAvoids(parts: seq<string>, c: char, d: char)
    requires c != d && forall k :: 0 <= k < |parts| ==> d !in parts[k]
    ensures d !in Join(parts, c)
  {
    if |parts| > 1 {
      JoinAvoids(parts[1..], c, d);
    }
  }

  /** An extra separator at the end adds one empty piece. */
  lemma {:induction false} SplitTrailing(s: string, c: char)
    ensures Split(s + [c], c) == Split(s, c) + [""]
  {
    if |s| == 0 {
      assert Split([c], c) == [""] + Split([], c);
    } else {
      SplitTrailing(s[1..], c);
      assert (s + [c])[1..] == s[1..] + [c];
    }
  }

  /** The white space `trim` removes from a pasted line. */
  predicate IsSpace(ch: char) {
    ch == ' ' || ch == '\t' || ch == '\n' || ch == '\r' || ch == '\U{000B}' || ch == '\U{000C}'
  }

  predicate NoSpace(s: string) {
    forall k :: 0 <= k < |s| ==> !IsSpace(s[k])
  }

  function TrimStart(s: string): string
  {
    if |s| > 0 && IsSpace(s[0]) then TrimStart(s[1..]) else s
  }

  function TrimEnd(s: string): string
  {
    if |s| > 0 && IsSpace(s[|s| - 1]) then TrimEnd(s[..|s| - 1]) else s
  }

  /** `s` without leading and trailing white space. */
  function Trim(s: string): string
  {
    TrimEnd(TrimStart(s))
  }

  /** A text without white space is its own trimmed form. */
  lemma TrimNoSpace(s: string)
    requires NoSpace(s)
    ensures Trim(s) == s
  {
    assert TrimStart(s) == s;
  }

  lemma {:induction false} JoinNoSpace(parts: seq<string>, c: char)
    requires !IsSpace(c) && forall k :: 0 <= k < |parts| ==> NoSpace(parts[k])
    ensures NoSpace(Join(parts, c))
  {
    if |parts| > 1 {
      JoinNoSpace(parts[1..], c);
      var t := Join(parts[1..], c);
      assert forall k :: 0 <= k < |t| ==> (parts[0] + [c] + t)[|parts[0]| + 1 + k] == t[k];
    }
  }

  // ---------------------------------------------------------------------
  // Integers as text

  predicate IsDigit(ch: char) {
    '0' <= ch <= '9'
  }

  predicate AllDigits(s: string) {
    forall k :: 0 <= k < |s| ==> IsDigit(s[k])
  }

  function DigitChar(d: int): (ch: char)
    requires 0 <= d < 10
    ensures IsDigit(ch) && ch as int - '0' as int == d
  {
    (d + '0' as int) as char
  }

  /** The decimal digits of `n`, most significant first, with no leading
      zero. */
  function NatText(n: nat): (s: string)
    ensures |s| > 0 && AllDigits(s)
  {
    if n < 10 then [DigitChar(n)] else NatText(n / 10) + [DigitChar(n % 10)]
  }

  /** `n` as a template literal writes it: digits, after a minus sign when
      negative. */
  function IntText(n: int): (s: string)
    ensures |s| > 0 && NoSpace(s) && ',' !in s && ';' !in s
  {
    if n < 0 then "-" + NatText(-n) else NatText(n)
  }

  /** The value of a string of decimal digits. */
  function DigitsValue(s: string): nat
    requires AllDigits(s)
  {
    if |s| == 0 then 0 else DigitsValue(s[..|s| - 1]) * 10 + (s[|s| - 1] as int - '0' as int)
  }

  /** An integer token: an optional minus sign and at least one digit. A
      token of any other shape is not a number. */
  function ParseInt(tok: string): Option<int>
  {
    if |tok| > 1 && tok[0] == '-' && AllDigits(tok[1..]) then Some(-(DigitsValue(tok[1..]) as int))
    else if |tok| > 0 && AllDigits(tok) then Some(DigitsValue(tok))
    else None
  }

  lemma {:induction false} NatTextValue(n: nat)
    ensures DigitsValue(NatText(n)) == n
  {
    if n >= 10 {
      NatTextValue(n / 10);
      var s := NatText(n);
      assert s[..|s| - 1] == NatText(n / 10);
    }
  }

  /** Reading back the text of an integer gives the integer. */
  lemma ParseIntText(n: int)
    ensures ParseInt(IntText(n)) == Some(n)
  {
    if n < 0 {
      NatTextValue(-n);
      assert IntText(n)[1..] == NatText(-n);
    } else {
      NatTextValue(n);
      assert IsDigit(IntText(n)[0]);
    }
  }

  // ---------------------------------------------------------------------
  // Writing a state

  /** One wall as the text lists it. */
  datatype WallEntry = WallEntry(wx: int, wy: int, dir: WallDir)

  /** True iff (x, y) is a wall intersection. */
  predicate ValidWallPos(x: int, y: int) {
    0 <= x < WALL_GRID_SIZE && 0 <= y < WALL_GRID_SIZE
  }

  /** The walls of row `wy` in the columns below `n`, left to right. */
  function RowEntries(walls: Walls, wy: int, n: int): (es: seq<WallEntry>)
    requires 0 <= wy < 8 && 0 <= n <= 8
    ensures forall k :: 0 <= k < |es| ==>
      es[k].wy == wy && 0 <= es[k].wx < n && es[k].dir != NoWall && walls[wy][es[k].wx] == es[k].dir
  {
    if n == 0 then []
    else RowEntries(walls, wy, n - 1) + (if walls[wy][n - 1] == NoWall then [] else [WallEntry(n - 1, wy, walls[wy][n - 1])])
  }

  /** The walls of the rows below `m`, in row-major order: by row, then by
      column. */
  function GridEntries(walls: Walls, m: int): (es: seq<WallEntry>)
    requires 0 <= m <= 8
    ensures forall k :: 0 <= k < |es| ==>
      0 <= es[k].wy < m && 0 <= es[k].wx < 8 && es[k].dir != NoWall && walls[es[k].wy][es[k].wx] == es[k].dir
  {
    if m == 0 then [] else GridEntries(walls, m - 1) + RowEntries(walls, m - 1, 8)
  }

  /** Walls listed earlier come first in row-major order. */
  predicate RowMajor(es: seq<WallEntry>) {
    forall k, l :: 0 <= k < l < |es| ==> es[k].wy < es[l].wy || (es[k].wy == es[l].wy && es[k].wx < es[l].wx)
  }

  lemma {:induction false} RowEntriesOrdered(walls: Walls, wy: int, n: int)
    requires 0 <= wy < 8 && 0 <= n <= 8
    ensures RowMajor(RowEntries(walls, wy, n))
  {
    if n > 0 {
      RowEntriesOrdered(walls, wy, n - 1);
    }
  }

  /** The walls are listed in row-major order: by row, then by column. */
  lemma {:induction false} GridEntriesOrdered(walls: Walls, m: int)
    requires 0 <= m <= 8
    ensures RowMajor(GridEntries(walls, m))
  {
    if m > 0 {
      GridEntriesOrdered(walls, m - 1);
      RowEntriesOrdered(walls, m - 1, 8);
    }
  }

  lemma {:induction false} NoWallsInRow(walls: Walls, wy: int, n: int)
    requires 0 <= wy < 8 && 0 <= n <= 8
    requires forall x :: 0 <= x < 8 ==> walls[wy][x] == NoWall
    ensures RowEntries(walls, wy, n) == []
  {
    if n > 0 {
      NoWallsInRow(walls, wy, n - 1);
    }
  }

  /** A grid without walls lists nothing. */
  lemma {:induction false} NoWallsNoEntries(walls: Walls, m: int)
    requires 0 <= m <= 8
    requires forall y, x :: 0 <= y < 8 && 0 <= x < 8 ==> walls[y][x] == NoWall
    ensures GridEntries(walls, m) == []
  {
    if m > 0 {
      NoWallsNoEntries(walls, m - 1);
      NoWallsInRow(walls, m - 1, 8);
    }
  }

  /** Every wall of the first `n` columns of row `wy` is listed. */
  lemma {:induction false} RowEntryIndex(walls: Walls, wy: int, n: int, x: int) returns (k: int)
    requires 0 <= wy < 8 && 0 <= x < n <= 8 && walls[wy][x] != NoWall
    ensures 0 <= k < |RowEntries(walls, wy, n)| && RowEntries(walls, wy, n)[k].wx == x
  {
    if x == n - 1 {
      k := |RowEntries(walls, wy, n - 1)|;
    } else {
      k := RowEntryIndex(walls, wy, n - 1, x);
    }
  }

  /** Every wall of the first `m` rows is listed. */
  lemma {:induction false} GridEntryIndex(walls: Walls, m: int, x: int, y: int) returns (k: int)
    requires 0 <= y < m <= 8 && 0 <= x < 8 && walls[y][x] != NoWall
    ensures 0 <= k < |GridEntries(walls, m)|
    ensures GridEntries(walls, m)[k].wx == x && GridEntries(walls, m)[k].wy == y
  {
    if y == m - 1 {
      var j := RowEntryIndex(walls, y, 8, x);
      k := |GridEntries(walls, m - 1)| + j;
    } else {
      k := GridEntryIndex(walls, m - 1, x, y);
    }
  }

  function DirLetter(d: WallDir): string
    requires d != NoWall
  {
    if d == Vertical then "V" else "H"
  }

  /** "wx,wy,V" or "wx,wy,H". */
  function EntryText(e: WallEntry): string
    requires e.dir != NoWall
  {
    Join([IntText(e.wx), IntText(e.wy), DirLetter(e.dir)], ',')
  }

  predicate AllWalls(es: seq<WallEntry>) {
    forall k :: 0 <= k < |es| ==> es[k].dir != NoWall
  }

  function EntryTexts(es: seq<WallEntry>): (ts: seq<string>)
    requires AllWalls(es)
    ensures |ts| == |es|
  {
    seq(|es|, k requires 0 <= k < |es| => EntryText(es[k]))
  }

  /** "x,y,wallsLeft". */
  function PlayerText(p: Player): string {
    Join([IntText(p.x), IntText(p.y), IntText(p.wallsLeft)], ',')
  }

  /** The parts of the exported line: both players, the player to move,
      then the walls. */
  function ExportParts(s: State): seq<string> {
    [PlayerText(s.players[0]), PlayerText(s.players[1]), IntText(s.currentPlayer)]
      + EntryTexts(GridEntries(s.walls, 8))
  }

  /** The exported line. */
  function ExportText(s: State): string {
    Join(ExportParts(s), ';')
  }

  /** The export loop: the text of every wall, row by row. */
  method ExportState(s: State) returns (text: string)
    ensures text == ExportText(s)
  {
    var wallsData: seq<string> := [];
    var wy := 0;
    while wy < WALL_GRID_SIZE
      invariant 0 <= wy <= 8
      invariant wallsData == EntryTexts(GridEntries(s.walls, wy))
    {
      wallsData := ExportRow(s.walls, wy, wallsData);
      EntryTextsAppend(GridEntries(s.walls, wy), RowEntries(s.walls, wy, 8));
      wy := wy + 1;
    }
    text := Join([PlayerText(s.players[0]), PlayerText(s.players[1]), IntText(s.currentPlayer)] + wallsData, ';');
  }

  /** The inner export loop over the intersections of row `wy`. */
  method ExportRow(walls: Walls, wy: int, data: seq<string>) returns (out: seq<string>)
    requires 0 <= wy < 8
    ensures out == data + EntryTexts(RowEntries(walls, wy, 8))
  {
    out := data;
    var wx := 0;
    while wx < WALL_GRID_SIZE
      invariant 0 <= wx <= 8
      invariant out == data + EntryTexts(RowEntries(walls, wy, wx))
    {
      var w := walls[wy][wx];
      RowTextStep(walls, wy, wx);
      if w == Vertical {
        out := out + [EntryText(WallEntry(wx, wy, Vertical))];
      } else if w == Horizontal {
        out := out + [EntryText(WallEntry(wx, wy, Horizontal))];
      }
      wx := wx + 1;
    }
  }

  /** One more column adds the text of its wall, if it holds one. */
  lemma RowTextStep(walls: Walls, wy: int, wx: int)
    requires 0 <= wy < 8 && 0 <= wx < 8
    ensures EntryTexts(RowEntries(walls, wy, wx + 1)) ==
      EntryTexts(RowEntries(walls, wy, wx)) + (if walls[wy][wx] == NoWall then [] else [EntryText(WallEntry(wx, wy, walls[wy][wx]))])
  {
    var step := if walls[wy][wx] == NoWall then [] else [WallEntry(wx, wy, walls[wy][wx])];
    EntryTextsAppend(RowEntries(walls, wy, wx), step);
  }

  lemma EntryTextsAppend(a: seq<WallEntry>, b: seq<WallEntry>)
    requires AllWalls(a) && AllWalls(b)
    ensures AllWalls(a + b) && EntryTexts(a + b) == EntryTexts(a) + EntryTexts(b)
  {
    assert forall k :: 0 <= k < |a| ==> (a + b)[k] == a[k];
    assert forall k :: |a| <= k < |a| + |b| ==> (a + b)[k] == b[k - |a|];
  }

  // ---------------------------------------------------------------------
  // Reading a state

  /** What is wrong with one part of the text. */
  datatype Fault = Malformed | OutOfRange | BadWallCount | BadDirection | Duplicate

  /** Why a text was not accepted; walls are numbered from 1 in the order
      they appear. */
  datatype ImportError =
    | TooFewParts
    | BadPlayer(player: PlayerIndex, fault: Fault)
    | SamePosition
    | BadTurn
    | BadWall(wall: int, fault: Fault)

  /** "x,y,wallsLeft": three fields, a cell on the board, a stock of 0 to 10
      walls, checked in that order. */
  function ParsePlayer(text: string): (r: Result<Player, Fault>)
    ensures r.Success? ==> ValidPos(PosOf(r.value)) && 0 <= r.value.wallsLeft <= WALLS_PER_PLAYER
  {
    var fields := Split(text, ',');
    if |fields| != 3 then Failure(Malformed)
    else
      var x, y, w := ParseInt(fields[0]), ParseInt(fields[1]), ParseInt(fields[2]);
      if x.None? || y.None? || !ValidCell(x.value, y.value) then Failure(OutOfRange)
      else if w.None? || w.value < 0 || w.value > WALLS_PER_PLAYER then Failure(BadWallCount)
      else Success(Player(x.value, y.value, w.value))
  }

  /** The player to move: 0 or 1. */
  function ParseTurn(text: string): Option<PlayerIndex> {
    var t := ParseInt(text);
    if t == Some(0) then Some(0) else if t == Some(1) then Some(1) else None
  }

  /** "wx,wy,V" or "wx,wy,H": three fields, an intersection inside the
      grid, then the direction letter, checked in that order. */
  function ParseWallPart(text: string): (r: Result<WallEntry, Fault>)
    ensures r.Success? ==> ValidWallPos(r.value.wx, r.value.wy) && r.value.dir != NoWall
  {
    var fields := Split(text, ',');
    if |fields| != 3 then Failure(Malformed)
    else
      var x, y := ParseInt(fields[0]), ParseInt(fields[1]);
      if x.None? || y.None? || !ValidWallPos(x.value, y.value) then Failure(OutOfRange)
      else if fields[2] != "V" && fields[2] != "H" then Failure(BadDirection)
      else Success(WallEntry(x.value, y.value, if fields[2] == "V" then Vertical else Horizontal))
  }

  /** The wall parts from index `i` on, put one by one into `w`: an empty
      part is skipped, and a wall on an occupied intersection is refused. */
  function ParseWalls(parts: seq<string>, i: nat, w: Walls): Result<Walls, ImportError>
    decreases |parts| - i
  {
    if i >= |parts| then Success(w)
    else if parts[i] == "" then ParseWalls(parts, i + 1, w)
    else match ParseWallPart(parts[i])
      case Failure(f) => Failure(BadWall(i - 2, f))
      case Success(e) =>
        if w[e.wy][e.wx] != NoWall then Failure(BadWall(i - 2, Duplicate))
        else ParseWalls(parts, i + 1, PlaceWall(w, e.wx, e.wy, e.dir))
  }

  /** The state a text describes: a new game with the tokens, the player to
      move and the walls the text gives. */
  function Import(text: string): (r: Result<State, ImportError>)
    ensures r.Success? ==>
      && Board.WellFormed(r.value)
      && PosOf(r.value.players[0]) != PosOf(r.value.players[1])
      && (forall i: PlayerIndex :: 0 <= r.value.players[i].wallsLeft <= WALLS_PER_PLAYER)
      && r.value == InitialState().(players := r.value.players, walls := r.value.walls, currentPlayer := r.value.currentPlayer)
  {
    var parts := Split(Trim(text), ';');
    if |parts| < 3 then Failure(TooFewParts)
    else match ParsePlayer(parts[0])
      case Failure(f) => Failure(BadPlayer(0, f))
      case Success(p1) => match ParsePlayer(parts[1])
        case Failure(f) => Failure(BadPlayer(1, f))
        case Success(p2) =>
          if p1.x == p2.x && p1.y == p2.y then Failure(SamePosition)
          else match ParseTurn(parts[2])
            case None => Failure(BadTurn)
            case Some(turn) => match ParseWalls(parts, 3, EmptyWalls())
              case Failure(e) => Failure(e)
              case Success(w) => Success(InitialState().(players := [p1, p2], currentPlayer := turn, walls := w))
  }

  /** The reading loop: the wall parts are written into a fresh grid one by
      one. */
  method ImportState(text: string) returns (r: Result<State, ImportError>)
    ensures r == Import(text)
  {
    var parts := Split(Trim(text), ';');
    if |parts| < 3 {
      return Failure(TooFewParts);
    }
    var p1 := ParsePlayer(parts[0]);
    if p1.Failure? {
      return Failure(BadPlayer(0, p1.error));
    }
    var p2 := ParsePlayer(parts[1]);
    if p2.Failure? {
      return Failure(BadPlayer(1, p2.error));
    }
    if p1.value.x == p2.value.x && p1.value.y == p2.value.y {
      return Failure(SamePosition);
    }
    var turn := ParseTurn(parts[2]);
    if turn.None? {
      return Failure(BadTurn);
    }
    var walls := EmptyWalls();
    var i := 3;
    while i < |parts|
      invariant 3 <= i <= |parts|
      invariant ParseWalls(parts, 3, EmptyWalls()) == ParseWalls(parts, i, walls)
    {
      if parts[i] != "" {
        var e := ParseWallPart(parts[i]);
        if e.Failure? {
          return Failure(BadWall(i - 2, e.error));
        }
        var x, y := e.value.wx, e.value.wy;
        if walls[y][x] != NoWall {
          return Failure(BadWall(i - 2, Duplicate));
        }
        walls := PlaceWall(walls, x, y, e.value.dir);
      }
      i := i + 1;
    }
    r := Success(InitialState().(players := [p1.value, p2.value], currentPlayer := turn.value, walls := walls));
  }

  // ---------------------------------------------------------------------
  // What the reader accepts and what it builds

  /** A non-empty part that reads as a wall. */
  predicate Hit(part: string) {
    part != "" && ParseWallPart(part).Success?
  }

  function Entry(part: string): (e: WallEntry)
    requires Hit(part)
    ensures ValidWallPos(e.wx, e.wy) && e.dir != NoWall
  {
    ParseWallPart(part).value
  }

  predicate SameCell(a: WallEntry, b: WallEntry) {
    a.wx == b.wx && a.wy == b.wy
  }

  /** The wall parts from `i` on all read as walls, name pairwise different
      intersections, and name only intersections that are empty in `w`. */
  ghost predicate WallPartsFit(parts: seq<string>, i: nat, w: Walls) {
    && (forall j :: i <= j < |parts| && parts[j] != "" ==> ParseWallPart(parts[j]).Success?)
    && (forall j :: i <= j < |parts| && Hit(parts[j]) ==> w[Entry(parts[j]).wy][Entry(parts[j]).wx] == NoWall)
    && (forall j, l :: i <= j < l < |parts| && Hit(parts[j]) && Hit(parts[l]) ==> !SameCell(Entry(parts[j]), Entry(parts[l])))
  }

  /** No wall part from `i` on names (x, y). */
  ghost predicate Untouched(parts: seq<string>, i: nat, x: int, y: int) {
    forall j :: i <= j < |parts| && Hit(parts[j]) ==> !(Entry(parts[j]).wx == x && Entry(parts[j]).wy == y)
  }

  /** `w2` is `w` with every wall part from `i` on written into it. */
  ghost predicate WallsPlaced(parts: seq<string>, i: nat, w: Walls, w2: Walls) {
    && (forall j :: i <= j < |parts| && Hit(parts[j]) ==> w2[Entry(parts[j]).wy][Entry(parts[j]).wx] == Entry(parts[j]).dir)
    && (forall x, y :: ValidWallPos(x, y) && Untouched(parts, i, x, y) ==> w2[y][x] == w[y][x])
  }

  /** The wall parts are accepted exactly when they fit, and then each named
      intersection holds its direction and every other one is unchanged. */
  lemma {:induction false} ParseWallsSpec(parts: seq<string>, i: nat, w: Walls)
    ensures ParseWalls(parts, i, w).Success? <==> WallPartsFit(parts, i, w)
    ensures ParseWalls(parts, i, w).Success? ==> WallsPlaced(parts, i, w, ParseWalls(parts, i, w).value)
    decreases |parts| - i
  {
    if i < |parts| {
      if parts[i] == "" {
        ParseWallsSpec(parts, i + 1, w);
        SkipEmptyFit(parts, i, w);
        if ParseWalls(parts, i, w).Success? {
          SkipEmptyPlaced(parts, i, w, ParseWalls(parts, i, w).value);
        }
      } else if Hit(parts[i]) {
        var e := Entry(parts[i]);
        if w[e.wy][e.wx] == NoWall {
          var w1 := PlaceWall(w, e.wx, e.wy, e.dir);
          ParseWallsSpec(parts, i + 1, w1);
          HitStep(parts, i, w);
        }
      }
    }
  }

  /** A wall part that fits carries both conditions over from the parts
      after it. */
  lemma HitStep(parts: seq<string>, i: nat, w: Walls)
    requires i < |parts| && parts[i] != "" && Hit(parts[i])
    requires var e := Entry(parts[i]); w[e.wy][e.wx] == NoWall
    requires var e := Entry(parts[i]); var w1 := PlaceWall(w, e.wx, e.wy, e.dir);
      && (ParseWalls(parts, i + 1, w1).Success? <==> WallPartsFit(parts, i + 1, w1))
      && (ParseWalls(parts, i + 1, w1).Success? ==> WallsPlaced(parts, i + 1, w1, ParseWalls(parts, i + 1, w1).value))
    ensures ParseWalls(parts, i, w).Success? <==> WallPartsFit(parts, i, w)
    ensures ParseWalls(parts, i, w).Success? ==> WallsPlaced(parts, i, w, ParseWalls(parts, i, w).value)
  {
    var e := Entry(parts[i]);
    var w1 := PlaceWall(w, e.wx, e.wy, e.dir);
    assert ParseWalls(parts, i, w) == ParseWalls(parts, i + 1, w1);
    FitStep(parts, i, w);
    if ParseWalls(parts, i, w).Success? {
      PlacedStep(parts, i, w, ParseWalls(parts, i, w).value);
    }
  }

  /** An empty part changes neither condition. */
  lemma SkipEmptyFit(parts: seq<string>, i: nat, w: Walls)
    requires i < |parts| && parts[i] == ""
    ensures WallPartsFit(parts, i, w) <==> WallPartsFit(parts, i + 1, w)
  {
  }

  lemma SkipEmptyPlaced(parts: seq<string>, i: nat, w: Walls, w2: Walls)
    requires i < |parts| && parts[i] == ""
    ensures WallsPlaced(parts, i, w, w2) <==> WallsPlaced(parts, i + 1, w, w2)
  {
    assert forall x, y :: Untouched(parts, i, x, y) <==> Untouched(parts, i + 1, x, y);
  }

  /** The parts from `i` fit `w` exactly when the parts after `i` fit `w`
      with the wall of part `i` written in. */
  lemma FitStep(parts: seq<string>, i: nat, w: Walls)
    requires i < |parts| && Hit(parts[i]) && w[Entry(parts[i]).wy][Entry(parts[i]).wx] == NoWall
    ensures var e := Entry(parts[i]);
      WallPartsFit(parts, i, w) <==> WallPartsFit(parts, i + 1, PlaceWall(w, e.wx, e.wy, e.dir))
  {
    var e := Entry(parts[i]);
    var w1 := PlaceWall(w, e.wx, e.wy, e.dir);
    if WallPartsFit(parts, i + 1, w1) {
      forall l | i < l < |parts| && Hit(parts[l])
        ensures !SameCell(e, Entry(parts[l]))
      {
        assert w1[Entry(parts[l]).wy][Entry(parts[l]).wx] == NoWall;
      }
    }
  }

  lemma PlacedStep(parts: seq<string>, i: nat, w: Walls, w2: Walls)
    requires i < |parts| && Hit(parts[i]) && WallPartsFit(parts, i, w)
    requires var e := Entry(parts[i]); WallsPlaced(parts, i + 1, PlaceWall(w, e.wx, e.wy, e.dir), w2)
    ensures WallsPlaced(parts, i, w, w2)
  {
    var e := Entry(parts[i]);
    var w1 := PlaceWall(w, e.wx, e.wy, e.dir);
    assert Untouched(parts, i + 1, e.wx, e.wy);
    forall x, y | ValidWallPos(x, y) && Untouched(parts, i, x, y)
      ensures w2[y][x] == w[y][x]
    {
      assert Untouched(parts, i + 1, x, y);
    }
  }

  /** A text is accepted exactly when it has three parts, both players read
      and stand on different cells, the player to move is 0 or 1 and the
      wall parts name readable, pairwise different intersections; the state
      then holds exactly the walls the text names. */
  lemma ImportSpec(text: string)
    ensures var parts := Split(Trim(text), ';');
      Import(text).Success? <==>
        && |parts| >= 3
        && ParsePlayer(parts[0]).Success? && ParsePlayer(parts[1]).Success?
        && PosOf(ParsePlayer(parts[0]).value) != PosOf(ParsePlayer(parts[1]).value)
        && ParseTurn(parts[2]).Some?
        && WallPartsFit(parts, 3, EmptyWalls())
    ensures var parts := Split(Trim(text), ';');
      Import(text).Success? ==>
        && Import(text).value.players == [ParsePlayer(parts[0]).value, ParsePlayer(parts[1]).value]
        && Import(text).value.currentPlayer == ParseTurn(parts[2]).value
        && WallsPlaced(parts, 3, EmptyWalls(), Import(text).value.walls)
  {
    var parts := Split(Trim(text), ';');
    if |parts| >= 3 {
      ParseWallsSpec(parts, 3, EmptyWalls());
    }
  }

  // ---------------------------------------------------------------------
  // Writing then reading

  lemma PlayerTextClean(p: Player)
    ensures NoSpace(PlayerText(p)) && ';' !in PlayerText(p)
  {
    JoinNoSpace([IntText(p.x), IntText(p.y), IntText(p.wallsLeft)], ',');
    JoinAvoids([IntText(p.x), IntText(p.y), IntText(p.wallsLeft)], ',', ';');
  }

  lemma EntryTextClean(e: WallEntry)
    requires e.dir != NoWall
    ensures NoSpace(EntryText(e)) && ';' !in EntryText(e) && EntryText(e) != ""
  {
    JoinNoSpace([IntText(e.wx), IntText(e.wy), DirLetter(e.dir)], ',');
    JoinAvoids([IntText(e.wx), IntText(e.wy), DirLetter(e.dir)], ',', ';');
  }

  /** A player on the board with 0 to 10 walls reads back from its text. */
  lemma ParsePlayerText(p: Player)
    requires ValidPos(PosOf(p)) && 0 <= p.wallsLeft <= WALLS_PER_PLAYER
    ensures ParsePlayer(PlayerText(p)) == Success(p)
  {
    SplitJoin([IntText(p.x), IntText(p.y), IntText(p.wallsLeft)], ',');
    ParseIntText(p.x);
    ParseIntText(p.y);
    ParseIntText(p.wallsLeft);
  }

  lemma ParseTurnText(i: PlayerIndex)
    ensures ParseTurn(IntText(i)) == Some(i)
  {
    ParseIntText(i);
  }

  /** A wall inside the grid reads back from its text. */
  lemma ParseWallPartText(e: WallEntry)
    requires ValidWallPos(e.wx, e.wy) && e.dir != NoWall
    ensures ParseWallPart(EntryText(e)) == Success(e)
  {
    SplitJoin([IntText(e.wx), IntText(e.wy), DirLetter(e.dir)], ',');
    ParseIntText(e.wx);
    ParseIntText(e.wy);
  }

  lemma WallsEqual(a: Walls, b: Walls)
    requires forall y, x :: 0 <= y < 8 && 0 <= x < 8 ==> a[y][x] == b[y][x]
    ensures a == b
  {
    assert forall y :: 0 <= y < 8 ==> a[y] == b[y];
  }

  /** The listed walls of a grid, read into an empty grid, give the grid
      back. */
  lemma ExportedWallsRead(heads: seq<string>, walls: Walls)
    requires |heads| == 3
    ensures ParseWalls(heads + EntryTexts(GridEntries(walls, 8)), 3, EmptyWalls()) == Success(walls)
  {
    var parts := heads + EntryTexts(GridEntries(walls, 8));
    ListedPartsRead(heads, walls);
    ListedPartsFit(parts, walls, EmptyWalls());
    ParseWallsSpec(parts, 3, EmptyWalls());
    var w2 := ParseWalls(parts, 3, EmptyWalls()).value;
    forall y, x | 0 <= y < 8 && 0 <= x < 8
      ensures w2[y][x] == walls[y][x]
    {
      ListedCellRead(parts, walls, EmptyWalls(), w2, x, y);
    }
    WallsEqual(w2, walls);
  }

  /** Every listed wall part reads back as the wall it lists. */
  lemma ListedPartsRead(heads: seq<string>, walls: Walls)
    requires |heads| == 3
    ensures var parts := heads + EntryTexts(GridEntries(walls, 8));
      forall j :: 3 <= j < |parts| ==> Hit(parts[j]) && Entry(parts[j]) == GridEntries(walls, 8)[j - 3]
  {
    var es := GridEntries(walls, 8);
    var parts := heads + EntryTexts(es);
    forall j | 3 <= j < |parts|
      ensures Hit(parts[j]) && Entry(parts[j]) == es[j - 3]
    {
      assert parts[j] == EntryText(es[j - 3]);
      EntryTextClean(es[j - 3]);
      ParseWallPartText(es[j - 3]);
    }
  }

  /** The listed wall parts fit an empty grid: they are listed in
      row-major order, so no intersection is named twice. */
  lemma ListedPartsFit(parts: seq<string>, walls: Walls, w: Walls)
    requires |parts| == 3 + |GridEntries(walls, 8)|
    requires forall j :: 3 <= j < |parts| ==> Hit(parts[j]) && Entry(parts[j]) == GridEntries(walls, 8)[j - 3]
    requires forall y, x :: 0 <= y < 8 && 0 <= x < 8 ==> w[y][x] == NoWall
    ensures WallPartsFit(parts, 3, w)
  {
    var es := GridEntries(walls, 8);
    GridEntriesOrdered(walls, 8);
    forall j, l | 3 <= j < l < |parts| && Hit(parts[j]) && Hit(parts[l])
      ensures !SameCell(Entry(parts[j]), Entry(parts[l]))
    {
      assert es[j - 3].wy < es[l - 3].wy || (es[j - 3].wy == es[l - 3].wy && es[j - 3].wx < es[l - 3].wx);
    }
  }

  /** One intersection of a grid whose listed walls were read into an
      empty grid. */
  lemma ListedCellRead(parts: seq<string>, walls: Walls, w: Walls, w2: Walls, x: int, y: int)
    requires |parts| == 3 + |GridEntries(walls, 8)|
    requires forall j :: 3 <= j < |parts| ==> Hit(parts[j]) && Entry(parts[j]) == GridEntries(walls, 8)[j - 3]
    requires forall y, x :: 0 <= y < 8 && 0 <= x < 8 ==> w[y][x] == NoWall
    requires WallsPlaced(parts, 3, w, w2)
    requires ValidWallPos(x, y)
    ensures w2[y][x] == walls[y][x]
  {
    var es := GridEntries(walls, 8);
    if walls[y][x] != NoWall {
      var k := GridEntryIndex(walls, 8, x, y);
      assert Entry(parts[k + 3]) == es[k];
    } else {
      assert Untouched(parts, 3, x, y);
    }
  }

  /** The exported line needs no trimming and splits back into its parts. */
  lemma ExportTextSplits(s: State)
    ensures Split(Trim(ExportText(s)), ';') == ExportParts(s)
  {
    ExportPartsClean(s);
    CleanPartsSplit(ExportParts(s), ';');
  }

  /** No exported part holds white space or a ';'. */
  lemma ExportPartsClean(s: State)
    ensures forall k :: 0 <= k < |ExportParts(s)| ==> NoSpace(ExportParts(s)[k]) && ';' !in ExportParts(s)[k]
  {
    var heads := [PlayerText(s.players[0]), PlayerText(s.players[1]), IntText(s.currentPlayer)];
    var texts := EntryTexts(GridEntries(s.walls, 8));
    PlayerTextClean(s.players[0]);
    PlayerTextClean(s.players[1]);
    EntryTextsClean(GridEntries(s.walls, 8));
    assert ExportParts(s) == heads + texts;
    assert forall k :: 3 <= k < |heads + texts| ==> (heads + texts)[k] == texts[k - 3];
  }

  lemma EntryTextsClean(es: seq<WallEntry>)
    requires AllWalls(es)
    ensures forall k :: 0 <= k < |es| ==> NoSpace(EntryTexts(es)[k]) && ';' !in EntryTexts(es)[k]
  {
    forall k | 0 <= k < |es|
      ensures NoSpace(EntryTexts(es)[k]) && ';' !in EntryTexts(es)[k]
    {
      EntryTextClean(es[k]);
    }
  }

  /** Parts free of white space and of the separator come back from
      trimming and splitting their joined line. */
  lemma CleanPartsSplit(parts: seq<string>, c: char)
    requires |parts| >= 1 && !IsSpace(c)
    requires forall k :: 0 <= k < |parts| ==> NoSpace(parts[k]) && c !in parts[k]
    ensures Split(Trim(Join(parts, c)), c) == parts
  {
    JoinNoSpace(parts, c);
    TrimNoSpace(Join(parts, c));
    SplitJoin(parts, c);
  }

  /** Writing a state and reading the text back gives the tokens, the walls
      and the player to move, with the other fields of a new game; writing
      that state again gives the same text. */
  lemma ExportImportRoundTrip(s: State)
    requires forall i: PlayerIndex :: ValidPos(PosOf(s.players[i])) && 0 <= s.players[i].wallsLeft <= WALLS_PER_PLAYER
    requires PosOf(s.players[0]) != PosOf(s.players[1])
    ensures Import(ExportText(s)) == Success(InitialState().(players := s.players, walls := s.walls, currentPlayer := s.currentPlayer))
    ensures ExportText(Import(ExportText(s)).value) == ExportText(s)
  {
    var parts := ExportParts(s);
    ExportTextSplits(s);
    ParsePlayerText(s.players[0]);
    ParsePlayerText(s.players[1]);
    ParseTurnText(s.currentPlayer);
    assert parts == parts[..3] + EntryTexts(GridEntries(s.walls, 8));
    ExportedWallsRead(parts[..3], s.walls);
    assert ParsePlayer(parts[0]) == Success(s.players[0]);
    assert ParsePlayer(parts[1]) == Success(s.players[1]);
    assert ParseTurn(parts[2]) == Some(s.currentPlayer);
    assert [s.players[0], s.players[1]] == s.players;
  }

  /** A position with the tokens on their start cells, player 0 to move
      and no wall is written as "4,0,10;4,8,10;0", and that line reads back
      as the opening position. */
  lemma OpeningText(s: State)
    requires s.players == StartPlayers() && s.currentPlayer == 0
    requires forall y, x :: 0 <= y < 8 && 0 <= x < 8 ==> s.walls[y][x] == NoWall
    ensures ExportText(s) == "4,0,10;4,8,10;0"
    ensures Import(ExportText(s)) == Success(InitialState())
  {
    OpeningExport(s);
    OpeningImport(s);
  }

  lemma OpeningExport(s: State)
    requires s.players == StartPlayers() && s.currentPlayer == 0
    requires forall y, x :: 0 <= y < 8 && 0 <= x < 8 ==> s.walls[y][x] == NoWall
    ensures ExportText(s) == "4,0,10;4,8,10;0"
  {
    NoWallsNoTexts(s.walls);
    OpeningPieces();
    assert ExportParts(s) == ["4,0,10", "4,8,10", "0"];
  }

  lemma OpeningImport(s: State)
    requires s.players == StartPlayers() && s.currentPlayer == 0
    requires forall y, x :: 0 <= y < 8 && 0 <= x < 8 ==> s.walls[y][x] == NoWall
    ensures Import(ExportText(s)) == Success(InitialState())
  {
    ExportImportRoundTrip(s);
    OpeningStateRead(s);
  }

  lemma OpeningStateRead(s: State)
    requires s.players == StartPlayers() && s.currentPlayer == 0
    requires forall y, x :: 0 <= y < 8 && 0 <= x < 8 ==> s.walls[y][x] == NoWall
    ensures InitialState().(players := s.players, walls := s.walls, currentPlayer := s.currentPlayer) == InitialState()
  {
    WallsEqual(s.walls, EmptyWalls());
  }

  lemma NoWallsNoTexts(walls: Walls)
    requires forall y, x :: 0 <= y < 8 && 0 <= x < 8 ==> walls[y][x] == NoWall
    ensures EntryTexts(GridEntries(walls, 8)) == []
  {
    NoWallsNoEntries(walls, 8);
  }

  lemma JoinThree(a: string, b: string, c: string, sep: char)
    ensures Join([a, b, c], sep) == a + [sep] + b + [sep] + c
  {
    assert [b, c][1..] == [c];
    assert Join([b, c], sep) == b + [sep] + c;
    assert [a, b, c][1..] == [b, c];
  }

  lemma OpeningNumbers()
    ensures IntText(0) == "0" && IntText(4) == "4" && IntText(8) == "8" && IntText(10) == "10"
  {
    assert NatText(10) == NatText(1) + [DigitChar(0)];
  }

  lemma OpeningPieces()
    ensures PlayerText(Player(4, 0, 10)) == "4,0,10" && PlayerText(Player(4, 8, 10)) == "4,8,10"
    ensures IntText(0) == "0"
    ensures Join(["4,0,10", "4,8,10", "0"], ';') == "4,0,10;4,8,10;0"
  {
    OpeningNumbers();
    JoinThree("4", "0", "10", ',');
    JoinThree("4", "8", "10", ',');
    JoinThree("4,0,10", "4,8,10", "0", ';');
  }

  /** A separator at the end of a line only adds an empty part, which is
      skipped. */
  lemma TrailingSeparatorIgnored(text: string)
    requires NoSpace(text) && |Split(text, ';')| >= 3
    ensures Import(text + ";") == Import(text)
  {
    var parts := Split(text, ';');
    TrimNoSpace(text);
    assert NoSpace(text + ";");
    TrimNoSpace(text + ";");
    SplitTrailing(text, ';');
    WallsSkipTrailing(parts, 3, EmptyWalls());
  }

  lemma {:induction false} WallsSkipTrailing(parts: seq<string>, i: nat, w: Walls)
    requires i <= |parts|
    ensures ParseWalls(parts + [""], i, w) == ParseWalls(parts, i, w)
    decreases |parts| - i
  {
    var q := parts + [""];
    if i == |parts| {
      assert ParseWalls(q, i + 1, w) == Success(w);
    } else {
      assert q[i] == parts[i];
      if parts[i] == "" {
        WallsSkipTrailing(parts, i + 1, w);
      } else if ParseWallPart(parts[i]).Success? {
        var e := ParseWallPart(parts[i]).value;
        if w[e.wy][e.wx] == NoWall {
          WallsSkipTrailing(parts, i + 1, PlaceWall(w, e.wx, e.wy, e.dir));
        }
      }
    }
  }

  /** The reader does not apply the spacing rule of wall placement: two
      vertical walls stacked at (0, 0) and (0, 1) are read as they are. */
  lemma StackedWallsRead(s: State)
    requires forall i: PlayerIndex :: ValidPos(PosOf(s.players[i])) && 0 <= s.players[i].wallsLeft <= WALLS_PER_PLAYER
    requires PosOf(s.players[0]) != PosOf(s.players[1])
    requires s.walls[0][0] == Vertical && s.walls[1][0] == Vertical
    ensures Import(ExportText(s)).Success?
    ensures !Board.CanPlaceWallAt(PlaceWall(Import(ExportText(s)).value.walls, 0, 1, NoWall), 0, 1, Vertical)
  {
    ExportImportRoundTrip(s);
  }
}
