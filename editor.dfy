/** The editor session: the grid's cells, the storyboard of saved frames and the shared timer,
    with one method per user action and one for a firing of the timer. */
module MatrixEditor {

  import opened Grid
  import Encoding
  import Paste
  import opened Playback

  class Editor {
    /** The cell buttons, row-major; a cell is lit when its entry is true. */
    const cells: array<bool>
    /** Saved frames, oldest first. */
    var storyboard: seq<string>
    /** What the shared timer handle is driving. */
    var mode: Mode

    ghost predicate Valid()
      reads this
    {
      cells.Length == CELLS && AllFrames(storyboard)
    }

    /** The session as the pure model of a tick sees it. */
    ghost function State(): Session
      reads this, cells
    {
      Session(cells[..], storyboard, mode)
    }

    /** The page at start-up: every cell dark, no frames, no timer. */
    constructor ()
      ensures Valid() && fresh(cells)
      ensures cells[..] == AllOff() && storyboard == [] && mode == Idle
    {
      cells := new bool[CELLS](_ => false);
      storyboard := [];
      mode := Idle;
    }

    /** getBitArray: the cells row by row, column by column, as '0'/'1' characters. */
    method GetBitArray() returns (bits: string)
      requires Valid()
      ensures bits == StateString(cells[..])
    {
      bits := [];
      for r := 0 to ROWS
        invariant |bits| == r * COLS
        invariant forall i :: 0 <= i < |bits| ==> bits[i] == BitChar(cells[i])
      {
        for c := 0 to COLS
          invariant |bits| == r * COLS + c
          invariant forall i :: 0 <= i < |bits| ==> bits[i] == BitChar(cells[i])
        {
          bits := bits + [BitChar(cells[r * COLS + c])];
        }
      }
    }

    /** getMatrixState: the 104-character frame of the current grid; loading it back gives the
        same cells. */
    function GetMatrixState(): (s: string)
      requires Valid()
      reads this, cells
      ensures IsFrame(s) && ParseState(s) == cells[..]
    {
      StateThenParse(cells[..]);
      StateString(cells[..])
    }

    /** setMatrixState: cell i is lit exactly when character i is '1'. */
    method SetMatrixState(state: string)
      requires Valid() && |state| == CELLS
      modifies cells
      ensures cells[..] == ParseState(state)
    {
      for i := 0 to CELLS
        invariant forall k :: 0 <= k < i ==> cells[k] == (state[k] == '1')
      {
        cells[i] := state[i] == '1';
      }
    }

    /** A click on cell (r, c) flips that cell alone. */
    method ToggleCell(r: nat, c: nat)
      requires Valid() && r < ROWS && c < COLS
      modifies cells
      ensures cells[..] == Toggled(old(cells[..]), r * COLS + c)
    {
      cells[r * COLS + c] := !cells[r * COLS + c];
    }

    /** shiftLeft: each row in turn, remembering its first cell before moving the others left. */
    method ShiftLeft(wrap: bool)
      requires Valid()
      modifies cells
      ensures cells[..] == ShiftedLeft(old(cells[..]), wrap)
    {
      ghost var g := cells[..];
      ghost var target := ShiftedLeft(g, wrap);
      for r := 0 to ROWS
        invariant forall i :: 0 <= i < r * COLS ==> cells[i] == target[i]
        invariant forall i :: r * COLS <= i < CELLS ==> cells[i] == g[i]
      {
        var base := r * COLS;
        var first := cells[base];
        for c := 0 to COLS - 1
          invariant forall i :: 0 <= i < base ==> cells[i] == target[i]
          invariant forall i :: base <= i < base + c ==> cells[i] == g[i + 1]
          invariant forall i :: base + c <= i < CELLS ==> cells[i] == g[i]
        {
          cells[base + c] := cells[base + c + 1];
        }
        cells[base + COLS - 1] := if wrap then first else false;
        ShiftedLeftRow(g, wrap, r);
      }
    }

    /** shiftRight: each row in turn, remembering its last cell before moving the others right. */
    method ShiftRight(wrap: bool)
      requires Valid()
      modifies cells
      ensures cells[..] == ShiftedRight(old(cells[..]), wrap)
    {
      ghost var g := cells[..];
      ghost var target := ShiftedRight(g, wrap);
      for r := 0 to ROWS
        invariant forall i :: 0 <= i < r * COLS ==> cells[i] == target[i]
        invariant forall i :: r * COLS <= i < CELLS ==> cells[i] == g[i]
      {
        var base := r * COLS;
        var last := cells[base + COLS - 1];
        var c := COLS - 1;
        while c > 0
          invariant 0 <= c <= COLS - 1
          invariant forall i :: 0 <= i < base ==> cells[i] == target[i]
          invariant forall i :: base + c < i < base + COLS ==> cells[i] == g[i - 1]
          invariant forall i :: base <= i <= base + c ==> cells[i] == g[i]
          invariant forall i :: base + COLS <= i < CELLS ==> cells[i] == g[i]
        {
          cells[base + c] := cells[base + c - 1];
          c := c - 1;
        }
        cells[base] := if wrap then last else false;
        ShiftedRightRow(g, wrap, r);
      }
    }

    /** The clear button: every cell dark. */
    method Clear()
      requires Valid()
      modifies cells
      ensures cells[..] == AllOff()
    {
      for i := 0 to CELLS
        invariant forall k :: 0 <= k < i ==> !cells[k]
      {
        cells[i] := false;
      }
    }

    /** The invert button: every cell flipped. */
    method Invert()
      requires Valid()
      modifies cells
      ensures cells[..] == Inverted(old(cells[..]))
    {
      for i := 0 to CELLS
        invariant forall k :: 0 <= k < i ==> cells[k] == !old(cells[k])
        invariant forall k :: i <= k < CELLS ==> cells[k] == old(cells[k])
      {
        cells[i] := !cells[i];
      }
    }

    /** The randomize button, with the per-cell coin flips supplied: cell i is lit exactly when
        coin i came up. */
    method Randomize(coins: seq<bool>)
      requires Valid() && |coins| == CELLS
      modifies cells
      ensures cells[..] == coins
    {
      for i := 0 to CELLS
        invariant forall k :: 0 <= k < i ==> cells[k] == coins[k]
      {
        cells[i] := coins[i];
      }
    }

    /** The save button: the current frame is appended; earlier frames stay as they were. */
    method SaveFrame()
      requires Valid()
      modifies this
      ensures Valid() && mode == old(mode)
      ensures storyboard == old(storyboard) + [StateString(cells[..])]
      ensures old(IndexInRange(State())) ==> IndexInRange(State())
    {
      storyboard := storyboard + [GetMatrixState()];
    }

    /** The clear-storyboard button: no frames remain. A running timer keeps running. */
    method ClearStoryboard()
      requires Valid()
      modifies this
      ensures Valid() && storyboard == [] && mode == old(mode)
    {
      storyboard := [];
    }

    /** A click on the thumbnail of frame i loads that frame into the grid. */
    method ApplyFrame(i: nat)
      requires Valid() && i < |storyboard|
      modifies cells
      ensures StateString(cells[..]) == storyboard[i]
    {
      SetMatrixState(storyboard[i]);
      ParseThenState(storyboard[i]);
    }

    /** The paste button, given the text read from the clipboard: the grid takes the filtered
        frame when it has one character per cell, and is left alone otherwise. */
    method PasteFrame(text: string) returns (accepted: bool)
      requires Valid()
      modifies cells
      ensures accepted <==> |Paste.FilterBinary(text)| == CELLS
      ensures accepted ==> StateString(cells[..]) == Paste.FilterBinary(text)
      ensures !accepted ==> cells[..] == old(cells[..])
    {
      var clean := Paste.FilterBinary(text);
      if |clean| == CELLS {
        SetMatrixState(clean);
        ParseThenState(clean);
        accepted := true;
      } else {
        accepted := false;
      }
    }

    /** The export button: the text it writes to the clipboard. */
    method ExportFrame() returns (text: string)
      requires Valid()
      ensures text == Encoding.ExportText(StateString(cells[..]))
    {
      var bits := GetBitArray();
      var tokens: seq<string> := [];
      for i := 0 to Encoding.WORD_COUNT
        invariant tokens == Encoding.ExportTokens(bits)[..i]
      {
        var chunk := Encoding.Slice(bits, i * Encoding.WORD_BITS, (i + 1) * Encoding.WORD_BITS);
        var padded := chunk + Encoding.Zeros(Encoding.WORD_BITS - |chunk|);
        Encoding.PaddedChunkIsBinary(bits, i);
        var val := Encoding.ToUint32(Encoding.BinValue(padded));
        tokens := tokens + [Encoding.HexToken(val)];
      }
      assert tokens == Encoding.ExportTokens(bits);
      text := Encoding.Join(tokens, ',');
    }

    /** update: the binary display and the four words of the current grid. */
    method Update() returns (binary: string, words: seq<Encoding.Word>)
      requires Valid()
      ensures binary == Encoding.GroupBytes(StateString(cells[..])) && |binary| == 116
      ensures |words| == Encoding.WORD_COUNT
      ensures forall i :: 0 <= i < Encoding.WORD_COUNT ==>
                words[i].bits == Encoding.PaddedChunk(StateString(cells[..]), i) &&
                words[i].value == Encoding.WordValue(StateString(cells[..]), i)
    {
      var bits := GetBitArray();
      binary := Encoding.GroupBytes(bits);
      Encoding.GridDisplayLength(bits);
      words := Encoding.ChunkAndFormat(bits);
      forall i | 0 <= i < Encoding.WORD_COUNT
        ensures words[i].value == Encoding.WordValue(bits, i)
      {
        Encoding.WordValueExact(bits, i);
      }
    }

    /** The play button: stops whichever timer is running; otherwise starts playback from the
        first frame, when there is one. */
    method TogglePlay()
      requires Valid()
      modifies this
      ensures Valid() && storyboard == old(storyboard)
      ensures old(mode) != Idle ==> mode == Idle
      ensures old(mode) == Idle ==> mode == if |storyboard| > 0 then PlayingStoryboard(0) else Idle
      ensures IndexInRange(State())
    {
      if mode != Idle {
        mode := Idle;
      } else if |storyboard| > 0 {
        mode := PlayingStoryboard(0);
      }
    }

    /** The animate button: stops whichever timer is running; otherwise starts the animation. */
    method ToggleAnimate()
      requires Valid()
      modifies this
      ensures Valid() && storyboard == old(storyboard)
      ensures mode == if old(mode) != Idle then Idle else Animating
    {
      if mode != Idle {
        mode := Idle;
      } else {
        mode := Animating;
      }
    }

    /** One firing of the shared timer, as Playback.Tick describes it. */
    method Tick()
      requires Valid()
      modifies this, cells
      ensures Valid()
      ensures State() == Playback.Tick(old(State()))
    {
      match mode
      case Idle =>
      case Animating =>
        ShiftLeft(true);
      case PlayingStoryboard(idx) =>
        if idx < |storyboard| {
          SetMatrixState(storyboard[idx]);
          mode := PlayingStoryboard((idx + 1) % |storyboard|);
        }
    }
  }
}
