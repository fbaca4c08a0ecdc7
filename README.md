# Matrix editor: a verified model

This project models the logic of the matrix editor, a page that edits an 8-row by 13-column grid of bits. The user toggles cells. The page shows the grid's 104 bits as text and as four unsigned 32-bit words. Each row can be shifted left or right, with wrap-around or zero fill. The grid can be cleared, inverted or randomized. It can be copied, pasted and exported as hexadecimal. Frames can be saved to a storyboard. A single repeating timer either plays the storyboard back or animates the grid by shifting left.

The Dafny files:

- `grid.dfy` (module `Grid`): the fixed 8 × 13 grid, kept row-major as 104 booleans with cell (r, c) at index `r * 13 + c`. It holds the state string (`'0'`/`'1'` per cell) and its inverse, and the pure specifications of toggle, invert and the per-row shifts. Lemmas: shifts never cross a row boundary; right undoes left under wrap; 13 wrapping left shifts restore the grid.
- `encoding.dfy` (module `Encoding`): `chunkAndFormat` cuts the bit string into four 32-character chunks, right-padding the last with `'0'`. It reads each chunk as a big-endian base-2 number, then applies the unsigned 32-bit conversion. This module also holds the hexadecimal export text (`0x` plus 8 lower-case digits per word, comma-joined) and the binary display in groups of 8.
- `paste.dfy` (module `Paste`): the paste filter keeps only `'0'` and `'1'`. The result is accepted only when exactly 104 characters remain.
- `playback.dfy` (module `Playback`): the shared timer handle becomes a `Mode` (`Idle`, `PlayingStoryboard(idx)`, `Animating`). One firing of the timer is the pure function `Tick` over a `Session` (grid, storyboard, mode). Lemmas cover playback order, the animation period and the stillness of an idle timer.
- `editor.dfy` (module `MatrixEditor`): class `Editor` holds the cells as an `array<bool>`, the storyboard as a `seq<string>` and the timer mode. It has one method per button or handler, and the shift, load, clear, invert and randomize loops work on the array in place. Each method's postcondition ties the new array contents to the pure function in `Grid`, `Encoding` or `Playback`.

Behaviour the model keeps from the code:

- The play and animate buttons share one timer handle. Pressing either one while any timer runs stops it. Play starts only when the storyboard has frames. Animate always starts.
- Clearing the storyboard does not stop a running playback (script.js:157-160). If the playback index then points past the end of the storyboard, loading the missing frame fails before anything changes. Such a tick leaves grid and index as they were. Playback resumes once enough frames are saved again. `Playback.Tick` models exactly this.
- A tick in range loads `storyboard[idx]` and sets `idx` to `(idx + 1) mod length`.

## Model

| member | source | states |
|---|---|---|
| `Grid.StateThenParse` | script.js:82-89 | Loading the state string of a grid gives back that grid: `setMatrixState(getMatrixState())` changes nothing |
| `Grid.ParseThenState` | script.js:82-89 | For a `'0'`/`'1'` string, reading the state back after loading it returns the same string |
| `Grid.ToggleTwice` | script.js:14-17 | Clicking a cell twice restores the grid |
| `Grid.ToggleOnlyThatCell` | script.js:14-17 | A click flips the clicked cell and no other |
| `Grid.InvertTwice` | script.js:183-186 | Inverting twice restores the grid |
| `Grid.ShiftedLeftAt` | script.js:59-65 | After a left shift, cell (r, c) holds the old (r, c+1) for c < 12. Cell (r, 12) holds the old (r, 0) with wrap, and is dark without it. No bit crosses a row boundary |
| `Grid.ShiftedRightAt` | script.js:69-75 | After a right shift, cell (r, c) holds the old (r, c-1) for c > 0. Cell (r, 0) holds the old (r, 12) with wrap, and is dark without it |
| `Grid.ShiftsAreInverse` | script.js:59-75 | With wrap, a right shift undoes a left shift, and the other way round |
| `Grid.ShiftLeftNoWrapDropsFirstColumn` | script.js:62-64 | A left shift without wrap darkens the last column. Each row becomes its old row minus the first cell, plus a dark cell |
| `Grid.LeftRotationsAt` | script.js:59-65 | After k wrapping left shifts, cell (r, c) holds the old cell (r, (c + k) mod 13) |
| `Grid.FullRotation` | script.js:59-65 | Thirteen wrapping left shifts restore the grid |
| `Encoding.PaddedChunkAt` | script.js:34-35 | Character k of chunk i is bit 32i + k of the input, or the padding `'0'` past the input's end |
| `Encoding.LastChunkOfGrid` | script.js:33-35 | For 104 bits, chunks 0-2 are bits [32i, 32i+32). Chunk 3 is the last 8 bits followed by 24 `'0'`s |
| `Encoding.BinValueBound` | script.js:36 | A base-2 string of n digits denotes a value below 2^n |
| `Encoding.ToUint32` | script.js:36 | The `>>> 0` conversion yields a value below 2^32 and leaves such values unchanged |
| `Encoding.WordValueExact` | script.js:36 | Each word's value equals the big-endian base-2 value of its 32-character string. It lies in [0, 2^32 - 1] |
| `Encoding.ChunkAndFormat` | script.js:30-43 | Returns exactly 4 words. Word i's string is padded chunk i, which is binary, and its value is that string's base-2 value, below 2^32 |
| `Encoding.FirstCellIsTopBit` | script.js:36 | With only cell (0, 0) lit, word 0 is 2147483648 |
| `Encoding.ToHexValue` | script.js:152 | Reading `v.toString(16)` back as hexadecimal gives v |
| `Encoding.ToHexLength` | script.js:152 | A value below 16^k has at most k hexadecimal digits, so a 32-bit word needs at most 8 |
| `Encoding.LeadingZerosValue` | script.js:152 | `padStart` with `'0'` does not change the hexadecimal value |
| `Encoding.HexTokenFormat` | script.js:152 | For a 32-bit value, the token is `0x` followed by exactly 8 lower-case hexadecimal digits that read back as the value |
| `Encoding.JoinTenAt` | script.js:154 | In a comma join of ten-character tokens, token i sits at [11i, 11i+10), followed by the separator unless it is last |
| `Encoding.ExportFormat` | script.js:144-155 | The export text has 43 characters: 4 comma-separated tokens. Token i starts with `0x`, and its 8 lower-case hex digits read back as word i's value from `chunkAndFormat` |
| `Encoding.ExportAllOff` | script.js:144-155 | The all-dark grid exports as `0x00000000,0x00000000,0x00000000,0x00000000` |
| `Encoding.GroupBytesAt` | script.js:47 | The display has length n + (n-1)/8. Bit k appears at place k + k/8, and a space follows every full group of 8 except the last |
| `Encoding.GridDisplayLength` | script.js:47 | The grid's 104 bits display as 13 groups: 116 characters |
| `Paste.FilterBinary` | script.js:135 | The filtered text contains only `'0'` and `'1'` and is no longer than the input |
| `Paste.FilterAppend` | script.js:135 | Filtering distributes over concatenation, so the kept characters stay in their original order |
| `Paste.FilterOfBinary` | script.js:135 | A `'0'`/`'1'` string passes through the filter unchanged |
| `Paste.FilterTwice` | script.js:135 | The filter is idempotent |
| `Paste.FilterOfNoise` | script.js:135 | A text without `'0'` or `'1'` filters to nothing |
| `Paste.CleanFrame` | script.js:135-139 | A frame is produced exactly when 104 characters survive the filter. It is then a valid frame equal to the filtered text |
| `Paste.PasteOfCopy` | script.js:128-139 | The copied state string of any grid is accepted by paste unchanged |
| `Paste.FilterOfDisplay` | script.js:135 | The grouped binary display text filters back to the bits it shows |
| `Paste.PasteOfDisplay` | script.js:135-137 | Pasting the binary display text of a grid loads that grid's state |
| `Paste.PasteRefusesShort` | script.js:135-139 | 103 bits padded with other characters to any length are refused |
| `Playback.Tick` | script.js:168-171 | A tick keeps the storyboard and the kind of mode, and keeps the grid and frames well-formed. An in-range frame index stays in range |
| `Playback.PlaybackCycle` | script.js:166-171 | Playback started at frame 0 shows frame k mod n after k+1 ticks, and the next index is (k+1) mod n |
| `Playback.AnimationRotates` | script.js:195 | k animation ticks rotate every row left by k places |
| `Playback.AnimationPeriod` | script.js:195 | Thirteen animation ticks bring the grid back to its start |
| `Playback.IdleIsStill` | script.js:162-164 | With no timer running, ticks change nothing |
| `MatrixEditor.Editor.constructor` | script.js:7-21 | The page starts with 104 dark cells, no frames and no timer |
| `MatrixEditor.Editor.GetBitArray` | script.js:23-28 | The row-by-row, column-by-column loop yields the state string of the cells |
| `MatrixEditor.Editor.GetMatrixState` | script.js:82-84 | Returns a 104-character `'0'`/`'1'` frame that loads back to the same cells |
| `MatrixEditor.Editor.SetMatrixState` | script.js:86-89 | Cell i is lit exactly when character i is `'1'` |
| `MatrixEditor.Editor.ToggleCell` | script.js:14-17 | The clicked cell flips, nothing else changes |
| `MatrixEditor.Editor.ShiftLeft` | script.js:59-67 | The nested in-place loop leaves the cells equal to `Grid.ShiftedLeft` of the old cells |
| `MatrixEditor.Editor.ShiftRight` | script.js:69-77 | The nested in-place loop leaves the cells equal to `Grid.ShiftedRight` of the old cells |
| `MatrixEditor.Editor.Clear` | script.js:175-178 | Every cell is dark |
| `MatrixEditor.Editor.Invert` | script.js:183-186 | Every cell is flipped |
| `MatrixEditor.Editor.Randomize` | script.js:179-182 | Cell i takes the i-th supplied coin flip |
| `MatrixEditor.Editor.SaveFrame` | script.js:124-127 | The current state string is appended. Earlier frames and the timer are unchanged. An in-range playback index stays in range |
| `MatrixEditor.Editor.ClearStoryboard` | script.js:157-160 | The storyboard is empty and the timer mode is unchanged |
| `MatrixEditor.Editor.ApplyFrame` | script.js:119 | After clicking thumbnail i, the grid's state string is frame i |
| `MatrixEditor.Editor.PasteFrame` | script.js:132-143 | Accepted exactly when 104 characters survive the filter. The grid's state is then the filtered text; otherwise the grid is unchanged |
| `MatrixEditor.Editor.ExportFrame` | script.js:144-156 | The handler's own loop produces `Encoding.ExportText` of the current bits |
| `MatrixEditor.Editor.Update` | script.js:45-57 | The binary display is the grouped state string (116 characters). There are 4 words, and each word's bits and value are those of the current grid |
| `MatrixEditor.Editor.TogglePlay` | script.js:161-174 | A running timer of either kind stops. Otherwise playback starts at frame 0 if there are frames. The index is in range afterwards |
| `MatrixEditor.Editor.ToggleAnimate` | script.js:189-198 | A running timer of either kind stops. Otherwise the animation starts |
| `MatrixEditor.Editor.Tick` | script.js:168-171 | The session after the timer fires is `Playback.Tick` of the session before |

## Left out

- Page construction and rendering are not modelled: buttons, the word chips, the word count and the storyboard thumbnails (script.js:3-21, script.js:49-56, script.js:91-122). `Editor.Update` returns the text the display would show, and the cell buttons are the `cells` array.
- Clipboard I/O and the alert messages are not modelled, because they are asynchronous calls into the browser. `Editor.PasteFrame` takes the already-read text. `Editor.ExportFrame` returns the text it would write. The copy button writes `Editor.GetMatrixState`, so it has no member of its own. A failed clipboard read never reaches `PasteFrame`, so the grid stays untouched.
- Timer periods are not modelled: 400 ms for playback and 200 ms for the animation. `setInterval` and `clearInterval` become the `Mode` field, and each firing is an explicit `Editor.Tick`.
- `Math.random()` is not modelled. `Editor.Randomize` takes the 104 coin outcomes (`Math.random() > .5` per cell) as a parameter.
- `Editor.SetMatrixState` requires a 104-character state. Every caller passes a saved or pasted frame, and both always have that length.
- `Encoding.ChunkAndFormat` requires a `'0'`/`'1'` input, which is all that `getBitArray` produces. `parseInt` stopping at a non-binary character is not modelled.
- `parseInt` returns a double, and the model uses unbounded integers instead. This is exact here, because every parsed value has at most 32 bits.
- The button label changes ("Play"/"Stop", "Animate"/"Stop") are not modelled. They are text only.
