/** Pasting a frame: the clipboard text is stripped of every character other than '0' and '1',
    and is accepted only if exactly one character per cell remains. */
module Paste {

  import opened Grid
  import Encoding

  datatype Option<T> = None | Some(value: T)

  predicate IsBit(ch: char) {
    ch == '0' || ch == '1'
  }

  /** t.replace(/[^01]/g, ''): the '0' and '1' characters of t, in order. */
  function FilterBinary(t: string): (r: string)
    ensures IsBinary(r) && |r| <= |t|
  {
    if t == [] then []
    else (if IsBit(t[0]) then [t[0]] else []) + FilterBinary(t[1..])
  }

  /** Filtering distributes over concatenation, so it keeps every binary character in place. */
  lemma {:induction false} FilterAppend(a: string, b: string)
    ensures FilterBinary(a + b) == FilterBinary(a) + FilterBinary(b)
  {
    if a == [] {
      assert a + b == b;
    } else {
      var head := if IsBit(a[0]) then [a[0]] else [];
      assert (a + b)[0] == a[0] && (a + b)[1..] == a[1..] + b;
      FilterAppend(a[1..], b);
      assert FilterBinary(a + b) == head + (FilterBinary(a[1..]) + FilterBinary(b));
      assert FilterBinary(a) == head + FilterBinary(a[1..]);
    }
  }

  /** A string of '0' and '1' passes through the filter unchanged. */
  lemma {:induction false} FilterOfBinary(s: string)
    requires IsBinary(s)
    ensures FilterBinary(s) == s
  {
    if s != [] {
      FilterOfBinary(s[1..]);
    }
  }

  /** The filter is idempotent. */
  lemma FilterTwice(t: string)
    ensures FilterBinary(FilterBinary(t)) == FilterBinary(t)
  {
    FilterOfBinary(FilterBinary(t));
  }

  /** The filter drops a string that holds neither '0' nor '1'. */
  lemma {:induction false} FilterOfNoise(t: string)
    requires forall i :: 0 <= i < |t| ==> !IsBit(t[i])
    ensures FilterBinary(t) == []
  {
    if t != [] {
      FilterOfNoise(t[1..]);
    }
  }

  /** The frame a pasted text yields: its filtered characters, when there is one per cell. */
  function CleanFrame(t: string): (r: Option<string>)
    ensures r.Some? <==> |FilterBinary(t)| == CELLS
    ensures r.Some? ==> IsFrame(r.value) && r.value == FilterBinary(t)
  {
    var clean := FilterBinary(t);
    if |clean| == CELLS then Some(clean) else None
  }

  /** Copy then paste: the copied state string of any grid is accepted as it is. */
  lemma PasteOfCopy(g: seq<bool>)
    requires IsGrid(g)
    ensures CleanFrame(StateString(g)) == Some(StateString(g))
  {
    FilterOfBinary(StateString(g));
  }

  /** Separators do not matter: the grouped binary display filters back to the bits it shows. */
  lemma {:induction false} FilterOfDisplay(s: string)
    requires IsBinary(s)
    ensures FilterBinary(Encoding.GroupBytes(s)) == s
    decreases |s|
  {
    if |s| <= 8 {
      FilterOfBinary(s);
    } else {
      assert Encoding.GroupBytes(s) == s[..8] + (" " + Encoding.GroupBytes(s[8..]));
      FilterAppend(s[..8], " " + Encoding.GroupBytes(s[8..]));
      FilterAppend(" ", Encoding.GroupBytes(s[8..]));
      FilterOfBinary(s[..8]);
      FilterOfNoise(" ");
      FilterOfDisplay(s[8..]);
      assert s == s[..8] + s[8..];
    }
  }

  /** Pasting the grid's binary display text restores that grid's state string. */
  lemma PasteOfDisplay(g: seq<bool>)
    requires IsGrid(g)
    ensures CleanFrame(Encoding.GroupBytes(StateString(g))) == Some(StateString(g))
  {
    FilterOfDisplay(StateString(g));
  }

  /** A text whose binary characters number anything but 104 is refused, even when noise
      characters bring its raw length to 104. */
  lemma PasteRefusesShort(t: string, noise: string)
    requires IsBinary(t) && |t| == CELLS - 1
    requires forall i :: 0 <= i < |noise| ==> !IsBit(noise[i])
    ensures CleanFrame(t + noise) == None
  {
    FilterAppend(t, noise);
    FilterOfBinary(t);
    FilterOfNoise(noise);
  }
}
