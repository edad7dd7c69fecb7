/**
 * Joining rendered text blocks side by side or one above the other
 * (tui/join.go). A block is a string whose lines are separated by "\n".
 * The display width of a line and the rendering of padding by the fill
 * style come from outside (a terminal-width library and a style library);
 * both are parameters here, gathered in a `Style`.
 */
module Join {
  import opened Text

  /** A position along one axis. `Start` is Top or Left (0), `End` is Bottom
      or Right (1), and `Between` is any other position: of `n` units of
      padding, `share(n)` go before the text and the rest after it (the
      program rounds `n` times the position clamped to [0, 1]). */
  datatype Position = Start | End | Between(share: nat -> nat)

  /** The clamp keeps the share within the padding. */
  ghost predicate ValidPosition(pos: Position) {
    pos.Between? ==> forall n: nat :: pos.share(n) <= n
  }

  /** `width` is the display width of a line; `render` is what the fill style
      turns a run of padding spaces into. */
  datatype Style = Style(width: string -> nat, render: string -> string)

  /** Padding renders on one line. */
  ghost predicate RendersOnOneLine(st: Style) {
    forall k: nat :: NoNewline(st.render(Spaces(k)))
  }

  /** Widths add up along a line, and `k` spaces of padding render `k` wide. */
  ghost predicate Measures(st: Style) {
    (forall a: string, b: string :: st.width(a + b) == st.width(a) + st.width(b)) &&
    (forall k: nat :: st.width(st.render(Spaces(k))) == k)
  }

  /** The width of the widest of `ls`, 0 when there is none. */
  function Widest(width: string -> nat, ls: seq<string>): (r: nat)
    ensures forall k :: 0 <= k < |ls| ==> width(ls[k]) <= r
    ensures ls == [] ==> r == 0
    decreases |ls|
  {
    if ls == [] then 0
    else
      var init := ls[..|ls| - 1];
      var m := Widest(width, init);
      var w := width(ls[|ls| - 1]);
      assert ls == init + [ls[|ls| - 1]];
      if m < w then w else m
  }

  /** The widest width is the width of one of the lines. */
  lemma {:induction false} WidestAttained(width: string -> nat, ls: seq<string>)
    requires ls != []
    ensures exists k :: 0 <= k < |ls| && width(ls[k]) == Widest(width, ls)
    decreases |ls|
  {
    var n := |ls| - 1;
    if n > 0 && width(ls[n]) <= Widest(width, ls[..n]) {
      WidestAttained(width, ls[..n]);
      var k :| 0 <= k < n && width(ls[..n][k]) == Widest(width, ls[..n]);
      assert ls[k] == ls[..n][k];
    } else {
      assert width(ls[n]) == Widest(width, ls);
    }
  }

  lemma {:induction false} WidestConcat(width: string -> nat, ls: seq<string>, ms: seq<string>)
    ensures Widest(width, ls + ms) ==
              if Widest(width, ls) < Widest(width, ms) then Widest(width, ms) else Widest(width, ls)
    decreases |ms|
  {
    if ms == [] {
      assert ls + ms == ls;
    } else {
      var init := ms[..|ms| - 1];
      assert (ls + ms)[..|ls + ms| - 1] == ls + init;
      WidestConcat(width, ls, init);
    }
  }

  /** The split of `s` into lines and the width of its widest line. */
  method GetLines(width: string -> nat, s: string) returns (lines: seq<string>, widest: nat)
    ensures lines == Split(s)
    ensures widest == Widest(width, lines)
  {
    lines := Split(s);
    widest := 0;
    for i := 0 to |lines|
      invariant widest == Widest(width, lines[..i])
    {
      var w := width(lines[i]);
      if widest < w {
        widest := w;
      }
      assert lines[..i + 1][..i] == lines[..i];
    }
    assert lines[..|lines|] == lines;
  }

  /** The line count of the tallest of `strs`. */
  function MaxHeight(strs: seq<string>): (r: nat)
    ensures forall k :: 0 <= k < |strs| ==> |Split(strs[k])| <= r
    decreases |strs|
  {
    if strs == [] then 0
    else
      var m := MaxHeight(strs[..|strs| - 1]);
      var h := |Split(strs[|strs| - 1])|;
      if h > m then h else m
  }

  /** The tallest height is the height of one of the blocks. */
  lemma {:induction false} MaxHeightAttained(strs: seq<string>)
    requires strs != []
    ensures exists k :: 0 <= k < |strs| && |Split(strs[k])| == MaxHeight(strs)
    decreases |strs|
  {
    var n := |strs| - 1;
    if n > 0 && |Split(strs[n])| <= MaxHeight(strs[..n]) {
      MaxHeightAttained(strs[..n]);
      var k :| 0 <= k < n && |Split(strs[..n][k])| == MaxHeight(strs[..n]);
      assert strs[k] == strs[..n][k];
    } else {
      assert |Split(strs[n])| == MaxHeight(strs);
    }
  }

  // ---------------------------------------------------------------------
  // Horizontal joining

  /** `block` brought to `h` lines by empty lines: after it at the start,
      before it at the end, shared out around it in between. */
  function Padded(pos: Position, block: seq<string>, h: nat): (r: seq<string>)
    requires ValidPosition(pos) && |block| <= h
    ensures |r| == h
  {
    var n := h - |block|;
    match pos
    case Start => block + Empties(n)
    case End => Empties(n) + block
    case Between(share) => Empties(share(n)) + block + Empties(n - share(n))
  }

  /** Padding adds only empty lines. */
  lemma PaddedLines(pos: Position, block: seq<string>, h: nat)
    requires ValidPosition(pos) && |block| <= h
    ensures forall l :: l in Padded(pos, block, h) ==> l == "" || l in block
  {
  }

  /** At the top the block keeps its first rows and empty rows follow; at
      the bottom empty rows come first; in between `share` of them go above. */
  lemma PaddedPlacement(pos: Position, block: seq<string>, h: nat)
    requires ValidPosition(pos) && |block| <= h
    ensures var r := Padded(pos, block, h);
            var top := if pos.Start? then 0 else if pos.End? then h - |block| else pos.share(h - |block|);
            top + |block| <= h &&
            r[top..top + |block|] == block &&
            forall k :: 0 <= k < h && !(top <= k < top + |block|) ==> r[k] == ""
  {
  }

  /** A block that already has `h` lines is left as it is. */
  lemma PaddedFull(pos: Position, block: seq<string>)
    requires ValidPosition(pos)
    ensures Padded(pos, block, |block|) == block
  {
    var r := Padded(pos, block, |block|);
    if pos.Between? {
      assert pos.share(0) <= 0;
      assert r[0..|block|] == r;
    } else if pos.End? {
      assert r[0..] == r;
    } else {
      assert r[..|block|] == r;
    }
  }

  function PaddedBlocks(pos: Position, strs: seq<string>, h: nat): (r: seq<seq<string>>)
    requires ValidPosition(pos)
    requires forall k :: 0 <= k < |strs| ==> |Split(strs[k])| <= h
    ensures |r| == |strs|
    ensures forall j :: 0 <= j < |r| ==> r[j] == Padded(pos, Split(strs[j]), h)
  {
    seq(|strs|, j requires 0 <= j < |strs| => Padded(pos, Split(strs[j]), h))
  }

  function BlockWidths(width: string -> nat, strs: seq<string>): (r: seq<nat>)
    ensures |r| == |strs|
    ensures forall j :: 0 <= j < |r| ==> r[j] == Widest(width, Split(strs[j]))
  {
    seq(|strs|, j requires 0 <= j < |strs| => Widest(width, Split(strs[j])))
  }

  /** A line followed by the fill that brings it to width `w`. */
  function Cell(st: Style, line: string, w: nat): string
    requires st.width(line) <= w
  {
    line + st.render(Spaces(w - st.width(line)))
  }

  /** A cell starts with its line; with widths that add up it is exactly
      `w` wide. */
  lemma CellPlacement(st: Style, line: string, w: nat)
    requires st.width(line) <= w
    ensures |line| <= |Cell(st, line, w)| && Cell(st, line, w)[..|line|] == line
    ensures Measures(st) ==> st.width(Cell(st, line, w)) == w
  {
  }

  /** Row `i` exists in every block and no line in it is wider than its
      block: the padding counts are not negative. */
  predicate Fits(st: Style, blocks: seq<seq<string>>, widths: seq<nat>, i: nat) {
    |widths| == |blocks| &&
    forall j :: 0 <= j < |blocks| ==> i < |blocks[j]| && st.width(blocks[j][i]) <= widths[j]
  }

  /** Row `i` of the first `m` blocks: each block's line `i` padded to the
      width of its block, left to right. */
  function Row(st: Style, blocks: seq<seq<string>>, widths: seq<nat>, i: nat, m: nat): string
    requires Fits(st, blocks, widths, i) && m <= |blocks|
  {
    if m == 0 then "" else Row(st, blocks, widths, i, m - 1) + Cell(st, blocks[m - 1][i], widths[m - 1])
  }

  /** A row starts with the first block's line. */
  lemma {:induction false} RowStart(st: Style, blocks: seq<seq<string>>, widths: seq<nat>, i: nat, m: nat)
    requires Fits(st, blocks, widths, i) && 0 < m <= |blocks|
    ensures var line := blocks[0][i];
            |line| <= |Row(st, blocks, widths, i, m)| && Row(st, blocks, widths, i, m)[..|line|] == line
    decreases m
  {
    var line := blocks[0][i];
    if m == 1 {
      CellPlacement(st, line, widths[0]);
      assert Row(st, blocks, widths, i, 1) == "" + Cell(st, line, widths[0]);
    } else {
      RowStart(st, blocks, widths, i, m - 1);
      var prefix := Row(st, blocks, widths, i, m - 1);
      var c := Cell(st, blocks[m - 1][i], widths[m - 1]);
      assert (prefix + c)[..|line|] == prefix[..|line|];
    }
  }

  /** The first `h` rows of `blocks` side by side. */
  function Rows(st: Style, blocks: seq<seq<string>>, widths: seq<nat>, h: nat): (rows: seq<string>)
    requires forall i :: 0 <= i < h ==> Fits(st, blocks, widths, i)
    ensures |rows| == h
    ensures forall i :: 0 <= i < h ==> rows[i] == Row(st, blocks, widths, i, |blocks|)
  {
    seq(h, i requires 0 <= i < h => Row(st, blocks, widths, i, |blocks|))
  }

  /** Once padded, every block has every row, and no line is wider than the
      widest line of its block. */
  lemma PaddedFit(pos: Position, st: Style, strs: seq<string>)
    requires ValidPosition(pos) && st.width("") == 0
    ensures forall i :: 0 <= i < MaxHeight(strs) ==>
              Fits(st, PaddedBlocks(pos, strs, MaxHeight(strs)), BlockWidths(st.width, strs), i)
  {
    var h := MaxHeight(strs);
    var blocks := PaddedBlocks(pos, strs, h);
    var widths := BlockWidths(st.width, strs);
    forall j | 0 <= j < |blocks|
      ensures |blocks[j]| == h
      ensures forall i :: 0 <= i < h ==> st.width(blocks[j][i]) <= widths[j]
    {
      PaddedWithin(pos, st, Split(strs[j]), h);
    }
  }

  /** The empty lines added by padding are no wider than the block. */
  lemma PaddedWithin(pos: Position, st: Style, block: seq<string>, h: nat)
    requires ValidPosition(pos) && |block| <= h && st.width("") == 0
    ensures forall i :: 0 <= i < h ==> st.width(Padded(pos, block, h)[i]) <= Widest(st.width, block)
  {
    var r := Padded(pos, block, h);
    var n := h - |block|;
    var top := if pos.Start? then 0 else if pos.End? then n else pos.share(n);
    forall i | 0 <= i < h
      ensures st.width(r[i]) <= Widest(st.width, block)
    {
      PaddedPlacement(pos, block, h);
      if top <= i < top + |block| {
        assert r[i] == r[top..top + |block|][i - top];
      }
    }
  }

  /** The rows of the horizontal join of `strs`. */
  function HorizontalRows(pos: Position, st: Style, strs: seq<string>): (rows: seq<string>)
    requires ValidPosition(pos) && st.width("") == 0
    ensures |rows| == MaxHeight(strs)
  {
    PaddedFit(pos, st, strs);
    Rows(st, PaddedBlocks(pos, strs, MaxHeight(strs)), BlockWidths(st.width, strs), MaxHeight(strs))
  }

  /** The blocks of `strs` side by side, aligned vertically by `pos`, each
      line of a block padded to the width of the block's widest line. */
  method JoinHorizontal(pos: Position, st: Style, strs: seq<string>) returns (r: string)
    requires ValidPosition(pos) && st.width("") == 0
    ensures |strs| == 0 ==> r == ""
    ensures |strs| == 1 ==> r == strs[0]
    ensures |strs| >= 2 ==> r == JoinLines(HorizontalRows(pos, st, strs))
  {
    if |strs| == 0 {
      return "";
    }
    if |strs| == 1 {
      return strs[0];
    }
    var blocks, maxWidths, maxHeight := SplitBlocks(st.width, strs);
    blocks := PadBlocks(pos, blocks, maxHeight);
    assert blocks == PaddedBlocks(pos, strs, maxHeight);
    PaddedFit(pos, st, strs);
    assert |Split(strs[0])| >= 1;
    r := MergeRows(st, blocks, maxWidths, maxHeight);
  }

  /** Every block split into lines, with the width of its widest line, and
      the line count of the tallest block. */
  method SplitBlocks(width: string -> nat, strs: seq<string>)
      returns (blocks: seq<seq<string>>, maxWidths: seq<nat>, maxHeight: nat)
    ensures |blocks| == |strs|
    ensures forall k :: 0 <= k < |strs| ==> blocks[k] == Split(strs[k])
    ensures maxWidths == BlockWidths(width, strs)
    ensures maxHeight == MaxHeight(strs)
  {
    blocks := seq(|strs|, _ => []);
    maxWidths := seq(|strs|, _ => 0);
    maxHeight := 0;
    for i := 0 to |strs|
      invariant |blocks| == |strs| && |maxWidths| == |strs|
      invariant forall k :: 0 <= k < i ==> blocks[k] == Split(strs[k])
      invariant forall k :: 0 <= k < i ==> maxWidths[k] == Widest(width, Split(strs[k]))
      invariant maxHeight == MaxHeight(strs[..i])
    {
      var lines, widest := GetLines(width, strs[i]);
      blocks := blocks[i := lines];
      maxWidths := maxWidths[i := widest];
      if |blocks[i]| > maxHeight {
        maxHeight := |blocks[i]|;
      }
      assert strs[..i + 1][..i] == strs[..i];
    }
    assert strs[..|strs|] == strs;
  }

  /** Every block brought to `maxHeight` lines by empty lines placed as
      `pos` says. */
  method PadBlocks(pos: Position, blocks: seq<seq<string>>, maxHeight: nat) returns (padded: seq<seq<string>>)
    requires ValidPosition(pos)
    requires forall k :: 0 <= k < |blocks| ==> |blocks[k]| <= maxHeight
    ensures |padded| == |blocks|
    ensures forall k :: 0 <= k < |blocks| ==> padded[k] == Padded(pos, blocks[k], maxHeight)
  {
    padded := blocks;
    for i := 0 to |padded|
      invariant |padded| == |blocks|
      invariant forall k :: 0 <= k < i ==> padded[k] == Padded(pos, blocks[k], maxHeight)
      invariant forall k :: i <= k < |padded| ==> padded[k] == blocks[k]
    {
      if |padded[i]| >= maxHeight {
        PaddedFull(pos, padded[i]);
        continue;
      }
      var block := PadBlock(pos, padded[i], maxHeight);
      padded := padded[i := block];
    }
  }

  /** One block that is shorter than `maxHeight`, with the empty lines it
      lacks added as `pos` says. */
  method PadBlock(pos: Position, block: seq<string>, maxHeight: nat) returns (r: seq<string>)
    requires ValidPosition(pos) && |block| < maxHeight
    ensures r == Padded(pos, block, maxHeight)
  {
    var extraLines := Empties(maxHeight - |block|);
    match pos
    case Start =>
      r := block + extraLines;
    case End =>
      r := extraLines + block;
    case Between(share) =>
      var n := |extraLines|;
      var split := share(n);
      var top := n - split;
      var bottom := n - top;
      assert extraLines[top..] == Empties(split);
      assert extraLines[bottom..] == Empties(n - split);
      r := extraLines[top..] + block;
      r := r + extraLines[bottom..];
  }

  /** Row after row, every block's line padded to its block's width, with a
      newline between rows and none after the last. */
  method MergeRows(st: Style, blocks: seq<seq<string>>, maxWidths: seq<nat>, maxHeight: nat)
      returns (b: string)
    requires |blocks| >= 1 && |blocks[0]| == maxHeight
    requires forall i :: 0 <= i < maxHeight ==> Fits(st, blocks, maxWidths, i)
    ensures b == JoinLines(Rows(st, blocks, maxWidths, maxHeight))
  {
    ghost var rows := Rows(st, blocks, maxWidths, maxHeight);
    b := "";
    for i := 0 to |blocks[0]|
      invariant b == Written(rows[..i], i == maxHeight && i > 0)
    {
      b := AppendRow(st, blocks, maxWidths, i, b);
      WriteStep(rows[..i], rows[i], b);
      assert rows[..i] + [rows[i]] == rows[..i + 1];
      if i < |blocks[0]| - 1 {
        b := b + "\n";
      }
    }
    assert rows[..maxHeight] == rows;
  }

  /** One row: each block's line `i` followed by its fill, left to right. */
  method AppendRow(st: Style, blocks: seq<seq<string>>, widths: seq<nat>, i: nat, b0: string)
      returns (b: string)
    requires Fits(st, blocks, widths, i)
    ensures b == b0 + Row(st, blocks, widths, i, |blocks|)
  {
    b := b0;
    for j := 0 to |blocks|
      invariant b == b0 + Row(st, blocks, widths, i, j)
    {
      b := b + blocks[j][i];
      b := b + st.render(Spaces(widths[j] - st.width(blocks[j][i])));
    }
  }

  lemma {:induction false} RowNoNewline(st: Style, blocks: seq<seq<string>>, widths: seq<nat>, i: nat, m: nat)
    requires RendersOnOneLine(st)
    requires Fits(st, blocks, widths, i) && m <= |blocks|
    requires forall j :: 0 <= j < |blocks| ==> NoNewline(blocks[j][i])
    ensures NoNewline(Row(st, blocks, widths, i, m))
    decreases m
  {
    if m > 0 {
      RowNoNewline(st, blocks, widths, i, m - 1);
      var line := blocks[m - 1][i];
      assert NoNewline(st.render(Spaces(widths[m - 1] - st.width(line))));
    }
  }

  /** The padded blocks hold no newline: their lines are lines of the
      input or empty. */
  lemma PaddedNoNewline(pos: Position, strs: seq<string>)
    requires ValidPosition(pos)
    ensures var blocks := PaddedBlocks(pos, strs, MaxHeight(strs));
            forall j, k :: 0 <= j < |blocks| && 0 <= k < |blocks[j]| ==> NoNewline(blocks[j][k])
  {
    var blocks := PaddedBlocks(pos, strs, MaxHeight(strs));
    forall j, k | 0 <= j < |blocks| && 0 <= k < |blocks[j]|
      ensures NoNewline(blocks[j][k])
    {
      PaddedLines(pos, Split(strs[j]), MaxHeight(strs));
      assert blocks[j][k] in blocks[j];
    }
  }

  /** With padding on one line, the horizontal join has exactly the rows
      of `HorizontalRows`, as many as the tallest block has lines, separated
      by newlines and with none after the last. */
  lemma HorizontalLines(pos: Position, st: Style, strs: seq<string>)
    requires ValidPosition(pos) && st.width("") == 0 && RendersOnOneLine(st)
    requires |strs| >= 2
    ensures |HorizontalRows(pos, st, strs)| == MaxHeight(strs)
    ensures Split(JoinLines(HorizontalRows(pos, st, strs))) == HorizontalRows(pos, st, strs)
  {
    var h := MaxHeight(strs);
    var rows := HorizontalRows(pos, st, strs);
    var blocks := PaddedBlocks(pos, strs, h);
    var widths := BlockWidths(st.width, strs);
    assert |Split(strs[0])| >= 1;
    PaddedFit(pos, st, strs);
    PaddedNoNewline(pos, strs);
    forall i | 0 <= i < h
      ensures NoNewline(rows[i])
    {
      RowNoNewline(st, blocks, widths, i, |strs|);
    }
    SplitJoin(rows);
  }

  function Total(ws: seq<nat>): nat
    decreases |ws|
  {
    if ws == [] then 0 else Total(ws[..|ws| - 1]) + ws[|ws| - 1]
  }

  /** Additive widths give the empty line width 0. */
  lemma MeasuresEmpty(st: Style)
    requires Measures(st)
    ensures st.width("") == 0
  {
    var e: string := "";
    assert e + e == e;
    assert st.width(e + e) == st.width(e) + st.width(e);
  }

  lemma {:induction false} RowWidth(st: Style, blocks: seq<seq<string>>, widths: seq<nat>, i: nat, m: nat)
    requires Measures(st)
    requires Fits(st, blocks, widths, i) && m <= |blocks|
    ensures st.width(Row(st, blocks, widths, i, m)) == Total(widths[..m])
    decreases m
  {
    if m > 0 {
      RowWidth(st, blocks, widths, i, m - 1);
      var line := blocks[m - 1][i];
      var k := widths[m - 1] - st.width(line);
      var pad := st.render(Spaces(k));
      assert st.width(pad) == k;
      assert st.width(line + pad) == st.width(line) + st.width(pad);
      var prefix := Row(st, blocks, widths, i, m - 1);
      assert Row(st, blocks, widths, i, m) == prefix + (line + pad);
      assert st.width(prefix + (line + pad)) == st.width(prefix) + st.width(line + pad);
      assert widths[..m][..m - 1] == widths[..m - 1];
      assert Total(widths[..m]) == Total(widths[..m - 1]) + widths[m - 1];
    } else {
      MeasuresEmpty(st);
    }
  }

  /** With measures that add up, every row of the horizontal join is exactly
      as wide as the blocks' widest lines put together. */
  lemma HorizontalRowsEvenWidth(pos: Position, st: Style, strs: seq<string>)
    requires ValidPosition(pos) && Measures(st)
    ensures st.width("") == 0
    ensures forall i :: 0 <= i < |HorizontalRows(pos, st, strs)| ==>
              st.width(HorizontalRows(pos, st, strs)[i]) == Total(BlockWidths(st.width, strs))
  {
    MeasuresEmpty(st);
    var h := MaxHeight(strs);
    var rows := HorizontalRows(pos, st, strs);
    var widths := BlockWidths(st.width, strs);
    PaddedFit(pos, st, strs);
    forall i | 0 <= i < h
      ensures st.width(rows[i]) == Total(widths)
    {
      RowWidth(st, PaddedBlocks(pos, strs, h), widths, i, |strs|);
      assert widths[..|strs|] == widths;
    }
  }

  // ---------------------------------------------------------------------
  // Vertical joining

  /** The lines of all of `strs`, block after block. */
  function AllLines(strs: seq<string>): (r: seq<string>)
    ensures |r| >= |strs|
    decreases |strs|
  {
    if strs == [] then [] else AllLines(strs[..|strs| - 1]) + Split(strs[|strs| - 1])
  }

  /** The lines of the first `n` blocks come first. */
  lemma {:induction false} AllLinesPrefix(strs: seq<string>, n: nat)
    requires n <= |strs|
    ensures |AllLines(strs[..n])| <= |AllLines(strs)|
    ensures forall k :: 0 <= k < |AllLines(strs[..n])| ==> AllLines(strs[..n])[k] == AllLines(strs)[k]
    decreases |strs|
  {
    if n < |strs| {
      var init := strs[..|strs| - 1];
      AllLinesPrefix(init, n);
      assert init[..n] == strs[..n];
    } else {
      assert strs[..n] == strs;
    }
  }

  /** `line` with `w` units of padding placed by `pos`; in between, a line
      that needs no padding is written bare. */
  function Aligned(pos: Position, st: Style, line: string, w: nat): string
    requires ValidPosition(pos)
  {
    match pos
    case Start => line + st.render(Spaces(w))
    case End => st.render(Spaces(w)) + line
    case Between(share) =>
      if w < 1 then line
      else st.render(Spaces(share(w))) + line + st.render(Spaces(w - share(w)))
  }

  /** Left alignment writes the line first, right alignment last; in
      between, a line that needs no padding is written bare. */
  lemma AlignedPlacement(pos: Position, st: Style, line: string, w: nat)
    requires ValidPosition(pos)
    ensures var r := Aligned(pos, st, line, w);
            |line| <= |r| &&
            (pos.Start? ==> r[..|line|] == line) &&
            (pos.End? ==> r[|r| - |line|..] == line) &&
            (pos.Between? && w < 1 ==> r == line)
  {
  }

  /** Each of `ls` aligned within width `mw`. */
  function AlignedRows(pos: Position, st: Style, ls: seq<string>, mw: nat): (r: seq<string>)
    requires ValidPosition(pos)
    requires forall k :: 0 <= k < |ls| ==> st.width(ls[k]) <= mw
    ensures |r| == |ls|
    decreases |ls|
  {
    if ls == [] then []
    else
      var n := |ls| - 1;
      AlignedRows(pos, st, ls[..n], mw) + [Aligned(pos, st, ls[n], mw - st.width(ls[n]))]
  }

  lemma {:induction false} AlignedRowsAt(pos: Position, st: Style, ls: seq<string>, mw: nat, k: nat)
    requires ValidPosition(pos)
    requires forall k :: 0 <= k < |ls| ==> st.width(ls[k]) <= mw
    requires k < |ls|
    ensures AlignedRows(pos, st, ls, mw)[k] == Aligned(pos, st, ls[k], mw - st.width(ls[k]))
    decreases |ls|
  {
    var n := |ls| - 1;
    if k < n {
      AlignedRowsAt(pos, st, ls[..n], mw, k);
    }
  }

  /** Rows that hold, one by one, the aligned lines of `ls` are the
      aligned rows of `ls`. */
  lemma AlignedRowsEach(pos: Position, st: Style, ls: seq<string>, mw: nat, rows: seq<string>)
    requires ValidPosition(pos)
    requires forall k :: 0 <= k < |ls| ==> st.width(ls[k]) <= mw
    requires |rows| == |ls|
    requires forall k :: 0 <= k < |ls| ==> rows[k] == Aligned(pos, st, ls[k], mw - st.width(ls[k]))
    ensures rows == AlignedRows(pos, st, ls, mw)
  {
    forall k | 0 <= k < |ls|
      ensures rows[k] == AlignedRows(pos, st, ls, mw)[k]
    {
      AlignedRowsAt(pos, st, ls, mw, k);
    }
  }

  /** Aligning two runs of lines one after the other is aligning them
      together. */
  lemma AlignedRowsConcat(pos: Position, st: Style, ls: seq<string>, ms: seq<string>, mw: nat)
    requires ValidPosition(pos)
    requires forall k :: 0 <= k < |ls| ==> st.width(ls[k]) <= mw
    requires forall k :: 0 <= k < |ms| ==> st.width(ms[k]) <= mw
    ensures forall k :: 0 <= k < |ls + ms| ==> st.width((ls + ms)[k]) <= mw
    ensures AlignedRows(pos, st, ls + ms, mw) == AlignedRows(pos, st, ls, mw) + AlignedRows(pos, st, ms, mw)
  {
    var all := AlignedRows(pos, st, ls + ms, mw);
    var parts := AlignedRows(pos, st, ls, mw) + AlignedRows(pos, st, ms, mw);
    forall k | 0 <= k < |all|
      ensures all[k] == parts[k]
    {
      AlignedConcatAt(pos, st, ls, ms, mw, k);
    }
  }

  lemma AlignedConcatAt(pos: Position, st: Style, ls: seq<string>, ms: seq<string>, mw: nat, k: nat)
    requires ValidPosition(pos)
    requires forall k :: 0 <= k < |ls + ms| ==> st.width((ls + ms)[k]) <= mw
    requires forall k :: 0 <= k < |ls| ==> st.width(ls[k]) <= mw
    requires forall k :: 0 <= k < |ms| ==> st.width(ms[k]) <= mw
    requires k < |ls + ms|
    ensures AlignedRows(pos, st, ls + ms, mw)[k] == (AlignedRows(pos, st, ls, mw) + AlignedRows(pos, st, ms, mw))[k]
  {
    AlignedRowsAt(pos, st, ls + ms, mw, k);
    if k < |ls| {
      AlignedRowsAt(pos, st, ls, mw, k);
    } else {
      AlignedRowsAt(pos, st, ms, mw, k - |ls|);
    }
  }

  /** The rows of the vertical join of `strs`: every line of every block, in
      order, aligned within the width of the widest line of all. */
  function VerticalRows(pos: Position, st: Style, strs: seq<string>): (rows: seq<string>)
    requires ValidPosition(pos)
    ensures |rows| == |AllLines(strs)|
  {
    var ls := AllLines(strs);
    AlignedRows(pos, st, ls, Widest(st.width, ls))
  }

  /** The blocks of `strs` one above the other, each line aligned
      horizontally by `pos` within the width of the widest line. */
  method JoinVertical(pos: Position, st: Style, strs: seq<string>) returns (r: string)
    requires ValidPosition(pos)
    ensures |strs| == 0 ==> r == ""
    ensures |strs| == 1 ==> r == strs[0]
    ensures |strs| >= 2 ==> r == JoinLines(VerticalRows(pos, st, strs))
  {
    if |strs| == 0 {
      return "";
    }
    if |strs| == 1 {
      return strs[0];
    }

    var blocks, maxWidth := SplitLines(st.width, strs);
    r := WriteLines(pos, st, strs, blocks, maxWidth);
  }

  /** Every block split into lines, and the width of the widest line of all. */
  method SplitLines(width: string -> nat, strs: seq<string>)
      returns (blocks: seq<seq<string>>, maxWidth: nat)
    ensures |blocks| == |strs|
    ensures forall k :: 0 <= k < |strs| ==> blocks[k] == Split(strs[k])
    ensures maxWidth == Widest(width, AllLines(strs))
  {
    blocks := seq(|strs|, _ => []);
    maxWidth := 0;
    for i := 0 to |strs|
      invariant |blocks| == |strs|
      invariant forall k :: 0 <= k < i ==> blocks[k] == Split(strs[k])
      invariant maxWidth == Widest(width, AllLines(strs[..i]))
    {
      var lines, w := GetLines(width, strs[i]);
      blocks := blocks[i := lines];
      assert strs[..i + 1][..i] == strs[..i];
      assert AllLines(strs[..i + 1]) == AllLines(strs[..i]) + lines;
      WidestConcat(width, AllLines(strs[..i]), lines);
      if w > maxWidth {
        maxWidth := w;
      }
    }
    assert strs[..|strs|] == strs;
  }

  /** Every line of every block, aligned within `maxWidth`, with a newline
      after each line but the last line of the last block. */
  method WriteLines(pos: Position, st: Style, strs: seq<string>, blocks: seq<seq<string>>, maxWidth: nat)
      returns (b: string)
    requires ValidPosition(pos) && |strs| >= 1
    requires |blocks| == |strs| && forall k :: 0 <= k < |strs| ==> blocks[k] == Split(strs[k])
    requires maxWidth == Widest(st.width, AllLines(strs))
    ensures b == JoinLines(VerticalRows(pos, st, strs))
  {
    ghost var seen: seq<string> := [];
    b := "";
    for i := 0 to |blocks|
      invariant seen == AllLines(strs[..i])
      invariant forall k :: 0 <= k < |seen| ==> st.width(seen[k]) <= maxWidth
      invariant b == Written(AlignedRows(pos, st, seen, maxWidth), i == |blocks|)
    {
      var block := blocks[i];
      NextBlock(pos, st, strs, i, seen, maxWidth);
      b := WriteBlock(pos, st, b, AlignedRows(pos, st, seen, maxWidth), block, maxWidth, i == |blocks| - 1);
      seen := seen + block;
    }
    assert strs[..|strs|] == strs;
  }

  /** The lines seen after one more block, and their aligned rows. */
  lemma NextBlock(pos: Position, st: Style, strs: seq<string>, i: nat, seen: seq<string>, maxWidth: nat)
    requires ValidPosition(pos) && i < |strs|
    requires maxWidth == Widest(st.width, AllLines(strs))
    requires seen == AllLines(strs[..i])
    requires forall k :: 0 <= k < |seen| ==> st.width(seen[k]) <= maxWidth
    ensures forall k :: 0 <= k < |Split(strs[i])| ==> st.width(Split(strs[i])[k]) <= maxWidth
    ensures seen + Split(strs[i]) == AllLines(strs[..i + 1])
    ensures forall k :: 0 <= k < |seen + Split(strs[i])| ==> st.width((seen + Split(strs[i]))[k]) <= maxWidth
    ensures AlignedRows(pos, st, seen + Split(strs[i]), maxWidth) ==
              AlignedRows(pos, st, seen, maxWidth) + AlignedRows(pos, st, Split(strs[i]), maxWidth)
  {
    assert strs[..i + 1][..i] == strs[..i];
    BlockWithinWidest(st.width, strs, i);
    AlignedRowsConcat(pos, st, seen, Split(strs[i]), maxWidth);
  }

  /** No line of any block is wider than the widest line of all. */
  lemma BlockWithinWidest(width: string -> nat, strs: seq<string>, i: nat)
    requires i < |strs|
    ensures forall k :: 0 <= k < |Split(strs[i])| ==> width(Split(strs[i])[k]) <= Widest(width, AllLines(strs))
  {
    var all := AllLines(strs);
    var upto := AllLines(strs[..i + 1]);
    var before := AllLines(strs[..i]);
    var block := Split(strs[i]);
    AllLinesPrefix(strs, i + 1);
    assert strs[..i + 1][..i] == strs[..i];
    assert upto == before + block;
    forall k | 0 <= k < |block|
      ensures width(block[k]) <= Widest(width, all)
    {
      assert upto[|before| + k] == block[k];
      assert all[|before| + k] == upto[|before| + k];
    }
  }

  /** The lines of one block written after the rows `rows0`; a newline
      follows every line except the last line of the `last` block. */
  method WriteBlock(pos: Position, st: Style, b0: string, ghost rows0: seq<string>, block: seq<string>,
                    maxWidth: nat, last: bool)
      returns (b: string)
    requires ValidPosition(pos)
    requires forall k :: 0 <= k < |block| ==> st.width(block[k]) <= maxWidth
    requires b0 == Written(rows0, false)
    ensures b == Written(rows0 + AlignedRows(pos, st, block, maxWidth), last && block != [])
  {
    b := b0;
    ghost var rows: seq<string> := [];
    ghost var all := rows0;
    for j := 0 to |block|
      invariant |rows| == j && all == rows0 + rows
      invariant forall k :: 0 <= k < j ==> rows[k] == Aligned(pos, st, block[k], maxWidth - st.width(block[k]))
      invariant b == Written(all, last && j == |block| && j > 0)
    {
      var line := block[j];
      var w := maxWidth - st.width(line);
      ghost var x := Aligned(pos, st, line, w);
      b := WriteRow(pos, st, b, all, line, w, !(last && j == |block| - 1));
      rows := rows + [x];
      all := all + [x];
    }
    AlignedRowsEach(pos, st, block, maxWidth, rows);
  }

  /** The text written for `rows`: joined by newlines, and with a newline
      after the last one unless the writer is `closed`. */
  function Written(rows: seq<string>, closed: bool): string {
    if closed then JoinLines(rows) else Separated(rows)
  }

  /** One aligned line written after the rows `rows`, followed by a newline
      when `newline` holds. */
  method WriteRow(pos: Position, st: Style, b0: string, ghost rows: seq<string>, line: string, w: nat,
                  newline: bool)
      returns (b: string)
    requires ValidPosition(pos)
    requires b0 == Written(rows, false)
    ensures b == Written(rows + [Aligned(pos, st, line, w)], !newline)
  {
    b := WriteAligned(pos, st, b0, line, w);
    WriteStep(rows, Aligned(pos, st, line, w), b);
    if newline {
      b := b + "\n";
    }
  }

  /** Writing a row after `Separated(rows)` gives the joined rows, and a
      newline after that gives them separated again. */
  lemma WriteStep(rows: seq<string>, x: string, b: string)
    requires b == Separated(rows) + x
    ensures b == JoinLines(rows + [x])
    ensures b + "\n" == Separated(rows + [x])
  {
    SeparatedThenLine(rows, x);
  }

  /** The builder `b` after `line` is written with `w` units of padding
      placed as `pos` says. */
  method WriteAligned(pos: Position, st: Style, b: string, line: string, w: nat) returns (b': string)
    requires ValidPosition(pos)
    ensures b' == b + Aligned(pos, st, line, w)
  {
    b' := b;
    match pos
    case Start =>
      b' := b' + line;
      b' := b' + st.render(Spaces(w));
    case End =>
      b' := b' + st.render(Spaces(w));
      b' := b' + line;
    case Between(share) =>
      if w < 1 {
        b' := b' + line;
      } else {
        var split := share(w);
        var right := w - split;
        var left := w - right;
        b' := b' + st.render(Spaces(left));
        b' := b' + line;
        b' := b' + st.render(Spaces(right));
      }
  }

  /** With padding on one line, the vertical join has one row per line of
      the input blocks, in order, separated by newlines and with none after
      the last. */
  lemma VerticalLines(pos: Position, st: Style, strs: seq<string>)
    requires ValidPosition(pos) && RendersOnOneLine(st)
    requires |strs| >= 2
    ensures |VerticalRows(pos, st, strs)| == |AllLines(strs)|
    ensures Split(JoinLines(VerticalRows(pos, st, strs))) == VerticalRows(pos, st, strs)
  {
    var ls := AllLines(strs);
    var rows := VerticalRows(pos, st, strs);
    var mw := Widest(st.width, ls);
    AllLinesNoNewline(strs);
    forall k | 0 <= k < |rows|
      ensures NoNewline(rows[k])
    {
      AlignedRowsAt(pos, st, ls, mw, k);
      AlignedNoNewline(pos, st, ls[k], mw - st.width(ls[k]));
    }
    SplitJoin(rows);
  }

  lemma AlignedNoNewline(pos: Position, st: Style, line: string, w: nat)
    requires ValidPosition(pos) && RendersOnOneLine(st) && NoNewline(line)
    ensures NoNewline(Aligned(pos, st, line, w))
  {
    assert NoNewline(st.render(Spaces(w)));
    if pos.Between? {
      assert NoNewline(st.render(Spaces(pos.share(w))));
      assert NoNewline(st.render(Spaces(w - pos.share(w))));
    }
  }

  lemma {:induction false} AllLinesNoNewline(strs: seq<string>)
    ensures AllNoNewline(AllLines(strs))
    decreases |strs|
  {
    if strs != [] {
      AllLinesNoNewline(strs[..|strs| - 1]);
      var a := AllLines(strs[..|strs| - 1]);
      var s := Split(strs[|strs| - 1]);
      assert AllLines(strs) == a + s;
    }
  }

  /** With measures that add up, every row of the vertical join is exactly
      as wide as the widest line of all the blocks. */
  lemma VerticalRowsEvenWidth(pos: Position, st: Style, strs: seq<string>)
    requires ValidPosition(pos) && Measures(st)
    ensures forall k :: 0 <= k < |VerticalRows(pos, st, strs)| ==>
              st.width(VerticalRows(pos, st, strs)[k]) == Widest(st.width, AllLines(strs))
  {
    var ls := AllLines(strs);
    var rows := VerticalRows(pos, st, strs);
    var mw := Widest(st.width, ls);
    forall k | 0 <= k < |rows|
      ensures st.width(rows[k]) == mw
    {
      AlignedRowsAt(pos, st, ls, mw, k);
      AlignedWidth(pos, st, ls[k], mw - st.width(ls[k]));
    }
  }

  /** An aligned line is `w` wider than the line. */
  lemma AlignedWidth(pos: Position, st: Style, line: string, w: nat)
    requires ValidPosition(pos) && Measures(st)
    ensures st.width(Aligned(pos, st, line, w)) == st.width(line) + w
  {
    var pad := st.render(Spaces(w));
    assert st.width(pad) == w;
    match pos
    case Start =>
      assert st.width(line + pad) == st.width(line) + st.width(pad);
    case End =>
      assert st.width(pad + line) == st.width(pad) + st.width(line);
    case Between(share) =>
      if w > 0 {
        var left := st.render(Spaces(share(w)));
        var right := st.render(Spaces(w - share(w)));
        assert st.width(left) == share(w);
        assert st.width(right) == w - share(w);
        assert st.width(left + line) == st.width(left) + st.width(line);
        assert st.width(left + line + right) == st.width(left + line) + st.width(right);
      }
  }

  /** Left alignment writes each line first, right alignment last. */
  lemma VerticalAlignment(pos: Position, st: Style, strs: seq<string>, k: nat)
    requires ValidPosition(pos) && k < |AllLines(strs)|
    ensures var line := AllLines(strs)[k];
            var row := VerticalRows(pos, st, strs)[k];
            (pos.Start? ==> |line| <= |row| && row[..|line|] == line) &&
            (pos.End? ==> |line| <= |row| && row[|row| - |line|..] == line) &&
            (pos.Between? && st.width(line) == Widest(st.width, AllLines(strs)) ==> row == line)
  {
    var ls := AllLines(strs);
    AlignedRowsAt(pos, st, ls, Widest(st.width, ls), k);
  }
}
