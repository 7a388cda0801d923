/*
 * The table layout of the receipt printer (recipt-printer, table.rs):
 * cells are collected row by row, then laid out for a 56-character line
 * (font B). A table that fits is padded out to the full line width; one
 * that does not is either transposed or split into chunks of columns,
 * each chunk repeating the first column.
 */
module Table {
  import opened Text

  /** Characters per line in font B. */
  const FontBWidth: nat := 56

  function Max(a: nat, b: nat): nat { if a >= b then a else b }

  function Min(a: nat, b: nat): nat { if a <= b then a else b }

  function Sum(ws: seq<nat>): nat
  {
    if ws == [] then 0 else Sum(ws[..|ws| - 1]) + ws[|ws| - 1]
  }

  function Repeat(c: char, n: nat): (r: string)
    ensures |r| == n && forall i :: 0 <= i < n ==> r[i] == c
  {
    seq(n, _ => c)
  }

  /** `row.get(c).cloned().unwrap_or_default()`. */
  function Get(row: seq<string>, c: nat): string
  {
    if c < |row| then row[c] else ""
  }

  // ---------------------------------------------------------------------
  // Measuring

  /** The number of columns: the length of the longest row. */
  function MaxLen(rows: seq<seq<string>>): (r: nat)
    ensures forall k :: 0 <= k < |rows| ==> |rows[k]| <= r
    ensures rows != [] ==> exists k :: 0 <= k < |rows| && |rows[k]| == r
  {
    if rows == [] then 0 else Max(MaxLen(rows[..|rows| - 1]), |rows[|rows| - 1]|)
  }

  /** The longest cell of a row, 0 for an empty row. */
  function MaxCellLen(row: seq<string>): (r: nat)
    ensures forall i :: 0 <= i < |row| ==> |row[i]| <= r
  {
    if row == [] then 0 else Max(MaxCellLen(row[..|row| - 1]), |row[|row| - 1]|)
  }

  /** The longest cell of any of the rows. */
  function MaxCellLenRows(rows: seq<seq<string>>): (r: nat)
    ensures forall k, i :: 0 <= k < |rows| && 0 <= i < |rows[k]| ==> |rows[k][i]| <= r
  {
    if rows == [] then 0 else Max(MaxCellLenRows(rows[..|rows| - 1]), MaxCellLen(rows[|rows| - 1]))
  }

  function RowChars(row: seq<string>): nat
  {
    if row == [] then 0 else RowChars(row[..|row| - 1]) + |row[|row| - 1]|
  }

  function TotalChars(rows: seq<seq<string>>): nat
  {
    if rows == [] then 0 else TotalChars(rows[..|rows| - 1]) + RowChars(rows[|rows| - 1])
  }

  function TotalCells(rows: seq<seq<string>>): nat
  {
    if rows == [] then 0 else TotalCells(rows[..|rows| - 1]) + |rows[|rows| - 1]|
  }

  /** One row taken into the column widths. */
  function Widen(ws: seq<nat>, row: seq<string>): (r: seq<nat>)
    ensures |r| == |ws|
    ensures forall i :: 0 <= i < |ws| ==> r[i] == if i < |row| then Max(ws[i], |row[i]|) else ws[i]
  {
    seq(|ws|, i requires 0 <= i < |ws| => if i < |row| then Max(ws[i], |row[i]|) else ws[i])
  }

  /** The natural width of each of `n` columns. */
  function ColWidths(rows: seq<seq<string>>, n: nat): (r: seq<nat>)
    ensures |r| == n
  {
    if rows == [] then seq(n, _ => 0) else Widen(ColWidths(rows[..|rows| - 1], n), rows[|rows| - 1])
  }

  /** A column is at least as wide as each of its cells. */
  lemma {:induction false} ColWidthsBound(rows: seq<seq<string>>, n: nat)
    ensures forall k, i :: 0 <= k < |rows| && 0 <= i < |rows[k]| && i < n ==> ColWidths(rows, n)[i] >= |rows[k][i]|
  {
    if rows != [] {
      var init := rows[..|rows| - 1];
      ColWidthsBound(init, n);
      forall k, i | 0 <= k < |rows| && 0 <= i < |rows[k]| && i < n
        ensures ColWidths(rows, n)[i] >= |rows[k][i]|
      {
        if k < |init| { assert rows[k] == init[k]; }
      }
    }
  }

  /** ...and no wider than its widest cell. */
  lemma {:induction false} ColWidthsAttained(rows: seq<seq<string>>, n: nat, i: nat)
    requires i < n
    ensures ColWidths(rows, n)[i] == 0 ||
      exists k :: 0 <= k < |rows| && i < |rows[k]| && |rows[k][i]| == ColWidths(rows, n)[i]
  {
    if rows != [] {
      var init := rows[..|rows| - 1];
      ColWidthsAttained(init, n, i);
      if ColWidths(init, n)[i] != 0 && ColWidths(rows, n)[i] == ColWidths(init, n)[i] {
        var k :| 0 <= k < |init| && i < |init[k]| && |init[k][i]| == ColWidths(init, n)[i];
        assert rows[k] == init[k];
      }
    }
  }

  /** Widths bounded by `bound` beyond the first sum to at most the first
      plus `bound` for each of the others. */
  lemma {:induction false} SumBound(ws: seq<nat>, bound: nat)
    requires ws != [] && forall i :: 1 <= i < |ws| ==> ws[i] <= bound
    ensures Sum(ws) <= ws[0] + (|ws| - 1) * bound
  {
    if |ws| > 1 {
      var init := ws[..|ws| - 1];
      SumBound(init, bound);
      MulStep(|ws| - 1, bound);
    }
  }

  // ---------------------------------------------------------------------
  // Padding out a table that fits

  /** Each width grown by `per`, and the first `rem` by one more. */
  function Spread(ws: seq<nat>, per: nat, rem: nat): (r: seq<nat>)
    ensures |r| == |ws|
    ensures forall i :: 0 <= i < |ws| ==> r[i] == ws[i] + per + (if i < rem then 1 else 0)
  {
    seq(|ws|, i requires 0 <= i < |ws| => ws[i] + per + (if i < rem then 1 else 0))
  }

  lemma {:induction false} SpreadSum(ws: seq<nat>, per: nat, rem: nat)
    ensures Sum(Spread(ws, per, rem)) == Sum(ws) + |ws| * per + Min(rem, |ws|)
  {
    if ws != [] {
      var init := ws[..|ws| - 1];
      SpreadSum(init, per, rem);
      assert Spread(ws, per, rem)[..|ws| - 1] == Spread(init, per, rem);
      MulStep(|ws|, per);
    }
  }

  lemma MulStep(n: nat, per: nat)
    requires n > 0
    ensures n * per == (n - 1) * per + per
  {
  }

  lemma DivMod(a: nat, n: nat)
    requires n > 0
    ensures n * (a / n) + a % n == a && a % n < n
  {
  }

  /** The widths after `extra` is shared out: evenly, the first
      `extra % n` columns one wider. */
  function Padded(ws: seq<nat>, extra: nat): (r: seq<nat>)
    requires ws != []
    ensures |r| == |ws|
  {
    Spread(ws, extra / |ws|, extra % |ws|)
  }

  /** The widths after the spare line width is shared out. Widths that do
      not leave room stay as they are. */
  function Fill(ws: seq<nat>): (r: seq<nat>)
    requires ws != []
    ensures |r| == |ws|
  {
    var total := Sum(ws) + |ws| + 1;
    if total < FontBWidth then Padded(ws, FontBWidth - total) else ws
  }

  /** Widths that leave room are filled to exactly the line width, and no
      column gets narrower. */
  lemma FillExact(ws: seq<nat>)
    requires ws != [] && Sum(ws) + |ws| + 1 <= FontBWidth
    ensures Sum(Fill(ws)) + |ws| + 1 == FontBWidth
    ensures forall i :: 0 <= i < |ws| ==> Fill(ws)[i] >= ws[i]
  {
    FillSum(ws);
    FillWidens(ws);
  }

  lemma FillSum(ws: seq<nat>)
    requires ws != [] && Sum(ws) + |ws| + 1 <= FontBWidth
    ensures Sum(Fill(ws)) + |ws| + 1 == FontBWidth
  {
    var total := Sum(ws) + |ws| + 1;
    if total < FontBWidth {
      PadSum(ws, FontBWidth - total);
    }
  }

  lemma FillWidens(ws: seq<nat>)
    requires ws != []
    ensures forall i :: 0 <= i < |ws| ==> Fill(ws)[i] >= ws[i]
  {
    var total := Sum(ws) + |ws| + 1;
    if total < FontBWidth {
      PaddedWidens(ws, FontBWidth - total);
    }
  }

  lemma PaddedWidens(ws: seq<nat>, extra: nat)
    requires ws != []
    ensures forall i :: 0 <= i < |ws| ==> Padded(ws, extra)[i] >= ws[i]
  {
    var r := Spread(ws, extra / |ws|, extra % |ws|);
    assert forall i :: 0 <= i < |ws| ==> r[i] >= ws[i];
  }

  /** Sharing out `extra` adds exactly `extra` to the total width. */
  lemma PadSum(ws: seq<nat>, extra: nat)
    requires ws != []
    ensures Sum(Padded(ws, extra)) == Sum(ws) + extra
  {
    var per, rem := extra / |ws|, extra % |ws|;
    SpreadSum(ws, per, rem);
    DivMod(extra, |ws|);
    assert Min(rem, |ws|) == rem;
  }

  // ---------------------------------------------------------------------
  // Lines

  /** `+---+--+`: one run of dashes per column. */
  function Separator(ws: seq<nat>): (r: string)
    ensures |r| == 1 + Sum(ws) + |ws|
  {
    if ws == [] then "+" else Separator(ws[..|ws| - 1]) + Repeat('-', ws[|ws| - 1]) + "+"
  }

  function WidthAt(ws: seq<nat>, i: nat): nat
  {
    if i < |ws| then ws[i] else 0
  }

  /** `width.saturating_sub(len)`. */
  function Pad(width: nat, len: nat): nat
  {
    if width >= len then width - len else 0
  }

  /** `|cell  |cell |`: each cell padded with spaces to its column's width. */
  function RowLine(row: seq<string>, ws: seq<nat>): string
  {
    if row == [] then "|"
    else
      var i := |row| - 1;
      RowLine(row[..i], ws) + row[i] + Repeat(' ', Pad(WidthAt(ws, i), |row[i]|)) + "|"
  }

  /** A row with one cell per column, each cell within its width, is as
      long as the separator. */
  lemma {:induction false} RowLineLength(row: seq<string>, ws: seq<nat>)
    requires |row| <= |ws|
    requires forall i :: 0 <= i < |row| ==> |row[i]| <= ws[i]
    ensures |RowLine(row, ws)| == |Separator(ws[..|row|])|
  {
    if row != [] {
      var i := |row| - 1;
      RowLineLength(row[..i], ws);
      assert ws[..|row|][..i] == ws[..i];
    }
  }

  function Rendered(rows: seq<seq<string>>, ws: seq<nat>): (r: seq<string>)
    ensures |r| == |rows| && forall k :: 0 <= k < |rows| ==> r[k] == RowLine(rows[k], ws)
  {
    if rows == [] then [] else Rendered(rows[..|rows| - 1], ws) + [RowLine(rows[|rows| - 1], ws)]
  }

  /** The rows, with a separator after row `hdr - 1`. */
  function Body(rows: seq<seq<string>>, ws: seq<nat>, hdr: nat): seq<string>
  {
    if rows == [] then []
    else
      var after := if |rows| == hdr then [Separator(ws)] else [];
      Body(rows[..|rows| - 1], ws, hdr) + [RowLine(rows[|rows| - 1], ws)] + after
  }

  /** A table: a separator, the rows with the header separator, a separator. */
  function Layout(rows: seq<seq<string>>, ws: seq<nat>, hdr: nat): seq<string>
  {
    [Separator(ws)] + Body(rows, ws, hdr) + [Separator(ws)]
  }

  /** Without header rows (or with more than there are rows) no extra
      separator appears. */
  lemma {:induction false} BodyWithoutHeader(rows: seq<seq<string>>, ws: seq<nat>, hdr: nat)
    requires hdr == 0 || hdr > |rows|
    ensures Body(rows, ws, hdr) == Rendered(rows, ws)
  {
    if rows != [] {
      BodyWithoutHeader(rows[..|rows| - 1], ws, hdr);
    }
  }

  /** Exactly one extra separator, right after the header rows. */
  lemma {:induction false} BodyWithHeader(rows: seq<seq<string>>, ws: seq<nat>, hdr: nat)
    requires 1 <= hdr <= |rows|
    ensures Body(rows, ws, hdr) == Rendered(rows[..hdr], ws) + [Separator(ws)] + Rendered(rows[hdr..], ws)
    decreases |rows|
  {
    var init := rows[..|rows| - 1];
    var last := rows[|rows| - 1];
    if hdr == |rows| {
      BodyWithoutHeader(init, ws, hdr);
      assert rows[..hdr] == rows;
      assert rows[hdr..] == [];
    } else {
      BodyWithHeader(init, ws, hdr);
      assert rows[..hdr] == init[..hdr];
      assert rows[hdr..] == init[hdr..] + [last];
      assert rows[hdr..][..|rows[hdr..]| - 1] == init[hdr..];
      AppendAssoc(Rendered(init[..hdr], ws) + [Separator(ws)], Rendered(init[hdr..], ws), [RowLine(last, ws)]);
    }
  }

  /** Every line of a table whose rows have one cell per column, each
      within its width, is as long as the separator. */
  lemma {:induction false} BodyWidth(rows: seq<seq<string>>, ws: seq<nat>, hdr: nat)
    requires forall k :: 0 <= k < |rows| ==> |rows[k]| == |ws|
    requires forall k, i :: 0 <= k < |rows| && 0 <= i < |rows[k]| ==> |rows[k][i]| <= ws[i]
    ensures forall j :: 0 <= j < |Body(rows, ws, hdr)| ==> |Body(rows, ws, hdr)[j]| == |Separator(ws)|
  {
    if rows != [] {
      var init := rows[..|rows| - 1];
      var last := rows[|rows| - 1];
      BodyWidth(init, ws, hdr);
      RowLineLength(last, ws);
      assert ws[..|last|] == ws;
    }
  }

  lemma LayoutWidth(rows: seq<seq<string>>, ws: seq<nat>, hdr: nat)
    requires forall k :: 0 <= k < |rows| ==> |rows[k]| == |ws|
    requires forall k, i :: 0 <= k < |rows| && 0 <= i < |rows[k]| ==> |rows[k][i]| <= ws[i]
    ensures forall j :: 0 <= j < |Layout(rows, ws, hdr)| ==> |Layout(rows, ws, hdr)[j]| == |Separator(ws)|
  {
    BodyWidth(rows, ws, hdr);
  }

  // ---------------------------------------------------------------------
  // Transposing

  /** Whether the transposed table is expected to fit: at most six rows,
      cells of at most 25 characters on average, and the header column
      plus one data column per data row within the line width. */
  function ShouldTranspose(rows: seq<seq<string>>, hdr: nat): (r: bool)
    requires hdr <= |rows|
    ensures r ==> 1 <= |rows| <= 6
    ensures r ==> TotalChars(rows) < 26 * TotalCells(rows) || TotalCells(rows) == 0
    ensures r ==> |rows| + 1 + MaxCellLen(rows[0]) <= FontBWidth
  {
    if |rows| > 6 then false
    else
      var cells := TotalCells(rows);
      var avg := AverageLen(TotalChars(rows), cells);
      if avg > 25 then false
      else if rows == [] then false
      else
        var maxHeader := MaxCellLen(rows[0]);
        var maxData := if |rows| > 1 then MaxCellLenRows(rows[hdr..]) else 0;
        var dataWidth := (|rows| - hdr) * maxData;
        MulMono(0, |rows| - hdr, maxData);
        (|rows| + 1) + (maxHeader + dataWidth) <= FontBWidth
  }

  /** The average cell length, rounded down as `usize` division does; 0
      for a table without cells. At most 25 means fewer than 26 characters
      per cell. */
  function AverageLen(total: nat, cells: nat): (avg: nat)
    ensures avg <= 25 <==> total < 26 * cells || cells == 0
  {
    if cells > 0 then
      AverageBound(total, cells);
      total / cells
    else 0
  }

  lemma AverageBound(total: nat, cells: nat)
    requires cells > 0
    ensures total / cells <= 25 <==> total < 26 * cells
  {
    var q := total / cells;
    assert total == q * cells + total % cells;
    if q <= 25 {
      MulMono(q, 25, cells);
    } else {
      MulMono(26, q, cells);
    }
  }

  lemma MulMono(a: nat, b: nat, c: nat)
    requires a <= b
    ensures a * c <= b * c
  {
    var d := b - a;
    assert b * c == a * c + d * c;
  }

  /** One row per header cell: the label, then that column of each data row. */
  function Transpose(header: seq<string>, data: seq<seq<string>>): (t: seq<seq<string>>)
    ensures |t| == |header|
    ensures forall c :: 0 <= c < |t| ==> |t[c]| == 1 + |data| && t[c][0] == header[c]
    ensures forall c, d :: 0 <= c < |t| && 0 <= d < |data| ==> t[c][d + 1] == Get(data[d], c)
  {
    seq(|header|, c requires 0 <= c < |header| => [header[c]] + seq(|data|, d requires 0 <= d < |data| => Get(data[d], c)))
  }

  /** The transposed layout; nothing without a header row. */
  function TransposedLines(rows: seq<seq<string>>, hdr: nat): seq<string>
    requires hdr <= |rows|
  {
    if rows == [] || hdr == 0 then []
    else
      var t := Transpose(rows[0], rows[hdr..]);
      Layout(t, Fill(ColWidths(t, 1 + (|rows| - hdr))), 0)
  }

  /** A column none of whose cells is longer than `bound` is no wider. */
  lemma {:induction false} ColWidthsUpper(rows: seq<seq<string>>, n: nat, i: nat, bound: nat)
    requires i < n
    requires forall k :: 0 <= k < |rows| && i < |rows[k]| ==> |rows[k][i]| <= bound
    ensures ColWidths(rows, n)[i] <= bound
  {
    if rows != [] {
      var init := rows[..|rows| - 1];
      assert forall k :: 0 <= k < |init| && i < |init[k]| ==> |init[k][i]| <= bound by {
        forall k | 0 <= k < |init| && i < |init[k]| ensures |init[k][i]| <= bound { assert init[k] == rows[k]; }
      }
      ColWidthsUpper(init, n, i, bound);
    }
  }

  /** The budget a transposed table was admitted with. */
  lemma TransposeBudget(rows: seq<seq<string>>, hdr: nat)
    requires 1 <= hdr <= |rows| && ShouldTranspose(rows, hdr)
    ensures var maxData := if |rows| > 1 then MaxCellLenRows(rows[hdr..]) else 0;
      (|rows| + 1) + (MaxCellLen(rows[0]) + (|rows| - hdr) * maxData) <= FontBWidth
  {
  }

  /** The transposed table's column widths leave room for the borders. */
  lemma TransposedWidthsFit(rows: seq<seq<string>>, hdr: nat)
    requires 1 <= hdr <= |rows| && ShouldTranspose(rows, hdr)
    ensures var t := Transpose(rows[0], rows[hdr..]);
      var ws := ColWidths(t, 1 + (|rows| - hdr));
      Sum(ws) + |ws| + 1 <= FontBWidth
  {
    var data := rows[hdr..];
    var t := Transpose(rows[0], data);
    var m := 1 + (|rows| - hdr);
    var ws := ColWidths(t, m);
    var maxHeader := MaxCellLen(rows[0]);
    var maxData := if |rows| > 1 then MaxCellLenRows(data) else 0;
    TransposeBudget(rows, hdr);
    ColWidthsUpper(t, m, 0, maxHeader);
    forall d | 1 <= d < m ensures ws[d] <= maxData {
      TransposedCellBound(rows, hdr, t, d, maxData);
      ColWidthsUpper(t, m, d, maxData);
    }
    SumBound(ws, maxData);
  }

  /** A table chosen for transposition fits: every line of the transposed
      layout is exactly the line width. */
  lemma TransposedFullWidth(rows: seq<seq<string>>, hdr: nat)
    requires 1 <= hdr <= |rows| && ShouldTranspose(rows, hdr)
    ensures forall j :: 0 <= j < |TransposedLines(rows, hdr)| ==> |TransposedLines(rows, hdr)[j]| == FontBWidth
  {
    var t := Transpose(rows[0], rows[hdr..]);
    var ws := ColWidths(t, 1 + (|rows| - hdr));
    TransposedWidthsFit(rows, hdr);
    FillExact(ws);
    ColWidthsBound(t, 1 + (|rows| - hdr));
    LayoutWidth(t, Fill(ws), 0);
    assert TransposedLines(rows, hdr) == Layout(t, Fill(ws), 0);
  }

  lemma TransposedCellBound(rows: seq<seq<string>>, hdr: nat, t: seq<seq<string>>, d: nat, maxData: nat)
    requires 1 <= hdr <= |rows| && t == Transpose(rows[0], rows[hdr..])
    requires 1 <= d < 1 + (|rows| - hdr)
    requires maxData == if |rows| > 1 then MaxCellLenRows(rows[hdr..]) else 0
    ensures forall k :: 0 <= k < |t| && d < |t[k]| ==> |t[k][d]| <= maxData
  {
    var data := rows[hdr..];
    forall k | 0 <= k < |t| && d < |t[k]| ensures |t[k][d]| <= maxData {
      assert t[k][d] == Get(data[d - 1], k);
    }
  }

  // ---------------------------------------------------------------------
  // Chunking

  function Pick(ws: seq<nat>, chunk: seq<nat>): (r: seq<nat>)
    requires forall k :: 0 <= k < |chunk| ==> chunk[k] < |ws|
    ensures |r| == |chunk| && forall k :: 0 <= k < |chunk| ==> r[k] == ws[chunk[k]]
  {
    seq(|chunk|, k requires 0 <= k < |chunk| => ws[chunk[k]])
  }

  /** The line width a chunk of columns takes. */
  function ChunkWidth(ws: seq<nat>, chunk: seq<nat>): nat
    requires forall k :: 0 <= k < |chunk| ==> chunk[k] < |ws|
  {
    Sum(Pick(ws, chunk)) + |chunk| + 1
  }

  /** The column loop: `cur` is the chunk being filled and `curW` its
      width; a column that does not fit closes it and opens `[0, col]`.
      A chunk holding only column 0 is dropped. */
  function ChunkLoop(ws: seq<nat>, col: nat, cur: seq<nat>, curW: nat, acc: seq<seq<nat>>): seq<seq<nat>>
    requires 1 <= col <= |ws|
    decreases |ws| - col
  {
    if col == |ws| then Closed(cur, acc)
    else
      var needed := ws[col] + 1;
      if curW + needed <= FontBWidth then ChunkLoop(ws, col + 1, cur + [col], curW + needed, acc)
      else ChunkLoop(ws, col + 1, [0, col], ws[0] + ws[col] + 3, Closed(cur, acc))
  }

  /** The chunks as the program forms them. */
  function ChunksAsWritten(ws: seq<nat>): seq<seq<nat>>
    requires ws != []
  {
    ChunkLoop(ws, 1, [0], ws[0] + 2, [])
  }

  /** The chunks, with a lone first column kept as a chunk of its own
      when there is no other column. */
  function Chunks(ws: seq<nat>): seq<seq<nat>>
    requires ws != []
  {
    var chunks := ChunksAsWritten(ws);
    if chunks == [] then [[0]] else chunks
  }

  /** The columns after the first of each chunk, in chunk order. */
  function Tails(chunks: seq<seq<nat>>): seq<nat>
  {
    if chunks == [] then [] else Tails(chunks[..|chunks| - 1]) + (var c := chunks[|chunks| - 1]; if c == [] then [] else c[1..])
  }

  function Range(lo: nat, hi: nat): (r: seq<nat>)
    requires lo <= hi
    ensures |r| == hi - lo && forall i :: 0 <= i < |r| ==> r[i] == lo + i
  {
    seq(hi - lo, i requires 0 <= i < hi - lo => lo + i)
  }

  /** A well-formed chunk: column 0 first, at least one more column, and
      within the line width unless it is a single column beside column 0. */
  predicate GoodChunk(ws: seq<nat>, c: seq<nat>)
  {
    && |c| >= 2 && c[0] == 0
    && (forall k :: 0 <= k < |c| ==> c[k] < |ws|)
    && (ChunkWidth(ws, c) <= FontBWidth || |c| == 2)
  }

  predicate AllGood(ws: seq<nat>, chunks: seq<seq<nat>>)
  {
    forall j :: 0 <= j < |chunks| ==> GoodChunk(ws, chunks[j])
  }

  /** The chunks done so far, after closing `cur`. */
  function Closed(cur: seq<nat>, acc: seq<seq<nat>>): seq<seq<nat>>
  {
    if |cur| > 1 then acc + [cur] else acc
  }

  lemma TailsAppend(acc: seq<seq<nat>>, c: seq<nat>)
    requires c != []
    ensures Tails(acc + [c]) == Tails(acc) + c[1..]
  {
    assert (acc + [c])[..|acc|] == acc;
  }

  lemma ClosedTails(cur: seq<nat>, acc: seq<seq<nat>>)
    requires cur != []
    ensures Tails(Closed(cur, acc)) == Tails(acc) + cur[1..]
  {
    if |cur| > 1 {
      TailsAppend(acc, cur);
    } else {
      assert cur[1..] == [];
    }
  }

  lemma RangeCons(lo: nat, hi: nat)
    requires lo < hi
    ensures Range(lo, hi) == [lo] + Range(lo + 1, hi)
  {
  }

  lemma ExtendTails(t: seq<nat>, cur: seq<nat>, col: nat, rest: seq<nat>)
    requires cur != []
    ensures t + (cur + [col])[1..] + rest == t + cur[1..] + ([col] + rest)
  {
    assert (cur + [col])[1..] == cur[1..] + [col];
  }

  lemma RestartTails(t: seq<nat>, col: nat, rest: seq<nat>)
    ensures t + [0, col][1..] + rest == t + ([col] + rest)
  {
    assert [0, col][1..] == [col];
  }

  /** The column loop adds every remaining column, in order, after the
      columns already placed. */
  lemma {:induction false} ChunkLoopTails(ws: seq<nat>, col: nat, cur: seq<nat>, curW: nat, acc: seq<seq<nat>>)
    requires 1 <= col <= |ws| && cur != []
    ensures Tails(ChunkLoop(ws, col, cur, curW, acc)) == Tails(acc) + cur[1..] + Range(col, |ws|)
    decreases |ws| - col
  {
    if col == |ws| {
      ClosedTails(cur, acc);
      assert Range(col, |ws|) == [];
    } else if curW + ws[col] + 1 <= FontBWidth {
      ChunkLoopTails(ws, col + 1, cur + [col], curW + ws[col] + 1, acc);
      TailsExtendStep(ws, col, cur, curW, acc);
    } else {
      ChunkLoopTails(ws, col + 1, [0, col], ws[0] + ws[col] + 3, Closed(cur, acc));
      TailsRestartStep(ws, col, cur, curW, acc);
    }
  }

  /** One step of the loop that extends the open chunk. */
  lemma TailsExtendStep(ws: seq<nat>, col: nat, cur: seq<nat>, curW: nat, acc: seq<seq<nat>>)
    requires 1 <= col < |ws| && cur != [] && curW + ws[col] + 1 <= FontBWidth
    requires Tails(ChunkLoop(ws, col + 1, cur + [col], curW + ws[col] + 1, acc))
      == Tails(acc) + (cur + [col])[1..] + Range(col + 1, |ws|)
    ensures Tails(ChunkLoop(ws, col, cur, curW, acc)) == Tails(acc) + cur[1..] + Range(col, |ws|)
  {
    ExtendStep(ws, col, cur, curW, acc);
    ExtendTails(Tails(acc), cur, col, Range(col + 1, |ws|));
    RangeCons(col, |ws|);
  }

  /** One step of the loop that closes the open chunk and starts `[0, col]`. */
  lemma TailsRestartStep(ws: seq<nat>, col: nat, cur: seq<nat>, curW: nat, acc: seq<seq<nat>>)
    requires 1 <= col < |ws| && cur != [] && curW + ws[col] + 1 > FontBWidth
    requires Tails(ChunkLoop(ws, col + 1, [0, col], ws[0] + ws[col] + 3, Closed(cur, acc)))
      == Tails(Closed(cur, acc)) + [0, col][1..] + Range(col + 1, |ws|)
    ensures Tails(ChunkLoop(ws, col, cur, curW, acc)) == Tails(acc) + cur[1..] + Range(col, |ws|)
  {
    RestartStep(ws, col, cur, curW, acc);
    ClosedTails(cur, acc);
    RestartTails(Tails(acc) + cur[1..], col, Range(col + 1, |ws|));
    RangeCons(col, |ws|);
  }

  /** The chunk being filled: column 0 first, its width tracked, and
      within the line width unless it holds at most one more column. */
  predicate OpenChunk(ws: seq<nat>, cur: seq<nat>, curW: nat)
  {
    && cur != [] && cur[0] == 0
    && (forall k :: 0 <= k < |cur| ==> cur[k] < |ws|)
    && curW == ChunkWidth(ws, cur)
    && (curW <= FontBWidth || |cur| <= 2)
  }

  lemma ChunkWidthAppend(ws: seq<nat>, c: seq<nat>, col: nat)
    requires col < |ws| && forall k :: 0 <= k < |c| ==> c[k] < |ws|
    ensures ChunkWidth(ws, c + [col]) == ChunkWidth(ws, c) + ws[col] + 1
  {
    assert Pick(ws, c + [col])[..|c|] == Pick(ws, c);
  }

  lemma ChunkWidthPair(ws: seq<nat>, col: nat)
    requires 0 < col < |ws|
    ensures ChunkWidth(ws, [0, col]) == ws[0] + ws[col] + 3
  {
    assert Pick(ws, [0, col]) == [ws[0], ws[col]];
    assert [ws[0], ws[col]][..1] == [ws[0]];
    assert [ws[0]][..0] == [];
    assert Sum([ws[0]]) == ws[0];
    assert Sum([ws[0], ws[col]]) == ws[0] + ws[col];
  }

  lemma ExtendOpen(ws: seq<nat>, col: nat, cur: seq<nat>, curW: nat)
    requires OpenChunk(ws, cur, curW) && col < |ws| && curW + ws[col] + 1 <= FontBWidth
    ensures OpenChunk(ws, cur + [col], curW + ws[col] + 1)
  {
    ChunkWidthAppend(ws, cur, col);
  }

  lemma RestartOpen(ws: seq<nat>, col: nat, cur: seq<nat>, curW: nat, acc: seq<seq<nat>>)
    requires OpenChunk(ws, cur, curW) && AllGood(ws, acc) && 0 < col < |ws|
    ensures OpenChunk(ws, [0, col], ws[0] + ws[col] + 3)
    ensures AllGood(ws, Closed(cur, acc))
  {
    ChunkWidthPair(ws, col);
  }

  lemma ClosedGood(ws: seq<nat>, cur: seq<nat>, curW: nat, acc: seq<seq<nat>>)
    requires OpenChunk(ws, cur, curW) && AllGood(ws, acc)
    ensures AllGood(ws, Closed(cur, acc))
  {
  }

  /** Every chunk the loop closes is well formed. */
  lemma {:induction false} ChunkLoopGood(ws: seq<nat>, col: nat, cur: seq<nat>, curW: nat, acc: seq<seq<nat>>)
    requires 1 <= col <= |ws| && OpenChunk(ws, cur, curW) && AllGood(ws, acc)
    ensures AllGood(ws, ChunkLoop(ws, col, cur, curW, acc))
    decreases |ws| - col
  {
    if col == |ws| {
      ClosedGood(ws, cur, curW, acc);
    } else if curW + ws[col] + 1 <= FontBWidth {
      ExtendOpen(ws, col, cur, curW);
      ChunkLoopGood(ws, col + 1, cur + [col], curW + ws[col] + 1, acc);
      GoodExtendStep(ws, col, cur, curW, acc);
    } else {
      RestartOpen(ws, col, cur, curW, acc);
      ChunkLoopGood(ws, col + 1, [0, col], ws[0] + ws[col] + 3, Closed(cur, acc));
      GoodRestartStep(ws, col, cur, curW, acc);
    }
  }

  lemma GoodExtendStep(ws: seq<nat>, col: nat, cur: seq<nat>, curW: nat, acc: seq<seq<nat>>)
    requires 1 <= col < |ws| && curW + ws[col] + 1 <= FontBWidth
    requires AllGood(ws, ChunkLoop(ws, col + 1, cur + [col], curW + ws[col] + 1, acc))
    ensures AllGood(ws, ChunkLoop(ws, col, cur, curW, acc))
  {
    ExtendStep(ws, col, cur, curW, acc);
  }

  lemma GoodRestartStep(ws: seq<nat>, col: nat, cur: seq<nat>, curW: nat, acc: seq<seq<nat>>)
    requires 1 <= col < |ws| && curW + ws[col] + 1 > FontBWidth
    requires AllGood(ws, ChunkLoop(ws, col + 1, [0, col], ws[0] + ws[col] + 3, Closed(cur, acc)))
    ensures AllGood(ws, ChunkLoop(ws, col, cur, curW, acc))
  {
    RestartStep(ws, col, cur, curW, acc);
  }

  lemma ChunkInit(ws: seq<nat>)
    requires ws != []
    ensures OpenChunk(ws, [0], ws[0] + 2)
  {
    assert Pick(ws, [0]) == [ws[0]];
    assert [ws[0]][..0] == [];
    assert Sum([ws[0]]) == ws[0];
  }

  /** Every chunk starts with column 0 and has another column; every
      other column is in exactly one chunk, in increasing order; and a
      chunk is within the line width unless it is one wide column beside
      column 0. */
  lemma ChunksAsWrittenSound(ws: seq<nat>)
    requires ws != []
    ensures AllGood(ws, ChunksAsWritten(ws))
    ensures Tails(ChunksAsWritten(ws)) == Range(1, |ws|)
  {
    ChunkInit(ws);
    ChunkLoopGood(ws, 1, [0], ws[0] + 2, []);
    ChunkLoopTails(ws, 1, [0], ws[0] + 2, []);
    assert [0][1..] == [];
  }

  /** The program forms no chunk exactly when there is a single column. */
  lemma ChunksAsWrittenEmpty(ws: seq<nat>)
    requires ws != []
    ensures ChunksAsWritten(ws) == [] <==> |ws| == 1
  {
    ChunksAsWrittenSound(ws);
    if |ws| > 1 {
      assert Range(1, |ws|)[0] == 1;
    } else {
      assert ChunksAsWritten(ws) == Closed([0], []);
    }
  }

  /** With the lone column kept, every column is in some chunk and every
      chunk starts with column 0. */
  lemma ChunksCover(ws: seq<nat>)
    requires ws != []
    ensures Chunks(ws) != []
    ensures forall j :: 0 <= j < |Chunks(ws)| ==> Chunks(ws)[j] != [] && Chunks(ws)[j][0] == 0
    ensures forall col :: 0 <= col < |ws| ==> Covered(Chunks(ws), col)
  {
    ChunksAsWrittenSound(ws);
    ChunksAsWrittenEmpty(ws);
    var chunks := Chunks(ws);
    forall col | 0 <= col < |ws| ensures Covered(chunks, col) {
      if col == 0 {
        assert chunks[0][0] == 0;
      } else {
        assert chunks == ChunksAsWritten(ws);
        assert Tails(chunks)[col - 1] == col;
        TailsMember(chunks, col - 1);
      }
    }
  }

  /** Whether some chunk holds column `col`. */
  predicate Covered(chunks: seq<seq<nat>>, col: nat)
  {
    exists j, k :: 0 <= j < |chunks| && 0 <= k < |chunks[j]| && chunks[j][k] == col
  }

  /** An entry of the tails comes from the tail of some chunk. */
  lemma {:induction false} TailsMember(chunks: seq<seq<nat>>, p: nat)
    requires p < |Tails(chunks)|
    ensures Covered(chunks, Tails(chunks)[p])
  {
    var init := chunks[..|chunks| - 1];
    var c := chunks[|chunks| - 1];
    if p < |Tails(init)| {
      TailsMember(init, p);
      var j, k :| 0 <= j < |init| && 0 <= k < |init[j]| && init[j][k] == Tails(init)[p];
      assert chunks[j] == init[j];
    } else {
      var k := p - |Tails(init)| + 1;
      assert Tails(chunks)[p] == c[1..][k - 1] == c[k];
    }
  }

  /** The rows cut down to the columns of one chunk; a missing cell is empty. */
  function ChunkRows(rows: seq<seq<string>>, chunk: seq<nat>): (r: seq<seq<string>>)
    ensures |r| == |rows|
    ensures forall k :: 0 <= k < |rows| ==>
      (|r[k]| == |chunk| && forall i :: 0 <= i < |chunk| ==> r[k][i] == Get(rows[k], chunk[i]))
  {
    seq(|rows|, k requires 0 <= k < |rows| => seq(|chunk|, i requires 0 <= i < |chunk| => Get(rows[k], chunk[i])))
  }

  predicate InRange(ws: seq<nat>, chunks: seq<seq<nat>>)
  {
    forall j, k :: 0 <= j < |chunks| && 0 <= k < |chunks[j]| ==> chunks[j][k] < |ws|
  }

  /** One bordered table per chunk, blank lines between them. */
  function ChunkOutput(rows: seq<seq<string>>, ws: seq<nat>, hdr: nat, chunks: seq<seq<nat>>): seq<string>
    requires InRange(ws, chunks)
  {
    if chunks == [] then []
    else
      var init := chunks[..|chunks| - 1];
      var c := chunks[|chunks| - 1];
      ChunkOutput(rows, ws, hdr, init) + (if init != [] then [""] else [])
        + Layout(ChunkRows(rows, c), Pick(ws, c), hdr)
  }

  lemma ChunksInRange(ws: seq<nat>)
    requires ws != []
    ensures InRange(ws, ChunksAsWritten(ws)) && InRange(ws, Chunks(ws))
  {
    ChunksAsWrittenSound(ws);
  }

  /** The chunked layout as the program prints it. */
  function ChunkedLinesAsWritten(rows: seq<seq<string>>, hdr: nat): seq<string>
  {
    if rows == [] || MaxLen(rows) == 0 then []
    else
      var ws := ColWidths(rows, MaxLen(rows));
      ChunksInRange(ws);
      ChunkOutput(rows, ws, hdr, ChunksAsWritten(ws))
  }

  /** The chunked layout with a lone column kept. */
  function ChunkedLines(rows: seq<seq<string>>, hdr: nat): seq<string>
  {
    if rows == [] || MaxLen(rows) == 0 then []
    else
      var ws := ColWidths(rows, MaxLen(rows));
      ChunksInRange(ws);
      ChunkOutput(rows, ws, hdr, Chunks(ws))
  }

  /** What the builder holds: every row has a cell, and there are no more
      header rows than rows. */
  predicate WellFormed(rows: seq<seq<string>>, hdr: nat)
  {
    hdr <= |rows| && forall k :: 0 <= k < |rows| ==> rows[k] != []
  }

  /** Whether the natural widths exceed the line width. */
  predicate TooWide(rows: seq<seq<string>>)
  {
    var n := MaxLen(rows);
    Sum(ColWidths(rows, n)) + n + 1 > FontBWidth
  }

  lemma MaxLenPositive(rows: seq<seq<string>>, hdr: nat)
    requires WellFormed(rows, hdr) && rows != []
    ensures MaxLen(rows) >= 1
  {
    assert |rows[0]| <= MaxLen(rows);
  }

  /** The lines printed for a table. */
  function TableLines(rows: seq<seq<string>>, hdr: nat): seq<string>
    requires WellFormed(rows, hdr)
  {
    if rows == [] then []
    else if TooWide(rows) then
      if ShouldTranspose(rows, hdr) then TransposedLines(rows, hdr) else ChunkedLines(rows, hdr)
    else
      MaxLenPositive(rows, hdr);
      Layout(rows, Fill(ColWidths(rows, MaxLen(rows))), hdr)
  }

  /** The lines the program prints, which differ only for chunked tables. */
  function TableLinesAsWritten(rows: seq<seq<string>>, hdr: nat): seq<string>
    requires WellFormed(rows, hdr)
  {
    if rows != [] && TooWide(rows) && !ShouldTranspose(rows, hdr) then ChunkedLinesAsWritten(rows, hdr)
    else TableLines(rows, hdr)
  }

  // ---------------------------------------------------------------------
  // Properties of the layout

  /** A table with the same number of cells in every row that fits is
      printed exactly the line width, with one line per row, the two
      borders and the separator after the header rows. */
  lemma FittingTableFullWidth(rows: seq<seq<string>>, hdr: nat)
    requires WellFormed(rows, hdr) && rows != [] && !TooWide(rows)
    requires forall k :: 0 <= k < |rows| ==> |rows[k]| == MaxLen(rows)
    ensures |TableLines(rows, hdr)| == |rows| + 2 + (if hdr >= 1 then 1 else 0)
    ensures forall j :: 0 <= j < |TableLines(rows, hdr)| ==> |TableLines(rows, hdr)[j]| == FontBWidth
  {
    var n := MaxLen(rows);
    MaxLenPositive(rows, hdr);
    var ws := ColWidths(rows, n);
    FillExact(ws);
    ColWidthsBound(rows, n);
    LayoutWidth(rows, Fill(ws), hdr);
    if hdr >= 1 {
      BodyWithHeader(rows, Fill(ws), hdr);
      assert |rows[..hdr]| + |rows[hdr..]| == |rows|;
    } else {
      BodyWithoutHeader(rows, Fill(ws), hdr);
    }
  }

  /** A too-wide table with a header row that qualifies for transposition
      is printed transposed, exactly the line width, one line per header
      cell plus the two borders. */
  lemma TransposedTable(rows: seq<seq<string>>, hdr: nat)
    requires WellFormed(rows, hdr) && 1 <= hdr && TooWide(rows) && ShouldTranspose(rows, hdr)
    ensures TableLines(rows, hdr) == TransposedLines(rows, hdr)
    ensures |TableLines(rows, hdr)| == |rows[0]| + 2
    ensures forall j :: 0 <= j < |TableLines(rows, hdr)| ==> |TableLines(rows, hdr)[j]| == FontBWidth
  {
    TransposedFullWidth(rows, hdr);
    var t := Transpose(rows[0], rows[hdr..]);
    BodyWithoutHeader(t, Fill(ColWidths(t, 1 + (|rows| - hdr))), 0);
  }

  /** Each chunk of a chunked table is printed with lines as wide as the
      chunk: within the line width unless the chunk is one column too
      wide to share a line with the first. */
  lemma ChunkLayoutWidth(rows: seq<seq<string>>, ws: seq<nat>, hdr: nat, c: seq<nat>)
    requires ws == ColWidths(rows, |ws|) && forall k :: 0 <= k < |c| ==> c[k] < |ws|
    ensures forall j :: 0 <= j < |Layout(ChunkRows(rows, c), Pick(ws, c), hdr)| ==>
      |Layout(ChunkRows(rows, c), Pick(ws, c), hdr)[j]| == ChunkWidth(ws, c)
  {
    var cr := ChunkRows(rows, c);
    ColWidthsBound(rows, |ws|);
    forall k, i | 0 <= k < |cr| && 0 <= i < |cr[k]| ensures |cr[k][i]| <= Pick(ws, c)[i] {
      assert cr[k][i] == Get(rows[k], c[i]);
    }
    LayoutWidth(cr, Pick(ws, c), hdr);
  }

  /** No table with a header row disappears: something is printed. */
  lemma NoTableVanishes(rows: seq<seq<string>>, hdr: nat)
    requires WellFormed(rows, hdr) && rows != [] && 1 <= hdr
    ensures TableLines(rows, hdr) != []
  {
    if TooWide(rows) && !ShouldTranspose(rows, hdr) {
      MaxLenPositive(rows, hdr);
      var ws := ColWidths(rows, MaxLen(rows));
      ChunksCover(ws);
      ChunksInRange(ws);
      assert ChunkedLines(rows, hdr) == ChunkOutput(rows, ws, hdr, Chunks(ws));
    }
  }

  /** As written, a single-column table too wide for the line and not
      transposed prints nothing: its only chunk holds just column 0 and
      is dropped. */
  lemma SingleColumnVanishes(rows: seq<seq<string>>, hdr: nat)
    requires WellFormed(rows, hdr) && rows != [] && MaxLen(rows) == 1
    requires ColWidths(rows, 1)[0] + 2 > FontBWidth && !ShouldTranspose(rows, hdr)
    ensures TableLinesAsWritten(rows, hdr) == []
    ensures |TableLines(rows, hdr)| >= |rows| + 2
  {
    var ws := ColWidths(rows, 1);
    assert Sum(ws) == ws[0] by { assert ws[..0] == []; }
    ChunksAsWrittenEmpty(ws);
    ChunksInRange(ws);
    assert Chunks(ws) == [[0]];
    ChunkOutputOne(rows, ws, hdr, [0]);
    BodyLength(ChunkRows(rows, [0]), Pick(ws, [0]), hdr);
  }

  lemma ChunkOutputOne(rows: seq<seq<string>>, ws: seq<nat>, hdr: nat, c: seq<nat>)
    requires forall k :: 0 <= k < |c| ==> c[k] < |ws|
    ensures ChunkOutput(rows, ws, hdr, [c]) == Layout(ChunkRows(rows, c), Pick(ws, c), hdr)
  {
    assert [c][..0] == [];
  }

  lemma {:induction false} BodyLength(rows: seq<seq<string>>, ws: seq<nat>, hdr: nat)
    ensures |Body(rows, ws, hdr)| >= |rows|
  {
    if rows != [] {
      BodyLength(rows[..|rows| - 1], ws, hdr);
    }
  }

  /** A table that shows it: seven rows of one 55-character cell. */
  lemma SingleColumnExample()
    ensures var rows := seq(7, _ => [Repeat('x', 55)]);
      WellFormed(rows, 1) && MaxLen(rows) == 1 && ColWidths(rows, 1)[0] + 2 > FontBWidth
      && !ShouldTranspose(rows, 1)
  {
    var rows := seq(7, _ => [Repeat('x', 55)]);
    assert |rows[0]| == 1 && |rows[0][0]| == 55;
    ColWidthsBound(rows, 1);
  }

  // ---------------------------------------------------------------------
  // The builder and its formatting loops

  /** One row taken into the widths, cell by cell. */
  method WidenRow(ws: seq<nat>, row: seq<string>) returns (r: seq<nat>)
    requires |row| <= |ws|
    ensures r == Widen(ws, row)
  {
    r := ws;
    for i := 0 to |row|
      invariant |r| == |ws|
      invariant forall j :: 0 <= j < |ws| ==> r[j] == if j < i then Max(ws[j], |row[j]|) else ws[j]
    {
      r := r[i := Max(r[i], |row[i]|)];
    }
  }

  lemma ColWidthsStep(rows: seq<seq<string>>, n: nat, k: nat)
    requires k < |rows|
    ensures ColWidths(rows[..k + 1], n) == Widen(ColWidths(rows[..k], n), rows[k])
  {
    assert rows[..k + 1][..k] == rows[..k];
  }

  /** The natural column widths, row by row. */
  method ColumnWidths(rows: seq<seq<string>>, n: nat) returns (ws: seq<nat>)
    requires forall k :: 0 <= k < |rows| ==> |rows[k]| <= n
    ensures ws == ColWidths(rows, n)
  {
    ws := seq(n, _ => 0);
    assert rows[..0] == [];
    for k := 0 to |rows|
      invariant ws == ColWidths(rows[..k], n)
    {
      ColWidthsStep(rows, n, k);
      ws := WidenRow(ws, rows[k]);
    }
    assert rows[..|rows|] == rows;
  }

  /** Grow every width by `per` and the first `rem` by one more, in place. */
  method SpreadWidths(ws: seq<nat>, per: nat, rem: nat) returns (r: seq<nat>)
    ensures r == Spread(ws, per, rem)
  {
    r := ws;
    for i := 0 to |ws|
      invariant |r| == |ws|
      invariant forall j :: 0 <= j < |ws| ==> r[j] == if j < i then ws[j] + per + (if j < rem then 1 else 0) else ws[j]
    {
      r := r[i := r[i] + per];
      if i < rem {
        r := r[i := r[i] + 1];
      }
    }
  }

  /** Share out the spare line width, when there is any. */
  method Distribute(ws: seq<nat>) returns (r: seq<nat>)
    requires ws != []
    ensures r == Fill(ws)
  {
    var total := Sum(ws) + |ws| + 1;
    r := ws;
    if total < FontBWidth {
      var extra := FontBWidth - total;
      r := SpreadWidths(ws, extra / |ws|, extra % |ws|);
    }
  }

  /** The border line, column by column. */
  method CreateSeparator(ws: seq<nat>) returns (sep: string)
    ensures sep == Separator(ws)
  {
    sep := "+";
    assert ws[..0] == [];
    for i := 0 to |ws|
      invariant sep == Separator(ws[..i])
    {
      assert ws[..i + 1][..i] == ws[..i];
      sep := sep + Repeat('-', ws[i]) + "+";
    }
    assert ws[..|ws|] == ws;
  }

  /** A row line, cell by cell. */
  method FormatRow(row: seq<string>, ws: seq<nat>) returns (line: string)
    ensures line == RowLine(row, ws)
  {
    line := "|";
    assert row[..0] == [];
    for i := 0 to |row|
      invariant line == RowLine(row[..i], ws)
    {
      assert row[..i + 1][..i] == row[..i];
      var width := WidthAt(ws, i);
      var padding := Pad(width, |row[i]|);
      line := line + row[i] + Repeat(' ', padding) + "|";
    }
    assert row[..|row|] == row;
  }

  lemma BodyStep(rows: seq<seq<string>>, ws: seq<nat>, hdr: nat, i: nat)
    requires i < |rows|
    ensures Body(rows[..i + 1], ws, hdr)
      == Body(rows[..i], ws, hdr) + [RowLine(rows[i], ws)] + (if i + 1 == hdr then [Separator(ws)] else [])
  {
    assert rows[..i + 1][..i] == rows[..i];
  }

  /** The bordered rows with the separator after the header rows. */
  method RenderTable(rows: seq<seq<string>>, ws: seq<nat>, hdr: nat) returns (out: seq<string>)
    ensures out == Layout(rows, ws, hdr)
  {
    var sep := CreateSeparator(ws);
    out := [sep];
    assert rows[..0] == [];
    for idx := 0 to |rows|
      invariant out == [sep] + Body(rows[..idx], ws, hdr)
    {
      BodyStep(rows, ws, hdr, idx);
      var line := FormatRow(rows[idx], ws);
      var after := if idx + 1 == hdr then [sep] else [];
      AppendAssoc([sep] + Body(rows[..idx], ws, hdr), [line], after);
      AppendAssoc([sep], Body(rows[..idx], ws, hdr), [line]);
      AppendAssoc([sep], Body(rows[..idx], ws, hdr) + [line], after);
      out := out + [line] + after;
    }
    assert rows[..|rows|] == rows;
    out := out + [sep];
  }

  /** One row of the transposed table: a header label and that column of
      every data row. */
  method TransposedRow(header: seq<string>, data: seq<seq<string>>, c: nat) returns (row: seq<string>)
    requires c < |header|
    ensures row == Transpose(header, data)[c]
  {
    row := [header[c]];
    for d := 0 to |data|
      invariant |row| == d + 1 && row[0] == header[c]
      invariant forall e :: 0 <= e < d ==> row[e + 1] == Get(data[e], c)
    {
      var cell := if c < |data[d]| then data[d][c] else "";
      row := row + [cell];
    }
  }

  /** The transposed layout. */
  method FormatTransposed(rows: seq<seq<string>>, hdr: nat) returns (out: seq<string>)
    requires hdr <= |rows|
    ensures out == TransposedLines(rows, hdr)
  {
    if rows == [] || hdr == 0 {
      return [];
    }
    var header := rows[0];
    var data := rows[hdr..];
    var transposed: seq<seq<string>> := [];
    for c := 0 to |header|
      invariant transposed == Transpose(header, data)[..c]
    {
      var row := TransposedRow(header, data, c);
      transposed := transposed + [row];
    }
    assert transposed == Transpose(header, data);
    var numCols := 1 + |data|;
    var ws := ColumnWidths(transposed, numCols);
    ws := Distribute(ws);
    out := RenderTable(transposed, ws, 0);
  }

  /** The column loop that groups columns into chunks, with a lone first
      column kept as its own chunk. */
  method PlanChunks(ws: seq<nat>) returns (chunks: seq<seq<nat>>)
    requires ws != []
    ensures chunks == Chunks(ws)
  {
    var first := ws[0];
    chunks := [];
    var cur: seq<nat> := [0];
    var curW: nat := first + 2;
    var col: nat := 1;
    while col < |ws|
      invariant 1 <= col <= |ws|
      invariant ChunkLoop(ws, col, cur, curW, chunks) == ChunksAsWritten(ws)
      decreases |ws| - col
    {
      var needed := ws[col] + 1;
      if curW + needed <= FontBWidth {
        ExtendStep(ws, col, cur, curW, chunks);
        cur := cur + [col];
        curW := curW + needed;
      } else {
        RestartStep(ws, col, cur, curW, chunks);
        if |cur| > 1 {
          chunks := chunks + [cur];
        }
        cur := [0, col];
        curW := first + ws[col] + 3;
      }
      col := col + 1;
    }
    if |cur| > 1 {
      chunks := chunks + [cur];
    }
    if chunks == [] {
      chunks := [[0]];
    }
  }

  lemma ExtendStep(ws: seq<nat>, col: nat, cur: seq<nat>, curW: nat, acc: seq<seq<nat>>)
    requires 1 <= col < |ws| && curW + ws[col] + 1 <= FontBWidth
    ensures ChunkLoop(ws, col, cur, curW, acc) == ChunkLoop(ws, col + 1, cur + [col], curW + ws[col] + 1, acc)
  {
  }

  lemma RestartStep(ws: seq<nat>, col: nat, cur: seq<nat>, curW: nat, acc: seq<seq<nat>>)
    requires 1 <= col < |ws| && curW + ws[col] + 1 > FontBWidth
    ensures ChunkLoop(ws, col, cur, curW, acc) == ChunkLoop(ws, col + 1, [0, col], ws[0] + ws[col] + 3, Closed(cur, acc))
  {
  }

  lemma ChunkOutputStep(rows: seq<seq<string>>, ws: seq<nat>, hdr: nat, chunks: seq<seq<nat>>, i: nat)
    requires InRange(ws, chunks) && i < |chunks|
    ensures InRange(ws, chunks[..i]) && InRange(ws, chunks[..i + 1])
    ensures ChunkOutput(rows, ws, hdr, chunks[..i + 1])
      == ChunkOutput(rows, ws, hdr, chunks[..i]) + (if i > 0 then [""] else [])
        + Layout(ChunkRows(rows, chunks[i]), Pick(ws, chunks[i]), hdr)
  {
    assert chunks[..i + 1][..i] == chunks[..i];
  }

  /** The bordered table of one chunk of columns. */
  method FormatChunk(rows: seq<seq<string>>, ws: seq<nat>, hdr: nat, c: seq<nat>) returns (lines: seq<string>)
    requires forall k :: 0 <= k < |c| ==> c[k] < |ws|
    ensures lines == Layout(ChunkRows(rows, c), Pick(ws, c), hdr)
  {
    var chunkWidths := seq(|c|, k requires 0 <= k < |c| => ws[c[k]]);
    var chunkRows := seq(|rows|, r requires 0 <= r < |rows| =>
      seq(|c|, k requires 0 <= k < |c| => Get(rows[r], c[k])));
    assert chunkWidths == Pick(ws, c);
    assert chunkRows == ChunkRows(rows, c);
    lines := RenderTable(chunkRows, chunkWidths, hdr);
  }

  /** The chunked layout: one bordered table per chunk. */
  method FormatChunked(rows: seq<seq<string>>, hdr: nat) returns (out: seq<string>)
    ensures out == ChunkedLines(rows, hdr)
  {
    if rows == [] {
      return [];
    }
    var numCols := MaxLen(rows);
    if numCols == 0 {
      return [];
    }
    var ws := ColumnWidths(rows, numCols);
    var chunks := PlanChunks(ws);
    ChunksInRange(ws);
    out := [];
    assert chunks[..0] == [];
    for i := 0 to |chunks|
      invariant out == ChunkOutput(rows, ws, hdr, chunks[..i])
    {
      ChunkOutputStep(rows, ws, hdr, chunks, i);
      if i > 0 {
        out := out + [""];
      }
      var lines := FormatChunk(rows, ws, hdr, chunks[i]);
      out := out + lines;
    }
    assert chunks[..|chunks|] == chunks;
  }

  /** The table being built: finished rows, the row and cell being filled,
      whether rows now end up in the header, and how many header rows
      there are. */
  class TableBuilder {
    var rows: seq<seq<string>>
    var currentRow: seq<string>
    var currentCell: string
    var inHeader: bool
    var headerRowCount: nat

    predicate Valid()
      reads this
    {
      WellFormed(rows, headerRowCount)
    }

    constructor ()
      ensures Valid()
      ensures rows == [] && currentRow == [] && currentCell == "" && !inHeader && headerRowCount == 0
    {
      rows := [];
      currentRow := [];
      currentCell := "";
      inHeader := false;
      headerRowCount := 0;
    }

    /** Text goes into the current cell. */
    method AddText(text: string)
      requires Valid()
      modifies this
      ensures Valid()
      ensures currentCell == old(currentCell) + text
      ensures rows == old(rows) && currentRow == old(currentRow)
      ensures inHeader == old(inHeader) && headerRowCount == old(headerRowCount)
    {
      currentCell := currentCell + text;
    }

    /** The current cell joins the current row, and a new cell starts. */
    method EndCell()
      requires Valid()
      modifies this
      ensures Valid()
      ensures currentRow == old(currentRow) + [old(currentCell)] && currentCell == ""
      ensures rows == old(rows) && inHeader == old(inHeader) && headerRowCount == old(headerRowCount)
    {
      currentRow := currentRow + [currentCell];
      currentCell := "";
    }

    /** A row with cells becomes a finished row, counted as a header row
      while in the header; a row without cells is not kept. */
    method EndRow()
      requires Valid()
      modifies this
      ensures Valid()
      ensures old(currentRow) == [] ==> rows == old(rows) && headerRowCount == old(headerRowCount)
      ensures old(currentRow) != [] ==>
        (rows == old(rows) + [old(currentRow)] && headerRowCount == old(headerRowCount) + (if inHeader then 1 else 0))
      ensures currentRow == [] && currentCell == old(currentCell) && inHeader == old(inHeader)
    {
      if currentRow != [] {
        rows := rows + [currentRow];
        currentRow := [];
        if inHeader {
          headerRowCount := headerRowCount + 1;
        }
      }
    }

    /** The printed lines of the finished rows. */
    method FormatTable() returns (out: seq<string>)
      requires Valid()
      ensures out == TableLines(rows, headerRowCount)
    {
      if rows == [] {
        return [];
      }
      var numCols := MaxLen(rows);
      var ws := ColumnWidths(rows, numCols);
      var total := Sum(ws) + numCols + 1;
      if total > FontBWidth {
        if ShouldTranspose(rows, headerRowCount) {
          out := FormatTransposed(rows, headerRowCount);
        } else {
          out := FormatChunked(rows, headerRowCount);
        }
        return;
      }
      MaxLenPositive(rows, headerRowCount);
      ws := Distribute(ws);
      out := RenderTable(rows, ws, headerRowCount);
    }
  }
}
