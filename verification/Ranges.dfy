/** Byte ranges of a text run: merging them, and cutting a run at the ranges whose
    glyphs its font lacks. */
module Ranges {
  import opened Core

  datatype Range = Range(start: nat, end: nat)

  ghost predicate Holds(r: Range, b: nat) { r.start <= b < r.end }

  ghost predicate Covers(rs: seq<Range>, b: nat) {
    exists i :: 0 <= i < |rs| && Holds(rs[i], b)
  }

  /** Not empty, in order, and with at least one byte between any two. */
  ghost predicate Canonical(rs: seq<Range>) {
    && (forall i :: 0 <= i < |rs| ==> rs[i].start < rs[i].end)
    && (forall i, j :: 0 <= i < j < |rs| ==> rs[i].end < rs[j].start)
  }

  // --------------------------------------------------------------------- merging

  ghost predicate SortedByStart(rs: seq<Range>) {
    forall i, j :: 0 <= i < j < |rs| ==> rs[i].start <= rs[j].start
  }

  function Insert(rs: seq<Range>, r: Range): seq<Range> {
    if rs == [] || rs[0].start > r.start then [r] + rs else [rs[0]] + Insert(rs[1..], r)
  }

  /** The library's stable sort by start. */
  function SortByStart(ranges: seq<Range>): seq<Range> {
    if ranges == [] then []
    else Insert(SortByStart(ranges[..|ranges| - 1]), ranges[|ranges| - 1])
  }

  lemma {:induction false} InsertKeeps(rs: seq<Range>, r: Range)
    ensures multiset(Insert(rs, r)) == multiset(rs) + multiset{r}
  {
    if rs != [] && rs[0].start <= r.start {
      InsertKeeps(rs[1..], r);
      assert rs == [rs[0]] + rs[1..];
    }
  }

  lemma SortedCons(r: Range, rs: seq<Range>)
    requires SortedByStart(rs) && (rs != [] ==> r.start <= rs[0].start)
    ensures SortedByStart([r] + rs)
  {
    forall i | 0 <= i < |rs| ensures r.start <= rs[i].start {
      assert rs[0].start <= rs[i].start;
    }
  }

  lemma {:induction false} InsertSorts(rs: seq<Range>, r: Range)
    requires SortedByStart(rs)
    ensures SortedByStart(Insert(rs, r))
    ensures Insert(rs, r) != []
    ensures Insert(rs, r)[0].start == if rs == [] then r.start else Min(rs[0].start, r.start)
  {
    if rs != [] && rs[0].start <= r.start {
      InsertSorts(rs[1..], r);
      SortedCons(rs[0], Insert(rs[1..], r));
    } else {
      SortedCons(r, rs);
    }
  }

  lemma {:induction false} SortSorts(ranges: seq<Range>)
    ensures SortedByStart(SortByStart(ranges))
    ensures multiset(SortByStart(ranges)) == multiset(ranges)
  {
    if ranges != [] {
      var n := |ranges| - 1;
      SortSorts(ranges[..n]);
      InsertSorts(SortByStart(ranges[..n]), ranges[n]);
      InsertKeeps(SortByStart(ranges[..n]), ranges[n]);
      assert ranges == ranges[..n] + [ranges[n]];
    }
  }

  lemma CoversPermuted(a: seq<Range>, b: seq<Range>)
    requires multiset(a) == multiset(b)
    ensures forall x: nat :: Covers(a, x) <==> Covers(b, x)
  {
    forall x: nat ensures Covers(a, x) <==> Covers(b, x) {
      if i :| 0 <= i < |a| && Holds(a[i], x) {
        assert a[i] in multiset(b);
        var j :| 0 <= j < |b| && b[j] == a[i];
      }
      if j :| 0 <= j < |b| && Holds(b[j], x) {
        assert b[j] in multiset(a);
        var i :| 0 <= i < |a| && a[i] == b[j];
      }
    }
  }

  lemma CoversSnoc(rs: seq<Range>, r: Range)
    ensures forall b: nat :: Covers(rs + [r], b) <==> Covers(rs, b) || Holds(r, b)
  {
    forall b: nat ensures Covers(rs + [r], b) <==> Covers(rs, b) || Holds(r, b) {
      if i :| 0 <= i < |rs| && Holds(rs[i], b) { assert Holds((rs + [r])[i], b); }
      if Holds(r, b) { assert Holds((rs + [r])[|rs|], b); }
    }
  }

  lemma CoversGrown(rs: seq<Range>, r: Range)
    requires rs != [] && rs[|rs| - 1].start <= r.start <= rs[|rs| - 1].end
    requires rs[|rs| - 1].start < rs[|rs| - 1].end
    ensures var last := rs[|rs| - 1];
            forall b: nat :: Covers(rs[|rs| - 1 := Range(last.start, Max(last.end, r.end))], b) <==>
              Covers(rs, b) || Holds(r, b)
  {
    var n := |rs| - 1;
    var init, last := rs[..n], rs[n];
    var grown := Range(last.start, Max(last.end, r.end));
    assert rs == init + [last] && rs[n := grown] == init + [grown];
    CoversSnoc(init, last);
    CoversSnoc(init, grown);
    assert forall b: nat :: Holds(grown, b) <==> Holds(last, b) || Holds(r, b);
  }

  ghost predicate SameCover(a: seq<Range>, b: seq<Range>) {
    forall x: nat :: Covers(a, x) <==> Covers(b, x)
  }

  /** One more range covered on both sides. */
  lemma CoverOneMore(merged: seq<Range>, more: seq<Range>, sorted: seq<Range>, i: nat)
    requires i < |sorted| && SameCover(merged, sorted[..i])
    requires forall x: nat :: Covers(more, x) <==> Covers(merged, x) || Holds(sorted[i], x)
    ensures SameCover(more, sorted[..i + 1])
  {
    CoversSnoc(sorted[..i], sorted[i]);
    assert sorted[..i + 1] == sorted[..i] + [sorted[i]];
    forall x: nat ensures Covers(more, x) <==> Covers(sorted[..i + 1], x) {
      assert Covers(merged, x) <==> Covers(sorted[..i], x);
    }
  }

  lemma GrownIsCanonical(rs: seq<Range>, r: Range)
    requires Canonical(rs) && rs != [] && rs[|rs| - 1].start <= r.start
    ensures Canonical(rs[|rs| - 1 := Range(rs[|rs| - 1].start, Max(rs[|rs| - 1].end, r.end))])
  {
  }

  lemma AppendedIsCanonical(rs: seq<Range>, r: Range)
    requires Canonical(rs) && r.start < r.end && (rs != [] ==> rs[|rs| - 1].end < r.start)
    ensures Canonical(rs + [r])
  {
    forall i | 0 <= i < |rs| ensures rs[i].end < r.start {
      assert i < |rs| - 1 ==> rs[i].end < rs[|rs| - 1].start;
    }
  }

  method MergeRanges(ranges: seq<Range>) returns (merged: seq<Range>)
    ensures Canonical(merged)
    ensures forall b: nat :: Covers(merged, b) <==> Covers(ranges, b)
  {
    var sorted := SortByStart(ranges);
    SortSorts(ranges);
    merged := [];
    for i := 0 to |sorted|
      invariant Canonical(merged)
      invariant SameCover(merged, sorted[..i])
      invariant merged != [] && i < |sorted| ==> merged[|merged| - 1].start <= sorted[i].start
    {
      var range := sorted[i];
      assert i + 1 < |sorted| ==> range.start <= sorted[i + 1].start;
      if range.start >= range.end {
        CoverOneMore(merged, merged, sorted, i);
        continue;
      }
      if merged != [] {
        var last := |merged| - 1;
        if range.start <= merged[last].end {
          var grown := Range(merged[last].start, Max(merged[last].end, range.end));
          CoversGrown(merged, range);
          GrownIsCanonical(merged, range);
          CoverOneMore(merged, merged[last := grown], sorted, i);
          merged := merged[last := grown];
          assert merged[|merged| - 1].start <= range.start;
          continue;
        }
      }
      CoversSnoc(merged, range);
      AppendedIsCanonical(merged, range);
      CoverOneMore(merged, merged + [range], sorted, i);
      merged := merged + [range];
      assert merged[|merged| - 1] == range;
    }
    assert sorted[..|sorted|] == sorted;
    CoversPermuted(ranges, sorted);
  }

  lemma FirstByte(rs: seq<Range>)
    requires Canonical(rs) && rs != []
    ensures Covers(rs, rs[0].start)
    ensures forall b: nat :: Covers(rs, b) ==> rs[0].start <= b
    ensures !Covers(rs, rs[0].end)
    ensures forall b: nat :: Covers(rs[1..], b) <==> Covers(rs, b) && b >= rs[0].end
    ensures Canonical(rs[1..])
  {
    assert Holds(rs[0], rs[0].start);
    forall b: nat ensures Covers(rs[1..], b) <==> Covers(rs, b) && b >= rs[0].end {
      if i :| 0 <= i < |rs[1..]| && Holds(rs[1..][i], b) { assert Holds(rs[i + 1], b); }
      if i :| 0 <= i < |rs| && Holds(rs[i], b) && b >= rs[0].end { assert Holds(rs[1..][i - 1], b); }
    }
  }

  lemma FirstRangesAgree(a: seq<Range>, b: seq<Range>)
    requires Canonical(a) && Canonical(b) && a != [] && b != []
    requires forall x: nat :: Covers(a, x) <==> Covers(b, x)
    ensures a[0] == b[0]
  {
    FirstByte(a);
    FirstByte(b);
    if a[0].end < b[0].end { assert Holds(b[0], a[0].end); }
    if b[0].end < a[0].end { assert Holds(a[0], b[0].end); }
  }

  /** The merged ranges are a function of the bytes covered. */
  lemma {:induction false} CanonicalIsUnique(a: seq<Range>, b: seq<Range>)
    requires Canonical(a) && Canonical(b)
    requires forall x: nat :: Covers(a, x) <==> Covers(b, x)
    ensures a == b
  {
    if a != [] {
      FirstByte(a);
      if b != [] {
        FirstByte(b);
        FirstRangesAgree(a, b);
        CanonicalIsUnique(a[1..], b[1..]);
        SameHeadAndTail(a, b);
      }
    } else if b != [] {
      FirstByte(b);
    }
  }

  // --------------------------------------------------------- repairing a text run

  /** The graphemes of the run's text, in order and without gaps. */
  ghost predicate TileText(graphemes: seq<Range>, len: nat) {
    && (forall i :: 0 <= i < |graphemes| ==> graphemes[i].start < graphemes[i].end <= len)
    && (forall i :: 0 <= i < |graphemes| - 1 ==> graphemes[i].end == graphemes[i + 1].start)
    && (graphemes == [] ==> len == 0)
    && (graphemes != [] ==> graphemes[0].start == 0 && graphemes[|graphemes| - 1].end == len)
  }

  lemma {:induction false} StartsIncrease(graphemes: seq<Range>, len: nat, i: nat, j: nat)
    requires TileText(graphemes, len) && i < j < |graphemes|
    ensures graphemes[i].end <= graphemes[j].start
    decreases j
  {
    if i + 1 < j {
      StartsIncrease(graphemes, len, i, j - 1);
    }
  }

  /** A byte is in one grapheme only. */
  lemma GraphemeIsUnique(graphemes: seq<Range>, len: nat, r: Range, s: Range, b: nat)
    requires TileText(graphemes, len) && r in graphemes && s in graphemes && Holds(r, b) && Holds(s, b)
    ensures r == s
  {
    var i :| 0 <= i < |graphemes| && graphemes[i] == r;
    var j :| 0 <= j < |graphemes| && graphemes[j] == s;
    if i < j {
      StartsIncrease(graphemes, len, i, j);
    } else if j < i {
      StartsIncrease(graphemes, len, j, i);
    }
  }

  method ClusterToGraphemeRange(graphemes: seq<Range>, cluster: nat) returns (r: Range)
    ensures if Covers(graphemes, cluster) then r in graphemes && Holds(r, cluster) else r == Range(0, 0)
  {
    for i := 0 to |graphemes|
      invariant forall j :: 0 <= j < i ==> !Holds(graphemes[j], cluster)
    {
      if cluster >= graphemes[i].start && cluster < graphemes[i].end {
        assert Holds(graphemes[i], cluster);
        return graphemes[i];
      }
    }
    return Range(0, 0);
  }

  datatype ShapedGlyph = ShapedGlyph(glyphIdx: nat, cluster: nat)

  /** The font has no glyph for some cluster of the grapheme. */
  predicate Lacks(r: Range, glyphs: seq<ShapedGlyph>) {
    exists k :: 0 <= k < |glyphs| && r.start <= glyphs[k].cluster < r.end && glyphs[k].glyphIdx == 0
  }

  ghost predicate MissingByte(graphemes: seq<Range>, glyphs: seq<ShapedGlyph>, b: nat) {
    exists g :: 0 <= g < |graphemes| && Holds(graphemes[g], b) && Lacks(graphemes[g], glyphs)
  }

  lemma LacksSnoc(glyphs: seq<ShapedGlyph>, k: nat)
    requires k < |glyphs|
    ensures forall r: Range :: Lacks(r, glyphs[..k + 1]) <==>
              Lacks(r, glyphs[..k]) || (Holds(r, glyphs[k].cluster) && glyphs[k].glyphIdx == 0)
  {
    forall r: Range ensures Lacks(r, glyphs[..k + 1]) <==>
                            Lacks(r, glyphs[..k]) || (Holds(r, glyphs[k].cluster) && glyphs[k].glyphIdx == 0)
    {
      assert forall j :: 0 <= j < k ==> glyphs[..k + 1][j] == glyphs[..k][j];
      assert glyphs[..k + 1][k] == glyphs[k];
    }
  }

  method MissingRanges(graphemes: seq<Range>, glyphs: seq<ShapedGlyph>, ghost len: nat) returns (missing: seq<Range>)
    requires TileText(graphemes, len)
    ensures forall r :: r in missing <==> r in graphemes && Lacks(r, glyphs)
  {
    missing := [];
    for k := 0 to |glyphs|
      invariant forall r :: r in missing <==> r in graphemes && Lacks(r, glyphs[..k])
    {
      var glyph := glyphs[k];
      LacksSnoc(glyphs, k);
      if glyph.glyphIdx == 0 {
        var range := ClusterToGraphemeRange(graphemes, glyph.cluster);
        if range.start < range.end {
          forall r | r in graphemes && Holds(r, glyph.cluster) ensures r == range {
            GraphemeIsUnique(graphemes, len, r, range, glyph.cluster);
          }
          missing := missing + [range];
        }
      }
    }
    assert glyphs[..|glyphs|] == glyphs;
  }

  /** A stretch of the run to shape again: with a fallback font, if one exists, where
      glyphs are missing and with the run's own font otherwise. */
  datatype Piece = Piece(range: Range, missing: bool)

  /** From `from` to `to` without gaps and in order; no two neighbours are alike. */
  ghost predicate Tile(ps: seq<Piece>, from: nat, to: nat) {
    && (forall i :: 0 <= i < |ps| ==> ps[i].range.start < ps[i].range.end)
    && (forall i :: 0 <= i < |ps| - 1 ==>
          ps[i].range.end == ps[i + 1].range.start && ps[i].missing != ps[i + 1].missing)
    && (if ps == [] then from == to else ps[0].range.start == from && ps[|ps| - 1].range.end == to)
  }

  /** Every byte of a piece is missing exactly when the piece is marked so. */
  ghost predicate Marks(ps: seq<Piece>, missing: seq<Range>) {
    forall i, b: nat :: 0 <= i < |ps| && Holds(ps[i].range, b) ==> (ps[i].missing <==> Covers(missing, b))
  }

  function Reversed<T>(s: seq<T>): (r: seq<T>)
    ensures |r| == |s|
    ensures forall i :: 0 <= i < |s| ==> r[i] == s[|s| - 1 - i]
  {
    if s == [] then [] else Reversed(s[1..]) + [s[0]]
  }

  lemma AppendPiece(ps: seq<Piece>, from: nat, mid: nat, p: Piece, missing: seq<Range>)
    requires Tile(ps, from, mid) && Marks(ps, missing)
    requires p.range.start == mid < p.range.end
    requires ps != [] ==> ps[|ps| - 1].missing != p.missing
    requires forall b: nat :: Holds(p.range, b) ==> (p.missing <==> Covers(missing, b))
    ensures Tile(ps + [p], from, p.range.end) && Marks(ps + [p], missing)
  {
    var qs := ps + [p];
    forall i, b: nat | 0 <= i < |qs| && Holds(qs[i].range, b) ensures qs[i].missing <==> Covers(missing, b) {
      if i < |ps| { assert qs[i] == ps[i]; }
    }
  }

  /** Between two ranges, and after the last, no byte is covered. */
  lemma GapIsNotMissing(missing: seq<Range>, i: nat, cursor: nat)
    requires Canonical(missing) && i <= |missing|
    requires i > 0 ==> cursor == missing[i - 1].end
    ensures forall b: nat :: cursor <= b && (i < |missing| ==> b < missing[i].start) ==> !Covers(missing, b)
  {
  }

  method CutAtRanges(missing: seq<Range>, len: nat) returns (pieces: seq<Piece>)
    requires Canonical(missing)
    requires forall i :: 0 <= i < |missing| ==> missing[i].end <= len
    ensures Tile(pieces, 0, len) && Marks(pieces, missing)
  {
    pieces := [];
    var cursor: nat := 0;
    for i := 0 to |missing|
      invariant Tile(pieces, 0, cursor) && Marks(pieces, missing) && cursor <= len
      invariant if i == 0 then cursor == 0 && pieces == [] else cursor == missing[i - 1].end
      invariant pieces != [] ==> pieces[|pieces| - 1].missing
    {
      var range := missing[i];
      if cursor < range.start {
        var gap := Piece(Range(cursor, range.start), false);
        GapIsNotMissing(missing, i, cursor);
        AppendPiece(pieces, 0, cursor, gap, missing);
        pieces := pieces + [gap];
      }
      var repaired := Piece(range, true);
      AppendPiece(pieces, 0, range.start, repaired, missing);
      pieces := pieces + [repaired];
      cursor := range.end;
    }
    if cursor < len {
      var gap := Piece(Range(cursor, len), false);
      GapIsNotMissing(missing, |missing|, cursor);
      AppendPiece(pieces, 0, cursor, gap, missing);
      pieces := pieces + [gap];
    }
  }

  ghost predicate MarksMissing(ps: seq<Piece>, graphemes: seq<Range>, glyphs: seq<ShapedGlyph>) {
    forall i, b: nat :: 0 <= i < |ps| && Holds(ps[i].range, b) ==>
      (ps[i].missing <==> MissingByte(graphemes, glyphs, b))
  }

  lemma CoversMissing(missing: seq<Range>, graphemes: seq<Range>, glyphs: seq<ShapedGlyph>, b: nat)
    requires forall r :: r in missing <==> r in graphemes && Lacks(r, glyphs)
    ensures Covers(missing, b) <==> MissingByte(graphemes, glyphs, b)
  {
    if i :| 0 <= i < |missing| && Holds(missing[i], b) {
      assert missing[i] in graphemes;
      var g :| 0 <= g < |graphemes| && graphemes[g] == missing[i];
    }
    if g :| 0 <= g < |graphemes| && Holds(graphemes[g], b) && Lacks(graphemes[g], glyphs) {
      assert graphemes[g] in missing;
      var i :| 0 <= i < |missing| && missing[i] == graphemes[g];
    }
  }

  /** The pieces tile the run's text, in order or reversed for right-to-left text, and
      a byte is in a repaired piece exactly when its grapheme lacks a glyph. */
  method RepairMissingGlyphsInRun(graphemes: seq<Range>, len: nat, glyphs: seq<ShapedGlyph>, rtl: bool)
    returns (pieces: seq<Piece>)
    requires TileText(graphemes, len)
    ensures var ps := if rtl then Reversed(pieces) else pieces;
            Tile(ps, 0, len) && MarksMissing(ps, graphemes, glyphs)
  {
    var missing := MissingRanges(graphemes, glyphs, len);
    var merged := MergeRanges(missing);
    forall b: nat ensures Covers(merged, b) <==> MissingByte(graphemes, glyphs, b) {
      CoversMissing(missing, graphemes, glyphs, b);
    }
    forall i | 0 <= i < |merged| ensures merged[i].end <= len {
      assert Holds(merged[i], merged[i].end - 1);
      assert Covers(merged, merged[i].end - 1);
    }
    pieces := CutAtRanges(merged, len);
    if rtl {
      assert Reversed(Reversed(pieces)) == pieces;
      pieces := Reversed(pieces);
    }
  }

  lemma {:induction false} TileAdvances(ps: seq<Piece>, from: nat, to: nat)
    requires Tile(ps, from, to) && ps != []
    ensures from < ps[0].range.end <= to
    decreases |ps|
  {
    if |ps| > 1 {
      assert Tile(ps[1..], ps[0].range.end, to);
      TileAdvances(ps[1..], ps[0].range.end, to);
    }
  }

  lemma TileTail(ps: seq<Piece>, from: nat, to: nat, missing: seq<Range>)
    requires Tile(ps, from, to) && Marks(ps, missing) && ps != []
    ensures Tile(ps[1..], ps[0].range.end, to) && Marks(ps[1..], missing)
  {
  }

  lemma NotShorter(a: seq<Piece>, b: seq<Piece>, from: nat, to: nat, missing: seq<Range>)
    requires Tile(a, from, to) && Tile(b, from, to) && a != [] && b != []
    requires Marks(a, missing) && Marks(b, missing) && a[0].missing == b[0].missing
    ensures a[0].range.end >= b[0].range.end
  {
    TileAdvances(b, from, to);
    var e, q := a[0].range.end, b[0];
    assert Holds(q.range, e) ==> (q.missing <==> Covers(missing, e));
    if |a| > 1 {
      assert Holds(a[1].range, e);
      assert a[1].missing <==> Covers(missing, e);
    }
  }

  lemma FirstPiecesAgree(a: seq<Piece>, b: seq<Piece>, from: nat, to: nat, missing: seq<Range>)
    requires Tile(a, from, to) && Tile(b, from, to) && a != [] && b != []
    requires Marks(a, missing) && Marks(b, missing)
    ensures a[0] == b[0]
  {
    assert Holds(a[0].range, from) && Holds(b[0].range, from);
    assert a[0].missing <==> Covers(missing, from);
    NotShorter(a, b, from, to, missing);
    NotShorter(b, a, from, to, missing);
  }

  /** No other pieces would do: the tiling is determined by the bytes it marks. */
  lemma {:induction false} TilingIsUnique(a: seq<Piece>, b: seq<Piece>, from: nat, to: nat, missing: seq<Range>)
    requires Tile(a, from, to) && Tile(b, from, to)
    requires Marks(a, missing) && Marks(b, missing)
    ensures a == b
    decreases |a|
  {
    if a != [] && b != [] {
      FirstPiecesAgree(a, b, from, to, missing);
      TileTail(a, from, to, missing);
      TileTail(b, from, to, missing);
      TilingIsUnique(a[1..], b[1..], a[0].range.end, to, missing);
      SameHeadAndTail(a, b);
    } else {
      if a != [] { TileAdvances(a, from, to); }
      if b != [] { TileAdvances(b, from, to); }
    }
  }
}
