/** Glyph clusters of a shaped run: grouping the glyphs, and slicing the run by bytes. */
module Clusters {
  import opened Core
  import Ranges

  datatype Glyph = Glyph(cluster: nat, xAdv: real)

  /** The glyphs of one cluster and the bytes of text they stand for. */
  datatype Group = Group(byteStart: nat, byteEnd: nat, glyphStart: nat, glyphEnd: nat, xAdvance: real)

  function Advance(glyphs: seq<Glyph>, scale: real): real {
    if glyphs == [] then 0.0
    else Advance(glyphs[..|glyphs| - 1], scale) + glyphs[|glyphs| - 1].xAdv * scale
  }

  // -------------------------------------------------------------------- grouping

  /** All glyphs of the group, and none without, share its cluster. */
  ghost predicate GroupIs(g: Group, glyphs: seq<Glyph>, runStart: nat, scale: real) {
    && g.glyphStart < g.glyphEnd <= |glyphs|
    && (forall k :: g.glyphStart <= k < g.glyphEnd ==> runStart + glyphs[k].cluster == g.byteStart)
    && g.xAdvance == Advance(glyphs[g.glyphStart..g.glyphEnd], scale)
  }

  /** The groups cut the first `n` glyphs, without gaps, where the cluster changes. */
  ghost predicate GroupsOf(groups: seq<Group>, glyphs: seq<Glyph>, n: nat, runStart: nat, scale: real)
    requires n <= |glyphs|
  {
    && (groups == [] <==> n == 0)
    && (groups != [] ==> groups[0].glyphStart == 0 && groups[|groups| - 1].glyphEnd == n)
    && (forall i :: 0 <= i < |groups| - 1 ==> groups[i].glyphEnd == groups[i + 1].glyphStart)
    && (forall i :: 0 <= i < |groups| ==> GroupIs(groups[i], glyphs, runStart, scale))
    && (forall i :: 0 <= i < |groups| - 1 ==> groups[i].byteStart != groups[i + 1].byteStart)
  }

  predicate StrictlyIncreasing(s: seq<nat>) {
    forall i, j :: 0 <= i < j < |s| ==> s[i] < s[j]
  }

  /** Sorted insertion without duplicates; what sorting and deduplicating a list does
      one element at a time. */
  function InsertOnce(s: seq<nat>, x: nat): seq<nat> {
    if s == [] || x < s[0] then [x] + s
    else if x == s[0] then s
    else [s[0]] + InsertOnce(s[1..], x)
  }

  lemma PrependSorted(x: nat, s: seq<nat>)
    requires StrictlyIncreasing(s)
    requires forall y :: y in s ==> x < y
    ensures StrictlyIncreasing([x] + s)
    ensures forall y :: y in [x] + s <==> y == x || y in s
  {
    var r := [x] + s;
    forall i, j | 0 <= i < j < |r| ensures r[i] < r[j] {
      assert r[j] == s[j - 1] && s[j - 1] in s;
      if i > 0 { assert r[i] == s[i - 1]; }
    }
  }

  lemma {:induction false} InsertOnceSorts(s: seq<nat>, x: nat)
    requires StrictlyIncreasing(s)
    ensures StrictlyIncreasing(InsertOnce(s, x))
    ensures forall y :: y in InsertOnce(s, x) <==> y in s || y == x
  {
    if s != [] && x > s[0] {
      InsertOnceSorts(s[1..], x);
      forall y | y in InsertOnce(s[1..], x) ensures y > s[0] {
        if y in s[1..] {
          var i :| 0 <= i < |s[1..]| && s[1..][i] == y;
          assert s[0] < s[i + 1];
        }
      }
      PrependSorted(s[0], InsertOnce(s[1..], x));
      assert s == [s[0]] + s[1..];
    } else if s == [] || x < s[0] {
      forall y | y in s ensures x < y {
        var i :| 0 <= i < |s| && s[i] == y;
        assert s[0] <= s[i];
      }
      PrependSorted(x, s);
    }
  }

  method SortedStarts(groups: seq<Group>) returns (starts: seq<nat>)
    ensures StrictlyIncreasing(starts)
    ensures forall y :: y in starts <==> exists i :: 0 <= i < |groups| && groups[i].byteStart == y
  {
    starts := [];
    for i := 0 to |groups|
      invariant StrictlyIncreasing(starts)
      invariant forall y :: y in starts <==> exists j :: 0 <= j < i && groups[j].byteStart == y
    {
      InsertOnceSorts(starts, groups[i].byteStart);
      starts := InsertOnce(starts, groups[i].byteStart);
    }
  }

  method BinarySearch(s: seq<nat>, x: nat) returns (pos: nat)
    requires StrictlyIncreasing(s) && x in s
    ensures pos < |s| && s[pos] == x
  {
    var lo, hi := 0, |s|;
    pos := |s| / 2;
    while s[pos] != x
      invariant 0 <= lo <= pos < hi <= |s|
      invariant forall i :: 0 <= i < |s| && s[i] == x ==> lo <= i < hi
      decreases hi - lo
    {
      if s[pos] < x {
        lo := pos + 1;
      } else {
        hi := pos;
      }
      pos := (lo + hi) / 2;
    }
  }

  /** `e` is the next cluster start after `b`, or the end of the run when none follows. */
  ghost predicate EndsAtNext(groups: seq<Group>, b: nat, e: nat, runEnd: nat) {
    && (forall i :: 0 <= i < |groups| && groups[i].byteStart > b ==> e <= groups[i].byteStart)
    && (|| (exists i :: 0 <= i < |groups| && groups[i].byteStart == e && e > b)
        || (e == runEnd && forall i :: 0 <= i < |groups| ==> groups[i].byteStart <= b))
  }

  lemma GroupsSnoc(groups: seq<Group>, g: Group, glyphs: seq<Glyph>, runStart: nat, scale: real)
    requires g.glyphStart < g.glyphEnd <= |glyphs| && GroupIs(g, glyphs, runStart, scale)
    requires GroupsOf(groups, glyphs, g.glyphStart, runStart, scale)
    requires groups != [] ==> groups[|groups| - 1].byteStart != g.byteStart
    ensures GroupsOf(groups + [g], glyphs, g.glyphEnd, runStart, scale)
  {
    var more := groups + [g];
    forall i | 0 <= i < |more| ensures GroupIs(more[i], glyphs, runStart, scale) {
      assert i < |groups| ==> more[i] == groups[i];
    }
  }

  method GroupGlyphs(runStart: nat, glyphs: seq<Glyph>, scale: real) returns (groups: seq<Group>)
    ensures GroupsOf(groups, glyphs, |glyphs|, runStart, scale)
  {
    groups := [];
    var i := 0;
    while i < |glyphs|
      invariant i <= |glyphs| && GroupsOf(groups, glyphs, i, runStart, scale)
      invariant groups != [] && i < |glyphs| ==> runStart + glyphs[i].cluster != groups[|groups| - 1].byteStart
    {
      var cluster := glyphs[i].cluster;
      var glyphStart, glyphEnd := i, i + 1;
      while glyphEnd < |glyphs| && glyphs[glyphEnd].cluster == cluster
        invariant glyphStart < glyphEnd <= |glyphs|
        invariant forall k :: glyphStart <= k < glyphEnd ==> glyphs[k].cluster == cluster
      {
        glyphEnd := glyphEnd + 1;
      }
      var xAdvance := Advance(glyphs[glyphStart..glyphEnd], scale);
      var group := Group(runStart + cluster, 0, glyphStart, glyphEnd, xAdvance);
      GroupsSnoc(groups, group, glyphs, runStart, scale);
      groups := groups + [group];
      i := glyphEnd;
    }
  }

  /** The same groups, up to where their bytes end. */
  ghost predicate SameButEnds(a: seq<Group>, b: seq<Group>) {
    && |a| == |b|
    && forall i :: 0 <= i < |a| ==> b[i] == a[i].(byteEnd := b[i].byteEnd)
  }

  lemma EndsTransfer(a: seq<Group>, b: seq<Group>, x: nat, e: nat, runEnd: nat)
    requires SameButEnds(a, b) && EndsAtNext(a, x, e, runEnd)
    ensures EndsAtNext(b, x, e, runEnd)
  {
    if i :| 0 <= i < |a| && a[i].byteStart == e && e > x {
      assert b[i].byteStart == e;
    }
  }

  lemma EndsDone(cut: seq<Group>, groups: seq<Group>, runEnd: nat)
    requires SameButEnds(cut, groups)
    requires forall j :: 0 <= j < |groups| ==> EndsAtNext(cut, cut[j].byteStart, groups[j].byteEnd, runEnd)
    ensures forall i :: 0 <= i < |groups| ==> EndsAtNext(groups, groups[i].byteStart, groups[i].byteEnd, runEnd)
  {
    forall i | 0 <= i < |groups| ensures EndsAtNext(groups, groups[i].byteStart, groups[i].byteEnd, runEnd) {
      assert EndsAtNext(cut, cut[i].byteStart, groups[i].byteEnd, runEnd);
      EndsTransfer(cut, groups, cut[i].byteStart, groups[i].byteEnd, runEnd);
    }
  }

  lemma NextStart(groups: seq<Group>, starts: seq<nat>, pos: nat, byteEnd: nat, runEnd: nat)
    requires StrictlyIncreasing(starts) && pos < |starts|
    requires forall y :: y in starts <==> exists i :: 0 <= i < |groups| && groups[i].byteStart == y
    requires byteEnd == if pos + 1 < |starts| then starts[pos + 1] else runEnd
    ensures EndsAtNext(groups, starts[pos], byteEnd, runEnd)
  {
    forall i | 0 <= i < |groups| && groups[i].byteStart > starts[pos]
      ensures pos + 1 < |starts| && byteEnd <= groups[i].byteStart
    {
      assert groups[i].byteStart in starts;
      var j :| 0 <= j < |starts| && starts[j] == groups[i].byteStart;
    }
    if pos + 1 < |starts| {
      assert starts[pos + 1] in starts;
    }
  }

  /** Byte ends come from the sorted starts: glyph order need not be byte order. */
  method SetEnds(cut: seq<Group>, runEnd: nat) returns (groups: seq<Group>)
    ensures SameButEnds(cut, groups)
    ensures forall i :: 0 <= i < |groups| ==> EndsAtNext(groups, groups[i].byteStart, groups[i].byteEnd, runEnd)
  {
    groups := cut;
    var starts := SortedStarts(groups);
    for i := 0 to |groups|
      invariant SameButEnds(cut, groups)
      invariant forall j :: 0 <= j < i ==> EndsAtNext(cut, cut[j].byteStart, groups[j].byteEnd, runEnd)
    {
      assert groups[i].byteStart == cut[i].byteStart;
      var pos := BinarySearch(starts, groups[i].byteStart);
      var byteEnd := if pos + 1 < |starts| then starts[pos + 1] else runEnd;
      NextStart(cut, starts, pos, byteEnd, runEnd);
      groups := groups[i := groups[i].(byteEnd := byteEnd)];
    }
    EndsDone(cut, groups, runEnd);
  }

  lemma GroupsKept(cut: seq<Group>, groups: seq<Group>, glyphs: seq<Glyph>, runStart: nat, scale: real)
    requires SameButEnds(cut, groups) && GroupsOf(cut, glyphs, |glyphs|, runStart, scale)
    ensures GroupsOf(groups, glyphs, |glyphs|, runStart, scale)
  {
    forall i | 0 <= i < |groups| ensures GroupIs(groups[i], glyphs, runStart, scale) {
      assert GroupIs(cut[i], glyphs, runStart, scale);
    }
  }

  method BuildClusterGroups(runStart: nat, textLen: nat, glyphs: seq<Glyph>, scale: real)
    returns (groups: seq<Group>)
    ensures GroupsOf(groups, glyphs, |glyphs|, runStart, scale)
    ensures forall i :: 0 <= i < |groups| ==>
              EndsAtNext(groups, groups[i].byteStart, groups[i].byteEnd, runStart + textLen)
  {
    var cut := GroupGlyphs(runStart, glyphs, scale);
    groups := SetEnds(cut, runStart + textLen);
    GroupsKept(cut, groups, glyphs, runStart, scale);
  }

  // -------------------------------------------------- the groups tile bytes and glyphs

  /** What text shaping promises: some cluster starts at 0, none past the text, and the
      glyphs of a cluster stand together, in whatever byte order the clusters come. */
  ghost predicate WellShaped(glyphs: seq<Glyph>, textLen: nat) {
    && (glyphs == [] ==> textLen == 0)
    && (glyphs != [] ==> exists k :: 0 <= k < |glyphs| && glyphs[k].cluster == 0)
    && (forall k :: 0 <= k < |glyphs| ==> glyphs[k].cluster < textLen)
    && (forall i, j, k :: 0 <= i <= j <= k < |glyphs| && glyphs[i].cluster == glyphs[k].cluster ==>
          glyphs[j].cluster == glyphs[i].cluster)
  }

  ghost predicate InGroup(g: Group, b: nat) { g.byteStart <= b < g.byteEnd }

  ghost predicate TileGlyphs(groups: seq<Group>, n: nat) {
    && (groups == [] <==> n == 0)
    && (groups != [] ==> groups[0].glyphStart == 0 && groups[|groups| - 1].glyphEnd == n)
    && (forall i :: 0 <= i < |groups| ==> groups[i].glyphStart < groups[i].glyphEnd)
    && (forall i :: 0 <= i < |groups| - 1 ==> groups[i].glyphEnd == groups[i + 1].glyphStart)
  }

  ghost predicate HasGroup(groups: seq<Group>, b: nat) {
    exists i :: 0 <= i < |groups| && InGroup(groups[i], b)
  }

  /** Every byte from `from` to `to` is in exactly one group, and no group reaches out. */
  ghost predicate TileBytes(groups: seq<Group>, from: nat, to: nat) {
    && (forall i :: 0 <= i < |groups| ==> from <= groups[i].byteStart < groups[i].byteEnd <= to)
    && (forall i, j :: 0 <= i < j < |groups| ==>
          groups[i].byteEnd <= groups[j].byteStart || groups[j].byteEnd <= groups[i].byteStart)
    && (forall b: nat :: from <= b < to ==> HasGroup(groups, b))
  }

  lemma InitTiles(groups: seq<Group>, n: nat)
    requires TileGlyphs(groups, n) && groups != []
    ensures TileGlyphs(groups[..|groups| - 1], groups[|groups| - 1].glyphStart)
    ensures groups[|groups| - 1].glyphStart < groups[|groups| - 1].glyphEnd == n
  {
    var init := groups[..|groups| - 1];
    forall i | 0 <= i < |init| - 1 ensures init[i].glyphEnd == init[i + 1].glyphStart {
      assert init[i] == groups[i] && init[i + 1] == groups[i + 1];
    }
    if init != [] {
      assert groups[|init| - 1].glyphEnd == groups[|init| - 1 + 1].glyphStart;
    }
  }

  lemma {:induction false} GlyphsInOrder(groups: seq<Group>, n: nat, i: nat, j: nat)
    requires TileGlyphs(groups, n) && i < j < |groups|
    ensures groups[i].glyphEnd <= groups[j].glyphStart
    decreases j
  {
    if i + 1 < j {
      GlyphsInOrder(groups, n, i, j - 1);
    }
  }

  /** Two groups never start at the same byte. */
  lemma StartsDiffer(groups: seq<Group>, glyphs: seq<Glyph>, runStart: nat, textLen: nat, scale: real, i: nat, j: nat)
    requires GroupsOf(groups, glyphs, |glyphs|, runStart, scale) && WellShaped(glyphs, textLen)
    requires i < j < |groups|
    ensures groups[i].byteStart != groups[j].byteStart
  {
    var n := |glyphs|;
    assert TileGlyphs(groups, n);
    GlyphsInOrder(groups, n, i, j);
    var a, b, c := groups[i].glyphStart, groups[i + 1].glyphStart, groups[j].glyphStart;
    assert runStart + glyphs[a].cluster == groups[i].byteStart;
    assert runStart + glyphs[b].cluster == groups[i + 1].byteStart;
    assert runStart + glyphs[c].cluster == groups[j].byteStart;
    if i + 1 < j {
      GlyphsInOrder(groups, n, i + 1, j);
    }
  }

  /** The group with the greatest start up to byte `b`. */
  lemma {:induction false} LastStartBefore(groups: seq<Group>, b: nat, n: nat) returns (k: nat)
    requires 0 < n <= |groups|
    requires exists i :: 0 <= i < n && groups[i].byteStart <= b
    ensures k < n && groups[k].byteStart <= b
    ensures forall i :: 0 <= i < n && groups[i].byteStart <= b ==> groups[i].byteStart <= groups[k].byteStart
  {
    if forall i :: 0 <= i < n - 1 ==> groups[i].byteStart > b {
      k := n - 1;
    } else {
      k := LastStartBefore(groups, b, n - 1);
      if groups[k].byteStart < groups[n - 1].byteStart <= b {
        k := n - 1;
      }
    }
  }

  lemma StartInRun(groups: seq<Group>, glyphs: seq<Glyph>, runStart: nat, textLen: nat, scale: real, i: nat)
    requires GroupsOf(groups, glyphs, |glyphs|, runStart, scale) && WellShaped(glyphs, textLen) && i < |groups|
    ensures runStart <= groups[i].byteStart < runStart + textLen
  {
    assert GroupIs(groups[i], glyphs, runStart, scale);
    assert runStart + glyphs[groups[i].glyphStart].cluster == groups[i].byteStart;
  }

  lemma GroupInRun(groups: seq<Group>, glyphs: seq<Glyph>, runStart: nat, textLen: nat, scale: real, i: nat)
    requires GroupsOf(groups, glyphs, |glyphs|, runStart, scale) && WellShaped(glyphs, textLen) && i < |groups|
    requires EndsAtNext(groups, groups[i].byteStart, groups[i].byteEnd, runStart + textLen)
    ensures runStart <= groups[i].byteStart < groups[i].byteEnd <= runStart + textLen
  {
    StartInRun(groups, glyphs, runStart, textLen, scale, i);
    if j :| 0 <= j < |groups| && groups[j].byteStart == groups[i].byteEnd {
      StartInRun(groups, glyphs, runStart, textLen, scale, j);
    }
  }

  lemma {:induction false} GroupOfGlyph(groups: seq<Group>, n: nat, k: nat) returns (z: nat)
    requires TileGlyphs(groups, n) && k < n
    ensures z < |groups| && groups[z].glyphStart <= k < groups[z].glyphEnd
    decreases |groups|
  {
    var last := |groups| - 1;
    if k >= groups[last].glyphStart {
      z := last;
    } else {
      InitTiles(groups, n);
      z := GroupOfGlyph(groups[..last], groups[last].glyphStart, k);
    }
  }

  /** Some group starts where the run does. */
  lemma FirstClusterGroup(groups: seq<Group>, glyphs: seq<Glyph>, runStart: nat, textLen: nat, scale: real)
    returns (z: nat)
    requires GroupsOf(groups, glyphs, |glyphs|, runStart, scale) && WellShaped(glyphs, textLen) && glyphs != []
    ensures z < |groups| && groups[z].byteStart == runStart
  {
    var k :| 0 <= k < |glyphs| && glyphs[k].cluster == 0;
    z := GroupOfGlyph(groups, |glyphs|, k);
    assert GroupIs(groups[z], glyphs, runStart, scale);
  }

  lemma ByteHasGroup(groups: seq<Group>, glyphs: seq<Glyph>, runStart: nat, textLen: nat, scale: real, b: nat)
    requires GroupsOf(groups, glyphs, |glyphs|, runStart, scale) && WellShaped(glyphs, textLen)
    requires forall i :: 0 <= i < |groups| ==>
               EndsAtNext(groups, groups[i].byteStart, groups[i].byteEnd, runStart + textLen)
    requires runStart <= b < runStart + textLen
    ensures HasGroup(groups, b)
  {
    var z := FirstClusterGroup(groups, glyphs, runStart, textLen, scale);
    var k := LastStartBefore(groups, b, |groups|);
    assert EndsAtNext(groups, groups[k].byteStart, groups[k].byteEnd, runStart + textLen);
    assert InGroup(groups[k], b);
  }

  /** The groups of a well-shaped run tile its bytes and its glyphs. */
  lemma GroupsTileRun(groups: seq<Group>, glyphs: seq<Glyph>, runStart: nat, textLen: nat, scale: real)
    requires GroupsOf(groups, glyphs, |glyphs|, runStart, scale) && WellShaped(glyphs, textLen)
    requires forall i :: 0 <= i < |groups| ==>
               EndsAtNext(groups, groups[i].byteStart, groups[i].byteEnd, runStart + textLen)
    ensures TileGlyphs(groups, |glyphs|)
    ensures TileBytes(groups, runStart, runStart + textLen)
  {
    var runEnd := runStart + textLen;
    forall i | 0 <= i < |groups|
      ensures runStart <= groups[i].byteStart < groups[i].byteEnd <= runEnd
    {
      GroupInRun(groups, glyphs, runStart, textLen, scale, i);
    }
    forall i, j | 0 <= i < j < |groups|
      ensures groups[i].byteEnd <= groups[j].byteStart || groups[j].byteEnd <= groups[i].byteStart
    {
      StartsDiffer(groups, glyphs, runStart, textLen, scale, i, j);
    }
    forall b: nat | runStart <= b < runEnd ensures HasGroup(groups, b) {
      ByteHasGroup(groups, glyphs, runStart, textLen, scale, b);
    }
  }

  // --------------------------------------------------------------------- slicing

  datatype Slice = Slice(runIndex: nat, glyphStart: nat, glyphEnd: nat, xAdvance: real)

  predicate Intersects(g: Group, from: nat, to: nat) { g.byteEnd > from && g.byteStart < to }

  /** Glyph `k` belongs to a group that has bytes in the range. */
  ghost predicate Selected(groups: seq<Group>, from: nat, to: nat, k: nat) {
    exists i :: 0 <= i < |groups| && Intersects(groups[i], from, to) && groups[i].glyphStart <= k < groups[i].glyphEnd
  }

  function SelectedAdvance(groups: seq<Group>, from: nat, to: nat): real {
    if groups == [] then 0.0
    else
      var g := groups[|groups| - 1];
      SelectedAdvance(groups[..|groups| - 1], from, to) + if Intersects(g, from, to) then g.xAdvance else 0.0
  }

  ghost predicate InSlices(slices: seq<Slice>, k: nat) {
    exists i :: 0 <= i < |slices| && slices[i].glyphStart <= k < slices[i].glyphEnd
  }

  function SlicesAdvance(slices: seq<Slice>): real {
    if slices == [] then 0.0 else SlicesAdvance(slices[..|slices| - 1]) + slices[|slices| - 1].xAdvance
  }

  /** Not empty, in order, and with a glyph between any two. */
  ghost predicate SeparateSlices(slices: seq<Slice>) {
    && (forall i :: 0 <= i < |slices| ==> slices[i].glyphStart < slices[i].glyphEnd)
    && (forall i, j :: 0 <= i < j < |slices| ==> slices[i].glyphEnd < slices[j].glyphStart)
  }

  function Grown(s: Slice, g: Group): Slice {
    s.(glyphEnd := g.glyphEnd, xAdvance := s.xAdvance + g.xAdvance)
  }

  function AddGroup(runIndex: nat, slices: seq<Slice>, g: Group, from: nat, to: nat): seq<Slice> {
    if !Intersects(g, from, to) then slices
    else if slices != [] && slices[|slices| - 1].glyphEnd == g.glyphStart then
      slices[..|slices| - 1] + [Grown(slices[|slices| - 1], g)]
    else slices + [Slice(runIndex, g.glyphStart, g.glyphEnd, g.xAdvance)]
  }

  /** The slices of the groups that intersect the range: a group continues the last
      slice when it starts where that one ends. */
  function SlicesFor(runIndex: nat, groups: seq<Group>, from: nat, to: nat): seq<Slice> {
    if groups == [] then []
    else AddGroup(runIndex, SlicesFor(runIndex, groups[..|groups| - 1], from, to), groups[|groups| - 1], from, to)
  }

  /** What slices say about groups: they hold exactly the glyphs of the groups with
      bytes in the range, and advance as far. */
  ghost predicate SlicesOf(slices: seq<Slice>, groups: seq<Group>, from: nat, to: nat) {
    && SeparateSlices(slices)
    && SlicesAdvance(slices) == SelectedAdvance(groups, from, to)
    && (forall k: nat :: InSlices(slices, k) <==> Selected(groups, from, to, k))
  }

  lemma SelectedSnoc(groups: seq<Group>, g: Group, from: nat, to: nat)
    ensures SelectedAdvance(groups + [g], from, to) ==
            SelectedAdvance(groups, from, to) + if Intersects(g, from, to) then g.xAdvance else 0.0
    ensures forall k: nat :: Selected(groups + [g], from, to, k) <==>
              Selected(groups, from, to, k) || (Intersects(g, from, to) && g.glyphStart <= k < g.glyphEnd)
  {
    assert (groups + [g])[..|groups|] == groups;
    forall k: nat ensures Selected(groups + [g], from, to, k) <==>
              Selected(groups, from, to, k) || (Intersects(g, from, to) && g.glyphStart <= k < g.glyphEnd)
    {
      assert forall i :: 0 <= i < |groups| ==> (groups + [g])[i] == groups[i];
      assert (groups + [g])[|groups|] == g;
    }
  }

  lemma SlicesSnoc(slices: seq<Slice>, s: Slice)
    ensures SlicesAdvance(slices + [s]) == SlicesAdvance(slices) + s.xAdvance
    ensures forall k: nat :: InSlices(slices + [s], k) <==> InSlices(slices, k) || s.glyphStart <= k < s.glyphEnd
  {
    assert (slices + [s])[..|slices|] == slices;
    forall k: nat ensures InSlices(slices + [s], k) <==> InSlices(slices, k) || s.glyphStart <= k < s.glyphEnd {
      assert forall i :: 0 <= i < |slices| ==> (slices + [s])[i] == slices[i];
      assert (slices + [s])[|slices|] == s;
    }
  }

  lemma AppendedSeparate(slices: seq<Slice>, s: Slice)
    requires SeparateSlices(slices) && s.glyphStart < s.glyphEnd
    requires slices != [] ==> slices[|slices| - 1].glyphEnd < s.glyphStart
    ensures SeparateSlices(slices + [s])
  {
    forall i | 0 <= i < |slices| ensures slices[i].glyphEnd < s.glyphStart {
      assert i == |slices| - 1 || slices[i].glyphEnd < slices[|slices| - 1].glyphStart;
    }
  }

  /** A group starting a new slice. */
  lemma NewSlice(slices: seq<Slice>, groups: seq<Group>, g: Group, from: nat, to: nat, s: Slice)
    requires SlicesOf(slices, groups, from, to) && Intersects(g, from, to)
    requires g.glyphStart < g.glyphEnd
    requires slices != [] ==> slices[|slices| - 1].glyphEnd < g.glyphStart
    requires s.glyphStart == g.glyphStart && s.glyphEnd == g.glyphEnd && s.xAdvance == g.xAdvance
    ensures SlicesOf(slices + [s], groups + [g], from, to)
  {
    SelectedSnoc(groups, g, from, to);
    SlicesSnoc(slices, s);
    AppendedSeparate(slices, s);
    forall k: nat ensures InSlices(slices + [s], k) <==> Selected(groups + [g], from, to, k) {
      assert InSlices(slices, k) <==> Selected(groups, from, to, k);
    }
  }

  lemma GrownMembers(init: seq<Slice>, last: Slice, g: Group)
    requires last.glyphStart <= last.glyphEnd == g.glyphStart <= g.glyphEnd
    ensures SlicesAdvance(init + [Grown(last, g)]) == SlicesAdvance(init + [last]) + g.xAdvance
    ensures forall k: nat :: InSlices(init + [Grown(last, g)], k) <==>
              InSlices(init + [last], k) || g.glyphStart <= k < g.glyphEnd
  {
    SlicesSnoc(init, last);
    SlicesSnoc(init, Grown(last, g));
  }

  lemma GrownSeparate(init: seq<Slice>, last: Slice, g: Group)
    requires SeparateSlices(init + [last]) && last.glyphEnd <= g.glyphEnd
    ensures SeparateSlices(init + [Grown(last, g)])
    ensures last.glyphStart < last.glyphEnd
  {
    assert (init + [last])[|init|] == last;
    forall i | 0 <= i < |init| ensures init[i].glyphStart < init[i].glyphEnd < last.glyphStart {
      assert (init + [last])[i] == init[i];
    }
    forall i, j | 0 <= i < j < |init| ensures init[i].glyphEnd < init[j].glyphStart {
      assert (init + [last])[i] == init[i] && (init + [last])[j] == init[j];
    }
  }

  /** A group extending the last slice. */
  lemma GrownSlice(init: seq<Slice>, last: Slice, groups: seq<Group>, g: Group, from: nat, to: nat)
    requires SlicesOf(init + [last], groups, from, to) && Intersects(g, from, to)
    requires last.glyphEnd == g.glyphStart < g.glyphEnd
    ensures SlicesOf(init + [Grown(last, g)], groups + [g], from, to)
  {
    GrownSeparate(init, last, g);
    SelectedSnoc(groups, g, from, to);
    GrownMembers(init, last, g);
  }

  lemma SkippedGroup(slices: seq<Slice>, groups: seq<Group>, g: Group, from: nat, to: nat)
    requires SlicesOf(slices, groups, from, to) && !Intersects(g, from, to)
    ensures SlicesOf(slices, groups + [g], from, to)
  {
    SelectedSnoc(groups, g, from, to);
  }

  /** The last slice ends at the last group or at least one glyph before it. */
  predicate EndsWith(slices: seq<Slice>, n: nat, g: Group, from: nat, to: nat) {
    slices != [] ==>
      slices[|slices| - 1].glyphEnd <= n && (!Intersects(g, from, to) ==> slices[|slices| - 1].glyphEnd < n)
  }

  /** The slices of a byte range hold, in maximal stretches, exactly the glyphs of the
      clusters with bytes in the range, and advance as far as these. */
  lemma {:induction false} SlicesSelectGroups(runIndex: nat, groups: seq<Group>, n: nat, from: nat, to: nat)
    requires TileGlyphs(groups, n)
    ensures SlicesOf(SlicesFor(runIndex, groups, from, to), groups, from, to)
    ensures groups != [] ==> EndsWith(SlicesFor(runIndex, groups, from, to), n, groups[|groups| - 1], from, to)
    decreases |groups|
  {
    if groups != [] {
      var init, g := groups[..|groups| - 1], groups[|groups| - 1];
      var slices := SlicesFor(runIndex, init, from, to);
      assert groups == init + [g];
      InitTiles(groups, n);
      SlicesSelectGroups(runIndex, init, g.glyphStart, from, to);
      if !Intersects(g, from, to) {
        SkippedGroup(slices, init, g, from, to);
      } else if slices != [] && slices[|slices| - 1].glyphEnd == g.glyphStart {
        assert slices == slices[..|slices| - 1] + [slices[|slices| - 1]];
        GrownSlice(slices[..|slices| - 1], slices[|slices| - 1], init, g, from, to);
      } else {
        NewSlice(slices, init, g, from, to, Slice(runIndex, g.glyphStart, g.glyphEnd, g.xAdvance));
      }
    }
  }

  /** The advance of the groups whose glyphs lie between `a` and `b`. */
  function AdvanceWithin(groups: seq<Group>, a: nat, b: nat): real {
    if groups == [] then 0.0
    else
      var g := groups[|groups| - 1];
      AdvanceWithin(groups[..|groups| - 1], a, b) + if a <= g.glyphStart && g.glyphEnd <= b then g.xAdvance else 0.0
  }

  /** The slice is one of this run and advances as far as the groups it spans. */
  ghost predicate IsWhole(s: Slice, runIndex: nat, groups: seq<Group>) {
    s.runIndex == runIndex && s.xAdvance == AdvanceWithin(groups, s.glyphStart, s.glyphEnd)
  }

  ghost predicate AllWhole(slices: seq<Slice>, runIndex: nat, groups: seq<Group>) {
    forall i :: 0 <= i < |slices| ==> IsWhole(slices[i], runIndex, groups)
  }

  lemma WithinSnoc(groups: seq<Group>, g: Group, a: nat, b: nat)
    ensures AdvanceWithin(groups + [g], a, b) ==
            AdvanceWithin(groups, a, b) + if a <= g.glyphStart && g.glyphEnd <= b then g.xAdvance else 0.0
  {
    assert (groups + [g])[..|groups|] == groups;
  }

  /** Beyond the glyphs of all groups nothing is added. */
  lemma {:induction false} NothingBeyond(groups: seq<Group>, n: nat, a: nat, b: nat, c: nat)
    requires TileGlyphs(groups, n) && n <= b && n <= c
    ensures AdvanceWithin(groups, a, b) == AdvanceWithin(groups, a, c)
    ensures a >= n ==> AdvanceWithin(groups, a, b) == 0.0
    decreases |groups|
  {
    if groups != [] {
      InitTiles(groups, n);
      NothingBeyond(groups[..|groups| - 1], groups[|groups| - 1].glyphStart, a, b, c);
    }
  }

  lemma WholeStaysWhole(slices: seq<Slice>, runIndex: nat, groups: seq<Group>, g: Group)
    requires AllWhole(slices, runIndex, groups)
    requires forall i :: 0 <= i < |slices| ==> slices[i].glyphEnd < g.glyphEnd
    ensures AllWhole(slices, runIndex, groups + [g])
  {
    forall i | 0 <= i < |slices| ensures IsWhole(slices[i], runIndex, groups + [g]) {
      WithinSnoc(groups, g, slices[i].glyphStart, slices[i].glyphEnd);
    }
  }

  lemma GrownIsWhole(s: Slice, runIndex: nat, groups: seq<Group>, g: Group)
    requires TileGlyphs(groups, g.glyphStart) && IsWhole(s, runIndex, groups)
    requires s.glyphStart < s.glyphEnd == g.glyphStart < g.glyphEnd
    ensures IsWhole(Grown(s, g), runIndex, groups + [g])
  {
    WithinSnoc(groups, g, s.glyphStart, g.glyphEnd);
    NothingBeyond(groups, g.glyphStart, s.glyphStart, g.glyphStart, g.glyphEnd);
  }

  lemma NewIsWhole(runIndex: nat, groups: seq<Group>, g: Group)
    requires TileGlyphs(groups, g.glyphStart) && g.glyphStart < g.glyphEnd
    ensures IsWhole(Slice(runIndex, g.glyphStart, g.glyphEnd, g.xAdvance), runIndex, groups + [g])
  {
    WithinSnoc(groups, g, g.glyphStart, g.glyphEnd);
    NothingBeyond(groups, g.glyphStart, g.glyphStart, g.glyphEnd, g.glyphEnd);
  }

  lemma SlicesEndBy(runIndex: nat, groups: seq<Group>, n: nat, from: nat, to: nat)
    requires TileGlyphs(groups, n)
    ensures var slices := SlicesFor(runIndex, groups, from, to);
            && SeparateSlices(slices)
            && forall i :: 0 <= i < |slices| ==> slices[i].glyphEnd <= n
  {
    SlicesSelectGroups(runIndex, groups, n, from, to);
  }

  /** Every slice is one of the run and advances as far as the groups it spans. */
  lemma {:induction false} SlicesAreWhole(runIndex: nat, groups: seq<Group>, n: nat, from: nat, to: nat)
    requires TileGlyphs(groups, n)
    ensures AllWhole(SlicesFor(runIndex, groups, from, to), runIndex, groups)
    decreases |groups|
  {
    if groups != [] {
      var init, g := groups[..|groups| - 1], groups[|groups| - 1];
      var slices := SlicesFor(runIndex, init, from, to);
      assert groups == init + [g];
      InitTiles(groups, n);
      SlicesAreWhole(runIndex, init, g.glyphStart, from, to);
      SlicesEndBy(runIndex, init, g.glyphStart, from, to);
      WholeStaysWhole(slices, runIndex, init, g);
      if Intersects(g, from, to) {
        if slices != [] && slices[|slices| - 1].glyphEnd == g.glyphStart {
          GrownIsWhole(slices[|slices| - 1], runIndex, init, g);
        } else {
          NewIsWhole(runIndex, init, g);
        }
      }
    }
  }

  function GlyphRanges(slices: seq<Slice>): (r: seq<Ranges.Range>)
    ensures |r| == |slices|
  {
    seq(|slices|, i requires 0 <= i < |slices| => Ranges.Range(slices[i].glyphStart, slices[i].glyphEnd))
  }

  lemma RangesHoldGlyphs(slices: seq<Slice>, k: nat)
    ensures Ranges.Covers(GlyphRanges(slices), k) <==> InSlices(slices, k)
  {
    if i :| 0 <= i < |slices| && slices[i].glyphStart <= k < slices[i].glyphEnd {
      assert Ranges.Holds(GlyphRanges(slices)[i], k);
    }
  }

  /** Slices that keep apart are determined by the glyphs they hold. */
  lemma SeparateIsUnique(a: seq<Slice>, b: seq<Slice>)
    requires SeparateSlices(a) && SeparateSlices(b)
    requires forall k: nat :: InSlices(a, k) <==> InSlices(b, k)
    ensures |a| == |b|
    ensures forall i :: 0 <= i < |a| ==> a[i].glyphStart == b[i].glyphStart && a[i].glyphEnd == b[i].glyphEnd
  {
    var x, y := GlyphRanges(a), GlyphRanges(b);
    forall k: nat ensures Ranges.Covers(x, k) <==> Ranges.Covers(y, k) {
      RangesHoldGlyphs(a, k);
      RangesHoldGlyphs(b, k);
    }
    Ranges.CanonicalIsUnique(x, y);
    assert forall i :: 0 <= i < |a| ==> x[i] == Ranges.Range(a[i].glyphStart, a[i].glyphEnd);
    assert forall i :: 0 <= i < |b| ==> y[i] == Ranges.Range(b[i].glyphStart, b[i].glyphEnd);
  }

  /** The slices are determined: they keep apart, hold exactly the glyphs of the clusters
      with bytes in the range, name their run and advance each as far as its clusters.
      No other slices have all of this. */
  lemma SlicesAreDetermined(runIndex: nat, groups: seq<Group>, n: nat, from: nat, to: nat, slices: seq<Slice>)
    requires TileGlyphs(groups, n)
    ensures slices == SlicesFor(runIndex, groups, from, to) <==>
            && SeparateSlices(slices) && AllWhole(slices, runIndex, groups)
            && forall k: nat :: InSlices(slices, k) <==> Selected(groups, from, to, k)
  {
    SlicesSelectGroups(runIndex, groups, n, from, to);
    SlicesAreWhole(runIndex, groups, n, from, to);
    var it := SlicesFor(runIndex, groups, from, to);
    if SeparateSlices(slices) && AllWhole(slices, runIndex, groups)
       && forall k: nat :: InSlices(slices, k) <==> Selected(groups, from, to, k)
    {
      assert forall k: nat :: InSlices(slices, k) <==> InSlices(it, k);
      SeparateIsUnique(slices, it);
      forall i | 0 <= i < |slices| ensures slices[i] == it[i] {
        assert IsWhole(slices[i], runIndex, groups) && IsWhole(it[i], runIndex, groups);
      }
    }
  }

  function Pending(current: Option<Slice>): seq<Slice> {
    if current.Some? then [current.value] else []
  }

  lemma SlicesForNext(runIndex: nat, groups: seq<Group>, i: nat, from: nat, to: nat)
    requires i < |groups|
    ensures SlicesFor(runIndex, groups[..i + 1], from, to) ==
            AddGroup(runIndex, SlicesFor(runIndex, groups[..i], from, to), groups[i], from, to)
  {
    assert groups[..i + 1][..i] == groups[..i];
  }

  lemma PendingNothing(slices: seq<Slice>)
    ensures slices + Pending(None) == slices
  {
  }

  lemma PendingGrows(runIndex: nat, slices: seq<Slice>, s: Slice, g: Group, from: nat, to: nat)
    requires Intersects(g, from, to) && s.glyphEnd == g.glyphStart
    ensures AddGroup(runIndex, slices + Pending(Some(s)), g, from, to) == slices + Pending(Some(Grown(s, g)))
  {
    assert (slices + [s])[..|slices|] == slices;
  }

  lemma PendingStarts(runIndex: nat, slices: seq<Slice>, g: Group, from: nat, to: nat)
    requires Intersects(g, from, to) && (slices != [] ==> slices[|slices| - 1].glyphEnd != g.glyphStart)
    ensures AddGroup(runIndex, slices + Pending(None), g, from, to) ==
            slices + Pending(Some(Slice(runIndex, g.glyphStart, g.glyphEnd, g.xAdvance)))
  {
    PendingNothing(slices);
  }

  lemma PendingCloses(slices: seq<Slice>, current: Option<Slice>)
    ensures slices + Pending(current) + Pending(None) == slices + Pending(current)
    ensures current.None? ==> slices + Pending(current) == slices
  {
  }

  /** Where the slices so far and the open one end. */
  ghost predicate PendingEnds(slices: seq<Slice>, current: Option<Slice>, last: nat) {
    match current
    case Some(slice) => slice.glyphEnd == last
    case None => slices != [] ==> slices[|slices| - 1].glyphEnd < last
  }

  method RunSlicesForByteRange(runIndex: nat, groups: seq<Group>, from: nat, to: nat, ghost n: nat)
    returns (slices: seq<Slice>)
    requires TileGlyphs(groups, n)
    ensures slices == SlicesFor(runIndex, groups, from, to)
  {
    slices := [];
    var current: Option<Slice> := None;
    for i := 0 to |groups|
      invariant slices + Pending(current) == SlicesFor(runIndex, groups[..i], from, to)
      invariant if i == 0 then slices == [] && current == None else PendingEnds(slices, current, groups[i - 1].glyphEnd)
    {
      var g := groups[i];
      assert i > 0 ==> groups[i - 1].glyphEnd == groups[i - 1 + 1].glyphStart;
      SlicesForNext(runIndex, groups, i, from, to);
      if !Intersects(g, from, to) {
        PendingCloses(slices, current);
        if current.Some? {
          slices := slices + [current.value];
          current := None;
        }
        continue;
      }
      // the groups tile the glyphs, so an open slice ends where this group starts
      match current
      case Some(slice) =>
        PendingGrows(runIndex, slices, slice, g, from, to);
        current := Some(slice.(glyphEnd := g.glyphEnd, xAdvance := slice.xAdvance + g.xAdvance));
      case None =>
        PendingStarts(runIndex, slices, g, from, to);
        current := Some(Slice(runIndex, g.glyphStart, g.glyphEnd, g.xAdvance));
    }
    assert groups[..|groups|] == groups;
    PendingNothing(slices);
    if current.Some? {
      slices := slices + [current.value];
    }
  }

  // ----------------------------------------------------- cutting at cluster starts

  /** No group has bytes on both sides. */
  ghost predicate Boundary(groups: seq<Group>, m: nat) {
    forall i :: 0 <= i < |groups| ==> groups[i].byteEnd <= m || groups[i].byteStart >= m
  }

  /** Cluster starts and the ends of the run are boundaries, and no other bytes of the
      run are. */
  lemma BoundariesAreStarts(groups: seq<Group>, from: nat, to: nat, m: nat)
    requires TileBytes(groups, from, to) && from <= m <= to
    ensures Boundary(groups, m) <==> m == to || exists i :: 0 <= i < |groups| && groups[i].byteStart == m
  {
    if from <= m < to {
      assert HasGroup(groups, m);
      var k :| 0 <= k < |groups| && InGroup(groups[k], m);
      if groups[k].byteStart == m {
        forall i | 0 <= i < |groups| ensures groups[i].byteEnd <= m || groups[i].byteStart >= m {
          if i < k { assert groups[i].byteEnd <= groups[k].byteStart || groups[k].byteEnd <= groups[i].byteStart; }
          if k < i { assert groups[k].byteEnd <= groups[i].byteStart || groups[i].byteEnd <= groups[k].byteStart; }
        }
      }
    }
  }

  lemma {:induction false} AdvanceSplits(groups: seq<Group>, a: nat, m: nat, b: nat)
    requires forall i :: 0 <= i < |groups| ==> groups[i].byteStart < groups[i].byteEnd
    requires Boundary(groups, m) && a < m < b
    ensures SelectedAdvance(groups, a, b) == SelectedAdvance(groups, a, m) + SelectedAdvance(groups, m, b)
  {
    if groups != [] {
      AdvanceSplits(groups[..|groups| - 1], a, m, b);
    }
  }

  ghost predicate Cuts(groups: seq<Group>, cuts: seq<nat>) {
    && |cuts| >= 2
    && (forall i, j :: 0 <= i < j < |cuts| ==> cuts[i] < cuts[j])
    && (forall i :: 0 <= i < |cuts| ==> Boundary(groups, cuts[i]))
  }

  function PiecesAdvance(groups: seq<Group>, cuts: seq<nat>): real {
    if |cuts| < 2 then 0.0 else SelectedAdvance(groups, cuts[0], cuts[1]) + PiecesAdvance(groups, cuts[1..])
  }

  lemma {:induction false} PiecesAddUp(groups: seq<Group>, cuts: seq<nat>)
    requires forall i :: 0 <= i < |groups| ==> groups[i].byteStart < groups[i].byteEnd
    requires Cuts(groups, cuts)
    ensures PiecesAdvance(groups, cuts) == SelectedAdvance(groups, cuts[0], cuts[|cuts| - 1])
    decreases |cuts|
  {
    if |cuts| > 2 {
      PiecesAddUp(groups, cuts[1..]);
      AdvanceSplits(groups, cuts[0], cuts[1], cuts[|cuts| - 1]);
    } else {
      assert PiecesAdvance(groups, cuts[1..]) == 0.0;
    }
  }

  function TotalAdvance(groups: seq<Group>): real {
    if groups == [] then 0.0 else TotalAdvance(groups[..|groups| - 1]) + groups[|groups| - 1].xAdvance
  }

  lemma {:induction false} WholeRunIsTotal(groups: seq<Group>, from: nat, to: nat)
    requires forall i :: 0 <= i < |groups| ==> from <= groups[i].byteStart < groups[i].byteEnd <= to
    ensures SelectedAdvance(groups, from, to) == TotalAdvance(groups)
  {
    if groups != [] {
      WholeRunIsTotal(groups[..|groups| - 1], from, to);
    }
  }

  lemma {:induction false} AdvanceAppend(a: seq<Glyph>, b: seq<Glyph>, scale: real)
    ensures Advance(a + b, scale) == Advance(a, scale) + Advance(b, scale)
    decreases |b|
  {
    if b == [] {
      assert a + b == a;
    } else {
      assert (a + b)[..|a + b| - 1] == a + b[..|b| - 1];
      AdvanceAppend(a, b[..|b| - 1], scale);
    }
  }

  /** The total over the groups is the advance of the run's glyphs. */
  lemma {:induction false} TotalIsGlyphAdvance(
    groups: seq<Group>, glyphs: seq<Glyph>, n: nat, runStart: nat, scale: real)
    requires n <= |glyphs| && GroupsOf(groups, glyphs, n, runStart, scale)
    ensures TotalAdvance(groups) == Advance(glyphs[..n], scale)
    decreases |groups|
  {
    if groups != [] {
      var init, g := groups[..|groups| - 1], groups[|groups| - 1];
      assert GroupIs(g, glyphs, runStart, scale);
      TotalIsGlyphAdvance(init, glyphs, g.glyphStart, runStart, scale);
      AdvanceAppend(glyphs[..g.glyphStart], glyphs[g.glyphStart..n], scale);
      assert glyphs[..n] == glyphs[..g.glyphStart] + glyphs[g.glyphStart..n];
    }
  }

  /** The slices of every piece between two cuts, together. */
  function PiecesSlicesAdvance(runIndex: nat, groups: seq<Group>, cuts: seq<nat>): real {
    if |cuts| < 2 then 0.0
    else SlicesAdvance(SlicesFor(runIndex, groups, cuts[0], cuts[1])) + PiecesSlicesAdvance(runIndex, groups, cuts[1..])
  }

  lemma {:induction false} SlicesAdvanceAsGroups(runIndex: nat, groups: seq<Group>, n: nat, cuts: seq<nat>)
    requires TileGlyphs(groups, n)
    ensures PiecesSlicesAdvance(runIndex, groups, cuts) == PiecesAdvance(groups, cuts)
    decreases |cuts|
  {
    if |cuts| >= 2 {
      SlicesSelectGroups(runIndex, groups, n, cuts[0], cuts[1]);
      SlicesAdvanceAsGroups(runIndex, groups, n, cuts[1..]);
    }
  }

  /** Cutting the bytes of a well-shaped run at cluster starts conserves the advance:
      the slices of the pieces together advance as much as all glyphs of the run. */
  lemma {:induction false} SlicingConservesAdvance(
    runIndex: nat, groups: seq<Group>, glyphs: seq<Glyph>, runStart: nat, textLen: nat, scale: real, cuts: seq<nat>)
    requires GroupsOf(groups, glyphs, |glyphs|, runStart, scale)
    requires TileBytes(groups, runStart, runStart + textLen)
    requires Cuts(groups, cuts) && cuts[0] == runStart && cuts[|cuts| - 1] == runStart + textLen
    ensures PiecesSlicesAdvance(runIndex, groups, cuts) == Advance(glyphs, scale)
  {
    SlicesAdvanceAsGroups(runIndex, groups, |glyphs|, cuts);
    PiecesAddUp(groups, cuts);
    WholeRunIsTotal(groups, runStart, runStart + textLen);
    TotalIsGlyphAdvance(groups, glyphs, |glyphs|, runStart, scale);
    assert glyphs[..|glyphs|] == glyphs;
  }

  lemma {:induction false} PieceWith(cuts: seq<nat>, b: nat, n: nat) returns (i: nat)
    requires 2 <= n <= |cuts| && cuts[0] <= b < cuts[n - 1]
    ensures i + 1 < n && cuts[i] <= b < cuts[i + 1]
  {
    if n == 2 || b >= cuts[n - 2] {
      i := n - 2;
    } else {
      i := PieceWith(cuts, b, n - 1);
    }
  }

  lemma OnePieceOnly(groups: seq<Group>, cuts: seq<nat>, z: nat, i: nat, j: nat)
    requires Cuts(groups, cuts) && z < |groups| && i + 1 < |cuts| && j + 1 < |cuts|
    requires Intersects(groups[z], cuts[i], cuts[i + 1]) && Intersects(groups[z], cuts[j], cuts[j + 1])
    ensures i == j
  {
    assert forall x, y :: 0 <= x <= y < |cuts| ==> cuts[x] <= cuts[y];
    assert Boundary(groups, cuts[i + 1]) && Boundary(groups, cuts[j + 1]);
  }

  /** Glyph `k` is in the slices of piece `i`. */
  ghost predicate InPiece(runIndex: nat, groups: seq<Group>, cuts: seq<nat>, k: nat, i: nat)
    requires i + 1 < |cuts|
  {
    InSlices(SlicesFor(runIndex, groups, cuts[i], cuts[i + 1]), k)
  }

  lemma InPieceIsSelected(
    runIndex: nat, groups: seq<Group>, n: nat, cuts: seq<nat>, k: nat, i: nat)
    requires TileGlyphs(groups, n) && i + 1 < |cuts|
    ensures InPiece(runIndex, groups, cuts, k, i) <==> Selected(groups, cuts[i], cuts[i + 1], k)
  {
    SlicesSelectGroups(runIndex, groups, n, cuts[i], cuts[i + 1]);
  }

  /** The one group of a selected glyph is among the selected. */
  lemma OneGroupOnly(groups: seq<Group>, n: nat, cuts: seq<nat>, k: nat, z: nat, j: nat)
    requires TileGlyphs(groups, n) && z < |groups| && groups[z].glyphStart <= k < groups[z].glyphEnd
    requires j + 1 < |cuts| && Selected(groups, cuts[j], cuts[j + 1], k)
    ensures Intersects(groups[z], cuts[j], cuts[j + 1])
  {
    var y :| 0 <= y < |groups| && Intersects(groups[y], cuts[j], cuts[j + 1])
             && groups[y].glyphStart <= k < groups[y].glyphEnd;
    if y < z { GlyphsInOrder(groups, n, y, z); }
    if z < y { GlyphsInOrder(groups, n, z, y); }
  }

  /** Such a cut partitions the glyphs: each is in the slices of exactly one piece. */
  lemma SlicingPartitionsGlyphs(
    runIndex: nat, groups: seq<Group>, n: nat, from: nat, to: nat, cuts: seq<nat>, k: nat) returns (i: nat)
    requires TileGlyphs(groups, n) && TileBytes(groups, from, to)
    requires Cuts(groups, cuts) && cuts[0] == from && cuts[|cuts| - 1] == to
    requires k < n
    ensures i + 1 < |cuts| && InPiece(runIndex, groups, cuts, k, i)
    ensures forall j: nat :: j + 1 < |cuts| && InPiece(runIndex, groups, cuts, k, j) ==> j == i
  {
    var z := GroupOfGlyph(groups, n, k);
    i := PieceWith(cuts, groups[z].byteStart, |cuts|);
    assert Intersects(groups[z], cuts[i], cuts[i + 1]);
    InPieceIsSelected(runIndex, groups, n, cuts, k, i);
    forall j: nat | j + 1 < |cuts| && InPiece(runIndex, groups, cuts, k, j) ensures j == i {
      InPieceIsSelected(runIndex, groups, n, cuts, k, j);
      OneGroupOnly(groups, n, cuts, k, z, j);
      OnePieceOnly(groups, cuts, z, i, j);
    }
  }
}
