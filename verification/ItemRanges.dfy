/** The item map of the pseudocode synchroniser: every visible character is recorded under the
    address of its item, then adjacent characters are merged into ranges. */
module ItemRanges {
  import opened Common

  /** One step through a tagged line: a color tag, or a visible character with the address of
      its item, if it has one. */
  datatype Piece = Tag | Visible(item: Option<nat>)

  datatype ItemPos = ItemPos(line: nat, column: nat, length: nat)

  type ItemMap = map<nat, seq<ItemPos>>

  // ----- cells -----

  predicate Covers(p: ItemPos, line: nat, column: nat) {
    p.line == line && p.column <= column < p.column + p.length
  }

  ghost predicate CellIn(ps: seq<ItemPos>, line: nat, column: nat) {
    exists i :: 0 <= i < |ps| && Covers(ps[i], line, column)
  }

  ghost predicate MapCell(m: ItemMap, address: nat, line: nat, column: nat) {
    address in m && CellIn(m[address], line, column)
  }

  /** The items of the visible characters of a line. */
  function VisibleItems(pieces: seq<Piece>): seq<Option<nat>> {
    if pieces == [] then []
    else
      var front := VisibleItems(pieces[..|pieces| - 1]);
      match pieces[|pieces| - 1]
      case Tag => front
      case Visible(item) => front + [item]
  }

  /** Character `column` of `line` belongs to an item at `address`. */
  /** The visible characters are the pieces that are no tags, in order. */
  lemma {:induction false} VisibleInOrder(xs: seq<Piece>, ys: seq<Piece>)
    ensures VisibleItems(xs + ys) == VisibleItems(xs) + VisibleItems(ys)
    ensures VisibleItems([Tag]) == [] && forall item :: VisibleItems([Visible(item)]) == [item]
    decreases |ys|
  {
    if ys == [] {
      assert xs + ys == xs;
    } else {
      var n := |ys| - 1;
      assert (xs + ys)[..|xs + ys| - 1] == xs + ys[..n];
      VisibleInOrder(xs, ys[..n]);
    }
    forall piece: Piece
      ensures VisibleItems([piece]) == match piece case Tag => [] case Visible(item) => [item]
    {
      assert [piece][..0] == [];
    }
  }

  predicate IsCell(lines: seq<seq<Piece>>, header: nat, address: nat, line: nat, column: nat) {
    && address != BAD_ADDRESS
    && header <= line < |lines|
    && column < |VisibleItems(lines[line])|
    && VisibleItems(lines[line])[column] == Some(address)
  }

  // ----- orders -----

  predicate Before(a: ItemPos, b: ItemPos) {
    a.line < b.line || (a.line == b.line && a.column < b.column)
  }

  predicate StrictlySorted(ps: seq<ItemPos>) {
    forall i, j :: 0 <= i < j < |ps| ==> Before(ps[i], ps[j])
  }

  predicate SingleCells(ps: seq<ItemPos>) {
    forall i :: 0 <= i < |ps| ==> ps[i].length == 1
  }

  /** Behind `a` with room between: neither overlapping nor joinable. */
  predicate Apart(a: ItemPos, b: ItemPos) {
    a.line < b.line || (a.line == b.line && a.column + a.length < b.column)
  }

  predicate Separated(ps: seq<ItemPos>) {
    && (forall i, j :: 0 <= i < j < |ps| ==> Apart(ps[i], ps[j]))
    && (forall i :: 0 <= i < |ps| ==> ps[i].length > 0)
  }

  // ----- sorting: `std::sort` by line, then column -----

  function Insert(p: ItemPos, ps: seq<ItemPos>): seq<ItemPos> {
    if ps == [] || !Before(ps[0], p) then [p] + ps else [ps[0]] + Insert(p, ps[1..])
  }

  function Sort(ps: seq<ItemPos>): seq<ItemPos> {
    if ps == [] then [] else Insert(ps[0], Sort(ps[1..]))
  }

  predicate Sorted(ps: seq<ItemPos>) {
    forall i, j :: 0 <= i < j < |ps| ==> !Before(ps[j], ps[i])
  }

  lemma {:induction false} InsertSorts(p: ItemPos, ps: seq<ItemPos>)
    requires Sorted(ps)
    ensures Sorted(Insert(p, ps)) && multiset(Insert(p, ps)) == multiset(ps) + multiset{p}
  {
    if ps != [] && Before(ps[0], p) {
      InsertSorts(p, ps[1..]);
      var rest := Insert(p, ps[1..]);
      assert ps == [ps[0]] + ps[1..];
      forall j | 0 <= j < |rest|
        ensures !Before(rest[j], ps[0])
      {
        assert rest[j] in multiset(rest);
        assert rest[j] == p || rest[j] in ps[1..];
      }
    }
  }

  /** Sorting gives the same positions in order. */
  lemma {:induction false} SortSorts(ps: seq<ItemPos>)
    ensures Sorted(Sort(ps)) && multiset(Sort(ps)) == multiset(ps)
  {
    if ps != [] {
      SortSorts(ps[1..]);
      InsertSorts(ps[0], Sort(ps[1..]));
      assert ps == [ps[0]] + ps[1..];
    }
  }

  /** No position is recorded twice. */
  ghost predicate RecordedOnce(ps: seq<ItemPos>) {
    forall p :: multiset(ps)[p] <= 1
  }

  lemma RepeatCounts(ps: seq<ItemPos>, i: nat, j: nat)
    requires i < j < |ps| && ps[i] == ps[j]
    ensures multiset(ps)[ps[i]] >= 2
  {
    assert ps == ps[..j] + [ps[j]] + ps[j + 1..];
    assert ps[..j][i] == ps[i] && ps[i] in multiset(ps[..j]);
  }

  lemma {:induction false} StrictMeansOnce(ps: seq<ItemPos>)
    requires StrictlySorted(ps)
    ensures RecordedOnce(ps)
  {
    if ps != [] {
      assert ps == [ps[0]] + ps[1..];
      StrictMeansOnce(ps[1..]);
      assert forall p :: p in ps[1..] ==> Before(ps[0], p);
    }
  }

  /** Sorted single cells without repeats are strictly sorted. */
  lemma SortedStrictly(ps: seq<ItemPos>)
    requires Sorted(ps) && SingleCells(ps) && RecordedOnce(ps)
    ensures StrictlySorted(ps)
  {
    forall i, j | 0 <= i < j < |ps|
      ensures Before(ps[i], ps[j])
    {
      if ps[i] == ps[j] {
        RepeatCounts(ps, i, j);
      }
    }
  }

  lemma SameMembersSameCells(xs: seq<ItemPos>, ys: seq<ItemPos>, line: nat, column: nat)
    requires multiset(xs) == multiset(ys) && CellIn(xs, line, column)
    ensures CellIn(ys, line, column)
  {
    var i :| 0 <= i < |xs| && Covers(xs[i], line, column);
    assert xs[i] in multiset(ys);
    var k :| 0 <= k < |ys| && ys[k] == xs[i];
    assert Covers(ys[k], line, column);
  }

  lemma SortedForMerge(positions: seq<ItemPos>)
    ensures forall line, column :: CellIn(Sort(positions), line, column) <==> CellIn(positions, line, column)
    ensures SingleCells(positions) && RecordedOnce(positions) ==>
              StrictlySorted(Sort(positions)) && SingleCells(Sort(positions))
    ensures |Sort(positions)| == |positions|
  {
    var sorted := Sort(positions);
    SortSorts(positions);
    assert |sorted| == |multiset(sorted)|;
    forall line, column
      ensures CellIn(sorted, line, column) <==> CellIn(positions, line, column)
    {
      if CellIn(sorted, line, column) { SameMembersSameCells(sorted, positions, line, column); }
      if CellIn(positions, line, column) { SameMembersSameCells(positions, sorted, line, column); }
    }
    if SingleCells(positions) && RecordedOnce(positions) {
      forall i | 0 <= i < |sorted|
        ensures sorted[i].length == 1
      {
        assert sorted[i] in multiset(positions);
      }
      SortedStrictly(sorted);
    }
  }

  // ----- merging -----

  lemma CellInAppend(ps: seq<ItemPos>, p: ItemPos, line: nat, column: nat)
    ensures CellIn(ps + [p], line, column) <==> CellIn(ps, line, column) || Covers(p, line, column)
  {
    if CellIn(ps, line, column) {
      var i :| 0 <= i < |ps| && Covers(ps[i], line, column);
      assert Covers((ps + [p])[i], line, column);
    }
    if Covers(p, line, column) {
      assert Covers((ps + [p])[|ps|], line, column);
    }
  }

  /** The merge keeps exactly the cells of the positions, in any order and of any length; for
      single cells recorded once each, as ranges of which no two can be joined. */
  method MergePositions(positions: seq<ItemPos>) returns (merged: seq<ItemPos>)
    ensures forall line, column :: CellIn(merged, line, column) <==> CellIn(positions, line, column)
    ensures SingleCells(positions) && RecordedOnce(positions) ==> Separated(merged)
  {
    if |positions| <= 1 { return positions; }
    var sorted := Sort(positions);
    SortedForMerge(positions);
    ghost var tidy := StrictlySorted(sorted) && SingleCells(sorted);
    merged := [sorted[0]];
    for j := 1 to |sorted|
      invariant merged != []
      invariant tidy ==> Separated(merged) && EndsWith(merged, sorted[j - 1])
      invariant forall line, column :: CellIn(merged, line, column) <==> CellIn(sorted[..j], line, column)
    {
      var last := merged[|merged| - 1];
      var next := sorted[j];
      ghost var front := merged[..|merged| - 1];
      assert merged == front + [last];
      assert sorted[..j + 1] == sorted[..j] + [next];
      assert tidy ==> Before(sorted[j - 1], next) && next.length == 1;
      if next.line == last.line && next.column == last.column + last.length {
        merged := merged[|merged| - 1 := last.(length := last.length + next.length)];
        assert merged == front + [last.(length := last.length + next.length)];
      } else {
        merged := merged + [next];
      }
      forall line, column
        ensures CellIn(merged, line, column) <==> CellIn(sorted[..j + 1], line, column)
      {
        CellInAppend(sorted[..j], next, line, column);
        CellInAppend(front, last, line, column);
        CellInAppend(front, merged[|front|], line, column);
        CellInAppend(front + [last], next, line, column);
      }
    }
    assert sorted[..|sorted|] == sorted;
  }

  /** The last range ends with the cell `p`. */
  predicate EndsWith(ranges: seq<ItemPos>, p: ItemPos) {
    ranges != [] &&
    var last := ranges[|ranges| - 1];
    last.line == p.line && last.column + last.length == p.column + 1
  }

  /** Separated ranges are determined by their cells, so the merge has only one possible
      result. */
  lemma {:induction false} RangesAreCanonical(xs: seq<ItemPos>, ys: seq<ItemPos>)
    requires Separated(xs) && Separated(ys)
    requires forall line, column :: CellIn(xs, line, column) <==> CellIn(ys, line, column)
    ensures xs == ys
  {
    if ys != [] {
      FirstCell(ys);
      assert CellIn(xs, ys[0].line, ys[0].column);
    }
    if xs != [] {
      FirstCell(xs);
      assert CellIn(ys, xs[0].line, xs[0].column);
      LongestRun(xs, ys);
      LongestRun(ys, xs);
      forall line, column
        ensures CellIn(xs[1..], line, column) <==> CellIn(ys[1..], line, column)
      {
        TailCells(xs, line, column);
        TailCells(ys, line, column);
      }
      RangesAreCanonical(xs[1..], ys[1..]);
      assert xs == [xs[0]] + xs[1..] && ys == [ys[0]] + ys[1..];
    }
  }

  /** The first range starts at the least cell. */
  lemma FirstCell(ps: seq<ItemPos>)
    requires Separated(ps) && ps != []
    ensures CellIn(ps, ps[0].line, ps[0].column)
    ensures forall line, column :: CellIn(ps, line, column) ==>
              ps[0].line < line || (ps[0].line == line && ps[0].column <= column)
  {
  }

  lemma LongestRun(xs: seq<ItemPos>, ys: seq<ItemPos>)
    requires Separated(xs) && Separated(ys) && xs != [] && ys != []
    requires xs[0].line == ys[0].line && xs[0].column == ys[0].column
    requires forall line, column :: CellIn(xs, line, column) <==> CellIn(ys, line, column)
    ensures ys[0].length <= xs[0].length
  {
    var line, behind := xs[0].line, xs[0].column + xs[0].length;
    assert !CellIn(xs, line, behind);
    assert xs[0].length < ys[0].length ==> Covers(ys[0], line, behind);
  }

  lemma TailCells(ps: seq<ItemPos>, line: nat, column: nat)
    requires Separated(ps) && ps != []
    ensures CellIn(ps[1..], line, column) <==> CellIn(ps, line, column) && !Covers(ps[0], line, column)
  {
  }

  // ----- recording -----

  /** `m` holds the cells before column `column` of line `line`, each as one position, in order. */
  ghost predicate Recorded(m: ItemMap, lines: seq<seq<Piece>>, header: nat, line: nat, column: nat) {
    && (forall a :: a in m ==> StrictlySorted(m[a]) && SingleCells(m[a]))
    && (forall a, i :: a in m && 0 <= i < |m[a]| ==> Before(m[a][i], ItemPos(line, column, 1)))
    && (forall a, l: nat, c: nat ::
          MapCell(m, a, l, c) <==> IsCell(lines, header, a, l, c) && (l < line || (l == line && c < column)))
  }

  method RecordLine(before: ItemMap, lines: seq<seq<Piece>>, header: nat, line: nat) returns (m: ItemMap)
    requires header <= line < |lines| && Recorded(before, lines, header, line, 0)
    ensures Recorded(m, lines, header, line + 1, 0)
  {
    m := before;
    var pieces := lines[line];
    var column: nat := 0;
    for k := 0 to |pieces|
      invariant column == |VisibleItems(pieces[..k])| && VisibleItems(pieces[..k]) <= VisibleItems(pieces)
      invariant Recorded(m, lines, header, line, column)
    {
      assert pieces[..k + 1][..k] == pieces[..k];
      VisiblePrefix(pieces, k + 1);
      if pieces[k] == Tag {
        continue;
      }
      assert VisibleItems(pieces)[column] == pieces[k].item;
      var item := pieces[k].item;
      if item.Some? && item.value != BAD_ADDRESS {
        var earlier := if item.value in m then m[item.value] else [];
        ghost var old_ := m;
        m := m[item.value := earlier + [ItemPos(line, column, 1)]];
        RecordedNext(old_, m, lines, header, line, column, item.value);
      } else {
        RecordedSkip(m, lines, header, line, column);
      }
      column := column + 1;
    }
    assert pieces[..|pieces|] == pieces;
    RecordedLineEnd(m, lines, header, line, column);
  }

  lemma {:induction false} VisiblePrefix(pieces: seq<Piece>, k: nat)
    requires k <= |pieces|
    ensures VisibleItems(pieces[..k]) <= VisibleItems(pieces)
    decreases |pieces|
  {
    if k < |pieces| {
      VisiblePrefix(pieces[..|pieces| - 1], k);
      assert pieces[..|pieces| - 1][..k] == pieces[..k];
    } else {
      assert pieces[..k] == pieces;
    }
  }

  lemma RecordedSkip(m: ItemMap, lines: seq<seq<Piece>>, header: nat, line: nat, column: nat)
    requires Recorded(m, lines, header, line, column)
    requires forall a :: !IsCell(lines, header, a, line, column)
    ensures Recorded(m, lines, header, line, column + 1)
  {
  }

  lemma RecordedNext(m: ItemMap, n: ItemMap, lines: seq<seq<Piece>>, header: nat, line: nat, column: nat, address: nat)
    requires Recorded(m, lines, header, line, column)
    requires forall a :: IsCell(lines, header, a, line, column) <==> a == address
    requires n == m[address := (if address in m then m[address] else []) + [ItemPos(line, column, 1)]]
    ensures Recorded(n, lines, header, line, column + 1)
  {
    var earlier := if address in m then m[address] else [];
    forall a, i | a in n && 0 <= i < |n[a]|
      ensures Before(n[a][i], ItemPos(line, column + 1, 1))
    {
      if !(a == address && i == |earlier|) {
        assert n[a][i] == m[a][i] && Before(m[a][i], ItemPos(line, column, 1));
      }
    }
    forall i | 0 <= i < |earlier|
      ensures Before(earlier[i], ItemPos(line, column, 1))
    {
      assert Before(m[address][i], ItemPos(line, column, 1));
    }
    forall a, l: nat, c: nat
      ensures MapCell(n, a, l, c) <==> IsCell(lines, header, a, l, c) && (l < line || (l == line && c < column + 1))
    {
      CellInAppend(earlier, ItemPos(line, column, 1), l, c);
      assert MapCell(m, a, l, c) <==> IsCell(lines, header, a, l, c) && (l < line || (l == line && c < column));
      if a == address {
        assert CellIn(earlier, l, c) <==> MapCell(m, a, l, c);
      }
    }
  }

  lemma RecordedLineEnd(m: ItemMap, lines: seq<seq<Piece>>, header: nat, line: nat, column: nat)
    requires header <= line < |lines| && column == |VisibleItems(lines[line])|
    requires Recorded(m, lines, header, line, column)
    ensures Recorded(m, lines, header, line + 1, 0)
  {
  }

  /** For each address the map holds exactly the cells of its items, as separated ranges. */
  method RebuildMap(header: nat, lines: seq<seq<Piece>>) returns (m: ItemMap)
    ensures forall a :: a in m ==> Separated(m[a])
    ensures forall a, line, column :: MapCell(m, a, line, column) <==> IsCell(lines, header, a, line, column)
  {
    m := map[];
    var line := header;
    assert forall a, l, c :: !MapCell(m, a, l, c);
    while line < |lines|
      invariant line <= |lines| || line == header
      invariant Recorded(m, lines, header, line, 0)
    {
      m := RecordLine(m, lines, header, line);
      line := line + 1;
    }
    ghost var recorded := m;
    var open := m.Keys;
    while open != {}
      invariant open <= m.Keys == recorded.Keys
      invariant forall a :: a in open ==> m[a] == recorded[a]
      invariant forall a :: a in m && a !in open ==> Separated(m[a])
      invariant forall a, l, c :: MapCell(m, a, l, c) <==> MapCell(recorded, a, l, c)
      decreases open
    {
      ghost var some := ElementOf(open);
      var a :| a in open;
      StrictMeansOnce(m[a]);
      var merged := MergePositions(m[a]);
      ghost var before := m;
      m := m[a := merged];
      open := open - {a};
      forall b, l, c
        ensures MapCell(m, b, l, c) <==> MapCell(before, b, l, c)
      {
      }
    }
  }
}
