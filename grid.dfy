/** A fixed-size two-dimensional grid of cells with bounds-checked access, a
    cell-changed event and two traversals in column order (x outer, y
    inner). The event is modelled by `events`, the log of every
    `(coordinate, value)` it was raised with; the optional cell factory by a
    function from coordinates to cells. */
module Grids {
  import opened Common

  /** `Vector2Int`, as used for sizes and coordinates. */
  datatype Coord = Coord(x: int, y: int)

  /** The coordinates of column `x`, y ascending. */
  function Column(x: int, height: nat): (cs: seq<Coord>)
    ensures |cs| == height && forall y :: 0 <= y < height ==> cs[y] == Coord(x, y)
  {
    seq(height, y => Coord(x, y))
  }

  /** The coordinates of the first `width` columns, in traversal order. */
  function Coords(width: nat, height: nat): seq<Coord>
  {
    if width == 0 then [] else Coords(width - 1, height) + Column(width - 1, height)
  }

  /** Traversal order: x ascending, then y ascending. */
  predicate Before(a: Coord, b: Coord)
  {
    a.x < b.x || (a.x == b.x && a.y < b.y)
  }

  /** The traversal order lists every cell of a `width` by `height` grid
      exactly once, x outer and y inner. */
  lemma {:induction false} CoordsAreTheCells(width: nat, height: nat)
    ensures |Coords(width, height)| == width * height
    ensures forall c :: c in Coords(width, height) <==> 0 <= c.x < width && 0 <= c.y < height
    ensures forall i, j :: 0 <= i < j < |Coords(width, height)| ==>
              Before(Coords(width, height)[i], Coords(width, height)[j])
  {
    if width > 0 {
      CoordsAreTheCells(width - 1, height);
      var prev, col := Coords(width - 1, height), Column(width - 1, height);
      assert Coords(width, height) == prev + col;
      forall c: Coord ensures c in prev + col <==> 0 <= c.x < width && 0 <= c.y < height {
        if 0 <= c.x < width && 0 <= c.y < height && c.x == width - 1 {
          assert col[c.y] == c;
        }
      }
      assert (width - 1) * height + height == width * height;
      forall i, j | 0 <= i < j < |prev + col| ensures Before((prev + col)[i], (prev + col)[j]) {
        if i < |prev| && j >= |prev| {
          assert prev[i] in prev;
        }
      }
    }
  }

  class Grid<T> {
    /** `Size.x` and `Size.y`. */
    const width: int
    const height: int
    /** `_matrix`, indexed `[x, y]`. */
    const matrix: array2<T>
    /** `default(TCell)`, returned for coordinates outside the grid. */
    const zero: T
    /** Every raising of `GridCellChangedEvent`, in order. */
    var events: seq<(Coord, T)>
    /** The coordinates the factory was asked for, in order. */
    var created: seq<Coord>

    predicate Valid()
    {
      0 <= width && 0 <= height && matrix.Length0 == width && matrix.Length1 == height
    }

    /** With a factory every cell is `factory(coordinate)`, created in
        traversal order; without one every cell is the default. Nothing is
        raised. (A negative size makes the array allocation throw; that case
        is excluded.) */
    constructor (width: nat, height: nat, zero: T, factory: Option<Coord -> T>)
      ensures Valid() && this.width == width && this.height == height && this.zero == zero
      ensures fresh(matrix)
      ensures factory.None? ==> created == []
      ensures factory.None? ==> forall x, y :: 0 <= x < width && 0 <= y < height ==> matrix[x, y] == zero
      ensures factory.Some? ==> created == Coords(width, height)
      ensures factory.Some? ==>
        forall x, y :: 0 <= x < width && 0 <= y < height ==> matrix[x, y] == factory.value(Coord(x, y))
      ensures events == []
    {
      this.width := width;
      this.height := height;
      this.zero := zero;
      matrix := new T[width, height]((x, y) => zero);
      events := [];
      created := [];
      new;
      if factory.None? {
        return;
      }
      var create := factory.value;
      var x := 0;
      while x < width
        invariant 0 <= x <= width
        invariant created == Coords(x, height)
        invariant forall i, j :: 0 <= i < x && 0 <= j < height ==> matrix[i, j] == create(Coord(i, j))
        modifies matrix, this
        invariant events == []
      {
        FillColumn(x, create);
        x := x + 1;
      }
    }

    /** One column of the constructor: the factory is asked for the cells
        of column `x` in order, and each result is stored. */
    method FillColumn(x: nat, create: Coord -> T)
      requires Valid() && x < width
      requires created == Coords(x, height)
      requires forall i, j :: 0 <= i < x && 0 <= j < height ==> matrix[i, j] == create(Coord(i, j))
      modifies matrix, this
      ensures created == Coords(x + 1, height) && events == old(events)
      ensures forall i, j :: 0 <= i <= x && 0 <= j < height ==> matrix[i, j] == create(Coord(i, j))
    {
      var y := 0;
      while y < height
        invariant 0 <= y <= height
        invariant created == Coords(x, height) + Column(x, height)[..y]
        invariant forall i, j :: 0 <= i < x && 0 <= j < height ==> matrix[i, j] == create(Coord(i, j))
        invariant forall j :: 0 <= j < y ==> matrix[x, j] == create(Coord(x, j))
        invariant events == old(events)
      {
        matrix[x, y] := create(Coord(x, y));
        created := created + [Coord(x, y)];
        assert Column(x, height)[..y + 1] == Column(x, height)[..y] + [Coord(x, y)];
        y := y + 1;
      }
      assert Column(x, height)[..height] == Column(x, height);
    }

    /** Inside the bounds of the grid: exactly the coordinates the
        traversals visit. */
    predicate IsValidCoordinate(c: Coord): (r: bool)
      ensures Valid() ==> (r <==> c in Coords(width, height))
    {
      var inside := 0 <= c.x && 0 <= c.y && c.x < width && c.y < height;
      if width < 0 || height < 0 then inside
      else CoordsAreTheCells(width, height); inside
    }

    /** The stored cell, or the default outside the grid. */
    function GetCell(c: Coord): (v: T)
      requires Valid()
      reads matrix
      ensures IsValidCoordinate(c) ==> v == matrix[c.x, c.y]
      ensures !IsValidCoordinate(c) ==> v == zero
    {
      if !IsValidCoordinate(c) then zero else matrix[c.x, c.y]
    }

    /** Outside the grid nothing happens. Inside, the cell is stored, every
        other cell keeps its value, and the event is raised once. */
    method SetCell(c: Coord, value: T)
      requires Valid()
      modifies matrix, this
      ensures !IsValidCoordinate(c) ==> events == old(events)
      ensures !IsValidCoordinate(c) ==> forall d :: GetCell(d) == old(GetCell(d))
      ensures IsValidCoordinate(c) ==> events == old(events) + [(c, value)] && GetCell(c) == value
      ensures forall d :: d != c ==> GetCell(d) == old(GetCell(d))
      ensures created == old(created)
    {
      if !IsValidCoordinate(c) {
        return;
      }
      matrix[c.x, c.y] := value;
      events := events + [(c, value)];
    }

    /** Raises the event with the current value of `c`, without a bounds
        check: outside the grid it is raised with the default. No cell
        changes. */
    method SetDirtyCell(c: Coord)
      requires Valid()
      modifies this
      ensures events == old(events) + [(c, GetCell(c))]
      ensures !IsValidCoordinate(c) ==> events[|events| - 1].1 == zero
      ensures created == old(created)
    {
      events := events + [(c, GetCell(c))];
    }

    /** The visits of a traversal over the coordinates `cs`: each coordinate
        with its cell. */
    function Visits(cs: seq<Coord>): (vs: seq<(Coord, T)>)
      requires Valid()
      reads matrix
      ensures |vs| == |cs|
      ensures forall i :: 0 <= i < |cs| ==> vs[i] == (cs[i], GetCell(cs[i]))
    {
      if cs == [] then [] else Visits(cs[..|cs| - 1]) + [(cs[|cs| - 1], GetCell(cs[|cs| - 1]))]
    }

    /** The visits so far, after the first `x` columns and `y` cells of
        column `x`. */
    function VisitedUpTo(x: nat, y: nat): seq<(Coord, T)>
      requires Valid() && y <= height
      reads matrix
    {
      Visits(Coords(x, height) + Column(x, height)[..y])
    }

    /** Visiting cell (x, y) extends the visits by that cell; finishing a
        column moves on to the next one. */
    lemma VisitNext(x: nat, y: nat)
      requires Valid() && 0 <= x < width && 0 <= y < height
      ensures VisitedUpTo(x, y + 1) == VisitedUpTo(x, y) + [(Coord(x, y), matrix[x, y])]
      ensures y + 1 == height ==> VisitedUpTo(x, y + 1) == VisitedUpTo(x + 1, 0)
    {
      var a := Coords(x, height) + Column(x, height)[..y];
      var b := Coords(x, height) + Column(x, height)[..y + 1];
      assert b[..|b| - 1] == a;
      assert b[|b| - 1] == Coord(x, y);
      if y + 1 == height {
        assert Column(x, height)[..y + 1] == Column(x, height);
        assert Coords(x + 1, height) + Column(x + 1, height)[..0] == b;
      }
    }

    /** The void traversal: the visitor is called once per cell, in
        traversal order, with the coordinate and the cell; the calls are
        returned as a log. */
    method TraversalCells() returns (visited: seq<(Coord, T)>)
      requires Valid()
      ensures visited == Visits(Coords(width, height))
    {
      visited := [];
      var x := 0;
      assert Coords(0, height) + Column(0, height)[..0] == [];
      while x < width
        invariant 0 <= x <= width
        invariant visited == VisitedUpTo(x, 0)
      {
        var y := 0;
        while y < height
          invariant 0 <= y <= height
          invariant visited == VisitedUpTo(x, y)
          invariant y == height ==> visited == VisitedUpTo(x + 1, 0)
        {
          VisitNext(x, y);
          visited := visited + [(Coord(x, y), matrix[x, y])];
          y := y + 1;
        }
        if height == 0 {
          assert Coords(x + 1, height) == Coords(x, height) + Column(x, height);
        }
        x := x + 1;
      }
      assert Coords(width, height) + Column(width, height)[..0] == Coords(width, height);
    }

    /** The visits of a traversal stopped by `visitor`: a prefix of the
        whole traversal, the visitor said go on at every visit but the last,
        and it said stop at the last one unless every cell was visited. */
    ghost predicate TraversedUntil(visited: seq<(Coord, T)>, visitor: (Coord, T) -> bool)
      requires Valid()
      reads this, matrix
    {
      var all := Visits(Coords(width, height));
      |visited| <= |all| && visited == all[..|visited|]
      && (forall i :: 0 <= i < |visited| - 1 ==> visitor(visited[i].0, visited[i].1))
      && (|visited| < |Coords(width, height)| ==>
            |visited| > 0 && !visitor(visited[|visited| - 1].0, visited[|visited| - 1].1))
    }

    /** The traversal that can stop: the visitor is called in traversal
        order until it first returns false, and that call is the last one. */
    method TraversalCellsUntil(visitor: (Coord, T) -> bool) returns (visited: seq<(Coord, T)>)
      requires Valid()
      ensures TraversedUntil(visited, visitor)
    {
      visited := [];
      var x := 0;
      assert Coords(0, height) + Column(0, height)[..0] == [];
      while x < width
        invariant 0 <= x <= width
        invariant visited == VisitedUpTo(x, 0)
        invariant forall i :: 0 <= i < |visited| ==> visitor(visited[i].0, visited[i].1)
      {
        var stopped;
        visited, stopped := VisitColumnUntil(x, visited, visitor);
        if stopped {
          return;
        }
        x := x + 1;
      }
      AllVisited(visited, visitor);
    }

    /** A traversal on which the visitor never said stop visited every
        cell. */
    lemma AllVisited(visited: seq<(Coord, T)>, visitor: (Coord, T) -> bool)
      requires Valid()
      requires visited == VisitedUpTo(width, 0)
      requires forall i :: 0 <= i < |visited| ==> visitor(visited[i].0, visited[i].1)
      ensures TraversedUntil(visited, visitor)
    {
      assert Coords(width, height) + Column(width, height)[..0] == Coords(width, height);
      assert visited == Visits(Coords(width, height))[..|visited|];
    }

    /** One column of `TraversalCellsUntil`: its cells are visited in order
        until the visitor says stop. */
    method VisitColumnUntil(x: nat, start: seq<(Coord, T)>, visitor: (Coord, T) -> bool)
      returns (visited: seq<(Coord, T)>, stopped: bool)
      requires Valid() && x < width
      requires start == VisitedUpTo(x, 0)
      requires forall i :: 0 <= i < |start| ==> visitor(start[i].0, start[i].1)
      ensures stopped ==> TraversedUntil(visited, visitor)
      ensures !stopped ==> visited == VisitedUpTo(x + 1, 0)
      ensures !stopped ==> forall i :: 0 <= i < |visited| ==> visitor(visited[i].0, visited[i].1)
    {
      visited := start;
      var y := 0;
      while y < height
        invariant 0 <= y <= height
        invariant visited == VisitedUpTo(x, y)
        invariant y == height ==> visited == VisitedUpTo(x + 1, 0)
        invariant forall i :: 0 <= i < |visited| ==> visitor(visited[i].0, visited[i].1)
      {
        var cell := matrix[x, y];
        var isContinue := visitor(Coord(x, y), cell);
        if !isContinue {
          StopAt(x, y, visited, visitor);
          return visited + [(Coord(x, y), cell)], true;
        }
        VisitNext(x, y);
        GoOn(visited, (Coord(x, y), cell), visitor);
        visited := visited + [(Coord(x, y), cell)];
        y := y + 1;
      }
      if height == 0 {
        assert Coords(x + 1, height) == Coords(x, height) + Column(x, height);
      }
      stopped := false;
    }

    /** Appending a visit on which the visitor says go on to visits on
        which it said go on. */
    static lemma GoOn(visited: seq<(Coord, T)>, last: (Coord, T), visitor: (Coord, T) -> bool)
      requires forall i :: 0 <= i < |visited| ==> visitor(visited[i].0, visited[i].1)
      requires visitor(last.0, last.1)
      ensures var v := visited + [last];
              forall i :: 0 <= i < |v| ==> visitor(v[i].0, v[i].1)
    {
      var v := visited + [last];
      assert forall i :: 0 <= i < |v| - 1 ==> v[i] == visited[i];
    }

    /** Stopping at cell (x, y) leaves a prefix of the whole traversal on
        whose last visit alone the visitor said stop. */
    lemma StopAt(x: nat, y: nat, visited: seq<(Coord, T)>, visitor: (Coord, T) -> bool)
      requires Valid() && x < width && y < height
      requires visited == VisitedUpTo(x, y)
      requires forall i :: 0 <= i < |visited| ==> visitor(visited[i].0, visited[i].1)
      requires !visitor(Coord(x, y), matrix[x, y])
      ensures TraversedUntil(visited + [(Coord(x, y), matrix[x, y])], visitor)
    {
      VisitNext(x, y);
      TraversalPrefix(x, y);
      StopHere(visited, (Coord(x, y), matrix[x, y]), visitor);
    }

    /** Appending a visit on which the visitor says stop to visits on which
        it said go on. */
    static lemma StopHere(visited: seq<(Coord, T)>, last: (Coord, T), visitor: (Coord, T) -> bool)
      requires forall i :: 0 <= i < |visited| ==> visitor(visited[i].0, visited[i].1)
      requires !visitor(last.0, last.1)
      ensures var v := visited + [last];
              (forall i :: 0 <= i < |v| - 1 ==> visitor(v[i].0, v[i].1)) && !visitor(v[|v| - 1].0, v[|v| - 1].1)
    {
      var v := visited + [last];
      assert forall i :: 0 <= i < |v| - 1 ==> v[i] == visited[i];
    }

    /** The visits up to and including cell (x, y) are a prefix of the whole
        traversal, a proper one unless (x, y) is the last cell. */
    lemma TraversalPrefix(x: nat, y: nat)
      requires Valid()
      requires 0 <= x < width && 0 <= y < height
      ensures var v := VisitedUpTo(x, y + 1);
              var all := Visits(Coords(width, height));
              |v| <= |all| && v == all[..|v|] && (|v| == |all| ==> x == width - 1 && y == height - 1)
    {
      CoordsUpTo(x, y, width, height);
      VisitsOfPrefix(Coords(x, height) + Column(x, height)[..y + 1], Coords(width, height));
    }

    /** Visiting a prefix of the coordinates gives a prefix of the visits. */
    lemma VisitsOfPrefix(cs: seq<Coord>, full: seq<Coord>)
      requires Valid() && |cs| <= |full| && cs == full[..|cs|]
      ensures Visits(cs) == Visits(full)[..|cs|]
    {
      assert forall i :: 0 <= i < |cs| ==> cs[i] == full[i];
    }
  }

  /** A grid of `width` columns of `height` cells has `width * height`
      coordinates. */
  lemma {:induction false} CoordsCount(width: nat, height: nat)
    ensures |Coords(width, height)| == width * height
  {
    if width > 0 {
      CoordsCount(width - 1, height);
      assert (width - 1) * height + height == width * height;
    }
  }

  /** The coordinates up to and including (x, y) are a prefix of the whole
      traversal order, a proper one unless (x, y) is the last cell. */
  lemma CoordsUpTo(x: nat, y: nat, width: nat, height: nat)
    requires x < width && y < height
    ensures var cs := Coords(x, height) + Column(x, height)[..y + 1];
            var full := Coords(width, height);
            |cs| <= |full| && cs == full[..|cs|] && (|cs| == |full| ==> x == width - 1 && y == height - 1)
  {
    var col := Column(x, height);
    var cs := Coords(x, height) + col[..y + 1];
    var next := Coords(x + 1, height);
    CoordsPrefix(x + 1, width, height);
    CellPosition(x, y, width, height);
    assert next == Coords(x, height) + col;
    assert cs == next[..|cs|];
    PrefixOfPrefix(cs, next, Coords(width, height));
  }

  /** A prefix of a prefix is a prefix. */
  lemma PrefixOfPrefix<X>(a: seq<X>, b: seq<X>, c: seq<X>)
    requires |a| <= |b| <= |c| && a == b[..|a|] && b == c[..|b|]
    ensures a == c[..|a|]
  {
    assert forall i :: 0 <= i < |a| ==> a[i] == b[i] == c[i];
  }

  /** The number of coordinates up to and including cell (x, y). */
  lemma CellPosition(x: nat, y: nat, width: nat, height: nat)
    requires x < width && y < height
    ensures |Coords(x, height)| + y + 1 <= |Coords(width, height)|
    ensures |Coords(x, height)| + y + 1 == |Coords(width, height)| ==> x == width - 1 && y == height - 1
  {
    CoordsCount(x, height);
    CoordsCount(width, height);
    CellBeforeEnd(x, y, width, height);
  }

  /** Cell (x, y) of a `width` by `height` grid comes at position
      `x * height + y` in traversal order, before the end, and is the last
      one only at (width - 1, height - 1). */
  lemma CellBeforeEnd(x: nat, y: nat, width: nat, height: nat)
    requires x < width && y < height
    ensures x * height + y + 1 <= width * height
    ensures x * height + y + 1 == width * height ==> x == width - 1 && y == height - 1
  {
    var d := width - x - 1;
    assert width * height == x * height + height + d * height;
    assert d * height >= 0;
    if d > 0 {
      assert d * height >= height;
    }
  }

  /** Fewer columns give a prefix of the traversal order. */
  lemma {:induction false} CoordsPrefix(w1: nat, w2: nat, height: nat)
    requires w1 <= w2
    ensures |Coords(w1, height)| <= |Coords(w2, height)|
    ensures Coords(w1, height) == Coords(w2, height)[..|Coords(w1, height)|]
    decreases w2
  {
    if w1 < w2 {
      CoordsPrefix(w1, w2 - 1, height);
      assert Coords(w2, height) == Coords(w2 - 1, height) + Column(w2 - 1, height);
    }
  }
}
