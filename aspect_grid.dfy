/** The grid geometry of hooks/useAspectGrid.js: how many tiles fit on a page of a container,
    how many pages the tiles need, which page is shown, and the largest 16:9 tile that lets a
    page's tiles fit. Lengths are exact reals here, not floating-point numbers. */
module AspectGrid {
  import opened Seqs

  const MIN_TILE_WIDTH: nat := 280
  const ASPECT_RATIO: real := 16.0 / 9.0
  const DEFAULT_MAX_TILES_PER_PAGE: nat := 12

  /** `Math.ceil(a / b)` for a non-negative `a` and a positive `b`. */
  function CeilDiv(a: nat, b: nat): (q: nat)
    requires b >= 1
    ensures (q - 1) * b < a <= q * b || (a == 0 && q == 0)
  {
    (a + b - 1) / b
  }

  /** `maxColumns`: as many 280-wide columns as fit, but at least one. */
  function MaxColumns(width: nat): (columns: nat)
    ensures columns >= 1
    ensures width < MIN_TILE_WIDTH ==> columns == 1
    ensures width >= MIN_TILE_WIDTH ==> columns * MIN_TILE_WIDTH <= width < (columns + 1) * MIN_TILE_WIDTH
  {
    var c := width / MIN_TILE_WIDTH;
    if c < 1 then 1 else c
  }

  /** The height of a 16:9 tile as wide as one of the `maxColumns` columns. */
  function ColumnTileHeight(width: nat): real {
    (width as real / MaxColumns(width) as real) * (9.0 / 16.0)
  }

  /** `maxRows`: as many rows of column-wide tiles as fit in the height, but at least one:
      the whole number of tile heights the height holds. */
  function MaxRows(width: nat, height: nat): (rows: nat)
    requires width >= 1
    ensures rows >= 1
    ensures rows == 1 || rows as real <= height as real / ColumnTileHeight(width)
    ensures height as real / ColumnTileHeight(width) < (rows + 1) as real
  {
    var t := ColumnTileHeight(width);
    assert t > 0.0;
    var f := (height as real / t).Floor;
    if f < 1 then 1 else f
  }

  /** `pageSize`: the tiles that fit on a page, capped at `maxTilesPerPage`. */
  function PageSize(width: nat, height: nat, maxTilesPerPage: nat): (pageSize: nat)
    requires width >= 1
    ensures pageSize <= maxTilesPerPage
    ensures pageSize <= MaxColumns(width) * MaxRows(width, height)
    ensures pageSize == maxTilesPerPage || pageSize == MaxColumns(width) * MaxRows(width, height)
    ensures maxTilesPerPage >= 1 ==> pageSize >= 1
  {
    var fit := MaxColumns(width) * MaxRows(width, height);
    assert fit >= 1;
    if fit <= maxTilesPerPage then fit else maxTilesPerPage
  }

  /** `pages`: `Math.ceil(numTiles / pageSize)`, the fewest pages that hold every tile. */
  function Pages(numTiles: nat, pageSize: nat): (pages: nat)
    requires pageSize >= 1
    ensures numTiles == 0 <==> pages == 0
    ensures numTiles > 0 ==> (pages - 1) * pageSize < numTiles <= pages * pageSize
  {
    CeilDiv(numTiles, pageSize)
  }

  /** The page shown once the clamp effect has run: lowered to `pages` when beyond it. */
  function ClampedPage(page: int, pages: int): int {
    if page <= pages then page else pages
  }

  /** The clamp changes the page only when it is past the last page, never leaves it past the
      last page, and applying it again changes nothing. */
  lemma ClampedPageProperties(page: int, pages: int)
    ensures page <= pages ==> ClampedPage(page, pages) == page
    ensures page > pages ==> ClampedPage(page, pages) == pages
    ensures ClampedPage(page, pages) <= pages
    ensures ClampedPage(ClampedPage(page, pages), pages) == ClampedPage(page, pages)
  {
  }

  /** The page and page-count state cells of the hook, with the two effects that update them and
      the previous/next buttons that move the page. */
  class Pager {
    var page: int
    var pages: int

    constructor ()
      ensures page == 1 && pages == 1
    {
      page := 1;
      pages := 1;
    }

    /** The effect that recomputes `pages` when the page size or the tile count changes. */
    method SyncPages(numTiles: nat, pageSize: nat)
      requires pageSize >= 1
      modifies this
      ensures pages == Pages(numTiles, pageSize) && page == old(page)
    {
      pages := Pages(numTiles, pageSize);
    }

    /** The effect that keeps the page from being past the last page. */
    method ClampPage()
      modifies this
      ensures page == ClampedPage(old(page), pages) && pages == old(pages)
    {
      if page <= pages {
        return;
      }
      page := pages;
    }

    /** The previous-page button: disabled when there is at most one page or on the first. */
    method PrevClick()
      modifies this
      ensures pages == old(pages)
      ensures page == if pages <= 1 || old(page) <= 1 then old(page) else old(page) - 1
      ensures 1 <= old(page) <= pages ==> 1 <= page <= pages
    {
      if !(pages <= 1 || page <= 1) {
        page := page - 1;
      }
    }

    /** The next-page button: disabled when there is at most one page or on the last. */
    method NextClick()
      modifies this
      ensures pages == old(pages)
      ensures page == if pages <= 1 || old(page) >= pages then old(page) else old(page) + 1
      ensures 1 <= old(page) <= pages ==> 1 <= page <= pages
    {
      if !(pages <= 1 || page >= pages) {
        page := page + 1;
      }
    }
  }

  /** Once pages are recomputed for at least one tile and clamped, a page that started at one or
      more lies within `[1, pages]`: the grid never lands on a blank page. */
  lemma SettledPageInRange(page: int, numTiles: nat, pageSize: nat)
    requires pageSize >= 1 && numTiles >= 1 && page >= 1
    ensures 1 <= ClampedPage(page, Pages(numTiles, pageSize)) <= Pages(numTiles, pageSize)
  {
  }

  // ---------------------------------------------------------------- tile search

  /** The tile tried for `i` columns and `n` tiles in a `width` by `height` container: as wide
      as `i` columns with 1-unit gaps allow, unless `ceil(n / i)` rows of that height overflow
      the container, in which case as high as those rows with 1-unit gaps allow; always 16:9. */
  function Candidate(i: nat, n: nat, width: nat, height: nat): (real, real)
    requires 1 <= i <= n
  {
    var w := (width as real - (i - 1) as real) / i as real;
    var h := w / ASPECT_RATIO;
    var rows := CeilDiv(n, i);
    if rows as real * h > height as real then
      var h' := (height as real - (rows - 1) as real) / rows as real;
      (h' * ASPECT_RATIO, h')
    else (w, h)
  }

  function Area(tile: (real, real)): real {
    tile.0 * tile.1
  }

  /** Scaling a tile down keeps `i` copies of it within what `i` copies of the larger one span. */
  lemma ShrinkKeepsFit(i: nat, rows: nat, h: real, h0: real, height: real)
    requires i >= 1 && rows >= 1
    requires rows as real * h0 > height
    requires rows as real * h <= height
    ensures h < h0
    ensures i as real * (h * ASPECT_RATIO) < i as real * (h0 * ASPECT_RATIO)
  {
    assert rows as real * (h0 - h) > 0.0;
    assert h0 - h > 0.0;
    assert (h0 - h) * ASPECT_RATIO > 0.0;
    assert i as real * ((h0 - h) * ASPECT_RATIO) > 0.0;
  }

  /** Every candidate is 16:9, its `i` columns with their 1-unit gaps fit the width and its
      `ceil(n / i)` rows fit the height. */
  lemma CandidateFits(i: nat, n: nat, width: nat, height: nat)
    requires 1 <= i <= n
    ensures var (w, h) := Candidate(i, n, width, height);
      && w == h * ASPECT_RATIO
      && i as real * w + (i - 1) as real <= width as real
      && CeilDiv(n, i) as real * h <= height as real
  {
    var rows := CeilDiv(n, i);
    assert rows >= 1;
    var w0 := (width as real - (i - 1) as real) / i as real;
    var h0 := w0 / ASPECT_RATIO;
    assert i as real * w0 == width as real - (i - 1) as real;
    assert h0 * ASPECT_RATIO == w0;
    if rows as real * h0 > height as real {
      var h := (height as real - (rows - 1) as real) / rows as real;
      assert rows as real * h == height as real - (rows - 1) as real;
      ShrinkKeepsFit(i, rows, h, h0, height as real);
    }
  }

  /** No candidate has a negative area, so the search never keeps its `[0, 0]` seed. */
  lemma CandidateAreaNonNegative(i: nat, n: nat, width: nat, height: nat)
    requires 1 <= i <= n
    ensures Area(Candidate(i, n, width, height)) >= 0.0
  {
    var (w, h) := Candidate(i, n, width, height);
    CandidateFits(i, n, width, height);
    assert Area((w, h)) == (h * h) * ASPECT_RATIO;
  }

  /** `tile` is the `k`-th of the `n` candidates, no candidate has a larger area and every later
      one has a smaller area. */
  predicate LastLargestCandidate(tile: (real, real), k: int, n: nat, width: nat, height: nat) {
    && 1 <= k <= n
    && tile == Candidate(k, n, width, height)
    && (forall j :: 1 <= j <= n ==> Area(Candidate(j, n, width, height)) <= Area(tile))
    && (forall j :: k < j <= n ==> Area(Candidate(j, n, width, height)) < Area(tile))
  }

  /** `tile` is 16:9, and `k` columns of it with their gaps fit the width while the rows that
      `n` tiles take in `k` columns fit the height. */
  predicate TileFits(tile: (real, real), k: int, n: nat, width: nat, height: nat) {
    && 1 <= k
    && tile.0 == tile.1 * ASPECT_RATIO
    && k as real * tile.0 + (k - 1) as real <= width as real
    && CeilDiv(n, k) as real * tile.1 <= height as real
  }

  lemma CandidateTileFits(k: nat, n: nat, width: nat, height: nat)
    requires 1 <= k <= n
    ensures TileFits(Candidate(k, n, width, height), k, n, width, height)
  {
    CandidateFits(k, n, width, height);
  }

  /** The tile search: `n = min(pageSize, numTiles)` tiles; for no tile the whole container,
      otherwise a candidate of largest area, the last one among equals, which is 16:9 and whose
      columns and rows fit the container. */
  method TileSize(width: nat, height: nat, pageSize: nat, numTiles: nat) returns (tileWidth: real, tileHeight: real)
    ensures Min(pageSize, numTiles) == 0 ==> tileWidth == width as real && tileHeight == height as real
    ensures Min(pageSize, numTiles) > 0 ==>
      exists k :: LastLargestCandidate((tileWidth, tileHeight), k, Min(pageSize, numTiles), width, height)
        && TileFits((tileWidth, tileHeight), k, Min(pageSize, numTiles), width, height)
  {
    var n: nat := Min(pageSize, numTiles);
    if n == 0 {
      return width as real, height as real;
    }
    var dims: seq<(real, real)> := [];
    for i := 1 to n + 1
      invariant |dims| == i - 1
      invariant forall k :: 0 <= k < |dims| ==> dims[k] == Candidate(k + 1, n, width, height)
    {
      dims := dims + [Candidate(i, n, width, height)];
    }
    forall j | 0 <= j < |dims| ensures Area(dims[j]) >= 0.0 {
      CandidateAreaNonNegative(j + 1, n, width, height);
    }
    var tile, k := LargestTile(dims);
    assert forall j :: 1 <= j <= n ==> Candidate(j, n, width, height) == dims[j - 1];
    assert LastLargestCandidate(tile, k + 1, n, width, height);
    CandidateTileFits(k + 1, n, width, height);
    tileWidth, tileHeight := tile.0, tile.1;
  }

  /** The `reduce` over the candidates: starting from `[0, 0]`, a candidate replaces the kept
      one unless its area is smaller, so the last of the largest candidates is kept. It also
      returns (for the proof) the index of the kept candidate. */
  method LargestTile(dims: seq<(real, real)>) returns (tile: (real, real), ghost k: int)
    requires forall j :: 0 <= j < |dims| ==> Area(dims[j]) >= 0.0
    ensures dims == [] ==> tile == (0.0, 0.0)
    ensures dims != [] ==> 0 <= k < |dims| && tile == dims[k]
    ensures forall j :: 0 <= j < |dims| ==> Area(dims[j]) <= Area(tile)
    ensures forall j :: 0 <= j < |dims| && k < j ==> Area(dims[j]) < Area(tile)
  {
    tile, k := (0.0, 0.0), -1;
    for m := 0 to |dims|
      invariant m == 0 ==> tile == (0.0, 0.0) && k == -1
      invariant m > 0 ==> 0 <= k < m && tile == dims[k]
      invariant forall j :: 0 <= j < m ==> Area(dims[j]) <= Area(tile)
      invariant forall j :: 0 <= j < m && k < j ==> Area(dims[j]) < Area(tile)
    {
      if !(Area(dims[m]) < Area(tile)) {
        tile, k := dims[m], m;
      }
    }
  }

  /** A worked layout: a 1200 by 600 container with at most 12 tiles per page holds 4 columns
      and 3 rows, a page of 12, so 10 tiles need one page. */
  lemma ExampleLayout()
    ensures MaxColumns(1200) == 4 && MaxRows(1200, 600) == 3
    ensures PageSize(1200, 600, DEFAULT_MAX_TILES_PER_PAGE) == 12
    ensures Pages(10, PageSize(1200, 600, DEFAULT_MAX_TILES_PER_PAGE)) == 1
  {
    assert ColumnTileHeight(1200) == 168.75;
    assert (600 as real / 168.75).Floor == 3;
  }
}
