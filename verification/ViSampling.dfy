/** One scan-out's sampler: the register-derived rules and the two-layer, two-row memo of
    source pixels that have already been through the filters. */
module ViSampling {
  import opened MachineWords
  import opened ViFilters
  import opened ViSource

  /** The widest memo a sampler allocates, in source columns per row. */
  const MAX_SPAN: nat := 4096

  datatype Pixel = Pixel(x: int, y: int)

  function CovSpan(span: nat): nat {
    if span == 0 then 0 else span + 2
  }

  /** Position in a two-row memo of column i of row r. */
  function Cell(r: nat, width: nat, i: nat): nat {
    if r == 0 then i else width + i
  }

  function RowOf(k: nat, width: nat): nat {
    if k < width then 0 else 1
  }

  function ColumnOf(k: nat, width: nat): nat {
    if k < width then k else k - width
  }

  class ViSampler {
    const cfg: ViCfg
    /** First source column the outer layer covers; the inner layer starts one to its left. */
    const xLo: int
    const span: nat
    /** The source row each memo row holds. */
    const rowY: array<Option<int>>
    /** Outer layer: the output of the whole filter chain. */
    const cells: array<Option<Rgb>>
    /** Inner layer: coverage fetches, which the divot filter repeats inside one outer miss. */
    const covCells: array<Option<Sample>>

    /** The upper source row of the output row being walked. */
    ghost var front: int
    /** Every row that was ever given a memo row. */
    ghost var walked: set<int>
    /** Every run of the filter chain, and every coverage fetch, logged where it is computed. */
    ghost var filtered: multiset<Pixel>
    ghost var fetched: multiset<Pixel>

    ghost predicate Shaped() {
      rowY.Length == 2 && cells.Length == 2 * span && covCells.Length == 2 * CovSpan(span)
    }

    ghost predicate Resident(y: int)
      requires Shaped()
      reads rowY
    {
      rowY[0] == Some(y) || rowY[1] == Some(y)
    }

    /** Whatever the memo holds is what recomputing it would give, in both layers, and no source
        row is held twice. */
    ghost predicate Valid(m: Memory)
      reads rowY, cells, covCells
    {
      Shaped() &&
      (rowY[0].Some? ==> rowY[0] != rowY[1]) &&
      (forall k :: 0 <= k < cells.Length ==> CellHolds(m, k)) &&
      (forall k :: 0 <= k < covCells.Length ==> CovCellHolds(m, k))
    }

    ghost predicate CellHolds(m: Memory, k: nat)
      requires Shaped() && k < cells.Length
      reads rowY, cells
    {
      var row := rowY[RowOf(k, span)];
      cells[k].Some? ==>
        row.Some? && cells[k].value == SourcePixel(m, cfg, xLo + ColumnOf(k, span), row.value)
    }

    ghost predicate CovCellHolds(m: Memory, k: nat)
      requires Shaped() && k < covCells.Length
      reads rowY, covCells
    {
      var row := rowY[RowOf(k, span + 2)];
      covCells[k].Some? ==>
        row.Some? && covCells[k].value == FilteredSource(m, cfg, xLo - 1 + ColumnOf(k, span + 2), row.value)
    }

    predicate InWindow(x: int) {
      0 <= x - xLo < span
    }

    predicate InCovWindow(x: int) {
      0 <= x - xLo + 1 < CovSpan(span)
    }

    /** Nothing has been computed twice so far, and nothing that is still to be asked for has been
        forgotten: a row once walked is either still held or above the walk's front. */
    ghost predicate Once()
      reads this, rowY, cells, covCells
    {
      Shaped() && HeldRowsWalked() && WalkedRowsHeld() &&
      (forall p :: p in filtered ==> FilteredOnce(p)) &&
      (forall p :: p in fetched ==> FetchedOnce(p))
    }

    /** `Once`, while the chain just run at p is not in the memo yet. */
    ghost predicate OnceButFiltered(p: Pixel)
      reads this, rowY, cells, covCells
    {
      Shaped() && HeldRowsWalked() && WalkedRowsHeld() &&
      filtered[p] == 1 && p.y in walked && InWindow(p.x) &&
      (forall q :: q in filtered && q != p ==> FilteredOnce(q)) &&
      (forall q :: q in fetched ==> FetchedOnce(q))
    }

    /** `Once`, while the fetch just made at p is not in the memo yet. */
    ghost predicate OnceButFetched(p: Pixel)
      reads this, rowY, cells, covCells
    {
      Shaped() && HeldRowsWalked() && WalkedRowsHeld() &&
      fetched[p] == 1 && p.y in walked && InCovWindow(p.x) &&
      (forall q :: q in filtered ==> FilteredOnce(q)) &&
      (forall q :: q in fetched && q != p ==> FetchedOnce(q))
    }

    ghost predicate HeldRowsWalked()
      requires Shaped()
      reads this, rowY
    {
      forall r :: 0 <= r < 2 && rowY[r].Some? ==> rowY[r].value in walked && rowY[r].value <= front + 1
    }

    ghost predicate WalkedRowsHeld()
      requires Shaped()
      reads this, rowY
    {
      forall y :: y in walked ==> y < front || Resident(y)
    }

    ghost predicate FilteredOnce(p: Pixel)
      requires Shaped()
      reads this, rowY, cells
    {
      filtered[p] == 1 && p.y in walked && InWindow(p.x) &&
      forall r :: 0 <= r < 2 && rowY[r] == Some(p.y) ==> cells[Cell(r, span, p.x - xLo)].Some?
    }

    ghost predicate FetchedOnce(p: Pixel)
      requires Shaped()
      reads this, rowY, covCells
    {
      fetched[p] == 1 && p.y in walked && InCovWindow(p.x) &&
      forall r :: 0 <= r < 2 && rowY[r] == Some(p.y) ==> covCells[Cell(r, span + 2, p.x - xLo + 1)].Some?
    }

    /** A memo over source columns xLo..xHi; an inverted or over-wide range gets no memo at all. */
    constructor (cfg: ViCfg, xLo: int, xHi: int, ghost m: Memory)
      ensures this.cfg == cfg && this.xLo == xLo
      ensures span == if 0 <= xHi - xLo + 1 <= MAX_SPAN then xHi - xLo + 1 else 0
      ensures fresh(rowY) && fresh(cells) && fresh(covCells)
      ensures Valid(m) && Once()
      ensures walked == {} && filtered == multiset{} && fetched == multiset{}
    {
      var columns := xHi - xLo + 1;
      var want := if 0 <= columns <= MAX_SPAN then columns else 0;
      this.cfg := cfg;
      this.xLo := xLo;
      span := want;
      rowY := new Option<int>[2](_ => None);
      cells := new Option<Rgb>[2 * want](_ => None);
      covCells := new Option<Sample>[2 * CovSpan(want)](_ => None);
      front, walked, filtered, fetched := 0, {}, multiset{}, multiset{};
    }

    /** The walk moves on to a row no higher than before. */
    ghost method Advance(m: Memory, y: int)
      requires Valid(m) && Once() && (walked == {} || front <= y)
      modifies this`front
      ensures front == y && Valid(m) && Once()
    {
      front := y;
    }

    /** The memo row holding source row y, evicting the row further behind if neither does. */
    method RowSlot(ghost m: Memory, y: int) returns (slot: nat)
      requires Valid(m)
      modifies this`walked, rowY, cells, covCells
      ensures Valid(m) && slot < 2 && rowY[slot] == Some(y)
      ensures walked == old(walked) + {y}
      ensures old(Resident(y)) ==>
        rowY[..] == old(rowY[..]) && cells[..] == old(cells[..]) && covCells[..] == old(covCells[..])
      ensures old(Once()) && front <= y <= front + 1 ==>
        Once() && (y in old(walked) ==> old(Resident(y)))
    {
      hide SourcePixel, FilteredSource, CellHolds, CovCellHolds;
      if rowY[0] == Some(y) {
        walked := walked + {y};
        return 0;
      }
      if rowY[1] == Some(y) {
        walked := walked + {y};
        return 1;
      }
      slot := EvictFurther(m, y);
    }

    /** The row further behind makes way: the walk has passed it, so it will not be asked for again. */
    method EvictFurther(ghost m: Memory, y: int) returns (victim: nat)
      requires Valid(m) && !Resident(y)
      modifies this`walked, rowY, cells, covCells
      ensures Valid(m) && victim < 2 && rowY[victim] == Some(y)
      ensures walked == old(walked) + {y}
      ensures old(Once()) && front <= y <= front + 1 ==> Once() && y !in old(walked)
    {
      hide SourcePixel, FilteredSource, CellHolds, CovCellHolds;
      victim :=
        match (rowY[0], rowY[1])
        case (None, _) => 0
        case (_, None) => 1
        case (Some(y0), Some(y1)) => if y1 < y0 then 1 else 0;
      EvictBehind(m, victim, y);
    }

    /** A row that is free, or behind the other one, makes way. */
    method EvictBehind(ghost m: Memory, victim: nat, y: int)
      requires Valid(m) && victim < 2 && !Resident(y)
      requires rowY[victim].Some? ==> rowY[1 - victim].Some? && rowY[victim].value < rowY[1 - victim].value
      modifies this`walked, rowY, cells, covCells
      ensures Valid(m) && rowY[victim] == Some(y)
      ensures walked == old(walked) + {y}
      ensures old(Once()) && front <= y <= front + 1 ==> Once() && y !in old(walked)
    {
      hide SourcePixel, FilteredSource, CellHolds, CovCellHolds;
      Evict(m, victim, y);
      walked := walked + {y};
      if old(Once()) && front <= y <= front + 1 {
        assert y !in old(walked);
        assert HeldRowsWalked() && WalkedRowsHeld();
        forall p | p in filtered ensures FilteredOnce(p) {
          assert old(FilteredOnce(p)) && p.y != y;
        }
        forall p | p in fetched ensures FetchedOnce(p) {
          assert old(FetchedOnce(p)) && p.y != y;
        }
      }
    }

    /** Hand a memo row to source row y. Both layers are keyed on it, so both are cleared. */
    method Evict(ghost m: Memory, victim: nat, y: int)
      requires Valid(m) && victim < 2 && !Resident(y)
      modifies rowY, cells, covCells
      ensures Valid(m)
      ensures rowY[victim] == Some(y) && rowY[1 - victim] == old(rowY[1 - victim])
      ensures forall k :: 0 <= k < cells.Length ==>
        cells[k] == if RowOf(k, span) == victim then None else old(cells[k])
      ensures forall k :: 0 <= k < covCells.Length ==>
        covCells[k] == if RowOf(k, span + 2) == victim then None else old(covCells[k])
    {
      hide SourcePixel, FilteredSource;
      rowY[victim] := Some(y);
      var base := Cell(victim, span, 0);
      forall k | base <= k < base + span {
        cells[k] := None;
      }
      var cov := CovSpan(span);
      var covBase := Cell(victim, cov, 0);
      forall k | covBase <= k < covBase + cov {
        covCells[k] := None;
      }
      assert rowY[1 - victim] == old(rowY[1 - victim]);
      forall k | 0 <= k < cells.Length ensures CellHolds(m, k) {
        assert old(CellHolds(m, k));
        assert RowOf(k, span) == victim || cells[k] == old(cells[k]);
      }
      forall k | 0 <= k < covCells.Length ensures CovCellHolds(m, k) {
        assert old(CovCellHolds(m, k));
        assert RowOf(k, span + 2) == victim || covCells[k] == old(covCells[k]);
      }
    }

    /** `vi_fetch_cov_memo`: a coverage fetch, served from the inner layer when it is there. */
    method FetchCovMemo(m: Memory, x: int, y: int) returns (s: Sample)
      requires Valid(m)
      modifies this`walked, this`fetched, rowY, cells, covCells
      ensures Valid(m)
      ensures s == FilteredSource(m, cfg, x, y)
      ensures old(walked) <= walked
      ensures old(Resident(y)) ==> rowY[..] == old(rowY[..]) && cells[..] == old(cells[..])
      ensures old(Once()) && front <= y <= front + 1 && InCovWindow(x) ==> Once()
    {
      hide SourcePixel, FilteredSource;
      var idx := x - xLo + 1;
      var width := CovSpan(span);
      if idx < 0 || idx >= width {
        s := Fetch(m, x, y);
        return;
      }
      var slot := RowSlot(m, y);
      var cell := Cell(slot, width, idx);
      assert CovCellHolds(m, cell) && RowOf(cell, span + 2) == slot && ColumnOf(cell, span + 2) == idx;
      if covCells[cell].Some? {
        return covCells[cell].value;
      }
      assert Once() ==> Pixel(x, y) !in fetched by {
        assert Pixel(x, y) in fetched && Once() ==> FetchedOnce(Pixel(x, y));
      }
      s := Fetch(m, x, y);
      FillCovCell(m, x, y, slot, s);
    }

    /** One coverage fetch, computed and logged. */
    method Fetch(m: Memory, x: int, y: int) returns (s: Sample)
      requires Valid(m)
      modifies this`fetched
      ensures s == FilteredSource(m, cfg, x, y)
      ensures fetched == old(fetched) + multiset{Pixel(x, y)}
      ensures old(Once()) && Pixel(x, y) !in old(fetched) && y in walked && InCovWindow(x) ==>
        OnceButFetched(Pixel(x, y))
    {
      hide SourcePixel, FilteredSource;
      s := FetchCov(m, cfg, x, y);
      fetched := fetched + multiset{Pixel(x, y)};
      if old(Once()) && Pixel(x, y) !in old(fetched) && y in walked && InCovWindow(x) {
        forall q | q in filtered ensures FilteredOnce(q) {
          assert old(FilteredOnce(q));
        }
        forall q | q in fetched && q != Pixel(x, y) ensures FetchedOnce(q) {
          assert old(FetchedOnce(q));
        }
      }
    }

    /** Put a fetch just made into the memo. */
    method FillCovCell(ghost m: Memory, x: int, y: int, slot: nat, s: Sample)
      requires Valid(m) && InCovWindow(x) && slot < 2 && rowY[slot] == Some(y)
      requires s == FilteredSource(m, cfg, x, y)
      modifies covCells
      ensures Valid(m)
      ensures old(OnceButFetched(Pixel(x, y))) ==> Once()
    {
      hide SourcePixel, FilteredSource;
      var cell := Cell(slot, CovSpan(span), x - xLo + 1);
      covCells[cell] := Some(s);
      forall k | 0 <= k < covCells.Length ensures CovCellHolds(m, k) {
        assert old(CovCellHolds(m, k));
      }
      if old(OnceButFetched(Pixel(x, y))) {
        forall q | q in fetched ensures FetchedOnce(q) {
          assert q != Pixel(x, y) ==> old(FetchedOnce(q));
        }
        forall q | q in filtered ensures FilteredOnce(q) {
          assert old(FilteredOnce(q));
        }
      }
    }

    /** `vi_divot`: three coverage fetches on one row and the median of their colours. */
    method Divot(m: Memory, x: int, y: int) returns (o: Rgb)
      requires Valid(m)
      modifies this`walked, this`fetched, rowY, cells, covCells
      ensures Valid(m)
      ensures o == DivotRgb(FilteredSource(m, cfg, x - 1, y), FilteredSource(m, cfg, x, y),
                            FilteredSource(m, cfg, x + 1, y))
      ensures old(walked) <= walked
      ensures old(Resident(y)) ==> rowY[..] == old(rowY[..]) && cells[..] == old(cells[..])
      ensures old(Once()) && front <= y <= front + 1 && InWindow(x) ==> Once()
    {
      hide SourcePixel, FilteredSource;
      var center := FetchCovMemo(m, x, y);
      var left := FetchCovMemo(m, x - 1, y);
      var right := FetchCovMemo(m, x + 1, y);
      if center.cvg == 7 && left.cvg == 7 && right.cvg == 7 {
        return center.rgb;
      }
      MedianBranchesIsMedian(left.rgb.r, center.rgb.r, right.rgb.r);
      MedianBranchesIsMedian(left.rgb.g, center.rgb.g, right.rgb.g);
      MedianBranchesIsMedian(left.rgb.b, center.rgb.b, right.rgb.b);
      o := Rgb(MedianBranches(left.rgb.r, center.rgb.r, right.rgb.r),
               MedianBranches(left.rgb.g, center.rgb.g, right.rgb.g),
               MedianBranches(left.rgb.b, center.rgb.b, right.rgb.b));
    }

    /** `vi_sample_direct`: the filter dispatch, past the outer layer. The filter chain it runs is
        logged here, whoever asked for it. */
    method SampleDirect(m: Memory, x: int, y: int) returns (o: Rgb)
      requires Valid(m)
      modifies this`walked, this`filtered, this`fetched, rowY, cells, covCells
      ensures Valid(m)
      ensures o == SourcePixel(m, cfg, x, y)
      ensures filtered == old(filtered) + if cfg.aaMode <= 1 then multiset{Pixel(x, y)} else multiset{}
      ensures old(walked) <= walked
      ensures old(Resident(y)) ==> rowY[..] == old(rowY[..]) && cells[..] == old(cells[..])
      ensures old(Once()) && cfg.aaMode > 1 ==> Once()
      ensures old(Once()) && cfg.aaMode <= 1 && front <= y <= front + 1 && InWindow(x) ==>
        y in old(walked) && Pixel(x, y) !in old(filtered) ==> OnceButFiltered(Pixel(x, y))
    {
      hide FilteredSource;
      if cfg.aaMode <= 1 {
        if cfg.divot {
          o := Divot(m, x, y);
        } else {
          var s := FetchCovMemo(m, x, y);
          o := s.rgb;
        }
        LogChain(x, y);
      } else {
        o := RawRgb(m, cfg, x, y);
      }
    }

    ghost method LogChain(x: int, y: int)
      requires Shaped()
      modifies this`filtered
      ensures filtered == old(filtered) + multiset{Pixel(x, y)}
      ensures old(Once()) && InWindow(x) && y in walked && Pixel(x, y) !in old(filtered) ==>
        OnceButFiltered(Pixel(x, y))
    {
      filtered := filtered + multiset{Pixel(x, y)};
      if old(Once()) && InWindow(x) && y in walked && Pixel(x, y) !in old(filtered) {
        forall q | q in filtered && q != Pixel(x, y) ensures FilteredOnce(q) {
          assert old(FilteredOnce(q));
        }
        forall q | q in fetched ensures FetchedOnce(q) {
          assert old(FetchedOnce(q));
        }
      }
    }

    /** `vi_sample`: one source pixel, served from the outer layer when it is there. The cell is
        chosen before the miss is computed, and the miss runs the inner layer over the same rows. */
    method Sample(m: Memory, x: int, y: int) returns (o: Rgb)
      requires Valid(m)
      modifies this`walked, this`filtered, this`fetched, rowY, cells, covCells
      ensures Valid(m)
      ensures o == SourcePixel(m, cfg, x, y)
      ensures old(Once()) && (cfg.aaMode > 1 || (front <= y <= front + 1 && InWindow(x))) ==> Once()
    {
      hide SourcePixel, FilteredSource;
      if cfg.aaMode > 1 {
        o := SampleDirect(m, x, y);
        return;
      }
      var idx := x - xLo;
      if idx < 0 || idx >= span {
        o := SampleDirect(m, x, y);
        return;
      }
      var slot := RowSlot(m, y);
      var cell := Cell(slot, span, idx);
      assert CellHolds(m, cell) && RowOf(cell, span) == slot && ColumnOf(cell, span) == idx;
      if cells[cell].Some? {
        return cells[cell].value;
      }
      assert Once() ==> Pixel(x, y) !in filtered by {
        assert Pixel(x, y) in filtered && Once() ==> FilteredOnce(Pixel(x, y));
      }
      o := SampleDirect(m, x, y);
      FillCell(m, x, y, slot, o);
    }

    /** Put the chain just run into the memo. */
    method FillCell(ghost m: Memory, x: int, y: int, slot: nat, o: Rgb)
      requires Valid(m) && InWindow(x) && slot < 2 && rowY[slot] == Some(y)
      requires o == SourcePixel(m, cfg, x, y)
      modifies cells
      ensures Valid(m)
      ensures old(OnceButFiltered(Pixel(x, y))) ==> Once()
    {
      hide SourcePixel, FilteredSource;
      var cell := Cell(slot, span, x - xLo);
      cells[cell] := Some(o);
      forall k | 0 <= k < cells.Length ensures CellHolds(m, k) {
        assert old(CellHolds(m, k));
      }
      if old(OnceButFiltered(Pixel(x, y))) {
        forall q | q in filtered ensures FilteredOnce(q) {
          assert q != Pixel(x, y) ==> old(FilteredOnce(q));
        }
        forall q | q in fetched ensures FetchedOnce(q) {
          assert old(FetchedOnce(q));
        }
      }
    }

    /** `vi_column`: the vertical lerp of one column, whose lower tap is skipped at weight zero. */
    method Column(m: Memory, x: int, sy: int, yfrac: nat) returns (o: Rgb)
      requires Valid(m) && yfrac < 32
      modifies this`walked, this`filtered, this`fetched, rowY, cells, covCells
      ensures Valid(m)
      ensures o == MeanRgb(SourcePixel(m, cfg, x, sy), SourcePixel(m, cfg, x, sy + 1), yfrac)
      ensures old(Once()) && (cfg.aaMode > 1 || (front == sy && InWindow(x))) ==> Once()
    {
      hide SourcePixel, FilteredSource;
      if yfrac == 0 {
        o := Sample(m, x, sy);
        MeanZeroWeight(o, SourcePixel(m, cfg, x, sy + 1));
        return;
      }
      var upper := Sample(m, x, sy);
      var lower := Sample(m, x, sy + 1);
      o := Lerp3(upper, lower, yfrac);
    }
  }
}
