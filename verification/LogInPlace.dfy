/** Changing a committed entry in place, as the file system does when it counts
the pages of a write entry that are no longer valid. */
module LogInPlace {
  import opened LogPages
  import opened LogSurgery

  lemma {:induction false} SizeUpdate(es: seq<Entry>, n: nat, e: Entry)
    requires n < |es| && Len(e) == Len(es[n])
    ensures Size(es[n := e]) == Size(es)
    decreases |es|
  {
    if n == 0 {
      assert es[n := e][1..] == es[1..];
    } else {
      assert es[n := e][1..] == es[1..][n - 1 := e];
      SizeUpdate(es[1..], n - 1, e);
    }
  }

  lemma {:induction false} RecsUpdate(page: nat, off: nat, es: seq<Entry>, n: nat, e: Entry)
    requires n < |es| && Len(e) == Len(es[n])
    ensures Recs(page, off, es)[n].addr == Addr(page, off + Size(es[..n]))
    ensures Recs(page, off, es[n := e]) == Recs(page, off, es)[n := LogRec(Addr(page, off + Size(es[..n])), e)]
    decreases |es|
  {
    if n == 0 {
      assert es[n := e][1..] == es[1..];
    } else {
      assert es[n := e][1..] == es[1..][n - 1 := e];
      assert es[..n][1..] == es[1..][..n - 1] && es[..n][0] == es[0];
      RecsUpdate(page, off + Len(es[0]), es[1..], n - 1, e);
    }
  }

  lemma {:induction false} PageHoldsUpdate(c: map<Addr, Cell>, page: nat, off: nat, es: seq<Entry>, n: nat, e: Entry)
    requires PageHolds(c, page, off, es) && AllFit(es)
    requires n < |es| && Len(e) == Len(es[n])
    ensures PageHolds(c[Addr(page, off + Size(es[..n])) := Rec(e)], page, off, es[n := e])
    decreases |es|
  {
    var d := c[Addr(page, off + Size(es[..n])) := Rec(e)];
    assert Fits(es[0]);
    if n == 0 {
      assert es[n := e][1..] == es[1..];
      PageHoldsFrame(c, d, page, off + Len(es[0]), es[1..]);
    } else {
      assert es[n := e][1..] == es[1..][n - 1 := e];
      assert es[..n][1..] == es[1..][..n - 1] && es[..n][0] == es[0];
      PageHoldsUpdate(c, page, off + Len(es[0]), es[1..], n - 1, e);
    }
  }

  /** Record q of the flattened log is entry n of page i. */
  lemma {:induction false} FlatUpdate(pages: seq<nat>, recs: seq<seq<Entry>>, q: nat, e: Entry) returns (i: nat, n: nat)
    requires |recs| <= |pages|
    requires q < |Flat(pages, recs)| && Len(e) == Len(Flat(pages, recs)[q].e)
    ensures i < |recs| && n < |recs[i]| && Len(recs[i][n]) == Len(e)
    ensures Flat(pages, recs)[q].addr == Addr(pages[i], Size(recs[i][..n])) && Flat(pages, recs)[q].e == recs[i][n]
    ensures Flat(pages, recs[i := recs[i][n := e]]) == Flat(pages, recs)[q := LogRec(Flat(pages, recs)[q].addr, e)]
    decreases |recs|
  {
    var first := Recs(pages[0], 0, recs[0]);
    if q < |first| {
      i, n := 0, q;
      RecsEntry(pages[0], 0, recs[0], q);
      RecsUpdate(pages[0], 0, recs[0], q, e);
      var recs' := recs[0 := recs[0][q := e]];
      assert recs'[1..] == recs[1..];
    } else {
      i, n := FlatUpdate(pages[1..], recs[1..], q - |first|, e);
      var recs' := recs[i + 1 := recs[i + 1][n := e]];
      assert recs'[1..] == recs[1..][i := recs[1..][i][n := e]];
      i := i + 1;
    }
  }

  lemma {:induction false} RecsEntry(page: nat, off: nat, es: seq<Entry>, i: nat)
    requires i < |es|
    ensures Recs(page, off, es)[i].e == es[i]
    decreases |es|
  {
    if i > 0 {
      RecsEntry(page, off + Len(es[0]), es[1..], i - 1);
    }
  }

  lemma UpdatePages(m: Nvm, lay: Layout, i: nat, n: nat, e: Entry)
    requires Holds(m, lay)
    requires i < |lay.recs| && n < |lay.recs[i]| && Len(lay.recs[i][n]) == Len(e)
    ensures var lay' := Layout(lay.pages, lay.recs[i := lay.recs[i][n := e]]);
            Holds(Nvm(m.cells[Addr(lay.pages[i], Size(lay.recs[i][..n])) := Rec(e)], m.next), lay')
  {
    var lay' := Layout(lay.pages, lay.recs[i := lay.recs[i][n := e]]);
    var d := m.cells[Addr(lay.pages[i], Size(lay.recs[i][..n])) := Rec(e)];
    assert PageOk(m, lay, i);
    assert Fits(lay.recs[i][n]);
    SizeStep(lay.recs[i], n);
    forall x | 0 <= x < |lay'.recs| ensures PageOk(Nvm(d, m.next), lay', x) {
      assert PageOk(m, lay, x);
      if x == i {
        PageHoldsUpdate(m.cells, lay.pages[i], 0, lay.recs[i], n, e);
        SizeUpdate(lay.recs[i], n, e);
      } else {
        PageHoldsFrame(m.cells, d, lay.pages[x], 0, lay.recs[x]);
      }
    }
  }

  /** Storing another entry of the same length over record q of the committed log
      changes that record and nothing else. */
  lemma StoreInPlace(m: Nvm, lay: Layout, k: nat, j: nat, q: nat, e: Entry) returns (lay': Layout)
    requires Holds(m, lay) && CutOk(lay, k, j)
    requires q < |LogAt(lay, k, j)| && Len(e) == Len(LogAt(lay, k, j)[q].e)
    ensures var log := LogAt(lay, k, j);
            && Holds(Nvm(m.cells[log[q].addr := Rec(e)], m.next), lay')
            && LogAt(lay', k, j) == log[q := LogRec(log[q].addr, e)]
    ensures CutOk(lay', k, j) && CutAddr(lay', k, j) == CutAddr(lay, k, j)
    ensures lay'.pages == lay.pages && Pending(lay', k, j) == Pending(lay, k, j)
    ensures |lay'.recs| == |lay.recs| && End(lay') == End(lay)
    ensures |lay'.recs[|lay.recs| - 1]| == |lay.recs[|lay.recs| - 1]|
  {
    var com := Committed(lay, k, j);
    var i, n := FlatUpdate(com.pages, com.recs, q, e);
    assert com.recs[i] == if i < k then lay.recs[i] else lay.recs[k][..j];
    lay' := Layout(lay.pages, lay.recs[i := lay.recs[i][n := e]]);
    assert lay.recs[i][..n] == com.recs[i][..n];
    UpdatePages(m, lay, i, n, e);
    assert Committed(lay', k, j).recs == com.recs[i := com.recs[i][n := e]] by {
      if i == k {
        assert lay.recs[k][n := e][..j] == lay.recs[k][..j][n := e];
        assert lay'.recs[..k] == lay.recs[..k];
      } else {
        assert lay'.recs[..k] == lay.recs[..k][i := lay.recs[i][n := e]];
      }
    }
    TailAfterUpdate(lay, k, j, i, n, e);
  }

  lemma TailAfterUpdate(lay: Layout, k: nat, j: nat, i: nat, n: nat, e: Entry)
    requires CutOk(lay, k, j) && i <= k && n < (if i < k then |lay.recs[i]| else j) && Len(lay.recs[i][n]) == Len(e)
    ensures var lay' := Layout(lay.pages, lay.recs[i := lay.recs[i][n := e]]);
            && CutAddr(lay', k, j) == CutAddr(lay, k, j)
            && Pending(lay', k, j) == Pending(lay, k, j) && End(lay') == End(lay)
  {
    var lay' := Layout(lay.pages, lay.recs[i := lay.recs[i][n := e]]);
    assert lay'.recs[k + 1..] == lay.recs[k + 1..];
    SizeUpdate(lay.recs[i], n, e);
    if i == k {
      assert lay'.recs[k][..j] == lay.recs[k][..j][n := e];
      assert lay'.recs[k][j..] == lay.recs[k][j..];
      SizeUpdate(lay.recs[k][..j], n, e);
    }
  }
}
