/** `generate_affidavit` of netlify/functions/generate_affidavit.py, on a
    document body given as the list of its top-level elements. Tables are
    rows of cells and a cell is its text; every other element (a spacing
    paragraph, say) is a `Block`. `doc.tables` is the list of the body's
    tables in document order, so the `k`-th table is the element at
    `Positions(body)[k]`. */
module DocxTables {
  import opened Wrappers
  import Text

  datatype Row = Row(cells: seq<string>)
  datatype Element = Table(rows: seq<Row>) | Block(text: string)

  /** The exceptions the generator can raise: an index past the end of a
      list (`tables`, `rows`, `cells`, `ordinals`, `allDefendants`) and
      `list.index` of a name that is not listed. */
  datatype PyError = IndexError | ValueError

  datatype Outcome<+T> = Done(value: T) | Raised(error: PyError)

  // ------------------------------------------------------------ doc.tables

  /** Where the tables are, in order. */
  function Positions(els: seq<Element>): (ps: seq<nat>)
    ensures forall k :: 0 <= k < |ps| ==> ps[k] < |els| && els[ps[k]].Table?
    decreases |els|
  {
    if |els| == 0 then []
    else
      var init := els[..|els| - 1];
      assert forall p :: 0 <= p < |init| ==> init[p] == els[p];
      Positions(init) + (if els[|els| - 1].Table? then [|els| - 1] else [])
  }

  /** The tables are listed in document order, each once, and none is
      missed. */
  lemma {:induction false} PositionsOrdered(els: seq<Element>)
    ensures var ps := Positions(els);
      && (forall k, l :: 0 <= k < l < |ps| ==> ps[k] < ps[l])
      && (forall p :: 0 <= p < |els| && els[p].Table? ==> p in ps)
    decreases |els|
  {
    if |els| > 0 {
      var init := els[..|els| - 1];
      PositionsOrdered(init);
      assert forall p :: 0 <= p < |init| ==> init[p] == els[p];
    }
  }

  /** The tables of a prefix are the first tables of the whole; the later
      ones all lie at or after its end. */
  lemma {:induction false} PositionsPrefix(els: seq<Element>, n: nat)
    requires n <= |els|
    ensures var pre := Positions(els[..n]);
      && |pre| <= |Positions(els)| && pre == Positions(els)[..|pre|]
      && forall k :: |pre| <= k < |Positions(els)| ==> Positions(els)[k] >= n
    decreases |els| - n
  {
    if n < |els| {
      var init := els[..|els| - 1];
      assert init[..n] == els[..n];
      PositionsPrefix(init, n);
    } else {
      assert els[..n] == els;
    }
  }

  /** Replacing a table by a table, or a block by a block, moves no table. */
  lemma {:induction false} PositionsUpdate(els: seq<Element>, p: nat, e: Element)
    requires p < |els| && els[p].Table? == e.Table?
    ensures Positions(els[p := e]) == Positions(els)
    decreases |els|
  {
    var upd := els[p := e];
    if p == |els| - 1 {
      assert upd[..|upd| - 1] == els[..|els| - 1];
    } else {
      assert upd[..|upd| - 1] == els[..|els| - 1][p := e];
      PositionsUpdate(els[..|els| - 1], p, e);
    }
  }

  /** `doc.tables[k].rows[r].cells[c].text`, `None` for an IndexError. */
  function CellText(els: seq<Element>, k: nat, r: nat, c: nat): Option<string> {
    var ps := Positions(els);
    if k >= |ps| then None
    else
      var rows := els[ps[k]].rows;
      if r >= |rows| || c >= |rows[r].cells| then None
      else Some(rows[r].cells[c])
  }

  /** `doc.tables[k].rows[r].cells[c].text = text`. */
  function SetCell(els: seq<Element>, k: nat, r: nat, c: nat, text: string): (res: Outcome<seq<Element>>)
    ensures res.Raised? <==> CellText(els, k, r, c).None?
    ensures res.Raised? ==> res.error == IndexError
    ensures res.Done? ==> |res.value| == |els| && Positions(res.value) == Positions(els)
    ensures res.Done? ==> forall j :: 0 <= j < |els| && j != Positions(els)[k] ==> res.value[j] == els[j]
    ensures res.Done? ==> var t := els[Positions(els)[k]].rows;
      res.value[Positions(els)[k]] == Table(t[r := Row(t[r].cells[c := text])])
  {
    if CellText(els, k, r, c).None? then Raised(IndexError)
    else
      var ps := Positions(els);
      var rows := els[ps[k]].rows;
      var t := Table(rows[r := Row(rows[r].cells[c := text])]);
      PositionsUpdate(els, ps[k], t);
      Done(els[ps[k] := t])
  }

  /** After an assignment the cell holds the new text and every other cell
      keeps its own. */
  lemma SetCellFrame(els: seq<Element>, k: nat, r: nat, c: nat, text: string, k': nat, r': nat, c': nat)
    requires SetCell(els, k, r, c, text).Done?
    ensures var res := SetCell(els, k, r, c, text).value;
      CellText(res, k', r', c') == if (k', r', c') == (k, r, c) then Some(text) else CellText(els, k', r', c')
  {
    var ps := Positions(els);
    var res := SetCell(els, k, r, c, text).value;
    PositionsOrdered(els);
    if k' < |ps| && k' != k {
      assert ps[k'] != ps[k] by {
        if k' < k { assert ps[k'] < ps[k]; } else { assert ps[k] < ps[k']; }
      }
    }
  }

  /** Every position moved `d` further on. */
  function Shift(ps: seq<nat>, d: nat): (r: seq<nat>)
    ensures |r| == |ps| && forall k :: 0 <= k < |ps| ==> r[k] == ps[k] + d
  {
    seq(|ps|, k requires 0 <= k < |ps| => ps[k] + d)
  }

  /** The tables of a concatenation: those of the first part, then those of
      the second shifted past the first. */
  lemma {:induction false} PositionsAppend(a: seq<Element>, b: seq<Element>)
    ensures Positions(a + b) == Positions(a) + Shift(Positions(b), |a|)
    decreases |b|
  {
    if |b| == 0 {
      assert a + b == a;
    } else {
      var ab := a + b;
      var binit := b[..|b| - 1];
      assert ab[..|ab| - 1] == a + binit;
      var last: seq<nat> := if b[|b| - 1].Table? then [|b| - 1] else [];
      var lastAb: seq<nat> := if ab[|ab| - 1].Table? then [|ab| - 1] else [];
      assert Positions(ab) == Positions(a + binit) + lastAb;
      assert Positions(a + binit) == Positions(a) + Shift(Positions(binit), |a|) by {
        PositionsAppend(a, binit);
      }
      assert Positions(b) == Positions(binit) + last;
      assert Shift(last, |a|) == lastAb;
      assert Shift(Positions(b), |a|) == Shift(Positions(binit), |a|) + lastAb;
    }
  }

  // ------------------------------------------------------------ list.insert

  /** `parent.insert(i, x)`: an index at or past the end appends. */
  function InsertAt(s: seq<Element>, i: nat, x: Element): (r: seq<Element>)
    ensures |r| == |s| + 1
    ensures i < |s| ==> r == s[..i] + [x] + s[i..]
    ensures i >= |s| ==> r == s + [x]
  {
    if i >= |s| then s + [x] else s[..i] + [x] + s[i..]
  }

  /** The body as the list `parent` the generator edits in place. */
  class Body {
    var elements: seq<Element>

    constructor(els: seq<Element>)
      ensures elements == els
    {
      elements := els;
    }

    method Insert(i: nat, x: Element)
      modifies this
      ensures elements == InsertAt(old(elements), i, x)
    {
      elements := InsertAt(elements, i, x);
    }

    /** `tbl.getparent().remove(tbl)` for the element at `p`. */
    method Remove(p: nat)
      requires p < |elements|
      modifies this
      ensures elements == old(elements)[..p] + old(elements)[p + 1..]
    {
      elements := elements[..p] + elements[p + 1..];
    }

    /** A cell assignment; `false` when it raises an IndexError. */
    method Assign(k: nat, r: nat, c: nat, text: string) returns (ok: bool)
      modifies this
      ensures ok <==> CellText(old(elements), k, r, c).Some?
      ensures ok ==> elements == SetCell(old(elements), k, r, c, text).value
      ensures !ok ==> elements == old(elements)
    {
      var res := SetCell(elements, k, r, c, text);
      ok := res.Done?;
      if ok {
        elements := res.value;
      }
    }

    /** The clone loop of lines 53-71: for defendants 2.. (at most five more),
        a copy of the First Defendant table at `pos` and, when the body has
        an element after it, a copy of that spacing element, each inserted at
        `insert_pos`, which starts after the spacing and moves past every
        inserted element. */
    method CloneDefendants(pos: nat, count: nat)
      requires pos < |elements| && count > 1
      modifies this
      ensures elements == Cloned(old(elements), pos, ClonesFor(count))
    {
      ghost var e := elements;
      var first := elements[pos];
      var hasSpacing := pos + 1 < |elements|;
      var spacing := if hasSpacing then elements[pos + 1] else first;
      var insertPos := pos + 2;
      var i := 1;
      while i < count
        invariant 1 <= i <= count && i <= 6
        invariant elements == Cloned(e, pos, i - 1)
        invariant insertPos == pos + 2 + (i - 1) * |CloneUnit(e, pos)|
      {
        assert pos + 2 + (i - 1) * |CloneUnit(e, pos)| + |CloneUnit(e, pos)| == pos + 2 + i * |CloneUnit(e, pos)|;
        if i >= 6 {
          break;
        }
        insertPos := InsertUnit(e, pos, first, hasSpacing, spacing, insertPos, i - 1);
        i := i + 1;
      }
    }

    /** One pass of the clone loop: the table copy, then the spacing copy. */
    method InsertUnit(ghost e: seq<Element>, pos: nat, first: Element, hasSpacing: bool, spacing: Element, insertPos: nat, ghost n: nat)
      returns (next: nat)
      requires pos < |e| && first == e[pos] && hasSpacing == (pos + 1 < |e|)
      requires hasSpacing ==> spacing == e[pos + 1]
      requires elements == Cloned(e, pos, n)
      requires insertPos == pos + 2 + n * |CloneUnit(e, pos)|
      modifies this
      ensures elements == Cloned(e, pos, n + 1)
      ensures next == insertPos + |CloneUnit(e, pos)|
    {
      ClonedStep(e, pos, n);
      Insert(insertPos, first);
      next := insertPos + 1;
      if hasSpacing {
        Insert(next, spacing);
        next := next + 1;
      }
    }

    /** Lines 86-87: the label cell, then the name cell, of table `t`;
        `false` when either assignment raises an IndexError. */
    method Label(t: nat, caption: string, name: string) returns (ok: bool)
      modifies this
      ensures LabelledTable(old(elements), t, caption, name) == if ok then Done(elements) else Raised(IndexError)
    {
      ok := Assign(t, 0, 0, caption);
      if ok {
        ok := Assign(t, 0, 1, name);
      }
    }

    /** The label loop of lines 83-89; `Some(e)` when it raises `e`. */
    method LabelDefendants(defs: seq<string>) returns (err: Option<PyError>)
      modifies this
      ensures Labelled(old(elements), defs, 0) == if err.None? then Done(elements) else Raised(err.value)
    {
      ghost var spec := Labelled(elements, defs, 0);
      var i := 0;
      while i < |defs|
        invariant i <= |defs|
        invariant Labelled(elements, defs, i) == spec
      {
        err := LabelDefendant(defs, i, spec);
        if err.Some? {
          return;
        }
        i := i + 1;
      }
      return None;
    }

    /** One pass of the label loop, for defendant `i`. */
    method LabelDefendant(defs: seq<string>, i: nat, ghost spec: Outcome<seq<Element>>) returns (err: Option<PyError>)
      requires i < |defs| && Labelled(elements, defs, i) == spec
      modifies this
      ensures err.None? ==> Labelled(elements, defs, i + 1) == spec
      ensures err.Some? ==> spec == Raised(err.value)
    {
      var tableIdx := 2 + i;
      if tableIdx < |Positions(elements)| {
        if i >= |Ordinals| {
          return Some(IndexError);
        }
        var ok := Label(tableIdx, DefendantLabel(i), defs[i]);
        if !ok {
          return Some(IndexError);
        }
      }
      return None;
    }

    /** The prune loop of lines 93-105; `Some(e)` when it raises `e`. */
    method Prune() returns (err: Option<PyError>)
      modifies this
      ensures PruneSpec(old(elements)) == if err.None? then Done(elements) else Raised(err.value)
    {
      ghost var e := elements;
      ghost var P := Positions(e);
      var tablesToCheck := |Positions(elements)|;
      var idx := tablesToCheck - 1;
      ghost var tail: seq<Element> := [];
      assert e[..|e|] + tail == e;
      assert e[|e|..] == [];
      while idx > 1
        invariant -1 <= idx < tablesToCheck && tablesToCheck == |P|
        invariant |P| > 2 ==> idx >= 1
        invariant |P| <= 2 ==> idx == |P| - 1
        invariant elements == e[..Bound(P, |e|, idx + 1)] + tail
        invariant Pruned(e[Bound(P, |e|, idx + 1)..]) == Done(tail)
        decreases idx
      {
        err, tail := PruneOne(e, idx, tail);
        if err.Some? {
          return;
        }
        idx := idx - 1;
      }
      return None;
    }

    /** One pass of the prune loop, for table `idx`: everything from that
        table on is the filtered tail, everything before it the original. */
    method PruneOne(ghost e: seq<Element>, idx: nat, ghost tail: seq<Element>)
      returns (err: Option<PyError>, ghost tail': seq<Element>)
      requires 2 <= idx < |Positions(e)|
      requires elements == e[..Bound(Positions(e), |e|, idx + 1)] + tail
      requires Pruned(e[Bound(Positions(e), |e|, idx + 1)..]) == Done(tail)
      modifies this
      ensures err.Some? ==> PruneSpec(e) == Raised(err.value)
      ensures err.None? ==> elements == e[..Positions(e)[idx]] + tail'
      ensures err.None? ==> Pruned(e[Positions(e)[idx]..]) == Done(tail')
    {
      // the guard `idx < len(doc.tables)` of line 95 always holds: tables
      // are only removed at or after `idx`
      PruneLocate(e, elements, idx, tail);
      var a := Positions(elements)[idx];
      var check := CheckUnfilled(elements[a]);
      if check.Raised? {
        PruneRaises(e, idx);
        return Some(check.error), tail;
      }
      PruneStep(e, idx, tail);
      ghost var sofar := elements;
      PruneSplitAt(e, a, Bound(Positions(e), |e|, idx + 1), tail, sofar);
      if check.value {
        Remove(a);
        tail' := e[a + 1..Bound(Positions(e), |e|, idx + 1)] + tail;
      } else {
        tail' := [e[a]] + e[a + 1..Bound(Positions(e), |e|, idx + 1)] + tail;
      }
      err := None;
    }

    /** `generate_affidavit(data)` of lines 13-130 on the loaded template;
        `Some(e)` when it raises `e`. */
    method GenerateAffidavit(req: Request) returns (err: Option<PyError>)
      modifies this
      ensures Generate(old(elements), req) == if err.None? then Done(elements) else Raised(err.value)
    {
      var ok := Assign(0, 1, 4, req.caseNumber);
      if !ok {
        return Some(IndexError);
      }
      ok := Assign(1, 0, 1, req.claimant);
      if !ok {
        return Some(IndexError);
      }
      if |Positions(elements)| < 3 {
        return Some(IndexError);
      }
      var defendants := req.allDefendants;
      if |defendants| == 0 {
        return Some(IndexError);
      }
      ok := Assign(2, 0, 1, defendants[0]);
      if !ok {
        return Some(IndexError);
      }
      if |defendants| > 1 {
        var firstDefPos := Positions(elements)[2];
        CloneDefendants(firstDefPos, |defendants|);
      }
      err := LabelDefendants(defendants);
      if err.Some? {
        return;
      }
      err := Prune();
      if err.Some? {
        return;
      }
      var index := IndexOfName(defendants, req.defendantName);
      if index.Raised? {
        return Some(index.error);
      }
      if index.value >= |Ordinals| {
        return Some(IndexError);
      }
      FillServiceStatement(req.defendantName, DefendantLabel(index.value));
      return None;
    }

    /** Lines 114-123: every cell of every table, in place. `doc.tables` is
        taken once, before the loop. */
    method FillServiceStatement(name: string, ordinal: string)
      modifies this
      ensures elements == Filled(old(elements), name, ordinal)
    {
      ghost var e := elements;
      var tables := Positions(elements);
      PositionsOrdered(e);
      var k := 0;
      while k < |tables|
        invariant k <= |tables| && |elements| == |e|
        invariant forall j :: 0 <= j < |e| ==> elements[j] == if j in tables[..k] then FillElement(e[j], name, ordinal) else e[j]
      {
        var p := tables[k];
        assert p !in tables[..k];
        var t := FillTable(elements[p], name, ordinal);
        elements := elements[p := t];
        assert tables[..k + 1] == tables[..k] + [p];
        k := k + 1;
      }
      assert tables[..k] == tables;
    }
  }

  /** One table of the fill: every row, every cell. */
  method FillTable(x: Element, name: string, ordinal: string) returns (y: Element)
    requires x.Table?
    ensures y == FillElement(x, name, ordinal)
  {
    var rows := x.rows;
    var i := 0;
    while i < |rows|
      invariant i <= |rows| == |x.rows|
      invariant forall l :: 0 <= l < |rows| ==> rows[l] == if l < i then FillRow(x.rows[l], name, ordinal) else x.rows[l]
    {
      var row := FillCells(rows[i], name, ordinal);
      rows := rows[i := row];
      i := i + 1;
    }
    y := Table(rows);
  }

  /** One row of the fill. */
  method FillCells(row: Row, name: string, ordinal: string) returns (out: Row)
    ensures out == FillRow(row, name, ordinal)
  {
    var cells := row.cells;
    var j := 0;
    while j < |cells|
      invariant j <= |cells| == |row.cells|
      invariant forall l :: 0 <= l < |cells| ==> cells[l] == if l < j then FillStatement(row.cells[l], name, ordinal) else row.cells[l]
    {
      cells := cells[j := FillStatement(cells[j], name, ordinal)];
      j := j + 1;
    }
    out := Row(cells);
  }

  // ------------------------------------------------------------ cloning

  /** How many clones the loop inserts: one per defendant after the first,
      and never more than five. */
  function ClonesFor(count: nat): (n: nat)
    ensures n <= 5
    ensures count >= 1 ==> n + 1 == if count < 6 then count else 6
  {
    if count <= 1 then 0 else if count < 6 then count - 1 else 5
  }

  /** The First Defendant table and, when there is one, the element after it. */
  function CloneUnit(els: seq<Element>, pos: nat): (u: seq<Element>)
    requires pos < |els|
    ensures 1 <= |u| <= 2 && u[0] == els[pos]
  {
    if pos + 1 < |els| then [els[pos], els[pos + 1]] else [els[pos]]
  }

  function Repeat(u: seq<Element>, n: nat): (r: seq<Element>)
    ensures |r| == n * |u|
  {
    if n == 0 then [] else Repeat(u, n - 1) + u
  }

  /** The body after `n` passes: the copies sit right after the First
      Defendant table and its spacing, in front of everything that followed. */
  function Cloned(els: seq<Element>, pos: nat, n: nat): seq<Element>
    requires pos < |els|
  {
    var cut := if pos + 2 <= |els| then pos + 2 else |els|;
    els[..cut] + Repeat(CloneUnit(els, pos), n) + els[cut..]
  }

  /** One pass of the loop inserts one more unit at `insert_pos`. */
  lemma ClonedStep(els: seq<Element>, pos: nat, n: nat)
    requires pos < |els|
    ensures var u := CloneUnit(els, pos);
      var c := Cloned(els, pos, n);
      var ip := pos + 2 + n * |u|;
      var once := InsertAt(c, ip, els[pos]);
      Cloned(els, pos, n + 1) == if |u| == 2 then InsertAt(once, ip + 1, els[pos + 1]) else once
  {
    var u := CloneUnit(els, pos);
    var c := Cloned(els, pos, n);
    var ip := pos + 2 + n * |u|;
    var r := Repeat(u, n);
    if |u| == 2 {
      var pre := els[..pos + 2];
      var post := els[pos + 2..];
      assert c == pre + r + post;
      assert |pre + r| == ip;
      assert c[..ip] == pre + r && c[ip..] == post;
      var once := InsertAt(c, ip, els[pos]);
      assert once == pre + r + [els[pos]] + post;
      assert once[..ip + 1] == pre + r + [els[pos]] && once[ip + 1..] == post;
      assert pre + Repeat(u, n + 1) + post == pre + r + [els[pos]] + [els[pos + 1]] + post;
    } else {
      assert c == els + r;
      assert ip >= |c|;
    }
  }

  /** A clone unit whose only table is its first element. */
  predicate TableThenSpacing(u: seq<Element>) {
    1 <= |u| <= 2 && u[0].Table? && (|u| == 2 ==> !u[1].Table?)
  }

  lemma UnitPositions(u: seq<Element>)
    requires TableThenSpacing(u)
    ensures Positions(u) == [0]
  {
    assert u[..1] == [u[0]];
    assert u[..1][..0] == [];
  }

  /** The starts of `n` units of width `w`. */
  function Starts(w: nat, n: nat): (r: seq<nat>)
    ensures |r| == n
  {
    if n == 0 then [] else Starts(w, n - 1) + [(n - 1) * w]
  }

  /** `n` units hold `n` tables, one at the start of each unit. */
  lemma {:induction false} PositionsRepeat(u: seq<Element>, n: nat)
    requires TableThenSpacing(u)
    ensures Positions(Repeat(u, n)) == Starts(|u|, n)
  {
    if n > 0 {
      PositionsRepeat(u, n - 1);
      PositionsAppend(Repeat(u, n - 1), u);
      UnitPositions(u);
      assert Shift([0], (n - 1) * |u|) == [(n - 1) * |u|];
    }
  }

  /** Every unit of a repetition starts with the unit's first element. */
  lemma {:induction false} RepeatAtStarts(u: seq<Element>, n: nat, t: nat)
    requires 1 <= |u| && t < n
    ensures Starts(|u|, n)[t] < |Repeat(u, n)| && Repeat(u, n)[Starts(|u|, n)[t]] == u[0]
  {
    if t < n - 1 {
      RepeatAtStarts(u, n - 1, t);
      assert Starts(|u|, n)[t] == Starts(|u|, n - 1)[t];
    } else {
      assert Repeat(u, n) == Repeat(u, n - 1) + u;
      assert |Repeat(u, n - 1)| == (n - 1) * |u|;
    }
  }

  /** The First Defendant table lies before the cut. */
  lemma TableBeforeCut(els: seq<Element>, pos: nat, k0: nat, cut: nat)
    requires k0 < |Positions(els)| && Positions(els)[k0] == pos
    requires pos < cut <= |els|
    ensures k0 < |Positions(els[..cut])|
  {
    var ps := Positions(els);
    var pp := Positions(els[..cut]);
    PositionsPrefix(els, cut);
    PositionsOrdered(els[..cut]);
    assert els[..cut][pos] == els[pos];
    var i :| 0 <= i < |pp| && pp[i] == pos;
    assert ps[i] == ps[k0];
    PositionsOrdered(els);
  }

  /** No table follows the First Defendant table before the cut. */
  lemma NoTableUntilCut(els: seq<Element>, pos: nat, k0: nat, cut: nat)
    requires k0 < |Positions(els)| && Positions(els)[k0] == pos
    requires pos + 1 < |els| ==> !els[pos + 1].Table?
    requires cut == if pos + 2 <= |els| then pos + 2 else |els|
    ensures forall k :: k0 < k < |Positions(els)| ==> Positions(els)[k] >= cut
  {
    var ps := Positions(els);
    PositionsOrdered(els);
    forall k | k0 < k < |ps|
      ensures ps[k] >= cut
    {
      assert ps[k0] < ps[k];
    }
  }

  /** The prefix up to the cut ends with the First Defendant table and holds
      the first `k0 + 1` tables. */
  lemma CutTables(els: seq<Element>, pos: nat, k0: nat, cut: nat)
    requires k0 < |Positions(els)| && Positions(els)[k0] == pos
    requires pos + 1 < |els| ==> !els[pos + 1].Table?
    requires cut == if pos + 2 <= |els| then pos + 2 else |els|
    ensures Positions(els[..cut]) == Positions(els)[..k0 + 1]
  {
    var ps := Positions(els);
    var pp := Positions(els[..cut]);
    PositionsPrefix(els, cut);
    TableBeforeCut(els, pos, k0, cut);
    NoTableUntilCut(els, pos, k0, cut);
    assert |pp| <= k0 + 1 by {
      assert forall k :: 0 <= k < |pp| ==> pp[k] < cut;
    }
  }

  /** Where the tables of the cloned body are: the first `k0 + 1` as before,
      one at the start of each inserted unit, then the rest shifted. */
  lemma ClonedPositions(els: seq<Element>, pos: nat, n: nat, k0: nat)
    requires k0 < |Positions(els)| && Positions(els)[k0] == pos
    requires pos + 1 < |els| ==> !els[pos + 1].Table?
    ensures var cut := if pos + 2 <= |els| then pos + 2 else |els|;
      && Positions(Cloned(els, pos, n)) == Positions(els)[..k0 + 1] + Shift(Starts(|CloneUnit(els, pos)|, n), cut)
           + Shift(Positions(els[cut..]), cut + n * |CloneUnit(els, pos)|)
      && |Positions(els)| == k0 + 1 + |Positions(els[cut..])|
  {
    var cut := if pos + 2 <= |els| then pos + 2 else |els|;
    OriginalAroundCut(els, pos, k0, cut);
    ClonedAroundCut(els, pos, n, cut);
  }

  /** The tables of the original body, split at the cut after the First
      Defendant table and its spacing. */
  lemma OriginalAroundCut(els: seq<Element>, pos: nat, k0: nat, cut: nat)
    requires k0 < |Positions(els)| && Positions(els)[k0] == pos
    requires pos + 1 < |els| ==> !els[pos + 1].Table?
    requires cut == if pos + 2 <= |els| then pos + 2 else |els|
    ensures Positions(els[..cut]) == Positions(els)[..k0 + 1]
    ensures Positions(els) == Positions(els[..cut]) + Shift(Positions(els[cut..]), cut)
  {
    assert Positions(els[..cut]) == Positions(els)[..k0 + 1] by {
      CutTables(els, pos, k0, cut);
    }
    assert els == els[..cut] + els[cut..];
    PositionsAppend(els[..cut], els[cut..]);
  }

  /** The tables of the cloned body: those in front of the cut, those of
      the copies, then those after the cut shifted past the copies. */
  lemma ClonedAroundCut(els: seq<Element>, pos: nat, n: nat, cut: nat)
    requires pos < |els| && (pos + 1 < |els| ==> !els[pos + 1].Table?) && els[pos].Table?
    requires cut == if pos + 2 <= |els| then pos + 2 else |els|
    ensures Positions(Cloned(els, pos, n)) == Positions(els[..cut]) + Shift(Starts(|CloneUnit(els, pos)|, n), cut)
      + Shift(Positions(els[cut..]), cut + n * |CloneUnit(els, pos)|)
  {
    var u := CloneUnit(els, pos);
    var pre := els[..cut];
    var post := els[cut..];
    var r := Repeat(u, n);
    var w := |u|;
    assert Cloned(els, pos, n) == (pre + r) + post;
    assert Positions(pre + r) == Positions(pre) + Shift(Starts(w, n), cut) by {
      PositionsAppend(pre, r);
      PositionsRepeat(u, n);
    }
    assert Positions((pre + r) + post) == Positions(pre + r) + Shift(Positions(post), cut + n * w) by {
      PositionsAppend(pre + r, post);
    }
  }

  /** With a spacing element that is not a table (or none), cloning adds
      exactly `n` tables, right after the First Defendant table at table
      index `k0`, all of them copies of it; the tables in front keep their
      places. */
  lemma ClonedTables(els: seq<Element>, pos: nat, n: nat, k0: nat)
    requires k0 < |Positions(els)| && Positions(els)[k0] == pos
    requires pos + 1 < |els| ==> !els[pos + 1].Table?
    ensures var ps := Positions(Cloned(els, pos, n));
      && |ps| == |Positions(els)| + n
      && ps[..k0 + 1] == Positions(els)[..k0 + 1]
      && forall j :: k0 < j <= k0 + n ==> Cloned(els, pos, n)[ps[j]] == els[pos]
  {
    ClonedPositions(els, pos, n, k0);
    forall j | k0 < j <= k0 + n
      ensures Cloned(els, pos, n)[Positions(Cloned(els, pos, n))[j]] == els[pos]
    {
      ClonedTableAt(els, pos, n, k0, j);
    }
  }

  lemma ClonedTableAt(els: seq<Element>, pos: nat, n: nat, k0: nat, j: nat)
    requires k0 < |Positions(els)| && Positions(els)[k0] == pos
    requires pos + 1 < |els| ==> !els[pos + 1].Table?
    requires k0 < j <= k0 + n
    ensures j < |Positions(Cloned(els, pos, n))|
    ensures Cloned(els, pos, n)[Positions(Cloned(els, pos, n))[j]] == els[pos]
  {
    var u := CloneUnit(els, pos);
    var cut := if pos + 2 <= |els| then pos + 2 else |els|;
    var t := j - k0 - 1;
    ClonedIndex(els, pos, n, k0, t);
    RepeatAtStarts(u, n, t);
    var rep := Repeat(u, n);
    var c := Cloned(els, pos, n);
    assert c == els[..cut] + rep + els[cut..];
    assert c[cut + Starts(|u|, n)[t]] == rep[Starts(|u|, n)[t]];
  }

  /** The `t`-th inserted table is the start of the `t`-th unit. */
  lemma ClonedIndex(els: seq<Element>, pos: nat, n: nat, k0: nat, t: nat)
    requires k0 < |Positions(els)| && Positions(els)[k0] == pos
    requires pos + 1 < |els| ==> !els[pos + 1].Table?
    requires t < n
    ensures var cut := if pos + 2 <= |els| then pos + 2 else |els|;
      && k0 + 1 + t < |Positions(Cloned(els, pos, n))|
      && Positions(Cloned(els, pos, n))[k0 + 1 + t] == cut + Starts(|CloneUnit(els, pos)|, n)[t]
  {
    ClonedPositions(els, pos, n, k0);
  }

  // ------------------------------------------------------------ labels

  /** The labels of the defendant tables, in order. */
  const Ordinals: seq<string> := ["First", "Second", "Third", "Fourth", "Fifth", "Sixth"]

  function DefendantLabel(i: nat): string
    requires i < |Ordinals|
  {
    Ordinals[i] + " Defendant"
  }

  /** The label loop of lines 83-89 from defendant `i` on: the table `2 + i`,
      when there is one, gets the label and the name; an ordinal past the
      sixth raises an IndexError. */
  function Labelled(els: seq<Element>, defs: seq<string>, i: nat): (res: Outcome<seq<Element>>)
    ensures res.Done? ==> Positions(res.value) == Positions(els)
    decreases |defs| - i
  {
    if i >= |defs| then Done(els)
    else if 2 + i >= |Positions(els)| then Labelled(els, defs, i + 1)
    else if i >= |Ordinals| then Raised(IndexError)
    else
      match LabelledTable(els, 2 + i, DefendantLabel(i), defs[i])
      case Raised(x) => Raised(x)
      case Done(e2) => Labelled(e2, defs, i + 1)
  }

  /** One pass of the label loop: the label cell, then the name cell, of
      table `t`. */
  function LabelledTable(els: seq<Element>, t: nat, caption: string, name: string): (res: Outcome<seq<Element>>)
    ensures res.Raised? ==> res.error == IndexError
    ensures res.Done? ==> Positions(res.value) == Positions(els)
  {
    match SetCell(els, t, 0, 0, caption)
    case Raised(x) => Raised(x)
    case Done(e1) => SetCell(e1, t, 0, 1, name)
  }

  /** What a cell holds after labelling from defendant `i` on: the label and
      the name cells of each table `2 + j` (`j >= i`) that exists hold the
      `j`-th label and name; every other cell is as it was. */
  lemma {:induction false} LabelledCell(els: seq<Element>, defs: seq<string>, i: nat, k: nat, r: nat, c: nat)
    requires Labelled(els, defs, i).Done?
    ensures var res := Labelled(els, defs, i).value;
      if 2 + i <= k < 2 + |defs| && k < |Positions(els)| && r == 0 && c <= 1
      then k - 2 < |Ordinals| && CellText(res, k, r, c) == Some(if c == 0 then DefendantLabel(k - 2) else defs[k - 2])
      else CellText(res, k, r, c) == CellText(els, k, r, c)
    decreases |defs| - i, 1
  {
    if i < |defs| {
      if 2 + i >= |Positions(els)| {
        assert Labelled(els, defs, i) == Labelled(els, defs, i + 1);
        LabelledCell(els, defs, i + 1, k, r, c);
      } else {
        LabelledCellAtTable(els, defs, i, k, r, c);
      }
    }
  }

  /** `LabelledCell` when table `2 + i` exists: that table is labelled, then
      the rest. */
  lemma {:induction false} LabelledCellAtTable(els: seq<Element>, defs: seq<string>, i: nat, k: nat, r: nat, c: nat)
    requires Labelled(els, defs, i).Done? && i < |defs| && 2 + i < |Positions(els)|
    ensures var res := Labelled(els, defs, i).value;
      if 2 + i <= k < 2 + |defs| && k < |Positions(els)| && r == 0 && c <= 1
      then k - 2 < |Ordinals| && CellText(res, k, r, c) == Some(if c == 0 then DefendantLabel(k - 2) else defs[k - 2])
      else CellText(res, k, r, c) == CellText(els, k, r, c)
    decreases |defs| - i, 0
  {
    assert i < |Ordinals|;
    var e2 := LabelledTable(els, 2 + i, DefendantLabel(i), defs[i]).value;
    assert Labelled(els, defs, i) == Labelled(e2, defs, i + 1);
    var res := Labelled(e2, defs, i + 1).value;
    var here := k == 2 + i && r == 0 && c <= 1;
    assert Positions(e2) == Positions(els)
      && CellText(e2, k, r, c) == (if here then Some(if c == 0 then DefendantLabel(i) else defs[i]) else CellText(els, k, r, c)) by {
      LabelStep(els, 2 + i, DefendantLabel(i), defs[i], k, r, c);
    }
    assert if 2 + (i + 1) <= k < 2 + |defs| && k < |Positions(e2)| && r == 0 && c <= 1
      then k - 2 < |Ordinals| && CellText(res, k, r, c) == Some(if c == 0 then DefendantLabel(k - 2) else defs[k - 2])
      else CellText(res, k, r, c) == CellText(e2, k, r, c) by {
      LabelledCell(e2, defs, i + 1, k, r, c);
    }
  }

  /** One pass of the label loop: the label cell and then the name cell. */
  lemma LabelStep(els: seq<Element>, t: nat, caption: string, name: string, k: nat, r: nat, c: nat)
    requires LabelledTable(els, t, caption, name).Done?
    ensures var e2 := LabelledTable(els, t, caption, name).value;
      && Positions(e2) == Positions(els)
      && CellText(e2, k, r, c) == (if k == t && r == 0 && c <= 1 then Some(if c == 0 then caption else name) else CellText(els, k, r, c))
  {
    var e1 := SetCell(els, t, 0, 0, caption).value;
    SetCellFrame(els, t, 0, 0, caption, k, r, c);
    SetCellFrame(e1, t, 0, 1, name, k, r, c);
  }

  /** With more than six defendants and a table for the seventh, labelling
      raises an IndexError: there is no seventh ordinal. */
  lemma {:induction false} LabellingStopsAtSix(els: seq<Element>, defs: seq<string>, i: nat)
    requires i <= 6 < |defs| && 8 < |Positions(els)|
    ensures Labelled(els, defs, i).Raised?
    decreases 6 - i
  {
    if i < 6 {
      match LabelledTable(els, 2 + i, DefendantLabel(i), defs[i])
      case Raised(_) =>
      case Done(e2) => LabellingStopsAtSix(e2, defs, i + 1);
    }
  }

  // ------------------------------------------------------------ pruning

  /** The label cell names a defendant from the third to the sixth. */
  predicate NamesLaterDefendant(caption: string) {
    Text.Contains(caption, "Third Defendant") || Text.Contains(caption, "Fourth Defendant")
    || Text.Contains(caption, "Fifth Defendant") || Text.Contains(caption, "Sixth Defendant")
  }

  /** Lines 97-103 for one table: it is left unfilled when its label names a
      later defendant and its value cell still holds the `[Defendant` field.
      Row 0 without a label cell, or without a value cell once the label
      matched, raises an IndexError. */
  function CheckUnfilled(t: Element): (res: Outcome<bool>)
    requires t.Table?
    ensures res.Raised? ==> res.error == IndexError
    ensures res == Done(true) ==>
      (|t.rows| > 0 && |t.rows[0].cells| >= 2
       && NamesLaterDefendant(t.rows[0].cells[0]) && Text.Contains(t.rows[0].cells[1], "[Defendant"))
  {
    if |t.rows| == 0 then Done(false)
    else if |t.rows[0].cells| == 0 then Raised(IndexError)
    else if !NamesLaterDefendant(t.rows[0].cells[0]) then Done(false)
    else if |t.rows[0].cells| < 2 then Raised(IndexError)
    else Done(Text.Contains(t.rows[0].cells[1], "[Defendant"))
  }

  predicate Unfilled(x: Element) {
    x.Table? && CheckUnfilled(x) == Done(true)
  }

  predicate CheckRaises(x: Element) {
    x.Table? && CheckUnfilled(x).Raised?
  }

  /** The elements with every unfilled table dropped, or the IndexError of a
      table that cannot be checked. */
  function Pruned(s: seq<Element>): (res: Outcome<seq<Element>>)
    ensures res.Raised? ==> res.error == IndexError
    decreases |s|
  {
    if |s| == 0 then Done([])
    else
      var rest := Pruned(s[1..]);
      if CheckRaises(s[0]) then Raised(IndexError)
      else if rest.Raised? then rest
      else Done((if Unfilled(s[0]) then [] else [s[0]]) + rest.value)
  }

  /** The filter raises exactly when some table cannot be checked; what it
      keeps comes from the input and is never an unfilled table, and every
      element that is not an unfilled table is kept. */
  lemma {:induction false} PrunedMeaning(s: seq<Element>)
    ensures Pruned(s).Raised? <==> exists j :: 0 <= j < |s| && CheckRaises(s[j])
    ensures Pruned(s).Done? ==> forall x :: x in Pruned(s).value ==> x in s && !Unfilled(x)
    ensures Pruned(s).Done? ==> forall j :: 0 <= j < |s| && !Unfilled(s[j]) ==> s[j] in Pruned(s).value
    decreases |s|
  {
    if |s| > 0 {
      PrunedMeaning(s[1..]);
      assert forall j :: 1 <= j < |s| ==> s[j] == s[1..][j - 1];
      assert forall x :: x in s[1..] ==> x in s;
    }
  }

  /** Lines 93-105: the tables from the third on are checked, the last
      first, and the unfilled ones removed; everything in front of the third
      table stays. */
  function PruneSpec(els: seq<Element>): Outcome<seq<Element>> {
    var ps := Positions(els);
    if |ps| <= 2 then Done(els)
    else
      match Pruned(els[ps[2]..])
      case Raised(x) => Raised(x)
      case Done(t) => Done(els[..ps[2]] + t)
  }

  /** Where the loop's next boundary is: the table after `k`, or the end. */
  function Bound(ps: seq<nat>, n: nat, k: nat): nat {
    if k < |ps| then ps[k] else n
  }

  /** The filter on an element in front of the rest. */
  lemma PrunedCons(x: Element, rest: seq<Element>)
    ensures Pruned([x] + rest) ==
      if CheckRaises(x) then Raised(IndexError)
      else match Pruned(rest)
        case Raised(e) => Raised(e)
        case Done(t) => Done((if Unfilled(x) then [] else [x]) + t)
  {
    assert ([x] + rest)[1..] == rest;
    assert ([x] + rest)[0] == x;
  }

  /** Elements that are not tables pass through the filter. */
  lemma {:induction false} PrunedBlocks(blocks: seq<Element>, rest: seq<Element>)
    requires forall j :: 0 <= j < |blocks| ==> !blocks[j].Table?
    ensures Pruned(blocks + rest) == match Pruned(rest)
      case Done(t) => Done(blocks + t)
      case Raised(x) => Raised(x)
    decreases |blocks|
  {
    if |blocks| > 0 {
      assert blocks + rest == [blocks[0]] + (blocks[1..] + rest);
      assert !blocks[0].Table?;
      PrunedCons(blocks[0], blocks[1..] + rest);
      PrunedBlocks(blocks[1..], rest);
      match Pruned(rest)
      case Raised(_) =>
      case Done(t) =>
        assert [blocks[0]] + (blocks[1..] + t) == blocks + t;
    } else {
      assert blocks + rest == rest;
      match Pruned(rest)
      case Raised(_) =>
      case Done(t) =>
        assert blocks + t == t;
    }
  }

  /** No table lies strictly between two consecutive tables, or after the
      last one. */
  /** Table `idx` lies before the next table (or the end of the body), and
      nothing between them is a table. */
  lemma BlocksAfterTable(e: seq<Element>, idx: nat)
    requires idx < |Positions(e)|
    ensures var a := Positions(e)[idx];
      var B := Bound(Positions(e), |e|, idx + 1);
      a < B <= |e| && forall j :: a < j < B ==> !e[j].Table?
  {
    var P := Positions(e);
    assert P[idx] < Bound(P, |e|, idx + 1) <= |e| by {
      PositionsOrdered(e);
    }
    forall j | P[idx] < j < Bound(P, |e|, idx + 1) ensures !e[j].Table? {
      NoTableBetween(e, idx, j);
    }
  }

  lemma NoTableBetween(els: seq<Element>, k: nat, p: nat)
    requires k < |Positions(els)| && Positions(els)[k] < p < Bound(Positions(els), |els|, k + 1)
    ensures p < |els| && !els[p].Table?
  {
    var ps := Positions(els);
    PositionsOrdered(els);
    forall l | 0 <= l < |ps| ensures ps[l] != p {
      if l < k {
        assert ps[l] < ps[k];
      } else if l > k + 1 {
        assert ps[k + 1] < ps[l];
      }
    }
    assert p !in ps;
  }

  /** Below the boundary the current list is still the original one, so the
      table the loop checks next is where it was. */
  lemma PruneLocate(e: seq<Element>, cur: seq<Element>, idx: nat, tail: seq<Element>)
    requires 2 <= idx < |Positions(e)|
    requires cur == e[..Bound(Positions(e), |e|, idx + 1)] + tail
    ensures idx < |Positions(cur)| && Positions(cur)[idx] == Positions(e)[idx]
    ensures Positions(e)[idx] < Bound(Positions(e), |e|, idx + 1) <= |e|
    ensures cur[Positions(e)[idx]] == e[Positions(e)[idx]]
  {
    var P := Positions(e);
    var B := Bound(P, |e|, idx + 1);
    assert P[idx] < B <= |e| by {
      PositionsOrdered(e);
    }
    var pre := Positions(e[..B]);
    assert idx < |pre| && pre[idx] == P[idx] by {
      PositionsPrefix(e, B);
    }
    assert cur[..B] == e[..B];
    assert Positions(cur)[..|pre|] == pre by {
      PositionsPrefix(cur, B);
    }
    assert Positions(cur)[idx] == pre[idx];
  }

  /** One pass of the prune loop, on the specification side: the checked
      table joins the filtered tail unless it is unfilled, and the blocks
      after it follow. */
  lemma PruneStep(e: seq<Element>, idx: nat, tail: seq<Element>)
    requires 2 <= idx < |Positions(e)|
    requires Pruned(e[Bound(Positions(e), |e|, idx + 1)..]) == Done(tail)
    requires !CheckRaises(e[Positions(e)[idx]])
    ensures var a := Positions(e)[idx];
      var B := Bound(Positions(e), |e|, idx + 1);
      && a < B <= |e|
      && Pruned(e[a..]) == Done((if Unfilled(e[a]) then [] else [e[a]]) + e[a + 1..B] + tail)
  {
    BlocksAfterTable(e, idx);
    PrunedFromTable(e, Positions(e)[idx], Bound(Positions(e), |e|, idx + 1), tail);
  }

  /** The filter from a checkable element at `a`, followed by elements
      that are not tables up to `b`, in front of a part whose filter is
      known. */
  lemma PrunedFromTable(e: seq<Element>, a: nat, b: nat, tail: seq<Element>)
    requires a < b <= |e| && forall j :: a < j < b ==> !e[j].Table?
    requires Pruned(e[b..]) == Done(tail) && !CheckRaises(e[a])
    ensures Pruned(e[a..]) == Done((if Unfilled(e[a]) then [] else [e[a]]) + e[a + 1..b] + tail)
  {
    var blocks := e[a + 1..b];
    assert forall j :: 0 <= j < |blocks| ==> !blocks[j].Table? by {
      assert forall j :: 0 <= j < |blocks| ==> blocks[j] == e[a + 1 + j];
    }
    assert e[a..] == [e[a]] + blocks + e[b..];
    PrunedSplit(e[a], blocks, e[b..], tail);
  }

  /** The current list around the table the loop checks: the original in
      front of it, then the table, the blocks after it and the filtered
      tail. */
  lemma PruneSplitAt(e: seq<Element>, a: nat, b: nat, tail: seq<Element>, cur: seq<Element>)
    requires a < b <= |e| && cur == e[..b] + tail
    ensures cur == e[..a] + ([e[a]] + e[a + 1..b] + tail)
    ensures cur[..a] + cur[a + 1..] == e[..a] + (e[a + 1..b] + tail)
    ensures [] + e[a + 1..b] + tail == e[a + 1..b] + tail
  {
    assert e[..b] == e[..a] + [e[a]] + e[a + 1..b];
    assert cur[..a] == e[..a];
    assert cur[a + 1..] == e[a + 1..b] + tail;
  }

  /** A checkable table, then blocks, then a part whose filter is known. */
  lemma PrunedSplit(x: Element, blocks: seq<Element>, after: seq<Element>, tail: seq<Element>)
    requires !CheckRaises(x) && Pruned(after) == Done(tail)
    requires forall j :: 0 <= j < |blocks| ==> !blocks[j].Table?
    ensures Pruned([x] + blocks + after) == Done((if Unfilled(x) then [] else [x]) + blocks + tail)
  {
    PrunedBlocks(blocks, after);
    assert [x] + blocks + after == [x] + (blocks + after);
    PrunedCons(x, blocks + after);
    var head: seq<Element> := if Unfilled(x) then [] else [x];
    assert head + (blocks + tail) == head + blocks + tail;
  }

  /** A table from the third on that cannot be checked makes the whole
      pruning raise. */
  lemma PruneRaises(e: seq<Element>, idx: nat)
    requires 2 <= idx < |Positions(e)| && CheckRaises(e[Positions(e)[idx]])
    ensures PruneSpec(e) == Raised(IndexError)
  {
    var P := Positions(e);
    PositionsOrdered(e);
    assert P[2] <= P[idx];
    var s := e[P[2]..];
    PrunedMeaning(s);
    assert s[P[idx] - P[2]] == e[P[idx]];
  }

  // ------------------------------------------------------------ service statement

  /** Lines 117-123 on one cell: a cell mentioning "duly serve" gets the
      name, the ordinal and the process filled in and the date, time and
      place fields blanked, in that order; every other cell is left alone. */
  function FillStatement(text: string, name: string, ordinal: string): string {
    if Text.Contains(text, "duly serve") then
      var t1 := Text.ReplaceAll(text, "[Name]", name);
      var t2 := Text.ReplaceAll(t1, "[Defendant]", ordinal);
      var t3 := Text.ReplaceAll(t2, "[Date]", "");
      var t4 := Text.ReplaceAll(t3, "[time am/pm]", "");
      var t5 := Text.ReplaceAll(t4, "[Place]", "");
      Text.ReplaceAll(t5, "[Name of process]", "General Procedure Claim")
    else text
  }

  function FillRow(row: Row, name: string, ordinal: string): Row {
    Row(seq(|row.cells|, j requires 0 <= j < |row.cells| => FillStatement(row.cells[j], name, ordinal)))
  }

  function FillElement(x: Element, name: string, ordinal: string): Element {
    match x
    case Table(rows) => Table(seq(|rows|, i requires 0 <= i < |rows| => FillRow(rows[i], name, ordinal)))
    case Block(_) => x
  }

  /** The body after the statement fill of lines 114-123. */
  function Filled(els: seq<Element>, name: string, ordinal: string): seq<Element> {
    seq(|els|, j requires 0 <= j < |els| => FillElement(els[j], name, ordinal))
  }

  /** The fill moves no table. */
  lemma {:induction false} FilledPositions(els: seq<Element>, name: string, ordinal: string)
    ensures Positions(Filled(els, name, ordinal)) == Positions(els)
    decreases |els|
  {
    if |els| > 0 {
      var f := Filled(els, name, ordinal);
      var init := els[..|els| - 1];
      assert f[..|f| - 1] == Filled(init, name, ordinal);
      FilledPositions(init, name, ordinal);
    }
  }

  /** After the fill every cell holds the filled text of what it held, and the
      same cells exist. */
  lemma FilledCell(els: seq<Element>, name: string, ordinal: string, k: nat, r: nat, c: nat)
    ensures CellText(Filled(els, name, ordinal), k, r, c) ==
      match CellText(els, k, r, c)
      case None => None
      case Some(x) => Some(FillStatement(x, name, ordinal))
  {
    FilledPositions(els, name, ordinal);
  }

  /** Characters that open and close a template field. */
  predicate Bracketed(p: string) {
    |p| >= 2 && p[0] == '[' && p[|p| - 1] == ']'
    && forall k :: 0 < k < |p| - 1 ==> p[k] != '[' && p[k] != ']'
  }

  /** Two different fields never overlap in a text. */
  lemma BracketedApart(s: string, p: string, q: string, i: nat, j: nat)
    requires Bracketed(p) && Bracketed(q) && p != q
    requires Text.OccursAt(s, p, i) && Text.OccursAt(s, q, j)
    ensures i + |p| <= j || j + |q| <= i
  {
    assert forall d :: i <= d < i + |p| ==> s[d] == p[d - i] by {
      assert forall d :: i <= d < i + |p| ==> s[d] == s[i..i + |p|][d - i];
    }
    assert forall d :: j <= d < j + |q| ==> s[d] == q[d - j] by {
      assert forall d :: j <= d < j + |q| ==> s[d] == s[j..j + |q|][d - j];
    }
  }

  /** A field survives the replacement of a different field. */
  lemma FieldSurvives(t: string, p: string, x: string, q: string)
    requires Bracketed(p) && Bracketed(q) && p != q && Text.Contains(t, q)
    ensures Text.Contains(Text.ReplaceAll(t, p, x), q)
  {
    var j :| 0 <= j <= |t| && Text.OccursAt(t, q, j);
    forall i | 0 <= i <= |t| && Text.OccursAt(t, p, i) ensures i + |p| <= j || j + |q| <= i {
      BracketedApart(t, p, q, i, j);
    }
    Text.ReplaceAllKeepsOccurrence(t, p, x, q, j);
  }

  /** A service statement with a process field ends up naming the General
      Procedure Claim: no earlier step can break the field. */
  lemma StatementNamesProcess(text: string, name: string, ordinal: string)
    requires Text.Contains(text, "duly serve") && Text.Contains(text, "[Name of process]")
    ensures Text.Contains(FillStatement(text, name, ordinal), "General Procedure Claim")
  {
    var q := "[Name of process]";
    assert Bracketed(q);
    assert Bracketed("[Name]") && Bracketed("[Defendant]") && Bracketed("[Date]");
    assert Bracketed("[time am/pm]") && Bracketed("[Place]");
    var t1 := Text.ReplaceAll(text, "[Name]", name);
    FieldSurvives(text, "[Name]", name, q);
    var t2 := Text.ReplaceAll(t1, "[Defendant]", ordinal);
    FieldSurvives(t1, "[Defendant]", ordinal, q);
    var t3 := Text.ReplaceAll(t2, "[Date]", "");
    FieldSurvives(t2, "[Date]", "", q);
    var t4 := Text.ReplaceAll(t3, "[time am/pm]", "");
    FieldSurvives(t3, "[time am/pm]", "", q);
    var t5 := Text.ReplaceAll(t4, "[Place]", "");
    FieldSurvives(t4, "[Place]", "", q);
    Text.ReplaceAllInserts(t5, q, "General Procedure Claim");
  }

  // ------------------------------------------------------------ the whole generator

  /** The request fields the generator reads: `caseNumber`, `claimant`,
      `allDefendants` and `defendantName`. */
  datatype Request = Request(caseNumber: string, claimant: string, allDefendants: seq<string>, defendantName: string)

  /** `defendants.index(name)` from position `i` on. */
  function IndexFrom(defs: seq<string>, name: string, i: nat): (r: Outcome<nat>)
    requires i <= |defs|
    ensures r.Done? ==> i <= r.value < |defs| && defs[r.value] == name && forall j :: i <= j < r.value ==> defs[j] != name
    ensures r.Raised? ==> r.error == ValueError && forall j :: i <= j < |defs| ==> defs[j] != name
    decreases |defs| - i
  {
    if i == |defs| then Raised(ValueError)
    else if defs[i] == name then Done(i)
    else IndexFrom(defs, name, i + 1)
  }

  /** `defendants.index(name)`: the first position of the name, or a
      ValueError when it is not listed. */
  function IndexOfName(defs: seq<string>, name: string): (r: Outcome<nat>)
    ensures r.Raised? <==> name !in defs
    ensures r.Raised? ==> r.error == ValueError
    ensures r.Done? ==> r.value < |defs| && defs[r.value] == name && forall j :: 0 <= j < r.value ==> defs[j] != name
  {
    IndexFrom(defs, name, 0)
  }

  /** Lines 22-25: the case number and the claimant. */
  function Header(els: seq<Element>, req: Request): Outcome<seq<Element>> {
    match SetCell(els, 0, 1, 4, req.caseNumber)
    case Raised(x) => Raised(x)
    case Done(e1) => SetCell(e1, 1, 0, 1, req.claimant)
  }

  /** Lines 28-123, on the body with the header filled. */
  function FromDefendants(e2: seq<Element>, req: Request): Outcome<seq<Element>> {
    var defs := req.allDefendants;
    if |Positions(e2)| < 3 || |defs| == 0 then Raised(IndexError)
    else
      match SetCell(e2, 2, 0, 1, defs[0])
      case Raised(x) => Raised(x)
      case Done(e3) =>
        var e4 := if |defs| > 1 then Cloned(e3, Positions(e3)[2], ClonesFor(|defs|)) else e3;
        match Labelled(e4, defs, 0)
        case Raised(x) => Raised(x)
        case Done(e5) =>
          match PruneSpec(e5)
          case Raised(x) => Raised(x)
          case Done(e6) =>
            match IndexOfName(defs, req.defendantName)
            case Raised(x) => Raised(x)
            case Done(idx) =>
              if idx >= |Ordinals| then Raised(IndexError)
              else Done(Filled(e6, req.defendantName, DefendantLabel(idx)))
  }

  /** `generate_affidavit(data)` on the template body `els`. */
  function Generate(els: seq<Element>, req: Request): Outcome<seq<Element>> {
    match Header(els, req)
    case Raised(x) => Raised(x)
    case Done(e2) => FromDefendants(e2, req)
  }

  /** An affidavit is produced only for a listed defendant among the first
      six: otherwise `index` raises a ValueError or the ordinal lookup an
      IndexError (unless an earlier step already raised). */
  lemma GeneratedOnlyForListedDefendant(els: seq<Element>, req: Request)
    requires Generate(els, req).Done?
    ensures req.defendantName in req.allDefendants
    ensures IndexOfName(req.allDefendants, req.defendantName).value < |Ordinals|
  {
    var e2 := Header(els, req).value;
    assert FromDefendants(e2, req).Done?;
  }

  /** Different bodies that agree on a prefix agree on the cells of the
      tables inside it. */
  lemma FrontCells(x: seq<Element>, y: seq<Element>, n: nat, k: nat, r: nat, c: nat)
    requires n <= |x| && n <= |y| && x[..n] == y[..n]
    requires k < |Positions(x)| && Positions(x)[k] < n
    ensures CellText(x, k, r, c) == CellText(y, k, r, c)
  {
    PositionsPrefix(x, n);
    PositionsPrefix(y, n);
    var pre := Positions(x[..n]);
    assert k < |pre| && pre[k] == Positions(x)[k];
    assert Positions(y)[k] == pre[k];
    assert x[pre[k]] == x[..n][pre[k]] == y[pre[k]];
  }

  /** Cloning after the table at `pos` keeps the cells of every earlier
      table. */
  lemma ClonedKeepsFront(els: seq<Element>, pos: nat, n: nat, k: nat, r: nat, c: nat)
    requires pos < |els| && k < |Positions(els)| && Positions(els)[k] < pos
    ensures CellText(Cloned(els, pos, n), k, r, c) == CellText(els, k, r, c)
  {
    var cut := if pos + 2 <= |els| then pos + 2 else |els|;
    var cl := Cloned(els, pos, n);
    assert cl[..cut] == els[..cut];
    FrontCells(els, cl, cut, k, r, c);
  }

  /** Pruning keeps the cells of the first two tables. */
  lemma PruneKeepsFront(els: seq<Element>, k: nat, r: nat, c: nat)
    requires PruneSpec(els).Done? && k < 2 && k < |Positions(els)|
    ensures CellText(PruneSpec(els).value, k, r, c) == CellText(els, k, r, c)
  {
    var ps := Positions(els);
    if |ps| > 2 {
      var res := PruneSpec(els).value;
      assert ps[k] < ps[2] by {
        PositionsOrdered(els);
      }
      assert res[..ps[2]] == els[..ps[2]];
      FrontCells(els, res, ps[2], k, r, c);
    }
  }

  /** A cell of the first two tables passes the defendant steps: only the
      statement fill can touch it, and that only when it mentions "duly
      serve". */
  lemma FrontCellKept(e2: seq<Element>, req: Request, k: nat, r: nat, c: nat)
    requires FromDefendants(e2, req).Done? && k < 2 && CellText(e2, k, r, c).Some?
    requires !Text.Contains(CellText(e2, k, r, c).value, "duly serve")
    ensures CellText(FromDefendants(e2, req).value, k, r, c) == CellText(e2, k, r, c)
  {
    var defs := req.allDefendants;
    var e3 := SetCell(e2, 2, 0, 1, defs[0]).value;
    SetCellFrame(e2, 2, 0, 1, defs[0], k, r, c);
    var e4 := if |defs| > 1 then Cloned(e3, Positions(e3)[2], ClonesFor(|defs|)) else e3;
    if |defs| > 1 {
      assert Positions(e3)[k] < Positions(e3)[2] by {
        PositionsOrdered(e3);
      }
      ClonedKeepsFront(e3, Positions(e3)[2], ClonesFor(|defs|), k, r, c);
    }
    var e5 := Labelled(e4, defs, 0).value;
    LabelledCell(e4, defs, 0, k, r, c);
    var e6 := PruneSpec(e5).value;
    PruneKeepsFront(e5, k, r, c);
    var idx := IndexOfName(defs, req.defendantName).value;
    FilledCell(e6, req.defendantName, DefendantLabel(idx), k, r, c);
  }

  /** The case number lands in row 1, cell 4 of the first table and the
      claimant in row 0, cell 1 of the second, whatever the defendants
      (so long as neither mentions "duly serve", which would pull it into
      the statement fill). */
  lemma HeaderIsFilled(els: seq<Element>, req: Request)
    requires Generate(els, req).Done?
    requires !Text.Contains(req.caseNumber, "duly serve") && !Text.Contains(req.claimant, "duly serve")
    ensures CellText(Generate(els, req).value, 0, 1, 4) == Some(req.caseNumber)
    ensures CellText(Generate(els, req).value, 1, 0, 1) == Some(req.claimant)
  {
    var e1 := SetCell(els, 0, 1, 4, req.caseNumber).value;
    var e2 := SetCell(e1, 1, 0, 1, req.claimant).value;
    SetCellFrame(els, 0, 1, 4, req.caseNumber, 0, 1, 4);
    SetCellFrame(e1, 1, 0, 1, req.claimant, 0, 1, 4);
    SetCellFrame(e1, 1, 0, 1, req.claimant, 1, 0, 1);
    FrontCellKept(e2, req, 0, 1, 4);
    FrontCellKept(e2, req, 1, 0, 1);
  }
}
