/** The data side of `build_plot` (app.py:136-164): which merged columns are plotted,
    the forward fill applied to them, the choice of the setpoint column and the axis each
    trace is drawn on. The Plotly figure and its HTML are not part of this model. */
module Plot {
  import opened Wrappers
  import opened Seqs
  import opened Text
  import opened Tables
  import opened Merge
  import opened MergeProperties

  /** `pd.to_numeric(..., errors="coerce")` on one merged cell: text goes through the
      number parser, an aligned number stays, a missing cell is NaN. */
  function NumberOf(p: Parsers, v: Value): Option<real> {
    match v
    case Null => None
    case Raw(s) => p.number(s)
    case Num(x) => Some(x)
  }

  /** A whole column coerced to numbers. */
  function Coerce(cells: seq<Value>, p: Parsers): (r: seq<Option<real>>)
    ensures |r| == |cells| && forall i :: 0 <= i < |cells| ==> r[i] == NumberOf(p, cells[i])
  {
    seq(|cells|, i requires 0 <= i < |cells| => NumberOf(p, cells[i]))
  }

  /** `col_num.notna().sum()`: how many cells of a column coerce to a number. */
  function NumericCount(cells: seq<Value>, p: Parsers): (n: nat)
    ensures n <= |cells|
    ensures n > 0 <==> exists i :: 0 <= i < |cells| && NumberOf(p, cells[i]).Some?
  {
    if |cells| == 0 then 0
    else
      var rest := NumericCount(cells[..|cells| - 1], p);
      assert forall i :: 0 <= i < |cells| - 1 ==> cells[..|cells| - 1][i] == cells[i];
      rest + (if NumberOf(p, cells[|cells| - 1]).Some? then 1 else 0)
  }

  /** Which columns of the merged frame the loop at app.py:138-142 keeps: not the time
      column, and at least one numeric value. */
  function NumericMask(m: Merged, p: Parsers): (r: seq<bool>)
    ensures |r| == |m.columns|
  {
    seq(|m.columns|, j requires 0 <= j < |m.columns| =>
      m.columns[j].name != m.timeName && NumericCount(m.columns[j].cells, p) > 0)
  }

  /** `numeric_cols`, in column order. */
  function NumericNames(m: Merged, p: Parsers): seq<string> {
    Select(Names(m.columns), Positions(NumericMask(m, p)))
  }

  /** `numeric_cols` built as app.py:137-142 builds it. The frame's first column is the
      time column, which the loop skips; the remaining columns are visited in order. */
  method NumericColumns(m: Merged, p: Parsers) returns (names: seq<string>)
    ensures names == NumericNames(m, p)
  {
    var mask := NumericMask(m, p);
    names := [];
    for c := 0 to |m.columns|
      invariant names == Select(Names(m.columns), Positions(mask[..c]))
    {
      assert mask[..c + 1][..c] == mask[..c];
      if m.columns[c].name != m.timeName && NumericCount(m.columns[c].cells, p) > 0 {
        names := names + [m.columns[c].name];
      }
    }
    assert mask[..|m.columns|] == mask;
  }

  /** Every plotted column is a non-time column with a number in it, and every such
      column is plotted. */
  lemma NumericNamesSpec(m: Merged, p: Parsers, name: string)
    ensures name in NumericNames(m, p) <==>
      exists j :: 0 <= j < |m.columns| && m.columns[j].name == name && name != m.timeName
        && exists i :: 0 <= i < |m.columns[j].cells| && NumberOf(p, m.columns[j].cells[i]).Some?
  {
    var mask := NumericMask(m, p);
    var pos := Positions(mask);
    var names := NumericNames(m, p);
    if name in names {
      var k :| 0 <= k < |names| && names[k] == name;
      assert pos[k] in pos;
      assert m.columns[pos[k]].name == name;
    }
    if exists j :: 0 <= j < |m.columns| && m.columns[j].name == name && name != m.timeName
        && exists i :: 0 <= i < |m.columns[j].cells| && NumberOf(p, m.columns[j].cells[i]).Some? {
      var j :| 0 <= j < |m.columns| && m.columns[j].name == name && name != m.timeName
        && exists i :: 0 <= i < |m.columns[j].cells| && NumberOf(p, m.columns[j].cells[i]).Some?;
      assert mask[j];
      var k :| 0 <= k < |pos| && pos[k] == j;
      assert names[k] == name;
    }
  }

  /** Plotted names are as duplicate-free as the frame's names. */
  lemma NumericNamesDistinct(m: Merged, p: Parsers)
    requires Distinct(Names(m.columns))
    ensures Distinct(NumericNames(m, p))
  {
    SelectDistinct(Names(m.columns), Positions(NumericMask(m, p)));
  }

  // ---- Forward fill (app.py:147) ----

  /** `Series.ffill()` as a carry from left to right: a null cell takes the value
      carried so far, a non-null cell becomes the new carry. */
  function FillFrom(s: seq<Option<real>>, carry: Option<real>): (r: seq<Option<real>>)
    ensures |r| == |s|
  {
    if |s| == 0 then []
    else
      var v := if s[0].Some? then s[0] else carry;
      [v] + FillFrom(s[1..], v)
  }

  function FFill(s: seq<Option<real>>): (r: seq<Option<real>>)
    ensures |r| == |s|
  {
    FillFrom(s, None)
  }

  /** The latest non-null value among `s[..i]`, if any. */
  predicate LatestBefore(s: seq<Option<real>>, i: int, j: int)
    requires 0 <= i <= |s|
  {
    0 <= j < i && s[j].Some? && forall k :: j < k < i ==> s[k].None?
  }

  /** What the carry does, cell by cell: a non-null cell is kept; a null cell takes the
      latest earlier non-null value, or carries `carry` when there is none. */
  lemma {:induction false} FillFromMeaning(s: seq<Option<real>>, carry: Option<real>)
    ensures forall i :: 0 <= i < |s| && s[i].Some? ==> FillFrom(s, carry)[i] == s[i]
    ensures forall i, j :: 0 <= i < |s| && s[i].None? && LatestBefore(s, i, j) ==>
      FillFrom(s, carry)[i] == s[j]
    ensures forall i :: 0 <= i < |s| && (forall k :: 0 <= k <= i ==> s[k].None?) ==>
      FillFrom(s, carry)[i] == carry
  {
    if |s| > 0 {
      var v := if s[0].Some? then s[0] else carry;
      var r := FillFrom(s, carry);
      var t := s[1..];
      FillFromMeaning(t, v);
      assert r[1..] == FillFrom(t, v);
      forall i | 1 <= i < |s| && s[i].None?
        ensures forall j :: LatestBefore(s, i, j) ==> r[i] == s[j]
      {
        forall j | LatestBefore(s, i, j) ensures r[i] == s[j] {
          if j > 0 {
            assert LatestBefore(t, i - 1, j - 1);
          } else {
            assert forall k :: 0 <= k <= i - 1 ==> t[k].None?;
          }
        }
      }
      forall i | 1 <= i < |s| && (forall k :: 0 <= k <= i ==> s[k].None?)
        ensures r[i] == carry
      {
        assert forall k :: 0 <= k <= i - 1 ==> t[k].None? && s[k + 1] == t[k];
      }
      forall i | 1 <= i < |s| && s[i].Some? ensures r[i] == s[i] {
        assert t[i - 1] == s[i];
      }
    }
  }

  /** Forward fill keeps every non-null cell, sets a null cell to the latest earlier
      non-null value, and leaves a null with no non-null before it null. */
  lemma FFillMeaning(s: seq<Option<real>>)
    ensures forall i :: 0 <= i < |s| && s[i].Some? ==> FFill(s)[i] == s[i]
    ensures forall i, j :: 0 <= i < |s| && s[i].None? && LatestBefore(s, i, j) ==> FFill(s)[i] == s[j]
    ensures forall i :: 0 <= i < |s| && (forall k :: 0 <= k <= i ==> s[k].None?) ==> FFill(s)[i].None?
  {
    FillFromMeaning(s, None);
  }

  /** Filling a filled column changes nothing. */
  lemma {:induction false} FillFromIdempotent(s: seq<Option<real>>, carry: Option<real>)
    ensures FillFrom(FillFrom(s, carry), carry) == FillFrom(s, carry)
  {
    if |s| > 0 {
      var v := if s[0].Some? then s[0] else carry;
      var r := FillFrom(s, carry);
      FillFromIdempotent(s[1..], v);
      assert r[1..] == FillFrom(s[1..], v);
      assert r[0] == v;
      if r[0].None? {
        assert carry.None? && v == None;
      }
    }
  }

  lemma FFillIdempotent(s: seq<Option<real>>)
    ensures FFill(FFill(s)) == FFill(s)
  {
    FillFromIdempotent(s, None);
  }

  /** The carry, cell by cell: a non-null cell is kept and a null cell repeats the cell
      before it, or the initial carry at the start. */
  lemma {:induction false} FillFromAt(s: seq<Option<real>>, carry: Option<real>, k: nat)
    requires k < |s|
    ensures FillFrom(s, carry)[k] ==
      if s[k].Some? then s[k] else if k == 0 then carry else FillFrom(s, carry)[k - 1]
  {
    if k > 0 {
      var v := if s[0].Some? then s[0] else carry;
      assert FillFrom(s, carry) == [v] + FillFrom(s[1..], v);
      FillFromAt(s[1..], v, k - 1);
    }
  }

  /** The fill in place, over the column's buffer. */
  method ForwardFill(a: array<Option<real>>)
    modifies a
    ensures a[..] == FFill(old(a[..]))
  {
    ghost var s := a[..];
    ghost var f := FFill(s);
    var carry: Option<real> := None;
    for i := 0 to a.Length
      invariant forall k :: i <= k < a.Length ==> a[k] == s[k]
      invariant forall k :: 0 <= k < i ==> a[k] == f[k]
      invariant carry == if i == 0 then None else f[i - 1]
    {
      FillFromAt(s, None, i);
      if a[i].Some? {
        carry := a[i];
      }
      a[i] := carry;
    }
    assert a[..] == f;
  }

  // ---- Setpoint (app.py:149-160) ----

  /** The names tried when no setpoint name is given, in order. */
  const Candidates: seq<string> :=
    ["Plant Pumps.Active CW Flow Setpoint", "Active CW Flow Setpoint", "CW Flow Setpoint"]

  /** `not setpoint_name`: no name, or the empty name. */
  predicate Blank(name: Option<string>) {
    name.None? || name.value == ""
  }

  /** `{c.lower(): c for c in numeric_cols}`: a later name overwrites an earlier one with
      the same lower-case form. */
  function LowerMap(names: seq<string>): (r: map<string, string>)
    ensures forall k :: k in r <==> exists i :: 0 <= i < |names| && Lower(names[i]) == k
  {
    if |names| == 0 then map[]
    else
      var front := names[..|names| - 1];
      var last := names[|names| - 1];
      var r := LowerMap(front);
      assert forall i :: 0 <= i < |front| ==> front[i] == names[i];
      r[Lower(last) := last]
  }

  /** The dictionary maps a lower-case form to the last name that has it. */
  lemma {:induction false} LowerMapLast(names: seq<string>, i: nat)
    requires i < |names|
    requires forall j :: i < j < |names| ==> Lower(names[j]) != Lower(names[i])
    ensures Lower(names[i]) in LowerMap(names) && LowerMap(names)[Lower(names[i])] == names[i]
  {
    if i < |names| - 1 {
      var front := names[..|names| - 1];
      assert front[i] == names[i];
      LowerMapLast(front, i);
    }
  }

  /** Every name in the dictionary is one of the names. */
  lemma {:induction false} LowerMapValues(names: seq<string>, k: string)
    requires k in LowerMap(names)
    ensures LowerMap(names)[k] in names
  {
    var front := names[..|names| - 1];
    if k != Lower(names[|names| - 1]) {
      LowerMapValues(front, k);
      assert LowerMap(front)[k] in front;
    }
  }

  /** The first candidate whose lower-case form is a key of the map, looked up. */
  function FirstCandidate(lowerMap: map<string, string>, cands: seq<string>): (r: Option<string>)
    ensures r.None? <==> forall k :: 0 <= k < |cands| ==> Lower(cands[k]) !in lowerMap
    ensures r.Some? ==> exists k :: (0 <= k < |cands| && Lower(cands[k]) in lowerMap
      && r.value == lowerMap[Lower(cands[k])] && forall k' :: 0 <= k' < k ==> Lower(cands[k']) !in lowerMap)
  {
    if |cands| == 0 then None
    else if Lower(cands[0]) in lowerMap then Some(lowerMap[Lower(cands[0])])
    else
      var r := FirstCandidate(lowerMap, cands[1..]);
      assert forall k :: 1 <= k < |cands| ==> cands[k] == cands[1..][k - 1];
      r
  }

  /** Both words the fallback looks for occur in the name, ignoring case. */
  predicate FlowSetpoint(name: string) {
    Contains(Lower(name), "flow") && Contains(Lower(name), "setpoint")
  }

  /** The first name that passes `FlowSetpoint`. */
  function FirstFlowSetpoint(names: seq<string>): (r: Option<string>)
    ensures r.None? <==> forall i :: 0 <= i < |names| ==> !FlowSetpoint(names[i])
    ensures r.Some? ==> exists i :: (0 <= i < |names| && r.value == names[i] && FlowSetpoint(names[i])
      && forall i' :: 0 <= i' < i ==> !FlowSetpoint(names[i']))
  {
    if |names| == 0 then None
    else if FlowSetpoint(names[0]) then Some(names[0])
    else
      var r := FirstFlowSetpoint(names[1..]);
      assert forall i :: 1 <= i < |names| ==> names[i] == names[1..][i - 1];
      r
  }

  /** The setpoint app.py:149-160 settles on: the given name unless it is blank; then the
      candidate lookup; if that is blank too, the first flow setpoint column; failing
      everything, the given (blank) name. */
  function ChosenSetpoint(given: Option<string>, numeric: seq<string>): Option<string> {
    if !Blank(given) then given
    else
      var afterCands := match FirstCandidate(LowerMap(numeric), Candidates)
        case Some(c) => Some(c)
        case None => given;
      if !Blank(afterCands) then afterCands
      else
        match FirstFlowSetpoint(numeric)
        case Some(c) => Some(c)
        case None => afterCands
  }

  /** The loop over the candidates at app.py:152-155, stopping at the first hit. */
  method LookUpCandidates(lowerMap: map<string, string>) returns (found: Option<string>)
    ensures found == FirstCandidate(lowerMap, Candidates)
  {
    found := None;
    var i := 0;
    while i < |Candidates|
      invariant 0 <= i <= |Candidates|
      invariant FirstCandidate(lowerMap, Candidates) == FirstCandidate(lowerMap, Candidates[i..])
    {
      var key := Lower(Candidates[i]);
      if key in lowerMap {
        found := Some(lowerMap[key]);
        return;
      }
      assert Candidates[i..][1..] == Candidates[i + 1..];
      i := i + 1;
    }
  }

  /** The fallback loop at app.py:157-160, stopping at the first flow setpoint name. */
  method FindFlowSetpoint(numeric: seq<string>) returns (found: Option<string>)
    ensures found == FirstFlowSetpoint(numeric)
  {
    found := None;
    var c := 0;
    while c < |numeric|
      invariant 0 <= c <= |numeric|
      invariant FirstFlowSetpoint(numeric) == FirstFlowSetpoint(numeric[c..])
    {
      if FlowSetpoint(numeric[c]) {
        found := Some(numeric[c]);
        return;
      }
      assert numeric[c..][1..] == numeric[c + 1..];
      c := c + 1;
    }
  }

  /** The setpoint resolution of app.py:149-160. */
  method ResolveSetpoint(given: Option<string>, numeric: seq<string>) returns (r: Option<string>)
    ensures r == ChosenSetpoint(given, numeric)
  {
    r := given;
    if Blank(r) {
      var hit := LookUpCandidates(LowerMap(numeric));
      if hit.Some? {
        r := hit;
      }
      if Blank(r) {
        var flow := FindFlowSetpoint(numeric);
        if flow.Some? {
          r := flow;
        }
      }
    }
  }

  /** The name a candidate lookup lands on, described without the dictionary: the first
      candidate matched by some name (ignoring case), and among the names matching it the
      last one. */
  lemma SetpointFromCandidates(given: Option<string>, numeric: seq<string>, k: nat, i: nat)
    requires Blank(given)
    requires k < |Candidates| && i < |numeric|
    requires Lower(numeric[i]) == Lower(Candidates[k])
    requires forall k', i' :: 0 <= k' < k && 0 <= i' < |numeric| ==> Lower(numeric[i']) != Lower(Candidates[k'])
    requires forall j :: i < j < |numeric| ==> Lower(numeric[j]) != Lower(Candidates[k])
    ensures ChosenSetpoint(given, numeric) == Some(numeric[i])
  {
    var lm := LowerMap(numeric);
    LowerMapLast(numeric, i);
    forall k' | 0 <= k' < k ensures Lower(Candidates[k']) !in lm {
    }
    var r := FirstCandidate(lm, Candidates);
    var k0 :| 0 <= k0 < |Candidates| && Lower(Candidates[k0]) in lm
      && r.value == lm[Lower(Candidates[k0])] && forall k' :: 0 <= k' < k0 ==> Lower(Candidates[k']) !in lm;
    assert k0 == k;
    assert |Lower(numeric[i])| == |Candidates[k]| > 0;
  }

  /** Without a candidate match, the first name holding both "flow" and "setpoint" is
      chosen; without that either, the given blank name stays. */
  lemma SetpointFallback(given: Option<string>, numeric: seq<string>)
    requires Blank(given)
    requires forall k, i :: 0 <= k < |Candidates| && 0 <= i < |numeric| ==> Lower(numeric[i]) != Lower(Candidates[k])
    ensures (exists i :: 0 <= i < |numeric| && FlowSetpoint(numeric[i])) ==>
      exists i :: 0 <= i < |numeric| && FlowSetpoint(numeric[i]) && ChosenSetpoint(given, numeric) == Some(numeric[i])
        && forall i' :: 0 <= i' < i ==> !FlowSetpoint(numeric[i'])
    ensures (forall i :: 0 <= i < |numeric| ==> !FlowSetpoint(numeric[i])) ==> ChosenSetpoint(given, numeric) == given
  {
    var lm := LowerMap(numeric);
    assert forall k :: 0 <= k < |Candidates| ==> Lower(Candidates[k]) !in lm;
  }

  /** A given non-blank name is used as it is, even when no column has it. */
  lemma SetpointGiven(given: Option<string>, numeric: seq<string>)
    requires !Blank(given)
    ensures ChosenSetpoint(given, numeric) == given
  {
  }

  /** A setpoint the program found itself is one of the numeric columns. */
  lemma SetpointFound(given: Option<string>, numeric: seq<string>)
    ensures ChosenSetpoint(given, numeric) != given ==>
      Blank(given) && ChosenSetpoint(given, numeric).Some? && ChosenSetpoint(given, numeric).value in numeric
  {
    var lm := LowerMap(numeric);
    match FirstCandidate(lm, Candidates)
    case Some(c) =>
      var k :| 0 <= k < |Candidates| && Lower(Candidates[k]) in lm && c == lm[Lower(Candidates[k])];
      LowerMapValues(numeric, Lower(Candidates[k]));
    case None =>
  }

  // ---- Traces (app.py:162-164) ----

  /** One line of the figure: its name, its x and y values, and whether it is drawn
      against the right-hand axis y2. */
  datatype Trace = Trace(name: string, x: seq<int>, y: seq<Option<real>>, onY2: bool)

  /** `plot_df[c]`: the cells of the column with that label. */
  function ColumnCells(cols: seq<Column>, name: string): seq<Value> {
    if |cols| == 0 then []
    else if cols[0].name == name then cols[0].cells
    else ColumnCells(cols[1..], name)
  }

  /** `use_y2` of app.py:164. */
  predicate OnY2(setpoint: Option<string>, name: string) {
    setpoint.Some? && name == setpoint.value
  }

  /** The traces `build_plot` adds, one per numeric column in order. */
  function PlotTraces(m: Merged, given: Option<string>, p: Parsers): seq<Trace> {
    var names := NumericNames(m, p);
    var sp := ChosenSetpoint(given, names);
    seq(|names|, j requires 0 <= j < |names| =>
      Trace(names[j], m.times, FFill(Coerce(ColumnCells(m.columns, names[j]), p)), OnY2(sp, names[j])))
  }

  /** The data steps of `build_plot`: pick the numeric columns, coerce and forward-fill
      each, resolve the setpoint, and make one trace per numeric column. */
  method BuildPlot(m: Merged, given: Option<string>, p: Parsers) returns (traces: seq<Trace>, setpoint: Option<string>)
    ensures setpoint == ChosenSetpoint(given, NumericNames(m, p))
    ensures traces == PlotTraces(m, given, p)
  {
    var numeric := NumericColumns(m, p);
    var filled := FillColumns(m, numeric, p);
    setpoint := ResolveSetpoint(given, numeric);
    traces := [];
    for j := 0 to |numeric|
      invariant |traces| == j
      invariant forall j' :: 0 <= j' < j ==>
        traces[j'] == Trace(numeric[j'], m.times, filled[j'], OnY2(setpoint, numeric[j']))
    {
      traces := traces + [Trace(numeric[j], m.times, filled[j], OnY2(setpoint, numeric[j]))];
    }
  }

  /** The loop at app.py:144-147 over the numeric columns: coerce each and forward-fill it. */
  method FillColumns(m: Merged, numeric: seq<string>, p: Parsers) returns (filled: seq<seq<Option<real>>>)
    ensures |filled| == |numeric|
    ensures forall j :: 0 <= j < |numeric| ==> filled[j] == FFill(Coerce(ColumnCells(m.columns, numeric[j]), p))
  {
    filled := [];
    for j := 0 to |numeric|
      invariant |filled| == j
      invariant forall j' :: 0 <= j' < j ==> filled[j'] == FFill(Coerce(ColumnCells(m.columns, numeric[j']), p))
    {
      var col := Coerce(ColumnCells(m.columns, numeric[j]), p);
      var a := new Option<real>[|col|](i requires 0 <= i < |col| => col[i]);
      assert a[..] == col;
      ForwardFill(a);
      filled := filled + [a[..]];
    }
  }

  /** With distinct labels, `plot_df[c]` is the column at that position. */
  lemma {:induction false} ColumnCellsAt(cols: seq<Column>, j: nat)
    requires j < |cols| && Distinct(Names(cols))
    ensures ColumnCells(cols, cols[j].name) == cols[j].cells
  {
    if j > 0 {
      assert Names(cols)[0] != Names(cols)[j];
      assert Names(cols[1..]) == Names(cols)[1..];
      ColumnCellsAt(cols[1..], j - 1);
    }
  }

  /** Each trace is the forward-filled numeric column of the same name, drawn against
      time; exactly the trace named like the setpoint goes on y2. */
  lemma TracesSpec(m: Merged, given: Option<string>, p: Parsers)
    requires Distinct(Names(m.columns))
    ensures var ts := PlotTraces(m, given, p);
      var pos := Positions(NumericMask(m, p));
      var sp := ChosenSetpoint(given, NumericNames(m, p));
      && |ts| == |pos|
      && forall j :: 0 <= j < |ts| ==>
        && ts[j].name == m.columns[pos[j]].name
        && ts[j].x == m.times
        && ts[j].y == FFill(Coerce(m.columns[pos[j]].cells, p))
        && (ts[j].onY2 <==> sp.Some? && ts[j].name == sp.value)
  {
    var pos := Positions(NumericMask(m, p));
    forall j | 0 <= j < |pos| ensures ColumnCells(m.columns, m.columns[pos[j]].name) == m.columns[pos[j]].cells {
      ColumnCellsAt(m.columns, pos[j]);
    }
  }

  /** At most one trace is on y2, and when the setpoint is one of the numeric columns,
      exactly that one is. */
  lemma AtMostOneOnY2(m: Merged, given: Option<string>, p: Parsers)
    requires Distinct(Names(m.columns))
    ensures var ts := PlotTraces(m, given, p);
      forall i, j :: 0 <= i < |ts| && 0 <= j < |ts| && ts[i].onY2 && ts[j].onY2 ==> i == j
    ensures var ts := PlotTraces(m, given, p);
      var sp := ChosenSetpoint(given, NumericNames(m, p));
      (exists j :: 0 <= j < |ts| && ts[j].onY2) <==> sp.Some? && sp.value in NumericNames(m, p)
  {
    NumericNamesDistinct(m, p);
    OnY2Unique(PlotTraces(m, given, p), NumericNames(m, p), ChosenSetpoint(given, NumericNames(m, p)));
  }

  /** With distinct names, the traces flagged by `OnY2` are at most one, and there is one
      exactly when the setpoint is among the names. */
  lemma OnY2Unique(ts: seq<Trace>, names: seq<string>, sp: Option<string>)
    requires Distinct(names) && |ts| == |names|
    requires forall j :: 0 <= j < |ts| ==> ts[j].onY2 == OnY2(sp, names[j])
    ensures forall i, j :: 0 <= i < |ts| && 0 <= j < |ts| && ts[i].onY2 && ts[j].onY2 ==> i == j
    ensures (exists j :: 0 <= j < |ts| && ts[j].onY2) <==> sp.Some? && sp.value in names
  {
    forall i, j | 0 <= i < |ts| && 0 <= j < |ts| && ts[i].onY2 && ts[j].onY2
      ensures i == j
    {
      assert names[i] == names[j];
    }
    if sp.Some? && sp.value in names {
      var k :| 0 <= k < |names| && names[k] == sp.value;
      assert ts[k].onY2;
    }
  }

  /** A successful merge has distinct labels, so its plot puts at most one trace on y2. */
  lemma MergedPlotAtMostOneOnY2(primary: Table, secs: seq<Table>, tol: int, cutoffText: string,
                                parseCutoff: string -> CutoffParse, p: Parsers, given: Option<string>)
    requires WellFormed(primary) && AllWellFormed(secs)
    requires MergeSpec(primary, secs, tol, cutoffText, parseCutoff, p).Ok?
    ensures var ts := PlotTraces(MergeSpec(primary, secs, tol, cutoffText, parseCutoff, p).value, given, p);
      forall i, j :: 0 <= i < |ts| && 0 <= j < |ts| && ts[i].onY2 && ts[j].onY2 ==> i == j
  {
    var m := MergeSpec(primary, secs, tol, cutoffText, parseCutoff, p).value;
    MergeColumns(primary, secs, tol, cutoffText, parseCutoff, p);
    DistinctSplit([m.timeName], Names(m.columns));
    AtMostOneOnY2(m, given, p);
  }
}
