/**
 * The degenerate Gaussian likelihood-ratio test
 * (IndTestDegenerateGaussianLRT.java). A mixed data set is embedded into a
 * continuous one: a continuous variable keeps its column, and a discrete
 * variable becomes one indicator column per observed level but the last
 * new one. The test compares Gaussian log likelihoods of these columns.
 * Determinants, logarithms and the chi-squared distribution are
 * collaborators given as functions; the embedding, the degrees of freedom,
 * the row selection and the decision made from the numbers are modelled.
 */
module DegenerateGaussianLrt {
  import opened Base

  /**
   * A Java double: a number, one of the infinities, or NaN. Rounding is not
   * modelled: a finite double is a real.
   */
  datatype Double = Num(r: real) | PlusInf | MinusInf | NaN

  /** A column of the data set: continuous values, or the integer codes of a discrete variable. */
  datatype Column = ContinuousColumn(values: seq<Double>) | DiscreteColumn(codes: seq<int>)

  /** The code a discrete variable uses for a missing value. */
  const MissingCode: int := -99

  function Length(c: Column): nat
  {
    match c
    case ContinuousColumn(vs) => |vs|
    case DiscreteColumn(cs) => |cs|
  }

  // ---------------------------------------------------------------------
  // The embedding (the constructor)

  /** The distinct codes, in the order rows first show them. */
  function Levels(codes: seq<int>): (r: seq<int>)
    ensures Distinct(r) && Elems(r) == Elems(codes)
    ensures |r| <= |codes| && (codes != [] ==> |r| >= 1)
  {
    if codes == [] then []
    else
      var init := codes[..|codes| - 1];
      var c := codes[|codes| - 1];
      var earlier := Levels(init);
      assert codes == init + [c];
      ElemsConcat(init, [c]);
      if c in earlier then earlier else earlier + [c]
  }

  /** The indicator column of one level: 1 in the rows holding it, 0 elsewhere. */
  function Indicator(codes: seq<int>, level: int): (col: seq<Double>)
    ensures |col| == |codes|
    ensures forall t | 0 <= t < |codes| :: col[t] == if codes[t] == level then Num(1.0) else Num(0.0)
  {
    seq(|codes|, t requires 0 <= t < |codes| => if codes[t] == level then Num(1.0) else Num(0.0))
  }

  /** The levels that get a column: all but the last new one. */
  function Kept(codes: seq<int>): seq<int>
  {
    var ls := Levels(codes);
    if ls == [] then [] else ls[..|ls| - 1]
  }

  /** The last new level, whose column is dropped. */
  function Dropped(codes: seq<int>): int
    requires codes != []
  {
    var ls := Levels(codes);
    ls[|ls| - 1]
  }

  /** The number of columns variable v contributes: one, or one per kept level. */
  function Width(v: Column): nat
  {
    match v
    case ContinuousColumn(_) => 1
    case DiscreteColumn(cs) => |Kept(cs)|
  }

  /** The columns a variable contributes to the embedded data. */
  function VarColumns(v: Column): (cols: seq<seq<Double>>)
    ensures |cols| == Width(v)
  {
    match v
    case ContinuousColumn(vs) => [vs]
    case DiscreteColumn(cs) => seq(|Kept(cs)|, q requires 0 <= q < |Kept(cs)| => Indicator(cs, Kept(cs)[q]))
  }

  /** The embedded data set: the variables' columns one after the other. */
  function ColumnsOf(vars: seq<Column>): seq<seq<Double>>
  {
    if vars == [] then [] else ColumnsOf(vars[..|vars| - 1]) + VarColumns(vars[|vars| - 1])
  }

  /** The index of the first column of variable p: the widths of the variables before it. */
  function Offset(vars: seq<Column>, p: nat): nat
    requires p <= |vars|
  {
    if p == 0 then 0 else Offset(vars, p - 1) + Width(vars[p - 1])
  }

  /** The first p variables' columns number Offset(vars, p). */
  lemma {:induction false} ColumnsLength(vars: seq<Column>, p: nat)
    requires p <= |vars|
    ensures |ColumnsOf(vars[..p])| == Offset(vars, p)
  {
    if p > 0 {
      ColumnsLength(vars, p - 1);
      assert vars[..p][..p - 1] == vars[..p - 1] && vars[..p][p - 1] == vars[p - 1];
    }
  }

  /** The embedded data and, for each variable, the indices of its columns. */
  datatype Embedded = Embedded(columns: seq<seq<Double>>, embedding: seq<seq<nat>>)

  /** What the embedding of a variable set is when every column has rows. */
  ghost predicate EmbeddingOf(vars: seq<Column>, e: Embedded)
  {
    e.columns == ColumnsOf(vars) && |e.embedding| == |vars| && EmbeddedUpTo(vars, |vars|, e.embedding)
  }

  /**
   * The first p variables' index lists: as many indices as columns, exactly
   * the indices from the variable's offset on, and a continuous variable's
   * single index.
   */
  ghost predicate EmbeddedUpTo(vars: seq<Column>, p: nat, emb: seq<seq<nat>>)
    requires p <= |vars| && p <= |emb|
  {
    forall q | 0 <= q < p :: IndicesOf(vars, q, emb[q])
  }

  ghost predicate IndicesOf(vars: seq<Column>, q: nat, indices: seq<nat>)
    requires q < |vars|
  {
    |indices| == Width(vars[q])
    && (forall c :: c in indices <==> Offset(vars, q) <= c < Offset(vars, q) + Width(vars[q]))
    && (vars[q].ContinuousColumn? ==> indices == [Offset(vars, q)])
  }

  lemma {:induction false} DistinctCard<T(!new)>(s: seq<T>)
    requires Distinct(s)
    ensures |Elems(s)| == |s|
  {
    if s != [] {
      var init := s[..|s| - 1];
      assert s == init + [s[|s| - 1]];
      ElemsConcat(init, [s[|s| - 1]]);
      assert s[|s| - 1] !in Elems(init);
      assert Elems([s[|s| - 1]]) == {s[|s| - 1]};
      assert Distinct(init);
      DistinctCard(init);
    }
  }

  lemma LevelsStep(codes: seq<int>, j: nat)
    requires j < |codes|
    ensures Levels(codes[..j + 1]) == Levels(codes[..j]) + if codes[j] in Levels(codes[..j]) then [] else [codes[j]]
  {
    assert codes[..j + 1][..j] == codes[..j];
  }

  /** The column of a level after the first j rows are scanned: 1 where those rows hold it. */
  function Partial(codes: seq<int>, level: int, j: nat): (col: seq<Double>)
    requires j <= |codes|
    ensures |col| == |codes|
  {
    seq(|codes|, t requires 0 <= t < |codes| => if t < j && codes[t] == level then Num(1.0) else Num(0.0))
  }

  /** The fresh all-zero column (new double[N]). */
  function Zeros(n: nat): (col: seq<Double>)
    ensures |col| == n
  {
    seq(n, t => Num(0.0))
  }

  lemma PartialNew(codes: seq<int>, level: int, j: nat)
    requires j <= |codes| && level !in codes[..j]
    ensures Partial(codes, level, j) == Zeros(|codes|)
  {
    forall t | 0 <= t < j ensures codes[t] != level {
      assert codes[t] == codes[..j][t];
    }
  }

  /**
   * The constructor's row loop for one discrete variable: a zero column for each level
   * the first time a row shows it, numbered from start, and a 1 in row j of
   * the column of row j's level.
   */
  method DiscreteColumns(codes: seq<int>, start: nat) returns (keys: map<int, nat>, cols: seq<seq<Double>>, order: seq<int>)
    ensures order == Levels(codes) && |cols| == |order|
    ensures forall q | 0 <= q < |cols| :: cols[q] == Indicator(codes, order[q])
    ensures keys.Keys == Elems(order) && forall q | 0 <= q < |order| :: keys[order[q]] == start + q
  {
    keys, cols, order := map[], [], [];
    for j := 0 to |codes|
      invariant order == Levels(codes[..j]) && |cols| == |order|
      invariant forall q | 0 <= q < |cols| :: cols[q] == Partial(codes, order[q], j)
      invariant keys.Keys == Elems(order) && forall q | 0 <= q < |order| :: keys[order[q]] == start + q
    {
      keys, cols, order := ScanRow(codes, start, j, keys, cols, order);
    }
    assert codes[..|codes|] == codes;
    forall q | 0 <= q < |cols| ensures cols[q] == Indicator(codes, order[q]) {
      assert cols[q] == Partial(codes, order[q], |codes|);
    }
  }

  /** One pass of the constructor's row loop over a discrete variable. */
  method ScanRow(codes: seq<int>, start: nat, j: nat, keys: map<int, nat>, cols: seq<seq<Double>>, order: seq<int>)
    returns (keys': map<int, nat>, cols': seq<seq<Double>>, order': seq<int>)
    requires j < |codes|
    requires order == Levels(codes[..j]) && |cols| == |order|
    requires forall q | 0 <= q < |cols| :: cols[q] == Partial(codes, order[q], j)
    requires keys.Keys == Elems(order) && forall q | 0 <= q < |order| :: keys[order[q]] == start + q
    ensures order' == Levels(codes[..j + 1]) && |cols'| == |order'|
    ensures forall q | 0 <= q < |cols'| :: cols'[q] == Partial(codes, order'[q], j + 1)
    ensures keys'.Keys == Elems(order') && forall q | 0 <= q < |order'| :: keys'[order'[q]] == start + q
  {
    keys', cols', order' := NoteLevel(codes, start, j, keys, cols, order);
    cols' := MarkRow(codes, start, j, keys', cols', order');
  }

  /** In that row loop, a level seen for the first time gets the next column, all zero. */
  method NoteLevel(codes: seq<int>, start: nat, j: nat, keys: map<int, nat>, cols: seq<seq<Double>>, order: seq<int>)
    returns (keys': map<int, nat>, cols': seq<seq<Double>>, order': seq<int>)
    requires j < |codes|
    requires order == Levels(codes[..j]) && |cols| == |order|
    requires forall q | 0 <= q < |cols| :: cols[q] == Partial(codes, order[q], j)
    requires keys.Keys == Elems(order) && forall q | 0 <= q < |order| :: keys[order[q]] == start + q
    ensures order' == Levels(codes[..j + 1]) && |cols'| == |order'| && codes[j] in order'
    ensures forall q | 0 <= q < |cols'| :: cols'[q] == Partial(codes, order'[q], j)
    ensures keys'.Keys == Elems(order') && forall q | 0 <= q < |order'| :: keys'[order'[q]] == start + q
  {
    LevelsStep(codes, j);
    var level := codes[j];
    keys', cols', order' := keys, cols, order;
    if level !in keys {
      assert Elems(codes[..j]) == Elems(order);
      PartialNew(codes, level, j);
      keys' := keys[level := start + |cols|];
      cols' := cols + [Zeros(|codes|)];
      order' := order + [level];
      ElemsConcat(order, [level]);
    }
  }

  /** In that row loop, a 1 in row j of the column of row j's level. */
  method MarkRow(codes: seq<int>, start: nat, j: nat, keys: map<int, nat>, cols: seq<seq<Double>>, order: seq<int>)
    returns (cols': seq<seq<Double>>)
    requires j < |codes| && codes[j] in order && Distinct(order) && |cols| == |order|
    requires forall q | 0 <= q < |cols| :: cols[q] == Partial(codes, order[q], j)
    requires keys.Keys == Elems(order) && forall q | 0 <= q < |order| :: keys[order[q]] == start + q
    ensures |cols'| == |order|
    ensures forall q | 0 <= q < |cols'| :: cols'[q] == Partial(codes, order[q], j + 1)
  {
    var level := codes[j];
    var k := IndexOf(order, level);
    var c := keys[level] - start;
    assert c == k;
    cols' := cols[c := cols[c][j := Num(1.0)]];
    forall q | 0 <= q < |cols'| ensures cols'[q] == Partial(codes, order[q], j + 1) {
      PartialStep(codes, order[q], j);
    }
  }

  lemma PartialStep(codes: seq<int>, level: int, j: nat)
    requires j < |codes|
    ensures Partial(codes, level, j + 1) == if codes[j] == level then Partial(codes, level, j)[j := Num(1.0)] else Partial(codes, level, j)
  {
  }

  /**
   * The constructor's embedding loop: the columns of each variable in turn. With rows, the
   * result is the embedding of EmbeddingOf; with none, a discrete variable
   * removes the column before it, or fails when there is none.
   */
  method Embed(vars: seq<Column>, n: nat) returns (r: Result<Embedded>)
    requires forall p | 0 <= p < |vars| :: Length(vars[p]) == n
    ensures r.Err? ==> n == 0 && r.error == IndexOutOfBounds
    ensures n > 0 ==> r.Ok? && EmbeddingOf(vars, r.value)
    ensures r.Ok? ==> |r.value.embedding| == |vars|
  {
    var cols: seq<seq<Double>> := [];
    var emb: seq<seq<nat>> := [];
    for p := 0 to |vars|
      invariant |emb| == p
      invariant n > 0 ==> cols == ColumnsOf(vars[..p]) && EmbeddedUpTo(vars, p, emb)
    {
      var step := EmbedOne(vars, n, p, cols);
      if step.Err? {
        return Err(step.error);
      }
      if n > 0 {
        EmbeddedStep(vars, p, emb, step.value.1);
      }
      cols, emb := step.value.0, emb + [step.value.1];
    }
    assert vars[..|vars|] == vars;
    return Ok(Embedded(cols, emb));
  }

  lemma EmbeddedStep(vars: seq<Column>, p: nat, emb: seq<seq<nat>>, indices: seq<nat>)
    requires p < |vars| && |emb| == p
    requires EmbeddedUpTo(vars, p, emb) && IndicesOf(vars, p, indices)
    ensures EmbeddedUpTo(vars, p + 1, emb + [indices])
  {
    assert forall q | 0 <= q < p :: (emb + [indices])[q] == emb[q];
  }

  /** The constructor's embedding loop for variable p. */
  method EmbedOne(vars: seq<Column>, n: nat, p: nat, cols: seq<seq<Double>>) returns (r: Result<(seq<seq<Double>>, seq<nat>)>)
    requires p < |vars| && Length(vars[p]) == n
    requires n > 0 ==> cols == ColumnsOf(vars[..p])
    ensures r.Err? ==> n == 0 && r.error == IndexOutOfBounds
    ensures n > 0 ==> r.Ok? && r.value.0 == ColumnsOf(vars[..p + 1]) && IndicesOf(vars, p, r.value.1)
  {
    assert vars[..p + 1][..p] == vars[..p] && vars[..p + 1][p] == vars[p];
    if n > 0 {
      ColumnsLength(vars, p);
    }
    match vars[p]
    case ContinuousColumn(vs) =>
      return Ok((cols + [vs], [|cols|]));
    case DiscreteColumn(cs) =>
      r := DiscreteStep(cs, cols);
  }

  /**
   * For a discrete variable, the indicator columns appended, the last one removed
   * again with its key, and the remaining keys' column indices as the
   * variable's embedding, in the map's order.
   */
  method DiscreteStep(cs: seq<int>, cols: seq<seq<Double>>) returns (r: Result<(seq<seq<Double>>, seq<nat>)>)
    ensures r.Err? ==> cs == [] && r.error == IndexOutOfBounds
    ensures cs != [] ==> r.Ok? && r.value.0 == cols + VarColumns(DiscreteColumn(cs))
    ensures cs != [] ==> r.Ok? && |r.value.1| == Width(DiscreteColumn(cs))
    ensures cs != [] ==> r.Ok? && forall c :: c in r.value.1 <==> |cols| <= c < |cols| + Width(DiscreteColumn(cs))
  {
    var keys, mine, order := DiscreteColumns(cs, |cols|);
    var all := cols + mine;
    if |all| == 0 {
      return Err(IndexOutOfBounds);
    }
    var i := |all| - 1;
    var kept := keys;
    if |order| > 0 {
      kept := keys - {order[|order| - 1]};
    }
    var indices, ks := ValuesOf(kept);
    if cs != [] {
      KeptColumns(cs, mine, order);
      WidthDiscrete(cs);
      KeptIndices(order, |cols|, keys, kept, ks, indices);
      assert all[..i] == cols + mine[..|mine| - 1];
    }
    return Ok((all[..i], indices));
  }

  /** new ArrayList<>(keys.values()): the map's values in the order of its keys. */
  method ValuesOf(m: map<int, nat>) returns (vs: seq<nat>, ghost ks: seq<int>)
    ensures Elems(ks) == m.Keys && |ks| == |m.Keys| && |vs| == |ks|
    ensures forall k | 0 <= k < |ks| :: vs[k] == m[ks[k]]
  {
    var keys := ListOf(m.Keys);
    vs := seq(|keys|, k requires 0 <= k < |keys| => m[keys[k]]);
    ks := keys;
  }

  /** With rows, the indicator columns but the last are the variable's columns. */
  lemma KeptColumns(cs: seq<int>, mine: seq<seq<Double>>, order: seq<int>)
    requires cs != [] && order == Levels(cs) && |mine| == |order|
    requires forall q | 0 <= q < |mine| :: mine[q] == Indicator(cs, order[q])
    ensures mine[..|mine| - 1] == VarColumns(DiscreteColumn(cs))
  {
  }

  /** The kept keys name exactly the columns from start on, one each. */
  lemma KeptIndices(order: seq<int>, start: nat, keys: map<int, nat>, kept: map<int, nat>, ks: seq<int>, indices: seq<nat>)
    requires order != [] && Distinct(order)
    requires keys.Keys == Elems(order) && forall q | 0 <= q < |order| :: keys[order[q]] == start + q
    requires kept == keys - {order[|order| - 1]}
    requires Elems(ks) == kept.Keys && |ks| == |kept.Keys| && |indices| == |ks|
    requires forall k | 0 <= k < |ks| :: indices[k] == kept[ks[k]]
    ensures |indices| == |order| - 1
    ensures forall c :: c in indices <==> start <= c < start + |order| - 1
  {
    KeptKeys(order, keys, kept);
    forall c | c in indices ensures start <= c < start + |order| - 1 {
      KeptIndexInRange(order, start, keys, kept, ks, indices, c);
    }
    forall c | start <= c < start + |order| - 1 ensures c in indices {
      KeptIndexPresent(order, start, keys, kept, ks, indices, c);
    }
  }

  lemma KeptIndexInRange(order: seq<int>, start: nat, keys: map<int, nat>, kept: map<int, nat>, ks: seq<int>, indices: seq<nat>, c: nat)
    requires order != [] && kept.Keys == Elems(order[..|order| - 1])
    requires forall q | 0 <= q < |order| :: order[q] in keys && keys[order[q]] == start + q
    requires kept == keys - {order[|order| - 1]}
    requires Elems(ks) == kept.Keys && |indices| == |ks|
    requires forall k | 0 <= k < |ks| :: indices[k] == kept[ks[k]]
    requires c in indices
    ensures start <= c < start + |order| - 1
  {
    var init := order[..|order| - 1];
    var k :| 0 <= k < |indices| && indices[k] == c;
    assert ks[k] in Elems(ks);
    var q := IndexOf(init, ks[k]);
    assert order[q] == ks[k];
  }

  lemma KeptIndexPresent(order: seq<int>, start: nat, keys: map<int, nat>, kept: map<int, nat>, ks: seq<int>, indices: seq<nat>, c: nat)
    requires order != [] && kept.Keys == Elems(order[..|order| - 1])
    requires forall q | 0 <= q < |order| :: order[q] in keys && keys[order[q]] == start + q
    requires kept == keys - {order[|order| - 1]}
    requires Elems(ks) == kept.Keys && |indices| == |ks|
    requires forall k | 0 <= k < |ks| :: indices[k] == kept[ks[k]]
    requires start <= c < start + |order| - 1
    ensures c in indices
  {
    var init := order[..|order| - 1];
    var q := c - start;
    assert init[q] in Elems(init);
    assert init[q] in Elems(ks);
    var k := IndexOf(ks, init[q]);
    assert indices[k] == kept[init[q]] == keys[order[q]];
  }

  lemma KeptKeys(order: seq<int>, keys: map<int, nat>, kept: map<int, nat>)
    requires order != [] && Distinct(order) && keys.Keys == Elems(order)
    requires kept == keys - {order[|order| - 1]}
    ensures kept.Keys == Elems(order[..|order| - 1]) && |kept.Keys| == |order| - 1
  {
    var init := order[..|order| - 1];
    var last := order[|order| - 1];
    LastNotEarlier(order);
    assert order == init + [last];
    ElemsConcat(init, [last]);
    assert kept.Keys == keys.Keys - {last};
    assert Elems(init) == Elems(order) - {last};
    DistinctInit(order);
    DistinctCard(init);
  }

  lemma LastNotEarlier(order: seq<int>)
    requires order != [] && Distinct(order)
    ensures order[|order| - 1] !in Elems(order[..|order| - 1])
  {
    var init := order[..|order| - 1];
    forall q | 0 <= q < |init| ensures init[q] != order[|order| - 1] {
      assert init[q] == order[q];
    }
  }

  lemma DistinctInit(order: seq<int>)
    requires order != [] && Distinct(order)
    ensures Distinct(order[..|order| - 1])
  {
  }

  lemma WidthDiscrete(cs: seq<int>)
    requires cs != []
    ensures Width(DiscreteColumn(cs)) == |Levels(cs)| - 1
  {
  }

  // ---------------------------------------------------------------------
  // What the embedding is

  /**
   * The columns a variable should get, counted from its data: one for a
   * continuous variable, one fewer than its number of distinct observed
   * values for a discrete one.
   */
  function Dimension(v: Column): nat
  {
    match v
    case ContinuousColumn(_) => 1
    case DiscreteColumn(cs) => if cs == [] then 0 else assert cs[0] in Elems(cs); |Elems(cs)| - 1
  }

  /** A variable contributes Dimension(v) columns. */
  lemma WidthIsDimension(v: Column)
    ensures Width(v) == Dimension(v)
  {
    if v.DiscreteColumn? && v.codes != [] {
      DistinctCard(Levels(v.codes));
    }
  }

  /** The number of columns the whole data set should get. */
  function TotalDimension(vars: seq<Column>): nat
  {
    if vars == [] then 0 else TotalDimension(vars[..|vars| - 1]) + Dimension(vars[|vars| - 1])
  }

  /** The embedded data has #continuous + sum over discrete variables of (levels - 1) columns. */
  lemma {:induction false} ColumnCount(vars: seq<Column>)
    ensures |ColumnsOf(vars)| == TotalDimension(vars)
  {
    if vars != [] {
      ColumnCount(vars[..|vars| - 1]);
      WidthIsDimension(vars[|vars| - 1]);
    }
  }

  lemma OffsetStep(vars: seq<Column>, p: nat)
    requires p < |vars|
    ensures Offset(vars, p + 1) == Offset(vars, p) + Width(vars[p])
  {
  }

  /** Variables later in the list get columns further right. */
  lemma {:induction false} OffsetMonotone(vars: seq<Column>, p: nat, q: nat)
    requires p < q <= |vars|
    ensures Offset(vars, p) + Width(vars[p]) <= Offset(vars, q)
  {
    OffsetStep(vars, p);
    if q > p + 1 {
      OffsetMonotone(vars, p, q - 1);
      OffsetStep(vars, q - 1);
    }
  }

  /** The columns of the first k variables come first. */
  lemma {:induction false} ColumnsPrefix(vars: seq<Column>, k: nat)
    requires k <= |vars|
    ensures ColumnsOf(vars[..k]) <= ColumnsOf(vars)
  {
    if k < |vars| {
      var init := vars[..|vars| - 1];
      assert init[..k] == vars[..k];
      ColumnsPrefix(init, k);
    } else {
      assert vars[..k] == vars;
    }
  }

  /**
   * The embedding maps column indices 0, 1, ... to the variables in order:
   * the indices of different variables are disjoint, every column belongs
   * to some variable, and column Offset(p) + q holds variable p's q-th column.
   */
  lemma EmbeddingsDisjoint(vars: seq<Column>, e: Embedded, p: nat, q: nat)
    requires EmbeddingOf(vars, e) && p < q < |vars|
    ensures forall c :: c in e.embedding[p] ==> c !in e.embedding[q]
  {
    assert IndicesOf(vars, p, e.embedding[p]) && IndicesOf(vars, q, e.embedding[q]);
    OffsetMonotone(vars, p, q);
  }

  lemma {:induction false} EmbeddingCovers(vars: seq<Column>, e: Embedded, c: nat)
    requires EmbeddingOf(vars, e) && c < |e.columns|
    ensures exists p :: 0 <= p < |vars| && c in e.embedding[p]
  {
    assert vars[..|vars|] == vars;
    ColumnsLength(vars, |vars|);
    var p := FirstBeyond(vars, c, |vars|);
    assert IndicesOf(vars, p, e.embedding[p]);
  }

  /** The variable whose columns include c, found by walking back from the k-th variable. */
  lemma {:induction false} FirstBeyond(vars: seq<Column>, c: nat, k: nat) returns (p: nat)
    requires k <= |vars| && c < Offset(vars, k)
    ensures p < k && Offset(vars, p) <= c < Offset(vars, p) + Width(vars[p])
  {
    assert vars[..0] == [];
    OffsetStep(vars, k - 1);
    if c >= Offset(vars, k - 1) {
      p := k - 1;
    } else {
      p := FirstBeyond(vars, c, k - 1);
    }
  }

  lemma ColumnOfVariable(vars: seq<Column>, e: Embedded, p: nat, q: nat)
    requires EmbeddingOf(vars, e) && p < |vars| && q < Width(vars[p])
    ensures Offset(vars, p) + q < |e.columns|
    ensures Offset(vars, p) + q in e.embedding[p]
    ensures e.columns[Offset(vars, p) + q] == VarColumns(vars[p])[q]
  {
    assert IndicesOf(vars, p, e.embedding[p]);
    ColumnAt(vars, p, q);
  }

  lemma ColumnAt(vars: seq<Column>, p: nat, q: nat)
    requires p < |vars| && q < Width(vars[p])
    ensures Offset(vars, p) + q < |ColumnsOf(vars)|
    ensures ColumnsOf(vars)[Offset(vars, p) + q] == VarColumns(vars[p])[q]
  {
    ColumnsStepAt(vars, p, q);
    ColumnsPrefixAt(vars, p + 1, Offset(vars, p) + q);
  }

  /** Column q of variable p sits at its offset in the first p + 1 variables' columns. */
  lemma ColumnsStepAt(vars: seq<Column>, p: nat, q: nat)
    requires p < |vars| && q < Width(vars[p])
    ensures Offset(vars, p) + q < |ColumnsOf(vars[..p + 1])|
    ensures ColumnsOf(vars[..p + 1])[Offset(vars, p) + q] == VarColumns(vars[p])[q]
  {
    ColumnsLength(vars, p);
    ColumnsStep(vars, p);
  }

  /** Column i of the first k variables' columns is column i of all of them. */
  lemma ColumnsPrefixAt(vars: seq<Column>, k: nat, i: nat)
    requires k <= |vars| && i < |ColumnsOf(vars[..k])|
    ensures i < |ColumnsOf(vars)| && ColumnsOf(vars)[i] == ColumnsOf(vars[..k])[i]
  {
    ColumnsPrefix(vars, k);
  }

  /** The first p + 1 variables' columns are the first p variables' columns and then variable p's. */
  lemma ColumnsStep(vars: seq<Column>, p: nat)
    requires p < |vars|
    ensures ColumnsOf(vars[..p + 1]) == ColumnsOf(vars[..p]) + VarColumns(vars[p])
  {
    assert vars[..p + 1][..p] == vars[..p] && vars[..p + 1][p] == vars[p];
  }

  /**
   * A discrete variable's columns: column q is 1 exactly in the rows holding
   * its q-th kept level; the dropped level is none of the kept ones, so its
   * rows are 0 in every column; kept and dropped levels are all the levels.
   */
  lemma IndicatorColumns(cs: seq<int>, q: nat, t: nat)
    requires cs != [] && q < Width(DiscreteColumn(cs)) && t < |cs|
    ensures |VarColumns(DiscreteColumn(cs))[q]| == |cs|
    ensures VarColumns(DiscreteColumn(cs))[q][t] == if cs[t] == Kept(cs)[q] then Num(1.0) else Num(0.0)
    ensures cs[t] == Dropped(cs) ==> VarColumns(DiscreteColumn(cs))[q][t] == Num(0.0)
  {
    var ls := Levels(cs);
    assert Kept(cs)[q] == ls[q] && Dropped(cs) == ls[|ls| - 1];
  }

  lemma KeptAndDropped(cs: seq<int>)
    requires cs != []
    ensures Dropped(cs) !in Kept(cs) && Distinct(Kept(cs))
    ensures Elems(Kept(cs)) + {Dropped(cs)} == Elems(cs)
  {
    var ls := Levels(cs);
    assert ls == Kept(cs) + [Dropped(cs)];
    ElemsConcat(Kept(cs), [Dropped(cs)]);
    forall q | 0 <= q < |Kept(cs)| ensures Kept(cs)[q] != Dropped(cs) {
      assert Kept(cs)[q] == ls[q];
    }
  }

  /**
   * The dropped level is the last new one: at the first row that shows it,
   * every kept level has been seen already.
   */
  lemma {:induction false} DroppedLastNew(cs: seq<int>) returns (t: nat)
    requires cs != []
    ensures t < |cs| && cs[t] == Dropped(cs) && Elems(cs[..t]) == Elems(Kept(cs))
  {
    var init := cs[..|cs| - 1];
    var c := cs[|cs| - 1];
    if c in Levels(init) {
      assert init != [];
      assert Levels(cs) == Levels(init);
      t := DroppedLastNew(init);
      assert cs[..t] == init[..t];
    } else {
      t := |cs| - 1;
      assert Kept(cs) == Levels(init);
    }
  }

  // ---------------------------------------------------------------------
  // Rows without missing values (getRows(List<Node>, Map))

  /** Variable v is missing at row k: NaN when continuous, the code -99 when discrete. */
  predicate MissingAt(v: Column, k: nat)
  {
    match v
    case ContinuousColumn(vs) => k < |vs| && vs[k].NaN?
    case DiscreteColumn(cs) => k < |cs| && cs[k] == MissingCode
  }

  /** No variable of `all` is missing at row k. */
  predicate Complete(vars: seq<Column>, all: seq<nat>, k: nat)
    requires forall v | v in all :: v < |vars|
  {
    forall v | v in all :: !MissingAt(vars[v], k)
  }

  /** The complete rows below n, in increasing order. */
  function CompleteRows(vars: seq<Column>, all: seq<nat>, n: nat): seq<nat>
    requires forall v | v in all :: v < |vars|
  {
    if n == 0 then [] else CompleteRows(vars, all, n - 1) + if Complete(vars, all, n - 1) then [n - 1] else []
  }

  /** Row k is listed iff k < n and no listed variable is missing there; rows ascend. */
  lemma {:induction false} CompleteRowsMeaning(vars: seq<Column>, all: seq<nat>, n: nat)
    requires forall v | v in all :: v < |vars|
    ensures forall k: nat :: k in CompleteRows(vars, all, n) <==> k < n && Complete(vars, all, k)
    ensures forall i, j :: 0 <= i < j < |CompleteRows(vars, all, n)| ==> CompleteRows(vars, all, n)[i] < CompleteRows(vars, all, n)[j]
  {
    if n > 0 {
      CompleteRowsMeaning(vars, all, n - 1);
      var rs := CompleteRows(vars, all, n - 1);
      assert forall i | 0 <= i < |rs| :: rs[i] < n - 1 by {
        forall i | 0 <= i < |rs| ensures rs[i] < n - 1 {
          assert rs[i] in rs;
        }
      }
    }
  }

  /** Which rows are complete depends only on which variables are listed, not on their order. */
  lemma {:induction false} CompleteRowsSameVars(vars: seq<Column>, all: seq<nat>, all': seq<nat>, n: nat)
    requires forall v | v in all :: v < |vars|
    requires forall v :: v in all <==> v in all'
    ensures CompleteRows(vars, all, n) == CompleteRows(vars, all', n)
  {
    if n > 0 {
      CompleteRowsSameVars(vars, all, all', n - 1);
      assert Complete(vars, all, n - 1) == Complete(vars, all', n - 1);
    }
  }

  // ---------------------------------------------------------------------
  // Degrees of freedom (getlldof)

  /**
   * The dof of getlldof for index lists A_ and B_ of lengths a and b: the
   * free parameters of a covariance matrix of A_ less those of B_. A_
   * always extends B_, so the numerator is never negative and Java's
   * truncating division agrees with Dafny's.
   */
  function Dof(a: nat, b: nat): int
    requires b <= a
  {
    (a * (a + 1) - b * (b + 1)) / 2
  }

  lemma {:induction false} ConsecutiveProductEven(w: nat)
    ensures (w * (w + 1)) % 2 == 0
  {
    if w > 0 {
      ConsecutiveProductEven(w - 1);
      assert w * (w + 1) == (w - 1) * w + 2 * w;
    }
  }

  /**
   * For a target with w columns and parents with b: the division is exact
   * and the dof is w(w+1)/2 + w*b, never negative.
   */
  lemma DofCount(w: nat, b: nat)
    ensures 2 * Dof(w + b, b) == (w + b) * (w + b + 1) - b * (b + 1)
    ensures Dof(w + b, b) == w * (w + 1) / 2 + w * b
    ensures Dof(w + b, b) >= 0
  {
    ConsecutiveProductEven(w);
    calc {
      (w + b) * (w + b + 1) - b * (b + 1);
      w * (w + b + 1) + b * (w + b + 1) - b * (b + 1);
      w * (w + 1) + w * b + b * w;
      w * (w + 1) + 2 * (w * b);
    }
  }

  /**
   * The difference of the dofs isIndependent compares: with target y and
   * conditioning columns z, adding x to the parents adds |x| * |y| dof.
   */
  lemma DofDifference(wy: nat, wx: nat, wz: nat)
    ensures Dof(wy + (wx + wz), wx + wz) - Dof(wy + wz, wz) == wy * wx
  {
    DofCount(wy, wx + wz);
    DofCount(wy, wz);
    assert wy * (wx + wz) == wy * wx + wy * wz;
  }

  /** The parents' embeddings one after the other (the list B of getlldof). */
  function ParentColumns(embedding: seq<seq<nat>>, parents: seq<nat>): seq<nat>
    requires forall j | 0 <= j < |parents| :: parents[j] < |embedding|
  {
    if parents == [] then [] else embedding[parents[0]] + ParentColumns(embedding, parents[1..])
  }

  lemma {:induction false} ParentColumnsAppend(embedding: seq<seq<nat>>, parents: seq<nat>, p: nat)
    requires forall j | 0 <= j < |parents| :: parents[j] < |embedding|
    requires p < |embedding|
    ensures ParentColumns(embedding, parents + [p]) == ParentColumns(embedding, parents) + embedding[p]
  {
    if parents == [] {
      assert ([p])[1..] == [];
    } else {
      assert (parents + [p])[1..] == parents[1..] + [p];
      ParentColumnsAppend(embedding, parents[1..], p);
    }
  }

  // ---------------------------------------------------------------------
  // The decision of isIndependent

  /** Java's Double.isInfinite. */
  predicate IsInfinite(d: Double)
  {
    d.PlusInf? || d.MinusInf?
  }

  /** Java's a - b on doubles (rounding and overflow aside). */
  function Sub(a: Double, b: Double): Double
  {
    match (a, b)
    case (NaN, _) => NaN
    case (_, NaN) => NaN
    case (PlusInf, PlusInf) => NaN
    case (MinusInf, MinusInf) => NaN
    case (PlusInf, _) => PlusInf
    case (MinusInf, _) => MinusInf
    case (_, PlusInf) => MinusInf
    case (_, MinusInf) => PlusInf
    case (Num(x), Num(y)) => Num(x - y)
  }

  /** Java's Math.min on doubles: NaN if either is NaN. */
  function Min(a: Double, b: Double): Double
  {
    match (a, b)
    case (NaN, _) => NaN
    case (_, NaN) => NaN
    case (MinusInf, _) => MinusInf
    case (_, MinusInf) => MinusInf
    case (PlusInf, _) => b
    case (_, PlusInf) => a
    case (Num(x), Num(y)) => if x <= y then a else b
  }

  /** Java's p > alpha for a double p; false for NaN. */
  predicate Exceeds(p: Double, alpha: real)
  {
    match p
    case Num(x) => x > alpha
    case PlusInf => true
    case MinusInf => false
    case NaN => false
  }

  /**
   * 1 - ChiSquaredDistribution(dof).cumulativeProbability(2 lik), or None
   * when the distribution throws: a collaborator.
   */
  type Tail = (int, Double) -> Option<Double>

  /** A non-positive dof is replaced by 1. */
  function Clamp(dof: int): (d: int)
    ensures d >= 1 && (dof >= 1 ==> d == dof)
  {
    if dof <= 0 then 1 else dof
  }

  /** One p value: the tail probability, or 0 when the distribution throws (in isIndependent). */
  function PValue(tail: Tail, dof: int, lik: Double): Double
  {
    match tail(Clamp(dof), lik)
    case None => Num(0.0)
    case Some(p) => p
  }

  /** What a call decides, and the p value it records (None: the field keeps its value). */
  datatype Outcome = Outcome(independent: bool, pValue: Option<Double>)

  /** The end of isIndependent: the decision from the two likelihood differences and their dofs. */
  function Decide(lik0: Double, lik1: Double, dof0: int, dof1: int, alpha: real, tail: Tail): Outcome
  {
    if IsInfinite(lik0) || IsInfinite(lik1) then Outcome(true, None)
    else
      var p := Min(PValue(tail, dof0, lik0), PValue(tail, dof1, lik1));
      Outcome(Exceeds(p, alpha), Some(p))
  }

  /**
   * Independence is judged exactly when a likelihood difference is
   * infinite or both p values exceed alpha; only then is no p value recorded.
   */
  lemma DecideMeaning(lik0: Double, lik1: Double, dof0: int, dof1: int, alpha: real, tail: Tail)
    ensures Decide(lik0, lik1, dof0, dof1, alpha, tail).independent <==>
      IsInfinite(lik0) || IsInfinite(lik1) || (Exceeds(PValue(tail, dof0, lik0), alpha) && Exceeds(PValue(tail, dof1, lik1), alpha))
    ensures Decide(lik0, lik1, dof0, dof1, alpha, tail).pValue.None? <==> IsInfinite(lik0) || IsInfinite(lik1)
  {
    MinExceeds(PValue(tail, dof0, lik0), PValue(tail, dof1, lik1), alpha);
  }

  lemma MinExceeds(a: Double, b: Double, alpha: real)
    ensures Exceeds(Min(a, b), alpha) <==> Exceeds(a, alpha) && Exceeds(b, alpha)
  {
  }

  /** The two directions play the same part: swapping them changes nothing. */
  lemma DecideSymmetric(lik0: Double, lik1: Double, dof0: int, dof1: int, alpha: real, tail: Tail)
    ensures Decide(lik0, lik1, dof0, dof1, alpha, tail) == Decide(lik1, lik0, dof1, dof0, alpha, tail)
  {
    assert Min(PValue(tail, dof0, lik0), PValue(tail, dof1, lik1)) == Min(PValue(tail, dof1, lik1), PValue(tail, dof0, lik0));
  }

  /** A smaller alpha judges independence at least as often. */
  lemma DecideMonotone(lik0: Double, lik1: Double, dof0: int, dof1: int, alpha: real, alpha': real, tail: Tail)
    requires alpha' <= alpha
    ensures Decide(lik0, lik1, dof0, dof1, alpha, tail).independent ==> Decide(lik0, lik1, dof0, dof1, alpha', tail).independent
  {
  }

  // ---------------------------------------------------------------------
  // The test object

  /** getlldof's return value: a likelihood and its degrees of freedom. */
  datatype Ret = Ret(lik: Double, dof: int)

  /**
   * The test (IndTestDegenerateGaussianLRT). Variables are identified by
   * their index in the data set. The sample log likelihood of getlldof
   * (determinants of covariance selections over the rows, and logarithms)
   * and the chi-squared tail are collaborators.
   */
  class DegenerateTest {
    const vars: seq<Column>
    /** The number of rows N. */
    const n: nat
    const columns: seq<seq<Double>>
    /** The field embedding: the column indices of each variable. */
    const embedding: seq<seq<nat>>
    /** rows.size() * (ldetB - ldetA + L2PE * (|B_| - |A_|)) for rows, A_ and B_. */
    const lik: (seq<nat>, seq<nat>, seq<nat>) -> Double
    const tail: Tail
    var alpha: real
    var pValue: Double

    /** One index list per variable, and every variable has n rows. */
    predicate Shaped()
    {
      |embedding| == |vars| && forall p | 0 <= p < |vars| :: Length(vars[p]) == n
    }

    /** With rows, the embedding is the one EmbeddingOf describes. */
    ghost predicate Valid()
    {
      Shaped() && (n > 0 ==> EmbeddingOf(vars, Embedded(columns, embedding)))
    }

    /** The fields the constructor sets from an embedding, with alpha 0.001 and p value NaN. */
    constructor (vars: seq<Column>, n: nat, e: Embedded, lik: (seq<nat>, seq<nat>, seq<nat>) -> Double, tail: Tail)
      requires |e.embedding| == |vars| && forall p | 0 <= p < |vars| :: Length(vars[p]) == n
      requires n > 0 ==> EmbeddingOf(vars, e)
      ensures Valid() && this.vars == vars && this.n == n && columns == e.columns && embedding == e.embedding
      ensures this.lik == lik && this.tail == tail && alpha == 0.001 && pValue == NaN
    {
      this.vars := vars;
      this.n := n;
      columns := e.columns;
      embedding := e.embedding;
      this.lik := lik;
      this.tail := tail;
      alpha := 0.001;
      pValue := NaN;
    }

    /** getlldof for rows, target i and parents. */
    function LlDof(rows: seq<nat>, i: nat, parents: seq<nat>): Ret
      requires i < |embedding| && forall j | 0 <= j < |parents| :: parents[j] < |embedding|
    {
      var b := ParentColumns(embedding, parents);
      Ret(lik(rows, embedding[i] + b, b), Dof(|embedding[i]| + |b|, |b|))
    }

    /**
     * One direction of the test: target t with parents [o] + z against
     * parents z, as the likelihood difference and the dof difference.
     */
    function Side(rows: seq<nat>, t: nat, o: nat, z: seq<nat>): (Double, int)
      requires Shaped() && t < |vars| && o < |vars| && forall j | 0 <= j < |z| :: z[j] < |vars|
    {
      ConsListed(o, z);
      var full := LlDof(rows, t, [o] + z);
      var reduced := LlDof(rows, t, z);
      (Sub(full.lik, reduced.lik), full.dof - reduced.dof)
    }

    /** isIndependent(x, y, z) at significance alpha. */
    function Judgement(alpha: real, x: nat, y: nat, z: seq<nat>): Outcome
      requires Shaped() && x < |vars| && y < |vars| && forall j | 0 <= j < |z| :: z[j] < |vars|
    {
      ConsListed(x, [y] + z);
      var rows := CompleteRows(vars, [x, y] + z, n);
      var s0 := Side(rows, y, x, z);
      var s1 := Side(rows, x, y, z);
      Decide(s0.0, s1.0, s0.1, s1.1, alpha, tail)
    }

    /**
     * Each dof the test compares is the product of the two variables'
     * column counts, whatever the conditioning set: so it is 0, and clamped
     * to 1, exactly when one of them has a single level.
     */
    lemma SideDof(rows: seq<nat>, t: nat, o: nat, z: seq<nat>)
      requires Shaped() && t < |vars| && o < |vars| && forall j | 0 <= j < |z| :: z[j] < |vars|
      ensures Side(rows, t, o, z).1 == |embedding[t]| * |embedding[o]|
    {
      ConsListed(o, z);
      var bz := ParentColumns(embedding, z);
      assert ([o] + z)[1..] == z;
      assert |embedding[t] + ParentColumns(embedding, [o] + z)| == |embedding[t]| + (|embedding[o]| + |bz|);
      DofDifference(|embedding[t]|, |embedding[o]|, |bz|);
    }

    /** The test is symmetric: x _||_ y | z is judged as y _||_ x | z, with the same p value. */
    lemma JudgementSymmetric(alpha: real, x: nat, y: nat, z: seq<nat>)
      requires Shaped() && x < |vars| && y < |vars| && forall j | 0 <= j < |z| :: z[j] < |vars|
      ensures Judgement(alpha, x, y, z) == Judgement(alpha, y, x, z)
    {
      ConsListed(x, [y] + z);
      ConsListed(y, [x] + z);
      var rows := CompleteRows(vars, [x, y] + z, n);
      CompleteRowsSameVars(vars, [x, y] + z, [y, x] + z, n);
      var s0 := Side(rows, y, x, z);
      var s1 := Side(rows, x, y, z);
      DecideSymmetric(s0.0, s1.0, s0.1, s1.1, alpha, tail);
    }

    lemma ConsListed(x: nat, z: seq<nat>)
      requires x < |vars| && forall j | 0 <= j < |z| :: z[j] < |vars|
      ensures forall j | 0 <= j < |[x] + z| :: ([x] + z)[j] < |vars|
      ensures forall v | v in [x] + z :: v < |vars|
    {
    }

    /** getRows(allVars, nodesHash): the rows where none of `all` is missing. */
    method GetRows(all: seq<nat>) returns (rows: seq<nat>)
      requires forall v | v in all :: v < |vars|
      ensures rows == CompleteRows(vars, all, n)
      ensures forall k: nat :: k in rows <==> k < n && Complete(vars, all, k)
      ensures forall i, j :: 0 <= i < j < |rows| ==> rows[i] < rows[j]
    {
      forall i | 0 <= i < |all| ensures all[i] < |vars| {
        assert all[i] in all;
      }
      rows := [];
      for k := 0 to n
        invariant rows == CompleteRows(vars, all, k)
      {
        var ok := RowComplete(all, k);
        if ok {
          rows := rows + [k];
        }
      }
      CompleteRowsMeaning(vars, all, n);
    }

    /** The inner loop of getRows: continue K at the first missing variable. */
    method RowComplete(all: seq<nat>, k: nat) returns (ok: bool)
      requires forall i | 0 <= i < |all| :: all[i] < |vars|
      ensures ok <==> Complete(vars, all, k)
    {
      for j := 0 to |all|
        invariant forall i | 0 <= i < j :: !MissingAt(vars[all[i]], k)
      {
        if MissingAt(vars[all[j]], k) {
          return false;
        }
      }
      forall v | v in all ensures !MissingAt(vars[v], k) {
        var i :| 0 <= i < |all| && all[i] == v;
      }
      return true;
    }

    /** getlldof: B gathers the parents' columns, A_ is the target's then B's. */
    method GetLlDof(rows: seq<nat>, i: nat, parents: seq<nat>) returns (ret: Ret)
      requires Shaped() && i < |vars| && forall j | 0 <= j < |parents| :: parents[j] < |vars|
      ensures ret == LlDof(rows, i, parents)
      ensures ret.dof == |embedding[i]| * (|embedding[i]| + 1) / 2 + |embedding[i]| * |ParentColumns(embedding, parents)|
    {
      var b: seq<nat> := [];
      for j := 0 to |parents|
        invariant b == ParentColumns(embedding, parents[..j])
      {
        ParentColumnsAppend(embedding, parents[..j], parents[j]);
        assert parents[..j + 1] == parents[..j] + [parents[j]];
        b := b + embedding[parents[j]];
      }
      assert parents[..|parents|] == parents;
      var a := embedding[i] + b;
      var dof := (|a| * (|a| + 1) - |b| * (|b| + 1)) / 2;
      DofCount(|embedding[i]|, |b|);
      ret := Ret(lik(rows, a, b), dof);
    }

    /**
     * isIndependent(x, y, z): the rows complete for x, y and z, four likelihoods, and
     * the decision; a finite outcome records its p value.
     */
    method IsIndependent(x: nat, y: nat, z: seq<nat>) returns (independent: bool)
      requires Shaped() && x < |vars| && y < |vars| && forall j | 0 <= j < |z| :: z[j] < |vars|
      modifies this`pValue
      ensures independent == Judgement(alpha, x, y, z).independent
      ensures pValue == match Judgement(alpha, x, y, z).pValue case Some(p) => p case None => old(pValue)
    {
      ConsListed(x, [y] + z);
      var rows := GetRows([x, y] + z);
      var s0 := GetSide(rows, y, x, z);
      var s1 := GetSide(rows, x, y, z);
      var o := DecideStep(s0.0, s1.0, s0.1, s1.1, alpha);
      if o.pValue.Some? {
        pValue := o.pValue.value;
      }
      return o.independent;
    }

    /** isIndependent, for one direction: two calls of getlldof and their differences. */
    method GetSide(rows: seq<nat>, t: nat, o: nat, z: seq<nat>) returns (s: (Double, int))
      requires Shaped() && t < |vars| && o < |vars| && forall j | 0 <= j < |z| :: z[j] < |vars|
      ensures s == Side(rows, t, o, z)
    {
      ConsListed(o, z);
      var full := GetLlDof(rows, t, [o] + z);
      var reduced := GetLlDof(rows, t, z);
      s := (Sub(full.lik, reduced.lik), full.dof - reduced.dof);
    }

    /**
     * The end of isIndependent: an infinite likelihood difference judges independence
     * at once; otherwise the dofs are clamped, a throwing distribution
     * gives p value 0, and the smaller p value is compared with alpha.
     */
    method DecideStep(lik0: Double, lik1: Double, dof0: int, dof1: int, alpha: real) returns (o: Outcome)
      ensures o == Decide(lik0, lik1, dof0, dof1, alpha, tail)
    {
      if IsInfinite(lik0) || IsInfinite(lik1) {
        return Outcome(true, None);
      }
      var d0, d1 := dof0, dof1;
      if d0 <= 0 {
        d0 := 1;
      }
      if d1 <= 0 {
        d1 := 1;
      }
      var p0 := Num(0.0);
      var p1 := Num(0.0);
      var t0 := tail(d0, lik0);
      if t0.Some? {
        p0 := t0.value;
      }
      var t1 := tail(d1, lik1);
      if t1.Some? {
        p1 := t1.value;
      }
      var p := Min(p0, p1);
      return Outcome(Exceeds(p, alpha), Some(p));
    }

    /** isDependent: the negation of isIndependent. */
    method IsDependent(x: nat, y: nat, z: seq<nat>) returns (dependent: bool)
      requires Shaped() && x < |vars| && y < |vars| && forall j | 0 <= j < |z| :: z[j] < |vars|
      modifies this`pValue
      ensures dependent == !Judgement(alpha, x, y, z).independent
      ensures pValue == match Judgement(alpha, x, y, z).pValue case Some(p) => p case None => old(pValue)
    {
      var independent := IsIndependent(x, y, z);
      return !independent;
    }

    /** determines: a stub that never judges y determined by z. */
    function Determines(z: seq<nat>, y: nat): (r: bool)
      ensures !r
    {
      false
    }

    /** indTestSubset: subsets are not supported. */
    function IndTestSubset(vs: seq<nat>): (r: Result<DegenerateTest>)
      ensures r == Err(UnsupportedOperation)
    {
      Err(UnsupportedOperation)
    }
  }

  /**
   * The constructor. It embeds the data, then copies the columns into an
   * N by B.size() matrix: with no rows the matrix constructor reads row 0 of
   * an empty array (IndexOutOfBoundsException), and with rows but no columns
   * it refuses the zero dimension (NotStrictlyPositiveException, an
   * IllegalArgumentException). The embedding loop itself can fail only
   * without rows.
   */
  method Create(vars: seq<Column>, n: nat, lik: (seq<nat>, seq<nat>, seq<nat>) -> Double, tail: Tail) returns (r: Result<DegenerateTest>)
    requires forall p | 0 <= p < |vars| :: Length(vars[p]) == n
    ensures r.Err? <==> n == 0 || TotalDimension(vars) == 0
    ensures n == 0 ==> r == Err(IndexOutOfBounds)
    ensures n > 0 && TotalDimension(vars) == 0 ==> r == Err(IllegalArgument)
    ensures r.Ok? ==> fresh(r.value) && r.value.Valid() && r.value.vars == vars && r.value.n == n
    ensures r.Ok? ==> r.value.columns == ColumnsOf(vars) && |r.value.columns| == TotalDimension(vars) > 0
  {
    var e := Embed(vars, n);
    if e.Err? {
      return Err(e.error);
    }
    if n == 0 {
      return Err(IndexOutOfBounds);
    }
    ColumnCount(vars);
    if |e.value.columns| == 0 {
      return Err(IllegalArgument);
    }
    var t := new DegenerateTest(vars, n, e.value, lik, tail);
    return Ok(t);
  }
}
