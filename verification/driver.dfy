/** `generar_todas_tablas_resumen` (datos_exportaciones.py, lines 807-840):
    one summary table per category and value column, named
    "RESUMEN_<categoria>_<valor>" and filed under USD or KG by the value
    column. */
module Driver {
  import opened Common
  import opened Frames
  import opened Summary
  import opened SummaryRender

  /** Line 831: the name a summary table is filed under. */
  function TableName(categoria: string, valor: string): (r: string)
    ensures |r| == |categoria| + |valor| + 9
    ensures r[..8] == "RESUMEN_" && r[8..8 + |categoria|] == categoria && r[|r| - |valor| - 1..] == "_" + valor
  {
    "RESUMEN_" + categoria + "_" + valor
  }

  /** The (categoria, valor) pairs of the two loops (lines 825-826) in the
      order they are visited: every value column of the first category,
      then of the second, and so on. */
  function Pairs(categorias: seq<string>, valores: seq<string>): (r: seq<(string, string)>)
    ensures |r| == |categorias| * |valores|
  {
    if categorias == [] then []
    else Pairs(categorias[..|categorias| - 1], valores) + RowPairs(categorias[|categorias| - 1], valores)
  }

  function RowPairs(categoria: string, valores: seq<string>): (r: seq<(string, string)>)
    ensures |r| == |valores|
  {
    seq(|valores|, k requires 0 <= k < |valores| => (categoria, valores[k]))
  }

  /** The pairs whose value column is `unit`, in visiting order. */
  function WithUnit(pairs: seq<(string, string)>, unit: string): (r: seq<(string, string)>)
    ensures |r| <= |pairs|
    ensures forall p | p in r :: p in pairs && p.1 == unit
  {
    if pairs == [] then []
    else
      var last := pairs[|pairs| - 1];
      WithUnit(pairs[..|pairs| - 1], unit) + (if last.1 == unit then [last] else [])
  }

  /** Every category of the requested summaries keeps "Total" free. */
  predicate Summarizable(d: Data, categorias: seq<string>) {
    WellFormed(d) && forall c | c in categorias :: NoTotalCategory(d, c)
  }

  /** What the loop body calls to build one table (line 828), with the
      data frame and `top_n` fixed. */
  type Builder = (string, string) --> Result<Table>

  function SummaryBuilder(d: Data, topN: Option<int>): (b: Builder)
    ensures forall c, v | WellFormed(d) && NoTotalCategory(d, c) :: b.requires(c, v) && b(c, v) == SummaryTable(d, c, v, topN)
  {
    (c: string, v: string) requires WellFormed(d) && NoTotalCategory(d, c) => SummaryTable(d, c, v, topN)
  }

  ghost predicate Buildable(build: Builder, pairs: seq<(string, string)>) {
    forall p | p in pairs :: build.requires(p.0, p.1)
  }

  /** Lines 825-837 over the visited pairs: every table is built in turn,
      the first failure ends the whole call, and a table goes to the USD
      list when its value column is "VALOR_USD", to the KG list when it is
      "PESO_KG_NETO" and nowhere otherwise. */
  function Collect(build: Builder, pairs: seq<(string, string)>): Result<(seq<(string, Table)>, seq<(string, Table)>)>
    requires Buildable(build, pairs)
  {
    if pairs == [] then Ok(([], []))
    else
      var acc :- Collect(build, pairs[..|pairs| - 1]);
      var (categoria, valor) := pairs[|pairs| - 1];
      var t :- build(categoria, valor);
      Ok(File(acc, TableName(categoria, valor), valor, t))
  }

  /** Lines 833-836: a table goes to the USD list, to the KG list, or is
      dropped. */
  function File(lists: (seq<(string, Table)>, seq<(string, Table)>), name: string, valor: string, t: Table)
    : (seq<(string, Table)>, seq<(string, Table)>)
  {
    if valor == "VALOR_USD" then (lists.0 + [(name, t)], lists.1)
    else if valor == "PESO_KG_NETO" then (lists.0, lists.1 + [(name, t)])
    else lists
  }

  /** `generar_todas_tablas_resumen` as a value. */
  function AllSummaries(d: Data, categorias: seq<string>, valores: seq<string>, topN: Option<int>)
    : (r: Result<(seq<(string, Table)>, seq<(string, Table)>)>)
    requires Summarizable(d, categorias)
    ensures r.Ok? ==> |r.value.0| + |r.value.1| <= |categorias| * |valores|
  {
    var build := SummaryBuilder(d, topN);
    PairsCategories(categorias, valores);
    CollectCounts(build, Pairs(categorias, valores));
    Collect(build, Pairs(categorias, valores))
  }

  // -----------------------------------------------------------------------
  // What the two lists hold

  lemma MulStep(i: nat, n: nat, m: nat, j: nat)
    requires i < n && j < m
    ensures i * m + j < n * m
    ensures i < n - 1 ==> i * m + j < (n - 1) * m
    ensures i == n - 1 ==> i * m == (n - 1) * m
  {
    assert (i + 1) * m <= n * m;
    if i < n - 1 {
      assert (i + 1) * m <= (n - 1) * m;
    }
  }

  /** Pair number `i * |valores| + j` is the i-th category with the j-th
      value column. */
  lemma {:induction false} PairsOrder(categorias: seq<string>, valores: seq<string>, i: nat, j: nat)
    requires i < |categorias| && j < |valores|
    ensures i * |valores| + j < |Pairs(categorias, valores)|
    ensures Pairs(categorias, valores)[i * |valores| + j] == (categorias[i], valores[j])
  {
    var n, m := |categorias|, |valores|;
    var front := categorias[..n - 1];
    var head, last := Pairs(front, valores), RowPairs(categorias[n - 1], valores);
    assert Pairs(categorias, valores) == head + last;
    MulStep(i, n, m, j);
    var k := i * m + j;
    if i < n - 1 {
      PairsOrder(front, valores, i, j);
      assert (head + last)[k] == head[k];
    } else {
      assert (head + last)[k] == last[k - |head|];
    }
  }

  lemma {:induction false} PairsCategories(categorias: seq<string>, valores: seq<string>)
    ensures forall p | p in Pairs(categorias, valores) :: p.0 in categorias && p.1 in valores
  {
    if categorias != [] {
      var front := categorias[..|categorias| - 1];
      PairsCategories(front, valores);
      forall p | p in Pairs(categorias, valores) ensures p.0 in categorias && p.1 in valores {
        if p in Pairs(front, valores) {
          assert p.0 in front;
        } else {
          var k :| 0 <= k < |valores| && RowPairs(categorias[|categorias| - 1], valores)[k] == p;
        }
      }
    }
  }

  lemma {:induction false} CollectCounts(build: Builder, pairs: seq<(string, string)>)
    requires Buildable(build, pairs)
    ensures Collect(build, pairs).Ok? ==>
              |Collect(build, pairs).value.0| + |Collect(build, pairs).value.1| <= |pairs|
  {
    if pairs != [] {
      CollectCounts(build, pairs[..|pairs| - 1]);
    }
  }

  /** On success the USD list holds, in visiting order, one table per pair
      whose value column is "VALOR_USD", named after the pair and equal to
      the table built for it; the KG list the same for "PESO_KG_NETO". */
  lemma {:induction false} CollectLists(build: Builder, pairs: seq<(string, string)>)
    requires Buildable(build, pairs)
    requires Collect(build, pairs).Ok?
    ensures var (usd, kg) := Collect(build, pairs).value;
            var wu, wk := WithUnit(pairs, "VALOR_USD"), WithUnit(pairs, "PESO_KG_NETO");
            && |usd| == |wu| && |kg| == |wk|
            && (forall k | 0 <= k < |usd| ::
                  usd[k].0 == TableName(wu[k].0, wu[k].1) && build.requires(wu[k].0, wu[k].1)
                  && build(wu[k].0, wu[k].1) == Ok(usd[k].1))
            && (forall k | 0 <= k < |kg| ::
                  kg[k].0 == TableName(wk[k].0, wk[k].1) && build.requires(wk[k].0, wk[k].1)
                  && build(wk[k].0, wk[k].1) == Ok(kg[k].1))
  {
    if pairs != [] {
      var front := pairs[..|pairs| - 1];
      CollectLists(build, front);
    }
  }

  /** The call fails exactly when some pair's table fails, and then with
      the error of the first pair that fails. */
  lemma {:induction false} CollectFails(build: Builder, pairs: seq<(string, string)>)
    requires Buildable(build, pairs)
    ensures Collect(build, pairs).Ok? <==> forall k | 0 <= k < |pairs| :: build(pairs[k].0, pairs[k].1).Ok?
    ensures Collect(build, pairs).Err? ==>
              exists k | 0 <= k < |pairs| ::
                && build(pairs[k].0, pairs[k].1).Err?
                && Collect(build, pairs) == Err(build(pairs[k].0, pairs[k].1).error)
                && forall m | 0 <= m < k :: build(pairs[m].0, pairs[m].1).Ok?
  {
    if pairs != [] {
      var n := |pairs|;
      var front := pairs[..n - 1];
      CollectFails(build, front);
      assert forall k | 0 <= k < n - 1 :: front[k] == pairs[k];
      if Collect(build, front).Err? {
        var k :| 0 <= k < n - 1 && build(front[k].0, front[k].1).Err?
                 && Collect(build, front) == Err(build(front[k].0, front[k].1).error)
                 && forall m | 0 <= m < k :: build(front[m].0, front[m].1).Ok?;
        assert pairs[k] == front[k];
      }
    }
  }

  // -----------------------------------------------------------------------
  // The loops

  /** The pairs visited once category `i` has had its first `j` value
      columns. */
  function Visited(categorias: seq<string>, valores: seq<string>, i: nat, j: nat): seq<(string, string)>
    requires i < |categorias| && j <= |valores|
  {
    Pairs(categorias[..i], valores) + RowPairs(categorias[i], valores[..j])
  }

  lemma RowPairsNext(categoria: string, valores: seq<string>, j: nat)
    requires j < |valores|
    ensures RowPairs(categoria, valores[..j + 1]) == RowPairs(categoria, valores[..j]) + [(categoria, valores[j])]
  {
    var a, b := RowPairs(categoria, valores[..j + 1]), RowPairs(categoria, valores[..j]) + [(categoria, valores[j])];
    forall k | 0 <= k < j + 1 ensures a[k] == b[k] {
      if k < j {
        assert a[k] == (categoria, valores[k]);
      }
    }
  }

  lemma VisitedNext(categorias: seq<string>, valores: seq<string>, i: nat, j: nat)
    requires i < |categorias| && j < |valores|
    ensures Visited(categorias, valores, i, j + 1) == Visited(categorias, valores, i, j) + [(categorias[i], valores[j])]
  {
    RowPairsNext(categorias[i], valores, j);
  }

  lemma VisitedStart(categorias: seq<string>, valores: seq<string>, i: nat)
    requires i < |categorias|
    ensures Visited(categorias, valores, i, 0) == Pairs(categorias[..i], valores)
  {
    assert RowPairs(categorias[i], valores[..0]) == [];
  }

  lemma VisitedEnd(categorias: seq<string>, valores: seq<string>, i: nat)
    requires i < |categorias|
    ensures Visited(categorias, valores, i, |valores|) == Pairs(categorias[..i + 1], valores)
  {
    assert categorias[..i + 1][..i] == categorias[..i];
    assert valores[..|valores|] == valores;
  }

  lemma {:induction false} PairsAppend(a: seq<string>, b: seq<string>, valores: seq<string>)
    ensures Pairs(a + b, valores) == Pairs(a, valores) + Pairs(b, valores)
  {
    if b == [] {
      assert a + b == a;
    } else {
      var front := b[..|b| - 1];
      assert (a + b)[..|a + b| - 1] == a + front;
      PairsAppend(a, front, valores);
    }
  }

  lemma RowPairsSplit(categoria: string, valores: seq<string>, j: nat)
    requires j <= |valores|
    ensures RowPairs(categoria, valores) == RowPairs(categoria, valores[..j]) + RowPairs(categoria, valores[j..])
  {
    var row, lo, hi := RowPairs(categoria, valores), RowPairs(categoria, valores[..j]), RowPairs(categoria, valores[j..]);
    forall k | 0 <= k < |row| ensures row[k] == (lo + hi)[k] {
      if k < j {
        assert lo[k] == (categoria, valores[k]);
      } else {
        assert hi[k - j] == (categoria, valores[k]);
      }
    }
  }

  lemma PairsAround(categorias: seq<string>, valores: seq<string>, i: nat)
    requires i < |categorias|
    ensures Pairs(categorias, valores)
         == Pairs(categorias[..i], valores) + RowPairs(categorias[i], valores) + Pairs(categorias[i + 1..], valores)
  {
    var c := categorias[i];
    assert categorias == (categorias[..i] + [c]) + categorias[i + 1..];
    PairsAppend(categorias[..i] + [c], categorias[i + 1..], valores);
    PairsAppend(categorias[..i], [c], valores);
    assert [c][..0] == [];
    assert Pairs([c], valores) == Pairs([], valores) + RowPairs(c, valores);
  }

  /** The visited pairs are a prefix of all the pairs. */
  lemma VisitedPrefix(categorias: seq<string>, valores: seq<string>, i: nat, j: nat)
    requires i < |categorias| && j <= |valores|
    ensures Pairs(categorias, valores)
         == Visited(categorias, valores, i, j) + (RowPairs(categorias[i], valores[j..]) + Pairs(categorias[i + 1..], valores))
  {
    PairsAround(categorias, valores, i);
    RowPairsSplit(categorias[i], valores, j);
  }

  /** One more pair: the call fails as before, fails with this pair's
      error, or files this pair's table. */
  lemma CollectStep(build: Builder, done: seq<(string, string)>, categoria: string, valor: string)
    requires Buildable(build, done + [(categoria, valor)])
    ensures Buildable(build, done)
    ensures Collect(build, done).Ok? && build(categoria, valor).Err? ==>
              Collect(build, done + [(categoria, valor)]) == Err(build(categoria, valor).error)
    ensures Collect(build, done).Ok? && build(categoria, valor).Ok? ==>
              Collect(build, done + [(categoria, valor)])
              == Ok(File(Collect(build, done).value, TableName(categoria, valor), valor, build(categoria, valor).value))
  {
    var next := done + [(categoria, valor)];
    assert next[..|next| - 1] == done;
    assert forall p | p in done :: p in next;
  }

  lemma BuildablePrefix(build: Builder, pairs: seq<(string, string)>, more: seq<(string, string)>)
    requires Buildable(build, pairs + more)
    ensures Buildable(build, pairs)
  {
    assert forall p | p in pairs :: p in pairs + more;
  }

  /** Once a prefix of the pairs fails, the whole call fails the same way. */
  lemma {:induction false} CollectExtends(build: Builder, pairs: seq<(string, string)>, more: seq<(string, string)>)
    requires Buildable(build, pairs + more)
    requires Collect(build, pairs).Err?
    ensures Collect(build, pairs + more) == Collect(build, pairs)
  {
    if more == [] {
      assert pairs + more == pairs;
    } else {
      var front := more[..|more| - 1];
      assert (pairs + more)[..|pairs + more| - 1] == pairs + front;
      CollectExtends(build, pairs, front);
    }
  }

  /** The frames of a list show the tables of the other, under the same
      names. */
  predicate Shows(frames: seq<(string, Frame)>, tables: seq<(string, Table)>)
    reads set k | 0 <= k < |frames| :: frames[k].1
  {
    && |frames| == |tables|
    && forall k | 0 <= k < |frames| :: frames[k].0 == tables[k].0 && frames[k].1.Valid() && frames[k].1.View() == tables[k].1
  }

  lemma ShowsFile(usd: seq<(string, Frame)>, kg: seq<(string, Frame)>,
                  lists: (seq<(string, Table)>, seq<(string, Table)>), name: string, valor: string, f: Frame)
    requires Shows(usd, lists.0) && Shows(kg, lists.1)
    requires f.Valid()
    ensures var r := File(lists, name, valor, f.View());
            && (valor == "VALOR_USD" ==> Shows(usd + [(name, f)], r.0) && Shows(kg, r.1))
            && (valor == "PESO_KG_NETO" ==> Shows(usd, r.0) && Shows(kg + [(name, f)], r.1))
            && (valor != "VALOR_USD" && valor != "PESO_KG_NETO" ==> Shows(usd, r.0) && Shows(kg, r.1))
  {
  }

  /** The state the loops keep: the pairs visited so far can all be built,
      none of them failed, and the two lists of frames show the two lists
      of tables they produced. */
  ghost predicate Reached(build: Builder, pairs: seq<(string, string)>,
                          usd: seq<(string, Frame)>, kg: seq<(string, Frame)>)
    reads set k | 0 <= k < |usd| :: usd[k].1
    reads set k | 0 <= k < |kg| :: kg[k].1
  {
    && Buildable(build, pairs)
    && Collect(build, pairs).Ok?
    && Shows(usd, Collect(build, pairs).value.0)
    && Shows(kg, Collect(build, pairs).value.1)
  }

  /** Lines 828-836, one pass of the inner loop: the table of one pair is
      built as a frame and appended, with its name, to the USD or the KG
      list; its error, if any, is the error of the whole call so far. */
  method AddSummary(d: Data, topN: Option<int>, ghost done: seq<(string, string)>, categoria: string, valor: string,
                    usd: seq<(string, Frame)>, kg: seq<(string, Frame)>)
    returns (r: Result<(seq<(string, Frame)>, seq<(string, Frame)>)>)
    requires WellFormed(d) && NoTotalCategory(d, categoria)
    requires Buildable(SummaryBuilder(d, topN), done + [(categoria, valor)])
    requires Reached(SummaryBuilder(d, topN), done, usd, kg)
    ensures r.Err? ==> Collect(SummaryBuilder(d, topN), done + [(categoria, valor)]) == Err(r.error)
    ensures r.Ok? ==> Reached(SummaryBuilder(d, topN), done + [(categoria, valor)], r.value.0, r.value.1)
  {
    ghost var build := SummaryBuilder(d, topN);
    CollectStep(build, done, categoria, valor);
    var table := GenerateSummary(d, categoria, valor, topN);
    assert build(categoria, valor) == SummaryTable(d, categoria, valor, topN);
    if table.Err? {
      return Err(table.error);
    }
    var name := "RESUMEN_" + categoria + "_" + valor;
    ghost var lists := Collect(build, done).value;
    assert name == TableName(categoria, valor);
    ShowsFile(usd, kg, lists, name, valor, table.value);
    if valor == "VALOR_USD" {
      r := Ok((usd + [(name, table.value)], kg));
    } else if valor == "PESO_KG_NETO" {
      r := Ok((usd, kg + [(name, table.value)]));
    } else {
      r := Ok((usd, kg));
    }
  }

  /** Lines 823-836: the inner loop, which appends the tables of one
      category (one per value column) to the two lists; an error from any
      of them is the error of the whole call. */
  method AddCategory(d: Data, categorias: seq<string>, valores: seq<string>, topN: Option<int>, i: nat,
                     usd: seq<(string, Frame)>, kg: seq<(string, Frame)>)
    returns (r: Result<(seq<(string, Frame)>, seq<(string, Frame)>)>)
    requires Summarizable(d, categorias) && i < |categorias|
    requires Buildable(SummaryBuilder(d, topN), Pairs(categorias, valores))
    requires Reached(SummaryBuilder(d, topN), Pairs(categorias[..i], valores), usd, kg)
    ensures r.Err? ==> AllSummaries(d, categorias, valores, topN) == Err(r.error)
    ensures r.Ok? ==> Reached(SummaryBuilder(d, topN), Pairs(categorias[..i + 1], valores), r.value.0, r.value.1)
  {
    ghost var build := SummaryBuilder(d, topN);
    var categoria := categorias[i];
    assert categoria in categorias;
    VisitedStart(categorias, valores, i);
    var usd', kg' := usd, kg;
    var j := 0;
    while j < |valores|
      invariant 0 <= j <= |valores|
      invariant Reached(build, Visited(categorias, valores, i, j), usd', kg')
    {
      var valor := valores[j];
      ghost var done := Visited(categorias, valores, i, j);
      ghost var next := done + [(categoria, valor)];
      ghost var rest := RowPairs(categoria, valores[j + 1..]) + Pairs(categorias[i + 1..], valores);
      VisitedNext(categorias, valores, i, j);
      VisitedPrefix(categorias, valores, i, j + 1);
      BuildablePrefix(build, next, rest);
      var step := AddSummary(d, topN, done, categoria, valor, usd', kg');
      if step.Err? {
        CollectExtends(build, next, rest);
        r := Err(step.error);
        return;
      }
      usd', kg' := step.value.0, step.value.1;
      j := j + 1;
      assert Visited(categorias, valores, i, j) == next;
    }
    VisitedEnd(categorias, valores, i);
    r := Ok((usd', kg'));
  }

  /** Lines 821-840: the two nested loops build each table as a frame and
      append it, with its name, to the USD or the KG list; an error from
      any table ends the call with that error. */
  method GenerateAllSummaries(d: Data, categorias: seq<string>, valores: seq<string>, topN: Option<int>)
    returns (r: Result<(seq<(string, Frame)>, seq<(string, Frame)>)>)
    requires Summarizable(d, categorias)
    ensures r.Ok? <==> AllSummaries(d, categorias, valores, topN).Ok?
    ensures r.Err? ==> AllSummaries(d, categorias, valores, topN) == Err(r.error)
    ensures r.Ok? ==> Shows(r.value.0, AllSummaries(d, categorias, valores, topN).value.0)
    ensures r.Ok? ==> Shows(r.value.1, AllSummaries(d, categorias, valores, topN).value.1)
  {
    ghost var build := SummaryBuilder(d, topN);
    PairsCategories(categorias, valores);
    assert Buildable(build, Pairs(categorias, valores));
    var usd: seq<(string, Frame)> := [];
    var kg: seq<(string, Frame)> := [];
    BuildablePrefix(build, Pairs(categorias[..0], valores), Pairs(categorias, valores));
    var i := 0;
    while i < |categorias|
      invariant 0 <= i <= |categorias|
      invariant Reached(build, Pairs(categorias[..i], valores), usd, kg)
    {
      var step := AddCategory(d, categorias, valores, topN, i, usd, kg);
      if step.Err? {
        return Err(step.error);
      }
      usd, kg := step.value.0, step.value.1;
      i := i + 1;
    }
    assert categorias[..i] == categorias;
    return Ok((usd, kg));
  }
}
