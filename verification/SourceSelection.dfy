/** Choosing time sources: the two-phase greedy choice of `choose_sources` and its global optimality. */
module SourceSelection {
  import opened Results

  /** One summarized candidate. An eligible row always carries its least round-trip delay; `details` stands for the
      fields the choice only compares (region, replies, errors, offsets). */
  datatype Row = Row(host: string, operator: Option<string>, eligible: bool, minDelay: Option<real>, details: string)

  function Eligible(ranked: seq<Row>): seq<Row> {
    if ranked == [] then []
    else Eligible(ranked[..|ranked| - 1])
         + (if ranked[|ranked| - 1].eligible then [ranked[|ranked| - 1]] else [])
  }

  function Operators(rows: set<Row>): set<Option<string>> {
    set r | r in rows :: r.operator
  }

  function Rows(s: seq<Row>): set<Row> {
    set r | r in s
  }

  ghost predicate Distinct(s: seq<Row>) {
    forall i, j :: 0 <= i < j < |s| ==> s[i] != s[j]
  }

  // ---------- the two phases, as functions of the rows seen so far ----------

  /** Phase one: the first row of each new operator, up to `count`. */
  function Diverse(rows: seq<Row>, count: int): seq<Row> {
    if rows == [] then []
    else
      var chosen, server := Diverse(rows[..|rows| - 1], count), rows[|rows| - 1];
      if |chosen| >= count || server.operator in Operators(Rows(chosen)) then chosen else chosen + [server]
  }

  /** Phase two: the nearest rows not chosen yet, up to `count`. */
  function Filled(rows: seq<Row>, base: seq<Row>, count: int): seq<Row> {
    if rows == [] then base
    else
      var chosen, server := Filled(rows[..|rows| - 1], base, count), rows[|rows| - 1];
      if |chosen| >= count || server in chosen then chosen else chosen + [server]
  }

  function Choice(rows: seq<Row>, count: int): seq<Row> {
    Filled(rows, Diverse(rows, count), count)
  }

  // ---------- the loops ----------

  method ChooseSources(ranked: seq<Row>, count: int) returns (chosen: seq<Row>)
    ensures chosen == Choice(Eligible(ranked), count)
  {
    hide Diverse, Filled, Eligible, Operators;
    var eligible := Eligible(ranked);
    chosen := [];
    NoneChosen(chosen, count);
    for i := 0 to |eligible|
      invariant chosen == Diverse(eligible[..i], count)
    {
      if |chosen| >= count {
        FullStaysDiverse(eligible, i, count);
        break;
      }
      OneMore(eligible, chosen, i, count);
      var server := eligible[i];
      if server.operator !in Operators(Rows(chosen)) {
        chosen := chosen + [server];
      }
    }
    assert eligible[..|eligible|] == eligible;
    ghost var base := chosen;
    NoneChosen(base, count);
    for i := 0 to |eligible|
      invariant chosen == Filled(eligible[..i], base, count)
    {
      if |chosen| >= count {
        FullStaysFilled(eligible, base, i, count);
        break;
      }
      OneMore(eligible, base, i, count);
      var server := eligible[i];
      if server !in chosen {
        chosen := chosen + [server];
      }
    }
  }

  lemma NoneChosen(base: seq<Row>, count: int)
    ensures Diverse([], count) == [] && Filled([], base, count) == base
  {
  }

  /** What one more row does to either phase. */
  lemma OneMore(rows: seq<Row>, base: seq<Row>, i: nat, count: int)
    requires i < |rows|
    ensures var chosen, server := Diverse(rows[..i], count), rows[i];
      Diverse(rows[..i + 1], count) ==
      if |chosen| >= count || server.operator in Operators(Rows(chosen)) then chosen else chosen + [server]
    ensures var chosen, server := Filled(rows[..i], base, count), rows[i];
      Filled(rows[..i + 1], base, count) ==
      if |chosen| >= count || server in chosen then chosen else chosen + [server]
  {
    assert rows[..i + 1][..i] == rows[..i] && rows[..i + 1][i] == rows[i];
  }

  lemma {:induction false} FullStaysDiverse(rows: seq<Row>, i: nat, count: int)
    requires i <= |rows| && |Diverse(rows[..i], count)| >= count
    ensures Diverse(rows, count) == Diverse(rows[..i], count)
  {
    if i == |rows| {
      assert rows[..i] == rows;
    } else {
      assert rows[..|rows| - 1][..i] == rows[..i];
      FullStaysDiverse(rows[..|rows| - 1], i, count);
    }
  }

  lemma {:induction false} FullStaysFilled(rows: seq<Row>, base: seq<Row>, i: nat, count: int)
    requires i <= |rows| && |Filled(rows[..i], base, count)| >= count
    ensures Filled(rows, base, count) == Filled(rows[..i], base, count)
  {
    if i == |rows| {
      assert rows[..i] == rows;
    } else {
      assert rows[..|rows| - 1][..i] == rows[..i];
      FullStaysFilled(rows[..|rows| - 1], base, i, count);
    }
  }

  // ---------- sizes of sets ----------

  lemma {:induction false} DistinctSize(s: seq<Row>)
    requires Distinct(s)
    ensures |Rows(s)| == |s|
  {
    if s != [] {
      var init, last := s[..|s| - 1], s[|s| - 1];
      DistinctSize(init);
      assert Rows(s) == Rows(init) + {last};
    }
  }

  lemma SubsetSize<T>(a: set<T>, b: set<T>)
    requires a <= b
    ensures |a| <= |b|
    ensures |a| == |b| ==> a == b
  {
    assert b == a + (b - a);
    assert |b| == |a| + |b - a|;
  }

  lemma {:induction false} OperatorsAtMost(rows: set<Row>)
    ensures |Operators(rows)| <= |rows|
  {
    if rows == {} {
      assert Operators(rows) == {};
    } else {
      var r :| r in rows;
      OperatorsAtMost(rows - {r});
      SubsetSize(Operators(rows), Operators(rows - {r}) + {r.operator});
    }
  }

  lemma OperatorsAdd(rows: set<Row>, r: Row)
    ensures Operators(rows + {r}) == Operators(rows) + {r.operator}
    ensures r.operator !in Operators(rows) ==> r !in rows
  {
  }

  lemma OperatorsMonotone(a: set<Row>, b: set<Row>)
    requires a <= b
    ensures |Operators(a)| <= |Operators(b)|
  {
    SubsetSize(Operators(a), Operators(b));
  }

  // ---------- phase one ----------

  lemma RowAdded(rows: seq<Row>, server: Row)
    ensures Rows(rows + [server]) == Rows(rows) + {server}
    ensures Distinct(rows) && server.operator !in Operators(Rows(rows)) ==> Distinct(rows + [server])
  {
    if server in rows {
      assert server in Rows(rows) && server.operator in Operators(Rows(rows));
    }
  }

  /** Different rows of different operators, at most `count`, and of every operator if there is room. */
  ghost predicate Spread(chosen: seq<Row>, rows: seq<Row>, count: int) {
    && Distinct(chosen) && Rows(chosen) <= Rows(rows)
    && |Operators(Rows(chosen))| == |chosen|
    && (count >= 0 ==> |chosen| <= count)
    && (|chosen| < count ==> Operators(Rows(chosen)) == Operators(Rows(rows)))
  }

  lemma SpreadKept(chosen: seq<Row>, rows: seq<Row>, server: Row, count: int)
    requires Spread(chosen, rows, count)
    ensures |chosen| >= count || server.operator in Operators(Rows(chosen)) ==> Spread(chosen, rows + [server], count)
    ensures !(|chosen| >= count || server.operator in Operators(Rows(chosen))) ==>
      Spread(chosen + [server], rows + [server], count)
  {
    RowAdded(rows, server);
    RowAdded(chosen, server);
    OperatorsAdd(Rows(rows), server);
    OperatorsAdd(Rows(chosen), server);
    hide Operators, Rows, Distinct;
  }

  lemma {:induction false} DiverseFacts(rows: seq<Row>, count: int)
    ensures Spread(Diverse(rows, count), rows, count)
  {
    if rows == [] {
      assert Operators(Rows(rows)) == {};
    } else {
      hide Spread, Operators, Rows;
      DiverseFacts(rows[..|rows| - 1], count);
      SpreadKept(Diverse(rows[..|rows| - 1], count), rows[..|rows| - 1], rows[|rows| - 1], count);
      assert rows == rows[..|rows| - 1] + [rows[|rows| - 1]];
    }
  }

  lemma {:induction false} DiversePrefix(rows: seq<Row>, j: nat, count: int)
    requires j <= |rows|
    ensures Diverse(rows[..j], count) <= Diverse(rows, count)
  {
    if j == |rows| {
      assert rows[..j] == rows;
    } else {
      assert rows[..|rows| - 1][..j] == rows[..j];
      DiversePrefix(rows[..|rows| - 1], j, count);
    }
  }

  // ---------- phase two ----------

  lemma {:induction false} FilledFacts(rows: seq<Row>, base: seq<Row>, count: int)
    requires Distinct(base)
    ensures var c := Filled(rows, base, count);
      && base <= c && Distinct(c)
      && (forall i :: |base| <= i < |c| ==> c[i] in rows)
      && (|c| > |base| ==> |c| <= count)
      && (|c| < count ==> Rows(rows) <= Rows(c))
  {
    if rows != [] {
      var init, server := rows[..|rows| - 1], rows[|rows| - 1];
      FilledFacts(init, base, count);
      assert Rows(rows) == Rows(init) + {server};
      var before := Filled(init, base, count);
      forall i | |base| <= i < |before|
        ensures before[i] in rows
      {
        assert before[i] in init;
      }
    }
  }

  lemma {:induction false} FilledPrefix(rows: seq<Row>, base: seq<Row>, j: nat, count: int)
    requires j <= |rows|
    ensures Filled(rows[..j], base, count) <= Filled(rows, base, count)
  {
    if j == |rows| {
      assert rows[..j] == rows;
    } else {
      assert rows[..|rows| - 1][..j] == rows[..j];
      FilledPrefix(rows[..|rows| - 1], base, j, count);
    }
  }

  // ---------- what is chosen ----------

  /** The choice is phase one's rows, then rows added in rank order; it draws on the given rows only. */
  lemma ChoiceParts(rows: seq<Row>, count: int)
    ensures var c, base := Choice(rows, count), Diverse(rows, count);
      && base <= c && Distinct(c) && Rows(base) <= Rows(c) <= Rows(rows)
      && (count >= 0 ==> |c| <= count) && (count <= 0 ==> c == base == [])
      && (|c| < count ==> Rows(c) == Rows(rows))
      && |Rows(c)| == |c|
  {
    DiverseFacts(rows, count);
    var base, c := Diverse(rows, count), Choice(rows, count);
    FilledFacts(rows, base, count);
    hide Diverse, Filled, Operators;
    forall r | r in c
      ensures r in Rows(rows)
    {
      var i :| 0 <= i < |c| && c[i] == r;
      if i < |base| {
        assert base[i] in Rows(base);
      }
    }
    PrefixRows(base, c);
    DistinctSize(c);
    if count <= 0 {
      NothingAsked(rows, count);
    }
  }

  lemma {:induction false} NothingAsked(rows: seq<Row>, count: int)
    requires count <= 0
    ensures Diverse(rows, count) == []
  {
    if rows != [] {
      NothingAsked(rows[..|rows| - 1], count);
    }
  }

  /** As many sources as asked for and available, each once. */
  lemma ChoiceShape(rows: seq<Row>, count: int)
    ensures var c := Choice(rows, count);
      && Distinct(c) && Rows(c) <= Rows(rows)
      && |c| == (if count <= 0 then 0 else if count <= |Rows(rows)| then count else |Rows(rows)|)
  {
    ChoiceParts(rows, count);
    var c := Choice(rows, count);
    hide Choice;
    SubsetSize(Rows(c), Rows(rows));
  }

  /** Phase one already has every operator of the choice; an operator comes twice only when all are present. */
  lemma ChoiceOperators(rows: seq<Row>, count: int)
    ensures var c := Choice(rows, count);
      && |Operators(Rows(c))| == |Diverse(rows, count)|
      && (|Operators(Rows(c))| < |c| ==> Operators(Rows(c)) == Operators(Rows(rows)))
      && (forall i, j :: 0 <= i < j < |c| && c[i].operator == c[j].operator ==>
            Operators(Rows(c)) == Operators(Rows(rows)))
  {
    ChoiceParts(rows, count);
    DiverseFacts(rows, count);
    var base, c := Diverse(rows, count), Choice(rows, count);
    hide Choice, Diverse, Distinct;
    assert Operators(Rows(base)) <= Operators(Rows(c)) <= Operators(Rows(rows));
    if |base| < count {
      assert Operators(Rows(c)) == Operators(Rows(base));
    } else {
      assert c == base;
    }
    forall i, j | 0 <= i < j < |c| && c[i].operator == c[j].operator
      ensures Operators(Rows(c)) == Operators(Rows(rows))
    {
      if |base| >= count {
        RepeatLosesOperator(c, i, j);
      }
    }
  }

  lemma RepeatLosesOperator(c: seq<Row>, i: nat, j: nat)
    requires Distinct(c) && i < j < |c| && c[i].operator == c[j].operator
    ensures |Operators(Rows(c))| < |c|
  {
    DistinctSize(c);
    var others := Rows(c) - {c[j]};
    assert c[i] in others && c[j] in Rows(c);
    assert Operators(Rows(c)) == Operators(others);
    OperatorsAtMost(others);
  }

  // ---------- optimality ----------

  function Delay(r: Row): real {
    if r.minDelay.Some? then r.minDelay.value else 0.0
  }

  function TotalDelay(s: seq<Row>): real {
    if s == [] then 0.0 else TotalDelay(s[..|s| - 1]) + Delay(s[|s| - 1])
  }

  ghost predicate NearestFirst(rows: seq<Row>) {
    forall i, j :: 0 <= i < j < |rows| ==> Delay(rows[i]) <= Delay(rows[j])
  }

  /** How many of `s` are among the `j` nearest rows. */
  function Among(s: set<Row>, rows: seq<Row>, j: nat): nat
    requires j <= |rows|
  {
    |s * Rows(rows[..j])|
  }

  /** No selection with as many operators can hold more of the nearest rows, whatever "nearest" is cut at. */
  lemma ChoiceDominates(rows: seq<Row>, count: int, t: set<Row>, j: nat)
    requires j <= |rows|
    requires var c := Rows(Choice(rows, count));
      t <= Rows(rows) && |t| == |c| && |Operators(t)| >= |Operators(c)|
    ensures Among(t, rows, j) <= Among(Rows(Choice(rows, count)), rows, j)
  {
    hide Diverse, Filled, Choice, Operators;
    var near := Rows(rows[..j]);
    var choice, base := Choice(rows, count), Diverse(rows, count);
    SelectionBound(t, near);
    ChoiceParts(rows, count);
    ChoiceOperators(rows, count);
    if j < |rows| && |Filled(rows[..j], base, count)| < count {
      AllNearChosen(rows, j, count);
      assert Rows(choice) * near == near;
    } else {
      ChoiceCompleteWithin(rows, j, count);
      ChosenNear(rows, j, count);
    }
  }

  lemma ChoiceCompleteWithin(rows: seq<Row>, j: nat, count: int)
    requires j <= |rows|
    requires j < |rows| ==> |Filled(rows[..j], Diverse(rows, count), count)| >= count
    ensures Choice(rows, count) == Filled(rows[..j], Diverse(rows, count), count)
  {
    if j < |rows| {
      FullStaysFilled(rows, Diverse(rows, count), j, count);
    } else {
      assert rows[..j] == rows;
    }
  }

  /** While places are left, every row passed so far has been chosen. */
  lemma AllNearChosen(rows: seq<Row>, j: nat, count: int)
    requires j <= |rows| && |Filled(rows[..j], Diverse(rows, count), count)| < count
    ensures Rows(rows[..j]) <= Rows(Choice(rows, count))
  {
    var base := Diverse(rows, count);
    DiverseFacts(rows, count);
    FilledFacts(rows[..j], base, count);
    FilledPrefix(rows, base, j, count);
    PrefixRows(Filled(rows[..j], base, count), Choice(rows, count));
  }

  lemma PrefixRows(a: seq<Row>, b: seq<Row>)
    requires a <= b
    ensures Rows(a) <= Rows(b)
  {
    forall r | r in a
      ensures r in b
    {
      var i :| 0 <= i < |a| && a[i] == r;
      assert b[i] == r;
    }
  }

  /** Each operator missing from the near rows costs the selection one far row. */
  lemma SelectionBound(t: set<Row>, near: set<Row>)
    ensures |t * near| <= |near| && |t * near| <= |t|
    ensures |t * near| <= |t| - |Operators(t)| + |Operators(near)|
  {
    var far := t - near;
    SubsetSize(t * near, near);
    SubsetSize(t * near, t);
    assert t == t * near + far && |t| == |t * near| + |far|;
    OperatorsAtMost(far);
    OperatorsCovered(t, near, far);
    hide Operators;
    UnionSize(Operators(near), Operators(far));
    SubsetSize(Operators(t), Operators(near) + Operators(far));
  }

  lemma OperatorsCovered(t: set<Row>, near: set<Row>, far: set<Row>)
    requires t <= near + far
    ensures Operators(t) <= Operators(near) + Operators(far)
  {
  }

  lemma UnionSize<T>(a: set<T>, b: set<T>)
    ensures |a + b| <= |a| + |b|
  {
    assert a + b == a + (b - a);
    SubsetSize(b - a, b);
  }

  /** A sequence of distinct rows that begins with `first` and ends, after `base`, inside `near`. */
  lemma PartsInside(c: seq<Row>, base: seq<Row>, first: seq<Row>, near: set<Row>)
    requires Distinct(c) && base <= c && first <= base
    requires Rows(first) <= near && forall i :: |base| <= i < |c| ==> c[i] in near
    ensures |Rows(c) * near| >= |c| - |base| + |first|
  {
    var fill := c[|base|..];
    forall i, k | 0 <= i < |fill| && 0 <= k < |first|
      ensures fill[i] != first[k]
    {
      assert c[|base| + i] != c[k];
    }
    PrefixRows(first, c);
    DistinctSize(fill);
    DistinctSize(first);
    assert Rows(fill) !! Rows(first);
    SubsetSize(Rows(fill) + Rows(first), Rows(c) * near);
  }

  /** Once the choice is complete within the near rows, it holds every filler and every near first-of-operator. */
  lemma ChosenNear(rows: seq<Row>, j: nat, count: int)
    requires j <= |rows|
    requires Choice(rows, count) == Filled(rows[..j], Diverse(rows, count), count)
    ensures var c, near := Choice(rows, count), Rows(rows[..j]);
      |Rows(c) * near| >= |c| - |Diverse(rows, count)| + |Operators(near)| || |Rows(c) * near| >= |c|
  {
    var c, near := Choice(rows, count), Rows(rows[..j]);
    var base, first := Diverse(rows, count), Diverse(rows[..j], count);
    DiverseFacts(rows, count);
    DiverseFacts(rows[..j], count);
    DiversePrefix(rows, j, count);
    FilledFacts(rows[..j], base, count);
    ChoiceParts(rows, count);
    hide Choice, Diverse, Filled, Operators, Distinct;
    PartsInside(c, base, first, near);
    if |first| < count {
      assert |first| == |Operators(near)|;
    } else if count >= 0 {
      assert |base| == |first|;
    }
  }

  /** The total delay of the distinct rows of `s`, read off the ranked list. */
  function DelayWithin(rows: seq<Row>, s: set<Row>): real {
    if rows == [] then 0.0
    else
      var init, last := rows[..|rows| - 1], rows[|rows| - 1];
      DelayWithin(init, s) + (if last in s && last !in init then Delay(last) else 0.0)
  }

  lemma {:induction false} DelayWithinAdds(rows: seq<Row>, s: set<Row>, r: Row)
    requires r !in s
    ensures DelayWithin(rows, s + {r}) == DelayWithin(rows, s) + (if r in rows then Delay(r) else 0.0)
  {
    if rows != [] {
      DelayWithinAdds(rows[..|rows| - 1], s, r);
    }
  }

  lemma {:induction false} DelayWithinIsTotal(rows: seq<Row>, t: seq<Row>)
    requires Distinct(t) && Rows(t) <= Rows(rows)
    ensures DelayWithin(rows, Rows(t)) == TotalDelay(t)
  {
    if t == [] {
      assert Rows(t) == {};
      NoRowsNoDelay(rows);
    } else {
      var init, last := t[..|t| - 1], t[|t| - 1];
      assert Rows(t) == Rows(init) + {last};
      DelayWithinIsTotal(rows, init);
      assert last in Rows(t) && last !in Rows(init);
      DelayWithinAdds(rows, Rows(init), last);
    }
  }

  lemma {:induction false} NoRowsNoDelay(rows: seq<Row>)
    ensures DelayWithin(rows, {}) == 0.0
  {
    if rows != [] {
      NoRowsNoDelay(rows[..|rows| - 1]);
    }
  }

  function Scaled(d: real, n: int): real {
    d * (n as real)
  }

  lemma ScaledZero(d: real)
    ensures Scaled(d, 0) == 0.0
  {
  }

  /** By how much the first selection's delay exceeds the second's, and how many more of the rows it holds. */
  function Gap(rows: seq<Row>, s: set<Row>, t: set<Row>): real {
    DelayWithin(rows, s) - DelayWithin(rows, t)
  }

  function Lead(rows: seq<Row>, s: set<Row>, t: set<Row>): int {
    |s * Rows(rows)| - |t * Rows(rows)|
  }

  function NewIn(rows: seq<Row>, s: set<Row>): int
    requires rows != []
  {
    if rows[|rows| - 1] in s && rows[|rows| - 1] !in rows[..|rows| - 1] then 1 else 0
  }

  lemma HeldSnoc(rows: seq<Row>, s: set<Row>)
    requires rows != []
    ensures |s * Rows(rows)| == |s * Rows(rows[..|rows| - 1])| + NewIn(rows, s)
  {
    var init, last := rows[..|rows| - 1], rows[|rows| - 1];
    assert Rows(rows) == Rows(init) + {last};
    if NewIn(rows, s) == 1 {
      assert s * Rows(rows) == s * Rows(init) + {last};
    } else {
      assert s * Rows(rows) == s * Rows(init);
    }
  }

  lemma GapSnoc(rows: seq<Row>, s: set<Row>, t: set<Row>)
    requires rows != []
    ensures var d := Delay(rows[|rows| - 1]);
      Gap(rows, s, t) == Gap(rows[..|rows| - 1], s, t) + Scaled(d, NewIn(rows, s)) - Scaled(d, NewIn(rows, t))
  {
  }

  lemma PartsStep(gap: real, lead: int, d: real, d': real, x: int, y: int, gap': real, lead': int)
    requires lead >= 0 && d <= d' && gap <= Scaled(d, lead)
    requires gap' == gap + Scaled(d', x) - Scaled(d', y) && lead' == lead + x - y
    ensures gap' <= Scaled(d', lead')
  {
    ScaledMonotone(d, d', lead);
    ScaledSum(d', lead, x, y);
  }

  lemma ScaledMonotone(d: real, d': real, k: nat)
    requires d <= d'
    ensures Scaled(d, k) <= Scaled(d', k)
  {
  }

  lemma ScaledSum(d: real, k: int, x: int, y: int)
    ensures Scaled(d, k + x - y) == Scaled(d, k) + Scaled(d, x) - Scaled(d, y)
  {
    assert (k + x - y) as real == (k as real) + (x as real) - (y as real);
  }

  /** Summation by parts: holding more of every near part makes the total no larger. */
  lemma {:induction false} DominanceBoundsDelay(rows: seq<Row>, s: set<Row>, t: set<Row>)
    requires NearestFirst(rows)
    requires forall j: nat :: j <= |rows| ==> Among(t, rows, j) <= Among(s, rows, j)
    ensures rows == [] ==> Gap(rows, s, t) == 0.0 && Lead(rows, s, t) == 0
    ensures rows != [] ==> Gap(rows, s, t) <= Scaled(Delay(rows[|rows| - 1]), Lead(rows, s, t))
    ensures Lead(rows, s, t) >= 0
  {
    var n := |rows|;
    assert rows[..n] == rows;
    assert Among(t, rows, n) <= Among(s, rows, n);
    if rows == [] {
      assert s * Rows(rows) == {} && t * Rows(rows) == {};
    } else {
      var init, last := rows[..n - 1], rows[n - 1];
      forall j: nat | j <= n - 1
        ensures Among(t, init, j) <= Among(s, init, j)
      {
        assert init[..j] == rows[..j];
        assert Among(t, rows, j) <= Among(s, rows, j);
      }
      DominanceBoundsDelay(init, s, t);
      HeldSnoc(rows, s);
      HeldSnoc(rows, t);
      GapSnoc(rows, s, t);
      var d := if init == [] then Delay(last) else Delay(init[n - 2]);
      ScaledZero(d);
      hide Gap, Delay, NewIn, Among, Rows, Scaled;
      PartsStep(Gap(init, s, t), Lead(init, s, t), d, Delay(last), NewIn(rows, s), NewIn(rows, t),
                Gap(rows, s, t), Lead(rows, s, t));
    }
  }

  /** Among all selections of the same size with at least as many distinct operators, the choice has the least total
      delay; and no selection of that size has more operators. */
  lemma ChoiceIsOptimal(rows: seq<Row>, count: int, t: seq<Row>)
    requires NearestFirst(rows)
    requires Distinct(t) && Rows(t) <= Rows(rows) && |t| == |Choice(rows, count)|
    ensures |Operators(Rows(t))| <= |Operators(Rows(Choice(rows, count)))|
    ensures |Operators(Rows(t))| == |Operators(Rows(Choice(rows, count)))| ==>
      TotalDelay(Choice(rows, count)) <= TotalDelay(t)
  {
    hide Choice, Delay, Diverse, Scaled, Operators, TotalDelay, DelayWithin, Among, NearestFirst;
    var c := Choice(rows, count);
    ChoiceParts(rows, count);
    ChoiceOperators(rows, count);
    DistinctSize(c);
    DistinctSize(t);
    OperatorsAtMost(Rows(t));
    OperatorsMonotone(Rows(t), Rows(rows));
    if |Operators(Rows(t))| == |Operators(Rows(c))| {
      forall j: nat | j <= |rows|
        ensures Among(Rows(t), rows, j) <= Among(Rows(c), rows, j)
      {
        ChoiceDominates(rows, count, Rows(t), j);
      }
      DominanceBoundsDelay(rows, Rows(c), Rows(t));
      DelayWithinIsTotal(rows, c);
      DelayWithinIsTotal(rows, t);
      assert Rows(c) * Rows(rows) == Rows(c) && Rows(t) * Rows(rows) == Rows(t);
      assert Lead(rows, Rows(c), Rows(t)) == 0;
      if rows != [] {
        ScaledZero(Delay(rows[|rows| - 1]));
      }
    }
  }

  // ---------- the ranking it relies on ----------

  /** The sort key of `measure_all`: a delay of exactly zero counts as infinite, written `None` here. */
  function KeyDelay(r: Row): Option<real> {
    if r.minDelay.Some? && r.minDelay.value != 0.0 then r.minDelay else None
  }

  predicate RanksBefore(a: Row, b: Row) {
    if a.eligible != b.eligible then a.eligible
    else match (KeyDelay(a), KeyDelay(b))
      case (_, None) => true
      case (None, Some(_)) => false
      case (Some(x), Some(y)) => x <= y
  }

  ghost predicate RankedByKey(rows: seq<Row>) {
    forall i, j :: 0 <= i < j < |rows| ==> RanksBefore(rows[i], rows[j])
  }

  lemma {:induction false} EligibleKeepsRank(ranked: seq<Row>)
    requires RankedByKey(ranked)
    ensures RankedByKey(Eligible(ranked))
    ensures forall r :: r in Eligible(ranked) <==> r in ranked && r.eligible
  {
    if ranked != [] {
      var init, last := ranked[..|ranked| - 1], ranked[|ranked| - 1];
      EligibleKeepsRank(init);
      var before := Eligible(init);
      forall i | 0 <= i < |before|
        ensures RanksBefore(before[i], last)
      {
        assert before[i] in init;
      }
      assert forall r :: r in ranked <==> r in init || r == last;
    }
  }

  /** No eligible delay is zero, or none is positive: the condition under which the key is the delay. */
  ghost predicate KeyIsDelay(rows: seq<Row>) {
    || (forall r :: r in rows && r.eligible ==> Delay(r) != 0.0)
    || (forall r :: r in rows && r.eligible ==> Delay(r) <= 0.0)
  }

  lemma KeysByDelay(a: Row, b: Row)
    requires a.eligible && b.eligible && a.minDelay.Some? && b.minDelay.Some? && RanksBefore(a, b)
    ensures Delay(a) <= Delay(b) || (Delay(a) > 0.0 && Delay(b) == 0.0)
  {
  }

  lemma ZeroRanksLast(rows: seq<Row>, zero: Row, far: Row)
    requires RankedByKey(rows) && zero in rows && far in rows && zero.eligible && far.eligible
    requires zero.minDelay == Some(0.0) && far.minDelay.Some? && Delay(far) > 0.0
    ensures !NearestFirst(rows)
    ensures (forall r :: r in rows ==> Delay(r) >= 0.0) ==> Delay(rows[0]) > 0.0
  {
    var i :| 0 <= i < |rows| && rows[i] == zero;
    var k :| 0 <= k < |rows| && rows[k] == far;
    assert k > 0 ==> RanksBefore(rows[0], far);
    assert i > 0 ==> RanksBefore(rows[0], zero);
    assert i < k ==> RanksBefore(zero, far);
    assert k < i && Delay(rows[k]) > Delay(rows[i]);
    assert rows[0] in rows;
  }

  /** The ranking is by delay, as the choice needs, exactly when no eligible delay is zero or none is positive:
      a zero delay is otherwise ranked behind positive ones. */
  lemma RankingIsByDelayIff(ranked: seq<Row>)
    requires RankedByKey(ranked)
    requires forall r :: r in ranked && r.eligible ==> r.minDelay.Some?
    ensures NearestFirst(Eligible(ranked)) <==> KeyIsDelay(ranked)
  {
    EligibleKeepsRank(ranked);
    var rows := Eligible(ranked);
    hide RanksBefore, Eligible;
    if KeyIsDelay(ranked) {
      forall i, j | 0 <= i < j < |rows|
        ensures Delay(rows[i]) <= Delay(rows[j])
      {
        assert rows[i] in rows && rows[j] in rows;
        KeysByDelay(rows[i], rows[j]);
      }
    } else {
      var zero, far :| zero in ranked && zero.eligible && Delay(zero) == 0.0
                       && far in ranked && far.eligible && Delay(far) > 0.0;
      ZeroRanksLast(rows, zero, far);
    }
  }

  /** No selection of as many rows with as many operators is nearer in total. */
  ghost predicate LeastDelay(rows: seq<Row>, choice: seq<Row>) {
    forall t :: Distinct(t) && Rows(t) <= Rows(rows) && |t| == |choice|
                && |Operators(Rows(t))| == |Operators(Rows(choice))| ==>
      TotalDelay(choice) <= TotalDelay(t)
  }

  /** Where no delay is negative, every count gives a choice of least total delay exactly when no eligible delay is zero
      or none is positive. */
  lemma LeastDelayIff(ranked: seq<Row>)
    requires RankedByKey(ranked)
    requires forall r :: r in ranked && r.eligible ==> r.minDelay.Some? && r.minDelay.value >= 0.0
    ensures (forall count: int :: LeastDelay(Eligible(ranked), Choice(Eligible(ranked), count))) <==> KeyIsDelay(ranked)
  {
    EligibleKeepsRank(ranked);
    RankingIsByDelayIff(ranked);
    var rows := Eligible(ranked);
    if KeyIsDelay(ranked) {
      forall count: int, t | Distinct(t) && Rows(t) <= Rows(rows) && |t| == |Choice(rows, count)|
                             && |Operators(Rows(t))| == |Operators(Rows(Choice(rows, count)))|
        ensures TotalDelay(Choice(rows, count)) <= TotalDelay(t)
      {
        ChoiceIsOptimal(rows, count, t);
      }
    } else {
      var zero, far :| zero in ranked && zero.eligible && Delay(zero) == 0.0
                       && far in ranked && far.eligible && Delay(far) > 0.0;
      ZeroRanksLast(rows, zero, far);
      FarChosenAlone(rows, zero);
    }
  }

  lemma FarChosenAlone(rows: seq<Row>, zero: Row)
    requires zero in rows && Delay(zero) == 0.0 && Delay(rows[0]) > 0.0
    ensures !LeastDelay(rows, Choice(rows, 1))
  {
    ChoiceOfOne(rows);
    AloneFacts(zero);
    AloneFacts(rows[0]);
    hide Choice, Operators, TotalDelay, Delay, Rows;
    assert zero in Rows(rows) by { InRows(rows, zero); }
    assert Distinct([zero]) && Rows([zero]) <= Rows(rows);
  }

  lemma InRows(rows: seq<Row>, r: Row)
    requires r in rows
    ensures r in Rows(rows)
  {
  }

  lemma AloneFacts(r: Row)
    ensures Distinct([r]) && Rows([r]) == {r} && |Operators(Rows([r]))| == 1 && TotalDelay([r]) == Delay(r)
  {
    assert Rows([r]) == {r} && Operators({r}) == {r.operator};
    assert [r][..0] == [];
  }

  /** A choice of one takes the first eligible row. */
  lemma {:induction false} ChoiceOfOne(rows: seq<Row>)
    requires rows != []
    ensures Diverse(rows, 1) == [rows[0]] && Filled(rows, [rows[0]], 1) == [rows[0]] && Choice(rows, 1) == [rows[0]]
  {
    var init := rows[..|rows| - 1];
    if init == [] {
      assert Diverse(init, 1) == [] && Filled(init, [rows[0]], 1) == [rows[0]];
    } else {
      ChoiceOfOne(init);
    }
  }

  lemma PairChoice(a: Row, b: Row)
    requires a.eligible && b.eligible
    ensures Choice(Eligible([a, b]), 1) == [a]
  {
    assert [a, b][..1] == [a] && [a][..0] == [];
    assert Eligible([a]) == [a] && Eligible([a, b]) == [a, b];
    hide Eligible;
    ChoiceOfOne([a, b]);
  }

  lemma PairRanks(zero: Row, far: Row)
    requires zero.eligible && zero.minDelay == Some(0.0) && far.eligible && far.minDelay.Some? && Delay(far) > 0.0
    ensures RankedByKey([far, zero]) && !RankedByKey([zero, far])
  {
    assert !RanksBefore([zero, far][0], [zero, far][1]);
  }

  /** Two eligible rows with delays 0 and 1: the key ranks the nearer one last, and a choice of one leaves it out. */
  lemma ZeroDelayPassedOver()
    ensures var near, far := Row("a", Some("x"), true, Some(0.0), ""), Row("b", Some("y"), true, Some(1.0), "");
      && RankedByKey([far, near]) && !RankedByKey([near, far])
      && Choice(Eligible([far, near]), 1) == [far] && TotalDelay([near]) < TotalDelay([far])
  {
    var near, far := Row("a", Some("x"), true, Some(0.0), ""), Row("b", Some("y"), true, Some(1.0), "");
    PairRanks(near, far);
    PairChoice(far, near);
    AloneFacts(near);
    AloneFacts(far);
    hide Choice, Eligible, TotalDelay, RankedByKey;
  }
}
