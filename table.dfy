/** The enumeration loop of `main` in gb2312utf8table.c: for every grid pair of
    the character regions, encode it, ask the converter for its UTF-8 bytes and,
    when it produced some, decode them and emit a row. The iconv conversion is a
    function parameter. */
module Table {
  import opened Wrappers
  import opened Gb2312
  import opened Utf8

  // ---------------------------------------------------------------------
  // The enumeration

  /** A (block, position) pair. */
  type Pair = (int, int)

  /** GB2312_region_block: the symbol blocks and the two classes of characters. */
  const Regions: seq<Pair> := [(1, 9), (16, 87)]

  /** The pairs (block, 1) .. (block, n), in order. */
  function Positions(block: int, n: nat): (ps: seq<Pair>)
    ensures |ps| == n
    ensures forall i :: 0 <= i < |ps| ==> ps[i].0 == block && 1 <= ps[i].1 <= n
  {
    seq(n, j => (block, j + 1))
  }

  /** Every position of blocks start .. end, block by block. */
  function Blocks(start: int, end: int): (ps: seq<Pair>)
    ensures |ps| == if end < start then 0 else (end - start + 1) * BlockSize
    ensures forall i :: 0 <= i < |ps| ==> InGrid(ps[i].1)
  {
    if end < start then []
    else seq((end - start + 1) * BlockSize, j => (start + j / BlockSize, j % BlockSize + 1))
  }

  /** The pairs of a list of regions, region by region. */
  function Enumerate(regions: seq<Pair>): (ps: seq<Pair>)
    ensures forall i :: 0 <= i < |ps| ==> InGrid(ps[i].1)
    decreases |regions|
  {
    if regions == [] then []
    else
      var last := regions[|regions| - 1];
      Enumerate(regions[..|regions| - 1]) + Blocks(last.0, last.1)
  }

  /** The pairs `main` visits. */
  function Pairs(): (ps: seq<Pair>)
    ensures forall i :: 0 <= i < |ps| ==> InGrid(ps[i].1)
  {
    Enumerate(Regions)
  }

  // ---------------------------------------------------------------------
  // One pair, and a run over many

  /** The arguments `main` hands to `printOutput`: the GB2312 code, the UTF-8
      buffer and the decoded value. */
  datatype Row = Row(gb: seq<Byte>, utf: seq<bv8>, unicode: bv32)

  /** The iconv conversion: the bytes it wrote into the UTF-8 buffer, or None. */
  type Converter = seq<Byte> -> Option<seq<bv8>>

  /** What one pair contributes: nothing when the conversion wrote no byte
      (`gb2utf8(...) > 0` fails), a row, or the `err_sys` exit of `utf2unicode`. */
  datatype Step = Skip | Emit(row: Row) | Abort(error: Error)

  /** The rows printed, and whether the run reached `exit(0)` or `exit(1)`. */
  datatype Outcome = Completed(rows: seq<Row>) | Aborted(rows: seq<Row>, error: Error)

  function StepOf(convert: Converter, p: Pair): (step: Step)
    ensures step.Emit? ==> step.row.gb == Code(p.0, p.1) && |step.row.utf| == Utf8Max
    ensures step.Abort? ==> step.error == InvalidUtf8
    ensures step == Skip <==> convert(Code(p.0, p.1)) in {None, Some([])}
  {
    var gb := Code(p.0, p.1);
    match convert(gb)
    case None => Skip
    case Some(written) =>
      if |written| == 0 then Skip
      else
        var utf := Buffer(written);
        match Unicode(utf)
        case Err(e) => Abort(e)
        case Ok(u) => Emit(Row(gb, utf, u))
  }

  /** `StepOf` for a fixed converter, as the step function of a run. */
  function Stepper(convert: Converter): Pair -> Step {
    p => StepOf(convert, p)
  }

  /** The outcome after one more pair; an aborted run stays aborted. */
  function Extend(before: Outcome, step: Step): (after: Outcome)
    ensures before.rows <= after.rows && |after.rows| <= |before.rows| + 1
    ensures before.Aborted? ==> after == before
    ensures after.Aborted? <==> before.Aborted? || step.Abort?
  {
    if before.Aborted? then before
    else match step
      case Skip => before
      case Emit(row) => Completed(before.rows + [row])
      case Abort(e) => Aborted(before.rows, e)
  }

  /** The outcome of processing the pairs `ps` in order; the first abort ends the run. */
  function Run(steps: Pair -> Step, ps: seq<Pair>): (out: Outcome)
    ensures |out.rows| <= |ps|
    decreases |ps|
  {
    if ps == [] then Completed([])
    else Extend(Run(steps, ps[..|ps| - 1]), steps(ps[|ps| - 1]))
  }

  /** The table `main` prints for a converter. */
  function MainOutcome(convert: Converter): (out: Outcome)
    ensures |out.rows| <= |Pairs()|
  {
    Run(Stepper(convert), Pairs())
  }

  // ---------------------------------------------------------------------
  // The loops of `main`

  /** The body of the inner loop of `main` for one pair: `encodeGB2312`, then
      `gb2utf8`, then, when it wrote bytes, `utf2unicode`. */
  method ProcessPair(convert: Converter, block: int, pos: int) returns (step: Step)
    ensures step == StepOf(convert, (block, pos))
  {
    var gb := new Byte[Gb2312Size];
    EncodeGb2312(block, pos, gb);
    var written := convert(gb[..]);
    if written.Some? && |written.value| > 0 {
      var buffer := Buffer(written.value);
      var utf := new bv8[Utf8Max](j requires 0 <= j < Utf8Max => buffer[j]);
      assert utf[..] == buffer;
      var uni := Utf2Unicode(utf);
      if uni.Err? {
        return Abort(uni.error);
      }
      return Emit(Row(gb[..], utf[..], uni.value));
    }
    return Skip;
  }

  /** The inner `i` loop of `main`: the 94 positions of one block, after the
      pairs `before` have produced `rows`. The run stops at the first abort. */
  method ProcessBlock(convert: Converter, block: int, ghost before: seq<Pair>, rows: seq<Row>)
    returns (out: Outcome)
    requires Run(Stepper(convert), before) == Completed(rows)
    ensures out == Run(Stepper(convert), before + Positions(block, BlockSize))
  {
    out := Completed(rows);
    ghost var visited := before;
    var i := 1;
    while i <= BlockSize
      invariant 1 <= i <= BlockSize + 1
      invariant visited == before + Positions(block, i - 1)
      invariant out.Completed? && Run(Stepper(convert), visited) == out
    {
      var step := ProcessPair(convert, block, i);
      assert Stepper(convert)((block, i)) == step;
      RunAppend(Stepper(convert), visited, (block, i));
      NextPosition(before, block, i);
      visited := visited + [(block, i)];
      if step.Abort? {
        out := Aborted(out.rows, step.error);
        PositionsPrefix(block, i, BlockSize);
        PrefixExtend(before, Positions(block, i), Positions(block, BlockSize));
        AbortedPrefix(Stepper(convert), visited, before + Positions(block, BlockSize));
        return;
      }
      if step.Emit? {
        out := Completed(out.rows + [step.row]);
      }
      i := i + 1;
    }
  }

  /** The `block` loop of `main`: blocks start .. end of one region, after the
      pairs `before` have produced `rows`. The run stops at the first abort. */
  method ProcessRegion(convert: Converter, start: int, end: int, ghost before: seq<Pair>, rows: seq<Row>)
    returns (out: Outcome)
    requires Run(Stepper(convert), before) == Completed(rows)
    ensures out == Run(Stepper(convert), before + Blocks(start, end))
  {
    out := Completed(rows);
    ghost var visited := before;
    var block := start;
    while block <= end
      invariant start <= block && (block <= end + 1 || block == start)
      invariant visited == before + Blocks(start, block - 1)
      invariant out.Completed? && Run(Stepper(convert), visited) == out
    {
      out := ProcessBlock(convert, block, visited, out.rows);
      NextBlock(before, start, block);
      visited := before + Blocks(start, block);
      if out.Aborted? {
        BlocksPrefix(start, block, end);
        PrefixExtend(before, Blocks(start, block), Blocks(start, end));
        AbortedPrefix(Stepper(convert), visited, before + Blocks(start, end));
        return;
      }
      block := block + 1;
    }
    assert Blocks(start, block - 1) == Blocks(start, end);
  }

  /** The `k` loop of `main` over a region table; an abort is the process exit
      of `err_sys`, so nothing after it runs. */
  method BuildTableOf(convert: Converter, regions: seq<Pair>) returns (out: Outcome)
    ensures out == Run(Stepper(convert), Enumerate(regions))
  {
    out := Completed([]);
    var k := 0;
    while k < |regions| && out.Completed?
      invariant 0 <= k <= |regions|
      invariant out == Run(Stepper(convert), Enumerate(regions[..k]))
    {
      out := ProcessRegion(convert, regions[k].0, regions[k].1, Enumerate(regions[..k]), out.rows);
      RegionFollows(regions, k);
      k := k + 1;
    }
    if out.Aborted? {
      AbortedRegions(Stepper(convert), regions, k);
    } else {
      assert regions[..|regions|] == regions;
    }
  }

  /** `main`: the loops over GB2312_region_block. */
  method BuildTable(convert: Converter) returns (out: Outcome)
    ensures out == MainOutcome(convert)
  {
    out := BuildTableOf(convert, Regions);
  }

  // ---------------------------------------------------------------------
  // Runs and prefixes

  lemma RunAppend(steps: Pair -> Step, ps: seq<Pair>, p: Pair)
    ensures Run(steps, ps + [p]) == Extend(Run(steps, ps), steps(p))
  {
    assert (ps + [p])[..|ps|] == ps;
  }

  /** Once a run has aborted, processing more pairs changes nothing. */
  lemma {:induction false} AbortedPrefix(steps: Pair -> Step, xs: seq<Pair>, ys: seq<Pair>)
    requires xs <= ys
    requires Run(steps, xs).Aborted?
    ensures Run(steps, ys) == Run(steps, xs)
    decreases |ys|
  {
    if |xs| < |ys| {
      var init := ys[..|ys| - 1];
      assert xs <= init;
      AbortedPrefix(steps, xs, init);
    } else {
      assert xs == ys;
    }
  }

  lemma PrefixExtend<T>(a: seq<T>, x: seq<T>, y: seq<T>)
    requires x <= y
    ensures a + x <= a + y
  {
    assert (a + y)[..|a + x|] == a + x;
  }

  lemma PrefixTransitive<T>(x: seq<T>, y: seq<T>, z: seq<T>)
    requires x <= y && y <= z
    ensures x <= z
  {
    assert z[..|x|] == y[..|x|];
  }

  lemma PositionsPrefix(block: int, i: nat, n: nat)
    requires i <= n
    ensures Positions(block, i) <= Positions(block, n)
  {
    assert Positions(block, n)[..i] == Positions(block, i);
  }

  lemma NextPosition(a: seq<Pair>, block: int, i: int)
    requires i >= 1
    ensures a + Positions(block, i - 1) + [(block, i)] == a + Positions(block, i)
  {
    assert Positions(block, i - 1) + [(block, i)] == Positions(block, i);
  }

  /** `q * 94 + r` with `0 <= r < 94` is quotient `q`, remainder `r`. */
  lemma DivModBlock(q: int, r: int)
    requires 0 <= r < BlockSize
    ensures (q * BlockSize + r) / BlockSize == q && (q * BlockSize + r) % BlockSize == r
  {
  }

  /** Blocks start .. block are blocks start .. block - 1 and then block. */
  lemma BlocksSplit(start: int, block: int)
    requires start <= block
    ensures Blocks(start, block) == Blocks(start, block - 1) + Positions(block, BlockSize)
  {
    var a, b := Blocks(start, block - 1), Positions(block, BlockSize);
    var c := Blocks(start, block);
    assert |a| == (block - start) * BlockSize;
    assert |c| == |a| + |b|;
    forall j | 0 <= j < |c|
      ensures c[j] == (a + b)[j]
    {
      if j < |a| {
        assert c[j] == a[j];
      } else {
        DivModBlock(block - start, j - |a|);
        assert c[j] == b[j - |a|];
      }
    }
  }

  lemma NextBlock(a: seq<Pair>, start: int, block: int)
    requires start <= block
    ensures a + Blocks(start, block - 1) + Positions(block, BlockSize) == a + Blocks(start, block)
  {
    BlocksSplit(start, block);
    assert a + Blocks(start, block - 1) + Positions(block, BlockSize)
        == a + (Blocks(start, block - 1) + Positions(block, BlockSize));
  }

  lemma BlocksPrefix(start: int, block: int, end: int)
    requires start - 1 <= block <= end
    ensures Blocks(start, block) <= Blocks(start, end)
  {
    if start <= block {
      assert Blocks(start, end)[..|Blocks(start, block)|] == Blocks(start, block);
    }
  }

  lemma {:induction false} EnumeratePrefix(regions: seq<Pair>, k: nat)
    requires k <= |regions|
    ensures Enumerate(regions[..k]) <= Enumerate(regions)
    decreases |regions|
  {
    if k < |regions| {
      var init := regions[..|regions| - 1];
      assert init[..k] == regions[..k];
      EnumeratePrefix(init, k);
      PrefixTransitive(Enumerate(regions[..k]), Enumerate(init), Enumerate(regions));
    } else {
      assert regions[..k] == regions;
    }
  }

  /** A run that has aborted after the first `k` regions ends that way. */
  lemma AbortedRegions(steps: Pair -> Step, regions: seq<Pair>, k: nat)
    requires k <= |regions|
    requires Run(steps, Enumerate(regions[..k])).Aborted?
    ensures Run(steps, Enumerate(regions)) == Run(steps, Enumerate(regions[..k]))
  {
    EnumeratePrefix(regions, k);
    AbortedPrefix(steps, Enumerate(regions[..k]), Enumerate(regions));
  }

  lemma RegionFollows(regions: seq<Pair>, k: nat)
    requires k < |regions|
    ensures Enumerate(regions[..k]) + Blocks(regions[k].0, regions[k].1) == Enumerate(regions[..k + 1])
  {
    assert regions[..k + 1][..k] == regions[..k];
  }

  // ---------------------------------------------------------------------
  // The shape of the enumeration

  /** The pairs GB2312_region_block names: symbol blocks 1..9 and character
      blocks 16..87, each with positions 1..94. */
  predicate InRegions(p: Pair) {
    (1 <= p.0 <= 9 || 16 <= p.0 <= 87) && InGrid(p.1)
  }

  /** A block the numbering scheme reserves. */
  predicate Reserved(block: int) {
    10 <= block <= 15 || 88 <= block <= BlockSize
  }

  /** Strictly ascending in the (block, position) order. */
  predicate Ascending(ps: seq<Pair>) {
    forall i, j :: 0 <= i < j < |ps| ==> Precedes(ps[i], ps[j])
  }

  lemma PositionsShape(block: int, n: nat)
    ensures |Positions(block, n)| == n
    ensures forall p :: p in Positions(block, n) <==> p.0 == block && 1 <= p.1 <= n
    ensures Ascending(Positions(block, n))
  {
    forall p: Pair | p.0 == block && 1 <= p.1 <= n
      ensures p in Positions(block, n)
    {
      assert Positions(block, n)[p.1 - 1] == p;
    }
  }

  /** Index `j` of a run of whole blocks lies in block `j / 94`. */
  lemma QuotientBound(j: int, m: int)
    requires 0 <= j < m * BlockSize
    ensures 0 <= j / BlockSize < m
  {
  }

  /** A later index of a run of whole blocks has a later block, or the same
      block and a later position. */
  lemma QuotientOrder(i: int, j: int)
    requires 0 <= i < j
    ensures i / BlockSize < j / BlockSize
      || (i / BlockSize == j / BlockSize && i % BlockSize < j % BlockSize)
  {
  }

  lemma BlocksShape(start: int, end: int)
    ensures |Blocks(start, end)| == if end < start then 0 else (end - start + 1) * BlockSize
    ensures forall p :: p in Blocks(start, end) <==> start <= p.0 <= end && InGrid(p.1)
    ensures Ascending(Blocks(start, end))
  {
    var c := Blocks(start, end);
    forall p | p in c
      ensures start <= p.0 <= end && InGrid(p.1)
    {
      var j :| 0 <= j < |c| && c[j] == p;
      QuotientBound(j, end - start + 1);
    }
    forall p: Pair | start <= p.0 <= end && InGrid(p.1)
      ensures p in c
    {
      var j := (p.0 - start) * BlockSize + (p.1 - 1);
      DivModBlock(p.0 - start, p.1 - 1);
      assert c[j] == p;
    }
    forall i, j | 0 <= i < j < |c|
      ensures Precedes(c[i], c[j])
    {
      QuotientOrder(i, j);
    }
  }

  lemma AscendingConcat(a: seq<Pair>, b: seq<Pair>)
    requires Ascending(a) && Ascending(b)
    requires forall i, j :: 0 <= i < |a| && 0 <= j < |b| ==> Precedes(a[i], b[j])
    ensures Ascending(a + b)
  {
    var c := a + b;
    forall i, j | 0 <= i < j < |c|
      ensures Precedes(c[i], c[j])
    {
      if j < |a| {
        assert c[i] == a[i] && c[j] == a[j];
      } else if i < |a| {
        assert c[i] == a[i] && c[j] == b[j - |a|];
      } else {
        assert c[i] == b[i - |a|] && c[j] == b[j - |a|];
      }
    }
  }

  lemma EnumerateTwo(r1: Pair, r2: Pair)
    ensures Enumerate([r1, r2]) == Blocks(r1.0, r1.1) + Blocks(r2.0, r2.1)
  {
    assert [r1, r2][..1] == [r1];
    assert [r1][..0] == [];
    assert Enumerate([r1]) == Enumerate([]) + Blocks(r1.0, r1.1);
  }

  /** `main` visits the 7614 pairs of the symbol and character blocks, each once
      and in ascending order, and no reserved block. */
  lemma PairsShape()
    ensures |Pairs()| == 7614
    ensures forall p :: p in Pairs() <==> InRegions(p)
    ensures forall p :: p in Pairs() ==> InGrid(p.0) && !Reserved(p.0)
    ensures Ascending(Pairs())
  {
    assert Regions == [(1, 9), (16, 87)];
    EnumerateTwo((1, 9), (16, 87));
    var a, b := Blocks(1, 9), Blocks(16, 87);
    BlocksShape(1, 9);
    BlocksShape(16, 87);
    assert Pairs() == a + b;
    forall i, j | 0 <= i < |a| && 0 <= j < |b|
      ensures Precedes(a[i], b[j])
    {
      assert a[i] in a && b[j] in b;
    }
    AscendingConcat(a, b);
  }

  // ---------------------------------------------------------------------
  // What a run prints

  function RowsOf(step: Step): seq<Row> {
    if step.Emit? then [step.row] else []
  }

  /** The rows of the emitting steps of `ps`, in order, ignoring aborts. */
  function Emitted(steps: Pair -> Step, ps: seq<Pair>): seq<Row>
    decreases |ps|
  {
    if ps == [] then []
    else Emitted(steps, ps[..|ps| - 1]) + RowsOf(steps(ps[|ps| - 1]))
  }

  /** The first pair of `ps` whose step aborts is at index `k`. */
  predicate FirstAbortAt(steps: Pair -> Step, ps: seq<Pair>, k: int) {
    0 <= k < |ps| && steps(ps[k]).Abort?
    && forall i :: 0 <= i < k ==> !steps(ps[i]).Abort?
  }

  /** A run aborts exactly when one of its steps aborts. */
  lemma {:induction false} AbortIff(steps: Pair -> Step, ps: seq<Pair>)
    ensures Run(steps, ps).Aborted? <==> exists i :: 0 <= i < |ps| && steps(ps[i]).Abort?
    decreases |ps|
  {
    if ps != [] {
      var init := ps[..|ps| - 1];
      AbortIff(steps, init);
      if exists i :: 0 <= i < |init| && steps(init[i]).Abort? {
        var i :| 0 <= i < |init| && steps(init[i]).Abort?;
        assert ps[i] == init[i];
      }
      if exists i :: 0 <= i < |ps| && steps(ps[i]).Abort? {
        var i :| 0 <= i < |ps| && steps(ps[i]).Abort?;
        if i < |init| {
          assert init[i] == ps[i];
        }
      }
    }
  }

  /** A completed run prints every emitted row; an aborted run stops at its
      first aborting step, with the rows emitted before it. */
  lemma {:induction false} RunRows(steps: Pair -> Step, ps: seq<Pair>)
    ensures Run(steps, ps).Completed? ==> Run(steps, ps).rows == Emitted(steps, ps)
    ensures Run(steps, ps).Aborted? ==>
      exists k :: FirstAbortAt(steps, ps, k) && Run(steps, ps) == Aborted(Emitted(steps, ps[..k]), steps(ps[k]).error)
    decreases |ps|
  {
    if ps != [] {
      var init, last := ps[..|ps| - 1], ps[|ps| - 1];
      RunRows(steps, init);
      if Run(steps, init).Aborted? {
        var k :| FirstAbortAt(steps, init, k)
          && Run(steps, init) == Aborted(Emitted(steps, init[..k]), steps(init[k]).error);
        assert init[..k] == ps[..k] && init[k] == ps[k];
        assert forall i :: 0 <= i < k ==> init[i] == ps[i];
        assert FirstAbortAt(steps, ps, k);
      } else if steps(last).Abort? {
        AbortIff(steps, init);
        assert forall i :: 0 <= i < |init| ==> init[i] == ps[i];
        assert FirstAbortAt(steps, ps, |init|);
        assert ps[..|init|] == init;
      }
    }
  }

  /** Every printed row is the row of some step. */
  lemma {:induction false} EmittedSound(steps: Pair -> Step, ps: seq<Pair>)
    ensures forall r :: r in Emitted(steps, ps) ==> exists i :: 0 <= i < |ps| && steps(ps[i]) == Emit(r)
    decreases |ps|
  {
    if ps != [] {
      var init := ps[..|ps| - 1];
      EmittedSound(steps, init);
      forall r | r in Emitted(steps, ps)
        ensures exists i :: 0 <= i < |ps| && steps(ps[i]) == Emit(r)
      {
        if r in Emitted(steps, init) {
          var i :| 0 <= i < |init| && steps(init[i]) == Emit(r);
          assert ps[i] == init[i];
        } else {
          assert steps(ps[|ps| - 1]) == Emit(r);
        }
      }
    }
  }

  /** Every emitting step has its row printed. */
  lemma {:induction false} EmittedComplete(steps: Pair -> Step, ps: seq<Pair>)
    ensures forall i :: 0 <= i < |ps| && steps(ps[i]).Emit? ==> steps(ps[i]).row in Emitted(steps, ps)
    decreases |ps|
  {
    if ps != [] {
      var init := ps[..|ps| - 1];
      EmittedComplete(steps, init);
      forall i | 0 <= i < |ps| && steps(ps[i]).Emit?
        ensures steps(ps[i]).row in Emitted(steps, ps)
      {
        if i < |init| {
          assert ps[i] == init[i];
        }
      }
    }
  }

  /** Steps over ascending grid pairs whose rows carry their pair's code print
      rows in ascending code order. */
  lemma {:induction false} EmittedOrdered(steps: Pair -> Step, ps: seq<Pair>)
    requires Ascending(ps)
    requires forall i :: 0 <= i < |ps| ==> InGrid(ps[i].0) && InGrid(ps[i].1)
    requires forall i :: 0 <= i < |ps| && steps(ps[i]).Emit? ==> steps(ps[i]).row.gb == Code(ps[i].0, ps[i].1)
    ensures forall i, j :: 0 <= i < j < |Emitted(steps, ps)| ==>
      CodePrecedes(Emitted(steps, ps)[i].gb, Emitted(steps, ps)[j].gb)
    decreases |ps|
  {
    if ps != [] {
      var init, last := ps[..|ps| - 1], ps[|ps| - 1];
      assert forall i :: 0 <= i < |init| ==> init[i] == ps[i];
      EmittedOrdered(steps, init);
      var before := Emitted(steps, init);
      if steps(last).Emit? {
        var rows := Emitted(steps, ps);
        assert rows == before + [steps(last).row];
        EmittedSound(steps, init);
        forall i | 0 <= i < |before|
          ensures CodePrecedes(rows[i].gb, rows[|before|].gb)
        {
          assert rows[i] in before;
          var m :| 0 <= m < |init| && steps(init[m]) == Emit(rows[i]);
          assert Precedes(ps[m], ps[|ps| - 1]);
          CodeOrder(init[m], last);
        }
      }
    }
  }

  /** `EmittedOrdered` for the pairs before index `k`. */
  lemma EmittedPrefixOrdered(steps: Pair -> Step, ps: seq<Pair>, k: nat)
    requires k <= |ps|
    requires Ascending(ps)
    requires forall i :: 0 <= i < |ps| ==> InGrid(ps[i].0) && InGrid(ps[i].1)
    requires forall i :: 0 <= i < |ps| && steps(ps[i]).Emit? ==> steps(ps[i]).row.gb == Code(ps[i].0, ps[i].1)
    ensures forall i, j :: 0 <= i < j < |Emitted(steps, ps[..k])| ==>
      CodePrecedes(Emitted(steps, ps[..k])[i].gb, Emitted(steps, ps[..k])[j].gb)
  {
    var pre := ps[..k];
    assert forall i :: 0 <= i < |pre| ==> pre[i] == ps[i];
    EmittedOrdered(steps, pre);
  }

  // ---------------------------------------------------------------------
  // One pair

  /** A pair is skipped exactly when the conversion wrote no byte, aborts exactly
      when it wrote bytes whose leading byte `utf2unicode` rejects, and otherwise
      emits the pair's code, the buffer and its decoded value, which fits in
      21 bits and whose length `length_utf8` in `printOutput` accepts. */
  lemma StepCases(convert: Converter, p: Pair)
    ensures var gb := Code(p.0, p.1);
      StepOf(convert, p) == Skip <==> convert(gb) == None || convert(gb) == Some([])
    ensures var gb := Code(p.0, p.1);
      StepOf(convert, p).Abort? <==>
        (convert(gb).Some? && |convert(gb).value| > 0 && LengthUtf8(Buffer(convert(gb).value)).Err?)
    ensures StepOf(convert, p).Abort? ==> StepOf(convert, p).error == InvalidUtf8
    ensures StepOf(convert, p).Emit? ==> var row := StepOf(convert, p).row;
      row.gb == Code(p.0, p.1) && convert(row.gb).Some? && row.utf == Buffer(convert(row.gb).value)
      && LengthUtf8(row.utf).Ok? && Unicode(row.utf) == Ok(row.unicode) && row.unicode < 0x20_0000
  {
    var gb := Code(p.0, p.1);
    if convert(gb).Some? && |convert(gb).value| > 0 {
      var utf := Buffer(convert(gb).value);
      LengthAgrees(utf);
      UnicodeBelow21Bits(utf);
    }
  }

  /** A conversion that writes the RFC 3629 encoding of `u` yields the row of `u`. */
  lemma StepRoundTrip(convert: Converter, p: Pair, u: bv32, n: nat)
    requires 1 <= n <= 4 && u < Capacity(n)
    requires convert(Code(p.0, p.1)) == Some(EncodeScalar(u, n))
    ensures StepOf(convert, p) == Emit(Row(Code(p.0, p.1), Buffer(EncodeScalar(u, n)), u))
  {
    DecodeEncode(u, n);
  }

  /** The row for 0xB0A1, the first character of block 16, when the conversion
      gives its UTF-8 bytes e5 95 8a. */
  lemma FirstHanziRow(convert: Converter)
    requires convert([0xB0, 0xA1]) == Some([0xE5, 0x95, 0x8A])
    ensures StepOf(convert, (16, 1)) == Emit(Row([0xB0, 0xA1], Buffer([0xE5, 0x95, 0x8A]), 21834))
  {
    FirstOfBlock16();
    Example21834();
  }

  // ---------------------------------------------------------------------
  // The table

  /** The rows of a run are the rows emitted by the pairs before some index:
      all of `ps` for a completed run, up to the first abort otherwise. */
  lemma RunPrefix(steps: Pair -> Step, ps: seq<Pair>) returns (k: nat)
    ensures k <= |ps| && Run(steps, ps).rows == Emitted(steps, ps[..k])
    ensures Run(steps, ps).Completed? ==> k == |ps|
  {
    RunRows(steps, ps);
    k := |ps|;
    if Run(steps, ps).Aborted? {
      k :| FirstAbortAt(steps, ps, k) && Run(steps, ps) == Aborted(Emitted(steps, ps[..k]), steps(ps[k]).error);
    } else {
      assert ps[..k] == ps;
    }
  }

  /** Every printed row is the row of a pair of the regions, carrying that
      pair's code, a buffer `length_utf8` accepts and the value it decodes to. */
  lemma TableRowsSound(convert: Converter)
    ensures forall r :: r in MainOutcome(convert).rows ==>
      exists p :: InRegions(p) && StepOf(convert, p) == Emit(r)
    ensures forall r :: r in MainOutcome(convert).rows ==>
      |r.gb| == Gb2312Size && IsCodeByte(r.gb[0]) && IsCodeByte(r.gb[1])
      && |r.utf| == Utf8Max && LengthUtf8(r.utf).Ok?
      && Unicode(r.utf) == Ok(r.unicode) && r.unicode < 0x20_0000
  {
    var steps, ps := Stepper(convert), Pairs();
    var k := RunPrefix(steps, ps);
    var pre := ps[..k];
    EmittedSound(steps, pre);
    PairsShape();
    forall r | r in MainOutcome(convert).rows
      ensures exists p :: InRegions(p) && StepOf(convert, p) == Emit(r)
      ensures |r.gb| == Gb2312Size && IsCodeByte(r.gb[0]) && IsCodeByte(r.gb[1])
      && |r.utf| == Utf8Max && LengthUtf8(r.utf).Ok?
        && Unicode(r.utf) == Ok(r.unicode) && r.unicode < 0x20_0000
    {
      var i :| 0 <= i < |pre| && steps(pre[i]) == Emit(r);
      var p := pre[i];
      assert p == ps[i] && p in ps;
      StepCases(convert, p);
      CodeInGrid(p.0, p.1);
    }
  }

  /** The rows come out in strictly ascending GB2312 order. */
  lemma TableRowsOrdered(convert: Converter)
    ensures forall i, j :: 0 <= i < j < |MainOutcome(convert).rows| ==>
      CodePrecedes(MainOutcome(convert).rows[i].gb, MainOutcome(convert).rows[j].gb)
  {
    var steps, ps := Stepper(convert), Pairs();
    var k := RunPrefix(steps, ps);
    PairsShape();
    forall i | 0 <= i < |ps|
      ensures InGrid(ps[i].0) && InGrid(ps[i].1)
    {
      assert ps[i] in ps;
    }
    forall i | 0 <= i < |ps| && steps(ps[i]).Emit?
      ensures steps(ps[i]).row.gb == Code(ps[i].0, ps[i].1)
    {
      StepCases(convert, ps[i]);
    }
    EmittedPrefixOrdered(steps, ps, k);
  }

  /** `main` ends in `err_sys` exactly when some pair of the regions converts to
      bytes with an invalid leading byte. */
  lemma TableAborts(convert: Converter)
    ensures MainOutcome(convert).Aborted? <==> exists p :: InRegions(p) && StepOf(convert, p).Abort?
  {
    var steps, ps := Stepper(convert), Pairs();
    AbortIff(steps, ps);
    PairsShape();
    if exists p :: InRegions(p) && StepOf(convert, p).Abort? {
      var p :| InRegions(p) && StepOf(convert, p).Abort?;
      var i :| 0 <= i < |ps| && ps[i] == p;
      assert steps(ps[i]).Abort?;
    }
    if MainOutcome(convert).Aborted? {
      var i :| 0 <= i < |ps| && steps(ps[i]).Abort?;
      assert ps[i] in ps;
      assert InRegions(ps[i]) && StepOf(convert, ps[i]).Abort?;
    }
  }

  /** A run that reaches `exit(0)` prints the row of every pair that emits one. */
  lemma TableComplete(convert: Converter)
    ensures MainOutcome(convert).Completed? ==>
      forall p :: InRegions(p) && StepOf(convert, p).Emit? ==> StepOf(convert, p).row in MainOutcome(convert).rows
  {
    var steps, ps := Stepper(convert), Pairs();
    if MainOutcome(convert).Completed? {
      RunRows(steps, ps);
      EmittedComplete(steps, ps);
      PairsShape();
      forall p | InRegions(p) && StepOf(convert, p).Emit?
        ensures StepOf(convert, p).row in MainOutcome(convert).rows
      {
        var i :| 0 <= i < |ps| && ps[i] == p;
        assert steps(ps[i]) == StepOf(convert, p);
      }
    }
  }
}
