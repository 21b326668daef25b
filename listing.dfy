/**
 * The loop every scraper runs over a listing: walk the rows in order, skip
 * (`continue`) a row that is too short or otherwise rejected, append one
 * record per accepted row, and let an exception raised while mapping a row
 * abort the whole scrape. A script supplies only its per-row `Step`.
 */
module Listing {
  import opened Html

  /** What one pass of the loop body does with one row. */
  datatype Step<T> = Skip | Emit(record: T) | Raise(error: ScrapeError)

  /** Python's `rows[1:]`: every row but the header. */
  function DropHeader<X>(rows: seq<X>): (r: seq<X>)
    ensures |r| == if rows == [] then 0 else |rows| - 1
    ensures forall i :: 0 <= i < |r| ==> r[i] == rows[i + 1]
  {
    if rows == [] then [] else rows[1..]
  }

  /**
   * The outcome of the loop over `xs`: the records of the accepted rows in
   * row order, or the first exception a row raises.
   */
  function Harvest<X, T>(xs: seq<X>, step: X -> Step<T>): (r: Result<seq<T>>)
    ensures r.Ok? ==> |r.value| <= |xs|
    decreases |xs|
  {
    if xs == [] then Ok([])
    else
      match Harvest(xs[..|xs| - 1], step)
      case Err(e) => Err(e)
      case Ok(ts) =>
        match step(xs[|xs| - 1])
        case Skip => Ok(ts)
        case Emit(t) => Ok(ts + [t])
        case Raise(e) => Err(e)
  }

  /** Running one loop after another: the first error wins, otherwise the records concatenate. */
  function Join<T>(first: Result<seq<T>>, rest: Result<seq<T>>): Result<seq<T>>
  {
    match first
    case Err(e) => Err(e)
    case Ok(ts) =>
      match rest
      case Err(e) => Err(e)
      case Ok(us) => Ok(ts + us)
  }

  /** Some row raises an exception. */
  ghost predicate Raises<X, T>(xs: seq<X>, step: X -> Step<T>)
  {
    exists i :: 0 <= i < |xs| && step(xs[i]).Raise?
  }

  ghost predicate Distinct<T>(s: seq<T>)
  {
    forall j, k :: 0 <= j < k < |s| ==> s[j] != s[k]
  }

  /** Walking `xs + ys` is walking `xs`, then `ys`. */
  lemma {:induction false} HarvestAppend<X, T>(xs: seq<X>, ys: seq<X>, step: X -> Step<T>)
    ensures Harvest(xs + ys, step) == Join(Harvest(xs, step), Harvest(ys, step))
    decreases |ys|
  {
    if ys == [] {
      assert xs + ys == xs;
      if Harvest(xs, step).Ok? {
        assert Harvest(xs, step).value + [] == Harvest(xs, step).value;
      }
    } else {
      var init := ys[..|ys| - 1];
      assert (xs + ys)[..|xs + ys| - 1] == xs + init;
      assert (xs + ys)[|xs + ys| - 1] == ys[|ys| - 1];
      HarvestAppend(xs, init, step);
      var a, b := Harvest(xs, step), Harvest(init, step);
      if a.Ok? && b.Ok? && step(ys[|ys| - 1]).Emit? {
        assert a.value + (b.value + [step(ys[|ys| - 1]).record])
            == (a.value + b.value) + [step(ys[|ys| - 1]).record];
      }
    }
  }

  /** The scrape fails exactly when some row raises: skipped rows never do harm. */
  lemma {:induction false} HarvestFailsIffRaises<X, T>(xs: seq<X>, step: X -> Step<T>)
    ensures Harvest(xs, step).Err? <==> Raises(xs, step)
    decreases |xs|
  {
    if xs != [] {
      var init := xs[..|xs| - 1];
      HarvestFailsIffRaises(init, step);
      if Raises(init, step) {
        var i :| 0 <= i < |init| && step(init[i]).Raise?;
        assert init[i] == xs[i];
      }
      if Raises(xs, step) && !step(xs[|xs| - 1]).Raise? {
        var i :| 0 <= i < |xs| && step(xs[i]).Raise?;
        assert i < |init| && init[i] == xs[i];
      }
    }
  }

  /** Every error a scrape returns is the one the first raising row raised. */
  lemma {:induction false} HarvestErrorFromRow<X, T>(rows: seq<X>, step: X -> Step<T>)
    ensures Harvest(rows, step).Err? ==>
      exists i :: 0 <= i < |rows| && step(rows[i]) == Raise(Harvest(rows, step).error) && (forall j :: 0 <= j < i ==> !step(rows[j]).Raise?)
    decreases |rows|
  {
    if rows != [] {
      var init := rows[..|rows| - 1];
      HarvestErrorFromRow(init, step);
      if Harvest(init, step).Err? {
        var i :| 0 <= i < |init| && step(init[i]) == Raise(Harvest(init, step).error) && (forall j :: 0 <= j < i ==> !step(init[j]).Raise?);
        assert rows[i] == init[i];
        assert forall j :: 0 <= j < i ==> rows[j] == init[j];
      } else {
        HarvestFailsIffRaises(init, step);
        assert forall j :: 0 <= j < |init| ==> rows[j] == init[j];
      }
    }
  }

  /** A step that never raises gives a scrape that never fails. */
  lemma HarvestTotal<X, T>(xs: seq<X>, step: X -> Step<T>)
    requires forall x :: !step(x).Raise?
    ensures Harvest(xs, step).Ok?
  {
    HarvestFailsIffRaises(xs, step);
  }

  /**
   * The positions of the accepted rows: strictly increasing, and holding
   * exactly the rows whose step emits a record.
   */
  function EmitIndices<X, T>(xs: seq<X>, step: X -> Step<T>): (idx: seq<nat>)
    ensures forall k :: 0 <= k < |idx| ==> idx[k] < |xs| && step(xs[idx[k]]).Emit?
    ensures forall k, l :: 0 <= k < l < |idx| ==> idx[k] < idx[l]
    ensures forall i :: 0 <= i < |xs| && step(xs[i]).Emit? ==> i in idx
    decreases |xs|
  {
    if xs == [] then []
    else
      var init := xs[..|xs| - 1];
      var before := EmitIndices(init, step);
      assert forall k :: 0 <= k < |before| ==> xs[before[k]] == init[before[k]];
      assert forall i :: 0 <= i < |init| ==> xs[i] == init[i];
      if step(xs[|xs| - 1]).Emit? then before + [|xs| - 1] else before
  }

  /**
   * One record per accepted row, in row order: the k-th record is the one the
   * k-th accepted row emits.
   */
  lemma {:induction false} HarvestInRowOrder<X, T>(xs: seq<X>, step: X -> Step<T>)
    requires Harvest(xs, step).Ok?
    ensures var ts, idx := Harvest(xs, step).value, EmitIndices(xs, step);
      && |ts| == |idx|
      && forall k :: 0 <= k < |idx| ==> ts[k] == step(xs[idx[k]]).record
    decreases |xs|
  {
    if xs != [] {
      var init := xs[..|xs| - 1];
      HarvestInRowOrder(init, step);
      var before := EmitIndices(init, step);
      assert forall k :: 0 <= k < |before| ==> xs[before[k]] == init[before[k]];
    }
  }

  /** A property every emitted record has holds of every record the scrape returns. */
  lemma {:induction false} HarvestKeeps<X, T>(xs: seq<X>, step: X -> Step<T>, good: T -> bool)
    requires forall x :: step(x).Emit? ==> good(step(x).record)
    ensures Harvest(xs, step).Ok? ==> forall t :: t in Harvest(xs, step).value ==> good(t)
    decreases |xs|
  {
    if xs != [] {
      HarvestKeeps(xs[..|xs| - 1], step, good);
    }
  }

  /** The loop itself: `for row in rows: ... continue ... tenders.append(...)`. */
  method CollectRows<X, T>(xs: seq<X>, step: X -> Step<T>) returns (r: Result<seq<T>>)
    ensures r == Harvest(xs, step)
  {
    var tenders: seq<T> := [];
    var i := 0;
    while i < |xs|
      invariant 0 <= i <= |xs|
      invariant Harvest(xs[..i], step) == Ok(tenders)
    {
      assert xs[..i + 1][..i] == xs[..i];
      match step(xs[i]) {
        case Skip =>
        case Emit(t) =>
          tenders := tenders + [t];
        case Raise(e) =>
          HarvestAppend(xs[..i + 1], xs[i + 1..], step);
          assert xs[..i + 1] + xs[i + 1..] == xs;
          return Err(e);
      }
      i := i + 1;
    }
    assert xs[..i] == xs;
    return Ok(tenders);
  }
}
