/** The vector tools: sub-ranges, the generic map/filter/contains/fill
    helpers, the top-n selectors used for frequency ladders, `join` and the
    pattern-list lookup. */
module Vectors {
  import opened Errors
  import Text

  // ---------------------------------------------------------------------
  // subvect

  /** `subvect(vect, start_index, n_elements)` with signed arguments. */
  function Subvect<T>(v: seq<T>, start: int, count: int): (r: Result<seq<T>>)
    ensures r.Ok? <==> 0 <= start && 0 <= count && (count == 0 || start + count <= |v|)
    ensures r.Ok? ==> |r.value| == count
    ensures r.Ok? ==> forall k :: 0 <= k < count ==> r.value[k] == v[start + k]
    ensures r.Err? ==> r.error.ArgumentError? && r.error.argType == "ptrdiff_t"
  {
    if start < 0 then
      Err(ArgumentError("start_index", "ptrdiff_t", "0",
                        "Start index of subvection must be at least zero."))
    else if count < 0 then
      Err(ArgumentError("n_elements", "ptrdiff_t", "1",
                        "Number of subvection elements must be at least zero."))
    else if count == 0 then Ok([])
    else if start >= |v| then
      Err(ArgumentError("start_index", "ptrdiff_t", "0", "Start index must reside on the vector."))
    else if start + count > |v| then
      Err(ArgumentError("n_elements", "ptrdiff_t", "1", "Too many elements selected for subvection."))
    else Ok(v[start..start + count])
  }

  /** Two adjacent sub-ranges make up the whole vector. */
  lemma SubvectSplits<T>(v: seq<T>, k: int)
    requires 0 < k < |v|
    ensures Subvect(v, 0, k).Ok? && Subvect(v, k, |v| - k).Ok?
    ensures Subvect(v, 0, k).value + Subvect(v, k, |v| - k).value == v
  {
    var a := Subvect(v, 0, k).value;
    var b := Subvect(v, k, |v| - k).value;
    assert a == v[..k];
    assert b == v[k..];
    assert v[..k] + v[k..] == v;
  }

  /** A start index off the end is rejected even for a one-element request. */
  lemma SubvectOffEnd<T>(v: seq<T>)
    ensures Subvect(v, |v|, 1)
            == Err(ArgumentError("start_index", "ptrdiff_t", "0", "Start index must reside on the vector."))
  {
  }

  // ---------------------------------------------------------------------
  // map, filter, contains, fill

  function Map<T, U>(v: seq<T>, f: T -> U): (r: seq<U>)
    ensures |r| == |v|
    ensures forall k :: 0 <= k < |v| ==> r[k] == f(v[k])
  {
    if |v| == 0 then [] else [f(v[0])] + Map(v[1..], f)
  }

  /** The elements satisfying `keep`, in their original order. */
  function Filter<T(!new)>(v: seq<T>, keep: T -> bool): (r: seq<T>)
    ensures |r| <= |v|
    ensures forall x :: x in r <==> x in v && keep(x)
  {
    if |v| == 0 then []
    else if keep(v[0]) then [v[0]] + Filter(v[1..], keep)
    else Filter(v[1..], keep)
  }

  /** Filtering distributes over concatenation, so relative order is kept. */
  lemma {:induction false} FilterAppend<T(!new)>(a: seq<T>, b: seq<T>, keep: T -> bool)
    ensures Filter(a + b, keep) == Filter(a, keep) + Filter(b, keep)
    decreases |a|
  {
    if |a| == 0 {
      assert a + b == b;
    } else {
      assert (a + b)[0] == a[0] && (a + b)[1..] == a[1..] + b;
      FilterAppend(a[1..], b, keep);
    }
  }

  /** A filter that keeps everything is the identity. */
  lemma {:induction false} FilterAll<T(!new)>(v: seq<T>, keep: T -> bool)
    requires forall x :: x in v ==> keep(x)
    ensures Filter(v, keep) == v
    decreases |v|
  {
    if |v| > 0 {
      assert v[0] in v;
      assert forall x :: x in v[1..] ==> x in v;
      FilterAll(v[1..], keep);
    }
  }

  function Contains<T(==)>(v: seq<T>, x: T): (r: bool)
    ensures r <==> x in v
  {
    if |v| == 0 then false else v[0] == x || Contains(v[1..], x)
  }

  function Fill<T>(n: nat, x: T): (r: seq<T>)
    ensures |r| == n
    ensures forall k :: 0 <= k < n ==> r[k] == x
  {
    if n == 0 then [] else [x] + Fill(n - 1, x)
  }

  // ---------------------------------------------------------------------
  // max_n_elements / min_n_elements

  /** Descending order keeps the largest values (`max_n_elements`, padded
      with zeros); ascending keeps the smallest (`min_n_elements`, padded
      with the type's maximum). */
  datatype Order = Descending | Ascending

  /** `a` strictly beats `b` in order `o`. */
  predicate Beats(o: Order, a: int, b: int) {
    match o
    case Descending => a > b
    case Ascending => a < b
  }

  predicate Ranked(o: Order, s: seq<int>) {
    forall i, j :: 0 <= i < j < |s| ==> !Beats(o, s[j], s[i])
  }

  /** `x` beats no element of `s`. */
  predicate BeatsNone(o: Order, s: seq<int>, x: int) {
    forall k :: 0 <= k < |s| ==> !Beats(o, x, s[k])
  }

  /** The result of offering one value to the ranked buffer. */
  datatype Offer = Offer(kept: seq<int>, evicted: int)

  /** The value enters before the first element it beats; everything after
      moves down one place and the last element falls off the end. A value
      that beats nothing is itself evicted. */
  function OfferAt(o: Order, kept: seq<int>, v: int, i: nat): Offer
    requires i <= |kept|
    decreases |kept| - i
  {
    if i == |kept| then Offer(kept, v)
    else if Beats(o, v, kept[i]) then Offer(Inserted(kept, i, v), kept[|kept| - 1])
    else OfferAt(o, kept, v, i + 1)
  }

  /** `kept` with `v` entered at index `i` and the last element dropped. */
  function Inserted(kept: seq<int>, i: nat, v: int): (r: seq<int>)
    requires i < |kept|
    ensures |r| == |kept|
    ensures forall k :: 0 <= k < |r| ==> r[k] == (if k < i then kept[k] else if k == i then v else kept[k - 1])
  {
    kept[..i] + [v] + kept[i..|kept| - 1]
  }

  /** Entering before the first element `v` beats keeps the buffer ranked. */
  lemma InsertedRanked(o: Order, kept: seq<int>, v: int, i: nat)
    requires i < |kept| && Ranked(o, kept)
    requires Beats(o, v, kept[i])
    requires forall k :: 0 <= k < i ==> !Beats(o, v, kept[k])
    ensures Ranked(o, Inserted(kept, i, v))
  {
    var r := Inserted(kept, i, v);
    forall p, q | 0 <= p < q < |r|
      ensures !Beats(o, r[q], r[p])
    {
      if q > i {
        assert !Beats(o, kept[q - 1], kept[i]);
      }
      if p > i {
        assert !Beats(o, kept[q - 1], kept[p - 1]);
      }
    }
  }

  /** The dropped last element beats nothing that stays, and whatever beat
      nothing before still beats nothing. */
  lemma InsertedBounds(o: Order, kept: seq<int>, v: int, i: nat)
    requires i < |kept| && Ranked(o, kept)
    requires Beats(o, v, kept[i])
    ensures BeatsNone(o, Inserted(kept, i, v), kept[|kept| - 1])
    ensures forall x :: BeatsNone(o, kept, x) ==> BeatsNone(o, Inserted(kept, i, v), x)
  {
    var n := |kept|;
    var r := Inserted(kept, i, v);
    forall k | 0 <= k < n
      ensures !Beats(o, kept[n - 1], r[k])
    {
      if k > i {
        assert !Beats(o, kept[n - 1], kept[k - 1]);
      } else if k == i {
        assert !Beats(o, kept[n - 1], kept[i]);
      }
    }
    forall x | BeatsNone(o, kept, x)
      ensures BeatsNone(o, r, x)
    {
      forall k | 0 <= k < n
        ensures !Beats(o, x, r[k])
      {
        if k > i {
          assert !Beats(o, x, kept[k - 1]);
        } else if k == i {
          assert !Beats(o, x, kept[i]);
        }
      }
    }
  }

  lemma InsertedMultiset(kept: seq<int>, v: int, i: nat)
    requires i < |kept|
    ensures multiset(Inserted(kept, i, v)) + multiset{kept[|kept| - 1]} == multiset(kept) + multiset{v}
  {
    var n := |kept|;
    assert kept == kept[..i] + kept[i..n - 1] + [kept[n - 1]];
    assert Inserted(kept, i, v) == kept[..i] + [v] + kept[i..n - 1];
  }

  /** The buffer after one offer keeps its size and ranking, loses exactly
      the evicted value, and the evicted value beats nothing it keeps. */
  lemma {:induction false} OfferPreserves(o: Order, kept: seq<int>, v: int, i: nat)
    requires i <= |kept| && Ranked(o, kept)
    requires forall k :: 0 <= k < i ==> !Beats(o, v, kept[k])
    ensures var r := OfferAt(o, kept, v, i);
            && |r.kept| == |kept|
            && Ranked(o, r.kept)
            && multiset(r.kept) + multiset{r.evicted} == multiset(kept) + multiset{v}
            && BeatsNone(o, r.kept, r.evicted)
            && (forall x :: BeatsNone(o, kept, x) ==> BeatsNone(o, r.kept, x))
    decreases |kept| - i
  {
    if i == |kept| {
    } else if Beats(o, v, kept[i]) {
      assert OfferAt(o, kept, v, i) == Offer(Inserted(kept, i, v), kept[|kept| - 1]);
      InsertedRanked(o, kept, v, i);
      InsertedBounds(o, kept, v, i);
      InsertedMultiset(kept, v, i);
    } else {
      OfferPreserves(o, kept, v, i + 1);
    }
  }

  /** The ranked buffer together with every value it has shed. */
  datatype Ranking = Ranking(kept: seq<int>, shed: seq<int>)

  /** Offers every element of `v`, front to back. */
  function RankAll(o: Order, v: seq<int>, acc: Ranking): Ranking
    decreases |v|
  {
    if |v| == 0 then acc
    else
      var step := OfferAt(o, acc.kept, v[0], 0);
      RankAll(o, v[1..], Ranking(step.kept, acc.shed + [step.evicted]))
  }

  predicate RankingInvariant(o: Order, r: Ranking) {
    && Ranked(o, r.kept)
    && forall d :: d in r.shed ==> BeatsNone(o, r.kept, d)
  }

  lemma {:induction false} RankAllPreserves(o: Order, v: seq<int>, acc: Ranking)
    requires RankingInvariant(o, acc)
    ensures var r := RankAll(o, v, acc);
            && |r.kept| == |acc.kept|
            && RankingInvariant(o, r)
            && multiset(r.kept) + multiset(r.shed) == multiset(acc.kept) + multiset(acc.shed) + multiset(v)
    decreases |v|
  {
    if |v| > 0 {
      var step := OfferAt(o, acc.kept, v[0], 0);
      OfferPreserves(o, acc.kept, v[0], 0);
      var next := Ranking(step.kept, acc.shed + [step.evicted]);
      forall d | d in next.shed
        ensures BeatsNone(o, next.kept, d)
      {
        if d in acc.shed {
          assert BeatsNone(o, acc.kept, d);
        }
      }
      assert v == [v[0]] + v[1..];
      assert multiset(v) == multiset{v[0]} + multiset(v[1..]);
      assert multiset(step.kept) + multiset{step.evicted} == multiset(acc.kept) + multiset{v[0]};
      assert multiset(next.shed) == multiset(acc.shed) + multiset{step.evicted};
      calc {
        multiset(next.kept) + multiset(next.shed);
        multiset(step.kept) + (multiset(acc.shed) + multiset{step.evicted});
        (multiset(step.kept) + multiset{step.evicted}) + multiset(acc.shed);
        (multiset(acc.kept) + multiset{v[0]}) + multiset(acc.shed);
        multiset(acc.kept) + multiset(acc.shed) + multiset{v[0]};
      }
      RankAllPreserves(o, v[1..], next);
    }
  }

  /** The buffer the source starts from: `n` copies of the padding value. */
  function TopN(o: Order, v: seq<int>, n: nat, pad: int): (r: Ranking)
    ensures |r.kept| == n && Ranked(o, r.kept)
    ensures multiset(r.kept) + multiset(r.shed) == multiset(Fill(n, pad)) + multiset(v)
  {
    var init := Ranking(Fill(n, pad), []);
    assert Ranked(o, init.kept);
    RankAllPreserves(o, v, init);
    RankAll(o, v, init)
  }

  /** The top-n specification: the kept values are in rank order, have the
      requested count, together with the shed values are exactly the input
      plus the padding, and no shed value beats any kept one. */
  lemma TopNIsBest(o: Order, v: seq<int>, n: nat, pad: int)
    ensures var r := TopN(o, v, n, pad);
            && |r.kept| == n
            && Ranked(o, r.kept)
            && multiset(r.kept) + multiset(r.shed) == multiset(Fill(n, pad)) + multiset(v)
            && forall d :: d in r.shed ==> BeatsNone(o, r.kept, d)
  {
    var init := Ranking(Fill(n, pad), []);
    assert Ranked(o, init.kept);
    RankAllPreserves(o, v, init);
  }

  /** The kept buffer of TopN. */
  function Best(o: Order, v: seq<int>, n: nat, pad: int): (r: seq<int>)
    ensures |r| == n
    ensures Ranked(o, r)
  {
    TopNIsBest(o, v, n, pad);
    TopN(o, v, n, pad).kept
  }

  const ULongMax: int := 18446744073709551615

  /** `max_n_elements(vect, n)`, with the shifting loop bounded by the
      buffer (see Findings): the n largest values, largest first. */
  function MaxN(v: seq<int>, n: nat): (r: seq<int>)
    ensures |r| == n
    ensures forall i, j :: 0 <= i < j < n ==> r[i] >= r[j]
  {
    Best(Descending, v, n, 0)
  }

  /** `min_n_elements(vect, n)` on `unsigned long`, padded with ULONG_MAX:
      the n smallest values, smallest first. */
  function MinN(v: seq<int>, n: nat): (r: seq<int>)
    ensures |r| == n
    ensures forall i, j :: 0 <= i < j < n ==> r[i] <= r[j]
  {
    Best(Ascending, v, n, ULongMax)
  }

  /** Every input value is at most the first maximum and at least the first
      minimum, once the padding is out-ranked. */
  lemma {:induction false} ExtremesBoundInput(v: seq<int>, n: nat)
    requires n > 0
    ensures forall x :: x in v ==> x <= MaxN(v, n)[0] || x <= 0
    ensures forall x :: x in v ==> MinN(v, n)[0] <= x || x >= ULongMax
  {
    ExtremeBounds(Descending, v, n, 0);
    ExtremeBounds(Ascending, v, n, ULongMax);
  }

  lemma ExtremeBounds(o: Order, v: seq<int>, n: nat, pad: int)
    requires n > 0
    ensures forall x :: x in v ==> !Beats(o, x, Best(o, v, n, pad)[0]) || !Beats(o, x, pad)
  {
    TopNIsBest(o, v, n, pad);
    var r := TopN(o, v, n, pad);
    forall x | x in v && Beats(o, x, pad)
      ensures !Beats(o, x, r.kept[0])
    {
      assert x in multiset(Fill(n, pad)) + multiset(v);
      if x in r.shed {
        assert BeatsNone(o, r.kept, x);
      } else {
        assert x in multiset(r.kept);
        var k :| 0 <= k < n && r.kept[k] == x;
        assert k == 0 || !Beats(o, r.kept[k], r.kept[0]);
      }
    }
  }

  /** Offering to a two-slot buffer a value that beats its first element. */
  lemma OfferFirstOfTwo(o: Order, a: int, b: int, v: int)
    requires Beats(o, v, a)
    ensures OfferAt(o, [a, b], v, 0) == Offer([v, a], b)
  {
    assert Inserted([a, b], 0, v) == [v, a];
  }

  /** Offering to a two-slot buffer a value that beats only its second
      element. */
  lemma OfferSecondOfTwo(o: Order, a: int, b: int, v: int)
    requires !Beats(o, v, a) && Beats(o, v, b)
    ensures OfferAt(o, [a, b], v, 0) == Offer([a, v], b)
  {
    assert Inserted([a, b], 1, v) == [a, v];
  }

  /** One offer of RankAll. */
  lemma RankAllStep(o: Order, v: seq<int>, acc: Ranking)
    requires |v| > 0
    ensures RankAll(o, v, acc)
            == RankAll(o, v[1..], Ranking(OfferAt(o, acc.kept, v[0], 0).kept,
                                          acc.shed + [OfferAt(o, acc.kept, v[0], 0).evicted]))
  {
  }

  /** The ladder example [800, 1200, 1600, 2000]: the two largest are 2000
      and 1600. */
  lemma LadderTopTwo()
    ensures MaxN([800, 1200, 1600, 2000], 2) == [2000, 1600]
  {
    var v := [800, 1200, 1600, 2000];
    assert Fill(2, 0) == [0, 0];
    assert v[1..] == [1200, 1600, 2000] && v[1..][1..] == [1600, 2000];
    assert v[1..][1..][1..] == [2000] && v[1..][1..][1..][1..] == [];
    OfferFirstOfTwo(Descending, 0, 0, 800);
    RankAllStep(Descending, v, Ranking([0, 0], []));
    OfferFirstOfTwo(Descending, 800, 0, 1200);
    RankAllStep(Descending, v[1..], Ranking([800, 0], [0]));
    OfferFirstOfTwo(Descending, 1200, 800, 1600);
    RankAllStep(Descending, v[1..][1..], Ranking([1200, 800], [0, 0]));
    OfferFirstOfTwo(Descending, 1600, 1200, 2000);
    RankAllStep(Descending, v[1..][1..][1..], Ranking([1600, 1200], [0, 0, 800]));
  }

  /** The same ladder: the two smallest are 800 and 1200. */
  lemma LadderBottomTwo()
    ensures MinN([800, 1200, 1600, 2000], 2) == [800, 1200]
  {
    var v := [800, 1200, 1600, 2000];
    var m := ULongMax;
    assert Fill(2, m) == [m, m];
    assert v[1..] == [1200, 1600, 2000] && v[1..][1..] == [1600, 2000];
    assert v[1..][1..][1..] == [2000] && v[1..][1..][1..][1..] == [];
    OfferFirstOfTwo(Ascending, m, m, 800);
    RankAllStep(Ascending, v, Ranking([m, m], []));
    OfferSecondOfTwo(Ascending, 800, m, 1200);
    RankAllStep(Ascending, v[1..], Ranking([800, m], [m]));
    RankAllStep(Ascending, v[1..][1..], Ranking([800, 1200], [m, m]));
    RankAllStep(Ascending, v[1..][1..][1..], Ranking([800, 1200], [m, m, 1600]));
  }

  /** A buffer after an as-written shift, and whether some write landed
      outside it (such writes are recorded and otherwise dropped). */
  datatype Written = Written(buf: seq<int>, overrun: bool)

  /** The shifting loop as written: `shift` runs from `n_elements` down to
      `i + 1`, so its first write is one past the end of the buffer. */
  function ShiftAsWritten(buf: seq<int>, shift: int, i: nat, overrun: bool): Written
    requires shift <= |buf|
    decreases shift
  {
    if shift < i + 1 then Written(buf, overrun)
    else if shift >= |buf| then ShiftAsWritten(buf, shift - 1, i, true)
    else ShiftAsWritten(buf[shift := buf[shift - 1]], shift - 1, i, overrun)
  }

  /** One offer with the shifting loop as written. */
  function OfferAsWritten(o: Order, buf: seq<int>, v: int, i: nat): Written
    requires i <= |buf|
    decreases |buf| - i
  {
    if i == |buf| then Written(buf, false)
    else if Beats(o, v, buf[i]) then
      var w := ShiftAsWritten(buf, |buf|, i, false);
      if i < |w.buf| then Written(w.buf[i := v], w.overrun) else w
    else OfferAsWritten(o, buf, v, i + 1)
  }

  /** `buf` with the elements at `i + 1 .. shift` replaced by their
      predecessors. */
  function Moved(buf: seq<int>, shift: int, i: nat): (r: seq<int>)
    requires i < |buf|
    ensures |r| == |buf|
  {
    seq(|buf|, k requires 0 <= k < |buf| => if i < k <= shift then buf[k - 1] else buf[k])
  }

  /** Within the buffer the as-written shift moves every element after `i`
      down one place; it overruns exactly when it starts past the end. */
  lemma {:induction false} ShiftAsWrittenMoves(buf: seq<int>, shift: int, i: nat, overrun: bool)
    requires i < |buf| && i <= shift <= |buf|
    ensures ShiftAsWritten(buf, shift, i, overrun).buf == Moved(buf, shift, i)
    ensures ShiftAsWritten(buf, shift, i, overrun).overrun <==> overrun || shift == |buf|
    decreases shift
  {
    if shift < i + 1 {
      assert Moved(buf, shift, i) == buf;
    } else if shift >= |buf| {
      ShiftAsWrittenMoves(buf, shift - 1, i, true);
      assert Moved(buf, shift, i) == Moved(buf, shift - 1, i);
    } else {
      var b := buf[shift := buf[shift - 1]];
      ShiftAsWrittenMoves(b, shift - 1, i, overrun);
      assert Moved(buf, shift, i) == Moved(b, shift - 1, i);
    }
  }

  /** The source's insertion: the buffer contents equal the corrected offer's,
      but every value that enters the buffer first writes one slot past its
      end. */
  lemma {:induction false} OfferAsWrittenOverruns(o: Order, buf: seq<int>, v: int, i: nat)
    requires i <= |buf|
    ensures OfferAsWritten(o, buf, v, i).buf == OfferAt(o, buf, v, i).kept
    ensures OfferAsWritten(o, buf, v, i).overrun
            <==> exists k :: i <= k < |buf| && Beats(o, v, buf[k])
    decreases |buf| - i
  {
    if i == |buf| {
    } else if Beats(o, v, buf[i]) {
      ShiftAsWrittenMoves(buf, |buf|, i, false);
      var w := ShiftAsWritten(buf, |buf|, i, false);
      assert w.buf[i := v] == Inserted(buf, i, v);
    } else {
      OfferAsWrittenOverruns(o, buf, v, i + 1);
      if exists k :: i <= k < |buf| && Beats(o, v, buf[k]) {
        var k :| i <= k < |buf| && Beats(o, v, buf[k]);
        assert k != i;
      }
    }
  }

  /** The smallest case: offering 1200 to two zero slots, as the first
      frequency of a ladder does, writes slot 2 of a two-slot buffer. */
  lemma MaxNAsWrittenExample()
    ensures OfferAsWritten(Descending, [0, 0], 1200, 0) == Written([1200, 0], true)
    ensures OfferAt(Descending, [0, 0], 1200, 0) == Offer([1200, 0], 0)
  {
    OfferAsWrittenOverruns(Descending, [0, 0], 1200, 0);
    assert Inserted([0, 0], 0, 1200) == [1200, 0];
  }

  // ---------------------------------------------------------------------
  // join and pattern_vect_contains

  /** `join(vect, str)`; the source requires a non-empty vector (its loop
      bound underflows otherwise). */
  function Join(v: seq<string>, sep: string): (r: string)
    requires |v| > 0
    ensures v[0] <= r
    decreases |v|
  {
    if |v| == 1 then v[0] else v[0] + sep + Join(v[1..], sep)
  }

  /** Appending an element appends one separator and the element. */
  lemma {:induction false} JoinSnoc(v: seq<string>, x: string, sep: string)
    requires |v| > 0
    ensures Join(v + [x], sep) == Join(v, sep) + sep + x
    decreases |v|
  {
    if |v| == 1 {
      assert (v + [x])[1..] == [x];
    } else {
      assert (v + [x])[1..] == v[1..] + [x];
      JoinSnoc(v[1..], x, sep);
    }
  }

  /** Tokens free of the separator character and of backslashes come back
      from the tokenizer exactly. */
  lemma {:induction false} SplitInvertsJoin(v: seq<string>, c: char)
    requires c != '\\' && |v| > 0
    requires forall k :: 0 <= k < |v| ==> v[k] != "" && c !in v[k] && '\\' !in v[k]
    ensures Text.Split(Join(v, [c]), c) == v
    decreases |v|
  {
    SplitLoopInvertsJoin(v, c);
  }

  lemma {:induction false} SplitLoopInvertsJoin(v: seq<string>, c: char)
    requires c != '\\' && |v| > 0
    requires forall k :: 0 <= k < |v| ==> v[k] != "" && c !in v[k] && '\\' !in v[k]
    ensures Text.SplitLoop(Join(v, [c]), c, "") == v
    decreases |v|
  {
    assert "" + v[0] == v[0];
    if |v| == 1 {
      Text.PlainAbsorbed(v[0], "", c, "");
      assert v[0] + "" == v[0];
    } else {
      var rest := Join(v[1..], [c]);
      assert Join(v, [c]) == v[0] + ([c] + rest);
      Text.PlainAbsorbed(v[0], [c] + rest, c, "");
      var u := [c] + rest;
      assert u[0] == c && u[1..] == rest;
      assert Text.SplitLoop(u, c, v[0]) == [v[0]] + Text.SplitLoop(rest, c, "");
      SplitLoopInvertsJoin(v[1..], c);
      assert v == [v[0]] + v[1..];
    }
  }

  /** `pattern_vect_contains(patterns, value)` */
  function PatternVectContains(patterns: seq<string>, value: string): (r: bool)
    ensures r <==> exists k :: 0 <= k < |patterns| && Text.MatchesPattern(patterns[k], value)
  {
    if |patterns| == 0 then false
    else if Text.MatchesPattern(patterns[0], value) then true
    else
      var r := PatternVectContains(patterns[1..], value);
      assert r <==> exists k :: 1 <= k < |patterns| && Text.MatchesPattern(patterns[k], value) by {
        if r {
          var k :| 0 <= k < |patterns[1..]| && Text.MatchesPattern(patterns[1..][k], value);
          assert patterns[k + 1] == patterns[1..][k];
        }
        if exists k :: 1 <= k < |patterns| && Text.MatchesPattern(patterns[k], value) {
          var k :| 1 <= k < |patterns| && Text.MatchesPattern(patterns[k], value);
          assert patterns[1..][k - 1] == patterns[k];
        }
      }
      r
  }
}
